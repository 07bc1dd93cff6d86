/** The week numbers %G %V %U %W of date/date.h: what the formatter prints, and how the parser turns
    parsed fields back into a date. Years, months and days are narrowed wherever the source stores one. */
module WeekFields {
  import opened Options
  import opened CppInt
  import opened Gregorian
  import opened Weekdays
  import opened IsoWeek

  // ---------- the formatter ----------

  /** The last days of ISO year -32768: valid dates whose ISO year has no predecessor in a `short`. */
  predicate BeforeFirstWeek(d: Ymd) {
    d == Ymd(-32767, 1, 1) || d == Ymd(-32767, 1, 2)
  }

  const WRAPPED_WEEK := -3419451

  /** The week number of a valid date as the code computes it. */
  function WeekShown(d: Ymd): int {
    if BeforeFirstWeek(d) then WRAPPED_WEEK else WeekOf(ToDays(d)).week
  }

  /** %G; the stream fails for a date that is not `ok()`. */
  method FormatG(d: Ymd) returns (r: Option<int>)
    ensures r == if Ok(d) then Some(WeekOf(ToDays(d)).year) else None
  {
    hide FromDays16, ToDays, LastThursday, WeekOf, Diff, Gregorian.Valid, BeforeFirstWeek;
    if !Ok(d) { return None; }
    var ld := ToDays(d);
    var y := FromDays16(ld + 3).year;
    var start := LastThursday(Short(y - 1)) + Diff(1, 4);
    NarrowedStarts(d, ld, y);
    MondayMinusThursday();
    if ld < start {
      y := Short(y - 1);
    }
    return Some(y);
  }

  /** %V: the ISO week, except on the two dates of `BeforeFirstWeek`. */
  method FormatV(d: Ymd) returns (r: Option<int>)
    ensures r == if Ok(d) then Some(WeekShown(d)) else None
    ensures Ok(d) ==> (r == Some(WeekOf(ToDays(d)).week) <==> !BeforeFirstWeek(d))
  {
    hide FromDays16, ToDays, LastThursday, WeekOf, Diff, Gregorian.Valid, BeforeFirstWeek;
    if !Ok(d) { return None; }
    var ld := ToDays(d);
    var y := FromDays16(ld + 3).year;
    var st := LastThursday(Short(y - 1)) + Diff(1, 4);
    NarrowedStarts(d, ld, y);
    IsoYearRange(d, ld, WeekOf(ld));
    MondayMinusThursday();
    if ld < st {
      y := Short(y - 1);
      st := LastThursday(Short(y - 1)) + Diff(1, 4);
    }
    return Some(Quot(ld - st, 7) + 1);
  }

  lemma {:induction false} LastThursdayIncreasing(x: int, y: int)
    requires x <= y
    ensures LastThursday(x) <= LastThursday(y) && (x < y ==> LastThursday(x) < LastThursday(y))
    decreases y - x
  {
    hide LastThursday, LastWeek, WeekOne;
    if x < y {
      StartsApart(x + 1, LastThursday(x), LastThursday(x + 1));
      LongYears(x + 1);
      LastThursdayIncreasing(x + 1, y);
    }
  }

  /** The days of an ISO year lie between its week 1 and the next one's. */
  lemma IsoSpan(n: int, x: IsoDate)
    requires x == WeekOf(n)
    ensures LastThursday(x.year - 1) + 4 <= n < LastThursday(x.year) + 4
    ensures 1 <= x.week <= LastWeek(x.year) && x.week == (n - LastThursday(x.year - 1) - 4) / 7 + 1
  {
    hide LastThursday, LastWeek, WeekOf, IsoDiff, Diff, WeekOne;
    RoundTripIso(x, n);
    StartsApart(x.year, LastThursday(x.year - 1), LastThursday(x.year));
    MondayMinusThursday();
    IsoDiffs(x.weekday);
    DivUnique(n - LastThursday(x.year - 1) - 4, 7, x.week - 1, x.weekday - 1);
  }

  /** The ends of the years a `short` holds: 32767 ends with a week, -32768 two days after its December. */
  lemma ShortWeeks()
    ensures YearStart(-32767) == -12687428 && YearStart(32768) == MAX_DAY + 1
    ensures LastThursday(32767) + 4 == MAX_DAY + 1 && LastThursday(-32768) + 4 == -12687426
    ensures LastThursday(-32769) + 4 == -12687797
  {
    hide LastThursday;
    assert YearStart(-32768) == MIN_DAY;
    AfterLastThursday(32768, LastThursday(32767), LastThursday(32767) + 4);
    AfterLastThursday(-32767, LastThursday(-32768), LastThursday(-32768) + 4);
    AfterLastThursday(-32768, LastThursday(-32769), LastThursday(-32769) + 4);
  }

  lemma OkDays(d: Ymd, n: int)
    requires Ok(d) && n == ToDays(d)
    ensures -12687428 <= n <= MAX_DAY
    ensures BeforeFirstWeek(d) <==> n < -12687426
  {
    hide ToDays, YearStart, Gregorian.Valid, LastThursday;
    ShortWeeks();
    DateInYear(d);
    YearStartIncreasing(-32767, d.year);
    YearStartIncreasing(d.year + 1, 32768);
    JanuaryDay(-32767, 1, -12687428);
    JanuaryDay(-32767, 2, -12687427);
    OrderAgrees(d, Ymd(-32767, 1, 1));
    OrderAgrees(d, Ymd(-32767, 1, 2));
  }

  lemma JanuaryDay(y: int, k: int, n: int)
    requires 1 <= k <= 31 && n == YearStart(y) + k - 1
    ensures Gregorian.Valid(Ymd(y, 1, k)) && ToDays(Ymd(y, 1, k)) == n && FromDays(n) == Ymd(y, 1, k)
  {
    hide FromDays, ToDays, YearStart, IsLeap;
    ToDaysByYear(y, 1, k);
    NamesItsDate(Ymd(y, 1, k), n, FromDays(n));
  }

  /** ISO years of valid dates fit a `short`. */
  lemma IsoYearRange(d: Ymd, n: int, x: IsoDate)
    requires Ok(d) && n == ToDays(d) && x == WeekOf(n)
    ensures -32768 <= x.year <= 32767 && 1 <= x.week <= 53
    ensures x.year == -32768 <==> BeforeFirstWeek(d)
  {
    hide ToDays, YearStart, WeekOf, LastThursday, Ok, BeforeFirstWeek, LastWeek;
    ShortWeeks();
    OkDays(d, n);
    IsoSpan(n, x);
    LongYears(x.year);
    if x.year <= -32769 {
      LastThursdayIncreasing(x.year, -32769);
    } else if x.year == -32768 {
    } else if x.year <= 32767 {
      LastThursdayIncreasing(-32768, x.year - 1);
    } else {
      LastThursdayIncreasing(32767, x.year - 1);
    }
  }

  lemma ThreeDaysOnRange(n: int, y: int)
    requires -12687428 <= n <= MAX_DAY && y == FromDays(n + 3).year
    ensures -32767 <= y <= 32768
  {
    hide FromDays, YearStart, LastThursday;
    ShortWeeks();
    YearHolds(n + 3, y);
    if y < -32767 {
      YearStartIncreasing(y + 1, -32767);
    } else if y > 32768 {
      YearStartIncreasing(32769, y);
      YearLengths(32768);
    }
  }

  /** The branch of the code with every year narrowed to a `short`. */
  lemma NarrowedStarts(d: Ymd, n: int, y: int)
    requires Ok(d) && n == ToDays(d) && y == FromDays16(n + 3).year
    ensures var y' := Short(y - 1);
            if n < LastThursday(y') + 4
            then WeekOf(n).year == y' && WeekShown(d) == Quot(n - LastThursday(Short(y' - 1)) - 4, 7) + 1
            else WeekOf(n).year == y && WeekShown(d) == Quot(n - LastThursday(y') - 4, 7) + 1
  {
    hide FromDays, ToDays, LastThursday, WeekOf, Ok, BeforeFirstWeek, Short;
    var y0 := FromDays(n + 3).year;
    OkDays(d, n);
    ShortWeeks();
    ThreeDaysOnRange(n, y0);
    ShortShort(y0, -1);
    ShortIdentity(y0);
    ShortIdentity(y0 - 1);
    ShortIdentity(y0 - 2);
    CodeStarts(n, y0, LastThursday(y0 - 2), LastThursday(y0 - 1), LastThursday(y0));
    IsoYearRange(d, n, WeekOf(n));
    WrapsToTop(n);
  }

  lemma WrapsToTop(n: int)
    ensures Short(-32769) == 32767
    ensures -12687428 <= n < -12687426 ==> Quot(n - MAX_DAY - 1, 7) + 1 == WRAPPED_WEEK
  {}

  /** The first `wd` of the year: the source's `wd[1]/January/year`. */
  function First(y: int, wd: int): int {
    NthToDays(Ymwd(y, 1, wd, 1))
  }

  /** %U is this for Sundays, %W for Mondays: how many of them the year has had, the day itself included. */
  function CountWeekdays(a: int, n: int, wd: int): nat
    decreases n - a + 1
  {
    if n < a then 0 else CountWeekdays(a, n - 1, wd) + if WeekdayOf(n) == wd then 1 else 0
  }

  function WeekNumber(d: Ymd, wd: int): nat {
    CountWeekdays(YearStart(d.year), ToDays(d), wd)
  }

  method FormatWeek(d: Ymd, wd: int) returns (r: Option<int>)
    requires 0 <= wd <= 6
    ensures r == if Ok(d) then Some(WeekNumber(d, wd)) else None
  {
    hide ToDays, First, WeekdayOf, YearStart, CountWeekdays, Gregorian.Valid;
    if !Ok(d) { return None; }
    DateInYear(d);
    var ld := ToDays(d);
    var st := First(d.year, wd);
    FirstInYear(d.year, wd, st);
    CountByDivision(YearStart(d.year), ld, wd, st);
    return Some(if ld < st then 0 else Quot(ld - st, 7) + 1);
  }

  lemma JanuaryFirst(y: int)
    ensures MonthStart(y, 1) == YearStart(y)
  {
    ToDaysByYear(y, 1, 1);
  }

  lemma FirstInYear(y: int, wd: int, st: int)
    requires 0 <= wd <= 6 && st == First(y, wd)
    ensures YearStart(y) <= st < YearStart(y) + 7 && WeekdayOf(st) == wd
  {
    hide MonthStart, YearStart, WeekdayOf, Diff;
    JanuaryFirst(y);
    AheadTo(wd, YearStart(y), Diff(wd, WeekdayOf(YearStart(y))));
  }

  lemma {:induction false} CountByDivision(a: int, n: int, wd: int, st: int)
    requires a <= st < a + 7 && WeekdayOf(st) == wd
    ensures n < st ==> CountWeekdays(a, n, wd) == 0
    ensures n >= a ==> CountWeekdays(a, n, wd) == (n - st) / 7 + 1
    decreases n - a + 1
  {
    hide WeekdayOf;
    if n >= a {
      CountByDivision(a, n - 1, wd, st);
      WeekdayHits(n, st);
      DivStep(n - 1 - st, 7);
    }
  }

  lemma WeekdayHits(n: int, st: int)
    ensures WeekdayOf(n) == WeekdayOf(st) <==> (n - st) % 7 == 0
  {
    hide WeekdayOf;
    WeekdayIsModulo(n);
    WeekdayIsModulo(st);
    var q, r := (st + 4) / 7, (st + 4) % 7;
    if (n - st) % 7 == 0 {
      DivUnique(n + 4, 7, q + (n - st) / 7, r);
    }
    if (n + 4) % 7 == r {
      DivUnique(n - st, 7, (n + 4) / 7 - q, 0);
    }
  }

  // ---------- the parser ----------

  const NOT_A_YEAR := -0x8000_0000
  const NOT_A_MONTH := 0
  const NOT_A_DAY := 0
  const NOT_A_WEEKDAY := 8
  const NOT_A_WEEK := 100

  /** What the format string has filled in; the constants above mark a missing field. */
  datatype Fields = Fields(Y: int, m: int, d: int, G: int, V: int, U: int, W: int, wd: int)
  {
    predicate HasG() { G != NOT_A_YEAR }
    predicate HasV() { V != NOT_A_WEEK }
    predicate HasU() { U != NOT_A_WEEK }
    predicate HasW() { W != NOT_A_WEEK }
    predicate HasWeekday() { wd != NOT_A_WEEKDAY }
    predicate HasWeekDate() { HasG() && HasV() && HasWeekday() }
  }

  /** The parser's Y, m and d while it works; a year out of range counts as missing. */
  datatype Partial = Partial(Y: Option<int>, m: Option<int>, d: Option<int>)

  /** `weekday{unsigned}` reads 7 as Sunday. */
  function AsWeekday(wd: int): int {
    if wd != 7 then Byte(wd) else 0
  }

  function FromG(G: int, V: int, wd: int): int {
    LastThursday(G - 1) + Diff(1, 4) + 7 * (V - 1) + Diff(AsWeekday(wd), 1)
  }

  /** The source computes with `year{G-1}`, so this ISO year is the one it uses. */
  function IsoYear16(G: int): int {
    Short(G - 1) + 1
  }

  function FromWeek(Y: int, first: int, n: int, wd: int): int {
    First(Y, first) + 7 * (n - 1) + Diff(AsWeekday(wd), first)
  }

  function Filled(t: Ymd): Partial {
    Partial(Some(t.year), Some(t.month), Some(t.day))
  }

  /** A trial date fills the missing fields and must agree with the given ones. */
  function Merge(p: Partial, t: Ymd): Option<Partial> {
    if p.Y.Some? && p.Y.value != t.year then None
    else if p.m.Some? && p.m.value != t.month then None
    else if p.d.Some? && p.d.value != t.day then None
    else Some(Filled(t))
  }

  /** A month or day as `month{unsigned}` and `day{unsigned}` read it; 0 means missing. */
  function Given(x: int): Option<int> {
    if x == 0 then None else Some(Byte(x))
  }

  function GivenFields(f: Fields): Partial {
    Partial(if YearOk(f.Y) then Some(f.Y) else None, Given(f.m), Given(f.d))
  }

  /** `year{Y}/m/d`: a missing year narrows to 0. */
  function Date(p: Partial): Ymd {
    Ymd(if p.Y.Some? then p.Y.value else Short(NOT_A_YEAR), if p.m.Some? then p.m.value else 0,
        if p.d.Some? then p.d.value else 0)
  }

  function WeekDateTrial(f: Fields): Ymd {
    FromDays16(FromG(IsoYear16(f.G), f.V, f.wd))
  }

  function MergeG(f: Fields, p: Partial): Option<Partial> {
    if f.HasWeekDate() then Merge(p, WeekDateTrial(f)) else Some(p)
  }

  function MergeWeek(f: Fields, p: Partial, n: int, first: int): Option<Partial> {
    if p.Y.Some? && n != NOT_A_WEEK && f.HasWeekday()
    then Merge(p, FromDays16(FromWeek(p.Y.value, first, n, f.wd)))
    else Some(p)
  }

  /** A week date fixed the day, so the single week fields are not looked at again. */
  predicate Computed(f: Fields) {
    f.HasWeekDate() || (f.HasWeekday() && YearOk(f.Y) && (f.HasU() || f.HasW()))
  }

  /** The given week fields are those of `d`, where `week` stands for its ISO week. */
  predicate WeekFieldsAre(f: Fields, d: Ymd, week: int) {
    && (f.HasG() ==> f.G == WeekOf(ToDays(d)).year)
    && (f.HasV() ==> f.V == week)
    && (f.HasU() ==> f.U == WeekNumber(d, 0))
    && (f.HasW() ==> f.W == WeekNumber(d, 1))
  }

  function Check(f: Fields, d: Ymd): Option<Ymd> {
    if !Ok(d) then Some(d)
    else if f.HasWeekday() && f.wd != WeekdayOf(ToDays(d)) then None
    else if Computed(f) || WeekFieldsAre(f, d, WeekShown(d)) then Some(d)
    else None
  }

  /** The date the parser stores, or `None` where it jumps to `broken`. */
  function Parse(f: Fields): Option<Ymd> {
    var p1 :- MergeG(f, GivenFields(f));
    var p2 :- MergeWeek(f, p1, f.U, 0);
    var p3 :- MergeWeek(f, p2, f.W, 1);
    Check(f, Date(p3))
  }

  // ---------- the parser as the source runs it ----------

  method MergeTrial(Y0: Option<int>, m0: int, d0: int, n: int)
    returns (ok: bool, Y: Option<int>, m: int, d: int)
    ensures Merge(Partial(Y0, Given(m0), Given(d0)), FromDays16(n)) ==
            if ok then Some(Partial(Y, Given(m), Given(d))) else None
  {
    hide FromDays16;
    var trial := FromDays16(n);
    RealFields(n, trial);
    ok, Y, m, d := false, Y0, m0, d0;
    if Y == None {
      Y := Some(trial.year);
    } else if Y != Some(trial.year) {
      return;
    }
    if m == NOT_A_MONTH {
      m := trial.month;
    } else if Byte(m) != trial.month {
      return;
    }
    if d == NOT_A_DAY {
      d := trial.day;
    } else if Byte(d) != trial.day {
      return;
    }
    ok := true;
  }

  method ParseDate(f: Fields) returns (r: Option<Ymd>)
    ensures r == Parse(f)
  {
    hide FromDays16, ToDays, FromG, FromWeek, WeekOf, WeekNumber, WeekdayOf, LastThursday, Diff, Ok, Merge, WeekShown,
         Given, Byte, Short;
    var Y, m, d := Some(f.Y), f.m, f.d;
    if f.Y < -32767 || f.Y > 32767 {
      Y := None;
    }
    var computed, ok := false, true;
    if f.G != NOT_A_YEAR && f.V != NOT_A_WEEK && f.wd != NOT_A_WEEKDAY {
      ok, Y, m, d := MergeTrial(Y, m, d, FromG(IsoYear16(f.G), f.V, f.wd));
      if !ok { return None; }
      computed := true;
    }
    if Y != None && f.U != NOT_A_WEEK && f.wd != NOT_A_WEEKDAY {
      ok, Y, m, d := MergeTrial(Y, m, d, FromWeek(Y.value, 0, f.U, f.wd));
      if !ok { return None; }
      computed := true;
    }
    if Y != None && f.W != NOT_A_WEEK && f.wd != NOT_A_WEEKDAY {
      ok, Y, m, d := MergeTrial(Y, m, d, FromWeek(Y.value, 1, f.W, f.wd));
      if !ok { return None; }
      computed := true;
    }
    var ymd := Ymd(if Y.Some? then Y.value else Short(NOT_A_YEAR), Byte(m), Byte(d));
    DateOfFields(Y, m, d);
    if Ok(ymd) {
      if f.wd != NOT_A_WEEKDAY && f.wd != WeekdayOf(ToDays(ymd)) {
        return None;
      }
      if !computed {
        var agree := CheckWeeks(f, ymd);
        if !agree { return None; }
      }
    }
    return Some(ymd);
  }

  lemma DateOfFields(Y: Option<int>, m: int, d: int)
    ensures Date(Partial(Y, Given(m), Given(d))) ==
            Ymd(if Y.Some? then Y.value else Short(NOT_A_YEAR), Byte(m), Byte(d))
  {}

  /** The comparisons made when no week date fixed the day. */
  method CheckWeeks(f: Fields, ymd: Ymd) returns (agree: bool)
    requires Ok(ymd)
    ensures agree == WeekFieldsAre(f, ymd, WeekShown(ymd))
  {
    hide FromDays16, ToDays, WeekOf, WeekdayOf, LastThursday, Diff, First, YearStart, CountWeekdays, Gregorian.Valid,
         WeekShown;
    var sd := ToDays(ymd);
    DateInYear(ymd);
    if f.G != NOT_A_YEAR || f.V != NOT_A_WEEK {
      var trial := FromDays16(sd + 3).year;
      var start := LastThursday(Short(trial - 1)) + Diff(1, 4);
      NarrowedStarts(ymd, sd, trial);
      MondayMinusThursday();
      if sd < start {
        trial := Short(trial - 1);
        if f.V != NOT_A_WEEK {
          start := LastThursday(Short(trial - 1)) + Diff(1, 4);
        }
      }
      if f.G != NOT_A_YEAR && f.G != trial {
        return false;
      }
      if f.V != NOT_A_WEEK && f.V != Quot(sd - start, 7) + 1 {
        return false;
      }
    }
    if f.U != NOT_A_WEEK {
      var start := First(ymd.year, 0);
      FirstInYear(ymd.year, 0, start);
      CountByDivision(YearStart(ymd.year), sd, 0, start);
      if f.U != (sd - start) / 7 + 1 {
        return false;
      }
    }
    if f.W != NOT_A_WEEK {
      var start := First(ymd.year, 1);
      FirstInYear(ymd.year, 1, start);
      CountByDivision(YearStart(ymd.year), sd, 1, start);
      if f.W != (sd - start) / 7 + 1 {
        return false;
      }
    }
    return true;
  }

  // ---------- recomposition ----------

  lemma DiffInRange(w: int, first: int)
    requires 0 <= w <= 6 && 0 <= first <= 1
    ensures Diff(AsWeekday(w), first) == if w >= first then w - first else w - first + 7
  {
    hide Diff;
    DiffIsModulo(w, first);
  }

  /** The parser's week-date formula inverts the formatter's %G, %V and weekday. */
  lemma RecomposeG(n: int)
    ensures FromG(WeekOf(n).year, WeekOf(n).week, WeekdayOf(n)) == n
  {
    hide WeekOf, LastThursday, Diff, WeekdayOf, IsoDiff, IsoWeek.Valid;
    RoundTripIso(WeekOf(n), n);
    WeekdayIsModulo(n);
    DiffInRange(WeekdayOf(n), 1);
    WeekdayOfWeek(n, WeekOf(n));
    IsoDiffs(WeekOf(n).weekday);
  }

  /** With the year narrowed it does so exactly where the year before the ISO year fits a `short`. */
  lemma RecomposeG16(n: int)
    ensures var x := WeekOf(n);
            FromG(IsoYear16(x.year), x.week, WeekdayOf(n)) == n <==> -32767 <= x.year <= 32768
  {
    hide WeekOf, LastThursday, Diff, WeekdayOf, Short;
    var x := WeekOf(n);
    RecomposeG(n);
    ShortIdentity(x.year - 1);
    if Short(x.year - 1) < x.year - 1 {
      LastThursdayIncreasing(Short(x.year - 1), x.year - 1);
    } else {
      LastThursdayIncreasing(x.year - 1, Short(x.year - 1));
    }
  }

  lemma WeekdayOfWeek(n: int, x: IsoDate)
    requires x == WeekOf(n)
    ensures x.weekday == WeekdayNumber(n)
  {
    hide FromDays, YearStart;
  }

  /** The parser's formula for %U (`first` 0) or %W (`first` 1) inverts the formatter's, week 0 included. */
  lemma RecomposeWeek(d: Ymd, first: int)
    requires Gregorian.Valid(d) && 0 <= first <= 1
    ensures FromWeek(d.year, first, WeekNumber(d, first), WeekdayOf(ToDays(d))) == ToDays(d)
  {
    hide ToDays, First, YearStart, WeekdayOf, Diff, CountWeekdays, Gregorian.Valid;
    var n, st := ToDays(d), First(d.year, first);
    DateInYear(d);
    FirstInYear(d.year, first, st);
    CountByDivision(YearStart(d.year), n, first, st);
    WeekdayIsModulo(n);
    WeekdayIsModulo(st);
    DiffInRange(WeekdayOf(n), first);
    SameRemainder(n, st, WeekdayOf(n), first);
  }

  lemma SameRemainder(n: int, st: int, w: int, first: int)
    requires 0 <= w <= 6 && 0 <= first <= 1 && w == (n + 4) % 7 && first == (st + 4) % 7
    ensures n == st + 7 * ((n - st) / 7) + if w >= first then w - first else w - first + 7
  {
    var r := if w >= first then w - first else w - first + 7;
    DivUnique(n - st, 7, (n + 4) / 7 - (st + 4) / 7 - (if w >= first then 0 else 1), r);
  }

  /** And every recomposed date that stays in its year has the week number it was made from. */
  lemma WeekNumberOf(d: Ymd, first: int, k: int, w: int)
    requires Gregorian.Valid(d) && 0 <= first <= 1 && 0 <= w <= 6
    requires ToDays(d) == FromWeek(d.year, first, k, w)
    ensures WeekNumber(d, first) == k
  {
    hide ToDays, First, YearStart, WeekdayOf, Diff, CountWeekdays, Gregorian.Valid;
    var n, st := ToDays(d), First(d.year, first);
    DateInYear(d);
    FirstInYear(d.year, first, st);
    CountByDivision(YearStart(d.year), n, first, st);
    DiffInRange(w, first);
    DivUnique(n - st, 7, k - 1, Diff(AsWeekday(w), first));
  }

  // ---------- what the parser accepts ----------

  /** Every given field is what the formatter prints for `d`. */
  predicate Matches(f: Fields, d: Ymd) {
    && (f.Y == NOT_A_YEAR || f.Y == d.year)
    && (f.m == NOT_A_MONTH || f.m == d.month)
    && (f.d == NOT_A_DAY || f.d == d.day)
    && (f.HasWeekday() ==> f.wd == WeekdayOf(ToDays(d)))
    && WeekFieldsAre(f, d, WeekOf(ToDays(d)).week)
  }

  /** The fields name a day. */
  predicate Sufficient(f: Fields) {
    || Computed(f)
    || (YearOk(f.Y) && f.m != NOT_A_MONTH && f.d != NOT_A_DAY)
  }

  /** Nothing known so far speaks against `d`. */
  predicate Fits(p: Partial, d: Ymd) {
    && (p.Y == None || p.Y == Some(d.year))
    && (p.m == None || p.m == Some(d.month))
    && (p.d == None || p.d == Some(d.day))
  }

  lemma RoundTripOk(d: Ymd, n: int)
    requires Ok(d) && n == ToDays(d)
    ensures FromDays16(n) == d && Gregorian.Valid(d)
  {
    hide FromDays, ToDays, Gregorian.Valid;
    NamesItsDate(d, n, FromDays(n));
    ShortIdentity(d.year);
  }

  lemma MergeGSame(f: Fields, p: Partial, d: Ymd)
    requires Ok(d) && Matches(f, d) && Fits(p, d) && (f.HasWeekDate() ==> !BeforeFirstWeek(d))
    ensures MergeG(f, p) == if f.HasWeekDate() then Some(Filled(d)) else Some(p)
  {
    hide FromDays16, ToDays, FromG, WeekOf, WeekNumber, WeekdayOf, Ok, BeforeFirstWeek;
    if f.HasWeekDate() {
      RecomposeG(ToDays(d));
      IsoYearRange(d, ToDays(d), WeekOf(ToDays(d)));
      ShortIdentity(f.G - 1);
      RoundTripOk(d, ToDays(d));
    }
  }

  lemma MergeWeekSame(f: Fields, p: Partial, d: Ymd, first: int, k: int)
    requires Ok(d) && Matches(f, d) && 0 <= first <= 1 && k == (if first == 0 then f.U else f.W) && Fits(p, d)
    ensures MergeWeek(f, p, k, first) ==
            if p.Y != None && k != NOT_A_WEEK && f.HasWeekday() then Some(Filled(d)) else Some(p)
  {
    hide FromDays16, ToDays, FromWeek, WeekOf, WeekNumber, WeekdayOf, Ok;
    if p.Y != None && k != NOT_A_WEEK && f.HasWeekday() {
      RoundTripOk(d, ToDays(d));
      RecomposeWeek(d, first);
    }
  }

  /** %G or %V alone beside a date fixed by %U or %W: the week fields are not compared again. */
  predicate Unchecked(f: Fields) {
    f.HasG() != f.HasV() && Computed(f)
  }

  /** Round trip: from any sufficient choice of the fields of a date the parser returns that date, except that a week
      number it looks at loses the two dates whose week it computes wrongly. */
  lemma ParseComplete(f: Fields, d: Ymd)
    requires Ok(d) && Matches(f, d) && Sufficient(f)
    ensures Parse(f) == Some(d) <==> !(BeforeFirstWeek(d) && f.HasV() && !Unchecked(f))
  {
    hide Parse, ToDays, WeekOf, WeekNumber, WeekdayOf, Gregorian.Valid, BeforeFirstWeek;
    if BeforeFirstWeek(d) && f.HasV() && !Unchecked(f) {
      FirstWeekLost(f, d);
    } else {
      ParseReturns(f, d);
    }
  }

  lemma ParseReturns(f: Fields, d: Ymd)
    requires Ok(d) && Matches(f, d) && Sufficient(f) && !(BeforeFirstWeek(d) && f.HasV() && !Unchecked(f))
    ensures Parse(f) == Some(d)
  {
    hide FromDays16, ToDays, FromWeek, FromG, WeekOf, WeekNumber, WeekdayOf, Gregorian.Valid, MergeG, MergeWeek,
         BeforeFirstWeek, LastDay;
    var p0 := GivenFields(f);
    GivenFits(f, d);
    MergeGSame(f, p0, d);
    var p1 := MergeG(f, p0).value;
    MergeWeekSame(f, p1, d, 0, f.U);
    var p2 := MergeWeek(f, p1, f.U, 0).value;
    MergeWeekSame(f, p2, d, 1, f.W);
  }

  lemma GivenFits(f: Fields, d: Ymd)
    requires Ok(d) && Matches(f, d)
    ensures Fits(GivenFields(f), d)
  {
    hide ToDays, WeekOf, WeekNumber, WeekdayOf, LastDay;
    ShortestMonth(d.year, d.month);
  }

  /** The week date of 1 or 2 January -32767 lands on another day. */
  lemma FirstWeekElsewhere(d: Ymd, x: IsoDate, wd: int)
    requires BeforeFirstWeek(d) && x == WeekOf(ToDays(d)) && wd == WeekdayOf(ToDays(d))
    ensures FromDays16(FromG(IsoYear16(x.year), x.week, wd)) == d.(day := d.day + 3)
  {
    hide WeekOf, LastThursday, WeekdayOf, ToDays, FromDays;
    FirstDates(d);
    ShortWeeks();
    OkDays(d, ToDays(d));
    IsoYearRange(d, ToDays(d), x);
    IsoSpan(ToDays(d), x);
    MondayMinusThursday();
    WeekdayIsModulo(ToDays(d));
    DiffInRange(wd, 1);
    WrapsToTop(ToDays(d));
    Year32769();
  }

  lemma FirstDates(d: Ymd)
    requires BeforeFirstWeek(d)
    ensures Ok(d) && ToDays(d) == -12687429 + d.day
  {
    hide ToDays, YearStart, LastThursday, Gregorian.Valid, FromDays;
    ShortWeeks();
    JanuaryDay(-32767, d.day, -12687429 + d.day);
  }

  lemma Year32769()
    ensures FromDays(11249107) == Ymd(32769, 1, 4) && FromDays(11249108) == Ymd(32769, 1, 5)
    ensures Short(32769) == -32767
  {
    hide ToDays, Gregorian.Valid, FromDays;
    assert YearStart(32769) == 11249104;
    JanuaryDay(32769, 4, 11249107);
    JanuaryDay(32769, 5, 11249108);
  }

  lemma FirstWeekLost(f: Fields, d: Ymd)
    requires BeforeFirstWeek(d) && Ok(d) && Matches(f, d) && f.HasV() && !Unchecked(f)
    ensures Parse(f) != Some(d)
  {
    hide Parse, ToDays, FromDays16, FromG, WeekOf, WeekNumber, WeekdayOf, Ok;
    if Parse(f) == Some(d) {
      ParseSound(f, d);
      IsoYearRange(d, ToDays(d), WeekOf(ToDays(d)));
      FirstWeekElsewhere(d, WeekOf(ToDays(d)), WeekdayOf(ToDays(d)));
    }
  }

  lemma StepKeeps(f: Fields, p: Partial, k: int, first: int, q: Partial)
    requires MergeWeek(f, p, k, first) == Some(q)
    ensures p.Y == None ==> q == p
    ensures (p.Y == None || p.Y == q.Y) && (p.m == None || p.m == q.m) && (p.d == None || p.d == q.d)
    ensures forall t :: p == Filled(t) ==> q == p
  {
    hide FromDays16, FromWeek;
  }

  /** The day number of a trial date near the year it lands in has not been narrowed. */
  lemma NearYear(n: int, y: int)
    requires YearStart(y - 1) <= n < YearStart(y + 2) && FromDays16(n).year == y
    ensures FromDays16(n) == FromDays(n)
  {
    hide FromDays, YearStart, Short;
    var x := FromDays(n).year;
    YearHolds(n, x);
    if x < y - 1 {
      YearStartIncreasing(x + 1, y - 1);
    } else if x > y + 1 {
      YearStartIncreasing(y + 2, x);
    }
    assert (Short(x) - x) % 65536 == 0;
  }

  lemma DayOfTrial(n: int, t: Ymd)
    requires t == FromDays(n)
    ensures ToDays(t) == n && Gregorian.Valid(t)
  {
    hide FromDays, ToDays, Gregorian.Valid;
    DateOfDay(n, t);
  }

  /** The day of a week number that a year can have is at most two weeks away from the year. */
  lemma WeekInReach(y: int, first: int, k: int, wd: int)
    requires 0 <= first <= 1 && 0 <= wd <= 6 && 0 <= k <= 53
    ensures YearStart(y - 1) <= FromWeek(y, first, k, wd) < YearStart(y + 2)
  {
    hide First, YearStart, Diff;
    FirstInYear(y, first, First(y, first));
    DiffInRange(wd, first);
    YearLengths(y - 1);
    YearLengths(y);
    YearLengths(y + 1);
  }

  /** A merged %U or %W of at most 53 fixed the final date, whose own week number it is. */
  lemma StepWeekSound(f: Fields, p: Partial, k: int, first: int, t: Ymd)
    requires 0 <= first <= 1 && 0 <= f.wd <= 6 && p.Y != None && 0 <= k <= 53
    requires t == FromDays16(FromWeek(p.Y.value, first, k, f.wd)) && Merge(p, t).Some?
    ensures WeekNumber(t, first) == k
  {
    hide FromDays, FromDays16, ToDays, FromWeek, WeekNumber, Gregorian.Valid, YearStart;
    var n := FromWeek(p.Y.value, first, k, f.wd);
    WeekInReach(p.Y.value, first, k, f.wd);
    NearYear(n, t.year);
    DayOfTrial(n, t);
    WeekNumberOf(t, first, k, f.wd);
  }

  /** A %U or %W of at most 53 is always honoured. */
  lemma WeeksHonoured(f: Fields, p1: Partial, p2: Partial, p3: Partial, d: Ymd)
    requires MergeWeek(f, p1, f.U, 0) == Some(p2) && MergeWeek(f, p2, f.W, 1) == Some(p3) && d == Date(p3)
    requires f.HasWeekday() ==> 0 <= f.wd <= 6
    requires p1.Y == None ==> WeekFieldsAre(f, d, WeekShown(d))
    requires !f.HasWeekday() ==> WeekFieldsAre(f, d, WeekShown(d))
    ensures f.HasU() && 0 <= f.U <= 53 ==> f.U == WeekNumber(d, 0)
    ensures f.HasW() && 0 <= f.W <= 53 ==> f.W == WeekNumber(d, 1)
  {
    hide FromDays16, ToDays, FromWeek, WeekOf, WeekNumber, Gregorian.Valid, WeekShown;
    StepKeeps(f, p1, f.U, 0, p2);
    StepKeeps(f, p2, f.W, 1, p3);
    if f.HasWeekday() && p1.Y.Some? {
      if f.HasU() && 0 <= f.U <= 53 {
        var t := FromDays16(FromWeek(p1.Y.value, 0, f.U, f.wd));
        StepWeekSound(f, p1, f.U, 0, t);
        assert p2 == Filled(t);
      }
      if f.HasW() && 0 <= f.W <= 53 {
        StepWeekSound(f, p2, f.W, 1, FromDays16(FromWeek(p2.Y.value, 1, f.W, f.wd)));
      }
    }
  }

  lemma RealFields(n: int, t: Ymd)
    requires t == FromDays16(n)
    ensures 1 <= t.month <= 12 && 1 <= t.day <= 31
  {
    hide FromDays, LastDay;
    FromDaysValid(n);
    ShortestMonth(FromDays(n).year, t.month);
  }

  /** What an accepted valid date keeps: a year in range, month and day up to their narrowing, the weekday, week numbers
      of at most 53. A full week date has fixed the day; without a fixed day every week field was compared. */
  lemma ParseSound(f: Fields, d: Ymd)
    requires Parse(f) == Some(d) && Ok(d)
    ensures YearOk(f.Y) ==> f.Y == d.year
    ensures (f.m == NOT_A_MONTH || Byte(f.m) == d.month) && (f.d == NOT_A_DAY || Byte(f.d) == d.day)
    ensures f.HasWeekday() ==> f.wd == WeekdayOf(ToDays(d))
    ensures f.HasU() && 0 <= f.U <= 53 ==> f.U == WeekNumber(d, 0)
    ensures f.HasW() && 0 <= f.W <= 53 ==> f.W == WeekNumber(d, 1)
    ensures f.HasWeekDate() ==> d == WeekDateTrial(f)
    ensures !Computed(f) ==> WeekFieldsAre(f, d, WeekShown(d))
  {
    hide ToDays, WeekDateTrial, WeekOf, WeekNumber, WeekdayOf, Ok, MergeWeek, WeekShown, Byte;
    var p0 := GivenFields(f);
    var p1 := MergeG(f, p0).value;
    var p2 := MergeWeek(f, p1, f.U, 0).value;
    var p3 := MergeWeek(f, p2, f.W, 1).value;
    StepKeeps(f, p1, f.U, 0, p2);
    StepKeeps(f, p2, f.W, 1, p3);
    WeekdayIsModulo(ToDays(d));
    WeeksHonoured(f, p1, p2, p3, d);
  }

  /** A given week date is the date's own week date exactly when the year has that week. */
  lemma WeekDateExists(G: int, V: int, wd: int)
    requires 0 <= wd <= 6
    ensures var x := WeekOf(FromG(G, V, wd));
            x.year == G && x.week == V <==> 1 <= V <= LastWeek(G)
  {
    hide WeekOf, LastThursday, IsoDiff, Diff, LastWeek;
    var iso := if wd == 0 then 7 else wd;
    DiffInRange(wd, 1);
    IsoDiffs(iso);
    assert FromG(G, V, wd) == SysDays(IsoDate(G, V, iso));
    RoundTripIso(IsoDate(G, V, iso), FromG(G, V, wd));
  }

  /** The day that %U, or else %W, names in the unchecked combination. */
  function DayByWeek(f: Fields): int {
    if f.HasU() then FromWeek(f.Y, 0, f.U, f.wd) else FromWeek(f.Y, 1, f.W, f.wd)
  }

  /** When the given fields alone guarantee that an accepted date has them all: year and ISO year are in range, month
      and day fit a byte, week numbers are those of weeks that exist, and a %G or %V that is not compared is the right
      one for the day. */
  predicate Trustworthy(f: Fields) {
    && (f.Y == NOT_A_YEAR || YearOk(f.Y))
    && 0 <= f.m <= 255 && 0 <= f.d <= 255
    && (f.HasU() ==> 0 <= f.U <= 53) && (f.HasW() ==> 0 <= f.W <= 53) && (f.HasV() ==> 1 <= f.V <= 53)
    && (f.HasWeekDate() ==> YearOk(f.G) && f.V <= LastWeek(f.G))
    && (Unchecked(f) ==>
          var x := WeekOf(DayByWeek(f)); if f.HasG() then f.G == x.year else f.V == x.week)
  }

  lemma DayByWeekIsDay(f: Fields, d: Ymd)
    requires Unchecked(f) && Ok(d) && f.Y == d.year && f.wd == WeekdayOf(ToDays(d))
    requires (f.HasU() ==> f.U == WeekNumber(d, 0)) && (f.HasW() ==> f.W == WeekNumber(d, 1))
    ensures DayByWeek(f) == ToDays(d)
  {
    hide ToDays, FromWeek, WeekNumber, WeekdayOf, Gregorian.Valid;
    RecomposeWeek(d, 0);
    RecomposeWeek(d, 1);
  }

  /** Days of ISO years in range are days a narrowed date can name. */
  lemma IsoYearFits(n: int, x: IsoDate)
    requires x == WeekOf(n) && YearOk(x.year)
    ensures MIN_DAY <= n <= MAX_DAY
  {
    hide WeekOf, LastThursday, LastWeek;
    ShortWeeks();
    IsoSpan(n, x);
    LastThursdayIncreasing(-32768, x.year - 1);
    LastThursdayIncreasing(x.year, 32767);
  }

  /** An accepted week date is the date's own exactly when its year is in range and has that week. */
  lemma WeekDateHonoured(f: Fields, d: Ymd, x: IsoDate)
    requires Ok(d) && d == WeekDateTrial(f) && f.wd == WeekdayOf(ToDays(d)) && x == WeekOf(ToDays(d))
    ensures f.G == x.year && f.V == x.week <==> YearOk(f.G) && 1 <= f.V <= LastWeek(f.G)
  {
    hide FromDays16, ToDays, FromG, WeekOf, WeekdayOf, LastWeek, Ok, BeforeFirstWeek, LastThursday;
    var n := FromG(f.G, f.V, f.wd);
    WeekdayIsModulo(ToDays(d));
    IsoYearRange(d, ToDays(d), x);
    IsoSpan(ToDays(d), x);
    if f.G == x.year && f.V == x.week && BeforeFirstWeek(d) {
      FirstWeekElsewhere(d, x, f.wd);
    }
    if YearOk(f.G) && 1 <= f.V <= LastWeek(f.G) {
      ShortIdentity(f.G - 1);
      WeekDateExists(f.G, f.V, f.wd);
      IsoYearFits(n, WeekOf(n));
      RoundTrip16(n);
    }
  }

  /** Soundness, exactly: an accepted valid date has every given field if and only if the fields are trustworthy. */
  lemma ParseHonoursIff(f: Fields, d: Ymd)
    requires Parse(f) == Some(d) && Ok(d)
    ensures Matches(f, d) <==> Trustworthy(f)
  {
    hide Parse, ToDays, FromWeek, WeekOf, WeekNumber, WeekdayOf, LastWeek, LastDay, DayByWeek, WeekDateTrial,
         BeforeFirstWeek;
    ParseSound(f, d);
    IsoYearRange(d, ToDays(d), WeekOf(ToDays(d)));
    ShortestMonth(d.year, d.month);
    WeekNumberBound(d, 0);
    WeekNumberBound(d, 1);
    if f.HasWeekDate() {
      WeekDateHonoured(f, d, WeekOf(ToDays(d)));
    }
    if Unchecked(f) && (Trustworthy(f) || Matches(f, d)) {
      DayByWeekIsDay(f, d);
    }
  }

  // ---------- exactly what it stores ----------

  /** The year the other fields are about: the given one if in range, or else that of a full week date. */
  function FieldsYear(f: Fields): Option<int> {
    if YearOk(f.Y) then Some(f.Y)
    else if f.HasWeekDate() then Some(WeekDateTrial(f).year)
    else None
  }

  /** A week number with a year and a weekday leads to `d`. */
  predicate LeadsTo(f: Fields, n: int, first: int, d: Ymd) {
    FieldsYear(f).Some? && n != NOT_A_WEEK && f.HasWeekday() ==>
      d == FromDays16(FromWeek(FieldsYear(f).value, first, n, f.wd))
  }

  /** All sources agree on `d`: the year, or 0 without one; month and day modulo 256, which are 0 if nothing gives them;
      and the day of every week date. Only a valid date is held against its weekday and, unless a week date has fixed
      the day, against single week fields. */
  predicate Stored(f: Fields, d: Ymd) {
    && d.year == (if FieldsYear(f).Some? then FieldsYear(f).value else 0)
    && (f.m != 0 || !Computed(f) ==> d.month == f.m % 256)
    && (f.d != 0 || !Computed(f) ==> d.day == f.d % 256)
    && (f.HasWeekDate() ==> d == WeekDateTrial(f)) && LeadsTo(f, f.U, 0, d) && LeadsTo(f, f.W, 1, d)
    && (Ok(d) ==>
          && (f.HasWeekday() ==> f.wd == WeekdayOf(ToDays(d)))
          && (Computed(f) || WeekFieldsAre(f, d, WeekShown(d))))
  }

  lemma MergeGIff(f: Fields, p: Partial, q: Partial)
    ensures MergeG(f, p) == Some(q) <==>
            if f.HasWeekDate() then q == Filled(WeekDateTrial(f)) && Fits(p, WeekDateTrial(f)) else q == p
  {
    hide WeekDateTrial;
  }

  lemma MergeWeekIff(f: Fields, p: Partial, n: int, first: int, q: Partial)
    ensures MergeWeek(f, p, n, first) == Some(q) <==>
            if p.Y.Some? && n != NOT_A_WEEK && f.HasWeekday() then
              var t := FromDays16(FromWeek(p.Y.value, first, n, f.wd)); q == Filled(t) && Fits(p, t)
            else q == p
  {
    hide FromDays16, FromWeek;
  }

  /** The parser stores a date, valid or not, exactly when all sources agree on it; if they agree on none, it fails. */
  lemma ParseExactly(f: Fields, d: Ymd)
    ensures Parse(f) == Some(d) <==> Stored(f, d)
  {
    ParseStores(f, d);
    if Stored(f, d) {
      StoredIsParsed(f, d);
    }
  }

  lemma ParseStores(f: Fields, d: Ymd)
    ensures Parse(f) == Some(d) ==> Stored(f, d)
  {
    hide FromDays16, ToDays, FromWeek, WeekDateTrial, WeekOf, WeekNumber, WeekdayOf, Ok, WeekShown, MergeG, MergeWeek;
    if Parse(f) == Some(d) {
      var p0 := GivenFields(f);
      var p1 := MergeG(f, p0).value;
      var p2 := MergeWeek(f, p1, f.U, 0).value;
      var p3 := MergeWeek(f, p2, f.W, 1).value;
      MergeGIff(f, p0, p1);
      MergeWeekIff(f, p1, f.U, 0, p2);
      MergeWeekIff(f, p2, f.W, 1, p3);
      MissingYear();
    }
  }

  lemma MissingYear()
    ensures Short(NOT_A_YEAR) == 0
  {}

  lemma StoredIsParsed(f: Fields, d: Ymd)
    requires Stored(f, d)
    ensures Parse(f) == Some(d)
  {
    hide FromDays16, ToDays, FromWeek, WeekDateTrial, WeekOf, WeekNumber, WeekdayOf, Ok, WeekShown, MergeG, MergeWeek;
    var p0 := GivenFields(f);
    var p1 := if f.HasWeekDate() then Filled(d) else p0;
    var p2 := if p1.Y.Some? && f.HasU() && f.HasWeekday() then Filled(d) else p1;
    var p3 := if p2.Y.Some? && f.HasW() && f.HasWeekday() then Filled(d) else p2;
    MergeGIff(f, p0, p1);
    MergeWeekIff(f, p1, f.U, 0, p2);
    MergeWeekIff(f, p2, f.W, 1, p3);
    MissingYear();
  }

  /** Fields that name no day, such as a year and a month, are stored as they are and nothing is checked. */
  lemma NoDayNamed(f: Fields, d: Ymd)
    requires !Computed(f) && d == Ymd(if YearOk(f.Y) then f.Y else 0, f.m % 256, f.d % 256) && !Ok(d)
    ensures Parse(f) == Some(d)
  {
    hide Parse, FromDays16, FromWeek, WeekDateTrial, Ok;
    StoredIsParsed(f, d);
  }

  /** For instance 2020-05, read as a year and a month. */
  lemma YearAndMonth(y: int, m: int)
    requires YearOk(y) && 1 <= m <= 12
    ensures Parse(Fields(y, m, 0, -0x8000_0000, 100, 100, 100, 8)) == Some(Ymd(y, m, 0))
  {
    hide Parse;
    NoDayNamed(Fields(y, m, 0, -0x8000_0000, 100, 100, 100, 8), Ymd(y, m, 0));
  }

  /** And 2020-05-17, with the values by which the source marks the other fields as missing. */
  lemma PlainDate(d: Ymd)
    requires Ok(d)
    ensures Parse(Fields(d.year, d.month, d.day, -0x8000_0000, 100, 100, 100, 8)) == Some(d)
  {
    hide Parse, LastDay, ToDays, WeekOf, WeekNumber, WeekdayOf, BeforeFirstWeek;
    ParseReturns(Fields(d.year, d.month, d.day, -0x8000_0000, 100, 100, 100, 8), d);
  }

  // ---------- what it accepts besides ----------

  /** A year out of range is dropped, not rejected. */
  lemma YearOutOfRangeDropped(f: Fields)
    requires !YearOk(f.Y)
    ensures Parse(f) == Parse(f.(Y := NOT_A_YEAR))
  {
    hide FromDays16, ToDays, FromWeek, FromG, WeekOf, WeekNumber, WeekdayOf, Ok, Merge, WeekShown;
  }

  /** And a missing year reads as 0: a month and day of year 0 is accepted for any year that does not fit. */
  lemma YearOutOfRangeIsZero(y: int, m: int, d: int)
    requires !YearOk(y) && Gregorian.Valid(Ymd(0, m, d))
    ensures Parse(Fields(y, m, d, NOT_A_YEAR, NOT_A_WEEK, NOT_A_WEEK, NOT_A_WEEK, NOT_A_WEEKDAY)) == Some(Ymd(0, m, d))
  {
    hide FromDays16, ToDays, FromWeek, FromG, WeekOf, WeekNumber, WeekdayOf, Merge, WeekShown, LastDay;
    ShortestMonth(0, m);
    assert Short(NOT_A_YEAR) == 0;
  }

  /** For instance 40000-01-01 is accepted as 1 January of year 0. */
  lemma Year40000IsZero()
    ensures Ok(Ymd(0, 1, 1))
    ensures Parse(Fields(40000, 1, 1, NOT_A_YEAR, NOT_A_WEEK, NOT_A_WEEK, NOT_A_WEEK, NOT_A_WEEKDAY)) ==
            Some(Ymd(0, 1, 1))
  {
    hide Parse;
    YearOutOfRangeIsZero(40000, 1, 1);
  }

  /** Of the ISO year of a full week date only the low 16 bits count. */
  lemma IsoYearWraps(f: Fields, g: int)
    requires f.HasWeekDate() && g != NOT_A_YEAR && Short(g) == Short(f.G)
    ensures Parse(f.(G := g)) == Parse(f)
  {
    hide FromDays16, ToDays, FromWeek, FromG, WeekOf, WeekNumber, WeekdayOf, Ok, Merge, WeekShown, Short;
    ShortShort(f.G, -1);
    ShortShort(g, -1);
  }

  /** For instance 40000-W01-2 is accepted as the Tuesday of week 1 of -25536. */
  lemma Week40000Wraps()
    ensures var d := Ymd(-25536, 1, 1);
            && Parse(Fields(NOT_A_YEAR, NOT_A_MONTH, NOT_A_DAY, 40000, 1, NOT_A_WEEK, NOT_A_WEEK, 2)) == Some(d)
            && Ok(d) && WeekOf(ToDays(d)) == IsoDate(-25536, 1, 2)
  {
    hide FromDays, ToDays, FromG, WeekNumber, WeekShown, WeekdayOf, WeekOf, Gregorian.Valid, YearStart;
    var n := -10046360;
    Wrap40000(n);
    JanuaryDay(-25536, 1, n);
    WeekdayOfWeek(n, WeekOf(n));
  }

  lemma Wrap40000(n: int)
    requires n == -10046360
    ensures YearStart(-25536) == n && FromG(IsoYear16(40000), 1, 2) == n
    ensures WeekOf(n).year == -25536 && WeekOf(n).week == 1 && WeekdayOf(n) == 2
  {
    hide LastThursday, WeekOf, WeekdayOf, Diff, LastWeek;
    var t := LastThursday(-25537);
    AfterLastThursday(-25536, t, t + 4);
    MondayMinusThursday();
    DiffInRange(2, 1);
    WeekdayIsModulo(n);
    LongYears(-25536);
    WeekDateExists(-25536, 1, 2);
  }

  /** Of a given month and day only the low 8 bits count. */
  lemma MonthAndDayWrap(f: Fields, m: int, d: int)
    requires Byte(m) == Byte(f.m) && (m == NOT_A_MONTH <==> f.m == NOT_A_MONTH)
    requires Byte(d) == Byte(f.d) && (d == NOT_A_DAY <==> f.d == NOT_A_DAY)
    ensures Parse(f.(m := m, d := d)) == Parse(f)
  {
    hide FromDays16, ToDays, FromWeek, FromG, WeekOf, WeekNumber, WeekdayOf, Ok, Merge, WeekShown, Byte;
  }

  /** For instance month 257 is accepted as January. */
  lemma Month257IsJanuary()
    ensures Ok(Ymd(2000, 1, 1))
    ensures Parse(Fields(2000, 257, 1, NOT_A_YEAR, NOT_A_WEEK, NOT_A_WEEK, NOT_A_WEEK, NOT_A_WEEKDAY)) ==
            Some(Ymd(2000, 1, 1))
  {
    hide FromDays16, ToDays, FromWeek, FromG, WeekOf, WeekNumber, WeekdayOf, Merge, WeekShown, LastDay;
    ShortestMonth(2000, 1);
  }

  /** A week number past 53 can lead to a year with the same 16 bits: the Monday of week 10258514 of 1990 is taken for
      1 January 1990. */
  lemma Week10258514Wraps()
    ensures Ok(Ymd(1990, 1, 1))
    ensures Parse(Fields(1990, NOT_A_MONTH, NOT_A_DAY, NOT_A_YEAR, NOT_A_WEEK, 10258514, NOT_A_WEEK, 1)) ==
            Some(Ymd(1990, 1, 1))
  {
    hide FromDays, ToDays, WeekOf, WeekNumber, WeekShown, WeekdayOf, Diff, First, FromG, Gregorian.Valid, YearStart;
    FarWeek();
    DiffInRange(1, 0);
    JanuaryDay(1990, 1, 7305);
    JanuaryDay(198598, 1, 71816903);
  }

  lemma FarWeek()
    ensures YearStart(1990) == 7305 && YearStart(198598) == 71816903 && Short(198598) == 1990
    ensures First(1990, 0) == 7311 && WeekdayOf(7305) == 1
  {
    hide WeekdayOf, First;
    FirstInYear(1990, 0, First(1990, 0));
    WeekdayIsModulo(First(1990, 0));
    WeekdayIsModulo(7305);
  }

  /** Beside 1 or 2 January -32767 the parser accepts one %V, and that is not a week. */
  lemma WrappedWeekAccepted(d: Ymd)
    requires BeforeFirstWeek(d)
    ensures Ok(d)
    ensures Parse(Fields(d.year, d.month, d.day, NOT_A_YEAR, WRAPPED_WEEK, NOT_A_WEEK, NOT_A_WEEK, NOT_A_WEEKDAY)) ==
            Some(d)
  {
    hide FromDays16, ToDays, FromWeek, FromG, WeekOf, WeekNumber, WeekdayOf, Merge, LastDay;
    FirstDates(d);
  }

  /** In the unchecked combination a lone %V or a lone %G has no influence. */
  lemma UncheckedIgnored(f: Fields, v: int, g: int)
    requires f.HasWeekday() && YearOk(f.Y) && (f.HasU() || f.HasW())
    ensures !f.HasG() ==> Parse(f.(V := v)) == Parse(f)
    ensures !f.HasV() ==> Parse(f.(G := g)) == Parse(f)
  {
    hide FromDays16, ToDays, FromWeek, FromG, WeekOf, WeekNumber, WeekdayOf, Ok, Merge, WeekShown;
  }

  /** A date given by %Y, a weekday and %U (`first` 0) or %W (`first` 1). */
  function ByWeek(d: Ymd, first: int): Fields {
    Fields(d.year, NOT_A_MONTH, NOT_A_DAY, NOT_A_YEAR, NOT_A_WEEK,
           if first == 0 then WeekNumber(d, 0) else NOT_A_WEEK,
           if first == 0 then NOT_A_WEEK else WeekNumber(d, 1),
           WeekdayOf(ToDays(d)))
  }

  /** So every valid date given that way is accepted beside any %V, or any %G, right or wrong. */
  lemma AnyWeekAccepted(d: Ymd, first: int, v: int, g: int)
    requires Ok(d) && 0 <= first <= 1
    ensures Parse(ByWeek(d, first)) == Some(d)
    ensures Parse(ByWeek(d, first).(V := v)) == Some(d)
    ensures Parse(ByWeek(d, first).(G := g)) == Some(d)
  {
    hide ToDays, WeekOf, WeekNumber, WeekdayOf, Parse, Gregorian.Valid;
    var f := ByWeek(d, first);
    WeekNumberBound(d, first);
    WeekdayIsModulo(ToDays(d));
    ParseComplete(f, d);
    UncheckedIgnored(f, v, g);
  }

  lemma WeekNumberBound(d: Ymd, wd: int)
    requires Gregorian.Valid(d) && 0 <= wd <= 6
    ensures 0 <= WeekNumber(d, wd) <= 53
  {
    hide ToDays, First, YearStart, WeekdayOf, CountWeekdays, Gregorian.Valid;
    DateInYear(d);
    YearLengths(d.year);
    FirstInYear(d.year, wd, First(d.year, wd));
    CountByDivision(YearStart(d.year), ToDays(d), wd, First(d.year, wd));
  }

  /** A week the year does not have is one of the next year, or of the one before. */
  lemma WeekCarries(G: int, V: int, wd: int)
    requires 0 <= wd <= 6
    ensures LastWeek(G) < V <= LastWeek(G) + LastWeek(G + 1) ==>
            WeekOf(FromG(G, V, wd)) == IsoDate(G + 1, V - LastWeek(G), if wd == 0 then 7 else wd)
    ensures -LastWeek(G - 1) < V <= 0 ==>
            WeekOf(FromG(G, V, wd)) == IsoDate(G - 1, V + LastWeek(G - 1), if wd == 0 then 7 else wd)
  {
    hide WeekOf, LastThursday, IsoDiff, Diff, LastWeek, WeekOne;
    var iso := if wd == 0 then 7 else wd;
    DiffInRange(wd, 1);
    IsoDiffs(iso);
    StartsApart(G, LastThursday(G - 1), LastThursday(G));
    StartsApart(G - 1, LastThursday(G - 2), LastThursday(G - 1));
    var n := FromG(G, V, wd);
    assert n == SysDays(IsoDate(G + 1, V - LastWeek(G), iso));
    assert n == SysDays(IsoDate(G - 1, V + LastWeek(G - 1), iso));
    RoundTripIso(IsoDate(G + 1, V - LastWeek(G), iso), n);
    RoundTripIso(IsoDate(G - 1, V + LastWeek(G - 1), iso), n);
  }

  /** The parser takes any week for the day it reaches, whether the year has that week or not. So of the two-digit weeks
      it reads those after the last for days of the next year and week 0 for one of the year before. */
  lemma AnyWeekDateAccepted(G: int, V: int, wd: int, g: int, d: Ymd)
    requires G != NOT_A_YEAR && V != NOT_A_WEEK && 0 <= wd <= 6
    requires g == IsoYear16(G) && d == FromDays(FromG(g, V, wd)) && Ok(d)
    ensures Parse(Fields(NOT_A_YEAR, NOT_A_MONTH, NOT_A_DAY, G, V, NOT_A_WEEK, NOT_A_WEEK, wd)) == Some(d)
    ensures LastWeek(g) < V <= 99 ==> WeekOf(ToDays(d)).year == g + 1
    ensures V == 0 ==> WeekOf(ToDays(d)).year == g - 1
  {
    hide FromDays, ToDays, FromG, FromWeek, WeekOf, WeekNumber, WeekdayOf, LastWeek, Gregorian.Valid, WeekShown;
    var n := FromG(g, V, wd);
    DayOfTrial(n, d);
    ShortIdentity(d.year);
    WeekdayOfFromG(g, V, wd, n);
    LongYears(g);
    LongYears(g + 1);
    LongYears(g - 1);
    WeekCarries(g, V, wd);
  }

  lemma WeekdayOfFromG(G: int, V: int, wd: int, n: int)
    requires 0 <= wd <= 6 && n == FromG(G, V, wd)
    ensures WeekdayOf(n) == wd
  {
    hide LastToDays, WeekdayOf, Diff;
    LastIsLast(G - 1, 12, 4);
    WeekdayIsModulo(LastThursday(G - 1));
    WeekdayIsModulo(n);
    MondayMinusThursday();
    DiffInRange(wd, 1);
    var t, k := LastThursday(G - 1), if wd >= 1 then wd - 1 else wd + 6;
    DivUnique(n + 4, 7, (t + 4) / 7 + V - 1 + (8 + k) / 7, (8 + k) % 7);
  }
}
