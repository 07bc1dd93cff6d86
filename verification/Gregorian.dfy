/** The proleptic Gregorian calendar of date/date.h: field dates, serial day numbers, and the
    day-by-day calendar they are proved against. Day 0 is 1970-01-01. */
module Gregorian {
  import opened CppInt

  datatype Ymd = Ymd(year: int, month: int, day: int)

  // ---------- the code ----------

  predicate IsLeap(y: int) {
    Rem(y, 4) == 0 && (Rem(y, 100) != 0 || Rem(y, 400) == 0)
  }

  /** `year_month_day_last::day`: the length of a month. */
  function LastDay(y: int, m: int): int
    requires 1 <= m <= 12
  {
    if m != 2 || !IsLeap(y) then [31, 28, 31, 30, 31, 30, 31, 31, 30, 31, 30, 31][m - 1] else 29
  }

  /** A date of the calendar. The source's `ok()` is this for a year a `short` can hold, see `Ok`. */
  predicate Valid(d: Ymd) {
    1 <= d.month <= 12 && 1 <= d.day <= LastDay(d.year, d.month)
  }

  predicate YearOk(y: int) {
    -32767 <= y <= 32767
  }

  predicate Ok(d: Ymd) {
    YearOk(d.year) && Valid(d)
  }

  /** A day inside its 400-year era; years start on 1 March. */
  datatype EraDay = EraDay(era: int, yoe: int, doy: int, doe: int)

  /** Days of an era before its year `yoe`. */
  function YoeDays(yoe: int): int {
    365 * yoe + yoe / 4 - yoe / 100
  }

  /** The year of the era that holds day `doe`. */
  function YearOfEra(doe: int): int {
    (doe - doe / 1460 + doe / 36524 - doe / 146096) / 365
  }

  /** Days from 1 March to the first of the month `mp` months later. */
  function MonthOffset(mp: int): int {
    (153 * mp + 2) / 5
  }

  function SplitDate(d: Ymd): EraDay {
    var y := d.year - if d.month <= 2 then 1 else 0;
    var era := Quot(if y >= 0 then y else y - 399, 400);
    var yoe := y - era * 400;
    var doy := MonthOffset(if d.month > 2 then d.month - 3 else d.month + 9) + d.day - 1;
    EraDay(era, yoe, doy, YoeDays(yoe) + doy)
  }

  function ToDays(d: Ymd): int {
    var e := SplitDate(d);
    e.era * 146097 + e.doe - 719468
  }

  function SplitDays(n: int): EraDay {
    var z := n + 719468;
    var era := Quot(if z >= 0 then z else z - 146096, 146097);
    var doe := z - era * 146097;
    var yoe := YearOfEra(doe);
    EraDay(era, yoe, doe - YoeDays(yoe), doe)
  }

  /** The field date of a day of an era. */
  function Assemble(e: EraDay): Ymd {
    var mp := (5 * e.doy + 2) / 153;
    var m := if mp < 10 then mp + 3 else mp - 9;
    Ymd(e.yoe + e.era * 400 + if m <= 2 then 1 else 0, m, e.doy - MonthOffset(mp) + 1)
  }

  function FromDays(n: int): Ymd {
    Assemble(SplitDays(n))
  }

  /** `operator<` on dates. */
  predicate Less(a: Ymd, b: Ymd) {
    if a.year < b.year then true
    else if a.year > b.year then false
    else if a.month < b.month then true
    else if a.month > b.month then false
    else a.day < b.day
  }

  // ---------- the calendar walked one day at a time ----------

  const EPOCH := Ymd(1970, 1, 1)

  function NextDay(d: Ymd): Ymd
    requires Valid(d)
  {
    if d.day < LastDay(d.year, d.month) then d.(day := d.day + 1)
    else if d.month < 12 then Ymd(d.year, d.month + 1, 1)
    else Ymd(d.year + 1, 1, 1)
  }

  function PrevDay(d: Ymd): Ymd
    requires Valid(d)
  {
    if d.day > 1 then d.(day := d.day - 1)
    else if d.month > 1 then Ymd(d.year, d.month - 1, LastDay(d.year, d.month - 1))
    else Ymd(d.year - 1, 12, 31)
  }

  /** The date reached from the epoch by `n` single-day steps, backwards for negative `n`. */
  function Walk(n: int): (d: Ymd)
    ensures Valid(d)
    decreases if n < 0 then -n else n
  {
    if n == 0 then EPOCH
    else if n > 0 then NextDay(Walk(n - 1))
    else PrevDay(Walk(n + 1))
  }

  // ---------- closed forms over floor division ----------

  lemma LeapIsDivisibility(y: int)
    ensures IsLeap(y) <==> y % 4 == 0 && (y % 100 != 0 || y % 400 == 0)
  {
    hide Rem;
    RemZero(y, 4);
    RemZero(y, 100);
    RemZero(y, 400);
  }

  /** Days before 1 March of year `y`, counted from 1 March of year 0. */
  function MarchDays(y: int): int {
    365 * y + y / 4 - y / 100 + y / 400
  }

  lemma Multiples(k: int)
    ensures k % 100 == 0 ==> k % 4 == 0
    ensures k % 400 == 0 ==> k % 100 == 0
  {
    if k % 100 == 0 {
      DivUnique(k, 4, 25 * (k / 100), 0);
    }
    if k % 400 == 0 {
      DivUnique(k, 100, 4 * (k / 400), 0);
    }
  }

  lemma MarchDaysStep(y: int)
    ensures MarchDays(y + 1) == MarchDays(y) + if IsLeap(y + 1) then 366 else 365
  {
    hide IsLeap;
    LeapIsDivisibility(y + 1);
    Multiples(y + 1);
    DivStep(y, 4);
    DivStep(y, 100);
    DivStep(y, 400);
  }

  lemma MarchDaysSplit(era: int, yoe: int)
    requires 0 <= yoe < 400
    ensures MarchDays(era * 400 + yoe) == era * 146097 + YoeDays(yoe)
  {
    assert (era * 400 + yoe) / 4 == era * 100 + yoe / 4;
    assert (era * 400 + yoe) / 100 == era * 4 + yoe / 100;
    assert (era * 400 + yoe) / 400 == era;
  }

  lemma ToDaysClosed(d: Ymd)
    ensures var y := d.year - if d.month <= 2 then 1 else 0;
            ToDays(d) == MarchDays(y) + SplitDate(d).doy - 719468
    ensures SplitDate(d).era == (d.year - if d.month <= 2 then 1 else 0) / 400
    ensures 0 <= SplitDate(d).yoe < 400
  {
    hide Quot, MarchDays, YoeDays, MonthOffset;
    var y := d.year - if d.month <= 2 then 1 else 0;
    FloorIdiom(y, 400);
    MarchDaysSplit(y / 400, y % 400);
  }

  /** The day number of 1 January. */
  function YearStart(y: int): int {
    MarchDays(y - 1) - 719162
  }

  function DaysBeforeMonth(y: int, m: int): int
    requires 1 <= m <= 12
  {
    [0, 31, 59, 90, 120, 151, 181, 212, 243, 273, 304, 334][m - 1] + if m > 2 && IsLeap(y) then 1 else 0
  }

  function YearLength(y: int): int {
    if IsLeap(y) then 366 else 365
  }

  lemma ToDaysByYear(y: int, m: int, d: int)
    requires 1 <= m <= 12
    ensures ToDays(Ymd(y, m, d)) == YearStart(y) + DaysBeforeMonth(y, m) + d - 1
  {
    hide ToDays, Quot, YoeDays, MonthOffset, IsLeap, MarchDays;
    ToDaysClosed(Ymd(y, m, d));
    MonthOffsetTable(m);
    if m > 2 {
      MarchDaysStep(y - 1);
    }
  }

  lemma MonthOffsetTable(m: int)
    requires 1 <= m <= 12
    ensures MonthOffset(if m > 2 then m - 3 else m + 9) ==
            [306, 337, 0, 31, 61, 92, 122, 153, 184, 214, 245, 275][m - 1]
  {}

  lemma YearStartStep(y: int)
    ensures YearStart(y + 1) == YearStart(y) + YearLength(y)
  {
    hide MarchDays, IsLeap;
    MarchDaysStep(y - 1);
  }

  lemma MonthStep(y: int, m: int)
    requires 1 <= m <= 12
    ensures DaysBeforeMonth(y, m) + LastDay(y, m) == if m < 12 then DaysBeforeMonth(y, m + 1) else YearLength(y)
  {
    hide IsLeap;
  }

  // ---------- theorems ----------

  /** One calendar step is one day number. */
  lemma NextIsOneDay(d: Ymd)
    requires Valid(d)
    ensures Valid(NextDay(d)) && ToDays(NextDay(d)) == ToDays(d) + 1
  {
    hide ToDays, IsLeap;
    NextValid(d);
    if d.day < LastDay(d.year, d.month) {
      NextInMonth(d, NextDay(d));
    } else if d.month < 12 {
      NextMonth(d, NextDay(d));
    } else {
      NextYear(d, NextDay(d));
    }
  }

  lemma NextValid(d: Ymd)
    requires Valid(d)
    ensures Valid(NextDay(d))
  {
    hide IsLeap;
  }

  lemma NextInMonth(d: Ymd, n: Ymd)
    requires n == d.(day := d.day + 1)
    ensures ToDays(n) == ToDays(d) + 1
  {
    hide Quot, MonthOffset, YoeDays;
    var e := SplitDate(d);
    assert SplitDate(n) == e.(doy := e.doy + 1, doe := e.doe + 1);
  }

  lemma NextMonth(d: Ymd, n: Ymd)
    requires Valid(d) && d.month < 12 && d.day == LastDay(d.year, d.month) && n == Ymd(d.year, d.month + 1, 1)
    ensures ToDays(n) == ToDays(d) + 1
  {
    hide ToDays, YearStart, IsLeap;
    MonthStep(d.year, d.month);
    ToDaysByYear(d.year, d.month, d.day);
    ToDaysByYear(d.year, d.month + 1, 1);
  }

  lemma NextYear(d: Ymd, n: Ymd)
    requires d.month == 12 && d.day == 31 && n == Ymd(d.year + 1, 1, 1)
    ensures ToDays(n) == ToDays(d) + 1
  {
    hide ToDays, YearStart, IsLeap;
    YearStartStep(d.year);
    ToDaysByYear(d.year, 12, 31);
    ToDaysByYear(d.year + 1, 1, 1);
  }

  lemma PrevNext(d: Ymd)
    requires Valid(d)
    ensures Valid(PrevDay(d)) && NextDay(PrevDay(d)) == d
    ensures PrevDay(NextDay(d)) == d
  {
    hide IsLeap;
  }

  lemma PrevIsOneDay(d: Ymd)
    requires Valid(d)
    ensures Valid(PrevDay(d)) && ToDays(PrevDay(d)) == ToDays(d) - 1
  {
    hide ToDays, IsLeap;
    PrevNext(d);
    NextIsOneDay(PrevDay(d));
  }

  // ---------- year_month_day::from_days ----------

  /** Century, leap cycle, year and day of an era; only a year that ends in 29 February has a day 365. */
  predicate Place(c: int, q: int, s: int, doy: int) {
    0 <= c < 4 && 0 <= q < 25 && 0 <= s < 4 && 0 <= doy <= 365 &&
    (doy == 365 ==> s == 3 && (q < 24 || c == 3))
  }

  lemma YearOfEraAt(c: int, q: int, s: int, doy: int)
    requires Place(c, q, s, doy)
    ensures YearOfEra(36524 * c + 1461 * q + 365 * s + doy) == 100 * c + 4 * q + s
  {
    var doe := 36524 * c + 1461 * q + 365 * s + doy;
    Centuries(c, q, s, doy);
    Cycles(c, q, s, doy);
    var carry := if s == 3 && 24 * c + q + doy >= 365 then 1 else 0;
    DivUnique(doe - doe / 1460 + doe / 36524 - doe / 146096, 365, 100 * c + 4 * q + s, doy - carry);
  }

  lemma Centuries(c: int, q: int, s: int, doy: int)
    requires Place(c, q, s, doy)
    ensures var doe := 36524 * c + 1461 * q + 365 * s + doy; doe / 36524 - doe / 146096 == c
  {}

  lemma Cycles(c: int, q: int, s: int, doy: int)
    requires Place(c, q, s, doy)
    ensures var carry := if s == 3 && 24 * c + q + doy >= 365 then 1 else 0;
            (36524 * c + 1461 * q + 365 * s + doy) / 1460 == 25 * c + q + carry
  {}

  lemma YoeDaysAt(c: int, q: int, s: int)
    requires 0 <= c < 4 && 0 <= q < 25 && 0 <= s < 4
    ensures YoeDays(100 * c + 4 * q + s) == 36524 * c + 1461 * q + 365 * s
  {
    assert (100 * c + 4 * q + s) / 4 == 25 * c + q;
    assert (100 * c + 4 * q + s) / 100 == c;
  }

  /** The formula for the year of the era finds the year whose days surround `doe`. */
  lemma YearOfEraBrackets(doe: int)
    requires 0 <= doe < 146097
    ensures 0 <= YearOfEra(doe) < 400
    ensures YoeDays(YearOfEra(doe)) <= doe <= YoeDays(YearOfEra(doe)) + 365
    ensures doe == YoeDays(YearOfEra(doe)) + 365 ==>
              var k := YearOfEra(doe) + 1; k % 4 == 0 && (k % 100 != 0 || k == 400)
  {
    hide YearOfEra, YoeDays;
    var c := if doe < 146096 then doe / 36524 else 3;
    var q := (doe - 36524 * c) / 1461;
    var t := doe - 36524 * c - 1461 * q;
    var s := if t < 1460 then t / 365 else 3;
    assert Place(c, q, s, t - 365 * s);
    assert doe == 36524 * c + 1461 * q + 365 * s + (t - 365 * s);
    YearOfEraAt(c, q, s, t - 365 * s);
    YoeDaysAt(c, q, s);
    if t == 365 * s + 365 {
      PlaceLeap(c, q, s);
    }
  }

  lemma PlaceLeap(c: int, q: int, s: int)
    requires 0 <= c < 4 && 0 <= q < 25 && s == 3 && (q < 24 || c == 3)
    ensures var k := 100 * c + 4 * q + s + 1; k % 4 == 0 && (k % 100 != 0 || k == 400)
  {
    var k := 100 * c + 4 * q + 4;
    if q < 24 {
      DivUnique(k, 100, c, 4 * q + 4);
    }
  }

  lemma LeapInEra(era: int, k: int)
    requires 1 <= k <= 400 && k % 4 == 0 && (k % 100 != 0 || k == 400)
    ensures IsLeap(k + era * 400)
  {
    LeapIsDivisibility(k + era * 400);
    DivUnique(k + era * 400, 4, k / 4 + era * 100, 0);
    DivUnique(k + era * 400, 100, k / 100 + era * 4, k % 100);
    if k == 400 {
      DivUnique(k + era * 400, 400, era + 1, 0);
    }
  }

  lemma SplitDaysRanges(n: int)
    ensures var e := SplitDays(n);
            && n == e.era * 146097 + e.doe - 719468
            && 0 <= e.doe < 146097 && 0 <= e.yoe < 400 && 0 <= e.doy <= 365
            && e.doe == YoeDays(e.yoe) + e.doy
            && (e.doy == 365 ==> IsLeap(e.yoe + e.era * 400 + 1))
  {
    hide Quot, YearOfEra, YoeDays, IsLeap;
    FloorIdiom(n + 719468, 146097);
    var e := SplitDays(n);
    YearOfEraBrackets(e.doe);
    if e.doy == 365 {
      LeapInEra(e.era, e.yoe + 1);
    }
  }

  /** The month formula inverts the days-before-month formula of the March-based year. */
  lemma MonthOfDay(doy: int)
    requires 0 <= doy <= 365
    ensures var mp := (5 * doy + 2) / 153;
            && 0 <= mp <= 11
            && MonthOffset(mp) <= doy < MonthOffset(mp + 1)
  {}

  lemma DayFitsMonth(y: int, mp: int, d: int)
    requires 0 <= mp <= 11
    requires 1 <= d <= MonthOffset(mp + 1) - MonthOffset(mp)
    requires mp == 11 ==> d <= 28 || (d == 29 && IsLeap(y))
    ensures var m := if mp < 10 then mp + 3 else mp - 9;
            Valid(Ymd(y, m, d))
  {
    hide IsLeap;
  }

  lemma AssembleValid(e: EraDay, d: Ymd)
    requires 0 <= e.doy <= 365 && d == Assemble(e)
    requires e.doy == 365 ==> IsLeap(e.yoe + e.era * 400 + 1)
    ensures Valid(d)
  {
    hide IsLeap, LastDay;
    MonthOfDay(e.doy);
    var mp := (5 * e.doy + 2) / 153;
    DayFitsMonth(d.year, mp, d.day);
  }

  lemma SplitAssemble(e: EraDay, d: Ymd)
    requires 0 <= e.yoe < 400 && 0 <= e.doy <= 365 && e.doe == YoeDays(e.yoe) + e.doy && d == Assemble(e)
    ensures SplitDate(d) == e
  {
    hide Quot, YoeDays, MonthOffset;
    MonthOfDay(e.doy);
    FloorIdiom(e.yoe + e.era * 400, 400);
    DivUnique(e.yoe + e.era * 400, 400, e.era, e.yoe);
  }

  /** Every day number names a calendar date. */
  lemma FromDaysValid(n: int)
    ensures Valid(FromDays(n))
  {
    hide SplitDays, IsLeap, LastDay, Assemble;
    SplitDaysRanges(n);
    AssembleValid(SplitDays(n), FromDays(n));
  }

  lemma FromDaysToDays(n: int)
    ensures ToDays(FromDays(n)) == n
  {
    hide SplitDays, SplitDate, Assemble;
    SplitDaysRanges(n);
    SplitAssemble(SplitDays(n), FromDays(n));
  }

  // ---------- order and bijection ----------

  lemma {:induction false} YearStartIncreasing(x: int, y: int)
    requires x <= y
    ensures YearStart(x) <= YearStart(y) && (x < y ==> YearStart(x) < YearStart(y))
    decreases y - x
  {
    hide YearStart, IsLeap;
    if x < y {
      YearStartStep(x);
      YearStartIncreasing(x + 1, y);
    }
  }

  lemma DayBeforeYearEnd(y: int, m: int, d: int)
    requires 1 <= m <= 12 && 1 <= d <= LastDay(y, m)
    ensures 0 <= DaysBeforeMonth(y, m) + d - 1 < YearLength(y)
  {
    hide IsLeap;
  }

  lemma DateInYear(d: Ymd)
    requires Valid(d)
    ensures YearStart(d.year) <= ToDays(d) < YearStart(d.year + 1)
  {
    hide ToDays, YearStart, LastDay, YearLength, DaysBeforeMonth;
    ToDaysByYear(d.year, d.month, d.day);
    YearStartStep(d.year);
    DayBeforeYearEnd(d.year, d.month, d.day);
  }

  lemma YearBracket(n: int, x: int, y: int)
    requires YearStart(x) <= n < YearStart(x + 1)
    ensures x == y <==> YearStart(y) <= n < YearStart(y + 1)
  {
    hide YearStart;
    if x < y {
      YearStartIncreasing(x + 1, y);
    } else if y < x {
      YearStartIncreasing(y + 1, x);
    }
  }

  lemma DateOfDay(n: int, d: Ymd)
    requires d == FromDays(n)
    ensures Valid(d) && ToDays(d) == n && YearStart(d.year) <= n < YearStart(d.year + 1)
  {
    hide FromDays, ToDays, Valid, YearStart;
    FromDaysValid(n);
    FromDaysToDays(n);
    DateInYear(d);
  }

  /** The year of a day number is the one whose first days surround it. */
  lemma YearOfDay(n: int, y: int)
    ensures FromDays(n).year == y <==> YearStart(y) <= n < YearStart(y + 1)
  {
    hide YearStart, FromDays, ToDays, Valid;
    DateOfDay(n, FromDays(n));
    YearBracket(n, FromDays(n).year, y);
  }

  lemma LaterMonth(y: int, m: int, k: int)
    requires 1 <= m < k <= 12
    ensures DaysBeforeMonth(y, m) + LastDay(y, m) <= DaysBeforeMonth(y, k)
  {
    hide IsLeap;
  }

  lemma LessIsEarlier(a: Ymd, b: Ymd)
    requires Valid(a) && Valid(b) && Less(a, b)
    ensures ToDays(a) < ToDays(b)
  {
    hide ToDays, YearStart, IsLeap;
    if a.year < b.year {
      DateInYear(a);
      DateInYear(b);
      YearStartIncreasing(a.year + 1, b.year);
    } else {
      ToDaysByYear(a.year, a.month, a.day);
      ToDaysByYear(b.year, b.month, b.day);
      if a.month < b.month { LaterMonth(a.year, a.month, b.month); }
    }
  }

  /** Field order is day-number order. */
  lemma OrderAgrees(a: Ymd, b: Ymd)
    requires Valid(a) && Valid(b)
    ensures Less(a, b) <==> ToDays(a) < ToDays(b)
    ensures a == b <==> ToDays(a) == ToDays(b)
  {
    hide ToDays, Valid;
    if Less(a, b) {
      LessIsEarlier(a, b);
    } else if Less(b, a) {
      LessIsEarlier(b, a);
    } else {
      assert a == b;
    }
  }

  /** The two conversions are mutual inverses between calendar dates and all integers. */
  lemma RoundTrip(d: Ymd, n: int)
    ensures Valid(FromDays(n)) && ToDays(FromDays(n)) == n
    ensures Valid(d) ==> FromDays(ToDays(d)) == d
  {
    hide ToDays, FromDays, Valid;
    FromDaysValid(n);
    FromDaysToDays(n);
    if Valid(d) {
      NamesItsDate(d, ToDays(d), FromDays(ToDays(d)));
    }
  }

  lemma NamesItsDate(d: Ymd, n: int, back: Ymd)
    requires Valid(d) && n == ToDays(d) && back == FromDays(n)
    ensures back == d
  {
    hide ToDays, FromDays, Valid;
    FromDaysValid(n);
    FromDaysToDays(n);
    OrderAgrees(back, d);
  }

  /** Refinement: both closed forms count single days from the epoch, for every integer. */
  lemma {:induction false} WalkIsFromDays(n: int)
    ensures ToDays(Walk(n)) == n && FromDays(n) == Walk(n)
    decreases if n < 0 then -n else n
  {
    hide ToDays, FromDays, Valid;
    WalkCountsDays(n, Walk(n));
    RoundTrip(Walk(n), n);
  }

  lemma EpochIsDayZero()
    ensures ToDays(EPOCH) == 0
  {}

  lemma {:induction false} WalkCountsDays(n: int, d: Ymd)
    requires d == Walk(n)
    ensures ToDays(d) == n
    decreases if n < 0 then -n else n
  {
    hide ToDays, LastDay;
    EpochIsDayZero();
    if n > 0 {
      WalkCountsDays(n - 1, Walk(n - 1));
      NextIsOneDay(Walk(n - 1));
    } else if n < 0 {
      WalkCountsDays(n + 1, Walk(n + 1));
      PrevIsOneDay(Walk(n + 1));
    }
  }

  /** Every calendar date is reached by the walk, at step `ToDays`. */
  lemma WalkReachesEveryDate(d: Ymd)
    requires Valid(d)
    ensures Walk(ToDays(d)) == d
  {
    hide ToDays, FromDays, Valid;
    WalkIsFromDays(ToDays(d));
    RoundTrip(d, ToDays(d));
  }

  // ---------- machine integers ----------

  /** For years a `short` holds, every intermediate of `to_days` lies in the range its comment gives,
      and every product and sum fits 32 bits. */
  lemma ToDaysRanges(d: Ymd)
    requires Valid(d) && -32768 <= d.year <= 32767
    ensures var e := SplitDate(d);
            && 0 <= e.yoe <= 399 && 0 <= e.doy <= 365 && 0 <= e.doe <= 146096
            && Fits32(e.era * 400) && Fits32(e.era * 146097) && Fits32(e.era * 146097 + e.doe)
            && Fits32(ToDays(d))
  {
    ToDaysClosed(d);
    var e := SplitDate(d);
    FromDaysSplit(d);
    SplitDaysRanges(ToDays(d));
  }

  /** Both directions pass through the same era coordinates. */
  lemma FromDaysSplit(d: Ymd)
    requires Valid(d)
    ensures SplitDays(ToDays(d)) == SplitDate(d)
  {
    hide SplitDays, SplitDate, Assemble, YoeDays, IsLeap, LastDay;
    var n := ToDays(d);
    RoundTrip(d, n);
    SplitDaysRanges(n);
    SplitAssemble(SplitDays(n), d);
  }

  const MIN_DAY := -12687794
  const MAX_DAY := 11248737

  /** `from_days` stores the year in a `short`. */
  function FromDays16(n: int): Ymd {
    var d := FromDays(n);
    d.(year := Short(d.year))
  }

  lemma ShortYears(n: int, y: int)
    requires YearStart(y) <= n < YearStart(y + 1)
    ensures -32768 <= y <= 32767 <==> MIN_DAY <= n <= MAX_DAY
  {
    hide IsLeap;
    assert YearStart(-32768) == MIN_DAY && YearStart(32768) == MAX_DAY + 1;
    if y < -32768 {
      YearStartIncreasing(y + 1, -32768);
    } else if y <= 32767 {
      YearStartIncreasing(-32768, y);
      YearStartIncreasing(y + 1, 32768);
    } else {
      YearStartIncreasing(32768, y);
    }
  }

  /** With the narrowing included, the round trip holds exactly on the day numbers of 16-bit years. */
  lemma RoundTrip16(n: int)
    ensures ToDays(FromDays16(n)) == n <==> MIN_DAY <= n <= MAX_DAY
    ensures FromDays16(n) == FromDays(n) <==> MIN_DAY <= n <= MAX_DAY
  {
    hide ToDays, FromDays, Valid, YearStart;
    DateOfDay(n, FromDays(n));
    Narrowed(n, FromDays(n), FromDays16(n));
  }

  lemma Narrowed(n: int, d: Ymd, s: Ymd)
    requires Valid(d) && ToDays(d) == n && YearStart(d.year) <= n < YearStart(d.year + 1)
    requires s == d.(year := Short(d.year))
    ensures ToDays(s) == n <==> MIN_DAY <= n <= MAX_DAY
    ensures s == d <==> MIN_DAY <= n <= MAX_DAY
  {
    hide ToDays, Valid, YearStart;
    ShortYears(n, d.year);
    ShortIdentity(d.year);
    YearMatters(d, s.year);
  }

  /** Moving a date to another year, even an impossible 29 February, changes its day number. */
  lemma YearMatters(d: Ymd, y: int)
    requires Valid(d)
    ensures ToDays(d.(year := y)) == ToDays(d) <==> y == d.year
  {
    hide ToDays, YearStart;
    ToDaysByYear(d.year, d.month, d.day);
    ToDaysByYear(y, d.month, d.day);
    if y < d.year {
      YearStartIncreasing(y + 1, d.year);
      YearStartStep(y);
    } else if d.year < y {
      YearStartIncreasing(d.year + 1, y);
      YearStartStep(d.year);
    }
  }

  /** The same for `from_days`, on the day numbers of 16-bit years. */
  lemma FromDaysRanges(n: int)
    requires MIN_DAY <= n <= MAX_DAY
    ensures var e := SplitDays(n);
            && 0 <= e.doe <= 146096 && 0 <= e.yoe <= 399 && 0 <= e.doy <= 365
            && Fits32(n + 719468) && Fits32(n + 719468 - 146096)
            && Fits32(e.era * 146097) && Fits32(e.yoe + e.era * 400)
            && 0 <= (5 * e.doy + 2) / 153 <= 11
            && 1 <= FromDays(n).day <= 31 && 1 <= FromDays(n).month <= 12
  {
    hide YearOfEra, YoeDays, IsLeap, Assemble;
    SplitDaysRanges(n);
    MonthOfDay(SplitDays(n).doy);
    FromDaysValid(n);
    FloorIdiom(n + 719468, 146097);
  }
}
