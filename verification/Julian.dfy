/** The Julian calendar of date/julian.h over the same day numbers as the Gregorian one. */
module Julian {
  import opened CppInt
  import G = Gregorian

  type Ymd = G.Ymd

  predicate IsLeap(y: int) {
    Rem(y, 4) == 0
  }

  function LastDay(y: int, m: int): int
    requires 1 <= m <= 12
  {
    if m != 2 || !IsLeap(y) then [31, 28, 31, 30, 31, 30, 31, 31, 30, 31, 30, 31][m - 1] else 29
  }

  predicate Valid(d: Ymd) {
    1 <= d.month <= 12 && 1 <= d.day <= LastDay(d.year, d.month)
  }

  function SplitDate(d: Ymd): G.EraDay {
    var y := d.year - if d.month <= 2 then 1 else 0;
    var era := Quot(if y >= 0 then y else y - 3, 4);
    var yoe := y - era * 4;
    var doy := G.MonthOffset(if d.month > 2 then d.month - 3 else d.month + 9) + d.day - 1;
    G.EraDay(era, yoe, doy, yoe * 365 + doy)
  }

  function ToDays(d: Ymd): int {
    var e := SplitDate(d);
    e.era * 1461 + e.doe - 719470
  }

  function SplitDays(n: int): G.EraDay {
    var z := n + 719470;
    var era := Quot(if z >= 0 then z else z - 1460, 1461);
    var doe := z - era * 1461;
    var yoe := (doe - doe / 1460) / 365;
    G.EraDay(era, yoe, doe - 365 * yoe, doe)
  }

  function Assemble(e: G.EraDay): Ymd {
    var mp := (5 * e.doy + 2) / 153;
    var m := if mp < 10 then mp + 3 else mp - 9;
    G.Ymd(e.yoe + e.era * 4 + if m <= 2 then 1 else 0, m, e.doy - G.MonthOffset(mp) + 1)
  }

  function FromDays(n: int): Ymd {
    Assemble(SplitDays(n))
  }

  // ---------- the calendar walked one day at a time ----------

  function NextDay(d: Ymd): Ymd
    requires Valid(d)
  {
    if d.day < LastDay(d.year, d.month) then d.(day := d.day + 1)
    else if d.month < 12 then G.Ymd(d.year, d.month + 1, 1)
    else G.Ymd(d.year + 1, 1, 1)
  }

  function PrevDay(d: Ymd): Ymd
    requires Valid(d)
  {
    if d.day > 1 then d.(day := d.day - 1)
    else if d.month > 1 then G.Ymd(d.year, d.month - 1, LastDay(d.year, d.month - 1))
    else G.Ymd(d.year - 1, 12, 31)
  }

  /** `n` single-day steps from 19 December 1969, the Julian name of day 0. */
  function Walk(n: int): (d: Ymd)
    ensures Valid(d)
    decreases if n < 0 then -n else n
  {
    if n == 0 then G.Ymd(1969, 12, 19)
    else if n > 0 then NextDay(Walk(n - 1))
    else PrevDay(Walk(n + 1))
  }

  // ---------- closed form ----------

  function MarchDays(y: int): int {
    365 * y + y / 4
  }

  lemma MarchDaysStep(y: int)
    ensures MarchDays(y + 1) == MarchDays(y) + if IsLeap(y + 1) then 366 else 365
  {
    hide Rem;
    RemZero(y + 1, 4);
    DivStep(y, 4);
  }

  lemma ToDaysClosed(d: Ymd)
    ensures var y := d.year - if d.month <= 2 then 1 else 0;
            ToDays(d) == MarchDays(y) + SplitDate(d).doy - 719470
  {
    hide Quot, G.MonthOffset;
    var y := d.year - if d.month <= 2 then 1 else 0;
    FloorIdiom(y, 4);
  }

  // ---------- the walk ----------

  lemma NextInMonth(d: Ymd, n: Ymd)
    requires n == d.(day := d.day + 1)
    ensures ToDays(n) == ToDays(d) + 1
  {
    hide Quot, G.MonthOffset;
    var e := SplitDate(d);
    assert SplitDate(n) == e.(doy := e.doy + 1, doe := e.doe + 1);
  }

  lemma NextMonth(d: Ymd, n: Ymd)
    requires Valid(d) && d.day == LastDay(d.year, d.month)
    requires n == if d.month < 12 then G.Ymd(d.year, d.month + 1, 1) else G.Ymd(d.year + 1, 1, 1)
    ensures ToDays(n) == ToDays(d) + 1
  {
    hide ToDays, Quot, G.MonthOffset, IsLeap, MarchDays;
    ToDaysClosed(d);
    ToDaysClosed(n);
    G.MonthOffsetTable(d.month);
    G.MonthOffsetTable(n.month);
    if d.month == 2 {
      MarchDaysStep(d.year - 1);
    }
  }

  lemma NextIsOneDay(d: Ymd)
    requires Valid(d)
    ensures Valid(NextDay(d)) && ToDays(NextDay(d)) == ToDays(d) + 1
  {
    hide ToDays, IsLeap;
    if d.day < LastDay(d.year, d.month) {
      NextInMonth(d, NextDay(d));
    } else {
      NextMonth(d, NextDay(d));
    }
  }

  lemma PrevNext(d: Ymd)
    requires Valid(d)
    ensures Valid(PrevDay(d)) && NextDay(PrevDay(d)) == d
  {
    hide IsLeap;
  }

  lemma EpochIsDayZero()
    ensures ToDays(G.Ymd(1969, 12, 19)) == 0
  {}

  lemma {:induction false} WalkCountsDays(n: int, d: Ymd)
    requires d == Walk(n)
    ensures ToDays(d) == n
    decreases if n < 0 then -n else n
  {
    hide ToDays, LastDay;
    EpochIsDayZero();
    if n > 0 {
      WalkCountsDays(n - 1, Walk(n - 1));
      NextIsOneDay(Walk(n - 1));
    } else if n < 0 {
      WalkCountsDays(n + 1, Walk(n + 1));
      PrevNext(Walk(n + 1));
      NextIsOneDay(d);
    }
  }

  // ---------- from_days ----------

  lemma SplitDaysRanges(n: int)
    ensures var e := SplitDays(n);
            && n == e.era * 1461 + e.doe - 719470
            && 0 <= e.doe < 1461 && 0 <= e.yoe < 4 && 0 <= e.doy <= 365
            && e.doe == 365 * e.yoe + e.doy
            && (e.doy == 365 ==> IsLeap(e.yoe + e.era * 4 + 1))
  {
    hide Quot;
    FloorIdiom(n + 719470, 1461);
    var e := SplitDays(n);
    RemZero(e.yoe + e.era * 4 + 1, 4);
  }

  lemma DayFitsMonth(y: int, mp: int, d: int)
    requires 0 <= mp <= 11
    requires 1 <= d <= G.MonthOffset(mp + 1) - G.MonthOffset(mp)
    requires mp == 11 ==> d <= 28 || (d == 29 && IsLeap(y))
    ensures var m := if mp < 10 then mp + 3 else mp - 9;
            Valid(G.Ymd(y, m, d))
  {
    hide IsLeap;
  }

  lemma AssembleValid(e: G.EraDay, d: Ymd)
    requires 0 <= e.doy <= 365 && d == Assemble(e)
    requires e.doy == 365 ==> IsLeap(e.yoe + e.era * 4 + 1)
    ensures Valid(d)
  {
    hide IsLeap, LastDay;
    G.MonthOfDay(e.doy);
    DayFitsMonth(d.year, (5 * e.doy + 2) / 153, d.day);
  }

  lemma SplitAssemble(e: G.EraDay, d: Ymd)
    requires 0 <= e.yoe < 4 && 0 <= e.doy <= 365 && e.doe == 365 * e.yoe + e.doy && d == Assemble(e)
    ensures SplitDate(d) == e
  {
    hide Quot, G.MonthOffset;
    G.MonthOfDay(e.doy);
    FloorIdiom(e.yoe + e.era * 4, 4);
    DivUnique(e.yoe + e.era * 4, 4, e.era, e.yoe);
  }

  lemma FromDaysToDays(n: int)
    ensures Valid(FromDays(n)) && ToDays(FromDays(n)) == n
  {
    hide SplitDays, SplitDate, Assemble, IsLeap, LastDay;
    SplitDaysRanges(n);
    AssembleValid(SplitDays(n), FromDays(n));
    SplitAssemble(SplitDays(n), FromDays(n));
  }

  /** Era coordinates determine the date: the other half of the inverse. */
  lemma AssembleSplit(d: Ymd, e: G.EraDay)
    requires Valid(d) && e == SplitDate(d)
    ensures Assemble(e) == d && 0 <= e.yoe < 4 && 0 <= e.doy <= 365
    ensures e.doe == 365 * e.yoe + e.doy && (e.doy == 365 ==> e.yoe == 3)
  {
    hide Quot;
    var y := d.year - if d.month <= 2 then 1 else 0;
    FloorIdiom(y, 4);
    G.MonthOffsetTable(d.month);
    RemZero(d.year, 4);
  }

  lemma SplitDaysAt(n: int, e: G.EraDay)
    requires 0 <= e.yoe < 4 && 0 <= e.doy <= 365 && (e.doy == 365 ==> e.yoe == 3)
    requires e.doe == 365 * e.yoe + e.doy && n == e.era * 1461 + e.doe - 719470
    ensures SplitDays(n) == e
  {
    hide Quot;
    FloorIdiom(n + 719470, 1461);
    DivUnique(n + 719470, 1461, e.era, e.doe);
  }

  lemma RoundTrip(d: Ymd, n: int)
    ensures Valid(FromDays(n)) && ToDays(FromDays(n)) == n
    ensures Valid(d) ==> FromDays(ToDays(d)) == d
  {
    hide SplitDays, SplitDate, Assemble, Valid;
    FromDaysToDays(n);
    if Valid(d) {
      AssembleSplit(d, SplitDate(d));
      SplitDaysAt(ToDays(d), SplitDate(d));
    }
  }

  /** Refinement: the closed forms count single days of the calendar with a leap day every fourth year. */
  lemma WalkIsFromDays(n: int)
    ensures ToDays(Walk(n)) == n && FromDays(n) == Walk(n)
  {
    hide ToDays, FromDays, Valid;
    WalkCountsDays(n, Walk(n));
    RoundTrip(Walk(n), n);
  }

  // ---------- the two calendars ----------

  /** The same fields name days apart by the leap days the Gregorian reform drops, and nothing else. */
  lemma CalendarGap(d: Ymd)
    ensures var y := d.year - if d.month <= 2 then 1 else 0;
            ToDays(d) - G.ToDays(d) == y / 100 - y / 400 - 2
  {
    hide ToDays, G.ToDays, Quot, G.YoeDays, G.MonthOffset;
    ToDaysClosed(d);
    G.ToDaysClosed(d);
  }

  /** Converting between the calendars through day numbers loses nothing, either way. */
  lemma ConversionRoundTrip(j: Ymd, g: Ymd)
    ensures Valid(j) ==> FromDays(G.ToDays(G.FromDays(ToDays(j)))) == j
    ensures G.Valid(g) ==> G.FromDays(ToDays(FromDays(G.ToDays(g)))) == g
  {
    hide ToDays, FromDays, G.ToDays, G.FromDays, Valid, G.Valid;
    G.RoundTrip(g, ToDays(j));
    RoundTrip(j, G.ToDays(g));
  }
}
