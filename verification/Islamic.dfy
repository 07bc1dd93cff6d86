/** The tabular Islamic calendar of date/islamic.h: 30-year eras with 11 leap years. */
module Islamic {
  import opened CppInt
  import G = Gregorian

  type Ymd = G.Ymd

  /** The years of an era, counted from 0, that the source's switch lists. */
  const LEAP_YEARS := {1, 4, 6, 9, 12, 15, 17, 20, 23, 25, 28}

  predicate IsLeap(year: int) {
    var y := year - 1;
    var era := Quot(if y >= 0 then y else y - 29, 30);
    y - era * 30 in LEAP_YEARS
  }

  function LastDay(y: int, m: int): int
    requires 1 <= m <= 12
  {
    if m != 12 || !IsLeap(y) then [30, 29, 30, 29, 30, 29, 30, 29, 30, 29, 30, 29][m - 1] else 30
  }

  predicate Valid(d: Ymd) {
    1 <= d.month <= 12 && 1 <= d.day <= LastDay(d.year, d.month)
  }

  /** Days of an era before its year `yoe`. */
  function YoeDays(yoe: int): int {
    yoe * 354 + (11 * (yoe + 1) + 3) / 30
  }

  /** Days of a year before month `m`. */
  function MonthOffset(m: int): int {
    29 * (m - 1) + m / 2
  }

  function SplitDate(d: Ymd): G.EraDay {
    var y := d.year - 1;
    var era := Quot(if y >= 0 then y else y - 29, 30);
    var yoe := y - era * 30;
    var doy := MonthOffset(d.month) + d.day - 1;
    G.EraDay(era, yoe, doy, YoeDays(yoe) + doy)
  }

  function ToDays(d: Ymd): int {
    var e := SplitDate(d);
    e.era * 10631 + e.doe - 492148
  }

  function SplitDays(n: int): G.EraDay {
    var z := n + 492148;
    var era := Quot(if z >= 0 then z else z - 10630, 10631);
    var doe := z - era * 10631;
    var yoe := (30 * doe + 10646) / 10631 - 1;
    G.EraDay(era, yoe, doe - YoeDays(yoe), doe)
  }

  function Assemble(e: G.EraDay): Ymd {
    var m := (11 * e.doy + 330) / 325;
    G.Ymd(e.yoe + e.era * 30 + 1, m, e.doy - MonthOffset(m) + 1)
  }

  function FromDays(n: int): Ymd {
    Assemble(SplitDays(n))
  }

  // ---------- the calendar walked one day at a time ----------

  function NextDay(d: Ymd): Ymd
    requires Valid(d)
  {
    if d.day < LastDay(d.year, d.month) then d.(day := d.day + 1)
    else if d.month < 12 then G.Ymd(d.year, d.month + 1, 1)
    else G.Ymd(d.year + 1, 1, 1)
  }

  function PrevDay(d: Ymd): Ymd
    requires Valid(d)
  {
    if d.day > 1 then d.(day := d.day - 1)
    else if d.month > 1 then G.Ymd(d.year, d.month - 1, LastDay(d.year, d.month - 1))
    else G.Ymd(d.year - 1, 12, LastDay(d.year - 1, 12))
  }

  /** `n` single-day steps from 22 Shawwal 1389, the Islamic name of day 0. */
  function Walk(n: int): (d: Ymd)
    ensures Valid(d)
    decreases if n < 0 then -n else n
  {
    if n == 0 then G.Ymd(1389, 10, 22)
    else if n > 0 then NextDay(Walk(n - 1))
    else PrevDay(Walk(n + 1))
  }

  // ---------- leap years ----------

  /** How many of the era's years before `yoe` the table lists. */
  function LeapsBefore(yoe: nat): nat {
    if yoe == 0 then 0 else LeapsBefore(yoe - 1) + if yoe - 1 in LEAP_YEARS then 1 else 0
  }

  lemma LinearStep(yoe: int)
    requires 0 <= yoe < 30
    ensures (11 * (yoe + 2) + 3) / 30 == (11 * (yoe + 1) + 3) / 30 + if yoe in LEAP_YEARS then 1 else 0
  {}

  /** The linear formula counts exactly the leap years of the 11-case table. */
  lemma {:induction false} LinearCountsLeaps(yoe: nat)
    requires yoe <= 30
    ensures LeapsBefore(yoe) == (11 * (yoe + 1) + 3) / 30
  {
    if yoe > 0 {
      LinearCountsLeaps(yoe - 1);
      LinearStep(yoe - 1);
    }
  }

  lemma YoeStep(yoe: int)
    requires 0 <= yoe < 30
    ensures YoeDays(yoe + 1) == YoeDays(yoe) + if yoe in LEAP_YEARS then 355 else 354
    ensures YoeDays(0) == 0 && YoeDays(30) == 10631
  {
    LinearStep(yoe);
  }

  lemma YearStep(d: Ymd, n: Ymd)
    requires d.month == 12 && d.day == LastDay(d.year, 12) && n == G.Ymd(d.year + 1, 1, 1)
    ensures ToDays(n) == ToDays(d) + 1
  {
    hide Quot, YoeDays;
    FloorIdiom(d.year - 1, 30);
    FloorIdiom(d.year, 30);
    var era, yoe := (d.year - 1) / 30, (d.year - 1) % 30;
    YoeStep(yoe);
    if yoe < 29 {
      DivUnique(d.year, 30, era, yoe + 1);
    } else {
      DivUnique(d.year, 30, era + 1, 0);
    }
  }

  lemma NextInMonth(d: Ymd, n: Ymd)
    requires n == d.(day := d.day + 1)
    ensures ToDays(n) == ToDays(d) + 1
  {
    hide Quot, MonthOffset, YoeDays;
    var e := SplitDate(d);
    assert SplitDate(n) == e.(doy := e.doy + 1, doe := e.doe + 1);
  }

  lemma NextMonth(d: Ymd, n: Ymd)
    requires Valid(d) && d.day == LastDay(d.year, d.month) && d.month < 12 && n == G.Ymd(d.year, d.month + 1, 1)
    ensures ToDays(n) == ToDays(d) + 1
  {
    hide Quot, YoeDays, IsLeap;
    var e := SplitDate(d);
    assert SplitDate(n) == e.(doy := e.doy + 1, doe := e.doe + 1);
  }

  lemma NextIsOneDay(d: Ymd)
    requires Valid(d)
    ensures Valid(NextDay(d)) && ToDays(NextDay(d)) == ToDays(d) + 1
  {
    hide ToDays, IsLeap;
    if d.day < LastDay(d.year, d.month) {
      NextInMonth(d, NextDay(d));
    } else if d.month < 12 {
      NextMonth(d, NextDay(d));
    } else {
      YearStep(d, NextDay(d));
    }
  }

  lemma PrevNext(d: Ymd)
    requires Valid(d)
    ensures Valid(PrevDay(d)) && NextDay(PrevDay(d)) == d
  {
    hide IsLeap;
  }

  lemma EpochIsDayZero()
    ensures ToDays(G.Ymd(1389, 10, 22)) == 0
  {}

  lemma {:induction false} WalkCountsDays(n: int, d: Ymd)
    requires d == Walk(n)
    ensures ToDays(d) == n
    decreases if n < 0 then -n else n
  {
    hide ToDays, LastDay;
    EpochIsDayZero();
    if n > 0 {
      WalkCountsDays(n - 1, Walk(n - 1));
      NextIsOneDay(Walk(n - 1));
    } else if n < 0 {
      WalkCountsDays(n + 1, Walk(n + 1));
      PrevNext(Walk(n + 1));
      NextIsOneDay(d);
    }
  }

  // ---------- from_days ----------

  /** The year formula finds the year whose days surround `doe`. */
  lemma YearOfEraBrackets(doe: int, yoe: int)
    requires 0 <= doe < 10631 && yoe == (30 * doe + 10646) / 10631 - 1
    ensures 0 <= yoe < 30 && YoeDays(yoe) <= doe < YoeDays(yoe + 1)
  {}

  lemma YearOfEraAt(yoe: int, doy: int)
    requires 0 <= yoe < 30 && 0 <= doy < YoeDays(yoe + 1) - YoeDays(yoe)
    ensures (30 * (YoeDays(yoe) + doy) + 10646) / 10631 - 1 == yoe
    ensures 0 <= YoeDays(yoe) + doy < 10631
  {}

  lemma MonthAt(m: int, d: int)
    requires 1 <= m <= 12 && 1 <= d <= if m % 2 == 1 || m == 12 then 30 else 29
    ensures (11 * (MonthOffset(m) + d - 1) + 330) / 325 == m
  {}

  lemma MonthOfDay(doy: int, m: int)
    requires 0 <= doy <= 354 && m == (11 * doy + 330) / 325
    ensures 1 <= m <= 12 && MonthOffset(m) <= doy && (m < 12 ==> doy < MonthOffset(m + 1))
  {}

  lemma SplitDaysRanges(n: int, e: G.EraDay)
    requires e == SplitDays(n)
    ensures n == e.era * 10631 + e.doe - 492148 && 0 <= e.doe < 10631
    ensures 0 <= e.yoe < 30 && e.doe == YoeDays(e.yoe) + e.doy && 0 <= e.doy <= 354
    ensures e.doy == 354 ==> e.yoe in LEAP_YEARS
  {
    hide Quot;
    FloorIdiom(n + 492148, 10631);
    YearOfEraBrackets(e.doe, e.yoe);
    LinearStep(e.yoe);
  }

  lemma AssembleValid(e: G.EraDay, d: Ymd)
    requires 0 <= e.yoe < 30 && 0 <= e.doy <= 354 && d == Assemble(e)
    requires e.doy == 354 ==> e.yoe in LEAP_YEARS
    ensures Valid(d)
  {
    hide Quot;
    MonthOfDay(e.doy, d.month);
    FloorIdiom(d.year - 1, 30);
    DivUnique(d.year - 1, 30, e.era, e.yoe);
  }

  lemma SplitAssemble(e: G.EraDay, d: Ymd)
    requires 0 <= e.yoe < 30 && e.doe == YoeDays(e.yoe) + e.doy && d == Assemble(e)
    ensures SplitDate(d) == e
  {
    hide Quot, YoeDays, MonthOffset;
    FloorIdiom(d.year - 1, 30);
    DivUnique(d.year - 1, 30, e.era, e.yoe);
  }

  lemma AssembleSplit(d: Ymd, e: G.EraDay)
    requires Valid(d) && e == SplitDate(d)
    ensures Assemble(e) == d && 0 <= e.yoe < 30 && 0 <= e.doy <= 354
    ensures e.doe == YoeDays(e.yoe) + e.doy && (e.doy == 354 ==> e.yoe in LEAP_YEARS)
  {
    hide Quot, YoeDays;
    FloorIdiom(d.year - 1, 30);
    MonthAt(d.month, d.day);
  }

  lemma SplitDaysAt(n: int, e: G.EraDay)
    requires 0 <= e.yoe < 30 && 0 <= e.doy <= 354 && (e.doy == 354 ==> e.yoe in LEAP_YEARS)
    requires e.doe == YoeDays(e.yoe) + e.doy && n == e.era * 10631 + e.doe - 492148
    ensures SplitDays(n) == e
  {
    hide Quot;
    LinearStep(e.yoe);
    YearOfEraAt(e.yoe, e.doy);
    FloorIdiom(n + 492148, 10631);
    DivUnique(n + 492148, 10631, e.era, e.doe);
  }

  // ---------- theorems ----------

  /** The conversions are mutual inverses between calendar dates and all integers. */
  lemma RoundTrip(d: Ymd, n: int)
    ensures Valid(FromDays(n)) && ToDays(FromDays(n)) == n
    ensures Valid(d) ==> FromDays(ToDays(d)) == d
  {
    hide SplitDays, SplitDate, Assemble, Valid, YoeDays;
    SplitDaysRanges(n, SplitDays(n));
    AssembleValid(SplitDays(n), FromDays(n));
    SplitAssemble(SplitDays(n), FromDays(n));
    if Valid(d) {
      AssembleSplit(d, SplitDate(d));
      SplitDaysAt(ToDays(d), SplitDate(d));
    }
  }

  /** Refinement: the closed forms count single days of the calendar with the table's leap years. */
  lemma WalkIsFromDays(n: int)
    ensures ToDays(Walk(n)) == n && FromDays(n) == Walk(n)
  {
    hide ToDays, FromDays, Valid;
    WalkCountsDays(n, Walk(n));
    RoundTrip(Walk(n), n);
  }
}
