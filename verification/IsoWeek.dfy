/** ISO 8601 week dates of date/iso_week.h, proved against the standard's own definition:
    a week belongs to the Gregorian year of its Thursday and weeks are counted by Thursdays
    (section 2.2.10 of ISO 8601:2004). */
module IsoWeek {
  import opened CppInt
  import opened Gregorian
  import opened Weekdays

  /** ISO weekdays run from Monday = 1 to Sunday = 7. */
  datatype IsoDate = IsoDate(year: int, week: int, weekday: int)

  // ---------- the definition of the standard ----------

  /** Day 0 was a Thursday. */
  function WeekdayNumber(n: int): int {
    (n + 3) % 7 + 1
  }

  /** The Thursday of the Monday-to-Sunday week that holds day `n`. */
  function ThursdayOf(n: int): int {
    n - WeekdayNumber(n) + 4
  }

  function WeekOf(n: int): IsoDate {
    var t := ThursdayOf(n);
    var y := FromDays(t).year;
    IsoDate(y, (t - YearStart(y)) / 7 + 1, WeekdayNumber(n))
  }

  // ---------- the code ----------

  /** `weekday_from_days`, with Sunday encoded as 7. */
  function IsoWeekday(n: int): int {
    var wd := WeekdayOf(n);
    if wd != 0 then wd else 7
  }

  /** The last Thursday of December. */
  function LastThursday(y: int): int {
    LastToDays(y, 12, 4)
  }

  /** `operator-` on ISO weekdays, over wrapping 32-bit unsigned values. */
  function IsoDiff(x: int, y: int): int {
    var diff := (x - y) % 0x1_0000_0000;
    if diff <= 6 then diff else (diff + 7) % 0x1_0000_0000
  }

  /** `year_weeknum_weekday::operator sys_days`. */
  function SysDays(x: IsoDate): int {
    LastThursday(x.year - 1) + Diff(1, 4) + 7 * (x.week - 1) + IsoDiff(x.weekday, 1)
  }

  /** `year_lastweek::weeknum`: the number of weeks of an ISO year. */
  function LastWeek(y: int): int {
    Quot(LastThursday(y) - LastThursday(y - 1), 7)
  }

  /** `year_lastweek_weekday::operator sys_days`. */
  function LastWeekSysDays(y: int, wd: int): int {
    LastThursday(y) + IsoDiff(7, 4) - IsoDiff(7, wd)
  }

  /** `ok()` without the bound on the year. */
  predicate Valid(x: IsoDate) {
    1 <= x.weekday <= 7 && 1 <= x.week <= LastWeek(x.year)
  }

  // ---------- week 1 ----------

  /** Day `s` is the Monday of the week with the first Thursday of the year. */
  predicate WeekOne(y: int, s: int) {
    (s + 3) % 7 == 0 && YearStart(y) <= s + 3 < YearStart(y) + 7
  }

  lemma DecemberEnd(y: int)
    ensures MonthStart(y, 12) + LastDay(y, 12) == YearStart(y + 1)
  {
    hide ToDays, YearStart, IsLeap;
    ToDaysByYear(y, 12, 1);
    YearStartStep(y);
  }

  /** Both headers reach week 1 by adding `Monday - Thursday`, which is 4, to the last Thursday of December. */
  lemma AfterLastThursday(y: int, t: int, s: int)
    requires t == LastThursday(y - 1) && s == t + 4
    ensures WeekOne(y, s)
  {
    hide LastToDays, LastDay, MonthStart, YearStart, WeekdayOf;
    LastIsLast(y - 1, 12, 4);
    DecemberEnd(y - 1);
    ThursdayPlusFour(t, s, MonthStart(y - 1, 12) + LastDay(y - 1, 12));
  }

  lemma ThursdayPlusFour(t: int, s: int, end: int)
    requires WeekdayOf(t) == 4 && s == t + 4 && t < end <= t + 7
    ensures (s + 3) % 7 == 0 && end <= s + 3 < end + 7
  {
    hide WeekdayOf;
    WeekdayIsModulo(t);
  }

  lemma MondayMinusThursday()
    ensures IsoDiff(1, 4) == 4 && Diff(1, 4) == 4 && IsoDiff(7, 4) == 3
  {}

  lemma IsoDiffs(wd: int)
    requires 1 <= wd <= 7
    ensures IsoDiff(wd, 1) == wd - 1 && IsoDiff(7, wd) == 7 - wd
  {}

  lemma IsoWeekdayAgrees(n: int)
    ensures IsoWeekday(n) == WeekdayNumber(n)
  {
    hide WeekdayOf;
    WeekdayIsModulo(n);
  }

  // ---------- weeks between two starts ----------

  /** Pure arithmetic of a year of weeks: `s`, `s'` consecutive starts, `a`, `a'` the years' first days. */
  lemma WeekCount(n: int, s: int, s': int, a: int, a': int)
    requires (s + 3) % 7 == 0 && (s' + 3) % 7 == 0 && s <= n < s'
    requires a <= s + 3 < a + 7 && a' <= s' + 3 < a' + 7
    ensures a <= ThursdayOf(n) < a' && (ThursdayOf(n) - a) / 7 == (n - s) / 7
    ensures n == s + 7 * ((n - s) / 7) + WeekdayNumber(n) - 1
    ensures s + 7 * ((n - s) / 7) + 7 <= s'
  {
    var k, r := (n - s) / 7, (n - s) % 7;
    DivUnique(n + 3, 7, (s + 3) / 7 + k, r);
    DivUnique(ThursdayOf(n) - a, 7, k, s + 3 - a);
  }

  /** The days of an ISO year are those from its week 1 to the next year's week 1. */
  lemma BetweenStarts(n: int, y: int, s: int, s': int)
    requires WeekOne(y, s) && WeekOne(y + 1, s') && s <= n < s'
    ensures WeekOf(n) == IsoDate(y, (n - s) / 7 + 1, WeekdayNumber(n))
  {
    hide FromDays, YearStart, ThursdayOf, WeekdayNumber;
    WeekCount(n, s, s', YearStart(y), YearStart(y + 1));
    YearOfDay(ThursdayOf(n), y);
  }

  lemma YearHolds(n: int, y: int)
    requires y == FromDays(n).year
    ensures YearStart(y) <= n < YearStart(y + 1)
  {
    hide FromDays, YearStart, ToDays, Gregorian.Valid;
    DateOfDay(n, FromDays(n));
  }

  lemma YearLengths(y: int)
    ensures YearStart(y) + 365 <= YearStart(y + 1) <= YearStart(y) + 366
  {
    hide YearStart, IsLeap;
    YearStartStep(y);
  }

  /** The branch of the code: the year three days on is the ISO year or the one after it. */
  lemma ThreeDaysOn(n: int, y: int, s0: int, s: int, s1: int)
    requires YearStart(y) <= n + 3 < YearStart(y + 1)
    requires WeekOne(y - 1, s0) && WeekOne(y, s) && WeekOne(y + 1, s1)
    ensures if n < s then s0 <= n else n < s1
  {
    hide YearStart;
    YearLengths(y - 1);
  }

  // ---------- year_weeknum_weekday::from_days ----------

  /** The code's computation from the starts of the three years it may look at. */
  lemma WeekByBranch(n: int, y: int, s0: int, s: int, s1: int)
    requires y == FromDays(n + 3).year && WeekOne(y - 1, s0) && WeekOne(y, s) && WeekOne(y + 1, s1)
    ensures if n < s then s0 <= n && WeekOf(n) == IsoDate(y - 1, (n - s0) / 7 + 1, WeekdayNumber(n))
            else n < s1 && WeekOf(n) == IsoDate(y, (n - s) / 7 + 1, WeekdayNumber(n))
  {
    hide FromDays, YearStart, WeekOne, WeekOf, WeekdayNumber;
    YearHolds(n + 3, y);
    ThreeDaysOn(n, y, s0, s, s1);
    if n < s {
      BetweenStarts(n, y - 1, s0, s);
    } else {
      BetweenStarts(n, y, s, s1);
    }
  }

  lemma CodeStarts(n: int, y: int, t0: int, t: int, t1: int)
    requires y == FromDays(n + 3).year
    requires t0 == LastThursday(y - 2) && t == LastThursday(y - 1) && t1 == LastThursday(y)
    ensures if n < t + 4 then t0 + 4 <= n && WeekOf(n) == IsoDate(y - 1, (n - t0 - 4) / 7 + 1, WeekdayNumber(n))
            else n < t1 + 4 && WeekOf(n) == IsoDate(y, (n - t - 4) / 7 + 1, WeekdayNumber(n))
  {
    hide FromDays, LastThursday, WeekOne, WeekOf, WeekdayNumber;
    AfterLastThursday(y - 1, t0, t0 + 4);
    AfterLastThursday(y, t, t + 4);
    AfterLastThursday(y + 1, t1, t1 + 4);
    WeekByBranch(n, y, t0 + 4, t + 4, t1 + 4);
  }

  /** `from_days` computes the standard's week date. */
  method FromDaysIso(dp: int) returns (r: IsoDate)
    ensures r == WeekOf(dp)
  {
    hide FromDays, LastThursday, WeekOf, WeekdayNumber, IsoDiff, IsoWeekday;
    var wd := IsoWeekday(dp);
    var y := FromDays(dp + 3).year;
    var start := LastThursday(y - 1) + IsoDiff(1, 4);
    CodeStarts(dp, y, LastThursday(y - 2), LastThursday(y - 1), LastThursday(y));
    MondayMinusThursday();
    IsoWeekdayAgrees(dp);
    if dp < start {
      y := y - 1;
      start := LastThursday(y - 1) + IsoDiff(1, 4);
    }
    var wn := Quot(dp - start, 7) + 1;
    r := IsoDate(y, wn, wd);
  }

  // ---------- theorems ----------

  lemma StartsApart(y: int, t0: int, t: int)
    requires t0 == LastThursday(y - 1) && t == LastThursday(y)
    ensures WeekOne(y, t0 + 4) && WeekOne(y + 1, t + 4)
    ensures t - t0 == 7 * LastWeek(y)
  {
    hide LastThursday, YearStart;
    AfterLastThursday(y, t0, t0 + 4);
    AfterLastThursday(y + 1, t, t + 4);
    YearLengths(y);
    WholeWeeks(t0, t, YearStart(y), YearStart(y + 1));
  }

  lemma WholeWeeks(t0: int, t: int, a: int, a': int)
    requires (t0 + 7) % 7 == 0 && (t + 7) % 7 == 0
    requires a <= t0 + 7 < a + 7 && a' <= t + 7 < a' + 7 && a + 365 <= a' <= a + 366
    ensures t - t0 == 7 * Quot(t - t0, 7) && 364 <= t - t0 <= 371
  {
    var i, j := (t0 + 7) / 7, (t + 7) / 7;
    assert t - t0 == 7 * (j - i);
  }

  /** Week dates and day numbers are in bijection; the conversion always yields an existing week. */
  lemma RoundTripIso(x: IsoDate, n: int)
    ensures Valid(WeekOf(n)) && SysDays(WeekOf(n)) == n
    ensures Valid(x) ==> WeekOf(SysDays(x)) == x
  {
    hide FromDays, Valid, WeekOf, SysDays, LastThursday;
    WeekOfValid(n, FromDays(n + 3).year, WeekOf(n));
    if Valid(x) {
      WeekOfSysDays(x, SysDays(x), LastThursday(x.year - 1), LastThursday(x.year));
    }
  }

  lemma WeekOfValid(n: int, y: int, x: IsoDate)
    requires y == FromDays(n + 3).year && x == WeekOf(n)
    ensures Valid(x) && SysDays(x) == n
  {
    hide FromDays, Valid, WeekOf, SysDays, LastThursday, WeekdayNumber;
    CodeStarts(n, y, LastThursday(y - 2), LastThursday(y - 1), LastThursday(y));
    InItsYear(n, x, LastThursday(x.year - 1), LastThursday(x.year));
  }

  lemma InItsYear(n: int, x: IsoDate, t0: int, t: int)
    requires t0 == LastThursday(x.year - 1) && t == LastThursday(x.year) && t0 + 4 <= n < t + 4
    requires x.week == (n - t0 - 4) / 7 + 1 && x.weekday == WeekdayNumber(n)
    ensures Valid(x) && SysDays(x) == n
  {
    hide LastThursday, YearStart, IsoDiff, Diff, LastWeek, ThursdayOf;
    StartsApart(x.year, t0, t);
    WeekCount(n, t0 + 4, t + 4, YearStart(x.year), YearStart(x.year + 1));
    MondayMinusThursday();
    IsoDiffs(x.weekday);
  }

  lemma WeekOfSysDays(x: IsoDate, n: int, t0: int, t: int)
    requires Valid(x) && n == SysDays(x) && t0 == LastThursday(x.year - 1) && t == LastThursday(x.year)
    ensures WeekOf(n) == x
  {
    hide LastThursday, YearStart, IsoDiff, Diff, LastWeek, WeekOf, ThursdayOf;
    StartsApart(x.year, t0, t);
    MondayMinusThursday();
    IsoDiffs(x.weekday);
    DivUnique(n - t0 - 4, 7, x.week - 1, x.weekday - 1);
    BetweenStarts(n, x.year, t0 + 4, t + 4);
    WeekCount(n, t0 + 4, t + 4, YearStart(x.year), YearStart(x.year + 1));
  }

  /** A year has 53 weeks exactly when 1 January is a Thursday, or a Wednesday in a leap year. */
  lemma LongYears(y: int)
    ensures 52 <= LastWeek(y) <= 53
    ensures LastWeek(y) == 53 <==>
            WeekdayOf(YearStart(y)) == 4 || (WeekdayOf(YearStart(y)) == 3 && IsLeap(y))
  {
    hide LastThursday, YearStart, IsLeap, LastWeek, WeekdayOf;
    StartsApart(y, LastThursday(y - 1), LastThursday(y));
    YearStartStep(y);
    WeekdayIsModulo(YearStart(y));
    FirstThursdays(YearStart(y), YearLength(y), LastThursday(y - 1) + 7, LastWeek(y));
  }

  lemma FirstThursdays(a: int, len: int, t: int, weeks: int)
    requires (len == 365 || len == 366) && t % 7 == 0
    requires a <= t < a + 7 && a + len <= t + 7 * weeks < a + len + 7
    ensures 52 <= weeks <= 53
    ensures weeks == 53 <==> (a + 4) % 7 == 4 || ((a + 4) % 7 == 3 && len == 366)
  {
    DivUnique(a + 4, 7, t / 7 + (if t - a <= 4 then 0 else -1), (if t - a <= 4 then 4 - (t - a) else 11 - (t - a)));
  }

  /** The `last`-week conversion agrees with spelling out the last week's number. */
  lemma LastWeekAgrees(y: int, wd: int)
    requires 1 <= wd <= 7
    ensures LastWeekSysDays(y, wd) == SysDays(IsoDate(y, LastWeek(y), wd))
  {
    hide LastThursday, IsoDiff, Diff, LastWeek, WeekOne;
    IsoDiffs(wd);
    MondayMinusThursday();
    StartsApart(y, LastThursday(y - 1), LastThursday(y));
  }
}
