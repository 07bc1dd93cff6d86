/** Weekday arithmetic and the nth-weekday-of-month dates of date/date.h. Sunday is 0. */
module Weekdays {
  import opened CppInt
  import opened Gregorian

  // ---------- weekday ----------

  /** `weekday_from_days`. */
  function WeekdayOf(z: int): int {
    if z >= -4 then Rem(z + 4, 7) else Rem(z + 5, 7) + 6
  }

  /** `operator-` on weekdays: the days from `y` forward to the next `x`. */
  function Diff(x: int, y: int): int {
    var wdu := x - y;
    var wk := Quot(if wdu >= 0 then wdu else wdu - 6, 7);
    wdu - wk * 7
  }

  lemma WeekdayIsModulo(z: int)
    ensures WeekdayOf(z) == (z + 4) % 7
  {
    if z < -4 {
      var q, r := (z + 4) / 7, (z + 4) % 7;
      DivUnique(-(z + 5), 7, -q - 1, 6 - r);
    }
  }

  lemma DiffIsModulo(x: int, y: int)
    ensures Diff(x, y) == (x - y) % 7
  {
    hide Quot;
    FloorIdiom(x - y, 7);
  }

  lemma ModuloAhead(a: int, w: int, k: int)
    requires 0 <= w <= 6 && k == (w - a % 7) % 7
    ensures (a + k) % 7 == w
  {
    var q, j := a / 7, (w - a % 7) / 7;
    DivUnique(a + k, 7, q - j, w);
  }

  lemma ModuloBack(a: int, w: int, k: int)
    requires 0 <= w <= 6 && k == (a % 7 - w) % 7
    ensures (a - k) % 7 == w
  {
    var q, j := a / 7, (a % 7 - w) / 7;
    DivUnique(a - k, 7, q + j, w);
  }

  /** `Diff` counts the days from day `n` forward to the next `wd`. */
  lemma AheadTo(wd: int, n: int, k: int)
    requires 0 <= wd <= 6 && k == Diff(wd, WeekdayOf(n))
    ensures 0 <= k <= 6 && WeekdayOf(n + k) == wd
  {
    hide WeekdayOf, Diff;
    WeekdayIsModulo(n);
    DiffIsModulo(wd, WeekdayOf(n));
    ModuloAhead(n + 4, wd, k);
    WeekdayIsModulo(n + k);
  }

  /** And back from day `n` to the latest `wd`. */
  lemma BackTo(n: int, wd: int, k: int)
    requires 0 <= wd <= 6 && k == Diff(WeekdayOf(n), wd)
    ensures 0 <= k <= 6 && WeekdayOf(n - k) == wd
  {
    hide WeekdayOf, Diff;
    WeekdayIsModulo(n);
    DiffIsModulo(WeekdayOf(n), wd);
    ModuloBack(n + 4, wd, k);
    WeekdayIsModulo(n - k);
  }

  /** Days with the same weekday less than a week apart are the same day. */
  lemma SameWeekdayWithinWeek(a: int, b: int)
    requires WeekdayOf(a) == WeekdayOf(b) && -7 < a - b < 7
    ensures a == b
  {
    hide WeekdayOf;
    WeekdayIsModulo(a);
    WeekdayIsModulo(b);
  }

  lemma WeekdayShift(n: int, k: int)
    ensures WeekdayOf(n + 7 * k) == WeekdayOf(n)
  {
    hide WeekdayOf;
    WeekdayIsModulo(n);
    WeekdayIsModulo(n + 7 * k);
    DivUnique(n + 7 * k + 4, 7, (n + 4) / 7 + k, (n + 4) % 7);
  }

  // ---------- months as ranges of day numbers ----------

  function MonthStart(y: int, m: int): int {
    ToDays(Ymd(y, m, 1))
  }

  lemma DayOfMonth(y: int, m: int, k: int, d: Ymd)
    requires 1 <= m <= 12 && d == Ymd(y, m, k)
    ensures ToDays(d) == MonthStart(y, m) + k - 1
  {
    hide ToDays, YearStart, DaysBeforeMonth;
    ToDaysByYear(y, m, k);
    ToDaysByYear(y, m, 1);
  }

  lemma InMonth(n: int, y: int, m: int)
    requires 1 <= m <= 12 && MonthStart(y, m) <= n < MonthStart(y, m) + LastDay(y, m)
    ensures FromDays(n) == Ymd(y, m, n - MonthStart(y, m) + 1)
  {
    hide MonthStart, LastDay;
    var k := n - MonthStart(y, m) + 1;
    DateNumber(n, y, m, k, Ymd(y, m, k));
  }

  lemma DateNumber(n: int, y: int, m: int, k: int, d: Ymd)
    requires 1 <= m <= 12 && d == Ymd(y, m, k) && Valid(d) && n == MonthStart(y, m) + k - 1
    ensures FromDays(n) == d
  {
    hide ToDays, FromDays, LastDay;
    DayOfMonth(y, m, k, d);
    NamesItsDate(d, n, FromDays(n));
  }

  lemma MonthOf(n: int, d: Ymd)
    requires d == FromDays(n)
    ensures Valid(d) && n == MonthStart(d.year, d.month) + d.day - 1
  {
    hide ToDays, FromDays;
    RoundTrip(d, n);
    DayOfMonth(d.year, d.month, d.day, d);
  }

  // ---------- year_month_weekday ----------

  datatype Ymwd = Ymwd(year: int, month: int, weekday: int, index: int)

  /** `ok()` without the bound on the year. */
  predicate Exists(x: Ymwd) {
    && 1 <= x.month <= 12 && 0 <= x.weekday <= 6 && 1 <= x.index
    && (x.index <= 4 ||
        Diff(x.weekday, WeekdayOf(MonthStart(x.year, x.month))) + (x.index - 1) * 7 + 1 <= LastDay(x.year, x.month))
  }

  function NthToDays(x: Ymwd): int {
    var d := MonthStart(x.year, x.month);
    d + Diff(x.weekday, WeekdayOf(d)) + (x.index - 1) * 7
  }

  function NthFromDays(n: int): Ymwd {
    var d := FromDays(n);
    Ymwd(d.year, d.month, WeekdayOf(n), (d.day - 1) / 7 + 1)
  }

  lemma ExistsRange(x: Ymwd)
    requires 1 <= x.month <= 12 && 0 <= x.weekday <= 6 && 0 <= x.index
    ensures Exists(x) <==> 0 <= NthToDays(x) - MonthStart(x.year, x.month) < LastDay(x.year, x.month)
    ensures WeekdayOf(NthToDays(x)) == x.weekday
    ensures (NthToDays(x) - MonthStart(x.year, x.month)) / 7 == x.index - 1
  {
    hide MonthStart, WeekdayOf, Diff, LastDay;
    var d := MonthStart(x.year, x.month);
    AheadTo(x.weekday, d, Diff(x.weekday, WeekdayOf(d)));
    WeekdayShift(d + Diff(x.weekday, WeekdayOf(d)), x.index - 1);
    ShortestMonth(x.year, x.month);
    DivUnique(NthToDays(x) - d, 7, x.index - 1, Diff(x.weekday, WeekdayOf(d)));
  }

  lemma ShortestMonth(y: int, m: int)
    requires 1 <= m <= 12
    ensures 28 <= LastDay(y, m) <= 31
  {
    hide IsLeap;
  }

  /** `ok()` holds exactly when the nth weekday lies in the month. */
  lemma ExistsIffInMonth(x: Ymwd)
    requires 1 <= x.month <= 12 && 0 <= x.weekday <= 6 && 0 <= x.index
    ensures Exists(x) <==>
            FromDays(NthToDays(x)).year == x.year && FromDays(NthToDays(x)).month == x.month
  {
    hide NthToDays, Exists, FromDays, MonthStart, LastDay;
    ExistsRange(x);
    var n := NthToDays(x);
    if Exists(x) {
      InMonth(n, x.year, x.month);
    }
    MonthOf(n, FromDays(n));
  }

  /** The nth-weekday conversions are mutual inverses. */
  lemma NthRoundTrip(x: Ymwd, n: int)
    ensures Exists(NthFromDays(n)) && NthToDays(NthFromDays(n)) == n
    ensures Exists(x) ==> NthFromDays(NthToDays(x)) == x
  {
    hide NthToDays, FromDays, MonthStart, LastDay, WeekdayOf;
    NthFromDaysExists(n, FromDays(n), NthFromDays(n));
    if Exists(x) {
      ExistsRange(x);
      InMonth(NthToDays(x), x.year, x.month);
    }
  }

  lemma NthFromDaysExists(n: int, d: Ymd, x: Ymwd)
    requires d == FromDays(n) && x == Ymwd(d.year, d.month, WeekdayOf(n), (d.day - 1) / 7 + 1)
    ensures Exists(x) && NthToDays(x) == n
  {
    hide NthToDays, Exists, FromDays, MonthStart, LastDay, WeekdayOf;
    MonthOf(n, d);
    WeekdayIsModulo(n);
    ExistsRange(x);
    SameWeekdayWithinWeek(n, NthToDays(x));
  }

  // ---------- year_month_weekday_last ----------

  function LastToDays(y: int, m: int, wd: int): int
    requires 1 <= m <= 12
  {
    var d := ToDays(Ymd(y, m, LastDay(y, m)));
    d - Diff(WeekdayOf(d), wd)
  }

  /** `weekday[last]` is that weekday, lies in the month, and a week later the month is over. */
  lemma LastIsLast(y: int, m: int, wd: int)
    requires 1 <= m <= 12 && 0 <= wd <= 6
    ensures var n := LastToDays(y, m, wd);
            && WeekdayOf(n) == wd
            && MonthStart(y, m) <= n < MonthStart(y, m) + LastDay(y, m) <= n + 7
  {
    hide ToDays, LastDay, WeekdayOf, Diff;
    var d := ToDays(Ymd(y, m, LastDay(y, m)));
    ShortestMonth(y, m);
    DayOfMonth(y, m, LastDay(y, m), Ymd(y, m, LastDay(y, m)));
    BackTo(d, wd, Diff(WeekdayOf(d), wd));
  }

  /** Hence it is the fourth or the fifth, whichever is the greatest index that exists. */
  lemma LastIsGreatestIndex(y: int, m: int, wd: int)
    requires 1 <= m <= 12 && 0 <= wd <= 6
    ensures var x := NthFromDays(LastToDays(y, m, wd));
            && Exists(x) && x.year == y && x.month == m && x.weekday == wd
            && 4 <= x.index <= 5 && !Exists(x.(index := x.index + 1))
  {
    hide LastToDays, LastDay, MonthStart, Exists, NthFromDays;
    LastIsLast(y, m, wd);
    GreatestIndex(y, m, LastToDays(y, m, wd), NthFromDays(LastToDays(y, m, wd)));
  }

  lemma GreatestIndex(y: int, m: int, n: int, x: Ymwd)
    requires 1 <= m <= 12 && x == NthFromDays(n)
    requires MonthStart(y, m) <= n < MonthStart(y, m) + LastDay(y, m) <= n + 7
    ensures Exists(x) && x.year == y && x.month == m && x.weekday == WeekdayOf(n)
    ensures 4 <= x.index <= 5 && !Exists(x.(index := x.index + 1))
  {
    hide FromDays, LastDay, MonthStart, WeekdayOf;
    InMonth(n, y, m);
    NthFromDaysExists(n, FromDays(n), x);
    ShortestMonth(y, m);
    ExistsRange(x);
    ExistsRange(x.(index := x.index + 1));
  }
}
