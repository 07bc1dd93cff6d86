/** POSIX time zones of date/ptz.h (section 8.3 of the POSIX.1-2008 Base Definitions).
    Instants and local times are `real` seconds since 1970, so every tick size is covered;
    rules, offsets and transitions are whole seconds. */
module PosixZone {
  import opened CppInt
  import opened Gregorian
  import opened Weekdays

  const DAY := 86400

  // ---------- rules ----------

  datatype Rule = Off | J(n: int, time: int) | M(month: int, n: int, wd: int, time: int) | N(n: int, time: int)

  predicate Usable(r: Rule) {
    !r.Off? && (r.M? ==> 1 <= r.month <= 12)
  }

  function RuleDay(r: Rule, y: int): int
    requires Usable(r)
  {
    match r
    case J(n, _) => ToDays(Ymd(y, 1, 0)) + n + if IsLeap(y) && n > 59 then 1 else 0
    case M(m, n, wd, _) => if n == 5 then LastToDays(y, m, wd) else NthToDays(Ymwd(y, m, wd, n))
    case N(n, _) => ToDays(Ymd(y, 1, 1)) + n
  }

  /** `rule::operator()`: the local second at which the rule strikes in year `y`. */
  function RuleAt(r: Rule, y: int): int
    requires Usable(r)
  {
    DAY * RuleDay(r, y) + r.time
  }

  // ---------- zones ----------

  datatype Zone = Zone(std: string, dst: string, offset: int, save: int, start: Rule, end: Rule)

  /** The constructor sets both rules or neither. */
  predicate WellFormed(z: Zone) {
    (z.start.Off? && z.end.Off?) || (Usable(z.start) && Usable(z.end))
  }

  predicate HasDst(z: Zone) {
    Usable(z.start) && Usable(z.end)
  }

  /** The UTC second daylight saving starts and ends in year `y`. */
  function StartUtc(z: Zone, y: int): int
    requires HasDst(z)
  {
    RuleAt(z.start, y) - z.offset
  }

  function EndUtc(z: Zone, y: int): int
    requires HasDst(z)
  {
    RuleAt(z.end, y) - (z.offset + z.save)
  }

  datatype SysInfo = SysInfo(begin: int, end: int, offset: int, save: int, abbrev: string)

  /** `ceil<minutes>`: the least number of minutes not below `s` seconds. */
  function CeilMinutes(s: int): (m: int)
    ensures 60 * (m - 1) < s <= 60 * m
  {
    -((-s) / 60)
  }

  function StdInfo(z: Zone, begin: int, end: int): SysInfo {
    SysInfo(begin, end, z.offset, 0, z.std)
  }

  function DstInfo(z: Zone, begin: int, end: int): SysInfo {
    SysInfo(begin, end, z.offset + z.save, CeilMinutes(z.save), z.dst)
  }

  /** `year_month_day{floor<days>(t)}.year()`. */
  function YearOf(t: real): int {
    FromDays((t / 86400.0).Floor).year
  }

  /** The record the transitions of year `y` give to instant `t`. */
  function RecordFor(z: Zone, y: int, t: real): SysInfo
    requires HasDst(z)
  {
    var start, end := StartUtc(z, y), EndUtc(z, y);
    if start as real <= t < end as real then DstInfo(z, start, end)
    else if t < start as real then StdInfo(z, EndUtc(z, y - 1), start)
    else StdInfo(z, end, StartUtc(z, y + 1))
  }

  function ConstantInfo(z: Zone): SysInfo {
    StdInfo(z, DAY * ToDays(Ymd(-32767, 1, 1)), DAY * ToDays(Ymd(32767, 12, LastDay(32767, 12))))
  }

  /** `get_info(sys_time)`. */
  function SysInfoAt(z: Zone, t: real): SysInfo
    requires WellFormed(z)
  {
    if HasDst(z) then RecordFor(z, YearOf(t), t) else ConstantInfo(z)
  }

  function ToLocal(z: Zone, t: real): real
    requires WellFormed(z)
  {
    t + SysInfoAt(z, t).offset as real
  }

  // ---------- local times ----------

  datatype Kind = Unique | Nonexistent | Ambiguous

  datatype LocalInfo = LocalInfo(result: Kind, first: SysInfo, second: SysInfo)

  const NO_INFO := SysInfo(0, 0, 0, 0, "")

  /** `get_info(local_time)`. */
  function LocalInfoAt(z: Zone, tp: real): LocalInfo
    requires WellFormed(z)
  {
    if !HasDst(z) then LocalInfo(Unique, ConstantInfo(z), NO_INFO)
    else
      var y := YearOf(tp);
      var start, end := StartUtc(z, y), EndUtc(z, y);
      var before := StdInfo(z, EndUtc(z, y - 1), start);
      var during := DstInfo(z, start, end);
      var after := StdInfo(z, end, StartUtc(z, y + 1));
      var utcs := (tp - z.offset as real).Floor;
      var utcd := (tp - (z.offset + z.save) as real).Floor;
      if (utcs < start) != (utcd < start) then
        LocalInfo(if z.save > 0 then Nonexistent else Ambiguous, before, during)
      else if (utcs < end) != (utcd < end) then
        LocalInfo(if z.save > 0 then Ambiguous else Nonexistent, during, after)
      else if utcs < start then LocalInfo(Unique, before, NO_INFO)
      else if utcs < end then LocalInfo(Unique, during, NO_INFO)
      else LocalInfo(Unique, after, NO_INFO)
  }

  datatype Conversion = Converted(t: real) | NonexistentLocalTime | AmbiguousLocalTime

  /** `to_sys(local_time)`, which throws. */
  function ToSys(z: Zone, tp: real): Conversion
    requires WellFormed(z)
  {
    var i := LocalInfoAt(z, tp);
    if i.result == Nonexistent then NonexistentLocalTime
    else if i.result == Ambiguous then AmbiguousLocalTime
    else Converted(tp - i.first.offset as real)
  }

  datatype Choose = Earliest | Latest

  function Chosen(i: LocalInfo, tp: real, c: Choose): real {
    if i.result == Nonexistent then i.first.end as real
    else if i.result == Ambiguous && c == Latest then tp - i.second.offset as real
    else tp - i.first.offset as real
  }

  /** `to_sys(local_time, choose)`. */
  function ToSysChoose(z: Zone, tp: real, c: Choose): real
    requires WellFormed(z)
  {
    Chosen(LocalInfoAt(z, tp), tp, c)
  }

  // ---------- years on the time line ----------

  function YearSec(y: int): int {
    DAY * YearStart(y)
  }

  lemma YearOfTime(t: real, y: int)
    ensures YearOf(t) == y <==> YearSec(y) as real <= t < YearSec(y + 1) as real
  {
    hide YearStart, FromDays;
    var n := (t / 86400.0).Floor;
    YearOfDay(n, y);
    assert n as real <= t / 86400.0 < (n + 1) as real;
    FloorDay(t, n, YearStart(y));
    FloorDay(t, n, YearStart(y + 1));
  }

  lemma FloorDay(t: real, n: int, k: int)
    requires n as real <= t / 86400.0 < (n + 1) as real
    ensures k <= n <==> (DAY * k) as real <= t
  {}

  // ---------- get_info(sys) partitions the time line ----------

  /** Both transitions of a year lie in that UTC year. */
  ghost predicate InTheirYears(z: Zone)
    requires HasDst(z)
  {
    forall y :: YearSec(y) <= StartUtc(z, y) < YearSec(y + 1) && YearSec(y) <= EndUtc(z, y) <= YearSec(y + 1)
  }

  ghost predicate Ordered(z: Zone)
    requires HasDst(z)
  {
    forall y :: StartUtc(z, y) <= EndUtc(z, y)
  }

  predicate Covers(r: SysInfo, t: real) {
    r.begin as real <= t < r.end as real
  }

  /** Every record covers its instant, is the record of all it covers, and the next begins where it ends. */
  ghost predicate Partitions(z: Zone)
    requires HasDst(z)
  {
    forall t: real, u: real ::
      var r := SysInfoAt(z, t);
      && Covers(r, t)
      && (Covers(r, u) ==> SysInfoAt(z, u) == r)
      && SysInfoAt(z, r.end as real).begin == r.end
  }

  /** Around year `y` the record does not depend on the UTC year of the instant. */
  lemma Window(z: Zone, y: int, u: real)
    requires HasDst(z) && InTheirYears(z) && Ordered(z)
    requires EndUtc(z, y - 1) as real <= u < StartUtc(z, y + 1) as real
    ensures SysInfoAt(z, u) == RecordFor(z, y, u)
  {
    hide StartUtc, EndUtc, YearSec, YearOf;
    var k := YearOf(u);
    YearOfTime(u, k);
    YearOfTime(u, y - 1);
    YearOfTime(u, y);
    YearOfTime(u, y + 1);
    assert StartUtc(z, y - 1) <= EndUtc(z, y - 1) && StartUtc(z, y) <= EndUtc(z, y);
    assert StartUtc(z, y + 1) < YearSec(y + 2);
    assert k == y - 1 || k == y || k == y + 1;
  }

  lemma OrderedPartitions(z: Zone)
    requires HasDst(z) && InTheirYears(z) && Ordered(z)
    ensures Partitions(z)
  {
    forall t: real, u: real
      ensures var r := SysInfoAt(z, t);
              && Covers(r, t)
              && (Covers(r, u) ==> SysInfoAt(z, u) == r)
              && SysInfoAt(z, r.end as real).begin == r.end
    {
      PartitionAt(z, YearOf(t), t, u, SysInfoAt(z, t));
    }
  }

  lemma PartitionAt(z: Zone, y: int, t: real, u: real, r: SysInfo)
    requires HasDst(z) && InTheirYears(z) && Ordered(z) && y == YearOf(t) && r == RecordFor(z, y, t)
    ensures Covers(r, t)
    ensures Covers(r, u) ==> SysInfoAt(z, u) == r
    ensures SysInfoAt(z, r.end as real).begin == r.end
  {
    hide StartUtc, EndUtc, YearSec, YearOf, SysInfoAt;
    YearOfTime(t, y);
    assert StartUtc(z, y - 1) <= EndUtc(z, y - 1) <= YearSec(y) <= StartUtc(z, y) <= EndUtc(z, y) <= YearSec(y + 1);
    assert YearSec(y + 1) <= StartUtc(z, y + 1) <= EndUtc(z, y + 1) <= YearSec(y + 2) <= StartUtc(z, y + 2);
    if Covers(r, u) {
      Window(z, y, u);
    }
    if r.end == StartUtc(z, y + 1) {
      Window(z, y + 1, r.end as real);
    } else {
      Window(z, y, r.end as real);
    }
  }

  lemma UnorderedBreaks(z: Zone, y: int)
    requires HasDst(z) && InTheirYears(z) && EndUtc(z, y) < StartUtc(z, y)
    ensures !Partitions(z)
  {
    hide StartUtc, EndUtc, YearSec, YearOf;
    var t, u := StartUtc(z, y) as real, EndUtc(z, y) as real;
    YearOfTime(t, y);
    YearOfTime(u, y);
    assert EndUtc(z, y - 1) <= YearSec(y);
    assert StartUtc(z, y) < YearSec(y + 1) <= StartUtc(z, y + 1);
    var r := SysInfoAt(z, t);
    assert Covers(r, u) && SysInfoAt(z, u) != r;
  }

  /** For zones whose transitions keep to their own UTC years, `get_info` partitions the time line
      exactly when daylight saving never ends before it starts within a year. */
  lemma PartitionsIffOrdered(z: Zone)
    requires HasDst(z) && InTheirYears(z)
    ensures Partitions(z) <==> Ordered(z)
  {
    if Ordered(z) {
      OrderedPartitions(z);
    } else {
      var y :| EndUtc(z, y) < StartUtc(z, y);
      UnorderedBreaks(z, y);
    }
  }

  /** Daylight saving over the new year: within each year it ends no later than it starts. */
  ghost predicate Reversed(z: Zone)
    requires HasDst(z)
  {
    forall y :: EndUtc(z, y) <= StartUtc(z, y)
  }

  /** Such a zone is never put on daylight saving. */
  lemma ReversedNeverDst(z: Zone, t: real)
    requires HasDst(z) && Reversed(z)
    ensures SysInfoAt(z, t).offset == z.offset && SysInfoAt(z, t).save == 0
  {
    hide StartUtc, EndUtc, YearOf;
    assert EndUtc(z, YearOf(t)) <= StartUtc(z, YearOf(t));
  }

  // ---------- get_info as the source fills it in ----------

  method GetSysInfo(z: Zone, st: real) returns (r: SysInfo)
    requires WellFormed(z)
    ensures r == SysInfoAt(z, st)
  {
    hide StartUtc, EndUtc, YearOf, CeilMinutes, ToDays, LastDay;
    r := NO_INFO.(offset := z.offset);
    if z.start != Off {
      var y := YearOf(st);
      var start, end := StartUtc(z, y), EndUtc(z, y);
      if start as real <= st && st < end as real {
        r := r.(begin := start, end := end);
        r := r.(offset := r.offset + z.save, save := CeilMinutes(z.save), abbrev := z.dst);
      } else if st < start as real {
        r := r.(begin := EndUtc(z, y - 1), end := start, abbrev := z.std);
      } else {
        r := r.(begin := end, end := StartUtc(z, y + 1), abbrev := z.std);
      }
    } else {
      r := r.(begin := ConstantInfo(z).begin, end := ConstantInfo(z).end, abbrev := z.std);
    }
  }

  method GetLocalInfo(z: Zone, tp: real) returns (r: LocalInfo)
    requires WellFormed(z)
    ensures r == LocalInfoAt(z, tp)
  {
    hide StartUtc, EndUtc, YearOf, CeilMinutes, ToDays, LastDay;
    var result, first, second := Unique, NO_INFO, NO_INFO;
    if z.start != Off {
      var y := YearOf(tp);
      var start, end := StartUtc(z, y), EndUtc(z, y);
      var utcs := (tp - z.offset as real).Floor;
      var utcd := (tp - (z.offset + z.save) as real).Floor;
      if (utcs < start) != (utcd < start) {
        first := first.(begin := EndUtc(z, y - 1), end := start, offset := z.offset, abbrev := z.std);
        second := second.(begin := start, end := end, abbrev := z.dst, offset := z.offset + z.save);
        second := second.(save := CeilMinutes(z.save));
        result := if z.save > 0 then Nonexistent else Ambiguous;
      } else if (utcs < end) != (utcd < end) {
        first := first.(begin := start, end := end, offset := z.offset + z.save);
        first := first.(save := CeilMinutes(z.save), abbrev := z.dst);
        second := second.(begin := end, end := StartUtc(z, y + 1), abbrev := z.std, offset := z.offset);
        result := if z.save > 0 then Ambiguous else Nonexistent;
      } else if utcs < start {
        first := first.(begin := EndUtc(z, y - 1), end := start, offset := z.offset, abbrev := z.std);
      } else if utcs < end {
        first := first.(begin := start, end := end, offset := z.offset + z.save);
        first := first.(save := CeilMinutes(z.save), abbrev := z.dst);
      } else {
        first := first.(begin := end, end := StartUtc(z, y + 1), abbrev := z.std, offset := z.offset);
      }
    } else {
      first := first.(begin := ConstantInfo(z).begin, end := ConstantInfo(z).end, abbrev := z.std, offset := z.offset);
    }
    r := LocalInfo(result, first, second);
  }

  // ---------- local times ----------

  /** Transitions keep clear of the new year by the offset and the saving, and daylight saving outlasts the saving. */
  ghost predicate Admissible(z: Zone)
    requires HasDst(z)
  {
    forall y ::
      && YearSec(y) + Abs(z.offset) + Abs(z.save) <= StartUtc(z, y)
      && StartUtc(z, y) + Abs(z.save) < EndUtc(z, y)
      && EndUtc(z, y) + Abs(z.offset) + Abs(z.save) <= YearSec(y + 1)
  }

  /** What `Admissible` says of one year and its neighbours; `lo`, `a`, `b`, `hi` are successive transitions. */
  predicate Season(z: Zone, lo: int, a: int, b: int, hi: int, begin: int, next: int) {
    var m := Abs(z.offset) + Abs(z.save);
    lo + m <= begin && begin + m <= a && a + Abs(z.save) < b && b + m <= next && next + m <= hi
  }

  lemma AdmissibleSeason(z: Zone, y: int)
    requires HasDst(z) && Admissible(z)
    ensures InTheirYears(z) && Ordered(z)
    ensures Season(z, EndUtc(z, y - 1), StartUtc(z, y), EndUtc(z, y), StartUtc(z, y + 1), YearSec(y), YearSec(y + 1))
  {
    hide StartUtc, EndUtc, YearSec;
    assert StartUtc(z, y - 1) + Abs(z.save) < EndUtc(z, y - 1);
  }

  /** Local times of local year `y` come only from the window of year `y`; instants before it show
      earlier local times and instants after it later ones. */
  lemma LocalWindow(z: Zone, y: int, tp: real, t: real)
    requires HasDst(z) && Admissible(z) && y == YearOf(tp)
    ensures t < EndUtc(z, y - 1) as real ==> ToLocal(z, t) < tp
    ensures t >= StartUtc(z, y + 1) as real ==> ToLocal(z, t) > tp
    ensures EndUtc(z, y - 1) as real <= t < StartUtc(z, y + 1) as real ==> SysInfoAt(z, t) == RecordFor(z, y, t)
  {
    hide StartUtc, EndUtc, YearSec, YearOf, RecordFor;
    AdmissibleSeason(z, y);
    YearOfTime(tp, y);
    OffsetIsOneOfTwo(z, t);
    if EndUtc(z, y - 1) as real <= t < StartUtc(z, y + 1) as real {
      Window(z, y, t);
    }
  }

  lemma OffsetIsOneOfTwo(z: Zone, t: real)
    requires HasDst(z)
    ensures SysInfoAt(z, t).offset == z.offset || SysInfoAt(z, t).offset == z.offset + z.save
  {
    hide StartUtc, EndUtc, YearOf;
  }

  /** The instants at which the clock shows `tp`. */
  ghost predicate Shows(z: Zone, t: real, tp: real)
    requires WellFormed(z)
  {
    ToLocal(z, t) == tp
  }

  /** `get_info(local)` answers by the number of instants that show the local time, with their records. */
  ghost predicate Classifies(z: Zone, tp: real, i: LocalInfo)
    requires WellFormed(z)
  {
    var t1, t2 := tp - i.first.offset as real, tp - i.second.offset as real;
    match i.result
    case Unique =>
      && (forall t :: Shows(z, t, tp) <==> t == t1)
      && SysInfoAt(z, t1) == i.first
    case Ambiguous =>
      && (forall t :: Shows(z, t, tp) <==> t == t1 || t == t2)
      && t1 < t2 && SysInfoAt(z, t1) == i.first && SysInfoAt(z, t2) == i.second
    case Nonexistent =>
      && (forall t :: !Shows(z, t, tp))
      && i.first.end == i.second.begin
      && (i.first.end + i.first.offset) as real <= tp < (i.second.begin + i.second.offset) as real
      && SysInfoAt(z, i.first.begin as real) == i.first
      && SysInfoAt(z, i.second.begin as real) == i.second
  }

  lemma FloorLess(x: real, k: int)
    ensures x.Floor < k <==> x < k as real
  {}

  /** The two candidate instants, and the answer in terms of where they fall among the transitions. */
  ghost predicate Shape(z: Zone, i: LocalInfo, ts: real, td: real, lo: int, a: int, b: int, hi: int) {
    var before, during, after := StdInfo(z, lo, a), DstInfo(z, a, b), StdInfo(z, b, hi);
    i == if (ts < a as real) != (td < a as real) then
           LocalInfo(if z.save > 0 then Nonexistent else Ambiguous, before, during)
         else if (ts < b as real) != (td < b as real) then
           LocalInfo(if z.save > 0 then Ambiguous else Nonexistent, during, after)
         else LocalInfo(Unique, if ts < a as real then before else if ts < b as real then during else after, NO_INFO)
  }

  lemma LocalInfoShape(z: Zone, y: int, tp: real, ts: real, td: real)
    requires HasDst(z) && y == YearOf(tp) && ts == tp - z.offset as real && td == tp - (z.offset + z.save) as real
    ensures Shape(z, LocalInfoAt(z, tp), ts, td, EndUtc(z, y - 1), StartUtc(z, y), EndUtc(z, y), StartUtc(z, y + 1))
  {
    hide StartUtc, EndUtc, YearOf, CeilMinutes;
    FloorLess(ts, StartUtc(z, y));
    FloorLess(ts, EndUtc(z, y));
    FloorLess(td, StartUtc(z, y));
    FloorLess(td, EndUtc(z, y));
  }

  predicate Within(a: int, t: real, b: int) {
    a as real <= t < b as real
  }

  lemma CandidatesInWindow(z: Zone, y: int, tp: real, ts: real, td: real)
    requires HasDst(z) && Admissible(z) && y == YearOf(tp)
    requires ts == tp - z.offset as real && td == tp - (z.offset + z.save) as real
    ensures Within(EndUtc(z, y - 1), ts, StartUtc(z, y + 1)) && Within(EndUtc(z, y - 1), td, StartUtc(z, y + 1))
  {
    hide StartUtc, EndUtc, YearSec, YearOf;
    AdmissibleSeason(z, y);
    YearOfTime(tp, y);
  }

  /** An instant shows `tp` exactly when it is the candidate of the time in force there. */
  lemma InstantsOf(z: Zone, y: int, tp: real, ts: real, td: real, t: real)
    requires HasDst(z) && Admissible(z) && y == YearOf(tp)
    requires ts == tp - z.offset as real && td == tp - (z.offset + z.save) as real
    ensures Shows(z, t, tp) <==> if Within(StartUtc(z, y), t, EndUtc(z, y)) then t == td else t == ts
  {
    hide StartUtc, EndUtc, YearSec, YearOf, SysInfoAt;
    AdmissibleSeason(z, y);
    CandidatesInWindow(z, y, tp, ts, td);
    LocalWindow(z, y, tp, t);
  }

  lemma RecordsAt(z: Zone, y: int, tp: real, t: real)
    requires HasDst(z) && Admissible(z) && y == YearOf(tp) && Within(EndUtc(z, y - 1), t, StartUtc(z, y + 1))
    ensures SysInfoAt(z, t) == if Within(StartUtc(z, y), t, EndUtc(z, y)) then DstInfo(z, StartUtc(z, y), EndUtc(z, y))
                               else if t < StartUtc(z, y) as real then StdInfo(z, EndUtc(z, y - 1), StartUtc(z, y))
                               else StdInfo(z, EndUtc(z, y), StartUtc(z, y + 1))
  {
    hide StartUtc, EndUtc, YearSec, YearOf, SysInfoAt, StdInfo, DstInfo;
    LocalWindow(z, y, tp, t);
  }

  /** The answer fits whether or not instant `t` shows the local time. */
  predicate Fits(i: LocalInfo, tp: real, t: real, shows: bool) {
    var t1, t2 := tp - i.first.offset as real, tp - i.second.offset as real;
    && (i.result == Unique ==> (shows <==> t == t1))
    && (i.result == Ambiguous ==> t1 < t2 && (shows <==> t == t1 || t == t2))
    && (i.result == Nonexistent ==>
          && !shows && i.first.end == i.second.begin
          && (i.first.end + i.first.offset) as real <= tp < (i.second.begin + i.second.offset) as real)
  }

  lemma CandidatesByKind(z: Zone, i: LocalInfo, tp: real, ts: real, td: real, lo: int, a: int, b: int, hi: int, t: real)
    requires Shape(z, i, ts, td, lo, a, b, hi) && a + Abs(z.save) < b
    requires ts == tp - z.offset as real && td == tp - (z.offset + z.save) as real
    ensures Fits(i, tp, t, if Within(a, t, b) then t == td else t == ts)
  {
    hide CeilMinutes;
  }

  /** Which record is in force at the instants the answer is about. */
  lemma RecordsByKind(z: Zone, i: LocalInfo, tp: real, ts: real, td: real, lo: int, a: int, b: int, hi: int, t: real)
    requires Shape(z, i, ts, td, lo, a, b, hi) && a + Abs(z.save) < b && lo <= a && b <= hi
    requires z.save != 0 ==> lo < a && b < hi
    requires ts == tp - z.offset as real && td == tp - (z.offset + z.save) as real
    ensures var r := if Within(a, t, b) then DstInfo(z, a, b)
                     else if t < a as real then StdInfo(z, lo, a) else StdInfo(z, b, hi);
            var t1, t2 := tp - i.first.offset as real, tp - i.second.offset as real;
            && (i.result != Nonexistent && t == t1 ==> r == i.first)
            && (i.result == Ambiguous && t == t2 ==> r == i.second)
            && (i.result == Nonexistent && t == i.first.begin as real ==> r == i.first && lo as real <= t < hi as real)
            && (i.result == Nonexistent && t == i.second.begin as real ==>
                  r == i.second && lo as real <= t < hi as real)
  {
    hide CeilMinutes;
  }

  lemma ClassifiesDst(z: Zone, y: int, tp: real, i: LocalInfo)
    requires HasDst(z) && Admissible(z) && y == YearOf(tp) && i == LocalInfoAt(z, tp)
    ensures Classifies(z, tp, i)
  {
    hide StartUtc, EndUtc, YearSec, YearOf, SysInfoAt, LocalInfoAt, Shows, Shape;
    var ts, td := tp - z.offset as real, tp - (z.offset + z.save) as real;
    var lo, a, b, hi := EndUtc(z, y - 1), StartUtc(z, y), EndUtc(z, y), StartUtc(z, y + 1);
    AdmissibleSeason(z, y);
    LocalInfoShape(z, y, tp, ts, td);
    CandidatesInWindow(z, y, tp, ts, td);
    forall t: real
      ensures Fits(i, tp, t, Shows(z, t, tp))
    {
      InstantsOf(z, y, tp, ts, td, t);
      CandidatesByKind(z, i, tp, ts, td, lo, a, b, hi, t);
    }
    assert Fits(i, tp, ts, Shows(z, ts, tp));
    RecordsOfAnswer(z, y, tp, i, ts, td);
  }

  lemma OffsetsOfAnswer(z: Zone, i: LocalInfo, ts: real, td: real, lo: int, a: int, b: int, hi: int)
    requires Shape(z, i, ts, td, lo, a, b, hi)
    ensures i.first.offset == z.offset || i.first.offset == z.offset + z.save
    ensures i.result != Unique ==> i.second.offset == z.offset || i.second.offset == z.offset + z.save
  {
    hide CeilMinutes;
  }

  lemma RecordsOfAnswer(z: Zone, y: int, tp: real, i: LocalInfo, ts: real, td: real)
    requires HasDst(z) && Admissible(z) && y == YearOf(tp)
    requires ts == tp - z.offset as real && td == tp - (z.offset + z.save) as real
    requires Shape(z, i, ts, td, EndUtc(z, y - 1), StartUtc(z, y), EndUtc(z, y), StartUtc(z, y + 1))
    ensures i.result != Nonexistent ==> SysInfoAt(z, tp - i.first.offset as real) == i.first
    ensures i.result == Ambiguous ==> SysInfoAt(z, tp - i.second.offset as real) == i.second
    ensures i.result == Nonexistent ==>
            SysInfoAt(z, i.first.begin as real) == i.first && SysInfoAt(z, i.second.begin as real) == i.second
  {
    hide StartUtc, EndUtc, YearSec, YearOf, SysInfoAt, Shape, StdInfo, DstInfo;
    CandidatesInWindow(z, y, tp, ts, td);
    OffsetsOfAnswer(z, i, ts, td, EndUtc(z, y - 1), StartUtc(z, y), EndUtc(z, y), StartUtc(z, y + 1));
    if i.result != Nonexistent {
      RecordOfAnswer(z, y, tp, i, ts, td, tp - i.first.offset as real);
      if i.result == Ambiguous {
        RecordOfAnswer(z, y, tp, i, ts, td, tp - i.second.offset as real);
      }
    } else {
      RecordOfAnswer(z, y, tp, i, ts, td, i.first.begin as real);
      RecordOfAnswer(z, y, tp, i, ts, td, i.second.begin as real);
    }
  }

  lemma RecordOfAnswer(z: Zone, y: int, tp: real, i: LocalInfo, ts: real, td: real, t: real)
    requires HasDst(z) && Admissible(z) && y == YearOf(tp)
    requires ts == tp - z.offset as real && td == tp - (z.offset + z.save) as real
    requires Shape(z, i, ts, td, EndUtc(z, y - 1), StartUtc(z, y), EndUtc(z, y), StartUtc(z, y + 1))
    requires i.result != Nonexistent ==> Within(EndUtc(z, y - 1), t, StartUtc(z, y + 1))
    ensures i.result != Nonexistent && t == tp - i.first.offset as real ==> SysInfoAt(z, t) == i.first
    ensures i.result == Ambiguous && t == tp - i.second.offset as real ==> SysInfoAt(z, t) == i.second
    ensures i.result == Nonexistent && t == i.first.begin as real ==> SysInfoAt(z, t) == i.first
    ensures i.result == Nonexistent && t == i.second.begin as real ==> SysInfoAt(z, t) == i.second
  {
    hide StartUtc, EndUtc, YearSec, YearOf, SysInfoAt, Shape, StdInfo, DstInfo;
    AdmissibleSeason(z, y);
    RecordsByKind(z, i, tp, ts, td, EndUtc(z, y - 1), StartUtc(z, y), EndUtc(z, y), StartUtc(z, y + 1), t);
    if Within(EndUtc(z, y - 1), t, StartUtc(z, y + 1)) {
      RecordsAt(z, y, tp, t);
    }
  }

  /** A zone without daylight saving, or with an admissible one. */
  ghost predicate Regular(z: Zone) {
    WellFormed(z) && (HasDst(z) ==> Admissible(z))
  }

  /** For every local time, and for positive, zero and negative saving: zero, one or two instants. */
  lemma LocalInfoClassifies(z: Zone, tp: real)
    requires Regular(z)
    ensures Classifies(z, tp, LocalInfoAt(z, tp))
  {
    hide StartUtc, EndUtc, YearSec, YearOf, ConstantInfo, Admissible;
    if HasDst(z) {
      ClassifiesDst(z, YearOf(tp), tp, LocalInfoAt(z, tp));
    } else {
      ClassifiesConstant(z, tp, LocalInfoAt(z, tp));
    }
  }

  lemma ClassifiesConstant(z: Zone, tp: real, i: LocalInfo)
    requires WellFormed(z) && !HasDst(z) && i == LocalInfoAt(z, tp)
    ensures Classifies(z, tp, i)
  {
    hide ToDays, LastDay;
    forall t: real
      ensures Shows(z, t, tp) <==> t == tp - z.offset as real
    {}
  }

  // ---------- conversions ----------

  /** Back and forth: an instant is one of the two choices for its own local time, and the throwing
      conversion returns it or reports an ambiguity, never a nonexistent time. */
  lemma InstantRoundTrip(z: Zone, t: real)
    requires Regular(z)
    ensures var tp := ToLocal(z, t);
            && (t == ToSysChoose(z, tp, Earliest) || t == ToSysChoose(z, tp, Latest))
            && (ToSys(z, tp) == Converted(t) || ToSys(z, tp) == AmbiguousLocalTime)
  {
    hide SysInfoAt, LocalInfoAt, Admissible, ToLocal;
    var tp := ToLocal(z, t);
    LocalInfoClassifies(z, tp);
    ItShows(z, t, tp);
  }

  lemma ItShows(z: Zone, t: real, tp: real)
    requires WellFormed(z) && tp == ToLocal(z, t)
    ensures Shows(z, t, tp)
  {}

  /** A local time that converts without an exception is shown at the instant returned, and only there. */
  lemma LocalRoundTrip(z: Zone, tp: real)
    requires Regular(z)
    ensures match ToSys(z, tp)
            case Converted(t) => ToLocal(z, t) == tp && forall u :: Shows(z, u, tp) <==> u == t
            case NonexistentLocalTime => forall u :: !Shows(z, u, tp)
            case AmbiguousLocalTime =>
              && Shows(z, ToSysChoose(z, tp, Earliest), tp) && Shows(z, ToSysChoose(z, tp, Latest), tp)
              && ToSysChoose(z, tp, Earliest) < ToSysChoose(z, tp, Latest)
  {
    hide SysInfoAt, LocalInfoAt, Admissible;
    LocalInfoClassifies(z, tp);
  }

  /** The earliest choice is the first instant whose local time is not before `tp`. */
  ghost predicate FirstNotBefore(z: Zone, tp: real, e: real)
    requires WellFormed(z)
  {
    ToLocal(z, e) >= tp && forall t :: t < e ==> ToLocal(z, t) < tp
  }

  ghost predicate NotYetPast(z: Zone, tp: real, k: real)
    requires WellFormed(z)
  {
    exists t :: k < t && ToLocal(z, t) <= tp
  }

  /** The latest choice is the least bound after which every local time is after `tp`. */
  ghost predicate NothingAfter(z: Zone, tp: real, l: real)
    requires WellFormed(z)
  {
    && (forall t :: t > l ==> ToLocal(z, t) > tp)
    && (forall k :: k < l ==> NotYetPast(z, tp, k))
  }

  /** The local time an instant shows, by its place among the transitions around `tp`. */
  lemma LocalAt(z: Zone, y: int, tp: real, t: real)
    requires HasDst(z) && Admissible(z) && y == YearOf(tp)
    ensures t < EndUtc(z, y - 1) as real ==> ToLocal(z, t) < tp
    ensures t >= StartUtc(z, y + 1) as real ==> ToLocal(z, t) > tp
    ensures Within(EndUtc(z, y - 1), t, StartUtc(z, y + 1)) ==>
            ToLocal(z, t) == Clock(z, StartUtc(z, y), EndUtc(z, y), t)
  {
    hide StartUtc, EndUtc, YearSec, YearOf, SysInfoAt;
    LocalWindow(z, y, tp, t);
  }

  /** The clock of one season: daylight saving from `a` to `b`. */
  function Clock(z: Zone, a: int, b: int, t: real): real {
    t + (z.offset + if Within(a, t, b) then z.save else 0) as real
  }

  lemma EarliestInSeason(z: Zone, i: LocalInfo, tp: real, ts: real, td: real, lo: int, a: int, b: int, hi: int, t: real)
    requires Shape(z, i, ts, td, lo, a, b, hi) && a + Abs(z.save) < b
    requires ts == tp - z.offset as real && td == tp - (z.offset + z.save) as real
    ensures var e := Chosen(i, tp, Earliest);
            && Clock(z, a, b, e) >= tp && (t < e ==> Clock(z, a, b, t) < tp)
  {
    hide CeilMinutes;
  }

  lemma LatestInSeason(z: Zone, i: LocalInfo, tp: real, ts: real, td: real, lo: int, a: int, b: int, hi: int, t: real)
    requires Shape(z, i, ts, td, lo, a, b, hi) && a + Abs(z.save) < b
    requires ts == tp - z.offset as real && td == tp - (z.offset + z.save) as real
    ensures var l := Chosen(i, tp, Latest);
            && (t > l ==> Clock(z, a, b, t) > tp)
            && (i.result != Nonexistent ==> Clock(z, a, b, l) <= tp)
            && (i.result == Nonexistent && i.first.begin as real <= t < l ==> Clock(z, a, b, t) <= tp)
  {
    hide CeilMinutes;
  }

  lemma ChosenInWindow(z: Zone, i: LocalInfo, tp: real, ts: real, td: real, lo: int, a: int, b: int, hi: int, c: Choose)
    requires Shape(z, i, ts, td, lo, a, b, hi) && lo <= a < b <= hi && (z.save != 0 ==> lo < a && b < hi)
    requires ts == tp - z.offset as real && td == tp - (z.offset + z.save) as real
    requires Within(lo, ts, hi) && Within(lo, td, hi)
    ensures Within(lo, Chosen(i, tp, c), hi)
    ensures i.result == Nonexistent ==> lo <= i.first.begin < i.first.end < hi
  {
    hide CeilMinutes;
  }

  lemma EarliestDst(z: Zone, y: int, tp: real, e: real)
    requires HasDst(z) && Admissible(z) && y == YearOf(tp) && e == ToSysChoose(z, tp, Earliest)
    ensures FirstNotBefore(z, tp, e)
  {
    hide StartUtc, EndUtc, YearSec, YearOf, SysInfoAt, LocalInfoAt, ToLocal, Shape;
    var ts, td := tp - z.offset as real, tp - (z.offset + z.save) as real;
    var i, lo, a, b, hi := LocalInfoAt(z, tp), EndUtc(z, y - 1), StartUtc(z, y), EndUtc(z, y), StartUtc(z, y + 1);
    AdmissibleSeason(z, y);
    LocalInfoShape(z, y, tp, ts, td);
    CandidatesInWindow(z, y, tp, ts, td);
    ChosenInWindow(z, i, tp, ts, td, lo, a, b, hi, Earliest);
    EarliestInSeason(z, i, tp, ts, td, lo, a, b, hi, e);
    LocalAt(z, y, tp, e);
    forall t | t < e
      ensures ToLocal(z, t) < tp
    {
      LocalAt(z, y, tp, t);
      EarliestInSeason(z, i, tp, ts, td, lo, a, b, hi, t);
    }
  }

  lemma LatestDst(z: Zone, y: int, tp: real, l: real)
    requires HasDst(z) && Admissible(z) && y == YearOf(tp) && l == ToSysChoose(z, tp, Latest)
    ensures NothingAfter(z, tp, l)
  {
    hide StartUtc, EndUtc, YearSec, YearOf, SysInfoAt, LocalInfoAt, ToLocal, Shape;
    var ts, td := tp - z.offset as real, tp - (z.offset + z.save) as real;
    var i, lo, a, b, hi := LocalInfoAt(z, tp), EndUtc(z, y - 1), StartUtc(z, y), EndUtc(z, y), StartUtc(z, y + 1);
    AdmissibleSeason(z, y);
    LocalInfoShape(z, y, tp, ts, td);
    CandidatesInWindow(z, y, tp, ts, td);
    ChosenInWindow(z, i, tp, ts, td, lo, a, b, hi, Latest);
    forall t | t > l
      ensures ToLocal(z, t) > tp
    {
      LocalAt(z, y, tp, t);
      LatestInSeason(z, i, tp, ts, td, lo, a, b, hi, t);
    }
    forall k | k < l
      ensures NotYetPast(z, tp, k)
    {
      var t := if i.result != Nonexistent then l
               else if k < i.first.begin as real then i.first.begin as real else (k + l) / 2.0;
      LocalAt(z, y, tp, t);
      LatestInSeason(z, i, tp, ts, td, lo, a, b, hi, t);
      assert k < t && ToLocal(z, t) <= tp;
    }
  }

  /** What the two choices are, for every local time of every regular zone. */
  lemma ChoicesAreBounds(z: Zone, tp: real)
    requires Regular(z)
    ensures FirstNotBefore(z, tp, ToSysChoose(z, tp, Earliest))
    ensures NothingAfter(z, tp, ToSysChoose(z, tp, Latest))
    ensures ToSysChoose(z, tp, Earliest) <= ToSysChoose(z, tp, Latest)
  {
    hide YearOf, ToSysChoose, FirstNotBefore, NothingAfter, Admissible;
    if HasDst(z) {
      EarliestDst(z, YearOf(tp), tp, ToSysChoose(z, tp, Earliest));
      LatestDst(z, YearOf(tp), tp, ToSysChoose(z, tp, Latest));
    } else {
      ChoicesConstant(z, tp, ToSysChoose(z, tp, Earliest), ToSysChoose(z, tp, Latest));
    }
    LocalInfoClassifies(z, tp);
    ChoicesOrdered(z, tp, LocalInfoAt(z, tp));
  }

  lemma ChoicesOrdered(z: Zone, tp: real, i: LocalInfo)
    requires WellFormed(z) && i == LocalInfoAt(z, tp) && Classifies(z, tp, i)
    ensures ToSysChoose(z, tp, Earliest) <= ToSysChoose(z, tp, Latest)
  {
    hide LocalInfoAt, SysInfoAt, Shows;
  }

  lemma ChoicesConstant(z: Zone, tp: real, e: real, l: real)
    requires WellFormed(z) && !HasDst(z) && e == ToSysChoose(z, tp, Earliest) && l == ToSysChoose(z, tp, Latest)
    ensures FirstNotBefore(z, tp, e) && NothingAfter(z, tp, l)
  {
    hide ToDays, LastDay;
    forall k | k < l
      ensures NotYetPast(z, tp, k)
    {
      assert ToLocal(z, l) <= tp;
    }
  }

  /** Both choices are non-decreasing in the local time, across gaps and overlaps. */
  lemma ChoicesMonotone(z: Zone, tp: real, tq: real)
    requires Regular(z) && tp <= tq
    ensures ToSysChoose(z, tp, Earliest) <= ToSysChoose(z, tq, Earliest)
    ensures ToSysChoose(z, tp, Latest) <= ToSysChoose(z, tq, Latest)
  {
    hide ToSysChoose, ToLocal, Admissible;
    ChoicesAreBounds(z, tp);
    ChoicesAreBounds(z, tq);
    var lp, lq := ToSysChoose(z, tp, Latest), ToSysChoose(z, tq, Latest);
    assert lq < lp ==> NotYetPast(z, tp, lq);
  }

  // ---------- which zones are admissible ----------

  lemma MonthDayInMonth(r: Rule, y: int)
    requires r.M? && 1 <= r.month <= 12 && 1 <= r.n <= 5 && 0 <= r.wd <= 6
    ensures MonthStart(y, r.month) <= RuleDay(r, y) < MonthStart(y, r.month) + LastDay(y, r.month)
  {
    hide MonthStart, LastDay, LastToDays, NthToDays, WeekdayOf, Diff;
    if r.n == 5 {
      LastIsLast(y, r.month, r.wd);
    } else {
      ExistsRange(Ymwd(y, r.month, r.wd, r.n));
    }
  }

  lemma MonthPlace(y: int, m: int)
    requires 1 <= m <= 12
    ensures MonthStart(y, m) == YearStart(y) + DaysBeforeMonth(y, m)
    ensures YearStart(y + 1) == YearStart(y) + YearLength(y)
  {
    hide ToDays, YearStart, DaysBeforeMonth, IsLeap;
    ToDaysByYear(y, m, 1);
    YearStartStep(y);
  }

  lemma MonthsApart(y: int, m: int, k: int)
    requires 2 <= m && m + 2 <= k <= 11
    ensures DaysBeforeMonth(y, m) >= 31 && DaysBeforeMonth(y, k) >= DaysBeforeMonth(y, m) + LastDay(y, m) + 28
    ensures DaysBeforeMonth(y, k) + LastDay(y, k) + 31 <= YearLength(y)
  {
    hide IsLeap;
  }

  /** Rules of distinct months between February and November. */
  predicate Monthly(z: Zone, first: Rule, second: Rule) {
    && first.M? && second.M? && 2 <= first.month && first.month + 2 <= second.month <= 11
    && 1 <= first.n <= 5 && 1 <= second.n <= 5 && 0 <= first.wd <= 6 && 0 <= second.wd <= 6
    && 0 <= first.time <= DAY && 0 <= second.time <= DAY && Abs(z.offset) <= DAY && Abs(z.save) <= DAY
  }

  /** Their days keep away from the new year and from each other. */
  lemma MonthlyDays(z: Zone, first: Rule, second: Rule, y: int)
    requires Monthly(z, first, second)
    ensures YearStart(y) + 31 <= RuleDay(first, y) && RuleDay(first, y) + 29 <= RuleDay(second, y)
    ensures RuleDay(second, y) + 32 <= YearStart(y + 1)
  {
    hide MonthStart, LastDay, YearStart, RuleDay, DaysBeforeMonth, YearLength;
    MonthDayInMonth(first, y);
    MonthDayInMonth(second, y);
    MonthPlace(y, first.month);
    MonthPlace(y, second.month);
    MonthsApart(y, first.month, second.month);
  }

  /** Zones in the usual form, daylight saving from one month to a later one within February to November,
      are admissible whatever the weekdays, weeks, times of day, offset and saving. */
  lemma MonthlyRulesAdmissible(z: Zone)
    requires Monthly(z, z.start, z.end)
    ensures HasDst(z) && Admissible(z)
  {
    hide RuleDay, YearStart;
    forall y
      ensures YearSec(y) + Abs(z.offset) + Abs(z.save) <= StartUtc(z, y)
      ensures StartUtc(z, y) + Abs(z.save) < EndUtc(z, y)
      ensures EndUtc(z, y) + Abs(z.offset) + Abs(z.save) <= YearSec(y + 1)
    {
      MonthlyDays(z, z.start, z.end, y);
    }
  }

  /** The mirror image: daylight saving from a later month to an earlier one is reversed in every year. */
  lemma MonthlyRulesReversed(z: Zone)
    requires Monthly(z, z.end, z.start)
    ensures HasDst(z) && InTheirYears(z) && Reversed(z) && !Partitions(z)
  {
    hide Partitions, StartUtc, EndUtc, YearSec;
    forall y
      ensures YearSec(y) <= EndUtc(z, y) < StartUtc(z, y) < YearSec(y + 1)
    {
      ReversedInYear(z, y);
    }
    NotOrdered(z, 0);
    PartitionsIffOrdered(z);
  }

  lemma ReversedInYear(z: Zone, y: int)
    requires Monthly(z, z.end, z.start)
    ensures YearSec(y) <= EndUtc(z, y) < StartUtc(z, y) < YearSec(y + 1)
  {
    hide RuleDay, YearStart;
    MonthlyDays(z, z.end, z.start, y);
  }

  lemma NotOrdered(z: Zone, y: int)
    requires HasDst(z) && EndUtc(z, y) < StartUtc(z, y)
    ensures !Ordered(z)
  {
    hide StartUtc, EndUtc;
  }

  /** A transition between the two candidate instants of a local time. */
  predicate Between(a: int, ts: real, td: real) {
    (ts < a as real) != (td < a as real)
  }

  /** In a reversed zone every local time is shown exactly once, one offset away, yet the answer is `unique` exactly
      when neither transition of the local year falls between the two candidates. */
  lemma ReversedLocalTimes(z: Zone, tp: real)
    requires HasDst(z) && Reversed(z)
    ensures var y, ts, td := YearOf(tp), tp - z.offset as real, tp - (z.offset + z.save) as real;
            && (forall t :: Shows(z, t, tp) <==> t == ts)
            && (LocalInfoAt(z, tp).result == Unique <==>
                  !Between(StartUtc(z, y), ts, td) && !Between(EndUtc(z, y), ts, td))
  {
    hide StartUtc, EndUtc, YearOf, SysInfoAt, LocalInfoAt;
    var ts, td := tp - z.offset as real, tp - (z.offset + z.save) as real;
    LocalInfoShape(z, YearOf(tp), tp, ts, td);
    forall t: real
      ensures Shows(z, t, tp) <==> t == ts
    {
      ReversedNeverDst(z, t);
    }
  }

  /** So with a positive saving that much time after each start is called nonexistent, though it is shown. */
  lemma ReversedFalseGap(z: Zone, y: int, tp: real)
    requires HasDst(z) && Reversed(z) && z.save > 0 && YearOf(tp) == y
    requires (StartUtc(z, y) + z.offset) as real <= tp < (StartUtc(z, y) + z.offset + z.save) as real
    ensures LocalInfoAt(z, tp).result == Nonexistent && Shows(z, tp - z.offset as real, tp)
    ensures ToSys(z, tp) == NonexistentLocalTime
  {
    hide StartUtc, EndUtc, YearOf, SysInfoAt, LocalInfoAt;
    LocalInfoShape(z, y, tp, tp - z.offset as real, tp - (z.offset + z.save) as real);
    ReversedLocalTimes(z, tp);
  }

  /** The zone of the TZ string "AEST-10AEDT,M10.1.0,M4.1.0/3". */
  const SYDNEY := Zone("AEST", "AEDT", 36000, 3600, M(10, 1, 0, 7200), M(4, 1, 0, 10800))

  /** It never has summer time, its records do not partition the time line, and 02:00 local time on the first Sunday of
      each October is rejected although the clock shows it. */
  lemma SydneyHasNoSummer(t: real, y: int)
    ensures HasDst(SYDNEY) && Reversed(SYDNEY) && !Partitions(SYDNEY)
    ensures SysInfoAt(SYDNEY, t).offset == 36000
    ensures var tp := RuleAt(SYDNEY.start, y) as real;
            Shows(SYDNEY, tp - 36000.0, tp) && ToSys(SYDNEY, tp) == NonexistentLocalTime
  {
    hide StartUtc, EndUtc, YearOf, SysInfoAt, LocalInfoAt, Partitions, RuleAt, Shows, ToSys, Reversed;
    MonthlyRulesReversed(SYDNEY);
    ReversedNeverDst(SYDNEY, t);
    StrikesInYear(SYDNEY, y);
    ReversedFalseGap(SYDNEY, y, RuleAt(SYDNEY.start, y) as real);
  }

  /** A month rule strikes in its own local year. */
  lemma StrikesInYear(z: Zone, y: int)
    requires HasDst(z) && z.start.M? && 1 <= z.start.n <= 5 && 0 <= z.start.wd <= 6 && 0 <= z.start.time < DAY
    ensures YearOf(RuleAt(z.start, y) as real) == y && StartUtc(z, y) + z.offset == RuleAt(z.start, y)
  {
    hide MonthStart, LastDay, YearStart, RuleDay, DaysBeforeMonth, YearLength, YearOf;
    MonthDayInMonth(z.start, y);
    MonthPlace(y, z.start.month);
    MonthInYear(y, z.start.month);
    YearOfTime(RuleAt(z.start, y) as real, y);
  }

  lemma MonthInYear(y: int, m: int)
    requires 1 <= m <= 12
    ensures 0 <= DaysBeforeMonth(y, m) && DaysBeforeMonth(y, m) + LastDay(y, m) <= YearLength(y)
  {
    hide IsLeap;
  }

  /** A `J` rule names the same month and day every year and never 29 February. */
  lemma JulianDayRule(y: int, m: int, d: int, time: int)
    requires 1 <= m <= 12 && 1 <= d <= [31, 28, 31, 30, 31, 30, 31, 31, 30, 31, 30, 31][m - 1]
    ensures var n := [0, 31, 59, 90, 120, 151, 181, 212, 243, 273, 304, 334][m - 1] + d;
            FromDays(RuleDay(J(n, time), y)) == Ymd(y, m, d)
  {
    hide ToDays, FromDays, IsLeap, YearStart;
    ToDaysByYear(y, 1, 0);
    ToDaysByYear(y, m, d);
    NamesItsDate(Ymd(y, m, d), ToDays(Ymd(y, m, d)), FromDays(ToDays(Ymd(y, m, d))));
  }

  /** An `M` rule strikes on the nth such weekday of its month; the fifth means the last. */
  lemma MonthRule(r: Rule, y: int)
    requires r.M? && 1 <= r.month <= 12 && 1 <= r.n <= 5 && 0 <= r.wd <= 6
    ensures var x := NthFromDays(RuleDay(r, y));
            && x.year == y && x.month == r.month && x.weekday == r.wd
            && if r.n < 5 then x.index == r.n else !Exists(x.(index := x.index + 1))
  {
    hide FromDays, MonthStart, LastDay, LastToDays, NthToDays, WeekdayOf, NthFromDays;
    if r.n == 5 {
      LastIsGreatestIndex(y, r.month, r.wd);
    } else {
      NthRoundTrip(Ymwd(y, r.month, r.wd, r.n), 0);
    }
  }

  /** A plain number counts days from 1 January, 29 February included. */
  lemma DayOfYearRule(y: int, n: int, time: int)
    requires 0 <= n < YearLength(y)
    ensures FromDays(RuleDay(N(n, time), y)).year == y && RuleDay(N(n, time), y) - YearStart(y) == n
  {
    hide ToDays, FromDays, IsLeap, YearStart;
    ToDaysByYear(y, 1, 1);
    YearStartStep(y);
    YearOfDay(YearStart(y) + n, y);
  }

  // ---------- when the clock changes ----------

  /** The ranges POSIX allows. */
  predicate Legal(r: Rule) {
    match r
    case Off => false
    case J(n, _) => 1 <= n <= 365
    case M(m, n, wd, _) => 1 <= m <= 12 && 1 <= n <= 5 && 0 <= wd <= 6
    case N(n, _) => 0 <= n <= 365
  }

  /** Day `n` is the one the rule names in year `y`. `J`: the kth of the 365 days of a year without 29 February.
      `M`: the kth such weekday of the month, 5 meaning the last. Otherwise: k days after 1 January. */
  predicate Names(r: Rule, y: int, n: int) {
    var d := FromDays(n);
    match r
    case Off => false
    case J(k, _) =>
      && d.year == y && 1 <= d.month <= 12 && 1 <= d.day <= LENGTHS[d.month - 1]
      && BEFORE[d.month - 1] + d.day == k
    case M(m, k, wd, _) =>
      && d.year == y && d.month == m && 1 <= m <= 12 && WeekdayOf(n) == wd
      && if k < 5 then 7 * (k - 1) < d.day <= 7 * k else d.day + 7 > LastDay(y, m)
    case N(k, _) => n == ToDays(Ymd(y, 1, 1)) + k
  }

  const LENGTHS := [31, 28, 31, 30, 31, 30, 31, 31, 30, 31, 30, 31]
  const BEFORE := [0, 31, 59, 90, 120, 151, 181, 212, 243, 273, 304, 334]

  /** The local second `sec` is the named day's midnight plus the rule's time of day. */
  predicate Strikes(r: Rule, y: int, sec: int)
    requires !r.Off?
  {
    (sec - r.time) % 86400 == 0 && Names(r, y, (sec - r.time) / 86400)
  }

  lemma NamesJulian(r: Rule, y: int, n: int, d: Ymd)
    requires r.J? && Legal(r) && d == FromDays(n)
    ensures Names(r, y, n) <==> n == RuleDay(r, y)
  {
    hide ToDays, FromDays, IsLeap, YearStart;
    ToDaysByYear(y, 1, 0);
    MonthOf(n, d);
    DateOfDay(n, d);
    ToDaysByYear(d.year, d.month, d.day);
    YearStartStep(y);
    YearOfDay(n, y);
    if d.year == y {
      DayOfTable(d.month, d.day, IsLeap(y), r.n);
    }
  }

  lemma DayOfTable(m: int, d: int, leap: bool, k: int)
    requires 1 <= m <= 12 && 1 <= d <= LENGTHS[m - 1] + (if m == 2 && leap then 1 else 0) && 1 <= k <= 365
    ensures BEFORE[m - 1] + d + (if m > 2 && leap then 1 else 0) == k + (if leap && k > 59 then 1 else 0) <==>
            d <= LENGTHS[m - 1] && BEFORE[m - 1] + d == k
  {}

  lemma NamesMonth(r: Rule, y: int, n: int, d: Ymd)
    requires r.M? && Legal(r) && d == FromDays(n)
    ensures Names(r, y, n) <==> n == RuleDay(r, y)
  {
    hide FromDays, MonthStart, LastToDays, LastDay, NthToDays, WeekdayOf, YearStart;
    MonthDayInMonth(r, y);
    InMonth(RuleDay(r, y), y, r.month);
    MonthOf(n, d);
    if r.n == 5 {
      LastIsLast(y, r.month, r.wd);
    } else {
      ExistsRange(Ymwd(y, r.month, r.wd, r.n));
    }
    if Names(r, y, n) {
      SameWeekdayWithinWeek(n, RuleDay(r, y));
    }
  }

  /** The day the code computes is the one the rule names, and no other. */
  lemma RuleNamesDay(r: Rule, y: int, n: int)
    requires Legal(r)
    ensures Names(r, y, n) <==> n == RuleDay(r, y)
  {
    hide FromDays, ToDays, RuleDay, WeekdayOf, LastDay;
    match r
    case J(_, _) => NamesJulian(r, y, n, FromDays(n));
    case M(_, _, _, _) => NamesMonth(r, y, n, FromDays(n));
    case N(_, _) => NamesPlain(r, y, n);
  }

  lemma NamesPlain(r: Rule, y: int, n: int)
    requires r.N?
    ensures Names(r, y, n) <==> n == RuleDay(r, y)
  {
    hide FromDays, ToDays;
  }

  lemma RuleStrikes(r: Rule, y: int, sec: int)
    requires Legal(r)
    ensures Strikes(r, y, sec) <==> sec == RuleAt(r, y)
  {
    hide RuleDay, Names;
    var n := (sec - r.time) / 86400;
    RuleNamesDay(r, y, n);
  }

  /** Daylight saving starts when the standard clock shows the start rule's time on the day it names, and ends when the
      summer clock shows the end rule's. */
  lemma ClockChanges(z: Zone, y: int, t: int)
    requires Legal(z.start) && Legal(z.end)
    ensures t == StartUtc(z, y) <==> Strikes(z.start, y, t + z.offset)
    ensures t == EndUtc(z, y) <==> Strikes(z.end, y, t + z.offset + z.save)
  {
    hide RuleAt, Strikes;
    RuleStrikes(z.start, y, t + z.offset);
    RuleStrikes(z.end, y, t + z.offset + z.save);
  }

  /** The record at an instant of UTC year `y`, from the seconds at which the clock changes in that year and its
      neighbours. */
  lemma RecordInForce(z: Zone, y: int, t: real, past: int, start: int, end: int, next: int)
    requires Legal(z.start) && Legal(z.end) && YearOf(t) == y
    requires Strikes(z.end, y - 1, past + z.offset + z.save) && Strikes(z.start, y, start + z.offset)
    requires Strikes(z.end, y, end + z.offset + z.save) && Strikes(z.start, y + 1, next + z.offset)
    ensures var r := SysInfoAt(z, t);
            if start as real <= t < end as real then
              && r.begin == start && r.end == end && r.abbrev == z.dst
              && r.offset == z.offset + z.save && 60 * (r.save - 1) < z.save <= 60 * r.save
            else
              && r.abbrev == z.std && r.offset == z.offset && r.save == 0
              && if t < start as real then r.begin == past && r.end == start else r.begin == end && r.end == next
  {
    hide StartUtc, EndUtc, YearOf, Strikes;
    ClockChanges(z, y - 1, past);
    ClockChanges(z, y, start);
    ClockChanges(z, y, end);
    ClockChanges(z, y + 1, next);
  }

  /** The zone of the TZ string "EST5EDT,M3.2.0,M11.1.0". */
  const NEW_YORK := Zone("EST", "EDT", -18000, 3600, M(3, 2, 0, 7200), M(11, 1, 0, 7200))

  /** In 2007 it changes its clocks on 11 March at 07:00 UTC and on 4 November at 06:00 UTC. */
  lemma NewYork2007()
    ensures StartUtc(NEW_YORK, 2007) == 86400 * ToDays(Ymd(2007, 3, 11)) + 7 * 3600
    ensures EndUtc(NEW_YORK, 2007) == 86400 * ToDays(Ymd(2007, 11, 4)) + 6 * 3600
  {
    hide FromDays, RuleDay, StartUtc, EndUtc;
    Days2007();
    var start, end := 86400 * 13583 + 7 * 3600, 86400 * 13821 + 6 * 3600;
    assert Strikes(NEW_YORK.start, 2007, start + NEW_YORK.offset);
    assert Strikes(NEW_YORK.end, 2007, end + NEW_YORK.offset + NEW_YORK.save);
    ClockChanges(NEW_YORK, 2007, start);
    ClockChanges(NEW_YORK, 2007, end);
  }

  lemma Days2007()
    ensures ToDays(Ymd(2007, 3, 11)) == 13583 && FromDays(13583) == Ymd(2007, 3, 11) && WeekdayOf(13583) == 0
    ensures ToDays(Ymd(2007, 11, 4)) == 13821 && FromDays(13821) == Ymd(2007, 11, 4) && WeekdayOf(13821) == 0
  {
    hide FromDays, ToDays, WeekdayOf;
    assert YearStart(2007) == 13514;
    ToDaysByYear(2007, 3, 11);
    ToDaysByYear(2007, 11, 4);
    NamesItsDate(Ymd(2007, 3, 11), 13583, FromDays(13583));
    NamesItsDate(Ymd(2007, 11, 4), 13821, FromDays(13821));
    WeekdayIsModulo(13583);
    WeekdayIsModulo(13821);
  }

  /** A zone without daylight saving has one record, from the first day of year -32767 to the last of 32767. */
  lemma ConstantRecord(z: Zone, t: real)
    requires WellFormed(z) && !HasDst(z)
    ensures SysInfoAt(z, t) == SysInfo(86400 * -12687428, 86400 * 11248737, z.offset, 0, z.std)
    ensures LocalInfoAt(z, t) == LocalInfo(Unique, SysInfoAt(z, t), NO_INFO)
  {
    hide ToDays, IsLeap;
    ToDaysByYear(-32767, 1, 1);
    ToDaysByYear(32767, 12, 31);
    assert YearStart(-32767) == -12687428 && YearStart(32768) == 11248738;
    YearStartStep(32767);
  }
}
