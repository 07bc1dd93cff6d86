/** The UTC clock of date/tz.h over an arbitrary table of leap-second insertions. Times are counted in ticks of
    1/K second; `leaps[i]` is the system second right after insertion `i`. */
module LeapSeconds {
  import opened CppInt
  import opened Gregorian

  /** Whole seconds as ticks. */
  function Ticks(K: int, s: int): int {
    K * s
  }

  predicate Increasing(leaps: seq<int>) {
    forall i, j :: 0 <= i < j < |leaps| ==> leaps[i] < leaps[j]
  }

  // ---------- the code ----------

  /** `std::upper_bound` on an increasing table: how many entries are not after tick `t`. */
  function UpperBound(leaps: seq<int>, K: int, t: int): nat {
    if leaps == [] then 0
    else if Ticks(K, leaps[|leaps| - 1]) <= t then |leaps|
    else UpperBound(leaps[..|leaps| - 1], K, t)
  }

  function FromSys(leaps: seq<int>, K: int, t: int): int {
    t + Ticks(K, UpperBound(leaps, K, t))
  }

  /** `is_leap_second`: whether `u` is inside an insertion, and how many have begun. */
  function IsLeapSecond(leaps: seq<int>, K: int, u: int): (bool, int) {
    var n := UpperBound(leaps, K, u);
    var tp := u - Ticks(K, n);
    if 0 < n <= |leaps| && tp < Ticks(K, leaps[n - 1]) then
      if tp >= Ticks(K, leaps[n - 1] - 1) then (true, n) else (false, n - 1)
    else (false, n)
  }

  function ToSys(leaps: seq<int>, K: int, u: int): int
    requires K > 0
  {
    var (ls, ds) := IsLeapSecond(leaps, K, u);
    var tp := u - Ticks(K, ds);
    if ls then Ticks(K, tp / K) + Ticks(K, 1) - 1 else tp
  }

  method ComputeIsLeapSecond(leaps: seq<int>, K: int, u: int) returns (ls: bool, ds: int)
    ensures (ls, ds) == IsLeapSecond(leaps, K, u)
  {
    hide Ticks;
    UpperBoundRange(leaps, K, u);
    var tp := u;
    var lt := UpperBound(leaps, K, tp);
    ds := lt;
    tp := tp - Ticks(K, ds);
    ls := false;
    if lt > 0 {
      if tp < Ticks(K, leaps[lt - 1]) {
        if tp >= Ticks(K, leaps[lt - 1] - 1) {
          ls := true;
        } else {
          ds := ds - 1;
        }
      }
    }
  }

  method ComputeToSys(leaps: seq<int>, K: int, u: int) returns (tp: int)
    requires K > 0
    ensures tp == ToSys(leaps, K, u)
  {
    var ls, ds := ComputeIsLeapSecond(leaps, K, u);
    tp := u - Ticks(K, ds);
    if ls {
      tp := Ticks(K, tp / K) + Ticks(K, 1) - 1;
    }
  }

  // ---------- the meaning ----------

  /** The table on the UTC scale: insertion `i` starts `i` seconds later than on the system scale. */
  function Shifted(leaps: seq<int>): seq<int> {
    seq(|leaps|, i requires 0 <= i < |leaps| => leaps[i] + i)
  }

  /** The UTC tick at which insertion `i` starts; it lasts one second. */
  function Insertion(leaps: seq<int>, K: int, i: int): int
    requires 0 <= i < |leaps|
  {
    Ticks(K, leaps[i] + i)
  }

  predicate During(leaps: seq<int>, K: int, u: int, i: int)
    requires 0 <= i < |leaps|
  {
    Insertion(leaps, K, i) <= u < Insertion(leaps, K, i) + Ticks(K, 1)
  }

  predicate InLeap(leaps: seq<int>, K: int, u: int) {
    exists i :: 0 <= i < |leaps| && During(leaps, K, u, i)
  }

  /** The search on the right time scale: how many insertions have begun by `u`. */
  function Begun(leaps: seq<int>, K: int, u: int): nat {
    UpperBound(Shifted(leaps), K, u)
  }

  /** The `k`th gap is at least `k` seconds. */
  predicate Spaced(leaps: seq<int>) {
    forall k :: 1 <= k < |leaps| ==> leaps[k] - leaps[k - 1] >= k
  }

  // ---------- ticks and the search ----------

  lemma TicksOrder(K: int, a: int, b: int)
    requires K > 0
    ensures a <= b <==> Ticks(K, a) <= Ticks(K, b)
    ensures a < b ==> Ticks(K, a) + K <= Ticks(K, b)
  {
    if a < b {
      MulAtLeast(K, b - a);
    } else if b < a {
      MulAtLeast(K, a - b);
    }
  }

  lemma TicksAdd(K: int, a: int, b: int)
    ensures Ticks(K, a + b) == Ticks(K, a) + Ticks(K, b)
    ensures Ticks(K, 1) == K && Ticks(K, 0) == 0
  {}

  lemma {:induction false} UpperBoundRange(leaps: seq<int>, K: int, t: int)
    ensures UpperBound(leaps, K, t) <= |leaps|
  {
    if leaps != [] {
      UpperBoundRange(leaps[..|leaps| - 1], K, t);
    }
  }

  /** On an increasing table the search splits it at `t`. */
  lemma {:induction false} UpperBoundSplits(leaps: seq<int>, K: int, t: int)
    requires K > 0 && Increasing(leaps)
    ensures var n := UpperBound(leaps, K, t);
            && n <= |leaps|
            && (n > 0 ==> Ticks(K, leaps[n - 1]) <= t)
            && (n < |leaps| ==> t < Ticks(K, leaps[n]))
  {
    hide Ticks;
    if leaps != [] && t < Ticks(K, leaps[|leaps| - 1]) {
      UpperBoundSplits(leaps[..|leaps| - 1], K, t);
    }
  }

  lemma EntryOrder(leaps: seq<int>, K: int, i: int, j: int)
    requires K > 0 && Increasing(leaps)
    ensures 0 <= i <= j < |leaps| ==> Ticks(K, leaps[i]) <= Ticks(K, leaps[j])
  {
    hide Ticks;
    if 0 <= i <= j < |leaps| {
      TicksOrder(K, leaps[i], leaps[j]);
    }
  }

  lemma SplitIsUnique(leaps: seq<int>, K: int, t: int, n: int)
    requires K > 0 && Increasing(leaps) && 0 <= n <= |leaps|
    requires n > 0 ==> Ticks(K, leaps[n - 1]) <= t
    requires n < |leaps| ==> t < Ticks(K, leaps[n])
    ensures UpperBound(leaps, K, t) == n
  {
    hide Ticks;
    var m: int := UpperBound(leaps, K, t);
    UpperBoundSplits(leaps, K, t);
    EntryOrder(leaps, K, m, n - 1);
    EntryOrder(leaps, K, n, m - 1);
  }

  /** The UTC instant never runs backwards or stands still, for any increasing table. */
  lemma FromSysIncreasing(leaps: seq<int>, K: int, t: int, v: int)
    requires K > 0 && Increasing(leaps) && t < v
    ensures FromSys(leaps, K, t) < FromSys(leaps, K, v)
  {
    hide Ticks, UpperBound;
    var m: int, n: int := UpperBound(leaps, K, t), UpperBound(leaps, K, v);
    UpperBoundSplits(leaps, K, t);
    UpperBoundSplits(leaps, K, v);
    EntryOrder(leaps, K, n, m - 1);
    TicksOrder(K, m, n);
  }

  // ---------- the correction is exact on spaced tables ----------

  lemma ShiftedIncreasing(leaps: seq<int>)
    requires Increasing(leaps)
    ensures Increasing(Shifted(leaps))
  {}

  /** Where the corrected count lies among the insertions. */
  predicate Settled(leaps: seq<int>, K: int, u: int, ls: bool, ds: int) {
    && 0 <= ds <= |leaps|
    && (ds < |leaps| ==> u < Insertion(leaps, K, ds))
    && (ds > 0 ==> Insertion(leaps, K, ds - 1) <= u && (ls <==> u < Insertion(leaps, K, ds - 1) + Ticks(K, 1)))
    && (ls ==> ds > 0)
  }

  lemma CodeSettles(leaps: seq<int>, K: int, u: int)
    requires K > 0 && Increasing(leaps) && Spaced(leaps)
    ensures var (ls, ds) := IsLeapSecond(leaps, K, u); Settled(leaps, K, u, ls, ds)
  {
    hide Ticks, UpperBound;
    var n := UpperBound(leaps, K, u);
    UpperBoundSplits(leaps, K, u);
    if n < |leaps| {
      TicksAdd(K, leaps[n], n);
      TicksOrder(K, 0, n);
    }
    TicksAdd(K, 0, 1);
    if n > 0 {
      TicksAdd(K, leaps[n - 1], n - 1);
      TicksAdd(K, leaps[n - 1] - 1, 1);
      TicksAdd(K, n - 1, 1);
      if n > 1 {
        TicksAdd(K, leaps[n - 2] + (n - 2), 1);
        TicksOrder(K, leaps[n - 2] + (n - 2) + 1, leaps[n - 1]);
      }
    }
  }

  lemma SettledIsMeaning(leaps: seq<int>, K: int, u: int, ls: bool, ds: int)
    requires K > 0 && Increasing(leaps) && Settled(leaps, K, u, ls, ds)
    ensures ls == InLeap(leaps, K, u) && ds == Begun(leaps, K, u)
  {
    hide Ticks, UpperBound;
    ShiftedIncreasing(leaps);
    SplitIsUnique(Shifted(leaps), K, u, ds);
    if ls {
      assert During(leaps, K, u, ds - 1);
    }
    forall i | 0 <= i < |leaps| && During(leaps, K, u, i)
      ensures ls
    {
      TicksAdd(K, 0, 1);
      if i < ds - 1 {
        TicksOrder(K, leaps[i] + i, leaps[ds - 1] + (ds - 1));
      } else if ds < |leaps| {
        TicksOrder(K, leaps[ds] + ds, leaps[i] + i);
      }
    }
  }

  /** On a spaced table `is_leap_second` gives the insertions begun on the UTC scale and knows when one is running. */
  lemma IsLeapSecondExact(leaps: seq<int>, K: int, u: int)
    requires K > 0 && Increasing(leaps) && Spaced(leaps)
    ensures IsLeapSecond(leaps, K, u) == (InLeap(leaps, K, u), Begun(leaps, K, u))
  {
    hide Ticks, UpperBound, IsLeapSecond, InLeap, Settled;
    CodeSettles(leaps, K, u);
    var (ls, ds) := IsLeapSecond(leaps, K, u);
    SettledIsMeaning(leaps, K, u, ls, ds);
  }

  ghost predicate Exact(leaps: seq<int>, K: int) {
    forall u :: IsLeapSecond(leaps, K, u) == (InLeap(leaps, K, u), Begun(leaps, K, u))
  }

  /** A gap shorter than its number misleads the search at the later of its two entries. */
  lemma CrowdedFails(leaps: seq<int>, K: int, k: int)
    requires K > 0 && Increasing(leaps) && 1 <= k < |leaps| && leaps[k] - leaps[k - 1] < k
    ensures var u := Ticks(K, leaps[k]);
            IsLeapSecond(leaps, K, u) == (false, k) && (InLeap(leaps, K, u) || Begun(leaps, K, u) < k)
  {
    hide Ticks, UpperBound;
    var u := Ticks(K, leaps[k]);
    if k + 1 < |leaps| {
      TicksOrder(K, leaps[k], leaps[k + 1]);
    }
    SplitIsUnique(leaps, K, u, k + 1);
    TicksAdd(K, leaps[k] - 1, 1);
    TicksAdd(K, k, 1);
    TicksOrder(K, 1, k);
    ShiftedIncreasing(leaps);
    UpperBoundSplits(Shifted(leaps), K, u);
    var m: int := UpperBound(Shifted(leaps), K, u);
    TicksOrder(K, leaps[k], leaps[k - 1] + (k - 1));
    TicksAdd(K, 0, 1);
    EntryOrder(Shifted(leaps), K, k - 1, m - 1);
    if leaps[k] == leaps[k - 1] + (k - 1) {
      assert During(leaps, K, u, k - 1);
    }
  }

  /** The correction by at most one entry is right for every instant exactly on spaced tables. */
  lemma ExactIffSpaced(leaps: seq<int>, K: int)
    requires K > 0 && Increasing(leaps)
    ensures Exact(leaps, K) <==> Spaced(leaps)
  {
    hide Ticks, UpperBound, IsLeapSecond, InLeap, Begun;
    if Spaced(leaps) {
      forall u
        ensures IsLeapSecond(leaps, K, u) == (InLeap(leaps, K, u), Begun(leaps, K, u))
      {
        IsLeapSecondExact(leaps, K, u);
      }
    } else {
      var k :| 1 <= k < |leaps| && leaps[k] - leaps[k - 1] < k;
      CrowdedFails(leaps, K, k);
      var u := Ticks(K, leaps[k]);
      assert IsLeapSecond(leaps, K, u) != (InLeap(leaps, K, u), Begun(leaps, K, u));
    }
  }

  // ---------- the two clocks ----------

  /** A tick is in force from its own UTC tick until the next one's. */
  lemma Adjoint(leaps: seq<int>, K: int, u: int, s: int, t: int)
    requires K > 0 && Increasing(leaps)
    requires FromSys(leaps, K, s) <= u < FromSys(leaps, K, s + 1)
    ensures FromSys(leaps, K, t) <= u <==> t <= s
  {
    hide FromSys;
    if t < s {
      FromSysIncreasing(leaps, K, t, s);
    } else if t > s + 1 {
      FromSysIncreasing(leaps, K, s + 1, t);
    }
  }

  lemma FromSysAt(leaps: seq<int>, K: int, t: int, n: int)
    requires K > 0 && Increasing(leaps) && 0 <= n <= |leaps|
    requires n > 0 ==> Ticks(K, leaps[n - 1]) <= t
    requires n < |leaps| ==> t < Ticks(K, leaps[n])
    ensures FromSys(leaps, K, t) == t + Ticks(K, n)
  {
    hide Ticks, UpperBound;
    SplitIsUnique(leaps, K, t, n);
  }

  lemma LastTickBefore(K: int, s: int, tp: int)
    requires K > 0 && Ticks(K, s) <= tp < Ticks(K, s) + Ticks(K, 1)
    ensures Ticks(K, tp / K) + Ticks(K, 1) - 1 == Ticks(K, s + 1) - 1
  {
    hide Ticks;
    SecondOf(K, s, tp);
    TicksAdd(K, s, 1);
  }

  /** Outside the insertions the system time shows exactly `u`; inside one it is stuck on the last tick before it. */
  lemma ToSysBrackets(leaps: seq<int>, K: int, u: int, ls: bool, ds: int)
    requires K > 0 && Increasing(leaps) && (ls, ds) == IsLeapSecond(leaps, K, u) && Settled(leaps, K, u, ls, ds)
    ensures var s := ToSys(leaps, K, u);
            && FromSys(leaps, K, s) <= u < FromSys(leaps, K, s + 1)
            && (ls <==> FromSys(leaps, K, s) != u)
  {
    hide Ticks, UpperBound, IsLeapSecond, FromSys;
    TicksAdd(K, 0, 1);
    var s := ToSys(leaps, K, u);
    if ds > 0 {
      TicksAdd(K, leaps[ds - 1], ds - 1);
      TicksAdd(K, ds - 1, 1);
      TicksAdd(K, leaps[ds - 1] - 1, 1);
    }
    if ds < |leaps| {
      TicksAdd(K, leaps[ds], ds);
    }
    EntryOrder(leaps, K, ds - 2, ds - 1);
    if ls {
      LastTickBefore(K, leaps[ds - 1] - 1, u - Ticks(K, ds));
      if ds > 1 {
        TicksOrder(K, leaps[ds - 2], leaps[ds - 1]);
      }
      if ds < |leaps| {
        TicksOrder(K, leaps[ds - 1], leaps[ds]);
      }
      FromSysAt(leaps, K, s, ds - 1);
      FromSysAt(leaps, K, s + 1, ds);
    } else {
      FromSysAt(leaps, K, s, ds);
      FromSysIncreasing(leaps, K, s, s + 1);
    }
  }

  /** `to_sys` is the upper adjoint of `from_sys`: the last system tick whose UTC tick is not after `u`. */
  lemma Galois(leaps: seq<int>, K: int, t: int, u: int)
    requires K > 0 && Increasing(leaps) && Spaced(leaps)
    ensures FromSys(leaps, K, t) <= u <==> t <= ToSys(leaps, K, u)
  {
    hide FromSys, ToSys, IsLeapSecond, Settled;
    CodeSettles(leaps, K, u);
    var (ls, ds) := IsLeapSecond(leaps, K, u);
    ToSysBrackets(leaps, K, u, ls, ds);
    Adjoint(leaps, K, u, ToSys(leaps, K, u), t);
  }

  /** Hence the system time survives the trip through UTC, and `to_sys` never runs backwards. */
  lemma ClockRoundTrip(leaps: seq<int>, K: int, t: int, u: int, v: int)
    requires K > 0 && Increasing(leaps) && Spaced(leaps)
    ensures ToSys(leaps, K, FromSys(leaps, K, t)) == t
    ensures u <= v ==> ToSys(leaps, K, u) <= ToSys(leaps, K, v)
  {
    hide FromSys, ToSys;
    var s := FromSys(leaps, K, t);
    Galois(leaps, K, t, s);
    Galois(leaps, K, t + 1, s);
    FromSysIncreasing(leaps, K, t, t + 1);
    Galois(leaps, K, ToSys(leaps, K, u), u);
    Galois(leaps, K, ToSys(leaps, K, u), v);
  }

  // ---------- exactly which tables the two clocks work for ----------

  /** One second less than `Spaced` asks for. */
  predicate NearlySpaced(leaps: seq<int>) {
    forall k :: 1 <= k < |leaps| ==> leaps[k] - leaps[k - 1] >= k - 1
  }

  ghost predicate RoundTrips(leaps: seq<int>, K: int)
    requires K > 0
  {
    forall t :: ToSys(leaps, K, FromSys(leaps, K, t)) == t
  }

  ghost predicate Adjoints(leaps: seq<int>, K: int)
    requires K > 0
  {
    forall t, u :: FromSys(leaps, K, t) <= u <==> t <= ToSys(leaps, K, u)
  }

  /** The trip through UTC succeeds exactly when the search on the wrong scale is at most one entry off. */
  lemma TripByCount(leaps: seq<int>, K: int, t: int, n: int, u: int)
    requires K > 0 && Increasing(leaps) && n == UpperBound(leaps, K, t) && u == t + Ticks(K, n)
    ensures ToSys(leaps, K, u) == t <==> (n + 1 < |leaps| ==> u < Ticks(K, leaps[n + 1]))
  {
    hide Ticks, UpperBound;
    var m: int := UpperBound(leaps, K, u);
    UpperBoundSplits(leaps, K, t);
    UpperBoundSplits(leaps, K, u);
    TicksOrder(K, 0, n);
    TicksAdd(K, n, m - n);
    TicksAdd(K, n, m - 1 - n);
    TicksOrder(K, 1, m - n);
    TicksAdd(K, m - 1, 1);
    EntryOrder(leaps, K, m, n - 1);
    EntryOrder(leaps, K, n, m - 1);
    EntryOrder(leaps, K, n + 1, m - 1);
    EntryOrder(leaps, K, m, n + 1);
    if m > 0 {
      TicksAdd(K, leaps[m - 1] - 1, 1);
    }
  }

  /** System times survive the trip through UTC exactly when the kth gap is at least k - 1 seconds. */
  lemma RoundTripsIff(leaps: seq<int>, K: int)
    requires K > 0 && Increasing(leaps)
    ensures RoundTrips(leaps, K) <==> NearlySpaced(leaps)
  {
    hide Ticks, UpperBound, ToSys;
    if NearlySpaced(leaps) {
      forall t
        ensures ToSys(leaps, K, FromSys(leaps, K, t)) == t
      {
        var n := UpperBound(leaps, K, t);
        UpperBoundSplits(leaps, K, t);
        TripByCount(leaps, K, t, n, FromSys(leaps, K, t));
        if n + 1 < |leaps| {
          TicksAdd(K, leaps[n], n);
          TicksOrder(K, leaps[n] + n, leaps[n + 1]);
        }
      }
    } else {
      var k :| 1 <= k < |leaps| && leaps[k] - leaps[k - 1] < k - 1;
      TripFails(leaps, K, k, Ticks(K, leaps[k - 1]) - 1);
    }
  }

  /** The last tick before the entry at a shorter gap is the one that does not come back. */
  lemma TripFails(leaps: seq<int>, K: int, k: int, t: int)
    requires K > 0 && Increasing(leaps) && 1 <= k < |leaps| && leaps[k] - leaps[k - 1] < k - 1
    requires t == Ticks(K, leaps[k - 1]) - 1
    ensures ToSys(leaps, K, FromSys(leaps, K, t)) != t
  {
    hide Ticks, UpperBound, ToSys;
    if k > 1 {
      TicksOrder(K, leaps[k - 2], leaps[k - 1]);
    }
    SplitIsUnique(leaps, K, t, k - 1);
    TripByCount(leaps, K, t, k - 1, t + Ticks(K, k - 1));
    TicksAdd(K, leaps[k - 1], k - 1);
    TicksOrder(K, leaps[k], leaps[k - 1] + (k - 1));
  }

  lemma AdjointsRoundTrip(leaps: seq<int>, K: int, t: int)
    requires K > 0 && Increasing(leaps) && Adjoints(leaps, K)
    ensures ToSys(leaps, K, FromSys(leaps, K, t)) == t
  {
    hide FromSys, ToSys;
    FromSysIncreasing(leaps, K, t, t + 1);
    var u, s := FromSys(leaps, K, t), ToSys(leaps, K, FromSys(leaps, K, t));
    assert t <= s;
    assert FromSys(leaps, K, t + 1) <= u <==> t + 1 <= s;
  }

  /** In whole seconds a gap one short is harmless: the wrong answer comes at the first tick of an insertion, whose
      system time is a whole second too. */
  lemma WholeSeconds(leaps: seq<int>, u: int)
    requires Increasing(leaps) && NearlySpaced(leaps)
    ensures var s := ToSys(leaps, 1, u); FromSys(leaps, 1, s) <= u < FromSys(leaps, 1, s + 1)
  {
    hide UpperBound, FromSys;
    var (ls, ds) := IsLeapSecond(leaps, 1, u);
    UpperBoundSplits(leaps, 1, u);
    if Settled(leaps, 1, u, ls, ds) {
      ToSysBrackets(leaps, 1, u, ls, ds);
    } else {
      assert !ls && 0 < ds && u == leaps[ds - 1] + ds - 1;
      FromSysAt(leaps, 1, leaps[ds - 1] - 1, ds - 1);
      FromSysAt(leaps, 1, leaps[ds - 1], ds);
    }
  }

  /** A gap one short gives the system time of the start of a second for all of an insertion. */
  lemma FractionFails(leaps: seq<int>, K: int, k: int)
    requires K > 1 && Increasing(leaps) && 1 <= k < |leaps| && leaps[k] - leaps[k - 1] == k - 1
    ensures !Adjoints(leaps, K)
  {
    hide Ticks, UpperBound, IsLeapSecond;
    var t, u := Ticks(K, leaps[k - 1]) - 1, Ticks(K, leaps[k]);
    CrowdedFails(leaps, K, k);
    TicksAdd(K, leaps[k - 1], k - 1);
    TicksAdd(K, k - 1, 1);
    if k > 1 {
      TicksOrder(K, leaps[k - 2], leaps[k - 1]);
    }
    TicksOrder(K, leaps[k - 1] - 1, leaps[k - 1]);
    FromSysAt(leaps, K, t, k - 1);
    assert FromSys(leaps, K, t) <= u && ToSys(leaps, K, u) < t;
  }

  /** `to_sys` is the upper adjoint of `from_sys` exactly on spaced tables; ticks of a second need one second less. */
  lemma GaloisIff(leaps: seq<int>, K: int)
    requires K > 0 && Increasing(leaps)
    ensures Adjoints(leaps, K) <==> if K == 1 then NearlySpaced(leaps) else Spaced(leaps)
  {
    hide FromSys, ToSys;
    if Adjoints(leaps, K) {
      forall t
        ensures ToSys(leaps, K, FromSys(leaps, K, t)) == t
      {
        AdjointsRoundTrip(leaps, K, t);
      }
      RoundTripsIff(leaps, K);
      if K > 1 && !Spaced(leaps) {
        var k :| 1 <= k < |leaps| && leaps[k] - leaps[k - 1] < k;
        FractionFails(leaps, K, k);
      }
    }
    forall t, u
      ensures (if K == 1 then NearlySpaced(leaps) else Spaced(leaps)) ==>
                (FromSys(leaps, K, t) <= u <==> t <= ToSys(leaps, K, u))
    {
      if K == 1 && NearlySpaced(leaps) {
        WholeSeconds(leaps, u);
        Adjoint(leaps, K, u, ToSys(leaps, K, u), t);
      } else if K > 1 && Spaced(leaps) {
        Galois(leaps, K, t, u);
      }
    }
  }

  ghost predicate InImage(leaps: seq<int>, K: int, u: int) {
    exists t :: FromSys(leaps, K, t) == u
  }

  /** `is_leap_second` is true exactly on the UTC instants that no system time has. */
  lemma LeapIffNotInImage(leaps: seq<int>, K: int, u: int)
    requires K > 0 && Increasing(leaps) && Spaced(leaps)
    ensures IsLeapSecond(leaps, K, u).0 <==> !InImage(leaps, K, u)
  {
    hide FromSys, ToSys, IsLeapSecond, Settled;
    CodeSettles(leaps, K, u);
    var (ls, ds) := IsLeapSecond(leaps, K, u);
    ToSysBrackets(leaps, K, u, ls, ds);
    forall t | FromSys(leaps, K, t) == u
      ensures FromSys(leaps, K, ToSys(leaps, K, u)) == u
    {
      ClockRoundTrip(leaps, K, t, u, u);
    }
  }

  // ---------- printing and parsing UTC times ----------

  /** Date and time of day; second 60 is the inserted one. */
  datatype UtcFields = UtcFields(date: Ymd, h: int, m: int, s: int, sub: int)

  datatype Parsed = Failed | Time(u: int)

  /** The fields `to_stream` prints for a UTC time. */
  function PrintUtc(leaps: seq<int>, K: int, u: int): UtcFields
    requires K > 0
  {
    var (ls, ds) := IsLeapSecond(leaps, K, u);
    var tp := u - Ticks(K, ds);
    var sd, tod := tp / K / 86400, tp / K % 86400;
    UtcFields(FromDays(sd), tod / 3600, tod % 3600 / 60, tod % 60 + (if ls then 1 else 0), tp % K)
  }

  function SystemTime(f: UtcFields, K: int, s: int): int {
    Ticks(K, 86400 * ToDays(f.date) + 3600 * f.h + 60 * f.m + s) + f.sub
  }

  /** What `from_stream` makes of them, for an offset of zero. */
  function ParseUtc(leaps: seq<int>, K: int, f: UtcFields): Parsed
    requires K > 0
  {
    if !Valid(f.date) then Failed
    else
      var is60 := f.s == 60;
      var s := if is60 then f.s - 1 else f.s;
      var tmp := FromSys(leaps, K, SystemTime(f, K, s)) + Ticks(K, if is60 then 1 else 0);
      if is60 != IsLeapSecond(leaps, K, tmp).0 || !(0 <= f.h < 24 && 0 <= f.m < 60 && 0 <= s < 60 && 0 <= f.sub < K)
      then Failed
      else Time(tmp)
  }

  ghost predicate TextRoundTrips(leaps: seq<int>, K: int)
    requires K > 0
  {
    forall u :: ParseUtc(leaps, K, PrintUtc(leaps, K, u)) == Time(u)
  }

  predicate AtMinutes(leaps: seq<int>) {
    forall i :: 0 <= i < |leaps| ==> leaps[i] % 60 == 0
  }

  lemma ClockFields(sec: int, sd: int, tod: int)
    requires sd == sec / 86400 && tod == sec % 86400
    ensures sec == 86400 * sd + 3600 * (tod / 3600) + 60 * (tod % 3600 / 60) + tod % 60
    ensures 0 <= tod / 3600 < 24 && 0 <= tod % 3600 / 60 < 60 && tod % 60 == sec % 60
  {
    var h, r := tod / 3600, tod % 3600;
    var m, s := r / 60, r % 60;
    DivUnique(tod, 60, 60 * h + m, s);
    DivUnique(sec, 60, 1440 * sd + 60 * h + m, s);
  }

  lemma TicksSplit(K: int, tp: int)
    requires K > 0
    ensures tp == Ticks(K, tp / K) + tp % K && 0 <= tp % K < K
  {}

  lemma PrintedFields(leaps: seq<int>, K: int, u: int, ls: bool, ds: int, f: UtcFields)
    requires K > 0 && (ls, ds) == IsLeapSecond(leaps, K, u) && f == PrintUtc(leaps, K, u)
    ensures var tp := u - Ticks(K, ds);
            var s := tp / K % 60;
            && Valid(f.date) && SystemTime(f, K, s) == tp && f.s == s + (if ls then 1 else 0)
            && 0 <= f.h < 24 && 0 <= f.m < 60 && 0 <= f.sub < K
  {
    hide FromDays, ToDays, Valid, IsLeapSecond, Ticks;
    var tp := u - Ticks(K, ds);
    TicksSplit(K, tp);
    var sec := tp / K;
    DateOfDay(sec / 86400, f.date);
    ClockFields(sec, sec / 86400, sec % 86400);
  }

  lemma PlainText(leaps: seq<int>, K: int, u: int, ds: int, f: UtcFields)
    requires K > 0 && Increasing(leaps) && Spaced(leaps)
    requires (false, ds) == IsLeapSecond(leaps, K, u) && f == PrintUtc(leaps, K, u)
    ensures ParseUtc(leaps, K, f) == Time(u)
  {
    hide FromDays, ToDays, Valid, IsLeapSecond, FromSys, SystemTime, Settled, Ticks, PrintUtc;
    PrintedFields(leaps, K, u, false, ds, f);
    CodeSettles(leaps, K, u);
    ToSysBrackets(leaps, K, u, false, ds);
    TicksAdd(K, 0, 1);
  }

  lemma LeapText(leaps: seq<int>, K: int, u: int, ds: int, f: UtcFields)
    requires K > 0 && Increasing(leaps) && Spaced(leaps)
    requires (true, ds) == IsLeapSecond(leaps, K, u) && f == PrintUtc(leaps, K, u)
    ensures 0 < ds <= |leaps|
    ensures ParseUtc(leaps, K, f) == Time(u) <==> leaps[ds - 1] % 60 == 0
  {
    hide FromDays, ToDays, Valid, IsLeapSecond, FromSys, SystemTime, Ticks, PrintUtc, InImage;
    CodeSettles(leaps, K, u);
    PrintedFields(leaps, K, u, true, ds, f);
    TicksAdd(K, 0, 1);
    LeapTick(leaps, K, u, ds, u - Ticks(K, ds));
    LeapIffNotInImage(leaps, K, u);
    NotInImage(leaps, K, u, SystemTime(f, K, f.s));
  }

  lemma NotInImage(leaps: seq<int>, K: int, u: int, t: int)
    requires !InImage(leaps, K, u)
    ensures FromSys(leaps, K, t) != u
  {
    hide FromSys;
  }

  lemma LeapTick(leaps: seq<int>, K: int, u: int, ds: int, tp: int)
    requires K > 0 && Increasing(leaps) && Settled(leaps, K, u, true, ds) && tp == u - Ticks(K, ds)
    ensures tp / K == leaps[ds - 1] - 1
    ensures FromSys(leaps, K, tp) + K == u
  {
    hide UpperBound, FromSys, Ticks;
    TicksAdd(K, leaps[ds - 1], ds - 1);
    TicksAdd(K, ds - 1, 1);
    TicksAdd(K, leaps[ds - 1] - 1, 1);
    SecondOf(K, leaps[ds - 1] - 1, tp);
    if ds > 1 {
      TicksOrder(K, leaps[ds - 2], leaps[ds - 1] - 1);
    }
    FromSysAt(leaps, K, tp, ds - 1);
  }

  lemma SecondOf(K: int, s: int, tp: int)
    requires K > 0 && Ticks(K, s) <= tp < Ticks(K, s) + Ticks(K, 1)
    ensures tp / K == s
  {
    DivUnique(tp, K, s, tp - K * s);
  }

  /** Text round trip: every UTC time, inserted seconds included, is read back as printed exactly when
      insertions come at whole minutes, so that the inserted second prints as 60. */
  lemma TextRoundTripsIff(leaps: seq<int>, K: int)
    requires K > 0 && Increasing(leaps) && Spaced(leaps)
    ensures TextRoundTrips(leaps, K) <==> AtMinutes(leaps)
  {
    hide IsLeapSecond, ParseUtc, PrintUtc, Settled, Ticks;
    forall u
      ensures ParseUtc(leaps, K, PrintUtc(leaps, K, u)) == Time(u) || !AtMinutes(leaps)
    {
      var (ls, ds) := IsLeapSecond(leaps, K, u);
      if ls {
        LeapText(leaps, K, u, ds, PrintUtc(leaps, K, u));
      } else {
        PlainText(leaps, K, u, ds, PrintUtc(leaps, K, u));
      }
    }
    if !AtMinutes(leaps) {
      var i :| 0 <= i < |leaps| && leaps[i] % 60 != 0;
      var u := Insertion(leaps, K, i);
      InsertionIsLeap(leaps, K, i, u);
      LeapText(leaps, K, u, i + 1, PrintUtc(leaps, K, u));
    }
  }

  lemma InsertionIsLeap(leaps: seq<int>, K: int, i: int, u: int)
    requires K > 0 && Increasing(leaps) && Spaced(leaps) && 0 <= i < |leaps| && u == Insertion(leaps, K, i)
    ensures IsLeapSecond(leaps, K, u) == (true, i + 1)
  {
    hide UpperBound, IsLeapSecond, Ticks;
    IsLeapSecondExact(leaps, K, u);
    TicksAdd(K, 0, 1);
    assert During(leaps, K, u, i);
    ShiftedIncreasing(leaps);
    if i + 1 < |leaps| {
      TicksOrder(K, leaps[i] + i, leaps[i + 1] + (i + 1));
    }
    SplitIsUnique(Shifted(leaps), K, u, i + 1);
  }

  // ---------- what the text means ----------

  /** The second at which the clock shows a date, hour, minute and second. */
  function ClockSecond(date: Ymd, h: int, m: int, s: int): int {
    86400 * ToDays(date) + 3600 * h + 60 * m + s
  }

  /** Outside insertions the printed fields show the system time; during one they show the second it stands for, one
      past the last before it. */
  lemma PrintedText(leaps: seq<int>, K: int, u: int, i: int)
    requires K > 0 && Increasing(leaps) && Spaced(leaps)
    ensures var f := PrintUtc(leaps, K, u);
            && Valid(f.date) && 0 <= f.h < 24 && 0 <= f.m < 60 && 0 <= f.s <= 60 && 0 <= f.sub < K
            && (!InLeap(leaps, K, u) ==>
                  f.s < 60 && K * ClockSecond(f.date, f.h, f.m, f.s) + f.sub == ToSys(leaps, K, u))
            && (0 <= i < |leaps| && During(leaps, K, u, i) ==>
                  f.s > 0 && ClockSecond(f.date, f.h, f.m, f.s) == leaps[i] && Insertion(leaps, K, i) + f.sub == u)
  {
    hide FromDays, ToDays, Valid, IsLeapSecond, FromSys, PrintUtc, UpperBound, InLeap, Settled;
    var (ls, ds) := IsLeapSecond(leaps, K, u);
    var f := PrintUtc(leaps, K, u);
    IsLeapSecondExact(leaps, K, u);
    CodeSettles(leaps, K, u);
    PrintedFields(leaps, K, u, ls, ds, f);
    if 0 <= i < |leaps| && During(leaps, K, u, i) {
      NumberOfInsertion(leaps, K, u, i);
      LeapFields(leaps, K, u, i, f);
    }
  }

  lemma NumberOfInsertion(leaps: seq<int>, K: int, u: int, i: int)
    requires K > 0 && Increasing(leaps) && Spaced(leaps) && 0 <= i < |leaps| && During(leaps, K, u, i)
    ensures IsLeapSecond(leaps, K, u) == (true, i + 1)
  {
    hide UpperBound, IsLeapSecond, Ticks;
    IsLeapSecondExact(leaps, K, u);
    TicksAdd(K, 0, 1);
    ShiftedIncreasing(leaps);
    if i + 1 < |leaps| {
      TicksOrder(K, leaps[i] + i, leaps[i + 1] + (i + 1));
    }
    SplitIsUnique(Shifted(leaps), K, u, i + 1);
  }

  lemma LeapFields(leaps: seq<int>, K: int, u: int, i: int, f: UtcFields)
    requires K > 0 && Increasing(leaps) && Spaced(leaps) && 0 <= i < |leaps|
    requires IsLeapSecond(leaps, K, u) == (true, i + 1) && f == PrintUtc(leaps, K, u)
    ensures f.s > 0 && ClockSecond(f.date, f.h, f.m, f.s) == leaps[i] && Insertion(leaps, K, i) + f.sub == u
  {
    hide FromDays, ToDays, Valid, IsLeapSecond, FromSys, PrintUtc, Ticks;
    CodeSettles(leaps, K, u);
    var tp := u - Ticks(K, i + 1);
    LeapTick(leaps, K, u, i + 1, tp);
    PrintedFields(leaps, K, u, true, i + 1, f);
    var s := tp / K % 60;
    var sec := ClockSecond(f.date, f.h, f.m, s);
    assert tp == Ticks(K, sec) + f.sub;
    TicksAdd(K, 0, 1);
    SecondOf(K, sec, tp);
    TicksAdd(K, leaps[i] - 1, 1);
    TicksAdd(K, leaps[i], i);
    TicksAdd(K, i, 1);
  }

  /** An insertion follows second `sec` exactly when the UTC tick a second after it is inside one. */
  lemma InsertionFollows(leaps: seq<int>, K: int, sec: int, sub: int, i: int)
    requires K > 0 && Increasing(leaps) && 0 <= sub < K && 0 <= i < |leaps|
    ensures var u := FromSys(leaps, K, Ticks(K, sec) + sub) + K;
            && (During(leaps, K, u, i) <==> leaps[i] == sec + 1)
            && (leaps[i] == sec + 1 ==> u == Insertion(leaps, K, i) + sub)
  {
    hide FromSys, UpperBound, Ticks;
    var t, lo, hi := Ticks(K, sec) + sub, Ticks(K, leaps[i] - 1), Ticks(K, leaps[i]);
    TicksAdd(K, leaps[i] - 1, 1);
    TicksAdd(K, leaps[i], i);
    TicksAdd(K, i, 1);
    TicksAdd(K, sec, 1);
    EarlierEntry(leaps, K, i, lo);
    if i + 1 < |leaps| {
      TicksOrder(K, leaps[i], leaps[i + 1]);
    }
    FromSysAt(leaps, K, lo, i);
    FromSysAt(leaps, K, hi, i + 1);
    if leaps[i] == sec + 1 {
      FromSysAt(leaps, K, t, i);
    } else if sec + 1 < leaps[i] {
      TicksOrder(K, sec + 1, leaps[i] - 1);
      FromSysIncreasing(leaps, K, t, lo);
    } else {
      TicksOrder(K, leaps[i], sec);
      if hi < t {
        FromSysIncreasing(leaps, K, hi, t);
      }
    }
  }

  lemma EarlierEntry(leaps: seq<int>, K: int, i: int, lo: int)
    requires K > 0 && Increasing(leaps) && 0 <= i < |leaps| && lo == Ticks(K, leaps[i] - 1)
    ensures i > 0 ==> Ticks(K, leaps[i - 1]) <= lo
  {
    hide Ticks;
    if i > 0 {
      TicksOrder(K, leaps[i - 1], leaps[i] - 1);
    }
  }

  /** What text is read as, for any fields: second 60 is read exactly where an insertion follows second 59, as a time
      inside it, and every other second as the UTC time of its system time. */
  lemma ParseUtcMeans(leaps: seq<int>, K: int, f: UtcFields, u: int)
    requires K > 0 && Increasing(leaps) && Spaced(leaps)
    ensures ParseUtc(leaps, K, f) == Time(u) <==>
            && Valid(f.date) && 0 <= f.h < 24 && 0 <= f.m < 60 && 0 <= f.s <= 60 && 0 <= f.sub < K
            && if f.s < 60 then u == FromSys(leaps, K, K * ClockSecond(f.date, f.h, f.m, f.s) + f.sub)
               else exists i :: 0 <= i < |leaps| && leaps[i] == ClockSecond(f.date, f.h, f.m, 60) &&
                                u == Insertion(leaps, K, i) + f.sub
  {
    hide ToDays, Valid, IsLeapSecond, FromSys, Insertion, During;
    if f.s == 60 && 0 <= f.sub < K {
      var sec := ClockSecond(f.date, f.h, f.m, 59);
      var v := FromSys(leaps, K, Ticks(K, sec) + f.sub) + K;
      IsLeapSecondExact(leaps, K, v);
      forall i | 0 <= i < |leaps|
        ensures During(leaps, K, v, i) <==> leaps[i] == sec + 1
        ensures leaps[i] == sec + 1 ==> v == Insertion(leaps, K, i) + f.sub
      {
        InsertionFollows(leaps, K, sec, f.sub, i);
      }
    } else {
      var t := K * ClockSecond(f.date, f.h, f.m, f.s) + f.sub;
      LeapIffNotInImage(leaps, K, FromSys(leaps, K, t));
    }
  }
}
