/** `scan_keyword` of date/date.h: match the input against a list of keywords, ignoring case, one character at a time.
    The stream is a character sequence in a good state; keywords may be empty and may repeat. */
module ScanKeyword {
  import FiniteSets

  // ---------- specification ----------

  /** `toupper` in the C locale. */
  function Upper(c: char): char {
    if 'a' <= c <= 'z' then c - 'a' + 'A' else c
  }

  /** The first `m` characters of the input are, ignoring case, those of the keyword. */
  predicate Agrees(input: string, m: int, kw: string) {
    0 <= m <= |input| && m <= |kw| && forall i :: 0 <= i < m ==> Upper(input[i]) == Upper(kw[i])
  }

  predicate BeginsSome(input: string, m: int, kws: seq<string>) {
    exists k :: 0 <= k < |kws| && Agrees(input, m, kws[k])
  }

  /** The keyword is the whole of the first `m` characters. */
  predicate Equals(input: string, m: int, kw: string) {
    |kw| == m && Agrees(input, m, kw)
  }

  // ---------- statuses ----------

  const DOESNT_MATCH := 0
  const MIGHT_MATCH := 1
  const DOES_MATCH := 2

  function Where(st: seq<int>, v: int): set<int> {
    set k | 0 <= k < |st| && st[k] == v
  }

  lemma WhereUpdate(st: seq<int>, k: nat, v: int)
    requires k < |st|
    ensures Where(st[k := v], v) == Where(st, v) + {k}
    ensures forall x :: x != v ==> Where(st[k := v], x) == Where(st, x) - {k}
  {}

  /** The counters are the numbers of entries with those statuses. */
  predicate Counted(st: seq<int>, might: int, does: int) {
    might == |Where(st, MIGHT_MATCH)| && does == |Where(st, DOES_MATCH)|
  }

  /** Changing one entry changes the counters by one at most, as the loops do. */
  lemma CountedUpdate(st: seq<int>, k: nat, v: int, might: int, does: int)
    requires k < |st| && Counted(st, might, does) && st[k] != v && {st[k], v} <= {0, 1, 2}
    ensures Counted(st[k := v],
              might - (if st[k] == MIGHT_MATCH then 1 else 0) + (if v == MIGHT_MATCH then 1 else 0),
              does - (if st[k] == DOES_MATCH then 1 else 0) + (if v == DOES_MATCH then 1 else 0))
  {
    WhereUpdate(st, k, v);
  }

  /** One entry counted and no room for a second. */
  lemma OnlyOne(st: seq<int>, might: int, does: int, j: nat, k: nat)
    requires Counted(st, might, does) && might + does <= 1 && j < |st| && k < |st|
    requires (st[j] == MIGHT_MATCH || st[j] == DOES_MATCH) && st[k] == DOES_MATCH
    ensures j == k
  {
    var m, d := Where(st, MIGHT_MATCH), Where(st, DOES_MATCH);
    assert k in d && (j in m || j in d);
    if j != k {
      if j in d {
        assert {j, k} <= d;
        FiniteSets.SubsetSize({j, k}, d);
      } else {
        FiniteSets.SubsetSize({j}, m);
        FiniteSets.SubsetSize({k}, d);
      }
    }
  }

  /** What an entry says after `c` characters have been consumed. */
  function StatusAt(input: string, c: int, kw: string): int {
    if !Agrees(input, c, kw) then DOESNT_MATCH
    else if |kw| > c then MIGHT_MATCH
    else DOES_MATCH
  }

  ghost predicate InStep(st: seq<int>, kws: seq<string>, input: string, c: int) {
    |st| == |kws| && forall k :: 0 <= k < |kws| ==> st[k] == StatusAt(input, c, kws[k])
  }

  /** No keyword is longer than what was consumed and still agrees with the input. */
  ghost predicate Final(st: seq<int>, kws: seq<string>, input: string, c: int) {
    && |st| == |kws|
    && forall k :: 0 <= k < |kws| ==> st[k] == if Equals(input, c, kws[k]) then DOES_MATCH else DOESNT_MATCH
  }

  // ---------- the passes over the keywords ----------

  method Initialize(kws: seq<string>, status: array<int>) returns (might: int, does: int)
    requires status.Length == |kws|
    modifies status
    ensures forall k :: 0 <= k < |kws| ==> status[k] == if kws[k] != "" then MIGHT_MATCH else DOES_MATCH
    ensures Counted(status[..], might, does)
  {
    hide Counted;
    might, does := |kws|, 0;
    NoneCounted();
    for k := 0 to |kws|
      invariant Counted(status[..k], might - (|kws| - k), does)
      invariant forall j :: 0 <= j < k ==> status[j] == if kws[j] != "" then MIGHT_MATCH else DOES_MATCH
    {
      ghost var was := status[..k];
      if kws[k] != "" {
        status[k] := MIGHT_MATCH;
      } else {
        status[k] := DOES_MATCH;
        might, does := might - 1, does + 1;
      }
      CountedAppend(was, status[k]);
      assert status[..k + 1] == was + [status[k]];
    }
    assert status[..] == status[..|kws|];
  }

  lemma NoneCounted()
    ensures Counted([], 0, 0)
  {}

  lemma CountedAppend(st: seq<int>, v: int)
    requires v == MIGHT_MATCH || v == DOES_MATCH
    ensures forall might, does :: Counted(st, might, does) ==>
              Counted(st + [v], if v == MIGHT_MATCH then might + 1 else might,
                      if v == DOES_MATCH then does + 1 else does)
  {
    forall x
      ensures Where(st + [v], x) == if x == v then Where(st, x) + {|st|} else Where(st, x)
    {}
  }

  /** One entry after comparing its character at `indx`. */
  function Compared(st: int, kw: string, indx: nat, c: char): int
    requires st == MIGHT_MATCH ==> indx < |kw|
  {
    if st != MIGHT_MATCH then st
    else if c != Upper(kw[indx]) then DOESNT_MATCH
    else if |kw| == indx + 1 then DOES_MATCH
    else MIGHT_MATCH
  }

  method Compare(kws: seq<string>, status: array<int>, indx: nat, c: char, might0: int, does0: int)
    returns (consume: bool, might: int, does: int)
    requires status.Length == |kws| && Counted(status[..], might0, does0)
    requires forall k :: 0 <= k < |kws| ==> 0 <= status[k] <= 2 && (status[k] == MIGHT_MATCH ==> indx < |kws[k]|)
    modifies status
    ensures forall k :: 0 <= k < |kws| ==> status[k] == Compared(old(status[k]), kws[k], indx, c)
    ensures Counted(status[..], might, does)
    ensures consume <==> exists k :: 0 <= k < |kws| && old(status[k]) == MIGHT_MATCH && Upper(kws[k][indx]) == c
  {
    hide Counted;
    consume, might, does := false, might0, does0;
    for k := 0 to |kws|
      invariant Counted(status[..], might, does)
      invariant forall j :: 0 <= j < k ==> status[j] == Compared(old(status[j]), kws[j], indx, c)
      invariant forall j :: k <= j < |kws| ==> status[j] == old(status[j])
      invariant consume <==> exists j :: 0 <= j < k && old(status[j]) == MIGHT_MATCH && Upper(kws[j][indx]) == c
    {
      ghost var was := status[..];
      if status[k] == MIGHT_MATCH {
        if c == Upper(kws[k][indx]) {
          consume := true;
          if |kws[k]| == indx + 1 {
            CountedUpdate(was, k, DOES_MATCH, might, does);
            status[k] := DOES_MATCH;
            assert status[..] == was[k := DOES_MATCH];
            might, does := might - 1, does + 1;
          }
        } else {
          CountedUpdate(was, k, DOESNT_MATCH, might, does);
          status[k] := DOESNT_MATCH;
          assert status[..] == was[k := DOESNT_MATCH];
          might := might - 1;
        }
      }
    }
  }

  /** Keywords matched on an earlier character no longer match. */
  method DropShorter(kws: seq<string>, status: array<int>, indx: nat, might: int, does0: int) returns (does: int)
    requires status.Length == |kws| && Counted(status[..], might, does0)
    modifies status
    ensures forall k :: 0 <= k < |kws| ==>
              status[k] == if old(status[k]) == DOES_MATCH && |kws[k]| != indx + 1 then DOESNT_MATCH else old(status[k])
    ensures Counted(status[..], might, does)
  {
    hide Counted;
    does := does0;
    for k := 0 to |kws|
      invariant Counted(status[..], might, does)
      invariant forall j :: 0 <= j < k ==>
                  status[j] ==
                  if old(status[j]) == DOES_MATCH && |kws[j]| != indx + 1 then DOESNT_MATCH else old(status[j])
      invariant forall j :: k <= j < |kws| ==> status[j] == old(status[j])
    {
      if status[k] == DOES_MATCH && |kws[k]| != indx + 1 {
        ghost var was := status[..];
        CountedUpdate(was, k, DOESNT_MATCH, might, does);
        status[k] := DOESNT_MATCH;
        assert status[..] == was[k := DOESNT_MATCH];
        does := does - 1;
      }
    }
  }

  // ---------- one character ----------

  lemma StepStatus(input: string, c: nat, kw: string)
    requires c < |input|
    ensures var st := StatusAt(input, c, kw);
            && (st == MIGHT_MATCH ==> c < |kw|)
            && (st == MIGHT_MATCH && Upper(kw[c]) == Upper(input[c]) <==> Agrees(input, c + 1, kw))
            && StatusAt(input, c + 1, kw) ==
                 var cmp := Compared(st, kw, c, Upper(input[c]));
                 if cmp == DOES_MATCH && |kw| != c + 1 then DOESNT_MATCH else cmp
  {}

  lemma Shorter(input: string, c: nat, m: nat, kw: string)
    ensures c <= m && Agrees(input, m, kw) ==> Agrees(input, c, kw)
  {}

  /** When nothing agrees with the next character, what was consumed is the longest prefix. */
  lemma NoLonger(input: string, c: nat, kws: seq<string>)
    requires c < |input| && !BeginsSome(input, c + 1, kws)
    ensures forall m :: c < m <= |input| ==> !BeginsSome(input, m, kws)
  {
    hide Agrees;
    forall m: nat, k | c < m <= |input| && 0 <= k < |kws|
      ensures !Agrees(input, m, kws[k])
    {
      Shorter(input, c + 1, m, kws[k]);
    }
  }

  ghost predicate Longest(input: string, kws: seq<string>, c: nat) {
    && c <= |input| && (c == 0 || BeginsSome(input, c, kws))
    && forall m :: c < m <= |input| ==> !BeginsSome(input, m, kws)
  }

  /** The statuses when no keyword is left that might match. */
  lemma NoneLeft(st: seq<int>, kws: seq<string>, input: string, c: nat, does: int)
    requires InStep(st, kws, input, c) && Counted(st, 0, does) && c <= |input|
    ensures Final(st, kws, input, c) && !WantsMore(kws, input)
    ensures forall m :: c < m <= |input| ==> !BeginsSome(input, m, kws)
  {
    assert Where(st, MIGHT_MATCH) == {};
    assert forall k :: 0 <= k < |st| ==> (k in Where(st, MIGHT_MATCH) <==> st[k] == MIGHT_MATCH);
    forall m: nat, k | c < m <= |input| && 0 <= k < |kws|
      ensures !Agrees(input, m, kws[k])
    {
      Shorter(input, c, m, kws[k]);
    }
    forall k | 0 <= k < |kws| && |kws[k]| > |input|
      ensures !Agrees(input, |input|, kws[k])
    {
      Shorter(input, c, |input|, kws[k]);
    }
  }

  /** Consume or stop: one turn of the outer loop. */
  method Turn(kws: seq<string>, status: array<int>, input: string, indx: nat, might0: int, does0: int)
    returns (consume: bool, might: int, does: int)
    requires status.Length == |kws| && indx < |input| && InStep(status[..], kws, input, indx)
    requires Counted(status[..], might0, does0)
    modifies status
    ensures Counted(status[..], might, does)
    ensures consume == BeginsSome(input, indx + 1, kws)
    ensures if consume then InStep(status[..], kws, input, indx + 1)
            else might == 0 && Final(status[..], kws, input, indx)
  {
    hide Counted, StatusAt, Agrees;
    ghost var st := status[..];
    forall k | 0 <= k < |kws|
      ensures 0 <= status[k] <= 2
    {
      StatusRange(input, indx, kws[k]);
    }
    forall k | 0 <= k < |kws|
      ensures var was := StatusAt(input, indx, kws[k]);
              && (was == MIGHT_MATCH ==> indx < |kws[k]|)
              && (was == MIGHT_MATCH && Upper(kws[k][indx]) == Upper(input[indx]) <==> Agrees(input, indx + 1, kws[k]))
              && StatusAt(input, indx + 1, kws[k]) ==
                   var cmp := Compared(was, kws[k], indx, Upper(input[indx]));
                   if cmp == DOES_MATCH && |kws[k]| != indx + 1 then DOESNT_MATCH else cmp
    {
      StepStatus(input, indx, kws[k]);
    }
    consume, might, does := Compare(kws, status, indx, Upper(input[indx]), might0, does0);
    if consume {
      if might + does > 1 {
        does := DropShorter(kws, status, indx, might, does);
      } else {
        ghost var j :| 0 <= j < |kws| && Agrees(input, indx + 1, kws[j]);
        forall k | 0 <= k < |kws| && status[k] == DOES_MATCH
          ensures |kws[k]| == indx + 1
        {
          OnlyOne(status[..], might, does, j, k);
        }
      }
    } else {
      NothingAgrees(status[..], kws, input, indx, might, does);
    }
  }

  lemma StatusRange(input: string, c: int, kw: string)
    ensures 0 <= StatusAt(input, c, kw) <= 2
  {}

  lemma NothingAgrees(st: seq<int>, kws: seq<string>, input: string, c: nat, might: int, does: int)
    requires c < |input| && |st| == |kws| && Counted(st, might, does) && !BeginsSome(input, c + 1, kws)
    requires forall k :: 0 <= k < |kws| ==>
               var was := StatusAt(input, c, kws[k]);
               st[k] == if was == MIGHT_MATCH then DOESNT_MATCH else was
    ensures might == 0 && Final(st, kws, input, c)
  {
    assert Where(st, MIGHT_MATCH) == {};
  }

  // ---------- scan_keyword ----------

  /** What the search through the statuses returns: the first keyword equal to the consumed text. */
  ghost predicate FirstEqual(kws: seq<string>, input: string, c: nat, k: nat) {
    && k <= |kws| && (k < |kws| ==> Equals(input, c, kws[k]))
    && forall j :: 0 <= j < k ==> !Equals(input, c, kws[j])
  }

  /** Some keyword would have gone on matching had the input gone on. */
  ghost predicate WantsMore(kws: seq<string>, input: string) {
    exists k :: 0 <= k < |kws| && |kws[k]| > |input| && Agrees(input, |input|, kws[k])
  }

  lemma AtStart(st: seq<int>, kws: seq<string>, input: string)
    requires |st| == |kws| && forall k :: 0 <= k < |kws| ==> st[k] == if kws[k] != "" then MIGHT_MATCH else DOES_MATCH
    ensures InStep(st, kws, input, 0)
  {}

  lemma MoreWanted(st: seq<int>, kws: seq<string>, input: string, might: int, does: int)
    requires InStep(st, kws, input, |input|) && Counted(st, might, does) && might > 0
    ensures WantsMore(kws, input)
  {
    var k :| k in Where(st, MIGHT_MATCH);
    assert Agrees(input, |input|, kws[k]);
  }

  lemma NotMoreWanted(kws: seq<string>, input: string, c: nat)
    requires c < |input| && forall m :: c < m <= |input| ==> !BeginsSome(input, m, kws)
    ensures !WantsMore(kws, input)
  {
    assert !BeginsSome(input, |input|, kws);
  }

  lemma DoesMeansEquals(st: seq<int>, kws: seq<string>, input: string, c: nat)
    requires InStep(st, kws, input, c) || Final(st, kws, input, c)
    ensures |st| == |kws| && forall k :: 0 <= k < |kws| ==> (st[k] == DOES_MATCH <==> Equals(input, c, kws[k]))
  {}

  /** Consumes the longest prefix of the input that begins some keyword, returns the first keyword equal to it
      and sets the fail bit if there is none; the end-of-file bit if a keyword wanted more. */
  method Scan(kws: seq<string>, input: string) returns (k: nat, consumed: nat, eof: bool, fail: bool)
    ensures Longest(input, kws, consumed)
    ensures FirstEqual(kws, input, consumed, k)
    ensures fail <==> k == |kws|
    ensures eof <==> WantsMore(kws, input)
  {
    hide Counted, Agrees, BeginsSome, WantsMore, Equals, StatusAt;
    var status := new int[|kws|];
    var might, does := Initialize(kws, status);
    AtStart(status[..], kws, input);
    consumed, eof, fail := 0, false, false;
    var indx := 0;
    while might > 0
      invariant Counted(status[..], might, does) && consumed <= |input| && indx <= |input|
      invariant consumed == 0 || BeginsSome(input, consumed, kws)
      invariant if consumed == indx then InStep(status[..], kws, input, indx)
                else might == 0 && consumed < |input| && Final(status[..], kws, input, consumed) &&
                     !BeginsSome(input, consumed + 1, kws)
      decreases |input| - indx
    {
      if indx == |input| {
        eof := true;
        break;
      }
      var consume;
      consume, might, does := Turn(kws, status, input, indx, might, does);
      if consume {
        consumed := consumed + 1;
      }
      indx := indx + 1;
    }
    if eof {
      MoreWanted(status[..], kws, input, might, does);
    } else if consumed == indx {
      MightIsNotNegative(status[..], might, does);
      NoneLeft(status[..], kws, input, consumed, does);
    } else {
      NoLonger(input, consumed, kws);
      NotMoreWanted(kws, input, consumed);
    }
    DoesMeansEquals(status[..], kws, input, consumed);
    k := 0;
    while k < |kws| && status[k] != DOES_MATCH
      invariant k <= |kws| && forall j :: 0 <= j < k ==> !Equals(input, consumed, kws[j])
    {
      k := k + 1;
    }
    if k == |kws| {
      fail := true;
    }
  }

  lemma MightIsNotNegative(st: seq<int>, might: int, does: int)
    requires Counted(st, might, does)
    ensures might >= 0 && does >= 0
  {}

  // ---------- case ----------

  /** The same character, or the small and the capital form of one of the letters a to z. */
  predicate SameLetter(a: char, b: char) {
    || a == b
    || ('a' <= a <= 'z' && 'A' <= b <= 'Z' && a as int - 'a' as int == b as int - 'A' as int)
    || ('A' <= a <= 'Z' && 'a' <= b <= 'z' && a as int - 'A' as int == b as int - 'a' as int)
  }

  lemma UpperFoldsCase(a: char, b: char)
    ensures Upper(a) == Upper(b) <==> SameLetter(a, b)
  {}

  predicate SameText(s: string, t: string) {
    |s| == |t| && forall i :: 0 <= i < |s| ==> SameLetter(s[i], t[i])
  }

  lemma AgreesIgnoresCase(input: string, other: string, m: int, kw: string)
    requires SameText(input, other)
    ensures Agrees(input, m, kw) <==> Agrees(other, m, kw)
    ensures Agrees(input, m, kw) <==> 0 <= m <= |input| && m <= |kw| && SameText(input[..m], kw[..m])
  {
    hide Upper, SameLetter;
    forall i | 0 <= i < |input|
      ensures Upper(input[i]) == Upper(other[i])
    {
      UpperFoldsCase(input[i], other[i]);
    }
    if 0 <= m <= |input| && m <= |kw| {
      forall i | 0 <= i < m
        ensures Upper(input[i]) == Upper(kw[i]) <==> SameLetter(input[..m][i], kw[..m][i])
      {
        UpperFoldsCase(input[i], kw[i]);
      }
    }
  }

  /** Inputs that differ only in the case of letters scan alike: the same length is consumed, the same keyword found,
      and the same bits are set. */
  lemma ScanIgnoresCase(kws: seq<string>, input: string, other: string, c: nat, k: nat)
    requires SameText(input, other)
    ensures Longest(input, kws, c) <==> Longest(other, kws, c)
    ensures FirstEqual(kws, input, c, k) <==> FirstEqual(kws, other, c, k)
    ensures WantsMore(kws, input) <==> WantsMore(kws, other)
  {
    hide Agrees, SameText;
    SameLength(input, other);
    forall m, j | 0 <= j < |kws|
      ensures Agrees(input, m, kws[j]) <==> Agrees(other, m, kws[j])
    {
      AgreesIgnoresCase(input, other, m, kws[j]);
    }
    forall m
      ensures BeginsSome(input, m, kws) <==> BeginsSome(other, m, kws)
    {
    }
  }

  lemma SameLength(s: string, t: string)
    requires SameText(s, t)
    ensures |s| == |t|
  {}
}
