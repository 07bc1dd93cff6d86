/** CommonJS module identifiers ("Module Identifiers" in CommonJS Modules/1.1) as resolved by
    jsengine/duk_module_duktape.c: a path normaliser that rewrites one buffer in place. */
module ModuleId {
  import opened Options

  // ---------- specification: a stack of terms ----------

  function FirstSlash(s: string): (k: nat)
    ensures k <= |s| && '/' !in s[..k] && (k < |s| ==> s[k] == '/')
  {
    if s == "" || s[0] == '/' then 0
    else
      var k := FirstSlash(s[1..]) + 1;
      assert s[..k] == [s[0]] + s[1..][..k - 1];
      k
  }

  /** The parts between slashes; one more than there are slashes. */
  function Split(s: string): (ps: seq<string>)
    ensures |ps| >= 1
    decreases |s|
  {
    var k := FirstSlash(s);
    if k == |s| then [s] else [s[..k]] + Split(s[k + 1..])
  }

  /** A term that names something: not empty and not starting with a period. */
  predicate Plain(t: string) {
    t != "" && t[0] != '.'
  }

  /** One part: empty and `.` do nothing, `..` drops the last term, names are pushed. */
  function Step(stack: seq<string>, part: string): Option<seq<string>> {
    if part == "" || part == "." then Some(stack)
    else if part == ".." then if stack == [] then None else Some(stack[..|stack| - 1])
    else if part[0] == '.' then None
    else Some(stack + [part])
  }

  /** All parts, of which the last has to be a name. */
  function Run(stack: seq<string>, parts: seq<string>): (r: Option<seq<string>>)
    requires parts != []
    ensures r.Some? ==> r.value != []
    decreases |parts|
  {
    if |parts| == 1 then if Plain(parts[0]) then Some(stack + parts) else None
    else
      match Step(stack, parts[0])
      case None => None
      case Some(next) => Run(next, parts[1..])
  }

  /** The terms an identifier resolves to. */
  function Resolve(s: string): (r: Option<seq<string>>)
    ensures r.Some? ==> r.value != []
  {
    if Split(s)[0] == "" then None else Run([], Split(s))
  }

  /** Terms with a slash after each. */
  function Slashed(ts: seq<string>): string {
    if ts == [] then "" else Slashed(ts[..|ts| - 1]) + ts[|ts| - 1] + "/"
  }

  function Join(ts: seq<string>): string
    requires ts != []
  {
    Slashed(ts[..|ts| - 1]) + ts[|ts| - 1]
  }

  /** Names without slashes, as they stand in a resolved identifier. */
  predicate Terms(ts: seq<string>) {
    forall i :: 0 <= i < |ts| ==> Plain(ts[i]) && '/' !in ts[i]
  }

  // ---------- the buffer ----------

  /** Backtrack to the previous slash or to the start. */
  method Backtrack(buf: array<char>, q0: nat, ghost stack: seq<string>) returns (q: nat)
    requires 0 < q0 <= buf.Length && stack != [] && Terms(stack) && buf[..q0] == Slashed(stack)
    ensures q < q0 && buf[..q] == Slashed(stack[..|stack| - 1])
  {
    ghost var head, last := Slashed(stack[..|stack| - 1]), stack[|stack| - 1];
    SlashedEnds(stack[..|stack| - 1]);
    assert forall i :: 0 <= i < q0 ==> buf[i] == buf[..q0][i] == (head + last + "/")[i];
    assert forall i :: |head| <= i < |head| + |last| ==> buf[i] == last[i - |head|];
    q := q0 - 1;
    while q != 0 && buf[q - 1] != '/'
      invariant |head| <= q <= |head| + |last|
    {
      q := q - 1;
    }
    assert buf[..q] == buf[..q0][..q];
  }

  lemma SlashedEnds(ts: seq<string>)
    ensures Slashed(ts) != "" ==> Slashed(ts)[|Slashed(ts)| - 1] == '/'
    ensures ts == [] <==> Slashed(ts) == ""
  {}

  /** Copy the name at `p0` down to `q0`, with its slash unless it ends the input. */
  method CopyTerm(buf: array<char>, p0: nat, q0: nat, n: nat, ghost s: string) returns (done: bool, p: nat, q: nat)
    requires q0 <= p0 < n < buf.Length && buf[n] == '\0' && |s| == n - p0 && s[0] != '/'
    requires forall i :: p0 <= i < n ==> buf[i] == s[i - p0] && buf[i] != '\0'
    modifies buf
    ensures done == (FirstSlash(s) == |s|)
    ensures q == q0 + FirstSlash(s) + if done then 0 else 1
    ensures p == p0 + FirstSlash(s) + 1 && (done || p <= n)
    ensures forall i :: 0 <= i < q0 ==> buf[i] == old(buf[i])
    ensures forall i :: q0 <= i < q0 + FirstSlash(s) ==> buf[i] == s[i - q0]
    ensures !done ==> buf[q - 1] == '/'
    ensures forall i :: p <= i < buf.Length ==> buf[i] == old(buf[i])
    ensures buf[n] == '\0'
  {
    hide FirstSlash;
    ghost var k := FirstSlash(s);
    assert forall i :: 0 <= i < k ==> s[..k][i] == s[i] != '/';
    p, q := p0 + 1, q0;
    var c := buf[p0];
    while true
      invariant q0 <= q < q0 + k && p == p0 + (q - q0) + 1
      invariant c == s[q - q0]
      invariant forall i :: 0 <= i < q0 ==> buf[i] == old(buf[i])
      invariant forall i :: q0 <= i < q ==> buf[i] == s[i - q0]
      invariant forall i :: p <= i < buf.Length ==> buf[i] == old(buf[i])
      decreases n - p
    {
      buf[q] := c;
      q := q + 1;
      c := buf[p];
      p := p + 1;
      if c == '\0' {
        return true, p, q;
      } else if c == '/' {
        buf[q] := '/';
        q := q + 1;
        return false, p, q;
      }
    }
  }

  // ---------- one turn of the resolution loop ----------

  lemma RunStep(stack: seq<string>, rest: string, k: nat)
    requires k == FirstSlash(rest) < |rest|
    ensures Run(stack, Split(rest)) ==
            match Step(stack, rest[..k]) case None => None case Some(next) => Run(next, Split(rest[k + 1..]))
  {
    hide FirstSlash, Step;
    assert Split(rest)[1..] == Split(rest[k + 1..]);
  }

  lemma SlashAt(s: string, k: nat)
    requires k < |s| && s[k] == '/' && forall i :: 0 <= i < k ==> s[i] != '/'
    ensures FirstSlash(s) == k
  {
    hide FirstSlash;
    assert forall i :: 0 <= i < FirstSlash(s) ==> s[..FirstSlash(s)][i] == s[i];
  }

  lemma {:induction false} RunSkips(stack: seq<string>, rest: string, j: nat)
    requires j <= |rest| && forall i :: 0 <= i < j ==> rest[i] == '/'
    ensures Run(stack, Split(rest)) == Run(stack, Split(rest[j..]))
    decreases j
  {
    if j == 0 {
      assert rest[0..] == rest;
    } else {
      RunStep(stack, rest, 0);
      RunSkips(stack, rest[1..], j - 1);
      assert rest[1..][j - 1..] == rest[j..];
    }
  }

  lemma RunBadDot(stack: seq<string>, rest: string)
    requires rest != "" && rest[0] == '.'
    requires |rest| >= 2 ==> rest[1] != '/'
    requires |rest| >= 3 && rest[1] == '.' ==> rest[2] != '/'
    ensures Run(stack, Split(rest)) == None
  {
    var k := FirstSlash(rest);
    if k < |rest| {
      RunStep(stack, rest, k);
      assert rest[..k][0] == '.';
    }
  }

  lemma SlashedPush(ts: seq<string>, t: string)
    ensures Slashed(ts + [t]) == Slashed(ts) + t + "/"
  {
    assert (ts + [t])[..|ts|] == ts;
  }

  lemma SameSlice(buf: array<char>, a: int, b: int, t: string)
    requires 0 <= a <= b <= buf.Length && b - a == |t| && forall i :: a <= i < b ==> buf[i] == t[i - a]
    ensures buf[a..b] == t
  {}

  /** The state between turns: what is written is the stack, what is unread is untouched, and the cursors keep apart. */
  ghost predicate Turn(buf: array<char>, n: nat, s: string, p: nat, q: nat, stack: seq<string>)
    reads buf
  {
    && n < buf.Length && |s| == n && buf[n] == '\0'
    && q <= p <= n
    && (forall i :: p <= i < n ==> buf[i] == s[i] && buf[i] != '\0')
    && Terms(stack) && buf[..q] == Slashed(stack)
    && (p > 0 ==> buf[p] != '/')
  }

  lemma RunName(stack: seq<string>, rest: string)
    requires Plain(rest) && FirstSlash(rest) == |rest|
    ensures Run(stack, Split(rest)) == Some(stack + [rest]) && Join(stack + [rest]) == Slashed(stack) + rest
  {
    hide FirstSlash, Slashed;
    assert (stack + [rest])[..|stack|] == stack;
  }

  /** A name is moved down to the write cursor and pushed, or ends the input and the resolution. */
  method TakeTerm(buf: array<char>, p0: nat, q0: nat, n: nat, ghost s: string, ghost stack: seq<string>)
    returns (done: bool, p: nat, q: nat, ghost pushed: seq<string>)
    requires Turn(buf, n, s, p0, q0, stack) && p0 < n && s[p0] != '.' && s[p0] != '/'
    modifies buf
    ensures q <= n && q0 <= q && forall i :: n <= i < buf.Length ==> buf[i] == old(buf[i])
    ensures done ==> Run(stack, Split(s[p0..])) == Some(pushed) && pushed != []
    ensures done ==> buf[..q] == Join(pushed) && buf[q0..q] == pushed[|pushed| - 1]
    ensures !done ==> q <= p <= n && p0 < p && Terms(pushed) && buf[..q] == Slashed(pushed)
    ensures !done ==> Run(stack, Split(s[p0..])) == Run(pushed, Split(s[p..]))
    ensures !done ==> forall i :: p <= i < n ==> buf[i] == s[i] && buf[i] != '\0'
  {
    hide FirstSlash, Split, Run, Slashed, Join, Step;
    ghost var rest, k := s[p0..], FirstSlash(s[p0..]);
    ghost var term := rest[..k];
    NameFirst(stack, rest);
    done, p, q := CopyTerm(buf, p0, q0, n, rest);
    SameSlice(buf, 0, q0, Slashed(stack));
    SameSlice(buf, q0, q0 + k, term);
    pushed := stack + [term];
    if done {
      assert rest[..k] == rest;
      assert buf[..q] == buf[..q0] + buf[q0..q];
      RunName(stack, rest);
    } else {
      SlashedPush(stack, term);
      assert buf[..q] == buf[..q0] + buf[q0..q0 + k] + [buf[q - 1]];
      assert rest[k + 1..] == s[p..];
    }
  }

  lemma NameFirst(stack: seq<string>, rest: string)
    requires rest != "" && rest[0] != '.' && rest[0] != '/'
    ensures var k := FirstSlash(rest);
            && Plain(rest[..k]) && '/' !in rest[..k]
            && (k < |rest| ==> Run(stack, Split(rest)) == Run(stack + [rest[..k]], Split(rest[k + 1..])))
  {
    hide Split, Run;
    var k := FirstSlash(rest);
    if k < |rest| {
      RunStep(stack, rest, k);
    }
  }

  /** `.` is eaten, `..` backtracks by one component; anything else that starts with a period is an error. */
  method TakeDots(buf: array<char>, p0: nat, q0: nat, n: nat, ghost s: string, ghost stack: seq<string>)
    returns (good: bool, p: nat, q: nat, ghost left: seq<string>)
    requires Turn(buf, n, s, p0, q0, stack) && p0 < n && s[p0] == '.'
    ensures !good ==> Run(stack, Split(s[p0..])) == None
    ensures good ==> q <= q0 && p0 < p <= n && Terms(left) && buf[..q] == Slashed(left)
    ensures good ==> Run(stack, Split(s[p0..])) == Run(left, Split(s[p..]))
  {
    hide FirstSlash, Split, Run, Slashed;
    ghost var rest := s[p0..];
    good, p, q, left := true, p0, q0, stack;
    var c := buf[p0 + 1];
    if c == '/' {
      SlashAt(rest, 1);
      RunStep(stack, rest, 1);
      p := p0 + 2;
      assert rest[2..] == s[p..];
    } else if c == '.' && buf[p0 + 2] == '/' {
      SlashAt(rest, 2);
      RunStep(stack, rest, 2);
      p := p0 + 3;
      assert rest[3..] == s[p..];
      SlashedEnds(stack);
      if q == 0 {
        good := false;
        return;
      }
      q := Backtrack(buf, q0, stack);
      left := stack[..|stack| - 1];
    } else {
      RunBadDot(stack, rest);
      good := false;
    }
  }

  /** Eat duplicate slashes. */
  method SkipSlashes(buf: array<char>, p0: nat, n: nat, ghost s: string, ghost stack: seq<string>) returns (p: nat)
    requires p0 <= n < buf.Length && |s| == n && buf[n] == '\0' && forall i :: p0 <= i < n ==> buf[i] == s[i]
    ensures p0 <= p <= n && buf[p] != '/'
    ensures Run(stack, Split(s[p0..])) == Run(stack, Split(s[p..]))
  {
    hide Split, Run;
    p := p0;
    while buf[p] == '/'
      invariant p0 <= p <= n && forall i :: p0 <= i < p ==> s[i] == '/'
      decreases n - p
    {
      p := p + 1;
    }
    RunSkips(stack, s[p0..], p - p0);
    assert s[p0..][p - p0..] == s[p..];
  }

  /** The resolution loop: the resolved name replaces the input in the same buffer. */
  method Normalize(buf: array<char>, n: nat) returns (ok: bool, q: nat, qLast: nat)
    requires n < buf.Length && buf[n] == '\0' && forall i :: 0 <= i < n ==> buf[i] != '\0'
    modifies buf
    ensures ok == Resolve(old(buf[..n])).Some?
    ensures ok ==> qLast <= q <= n
    ensures ok ==> buf[..q] == Join(Resolve(old(buf[..n])).value)
    ensures ok ==> var ts := Resolve(old(buf[..n])).value; buf[qLast..q] == ts[|ts| - 1]
    ensures forall i :: n <= i < buf.Length ==> buf[i] == old(buf[i])
  {
    hide FirstSlash, Split, Run, Slashed, Join;
    ghost var s := buf[..n];
    ghost var stack: seq<string> := [];
    var p := 0;
    q, qLast, ok := 0, 0, false;
    FirstPart(s);
    SlashedEnds([]);
    assert s[0..] == s;
    while true
      invariant Turn(buf, n, s, p, q, stack)
      invariant p > 0 ==> s[0] != '/'
      invariant Run(stack, Split(s[p..])) == Run([], Split(s))
      invariant forall i :: n <= i < buf.Length ==> buf[i] == old(buf[i])
      decreases n - p
    {
      qLast := q;
      var c := buf[p];
      if c == '\0' {
        assert s[p..] == "";
        RunEmpty(stack);
        return;
      } else if c == '.' {
        var good;
        good, p, q, stack := TakeDots(buf, p, q, n, s, stack);
        if !good {
          return;
        }
      } else if c == '/' {
        return;
      } else {
        var done;
        done, p, q, stack := TakeTerm(buf, p, q, n, s, stack);
        if done {
          return true, q, qLast;
        }
      }
      p := SkipSlashes(buf, p, n, s, stack);
    }
  }

  lemma RunEmpty(stack: seq<string>)
    ensures Run(stack, Split("")) == None
  {}

  lemma FirstPart(s: string)
    ensures Split(s)[0] == "" <==> s == "" || s[0] == '/'
    ensures s == "" ==> Resolve(s) == None
  {
    var k := FirstSlash(s);
  }

  // ---------- duk__resolve_module_id ----------

  const LIMIT := 256

  /** The resolution input: a relative request is appended to the requiring module's id, whose own name `..` drops. */
  function Compose(req: string, mod: Option<string>): string {
    if mod.Some? && req != "" && req[0] == '.' then mod.value + "/../" + req else req
  }

  datatype Resolved = Resolved(id: string, last: string)

  /** A C string ends at its first NUL. */
  function CString(s: string): (r: string)
    ensures '\0' !in r && r <= s && ('\0' !in s ==> r == s) && (r != s ==> s[|r|] == '\0')
  {
    if s == "" || s[0] == '\0' then "" else [s[0]] + CString(s[1..])
  }

  /** The resolved id and its last component; too long an input is an error. */
  function ResolveId(req: string, mod: Option<string>): Option<Resolved> {
    var s := Compose(CString(req), if mod.Some? then Some(CString(mod.value)) else None);
    if |s| >= LIMIT || Resolve(s) == None then None
    else
      var ts := Resolve(s).value;
      Some(Resolved(Join(ts), ts[|ts| - 1]))
  }

  method ResolveModuleId(req: string, mod: Option<string>) returns (r: Option<Resolved>)
    ensures r == ResolveId(req, mod)
  {
    hide Resolve, Join, CString;
    var s := Compose(CString(req), if mod.Some? then Some(CString(mod.value)) else None);
    if |s| >= LIMIT {
      return None;
    }
    var buf := new char[LIMIT];
    forall i | 0 <= i < |s| {
      buf[i] := s[i];
    }
    buf[|s|] := '\0';
    assert buf[..|s|] == s;
    var ok, q, qLast := Normalize(buf, |s|);
    r := if ok then Some(Resolved(buf[..q], buf[qLast..q])) else None;
  }

  // ---------- what resolution does ----------

  /** Characters needed by terms with a slash each. */
  function Size(ts: seq<string>): nat {
    if ts == [] then 0 else |ts[0]| + 1 + Size(ts[1..])
  }

  lemma {:induction false} SizeConcat(xs: seq<string>, ys: seq<string>)
    ensures Size(xs + ys) == Size(xs) + Size(ys)
  {
    if xs == [] {
      assert xs + ys == ys;
    } else {
      SizeConcat(xs[1..], ys);
      assert (xs + ys)[1..] == xs[1..] + ys;
    }
  }

  lemma {:induction false} SlashedSize(ts: seq<string>)
    ensures |Slashed(ts)| == Size(ts)
  {
    if ts != [] {
      SlashedSize(ts[..|ts| - 1]);
      SizeConcat(ts[..|ts| - 1], [ts[|ts| - 1]]);
      assert ts == ts[..|ts| - 1] + [ts[|ts| - 1]];
    }
  }

  lemma {:induction false} SplitParts(s: string)
    ensures Size(Split(s)) == |s| + 1
    ensures forall i :: 0 <= i < |Split(s)| ==> '/' !in Split(s)[i]
    decreases |s|
  {
    hide FirstSlash;
    var k := FirstSlash(s);
    if k < |s| {
      SplitParts(s[k + 1..]);
      assert Split(s)[1..] == Split(s[k + 1..]);
    } else {
      assert s[..k] == s;
    }
  }

  lemma {:induction false} RunResult(stack: seq<string>, parts: seq<string>)
    requires parts != [] && Terms(stack) && forall i :: 0 <= i < |parts| ==> '/' !in parts[i]
    ensures Run(stack, parts).Some? ==>
            var ts := Run(stack, parts).value;
            ts != [] && Terms(ts) && Size(ts) <= Size(stack) + Size(parts)
    decreases |parts|
  {
    hide Size;
    if |parts| == 1 {
      SizeConcat(stack, parts);
    } else if Step(stack, parts[0]).Some? {
      var next := Step(stack, parts[0]).value;
      SizeConcat([parts[0]], parts[1..]);
      assert parts == [parts[0]] + parts[1..];
      SizeConcat(stack, [parts[0]]);
      if stack != [] {
        SizeConcat(stack[..|stack| - 1], [stack[|stack| - 1]]);
        assert stack == stack[..|stack| - 1] + [stack[|stack| - 1]];
      }
      assert Size(next) <= Size(stack) + Size([parts[0]]);
      RunResult(next, parts[1..]);
    }
  }

  /** A resolved id consists of names only and is never longer than the input. */
  lemma ResolvedIsCanonical(s: string)
    requires Resolve(s).Some?
    ensures var ts := Resolve(s).value; ts != [] && Terms(ts) && |Join(ts)| <= |s|
  {
    hide Run, Split, Slashed, Size;
    SplitParts(s);
    RunResult([], Split(s));
    var ts := Resolve(s).value;
    EmptySize();
    SlashedSize(ts[..|ts| - 1]);
    SizeConcat(ts[..|ts| - 1], [ts[|ts| - 1]]);
    assert ts == ts[..|ts| - 1] + [ts[|ts| - 1]];
    SizeOne(ts[|ts| - 1]);
  }

  lemma EmptySize()
    ensures Size([]) == 0
  {}

  lemma SizeOne(t: string)
    ensures Size([t]) == |t| + 1
  {}

  lemma SlashAfter(a: string, b: string, k: nat)
    requires k == FirstSlash(a)
    ensures FirstSlash(a + "/" + b) == k && (a + "/" + b)[..k] == a[..k]
  {
    hide FirstSlash;
    assert forall i :: 0 <= i < k ==> a[..k][i] == a[i];
    SlashAt(a + "/" + b, k);
  }

  lemma {:induction false} SplitAt(s: string, k: nat)
    requires k == FirstSlash(s)
    ensures Split(s) == if k == |s| then [s] else [s[..k]] + Split(s[k + 1..])
  {
    hide FirstSlash;
  }

  lemma {:induction false} SplitConcat(a: string, b: string)
    ensures Split(a + "/" + b) == Split(a) + Split(b)
    decreases |a|
  {
    hide FirstSlash, Split;
    var s, k := a + "/" + b, FirstSlash(a);
    SlashAfter(a, b, k);
    SplitAt(a, k);
    SplitAt(s, k);
    if k < |a| {
      SplitConcat(a[k + 1..], b);
      assert s[k + 1..] == a[k + 1..] + "/" + b;
    } else {
      assert s[k + 1..] == b && a[..k] == a;
    }
  }

  lemma {:induction false} SplitName(t: string)
    requires '/' !in t
    ensures Split(t) == [t]
  {
    hide FirstSlash;
  }

  lemma {:induction false} SplitJoin(ts: seq<string>)
    requires ts != [] && forall i :: 0 <= i < |ts| ==> '/' !in ts[i]
    ensures Split(Join(ts)) == ts
    decreases |ts|
  {
    hide Split;
    var init, last := ts[..|ts| - 1], ts[|ts| - 1];
    SplitName(last);
    assert ts == init + [last];
    if init == [] {
      assert Join(ts) == last;
    } else {
      SplitJoin(init);
      SplitConcat(Join(init), last);
      assert Join(ts) == Join(init) + "/" + last;
    }
  }

  lemma {:induction false} RunNames(stack: seq<string>, ts: seq<string>)
    requires ts != [] && Terms(ts)
    ensures Run(stack, ts) == Some(stack + ts)
    decreases |ts|
  {
    if |ts| > 1 {
      RunNames(stack + [ts[0]], ts[1..]);
      assert (stack + [ts[0]]) + ts[1..] == stack + ts;
    }
  }

  /** Resolution is idempotent: an id made of names resolves to itself. */
  lemma ResolveIdempotent(ts: seq<string>)
    requires ts != [] && Terms(ts)
    ensures Resolve(Join(ts)) == Some(ts)
  {
    hide Run, Split, Join;
    SplitJoin(ts);
    RunNames([], ts);
    assert [] + ts == ts;
  }

  lemma {:induction false} RunConcat(stack: seq<string>, ts: seq<string>, parts: seq<string>)
    requires parts != [] && Terms(ts)
    ensures Run(stack, ts + parts) == Run(stack + ts, parts)
    decreases |ts|
  {
    if ts == [] {
      assert ts + parts == parts && stack + ts == stack;
    } else {
      assert (ts + parts)[0] == ts[0] && (ts + parts)[1..] == ts[1..] + parts;
      RunConcat(stack + [ts[0]], ts[1..], parts);
      assert (stack + [ts[0]]) + ts[1..] == stack + ts;
    }
  }

  /** Relative to module `a/b/c` a request starts from `a/b`. */
  lemma RelativeStartsAtParent(ms: seq<string>, req: string)
    requires ms != [] && Terms(ms) && req != "" && req[0] == '.'
    ensures Resolve(Compose(req, Some(Join(ms)))) == Run(ms[..|ms| - 1], Split(req))
  {
    hide Run, Split, Join, Step;
    var mod, parent, last := Join(ms), ms[..|ms| - 1], ms[|ms| - 1];
    assert mod + "/../" + req == mod + "/" + (".." + "/" + req);
    SplitConcat(mod, ".." + "/" + req);
    SplitConcat("..", req);
    SplitName("..");
    SplitJoin(ms);
    RunConcat([], ms, [".."] + Split(req));
    assert [] + ms == ms;
    RunUp(ms, Split(req));
    assert (ms + ([".."] + Split(req)))[0] == ms[0];
  }

  lemma RunUp(stack: seq<string>, parts: seq<string>)
    requires stack != [] && parts != []
    ensures Run(stack, [".."] + parts) == Run(stack[..|stack| - 1], parts)
  {
    assert ([".."] + parts)[1..] == parts;
  }

  /** The parent's id as the base of a request. */
  function AgainstParent(ms: seq<string>, req: string): string
    requires ms != []
  {
    var parent := ms[..|ms| - 1];
    if parent == [] then req else Join(parent) + "/" + req
  }

  /** So it is resolved as if appended to the parent's id, or taken alone for a top-level module. */
  lemma RelativeIsAgainstParent(ms: seq<string>, req: string)
    requires ms != [] && Terms(ms) && req != "" && req[0] == '.'
    ensures Resolve(Compose(req, Some(Join(ms)))) == Resolve(AgainstParent(ms, req))
  {
    hide Run, Split, Join;
    RelativeStartsAtParent(ms, req);
    var parent := ms[..|ms| - 1];
    if parent == [] {
      FirstPart(req);
    } else {
      SplitJoin(parent);
      SplitConcat(Join(parent), req);
      RunConcat([], parent, Split(req));
      assert [] + parent == parent;
    }
  }

  /** The same at the interface, where the composed input must fit the buffer: the length of the module's own id counts,
      and apart from that only its parent matters. */
  lemma RelativeIdAgainstParent(ms: seq<string>, req: string)
    requires ms != [] && Terms(ms) && Clean(ms) && req != "" && req[0] == '.'
    ensures ResolveId(req, Some(Join(ms))) ==
            if |Join(ms)| + 4 + |CString(req)| >= LIMIT then None else ResolveId(AgainstParent(ms, CString(req)), None)
  {
    hide Resolve, Join, CString, AgainstParent;
    FirstChar(req);
    RelativeIsAgainstParent(ms, CString(req));
    JoinClean(ms);
    AgainstParentFits(ms, CString(req));
  }

  lemma FirstChar(req: string)
    requires req != "" && req[0] == '.'
    ensures CString(req) != "" && CString(req)[0] == '.'
  {}

  lemma AgainstParentFits(ms: seq<string>, r: string)
    requires ms != [] && Terms(ms) && Clean(ms) && '\0' !in r
    ensures '\0' !in AgainstParent(ms, r) && |AgainstParent(ms, r)| <= |Join(ms)| + 4 + |r|
  {
    hide Join;
    var parent := ms[..|ms| - 1];
    if parent != [] {
      JoinClean(parent);
      ParentIsShorter(ms);
    }
  }

  lemma ParentIsShorter(ms: seq<string>)
    requires |ms| > 1
    ensures |Join(ms[..|ms| - 1])| < |Join(ms)|
  {
    var parent := ms[..|ms| - 1];
    assert Slashed(parent) == Join(parent) + "/";
  }

  lemma JoinClean(ts: seq<string>)
    requires ts != [] && Terms(ts) && Clean(ts)
    ensures '\0' !in Join(ts) && Join(ts) != "" && Join(ts)[0] != '.'
  {
    hide Slashed;
    SlashedChars(ts[..|ts| - 1]);
    SlashedEnds(ts[..|ts| - 1]);
  }

  /** Resolving a resolved id in any module gives it back. */
  lemma ResolvedIdIsStable(req: string, mod: Option<string>, other: Option<string>)
    requires ResolveId(req, mod).Some?
    ensures ResolveId(ResolveId(req, mod).value.id, other) == ResolveId(req, mod)
  {
    hide Resolve, Join, CString;
    var s := Compose(CString(req), if mod.Some? then Some(CString(mod.value)) else None);
    var ts := Resolve(s).value;
    ResolvedIsCanonical(s);
    ResolveIdempotent(ts);
    JoinChars(ts, s);
  }

  predicate Clean(ts: seq<string>) {
    forall i :: 0 <= i < |ts| ==> '\0' !in ts[i]
  }

  lemma {:induction false} SplitClean(s: string)
    requires '\0' !in s
    ensures Clean(Split(s))
    decreases |s|
  {
    hide FirstSlash;
    var k := FirstSlash(s);
    if k < |s| {
      SplitClean(s[k + 1..]);
    }
  }

  lemma {:induction false} RunClean(stack: seq<string>, parts: seq<string>)
    requires parts != [] && Clean(stack) && Clean(parts)
    ensures Run(stack, parts).Some? ==> Clean(Run(stack, parts).value)
    decreases |parts|
  {
    if |parts| > 1 && Step(stack, parts[0]).Some? {
      RunClean(Step(stack, parts[0]).value, parts[1..]);
    }
  }

  lemma {:induction false} SlashedChars(ts: seq<string>)
    requires Clean(ts) && Terms(ts)
    ensures '\0' !in Slashed(ts) && (ts != [] ==> Slashed(ts) != "" && Slashed(ts)[0] != '.')
  {
    if ts != [] {
      SlashedChars(ts[..|ts| - 1]);
    }
  }

  lemma JoinChars(ts: seq<string>, s: string)
    requires Resolve(s) == Some(ts) && '\0' !in s
    ensures '\0' !in Join(ts) && Join(ts) != "" && Join(ts)[0] != '.'
  {
    hide Run, Split, Slashed;
    ResolvedIsCanonical(s);
    SplitClean(s);
    RunClean([], Split(s));
    JoinClean(ts);
  }

  // ---------- what a request means, without the stack ----------

  /** The parts a request may have. */
  predicate Legal(part: string) {
    part == "" || part == "." || part == ".." || Plain(part)
  }

  /** How many levels the parts descend: names count up, `..` counts down. */
  function Descent(parts: seq<string>): int {
    if parts == [] then 0 else Descent(parts[..|parts| - 1]) + Level(parts[|parts| - 1])
  }

  function Level(part: string): int {
    if Plain(part) then 1 else if part == ".." then -1 else 0
  }

  /** Starting `depth` levels down, the parts never climb above the root. */
  ghost predicate StaysInside(depth: int, parts: seq<string>) {
    forall k :: 0 <= k <= |parts| ==> depth + Descent(parts[..k]) >= 0
  }

  /** The names that no later `..` cancels, read from the right; `ups` are the `..` still to be used. */
  function Surviving(parts: seq<string>, ups: nat): seq<string> {
    if parts == [] then []
    else
      var init, last := parts[..|parts| - 1], parts[|parts| - 1];
      if last == ".." then Surviving(init, ups + 1)
      else if !Plain(last) then Surviving(init, ups)
      else if ups > 0 then Surviving(init, ups - 1)
      else Surviving(init, 0) + [last]
  }

  lemma {:induction false} DescentFirst(part: string, parts: seq<string>)
    ensures Descent([part] + parts) == Level(part) + Descent(parts)
    decreases |parts|
  {
    hide Level;
    var all := [part] + parts;
    if parts == [] {
      assert all[..0] == [];
    } else {
      DescentFirst(part, parts[..|parts| - 1]);
      assert all[..|all| - 1] == [part] + parts[..|parts| - 1];
    }
  }

  lemma StaysInsideFirst(depth: int, parts: seq<string>)
    requires parts != []
    ensures StaysInside(depth, parts) <==> depth >= 0 && StaysInside(depth + Level(parts[0]), parts[1..])
  {
    hide Level, Descent;
    EmptyDescent();
    forall k | 0 <= k <= |parts| - 1
      ensures Descent(parts[..k + 1]) == Level(parts[0]) + Descent(parts[1..][..k])
    {
      DescentFirst(parts[0], parts[1..][..k]);
      assert parts[..k + 1] == [parts[0]] + parts[1..][..k];
    }
    assert parts[..0] == [];
    if StaysInside(depth, parts) {
      forall k | 0 <= k <= |parts[1..]|
        ensures depth + Level(parts[0]) + Descent(parts[1..][..k]) >= 0
      {
        assert depth + Descent(parts[..k + 1]) >= 0;
      }
    } else {
      var k :| 0 <= k <= |parts| && depth + Descent(parts[..k]) < 0;
      if k > 0 {
        assert depth + Level(parts[0]) + Descent(parts[1..][..k - 1]) < 0;
      }
    }
  }

  lemma EmptyDescent()
    ensures Descent([]) == 0
  {}

  /** When a run succeeds, said of the parts alone. */
  lemma {:induction false} RunSucceedsIff(stack: seq<string>, parts: seq<string>)
    requires parts != []
    ensures Run(stack, parts).Some? <==>
            && Plain(parts[|parts| - 1])
            && (forall i :: 0 <= i < |parts| ==> Legal(parts[i]))
            && StaysInside(|stack|, parts)
    decreases |parts|
  {
    hide StaysInside, Descent;
    StaysInsideFirst(|stack|, parts);
    if |parts| == 1 {
      InsideNothing(|stack| + Level(parts[0]));
      assert parts[1..] == [];
    } else {
      assert forall i :: 1 <= i < |parts| ==> parts[i] == parts[1..][i - 1];
      if Step(stack, parts[0]).Some? {
        RunSucceedsIff(Step(stack, parts[0]).value, parts[1..]);
      } else if parts[0] == ".." {
        NegativeDepth(|stack| - 1, parts[1..]);
      }
    }
  }

  lemma InsideNothing(depth: int)
    ensures StaysInside(depth, []) <==> depth >= 0
  {
    var none: seq<string> := [];
    assert none[..0] == none;
  }

  lemma NegativeDepth(depth: int, parts: seq<string>)
    requires depth < 0
    ensures !StaysInside(depth, parts)
  {
    assert parts[..0] == [];
  }

  /** What has the same survivors can be exchanged in front of anything. */
  lemma {:induction false} SameSurvivors(xs: seq<string>, ys: seq<string>, parts: seq<string>, ups: nat)
    requires forall u: nat :: Surviving(xs, u) == Surviving(ys, u)
    ensures Surviving(xs + parts, ups) == Surviving(ys + parts, ups)
    decreases |parts|
  {
    if parts == [] {
      assert xs + parts == xs && ys + parts == ys;
    } else {
      var init, last := parts[..|parts| - 1], parts[|parts| - 1];
      var a, b := xs + parts, ys + parts;
      assert a[..|a| - 1] == xs + init && b[..|b| - 1] == ys + init;
      SameSurvivors(xs, ys, init, if last == ".." then ups + 1 else if !Plain(last) || ups == 0 then ups else ups - 1);
    }
  }

  lemma StepSurvives(stack: seq<string>, part: string, ups: nat)
    requires Terms(stack) && Step(stack, part).Some?
    ensures Surviving(stack + [part], ups) == Surviving(Step(stack, part).value, ups)
  {
    assert (stack + [part])[..|stack|] == stack;
  }

  lemma {:induction false} NamesSurvive(ts: seq<string>)
    requires Terms(ts)
    ensures Surviving(ts, 0) == ts
  {
    if ts != [] {
      NamesSurvive(ts[..|ts| - 1]);
    }
  }

  /** What a run leaves: the names of stack and parts that survive. */
  lemma {:induction false} RunLeavesSurvivors(stack: seq<string>, parts: seq<string>)
    requires parts != [] && Terms(stack) && Run(stack, parts).Some?
    requires forall i :: 0 <= i < |parts| ==> '/' !in parts[i]
    ensures Run(stack, parts).value == Surviving(stack + parts, 0)
    decreases |parts|
  {
    hide Surviving;
    if |parts| == 1 {
      NamesSurvive(stack + parts);
    } else {
      var next := Step(stack, parts[0]).value;
      RunLeavesSurvivors(next, parts[1..]);
      forall u: nat
        ensures Surviving(stack + [parts[0]], u) == Surviving(next, u)
      {
        StepSurvives(stack, parts[0], u);
      }
      SameSurvivors(stack + [parts[0]], next, parts[1..], 0);
      assert stack + parts == (stack + [parts[0]]) + parts[1..];
    }
  }

  /** The meaning of an identifier: it resolves exactly when it starts with no slash, has only legal parts and a name at
      the end, and never climbs above the root; then it resolves to the names that no `..` cancels. */
  lemma ResolveMeans(s: string)
    ensures var parts := Split(s);
            && (Resolve(s).Some? <==>
                  && s != "" && s[0] != '/'
                  && Plain(parts[|parts| - 1]) && (forall i :: 0 <= i < |parts| ==> Legal(parts[i]))
                  && StaysInside(0, parts))
            && (Resolve(s).Some? ==> Resolve(s).value == Surviving(parts, 0))
  {
    hide Run, Split, StaysInside, Surviving;
    FirstPart(s);
    SplitParts(s);
    RunSucceedsIff([], Split(s));
    if Resolve(s).Some? {
      RunLeavesSurvivors([], Split(s));
      assert [] + Split(s) == Split(s);
    }
  }

  // ---------- requests as modules write them ----------

  lemma RunDot(stack: seq<string>, parts: seq<string>)
    requires parts != []
    ensures Run(stack, ["."] + parts) == Run(stack, parts)
  {
    assert (["."] + parts)[1..] == parts;
  }

  lemma SplitPrefixed(prefix: string, xs: seq<string>)
    requires xs != [] && Terms(xs) && '/' !in prefix
    ensures Split(prefix + "/" + Join(xs)) == [prefix] + xs
  {
    hide Split, Join;
    SplitConcat(prefix, Join(xs));
    SplitName(prefix);
    SplitJoin(xs);
  }

  /** `./x` and `../x` from module `m`, whose parent's terms are all of its own but the last: beside the parent, and
      beside the parent's parent, which a top-level module does not have. */
  lemma RelativeRequest(ms: seq<string>, xs: seq<string>)
    requires ms != [] && Terms(ms) && Clean(ms) && xs != [] && Terms(xs) && Clean(xs)
    ensures var parent := ms[..|ms| - 1];
            ResolveId("./" + Join(xs), Some(Join(ms))) ==
            if |Join(ms)| + |Join(xs)| + 6 >= 256 then None
            else Some(Resolved(Join(parent + xs), xs[|xs| - 1]))
    ensures var parent := ms[..|ms| - 1];
            ResolveId("../" + Join(xs), Some(Join(ms))) ==
            if parent == [] || |Join(ms)| + |Join(xs)| + 7 >= 256 then None
            else Some(Resolved(Join(parent[..|parent| - 1] + xs), xs[|xs| - 1]))
  {
    hide Run, Split, Join, Resolve, CString, Step;
    var parent := ms[..|ms| - 1];
    JoinClean(ms);
    JoinClean(xs);
    var dot, up := "." + "/" + Join(xs), ".." + "/" + Join(xs);
    assert "./" + Join(xs) == dot && "../" + Join(xs) == up;
    RelativeStartsAtParent(ms, dot);
    RelativeStartsAtParent(ms, up);
    SplitPrefixed(".", xs);
    SplitPrefixed("..", xs);
    RunDot(parent, xs);
    RunNames(parent, xs);
    if parent == [] {
      RunUpFails(xs);
    } else {
      RunUp(parent, xs);
      RunNames(parent[..|parent| - 1], xs);
    }
  }

  lemma RunUpFails(parts: seq<string>)
    requires parts != []
    ensures Run([], [".."] + parts) == None
  {}

  /** Without a requiring module `./x` is x and `../x` is an error. */
  lemma TopLevelRequest(xs: seq<string>)
    requires xs != [] && Terms(xs) && Clean(xs)
    ensures ResolveId("./" + Join(xs), None) ==
            if |Join(xs)| + 2 >= 256 then None else Some(Resolved(Join(xs), xs[|xs| - 1]))
    ensures ResolveId("../" + Join(xs), None) == None
  {
    hide Run, Split, Join, CString;
    JoinClean(xs);
    var dot, up := "." + "/" + Join(xs), ".." + "/" + Join(xs);
    assert "./" + Join(xs) == dot && "../" + Join(xs) == up;
    SplitPrefixed(".", xs);
    SplitPrefixed("..", xs);
    RunDot([], xs);
    RunNames([], xs);
    RunUpFails(xs);
    assert [] + xs == xs;
  }

  /** Any other request ignores the requiring module; one made of names is its own id. */
  lemma AbsoluteRequest(req: string, xs: seq<string>, mod: Option<string>)
    requires req == "" || req[0] != '.'
    requires xs != [] && Terms(xs) && Clean(xs)
    ensures ResolveId(req, mod) == ResolveId(req, None)
    ensures ResolveId(Join(xs), mod) ==
            if |Join(xs)| >= 256 then None else Some(Resolved(Join(xs), xs[|xs| - 1]))
  {
    hide Resolve, Join;
    JoinClean(xs);
    ResolveIdempotent(xs);
  }
}
