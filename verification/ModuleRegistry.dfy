/** The module registry of jsengine/duk_module_duktape.c: a module is registered before its code runs and
    unregistered if that fails. Searching for, compiling and running a module is any finite script of
    further requires that ends in success or an exception. */
module ModuleRegistry {
  import opened Options
  import opened ModuleId
  import FiniteSets

  /** The module object: the id it was made for and its identity. */
  datatype Module = Module(id: string, serial: nat)

  /** Which require function is called: the module's own, the global one, or one handed over by another module. */
  datatype Base = Own | Global | Other(id: string)

  function BaseId(base: Base, id: string): Option<string> {
    match base
    case Own => Some(id)
    case Global => None
    case Other(other) => Some(other)
  }

  /** `caught`: the script survives an exception from this require. `body` runs if the require starts a load. */
  datatype Script = Done | Throw | Require(base: Base, req: string, caught: bool, body: Script, rest: Script)

  datatype Event = Start(id: string) | Fail(id: string)

  datatype State = State(loaded: map<string, Module>, serial: nat, log: seq<Event>)

  /** Result of a require: the module whose exports are returned, or an exception. */
  type Outcome = Option<Module>

  // ---------- the protocol on values ----------

  function Started(s: State, id: string): State {
    State(s.loaded[id := Module(id, s.serial)], s.serial + 1, s.log + [Start(id)])
  }

  function Failed(s: State, id: string): State {
    State(s.loaded - {id}, s.serial, s.log + [Fail(id)])
  }

  function Load(s: State, req: string, mod: Option<string>, body: Script): (State, Outcome)
    decreases body, 1
  {
    match ResolveId(req, mod)
    case None => (s, None)
    case Some(Resolved(id, _)) =>
      if id in s.loaded then (s, Some(s.loaded[id]))
      else
        var (s', ok) := Exec(Started(s, id), id, body);
        if ok then (s', Some(Module(id, s.serial))) else (Failed(s', id), None)
  }

  function Exec(s: State, id: string, script: Script): (State, bool)
    decreases script, 0
  {
    match script
    case Done => (s, true)
    case Throw => (s, false)
    case Require(base, req, caught, body, rest) =>
      var (s', r) := Load(s, req, BaseId(base, id), body);
      if r.None? && !caught then (s', false) else Exec(s', id, rest)
  }

  // ---------- the protocol as the source runs it ----------

  class Loader {
    var modLoaded: map<string, Module>
    var serial: nat
    ghost var log: seq<Event>

    ghost function Snapshot(): State
      reads this
    {
      State(modLoaded, serial, log)
    }

    constructor ()
      ensures Snapshot() == State(map[], 0, [])
    {
      modLoaded, serial, log := map[], 0, [];
    }

    /** `duk__require`. */
    method RequireModule(req: string, mod: Option<string>, body: Script) returns (r: Outcome)
      modifies this
      ensures (Snapshot(), r) == Load(old(Snapshot()), req, mod, body)
      decreases body, 1
    {
      hide ResolveId;
      var resolved := ResolveModuleId(req, mod);
      if resolved == None {
        return None;
      }
      var id := resolved.value.id;
      if id in modLoaded {
        return Some(modLoaded[id]);
      }
      var made := Module(id, serial);
      serial := serial + 1;
      modLoaded := modLoaded[id := made];
      log := log + [Start(id)];
      var ok := RunModule(id, body);
      if !ok {
        modLoaded := modLoaded - {id};
        log := log + [Fail(id)];
        return None;
      }
      return Some(made);
    }

    /** The module's own code; its own require function resolves against its id. */
    method RunModule(id: string, script: Script) returns (ok: bool)
      modifies this
      ensures (Snapshot(), ok) == Exec(old(Snapshot()), id, script)
      decreases script, 0
    {
      match script
      case Done => ok := true;
      case Throw => ok := false;
      case Require(base, req, caught, body, rest) =>
        var r := RequireModule(req, BaseId(base, id), body);
        if r.None? && !caught {
          return false;
        }
        ok := RunModule(id, rest);
    }
  }

  // ---------- registered modules stay ----------

  predicate Extends(a: map<string, Module>, b: map<string, Module>) {
    forall id :: id in a ==> id in b && b[id] == a[id]
  }

  /** An id registered on entry is registered to the same module on exit, however the call ends. */
  lemma {:induction false} LoadExtends(s: State, req: string, mod: Option<string>, body: Script)
    ensures Extends(s.loaded, Load(s, req, mod, body).0.loaded)
    decreases body, 1
  {
    hide ResolveId;
    match ResolveId(req, mod)
    case None =>
    case Some(Resolved(id, _)) =>
      if id !in s.loaded {
        ExecExtends(Started(s, id), id, body);
      }
  }

  lemma {:induction false} ExecExtends(s: State, id: string, script: Script)
    ensures Extends(s.loaded, Exec(s, id, script).0.loaded)
    decreases script, 0
  {
    match script
    case Done =>
    case Throw =>
    case Require(base, req, _, body, rest) =>
      LoadExtends(s, req, BaseId(base, id), body);
      ExecExtends(Load(s, req, BaseId(base, id), body).0, id, rest);
  }

  /** After a require the id is registered, to the module returned, exactly when no exception came;
      a failing load leaves it unregistered. */
  lemma LoadRegisters(s: State, req: string, mod: Option<string>, body: Script)
    requires ResolveId(req, mod).Some?
    ensures var id := ResolveId(req, mod).value.id;
            var (s', r) := Load(s, req, mod, body);
            if r.Some? then id in s'.loaded && s'.loaded[id] == r.value else id !in s'.loaded
  {
    hide ResolveId;
    var id := ResolveId(req, mod).value.id;
    if id !in s.loaded {
      ExecExtends(Started(s, id), id, body);
    }
  }

  /** While a module is loading, every require of its id returns that very module, after any code that has run since,
      be it the module's own or that of a module it has caused to load. */
  lemma CyclicRequire(s: State, id: string, runner: string, script: Script, req: string, mod: Option<string>,
                      body: Script)
    requires id in s.loaded && ResolveId(req, mod).Some? && ResolveId(req, mod).value.id == id
    ensures var s' := Exec(s, runner, script).0; Load(s', req, mod, body) == (s', Some(s.loaded[id]))
  {
    hide ResolveId;
    ExecExtends(s, runner, script);
  }

  // ---------- which loads succeed ----------

  /** The id a require asks for. */
  function Target(base: Base, id: string, req: string): Option<string> {
    var resolved := match base
      case Own => ResolveId(req, Some(id))
      case Global => ResolveId(req, None)
      case Other(other) => ResolveId(req, Some(other));
    if resolved.Some? then Some(resolved.value.id) else None
  }

  /** A script of module `id` ends well if it comes to `Done`: every require on the way succeeds or is caught. This
      depends on the script and on which ids are registered, not on the modules behind them. */
  predicate EndsWell(ids: set<string>, id: string, script: Script)
    decreases script, 0
  {
    match script
    case Done => true
    case Throw => false
    case Require(base, req, caught, body, rest) =>
      var target := Target(base, id, req);
      (caught || Succeeds(ids, target, body)) && EndsWell(Registered(ids, target, body), id, rest)
  }

  /** A require succeeds if its id is registered already or its module's script ends well. */
  predicate Succeeds(ids: set<string>, target: Option<string>, body: Script)
    decreases body, 1
  {
    target.Some? && (target.value in ids || EndsWell(ids + {target.value}, target.value, body))
  }

  /** The ids registered after a require: what its script has registered, but not the id itself if that failed. */
  function Registered(ids: set<string>, target: Option<string>, body: Script): set<string>
    decreases body, 2
  {
    if target == None || target.value in ids then ids
    else
      var after := RegisteredBy(ids + {target.value}, target.value, body);
      if Succeeds(ids, target, body) then after else after - {target.value}
  }

  function RegisteredBy(ids: set<string>, id: string, script: Script): set<string>
    decreases script, 0
  {
    match script
    case Done => ids
    case Throw => ids
    case Require(base, req, caught, body, rest) =>
      var target := Target(base, id, req);
      var after := Registered(ids, target, body);
      if caught || Succeeds(ids, target, body) then RegisteredBy(after, id, rest) else after
  }

  function Requested(req: string, mod: Option<string>): Option<string> {
    if mod.Some? then Target(Own, mod.value, req) else Target(Global, "", req)
  }

  /** What a require answers and which ids it leaves registered, for every state and every script. */
  lemma {:induction false} LoadOutcome(s: State, req: string, mod: Option<string>, body: Script, target: Option<string>)
    requires target == Requested(req, mod)
    ensures var (s', r) := Load(s, req, mod, body);
            && (r.Some? <==> Succeeds(s.loaded.Keys, target, body))
            && (r.Some? ==>
                  var id := target.value; r.value == if id in s.loaded then s.loaded[id] else Module(id, s.serial))
            && s'.loaded.Keys == Registered(s.loaded.Keys, target, body)
    decreases body, 1
  {
    hide ResolveId;
    if target.Some? && target.value !in s.loaded {
      var id := target.value;
      assert Started(s, id).loaded.Keys == s.loaded.Keys + {id};
      ScriptOutcome(Started(s, id), id, body);
      var s' := Exec(Started(s, id), id, body).0;
      assert Failed(s', id).loaded.Keys == s'.loaded.Keys - {id};
    }
  }

  lemma {:induction false} ScriptOutcome(s: State, id: string, script: Script)
    ensures var (s', ok) := Exec(s, id, script);
            ok == EndsWell(s.loaded.Keys, id, script) && s'.loaded.Keys == RegisteredBy(s.loaded.Keys, id, script)
    decreases script, 0
  {
    hide ResolveId, Succeeds, Registered;
    match script
    case Done =>
    case Throw =>
    case Require(base, req, caught, body, rest) =>
      var target := Target(base, id, req);
      var (s', r) := Load(s, req, BaseId(base, id), body);
      LoadOutcome(s, req, BaseId(base, id), body, target);
      ScriptOutcome(s', id, rest);
  }

  predicate AllCaught(script: Script) {
    script.Require? ==> script.caught && AllCaught(script.rest)
  }

  function LastStep(script: Script): Script {
    if script.Require? then LastStep(script.rest) else script
  }

  /** A script that catches every exception ends as its last step does, whatever its requires come to. */
  lemma {:induction false} CatchingScript(ids: set<string>, id: string, script: Script)
    requires AllCaught(script)
    ensures EndsWell(ids, id, script) <==> LastStep(script) == Done
    decreases script
  {
    hide Succeeds, Registered, Target;
    if script.Require? {
      CatchingScript(Registered(ids, Target(script.base, id, script.req), script.body), id, script.rest);
    }
  }

  /** The two ends of a first load: code that runs through is registered and returned, code that throws at once leaves
      the registry as it was. */
  lemma FirstLoad(s: State, req: string, mod: Option<string>, id: string)
    requires Requested(req, mod) == Some(id) && id !in s.loaded
    ensures var (s', r) := Load(s, req, mod, Done);
            r == Some(Module(id, s.serial)) && s'.loaded == s.loaded[id := Module(id, s.serial)]
    ensures var (s', r) := Load(s, req, mod, Throw);
            r == None && s'.loaded == s.loaded
  {
    hide ResolveId;
    assert (s.loaded[id := Module(id, s.serial)]) - {id} == s.loaded;
  }

  /** A module that loaded stays when the one that required it fails after all. */
  lemma NestedStays(s: State, req: string, mod: Option<string>, id: string, inner: string, r: string, body: Script)
    requires Requested(req, mod) == Some(id) && id !in s.loaded
    requires Target(Own, id, r) == Some(inner) && inner !in s.loaded && inner != id && AllCaught(body)
    requires LastStep(body) == Done
    ensures var (s', o) := Load(s, req, mod, Require(Own, r, false, body, Throw));
            o == None && id !in s'.loaded && inner in s'.loaded
  {
    hide ResolveId, Load, Target;
    var script, ids := Require(Own, r, false, body, Throw), s.loaded.Keys + {id};
    LoadOutcome(s, req, mod, script, Some(id));
    CatchingScript(ids + {inner}, inner, body);
    ScriptKeeps(ids + {inner}, inner, body);
    assert Registered(ids, Some(inner), body) == RegisteredBy(ids + {inner}, inner, body);
    assert RegisteredBy(ids, id, script) == Registered(ids, Some(inner), body);
    assert !EndsWell(ids, id, script);
  }

  /** Scripts only add to the ids registered before them. */
  lemma {:induction false} ScriptKeeps(ids: set<string>, id: string, script: Script)
    ensures ids <= RegisteredBy(ids, id, script)
    decreases script
  {
    hide Succeeds, Target;
    if script.Require? {
      var target := Target(script.base, id, script.req);
      if target.Some? {
        ScriptKeeps(ids + {target.value}, target.value, script.body);
      }
      ScriptKeeps(Registered(ids, target, script.body), id, script.rest);
    }
  }

  // ---------- the log of loads ----------

  /** The ids in progress or loaded after a log of events; `None` if some load started on top of another. */
  function Replay(log: seq<Event>): Option<set<string>> {
    if log == [] then Some({})
    else
      match Replay(log[..|log| - 1])
      case None => None
      case Some(ids) =>
        match log[|log| - 1]
        case Start(id) => if id in ids then None else Some(ids + {id})
        case Fail(id) => if id in ids then Some(ids - {id}) else None
  }

  /** The registry is what the log says, its modules are named by their keys, and no two share an identity. */
  ghost predicate Valid(s: State) {
    && Replay(s.log) == Some(s.loaded.Keys)
    && (forall id :: id in s.loaded ==> s.loaded[id].id == id && s.loaded[id].serial < s.serial)
    && (forall i, j :: i in s.loaded && j in s.loaded && i != j ==> s.loaded[i].serial != s.loaded[j].serial)
  }

  lemma ReplayNext(log: seq<Event>, e: Event)
    ensures Replay(log + [e]) ==
            match Replay(log)
            case None => None
            case Some(ids) =>
              if e.Start? then if e.id in ids then None else Some(ids + {e.id})
              else if e.id in ids then Some(ids - {e.id}) else None
  {
    assert (log + [e])[..|log|] == log;
  }

  lemma StartedValid(s: State, id: string)
    requires Valid(s) && id !in s.loaded
    ensures Valid(Started(s, id))
  {
    hide Replay;
    ReplayNext(s.log, Start(id));
    assert Started(s, id).loaded.Keys == s.loaded.Keys + {id};
  }

  lemma FailedValid(s: State, id: string)
    requires Valid(s) && id in s.loaded
    ensures Valid(Failed(s, id))
  {
    hide Replay;
    ReplayNext(s.log, Fail(id));
    assert Failed(s, id).loaded.Keys == s.loaded.Keys - {id};
  }

  /** Every run keeps the invariant, so a module in progress or loaded is never started again. */
  lemma {:induction false} LoadValid(s: State, req: string, mod: Option<string>, body: Script)
    requires Valid(s)
    ensures Valid(Load(s, req, mod, body).0) && s.log <= Load(s, req, mod, body).0.log
    decreases body, 1
  {
    hide ResolveId, Valid, Started, Failed;
    match ResolveId(req, mod)
    case None =>
    case Some(Resolved(id, _)) =>
      if id !in s.loaded {
        StartedValid(s, id);
        ExecValid(Started(s, id), id, body);
        LogGrows(s, id);
        ExecKeeps(s, id, body);
        var s' := Exec(Started(s, id), id, body).0;
        FailedValid(s', id);
        LogGrows(s', id);
      }
  }

  lemma LogGrows(s: State, id: string)
    ensures s.log <= Started(s, id).log && s.log <= Failed(s, id).log
  {}

  lemma ExecKeeps(s: State, id: string, body: Script)
    ensures id in Exec(Started(s, id), id, body).0.loaded
  {
    ExecExtends(Started(s, id), id, body);
  }

  lemma {:induction false} ExecValid(s: State, id: string, script: Script)
    requires Valid(s)
    ensures Valid(Exec(s, id, script).0) && s.log <= Exec(s, id, script).0.log
    decreases script, 0
  {
    hide Valid;
    match script
    case Done =>
    case Throw =>
    case Require(base, req, _, body, rest) =>
      LoadValid(s, req, BaseId(base, id), body);
      ExecValid(Load(s, req, BaseId(base, id), body).0, id, rest);
  }

  lemma {:induction false} PrefixReplays(log: seq<Event>, k: nat)
    requires Replay(log).Some? && k <= |log|
    ensures Replay(log[..k]).Some?
    decreases |log|
  {
    if k == |log| {
      assert log[..k] == log;
    } else {
      PrefixReplays(log[..|log| - 1], k);
      assert log[..|log| - 1][..k] == log[..k];
    }
  }

  /** Once started and not failed, an id stays registered along the log. */
  lemma {:induction false} StaysUntilFail(log: seq<Event>, i: nat, id: string)
    requires Replay(log).Some? && i < |log| && log[i] == Start(id)
    requires forall k :: i < k < |log| ==> log[k] != Fail(id)
    ensures id in Replay(log).value
    decreases |log|
  {
    if i < |log| - 1 {
      PrefixReplays(log, |log| - 1);
      StaysUntilFail(log[..|log| - 1], i, id);
    }
  }

  /** In any log the registry can write, two starts of one id have a failure of it in between. */
  lemma NoRestart(log: seq<Event>, i: nat, j: nat, id: string)
    requires Replay(log).Some? && i < j < |log| && log[i] == Start(id) && log[j] == Start(id)
    ensures exists k :: i < k < j && log[k] == Fail(id)
  {
    PrefixReplays(log, j + 1);
    PrefixReplays(log, j);
    assert log[..j + 1][..j] == log[..j];
    if forall k :: i < k < j ==> log[k] != Fail(id) {
      StaysUntilFail(log[..j], i, id);
    }
  }

  // ---------- nesting ----------

  /** How deep loads are nested during a require, and during a script. */
  function LoadDepth(s: State, req: string, mod: Option<string>, body: Script): nat
    decreases body, 1
  {
    match ResolveId(req, mod)
    case None => 0
    case Some(Resolved(id, _)) => if id in s.loaded then 0 else 1 + ExecDepth(Started(s, id), id, body)
  }

  function ExecDepth(s: State, id: string, script: Script): nat
    decreases script, 0
  {
    match script
    case Done => 0
    case Throw => 0
    case Require(base, req, caught, body, rest) =>
      var (s', r) := Load(s, req, BaseId(base, id), body);
      var here := LoadDepth(s, req, BaseId(base, id), body);
      var later := if r.None? && !caught then 0 else ExecDepth(s', id, rest);
      if here >= later then here else later
  }

  /** All loads that the log records after its first `k` events are of ids in `ids`. */
  predicate StartsWithin(log: seq<Event>, k: nat, ids: set<string>) {
    forall i :: k <= i < |log| && log[i].Start? ==> log[i].id in ids
  }

  lemma WithinPrefix(a: seq<Event>, b: seq<Event>, k: nat, m: nat, ids: set<string>)
    requires a <= b && k <= m && StartsWithin(b, k, ids)
    ensures StartsWithin(a, m, ids)
  {
    assert forall i :: 0 <= i < |a| ==> a[i] == b[i];
  }

  lemma OneFewer(ids: set<string>, a: set<string>, b: set<string>, id: string)
    requires id in ids && id !in a && b == a + {id}
    ensures |ids - a| == |ids - b| + 1
  {
    assert ids - a == (ids - b) + {id};
  }

  lemma FewerLeft(ids: set<string>, a: set<string>, b: set<string>)
    requires a <= b
    ensures |ids - b| <= |ids - a|
  {
    FiniteSets.SubsetSize(ids - b, ids - a);
  }

  lemma LoadUnfolds(s: State, req: string, mod: Option<string>, body: Script, id: string)
    requires Valid(s) && ResolveId(req, mod).Some? && id == ResolveId(req, mod).value.id && id !in s.loaded
    ensures LoadDepth(s, req, mod, body) == 1 + ExecDepth(Started(s, id), id, body)
    ensures var end := Load(s, req, mod, body).0.log;
            && Exec(Started(s, id), id, body).0.log <= end
            && |s.log| < |end| && end[|s.log|] == Start(id)
    ensures Started(s, id).loaded.Keys == s.loaded.Keys + {id} && |Started(s, id).log| == |s.log| + 1
    ensures Valid(Started(s, id))
  {
    hide ResolveId, Valid, Exec, ExecDepth;
    StartedValid(s, id);
    ExecValid(Started(s, id), id, body);
    assert Started(s, id).log[|s.log|] == Start(id);
  }

  /** Nesting is no deeper than the number of ids not registered yet, cyclic requires included. */
  lemma {:induction false} LoadDepthBound(s: State, req: string, mod: Option<string>, body: Script, ids: set<string>)
    requires Valid(s) && StartsWithin(Load(s, req, mod, body).0.log, |s.log|, ids)
    ensures LoadDepth(s, req, mod, body) <= |ids - s.loaded.Keys|
    decreases body, 1
  {
    hide ResolveId, Valid, Exec, ExecDepth, Load, Started;
    match ResolveId(req, mod)
    case None =>
    case Some(Resolved(id, _)) =>
      if id !in s.loaded {
        var s1 := Started(s, id);
        LoadUnfolds(s, req, mod, body, id);
        WithinPrefix(Exec(s1, id, body).0.log, Load(s, req, mod, body).0.log, |s.log|, |s1.log|, ids);
        ExecDepthBound(s1, id, body, ids);
        OneFewer(ids, s.loaded.Keys, s1.loaded.Keys, id);
      }
  }

  lemma {:induction false} ExecDepthBound(s: State, id: string, script: Script, ids: set<string>)
    requires Valid(s) && StartsWithin(Exec(s, id, script).0.log, |s.log|, ids)
    ensures ExecDepth(s, id, script) <= |ids - s.loaded.Keys|
    decreases script, 0
  {
    hide ResolveId, Valid, Load, LoadDepth;
    match script
    case Done =>
    case Throw =>
    case Require(base, req, caught, body, rest) =>
      var (s', r) := Load(s, req, BaseId(base, id), body);
      LoadValid(s, req, BaseId(base, id), body);
      LoadExtends(s, req, BaseId(base, id), body);
      FewerLeft(ids, s.loaded.Keys, s'.loaded.Keys);
      var end := Exec(s, id, script).0;
      if !(r.None? && !caught) {
        ExecValid(s', id, rest);
        WithinPrefix(end.log, end.log, |s.log|, |s'.log|, ids);
        ExecDepthBound(s', id, rest, ids);
      }
      WithinPrefix(s'.log, end.log, |s.log|, |s.log|, ids);
      LoadDepthBound(s, req, BaseId(base, id), body, ids);
  }

  // ---------- whole runs ----------

  /** A top-level require: its request and what its load would do. */
  datatype Call = Call(req: string, body: Script)

  function RunAll(s: State, calls: seq<Call>): State {
    if calls == [] then s
    else Load(RunAll(s, calls[..|calls| - 1]), calls[|calls| - 1].req, None, calls[|calls| - 1].body).0
  }

  /** After any sequence of requires from the empty registry: the registry is what its log says, every id in it is
      bound to its own module, and no module that was loading or loaded was ever started again. */
  lemma {:induction false} EveryRunValid(calls: seq<Call>)
    ensures var s := RunAll(State(map[], 0, []), calls);
            && Valid(s)
            && forall i, j, id :: 0 <= i < j < |s.log| && s.log[i] == Start(id) && s.log[j] == Start(id) ==>
                 exists k :: i < k < j && s.log[k] == Fail(id)
  {
    hide Load;
    RunsValid(calls);
    var s := RunAll(State(map[], 0, []), calls);
    forall i, j, id | 0 <= i < j < |s.log| && s.log[i] == Start(id) && s.log[j] == Start(id)
      ensures exists k :: i < k < j && s.log[k] == Fail(id)
    {
      NoRestart(s.log, i, j, id);
    }
  }

  lemma {:induction false} RunsValid(calls: seq<Call>)
    ensures Valid(RunAll(State(map[], 0, []), calls))
  {
    hide Load;
    assert State(map[], 0, []).loaded.Keys == {};
    if calls != [] {
      RunsValid(calls[..|calls| - 1]);
      var last := calls[|calls| - 1];
      LoadValid(RunAll(State(map[], 0, []), calls[..|calls| - 1]), last.req, None, last.body);
    }
  }
}
