/**
  The kernel module loader: a depth-first search over the dependency map, with
  module states as colours and a load action that may fail for any module.
 */
module ModuleLoader {

  type Path = string

  datatype LoadState = Unloaded | Loading | Loaded | Builtin

  datatype Info = Info(state: LoadState, dependencies: seq<Path>)

  type Modules = map<Path, Info>

  datatype Error = InfoNotFound(path: Path) | CircularDependency(path: Path) | LoadFailed(path: Path)

  datatype Outcome = Success | Failure(error: Error)

  /** An outcome, the module states after it, and every load action so far, in order. */
  datatype Result = Result(outcome: Outcome, modules: Modules, loads: seq<Path>)

  // ------------------------------------------------- what the loader computes

  ghost function UnloadedIn(m: Modules): set<Path> {
    set p | p in m && m[p].state.Unloaded?
  }

  ghost function Visit(p: Path, m: Modules, loads: seq<Path>, loadable: Path -> bool): (r: Result)
    ensures UnloadedIn(r.modules) <= UnloadedIn(m)
    decreases |UnloadedIn(m)|, 0
  {
    if p !in m then Result(Failure(InfoNotFound(p)), m, loads)
    else match m[p].state
      case Loaded => Result(Success, m, loads)
      case Builtin => Result(Success, m, loads)
      case Loading => Result(Failure(CircularDependency(p)), m, loads)
      case Unloaded =>
        var entered := m[p := m[p].(state := Loading)];
        Shrinks(UnloadedIn(entered), UnloadedIn(m), p);
        var r := VisitAll(m[p].dependencies, entered, loads, loadable);
        if r.outcome.Failure? then r
        else if !loadable(p) then Result(Failure(LoadFailed(p)), r.modules, r.loads + [p])
        else Result(Success, r.modules[p := m[p].(state := Loaded)], r.loads + [p])
  }

  ghost function VisitAll(ps: seq<Path>, m: Modules, loads: seq<Path>, loadable: Path -> bool): (r: Result)
    ensures UnloadedIn(r.modules) <= UnloadedIn(m)
    decreases |UnloadedIn(m)|, |ps|
  {
    if ps == [] then Result(Success, m, loads)
    else
      var r := Visit(ps[0], m, loads, loadable);
      if r.outcome.Failure? then r
      else
        NotLarger(UnloadedIn(r.modules), UnloadedIn(m));
        VisitAll(ps[1..], r.modules, r.loads, loadable)
  }

  lemma Shrinks(small: set<Path>, large: set<Path>, p: Path)
    requires small <= large && p in large && p !in small
    ensures |small| < |large|
  {
    NotLarger(small, large - {p});
  }

  lemma NotLarger(small: set<Path>, large: set<Path>)
    requires small <= large
    ensures |small| <= |large|
  {
    assert large == small + (large - small);
  }

  /** modProbe: the root's dependencies, then the root; the root itself is never marked. */
  ghost function Probe(root: Path, m: Modules, loadable: Path -> bool): Result
    requires root in m
  {
    if m[root].state.Builtin? || m[root].state.Loaded? then Result(Success, m, [])
    else
      var r := VisitAll(m[root].dependencies, m, [], loadable);
      if r.outcome.Failure? then r
      else if !loadable(root) then Result(Failure(LoadFailed(root)), r.modules, r.loads + [root])
      else Result(Success, r.modules, r.loads + [root])
  }

  // ------------------------------------------------------------ what it means

  /** A walk along dependencies in which every module but the last has to be loaded. */
  ghost predicate IsWalk(m: Modules, walk: seq<Path>) {
    && walk != []
    && forall i :: 0 <= i < |walk| - 1 ==> Needs(m, walk[i], walk[i + 1])
  }

  ghost predicate Needs(m: Modules, p: Path, q: Path) {
    p in m && m[p].state.Unloaded? && q in m[p].dependencies
  }

  ghost predicate IsUnloaded(m: Modules, p: Path) {
    p in m && m[p].state.Unloaded?
  }

  /** A walk from the root is fine: it stays in the map, loads, and never comes back to itself. */
  ghost predicate Fine(m: Modules, walk: seq<Path>, loadable: Path -> bool)
    requires walk != []
  {
    var last := walk[|walk| - 1];
    && last in m
    && (IsUnloaded(m, last) ==> loadable(last))
    && last !in walk[..|walk| - 1]
  }

  ghost predicate AllWalksFine(root: Path, m: Modules, loadable: Path -> bool) {
    forall walk :: IsWalk(m, walk) && walk[0] == root ==> Fine(m, walk, loadable)
  }

  /** The module is the end of a walk from the root, and has to be loaded itself. */
  ghost predicate Required(root: Path, m: Modules, p: Path) {
    IsUnloaded(m, p) && exists walk :: IsWalk(m, walk) && walk[0] == root && walk[|walk| - 1] == p
  }

  /** Each module once, and after all of its dependencies that were not there at the start. */
  ghost predicate DependenciesFirst(m: Modules, loads: seq<Path>) {
    && (forall i, j :: 0 <= i < j < |loads| ==> loads[i] != loads[j])
    && (forall i :: 0 <= i < |loads| ==> IsUnloaded(m, loads[i]))
    && (forall i, q :: 0 <= i < |loads| && Needs(m, loads[i], q) ==>
          q in m && (IsUnloaded(m, q) ==> q in loads[..i]))
  }

  /** The walk that justifies an error. */
  ghost predicate Explains(m: Modules, walk: seq<Path>, error: Error, loadable: Path -> bool) {
    && IsWalk(m, walk)
    && walk[|walk| - 1] == error.path
    && match error
       case InfoNotFound(p) => p !in m
       case CircularDependency(p) => p in walk[..|walk| - 1]
       case LoadFailed(p) => IsUnloaded(m, p) && !loadable(p)
  }

  // ------------------------------------------------------------- the invariant

  /**
    The search at any moment, m being the modules at the start and now the modules
    now. The walk runs from the root to the module being visited; its modules, the
    root apart, are exactly the ones marked as loading.
   */
  ghost predicate Searching(m: Modules, now: Modules, loads: seq<Path>, walk: seq<Path>, loadable: Path -> bool) {
    && IsWalk(m, walk)
    && (forall p :: p in m <==> p in now)
    && (forall p :: p in m ==> Colour(m, now, loads, walk, p))
    && DependenciesFirst(m, loads)
    && (forall p :: p in loads ==> loadable(p) && p !in walk && Required(walk[0], m, p))
  }

  ghost predicate Colour(m: Modules, now: Modules, loads: seq<Path>, walk: seq<Path>, p: Path)
    requires p in m && walk != []
  {
    && p in now
    && now[p].dependencies == m[p].dependencies
    && !m[p].state.Loading?
    && now[p].state == (if p in walk[1..] then Loading else if p in loads then Loaded else m[p].state)
    && (p in walk[1..] ==> m[p].state.Unloaded?)
  }

  /** What visiting ps, reached from the end of the walk, achieves or how it fails. */
  ghost predicate Correct(m: Modules, before: seq<Path>, walk: seq<Path>, loadable: Path -> bool, ps: seq<Path>,
                          r: Result)
    requires walk != []
  {
    && DependenciesFirst(m, r.loads)
    && before <= r.loads
    && match r.outcome
       case Success =>
         && Searching(m, r.modules, r.loads, walk, loadable)
         && forall p :: p in ps ==> p in m && (IsUnloaded(m, p) ==> p in r.loads)
       case Failure(error) =>
         exists w :: Explains(m, w, error, loadable) && w[0] == walk[0]
  }

  lemma {:induction false} VisitCorrect(m: Modules, now: Modules, loads: seq<Path>, walk: seq<Path>,
                                        loadable: Path -> bool, p: Path)
    requires Searching(m, now, loads, walk, loadable) && Needs(m, walk[|walk| - 1], p)
    ensures Correct(m, loads, walk, loadable, [p], Visit(p, now, loads, loadable))
    decreases |UnloadedIn(now)|, 0
  {
    var w := walk + [p];
    assert IsWalk(m, w);
    if p !in now {
      assert Explains(m, w, InfoNotFound(p), loadable);
    } else {
      assert Colour(m, now, loads, walk, p);
      match now[p].state
      case Loaded =>
      case Builtin =>
      case Loading =>
        assert p in w[..|w| - 1];
        assert Explains(m, w, CircularDependency(p), loadable);
      case Unloaded =>
        var entered := now[p := now[p].(state := Loading)];
        Shrinks(UnloadedIn(entered), UnloadedIn(now), p);
        Enter(m, now, loads, walk, loadable, p);
        VisitAllCorrect(m, entered, loads, w, loadable, now[p].dependencies);
        var r := VisitAll(now[p].dependencies, entered, loads, loadable);
        if r.outcome.Success? {
          Leave(m, r, loads, walk, loadable, p);
        }
    }
  }

  lemma {:induction false} VisitAllCorrect(m: Modules, now: Modules, loads: seq<Path>, walk: seq<Path>,
                                           loadable: Path -> bool, ps: seq<Path>)
    requires Searching(m, now, loads, walk, loadable)
    requires forall p :: p in ps ==> Needs(m, walk[|walk| - 1], p)
    ensures Correct(m, loads, walk, loadable, ps, VisitAll(ps, now, loads, loadable))
    decreases |UnloadedIn(now)|, |ps|
  {
    if ps != [] {
      assert ps[0] in ps && forall p :: p in ps[1..] ==> p in ps;
      VisitCorrect(m, now, loads, walk, loadable, ps[0]);
      var r := Visit(ps[0], now, loads, loadable);
      if r.outcome.Success? {
        NotLarger(UnloadedIn(r.modules), UnloadedIn(now));
        VisitAllCorrect(m, r.modules, r.loads, walk, loadable, ps[1..]);
        assert ps[0] in [ps[0]];
      }
    }
  }

  /** Marking a module as loading extends the walk. */
  lemma Enter(m: Modules, now: Modules, loads: seq<Path>, walk: seq<Path>, loadable: Path -> bool, p: Path)
    requires Searching(m, now, loads, walk, loadable) && Needs(m, walk[|walk| - 1], p)
    requires p in now && now[p].state.Unloaded?
    ensures Searching(m, now[p := now[p].(state := Loading)], loads, walk + [p], loadable)
  {
    hide DependenciesFirst, Required;
    var entered, w := now[p := now[p].(state := Loading)], walk + [p];
    assert w[1..] == walk[1..] + [p];
    assert Colour(m, now, loads, walk, p);
    WalkOn(m, walk, p);
    forall q | q in m ensures Colour(m, entered, loads, w, q) {
      assert Colour(m, now, loads, walk, q);
    }
    hide Colour, IsWalk;
    forall q | q in loads ensures q !in w {
      assert q !in walk && q != p;
    }
  }

  lemma WalkOn(m: Modules, walk: seq<Path>, p: Path)
    requires IsWalk(m, walk) && Needs(m, walk[|walk| - 1], p)
    ensures IsWalk(m, walk + [p])
  {
    hide Needs;
  }

  /** A module whose dependencies are all there can be loaded next. */
  lemma LoadNext(m: Modules, loads: seq<Path>, p: Path)
    requires IsUnloaded(m, p) && p !in loads && DependenciesFirst(m, loads)
    requires forall q :: q in m[p].dependencies ==> q in m && (IsUnloaded(m, q) ==> q in loads)
    ensures DependenciesFirst(m, loads + [p])
  {
    var all := loads + [p];
    forall i, q | 0 <= i < |all| && Needs(m, all[i], q)
      ensures q in m && (IsUnloaded(m, q) ==> q in all[..i])
    {
      assert all[..i] == loads[..i];
    }
  }

  /** The root, met again further down, is never loaded: the walk would be loaded too. */
  lemma RootIsNotMet(m: Modules, r: Result, before: seq<Path>, walk: seq<Path>, loadable: Path -> bool, p: Path)
    requires walk != [] && IsUnloaded(m, p) && r.outcome.Success?
    requires Correct(m, before, walk + [p], loadable, m[p].dependencies, r)
    ensures p != walk[0]
  {
    var w := walk + [p];
    assert Needs(m, w[0], w[1]);
    assert |w| > 2 ==> Needs(m, w[1], w[2]);
    assert w[1] in w && Colour(m, r.modules, r.loads, w, w[1]);
    assert w[1] !in r.loads && w[1] !in m[p].dependencies;
  }

  /** The last action of a visit: load the module, once all its dependencies are there. */
  lemma Leave(m: Modules, r: Result, before: seq<Path>, walk: seq<Path>, loadable: Path -> bool, p: Path)
    requires walk != [] && IsUnloaded(m, p) && p !in walk[1..] && r.outcome.Success?
    requires Correct(m, before, walk + [p], loadable, m[p].dependencies, r)
    ensures p in r.modules
    ensures DependenciesFirst(m, r.loads + [p])
    ensures loadable(p) ==>
              Searching(m, r.modules[p := m[p].(state := Loaded)], r.loads + [p], walk, loadable)
    ensures !loadable(p) ==> Explains(m, walk + [p], LoadFailed(p), loadable)
  {
    var w := walk + [p];
    assert p in w;
    assert Required(walk[0], m, p) by {
      assert IsWalk(m, w) && w[0] == walk[0] && w[|w| - 1] == p;
    }
    LoadNext(m, r.loads, p);
    if loadable(p) {
      RootIsNotMet(m, r, before, walk, loadable, p);
      var now := r.modules[p := m[p].(state := Loaded)];
      forall q | q in m ensures Colour(m, now, r.loads + [p], walk, q) {
        assert Colour(m, r.modules, r.loads, w, q);
        assert w[1..] == walk[1..] + [p];
      }
      forall i | 0 <= i < |walk| - 1 ensures Needs(m, walk[i], walk[i + 1]) {
        assert Needs(m, w[i], w[i + 1]);
      }
      assert forall q :: q in walk ==> q in w;
    }
  }

  // ------------------------------------------------------------ the theorems

  /** The modules as read from disk: nothing is being loaded yet. */
  ghost predicate AtRest(m: Modules) {
    forall p :: p in m ==> !m[p].state.Loading?
  }

  /**
    What modProbe guarantees for any graph and any pattern of load failures. Each
    module is loaded at most once, and after its dependencies. On success exactly
    the required modules were loaded. On failure the error is explained by a walk
    from the root: out of the map, into a cycle, or to a module that does not load.
   */
  lemma ProbeCorrect(root: Path, m: Modules, loadable: Path -> bool)
    requires AtRest(m) && root in m
    ensures var r := Probe(root, m, loadable);
            && DependenciesFirst(m, r.loads)
            && match r.outcome
               case Success => forall p :: (p in r.loads <==> Required(root, m, p)) && (p in r.loads ==> loadable(p))
               case Failure(error) => exists w :: Explains(m, w, error, loadable) && w[0] == root
  {
    var r := Probe(root, m, loadable);
    if !m[root].state.Unloaded? {
      NothingRequired(root, m);
    } else {
      var deps := VisitAll(m[root].dependencies, m, [], loadable);
      assert Searching(m, m, [], [root], loadable) by {
        forall p | p in m ensures Colour(m, m, [], [root], p) {
        }
      }
      VisitAllCorrect(m, m, [], [root], loadable, m[root].dependencies);
      if deps.outcome.Success? {
        LoadNext(m, deps.loads, root);
        if loadable(root) {
          LoadsAreRequired(root, m, r.loads);
        } else {
          assert Explains(m, [root], LoadFailed(root), loadable);
        }
      }
    }
  }

  lemma NothingRequired(root: Path, m: Modules)
    requires root in m && !m[root].state.Unloaded?
    ensures forall p :: !Required(root, m, p)
  {
    forall walk | IsWalk(m, walk) && walk[0] == root ensures |walk| == 1 {
      assert |walk| > 1 ==> Needs(m, walk[0], walk[1]);
    }
  }

  /** A list that ends with the root and has dependencies first holds all that is required. */
  lemma LoadsAreRequired(root: Path, m: Modules, loads: seq<Path>)
    requires DependenciesFirst(m, loads) && root in loads
    ensures forall p :: Required(root, m, p) ==> p in loads
  {
    forall p, walk | IsUnloaded(m, p) && IsWalk(m, walk) && walk[0] == root && walk[|walk| - 1] == p
      ensures p in loads
    {
      WalkDescends(root, m, loads, walk);
    }
  }

  /** All of ps were loaded after the k-th load. */
  ghost predicate LoadedAfter(loads: seq<Path>, k: nat, ps: seq<Path>) {
    k < |loads| && forall p :: p in ps ==> p in loads[k + 1..]
  }

  /** Along a walk, modules are loaded earlier and earlier. */
  lemma {:induction false} WalkDescends(root: Path, m: Modules, loads: seq<Path>, walk: seq<Path>)
    requires DependenciesFirst(m, loads) && root in loads && IsWalk(m, walk) && walk[0] == root
    ensures var last := walk[|walk| - 1];
            && last in m
            && (IsUnloaded(m, last) ==>
                  exists k: nat :: LoadedAfter(loads, k, walk[..|walk| - 1]) && loads[k] == last)
  {
    if |walk| == 1 {
      var k: nat :| k < |loads| && loads[k] == root;
      assert LoadedAfter(loads, k, walk[..|walk| - 1]);
    } else {
      var init := walk[..|walk| - 1];
      WalkDescends(root, m, loads, init);
      assert Needs(m, init[|init| - 1], walk[|walk| - 1]);
      var k: nat :| LoadedAfter(loads, k, init[..|init| - 1]) && loads[k] == init[|init| - 1];
      Descend(m, loads, k, init, walk[|walk| - 1]);
    }
  }

  lemma InLongerSuffix(loads: seq<Path>, i: nat, k: nat, p: Path)
    requires i <= k <= |loads| && p in loads[k..]
    ensures p in loads[i..]
  {
    assert loads[i..] == loads[i..k] + loads[k..];
  }

  lemma Descend(m: Modules, loads: seq<Path>, k: nat, init: seq<Path>, q: Path)
    requires DependenciesFirst(m, loads) && init != [] && LoadedAfter(loads, k, init[..|init| - 1])
    requires loads[k] == init[|init| - 1] && Needs(m, loads[k], q)
    ensures q in m && (IsUnloaded(m, q) ==> exists i: nat :: LoadedAfter(loads, i, init) && loads[i] == q)
  {
    if IsUnloaded(m, q) {
      var i: nat :| i < k && loads[i] == q;
      forall p | p in init ensures p in loads[i + 1..] {
        var j: nat :| j < |init| && init[j] == p;
        if j == |init| - 1 {
          assert loads[i + 1..][k - i - 1] == p;
        } else {
          assert init[..|init| - 1][j] == p;
          assert p in init[..|init| - 1];
          InLongerSuffix(loads, i + 1, k + 1, p);
        }
      }
      assert LoadedAfter(loads, i, init);
    }
  }

  lemma SuccessMeansFine(root: Path, m: Modules, loadable: Path -> bool, walk: seq<Path>)
    requires AtRest(m) && root in m && Probe(root, m, loadable).outcome.Success?
    requires IsWalk(m, walk) && walk[0] == root
    ensures Fine(m, walk, loadable)
  {
    ProbeCorrect(root, m, loadable);
    var loads, init, last := Probe(root, m, loadable).loads, walk[..|walk| - 1], walk[|walk| - 1];
    if |walk| > 1 {
      assert Needs(m, walk[0], walk[1]);
    }
    if IsUnloaded(m, root) {
      assert IsWalk(m, [root]) && [root][0] == root;
      assert Required(root, m, root);
      WalkDescends(root, m, loads, walk);
    }
    if IsUnloaded(m, last) {
      var k: nat :| LoadedAfter(loads, k, init) && loads[k] == last;
      assert last !in loads[k + 1..];
    } else {
      forall j | 0 <= j < |init| ensures walk[j] != last {
        assert Needs(m, walk[j], walk[j + 1]);
      }
    }
  }

  /**
    modProbe succeeds if and only if no dependency walk from the root leaves the
    map, comes back to itself, or meets a module that does not load.
   */
  lemma ProbeSucceedsIff(root: Path, m: Modules, loadable: Path -> bool)
    requires AtRest(m) && root in m
    ensures Probe(root, m, loadable).outcome.Success? <==> AllWalksFine(root, m, loadable)
  {
    var r := Probe(root, m, loadable);
    ProbeCorrect(root, m, loadable);
    if r.outcome.Failure? {
      var w :| Explains(m, w, r.outcome.error, loadable) && w[0] == root;
      assert !Fine(m, w, loadable);
    } else {
      forall walk | IsWalk(m, walk) && walk[0] == root ensures Fine(m, walk, loadable) {
        SuccessMeansFine(root, m, loadable, walk);
      }
    }
  }

  // ------------------------------------------------------- failed load actions

  /** Every load action succeeded, but for the last one if the error says that it failed. */
  ghost predicate OnlyLastFailed(loads: seq<Path>, outcome: Outcome, loadable: Path -> bool) {
    var failed := outcome.Failure? && outcome.error.LoadFailed?;
    && (failed ==> loads != [] && loads[|loads| - 1] == outcome.error.path)
    && forall i :: 0 <= i < |loads| ==> (loadable(loads[i]) <==> !(failed && i == |loads| - 1))
  }

  lemma {:induction false} VisitStopsAtFailure(p: Path, m: Modules, loads: seq<Path>, loadable: Path -> bool)
    requires OnlyLastFailed(loads, Success, loadable)
    ensures var r := Visit(p, m, loads, loadable); OnlyLastFailed(r.loads, r.outcome, loadable)
    decreases |UnloadedIn(m)|, 0
  {
    if p in m && m[p].state.Unloaded? {
      var entered := m[p := m[p].(state := Loading)];
      Shrinks(UnloadedIn(entered), UnloadedIn(m), p);
      VisitAllStopsAtFailure(m[p].dependencies, entered, loads, loadable);
    }
  }

  lemma {:induction false} VisitAllStopsAtFailure(ps: seq<Path>, m: Modules, loads: seq<Path>, loadable: Path -> bool)
    requires OnlyLastFailed(loads, Success, loadable)
    ensures var r := VisitAll(ps, m, loads, loadable); OnlyLastFailed(r.loads, r.outcome, loadable)
    decreases |UnloadedIn(m)|, |ps|
  {
    if ps != [] {
      VisitStopsAtFailure(ps[0], m, loads, loadable);
      var r := Visit(ps[0], m, loads, loadable);
      if r.outcome.Success? {
        NotLarger(UnloadedIn(r.modules), UnloadedIn(m));
        VisitAllStopsAtFailure(ps[1..], r.modules, r.loads, loadable);
      }
    }
  }

  /** A probe goes on exactly until a load action fails, and reports that one. */
  lemma ProbeStopsAtFailure(root: Path, m: Modules, loadable: Path -> bool)
    requires root in m
    ensures var r := Probe(root, m, loadable); OnlyLastFailed(r.loads, r.outcome, loadable)
  {
    VisitAllStopsAtFailure(m[root].dependencies, m, [], loadable);
  }

  // -------------------------------------------------------------- the loader

  /** One probe: the module states it updates in place, and its load actions so far. */
  class Loader {
    var modules: Modules
    var loads: seq<Path>
    const loadable: Path -> bool    // whether the kernel accepts each module

    constructor (modules: Modules, loadable: Path -> bool)
      ensures this.modules == modules && loads == [] && this.loadable == loadable
    {
      this.modules, this.loads, this.loadable := modules, [], loadable;
    }

    method InitModule(path: Path) returns (ok: bool)
      modifies this`loads
      ensures loads == old(loads) + [path] && ok == loadable(path)
    {
      loads := loads + [path];
      ok := loadable(path);
    }

    method InitDependencies(path: Path) returns (outcome: Outcome)
      modifies this
      ensures Result(outcome, modules, loads) == old(Visit(path, modules, loads, loadable))
      decreases |UnloadedIn(modules)|, 0
    {
      if path !in modules {
        return Failure(InfoNotFound(path));
      }
      var info := modules[path];
      match info.state {
        case Unloaded =>
        case Loaded => return Success;
        case Builtin => return Success;
        case Loading => return Failure(CircularDependency(path));
      }

      ghost var start := modules;
      modules := modules[path := info.(state := Loading)];
      Shrinks(UnloadedIn(modules), UnloadedIn(start), path);
      outcome := InitAll(info.dependencies);
      if outcome.Failure? {
        return;
      }

      var ok := InitModule(path);
      if !ok {
        return Failure(LoadFailed(path));
      }
      modules := modules[path := info.(state := Loaded)];
    }

    /** The loop over dependencies, of both InitDependencies and ModProbe. */
    method InitAll(dependencies: seq<Path>) returns (outcome: Outcome)
      modifies this
      ensures Result(outcome, modules, loads) == old(VisitAll(dependencies, modules, loads, loadable))
      decreases |UnloadedIn(modules)|, |dependencies| + 1
    {
      ghost var all := VisitAll(dependencies, modules, loads, loadable);
      for i := 0 to |dependencies|
        invariant UnloadedIn(modules) <= old(UnloadedIn(modules))
        invariant VisitAll(dependencies[i..], modules, loads, loadable) == all
      {
        NotLarger(UnloadedIn(modules), old(UnloadedIn(modules)));
        assert dependencies[i..][1..] == dependencies[i + 1..];
        outcome := InitDependencies(dependencies[i]);
        if outcome.Failure? {
          return;
        }
      }
      return Success;
    }

    method ModProbe(root: Path) returns (outcome: Outcome)
      requires root in modules && loads == []
      modifies this
      ensures Result(outcome, modules, loads) == old(Probe(root, modules, loadable))
    {
      var info := modules[root];
      if info.state.Builtin? || info.state.Loaded? {
        return Success;
      }
      outcome := InitAll(info.dependencies);
      if outcome.Failure? {
        return;
      }
      var ok := InitModule(root);
      if !ok {
        return Failure(LoadFailed(root));
      }
    }
  }
}
