/** Which error the module loader reports: that of the first bad walk, in the order in which it looks. */
module ModuleOrder {
  import opened ModuleLoader

  /** The modules of a walk between the root and the last one. */
  ghost function Inner(walk: seq<Path>): seq<Path> {
    if |walk| < 2 then [] else walk[1..|walk| - 1]
  }

  ghost predicate NoRepeats(ps: seq<Path>) {
    forall i, j :: 0 <= i < j < |ps| ==> ps[i] != ps[j]
  }

  /** A walk that comes back to itself at its end at most, and the error that its end is good for. */
  ghost predicate BadFor(m: Modules, walk: seq<Path>, error: Error, loadable: Path -> bool) {
    && IsWalk(m, walk) && NoRepeats(Inner(walk))
    && walk[|walk| - 1] == error.path
    && match error
       case InfoNotFound(p) => p !in m
       case CircularDependency(p) => p in Inner(walk)
       case LoadFailed(p) => IsUnloaded(m, p) && !loadable(p) && p !in Inner(walk)
  }

  ghost function FirstIndex(ps: seq<Path>, p: Path): (i: nat)
    requires p in ps
    ensures i < |ps| && ps[i] == p && p !in ps[..i]
  {
    if ps[0] == p then 0
    else
      assert ps == [ps[0]] + ps[1..];
      1 + FirstIndex(ps[1..], p)
  }

  /** One dependency of a module is listed before another one. */
  ghost predicate ListedBefore(m: Modules, p: Path, a: Path, b: Path) {
    p in m && a in m[p].dependencies && b in m[p].dependencies
    && FirstIndex(m[p].dependencies, a) < FirstIndex(m[p].dependencies, b)
  }

  ghost predicate ForkAt(m: Modules, a: seq<Path>, b: seq<Path>, k: nat) {
    0 < k < |a| && k < |b| && a[..k] == b[..k] && ListedBefore(m, a[k - 1], a[k], b[k])
  }

  /** A walk comes before another one that it goes beyond, or that turns off to a dependency listed later. */
  ghost predicate ComesBefore(m: Modules, a: seq<Path>, b: seq<Path>) {
    b < a || exists k :: ForkAt(m, a, b, k)
  }

  /** Of the bad walks that begin like this, it is the first one. */
  ghost predicate FirstBad(m: Modules, start: seq<Path>, w: seq<Path>, error: Error, loadable: Path -> bool) {
    && start <= w && BadFor(m, w, error, loadable)
    && forall other, e :: start <= other && BadFor(m, other, e, loadable) ==> other == w || ComesBefore(m, w, other)
  }

  /** The same for those that go on from here. */
  ghost predicate FirstBadBeyond(m: Modules, start: seq<Path>, w: seq<Path>, error: Error, loadable: Path -> bool) {
    && start < w && BadFor(m, w, error, loadable)
    && forall other, e :: start < other && BadFor(m, other, e, loadable) ==> other == w || ComesBefore(m, w, other)
  }

  /** A module that is there already, or has been loaded. */
  ghost predicate IsThere(m: Modules, loads: seq<Path>, q: Path) {
    q in m && (IsUnloaded(m, q) ==> q in loads)
  }

  lemma InnerNeeds(m: Modules, walk: seq<Path>, p: Path)
    requires IsWalk(m, walk) && p in Inner(walk)
    ensures IsUnloaded(m, p)
  {
    var i :| 1 <= i < |walk| - 1 && walk[i] == p;
    assert Needs(m, walk[i], walk[i + 1]);
  }

  /** Beyond a module that is there, nothing is bad. */
  lemma NothingBadBeyond(m: Modules, now: Modules, loads: seq<Path>, walk: seq<Path>, loadable: Path -> bool,
                         other: seq<Path>, e: Error)
    requires Searching(m, now, loads, walk, loadable) && walk < other && IsThere(m, loads, other[|walk|])
    ensures !BadFor(m, other, e, loadable)
  {
    if BadFor(m, other, e, loadable) {
      var n, last := |walk|, other[|other| - 1];
      var q, rest := other[n], other[n..];
      forall i | 0 <= i < |rest| - 1 ensures Needs(m, rest[i], rest[i + 1]) {
        assert Needs(m, other[n + i], other[n + i + 1]);
      }
      assert |rest| > 1 ==> Needs(m, rest[0], rest[1]);
      if last in Inner(other) {
        InnerNeeds(m, other, last);
      }
      if q in loads {
        WalkDescends(q, m, loads, rest);
        if IsUnloaded(m, last) {
          var k: nat :| LoadedAfter(loads, k, rest[..|rest| - 1]) && loads[k] == last;
          LastIsNew(loads, k, walk, other, last);
        }
      }
    }
  }

  lemma LastIsNew(loads: seq<Path>, k: nat, walk: seq<Path>, other: seq<Path>, last: Path)
    requires walk < other && LoadedAfter(loads, k, other[|walk|..][..|other| - |walk| - 1]) && loads[k] == last
    requires (forall i, j :: 0 <= i < j < |loads| ==> loads[i] != loads[j]) && forall p :: p in loads ==> p !in walk
    ensures last !in Inner(other)
  {
    var rest := other[|walk|..];
    assert last in loads;
    forall i | 1 <= i < |other| - 1 ensures other[i] != last {
      if i < |walk| {
        assert other[i] == walk[i] && walk[i] in walk;
      } else {
        assert other[i] == rest[..|rest| - 1][i - |walk|];
        assert other[i] in rest[..|rest| - 1];
      }
    }
  }

  // --------------------------------------------------------------- the search

  lemma InnerOfNext(walk: seq<Path>, p: Path)
    requires walk != []
    ensures Inner(walk + [p]) == walk[1..]
  {
  }

  lemma GoesOnFrom(m: Modules, start: seq<Path>, other: seq<Path>)
    requires IsWalk(m, other) && start != [] && start < other
    ensures Needs(m, start[|start| - 1], other[|start|])
  {
    assert Needs(m, other[|start| - 1], other[|start|]);
  }

  /** A bad walk does not go on beyond a module that it has met before. */
  lemma NotBeyondRepeat(m: Modules, walk: seq<Path>, p: Path, other: seq<Path>, e: Error, loadable: Path -> bool)
    requires walk != [] && p in walk[1..] && walk + [p] < other
    ensures !BadFor(m, other, e, loadable)
  {
    var i :| 0 <= i < |walk| - 1 && walk[1..][i] == p;
    var inner, start := Inner(other), walk + [p];
    assert other[i + 1] == start[i + 1] == p && other[|walk|] == start[|walk|] == p;
    assert inner[i] == other[i + 1] && inner[|walk| - 1] == other[|walk|];
  }

  lemma {:induction false} VisitFindsFirst(m: Modules, now: Modules, loads: seq<Path>, walk: seq<Path>,
                                           loadable: Path -> bool, p: Path) returns (w: seq<Path>)
    requires Searching(m, now, loads, walk, loadable) && Needs(m, walk[|walk| - 1], p) && NoRepeats(walk[1..])
    requires Visit(p, now, loads, loadable).outcome.Failure?
    ensures FirstBad(m, walk + [p], w, Visit(p, now, loads, loadable).outcome.error, loadable)
    decreases |UnloadedIn(now)|, 1, 0
  {
    var start := walk + [p];
    InnerOfNext(walk, p);
    WalkOn(m, walk, p);
    w := start;
    if p !in now {
      forall other, e | start < other ensures !BadFor(m, other, e, loadable) {
        if IsWalk(m, other) {
          GoesOnFrom(m, start, other);
        }
      }
    } else {
      assert Colour(m, now, loads, walk, p);
      if now[p].state.Loading? {
        forall other, e | start < other ensures !BadFor(m, other, e, loadable) {
          NotBeyondRepeat(m, walk, p, other, e, loadable);
        }
      } else {
        assert now[p].state.Unloaded?;
        w := UnloadedFindsFirst(m, now, loads, walk, loadable, p);
      }
    }
  }

  /** Of walks that go on from here, what is bad for one and good for the walk so far. */
  lemma BeyondIsFirst(m: Modules, start: seq<Path>, w: seq<Path>, error: Error, loadable: Path -> bool)
    requires FirstBadBeyond(m, start, w, error, loadable)
    ensures FirstBad(m, start, w, error, loadable)
  {
    hide BadFor, ForkAt;
    forall other, e | start <= other && BadFor(m, other, e, loadable) ensures other == w || ComesBefore(m, w, other) {
      if other == start {
        assert other < w;
      } else {
        assert start < other;
      }
    }
  }

  lemma {:induction false} UnloadedFindsFirst(m: Modules, now: Modules, loads: seq<Path>, walk: seq<Path>,
                                              loadable: Path -> bool, p: Path) returns (w: seq<Path>)
    requires Searching(m, now, loads, walk, loadable) && Needs(m, walk[|walk| - 1], p) && NoRepeats(walk[1..])
    requires p in now && now[p].state.Unloaded? && Visit(p, now, loads, loadable).outcome.Failure?
    ensures FirstBad(m, walk + [p], w, Visit(p, now, loads, loadable).outcome.error, loadable)
    decreases |UnloadedIn(now)|, 0, 0
  {
    var start := walk + [p];
    var entered := now[p := now[p].(state := Loading)];
    assert Colour(m, now, loads, walk, p);
    InnerOfNext(walk, p);
    assert start[1..] == walk[1..] + [p];
    Shrinks(UnloadedIn(entered), UnloadedIn(now), p);
    Enter(m, now, loads, walk, loadable, p);
    var r := VisitAll(now[p].dependencies, entered, loads, loadable);
    hide Searching, Colour;
    if r.outcome.Failure? {
      w := VisitAllFindsFirst(m, entered, loads, start, loadable, 0);
      BeyondIsFirst(m, start, w, r.outcome.error, loadable);
    } else {
      w := start;
      VisitAllCorrect(m, entered, loads, start, loadable, now[p].dependencies);
      WalkOn(m, walk, p);
      hide VisitAll;
      LoadFailsFirst(m, r, loads, start, loadable);
    }
  }

  /** A module that does not load, with its dependencies there, ends the first bad walk. */
  lemma LoadFailsFirst(m: Modules, r: Result, before: seq<Path>, start: seq<Path>, loadable: Path -> bool)
    requires IsWalk(m, start) && NoRepeats(Inner(start)) && IsUnloaded(m, start[|start| - 1])
    requires Correct(m, before, start, loadable, m[start[|start| - 1]].dependencies, r) && r.outcome.Success?
    requires !loadable(start[|start| - 1]) && start[|start| - 1] !in Inner(start)
    ensures FirstBad(m, start, start, LoadFailed(start[|start| - 1]), loadable)
  {
    hide Searching, DependenciesFirst;
    forall other, e | start < other ensures !BadFor(m, other, e, loadable) {
      if IsWalk(m, other) {
        GoesOnFrom(m, start, other);
        NothingBadBeyond(m, r.modules, r.loads, start, loadable, other, e);
      }
    }
  }

  /** The dependencies of the last module of the walk, the first j of which are there. */
  lemma {:induction false} VisitAllFindsFirst(m: Modules, now: Modules, loads: seq<Path>, walk: seq<Path>,
                                              loadable: Path -> bool, j: nat) returns (w: seq<Path>)
    requires Searching(m, now, loads, walk, loadable) && NoRepeats(walk[1..]) && IsUnloaded(m, walk[|walk| - 1])
    requires var all := m[walk[|walk| - 1]].dependencies;
             j <= |all| && (forall q :: q in all[..j] ==> IsThere(m, loads, q))
             && VisitAll(all[j..], now, loads, loadable).outcome.Failure?
    ensures var all := m[walk[|walk| - 1]].dependencies;
            FirstBadBeyond(m, walk, w, VisitAll(all[j..], now, loads, loadable).outcome.error, loadable)
    decreases |UnloadedIn(now)|, 2, |m[walk[|walk| - 1]].dependencies| - j
  {
    var all := m[walk[|walk| - 1]].dependencies;
    var p := all[j];
    assert p in all && all[j..][1..] == all[j + 1..] && all[j..][0] == p;
    var r := Visit(p, now, loads, loadable);
    hide Searching;
    if r.outcome.Failure? {
      w := VisitFindsFirst(m, now, loads, walk, loadable, p);
      FirstOfAll(m, now, loads, walk, loadable, j, w, r.outcome.error);
    } else {
      VisitCorrect(m, now, loads, walk, loadable, p);
      NotLarger(UnloadedIn(r.modules), UnloadedIn(now));
      assert all[..j + 1] == all[..j] + [p];
      forall q | q in all[..j + 1] ensures IsThere(m, r.loads, q) {
        assert q in all[..j] || q in [p];
      }
      w := VisitAllFindsFirst(m, r.modules, r.loads, walk, loadable, j + 1);
    }
  }

  /** The first one beyond a dependency that fails is the first one of all: those listed before are there. */
  lemma FirstOfAll(m: Modules, now: Modules, loads: seq<Path>, walk: seq<Path>, loadable: Path -> bool, j: nat,
                   w: seq<Path>, error: Error)
    requires Searching(m, now, loads, walk, loadable) && IsUnloaded(m, walk[|walk| - 1])
    requires var all := m[walk[|walk| - 1]].dependencies;
             j < |all| && (forall q :: q in all[..j] ==> IsThere(m, loads, q))
             && FirstBad(m, walk + [all[j]], w, error, loadable)
    ensures FirstBadBeyond(m, walk, w, error, loadable)
  {
    var n, all := |walk|, m[walk[|walk| - 1]].dependencies;
    var p := all[j];
    assert w[n] == (walk + [p])[n] && walk < w;
    if IsThere(m, loads, p) {
      NothingBadBeyond(m, now, loads, walk, loadable, w, error);
    }
    forall other, e | walk < other && BadFor(m, other, e, loadable)
      ensures other == w || ComesBefore(m, w, other)
    {
      var q := other[n];
      assert Needs(m, other[n - 1], q) && other[n - 1] == walk[n - 1];
      if IsThere(m, loads, q) {
        NothingBadBeyond(m, now, loads, walk, loadable, other, e);
      }
      if q == p {
        assert walk + [p] <= other;
      } else {
        Listed(all, j, p, q);
        assert w[..n] == walk == other[..n];
        assert ForkAt(m, w, other, n);
      }
    }
  }

  lemma FirstIndexIs(all: seq<Path>, j: nat, p: Path)
    requires j < |all| && all[j] == p && p !in all[..j]
    ensures FirstIndex(all, p) == j
  {
    var k := FirstIndex(all, p);
    forall i | 0 <= i < j ensures all[i] != p {
      assert all[i] == all[..j][i] && all[i] in all[..j];
    }
    forall i | 0 <= i < k ensures all[i] != p {
      assert all[i] == all[..k][i] && all[i] in all[..k];
    }
  }

  lemma Listed(all: seq<Path>, j: nat, p: Path, q: Path)
    requires j < |all| && all[j] == p != q && q in all && p !in all[..j] && q !in all[..j]
    ensures p in all && FirstIndex(all, p) < FirstIndex(all, q)
  {
    FirstIndexIs(all, j, p);
    var l := FirstIndex(all, q);
    forall i | 0 <= i < j ensures all[i] != q {
      assert all[i] == all[..j][i] && all[i] in all[..j];
    }
  }

  /**
    A probe that fails reports the error of the first bad walk from the root: first in the order in
    which dependencies are listed, with what lies beyond a module before the module itself.
   */
  lemma ProbeReportsFirst(root: Path, m: Modules, loadable: Path -> bool) returns (w: seq<Path>)
    requires AtRest(m) && root in m && Probe(root, m, loadable).outcome.Failure?
    ensures FirstBad(m, [root], w, Probe(root, m, loadable).outcome.error, loadable)
  {
    var r := VisitAll(m[root].dependencies, m, [], loadable);
    assert Searching(m, m, [], [root], loadable) by {
      forall p | p in m ensures Colour(m, m, [], [root], p) {
      }
    }
    assert m[root].dependencies[0..] == m[root].dependencies;
    if r.outcome.Failure? {
      w := VisitAllFindsFirst(m, m, [], [root], loadable, 0);
      BeyondIsFirst(m, [root], w, r.outcome.error, loadable);
    } else {
      VisitAllCorrect(m, m, [], [root], loadable, m[root].dependencies);
      w := [root];
      forall other, e | [root] < other ensures !BadFor(m, other, e, loadable) {
        if IsWalk(m, other) {
          GoesOnFrom(m, [root], other);
          NothingBadBeyond(m, r.modules, r.loads, [root], loadable, other, e);
        }
      }
    }
  }

  lemma ForksOnce(m: Modules, a: seq<Path>, b: seq<Path>, k: nat, l: nat)
    requires ForkAt(m, a, b, k) && l < |a| && l < |b| && a[l] != b[l] && a[..l] == b[..l]
    ensures k == l
  {
    forall i | 0 <= i < k ensures a[i] == b[i] {
      assert a[i] == a[..k][i] && b[i] == b[..k][i];
    }
    forall i | 0 <= i < l ensures a[i] == b[i] {
      assert a[i] == a[..l][i] && b[i] == b[..l][i];
    }
  }

  lemma NotBothBefore(m: Modules, a: seq<Path>, b: seq<Path>)
    ensures !(ComesBefore(m, a, b) && ComesBefore(m, b, a))
  {
    if k :| ForkAt(m, a, b, k) {
      if l :| ForkAt(m, b, a, l) {
        ForksOnce(m, a, b, k, l);
      }
    }
  }

  lemma OneError(m: Modules, w: seq<Path>, e: Error, f: Error, loadable: Path -> bool)
    requires BadFor(m, w, e, loadable) && BadFor(m, w, f, loadable)
    ensures e == f
  {
    if e.path in Inner(w) {
      InnerNeeds(m, w, e.path);
    }
  }

  /** There is only one such walk, and it is bad for one error only. */
  lemma FirstBadIsUnique(m: Modules, start: seq<Path>, a: seq<Path>, e: Error, b: seq<Path>, f: Error,
                         loadable: Path -> bool)
    requires FirstBad(m, start, a, e, loadable) && FirstBad(m, start, b, f, loadable)
    ensures a == b && e == f
  {
    hide BadFor, ComesBefore;
    NotBothBefore(m, a, b);
    OneError(m, a, e, if a == b then f else e, loadable);
  }
}
