/** The list of port redirections, and its removal in place while ranging over it. */
module PortRedirections {
  import opened Wrappers
  import opened IptablesRules

  datatype Redirection = Redirection(interfaceName: string, sourcePort: nat, destinationPort: nat)

  // ---------------------------------------------------------------- removal

  predicate Matches(r: Redirection, intf: string, sourcePort: nat) {
    r.sourcePort == sourcePort && (intf == "" || intf == r.interfaceName)
  }

  /** The entries to keep. */
  ghost function Kept(p: seq<Redirection>, intf: string, sourcePort: nat): seq<Redirection> {
    if p == [] then []
    else
      var last := p[|p| - 1];
      Kept(p[..|p| - 1], intf, sourcePort) + (if Matches(last, intf, sourcePort) then [] else [last])
  }

  ghost function MatchCount(p: seq<Redirection>, intf: string, sourcePort: nat): nat {
    if p == [] then 0
    else MatchCount(p[..|p| - 1], intf, sourcePort) + (if Matches(p[|p| - 1], intf, sourcePort) then 1 else 0)
  }

  /** How many entries come after the last match. */
  ghost function Trailing(p: seq<Redirection>, intf: string, sourcePort: nat): (t: nat)
    ensures t <= |p|
  {
    if p == [] || Matches(p[|p| - 1], intf, sourcePort) then 0 else 1 + Trailing(p[..|p| - 1], intf, sourcePort)
  }

  /**
    The removal is safe when at most one entry matches, and otherwise only when
    enough other entries come after the last match.
   */
  ghost predicate Removable(p: seq<Redirection>, intf: string, sourcePort: nat) {
    MatchCount(p, intf, sourcePort) <= Trailing(p, intf, sourcePort) + 1
  }

  /** The match at index i is removed while the list still reaches it. */
  ghost predicate InReach(p: seq<Redirection>, intf: string, sourcePort: nat, i: nat)
    requires i < |p|
  {
    Matches(p[i], intf, sourcePort) ==> i + MatchCount(p[..i], intf, sourcePort) < |p|
  }

  lemma {:induction false} CountAfter(p: seq<Redirection>, intf: string, sourcePort: nat, i: nat)
    requires i <= |p|
    ensures MatchCount(p[..i], intf, sourcePort) <= MatchCount(p, intf, sourcePort)
    ensures i < |p| && Matches(p[i], intf, sourcePort) ==>
              MatchCount(p[..i], intf, sourcePort) < MatchCount(p, intf, sourcePort)
              && i < |p| - Trailing(p, intf, sourcePort)
  {
    if i == |p| {
      assert p[..i] == p;
    } else {
      var init := p[..|p| - 1];
      assert init[..i] == p[..i];
      CountAfter(init, intf, sourcePort, i);
    }
  }

  /** The last match is the one that may be out of reach. */
  lemma {:induction false} LastMatch(p: seq<Redirection>, intf: string, sourcePort: nat)
    requires MatchCount(p, intf, sourcePort) != 0
    ensures var i := |p| - Trailing(p, intf, sourcePort) - 1;
            && 0 <= i && Matches(p[i], intf, sourcePort)
            && MatchCount(p[..i], intf, sourcePort) == MatchCount(p, intf, sourcePort) - 1
  {
    var init := p[..|p| - 1];
    if !Matches(p[|p| - 1], intf, sourcePort) {
      LastMatch(init, intf, sourcePort);
      var i := |init| - Trailing(init, intf, sourcePort) - 1;
      assert init[..i] == p[..i];
    }
  }

  /** Matches before the last one are nearer to the start, by at least as many places. */
  lemma {:induction false} ReachGrows(p: seq<Redirection>, intf: string, sourcePort: nat, i: nat)
    requires i < |p| && Matches(p[i], intf, sourcePort)
    ensures i + MatchCount(p[..i], intf, sourcePort)
            <= |p| - Trailing(p, intf, sourcePort) - 1 + MatchCount(p, intf, sourcePort) - 1
  {
    CountAfter(p, intf, sourcePort, i);
  }

  lemma RemovableIffInReach(p: seq<Redirection>, intf: string, sourcePort: nat)
    ensures Removable(p, intf, sourcePort) <==> forall i :: 0 <= i < |p| ==> InReach(p, intf, sourcePort, i)
  {
    if Removable(p, intf, sourcePort) {
      forall i | 0 <= i < |p| ensures InReach(p, intf, sourcePort, i) {
        if Matches(p[i], intf, sourcePort) {
          ReachGrows(p, intf, sourcePort, i);
        }
      }
    } else {
      LastMatch(p, intf, sourcePort);
      assert !InReach(p, intf, sourcePort, |p| - Trailing(p, intf, sourcePort) - 1);
    }
  }

  lemma MultisetOfUpdate(s: seq<Redirection>, i: nat)
    requires i < |s|
    ensures multiset(s[i := s[|s| - 1]][..|s| - 1]) == multiset(s) - multiset{s[i]}
  {
    var last := |s| - 1;
    assert s == s[..last] + [s[last]];
    if i < last {
      assert s[i := s[last]][..last] == s[..last][i := s[last]];
    } else {
      assert s[i := s[last]][..last] == s[..last];
    }
  }

  /** The entries of the shortened list when the loop is about to look at index i. */
  ghost function Remaining(p: seq<Redirection>, intf: string, sourcePort: nat, i: nat): multiset<Redirection>
    requires i <= |p|
  {
    multiset(Kept(p[..i], intf, sourcePort)) + multiset(p[i..])
  }

  lemma OneMore(p: seq<Redirection>, intf: string, sourcePort: nat, i: nat)
    requires i < |p|
    ensures var matches := Matches(p[i], intf, sourcePort);
            && MatchCount(p[..i + 1], intf, sourcePort) == MatchCount(p[..i], intf, sourcePort) + (if matches then 1 else 0)
            && Remaining(p, intf, sourcePort, i + 1)
               == Remaining(p, intf, sourcePort, i) - (if matches then multiset{p[i]} else multiset{})
  {
    assert p[..i + 1][..i] == p[..i];
    assert p[i..] == [p[i]] + p[i + 1..];
  }

  lemma AtEnds(p: seq<Redirection>, intf: string, sourcePort: nat)
    ensures MatchCount(p[..0], intf, sourcePort) == 0
    ensures Remaining(p, intf, sourcePort, 0) == multiset(p)
    ensures Remaining(p, intf, sourcePort, |p|) == multiset(Kept(p, intf, sourcePort))
  {
    assert p[..|p|] == p && p[0..] == p;
  }

  /** The entries of the shortened list. */
  ghost function Live(slice: seq<Redirection>, length: nat): multiset<Redirection>
    requires length <= |slice|
  {
    multiset(slice[..length])
  }

  /** The state of the loop below, before it looks at index i. */
  ghost predicate Progress(p: seq<Redirection>, intf: string, sourcePort: nat, i: nat, slice: seq<Redirection>,
                           length: int) {
    && i <= |p| == |slice| && length == |p| - MatchCount(p[..i], intf, sourcePort) && 0 <= length
    && (forall j :: i <= j < |p| ==> slice[j] == p[j])
    && (forall j :: 0 <= j < i ==> InReach(p, intf, sourcePort, j))
    && length <= |slice| && Live(slice, length) == Remaining(p, intf, sourcePort, i)
  }

  lemma Start(p: seq<Redirection>, intf: string, sourcePort: nat)
    ensures Progress(p, intf, sourcePort, 0, p, |p|)
  {
    AtEnds(p, intf, sourcePort);
    assert p[..|p|] == p;
  }

  lemma Skip(p: seq<Redirection>, intf: string, sourcePort: nat, i: nat, slice: seq<Redirection>, length: int)
    requires i < |p| && Progress(p, intf, sourcePort, i, slice, length) && !Matches(p[i], intf, sourcePort)
    ensures Progress(p, intf, sourcePort, i + 1, slice, length)
  {
    OneMore(p, intf, sourcePort, i);
    assert InReach(p, intf, sourcePort, i);
    hide Matches, MatchCount, Remaining, Live, InReach;
  }

  lemma Swap(p: seq<Redirection>, intf: string, sourcePort: nat, i: nat, slice: seq<Redirection>, length: int,
             next: seq<Redirection>)
    requires i < |p| && Progress(p, intf, sourcePort, i, slice, length) && Matches(p[i], intf, sourcePort)
    requires i < length && next == slice[i := slice[length - 1]]
    ensures Progress(p, intf, sourcePort, i + 1, next, length - 1)
  {
    OneMore(p, intf, sourcePort, i);
    SwapDelete(slice, length, i);
    assert InReach(p, intf, sourcePort, i);
    hide MatchCount, Remaining, Live, Matches, InReach;
    assert Live(next, length - 1) == Remaining(p, intf, sourcePort, i + 1);
    assert forall j :: 0 <= j < i + 1 ==> InReach(p, intf, sourcePort, j);
    assert forall j :: i + 1 <= j < |p| ==> next[j] == p[j];
  }

  /** Overwriting an entry with the last one and dropping the last one removes the entry. */
  lemma SwapDelete(slice: seq<Redirection>, length: nat, i: nat)
    requires i < length <= |slice|
    ensures Live(slice[i := slice[length - 1]], length - 1) == Live(slice, length) - multiset{slice[i]}
  {
    MultisetOfUpdate(slice[..length], i);
    assert slice[i := slice[length - 1]][..length - 1] == slice[..length][i := slice[length - 1]][..length - 1];
  }

  lemma AtIndex(p: seq<Redirection>, intf: string, sourcePort: nat, i: nat, slice: seq<Redirection>, length: int)
    requires Progress(p, intf, sourcePort, i, slice, length)
    ensures 0 <= length <= |slice| == |p| && (i < |p| ==> slice[i] == p[i])
    ensures i < |p| && Matches(p[i], intf, sourcePort) ==> (InReach(p, intf, sourcePort, i) <==> i < length)
  {
    hide MatchCount, Remaining, Live, Matches;
  }

  lemma Finish(p: seq<Redirection>, intf: string, sourcePort: nat, slice: seq<Redirection>, length: int)
    requires Progress(p, intf, sourcePort, |p|, slice, length)
    ensures Removable(p, intf, sourcePort) && 0 <= length <= |slice|
    ensures multiset(slice[..length]) == multiset(Kept(p, intf, sourcePort))
  {
    RemovableIffInReach(p, intf, sourcePort);
    AtEnds(p, intf, sourcePort);
    hide MatchCount, Remaining, Matches, Removable, Kept, InReach;
  }

  lemma Stuck(p: seq<Redirection>, intf: string, sourcePort: nat, i: nat)
    requires i < |p| && !InReach(p, intf, sourcePort, i)
    ensures !Removable(p, intf, sourcePort)
  {
    RemovableIffInReach(p, intf, sourcePort);
    hide Removable, InReach;
  }

  /**
    Every match is overwritten with the last entry, and the list shortened, while
    the loop still ranges over the original length. None stands for the panic of
    an index out of range.
   */
  method Remove(p: seq<Redirection>, intf: string, sourcePort: nat) returns (r: Option<seq<Redirection>>)
    ensures r.Some? <==> Removable(p, intf, sourcePort)
    ensures r.Some? ==> multiset(r.value) == multiset(Kept(p, intf, sourcePort))
  {
    hide *;
    Start(p, intf, sourcePort);
    var slice, length := p, |p|;
    for i := 0 to |p|
      invariant Progress(p, intf, sourcePort, i, slice, length)
    {
      AtIndex(p, intf, sourcePort, i, slice, length);
      if Matches(slice[i], intf, sourcePort) {
        if length <= i {
          Stuck(p, intf, sourcePort, i);
          return None;
        }
        Swap(p, intf, sourcePort, i, slice, length, slice[i := slice[length - 1]]);
        slice := slice[i := slice[length - 1]];
        length := length - 1;
      } else {
        Skip(p, intf, sourcePort, i, slice, length);
      }
    }
    Finish(p, intf, sourcePort, slice, length);
    return Some(slice[..length]);
  }

  /** Removing from all interfaces can panic: here the same port is redirected on two of them. */
  lemma RemoveFromAllInterfacesPanics()
    ensures !Removable([Redirection("tun0", 80, 8080), Redirection("tun1", 80, 9090)], "", 80)
  {
    var p := [Redirection("tun0", 80, 8080), Redirection("tun1", 80, 9090)];
    assert p[..1][..0] == [];
    assert MatchCount(p[..1], "", 80) == 1;
  }

  /** No two redirections of one port on one interface. */
  ghost predicate Unique(p: seq<Redirection>) {
    forall i, j :: 0 <= i < j < |p| ==>
                     p[i].interfaceName != p[j].interfaceName || p[i].sourcePort != p[j].sourcePort
  }

  /** On one interface, at most the one entry matches, and its removal is safe. */
  lemma {:induction false} UniqueRemovable(p: seq<Redirection>, intf: string, sourcePort: nat)
    requires Unique(p) && intf != ""
    ensures MatchCount(p, intf, sourcePort) <= 1 && Removable(p, intf, sourcePort)
  {
    if p != [] {
      UniqueRemovable(p[..|p| - 1], intf, sourcePort);
      if Matches(p[|p| - 1], intf, sourcePort) {
        NoMatch(p[..|p| - 1], intf, sourcePort);
      }
    }
  }

  lemma {:induction false} NoMatch(p: seq<Redirection>, intf: string, sourcePort: nat)
    requires forall r :: r in p ==> !Matches(r, intf, sourcePort)
    ensures MatchCount(p, intf, sourcePort) == 0 && Kept(p, intf, sourcePort) == p
  {
    if p != [] {
      var init, last := p[..|p| - 1], p[|p| - 1];
      assert p == init + [last] && last in p;
      hide Matches;
      NoMatch(init, intf, sourcePort);
    }
  }

  /** What is kept of a list without duplicates is everything but the entry removed. */
  lemma {:induction false} KeptOfUnique(p: seq<Redirection>, r: Redirection)
    requires Unique(p) && r in p && r.interfaceName != ""
    ensures multiset(Kept(p, r.interfaceName, r.sourcePort)) == multiset(p) - multiset{r}
  {
    var init, last := p[..|p| - 1], p[|p| - 1];
    assert p == init + [last];
    if last == r {
      NoMatch(init, r.interfaceName, r.sourcePort);
    } else {
      KeptOfUnique(init, r);
      assert !Matches(last, r.interfaceName, r.sourcePort);
      hide Matches, Unique;
      assert Kept(p, r.interfaceName, r.sourcePort) == Kept(init, r.interfaceName, r.sourcePort) + [last];
    }
  }

  lemma {:induction false} KeptAre(p: seq<Redirection>, intf: string, sourcePort: nat)
    ensures forall r :: r in Kept(p, intf, sourcePort) <==> r in p && !Matches(r, intf, sourcePort)
    ensures Unique(p) ==> Unique(Kept(p, intf, sourcePort))
  {
    if p != [] {
      var init, last := p[..|p| - 1], p[|p| - 1];
      assert p == init + [last];
      KeptAre(init, intf, sourcePort);
      hide Matches;
      if Unique(p) {
        var kept := Kept(init, intf, sourcePort);
        forall i | 0 <= i < |kept|
          ensures kept[i].interfaceName != last.interfaceName || kept[i].sourcePort != last.sourcePort
        {
          assert kept[i] in init;
        }
      }
    }
  }

  /** Uniqueness does not depend on the order. */
  lemma UniquePermutes(p: seq<Redirection>, q: seq<Redirection>)
    requires Unique(p) && multiset(p) == multiset(q)
    ensures Unique(q)
  {
    forall i, j | 0 <= i < j < |q|
      ensures q[i].interfaceName != q[j].interfaceName || q[i].sourcePort != q[j].sourcePort
    {
      if q[i] == q[j] {
        OnlyOnce(p, q[i]);
        Twice(q, i, j);
      } else {
        assert q[i] in multiset(q) && q[j] in multiset(q);
        DifferentPlaces(p, q[i], q[j]);
      }
    }
  }

  lemma Twice(q: seq<Redirection>, i: nat, j: nat)
    requires i < j < |q| && q[i] == q[j]
    ensures multiset(q)[q[i]] >= 2
  {
    assert q == q[..i] + [q[i]] + q[i + 1..j] + [q[j]] + q[j + 1..];
  }

  lemma DifferentPlaces(p: seq<Redirection>, r: Redirection, s: Redirection)
    requires Unique(p) && r in p && s in p && r != s
    ensures r.interfaceName != s.interfaceName || r.sourcePort != s.sourcePort
  {
  }

  lemma {:induction false} OnlyOnce(p: seq<Redirection>, r: Redirection)
    requires Unique(p)
    ensures multiset(p)[r] <= 1
  {
    if p != [] {
      var init, last := p[..|p| - 1], p[|p| - 1];
      assert p == init + [last];
      OnlyOnce(init, r);
      if last == r {
        assert r !in init;
      }
    }
  }

  // ------------------------------------------------------------------ check

  /** An existing redirection of the same port, on the same interface or on all interfaces. */
  predicate Overlaps(r: Redirection, dryRun: Redirection) {
    r.sourcePort == dryRun.sourcePort && (r.interfaceName == "" || r.interfaceName == dryRun.interfaceName)
  }

  ghost function FirstOverlap(p: seq<Redirection>, dryRun: Redirection): Option<Redirection> {
    if p == [] then None
    else if Overlaps(p[0], dryRun) then Some(p[0])
    else FirstOverlap(p[1..], dryRun)
  }

  lemma {:induction false} FirstOverlapIs(p: seq<Redirection>, dryRun: Redirection)
    ensures match FirstOverlap(p, dryRun)
            case None => forall r :: r in p ==> !Overlaps(r, dryRun)
            case Some(r) => r in p && Overlaps(r, dryRun)
  {
    if p != [] {
      FirstOverlapIs(p[1..], dryRun);
      hide Overlaps;
    }
  }

  /** The first overlapping redirection: the same one already, or a conflict. */
  method Check(p: seq<Redirection>, dryRun: Redirection) returns (alreadyExists: bool, conflict: Option<Redirection>)
    ensures match FirstOverlap(p, dryRun)
            case None => !alreadyExists && conflict == None
            case Some(r) =>
              && (alreadyExists <==> r.destinationPort == dryRun.destinationPort)
              && conflict == if alreadyExists then None else Some(r)
  {
    for k := 0 to |p|
      invariant FirstOverlap(p, dryRun) == FirstOverlap(p[k..], dryRun)
    {
      ghost var overlaps := Overlaps(p[k], dryRun);
      var interfaceMatch := p[k].interfaceName == "" || p[k].interfaceName == dryRun.interfaceName;
      if p[k].sourcePort == dryRun.sourcePort && p[k].destinationPort == dryRun.destinationPort && interfaceMatch {
        return true, None;
      }
      if p[k].sourcePort == dryRun.sourcePort && interfaceMatch {
        return false, Some(p[k]);
      }
    }
    return false, None;
  }

  // ------------------------------------------------------------ redirecting

  /** The entries once a redirection was accepted: whatever it conflicts with has gone. */
  ghost function Redirected(p: seq<Redirection>, r: Redirection): multiset<Redirection> {
    match FirstOverlap(p, r)
    case None => multiset(p) + multiset{r}
    case Some(other) =>
      if other.destinationPort == r.destinationPort then multiset(p)
      else multiset(Kept(p, other.interfaceName, other.sourcePort)) + multiset{r}
  }

  lemma UniqueWith(p: seq<Redirection>, r: Redirection)
    requires Unique(p)
    requires forall other :: other in p ==> other.interfaceName != r.interfaceName || other.sourcePort != r.sourcePort
    ensures Unique(p + [r])
  {
    hide Overlaps;
  }

  /** No port is ever redirected twice on one interface. */
  lemma RedirectedUnique(p: seq<Redirection>, q: seq<Redirection>, r: Redirection)
    requires Unique(p) && multiset(q) == Redirected(p, r)
    ensures Unique(q)
  {
    FirstOverlapIs(p, r);
    match FirstOverlap(p, r)
    case None =>
      UniqueWith(p, r);
      UniquePermutes(p + [r], q);
    case Some(other) =>
      if other.destinationPort == r.destinationPort {
        UniquePermutes(p, q);
      } else {
        var kept := Kept(p, other.interfaceName, other.sourcePort);
        KeptAre(p, other.interfaceName, other.sourcePort);
        UniqueWith(kept, r);
        UniquePermutes(kept + [r], q);
      }
  }

  /**
    What redirecting a port is for: some redirection covers the interface and leads
    to the port asked for. Where no entry is for all interfaces it is the only one.
   */
  lemma RedirectedGoesThere(p: seq<Redirection>, q: seq<Redirection>, r: Redirection)
    requires Unique(p) && multiset(q) == Redirected(p, r)
    ensures exists s :: s in q && Overlaps(s, r) && s.destinationPort == r.destinationPort
    ensures (forall s :: s in p ==> s.interfaceName != "") ==>
              forall s :: s in q && s.interfaceName == r.interfaceName && s.sourcePort == r.sourcePort <==> s == r
  {
    RedirectedUnique(p, q, r);
    FirstOverlapIs(p, r);
    if FirstOverlap(p, r).Some? && FirstOverlap(p, r).value.destinationPort == r.destinationPort {
      assert FirstOverlap(p, r).value in multiset(q);
    } else {
      assert r in multiset(q);
    }
  }

  /** When tracking a redirection, without any rules in the kernel, ends in a panic. */
  ghost predicate TrackingPanics(p: seq<Redirection>, r: Redirection) {
    if r.destinationPort == 0 then !Removable(p, r.interfaceName, r.sourcePort)
    else match FirstOverlap(p, r)
      case None => false
      case Some(other) =>
        other.destinationPort != r.destinationPort && !Removable(p, other.interfaceName, other.sourcePort)
  }

  /** The entries once a redirection was tracked, where destination port 0 asks for its removal. */
  ghost function Tracked(p: seq<Redirection>, r: Redirection): multiset<Redirection> {
    if r.destinationPort == 0 then multiset(Kept(p, r.interfaceName, r.sourcePort)) else Redirected(p, r)
  }

  method Track(p: seq<Redirection>, r: Redirection) returns (q: Option<seq<Redirection>>)
    ensures q.None? <==> TrackingPanics(p, r)
    ensures q.Some? ==> multiset(q.value) == Tracked(p, r)
  {
    hide Removable, Kept, FirstOverlap;
    if r.destinationPort == 0 {
      q := Remove(p, r.interfaceName, r.sourcePort);
      return;
    }
    var known, conflict := Check(p, r);
    if known {
      return Some(p);
    }
    if conflict.Some? {
      q := Remove(p, conflict.value.interfaceName, conflict.value.sourcePort);
      return if q.None? then None else Some(q.value + [r]);
    }
    return Some(p + [r]);
  }

  /** A panic takes an empty interface name, asked for or tracked. */
  lemma PanicsOnAllInterfacesOnly(p: seq<Redirection>, r: Redirection)
    requires Unique(p) && r.interfaceName != "" && forall s :: s in p ==> s.interfaceName != ""
    ensures !TrackingPanics(p, r)
  {
    UniqueRemovable(p, r.interfaceName, r.sourcePort);
    FirstOverlapIs(p, r);
  }

  lemma TrackedUnique(p: seq<Redirection>, q: seq<Redirection>, r: Redirection)
    requires Unique(p) && multiset(q) == Tracked(p, r)
    ensures Unique(q)
  {
    if r.destinationPort == 0 {
      KeptAre(p, r.interfaceName, r.sourcePort);
      UniquePermutes(Kept(p, r.interfaceName, r.sourcePort), q);
    } else {
      RedirectedUnique(p, q, r);
    }
  }

  lemma {:induction false} TrackedAre(p: seq<Redirection>, q: seq<Redirection>, r: Redirection)
    requires multiset(q) == Tracked(p, r)
    ensures forall s :: s in q ==> s in p || (s == r && r.destinationPort != 0)
  {
    forall s | s in q ensures s in p || (s == r && r.destinationPort != 0) {
      assert s in multiset(q);
      KeptAre(p, r.interfaceName, r.sourcePort);
      if FirstOverlap(p, r).Some? {
        KeptAre(p, FirstOverlap(p, r).value.interfaceName, FirstOverlap(p, r).value.sourcePort);
      }
    }
  }

  /**
    Redirecting a port to port 0 is meant to take its redirection away: it ends up
    without one exactly when the firewall is disabled.
   */
  lemma ZeroRemovesIff(p: seq<Redirection>, q: seq<Redirection>, r: Redirection, enabled: bool)
    requires Unique(p) && r.destinationPort == 0
    requires enabled ==> r.interfaceName != "" && forall s :: s in p ==> s.interfaceName != ""
    requires multiset(q) == if enabled then Redirected(p, r) else Tracked(p, r)
    ensures (forall s :: s in q ==> !Matches(s, r.interfaceName, r.sourcePort)) <==> !enabled
  {
    if enabled {
      RedirectedGoesThere(p, q, r);
      assert r in q && Matches(r, r.interfaceName, r.sourcePort);
    } else {
      KeptAre(p, r.interfaceName, r.sourcePort);
      forall s | s in q ensures !Matches(s, r.interfaceName, r.sourcePort) {
        assert s in multiset(q);
      }
    }
  }
}
