/** How the rules of outbound subnets follow the list of tracked subnets. */
module OutboundSubnets {
  import opened Wrappers
  import opened IptablesRules
  import opened IptablesKernel
  import opened Iptables
  import opened PortRules
  import opened Sums
  import opened FirewallRules
  import opened FirewallSync
  import opened Subnets

  /** The rules of one subnet. */
  ghost function AllRouteRules(routes: seq<Route>, subnet: Prefix): multiset<Located> {
    Sum(routes, RouteRules(subnet))
  }

  // ------------------------------------------------- one subnet, route by route

  /** The rules of a subnet were added for the first i routes. */
  ghost predicate AddedFor(was: Kernel, k: Kernel, routes: seq<Route>, i: nat, subnet: Prefix)
    requires i <= |routes|
  {
    && OnlySubnets(was, k, subnet.v6)
    && RulesIn(k, subnet.v6) == RulesIn(was, subnet.v6) + AllRouteRules(routes[..i], subnet)
  }

  /** The rules of a subnet were removed for the first i routes, or some of them if not clean. */
  ghost predicate RemovedFor(was: Kernel, k: Kernel, routes: seq<Route>, i: nat, subnet: Prefix, clean: bool)
    requires i <= |routes|
  {
    && OnlySubnets(was, k, subnet.v6)
    && Between(RulesIn(was, subnet.v6), RulesIn(k, subnet.v6), AllRouteRules(routes[..i], subnet), clean)
  }

  lemma ForNoRoute(was: Kernel, routes: seq<Route>, subnet: Prefix)
    requires WellFormed(was)
    ensures AddedFor(was, was, routes, 0, subnet) && RemovedFor(was, was, routes, 0, subnet, true)
  {
    hide WellFormed, IsPortRule;
  }

  lemma OneRouteMore(routes: seq<Route>, i: nat, subnet: Prefix)
    requires i < |routes|
    ensures AllRouteRules(routes[..i + 1], subnet) == AllRouteRules(routes[..i], subnet) + RouteRules(subnet)(routes[i])
  {
    assert routes[..i + 1] == routes[..i] + [routes[i]];
    SumMore(routes[..i], routes[i], RouteRules(subnet));
  }

  lemma ForOtherFamily(was: Kernel, k: Kernel, routes: seq<Route>, i: nat, subnet: Prefix, clean: bool)
    requires i < |routes| && routes[i].assignedIP.v6 != subnet.v6
    ensures AddedFor(was, k, routes, i, subnet) ==> AddedFor(was, k, routes, i + 1, subnet)
    ensures RemovedFor(was, k, routes, i, subnet, clean) ==> RemovedFor(was, k, routes, i + 1, subnet, clean)
  {
    OneRouteMore(routes, i, subnet);
    assert RouteRules(subnet)(routes[i]) == multiset{};
    hide AllRouteRules, OnlySubnets, RulesIn, Between, RouteRules;
    assert AllRouteRules(routes[..i + 1], subnet) == AllRouteRules(routes[..i], subnet);
  }

  /** One instruction of a subnet for one route that was run, appending or deleting. */
  ghost predicate RunFor(p: Platform, k: Kernel, next: Kernel, route: Route, subnet: Prefix, remove: bool) {
    && (subnet.v6 ==> p.ip6Tables)
    && Run(p, k, Instr(subnet.v6, OutputToSubnet(route.netInterface, route.assignedIP, subnet, remove))) == Some(next)
  }

  lemma RunForOne(p: Platform, k: Kernel, next: Kernel, route: Route, subnet: Prefix, remove: bool)
    requires route.assignedIP.v6 == subnet.v6
    requires var is6 := route.assignedIP.v6 || subnet.v6;
             && (is6 ==> p.ip6Tables)
             && Run(p, k, Instr(is6, OutputToSubnet(route.netInterface, route.assignedIP, subnet, remove))) == Some(next)
    ensures RunFor(p, k, next, route, subnet, remove)
  {
    hide Run, OutputToSubnet;
  }

  lemma RunForRoute(p: Platform, k: Kernel, next: Kernel, routes: seq<Route>, i: nat, subnet: Prefix, remove: bool)
    requires i < |routes| && routes[i].assignedIP.v6 == subnet.v6 && WellFormed(k)
    requires routes[i].netInterface != "" && InterfaceName(routes[i].netInterface) && IsAddress(routes[i].assignedIP)
    requires RunFor(p, k, next, routes[i], subnet, remove) && (remove ==> IsMasked(subnet))
    ensures OnlySubnets(k, next, subnet.v6)
    ensures RulesIn(next, subnet.v6) == Changed(RulesIn(k, subnet.v6), RouteRules(subnet)(routes[i]), remove)
  {
    AddressIsMasked(routes[i].assignedIP);
    hide OnlySubnets, RulesIn, Run, OutputToSubnet, InterfaceName, WellFormed, Changed, IsMasked;
    SubnetInstruction(p, k, next, routes[i].netInterface, routes[i].assignedIP, subnet, remove);
  }

  lemma AddedForOneMore(p: Platform, was: Kernel, k: Kernel, next: Kernel, routes: seq<Route>, i: nat, subnet: Prefix)
    requires i < |routes| && routes[i].assignedIP.v6 == subnet.v6 && AddedFor(was, k, routes, i, subnet) && WellFormed(k)
    requires routes[i].netInterface != "" && InterfaceName(routes[i].netInterface) && IsAddress(routes[i].assignedIP)
    requires RunFor(p, k, next, routes[i], subnet, false)
    ensures AddedFor(was, next, routes, i + 1, subnet) && WellFormed(next)
  {
    RunForRoute(p, k, next, routes, i, subnet, false);
    OneRouteMore(routes, i, subnet);
    OnlySubnetsTwice(was, k, next, subnet.v6);
    hide RunFor, RulesIn, AllRouteRules, RouteRules, IsPortRule, WellFormed;
  }

  ghost predicate Between<T>(was: multiset<T>, k: multiset<T>, out: multiset<T>, clean: bool) {
    was - out <= k <= was && (clean ==> k == was - out)
  }

  lemma BetweenMore<T>(was: multiset<T>, k: multiset<T>, out: multiset<T>, more: multiset<T>, clean: bool)
    requires Between(was, k, out, clean)
    ensures Between(was, k - more, out + more, clean) && Between(was, k, out + more, false)
  {
  }

  lemma NothingRemoved(p: Platform, k: Kernel, next: Kernel, routes: seq<Route>, i: nat, subnet: Prefix)
    requires i < |routes| && routes[i].assignedIP.v6 == subnet.v6 && WellFormed(k) && !IsMasked(subnet)
    requires routes[i].netInterface != "" && InterfaceName(routes[i].netInterface)
    requires RunFor(p, k, next, routes[i], subnet, true)
    ensures next == k
  {
    hide Run, OutputToSubnet, InterfaceName, WellFormed, IsMasked;
    SubnetStays(p, k, next, routes[i].netInterface, routes[i].assignedIP, subnet);
  }

  /** One more route; exact tells that nothing failed so far, and that the subnet is masked. */
  lemma RemovedForOneMore(p: Platform, was: Kernel, k: Kernel, next: Kernel, routes: seq<Route>, i: nat, subnet: Prefix,
                          exact: bool, failed: bool)
    requires i < |routes| && routes[i].assignedIP.v6 == subnet.v6 && (exact ==> IsMasked(subnet))
    requires RemovedFor(was, k, routes, i, subnet, exact) && WellFormed(k)
    requires routes[i].netInterface != "" && InterfaceName(routes[i].netInterface) && IsAddress(routes[i].assignedIP)
    requires if failed then next == k else RunFor(p, k, next, routes[i], subnet, true)
    ensures RemovedFor(was, next, routes, i + 1, subnet, exact && !failed) && WellFormed(next)
  {
    if !failed {
      if IsMasked(subnet) {
        RunForRoute(p, k, next, routes, i, subnet, true);
        OnlySubnetsTwice(was, k, next, subnet.v6);
      } else {
        NothingRemoved(p, k, next, routes, i, subnet);
      }
    }
    OneRouteMore(routes, i, subnet);
    BetweenMore(RulesIn(was, subnet.v6), RulesIn(k, subnet.v6), AllRouteRules(routes[..i], subnet),
                RouteRules(subnet)(routes[i]), exact);
    hide RunFor, RulesIn, AllRouteRules, RouteRules, IsPortRule, WellFormed, Between, OnlySubnets, IsMasked;
    assert failed || !IsMasked(subnet) ==> RulesIn(next, subnet.v6) == RulesIn(k, subnet.v6);
    assert OnlySubnets(was, next, subnet.v6);
  }

  lemma LessExact(was: Kernel, k: Kernel, routes: seq<Route>, i: nat, subnet: Prefix, exact: bool)
    requires i <= |routes| && RemovedFor(was, k, routes, i, subnet, true)
    ensures RemovedFor(was, k, routes, i, subnet, exact)
  {
    hide OnlySubnets, AllRouteRules, RulesIn;
  }

  lemma HasRouteSoFar(routes: seq<Route>, i: nat, subnet: Prefix)
    requires i < |routes|
    ensures HasRoute(routes[..i + 1], subnet) <==> HasRoute(routes[..i], subnet) || routes[i].assignedIP.v6 == subnet.v6
  {
    assert routes[..i + 1] == routes[..i] + [routes[i]];
    assert routes[i] in routes[..i + 1];
  }

  // ---------------------------------------------------- the list of subnets

  /** The subnets with a default route of their family; the others are ignored. */
  ghost function WithRoute(routes: seq<Route>, subnets: seq<Prefix>): seq<Prefix> {
    if subnets == [] then []
    else
      var last := subnets[|subnets| - 1];
      WithRoute(routes, subnets[..|subnets| - 1]) + (if HasRoute(routes, last) then [last] else [])
  }

  lemma {:induction false} AllWithRoute(routes: seq<Route>, subnets: seq<Prefix>)
    requires forall s :: s in subnets ==> HasRoute(routes, s)
    ensures WithRoute(routes, subnets) == subnets
  {
    if subnets != [] {
      AllWithRoute(routes, subnets[..|subnets| - 1]);
    }
  }

  lemma OneMoreWithRoute(routes: seq<Route>, subnets: seq<Prefix>, i: nat)
    requires i < |subnets|
    ensures WithRoute(routes, subnets[..i + 1])
            == WithRoute(routes, subnets[..i]) + (if HasRoute(routes, subnets[i]) then [subnets[i]] else [])
  {
    assert subnets[..i + 1][..i] == subnets[..i];
  }

  ghost function TrackedRules(routes: seq<Route>, subnets: seq<Prefix>, v6: bool): multiset<Located> {
    Sum(subnets, SubnetRules(routes, v6))
  }

  /** The rules that subnets account for: those of the tracked ones, and what is left over. */
  ghost function Account(routes: seq<Route>, subnets: seq<Prefix>, left: Leftover, v6: bool): multiset<Located> {
    TrackedRules(routes, subnets, v6) + left.In(v6)
  }

  /** Rules in the kernel come and go exactly with what subnets account for. */
  ghost predicate Conserved(routes: seq<Route>, k: Kernel, subnets: seq<Prefix>, left: Leftover,
                            next: Kernel, nextSubnets: seq<Prefix>, nextLeft: Leftover) {
    forall v6: bool :: ConservedIn(routes, k, subnets, left, next, nextSubnets, nextLeft, v6)
  }

  ghost predicate ConservedIn(routes: seq<Route>, k: Kernel, subnets: seq<Prefix>, left: Leftover,
                              next: Kernel, nextSubnets: seq<Prefix>, nextLeft: Leftover, v6: bool) {
    RulesIn(next, v6) + Account(routes, subnets, left, v6) == RulesIn(k, v6) + Account(routes, nextSubnets, nextLeft, v6)
  }

  /** One family changes, the other one does not. */
  lemma ConservedInBoth(routes: seq<Route>, k: Kernel, subnets: seq<Prefix>, left: Leftover,
                        next: Kernel, nextSubnets: seq<Prefix>, more: multiset<Located>, v6: bool)
    requires OnlySubnets(k, next, v6)
    requires TrackedRules(routes, nextSubnets, !v6) == TrackedRules(routes, subnets, !v6)
    requires RulesIn(next, v6) + (TrackedRules(routes, subnets, v6) + left.In(v6))
             == RulesIn(k, v6) + (TrackedRules(routes, nextSubnets, v6) + (left.In(v6) + more))
    ensures Conserved(routes, k, subnets, left, next, nextSubnets, More(left, more, v6))
  {
    OtherFamily(k, next, v6);
    hide OnlySubnets, TrackedRules, RulesIn;
    var nextLeft := More(left, more, v6);
    assert ConservedIn(routes, k, subnets, left, next, nextSubnets, nextLeft, v6);
    assert ConservedIn(routes, k, subnets, left, next, nextSubnets, nextLeft, !v6);
    forall family: bool ensures ConservedIn(routes, k, subnets, left, next, nextSubnets, nextLeft, family) {
      assert family == v6 || family == !v6;
    }
  }

  lemma ConservedTwice(routes: seq<Route>, k: Kernel, subnets: seq<Prefix>, left: Leftover,
                       mid: Kernel, midSubnets: seq<Prefix>, midLeft: Leftover,
                       next: Kernel, nextSubnets: seq<Prefix>, nextLeft: Leftover)
    requires Conserved(routes, k, subnets, left, mid, midSubnets, midLeft)
    requires Conserved(routes, mid, midSubnets, midLeft, next, nextSubnets, nextLeft)
    ensures Conserved(routes, k, subnets, left, next, nextSubnets, nextLeft)
  {
    hide RulesIn, Account;
    forall v6: bool ensures ConservedIn(routes, k, subnets, left, next, nextSubnets, nextLeft, v6) {
      assert ConservedIn(routes, k, subnets, left, mid, midSubnets, midLeft, v6);
      assert ConservedIn(routes, mid, midSubnets, midLeft, next, nextSubnets, nextLeft, v6);
      Transitive(RulesIn(k, v6), RulesIn(mid, v6), RulesIn(next, v6), Account(routes, subnets, left, v6),
                 Account(routes, midSubnets, midLeft, v6), Account(routes, nextSubnets, nextLeft, v6));
    }
  }

  ghost function More(left: Leftover, more: multiset<Located>, v6: bool): Leftover {
    if v6 then left.(v6 := left.v6 + more) else left.(v4 := left.v4 + more)
  }

  /** The rule of one of the subnets for one of the routes. */
  ghost predicate IsSubnetRule(routes: seq<Route>, subnets: set<Prefix>, l: Located) {
    exists r, subnet :: r in routes && subnet in subnets && l == SubnetRule(r.netInterface, r.assignedIP, subnet)
  }

  /** Only rules of these subnets are left over: not those of the base, nor port rules. */
  ghost predicate OnlySubnetRules(routes: seq<Route>, subnets: set<Prefix>, left: Leftover) {
    forall v6: bool, l :: l in left.In(v6) ==> IsSubnetRule(routes, subnets, l)
  }

  lemma MoreSubnets(routes: seq<Route>, subnets: set<Prefix>, all: set<Prefix>, left: Leftover)
    requires OnlySubnetRules(routes, subnets, left) && subnets <= all
    ensures OnlySubnetRules(routes, all, left)
  {
    hide SubnetRule;
    forall v6: bool, l | l in left.In(v6) ensures IsSubnetRule(routes, all, l) {
      assert IsSubnetRule(routes, subnets, l);
    }
  }

  ghost predicate Grows(left: Leftover, next: Leftover) {
    left.v4 <= next.v4 && left.v6 <= next.v6
  }

  lemma {:induction false} RouteRulesAreSubnetRules(routes: seq<Route>, n: nat, subnets: set<Prefix>, subnet: Prefix)
    requires n <= |routes| && subnet in subnets
    ensures forall l :: l in AllRouteRules(routes[..n], subnet) ==> IsSubnetRule(routes, subnets, l)
  {
    if n > 0 {
      RouteRulesAreSubnetRules(routes, n - 1, subnets, subnet);
      OneRouteMore(routes, n - 1, subnet);
      hide AllRouteRules, SubnetRule;
      var r := routes[n - 1];
      assert r.assignedIP.v6 == subnet.v6 ==>
          IsSubnetRule(routes, subnets, SubnetRule(r.netInterface, r.assignedIP, subnet));
    }
  }

  lemma NoMore(left: Leftover, v6: bool)
    ensures More(left, multiset{}, v6) == left && left.In(v6) + multiset{} == left.In(v6)
  {
    assert left.v4 + multiset{} == left.v4 && left.v6 + multiset{} == left.v6;
  }

  lemma SomeMore(left: Leftover, more: multiset<Located>, v6: bool)
    requires more != multiset{}
    ensures More(left, more, v6) != left
  {
    assert |More(left, more, v6).In(v6)| == |left.In(v6)| + |more|;
  }

  lemma {:induction false} RoutesHaveRules(routes: seq<Route>, subnet: Prefix)
    requires HasRoute(routes, subnet)
    ensures AllRouteRules(routes, subnet) != multiset{}
  {
    var init, last := routes[..|routes| - 1], routes[|routes| - 1];
    assert routes == init + [last];
    SumMore(init, last, RouteRules(subnet));
    if last.assignedIP.v6 == subnet.v6 {
      assert SubnetRule(last.netInterface, last.assignedIP, subnet) in RouteRules(subnet)(last);
    } else {
      RoutesHaveRules(init, subnet);
    }
  }

  lemma AllRemains(k: Kernel, next: Kernel, routes: seq<Route>, subnet: Prefix)
    requires HasRoute(routes, subnet) && next == k
    ensures Remains(k, next, routes, subnet) != multiset{}
  {
    RoutesHaveRules(routes, subnet);
    hide AllRouteRules, RulesIn;
    assert Remains(k, next, routes, subnet) == AllRouteRules(routes, subnet);
  }

  lemma InMore(left: Leftover, more: multiset<Located>, v6: bool, family: bool, l: Located)
    ensures l in More(left, more, v6).In(family) ==> l in left.In(family) || l in more
    ensures Grows(left, More(left, more, v6))
  {
  }

  lemma MoreIsFine(routes: seq<Route>, n: nat, subnets: set<Prefix>, subnet: Prefix, left: Leftover,
                   more: multiset<Located>)
    requires n <= |routes| && subnet in subnets && OnlySubnetRules(routes, subnets, left)
    requires more <= AllRouteRules(routes[..n], subnet)
    ensures OnlySubnetRules(routes, subnets, More(left, more, subnet.v6)) && Grows(left, More(left, more, subnet.v6))
  {
    RouteRulesAreSubnetRules(routes, n, subnets, subnet);
    hide AllRouteRules, IsSubnetRule, More, Grows;
    InMore(left, more, subnet.v6, false, Located("", "", AnyRule(false)));
    forall v6: bool, l | l in More(left, more, subnet.v6).In(v6) ensures IsSubnetRule(routes, subnets, l) {
      InMore(left, more, subnet.v6, v6, l);
    }
  }

  lemma NothingLeftOver(routes: seq<Route>, subnets: set<Prefix>)
    ensures OnlySubnetRules(routes, subnets, NO_LEFTOVER)
  {
    hide IsSubnetRule;
  }

  lemma Transitive<T>(k: multiset<T>, mid: multiset<T>, next: multiset<T>, s: multiset<T>, t: multiset<T>,
                      u: multiset<T>)
    requires mid + s == k + t && next + t == mid + u
    ensures next + s == k + u
  {
    forall x ensures (next + s)[x] == (k + u)[x] {
      assert (mid + s)[x] == (k + t)[x] && (next + t)[x] == (mid + u)[x];
    }
  }

  lemma OneMoreTracked(routes: seq<Route>, subnets: seq<Prefix>, subnet: Prefix)
    ensures TrackedRules(routes, subnets + [subnet], subnet.v6)
            == TrackedRules(routes, subnets, subnet.v6) + AllRouteRules(routes, subnet)
    ensures TrackedRules(routes, subnets + [subnet], !subnet.v6) == TrackedRules(routes, subnets, !subnet.v6)
  {
    SumMore(subnets, subnet, SubnetRules(routes, subnet.v6));
    SumMore(subnets, subnet, SubnetRules(routes, !subnet.v6));
    hide Sum;
  }

  lemma OneLessTracked(routes: seq<Route>, subnets: seq<Prefix>, rest: seq<Prefix>, subnet: Prefix)
    requires subnet in subnets && multiset(rest) == multiset(subnets) - multiset{subnet}
    ensures TrackedRules(routes, subnets, subnet.v6)
            == TrackedRules(routes, rest, subnet.v6) + AllRouteRules(routes, subnet)
    ensures TrackedRules(routes, subnets, !subnet.v6) == TrackedRules(routes, rest, !subnet.v6)
  {
    SumWithout(subnets, rest, subnet, SubnetRules(routes, subnet.v6));
    SumWithout(subnets, rest, subnet, SubnetRules(routes, !subnet.v6));
    hide Sum;
  }

  lemma BothMore<T>(tracked: multiset<T>, left: multiset<T>, k: multiset<T>, more: multiset<T>)
    requires tracked <= k
    ensures tracked + more <= k + more && (k + more) + (tracked + left) == k + (tracked + more + left)
  {
  }

  lemma BothLess<T>(tracked: multiset<T>, left: multiset<T>, k: multiset<T>, next: multiset<T>, out: multiset<T>,
                    exact: bool)
    requires tracked + out <= k && Between(k, next, out, exact)
    ensures tracked <= next && (exact ==> out - (k - next) == multiset{})
    ensures next + (tracked + out + left) == k + (tracked + (left + (out - (k - next))))
  {
    forall x
      ensures tracked[x] <= next[x] && (exact ==> (out - (k - next))[x] == 0)
      ensures (next + (tracked + out + left))[x] == (k + (tracked + (left + (out - (k - next)))))[x]
    {
      assert (tracked + out)[x] <= k[x];
      assert (k - out)[x] <= next[x] <= k[x];
    }
  }

  /** A subnet with all its rules added can be tracked. */
  lemma TrackMore(k: Kernel, next: Kernel, routes: seq<Route>, subnets: seq<Prefix>, left: Leftover, subnet: Prefix)
    requires Held(k, routes, subnets) && AddedFor(k, next, routes, |routes|, subnet)
    ensures Held(next, routes, subnets + [subnet])
    ensures Conserved(routes, k, subnets, left, next, subnets + [subnet], left)
  {
    OneMoreTracked(routes, subnets, subnet);
    HeldAs(k, routes, subnets);
    HeldAs(next, routes, subnets + [subnet]);
    assert routes[..|routes|] == routes;
    BothMore(TrackedRules(routes, subnets, subnet.v6), left.In(subnet.v6), RulesIn(k, subnet.v6),
             AllRouteRules(routes, subnet));
    OtherFamily(k, next, subnet.v6);
    hide Held, OnlySubnets, AllRouteRules, TrackedRules, RulesIn, More, Conserved;
    NoMore(left, subnet.v6);
    ConservedInBoth(routes, k, subnets, left, next, subnets + [subnet], multiset{}, subnet.v6);
  }

  lemma OtherFamily(k: Kernel, next: Kernel, v6: bool)
    requires OnlySubnets(k, next, v6)
    ensures RulesIn(next, !v6) == RulesIn(k, !v6)
  {
  }

  lemma HeldAs(k: Kernel, routes: seq<Route>, subnets: seq<Prefix>)
    ensures Held(k, routes, subnets)
            <==> TrackedRules(routes, subnets, false) <= RulesIn(k, false) && TrackedRules(routes, subnets, true) <= RulesIn(k, true)
  {
  }

  /** What is left over of a subnet that is no longer tracked. */
  ghost function Remains(k: Kernel, next: Kernel, routes: seq<Route>, subnet: Prefix): multiset<Located> {
    AllRouteRules(routes, subnet) - (RulesIn(k, subnet.v6) - RulesIn(next, subnet.v6))
  }

  /** A subnet whose rules were removed, or not all of them, is no longer tracked. */
  lemma TrackLess(k: Kernel, next: Kernel, routes: seq<Route>, subnets: seq<Prefix>, left: Leftover, rest: seq<Prefix>,
                  subnet: Prefix, exact: bool)
    requires Held(k, routes, subnets) && RemovedFor(k, next, routes, |routes|, subnet, exact)
    requires subnet in subnets && multiset(rest) == multiset(subnets) - multiset{subnet}
    ensures Held(next, routes, rest) && (exact ==> Remains(k, next, routes, subnet) == multiset{})
    ensures Conserved(routes, k, subnets, left, next, rest, More(left, Remains(k, next, routes, subnet), subnet.v6))
  {
    OneLessTracked(routes, subnets, rest, subnet);
    HeldAs(k, routes, subnets);
    HeldAs(next, routes, rest);
    assert routes[..|routes|] == routes;
    BothLess(TrackedRules(routes, rest, subnet.v6), left.In(subnet.v6), RulesIn(k, subnet.v6), RulesIn(next, subnet.v6),
             AllRouteRules(routes, subnet), exact);
    OtherFamily(k, next, subnet.v6);
    hide Held, OnlySubnets, AllRouteRules, TrackedRules, RulesIn, Between, More, Conserved;
    ConservedInBoth(routes, k, subnets, left, next, rest, Remains(k, next, routes, subnet), subnet.v6);
  }

  /** With rules added for some routes only, everything tracked is still there. */
  lemma HeldWithMore(k: Kernel, next: Kernel, routes: seq<Route>, subnets: seq<Prefix>, v6: bool)
    requires Held(k, routes, subnets) && OnlySubnets(k, next, v6) && RulesIn(k, v6) <= RulesIn(next, v6)
    ensures Held(next, routes, subnets)
  {
    HeldAs(k, routes, subnets);
    HeldAs(next, routes, subnets);
    hide Held, IsPortRule, WellFormed, TrackedRules, RulesIn;
    if v6 {
    } else {
    }
  }

  lemma ConservedAtOnce(routes: seq<Route>, k: Kernel, subnets: seq<Prefix>, left: Leftover)
    ensures Conserved(routes, k, subnets, left, k, subnets, left)
  {
  }

  lemma RemovedOnly(k: Kernel, next: Kernel, routes: seq<Route>, subnet: Prefix, clean: bool)
    requires RemovedFor(k, next, routes, |routes|, subnet, clean)
    ensures OnlySubnets(k, next, subnet.v6)
  {
  }

  /** The entries that a request takes away have rules that can be deleted, or none. */
  ghost predicate GoneDeletable(routes: seq<Route>, tracked: seq<Prefix>, subnets: seq<Prefix>) {
    AllDeletable(routes, Missing(tracked, subnets))
  }

  lemma NoneToDelete(routes: seq<Route>)
    ensures AllDeletable(routes, [])
  {
  }

  ghost function EntriesOf(subnets: seq<Prefix>): (entries: set<Prefix>)
    ensures forall s :: s in entries <==> s in subnets
  {
    set s | s in subnets
  }

  lemma FewerEntries(rest: seq<Prefix>, all: seq<Prefix>, subnet: Prefix)
    ensures rest == all || IsWithout(rest, all, subnet) ==> forall s :: s in rest ==> s in all
  {
    if IsWithout(rest, all, subnet) {
      forall s | s in rest ensures s in all {
        assert s in multiset(rest);
      }
    }
  }

  lemma GrowsByNothing(left: Leftover)
    ensures Grows(left, left)
  {
  }

  lemma GrowsTwice(left: Leftover, mid: Leftover, next: Leftover)
    requires Grows(left, mid) && Grows(mid, next)
    ensures Grows(left, next) && (left == next <==> left == mid && mid == next)
  {
  }

  /** The rules of this subnet can only be deleted if it is masked; without a route there are none. */
  /** Rules of a subnet need ip6tables if it has any and is one of IPv6. */
  ghost predicate Served(p: Platform, routes: seq<Route>, subnet: Prefix) {
    HasRoute(routes, subnet) && subnet.v6 ==> p.ip6Tables
  }

  ghost predicate AllServed(p: Platform, routes: seq<Route>, subnets: seq<Prefix>) {
    forall i :: 0 <= i < |subnets| ==> Served(p, routes, subnets[i])
  }

  /** A change of the list ends well exactly if ip6tables is there for what comes, and for what goes. */
  ghost predicate EndsAsServed(p: Platform, routes: seq<Route>, tracked: seq<Prefix>, subnets: seq<Prefix>, done: bool,
                               clean: bool) {
    && (done <==> AllServed(p, routes, Missing(subnets, tracked)))
    && (clean <==> AllServed(p, routes, Missing(tracked, subnets)))
  }

  lemma NoneToServe(p: Platform, routes: seq<Route>)
    ensures AllServed(p, routes, [])
  {
  }

  lemma RouteMakesServed(p: Platform, routes: seq<Route>, i: nat, subnet: Prefix)
    requires i < |routes| && routes[i].assignedIP.v6 == subnet.v6
    ensures HasRoute(routes, subnet) && (Served(p, routes, subnet) <==> !subnet.v6 || p.ip6Tables)
  {
  }

  ghost predicate Deletable(routes: seq<Route>, subnet: Prefix) {
    HasRoute(routes, subnet) ==> IsMasked(subnet)
  }

  ghost predicate AllDeletable(routes: seq<Route>, subnets: seq<Prefix>) {
    forall i :: 0 <= i < |subnets| ==> Deletable(routes, subnets[i])
  }

  lemma OneMoreChecked(p: Platform, routes: seq<Route>, subnets: seq<Prefix>, n: nat)
    requires n < |subnets|
    ensures AllServed(p, routes, subnets[..n + 1]) <==> AllServed(p, routes, subnets[..n]) && Served(p, routes, subnets[n])
    ensures AllDeletable(routes, subnets[..n + 1]) <==> AllDeletable(routes, subnets[..n]) && Deletable(routes, subnets[n])
  {
    hide Served, Deletable;
    assert subnets[..n + 1] == subnets[..n] + [subnets[n]];
  }

  lemma ServedInAll(p: Platform, routes: seq<Route>, subnets: seq<Prefix>, n: nat)
    requires n < |subnets|
    ensures AllServed(p, routes, subnets) ==> Served(p, routes, subnets[n])
  {
    hide Served;
  }

  lemma NoneWithRoute(routes: seq<Route>)
    ensures WithRoute(routes, []) == []
  {
  }

  lemma RemainsAreRouteRules(k: Kernel, next: Kernel, routes: seq<Route>, subnet: Prefix)
    ensures Remains(k, next, routes, subnet) <= AllRouteRules(routes, subnet)
  {
    hide AllRouteRules, RulesIn;
  }

  /** The account after a subnet is no longer tracked. */
  lemma Untracked(v: View, next: Kernel, rest: seq<Prefix>, subnet: Prefix, exact: bool) returns (left: Leftover)
    requires Held(v.kernel, v.routes, v.subnets) && RemovedFor(v.kernel, next, v.routes, |v.routes|, subnet, exact)
    requires subnet in v.subnets && subnet in v.asked && OnlySubnetRules(v.routes, v.asked, v.leftover)
    requires multiset(rest) == multiset(v.subnets) - multiset{subnet} && HasRoute(v.routes, subnet)
    ensures Held(next, v.routes, rest) && Conserved(v.routes, v.kernel, v.subnets, v.leftover, next, rest, left)
    ensures OnlySubnetRules(v.routes, v.asked, left) && Grows(v.leftover, left)
    ensures (exact ==> left == v.leftover) && (next == v.kernel ==> left != v.leftover)
  {
    hide *;
    var remains := Remains(v.kernel, next, v.routes, subnet);
    TrackLess(v.kernel, next, v.routes, v.subnets, v.leftover, rest, subnet, exact);
    assert v.routes[..|v.routes|] == v.routes;
    RemainsAreRouteRules(v.kernel, next, v.routes, subnet);
    NoMore(v.leftover, subnet.v6);
    MoreIsFine(v.routes, |v.routes|, v.asked, subnet, v.leftover, remains);
    if next == v.kernel {
      AllRemains(v.kernel, next, v.routes, subnet);
      SomeMore(v.leftover, remains, subnet.v6);
    }
    left := More(v.leftover, remains, subnet.v6);
  }

  lemma RemovedFromTracked(v: View, next: Kernel, rest: seq<Prefix>, subnet: Prefix, updated: bool, exact: bool)
    returns (left: Leftover)
    requires InSync(v) && RemovedFor(v.kernel, next, v.routes, |v.routes|, subnet, exact)
    requires subnet in v.subnets && subnet in v.asked && OnlySubnetRules(v.routes, v.asked, v.leftover)
    requires if updated then IsWithout(rest, v.subnets, subnet) else rest == v.subnets && next == v.kernel
    requires updated <==> HasRoute(v.routes, subnet)
    ensures OnlySubnets(v.kernel, next, subnet.v6) && Held(next, v.routes, rest)
    ensures Conserved(v.routes, v.kernel, v.subnets, v.leftover, next, rest, left)
    ensures OnlySubnetRules(v.routes, v.asked, left) && Grows(v.leftover, left)
    ensures (exact || !updated ==> left == v.leftover) && (updated && next == v.kernel ==> left != v.leftover)
  {
    hide InSync, RemovedFor, OnlySubnets, Held, Conserved, OnlySubnetRules, HasRoute, Grows;
    SyncHolds(v);
    GrowsByNothing(v.leftover);
    RemovedOnly(v.kernel, next, v.routes, subnet, exact);
    ConservedAtOnce(v.routes, v.kernel, v.subnets, v.leftover);
    if updated {
      left := Untracked(v, next, rest, subnet, exact);
    } else {
      left := v.leftover;
    }
  }

  /** Rules that were added for some routes only are left over. */
  lemma AddedInPart(routes: seq<Route>, k: Kernel, next: Kernel, subnets: seq<Prefix>, left: Leftover, i: nat,
                    subnet: Prefix)
    requires i <= |routes| && AddedFor(k, next, routes, i, subnet)
    ensures Conserved(routes, k, subnets, left, next, subnets,
                      More(left, AllRouteRules(routes[..i], subnet), subnet.v6))
  {
    hide OnlySubnets, AllRouteRules, TrackedRules, RulesIn, More, Conserved;
    ConservedInBoth(routes, k, subnets, left, next, subnets, AllRouteRules(routes[..i], subnet), subnet.v6);
  }

  lemma AddedPartly(v: View, next: Kernel, i: nat, subnet: Prefix) returns (left: Leftover)
    requires i <= |v.routes| && AddedFor(v.kernel, next, v.routes, i, subnet)
    requires subnet in v.asked && OnlySubnetRules(v.routes, v.asked, v.leftover)
    ensures Conserved(v.routes, v.kernel, v.subnets, v.leftover, next, v.subnets, left)
    ensures OnlySubnetRules(v.routes, v.asked, left) && Grows(v.leftover, left)
  {
    hide *;
    AddedInPart(v.routes, v.kernel, next, v.subnets, v.leftover, i, subnet);
    MoreIsFine(v.routes, i, v.asked, subnet, v.leftover, AllRouteRules(v.routes[..i], subnet));
    left := More(v.leftover, AllRouteRules(v.routes[..i], subnet), subnet.v6);
  }

  lemma AddedOnTop(v: View, next: Kernel, subnet: Prefix, updated: bool, done: bool) returns (left: Leftover)
    requires InSync(v) && exists i :: 0 <= i <= |v.routes| && AddedFor(v.kernel, next, v.routes, i, subnet)
    requires subnet in v.asked && OnlySubnetRules(v.routes, v.asked, v.leftover)
    requires done ==> AddedFor(v.kernel, next, v.routes, |v.routes|, subnet)
    requires !updated ==> next == v.kernel
    ensures OnlySubnets(v.kernel, next, subnet.v6) && Held(next, v.routes, v.subnets)
    ensures var subnets := if done && updated then v.subnets + [subnet] else v.subnets;
            Held(next, v.routes, subnets) && Conserved(v.routes, v.kernel, v.subnets, v.leftover, next, subnets, left)
    ensures OnlySubnetRules(v.routes, v.asked, left) && Grows(v.leftover, left) && (done || !updated ==> left == v.leftover)
  {
    SyncHolds(v);
    ConservedAtOnce(v.routes, v.kernel, v.subnets, v.leftover);
    AddedGrows(v.kernel, next, v.routes, subnet);
    GrowsByNothing(v.leftover);
    hide InSync, AddedFor, OnlySubnets, Held, Conserved, RulesIn, OnlySubnetRules, Grows;
    HeldWithMore(v.kernel, next, v.routes, v.subnets, subnet.v6);
    left := v.leftover;
    if done && updated {
      TrackMore(v.kernel, next, v.routes, v.subnets, v.leftover, subnet);
    } else if updated {
      var i :| 0 <= i <= |v.routes| && AddedFor(v.kernel, next, v.routes, i, subnet);
      left := AddedPartly(v, next, i, subnet);
    }
  }

  lemma AddedGrows(k: Kernel, next: Kernel, routes: seq<Route>, subnet: Prefix)
    requires exists i :: 0 <= i <= |routes| && AddedFor(k, next, routes, i, subnet)
    ensures OnlySubnets(k, next, subnet.v6) && RulesIn(k, subnet.v6) <= RulesIn(next, subnet.v6)
  {
    hide OnlySubnets, RulesIn, AllRouteRules;
  }

  // ------------------------------------------------------- a new list of subnets

  /** The port rules of both families are as before. */
  ghost predicate PortsKept(k: Kernel, next: Kernel) {
    forall l :: IsPortRule(l) ==> multiset(next.v4.rules)[l] == multiset(k.v4.rules)[l]
                                  && multiset(next.v6.rules)[l] == multiset(k.v6.rules)[l]
  }

  lemma PortsKeptAtOnce(k: Kernel)
    ensures PortsKept(k, k)
  {
  }

  lemma PortsKeptTwice(k: Kernel, mid: Kernel, next: Kernel)
    requires PortsKept(k, mid) && PortsKept(mid, next)
    ensures PortsKept(k, next)
  {
    hide IsPortRule;
  }

  lemma OnlySubnetsKeepPorts(k: Kernel, mid: Kernel, next: Kernel, v6: bool)
    requires PortsKept(k, mid) && OnlySubnets(mid, next, v6)
    ensures PortsKept(k, next)
  {
    hide IsPortRule, WellFormed;
    assert PortsKept(mid, next);
  }

  /** What is tracked when the first n of the subnets to remove were looked at. */
  ghost predicate LeftAfter(routes: seq<Route>, tracked: seq<Prefix>, subnets: seq<Prefix>, n: nat, now: seq<Prefix>)
    requires n <= |subnets|
  {
    && multiset(now) == multiset(tracked) - multiset(WithRoute(routes, subnets[..n]))
    && multiset(subnets[n..]) <= multiset(now)
  }

  lemma AtFirst(routes: seq<Route>, k: Kernel, tracked: seq<Prefix>, left: Leftover, subnets: seq<Prefix>)
    ensures PortsKept(k, k) && Conserved(routes, k, tracked, left, k, tracked, left)
    ensures multiset(subnets) <= multiset(tracked) ==> LeftAfter(routes, tracked, subnets, 0, tracked)
    ensures tracked + WithRoute(routes, subnets[..0]) == tracked
  {
    assert subnets[0..] == subnets;
  }

  lemma AllTaken(routes: seq<Route>, tracked: seq<Prefix>, subnets: seq<Prefix>, now: seq<Prefix>)
    ensures subnets[..|subnets|] == subnets
    ensures LeftAfter(routes, tracked, subnets, |subnets|, now) ==>
              multiset(now) == multiset(tracked) - multiset(WithRoute(routes, subnets))
  {
    hide WithRoute;
    assert subnets[..|subnets|] == subnets;
  }

  lemma NextToRemove(routes: seq<Route>, tracked: seq<Prefix>, subnets: seq<Prefix>, n: nat, now: seq<Prefix>)
    requires n < |subnets| && LeftAfter(routes, tracked, subnets, n, now)
    ensures subnets[n] in now
  {
    assert subnets[n] in multiset(subnets[n..]);
  }

  lemma OneRemoved(routes: seq<Route>, tracked: seq<Prefix>, subnets: seq<Prefix>, n: nat, now: seq<Prefix>,
                   next: seq<Prefix>)
    requires n < |subnets| && LeftAfter(routes, tracked, subnets, n, now)
    requires if HasRoute(routes, subnets[n]) then IsWithout(next, now, subnets[n]) else next == now
    ensures LeftAfter(routes, tracked, subnets, n + 1, next)
  {
    hide WithRoute, HasRoute;
    OneMoreWithRoute(routes, subnets, n);
    var one := if HasRoute(routes, subnets[n]) then [subnets[n]] else [];
    assert subnets[n..] == [subnets[n]] + subnets[n + 1..];
    TakenInTurn(multiset(tracked), multiset(WithRoute(routes, subnets[..n])), multiset(one), multiset(now),
                subnets[n], multiset(subnets[n + 1..]));
    NoneTaken(now);
  }

  lemma NoneTaken(now: seq<Prefix>)
    ensures multiset(now) - multiset([]) == multiset(now)
  {
  }

  lemma TakenInTurn<T>(all: multiset<T>, out: multiset<T>, one: multiset<T>, now: multiset<T>, x: T, rest: multiset<T>)
    requires now == all - out && multiset{x} + rest <= now && one <= multiset{x}
    ensures now - one == all - (out + one) && rest <= now - one
  {
    forall y ensures rest[y] <= (now - one)[y] {
      assert (multiset{x} + rest)[y] <= now[y];
    }
  }

  /** The subnets tracked after a request, of whose new entries the first n were added. */
  ghost function ChangedSubnets(routes: seq<Route>, tracked: seq<Prefix>, subnets: seq<Prefix>,
                                n: nat): multiset<Prefix>
    requires n <= |Missing(subnets, tracked)|
  {
    multiset(tracked) - multiset(WithRoute(routes, Missing(tracked, subnets)))
    + multiset(WithRoute(routes, Missing(subnets, tracked)[..n]))
  }

  /** The subnets tracked after a request: with all its new entries if done, or with the first of them. */
  ghost predicate Requested(routes: seq<Route>, tracked: seq<Prefix>, subnets: seq<Prefix>, now: seq<Prefix>,
                            done: bool) {
    exists n :: 0 <= n <= |Missing(subnets, tracked)| && (done ==> n == |Missing(subnets, tracked)|)
                && multiset(now) == ChangedSubnets(routes, tracked, subnets, n)
  }

  lemma NothingMissing(routes: seq<Route>, tracked: seq<Prefix>, subnets: seq<Prefix>)
    requires Missing(tracked, subnets) == Missing(subnets, tracked) == []
    ensures Requested(routes, tracked, subnets, tracked, true)
  {
    assert multiset(tracked) == ChangedSubnets(routes, tracked, subnets, 0);
  }

  lemma RequestedIs(routes: seq<Route>, tracked: seq<Prefix>, subnets: seq<Prefix>, some: seq<Prefix>, now: seq<Prefix>,
                    n: nat, done: bool)
    requires multiset(some) == multiset(tracked) - multiset(WithRoute(routes, Missing(tracked, subnets)))
    requires n <= |Missing(subnets, tracked)| && (done ==> n == |Missing(subnets, tracked)|)
    requires now == some + WithRoute(routes, Missing(subnets, tracked)[..n])
    ensures Requested(routes, tracked, subnets, now, done)
  {
    hide WithRoute, Missing;
    assert multiset(now) == ChangedSubnets(routes, tracked, subnets, n);
  }

  /** What a change of the list comes down to, for the entries that come and for those that go. */
  lemma ServedIs(p: Platform, routes: seq<Route>, tracked: seq<Prefix>, subnets: seq<Prefix>)
    ensures GoneDeletable(routes, tracked, subnets) <==> AllDeletable(routes, Missing(tracked, subnets))
    ensures forall done, clean ::
              EndsAsServed(p, routes, tracked, subnets, done, clean)
              <==> (done <==> AllServed(p, routes, Missing(subnets, tracked)))
                   && (clean <==> AllServed(p, routes, Missing(tracked, subnets)))
  {
  }

  lemma MissingAreNew(xs: seq<Prefix>, ys: seq<Prefix>)
    ensures forall s :: s in Missing(xs, ys) ==> s in xs
  {
    MissingAreEntries(xs, ys);
    assert forall s :: s in Missing(xs, ys) ==> s in multiset(Missing(xs, ys));
    assert forall s :: s in multiset(xs) ==> s in xs;
  }

  lemma MissingAreEntries(xs: seq<Prefix>, ys: seq<Prefix>)
    ensures multiset(Missing(xs, ys)) <= multiset(xs)
  {
    forall p ensures multiset(Missing(xs, ys))[p] <= multiset(xs)[p] {
      MissingCount(xs, ys, p);
    }
  }

  /** With a default route for every subnet, the request is what is tracked. */
  lemma RequestIsTracked(routes: seq<Route>, tracked: seq<Prefix>, subnets: seq<Prefix>, now: seq<Prefix>)
    requires forall s :: s in tracked || s in subnets ==> HasRoute(routes, s)
    requires multiset(now) == ChangedSubnets(routes, tracked, subnets, |Missing(subnets, tracked)|)
    ensures forall s :: s in now <==> s in subnets
  {
    hide HasRoute, Missing, WithRoute;
    AllWithRoute(routes, Missing(tracked, subnets));
    AllWithRoute(routes, Missing(subnets, tracked));
    assert Missing(subnets, tracked)[..|Missing(subnets, tracked)|] == Missing(subnets, tracked);
    ChangesReachRequest(tracked, subnets, multiset(now));
    forall s ensures s in now <==> s in subnets {
      assert s in now <==> s in multiset(now);
    }
  }
}
