/** What each step of enabling the firewall makes of the kernel. */
module Enabling {
  import opened Wrappers
  import opened IptablesRules
  import opened IptablesKernel
  import opened Iptables
  import opened PortRules
  import opened PortRedirections
  import opened Sums
  import opened FirewallRules
  import opened BaseRules
  import opened FirewallSync
  import opened OutboundSubnets

  // ------------------------------------------------------------- policies

  /** An instruction that appends a rule other than a port rule, if it is accepted at all. */
  ghost predicate AddsElsewhere(fields: seq<Field>) {
    Elsewhere(fields) && fields != [] && fields[0] != Word("--policy")
  }

  lemma {:induction false} PoliciesStay(p: Platform, k: Kernel, next: Kernel, xs: seq<Instr>)
    requires RunAll(p, k, xs) == Some(next) && forall x :: x in xs ==> AddsElsewhere(x.fields)
    ensures next.v4.policies == k.v4.policies && next.v6.policies == k.v6.policies
    decreases |xs|
  {
    if xs != [] {
      assert xs[0] in xs && forall x :: x in xs[1..] ==> x in xs;
      PolicyStays(p, k, xs[0]);
      hide Run, AddsElsewhere;
      PoliciesStay(p, Run(p, k, xs[0]).value, next, xs[1..]);
    }
  }

  lemma PolicyStays(p: Platform, k: Kernel, x: Instr)
    requires AddsElsewhere(x.fields) && Run(p, k, x).Some?
    ensures Run(p, k, x).value.v4.policies == k.v4.policies && Run(p, k, x).value.v6.policies == k.v6.policies
  {
    hide Parse, IsDeleteMatch;
  }

  function SetPolicy(p: Platform, k: Kernel, chain: string, policy: string, v6: bool): Kernel {
    if !v6 then k.(v4 := k.v4.(policies := k.v4.policies[chain := policy]))
    else if !p.ip6Tables then k
    else k.(v6 := k.v6.(policies := k.v6.policies[chain := policy]))
  }

  lemma RunsPolicy(p: Platform, k: Kernel, chain: string, policy: string, v6: bool)
    requires chain == "INPUT" || chain == "OUTPUT" || chain == "FORWARD"
    requires policy == "ACCEPT" || policy == "DROP"
    ensures Run(p, k, Instr(v6, Policy(chain, policy))) == Some(SetPolicy(p, k, chain, policy, v6))
  {
    NotDelete(Policy(chain, policy));
    hide IsDeleteMatch, Parse;
  }

  lemma RunThree(p: Platform, k: Kernel, a: Instr, b: Instr, c: Instr, k1: Kernel, k2: Kernel, k3: Kernel)
    requires Run(p, k, a) == Some(k1) && Run(p, k1, b) == Some(k2) && Run(p, k2, c) == Some(k3)
    ensures RunAll(p, k, [a, b, c]) == Some(k3)
  {
    hide Run;
    assert [a, b, c][1..] == [b, c] && [b, c][1..] == [c] && [c][1..] == [];
    assert RunAll(p, k2, [c]) == RunAll(p, k3, []);
    assert RunAll(p, k1, [b, c]) == RunAll(p, k2, [c]);
  }

  ghost function AllSet(p: Platform, k: Kernel, policy: string, v6: bool): Kernel {
    SetPolicy(p, SetPolicy(p, SetPolicy(p, k, "INPUT", policy, v6), "OUTPUT", policy, v6), "FORWARD", policy, v6)
  }

  /** All three policies of one family are set, and nothing else is. */
  lemma RunsPolicies(p: Platform, k: Kernel, policy: string, v6: bool)
    requires policy == "ACCEPT" || policy == "DROP"
    ensures RunAll(p, k, if v6 then OnlyV6(AllPolicies(policy)) else OnlyV4(AllPolicies(policy)))
            == Some(AllSet(p, k, policy, v6))
  {
    var a, b, c := Instr(v6, Policy("INPUT", policy)), Instr(v6, Policy("OUTPUT", policy)), Instr(v6, Policy("FORWARD", policy));
    assert (if v6 then OnlyV6(AllPolicies(policy)) else OnlyV4(AllPolicies(policy))) == [a, b, c];
    hide Run, Policy, RunAll, SetPolicy, OnlyV6, OnlyV4, AllPolicies;
    RunsPolicy(p, k, "INPUT", policy, v6);
    var k1 := SetPolicy(p, k, "INPUT", policy, v6);
    RunsPolicy(p, k1, "OUTPUT", policy, v6);
    var k2 := SetPolicy(p, k1, "OUTPUT", policy, v6);
    RunsPolicy(p, k2, "FORWARD", policy, v6);
    RunThree(p, k, a, b, c, k1, k2, SetPolicy(p, k2, "FORWARD", policy, v6));
  }

  lemma AllDrop(p: Platform, k: Kernel)
    ensures var next := AllSet(p, AllSet(p, k, "DROP", false), "DROP", true);
            && next.v4.rules == k.v4.rules && next.v6.rules == k.v6.rules
            && DropsByDefault(p, next.v4.policies, next.v6.policies)
  {
  }

  // ------------------------------------------------------ rules on top, exactly

  /** The rule that an accepted appending instruction adds. */
  ghost function AddedRule(fields: seq<Field>, v6: bool): Located {
    match Parse(fields, true)
    case Ok(i) => RuleOf(i, v6)
    case _ => Located("", "", AnyRule(v6))
  }

  ghost function AddedBy(xs: seq<Instr>, v6: bool): multiset<Located>
    decreases |xs|
  {
    if xs == [] then multiset{}
    else (if xs[0].v6 == v6 then multiset{AddedRule(xs[0].fields, v6)} else multiset{}) + AddedBy(xs[1..], v6)
  }

  lemma {:induction false} AddedByConcat(xs: seq<Instr>, ys: seq<Instr>, v6: bool)
    ensures AddedBy(xs + ys, v6) == AddedBy(xs, v6) + AddedBy(ys, v6)
    decreases |xs|
  {
    hide AddedRule;
    if xs == [] {
      assert xs + ys == ys;
    } else {
      assert (xs + ys)[1..] == xs[1..] + ys;
      AddedByConcat(xs[1..], ys, v6);
    }
  }

  lemma RunAdds(p: Platform, k: Kernel, x: Instr, v6: bool)
    requires AddsElsewhere(x.fields) && Run(p, k, x).Some? && (v6 ==> p.ip6Tables)
    ensures RulesIn(Run(p, k, x).value, v6)
            == RulesIn(k, v6) + (if x.v6 == v6 then multiset{AddedRule(x.fields, v6)} else multiset{})
  {
    hide Parse, IsDeleteMatch;
    var rs, next := if v6 then k.v6 else k.v4, if v6 then Run(p, k, x).value.v6 else Run(p, k, x).value.v4;
    if x.v6 == v6 {
      assert next.rules == rs.rules + [AddedRule(x.fields, v6)];
    }
  }

  lemma {:induction false} RunAllAdds(p: Platform, k: Kernel, next: Kernel, xs: seq<Instr>, v6: bool)
    requires RunAll(p, k, xs) == Some(next) && (forall x :: x in xs ==> AddsElsewhere(x.fields)) && (v6 ==> p.ip6Tables)
    ensures RulesIn(next, v6) == RulesIn(k, v6) + AddedBy(xs, v6)
    decreases |xs|
  {
    if xs != [] {
      hide Run, AddsElsewhere, AddedRule, RulesIn;
      assert xs[0] in xs && forall x :: x in xs[1..] ==> x in xs;
      RunAdds(p, k, xs[0], v6);
      RunAllAdds(p, Run(p, k, xs[0]).value, next, xs[1..], v6);
    }
  }

  /** Rules other than port rules: those of the snapshot, of the base, and of subnets. */
  ghost predicate FamilyExact(rules: multiset<Located>, snapshot: multiset<Located>, base: multiset<Located>,
                              subnets: multiset<Located>) {
    forall l :: !IsPortRule(l) ==> rules[l] == snapshot[l] + base[l] + subnets[l]
  }

  ghost predicate ExactIn(v: View, base: seq<Instr>, v6: bool) {
    FamilyExact(RulesIn(v.kernel, v6), RulesIn(v.snapshot, v6), AddedBy(base, v6),
                Account(v.routes, v.subnets, v.leftover, v6))
  }

  ghost predicate Exact(v: View, base: seq<Instr>) {
    ExactIn(v, base, false) && (v.platform.ip6Tables ==> ExactIn(v, base, true))
  }

  lemma ExactAfterPorts(v: View, next: View, base: seq<Instr>)
    requires Exact(v, base) && OnlyPorts(v.kernel, next.kernel)
    requires next == v.(kernel := next.kernel, pairs := next.pairs, redirections := next.redirections)
    ensures Exact(next, base)
  {
    hide IsPortRule, Account, AddedBy;
  }

  lemma ExactAfterConserved(v: View, next: View, base: seq<Instr>)
    requires Exact(v, base)
    requires Conserved(v.routes, v.kernel, v.subnets, v.leftover, next.kernel, next.subnets, next.leftover)
    requires next == v.(kernel := next.kernel, subnets := next.subnets, leftover := next.leftover)
    ensures Exact(next, base)
  {
    hide IsPortRule, Account, AddedBy, RulesIn, ExactIn;
    ExactInAfterConserved(v, next, base, false);
    if v.platform.ip6Tables {
      ExactInAfterConserved(v, next, base, true);
    }
  }

  lemma ExactInAfterConserved(v: View, next: View, base: seq<Instr>, v6: bool)
    requires ExactIn(v, base, v6)
    requires Conserved(v.routes, v.kernel, v.subnets, v.leftover, next.kernel, next.subnets, next.leftover)
    requires next == v.(kernel := next.kernel, subnets := next.subnets, leftover := next.leftover)
    ensures ExactIn(next, base, v6)
  {
    hide IsPortRule, Account, AddedBy, RulesIn;
    assert ConservedIn(v.routes, v.kernel, v.subnets, v.leftover, next.kernel, next.subnets, next.leftover, v6);
    var old4, new4 := RulesIn(v.kernel, v6), RulesIn(next.kernel, v6);
    var t, u := Account(v.routes, v.subnets, v.leftover, v6), Account(v.routes, next.subnets, next.leftover, v6);
    forall l | !IsPortRule(l) ensures new4[l] == RulesIn(next.snapshot, v6)[l] + AddedBy(base, v6)[l] + u[l] {
      assert (new4 + t)[l] == (old4 + u)[l];
    }
  }

  lemma ExactAfterBase(v: View, next: View, base: seq<Instr>, xs: seq<Instr>)
    requires Exact(v, base) && RunAll(v.platform, v.kernel, xs) == Some(next.kernel)
    requires (forall x :: x in xs ==> AddsElsewhere(x.fields)) && next == v.(kernel := next.kernel)
    ensures Exact(next, base + xs)
  {
    hide IsPortRule, Account, AddedBy, RulesIn, RunAll, AddsElsewhere;
    AddedByConcat(base, xs, false);
    AddedByConcat(base, xs, true);
    RunAllAdds(v.platform, v.kernel, next.kernel, xs, false);
    if v.platform.ip6Tables {
      RunAllAdds(v.platform, v.kernel, next.kernel, xs, true);
    }
  }

  lemma ExactAtStart(p: Platform, routes: seq<Route>, k: Kernel, snapshot: Kernel, asked: set<Prefix>)
    requires snapshot.v4.rules == k.v4.rules && (p.ip6Tables ==> snapshot.v6.rules == k.v6.rules)
    ensures Exact(View(p, routes, k, snapshot, {}, [], [], NO_LEFTOVER, asked), [])
  {
  }

  // ------------------------------------------------------------ base rules

  /**
    The firewall once the policies are set: all rules are accounted for, and what no rule
    accepts is dropped. Only rules of subnets can be left over from failures.
   */
  ghost predicate Underway(v: View, base: seq<Instr>) {
    && InSync(v) && DropsByDefault(v.platform, v.kernel.v4.policies, v.kernel.v6.policies)
    && Exact(v, base) && OnlySubnetRules(v.routes, v.asked, v.leftover)
  }

  lemma UnderwayAfterPorts(v: View, next: View, base: seq<Instr>)
    requires Underway(v, base) && InSync(next) && OnlyPorts(v.kernel, next.kernel)
    requires next == v.(kernel := next.kernel, pairs := next.pairs, redirections := next.redirections)
    ensures Underway(next, base)
  {
    hide InSync, DropsByDefault, IsPortRule, Exact, OnlySubnetRules;
    ExactAfterPorts(v, next, base);
  }

  lemma PoliciesSet(p: Platform, routes: seq<Route>, k: Kernel, mid: Kernel, next: Kernel, snapshot: Kernel,
                    asked: set<Prefix>)
    requires WellFormed(k) && snapshot.v4 == k.v4 && (p.ip6Tables ==> snapshot.v6 == k.v6)
    requires RunAll(p, k, OnlyV4(AllPolicies("DROP"))) == Some(mid)
    requires RunAll(p, mid, OnlyV6(AllPolicies("DROP"))) == Some(next)
    ensures Underway(View(p, routes, next, snapshot, {}, [], [], NO_LEFTOVER, asked), [])
  {
    NothingLeftOver(routes, asked);
    hide RunAll, OnlyV4, OnlyV6, AllPolicies, InSync, AllSet, DropsByDefault, Listed, Exact, OnlySubnetRules;
    RunsPolicies(p, k, "DROP", false);
    RunsPolicies(p, mid, "DROP", true);
    AllDrop(p, k);
    SyncAtStart(p, routes, next, snapshot, asked);
    ExactAtStart(p, routes, next, snapshot, asked);
  }

  lemma UnderwayAfter(v: View, next: View, base: seq<Instr>, xs: seq<Instr>)
    requires Underway(v, base) && RunAll(v.platform, v.kernel, xs) == Some(next.kernel)
    requires (forall x :: x in xs ==> AddsElsewhere(x.fields)) && next == v.(kernel := next.kernel)
    ensures Underway(next, base + xs)
  {
    PoliciesStay(v.platform, v.kernel, next.kernel, xs);
    SyncIsWellFormed(v);
    hide RunAll, Elsewhere, WellFormed, GrowsElsewhere, InSync, DropsByDefault, Exact, OnlySubnetRules;
    ExactAfterBase(v, next, base, xs);
    AllElsewhereGrow(v.platform, v.kernel, xs);
    SyncAfterGrowth(v, next);
  }

  lemma {:induction false} BothElsewhere(list: seq<seq<Field>>)
    requires forall fields :: fields in list ==> AddsElsewhere(fields)
    ensures forall x :: x in Both(list) ==> AddsElsewhere(x.fields)
    ensures forall x :: x in OnlyV6(list) ==> AddsElsewhere(x.fields)
  {
    hide AddsElsewhere;
    if list != [] {
      BothElsewhere(list[1..]);
    }
  }

  lemma ThroughAdds(intf: string)
    requires InterfaceName(intf)
    ensures AddsElsewhere(InputThrough(intf)) && AddsElsewhere(OutputThrough(intf))
  {
    ThroughElsewhere(intf);
    hide Elsewhere;
  }

  lemma EstablishedAdds(chain: string)
    requires chain == "INPUT" || chain == "OUTPUT"
    ensures AddsElsewhere(EstablishedRelated(chain))
  {
    EstablishedElsewhere(chain);
    hide Elsewhere;
  }

  lemma VpnAdds(intf: string, server: Prefix, protocol: string, port: nat)
    requires InterfaceName(intf) && IsTcpOrUdp(protocol) && port < 0x1_0000
    ensures AddsElsewhere(OutputToVpn(intf, server, protocol, port))
  {
    VpnElsewhere(intf, server, protocol, port);
    hide Elsewhere;
  }

  lemma MulticastAdds(intf: string)
    requires intf != "" && InterfaceName(intf)
    ensures AddsElsewhere(MulticastOutput(intf))
  {
    MulticastElsewhere(intf);
    hide Elsewhere;
  }

  lemma InputToSubnetAdds(intf: string, destination: Prefix)
    requires intf != "" && InterfaceName(intf)
    ensures AddsElsewhere(InputToSubnet(intf, destination))
  {
    InputToSubnetElsewhere(intf, destination);
    hide Elsewhere;
  }

  lemma OutputToSubnetAdds(intf: string, source: Prefix, destination: Prefix)
    requires intf != "" && InterfaceName(intf)
    ensures AddsElsewhere(OutputToSubnet(intf, source, destination, false))
  {
    OutputToSubnetElsewhere(intf, source, destination);
    hide Elsewhere;
  }

  // ----------------------------------------------------------- tracked state

  lemma UnderwayWithSubnet(v: View, next: View, base: seq<Instr>, subnet: Prefix)
    requires Underway(v, base) && AddedFor(v.kernel, next.kernel, v.routes, |v.routes|, subnet)
    requires next == v.(kernel := next.kernel, subnets := v.subnets + [subnet])
    ensures Underway(next, base)
  {
    SyncHolds(v);
    hide InSync, DropsByDefault, OnlySubnets, Held, Conserved, Exact, OnlySubnetRules;
    TrackMore(v.kernel, next.kernel, v.routes, v.subnets, v.leftover, subnet);
    assert OnlySubnets(v.kernel, next.kernel, subnet.v6) by { AddedGrows(v.kernel, next.kernel, v.routes, subnet); }
    SubnetsKeepPolicies(v.kernel, next.kernel, subnet.v6);
    SyncAfterSubnets(v, next, subnet.v6);
    ExactAfterConserved(v, next, base);
  }

  lemma UnderwayIsWellFormed(v: View, base: seq<Instr>)
    requires Underway(v, base)
    ensures WellFormed(v.kernel) && TrackedValid(v.pairs, v.redirections)
  {
    SyncIsWellFormed(v);
    hide InSync, WellFormed, TrackedValid;
  }

  lemma RunOne(p: Platform, k: Kernel, next: Kernel, x: Instr)
    requires Run(p, k, x) == Some(next)
    ensures RunAll(p, k, [x]) == Some(next)
  {
    hide Run;
    assert RunAll(p, next, [x][1..]) == Some(next);
  }

  lemma UnderwayWithPort(v: View, next: View, base: seq<Instr>, port: nat, intf: string)
    requires Underway(v, base) && port < 0x1_0000 && InterfaceName(intf) && (port, intf) !in v.pairs
    requires RunAll(v.platform, v.kernel, AcceptInstrs(intf, port, false)) == Some(next.kernel)
    requires next == v.(kernel := next.kernel, pairs := v.pairs + {(port, intf)})
    ensures Underway(next, base) && OnlyPorts(v.kernel, next.kernel) && intf != ""
  {
    hide InSync, DropsByDefault, RunAll, AcceptInstrs, IsPortRule, InterfaceName, Exact, Underway, OnlyPorts;
    UnderwayIsInSync(v, base);
    SyncAfterAccept(v, next, port, intf);
    UnderwayAfterPorts(v, next, base);
  }

  lemma UnderwayIsInSync(v: View, base: seq<Instr>)
    requires Underway(v, base)
    ensures InSync(v)
  {
  }

  lemma UnderwayLeavesSubnets(v: View, base: seq<Instr>)
    requires Underway(v, base)
    ensures OnlySubnetRules(v.routes, v.asked, v.leftover)
  {
    hide InSync, Exact, OnlySubnetRules;
  }

  lemma UnderwayWithoutPort(v: View, next: View, base: seq<Instr>, port: nat, intf: string)
    requires Underway(v, base) && (port, intf) in v.pairs
    requires RunAll(v.platform, v.kernel, AcceptInstrs(intf, port, true)) == Some(next.kernel)
    requires next == v.(kernel := next.kernel, pairs := v.pairs - {(port, intf)})
    ensures Underway(next, base) && OnlyPorts(v.kernel, next.kernel)
  {
    hide InSync, DropsByDefault, RunAll, AcceptInstrs, IsPortRule, InterfaceName, Exact, Underway, OnlyPorts;
    UnderwayIsInSync(v, base);
    SyncAfterUnaccept(v, next, port, intf);
    UnderwayAfterPorts(v, next, base);
  }

  lemma UnderwayWithoutRedirection(v: View, next: View, base: seq<Instr>, r: Redirection)
    requires Underway(v, base) && r in v.redirections
    requires multiset(next.redirections) == multiset(v.redirections) - multiset{r} && Unique(next.redirections)
    requires Redirects(v.platform, v.kernel, next.kernel, r.interfaceName, r.sourcePort, r.destinationPort, true)
    requires next == v.(kernel := next.kernel, redirections := next.redirections)
    ensures Underway(next, base) && OnlyPorts(v.kernel, next.kernel)
  {
    hide InSync, DropsByDefault, Redirects, IsPortRule, Unique, Exact, Underway, OnlyPorts;
    UnderwayIsInSync(v, base);
    SyncAfterUnredirectPort(v, next, r);
    UnderwayAfterPorts(v, next, base);
  }

  /** More subnets are asked for. */
  lemma UnderwayAskedMore(v: View, next: View, base: seq<Instr>)
    requires Underway(v, base) && v.asked <= next.asked && next == v.(asked := next.asked)
    ensures Underway(next, base)
  {
    hide InSync, DropsByDefault, OnlySubnetRules, FamilyExact;
    SyncWhateverAsked(v, next);
    MoreSubnets(v.routes, v.asked, next.asked, v.leftover);
  }

  /** Subnets come and go; with a failure, some of their rules are left over. */
  lemma UnderwayAfterSubnets(v: View, next: View, base: seq<Instr>, v6: bool)
    requires Underway(v, base) && OnlySubnets(v.kernel, next.kernel, v6) && Held(next.kernel, v.routes, next.subnets)
    requires next == v.(kernel := next.kernel, subnets := next.subnets, leftover := next.leftover)
    requires Conserved(v.routes, v.kernel, v.subnets, v.leftover, next.kernel, next.subnets, next.leftover)
    requires OnlySubnetRules(v.routes, v.asked, next.leftover)
    ensures Underway(next, base)
  {
    hide InSync, DropsByDefault, OnlySubnets, Held, Conserved, Exact, OnlySubnetRules;
    SubnetsKeepPolicies(v.kernel, next.kernel, v6);
    SyncAfterSubnets(v, next, v6);
    ExactAfterConserved(v, next, base);
  }

  lemma UnderwayWithRedirection(v: View, next: View, base: seq<Instr>, r: Redirection)
    requires Underway(v, base) && RedirectionValid(r) && Unique(v.redirections + [r])
    requires Redirects(v.platform, v.kernel, next.kernel, r.interfaceName, r.sourcePort, r.destinationPort, false)
    requires next == v.(kernel := next.kernel, redirections := v.redirections + [r])
    ensures Underway(next, base) && OnlyPorts(v.kernel, next.kernel) && r.interfaceName != ""
  {
    hide InSync, DropsByDefault, Redirects, IsPortRule, RedirectionValid, Unique, Exact, Underway, OnlyPorts;
    UnderwayIsInSync(v, base);
    SyncAfterRedirectPort(v, next, r);
    UnderwayAfterPorts(v, next, base);
  }

  lemma UniquePrefix(pairs: set<PortPair>, redirections: seq<Redirection>, i: nat)
    requires TrackedValid(pairs, redirections) && i < |redirections|
    ensures redirections[..i + 1] == redirections[..i] + [redirections[i]]
    ensures Unique(redirections[..i] + [redirections[i]]) && RedirectionValid(redirections[i])
  {
    assert redirections[i] in redirections;
  }

  // ------------------------------------------------------------ the base rules

  /** Loopback traffic, and traffic of connections that exist already. */
  ghost function LoopbackInstrs(): seq<Instr> {
    Both([InputThrough("lo")]) + Both([OutputThrough("lo")])
    + Both([EstablishedRelated("OUTPUT"), EstablishedRelated("INPUT")])
  }

  ghost predicate UsesInterface(routes: seq<Route>, intf: string) {
    exists r :: r in routes && r.netInterface == intf
  }

  /** The VPN server, once for each interface with a default route. */
  ghost function VpnInstrs(routes: seq<Route>, server: Option<VpnServer>): seq<Instr> {
    if routes == [] || server.None? then []
    else
      var init, intf := routes[..|routes| - 1], routes[|routes| - 1].netInterface;
      VpnInstrs(init, server)
      + (if UsesInterface(init, intf) then []
         else [Instr(server.value.ip.v6, OutputToVpn(intf, server.value.ip, server.value.protocol, server.value.port))])
  }

  ghost predicate NamesInterface(networks: seq<LocalNetwork>, intf: string) {
    exists n :: n in networks && n.interfaceName == intf
  }

  /** Each local network, and neighbour discovery once for each of their interfaces. */
  ghost function LocalInstrs(networks: seq<LocalNetwork>): seq<Instr> {
    if networks == [] then []
    else
      var init, n := networks[..|networks| - 1], networks[|networks| - 1];
      LocalInstrs(init)
      + [Instr(n.ip.v6 || n.ipNet.v6, OutputToSubnet(n.interfaceName, n.ip, n.ipNet, false))]
      + (if NamesInterface(init, n.interfaceName) then [] else OnlyV6([MulticastOutput(n.interfaceName)]))
  }

  ghost function InputInstrs(networks: seq<LocalNetwork>): seq<Instr> {
    if networks == [] then []
    else
      var n := networks[|networks| - 1];
      InputInstrs(networks[..|networks| - 1]) + [Instr(n.ipNet.v6, InputToSubnet(n.interfaceName, n.ipNet))]
  }

  ghost function BaseInstrs(routes: seq<Route>, networks: seq<LocalNetwork>, server: Option<VpnServer>): seq<Instr> {
    LoopbackInstrs() + VpnInstrs(routes, server) + LocalInstrs(networks) + InputInstrs(networks)
  }

  lemma NoInterfaceYet(routes: seq<Route>, server: Option<VpnServer>, base: seq<Instr>)
    ensures base + VpnInstrs(routes[..0], server) == base
    ensures forall intf :: !UsesInterface(routes[..0], intf)
  {
  }

  lemma OneMoreInterface(routes: seq<Route>, i: nat, server: Option<VpnServer>, base: seq<Instr>)
    requires i < |routes| && server.Some?
    ensures var intf := routes[i].netInterface;
            && base + VpnInstrs(routes[..i + 1], server)
               == base + VpnInstrs(routes[..i], server)
                  + (if UsesInterface(routes[..i], intf) then []
                     else [Instr(server.value.ip.v6,
                                 OutputToVpn(intf, server.value.ip, server.value.protocol, server.value.port))])
            && forall other :: UsesInterface(routes[..i + 1], other) <==> UsesInterface(routes[..i], other) || other == intf
  {
    hide OutputToVpn;
    assert routes[..i + 1] == routes[..i] + [routes[i]];
    assert routes[i] in routes[..i + 1];
  }

  lemma NoNetworkYet(networks: seq<LocalNetwork>, base: seq<Instr>)
    ensures base + LocalInstrs(networks[..0]) == base && base + InputInstrs(networks[..0]) == base
    ensures forall intf :: !NamesInterface(networks[..0], intf)
  {
  }

  lemma OneMoreNetwork(networks: seq<LocalNetwork>, i: nat, base: seq<Instr>)
    requires i < |networks|
    ensures var n := networks[i];
            && base + LocalInstrs(networks[..i + 1])
               == base + LocalInstrs(networks[..i])
                  + [Instr(n.ip.v6 || n.ipNet.v6, OutputToSubnet(n.interfaceName, n.ip, n.ipNet, false))]
                  + (if NamesInterface(networks[..i], n.interfaceName) then []
                     else OnlyV6([MulticastOutput(n.interfaceName)]))
            && base + InputInstrs(networks[..i + 1])
               == base + InputInstrs(networks[..i]) + [Instr(n.ipNet.v6, InputToSubnet(n.interfaceName, n.ipNet))]
            && forall intf :: NamesInterface(networks[..i + 1], intf) <==>
                                NamesInterface(networks[..i], intf) || intf == n.interfaceName
  {
    hide OutputToSubnet, MulticastOutput, InputToSubnet, OnlyV6;
    assert networks[..i + 1] == networks[..i] + [networks[i]];
    assert networks[i] in networks[..i + 1];
  }

  ghost predicate AllAdd(xs: seq<Instr>) {
    forall x :: x in xs ==> AddsElsewhere(x.fields)
  }

  lemma LoopbackAdds()
    ensures AllAdd(LoopbackInstrs())
  {
    ThroughAdds("lo");
    EstablishedAdds("OUTPUT");
    EstablishedAdds("INPUT");
    hide AddsElsewhere, InputThrough, OutputThrough, EstablishedRelated, Both;
    BothElsewhere([InputThrough("lo")]);
    BothElsewhere([OutputThrough("lo")]);
    BothElsewhere([EstablishedRelated("OUTPUT"), EstablishedRelated("INPUT")]);
  }

  lemma {:induction false} VpnInstrsAdd(routes: seq<Route>, server: Option<VpnServer>)
    requires FixedValid(routes, [], server)
    ensures AllAdd(VpnInstrs(routes, server))
  {
    hide AddsElsewhere, OutputToVpn, InterfaceName, IsTcpOrUdp, UsesInterface;
    if routes != [] && server.Some? {
      var init, intf := routes[..|routes| - 1], routes[|routes| - 1].netInterface;
      VpnInstrsAdd(init, server);
      VpnAdds(intf, server.value.ip, server.value.protocol, server.value.port);
    }
  }

  lemma {:induction false} LocalInstrsAdd(networks: seq<LocalNetwork>)
    requires forall n :: n in networks ==> NetworkValid(n)
    ensures AllAdd(LocalInstrs(networks)) && AllAdd(InputInstrs(networks))
  {
    hide AddsElsewhere, OutputToSubnet, MulticastOutput, InputToSubnet, InterfaceName, NamesInterface, OnlyV6;
    if networks != [] {
      var n := networks[|networks| - 1];
      assert NetworkValid(n);
      LocalInstrsAdd(networks[..|networks| - 1]);
      OutputToSubnetAdds(n.interfaceName, n.ip, n.ipNet);
      MulticastAdds(n.interfaceName);
      BothElsewhere([MulticastOutput(n.interfaceName)]);
      InputToSubnetAdds(n.interfaceName, n.ipNet);
    }
  }

  lemma BaseInstrsAdd(routes: seq<Route>, networks: seq<LocalNetwork>, server: Option<VpnServer>)
    requires FixedValid(routes, networks, server)
    ensures AllAdd(BaseInstrs(routes, networks, server))
  {
    hide AddsElsewhere, LoopbackInstrs, InterfaceName, IsTcpOrUdp, NetworkValid;
    LoopbackAdds();
    VpnInstrsAdd(routes, server);
    LocalInstrsAdd(networks);
  }

  // --------------------------------------------------------- the whole kernel

  lemma AddedRuleElsewhere(fields: seq<Field>, v6: bool)
    requires AddsElsewhere(fields)
    ensures !IsPortRule(AddedRule(fields, v6))
  {
    hide Parse, IsDeleteMatch;
  }

  lemma {:induction false} AddedByElsewhere(xs: seq<Instr>, v6: bool)
    requires AllAdd(xs)
    ensures forall l :: l in AddedBy(xs, v6) ==> !IsPortRule(l)
    decreases |xs|
  {
    if xs != [] {
      hide AddsElsewhere, AddedRule, IsPortRule;
      assert xs[0] in xs && forall x :: x in xs[1..] ==> x in xs;
      AddedRuleElsewhere(xs[0].fields, v6);
      AddedByElsewhere(xs[1..], v6);
    }
  }

  lemma AcceptedArePortRules(pairs: set<PortPair>, v6: bool)
    ensures forall l :: l in AcceptedRules(pairs, v6) ==> IsPortRule(l)
  {
  }

  lemma {:induction false} RedirectedArePortRules(rs: seq<Redirection>, v6: bool)
    ensures forall l :: l in RedirectedRules(rs, v6) ==> IsPortRule(l)
  {
    if rs != [] {
      RedirectedArePortRules(rs[..|rs| - 1], v6);
      var r := rs[|rs| - 1];
      RedirectRulesArePortRules(r.interfaceName, r.sourcePort, r.destinationPort, v6);
    }
  }

  lemma CountsAddUp(rules: multiset<Located>, snapshot: multiset<Located>, base: multiset<Located>,
                    subnets: multiset<Located>, wanted: multiset<Located>)
    requires FamilyExact(rules, snapshot, base, subnets) && FamilyAgrees(rules, snapshot, wanted)
    requires (forall l :: l in base ==> !IsPortRule(l)) && (forall l :: l in subnets ==> !IsPortRule(l))
    requires forall l :: l in wanted ==> IsPortRule(l)
    ensures rules == snapshot + base + subnets + wanted
  {
    hide IsPortRule;
    forall l ensures rules[l] == (snapshot + base + subnets + wanted)[l] {
      if IsPortRule(l) {
        assert l !in base && l !in subnets;
      } else {
        assert l !in wanted;
      }
    }
  }

  lemma AccountElsewhere(routes: seq<Route>, subnets: seq<Prefix>, asked: set<Prefix>, left: Leftover, v6: bool)
    requires OnlySubnetRules(routes, asked, left)
    ensures forall l :: l in Account(routes, subnets, left, v6) ==> !IsPortRule(l)
  {
    SubnetRulesElsewhere(routes, subnets, v6);
    forall l | l in left.In(v6) ensures !IsPortRule(l) {
      assert IsSubnetRule(routes, asked, l);
    }
    hide IsPortRule, IsSubnetRule;
  }

  /**
    Every rule in the kernel is accounted for: those of the snapshot, the base rules, those
    of the tracked subnets and what is left over of others, and those of the tracked ports
    and, with IPv6 NAT, of the tracked redirections.
   */
  lemma WholeKernel(v: View, base: seq<Instr>, v6: bool)
    requires InSync(v) && Exact(v, base) && OnlySubnetRules(v.routes, v.asked, v.leftover)
    requires AllAdd(base) && (v6 ==> v.platform.ip6Tables)
    ensures RulesIn(v.kernel, v6)
            == RulesIn(v.snapshot, v6) + AddedBy(base, v6)
               + (TrackedRules(v.routes, v.subnets, v6) + v.leftover.In(v6))
               + Wanted(v.pairs, Effective(v.platform, v.redirections), v6)
  {
    AddedByElsewhere(base, v6);
    AccountElsewhere(v.routes, v.subnets, v.asked, v.leftover, v6);
    AcceptedArePortRules(v.pairs, v6);
    RedirectedArePortRules(Effective(v.platform, v.redirections), v6);
    assert ExactIn(v, base, v6);
    hide AddedBy, AcceptedRules, RedirectedRules, Held, TrackedValid, FamilyExact, FamilyAgrees, AllAdd, TrackedRules,
         OnlySubnetRules, IsPortRule, Effective;
    CountsAddUp(RulesIn(v.kernel, v6), RulesIn(v.snapshot, v6), AddedBy(base, v6),
                Account(v.routes, v.subnets, v.leftover, v6), Wanted(v.pairs, Effective(v.platform, v.redirections), v6));
  }
}
