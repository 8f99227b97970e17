/** How the tracked state of the firewall and the rules in the kernel change together. */
module FirewallSync {
  import opened Wrappers
  import opened IptablesRules
  import opened IptablesKernel
  import opened Iptables
  import opened PortRules
  import opened PortRedirections
  import opened Subnets
  import opened Sums
  import opened FirewallRules
  import opened BaseRules

  /** A default route; its assigned address has the family of the route. */
  datatype Route = Route(netInterface: string, assignedIP: Prefix)

  datatype LocalNetwork = LocalNetwork(interfaceName: string, ip: Prefix, ipNet: Prefix)

  datatype VpnServer = VpnServer(ip: Prefix, protocol: string, port: nat)

  datatype RedirectOutcome = Finished(outcome: Outcome) | Panicked

  // ------------------------------------------------------- outbound subnets

  ghost function RouteRules(subnet: Prefix): Route -> multiset<Located> {
    (r: Route) => if r.assignedIP.v6 == subnet.v6 then multiset{SubnetRule(r.netInterface, r.assignedIP, subnet)} else multiset{}
  }

  /** The rules of a tracked subnet, one for each default route of its family. */
  ghost function SubnetRules(routes: seq<Route>, v6: bool): Prefix -> multiset<Located> {
    (subnet: Prefix) => if subnet.v6 == v6 then Sum(routes, RouteRules(subnet)) else multiset{}
  }

  ghost predicate HasRoute(routes: seq<Route>, subnet: Prefix) {
    exists r :: r in routes && r.assignedIP.v6 == subnet.v6
  }

  /** Every rule that a tracked subnet stands for is in the kernel. */
  ghost predicate Held(k: Kernel, routes: seq<Route>, subnets: seq<Prefix>) {
    && Sum(subnets, SubnetRules(routes, false)) <= multiset(k.v4.rules)
    && Sum(subnets, SubnetRules(routes, true)) <= multiset(k.v6.rules)
  }

  lemma HeldGrows(k: Kernel, next: Kernel, routes: seq<Route>, subnets: seq<Prefix>)
    requires Held(k, routes, subnets) && GrowsElsewhere(k, next)
    ensures Held(next, routes, subnets)
  {
    hide Sum, IsPortRule, WellFormed;
  }

  /** The rules of a family are changed by port rules only, which are never subnet rules. */
  lemma HeldDespitePorts(p: Platform, k: Kernel, next: Kernel, routes: seq<Route>, subnets: seq<Prefix>,
                         change4: multiset<Located>, change6: multiset<Located>, remove: bool)
    requires Held(k, routes, subnets) && ChangedBy(p, k, next, change4, change6, remove)
    requires (forall l :: l in change4 ==> IsPortRule(l)) && (forall l :: l in change6 ==> IsPortRule(l))
    ensures Held(next, routes, subnets)
  {
    SubnetRulesElsewhere(routes, subnets, false);
    SubnetRulesElsewhere(routes, subnets, true);
    hide Sum, IsPortRule, WellFormed;
  }

  lemma {:induction false} SubnetRulesElsewhere(routes: seq<Route>, subnets: seq<Prefix>, v6: bool)
    ensures forall l :: l in Sum(subnets, SubnetRules(routes, v6)) ==> !IsPortRule(l)
  {
    if subnets != [] {
      SubnetRulesElsewhere(routes, subnets[..|subnets| - 1], v6);
      RouteRulesElsewhere(routes, subnets[|subnets| - 1]);
    }
  }

  lemma {:induction false} RouteRulesElsewhere(routes: seq<Route>, subnet: Prefix)
    ensures forall l :: l in Sum(routes, RouteRules(subnet)) ==> !IsPortRule(l)
  {
    if routes != [] {
      RouteRulesElsewhere(routes[..|routes| - 1], subnet);
    }
  }

  lemma AcceptRulesArePortRules(intf: string, port: nat, v6: bool)
    ensures forall l :: l in AcceptRules(intf, port, v6) ==> IsPortRule(l)
  {
  }

  lemma RedirectRulesArePortRules(intf: string, port: nat, to: nat, v6: bool)
    ensures forall l :: l in RedirectRules(intf, port, to, v6) ==> IsPortRule(l)
  {
  }

  // ------------------------------------------------------ the view of both sides

  /** Rules of subnets that are in the kernel and stand for nothing that is tracked. */
  datatype Leftover = Leftover(v4: multiset<Located>, v6: multiset<Located>) {
    ghost function In(is6: bool): multiset<Located> {
      if is6 then v6 else v4
    }
  }

  const NO_LEFTOVER := Leftover(multiset{}, multiset{})

  /**
    What the firewall tracks, the kernel, and the kernel as it was before the last enabling;
    and all subnets that were tracked or asked for since then.
   */
  datatype View = View(platform: Platform, routes: seq<Route>, kernel: Kernel, snapshot: Kernel,
                       pairs: set<PortPair>, redirections: seq<Redirection>, subnets: seq<Prefix>, leftover: Leftover,
                       asked: set<Prefix>)

  /** Ports and interfaces fit their types, and no port is redirected twice on one interface. */
  ghost predicate TrackedValid(pairs: set<PortPair>, redirections: seq<Redirection>) {
    && (forall x :: x in pairs ==> x.0 < 0x1_0000 && InterfaceName(x.1))
    && (forall r :: r in redirections ==>
                      InterfaceName(r.interfaceName) && r.sourcePort < 0x1_0000 && r.destinationPort < 0x1_0000)
    && Unique(redirections)
  }

  /** The redirections that are in the kernel: none of them without IPv6 NAT. */
  ghost function Effective(p: Platform, redirections: seq<Redirection>): seq<Redirection> {
    if NatAvailable(p) then redirections else []
  }

  /**
    The kernel holds the rules of the snapshot, those of every tracked port and
    effective redirection, and those of every tracked subnet.
   */
  ghost predicate InSync(v: View) {
    && WellFormed(v.kernel) && TrackedValid(v.pairs, v.redirections)
    && (forall x :: x in v.pairs ==> x.1 != "")
    && (forall r :: r in v.redirections ==> r.interfaceName != "")
    && Held(v.kernel, v.routes, v.subnets)
    && Agrees(v.platform, v.kernel, v.snapshot, v.pairs, Effective(v.platform, v.redirections))
  }

  ghost predicate AllPortRules(rules: multiset<Located>) {
    forall l :: l in rules ==> IsPortRule(l)
  }

  /** What has to be shown about the tracked state by itself. */
  ghost predicate TrackedWhileEnabled(pairs: set<PortPair>, redirections: seq<Redirection>) {
    && TrackedValid(pairs, redirections)
    && (forall x :: x in pairs ==> x.1 != "")
    && (forall r :: r in redirections ==> r.interfaceName != "")
  }

  /** Rules that are not port rules, and the policies, are as before. */
  ghost predicate OnlyPorts(k: Kernel, next: Kernel) {
    && (forall l :: !IsPortRule(l) ==> multiset(next.v4.rules)[l] == multiset(k.v4.rules)[l]
                                       && multiset(next.v6.rules)[l] == multiset(k.v6.rules)[l])
    && next.v4.policies == k.v4.policies && next.v6.policies == k.v6.policies
  }

  lemma OnlyPortsReflexive(k: Kernel)
    ensures OnlyPorts(k, k)
  {
  }

  lemma OnlyPortsTwice(k: Kernel, mid: Kernel, next: Kernel)
    requires OnlyPorts(k, mid) && OnlyPorts(mid, next)
    ensures OnlyPorts(k, next)
  {
    hide IsPortRule;
  }

  lemma PortRulesMore(rules: multiset<Located>, change: multiset<Located>, remove: bool)
    requires AllPortRules(change)
    ensures forall l :: !IsPortRule(l) ==> Changed(rules, change, remove)[l] == rules[l]
  {
    hide IsPortRule;
  }

  lemma ChangedOnlyPorts(p: Platform, k: Kernel, next: Kernel, change4: multiset<Located>,
                         change6: multiset<Located>, remove: bool)
    requires ChangedBy(p, k, next, change4, change6, remove) && AllPortRules(change4) && AllPortRules(change6)
    ensures OnlyPorts(k, next)
  {
    PortRulesMore(multiset(k.v4.rules), change4, remove);
    PortRulesMore(multiset(k.v6.rules), change6, remove);
    hide IsPortRule, WellFormed, Changed;
  }

  /** Port rules come in or go out, on both sides alike. */
  lemma SyncAfterChange(v: View, next: View, change4: multiset<Located>, change6: multiset<Located>, remove: bool)
    requires InSync(v) && next == v.(kernel := next.kernel, pairs := next.pairs, redirections := next.redirections)
    requires ChangedBy(v.platform, v.kernel, next.kernel, change4, change6, remove)
    requires AllPortRules(change4) && AllPortRules(change6)
    requires TrackedWhileEnabled(next.pairs, next.redirections)
    requires var more, less := if remove then v else next, if remove then next else v;
             var moreIn, lessIn := Effective(v.platform, more.redirections), Effective(v.platform, less.redirections);
             && Wanted(more.pairs, moreIn, false) == Wanted(less.pairs, lessIn, false) + change4
             && Wanted(more.pairs, moreIn, true) == Wanted(less.pairs, lessIn, true) + change6
    ensures InSync(next) && OnlyPorts(v.kernel, next.kernel)
  {
    ChangedOnlyPorts(v.platform, v.kernel, next.kernel, change4, change6, remove);
    hide Wanted, IsPortRule, Unique, Sum, OnlyPorts, Effective;
    HeldDespitePorts(v.platform, v.kernel, next.kernel, v.routes, v.subnets, change4, change6, remove);
    var was, now := Effective(v.platform, v.redirections), Effective(v.platform, next.redirections);
    if remove {
      AgreesAfterRemoving(v.platform, v.kernel, next.kernel, v.snapshot, v.pairs, was, next.pairs, now, change4, change6);
    } else {
      AgreesAfterAdding(v.platform, v.kernel, next.kernel, v.snapshot, v.pairs, was, next.pairs, now, change4, change6);
    }
  }

  lemma WantedPort(pairs: set<PortPair>, redirections: seq<Redirection>, port: nat, intf: string, v6: bool)
    requires (port, intf) !in pairs
    ensures Wanted(pairs + {(port, intf)}, redirections, v6)
            == Wanted(pairs, redirections, v6) + AcceptRules(intf, port, v6)
    ensures AllPortRules(AcceptRules(intf, port, v6))
  {
    AcceptedRulesMore(pairs, (port, intf), v6);
    AcceptRulesArePortRules(intf, port, v6);
    hide AcceptedRules, RedirectedRules, AcceptRules;
  }

  lemma SyncAfterAccept(v: View, next: View, port: nat, intf: string)
    requires InSync(v) && port < 0x1_0000 && InterfaceName(intf) && (port, intf) !in v.pairs
    requires RunAll(v.platform, v.kernel, AcceptInstrs(intf, port, false)) == Some(next.kernel)
    requires next == v.(kernel := next.kernel, pairs := v.pairs + {(port, intf)})
    ensures InSync(next) && OnlyPorts(v.kernel, next.kernel) && intf != ""
  {
    hide RunAll, AcceptInstrs, Wanted, ChangedBy, AcceptRules, Held, Agrees, WellFormed, Unique, AllPortRules,
         InterfaceName, OnlyPorts;
    AcceptPortEffect(v.platform, v.kernel, intf, port, false);
    WantedPort(v.pairs, Effective(v.platform, v.redirections), port, intf, false);
    WantedPort(v.pairs, Effective(v.platform, v.redirections), port, intf, true);
    SyncAfterChange(v, next, AcceptRules(intf, port, false), AcceptRules(intf, port, true), false);
  }

  lemma SyncAfterUnaccept(v: View, next: View, port: nat, intf: string)
    requires InSync(v) && (port, intf) in v.pairs
    requires RunAll(v.platform, v.kernel, AcceptInstrs(intf, port, true)) == Some(next.kernel)
    requires next == v.(kernel := next.kernel, pairs := v.pairs - {(port, intf)})
    ensures InSync(next) && OnlyPorts(v.kernel, next.kernel)
  {
    hide RunAll, AcceptInstrs, Wanted, ChangedBy, AcceptRules, Held, Agrees, WellFormed, Unique, AllPortRules,
         InterfaceName, OnlyPorts;
    AcceptPortEffect(v.platform, v.kernel, intf, port, true);
    assert v.pairs == next.pairs + {(port, intf)};
    WantedPort(next.pairs, Effective(v.platform, v.redirections), port, intf, false);
    WantedPort(next.pairs, Effective(v.platform, v.redirections), port, intf, true);
    SyncAfterChange(v, next, AcceptRules(intf, port, false), AcceptRules(intf, port, true), true);
  }

  lemma WantedRedirection(pairs: set<PortPair>, redirections: seq<Redirection>, r: Redirection, v6: bool)
    ensures Wanted(pairs, redirections + [r], v6) == Wanted(pairs, redirections, v6) + RulesFor(r, v6)
    ensures AllPortRules(RulesFor(r, v6))
  {
    RedirectedMore(redirections, r, v6);
    RedirectRulesArePortRules(r.interfaceName, r.sourcePort, r.destinationPort, v6);
    hide AcceptedRules, RedirectedRules, RedirectRules;
  }

  lemma WantedWithout(pairs: set<PortPair>, all: seq<Redirection>, rest: seq<Redirection>, r: Redirection, v6: bool)
    requires r in all && multiset(rest) == multiset(all) - multiset{r}
    ensures Wanted(pairs, all, v6) == Wanted(pairs, rest, v6) + RulesFor(r, v6)
    ensures AllPortRules(RulesFor(r, v6))
  {
    RedirectedWithout(all, rest, r, v6);
    RedirectRulesArePortRules(r.interfaceName, r.sourcePort, r.destinationPort, v6);
    hide AcceptedRules, RedirectedRules, RedirectRules;
  }

  ghost function AllRedirectInstrs(r: Redirection, remove: bool): seq<Instr> {
    RedirectInstrs(r.interfaceName, r.sourcePort, r.destinationPort, remove, false)
    + RedirectInstrs(r.interfaceName, r.sourcePort, r.destinationPort, remove, true)
  }

  ghost predicate RedirectionValid(r: Redirection) {
    InterfaceName(r.interfaceName) && r.sourcePort < 0x1_0000 && r.destinationPort < 0x1_0000
  }

  /** All instructions of a redirection were applied. */
  lemma RedirectionEffect(p: Platform, k: Kernel, next: Kernel, r: Redirection, remove: bool)
    requires RedirectionValid(r) && WellFormed(k)
    requires RunAll(p, k, AllRedirectInstrs(r, remove)) == Some(next)
    ensures r.interfaceName != "" && ChangedBy(p, k, next, RulesFor(r, false), RulesFor(r, true), remove)
  {
    hide RunAll, RedirectInstrs, RedirectRules, ChangedBy, WellFormed, InterfaceName;
    RedirectEffect(p, k, r.interfaceName, r.sourcePort, r.destinationPort, remove);
  }

  lemma SyncAfterRedirect(v: View, next: View, r: Redirection)
    requires InSync(v) && NatAvailable(v.platform) && RedirectionValid(r) && Unique(v.redirections + [r])
    requires RunAll(v.platform, v.kernel, AllRedirectInstrs(r, false)) == Some(next.kernel)
    requires next == v.(kernel := next.kernel, redirections := v.redirections + [r])
    ensures InSync(next) && OnlyPorts(v.kernel, next.kernel)
  {
    hide RunAll, AllRedirectInstrs, Wanted, ChangedBy, RulesFor, Held, Agrees, WellFormed, Unique, AllPortRules,
         InterfaceName, OnlyPorts;
    RedirectionEffect(v.platform, v.kernel, next.kernel, r, false);
    WantedRedirection(v.pairs, v.redirections, r, false);
    WantedRedirection(v.pairs, v.redirections, r, true);
    SyncAfterChange(v, next, RulesFor(r, false), RulesFor(r, true), false);
  }

  lemma SyncAfterUnredirect(v: View, next: View, r: Redirection)
    requires InSync(v) && NatAvailable(v.platform) && r in v.redirections && multiset(next.redirections) == multiset(v.redirections) - multiset{r}
    requires RunAll(v.platform, v.kernel, AllRedirectInstrs(r, true)) == Some(next.kernel)
    requires next == v.(kernel := next.kernel, redirections := next.redirections)
    requires Unique(next.redirections)
    ensures InSync(next) && OnlyPorts(v.kernel, next.kernel)
  {
    hide RunAll, AllRedirectInstrs, Wanted, ChangedBy, RulesFor, Held, Agrees, WellFormed, Unique, AllPortRules,
         InterfaceName, OnlyPorts;
    RedirectionEffect(v.platform, v.kernel, next.kernel, r, true);
    WantedWithout(v.pairs, v.redirections, next.redirections, r, false);
    WantedWithout(v.pairs, v.redirections, next.redirections, r, true);
    forall s | s in next.redirections ensures s in v.redirections {
      assert s in multiset(next.redirections);
    }
    SyncAfterChange(v, next, RulesFor(r, false), RulesFor(r, true), true);
  }

  /** A redirection is tracked as soon as its instructions did not fail. */
  lemma SyncAfterRedirectPort(v: View, next: View, r: Redirection)
    requires InSync(v) && RedirectionValid(r) && Unique(v.redirections + [r])
    requires Redirects(v.platform, v.kernel, next.kernel, r.interfaceName, r.sourcePort, r.destinationPort, false)
    requires next == v.(kernel := next.kernel, redirections := v.redirections + [r])
    ensures InSync(next) && OnlyPorts(v.kernel, next.kernel) && r.interfaceName != ""
  {
    RedirectInstrsAre(r.interfaceName, r.sourcePort, r.destinationPort, false);
    hide RunAll, RedirectInstrs, OnlyV4, OnlyV6, RedirectAndAccept, InSync, Unique, OnlyPorts, WellFormed, ChangedBy,
         Redirects, NatAvailable;
    RedirectAppliedIff(v.platform, v.kernel, next.kernel, r.interfaceName, r.sourcePort, r.destinationPort, false);
    if NatAvailable(v.platform) {
      SyncAfterRedirect(v, next, r);
    } else {
      OnlyPortsReflexive(v.kernel);
      TrackedStays(v, next);
      SyncWithoutNat(v, next);
    }
  }

  lemma TrackedStays(v: View, next: View)
    requires InSync(v) && next.pairs == v.pairs && Unique(next.redirections)
    requires forall r :: r in next.redirections ==> r in v.redirections || (RedirectionValid(r) && r.interfaceName != "")
    ensures TrackedWhileEnabled(next.pairs, next.redirections)
  {
    hide Held, Agrees, WellFormed, Unique, InterfaceName;
  }

  lemma SyncAfterUnredirectPort(v: View, next: View, r: Redirection)
    requires InSync(v) && r in v.redirections && multiset(next.redirections) == multiset(v.redirections) - multiset{r}
    requires Redirects(v.platform, v.kernel, next.kernel, r.interfaceName, r.sourcePort, r.destinationPort, true)
    requires next == v.(kernel := next.kernel, redirections := next.redirections)
    requires Unique(next.redirections)
    ensures InSync(next) && OnlyPorts(v.kernel, next.kernel)
  {
    RedirectInstrsAre(r.interfaceName, r.sourcePort, r.destinationPort, true);
    TrackedIsValid(v, r);
    hide RunAll, RedirectInstrs, OnlyV4, OnlyV6, RedirectAndAccept, InSync, Unique, OnlyPorts, WellFormed, ChangedBy,
         Redirects, NatAvailable;
    RedirectAppliedIff(v.platform, v.kernel, next.kernel, r.interfaceName, r.sourcePort, r.destinationPort, true);
    if NatAvailable(v.platform) {
      SyncAfterUnredirect(v, next, r);
    } else {
      forall s | s in next.redirections ensures s in v.redirections {
        assert s in multiset(next.redirections);
      }
      OnlyPortsReflexive(v.kernel);
      TrackedStays(v, next);
      SyncWithoutNat(v, next);
    }
  }

  lemma TrackedIsValid(v: View, r: Redirection)
    requires InSync(v) && r in v.redirections
    ensures RedirectionValid(r)
  {
    hide Held, Agrees, WellFormed, Unique, InterfaceName;
  }

  lemma FamilyAgreesStill(rules: multiset<Located>, next: multiset<Located>, snapshot: multiset<Located>,
                          wanted: multiset<Located>)
    requires FamilyAgrees(rules, snapshot, wanted) && forall l :: IsPortRule(l) ==> next[l] == rules[l]
    ensures FamilyAgrees(next, snapshot, wanted)
  {
    hide IsPortRule;
  }

  lemma AgreesAfterGrowth(p: Platform, k: Kernel, next: Kernel, snapshot: Kernel, pairs: set<PortPair>,
                          rs: seq<Redirection>)
    requires Agrees(p, k, snapshot, pairs, rs) && GrowsElsewhere(k, next)
    ensures Agrees(p, next, snapshot, pairs, rs) && WellFormed(next)
  {
    hide IsPortRule, Wanted, WellFormed, FamilyAgrees;
    FamilyAgreesStill(multiset(k.v4.rules), multiset(next.v4.rules), multiset(snapshot.v4.rules), Wanted(pairs, rs, false));
    if p.ip6Tables {
      FamilyAgreesStill(multiset(k.v6.rules), multiset(next.v6.rules), multiset(snapshot.v6.rules), Wanted(pairs, rs, true));
    }
  }

  lemma SyncAfterGrowth(v: View, next: View)
    requires InSync(v) && GrowsElsewhere(v.kernel, next.kernel) && next == v.(kernel := next.kernel)
    ensures InSync(next)
  {
    hide Held, Agrees, GrowsElsewhere, TrackedValid, WellFormed, Effective;
    HeldGrows(v.kernel, next.kernel, v.routes, v.subnets);
    AgreesAfterGrowth(v.platform, v.kernel, next.kernel, v.snapshot, v.pairs, Effective(v.platform, v.redirections));
  }

  /** Without IPv6 NAT a redirection is tracked and is not in the kernel. */
  lemma SyncWithoutNat(v: View, next: View)
    requires InSync(v) && !NatAvailable(v.platform) && TrackedWhileEnabled(next.pairs, next.redirections)
    requires next == v.(redirections := next.redirections)
    ensures InSync(next)
  {
    hide Held, Agrees, WellFormed, TrackedValid;
  }

  /** Right after the snapshot is taken, nothing is tracked yet. */
  lemma SyncAtStart(p: Platform, routes: seq<Route>, k: Kernel, snapshot: Kernel, asked: set<Prefix>)
    requires WellFormed(k) && snapshot.v4.rules == k.v4.rules && (p.ip6Tables ==> snapshot.v6.rules == k.v6.rules)
    ensures InSync(View(p, routes, k, snapshot, {}, [], [], NO_LEFTOVER, asked))
  {
    assert AcceptedFor({}, "tcp", false) == AcceptedFor({}, "udp", false) == {};
    assert AcceptedFor({}, "tcp", true) == AcceptedFor({}, "udp", true) == {};
  }

  lemma TrackedWith(pairs: set<PortPair>, redirections: seq<Redirection>, port: nat, intf: string)
    requires TrackedValid(pairs, redirections) && port < 0x1_0000 && InterfaceName(intf)
    ensures TrackedValid(pairs + {(port, intf)}, redirections)
  {
    hide Unique, InterfaceName;
  }

  lemma FewerTracked(pairs: set<PortPair>, less: set<PortPair>, redirections: seq<Redirection>)
    requires TrackedValid(pairs, redirections) && less <= pairs
    ensures TrackedValid(less, redirections)
  {
    hide Unique, InterfaceName;
  }

  lemma NamedInterfaces(v: View)
    requires InSync(v)
    ensures (forall x :: x in v.pairs ==> x.1 != "") && (forall r :: r in v.redirections ==> r.interfaceName != "")
  {
    hide TrackedValid, Held, Agrees, WellFormed;
  }

  /** Removing a tracked redirection of an enabled firewall is safe, and removes it alone. */
  lemma RemovesOne(v: View, r: Redirection)
    requires InSync(v) && r in v.redirections
    ensures var kept := Kept(v.redirections, r.interfaceName, r.sourcePort);
            && Removable(v.redirections, r.interfaceName, r.sourcePort)
            && multiset(kept) == multiset(v.redirections) - multiset{r}
            && Unique(kept)
  {
    hide Held, Agrees, WellFormed, Kept, Removable, Unique, InterfaceName;
    UniqueRemovable(v.redirections, r.interfaceName, r.sourcePort);
    KeptOfUnique(v.redirections, r);
    KeptAre(v.redirections, r.interfaceName, r.sourcePort);
  }

  lemma SyncHolds(v: View)
    requires InSync(v)
    ensures Held(v.kernel, v.routes, v.subnets)
  {
    hide TrackedValid, Held, Agrees, WellFormed;
  }

  lemma SyncIsWellFormed(v: View)
    requires InSync(v)
    ensures WellFormed(v.kernel) && TrackedValid(v.pairs, v.redirections)
  {
    hide TrackedValid, Held, Agrees, WellFormed;
  }

  /** What no rule accepts is dropped. */
  ghost predicate Drops(policies: map<string, string>) {
    forall chain :: chain == "INPUT" || chain == "OUTPUT" || chain == "FORWARD" ==>
                      chain in policies && policies[chain] == "DROP"
  }

  ghost predicate DropsByDefault(p: Platform, policies4: map<string, string>, policies6: map<string, string>) {
    Drops(policies4) && (p.ip6Tables ==> Drops(policies6))
  }

  ghost predicate NetworkValid(n: LocalNetwork) {
    n.interfaceName != "" && InterfaceName(n.interfaceName) && n.ip.v6 == n.ipNet.v6 && IsAddress(n.ip)
  }

  /** Interfaces found by the system have names and addresses, and the VPN server has a protocol and a port. */
  ghost predicate FixedValid(routes: seq<Route>, networks: seq<LocalNetwork>, server: Option<VpnServer>) {
    && (forall r :: r in routes ==> r.netInterface != "" && InterfaceName(r.netInterface) && IsAddress(r.assignedIP))
    && (forall n :: n in networks ==> NetworkValid(n))
    && (server.Some? ==>
          IsTcpOrUdp(server.value.protocol) && server.value.port < 0x1_0000 && IsAddress(server.value.ip))
  }

  /** A snapshot of well-formed tables was taken, of the IPv6 tables only where there are any. */
  ghost predicate CanRestore(p: Platform, saved4: Saved, saved6: Saved) {
    && saved4.Saved? && AllListed(saved4.rules.rules, false)
    && (if p.ip6Tables then saved6.Saved? && AllListed(saved6.rules.rules, true) else saved6.NothingToRestore?)
  }

  // ------------------------------------------------------- rules of a subnet

  ghost function RulesIn(k: Kernel, v6: bool): multiset<Located> {
    multiset(if v6 then k.v6.rules else k.v4.rules)
  }

  /** Port rules, the rules of the other family and the policies are as before. */
  ghost predicate OnlySubnets(k: Kernel, next: Kernel, v6: bool) {
    && (forall l :: IsPortRule(l) ==> RulesIn(next, v6)[l] == RulesIn(k, v6)[l])
    && RulesIn(next, !v6) == RulesIn(k, !v6)
    && next.v4.policies == k.v4.policies && next.v6.policies == k.v6.policies
    && WellFormed(next)
  }

  lemma SubnetDoes(intf: string, source: Prefix, destination: Prefix, remove: bool)
    requires intf != "" && InterfaceName(intf) && source.v6 == destination.v6
    requires remove ==> IsMasked(source) && IsMasked(destination)
    ensures Does(Instr(destination.v6, OutputToSubnet(intf, source, destination, remove)),
                 SubnetRule(intf, source, destination), remove)
  {
    var i := OutputToSubnetReadAs(intf, source, destination, remove);
    hide ReadAs, OutputToSubnet, Masked, IsMasked;
    ReadAsDoes(Instr(destination.v6, OutputToSubnet(intf, source, destination, remove)), i,
               SubnetRule(intf, source, destination), remove);
  }

  /** Deleting the rule of a subnet that is not masked finds nothing. */
  lemma SubnetStays(p: Platform, k: Kernel, next: Kernel, intf: string, source: Prefix, destination: Prefix)
    requires intf != "" && InterfaceName(intf) && source.v6 == destination.v6 && WellFormed(k)
    requires destination.v6 ==> p.ip6Tables
    requires !IsMasked(destination)
    requires Run(p, k, Instr(destination.v6, OutputToSubnet(intf, source, destination, true))) == Some(next)
    ensures next == k
  {
    var i := OutputToSubnetReadAs(intf, source, destination, true);
    assert !PrefixesMasked(i) && OfFamily(i, destination.v6);
    hide ReadAs, OutputToSubnet, PrefixesMasked, OfFamily, Exec, AllListed;
    ExecChanges(if destination.v6 then k.v6 else k.v4, OutputToSubnet(intf, source, destination, true), i,
                destination.v6, if destination.v6 then p.ip6Nat else true);
  }

  lemma SubnetRuleElsewhere(intf: string, source: Prefix, destination: Prefix)
    ensures !IsPortRule(SubnetRule(intf, source, destination))
  {
  }

  lemma OneRuleMore(rules: multiset<Located>, rule: Located, remove: bool)
    requires !IsPortRule(rule)
    ensures forall l :: IsPortRule(l) ==> Changed(rules, multiset{rule}, remove)[l] == rules[l]
  {
    hide IsPortRule;
  }

  lemma NoRuleMore(rules: multiset<Located>, rule: Located, remove: bool)
    ensures Changed(rules, One(rule, false), remove) == rules && One(rule, true) == multiset{rule}
  {
  }

  /** A change of one rule that is not a port rule, in one family. */
  lemma OneRuleChange(p: Platform, k: Kernel, next: Kernel, rule: Located, v6: bool, remove: bool)
    requires ChangedBy(p, k, next, One(rule, !v6), One(rule, v6), remove) && !IsPortRule(rule)
    requires v6 ==> p.ip6Tables
    ensures OnlySubnets(k, next, v6)
    ensures RulesIn(next, v6) == Changed(RulesIn(k, v6), multiset{rule}, remove)
  {
    hide IsPortRule, WellFormed, Changed, One;
    OneRuleMore(RulesIn(k, v6), rule, remove);
    NoRuleMore(RulesIn(k, !v6), rule, remove);
    if v6 {
      assert RulesIn(next, true) == Changed(RulesIn(k, true), multiset{rule}, remove);
      assert RulesIn(next, false) == RulesIn(k, false);
    } else {
      assert RulesIn(next, false) == Changed(RulesIn(k, false), multiset{rule}, remove);
      NoRuleMore(RulesIn(k, true), rule, remove);
    }
  }

  lemma SubnetInstruction(p: Platform, k: Kernel, next: Kernel, intf: string, source: Prefix, destination: Prefix,
                          remove: bool)
    requires intf != "" && InterfaceName(intf) && source.v6 == destination.v6 && WellFormed(k)
    requires destination.v6 ==> p.ip6Tables
    requires remove ==> IsMasked(source) && IsMasked(destination)
    requires Run(p, k, Instr(destination.v6, OutputToSubnet(intf, source, destination, remove))) == Some(next)
    ensures OnlySubnets(k, next, destination.v6)
    ensures RulesIn(next, destination.v6)
            == Changed(RulesIn(k, destination.v6), multiset{SubnetRule(intf, source, destination)}, remove)
  {
    hide Run, Does, OutputToSubnet, SubnetRule, ChangedBy, OnlySubnets, WellFormed, One, Changed, RulesIn,
         InterfaceName, IsPortRule, IsMasked;
    var rule := SubnetRule(intf, source, destination);
    SubnetDoes(intf, source, destination, remove);
    RunChanges(p, k, Instr(destination.v6, OutputToSubnet(intf, source, destination, remove)), rule, remove);
    SubnetRuleElsewhere(intf, source, destination);
    OneRuleChange(p, k, next, rule, destination.v6, remove);
  }

  lemma SubnetsKeepPolicies(k: Kernel, next: Kernel, v6: bool)
    requires OnlySubnets(k, next, v6)
    ensures next.v4.policies == k.v4.policies && next.v6.policies == k.v6.policies && WellFormed(next)
  {
    hide IsPortRule, WellFormed;
  }

  lemma OnlySubnetsTwice(k: Kernel, mid: Kernel, next: Kernel, v6: bool)
    requires OnlySubnets(k, mid, v6) && OnlySubnets(mid, next, v6)
    ensures OnlySubnets(k, next, v6)
  {
    hide IsPortRule, WellFormed;
  }

  lemma SyncWhateverAsked(v: View, next: View)
    requires InSync(v) && next == v.(asked := next.asked)
    ensures InSync(next)
  {
    hide Held, Agrees, WellFormed, TrackedValid, Effective;
  }

  /** Subnets come and go without touching what ports and redirections agree on. */
  lemma SyncAfterSubnets(v: View, next: View, v6: bool)
    requires InSync(v) && OnlySubnets(v.kernel, next.kernel, v6) && Held(next.kernel, v.routes, next.subnets)
    requires next == v.(kernel := next.kernel, subnets := next.subnets, leftover := next.leftover)
    ensures InSync(next)
  {
    hide Held, IsPortRule, Wanted, TrackedValid, WellFormed;
  }
}
