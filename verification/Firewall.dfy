/**
  The firewall: tracked state on one side, rules in the kernel on the other. Each
  method runs under one mutex, so that a run of the firewall is a sequence of
  method calls, with any of the commands failing at any time.
 */
module Firewall {
  import opened Wrappers
  import opened IptablesRules
  import opened IptablesKernel
  import opened Iptables
  import opened PortRules
  import opened PortRedirections
  import opened Subnets
  import opened FirewallRules
  import opened FirewallSync
  import opened OutboundSubnets
  import opened Enabling
  import opened Attempts

  // -------------------------------------------------------- the map of ports

  function Allow(allowed: map<nat, set<string>>, port: nat, intf: string): map<nat, set<string>> {
    allowed[port := (if port in allowed then allowed[port] else {}) + {intf}]
  }

  lemma PairsAllow(allowed: map<nat, set<string>>, port: nat, intf: string)
    ensures PortPairs(Allow(allowed, port, intf)) == PortPairs(allowed) + {(port, intf)}
    ensures (port, intf) in PortPairs(allowed) <==> port in allowed && intf in allowed[port]
  {
  }

  lemma AllowAgain(allowed: map<nat, set<string>>, port: nat, intf: string)
    requires port in allowed && intf in allowed[port]
    ensures Allow(allowed, port, intf) == allowed
  {
    assert allowed[port] + {intf} == allowed[port];
  }

  function Disallow(allowed: map<nat, set<string>>, port: nat): map<nat, set<string>> {
    allowed - {port}
  }

  lemma PairsDisallow(allowed: map<nat, set<string>>, port: nat, intf: string)
    requires port in allowed && intf in allowed[port]
    ensures PortPairs(allowed[port := allowed[port] - {intf}]) == PortPairs(allowed) - {(port, intf)}
    ensures (port, intf) in PortPairs(allowed)
  {
  }

  lemma PairsEmpty(allowed: map<nat, set<string>>, port: nat)
    requires port in allowed ==> allowed[port] == {}
    ensures PortPairs(Disallow(allowed, port)) == PortPairs(allowed)
  {
  }

  lemma PairsWithout(allowed: map<nat, set<string>>, port: nat)
    ensures PortPairs(Disallow(allowed, port)) <= PortPairs(allowed)
  {
  }

  /** The map with some interfaces of the port taken away, and left the ones that remain. */
  ghost predicate Narrowed(was: map<nat, set<string>>, now: map<nat, set<string>>, port: nat, left: set<string>) {
    && port in was && left <= was[port] && now == was[port := left]
  }

  lemma NarrowedStep(was: map<nat, set<string>>, now: map<nat, set<string>>, port: nat, left: set<string>, intf: string)
    requires Narrowed(was, now, port, left) && intf in left
    ensures port in now && intf in now[port]
    ensures Narrowed(was, now[port := now[port] - {intf}], port, left - {intf})
  {
  }

  lemma NarrowedAtEnds(was: map<nat, set<string>>, now: map<nat, set<string>>, port: nat)
    ensures port in was ==> Narrowed(was, was, port, was[port])
    ensures port !in was ==> Disallow(was, port) == was
    ensures Narrowed(was, now, port, {}) ==> port in now && now[port] == {} && Disallow(now, port) == Disallow(was, port)
  {
  }

  // ---------------------------------------------------------------- the class

  class Config {
    const impl: Iptables.Config
    const defaultRoutes: seq<Route>
    const localNetworks: seq<LocalNetwork>
    const vpnServer: Option<VpnServer>
    var enabled: bool
    var saved4: Saved
    var saved6: Saved
    var outboundSubnets: seq<Prefix>
    var allowedInputPorts: map<nat, set<string>>
    var portRedirections: seq<Redirection>
    ghost var asked: set<Prefix>      // the subnets tracked or asked for since the last enabling
    ghost var leftover: Leftover      // their rules that failed to come or go

    constructor (impl: Iptables.Config, defaultRoutes: seq<Route>, localNetworks: seq<LocalNetwork>, vpnServer: Option<VpnServer>)
      requires FixedValid(defaultRoutes, localNetworks, vpnServer) && WellFormed(impl.State())
      ensures Valid() && !enabled && outboundSubnets == [] && allowedInputPorts == map[] && portRedirections == []
      ensures this.impl == impl && this.defaultRoutes == defaultRoutes && this.localNetworks == localNetworks
      ensures this.vpnServer == vpnServer
    {
      this.impl, this.defaultRoutes, this.localNetworks, this.vpnServer := impl, defaultRoutes, localNetworks, vpnServer;
      enabled, saved4, saved6, leftover, asked := false, SaveFailed, SaveFailed, NO_LEFTOVER, {};
      outboundSubnets, allowedInputPorts, portRedirections := [], map[], [];
    }

    /** The kernel as it was before the last enabling. */
    ghost function Snapshot(): Kernel
      reads this
    {
      Kernel(if saved4.Saved? then saved4.rules else Ruleset([], map[]),
             if saved6.Saved? then saved6.rules else Ruleset([], map[]))
    }

    ghost function Seen(): View
      reads this, impl
    {
      View(impl.platform, defaultRoutes, impl.State(), Snapshot(), PortPairs(allowedInputPorts), portRedirections,
           outboundSubnets, leftover, asked)
    }

    ghost function Base(): seq<Instr>
    {
      BaseInstrs(defaultRoutes, localNetworks, vpnServer)
    }

    /** What holds between any two calls: an enabled firewall agrees with the kernel, which drops the rest. */
    ghost predicate Valid()
      reads this, impl
    {
      && FixedValid(defaultRoutes, localNetworks, vpnServer)
      && TrackedValid(PortPairs(allowedInputPorts), portRedirections)
      && WellFormed(impl.State())
      && (enabled ==> CanRestore(impl.platform, saved4, saved6) && Underway(Seen(), Base())
                      && forall s :: s in outboundSubnets ==> s in asked)
    }

    /**
      The whole kernel, at any time while the firewall is enabled: its rules and its policies.
      Without IPv6 NAT, redirections have no rules there. Rules left over from failures are rules
      of subnets that were tracked or asked for, out of an interface with a default route.
     */
    lemma KernelIsAccountedFor(v6: bool)
      requires Valid() && enabled && (v6 ==> impl.platform.ip6Tables)
      ensures RulesIn(impl.State(), v6)
              == RulesIn(Snapshot(), v6) + AddedBy(Base(), v6)
                 + (TrackedRules(defaultRoutes, outboundSubnets, v6) + leftover.In(v6))
                 + Wanted(PortPairs(allowedInputPorts), Effective(impl.platform, portRedirections), v6)
      ensures forall l :: l in leftover.In(v6) ==> IsSubnetRule(defaultRoutes, asked, l)
      ensures Drops(if v6 then impl.v6.policies else impl.v4.policies)
    {
      BaseInstrsAdd(defaultRoutes, localNetworks, vpnServer);
      hide InSync, Exact, AllAdd, BaseInstrs, AddedBy, TrackedRules, Wanted, TrackedValid, FixedValid, CanRestore,
           IsSubnetRule;
      WholeKernel(Seen(), Base(), v6);
    }

    // ------------------------------------------------------------------ ports

    lemma EnabledNames()
      requires Valid() && enabled
      ensures forall x :: x in PortPairs(allowedInputPorts) ==> x.1 != ""
    {
      hide Underway, WellFormed, FixedValid, CanRestore, PortPairs, TrackedValid, InSync;
      UnderwayIsInSync(Seen(), Base());
      NamedInterfaces(Seen());
    }

    /** A disabled firewall only tracks the port. */
    method TrackPort(port: nat, intf: string)
      requires Valid() && !enabled && port < 0x1_0000 && InterfaceName(intf)
      modifies this`allowedInputPorts
      ensures Valid() && allowedInputPorts == Allow(old(allowedInputPorts), port, intf)
    {
      PairsAllow(allowedInputPorts, port, intf);
      TrackedWith(PortPairs(allowedInputPorts), portRedirections, port, intf);
      hide Underway, WellFormed, FixedValid, CanRestore, PortPairs, InterfaceName, TrackedValid, Allow;
      allowedInputPorts := Allow(allowedInputPorts, port, intf);
    }

    method AddPortInterface(port: nat, intf: string) returns (o: Outcome)
      requires Valid() && enabled && port < 0x1_0000 && InterfaceName(intf)
      requires (port, intf) !in PortPairs(allowedInputPorts)
      modifies this`allowedInputPorts, impl`v4, impl`v6, impl`failures
      ensures impl.failures >= old(impl.failures)
      ensures impl.failures == old(impl.failures) ==> (o.Done? <==> intf != "")
      ensures Valid()
      ensures o.Failed? ==> allowedInputPorts == old(allowedInputPorts) && impl.State() == old(impl.State())
      ensures o.Done? ==> allowedInputPorts == Allow(old(allowedInputPorts), port, intf) && intf != ""
      ensures OnlyPorts(old(impl.State()), impl.State())
    {
      PairsAllow(allowedInputPorts, port, intf);
      hide Underway, WellFormed, FixedValid, CanRestore, RunAll, PortPairs, InterfaceName, TrackedValid, Allow,
           IsPortRule, AcceptPort, Both;
      ghost var before := Seen();
      AcceptPortAttempt(impl.platform, impl.State(), intf, port, false);
      o := impl.AcceptInputToPort(intf, port, false);
      if o.Done? {
        allowedInputPorts := Allow(allowedInputPorts, port, intf);
        UnderwayWithPort(before, Seen(), Base(), port, intf);
        UnderwayIsWellFormed(Seen(), Base());
      }
    }

    /** A port is tracked exactly when its rules are in the kernel, or the firewall is disabled. */
    method SetAllowedPort(port: nat, intf: string) returns (o: Outcome)
      requires Valid() && port < 0x1_0000 && InterfaceName(intf)
      modifies this`allowedInputPorts, impl`v4, impl`v6, impl`failures
      ensures impl.failures >= old(impl.failures)
      ensures impl.failures == old(impl.failures) ==> (o.Failed? <==> enabled && port != 0 && intf == "")
      ensures Valid()
      ensures allowedInputPorts == if port == 0 || o.Failed? then old(allowedInputPorts)
                                   else Allow(old(allowedInputPorts), port, intf)
      ensures o.Failed? || !enabled || port == 0 || (port, intf) in old(PortPairs(allowedInputPorts)) ==>
                impl.State() == old(impl.State())
      ensures OnlyPorts(old(impl.State()), impl.State())
      ensures o.Failed? ==> enabled && port != 0 && (port, intf) !in old(PortPairs(allowedInputPorts))
      ensures intf == "" && enabled && port != 0 ==> o.Failed?
    {
      hide *;
      PairsAllow(allowedInputPorts, port, intf);
      OnlyPortsReflexive(impl.State());
      if port == 0 {
        return Done;
      }
      if !enabled {
        TrackPort(port, intf);
        return Done;
      }
      EnabledNames();
      if port in allowedInputPorts && intf in allowedInputPorts[port] {
        AllowAgain(allowedInputPorts, port, intf);
        return Done;
      }
      o := AddPortInterface(port, intf);
    }

    lemma TrackedPort(port: nat, intf: string)
      requires Valid() && enabled && (port, intf) in PortPairs(allowedInputPorts)
      ensures intf != "" && InterfaceName(intf) && port < 0x1_0000
    {
      EnabledNames();
      hide Underway, WellFormed, FixedValid, CanRestore, PortPairs, InterfaceName, Unique;
    }

    /** One turn of the loop below. */
    method RemovePortInterface(port: nat, intf: string) returns (o: Outcome)
      requires Valid() && enabled && port in allowedInputPorts && intf in allowedInputPorts[port]
      modifies this`allowedInputPorts, impl`v4, impl`v6, impl`failures
      ensures impl.failures >= old(impl.failures)
      ensures impl.failures == old(impl.failures) ==> o.Done?
      ensures Valid()
      ensures o.Failed? ==> allowedInputPorts == old(allowedInputPorts) && impl.State() == old(impl.State())
      ensures o.Done? ==> allowedInputPorts == old(allowedInputPorts[port := allowedInputPorts[port] - {intf}])
      ensures OnlyPorts(old(impl.State()), impl.State())
    {
      hide Underway, WellFormed, FixedValid, CanRestore, RunAll, PortPairs, InterfaceName, Unique, TrackedValid,
           IsPortRule;
      ghost var before := Seen();
      PairsDisallow(allowedInputPorts, port, intf);
      TrackedPort(port, intf);
      AcceptPortAttempt(impl.platform, impl.State(), intf, port, true);
      o := impl.AcceptInputToPort(intf, port, true);
      if o.Done? {
        allowedInputPorts := allowedInputPorts[port := allowedInputPorts[port] - {intf}];
        UnderwayWithoutPort(before, Seen(), Base(), port, intf);
        UnderwayIsWellFormed(Seen(), Base());
      }
    }

    /** Forgets a port that no rule in the kernel stands for. */
    method DropPort(port: nat)
      requires Valid() && (enabled && port in allowedInputPorts ==> allowedInputPorts[port] == {})
      modifies this`allowedInputPorts
      ensures Valid() && allowedInputPorts == Disallow(old(allowedInputPorts), port)
    {
      hide Underway, WellFormed, FixedValid, CanRestore, PortPairs, TrackedValid;
      if enabled {
        PairsEmpty(allowedInputPorts, port);
      } else {
        PairsWithout(allowedInputPorts, port);
        FewerTracked(PortPairs(allowedInputPorts), PortPairs(Disallow(allowedInputPorts, port)), portRedirections);
      }
      allowedInputPorts := Disallow(allowedInputPorts, port);
    }

    /** Removes the interfaces of a port one by one, in any order. */
    method RemoveInterfaces(port: nat) returns (o: Outcome, ghost left: set<string>)
      requires Valid() && enabled && port in allowedInputPorts
      modifies this`allowedInputPorts, impl`v4, impl`v6, impl`failures
      ensures impl.failures >= old(impl.failures)
      ensures impl.failures == old(impl.failures) ==> o.Done?
      ensures Valid() && OnlyPorts(old(impl.State()), impl.State())
      ensures Narrowed(old(allowedInputPorts), allowedInputPorts, port, left) && (o.Failed? <==> left != {})
    {
      hide Valid, OnlyPorts, Narrowed;
      ghost var tracked, was := allowedInputPorts, impl.State();
      OnlyPortsReflexive(was);
      NarrowedAtEnds(tracked, tracked, port);
      var interfaces := allowedInputPorts[port];
      while interfaces != {}
        invariant Valid() && Narrowed(tracked, allowedInputPorts, port, interfaces)
        invariant OnlyPorts(was, impl.State()) && impl.failures >= old(impl.failures)
      {
        var intf :| intf in interfaces;
        ghost var before := impl.State();
        NarrowedStep(tracked, allowedInputPorts, port, interfaces, intf);
        o := RemovePortInterface(port, intf);
        if o.Failed? {
          return o, interfaces;
        }
        interfaces := interfaces - {intf};
        OnlyPortsTwice(was, before, impl.State());
      }
      return Done, {};
    }

    /** Interfaces whose rules are removed are no longer tracked, whatever fails after them. */
    method RemoveAllowedPort(port: nat) returns (o: Outcome)
      requires Valid() && port < 0x1_0000
      modifies this`allowedInputPorts, impl`v4, impl`v6, impl`failures
      ensures impl.failures >= old(impl.failures)
      ensures impl.failures == old(impl.failures) ==> o.Done?
      ensures Valid() && OnlyPorts(old(impl.State()), impl.State())
      ensures port == 0 ==> o.Done? && allowedInputPorts == old(allowedInputPorts)
      ensures port != 0 && o.Done? ==> allowedInputPorts == Disallow(old(allowedInputPorts), port)
      ensures o.Failed? ==> enabled && exists left :: left != {} && Narrowed(old(allowedInputPorts), allowedInputPorts, port, left)
      ensures !enabled || port !in old(allowedInputPorts) ==> o.Done? && impl.State() == old(impl.State())
    {
      hide Valid, OnlyPorts, Narrowed, Disallow;
      ghost var tracked := allowedInputPorts;
      OnlyPortsReflexive(impl.State());
      NarrowedAtEnds(tracked, tracked, port);
      if port == 0 {
        return Done;
      }
      if !enabled {
        DropPort(port);
        return Done;
      }
      if port !in allowedInputPorts {
        return Done;
      }
      ghost var left;
      o, left := RemoveInterfaces(port);
      if o.Done? {
        NarrowedAtEnds(tracked, allowedInputPorts, port);
        DropPort(port);
      }
    }

    // ----------------------------------------------------------- redirections

    lemma EnabledTracks()
      requires Valid() && enabled
      ensures Unique(portRedirections) && forall r :: r in portRedirections ==> r.interfaceName != ""
    {
      hide WellFormed, FixedValid, DropsByDefault, CanRestore, PortPairs, Unique, InterfaceName, Held, Agrees, Exact,
           BaseInstrs;
    }

    lemma TrackedOnce()
      requires Valid()
      ensures Unique(portRedirections)
    {
      hide Underway, WellFormed, FixedValid, CanRestore, PortPairs, Unique, InterfaceName;
    }

    lemma TrackedRedirection(r: Redirection)
      requires Valid() && enabled && r in portRedirections
      ensures r.interfaceName != "" && RedirectionValid(r)
    {
      EnabledTracks();
      hide Underway, WellFormed, FixedValid, CanRestore, PortPairs, InterfaceName, Unique;
    }

    method RemoveRedirection(other: Redirection) returns (o: Outcome)
      requires Valid() && enabled && other in portRedirections
      modifies this`portRedirections, impl`v4, impl`v6, impl`failures
      ensures impl.failures >= old(impl.failures)
      ensures impl.failures == old(impl.failures) ==> o.Done?
      ensures Valid() && OnlyPorts(old(impl.State()), impl.State())
      ensures o.Failed? ==> portRedirections == old(portRedirections) && impl.State() == old(impl.State())
      ensures o.Done? ==>
                multiset(portRedirections) == multiset(old(Kept(portRedirections, other.interfaceName, other.sourcePort)))
    {
      hide Underway, WellFormed, FixedValid, CanRestore, Redirects, PortPairs, IsPortRule, TrackedValid, Kept,
           Removable;
      ghost var before := Seen();
      TrackedRedirection(other);
      RedirectAttempt(impl.platform, impl.State(), other.interfaceName, other.sourcePort, other.destinationPort, true);
      o := impl.RedirectPort(other.interfaceName, other.sourcePort, other.destinationPort, true);
      if o.Failed? {
        return;
      }
      UnderwayIsInSync(before, Base());
      RemovesOne(before, other);
      var rest := Remove(portRedirections, other.interfaceName, other.sourcePort);
      UniquePermutes(Kept(before.redirections, other.interfaceName, other.sourcePort), rest.value);
      portRedirections := rest.value;
      UnderwayWithoutRedirection(before, Seen(), Base(), other);
      UnderwayIsWellFormed(Seen(), Base());
    }

    method AddRedirection(r: Redirection) returns (o: Outcome)
      requires Valid() && enabled && RedirectionValid(r) && Unique(portRedirections + [r])
      modifies this`portRedirections, impl`v4, impl`v6, impl`failures
      ensures impl.failures >= old(impl.failures)
      ensures impl.failures == old(impl.failures) ==> (o.Done? <==> r.interfaceName != "")
      ensures Valid() && OnlyPorts(old(impl.State()), impl.State())
      ensures o.Failed? ==> portRedirections == old(portRedirections) && impl.State() == old(impl.State())
      ensures o.Done? ==> portRedirections == old(portRedirections) + [r] && r.interfaceName != ""
    {
      hide Underway, WellFormed, FixedValid, CanRestore, Redirects, PortPairs, IsPortRule, TrackedValid, Unique;
      ghost var before := Seen();
      RedirectAttempt(impl.platform, impl.State(), r.interfaceName, r.sourcePort, r.destinationPort, false);
      o := impl.RedirectPort(r.interfaceName, r.sourcePort, r.destinationPort, false);
      if o.Done? {
        portRedirections := portRedirections + [r];
        UnderwayWithRedirection(before, Seen(), Base(), r);
        UnderwayIsWellFormed(Seen(), Base());
      }
    }

    /** A disabled firewall only tracks the redirection. */
    method TrackRedirection(r: Redirection) returns (panicked: bool)
      requires Valid() && !enabled && RedirectionValid(r)
      modifies this`portRedirections
      ensures Valid()
      ensures panicked <==> TrackingPanics(old(portRedirections), r)
      ensures panicked ==> portRedirections == old(portRedirections)
      ensures !panicked ==> multiset(portRedirections) == Tracked(old(portRedirections), r)
    {
      hide Underway, WellFormed, FixedValid, CanRestore, PortPairs, TrackingPanics, Tracked, Unique, InterfaceName;
      var q := Track(portRedirections, r);
      if q.None? {
        return true;
      }
      TrackedUnique(portRedirections, q.value, r);
      TrackedAre(portRedirections, q.value, r);
      portRedirections := q.value;
      return false;
    }

    /**
      Redirecting a port that another redirection conflicts with removes the other
      one first, and leaves it removed when the new one fails. An enabled firewall
      takes destination port 0 for a destination like any other.
     */
    method RedirectPort(intf: string, sourcePort: nat, destinationPort: nat) returns (result: RedirectOutcome)
      requires Valid() && sourcePort < 0x1_0000 && destinationPort < 0x1_0000 && InterfaceName(intf)
      modifies this`portRedirections, impl`v4, impl`v6, impl`failures
      ensures impl.failures >= old(impl.failures)
      ensures impl.failures == old(impl.failures) ==> result.Finished? ==> (result.outcome.Failed? <==> enabled && intf == "")
      ensures Valid() && OnlyPorts(old(impl.State()), impl.State())
      ensures var r, was := Redirection(intf, sourcePort, destinationPort), old(portRedirections);
              && (result.Panicked? <==> sourcePort == 0 || (!enabled && TrackingPanics(was, r)))
              && (result.Panicked? ==> portRedirections == was)
              && (!enabled || result.Panicked? ==> impl.State() == old(impl.State()))
              && (!enabled && !result.Panicked? ==> result == Finished(Done) && multiset(portRedirections) == Tracked(was, r))
              && (enabled && result == Finished(Done) ==> intf != "" && multiset(portRedirections) == Redirected(was, r))
              && (result.Finished? && result.outcome.Failed? ==>
                    || (portRedirections == was && impl.State() == old(impl.State()))
                    || multiset(portRedirections) + multiset{r} == Redirected(was, r))
              && (destinationPort == 0 && result == Finished(Done) ==>
                    ((forall s :: s in portRedirections ==> !Matches(s, intf, sourcePort)) <==> !enabled))
    {
      var r := Redirection(intf, sourcePort, destinationPort);
      hide Valid, TrackingPanics, Tracked, Kept, Unique, OnlyPorts, InterfaceName, WellFormed, InSync, Matches;
      ghost var was := impl.State();
      OnlyPortsReflexive(was);
      if sourcePort == 0 {
        return Panicked;
      }
      ghost var tracked := portRedirections;
      TrackedOnce();
      if !enabled {
        var panicked := TrackRedirection(r);
        if !panicked && destinationPort == 0 {
          ZeroRemovesIff(tracked, portRedirections, r, false);
        }
        return if panicked then Panicked else Finished(Done);
      }
      EnabledTracks();
      FirstOverlapIs(tracked, r);
      var known, conflict := Check(portRedirections, r);
      if known {
        if destinationPort == 0 {
          ZeroRemovesIff(tracked, portRedirections, r, true);
        }
        return Finished(Done);
      }
      if conflict.Some? {
        var o := RemoveRedirection(conflict.value);
        if o.Failed? {
          return Finished(o);
        }
      }
      ghost var middle := impl.State();
      RedirectedUnique(tracked, portRedirections + [r], r);
      var o := AddRedirection(r);
      OnlyPortsTwice(was, middle, impl.State());
      if o.Done? && destinationPort == 0 {
        ZeroRemovesIff(tracked, portRedirections, r, true);
      }
      return Finished(o);
    }

    // -------------------------------------------------------- outbound subnets

    lemma SubnetAttempt(i: nat, subnet: Prefix, remove: bool, k: Kernel)
      requires FixedValid(defaultRoutes, localNetworks, vpnServer) && i < |defaultRoutes|
      requires defaultRoutes[i].assignedIP.v6 == subnet.v6
      ensures var route := defaultRoutes[i];
              impl.AttemptOne(route.assignedIP.v6 || subnet.v6,
                              OutputToSubnet(route.netInterface, route.assignedIP, subnet, remove), k).Done?
              <==> Served(impl.platform, defaultRoutes, subnet)
    {
      hide InterfaceName, OutputToSubnet, Run, IsAddress, NetworkValid, IsTcpOrUdp, HasRoute;
      var route := defaultRoutes[i];
      RouteMakesServed(impl.platform, defaultRoutes, i, subnet);
      SubnetAccepted(impl.platform, route.netInterface, route.assignedIP, subnet, remove);
    }

    lemma NoRouteIsServed(subnet: Prefix)
      ensures !HasRoute(defaultRoutes, subnet) ==> Served(impl.platform, defaultRoutes, subnet)
    {
    }

    /** The rules of one subnet, for the default routes of its family; others are passed over. */
    method AddSubnetRules(subnet: Prefix) returns (o: Outcome, updated: bool)
      requires FixedValid(defaultRoutes, localNetworks, vpnServer) && WellFormed(impl.State())
      modifies impl`v4, impl`v6, impl`failures
      ensures impl.failures >= old(impl.failures)
      ensures impl.failures == old(impl.failures) ==> (o.Done? <==> Served(impl.platform, defaultRoutes, subnet))
      ensures WellFormed(impl.State())
      ensures o.Done? ==> AddedFor(old(impl.State()), impl.State(), defaultRoutes, |defaultRoutes|, subnet)
      ensures o.Done? ==> (updated <==> HasRoute(defaultRoutes, subnet))
      ensures exists i :: 0 <= i <= |defaultRoutes| && AddedFor(old(impl.State()), impl.State(), defaultRoutes, i, subnet)
      ensures !updated ==> impl.State() == old(impl.State())
      ensures !impl.platform.ip6Tables ==> impl.v6 == old(impl.v6)
    {
      hide Served, WellFormed, AddedFor, RunFor, InterfaceName, IsTcpOrUdp, NetworkValid, IsAddress;
      ghost var was := impl.State();
      updated := false;
      ForNoRoute(was, defaultRoutes, subnet);
      for i := 0 to |defaultRoutes|
        invariant WellFormed(impl.State()) && AddedFor(was, impl.State(), defaultRoutes, i, subnet)
        invariant !impl.platform.ip6Tables ==> impl.v6 == old(impl.v6)
        invariant updated <==> HasRoute(defaultRoutes[..i], subnet)
        invariant !updated ==> impl.State() == was
        invariant impl.failures >= old(impl.failures)
        invariant updated && impl.failures == old(impl.failures) ==> Served(impl.platform, defaultRoutes, subnet)
      {
        var route := defaultRoutes[i];
        HasRouteSoFar(defaultRoutes, i, subnet);
        if route.assignedIP.v6 != subnet.v6 {
          ForOtherFamily(was, impl.State(), defaultRoutes, i, subnet, true);
          continue;
        }
        updated := true;
        ghost var before := impl.State();
        SubnetAttempt(i, subnet, false, before);
        o := impl.AcceptOutputFromIPToSubnet(route.netInterface, route.assignedIP, subnet, false);
        if o.Failed? {
          return;
        }
        RunForOne(impl.platform, before, impl.State(), route, subnet, false);
        AddedForOneMore(impl.platform, was, before, impl.State(), defaultRoutes, i, subnet);
      }
      assert defaultRoutes[..|defaultRoutes|] == defaultRoutes;
      NoRouteIsServed(subnet);
      return Done, updated;
    }

    /**
      Failures are logged, and the other routes are still looked at. The rules of a subnet that
      is not masked are not found, which is no failure.
     */
    method RemoveSubnetRules(subnet: Prefix) returns (clean: bool, updated: bool)
      requires FixedValid(defaultRoutes, localNetworks, vpnServer) && WellFormed(impl.State())
      modifies impl`v4, impl`v6, impl`failures
      ensures impl.failures >= old(impl.failures)
      ensures impl.failures == old(impl.failures) ==> (clean <==> Served(impl.platform, defaultRoutes, subnet))
      ensures WellFormed(impl.State())
      ensures RemovedFor(old(impl.State()), impl.State(), defaultRoutes, |defaultRoutes|, subnet, clean && IsMasked(subnet))
      ensures updated <==> HasRoute(defaultRoutes, subnet)
      ensures !updated ==> clean && impl.State() == old(impl.State())
      ensures !IsMasked(subnet) ==> impl.State() == old(impl.State())
    {
      hide Served, WellFormed, RemovedFor, RunFor, InterfaceName, IsTcpOrUdp, NetworkValid, IsMasked, IsAddress;
      ghost var was, masked := impl.State(), IsMasked(subnet);
      clean, updated := true, false;
      ForNoRoute(was, defaultRoutes, subnet);
      LessExact(was, was, defaultRoutes, 0, subnet, masked);
      for i := 0 to |defaultRoutes|
        invariant WellFormed(impl.State()) && RemovedFor(was, impl.State(), defaultRoutes, i, subnet, clean && masked)
        invariant updated <==> HasRoute(defaultRoutes[..i], subnet)
        invariant !updated ==> clean && impl.State() == was
        invariant !masked ==> impl.State() == was
        invariant impl.failures >= old(impl.failures)
        invariant updated && impl.failures == old(impl.failures) ==>
                    (clean <==> Served(impl.platform, defaultRoutes, subnet))
      {
        var route := defaultRoutes[i];
        HasRouteSoFar(defaultRoutes, i, subnet);
        if route.assignedIP.v6 != subnet.v6 {
          ForOtherFamily(was, impl.State(), defaultRoutes, i, subnet, clean && masked);
          continue;
        }
        updated := true;
        ghost var before := impl.State();
        SubnetAttempt(i, subnet, true, before);
        var o := impl.AcceptOutputFromIPToSubnet(route.netInterface, route.assignedIP, subnet, true);
        if o.Done? {
          RunForOne(impl.platform, before, impl.State(), route, subnet, true);
          if !masked {
            NothingRemoved(impl.platform, before, impl.State(), defaultRoutes, i, subnet);
          }
        }
        RemovedForOneMore(impl.platform, was, before, impl.State(), defaultRoutes, i, subnet, clean && masked, o.Failed?);
        clean := clean && o.Done?;
      }
      assert defaultRoutes[..|defaultRoutes|] == defaultRoutes;
      NoRouteIsServed(subnet);
    }

    /** One turn of addOutboundSubnets. */
    method AddOutboundSubnet(subnet: Prefix) returns (o: Outcome)
      requires Valid() && enabled && subnet in asked
      modifies this`outboundSubnets, this`leftover, impl`v4, impl`v6, impl`failures
      ensures impl.failures >= old(impl.failures)
      ensures impl.failures == old(impl.failures) ==> (o.Done? <==> Served(impl.platform, defaultRoutes, subnet))
      ensures Valid() && OnlySubnets(old(impl.State()), impl.State(), subnet.v6)
      ensures outboundSubnets == if o.Done? && HasRoute(defaultRoutes, subnet) then old(outboundSubnets) + [subnet]
                                 else old(outboundSubnets)
      ensures Conserved(defaultRoutes, old(impl.State()), old(outboundSubnets), old(leftover),
                        impl.State(), outboundSubnets, leftover)
      ensures Grows(old(leftover), leftover) && (o.Done? ==> leftover == old(leftover))
    {
      hide Served, Underway, InSync, WellFormed, FixedValid, CanRestore, PortPairs, TrackedValid, AddedFor, OnlySubnets,
           HasRoute, Conserved, BaseInstrs, Held, OnlySubnetRules, Grows;
      ghost var before := Seen();
      UnderwayIsInSync(before, Base());
      UnderwayLeavesSubnets(before, Base());
      var updated;
      o, updated := AddSubnetRules(subnet);
      ghost var left := AddedOnTop(before, impl.State(), subnet, updated, o.Done?);
      SubnetsKeepPolicies(before.kernel, impl.State(), subnet.v6);
      if o.Done? && updated {
        outboundSubnets := outboundSubnets + [subnet];
      }
      leftover := left;
      UnderwayAfterSubnets(before, Seen(), Base(), subnet.v6);
    }

    /** One turn of removeOutboundSubnets. */
    method RemoveOutboundSubnet(subnet: Prefix) returns (clean: bool)
      requires Valid() && enabled && subnet in outboundSubnets
      modifies this`outboundSubnets, this`leftover, impl`v4, impl`v6, impl`failures
      ensures impl.failures >= old(impl.failures)
      ensures impl.failures == old(impl.failures) ==> (clean <==> Served(impl.platform, defaultRoutes, subnet))
      ensures Valid() && OnlySubnets(old(impl.State()), impl.State(), subnet.v6)
      ensures if HasRoute(defaultRoutes, subnet) then IsWithout(outboundSubnets, old(outboundSubnets), subnet)
              else outboundSubnets == old(outboundSubnets)
      ensures Conserved(defaultRoutes, old(impl.State()), old(outboundSubnets), old(leftover),
                        impl.State(), outboundSubnets, leftover)
      ensures Grows(old(leftover), leftover)
      ensures clean && Deletable(defaultRoutes, subnet) ==> leftover == old(leftover)
      ensures !Deletable(defaultRoutes, subnet) ==> leftover != old(leftover)
    {
      hide Served, Underway, InSync, WellFormed, FixedValid, CanRestore, PortPairs, TrackedValid, IsWithout, RemovedFor,
           OnlySubnets, HasRoute, Conserved, Held, BaseInstrs, OnlySubnetRules, Grows, IsMasked;
      ghost var before := Seen();
      UnderwayIsInSync(before, Base());
      UnderwayLeavesSubnets(before, Base());
      var updated;
      clean, updated := RemoveSubnetRules(subnet);
      var rest := outboundSubnets;
      if updated {
        rest := RemoveSubnetFromSubnets(outboundSubnets, subnet);
      }
      ghost var left := RemovedFromTracked(before, impl.State(), rest, subnet, updated, clean && IsMasked(subnet));
      FewerEntries(rest, outboundSubnets, subnet);
      outboundSubnets, leftover := rest, left;
      UnderwayAfterSubnets(before, Seen(), Base(), subnet.v6);
    }

    method RemoveOutboundSubnets(subnets: seq<Prefix>) returns (clean: bool)
      requires Valid() && enabled && multiset(subnets) <= multiset(outboundSubnets)
      modifies this`outboundSubnets, this`leftover, impl`v4, impl`v6, impl`failures
      ensures impl.failures >= old(impl.failures)
      ensures impl.failures == old(impl.failures) ==> (clean <==> AllServed(impl.platform, defaultRoutes, subnets))
      ensures Valid() && PortsKept(old(impl.State()), impl.State())
      ensures multiset(outboundSubnets)
              == multiset(old(outboundSubnets)) - multiset(WithRoute(defaultRoutes, subnets))
      ensures Conserved(defaultRoutes, old(impl.State()), old(outboundSubnets), old(leftover),
                        impl.State(), outboundSubnets, leftover)
      ensures Grows(old(leftover), leftover)
      ensures clean && AllDeletable(defaultRoutes, subnets) ==> leftover == old(leftover)
      ensures !AllDeletable(defaultRoutes, subnets) ==> leftover != old(leftover)
    {
      hide *;
      GrowsByNothing(leftover);
      NoneToDelete(defaultRoutes);
      NoneToServe(impl.platform, defaultRoutes);
      assert subnets[..0] == [];
      ghost var was, tracked, left := impl.State(), outboundSubnets, leftover;
      clean := true;
      AtFirst(defaultRoutes, was, tracked, left, subnets);
      for n := 0 to |subnets|
        invariant Valid() && PortsKept(was, impl.State())
        invariant LeftAfter(defaultRoutes, tracked, subnets, n, outboundSubnets)
        invariant Conserved(defaultRoutes, was, tracked, left, impl.State(), outboundSubnets, leftover)
        invariant Grows(left, leftover) && impl.failures >= old(impl.failures)
        invariant impl.failures == old(impl.failures) ==>
                    (clean <==> AllServed(impl.platform, defaultRoutes, subnets[..n]))
        invariant clean && AllDeletable(defaultRoutes, subnets[..n]) ==> leftover == left
        invariant !AllDeletable(defaultRoutes, subnets[..n]) ==> leftover != left
      {
        ghost var before, some, over := impl.State(), outboundSubnets, leftover;
        OneMoreChecked(impl.platform, defaultRoutes, subnets, n);
        NextToRemove(defaultRoutes, tracked, subnets, n, some);
        var fine := RemoveOutboundSubnet(subnets[n]);
        OneRemoved(defaultRoutes, tracked, subnets, n, some, outboundSubnets);
        GrowsTwice(left, over, leftover);
        OnlySubnetsKeepPorts(was, before, impl.State(), subnets[n].v6);
        ConservedTwice(defaultRoutes, was, tracked, left, before, some, over, impl.State(), outboundSubnets, leftover);
        clean := clean && fine;
      }
      AllTaken(defaultRoutes, tracked, subnets, outboundSubnets);
    }

    /** Stops at the first failure, with the subnets before it added. */
    method AddOutboundSubnets(subnets: seq<Prefix>) returns (o: Outcome)
      requires Valid() && enabled && forall s :: s in subnets ==> s in asked
      modifies this`outboundSubnets, this`leftover, impl`v4, impl`v6, impl`failures
      ensures impl.failures >= old(impl.failures)
      ensures impl.failures == old(impl.failures) ==> (o.Done? <==> AllServed(impl.platform, defaultRoutes, subnets))
      ensures Valid() && PortsKept(old(impl.State()), impl.State())
      ensures exists n :: 0 <= n <= |subnets| && (o.Done? ==> n == |subnets|)
                          && outboundSubnets == old(outboundSubnets) + WithRoute(defaultRoutes, subnets[..n])
      ensures Conserved(defaultRoutes, old(impl.State()), old(outboundSubnets), old(leftover),
                        impl.State(), outboundSubnets, leftover)
      ensures Grows(old(leftover), leftover) && (o.Done? ==> leftover == old(leftover))
    {
      hide *;
      GrowsByNothing(leftover);
      NoneToServe(impl.platform, defaultRoutes);
      assert subnets[..0] == [] && subnets[..|subnets|] == subnets;
      ghost var was, tracked, left := impl.State(), outboundSubnets, leftover;
      AtFirst(defaultRoutes, was, tracked, left, subnets);
      NoneWithRoute(defaultRoutes);
      assert tracked + [] == tracked;
      for n := 0 to |subnets|
        invariant Valid() && PortsKept(was, impl.State())
        invariant outboundSubnets == tracked + WithRoute(defaultRoutes, subnets[..n]) && leftover == left
        invariant Conserved(defaultRoutes, was, tracked, left, impl.State(), outboundSubnets, leftover)
        invariant impl.failures >= old(impl.failures)
        invariant impl.failures == old(impl.failures) ==>
                    AllServed(impl.platform, defaultRoutes, subnets[..n])
      {
        ghost var before, some, over := impl.State(), outboundSubnets, leftover;
        OneMoreChecked(impl.platform, defaultRoutes, subnets, n);
        ServedInAll(impl.platform, defaultRoutes, subnets, n);
        OneMoreWithRoute(defaultRoutes, subnets, n);
        o := AddOutboundSubnet(subnets[n]);
        OnlySubnetsKeepPorts(was, before, impl.State(), subnets[n].v6);
        ConservedTwice(defaultRoutes, was, tracked, left, before, some, over, impl.State(), outboundSubnets, leftover);
        if o.Failed? {
          return;
        }
      }
      return Done;
    }

    /** From now on these subnets are asked for too. */
    ghost method AskFor(subnets: seq<Prefix>)
      requires Valid()
      modifies this`asked
      ensures Valid() && asked == old(asked) + EntriesOf(subnets)
    {
      ghost var before := Seen();
      hide Underway, WellFormed, FixedValid, CanRestore, PortPairs, TrackedValid;
      asked := asked + EntriesOf(subnets);
      if enabled {
        UnderwayAskedMore(before, Seen(), Base());
      }
    }

    /** What an enabled firewall does about a new list. */
    method ChangeOutboundSubnets(subnets: seq<Prefix>) returns (o: Outcome, clean: bool)
      requires Valid() && enabled && forall s :: s in subnets ==> s in asked
      modifies this`outboundSubnets, this`leftover, impl`v4, impl`v6, impl`failures
      ensures impl.failures >= old(impl.failures)
      ensures impl.failures == old(impl.failures) ==>
                EndsAsServed(impl.platform, defaultRoutes, old(outboundSubnets), subnets, o.Done?, clean)
      ensures Valid() && PortsKept(old(impl.State()), impl.State())
      ensures Requested(defaultRoutes, old(outboundSubnets), subnets, outboundSubnets, o.Done?)
      ensures Conserved(defaultRoutes, old(impl.State()), old(outboundSubnets), old(leftover),
                        impl.State(), outboundSubnets, leftover)
      ensures Grows(old(leftover), leftover)
      ensures var deletable := GoneDeletable(defaultRoutes, old(outboundSubnets), subnets);
              (o.Done? && clean && deletable ==> leftover == old(leftover)) && (!deletable ==> leftover != old(leftover))
    {
      hide *;
      GrowsByNothing(leftover);
      NoneToDelete(defaultRoutes);
      NoneToServe(impl.platform, defaultRoutes);
      ghost var was, tracked, left := impl.State(), outboundSubnets, leftover;
      var toAdd, toRemove := FindSubnetsToChange(outboundSubnets, subnets);
      ServedIs(impl.platform, defaultRoutes, tracked, subnets);
      AtFirst(defaultRoutes, was, tracked, left, toRemove);
      if toAdd == [] && toRemove == [] {
        NothingMissing(defaultRoutes, tracked, subnets);
        return Done, true;
      }
      MissingAreEntries(tracked, subnets);
      MissingAreNew(subnets, tracked);
      clean := RemoveOutboundSubnets(toRemove);
      ghost var middle, some, over := impl.State(), outboundSubnets, leftover;
      o := AddOutboundSubnets(toAdd);
      PortsKeptTwice(was, middle, impl.State());
      GrowsTwice(left, over, leftover);
      ConservedTwice(defaultRoutes, was, tracked, left, middle, some, over, impl.State(), outboundSubnets, leftover);
      ghost var n :| 0 <= n <= |toAdd| && (o.Done? ==> n == |toAdd|)
                     && outboundSubnets == some + WithRoute(defaultRoutes, toAdd[..n]);
      RequestedIs(defaultRoutes, tracked, subnets, some, outboundSubnets, n, o.Done?);
    }

    /**
      Entries that are no longer asked for go, new ones come, as far as they have a default
      route. The kernel changes by the rules of these entries, and by what is left over. An
      entry that goes leaves its rules over if it is not masked; if no failure is returned or
      logged, that is the only reason.
     */
    method SetOutboundSubnets(subnets: seq<Prefix>) returns (o: Outcome, clean: bool)
      requires Valid()
      modifies this`outboundSubnets, this`leftover, this`asked, impl`v4, impl`v6, impl`failures
      ensures impl.failures >= old(impl.failures)
      ensures impl.failures == old(impl.failures) ==>
                if enabled then EndsAsServed(impl.platform, defaultRoutes, old(outboundSubnets), subnets, o.Done?, clean)
                else o.Done? && clean
      ensures Valid() && PortsKept(old(impl.State()), impl.State())
      ensures asked == old(asked) + EntriesOf(subnets)
      ensures !enabled ==> o.Done? && clean && outboundSubnets == subnets
                           && impl.State() == old(impl.State()) && leftover == old(leftover)
      ensures enabled ==> Requested(defaultRoutes, old(outboundSubnets), subnets, outboundSubnets, o.Done?)
      ensures enabled ==> Conserved(defaultRoutes, old(impl.State()), old(outboundSubnets), old(leftover),
                                    impl.State(), outboundSubnets, leftover)
      ensures Grows(old(leftover), leftover)
      ensures enabled && o.Done? && clean ==>
                (leftover == old(leftover) <==> GoneDeletable(defaultRoutes, old(outboundSubnets), subnets))
      ensures enabled && leftover == old(leftover) ==>
                GoneDeletable(defaultRoutes, old(outboundSubnets), subnets)
    {
      hide *;
      GrowsByNothing(leftover);
      PortsKeptAtOnce(impl.State());
      AskFor(subnets);
      if enabled {
        o, clean := ChangeOutboundSubnets(subnets);
      } else {
        SetWhileDisabled(subnets);
        return Done, true;
      }
    }

    method SetWhileDisabled(subnets: seq<Prefix>)
      requires Valid() && !enabled
      modifies this`outboundSubnets
      ensures Valid() && outboundSubnets == subnets
    {
      outboundSubnets := subnets;
    }

    // ---------------------------------------------------------------- enabling

    ghost function At(pairs: set<PortPair>, redirections: seq<Redirection>, subnets: seq<Prefix>): View
      reads this, impl
    {
      View(impl.platform, defaultRoutes, impl.State(), Snapshot(), pairs, redirections, subnets, NO_LEFTOVER,
           asked)
    }

    /** Some of the base rules, and part of the tracked state, have their rules in the kernel already. */
    ghost predicate Building(base: seq<Instr>, subnets: seq<Prefix>, pairs: set<PortPair>,
                             redirections: seq<Redirection>)
      reads this, impl
    {
      && FixedValid(defaultRoutes, localNetworks, vpnServer)
      && TrackedValid(PortPairs(allowedInputPorts), portRedirections)
      && Underway(At(pairs, redirections, subnets), base)
    }

    // What enabling needs: ip6tables for what is of IPv6, and names of interfaces.

    ghost predicate VpnServed() {
      vpnServer.Some? && defaultRoutes != [] && vpnServer.value.ip.v6 ==> impl.platform.ip6Tables
    }

    ghost predicate NetworksServed(n: nat)
      requires n <= |localNetworks|
    {
      forall i :: 0 <= i < n ==> (localNetworks[i].ip.v6 || localNetworks[i].ipNet.v6 ==> impl.platform.ip6Tables)
    }

    ghost predicate PortsNamed(pairs: set<PortPair>) {
      forall x :: x in pairs ==> x.1 != ""
    }

    ghost predicate RedirectionsNamed(n: nat)
      requires n <= |portRedirections|
      reads this`portRedirections
    {
      forall i :: 0 <= i < n ==> portRedirections[i].interfaceName != ""
    }

    ghost predicate CanEnable()
      reads this`outboundSubnets, this`allowedInputPorts, this`portRedirections
    {
      && VpnServed() && NetworksServed(|localNetworks|) && AllServed(impl.platform, defaultRoutes, outboundSubnets)
      && PortsNamed(PortPairs(allowedInputPorts)) && RedirectionsNamed(|portRedirections|)
    }

    method SetPolicies() returns (o: Outcome)
      requires Valid() && saved4 == Saved(impl.v4) && (impl.platform.ip6Tables ==> saved6 == Saved(impl.v6))
      modifies impl`v4, impl`v6, impl`failures
      ensures impl.failures >= old(impl.failures)
      ensures impl.failures == old(impl.failures) ==> o.Done?
      ensures o.Done? ==> Building([], [], {}, [])
      ensures !impl.platform.ip6Tables ==> impl.v6 == old(impl.v6)
    {
      hide Underway, WellFormed, FixedValid, CanRestore, RunAll, OnlyV4, OnlyV6, AllPolicies, PortPairs, TrackedValid;
      ghost var k := impl.State();
      PoliciesAttempt(impl.platform, k, "DROP");
      o := impl.SetIPv4AllPolicies("DROP");
      if o.Failed? {
        return;
      }
      ghost var mid := impl.State();
      PoliciesAttempt(impl.platform, mid, "DROP");
      o := impl.SetIPv6AllPolicies("DROP");
      if o.Done? {
        PoliciesSet(impl.platform, defaultRoutes, k, mid, impl.State(), Snapshot(), asked);
      }
    }

    /** Instructions for both families, as one transaction. */
    method AppendBoth(list: seq<seq<Field>>, ghost base: seq<Instr>) returns (o: Outcome)
      requires Building(base, [], {}, []) && forall fields :: fields in list ==> AddsElsewhere(fields)
      requires forall fields, v6: bool :: fields in list ==> Accepted(impl.platform, Instr(v6, fields))
      modifies impl`v4, impl`v6, impl`failures
      ensures impl.failures >= old(impl.failures)
      ensures impl.failures == old(impl.failures) ==> o.Done?
      ensures o.Done? ==> Building(base + Both(list), [], {}, [])
      ensures !impl.platform.ip6Tables ==> impl.v6 == old(impl.v6)
    {
      hide FixedValid, RunAll, Both, PortPairs, TrackedValid, Underway, AddsElsewhere, Accepted;
      ghost var before := At({}, [], []);
      BothAccepted(impl.platform, impl.State(), list);
      o := impl.RunMixedIptablesInstructions(list);
      if o.Done? {
        BothElsewhere(list);
        UnderwayAfter(before, At({}, [], []), base, Both(list));
      }
    }

    /** One instruction for one family, which then has to be there. */
    method AppendOne(fields: seq<Field>, is6: bool, ghost base: seq<Instr>) returns (o: Outcome)
      requires Building(base, [], {}, []) && AddsElsewhere(fields) && Accepted(impl.platform, Instr(is6, fields))
      modifies impl`v4, impl`v6, impl`failures
      ensures impl.failures >= old(impl.failures)
      ensures impl.failures == old(impl.failures) ==> (o.Done? <==> (is6 ==> impl.platform.ip6Tables))
      ensures o.Done? ==> Building(base + [Instr(is6, fields)], [], {}, [])
      ensures !impl.platform.ip6Tables ==> impl.v6 == old(impl.v6)
    {
      hide FixedValid, RunAll, Run, PortPairs, TrackedValid, Underway, AddsElsewhere;
      ghost var before := At({}, [], []);
      o := impl.RunForFamily(fields, is6);
      if o.Done? {
        UnderwayAfter(before, At({}, [], []), base, [Instr(is6, fields)]);
      }
    }

    lemma LoopbackAccepted()
      ensures forall v6: bool :: Accepted(impl.platform, Instr(v6, InputThrough("lo")))
                                 && Accepted(impl.platform, Instr(v6, OutputThrough("lo")))
                                 && Accepted(impl.platform, Instr(v6, EstablishedRelated("INPUT")))
                                 && Accepted(impl.platform, Instr(v6, EstablishedRelated("OUTPUT")))
    {
      hide Accepted, InputThrough, OutputThrough, EstablishedRelated;
      forall v6: bool
        ensures Accepted(impl.platform, Instr(v6, InputThrough("lo")))
                && Accepted(impl.platform, Instr(v6, OutputThrough("lo")))
                && Accepted(impl.platform, Instr(v6, EstablishedRelated("INPUT")))
                && Accepted(impl.platform, Instr(v6, EstablishedRelated("OUTPUT")))
      {
        ThroughAccepted(impl.platform, "lo", v6);
        EstablishedAccepted(impl.platform, "INPUT", v6);
        EstablishedAccepted(impl.platform, "OUTPUT", v6);
      }
    }

    /** Loopback and established traffic. */
    method AllowBase() returns (o: Outcome)
      requires Building([], [], {}, [])
      modifies impl`v4, impl`v6, impl`failures
      ensures impl.failures >= old(impl.failures)
      ensures impl.failures == old(impl.failures) ==> o.Done?
      ensures o.Done? ==> Building(LoopbackInstrs(), [], {}, [])
      ensures !impl.platform.ip6Tables ==> impl.v6 == old(impl.v6)
    {
      hide Accepted, Building, AddsElsewhere, InputThrough, OutputThrough, EstablishedRelated, Both;
      ThroughAdds("lo");
      LoopbackAccepted();
      ghost var inputs := [] + Both([InputThrough("lo")]);
      assert inputs == Both([InputThrough("lo")]);
      o := AppendBoth([InputThrough("lo")], []);
      if o.Failed? {
        return;
      }
      o := AppendBoth([OutputThrough("lo")], inputs);
      if o.Failed? {
        return;
      }
      EstablishedAdds("OUTPUT");
      EstablishedAdds("INPUT");
      o := AppendBoth([EstablishedRelated("OUTPUT"), EstablishedRelated("INPUT")], inputs + Both([OutputThrough("lo")]));
    }

    /** The VPN server, through each interface that has a default route. */
    method AllowVpnIp(ghost base: seq<Instr>) returns (o: Outcome)
      requires Building(base, [], {}, [])
      modifies impl`v4, impl`v6, impl`failures
      ensures impl.failures >= old(impl.failures)
      ensures impl.failures == old(impl.failures) ==> (o.Done? <==> VpnServed())
      ensures o.Done? ==> Building(base + VpnInstrs(defaultRoutes, vpnServer), [], {}, [])
      ensures !impl.platform.ip6Tables ==> impl.v6 == old(impl.v6)
    {
      hide Accepted, AddsElsewhere, OutputToVpn, Underway, TrackedValid, NetworkValid, PortPairs, IsTcpOrUdp, InterfaceName,
           UsesInterface;
      if vpnServer.None? {
        assert base + VpnInstrs(defaultRoutes, vpnServer) == base;
        return Done;
      }
      hide VpnInstrs;
      var server := vpnServer.value;
      var interfacesSeen: set<string> := {};
      NoInterfaceYet(defaultRoutes, vpnServer, base);
      for i := 0 to |defaultRoutes|
        invariant Building(base + VpnInstrs(defaultRoutes[..i], vpnServer), [], {}, [])
        invariant forall intf :: intf in interfacesSeen <==> UsesInterface(defaultRoutes[..i], intf)
        invariant !impl.platform.ip6Tables ==> impl.v6 == old(impl.v6)
        invariant impl.failures >= old(impl.failures)
        invariant impl.failures == old(impl.failures) ==> (i > 0 ==> VpnServed())
      {
        var intf := defaultRoutes[i].netInterface;
        OneMoreInterface(defaultRoutes, i, vpnServer, base);
        if intf in interfacesSeen {
          assert base + VpnInstrs(defaultRoutes[..i + 1], vpnServer) == base + VpnInstrs(defaultRoutes[..i], vpnServer);
          continue;
        }
        interfacesSeen := interfacesSeen + {intf};
        VpnAdds(intf, server.ip, server.protocol, server.port);
        VpnAccepted(impl.platform, intf, server.ip, server.protocol, server.port);
        o := AppendOne(OutputToVpn(intf, server.ip, server.protocol, server.port), server.ip.v6,
                       base + VpnInstrs(defaultRoutes[..i], vpnServer));
        if o.Failed? {
          return;
        }
      }
      assert defaultRoutes[..|defaultRoutes|] == defaultRoutes;
      return Done;
    }

    lemma OneAccepted(fields: seq<Field>, k: Kernel)
      ensures Accepted(impl.platform, Instr(true, fields)) ==> AttemptAll(impl.platform, k, OnlyV6([fields])) == Done
    {
      hide Accepted, AttemptAll;
      if Accepted(impl.platform, Instr(true, fields)) {
        AllAccepted(impl.platform, k, OnlyV6([fields]));
      }
    }

    /** IPv6 neighbour discovery; there is nothing to do without ip6tables. */
    method AllowMulticast(intf: string, ghost base: seq<Instr>) returns (o: Outcome)
      requires Building(base, [], {}, []) && intf != "" && InterfaceName(intf)
      modifies impl`v4, impl`v6, impl`failures
      ensures impl.failures >= old(impl.failures)
      ensures impl.failures == old(impl.failures) ==> o.Done?
      ensures o.Done? ==> Building(base + OnlyV6([MulticastOutput(intf)]), [], {}, [])
      ensures !impl.platform.ip6Tables ==> impl.v6 == old(impl.v6)
    {
      hide Accepted, AttemptAll, FixedValid, RunAll, PortPairs, TrackedValid, Underway, AddsElsewhere, OnlyV6,
           MulticastOutput, InterfaceName;
      ghost var before := At({}, [], []);
      OneAccepted(MulticastOutput(intf), before.kernel);
      MulticastAccepted(impl.platform, intf);
      o := impl.RunIp6tablesInstructions([MulticastOutput(intf)]);
      if o.Done? {
        MulticastAdds(intf);
        BothElsewhere([MulticastOutput(intf)]);
        UnderwayAfter(before, At({}, [], []), base, OnlyV6([MulticastOutput(intf)]));
      }
    }

    method AllowToLocalNetwork(network: LocalNetwork, ghost base: seq<Instr>) returns (o: Outcome)
      requires Building(base, [], {}, []) && NetworkValid(network)
      modifies impl`v4, impl`v6, impl`failures
      ensures impl.failures >= old(impl.failures)
      ensures impl.failures == old(impl.failures) ==> (o.Done? <==> (network.ip.v6 ==> impl.platform.ip6Tables))
      ensures o.Done? ==>
                Building(base + [Instr(network.ip.v6 || network.ipNet.v6,
                                       OutputToSubnet(network.interfaceName, network.ip, network.ipNet, false))], [], {}, [])
      ensures !impl.platform.ip6Tables ==> impl.v6 == old(impl.v6)
    {
      hide FixedValid, RunAll, PortPairs, TrackedValid, Underway, AddsElsewhere, OutputToSubnet, InterfaceName, Run;
      ghost var before := At({}, [], []);
      SubnetAccepted(impl.platform, network.interfaceName, network.ip, network.ipNet, false);
      o := impl.AcceptOutputFromIPToSubnet(network.interfaceName, network.ip, network.ipNet, false);
      if o.Done? {
        OutputToSubnetAdds(network.interfaceName, network.ip, network.ipNet);
        ghost var x := Instr(network.ip.v6 || network.ipNet.v6,
                             OutputToSubnet(network.interfaceName, network.ip, network.ipNet, false));
        RunOne(impl.platform, before.kernel, impl.State(), x);
        UnderwayAfter(before, At({}, [], []), base, [x]);
      }
    }

    lemma NetworksServedStep(i: nat)
      requires i < |localNetworks| && (localNetworks[i].ip.v6 == localNetworks[i].ipNet.v6)
      ensures NetworksServed(i + 1) <==> NetworksServed(i) && (localNetworks[i].ipNet.v6 ==> impl.platform.ip6Tables)
      ensures NetworksServed(|localNetworks|) ==> NetworksServed(i + 1)
    {
    }

    lemma NetworkAt(i: nat)
      requires FixedValid(defaultRoutes, localNetworks, vpnServer) && i < |localNetworks|
      ensures NetworkValid(localNetworks[i]) && localNetworks[i].ip.v6 == localNetworks[i].ipNet.v6
    {
      assert NetworkValid(localNetworks[i]);
      hide NetworkValid, InterfaceName, IsAddress, IsTcpOrUdp;
    }

    lemma NoneServedYet()
      ensures NetworksServed(0)
    {
    }

    ghost function NextInstrs(n: LocalNetwork, seen: bool): seq<Instr> {
      [Instr(n.ip.v6 || n.ipNet.v6, OutputToSubnet(n.interfaceName, n.ip, n.ipNet, false))]
      + (if seen then [] else OnlyV6([MulticastOutput(n.interfaceName)]))
    }

    ghost function SoFar(base: seq<Instr>, n: nat): seq<Instr>
      requires n <= |localNetworks|
    {
      base + LocalInstrs(localNetworks[..n])
    }

    lemma SoFarAtEnds(base: seq<Instr>)
      ensures SoFar(base, 0) == base && SoFar(base, |localNetworks|) == base + LocalInstrs(localNetworks)
    {
      assert localNetworks[..0] == [] && localNetworks[..|localNetworks|] == localNetworks;
    }

    /** One turn of the loop below: neighbour discovery is allowed once for each interface. */
    method AllowToNextNetwork(network: LocalNetwork, seen: bool, ghost base: seq<Instr>) returns (o: Outcome)
      requires Building(base, [], {}, []) && NetworkValid(network)
      modifies impl`v4, impl`v6, impl`failures
      ensures impl.failures >= old(impl.failures)
      ensures impl.failures == old(impl.failures) ==> (o.Done? <==> (network.ip.v6 ==> impl.platform.ip6Tables))
      ensures o.Done? ==>
                Building(base + NextInstrs(network, seen), [], {}, [])
      ensures !impl.platform.ip6Tables ==> impl.v6 == old(impl.v6)
    {
      hide Building, InterfaceName, OutputToSubnet, MulticastOutput, OnlyV6, IsAddress;
      ghost var x := Instr(network.ip.v6 || network.ipNet.v6,
                           OutputToSubnet(network.interfaceName, network.ip, network.ipNet, false));
      o := AllowToLocalNetwork(network, base);
      if o.Done? && !seen {
        o := AllowMulticast(network.interfaceName, base + [x]);
      }
      assert base + NextInstrs(network, seen)
             == if seen then base + [x] else base + [x] + OnlyV6([MulticastOutput(network.interfaceName)]);
    }

    ghost predicate SeenSoFar(interfaces: set<string>, n: nat)
      requires n <= |localNetworks|
    {
      forall intf :: intf in interfaces <==> NamesInterface(localNetworks[..n], intf)
    }

    lemma NoneSeenYet()
      ensures SeenSoFar({}, 0)
    {
      assert localNetworks[..0] == [];
    }

    lemma NextNetwork(i: nat, base: seq<Instr>, seen: set<string>)
      requires FixedValid(defaultRoutes, localNetworks, vpnServer) && i < |localNetworks| && SeenSoFar(seen, i)
      ensures NetworkValid(localNetworks[i])
      ensures var n := localNetworks[i];
              && SoFar(base, i + 1) == SoFar(base, i) + NextInstrs(n, n.interfaceName in seen)
              && SeenSoFar(seen + {n.interfaceName}, i + 1)
              && (NetworksServed(i + 1) <==> NetworksServed(i) && (n.ip.v6 ==> impl.platform.ip6Tables))
              && (NetworksServed(|localNetworks|) ==> NetworksServed(i + 1))
    {
      hide *;
      NetworkAt(i);
      SeenNext(i, seen);
      SoFarNext(base, i);
      NetworksServedStep(i);
    }

    lemma SeenNext(i: nat, seen: set<string>)
      requires i < |localNetworks| && SeenSoFar(seen, i)
      ensures var intf := localNetworks[i].interfaceName;
              (intf in seen <==> NamesInterface(localNetworks[..i], intf)) && SeenSoFar(seen + {intf}, i + 1)
    {
      OneMoreNetwork(localNetworks, i, []);
      hide NamesInterface, OutputToSubnet, MulticastOutput, OnlyV6, LocalInstrs, InputInstrs;
    }

    lemma SoFarNext(base: seq<Instr>, i: nat)
      requires i < |localNetworks|
      ensures var n := localNetworks[i];
              SoFar(base, i + 1) == SoFar(base, i) + NextInstrs(n, NamesInterface(localNetworks[..i], n.interfaceName))
    {
      hide NamesInterface, OutputToSubnet, MulticastOutput, OnlyV6, LocalInstrs;
      OneMoreNetwork(localNetworks, i, base);
    }

    method AllowToLocalNetworks(ghost base: seq<Instr>) returns (o: Outcome)
      requires Building(base, [], {}, [])
      modifies impl`v4, impl`v6, impl`failures
      ensures impl.failures >= old(impl.failures)
      ensures impl.failures == old(impl.failures) ==> (o.Done? <==> NetworksServed(|localNetworks|))
      ensures o.Done? ==> Building(base + LocalInstrs(localNetworks), [], {}, [])
      ensures !impl.platform.ip6Tables ==> impl.v6 == old(impl.v6)
    {
      assert FixedValid(defaultRoutes, localNetworks, vpnServer);
      hide *;
      var localInterfaces: set<string> := {};
      SoFarAtEnds(base);
      NoneServedYet();
      NoneSeenYet();
      for i := 0 to |localNetworks|
        invariant Building(SoFar(base, i), [], {}, [])
        invariant SeenSoFar(localInterfaces, i)
        invariant !impl.platform.ip6Tables ==> impl.v6 == old(impl.v6)
        invariant impl.failures >= old(impl.failures)
        invariant impl.failures == old(impl.failures) ==> NetworksServed(i)
      {
        var network := localNetworks[i];
        NextNetwork(i, base, localInterfaces);
        var seen := network.interfaceName in localInterfaces;
        o := AllowToNextNetwork(network, seen, SoFar(base, i));
        if o.Failed? {
          return;
        }
        localInterfaces := localInterfaces + {network.interfaceName};
      }
      return Done;
    }

    method AllowOutboundSubnets(ghost base: seq<Instr>) returns (o: Outcome)
      requires Building(base, [], {}, [])
      modifies impl`v4, impl`v6, impl`failures
      ensures impl.failures >= old(impl.failures)
      ensures impl.failures == old(impl.failures) ==> (o.Done? <==> AllServed(impl.platform, defaultRoutes, outboundSubnets))
      ensures o.Done? ==> Building(base, outboundSubnets, {}, [])
      ensures !impl.platform.ip6Tables ==> impl.v6 == old(impl.v6)
    {
      hide Served, FixedValid, PortPairs, TrackedValid, Underway, AddedFor, WellFormed;
      for i := 0 to |outboundSubnets|
        invariant Building(base, outboundSubnets[..i], {}, [])
        invariant !impl.platform.ip6Tables ==> impl.v6 == old(impl.v6)
        invariant impl.failures >= old(impl.failures)
        invariant impl.failures == old(impl.failures) ==>
                    forall j :: 0 <= j < i ==> Served(impl.platform, defaultRoutes, outboundSubnets[j])
      {
        ghost var before := At({}, [], outboundSubnets[..i]);
        UnderwayIsWellFormed(before, base);
        var updated;
        o, updated := AddSubnetRules(outboundSubnets[i]);
        if o.Failed? {
          return;
        }
        assert outboundSubnets[..i + 1] == outboundSubnets[..i] + [outboundSubnets[i]];
        UnderwayWithSubnet(before, At({}, [], outboundSubnets[..i + 1]), base, outboundSubnets[i]);
      }
      assert outboundSubnets[..|outboundSubnets|] == outboundSubnets;
      return Done;
    }

    method AllowFromLocalNetwork(network: LocalNetwork, ghost base: seq<Instr>) returns (o: Outcome)
      requires Building(base, outboundSubnets, {}, []) && NetworkValid(network)
      modifies impl`v4, impl`v6, impl`failures
      ensures impl.failures >= old(impl.failures)
      ensures impl.failures == old(impl.failures) ==> o.Done?
      ensures o.Done? ==>
                Building(base + [Instr(network.ipNet.v6, InputToSubnet(network.interfaceName, network.ipNet))],
                         outboundSubnets, {}, [])
      ensures !impl.platform.ip6Tables ==> impl.v6 == old(impl.v6)
    {
      hide FixedValid, RunAll, PortPairs, TrackedValid, Underway, AddsElsewhere, InputToSubnet, InterfaceName, Run;
      ghost var before := At({}, [], outboundSubnets);
      InputToSubnetAdds(network.interfaceName, network.ipNet);
      InputToSubnetAccepted(impl.platform, network.interfaceName, network.ipNet);
      o := impl.AcceptInputToSubnet(network.interfaceName, network.ipNet);
      if o.Done? {
        UnderwayAfter(before, At({}, [], outboundSubnets), base,
                      [Instr(network.ipNet.v6, InputToSubnet(network.interfaceName, network.ipNet))]);
      }
    }

    method AllowFromLocalNetworks(ghost base: seq<Instr>) returns (o: Outcome)
      requires Building(base, outboundSubnets, {}, [])
      modifies impl`v4, impl`v6, impl`failures
      ensures impl.failures >= old(impl.failures)
      ensures impl.failures == old(impl.failures) ==> o.Done?
      ensures o.Done? ==> Building(base + InputInstrs(localNetworks), outboundSubnets, {}, [])
      ensures !impl.platform.ip6Tables ==> impl.v6 == old(impl.v6)
    {
      hide FixedValid, Underway, TrackedValid, PortPairs, IsTcpOrUdp, InterfaceName, InputToSubnet, InputInstrs, NetworkValid;
      NoNetworkYet(localNetworks, base);
      for i := 0 to |localNetworks|
        invariant Building(base + InputInstrs(localNetworks[..i]), outboundSubnets, {}, [])
        invariant !impl.platform.ip6Tables ==> impl.v6 == old(impl.v6)
        invariant impl.failures >= old(impl.failures)
      {
        OneMoreNetwork(localNetworks, i, base);
        NetworkAt(i);
        o := AllowFromLocalNetwork(localNetworks[i], base + InputInstrs(localNetworks[..i]));
        if o.Failed? {
          return;
        }
      }
      assert localNetworks[..|localNetworks|] == localNetworks;
      return Done;
    }

    /** One tracked port on one interface. */
    method AllowInputPort(port: nat, intf: string, ghost base: seq<Instr>,
                          ghost done: set<PortPair>) returns (o: Outcome)
      requires Building(base, outboundSubnets, done, [])
      requires (port, intf) in PortPairs(allowedInputPorts) && (port, intf) !in done
      modifies impl`v4, impl`v6, impl`failures
      ensures impl.failures >= old(impl.failures)
      ensures impl.failures == old(impl.failures) ==> (o.Done? <==> intf != "")
      ensures o.Done? ==> Building(base, outboundSubnets, done + {(port, intf)}, [])
      ensures !impl.platform.ip6Tables ==> impl.v6 == old(impl.v6)
    {
      hide FixedValid, RunAll, PortPairs, Underway, Unique, InterfaceName, OnlyPorts;
      ghost var before := At(done, [], outboundSubnets);
      AcceptPortAttempt(impl.platform, impl.State(), intf, port, false);
      o := impl.AcceptInputToPort(intf, port, false);
      if o.Done? {
        UnderwayWithPort(before, At(done + {(port, intf)}, [], outboundSubnets), base, port, intf);
      }
    }

    /** All tracked ports on all their interfaces, in whatever order the maps are walked. */
    method AllowInputPorts(ghost base: seq<Instr>) returns (o: Outcome)
      requires Building(base, outboundSubnets, {}, [])
      modifies impl`v4, impl`v6, impl`failures
      ensures impl.failures >= old(impl.failures)
      ensures impl.failures == old(impl.failures) ==> (o.Done? <==> PortsNamed(PortPairs(allowedInputPorts)))
      ensures o.Done? ==> Building(base, outboundSubnets, PortPairs(allowedInputPorts), [])
      ensures !impl.platform.ip6Tables ==> impl.v6 == old(impl.v6)
    {
      hide Building;
      var ports := allowedInputPorts.Keys;
      ghost var done: set<PortPair> := {};
      while ports != {}
        invariant ports <= allowedInputPorts.Keys && Building(base, outboundSubnets, done, [])
        invariant done == set x | x in PortPairs(allowedInputPorts) && x.0 !in ports
        invariant !impl.platform.ip6Tables ==> impl.v6 == old(impl.v6)
        invariant impl.failures >= old(impl.failures)
        invariant impl.failures == old(impl.failures) ==> PortsNamed(done)
      {
        var port :| port in ports;
        var interfaces := allowedInputPorts[port];
        while interfaces != {}
          invariant interfaces <= allowedInputPorts[port] && Building(base, outboundSubnets, done, [])
          invariant done == set x | x in PortPairs(allowedInputPorts)
                                    && (x.0 !in ports || (x.0 == port && x.1 !in interfaces))
          invariant !impl.platform.ip6Tables ==> impl.v6 == old(impl.v6)
          invariant impl.failures >= old(impl.failures)
          invariant impl.failures == old(impl.failures) ==> PortsNamed(done)
        {
          var intf :| intf in interfaces;
          o := AllowInputPort(port, intf, base, done);
          if o.Failed? {
            return;
          }
          done := done + {(port, intf)};
          interfaces := interfaces - {intf};
        }
        ports := ports - {port};
      }
      assert done == PortPairs(allowedInputPorts);
      return Done;
    }

    lemma RedirectionsAreValid(r: Redirection)
      requires TrackedValid(PortPairs(allowedInputPorts), portRedirections) && r in portRedirections
      ensures InterfaceName(r.interfaceName) && r.sourcePort < 0x1_0000 && r.destinationPort < 0x1_0000
    {
      hide InterfaceName, Unique, PortPairs;
    }

    /** The next tracked redirection. */
    method RedirectNext(i: nat, ghost base: seq<Instr>) returns (o: Outcome)
      requires i < |portRedirections|
      requires Building(base, outboundSubnets, PortPairs(allowedInputPorts), portRedirections[..i])
      modifies impl`v4, impl`v6, impl`failures
      ensures impl.failures >= old(impl.failures)
      ensures impl.failures == old(impl.failures) ==> (o.Done? <==> portRedirections[i].interfaceName != "")
      ensures o.Done? ==> Building(base, outboundSubnets, PortPairs(allowedInputPorts), portRedirections[..i + 1])
      ensures !impl.platform.ip6Tables ==> impl.v6 == old(impl.v6)
    {
      hide FixedValid, PortPairs, Underway, Unique, Redirects, RedirectionValid, TrackedValid, OnlyPorts, AttemptRedirect;
      var r := portRedirections[i];
      ghost var before := At(PortPairs(allowedInputPorts), portRedirections[..i], outboundSubnets);
      UniquePrefix(PortPairs(allowedInputPorts), portRedirections, i);
      RedirectionsAreValid(r);
      RedirectAttempt(impl.platform, impl.State(), r.interfaceName, r.sourcePort, r.destinationPort, false);
      o := impl.RedirectPort(r.interfaceName, r.sourcePort, r.destinationPort, false);
      if o.Done? {
        UnderwayWithRedirection(before, At(PortPairs(allowedInputPorts), portRedirections[..i + 1], outboundSubnets),
                                base, r);
      }
    }

    lemma RedirectionsNamedStep(i: nat)
      requires i < |portRedirections|
      ensures RedirectionsNamed(i + 1) <==> RedirectionsNamed(i) && portRedirections[i].interfaceName != ""
      ensures RedirectionsNamed(|portRedirections|) ==> RedirectionsNamed(i + 1)
    {
    }

    lemma RedirectionsAtEnds()
      ensures RedirectionsNamed(0) && portRedirections[..0] == [] && portRedirections[..|portRedirections|] == portRedirections
    {
    }

    method RedirectPorts(ghost base: seq<Instr>) returns (o: Outcome)
      requires Building(base, outboundSubnets, PortPairs(allowedInputPorts), [])
      modifies impl`v4, impl`v6, impl`failures
      ensures impl.failures >= old(impl.failures)
      ensures impl.failures == old(impl.failures) ==> (o.Done? <==> RedirectionsNamed(|portRedirections|))
      ensures o.Done? ==> Building(base, outboundSubnets, PortPairs(allowedInputPorts), portRedirections)
      ensures !impl.platform.ip6Tables ==> impl.v6 == old(impl.v6)
    {
      hide *;
      RedirectionsAtEnds();
      for i := 0 to |portRedirections|
        invariant Building(base, outboundSubnets, PortPairs(allowedInputPorts), portRedirections[..i])
        invariant !impl.platform.ip6Tables ==> impl.v6 == old(impl.v6)
        invariant impl.failures >= old(impl.failures)
        invariant impl.failures == old(impl.failures) ==> RedirectionsNamed(i)
      {
        RedirectionsNamedStep(i);
        o := RedirectNext(i, base);
        if o.Failed? {
          return;
        }
      }
      return Done;
    }

    /** All the rules of an enabled firewall, once the snapshot was taken. */
    method AddAllRules() returns (o: Outcome)
      requires Valid() && saved4 == Saved(impl.v4) && (impl.platform.ip6Tables ==> saved6 == Saved(impl.v6))
      modifies impl`v4, impl`v6, impl`failures
      ensures impl.failures >= old(impl.failures)
      ensures impl.failures == old(impl.failures) ==> (o.Done? <==> CanEnable())
      ensures o.Done? ==> Building(Base(), outboundSubnets, PortPairs(allowedInputPorts), portRedirections)
      ensures !impl.platform.ip6Tables ==> impl.v6 == old(impl.v6)
    {
      hide VpnServed, NetworksServed, AllServed, PortsNamed, RedirectionsNamed, Building, Valid, LoopbackInstrs,
           VpnInstrs, LocalInstrs, InputInstrs;
      o := SetPolicies();
      if o.Failed? {
        return;
      }
      o := AllowBase();
      if o.Failed? {
        return;
      }
      ghost var base := LoopbackInstrs();
      o := AllowVpnIp(base);
      if o.Failed? {
        return;
      }
      base := base + VpnInstrs(defaultRoutes, vpnServer);
      o := AllowToLocalNetworks(base);
      if o.Failed? {
        return;
      }
      base := base + LocalInstrs(localNetworks);
      o := AllowOutboundSubnets(base);
      if o.Failed? {
        return;
      }
      o := AllowFromLocalNetworks(base);
      if o.Failed? {
        return;
      }
      o := AllowInputPorts(Base());
      if o.Failed? {
        return;
      }
      o := RedirectPorts(Base());
    }

    /** Takes the snapshot, and goes back to it when any later step fails. */
    method Enable() returns (o: Outcome)
      requires Valid() && !enabled
      modifies this`saved4, this`saved6, impl`v4, impl`v6, impl`failures
      ensures impl.failures >= old(impl.failures)
      ensures impl.failures == old(impl.failures) ==> (o.Done? <==> CanEnable())
      ensures Valid()
      ensures o.Failed? ==> impl.State() == old(impl.State())
      ensures o.Done? ==> saved4 == Saved(old(impl.v4)) && (impl.platform.ip6Tables ==> saved6 == Saved(old(impl.v6)))
      ensures o.Done? ==> CanRestore(impl.platform, saved4, saved6)
      ensures o.Done? ==> Building(Base(), outboundSubnets, PortPairs(allowedInputPorts), portRedirections)
      ensures !impl.platform.ip6Tables ==> impl.v6 == old(impl.v6)
    {
      hide CanEnable, FixedValid, PortPairs, TrackedValid, Underway, Listed;
      saved4 := impl.SaveIPv4();
      if saved4.SaveFailed? {
        return Failed(CommandFailed);
      }
      saved6 := impl.SaveIPv6();
      if saved6.SaveFailed? {
        return Failed(CommandFailed);
      }
      o := AddAllRules();
      if o.Failed? {
        impl.Restore(saved4, saved6);
      } else {
        UnderwayIsWellFormed(At(PortPairs(allowedInputPorts), portRedirections, outboundSubnets), Base());
      }
    }

    /**
      A failing enable leaves the kernel as it was, and disabling brings back the
      kernel of the last enabling: IPv6 rules only where there is an ip6tables.
     */
    method SetEnabled(target: bool) returns (o: Outcome)
      requires Valid()
      modifies this`enabled, this`saved4, this`saved6, this`leftover, this`asked, impl`v4, impl`v6, impl`failures
      ensures impl.failures >= old(impl.failures)
      ensures impl.failures == old(impl.failures) ==> (o.Failed? <==> target && !old(enabled) && !old(CanEnable()))
      ensures Valid()
      ensures enabled == if o.Done? then target else old(enabled)
      ensures target == old(enabled) ==> o.Done? && impl.State() == old(impl.State()) && leftover == old(leftover)
      ensures old(enabled) ==> o.Done? && saved4 == old(saved4) && saved6 == old(saved6)
      ensures old(enabled) && !target ==> impl.v4 == saved4.rules && (impl.platform.ip6Tables ==> impl.v6 == saved6.rules)
      ensures o.Failed? ==> impl.State() == old(impl.State())
      ensures !old(enabled) && enabled ==>
                leftover == NO_LEFTOVER && asked == EntriesOf(outboundSubnets) && saved4 == Saved(old(impl.v4))
                && (impl.platform.ip6Tables ==> saved6 == Saved(old(impl.v6)))
      ensures !impl.platform.ip6Tables ==> impl.v6 == old(impl.v6)
    {
      hide CanEnable, FixedValid, PortPairs, TrackedValid, Underway, Listed;
      if target == enabled {
        return Done;
      }
      if !target {
        impl.Restore(saved4, saved6);
        enabled := false;
        return Done;
      }
      asked := EntriesOf(outboundSubnets);
      o := Enable();
      if o.Done? {
        enabled, leftover := true, NO_LEFTOVER;
      }
    }
  }
}
