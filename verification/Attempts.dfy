/** Which of the firewall's calls succeed when no command fails. */
module Attempts {
  import opened Wrappers
  import opened IptablesRules
  import opened IptablesKernel
  import opened Iptables
  import opened PortRules
  import opened BaseRules
  import opened Enabling
  import opened BaseMeaning

  // ---------------------------------------------------- accepted instructions

  /** The instruction is never refused. */
  ghost predicate Accepted(p: Platform, x: Instr) {
    forall k :: Run(p, k, x).Some?
  }

  lemma {:induction false} AllAccepted(p: Platform, k: Kernel, xs: seq<Instr>)
    requires forall x :: x in xs ==> Accepted(p, x)
    ensures AttemptAll(p, k, xs) == Done
    decreases |xs|
  {
    hide Run;
    if xs != [] {
      assert xs[0] in xs && forall x :: x in xs[1..] ==> x in xs;
      AllAccepted(p, Run(p, k, xs[0]).value, xs[1..]);
    }
  }

  lemma ReadAsRuns(p: Platform, k: Kernel, x: Instr, i: Instruction)
    requires ReadAs(x.fields, i) && OfFamily(i, x.v6)
    ensures if x.v6 && p.ip6Tables && !p.ip6Nat && i.table == "nat" then Attempt(p, k, x) == Failed(NatMissing)
            else Run(p, k, x).Some?
  {
    hide Parse, IsDeleteMatch, OfFamily;
  }

  lemma ReadAsAccepted(p: Platform, x: Instr, i: Instruction)
    requires ReadAs(x.fields, i) && OfFamily(i, x.v6) && (x.v6 && p.ip6Tables && !p.ip6Nat ==> i.table != "nat")
    ensures Accepted(p, x)
  {
    hide ReadAs, Run, OfFamily;
    forall k ensures Run(p, k, x).Some? {
      ReadAsRuns(p, k, x, i);
    }
  }

  // ------------------------------------------------------------------- ports

  lemma AcceptAccepted(p: Platform, v6: bool, intf: string, protocol: string, port: nat, remove: bool)
    requires intf != "" && InterfaceName(intf) && IsTcpOrUdp(protocol) && port < 0x1_0000
    ensures Accepted(p, Instr(v6, AcceptPort(intf, protocol, port, remove)))
  {
    var i := AcceptPortReadAs(intf, protocol, port, remove);
    assert RuleOf(i, v6).table == "filter";
    hide ReadAs, AcceptPort, Accepted, AcceptRule;
    ReadAsAccepted(p, Instr(v6, AcceptPort(intf, protocol, port, remove)), i);
  }

  /** Without a failing command, a port is accepted exactly on a named interface. */
  lemma AcceptPortAttempt(p: Platform, k: Kernel, intf: string, port: nat, remove: bool)
    requires InterfaceName(intf) && port < 0x1_0000
    ensures AttemptAll(p, k, AcceptInstrs(intf, port, remove)).Done? <==> intf != ""
  {
    if intf == "" {
      hide AcceptInstrs, RunAll;
      AcceptNeedsInterface(p, k, port, remove);
    } else {
      AcceptAccepted(p, false, intf, "tcp", port, remove);
      AcceptAccepted(p, true, intf, "tcp", port, remove);
      AcceptAccepted(p, false, intf, "udp", port, remove);
      AcceptAccepted(p, true, intf, "udp", port, remove);
      AcceptInstrsAre(intf, port, remove);
      hide Accepted, AcceptPort, AcceptInstrs, AttemptAll;
      AllAccepted(p, k, AcceptInstrs(intf, port, remove));
    }
  }

  // ------------------------------------------------------------ redirections

  lemma RedirectRuns(p: Platform, k: Kernel, v6: bool, intf: string, protocol: string, port: nat, to: nat, remove: bool)
    requires intf != "" && InterfaceName(intf) && IsTcpOrUdp(protocol) && port < 0x1_0000 && to < 0x1_0000
    ensures var x := Instr(v6, Redirect(intf, protocol, port, to, remove));
            if v6 && p.ip6Tables && !p.ip6Nat then Attempt(p, k, x) == Failed(NatMissing) else Run(p, k, x).Some?
  {
    var i := RedirectReadAs(intf, protocol, port, to, remove);
    assert RuleOf(i, v6).table == "nat";
    hide ReadAs, Redirect, Attempt, Run, RedirectRule;
    ReadAsRuns(p, k, Instr(v6, Redirect(intf, protocol, port, to, remove)), i);
  }

  lemma RedirectAccepted(p: Platform, v6: bool, intf: string, protocol: string, port: nat, to: nat, remove: bool)
    requires intf != "" && InterfaceName(intf) && IsTcpOrUdp(protocol) && port < 0x1_0000 && to < 0x1_0000
    requires v6 && p.ip6Tables ==> p.ip6Nat
    ensures Accepted(p, Instr(v6, Redirect(intf, protocol, port, to, remove)))
  {
    hide Redirect, Attempt, Run;
    forall k ensures Run(p, k, Instr(v6, Redirect(intf, protocol, port, to, remove))).Some? {
      RedirectRuns(p, k, v6, intf, protocol, port, to, remove);
    }
  }

  lemma AllRedirectsAccepted(p: Platform, v6: bool, intf: string, port: nat, to: nat, remove: bool)
    requires intf != "" && InterfaceName(intf) && port < 0x1_0000 && to < 0x1_0000
    requires v6 && p.ip6Tables ==> p.ip6Nat
    ensures forall fields :: fields in RedirectAndAccept(intf, port, to, remove) ==> Accepted(p, Instr(v6, fields))
  {
    RedirectAccepted(p, v6, intf, "tcp", port, to, remove);
    RedirectAccepted(p, v6, intf, "udp", port, to, remove);
    AcceptAccepted(p, v6, intf, "tcp", to, remove);
    AcceptAccepted(p, v6, intf, "udp", to, remove);
    hide Accepted, Redirect, AcceptPort;
  }

  /**
    Without a failing command, a redirection succeeds exactly on a named interface: once its IPv4
    part is accepted, missing IPv6 NAT is no failure.
   */
  lemma RedirectAttempt(p: Platform, k: Kernel, intf: string, port: nat, to: nat, remove: bool)
    requires InterfaceName(intf) && port < 0x1_0000 && to < 0x1_0000
    ensures AttemptRedirect(p, k, intf, port, to, remove).Done? <==> intf != ""
  {
    var list := RedirectAndAccept(intf, port, to, remove);
    if intf == "" {
      RedirectNeedsInterface("tcp", port, to, remove, k.v4, false, true);
      hide Exec, Redirect, AcceptPort;
      assert OnlyV4(list)[0] == Instr(false, Redirect("", "tcp", port, to, remove));
    } else {
      AllRedirectsAccepted(p, false, intf, port, to, remove);
      hide Accepted, Redirect, AcceptPort, Run;
      assert forall x :: x in OnlyV4(list) ==> x.fields in list && !x.v6 && x == Instr(false, x.fields);
      AllAccepted(p, k, OnlyV4(list));
      var mid := RunAll(p, k, OnlyV4(list)).value;
      assert OnlyV6(list)[0] == Instr(true, Redirect(intf, "tcp", port, to, remove));
      if p.ip6Tables && !p.ip6Nat {
        RedirectRuns(p, mid, true, intf, "tcp", port, to, remove);
      } else {
        AllRedirectsAccepted(p, true, intf, port, to, remove);
        assert forall x :: x in OnlyV6(list) ==> x.fields in list && x.v6 && x == Instr(true, x.fields);
        AllAccepted(p, mid, OnlyV6(list));
      }
    }
  }

  // ------------------------------------------------------ subnets and the base

  lemma SubnetAccepted(p: Platform, intf: string, source: Prefix, destination: Prefix, remove: bool)
    requires intf != "" && InterfaceName(intf) && source.v6 == destination.v6
    ensures Accepted(p, Instr(source.v6, OutputToSubnet(intf, source, destination, remove)))
  {
    var i := OutputToSubnetReadAs(intf, source, destination, remove);
    assert RuleOf(i, source.v6).table == "filter";
    hide ReadAs, OutputToSubnet, Accepted, SubnetRule;
    ReadAsAccepted(p, Instr(source.v6, OutputToSubnet(intf, source, destination, remove)), i);
  }

  /** The rule that it adds is of this family. */
  ghost predicate AddsTo(fields: seq<Field>, v6: bool) {
    AddedRule(fields, v6).rule.source.v6 == AddedRule(fields, v6).rule.destination.v6 == v6
  }

  lemma BaseAccepted(p: Platform, fields: seq<Field>, v6: bool)
    requires AddsElsewhere(fields) && AddsTo(fields, v6)
    ensures Accepted(p, Instr(v6, fields))
  {
    hide Parse, IsDeleteMatch, Cleared;
    var i := Parse(fields, true).value;
    assert RuleOf(i, v6) == AddedRule(fields, v6);
    assert OfFamily(i, v6);
    forall k ensures Run(p, k, Instr(v6, fields)).Some? {
    }
  }

  lemma ThroughAccepted(p: Platform, intf: string, v6: bool)
    requires intf != "" && InterfaceName(intf)
    ensures Accepted(p, Instr(v6, InputThrough(intf))) && Accepted(p, Instr(v6, OutputThrough(intf)))
  {
    ThroughMeans(intf, v6);
    ThroughAdds(intf);
    hide AddsElsewhere, AddedRule, InputThrough, OutputThrough, Accepted;
    BaseAccepted(p, InputThrough(intf), v6);
    BaseAccepted(p, OutputThrough(intf), v6);
  }

  lemma EstablishedAccepted(p: Platform, chain: string, v6: bool)
    requires chain == "INPUT" || chain == "OUTPUT"
    ensures Accepted(p, Instr(v6, EstablishedRelated(chain)))
  {
    EstablishedMeans(chain, v6);
    EstablishedAdds(chain);
    hide AddsElsewhere, AddedRule, EstablishedRelated, Accepted;
    BaseAccepted(p, EstablishedRelated(chain), v6);
  }

  lemma VpnAccepted(p: Platform, intf: string, server: Prefix, protocol: string, port: nat)
    requires intf != "" && InterfaceName(intf) && IsTcpOrUdp(protocol) && port < 0x1_0000 && IsAddress(server)
    ensures Accepted(p, Instr(server.v6, OutputToVpn(intf, server, protocol, port)))
  {
    VpnMeans(intf, server, protocol, port);
    VpnAdds(intf, server, protocol, port);
    hide AddsElsewhere, AddedRule, OutputToVpn, Accepted, IsAddress;
    BaseAccepted(p, OutputToVpn(intf, server, protocol, port), server.v6);
  }

  lemma MulticastAccepted(p: Platform, intf: string)
    requires intf != "" && InterfaceName(intf)
    ensures Accepted(p, Instr(true, MulticastOutput(intf)))
  {
    MulticastMeans(intf);
    MulticastAdds(intf);
    hide AddsElsewhere, AddedRule, MulticastOutput, Accepted;
    BaseAccepted(p, MulticastOutput(intf), true);
  }

  lemma InputToSubnetAccepted(p: Platform, intf: string, destination: Prefix)
    requires intf != "" && InterfaceName(intf)
    ensures Accepted(p, Instr(destination.v6, InputToSubnet(intf, destination)))
  {
    InputToSubnetMeans(intf, destination);
    InputToSubnetAdds(intf, destination);
    hide AddsElsewhere, AddedRule, InputToSubnet, Accepted, Cleared;
    BaseAccepted(p, InputToSubnet(intf, destination), destination.v6);
  }

  /** One transaction of accepted instructions, for both families or for one. */
  lemma BothAccepted(p: Platform, k: Kernel, list: seq<seq<Field>>)
    requires forall fields, v6: bool :: fields in list ==> Accepted(p, Instr(v6, fields))
    ensures AttemptAll(p, k, Both(list)) == Done
  {
    hide Accepted;
    BothAre(list);
    AllAccepted(p, k, Both(list));
  }

  lemma {:induction false} BothAre(list: seq<seq<Field>>)
    ensures forall x :: x in Both(list) ==> x.fields in list && x == Instr(x.v6, x.fields)
  {
    if list != [] {
      BothAre(list[1..]);
    }
  }

  lemma PoliciesAttempt(p: Platform, k: Kernel, policy: string)
    requires policy == "ACCEPT" || policy == "DROP"
    ensures AttemptAll(p, k, OnlyV4(AllPolicies(policy))) == AttemptAll(p, k, OnlyV6(AllPolicies(policy))) == Done
  {
    hide AttemptAll, AllPolicies, OnlyV4, OnlyV6;
    RunsPolicies(p, k, policy, false);
    RunsPolicies(p, k, policy, true);
  }
}
