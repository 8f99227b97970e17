/** Which rules the base instructions of an enabled firewall add. */
module BaseMeaning {
  import opened Wrappers
  import opened IptablesRules
  import opened IptablesKernel
  import opened Iptables
  import opened PortRules
  import opened BaseRules
  import opened FirewallSync
  import opened Enabling

  lemma AddedRuleIs(fields: seq<Field>, chain: string, after: seq<Clause>, v6: bool)
    requires fields == Print(Append(chain)) + PrintAll(after) && AllWritable(after)
    ensures AddedRule(fields, v6) == RuleOf(Meaning([], false, chain, after), v6)
  {
    hide ParseFrom, Parse, Meaning;
    ParseWithVerb([], false, chain, after, true);
    assert Fields([], false, chain, after) == fields;
  }

  lemma TwoEffects(a: Clause, b: Clause, i: Instruction)
    ensures Effects([a, b], i) == Effect(b, Effect(a, i)) && PrintAll([a, b]) == Print(a) + Print(b)
  {
    hide Effect, Print;
    assert [a, b][1..] == [b];
    OneClause(b, Effect(a, i));
  }

  /** Loopback traffic is accepted both ways. */
  lemma ThroughMeans(intf: string, v6: bool)
    requires intf != ""
    ensures AddedRule(InputThrough(intf), v6) == Located("filter", "INPUT", AnyRule(v6).(inInterface := intf))
    ensures AddedRule(OutputThrough(intf), v6) == Located("filter", "OUTPUT", AnyRule(v6).(outInterface := intf))
  {
    ThreeClauses(Append("INPUT"), In(intf), Jump("ACCEPT"), EMPTY);
    ThreeClauses(Append("OUTPUT"), Out(intf), Jump("ACCEPT"), EMPTY);
    TwoEffects(In(intf), Jump("ACCEPT"), EMPTY.(append := true, chain := "INPUT"));
    TwoEffects(Out(intf), Jump("ACCEPT"), EMPTY.(append := true, chain := "OUTPUT"));
    ThroughAsPrinted(intf);
    hide PrintAll, Effects, AddedRule;
    AddedRuleIs(InputThrough(intf), "INPUT", [In(intf), Jump("ACCEPT")], v6);
    AddedRuleIs(OutputThrough(intf), "OUTPUT", [Out(intf), Jump("ACCEPT")], v6);
    NothingBefore();
  }

  lemma ThroughAsPrinted(intf: string)
    ensures InputThrough(intf) == Print(Append("INPUT")) + PrintAll([In(intf), Jump("ACCEPT")])
    ensures OutputThrough(intf) == Print(Append("OUTPUT")) + PrintAll([Out(intf), Jump("ACCEPT")])
  {
    PrintAllConcat([Append("INPUT")], [In(intf), Jump("ACCEPT")]);
    PrintAllConcat([Append("OUTPUT")], [Out(intf), Jump("ACCEPT")]);
    OneClause(Append("INPUT"), EMPTY);
    OneClause(Append("OUTPUT"), EMPTY);
    hide PrintAll, Print;
    assert [Append("INPUT")] + [In(intf), Jump("ACCEPT")] == [Append("INPUT"), In(intf), Jump("ACCEPT")];
    assert [Append("OUTPUT")] + [Out(intf), Jump("ACCEPT")] == [Append("OUTPUT"), Out(intf), Jump("ACCEPT")];
  }

  lemma NothingBefore()
    ensures Effects([], EMPTY) == EMPTY
  {
  }

  /** Packets of established connections are accepted. */
  lemma EstablishedMeans(chain: string, v6: bool)
    ensures AddedRule(EstablishedRelated(chain), v6)
            == Located("filter", chain, AnyRule(v6).(states := ["ESTABLISHED", "RELATED"]))
  {
    EstablishedParsed(chain);
    hide Parse, EstablishedRelated;
  }

  /** Packets to the VPN server, its port and protocol are accepted, out of one interface. */
  lemma VpnMeans(intf: string, server: Prefix, protocol: string, port: nat)
    requires intf != "" && IsTcpOrUdp(protocol) && port < 0x1_0000 && IsAddress(server)
    ensures AddedRule(OutputToVpn(intf, server, protocol, port), server.v6)
            == Located("filter", "OUTPUT", AnyRule(server.v6).(outInterface := intf, destination := server,
                                                               protocol := protocol, destinationPort := port))
  {
    var after := VpnClauses(intf, server, protocol, port);
    var started := EMPTY.(append := true, chain := "OUTPUT");
    VpnEffects(intf, server, protocol, port, started);
    VpnAsPrinted(intf, server, protocol, port);
    AddressIsMasked(server);
    hide PrintAll, Effects, AddedRule, OutputToVpn;
    AddedRuleIs(OutputToVpn(intf, server, protocol, port), "OUTPUT", after, server.v6);
    NothingBefore();
  }

  ghost function VpnClauses(intf: string, server: Prefix, protocol: string, port: nat): seq<Clause> {
    [Destination(server), Out(intf)] + [Protocol(protocol), MatchProtocol(protocol), DestinationPort(port), Jump("ACCEPT")]
  }

  lemma VpnEffects(intf: string, server: Prefix, protocol: string, port: nat, i: Instruction)
    ensures Effects(VpnClauses(intf, server, protocol, port), i)
            == i.(destination := Some(server), outInterface := intf, protocol := protocol, destinationPort := port,
                  target := "ACCEPT")
  {
    var tail := [Protocol(protocol), MatchProtocol(protocol), DestinationPort(port), Jump("ACCEPT")];
    EffectsConcat([Destination(server), Out(intf)], tail, i);
    TwoEffects(Destination(server), Out(intf), i);
    FourClauses(Protocol(protocol), MatchProtocol(protocol), DestinationPort(port), Jump("ACCEPT"),
                i.(destination := Some(server), outInterface := intf));
    hide Effects, PrintAll;
  }

  lemma VpnAsPrinted(intf: string, server: Prefix, protocol: string, port: nat)
    ensures OutputToVpn(intf, server, protocol, port)
            == Print(Append("OUTPUT")) + PrintAll(VpnClauses(intf, server, protocol, port))
  {
    PrintAllConcat([Append("OUTPUT")], VpnClauses(intf, server, protocol, port));
    OneClause(Append("OUTPUT"), EMPTY);
    hide PrintAll, Print;
    assert [Append("OUTPUT")] + VpnClauses(intf, server, protocol, port)
           == [Append("OUTPUT"), Destination(server), Out(intf), Protocol(protocol), MatchProtocol(protocol),
               DestinationPort(port), Jump("ACCEPT")];
  }

  /** Its last three bytes are zero. */
  lemma SolicitedNodeIsMasked()
    ensures IsMasked(SOLICITED_NODE)
  {
    var x := 0xff02_0000_0000_0000_0000_0001_ff;
    ByteIsCleared(x, 0, 0);
    ByteIsCleared(0x100 * x, 0, 8);
    ByteIsCleared(0x1_0000 * x, 0, 16);
    hide Cleared;
    assert SOLICITED_NODE.address == 0x100 * (0x1_0000 * x);
    assert Cleared(x, 0) == x by { NothingCleared(x); }
  }

  /** Neighbour discovery is accepted out of one interface. */
  lemma MulticastMeans(intf: string)
    requires intf != ""
    ensures AddedRule(MulticastOutput(intf), true)
            == Located("filter", "OUTPUT", AnyRule(true).(outInterface := intf, destination := SOLICITED_NODE))
  {
    var tail := [Destination(SOLICITED_NODE), Jump("ACCEPT")];
    var started := EMPTY.(append := true, chain := "OUTPUT");
    var e := Next(intf != "*", Out(intf), tail, started);
    TwoEffects(Destination(SOLICITED_NODE), Jump("ACCEPT"), e);
    SolicitedNodeIsMasked();
    PrintIf(intf != "*", Out(intf), tail);
    hide PrintAll, Effects, AddedRule;
    assert MulticastOutput(intf) == Print(Append("OUTPUT")) + PrintAll(OutClauses(intf) + tail);
    AddedRuleIs(MulticastOutput(intf), "OUTPUT", OutClauses(intf) + tail, true);
    NothingBefore();
  }

  /** Packets for a local network are accepted, in through its interface. */
  lemma InputToSubnetMeans(intf: string, destination: Prefix)
    requires intf != ""
    ensures AddedRule(InputToSubnet(intf, destination), destination.v6)
            == Located("filter", "INPUT", AnyRule(destination.v6).(inInterface := intf, destination := Masked(destination)))
  {
    var tail := [Destination(destination), Jump("ACCEPT")];
    var started := EMPTY.(append := true, chain := "INPUT");
    var e := Next(intf != "*", In(intf), tail, started);
    TwoEffects(Destination(destination), Jump("ACCEPT"), e);
    PrintIf(intf != "*", In(intf), tail);
    hide PrintAll, Effects, AddedRule;
    assert InputToSubnet(intf, destination) == Print(Append("INPUT")) + PrintAll(InClauses(intf) + tail);
    AddedRuleIs(InputToSubnet(intf, destination), "INPUT", InClauses(intf) + tail, destination.v6);
    NothingBefore();
  }

  /** Packets from an own address to its local network are accepted, out of its interface. */
  lemma OutputToSubnetMeans(intf: string, source: Prefix, destination: Prefix)
    requires intf != "" && InterfaceName(intf)
    ensures AddedRule(OutputToSubnet(intf, source, destination, false), source.v6) == SubnetRule(intf, source, destination)
  {
    var i := OutputToSubnetReadAs(intf, source, destination, false);
    hide Parse, OutputToSubnet, IsDeleteMatch;
  }

  // -------------------------------------------------- all base rules, one by one

  /** What an enabled firewall lets through apart from tracked ports and subnets. */
  ghost predicate IsLoopbackRule(l: Located, v6: bool) {
    || l == Located("filter", "INPUT", AnyRule(v6).(inInterface := "lo"))
    || l == Located("filter", "OUTPUT", AnyRule(v6).(outInterface := "lo"))
    || l == Located("filter", "INPUT", AnyRule(v6).(states := ["ESTABLISHED", "RELATED"]))
    || l == Located("filter", "OUTPUT", AnyRule(v6).(states := ["ESTABLISHED", "RELATED"]))
  }

  ghost predicate IsVpnRule(l: Located, intf: string, server: VpnServer, v6: bool) {
    server.ip.v6 == v6
    && l == Located("filter", "OUTPUT", AnyRule(v6).(outInterface := intf, destination := server.ip,
                                                     protocol := server.protocol, destinationPort := server.port))
  }

  ghost predicate IsNetworkRule(l: Located, n: LocalNetwork, v6: bool) {
    || (n.ip.v6 == v6 && l == SubnetRule(n.interfaceName, n.ip, n.ipNet))
    || (n.ipNet.v6 == v6
        && l == Located("filter", "INPUT", AnyRule(v6).(inInterface := n.interfaceName, destination := Masked(n.ipNet))))
    || (v6 && l == Located("filter", "OUTPUT", AnyRule(v6).(outInterface := n.interfaceName, destination := SOLICITED_NODE)))
  }

  ghost predicate IsBaseRule(l: Located, routes: seq<Route>, networks: seq<LocalNetwork>, server: Option<VpnServer>, v6: bool) {
    || IsLoopbackRule(l, v6)
    || (server.Some? && exists r :: r in routes && IsVpnRule(l, r.netInterface, server.value, v6))
    || exists n :: n in networks && IsNetworkRule(l, n, v6)
  }

  lemma {:induction false} InAddedBy(xs: seq<Instr>, v6: bool, l: Located)
    ensures l in AddedBy(xs, v6) <==> exists x :: x in xs && x.v6 == v6 && l == AddedRule(x.fields, v6)
    decreases |xs|
  {
    hide AddedRule;
    if xs != [] {
      InAddedBy(xs[1..], v6, l);
      assert xs == [xs[0]] + xs[1..];
    }
  }

  ghost function VpnInstr(intf: string, server: VpnServer): Instr {
    Instr(server.ip.v6, OutputToVpn(intf, server.ip, server.protocol, server.port))
  }

  lemma {:induction false} InVpnInstrs(routes: seq<Route>, server: VpnServer, x: Instr)
    ensures x in VpnInstrs(routes, Some(server)) <==> exists r :: r in routes && x == VpnInstr(r.netInterface, server)
  {
    hide OutputToVpn;
    if routes != [] {
      var init, last := routes[..|routes| - 1], routes[|routes| - 1];
      assert routes == init + [last];
      InVpnInstrs(init, server, x);
    }
  }

  ghost predicate IsNetworkInstr(x: Instr, n: LocalNetwork) {
    || x == Instr(n.ip.v6 || n.ipNet.v6, OutputToSubnet(n.interfaceName, n.ip, n.ipNet, false))
    || x == Instr(true, MulticastOutput(n.interfaceName))
  }

  lemma {:induction false} InLocalInstrs(networks: seq<LocalNetwork>, x: Instr)
    ensures x in LocalInstrs(networks) <==> exists n :: n in networks && IsNetworkInstr(x, n)
  {
    if networks != [] {
      var init, last := networks[..|networks| - 1], networks[|networks| - 1];
      var multicast := Instr(true, MulticastOutput(last.interfaceName));
      assert networks == init + [last];
      InLocalInstrs(init, x);
      assert OnlyV6([MulticastOutput(last.interfaceName)]) == [multicast];
      hide OutputToSubnet, MulticastOutput, OnlyV6;
      if NamesInterface(init, last.interfaceName) && x == multicast {
        var n :| n in init && n.interfaceName == last.interfaceName;
        assert IsNetworkInstr(x, n);
      }
      hide NamesInterface;
      assert x in LocalInstrs(networks) <==> x in LocalInstrs(init) || IsNetworkInstr(x, last);
    }
  }

  lemma {:induction false} InInputInstrs(networks: seq<LocalNetwork>, x: Instr)
    ensures x in InputInstrs(networks)
            <==> exists n :: n in networks && x == Instr(n.ipNet.v6, InputToSubnet(n.interfaceName, n.ipNet))
  {
    hide InputToSubnet;
    if networks != [] {
      var init, last := networks[..|networks| - 1], networks[|networks| - 1];
      assert networks == init + [last];
      InInputInstrs(init, x);
    }
  }

  lemma AddedByBoth(fields: seq<Field>, v6: bool)
    ensures AddedBy(Both([fields]), v6) == multiset{AddedRule(fields, v6)}
  {
    hide AddedRule;
    var a, b := Instr(false, fields), Instr(true, fields);
    assert Both([fields]) == [a, b] && [a, b][1..] == [b] && [b][1..] == [];
    assert AddedBy([b], v6) == (if v6 then multiset{AddedRule(fields, v6)} else multiset{}) + AddedBy([], v6);
  }

  /** Of the loopback instructions, each adds one rule. */
  lemma LoopbackAdded(v6: bool)
    ensures AddedBy(LoopbackInstrs(), v6)
            == multiset{AddedRule(InputThrough("lo"), v6)} + multiset{AddedRule(OutputThrough("lo"), v6)}
               + (multiset{AddedRule(EstablishedRelated("OUTPUT"), v6)} + multiset{AddedRule(EstablishedRelated("INPUT"), v6)})
  {
    hide InputThrough, OutputThrough, EstablishedRelated, AddedRule, AddedBy;
    var a, b, c, d := InputThrough("lo"), OutputThrough("lo"), EstablishedRelated("OUTPUT"), EstablishedRelated("INPUT");
    assert [c, d][1..] == [d];
    assert Both([c, d]) == Both([c]) + Both([d]);
    hide Both;
    AddedByConcat(Both([a]) + Both([b]), Both([c]) + Both([d]), v6);
    AddedByConcat(Both([a]), Both([b]), v6);
    AddedByConcat(Both([c]), Both([d]), v6);
    AddedByBoth(a, v6);
    AddedByBoth(b, v6);
    AddedByBoth(c, v6);
    AddedByBoth(d, v6);
  }

  lemma LoopbackAre(l: Located, v6: bool)
    ensures l in AddedBy(LoopbackInstrs(), v6) <==> IsLoopbackRule(l, v6)
  {
    hide InputThrough, OutputThrough, EstablishedRelated, AddedRule, AddedBy, LoopbackInstrs;
    LoopbackAdded(v6);
    ThroughMeans("lo", v6);
    EstablishedMeans("INPUT", v6);
    EstablishedMeans("OUTPUT", v6);
  }

  lemma VpnRulesAre(routes: seq<Route>, server: VpnServer, l: Located, v6: bool)
    requires FixedValid(routes, [], Some(server))
    ensures l in AddedBy(VpnInstrs(routes, Some(server)), v6)
            <==> exists r :: r in routes && IsVpnRule(l, r.netInterface, server, v6)
  {
    hide AddedRule, OutputToVpn, InterfaceName, IsTcpOrUdp, IsAddress, AddedBy, VpnInstrs;
    InAddedBy(VpnInstrs(routes, Some(server)), v6, l);
    forall r | r in routes
      ensures server.ip.v6 == v6 ==> (l == AddedRule(VpnInstr(r.netInterface, server).fields, v6)
                                      <==> IsVpnRule(l, r.netInterface, server, v6))
    {
      VpnMeans(r.netInterface, server.ip, server.protocol, server.port);
    }
    forall x ensures x in VpnInstrs(routes, Some(server)) <==> exists r :: r in routes && x == VpnInstr(r.netInterface, server) {
      InVpnInstrs(routes, server, x);
    }
    if r :| r in routes && IsVpnRule(l, r.netInterface, server, v6) {
      assert VpnInstr(r.netInterface, server) in VpnInstrs(routes, Some(server));
    }
  }

  lemma NetworkRulesAre(networks: seq<LocalNetwork>, l: Located, v6: bool)
    requires forall n :: n in networks ==> NetworkValid(n)
    ensures l in AddedBy(LocalInstrs(networks), v6) || l in AddedBy(InputInstrs(networks), v6)
            <==> exists n :: n in networks && IsNetworkRule(l, n, v6)
  {
    hide AddedRule, OutputToSubnet, MulticastOutput, InputToSubnet, InterfaceName, IsAddress, AddedBy, LocalInstrs, InputInstrs,
         Cleared;
    InAddedBy(LocalInstrs(networks), v6, l);
    InAddedBy(InputInstrs(networks), v6, l);
    forall x
      ensures x in LocalInstrs(networks) <==> exists n :: n in networks && IsNetworkInstr(x, n)
      ensures x in InputInstrs(networks)
              <==> exists n :: n in networks && x == Instr(n.ipNet.v6, InputToSubnet(n.interfaceName, n.ipNet))
    {
      InLocalInstrs(networks, x);
      InInputInstrs(networks, x);
    }
    forall n | n in networks ensures NetworkAdds(n, l, v6) {
      NetworkMeans(n, l, v6);
    }
    if n :| n in networks && IsNetworkRule(l, n, v6) {
      assert NetworkAdds(n, l, v6);
      assert Instr(n.ipNet.v6, InputToSubnet(n.interfaceName, n.ipNet)) in InputInstrs(networks);
      var out, multicast := Instr(n.ip.v6 || n.ipNet.v6, OutputToSubnet(n.interfaceName, n.ip, n.ipNet, false)),
                            Instr(true, MulticastOutput(n.interfaceName));
      assert IsNetworkInstr(out, n) && IsNetworkInstr(multicast, n);
      assert out in LocalInstrs(networks) && multicast in LocalInstrs(networks);
    }
    if x :| x in LocalInstrs(networks) && x.v6 == v6 && l == AddedRule(x.fields, v6) {
      var n :| n in networks && IsNetworkInstr(x, n);
      assert NetworkAdds(n, l, v6);
    }
    if x :| x in InputInstrs(networks) && x.v6 == v6 && l == AddedRule(x.fields, v6) {
      var n :| n in networks && x == Instr(n.ipNet.v6, InputToSubnet(n.interfaceName, n.ipNet));
      assert NetworkAdds(n, l, v6);
    }
  }

  /** A network's instructions add its rules. */
  ghost predicate NetworkAdds(n: LocalNetwork, l: Located, v6: bool) {
    IsNetworkRule(l, n, v6)
    <==> || (n.ip.v6 == v6 && l == AddedRule(OutputToSubnet(n.interfaceName, n.ip, n.ipNet, false), v6))
         || (n.ipNet.v6 == v6 && l == AddedRule(InputToSubnet(n.interfaceName, n.ipNet), v6))
         || (v6 && l == AddedRule(MulticastOutput(n.interfaceName), v6))
  }

  lemma NetworkMeans(n: LocalNetwork, l: Located, v6: bool)
    requires NetworkValid(n)
    ensures NetworkAdds(n, l, v6)
  {
    OutputToSubnetMeans(n.interfaceName, n.ip, n.ipNet);
    InputToSubnetMeans(n.interfaceName, n.ipNet);
    MulticastMeans(n.interfaceName);
    hide AddedRule, OutputToSubnet, MulticastOutput, InputToSubnet, InterfaceName, IsAddress, Cleared;
  }

  /**
    The base rules of a family, one by one: loopback and established traffic both ways, the VPN
    server out of each interface with a default route, and for each local network traffic from the
    own address to it, traffic to it, and IPv6 neighbour discovery. There are no others.
   */
  lemma BaseRulesAre(routes: seq<Route>, networks: seq<LocalNetwork>, server: Option<VpnServer>, l: Located, v6: bool)
    requires FixedValid(routes, networks, server)
    ensures l in AddedBy(BaseInstrs(routes, networks, server), v6) <==> IsBaseRule(l, routes, networks, server, v6)
  {
    hide *;
    LoopbackAre(l, v6);
    NetworksValid(routes, networks, server);
    NetworkRulesAre(networks, l, v6);
    NoVpnInstrs(routes);
    NothingAdded(v6);
    if server.Some? {
      VpnRulesAre(routes, server.value, l, v6);
    }
    BaseInstrsAre(routes, networks, server, l, v6);
    BaseRuleIs(l, routes, networks, server, v6);
  }

  lemma NetworksValid(routes: seq<Route>, networks: seq<LocalNetwork>, server: Option<VpnServer>)
    requires FixedValid(routes, networks, server)
    ensures FixedValid(routes, [], server) && forall n :: n in networks ==> NetworkValid(n)
  {
    hide NetworkValid, InterfaceName, IsTcpOrUdp, IsAddress;
  }

  lemma BaseInstrsAre(routes: seq<Route>, networks: seq<LocalNetwork>, server: Option<VpnServer>, l: Located, v6: bool)
    ensures l in AddedBy(BaseInstrs(routes, networks, server), v6)
            <==> || l in AddedBy(LoopbackInstrs(), v6) || l in AddedBy(VpnInstrs(routes, server), v6)
                 || l in AddedBy(LocalInstrs(networks), v6) || l in AddedBy(InputInstrs(networks), v6)
  {
    hide LoopbackInstrs, VpnInstrs, LocalInstrs, InputInstrs, AddedBy;
    var a, b, c, d := LoopbackInstrs(), VpnInstrs(routes, server), LocalInstrs(networks), InputInstrs(networks);
    AddedByConcat(a + b + c, d, v6);
    AddedByConcat(a + b, c, v6);
    AddedByConcat(a, b, v6);
  }

  lemma BaseRuleIs(l: Located, routes: seq<Route>, networks: seq<LocalNetwork>, server: Option<VpnServer>, v6: bool)
    ensures IsBaseRule(l, routes, networks, server, v6)
            <==> || IsLoopbackRule(l, v6)
                 || (server.Some? && exists r :: r in routes && IsVpnRule(l, r.netInterface, server.value, v6))
                 || exists n :: n in networks && IsNetworkRule(l, n, v6)
  {
    hide IsLoopbackRule, IsVpnRule, IsNetworkRule;
  }

  lemma NoVpnInstrs(routes: seq<Route>)
    ensures VpnInstrs(routes, None) == []
  {
  }

  lemma NothingAdded(v6: bool)
    ensures AddedBy([], v6) == multiset{}
  {
  }
}
