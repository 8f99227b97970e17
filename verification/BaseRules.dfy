/** The rules of an enabled firewall that have nothing to do with ports: they only come on top. */
module BaseRules {
  import opened Wrappers
  import opened IptablesRules
  import opened IptablesKernel
  import opened Iptables
  import opened PortRules
  import opened FirewallRules

  ghost predicate IsPortInstruction(i: Instruction) {
    i.table == "nat" || (i.chain == "INPUT" && i.protocol != "")
  }

  /** An instruction that can be read, and that appends a rule other than a port rule. */
  ghost predicate Elsewhere(fields: seq<Field>) {
    && !IsDeleteMatch(fields) && Parse(fields, true).Ok?
    && var i := Parse(fields, true).value;
       !IsPortInstruction(i) && i.append && i.chain != ""
  }

  lemma GrowsByNone(k: Kernel, next: Kernel)
    requires WellFormed(k) && next.v4.rules == k.v4.rules && next.v6.rules == k.v6.rules
    ensures GrowsElsewhere(k, next)
  {
  }

  lemma GrowsByOne(k: Kernel, next: Kernel, rule: Located, v6: bool)
    requires WellFormed(k) && Listed(rule.rule, v6) && !IsPortRule(rule)
    requires next.v4.rules == k.v4.rules + (if v6 then [] else [rule])
    requires next.v6.rules == k.v6.rules + (if v6 then [rule] else [])
    ensures GrowsElsewhere(k, next)
  {
    hide IsPortRule, Listed;
  }

  /** What the program can do with such an instruction: nothing to the rules, or one more rule. */
  lemma ProgramElsewhere(rs: Ruleset, fields: seq<Field>, v6: bool, hasNat: bool)
    requires Elsewhere(fields) && Program(rs, fields, v6, hasNat).Some?
    ensures var next := Program(rs, fields, v6, hasNat).value;
            || next.rules == rs.rules
            || exists rule: Located :: Listed(rule.rule, v6) && !IsPortRule(rule) && next.rules == rs.rules + [rule]
  {
    hide Parse, IsDeleteMatch, Masked, IsMasked;
    var next := Program(rs, fields, v6, hasNat).value;
    if next.rules != rs.rules {
      var rule := RuleOf(Parse(fields, true).value, v6);
      MadeIsListed(Parse(fields, true).value, v6);
      assert Listed(rule.rule, v6) && !IsPortRule(rule);
    }
  }

  lemma ElsewhereGrows(p: Platform, k: Kernel, x: Instr)
    requires Elsewhere(x.fields) && WellFormed(k) && Run(p, k, x).Some?
    ensures GrowsElsewhere(k, Run(p, k, x).value)
  {
    hide Parse, IsDeleteMatch, WellFormed, GrowsElsewhere, Program, Listed, IsPortRule;
    var next := Run(p, k, x).value;
    if !x.v6 {
      ProgramElsewhere(k.v4, x.fields, false, true);
    } else if p.ip6Tables {
      ProgramElsewhere(k.v6, x.fields, true, p.ip6Nat);
    }
    if next.v4.rules == k.v4.rules && next.v6.rules == k.v6.rules {
      GrowsByNone(k, next);
    } else {
      var rule: Located :| Listed(rule.rule, x.v6) && !IsPortRule(rule)
                  && (if x.v6 then next.v6.rules == k.v6.rules + [rule] else next.v4.rules == k.v4.rules + [rule]);
      GrowsByOne(k, next, rule, x.v6);
    }
  }

  lemma {:induction false} AllElsewhereGrow(p: Platform, k: Kernel, xs: seq<Instr>)
    requires (forall x :: x in xs ==> Elsewhere(x.fields)) && WellFormed(k) && RunAll(p, k, xs).Some?
    ensures GrowsElsewhere(k, RunAll(p, k, xs).value)
    decreases |xs|
  {
    if xs != [] {
      hide Elsewhere, GrowsElsewhere, WellFormed, Run;
      assert xs[0] in xs && forall x :: x in xs[1..] ==> x in xs;
      ElsewhereGrows(p, k, xs[0]);
      var mid := Run(p, k, xs[0]).value;
      assert WellFormed(mid) by { GrowsWellFormed(k, mid); }
      AllElsewhereGrow(p, mid, xs[1..]);
      GrowsTransitively(k, mid, RunAll(p, k, xs).value);
    }
  }

  lemma GrowsWellFormed(k: Kernel, next: Kernel)
    requires GrowsElsewhere(k, next)
    ensures WellFormed(next)
  {
  }

  /** A clause that leaves the chain as it is, and brings in no protocol in the INPUT chain. */
  ghost predicate Settled(c: Clause, chain: string) {
    Plain(c) && Writable(c) && !c.Table? && !c.Append? && (c.Protocol? ==> chain == "OUTPUT")
  }

  lemma {:induction false} SettledEffects(cs: seq<Clause>, i: Instruction, chain: string)
    requires forall c :: c in cs ==> Settled(c, chain)
    ensures var e := Effects(cs, i);
            e.table == i.table && e.chain == i.chain && e.append == i.append && (chain != "OUTPUT" ==> e.protocol == i.protocol)
  {
    if cs != [] {
      assert Settled(cs[0], chain);
      SettledEffects(cs[1..], Effect(cs[0], i), chain);
    }
  }

  lemma ClausesElsewhere(chain: string, after: seq<Clause>)
    requires chain == "INPUT" || chain == "OUTPUT"
    requires forall c :: c in after ==> Settled(c, chain)
    requires PrintAll(after) != [] && PrintAll(after)[0].Word?
    ensures Elsewhere(Print(Append(chain)) + PrintAll(after))
  {
    SettledEffects(after, Effect(Append(chain), EMPTY), chain);
    ParseWithVerb([], false, chain, after, true);
    DeleteMatchWithVerb([], false, chain, after);
    hide Parse, IsDeleteMatch, Effects;
    assert Print(Append(chain)) + PrintAll(after) == Fields([], false, chain, after);
  }

  lemma TwoClauses(a: Clause, b: Clause)
    ensures PrintAll([a, b]) == Print(a) + Print(b)
  {
    assert [a, b][1..] == [b];
    OneClause(b, EMPTY);
  }

  lemma ThroughElsewhere(intf: string)
    requires InterfaceName(intf)
    ensures Elsewhere(InputThrough(intf)) && Elsewhere(OutputThrough(intf))
  {
    hide Elsewhere;
    TwoClauses(In(intf), Jump("ACCEPT"));
    TwoClauses(Out(intf), Jump("ACCEPT"));
    ClausesElsewhere("INPUT", [In(intf), Jump("ACCEPT")]);
    ClausesElsewhere("OUTPUT", [Out(intf), Jump("ACCEPT")]);
    ThreeClauses(Append("INPUT"), In(intf), Jump("ACCEPT"), EMPTY);
    ThreeClauses(Append("OUTPUT"), Out(intf), Jump("ACCEPT"), EMPTY);
  }

  lemma EstablishedElsewhere(chain: string)
    requires chain == "INPUT" || chain == "OUTPUT"
    ensures Elsewhere(EstablishedRelated(chain))
  {
    var middle := [Word("-m"), Word("conntrack"), Word("--ctstate"), States(["ESTABLISHED", "RELATED"])];
    var jump := Print(Jump("ACCEPT"));
    var fields := EstablishedRelated(chain);
    PlainClause(Append(chain));
    PlainClause(Jump("ACCEPT"));
    assert forall f :: f in middle ==> !IsDeleteWord(f);
    NotDelete(fields);
    EstablishedParsed(chain);
  }

  lemma ConntrackMatch(fields: seq<Field>, i: Instruction)
    requires 2 <= |fields| && fields[0] == Word("-m") && fields[1] == Word("conntrack")
    ensures ParseFrom(fields, i, true) == ParseFrom(fields[2..], i, true)
  {
    ShortFlags();
    hide FlagOf;
    assert ParseFlag(fields, i, true) == Ok(Step(2, i));
  }

  lemma ConntrackStates(fields: seq<Field>, i: Instruction)
    requires 2 <= |fields| && fields[0] == Word("--ctstate") && fields[1].States?
    ensures ParseFrom(fields, i, true) == ParseFrom(fields[2..], i.(states := fields[1].states), true)
  {
    assert FlagOf(Word("--ctstate")) == CtStateFlag;
    hide FlagOf;
    assert ParseFlag(fields, i, true) == Ok(Step(2, i.(states := fields[1].states)));
  }

  /** The connection tracking match is read by the iptables program only. */
  lemma ConntrackParsed(rest: seq<Field>, i: Instruction)
    ensures var states := States(["ESTABLISHED", "RELATED"]);
            ParseFrom([Word("-m"), Word("conntrack"), Word("--ctstate"), states] + rest, i, true)
            == ParseFrom(rest, i.(states := states.states), true)
  {
    var states := States(["ESTABLISHED", "RELATED"]);
    var fields := [Word("-m"), Word("conntrack"), Word("--ctstate"), states] + rest;
    hide ParseFrom;
    ConntrackMatch(fields, i);
    assert fields[2..] == [Word("--ctstate"), states] + rest;
    ConntrackStates(fields[2..], i);
    assert fields[2..][2..] == rest;
  }

  lemma EstablishedParsed(chain: string)
    ensures Parse(EstablishedRelated(chain), true)
            == Ok(EMPTY.(table := "filter", append := true, chain := chain, states := ["ESTABLISHED", "RELATED"],
                         target := "ACCEPT"))
  {
    var i := EMPTY.(append := true, chain := chain);
    var jump := Print(Jump("ACCEPT"));
    var middle := [Word("-m"), Word("conntrack"), Word("--ctstate"), States(["ESTABLISHED", "RELATED"])] + jump;
    assert EstablishedRelated(chain) == Print(Append(chain)) + middle;
    assert jump + [] == jump;
    var tracked := i.(states := ["ESTABLISHED", "RELATED"]);
    NothingLeft(Effect(Jump("ACCEPT"), tracked), true);
    hide ParseFrom;
    ParsePrintedClause(Append(chain), middle, EMPTY, true);
    ConntrackParsed(jump, i);
    ParsePrintedClause(Jump("ACCEPT"), [], tracked, true);
  }

  lemma VpnClausesSettled(intf: string, server: Prefix, protocol: string, port: nat)
    requires InterfaceName(intf) && IsTcpOrUdp(protocol) && port < 0x1_0000
    ensures var after := [Destination(server), Out(intf), Protocol(protocol), MatchProtocol(protocol),
                          DestinationPort(port), Jump("ACCEPT")];
            forall c :: c in after ==> Settled(c, "OUTPUT")
  {
    assert Settled(Destination(server), "OUTPUT") && Settled(Out(intf), "OUTPUT") && Settled(Protocol(protocol), "OUTPUT");
    assert Settled(MatchProtocol(protocol), "OUTPUT") && Settled(DestinationPort(port), "OUTPUT");
    assert Settled(Jump("ACCEPT"), "OUTPUT");
    hide Settled;
  }

  lemma VpnElsewhere(intf: string, server: Prefix, protocol: string, port: nat)
    requires InterfaceName(intf) && IsTcpOrUdp(protocol) && port < 0x1_0000
    ensures Elsewhere(OutputToVpn(intf, server, protocol, port))
  {
    var after := [Destination(server), Out(intf), Protocol(protocol), MatchProtocol(protocol),
                  DestinationPort(port), Jump("ACCEPT")];
    BeginsWithFlag(after);
    VpnClausesSettled(intf, server, protocol, port);
    assert OutputToVpn(intf, server, protocol, port) == PrintAll([Append("OUTPUT")] + after);
    hide *;
    ClausesElsewhere("OUTPUT", after);
    PrintAllConcat([Append("OUTPUT")], after);
    OneClause(Append("OUTPUT"), EMPTY);
  }

  lemma MulticastElsewhere(intf: string)
    requires intf != "" && InterfaceName(intf)
    ensures Elsewhere(MulticastOutput(intf))
  {
    var tail := [Destination(SOLICITED_NODE), Jump("ACCEPT")];
    TwoClauses(Destination(SOLICITED_NODE), Jump("ACCEPT"));
    PrintIf(intf != "*", Out(intf), tail);
    hide Elsewhere, PrintAll;
    forall c | c in OutClauses(intf) + tail ensures Settled(c, "OUTPUT") {
      assert c in OutClauses(intf) || c in tail;
    }
    ClausesElsewhere("OUTPUT", OutClauses(intf) + tail);
    assert MulticastOutput(intf) == Print(Append("OUTPUT")) + PrintAll(OutClauses(intf) + tail);
  }

  lemma InputToSubnetElsewhere(intf: string, destination: Prefix)
    requires intf != "" && InterfaceName(intf)
    ensures Elsewhere(InputToSubnet(intf, destination))
  {
    var tail := [Destination(destination), Jump("ACCEPT")];
    TwoClauses(Destination(destination), Jump("ACCEPT"));
    PrintIf(intf != "*", In(intf), tail);
    hide Elsewhere, PrintAll;
    forall c | c in InClauses(intf) + tail ensures Settled(c, "INPUT") {
      assert c in InClauses(intf) || c in tail;
    }
    ClausesElsewhere("INPUT", InClauses(intf) + tail);
    assert InputToSubnet(intf, destination) == Print(Append("INPUT")) + PrintAll(InClauses(intf) + tail);
  }

  lemma OutputToSubnetElsewhere(intf: string, source: Prefix, destination: Prefix)
    requires intf != "" && InterfaceName(intf)
    ensures Elsewhere(OutputToSubnet(intf, source, destination, false))
  {
    var i := OutputToSubnetReadAs(intf, source, destination, false);
  }
}
