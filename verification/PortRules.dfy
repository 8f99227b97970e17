/** What the instructions for ports and subnets do to the multiset of rules in the kernel. */
module PortRules {
  import opened Wrappers
  import opened IptablesRules
  import opened IptablesKernel
  import opened Iptables

  // --------------------------------------------------------- rules as added

  ghost function AnyRule(v6: bool): Rule {
    var any := Prefix(v6, 0, 0);
    Rule("ACCEPT", "", "*", "*", any, 0, any, 0, [], [], [], [], false, 0)
  }

  ghost function AcceptRule(intf: string, protocol: string, port: nat, v6: bool): Located {
    Located("filter", "INPUT", AnyRule(v6).(protocol := protocol, inInterface := intf, destinationPort := port))
  }

  ghost function RedirectRule(intf: string, protocol: string, port: nat, to: nat, v6: bool): Located {
    Located("nat", "PREROUTING",
            AnyRule(v6).(target := "REDIRECT", protocol := protocol, inInterface := intf,
                         destinationPort := port, redirPorts := [to]))
  }

  ghost function SubnetRule(intf: string, source: Prefix, destination: Prefix): Located {
    Located("filter", "OUTPUT",
            AnyRule(source.v6).(outInterface := intf, source := Masked(source), destination := Masked(destination)))
  }

  /** The rules of one allowed port on one interface. */
  ghost function AcceptRules(intf: string, port: nat, v6: bool): multiset<Located> {
    multiset{AcceptRule(intf, "tcp", port, v6), AcceptRule(intf, "udp", port, v6)}
  }

  /** The rules of one port redirection. */
  ghost function RedirectRules(intf: string, port: nat, to: nat, v6: bool): multiset<Located> {
    multiset{RedirectRule(intf, "tcp", port, to, v6), AcceptRule(intf, "tcp", to, v6),
             RedirectRule(intf, "udp", port, to, v6), AcceptRule(intf, "udp", to, v6)}
  }

  // ------------------------------------------------- reading what is written

  /** A word that is none of iptables's own delete flags. */
  ghost predicate PlainWord(text: string) {
    text != "-D" && text != "--delete"
  }

  /** An interface name is never such a flag. */
  ghost predicate InterfaceName(intf: string) {
    PlainWord(intf)
  }

  /** An instruction that both the parser and the iptables program read as i. */
  ghost predicate ReadAs(fields: seq<Field>, i: Instruction) {
    && Parse(fields, false) == Parse(fields, true) == Ok(i)
    && (IsDeleteMatch(fields) <==> !i.append)
    && i.chain != ""
    && (|fields| == 3 ==> fields[0] != Word("--policy"))
  }

  ghost function Changed(rules: multiset<Located>, change: multiset<Located>, remove: bool): multiset<Located> {
    if remove then rules - change else rules + change
  }

  /** Running it appends its rule, or deletes one rule equal to it; none is equal if a prefix is not masked. */
  lemma ExecChanges(rs: Ruleset, fields: seq<Field>, i: Instruction, v6: bool, hasNat: bool)
    requires ReadAs(fields, i) && OfFamily(i, v6) && AllListed(rs.rules, v6) && Exec(rs, fields, v6, hasNat).Some?
    ensures var next := Exec(rs, fields, v6, hasNat).value;
            && next.policies == rs.policies && AllListed(next.rules, v6)
            && (if i.append || PrefixesMasked(i)
                then multiset(next.rules) == Changed(multiset(rs.rules), multiset{RuleOf(i, v6)}, !i.append)
                else next == rs)
  {
    hide Parse, IsDeleteMatch, RuleOf, Listed, PrefixesMasked, OfFamily;
    if i.append {
      MadeIsListed(i, v6);
      assert Exec(rs, fields, v6, hasNat).value.rules == rs.rules + [RuleOf(i, v6)];
    } else {
      DeleteTakesOne(rs.rules, i, v6);
      DeleteKeepsListed(rs.rules, i, v6);
    }
  }

  ghost predicate IsDeleteWord(f: Field) {
    f == Word("-D") || f == Word("--delete")
  }

  lemma {:induction false} NotDelete(fields: seq<Field>)
    requires forall f :: f in fields ==> !IsDeleteWord(f)
    ensures !IsDeleteMatch(fields)
  {
    if fields != [] {
      assert !IsDeleteWord(fields[0]);
      NotDelete(fields[1..]);
    }
  }

  lemma {:induction false} IsDelete(before: seq<Field>, chain: string, after: seq<Field>)
    requires forall f :: f in before ==> !IsDeleteWord(f)
    requires after != [] ==> after[0].Word?
    ensures IsDeleteMatch(before + [Word("--delete"), Word(chain)] + after)
  {
    var fields := before + [Word("--delete"), Word(chain)] + after;
    if before == [] {
      assert fields[0] == Word("--delete") && (after != [] ==> fields[2] == after[0]);
    } else {
      assert fields[0] == before[0] && !IsDeleteWord(before[0]);
      assert fields[1..] == before[1..] + [Word("--delete"), Word(chain)] + after;
      IsDelete(before[1..], chain, after);
    }
  }

  /** A clause that does not contain a delete flag. */
  ghost predicate Plain(c: Clause) {
    match c
    case Delete(_) => false
    case Append(chain) => PlainWord(chain)
    case Table(t) => PlainWord(t)
    case Jump(t) => PlainWord(t)
    case Protocol(p) => PlainWord(p)
    case MatchProtocol(p) => PlainWord(p)
    case In(intf) => PlainWord(intf)
    case Out(intf) => PlainWord(intf)
    case _ => true
  }

  lemma PlainClause(c: Clause)
    requires Plain(c)
    ensures forall f :: f in Print(c) ==> !IsDeleteWord(f)
  {
  }

  lemma {:induction false} PlainClauses(cs: seq<Clause>)
    requires forall c :: c in cs ==> Plain(c)
    ensures forall f :: f in PrintAll(cs) ==> !IsDeleteWord(f)
  {
    if cs != [] {
      PlainClause(cs[0]);
      PlainClauses(cs[1..]);
    }
  }

  lemma {:induction false} PrintAllConcat(xs: seq<Clause>, ys: seq<Clause>)
    ensures PrintAll(xs + ys) == PrintAll(xs) + PrintAll(ys)
  {
    if xs == [] {
      assert xs + ys == ys;
    } else {
      assert (xs + ys)[1..] == xs[1..] + ys;
      PrintAllConcat(xs[1..], ys);
    }
  }

  lemma {:induction false} EffectsConcat(xs: seq<Clause>, ys: seq<Clause>, i: Instruction)
    ensures Effects(xs + ys, i) == Effects(ys, Effects(xs, i))
  {
    if xs == [] {
      assert xs + ys == ys;
    } else {
      assert (xs + ys)[1..] == xs[1..] + ys;
      EffectsConcat(xs[1..], ys, Effect(xs[0], i));
    }
  }

  /** What an instruction with the given clauses around its verb is read as. */
  ghost function Meaning(before: seq<Clause>, remove: bool, chain: string, after: seq<Clause>): Instruction {
    var i := Effects(after, Effect(Verb(remove, chain), Effects(before, EMPTY)));
    if i.table == "" then i.(table := "filter") else i
  }

  ghost function Fields(before: seq<Clause>, remove: bool, chain: string, after: seq<Clause>): seq<Field> {
    PrintAll(before) + Print(Verb(remove, chain)) + PrintAll(after)
  }

  ghost function AllClauses(before: seq<Clause>, remove: bool, chain: string, after: seq<Clause>): seq<Clause> {
    before + (If(true, Verb(remove, chain)) + after)
  }

  lemma ClausesWithVerb(before: seq<Clause>, remove: bool, chain: string, after: seq<Clause>)
    ensures var cs := AllClauses(before, remove, chain, after);
            && PrintAll(cs) == Fields(before, remove, chain, after) != []
            && Effects(cs, EMPTY) == Effects(after, Effect(Verb(remove, chain), Effects(before, EMPTY)))
            && (AllWritable(before) && AllWritable(after) ==> AllWritable(cs))
  {
    var verb := Verb(remove, chain);
    var tail := If(true, verb) + after;
    hide Print, Effect, PrintAll, Effects;
    PrintAllConcat(before, tail);
    EffectsConcat(before, tail, EMPTY);
    PrintIsNotEmpty(verb);
    var _ := Next(true, verb, after, Effects(before, EMPTY));
    PrintIf(true, verb, after);
    assert PrintAll(before) + (Print(verb) + PrintAll(after)) == Fields(before, remove, chain, after);
  }

  lemma ParseWithVerb(before: seq<Clause>, remove: bool, chain: string, after: seq<Clause>, conntrack: bool)
    requires AllWritable(before) && AllWritable(after)
    ensures Parse(Fields(before, remove, chain, after), conntrack) == Ok(Meaning(before, remove, chain, after))
  {
    var cs := AllClauses(before, remove, chain, after);
    ClausesWithVerb(before, remove, chain, after);
    ParsePrinted(cs, EMPTY, conntrack);
    NothingLeft(Effects(cs, EMPTY), conntrack);
    hide ParseFrom, Effects, PrintAll, AllWritable;
  }

  lemma NothingLeft(i: Instruction, conntrack: bool)
    ensures ParseFrom([], i, conntrack) == Ok(if i.table == "" then i.(table := "filter") else i)
  {
  }

  lemma PrintIsNotEmpty(c: Clause)
    ensures Print(c) != []
  {
  }

  lemma DeleteMatchWithVerb(before: seq<Clause>, remove: bool, chain: string, after: seq<Clause>)
    requires forall c :: c in before || c in after ==> Plain(c)
    requires PlainWord(chain)
    ensures IsDeleteMatch(Fields(before, remove, chain, after)) <==> remove
  {
    BeginsWithFlag(after);
    hide Plain, InterfaceName, PlainWord, Parse, Effects;
    PlainClauses(before);
    if remove {
      IsDelete(PrintAll(before), chain, PrintAll(after));
    } else {
      VerbIsPlain(chain);
      PlainClauses(after);
      NotDelete(Fields(before, remove, chain, after));
    }
  }

  /** Printed clauses begin with a flag, which is neither a line number nor the flag of a policy. */
  lemma BeginsWithFlag(cs: seq<Clause>)
    ensures var printed := PrintAll(cs); printed != [] ==> printed[0].Word? && printed[0] != Word("--policy")
    ensures PrintAll(cs) != [] <==> cs != []
  {
  }

  lemma VerbIsPlain(chain: string)
    requires PlainWord(chain)
    ensures forall f :: f in Print(Verb(false, chain)) ==> !IsDeleteWord(f)
  {
    PlainClause(Verb(false, chain));
  }

  // ---------------------------------------------- the firewall's instructions

  ghost function InClauses(intf: string): seq<Clause> {
    If(intf != "*", In(intf))
  }

  ghost function OutClauses(intf: string): seq<Clause> {
    If(intf != "*", Out(intf))
  }

  ghost predicate IsTcpOrUdp(protocol: string) {
    protocol == "tcp" || protocol == "udp"
  }

  lemma OneClause(c: Clause, i: Instruction)
    ensures Effects([c], i) == Effect(c, i)
    ensures PrintAll([c]) == Print(c)
  {
    hide Effect, Print;
    assert PrintAll([c]) == Print(c) + PrintAll([]);
  }

  lemma ThreeClauses(a: Clause, b: Clause, c: Clause, i: Instruction)
    ensures Effects([a, b, c], i) == Effect(c, Effect(b, Effect(a, i)))
    ensures PrintAll([a, b, c]) == Print(a) + (Print(b) + Print(c))
  {
    hide Effect, Print;
    OneClause(c, Effect(b, Effect(a, i)));
    assert [b, c][1..] == [c];
    assert Effects([b, c], Effect(a, i)) == Effects([c], Effect(b, Effect(a, i)));
    assert [a, b, c][1..] == [b, c];
  }

  lemma FourClauses(a: Clause, b: Clause, c: Clause, d: Clause, i: Instruction)
    ensures Effects([a, b, c, d], i) == Effect(d, Effect(c, Effect(b, Effect(a, i))))
    ensures PrintAll([a, b, c, d]) == Print(a) + (Print(b) + (Print(c) + Print(d)))
  {
    hide Effect, Print;
    assert [a, b, c, d][1..] == [b, c, d];
    ThreeClauses(b, c, d, Effect(a, i));
  }

  ghost function PortClauses(protocol: string, port: nat): seq<Clause> {
    [Protocol(protocol), MatchProtocol(protocol), DestinationPort(port), Jump("ACCEPT")]
  }

  lemma PortClausesFine(intf: string, protocol: string, port: nat)
    requires intf != "" && InterfaceName(intf) && IsTcpOrUdp(protocol) && port < 0x1_0000
    ensures forall c :: c in InClauses(intf) + PortClauses(protocol, port) ==> Plain(c) && Writable(c)
  {
    forall c | c in InClauses(intf) + PortClauses(protocol, port) ensures Plain(c) && Writable(c) {
      assert c in InClauses(intf) || c in PortClauses(protocol, port);
    }
  }

  lemma PortClausesPrinted(intf: string, protocol: string, port: nat)
    requires intf != ""
    ensures PrintAll(InClauses(intf) + PortClauses(protocol, port))
            == InFlagFields(intf) + PrintAll(PortClauses(protocol, port))
    ensures var printed := PrintAll(InClauses(intf) + PortClauses(protocol, port)); 2 < |printed| && printed[0].Word?
  {
    var ports := PortClauses(protocol, port);
    PrintIf(intf != "*", In(intf), ports);
    FourClauses(Protocol(protocol), MatchProtocol(protocol), DestinationPort(port), Jump("ACCEPT"), EMPTY);
  }

  lemma AcceptPortFields(intf: string, protocol: string, port: nat, remove: bool)
    requires intf != ""
    ensures AcceptPort(intf, protocol, port, remove)
            == Fields([], remove, "INPUT", InClauses(intf) + PortClauses(protocol, port))
    ensures |AcceptPort(intf, protocol, port, remove)| > 3
  {
    PortClausesPrinted(intf, protocol, port);
  }

  lemma AcceptPortMeaning(intf: string, protocol: string, port: nat, remove: bool)
    ensures Meaning([], remove, "INPUT", InClauses(intf) + PortClauses(protocol, port))
            == EMPTY.(table := "filter", append := !remove, chain := "INPUT",
                      inInterface := if intf == "*" then "" else intf,
                      protocol := protocol, destinationPort := port, target := "ACCEPT")
  {
    var ports := PortClauses(protocol, port);
    var started := Effect(Verb(remove, "INPUT"), EMPTY);
    var e := Next(intf != "*", In(intf), ports, started);
    FourClauses(Protocol(protocol), MatchProtocol(protocol), DestinationPort(port), Jump("ACCEPT"), e);
  }

  /** The accepting and deleting instructions of a port, read back, are about its rule. */
  lemma AcceptPortReadAs(intf: string, protocol: string, port: nat, remove: bool) returns (i: Instruction)
    requires intf != "" && InterfaceName(intf) && IsTcpOrUdp(protocol) && port < 0x1_0000
    ensures ReadAs(AcceptPort(intf, protocol, port, remove), i)
    ensures i.append == !remove && i.source == i.destination == None
    ensures forall v6: bool :: RuleOf(i, v6) == AcceptRule(intf, protocol, port, v6)
  {
    var after := InClauses(intf) + PortClauses(protocol, port);
    i := Meaning([], remove, "INPUT", after);
    AcceptPortMeaning(intf, protocol, port, remove);
    PortClausesFine(intf, protocol, port);
    PortClausesPrinted(intf, protocol, port);
    AcceptPortFields(intf, protocol, port, remove);
    hide Parse, IsDeleteMatch, Meaning, Fields, PrintAll, Plain, Writable, AcceptPort, PortClauses, InClauses;
    ParseWithVerb([], remove, "INPUT", after, false);
    ParseWithVerb([], remove, "INPUT", after, true);
    DeleteMatchWithVerb([], remove, "INPUT", after);
  }

  ghost function RedirectClauses(protocol: string, port: nat, to: nat): seq<Clause> {
    [Protocol(protocol), DestinationPort(port), Jump("REDIRECT"), ToPorts([to])]
  }

  lemma RedirectClausesFine(intf: string, protocol: string, port: nat, to: nat)
    requires intf != "" && InterfaceName(intf) && IsTcpOrUdp(protocol) && port < 0x1_0000 && to < 0x1_0000
    ensures forall c :: c in InClauses(intf) + RedirectClauses(protocol, port, to) ==> Plain(c) && Writable(c)
    ensures Plain(Table("nat"))
  {
    forall c | c in InClauses(intf) + RedirectClauses(protocol, port, to) ensures Plain(c) && Writable(c) {
      assert c in InClauses(intf) || c in RedirectClauses(protocol, port, to);
    }
  }

  lemma RedirectClausesPrinted(intf: string, protocol: string, port: nat, to: nat)
    requires intf != ""
    ensures var printed := PrintAll(InClauses(intf) + RedirectClauses(protocol, port, to));
            && printed == InFlagFields(intf) + PrintAll(RedirectClauses(protocol, port, to))
            && 2 < |printed| && printed[0].Word?
  {
    var cs := RedirectClauses(protocol, port, to);
    PrintIf(intf != "*", In(intf), cs);
    FourClauses(Protocol(protocol), DestinationPort(port), Jump("REDIRECT"), ToPorts([to]), EMPTY);
  }

  lemma RedirectFields(intf: string, protocol: string, port: nat, to: nat, remove: bool)
    requires intf != ""
    ensures Redirect(intf, protocol, port, to, remove)
            == Fields([Table("nat")], remove, "PREROUTING", InClauses(intf) + RedirectClauses(protocol, port, to))
    ensures |Redirect(intf, protocol, port, to, remove)| > 3
  {
    RedirectClausesPrinted(intf, protocol, port, to);
    var verb := Verb(remove, "PREROUTING");
    hide Print, InFlagFields, RedirectClauses, InClauses;
    assert [Table("nat"), verb][1..] == [verb];
    OneClause(verb, EMPTY);
    OneClause(Table("nat"), EMPTY);
    assert PrintAll([Table("nat"), verb]) == Print(Table("nat")) + Print(verb);
  }

  lemma RedirectMeaning(intf: string, protocol: string, port: nat, to: nat, remove: bool)
    ensures Meaning([Table("nat")], remove, "PREROUTING", InClauses(intf) + RedirectClauses(protocol, port, to))
            == EMPTY.(table := "nat", append := !remove, chain := "PREROUTING",
                      inInterface := if intf == "*" then "" else intf, protocol := protocol,
                      destinationPort := port, target := "REDIRECT", toPorts := [to])
  {
    var cs := RedirectClauses(protocol, port, to);
    OneClause(Table("nat"), EMPTY);
    var started := Effect(Verb(remove, "PREROUTING"), EMPTY.(table := "nat"));
    var e := Next(intf != "*", In(intf), cs, started);
    FourClauses(Protocol(protocol), DestinationPort(port), Jump("REDIRECT"), ToPorts([to]), e);
    hide Effects, PrintAll, Print;
  }

  lemma RedirectReadAs(intf: string, protocol: string, port: nat, to: nat, remove: bool) returns (i: Instruction)
    requires intf != "" && InterfaceName(intf) && IsTcpOrUdp(protocol) && port < 0x1_0000 && to < 0x1_0000
    ensures ReadAs(Redirect(intf, protocol, port, to, remove), i)
    ensures i.append == !remove && i.source == i.destination == None
    ensures forall v6: bool :: RuleOf(i, v6) == RedirectRule(intf, protocol, port, to, v6)
  {
    var before, after := [Table("nat")], InClauses(intf) + RedirectClauses(protocol, port, to);
    i := Meaning(before, remove, "PREROUTING", after);
    RedirectMeaning(intf, protocol, port, to, remove);
    RedirectClausesFine(intf, protocol, port, to);
    RedirectClausesPrinted(intf, protocol, port, to);
    RedirectFields(intf, protocol, port, to, remove);
    hide Parse, IsDeleteMatch, Meaning, Fields, PrintAll, Plain, Writable, Redirect, RedirectClauses, InClauses;
    assert Writable(Table("nat")) by { TableIsWritable("nat"); }
    ParseWithVerb(before, remove, "PREROUTING", after, false);
    ParseWithVerb(before, remove, "PREROUTING", after, true);
    DeleteMatchWithVerb(before, remove, "PREROUTING", after);
  }

  lemma TableIsWritable(table: string)
    ensures Writable(Table(table))
  {
  }

  ghost function SubnetClauses(source: Prefix, destination: Prefix): seq<Clause> {
    [Source(source), Destination(destination), Jump("ACCEPT")]
  }

  lemma SubnetClausesFine(intf: string, source: Prefix, destination: Prefix)
    requires intf != "" && InterfaceName(intf)
    ensures forall c :: c in OutClauses(intf) + SubnetClauses(source, destination) ==> Plain(c) && Writable(c)
  {
    forall c | c in OutClauses(intf) + SubnetClauses(source, destination) ensures Plain(c) && Writable(c) {
      assert c in OutClauses(intf) || c in SubnetClauses(source, destination);
    }
  }

  lemma OutputToSubnetFields(intf: string, source: Prefix, destination: Prefix, remove: bool)
    requires intf != ""
    ensures OutputToSubnet(intf, source, destination, remove)
            == Fields([], remove, "OUTPUT", OutClauses(intf) + SubnetClauses(source, destination))
    ensures |OutputToSubnet(intf, source, destination, remove)| > 3
    ensures var printed := PrintAll(OutClauses(intf) + SubnetClauses(source, destination));
            2 < |printed| && printed[0].Word?
  {
    var cs := SubnetClauses(source, destination);
    PrintIf(intf != "*", Out(intf), cs);
    ThreeClauses(Source(source), Destination(destination), Jump("ACCEPT"), EMPTY);
    hide PrintAll, Effects;
    PrintedNone();
  }

  lemma PrintedNone()
    ensures PrintAll([]) == []
  {
  }

  lemma OutputToSubnetMeaning(intf: string, source: Prefix, destination: Prefix, remove: bool)
    ensures Meaning([], remove, "OUTPUT", OutClauses(intf) + SubnetClauses(source, destination))
            == EMPTY.(table := "filter", append := !remove, chain := "OUTPUT",
                      outInterface := if intf == "*" then "" else intf,
                      source := Some(source), destination := Some(destination), target := "ACCEPT")
  {
    var cs := SubnetClauses(source, destination);
    var e := Next(intf != "*", Out(intf), cs, Effect(Verb(remove, "OUTPUT"), EMPTY));
    ThreeClauses(Source(source), Destination(destination), Jump("ACCEPT"), e);
  }

  lemma OutputToSubnetReadAs(intf: string, source: Prefix, destination: Prefix, remove: bool) returns (i: Instruction)
    requires intf != "" && InterfaceName(intf)
    ensures ReadAs(OutputToSubnet(intf, source, destination, remove), i)
    ensures i.append == !remove && i.source == Some(source) && i.destination == Some(destination)
    ensures RuleOf(i, source.v6) == SubnetRule(intf, source, destination)
  {
    var after := OutClauses(intf) + SubnetClauses(source, destination);
    i := Meaning([], remove, "OUTPUT", after);
    OutputToSubnetMeaning(intf, source, destination, remove);
    SubnetClausesFine(intf, source, destination);
    OutputToSubnetFields(intf, source, destination, remove);
    hide Parse, IsDeleteMatch, Meaning, Fields, PrintAll, Plain, Writable, OutputToSubnet, SubnetClauses, OutClauses;
    ParseWithVerb([], remove, "OUTPUT", after, false);
    ParseWithVerb([], remove, "OUTPUT", after, true);
    DeleteMatchWithVerb([], remove, "OUTPUT", after);
  }

  // ------------------------------------------------ without an interface name

  lemma NotFlags(protocol: string)
    requires IsTcpOrUdp(protocol)
    ensures FlagOf(Word(protocol)) == UnknownFlag
  {
  }

  /** An empty interface name makes -i swallow the next flag, and the rest cannot be read. */
  lemma EmptyInterfaceMalformed(protocol: string, rest: seq<Field>, i: Instruction, conntrack: bool)
    requires IsTcpOrUdp(protocol) && rest != []
    ensures ParseFrom([Word("-i"), Word("-p"), Word(protocol)] + rest, i, conntrack) == Malformed
  {
    ShortFlags();
    NotFlags(protocol);
    hide FlagOf;
    var fields := [Word("-i"), Word("-p"), Word(protocol)] + rest;
    assert fields[2..] == [Word(protocol)] + rest;
  }

  /** What follows the interface flag of the instructions of a port. */
  ghost function AfterInterface(protocol: string, port: nat): seq<Field> {
    Print(MatchProtocol(protocol)) + (Print(DestinationPort(port)) + Print(Jump("ACCEPT")))
  }

  lemma AcceptWithoutInterface(protocol: string, port: nat, remove: bool)
    ensures AcceptPort("", protocol, port, remove)
            == Print(Verb(remove, "INPUT"))
               + ([Word("-i"), Word("-p"), Word(protocol)] + AfterInterface(protocol, port))
    ensures |AcceptPort("", protocol, port, remove)| > 3 && AfterInterface(protocol, port) != []
  {
    FourClauses(Protocol(protocol), MatchProtocol(protocol), DestinationPort(port), Jump("ACCEPT"), EMPTY);
    hide PrintAll, Effects;
  }

  lemma AcceptPortMalformed(protocol: string, port: nat, remove: bool, conntrack: bool)
    requires IsTcpOrUdp(protocol)
    ensures Parse(AcceptPort("", protocol, port, remove), conntrack) == Malformed
  {
    var verb, rest := Verb(remove, "INPUT"), AfterInterface(protocol, port);
    var tail := [Word("-i"), Word("-p"), Word(protocol)] + rest;
    AcceptWithoutInterface(protocol, port, remove);
    hide ParseFrom, PrintAll, AcceptPort, AfterInterface, Print;
    ParsePrintedClause(verb, tail, EMPTY, conntrack);
    EmptyInterfaceMalformed(protocol, rest, Effect(verb, EMPTY), conntrack);
  }

  lemma AcceptPortNeedsInterface(protocol: string, port: nat, remove: bool, rs: Ruleset, v6: bool, hasNat: bool)
    requires IsTcpOrUdp(protocol)
    ensures Exec(rs, AcceptPort("", protocol, port, remove), v6, hasNat) == None
  {
    AcceptPortMalformed(protocol, port, remove, false);
    AcceptPortMalformed(protocol, port, remove, true);
    AcceptWithoutInterface(protocol, port, remove);
    hide Parse, AcceptPort, IsDeleteMatch, AfterInterface, Print;
  }

  lemma RedirectWithoutInterface(protocol: string, port: nat, to: nat, remove: bool)
    ensures Redirect("", protocol, port, to, remove)
            == Print(Table("nat")) + (Print(Verb(remove, "PREROUTING"))
               + ([Word("-i"), Word("-p"), Word(protocol)]
                  + (Print(DestinationPort(port)) + (Print(Jump("REDIRECT")) + Print(ToPorts([to]))))))
  {
    var table, verb := Table("nat"), Verb(remove, "PREROUTING");
    FourClauses(Protocol(protocol), DestinationPort(port), Jump("REDIRECT"), ToPorts([to]), EMPTY);
    assert [table, verb][1..] == [verb];
    OneClause(verb, EMPTY);
    hide PrintAll;
  }

  lemma RedirectNeedsInterface(protocol: string, port: nat, to: nat, remove: bool, rs: Ruleset, v6: bool, hasNat: bool)
    requires IsTcpOrUdp(protocol)
    ensures Exec(rs, Redirect("", protocol, port, to, remove), v6, hasNat) == None
  {
    var table, verb := Table("nat"), Verb(remove, "PREROUTING");
    var rest := Print(DestinationPort(port)) + (Print(Jump("REDIRECT")) + Print(ToPorts([to])));
    var tail := [Word("-i"), Word("-p"), Word(protocol)] + rest;
    RedirectWithoutInterface(protocol, port, to, remove);
    forall conntrack: bool ensures Parse(Redirect("", protocol, port, to, remove), conntrack) == Malformed {
      hide ParseFrom, Redirect;
      ParsePrintedClause(table, Print(verb) + tail, EMPTY, conntrack);
      ParsePrintedClause(verb, tail, Effect(table, EMPTY), conntrack);
      EmptyInterfaceMalformed(protocol, rest, Effect(verb, Effect(table, EMPTY)), conntrack);
    }
    assert |Redirect("", protocol, port, to, remove)| > 3;
    hide Parse, Redirect;
  }

  // --------------------------------------------------- whole transactions

  /** The rules of both families change by the given rules, and nothing else does. */
  ghost predicate ChangedBy(p: Platform, k: Kernel, next: Kernel,
                            change4: multiset<Located>, change6: multiset<Located>, remove: bool) {
    && multiset(next.v4.rules) == Changed(multiset(k.v4.rules), change4, remove)
    && multiset(next.v6.rules) == (if p.ip6Tables then Changed(multiset(k.v6.rules), change6, remove)
                                   else multiset(k.v6.rules))
    && next.v4.policies == k.v4.policies && next.v6.policies == k.v6.policies
    && WellFormed(next)
  }

  lemma NothingChanged(p: Platform, k: Kernel, remove: bool)
    requires WellFormed(k)
    ensures ChangedBy(p, k, k, multiset{}, multiset{}, remove)
  {
  }

  lemma ChangedTwice(m: multiset<Located>, a: multiset<Located>, b: multiset<Located>, remove: bool)
    ensures Changed(Changed(m, a, remove), b, remove) == Changed(m, a + b, remove)
  {
  }

  /** The instruction x appends the rule, or deletes one such rule with remove set. */
  ghost predicate Does(x: Instr, rule: Located, remove: bool) {
    exists i :: ReadAs(x.fields, i) && OfFamily(i, x.v6) && i.append == !remove && RuleOf(i, x.v6) == rule
                && (remove ==> PrefixesMasked(i))
  }

  lemma ReadAsDoes(x: Instr, i: Instruction, rule: Located, remove: bool)
    requires ReadAs(x.fields, i) && OfFamily(i, x.v6) && i.append == !remove && RuleOf(i, x.v6) == rule
    requires remove ==> PrefixesMasked(i)
    ensures Does(x, rule, remove)
  {
  }

  ghost function One(rule: Located, wanted: bool): multiset<Located> {
    if wanted then multiset{rule} else multiset{}
  }

  lemma RunChangesV4(p: Platform, k: Kernel, x: Instr, i: Instruction, remove: bool)
    requires ReadAs(x.fields, i) && OfFamily(i, false) && i.append == !remove && (remove ==> PrefixesMasked(i))
    requires !x.v6 && Run(p, k, x).Some? && WellFormed(k)
    ensures ChangedBy(p, k, Run(p, k, x).value, multiset{RuleOf(i, false)}, multiset{}, remove)
  {
    hide ReadAs, Exec, RuleOf, OfFamily, AllListed, PrefixesMasked;
    ExecChanges(k.v4, x.fields, i, false, true);
  }

  lemma RunChangesV6(p: Platform, k: Kernel, x: Instr, i: Instruction, remove: bool)
    requires ReadAs(x.fields, i) && OfFamily(i, true) && i.append == !remove && (remove ==> PrefixesMasked(i))
    requires x.v6 && Run(p, k, x).Some? && WellFormed(k)
    ensures ChangedBy(p, k, Run(p, k, x).value, multiset{}, multiset{RuleOf(i, true)}, remove)
  {
    hide ReadAs, Exec, RuleOf, OfFamily, AllListed, PrefixesMasked;
    if p.ip6Tables {
      ExecChanges(k.v6, x.fields, i, true, p.ip6Nat);
    }
  }

  lemma RunChanges(p: Platform, k: Kernel, x: Instr, rule: Located, remove: bool)
    requires Does(x, rule, remove) && Run(p, k, x).Some? && WellFormed(k)
    ensures ChangedBy(p, k, Run(p, k, x).value, One(rule, !x.v6), One(rule, x.v6), remove)
  {
    var i :| ReadAs(x.fields, i) && OfFamily(i, x.v6) && i.append == !remove && RuleOf(i, x.v6) == rule
             && (remove ==> PrefixesMasked(i));
    hide ReadAs, Run, RuleOf, OfFamily, ChangedBy, WellFormed, PrefixesMasked;
    if x.v6 {
      RunChangesV6(p, k, x, i, remove);
    } else {
      RunChangesV4(p, k, x, i, remove);
    }
  }

  /**
    One more instruction of a transaction: done4 and done6 are the rules changed
    since it began, and next4 and next6 those changed with this instruction.
   */
  lemma Advance(p: Platform, k: Kernel, mid: Kernel, xs: seq<Instr>, j: nat, rule: Located, remove: bool,
                done4: multiset<Located>, done6: multiset<Located>,
                next4: multiset<Located>, next6: multiset<Located>) returns (next: Kernel)
    requires j < |xs| && Does(xs[j], rule, remove) && RunAll(p, mid, xs[j..]).Some? && WellFormed(mid)
    requires ChangedBy(p, k, mid, done4, done6, remove)
    requires next4 == done4 + One(rule, !xs[j].v6) && next6 == done6 + One(rule, xs[j].v6)
    ensures RunAll(p, next, xs[j + 1..]) == RunAll(p, mid, xs[j..]) && WellFormed(next)
    ensures ChangedBy(p, k, next, next4, next6, remove)
  {
    hide Does, Run, One, Changed, WellFormed;
    assert xs[j..][1..] == xs[j + 1..];
    next := Run(p, mid, xs[j]).value;
    RunChanges(p, mid, xs[j], rule, remove);
    ChangedTwice(multiset(k.v4.rules), done4, One(rule, !xs[j].v6), remove);
    ChangedTwice(multiset(k.v6.rules), done6, One(rule, xs[j].v6), remove);
  }

  lemma Advance4(p: Platform, k: Kernel, mid: Kernel, xs: seq<Instr>, j: nat, rule: Located, remove: bool,
                 done4: multiset<Located>, done6: multiset<Located>, next4: multiset<Located>) returns (next: Kernel)
    requires j < |xs| && !xs[j].v6 && Does(xs[j], rule, remove) && RunAll(p, mid, xs[j..]).Some? && WellFormed(mid)
    requires ChangedBy(p, k, mid, done4, done6, remove) && next4 == done4 + multiset{rule}
    ensures RunAll(p, next, xs[j + 1..]) == RunAll(p, mid, xs[j..]) && WellFormed(next)
    ensures ChangedBy(p, k, next, next4, done6, remove)
  {
    hide Does, RunAll, WellFormed, ChangedBy;
    next := Advance(p, k, mid, xs, j, rule, remove, done4, done6, next4, done6);
  }

  lemma Advance6(p: Platform, k: Kernel, mid: Kernel, xs: seq<Instr>, j: nat, rule: Located, remove: bool,
                 done4: multiset<Located>, done6: multiset<Located>, next6: multiset<Located>) returns (next: Kernel)
    requires j < |xs| && xs[j].v6 && Does(xs[j], rule, remove) && RunAll(p, mid, xs[j..]).Some? && WellFormed(mid)
    requires ChangedBy(p, k, mid, done4, done6, remove) && next6 == done6 + multiset{rule}
    ensures RunAll(p, next, xs[j + 1..]) == RunAll(p, mid, xs[j..]) && WellFormed(next)
    ensures ChangedBy(p, k, next, done4, next6, remove)
  {
    hide Does, RunAll, WellFormed, ChangedBy;
    next := Advance(p, k, mid, xs, j, rule, remove, done4, done6, done4, next6);
  }

  lemma Finished(p: Platform, k: Kernel, xs: seq<Instr>)
    ensures RunAll(p, k, xs[|xs|..]) == Some(k)
  {
  }

  ghost function AcceptInstrs(intf: string, port: nat, remove: bool): seq<Instr> {
    Both([AcceptPort(intf, "tcp", port, remove), AcceptPort(intf, "udp", port, remove)])
  }

  lemma AcceptDoes(v6: bool, intf: string, protocol: string, port: nat, remove: bool)
    requires intf != "" && InterfaceName(intf) && IsTcpOrUdp(protocol) && port < 0x1_0000
    ensures Does(Instr(v6, AcceptPort(intf, protocol, port, remove)), AcceptRule(intf, protocol, port, v6), remove)
  {
    var i := AcceptPortReadAs(intf, protocol, port, remove);
    hide ReadAs, AcceptPort;
    ReadAsDoes(Instr(v6, AcceptPort(intf, protocol, port, remove)), i, AcceptRule(intf, protocol, port, v6), remove);
  }

  lemma RedirectDoes(v6: bool, intf: string, protocol: string, port: nat, to: nat, remove: bool)
    requires intf != "" && InterfaceName(intf) && IsTcpOrUdp(protocol) && port < 0x1_0000 && to < 0x1_0000
    ensures Does(Instr(v6, Redirect(intf, protocol, port, to, remove)), RedirectRule(intf, protocol, port, to, v6), remove)
  {
    var i := RedirectReadAs(intf, protocol, port, to, remove);
    hide ReadAs, Redirect;
    ReadAsDoes(Instr(v6, Redirect(intf, protocol, port, to, remove)), i, RedirectRule(intf, protocol, port, to, v6), remove);
  }

  lemma AcceptInstrsAre(intf: string, port: nat, remove: bool)
    ensures AcceptInstrs(intf, port, remove)
            == [Instr(false, AcceptPort(intf, "tcp", port, remove)), Instr(true, AcceptPort(intf, "tcp", port, remove)),
                Instr(false, AcceptPort(intf, "udp", port, remove)), Instr(true, AcceptPort(intf, "udp", port, remove))]
  {
    var tcp, udp := AcceptPort(intf, "tcp", port, remove), AcceptPort(intf, "udp", port, remove);
    hide AcceptPort;
    assert [tcp, udp][1..] == [udp] && Both([udp]) == [Instr(false, udp), Instr(true, udp)];
  }

  lemma AcceptNeedsInterface(p: Platform, k: Kernel, port: nat, remove: bool)
    ensures RunAll(p, k, AcceptInstrs("", port, remove)) == None
  {
    AcceptInstrsAre("", port, remove);
    AcceptPortNeedsInterface("tcp", port, remove, k.v4, false, true);
  }

  /** Four instructions, for each family in turn. */
  lemma FourChanges(p: Platform, k: Kernel, xs: seq<Instr>, a4: Located, a6: Located, b4: Located, b6: Located,
                    remove: bool)
    requires |xs| == 4 && !xs[0].v6 && xs[1].v6 && !xs[2].v6 && xs[3].v6
    requires Does(xs[0], a4, remove) && Does(xs[1], a6, remove) && Does(xs[2], b4, remove) && Does(xs[3], b6, remove)
    requires RunAll(p, k, xs).Some? && WellFormed(k)
    ensures ChangedBy(p, k, RunAll(p, k, xs).value, multiset{a4, b4}, multiset{a6, b6}, remove)
  {
    hide *;
    var none: multiset<Located> := multiset{};
    NothingChanged(p, k, remove);
    assert xs[0..] == xs;
    var m := Advance4(p, k, k, xs, 0, a4, remove, none, none, multiset{a4});
    m := Advance6(p, k, m, xs, 1, a6, remove, multiset{a4}, none, multiset{a6});
    m := Advance4(p, k, m, xs, 2, b4, remove, multiset{a4}, multiset{a6}, multiset{a4, b4});
    m := Advance6(p, k, m, xs, 3, b6, remove, multiset{a4, b4}, multiset{a6}, multiset{a6, b6});
    Finished(p, m, xs);
  }

  /** A successful AcceptInputToPort adds, or takes away, exactly the rules of that port. */
  lemma AcceptPortEffect(p: Platform, k: Kernel, intf: string, port: nat, remove: bool)
    requires InterfaceName(intf) && port < 0x1_0000 && WellFormed(k)
    requires RunAll(p, k, AcceptInstrs(intf, port, remove)).Some?
    ensures intf != ""
    ensures ChangedBy(p, k, RunAll(p, k, AcceptInstrs(intf, port, remove)).value,
                      AcceptRules(intf, port, false), AcceptRules(intf, port, true), remove)
  {
    hide AcceptPort, AcceptInstrs, RunAll, WellFormed, Does, ChangedBy, AcceptRule, InterfaceName, Changed;
    if intf == "" {
      AcceptNeedsInterface(p, k, port, remove);
    } else {
      AcceptInstrsAre(intf, port, remove);
      AcceptDoes(false, intf, "tcp", port, remove);
      AcceptDoes(true, intf, "tcp", port, remove);
      AcceptDoes(false, intf, "udp", port, remove);
      AcceptDoes(true, intf, "udp", port, remove);
      FourChanges(p, k, AcceptInstrs(intf, port, remove), AcceptRule(intf, "tcp", port, false),
                  AcceptRule(intf, "tcp", port, true), AcceptRule(intf, "udp", port, false),
                  AcceptRule(intf, "udp", port, true), remove);
    }
  }

  // ------------------------------------------------------- redirections

  ghost function RedirectInstrs(intf: string, port: nat, to: nat, remove: bool, v6: bool): seq<Instr> {
    var list := RedirectAndAccept(intf, port, to, remove);
    [Instr(v6, list[0]), Instr(v6, list[1]), Instr(v6, list[2]), Instr(v6, list[3])]
  }

  lemma RedirectInstrsAre(intf: string, port: nat, to: nat, remove: bool)
    ensures OnlyV4(RedirectAndAccept(intf, port, to, remove)) == RedirectInstrs(intf, port, to, remove, false)
    ensures OnlyV6(RedirectAndAccept(intf, port, to, remove)) == RedirectInstrs(intf, port, to, remove, true)
  {
  }

  lemma RedirectionNeedsInterface(p: Platform, k: Kernel, port: nat, to: nat, remove: bool)
    ensures RunAll(p, k, RedirectInstrs("", port, to, remove, false)) == None
  {
    hide Redirect, AcceptPort;
    RedirectNeedsInterface("tcp", port, to, remove, k.v4, false, true);
  }

  /** The first j instructions, all for one family, were run and changed the given rules. */
  ghost predicate Halfway(p: Platform, k: Kernel, mid: Kernel, xs: seq<Instr>, j: nat, done: multiset<Located>,
                          remove: bool, v6: bool) {
    && j <= |xs| && WellFormed(mid) && RunAll(p, mid, xs[j..]) == RunAll(p, k, xs)
    && ChangedBy(p, k, mid, if v6 then multiset{} else done, if v6 then done else multiset{}, remove)
  }

  lemma HalfwayAtFirst(p: Platform, k: Kernel, xs: seq<Instr>, remove: bool, v6: bool)
    requires WellFormed(k)
    ensures Halfway(p, k, k, xs, 0, multiset{}, remove, v6)
  {
    NothingChanged(p, k, remove);
    hide WellFormed, ChangedBy;
    assert xs[0..] == xs;
  }

  lemma HalfwayOneMore(p: Platform, k: Kernel, mid: Kernel, xs: seq<Instr>, j: nat, done: multiset<Located>,
                       remove: bool,
                       v6: bool, rule: Located, more: multiset<Located>) returns (next: Kernel)
    requires Halfway(p, k, mid, xs, j, done, remove, v6) && j < |xs| && xs[j].v6 == v6
    requires Does(xs[j], rule, remove) && RunAll(p, k, xs).Some? && more == done + multiset{rule}
    ensures Halfway(p, k, next, xs, j + 1, more, remove, v6)
  {
    hide RunAll, WellFormed, Does, ChangedBy;
    var none: multiset<Located> := multiset{};
    next := Advance(p, k, mid, xs, j, rule, remove, if v6 then none else done, if v6 then done else none,
                    if v6 then none else more, if v6 then more else none);
  }

  lemma HalfwayAtLast(p: Platform, k: Kernel, mid: Kernel, xs: seq<Instr>, rules: multiset<Located>, remove: bool,
                      v6: bool)
    requires Halfway(p, k, mid, xs, |xs|, rules, remove, v6)
    ensures RunAll(p, k, xs) == Some(mid)
    ensures ChangedBy(p, k, mid, if v6 then multiset{} else rules, if v6 then rules else multiset{}, remove)
  {
    Finished(p, mid, xs);
    hide RunAll, WellFormed, ChangedBy;
  }

  /** The four instructions of a redirection for one family. */
  lemma RedirectFamilyEffect(p: Platform, k: Kernel, next: Kernel, intf: string, port: nat, to: nat, remove: bool,
                             v6: bool)
    requires intf != "" && InterfaceName(intf) && port < 0x1_0000 && to < 0x1_0000 && WellFormed(k)
    requires RunAll(p, k, RedirectInstrs(intf, port, to, remove, v6)) == Some(next)
    ensures var rules := RedirectRules(intf, port, to, v6);
            ChangedBy(p, k, next, if v6 then multiset{} else rules, if v6 then rules else multiset{}, remove)
  {
    var xs := RedirectInstrs(intf, port, to, remove, v6);
    hide AcceptPort, Redirect, RunAll, WellFormed, Does, ChangedBy, AcceptRule, RedirectRule, Halfway, InterfaceName;
    var a, b := RedirectRule(intf, "tcp", port, to, v6), AcceptRule(intf, "tcp", to, v6);
    var c, d := RedirectRule(intf, "udp", port, to, v6), AcceptRule(intf, "udp", to, v6);
    HalfwayAtFirst(p, k, xs, remove, v6);
    RedirectDoes(v6, intf, "tcp", port, to, remove);
    var m := HalfwayOneMore(p, k, k, xs, 0, multiset{}, remove, v6, a, multiset{a});
    AcceptDoes(v6, intf, "tcp", to, remove);
    m := HalfwayOneMore(p, k, m, xs, 1, multiset{a}, remove, v6, b, multiset{a, b});
    RedirectDoes(v6, intf, "udp", port, to, remove);
    m := HalfwayOneMore(p, k, m, xs, 2, multiset{a, b}, remove, v6, c, multiset{a, b, c});
    AcceptDoes(v6, intf, "udp", to, remove);
    m := HalfwayOneMore(p, k, m, xs, 3, multiset{a, b, c}, remove, v6, d, multiset{a, b, c, d});
    HalfwayAtLast(p, k, m, xs, RedirectRules(intf, port, to, v6), remove, v6);
  }

  /** A redirection with all its instructions applied adds, or takes away, exactly its rules. */
  lemma RedirectEffect(p: Platform, k: Kernel, intf: string, port: nat, to: nat, remove: bool)
    requires InterfaceName(intf) && port < 0x1_0000 && to < 0x1_0000 && WellFormed(k)
    requires RunAll(p, k, RedirectInstrs(intf, port, to, remove, false) + RedirectInstrs(intf, port, to, remove, true)).Some?
    ensures intf != ""
    ensures ChangedBy(p, k,
                      RunAll(p, k, RedirectInstrs(intf, port, to, remove, false)
                                   + RedirectInstrs(intf, port, to, remove, true)).value,
                      RedirectRules(intf, port, to, false), RedirectRules(intf, port, to, true), remove)
  {
    var xs4, xs6 := RedirectInstrs(intf, port, to, remove, false), RedirectInstrs(intf, port, to, remove, true);
    hide RedirectInstrs, RedirectRules, RunAll, InterfaceName, Changed, Listed;
    RunAllConcat(p, k, xs4, xs6);
    if intf == "" {
      RedirectionNeedsInterface(p, k, port, to, remove);
    }
    var mid := RunAll(p, k, xs4).value;
    RedirectFamilyEffect(p, k, mid, intf, port, to, remove, false);
    RedirectFamilyEffect(p, mid, RunAll(p, mid, xs6).value, intf, port, to, remove, true);
    ChangedByBoth(p, k, mid, RunAll(p, mid, xs6).value, RedirectRules(intf, port, to, false),
                  RedirectRules(intf, port, to, true), remove);
  }

  /** A change of the IPv4 rules and then one of the IPv6 rules. */
  lemma ChangedByBoth(p: Platform, k: Kernel, mid: Kernel, next: Kernel,
                      rules4: multiset<Located>, rules6: multiset<Located>, remove: bool)
    requires ChangedBy(p, k, mid, rules4, multiset{}, remove) && ChangedBy(p, mid, next, multiset{}, rules6, remove)
    ensures ChangedBy(p, k, next, rules4, rules6, remove)
  {
    hide WellFormed;
  }

  // -------------------------------------------- redirections without IPv6 NAT

  /** The first instruction for ip6tables needs the nat table. */
  lemma NeedsNat(p: Platform, k: Kernel, intf: string, port: nat, to: nat, remove: bool)
    requires intf != "" && InterfaceName(intf) && port < 0x1_0000 && to < 0x1_0000 && !NatAvailable(p)
    ensures RunAll(p, k, RedirectInstrs(intf, port, to, remove, true)) == None
  {
    var i := RedirectReadAs(intf, "tcp", port, to, remove);
    assert RuleOf(i, true).table == "nat";
    hide Parse, IsDeleteMatch, Redirect, AcceptPort, OfFamily;
    assert Exec(k.v6, Redirect(intf, "tcp", port, to, remove), true, false) == None;
  }

  /**
    A redirection that is reported as a success was applied exactly if there is IPv6 NAT
    wherever there is ip6tables; otherwise nothing was done.
   */
  lemma RedirectAppliedIff(p: Platform, k: Kernel, next: Kernel, intf: string, port: nat, to: nat, remove: bool)
    requires Redirects(p, k, next, intf, port, to, remove)
    requires InterfaceName(intf) && port < 0x1_0000 && to < 0x1_0000
    ensures intf != ""
    ensures var list := RedirectAndAccept(intf, port, to, remove);
            RunAll(p, k, OnlyV4(list) + OnlyV6(list)) == Some(next) <==> NatAvailable(p)
    ensures !NatAvailable(p) ==> next == k
  {
    RedirectInstrsAre(intf, port, to, remove);
    var xs4, xs6 := RedirectInstrs(intf, port, to, remove, false), RedirectInstrs(intf, port, to, remove, true);
    hide RedirectInstrs, RedirectAndAccept, OnlyV4, OnlyV6, RunAll, InterfaceName;
    RunAllConcat(p, k, xs4, xs6);
    if intf == "" {
      RedirectionNeedsInterface(p, k, port, to, remove);
    } else if !NatAvailable(p) && RunAll(p, k, xs4).Some? {
      NeedsNat(p, RunAll(p, k, xs4).value, intf, port, to, remove);
    }
  }

  lemma Appends(p: Platform, k: Kernel, x: Instr, i: Instruction)
    requires ReadAs(x.fields, i) && i.append && i.source == i.destination == None && !x.v6
    ensures Run(p, k, x).Some?
  {
    hide Parse, IsDeleteMatch;
  }

  lemma {:induction false} AllAppend(p: Platform, k: Kernel, xs: seq<Instr>)
    requires forall x :: x in xs ==> !x.v6 && exists i :: ReadAs(x.fields, i) && i.append && i.source == i.destination == None
    ensures RunAll(p, k, xs).Some?
    decreases |xs|
  {
    hide ReadAs, Run;
    if xs != [] {
      assert xs[0] in xs;
      var i :| ReadAs(xs[0].fields, i) && i.append && i.source == i.destination == None;
      Appends(p, k, xs[0], i);
      AllAppend(p, Run(p, k, xs[0]).value, xs[1..]);
    }
  }

  /** Without IPv6 NAT, adding any redirection can be reported as a success, with nothing done. */
  lemma SucceedsWithoutNat(p: Platform, k: Kernel, intf: string, port: nat, to: nat)
    requires p.ip6Tables && !p.ip6Nat
    requires intf != "" && InterfaceName(intf) && port < 0x1_0000 && to < 0x1_0000
    ensures Redirects(p, k, k, intf, port, to, false)
  {
    RedirectInstrsAre(intf, port, to, false);
    var xs := RedirectInstrs(intf, port, to, false, false);
    hide RunAll, OnlyV4, OnlyV6, ReadAs, Redirect, AcceptPort, InterfaceName;
    forall x | x in xs
      ensures !x.v6 && exists i :: ReadAs(x.fields, i) && i.append && i.source == i.destination == None
    {
      var protocol := if x == xs[0] || x == xs[1] then "tcp" else "udp";
      var i := RedirectReadAs(intf, protocol, port, to, false);
      var j := AcceptPortReadAs(intf, protocol, to, false);
    }
    AllAppend(p, k, xs);
  }
}
