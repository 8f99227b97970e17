/** An instruction and the one that takes it back: what is left of the chain. */
module RuleRoundTrip {
  import opened Wrappers
  import opened IptablesRules
  import opened IptablesKernel
  import opened Iptables
  import opened PortRules

  /** A clause that is no verb, fits its machine integers, and does not have the text of a delete flag. */
  ghost predicate CalmClause(c: Clause) {
    Plain(c) && Writable(c) && !c.Append?
  }

  /** Any such clauses around the verb of an instruction. */
  ghost predicate Written(before: seq<Clause>, chain: string, after: seq<Clause>) {
    && (forall c :: c in before || c in after ==> CalmClause(c))
    && chain != "" && PlainWord(chain)
  }

  lemma EffectKeepsVerb(c: Clause, i: Instruction, append: bool)
    requires !c.Append? && !c.Delete?
    ensures Effect(c, i.(append := append)) == Effect(c, i).(append := append) && Effect(c, i).append == i.append
    ensures Effect(c, i).chain == i.chain
  {
  }

  lemma {:induction false} VerbStays(cs: seq<Clause>, i: Instruction, append: bool)
    requires forall c :: c in cs ==> !c.Append? && !c.Delete?
    ensures Effects(cs, i.(append := append)) == Effects(cs, i).(append := append)
    ensures Effects(cs, i).append == i.append
  {
    if cs != [] {
      hide Effect;
      EffectKeepsVerb(cs[0], i, append);
      VerbStays(cs[1..], Effect(cs[0], i), append);
    }
  }

  /** Both instructions are about the same rule. */
  lemma SameRule(before: seq<Clause>, chain: string, after: seq<Clause>)
    requires Written(before, chain, after)
    ensures Meaning(before, true, chain, after) == Meaning(before, false, chain, after).(append := false)
    ensures Meaning(before, false, chain, after).append
  {
    forall c | c in after ensures !c.Append? && !c.Delete? {
      assert CalmClause(c);
    }
    var i := Effect(Verb(false, chain), Effects(before, EMPTY));
    assert Effect(Verb(true, chain), Effects(before, EMPTY)) == i.(append := false);
    VerbStays(after, i, false);
  }

  lemma {:induction false} ChainStays(cs: seq<Clause>, i: Instruction)
    requires forall c :: c in cs ==> !c.Append? && !c.Delete?
    ensures Effects(cs, i).chain == i.chain
  {
    if cs != [] {
      hide Effect;
      EffectKeepsVerb(cs[0], i, true);
      ChainStays(cs[1..], Effect(cs[0], i));
    }
  }

  lemma ReadAsMeaning(before: seq<Clause>, remove: bool, chain: string, after: seq<Clause>)
    requires Written(before, chain, after)
    ensures ReadAs(Fields(before, remove, chain, after), Meaning(before, remove, chain, after))
  {
    SameRule(before, chain, after);
    ParseWithVerb(before, remove, chain, after, false);
    ParseWithVerb(before, remove, chain, after, true);
    DeleteMatchWithVerb(before, remove, chain, after);
    forall c | c in after ensures !c.Append? && !c.Delete? {
      assert CalmClause(c);
    }
    ChainStays(after, Effect(Verb(remove, chain), Effects(before, EMPTY)));
    BeginsWithFlag(before);
    hide Parse, IsDeleteMatch, PrintAll, Effects, Plain, Writable;
  }

  lemma {:induction false} WithoutConcat(rules: seq<Located>, l: Located)
    ensures Without(rules + [l], l) == Without(rules, l)
  {
    if rules == [] {
      assert rules + [l] == [l];
    } else {
      assert (rules + [l])[1..] == rules[1..] + [l];
      WithoutConcat(rules[1..], l);
    }
  }

  lemma AppendsRule(rs: Ruleset, next: Ruleset, fields: seq<Field>, i: Instruction, v6: bool, hasNat: bool)
    requires ReadAs(fields, i) && i.append && Exec(rs, fields, v6, hasNat) == Some(next)
    ensures next == rs.(rules := rs.rules + [RuleOf(i, v6)])
  {
    hide Parse, IsDeleteMatch;
  }

  lemma DeletesRule(rs: Ruleset, next: Ruleset, fields: seq<Field>, i: Instruction, v6: bool, hasNat: bool)
    requires ReadAs(fields, i) && !i.append && Exec(rs, fields, v6, hasNat) == Some(next)
    ensures next == rs.(rules := DeleteFirst(rs.rules, i))
  {
    hide Parse, IsDeleteMatch;
  }

  /**
    Appending a rule and running the matching delete: all other rules are in the same order as
    before, and the rules are the same as a multiset exactly if the prefixes were masked. If they
    were not, the delete finds nothing, and the rule stays.
   */
  lemma AppendThenDelete(rs: Ruleset, mid: Ruleset, next: Ruleset, before: seq<Clause>, chain: string,
                         after: seq<Clause>, v6: bool, hasNat: bool)
    requires Written(before, chain, after) && AllListed(rs.rules, v6)
    requires OfFamily(Meaning(before, false, chain, after), v6)
    requires Exec(rs, Fields(before, false, chain, after), v6, hasNat) == Some(mid)
    requires Exec(mid, Fields(before, true, chain, after), v6, hasNat) == Some(next)
    ensures var i := Meaning(before, false, chain, after);
            && mid == rs.(rules := rs.rules + [RuleOf(i, v6)])
            && next.policies == rs.policies
            && Without(next.rules, RuleOf(i, v6)) == Without(rs.rules, RuleOf(i, v6))
            && (multiset(next.rules) == multiset(rs.rules) <==> PrefixesMasked(i))
            && (!PrefixesMasked(i) ==> next == mid)
  {
    var i := Meaning(before, false, chain, after);
    SameRule(before, chain, after);
    ReadAsMeaning(before, false, chain, after);
    ReadAsMeaning(before, true, chain, after);
    hide Meaning, Written, Fields, ReadAs, Exec;
    AppendsRule(rs, mid, Fields(before, false, chain, after), i, v6, hasNat);
    DeletesRule(mid, next, Fields(before, true, chain, after), i.(append := false), v6, hasNat);
    hide RuleOf, OfFamily, PrefixesMasked;
    AppendedThenDeleted(rs.rules, i, v6);
  }

  lemma AppendedThenDeleted(rules: seq<Located>, i: Instruction, v6: bool)
    requires OfFamily(i, v6) && AllListed(rules, v6)
    ensures var rule, next := RuleOf(i, v6), DeleteFirst(rules + [RuleOf(i, v6)], i.(append := false));
            && Without(next, rule) == Without(rules, rule)
            && (multiset(next) == multiset(rules) <==> PrefixesMasked(i))
            && (!PrefixesMasked(i) ==> next == rules + [rule])
  {
    var rule, out := RuleOf(i, v6), i.(append := false);
    MadeIsListed(i, v6);
    assert OfFamily(out, v6) && RuleOf(out, v6) == rule && (PrefixesMasked(out) <==> PrefixesMasked(i));
    hide RuleOf, OfFamily, Listed, PrefixesMasked;
    DeleteTakesOne(rules + [rule], out, v6);
    DeleteKeepsOthers(rules + [rule], out, v6);
    WithoutConcat(rules, rule);
    assert |multiset(rules + [rule])| == |multiset(rules)| + 1;
  }

  /** Deleting a rule that is not there, or one with a prefix that is not masked, changes nothing. */
  lemma DeleteAbsent(rs: Ruleset, next: Ruleset, before: seq<Clause>, chain: string, after: seq<Clause>, v6: bool,
                     hasNat: bool)
    requires Written(before, chain, after) && AllListed(rs.rules, v6)
    requires OfFamily(Meaning(before, true, chain, after), v6)
    requires Exec(rs, Fields(before, true, chain, after), v6, hasNat) == Some(next)
    ensures var i := Meaning(before, true, chain, after);
            next == rs <==> RuleOf(i, v6) !in rs.rules || !PrefixesMasked(i)
  {
    var i := Meaning(before, true, chain, after);
    SameRule(before, chain, after);
    ReadAsMeaning(before, true, chain, after);
    hide Meaning, Written, Fields, ReadAs, Exec;
    DeletesRule(rs, next, Fields(before, true, chain, after), i, v6, hasNat);
    hide RuleOf, OfFamily, PrefixesMasked;
    if PrefixesMasked(i) && RuleOf(i, v6) in rs.rules {
      DeleteTakesOne(rs.rules, i, v6);
      assert multiset(next.rules)[RuleOf(i, v6)] == multiset(rs.rules)[RuleOf(i, v6)] - 1;
    } else {
      NothingEqual(rs.rules, i, v6);
    }
  }

  lemma {:induction false} NothingEqual(rules: seq<Located>, i: Instruction, v6: bool)
    requires OfFamily(i, v6) && AllListed(rules, v6) && (RuleOf(i, v6) !in rules || !PrefixesMasked(i))
    ensures DeleteFirst(rules, i) == rules
  {
    if rules != [] {
      EqualIffSameRule(i, v6, rules[0].table, rules[0].chain, rules[0].rule);
      assert rules[0] == Located(rules[0].table, rules[0].chain, rules[0].rule);
      hide EqualToRule, RuleOf, Listed, PrefixesMasked, OfFamily;
      NothingEqual(rules[1..], i, v6);
    }
  }

  // ------------------------------------------------------- records, all of them

  /** None of the words of a record is a delete flag. */
  ghost predicate PlainRecord(i: Instruction) {
    && PlainWord(i.table) && i.chain != "" && PlainWord(i.chain) && PlainWord(i.target) && PlainWord(i.protocol)
    && PlainWord(i.inInterface) && PlainWord(i.outInterface)
  }

  ghost function BeforeVerb(i: Instruction): seq<Clause> {
    If(i.table != "filter", Table(i.table))
  }

  ghost function AfterVerb(i: Instruction): seq<Clause> {
    If(i.inInterface != "", In(i.inInterface)) + (If(i.outInterface != "", Out(i.outInterface)) + MatchClauses(i))
  }

  /** A record in canonical form has its verb right after the table. */
  lemma RecordFields(i: Instruction)
    ensures PrintAll(ClausesOf(i)) == Fields(BeforeVerb(i), !i.append, i.chain, AfterVerb(i))
  {
    hide PrintAll, Print, MatchClauses;
    var after := AfterVerb(i);
    PrintIf(i.table != "filter", Table(i.table), If(i.append, Append(i.chain)) + (If(!i.append, Delete(i.chain)) + after));
    PrintIf(i.append, Append(i.chain), If(!i.append, Delete(i.chain)) + after);
    PrintIf(!i.append, Delete(i.chain), after);
    PrintIf(i.table != "filter", Table(i.table), []);
    assert If(i.table != "filter", Table(i.table)) + [] == BeforeVerb(i);
    PrintedNone();
  }

  ghost predicate Calm(cs: seq<Clause>) {
    forall c :: c in cs ==> CalmClause(c)
  }

  lemma CalmIf(written: bool, c: Clause, rest: seq<Clause>)
    requires Calm(rest) && (written ==> CalmClause(c))
    ensures Calm(If(written, c) + rest)
  {
    hide CalmClause;
  }

  lemma TargetsCalm(i: Instruction)
    requires PlainRecord(i) && DeleteParsable(i)
    ensures Calm(FlagClauses(i))
  {
    CalmIf(i.toPorts != [], ToPorts(i.toPorts), []);
    CalmIf(i.target != "", Jump(i.target), If(i.toPorts != [], ToPorts(i.toPorts)) + []);
    hide Calm;
    assert Calm(TargetClauses(i));
    hide TargetClauses;
    CalmIf(i.markInvert, NotMark(i.markValue), TargetClauses(i));
    CalmIf(i.mask != [] || i.comparison != [], TcpFlags(i.mask, i.comparison),
           If(i.markInvert, NotMark(i.markValue)) + TargetClauses(i));
  }

  lemma PlacesCalm(i: Instruction)
    requires PlainRecord(i) && DeleteParsable(i)
    ensures Calm(PlaceClauses(i))
  {
    TargetsCalm(i);
    hide Calm, FlagClauses;
    var r2 := If(i.destinationPort != 0, DestinationPort(i.destinationPort)) + FlagClauses(i);
    CalmIf(i.destinationPort != 0, DestinationPort(i.destinationPort), FlagClauses(i));
    CalmIf(i.destination.Some?, Destination(i.destination.GetOr(ANY4)), r2);
    CalmIf(i.sourcePort != 0, SourcePort(i.sourcePort), If(i.destination.Some?, Destination(i.destination.GetOr(ANY4))) + r2);
  }

  lemma MatchesCalm(i: Instruction)
    requires PlainRecord(i) && DeleteParsable(i)
    ensures Calm(MatchClauses(i))
  {
    PlacesCalm(i);
    hide Calm, PlaceClauses;
    var tcpOrUdp := i.protocol == "tcp" || i.protocol == "udp";
    var r2 := If(i.source.Some?, Source(i.source.GetOr(ANY4))) + PlaceClauses(i);
    CalmIf(i.source.Some?, Source(i.source.GetOr(ANY4)), PlaceClauses(i));
    CalmIf(tcpOrUdp, MatchProtocol(i.protocol), r2);
    CalmIf(i.protocol != "", Protocol(i.protocol), If(tcpOrUdp, MatchProtocol(i.protocol)) + r2);
  }

  lemma RecordCalm(i: Instruction)
    requires PlainRecord(i) && DeleteParsable(i)
    ensures Calm(BeforeVerb(i)) && Calm(AfterVerb(i))
  {
    MatchesCalm(i);
    NoneCalm();
    hide Calm, MatchClauses;
    CalmIf(i.outInterface != "", Out(i.outInterface), MatchClauses(i));
    CalmIf(i.inInterface != "", In(i.inInterface), If(i.outInterface != "", Out(i.outInterface)) + MatchClauses(i));
    CalmIf(i.table != "filter", Table(i.table), []);
    assert BeforeVerb(i) + [] == BeforeVerb(i);
  }

  lemma NoneCalm()
    ensures Calm([])
  {
  }

  /** The record is what its canonical instruction means. */
  lemma RecordMeaning(i: Instruction)
    requires PlainRecord(i) && DeleteParsable(i)
    ensures Written(BeforeVerb(i), i.chain, AfterVerb(i))
    ensures Meaning(BeforeVerb(i), !i.append, i.chain, AfterVerb(i)) == i
  {
    RecordCalm(i);
    assert Written(BeforeVerb(i), i.chain, AfterVerb(i));
    PrintParseRoundTrip(i, true);
    RecordFields(i);
    hide PrintAll, ClausesOf, Parse, BeforeVerb, AfterVerb, Meaning;
    ParseWithVerb(BeforeVerb(i), !i.append, i.chain, AfterVerb(i), true);
  }

  /** The verb is the only difference between the two instructions of a record. */
  lemma SameButVerb(i: Instruction, out: Instruction)
    requires out == i.(append := false)
    ensures BeforeVerb(out) == BeforeVerb(i) && AfterVerb(out) == AfterVerb(i)
  {
    assert TargetClauses(out) == TargetClauses(i);
    hide TargetClauses;
    assert FlagClauses(out) == FlagClauses(i);
    hide FlagClauses;
    assert PlaceClauses(out) == PlaceClauses(i);
    hide PlaceClauses;
    assert MatchClauses(out) == MatchClauses(i);
  }

  /** The same for every record that a delete can be parsed into, with its instructions in canonical form. */
  lemma AppendThenDeleteRecord(rs: Ruleset, mid: Ruleset, next: Ruleset, i: Instruction, v6: bool, hasNat: bool)
    requires DeleteParsable(i) && PlainRecord(i) && i.append && OfFamily(i, v6) && AllListed(rs.rules, v6)
    requires Exec(rs, PrintAll(ClausesOf(i)), v6, hasNat) == Some(mid)
    requires Exec(mid, PrintAll(ClausesOf(i.(append := false))), v6, hasNat) == Some(next)
    ensures mid == rs.(rules := rs.rules + [RuleOf(i, v6)]) && next.policies == rs.policies
    ensures Without(next.rules, RuleOf(i, v6)) == Without(rs.rules, RuleOf(i, v6))
    ensures multiset(next.rules) == multiset(rs.rules) <==> PrefixesMasked(i)
    ensures !PrefixesMasked(i) ==> next == mid
  {
    var out := i.(append := false);
    RecordMeaning(i);
    RecordFields(i);
    RecordFields(out);
    SameButVerb(i, out);
    hide Meaning, Written, Fields, Exec, PrintAll, ClausesOf, BeforeVerb, AfterVerb, RuleOf, PrefixesMasked,
         OfFamily, DeleteParsable, PlainRecord;
    AppendThenDelete(rs, mid, next, BeforeVerb(i), i.chain, AfterVerb(i), v6, hasNat);
  }

  // ------------------------------------------------------------ two instances

  /** What keeps the kernel from resetting the connections of the MTU search, and its revert. */
  ghost function DropResets(source: Prefix, sourcePort: nat, destination: Prefix, destinationPort: nat,
                            excludeMark: nat): seq<Clause> {
    [Protocol("tcp"), Source(source), SourcePort(sourcePort), Destination(destination), DestinationPort(destinationPort),
     TcpFlags([RST], [RST]), NotMark(excludeMark), Jump("DROP")]
  }

  lemma DropResetsWritten(source: Prefix, sourcePort: nat, destination: Prefix, destinationPort: nat, excludeMark: nat)
    requires sourcePort < 0x1_0000 && destinationPort < 0x1_0000 && excludeMark < 0x1_0000_0000
    ensures Written([], "OUTPUT", DropResets(source, sourcePort, destination, destinationPort, excludeMark))
  {
    assert CalmClause(Protocol("tcp")) && CalmClause(Jump("DROP")) && CalmClause(TcpFlags([RST], [RST]));
    assert CalmClause(Source(source)) && CalmClause(Destination(destination)) && CalmClause(NotMark(excludeMark));
    assert CalmClause(SourcePort(sourcePort)) && CalmClause(DestinationPort(destinationPort));
    hide CalmClause;
  }

  lemma EndsMean(source: Prefix, sourcePort: nat, destination: Prefix, i: Instruction)
    ensures Effects([Protocol("tcp"), Source(source), SourcePort(sourcePort), Destination(destination)], i)
            == i.(protocol := "tcp", source := Some(source), sourcePort := sourcePort, destination := Some(destination))
  {
    FourClauses(Protocol("tcp"), Source(source), SourcePort(sourcePort), Destination(destination), i);
    hide Effects, PrintAll, Print;
  }

  lemma FlagsMean(port: nat, mark: nat, i: Instruction)
    ensures Effects([DestinationPort(port), TcpFlags([RST], [RST]), NotMark(mark), Jump("DROP")], i)
            == i.(destinationPort := port, mask := [RST], comparison := [RST], markInvert := true, markValue := mark,
                  target := "DROP")
  {
    FourClauses(DestinationPort(port), TcpFlags([RST], [RST]), NotMark(mark), Jump("DROP"), i);
    hide Effects, PrintAll, Print;
  }

  lemma DropResetsMeaning(source: Prefix, sourcePort: nat, destination: Prefix, destinationPort: nat, excludeMark: nat)
    ensures Meaning([], false, "OUTPUT", DropResets(source, sourcePort, destination, destinationPort, excludeMark))
            == EMPTY.(table := "filter", append := true, chain := "OUTPUT", target := "DROP", protocol := "tcp",
                      source := Some(source), sourcePort := sourcePort, destination := Some(destination),
                      destinationPort := destinationPort, mask := [RST], comparison := [RST],
                      markInvert := true, markValue := excludeMark)
  {
    var ends := [Protocol("tcp"), Source(source), SourcePort(sourcePort), Destination(destination)];
    var flags := [DestinationPort(destinationPort), TcpFlags([RST], [RST]), NotMark(excludeMark), Jump("DROP")];
    assert DropResets(source, sourcePort, destination, destinationPort, excludeMark) == ends + flags;
    assert Effects([], EMPTY) == EMPTY;
    hide Effects, PrintAll, Print, DropResets;
    var i := Effect(Append("OUTPUT"), EMPTY);
    EndsMean(source, sourcePort, destination, i);
    FlagsMean(destinationPort, excludeMark, Effects(ends, i));
    EffectsConcat(ends, flags, i);
  }

  /** Drops what is sent from one address and port to the other with the RST flag alone, unless it has the mark. */
  ghost function DropResetsRule(source: Prefix, sourcePort: nat, destination: Prefix, destinationPort: nat,
                                excludeMark: nat): Located {
    Located("filter", "OUTPUT",
            Rule("DROP", "tcp", "*", "*", source, sourcePort, destination, destinationPort, [], [], [RST], [RST],
                 true, excludeMark))
  }

  /** Dropping resets between two addresses and reverting it restores the rules. */
  lemma DropResetsReverted(rs: Ruleset, mid: Ruleset, next: Ruleset, source: Prefix, sourcePort: nat,
                           destination: Prefix, destinationPort: nat, excludeMark: nat, hasNat: bool)
    requires IsAddress(source) && IsAddress(destination) && source.v6 == destination.v6
    requires sourcePort < 0x1_0000 && destinationPort < 0x1_0000 && excludeMark < 0x1_0000_0000
    requires AllListed(rs.rules, source.v6)
    requires var after := DropResets(source, sourcePort, destination, destinationPort, excludeMark);
             && Exec(rs, Fields([], false, "OUTPUT", after), source.v6, hasNat) == Some(mid)
             && Exec(mid, Fields([], true, "OUTPUT", after), source.v6, hasNat) == Some(next)
    ensures mid.rules == rs.rules + [DropResetsRule(source, sourcePort, destination, destinationPort, excludeMark)]
    ensures multiset(next.rules) == multiset(rs.rules) && next.policies == rs.policies
  {
    var after := DropResets(source, sourcePort, destination, destinationPort, excludeMark);
    DropResetsWritten(source, sourcePort, destination, destinationPort, excludeMark);
    DropResetsMeaning(source, sourcePort, destination, destinationPort, excludeMark);
    AddressIsMasked(source);
    AddressIsMasked(destination);
    hide Meaning, Written, Fields, Exec, DropResets, IsMasked, IsAddress;
    AppendThenDelete(rs, mid, next, [], "OUTPUT", after, source.v6, hasNat);
  }

  /** 192.168.1.5/24 is not masked, so that a rule for it cannot be deleted again. */
  lemma HostBitsStay()
    ensures var p := Prefix(false, 0xC0A8_0105, 24); !IsMasked(p) && Masked(p) == Prefix(false, 0xC0A8_0100, 24)
  {
    ByteIsCleared(0xC0_A801, 5, 0);
    NothingCleared(0xC0_A801);
    hide Cleared;
  }
}
