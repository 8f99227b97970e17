/**
  The rules in the kernel, and the iptables commands that change them. A command
  may fail at any time, and then changes nothing; several commands make up one
  transaction, which is rolled back from a snapshot when one of them fails.
 */
module IptablesKernel {
  import opened Wrappers
  import opened IptablesRules

  /** A rule as listed from a chain: no interface is "*", no prefix is the whole family. */
  datatype Rule = Rule(
    target: string,
    protocol: string,
    inInterface: string,
    outInterface: string,
    source: Prefix,
    sourcePort: nat,
    destination: Prefix,
    destinationPort: nat,
    redirPorts: seq<nat>,
    states: seq<string>,
    mask: seq<TcpFlag>,
    comparison: seq<TcpFlag>,
    markInvert: bool,
    markValue: nat)

  datatype Located = Located(table: string, chain: string, rule: Rule)

  /** The rules of one IP family, in the order they were added, and the chain policies. */
  datatype Ruleset = Ruleset(rules: seq<Located>, policies: map<string, string>)

  datatype Kernel = Kernel(v4: Ruleset, v6: Ruleset)

  /** Whether ip6tables works at all, and whether the kernel has IPv6 NAT. */
  datatype Platform = Platform(ip6Tables: bool, ip6Nat: bool)

  /** Wherever there are IPv6 rules, there is NAT for IPv6. */
  ghost predicate NatAvailable(p: Platform) {
    p.ip6Tables ==> p.ip6Nat
  }

  // --------------------------------------------------------------- prefixes

  function Width(v6: bool): nat {
    if v6 then 128 else 32
  }

  /** How many bits at the end of an address are not part of its prefix. */
  function HostBits(p: Prefix): nat {
    if p.bits <= Width(p.v6) then Width(p.v6) - p.bits else 0
  }

  /** A number with its n lowest bits cleared. */
  function Cleared(a: nat, n: nat): nat
    decreases n
  {
    if n == 0 then a else 2 * Cleared(a / 2, n - 1)
  }

  /** A prefix as the kernel keeps it: the bits after the prefix are cleared. */
  function Masked(p: Prefix): (m: Prefix) {
    p.(address := Cleared(p.address, HostBits(p)))
  }

  predicate IsMasked(p: Prefix) {
    Masked(p) == p
  }

  ghost function TwoTo(n: nat): (p: nat)
    ensures p > 0
  {
    if n == 0 then 1 else 2 * TwoTo(n - 1)
  }

  /** Clearing the n lowest bits leaves the largest multiple of 2^n that is not larger. */
  lemma {:induction false} ClearedIs(a: nat, n: nat)
    ensures Cleared(a, n) <= a < Cleared(a, n) + TwoTo(n)
    ensures exists q: nat :: Cleared(a, n) == q * TwoTo(n)
    decreases n
  {
    if n == 0 {
      assert Cleared(a, 0) == a * TwoTo(0);
    } else {
      ClearedIs(a / 2, n - 1);
      var q: nat :| Cleared(a / 2, n - 1) == q * TwoTo(n - 1);
      TwiceMultiple(q, TwoTo(n - 1));
      assert Cleared(a, n) == q * TwoTo(n);
    }
  }

  lemma TwiceMultiple(q: nat, p: nat)
    ensures 2 * (q * p) == q * (2 * p)
  {
  }

  lemma {:induction false} ClearedTwice(a: nat, n: nat)
    ensures Cleared(Cleared(a, n), n) == Cleared(a, n)
    decreases n
  {
    if n > 0 {
      ClearedTwice(a / 2, n - 1);
      assert Cleared(a, n) / 2 == Cleared(a / 2, n - 1);
    }
  }

  lemma {:induction false} ZeroIsCleared(n: nat)
    ensures Cleared(0, n) == 0
  {
    if n > 0 {
      ZeroIsCleared(n - 1);
    }
  }

  lemma NothingCleared(x: nat)
    ensures Cleared(x, 0) == x
  {
  }

  /** Clearing eight bits or more clears the lowest byte b. */
  lemma ByteIsCleared(x: nat, b: nat, n: nat)
    requires b < 0x100
    ensures Cleared(0x100 * x + b, n + 8) == 0x100 * Cleared(x, n)
  {
    assert Cleared(2 * x + b / 0x80, n + 1) == 2 * Cleared(x, n);
    assert Cleared(4 * x + b / 0x40, n + 2) == 2 * Cleared(2 * x + b / 0x80, n + 1);
    assert Cleared(8 * x + b / 0x20, n + 3) == 2 * Cleared(4 * x + b / 0x40, n + 2);
    assert Cleared(0x10 * x + b / 0x10, n + 4) == 2 * Cleared(8 * x + b / 0x20, n + 3);
    assert Cleared(0x20 * x + b / 8, n + 5) == 2 * Cleared(0x10 * x + b / 0x10, n + 4);
    assert Cleared(0x40 * x + b / 4, n + 6) == 2 * Cleared(0x20 * x + b / 8, n + 5);
    assert Cleared(0x80 * x + b / 2, n + 7) == 2 * Cleared(0x40 * x + b / 4, n + 6);
  }

  lemma MaskedOnce(p: Prefix)
    ensures IsMasked(Masked(p)) && Masked(p).v6 == p.v6
  {
    ClearedTwice(p.address, HostBits(p));
  }

  /** A single address has no host bits to clear. */
  predicate IsAddress(p: Prefix) {
    p.bits == Width(p.v6)
  }

  lemma AddressIsMasked(p: Prefix)
    requires IsAddress(p)
    ensures IsMasked(p)
  {
  }

  // ------------------------------------------------- instructions and rules

  function InterfacesEqual(instruction: string, listed: string): bool {
    instruction == listed || (instruction == "" && listed == "*")
  }

  function PrefixesEqual(instruction: Option<Prefix>, listed: Prefix): bool {
    instruction == Some(listed) || (instruction.None? && listed.bits == 0 && listed.address == 0)
  }

  /** The comparison of an instruction with a listed rule; the append flag is ignored. */
  function EqualToRule(i: Instruction, table: string, chain: string, rule: Rule): bool {
    && i.table == table && i.chain == chain
    && i.target == rule.target && i.protocol == rule.protocol
    && i.destinationPort == rule.destinationPort && i.sourcePort == rule.sourcePort
    && i.toPorts == rule.redirPorts && i.states == rule.states
    && InterfacesEqual(i.inInterface, rule.inInterface) && InterfacesEqual(i.outInterface, rule.outInterface)
    && PrefixesEqual(i.source, rule.source) && PrefixesEqual(i.destination, rule.destination)
    && i.mask == rule.mask && i.comparison == rule.comparison
    && i.markInvert == rule.markInvert && i.markValue == rule.markValue
  }

  /** The prefix that an instruction makes the kernel keep; none stands for all addresses of the family. */
  function KeptPrefix(p: Option<Prefix>, v6: bool): Prefix {
    if p.Some? then Masked(p.value) else Prefix(v6, 0, 0)
  }

  /** The rule that appending an instruction makes, as it is then listed. */
  function RuleOf(i: Instruction, v6: bool): Located {
    Located(i.table, i.chain,
            Rule(i.target, i.protocol,
                 if i.inInterface == "" then "*" else i.inInterface,
                 if i.outInterface == "" then "*" else i.outInterface,
                 KeptPrefix(i.source, v6), i.sourcePort, KeptPrefix(i.destination, v6), i.destinationPort,
                 i.toPorts, i.states, i.mask, i.comparison, i.markInvert, i.markValue))
  }

  /** iptables takes IPv4 prefixes only, ip6tables IPv6 prefixes only. */
  predicate OfFamily(i: Instruction, v6: bool) {
    && (i.source.Some? ==> i.source.value.v6 == v6)
    && (i.destination.Some? ==> i.destination.value.v6 == v6)
  }

  /** No prefix of the instruction has bits set that the kernel clears. */
  predicate PrefixesMasked(i: Instruction) {
    (i.source.Some? ==> IsMasked(i.source.value)) && (i.destination.Some? ==> IsMasked(i.destination.value))
  }

  ghost predicate Listed(rule: Rule, v6: bool) {
    && rule.inInterface != "" && rule.outInterface != ""
    && rule.source.v6 == v6 && rule.destination.v6 == v6 && IsMasked(rule.source) && IsMasked(rule.destination)
  }

  ghost predicate AllListed(rules: seq<Located>, v6: bool) {
    forall l :: l in rules ==> Listed(l.rule, v6)
  }

  ghost predicate WellFormed(k: Kernel) {
    AllListed(k.v4.rules, false) && AllListed(k.v6.rules, true)
  }

  lemma NoPrefixIsMasked(v6: bool)
    ensures IsMasked(Prefix(v6, 0, 0))
  {
    ZeroIsCleared(Width(v6));
  }

  lemma MadeIsListed(i: Instruction, v6: bool)
    requires OfFamily(i, v6)
    ensures Listed(RuleOf(i, v6).rule, v6)
  {
    NoPrefixIsMasked(v6);
    if i.source.Some? {
      MaskedOnce(i.source.value);
    }
    if i.destination.Some? {
      MaskedOnce(i.destination.value);
    }
    hide Masked, IsMasked;
  }

  /**
    Comparing an instruction with a listed rule tells whether it would make that rule, as long
    as its prefixes are masked; with other prefixes it is equal to no rule.
   */
  lemma EqualIffSameRule(i: Instruction, v6: bool, table: string, chain: string, rule: Rule)
    requires OfFamily(i, v6) && Listed(rule, v6)
    ensures EqualToRule(i, table, chain, rule)
            <==> PrefixesMasked(i) && Located(table, chain, rule) == RuleOf(i, v6)
  {
    hide Masked;
  }

  // ------------------------------------------------------------- deletion

  /** The rules of one chain, as its listing numbers them. */
  function ChainRules(rules: seq<Located>, table: string, chain: string): (r: seq<Rule>)
  {
    if rules == [] then []
    else (if rules[0].table == table && rules[0].chain == chain then [rules[0].rule] else [])
         + ChainRules(rules[1..], table, chain)
  }

  /** Deleting by line number, counted from one within the chain. */
  function DeleteLine(rules: seq<Located>, table: string, chain: string, line: int): seq<Located> {
    if rules == [] then []
    else if rules[0].table == table && rules[0].chain == chain then
      if line == 1 then rules[1..] else [rules[0]] + DeleteLine(rules[1..], table, chain, line - 1)
    else [rules[0]] + DeleteLine(rules[1..], table, chain, line)
  }

  /** What deleting by match leaves: everything but the first rule equal to the instruction. */
  ghost function DeleteFirst(rules: seq<Located>, i: Instruction): seq<Located> {
    if rules == [] then []
    else if EqualToRule(i, rules[0].table, rules[0].chain, rules[0].rule) then rules[1..]
    else [rules[0]] + DeleteFirst(rules[1..], i)
  }

  method FindLineNumber(rules: seq<Located>, i: Instruction) returns (line: nat)
    ensures DeleteFirst(rules, i) == if line == 0 then rules else DeleteLine(rules, i.table, i.chain, line)
    ensures line <= |ChainRules(rules, i.table, i.chain)|
  {
    var chain := ChainRules(rules, i.table, i.chain);
    for n := 0 to |chain|
      invariant forall j :: 0 <= j < n ==> !EqualToRule(i, i.table, i.chain, chain[j])
    {
      if EqualToRule(i, i.table, i.chain, chain[n]) {
        FirstMatchIsLine(rules, i, n);
        return n + 1;
      }
    }
    NoMatchNoDeletion(rules, i);
    return 0;
  }

  lemma {:induction false} FirstMatchIsLine(rules: seq<Located>, i: Instruction, n: nat)
    requires n < |ChainRules(rules, i.table, i.chain)|
    requires EqualToRule(i, i.table, i.chain, ChainRules(rules, i.table, i.chain)[n])
    requires forall j :: 0 <= j < n ==> !EqualToRule(i, i.table, i.chain, ChainRules(rules, i.table, i.chain)[j])
    ensures DeleteFirst(rules, i) == DeleteLine(rules, i.table, i.chain, n + 1)
  {
    hide EqualToRule;
    var chain, rest := ChainRules(rules, i.table, i.chain), ChainRules(rules[1..], i.table, i.chain);
    if EqualToRule(i, rules[0].table, rules[0].chain, rules[0].rule) {
      EqualNeedsChain(i, rules[0]);
    }
    if rules[0].table == i.table && rules[0].chain == i.chain {
      assert chain == [rules[0].rule] + rest;
      if n != 0 {
        assert chain[0] == rules[0].rule;
        forall j | 0 <= j < n - 1 ensures !EqualToRule(i, i.table, i.chain, rest[j]) {
          assert rest[j] == chain[j + 1];
        }
        FirstMatchIsLine(rules[1..], i, n - 1);
      }
    } else {
      assert chain == rest;
      FirstMatchIsLine(rules[1..], i, n);
    }
  }

  lemma EqualNeedsChain(i: Instruction, l: Located)
    requires EqualToRule(i, l.table, l.chain, l.rule)
    ensures i.table == l.table && i.chain == l.chain
  {
  }

  lemma {:induction false} NoMatchNoDeletion(rules: seq<Located>, i: Instruction)
    requires forall r :: r in ChainRules(rules, i.table, i.chain) ==> !EqualToRule(i, i.table, i.chain, r)
    ensures DeleteFirst(rules, i) == rules
  {
    if rules != [] {
      var rest := ChainRules(rules[1..], i.table, i.chain);
      assert forall r :: r in rest ==> r in ChainRules(rules, i.table, i.chain);
      if rules[0].table == i.table && rules[0].chain == i.chain {
        assert ChainRules(rules, i.table, i.chain)[0] == rules[0].rule;
      }
      NoMatchNoDeletion(rules[1..], i);
    }
  }

  /**
    Deleting takes away one rule equal to the instruction, if there is one, and no other;
    an instruction with a prefix that is not masked finds no rule.
   */
  lemma {:induction false} DeleteTakesOne(rules: seq<Located>, i: Instruction, v6: bool)
    requires OfFamily(i, v6) && AllListed(rules, v6)
    ensures PrefixesMasked(i) ==> multiset(DeleteFirst(rules, i)) == multiset(rules) - multiset{RuleOf(i, v6)}
    ensures !PrefixesMasked(i) ==> DeleteFirst(rules, i) == rules
  {
    if rules != [] {
      var first, rest := rules[0], rules[1..];
      EqualIffSameRule(i, v6, first.table, first.chain, first.rule);
      assert first == Located(first.table, first.chain, first.rule);
      assert rules == [first] + rest;
      DeleteTakesOne(rest, i, v6);
      hide EqualToRule, RuleOf, Listed, PrefixesMasked;
      if !EqualToRule(i, first.table, first.chain, first.rule) {
        assert multiset(DeleteFirst(rules, i)) == multiset{first} + multiset(DeleteFirst(rest, i));
      }
    }
  }

  lemma DeleteKeepsListed(rules: seq<Located>, i: Instruction, v6: bool)
    requires OfFamily(i, v6) && AllListed(rules, v6)
    ensures AllListed(DeleteFirst(rules, i), v6)
  {
    DeleteTakesOne(rules, i, v6);
    hide RuleOf, PrefixesMasked, Listed;
    forall l | l in DeleteFirst(rules, i) ensures l in rules {
      assert l in multiset(DeleteFirst(rules, i));
    }
  }

  ghost function Without(rules: seq<Located>, l: Located): seq<Located> {
    if rules == [] then []
    else (if rules[0] == l then [] else [rules[0]]) + Without(rules[1..], l)
  }

  /** All other rules stay as they are, in the same order. */
  lemma {:induction false} DeleteKeepsOthers(rules: seq<Located>, i: Instruction, v6: bool)
    requires OfFamily(i, v6) && AllListed(rules, v6)
    ensures Without(DeleteFirst(rules, i), RuleOf(i, v6)) == Without(rules, RuleOf(i, v6))
  {
    if rules != [] {
      EqualIffSameRule(i, v6, rules[0].table, rules[0].chain, rules[0].rule);
      hide EqualToRule, RuleOf, Listed, PrefixesMasked;
      DeleteKeepsOthers(rules[1..], i, v6);
      if !EqualToRule(i, rules[0].table, rules[0].chain, rules[0].rule) {
        assert DeleteFirst(rules, i)[1..] == DeleteFirst(rules[1..], i);
      }
    }
  }
}
