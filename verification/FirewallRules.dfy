/** Sums of multisets over a list. */
module Sums {

  ghost function Sum<T, U>(xs: seq<T>, f: T -> multiset<U>): multiset<U> {
    if xs == [] then multiset{} else Sum(xs[..|xs| - 1], f) + f(xs[|xs| - 1])
  }

  lemma SumMore<T, U>(xs: seq<T>, x: T, f: T -> multiset<U>)
    ensures Sum(xs + [x], f) == Sum(xs, f) + f(x)
  {
    assert (xs + [x])[..|xs + [x]| - 1] == xs;
  }

  lemma {:induction false} SumConcat<T, U>(xs: seq<T>, ys: seq<T>, f: T -> multiset<U>)
    ensures Sum(xs + ys, f) == Sum(xs, f) + Sum(ys, f)
  {
    if ys == [] {
      assert xs + ys == xs;
    } else {
      hide Sum;
      var init, last := ys[..|ys| - 1], ys[|ys| - 1];
      assert ys == init + [last] && xs + ys == (xs + init) + [last];
      SumConcat(xs, init, f);
      SumMore(xs + init, last, f);
      SumMore(init, last, f);
    }
  }

  lemma SumOne<T, U>(x: T, f: T -> multiset<U>)
    ensures Sum([x], f) == f(x)
  {
    assert [] + [x] == [x];
    SumMore([], x, f);
  }

  lemma SumTakeOut<T, U>(xs: seq<T>, k: nat, f: T -> multiset<U>)
    requires k < |xs|
    ensures Sum(xs, f) == Sum(xs[..k] + xs[k + 1..], f) + f(xs[k])
  {
    hide Sum;
    assert xs == xs[..k] + ([xs[k]] + xs[k + 1..]);
    SumConcat(xs[..k], [xs[k]] + xs[k + 1..], f);
    SumConcat([xs[k]], xs[k + 1..], f);
    SumOne(xs[k], f);
    SumConcat(xs[..k], xs[k + 1..], f);
  }

  lemma TakeOut<T>(xs: seq<T>, k: nat)
    requires k < |xs|
    ensures multiset(xs[..k] + xs[k + 1..]) == multiset(xs) - multiset{xs[k]}
  {
    assert xs == xs[..k] + ([xs[k]] + xs[k + 1..]);
  }

  ghost predicate SameEntries<T>(xs: seq<T>, ys: seq<T>) {
    multiset(xs) == multiset(ys)
  }

  /** Where the last entry of xs is in ys, and what else is there. */
  lemma FindLast<T>(xs: seq<T>, ys: seq<T>) returns (k: nat)
    requires xs != [] && SameEntries(xs, ys)
    ensures k < |ys| && ys[k] == xs[|xs| - 1]
    ensures SameEntries(xs[..|xs| - 1], ys[..k] + ys[k + 1..])
  {
    assert xs == xs[..|xs| - 1] + [xs[|xs| - 1]];
    assert xs[|xs| - 1] in multiset(ys);
    k :| 0 <= k < |ys| && ys[k] == xs[|xs| - 1];
    TakeOut(ys, k);
  }

  lemma SameAsEmpty<T>(ys: seq<T>)
    requires SameEntries([], ys)
    ensures ys == []
  {
    assert |multiset(ys)| == 0;
  }

  /** The order of the list does not matter. */
  lemma {:induction false} SumPermutes<T, U>(xs: seq<T>, ys: seq<T>, f: T -> multiset<U>)
    requires SameEntries(xs, ys)
    ensures Sum(xs, f) == Sum(ys, f)
    decreases |xs|
  {
    hide Sum, SameEntries;
    if xs == [] {
      SameAsEmpty(ys);
    } else {
      var k := FindLast(xs, ys);
      var init := xs[..|xs| - 1];
      SumTakeOut(ys, k, f);
      assert xs == init + [xs[|xs| - 1]];
      SumMore(init, xs[|xs| - 1], f);
      SumPermutes(init, ys[..k] + ys[k + 1..], f);
    }
  }

  /** Removing one entry, in whatever way, takes its share out of the sum. */
  lemma SumWithout<T, U>(xs: seq<T>, ys: seq<T>, x: T, f: T -> multiset<U>)
    requires x in xs && multiset(ys) == multiset(xs) - multiset{x}
    ensures Sum(xs, f) == Sum(ys, f) + f(x)
  {
    assert SameEntries(xs, ys + [x]);
    SumPermutes(xs, ys + [x], f);
    SumMore(ys, x, f);
  }
}

/** The rules that the firewall's tracked state stands for, as multisets. */
module FirewallRules {
  import opened Wrappers
  import opened IptablesRules
  import opened IptablesKernel
  import opened Iptables
  import opened PortRules
  import opened PortRedirections
  import opened Sums

  /** An allowed port, with an interface it is allowed through. */
  type PortPair = (nat, string)

  ghost function PortPairs(allowed: map<nat, set<string>>): set<PortPair> {
    set port, intf | port in allowed && intf in allowed[port] :: (port, intf)
  }

  ghost function AcceptedFor(pairs: set<PortPair>, protocol: string, v6: bool): set<Located> {
    set x | x in pairs :: AcceptRule(x.1, protocol, x.0, v6)
  }

  ghost function AcceptedRules(pairs: set<PortPair>, v6: bool): multiset<Located> {
    multiset(AcceptedFor(pairs, "tcp", v6)) + multiset(AcceptedFor(pairs, "udp", v6))
  }

  lemma AcceptedForMore(pairs: set<PortPair>, x: PortPair, protocol: string, v6: bool)
    requires x !in pairs
    ensures multiset(AcceptedFor(pairs + {x}, protocol, v6))
            == multiset(AcceptedFor(pairs, protocol, v6)) + multiset{AcceptRule(x.1, protocol, x.0, v6)}
  {
    var rule := AcceptRule(x.1, protocol, x.0, v6);
    assert AcceptedFor(pairs + {x}, protocol, v6) == AcceptedFor(pairs, protocol, v6) + {rule};
    forall y | y in pairs ensures AcceptRule(y.1, protocol, y.0, v6) != rule {
      AcceptRulesDiffer(x, y, protocol, v6);
    }
  }

  lemma AcceptRulesDiffer(x: PortPair, y: PortPair, protocol: string, v6: bool)
    requires x != y
    ensures AcceptRule(x.1, protocol, x.0, v6) != AcceptRule(y.1, protocol, y.0, v6)
  {
    assert x == (x.0, x.1) && y == (y.0, y.1);
  }

  lemma AcceptedRulesMore(pairs: set<PortPair>, x: PortPair, v6: bool)
    requires x !in pairs
    ensures AcceptedRules(pairs + {x}, v6) == AcceptedRules(pairs, v6) + AcceptRules(x.1, x.0, v6)
  {
    AcceptedForMore(pairs, x, "tcp", v6);
    AcceptedForMore(pairs, x, "udp", v6);
    hide AcceptedFor, AcceptRule;
  }

  // ---------------------------------------------------------- redirections

  ghost function RulesFor(r: Redirection, v6: bool): multiset<Located> {
    RedirectRules(r.interfaceName, r.sourcePort, r.destinationPort, v6)
  }

  ghost function RulesForEach(v6: bool): Redirection -> multiset<Located> {
    r => RulesFor(r, v6)
  }

  ghost function RedirectedRules(p: seq<Redirection>, v6: bool): multiset<Located> {
    Sum(p, RulesForEach(v6))
  }

  lemma RedirectedMore(p: seq<Redirection>, r: Redirection, v6: bool)
    ensures RedirectedRules(p + [r], v6) == RedirectedRules(p, v6) + RulesFor(r, v6)
  {
    SumMore(p, r, RulesForEach(v6));
  }

  lemma RedirectedWithout(p: seq<Redirection>, q: seq<Redirection>, r: Redirection, v6: bool)
    requires r in p && multiset(q) == multiset(p) - multiset{r}
    ensures RedirectedRules(p, v6) == RedirectedRules(q, v6) + RulesFor(r, v6)
  {
    SumWithout(p, q, r, RulesForEach(v6));
  }

  // -------------------------------------------------------------- agreement

  /** The rules that only allowed ports and redirections bring about. */
  ghost predicate IsPortRule(l: Located) {
    l.table == "nat" || (l.chain == "INPUT" && l.rule.protocol != "")
  }

  ghost function Wanted(pairs: set<PortPair>, p: seq<Redirection>, v6: bool): multiset<Located> {
    AcceptedRules(pairs, v6) + RedirectedRules(p, v6)
  }

  /** The port rules of one family are those of the snapshot and the wanted ones, each as often. */
  ghost predicate FamilyAgrees(rules: multiset<Located>, snapshot: multiset<Located>, wanted: multiset<Located>) {
    forall l :: IsPortRule(l) ==> rules[l] == snapshot[l] + wanted[l]
  }

  ghost predicate Agrees(p: Platform, k: Kernel, snapshot: Kernel, pairs: set<PortPair>, rs: seq<Redirection>) {
    && FamilyAgrees(multiset(k.v4.rules), multiset(snapshot.v4.rules), Wanted(pairs, rs, false))
    && (p.ip6Tables ==> FamilyAgrees(multiset(k.v6.rules), multiset(snapshot.v6.rules), Wanted(pairs, rs, true)))
  }

  lemma AgreesAfterAdding(p: Platform, k: Kernel, next: Kernel, snapshot: Kernel, pairs: set<PortPair>,
                          rs: seq<Redirection>,
                          pairs': set<PortPair>, rs': seq<Redirection>, add4: multiset<Located>, add6: multiset<Located>)
    requires Agrees(p, k, snapshot, pairs, rs) && ChangedBy(p, k, next, add4, add6, false)
    requires Wanted(pairs', rs', false) == Wanted(pairs, rs, false) + add4
    requires Wanted(pairs', rs', true) == Wanted(pairs, rs, true) + add6
    ensures Agrees(p, next, snapshot, pairs', rs')
  {
    hide Wanted, IsPortRule, WellFormed;
  }

  lemma AgreesAfterRemoving(p: Platform, k: Kernel, next: Kernel, snapshot: Kernel, pairs: set<PortPair>,
                            rs: seq<Redirection>,
                            pairs': set<PortPair>, rs': seq<Redirection>, out4: multiset<Located>, out6: multiset<Located>)
    requires Agrees(p, k, snapshot, pairs, rs) && ChangedBy(p, k, next, out4, out6, true)
    requires Wanted(pairs, rs, false) == Wanted(pairs', rs', false) + out4
    requires Wanted(pairs, rs, true) == Wanted(pairs', rs', true) + out6
    ensures Agrees(p, next, snapshot, pairs', rs')
  {
    hide Wanted, IsPortRule, WellFormed;
  }

  /** Port rules are untouched, and no rule is taken away. */
  ghost predicate GrowsElsewhere(k: Kernel, next: Kernel) {
    && (forall l :: IsPortRule(l) ==> multiset(next.v4.rules)[l] == multiset(k.v4.rules)[l]
                                      && multiset(next.v6.rules)[l] == multiset(k.v6.rules)[l])
    && multiset(k.v4.rules) <= multiset(next.v4.rules) && multiset(k.v6.rules) <= multiset(next.v6.rules)
    && WellFormed(next)
  }

  lemma GrowsTransitively(k: Kernel, mid: Kernel, next: Kernel)
    requires GrowsElsewhere(k, mid) && GrowsElsewhere(mid, next)
    ensures GrowsElsewhere(k, next)
  {
    hide IsPortRule, WellFormed;
  }
}
