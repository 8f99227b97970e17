/** Differences between lists of subnets, and removal from a list in place. */
module Subnets {
  import opened IptablesRules

  /** The entries of xs that are not in ys, in order and with repetitions. */
  ghost function Missing(xs: seq<Prefix>, ys: seq<Prefix>): (r: seq<Prefix>)
    ensures forall p :: p in r <==> p in xs && p !in ys
  {
    if xs == [] then []
    else Missing(xs[..|xs| - 1], ys) + (if xs[|xs| - 1] in ys then [] else [xs[|xs| - 1]])
  }

  method FindMissing(xs: seq<Prefix>, ys: seq<Prefix>) returns (r: seq<Prefix>)
    ensures r == Missing(xs, ys)
  {
    r := [];
    for i := 0 to |xs|
      invariant r == Missing(xs[..i], ys)
    {
      var found := false;
      for j := 0 to |ys|
        invariant !found && xs[i] !in ys[..j]
      {
        if ys[j] == xs[i] {
          found := true;
          break;
        }
      }
      assert found <==> xs[i] in ys;
      assert xs[..i + 1][..i] == xs[..i];
      if !found {
        r := r + [xs[i]];
      }
    }
    assert xs[..|xs|] == xs;
  }

  method FindSubnetsToChange(oldSubnets: seq<Prefix>, newSubnets: seq<Prefix>)
    returns (toAdd: seq<Prefix>, toRemove: seq<Prefix>)
    ensures toAdd == Missing(newSubnets, oldSubnets) && toRemove == Missing(oldSubnets, newSubnets)
  {
    toAdd := FindMissing(newSubnets, oldSubnets);
    toRemove := FindMissing(oldSubnets, newSubnets);
  }

  /** One entry fewer, in any order. */
  ghost predicate IsWithout(rest: seq<Prefix>, subnets: seq<Prefix>, subnet: Prefix) {
    multiset(rest) == multiset(subnets) - multiset{subnet}
  }

  /** Overwrites the first equal entry with the last one, and drops the last one. */
  method RemoveSubnetFromSubnets(subnets: seq<Prefix>, subnet: Prefix) returns (r: seq<Prefix>)
    ensures IsWithout(r, subnets, subnet)
  {
    var last := |subnets| - 1;
    for i := 0 to |subnets|
      invariant subnet !in subnets[..i]
    {
      if subnets[i] == subnet {
        r := subnets[i := subnets[last]][..last];
        assert subnets == subnets[..last] + [subnets[last]];
        assert i < last ==> r == subnets[..last][i := subnets[last]];
        assert i == last ==> r == subnets[..last];
        return;
      }
    }
    assert subnets[..|subnets|] == subnets;
    r := subnets;
  }

  /** Taking away the obsolete entries and adding the new ones gives the requested set. */
  lemma ChangesReachRequest(oldSubnets: seq<Prefix>, newSubnets: seq<Prefix>, result: multiset<Prefix>)
    requires result == multiset(oldSubnets) - multiset(Missing(oldSubnets, newSubnets))
                       + multiset(Missing(newSubnets, oldSubnets))
    ensures forall p :: p in result <==> p in newSubnets
  {
    forall p ensures p in result <==> p in newSubnets {
      if p in oldSubnets {
        MissingCount(oldSubnets, newSubnets, p);
      }
    }
  }

  lemma {:induction false} MissingCount(xs: seq<Prefix>, ys: seq<Prefix>, p: Prefix)
    ensures multiset(Missing(xs, ys))[p] == if p in ys then 0 else multiset(xs)[p]
  {
    if xs != [] {
      assert xs == xs[..|xs| - 1] + [xs[|xs| - 1]];
      MissingCount(xs[..|xs| - 1], ys, p);
    }
  }
}
