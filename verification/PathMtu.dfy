/**
  The path MTU search over TCP. In each round a packet of every size to test is sent
  at once; whether it gets through is up to the network, and any round may be cut
  short by the cancellation of its context.
 */
module PathMtu {
  import opened MtuTests

  datatype Found = Found(mtu: nat) | NotFound | Cancelled

  datatype TestUnit = TestUnit(mtu: nat, ok: bool)

  /** Index of the last value that passes its test in a round, or -1. */
  ghost function Highest(mtus: seq<nat>, round: nat, passes: (nat, nat) -> bool): (h: int)
    ensures -1 <= h < |mtus|
    ensures h >= 0 ==> passes(round, mtus[h])
    ensures forall j :: h < j < |mtus| ==> !passes(round, mtus[j])
  {
    if mtus == [] then -1
    else if passes(round, mtus[|mtus| - 1]) then |mtus| - 1
    else Highest(mtus[..|mtus| - 1], round, passes)
  }

  lemma Shrinks(minMTU: nat, maxMTU: nat, i: nat)
    requires minMTU <= maxMTU && i + 1 < |MtusToTest(minMTU, maxMTU)|
    ensures var mtus := MtusToTest(minMTU, maxMTU);
            && minMTU <= mtus[i] < mtus[i + 1] <= maxMTU
            && mtus[i + 1] - 1 - mtus[i] < WidestGap(maxMTU - minMTU) <= maxMTU - minMTU
  {
    MtusSpread(minMTU, maxMTU);
    var mtus := MtusToTest(minMTU, maxMTU);
    hide MtusToTest;
    assert mtus[0] <= mtus[i] < mtus[i + 1] <= mtus[|mtus| - 1];
  }

  /** The search from a given round on. */
  ghost function Search(minMTU: nat, maxMTU: nat, round: nat, passes: (nat, nat) -> bool, cancelled: nat -> bool): Found
    requires minMTU <= maxMTU
    decreases maxMTU - minMTU
  {
    if minMTU == maxMTU then Found(minMTU)
    else if cancelled(round) then Cancelled
    else
      var mtus := MtusToTest(minMTU, maxMTU);
      var i := Highest(mtus, round, passes);
      if i == |mtus| - 1 then MtusSpread(minMTU, maxMTU); Found(maxMTU)
      else if i >= 0 then Shrinks(minMTU, maxMTU, i); Search(mtus[i], mtus[i + 1] - 1, round + 1, passes, cancelled)
      else NotFound
  }

  /** One step of the search, by the last value that passes. */
  lemma SearchStep(minMTU: nat, maxMTU: nat, round: nat, passes: (nat, nat) -> bool, cancelled: nat -> bool, i: int)
    requires minMTU < maxMTU && !cancelled(round)
    requires var mtus := MtusToTest(minMTU, maxMTU);
             && -1 <= i < |mtus| && (i >= 0 ==> passes(round, mtus[i]))
             && forall j :: i < j < |mtus| ==> !passes(round, mtus[j])
    ensures var mtus := MtusToTest(minMTU, maxMTU);
            && (0 <= i < |mtus| - 1 ==> mtus[i] < mtus[i + 1] && mtus[i + 1] - mtus[i] <= maxMTU - minMTU
                                        && mtus[i + 1] <= maxMTU)
            && Search(minMTU, maxMTU, round, passes, cancelled)
               == if i == |mtus| - 1 then Found(maxMTU)
                  else if i >= 0 then Search(mtus[i], mtus[i + 1] - 1, round + 1, passes, cancelled)
                  else NotFound
  {
    hide MtusToTest, Highest, WidestGap;
    var mtus := MtusToTest(minMTU, maxMTU);
    if 0 <= i < |mtus| - 1 {
      Shrinks(minMTU, maxMTU, i);
    }
    assert Highest(mtus, round, passes) == i;
  }

  lemma SearchOfOne(mtu: nat, round: nat, passes: (nat, nat) -> bool, cancelled: nat -> bool)
    ensures Search(mtu, mtu, round, passes, cancelled) == Found(mtu)
  {
  }

  lemma CancelledAtOnce(minMTU: nat, maxMTU: nat, round: nat, passes: (nat, nat) -> bool, cancelled: nat -> bool)
    requires minMTU < maxMTU && cancelled(round)
    ensures Search(minMTU, maxMTU, round, passes, cancelled) == Cancelled
  {
  }

  ghost function Best(t: Round, passes: (nat, nat) -> bool): int {
    Highest(Values(t), t.number, passes)
  }

  /** The rounds that the search enters. */
  ghost function Tried(minMTU: nat, maxMTU: nat, round: nat, passes: (nat, nat) -> bool, cancelled: nat -> bool)
    : seq<Round>
    requires minMTU <= maxMTU
    decreases maxMTU - minMTU
  {
    if minMTU == maxMTU then []
    else
      var t := Bounds(round, minMTU, maxMTU);
      var mtus, i := Values(t), Best(t, passes);
      if !cancelled(round) && 0 <= i < |mtus| - 1 then
        Shrinks(minMTU, maxMTU, i);
        [t] + Tried(mtus[i], mtus[i + 1] - 1, round + 1, passes, cancelled)
      else [t]
  }

  lemma TriedStep(t: Round, passes: (nat, nat) -> bool, cancelled: nat -> bool, mtus: seq<nat>, i: int)
    requires !cancelled(t.number) && mtus == Values(t) && i == Best(t, passes) && -1 <= i < |mtus|
    requires 0 <= i < |mtus| - 1 ==>
               t.low <= mtus[i] < mtus[i + 1] <= t.high && mtus[i + 1] - mtus[i] <= t.high - t.low
    ensures Tried(t.low, t.high, t.number, passes, cancelled)
            == if 0 <= i < |mtus| - 1 then [t] + Tried(mtus[i], mtus[i + 1] - 1, t.number + 1, passes, cancelled)
               else [t]
  {
    hide Values, Best, WidestGap;
  }

  /** One goroutine for each test, all of them waited for. */
  method RunTests(mtus: seq<nat>, round: nat, passes: (nat, nat) -> bool) returns (tests: array<TestUnit>)
    ensures fresh(tests) && tests.Length == |mtus|
    ensures forall j :: 0 <= j < |mtus| ==> tests[j] == TestUnit(mtus[j], passes(round, mtus[j]))
  {
    tests := new TestUnit[|mtus|](i requires 0 <= i < |mtus| => TestUnit(mtus[i], false));
    for i := 0 to tests.Length
      invariant forall j :: 0 <= j < i ==> tests[j] == TestUnit(mtus[j], passes(round, mtus[j]))
      invariant forall j :: i <= j < tests.Length ==> tests[j] == TestUnit(mtus[j], false)
    {
      tests[i] := TestUnit(tests[i].mtu, passes(round, tests[i].mtu));
    }
  }

  method PathMtuDiscover(minMTU: nat, maxMTU: nat, round: nat, passes: (nat, nat) -> bool, cancelled: nat -> bool)
    returns (r: Found)
    requires minMTU <= maxMTU && CanCount(minMTU, maxMTU)
    ensures r == Search(minMTU, maxMTU, round, passes, cancelled)
    decreases maxMTU - minMTU
  {
    hide *;
    EndsOfTests(minMTU, maxMTU);
    var made := MakeMTUsToTest(minMTU, maxMTU);
    var mtusToTest := made.value;
    if |mtusToTest| == 1 {
      SearchOfOne(minMTU, round, passes, cancelled);
      return Found(minMTU);
    }
    var tests := RunTests(mtusToTest, round, passes);
    if cancelled(round) {
      CancelledAtOnce(minMTU, maxMTU, round, passes, cancelled);
      return Cancelled;
    }
    ghost var highest := Highest(mtusToTest, round, passes);
    SearchStep(minMTU, maxMTU, round, passes, cancelled, highest);
    var i := tests.Length - 1;
    if tests[i].ok {
      return Found(tests[i].mtu);
    }
    i := i - 1;
    while i >= 0
      invariant highest <= i < tests.Length - 1
    {
      if tests[i].ok {
        assert i == highest;
        CountsOn(minMTU, maxMTU, tests[i].mtu, tests[i + 1].mtu - 1);
        r := PathMtuDiscover(tests[i].mtu, tests[i + 1].mtu - 1, round + 1, passes, cancelled);
        return;
      }
      i := i - 1;
    }
    return NotFound;
  }

  // ------------------------------------------------------------- correctness

  /** A path that lets through packets of size p and less, in every round. */
  ghost predicate Steady(p: nat, passes: (nat, nat) -> bool) {
    forall round: nat, mtu: nat :: passes(round, mtu) <==> mtu <= p
  }

  ghost function Min(a: nat, b: nat): nat {
    if a < b then a else b
  }

  /** Where the path MTU lies between the tested values. */
  lemma HighestOnSteady(minMTU: nat, maxMTU: nat, round: nat, passes: (nat, nat) -> bool, p: nat) returns (i: nat)
    requires minMTU < maxMTU && Steady(p, passes) && minMTU <= p
    ensures var mtus := MtusToTest(minMTU, maxMTU);
            && i == Highest(mtus, round, passes) && i < |mtus| && mtus[i] <= p
            && (if i == |mtus| - 1 then maxMTU <= p else p < mtus[i + 1])
  {
    MtusSpread(minMTU, maxMTU);
    var mtus := MtusToTest(minMTU, maxMTU);
    hide MtusToTest, WidestGap, Highest;
    assert passes(round, mtus[0]);
    i := Highest(mtus, round, passes);
    assert i + 1 < |mtus| ==> !passes(round, mtus[i + 1]);
  }

  /** On a steady path that lets the smallest packets through, the search finds its MTU. */
  lemma {:induction false} FindsPathMtu(minMTU: nat, maxMTU: nat, round: nat, passes: (nat, nat) -> bool,
                                        cancelled: nat -> bool, p: nat)
    requires minMTU <= maxMTU && Steady(p, passes) && minMTU <= p
    requires forall n: nat :: !cancelled(n)
    ensures Search(minMTU, maxMTU, round, passes, cancelled) == Found(Min(p, maxMTU))
    decreases maxMTU - minMTU
  {
    hide MtusToTest, WidestGap, Highest, Steady, Search;
    if minMTU == maxMTU {
      SearchOfOne(minMTU, round, passes, cancelled);
    } else {
      var mtus := MtusToTest(minMTU, maxMTU);
      var i := HighestOnSteady(minMTU, maxMTU, round, passes, p);
      SearchStep(minMTU, maxMTU, round, passes, cancelled, i);
      if i < |mtus| - 1 {
        Shrinks(minMTU, maxMTU, i);
        FindsPathMtu(mtus[i], mtus[i + 1] - 1, round + 1, passes, cancelled, p);
      }
    }
  }

  /** Below the smallest size, nothing is found, except when there is nothing to choose. */
  lemma NothingFoundBelow(minMTU: nat, maxMTU: nat, round: nat, passes: (nat, nat) -> bool, cancelled: nat -> bool,
                          p: nat)
    requires minMTU <= maxMTU && Steady(p, passes) && p < minMTU
    requires forall n: nat :: !cancelled(n)
    ensures Search(minMTU, maxMTU, round, passes, cancelled) == if minMTU == maxMTU then Found(minMTU) else NotFound
  {
    hide MtusToTest, WidestGap, Highest, Search;
    if minMTU == maxMTU {
      SearchOfOne(minMTU, round, passes, cancelled);
    } else {
      MtusSpread(minMTU, maxMTU);
      var mtus := MtusToTest(minMTU, maxMTU);
      assert forall j :: 0 <= j < |mtus| ==> mtus[0] <= mtus[j];
      SearchStep(minMTU, maxMTU, round, passes, cancelled, -1);
    }
  }

  /** A packet of this size was sent in one of the rounds, and got through. */
  ghost predicate Passed(rounds: seq<Round>, passes: (nat, nat) -> bool, mtu: nat) {
    exists t :: t in rounds && mtu in Values(t) && passes(t.number, mtu)
  }

  /** Whatever the network does, a value found passed a test that was sent, unless it is the smallest one. */
  lemma {:induction false} FoundPassedOrIsMin(minMTU: nat, maxMTU: nat, round: nat, passes: (nat, nat) -> bool,
                                              cancelled: nat -> bool)
    requires minMTU <= maxMTU
    ensures match Search(minMTU, maxMTU, round, passes, cancelled)
            case Found(mtu) =>
              && minMTU <= mtu <= maxMTU
              && (mtu == minMTU || Passed(Tried(minMTU, maxMTU, round, passes, cancelled), passes, mtu))
            case _ => true
    decreases maxMTU - minMTU
  {
    hide MtusToTest, WidestGap, Highest, Search, Tried;
    if minMTU == maxMTU {
      SearchOfOne(minMTU, round, passes, cancelled);
    } else if cancelled(round) {
      CancelledAtOnce(minMTU, maxMTU, round, passes, cancelled);
    } else {
      var mtus := MtusToTest(minMTU, maxMTU);
      MtusSpread(minMTU, maxMTU);
      var i := Highest(mtus, round, passes);
      SearchStep(minMTU, maxMTU, round, passes, cancelled, i);
      if 0 <= i < |mtus| - 1 {
        Shrinks(minMTU, maxMTU, i);
      }
      TriedStep(Bounds(round, minMTU, maxMTU), passes, cancelled, mtus, i);
      assert i >= 0 ==> mtus[i] in MtusToTest(minMTU, maxMTU);
      if 0 <= i < |mtus| - 1 {
        FoundPassedOrIsMin(mtus[i], mtus[i + 1] - 1, round + 1, passes, cancelled);
      }
    }
  }

  /** The search is cut short exactly when one of the rounds it enters is cancelled. */
  lemma {:induction false} CancelledIff(minMTU: nat, maxMTU: nat, round: nat, passes: (nat, nat) -> bool,
                                        cancelled: nat -> bool)
    requires minMTU <= maxMTU
    ensures Search(minMTU, maxMTU, round, passes, cancelled).Cancelled?
            <==> exists t :: t in Tried(minMTU, maxMTU, round, passes, cancelled) && cancelled(t.number)
    decreases maxMTU - minMTU
  {
    hide MtusToTest, WidestGap, Highest, Search, Tried;
    if minMTU == maxMTU {
      SearchOfOne(minMTU, round, passes, cancelled);
      TriedNone(minMTU, round, passes, cancelled);
    } else if cancelled(round) {
      CancelledAtOnce(minMTU, maxMTU, round, passes, cancelled);
      TriedCancelled(minMTU, maxMTU, round, passes, cancelled);
    } else {
      var mtus := MtusToTest(minMTU, maxMTU);
      MtusSpread(minMTU, maxMTU);
      var i := Highest(mtus, round, passes);
      SearchStep(minMTU, maxMTU, round, passes, cancelled, i);
      if 0 <= i < |mtus| - 1 {
        Shrinks(minMTU, maxMTU, i);
      }
      TriedStep(Bounds(round, minMTU, maxMTU), passes, cancelled, mtus, i);
      if 0 <= i < |mtus| - 1 {
        CancelledIff(mtus[i], mtus[i + 1] - 1, round + 1, passes, cancelled);
      }
    }
  }

  lemma TriedNone(mtu: nat, round: nat, passes: (nat, nat) -> bool, cancelled: nat -> bool)
    ensures Tried(mtu, mtu, round, passes, cancelled) == []
  {
  }

  lemma TriedCancelled(minMTU: nat, maxMTU: nat, round: nat, passes: (nat, nat) -> bool, cancelled: nat -> bool)
    requires minMTU < maxMTU && cancelled(round)
    ensures Tried(minMTU, maxMTU, round, passes, cancelled) == [Bounds(round, minMTU, maxMTU)]
  {
    hide MtusToTest, Highest, WidestGap, StrictlyIncreasing, Spread;
  }

  // -------------------------------------------------------- number of rounds

  /** Index of the last value up to p. */
  ghost function Below(mtus: seq<nat>, p: nat): (h: int)
    ensures -1 <= h < |mtus|
    ensures h >= 0 ==> mtus[h] <= p
    ensures forall j :: h < j < |mtus| ==> p < mtus[j]
  {
    if mtus == [] then -1
    else if mtus[|mtus| - 1] <= p then |mtus| - 1
    else Below(mtus[..|mtus| - 1], p)
  }

  /** How many rounds of tests the search takes on a steady path. */
  ghost function Rounds(minMTU: nat, maxMTU: nat, p: nat): nat
    requires minMTU <= maxMTU
    decreases maxMTU - minMTU
  {
    if minMTU == maxMTU then 0
    else
      var mtus := MtusToTest(minMTU, maxMTU);
      var i := Below(mtus, p);
      if 0 <= i < |mtus| - 1 then Shrinks(minMTU, maxMTU, i); 1 + Rounds(mtus[i], mtus[i + 1] - 1, p)
      else 1
  }

  lemma SameBest(mtus: seq<nat>, round: nat, passes: (nat, nat) -> bool, p: nat)
    requires Steady(p, passes)
    ensures Highest(mtus, round, passes) == Below(mtus, p)
  {
    if mtus != [] {
      SameBest(mtus[..|mtus| - 1], round, passes, p);
    }
  }

  lemma RoundsStepBy(minMTU: nat, maxMTU: nat, p: nat, i: int)
    requires minMTU < maxMTU && i == Below(MtusToTest(minMTU, maxMTU), p)
    requires var mtus := MtusToTest(minMTU, maxMTU);
             0 <= i < |mtus| - 1 ==> minMTU <= mtus[i] < mtus[i + 1] <= maxMTU && mtus[i + 1] - mtus[i] <= maxMTU - minMTU
    ensures var mtus := MtusToTest(minMTU, maxMTU);
            Rounds(minMTU, maxMTU, p) == 1 + if 0 <= i < |mtus| - 1 then Rounds(mtus[i], mtus[i + 1] - 1, p) else 0
  {
    hide MtusToTest, Below, WidestGap, StrictlyIncreasing, Spread;
  }

  /** On a steady path, the search enters just that many rounds. */
  lemma {:induction false} RoundsAreTried(minMTU: nat, maxMTU: nat, round: nat, passes: (nat, nat) -> bool,
                                          cancelled: nat -> bool, p: nat)
    requires minMTU <= maxMTU && Steady(p, passes) && forall n: nat :: !cancelled(n)
    ensures |Tried(minMTU, maxMTU, round, passes, cancelled)| == Rounds(minMTU, maxMTU, p)
    decreases maxMTU - minMTU
  {
    hide MtusToTest, WidestGap, Highest, Below, Steady, Tried;
    if minMTU == maxMTU {
      TriedNone(minMTU, round, passes, cancelled);
    } else {
      var mtus := MtusToTest(minMTU, maxMTU);
      SameBest(mtus, round, passes, p);
      var i := Highest(mtus, round, passes);
      if 0 <= i < |mtus| - 1 {
        Shrinks(minMTU, maxMTU, i);
        RoundsAreTried(mtus[i], mtus[i + 1] - 1, round + 1, passes, cancelled, p);
      }
      TriedStep(Bounds(round, minMTU, maxMTU), passes, cancelled, mtus, i);
      hide Rounds;
      RoundsStepBy(minMTU, maxMTU, p, i);
    }
  }

  /** The widest search that ends after the given number of rounds: 11, 120, 1210. */
  ghost function Reach(rounds: nat): nat {
    if rounds == 0 then 0 else if rounds == 1 then 11 else 10 * (Reach(rounds - 1) + 1)
  }

  lemma ReachOfThree()
    ensures Reach(3) == 1210
  {
    assert Reach(2) == 120;
  }

  lemma {:induction false} WithinReach(minMTU: nat, maxMTU: nat, p: nat, rounds: nat)
    requires minMTU <= maxMTU && maxMTU - minMTU <= Reach(rounds)
    ensures Rounds(minMTU, maxMTU, p) <= rounds
    decreases rounds
  {
    hide MtusToTest, Below;
    if minMTU < maxMTU {
      var mtus := MtusToTest(minMTU, maxMTU);
      var i := Below(mtus, p);
      if 0 <= i < |mtus| - 1 {
        Shrinks(minMTU, maxMTU, i);
        if rounds == 1 {
          assert mtus[i] == mtus[i + 1] - 1;
        } else {
          assert mtus[i + 1] - 1 - mtus[i] <= Reach(rounds - 1);
          WithinReach(mtus[i], mtus[i + 1] - 1, p, rounds - 1);
        }
      }
    }
  }

  /** Beyond that, some path takes more rounds. */
  lemma {:induction false} BeyondReach(minMTU: nat, maxMTU: nat, rounds: nat) returns (p: nat)
    requires minMTU <= maxMTU && maxMTU - minMTU > Reach(rounds)
    ensures minMTU <= p <= maxMTU && Rounds(minMTU, maxMTU, p) > rounds
    decreases rounds
  {
    if rounds == 0 {
      p := minMTU;
    } else {
      ReachGrows(rounds);
      hide MtusToTest, Below, Reach, WidestGap, Rounds;
      var i, low, high := WidestInner(minMTU, maxMTU);
      p := BeyondReach(low, high, rounds - 1);
      RoundsStep(minMTU, maxMTU, p, i);
    }
  }

  /** The widest search that a round can leave. */
  lemma WidestInner(minMTU: nat, maxMTU: nat) returns (i: nat, low: nat, high: nat)
    requires maxMTU - minMTU > MTUS_LENGTH
    ensures var mtus := MtusToTest(minMTU, maxMTU); i + 1 < |mtus| && low == mtus[i] && high == mtus[i + 1] - 1
    ensures minMTU <= low <= high <= maxMTU && high - low == WidestGap(maxMTU - minMTU) - 1
  {
    hide MtusToTest, WidestGap;
    i := WidestGapIsReached(minMTU, maxMTU);
    Shrinks(minMTU, maxMTU, i);
    var mtus := MtusToTest(minMTU, maxMTU);
    low, high := mtus[i], mtus[i + 1] - 1;
  }

  lemma RoundsStep(minMTU: nat, maxMTU: nat, p: nat, i: nat)
    requires minMTU < maxMTU && i + 1 < |MtusToTest(minMTU, maxMTU)|
    requires MtusToTest(minMTU, maxMTU)[i] <= p < MtusToTest(minMTU, maxMTU)[i + 1]
    ensures var mtus := MtusToTest(minMTU, maxMTU);
            Rounds(minMTU, maxMTU, p) == 1 + Rounds(mtus[i], mtus[i + 1] - 1, p)
  {
    hide MtusToTest, Below, WidestGap;
    var mtus := MtusToTest(minMTU, maxMTU);
    MtusSpread(minMTU, maxMTU);
    BelowIs(mtus, p, i);
    assert minMTU < maxMTU && 0 <= Below(mtus, p) < |mtus| - 1;
    hide StrictlyIncreasing, Spread;
  }

  lemma BelowIs(mtus: seq<nat>, p: nat, i: nat)
    requires StrictlyIncreasing(mtus) && i + 1 < |mtus| && mtus[i] <= p < mtus[i + 1]
    ensures Below(mtus, p) == i
  {
    hide Below;
    assert forall j :: i + 1 <= j < |mtus| ==> mtus[i + 1] <= mtus[j];
  }

  lemma ReachGrows(rounds: nat)
    requires rounds > 0
    ensures Reach(rounds) >= 11
    ensures forall diff :: diff > Reach(rounds) ==> WidestGap(diff) - 1 > Reach(rounds - 1)
  {
    if rounds > 1 {
      ReachGrows(rounds - 1);
    }
  }

  /** The path that lets through packets of size p and less. */
  ghost function PathOf(p: nat): (nat, nat) -> bool {
    (round, mtu) => mtu <= p
  }

  /**
    A search that is not cancelled enters at most three rounds on every steady path, exactly
    when the least and the greatest value are at most 1210 apart, so not for all of the 1728
    values claimed.
   */
  lemma ThreeRoundsIff(minMTU: nat, maxMTU: nat, round: nat, cancelled: nat -> bool)
    requires minMTU <= maxMTU && forall n: nat :: !cancelled(n)
    ensures (forall p :: |Tried(minMTU, maxMTU, round, PathOf(p), cancelled)| <= 3) <==> maxMTU - minMTU <= 1210
  {
    ReachOfThree();
    hide Reach, Tried, Rounds;
    if maxMTU - minMTU <= 1210 {
      forall p ensures |Tried(minMTU, maxMTU, round, PathOf(p), cancelled)| <= 3 {
        WithinReach(minMTU, maxMTU, p, 3);
        RoundsAreTried(minMTU, maxMTU, round, PathOf(p), cancelled, p);
      }
    } else {
      var p := BeyondReach(minMTU, maxMTU, 3);
      RoundsAreTried(minMTU, maxMTU, round, PathOf(p), cancelled, p);
    }
  }
}
