/** The MTU values tested in one round of a search. */
module MtuTests {
  import opened Wrappers

  const MTUS_LENGTH := 11

  /** All values, or eleven of them at equal distances, rounded half up. */
  ghost function MtusToTest(minMTU: nat, maxMTU: nat): (mtus: seq<nat>)
    requires minMTU <= maxMTU
  {
    var diff := maxMTU - minMTU;
    if diff <= MTUS_LENGTH then seq(diff + 1, i requires 0 <= i < diff + 1 => minMTU + i)
    else seq(MTUS_LENGTH, i requires 0 <= i < MTUS_LENGTH => minMTU + (i * diff + 5) / 10)
  }

  /** The widest distance between neighbours. */
  ghost function WidestGap(diff: nat): nat {
    if diff <= MTUS_LENGTH then 1 else (diff + 9) / 10
  }

  ghost predicate StrictlyIncreasing(s: seq<nat>) {
    forall i, j :: 0 <= i < j < |s| ==> s[i] < s[j]
  }

  /** From the least to the greatest value, at nearly equal distances. */
  ghost predicate Spread(mtus: seq<nat>, minMTU: nat, maxMTU: nat) {
    && mtus != [] && mtus[0] == minMTU && mtus[|mtus| - 1] == maxMTU
    && StrictlyIncreasing(mtus)
    && (forall i, j :: 0 <= i < j < |mtus| && j == i + 1 ==> mtus[j] - mtus[i] <= WidestGap(maxMTU - minMTU))
  }

  lemma Rounded(i: nat, diff: nat)
    requires diff > MTUS_LENGTH
    ensures (i * diff + 5) / 10 < ((i + 1) * diff + 5) / 10 <= (i * diff + 5) / 10 + (diff + 9) / 10
  {
    assert (i + 1) * diff == i * diff + diff;
  }

  lemma {:induction false} RoundedIncreases(i: nat, j: nat, diff: nat)
    requires diff > MTUS_LENGTH && i < j
    ensures (i * diff + 5) / 10 < (j * diff + 5) / 10
    decreases j
  {
    Rounded(j - 1, diff);
    if i < j - 1 {
      RoundedIncreases(i, j - 1, diff);
    }
  }

  lemma MtusSpread(minMTU: nat, maxMTU: nat)
    requires minMTU <= maxMTU
    ensures Spread(MtusToTest(minMTU, maxMTU), minMTU, maxMTU)
    ensures |MtusToTest(minMTU, maxMTU)| == 1 <==> minMTU == maxMTU
  {
    var diff, mtus := maxMTU - minMTU, MtusToTest(minMTU, maxMTU);
    if diff > MTUS_LENGTH {
      forall i, j | 0 <= i < j < |mtus| ensures mtus[i] < mtus[j] {
        RoundedIncreases(i, j, diff);
      }
      forall i, j | 0 <= i < j < |mtus| && j == i + 1 ensures mtus[j] - mtus[i] <= WidestGap(diff) {
        Rounded(i, diff);
      }
      assert 10 * diff + 5 == diff * 10 + 5;
    }
  }

  /** At the ends and in between, the values are the nearest ones to eleven equidistant points, half rounded up. */
  lemma MtusAreNearest(minMTU: nat, maxMTU: nat, i: nat)
    requires maxMTU - minMTU > MTUS_LENGTH && i < MTUS_LENGTH
    ensures |MtusToTest(minMTU, maxMTU)| == MTUS_LENGTH
    ensures var mtu := MtusToTest(minMTU, maxMTU)[i];
            10 * mtu - 5 <= 10 * minMTU + i * (maxMTU - minMTU) < 10 * mtu + 5
  {
    var x := i * (maxMTU - minMTU) + 5;
    assert x == 10 * (x / 10) + x % 10;
  }

  /** One round of a search: its number, and the bounds of the values tested in it. */
  datatype Bounds = Bounds(number: nat, low: nat, high: nat)

  type Round = t: Bounds | t.low < t.high witness Bounds(0, 0, 1)

  ghost function Values(t: Round): (mtus: seq<nat>)
    ensures |mtus| > 1 && mtus[0] == t.low && mtus[|mtus| - 1] == t.high
  {
    MtusSpread(t.low, t.high);
    MtusToTest(t.low, t.high)
  }

  /** The list is meant to have at most eleven values: it has twelve when they are eleven apart. */
  lemma AtMostElevenIff(minMTU: nat, maxMTU: nat)
    requires minMTU <= maxMTU
    ensures |MtusToTest(minMTU, maxMTU)| <= MTUS_LENGTH <==> maxMTU - minMTU != MTUS_LENGTH
    ensures |MtusToTest(minMTU, maxMTU)| <= MTUS_LENGTH + 1
  {
  }

  /** Ten distances that add up to diff: some distance is as wide as the widest. */
  lemma WidestGapIsReached(minMTU: nat, maxMTU: nat) returns (i: nat)
    requires maxMTU - minMTU > MTUS_LENGTH
    ensures i + 1 < |MtusToTest(minMTU, maxMTU)|
    ensures var mtus := MtusToTest(minMTU, maxMTU); mtus[i + 1] - mtus[i] == WidestGap(maxMTU - minMTU)
  {
    var mtus := MtusToTest(minMTU, maxMTU);
    var widest := WidestGap(maxMTU - minMTU);
    MtusSpread(minMTU, maxMTU);
    assert |mtus| == 11 && 10 * (widest - 1) < maxMTU - minMTU;
    hide MtusToTest, WidestGap, StrictlyIncreasing;
    i := 0;
    while i < 9 && mtus[i + 1] - mtus[i] != widest
      invariant i <= 9 && mtus[i] <= minMTU + i * (widest - 1)
    {
      assert (i + 1) * (widest - 1) == i * (widest - 1) + (widest - 1);
      i := i + 1;
    }
  }

  /** Counting up to the largest 32-bit number would wrap around and never end; larger steps do not count. */
  predicate CanCount(minMTU: nat, maxMTU: nat) {
    maxMTU <= 0xFFFF_FFFF && (maxMTU == 0xFFFF_FFFF ==> minMTU + MTUS_LENGTH < maxMTU)
  }

  /** The counter of 32 bits after so many turns of the loop that counts up. */
  ghost function CountedTo(minMTU: nat, turns: nat): nat {
    (minMTU + turns) % 0x1_0000_0000
  }

  /** The loop ends exactly under that condition. */
  lemma CountingEndsIff(minMTU: nat, maxMTU: nat)
    requires minMTU <= maxMTU <= 0xFFFF_FFFF && maxMTU - minMTU <= MTUS_LENGTH
    ensures CanCount(minMTU, maxMTU) <==> exists turns :: CountedTo(minMTU, turns) > maxMTU
  {
    if CanCount(minMTU, maxMTU) {
      assert CountedTo(minMTU, maxMTU + 1 - minMTU) == maxMTU + 1;
    }
  }

  lemma CountsOn(minMTU: nat, maxMTU: nat, low: nat, high: nat)
    requires CanCount(minMTU, maxMTU) && high < maxMTU
    ensures CanCount(low, high)
  {
  }

  lemma EndsOfTests(minMTU: nat, maxMTU: nat)
    requires minMTU <= maxMTU
    ensures var mtus := MtusToTest(minMTU, maxMTU);
            mtus != [] && mtus[|mtus| - 1] == maxMTU && (|mtus| == 1 <==> minMTU == maxMTU)
  {
    MtusSpread(minMTU, maxMTU);
  }

  /** None stands for the panic. */
  method MakeMTUsToTest(minMTU: nat, maxMTU: nat) returns (mtus: Option<seq<nat>>)
    requires CanCount(minMTU, maxMTU)
    ensures mtus == if minMTU <= maxMTU then Some(MtusToTest(minMTU, maxMTU)) else None
  {
    if minMTU > maxMTU {
      return None;
    }
    if maxMTU - minMTU <= MTUS_LENGTH {
      var all := AllMtus(minMTU, maxMTU);
      return Some(all);
    }
    var spaced := SpacedMtus(minMTU, maxMTU);
    return Some(spaced);
  }

  method AllMtus(minMTU: nat, maxMTU: nat) returns (list: seq<nat>)
    requires minMTU <= maxMTU <= minMTU + MTUS_LENGTH && CanCount(minMTU, maxMTU)
    ensures list == MtusToTest(minMTU, maxMTU)
  {
    list := [];
    var mtu := minMTU;
    while mtu <= maxMTU
      invariant minMTU <= mtu <= maxMTU + 1
      invariant |list| == mtu - minMTU && forall i :: 0 <= i < |list| ==> list[i] == minMTU + i
    {
      list := list + [mtu];
      mtu := (mtu + 1) % 0x1_0000_0000;
    }
  }

  method SpacedMtus(minMTU: nat, maxMTU: nat) returns (list: seq<nat>)
    requires maxMTU - minMTU > MTUS_LENGTH
    ensures list == MtusToTest(minMTU, maxMTU)
  {
    var diff := maxMTU - minMTU;
    list := [];
    var step := diff as real / 10.0;
    var mtu := minMTU as real;
    ghost var all := MtusToTest(minMTU, maxMTU);
    while |list| < MTUS_LENGTH - 1
      invariant |list| <= MTUS_LENGTH - 1 && mtu == minMTU as real + |list| as real * step
      invariant forall i :: 0 <= i < |list| ==> list[i] == all[i]
    {
      RoundHalfUp(minMTU, |list|, diff, mtu);
      list := list + [(mtu + 0.5).Floor];
      mtu := mtu + step;
    }
    MtusSpread(minMTU, maxMTU);
    list := list + [maxMTU];
  }

  lemma RoundHalfUp(minMTU: nat, i: nat, diff: nat, x: real)
    requires x == minMTU as real + i as real * (diff as real / 10.0)
    ensures (x + 0.5).Floor == minMTU + (i * diff + 5) / 10
  {
    var n := i * diff + 5;
    assert n as real == i as real * diff as real + 5.0;
    assert x + 0.5 == minMTU as real + n as real / 10.0;
    assert n == 10 * (n / 10) + n % 10;
    assert n as real / 10.0 == (n / 10) as real + (n % 10) as real / 10.0;
  }
}
