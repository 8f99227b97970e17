/**
  The path MTU search over ICMP: echo requests of every size to test are sent, and
  replies are collected until as many came as requests were sent, or until the
  connection is closed by the timeout.
 */
module IcmpMtu {
  import opened MtuTests
  import PathMtu

  /** What reading from the connection gives; after the last event it is closed. */
  datatype Event =
    | Echo(id: nat, length: nat)
    | Ignored          // destination unreachable, or time exceeded
    | Broken           // another message, or none that can be parsed or read

  datatype Collected = AllFound | TimedOut | Failed

  /** The network: an echo identifier for each test, and the replies to each round. */
  datatype Network = Network(header: nat, ids: (nat, nat) -> nat, events: (nat, seq<nat>) -> seq<Event>, sendFails: nat -> bool)

  datatype Found = Found(mtu: nat) | NotFound | Error

  const CONSERVATIVE_REPLY_LENGTH := 556

  /** The test a reply belongs to; a later test with the same identifier hides an earlier one. */
  ghost function IndexOf(ids: seq<nat>, id: nat): (i: int)
    ensures -1 <= i < |ids|
    ensures i >= 0 ==> ids[i] == id
    ensures forall j :: i < j < |ids| ==> ids[j] != id
  {
    if ids == [] then -1 else if ids[|ids| - 1] == id then |ids| - 1 else IndexOf(ids[..|ids| - 1], id)
  }

  /** A reply as long as its request, or cut to the conservative length. */
  predicate Fits(length: nat, sent: nat) {
    length == sent || (length < sent && length == CONSERVATIVE_REPLY_LENGTH)
  }

  /** How collecting ends, and the tests that replies were accepted for, in order. */
  ghost function Collect(ids: seq<nat>, sent: seq<nat>, events: seq<Event>, accepted: seq<nat>): (Collected, seq<nat>)
    requires |sent| == |ids|
    decreases |events|
  {
    if |accepted| >= |ids| then (AllFound, accepted)
    else if events == [] then (TimedOut, accepted)
    else match events[0]
      case Ignored => Collect(ids, sent, events[1..], accepted)
      case Broken => (Failed, accepted)
      case Echo(id, length) =>
        var j := IndexOf(ids, id);
        if j < 0 then Collect(ids, sent, events[1..], accepted)
        else if !Fits(length, sent[j]) then (Failed, accepted)
        else Collect(ids, sent, events[1..], accepted + [j])
  }

  method CollectReplies(ids: seq<nat>, sent: seq<nat>, events: seq<Event>, ok: array<bool>)
    returns (r: Collected, ghost accepted: seq<nat>)
    requires |sent| == |ids| == ok.Length && forall j :: 0 <= j < ok.Length ==> !ok[j]
    modifies ok
    ensures (r, accepted) == Collect(ids, sent, events, [])
    ensures forall j :: 0 <= j < ok.Length ==> (ok[j] <==> j in accepted)
  {
    var echoIdToTestIndex: map<nat, int> := map[];
    for i := 0 to |ids|
      invariant forall id: nat :: if id in echoIdToTestIndex then echoIdToTestIndex[id] == IndexOf(ids[..i], id) >= 0
                                  else IndexOf(ids[..i], id) == -1
    {
      assert ids[..i + 1][..i] == ids[..i];
      echoIdToTestIndex := echoIdToTestIndex[ids[i] := i];
    }
    assert ids[..|ids|] == ids;
    hide IndexOf;
    var idsFound, n := 0, 0;
    accepted := [];
    while idsFound < |ids|
      invariant 0 <= n <= |events| && idsFound == |accepted|
      invariant Collect(ids, sent, events[n..], accepted) == Collect(ids, sent, events, [])
      invariant forall j :: 0 <= j < ok.Length ==> (ok[j] <==> j in accepted)
      decreases |events| - n
    {
      if n == |events| {
        return TimedOut, accepted;
      }
      assert events[n..][1..] == events[n + 1..];
      match events[n] {
        case Ignored =>
        case Broken => return Failed, accepted;
        case Echo(id, length) =>
          if id in echoIdToTestIndex {
            var testIndex := echoIdToTestIndex[id];
            if !Fits(length, sent[testIndex]) {
              return Failed, accepted;
            }
            idsFound := idsFound + 1;
            ok[testIndex] := true;
            accepted := accepted + [testIndex];
          }
      }
      n := n + 1;
    }
    return AllFound, accepted;
  }

  // ---------------------------------------------- when all tests are answered

  ghost predicate Distinct(s: seq<nat>) {
    forall i, j :: 0 <= i < j < |s| ==> s[i] != s[j]
  }

  ghost function Elements(s: seq<nat>): set<nat> {
    set x | x in s
  }

  lemma {:induction false} ElementCount(s: seq<nat>)
    ensures |Elements(s)| <= |s|
    ensures |Elements(s)| == |s| <==> Distinct(s)
  {
    if s == [] {
      assert Elements(s) == {};
    } else {
      var init, last := s[..|s| - 1], s[|s| - 1];
      ElementCount(init);
      assert s == init + [last];
      assert Elements(s) == Elements(init) + {last};
      if last in Elements(init) {
        assert Elements(s) == Elements(init);
      } else {
        assert Distinct(s) <==> Distinct(init);
      }
    }
  }

  ghost function UpTo(n: nat): (r: set<nat>)
    ensures |r| == n && forall x: nat :: x in r <==> x < n
  {
    if n == 0 then {} else UpTo(n - 1) + {n - 1}
  }

  /** Indices below n, as many as n: every index occurs exactly when none occurs twice. */
  lemma AllIffDistinct(s: seq<nat>, n: nat)
    requires |s| == n && forall x :: x in s ==> x < n
    ensures (forall x :: 0 <= x < n ==> x in s) <==> Distinct(s)
  {
    ElementCount(s);
    var all := UpTo(n);
    assert Elements(s) <= all;
    if forall x :: 0 <= x < n ==> x in s {
      assert Elements(s) == all;
    }
    if Distinct(s) {
      SubsetOfSameSize(Elements(s), all);
      forall x | 0 <= x < n ensures x in s {
        assert x in all;
      }
    }
  }

  lemma SubsetOfSameSize(a: set<nat>, b: set<nat>)
    requires a <= b && |a| == |b|
    ensures a == b
  {
    assert a + (b - a) == b;
    assert b - a == {};
  }

  lemma {:induction false} CollectAccepts(ids: seq<nat>, sent: seq<nat>, events: seq<Event>, accepted: seq<nat>)
    requires |sent| == |ids| && |accepted| <= |ids| && forall x :: x in accepted ==> x < |ids|
    ensures var (r, all) := Collect(ids, sent, events, accepted);
            && accepted <= all && |all| <= |ids| && (forall x :: x in all ==> x < |ids|)
            && (r.AllFound? ==> |all| == |ids|)
    decreases |events|
  {
    if |accepted| < |ids| && events != [] {
      match events[0]
      case Ignored => CollectAccepts(ids, sent, events[1..], accepted);
      case Broken =>
      case Echo(id, length) =>
        var j := IndexOf(ids, id);
        if j < 0 {
          CollectAccepts(ids, sent, events[1..], accepted);
        } else if Fits(length, sent[j]) {
          CollectAccepts(ids, sent, events[1..], accepted + [j]);
        }
    }
  }

  // ------------------------------------------------------- how collecting ends

  /** A message that ends the collection: one that cannot be read, or a reply of a wrong length to some test. */
  ghost predicate IsBad(ids: seq<nat>, sent: seq<nat>, e: Event)
    requires |sent| == |ids|
  {
    e.Broken? || (e.Echo? && e.id in ids && !Fits(e.length, sent[IndexOf(ids, e.id)]))
  }

  ghost predicate NoneBad(ids: seq<nat>, sent: seq<nat>, events: seq<Event>)
    requires |sent| == |ids|
  {
    forall i :: 0 <= i < |events| ==> !IsBad(ids, sent, events[i])
  }

  /** How many messages are replies to some test. */
  ghost function Replying(ids: seq<nat>, events: seq<Event>): nat {
    if events == [] then 0
    else (if events[0].Echo? && events[0].id in ids then 1 else 0) + Replying(ids, events[1..])
  }

  /** How collecting ends when so many replies are missing. */
  ghost predicate CollectsAs(r: Collected, ids: seq<nat>, sent: seq<nat>, events: seq<Event>, missing: nat)
    requires |sent| == |ids|
  {
    match r
    case AllFound => exists k :: 0 <= k <= |events| && NoneBad(ids, sent, events[..k]) && Replying(ids, events[..k]) == missing
    case Failed => exists k :: 0 <= k < |events| && NoneBad(ids, sent, events[..k]) && IsBad(ids, sent, events[k])
                               && Replying(ids, events[..k]) < missing
    case TimedOut => NoneBad(ids, sent, events) && Replying(ids, events) < missing
  }

  lemma NoneBadLater(ids: seq<nat>, sent: seq<nat>, events: seq<Event>, k: nat)
    requires |sent| == |ids| && k < |events| && !IsBad(ids, sent, events[0])
    requires NoneBad(ids, sent, events[1..][..k])
    ensures NoneBad(ids, sent, events[..k + 1])
    ensures Replying(ids, events[..k + 1])
            == (if events[0].Echo? && events[0].id in ids then 1 else 0) + Replying(ids, events[1..][..k])
  {
    hide IsBad;
    assert events[..k + 1] == [events[0]] + events[1..][..k] && events[..k + 1][1..] == events[1..][..k];
  }

  lemma CollectsOneLater(r: Collected, ids: seq<nat>, sent: seq<nat>, events: seq<Event>, missing: nat, found: nat)
    requires |sent| == |ids| && events != [] && !IsBad(ids, sent, events[0]) && found <= missing && 0 < missing
    requires found == if events[0].Echo? && events[0].id in ids then 1 else 0
    requires CollectsAs(r, ids, sent, events[1..], missing - found)
    ensures CollectsAs(r, ids, sent, events, missing)
  {
    hide IsBad;
    var rest := events[1..];
    hide NoneBad;
    match r
    case AllFound =>
      var k :| 0 <= k <= |rest| && NoneBad(ids, sent, rest[..k]) && Replying(ids, rest[..k]) == missing - found;
      NoneBadLater(ids, sent, events, k);
    case Failed =>
      var k :| 0 <= k < |rest| && NoneBad(ids, sent, rest[..k]) && IsBad(ids, sent, rest[k])
               && Replying(ids, rest[..k]) < missing - found;
      NoneBadLater(ids, sent, events, k);
      assert IsBad(ids, sent, events[k + 1]);
    case TimedOut =>
      assert rest[..|rest|] == rest && events[..|events|] == events;
      NoneBadLater(ids, sent, events, |rest|);
  }

  /**
    Collecting ends with all replies as soon as enough have come, with an error at the first bad
    message before that, and with a timeout if there is neither.
   */
  lemma {:induction false} CollectEndsAs(ids: seq<nat>, sent: seq<nat>, events: seq<Event>, accepted: seq<nat>)
    requires |sent| == |ids| && |accepted| <= |ids|
    ensures CollectsAs(Collect(ids, sent, events, accepted).0, ids, sent, events, |ids| - |accepted|)
    decreases |events|
  {
    var missing := |ids| - |accepted|;
    if missing == 0 {
      assert NoneBad(ids, sent, events[..0]) && Replying(ids, events[..0]) == 0;
    } else if events != [] {
      var e := events[0];
      assert e.Echo? ==> (e.id in ids <==> IndexOf(ids, e.id) >= 0);
      if IsBad(ids, sent, e) {
        assert NoneBad(ids, sent, events[..0]) && Replying(ids, events[..0]) == 0;
      } else if e.Echo? && e.id in ids {
        CollectEndsAs(ids, sent, events[1..], accepted + [IndexOf(ids, e.id)]);
        CollectsOneLater(Collect(ids, sent, events, accepted).0, ids, sent, events, missing, 1);
      } else {
        CollectEndsAs(ids, sent, events[1..], accepted);
        CollectsOneLater(Collect(ids, sent, events, accepted).0, ids, sent, events, missing, 0);
      }
    }
  }

  lemma {:induction false} ReplyingMore(ids: seq<nat>, events: seq<Event>, k: nat)
    requires k <= |events|
    ensures Replying(ids, events[..k]) <= Replying(ids, events)
    decreases |events|
  {
    if k > 0 {
      assert events[..k][1..] == events[1..][..k - 1];
      ReplyingMore(ids, events[1..], k - 1);
    } else {
      assert events[..k] == [];
    }
  }

  lemma FewerBefore(ids: seq<nat>, events: seq<Event>, k: nat, l: nat)
    requires k <= l <= |events|
    ensures Replying(ids, events[..k]) <= Replying(ids, events[..l])
  {
    assert events[..l][..k] == events[..k];
    ReplyingMore(ids, events[..l], k);
  }

  /** The three ways to end exclude each other. */
  lemma CollectsOneWay(r: Collected, ids: seq<nat>, sent: seq<nat>, events: seq<Event>, missing: nat, other: Collected)
    requires |sent| == |ids| && CollectsAs(r, ids, sent, events, missing) && CollectsAs(other, ids, sent, events, missing)
    ensures r == other
    decreases if r.AllFound? then 0 else 1
  {
    hide IsBad;
    if r.AllFound? && !other.AllFound? {
      var k :| 0 <= k <= |events| && NoneBad(ids, sent, events[..k]) && Replying(ids, events[..k]) == missing;
      if other.Failed? {
        var l :| 0 <= l < |events| && NoneBad(ids, sent, events[..l]) && IsBad(ids, sent, events[l])
                 && Replying(ids, events[..l]) < missing;
        if l >= k {
          FewerBefore(ids, events, k, l);
        }
      } else {
        ReplyingMore(ids, events, k);
      }
    } else if other.AllFound? && !r.AllFound? {
      CollectsOneWay(other, ids, sent, events, missing, r);
    }
  }

  /** When no error is reported, all sizes got through exactly if no reply came twice. */
  lemma AllAnsweredIff(ids: seq<nat>, sent: seq<nat>, events: seq<Event>)
    requires |sent| == |ids| && Collect(ids, sent, events, []).0.AllFound?
    ensures var accepted := Collect(ids, sent, events, []).1;
            (forall j :: 0 <= j < |ids| ==> j in accepted) <==> Distinct(accepted)
  {
    CollectAccepts(ids, sent, events, []);
    AllIffDistinct(Collect(ids, sent, events, []).1, |ids|);
  }

  // ------------------------------------------------------------- the search

  ghost predicate AllAtLeast(mtus: seq<nat>, least: int) {
    forall i :: 0 <= i < |mtus| ==> least <= mtus[i]
  }

  ghost function Ids(net: Network, round: nat, n: nat): seq<nat> {
    seq<nat>(n, i requires 0 <= i < n => net.ids(round, i))
  }

  ghost function SentBytes(net: Network, mtus: seq<nat>): seq<nat>
    requires AllAtLeast(mtus, net.header)
  {
    seq<nat>(|mtus|, i requires 0 <= i < |mtus| => mtus[i] - net.header)
  }

  ghost function Replies(net: Network, round: nat, mtus: seq<nat>): (Collected, seq<nat>)
    requires AllAtLeast(mtus, net.header)
  {
    Collect(Ids(net, round, |mtus|), SentBytes(net, mtus), net.events(round, mtus), [])
  }

  /** The last index before n that occurs in the list, or -1. */
  ghost function LastIn(accepted: seq<nat>, n: nat): (i: int)
    ensures -1 <= i < n
    ensures i >= 0 ==> i in accepted
    ensures forall j :: i < j < n ==> j !in accepted
  {
    if n == 0 then -1 else if n - 1 in accepted then n - 1 else LastIn(accepted, n - 1)
  }

  lemma MtusAreLarge(minMTU: nat, maxMTU: nat)
    requires minMTU <= maxMTU
    ensures forall h :: h <= minMTU ==> AllAtLeast(MtusToTest(minMTU, maxMTU), h)
  {
    MtusSpread(minMTU, maxMTU);
    var mtus := MtusToTest(minMTU, maxMTU);
    hide MtusToTest, WidestGap;
    assert forall i :: 0 <= i < |mtus| ==> mtus[0] <= mtus[i];
  }

  /** The replies to a round of tests. */
  ghost function RepliesTo(net: Network, t: Round): (Collected, seq<nat>)
    requires net.header <= t.low
  {
    MtusAreLarge(t.low, t.high);
    Replies(net, t.number, Values(t))
  }

  /** The last test but one that was answered, or -1. */
  ghost function Best(net: Network, t: Round): int
    requires net.header <= t.low
  {
    LastIn(RepliesTo(net, t).1, |Values(t)| - 1)
  }

  ghost function Search(minMTU: nat, maxMTU: nat, round: nat, net: Network): Found
    requires net.header <= minMTU <= maxMTU
    decreases maxMTU - minMTU
  {
    if minMTU == maxMTU then Found(minMTU)
    else if net.sendFails(round) then Error
    else
      var t := Bounds(round, minMTU, maxMTU);
      match RepliesTo(net, t).0
      case AllFound => Found(maxMTU)
      case Failed => Error
      case TimedOut =>
        var mtus, i := Values(t), Best(net, t);
        if i >= 0 then PathMtu.Shrinks(minMTU, maxMTU, i); Search(mtus[i], mtus[i + 1] - 1, round + 1, net)
        else NotFound
  }

  lemma SearchOfOne(mtu: nat, round: nat, net: Network)
    requires net.header <= mtu
    ensures Search(mtu, mtu, round, net) == Found(mtu)
  {
  }

  /** The bounds that a round leads to. */
  lemma NextBounds(net: Network, t: Round, mtus: seq<nat>, i: int)
    requires net.header <= t.low && mtus == Values(t) && i == Best(net, t)
    ensures i < |mtus| - 1
    ensures i >= 0 ==> t.low <= mtus[i] < mtus[i + 1] <= t.high && mtus[i + 1] - mtus[i] <= t.high - t.low
  {
    hide MtusToTest, LastIn, RepliesTo, WidestGap, StrictlyIncreasing, Spread;
    if i >= 0 {
      PathMtu.Shrinks(t.low, t.high, i);
    }
  }

  /** One step of the search, by what was collected and the last test but one that was answered. */
  lemma SearchStep(net: Network, t: Round, mtus: seq<nat>, i: int)
    requires net.header <= t.low && !net.sendFails(t.number)
    requires mtus == Values(t) && i == Best(net, t) < |mtus| - 1
    requires i >= 0 ==> t.low <= mtus[i] < mtus[i + 1] <= t.high && mtus[i + 1] - mtus[i] <= t.high - t.low
    ensures Search(t.low, t.high, t.number, net)
            == match RepliesTo(net, t).0
               case AllFound => Found(t.high)
               case Failed => Error
               case TimedOut => if i >= 0 then Search(mtus[i], mtus[i + 1] - 1, t.number + 1, net) else NotFound
  {
    hide Values, Best, RepliesTo, WidestGap;
  }

  method PmtudMultiSizes(minMTU: nat, maxMTU: nat, round: nat, net: Network) returns (r: Found)
    requires net.header <= minMTU <= maxMTU && CanCount(minMTU, maxMTU)
    ensures r == Search(minMTU, maxMTU, round, net)
    decreases maxMTU - minMTU
  {
    hide MtusToTest, WidestGap, StrictlyIncreasing, Search, Collect, CanCount;
    MtusSpread(minMTU, maxMTU);
    MtusAreLarge(minMTU, maxMTU);
    var made := MakeMTUsToTest(minMTU, maxMTU);
    var mtus := made.value;
    if |mtus| == 1 {
      SearchOfOne(minMTU, round, net);
      return Found(minMTU);
    }
    if net.sendFails(round) {
      SendFailure(minMTU, maxMTU, round, net);
      return Error;
    }
    assert AllAtLeast(mtus, net.header);
    var ids := seq<nat>(|mtus|, i requires 0 <= i < |mtus| => net.ids(round, i));
    var sent := seq<nat>(|mtus|, i requires 0 <= i < |mtus| => mtus[i] - net.header);
    assert ids == Ids(net, round, |mtus|) && sent == SentBytes(net, mtus);
    var ok := new bool[|mtus|](i => false);
    var collected;
    ghost var accepted;
    collected, accepted := CollectReplies(ids, sent, net.events(round, mtus), ok);
    ghost var t := Bounds(round, minMTU, maxMTU);
    ghost var last := Best(net, t);
    NextBounds(net, t, mtus, last);
    SearchStep(net, t, mtus, last);
    match collected {
      case AllFound => return Found(mtus[|mtus| - 1]);
      case Failed => return Error;
      case TimedOut =>
        var i := |mtus| - 2;
        while i >= 0
          invariant last <= i < |mtus| - 1
        {
          if ok[i] {
            assert i == last;
            CountsOn(minMTU, maxMTU, mtus[i], mtus[i + 1] - 1);
            r := PmtudMultiSizes(mtus[i], mtus[i + 1] - 1, round + 1, net);
            return;
          }
          i := i - 1;
        }
        return NotFound;
    }
  }

  lemma SendFailure(minMTU: nat, maxMTU: nat, round: nat, net: Network)
    requires net.header <= minMTU < maxMTU && net.sendFails(round)
    ensures Search(minMTU, maxMTU, round, net) == Error
  {
  }

  // ---------------------------------------------------- the rounds of a search

  /** The rounds that the search sends. */
  ghost function Tried(minMTU: nat, maxMTU: nat, round: nat, net: Network): seq<Round>
    requires net.header <= minMTU <= maxMTU
    decreases maxMTU - minMTU
  {
    if minMTU == maxMTU || net.sendFails(round) then []
    else
      var t := Bounds(round, minMTU, maxMTU);
      var mtus, i := Values(t), Best(net, t);
      if RepliesTo(net, t).0.TimedOut? && i >= 0 then
        NextBounds(net, t, mtus, i);
        [t] + Tried(mtus[i], mtus[i + 1] - 1, round + 1, net)
      else [t]
  }

  lemma TriedNone(minMTU: nat, maxMTU: nat, round: nat, net: Network)
    requires net.header <= minMTU <= maxMTU && (minMTU == maxMTU || net.sendFails(round))
    ensures Tried(minMTU, maxMTU, round, net) == []
    ensures Search(minMTU, maxMTU, round, net) == if minMTU == maxMTU then Found(minMTU) else Error
  {
    hide Values, Best, RepliesTo, WidestGap;
  }

  lemma TriedStep(net: Network, t: Round, mtus: seq<nat>, i: int)
    requires net.header <= t.low && !net.sendFails(t.number)
    requires mtus == Values(t) && i == Best(net, t) < |mtus| - 1
    requires i >= 0 ==> t.low <= mtus[i] < mtus[i + 1] <= t.high && mtus[i + 1] - mtus[i] <= t.high - t.low
    ensures Tried(t.low, t.high, t.number, net)
            == if RepliesTo(net, t).0.TimedOut? && i >= 0
               then [t] + Tried(mtus[i], mtus[i + 1] - 1, t.number + 1, net)
               else [t]
  {
    hide Values, Best, RepliesTo, WidestGap;
  }

  /** What a round that is sent leads to, for the search and for the rounds after it. */
  lemma RoundStep(net: Network, t: Round) returns (mtus: seq<nat>, i: int)
    requires net.header <= t.low && !net.sendFails(t.number)
    ensures mtus == Values(t) && StrictlyIncreasing(mtus) && i == Best(net, t) < |mtus| - 1
    ensures i >= 0 ==> t.low <= mtus[i] < mtus[i + 1] <= t.high && mtus[i + 1] - mtus[i] <= t.high - t.low
    ensures Search(t.low, t.high, t.number, net)
            == match RepliesTo(net, t).0
               case AllFound => Found(t.high)
               case Failed => Error
               case TimedOut => if i >= 0 then Search(mtus[i], mtus[i + 1] - 1, t.number + 1, net) else NotFound
    ensures Tried(t.low, t.high, t.number, net)
            == if RepliesTo(net, t).0.TimedOut? && i >= 0
               then [t] + Tried(mtus[i], mtus[i + 1] - 1, t.number + 1, net)
               else [t]
  {
    MtusSpread(t.low, t.high);
    hide MtusToTest, Best, RepliesTo, WidestGap, StrictlyIncreasing, Search, Tried;
    mtus, i := Values(t), Best(net, t);
    NextBounds(net, t, mtus, i);
    SearchStep(net, t, mtus, i);
    TriedStep(net, t, mtus, i);
  }

  // ------------------------------------------------------------- correctness

  lemma FailedStep(net: Network, first: Round, rest: seq<Round>)
    ensures (exists t :: t in [first] + rest && EndsAs(net, t, Failed))
            <==> EndsAs(net, first, Failed) || exists t :: t in rest && EndsAs(net, t, Failed)
  {
    hide EndsAs;
    assert first in [first] + rest && forall t :: t in [first] + rest <==> t == first || t in rest;
  }

  /** A search whose tests can all be sent fails exactly when the collection fails in one of its rounds. */
  lemma {:induction false} ErrorIff(minMTU: nat, maxMTU: nat, round: nat, net: Network)
    requires net.header <= minMTU <= maxMTU && forall n :: !net.sendFails(n)
    ensures Search(minMTU, maxMTU, round, net).Error?
            <==> exists t :: t in Tried(minMTU, maxMTU, round, net) && EndsAs(net, t, Failed)
    decreases maxMTU - minMTU
  {
    hide Values, Best, RepliesTo, Search, Tried;
    if minMTU == maxMTU {
      TriedNone(minMTU, maxMTU, round, net);
    } else {
      var t: Round := Bounds(round, minMTU, maxMTU);
      var mtus, i := RoundStep(net, t);
      var more := RepliesTo(net, t).0.TimedOut? && i >= 0;
      var rest := if more then Tried(mtus[i], mtus[i + 1] - 1, round + 1, net) else [];
      assert Tried(minMTU, maxMTU, round, net) == [t] + rest;
      assert EndsAs(net, t, Failed) <==> RepliesTo(net, t).0 == Failed;
      FailedStep(net, t, rest);
      if more {
        ErrorIff(mtus[i], mtus[i + 1] - 1, round + 1, net);
      }
    }
  }

  /** The test at an index was answered in a round. */
  ghost predicate AnsweredIn(net: Network, t: Round, j: nat) {
    j < |Values(t)| && net.header <= t.low && j in RepliesTo(net, t).1
  }

  /** In one of these rounds, a test of this size was answered. */
  ghost predicate Answered(net: Network, rounds: seq<Round>, mtu: nat) {
    exists t, j: nat :: t in rounds && AnsweredIn(net, t, j) && Values(t)[j] == mtu
  }

  ghost predicate EndsAs(net: Network, t: Round, r: Collected) {
    net.header <= t.low && RepliesTo(net, t).0 == r
  }

  /** No round ends without an error while its largest size was not answered. */
  ghost predicate LargestAnswered(net: Network, rounds: seq<Round>) {
    forall t :: t in rounds && EndsAs(net, t, AllFound) ==> AnsweredIn(net, t, |Values(t)| - 1)
  }

  /** No reply comes twice in a round that ends without an error. */
  ghost predicate NoDuplicates(net: Network, rounds: seq<Round>) {
    forall t :: t in rounds && EndsAs(net, t, AllFound) ==> Distinct(RepliesTo(net, t).1)
  }

  lemma NoDuplicatesAreEnough(net: Network, rounds: seq<Round>)
    requires NoDuplicates(net, rounds)
    ensures LargestAnswered(net, rounds)
  {
    forall t | t in rounds && EndsAs(net, t, AllFound) ensures AnsweredIn(net, t, |Values(t)| - 1) {
      MtusAreLarge(t.low, t.high);
      var mtus := Values(t);
      AllAnsweredIff(Ids(net, t.number, |mtus|), SentBytes(net, mtus), net.events(t.number, mtus));
      hide Collect, Values;
      assert |mtus| - 1 in RepliesTo(net, t).1;
    }
  }

  /** What one more round adds to the answered sizes. */
  lemma AnsweredStep(net: Network, first: Round, rest: seq<Round>, mtu: nat)
    ensures Answered(net, [first] + rest, mtu) <==> Answered(net, [first], mtu) || Answered(net, rest, mtu)
  {
    hide AnsweredIn, Values;
    assert forall t :: t in [first] + rest <==> t in [first] || t in rest;
  }

  lemma AnsweredFirst(net: Network, t: Round, mtu: nat)
    ensures Answered(net, [t], mtu) <==> exists j: nat :: AnsweredIn(net, t, j) && Values(t)[j] == mtu
  {
    hide Values, RepliesTo;
    assert t in [t];
  }

  /**
    Whatever the network does: a value found was answered, or is the smallest one, exactly
    when no round ended without an error while its largest size was not answered.
   */
  lemma {:induction false} FoundAnsweredIff(minMTU: nat, maxMTU: nat, round: nat, net: Network)
    requires net.header <= minMTU <= maxMTU
    ensures var tried := Tried(minMTU, maxMTU, round, net);
            match Search(minMTU, maxMTU, round, net)
            case Found(mtu) =>
              && minMTU <= mtu <= maxMTU
              && (mtu == minMTU || Answered(net, tried, mtu) <==> LargestAnswered(net, tried))
            case _ => true
    decreases maxMTU - minMTU
  {
    hide Values, Best, RepliesTo, WidestGap, Search, Tried, Answered, AnsweredIn;
    if minMTU == maxMTU || net.sendFails(round) {
      TriedNone(minMTU, maxMTU, round, net);
    } else {
      var t: Round := Bounds(round, minMTU, maxMTU);
      var mtus, i := RoundStep(net, t);
      if EndsAs(net, t, AllFound) {
        LastAnswered(net, t);
      } else if EndsAs(net, t, TimedOut) && i >= 0 {
        var low, high := mtus[i], mtus[i + 1] - 1;
        var found := Search(low, high, round + 1, net);
        FoundAnsweredIff(low, high, round + 1, net);
        if found.Found? {
          var rest := Tried(low, high, round + 1, net);
          BetweenNeighbours(net, t, mtus, i, rest, found.mtu);
          assert LargestAnswered(net, [t] + rest) <==> LargestAnswered(net, rest);
        }
      }
    }
  }

  lemma LastAnswered(net: Network, t: Round)
    requires EndsAs(net, t, AllFound)
    ensures Answered(net, [t], t.high) <==> LargestAnswered(net, [t])
  {
    var mtus := Values(t);
    MtusSpread(t.low, t.high);
    AnsweredFirst(net, t, t.high);
    hide MtusToTest, RepliesTo, Answered;
    assert t in [t] && AnsweredIn(net, t, |mtus| - 1) ==> mtus[|mtus| - 1] == t.high;
  }

  /** A value found after a round is answered in it only if it is the lower bound that it led to. */
  lemma BetweenNeighbours(net: Network, t: Round, mtus: seq<nat>, i: nat, rest: seq<Round>, mtu: nat)
    requires mtus == Values(t) && StrictlyIncreasing(mtus) && i + 1 < |mtus| && net.header <= t.low && i == Best(net, t)
    requires mtus[i] <= mtu < mtus[i + 1]
    ensures Answered(net, [t] + rest, mtu) <==> mtu == mtus[i] || Answered(net, rest, mtu)
    ensures mtu == t.low ==> mtu == mtus[i]
  {
    AnsweredStep(net, t, rest, mtu);
    AnsweredFirst(net, t, mtu);
    hide Values, RepliesTo, Answered, LastIn;
    assert AnsweredIn(net, t, i);
    forall j | 0 <= j < |mtus| && j != i ensures mtus[j] != mtu {
      assert j < i ==> mtus[j] < mtus[i];
      assert j > i + 1 ==> mtus[i + 1] < mtus[j];
    }
    assert i > 0 ==> mtus[0] < mtus[i];
  }

  /** The largest size was answered, but the round ended with a timeout. */
  ghost predicate LosesLargest(net: Network, t: Round) {
    AnsweredIn(net, t, |Values(t)| - 1) && EndsAs(net, t, TimedOut)
  }

  /**
    A timeout is taken to mean that the largest size failed. A value found is as large as
    everything that was answered exactly when no timed-out round had its largest size answered.
   */
  lemma {:induction false} NothingLostIff(minMTU: nat, maxMTU: nat, round: nat, net: Network)
    requires net.header <= minMTU <= maxMTU
    ensures var tried := Tried(minMTU, maxMTU, round, net);
            match Search(minMTU, maxMTU, round, net)
            case Found(mtu) =>
              && minMTU <= mtu <= maxMTU
              && ((forall x: nat :: Answered(net, tried, x) ==> x <= mtu) <==> forall t :: t in tried ==> !LosesLargest(net, t))
            case _ => true
    decreases maxMTU - minMTU
  {
    hide Values, Best, RepliesTo, WidestGap, Search, Tried, Answered, AnsweredIn, LosesLargest;
    if minMTU == maxMTU || net.sendFails(round) {
      TriedNone(minMTU, maxMTU, round, net);
      NoneAnswered(net);
    } else {
      var t: Round := Bounds(round, minMTU, maxMTU);
      var mtus, i := RoundStep(net, t);
      if EndsAs(net, t, AllFound) {
        AllAtMost(net, t, mtus, |mtus| - 1);
        NotLost(net, t);
      } else if EndsAs(net, t, TimedOut) && i >= 0 {
        var low, high := mtus[i], mtus[i + 1] - 1;
        var found := Search(low, high, round + 1, net);
        NothingLostIff(low, high, round + 1, net);
        if found.Found? {
          LostStep(net, t, mtus, i, Tried(low, high, round + 1, net), found.mtu);
        }
      }
    }
  }

  lemma NoneAnswered(net: Network)
    ensures forall x: nat :: !Answered(net, [], x)
  {
  }

  lemma NotLost(net: Network, t: Round)
    requires EndsAs(net, t, AllFound)
    ensures !LosesLargest(net, t)
  {
  }

  /** All that a round answered is up to a value, if no larger test was answered. */
  lemma AllAtMost(net: Network, t: Round, mtus: seq<nat>, i: nat)
    requires mtus == Values(t) && StrictlyIncreasing(mtus) && i < |mtus|
    requires forall j: nat :: i < j < |mtus| ==> !AnsweredIn(net, t, j)
    ensures forall x: nat :: Answered(net, [t], x) ==> x <= mtus[i]
  {
    forall x: nat | Answered(net, [t], x) ensures x <= mtus[i] {
      AnsweredFirst(net, t, x);
    }
  }

  lemma LostStep(net: Network, t: Round, mtus: seq<nat>, i: nat, rest: seq<Round>, mtu: nat)
    requires mtus == Values(t) && StrictlyIncreasing(mtus) && EndsAs(net, t, TimedOut)
    requires i + 1 < |mtus| && i == Best(net, t) && mtus[i] <= mtu < mtus[i + 1]
    requires (forall x: nat :: Answered(net, rest, x) ==> x <= mtu) <==> forall u :: u in rest ==> !LosesLargest(net, u)
    ensures (forall x: nat :: Answered(net, [t] + rest, x) ==> x <= mtu)
            <==> forall u :: u in [t] + rest ==> !LosesLargest(net, u)
  {
    hide Values, RepliesTo, Answered, LastIn, LosesLargest;
    assert forall u :: u in [t] + rest <==> u == t || u in rest;
    forall x: nat ensures Answered(net, [t] + rest, x) <==> Answered(net, [t], x) || Answered(net, rest, x) {
      AnsweredStep(net, t, rest, x);
    }
    if AnsweredIn(net, t, |mtus| - 1) {
      LosesIt(net, t, mtus);
      assert mtus[i + 1] <= mtus[|mtus| - 1];
    } else {
      NotAnsweredAfter(net, t, mtus, i);
      AllAtMost(net, t, mtus, i);
    }
  }

  lemma LosesIt(net: Network, t: Round, mtus: seq<nat>)
    requires EndsAs(net, t, TimedOut) && mtus == Values(t) && AnsweredIn(net, t, |mtus| - 1)
    ensures LosesLargest(net, t) && Answered(net, [t], mtus[|mtus| - 1])
  {
    assert t in [t];
    hide AnsweredIn, Values;
  }

  lemma NotAnsweredAfter(net: Network, t: Round, mtus: seq<nat>, i: nat)
    requires net.header <= t.low && mtus == Values(t) && i == Best(net, t) && !AnsweredIn(net, t, |mtus| - 1)
    ensures forall j: nat :: i < j < |mtus| ==> !AnsweredIn(net, t, j)
    ensures !LosesLargest(net, t)
  {
    hide Values, RepliesTo, LastIn;
  }

  /** When the largest size is answered in a round that does not fail, it is reported exactly if no timeout came. */
  lemma LargestReportedIff(net: Network, t: Round)
    requires net.header <= t.low && !net.sendFails(t.number)
    requires AnsweredIn(net, t, |Values(t)| - 1) && !EndsAs(net, t, Failed)
    ensures Search(t.low, t.high, t.number, net) == Found(t.high) <==> EndsAs(net, t, AllFound)
  {
    hide Values, RepliesTo, Search, Tried, Best, AnsweredIn;
    var mtus, i := RoundStep(net, t);
    if i >= 0 {
      FoundAnsweredIff(mtus[i], mtus[i + 1] - 1, t.number + 1, net);
    }
  }

  /**
    Counting replies instead of tests goes wrong when one comes twice: here only the
    request of size 68 is ever answered, and 69 is reported.
   */
  lemma DuplicateReplies() returns (net: Network, t: Round)
    ensures net.header <= t.low && Search(t.low, t.high, t.number, net) == Found(69)
    ensures Values(t) == [68, 69] && RepliesTo(net, t) == (AllFound, [0, 0])
  {
    net := Network(20, (round, i) => i, (round, mtus) => [Echo(0, 48), Echo(0, 48)], round => false);
    t := Bounds(0, 68, 69);
    var mtus := Values(t);
    var ids, sent := Ids(net, 0, 2), SentBytes(net, mtus);
    assert mtus == [68, 69] && ids == [0, 1] && sent == [48, 49];
    assert ids[0] == 0 && ids[1] == 1;
    assert IndexOf(ids, 0) == 0;
    var events := [Echo(0, 48), Echo(0, 48)];
    hide IndexOf;
    assert [0] + [0] == [0, 0] && [] + [0] == [0];
    assert events[1..] == [Echo(0, 48)] && events[1..][1..] == [];
    assert Collect(ids, sent, events[1..][1..], [0, 0]) == (AllFound, [0, 0]);
    assert Collect(ids, sent, events[1..], [0]) == (AllFound, [0, 0]);
    assert Collect(ids, sent, events, []) == (AllFound, [0, 0]);
  }

  /** A timeout is taken to mean that the largest size failed, even when its reply came. */
  lemma LostReply() returns (net: Network, t: Round)
    ensures net.header <= t.low && Search(t.low, t.high, t.number, net) == Found(68)
    ensures Values(t) == [68, 69, 70] && RepliesTo(net, t) == (TimedOut, [0, 2])
  {
    net := Network(20, (round, i) => i, (round, mtus) => [Echo(0, 48), Echo(2, 50)], round => false);
    t := Bounds(0, 68, 70);
    var mtus := Values(t);
    var ids, sent := Ids(net, 0, 3), SentBytes(net, mtus);
    assert mtus == [68, 69, 70] && ids == [0, 1, 2] && sent == [48, 49, 50];
    assert ids[0] == 0 && ids[1] == 1 && ids[2] == 2;
    assert IndexOf(ids, 0) == 0 && IndexOf(ids, 2) == 2;
    assert [0] + [2] == [0, 2] && [] + [0] == [0];
    var events := [Echo(0, 48), Echo(2, 50)];
    hide IndexOf;
    assert events[1..] == [Echo(2, 50)] && events[1..][1..] == [];
    assert Collect(ids, sent, events[1..][1..], [0, 2]) == (TimedOut, [0, 2]);
    assert Collect(ids, sent, events[1..], [0]) == (TimedOut, [0, 2]);
    assert Collect(ids, sent, events, []) == (TimedOut, [0, 2]);
    assert LastIn([0, 2], 2) == 0;
    SearchOfOne(68, 1, net);
  }

  // ------------------------------------------------------------ steady paths

  /** A message that replies to no test: one to ignore, or an echo with an unknown identifier. */
  ghost predicate Noise(ids: seq<nat>, e: Event) {
    e.Ignored? || (e.Echo? && e.id !in ids)
  }

  /** The reply to a test, as long as the request or cut to the conservative length. */
  ghost predicate ReplyTo(ids: seq<nat>, sent: seq<nat>, e: Event, j: nat)
    requires j < |sent| == |ids|
  {
    e.Echo? && e.id == ids[j] && Fits(e.length, sent[j])
  }

  /** Every event is noise, which has origin -1, or the reply to the test that is its origin. */
  ghost predicate Explains(ids: seq<nat>, sent: seq<nat>, events: seq<Event>, origin: seq<int>)
    requires |sent| == |ids|
  {
    && |origin| == |events|
    && forall k :: 0 <= k < |events| ==>
                     && -1 <= origin[k] < |ids|
                     && if origin[k] < 0 then Noise(ids, events[k]) else ReplyTo(ids, sent, events[k], origin[k])
  }

  /** The tests that were replied to, in the order of the replies. */
  ghost function Tests(origin: seq<int>): (tests: seq<nat>)
    ensures forall j: nat :: j in tests <==> j in origin
  {
    if origin == [] then []
    else (if origin[0] >= 0 then [origin[0]] else []) + Tests(origin[1..])
  }

  /** No test is replied to twice. */
  ghost predicate OnceEach(origin: seq<int>) {
    forall k, l :: 0 <= k < l < |origin| && origin[k] >= 0 ==> origin[k] != origin[l]
  }

  lemma {:induction false} OnceEachIsDistinct(origin: seq<int>)
    requires OnceEach(origin)
    ensures Distinct(Tests(origin))
  {
    if origin != [] {
      OnceEachIsDistinct(origin[1..]);
      var rest := Tests(origin[1..]);
      if origin[0] >= 0 {
        assert origin[0] !in origin[1..];
        assert Tests(origin) == [origin[0]] + rest;
      } else {
        assert Tests(origin) == [] + rest == rest;
      }
    }
  }

  /** No later test has the same identifier. */
  ghost predicate Own(ids: seq<nat>, j: int)
    requires 0 <= j < |ids|
  {
    forall l :: j < l < |ids| ==> ids[l] != ids[j]
  }

  ghost predicate AllOwn(ids: seq<nat>, origin: seq<int>) {
    forall k :: 0 <= k < |origin| && 0 <= origin[k] < |ids| ==> Own(ids, origin[k])
  }

  lemma FirstEvent(ids: seq<nat>, sent: seq<nat>, events: seq<Event>, origin: seq<int>)
    requires |sent| == |ids| && Explains(ids, sent, events, origin) && events != []
    ensures Explains(ids, sent, events[1..], origin[1..])
    ensures var j := origin[0];
            if j < 0 then events[0].Ignored? || (events[0].Echo? && IndexOf(ids, events[0].id) < 0)
            else ReplyTo(ids, sent, events[0], j) && IndexOf(ids, ids[j]) >= j && (IndexOf(ids, ids[j]) == j <==> Own(ids, j))
  {
    hide IndexOf;
    var j := origin[0];
    if j >= 0 {
      assert ReplyTo(ids, sent, events[0], j);
    }
    assert forall k :: 0 <= k < |events[1..]| ==> events[1..][k] == events[k + 1] && origin[1..][k] == origin[k + 1];
  }

  /** When every test that is replied to has an identifier of its own, all replies are accepted. */
  lemma {:induction false} CollectsReplies(ids: seq<nat>, sent: seq<nat>, events: seq<Event>, origin: seq<int>,
                                           accepted: seq<nat>)
    requires |sent| == |ids| && Explains(ids, sent, events, origin) && AllOwn(ids, origin)
    requires |accepted| + |Tests(origin)| <= |ids|
    ensures Collect(ids, sent, events, accepted)
            == (if |accepted| + |Tests(origin)| == |ids| then AllFound else TimedOut, accepted + Tests(origin))
    decreases |events|
  {
    if |accepted| < |ids| && events != [] {
      FirstEvent(ids, sent, events, origin);
      hide IndexOf, Explains, Own;
      assert forall k :: 0 <= k < |origin[1..]| ==> origin[1..][k] == origin[k + 1];
      if origin[0] < 0 {
        assert [] + Tests(origin[1..]) == Tests(origin[1..]);
        CollectsReplies(ids, sent, events[1..], origin[1..], accepted);
      } else {
        CollectsReplies(ids, sent, events[1..], origin[1..], accepted + [origin[0]]);
        assert accepted + [origin[0]] + Tests(origin[1..]) == accepted + Tests(origin);
      }
    } else {
      assert accepted + Tests(origin) == accepted;
    }
  }

  ghost predicate Uncut(events: seq<Event>) {
    forall e :: e in events && e.Echo? ==> e.length != CONSERVATIVE_REPLY_LENGTH
  }

  /** A reply of full length, taken for that to a larger test with the same identifier, ends the round. */
  lemma {:induction false} SharedIdentifierFails(ids: seq<nat>, sent: seq<nat>, events: seq<Event>, origin: seq<int>,
                                                 accepted: seq<nat>)
    requires |sent| == |ids| && Explains(ids, sent, events, origin) && StrictlyIncreasing(sent) && Uncut(events)
    requires |accepted| + |Tests(origin)| <= |ids| && !AllOwn(ids, origin)
    ensures Collect(ids, sent, events, accepted).0.Failed?
    decreases |events|
  {
    FirstEvent(ids, sent, events, origin);
    assert Tests(origin) == (if origin[0] >= 0 then [origin[0]] else []) + Tests(origin[1..]);
    hide IndexOf, Explains;
    var k :| 0 <= k < |origin| && 0 <= origin[k] < |ids| && !Own(ids, origin[k]);
    hide Own;
    assert |Tests(origin)| > 0 by {
      assert (origin[k] as nat) in Tests(origin);
    }
    if origin[0] >= 0 && !Own(ids, origin[0]) {
      assert sent[origin[0]] < sent[IndexOf(ids, ids[origin[0]])];
      assert events[0] in events;
    } else {
      assert k > 0 && origin[1..][k - 1] == origin[k];
      assert forall e :: e in events[1..] ==> e in events;
      SharedIdentifierFails(ids, sent, events[1..], origin[1..],
                            if origin[0] < 0 then accepted else accepted + [origin[0]]);
    }
  }

  /** In a round, the tests up to size p are replied to once each, in any order, with noise in between. */
  ghost predicate AnsweredUpTo(net: Network, p: nat, t: Round, origin: seq<int>)
    requires net.header <= t.low
  {
    MtusAreLarge(t.low, t.high);
    && Explains(Ids(net, t.number, |Values(t)|), SentBytes(net, Values(t)), net.events(t.number, Values(t)), origin)
    && OnceEach(origin)
    && forall j: nat :: j in origin <==> j < |Values(t)| && Values(t)[j] <= p
  }

  /** A path that lets through packets of size p and less, and loses no reply. */
  ghost predicate SteadyPath(net: Network, p: nat) {
    forall t: Round :: net.header <= t.low ==> SteadyRound(net, p, t)
  }

  ghost predicate SteadyRound(net: Network, p: nat, t: Round)
    requires net.header <= t.low
  {
    !net.sendFails(t.number) && exists origin :: AnsweredUpTo(net, p, t, origin)
  }

  ghost predicate NoneCut(net: Network) {
    forall t: Round :: Uncut(net.events(t.number, Values(t)))
  }

  /** No test that gets through shares its identifier with a larger one. */
  ghost predicate OwnIdentifiers(net: Network, p: nat, t: Round) {
    forall i, j :: 0 <= i < j < |Values(t)| && Values(t)[i] <= p ==> net.ids(t.number, i) != net.ids(t.number, j)
  }

  lemma OrderIsAll(order: seq<nat>, mtus: seq<nat>, p: nat)
    requires Distinct(order) && forall j: nat :: j in order <==> j < |mtus| && mtus[j] <= p
    ensures |order| <= |mtus|
    ensures |order| == |mtus| <==> forall j :: 0 <= j < |mtus| ==> mtus[j] <= p
  {
    var all := UpTo(|mtus|);
    ElementCount(order);
    SubsetIsNotLarger(Elements(order), all);
    if |order| == |mtus| {
      AllIffDistinct(order, |mtus|);
    }
    if forall j :: 0 <= j < |mtus| ==> mtus[j] <= p {
      assert Elements(order) == all;
    }
  }

  lemma SubsetIsNotLarger(a: set<nat>, b: set<nat>)
    requires a <= b
    ensures |a| <= |b|
  {
    assert a + (b - a) == b;
  }

  lemma OwnReplies(net: Network, p: nat, t: Round, origin: seq<int>)
    requires net.header <= t.low && AnsweredUpTo(net, p, t, origin) && OwnIdentifiers(net, p, t)
    ensures var (r, accepted) := RepliesTo(net, t);
            && (forall j: nat :: j in accepted <==> j < |Values(t)| && Values(t)[j] <= p)
            && (if t.high <= p then r.AllFound? else r.TimedOut?)
  {
    MtusAreLarge(t.low, t.high);
    MtusSpread(t.low, t.high);
    var mtus := Values(t);
    var ids, sent, events := Ids(net, t.number, |mtus|), SentBytes(net, mtus), net.events(t.number, mtus);
    hide Values, MtusToTest, Collect, Explains, OnceEach, WidestGap, Distinct;
    OwnIdentifiersIff(net, p, t, mtus, ids, origin);
    OnceEachIsDistinct(origin);
    OrderIsAll(Tests(origin), mtus, p);
    hide Tests, AllOwn, OwnIdentifiers;
    assert |Tests(origin)| == |mtus| <==> t.high <= p;
    CollectsReplies(ids, sent, events, origin, []);
    assert [] + Tests(origin) == Tests(origin);
  }

  lemma SharedIdentifier(net: Network, p: nat, t: Round, origin: seq<int>)
    requires net.header <= t.low && AnsweredUpTo(net, p, t, origin) && !OwnIdentifiers(net, p, t)
    requires Uncut(net.events(t.number, Values(t)))
    ensures RepliesTo(net, t).0.Failed?
  {
    MtusAreLarge(t.low, t.high);
    MtusSpread(t.low, t.high);
    var mtus := Values(t);
    var ids, sent, events := Ids(net, t.number, |mtus|), SentBytes(net, mtus), net.events(t.number, mtus);
    hide Values, MtusToTest, Collect, Explains, OnceEach, WidestGap, Distinct, Uncut;
    OwnIdentifiersIff(net, p, t, mtus, ids, origin);
    OnceEachIsDistinct(origin);
    OrderIsAll(Tests(origin), mtus, p);
    SentIncreases(net, mtus);
    hide Tests, AllOwn, OwnIdentifiers, StrictlyIncreasing, Spread, AllAtLeast;
    SharedIdentifierFails(ids, sent, events, origin, []);
  }

  lemma SentIncreases(net: Network, mtus: seq<nat>)
    requires AllAtLeast(mtus, net.header) && StrictlyIncreasing(mtus)
    ensures StrictlyIncreasing(SentBytes(net, mtus))
  {
  }

  /** What a round on a steady path gives. */
  lemma SteadyReplies(net: Network, p: nat, t: Round)
    requires net.header <= t.low && SteadyPath(net, p)
    ensures !net.sendFails(t.number)
    ensures OwnIdentifiers(net, p, t) ==>
              && (if t.high <= p then EndsAs(net, t, AllFound) else EndsAs(net, t, TimedOut))
              && (t.low <= p < t.high ==> var mtus, i := Values(t), Best(net, t);
                                          0 <= i < |mtus| - 1 && mtus[i] <= p < mtus[i + 1])
    ensures !OwnIdentifiers(net, p, t) && NoneCut(net) ==> EndsAs(net, t, Failed)
  {
    assert SteadyRound(net, p, t);
    var origin :| AnsweredUpTo(net, p, t, origin);
    hide Values, RepliesTo, LastIn, OwnIdentifiers, Uncut, AnsweredUpTo;
    if OwnIdentifiers(net, p, t) {
      OwnReplies(net, p, t, origin);
      if t.low <= p < t.high {
        BestOnSteadyPath(net, p, t, Values(t), Best(net, t));
      }
    } else if NoneCut(net) {
      SharedIdentifier(net, p, t, origin);
    }
  }

  lemma OwnIdentifiersIff(net: Network, p: nat, t: Round, mtus: seq<nat>, ids: seq<nat>, origin: seq<int>)
    requires mtus == Values(t) && ids == Ids(net, t.number, |mtus|)
    requires forall j: nat :: j in origin <==> j < |mtus| && mtus[j] <= p
    ensures OwnIdentifiers(net, p, t) <==> AllOwn(ids, origin)
  {
    hide Values;
    assert forall i :: 0 <= i < |ids| ==> ids[i] == net.ids(t.number, i);
    if AllOwn(ids, origin) {
      forall i, j | 0 <= i < j < |mtus| && mtus[i] <= p ensures ids[i] != ids[j] {
        var k :| 0 <= k < |origin| && origin[k] == i;
        assert Own(ids, origin[k]);
      }
    }
  }

  /**
    On a steady path that lets the smallest packets through, the search finds its MTU: with noise
    and cut replies, as long as no test that gets through shares its identifier with a larger one.
    When no reply is cut to the conservative length, such a test makes the search fail.
   */
  lemma {:induction false} FindsPathMtu(minMTU: nat, maxMTU: nat, round: nat, net: Network, p: nat)
    requires net.header <= minMTU <= maxMTU && SteadyPath(net, p) && minMTU <= p
    ensures var tried := Tried(minMTU, maxMTU, round, net);
            if forall t :: t in tried ==> OwnIdentifiers(net, p, t)
            then Search(minMTU, maxMTU, round, net) == Found(PathMtu.Min(p, maxMTU))
            else NoneCut(net) ==> Search(minMTU, maxMTU, round, net) == Error
    decreases maxMTU - minMTU
  {
    hide Values, Best, RepliesTo, WidestGap, Search, Tried, OwnIdentifiers, NoneCut, SteadyPath;
    if minMTU == maxMTU {
      TriedNone(minMTU, maxMTU, round, net);
    } else {
      var t: Round := Bounds(round, minMTU, maxMTU);
      SteadyReplies(net, p, t);
      var mtus, i := RoundStep(net, t);
      if OwnIdentifiers(net, p, t) && p < maxMTU {
        FindsPathMtu(mtus[i], mtus[i + 1] - 1, round + 1, net, p);
      }
    }
  }

  lemma BestOnSteadyPath(net: Network, p: nat, t: Round, mtus: seq<nat>, i: int)
    requires net.header <= t.low <= p < t.high && mtus == Values(t) && i == Best(net, t)
    requires forall j: nat :: j in RepliesTo(net, t).1 <==> j < |mtus| && mtus[j] <= p
    ensures 0 <= i < |mtus| - 1 && mtus[i] <= p < mtus[i + 1]
  {
    hide MtusToTest, LastIn, RepliesTo, WidestGap, Spread;
    assert 0 in RepliesTo(net, t).1;
  }

  lemma NoneGetThrough(net: Network, p: nat, t: Round)
    requires net.header <= t.low && SteadyPath(net, p) && p < t.low
    ensures !net.sendFails(t.number) && EndsAs(net, t, TimedOut) && Best(net, t) < 0
  {
    assert SteadyRound(net, p, t);
    var origin :| AnsweredUpTo(net, p, t, origin);
    var mtus := Values(t);
    MtusSpread(t.low, t.high);
    assert forall i :: 0 <= i < |mtus| ==> mtus[0] <= mtus[i];
    hide Values, RepliesTo, LastIn, AnsweredUpTo, MtusToTest, Spread, StrictlyIncreasing;
    assert OwnIdentifiers(net, p, t);
    hide OwnIdentifiers;
    OwnReplies(net, p, t, origin);
  }

  /** Below the smallest size, nothing is found, except when there is nothing to choose. */
  lemma NothingFoundBelow(minMTU: nat, maxMTU: nat, round: nat, net: Network, p: nat)
    requires net.header <= minMTU <= maxMTU && SteadyPath(net, p) && p < minMTU
    ensures Search(minMTU, maxMTU, round, net) == if minMTU == maxMTU then Found(minMTU) else NotFound
  {
    hide Values, Best, RepliesTo, WidestGap, Search, Tried, SteadyPath;
    if minMTU == maxMTU {
      SearchOfOne(minMTU, round, net);
    } else {
      var t: Round := Bounds(round, minMTU, maxMTU);
      NoneGetThrough(net, p, t);
      var mtus, i := RoundStep(net, t);
    }
  }

  // -------------------------------------------- such a network, with identifiers of 16 bits

  ghost function CutLength(sent: nat): nat {
    if sent > CONSERVATIVE_REPLY_LENGTH then CONSERVATIVE_REPLY_LENGTH else sent
  }

  /** A message to ignore, a reply to somebody else, and the replies, all cut as far as they can be. */
  ghost function NoisyReplies(header: nat, p: nat, mtus: seq<nat>): seq<Event> {
    [Ignored, Echo(0xFFFF, 8)]
    + seq(|mtus|, k requires 0 <= k < |mtus| =>
            if header <= mtus[k] <= p then Echo(k, CutLength(mtus[k] - header)) else Ignored)
  }

  ghost function NoisyNetwork(header: nat, p: nat): Network {
    Network(header, (round, i) => i % 0x1_0000, (round, mtus) => NoisyReplies(header, p, mtus), round => false)
  }

  lemma NoisyNetworkIsSteady(header: nat, p: nat)
    ensures var net := NoisyNetwork(header, p);
            && (forall round, i :: net.ids(round, i) < 0x1_0000)
            && SteadyPath(net, p)
            && forall t: Round :: OwnIdentifiers(net, p, t)
  {
    var net := NoisyNetwork(header, p);
    forall t: Round ensures OwnIdentifiers(net, p, t) {
      AtMostElevenIff(t.low, t.high);
    }
    forall t: Round | header <= t.low ensures SteadyRound(net, p, t) {
      NoisyRound(header, p, t);
    }
  }

  lemma NoisyRound(header: nat, p: nat, t: Round)
    requires header <= t.low
    ensures SteadyRound(NoisyNetwork(header, p), p, t)
  {
    var net, mtus := NoisyNetwork(header, p), Values(t);
    AtMostElevenIff(t.low, t.high);
    MtusAreLarge(t.low, t.high);
    hide Values, MtusToTest;
    var origin := NoisyOrigin(p, mtus);
    var ids, sent := Ids(net, t.number, |mtus|), SentBytes(net, mtus);
    assert forall k :: 0 <= k < |mtus| ==> ids[k] == k;
    NoisyRepliesExplained(header, p, mtus, ids, sent);
    OriginIsBelow(p, mtus);
    hide NoisyOrigin, NoisyReplies, Ids, SentBytes, Explains;
    assert AnsweredUpTo(net, p, t, origin);
  }

  ghost function NoisyOrigin(p: nat, mtus: seq<nat>): seq<int> {
    [-1, -1] + seq(|mtus|, k requires 0 <= k < |mtus| => if mtus[k] <= p then k else -1)
  }

  lemma NoisyRepliesExplained(header: nat, p: nat, mtus: seq<nat>, ids: seq<nat>, sent: seq<nat>)
    requires |ids| == |sent| == |mtus| < 0xFFFF && AllAtLeast(mtus, header)
    requires forall k :: 0 <= k < |mtus| ==> ids[k] == k && sent[k] == mtus[k] - header
    ensures Explains(ids, sent, NoisyReplies(header, p, mtus), NoisyOrigin(p, mtus))
  {
  }

  lemma OriginIsBelow(p: nat, mtus: seq<nat>)
    ensures OnceEach(NoisyOrigin(p, mtus))
    ensures forall j: nat :: j in NoisyOrigin(p, mtus) <==> j < |mtus| && mtus[j] <= p
  {
    var origin := NoisyOrigin(p, mtus);
    forall j: nat | j < |mtus| && mtus[j] <= p ensures j in origin {
      assert origin[j + 2] == j;
    }
  }
}
