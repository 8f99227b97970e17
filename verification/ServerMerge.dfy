/** Merging the servers built into the program with those of the servers file, for one provider. */
module ServerMerge {
  import opened ServerOrder

  datatype Servers = Servers(version: nat, timestamp: int, servers: seq<Server>)

  /** VPN type, network protocols and hostname, joined by dashes. */
  function Key(s: Server): string {
    s.vpn + "-" + (if s.tcp && s.udp then "tcp-udp" else if s.tcp then "tcp" else if s.udp then "udp" else "")
    + "-" + s.hostname
  }

  // ------------------------------------------------------------ the servers

  /** The servers to keep, by key; a later one replaces an earlier one. */
  ghost function KeptOf(persisted: seq<Server>): (m: map<string, Server>)
    ensures forall k :: k in m ==> Key(m[k]) == k && m[k].keep && m[k] in persisted
    ensures forall s :: s in persisted && s.keep ==> Key(s) in m
  {
    if persisted == [] then map[]
    else
      var init, last := persisted[..|persisted| - 1], persisted[|persisted| - 1];
      assert persisted == init + [last];
      if last.keep then KeptOf(init)[Key(last) := last] else KeptOf(init)
  }

  ghost predicate Keyed(kept: map<string, Server>) {
    forall k :: k in kept ==> Key(kept[k]) == k
  }

  ghost function ServersOf(kept: map<string, Server>): multiset<Server> {
    multiset(set k | k in kept :: kept[k])
  }

  /** The merged servers: each built-in one, or the kept one that takes its place, and the other kept ones. */
  ghost function MergedServers(hardcoded: seq<Server>, kept: map<string, Server>): multiset<Server> {
    if hardcoded == [] then ServersOf(kept)
    else
      var key := Key(hardcoded[0]);
      if key in kept then multiset{kept[key]} + MergedServers(hardcoded[1..], kept - {key})
      else multiset{hardcoded[0]} + MergedServers(hardcoded[1..], kept)
  }

  lemma ServersOfLess(kept: map<string, Server>, key: string)
    requires Keyed(kept) && key in kept
    ensures ServersOf(kept) == ServersOf(kept - {key}) + multiset{kept[key]} && Keyed(kept - {key})
  {
    var all, rest := set k | k in kept :: kept[k], set k | k in kept - {key} :: kept[k];
    assert all == rest + {kept[key]};
    hide Key;
    assert kept[key] !in rest;
  }

  /** A servers file newer than the program is used as it is, unless it comes from the future. */
  ghost predicate UsesPersisted(hardcoded: Servers, persisted: Servers, now: int) {
    hardcoded.timestamp < persisted.timestamp <= now
  }

  ghost predicate IsMerge(hardcoded: Servers, persisted: Servers, now: int, merged: Servers) {
    if UsesPersisted(hardcoded, persisted, now) then merged == persisted
    else
      && merged == hardcoded.(servers := merged.servers)
      && multiset(merged.servers) == MergedServers(hardcoded.servers, KeptOf(persisted.servers))
      && Sorted(merged.servers)
  }

  method MergeProviderServers(hardcoded: Servers, persisted: Servers, now: int) returns (merged: Servers)
    ensures IsMerge(hardcoded, persisted, now, merged)
  {
    if persisted.timestamp > now {
      // logged as ignored, though the servers to keep are not
    } else if persisted.timestamp > hardcoded.timestamp {
      return persisted;
    }
    hide Key, Less;
    var kept: map<string, Server> := map[];
    for i := 0 to |persisted.servers|
      invariant kept == KeptOf(persisted.servers[..i])
    {
      assert persisted.servers[..i + 1][..i] == persisted.servers[..i];
      if persisted.servers[i].keep {
        kept := kept[Key(persisted.servers[i]) := persisted.servers[i]];
      }
    }
    assert persisted.servers[..|persisted.servers|] == persisted.servers;
    var list, left := ReplaceKept(hardcoded.servers, kept);
    list := AppendLeft(list, left);
    var a := new Server[|list|](i requires 0 <= i < |list| => list[i]);
    assert a[..] == list;
    Sort(a);
    merged := hardcoded.(servers := a[..]);
  }

  lemma MergedStep(hardcoded: seq<Server>, i: nat, left: map<string, Server>)
    requires i < |hardcoded| && Keyed(left)
    ensures var key := Key(hardcoded[i]);
            && MergedServers(hardcoded[i..], left)
               == (if key in left then multiset{left[key]} + MergedServers(hardcoded[i + 1..], left - {key})
                   else multiset{hardcoded[i]} + MergedServers(hardcoded[i + 1..], left))
            && Keyed(left - {key})
  {
    assert hardcoded[i..][1..] == hardcoded[i + 1..];
  }

  lemma AppendedTo(list: seq<Server>, s: Server, rest: multiset<Server>)
    ensures multiset(list + [s]) + rest == multiset(list) + (multiset{s} + rest)
  {
  }

  /** Built-in servers, and the kept ones that take their place; the kept ones left over. */
  method ReplaceKept(hardcoded: seq<Server>, kept: map<string, Server>) returns (list: seq<Server>, left: map<string,
                     Server>)
    requires Keyed(kept)
    ensures Keyed(left) && multiset(list) + ServersOf(left) == MergedServers(hardcoded, kept)
  {
    hide Key, MergedServers, Keyed;
    list := [];
    left := kept;
    assert hardcoded[0..] == hardcoded;
    for i := 0 to |hardcoded|
      invariant Keyed(left)
      invariant multiset(list) + MergedServers(hardcoded[i..], left) == MergedServers(hardcoded, kept)
    {
      MergedStep(hardcoded, i, left);
      var key := Key(hardcoded[i]);
      if key in left {
        AppendedTo(list, left[key], MergedServers(hardcoded[i + 1..], left - {key}));
        list := list + [left[key]];
        left := left - {key};
      } else {
        AppendedTo(list, hardcoded[i], MergedServers(hardcoded[i + 1..], left));
        list := list + [hardcoded[i]];
      }
    }
    NothingToReplace(left);
    assert hardcoded[|hardcoded|..] == [];
  }

  lemma NothingToReplace(left: map<string, Server>)
    ensures MergedServers([], left) == ServersOf(left)
  {
  }

  /** The other kept servers, in any order. */
  method AppendLeft(list: seq<Server>, others: map<string, Server>) returns (all: seq<Server>)
    requires Keyed(others)
    ensures multiset(all) == multiset(list) + ServersOf(others)
  {
    hide Key, Keyed, ServersOf;
    all := list;
    var left := others;
    while left != map[]
      invariant Keyed(left) && multiset(all) + ServersOf(left) == multiset(list) + ServersOf(others)
      decreases |left|
    {
      var key :| key in left;
      ServersOfLess(left, key);
      AppendedTo(all, left[key], ServersOf(left - {key}));
      all := all + [left[key]];
      left := left - {key};
    }
    NoServers();
  }

  lemma NoServers()
    ensures ServersOf(map[]) == multiset{}
  {
  }

  // --------------------------------------------------- one server for each key

  ghost predicate DistinctKeys(hardcoded: seq<Server>) {
    forall i, j :: 0 <= i < j < |hardcoded| ==> Key(hardcoded[i]) != Key(hardcoded[j])
  }

  /** Which servers are there, and how often. */
  ghost function Expected(hardcoded: seq<Server>, kept: map<string, Server>, s: Server): nat {
    if Key(s) in kept then (if s == kept[Key(s)] then 1 else 0) else if s in hardcoded then 1 else 0
  }

  /** Every key of both lists has one server: the kept one if there is one, else the built-in one. */
  lemma {:induction false} OneForEachKey(hardcoded: seq<Server>, kept: map<string, Server>, s: Server)
    requires DistinctKeys(hardcoded) && Keyed(kept)
    ensures MergedServers(hardcoded, kept)[s] == Expected(hardcoded, kept, s)
  {
    hide Key;
    if hardcoded == [] {
      var all := set k | k in kept :: kept[k];
      assert s in all <==> Key(s) in kept && s == kept[Key(s)];
    } else {
      var first, rest := hardcoded[0], hardcoded[1..];
      var key := Key(first);
      assert forall t :: t in hardcoded <==> t == first || t in rest;
      assert forall t :: t in rest ==> Key(t) != key;
      OneForEachKey(rest, if key in kept then kept - {key} else kept, s);
    }
  }

  // ------------------------------------------------------------- idempotence

  /** Of built-in servers with the same key, only the first one may be marked as kept. */
  ghost predicate OnlyFirstKept(hardcoded: seq<Server>) {
    forall i, j :: 0 <= i < j < |hardcoded| && Key(hardcoded[i]) == Key(hardcoded[j]) ==> !hardcoded[j].keep
  }

  ghost predicate HasKey(hardcoded: seq<Server>, key: string) {
    exists i :: 0 <= i < |hardcoded| && Key(hardcoded[i]) == key
  }

  ghost function FirstOf(hardcoded: seq<Server>, key: string): (s: Server)
    requires HasKey(hardcoded, key)
    ensures Key(s) == key && s in hardcoded
  {
    if Key(hardcoded[0]) == key then hardcoded[0]
    else
      assert HasKey(hardcoded[1..], key) by {
        var i :| 0 <= i < |hardcoded| && Key(hardcoded[i]) == key;
        assert hardcoded[1..][i - 1] == hardcoded[i];
      }
      FirstOf(hardcoded[1..], key)
  }

  /** The server that stands for a key among those marked as kept. */
  ghost predicate StandsFor(hardcoded: seq<Server>, kept: map<string, Server>, s: Server) {
    if Key(s) in kept then s == kept[Key(s)] else HasKey(hardcoded, Key(s)) && s == FirstOf(hardcoded, Key(s))
  }

  lemma LaterKey(hardcoded: seq<Server>, key: string)
    requires hardcoded != [] && key != Key(hardcoded[0])
    ensures HasKey(hardcoded, key) <==> HasKey(hardcoded[1..], key)
    ensures HasKey(hardcoded, key) ==> FirstOf(hardcoded, key) == FirstOf(hardcoded[1..], key)
  {
    hide Key;
    if HasKey(hardcoded, key) {
      var i :| 0 <= i < |hardcoded| && Key(hardcoded[i]) == key;
      assert hardcoded[1..][i - 1] == hardcoded[i];
    }
    if HasKey(hardcoded[1..], key) {
      var i :| 0 <= i < |hardcoded[1..]| && Key(hardcoded[1..][i]) == key;
      assert hardcoded[i + 1] == hardcoded[1..][i];
    }
  }

  lemma LaterIsNotKept(hardcoded: seq<Server>, s: Server)
    requires OnlyFirstKept(hardcoded) && hardcoded != [] && s in hardcoded[1..] && Key(s) == Key(hardcoded[0])
    ensures !s.keep
  {
    hide Key;
    var i :| 0 <= i < |hardcoded[1..]| && hardcoded[1..][i] == s;
    assert hardcoded[i + 1] == s;
  }

  /** A merged server marked as kept is the one that stands for its key. */
  lemma {:induction false} KeptStandsFor(hardcoded: seq<Server>, kept: map<string, Server>, s: Server)
    requires OnlyFirstKept(hardcoded) && Keyed(kept) && s in MergedServers(hardcoded, kept) && s.keep
    ensures StandsFor(hardcoded, kept, s)
  {
    hide Key, FirstOf, HasKey;
    if hardcoded != [] {
      var first, rest := hardcoded[0], hardcoded[1..];
      var key := Key(first);
      var left := if key in kept then kept - {key} else kept;
      if s in MergedServers(rest, left) {
        KeptStandsFor(rest, left, s);
        if Key(s) == key {
          LaterIsNotKept(hardcoded, s);
        } else {
          LaterKey(hardcoded, Key(s));
        }
      } else if key !in kept {
        FirstIsFirst(hardcoded);
      }
    }
  }

  lemma FirstIsFirst(hardcoded: seq<Server>)
    requires hardcoded != []
    ensures HasKey(hardcoded, Key(hardcoded[0])) && FirstOf(hardcoded, Key(hardcoded[0])) == hardcoded[0]
  {
    hide Key;
  }

  /** More kept servers change nothing if each would replace itself. */
  ghost predicate Refines(hardcoded: seq<Server>, kept: map<string, Server>, more: map<string, Server>) {
    && (forall k :: k in kept ==> k in more && more[k] == kept[k])
    && (forall k :: k in more && k !in kept ==> HasKey(hardcoded, k) && more[k] == FirstOf(hardcoded, k))
  }

  lemma {:induction false} SameMerge(hardcoded: seq<Server>, kept: map<string, Server>, more: map<string, Server>)
    requires Refines(hardcoded, kept, more)
    ensures MergedServers(hardcoded, more) == MergedServers(hardcoded, kept)
  {
    if hardcoded == [] {
      assert more == kept;
    } else {
      hide Key, FirstOf, HasKey;
      var key, rest := Key(hardcoded[0]), hardcoded[1..];
      FirstIsFirst(hardcoded);
      forall k | k in more && k !in kept && k != key
        ensures HasKey(rest, k) && FirstOf(rest, k) == FirstOf(hardcoded, k)
      {
        LaterKey(hardcoded, k);
      }
      if key in kept {
        SameMerge(rest, kept - {key}, more - {key});
      } else if key in more {
        SameMerge(rest, kept, more - {key});
      } else {
        SameMerge(rest, kept, more);
      }
    }
  }

  lemma {:induction false} KeptAreMerged(hardcoded: seq<Server>, kept: map<string, Server>, key: string)
    requires key in kept && Keyed(kept)
    ensures kept[key] in MergedServers(hardcoded, kept)
  {
    hide Key;
    if hardcoded == [] {
      assert kept[key] in set k | k in kept :: kept[k];
    } else {
      var first := Key(hardcoded[0]);
      if first != key {
        KeptAreMerged(hardcoded[1..], if first in kept then kept - {first} else kept, key);
      }
    }
  }

  /** Merging the outcome again with the same built-in servers gives the same servers. */
  lemma MergeIsIdempotent(hardcoded: Servers, persisted: Servers, now: int, merged: Servers, later: int, again: Servers)
    requires OnlyFirstKept(hardcoded.servers) && now <= later
    requires IsMerge(hardcoded, persisted, now, merged) && IsMerge(hardcoded, merged, later, again)
    ensures again.version == merged.version && again.timestamp == merged.timestamp
    ensures multiset(again.servers) == multiset(merged.servers)
  {
    if !UsesPersisted(hardcoded, persisted, now) {
      MergedAgain(hardcoded.servers, KeptOf(persisted.servers), merged.servers);
    }
  }

  lemma MergedAgain(hardcoded: seq<Server>, kept: map<string, Server>, merged: seq<Server>)
    requires OnlyFirstKept(hardcoded) && Keyed(kept) && (forall k :: k in kept ==> kept[k].keep)
    requires multiset(merged) == MergedServers(hardcoded, kept)
    ensures MergedServers(hardcoded, KeptOf(merged)) == MergedServers(hardcoded, kept)
  {
    hide Key, MergedServers, OnlyFirstKept, HasKey, FirstOf;
    var more := KeptOf(merged);
    hide KeptOf;
    forall k | k in more ensures StandsFor(hardcoded, kept, more[k]) {
      assert more[k] in multiset(merged);
      KeptStandsFor(hardcoded, kept, more[k]);
    }
    forall k | k in kept ensures k in more {
      KeptAreMerged(hardcoded, kept, k);
      assert kept[k] in multiset(merged);
    }
    SameMerge(hardcoded, kept, more);
  }

  /** Merging is idempotent with these built-in servers, whatever was persisted and however ties are sorted. */
  ghost predicate Stable(hardcoded: Servers) {
    forall persisted, now, merged, later, again ::
      now <= later && IsMerge(hardcoded, persisted, now, merged) && IsMerge(hardcoded, merged, later, again)
      ==> multiset(again.servers) == multiset(merged.servers)
  }

  /** Merging is idempotent exactly if, of built-in servers with one key, only the first is marked as kept. */
  lemma StableIff(hardcoded: Servers)
    ensures Stable(hardcoded) <==> OnlyFirstKept(hardcoded.servers)
  {
    hide Key, IsMerge, OnlyFirstKept;
    if OnlyFirstKept(hardcoded.servers) {
      forall persisted, now, merged, later, again
        | now <= later && IsMerge(hardcoded, persisted, now, merged) && IsMerge(hardcoded, merged, later, again)
        ensures multiset(again.servers) == multiset(merged.servers)
      {
        MergeIsIdempotent(hardcoded, persisted, now, merged, later, again);
      }
    } else {
      var persisted, merged, again := NotIdempotent(hardcoded);
    }
  }

  /** A copy of a built-in server that is no built-in server itself. */
  lemma {:induction false} FreshCopy(hardcoded: seq<Server>, s: Server) returns (x: Server)
    ensures x == s.(others := x.others) && x !in hardcoded
  {
    var bound := 0;
    for i := 0 to |hardcoded|
      invariant forall j :: 0 <= j < i ==> hardcoded[j].others < bound
    {
      if hardcoded[i].others >= bound {
        bound := hardcoded[i].others + 1;
      }
    }
    x := s.(others := bound);
  }

  lemma KeptStep(persisted: seq<Server>, last: Server)
    ensures KeptOf(persisted + [last]) == if last.keep then KeptOf(persisted)[Key(last) := last] else KeptOf(persisted)
  {
    hide Key;
    assert (persisted + [last])[..|persisted + [last]| - 1] == persisted;
  }

  lemma {:induction false} KeptOfLater(a: seq<Server>, b: seq<Server>, s: Server)
    requires s in b && s.keep
    ensures Key(s) in KeptOf(a + b) && KeptOf(a + b)[Key(s)] in b
  {
    hide Key, KeptOf;
    var init, last := b[..|b| - 1], b[|b| - 1];
    assert b == init + [last] && a + b == a + init + [last];
    KeptStep(a + init, last);
    if !(last.keep && Key(last) == Key(s)) {
      KeptOfLater(a, init, s);
    }
  }

  /** Every merged server is a built-in or a kept one, and a kept one takes the place of one at most. */
  lemma {:induction false} MergedFrom(hardcoded: seq<Server>, kept: map<string, Server>, s: Server)
    requires Keyed(kept) && s !in hardcoded
    ensures MergedServers(hardcoded, kept)[s] == if Key(s) in kept && kept[Key(s)] == s then 1 else 0
  {
    hide Key;
    if hardcoded == [] {
      var all := set k | k in kept :: kept[k];
      assert s in all <==> Key(s) in kept && s == kept[Key(s)];
    } else {
      var key := Key(hardcoded[0]);
      MergedFrom(hardcoded[1..], if key in kept then kept - {key} else kept, s);
    }
  }

  /** A built-in server that is not the first of its key is merged, whatever is kept. */
  lemma {:induction false} LaterIsMerged(hardcoded: seq<Server>, kept: map<string, Server>, i: nat, j: nat)
    requires i < j < |hardcoded| && Key(hardcoded[i]) == Key(hardcoded[j])
    ensures hardcoded[j] in MergedServers(hardcoded, kept)
  {
    hide Key;
    var first := Key(hardcoded[0]);
    var left := if first in kept then kept - {first} else kept;
    if i == 0 {
      NotReplaced(hardcoded[1..], left, j - 1);
    } else {
      LaterIsMerged(hardcoded[1..], left, i - 1, j - 1);
    }
  }

  lemma {:induction false} NotReplaced(hardcoded: seq<Server>, kept: map<string, Server>, j: nat)
    requires j < |hardcoded| && Key(hardcoded[j]) !in kept
    ensures hardcoded[j] in MergedServers(hardcoded, kept)
  {
    hide Key;
    if j > 0 {
      var first := Key(hardcoded[0]);
      NotReplaced(hardcoded[1..], if first in kept then kept - {first} else kept, j - 1);
    }
  }

  /** Servers that sort alike: a copy goes right before its original. */
  lemma InsertCopy(s: seq<Server>, p: nat, x: Server)
    requires Sorted(s) && p < |s| && x == s[p].(others := x.others)
    ensures Sorted(s[..p] + [x] + s[p..])
    ensures multiset(s[..p] + [x] + s[p..]) == multiset(s) + multiset{x}
  {
    assert forall t :: (Less(x, t) <==> Less(s[p], t)) && (Less(t, x) <==> Less(t, s[p]));
    LessIsAsymmetric(s[p], s[p]);
    hide Less;
    InsertSorted(s, p, x);
  }

  /** A kept server right before another one with its key does not stand for the key. */
  lemma CopyIsLost(hardcoded: seq<Server>, others: seq<Server>, p: nat, x: Server)
    requires p < |others| && others[p].keep && Key(x) == Key(others[p]) && x !in others && x !in hardcoded
    ensures var merged := others[..p] + [x] + others[p..];
            multiset(merged) != MergedServers(hardcoded, KeptOf(merged))
  {
    hide Key, KeptOf, MergedServers;
    var merged := others[..p] + [x] + others[p..];
    assert others[p..][0] == others[p];
    KeptOfLater(others[..p] + [x], others[p..], others[p]);
    assert x !in others[p..];
    MergedFrom(hardcoded, KeptOf(merged), x);
    assert merged[p] == x;
  }

  lemma MergedWithCopy(hardcoded: seq<Server>, i: nat, j: nat, x: Server) returns (others: seq<Server>)
    requires i < j < |hardcoded| && Key(hardcoded[i]) == Key(hardcoded[j])
    requires x == hardcoded[j].(others := x.others) && x.keep && x !in hardcoded
    ensures Sorted(others) && x !in others && hardcoded[j] in others
    ensures multiset(others) + multiset{x} == MergedServers(hardcoded, KeptOf([x]))
  {
    hide Key, Sorted;
    assert [] + [x] == [x];
    KeptStep([], x);
    var kept := KeptOf([x]);
    hide KeptOf;
    MergedFrom(hardcoded, kept, x);
    LaterIsMerged(hardcoded, kept, i, j);
    hide MergedServers;
    var all := MergedServers(hardcoded, kept);
    others := SortedList(all - multiset{x});
    assert hardcoded[j] in multiset(others) && x !in multiset(others);
  }

  /** If a later server of a key is marked as kept, a copy of it that is persisted goes away in the second merge. */
  lemma NotIdempotent(hardcoded: Servers) returns (persisted: Servers, merged: Servers, again: Servers)
    requires !OnlyFirstKept(hardcoded.servers)
    ensures IsMerge(hardcoded, persisted, 0, merged) && IsMerge(hardcoded, merged, 0, again)
    ensures multiset(again.servers) != multiset(merged.servers)
  {
    hide Key, Sorted, MergedServers, KeptOf;
    var list := hardcoded.servers;
    var i, j :| 0 <= i < j < |list| && Key(list[i]) == Key(list[j]) && list[j].keep;
    hide OnlyFirstKept;
    var x := FreshCopy(list, list[j]);
    SameKey(list[j], x);
    persisted := Servers(0, hardcoded.timestamp, [x]);
    var others := MergedWithCopy(list, i, j, x);
    var p :| 0 <= p < |others| && others[p] == list[j];
    InsertCopy(others, p, x);
    CopyIsLost(list, others, p, x);
    merged := hardcoded.(servers := others[..p] + [x] + others[p..]);
    var sorted := SortedList(MergedServers(list, KeptOf(merged.servers)));
    again := hardcoded.(servers := sorted);
  }

  lemma SameKey(s: Server, x: Server)
    requires x == s.(others := x.others)
    ensures Key(x) == Key(s)
  {
  }

  /** Distinct keys are enough for both: one server for each key, and idempotence. */
  lemma DistinctKeysAreEnough(hardcoded: seq<Server>)
    requires DistinctKeys(hardcoded)
    ensures OnlyFirstKept(hardcoded)
  {
    hide Key;
  }

  /** Without any condition it fails: the second of two built-in servers with one key is marked as kept. */
  lemma SecondKeptIsNotIdempotent() returns (hardcoded: seq<Server>, merged: seq<Server>)
    ensures multiset(merged) == MergedServers(hardcoded, map[])
    ensures MergedServers(hardcoded, KeptOf(merged)) != multiset(merged)
  {
    var a := Server("openvpn", "", "", "", "", 1, "", "host", true, false, false, 0);
    var b := a.(number := 2, keep := true);
    assert Key(a) == Key(b);
    hide Key;
    hardcoded, merged := [a, b], [a, b];
    assert hardcoded[1..] == [b] && [b][1..] == [];
    assert merged[..1] == [a] && [a][..0] == [];
    assert KeptOf([a]) == map[];
    assert KeptOf(merged) == map[Key(b) := b];
    assert MergedServers([b], map[]) == multiset{b};
    assert map[Key(b) := b] - {Key(b)} == map[];
    assert MergedServers(hardcoded, map[Key(b) := b]) == multiset{b, b};
    assert a in multiset(merged);
  }

  // --------------------------------------------------- when kept servers are ignored

  /** Every kept server is the first built-in one with its key. */
  ghost predicate Redundant(hardcoded: seq<Server>, kept: map<string, Server>) {
    forall k :: k in kept ==> HasKey(hardcoded, k) && kept[k] == FirstOf(hardcoded, k)
  }

  lemma {:induction false} NoneKept(hardcoded: seq<Server>)
    ensures MergedServers(hardcoded, map[]) == multiset(hardcoded)
  {
    if hardcoded != [] {
      NoneKept(hardcoded[1..]);
      assert hardcoded == [hardcoded[0]] + hardcoded[1..];
    }
  }

  /** Servers of a key that none is kept for are merged as they are. */
  lemma {:induction false} OtherKeys(hardcoded: seq<Server>, kept: map<string, Server>, s: Server)
    requires Keyed(kept) && Key(s) !in kept
    ensures MergedServers(hardcoded, kept)[s] == multiset(hardcoded)[s]
  {
    hide Key;
    if hardcoded == [] {
      assert s !in set k | k in kept :: kept[k];
    } else {
      var first := Key(hardcoded[0]);
      assert hardcoded == [hardcoded[0]] + hardcoded[1..];
      OtherKeys(hardcoded[1..], if first in kept then kept - {first} else kept, s);
    }
  }

  lemma FirstMerged(hardcoded: seq<Server>, kept: map<string, Server>)
    requires hardcoded != []
    ensures var key, rest := Key(hardcoded[0]), hardcoded[1..];
            MergedServers(hardcoded, kept)
            == multiset{if key in kept then kept[key] else hardcoded[0]} + MergedServers(rest, kept - {key})
  {
    var key := Key(hardcoded[0]);
    hide Key;
    assert key !in kept ==> kept - {key} == kept;
  }

  lemma CancelFirst(a: Server, x: multiset<Server>, b: Server, y: multiset<Server>)
    requires multiset{a} + x == multiset{b} + y && x[b] == y[b]
    ensures a == b && x == y
  {
    assert (multiset{a} + x)[b] == (multiset{b} + y)[b];
    forall s ensures x[s] == y[s] {
      assert (multiset{a} + x)[s] == (multiset{b} + y)[s];
    }
  }

  /** If nothing changes, the first server is kept as it is, if at all, and nothing else changes. */
  lemma FirstUnchanged(hardcoded: seq<Server>, kept: map<string, Server>)
    requires Keyed(kept) && hardcoded != [] && MergedServers(hardcoded, kept) == multiset(hardcoded)
    ensures var key, rest := Key(hardcoded[0]), hardcoded[1..];
            && (key in kept ==> kept[key] == hardcoded[0])
            && MergedServers(rest, kept - {key}) == multiset(rest)
  {
    hide Key, MergedServers;
    var first, rest := hardcoded[0], hardcoded[1..];
    var key := Key(first);
    assert hardcoded == [first] + rest;
    OtherKeys(rest, kept - {key}, first);
    FirstMerged(hardcoded, kept);
    CancelFirst(if key in kept then kept[key] else first, MergedServers(rest, kept - {key}), first, multiset(rest));
  }

  lemma NoneLeftOver(kept: map<string, Server>)
    requires Keyed(kept) && MergedServers([], kept) == multiset{}
    ensures kept == map[]
  {
    hide Key;
    if k :| k in kept {
      KeptAreMerged([], kept, k);
    }
  }

  lemma {:induction false} UnchangedIsRedundant(hardcoded: seq<Server>, kept: map<string, Server>)
    requires Keyed(kept) && MergedServers(hardcoded, kept) == multiset(hardcoded)
    ensures Redundant(hardcoded, kept)
  {
    hide Key, HasKey, FirstOf;
    if hardcoded == [] {
      NoneLeftOver(kept);
    } else {
      var key, rest := Key(hardcoded[0]), hardcoded[1..];
      FirstUnchanged(hardcoded, kept);
      FirstIsFirst(hardcoded);
      hide MergedServers;
      UnchangedIsRedundant(rest, kept - {key});
      forall k | k in kept && k != key ensures HasKey(hardcoded, k) && kept[k] == FirstOf(hardcoded, k) {
        assert k in kept - {key} && (kept - {key})[k] == kept[k];
        LaterKey(hardcoded, k);
      }
    }
  }

  /**
    A servers file from the future is ignored, so that the outcome has the built-in servers,
    exactly when every server it keeps is the first built-in one with its key.
   */
  lemma FutureIsIgnoredIff(hardcoded: Servers, persisted: Servers, now: int, merged: Servers)
    requires persisted.timestamp > now && IsMerge(hardcoded, persisted, now, merged)
    ensures multiset(merged.servers) == multiset(hardcoded.servers)
            <==> Redundant(hardcoded.servers, KeptOf(persisted.servers))
  {
    var kept := KeptOf(persisted.servers);
    hide Key, KeptOf, HasKey, FirstOf, MergedServers;
    if Redundant(hardcoded.servers, kept) {
      SameMerge(hardcoded.servers, map[], kept);
      NoneKept(hardcoded.servers);
    } else if multiset(merged.servers) == multiset(hardcoded.servers) {
      UnchangedIsRedundant(hardcoded.servers, kept);
    }
  }

  /** For every built-in list, a kept server from the future that is merged. */
  lemma FutureServerIsMerged(hardcoded: Servers, now: int) returns (persisted: Servers)
    ensures persisted.timestamp > now
    ensures forall merged :: IsMerge(hardcoded, persisted, now, merged) ==>
                               multiset(merged.servers) != multiset(hardcoded.servers)
  {
    var s := Server("openvpn", "", "", "", "", 1, "", "host", true, false, true, 0);
    var x := FreshCopy(hardcoded.servers, s);
    persisted := Servers(0, now + 1, [x]);
    assert [] + [x] == [x];
    KeptStep([], x);
    hide Key, KeptOf, MergedServers;
    forall merged | IsMerge(hardcoded, persisted, now, merged)
      ensures multiset(merged.servers) != multiset(hardcoded.servers)
    {
      KeptAreMerged(hardcoded.servers, KeptOf([x]), Key(x));
      assert x in multiset(merged.servers);
    }
  }
}
