/** What the keys of servers tell apart, and what a merge makes of it. */
module ServerKeys {
  import opened ServerOrder
  import opened ServerMerge

  /** The same server, as far as its VPN type, network protocols and hostname go. */
  ghost predicate SameServer(a: Server, b: Server) {
    a.vpn == b.vpn && a.tcp == b.tcp && a.udp == b.udp && a.hostname == b.hostname
  }

  /** A TCP server whose hostname begins with "udp-" looks like a server for TCP and UDP. */
  ghost predicate Collides(a: Server, b: Server) {
    a.vpn == b.vpn && a.tcp && !a.udp && b.tcp && b.udp && a.hostname == "udp-" + b.hostname
  }

  ghost predicate Alike(a: Server, b: Server) {
    SameServer(a, b) || Collides(a, b) || Collides(b, a)
  }

  /** The VPN types are words without dashes: openvpn, wireguard, amneziawg. */
  ghost predicate NamesVpn(s: Server) {
    '-' !in s.vpn
  }

  /** What follows the VPN type and its dash. */
  ghost function AfterVpn(s: Server): string {
    (if s.tcp then if s.udp then "tcp-udp" else "tcp" else if s.udp then "udp" else "") + "-" + s.hostname
  }

  lemma KeyParts(s: Server)
    ensures Key(s) == s.vpn + ("-" + AfterVpn(s))
  {
  }

  /** A text up to its first dash, and what follows. */
  lemma {:induction false} FirstDash(a: string, x: string, b: string, y: string)
    requires '-' !in a && '-' !in b && a + ("-" + x) == b + ("-" + y)
    ensures a == b && x == y
  {
    if a == "" || b == "" {
      assert (a + ("-" + x))[0] == (b + ("-" + y))[0];
      assert a == "" && b == "";
      assert a + ("-" + x) == "-" + x && b + ("-" + y) == "-" + y;
      assert ("-" + x)[1..] == x && ("-" + y)[1..] == y;
    } else {
      assert (a + ("-" + x))[0] == a[0] && (b + ("-" + y))[0] == b[0];
      assert (a + ("-" + x))[1..] == a[1..] + ("-" + x) && (b + ("-" + y))[1..] == b[1..] + ("-" + y);
      FirstDash(a[1..], x, b[1..], y);
      assert a == [a[0]] + a[1..] && b == [b[0]] + b[1..];
    }
  }

  lemma TcpOnly(a: Server, b: Server)
    requires a.tcp && !a.udp && b.tcp && b.udp
    ensures AfterVpn(a) == AfterVpn(b) <==> a.hostname == "udp-" + b.hostname
  {
    assert AfterVpn(a) == "tcp-" + a.hostname && AfterVpn(b) == "tcp-" + ("udp-" + b.hostname);
    assert ("tcp-" + a.hostname)[4..] == a.hostname;
    assert ("tcp-" + ("udp-" + b.hostname))[4..] == "udp-" + b.hostname;
  }

  lemma SameProtocols(a: Server, b: Server)
    requires a.tcp == b.tcp && a.udp == b.udp
    ensures AfterVpn(a) == AfterVpn(b) <==> a.hostname == b.hostname
  {
    var protocols := if a.tcp then if a.udp then "tcp-udp-" else "tcp-" else if a.udp then "udp-" else "-";
    assert AfterVpn(a) == protocols + a.hostname && AfterVpn(b) == protocols + b.hostname;
    assert (protocols + a.hostname)[|protocols|..] == a.hostname;
    assert (protocols + b.hostname)[|protocols|..] == b.hostname;
  }

  lemma OtherProtocols(a: Server, b: Server)
    requires (a.tcp != b.tcp) || (!a.tcp && a.udp != b.udp)
    ensures AfterVpn(a) != AfterVpn(b)
  {
    assert AfterVpn(a)[0] == if a.tcp then 't' else if a.udp then 'u' else '-';
    assert AfterVpn(b)[0] == if b.tcp then 't' else if b.udp then 'u' else '-';
  }

  /** Servers share a key exactly when they are the same, or one of them looks like the other. */
  lemma SameKeyIff(a: Server, b: Server)
    requires NamesVpn(a) && NamesVpn(b)
    ensures Key(a) == Key(b) <==> Alike(a, b)
  {
    KeyParts(a);
    KeyParts(b);
    if Key(a) == Key(b) {
      FirstDash(a.vpn, AfterVpn(a), b.vpn, AfterVpn(b));
    }
    hide Key, AfterVpn;
    if a.tcp == b.tcp && a.udp == b.udp {
      SameProtocols(a, b);
    } else if a.tcp && b.tcp {
      if a.udp {
        TcpOnly(b, a);
      } else {
        TcpOnly(a, b);
      }
    } else {
      OtherProtocols(a, b);
    }
  }

  // ------------------------------------------------------- merging by these fields

  ghost predicate AllNameVpn(servers: seq<Server>) {
    forall i :: 0 <= i < |servers| ==> NamesVpn(servers[i])
  }

  /** A persisted server that is to be kept is like this one. */
  ghost predicate Keeps(persisted: seq<Server>, s: Server) {
    exists i :: 0 <= i < |persisted| && persisted[i].keep && Alike(persisted[i], s)
  }

  /** It is itself the last one that is to be kept and is like it. */
  ghost predicate KeptLast(persisted: seq<Server>, s: Server) {
    exists i :: 0 <= i < |persisted| && persisted[i] == s && s.keep
                && forall j :: i < j < |persisted| ==> !(persisted[j].keep && Alike(persisted[j], s))
  }

  ghost predicate NoneAlike(servers: seq<Server>) {
    forall i, j :: 0 <= i < j < |servers| ==> !Alike(servers[i], servers[j])
  }

  lemma AlikeItself(s: Server)
    ensures Alike(s, s)
  {
  }

  lemma {:induction false} KeptOfIs(persisted: seq<Server>, s: Server)
    requires AllNameVpn(persisted) && NamesVpn(s)
    ensures Key(s) in KeptOf(persisted) <==> Keeps(persisted, s)
    ensures Key(s) in KeptOf(persisted) && KeptOf(persisted)[Key(s)] == s <==> KeptLast(persisted, s)
  {
    hide Key, Alike, NamesVpn, KeptOf;
    if persisted == [] {
      NothingKept();
    } else {
      var init, last := persisted[..|persisted| - 1], persisted[|persisted| - 1];
      assert persisted == init + [last];
      KeptOfIs(init, s);
      KeptStep(init, last);
      SameKeyIff(last, s);
      AlikeItself(s);
      KeepsMore(init, last, s);
    }
  }

  lemma NothingKept()
    ensures KeptOf([]) == map[]
  {
  }

  lemma KeepsMore(init: seq<Server>, last: Server, s: Server)
    ensures Keeps(init + [last], s) <==> Keeps(init, s) || (last.keep && Alike(last, s))
    ensures KeptLast(init + [last], s)
            <==> (last == s && s.keep) || (KeptLast(init, s) && !(last.keep && Alike(last, s)))
  {
    hide Alike;
    var all := init + [last];
    assert all[|init|] == last && forall i :: 0 <= i < |init| ==> all[i] == init[i];
    if Keeps(init, s) {
      var i :| 0 <= i < |init| && init[i].keep && Alike(init[i], s);
      assert all[i].keep && Alike(all[i], s);
    }
    if KeptLast(init, s) && !(last.keep && Alike(last, s)) {
      var i :| 0 <= i < |init| && init[i] == s && s.keep
               && forall j :: i < j < |init| ==> !(init[j].keep && Alike(init[j], s));
      assert all[i] == s;
    }
  }

  /**
    With built-in servers of which no two are alike, a merge has exactly one server for each
    VPN type, network protocols and hostname of both lists: the last one that is to be kept if
    there is one, else the built-in one.
   */
  lemma OneForEachServer(hardcoded: seq<Server>, persisted: seq<Server>, s: Server)
    requires AllNameVpn(hardcoded) && AllNameVpn(persisted) && NamesVpn(s) && NoneAlike(hardcoded)
    ensures MergedServers(hardcoded, KeptOf(persisted))[s]
            == if Keeps(persisted, s) then (if KeptLast(persisted, s) then 1 else 0) else if s in hardcoded then 1 else 0
  {
    hide Key, Alike, NamesVpn, KeptOf, MergedServers, Keeps, KeptLast;
    forall i, j | 0 <= i < j < |hardcoded| ensures Key(hardcoded[i]) != Key(hardcoded[j]) {
      SameKeyIff(hardcoded[i], hardcoded[j]);
    }
    KeptOfIs(persisted, s);
    OneForEachKey(hardcoded, KeptOf(persisted), s);
  }

  lemma OneServer(key: string, s: Server)
    ensures ServersOf(map[key := s]) == multiset{s}
  {
    var m := map[key := s];
    var all := set k | k in m :: m[k];
    assert m[key] in all;
    assert all == {s};
  }

  lemma MergedWithOne(builtIn: Server, kept: Server)
    ensures MergedServers([builtIn], map[Key(kept) := kept])
            == if Key(builtIn) == Key(kept) then multiset{kept} else multiset{builtIn, kept}
  {
    hide Key, MergedServers, ServersOf;
    var m := map[Key(kept) := kept];
    MergedStep([builtIn], 0, m);
    assert [builtIn][0..] == [builtIn] && [builtIn][1..] == [];
    if Key(builtIn) == Key(kept) {
      assert m - {Key(kept)} == map[];
      NothingToReplace(map[]);
      NoServers();
    } else {
      NothingToReplace(m);
      OneServer(Key(kept), kept);
    }
  }

  /** A built-in server and one that is to be kept are both merged exactly when they are not alike. */
  lemma BothMergedIff(builtIn: Server, kept: Server)
    requires NamesVpn(builtIn) && NamesVpn(kept) && kept.keep
    ensures MergedServers([builtIn], KeptOf([kept]))
            == if Alike(kept, builtIn) then multiset{kept} else multiset{builtIn, kept}
  {
    hide *;
    SameKeyIff(kept, builtIn);
    assert [] + [kept] == [kept];
    KeptStep([], kept);
    NothingKept();
    MergedWithOne(builtIn, kept);
  }

  /** So a server is lost to another one that only looks the same: one for TCP on another host. */
  lemma OtherServerIsLost() returns (builtIn: Server, kept: Server)
    ensures builtIn.hostname != kept.hostname && builtIn.udp && !kept.udp
    ensures MergedServers([builtIn], KeptOf([kept])) == multiset{kept}
  {
    builtIn := Server("openvpn", "", "", "", "", 1, "", "host", true, true, false, 0);
    kept := Server("openvpn", "", "", "", "", 1, "", "udp-host", true, false, true, 0);
    BothMergedIff(builtIn, kept);
  }

  // ------------------------------------------------------------ which list wins

  /**
    The outcome has the newer of both timestamps, one in the future apart. Only a persisted list
    that is really newer brings in servers that are neither built in nor marked as kept.
   */
  lemma NewerWins(hardcoded: Servers, persisted: Servers, now: int, merged: Servers)
    requires IsMerge(hardcoded, persisted, now, merged)
    ensures merged.timestamp == if hardcoded.timestamp <= persisted.timestamp <= now then persisted.timestamp
                                else hardcoded.timestamp
    ensures (exists s :: s in merged.servers && s !in hardcoded.servers && !s.keep) ==>
              hardcoded.timestamp < persisted.timestamp <= now && merged == persisted
  {
    if !UsesPersisted(hardcoded, persisted, now) {
      hide Key, KeptOf, MergedServers;
      forall s | s in multiset(merged.servers) && s !in hardcoded.servers ensures s.keep {
        MergedFrom(hardcoded.servers, KeptOf(persisted.servers), s);
      }
    }
  }
}
