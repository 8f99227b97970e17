/** Rewriting a custom OpenVPN configuration for one connection, and reading it back. */
module OpenVpnConf {
  import opened Wrappers
  import opened OpenVpnExtract

  datatype Settings = Settings(interfaceName: string, user: string, verbosity: string, ciphers: seq<string>, auth: string,
                               mssFix: nat, processUser: string)

  /** The connection as it is written: its address in text form. */
  datatype Target = Target(ip: string, port: nat, protocol: string)

  const AUTH_CONF := "/etc/openvpn/auth.conf"

  // ------------------------------------------------------------ lines removed

  ghost predicate HasOneOf(s: string, prefixes: seq<string>) {
    exists i :: 0 <= i < |prefixes| && prefixes[i] <= s
  }

  method HasPrefixOneOf(s: string, prefixes: seq<string>) returns (r: bool)
    ensures r == HasOneOf(s, prefixes)
  {
    for i := 0 to |prefixes|
      invariant forall j :: 0 <= j < i ==> !(prefixes[j] <= s)
    {
      if prefixes[i] <= s {
        return true;
      }
    }
    return false;
  }

  predicate IsAlwaysAdded(line: string) {
    || line == "mute-replay-warnings" || line == "auth-nocache" || line == "pull-filter ignore \"auth-token\""
    || line == "auth-retry nointeract" || line == "suppress-timestamps" || line == "persist-tun" || line == "persist-key"
  }

  predicate IsAlwaysModified(line: string) {
    || "verb " <= line || "auth-user-pass " <= line || "user " <= line || "proto " <= line || "remote " <= line
    || "dev " <= line
  }

  const CIPHER_PREFIXES := ["cipher ", "ncp-ciphers ", "data-ciphers ", "data-ciphers-fallback "]
  const IPV6_PREFIXES :=
    ["tun-ipv6", "pull-filter ignore \"route-ipv6\"", "pull-filter ignore \"ifconfig-ipv6\""]

  ghost predicate IsEventuallyModified(line: string, s: Settings, ipv6Supported: bool) {
    || (s.ciphers != [] && HasOneOf(line, CIPHER_PREFIXES))
    || (s.auth != "" && "auth " <= line)
    || (s.mssFix > 0 && "mssfix " <= line)
    || (!ipv6Supported && HasOneOf(line, IPV6_PREFIXES))
  }

  ghost predicate Removed(line: string, s: Settings, ipv6Supported: bool) {
    line == "" || IsAlwaysAdded(line) || IsAlwaysModified(line) || IsEventuallyModified(line, s, ipv6Supported)
  }

  method IsRemoved(line: string, s: Settings, ipv6Supported: bool) returns (r: bool)
    ensures r == Removed(line, s, ipv6Supported)
  {
    if line == "" || IsAlwaysAdded(line) || IsAlwaysModified(line) {
      return true;
    }
    var isCipher := HasPrefixOneOf(line, CIPHER_PREFIXES);
    var isIpv6 := HasPrefixOneOf(line, IPV6_PREFIXES);
    return (s.ciphers != [] && isCipher) || (s.auth != "" && "auth " <= line) || (s.mssFix > 0 && "mssfix " <= line)
           || (!ipv6Supported && isIpv6);
  }

  ghost function Kept(lines: seq<string>, s: Settings, ipv6Supported: bool): seq<string> {
    if lines == [] then []
    else
      (if Removed(lines[0], s, ipv6Supported) then [] else [lines[0]]) + Kept(lines[1..], s, ipv6Supported)
  }

  // -------------------------------------------------------------- lines added

  function JoinWithColons(words: seq<string>): string {
    if words == [] then "" else if |words| == 1 then words[0] else words[0] + ":" + JoinWithColons(words[1..])
  }

  function CipherLines(ciphers: seq<string>): seq<string> {
    if ciphers == [] then [] else ["data-ciphers-fallback " + ciphers[0], "data-ciphers " + JoinWithColons(ciphers)]
  }

  function RemoteLines(t: Target): seq<string> {
    ["proto " + t.protocol, "remote " + t.ip + " " + Decimal(t.port)]
  }

  function FixedLines(s: Settings): seq<string> {
    ["dev " + s.interfaceName, "mute-replay-warnings", "auth-nocache", "pull-filter ignore \"auth-token\"",
     "auth-retry nointeract", "suppress-timestamps"]
    + (if s.user != "" then ["auth-user-pass " + AUTH_CONF] else []) + ["verb " + s.verbosity]
  }

  function OptionalLines(s: Settings, ipv6Supported: bool): seq<string> {
    CipherLines(s.ciphers)
    + (if s.auth != "" then ["auth " + s.auth] else [])
    + (if s.mssFix > 0 then ["mssfix " + Decimal(s.mssFix)] else [])
    + (if !ipv6Supported then ["pull-filter ignore \"route-ipv6\"", "pull-filter ignore \"ifconfig-ipv6\""] else [])
    + (if s.processUser != "root" then ["user " + s.processUser, "persist-tun", "persist-key"] else [])
    + [""]
  }

  function Added(t: Target, s: Settings, ipv6Supported: bool): seq<string> {
    RemoteLines(t) + (FixedLines(s) + OptionalLines(s, ipv6Supported))
  }

  ghost function Modified(lines: seq<string>, t: Target, s: Settings, ipv6Supported: bool): seq<string> {
    Kept(lines, s, ipv6Supported) + Added(t, s, ipv6Supported)
  }

  method ModifyConfig(lines: seq<string>, t: Target, s: Settings, ipv6Supported: bool) returns (modified: seq<string>)
    ensures modified == Modified(lines, t, s, ipv6Supported)
  {
    hide Removed, Added;
    modified := [];
    for i := 0 to |lines|
      invariant modified + Kept(lines[i..], s, ipv6Supported) == Kept(lines, s, ipv6Supported)
    {
      assert lines[i..][1..] == lines[i + 1..];
      var removed := IsRemoved(lines[i], s, ipv6Supported);
      ghost var rest := Kept(lines[i + 1..], s, ipv6Supported);
      assert Kept(lines[i..], s, ipv6Supported) == if removed then rest else [lines[i]] + rest;
      if !removed {
        assert modified + ([lines[i]] + rest) == (modified + [lines[i]]) + rest;
        modified := modified + [lines[i]];
      }
    }
    assert lines[|lines|..] == [];
    modified := modified + Added(t, s, ipv6Supported);
  }

  // -------------------------------------------------------------- idempotence

  ghost predicate AllRemoved(lines: seq<string>, s: Settings, ipv6Supported: bool) {
    forall i :: 0 <= i < |lines| ==> Removed(lines[i], s, ipv6Supported)
  }

  ghost predicate NoneRemoved(lines: seq<string>, s: Settings, ipv6Supported: bool) {
    forall i :: 0 <= i < |lines| ==> !Removed(lines[i], s, ipv6Supported)
  }

  lemma {:induction false} NothingKept(lines: seq<string>, s: Settings, ipv6Supported: bool)
    requires AllRemoved(lines, s, ipv6Supported)
    ensures Kept(lines, s, ipv6Supported) == []
  {
    hide Removed;
    if lines != [] {
      NothingKept(lines[1..], s, ipv6Supported);
    }
  }

  lemma {:induction false} KeptConcat(a: seq<string>, b: seq<string>, s: Settings, ipv6Supported: bool)
    ensures Kept(a + b, s, ipv6Supported) == Kept(a, s, ipv6Supported) + Kept(b, s, ipv6Supported)
  {
    hide Removed;
    if a == [] {
      assert a + b == b;
    } else {
      assert (a + b)[1..] == a[1..] + b;
      KeptConcat(a[1..], b, s, ipv6Supported);
    }
  }

  lemma {:induction false} KeptTwice(lines: seq<string>, s: Settings, ipv6Supported: bool)
    ensures Kept(Kept(lines, s, ipv6Supported), s, ipv6Supported) == Kept(lines, s, ipv6Supported)
  {
    hide Removed;
    if lines != [] {
      KeptTwice(lines[1..], s, ipv6Supported);
      var tail := Kept(lines[1..], s, ipv6Supported);
      assert [] + tail == tail && ([lines[0]] + tail)[1..] == tail;
    }
  }

  lemma RemoteLinesRemoved(t: Target, s: Settings, ipv6Supported: bool)
    ensures AllRemoved(RemoteLines(t), s, ipv6Supported)
  {
    assert "proto " <= "proto " + t.protocol;
    assert "remote " <= "remote " + t.ip + " " + Decimal(t.port);
    hide IsAlwaysAdded, IsEventuallyModified, Decimal;
  }

  lemma FixedLinesRemoved(s: Settings, ipv6Supported: bool)
    ensures AllRemoved(FixedLines(s), s, ipv6Supported)
  {
    assert "dev " <= "dev " + s.interfaceName;
    assert "verb " <= "verb " + s.verbosity;
    assert "auth-user-pass " <= "auth-user-pass " + AUTH_CONF;
    hide IsEventuallyModified;
  }

  lemma CipherLinesRemoved(s: Settings, ipv6Supported: bool)
    ensures AllRemoved(CipherLines(s.ciphers), s, ipv6Supported)
  {
    if s.ciphers != [] {
      var lines := CipherLines(s.ciphers);
      assert CIPHER_PREFIXES[3] <= lines[0] && CIPHER_PREFIXES[2] <= lines[1];
      hide IsAlwaysAdded, IsAlwaysModified;
    }
  }

  lemma OptionalLinesRemoved(s: Settings, ipv6Supported: bool)
    ensures AllRemoved(OptionalLines(s, ipv6Supported), s, ipv6Supported)
  {
    CipherLinesRemoved(s, ipv6Supported);
    hide CipherLines, Decimal;
    assert "auth " <= "auth " + s.auth;
    assert "mssfix " <= "mssfix " + Decimal(s.mssFix);
    assert "user " <= "user " + s.processUser;
    assert IPV6_PREFIXES[1] <= "pull-filter ignore \"route-ipv6\"" && IPV6_PREFIXES[2] <= "pull-filter ignore \"ifconfig-ipv6\"";
  }

  lemma AddedRemoved(t: Target, s: Settings, ipv6Supported: bool)
    ensures AllRemoved(Added(t, s, ipv6Supported), s, ipv6Supported)
  {
    RemoteLinesRemoved(t, s, ipv6Supported);
    FixedLinesRemoved(s, ipv6Supported);
    OptionalLinesRemoved(s, ipv6Supported);
    hide RemoteLines, FixedLines, OptionalLines, Removed;
  }

  /** Modifying twice is modifying once: every line that is added is one that is removed first. */
  lemma ModifyIsIdempotent(lines: seq<string>, t: Target, s: Settings, ipv6Supported: bool)
    ensures var once := Modified(lines, t, s, ipv6Supported); Modified(once, t, s, ipv6Supported) == once
  {
    hide Removed, Kept, Added;
    KeptConcat(Kept(lines, s, ipv6Supported), Added(t, s, ipv6Supported), s, ipv6Supported);
    KeptTwice(lines, s, ipv6Supported);
    AddedRemoved(t, s, ipv6Supported);
    NothingKept(Added(t, s, ipv6Supported), s, ipv6Supported);
  }

  /** Changing the connection leaves no trace of the one before. */
  lemma ModifyReplaces(lines: seq<string>, t: Target, u: Target, s: Settings, ipv6Supported: bool)
    ensures Modified(Modified(lines, t, s, ipv6Supported), u, s, ipv6Supported) == Modified(lines, u, s, ipv6Supported)
  {
    hide Removed, Kept, Added;
    KeptConcat(Kept(lines, s, ipv6Supported), Added(t, s, ipv6Supported), s, ipv6Supported);
    KeptTwice(lines, s, ipv6Supported);
    AddedRemoved(t, s, ipv6Supported);
    NothingKept(Added(t, s, ipv6Supported), s, ipv6Supported);
  }

  // ------------------------------------------------------------ reading it back

  /** What the kept lines say about the port: nothing, a port of their own, or something unreadable. */
  datatype Ports = NoPort | FirstPort(port: nat) | Unreadable(error: Error)

  ghost function PortsOf(lines: seq<string>): Ports {
    if lines == [] then NoPort
    else
      var line := BeforeHash(lines[0]);
      if !("port " <= line) then PortsOf(lines[1..])
      else match ExtractPort(line)
        case Wrong(e) => Unreadable(e)
        case Says(_, port, _) =>
          match PortsOf(lines[1..])
          case Unreadable(e) => Unreadable(e)
          case _ => FirstPort(port)
  }

  lemma KeptSaysPortOnly(line: string, s: Settings, ipv6Supported: bool, parseAddr: string -> Option<Addr>)
    requires !Removed(line, s, ipv6Supported)
    ensures var l := BeforeHash(line);
            ExtractDataFromLine(l, parseAddr) == if "port " <= l then ExtractPort(l) else NOTHING
  {
    BeforeHashIs(line);
    hide IsAlwaysAdded, IsEventuallyModified, ExtractProto, ExtractRemote, ExtractPort, BeforeHash;
    PrefixOfPrefix("proto ", BeforeHash(line), line);
    PrefixOfPrefix("remote ", BeforeHash(line), line);
  }

  lemma PrefixOfPrefix(prefix: string, l: string, line: string)
    requires l <= line
    ensures prefix <= l ==> prefix <= line
  {
  }

  lemma PortIsPositive(line: string)
    ensures var r := ExtractPort(line); r.Says? ==> r.ip == None && r.protocol == "" && r.port > 0
  {
  }

  /** The kept lines set at most the port. */
  lemma {:induction false} ExtractFromKept(lines: seq<string>, rest: seq<string>, s: Settings, ipv6Supported: bool,
                                           port: nat,
                                           parseAddr: string -> Option<Addr>)
    requires NoneRemoved(lines, s, ipv6Supported)
    ensures Extract(lines + rest, Data(None, port, ""), parseAddr)
            == match PortsOf(lines)
               case Unreadable(e) => Failed(e)
               case NoPort => Extract(rest, Data(None, port, ""), parseAddr)
               case FirstPort(first) => Extract(rest, Data(None, if port == 0 then first else port, ""), parseAddr)
  {
    hide Removed, ExtractPort, BeforeHash;
    if lines == [] {
      assert lines + rest == rest;
    } else {
      var l := BeforeHash(lines[0]);
      KeptSaysPortOnly(lines[0], s, ipv6Supported, parseAddr);
      assert (lines + rest)[1..] == lines[1..] + rest;
      PortIsPositive(l);
      if "port " <= l {
        var r := ExtractPort(l);
        if r.Says? {
          ExtractFromKept(lines[1..], rest, s, ipv6Supported, if port == 0 then r.port else port, parseAddr);
        }
      } else {
        ExtractFromKept(lines[1..], rest, s, ipv6Supported, port, parseAddr);
      }
    }
  }

  /** A connection with an address that reads back as ip, and a port and a protocol that can be used. */
  ghost predicate Readable(t: Target, ip: Addr, parseAddr: string -> Option<Addr>) {
    && t.ip != "" && NoSpace(t.ip) && '#' !in t.ip && parseAddr(t.ip) == Some(ip)
    && 1 <= t.port <= 65535 && (t.protocol == "tcp" || t.protocol == "udp")
  }

  lemma ProtoLineIsRead(protocol: string, parseAddr: string -> Option<Addr>)
    requires protocol == "tcp" || protocol == "udp"
    ensures ExtractDataFromLine(BeforeHash("proto " + protocol), parseAddr) == Says(None, 0, protocol)
  {
    var line := "proto " + protocol;
    assert line == "proto" + " " + protocol;
    assert '#' !in line;
    BeforeHashIs(line);
    assert "proto " <= line;
    WordsAreWords(protocol);
    hide IsSpace, Fields, BeforeHash;
    TwoFields("proto", protocol);
  }

  lemma WordsAreWords(protocol: string)
    requires protocol == "tcp" || protocol == "udp"
    ensures NoSpace(protocol) && NoSpace("proto") && NoSpace("remote")
  {
  }

  lemma RemoteLineIsRead(t: Target, ip: Addr, parseAddr: string -> Option<Addr>)
    requires Readable(t, ip, parseAddr)
    ensures ExtractDataFromLine(BeforeHash("remote " + t.ip + " " + Decimal(t.port)), parseAddr) == Says(Some(ip), t.port, "")
  {
    var line := "remote " + t.ip + " " + Decimal(t.port);
    WordsAreWords("tcp");
    RemoteLineHasNoHash(t, ip, parseAddr);
    hide IsSpace, NoSpace, BeforeHash, Decimal, ExtractRemote, ExtractDataFromLine;
    BeforeHashIs(line);
    RemoteLine(t.ip, t.port, "tcp", parseAddr);
    assert "remote " <= line;
    SaidByRemote(line, parseAddr);
  }

  lemma SaidByRemote(line: string, parseAddr: string -> Option<Addr>)
    requires "remote " <= line
    ensures ExtractDataFromLine(line, parseAddr) == ExtractRemote(line, parseAddr)
  {
    hide ExtractRemote, ExtractProto;
    assert line[0] == 'r';
  }

  lemma RemoteLineHasNoHash(t: Target, ip: Addr, parseAddr: string -> Option<Addr>)
    requires Readable(t, ip, parseAddr)
    ensures '#' !in "remote " + t.ip + " " + Decimal(t.port)
  {
    AtoiOfDecimal(t.port);
    hide IsSpace, Fields, BeforeHash, Decimal, Atoi;
    assert '#' !in "remote " && '#' !in " ";
  }

  /** The two lines of the connection are read back, and end the search. */
  lemma RemoteLinesAreRead(t: Target, ip: Addr, rest: seq<string>, port: nat, parseAddr: string -> Option<Addr>)
    requires Readable(t, ip, parseAddr)
    ensures Extract(RemoteLines(t) + rest, Data(None, port, ""), parseAddr)
            == Extracted(Data(Some(ip), if port == 0 then t.port else port, t.protocol))
  {
    ProtoLineIsRead(t.protocol, parseAddr);
    RemoteLineIsRead(t, ip, parseAddr);
    hide ExtractDataFromLine, BeforeHash, Decimal;
    var lines := RemoteLines(t) + rest;
    assert lines[1..] == [RemoteLines(t)[1]] + rest;
    assert Extract(lines, Data(None, port, ""), parseAddr) == Extract(lines[1..], Data(None, port, t.protocol), parseAddr);
  }

  lemma {:induction false} KeptAreNotRemoved(lines: seq<string>, s: Settings, ipv6Supported: bool)
    ensures NoneRemoved(Kept(lines, s, ipv6Supported), s, ipv6Supported)
  {
    hide Removed;
    if lines != [] {
      KeptAreNotRemoved(lines[1..], s, ipv6Supported);
      var tail := Kept(lines[1..], s, ipv6Supported);
      assert [] + tail == tail;
    }
  }

  /** What reading a modified configuration gives: the connection, but for the port of an own port line. */
  lemma ExtractOfModified(lines: seq<string>, t: Target, s: Settings, ipv6Supported: bool, ip: Addr,
                          parseAddr: string -> Option<Addr>)
    requires Readable(t, ip, parseAddr)
    ensures Extract(Modified(lines, t, s, ipv6Supported), EMPTY, parseAddr)
            == match PortsOf(Kept(lines, s, ipv6Supported))
               case Unreadable(e) => Failed(e)
               case NoPort => Extracted(Data(Some(ip), t.port, t.protocol))
               case FirstPort(first) => Extracted(Data(Some(ip), first, t.protocol))
  {
    hide Removed, Kept, RemoteLines, FixedLines, OptionalLines, Extract, Readable;
    var kept := Kept(lines, s, ipv6Supported);
    var rest := FixedLines(s) + OptionalLines(s, ipv6Supported);
    KeptAreNotRemoved(lines, s, ipv6Supported);
    ExtractFromKept(kept, RemoteLines(t) + rest, s, ipv6Supported, 0, parseAddr);
    RemoteLinesAreRead(t, ip, rest, 0, parseAddr);
    if PortsOf(kept).FirstPort? {
      FirstPortIsPositive(kept);
      RemoteLinesAreRead(t, ip, rest, PortsOf(kept).port, parseAddr);
    }
  }

  lemma {:induction false} FirstPortIsPositive(lines: seq<string>)
    requires PortsOf(lines).FirstPort?
    ensures PortsOf(lines).port > 0
  {
    hide ExtractPort, BeforeHash;
    if "port " <= BeforeHash(lines[0]) {
      PortIsPositive(BeforeHash(lines[0]));
    } else {
      FirstPortIsPositive(lines[1..]);
    }
  }

  /**
    The connection is read back as it was given exactly when the lines that are kept
    have no port line, or only readable ones of which the first says the same port.
   */
  lemma RoundTripIff(lines: seq<string>, t: Target, s: Settings, ipv6Supported: bool, ip: Addr,
                     parseAddr: string -> Option<Addr>)
    requires Readable(t, ip, parseAddr)
    ensures Extract(Modified(lines, t, s, ipv6Supported), EMPTY, parseAddr) == Extracted(Data(Some(ip), t.port, t.protocol))
            <==> var ports := PortsOf(Kept(lines, s, ipv6Supported)); ports.NoPort? || ports == FirstPort(t.port)
  {
    hide Extract, Modified, PortsOf, Kept, Readable;
    ExtractOfModified(lines, t, s, ipv6Supported, ip, parseAddr);
  }
}
