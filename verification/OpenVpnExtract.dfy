/** Reading the server's address, port and protocol from the lines of an OpenVPN configuration. */
module OpenVpnExtract {
  import opened Wrappers

  /** An IP address; how it is written is up to the parser that is passed along. */
  datatype Addr = Addr(value: nat)

  datatype Error =
    | ProtoFieldsCount | ProtocolNotSupported | RemoteFieldsCount | HostNotIp | PortNotValid | PortFieldsCount
    | RemoteLineNotFound

  // -------------------------------------------------------------------- text

  /** White space in the sense of Unicode. */
  predicate IsSpace(c: char) {
    var code := c as int;
    || 9 <= code <= 13 || code == 32 || code == 0x85 || code == 0xA0 || code == 0x1680 || 0x2000 <= code <= 0x200A
    || code == 0x2028 || code == 0x2029 || code == 0x202F || code == 0x205F || code == 0x3000
  }

  /** How many characters come before the first white space. */
  function TokenLength(s: string): (n: nat)
    ensures n <= |s|
    ensures s != "" && !IsSpace(s[0]) ==> n > 0
  {
    if s == "" || IsSpace(s[0]) then 0 else 1 + TokenLength(s[1..])
  }

  /** The parts between white space. */
  function Fields(s: string): seq<string>
    decreases |s|
  {
    if s == "" then []
    else if IsSpace(s[0]) then Fields(s[1..])
    else [s[..TokenLength(s)]] + Fields(s[TokenLength(s)..])
  }

  predicate NoSpace(s: string) {
    forall i :: 0 <= i < |s| ==> !IsSpace(s[i])
  }

  lemma {:induction false} TokenIs(w: string, rest: string)
    requires NoSpace(w) && (rest == "" || IsSpace(rest[0]))
    ensures TokenLength(w + rest) == |w|
  {
    if w == "" {
      assert w + rest == rest;
    } else {
      assert (w + rest)[1..] == w[1..] + rest;
      hide IsSpace;
      TokenIs(w[1..], rest);
    }
  }

  lemma FieldsWord(w: string, rest: string)
    requires w != "" && NoSpace(w) && (rest == "" || IsSpace(rest[0]))
    ensures Fields(w + rest) == [w] + Fields(rest)
  {
    TokenIs(w, rest);
    hide IsSpace, TokenLength;
    assert (w + rest)[..|w|] == w && (w + rest)[|w|..] == rest && (w + rest)[0] == w[0];
  }

  /** A line of words with single spaces between them. */
  lemma TwoFields(a: string, b: string)
    requires a != "" && NoSpace(a) && b != "" && NoSpace(b)
    ensures Fields(a + " " + b) == [a, b]
  {
    hide IsSpace, TokenLength, Fields;
    assert a + " " + b == a + (" " + b) && b + "" == b;
    SpaceIsSpace();
    FieldsWord(a, " " + b);
    SkipSpace(b);
    FieldsWord(b, "");
    NoFields();
  }

  lemma ThreeFields(a: string, b: string, c: string)
    requires a != "" && NoSpace(a) && b != "" && NoSpace(b) && c != "" && NoSpace(c)
    ensures Fields(a + " " + b + " " + c) == [a, b, c]
  {
    hide IsSpace, TokenLength, Fields;
    assert a + " " + b + " " + c == a + (" " + (b + " " + c));
    SpaceIsSpace();
    FieldsWord(a, " " + (b + " " + c));
    SkipSpace(b + " " + c);
    TwoFields(b, c);
  }

  lemma SpaceIsSpace()
    ensures IsSpace(' ')
  {
  }

  lemma SkipSpace(s: string)
    ensures Fields(" " + s) == Fields(s)
  {
    assert (" " + s)[1..] == s;
  }

  lemma NoFields()
    ensures Fields("") == []
  {
  }

  function BeforeHash(line: string): string {
    if line == "" || line[0] == '#' then "" else [line[0]] + BeforeHash(line[1..])
  }

  lemma {:induction false} BeforeHashIs(line: string)
    ensures BeforeHash(line) <= line && ('#' !in line ==> BeforeHash(line) == line)
  {
    if line != "" && line[0] != '#' {
      assert line == [line[0]] + line[1..];
      BeforeHashIs(line[1..]);
    }
  }

  // ----------------------------------------------------------------- numbers

  function Digit(n: nat): char
    requires n < 10
  {
    ('0' as int + n) as char
  }

  /** The decimal numeral of a number. */
  function Decimal(n: nat): (s: string)
    ensures s != ""
  {
    if n < 10 then [Digit(n)] else Decimal(n / 10) + [Digit(n % 10)]
  }

  predicate IsDigit(c: char) {
    '0' <= c <= '9'
  }

  function DigitsValue(s: string): Option<nat> {
    if s == "" then Some(0)
    else
      var last := s[|s| - 1];
      if !IsDigit(last) then None
      else match DigitsValue(s[..|s| - 1])
        case None => None
        case Some(n) => Some(10 * n + (last as int - '0' as int))
  }

  /** A decimal number with an optional sign, as strconv.Atoi reads it. */
  function Atoi(s: string): Option<int> {
    var negative := s != "" && s[0] == '-';
    var digits := if s != "" && (s[0] == '-' || s[0] == '+') then s[1..] else s;
    if digits == "" then None
    else match DigitsValue(digits)
      case None => None
      case Some(n) =>
        var value: int := n;
        Some(if negative then -value else value)
  }

  lemma {:induction false} DecimalIsRead(n: nat)
    ensures DigitsValue(Decimal(n)) == Some(n) && forall i :: 0 <= i < |Decimal(n)| ==> IsDigit(Decimal(n)[i])
  {
    var s := Decimal(n);
    if n < 10 {
      assert s[..0] == "";
    } else {
      DecimalIsRead(n / 10);
      assert s[..|s| - 1] == Decimal(n / 10);
    }
  }

  lemma AtoiOfDecimal(n: nat)
    ensures Atoi(Decimal(n)) == Some(n)
    ensures NoSpace(Decimal(n)) && '#' !in Decimal(n)
  {
    DecimalIsRead(n);
    hide DigitsValue, Decimal;
    assert IsDigit(Decimal(n)[0]);
    forall i | 0 <= i < |Decimal(n)| ensures !IsSpace(Decimal(n)[i]) && Decimal(n)[i] != '#' {
      assert IsDigit(Decimal(n)[i]);
    }
  }

  // ------------------------------------------------------------- single lines

  /** What one line says; nothing is an unset address, port 0 and an empty protocol. */
  datatype Line = Says(ip: Option<Addr>, port: nat, protocol: string) | Wrong(error: Error)

  const NOTHING := Says(None, 0, "")

  function ParseProto(field: string): Option<string> {
    if field == "tcp" || field == "tcp4" || field == "tcp6" || field == "tcp-client" then Some("tcp")
    else if field == "udp" || field == "udp4" || field == "udp6" then Some("udp")
    else None
  }

  function ParsePort(field: string): Option<nat> {
    match Atoi(field)
    case None => None
    case Some(n) => if 1 <= n <= 65535 then Some(n) else None
  }

  function ExtractProto(line: string): Line {
    var fields := Fields(line);
    if |fields| != 2 then Wrong(ProtoFieldsCount)
    else match ParseProto(fields[1])
      case None => Wrong(ProtocolNotSupported)
      case Some(protocol) => Says(None, 0, protocol)
  }

  function ExtractRemote(line: string, parseAddr: string -> Option<Addr>): Line {
    var fields := Fields(line);
    if |fields| < 2 || |fields| > 4 then Wrong(RemoteFieldsCount)
    else match parseAddr(fields[1])
      case None => Wrong(HostNotIp)
      case Some(ip) =>
        if |fields| == 2 then Says(Some(ip), 0, "")
        else match ParsePort(fields[2])
          case None => Wrong(PortNotValid)
          case Some(port) =>
            if |fields| == 3 then Says(Some(ip), port, "")
            else match ParseProto(fields[3])
              case None => Wrong(ProtocolNotSupported)
              case Some(protocol) => Says(Some(ip), port, protocol)
  }

  function ExtractPort(line: string): Line {
    var fields := Fields(line);
    if |fields| != 2 then Wrong(PortFieldsCount)
    else match ParsePort(fields[1])
      case None => Wrong(PortNotValid)
      case Some(port) => Says(None, port, "")
  }

  function ExtractDataFromLine(line: string, parseAddr: string -> Option<Addr>): Line {
    if "proto " <= line then ExtractProto(line)
    else if "remote " <= line then ExtractRemote(line, parseAddr)
    else if "port " <= line then ExtractPort(line)
    else NOTHING
  }

  // ---------------------------------------------------------------- all lines

  datatype Data = Data(ip: Option<Addr>, port: nat, protocol: string)

  datatype Outcome = Extracted(data: Data) | Failed(error: Error)

  /** First come, first served: only what is not set yet is set. */
  ghost function Updated(d: Data, line: Line): Data
    requires line.Says?
  {
    Data(if d.ip.None? then line.ip else d.ip, if d.port == 0 then line.port else d.port,
         if d.protocol == "" then line.protocol else d.protocol)
  }

  ghost predicate AllSay(lines: seq<Line>) {
    forall i :: 0 <= i < |lines| ==> lines[i].Says?
  }

  ghost function UpdatedWithAll(d: Data, lines: seq<Line>): Data
    requires AllSay(lines)
    decreases |lines|
  {
    if lines == [] then d else UpdatedWithAll(Updated(d, lines[0]), lines[1..])
  }

  /** The first value that sets a field; a field that nothing sets stays as it was. */
  ghost predicate FirstWins<T>(was: T, said: seq<T>, unset: T, now: T) {
    if was != unset then now == was
    else if forall i :: 0 <= i < |said| ==> said[i] == unset then now == unset
    else exists i :: 0 <= i < |said| && said[i] == now != unset && forall j :: 0 <= j < i ==> said[j] == unset
  }

  lemma FirstWinsStep<T>(was: T, said: seq<T>, unset: T, now: T)
    requires said != [] && FirstWins(if was == unset then said[0] else was, said[1..], unset, now)
    ensures FirstWins(was, said, unset, now)
  {
    assert forall i :: 0 <= i < |said| - 1 ==> said[1..][i] == said[i + 1];
    if was == unset && said[0] == unset && !(forall i :: 0 <= i < |said| ==> said[i] == unset) {
      var k :| 0 <= k < |said| && said[k] != unset;
      assert said[1..][k - 1] == said[k];
      var i :| 0 <= i < |said[1..]| && said[1..][i] == now != unset && forall j :: 0 <= j < i ==> said[1..][j] == unset;
      forall j | 0 <= j < i + 1 ensures said[j] == unset {
        assert j > 0 ==> said[j] == said[1..][j - 1];
      }
      assert said[i + 1] == now;
    }
  }

  ghost function Ips(lines: seq<Line>): seq<Option<Addr>>
    requires AllSay(lines)
  {
    seq(|lines|, i requires 0 <= i < |lines| => lines[i].ip)
  }

  ghost function Ports(lines: seq<Line>): seq<nat>
    requires AllSay(lines)
  {
    seq(|lines|, i requires 0 <= i < |lines| => lines[i].port)
  }

  ghost function Protocols(lines: seq<Line>): seq<string>
    requires AllSay(lines)
  {
    seq(|lines|, i requires 0 <= i < |lines| => lines[i].protocol)
  }

  /** After any updates, each field has the first value that set it. */
  lemma {:induction false} UpdatesKeepFirst(d: Data, lines: seq<Line>)
    requires AllSay(lines)
    ensures var now := UpdatedWithAll(d, lines);
            && FirstWins(d.ip, Ips(lines), None, now.ip)
            && FirstWins(d.port, Ports(lines), 0, now.port)
            && FirstWins(d.protocol, Protocols(lines), "", now.protocol)
    decreases |lines|
  {
    if lines != [] {
      var now := UpdatedWithAll(d, lines);
      UpdatesKeepFirst(Updated(d, lines[0]), lines[1..]);
      assert Ips(lines)[1..] == Ips(lines[1..]) && Ports(lines)[1..] == Ports(lines[1..]);
      assert Protocols(lines)[1..] == Protocols(lines[1..]);
      hide FirstWins;
      FirstWinsStep(d.ip, Ips(lines), None, now.ip);
      FirstWinsStep(d.port, Ports(lines), 0, now.port);
      FirstWinsStep(d.protocol, Protocols(lines), "", now.protocol);
    }
  }

  ghost function Finished(d: Data): Outcome {
    if d.ip.None? then Failed(RemoteLineNotFound)
    else
      var protocol := if d.protocol == "" then "udp" else d.protocol;
      Extracted(Data(d.ip, if d.port != 0 then d.port else if "tcp" <= protocol then 443 else 1194, protocol))
  }

  ghost function Extract(lines: seq<string>, d: Data, parseAddr: string -> Option<Addr>): Outcome {
    if lines == [] then Finished(d)
    else match ExtractDataFromLine(BeforeHash(lines[0]), parseAddr)
      case Wrong(e) => Failed(e)
      case says =>
        var next := Updated(d, says);
        if next.protocol != "" && next.ip.Some? then Finished(next) else Extract(lines[1..], next, parseAddr)
  }

  // -------------------------------------------------------- what nothing is said of

  /** What a line says of the port and the protocol, if anything. */
  ghost function PortIn(line: string, parseAddr: string -> Option<Addr>): nat {
    match ExtractDataFromLine(BeforeHash(line), parseAddr) case Says(_, port, _) => port case Wrong(_) => 0
  }

  ghost function ProtocolIn(line: string, parseAddr: string -> Option<Addr>): string {
    match ExtractDataFromLine(BeforeHash(line), parseAddr) case Says(_, _, protocol) => protocol case Wrong(_) => ""
  }

  lemma FourFields(a: string, b: string, c: string, d: string)
    requires a != "" && NoSpace(a) && b != "" && NoSpace(b) && c != "" && NoSpace(c) && d != "" && NoSpace(d)
    ensures Fields(a + " " + b + " " + c + " " + d) == [a, b, c, d]
  {
    hide IsSpace, TokenLength, Fields;
    assert a + " " + b + " " + c + " " + d == a + (" " + (b + " " + c + " " + d));
    SpaceIsSpace();
    FieldsWord(a, " " + (b + " " + c + " " + d));
    SkipSpace(b + " " + c + " " + d);
    ThreeFields(b, c, d);
  }

  /** Text that can be the value of an option. */
  ghost predicate IsValue(text: string) {
    text != "" && NoSpace(text)
  }

  lemma OptionNames()
    ensures NoSpace("remote") && NoSpace("port") && NoSpace("proto")
  {
  }

  lemma ProtoAndPortLines(name: string, port: nat)
    requires IsValue(name)
    ensures ExtractProto("proto " + name)
            == match ParseProto(name) case Some(protocol) => Says(None, 0, protocol) case None => Wrong(ProtocolNotSupported)
    ensures ExtractPort("port " + Decimal(port)) == if 1 <= port <= 65535 then Says(None, port, "") else Wrong(PortNotValid)
  {
    OptionNames();
    AtoiOfDecimal(port);
    assert "proto " + name == "proto" + " " + name && "port " + Decimal(port) == "port" + " " + Decimal(port);
    hide Fields, NoSpace, Decimal, Atoi, ParseProto;
    TwoFields("proto", name);
    TwoFields("port", Decimal(port));
  }

  /** A remote line names an address, and after it perhaps a port, and after that perhaps a protocol. */
  lemma RemoteLine(host: string, port: nat, name: string, parseAddr: string -> Option<Addr>)
    requires IsValue(host) && IsValue(name) && parseAddr(host).Some? && 1 <= port <= 65535
    ensures ExtractRemote("remote " + host, parseAddr) == Says(parseAddr(host), 0, "")
    ensures ExtractRemote("remote " + host + " " + Decimal(port), parseAddr) == Says(parseAddr(host), port, "")
    ensures ExtractRemote("remote " + host + " " + Decimal(port) + " " + name, parseAddr)
            == match ParseProto(name)
               case Some(protocol) => Says(parseAddr(host), port, protocol)
               case None => Wrong(ProtocolNotSupported)
  {
    OptionNames();
    AtoiOfDecimal(port);
    assert "remote " + host == "remote" + " " + host;
    assert "remote " + host + " " + Decimal(port) == "remote" + " " + host + " " + Decimal(port);
    assert "remote " + host + " " + Decimal(port) + " " + name == "remote" + " " + host + " " + Decimal(port) + " " + name;
    hide Fields, NoSpace, Decimal, Atoi, ParseProto;
    TwoFields("remote", host);
    ThreeFields("remote", host, Decimal(port));
    FourFields("remote", host, Decimal(port), name);
  }

  /** Seven names for two protocols. */
  lemma ProtocolNames(name: string)
    ensures ParseProto(name) == Some("tcp") <==> name in ["tcp", "tcp4", "tcp6", "tcp-client"]
    ensures ParseProto(name) == Some("udp") <==> name in ["udp", "udp4", "udp6"]
    ensures ParseProto(name).Some? ==> ParseProto(name).value in ["tcp", "udp"]
  {
    assert "tcp" != "udp" by {
      assert "tcp"[0] != "udp"[0];
    }
  }

  ghost predicate Sensible(d: Data) {
    (d.protocol == "" || d.protocol == "tcp" || d.protocol == "udp") && d.port <= 65535
  }

  lemma LineIsSensible(line: string, parseAddr: string -> Option<Addr>)
    ensures var r := ExtractDataFromLine(line, parseAddr); r.Says? ==> Sensible(Data(r.ip, r.port, r.protocol))
  {
    hide Fields, Atoi;
  }

  lemma FinishedIs(d: Data)
    requires Sensible(d) && d.ip.Some?
    ensures var r := Finished(d);
            && r.Extracted? && r.data.ip == d.ip && (r.data.protocol == "tcp" || r.data.protocol == "udp")
            && (d.protocol != "" ==> r.data.protocol == d.protocol) && (d.protocol == "" ==> r.data.protocol == "udp")
            && (d.port != 0 ==> r.data.port == d.port)
            && (d.port == 0 ==> r.data.port == if r.data.protocol == "tcp" then 443 else 1194)
  {
    assert "udp"[0] != "tcp"[0];
    assert "" != "tcp";
  }

  /** The defaults: UDP when no line names a protocol, and the port that goes with the protocol when none names a port. */
  lemma {:induction false} DefaultsAre(lines: seq<string>, d: Data, parseAddr: string -> Option<Addr>)
    requires Sensible(d)
    ensures var r := Extract(lines, d, parseAddr);
            r.Extracted? ==>
              && r.data.ip.Some? && (r.data.protocol == "tcp" || r.data.protocol == "udp") && 1 <= r.data.port <= 65535
              && (d.protocol == "" && (forall i :: 0 <= i < |lines| ==> ProtocolIn(lines[i], parseAddr) == "") ==>
                    r.data.protocol == "udp")
              && (d.port == 0 && (forall i :: 0 <= i < |lines| ==> PortIn(lines[i], parseAddr) == 0) ==>
                    r.data.port == if r.data.protocol == "tcp" then 443 else 1194)
  {
    if lines == [] {
      if d.ip.Some? {
        FinishedIs(d);
      }
    } else {
      var says := ExtractDataFromLine(BeforeHash(lines[0]), parseAddr);
      LineIsSensible(BeforeHash(lines[0]), parseAddr);
      assert PortIn(lines[0], parseAddr) == if says.Says? then says.port else 0;
      assert ProtocolIn(lines[0], parseAddr) == if says.Says? then says.protocol else "";
      assert forall i :: 0 <= i < |lines[1..]| ==> lines[1..][i] == lines[i + 1];
      hide ExtractDataFromLine, BeforeHash, PortIn, ProtocolIn, Finished;
      if says.Says? {
        var next := Updated(d, says);
        if next.protocol != "" && next.ip.Some? {
          FinishedIs(next);
        } else {
          DefaultsAre(lines[1..], next, parseAddr);
        }
      }
    }
  }

  const EMPTY := Data(None, 0, "")

  class Connection {
    var ip: Option<Addr>
    var port: nat
    var protocol: string

    constructor ()
      ensures Value() == EMPTY
    {
      ip, port, protocol := None, 0, "";
    }

    function Value(): Data
      reads this
    {
      Data(ip, port, protocol)
    }

    method UpdateEmptyWith(ip: Option<Addr>, port: nat, protocol: string)
      modifies this
      ensures Value() == Updated(old(Value()), Says(ip, port, protocol))
    {
      if this.ip.None? {
        this.ip := ip;
      }
      if this.port == 0 {
        this.port := port;
      }
      if this.protocol == "" {
        this.protocol := protocol;
      }
    }
  }

  method ExtractDataFromLines(lines: seq<string>, parseAddr: string -> Option<Addr>) returns (r: Outcome)
    ensures r == Extract(lines, EMPTY, parseAddr)
  {
    hide ExtractDataFromLine, BeforeHash;
    var connection := new Connection();
    var i := 0;
    var found := false;
    while i < |lines| && !found
      invariant 0 <= i <= |lines|
      invariant if found then Extract(lines, EMPTY, parseAddr) == Finished(connection.Value())
                else Extract(lines, EMPTY, parseAddr) == Extract(lines[i..], connection.Value(), parseAddr)
      decreases |lines| - i
    {
      assert lines[i..][1..] == lines[i + 1..];
      var line := ExtractDataFromLine(BeforeHash(lines[i]), parseAddr);
      if line.Wrong? {
        return Failed(line.error);
      }
      connection.UpdateEmptyWith(line.ip, line.port, line.protocol);
      found := connection.protocol != "" && connection.ip.Some?;
      i := i + 1;
    }
    if connection.ip.None? {
      return Failed(RemoteLineNotFound);
    }
    if connection.protocol == "" {
      connection.protocol := "udp";
    }
    if connection.port == 0 {
      connection.port := 1194;
      if "tcp" <= connection.protocol {
        connection.port := 443;
      }
    }
    return Extracted(connection.Value());
  }
}
