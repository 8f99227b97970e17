/** Whole TCP packets of a wanted size, over IPv4 or IPv6. */
module TcpPacket {
  import opened Wrappers
  import opened Checksum
  import opened TcpOptions
  import opened TcpHeader

  const IPV4_HEADER_LENGTH := 20
  const IPV6_HEADER_LENGTH := 40

  datatype AddrPort = AddrPort(v6: bool, address: seq<byte>, port: nat)

  /** An address of four or sixteen bytes, and a 16-bit port. */
  ghost predicate AddrPortValid(a: AddrPort) {
    |a.address| == (if a.v6 then 16 else 4) && a.port < 0x1_0000
  }

  // -------------------------------------------------------------- IP headers

  /** An IPv4 header with don't-fragment set, and its checksum still zero. */
  ghost function V4Bytes(src: seq<byte>, dst: seq<byte>, payloadLength: nat): (b: seq<byte>)
    requires |src| == |dst| == 4
    ensures |b| == IPV4_HEADER_LENGTH && b[10] == b[11] == 0
  {
    [0x45, 0] + Bytes16((IPV4_HEADER_LENGTH + payloadLength) % 0x1_0000) + [0, 0, 0x40, 0, 64, 6, 0, 0] + src + dst
  }

  ghost function WithChecksum(b: seq<byte>, k: nat): (r: seq<byte>)
    requires k + 1 < |b|
    ensures |r| == |b|
  {
    b[k := ChecksumOf(b) / 256][k + 1 := ChecksumOf(b) % 256]
  }

  /** Copies bytes after those written so far. */
  method AppendBytes(b: array<byte>, ghost prefix: seq<byte>, i: nat, s: seq<byte>)
    requires i == |prefix| && i + |s| <= b.Length && Written(b[..], prefix)
    modifies b
    ensures Written(b[..], prefix + s)
  {
    for n := 0 to |s|
      invariant Written(b[..], prefix + s[..n])
    {
      ghost var was := b[..];
      b[i + n] := s[n];
      assert b[..] == was[..i + n] + [s[n]] + was[i + n + 1..];
      assert s[..n + 1] == s[..n] + [s[n]] && prefix + s[..n + 1] == prefix + s[..n] + [s[n]];
      WrittenMore(was, prefix + s[..n], [s[n]], b[..]);
    }
    assert s[..|s|] == s;
  }

  lemma WrittenZeros(b: seq<byte>, prefix: seq<byte>)
    requires Written(b, prefix) && |prefix| + 2 <= |b|
    ensures Written(b, prefix + [0, 0])
  {
  }

  method HeaderV4(src: seq<byte>, dst: seq<byte>, payloadLength: nat) returns (header: array<byte>)
    requires |src| == |dst| == 4
    ensures fresh(header) && header[..] == WithChecksum(V4Bytes(src, dst, payloadLength), 10)
  {
    header := new byte[IPV4_HEADER_LENGTH](_ => 0);
    header[0], header[1] := 4 * 16 + 5, 0;
    assert Written(header[..], [0x45, 0]);
    ghost var total := [0x45, 0] + Bytes16((IPV4_HEADER_LENGTH + payloadLength) % 0x1_0000);
    ghost var flagged := total + [0, 0] + Bytes16(0x4000);
    V4BytesAre(src, dst, payloadLength, flagged);
    hide V4Bytes, ChecksumOf, Bytes16, Written;
    Append16(header, [0x45, 0], 2, (IPV4_HEADER_LENGTH + payloadLength) % 0x1_0000);
    WrittenZeros(header[..], total);
    Append16(header, total + [0, 0], 6, 0x4000);
    AppendBytes(header, flagged, 8, [64, 6]);
    WrittenZeros(header[..], flagged + [64, 6]);
    AppendBytes(header, flagged + [64, 6] + [0, 0], 12, src);
    AppendBytes(header, flagged + [64, 6] + [0, 0] + src, 16, dst);
    AllWritten(header[..], flagged + [64, 6] + [0, 0] + src + dst);
    var checksum := IpChecksum(header[..]);
    header[10] := checksum / 256;
    header[11] := checksum % 256;
  }

  lemma AllWritten(b: seq<byte>, prefix: seq<byte>)
    requires Written(b, prefix) && |b| == |prefix|
    ensures b == prefix
  {
  }

  lemma V4BytesAre(src: seq<byte>, dst: seq<byte>, payloadLength: nat, flagged: seq<byte>)
    requires |src| == |dst| == 4
    requires flagged == [0x45, 0] + Bytes16((IPV4_HEADER_LENGTH + payloadLength) % 0x1_0000) + [0, 0] + Bytes16(0x4000)
    ensures |flagged| == 8 && flagged + [64, 6] + [0, 0] + src + dst == V4Bytes(src, dst, payloadLength)
  {
    assert Bytes16(0x4000) == [0x40, 0];
    hide Bytes16;
  }

  /** Receivers verify a header by its checksum: it is zero. */
  lemma HeaderV4Verifies(src: seq<byte>, dst: seq<byte>, payloadLength: nat)
    requires |src| == |dst| == 4
    ensures ChecksumOf(WithChecksum(V4Bytes(src, dst, payloadLength), 10)) == 0
  {
    hide V4Bytes, ChecksumOf;
    ChecksumCancels(V4Bytes(src, dst, payloadLength), 10);
  }

  ghost function V6Bytes(src: seq<byte>, dst: seq<byte>, payloadLength: nat): (b: seq<byte>)
    requires |src| == |dst| == 16
    ensures |b| == IPV6_HEADER_LENGTH && b[0] == 0x60
  {
    [0x60, 0, 0, 0] + Bytes16(payloadLength % 0x1_0000) + [6, 64] + src + dst
  }

  method HeaderV6(src: seq<byte>, dst: seq<byte>, payloadLength: nat) returns (header: seq<byte>)
    requires |src| == |dst| == 16
    ensures header == V6Bytes(src, dst, payloadLength)
  {
    return [0x60, 0, 0, 0] + Bytes16(payloadLength % 0x1_0000) + [6, 64] + src + dst;
  }

  ghost function IpHeaderOf(src: AddrPort, dst: AddrPort, payloadLength: nat): (b: seq<byte>)
    requires AddrPortValid(src) && AddrPortValid(dst) && src.v6 == dst.v6
    ensures |b| == if dst.v6 then IPV6_HEADER_LENGTH else IPV4_HEADER_LENGTH
  {
    if dst.v6 then V6Bytes(src.address, dst.address, payloadLength)
    else WithChecksum(V4Bytes(src.address, dst.address, payloadLength), 10)
  }

  // ----------------------------------------------------------------- packets

  function HeaderLength(v6: bool): nat {
    if v6 then IPV6_HEADER_LENGTH else IPV4_HEADER_LENGTH
  }

  /** The length left for the TCP header and its payload. None stands for the panic. */
  method GetPayloadLength(mtu: nat, v6: bool) returns (length: Option<nat>)
    ensures length == if mtu < HeaderLength(v6) + BASE_TCP_HEADER_LENGTH then None else Some(mtu - HeaderLength(v6))
  {
    var ipHeaderLength := if v6 then IPV6_HEADER_LENGTH else IPV4_HEADER_LENGTH;
    if mtu < ipHeaderLength + BASE_TCP_HEADER_LENGTH {
      return None;
    }
    return Some(mtu - ipHeaderLength);
  }

  /** Random bytes, or a TLS hello: anything of the given 16-bit length. */
  method GeneratePayload(length: nat) returns (data: seq<byte>)
    requires length < 0x1_0000
    ensures |data| == length
  {
    ghost var zeros := seq<byte>(length, _ => 0);
    assert |zeros| == length;
    data :| |data| == length;
  }

  /** The TCP header of a packet with the given data, with its checksum. */
  ghost function SegmentHeader(ipHeader: seq<byte>, src: AddrPort, dst: AddrPort, sequence: nat, ack: nat, flags: byte,
                               data: seq<byte>): (b: seq<byte>)
    requires |ipHeader| >= 20 && AddrPortValid(src) && AddrPortValid(dst) && sequence < WORD32 && ack < WORD32
    ensures |b| == BASE_TCP_HEADER_LENGTH
  {
    MadeHeader(src.port, dst.port, sequence, ack, flags,
               ChecksumOf(PseudoHeader(ipHeader, BASE_TCP_HEADER_LENGTH + |data|)
                          + HeaderBytes(src.port, dst.port, sequence, ack, flags) + data))
  }

  ghost function Zeros(n: nat): (z: seq<byte>)
    ensures |z| == n && forall i :: 0 <= i < n ==> z[i] == 0
  {
    seq<byte>(n, _ => 0)
  }

  /** The packet: with IPv6 the kernel adds the IP header, and what the data does not fill stays zero. */
  ghost function PacketOf(src: AddrPort, dst: AddrPort, sequence: nat, ack: nat, payloadLength: nat, flags: byte,
                          data: seq<byte>): (p: seq<byte>)
    requires AddrPortValid(src) && AddrPortValid(dst) && src.v6 == dst.v6 && sequence < WORD32 && ack < WORD32
    requires BASE_TCP_HEADER_LENGTH + |data| <= payloadLength
    ensures |p| + (if dst.v6 then IPV6_HEADER_LENGTH else 0) == HeaderLength(dst.v6) + payloadLength
  {
    var ipHeader := IpHeaderOf(src, dst, payloadLength);
    (if dst.v6 then [] else ipHeader)
    + (SegmentHeader(ipHeader, src, dst, sequence, ack, flags, data)
       + (data + Zeros(payloadLength - BASE_TCP_HEADER_LENGTH - |data|)))
  }

  /** Lengths of data are kept in 16 bits. */
  method CreatePacket(src: AddrPort, dst: AddrPort, sequence: nat, ack: nat, payloadLength: nat, flags: byte)
    returns (packet: Option<seq<byte>>, ghost data: seq<byte>)
    requires AddrPortValid(src) && AddrPortValid(dst) && src.v6 == dst.v6
    requires sequence < WORD32 && ack < WORD32 && payloadLength < WORD32
    ensures packet.None? <==> payloadLength < BASE_TCP_HEADER_LENGTH
    ensures packet.Some? ==>
              && |data| == Low(payloadLength - BASE_TCP_HEADER_LENGTH)
              && packet.value == PacketOf(src, dst, sequence, ack, payloadLength, flags, data)
  {
    if payloadLength < BASE_TCP_HEADER_LENGTH {
      return None, [];
    }
    hide IpHeaderOf, SegmentHeader, Zeros, Low;
    var ipHeader := MakeIpHeader(src, dst, payloadLength);
    var dataLength := payloadLength - BASE_TCP_HEADER_LENGTH;
    var payload: seq<byte> := [];
    LowIsNotMore(dataLength);
    if dataLength > 0 {
      payload := GeneratePayload(Low(dataLength));
    }
    var tcpHeader := MakeSegmentHeader(ipHeader, src, dst, sequence, ack, flags, payload);
    var padding := Padding(dataLength - |payload|);
    return Some((if dst.v6 then [] else ipHeader) + (tcpHeader + (payload + padding))), payload;
  }

  lemma LowIsNotMore(n: nat)
    ensures Low(n) <= n && (n < 0x1_0000 ==> Low(n) == n)
  {
  }

  method MakeSegmentHeader(ipHeader: seq<byte>, src: AddrPort, dst: AddrPort, sequence: nat, ack: nat, flags: byte,
                           data: seq<byte>)
    returns (header: seq<byte>)
    requires |ipHeader| >= 20 && AddrPortValid(src) && AddrPortValid(dst) && sequence < WORD32 && ack < WORD32
    requires |data| < 0x1_0000
    ensures header == SegmentHeader(ipHeader, src, dst, sequence, ack, flags, data)
  {
    hide ChecksumOf, PseudoHeader, HeaderBytes;
    var tcpHeader := MakeTcpHeader(src.port, dst.port, sequence, ack, flags);
    var checksum := TcpChecksum(ipHeader, tcpHeader[..], data);
    PutUint16(tcpHeader, 16, checksum);
    return tcpHeader[..];
  }

  method Padding(n: nat) returns (z: seq<byte>)
    ensures z == Zeros(n)
  {
    z := seq<byte>(n, _ => 0);
  }

  method MakeIpHeader(src: AddrPort, dst: AddrPort, payloadLength: nat) returns (ipHeader: seq<byte>)
    requires AddrPortValid(src) && AddrPortValid(dst) && src.v6 == dst.v6
    ensures ipHeader == IpHeaderOf(src, dst, payloadLength)
  {
    hide V4Bytes, V6Bytes, WithChecksum;
    if dst.v6 {
      ipHeader := HeaderV6(src.address, dst.address, payloadLength);
    } else {
      var header := HeaderV4(src.address, dst.address, payloadLength);
      ipHeader := header[..];
    }
  }

  // ------------------------------------------------------------ what it means

  /** The segment verifies: its checksum, with the pseudo header, is zero. */
  lemma SegmentVerifies(ipHeader: seq<byte>, src: AddrPort, dst: AddrPort, sequence: nat, ack: nat, flags: byte,
                        data: seq<byte>)
    requires |ipHeader| >= 20 && AddrPortValid(src) && AddrPortValid(dst) && sequence < WORD32 && ack < WORD32
    ensures ChecksumOf(PseudoHeader(ipHeader, BASE_TCP_HEADER_LENGTH + |data|)
                       + SegmentHeader(ipHeader, src, dst, sequence, ack, flags, data) + data) == 0
  {
    var pseudo := PseudoHeader(ipHeader, BASE_TCP_HEADER_LENGTH + |data|);
    var header := HeaderBytes(src.port, dst.port, sequence, ack, flags);
    ZeroChecksum(src.port, dst.port, sequence, ack, flags);
    hide ChecksumOf, PseudoHeader, HeaderBytes;
    var all := pseudo + header + data;
    var c := ChecksumOf(all);
    ChecksumCancels(all, |pseudo| + 16);
    assert all[|pseudo| + 16 := c / 256][|pseudo| + 17 := c % 256]
           == pseudo + header[16 := c / 256][17 := c % 256] + data;
  }

  lemma ZeroChecksum(srcPort: nat, dstPort: nat, sequence: nat, ack: nat, flags: byte)
    requires srcPort < 0x1_0000 && dstPort < 0x1_0000 && sequence < WORD32 && ack < WORD32
    ensures var b := HeaderBytes(srcPort, dstPort, sequence, ack, flags); b[16] == b[17] == 0
  {
    hide Bytes16, Bytes32;
  }

  /** The receiver reads back what was sent. */
  lemma SegmentIsParsed(ipHeader: seq<byte>, src: AddrPort, dst: AddrPort, sequence: nat, ack: nat, flags: byte,
                        data: seq<byte>, rest: seq<byte>, typ: PacketType)
    requires |ipHeader| >= 20 && AddrPortValid(src) && AddrPortValid(dst) && sequence < WORD32 && ack < WORD32
    requires TypeOf(flags) == Some(typ)
    ensures var r := HeaderOf(SegmentHeader(ipHeader, src, dst, sequence, ack, flags, data) + rest);
            && r.Valid? && r.header.typ == typ
            && r.header.srcPort == src.port && r.header.dstPort == dst.port
            && r.header.sequence == sequence && r.header.ack == ack && r.header.flags == flags
  {
    hide ChecksumOf, PseudoHeader, HeaderBytes, HeaderOf, TypeOf, MadeHeader;
    MadeIsParsed(src.port, dst.port, sequence, ack, flags,
                 ChecksumOf(PseudoHeader(ipHeader, BASE_TCP_HEADER_LENGTH + |data|)
                            + HeaderBytes(src.port, dst.port, sequence, ack, flags) + data), rest, typ);
  }

  /**
    The pseudo header that the receiver makes up from the addresses of a packet: sections 3.1 of
    RFC 9293 and 8.1 of RFC 8200.
   */
  ghost function ReceiverPseudoHeader(src: AddrPort, dst: AddrPort, length: nat): seq<byte>
    requires AddrPortValid(src) && AddrPortValid(dst) && src.v6 == dst.v6
  {
    src.address + dst.address
    + (if dst.v6 then Bytes32(length % WORD32) + [0, 0, 0, 6] else [0, 6] + Bytes16(length % 0x1_0000))
  }

  /** The sender's pseudo header, taken from the bytes of the IP header, is the receiver's. */
  lemma PseudoHeaderIs(src: AddrPort, dst: AddrPort, payloadLength: nat, length: nat)
    requires AddrPortValid(src) && AddrPortValid(dst) && src.v6 == dst.v6
    ensures PseudoHeader(IpHeaderOf(src, dst, payloadLength), length) == ReceiverPseudoHeader(src, dst, length)
  {
    hide ChecksumOf, Bytes16, Bytes32;
    var b := IpHeaderOf(src, dst, payloadLength);
    if dst.v6 {
      assert b[8..24] == src.address && b[24..40] == dst.address;
    } else {
      V4Fields(src.address, dst.address, payloadLength);
      assert b[12..16] == src.address && b[16..20] == dst.address;
    }
    hide IpHeaderOf, AddrPortValid;
    assert src.address + dst.address + Bytes32(length % WORD32) + [0, 0, 0, 6]
           == src.address + dst.address + (Bytes32(length % WORD32) + [0, 0, 0, 6]);
    assert src.address + dst.address + [0, 6] + Bytes16(length % 0x1_0000)
           == src.address + dst.address + ([0, 6] + Bytes16(length % 0x1_0000));
  }

  /** The fields of an IPv4 header, as section 3.1 of RFC 791 places them. */
  lemma V4Fields(src: seq<byte>, dst: seq<byte>, payloadLength: nat)
    requires |src| == |dst| == 4
    ensures var b := WithChecksum(V4Bytes(src, dst, payloadLength), 10);
            && b[0] as int / 16 == 4 && b[0] as int % 16 * 4 == IPV4_HEADER_LENGTH
            && Word(b[2], b[3]) == (IPV4_HEADER_LENGTH + payloadLength) % 0x1_0000
            && b[6] as int / 32 == 2 && b[6] as int % 32 == 0 && b[7] == 0
            && b[8] == 64 && b[9] == 6 && b[12..16] == src && b[16..20] == dst
  {
    hide ChecksumOf;
  }

  lemma V6Fields(src: seq<byte>, dst: seq<byte>, payloadLength: nat)
    requires |src| == |dst| == 16
    ensures var b := V6Bytes(src, dst, payloadLength);
            && b[0] as int / 16 == 6 && Word(b[4], b[5]) == payloadLength % 0x1_0000 && b[6] == 6 && b[7] == 64
            && b[8..24] == src && b[24..40] == dst
  {
  }

  /** The receiver of a packet verifies its checksums, and reads this from its TCP header. */
  ghost predicate Received(packet: seq<byte>, src: AddrPort, dst: AddrPort, payloadLength: nat, typ: PacketType,
                           sequence: nat, ack: nat)
    requires AddrPortValid(src) && AddrPortValid(dst) && src.v6 == dst.v6 && payloadLength <= |packet|
  {
    var segment := packet[|packet| - payloadLength..];
    && (!dst.v6 ==> |packet| >= IPV4_HEADER_LENGTH && ChecksumOf(packet[..IPV4_HEADER_LENGTH]) == 0)
    && ChecksumOf(ReceiverPseudoHeader(src, dst, payloadLength) + segment) == 0
    && var r := HeaderOf(segment);
       && r.Valid? && r.header.typ == typ
       && r.header.srcPort == src.port && r.header.dstPort == dst.port
       && r.header.sequence == sequence && r.header.ack == ack
  }

  /**
    A created packet, as its receiver sees it: the IP header and the TCP segment
    verify, and the header is read back, for any data that is not cut short.
   */
  lemma PacketIsSound(src: AddrPort, dst: AddrPort, sequence: nat, ack: nat, payloadLength: nat, flags: byte,
                      data: seq<byte>,
                      typ: PacketType)
    requires AddrPortValid(src) && AddrPortValid(dst) && src.v6 == dst.v6 && sequence < WORD32 && ack < WORD32
    requires payloadLength == BASE_TCP_HEADER_LENGTH + |data| && TypeOf(flags) == Some(typ)
    ensures Received(PacketOf(src, dst, sequence, ack, payloadLength, flags, data), src, dst, payloadLength, typ,
                     sequence, ack)
  {
    hide IpHeaderOf, SegmentHeader, ChecksumOf, PseudoHeader, HeaderOf, TypeOf, PacketOf, ReceiverPseudoHeader;
    PseudoHeaderIs(src, dst, payloadLength, payloadLength);
    var ipHeader := IpHeaderOf(src, dst, payloadLength);
    var header := SegmentHeader(ipHeader, src, dst, sequence, ack, flags, data);
    PacketParts(src, dst, sequence, ack, payloadLength, flags, data);
    if !dst.v6 {
      IpHeaderVerifies(src, dst, payloadLength);
    }
    SegmentVerifies(ipHeader, src, dst, sequence, ack, flags, data);
    Associates(PseudoHeader(ipHeader, payloadLength), header, data);
    SegmentIsParsed(ipHeader, src, dst, sequence, ack, flags, data, data, typ);
  }

  lemma Associates(a: seq<byte>, b: seq<byte>, c: seq<byte>)
    ensures a + (b + c) == a + b + c
  {
  }

  lemma IpHeaderVerifies(src: AddrPort, dst: AddrPort, payloadLength: nat)
    requires AddrPortValid(src) && AddrPortValid(dst) && !src.v6 && !dst.v6
    ensures ChecksumOf(IpHeaderOf(src, dst, payloadLength)) == 0
  {
    hide ChecksumOf, V4Bytes, WithChecksum;
    HeaderV4Verifies(src.address, dst.address, payloadLength);
  }

  lemma PacketParts(src: AddrPort, dst: AddrPort, sequence: nat, ack: nat, payloadLength: nat, flags: byte,
                    data: seq<byte>)
    requires AddrPortValid(src) && AddrPortValid(dst) && src.v6 == dst.v6 && sequence < WORD32 && ack < WORD32
    requires payloadLength == BASE_TCP_HEADER_LENGTH + |data|
    ensures var packet := PacketOf(src, dst, sequence, ack, payloadLength, flags, data);
            var ipHeader := IpHeaderOf(src, dst, payloadLength);
            && packet[|packet| - payloadLength..] == SegmentHeader(ipHeader, src, dst, sequence, ack, flags, data) + data
            && (!dst.v6 ==> packet[..IPV4_HEADER_LENGTH] == ipHeader)
  {
    hide IpHeaderOf, SegmentHeader;
    assert Zeros(0) == [] && data + Zeros(0) == data;
  }

  /** A packet without a wanted size has no data; one of a wanted size has that size, with the IPv6 header counted. */
  ghost function WantedSize(mtu: nat, v6: bool): nat {
    if mtu == 0 then HeaderLength(v6) + BASE_TCP_HEADER_LENGTH else mtu
  }

  ghost predicate TooSmall(mtu: nat, v6: bool) {
    0 < mtu < HeaderLength(v6) + BASE_TCP_HEADER_LENGTH
  }

  /** The packet has the wanted size and, up to the size at which its data is cut, is received as sent. */
  ghost predicate Sent(packet: seq<byte>, src: AddrPort, dst: AddrPort, mtu: nat, typ: PacketType, sequence: nat, ack: nat)
    requires AddrPortValid(src) && AddrPortValid(dst) && src.v6 == dst.v6 && !TooSmall(mtu, dst.v6)
  {
    var payloadLength := WantedSize(mtu, dst.v6) - HeaderLength(dst.v6);
    && |packet| + (if dst.v6 then IPV6_HEADER_LENGTH else 0) == WantedSize(mtu, dst.v6)
    && (payloadLength - BASE_TCP_HEADER_LENGTH < 0x1_0000 ==>
          Received(packet, src, dst, payloadLength, typ, sequence, ack))
  }

  lemma SentIs(src: AddrPort, dst: AddrPort, sequence: nat, ack: nat, mtu: nat, flags: byte, typ: PacketType,
               payloadLength: nat, data: seq<byte>)
    requires AddrPortValid(src) && AddrPortValid(dst) && src.v6 == dst.v6 && !TooSmall(mtu, dst.v6)
    requires sequence < WORD32 && ack < WORD32 && TypeOf(flags) == Some(typ)
    requires payloadLength == WantedSize(mtu, dst.v6) - HeaderLength(dst.v6)
    requires |data| == Low(payloadLength - BASE_TCP_HEADER_LENGTH) <= payloadLength - BASE_TCP_HEADER_LENGTH
    ensures Sent(PacketOf(src, dst, sequence, ack, payloadLength, flags, data), src, dst, mtu, typ, sequence, ack)
  {
    hide Received, PacketOf, TypeOf, Low, AddrPortValid;
    LowIsNotMore(payloadLength - BASE_TCP_HEADER_LENGTH);
    if payloadLength - BASE_TCP_HEADER_LENGTH < 0x1_0000 {
      PacketIsSound(src, dst, sequence, ack, payloadLength, flags, data, typ);
    }
  }

  /** An acknowledgement that pushes its data, of the size to test. None stands for the panic. */
  method CreateAckPacket(src: AddrPort, dst: AddrPort, sequence: nat, ack: nat,
                         mtu: nat) returns (packet: Option<seq<byte>>)
    requires AddrPortValid(src) && AddrPortValid(dst) && src.v6 == dst.v6
    requires sequence < WORD32 && ack < WORD32 && mtu < WORD32
    ensures packet.None? <==> TooSmall(mtu, dst.v6)
    ensures packet.Some? ==> Sent(packet.value, src, dst, mtu, PSHACK, sequence, ack)
  {
    hide PacketOf, Sent, Low;
    var payloadLength := BASE_TCP_HEADER_LENGTH;
    if mtu > 0 {
      var length := GetPayloadLength(mtu, dst.v6);
      if length.None? {
        return None;
      }
      payloadLength := length.value;
    }
    ghost var data;
    packet, data := CreatePacket(src, dst, sequence, ack, payloadLength, PSH_FLAG + ACK_FLAG);
    LowIsNotMore(payloadLength - BASE_TCP_HEADER_LENGTH);
    SentIs(src, dst, sequence, ack, mtu, PSH_FLAG + ACK_FLAG, PSHACK, payloadLength, data);
  }

  /** The first packet of a handshake, with a random sequence number and nothing to acknowledge. */
  method CreateSynPacket(src: AddrPort, dst: AddrPort, mtu: nat) returns (packet: Option<seq<byte>>, sequence: nat)
    requires AddrPortValid(src) && AddrPortValid(dst) && src.v6 == dst.v6 && mtu < WORD32
    ensures sequence < WORD32
    ensures packet.None? <==> TooSmall(mtu, dst.v6)
    ensures packet.Some? ==> Sent(packet.value, src, dst, mtu, SYN, sequence, 0)
  {
    hide PacketOf, Sent, Low;
    sequence :| sequence < WORD32;
    var payloadLength := BASE_TCP_HEADER_LENGTH;
    if mtu > 0 {
      var length := GetPayloadLength(mtu, dst.v6);
      if length.None? {
        return None, sequence;
      }
      payloadLength := length.value;
    }
    ghost var data;
    packet, data := CreatePacket(src, dst, sequence, 0, payloadLength, SYN_FLAG);
    LowIsNotMore(payloadLength - BASE_TCP_HEADER_LENGTH);
    SentIs(src, dst, sequence, 0, mtu, SYN_FLAG, SYN, payloadLength, data);
  }

  method CreateRstPacket(src: AddrPort, dst: AddrPort, sequence: nat, ack: nat) returns (packet: seq<byte>)
    requires AddrPortValid(src) && AddrPortValid(dst) && src.v6 == dst.v6 && sequence < WORD32 && ack < WORD32
    ensures Sent(packet, src, dst, 0, RST, sequence, ack)
  {
    hide PacketOf, Sent, Low;
    var created;
    ghost var data;
    created, data := CreatePacket(src, dst, sequence, ack, BASE_TCP_HEADER_LENGTH, RST_FLAG);
    LowIsNotMore(0);
    SentIs(src, dst, sequence, ack, 0, RST_FLAG, RST, BASE_TCP_HEADER_LENGTH, data);
    return created.value;
  }
}
