/** TCP headers: writing them, reading them, and their checksum. */
module TcpHeader {
  import opened Wrappers
  import opened Checksum
  import opened TcpOptions

  const BASE_TCP_HEADER_LENGTH := 20
  const WINDOW_SIZE := 5840

  datatype PacketType = SYN | SYNACK | FIN | FINACK | RST | RSTACK | PSHACK | ACK

  datatype Header = Header(typ: PacketType, srcPort: nat, dstPort: nat, sequence: nat, ack: nat, dataOffset: nat, flags: byte,
                           windowSize: nat, checksum: nat, urgentPtr: nat, options: Options)

  datatype Parsed = Valid(header: Header) | TooShort | OffsetInvalid | OptionsInvalid(error: Error) | UnknownType

  const FIN_FLAG: byte := 0x01
  const SYN_FLAG: byte := 0x02
  const RST_FLAG: byte := 0x04
  const PSH_FLAG: byte := 0x08
  const ACK_FLAG: byte := 0x10

  /** Whether the bit of a flag, a power of two, is set. */
  function HasFlag(flags: byte, flag: byte): bool
    requires flag > 0
  {
    (flags as int / flag as int) % 2 == 1
  }

  function TypeOf(flags: byte): Option<PacketType> {
    if HasFlag(flags, SYN_FLAG) then Some(if HasFlag(flags, ACK_FLAG) then SYNACK else SYN)
    else if HasFlag(flags, RST_FLAG) then Some(if HasFlag(flags, ACK_FLAG) then RSTACK else RST)
    else if HasFlag(flags, FIN_FLAG) then Some(if HasFlag(flags, ACK_FLAG) then FINACK else FIN)
    else if HasFlag(flags, PSH_FLAG) then Some(PSHACK)
    else if HasFlag(flags, ACK_FLAG) then Some(ACK)
    else None
  }

  /** A packet has a type exactly when one of the five lowest flags is set. */
  lemma TypedIff(flags: byte)
    ensures TypeOf(flags).Some? <==> flags as int % 32 != 0
  {
    LowBits(flags as int);
  }

  function Bit(b: bool): nat {
    if b then 1 else 0
  }

  /** The flags of a packet, bit by bit, with three higher bits that do not matter for its type. */
  function FlagsOf(fin: bool, syn: bool, rst: bool, psh: bool, ack: bool, high: nat): byte
    requires high < 8
  {
    Bit(fin) + 2 * Bit(syn) + 4 * Bit(rst) + 8 * Bit(psh) + 16 * Bit(ack) + 32 * high
  }

  /**
    Which of the eight types a packet has: SYN counts more than RST, RST more than FIN and FIN
    more than PSH, and ACK makes the difference between the two types of the first three.
   */
  lemma TypeIs(fin: bool, syn: bool, rst: bool, psh: bool, ack: bool, high: nat)
    requires high < 8
    ensures var typ := TypeOf(FlagsOf(fin, syn, rst, psh, ack, high));
            && (typ == Some(SYN) <==> syn && !ack) && (typ == Some(SYNACK) <==> syn && ack)
            && (typ == Some(RST) <==> rst && !syn && !ack) && (typ == Some(RSTACK) <==> rst && !syn && ack)
            && (typ == Some(FIN) <==> fin && !syn && !rst && !ack) && (typ == Some(FINACK) <==> fin && !syn && !rst && ack)
            && (typ == Some(PSHACK) <==> psh && !syn && !rst && !fin)
            && (typ == Some(ACK) <==> ack && !syn && !rst && !fin && !psh)
            && (typ == None <==> !syn && !rst && !fin && !psh && !ack)
  {
    FlagBits(fin, syn, rst, psh, ack, high);
    hide HasFlag, FlagsOf;
  }

  lemma FlagBits(fin: bool, syn: bool, rst: bool, psh: bool, ack: bool, high: nat)
    requires high < 8
    ensures var f := FlagsOf(fin, syn, rst, psh, ack, high);
            && (HasFlag(f, FIN_FLAG) <==> fin) && (HasFlag(f, SYN_FLAG) <==> syn) && (HasFlag(f, RST_FLAG) <==> rst)
            && (HasFlag(f, PSH_FLAG) <==> psh) && (HasFlag(f, ACK_FLAG) <==> ack)
  {
    var high1 := Bit(ack) + 2 * high;
    var high2 := Bit(psh) + 2 * high1;
    var high3 := Bit(rst) + 2 * high2;
    var high4 := Bit(syn) + 2 * high3;
    var f := Bit(fin) + 2 * high4;
    assert f == FlagsOf(fin, syn, rst, psh, ack, high);
    LowBit(fin, high4);
    LowBit(syn, high3);
    LowBit(rst, high2);
    LowBit(psh, high1);
    LowBit(ack, high);
    hide Bit, FlagsOf;
    Halves(f);
    assert f / 16 == f / 8 / 2;
  }

  lemma LowBit(b: bool, rest: nat)
    ensures var f := Bit(b) + 2 * rest; f / 2 == rest && (f % 2 == 1 <==> b)
  {
  }

  lemma LowBits(f: nat)
    ensures f % 32 == 0 <==> f % 2 == f / 2 % 2 == f / 4 % 2 == f / 8 % 2 == f / 16 % 2 == 0
  {
    Halves(f);
    LowestOf32(f, f / 2);
    LowestOf16(f / 2, f / 4);
    LowestOf8(f / 4, f / 8);
    LowestOf4(f / 8, f / 16);
  }

  lemma Halves(f: nat)
    ensures f / 4 == f / 2 / 2 && f / 8 == f / 4 / 2 && f / 16 == f / 8 / 2
  {
  }

  lemma LowestOf32(f: nat, half: nat)
    requires half == f / 2
    ensures f % 32 == 0 <==> f % 2 == 0 && half % 16 == 0
  {
  }

  lemma LowestOf16(f: nat, half: nat)
    requires half == f / 2
    ensures f % 16 == 0 <==> f % 2 == 0 && half % 8 == 0
  {
  }

  lemma LowestOf8(f: nat, half: nat)
    requires half == f / 2
    ensures f % 8 == 0 <==> f % 2 == 0 && half % 4 == 0
  {
  }

  lemma LowestOf4(f: nat, half: nat)
    requires half == f / 2
    ensures f % 4 == 0 <==> f % 2 == 0 && half % 2 == 0
  {
  }

  // ---------------------------------------------------------------- writing

  method PutUint16(b: array<byte>, i: nat, v: nat)
    requires i + 1 < b.Length && v < 0x1_0000
    modifies b
    ensures b[..] == old(b[..])[i := v / 256][i + 1 := v % 256]
  {
    b[i] := v / 256;
    b[i + 1] := v % 256;
  }

  method PutUint32(b: array<byte>, i: nat, v: nat)
    requires i + 3 < b.Length && v < WORD32
    modifies b
    ensures b[..] == old(b[..i]) + Bytes32(v) + old(b[i + 4..])
  {
    b[i] := High(v) / 256;
    b[i + 1] := High(v) % 256;
    b[i + 2] := Low(v) / 256;
    b[i + 3] := Low(v) % 256;
  }

  /** A header without options, with its checksum still zero. */
  ghost function HeaderBytes(srcPort: nat, dstPort: nat, sequence: nat, ack: nat, flags: byte): (b: seq<byte>)
    requires srcPort < 0x1_0000 && dstPort < 0x1_0000 && sequence < WORD32 && ack < WORD32
    ensures |b| == BASE_TCP_HEADER_LENGTH
  {
    Bytes16(srcPort) + Bytes16(dstPort) + Bytes32(sequence) + Bytes32(ack) + [80, flags] + Bytes16(WINDOW_SIZE) + [0, 0, 0, 0]
  }

  /** Part of a buffer was written, the rest is still zero. */
  ghost predicate Written(b: seq<byte>, prefix: seq<byte>) {
    prefix <= b && forall i :: |prefix| <= i < |b| ==> b[i] == 0
  }

  lemma WrittenMore(b: seq<byte>, prefix: seq<byte>, more: seq<byte>, next: seq<byte>)
    requires Written(b, prefix) && |prefix| + |more| <= |b| == |next|
    requires next == b[..|prefix|] + more + b[|prefix| + |more|..]
    ensures Written(next, prefix + more)
  {
  }

  method Append16(b: array<byte>, ghost prefix: seq<byte>, i: nat, v: nat)
    requires i == |prefix| && i + 1 < b.Length && v < 0x1_0000 && Written(b[..], prefix)
    modifies b
    ensures Written(b[..], prefix + Bytes16(v))
  {
    ghost var was := b[..];
    PutUint16(b, i, v);
    assert b[..] == was[..i] + Bytes16(v) + was[i + 2..];
    hide Written, Bytes16;
    WrittenMore(was, prefix, Bytes16(v), b[..]);
  }

  method Append32(b: array<byte>, ghost prefix: seq<byte>, i: nat, v: nat)
    requires i == |prefix| && i + 3 < b.Length && v < WORD32 && Written(b[..], prefix)
    modifies b
    ensures Written(b[..], prefix + Bytes32(v))
  {
    hide Written, Bytes32;
    ghost var was := b[..];
    PutUint32(b, i, v);
    assert b[..] == was[..i] + Bytes32(v) + was[i + 4..];
    WrittenMore(was, prefix, Bytes32(v), b[..]);
  }

  method MakeTcpHeader(srcPort: nat, dstPort: nat, sequence: nat, ack: nat, flags: byte) returns (header: array<byte>)
    requires srcPort < 0x1_0000 && dstPort < 0x1_0000 && sequence < WORD32 && ack < WORD32
    ensures fresh(header) && header[..] == HeaderBytes(srcPort, dstPort, sequence, ack, flags)
  {
    header := new byte[BASE_TCP_HEADER_LENGTH](_ => 0);
    assert Written(header[..], []);
    ghost var ports := [] + Bytes16(srcPort) + Bytes16(dstPort);
    ghost var numbers := ports + Bytes32(sequence) + Bytes32(ack);
    ghost var all := numbers + [80, flags] + Bytes16(WINDOW_SIZE);
    Complete(srcPort, dstPort, sequence, ack, flags, all);
    hide Bytes32, Bytes16, HeaderBytes, Written;
    Append16(header, [], 0, srcPort);
    Append16(header, [] + Bytes16(srcPort), 2, dstPort);
    Append32(header, ports, 4, sequence);
    Append32(header, ports + Bytes32(sequence), 8, ack);
    ghost var was := header[..];
    header[12] := BASE_TCP_HEADER_LENGTH * 4;     // the data offset, in words, in the high four bits
    header[13] := flags;
    assert header[..] == was[..12] + [80, flags] + was[14..];
    WrittenMore(was, numbers, [80, flags], header[..]);
    Append16(header, numbers + [80, flags], 14, WINDOW_SIZE);
    Filled(header[..], all);
  }

  lemma Complete(srcPort: nat, dstPort: nat, sequence: nat, ack: nat, flags: byte, all: seq<byte>)
    requires srcPort < 0x1_0000 && dstPort < 0x1_0000 && sequence < WORD32 && ack < WORD32
    requires all == [] + Bytes16(srcPort) + Bytes16(dstPort) + Bytes32(sequence) + Bytes32(ack) + [80, flags]
                    + Bytes16(WINDOW_SIZE)
    ensures |all| == 16 && HeaderBytes(srcPort, dstPort, sequence, ack, flags) == all + [0, 0, 0, 0]
  {
    hide Bytes16, Bytes32;
  }

  lemma Filled(b: seq<byte>, prefix: seq<byte>)
    requires Written(b, prefix) && |b| == |prefix| + 4
    ensures b == prefix + [0, 0, 0, 0]
  {
  }

  // ---------------------------------------------------------------- reading

  ghost function HeaderOf(b: seq<byte>): Parsed {
    if |b| < BASE_TCP_HEADER_LENGTH then TooShort
    else
      var dataOffset := (b[12] as int / 16) * 4;
      if dataOffset < BASE_TCP_HEADER_LENGTH || dataOffset > |b| then OffsetInvalid
      else match ParseFrom(b[BASE_TCP_HEADER_LENGTH..dataOffset], NO_OPTIONS)
        case Failure(e) => OptionsInvalid(e)
        case Success(options) =>
          match TypeOf(b[13])
          case None => UnknownType
          case Some(typ) =>
            Valid(Header(typ, Word(b[0], b[1]), Word(b[2], b[3]), Word32(b[4..8]), Word32(b[8..12]), dataOffset, b[13],
                         Word(b[14], b[15]), Word(b[16], b[17]), Word(b[18], b[19]), options))
  }

  method ParseTcpHeader(b: seq<byte>) returns (r: Parsed)
    ensures r == HeaderOf(b)
  {
    hide ParseFrom, TypeOf, Word32, Word;
    if |b| < BASE_TCP_HEADER_LENGTH {
      return TooShort;
    }
    var dataOffset := (b[12] as int / 16) * 4;
    if dataOffset < BASE_TCP_HEADER_LENGTH {
      return OffsetInvalid;
    } else if dataOffset > |b| {
      return OffsetInvalid;
    }
    var options := NO_OPTIONS;
    NoOptionsAccepted();
    assert dataOffset == BASE_TCP_HEADER_LENGTH ==> b[BASE_TCP_HEADER_LENGTH..dataOffset] == [];
    if dataOffset > BASE_TCP_HEADER_LENGTH {
      var parsed := ParseTcpOptions(b[BASE_TCP_HEADER_LENGTH..dataOffset]);
      if parsed.Failure? {
        return OptionsInvalid(parsed.error);
      }
      options := parsed.value;
    }
    var typ := TypeOf(b[13]);
    if typ.None? {
      return UnknownType;
    }
    return Valid(Header(typ.value, Word(b[0], b[1]), Word(b[2], b[3]), Word32(b[4..8]), Word32(b[8..12]), dataOffset,
                        b[13], Word(b[14], b[15]), Word(b[16], b[17]), Word(b[18], b[19]), options));
  }

  lemma NoOptionsAccepted()
    ensures ParseFrom([], NO_OPTIONS) == Success(NO_OPTIONS)
  {
  }

  // ------------------------------------------------------------ round trips

  ghost predicate HeaderFits(h: Header) {
    && h.srcPort < 0x1_0000 && h.dstPort < 0x1_0000 && h.sequence < WORD32 && h.ack < WORD32
    && BASE_TCP_HEADER_LENGTH <= h.dataOffset <= 60 && h.dataOffset % 4 == 0
    && h.windowSize < 0x1_0000 && h.checksum < 0x1_0000 && h.urgentPtr < 0x1_0000
    && TypeOf(h.flags) == Some(h.typ)
  }

  /** A header as it is sent, before the bytes of its options. */
  ghost function FixedPart(h: Header): (b: seq<byte>)
    requires HeaderFits(h)
    ensures |b| == BASE_TCP_HEADER_LENGTH
  {
    Bytes16(h.srcPort) + Bytes16(h.dstPort) + Bytes32(h.sequence) + Bytes32(h.ack) + [h.dataOffset / 4 * 16, h.flags]
    + Bytes16(h.windowSize) + Bytes16(h.checksum) + Bytes16(h.urgentPtr)
  }

  lemma FieldsOf(h: Header, rest: seq<byte>)
    requires HeaderFits(h)
    ensures var b := FixedPart(h) + rest;
            && b[0..2] == Bytes16(h.srcPort) && b[2..4] == Bytes16(h.dstPort)
            && b[4..8] == Bytes32(h.sequence) && b[8..12] == Bytes32(h.ack)
            && b[12] as int == h.dataOffset / 4 * 16 && b[13] == h.flags
            && b[14..16] == Bytes16(h.windowSize) && b[16..18] == Bytes16(h.checksum)
            && b[18..20] == Bytes16(h.urgentPtr) && b[20..] == rest
  {
    hide Bytes16, Bytes32, TypeOf;
  }

  lemma WordAt(b: seq<byte>, i: nat, w: nat)
    requires i + 2 <= |b| && w < 0x1_0000 && b[i..i + 2] == Bytes16(w)
    ensures Word(b[i], b[i + 1]) == w
  {
    assert b[i] == b[i..i + 2][0] && b[i + 1] == b[i..i + 2][1];
    hide Word;
  }

  lemma HeaderOfFields(b: seq<byte>, h: Header)
    requires |b| >= h.dataOffset >= BASE_TCP_HEADER_LENGTH && h.dataOffset == b[12] as int / 16 * 4 && h.flags == b[13]
    requires h.srcPort == Word(b[0], b[1]) && h.dstPort == Word(b[2], b[3])
    requires h.sequence == Word32(b[4..8]) && h.ack == Word32(b[8..12])
    requires h.windowSize == Word(b[14], b[15]) && h.checksum == Word(b[16], b[17]) && h.urgentPtr == Word(b[18], b[19])
    requires ParseFrom(b[BASE_TCP_HEADER_LENGTH..h.dataOffset], NO_OPTIONS) == Success(h.options)
    requires TypeOf(h.flags) == Some(h.typ)
    ensures HeaderOf(b) == Valid(h)
  {
    hide ParseFrom, TypeOf, Word, Word32;
  }

  /** Parsing a packet gives back all fields of its header, and the options read from its options part. */
  lemma ParseRoundTrip(h: Header, optionBytes: seq<byte>, payload: seq<byte>)
    requires HeaderFits(h) && |optionBytes| == h.dataOffset - BASE_TCP_HEADER_LENGTH
    requires ParseFrom(optionBytes, NO_OPTIONS) == Success(h.options)
    ensures HeaderOf(FixedPart(h) + (optionBytes + payload)) == Valid(h)
  {
    hide ParseFrom, TypeOf, Word, Word32, Bytes16, Bytes32, FixedPart, HeaderOf;
    var b := FixedPart(h) + (optionBytes + payload);
    FieldsOf(h, optionBytes + payload);
    WordAt(b, 0, h.srcPort);
    WordAt(b, 2, h.dstPort);
    WordAt(b, 14, h.windowSize);
    WordAt(b, 16, h.checksum);
    WordAt(b, 18, h.urgentPtr);
    OptionsPart(b, h.dataOffset, optionBytes, payload);
    HeaderOfFields(b, h);
  }

  lemma OptionsPart(b: seq<byte>, dataOffset: nat, optionBytes: seq<byte>, payload: seq<byte>)
    requires |b| >= 20 && b[20..] == optionBytes + payload && |optionBytes| == dataOffset - 20
    ensures |b| >= dataOffset && b[20..dataOffset] == optionBytes
  {
    assert b[20..dataOffset] == b[20..][..dataOffset - 20];
  }

  /** The header that makeTCPHeader writes, with its checksum filled in. */
  ghost function Made(srcPort: nat, dstPort: nat, sequence: nat, ack: nat, flags: byte, typ: PacketType,
                      checksum: nat): Header {
    Header(typ, srcPort, dstPort, sequence, ack, BASE_TCP_HEADER_LENGTH, flags, WINDOW_SIZE, checksum, 0, NO_OPTIONS)
  }

  lemma ChecksumInPlace(all: seq<byte>, checksum: nat)
    requires |all| == 16 && checksum < 0x1_0000
    ensures (all + [0, 0, 0, 0])[16 := checksum / 256][17 := checksum % 256] == all + Bytes16(checksum) + Bytes16(0)
  {
  }

  lemma FixedPartIs(h: Header, all: seq<byte>)
    requires HeaderFits(h) && h.dataOffset == BASE_TCP_HEADER_LENGTH && h.windowSize == WINDOW_SIZE && h.urgentPtr == 0
    requires all == [] + Bytes16(h.srcPort) + Bytes16(h.dstPort) + Bytes32(h.sequence) + Bytes32(h.ack) + [80, h.flags]
                    + Bytes16(WINDOW_SIZE)
    ensures FixedPart(h) == all + Bytes16(h.checksum) + Bytes16(0)
  {
    hide Bytes16, Bytes32, TypeOf;
    assert [] + Bytes16(h.srcPort) == Bytes16(h.srcPort);
  }

  lemma MadeBytes(srcPort: nat, dstPort: nat, sequence: nat, ack: nat, flags: byte, typ: PacketType, checksum: nat)
    requires srcPort < 0x1_0000 && dstPort < 0x1_0000 && sequence < WORD32 && ack < WORD32 && checksum < 0x1_0000
    requires TypeOf(flags) == Some(typ)
    ensures HeaderBytes(srcPort, dstPort, sequence, ack, flags)[16 := checksum / 256][17 := checksum % 256]
            == FixedPart(Made(srcPort, dstPort, sequence, ack, flags, typ, checksum))
  {
    hide TypeOf, Bytes32, Bytes16, HeaderBytes, FixedPart;
    var all := [] + Bytes16(srcPort) + Bytes16(dstPort) + Bytes32(sequence) + Bytes32(ack) + [80, flags] + Bytes16(WINDOW_SIZE);
    Complete(srcPort, dstPort, sequence, ack, flags, all);
    ChecksumInPlace(all, checksum);
    FixedPartIs(Made(srcPort, dstPort, sequence, ack, flags, typ, checksum), all);
  }

  /** What makeTCPHeader writes, with the checksum in its place. */
  ghost function MadeHeader(srcPort: nat, dstPort: nat, sequence: nat, ack: nat, flags: byte, checksum: nat): seq<byte>
    requires srcPort < 0x1_0000 && dstPort < 0x1_0000 && sequence < WORD32 && ack < WORD32 && checksum < 0x1_0000
  {
    HeaderBytes(srcPort, dstPort, sequence, ack, flags)[16 := checksum / 256][17 := checksum % 256]
  }

  /** What is made is parsed back, whatever the checksum and the payload. */
  lemma MadeIsParsed(srcPort: nat, dstPort: nat, sequence: nat, ack: nat, flags: byte, checksum: nat,
                     payload: seq<byte>,
                     typ: PacketType)
    requires srcPort < 0x1_0000 && dstPort < 0x1_0000 && sequence < WORD32 && ack < WORD32 && checksum < 0x1_0000
    requires TypeOf(flags) == Some(typ)
    ensures HeaderOf(MadeHeader(srcPort, dstPort, sequence, ack, flags, checksum) + payload)
            == Valid(Made(srcPort, dstPort, sequence, ack, flags, typ, checksum))
  {
    hide ParseFrom, TypeOf, FixedPart, HeaderBytes, HeaderOf;
    NoOptionsAccepted();
    MadeBytes(srcPort, dstPort, sequence, ack, flags, typ, checksum);
    ParseRoundTrip(Made(srcPort, dstPort, sequence, ack, flags, typ, checksum), [], payload);
    assert [] + payload == payload;
  }

  /** With none of the five flags set, the parser knows no type for it. */
  lemma MadeWithoutType(srcPort: nat, dstPort: nat, sequence: nat, ack: nat, flags: byte, checksum: nat,
                        payload: seq<byte>)
    requires srcPort < 0x1_0000 && dstPort < 0x1_0000 && sequence < WORD32 && ack < WORD32 && checksum < 0x1_0000
    requires flags as int % 32 == 0
    ensures HeaderOf(MadeHeader(srcPort, dstPort, sequence, ack, flags, checksum) + payload) == UnknownType
  {
    hide ParseFrom, TypeOf, HeaderBytes;
    NoOptionsAccepted();
    TypedIff(flags);
    UntypedBytes(srcPort, dstPort, sequence, ack, flags, checksum);
    var b := MadeHeader(srcPort, dstPort, sequence, ack, flags, checksum) + payload;
    assert b[12] == 80 && b[13] == flags && b[20..20] == [];
  }

  lemma UntypedBytes(srcPort: nat, dstPort: nat, sequence: nat, ack: nat, flags: byte, checksum: nat)
    requires srcPort < 0x1_0000 && dstPort < 0x1_0000 && sequence < WORD32 && ack < WORD32 && checksum < 0x1_0000
    ensures var made := HeaderBytes(srcPort, dstPort, sequence, ack, flags)[16 := checksum / 256][17 := checksum % 256];
            |made| == 20 && made[12] == 80 && made[13] == flags
  {
    hide Bytes16, Bytes32;
  }

  // --------------------------------------------------------------- checksum

  ghost predicate IsIPv6(ipHeader: seq<byte>) {
    |ipHeader| >= 40 && ipHeader[0] as int / 16 == 6
  }

  /** The pseudo header: addresses, protocol 6, and the length of header and payload. */
  ghost function PseudoHeader(ipHeader: seq<byte>, length: nat): (p: seq<byte>)
    requires |ipHeader| >= 20
    ensures |p| % 2 == 0 && |p| <= 40
  {
    if IsIPv6(ipHeader) then ipHeader[8..24] + ipHeader[24..40] + Bytes32(length % WORD32) + [0, 0, 0, 6]
    else ipHeader[12..16] + ipHeader[16..20] + [0, 6] + Bytes16(length % 0x1_0000)
  }

  method MakePseudoHeader(ipHeader: seq<byte>, length: nat) returns (pseudoHeader: seq<byte>)
    requires |ipHeader| >= 20
    ensures pseudoHeader == PseudoHeader(ipHeader, length)
  {
    if |ipHeader| >= 40 && ipHeader[0] as int / 16 == 6 {
      return ipHeader[8..24] + ipHeader[24..40] + Bytes32(length % WORD32) + [0, 0, 0, 6];
    }
    return ipHeader[12..16] + ipHeader[16..20] + [0, 6] + Bytes16(length % 0x1_0000);
  }

  method TcpChecksum(ipHeader: seq<byte>, tcpHeader: seq<byte>, payload: seq<byte>) returns (checksum: nat)
    requires |ipHeader| >= 20 && |tcpHeader| == BASE_TCP_HEADER_LENGTH && |payload| < 0x1_0000
    ensures checksum == ChecksumOf(PseudoHeader(ipHeader, |tcpHeader| + |payload|) + tcpHeader + payload)
  {
    hide PseudoHeader, WordSum;
    var pseudoHeader := MakePseudoHeader(ipHeader, |tcpHeader| + |payload|);
    var sum := AddWords(0, pseudoHeader);
    sum := AddWords(sum, tcpHeader);
    sum := AddWords(sum, payload);
    WordSumConcat(pseudoHeader, tcpHeader);
    WordSumConcat(pseudoHeader + tcpHeader, payload);
    sum := Fold(sum);
    return 0xFFFF - sum;
  }
}
