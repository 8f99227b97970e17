/** The options of a TCP header, and the parser that reads them. */
module TcpOptions {
  import opened Wrappers
  import opened Checksum

  datatype Timestamps = Timestamps(value: nat, echo: nat)

  datatype Options = Options(mss: nat, windowScale: Option<byte>, sackPermitted: bool, timestamps: Option<Timestamps>)

  const NO_OPTIONS := Options(0, None, false, None)

  datatype Error =
    | LengthTruncated | LengthInvalid | MssInvalid | WindowScaleInvalid | TimestampsInvalid | TypeUnknown

  datatype Result<T> = Success(value: T) | Failure(error: Error)

  function Word32(b: seq<byte>): (w: nat)
    requires |b| >= 4
    ensures w < WORD32
  {
    0x1_0000 * Word(b[0], b[1]) + Word(b[2], b[3])
  }

  function Bytes16(w: nat): (b: seq<byte>)
    requires w < 0x1_0000
    ensures |b| == 2 && Word(b[0], b[1]) == w
  {
    [w / 256, w % 256]
  }

  function Bytes32(w: nat): (b: seq<byte>)
    requires w < WORD32
    ensures |b| == 4 && Word32(b) == w
  {
    Bytes16(High(w)) + Bytes16(Low(w))
  }

  function High(w: nat): (h: nat)
    requires w < WORD32
    ensures h < 0x1_0000
  {
    w / 0x1_0000
  }

  function Low(w: nat): (l: nat)
    ensures l < 0x1_0000
  {
    w % 0x1_0000
  }

  // ------------------------------------------------------------ the parser

  /** What one option with a length does to the record. */
  function ApplyOption(kind: byte, data: seq<byte>, parsed: Options): Result<Options> {
    if kind == 2 then
      if |data| != 2 then Failure(MssInvalid) else Success(parsed.(mss := Word(data[0], data[1])))
    else if kind == 3 then
      if |data| != 1 then Failure(WindowScaleInvalid) else Success(parsed.(windowScale := Some(data[0])))
    else if kind == 4 then Success(parsed.(sackPermitted := true))
    else if kind == 8 then
      if |data| != 8 then Failure(TimestampsInvalid)
      else Success(parsed.(timestamps := Some(Timestamps(Word32(data[..4]), Word32(data[4..])))))
    else Failure(TypeUnknown)
  }

  ghost function ParseFrom(b: seq<byte>, parsed: Options): Result<Options>
    decreases |b|
  {
    if b == [] || b[0] == 0 then Success(parsed)
    else if b[0] == 1 then ParseFrom(b[1..], parsed)
    else if |b| < 2 then Failure(LengthTruncated)
    else
      var length := b[1] as int;
      if length < 2 || length > |b| then Failure(LengthInvalid)
      else match ApplyOption(b[0], b[2..length], parsed)
        case Success(next) => ParseFrom(b[length..], next)
        case Failure(e) => Failure(e)
  }

  method ParseTcpOptions(b: seq<byte>) returns (r: Result<Options>)
    ensures r == ParseFrom(b, NO_OPTIONS)
  {
    hide ApplyOption;
    var parsed := NO_OPTIONS;
    var i := 0;
    while i < |b|
      invariant 0 <= i <= |b| && ParseFrom(b[i..], parsed) == ParseFrom(b, NO_OPTIONS)
    {
      var kind := b[i];
      if kind == 0 {
        break;
      }
      if kind == 1 {
        assert b[i..][1..] == b[i + 1..];
        i := i + 1;
        continue;
      }
      if i + 1 >= |b| {
        return Failure(LengthTruncated);
      }
      var length := b[i + 1] as int;
      if length < 2 || length > |b| - i {
        return Failure(LengthInvalid);
      }
      assert b[i..][2..length] == b[i + 2..i + length] && b[i..][length..] == b[i + length..];
      var next := ApplyOption(kind, b[i + 2..i + length], parsed);
      if next.Failure? {
        return next;
      }
      parsed := next.value;
      i := i + length;
    }
    return Success(parsed);
  }

  // ------------------------------------------------------- what it accepts

  /** An option as the parser takes it: any data may follow SACK-permitted. */
  datatype TcpOption =
    | NoOperation
    | MaximumSegmentSize(mss: nat)
    | WindowScale(shift: byte)
    | SackPermitted(extra: seq<byte>)
    | TimestampsOption(value: nat, echo: nat)

  ghost predicate Fits(o: TcpOption) {
    match o
    case MaximumSegmentSize(mss) => mss < 0x1_0000
    case SackPermitted(extra) => |extra| < 254
    case TimestampsOption(value, echo) => value < WORD32 && echo < WORD32
    case _ => true
  }

  ghost function Encode(o: TcpOption): seq<byte>
    requires Fits(o)
  {
    match o
    case NoOperation => [1]
    case MaximumSegmentSize(mss) => [2, 4] + Bytes16(mss)
    case WindowScale(shift) => [3, 3, shift]
    case SackPermitted(extra) => [4, 2 + |extra|] + extra
    case TimestampsOption(value, echo) => [8, 10] + (Bytes32(value) + Bytes32(echo))
  }

  ghost predicate AllFit(os: seq<TcpOption>) {
    forall i :: 0 <= i < |os| ==> Fits(os[i])
  }

  ghost function EncodeAll(os: seq<TcpOption>): seq<byte>
    requires AllFit(os)
  {
    if os == [] then [] else Encode(os[0]) + EncodeAll(os[1..])
  }

  ghost function Effect(o: TcpOption, parsed: Options): Options {
    match o
    case NoOperation => parsed
    case MaximumSegmentSize(mss) => parsed.(mss := mss)
    case WindowScale(shift) => parsed.(windowScale := Some(shift))
    case SackPermitted(_) => parsed.(sackPermitted := true)
    case TimestampsOption(value, echo) => parsed.(timestamps := Some(Timestamps(value, echo)))
  }

  /** Later options replace earlier ones of their kind. */
  ghost function Effects(os: seq<TcpOption>, parsed: Options): Options {
    if os == [] then parsed else Effects(os[1..], Effect(os[0], parsed))
  }

  lemma ParseEncoded(o: TcpOption, rest: seq<byte>, parsed: Options)
    requires Fits(o)
    ensures ParseFrom(Encode(o) + rest, parsed) == ParseFrom(rest, Effect(o, parsed))
  {
    var b := Encode(o) + rest;
    assert b[|Encode(o)|..] == rest;
    if !o.NoOperation? {
      assert b[1] == |Encode(o)| && b[2..|Encode(o)|] == Encode(o)[2..];
      if o.TimestampsOption? {
        assert Encode(o)[2..] == Bytes32(o.value) + Bytes32(o.echo);
        assert b[2..10][..4] == Bytes32(o.value) && b[2..10][4..] == Bytes32(o.echo);
      } else if o.MaximumSegmentSize? {
        assert b[2..4] == Bytes16(o.mss);
      }
    }
  }

  /** The end of the options: nothing more, or the end-of-list option and anything after it. */
  ghost predicate IsEnd(tail: seq<byte>) {
    tail == [] || tail[0] == 0
  }

  lemma {:induction false} ParseAllEncoded(os: seq<TcpOption>, tail: seq<byte>, parsed: Options)
    requires AllFit(os) && IsEnd(tail)
    ensures ParseFrom(EncodeAll(os) + tail, parsed) == Success(Effects(os, parsed))
  {
    if os == [] {
      assert EncodeAll(os) + tail == tail;
    } else {
      assert EncodeAll(os) + tail == Encode(os[0]) + (EncodeAll(os[1..]) + tail);
      hide ParseFrom, Encode, Effect;
      ParseEncoded(os[0], EncodeAll(os[1..]) + tail, parsed);
      ParseAllEncoded(os[1..], tail, Effect(os[0], parsed));
    }
  }

  /** One option read from bytes is the encoding of some option. */
  lemma OptionAt(b: seq<byte>, parsed: Options) returns (o: TcpOption)
    requires 2 <= |b| && b[0] > 1 && 2 <= b[1] as int <= |b|
    requires ApplyOption(b[0], b[2..b[1] as int], parsed).Success?
    ensures Fits(o) && Encode(o) == b[..b[1] as int]
    ensures Effect(o, parsed) == ApplyOption(b[0], b[2..b[1] as int], parsed).value
  {
    var length := b[1] as int;
    var data := b[2..length];
    assert b[..length] == [b[0], b[1]] + data;
    if b[0] == 2 {
      o := MaximumSegmentSize(Word(data[0], data[1]));
      assert Bytes16(o.mss) == data;
    } else if b[0] == 3 {
      o := WindowScale(data[0]);
    } else if b[0] == 4 {
      o := SackPermitted(data);
    } else {
      o := TimestampsOption(Word32(data[..4]), Word32(data[4..]));
      BytesOfWord32(data[..4]);
      BytesOfWord32(data[4..]);
      assert data == data[..4] + data[4..];
    }
  }

  lemma BytesOfWord32(b: seq<byte>)
    requires |b| == 4
    ensures Bytes32(Word32(b)) == b
  {
    hide Word, Bytes16, High, Low;
    BytesOfWord16(b[0], b[1]);
    BytesOfWord16(b[2], b[3]);
    HighAndLow(Word(b[0], b[1]), Word(b[2], b[3]));
  }

  lemma BytesOfWord16(high: byte, low: byte)
    ensures Bytes16(Word(high, low)) == [high, low]
  {
  }

  lemma HighAndLow(high: nat, low: nat)
    requires high < 0x1_0000 && low < 0x1_0000
    ensures High(0x1_0000 * high + low) == high && Low(0x1_0000 * high + low) == low
  {
  }

  /** The first option of accepted bytes. */
  lemma FirstOption(b: seq<byte>, parsed: Options) returns (o: TcpOption, length: nat)
    requires ParseFrom(b, parsed).Success? && !IsEnd(b)
    ensures Fits(o) && 1 <= length <= |b| && Encode(o) == b[..length]
    ensures ParseFrom(b, parsed) == ParseFrom(b[length..], Effect(o, parsed))
  {
    if b[0] == 1 {
      o, length := NoOperation, 1;
    } else {
      length := b[1] as int;
      hide ApplyOption, Encode, Effect, Fits;
      o := OptionAt(b, parsed);
    }
  }

  lemma EndIsAccepted(b: seq<byte>, parsed: Options)
    requires IsEnd(b)
    ensures ParseFrom(b, parsed) == Success(parsed)
  {
  }

  lemma EncodeMore(o: TcpOption, os: seq<TcpOption>, parsed: Options)
    requires Fits(o) && AllFit(os)
    ensures AllFit([o] + os) && EncodeAll([o] + os) == Encode(o) + EncodeAll(os)
    ensures Effects([o] + os, parsed) == Effects(os, Effect(o, parsed))
  {
    hide Encode, Effect, Fits;
    assert ([o] + os)[1..] == os;
  }

  /** Whatever is accepted is a list of options and an end. */
  lemma {:induction false} AcceptedIsEncoded(b: seq<byte>, parsed: Options) returns (os: seq<TcpOption>,
                                             tail: seq<byte>)
    requires ParseFrom(b, parsed).Success?
    ensures AllFit(os) && IsEnd(tail) && b == EncodeAll(os) + tail
    ensures ParseFrom(b, parsed).value == Effects(os, parsed)
    decreases |b|
  {
    hide Encode, Effect, Fits, AllFit, ParseFrom, EncodeAll, Effects;
    if IsEnd(b) {
      EndIsAccepted(b, parsed);
      os, tail := [], b;
      NothingEncoded(parsed);
    } else {
      var o, length := FirstOption(b, parsed);
      os, tail := AcceptedIsEncoded(b[length..], Effect(o, parsed));
      EncodeMore(o, os, parsed);
      assert b == b[..length] + b[length..];
      os := [o] + os;
    }
  }

  lemma NothingEncoded(parsed: Options)
    ensures AllFit([]) && EncodeAll([]) == [] && Effects([], parsed) == parsed
  {
  }

  /**
    The parser accepts exactly the lists of options in their encoding, up to an end,
    and gives the last value of each kind.
   */
  lemma AcceptsExactly(b: seq<byte>, r: Options)
    ensures ParseFrom(b, NO_OPTIONS) == Success(r) <==>
              exists os, tail :: AllFit(os) && IsEnd(tail) && b == EncodeAll(os) + tail && r == Effects(os, NO_OPTIONS)
  {
    if ParseFrom(b, NO_OPTIONS).Success? {
      var os, tail := AcceptedIsEncoded(b, NO_OPTIONS);
    }
    forall os, tail | AllFit(os) && IsEnd(tail) && b == EncodeAll(os) + tail
      ensures ParseFrom(b, NO_OPTIONS) == Success(Effects(os, NO_OPTIONS))
    {
      ParseAllEncoded(os, tail, NO_OPTIONS);
    }
  }
}
