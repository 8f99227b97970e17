/**
  Positional numerals in any radix, written with the most significant digit
  first, as byte slices and Base58 text are.
 */
module Radix {

  ghost function Pow(b: nat, e: nat): (p: nat)
    requires 0 < b
    ensures 0 < p
  {
    if e == 0 then 1 else b * Pow(b, e - 1)
  }

  ghost predicate IsNumeral(ds: seq<int>, b: nat)
  {
    forall i :: 0 <= i < |ds| ==> 0 <= ds[i] < b
  }

  /** The number a numeral stands for. */
  ghost function Value(ds: seq<int>, b: nat): int
  {
    if ds == [] then 0 else Value(ds[..|ds| - 1], b) * b + ds[|ds| - 1]
  }

  /** The shortest numeral of n: no leading zero, and empty for zero. */
  ghost function Digits(n: nat, b: nat): seq<int>
    requires 2 <= b
  {
    if n == 0 then [] else Digits(n / b, b) + [n % b]
  }

  ghost function Zeros(k: nat): seq<int> {
    seq(k, _ => 0)
  }

  ghost function LeadingZeros(ds: seq<int>): (z: nat)
    ensures z <= |ds|
    ensures forall i :: 0 <= i < z ==> ds[i] == 0
    ensures z < |ds| ==> ds[z] != 0
  {
    if ds != [] && ds[0] == 0 then 1 + LeadingZeros(ds[1..]) else 0
  }

  /**
    Rewrites a numeral from radix a to radix b, turning each leading zero into
    one leading zero and the rest into the shortest numeral of its value.
   */
  ghost function Transcode(ds: seq<int>, a: nat, b: nat): seq<int>
    requires 2 <= a && 2 <= b && IsNumeral(ds, a)
  {
    ValueBounds(ds, a);
    Zeros(LeadingZeros(ds)) + Digits(Value(ds, a), b)
  }

  // The recursive definitions, one step at a time: the proofs below hide the
  // definitions and use these steps, which keeps the arithmetic small.

  lemma PowStep(b: nat, e: nat)
    requires 0 < b
    ensures Pow(b, e + 1) == b * Pow(b, e)
  {
  }

  lemma ValueAppend(ds: seq<int>, d: int, b: nat)
    ensures Value(ds + [d], b) == Value(ds, b) * b + d
  {
    assert (ds + [d])[..|ds + [d]| - 1] == ds;
  }

  lemma Scale(x: nat, y: nat, k: nat)
    requires x <= y
    ensures x * k <= y * k
  {
  }

  lemma MulAssociates(x: int, y: int, z: int)
    ensures (x * y) * z == x * (y * z)
  {
  }

  lemma ScaleSum(x: int, p: int, y: int, b: int)
    ensures (x * p + y) * b == x * (b * p) + y * b
  {
    MulAssociates(x, p, b);
  }

  lemma DigitFits(v: nat, p: nat, d: nat, b: nat)
    requires v < p && d < b
    ensures 0 <= v * b + d < b * p
  {
    assert b * p == v * b + b + (p - v - 1) * b;
  }

  lemma {:induction false} PowAdd(b: nat, d: nat, e: nat)
    requires 0 < b
    ensures Pow(b, d + e) == Pow(b, d) * Pow(b, e)
  {
    if d != 0 {
      hide Pow;
      PowAdd(b, d - 1, e);
      PowStep(b, d - 1);
      PowStep(b, d - 1 + e);
      MulAssociates(b, Pow(b, d - 1), Pow(b, e));
    }
  }

  lemma {:induction false} PowMonotone(b: nat, d: nat, e: nat)
    requires 0 < b && d <= e
    ensures Pow(b, d) <= Pow(b, e)
  {
    if d < e {
      hide Pow;
      PowMonotone(b, d, e - 1);
      PowStep(b, e - 1);
      Scale(1, b, Pow(b, e - 1));
    }
  }

  lemma {:induction false} ValueBounds(ds: seq<int>, b: nat)
    requires 1 <= b && IsNumeral(ds, b)
    ensures 0 <= Value(ds, b) < Pow(b, |ds|)
  {
    if ds != [] {
      var init, d := ds[..|ds| - 1], ds[|ds| - 1];
      assert ds == init + [d];
      ValueBounds(init, b);
      hide Value, Pow;
      ValueAppend(init, d, b);
      PowStep(b, |init|);
      DigitFits(Value(init, b), Pow(b, |init|), d, b);
    }
  }

  lemma {:induction false} ValueConcat(xs: seq<int>, ys: seq<int>, b: nat)
    requires 0 < b
    ensures Value(xs + ys, b) == Value(xs, b) * Pow(b, |ys|) + Value(ys, b)
  {
    if ys == [] {
      assert xs + ys == xs;
    } else {
      hide Value, Pow;
      var init, y := ys[..|ys| - 1], ys[|ys| - 1];
      assert ys == init + [y] && xs + ys == (xs + init) + [y];
      ValueConcat(xs, init, b);
      ValueAppend(xs + init, y, b);
      ValueAppend(init, y, b);
      PowStep(b, |init|);
      ScaleSum(Value(xs, b), Pow(b, |init|), Value(init, b), b);
    }
  }

  lemma {:induction false} ValueOfZeros(ds: seq<int>, b: nat)
    requires forall i :: 0 <= i < |ds| ==> ds[i] == 0
    ensures Value(ds, b) == 0
  {
    if ds != [] {
      ValueOfZeros(ds[..|ds| - 1], b);
    }
  }

  /** Leading zeros do not change the value. */
  lemma ValueWithoutLeadingZeros(ds: seq<int>, k: nat, b: nat)
    requires 0 < b && k <= |ds| && forall i :: 0 <= i < k ==> ds[i] == 0
    ensures Value(ds, b) == Value(ds[k..], b)
  {
    hide Value, Pow;
    assert ds == ds[..k] + ds[k..];
    ValueConcat(ds[..k], ds[k..], b);
    ValueOfZeros(ds[..k], b);
  }

  lemma DivRadix(v: nat, d: nat, b: nat)
    requires 2 <= b && d < b
    ensures (v * b + d) / b == v && (v * b + d) % b == d
  {
    var n := v * b + d;
    var q, r := n / b, n % b;
    assert n == q * b + r;
    assert (q - v) * b == d - r;
    if v < q {
      Scale(1, q - v, b);
    } else if q < v {
      Scale(1, v - q, b);
    }
  }

  lemma {:induction false} DigitsAreCanonical(n: nat, b: nat)
    requires 2 <= b
    ensures IsNumeral(Digits(n, b), b) && Value(Digits(n, b), b) == n
    ensures LeadingZeros(Digits(n, b)) == 0
  {
    if n != 0 {
      var q, r := DigitsStep(n, b);
      DigitsAreCanonical(q, b);
      AppendDigit(Digits(q, b), q, r, b);
    }
  }

  lemma DigitsStep(n: nat, b: nat) returns (q: nat, r: nat)
    requires 2 <= b && 0 < n
    ensures n == q * b + r && r < b && q < n
    ensures Digits(n, b) == Digits(q, b) + [r]
  {
    q, r := n / b, n % b;
    Scale(2, b, q);
  }

  lemma AppendDigit(ds: seq<int>, q: nat, r: nat, b: nat)
    requires r < b && IsNumeral(ds, b) && Value(ds, b) == q && LeadingZeros(ds) == 0
    requires q != 0 || r != 0
    ensures IsNumeral(ds + [r], b) && Value(ds + [r], b) == q * b + r
    ensures LeadingZeros(ds + [r]) == 0
  {
    hide Value;
    ValueAppend(ds, r, b);
    if ds == [] {
      ValueOfZeros(ds, b);
    } else {
      assert (ds + [r])[0] == ds[0];
    }
  }

  /** A numeral without leading zeros is the shortest numeral of its value. */
  lemma {:induction false} CanonicalIsDigits(ds: seq<int>, b: nat)
    requires 2 <= b && IsNumeral(ds, b) && LeadingZeros(ds) == 0
    ensures 0 <= Value(ds, b) && Digits(Value(ds, b), b) == ds
    ensures Value(ds, b) == 0 <==> ds == []
  {
    hide Value, Pow;
    ValueBounds(ds, b);
    if ds == [] {
      ValueOfZeros(ds, b);
    } else {
      var init, last := ds[..|ds| - 1], ds[|ds| - 1];
      assert ds == init + [last];
      CanonicalIsDigits(init, b);
      ValueAppend(init, last, b);
      DivRadix(Value(init, b), last, b);
      if init != [] {
        Scale(1, Value(init, b), b);
      }
    }
  }

  /** Rewriting to another radix and back is the identity: no two numerals collide. */
  lemma TranscodeRoundTrip(ds: seq<int>, a: nat, b: nat)
    requires 2 <= a && 2 <= b && IsNumeral(ds, a)
    ensures IsNumeral(Transcode(ds, a, b), b)
    ensures Transcode(Transcode(ds, a, b), b, a) == ds
  {
    hide Value, Digits, Pow;
    ValueBounds(ds, a);
    var z, v := LeadingZeros(ds), Value(ds, a);
    var mid := Transcode(ds, a, b);
    DigitsAreCanonical(v, b);
    LeadingZerosOf(Digits(v, b), z);
    ValueWithoutLeadingZeros(mid, z, b);
    assert mid[z..] == Digits(v, b);
    ValueWithoutLeadingZeros(ds, z, a);
    CanonicalIsDigits(ds[z..], a);
    assert ds == Zeros(z) + ds[z..];
  }

  lemma {:induction false} LeadingZerosOf(ds: seq<int>, z: nat)
    requires LeadingZeros(ds) == 0
    ensures LeadingZeros(Zeros(z) + ds) == z
  {
    if z != 0 {
      LeadingZerosOf(ds, z - 1);
      assert (Zeros(z) + ds)[1..] == Zeros(z - 1) + ds;
    } else {
      assert Zeros(z) + ds == ds;
    }
  }
}

/** The Base58 encoder of the key generator. */
module Base58 {
  import opened Radix

  type byte = x: int | 0 <= x < 256

  /** An unsigned 32-bit machine integer: leaving its range is a proof failure. */
  newtype uint32 = x: int | 0 <= x < 0x1_0000_0000

  // The alphabet leaves out 0, I, O and l: it is cut here where a letter is skipped.
  const NUMBERS := "123456789" + "ABCDEFGH" + "JKLMN"
  const LETTERS := "PQRSTUVWXYZ" + "abcdefghijk" + "mnopqrstuvwxyz"
  const ALPHABET := NUMBERS + LETTERS
  const RADIX := 58

  // ---------------------------------------------------------------- meaning

  ghost function Text(ds: seq<int>): (s: string)
    requires IsNumeral(ds, RADIX)
    ensures |s| == |ds|
  {
    seq(|ds|, i requires 0 <= i < |ds| => ALPHABET[ds[i]])
  }

  /** The Base58 text of a byte string: a change of radix, then of alphabet. */
  ghost function Encoded(data: seq<byte>): string {
    TranscodeRoundTrip(data, 256, RADIX);
    Text(Transcode(data, 256, RADIX))
  }

  lemma EncodedIsText(data: seq<byte>)
    ensures IsNumeral(Transcode(data, 256, RADIX), RADIX)
    ensures Encoded(data) == Text(Transcode(data, 256, RADIX))
  {
    TranscodeRoundTrip(data, 256, RADIX);
  }

  ghost predicate IsText(s: string) {
    forall i :: 0 <= i < |s| ==> s[i] in ALPHABET
  }

  /** The position of a character in the alphabet. */
  ghost function DigitOf(c: char): (d: nat)
    requires c in ALPHABET
    ensures d < RADIX && ALPHABET[d] == c
  {
    var d :| 0 <= d < RADIX && ALPHABET[d] == c;
    d
  }

  ghost function DigitsOf(s: string): (ds: seq<int>)
    requires IsText(s)
    ensures IsNumeral(ds, RADIX)
  {
    seq(|s|, i requires 0 <= i < |s| => DigitOf(s[i]))
  }

  /** The reference decoder: back to digits, then back to radix 256. */
  ghost function Decoded(s: string): (data: seq<byte>)
    requires IsText(s)
  {
    TranscodeRoundTrip(DigitsOf(s), RADIX, 256);
    Transcode(DigitsOf(s), RADIX, 256)
  }

  /** The character code of a digit: consecutive, except for the skipped characters. */
  lemma AlphabetCode(d: nat)
    requires d < RADIX
    ensures ALPHABET[d] as int == d + (if d < 9 then 49 else if d < 17 then 56 else if d < 22 then 57
                                       else if d < 33 then 58 else if d < 44 then 64 else 65)
  {
    if d < 22 {
      NumberCode(d);
    } else {
      LetterCode(d - 22);
    }
  }

  lemma NumberCode(d: nat)
    requires d < 22
    ensures NUMBERS[d] as int == d + (if d < 9 then 49 else if d < 17 then 56 else 57)
  {
  }

  lemma LetterCode(d: nat)
    requires d < 36
    ensures LETTERS[d] as int == d + 22 + (if d < 11 then 58 else if d < 22 then 64 else 65)
  {
  }

  lemma DigitOfAlphabet(d: nat)
    requires d < RADIX
    ensures DigitOf(ALPHABET[d]) == d
  {
    AlphabetCode(d);
    AlphabetCode(DigitOf(ALPHABET[d]));
  }

  /** Decoding returns the bytes that were encoded, leading zero bytes included. */
  lemma DecodeAfterEncode(data: seq<byte>)
    ensures IsText(Encoded(data)) && Decoded(Encoded(data)) == data
  {
    TranscodeRoundTrip(data, 256, RADIX);
    var ds := Transcode(data, 256, RADIX);
    forall i | 0 <= i < |ds| ensures DigitOf(ALPHABET[ds[i]]) == ds[i] {
      DigitOfAlphabet(ds[i]);
    }
    assert DigitsOf(Text(ds)) == ds;
  }

  /** Every text over the alphabet is the encoding of exactly the bytes it decodes to. */
  lemma EncodeAfterDecode(s: string)
    requires IsText(s)
    ensures Encoded(Decoded(s)) == s
  {
    TranscodeRoundTrip(DigitsOf(s), RADIX, 256);
    assert Text(DigitsOf(s)) == s;
  }

  /** One '1' per leading zero byte, and then a first digit that is not '1'. */
  lemma EncodedShape(data: seq<byte>)
    ensures var s, z := Encoded(data), LeadingZeros(data);
            && z <= |s| && (forall i :: 0 <= i < z ==> s[i] == '1')
            && (z < |s| ==> s[z] != '1')
            && (z < |s| <==> z < |data|)
  {
    hide Value, Pow;
    TranscodeRoundTrip(data, 256, RADIX);
    ValueBounds(data, 256);
    var v, z := Value(data, 256), LeadingZeros(data);
    DigitsAreCanonical(v, RADIX);
    ValueWithoutLeadingZeros(data, z, 256);
    CanonicalIsDigits(data[z..], 256);
    var ds := Digits(v, RADIX);
    assert Transcode(data, 256, RADIX) == Zeros(z) + ds;
    AlphabetCode(0);
    if ds != [] {
      AlphabetCode(ds[0]);
    }
  }

  // ------------------------------------------------------------- size bound

  /** The source's integer stand-in for the number of base-58 digits of n bytes. */
  function BufferDigits(n: nat): nat {
    n * 555 / 406 + 1
  }

  lemma {:induction false} PowOfPow(b: nat, d: nat, e: nat)
    requires 0 < b
    ensures Pow(b, d * e) == Pow(Pow(b, d), e)
  {
    if e != 0 {
      PowOfPow(b, d, e - 1);
      assert d * e == d + d * (e - 1);
      PowAdd(b, d, d * (e - 1));
    }
  }

  lemma {:induction false} PowGrowsWithBase(a: nat, b: nat, e: nat)
    requires 0 < a <= b
    ensures Pow(a, e) <= Pow(b, e)
    ensures a < b && 0 < e ==> Pow(a, e) < Pow(b, e)
  {
    if e != 0 {
      PowGrowsWithBase(a, b, e - 1);
      Products(a, b, Pow(a, e - 1), Pow(b, e - 1));
    }
  }

  lemma Products(a: nat, b: nat, x: nat, y: nat)
    requires a <= b && 0 < x <= y
    ensures a * x <= b * y
    ensures a < b ==> a * x < b * y
  {
    ProductOfSum(a, b - a, x);
    ProductOfSum(x, y - x, b);
    if a < b {
      ProductIsLarger(b - a, x);
    }
  }

  lemma ProductOfSum(a: nat, b: nat, x: nat)
    ensures (a + b) * x == a * x + b * x && x * (a + b) == x * a + x * b && b * x >= 0 && a * x == x * a
  {
  }

  lemma ProductIsLarger(a: nat, x: nat)
    requires a > 0 && x > 0
    ensures a * x > 0
  {
  }

  /** From a^d <= b^e to a^k <= b^n, when k/n is at most d/e: compare the d-th powers. */
  lemma PowRatio(a: nat, d: nat, b: nat, e: nat, k: nat, n: nat)
    requires 0 < a && 0 < b && 0 < d && Pow(a, d) <= Pow(b, e) && e * k <= n * d
    ensures Pow(a, k) <= Pow(b, n)
  {
    hide Pow;
    calc {
      Pow(Pow(a, k), d);
      { PowOfPow(a, k, d); PowOfPow(a, d, k); assert k * d == d * k; }
      Pow(Pow(a, d), k);
    <= { PowGrowsWithBase(Pow(a, d), Pow(b, e), k); }
      Pow(Pow(b, e), k);
      { PowOfPow(b, e, k); }
      Pow(b, e * k);
    <= { PowMonotone(b, e * k, n * d); }
      Pow(b, n * d);
      { PowOfPow(b, n, d); }
      Pow(Pow(b, n), d);
    }
    if Pow(b, n) < Pow(a, k) {
      PowGrowsWithBase(Pow(b, n), Pow(a, k), d);
    }
  }

  lemma SmallPowers()
    ensures Pow(256, 5) == 0x100_0000_0000 && Pow(58, 5) == 656356768
  {
  }

  /** One period of thirty bytes: 2^240 <= 58^41. */
  lemma PeriodBound()
    ensures Pow(256, 30) <= Pow(58, 41)
  {
    SmallPowers();
    hide Pow;
    PowAdd(256, 5, 5);
    PowAdd(256, 10, 10);
    PowAdd(256, 20, 10);
    PowAdd(58, 5, 5);
    PowAdd(58, 10, 10);
    PowAdd(58, 20, 20);
    PowStep(58, 40);
  }

  /** k bytes always fit in the digits reserved for them, since 41/30 lies below 555/406. */
  lemma BufferIsLargeEnough(k: nat)
    ensures Pow(256, k) <= Pow(58, BufferDigits(k))
  {
    PeriodBound();
    EnoughDigits(k);
    hide Pow, BufferDigits;
    PowRatio(256, 30, 58, 41, k, BufferDigits(k));
  }

  lemma EnoughDigits(k: nat)
    ensures 41 * k <= BufferDigits(k) * 30
  {
  }

  // ---------------------------------------------------------------- encoder

  /**
    One step of the carry loop: writing c % 58 into a cell and carrying c / 58
    keeps the number that the finished cells, the carry and the untouched cells
    add up to. Here p is the weight of the cell and w the value left of it.
   */
  lemma CarryStep(carry: nat, cell: nat, w: int, low: int, p: nat)
    ensures var c := carry + 256 * cell;
            carry * p + low + 256 * (w * 58 + cell) * p
            == (c / 58) * (58 * p) + ((c % 58) * p + low) + 256 * w * (58 * p)
  {
    var c := carry + 256 * cell;
    assert c * p == (c / 58) * 58 * p + (c % 58) * p;
    assert c * p == carry * p + 256 * cell * p;
    assert 256 * (w * 58 + cell) * p == 256 * w * (58 * p) + 256 * cell * p;
  }

  /** The value of a numeral grows on the left by the weight of the new digit. */
  lemma ValuePrepend(d: int, ds: seq<int>, b: nat)
    requires 0 < b
    ensures Value([d] + ds, b) == d * Pow(b, |ds|) + Value(ds, b)
  {
    ValueConcat([d], ds, b);
    assert Value([d], b) == d;
  }

  /** What the carry loop keeps: cells, carry and untouched prefix still add up to total. */
  ghost predicate AddsUp(total: int, carry: int, output: seq<int>, was: seq<int>, i: int)
    requires |output| == |was| && -1 <= i < |was|
  {
    total == carry * Pow(RADIX, |was| - 1 - i) + Value(output[i + 1..], RADIX)
             + 256 * Value(was[..i + 1], RADIX) * Pow(RADIX, |was| - 1 - i)
  }

  lemma AddsUpAtStart(was: seq<int>, b: nat)
    requires was != []
    ensures AddsUp(256 * Value(was, RADIX) + b, b, was, was, |was| - 1)
  {
    assert was[..|was|] == was;
  }

  lemma AddsUpStep(total: int, carry: nat, output: seq<int>, was: seq<int>, i: nat)
    requires |output| == |was| && i < |was| && AddsUp(total, carry, output, was, i)
    requires 0 <= was[i]
    ensures var c := carry + 256 * was[i];
            AddsUp(total, c / 58, output[i := c % 58], was, i - 1)
  {
    var c := carry + 256 * was[i];
    var next := output[i := c % 58];
    assert next[i..] == [c % 58] + output[i + 1..];
    ValuePrepend(c % 58, output[i + 1..], RADIX);
    assert was[..i + 1][..i] == was[..i];
    var p := Pow(RADIX, |was| - 1 - i);
    assert Pow(RADIX, |was| - i) == 58 * p;
    CarryStep(carry, was[i], Value(was[..i], RADIX), Value(output[i + 1..], RADIX), p);
  }

  /** If no weight is left for a carry, there is no carry. */
  lemma CarryFits(total: int, carry: nat, output: seq<int>, was: seq<int>, i: int)
    requires |output| == |was| && -1 <= i < |was| && AddsUp(total, carry, output, was, i)
    requires IsNumeral(output, RADIX) && IsNumeral(was, RADIX)
    requires total < Pow(RADIX, |was| - 1 - i)
    ensures carry == 0
  {
    var p := Pow(RADIX, |was| - 1 - i);
    var low, w := Value(output[i + 1..], RADIX), Value(was[..i + 1], RADIX);
    ValueBounds(output[i + 1..], RADIX);
    ValueBounds(was[..i + 1], RADIX);
    hide Value, Pow;
    NoCarry(carry, p, low, w);
  }

  lemma NoCarry(carry: nat, p: nat, low: nat, w: nat)
    requires carry * p + low + 256 * w * p < p
    ensures carry == 0
  {
    assert 0 <= 256 * w * p;
    if carry != 0 {
      Scale(1, carry, p);
    }
  }

  /** Once nothing is carried and only zeros are untouched, the cells hold the total. */
  lemma AddsUpDone(total: int, output: seq<int>, was: seq<int>, i: int)
    requires |output| == |was| && -1 <= i < |was| && AddsUp(total, 0, output, was, i)
    requires forall j :: 0 <= j <= i ==> output[j] == was[j] == 0
    ensures Value(output, RADIX) == total
  {
    ValueOfZeros(was[..i + 1], RADIX);
    ValueWithoutLeadingZeros(output, i + 1, RADIX);
  }

  /** The new cell and the new carry, in 32-bit arithmetic that never wraps around. */
  function CarryCell(carry: uint32, cell: byte): (r: (byte, uint32))
    requires carry < 256 && cell < RADIX
    ensures r.0 < RADIX && r.1 < 256
    ensures var c := carry as int + 256 * cell; r.0 == c % 58 && r.1 as int == c / 58
  {
    var c := carry + 256 * (cell as uint32);
    ((c % 58) as byte, c / 58)
  }

  /** The bytes read so far are worth less than the digits reserved for all of them. */
  lemma PrefixFits(data: seq<byte>, z: nat, k: nat)
    requires z == LeadingZeros(data) && k <= |data|
    ensures Value(data[..k], 256) < Pow(RADIX, BufferDigits(|data| - z))
  {
    hide Value, Pow;
    var skip := if k < z then k else z;
    ValueWithoutLeadingZeros(data[..k], skip, 256);
    ValueBounds(data[..k][skip..], 256);
    PowMonotone(256, k - skip, |data| - z);
    BufferIsLargeEnough(|data| - z);
  }

  lemma ValueOfPrefix(data: seq<byte>, n: nat)
    requires n < |data|
    ensures Value(data[..n + 1], 256) == 256 * Value(data[..n], 256) + data[n]
  {
    assert data[..n + 1][..n] == data[..n];
  }

  /** Dropping all leading zeros but z of them leaves the encoder's digits. */
  lemma TrimmedIsTranscoded(output: seq<int>, gap: nat, data: seq<byte>, z: nat)
    requires z == LeadingZeros(data) && z <= gap <= |output| && IsNumeral(output, RADIX)
    requires (forall i :: 0 <= i < gap ==> output[i] == 0) && (gap < |output| ==> output[gap] != 0)
    requires Value(output, RADIX) == Value(data, 256)
    ensures output[gap - z..] == Transcode(data, 256, RADIX)
  {
    ValueBounds(data, 256);
    ValueWithoutLeadingZeros(output, gap, RADIX);
    CanonicalIsDigits(output[gap..], RADIX);
    assert output[gap - z..] == Zeros(z) + output[gap..];
  }

  /**
    The carry loop: multiplies the number in output by 256 and adds b. Cells up
    to high hold leading zeros; the new number is known to fit after zcount cells.
   */
  method AddByte(output: array<byte>, high: int, b: byte, ghost zcount: nat) returns (newHigh: int)
    requires zcount - 1 <= high < output.Length && 0 < output.Length
    requires IsNumeral(output[..], RADIX) && forall j :: 0 <= j <= high ==> output[j] == 0
    requires 256 * Value(output[..], RADIX) + b < Pow(RADIX, output.Length - zcount)
    modifies output
    ensures zcount - 1 <= newHigh < output.Length
    ensures IsNumeral(output[..], RADIX) && forall j :: 0 <= j <= newHigh ==> output[j] == 0
    ensures Value(output[..], RADIX) == 256 * old(Value(output[..], RADIX)) + b
  {
    hide AddsUp, Pow, Value;
    ghost var was: seq<int> := output[..];
    ghost var total := 256 * Value(was, RADIX) + b;
    var i, carry := output.Length - 1, b as uint32;
    AddsUpAtStart(was, b);
    while i > high || carry != 0
      invariant zcount - 1 <= i < output.Length && carry < 256
      invariant IsNumeral(output[..], RADIX)
      invariant forall j :: 0 <= j <= i ==> output[j] == was[j]
      invariant AddsUp(total, carry as int, output[..], was, i)
      decreases i
    {
      if i == zcount - 1 {
        CarryFits(total, carry as int, output[..], was, i);
      }
      AddsUpStep(total, carry as int, output[..], was, i);
      ghost var before := output[..];
      var (digit, rest) := CarryCell(carry, output[i]);
      output[i], carry := digit, rest;
      assert output[..] == before[i := digit];
      i := i - 1;
    }
    AddsUpDone(total, output[..], was, i);
    newHigh := i;
  }

  /**
    The final pass: the digits, a slice of output starting at offset, become
    letters at the start of output. Cell i of the slice is read before cell i
    of output is written, and never after.
   */
  method RewriteAsText(output: array<byte>, offset: nat) returns (s: string)
    requires offset <= output.Length && IsNumeral(output[..], RADIX)
    modifies output
    ensures IsNumeral(old(output[offset..]), RADIX) && s == Text(old(output[offset..]))
  {
    ghost var digits: seq<int> := output[offset..];
    var size := output.Length - offset;
    for i := 0 to size
      invariant forall j :: 0 <= j < i ==> output[j] == ALPHABET[digits[j]] as int
      invariant forall j :: i <= j < size ==> output[j + offset] == digits[j]
    {
      AlphabetCode(digits[i]);
      output[i] := ALPHABET[output[i + offset]] as byte;
    }
    s := seq(size, i requires 0 <= i < size reads output => output[i] as char);
  }

  /** The loop over the bytes: cells from zcount on hold the number read so far. */
  method Convert(data: seq<byte>, output: array<byte>, zcount: nat)
    requires zcount == LeadingZeros(data)
    requires output.Length == zcount + BufferDigits(|data| - zcount)
    requires forall j :: 0 <= j < output.Length ==> output[j] == 0
    modifies output
    ensures IsNumeral(output[..], RADIX) && forall j :: 0 <= j < zcount ==> output[j] == 0
    ensures Value(output[..], RADIX) == Value(data, 256)
  {
    hide Value, Pow, LeadingZeros;
    var high := output.Length - 1;
    ValueOfZeros(output[..], RADIX);
    ValueOfZeros(data[..0], 256);
    for n := 0 to |data|
      invariant zcount - 1 <= high < output.Length
      invariant IsNumeral(output[..], RADIX) && forall j :: 0 <= j <= high ==> output[j] == 0
      invariant Value(output[..], RADIX) == Value(data[..n], 256)
    {
      PrefixFits(data, zcount, n + 1);
      ValueOfPrefix(data, n);
      high := AddByte(output, high, data[n], zcount);
    }
    assert data[..|data|] == data;
  }

  method Base58Encode(data: seq<byte>) returns (s: string)
    ensures s == Encoded(data)
  {
    var zcount := 0;
    while zcount < |data| && data[zcount] == 0
      invariant zcount <= |data| && forall j :: 0 <= j < zcount ==> data[j] == 0
    {
      zcount := zcount + 1;
    }
    hide Value, Pow, Transcode, Encoded, Text;
    EncodedIsText(data);

    var ceilLog256Div58 := (|data| - zcount) * 555 / 406 + 1;
    var size := zcount + ceilLog256Div58;
    var output := new byte[size](_ => 0);
    Convert(data, output, zcount);

    var additionalZeroGapEnd := zcount;
    while additionalZeroGapEnd < size && output[additionalZeroGapEnd] == 0
      invariant zcount <= additionalZeroGapEnd <= size
      invariant forall j :: 0 <= j < additionalZeroGapEnd ==> output[j] == 0
    {
      additionalZeroGapEnd := additionalZeroGapEnd + 1;
    }
    TrimmedIsTranscoded(output[..], additionalZeroGapEnd, data, zcount);
    assert output[..][additionalZeroGapEnd - zcount..] == output[additionalZeroGapEnd - zcount..];
    s := RewriteAsText(output, additionalZeroGapEnd - zcount);
  }
}
