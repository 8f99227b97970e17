/** The one's complement checksum of IP and TCP headers. */
module Checksum {

  type byte = x: int | 0 <= x < 256

  // sums are kept in 32 bits
  const WORD32 := 0x1_0000_0000

  /** A big-endian 16-bit word. */
  function Word(high: byte, low: byte): (w: nat)
    ensures w < 0x1_0000
  {
    256 * (high as int) + low as int
  }

  /** The sum of the big-endian 16-bit words; an odd last byte counts as a high byte. */
  ghost function WordSum(s: seq<byte>): (sum: nat)
    ensures sum <= 0xFFFF * ((|s| + 1) / 2)
  {
    if s == [] then 0
    else if |s| == 1 then Word(s[0], 0)
    else Word(s[0], s[1]) + WordSum(s[2..])
  }

  lemma {:induction false} WordSumConcat(a: seq<byte>, b: seq<byte>)
    requires |a| % 2 == 0
    ensures WordSum(a + b) == WordSum(a) + WordSum(b)
  {
    if a == [] {
      assert a + b == b;
    } else {
      assert (a + b)[2..] == a[2..] + b;
      WordSumConcat(a[2..], b);
    }
  }

  lemma {:induction false} WordSumZeros(n: nat)
    ensures WordSum(seq<byte>(n, _ => 0)) == 0
  {
    if n > 1 {
      assert seq<byte>(n, _ => 0)[2..] == seq<byte>(n - 2, _ => 0);
      WordSumZeros(n - 2);
    }
  }

  /** An odd number of bytes counts as if a zero byte followed. */
  lemma {:induction false} PaddedWithZero(s: seq<byte>)
    requires |s| % 2 == 1
    ensures WordSum(s + [0]) == WordSum(s)
  {
    if |s| > 1 {
      assert (s + [0])[2..] == s[2..] + [0];
      PaddedWithZero(s[2..]);
    } else {
      assert (s + [0])[2..] == [];
    }
  }

  /** Writing a word where there were two zero bytes adds it to the sum. */
  lemma {:induction false} WordSumUpdate(s: seq<byte>, k: nat, word: nat)
    requires k % 2 == 0 && k + 1 < |s| && s[k] == s[k + 1] == 0 && word < 0x1_0000
    ensures WordSum(s[k := word / 256][k + 1 := word % 256]) == WordSum(s) + word
    decreases k
  {
    var t := s[k := word / 256][k + 1 := word % 256];
    if k == 0 {
      assert t[2..] == s[2..];
    } else {
      assert t[2..] == s[2..][k - 2 := word / 256][k - 1 := word % 256];
      WordSumUpdate(s[2..], k - 2, word);
    }
  }

  lemma WordSumStep(s: seq<byte>, i: nat)
    requires i + 1 < |s|
    ensures WordSum(s[i..]) == Word(s[i], s[i + 1]) + WordSum(s[i + 2..])
  {
    assert s[i..][2..] == s[i + 2..];
  }

  lemma WordSumEnd(s: seq<byte>)
    ensures WordSum(s[|s|..]) == 0
    ensures s != [] ==> WordSum(s[|s| - 1..]) == Word(s[|s| - 1], 0)
  {
  }

  /** The 32-bit sum of one slice, added to a sum so far. */
  method AddWords(sum0: nat, slice: seq<byte>) returns (sum: nat)
    requires sum0 + WordSum(slice) < WORD32
    ensures sum == sum0 + WordSum(slice)
  {
    hide WordSum, Word;
    sum := sum0;
    var i := 0;
    assert slice[0..] == slice;
    while i < |slice| - 1
      invariant 0 <= i <= |slice| && i % 2 == 0
      invariant sum + WordSum(slice[i..]) == sum0 + WordSum(slice)
    {
      WordSumStep(slice, i);
      sum := (sum + Word(slice[i], slice[i + 1])) % WORD32;
      i := i + 2;
    }
    WordSumEnd(slice);
    if |slice| % 2 != 0 {
      sum := (sum + Word(slice[|slice| - 1], 0)) % WORD32;
    }
  }

  // ------------------------------------------------------------- folding

  /** The representative of sum modulo 65535 that folding ends with: zero only for zero. */
  ghost function Folded(sum: nat): (r: nat)
    ensures r < 0x1_0000 && r % 0xFFFF == sum % 0xFFFF && (r == 0 <==> sum == 0)
  {
    if sum == 0 then 0 else (sum - 1) % 0xFFFF + 1
  }

  lemma FoldStep(sum: nat)
    requires sum >= 0x1_0000
    ensures sum % 0x1_0000 + sum / 0x1_0000 < sum
    ensures Folded(sum % 0x1_0000 + sum / 0x1_0000) == Folded(sum)
  {
    var next := sum % 0x1_0000 + sum / 0x1_0000;
    assert sum - 1 == (next - 1) + 0xFFFF * (sum / 0x1_0000);
    ModAdd(next - 1, sum / 0x1_0000);
  }

  lemma ModAdd(a: nat, q: nat)
    ensures (a + 0xFFFF * q) % 0xFFFF == a % 0xFFFF
  {
  }

  method Fold(sum0: nat) returns (sum: nat)
    requires sum0 < WORD32
    ensures sum == Folded(sum0)
  {
    sum := sum0;
    while sum / 0x1_0000 > 0
      invariant Folded(sum) == Folded(sum0)
      decreases sum
    {
      FoldStep(sum);
      sum := sum % 0x1_0000 + sum / 0x1_0000;
    }
  }

  ghost function ChecksumOf(s: seq<byte>): (c: nat)
    ensures c < 0x1_0000
  {
    0xFFFF - Folded(WordSum(s))
  }

  method IpChecksum(header: seq<byte>) returns (checksum: nat)
    requires |header| <= 0x1_0000
    ensures checksum == ChecksumOf(header)
  {
    var sum := AddWords(0, header);
    sum := Fold(sum);
    return 0xFFFF - sum;
  }

  lemma ModShift(sum: nat, word: nat)
    ensures (sum + word) % 0xFFFF == (sum % 0xFFFF + word) % 0xFFFF
  {
    assert sum + word == (sum % 0xFFFF + word) + 0xFFFF * (sum / 0xFFFF);
    ModAdd(sum % 0xFFFF + word, sum / 0xFFFF);
  }

  lemma ComplementFolds(sum: nat)
    ensures Folded(sum + (0xFFFF - Folded(sum))) == 0xFFFF
  {
    var c := 0xFFFF - Folded(sum);
    ModShift(sum, c);
    assert (sum % 0xFFFF + c) % 0xFFFF == 0;
  }

  /** What a checksum is for: with it written in its place, the checksum of the whole is zero. */
  lemma ChecksumCancels(s: seq<byte>, k: nat)
    requires k % 2 == 0 && k + 1 < |s| && s[k] == s[k + 1] == 0
    ensures ChecksumOf(s[k := ChecksumOf(s) / 256][k + 1 := ChecksumOf(s) % 256]) == 0
  {
    WordSumUpdate(s, k, ChecksumOf(s));
    ComplementFolds(WordSum(s));
    hide WordSum, Folded;
  }

  lemma FoldedDiffers(sum: nat, word: nat)
    requires 0 < word < 0xFFFF
    ensures Folded(sum + word) != Folded(sum)
  {
    ModShift(sum, word);
    var r := sum % 0xFFFF;
    assert (r + word) % 0xFFFF == (if r + word < 0xFFFF then r + word else r + word - 0xFFFF);
    hide Folded;
  }

  /** A word that is put where there were zeros, unless it is 65535, changes the checksum. */
  lemma ChangeIsDetected(s: seq<byte>, k: nat, word: nat)
    requires k % 2 == 0 && k + 1 < |s| && s[k] == s[k + 1] == 0 && 0 < word < 0xFFFF
    ensures ChecksumOf(s[k := word / 256][k + 1 := word % 256]) != ChecksumOf(s)
  {
    WordSumUpdate(s, k, word);
    FoldedDiffers(WordSum(s), word);
    hide WordSum, Folded;
  }
}
