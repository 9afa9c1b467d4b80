/** The Internet checksum of RFC 1071, section 1, as `calculate_checksum`
    computes it: the buffer is summed as 16-bit words into a 32-bit
    accumulator, the carries are folded back twice, and the one's
    complement of the low 16 bits is returned. */
module Checksum {
  import opened Bytes

  /** Modulus of the `unsigned int` accumulator. */
  const Mod32: int := 0x1_0000_0000

  /** Sum of the buffer read as consecutive little-endian 16-bit words; a
      trailing odd byte is added on its own, as the source's odd branch does. */
  function WordSum(b: seq<byte>): nat
  {
    if |b| == 0 then 0
    else if |b| == 1 then b[0]
    else Word(b[0], b[1]) + WordSum(b[2..])
  }

  /** `sum = (sum >> 16) + (sum & 0xFFFF); sum += (sum >> 16);` followed by
      the truncation to `unsigned short` of the return. */
  function Fold(sum: nat): u16
    requires sum < Mod32
  {
    var once := sum / 0x1_0000 + sum % 0x1_0000;
    var twice := once + once / 0x1_0000;
    twice % 0x1_0000
  }

  function Pow2(n: nat): nat
  {
    if n == 0 then 1 else 2 * Pow2(n - 1)
  }

  /** The low `n` bits of `x` with each bit inverted: what `~` leaves in an
      `n`-bit result. */
  function NotBits(x: nat, n: nat): nat
  {
    if n == 0 then 0 else (1 - x % 2) + 2 * NotBits(x / 2, n - 1)
  }

  /** Inverting every bit of an `n`-bit value subtracts it from all ones. */
  lemma {:induction false} NotBitsIsSub(x: nat, n: nat)
    requires x < Pow2(n)
    ensures NotBits(x, n) == Pow2(n) - 1 - x
  {
    if n > 0 {
      NotBitsIsSub(x / 2, n - 1);
    }
  }

  /** The 16-bit one's complement `~sum` of a folded sum. */
  function Complement(x: u16): (r: u16)
    ensures r + x == 0xFFFF
  {
    0xFFFF - x
  }

  lemma Pow2Sixteen()
    ensures Pow2(16) == 0x1_0000
  {
    assert Pow2(4) == 16;
    assert Pow2(8) == 256 by {
      assert Pow2(5) == 32 && Pow2(6) == 64 && Pow2(7) == 128;
    }
    assert Pow2(12) == 4096 by {
      assert Pow2(9) == 512 && Pow2(10) == 1024 && Pow2(11) == 2048;
    }
    assert Pow2(13) == 8192 && Pow2(14) == 16384 && Pow2(15) == 32768;
  }

  /** `~sum` returned as an `unsigned short` is the bitwise complement of
      the low 16 bits of the folded sum: `Complement` is exactly that. */
  lemma ComplementIsBitwiseNot(x: u16)
    ensures Complement(x) == NotBits(x, 16)
  {
    Pow2Sixteen();
    NotBitsIsSub(x, 16);
  }

  /** The checksum of a buffer. */
  function InternetChecksum(b: seq<byte>): u16
  {
    Complement(Fold(WordSum(b) % Mod32))
  }

  /** Below 2^32 the accumulator does not wrap around. */
  lemma ChecksumNoWrap(b: seq<byte>)
    requires WordSum(b) < Mod32
    ensures InternetChecksum(b) == Complement(Fold(WordSum(b)))
  {
    var s := WordSum(b);
    assert s % Mod32 == s;
  }

  /** The fold and complement written out as the two statements an
      implementation executes on its `unsigned int` accumulator. */
  lemma ChecksumSteps(b: seq<byte>, once: nat, twice: nat)
    requires WordSum(b) < Mod32
    requires once == WordSum(b) / 0x1_0000 + WordSum(b) % 0x1_0000
    requires twice == once + once / 0x1_0000
    ensures InternetChecksum(b) == 0xFFFF - twice % 0x1_0000
  {
    ChecksumNoWrap(b);
    assert Fold(WordSum(b)) == twice % 0x1_0000;
  }

  /** Extending a prefix of `k` whole words by the next word adds that
      word: the step of the source's pointer walk. */
  lemma {:induction false} WordSumStep(b: seq<byte>, k: nat)
    requires 2 * k + 2 <= |b|
    ensures WordSum(b[..2 * k + 2]) == WordSum(b[..2 * k]) + Word(b[2 * k], b[2 * k + 1])
  {
    if k == 0 {
      assert b[..2][2..] == [];
    } else {
      WordSumStep(b[2..], k - 1);
      assert b[..2 * k + 2][2..] == b[2..][..2 * (k - 1) + 2];
      assert b[..2 * k][2..] == b[2..][..2 * (k - 1)];
    }
  }

  /** The sum of the first `k` words of `b`, accumulated front to back the
      way the source's pointer walk does. */
  function PrefixSum(b: seq<byte>, k: nat): nat
    requires 2 * k <= |b|
  {
    if k == 0 then 0 else PrefixSum(b, k - 1) + Word(b[2 * k - 2], b[2 * k - 1])
  }

  /** The walk over the first `k` words computes the word sum of those bytes. */
  lemma {:induction false} PrefixSumIsWordSum(b: seq<byte>, k: nat)
    requires 2 * k <= |b|
    ensures PrefixSum(b, k) == WordSum(b[..2 * k])
  {
    if k > 0 {
      PrefixSumIsWordSum(b, k - 1);
      WordSumStep(b, k - 1);
    }
  }

  /** Every word is at most 0xFFFF, so the sum of a buffer is bounded by
      0xFFFF per (possibly partial) word. */
  lemma {:induction false} WordSumBound(b: seq<byte>)
    ensures WordSum(b) <= 0xFFFF * ((|b| + 1) / 2)
  {
    if |b| >= 2 {
      WordSumBound(b[2..]);
    }
  }

  lemma DivMod16(q: nat, r: nat)
    requires r < 0x1_0000
    ensures (q * 0x1_0000 + r) / 0x1_0000 == q
    ensures (q * 0x1_0000 + r) % 0x1_0000 == r
  {
  }

  /** The verification rule of RFC 1071, section 1: adding the complement
      of the folded sum to the sum makes the folded total all ones, so the
      checksum recomputed over the sealed data is zero. */
  lemma FoldComplement(sum: nat)
    requires sum < 0xFFFF_0000
    ensures sum + Complement(Fold(sum)) < Mod32
    ensures Fold(sum + Complement(Fold(sum))) == 0xFFFF
  {
    var h, l := sum / 0x1_0000, sum % 0x1_0000;
    assert sum == h * 0x1_0000 + l;
    assert h <= 0xFFFE;
    if h + l < 0x1_0000 {
      DivMod16(0, h + l);
      assert Fold(sum) == h + l;
      var total := h * 0x1_0000 + (0xFFFF - h);
      assert sum + Complement(Fold(sum)) == total;
      DivMod16(h, 0xFFFF - h);
    } else {
      var x := h + l - 0x1_0000;
      DivMod16(1, x);
      DivMod16(1, x + 1);
      assert Fold(sum) == x + 1;
      var total := (h + 1) * 0x1_0000 + (0xFFFE - h);
      assert sum + Complement(Fold(sum)) == total;
      DivMod16(h + 1, 0xFFFE - h);
    }
    DivMod16(0, 0xFFFF);
  }

  /** A buffer whose word sum is a sum plus the checksum of that sum
      verifies: its own checksum is 0. */
  lemma ChecksumVerifies(b: seq<byte>, sum: nat)
    requires sum < 0xFFFF_0000
    requires WordSum(b) == sum + Complement(Fold(sum))
    ensures InternetChecksum(b) == 0
  {
    FoldComplement(sum);
    ChecksumNoWrap(b);
  }
}
