/** Machine-level vocabulary shared by both ping implementations: bytes,
    16-bit words and the conversions the C code performs implicitly. The
    packet memory is laid out in the byte order of the x86-64 host
    (little-endian), which is the order the checksum's 16-bit view reads. */
module Bytes {

  type byte = x: int | 0 <= x < 0x100
  type u16 = x: int | 0 <= x < 0x1_0000

  /** Low (first in memory) byte of a 16-bit value. */
  function Lo(w: u16): byte { w % 0x100 }

  /** High (second in memory) byte of a 16-bit value. */
  function Hi(w: u16): byte { w / 0x100 }

  /** The 16-bit value whose memory image is `lo` followed by `hi`. */
  function Word(lo: byte, hi: byte): u16
  {
    lo + 0x100 * hi
  }

  /** The two bytes of a word's memory image are recovered from it. */
  lemma HalvesOfWord(lo: byte, hi: byte)
    ensures Lo(Word(lo, hi)) == lo && Hi(Word(lo, hi)) == hi
  {
  }

  lemma WordOfHalves(w: u16)
    ensures Word(Lo(w), Hi(w)) == w
  {
  }

  /** The implicit conversion of an `int` (such as a process id) into a
      `uint16_t` field: reduction modulo 2^16. */
  function Truncate16(x: int): (r: u16)
    ensures 0 <= x < 0x1_0000 ==> r == x
    ensures (r - x) % 0x1_0000 == 0
  {
    x % 0x1_0000
  }

  /** The value of a byte read through a plain `char`, which is signed on
      the x86-64 Linux ABI. */
  function SignedChar(b: byte): int
  {
    if b < 0x80 then b else b - 0x100
  }

  /** A signed `char` holds -128..127 and has the same bit pattern as the
      byte: it differs from it by a multiple of 256. */
  lemma SignedCharRange(b: byte)
    ensures -0x80 <= SignedChar(b) < 0x80
    ensures (SignedChar(b) - b) % 0x100 == 0
    ensures SignedChar(b) < 0 <==> b >= 0x80
  {
  }
}
