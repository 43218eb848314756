/**
  Machine words and bytes of the LC-3, and the arithmetic helpers shared by the
  rest of the model. A Rust `u16` is a `bv16` here, so `wrapping_add`, `&`, `|`,
  `!` and the shifts are the bit-vector operations with no further encoding.
*/
module Words {

  type Word = bv16
  type Byte = bv8

  /** The integer a word denotes when read as 16-bit two's complement. */
  function Signed(w: Word): int {
    if w < 0x8000 then w as int else w as int - 0x10000
  }

  function Pow2(n: nat): (p: nat)
    ensures p >= 1
  {
    if n == 0 then 1 else 2 * Pow2(n - 1)
  }

  /** The integer the low `n` bits of `x` denote when read as n-bit two's complement. */
  function FieldValue(x: Word, n: nat): int
    requires 1 <= n <= 16
  {
    var u := x as int % Pow2(n);
    if u < Pow2(n - 1) then u else u - Pow2(n)
  }

  /** Bits 7..0 of a word: `(w & 0xFF) as u8`. */
  function LowByte(w: Word): Byte {
    (w & 0xFF) as Byte
  }

  /** Bits 15..8 of a word: `((w >> 8) & 0xFF) as u8`. */
  function HighByte(w: Word): Byte {
    (w >> 8) as Byte
  }

  /** `u16::from_be_bytes([hi, lo])`. */
  function FromBigEndian(hi: Byte, lo: Byte): (w: Word)
    ensures HighByte(w) == hi && LowByte(w) == lo
  {
    ((hi as Word) << 8) | (lo as Word)
  }

  /** A word is determined by its two bytes, so splitting and re-joining is the identity. */
  lemma BigEndianSplit(w: Word)
    ensures FromBigEndian(HighByte(w), LowByte(w)) == w
  {
  }

  /** `b as char`: the character whose code point is the byte's value (U+0000..U+00FF). */
  function ByteChar(b: Byte): (c: char)
    ensures c as int == b as int
    ensures c == '\0' <==> b == 0
  {
    (b as int) as char
  }

  /**
    The address reached from `a` after `k` wrapping increments (`address += 1`
    with 16-bit wrap-around), defined without any int/bit-vector conversion.
  */
  function Next(a: Word, k: nat): Word
    decreases k
  {
    if k == 0 then a else Next(a + 1, k - 1)
  }

  /** One more increment after `k` increments is `k + 1` increments. */
  lemma {:induction false} NextStep(a: Word, k: nat)
    ensures Next(a, k) + 1 == Next(a, k + 1)
    decreases k
  {
    if k > 0 {
      NextStep(a + 1, k - 1);
    }
  }

}
