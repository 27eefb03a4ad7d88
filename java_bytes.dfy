/**
 * Java's primitive integers as bit patterns: a `byte` is a `bv8`, an `int` a
 * `bv32`. Java's `byte` is signed, so widening it to `int` copies bit 7 into
 * bits 8..31, and the cast `(byte) r` keeps the low eight bits of `r`.
 */
module JavaBytes {

  type JByte = bv8
  type JInt = bv32

  /** The number a `byte` bit pattern stands for in Java: two's complement, -128..127. */
  function ByteValue(a: JByte): int {
    if a < 0x80 then a as int else a as int - 0x100
  }

  /** The number an `int` bit pattern stands for in Java: two's complement. */
  function IntValue(r: JInt): int {
    if r < 0x8000_0000 then r as int else r as int - 0x1_0000_0000
  }

  /** `int ia = a;` for a byte `a`: the low byte is kept, and bits 8..31 are copies of the sign bit 7. */
  function SignExtend(a: JByte): (r: JInt)
    ensures r & 0xFF == a as JInt
    ensures r >> 8 == (if a >> 7 == 0 then 0 else 0xFF_FFFF)
  {
    if a & 0x80 == 0 then a as JInt else (a as JInt) | 0xFFFF_FF00
  }

  /**
   * `(byte) r`: truncation to the low eight bits. An `int` in -128..127 (the
   * bit patterns below 0x80 and from 0xFFFF_FF80 on) comes back unchanged when
   * the byte is widened again.
   */
  function ToByte(r: JInt): (b: JByte)
    ensures SignExtend(b) & 0xFF == r & 0xFF
    ensures r < 0x80 || r >= 0xFFFF_FF80 ==> SignExtend(b) == r
  {
    (r & 0xFF) as JByte
  }

  /** `0xff & b`: masking a widened byte recovers its unsigned value 0..255. */
  function Unsigned(b: JByte): (v: JInt)
    ensures v == b as JInt && v < 256
  {
    0xFF & SignExtend(b)
  }

  /** Truncation distributes over XOR. */
  lemma ToByteXor(x: JInt, y: JInt)
    ensures ToByte(x ^ y) == ToByte(x) ^ ToByte(y)
  {
  }

  /** Widening then truncating gives the byte back. */
  lemma ToByteSignExtend(a: JByte)
    ensures ToByte(SignExtend(a)) == a
  {
  }

  /** The high four bits of a byte, 0..15. */
  function HighNibble(b: JByte): (v: nat)
    ensures v < 16
  {
    (b >> 4) as nat
  }

  /** The low four bits of a byte, 0..15. */
  function LowNibble(b: JByte): (v: nat)
    ensures v < 16
  {
    (b & 0xF) as nat
  }

  /** The nibbles are the quotient and the remainder of the unsigned value by 16. */
  lemma NibbleValues(b: JByte)
    ensures HighNibble(b) == b as nat / 16
    ensures LowNibble(b) == b as nat % 16
  {
  }

  /** Widening keeps the number: the `int` stands for the same value as the `byte`. */
  lemma SignExtendKeepsValue(a: JByte)
    ensures IntValue(SignExtend(a)) == ByteValue(a)
  {
  }
}
