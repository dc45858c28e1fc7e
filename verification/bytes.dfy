/**
  The C integer vocabulary that the ADC/SBC engines are written in: `uint8_t`
  values, the implicit truncation of an `int` expression stored into a
  `uint8_t`, and the nibble and bit operations (`& 15`, `>> 4`, `& 0x80`,
  `& 8`, `(high << 4) | low`) written as arithmetic on unbounded integers.
 */
module Bytes {

  /** An 8-bit unsigned value (C `uint8_t`). */
  type Byte = x: int | 0 <= x < 0x100

  /** A 4-bit value, as left by `& 15`. */
  type Nibble = x: int | 0 <= x < 0x10

  /** A C `bool` used as an integer operand (`false` is 0, `true` is 1). */
  function FromBool(b: bool): (r: nat)
    ensures r <= 1
    ensures b <==> r == 1
  {
    if b then 1 else 0
  }

  /** Storing an `int` expression into a `uint8_t`: reduction modulo 2^8. */
  function U8(x: int): (r: Byte)
    ensures 0 <= x < 0x100 ==> r == x
    ensures -0x100 <= x < 0 ==> r == x + 0x100
  {
    x % 0x100
  }

  /** `x & 15`. Dafny's `%` is Euclidean, which agrees with two's complement masking also for negative `x`. */
  function Low4(x: int): (r: Nibble)
    ensures 0 <= x < 0x10 ==> r == x
  {
    x % 0x10
  }

  /** `b >> 4` on a byte. */
  function High4(b: Byte): Nibble {
    b / 0x10
  }

  /**
    The sign bit of a byte read as a two's complement number. The source
    tests it both as `b >= 0x80` and as `(b & 0x80) != 0`; `IsNegativeIsMask`
    shows the two agree.
   */
  predicate IsNegative(b: Byte) {
    b >= 0x80
  }

  /** `(b & 0x08) != 0`: bit 3, the top bit of the low nibble. */
  predicate Bit3(b: Byte) {
    Low4(b) >= 0x08
  }

  /** `(high << 4) | low` stored into a `uint8_t`. The two nibbles occupy disjoint bits, so the OR is a sum. */
  function Pack(high: Nibble, low: Nibble): Byte {
    high * 0x10 + low
  }

  /** The two's complement reading of a byte. */
  function Signed(b: Byte): (r: int)
    ensures -0x80 <= r < 0x80
    ensures r < 0 <==> IsNegative(b)
    ensures U8(r) == b
  {
    if b >= 0x80 then b - 0x100 else b
  }

  /** IsNegative is the bitwise test `& 0x80`. */
  lemma IsNegativeIsMask(x: bv8)
    ensures IsNegative(x as int) <==> x & 0x80 != 0
  {
  }

  /** Bit3 is the bitwise test `& 0x08`. */
  lemma Bit3IsMask(x: bv8)
    ensures Bit3(x as int) <==> x & 0x08 != 0
  {
  }

  /** Low4 and High4 are the bitwise `& 15` and `>> 4` on bytes. */
  lemma NibblesAreBitwise(x: bv8)
    ensures Low4(x as int) == (x & 0x0F) as int
    ensures High4(x as int) == (x >> 4) as int
  {
  }

  /** Pack is the bitwise `(high << 4) | low`. */
  lemma PackIsBitwise(high: bv8, low: bv8)
    requires high < 0x10 && low < 0x10
    ensures Pack(high as int, low as int) == ((high << 4) | low) as int
  {
  }

  /** Adding to a truncated byte and masking to a nibble is the same as masking the untruncated value, since 16 divides 256. */
  lemma Low4OfU8(x: int, k: int)
    ensures Low4(U8(x) + k) == Low4(x + k)
  {
    var q := x / 0x100;
    assert U8(x) + k == (x + k) - 0x10 * (0x10 * q);
  }

  /** Masking before an addition does not change the masked sum. */
  lemma Low4OfLow4(x: int, k: int)
    ensures Low4(Low4(x) + k) == Low4(x + k)
  {
    assert Low4(x) + k == (x + k) - 0x10 * (x / 0x10);
  }

  /** A byte is the packed pair of its nibbles. */
  lemma PackOfNibbles(b: Byte)
    ensures Pack(High4(b), Low4(b)) == b
  {
  }

  /** Packing two nibbles and splitting the byte again gives them back. */
  lemma NibblesOfPack(high: Nibble, low: Nibble)
    ensures High4(Pack(high, low)) == high
    ensures Low4(Pack(high, low)) == low
  {
  }
}
