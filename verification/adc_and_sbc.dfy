/**
  The six ADC/SBC engines of the NMOS 6502 and the WDC 65C02: one binary-mode
  pair shared by both chips and one decimal-mode pair per chip. Each is a
  total function of (carry in, accumulator, operand) and is written step by
  step as the hardware-matched algorithm computes it, with every `uint8_t`
  truncation spelled out through `U8`.

  The contracts relate each engine to a partner: the binary engines to plain
  integer arithmetic, the 6502 decimal engines to the binary engines whose
  flags they share, and the 65C02 decimal engines to the 6502 ones.
 */
module AdcSbc {
  import opened Bytes

  /** The accumulator and the four status flags an ADC or SBC leaves behind. */
  datatype OpResult = OpResult(accumulator: Byte, flagN: bool, flagV: bool, flagZ: bool, flagC: bool)

  // ---------------------------------------------------------------------------
  // Binary mode: identical on the 6502 and the 65C02
  // ---------------------------------------------------------------------------

  /** ADC in binary mode. Accumulator and carry together hold the full 9-bit sum. */
  function AdcBinary(carry: bool, a: Byte, op: Byte): (r: OpResult)
    ensures 0x100 * FromBool(r.flagC) + r.accumulator == FromBool(carry) + a + op
    ensures r.flagZ <==> r.accumulator == 0
    ensures r.flagN <==> r.accumulator >= 0x80
  {
    var sum := FromBool(carry) + a + op;
    var acc := U8(sum);
    var n := IsNegative(acc);
    var v := (IsNegative(a) != n) && (IsNegative(op) != n);
    OpResult(acc, n, v, acc == 0, sum >= 0x100)
  }

  /** SBC in binary mode. Accumulator minus 256 when a borrow went out is the exact difference. */
  function SbcBinary(carry: bool, a: Byte, op: Byte): (r: OpResult)
    ensures r.accumulator - 0x100 * FromBool(!r.flagC) == a - op - FromBool(!carry)
    ensures r.flagZ <==> r.accumulator == 0
    ensures r.flagN <==> r.accumulator >= 0x80
  {
    var borrow := !carry;
    var acc := U8(a - op - FromBool(borrow));
    var n := IsNegative(acc);
    var v := (IsNegative(a) != n) && ((op < 0x80) != n);
    OpResult(acc, n, v, acc == 0, a >= op + FromBool(borrow))
  }

  // ---------------------------------------------------------------------------
  // 6502 decimal mode
  // ---------------------------------------------------------------------------

  /**
    ADC in decimal mode on the 6502. Z is taken from the binary sum; N and V
    from the high nibble before it is corrected; accumulator and C from the
    nibble-wise decimal correction.
   */
  function Adc6502Decimal(carry: bool, a: Byte, op: Byte): (r: OpResult)
    ensures r.flagZ == AdcBinary(carry, a, op).flagZ
  {
    var binaryResult := U8(FromBool(carry) + a + op);
    var z := binaryResult == 0;

    var lowSum := U8(Low4(a) + Low4(op) + FromBool(carry));
    var lowCarry := lowSum > 9;
    var low: Nibble := if lowCarry then Low4(lowSum - 10) else lowSum;

    var highSum := U8(High4(a) + High4(op) + FromBool(lowCarry));
    var n := Bit3(highSum);
    var v := (IsNegative(a) != n) && (IsNegative(op) != n);

    var highCarry := highSum > 9;
    var high: Nibble := if highCarry then Low4(highSum - 10) else highSum;

    OpResult(Pack(high, low), n, v, z, highCarry)
  }

  /**
    SBC in decimal mode on the 6502. N, V and Z are those of the binary
    subtraction; only the accumulator and C go through decimal correction.
   */
  function Sbc6502Decimal(carry: bool, a: Byte, op: Byte): (r: OpResult)
    ensures var binary := SbcBinary(carry, a, op);
      r.flagN == binary.flagN && r.flagV == binary.flagV && r.flagZ == binary.flagZ
  {
    var borrowIn := !carry;

    var binaryResult := U8(a - op - FromBool(borrowIn));
    var n := IsNegative(binaryResult);
    var v := (IsNegative(a) != n) && (!IsNegative(op) != n);
    var z := binaryResult == 0;

    var lowDiff := U8(Low4(a) - Low4(op) - FromBool(borrowIn));
    var lowBorrow := IsNegative(lowDiff);
    var low: Nibble := if lowBorrow then Low4(lowDiff + 10) else lowDiff;

    var highDiff := U8(High4(a) - High4(op) - FromBool(lowBorrow));
    var highBorrow := IsNegative(highDiff);
    var high: Nibble := if highBorrow then Low4(highDiff + 10) else highDiff;

    OpResult(Pack(high, low), n, v, z, !highBorrow)
  }

  // ---------------------------------------------------------------------------
  // 65C02 decimal mode
  // ---------------------------------------------------------------------------

  /**
    ADC in decimal mode on the 65C02. Same accumulator, V and C as the 6502;
    N and Z are read from the corrected accumulator.
   */
  function Adc65C02Decimal(carry: bool, a: Byte, op: Byte): (r: OpResult)
    ensures r.flagZ <==> r.accumulator == 0
    ensures r.flagN <==> r.accumulator >= 0x80
  {
    var lowSum := U8(Low4(a) + Low4(op) + FromBool(carry));
    var lowCarry := lowSum > 9;
    var low := Low4(if lowCarry then U8(lowSum - 10) else lowSum);

    var highSum := U8(High4(a) + High4(op) + FromBool(lowCarry));
    var xn := Bit3(highSum);

    var highCarry := highSum > 9;
    var high := Low4(if highCarry then U8(highSum - 10) else highSum);

    var acc := Pack(high, low);
    OpResult(acc, IsNegative(acc), (IsNegative(a) != xn) && (IsNegative(op) != xn), acc == 0, highCarry)
  }

  /** The low-digit step of the 65C02 decimal SBC. */
  datatype LowDigit = LowDigit(nibble: Nibble, borrow: bool, stillNegative: bool)

  /**
    The low digit of the 65C02 decimal SBC: the corrected low nibble, whether
    it borrowed, and whether it was still negative after adding 10, which on
    the 65C02 also lowers the high nibble.
   */
  function Sbc65C02LowDigit(carry: bool, a: Byte, op: Byte): (d: LowDigit)
    ensures d.borrow <==> Low4(a) - Low4(op) - FromBool(!carry) < 0
    ensures d.stillNegative <==> Low4(a) - Low4(op) - FromBool(!carry) < -10
    ensures d.nibble == Low4(Low4(a) - Low4(op) - FromBool(!carry) + (if d.borrow then 10 else 0))
  {
    var lowDiff := U8(Low4(a) - Low4(op) - FromBool(!carry));
    var borrow := IsNegative(lowDiff);
    var corrected := if borrow then U8(lowDiff + 10) else lowDiff;
    LowDigit(Low4(corrected), borrow, IsNegative(corrected))
  }

  /**
    SBC in decimal mode on the 65C02. Same C and low digit as the 6502; the
    high digit is one less when the low digit was still negative; N and Z
    are read from the corrected accumulator; V, taken from bit 3 of the
    uncorrected high digit, is binary SBC's V (`CrossChip.SbcDecimalOverflowIsBinary`).
   */
  function Sbc65C02Decimal(carry: bool, a: Byte, op: Byte): (r: OpResult)
    ensures r.flagZ <==> r.accumulator == 0
    ensures r.flagN <==> r.accumulator >= 0x80
  {
    var lowDigit := Sbc65C02LowDigit(carry, a, op);

    var highDiff := U8(High4(a) - High4(op) - FromBool(lowDigit.borrow));
    var highMsb := Bit3(highDiff);

    var highBorrow := IsNegative(highDiff);
    var corrected := if highBorrow then U8(highDiff + 10) else highDiff;
    var high := Low4(U8(corrected - FromBool(lowDigit.stillNegative)));

    var acc := Pack(high, lowDigit.nibble);
    OpResult(acc, IsNegative(acc), (IsNegative(a) != highMsb) && ((op < 0x80) != highMsb), acc == 0, !highBorrow)
  }
}
