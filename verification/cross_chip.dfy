/**
  How the 65C02 decimal engines differ from the 6502 ones, for every input,
  valid BCD or not.
 */
module CrossChip {
  import opened Bytes
  import opened AdcSbc
  import opened DecimalMode

  /**
    Decimal ADC: both chips produce the same accumulator, V and C. Only N
    and Z can differ, and on the 65C02 they describe the accumulator.
   */
  lemma AdcDecimalChipsAgree(carry: bool, a: Byte, op: Byte)
    ensures var nmos, cmos := Adc6502Decimal(carry, a, op), Adc65C02Decimal(carry, a, op);
      && cmos.accumulator == nmos.accumulator
      && cmos.flagV == nmos.flagV
      && cmos.flagC == nmos.flagC
      && (cmos.flagZ <==> cmos.accumulator == 0)
      && (cmos.flagN <==> IsNegative(cmos.accumulator))
  {
    Adc6502DecimalDigits(carry, a, op);
    Adc65C02DecimalDigits(carry, a, op);
  }

  /**
    Decimal SBC: both chips produce the same C and the same low digit. The
    65C02's high digit is the 6502's minus one (modulo 16) exactly when the
    low digit difference, borrow included, is -11 or less.
   */
  lemma SbcDecimalChipsAgree(carry: bool, a: Byte, op: Byte)
    ensures var nmos, cmos := Sbc6502Decimal(carry, a, op), Sbc65C02Decimal(carry, a, op);
      var lowDiff := Low4(a) - Low4(op) - FromBool(!carry);
      && cmos.flagC == nmos.flagC
      && Low4(cmos.accumulator) == Low4(nmos.accumulator)
      && High4(cmos.accumulator)
         == if lowDiff <= -11 then Low4(High4(nmos.accumulator) - 1) else High4(nmos.accumulator)
  {
    Sbc6502DecimalDigits(carry, a, op);
    Sbc65C02DecimalDigits(carry, a, op);
    SbcDigitResultsAgree(carry, a, op, Sbc6502Decimal(carry, a, op), Sbc65C02Decimal(carry, a, op));
  }

  /** `SbcDecimalChipsAgree` for any two results that have the digit-level forms of the two chips. */
  lemma SbcDigitResultsAgree(carry: bool, a: Byte, op: Byte, nmos: OpResult, cmos: OpResult)
    requires var lowDiff := Low4(a) - Low4(op) - FromBool(!carry);
      var lowBorrow := lowDiff < 0;
      var highDiff := High4(a) - High4(op) - FromBool(lowBorrow);
      var highBorrow := highDiff < 0;
      && nmos.accumulator == Pack(Low4(highDiff + 10 * FromBool(highBorrow)), Low4(lowDiff + 10 * FromBool(lowBorrow)))
      && nmos.flagC == !highBorrow
    requires var lowDiff := Low4(a) - Low4(op) - FromBool(!carry);
      var lowBorrow := lowDiff < 0;
      var stillNegative := lowDiff < -10;
      var highDiff := High4(a) - High4(op) - FromBool(lowBorrow);
      var highBorrow := highDiff < 0;
      && cmos.accumulator
         == Pack(Low4(highDiff + 10 * FromBool(highBorrow) - FromBool(stillNegative)), Low4(lowDiff + 10 * FromBool(lowBorrow)))
      && cmos.flagC == !highBorrow
    ensures var lowDiff := Low4(a) - Low4(op) - FromBool(!carry);
      && cmos.flagC == nmos.flagC
      && Low4(cmos.accumulator) == Low4(nmos.accumulator)
      && High4(cmos.accumulator)
         == if lowDiff <= -11 then Low4(High4(nmos.accumulator) - 1) else High4(nmos.accumulator)
  {
    var lowDiff := Low4(a) - Low4(op) - FromBool(!carry);
    SbcAccumulatorsAgree(lowDiff, High4(a) - High4(op) - FromBool(lowDiff < 0), nmos.accumulator, cmos.accumulator);
  }

  /**
    The SBC accumulator comparison for any two bytes that pack the two
    chips' corrected digits of the given digit differences.
   */
  lemma SbcAccumulatorsAgree(lowDiff: int, highDiff: int, nmos: Byte, cmos: Byte)
    requires nmos == Pack(Low4(highDiff + 10 * FromBool(highDiff < 0)), Low4(lowDiff + 10 * FromBool(lowDiff < 0)))
    requires cmos
             == Pack(Low4(highDiff + 10 * FromBool(highDiff < 0) - FromBool(lowDiff < -10)), Low4(lowDiff + 10 * FromBool(lowDiff < 0)))
    ensures Low4(cmos) == Low4(nmos)
    ensures High4(cmos) == if lowDiff <= -11 then Low4(High4(nmos) - 1) else High4(nmos)
  {
    SbcCorrectedHighDigits(lowDiff, highDiff);
    SbcPackedDigits(
      lowDiff <= -11,
      Low4(lowDiff + 10 * FromBool(lowDiff < 0)),
      Low4(highDiff + 10 * FromBool(highDiff < 0)),
      Low4(highDiff + 10 * FromBool(highDiff < 0) - FromBool(lowDiff < -10)));
  }

  /**
    The two chips' corrected high digits differ by the 65C02's extra
    decrement, which happens when the low digit difference is -11 or less.
   */
  lemma SbcCorrectedHighDigits(lowDiff: int, highDiff: int)
    ensures var nmosHigh := Low4(highDiff + 10 * FromBool(highDiff < 0));
      var cmosHigh := Low4(highDiff + 10 * FromBool(highDiff < 0) - FromBool(lowDiff < -10));
      cmosHigh == if lowDiff <= -11 then Low4(nmosHigh - 1) else nmosHigh
  {
    Low4OfLow4(highDiff + 10 * FromBool(highDiff < 0), -1);
  }

  /** Two accumulators with the same low digit whose high digits differ by the extra decrement, or not at all. */
  lemma SbcPackedDigits(extraDecrement: bool, low: Nibble, nmosHigh: Nibble, cmosHigh: Nibble)
    requires cmosHigh == if extraDecrement then Low4(nmosHigh - 1) else nmosHigh
    ensures Low4(Pack(cmosHigh, low)) == Low4(Pack(nmosHigh, low))
    ensures High4(Pack(cmosHigh, low))
         == if extraDecrement then Low4(High4(Pack(nmosHigh, low)) - 1) else High4(Pack(nmosHigh, low))
  {
    NibblesOfPack(nmosHigh, low);
    NibblesOfPack(cmosHigh, low);
  }

  /**
    Decimal SBC on the 65C02 sets V exactly as binary SBC (and so the 6502's
    decimal SBC) does. Both chips borrow out of the low digit on the same
    condition, so bit 3 of the 65C02's uncorrected high-digit difference is
    bit 7 of the binary difference.
   */
  lemma SbcDecimalOverflowIsBinary(carry: bool, a: Byte, op: Byte)
    ensures Sbc65C02Decimal(carry, a, op).flagV == SbcBinary(carry, a, op).flagV
    ensures Sbc65C02Decimal(carry, a, op).flagV == Sbc6502Decimal(carry, a, op).flagV
  {
    SbcOverflowOfHighDigit(carry, a, op, Sbc65C02Decimal(carry, a, op));
  }

  /** `SbcDecimalOverflowIsBinary` for any result whose V is read from the high-digit difference as the 65C02 does. */
  lemma SbcOverflowOfHighDigit(carry: bool, a: Byte, op: Byte, cmos: OpResult)
    requires var highMsb := Bit3(U8(High4(a) - High4(op) - FromBool(Sbc65C02LowDigit(carry, a, op).borrow)));
      cmos.flagV == ((IsNegative(a) != highMsb) && ((op < 0x80) != highMsb))
    ensures cmos.flagV == SbcBinary(carry, a, op).flagV
  {
    SbcSignIsHighDigitBit3(carry, a, op, Sbc65C02LowDigit(carry, a, op).borrow);
  }

  /**
    The sign bit of the binary difference is bit 3 of the high-digit
    difference taken with the low digit's borrow.
   */
  lemma SbcSignIsHighDigitBit3(carry: bool, a: Byte, op: Byte, lowBorrow: bool)
    requires lowBorrow <==> Low4(a) - Low4(op) - FromBool(!carry) < 0
    ensures IsNegative(U8(a - op - FromBool(!carry))) == Bit3(U8(High4(a) - High4(op) - FromBool(lowBorrow)))
  {
    var lowDiff := Low4(a) - Low4(op) - FromBool(!carry);
    var highDiff := High4(a) - High4(op) - FromBool(lowBorrow);
    assert a - op - FromBool(!carry) == 16 * highDiff + (lowDiff + 16 * FromBool(lowBorrow));
    SignOfShiftedDigit(highDiff, lowDiff + 16 * FromBool(lowBorrow));
    Low4OfU8(highDiff, 0);
  }

  /**
    The sign bit of the byte whose high nibble is `high` (taken modulo 16)
    and whose low nibble is `low` is bit 3 of `high`.
   */
  lemma SignOfShiftedDigit(high: int, low: int)
    requires -16 <= high < 16 && 0 <= low < 16
    ensures IsNegative(U8(16 * high + low)) <==> Low4(high) >= 8
  {
    if high < 0 {
      assert U8(16 * high + low) == 16 * (high + 16) + low;
      assert Low4(high) == high + 16;
    }
  }
}
