/**
  Concrete input/output vectors for the decimal-mode engines, including the
  inputs on which the 6502's decimal-mode Z flag does not describe the
  accumulator and the inputs on which the two chips part ways. The entry
  points reach these engines whenever the decimal flag is set
  (`EntryPoints.DecimalModeDispatch`).
 */
module Vectors {
  import opened Bytes
  import opened AdcSbc
  import CrossChip

  /** 05 + 05 in decimal mode is 10 with no carry out on the 6502. */
  lemma Adc6502DecimalFivePlusFive()
    ensures Adc6502Decimal(false, 0x05, 0x05) == OpResult(0x10, false, false, false, false)
  {
    var lowSum := U8(Low4(0x05) + Low4(0x05) + FromBool(false));
    var highSum := U8(High4(0x05) + High4(0x05) + FromBool(lowSum > 9));
    assert U8(FromBool(false) + 0x05 + 0x05) == 0x0A;
    assert lowSum == 0x0A && highSum == 0x01;
  }

  /** 05 + 05 in decimal mode is 10 with no carry out on the 65C02. */
  lemma Adc65C02DecimalFivePlusFive()
    ensures Adc65C02Decimal(false, 0x05, 0x05) == OpResult(0x10, false, false, false, false)
  {
    var lowSum := U8(Low4(0x05) + Low4(0x05) + FromBool(false));
    var highSum := U8(High4(0x05) + High4(0x05) + FromBool(lowSum > 9));
    assert lowSum == 0x0A && highSum == 0x01;
    var low := Low4(if lowSum > 9 then U8(lowSum - 10) else lowSum);
    var high := Low4(if highSum > 9 then U8(highSum - 10) else highSum);
    assert low == 0x00 && high == 0x01 && Pack(high, low) == 0x10;
  }

  /** 00 - 01 in decimal mode with no borrow in is 99 with a borrow out (C clear) on the 6502. */
  lemma Sbc6502DecimalZeroMinusOne()
    ensures Sbc6502Decimal(true, 0x00, 0x01) == OpResult(0x99, true, false, false, false)
  {
    var lowDiff := U8(Low4(0x00) - Low4(0x01) - FromBool(!true));
    var highDiff := U8(High4(0x00) - High4(0x01) - FromBool(IsNegative(lowDiff)));
    assert lowDiff == 0xFF && highDiff == 0xFF;
  }

  /** 00 - 01 in decimal mode with no borrow in is 99 with a borrow out (C clear) on the 65C02. */
  lemma Sbc65C02DecimalZeroMinusOne()
    ensures Sbc65C02Decimal(true, 0x00, 0x01) == OpResult(0x99, true, false, false, false)
  {
    var lowDiff: int := U8(Low4(0x00) - Low4(0x01) - FromBool(!true));
    assert lowDiff == 0xFF && U8(lowDiff + 10) == 0x09;
    assert Sbc65C02LowDigit(true, 0x00, 0x01) == LowDigit(0x09, true, false);
    var highDiff: int := U8(High4(0x00) - High4(0x01) - FromBool(true));
    var highCorrected: int := U8(highDiff + 10);
    assert highDiff == 0xFF && highCorrected == 0x09;
    assert Low4(U8(highCorrected - FromBool(false))) == 0x09 && Pack(0x09, 0x09) == 0x99;
  }

  /**
    99 + 01 in decimal mode on the 6502: the accumulator is 00 with C set,
    but Z is clear (the binary sum is 9A) and N is set (the uncorrected high
    digit sum is 10).
   */
  lemma Adc6502DecimalZeroFlagQuirk()
    ensures Adc6502Decimal(false, 0x99, 0x01) == OpResult(0x00, true, false, false, true)
  {
    var lowSum := U8(Low4(0x99) + Low4(0x01) + FromBool(false));
    var highSum := U8(High4(0x99) + High4(0x01) + FromBool(lowSum > 9));
    assert U8(FromBool(false) + 0x99 + 0x01) == 0x9A;
    assert lowSum == 0x0A && highSum == 0x0A;
  }

  /** 99 + 01 in decimal mode on the 65C02: 00 with C set, and Z set and N clear as the accumulator says. */
  lemma Adc65C02DecimalHundred()
    ensures Adc65C02Decimal(false, 0x99, 0x01) == OpResult(0x00, false, false, true, true)
  {
    CrossChip.AdcDecimalChipsAgree(false, 0x99, 0x01);
    Adc6502DecimalZeroFlagQuirk();
  }

  /**
    10 - 0F in decimal mode with a borrow in on the 6502: the binary
    difference is 0, so Z is set next to an accumulator of 0A.
   */
  lemma Sbc6502DecimalZeroFlagQuirk()
    ensures Sbc6502Decimal(false, 0x10, 0x0F) == OpResult(0x0A, false, false, true, true)
  {
    var lowDiff := U8(Low4(0x10) - Low4(0x0F) - FromBool(!false));
    var highDiff := U8(High4(0x10) - High4(0x0F) - FromBool(IsNegative(lowDiff)));
    assert lowDiff == 0xF0 && highDiff == 0x00;
  }

  /**
    10 - 0F in decimal mode with a borrow in on the 65C02: the low digit
    difference is -16, below -10, so the high digit is lowered once more
    and the result is FA instead of the 6502's 0A.
   */
  lemma Sbc65C02DecimalExtraDecrement()
    ensures Sbc65C02Decimal(false, 0x10, 0x0F) == OpResult(0xFA, true, false, false, true)
  {
    var lowDiff: int := U8(Low4(0x10) - Low4(0x0F) - FromBool(!false));
    assert lowDiff == 0xF0 && U8(lowDiff + 10) == 0xFA;
    assert Sbc65C02LowDigit(false, 0x10, 0x0F) == LowDigit(0x0A, true, true);
    var highDiff: int := U8(High4(0x10) - High4(0x0F) - FromBool(true));
    assert highDiff == 0x00 && !Bit3(highDiff) && !IsNegative(highDiff);
    assert Low4(U8(highDiff - FromBool(true))) == 0x0F && Pack(0x0F, 0x0A) == 0xFA;
  }

  /** 9A + 00 in decimal mode (not valid BCD) on the 6502: both digits are corrected to 00 with C set, N set and Z clear. */
  lemma Adc6502DecimalInvalidBcd()
    ensures Adc6502Decimal(false, 0x9A, 0x00) == OpResult(0x00, true, false, false, true)
  {
    var lowSum := U8(Low4(0x9A) + Low4(0x00) + FromBool(false));
    var highSum := U8(High4(0x9A) + High4(0x00) + FromBool(lowSum > 9));
    assert U8(FromBool(false) + 0x9A + 0x00) == 0x9A;
    assert lowSum == 0x0A && highSum == 0x0A;
  }

  /** 9A + 00 in decimal mode (not valid BCD) on the 65C02: the same 00 with C set, but N clear and Z set. */
  lemma Adc65C02DecimalInvalidBcd()
    ensures Adc65C02Decimal(false, 0x9A, 0x00) == OpResult(0x00, false, false, true, true)
  {
    CrossChip.AdcDecimalChipsAgree(false, 0x9A, 0x00);
    Adc6502DecimalInvalidBcd();
  }

  /**
    On the 6502, decimal ADC's Z flag does not in general say whether the
    accumulator is zero: 99 + 01 is a counterexample.
   */
  lemma Adc6502DecimalZeroFlagIsNotAccumulatorZero()
    ensures !(forall carry: bool, a: Byte, op: Byte ::
                Adc6502Decimal(carry, a, op).flagZ <==> Adc6502Decimal(carry, a, op).accumulator == 0)
  {
    Adc6502DecimalZeroFlagQuirk();
  }

  /**
    On the 6502, decimal SBC's Z flag does not in general say whether the
    accumulator is zero: 10 - 0F with a borrow in is a counterexample.
   */
  lemma Sbc6502DecimalZeroFlagIsNotAccumulatorZero()
    ensures !(forall carry: bool, a: Byte, op: Byte ::
                Sbc6502Decimal(carry, a, op).flagZ <==> Sbc6502Decimal(carry, a, op).accumulator == 0)
  {
    Sbc6502DecimalZeroFlagQuirk();
  }
}
