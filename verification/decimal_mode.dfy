/**
  Decimal-mode ADC and SBC read digit by digit, and measured against packed
  BCD arithmetic.

  The `...Digits` lemmas restate each decimal engine without the `uint8_t`
  truncations: every intermediate is a small integer, and the accumulator is
  the packed pair of corrected digits. The BCD lemmas then show that on valid
  BCD operands both chips perform decimal addition and subtraction modulo 100.
 */
module DecimalMode {
  import opened Bytes
  import opened Bcd
  import opened AdcSbc

  /**
    6502 decimal ADC as digit arithmetic: each digit sum above 9 is reduced
    by 10 and carries into the next. N is bit 3 of the high digit sum before
    that reduction, and V compares N with the operands' signs.
   */
  lemma Adc6502DecimalDigits(carry: bool, a: Byte, op: Byte)
    ensures var lowSum := Low4(a) + Low4(op) + FromBool(carry);
      var lowCarry := lowSum > 9;
      var highSum := High4(a) + High4(op) + FromBool(lowCarry);
      var highCarry := highSum > 9;
      var r := Adc6502Decimal(carry, a, op);
      && r.accumulator == Pack(Low4(if highCarry then highSum - 10 else highSum), Low4(if lowCarry then lowSum - 10 else lowSum))
      && r.flagC == highCarry
      && (r.flagN <==> Low4(highSum) >= 8)
      && (r.flagV <==> (IsNegative(a) != r.flagN) && (IsNegative(op) != r.flagN))
  {
  }

  /** 65C02 decimal ADC as digit arithmetic: the same digit computation as on the 6502. */
  lemma Adc65C02DecimalDigits(carry: bool, a: Byte, op: Byte)
    ensures var lowSum := Low4(a) + Low4(op) + FromBool(carry);
      var lowCarry := lowSum > 9;
      var highSum := High4(a) + High4(op) + FromBool(lowCarry);
      var highCarry := highSum > 9;
      var r := Adc65C02Decimal(carry, a, op);
      && r.accumulator == Pack(Low4(if highCarry then highSum - 10 else highSum), Low4(if lowCarry then lowSum - 10 else lowSum))
      && r.flagC == highCarry
  {
  }

  /** 6502 decimal SBC as digit arithmetic: each negative digit difference is raised by 10 and borrows from the next. */
  lemma Sbc6502DecimalDigits(carry: bool, a: Byte, op: Byte)
    ensures var lowDiff := Low4(a) - Low4(op) - FromBool(!carry);
      var lowBorrow := lowDiff < 0;
      var highDiff := High4(a) - High4(op) - FromBool(lowBorrow);
      var highBorrow := highDiff < 0;
      var r := Sbc6502Decimal(carry, a, op);
      && r.accumulator == Pack(Low4(highDiff + 10 * FromBool(highBorrow)), Low4(lowDiff + 10 * FromBool(lowBorrow)))
      && r.flagC == !highBorrow
  {
    var lowDiff := Low4(a) - Low4(op) - FromBool(!carry);
    Low4OfU8(lowDiff, 10);
    var highDiff := High4(a) - High4(op) - FromBool(lowDiff < 0);
    Low4OfU8(highDiff, 10);
  }

  /**
    65C02 decimal SBC as digit arithmetic: as on the 6502, except that the
    high digit is lowered by one more when the low digit difference is
    below -10.
   */
  lemma Sbc65C02DecimalDigits(carry: bool, a: Byte, op: Byte)
    ensures var lowDiff := Low4(a) - Low4(op) - FromBool(!carry);
      var lowBorrow := lowDiff < 0;
      var stillNegative := lowDiff < -10;
      var highDiff := High4(a) - High4(op) - FromBool(lowBorrow);
      var highBorrow := highDiff < 0;
      var r := Sbc65C02Decimal(carry, a, op);
      && r.accumulator
         == Pack(Low4(highDiff + 10 * FromBool(highBorrow) - FromBool(stillNegative)), Low4(lowDiff + 10 * FromBool(lowBorrow)))
      && r.flagC == !highBorrow
  {
    var lowDiff := Low4(a) - Low4(op) - FromBool(!carry);
    Sbc65C02HighCorrection(High4(a) - High4(op) - FromBool(lowDiff < 0), FromBool(lowDiff < -10));
  }

  /**
    The 65C02's high-digit correction in `uint8_t` arithmetic (add 10 after a
    borrow, then subtract the still-negative bit, then mask) leaves the same
    nibble as the plain integer computation.
   */
  lemma Sbc65C02HighCorrection(highDiff: int, stillNegative: int)
    requires -16 <= highDiff < 16 && 0 <= stillNegative <= 1
    ensures var highDiff8 := U8(highDiff);
      var corrected := if IsNegative(highDiff8) then U8(highDiff8 + 10) else highDiff8;
      Low4(U8(corrected - stillNegative)) == Low4(highDiff + 10 * FromBool(highDiff < 0) - stillNegative)
  {
    var highDiff8: int := U8(highDiff);
    var corrected := if highDiff < 0 then U8(highDiff8 + 10) else highDiff8;
    Low4OfU8(corrected - stillNegative, 0);
    if highDiff < 0 {
      Low4OfU8(highDiff8 + 10, -stillNegative);
      Low4OfU8(highDiff, 10 - stillNegative);
    }
  }

  /** On valid BCD operands, 6502 decimal ADC is BCD addition modulo 100 with C as the decimal carry. */
  lemma Adc6502DecimalIsBcdAddition(carry: bool, a: Byte, op: Byte)
    requires IsBcd(a) && IsBcd(op)
    ensures var r := Adc6502Decimal(carry, a, op);
      var sum := Value(a) + Value(op) + FromBool(carry);
      && r.accumulator == Encode(sum % 100)
      && (r.flagC <==> sum >= 100)
  {
    Adc6502DecimalDigits(carry, a, op);
    DigitSerialAddition(a, op, FromBool(carry));
  }

  /** On valid BCD operands, 6502 decimal SBC is BCD subtraction modulo 100 with C clear exactly on a decimal borrow. */
  lemma Sbc6502DecimalIsBcdSubtraction(carry: bool, a: Byte, op: Byte)
    requires IsBcd(a) && IsBcd(op)
    ensures var r := Sbc6502Decimal(carry, a, op);
      var borrow := FromBool(!carry);
      && r.accumulator == Encode((Value(a) - Value(op) - borrow) % 100)
      && (r.flagC <==> Value(a) >= Value(op) + borrow)
  {
    Sbc6502DecimalDigits(carry, a, op);
    DigitSerialSubtraction(a, op, FromBool(!carry));
  }

  /** On valid BCD operands the 65C02's extra high-digit decrement never happens. */
  lemma Sbc65C02NoExtraDecrementOnBcd(carry: bool, a: Byte, op: Byte)
    requires IsBcd(a) && IsBcd(op)
    ensures !Sbc65C02LowDigit(carry, a, op).stillNegative
  {
  }

  /** On valid BCD operands, 65C02 decimal ADC is BCD addition modulo 100 with C as the decimal carry. */
  lemma Adc65C02DecimalIsBcdAddition(carry: bool, a: Byte, op: Byte)
    requires IsBcd(a) && IsBcd(op)
    ensures var r := Adc65C02Decimal(carry, a, op);
      var sum := Value(a) + Value(op) + FromBool(carry);
      && r.accumulator == Encode(sum % 100)
      && (r.flagC <==> sum >= 100)
  {
    Adc6502DecimalDigits(carry, a, op);
    Adc65C02DecimalDigits(carry, a, op);
    Adc6502DecimalIsBcdAddition(carry, a, op);
  }

  /** On valid BCD operands, 65C02 decimal SBC is BCD subtraction modulo 100 with C clear exactly on a decimal borrow. */
  lemma Sbc65C02DecimalIsBcdSubtraction(carry: bool, a: Byte, op: Byte)
    requires IsBcd(a) && IsBcd(op)
    ensures var r := Sbc65C02Decimal(carry, a, op);
      var borrow := FromBool(!carry);
      && r.accumulator == Encode((Value(a) - Value(op) - borrow) % 100)
      && (r.flagC <==> Value(a) >= Value(op) + borrow)
  {
    Sbc6502DecimalDigits(carry, a, op);
    Sbc65C02DecimalDigits(carry, a, op);
    Sbc6502DecimalIsBcdSubtraction(carry, a, op);
  }
}
