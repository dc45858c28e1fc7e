/**
  Binary-mode ADC and SBC, shared by the 6502 and the 65C02, read as
  unsigned and two's complement arithmetic.
 */
module BinaryMode {
  import opened Bytes
  import opened AdcSbc

  /** Binary ADC does not depend on the order of accumulator and operand. */
  lemma AdcBinaryCommutes(carry: bool, a: Byte, op: Byte)
    ensures AdcBinary(carry, a, op) == AdcBinary(carry, op, a)
  {
  }

  /** Adding zero without carry leaves the accumulator as it was and clears C and V. */
  lemma AdcBinaryZeroIsIdentity(a: Byte)
    ensures AdcBinary(false, a, 0) == OpResult(a, a >= 0x80, false, a == 0, false)
  {
  }

  /**
    V after binary ADC: the operands have the same sign and the result's sign
    differs, which is exactly when the signed sum leaves -128..127.
   */
  lemma AdcBinaryOverflow(carry: bool, a: Byte, op: Byte)
    ensures var r := AdcBinary(carry, a, op);
      r.flagV <==> IsNegative(a) == IsNegative(op) && IsNegative(r.accumulator) != IsNegative(a)
    ensures var r := AdcBinary(carry, a, op);
      var signedSum := Signed(a) + Signed(op) + FromBool(carry);
      r.flagV <==> !(-0x80 <= signedSum < 0x80)
  {
    var r := AdcBinary(carry, a, op);
    var signedSum := Signed(a) + Signed(op) + FromBool(carry);
    var sum := a + op + FromBool(carry);
    assert signedSum == sum - 0x100 * (FromBool(IsNegative(a)) + FromBool(IsNegative(op)));
    assert r.accumulator == sum - 0x100 * FromBool(r.flagC);
  }

  /** Binary SBC is binary ADC with the operand complemented, in all five result fields. */
  lemma SbcBinaryIsAdcOfComplement(carry: bool, a: Byte, op: Byte)
    ensures SbcBinary(carry, a, op) == AdcBinary(carry, a, 0xFF - op)
  {
    var s, t := SbcBinary(carry, a, op), AdcBinary(carry, a, 0xFF - op);
    assert FromBool(carry) + a + (0xFF - op) == (a - op - FromBool(!carry)) + 0x100;
    assert s.accumulator == t.accumulator;
  }

  /** V after binary SBC: the signed difference leaves -128..127. */
  lemma SbcBinaryOverflow(carry: bool, a: Byte, op: Byte)
    ensures var r := SbcBinary(carry, a, op);
      var signedDiff := Signed(a) - Signed(op) - FromBool(!carry);
      r.flagV <==> !(-0x80 <= signedDiff < 0x80)
  {
    SbcBinaryIsAdcOfComplement(carry, a, op);
    AdcBinaryOverflow(carry, a, 0xFF - op);
    assert Signed(0xFF - op) == -Signed(op) - 1;
  }
}
