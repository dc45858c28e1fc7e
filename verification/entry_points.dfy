/**
  The four public entry points: ADC and SBC for the 6502 and for the 65C02.
  Each runs the shared binary engine when the decimal flag is clear and the
  chip's own decimal engine when it is set. Their contracts say what a caller
  gets: two's complement arithmetic in binary mode, and BCD arithmetic in
  decimal mode whenever both operands are valid BCD.
 */
module EntryPoints {
  import opened Bytes
  import opened Bcd
  import opened AdcSbc
  import opened DecimalMode

  /** ADC on the 6502. */
  function Adc6502(decimal: bool, carry: bool, a: Byte, op: Byte): (r: OpResult)
    ensures !decimal ==> 0x100 * FromBool(r.flagC) + r.accumulator == FromBool(carry) + a + op
    ensures decimal && IsBcd(a) && IsBcd(op) ==>
      var sum := Value(a) + Value(op) + FromBool(carry);
      r.accumulator == Encode(sum % 100) && (r.flagC <==> sum >= 100)
    ensures r.flagZ == AdcBinary(carry, a, op).flagZ
  {
    if !decimal then AdcBinary(carry, a, op)
    else if IsBcd(a) && IsBcd(op) then
      Adc6502DecimalIsBcdAddition(carry, a, op);
      Adc6502Decimal(carry, a, op)
    else Adc6502Decimal(carry, a, op)
  }

  /** SBC on the 6502. */
  function Sbc6502(decimal: bool, carry: bool, a: Byte, op: Byte): (r: OpResult)
    ensures !decimal ==> r.accumulator - 0x100 * FromBool(!r.flagC) == a - op - FromBool(!carry)
    ensures decimal && IsBcd(a) && IsBcd(op) ==>
      var borrow := FromBool(!carry);
      r.accumulator == Encode((Value(a) - Value(op) - borrow) % 100) && (r.flagC <==> Value(a) >= Value(op) + borrow)
    ensures var binary := SbcBinary(carry, a, op);
      r.flagN == binary.flagN && r.flagV == binary.flagV && r.flagZ == binary.flagZ
  {
    if !decimal then SbcBinary(carry, a, op)
    else if IsBcd(a) && IsBcd(op) then
      Sbc6502DecimalIsBcdSubtraction(carry, a, op);
      Sbc6502Decimal(carry, a, op)
    else Sbc6502Decimal(carry, a, op)
  }

  /** ADC on the 65C02. */
  function Adc65C02(decimal: bool, carry: bool, a: Byte, op: Byte): (r: OpResult)
    ensures !decimal ==> 0x100 * FromBool(r.flagC) + r.accumulator == FromBool(carry) + a + op
    ensures decimal && IsBcd(a) && IsBcd(op) ==>
      var sum := Value(a) + Value(op) + FromBool(carry);
      r.accumulator == Encode(sum % 100) && (r.flagC <==> sum >= 100)
    ensures r.flagZ <==> r.accumulator == 0
  {
    if !decimal then AdcBinary(carry, a, op)
    else if IsBcd(a) && IsBcd(op) then
      Adc65C02DecimalIsBcdAddition(carry, a, op);
      Adc65C02Decimal(carry, a, op)
    else Adc65C02Decimal(carry, a, op)
  }

  /** SBC on the 65C02. */
  function Sbc65C02(decimal: bool, carry: bool, a: Byte, op: Byte): (r: OpResult)
    ensures !decimal ==> r.accumulator - 0x100 * FromBool(!r.flagC) == a - op - FromBool(!carry)
    ensures decimal && IsBcd(a) && IsBcd(op) ==>
      var borrow := FromBool(!carry);
      r.accumulator == Encode((Value(a) - Value(op) - borrow) % 100) && (r.flagC <==> Value(a) >= Value(op) + borrow)
    ensures r.flagZ <==> r.accumulator == 0
  {
    if !decimal then SbcBinary(carry, a, op)
    else if IsBcd(a) && IsBcd(op) then
      Sbc65C02DecimalIsBcdSubtraction(carry, a, op);
      Sbc65C02Decimal(carry, a, op)
    else Sbc65C02Decimal(carry, a, op)
  }

  /** With the decimal flag clear each entry point runs the shared binary engine. */
  lemma BinaryModeDispatch(carry: bool, a: Byte, op: Byte)
    ensures Adc6502(false, carry, a, op) == AdcBinary(carry, a, op)
    ensures Sbc6502(false, carry, a, op) == SbcBinary(carry, a, op)
    ensures Adc65C02(false, carry, a, op) == AdcBinary(carry, a, op)
    ensures Sbc65C02(false, carry, a, op) == SbcBinary(carry, a, op)
  {
  }

  /** With the decimal flag clear the two chips give identical results, all five fields. */
  lemma BinaryModeChipsAgree(carry: bool, a: Byte, op: Byte)
    ensures Adc6502(false, carry, a, op) == Adc65C02(false, carry, a, op)
    ensures Sbc6502(false, carry, a, op) == Sbc65C02(false, carry, a, op)
  {
  }

  /** With the decimal flag set each entry point runs its own chip's decimal engine. */
  lemma DecimalModeDispatch(carry: bool, a: Byte, op: Byte)
    ensures Adc6502(true, carry, a, op) == Adc6502Decimal(carry, a, op)
    ensures Sbc6502(true, carry, a, op) == Sbc6502Decimal(carry, a, op)
    ensures Adc65C02(true, carry, a, op) == Adc65C02Decimal(carry, a, op)
    ensures Sbc65C02(true, carry, a, op) == Sbc65C02Decimal(carry, a, op)
  {
  }
}
