/**
  Packed binary-coded decimal: a byte whose two nibbles are decimal digits
  holds a number from 0 to 99. This is the reference arithmetic that the
  decimal-mode engines are measured against.
 */
module Bcd {
  import opened Bytes

  /** Both nibbles of `b` are decimal digits. */
  predicate IsBcd(b: Byte) {
    High4(b) <= 9 && Low4(b) <= 9
  }

  /** The number 0..99 that a valid BCD byte denotes. */
  function Value(b: Byte): (r: nat)
    requires IsBcd(b)
    ensures r < 100
    ensures r % 10 == Low4(b) && r / 10 == High4(b)
  {
    10 * High4(b) + Low4(b)
  }

  /** The BCD byte that denotes `n`. */
  function Encode(n: nat): (r: Byte)
    requires n < 100
    ensures IsBcd(r)
    ensures High4(r) == n / 10 && Low4(r) == n % 10
  {
    Pack(n / 10, n % 10)
  }

  /** Encoding then reading back gives the number. */
  lemma ValueOfEncode(n: nat)
    requires n < 100
    ensures Value(Encode(n)) == n
  {
  }

  /** Reading a valid BCD byte then encoding gives the byte back. */
  lemma EncodeOfValue(b: Byte)
    requires IsBcd(b)
    ensures Encode(Value(b)) == b
  {
    assert b == High4(b) * 0x10 + Low4(b);
  }

  /** Division by 10 or 100 of a number given as quotient and remainder. */
  lemma DivModDecimal(x: int, q: int, r: int, d: int)
    requires d == 10 || d == 100
    requires x == d * q + r && 0 <= r < d
    ensures x / d == q && x % d == r
  {
  }

  /** The BCD byte for `10 * high + low` is the byte with those two digits. */
  lemma EncodeDigits(high: nat, low: nat)
    requires high <= 9 && low <= 9
    ensures Encode(10 * high + low) == Pack(high, low)
  {
    DivModDecimal(10 * high + low, high, low, 10);
  }

  /**
    Adding two BCD bytes a digit at a time, reducing a digit sum above 9 by
    10 and carrying 1 into the next digit, is BCD addition modulo 100 with
    the last carry as the hundreds digit.
   */
  lemma DigitSerialAddition(a: Byte, op: Byte, carry: nat)
    requires IsBcd(a) && IsBcd(op) && carry <= 1
    ensures var lowSum := Low4(a) + Low4(op) + carry;
      var lowCarry := lowSum > 9;
      var highSum := High4(a) + High4(op) + FromBool(lowCarry);
      var highCarry := highSum > 9;
      var sum := Value(a) + Value(op) + carry;
      && Pack(Low4(if highCarry then highSum - 10 else highSum), Low4(if lowCarry then lowSum - 10 else lowSum))
         == Encode(sum % 100)
      && (highCarry <==> sum >= 100)
  {
    var ha: int, la: int, ho: int, lo: int := High4(a), Low4(a), High4(op), Low4(op);
    assert Value(a) == 10 * ha + la;
    assert Value(op) == 10 * ho + lo;
    DigitSum(ha, la, ho, lo, carry);
  }

  /** `DigitSerialAddition` over plain decimal digits. */
  lemma DigitSum(ha: int, la: int, ho: int, lo: int, carry: int)
    requires 0 <= ha <= 9 && 0 <= la <= 9 && 0 <= ho <= 9 && 0 <= lo <= 9 && 0 <= carry <= 1
    ensures var lowSum := la + lo + carry;
      var lowCarry := lowSum > 9;
      var highSum := ha + ho + FromBool(lowCarry);
      var highCarry := highSum > 9;
      var sum := 10 * ha + la + 10 * ho + lo + carry;
      && Pack(Low4(if highCarry then highSum - 10 else highSum), Low4(if lowCarry then lowSum - 10 else lowSum))
         == Encode(sum % 100)
      && (highCarry <==> sum >= 100)
  {
    var lowSum: int := la + lo + carry;
    var lowCarry := lowSum > 9;
    var low := if lowCarry then lowSum - 10 else lowSum;
    var highSum: int := ha + ho + FromBool(lowCarry);
    var highCarry := highSum > 9;
    var high := if highCarry then highSum - 10 else highSum;
    var sum := 10 * ha + la + 10 * ho + lo + carry;
    assert Low4(high) == high && Low4(low) == low;
    assert sum == 100 * FromBool(highCarry) + 10 * high + low;
    DivModDecimal(sum, FromBool(highCarry), 10 * high + low, 100);
    EncodeDigits(high, low);
  }

  /**
    Subtracting two BCD bytes a digit at a time, raising a negative digit
    difference by 10 and borrowing 1 from the next digit, is BCD subtraction
    modulo 100, and the last borrow says whether the difference went below 0.
   */
  lemma DigitSerialSubtraction(a: Byte, op: Byte, borrow: nat)
    requires IsBcd(a) && IsBcd(op) && borrow <= 1
    ensures var lowDiff := Low4(a) - Low4(op) - borrow;
      var lowBorrow := lowDiff < 0;
      var highDiff := High4(a) - High4(op) - FromBool(lowBorrow);
      var highBorrow := highDiff < 0;
      var diff := Value(a) - Value(op) - borrow;
      && Pack(Low4(highDiff + 10 * FromBool(highBorrow)), Low4(lowDiff + 10 * FromBool(lowBorrow)))
         == Encode(diff % 100)
      && (highBorrow <==> diff < 0)
  {
    var lowDiff: int := Low4(a) - Low4(op) - borrow;
    var lowBorrow := lowDiff < 0;
    var low := lowDiff + 10 * FromBool(lowBorrow);
    var highDiff: int := High4(a) - High4(op) - FromBool(lowBorrow);
    var highBorrow := highDiff < 0;
    var high := highDiff + 10 * FromBool(highBorrow);
    var diff := Value(a) - Value(op) - borrow;
    assert Low4(high) == high && Low4(low) == low;
    assert diff == -100 * FromBool(highBorrow) + 10 * high + low;
    DivModDecimal(diff, if highBorrow then -1 else 0, 10 * high + low, 100);
    EncodeDigits(high, low);
  }
}
