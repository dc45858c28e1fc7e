# ADC and SBC of the 6502 and the 65C02

A model of `adc_and_sbc.c`: the add-with-carry (ADC) and subtract-with-borrow
(SBC) arithmetic of the NMOS 6502 and the WDC 65C02, in binary and in decimal
(BCD) mode. Each instruction is a total function of the decimal flag, the
carry flag, the accumulator and the operand. It returns an `OpResult`: the new
accumulator and the N, V, Z and C flags, as in the `OpResult` record of
`adc_and_sbc.h:12-19`.

The project is organised as follows:

- `bytes.dfy` (`Bytes`): bytes and nibbles as bounded integers. It has the
  `uint8_t` truncation `U8` and the nibble operations `Low4`, `High4` and
  `Pack`. The lemmas `IsNegativeIsMask`, `Bit3IsMask`, `NibblesAreBitwise`
  and `PackIsBitwise` show, over `bv8`, that these integer operations are the
  C code's bit operations (`& 0x80`, `& 8`, `& 15`, `>> 4` and
  `(h << 4) | l`).
- `adc_and_sbc.dfy` (`AdcSbc`): the six engines. They are binary ADC and SBC,
  shared by both chips, and decimal ADC and SBC for each chip. Each follows
  the C code step by step, with every `uint8_t` wrap-around written out.
- `bcd.dfy` (`Bcd`): packed BCD, meaning the value of a BCD byte and the
  encoding of 0..99. This is the reference arithmetic the decimal engines are
  measured against. `ValueOfEncode` and `EncodeOfValue` show that `Value` and
  `Encode` are inverse on 0..99 and on valid BCD bytes.
- `binary_mode.dfy`, `decimal_mode.dfy`, `cross_chip.dfy`: what the engines
  compute, in terms of that reference and of each other.
- `entry_points.dfy` (`EntryPoints`): the four public functions.
- `vectors.dfy` (`Vectors`): concrete inputs. They exhibit the 6502's
  decimal-mode flag quirks and the points where the two chips differ.

On the 6502 the Z flag after a decimal-mode ADC or SBC is the binary-mode Z
flag. It need not describe the accumulator. 99 + 01 gives accumulator 00 with
Z clear. 10 − 0F with a borrow in gives accumulator 0A with Z set. The model
follows the code here, not the general claim that Z means "accumulator is
zero". `Vectors.Adc6502DecimalZeroFlagIsNotAccumulatorZero` and
`Vectors.Sbc6502DecimalZeroFlagIsNotAccumulatorZero` prove that no such law
holds for the 6502's decimal engines. On the 65C02 it does hold.

## Model

| member | source | states |
|---|---|---|
| AdcSbc.AdcBinary | adc_and_sbc.c:14-28 | Carry and accumulator together are the exact 9-bit sum carry + A + operand; Z iff the accumulator is 0; N iff it is 0x80 or above |
| AdcSbc.SbcBinary | adc_and_sbc.c:30-48 | The accumulator, less 256 when C is clear (a borrow went out), is exactly A − operand − borrow in; Z and N describe the accumulator |
| AdcSbc.Adc6502Decimal | adc_and_sbc.c:56-93 | 6502 decimal ADC sets Z as binary ADC does, whatever the corrected accumulator; its accumulator, C, N and V are stated by `DecimalMode.Adc6502DecimalDigits` |
| AdcSbc.Sbc6502Decimal | adc_and_sbc.c:95-129 | 6502 decimal SBC sets N, V and Z exactly as binary SBC does; its accumulator and C are stated by `DecimalMode.Sbc6502DecimalDigits` |
| AdcSbc.Adc65C02Decimal | adc_and_sbc.c:137-167 | 65C02 decimal ADC reads Z and N from the corrected accumulator; its accumulator, V and C are the 6502's by `CrossChip.AdcDecimalChipsAgree` |
| AdcSbc.Sbc65C02LowDigit | adc_and_sbc.c:175-182 | The low digit borrows iff the low digit difference is negative; it is still negative after adding 10 iff that difference is below −10; the nibble is the difference raised by 10 on a borrow, modulo 16 |
| AdcSbc.Sbc65C02Decimal | adc_and_sbc.c:169-201 | 65C02 decimal SBC reads Z and N from the corrected accumulator; its accumulator and C are stated by `CrossChip.SbcDecimalChipsAgree` and its V by `CrossChip.SbcDecimalOverflowIsBinary` |
| BinaryMode.AdcBinaryCommutes | adc_and_sbc.c:14-28 | Binary ADC gives the same five results with accumulator and operand swapped |
| BinaryMode.AdcBinaryZeroIsIdentity | adc_and_sbc.c:14-28 | Adding 0 without carry keeps the accumulator and clears C and V |
| BinaryMode.AdcBinaryOverflow | adc_and_sbc.c:18-23 | V iff both operands have the same sign and the result's sign differs, iff the signed sum leaves −128..127 |
| BinaryMode.SbcBinaryIsAdcOfComplement | adc_and_sbc.c:30-48 | Binary SBC equals binary ADC of the one's complement of the operand, in all five fields |
| BinaryMode.SbcBinaryOverflow | adc_and_sbc.c:36-43 | V after binary SBC iff the signed difference A − operand − borrow leaves −128..127 |
| DecimalMode.Adc6502DecimalDigits | adc_and_sbc.c:70-90 | 6502 decimal ADC reduces each digit sum above 9 by 10 and carries 1, and C is the last carry; N is bit 3 of the high digit sum before correction; V compares that N with the operands' signs |
| DecimalMode.Adc65C02DecimalDigits | adc_and_sbc.c:141-164 | 65C02 decimal ADC computes the same corrected digits and carry |
| DecimalMode.Sbc6502DecimalDigits | adc_and_sbc.c:113-126 | 6502 decimal SBC raises each negative digit difference by 10 and borrows 1; C is clear iff the high digit borrowed |
| DecimalMode.Sbc65C02DecimalDigits | adc_and_sbc.c:173-198 | 65C02 decimal SBC computes the 6502's digits, except that the high digit is lowered by 1 more when the low digit difference is below −10 |
| DecimalMode.Sbc65C02HighCorrection | adc_and_sbc.c:184-192 | The 65C02 high-digit correction in 8-bit arithmetic leaves the same nibble as the plain integer computation |
| DecimalMode.Adc6502DecimalIsBcdAddition | adc_and_sbc.c:56-93 | On valid BCD operands, 6502 decimal ADC gives the BCD encoding of (A + operand + carry) mod 100, with C set iff the sum reaches 100 |
| DecimalMode.Sbc6502DecimalIsBcdSubtraction | adc_and_sbc.c:95-129 | On valid BCD operands, 6502 decimal SBC gives the BCD encoding of (A − operand − borrow) mod 100, with C set iff no decimal borrow |
| DecimalMode.Sbc65C02NoExtraDecrementOnBcd | adc_and_sbc.c:175-181 | On valid BCD operands the low digit is never still negative, so the 65C02's extra decrement never happens |
| DecimalMode.Adc65C02DecimalIsBcdAddition | adc_and_sbc.c:137-167 | On valid BCD operands, 65C02 decimal ADC is BCD addition modulo 100 with C as the decimal carry |
| DecimalMode.Sbc65C02DecimalIsBcdSubtraction | adc_and_sbc.c:169-201 | On valid BCD operands, 65C02 decimal SBC is BCD subtraction modulo 100 with C clear exactly on a decimal borrow |
| CrossChip.AdcDecimalChipsAgree | adc_and_sbc.c:137-167 | For every input, 65C02 decimal ADC has the 6502's accumulator, V and C; its Z and N describe the accumulator |
| CrossChip.SbcDecimalChipsAgree | adc_and_sbc.c:169-201 | For every input, 65C02 decimal SBC has the 6502's C and low digit; its high digit is the 6502's minus 1 (mod 16) exactly when the low digit difference is −11 or less, and equal otherwise |
| CrossChip.SbcDecimalOverflowIsBinary | adc_and_sbc.c:184-196 | For every input, 65C02 decimal SBC sets V exactly as binary SBC and the 6502's decimal SBC do: bit 3 of the uncorrected high-digit difference is the sign bit of the binary difference |
| CrossChip.SbcCorrectedHighDigits | adc_and_sbc.c:187-192 | Subtracting the still-negative bit after the +10 correction lowers the corrected high digit by 1 mod 16 iff the low difference is −11 or less |
| EntryPoints.Adc6502 | adc_and_sbc.c:209-213 | Binary mode gives the exact 9-bit sum in C and accumulator; decimal mode on BCD operands gives BCD addition; Z is always binary ADC's Z |
| EntryPoints.Sbc6502 | adc_and_sbc.c:215-219 | Binary mode gives the exact difference; decimal mode on BCD operands gives BCD subtraction; N, V and Z are always binary SBC's |
| EntryPoints.Adc65C02 | adc_and_sbc.c:221-225 | Binary mode gives the exact 9-bit sum; decimal mode on BCD operands gives BCD addition; Z iff the accumulator is 0 |
| EntryPoints.Sbc65C02 | adc_and_sbc.c:227-231 | Binary mode gives the exact difference; decimal mode on BCD operands gives BCD subtraction; Z iff the accumulator is 0 |
| EntryPoints.BinaryModeDispatch | adc_and_sbc.c:209-231 | With the decimal flag clear, every entry point returns the shared binary engine's result |
| EntryPoints.BinaryModeChipsAgree | adc_and_sbc.c:209-231 | With the decimal flag clear, the 6502 and 65C02 entry points agree in all five fields |
| EntryPoints.DecimalModeDispatch | adc_and_sbc.c:209-231 | With the decimal flag set, every entry point returns its own chip's decimal engine's result |
| Vectors.Adc6502DecimalFivePlusFive | adc_and_sbc.c:70-90 | 05 + 05 in decimal mode on the 6502 is 10 with all flags clear |
| Vectors.Adc65C02DecimalFivePlusFive | adc_and_sbc.c:141-164 | 05 + 05 in decimal mode on the 65C02 is 10 with all flags clear |
| Vectors.Sbc6502DecimalZeroMinusOne | adc_and_sbc.c:113-126 | 00 − 01 in decimal mode on the 6502 is 99 with N set and C clear |
| Vectors.Sbc65C02DecimalZeroMinusOne | adc_and_sbc.c:175-198 | 00 − 01 in decimal mode on the 65C02 is 99 with N set and C clear |
| Vectors.Adc6502DecimalZeroFlagQuirk | adc_and_sbc.c:63-81 | 99 + 01 in decimal mode on the 6502 gives 00 with C set, Z clear and N set |
| Vectors.Adc65C02DecimalHundred | adc_and_sbc.c:137-167 | 99 + 01 in decimal mode on the 65C02 gives 00 with C and Z set and N clear |
| Vectors.Sbc6502DecimalZeroFlagQuirk | adc_and_sbc.c:106-109 | 10 − 0F with a borrow in, on the 6502, gives 0A with Z set |
| Vectors.Sbc65C02DecimalExtraDecrement | adc_and_sbc.c:180-192 | 10 − 0F with a borrow in, on the 65C02, gives FA: the extra high-digit decrement |
| Vectors.Adc6502DecimalInvalidBcd | adc_and_sbc.c:72-90 | 9A + 00 in decimal mode on the 6502 is corrected to 00 with C and N set and Z clear |
| Vectors.Adc65C02DecimalInvalidBcd | adc_and_sbc.c:141-164 | 9A + 00 in decimal mode on the 65C02 is corrected to 00 with C and Z set |
| Vectors.Adc6502DecimalZeroFlagIsNotAccumulatorZero | adc_and_sbc.c:63-66 | No law "Z iff accumulator is 0" holds for 6502 decimal ADC over all inputs |
| Vectors.Sbc6502DecimalZeroFlagIsNotAccumulatorZero | adc_and_sbc.c:106-109 | No law "Z iff accumulator is 0" holds for 6502 decimal SBC over all inputs |
| Bytes.IsNegativeIsMask | adc_and_sbc.c:60-61 | A byte is 0x80 or above iff `b & 0x80` is non-zero, so the two sign tests of the source agree |
| Bytes.Bit3IsMask | adc_and_sbc.c:81 | `Bit3` is the test `b & 8 != 0` |
| Bytes.NibblesAreBitwise | adc_and_sbc.c:72-78 | `Low4` and `High4` are `b & 15` and `b >> 4` |
| Bytes.PackIsBitwise | adc_and_sbc.c:89 | `Pack` of two nibbles is `high << 4` bitwise-or `low` |

## Left out

- The test harness and tooling are not part of this model, because they drive or report on the arithmetic but are not part of it. This covers `sim65-test.c`, `sim65_test.c`, `sim65-testcase.c`/`.h`, the Python scripts, and the memory, paravirtualisation and error headers.
- Memory, instruction decoding and cycle timing are not modelled; the core receives the operand already fetched.
- Z flag as "accumulator is zero": the general description that every engine sets Z iff the accumulator is 0 is not stated for the 6502 decimal engines. The source contradicts it for them (see the vectors above). It is stated, and proved, for the binary engines and the 65C02 decimal engines.
- Binary-coded decimal results on invalid BCD operands are not related to a reference arithmetic. The source gives them no decimal meaning. The digit-level lemmas and cross-chip lemmas still state every result field on those inputs exactly.
