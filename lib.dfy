/**
 * The 96-bit extended-precision floating point value of the Motorola 68881:
 * a 16-bit word holding the sign (bit 15) and the biased exponent (bits
 * 0-14), and a 64-bit significand with an explicit integer bit. Its lossy
 * conversion produces an IEEE 754 binary64 value (section 3.4 of IEEE
 * 754-2008: sign in bit 63, biased exponent in bits 52-62, fraction in bits
 * 0-51).
 *
 * The 16-bit and 64-bit words are unsigned integers of their width. The bit
 * operations the conversion uses are written as the arithmetic they amount
 * to: masking with 0x7FFF is the remainder by 0x8000, testing bit 15 is a
 * comparison with 0x8000, toggling bit 15 adds or subtracts 0x8000, and a
 * right shift by 11 is a division by 2^11.
 */
module Lib {

  newtype u16 = x: int | 0 <= x < 0x1_0000
  newtype u64 = x: int | 0 <= x < 0x1_0000_0000_0000_0000

  const SignBit: u16 := 0x8000
  const MaxExponent: u16 := 0x7FFF

  datatype Float96 = Float96(exponent: u16, significand: u64)

  /** Bit 15 of the exponent word. */
  predicate IsNegative(a: Float96)
  {
    a.exponent >= SignBit
  }

  /** Bits 0-14 of the exponent word (exponent & 0x7FFF): the biased exponent. */
  function BiasedExponent(a: Float96): (e: u16)
    ensures e <= MaxExponent
  {
    a.exponent % 0x8000
  }

  /** The unary minus: exponent ^ 0x8000, which toggles bit 15 and keeps the significand. */
  function Negate(a: Float96): (r: Float96)
    ensures r.significand == a.significand
    ensures BiasedExponent(r) == BiasedExponent(a)
    ensures IsNegative(r) != IsNegative(a)
  {
    Float96(if a.exponent >= SignBit then a.exponent - SignBit else a.exponent + SignBit, a.significand)
  }

  lemma NegateInvolution(a: Float96)
    ensures Negate(Negate(a)) == a
  {
  }

  /** Zero of either sign: significand and biased exponent are both zero. */
  predicate IsZero(a: Float96)
    ensures IsZero(a) <==> a.significand == 0 && (a.exponent == 0 || a.exponent == SignBit)
  {
    a.significand == 0 && BiasedExponent(a) == 0
  }

  lemma IsZeroIgnoresSign(a: Float96)
    ensures IsZero(Negate(a)) == IsZero(a)
  {
  }

  // ---------------------------------------------------------------------
  // IEEE 754 binary64 values, by field.

  const TwoTo52: int := 0x10_0000_0000_0000

  /** A binary64 value as its three fields: sign, biased exponent and fraction. */
  datatype Binary64 = Binary64(negative: bool, biasedExponent: int, fraction: int)

  predicate ValidBinary64(d: Binary64)
  {
    0 <= d.biasedExponent < 0x800 && 0 <= d.fraction < TwoTo52
  }

  /** The 64-bit pattern of a binary64: sign in bit 63, exponent in bits 52-62, fraction in bits 0-51. */
  function Bits(d: Binary64): (b: u64)
    requires ValidBinary64(d)
  {
    ((if d.negative then 0x8000_0000_0000_0000 else 0) + d.biasedExponent * TwoTo52 + d.fraction) as u64
  }

  /** The fields can be read back from the pattern, so the pattern determines the value. */
  lemma BitsFields(d: Binary64)
    requires ValidBinary64(d)
    ensures (Bits(d) as int) / 0x8000_0000_0000_0000 == if d.negative then 1 else 0
    ensures (Bits(d) as int) / TwoTo52 % 0x800 == d.biasedExponent
    ensures (Bits(d) as int) % TwoTo52 == d.fraction
  {
  }

  function SignedZero(negative: bool): Binary64 { Binary64(negative, 0, 0) }
  function SignedInfinity(negative: bool): Binary64 { Binary64(negative, 0x7FF, 0) }
  /** The runtime's NaN constant: a quiet NaN with the sign bit set. */
  const QuietNaN := Binary64(true, 0x7FF, 0x8_0000_0000_0000)

  predicate IsNaN(d: Binary64) { d.biasedExponent == 0x7FF && d.fraction != 0 }
  predicate IsInfinity(d: Binary64) { d.biasedExponent == 0x7FF && d.fraction == 0 }
  /** A subnormal binary64: exponent field zero, fraction not zero, read without an implicit leading one. */
  predicate IsSubnormal(d: Binary64) { d.biasedExponent == 0 && d.fraction != 0 }

  lemma SpecialPatterns()
    ensures Bits(SignedZero(false)) == 0 && Bits(SignedZero(true)) == 0x8000_0000_0000_0000
    ensures Bits(SignedInfinity(false)) == 0x7FF0_0000_0000_0000 && Bits(SignedInfinity(true)) == 0xFFF0_0000_0000_0000
    ensures Bits(QuietNaN) == 0xFFF8_0000_0000_0000 && IsNaN(QuietNaN)
  {
  }

  /** The unbiased exponent ee of `a`: the biased exponent minus the bias 0x3FFF. */
  function UnbiasedExponent(a: Float96): int
  {
    BiasedExponent(a) as int - 0x3FFF
  }

  /**
   * A finite value with unbiased exponent `ee`: `ee` rebiased by 1023 as the
   * exponent field and bits 11-62 of the significand as the fraction (bit
   * 63, the explicit integer bit, and bits 0-10 are dropped).
   */
  function Compose(negative: bool, ee: int, significand: u64): (d: Binary64)
    requires -1023 <= ee <= 1023
    ensures ValidBinary64(d)
  {
    Binary64(negative, ee + 1023, (significand as int / 0x800) % TwoTo52)
  }

  /**
   * ToDouble exactly as the conversion is written: it underflows to zero
   * only when the unbiased exponent is below -1023, so an unbiased exponent
   * of exactly -1023 is encoded with exponent field 0.
   */
  function ToDoubleAsWritten(a: Float96): (d: Binary64)
    ensures ValidBinary64(d)
  {
    var negative := IsNegative(a);
    var e := BiasedExponent(a);
    if e == 0 then SignedZero(negative)
    else if e == MaxExponent then
      (if a.significand == 0 then SignedInfinity(negative) else QuietNaN)
    else
      var ee := UnbiasedExponent(a);
      if ee < -1023 then SignedZero(negative)
      else if ee > 1023 then SignedInfinity(negative)
      else Compose(negative, ee, a.significand)
  }

  /** The boundary case: 1.5 * 2^-1023 comes out as the subnormal pattern of 2^-1023. */
  lemma AsWrittenProducesSubnormal()
    ensures UnbiasedExponent(Float96(0x3C00, 0xC000_0000_0000_0000)) == -1023
    ensures ToDoubleAsWritten(Float96(0x3C00, 0xC000_0000_0000_0000)) == Binary64(false, 0, 0x8_0000_0000_0000)
    ensures Bits(ToDoubleAsWritten(Float96(0x3C00, 0xC000_0000_0000_0000))) == 0x0008_0000_0000_0000
    ensures IsSubnormal(ToDoubleAsWritten(Float96(0x3C00, 0xC000_0000_0000_0000)))
  {
  }

  /**
   * The conversion to binary64, with the underflow bound that the absence of
   * subnormal results calls for: an unbiased exponent below -1022 underflows
   * to zero.
   */
  function ToDouble(a: Float96): (d: Binary64)
    ensures ValidBinary64(d)
  {
    var negative := IsNegative(a);
    var e := BiasedExponent(a);
    if e == 0 then SignedZero(negative)
    else if e == MaxExponent then
      (if a.significand == 0 then SignedInfinity(negative) else QuietNaN)
    else
      var ee := UnbiasedExponent(a);
      if ee < -1022 then SignedZero(negative)
      else if ee > 1023 then SignedInfinity(negative)
      else Compose(negative, ee, a.significand)
  }

  /** The bit pattern the conversion hands to the runtime. */
  function ToDoubleBits(a: Float96): u64
  {
    Bits(ToDouble(a))
  }

  /** A zero biased exponent gives zero of the input's sign, whatever the significand. */
  lemma ToDoubleZeroExponent(a: Float96)
    requires BiasedExponent(a) == 0
    ensures ToDouble(a) == SignedZero(IsNegative(a))
    ensures ToDoubleAsWritten(a) == ToDouble(a)
  {
  }

  /** The maximal biased exponent gives signed infinity for a zero significand and NaN otherwise. */
  lemma ToDoubleMaxExponent(a: Float96)
    requires BiasedExponent(a) == MaxExponent
    ensures a.significand == 0 ==> ToDouble(a) == SignedInfinity(IsNegative(a)) && IsInfinity(ToDouble(a))
    ensures a.significand != 0 ==> IsNaN(ToDouble(a))
    ensures ToDoubleAsWritten(a) == ToDouble(a)
  {
  }

  /** Exponents outside the binary64 range underflow to signed zero or overflow to signed infinity. */
  lemma ToDoubleOutOfRange(a: Float96)
    requires 0 < BiasedExponent(a) < MaxExponent
    ensures UnbiasedExponent(a) < -1022 ==> ToDouble(a) == SignedZero(IsNegative(a))
    ensures UnbiasedExponent(a) < -1023 ==> ToDoubleAsWritten(a) == SignedZero(IsNegative(a))
    ensures UnbiasedExponent(a) > 1023 ==> ToDouble(a) == SignedInfinity(IsNegative(a)) == ToDoubleAsWritten(a)
  {
  }

  /**
   * In range, the result carries the input's sign, the unbiased exponent
   * rebiased by 1023 (between 1 and 2046, so neither the code of zeros and
   * subnormals nor the all-ones code of infinities and NaNs) and bits 11-62
   * of the significand.
   */
  lemma ToDoubleInRange(a: Float96)
    requires 0 < BiasedExponent(a) < MaxExponent
    requires -1022 <= UnbiasedExponent(a) <= 1023
    ensures ToDouble(a).negative == IsNegative(a)
    ensures ToDouble(a).biasedExponent == UnbiasedExponent(a) + 1023
    ensures 1 <= ToDouble(a).biasedExponent <= 2046
    ensures ToDouble(a).fraction == (a.significand as int / 0x800) % TwoTo52
    ensures ToDoubleAsWritten(a) == ToDouble(a)
  {
  }

  /** The conversion never yields a subnormal pattern. */
  lemma ToDoubleNeverSubnormal(a: Float96)
    ensures !IsSubnormal(ToDouble(a))
  {
  }

  /** The two conversions differ only at the unbiased exponent -1023. */
  lemma ToDoubleAgreesOffBoundary(a: Float96)
    requires UnbiasedExponent(a) != -1023
    ensures ToDoubleAsWritten(a) == ToDouble(a)
  {
  }

  /** Negating the input flips the sign of every result but NaN. */
  lemma ToDoubleNegate(a: Float96)
    ensures !IsNaN(ToDouble(a)) ==> ToDouble(Negate(a)) == ToDouble(a).(negative := !ToDouble(a).negative)
    ensures IsNaN(ToDouble(a)) ==> ToDouble(Negate(a)) == ToDouble(a)
  {
  }

  // ---------------------------------------------------------------------
  // The IConvertible conversions.

  datatype ConversionTarget =
    | Boolean | Char | SByte | Byte | Int16 | UInt16 | Int32 | UInt32
    | Int64 | UInt64 | Single | Decimal | DateTime | OtherType

  /** The outcome of a conversion: a value, an invalid-cast failure, or a not-implemented failure. */
  datatype Conversion = Converted(value: int) | InvalidCast(target: ConversionTarget) | NotImplemented

  /**
   * Byte succeeds (with 0) exactly for zeros; Boolean, Char, SByte and
   * DateTime always fail as invalid casts; the other numeric targets are
   * not implemented.
   */
  function Convert(a: Float96, target: ConversionTarget): (r: Conversion)
    ensures r.Converted? <==> target == Byte && IsZero(a)
    ensures r.Converted? ==> r.value == 0
    ensures r.InvalidCast? <==> target in {Boolean, Char, SByte, DateTime} || (target == Byte && !IsZero(a))
    ensures r.InvalidCast? ==> r.target == target
  {
    match target
    case Boolean => InvalidCast(Boolean)
    case Char => InvalidCast(Char)
    case SByte => InvalidCast(SByte)
    case Byte => if IsZero(a) then Converted(0) else InvalidCast(Byte)
    case DateTime => InvalidCast(DateTime)
    case _ => NotImplemented
  }

  /** A conversion does not depend on the sign. */
  lemma ConvertIgnoresSign(a: Float96, target: ConversionTarget)
    ensures Convert(Negate(a), target) == Convert(a, target)
  {
    IsZeroIgnoresSign(a);
  }
}
