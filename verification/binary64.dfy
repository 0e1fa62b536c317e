/** The register as an IEEE 754 binary64 datum: bit 63 is the sign, bits 52..62 the biased
    exponent (bit 62 most significant), bits 0..51 the fraction (bit 51 most significant);
    and the decoder of `ieee754_breakdown`, which classifies the datum and gives its value. */
module Binary64 {
  import opened Binary

  const Bias := 1023
  const MaxBiased := 2047

  /** The 64 bits of the register, bit `i` at index `i`. */
  type Bits64 = r: seq<bool> | |r| == 64 witness seq(64, i => false)

  lemma Pow2Constants()
    ensures Pow2(11) == 2048 && Pow2(52) == 0x10_0000_0000_0000 && Pow2(63) == 0x8000_0000_0000_0000
  {
    assert Pow2(13) == 8192;
    Pow2Add(13, 13);
    Pow2Add(26, 26);
    assert Pow2(11) == 2048;
    Pow2Add(52, 11);
  }

  function SignBit(r: Bits64): bool
  {
    r[63]
  }

  function BiasedExponent(r: Bits64): (e: nat)
    ensures e <= MaxBiased
  {
    Pow2Constants();
    Unsigned(r[52..63])
  }

  /** The fraction field as the integer F, so that the fraction itself is F / 2^52. */
  function FractionField(r: Bits64): (f: nat)
    ensures f < Hidden
  {
    Pow2Constants();
    Unsigned(r[..52])
  }

  /** The register whose sign, biased exponent and fraction field are the given ones. */
  function Encode(negative: bool, biased: nat, fraction: nat): (r: Bits64)
    requires biased <= MaxBiased && fraction < Hidden
  {
    seq(64, i requires 0 <= i < 64 =>
      if i < 52 then BitOf(fraction, i) else if i < 63 then BitOf(biased, i - 52) else negative)
  }

  /** Unfolds `Encode` bit by bit, for callers that quantify over the bits. */
  lemma EncodeBitOf(negative: bool, biased: nat, fraction: nat)
    requires biased <= MaxBiased && fraction < Hidden
    ensures forall i :: 0 <= i < 64 ==>
      Encode(negative, biased, fraction)[i] == if i < 52 then BitOf(fraction, i) else if i < 63 then BitOf(biased, i - 52) else negative
  {
  }

  /** The register is the fraction's 52 bits, then the exponent's 11 bits, then the sign. */
  lemma EncodeConcat(negative: bool, biased: nat, fraction: nat)
    requires biased <= MaxBiased && fraction < Hidden
    ensures Encode(negative, biased, fraction) == ToBits(fraction, 52) + ToBits(biased, 11) + [negative]
  {
    ToBitsBitOf(fraction, 52);
    ToBitsBitOf(biased, 11);
  }

  lemma FieldsOfEncode(negative: bool, biased: nat, fraction: nat)
    requires biased <= MaxBiased && fraction < Hidden
    ensures SignBit(Encode(negative, biased, fraction)) == negative
    ensures BiasedExponent(Encode(negative, biased, fraction)) == biased
    ensures FractionField(Encode(negative, biased, fraction)) == fraction
  {
    var r := Encode(negative, biased, fraction);
    EncodeConcat(negative, biased, fraction);
    assert r[..52] == ToBits(fraction, 52);
    assert r[52..63] == ToBits(biased, 11);
    Pow2Constants();
    UnsignedToBits(fraction, 52);
    UnsignedToBits(biased, 11);
  }

  lemma EncodeOfFields(r: Bits64)
    ensures Encode(SignBit(r), BiasedExponent(r), FractionField(r)) == r
  {
    var frac, exp := r[..52], r[52..63];
    FieldBits(FractionField(r), frac);
    FieldBits(BiasedExponent(r), exp);
    forall i | 0 <= i < 64
      ensures Encode(SignBit(r), BiasedExponent(r), FractionField(r))[i] == r[i]
    {
      if i < 52 {
        assert frac[i] == r[i];
      } else if i < 63 {
        assert exp[i - 52] == r[i];
      }
    }
  }

  /** The register with its sign bit replaced; the exponent and fraction are kept. */
  function WithSign(r: Bits64, negative: bool): Bits64
  {
    Encode(negative, BiasedExponent(r), FractionField(r))
  }

  /** The register with its biased exponent replaced; the sign and fraction are kept. */
  function WithExponent(r: Bits64, biased: nat): Bits64
    requires biased <= MaxBiased
  {
    Encode(SignBit(r), biased, FractionField(r))
  }

  /** The register with its fraction field replaced; the sign and exponent are kept. */
  function WithFraction(r: Bits64, fraction: nat): Bits64
    requires fraction < Hidden
  {
    Encode(SignBit(r), BiasedExponent(r), fraction)
  }

  /** Setting the sign touches bit 63 alone. */
  lemma WithSignBits(r: Bits64, negative: bool)
    ensures WithSign(r, negative) == r[63 := negative]
  {
    EncodeOfFields(r);
  }

  /** Setting the exponent touches bits 52..62 alone, and they then spell the new exponent. */
  lemma WithExponentBits(r: Bits64, biased: nat)
    requires biased <= MaxBiased
    ensures forall i :: 0 <= i < 52 || i == 63 ==> WithExponent(r, biased)[i] == r[i]
    ensures BiasedExponent(WithExponent(r, biased)) == biased
  {
    EncodeOfFields(r);
    FieldsOfEncode(SignBit(r), biased, FractionField(r));
  }

  /** The decoder after an exponent change sees the old sign and fraction with the new exponent. */
  lemma DecodeWithExponent(r: Bits64, biased: nat)
    requires biased <= MaxBiased
    ensures Decode(WithExponent(r, biased)) == DecodeFields(r[63], biased, FractionField(r))
  {
    FieldsOfEncode(SignBit(r), biased, FractionField(r));
  }

  /** Setting the fraction touches bits 0..51 alone, and they then spell the new fraction. */
  lemma WithFractionBits(r: Bits64, fraction: nat)
    requires fraction < Hidden
    ensures forall i :: 52 <= i < 64 ==> WithFraction(r, fraction)[i] == r[i]
    ensures FractionField(WithFraction(r, fraction)) == fraction
  {
    EncodeOfFields(r);
    FieldsOfEncode(SignBit(r), BiasedExponent(r), fraction);
  }

  /** A second fraction written over the first leaves only the second. */
  lemma WithFractionTwice(r: Bits64, f: nat, g: nat)
    requires f < Hidden && g < Hidden
    ensures WithFraction(WithFraction(r, f), g) == WithFraction(r, g)
  {
    FieldsOfEncode(SignBit(r), BiasedExponent(r), f);
  }

  // ---------------------------------------------------------------------------
  // Exact values

  /** 2^e as a real number, for any integer e. */
  function Scale(e: int): (x: real)
    ensures x > 0.0
    decreases if e >= 0 then e else -e
  {
    if e == 0 then 1.0
    else if e > 0 then 2.0 * Scale(e - 1)
    else Scale(e + 1) / 2.0
  }

  lemma ScaleStep(e: int)
    ensures Scale(e + 1) == 2.0 * Scale(e)
  {
  }

  lemma {:induction false} ScaleShift(e: int, k: nat)
    ensures Scale(e) == Pow2(k) as real * Scale(e - k)
    decreases k
  {
    if k > 0 {
      ScaleShift(e - 1, k - 1);
      ShiftStep(e, k);
    }
  }

  /** One step of ScaleShift: one more factor 2 on each side. */
  lemma ShiftStep(e: int, k: nat)
    requires k > 0 && Scale(e - 1) == Pow2(k - 1) as real * Scale(e - k)
    ensures Scale(e) == Pow2(k) as real * Scale(e - k)
  {
    var x, y, half, full := Scale(e), Scale(e - 1), Pow2(k - 1) as real, Pow2(k) as real;
    assert x == 2.0 * y by {
      ScaleStep(e - 1);
    }
    assert full == 2.0 * half;
    Regroup(x, y, half, full, Scale(e - k));
  }

  lemma Regroup(x: real, y: real, half: real, full: real, low: real)
    requires x == 2.0 * y && y == half * low && full == 2.0 * half
    ensures x == full * low
  {
  }

  lemma ScaleHidden(e: int)
    ensures Scale(e) == HiddenReal * Scale(e - 52)
  {
    ScaleShift(e, 52);
    Pow2Constants();
  }

  function SignFactor(negative: bool): real
  {
    if negative then -1.0 else 1.0
  }

  /** 2^52, the weight of the implicit leading bit. */
  const Hidden: nat := 0x10_0000_0000_0000
  const HiddenReal: real := Hidden as real

  /** The real number (-1)^sign * significand * 2^exponent. */
  function ExactValue(negative: bool, significand: nat, exponent: int): real
  {
    SignFactor(negative) * significand as real * Scale(exponent)
  }

  /** An exact value is zero only for significand 0, negative only for a set sign, and for a given
      sign and exponent it determines the significand. */
  lemma ExactValueFacts(negative: bool, m: nat, n: nat, exponent: int)
    ensures ExactValue(negative, m, exponent) == 0.0 <==> m == 0
    ensures ExactValue(negative, m, exponent) < 0.0 <==> negative && m > 0
    ensures ExactValue(negative, m, exponent) == ExactValue(negative, n, exponent) <==> m == n
  {
    var s, x := SignFactor(negative), Scale(exponent);
    Cancel(s, m as real, n as real, x);
  }

  /** The significand 2^52 with exponent e - 52 is the power of two 2^e. */
  lemma PowerOfTwo(negative: bool, e: int)
    ensures ExactValue(negative, Hidden, e - 52) == SignFactor(negative) * Scale(e)
  {
    ScaleHidden(e);
    Associate(SignFactor(negative), HiddenReal, Scale(e - 52));
  }

  lemma Associate(a: real, b: real, c: real)
    ensures a * b * c == a * (b * c)
  {
  }

  /** For e >= 0, 2^e as a real is the natural number 2^e. */
  lemma {:induction false} ScaleNatural(e: nat)
    ensures Scale(e) == Pow2(e) as real
  {
    if e > 0 {
      ScaleNatural(e - 1);
    }
  }

  lemma Cancel(s: real, m: real, n: real, x: real)
    requires s == 1.0 || s == -1.0
    requires x > 0.0 && m >= 0.0
    ensures s * m * x == 0.0 <==> m == 0.0
    ensures s * m * x < 0.0 <==> s < 0.0 && m > 0.0
    ensures s * m * x == s * n * x <==> m == n
  {
  }

  /** The fraction F / 2^52 of a fraction field F: zero exactly for F = 0, and below 1 for every
      field of 52 bits. */
  function Fraction(f: nat): (x: real)
    ensures 0.0 <= x
    ensures x == 0.0 <==> f == 0
    ensures f < Hidden ==> x < 1.0
  {
    f as real / HiddenReal
  }

  // ---------------------------------------------------------------------------
  // The decoder

  /** The advisory remark appended after a number: "Max ±ve" or "Min ±ve". */
  datatype Remark = Plain | MaxRemark | MinRemark

  datatype Decoded =
    | Zero(negative: bool)
    | Infinity(negative: bool)
    | NaN(negative: bool)
    | Number(value: real, remark: Remark)

  function RemarkFor(fraction: real, exponent: int): Remark
  {
    if fraction > 0.0 && exponent == 1023 then MaxRemark
    else if fraction == 0.0 && exponent == -1022 then MinRemark
    else Plain
  }

  /** The general formula of the decoder, (-1)^sign * (1 + fraction) * 2^exponent. */
  function ImplicitOne(negative: bool, fraction: real, exponent: int): real
  {
    SignFactor(negative) * (1.0 + fraction) * Scale(exponent)
  }

  /** The decoding done by `ieee754_breakdown`: a function of the three fields alone. */
  function Decode(r: Bits64): Decoded
  {
    DecodeFields(SignBit(r), BiasedExponent(r), FractionField(r))
  }

  /** The tests of `ieee754_breakdown` in their order, on the sign, the biased exponent and the
      fraction field F (the fraction being F / 2^52). Every register that is not ±0, ±∞ or NaN
      goes to the implicit-leading-1 formula, biased exponent 0 included. */
  function DecodeFields(negative: bool, biased: nat, f: nat): Decoded
  {
    var exponent := biased - Bias;
    var fraction := Fraction(f);
    if fraction == 0.0 && exponent == -1023 then Zero(negative)
    else if fraction == 0.0 && exponent == 1024 then Infinity(negative)
    else if fraction > 0.0 && exponent == 1024 then NaN(negative)
    else Number(ImplicitOne(negative, fraction, exponent), RemarkFor(fraction, exponent))
  }

  /** The classes of the decoder, both ways, in terms of the fields; specials carry the sign bit. */
  lemma DecodeClasses(r: Bits64)
    ensures Decode(r).Zero? <==> BiasedExponent(r) == 0 && FractionField(r) == 0
    ensures Decode(r).Infinity? <==> BiasedExponent(r) == MaxBiased && FractionField(r) == 0
    ensures Decode(r).NaN? <==> BiasedExponent(r) == MaxBiased && FractionField(r) > 0
    ensures Decode(r).Number? <==> BiasedExponent(r) < MaxBiased && (BiasedExponent(r) > 0 || FractionField(r) > 0)
    ensures !Decode(r).Number? ==> Decode(r).negative == r[63]
  {
    FieldsClasses(SignBit(r), BiasedExponent(r), FractionField(r));
  }

  lemma FieldsClasses(negative: bool, biased: nat, f: nat)
    requires biased <= MaxBiased
    ensures DecodeFields(negative, biased, f).Zero? <==> biased == 0 && f == 0
    ensures DecodeFields(negative, biased, f).Infinity? <==> biased == MaxBiased && f == 0
    ensures DecodeFields(negative, biased, f).NaN? <==> biased == MaxBiased && f > 0
    ensures DecodeFields(negative, biased, f).Number? <==> biased < MaxBiased && (biased > 0 || f > 0)
    ensures !DecodeFields(negative, biased, f).Number? ==> DecodeFields(negative, biased, f).negative == negative
  {
  }

  /** The classes of the decoder, both ways, in terms of the register's bits. */
  lemma DecodeClassesByBits(r: Bits64)
    ensures Decode(r).Zero? <==> forall i :: 0 <= i < 63 ==> !r[i]
    ensures Decode(r).Infinity? <==>
      (forall i :: 52 <= i < 63 ==> r[i]) && (forall i :: 0 <= i < 52 ==> !r[i])
    ensures Decode(r).NaN? <==>
      (forall i :: 52 <= i < 63 ==> r[i]) && (exists i :: 0 <= i < 52 && r[i])
  {
    DecodeClasses(r);
    FieldsByBits(r);
  }

  /** The fields' extreme values in terms of the bits that hold them. */
  lemma FieldsByBits(r: Bits64)
    ensures BiasedExponent(r) == 0 <==> forall i :: 52 <= i < 63 ==> !r[i]
    ensures BiasedExponent(r) == MaxBiased <==> forall i :: 52 <= i < 63 ==> r[i]
    ensures FractionField(r) == 0 <==> forall i :: 0 <= i < 52 ==> !r[i]
  {
    ExponentByBits(r);
    FractionByBits(r);
  }

  lemma ExponentByBits(r: Bits64)
    ensures BiasedExponent(r) == 0 <==> forall i :: 52 <= i < 63 ==> !r[i]
    ensures BiasedExponent(r) == MaxBiased <==> forall i :: 52 <= i < 63 ==> r[i]
  {
    var exp := r[52..63];
    assert BiasedExponent(r) == Unsigned(exp);
    assert forall i :: 52 <= i < 63 ==> r[i] == exp[i - 52];
    ExponentExtremes(exp);
  }

  /** An eleven-bit field is 0 exactly when every bit is clear and 2047 exactly when all are set. */
  lemma ExponentExtremes(exp: seq<bool>)
    requires |exp| == 11
    ensures Unsigned(exp) == 0 <==> forall i :: 0 <= i < 11 ==> !exp[i]
    ensures Unsigned(exp) == MaxBiased <==> forall i :: 0 <= i < 11 ==> exp[i]
  {
    UnsignedZero(exp);
    UnsignedAllOnes(exp);
    assert Pow2(11) == 2048;
  }

  lemma FractionByBits(r: Bits64)
    ensures FractionField(r) == 0 <==> forall i :: 0 <= i < 52 ==> !r[i]
  {
    UnsignedZero(r[..52]);
  }

  /** A number's exact value is (-1)^sign * (2^52 + F) * 2^(biased - 1075); it is nonzero and
      negative exactly when the sign bit is set. Its remark is "Max" exactly for biased exponent
      2046 with F > 0 and "Min" exactly for biased exponent 1 with F = 0. */
  lemma DecodeNumber(r: Bits64)
    requires Decode(r).Number?
    ensures Decode(r).value == ExactValue(r[63], Hidden + FractionField(r), BiasedExponent(r) - Bias - 52)
    ensures Decode(r).value != 0.0
    ensures Decode(r).value < 0.0 <==> r[63]
    ensures Decode(r).remark == MaxRemark <==> BiasedExponent(r) == 2046 && FractionField(r) > 0
    ensures Decode(r).remark == MinRemark <==> BiasedExponent(r) == 1 && FractionField(r) == 0
  {
    NumberFields(SignBit(r), BiasedExponent(r), FractionField(r));
  }

  lemma NumberFields(negative: bool, biased: nat, f: nat)
    requires DecodeFields(negative, biased, f).Number?
    ensures DecodeFields(negative, biased, f).value == ExactValue(negative, Hidden + f, biased - Bias - 52)
    ensures DecodeFields(negative, biased, f).value != 0.0
    ensures DecodeFields(negative, biased, f).value < 0.0 <==> negative
    ensures DecodeFields(negative, biased, f).remark == MaxRemark <==> biased == 2046 && f > 0
    ensures DecodeFields(negative, biased, f).remark == MinRemark <==> biased == 1 && f == 0
  {
    var e := biased - Bias;
    assert DecodeFields(negative, biased, f).value == ImplicitOne(negative, f as real / HiddenReal, e);
    ImplicitExact(negative, f, e);
    ExactValueFacts(negative, Hidden + f, 0, e - 52);
  }

  /** The decoder's formula as an exact value with an integer significand. */
  lemma ImplicitExact(negative: bool, f: nat, e: int)
    ensures ImplicitOne(negative, f as real / HiddenReal, e) == ExactValue(negative, Hidden + f, e - 52)
  {
    ScaleHidden(e);
    Rescale(SignFactor(negative), f as real, Scale(e), Scale(e - 52));
  }

  /** The implicit-1 significand scaled by 2^52 trades against the exponent. */
  lemma Rescale(sign: real, f: real, high: real, low: real)
    requires high == HiddenReal * low
    ensures sign * (1.0 + f / HiddenReal) * high == sign * (HiddenReal + f) * low
  {
  }

  /** The register +1.0 of the window's initial state: sign 0, biased exponent 1023, fraction 0. */
  lemma DecodeOne()
    ensures Decode(Encode(false, Bias, 0)) == Number(1.0, Plain)
  {
    FieldsOfEncode(false, Bias, 0);
    assert DecodeFields(false, Bias, 0) == Number(1.0, Plain);
  }

  // ---------------------------------------------------------------------------
  // Section 3.4 of IEEE 754-2008, for comparison

  /** The decoding that section 3.4 of IEEE 754-2008 prescribes. It differs from Decode only when
      the biased exponent is 0 and F > 0 (a subnormal): then the leading significand bit is 0 and
      the exponent is emin = 1 - bias. */
  function StandardDecode(r: Bits64): Decoded
  {
    StandardDecodeFields(SignBit(r), BiasedExponent(r), FractionField(r))
  }

  function StandardDecodeFields(negative: bool, biased: nat, f: nat): Decoded
  {
    if biased == 0 && f > 0 then
      Number(SignFactor(negative) * Fraction(f) * Scale(1 - Bias), Plain)
    else DecodeFields(negative, biased, f)
  }

  /** The decoder agrees with the standard exactly off the subnormals. On a subnormal it gives
      (-1)^sign * (2^52 + F) * 2^-1075 where the standard gives (-1)^sign * 2F * 2^-1075. */
  lemma SubnormalDeparture(r: Bits64)
    ensures Decode(r) == StandardDecode(r) <==> !(BiasedExponent(r) == 0 && FractionField(r) > 0)
    ensures BiasedExponent(r) == 0 && FractionField(r) > 0 ==>
      Decode(r).value == ExactValue(r[63], Hidden + FractionField(r), -Bias - 52) &&
      StandardDecode(r).value == ExactValue(r[63], 2 * FractionField(r), -Bias - 52)
  {
    SubnormalFields(SignBit(r), BiasedExponent(r), FractionField(r));
  }

  lemma SubnormalFields(negative: bool, biased: nat, f: nat)
    requires f < Hidden
    ensures DecodeFields(negative, biased, f) == StandardDecodeFields(negative, biased, f) <==> !(biased == 0 && f > 0)
    ensures biased == 0 && f > 0 ==>
      DecodeFields(negative, biased, f).value == ExactValue(negative, Hidden + f, -Bias - 52) &&
      StandardDecodeFields(negative, biased, f).value == ExactValue(negative, 2 * f, -Bias - 52)
  {
    if biased == 0 && f > 0 {
      NumberFields(negative, biased, f);
      var low := Scale(-Bias - 52);
      ScaleHidden(1 - Bias);
      ScaleStep(-Bias - 52);
      Halve(SignFactor(negative), f as real, Scale(1 - Bias), low);
      ExactValueFacts(negative, Hidden + f, 2 * f, -Bias - 52);
    }
  }

  lemma Halve(sign: real, f: real, high: real, low: real)
    requires high == HiddenReal * (2.0 * low)
    ensures sign * (f / HiddenReal) * high == sign * (2.0 * f) * low
  {
  }
}
