/** The quick-adjustment buttons of the window: four exponent presets, five fraction presets (on six
    buttons: ".000..." appears twice) and thirteen special cases. A button is known by its label; each preset names the bits it writes,
    and the lemmas here tie those bits to the sign, exponent and fraction that the preset stands
    for (the layouts written beside each special case in `cb_button_extreme`). */
module Presets {
  import opened Binary
  import opened Binary64
  import opened HexLabel

  datatype Option<T> = None | Some(value: T)

  // ---------------------------------------------------------------------------
  // Exponent presets

  datatype ExponentPreset = ExponentOne | ExponentTwo | ExponentClear | ExponentAll

  function ExponentLabel(p: ExponentPreset): string
  {
    match p
    case ExponentOne => "1 ~ 3FF₁₆"
    case ExponentTwo => "2 ~ 400₁₆"
    case ExponentClear => "Clear ~ 000₁₆"
    case ExponentAll => "All ~ 7FF₁₆"
  }

  /** The labels of the exponent button box, in the order they are shown. */
  const ExponentButtons: seq<string> := ["1 ~ 3FF₁₆", "2 ~ 400₁₆", "Clear ~ 000₁₆", "All ~ 7FF₁₆"]

  /** The preset a label selects; any other label selects none. */
  function ExponentOfLabel(name: string): (p: Option<ExponentPreset>)
    ensures p.Some? ==> ExponentLabel(p.value) == name
  {
    if name == "1 ~ 3FF₁₆" then Some(ExponentOne)
    else if name == "2 ~ 400₁₆" then Some(ExponentTwo)
    else if name == "Clear ~ 000₁₆" then Some(ExponentClear)
    else if name == "All ~ 7FF₁₆" then Some(ExponentAll)
    else None
  }

  /** Every preset has a button, every button selects a preset, and each label selects its own. */
  lemma ExponentButtonsSelect(p: ExponentPreset)
    ensures ExponentOfLabel(ExponentLabel(p)) == Some(p)
    ensures ExponentLabel(p) in ExponentButtons
    ensures forall b :: b in ExponentButtons ==> ExponentOfLabel(b).Some?
  {
  }

  /** The biased exponent a preset writes, as its label gives it in hexadecimal. */
  function ExponentValue(p: ExponentPreset): (e: nat)
    ensures e <= MaxBiased
  {
    match p
    case ExponentOne => 0x3FF
    case ExponentTwo => 0x400
    case ExponentClear => 0x000
    case ExponentAll => 0x7FF
  }

  /** Bit k of the exponent field (register bit 52 + k) as the preset's loops leave it. */
  predicate ExponentPresetBit(p: ExponentPreset, k: nat)
  {
    match p
    case ExponentOne => k < 10
    case ExponentTwo => k == 10
    case ExponentClear => false
    case ExponentAll => true
  }

  /** An exponent preset writes its bits into bits 52..62 and leaves the other bits as they were:
      the register it leaves is the old one with the label's biased exponent. */
  lemma ExponentPresetBits(r: Bits64, p: ExponentPreset)
    ensures forall i :: 0 <= i < 64 ==>
      WithExponent(r, ExponentValue(p))[i] == if 52 <= i < 63 then ExponentPresetBit(p, i - 52) else r[i]
  {
    WithExponentBits(r, ExponentValue(p));
    ExponentValueBits(p);
  }

  lemma ExponentValueBits(p: ExponentPreset)
    ensures forall k :: 0 <= k < 11 ==> BitOf(ExponentValue(p), k) == ExponentPresetBit(p, k)
  {
    forall k | 0 <= k < 11
      ensures BitOf(ExponentValue(p), k) == ExponentPresetBit(p, k)
    {
      ExponentBitsOf(k);
    }
  }

  /** The eleven bits of each biased exponent that a button writes. */
  lemma ExponentBitsOf(k: nat)
    requires k < 11
    ensures !BitOf(0x000, k) && BitOf(0x001, k) == (k == 0) && BitOf(0x7FF, k) && BitOf(0x7FE, k) == (k > 0)
    ensures BitOf(0x3FF, k) == (k < 10) && BitOf(0x400, k) == (k == 10)
    ensures BitOf(0x43E, k) == (1 <= k < 6 || k == 10)
  {
    if k == 0 {
    } else if k == 1 {
    } else if k == 2 {
    } else if k == 3 {
    } else if k == 4 {
    } else if k == 5 {
    } else if k == 6 {
    } else if k == 7 {
    } else if k == 8 {
    } else if k == 9 {
    }
  }

  /** What the exponent presets mean. "All" makes the register ±∞ or a NaN, by the fraction;
      with a zero fraction "Clear" makes it ±0. The sign is kept. */
  lemma ExponentPresetSpecials(r: Bits64)
    ensures Decode(WithExponent(r, ExponentValue(ExponentAll))) ==
      if FractionField(r) == 0 then Infinity(r[63]) else NaN(r[63])
    ensures FractionField(r) == 0 ==> Decode(WithExponent(r, ExponentValue(ExponentClear))) == Zero(r[63])
  {
    DecodeWithExponent(r, 0x7FF);
    DecodeWithExponent(r, 0x000);
    ExponentFields(r[63], FractionField(r));
  }

  /** "1" and "2" always make a number: with a zero fraction ±1 and ±2, and for any fraction
      "2" doubles the value "1" gives. */
  lemma ExponentPresetNumbers(r: Bits64)
    ensures FractionField(r) == 0 ==>
      Decode(WithExponent(r, ExponentValue(ExponentOne))) == Number(SignFactor(r[63]), Plain)
    ensures FractionField(r) == 0 ==>
      Decode(WithExponent(r, ExponentValue(ExponentTwo))) == Number(2.0 * SignFactor(r[63]), Plain)
    ensures Decode(WithExponent(r, ExponentValue(ExponentOne))).Number?
    ensures Decode(WithExponent(r, ExponentValue(ExponentTwo))).Number?
    ensures Decode(WithExponent(r, ExponentValue(ExponentTwo))).value ==
      2.0 * Decode(WithExponent(r, ExponentValue(ExponentOne))).value
  {
    DecodeWithExponent(r, 0x3FF);
    DecodeWithExponent(r, 0x400);
    ExponentFields(r[63], FractionField(r));
  }

  lemma ExponentFields(s: bool, f: nat)
    ensures DecodeFields(s, 0x7FF, f) == if f == 0 then Infinity(s) else NaN(s)
    ensures f == 0 ==> DecodeFields(s, 0x000, f) == Zero(s)
    ensures f == 0 ==> DecodeFields(s, 0x3FF, f) == Number(SignFactor(s), Plain)
    ensures f == 0 ==> DecodeFields(s, 0x400, f) == Number(2.0 * SignFactor(s), Plain)
    ensures DecodeFields(s, 0x400, f).value == 2.0 * DecodeFields(s, 0x3FF, f).value
  {
    NumberFields(s, 0x3FF, f);
    NumberFields(s, 0x400, f);
    ScaleStep(-52);
    Twice(SignFactor(s), (Hidden + f) as real, Scale(-52));
    if f == 0 {
      PowerOfTwo(s, 0);
      PowerOfTwo(s, 1);
    }
  }

  lemma Twice(sign: real, m: real, x: real)
    ensures sign * m * (2.0 * x) == 2.0 * (sign * m * x)
  {
  }

  // ---------------------------------------------------------------------------
  // Fraction presets

  /** The fraction presets; ".000..." has two buttons in the box, both selecting FractionClear. */
  datatype FractionPreset = FractionClear | FractionHalf | FractionFull | FractionEven | FractionOdd

  function FractionLabel(p: FractionPreset): string
  {
    match p
    case FractionClear => ".000..."
    case FractionHalf => ".100..."
    case FractionFull => ".111..."
    case FractionEven => ".0101..."
    case FractionOdd => ".1010..."
  }

  /** The labels of the fraction button box, in the order they are shown. */
  const FractionButtons: seq<string> := [".000...", ".100...", ".000...", ".111...", ".0101...", ".1010..."]

  function FractionOfLabel(name: string): (p: Option<FractionPreset>)
    ensures p.Some? ==> FractionLabel(p.value) == name
  {
    if name == ".000..." then Some(FractionClear)
    else if name == ".100..." then Some(FractionHalf)
    else if name == ".111..." then Some(FractionFull)
    else if name == ".0101..." then Some(FractionEven)
    else if name == ".1010..." then Some(FractionOdd)
    else None
  }

  lemma FractionButtonsSelect(p: FractionPreset)
    ensures FractionOfLabel(FractionLabel(p)) == Some(p)
    ensures FractionLabel(p) in FractionButtons
    ensures forall b :: b in FractionButtons ==> FractionOfLabel(b).Some?
  {
  }

  /** The fraction field F a preset writes. */
  function FractionValue(p: FractionPreset): (f: nat)
    ensures f < Hidden
  {
    match p
    case FractionClear => 0
    case FractionHalf => 0x8_0000_0000_0000
    case FractionFull => 0xF_FFFF_FFFF_FFFF
    case FractionEven => 0x5_5555_5555_5555
    case FractionOdd => 0xA_AAAA_AAAA_AAAA
  }

  /** Bit k of the fraction field as the preset's loops leave it. */
  predicate FractionPresetBit(p: FractionPreset, k: nat)
  {
    match p
    case FractionClear => false
    case FractionHalf => k == 51
    case FractionFull => true
    case FractionEven => k % 2 == 0
    case FractionOdd => k % 2 == 1
  }

  /** A fraction preset writes its bits into bits 0..51 and leaves the other bits as they were:
      the register it leaves is the old one with the preset's fraction field. */
  lemma FractionPresetBits(r: Bits64, p: FractionPreset)
    ensures forall i :: 0 <= i < 64 ==>
      WithFraction(r, FractionValue(p))[i] == if i < 52 then FractionPresetBit(p, i) else r[i]
  {
    WithFractionBits(r, FractionValue(p));
    EncodeBitOf(SignBit(r), BiasedExponent(r), FractionValue(p));
    forall i | 0 <= i < 52
      ensures WithFraction(r, FractionValue(p))[i] == FractionPresetBit(p, i)
    {
      FractionValueBits(p, i);
    }
  }

  lemma FractionValueBits(p: FractionPreset, k: nat)
    requires k < 52
    ensures BitOf(FractionValue(p), k) == FractionPresetBit(p, k)
  {
    match p
    case FractionClear => ZeroBitOf(k);
    case FractionHalf => HalfBits();
    case FractionFull => FullBits();
    case FractionEven => EvenBit(k);
    case FractionOdd => OddBit(k);
  }

  lemma {:induction false} ZeroBitOf(k: nat)
    ensures !BitOf(0, k)
  {
    if k > 0 {
      ZeroBitOf(k - 1);
    }
  }

  /** The fraction 2^51: bit 51 alone. */
  lemma HalfBits()
    ensures forall k :: 0 <= k < 52 ==> BitOf(0x8_0000_0000_0000, k) == (k == 51)
  {
    Pow2Constants();
    assert Pow2(52) == 2 * Pow2(51);
    RunBits(0x8_0000_0000_0000, 51, 52, 52);
  }

  /** The fraction 2^52 - 1: all 52 bits. */
  lemma FullBits()
    ensures forall k :: 0 <= k < 52 ==> BitOf(0xF_FFFF_FFFF_FFFF, k)
  {
    Pow2Constants();
    RunBits(0xF_FFFF_FFFF_FFFF, 0, 52, 52);
  }

  /** Every other bit: the bits of the alternating pattern are those of the number it spells. */
  lemma AlternateBits(parity: nat)
    ensures forall k :: 0 <= k < 52 ==> BitOf(Unsigned(Alternate(parity, 52)), k) == (k % 2 == parity)
  {
    FieldBits(Unsigned(Alternate(parity, 52)), Alternate(parity, 52));
  }

  /** The fraction 0x5555...: the even bits. */
  lemma EvenBit(k: nat)
    requires k < 52
    ensures BitOf(0x5_5555_5555_5555, k) == (k % 2 == 0)
  {
    AlternateValues();
    AlternateBits(0);
  }

  /** The fraction 0xAAAA...: the odd bits. */
  lemma OddBit(k: nat)
    requires k < 52
    ensures BitOf(0xA_AAAA_AAAA_AAAA, k) == (k % 2 == 1)
  {
    AlternateValues();
    AlternateBits(1);
  }

  lemma AlternateValues()
    ensures Unsigned(Alternate(0, 52)) == 0x5_5555_5555_5555
    ensures Unsigned(Alternate(1, 52)) == 0xA_AAAA_AAAA_AAAA
  {
    var n := 26;
    UnsignedAlternate(n);
    Pow2Constants();
    assert 2 * n == 52;
    var even := Unsigned(Alternate(0, 52));
    assert 3 * even == 0xF_FFFF_FFFF_FFFF;
  }

  /** ".100..." is the fraction one half, ".111..." is 1 - 2^-52 and ".000..." is zero. */
  lemma FractionPresetMeaning(r: Bits64)
    ensures Fraction(FractionField(WithFraction(r, FractionValue(FractionClear)))) == 0.0
    ensures Fraction(FractionField(WithFraction(r, FractionValue(FractionHalf)))) == 0.5
    ensures Fraction(FractionField(WithFraction(r, FractionValue(FractionFull)))) == 1.0 - 1.0 / HiddenReal
  {
    WithFractionBits(r, 0);
    WithFractionBits(r, 0x8_0000_0000_0000);
    WithFractionBits(r, 0xF_FFFF_FFFF_FFFF);
    PresetFractions();
  }

  lemma PresetFractions()
    ensures Fraction(0x8_0000_0000_0000) == 0.5
    ensures Fraction(0xF_FFFF_FFFF_FFFF) == 1.0 - 1.0 / HiddenReal
  {
    assert HiddenReal == 0x10_0000_0000_0000 as real;
  }

  // ---------------------------------------------------------------------------
  // Special cases

  datatype Special =
    | PlusZero | MinusZero
    | PlusInfinity | MinusInfinity
    | PlusNaN | MinusNaN
    | MaxPlus | MaxMinus
    | MinPlus | MinMinus
    | MaxPlus64 | MaxMinus64
    | Pi

  function SpecialLabel(p: Special): string
  {
    match p
    case PlusZero => "+0"
    case MinusZero => "-0"
    case PlusInfinity => "+∞"
    case MinusInfinity => "-∞"
    case PlusNaN => "+NaN"
    case MinusNaN => "-NaN"
    case MaxPlus => "Max +"
    case MaxMinus => "Max -"
    case MinPlus => "Min +"
    case MinMinus => "Min -"
    case MaxPlus64 => "Max +64bit"
    case MaxMinus64 => "Max -64bit"
    case Pi => "π"
  }

  /** The labels of the special-case button box, in the order they are shown. */
  const SpecialButtons: seq<string> :=
    ["+0", "-0", "+∞", "-∞", "+NaN", "-NaN", "Max +", "Max -", "Min +", "Min -", "Max +64bit", "Max -64bit", "π"]

  function SpecialOfLabel(name: string): (p: Option<Special>)
    ensures p.Some? ==> SpecialLabel(p.value) == name
  {
    if name == "+0" then Some(PlusZero)
    else if name == "-0" then Some(MinusZero)
    else if name == "+∞" then Some(PlusInfinity)
    else if name == "-∞" then Some(MinusInfinity)
    else if name == "+NaN" then Some(PlusNaN)
    else if name == "-NaN" then Some(MinusNaN)
    else if name == "Max +" then Some(MaxPlus)
    else if name == "Max -" then Some(MaxMinus)
    else if name == "Min +" then Some(MinPlus)
    else if name == "Min -" then Some(MinMinus)
    else if name == "Max +64bit" then Some(MaxPlus64)
    else if name == "Max -64bit" then Some(MaxMinus64)
    else if name == "π" then Some(Pi)
    else None
  }

  lemma SpecialButtonsSelect(p: Special)
    ensures SpecialOfLabel(SpecialLabel(p)) == Some(p)
    ensures SpecialLabel(p) in SpecialButtons
  {
  }

  lemma SpecialButtonsKnown()
    ensures forall b :: b in SpecialButtons ==> SpecialOfLabel(b).Some?
  {
  }

  /** The binary numeral of π's fraction that the π button writes, most significant digit first,
      here in groups of four. */
  const PiText: string :=
    "1001" + "0010" + "0001" + "1111" + "1011" + "0101" + "0100" + "0100" + "0100" + "0010" + "1101" + "0001" + "1000"

  const PiFraction: nat := 0x9_21FB_5444_2D18

  /** The sign, biased exponent and fraction field of each special case, as the layout beside it
      gives them. */
  function SpecialNegative(p: Special): bool
  {
    p in {MinusZero, MinusInfinity, MinusNaN, MaxMinus, MinMinus, MaxMinus64}
  }

  function SpecialExponent(p: Special): (e: nat)
    ensures e <= MaxBiased
  {
    match p
    case PlusZero | MinusZero => 0x000
    case PlusInfinity | MinusInfinity | PlusNaN | MinusNaN => 0x7FF
    case MaxPlus | MaxMinus => 0x7FE
    case MinPlus | MinMinus => 0x001
    case MaxPlus64 | MaxMinus64 => 0x43E
    case Pi => 0x400
  }

  function SpecialFraction(p: Special): (f: nat)
    ensures f < Hidden
  {
    match p
    case PlusNaN | MinusNaN => 1
    case MaxPlus | MaxMinus => 0xF_FFFF_FFFF_FFFF
    case Pi => PiFraction
    case _ => 0
  }

  /** The register a special-case button leaves. */
  function SpecialPattern(p: Special): Bits64
  {
    Encode(SpecialNegative(p), SpecialExponent(p), SpecialFraction(p))
  }

  /** The bits of a binary numeral, least significant (its last digit) first: the numeral
      reversed, a '1' being a set bit. */
  function BitsOfText(t: string): (s: seq<bool>)
    ensures |s| == |t|
  {
    seq(|t|, i requires 0 <= i < |t| => t[|t| - 1 - i] == '1')
  }

  // The bits each special-case button writes are the layout written beside it: one lemma per
  // pair of buttons, the bits given as the button's statements leave them.

  /** "±0": every bit clear but the sign. */
  lemma ZeroBits(negative: bool)
    ensures forall i :: 0 <= i < 64 ==> Encode(negative, 0x000, 0)[i] == (i == 63 && negative)
  {
    EncodeBitOf(negative, 0x000, 0);
    forall i | 0 <= i < 64
      ensures Encode(negative, 0x000, 0)[i] == (i == 63 && negative)
    {
      if i < 52 {
        ZeroBitOf(i);
      } else if i < 63 {
        ExponentBitsOf(i - 52);
      }
    }
  }

  /** "±∞": the eleven exponent bits 52..62 set, the fraction clear. */
  lemma InfinityBits(negative: bool)
    ensures forall i :: 0 <= i < 64 ==> Encode(negative, 0x7FF, 0)[i] == (52 <= i < 63 || (i == 63 && negative))
  {
    EncodeBitOf(negative, 0x7FF, 0);
    forall i | 0 <= i < 64
      ensures Encode(negative, 0x7FF, 0)[i] == (52 <= i < 63 || (i == 63 && negative))
    {
      if i < 52 {
        ZeroBitOf(i);
      } else if i < 63 {
        ExponentBitsOf(i - 52);
      }
    }
  }

  /** "±NaN": as "±∞" with bit 0 set as well. */
  lemma NaNBits(negative: bool)
    ensures forall i :: 0 <= i < 64 ==> Encode(negative, 0x7FF, 1)[i] == (i == 0 || 52 <= i < 63 || (i == 63 && negative))
  {
    EncodeBitOf(negative, 0x7FF, 1);
    forall i | 0 <= i < 64
      ensures Encode(negative, 0x7FF, 1)[i] == (i == 0 || 52 <= i < 63 || (i == 63 && negative))
    {
      if 0 < i < 52 {
        ZeroBitOf(i - 1);
      } else if 52 <= i < 63 {
        ExponentBitsOf(i - 52);
      }
    }
  }

  /** "Max ±": every bit set but bit 52 (and bit 63 for "Max +"). */
  lemma MaxBits(negative: bool)
    ensures forall i :: 0 <= i < 64 ==> Encode(negative, 0x7FE, 0xF_FFFF_FFFF_FFFF)[i] == (i != 52 && (i != 63 || negative))
  {
    EncodeBitOf(negative, 0x7FE, 0xF_FFFF_FFFF_FFFF);
    FullBits();
    forall i | 0 <= i < 64
      ensures Encode(negative, 0x7FE, 0xF_FFFF_FFFF_FFFF)[i] == (i != 52 && (i != 63 || negative))
    {
      if 52 <= i < 63 {
        ExponentBitsOf(i - 52);
      }
    }
  }

  /** "Min ±": bit 52 alone set, and the sign. */
  lemma MinBits(negative: bool)
    ensures forall i :: 0 <= i < 64 ==> Encode(negative, 0x001, 0)[i] == (i == 52 || (i == 63 && negative))
  {
    EncodeBitOf(negative, 0x001, 0);
    forall i | 0 <= i < 64
      ensures Encode(negative, 0x001, 0)[i] == (i == 52 || (i == 63 && negative))
    {
      if i < 52 {
        ZeroBitOf(i);
      } else if i < 63 {
        ExponentBitsOf(i - 52);
      }
    }
  }

  /** "Max ±64bit": bits 53..57 and 62 set, and the sign. */
  lemma Max64Bits(negative: bool)
    ensures forall i :: 0 <= i < 64 ==> Encode(negative, 0x43E, 0)[i] == (53 <= i < 58 || i == 62 || (i == 63 && negative))
  {
    EncodeBitOf(negative, 0x43E, 0);
    forall i | 0 <= i < 64
      ensures Encode(negative, 0x43E, 0)[i] == (53 <= i < 58 || i == 62 || (i == 63 && negative))
    {
      if i < 52 {
        ZeroBitOf(i);
      } else if i < 63 {
        ExponentBitsOf(i - 52);
      }
    }
  }

  /** "π": the numeral's digits in bits 51 down to 0, bit 62 set, everything else clear. */
  lemma PiPatternBits()
    ensures forall i :: 0 <= i < 64 ==> Encode(false, 0x400, PiFraction)[i] == (i == 62 || (i < 52 && BitsOfText(PiText)[i]))
  {
    EncodeBitOf(false, 0x400, PiFraction);
    PiValue();
    FieldBits(PiFraction, BitsOfText(PiText));
    forall i | 0 <= i < 64
      ensures Encode(false, 0x400, PiFraction)[i] == (i == 62 || (i < 52 && BitsOfText(PiText)[i]))
    {
      if 52 <= i < 63 {
        ExponentBitsOf(i - 52);
      }
    }
  }

  /** The bits of 2^hi - 2^lo: those from lo up to hi - 1. */
  lemma RunBits(n: nat, lo: nat, hi: nat, w: nat)
    requires lo <= hi <= w && n + Pow2(lo) == Pow2(hi)
    ensures forall k :: 0 <= k < w ==> BitOf(n, k) == (lo <= k < hi)
  {
    UnsignedRun(lo, hi, w);
    FieldBits(n, Run(lo, hi, w));
  }

  /** The numeral of the π button spells π's fraction field. */
  lemma PiValue()
    ensures Unsigned(BitsOfText(PiText)) == PiFraction
  {
    var t := "1001" + "0010" + "0001" + "1111" + "1011" + "0101" + "0100";
    PiHighValue();
    AppendGroup(t, "0100", 0x921FB54); t := t + "0100";
    AppendGroup(t, "0100", 0x921FB544); t := t + "0100";
    AppendGroup(t, "0010", 0x921FB5444); t := t + "0010";
    AppendGroup(t, "1101", 0x921FB54442); t := t + "1101";
    AppendGroup(t, "0001", 0x921FB54442D); t := t + "0001";
    AppendGroup(t, "1000", 0x921FB54442D1); t := t + "1000";
  }

  /** The first seven digit groups of the π numeral. */
  lemma PiHighValue()
    ensures Unsigned(BitsOfText("1001" + "0010" + "0001" + "1111" + "1011" + "0101" + "0100")) == 0x921FB54
  {
    var t := "1001";
    assert BitsOfText("") == [];
    AppendGroup("", "1001", 0);
    assert "" + "1001" == t;
    AppendGroup(t, "0010", 0x9); t := t + "0010";
    AppendGroup(t, "0001", 0x92); t := t + "0001";
    AppendGroup(t, "1111", 0x921); t := t + "1111";
    AppendGroup(t, "1011", 0x921F); t := t + "1011";
    AppendGroup(t, "0101", 0x921FB); t := t + "0101";
    AppendGroup(t, "0100", 0x921FB5); t := t + "0100";
  }

  /** Appending four binary digits to a numeral multiplies its value by 16 and adds theirs. */
  lemma AppendGroup(high: string, c: string, v: nat)
    requires |c| == 4 && Unsigned(BitsOfText(high)) == v
    ensures Unsigned(BitsOfText(high + c)) ==
      8 * BitValue(c[0] == '1') + 4 * BitValue(c[1] == '1') + 2 * BitValue(c[2] == '1') + BitValue(c[3] == '1') + 16 * v
  {
    var low := BitsOfText(c);
    TextAppend(high, c);
    UnsignedAppend(low, BitsOfText(high));
    Unsigned4(low);
    assert Pow2(4) == 16;
    assert BitValue(low[0]) == BitValue(c[3] == '1') && BitValue(low[1]) == BitValue(c[2] == '1');
    assert BitValue(low[2]) == BitValue(c[1] == '1') && BitValue(low[3]) == BitValue(c[0] == '1');
  }

  /** The bits of a longer numeral: its last digits are the low bits. */
  lemma TextAppend(high: string, c: string)
    ensures BitsOfText(high + c) == BitsOfText(c) + BitsOfText(high)
  {
  }

  // ---------------------------------------------------------------------------
  // What the decoder shows for each special case

  /** "±0", "±∞" and "±NaN" are classified as such, with their sign. */
  lemma ZeroDecodes(negative: bool)
    ensures Decode(Encode(negative, 0x000, 0)) == Zero(negative)
  {
    FieldsOfEncode(negative, 0x000, 0);
  }

  lemma InfinityDecodes(negative: bool)
    ensures Decode(Encode(negative, 0x7FF, 0)) == Infinity(negative)
  {
    FieldsOfEncode(negative, 0x7FF, 0);
  }

  lemma NaNDecodes(negative: bool)
    ensures Decode(Encode(negative, 0x7FF, 1)) == NaN(negative)
  {
    FieldsOfEncode(negative, 0x7FF, 1);
  }

  /** "Max ±" is ±(2^53 - 1) * 2^971, the largest finite double, with the "Max" remark. */
  lemma MaxDecodes(negative: bool)
    ensures Decode(Encode(negative, 0x7FE, 0xF_FFFF_FFFF_FFFF)) ==
      Number(ExactValue(negative, 2 * Hidden - 1, 971), MaxRemark)
  {
    FieldsOfEncode(negative, 0x7FE, 0xF_FFFF_FFFF_FFFF);
    FieldsClasses(negative, 0x7FE, 0xF_FFFF_FFFF_FFFF);
    NumberFields(negative, 0x7FE, 0xF_FFFF_FFFF_FFFF);
  }

  /** "Min ±" is ±2^-1022, the smallest normal double, with the "Min" remark. */
  lemma MinDecodes(negative: bool)
    ensures Decode(Encode(negative, 0x001, 0)) == Number(SignFactor(negative) * Scale(-1022), MinRemark)
  {
    FieldsOfEncode(negative, 0x001, 0);
    FieldsClasses(negative, 0x001, 0);
    NumberFields(negative, 0x001, 0);
    PowerOfTwo(negative, -1022);
  }

  /** "Max ±64bit" is ±2^63: one more than the largest 64-bit signed integer 0x7FFF_FFFF_FFFF_FFFF,
      which has no exact double. */
  lemma Max64Decodes(negative: bool)
    ensures Decode(Encode(negative, 0x43E, 0)) == Number(SignFactor(negative) * Pow2(63) as real, Plain)
    ensures Pow2(63) == 0x7FFF_FFFF_FFFF_FFFF + 1
  {
    FieldsOfEncode(negative, 0x43E, 0);
    FieldsClasses(negative, 0x43E, 0);
    NumberFields(negative, 0x43E, 0);
    PowerOfTwo(negative, 63);
    ScaleNatural(63);
    Pow2Constants();
  }

  /** "π" is (2^52 + F) * 2^-51 for π's fraction F, which lies between 3.141592653589793 and
      3.141592653589794. */
  lemma PiDecodes()
    ensures Decode(Encode(false, 0x400, PiFraction)).Number?
    ensures Decode(Encode(false, 0x400, PiFraction)) == Number(ExactValue(false, Hidden + PiFraction, -51), Plain)
    ensures 3.141592653589793 < ExactValue(false, Hidden + PiFraction, -51) < 3.141592653589794
  {
    FieldsOfEncode(false, 0x400, PiFraction);
    FieldsClasses(false, 0x400, PiFraction);
    NumberFields(false, 0x400, PiFraction);
    PiBounds();
  }

  lemma PiBounds()
    ensures 3.141592653589793 < ExactValue(false, Hidden + PiFraction, -51) < 3.141592653589794
  {
    var x := Scale(-51);
    ScaleShift(0, 51);
    Pow2Constants();
    assert Pow2(52) == 2 * Pow2(51);
    assert 0x8_0000_0000_0000 as real * x == 1.0;
    assert ExactValue(false, Hidden + PiFraction, -51) == 0x19_21FB_5444_2D18 as real * x;
  }

  // ---------------------------------------------------------------------------
  // The frame label each special case shows

  lemma {:induction false} HexOfZero(q: nat)
    ensures HexAt(0, q) == 0
  {
    if q > 0 {
      HexOfZero(q - 1);
    }
  }

  /** The thirteen fraction digits of 0, 1, 2^52 - 1 and π's fraction. */
  lemma SmallDigits()
    ensures forall q :: 0 <= q < 13 ==> HexAt(0, q) == 0 && HexAt(1, q) == (if q == 0 then 1 else 0)
  {
    forall q | 0 <= q < 13
      ensures HexAt(0, q) == 0 && HexAt(1, q) == (if q == 0 then 1 else 0)
    {
      HexOfZero(q);
      if q > 0 {
        HexOfZero(q - 1);
      }
    }
  }

  lemma OnesDigits()
    ensures forall q :: 0 <= q < 13 ==> HexAt(0xF_FFFF_FFFF_FFFF, q) == 15
  {
    var ns: seq<nat> := [0xF_FFFF_FFFF_FFFF, 0xFFFF_FFFF_FFFF, 0xFFF_FFFF_FFFF, 0xFF_FFFF_FFFF, 0xF_FFFF_FFFF,
      0xFFFF_FFFF, 0xFFF_FFFF, 0xFF_FFFF, 0xF_FFFF, 0xFFFF, 0xFFF, 0xFF, 0xF];
    forall q | 0 <= q < 13
      ensures HexAt(0xF_FFFF_FFFF_FFFF, q) == 15
    {
      HexChain(ns, q);
    }
  }

  lemma PiDigits()
    ensures HexAt(PiFraction, 0) == 0x8 && HexAt(PiFraction, 1) == 0x1 && HexAt(PiFraction, 2) == 0xD
    ensures HexAt(PiFraction, 3) == 0x2 && HexAt(PiFraction, 4) == 0x4 && HexAt(PiFraction, 5) == 0x4
    ensures HexAt(PiFraction, 6) == 0x4 && HexAt(PiFraction, 7) == 0x5 && HexAt(PiFraction, 8) == 0xB
    ensures HexAt(PiFraction, 9) == 0xF && HexAt(PiFraction, 10) == 0x1 && HexAt(PiFraction, 11) == 0x2
    ensures HexAt(PiFraction, 12) == 0x9
  {
    var ns: seq<nat> := [0x9_21FB_5444_2D18, 0x9_21FB_5444_2D1, 0x9_21FB_5444_2D, 0x9_21FB_5444_2, 0x9_21FB_5444,
      0x9_21FB_544, 0x9_21FB_54, 0x9_21FB_5, 0x9_21FB, 0x9_21F, 0x9_21, 0x9_2, 0x9];
    forall q | 0 <= q < 13
      ensures HexAt(PiFraction, q) == ns[q] % 16
    {
      HexChain(ns, q);
    }
  }

  /** "±∞" shows 7FF00000 00000000 and FFF00000 00000000. */
  lemma InfinityLabel(negative: bool)
    ensures Label(Encode(negative, 0x7FF, 0)) == if negative then "FFF00000 00000000" else "7FF00000 00000000"
  {
    SmallDigits();
    if negative {
      ShownLabel(true, 0x7FF, 0, "FFF00000 00000000");
    } else {
      ShownLabel(false, 0x7FF, 0, "7FF00000 00000000");
    }
  }

  /** "±0" shows 00000000 00000000 and 80000000 00000000. */
  lemma ZeroLabelShown(negative: bool)
    ensures Label(Encode(negative, 0x000, 0)) == if negative then "80000000 00000000" else "00000000 00000000"
  {
    SmallDigits();
    if negative {
      ShownLabel(true, 0x000, 0, "80000000 00000000");
    } else {
      ShownLabel(false, 0x000, 0, "00000000 00000000");
    }
  }

  /** "±NaN" shows 7FF00000 00000001 and FFF00000 00000001. */
  lemma NaNLabel(negative: bool)
    ensures Label(Encode(negative, 0x7FF, 1)) == if negative then "FFF00000 00000001" else "7FF00000 00000001"
  {
    SmallDigits();
    assert HexDigit(HexAt(1, 0)) == '1';
    if negative {
      ShownLabel(true, 0x7FF, 1, "FFF00000 00000001");
    } else {
      ShownLabel(false, 0x7FF, 1, "7FF00000 00000001");
    }
  }

  /** "Max ±" shows 7FEFFFFF FFFFFFFF and FFEFFFFF FFFFFFFF. */
  lemma MaxLabel(negative: bool)
    ensures Label(Encode(negative, 0x7FE, 0xF_FFFF_FFFF_FFFF)) ==
      if negative then "FFEFFFFF FFFFFFFF" else "7FEFFFFF FFFFFFFF"
  {
    OnesDigits();
    if negative {
      ShownLabel(true, 0x7FE, 0xF_FFFF_FFFF_FFFF, "FFEFFFFF FFFFFFFF");
    } else {
      ShownLabel(false, 0x7FE, 0xF_FFFF_FFFF_FFFF, "7FEFFFFF FFFFFFFF");
    }
  }

  /** "Min ±" shows 00100000 00000000 and 80100000 00000000. */
  lemma MinLabel(negative: bool)
    ensures Label(Encode(negative, 0x001, 0)) == if negative then "80100000 00000000" else "00100000 00000000"
  {
    SmallDigits();
    if negative {
      ShownLabel(true, 0x001, 0, "80100000 00000000");
    } else {
      ShownLabel(false, 0x001, 0, "00100000 00000000");
    }
  }

  /** "Max ±64bit" shows 43E00000 00000000 and C3E00000 00000000, the doubles ±2^63, not the
      integer 7FFFFFFF FFFFFFFF written beside the button. */
  lemma Max64Label(negative: bool)
    ensures Label(Encode(negative, 0x43E, 0)) == if negative then "C3E00000 00000000" else "43E00000 00000000"
  {
    SmallDigits();
    if negative {
      ShownLabel(true, 0x43E, 0, "C3E00000 00000000");
    } else {
      ShownLabel(false, 0x43E, 0, "43E00000 00000000");
    }
  }

  /** "π" shows 400921FB 54442D18. */
  lemma PiLabel()
    ensures Label(Encode(false, 0x400, PiFraction)) == "400921FB 54442D18"
  {
    PiDigits();
    ShownLabel(false, 0x400, PiFraction, "400921FB 54442D18");
  }
}
