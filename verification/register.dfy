/** The register of the main window: 64 bit buttons, each showing "0" or "1", and the callbacks
    of `Main_Window` that rewrite them in place. Button i is bit i of the datum; `bits[i]` is true
    exactly when button i shows "1". */
module DoublePrecision {
  import opened Binary
  import opened Binary64
  import opened HexLabel
  import opened Presets

  /** The register with bit i flipped, as a click on bit button i leaves it. */
  function Toggle(r: Bits64, i: nat): (t: Bits64)
    requires i < 64
    ensures t[i] == !r[i]
    ensures forall k :: 0 <= k < 64 && k != i ==> t[k] == r[k]
  {
    r[i := !r[i]]
  }

  /** Toggling the same bit twice restores the register. */
  lemma ToggleInvolution(r: Bits64, i: nat)
    requires i < 64
    ensures Toggle(Toggle(r, i), i) == r
  {
  }

  /** What a toggle does to the fields: a fraction bit moves F by 2^i, an exponent bit moves the
      biased exponent by 2^(i - 52), and bit 63 flips the sign; the other fields are kept. */
  lemma ToggleFields(r: Bits64, i: nat)
    requires i < 64
    ensures i < 52 ==>
      FractionField(Toggle(r, i)) == if r[i] then FractionField(r) - Pow2(i) else FractionField(r) + Pow2(i)
    ensures 52 <= i < 63 ==>
      BiasedExponent(Toggle(r, i)) == if r[i] then BiasedExponent(r) - Pow2(i - 52) else BiasedExponent(r) + Pow2(i - 52)
    ensures i >= 52 ==> FractionField(Toggle(r, i)) == FractionField(r)
    ensures (i < 52 || i == 63) ==> BiasedExponent(Toggle(r, i)) == BiasedExponent(r)
    ensures SignBit(Toggle(r, i)) == (if i == 63 then !r[63] else r[63])
  {
    var t := Toggle(r, i);
    if i < 52 {
      assert t[..52] == r[..52][i := !r[i]];
      assert t[52..63] == r[52..63];
      UnsignedFlip(r[..52], i);
    } else if i < 63 {
      assert t[..52] == r[..52];
      assert t[52..63] == r[52..63][i - 52 := !r[i]];
      UnsignedFlip(r[52..63], i - 52);
    } else {
      assert t[..52] == r[..52];
      assert t[52..63] == r[52..63];
    }
  }

  /** The register the window starts with: bits 52..61 set and every other bit clear. */
  lemma InitialBits()
    ensures forall i :: 0 <= i < 64 ==> Encode(false, Bias, 0)[i] == (52 <= i < 62)
  {
    EncodeBitOf(false, Bias, 0);
    forall i | 0 <= i < 64
      ensures Encode(false, Bias, 0)[i] == (52 <= i < 62)
    {
      if i < 52 {
        ZeroBitOf(i);
      } else if i < 63 {
        ExponentBitsOf(i - 52);
      }
    }
  }

  /** The starting register shows 3FF00000 00000000. */
  lemma InitialLabel()
    ensures Label(Encode(false, Bias, 0)) == "3FF00000 00000000"
  {
    SmallDigits();
    ShownLabel(false, 0x3FF, 0, "3FF00000 00000000");
  }

  class BitRegister {
    /** `bits[i]` is true exactly when bit button i shows "1". */
    var bits: array<bool>

    ghost predicate Valid()
      reads this
    {
      bits.Length == 64
    }

    /** The datum the buttons hold. */
    function Value(): Bits64
      reads this, bits
      requires Valid()
    {
      bits[..]
    }

    /** Every button starts at "0"; then bits 52..61 are set, which is +1.0. */
    constructor ()
      ensures Valid() && fresh(bits)
      ensures Value() == Encode(false, Bias, 0)
      ensures Decode(Value()) == Number(1.0, Plain)
    {
      var a := new bool[64](i => false);
      for i := 52 to 62
        invariant forall k :: 0 <= k < 64 ==> a[k] == (52 <= k < i)
      {
        a[i] := true;
      }
      bits := a;
      InitialBits();
      assert a[..] == Encode(false, Bias, 0);
      DecodeOne();
    }

    /** One `for i in range(lo, hi)` loop of a callback: buttons lo .. hi - 1 are set to `b`. */
    method SetRun(lo: nat, hi: nat, b: bool)
      requires Valid() && lo <= hi <= 64
      modifies bits
      ensures forall k :: 0 <= k < 64 ==> bits[k] == if lo <= k < hi then b else old(bits[k])
    {
      for i := lo to hi
        invariant forall k :: 0 <= k < 64 ==> bits[k] == if lo <= k < i then b else old(bits[k])
      {
        bits[i] := b;
      }
    }

    /** One `for i in range(lo, hi, 2)` loop: every other button from lo below hi is set to `b`. */
    method SetStride(lo: nat, hi: nat, b: bool)
      requires Valid() && lo <= hi <= 64
      modifies bits
      ensures forall k :: 0 <= k < 64 ==>
        bits[k] == if lo <= k < hi && (k - lo) % 2 == 0 then b else old(bits[k])
    {
      var i := lo;
      while i < hi
        invariant lo <= i <= hi + 1 && (i - lo) % 2 == 0
        invariant forall k :: 0 <= k < 64 ==>
          bits[k] == if lo <= k < i && k < hi && (k - lo) % 2 == 0 then b else old(bits[k])
      {
        bits[i] := b;
        i := i + 2;
      }
    }

    /** `cb_button_bit`: the clicked bit button flips between "0" and "1". */
    method ButtonBit(ident: nat)
      requires Valid() && ident < 64
      modifies bits
      ensures Value() == Toggle(old(Value()), ident)
    {
      bits[ident] := !bits[ident];
    }

    /** `cb_sign_adjust`: the sign check button writes bit 63 and nothing else. */
    method SignAdjust(active: bool)
      requires Valid()
      modifies bits
      ensures Value() == WithSign(old(Value()), active)
    {
      ghost var before := Value();
      if active {
        bits[63] := true;
      } else {
        bits[63] := false;
      }
      WithSignBits(before, active);
    }

    /** The statements of `cb_button_exponent` for one preset: its biased exponent goes into
        bits 52..62, and the sign and fraction are kept. */
    method WriteExponent(p: ExponentPreset)
      requires Valid()
      modifies bits
      ensures Value() == WithExponent(old(Value()), ExponentValue(p))
    {
      ghost var before := Value();
      match p {
        case ExponentOne =>
          SetRun(52, 62, true);
          SetRun(62, 63, false);
        case ExponentTwo =>
          SetRun(52, 62, false);
          SetRun(62, 63, true);
        case ExponentClear =>
          SetRun(52, 63, false);
        case ExponentAll =>
          SetRun(52, 63, true);
      }
      ExponentPresetBits(before, p);
      assert Value() == WithExponent(before, ExponentValue(p));
    }

    /** `cb_button_exponent`: a known label writes its biased exponent into bits 52..62 and keeps
        the sign and fraction; any other label changes nothing. */
    method ButtonExponent(name: string)
      requires Valid()
      modifies bits
      ensures ExponentOfLabel(name).Some? ==>
        Value() == WithExponent(old(Value()), ExponentValue(ExponentOfLabel(name).value))
      ensures ExponentOfLabel(name).None? ==> Value() == old(Value())
    {
      if name == "1 ~ 3FF₁₆" {
        WriteExponent(ExponentOne);
      }
      if name == "2 ~ 400₁₆" {
        WriteExponent(ExponentTwo);
      }
      if name == "Clear ~ 000₁₆" {
        WriteExponent(ExponentClear);
      }
      if name == "All ~ 7FF₁₆" {
        WriteExponent(ExponentAll);
      }
    }

    /** The statements of `cb_button_fraction` for one preset: its fraction goes into bits 0..51,
        and the sign and exponent are kept. */
    method WriteFraction(p: FractionPreset)
      requires Valid()
      modifies bits
      ensures Value() == WithFraction(old(Value()), FractionValue(p))
    {
      ghost var before := Value();
      match p {
        case FractionClear =>
          SetRun(0, 52, false);
        case FractionHalf =>
          SetRun(0, 51, false);
          SetRun(51, 52, true);
        case FractionFull =>
          SetRun(0, 52, true);
        case FractionEven =>
          SetRun(0, 52, false);
          SetStride(0, 52, true);
        case FractionOdd =>
          SetRun(0, 52, false);
          SetStride(1, 52, true);
      }
      FractionPresetBits(before, p);
      assert Value() == WithFraction(before, FractionValue(p));
    }

    /** `cb_button_fraction`: a known label writes its fraction into bits 0..51 and keeps the sign
        and exponent; any other label changes nothing. ".000..." is tested twice, and the second
        test writes the same fraction again. */
    method ButtonFraction(name: string)
      requires Valid()
      modifies bits
      ensures FractionOfLabel(name).Some? ==>
        Value() == WithFraction(old(Value()), FractionValue(FractionOfLabel(name).value))
      ensures FractionOfLabel(name).None? ==> Value() == old(Value())
    {
      ghost var before := Value();
      if name == ".000..." {
        WriteFraction(FractionClear);
      }
      if name == ".100..." {
        WriteFraction(FractionHalf);
      }
      if name == ".000..." {
        WriteFraction(FractionClear);
        WithFractionTwice(before, FractionValue(FractionClear), FractionValue(FractionClear));
      }
      if name == ".111..." {
        WriteFraction(FractionFull);
      }
      if name == ".0101..." {
        WriteFraction(FractionEven);
      }
      if name == ".1010..." {
        WriteFraction(FractionOdd);
      }
    }

    /** The π button's last loop: button i gets digit i of the numeral read from its end. */
    method WriteText(t: string)
      requires Valid() && |t| <= 64
      modifies bits
      ensures forall k :: 0 <= k < 64 ==> bits[k] == if k < |t| then BitsOfText(t)[k] else old(bits[k])
    {
      var s := seq(|t|, i requires 0 <= i < |t| => t[|t| - 1 - i]);
      for i := 0 to |s|
        invariant forall k :: 0 <= k < 64 ==> bits[k] == if k < i then BitsOfText(t)[k] else old(bits[k])
      {
        bits[i] := s[i] == '1';
      }
    }

    // The statements of `cb_button_extreme`, one method for each pair of buttons that differ in
    // the sign alone; each overwrites all 64 bits with the pattern written beside the buttons.

    /** "+0" and "-0": every bit clear but the sign. */
    method WriteZero(negative: bool)
      requires Valid()
      modifies bits
      ensures Value() == Encode(negative, 0x000, 0)
    {
      if !negative {
        SetRun(0, 64, false);
      } else {
        SetRun(0, 63, false);
        SetRun(63, 64, true);
      }
      ZeroBits(negative);
      assert Value() == Encode(negative, 0x000, 0);
    }

    /** "+∞" and "-∞": the exponent all ones, the fraction clear. */
    method WriteInfinity(negative: bool)
      requires Valid()
      modifies bits
      ensures Value() == Encode(negative, 0x7FF, 0)
    {
      if !negative {
        SetRun(0, 64, false);
        SetRun(52, 63, true);
      } else {
        SetRun(0, 53, false);
        SetRun(52, 64, true);
      }
      InfinityBits(negative);
      assert Value() == Encode(negative, 0x7FF, 0);
    }

    /** "+NaN" and "-NaN": the exponent all ones, the fraction 1. */
    method WriteNaN(negative: bool)
      requires Valid()
      modifies bits
      ensures Value() == Encode(negative, 0x7FF, 1)
    {
      if !negative {
        SetRun(0, 64, false);
        SetRun(52, 63, true);
      } else {
        SetRun(0, 53, false);
        SetRun(52, 64, true);
      }
      SetRun(0, 1, true);
      NaNBits(negative);
      assert Value() == Encode(negative, 0x7FF, 1);
    }

    /** "Max +" and "Max -": every bit set but bit 52 and, for "Max +", the sign. */
    method WriteMax(negative: bool)
      requires Valid()
      modifies bits
      ensures Value() == Encode(negative, 0x7FE, 0xF_FFFF_FFFF_FFFF)
    {
      SetRun(0, 64, true);
      bits[52] := false;
      if !negative {
        bits[63] := false;
      }
      MaxBits(negative);
      assert Value() == Encode(negative, 0x7FE, 0xF_FFFF_FFFF_FFFF);
    }

    /** "Min +" and "Min -": bit 52 set, and the sign for "Min -". */
    method WriteMin(negative: bool)
      requires Valid()
      modifies bits
      ensures Value() == Encode(negative, 0x001, 0)
    {
      SetRun(0, 64, false);
      bits[52] := true;
      if negative {
        bits[63] := true;
      }
      MinBits(negative);
      assert Value() == Encode(negative, 0x001, 0);
    }

    /** "Max +64bit" and "Max -64bit": bits 53..57 and 62 set, and the sign for the second. */
    method WriteMax64(negative: bool)
      requires Valid()
      modifies bits
      ensures Value() == Encode(negative, 0x43E, 0)
    {
      SetRun(0, 64, false);
      SetRun(53, 58, true);
      if !negative {
        bits[62] := true;
      } else {
        SetRun(62, 64, true);
      }
      Max64Bits(negative);
      assert Value() == Encode(negative, 0x43E, 0);
    }

    /** "π": bit 62 set, then π's fraction written from its numeral. */
    method WritePi()
      requires Valid()
      modifies bits
      ensures Value() == Encode(false, 0x400, PiFraction)
    {
      SetRun(0, 64, false);
      bits[62] := true;
      WriteText(PiText);
      PiPatternBits();
      assert Value() == Encode(false, 0x400, PiFraction);
    }

    /** `cb_button_extreme`: a known label overwrites all 64 bits with its special value's
        pattern; any other label changes nothing. */
    method ButtonExtreme(name: string)
      requires Valid()
      modifies bits
      ensures SpecialOfLabel(name).Some? ==> Value() == SpecialPattern(SpecialOfLabel(name).value)
      ensures SpecialOfLabel(name).None? ==> Value() == old(Value())
    {
      if name == "+0" {
        WriteZero(false);
      }
      if name == "-0" {
        WriteZero(true);
      }
      if name == "+∞" {
        WriteInfinity(false);
      }
      if name == "-∞" {
        WriteInfinity(true);
      }
      if name == "+NaN" {
        WriteNaN(false);
      }
      if name == "-NaN" {
        WriteNaN(true);
      }
      if name == "Max +" {
        WriteMax(false);
      }
      if name == "Max -" {
        WriteMax(true);
      }
      if name == "Min +" {
        WriteMin(false);
      }
      if name == "Min -" {
        WriteMin(true);
      }
      if name == "Max +64bit" {
        WriteMax64(false);
      }
      if name == "Max -64bit" {
        WriteMax64(true);
      }
      if name == "π" {
        WritePi();
      }
    }

    /** The loop of `ieee754_breakdown` and `update_frame_label` that joins the labels of buttons
        lo .. hi - 1, reverses them and reads the result in base 2: the unsigned value of those
        bits, button lo least significant. */
    method ReadField(lo: nat, hi: nat) returns (n: nat)
      requires Valid() && lo <= hi <= 64
      ensures n == Unsigned(bits[lo..hi])
    {
      n := 0;
      var i := hi;
      while i > lo
        invariant lo <= i <= hi
        invariant n == Unsigned(bits[i..hi])
      {
        i := i - 1;
        assert bits[i..hi][1..] == bits[i + 1..hi];
        n := 2 * n + BitValue(bits[i]);
      }
    }

    /** `ieee754_breakdown`: the sign from bit 63, the exponent from bits 52..62 less the bias,
        the fraction F from bits 0..51 taken as F / 2^52 (the exact value of the source's sum of
        bit * 2^-(k + 1)), then the tests in the source's order. It gives the decoding of the
        register. */
    method Breakdown() returns (d: Decoded)
      requires Valid()
      ensures d == Decode(Value())
    {
      var negative := bits[63];
      var biased := ReadField(52, 63);
      assert bits[52..63] == Value()[52..63];
      assert biased == BiasedExponent(Value());
      var exponent := biased - Bias;
      var f := ReadField(0, 52);
      assert bits[0..52] == Value()[..52];
      assert f == FractionField(Value());
      var fraction := Fraction(f);
      if fraction == 0.0 && exponent == -1023 {
        d := Zero(negative);
      } else if fraction == 0.0 && exponent == 1024 {
        d := Infinity(negative);
      } else if fraction > 0.0 && exponent == 1024 {
        d := NaN(negative);
      } else {
        d := Number(ImplicitOne(negative, fraction, exponent), RemarkFor(fraction, exponent));
      }
    }

    /** `update_frame_label`: each nibble's hexadecimal digit, nibble 0 first, the string then
        reversed and split by a space after its eighth digit. It is the label of the register. */
    method FrameLabel() returns (shown: string)
      requires Valid()
      ensures shown == Label(Value())
    {
      var s1 := "";
      for i := 0 to 16
        invariant |s1| == i
        invariant forall k :: 0 <= k < i ==> s1[k] == HexDigit(Nibble(Value(), k))
      {
        var n := ReadField(4 * i, 4 * i + 4);
        assert bits[4 * i..4 * i + 4] == Value()[4 * i..4 * i + 4];
        s1 := s1 + [HexDigit(n)];
      }
      var s := seq(16, k requires 0 <= k < 16 => s1[15 - k]);
      assert s == Digits(Value());
      shown := s[..8] + " " + s[8..];
    }
  }
}
