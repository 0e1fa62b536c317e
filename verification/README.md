# Double precision bit register

`double_precision.py` is a small GTK tool for exploring IEEE 754 binary64
("double precision") numbers. Its main window shows 64 bit buttons, each labelled
"0" or "1". Button i is bit i of the datum: bits 0..51 are the fraction, bits
52..62 the biased exponent and bit 63 the sign. Clicking a button flips it. A sign
check button, four exponent presets, six fraction preset buttons (five distinct
presets, since ".000..." appears twice) and thirteen special-case buttons rewrite
groups of bits. After every change the window
updates two things:

- a hexadecimal label with sixteen upper-case digits, a space after the eighth;
- a breakdown that classifies the datum as ±0, ±∞ or ±NaN, or computes its value
  as (-1)^sign * (1 + fraction) * 2^(biased - 1023). The breakdown appends
  "Max ±ve" to every number with biased exponent 2046 and a nonzero fraction, and
  "Min ±ve" to the numbers with biased exponent 1 and a zero fraction.

This project models that register and the code that rewrites and reads it.

- `binary.dfy` (module `Binary`): little-endian bit strings and their unsigned
  values. It covers 2^k, conversion in both directions, runs of equal bits,
  alternating bits, and hexadecimal digits of a number.
- `binary64.dfy` (module `Binary64`): the three fields of the 64-bit register and
  how to write each one. It holds `Decode`, the decoding that
  `ieee754_breakdown` performs, as a function on exact reals. It also holds
  `StandardDecode`, the decoding of section 3.4 of IEEE 754-2008, for
  comparison.
- `hex_label.dfy` (module `HexLabel`): the frame label built by
  `update_frame_label`, and the proof that it shows the register's 64-bit word.
- `presets.dfy` (module `Presets`): the labels of the preset and special-case
  buttons and the bit patterns each one writes. It also proves what each pattern
  decodes to and which label it shows.
- `register.dfy` (module `DoublePrecision`): class `BitRegister`. It owns the 64
  buttons as an `array<bool>` and has one method per callback. The callbacks
  rewrite the array in place with the source's own `for` loops. The read-only
  methods `Breakdown` and `FrameLabel` run the source's loops over the buttons.
  Each method is proved equal to the pure function that specifies it.

## Model

| member | source | states |
|---|---|---|
| DoublePrecision.BitRegister.constructor | double_precision.py:99-104 | The window starts with bits 52..61 set and every other bit clear: the register encodes sign 0, biased exponent 1023, fraction 0, and decodes to the number +1.0 with no remark |
| DoublePrecision.InitialBits | double_precision.py:99-101 | In the initial register, bit i is set exactly when 52 <= i < 62 |
| DoublePrecision.InitialLabel | double_precision.py:99-103 | The initial register shows the label "3FF00000 00000000" |
| DoublePrecision.BitRegister.ButtonBit | double_precision.py:608-612 | A click on bit button `ident` flips that bit and leaves the other 63 bits unchanged |
| DoublePrecision.Toggle | double_precision.py:612 | The register after a click on bit i: bit i negated and every other bit kept |
| DoublePrecision.ToggleInvolution | double_precision.py:608-612 | A second toggle of the same bit restores the register |
| DoublePrecision.ToggleFields | double_precision.py:608-612 | Toggling fraction bit i moves the fraction field F by ±2^i. Toggling exponent bit i moves the biased exponent by ±2^(i-52). Bit 63 flips the sign. The other fields are unchanged |
| DoublePrecision.BitRegister.SignAdjust | double_precision.py:387-392 | The sign check button writes bit 63 (set when checked) and keeps the exponent and fraction |
| DoublePrecision.BitRegister.WriteExponent | double_precision.py:363-381 | The loops of each exponent preset put that preset's biased exponent in bits 52..62 and keep the sign and fraction |
| DoublePrecision.BitRegister.ButtonExponent | double_precision.py:356-381 | A known exponent label writes its exponent (0x3FF, 0x400, 0x000, 0x7FF) and keeps sign and fraction; any other label leaves the register unchanged |
| DoublePrecision.BitRegister.WriteFraction | double_precision.py:322-350 | The loops of each fraction preset put that preset's fraction in bits 0..51 and keep the sign and exponent |
| DoublePrecision.BitRegister.ButtonFraction | double_precision.py:315-350 | A known fraction label writes its fraction and keeps sign and exponent. ".000..." is tested twice and the second test leaves the same result. Any other label leaves the register unchanged |
| DoublePrecision.BitRegister.SetRun | double_precision.py:364-365 | One `for i in range(lo, hi)` loop: bits lo..hi-1 get the value and every other bit keeps its old value |
| DoublePrecision.BitRegister.SetStride | double_precision.py:343-344 | One `for i in range(lo, hi, 2)` loop: bits lo, lo+2, ... below hi get the value and every other bit keeps its old value |
| DoublePrecision.BitRegister.WriteText | double_precision.py:303-309 | The π numeral, reversed, is written into buttons 0..len-1: button i gets the digit i places from the numeral's end. The other buttons are kept |
| DoublePrecision.BitRegister.WriteZero | double_precision.py:202-212 | "+0" and "-0" leave the register with sign as given, biased exponent 0 and fraction 0 |
| DoublePrecision.BitRegister.WriteInfinity | double_precision.py:214-226 | "+∞" and "-∞" leave biased exponent 0x7FF and fraction 0 |
| DoublePrecision.BitRegister.WriteNaN | double_precision.py:228-246 | "+NaN" and "-NaN" leave biased exponent 0x7FF and fraction 1 |
| DoublePrecision.BitRegister.WriteMax | double_precision.py:248-261 | "Max +" and "Max -" leave biased exponent 0x7FE and fraction 2^52 - 1 |
| DoublePrecision.BitRegister.WriteMin | double_precision.py:263-278 | "Min +" and "Min -" leave biased exponent 0x001 and fraction 0 |
| DoublePrecision.BitRegister.WriteMax64 | double_precision.py:280-297 | "Max +64bit" and "Max -64bit" leave biased exponent 0x43E and fraction 0, as the bits the code sets give |
| DoublePrecision.BitRegister.WritePi | double_precision.py:300-309 | "π" leaves sign 0, biased exponent 0x400 and π's 52-bit fraction 0x921FB54442D18 |
| DoublePrecision.BitRegister.ButtonExtreme | double_precision.py:197-309 | A known special-case label overwrites all 64 bits with that case's pattern; any other label leaves the register unchanged |
| DoublePrecision.BitRegister.ReadField | double_precision.py:406-411 | Joining the labels of buttons lo..hi-1, reversing them and reading them in base 2 gives the unsigned value of those bits, with button lo least significant |
| DoublePrecision.BitRegister.Breakdown | double_precision.py:397-483 | The breakdown of the register's buttons is `Decode` of the register's value |
| DoublePrecision.BitRegister.FrameLabel | double_precision.py:497-516 | The label built from the 16 nibbles of the buttons is `Label` of the register's value |
| Binary.UnsignedToBits | double_precision.py:406-411 | Reading back the bits of n in w places gives n again, for n < 2^w |
| Binary.ToBitsUnsigned | double_precision.py:406-411 | Writing out the value of a bit string in as many places gives the string back |
| Binary.UnsignedFlip | double_precision.py:608-612 | Flipping bit i of a bit string moves its value by exactly 2^i, up or down by the bit's old value |
| Binary.UnsignedRun | double_precision.py:323-338 | A run of set bits from lo to hi has the value 2^hi - 2^lo |
| Binary.UnsignedAlternate | double_precision.py:340-350 | 2n alternating bits with the even bits set have the value (2^2n - 1) / 3, and those with the odd bits set have twice that |
| Binary64.FieldsOfEncode | double_precision.py:402-423 | Reading the sign, biased exponent and fraction field of an encoded register gives back the fields it was encoded from |
| Binary64.EncodeOfFields | double_precision.py:402-423 | Every register is the encoding of its own three fields |
| Binary64.BiasedExponent | double_precision.py:405-411 | Definition: the biased exponent, bits 52..62 read in base 2, bit 62 most significant; its contract bounds it by 2047 |
| Binary64.FractionField | double_precision.py:413-418 | Definition: the fraction field F, bits 0..51 read in base 2, bit 51 most significant; its contract bounds it below 2^52 |
| Binary64.WithSign | double_precision.py:387-392 | Definition: the register with a new sign and the old exponent and fraction. `WithSignBits` proves it changes bit 63 alone |
| Binary64.WithExponent | double_precision.py:363-381 | Definition: the register with a new biased exponent and the old sign and fraction. `WithExponentBits` proves it changes bits 52..62 alone and reads back the exponent |
| Binary64.WithFraction | double_precision.py:322-350 | Definition: the register with a new fraction field and the old sign and exponent. `WithFractionBits` proves it changes bits 0..51 alone and reads back the fraction |
| Binary64.RemarkFor | double_precision.py:466-483 | Definition: "Max" for a nonzero fraction with exponent 1023, "Min" for a zero fraction with exponent -1022, no remark otherwise. `DecodeNumber` states both conditions on the fields, each as an if-and-only-if |
| Binary64.ImplicitOne | double_precision.py:456-458 | Definition: the formula (-1)^sign * (1 + fraction) * 2^exponent on exact reals. `ImplicitExact` gives its value with an integer significand |
| Binary64.DecodeFields | double_precision.py:431-483 | Definition: the decoder's tests in the source's order on sign, biased exponent and F, ending in the implicit-1 formula and the remark. `FieldsClasses` and `NumberFields` state what it returns |
| Binary64.Decode | double_precision.py:397-483 | Definition: `DecodeFields` of the register's three fields. `DecodeClasses`, `DecodeClassesByBits` and `DecodeNumber` state its classes and values |
| Binary64.WithSignBits | double_precision.py:387-392 | Writing the sign changes bit 63 alone |
| Binary64.WithExponentBits | double_precision.py:363-381 | Writing the exponent keeps bits 0..51 and 63, and the new exponent is read back |
| Binary64.WithFractionBits | double_precision.py:322-350 | Writing the fraction keeps bits 52..63, and the new fraction is read back |
| Binary64.WithFractionTwice | double_precision.py:322-334 | Writing a second fraction over the first leaves only the second |
| Binary64.DecodeClasses | double_precision.py:431-453 | The decoder gives ±0 exactly for exponent and fraction 0, ±∞ exactly for exponent 0x7FF and fraction 0, ±NaN exactly for exponent 0x7FF and a nonzero fraction, and a number otherwise. The specials carry the sign bit |
| Binary64.DecodeClassesByBits | double_precision.py:431-453 | The same classes stated on the bits: ±0 exactly when bits 0..62 are clear, ±∞ and NaN by bits 52..62 all set and the fraction bits clear or not |
| Binary64.FieldsByBits | double_precision.py:406-423 | The exponent is 0 or 0x7FF, and the fraction is 0, exactly when the bits holding them are all clear or all set |
| Binary64.DecodeNumber | double_precision.py:456-483 | A number's value is (-1)^sign * (2^52 + F) * 2^(biased - 1075), which is nonzero with the sign of bit 63. The remark is "Max" exactly for biased 2046 with a nonzero fraction and "Min" exactly for biased 1 with a zero fraction |
| Binary64.ImplicitExact | double_precision.py:456-458 | The formula (-1)^s * (1 + F/2^52) * 2^e is the exact value with integer significand 2^52 + F and exponent e - 52 |
| Binary64.ExactValueFacts | double_precision.py:456-458 | An exact value is zero only for significand 0 and negative only for a set sign. For a fixed sign and exponent it determines the significand |
| Binary64.DecodeOne | double_precision.py:99-104 | The initial register decodes to the number +1.0 with no remark |
| Binary64.Fraction | double_precision.py:419-423 | The fraction F/2^52 is never negative, is zero exactly when F is 0, and is below 1 for every 52-bit F |
| Binary64.SubnormalDeparture | double_precision.py:456-458 | The decoder agrees with section 3.4 of IEEE 754-2008 exactly off the subnormals. On a subnormal the decoder keeps the implicit leading 1 and gives (-1)^s * (2^52 + F) * 2^-1075, where the standard gives (-1)^s * 2F * 2^-1075 |
| Binary64.ScaleNatural | double_precision.py:456-458 | 2^e as an exact real is the natural number 2^e for e >= 0 |
| HexLabel.HexDigit | double_precision.py:511 | Definition of the digit character of a nibble value; it is always an upper-case hexadecimal digit |
| HexLabel.Nibble | double_precision.py:507-511 | Definition: nibble k is bits 4k..4k+3 read in base 2, bit 4k+3 most significant; its contract bounds it below 16 |
| HexLabel.Digits | double_precision.py:507-514 | Definition: the sixteen digits, nibble 15 first, as the string built nibble 0 first and then reversed. Its contract gives the length 16; `LabelShape` and `DigitsDenote` state what the digits show |
| HexLabel.Label | double_precision.py:514-516 | Definition: the first eight digits, a space, the last eight. `LabelShape`, `DigitsDenote` and `LabelInjective` state what it shows |
| HexLabel.LabelShape | double_precision.py:497-516 | The label has 17 characters with a space at index 8. Digit k of the label is nibble 15-k before the space and nibble 16-k after it. Every other character is an upper-case hexadecimal digit |
| HexLabel.NibbleBits | double_precision.py:507-511 | A nibble's value is read from its four bits, bit 4k+3 most significant |
| HexLabel.DigitValueOfHexDigit | double_precision.py:511 | An upper-case hex digit character reads back as its value |
| HexLabel.DigitsDenote | double_precision.py:507-516 | The sixteen digits read as a hexadecimal number give the register's 64-bit unsigned word |
| HexLabel.LabelInjective | double_precision.py:497-516 | Different registers never show the same label |
| HexLabel.LabelIsWordLabel | double_precision.py:497-516 | The label equals the arithmetic rendering of the 64-bit word: digit j is (w / 16^(15-j)) mod 16 |
| HexLabel.DigitsOfEncode | double_precision.py:497-516 | The first digit of the label shows the sign and the top exponent bits, the next two the rest of the exponent, and the last thirteen the fraction |
| HexLabel.ZeroLabel | double_precision.py:497-516 | The all-clear register shows "00000000 00000000" |
| HexLabel.OnesLabel | double_precision.py:497-516 | The all-set register shows "FFFFFFFF FFFFFFFF" |
| Presets.ExponentOfLabel | double_precision.py:145 | A label that selects an exponent preset is that preset's own label |
| Presets.ExponentButtonsSelect | double_precision.py:145 | Every exponent preset has a button in the box, every button in the box selects a preset, and each label selects its own preset |
| Presets.ExponentPresetBits | double_precision.py:363-381 | The bits the exponent preset loops leave in place are exactly those of the preset's biased exponent; the other bits are kept |
| Presets.ExponentValueBits | double_precision.py:363-381 | Bit k of each preset's biased exponent is the bit its loops write |
| Presets.ExponentPresetSpecials | double_precision.py:379-381 | "All" makes the register ±∞ for a zero fraction and ±NaN otherwise. "Clear" with a zero fraction makes it ±0 |
| Presets.ExponentPresetNumbers | double_precision.py:363-373 | With a zero fraction "1" gives ±1 and "2" gives ±2. With any fraction both give numbers, and "2" gives twice the value "1" gives |
| Presets.FractionOfLabel | double_precision.py:170 | A label that selects a fraction preset is that preset's own label |
| Presets.FractionButtonsSelect | double_precision.py:170 | Every fraction preset has a button in the box (".000..." twice), every button selects a preset, and each label selects its own preset |
| Presets.FractionPresetBits | double_precision.py:322-350 | The bits the fraction preset loops leave in place are exactly those of the preset's fraction field; the other bits are kept |
| Presets.AlternateValues | double_precision.py:340-350 | ".0101..." writes the field 0x5555555555555 and ".1010..." writes 0xAAAAAAAAAAAAA |
| Presets.FractionPresetMeaning | double_precision.py:322-338 | ".000..." is the fraction 0, ".100..." the fraction 1/2 and ".111..." the fraction 1 - 2^-52 |
| Presets.SpecialOfLabel | double_precision.py:189-190 | A label that selects a special case is that case's own label |
| Presets.SpecialButtonsSelect | double_precision.py:189-190 | Each of the thirteen special cases has a button in the box and its label selects it |
| Presets.SpecialButtonsKnown | double_precision.py:189-190 | Every button in the special-case box selects a special case |
| Presets.SpecialPattern | double_precision.py:202-309 | Definition: the register each special-case button leaves, given by sign, biased exponent and fraction field. The `*Bits` lemmas below tie it to the bits each button's statements set |
| Presets.ZeroBits | double_precision.py:202-212 | "±0" is every bit clear except the sign |
| Presets.InfinityBits | double_precision.py:214-226 | "±∞" has bits 52..62 set, the sign as given, and the other bits clear |
| Presets.NaNBits | double_precision.py:228-246 | "±NaN" is "±∞" with bit 0 also set |
| Presets.MaxBits | double_precision.py:248-261 | "Max ±" is every bit set except bit 52 and, for "Max +", bit 63 |
| Presets.MinBits | double_precision.py:263-278 | "Min ±" is bit 52 set with the sign as given, and every other bit clear |
| Presets.Max64Bits | double_precision.py:280-297 | "Max ±64bit" is bits 53..57 and 62 set with the sign as given, and every other bit clear |
| Presets.PiPatternBits | double_precision.py:300-309 | "π" is bit 62 plus the reversed numeral in bits 0..51, and every other bit clear |
| Presets.PiValue | double_precision.py:303 | The π numeral spells the fraction field 0x921FB54442D18 |
| Presets.ZeroDecodes | double_precision.py:431-437 | "±0" decodes as zero with its sign |
| Presets.InfinityDecodes | double_precision.py:439-445 | "±∞" decodes as infinity with its sign |
| Presets.NaNDecodes | double_precision.py:447-453 | "±NaN" decodes as NaN with its sign |
| Presets.MaxDecodes | double_precision.py:466-473 | "Max ±" decodes to ±(2^53 - 1) * 2^971, the largest finite double, with the "Max" remark |
| Presets.MinDecodes | double_precision.py:477-483 | "Min ±" decodes to ±2^-1022, the smallest normal double, with the "Min" remark |
| Presets.Max64Decodes | double_precision.py:280-297 | "Max ±64bit" decodes to ±2^63 with no remark. This is one more than the largest 64-bit signed integer, 0x7FFFFFFFFFFFFFFF |
| Presets.PiDecodes | double_precision.py:300-309 | "π" decodes to (2^52 + F) * 2^-51, which lies strictly between 3.141592653589793 and 3.141592653589794 |
| Presets.ZeroLabelShown | double_precision.py:202-212 | "+0" shows 00000000 00000000 and "-0" shows 80000000 00000000 |
| Presets.InfinityLabel | double_precision.py:214-226 | "+∞" shows 7FF00000 00000000 and "-∞" shows FFF00000 00000000 |
| Presets.NaNLabel | double_precision.py:228-246 | "+NaN" shows 7FF00000 00000001 and "-NaN" shows FFF00000 00000001 |
| Presets.MaxLabel | double_precision.py:248-261 | "Max +" shows 7FEFFFFF FFFFFFFF and "Max -" shows FFEFFFFF FFFFFFFF |
| Presets.MinLabel | double_precision.py:263-278 | "Min +" shows 00100000 00000000 and "Min -" shows 80100000 00000000 |
| Presets.Max64Label | double_precision.py:280-297 | "Max +64bit" shows 43E00000 00000000 and "Max -64bit" shows C3E00000 00000000 |
| Presets.PiLabel | double_precision.py:300-302 | "π" shows 400921FB 54442D18 |

## Left out

- The GTK user interface is not modelled: windows, grids, CSS, the logo, the Glade menu and the main loop.
- File handling (`cb_open`, `cb_new`, `cb_save`, `cb_save_as`, lines 618-723) is not modelled: it is I/O.
- The popover menu items and the About dialog (lines 727-762) are not modelled: they are UI only.
- DoublePrecision.BitRegister.Breakdown: returns the exact real value and not Python's float. Python's `str` of the float, its rounding, and the `OverflowError` handler (lines 485-488) are left out. The sum of `bit * 2**-(k+1)` is taken as the exact F / 2^52, and that sum is exact in binary64 too. The product `(1 + fraction) * 2**exponent` (line 458) is a binary64 multiplication, however, and it rounds on subnormals (biased exponent 0) with an odd F. For 00000000 00000001 the source gets exactly 2^-1023, while `Decode` keeps (2^52 + 1) * 2^-1075. The model keeps the exact value; `Binary64.SubnormalDeparture` states that value on every subnormal.
- Binary64.Decode: the advisory text is modelled as a tag (`Plain`, `MaxRemark`, `MinRemark`), not as label strings. The sign is folded into the value, since the code appends "+ve" or "-ve" by the sign bit alone.
- The check button's resync with bit 63 at the end of `ieee754_breakdown` (lines 490-494) is not modelled. It only reflects bit 63 back into a widget, and `SignAdjust` already states the other direction.
- The register has a single frame (`index = 0`, `count = 1`): the loop of `update_frame_label` over several frames is modelled for the one frame the window creates.
- Each callback's final calls to `update_frame_label` and `ieee754_breakdown` are not chained inside the methods. The two are separate read-only methods, `FrameLabel` and `Breakdown`, that any state can be passed through.
- Subnormals are decoded as the code decodes them, with the implicit leading 1 and exponent -1023. `StandardDecode` and `SubnormalDeparture` state where that differs from IEEE 754.
- "Max ±64bit": the comments beside these buttons say 7FFF FFFF FFFF FFFF and 8000 0000 0000 0000. The model follows the bits the code sets, which are the doubles ±2^63 (43E00000 00000000 and C3E00000 00000000).
- A button label that no callback tests leaves the register unchanged, as the code's chain of independent `if`s does. No error is raised.
- The hexadecimal label has a space after its eighth digit, as `update_frame_label` builds it.
