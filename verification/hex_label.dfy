/** The hexadecimal frame label of `update_frame_label`: the 64 bits in 16 nibbles of four,
    each shown as one upper-case hexadecimal digit, the nibble holding bit 63 first, with a
    space after the eighth digit. */
module HexLabel {
  import opened Binary
  import opened Binary64

  /** An upper-case hexadecimal digit character. */
  predicate IsHexChar(c: char)
  {
    '0' <= c <= '9' || 'A' <= c <= 'F'
  }

  /** The character of a digit value below 16, upper case as the label shows it. */
  function HexDigit(n: nat): (c: char)
    requires n < 16
    ensures IsHexChar(c)
  {
    if n < 10 then ('0' as int + n) as char else ('A' as int + n - 10) as char
  }

  /** The value of an upper-case hexadecimal digit; 0 for any other character. */
  function DigitValue(c: char): (n: nat)
    ensures n < 16
  {
    if '0' <= c <= '9' then (c - '0') as nat
    else if 'A' <= c <= 'F' then (c - 'A') as nat + 10
    else 0
  }

  lemma DigitValueOfHexDigit(n: nat)
    requires n < 16
    ensures DigitValue(HexDigit(n)) == n
  {
  }

  /** Nibble `k` is bits 4k .. 4k+3, bit 4k+3 most significant. */
  function Nibble(r: Bits64, k: nat): (n: nat)
    requires k < 16
    ensures n < 16
  {
    assert Pow2(4) == 16;
    Unsigned(r[4 * k..4 * k + 4])
  }

  /** A nibble's value from its four bits. */
  lemma NibbleBits(r: Bits64, k: nat)
    requires k < 16
    ensures Nibble(r, k) ==
      BitValue(r[4 * k]) + 2 * BitValue(r[4 * k + 1]) + 4 * BitValue(r[4 * k + 2]) + 8 * BitValue(r[4 * k + 3])
  {
    Unsigned4(r[4 * k..4 * k + 4]);
  }

  /** The sixteen digits, nibble 15 (bits 60..63) first and nibble 0 (bits 0..3) last. */
  function Digits(r: Bits64): (s: string)
    ensures |s| == 16
  {
    seq(16, j requires 0 <= j < 16 => HexDigit(Nibble(r, 15 - j)))
  }

  /** The label as shown: eight digits, a space, eight digits. */
  function Label(r: Bits64): (s: string)
  {
    Digits(r)[..8] + " " + Digits(r)[8..]
  }

  /** The shape of the label: 17 characters, a space at index 8, and digit k of the label (the
      space not counted) showing nibble 15 - k. */
  lemma LabelShape(r: Bits64)
    ensures |Label(r)| == 17 && Label(r)[8] == ' '
    ensures forall k :: 0 <= k < 8 ==> Label(r)[k] == HexDigit(Nibble(r, 15 - k))
    ensures forall k :: 9 <= k < 17 ==> Label(r)[k] == HexDigit(Nibble(r, 16 - k))
    ensures forall k :: 0 <= k < 17 && k != 8 ==> IsHexChar(Label(r)[k])
  {
  }

  // ---------------------------------------------------------------------------
  // The label read back

  /** A string of hexadecimal digits read as a number, first digit most significant. */
  function ParseHex(s: string): nat
  {
    if s == [] then 0 else 16 * ParseHex(s[..|s| - 1]) + DigitValue(s[|s| - 1])
  }

  /** The first m digits spell the value of the top 4m bits. */
  lemma {:induction false} DigitsPrefix(r: Bits64, m: nat)
    requires m <= 16
    ensures ParseHex(Digits(r)[..m]) == Unsigned(r[64 - 4 * m..])
  {
    if m == 0 {
      assert r[64..] == [];
    } else {
      DigitsPrefix(r, m - 1);
      DigitsStep(r, m);
      NibbleBelow(r, m);
      Horner(ParseHex(Digits(r)[..m]), ParseHex(Digits(r)[..m - 1]), Nibble(r, 16 - m),
             Unsigned(r[64 - 4 * m..]), Unsigned(r[68 - 4 * m..]));
    }
  }

  /** One step of reading digits: the same nibble under the same upper part. */
  lemma Horner(shown: nat, shownAbove: nat, nibble: nat, value: nat, valueAbove: nat)
    requires shown == 16 * shownAbove + nibble && value == nibble + 16 * valueAbove
    requires shownAbove == valueAbove
    ensures shown == value
  {
  }

  /** Reading one more digit multiplies by 16 and adds the nibble it shows. */
  lemma DigitsStep(r: Bits64, m: nat)
    requires 0 < m <= 16
    ensures ParseHex(Digits(r)[..m]) == 16 * ParseHex(Digits(r)[..m - 1]) + Nibble(r, 16 - m)
  {
    var d := Digits(r)[..m];
    assert d[..m - 1] == Digits(r)[..m - 1];
    DigitValueOfHexDigit(Nibble(r, 16 - m));
  }

  /** The top 4m bits are nibble 16 - m with the top 4(m - 1) bits above it. */
  lemma NibbleBelow(r: Bits64, m: nat)
    requires 0 < m <= 16
    ensures Unsigned(r[64 - 4 * m..]) == Nibble(r, 16 - m) + 16 * Unsigned(r[68 - 4 * m..])
  {
    var nibble, upper := r[64 - 4 * m..68 - 4 * m], r[68 - 4 * m..];
    assert r[64 - 4 * m..] == nibble + upper;
    UnsignedAppend(nibble, upper);
    assert Pow2(4) == 16;
  }

  /** The sixteen digits read back give the register's 64-bit word. */
  lemma DigitsDenote(r: Bits64)
    ensures ParseHex(Digits(r)) == Unsigned(r)
  {
    DigitsPrefix(r, 16);
    assert Digits(r)[..16] == Digits(r);
    assert r[0..] == r;
  }

  /** The label determines the register: different registers never show the same label. */
  lemma LabelInjective(r: Bits64, t: Bits64)
    requires Label(r) == Label(t)
    ensures r == t
  {
    assert Digits(r) == Label(r)[..8] + Label(r)[9..];
    assert Digits(t) == Label(t)[..8] + Label(t)[9..];
    DigitsDenote(r);
    DigitsDenote(t);
    UnsignedInjective(r, t);
  }

  // ---------------------------------------------------------------------------
  // The label computed from the word

  /** The digits of a 64-bit word computed arithmetically: digit j is (w / 16^(15 - j)) % 16. */
  function WordDigits(w: nat): (s: string)
    ensures |s| == 16
  {
    seq(16, j requires 0 <= j < 16 => HexDigit((w / Pow2(60 - 4 * j)) % 16))
  }

  /** The label of a 64-bit word computed arithmetically. */
  function WordLabel(w: nat): string
  {
    WordDigits(w)[..8] + " " + WordDigits(w)[8..]
  }

  lemma NibbleOfWord(r: Bits64, k: nat)
    requires k < 16
    ensures Nibble(r, k) == (Unsigned(r) / Pow2(4 * k)) % 16
  {
    var low, mid, high := r[..4 * k], r[4 * k..4 * k + 4], r[4 * k + 4..];
    assert r == low + mid + high;
    GroupDigit(low, mid, high);
    assert Pow2(4) == 16;
  }

  /** The label shows the register's word in hexadecimal. */
  lemma LabelIsWordLabel(r: Bits64)
    ensures Label(r) == WordLabel(Unsigned(r))
  {
    assert Digits(r) == WordDigits(Unsigned(r)) by {
      forall j | 0 <= j < 16
        ensures Digits(r)[j] == WordDigits(Unsigned(r))[j]
      {
        NibbleOfWord(r, 15 - j);
      }
    }
  }

  // ---------------------------------------------------------------------------
  // The label computed from the fields

  /** Digit j of the register with the given fields, from the left: the sign bit and the biased
      exponent make the first three digits, as a twelve-bit number; the fraction field makes the
      other thirteen. */
  function FieldDigit(negative: bool, biased: nat, fraction: nat, j: nat): char
    requires biased <= MaxBiased && j < 16
  {
    TopDigit(biased);
    if j == 0 then HexDigit(8 * BitValue(negative) + HexAt(biased, 2))
    else if j < 3 then HexDigit(HexAt(biased, 2 - j))
    else HexDigit(HexAt(fraction, 15 - j))
  }

  /** The top hexadecimal digit of an eleven-bit exponent is below 8. */
  lemma TopDigit(biased: nat)
    requires biased <= MaxBiased
    ensures HexAt(biased, 2) < 8
  {
    assert HexAt(biased, 2) == HexAt(biased / 16, 1) == HexAt(biased / 16 / 16, 0);
  }

  /** Each nibble of an encoded register: the fraction's digits below, then the exponent's, the
      sign sitting in the top bit of the last. */
  lemma NibbleOfEncode(negative: bool, biased: nat, fraction: nat, k: nat)
    requires biased <= MaxBiased && fraction < Hidden && k < 16
    ensures Nibble(Encode(negative, biased, fraction), k) ==
      if k < 13 then HexAt(fraction, k)
      else if k < 15 then HexAt(biased, k - 13)
      else 8 * BitValue(negative) + HexAt(biased, 2)
  {
    var r := Encode(negative, biased, fraction);
    EncodeBitOf(negative, biased, fraction);
    NibbleBits(r, k);
    if k < 13 {
      HexBits(fraction, k);
    } else {
      HexBits(biased, k - 13);
      TopDigit(biased);
    }
  }

  /** The label shows the fields: the sign and exponent in three digits, then the fraction. */
  lemma DigitsOfEncode(negative: bool, biased: nat, fraction: nat)
    requires biased <= MaxBiased && fraction < Hidden
    ensures forall j :: 0 <= j < 16 ==> Digits(Encode(negative, biased, fraction))[j] == FieldDigit(negative, biased, fraction, j)
  {
    forall j | 0 <= j < 16
      ensures Digits(Encode(negative, biased, fraction))[j] == FieldDigit(negative, biased, fraction, j)
    {
      NibbleOfEncode(negative, biased, fraction, 15 - j);
    }
  }

  /** The label of an encoded register, given the digit it shows at each of its 17 places. */
  lemma ShownLabel(negative: bool, biased: nat, fraction: nat, shown: string)
    requires biased <= MaxBiased && fraction < Hidden
    requires |shown| == 17 && shown[8] == ' '
    requires FieldDigit(negative, biased, fraction, 0) == shown[0] && FieldDigit(negative, biased, fraction, 1) == shown[1]
    requires FieldDigit(negative, biased, fraction, 2) == shown[2] && FieldDigit(negative, biased, fraction, 3) == shown[3]
    requires FieldDigit(negative, biased, fraction, 4) == shown[4] && FieldDigit(negative, biased, fraction, 5) == shown[5]
    requires FieldDigit(negative, biased, fraction, 6) == shown[6] && FieldDigit(negative, biased, fraction, 7) == shown[7]
    requires FieldDigit(negative, biased, fraction, 8) == shown[9] && FieldDigit(negative, biased, fraction, 9) == shown[10]
    requires FieldDigit(negative, biased, fraction, 10) == shown[11] && FieldDigit(negative, biased, fraction, 11) == shown[12]
    requires FieldDigit(negative, biased, fraction, 12) == shown[13] && FieldDigit(negative, biased, fraction, 13) == shown[14]
    requires FieldDigit(negative, biased, fraction, 14) == shown[15] && FieldDigit(negative, biased, fraction, 15) == shown[16]
    ensures Label(Encode(negative, biased, fraction)) == shown
  {
    DigitsOfEncode(negative, biased, fraction);
    Spelled(Label(Encode(negative, biased, fraction)));
    Spelled(shown);
  }

  /** A 17-character string is the display of its characters. */
  lemma Spelled(s: string)
    requires |s| == 17
    ensures s == [s[0], s[1], s[2], s[3], s[4], s[5], s[6], s[7], s[8], s[9], s[10], s[11], s[12], s[13], s[14], s[15], s[16]]
  {
  }

  lemma ZeroLabel()
    ensures Label(seq(64, i => false)) == "00000000 00000000"
  {
    var r: Bits64 := seq(64, i => false);
    forall k | 0 <= k < 16
      ensures Nibble(r, k) == 0
    {
      UnsignedZero(r[4 * k..4 * k + 4]);
    }
  }

  lemma OnesLabel()
    ensures Label(seq(64, i => true)) == "FFFFFFFF FFFFFFFF"
  {
    var r: Bits64 := seq(64, i => true);
    forall k | 0 <= k < 16
      ensures Nibble(r, k) == 15
    {
      UnsignedAllOnes(r[4 * k..4 * k + 4]);
      assert Pow2(4) == 16;
    }
  }
}
