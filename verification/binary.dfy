/** Sequences of bits read as unsigned binary numbers, least significant bit first.
    The register's fields and its hexadecimal nibbles are all read this way. */
module Binary {

  function Pow2(n: nat): (p: nat)
    ensures p >= 1
  {
    if n == 0 then 1 else 2 * Pow2(n - 1)
  }

  lemma {:induction false} Pow2Add(a: nat, b: nat)
    ensures Pow2(a + b) == Pow2(a) * Pow2(b)
  {
    if a > 0 {
      Pow2Add(a - 1, b);
      assert Pow2(a + b) == 2 * Pow2(a - 1 + b);
    }
  }

  /** The value of one bit: a set bit ("1") counts 1, a clear bit ("0") counts 0. */
  function BitValue(b: bool): (v: nat)
    ensures v <= 1 && (v == 1 <==> b)
  {
    if b then 1 else 0
  }

  /** The unsigned number that `s` spells, `s[0]` being the least significant bit. */
  function Unsigned(s: seq<bool>): (n: nat)
    ensures n < Pow2(|s|)
  {
    if s == [] then 0 else BitValue(s[0]) + 2 * Unsigned(s[1..])
  }

  /** The `w` low-order bits of `n`, least significant first: the inverse of Unsigned. */
  function ToBits(n: nat, w: nat): (s: seq<bool>)
    ensures |s| == w
  {
    if w == 0 then [] else [n % 2 == 1] + ToBits(n / 2, w - 1)
  }

  /** Bit `k` of `n`: the parity of n halved k times. */
  function BitOf(n: nat, k: nat): bool
  {
    if k == 0 then n % 2 == 1 else BitOf(n / 2, k - 1)
  }

  /** ToBits lists the bits of `n` from bit 0 upwards. */
  lemma {:induction false} ToBitsBitOf(n: nat, w: nat)
    ensures forall i :: 0 <= i < w ==> ToBits(n, w)[i] == BitOf(n, i)
  {
    if w > 0 {
      ToBitsBitOf(n / 2, w - 1);
    }
  }

  /** A number's bits are those of any bit sequence that spells it. */
  lemma FieldBits(n: nat, s: seq<bool>)
    requires Unsigned(s) == n
    ensures forall k :: 0 <= k < |s| ==> BitOf(n, k) == s[k]
  {
    ToBitsUnsigned(s);
    ToBitsBitOf(n, |s|);
  }

  lemma {:induction false} UnsignedToBits(n: nat, w: nat)
    requires n < Pow2(w)
    ensures Unsigned(ToBits(n, w)) == n
  {
    if w > 0 {
      UnsignedToBits(n / 2, w - 1);
      assert ToBits(n, w)[1..] == ToBits(n / 2, w - 1);
    }
  }

  lemma {:induction false} ToBitsUnsigned(s: seq<bool>)
    ensures ToBits(Unsigned(s), |s|) == s
  {
    if s != [] {
      ToBitsUnsigned(s[1..]);
      var n := Unsigned(s);
      assert n % 2 == BitValue(s[0]) && n / 2 == Unsigned(s[1..]);
      assert s == [s[0]] + s[1..];
    }
  }

  /** Two bit sequences of the same length with the same value are the same sequence. */
  lemma UnsignedInjective(s: seq<bool>, t: seq<bool>)
    requires |s| == |t| && Unsigned(s) == Unsigned(t)
    ensures s == t
  {
    ToBitsUnsigned(s);
    ToBitsUnsigned(t);
  }

  /** Concatenation puts the second sequence above the first. */
  lemma {:induction false} UnsignedAppend(a: seq<bool>, b: seq<bool>)
    ensures Unsigned(a + b) == Unsigned(a) + Pow2(|a|) * Unsigned(b)
  {
    if a == [] {
      assert a + b == b;
    } else {
      var rest := a[1..];
      assert (a + b)[0] == a[0] && (a + b)[1..] == rest + b;
      UnsignedAppend(rest, b);
      AppendStep(BitValue(a[0]), Unsigned(rest), Unsigned(b), Pow2(|rest|), Unsigned(a + b), Unsigned(rest + b));
    }
  }

  /** The arithmetic of one step of UnsignedAppend. */
  lemma AppendStep(bit: nat, low: nat, high: nat, p: nat, whole: nat, tail: nat)
    requires whole == bit + 2 * tail && tail == low + p * high
    ensures whole == (bit + 2 * low) + (2 * p) * high
  {
    Double(p, high);
  }

  lemma Double(p: nat, n: nat)
    ensures 2 * (p * n) == (2 * p) * n
  {
  }

  /** Four bits read as a number. */
  lemma Unsigned4(b: seq<bool>)
    requires |b| == 4
    ensures Unsigned(b) == BitValue(b[0]) + 2 * BitValue(b[1]) + 4 * BitValue(b[2]) + 8 * BitValue(b[3])
  {
    assert b[3..][1..] == [] && b[2..][1..] == b[3..] && b[1..][1..] == b[2..];
    assert Unsigned(b[3..]) == BitValue(b[3]);
    assert Unsigned(b[2..]) == BitValue(b[2]) + 2 * BitValue(b[3]);
    assert Unsigned(b[1..]) == BitValue(b[1]) + 2 * BitValue(b[2]) + 4 * BitValue(b[3]);
  }

  /** Flipping bit `i` moves the value by exactly 2^i, down if the bit was set, up otherwise. */
  lemma {:induction false} UnsignedFlip(s: seq<bool>, i: nat)
    requires i < |s|
    ensures Unsigned(s[i := !s[i]]) == if s[i] then Unsigned(s) - Pow2(i) else Unsigned(s) + Pow2(i)
  {
    var t := s[i := !s[i]];
    if i == 0 {
      assert t[1..] == s[1..];
    } else {
      assert t[1..] == s[1..][i - 1 := !s[i]];
      UnsignedFlip(s[1..], i - 1);
    }
  }

  /** A sequence spells 0 exactly when every bit is clear. */
  lemma {:induction false} UnsignedZero(s: seq<bool>)
    ensures Unsigned(s) == 0 <==> forall i :: 0 <= i < |s| ==> !s[i]
  {
    if s != [] {
      UnsignedZero(s[1..]);
      assert forall i :: 1 <= i < |s| ==> s[i] == s[1..][i - 1];
    }
  }

  /** A sequence spells 2^|s| - 1 exactly when every bit is set. */
  lemma {:induction false} UnsignedAllOnes(s: seq<bool>)
    ensures Unsigned(s) == Pow2(|s|) - 1 <==> forall i :: 0 <= i < |s| ==> s[i]
  {
    if s != [] {
      UnsignedAllOnes(s[1..]);
      assert forall i :: 1 <= i < |s| ==> s[i] == s[1..][i - 1];
    }
  }

  /** Division facts for a number written as `a + p * q` with `a` below `p`. */
  lemma DivModSplit(a: nat, p: nat, q: nat)
    requires a < p
    ensures (a + p * q) / p == q && (a + p * q) % p == a
  {
    var x := a + p * q;
    var d, r := x / p, x % p;
    assert p * d + r == x && 0 <= r < p;
    assert p * (d - q) == a - r;
    if d > q {
      MulAtLeast(p, d - q);
      assert false;
    } else if d < q {
      MulAtLeast(p, q - d);
      assert false;
    }
  }

  lemma MulAtLeast(p: nat, k: int)
    requires k >= 1
    ensures p * k >= p
  {
  }

  /** The digit of `l + p * (m + q * h)` in position `p` of base `q`, for `l` below `p`, is `m` below `q`. */
  lemma DigitOf(l: nat, p: nat, m: nat, q: nat, h: nat)
    requires l < p && m < q
    ensures (l + p * (m + q * h)) / p % q == m
  {
    DivModSplit(l, p, m + q * h);
    DivModSplit(m, q, h);
  }

  /** The middle part of a three-part sequence, read as a number, is the digit of the whole
      sequence's value at position 2^|low| in base 2^|mid|. */
  lemma GroupDigit(low: seq<bool>, mid: seq<bool>, high: seq<bool>)
    ensures Unsigned(mid) == (Unsigned(low + mid + high) / Pow2(|low|)) % Pow2(|mid|)
  {
    assert low + mid + high == low + (mid + high);
    UnsignedAppend(low, mid + high);
    UnsignedAppend(mid, high);
    DigitOf(Unsigned(low), Pow2(|low|), Unsigned(mid), Pow2(|mid|), Unsigned(high));
  }

  /** Bits lo .. hi - 1 set and every other bit clear, in a sequence of w bits. */
  function Run(lo: nat, hi: nat, w: nat): (s: seq<bool>)
    ensures |s| == w
  {
    seq(w, i => lo <= i < hi)
  }

  /** A run of set bits spells the difference of the two powers of two that bound it. */
  lemma {:induction false} UnsignedRun(lo: nat, hi: nat, w: nat)
    requires lo <= hi <= w
    ensures Unsigned(Run(lo, hi, w)) == Pow2(hi) - Pow2(lo)
  {
    if w > 0 {
      var s := Run(lo, hi, w);
      if lo > 0 {
        assert s[1..] == Run(lo - 1, hi - 1, w - 1);
        UnsignedRun(lo - 1, hi - 1, w - 1);
      } else if hi > 0 {
        assert s[1..] == Run(0, hi - 1, w - 1);
        UnsignedRun(0, hi - 1, w - 1);
      } else {
        assert s[1..] == Run(0, 0, w - 1);
        UnsignedRun(0, 0, w - 1);
      }
    }
  }

  /** The w low-order bits of 2^hi - 2^lo are the run lo .. hi - 1. */
  lemma ToBitsRun(lo: nat, hi: nat, w: nat)
    requires lo <= hi <= w
    ensures Pow2(lo) <= Pow2(hi) && ToBits(Pow2(hi) - Pow2(lo), w) == Run(lo, hi, w)
  {
    UnsignedRun(lo, hi, w);
    ToBitsUnsigned(Run(lo, hi, w));
  }

  /** Every other bit set: the bits whose position has parity `parity`. */
  function Alternate(parity: nat, w: nat): (s: seq<bool>)
    ensures |s| == w
  {
    seq(w, i => i % 2 == parity)
  }

  /** The even positions of 2n bits spell (4^n - 1) / 3 and the odd positions twice that. */
  lemma {:induction false} UnsignedAlternate(n: nat)
    ensures 3 * Unsigned(Alternate(0, 2 * n)) == Pow2(2 * n) - 1
    ensures Unsigned(Alternate(1, 2 * n)) == 2 * Unsigned(Alternate(0, 2 * n))
  {
    if n > 0 {
      UnsignedAlternate(n - 1);
      AlternateStep(0, n);
      AlternateStep(1, n);
      assert Pow2(2 * n) == 4 * Pow2(2 * n - 2);
    }
  }

  /** Two more positions below an alternating sequence: the lower of them is set for parity 0,
      the upper for parity 1. */
  lemma AlternateStep(parity: nat, n: nat)
    requires parity <= 1 && n > 0
    ensures Unsigned(Alternate(parity, 2 * n)) == (if parity == 0 then 1 else 2) + 4 * Unsigned(Alternate(parity, 2 * n - 2))
  {
    var s := Alternate(parity, 2 * n);
    assert s[1..][1..] == Alternate(parity, 2 * n - 2);
    assert s[0] == (parity == 0) && s[1..][0] == (parity == 1);
  }

  /** Hexadecimal digit `q` of `n`, digit 0 being the least significant. */
  function HexAt(n: nat, q: nat): (d: nat)
    ensures d < 16
  {
    if q == 0 then n % 16 else HexAt(n / 16, q - 1)
  }

  /** Hexadecimal digit q of n is the nibble of bits 4q .. 4q + 3 of n. */
  lemma {:induction false} HexBits(n: nat, q: nat)
    ensures HexAt(n, q) ==
      BitValue(BitOf(n, 4 * q)) + 2 * BitValue(BitOf(n, 4 * q + 1)) + 4 * BitValue(BitOf(n, 4 * q + 2)) + 8 * BitValue(BitOf(n, 4 * q + 3))
  {
    if q == 0 {
      LowNibble(n);
    } else {
      HexBits(n / 16, q - 1);
      var b := 4 * (q - 1);
      Shift4(n, b);
      Shift4(n, b + 1);
      Shift4(n, b + 2);
      Shift4(n, b + 3);
    }
  }

  /** n % 16 from the four low bits of n. */
  lemma LowNibble(n: nat)
    ensures n % 16 == BitValue(BitOf(n, 0)) + 2 * BitValue(BitOf(n, 1)) + 4 * BitValue(BitOf(n, 2)) + 8 * BitValue(BitOf(n, 3))
  {
    var n1, n2, n3 := n / 2, n / 2 / 2, n / 2 / 2 / 2;
    ModHalf(n, 8);
    ModHalf(n1, 4);
    ModHalf(n2, 2);
    assert BitOf(n, 1) == BitOf(n1, 0);
    assert BitOf(n, 2) == BitOf(n2, 0);
    assert BitOf(n, 3) == BitOf(n3, 0);
  }

  /** The remainder modulo 2m is the low bit and twice the remainder of the half modulo m. */
  lemma ModHalf(n: nat, m: nat)
    requires m > 0
    ensures n % (2 * m) == n % 2 + 2 * ((n / 2) % m)
  {
    var c, d := (n / 2) / m, (n / 2) % m;
    assert n / 2 == m * c + d;
    assert n == (2 * m) * c + (2 * d + n % 2);
    DivModSplit(2 * d + n % 2, 2 * m, c);
  }

  /** Bit k + 4 of n is bit k of n / 16. */
  lemma Shift4(n: nat, k: nat)
    ensures BitOf(n, k + 4) == BitOf(n / 16, k)
  {
    assert BitOf(n, k + 4) == BitOf(n / 2, k + 3);
    assert BitOf(n / 2, k + 3) == BitOf(n / 2 / 2, k + 2);
    assert BitOf(n / 2 / 2, k + 2) == BitOf(n / 2 / 2 / 2, k + 1);
    assert BitOf(n / 2 / 2 / 2, k + 1) == BitOf(n / 2 / 2 / 2 / 2, k);
    assert n / 2 / 2 / 2 / 2 == n / 16;
  }

  /** The hexadecimal digits of a number listed by repeated division: when each entry of `ns` is
      the one before divided by 16, digit q of the first is the last digit of entry q. */
  lemma {:induction false} HexChain(ns: seq<nat>, q: nat)
    requires q < |ns|
    requires forall i :: 0 < i < |ns| ==> ns[i] == ns[i - 1] / 16
    ensures HexAt(ns[0], q) == ns[q] % 16
  {
    if q > 0 {
      HexChain(ns[1..], q - 1);
    }
  }
}
