/** Decoding a float loses nothing but the sign of zero: apart from NaNs, floats of one width that denote the same
    number have the same bits or are the two zeros. */
module FloatBits {
  import opened Bits
  import opened Bytes
  import opened Ieee754
  import opened FloatKeys

  lemma {:induction false} Pow2Adds(a: nat, b: nat)
    ensures Pow2(a + b) == Pow2(a) * Pow2(b)
  {
    if a > 0 {
      Pow2Adds(a - 1, b);
      assert Pow2(a + b) == 2 * Pow2(a - 1 + b);
      assert 2 * Pow2(a - 1) * Pow2(b) == 2 * (Pow2(a - 1) * Pow2(b));
    }
  }

  /** Measured in units of 2^-c, m times 2^k is a whole number. */
  lemma ScaleInUnits(m: nat, k: int, c: nat)
    requires k + c >= 0
    ensures Scale(m, k) * (Pow2(c) as real) == (m * Pow2(k + c)) as real
  {
    hide Pow2;
    if k >= 0 {
      Pow2Adds(k, c);
      WholeTimes(m, Pow2(k), Pow2(c));
    } else {
      Pow2Adds(-k, k + c);
      QuotientTimes(m, Pow2(-k), Pow2(k + c));
    }
  }

  lemma WholeTimes(m: nat, p: nat, q: nat)
    ensures (m * p) as real * (q as real) == (m * (p * q)) as real
  {
    assert m * p * q == m * (p * q);
    ProductAsReal(m * p, q);
  }

  lemma QuotientTimes(m: nat, p: nat, q: nat)
    requires p > 0
    ensures m as real / p as real * ((p * q) as real) == (m * q) as real
  {
    var x := m as real / p as real;
    assert x * p as real == m as real;
    ProductAsReal(p, q);
    ProductAsReal(m, q);
    assert x * (p as real * q as real) == x * p as real * q as real;
  }

  lemma ProductAsReal(a: nat, b: nat)
    ensures (a * b) as real == a as real * b as real
  {
  }

  lemma SameScale(m: nat, k: int, m': nat, k': int, c: nat)
    requires k + c >= 0 && k' + c >= 0 && Scale(m, k) == Scale(m', k')
    ensures m * Pow2(k + c) == m' * Pow2(k' + c)
  {
    hide Scale, Pow2;
    ScaleInUnits(m, k, c);
    ScaleInUnits(m', k', c);
  }

  /** A magnitude with biased exponent e and fraction f in units of the smallest one; `top` is the hidden bit. */
  function Units(top: nat, e: nat, f: nat): (n: nat) {
    if e == 0 then f else (top + f) * Pow2(e - 1)
  }

  lemma UnitsGrow(top: nat, e: nat, f: nat, e': nat, f': nat)
    requires f < top && f' < top && e < e'
    ensures Units(top, e, f) < Units(top, e', f')
  {
    Pow2Monotone(e, e' - 1);
    MulMono(Pow2(e), Pow2(e' - 1), top);
    MulMono(top, top + f', Pow2(e' - 1));
    if e > 0 {
      assert Pow2(e) == 2 * Pow2(e - 1);
      FullBinade(top, f, Pow2(e - 1));
    } else {
      MulMono(1, Pow2(e' - 1), top);
    }
  }

  lemma FullBinade(top: nat, f: nat, p: nat)
    requires f < top && p > 0
    ensures (top + f) * p < 2 * p * top
  {
    assert 2 * p * top - (top + f) * p == (top - f) * p;
    assert (top - f) * p > 0;
  }

  /** Different exponents or fractions are different magnitudes. */
  lemma UnitsInjective(top: nat, e: nat, f: nat, e': nat, f': nat)
    requires f < top && f' < top && Units(top, e, f) == Units(top, e', f')
    ensures e == e' && f == f'
  {
    if e < e' {
      UnitsGrow(top, e, f, e', f');
    } else if e' < e {
      UnitsGrow(top, e', f', e, f);
    } else if e > 0 {
      CancelFactor(top + f, top + f', Pow2(e - 1));
    }
  }

  lemma CancelFactor(a: nat, b: nat, p: nat)
    requires p > 0 && a * p == b * p
    ensures a == b
  {
    assert (a - b) * p == 0;
  }

  /** The magnitude of a float whose smallest unit is 2^-c. */
  function Magnitude(top: nat, c: nat, e: nat, f: nat): (r: real)
    ensures r >= 0.0
  {
    ScaleNonNegative(f, e - c);
    ScaleNonNegative(top + f, e - c - 1);
    if e == 0 then Scale(f, e - c) else Scale(top + f, e - c - 1)
  }

  lemma MagnitudeInjective(top: nat, c: nat, e: nat, f: nat, e': nat, f': nat)
    requires f < top && f' < top && Magnitude(top, c, e, f) == Magnitude(top, c, e', f')
    ensures e == e' && f == f'
  {
    hide Scale, Pow2;
    var m, k := if e == 0 then f else top + f, if e == 0 then e - c else e - c - 1;
    var m', k' := if e' == 0 then f' else top + f', if e' == 0 then e' - c else e' - c - 1;
    SameScale(m, k, m', k', c);
    PowerZero();
    UnitsInjective(top, e, f, e', f');
  }

  lemma PowerZero()
    ensures Pow2(0) == 1
  {
  }

  lemma ZeroMagnitude(top: nat, c: nat)
    requires top > 0
    ensures Magnitude(top, c, 0, 0) == 0.0
  {
  }

  /** Signed magnitudes agree only with equal signs and magnitudes, or if both are zero. */
  lemma SignedInjective(negative: bool, x: real, negative': bool, y: real)
    requires x >= 0.0 && y >= 0.0 && Signed(negative, x) == Signed(negative', y)
    ensures x == y && (negative == negative' || x == 0.0)
  {
  }

  lemma FiniteInjective(top: nat, c: nat, n: bool, e: nat, f: nat, n': bool, e': nat, f': nat)
    requires f < top && f' < top
    requires Signed(n, Magnitude(top, c, e, f)) == Signed(n', Magnitude(top, c, e', f'))
    ensures e == e' && f == f' && (n == n' || (e == 0 && f == 0))
  {
    hide Magnitude, Signed;
    SignedInjective(n, Magnitude(top, c, e, f), n', Magnitude(top, c, e', f'));
    MagnitudeInjective(top, c, e, f, e', f');
    ZeroMagnitude(top, c);
    if n != n' { MagnitudeInjective(top, c, e, f, 0, 0); }
  }

  // ---- The two widths ------------------------------------------------------------------------------

  predicate IsZero64(bits: nat) {
    bits % TWO_63 == 0
  }

  predicate IsZero32(bits: nat) {
    bits % 0x8000_0000 == 0
  }

  /** The three fields of a double, and what they denote. */
  lemma Fields64(bits: nat)
    requires bits < TWO_TO_THE_64
    ensures var f, e, n := bits % TWO_52, bits / TWO_52 % 2048, bits / TWO_63 % 2 == 1;
            && bits == (if n then TWO_63 else 0) + e * TWO_52 + f
            && Float64(bits) == if e == 2047 then if f != 0 then NaN else if n then NegInf else PosInf
                                else Finite(Signed(n, Magnitude(TWO_52, 1074, e, f)))
  {
    hide Scale, Signed;
  }

  lemma Float64Injective(a: nat, b: nat)
    requires a < TWO_TO_THE_64 && b < TWO_TO_THE_64 && Float64(a) == Float64(b) && !Float64(a).NaN?
    ensures a == b || (IsZero64(a) && IsZero64(b))
  {
    hide Float64, Magnitude, Signed;
    Fields64(a);
    Fields64(b);
    if Float64(a).Finite? {
      FiniteInjective(TWO_52, 1074, a / TWO_63 % 2 == 1, a / TWO_52 % 2048, a % TWO_52,
                      b / TWO_63 % 2 == 1, b / TWO_52 % 2048, b % TWO_52);
    }
  }

  lemma Fields32(bits: nat)
    requires bits < TWO_TO_THE_32
    ensures var f, e, n := bits % 0x80_0000, bits / 0x80_0000 % 256, bits / 0x8000_0000 % 2 == 1;
            && bits == (if n then 0x8000_0000 else 0) + e * 0x80_0000 + f
            && Float32(bits) == if e == 255 then if f != 0 then NaN else if n then NegInf else PosInf
                                else Finite(Signed(n, Magnitude(0x80_0000, 149, e, f)))
  {
    hide Scale, Signed;
  }

  lemma Float32Injective(a: nat, b: nat)
    requires a < TWO_TO_THE_32 && b < TWO_TO_THE_32 && Float32(a) == Float32(b) && !Float32(a).NaN?
    ensures a == b || (IsZero32(a) && IsZero32(b))
  {
    hide Float32, Magnitude, Signed;
    Fields32(a);
    Fields32(b);
    if Float32(a).Finite? {
      FiniteInjective(0x80_0000, 149, a / 0x8000_0000 % 2 == 1, a / 0x80_0000 % 256, a % 0x80_0000,
                      b / 0x8000_0000 % 2 == 1, b / 0x80_0000 % 256, b % 0x80_0000);
    }
  }
}
