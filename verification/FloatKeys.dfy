/** Which floats compare soundly with 64-bit integers. Converting an integer above 2^53 to double loses bits, so
    some floats swallow several integers at once; exactly the others keep their place among the integers. */
module FloatKeys {
  import opened Bits
  import opened Bytes
  import opened Ieee754

  /** The values an integer of any of the eight kinds can take. */
  predicate InIntRange(n: int) {
    -TWO_63 <= n < TWO_TO_THE_64
  }

  predicate IsIntegral(r: real) {
    r == r.Floor as real
  }

  /** A multiple of four, at least 2^53 away from zero, and within reach of a 64-bit integer. */
  predicate Absorbs(x: Num) {
    && x.Finite?
    && IsIntegral(x.r)
    && x.r.Floor % 4 == 0
    && (TWO_53 <= x.r.Floor <= TWO_TO_THE_64 || -TWO_63 <= x.r.Floor <= -TWO_53)
  }

  predicate IsTame(x: Num) {
    !x.NaN? && !Absorbs(x)
  }

  // ---- The spacing of doubles beyond 2^53 ----------------------------------------------

  /** A magnitude a 53-bit significand can express: beyond 2^53 even, beyond 2^54 a multiple of four. */
  predicate IsSpaced(r: real) {
    && (r >= TWO_53 as real ==> IsIntegral(r) && r.Floor % 2 == 0)
    && (r >= TWO_54 as real ==> r.Floor % 4 == 0)
  }

  lemma DivideShrinks(x: real, p: real)
    requires x >= 0.0 && p >= 1.0
    ensures x / p <= x
  {
    assert x / p * p == x;
    assert x / p >= 0.0;
    assert x / p * p - x / p == x / p * (p - 1.0);
  }

  lemma ScaleSmall(m: nat, k: int)
    requires m < TWO_53 && k <= 0
    ensures Scale(m, k) < TWO_53 as real
  {
    if k < 0 {
      DivideShrinks(m as real, Pow2(-k) as real);
    }
  }

  /** Beyond 2^53 the power of two of a decoded float is positive, beyond 2^54 at least four. */
  lemma WideProduct(m: nat, k: nat)
    requires m < TWO_53
    ensures m * Pow2(k) >= TWO_53 ==> (m * Pow2(k)) % 2 == 0
    ensures m * Pow2(k) >= TWO_54 ==> (m * Pow2(k)) % 4 == 0
  {
    if k == 1 {
      assert Pow2(1) == 2;
    } else if k >= 2 {
      assert Pow2(k) == 4 * Pow2(k - 2);
      MultipleOfFour(m, Pow2(k - 2));
    }
  }

  lemma MultipleOfFour(m: nat, p: nat)
    ensures (m * (4 * p)) % 4 == 0 && (m * (4 * p)) % 2 == 0
  {
    assert m * (4 * p) == 4 * (m * p);
  }

  lemma ScaleSpaced(m: nat, k: int)
    requires m < TWO_53
    ensures IsSpaced(Scale(m, k))
  {
    if k <= 0 {
      ScaleSmall(m, k);
    } else {
      WideProduct(m, k);
    }
  }

  lemma Float64Spaced(bits: nat)
    requires Float64(bits).Finite?
    ensures IsSpaced(Float64(bits).r) && IsSpaced(-Float64(bits).r)
  {
    var frac := bits % TWO_52;
    var exponent := (bits / TWO_52) % 2048;
    if exponent == 0 { ScaleSpaced(frac, exponent - 1074); } else { ScaleSpaced(TWO_52 + frac, exponent - 1075); }
    ScaleNonNegative(frac, exponent - 1074);
    ScaleNonNegative(TWO_52 + frac, exponent - 1075);
  }

  lemma Float32Spaced(bits: nat)
    requires Float32(bits).Finite?
    ensures IsSpaced(Float32(bits).r) && IsSpaced(-Float32(bits).r)
  {
    var frac := bits % 0x80_0000;
    var exponent := (bits / 0x80_0000) % 256;
    if exponent == 0 { ScaleSpaced(frac, exponent - 149); } else { ScaleSpaced(0x80_0000 + frac, exponent - 150); }
    ScaleNonNegative(frac, exponent - 149);
    ScaleNonNegative(0x80_0000 + frac, exponent - 150);
  }

  lemma ScaleNonNegative(m: nat, k: int)
    ensures Scale(m, k) >= 0.0
  {
  }

  // ---- A tame float compares with an integer as numbers do ------------------------------

  /** A significand in the normal range shifted left by k, plus anything below the last place. */
  lemma {:induction false} ExcessOf(m: nat, k: nat, d: nat)
    requires TWO_52 <= m < TWO_53 && d < Pow2(k)
    ensures Excess(m * Pow2(k) + d) == k
  {
    if k > 0 {
      var h := m * Pow2(k - 1);
      assert m * Pow2(k) == 2 * h;
      MulMono(TWO_52, m, Pow2(k));
      ExcessOf(m, k - 1, d / 2);
      assert (m * Pow2(k) + d) / 2 == h + d / 2;
    }
  }

  lemma RoundAtOf(m: nat, p: nat, d: nat)
    requires d < p
    ensures RoundAt(m * p + d, p) == (if 2 * d < p || (2 * d == p && m % 2 == 0) then m * p else m * p + p)
  {
    var q, rest := RoundAtCases(m * p + d, p);
    QuotientAtLeast(m * p + d, p, q, m);
    QuotientAtLeast(q * p + rest, p, m, q);
  }

  /** How a number that needs more than 53 bits rounds, by its significand and what lies below it. */
  lemma RoundNatOf(v: nat, m: nat, k: nat, p: nat, d: nat)
    requires p == Pow2(k) && v == m * p
    requires TWO_52 <= m < TWO_53 && d < p
    ensures RoundNat(v + d) == (if 2 * d < p || (2 * d == p && m % 2 == 0) then v else v + p)
  {
    ExcessOf(m, k, d);
    RoundAtOf(m, p, d);
  }

  lemma PowersUsed()
    ensures Pow2(1) == 2 && Pow2(2) == 4 && Pow2(10) == 1024 && Pow2(11) == 2048
  {
    assert Pow2(5) == 32;
  }

  lemma Landmarks()
    ensures RoundNat(TWO_53) == TWO_53 && RoundNat(TWO_54) == TWO_54
    ensures RoundNat(TWO_63) == TWO_63 && RoundNat(TWO_63 - 1) == TWO_63
    ensures RoundNat(TWO_TO_THE_64 - 1) == TWO_TO_THE_64 && RoundNat(TWO_TO_THE_64 - 2) == TWO_TO_THE_64
  {
    hide RoundNat;
    PowersUsed();
    RoundNatOf(TWO_53, TWO_52, 1, 2, 0);
    RoundNatOf(TWO_54, TWO_52, 2, 4, 0);
    RoundNatOf(TWO_63, TWO_52, 11, 2048, 0);
    RoundNatOf(TWO_63 - 1024, TWO_53 - 1, 10, 1024, 1023);
    RoundNatOf(TWO_TO_THE_64 - 2048, TWO_53 - 1, 11, 2048, 2047);
    RoundNatOf(TWO_TO_THE_64 - 2048, TWO_53 - 1, 11, 2048, 2046);
  }

  lemma RoundInSecondBinade(n: nat)
    requires TWO_53 <= n < TWO_54
    ensures RoundNat(n) == (if n % 2 == 0 then n else if n % 4 == 1 then n - 1 else n + 1)
  {
    hide RoundNat;
    PowersUsed();
    RoundNatOf(n - n % 2, n / 2, 1, 2, n % 2);
  }

  /** The bounds rounding respects on the way to `top`, the double the largest integer of this sign rounds to. */
  lemma RoundNatRange(n: nat, top: nat)
    requires (top == TWO_63 && n <= TWO_63) || (top == TWO_TO_THE_64 && n < TWO_TO_THE_64)
    ensures n > TWO_53 ==> TWO_53 <= RoundNat(n) <= top
    ensures n >= TWO_54 ==> TWO_54 <= RoundNat(n)
  {
    Landmarks();
    if n > TWO_53 {
      RoundNatMonotone(TWO_53, n);
      RoundNatMonotone(n, if top == TWO_63 then TWO_63 else TWO_TO_THE_64 - 1);
    }
    if n >= TWO_54 {
      RoundNatMonotone(TWO_54, n);
    }
  }

  lemma SpacedInReach(r: real, top: nat)
    requires IsSpaced(r) && TWO_53 as real <= r <= top as real
    requires !(IsIntegral(r) && r.Floor % 4 == 0)
    ensures r == r.Floor as real && TWO_53 <= r.Floor < TWO_54 && r.Floor % 4 == 2
  {
  }

  lemma TameMagnitude(n: nat, r: real, top: nat)
    requires (top == TWO_63 && n <= TWO_63) || (top == TWO_TO_THE_64 && n < TWO_TO_THE_64)
    requires IsSpaced(r)
    requires !(TWO_53 as real <= r <= top as real && IsIntegral(r) && r.Floor % 4 == 0)
    ensures RoundNat(n) as real < r <==> n as real < r
    ensures RoundNat(n) as real == r <==> n as real == r
  {
    if n <= TWO_53 {
      RoundNatExact(n);
    } else if TWO_53 as real <= r <= top as real {
      SpacedInReach(r, top);
      TameMagnitudeInReach(n, r.Floor, top);
    } else {
      RoundNatRange(n, top);
    }
  }

  /** An odd number rounds to a neighbour divisible by four, never onto a number that leaves remainder two. */
  predicate IsNearEnough(n: nat, r: nat) {
    r == n || (r % 4 == 0 && (r == n - 1 || r == n + 1))
  }

  lemma RoundsNearEnough(n: nat)
    requires TWO_53 <= n < TWO_54
    ensures IsNearEnough(n, RoundNat(n))
  {
    hide RoundNat;
    RoundInSecondBinade(n);
  }

  lemma RemainderTwoIsKept(n: nat, r: nat, f: nat)
    requires f % 4 == 2 && IsNearEnough(n, r)
    ensures (r < f <==> n < f) && (r == f <==> n == f)
  {
  }

  lemma TameMagnitudeInReach(n: nat, f: nat, top: nat)
    requires (top == TWO_63 && n <= TWO_63) || (top == TWO_TO_THE_64 && n < TWO_TO_THE_64)
    requires n > TWO_53 && TWO_53 <= f < TWO_54 && f % 4 == 2
    ensures RoundNat(n) < f <==> n < f
    ensures RoundNat(n) == f <==> n == f
  {
    hide *;
    if n < TWO_54 {
      InSecondBinade(n, f);
    } else {
      RoundNatRange(n, top);
    }
  }

  lemma InSecondBinade(n: nat, f: nat)
    requires TWO_53 <= n < TWO_54 && f % 4 == 2
    ensures RoundNat(n) < f <==> n < f
    ensures RoundNat(n) == f <==> n == f
  {
    hide *;
    RoundsNearEnough(n);
    RemainderTwoIsKept(n, RoundNat(n), f);
  }

  /** Comparing a tame float with an integer by way of doubles compares the numbers themselves. */
  lemma TameComparesExactly(x: Num, n: int)
    requires IsTame(x) && InIntRange(n)
    requires x.Finite? ==> IsSpaced(x.r) && IsSpaced(-x.r)
    ensures Below(IntToDouble(n), x) <==> Below(Finite(n as real), x)
    ensures Below(x, IntToDouble(n)) <==> Below(x, Finite(n as real))
    ensures Same(IntToDouble(n), x) <==> Same(Finite(n as real), x)
  {
    if x.Finite? {
      if n >= 0 {
        TameMagnitude(n, x.r, TWO_TO_THE_64);
      } else {
        if TWO_53 as real <= -x.r <= TWO_63 as real && IsIntegral(-x.r) && (-x.r).Floor % 4 == 0 {
          NegatedAbsorbs(x.r);
          assert false;
        }
        TameMagnitude(-n, -x.r, TWO_63);
      }
    }
  }

  lemma NegatedAbsorbs(r: real)
    requires TWO_53 as real <= -r <= TWO_63 as real && IsIntegral(-r) && (-r).Floor % 4 == 0
    ensures Absorbs(Finite(r))
  {
    assert r == (-((-r).Floor)) as real;
    assert r.Floor == -((-r).Floor);
  }

  // ---- An absorbing float equals several integers -----------------------------------------

  lemma {:induction false} Normalise(m: nat, k: nat) returns (m': nat, k': nat)
    requires m < TWO_53 && m * Pow2(k) >= TWO_53
    ensures TWO_52 <= m' < TWO_53 && k' >= 1 && m' * Pow2(k') == m * Pow2(k)
    decreases k
  {
    assert k >= 1;
    if m >= TWO_52 {
      m', k' := m, k;
    } else {
      assert m * Pow2(k) == 2 * m * Pow2(k - 1);
      m', k' := Normalise(2 * m, k - 1);
    }
  }

  lemma ScaleNormal(m: nat, k: int) returns (m': nat, k': nat)
    requires m < TWO_53 && Scale(m, k) >= TWO_53 as real
    ensures TWO_52 <= m' < TWO_53 && k' >= 1 && Scale(m, k) == (m' * Pow2(k')) as real
  {
    if k <= 0 { ScaleSmall(m, k); }
    m', k' := Normalise(m, k);
  }

  /** The significand of a decoded float beyond 2^53. */
  lemma Float64Normal(bits: nat) returns (m: nat, k: nat)
    requires Float64(bits).Finite?
    requires Float64(bits).r >= TWO_53 as real || -Float64(bits).r >= TWO_53 as real
    ensures TWO_52 <= m < TWO_53 && k >= 1
    ensures Float64(bits).r == (m * Pow2(k)) as real || -Float64(bits).r == (m * Pow2(k)) as real
  {
    var frac := bits % TWO_52;
    var exponent := (bits / TWO_52) % 2048;
    ScaleNonNegative(frac, exponent - 1074);
    ScaleNonNegative(TWO_52 + frac, exponent - 1075);
    if exponent == 0 {
      m, k := ScaleNormal(frac, exponent - 1074);
    } else {
      m, k := ScaleNormal(TWO_52 + frac, exponent - 1075);
    }
  }

  lemma Float32Normal(bits: nat) returns (m: nat, k: nat)
    requires Float32(bits).Finite?
    requires Float32(bits).r >= TWO_53 as real || -Float32(bits).r >= TWO_53 as real
    ensures TWO_52 <= m < TWO_53 && k >= 1
    ensures Float32(bits).r == (m * Pow2(k)) as real || -Float32(bits).r == (m * Pow2(k)) as real
  {
    var frac := bits % 0x80_0000;
    var exponent := (bits / 0x80_0000) % 256;
    ScaleNonNegative(frac, exponent - 149);
    ScaleNonNegative(0x80_0000 + frac, exponent - 150);
    if exponent == 0 {
      m, k := ScaleNormal(frac, exponent - 149);
    } else {
      m, k := ScaleNormal(0x80_0000 + frac, exponent - 150);
    }
  }

  lemma AbsorbsNeighbour(v: nat, m: nat, k: nat)
    requires TWO_52 <= m < TWO_53 && k >= 1 && v == m * Pow2(k) && v % 4 == 0
    ensures RoundNat(v) == v && RoundNat(v + 1) == v
  {
    hide RoundNat;
    PowersUsed();
    if k == 1 {
      RoundNatOf(v, m, 1, 2, 0);
      RoundNatOf(v, m, 1, 2, 1);
    } else {
      Pow2Monotone(2, k);
      RoundNatOf(v, m, k, Pow2(k), 0);
      RoundNatOf(v, m, k, Pow2(k), 1);
    }
  }

  lemma AbsorbsTwoMagnitudes(v: nat, m: nat, k: nat, top: nat) returns (a: nat, b: nat)
    requires top == TWO_63 || top == TWO_TO_THE_64
    requires TWO_52 <= m < TWO_53 && k >= 1 && v == m * Pow2(k) && v % 4 == 0 && v <= top
    ensures a != b && RoundNat(a) == v && RoundNat(b) == v
    ensures top == TWO_63 ==> a <= top && b <= top
    ensures top == TWO_TO_THE_64 ==> a < top && b < top
  {
    if v == top {
      Landmarks();
      a, b := if top == TWO_TO_THE_64 then top - 2 else top, top - 1;
    } else {
      AbsorbsNeighbour(v, m, k);
      a, b := v, v + 1;
    }
  }

  /** Every absorbing float is what two different integers convert to. */
  lemma AbsorbsTwoIntegers(x: Num, m: nat, k: nat) returns (a: int, b: int)
    requires Absorbs(x) && TWO_52 <= m < TWO_53 && k >= 1
    requires x.r == (m * Pow2(k)) as real || -x.r == (m * Pow2(k)) as real
    ensures a != b && InIntRange(a) && InIntRange(b)
    ensures IntToDouble(a) == x && IntToDouble(b) == x
  {
    var f, v := x.r.Floor, m * Pow2(k);
    assert f == v || f == -v;
    if f > 0 {
      a, b := AbsorbsTwoMagnitudes(v, m, k, TWO_TO_THE_64);
    } else {
      a, b := AbsorbsTwoMagnitudes(v, m, k, TWO_63);
      assert a > 0 && b > 0 by { RoundNatExact(0); }
      a, b := -a, -b;
    }
  }
}
