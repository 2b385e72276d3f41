/** What the bits of floats denote, said without the formula that decodes them; and that converting an integer to double
    yields the nearest double. */
module FloatLaws {
  import opened Bits
  import opened Bytes
  import opened Ieee754
  import opened FloatKeys
  import opened FloatBits

  // ---- Counting up the floats ---------------------------------------------------------------------------

  lemma MagnitudeInUnits(top: nat, c: nat, e: nat, f: nat)
    ensures Magnitude(top, c, e, f) * (Pow2(c) as real) == Units(top, e, f) as real
  {
    hide Scale;
    PowerZero();
    if e == 0 { ScaleInUnits(f, e - c, c); } else { ScaleInUnits(top + f, e - c - 1, c); }
    hide Pow2;
  }

  lemma CancelReal(x: real, y: real, p: real)
    requires p > 0.0 && x * p == y * p
    ensures x == y
  {
    assert (x - y) * p == 0.0;
  }

  lemma UnitsDouble(top: nat, e: nat, f: nat)
    requires e > 0
    ensures Units(top, e + 1, f) == 2 * Units(top, e, f)
  {
    assert Pow2(e) == 2 * Pow2(e - 1);
    assert (top + f) * (2 * Pow2(e - 1)) == 2 * ((top + f) * Pow2(e - 1));
  }

  /** One exponent higher is twice the value. */
  lemma MagnitudeDoubles(top: nat, c: nat, e: nat, f: nat)
    requires e > 0
    ensures Magnitude(top, c, e + 1, f) == 2.0 * Magnitude(top, c, e, f)
  {
    hide Magnitude;
    MagnitudeInUnits(top, c, e, f);
    MagnitudeInUnits(top, c, e + 1, f);
    UnitsDouble(top, e, f);
    var x, p := Magnitude(top, c, e, f), Pow2(c) as real;
    assert 2.0 * x * p == 2.0 * (x * p);
    CancelReal(Magnitude(top, c, e + 1, f), 2.0 * x, p);
  }

  /** Below twice the hidden bit the floats are the multiples of the smallest one. */
  lemma MagnitudeCounts(top: nat, c: nat, e: nat, f: nat)
    requires e <= 1
    ensures Magnitude(top, c, e, f) == (e * top + f) as real * Magnitude(top, c, 0, 1)
  {
    hide Magnitude;
    MagnitudeInUnits(top, c, e, f);
    MagnitudeInUnits(top, c, 0, 1);
    PowerZero();
    var unit, n, p := Magnitude(top, c, 0, 1), (e * top + f) as real, Pow2(c) as real;
    assert n * unit * p == n * (unit * p);
    CancelReal(Magnitude(top, c, e, f), n * unit, p);
  }

  const INFINITY64 := 0x7ff0_0000_0000_0000
  const INFINITY32 := 0x7f80_0000

  /** The bits of doubles: 1.0 stands at 0x3ff0_0000_0000_0000; up to 2^53 each is one more of the smallest; from 2^52
      on the next exponent doubles; then infinity and the NaNs; the highest bit negates. No choice is left for any. */
  lemma Float64Ladder(bits: nat)
    requires bits < TWO_63
    ensures Float64(0x3ff0_0000_0000_0000) == Finite(1.0) && Float64(1).Finite?
    ensures bits < TWO_53 ==> Float64(bits) == Finite(bits as real * Float64(1).r)
    ensures TWO_52 <= bits < INFINITY64 - TWO_52 ==>
              Float64(bits).Finite? && Float64(bits + TWO_52) == Finite(2.0 * Float64(bits).r)
    ensures bits == INFINITY64 ==> Float64(bits) == PosInf
    ensures bits > INFINITY64 ==> Float64(bits) == NaN
    ensures Float64(bits + TWO_63) == match Float64(bits)
                                      case Finite(r) => Finite(-r)
                                      case PosInf => NegInf
                                      case x => x
  {
    hide Float64, Magnitude;
    One64();
    Fields64(bits);
    Negated64(bits);
    Fields64(1);
    if bits < TWO_53 { MagnitudeCounts(TWO_52, 1074, bits / TWO_52 % 2048, bits % TWO_52); }
    if TWO_52 <= bits < INFINITY64 - TWO_52 { Doubled64(bits); }
  }

  lemma Negated64(bits: nat)
    requires bits < TWO_63
    ensures Float64(bits + TWO_63) == match Float64(bits)
                                      case Finite(r) => Finite(-r)
                                      case PosInf => NegInf
                                      case x => x
  {
    hide Float64, Magnitude;
    Fields64(bits);
    Fields64(bits + TWO_63);
    assert (bits + TWO_63) % TWO_52 == bits % TWO_52;
    assert (bits + TWO_63) / TWO_52 % 2048 == bits / TWO_52 % 2048;
  }

  lemma Doubled64(bits: nat)
    requires TWO_52 <= bits < INFINITY64 - TWO_52
    ensures Float64(bits).Finite? && Float64(bits + TWO_52) == Finite(2.0 * Float64(bits).r)
  {
    hide Float64, Magnitude;
    Fields64(bits);
    Fields64(bits + TWO_52);
    NextBinade(bits, TWO_52);
    MagnitudeDoubles(TWO_52, 1074, bits / TWO_52 % 2048, bits % TWO_52);
  }

  lemma NextBinade(bits: nat, top: nat)
    requires top > 0
    ensures (bits + top) % top == bits % top && (bits + top) / top == bits / top + 1
  {
    assert bits + top == top * (bits / top + 1) + bits % top;
    QuotientIs(bits + top, top, bits / top + 1, bits % top);
  }

  lemma One64()
    ensures Float64(0x3ff0_0000_0000_0000) == Finite(1.0)
  {
    hide Scale, Pow2;
    PowersOfSignificands();
    ScaledToOne(TWO_52, 52);
    assert 0x3ff0_0000_0000_0000 == 1023 * TWO_52;
  }

  lemma PowersOfSignificands()
    ensures Pow2(52) == TWO_52 && Pow2(23) == 0x80_0000
  {
    assert Pow2(12) == 0x1000;
    assert Pow2(23) == 0x80_0000;
    assert Pow2(26) == 0x400_0000;
    assert Pow2(39) == 0x80_0000_0000;
    assert Pow2(52) == TWO_52;
  }

  lemma ScaledToOne(m: nat, k: int)
    requires k > 0 && Pow2(k) == m
    ensures Scale(m, -k) == 1.0
  {
    hide Pow2;
  }

  /** The same for the 32 bits of a float. */
  lemma Float32Ladder(bits: nat)
    requires bits < 0x8000_0000
    ensures Float32(0x3f80_0000) == Finite(1.0) && Float32(1).Finite?
    ensures bits < 0x100_0000 ==> Float32(bits) == Finite(bits as real * Float32(1).r)
    ensures 0x80_0000 <= bits < INFINITY32 - 0x80_0000 ==>
              Float32(bits).Finite? && Float32(bits + 0x80_0000) == Finite(2.0 * Float32(bits).r)
    ensures bits == INFINITY32 ==> Float32(bits) == PosInf
    ensures bits > INFINITY32 ==> Float32(bits) == NaN
    ensures Float32(bits + 0x8000_0000) == match Float32(bits)
                                           case Finite(r) => Finite(-r)
                                           case PosInf => NegInf
                                           case x => x
  {
    hide Float32, Magnitude;
    One32();
    Fields32(bits);
    Fields32(bits + 0x8000_0000);
    Fields32(1);
    if bits < 0x100_0000 { MagnitudeCounts(0x80_0000, 149, bits / 0x80_0000 % 256, bits % 0x80_0000); }
    if 0x80_0000 <= bits < INFINITY32 - 0x80_0000 {
      Fields32(bits + 0x80_0000);
      MagnitudeDoubles(0x80_0000, 149, bits / 0x80_0000 % 256, bits % 0x80_0000);
    }
  }

  lemma One32()
    ensures Float32(0x3f80_0000) == Finite(1.0)
  {
    hide Scale, Pow2;
    PowersOfSignificands();
    ScaledToOne(0x80_0000, 23);
  }

  // ---- Converting an integer yields the nearest double -----------------------------------------------------

  function Distance(x: real, y: real): (d: real) {
    if x < y then y - x else x - y
  }

  /** No multiple of p is nearer than the one rounding picks; of two equally near, it picks the even one. */
  lemma NearestMultiple(n: nat, p: nat, t: nat) returns (q: nat)
    requires p > 0
    ensures RoundAt(n, p) == q * p
    ensures Distance(n as real, (q * p) as real) <= Distance(n as real, (t * p) as real)
    ensures Distance(n as real, (q * p) as real) == Distance(n as real, (t * p) as real) ==> t == q || t % 2 == 1
  {
    var low, rest := RoundAtCases(n, p);
    MulSucc(low, p);
    q := if 2 * rest < p || (2 * rest == p && low % 2 == 0) then low else low + 1;
    if t < low {
      MulMono(t + 1, low, p);
      MulSucc(t, p);
    } else if t > low + 1 {
      MulMono(low + 2, t, p);
      MulSucc(low + 1, p);
    }
  }

  /** A double at or above 2^52 times a power of two is a multiple of that power. */
  lemma DoubleIsMultiple(m: nat, k: int, j: nat) returns (t: nat)
    requires m < TWO_53 && Scale(m, k) >= (TWO_52 * Pow2(j)) as real
    ensures k >= j && t == m * Pow2(k - j) && Scale(m, k) == (t * Pow2(j)) as real
  {
    ScaleReach(m, k, j);
    Pow2Adds(k - j, j);
    t := m * Pow2(k - j);
    assert m * (Pow2(k - j) * Pow2(j)) == t * Pow2(j);
  }

  lemma ScaleReach(m: nat, k: int, j: nat)
    requires m < TWO_53 && Scale(m, k) >= (TWO_52 * Pow2(j)) as real
    ensures k >= j
  {
    hide Scale, Pow2;
    if k < j { ScaleTooSmall(m, k, j); }
  }

  lemma ScaleTooSmall(m: nat, k: int, j: nat)
    requires m < TWO_53 && k < j
    ensures Scale(m, k) < (TWO_52 * Pow2(j)) as real
  {
    if k < 0 {
      assert Pow2(-k) == 2 * Pow2(-k - 1);
      HalfAtMost(m as real, Pow2(-k) as real);
      MulMono(1, Pow2(j), TWO_52);
    } else {
      Pow2Monotone(k + 1, j);
      assert Pow2(k + 1) == 2 * Pow2(k);
      MulMono(Pow2(k + 1), Pow2(j), TWO_52);
      MulMono(m + 1, TWO_53, Pow2(k));
      MulSucc(m, Pow2(k));
    }
  }

  lemma HalfAtMost(x: real, p: real)
    requires x >= 0.0 && p >= 2.0
    ensures x / p <= x / 2.0
  {
    var y := x / p;
    assert y * p == x && y >= 0.0;
    assert y * p - y * 2.0 == y * (p - 2.0);
  }

  /** The value of a finite double as a significand below 2^53 and a scale, with the sign apart. */
  lemma FloatParts(bits: nat) returns (negative: bool, m: nat, k: int)
    requires bits < TWO_TO_THE_64 && Float64(bits).Finite?
    ensures m < TWO_53 && Float64(bits).r == (if negative then -Scale(m, k) else Scale(m, k)) && Scale(m, k) >= 0.0
    ensures m >= TWO_52 ==> m % 2 == bits % 2
  {
    var f, e := bits % TWO_52, bits / TWO_52 % 2048;
    negative := bits / TWO_63 % 2 == 1;
    m, k := if e == 0 then f else TWO_52 + f, if e == 0 then e - 1074 else e - 1075;
    hide Scale;
    ScaleNonNegative(m, k);
    LowestBit(bits);
  }

  lemma LowestBit(bits: nat)
    ensures bits % TWO_52 % 2 == bits % 2 && (TWO_52 + bits % TWO_52) % 2 == bits % 2
  {
    var q, r := bits / TWO_52, bits % TWO_52;
    assert bits == q * TWO_52 + r;
  }

  /** For a non-negative integer: no double is nearer than the one it converts to, and of two equally near the one with
      the even significand is taken. */
  lemma NearestMagnitude(n: nat, m: nat, k: int)
    requires m < TWO_53
    ensures Distance(n as real, RoundNat(n) as real) <= Distance(n as real, Scale(m, k))
    ensures Distance(n as real, RoundNat(n) as real) == Distance(n as real, Scale(m, k)) ==>
              Scale(m, k) == RoundNat(n) as real || (m >= TWO_52 && m % 2 == 1)
  {
    hide Scale, RoundAt, Excess;
    if n < TWO_53 {
      RoundNatExact(n);
    } else {
      var j := Excess(n);
      ExcessBounds(n);
      var p := Pow2(j);
      if Scale(m, k) < (TWO_52 * p) as real {
        var q := NearestMultiple(n, p, TWO_52);
      } else {
        var t := DoubleIsMultiple(m, k, j);
        var q := NearestMultiple(n, p, t);
        OddProduct(m, k, j, t);
      }
    }
  }

  lemma OddProduct(m: nat, k: int, j: nat, t: nat)
    requires m < TWO_53 && k >= j && t == m * Pow2(k - j) && t * Pow2(j) >= TWO_52 * Pow2(j)
    ensures t % 2 == 1 ==> m % 2 == 1 && m >= TWO_52
  {
    if k > j {
      var h := Pow2(k - j - 1);
      assert Pow2(k - j) == 2 * h;
      assert m * (2 * h) == 2 * (m * h);
    } else if t < TWO_52 {
      MulMono(t + 1, TWO_52, Pow2(j));
      MulSucc(t, Pow2(j));
    }
  }

  lemma ZeroIsNoNearer(n: nat)
    ensures Distance(n as real, RoundNat(n) as real) <= n as real
    ensures n > 0 ==> Distance(n as real, RoundNat(n) as real) < n as real
  {
    hide Scale, RoundNat;
    ZeroScale();
    NearestMagnitude(n, 0, 0);
    RoundNatExact(1);
    if n > 0 { RoundNatMonotone(1, n); }
  }

  lemma ZeroScale()
    ensures Scale(0, 0) == 0.0
  {
  }

  /** Converting an integer to double: no double is nearer, and of two equally near ones it is the one with the lowest
      bit 0. */
  lemma NearestDouble(n: int, bits: nat)
    requires bits < TWO_TO_THE_64 && Float64(bits).Finite?
    ensures Distance(n as real, Round(n) as real) <= Distance(n as real, Float64(bits).r)
    ensures Distance(n as real, Round(n) as real) == Distance(n as real, Float64(bits).r) ==>
              Float64(bits).r == Round(n) as real || bits % 2 == 1
  {
    hide Float64, Scale, RoundNat;
    var negative, m, k := FloatParts(bits);
    var size := if n < 0 then -n else n;
    RoundNatExact(0);
    NearestMagnitude(size, m, k);
    RoundSigned(n);
    if n == 0 {
      MirroredDistance(0.0, Scale(m, k));
    } else if negative == (n > 0) {
      ZeroIsNoNearer(size);
      OppositeSigns(size as real, RoundNat(size) as real, Scale(m, k));
    } else {
      MirroredDistance(size as real, RoundNat(size) as real);
      MirroredDistance(size as real, Scale(m, k));
    }
  }

  lemma RoundSigned(n: int)
    ensures n >= 0 ==> Round(n) == RoundNat(n)
    ensures n < 0 ==> Round(n) as real == -(RoundNat(-n) as real) && n as real == -((-n) as real)
  {
    hide RoundNat;
  }

  lemma MirroredDistance(x: real, y: real)
    ensures Distance(-x, -y) == Distance(x, y) && (Distance(x, y) == 0.0 ==> x == y)
  {
  }

  /** Across zero everything is farther than zero. */
  lemma OppositeSigns(x: real, y: real, z: real)
    requires x > 0.0 && y >= 0.0 && z >= 0.0 && Distance(x, y) < x
    ensures Distance(x, y) < Distance(x, -z) && Distance(-x, -y) < Distance(-x, z)
  {
  }

  /** What an integer of any of the eight types converts to is a double. */
  lemma RoundedIsDouble(n: int) returns (bits: nat)
    requires -TWO_TO_THE_64 <= n <= TWO_TO_THE_64
    ensures bits < TWO_TO_THE_64 && Float64(bits) == IntToDouble(n)
  {
    hide Float64, RoundNat;
    var size := if n < 0 then -n else n;
    bits := MagnitudeIsDouble(size);
    Float64Ladder(bits);
    if n < 0 { bits := bits + TWO_63; }
  }

  lemma MagnitudeIsDouble(n: nat) returns (bits: nat)
    requires n <= TWO_TO_THE_64
    ensures bits < INFINITY64 && Float64(bits) == Finite(RoundNat(n) as real)
  {
    hide Float64, RoundNat, RoundAt, Excess;
    if n == 0 {
      bits := 0;
      RoundNatExact(0);
      ZeroIsDouble();
    } else if n < TWO_53 {
      RoundNatExact(n);
      ScaleByOne(n);
      bits := DoubleOf(n, 0);
    } else {
      bits := WideMagnitudeIsDouble(n);
    }
  }

  lemma ZeroIsDouble()
    ensures Float64(0) == Finite(0.0)
  {
    Float64Ladder(0);
  }

  lemma ScaleByOne(m: nat)
    ensures Scale(m, 0) == m as real
  {
  }

  lemma WideMagnitudeIsDouble(n: nat) returns (bits: nat)
    requires TWO_53 <= n <= TWO_TO_THE_64
    ensures bits < INFINITY64 && Float64(bits) == Finite(RoundNat(n) as real)
  {
    hide Float64, Excess, Pow2;
    var j := Excess(n);
    ExcessBounds(n);
    RoundNatBounds(n);
    ExcessAtMost(n, j);
    var q := NearestMultiple(n, Pow2(j), 0);
    FactorAtMost(TWO_52, q, Pow2(j));
    FactorAtMost(q, TWO_53, Pow2(j));
    if q == TWO_53 {
      ScaleDoubled(TWO_52, j + 1);
      bits := DoubleOf(TWO_52, j + 1);
    } else {
      bits := DoubleOf(q, j);
    }
  }

  lemma FactorAtMost(a: nat, b: nat, p: nat)
    requires p > 0 && a * p <= b * p
    ensures a <= b
  {
    if b < a {
      MulSucc(b, p);
      MulMono(b + 1, a, p);
    }
  }

  lemma ExcessAtMost(n: nat, j: nat)
    requires TWO_52 * Pow2(j) <= n <= TWO_TO_THE_64
    ensures j <= 12
  {
    if j > 12 {
      assert Pow2(13) == 8192;
      Pow2Monotone(13, j);
    }
  }

  /** Twice the significand at the next lower scale. */
  lemma ScaleDoubled(m: nat, k: int)
    ensures Scale(2 * m, k - 1) == Scale(m, k)
  {
    if k > 0 {
      assert Pow2(k) == 2 * Pow2(k - 1);
      assert m * (2 * Pow2(k - 1)) == 2 * m * Pow2(k - 1);
    } else {
      assert Pow2(1 - k) == 2 * Pow2(-k);
      TwiceOver(m as real, Pow2(-k) as real);
    }
  }

  lemma TwiceOver(x: real, p: real)
    requires p > 0.0
    ensures 2.0 * x / (2.0 * p) == x / p
  {
    var y := x / p;
    assert y * p == x;
    assert y * (2.0 * p) == 2.0 * x;
  }

  /** A significand below 2^53 at any scale from 2^-52 to 2^13 is a double. */
  lemma {:induction false} DoubleOf(m: nat, k: int) returns (bits: nat)
    requires 0 < m < TWO_53 && k <= 13 && (k >= 0 || m >= Pow2(-k))
    ensures bits < INFINITY64 && Float64(bits) == Finite(Scale(m, k))
    decreases TWO_53 - m
  {
    if m < TWO_52 {
      hide Float64;
      ScaleDoubled(m, k);
      if k <= 0 { assert Pow2(1 - k) == 2 * Pow2(-k); }
      bits := DoubleOf(2 * m, k - 1);
    } else {
      ScaleAtLeast(m, k);
      bits := (1075 + k) * TWO_52 + (m - TWO_52);
      NormalDouble(m, k, bits);
    }
  }

  lemma ScaleAtLeast(m: nat, k: int)
    requires m < TWO_53 && (k >= 0 || m >= Pow2(-k))
    ensures k >= -52
  {
    if k < -52 {
      assert Pow2(13) == 0x2000;
      assert Pow2(26) == 0x400_0000;
      assert Pow2(39) == 0x80_0000_0000;
      assert Pow2(53) == TWO_53;
      Pow2Monotone(53, -k);
    }
  }

  lemma NormalDouble(m: nat, k: int, bits: nat)
    requires TWO_52 <= m < TWO_53 && -52 <= k <= 13 && bits == (1075 + k) * TWO_52 + (m - TWO_52)
    ensures bits < INFINITY64 && Float64(bits) == Finite(Scale(m, k))
  {
    hide Scale;
    assert bits % TWO_52 == m - TWO_52 && bits / TWO_52 == 1075 + k;
    assert bits / TWO_63 == 0;
  }
}
