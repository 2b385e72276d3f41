/** Binary floating point as far as comparing numbers needs it: what a float's bits denote, and what the
    conversion of an integer to double yields (round to nearest, ties to even; IEEE 754-2008, section 4.3.1). */
module Ieee754 {
  import opened Bits
  import opened Bytes

  const TWO_52 := 0x10_0000_0000_0000
  const TWO_53 := 0x20_0000_0000_0000
  const TWO_54 := 0x40_0000_0000_0000
  const TWO_63 := 0x8000_0000_0000_0000

  /** What a float denotes. Both zeros denote Finite(0.0), as they compare equal. */
  datatype Num = NaN | NegInf | Finite(r: real) | PosInf

  /** `a < b` on doubles; false as soon as one side is a NaN. */
  predicate Below(a: Num, b: Num) {
    match (a, b)
    case (NaN, _) => false
    case (_, NaN) => false
    case (NegInf, _) => !b.NegInf?
    case (_, NegInf) => false
    case (Finite(x), Finite(y)) => x < y
    case (Finite(_), PosInf) => true
    case (PosInf, _) => false
  }

  /** `a == b` on doubles; a NaN equals nothing. */
  predicate Same(a: Num, b: Num) {
    !a.NaN? && a == b
  }

  // ---- What the bits of a float denote -------------------------------------------------

  /** m times 2^k. */
  function Scale(m: nat, k: int): real {
    if k >= 0 then (m * Pow2(k)) as real else (m as real) / (Pow2(-k) as real)
  }

  function Signed(negative: bool, magnitude: real): real {
    if negative then -magnitude else magnitude
  }

  /** A double from its 64 bits: sign, 11 bits of exponent, 52 bits of fraction. */
  function Float64(bits: nat): Num {
    var frac := bits % TWO_52;
    var exponent := (bits / TWO_52) % 2048;
    var negative := (bits / TWO_63) % 2 == 1;
    if exponent == 2047 then
      if frac != 0 then NaN else if negative then NegInf else PosInf
    else if exponent == 0 then Finite(Signed(negative, Scale(frac, exponent - 1074)))
    else Finite(Signed(negative, Scale(TWO_52 + frac, exponent - 1075)))
  }

  /** A float from its 32 bits: sign, 8 bits of exponent, 23 bits of fraction. Widening it to double is exact. */
  function Float32(bits: nat): Num {
    var frac := bits % 0x80_0000;
    var exponent := (bits / 0x80_0000) % 256;
    var negative := (bits / 0x8000_0000) % 2 == 1;
    if exponent == 255 then
      if frac != 0 then NaN else if negative then NegInf else PosInf
    else if exponent == 0 then Finite(Signed(negative, Scale(frac, exponent - 149)))
    else Finite(Signed(negative, Scale(0x80_0000 + frac, exponent - 150)))
  }

  // ---- Converting an integer to double -------------------------------------------------

  /** How many low bits of `n` a 53-bit significand cannot hold. */
  function Excess(n: nat): (k: nat) {
    if n < TWO_53 then 0 else 1 + Excess(n / 2)
  }

  /** The nearest multiple of `p`; of two equally near ones, the one with the even quotient. */
  function RoundAt(n: nat, p: nat): (r: nat)
    requires p > 0
  {
    var q, rest := n / p, n % p;
    if 2 * rest < p || (2 * rest == p && q % 2 == 0) then q * p else (q + 1) * p
  }

  function RoundNat(n: nat): (r: nat) {
    RoundAt(n, Pow2(Excess(n)))
  }

  /** static_cast<double> of an integer, as the integer the double denotes. */
  function Round(n: int): (r: int) {
    if n < 0 then 0 - RoundNat(-n) else RoundNat(n)
  }

  function IntToDouble(n: int): Num {
    Finite(Round(n) as real)
  }

  // ---- Exact up to 2^53, monotone everywhere -------------------------------------------

  lemma RoundNatExact(n: nat)
    requires n <= TWO_53
    ensures RoundNat(n) == n
  {
    if n == TWO_53 {
      assert Excess(n / 2) == 0;
      assert Pow2(1) == 2 * Pow2(0);
    }
  }

  lemma {:induction false} ExcessBounds(n: nat)
    requires n >= TWO_52
    ensures TWO_52 * Pow2(Excess(n)) <= n < TWO_53 * Pow2(Excess(n))
  {
    if n >= TWO_53 { ExcessBounds(n / 2); }
  }

  lemma MulMono(a: nat, b: nat, c: nat)
    requires a <= b
    ensures a * c <= b * c
  {
    assert b * c == a * c + (b - a) * c;
  }

  lemma MulSucc(q: nat, p: nat)
    ensures (q + 1) * p == q * p + p
  {
  }

  /** Bounds on a number are bounds on its quotient. */
  lemma QuotientBelow(n: nat, p: nat, q: nat, hi: nat)
    requires q * p <= n < hi * p
    ensures q < hi
  {
    if q >= hi { MulMono(hi, q, p); }
  }

  lemma QuotientAtLeast(n: nat, p: nat, q: nat, lo: nat)
    requires lo * p <= n < q * p + p
    ensures lo <= q
  {
    if q < lo { MulMono(q + 1, lo, p); MulSucc(q, p); }
  }

  lemma RoundAtCases(n: nat, p: nat) returns (q: nat, rest: nat)
    requires p > 0
    ensures n == q * p + rest && rest < p
    ensures RoundAt(n, p) == (if 2 * rest < p || (2 * rest == p && q % 2 == 0) then q * p else q * p + p)
  {
    q, rest := n / p, n % p;
    MulSucc(q, p);
  }

  lemma RoundAtBounds(n: nat, p: nat, lo: nat, hi: nat)
    requires p > 0 && lo * p <= n < hi * p
    ensures lo * p <= RoundAt(n, p) <= hi * p
  {
    var q, rest := RoundAtCases(n, p);
    QuotientBelow(n, p, q, hi);
    QuotientAtLeast(n, p, q, lo);
    MulMono(lo, q, p);
    MulMono(q + 1, hi, p);
    MulSucc(q, p);
  }

  lemma RoundAtMonotone(n: nat, m: nat, p: nat)
    requires p > 0 && n <= m
    ensures RoundAt(n, p) <= RoundAt(m, p)
  {
    var q, rest := RoundAtCases(n, p);
    var q', rest' := RoundAtCases(m, p);
    QuotientAtLeast(n, p, q', q);
    if q < q' { MulMono(q + 1, q', p); MulSucc(q, p); }
  }

  lemma {:induction false} ExcessMonotone(n: nat, m: nat)
    requires n <= m
    ensures Excess(n) <= Excess(m)
  {
    if n >= TWO_53 { ExcessMonotone(n / 2, m / 2); }
  }

  lemma {:induction false} Pow2Monotone(a: nat, b: nat)
    requires a <= b
    ensures Pow2(a) <= Pow2(b)
  {
    if a < b { Pow2Monotone(a, b - 1); }
  }

  lemma RoundNatBounds(n: nat)
    requires n >= TWO_52
    ensures TWO_52 * Pow2(Excess(n)) <= RoundNat(n) <= TWO_53 * Pow2(Excess(n))
  {
    ExcessBounds(n);
    RoundAtBounds(n, Pow2(Excess(n)), TWO_52, TWO_53);
  }

  /** Rounding keeps the order of the integers. */
  lemma RoundNatMonotone(n: nat, m: nat)
    requires n <= m
    ensures RoundNat(n) <= RoundNat(m)
  {
    if m < TWO_53 {
      RoundNatExact(n);
      RoundNatExact(m);
    } else if n < TWO_53 {
      RoundNatExact(n);
      RoundNatBounds(m);
    } else if Excess(n) == Excess(m) {
      RoundAtMonotone(n, m, Pow2(Excess(n)));
    } else {
      ExcessMonotone(n, m);
      RoundNatBounds(n);
      RoundNatBounds(m);
      Pow2Monotone(Excess(n) + 1, Excess(m));
    }
  }

  lemma RoundMonotone(n: int, m: int)
    requires n <= m
    ensures Round(n) <= Round(m)
  {
    if n >= 0 { RoundNatMonotone(n, m); }
    if m < 0 { RoundNatMonotone(-m, -n); }
  }

  lemma RoundExact(n: int)
    requires -TWO_53 <= n <= TWO_53
    ensures Round(n) == n
  {
    RoundNatExact(if n < 0 then -n else n);
  }
}
