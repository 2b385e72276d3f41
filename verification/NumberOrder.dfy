/** What comparing two numbers amounts to: mathematics for integers of any kinds, and for exactly the tame floats. */
module NumberOrder {
  import opened Bytes
  import opened Ieee754
  import opened Values
  import opened Comparison
  import opened FloatKeys

  /** The number a value stands for, without any rounding. */
  function Position(v: Value): (x: Num)
    requires IsNumber(v)
  {
    match v
    case Int(_, n) => Finite(n as real)
    case F32(bits) => Float32(bits)
    case F64(bits) => Float64(bits)
  }

  predicate IsWide(kind: IntKind) {
    kind.I64? || kind.U64?
  }

  /** Rounding does not move a 64-bit integer past, or onto, an integer of at most 32 bits. */
  lemma RoundedAgainstNarrow(n: int, m: int)
    requires -TWO_53 < n < TWO_53
    ensures Round(m) < n <==> m < n
    ensures Round(m) == n <==> m == n
  {
    hide Round;
    if m > TWO_53 { RoundMonotone(TWO_53, m); }
    if m < -TWO_53 { RoundMonotone(m, -TWO_53); }
    RoundExact(TWO_53);
    RoundExact(-TWO_53);
    if -TWO_53 <= m <= TWO_53 { RoundExact(m); }
  }

  lemma NarrowIsExact(a: Value)
    requires a.Int? && Typed(a) && !IsWide(a.kind)
    ensures -TWO_53 < a.n < TWO_53 && Round(a.n) == a.n
  {
    hide Round;
    RoundExact(a.n);
  }

  lemma IntBelow(a: Value, b: Value)
    requires a.Int? && b.Int?
    ensures NumberLess(a, b) <==> Round(a.n) < Round(b.n)
    ensures NumberEquals(a, b) <==> Round(a.n) == Round(b.n)
  {
    hide Round, Float32, Float64;
  }

  /** Integers of any two kinds compare as the integers they hold, although most pairs go through double. */
  lemma IntegersCompareExactly(a: Value, b: Value)
    requires a.Int? && b.Int? && Typed(a) && Typed(b)
    ensures Equals(a, b) <==> a.n == b.n
    ensures Less(a, b) <==> a.n < b.n
  {
    hide Round, NumberLess, NumberEquals, ItemsLess, PairsLess, ItemsEqual, PairsEqual, Tag;
    if IsWide(a.kind) && IsWide(b.kind) {
      WideIntegers(a, b);
    } else {
      IntBelow(a, b);
      if !IsWide(a.kind) {
        NarrowIsExact(a);
        RoundedAgainstNarrow(a.n, b.n);
      } else {
        NarrowIsExact(b);
        RoundedAgainstNarrow(b.n, a.n);
      }
    }
  }

  /** INT64 and UINT64 compare by sign-split helpers, without rounding. */
  lemma WideIntegers(a: Value, b: Value)
    requires a.Int? && b.Int? && Typed(a) && Typed(b) && IsWide(a.kind) && IsWide(b.kind)
    ensures Equals(a, b) <==> a.n == b.n
    ensures Less(a, b) <==> a.n < b.n
  {
    hide NumberLess, NumberEquals, ItemsLess, PairsLess, ItemsEqual, PairsEqual, Tag;
    if b.kind.I64? { Int64SurvivesUint64(b.n); }
  }

  /** The conversions INT64 -> uint64_t -> int64_t on the way into less_uint64_int64 cancel out. */
  lemma Int64SurvivesUint64(n: int)
    requires IntKind.I64.Holds(n)
    ensures ToInt64(ToUint64(n)) == n
  {
  }

  /** A number whose comparisons with the integers are exact. */
  predicate TameNumber(v: Value)
    requires IsNumber(v)
  {
    match v
    case Int(_, _) => true
    case F32(bits) => IsTame(Float32(bits))
    case F64(bits) => IsTame(Float64(bits))
  }

  lemma IntegersAreInRange(v: Value)
    requires v.Int? && Typed(v)
    ensures InIntRange(v.n)
  {
  }

  lemma FloatAgainstInteger(f: Value, v: Value)
    requires (f.F32? || f.F64?) && TameNumber(f)
    requires v.Int? && Typed(v)
    ensures Less(f, v) <==> Below(Position(f), Position(v))
    ensures Less(v, f) <==> Below(Position(v), Position(f))
    ensures Equals(f, v) <==> Same(Position(f), Position(v))
    ensures Equals(v, f) <==> Same(Position(v), Position(f))
  {
    hide Float32, Float64, IsTame, Round;
    var x := Float64Value(f);
    if x.Finite? {
      if f.F32? { Float32Spaced(f.bits32); } else { Float64Spaced(f.bits64); }
    }
    IntegersAreInRange(v);
    TameComparesExactly(x, v.n);
  }

  /** Tame numbers compare as the points of the extended real line they stand for. */
  lemma NumbersCompareExactly(a: Value, b: Value)
    requires IsNumber(a) && IsNumber(b) && Typed(a) && Typed(b) && TameNumber(a) && TameNumber(b)
    ensures Less(a, b) <==> Below(Position(a), Position(b))
    ensures Equals(a, b) <==> Same(Position(a), Position(b))
  {
    hide Float32, Float64, IsTame, Round;
    if a.Int? && b.Int? {
      IntegersCompareExactly(a, b);
    } else if a.Int? {
      FloatAgainstInteger(b, a);
    } else if b.Int? {
      FloatAgainstInteger(a, b);
    }
  }

  /** The same in terms of the real line, on which -infinity is left of everything else and +infinity right of it. Two
      floats of any widths need not be tame for this, as no integer is rounded. */
  lemma NumbersOnTheLine(a: Value, b: Value)
    requires IsNumber(a) && IsNumber(b) && Typed(a) && Typed(b)
    requires !Position(a).NaN? && !Position(b).NaN?
    requires (a.Int? ==> TameNumber(b)) && (b.Int? ==> TameNumber(a))
    ensures var x, y := Position(a), Position(b);
            && (x.Finite? && y.Finite? ==> (Less(a, b) <==> x.r < y.r))
            && (x.NegInf? ==> (Less(a, b) <==> y != NegInf))
            && (y.NegInf? ==> !Less(a, b))
            && (x.PosInf? ==> !Less(a, b))
            && (y.PosInf? ==> (Less(a, b) <==> x != PosInf))
            && (Equals(a, b) <==> x == y)
  {
    hide Float32, Float64, IsTame, Round;
    if a.Int? || b.Int? { NumbersCompareExactly(a, b); }
  }

  /** A NaN is neither less than, nor greater than, nor equal to any number. */
  lemma NanIsUnordered(a: Value, b: Value)
    requires IsNumber(a) && IsNumber(b) && (Position(a).NaN? || Position(b).NaN?)
    ensures !Less(a, b) && !Equals(a, b)
  {
    hide Float32, Float64, Round;
  }

  // ---- Exactly the tame floats -----------------------------------------------------------

  /** A float equals itself, and at most one integer. */
  ghost predicate IsSoundBesideIntegers(f: Value) {
    && Equals(f, f)
    && forall a: Value, b: Value | IsTypedInt(a) && IsTypedInt(b) && Equals(f, a) && Equals(f, b) :: Equals(a, b)
  }

  /** A float as a map key: integers it stands for are one key already. */
  ghost predicate IsSoundKeyBesideIntegers(f: Value) {
    forall a: Value, b: Value | IsTypedInt(a) && IsTypedInt(b) && Tied(f, a) && Tied(f, b) :: Tied(a, b)
  }

  predicate IsTypedInt(v: Value) {
    v.Int? && Typed(v)
  }

  lemma IntegerOfAnySize(n: int) returns (v: Value)
    requires InIntRange(n)
    ensures IsTypedInt(v) && v.n == n
  {
    v := if n < 0 then Int(I64, n) else Int(U64, n);
  }

  /** A float is tied with the integers it equals; a NaN equals none and is tied with all. */
  lemma FloatTies(f: Value, v: Value)
    requires (f.F32? || f.F64?) && IsTypedInt(v)
    ensures Tied(f, v) <==> Float64Value(f).NaN? || Equals(f, v)
    ensures IntToDouble(v.n) == Float64Value(f) ==> Equals(f, v)
  {
    hide Float32, Float64, Round;
  }

  /** Every float that is not tame is tied with two different integers. */
  lemma TwoTiedIntegers(f: Value) returns (a: Value, b: Value)
    requires (f.F32? || f.F64?) && !TameNumber(f)
    ensures IsTypedInt(a) && IsTypedInt(b) && a.n < b.n && Tied(f, a) && Tied(f, b)
  {
    hide Float32, Float64, Round, Less, Equals;
    if Float64Value(f).NaN? {
      a, b := Int(U8, 0), Int(U8, 1);
    } else {
      var m, k;
      if f.F32? { m, k := Float32Normal(f.bits32); } else { m, k := Float64Normal(f.bits64); }
      var x, y := AbsorbsTwoIntegers(Float64Value(f), m, k);
      a := IntegerOfAnySize(if x < y then x else y);
      b := IntegerOfAnySize(if x < y then y else x);
    }
    FloatTies(f, a);
    FloatTies(f, b);
  }

  /** A float is sound beside the integers exactly when it is neither a NaN nor absorbing. */
  lemma SoundExactlyWhenTame(f: Value)
    requires f.F32? || f.F64?
    ensures IsSoundBesideIntegers(f) <==> TameNumber(f)
  {
    hide Float32, Float64, Round, IsTame, Less;
    FloatEqualsItself(f);
    if TameNumber(f) {
      forall a: Value, b: Value | IsTypedInt(a) && IsTypedInt(b) && Equals(f, a) && Equals(f, b)
        ensures Equals(a, b)
      {
        FloatAgainstInteger(f, a);
        FloatAgainstInteger(f, b);
        IntegersCompareExactly(a, b);
      }
    } else if Equals(f, f) {
      var a, b := TwoTiedIntegers(f);
      FloatTies(f, a);
      FloatTies(f, b);
      IntegersCompareExactly(a, b);
    }
  }

  lemma FloatEqualsItself(f: Value)
    requires f.F32? || f.F64?
    ensures Equals(f, f) <==> !Float64Value(f).NaN?
    ensures TameNumber(f) ==> !Float64Value(f).NaN?
  {
    hide Float32, Float64;
  }

  /** Under operator<, too: only the tame floats keep their place among integer keys. */
  lemma SoundKeyExactlyWhenTame(f: Value)
    requires f.F32? || f.F64?
    ensures IsSoundKeyBesideIntegers(f) <==> TameNumber(f)
  {
    hide Float32, Float64, Round, IsTame, Less, Equals;
    FloatEqualsItself(f);
    if TameNumber(f) {
      SoundExactlyWhenTame(f);
      forall a: Value, b: Value | IsTypedInt(a) && IsTypedInt(b) && Tied(f, a) && Tied(f, b)
        ensures Tied(a, b)
      {
        FloatTies(f, a);
        FloatTies(f, b);
        IntegersCompareExactly(a, b);
        IntegersCompareExactly(b, a);
      }
    } else {
      var a, b := TwoTiedIntegers(f);
      IntegersCompareExactly(a, b);
    }
  }

  /** With an absorbing float operator== is not transitive: the double 2^53 equals the INT64s 2^53 and 2^53 + 1. */
  lemma EqualityIsNotTransitive()
    ensures var f := F64(0x4340_0000_0000_0000);
            var a, b := Int(I64, TWO_53), Int(I64, TWO_53 + 1);
            Equals(a, f) && Equals(f, b) && !Equals(a, b) && Less(a, b)
  {
    assert Float64(0x4340_0000_0000_0000) == Finite(TWO_53 as real) by { PowersUsed(); }
    RoundNatExact(TWO_53);
    RoundInSecondBinade(TWO_53 + 1);
  }
}
