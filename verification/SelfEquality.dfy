/** When a value equals itself and its retyped form, and how equality relates to structural identity. */
module SelfEquality {
  import opened Bytes
  import opened Ieee754
  import opened Values
  import opened Comparison
  import opened FloatBits
  import opened NumberOrder
  import opened Encoding
  import opened NormOrder

  predicate NanFree(v: Value) {
    match v
    case F32(bits) => !Float32(bits).NaN?
    case F64(bits) => !Float64(bits).NaN?
    case Arr(items) => forall i | 0 <= i < |items| :: NanFree(items[i])
    case Obj(entries) => forall i | 0 <= i < |entries| :: NanFreePair(entries[i])
    case _ => true
  }

  predicate NanFreePair(p: Pair) {
    NanFree(p.key) && NanFree(p.value)
  }

  predicate FloatFree(v: Value) {
    match v
    case F32(_) => false
    case F64(_) => false
    case Arr(items) => forall i | 0 <= i < |items| :: FloatFree(items[i])
    case Obj(entries) => forall i | 0 <= i < |entries| :: FloatFreePair(entries[i])
    case _ => true
  }

  predicate FloatFreePair(p: Pair) {
    FloatFree(p.key) && FloatFree(p.value)
  }

  /** A value equals itself exactly when it contains no NaN. */
  lemma {:induction false} EqualsItself(v: Value)
    ensures Equals(v, v) <==> NanFree(v)
    decreases v
  {
    hide Float32, Float64, Round;
    match v
    case Arr(items) => ItemsEqualThemselves(items);
    case Obj(entries) => PairsEqualThemselves(entries);
    case _ =>
  }

  lemma {:induction false} ItemsEqualThemselves(xs: seq<Value>)
    ensures ItemsEqual(xs, xs) <==> forall i | 0 <= i < |xs| :: NanFree(xs[i])
    decreases xs
  {
    hide Equals, NanFree;
    if xs != [] {
      EqualsItself(xs[0]);
      ItemsEqualThemselves(xs[1..]);
      assert forall i | 1 <= i < |xs| :: xs[i] == xs[1..][i - 1];
    }
  }

  lemma {:induction false} PairsEqualThemselves(ps: seq<Pair>)
    ensures PairsEqual(ps, ps) <==> forall i | 0 <= i < |ps| :: NanFreePair(ps[i])
    decreases ps
  {
    hide PairEquals, NanFreePair;
    if ps != [] {
      PairEqualsItself(ps[0]);
      PairsEqualThemselves(ps[1..]);
      assert forall i | 1 <= i < |ps| :: ps[i] == ps[1..][i - 1];
    }
  }

  lemma {:induction false} PairEqualsItself(p: Pair)
    ensures PairEquals(p, p) <==> NanFreePair(p)
    decreases p
  {
    hide Equals, NanFree;
    EqualsItself(p.key);
    EqualsItself(p.value);
  }

  lemma {:induction false} NormIsIdempotent(v: Value)
    ensures Norm(Norm(v)) == Norm(v)
    decreases v
  {
    match v
    case Arr(items) =>
      forall i | 0 <= i < |items|
        ensures Norm(NormItems(items)[i]) == NormItems(items)[i]
      {
        NormIsIdempotent(items[i]);
      }
      assert NormItems(NormItems(items)) == NormItems(items);
    case Obj(entries) =>
      forall i | 0 <= i < |entries|
        ensures NormPair(NormPairs(entries)[i]) == NormPairs(entries)[i]
      {
        NormIsIdempotent(entries[i].key);
        NormIsIdempotent(entries[i].value);
      }
      assert NormPairs(NormPairs(entries)) == NormPairs(entries);
    case _ =>
  }

  /** A value equals its retyped form, in both directions, exactly when it contains no NaN. */
  lemma EqualsItsNorm(v: Value)
    requires Typed(v)
    ensures Equals(Norm(v), v) <==> NanFree(v)
    ensures Equals(v, Norm(v)) <==> NanFree(v)
  {
    hide *;
    TypedNorm(v);
    NormIsIdempotent(v);
    ComparisonsOfNorm(v, v);
    ComparisonsOfNorm(Norm(v), v);
    ComparisonsOfNorm(v, Norm(v));
    EqualsItself(v);
  }

  // ---- Without floats, equality is identity up to integer types -------------------------------

  lemma {:induction false} EqualsIsSameNorm(a: Value, b: Value)
    requires Typed(a) && Typed(b) && FloatFree(a) && FloatFree(b)
    ensures Equals(a, b) <==> Norm(a) == Norm(b)
    decreases a
  {
    hide Round, MinimalKind;
    if a.Int? && b.Int? {
      IntegersCompareExactly(a, b);
    } else if a.Arr? && b.Arr? {
      ItemsEqualIsSameNorm(a.items, b.items);
    } else if a.Obj? && b.Obj? {
      PairsEqualIsSameNorm(a.entries, b.entries);
    }
  }

  lemma {:induction false} ItemsEqualIsSameNorm(xs: seq<Value>, ys: seq<Value>)
    requires forall i | 0 <= i < |xs| :: Typed(xs[i]) && FloatFree(xs[i])
    requires forall i | 0 <= i < |ys| :: Typed(ys[i]) && FloatFree(ys[i])
    ensures ItemsEqual(xs, ys) <==> NormItems(xs) == NormItems(ys)
    decreases xs
  {
    hide Equals, Typed, FloatFree, Norm;
    if xs != [] && ys != [] {
      EqualsIsSameNorm(xs[0], ys[0]);
      ItemsEqualIsSameNorm(xs[1..], ys[1..]);
      assert NormItems(xs)[1..] == NormItems(xs[1..]);
      assert NormItems(ys)[1..] == NormItems(ys[1..]);
    }
  }

  predicate TypedFloatFreePair(p: Pair) {
    TypedPair(p) && FloatFreePair(p)
  }

  lemma {:induction false} PairsEqualIsSameNorm(ps: seq<Pair>, qs: seq<Pair>)
    requires forall i | 0 <= i < |ps| :: TypedFloatFreePair(ps[i])
    requires forall i | 0 <= i < |qs| :: TypedFloatFreePair(qs[i])
    ensures PairsEqual(ps, qs) <==> NormPairs(ps) == NormPairs(qs)
    decreases ps
  {
    hide PairEquals, TypedFloatFreePair, NormPair;
    if ps != [] && qs != [] {
      PairEqualsIsSameNorm(ps[0], qs[0]);
      PairsEqualIsSameNorm(ps[1..], qs[1..]);
      assert NormPairs(ps)[1..] == NormPairs(ps[1..]);
      assert NormPairs(qs)[1..] == NormPairs(qs[1..]);
    }
  }

  lemma {:induction false} PairEqualsIsSameNorm(p: Pair, q: Pair)
    requires TypedFloatFreePair(p) && TypedFloatFreePair(q)
    ensures PairEquals(p, q) <==> NormPair(p) == NormPair(q)
    decreases p
  {
    hide Equals, Typed, FloatFree, Norm;
    EqualsIsSameNorm(p.key, q.key);
    EqualsIsSameNorm(p.value, q.value);
  }

  // ---- With floats: where equality and identity part --------------------------------------------

  /** Numbers of one class, an integer, a float or a double each, and not two zeros of opposite sign. */
  predicate NumbersAlike(a: Value, b: Value) {
    || (a.Int? && b.Int?)
    || (a.F32? && b.F32? && !(IsZero32(a.bits32) && IsZero32(b.bits32) && a != b))
    || (a.F64? && b.F64? && !(IsZero64(a.bits64) && IsZero64(b.bits64) && a != b))
  }

  /** Wherever numbers stand at the same place in both values, they are alike. */
  predicate Alike(a: Value, b: Value)
    decreases a
  {
    if IsNumber(a) && IsNumber(b) then NumbersAlike(a, b)
    else if a.Arr? && b.Arr? then ItemsAlike(a.items, b.items)
    else if a.Obj? && b.Obj? then PairsAlike(a.entries, b.entries)
    else true
  }

  predicate ItemsAlike(xs: seq<Value>, ys: seq<Value>)
    decreases xs
  {
    xs == [] || ys == [] || (Alike(xs[0], ys[0]) && ItemsAlike(xs[1..], ys[1..]))
  }

  predicate PairsAlike(ps: seq<Pair>, qs: seq<Pair>)
    decreases ps
  {
    ps == [] || qs == [] || (PairAlike(ps[0], qs[0]) && PairsAlike(ps[1..], qs[1..]))
  }

  predicate PairAlike(p: Pair, q: Pair)
    decreases p
  {
    Alike(p.key, q.key) && Alike(p.value, q.value)
  }

  lemma EqualNumbersAlike(a: Value, b: Value)
    requires Typed(a) && Typed(b) && IsNumber(a) && IsNumber(b)
    ensures Equals(a, b) && NumbersAlike(a, b) <==> Norm(a) == Norm(b) && NanFree(a)
  {
    hide Float32, Float64, Round, MinimalKind;
    if a.Int? && b.Int? {
      IntegersCompareExactly(a, b);
    } else if a.F32? && b.F32? {
      if Equals(a, b) { Float32Injective(a.bits32, b.bits32); }
    } else if a.F64? && b.F64? {
      if Equals(a, b) { Float64Injective(a.bits64, b.bits64); }
    }
  }

  /** Equality of alike values is identity up to integer types, NaNs apart. */
  lemma {:induction false} EqualAndAlikeIsSameNorm(a: Value, b: Value)
    requires Typed(a) && Typed(b)
    ensures Equals(a, b) && Alike(a, b) <==> Norm(a) == Norm(b) && NanFree(a)
    decreases a
  {
    hide NumbersAlike, Float32, Float64, NumberEquals, MinimalKind;
    if IsNumber(a) && IsNumber(b) {
      EqualNumbersAlike(a, b);
    } else if a.Arr? && b.Arr? {
      EqualItemsAlike(a.items, b.items);
    } else if a.Obj? && b.Obj? {
      EqualPairsAlike(a.entries, b.entries);
    } else {
      OtherKindsDiffer(a, b);
    }
  }

  lemma OtherKindsDiffer(a: Value, b: Value)
    requires !(IsNumber(a) && IsNumber(b)) && !(a.Arr? && b.Arr?) && !(a.Obj? && b.Obj?)
    ensures Equals(a, b) <==> Norm(a) == Norm(b) && NanFree(a)
    ensures Alike(a, b)
  {
    hide Float32, Float64, MinimalKind;
  }

  lemma {:induction false} EqualItemsAlike(xs: seq<Value>, ys: seq<Value>)
    requires (forall i | 0 <= i < |xs| :: Typed(xs[i])) && forall i | 0 <= i < |ys| :: Typed(ys[i])
    ensures ItemsEqual(xs, ys) && ItemsAlike(xs, ys)
            <==> NormItems(xs) == NormItems(ys) && forall i | 0 <= i < |xs| :: NanFree(xs[i])
    decreases xs
  {
    hide Equals, Typed, NanFree, Norm, Alike;
    if xs != [] && ys != [] {
      EqualAndAlikeIsSameNorm(xs[0], ys[0]);
      EqualItemsAlike(xs[1..], ys[1..]);
      assert NormItems(xs)[1..] == NormItems(xs[1..]);
      assert NormItems(ys)[1..] == NormItems(ys[1..]);
      assert forall i | 1 <= i < |xs| :: xs[i] == xs[1..][i - 1];
    }
  }

  lemma {:induction false} EqualPairsAlike(ps: seq<Pair>, qs: seq<Pair>)
    requires (forall i | 0 <= i < |ps| :: TypedPair(ps[i])) && forall i | 0 <= i < |qs| :: TypedPair(qs[i])
    ensures PairsEqual(ps, qs) && PairsAlike(ps, qs)
            <==> NormPairs(ps) == NormPairs(qs) && forall i | 0 <= i < |ps| :: NanFreePair(ps[i])
    decreases ps
  {
    hide PairEquals, TypedPair, NanFreePair, NormPair, PairAlike;
    if ps != [] && qs != [] {
      EqualPairAlike(ps[0], qs[0]);
      EqualPairsAlike(ps[1..], qs[1..]);
      assert NormPairs(ps)[1..] == NormPairs(ps[1..]);
      assert NormPairs(qs)[1..] == NormPairs(qs[1..]);
      assert forall i | 1 <= i < |ps| :: ps[i] == ps[1..][i - 1];
    }
  }

  lemma {:induction false} EqualPairAlike(p: Pair, q: Pair)
    requires TypedPair(p) && TypedPair(q)
    ensures PairEquals(p, q) && PairAlike(p, q) <==> NormPair(p) == NormPair(q) && NanFreePair(p)
    decreases p
  {
    hide Equals, Typed, NanFree, Norm, Alike;
    EqualAndAlikeIsSameNorm(p.key, q.key);
    EqualAndAlikeIsSameNorm(p.value, q.value);
  }
}
