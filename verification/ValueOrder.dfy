/** The order of whole values. A three-way comparison by class, number and content serves as the reference; on tame
    values operator< and operator== are its "below" and "equal", which makes operator< a strict weak order. */
module ValueOrder {
  import opened Bytes
  import opened Ieee754
  import opened Values
  import opened Comparison
  import opened NumberOrder

  // ---- Three-way results ---------------------------------------------------------------

  datatype Order = Lt | Eq | Gt {

    function Flip(): Order {
      match this
      case Lt => Gt
      case Eq => Eq
      case Gt => Lt
    }

    /** The first difference decides. */
    function Then(next: Order): Order {
      if Eq? then next else this
    }
  }

  /** What a transitive comparison of a with b, b with c and a with c may answer. */
  predicate Chain(ab: Order, bc: Order, ac: Order) {
    && (ab == bc ==> ac == ab)
    && (ab.Eq? ==> ac == bc)
    && (bc.Eq? ==> ac == ab)
  }

  function CompareInt(a: int, b: int): Order {
    if a < b then Lt else if b < a then Gt else Eq
  }

  function CompareReal(x: real, y: real): Order {
    if x < y then Lt else if y < x then Gt else Eq
  }

  /** -infinity, the reals, +infinity; a NaN has no place and compares as equal. */
  function CompareNum(x: Num, y: Num): Order {
    if x.NaN? || y.NaN? || x == y then Eq
    else if x.NegInf? || y.PosInf? then Lt
    else if x.PosInf? || y.NegInf? then Gt
    else CompareReal(x.r, y.r)
  }

  function CompareBytes(s: seq<byte>, t: seq<byte>): Order {
    if s == [] || t == [] then CompareInt(|s|, |t|)
    else CompareInt(s[0], t[0]).Then(CompareBytes(s[1..], t[1..]))
  }

  // ---- The reference order of values ------------------------------------------------------

  function Class(v: Value): int {
    match v
    case Null => 0
    case Int(_, _) => 1
    case F32(_) => 1
    case F64(_) => 1
    case Bool(_) => 2
    case Str(_) => 3
    case Bin(_) => 4
    case Arr(_) => 5
    case Obj(_) => 6
    case Ext(_, _) => 7
  }

  /** Classes first; inside a class by exact number, by bytes, or lexicographically by content. */
  function Compare(a: Value, b: Value): (o: Order)
    decreases a
  {
    if Class(a) != Class(b) then CompareInt(Class(a), Class(b))
    else
      match a
      case Null => Eq
      case Bool(x) => CompareInt(if x then 1 else 0, if b.b then 1 else 0)
      case Str(s) => CompareBytes(s, b.str)
      case Bin(s) => CompareBytes(s, b.data)
      case Arr(items) => CompareItems(items, b.items)
      case Obj(entries) => ComparePairs(entries, b.entries)
      case Ext(tag, s) => CompareInt(tag, b.tag).Then(CompareBytes(s, b.payload))
      case _ => CompareNum(Position(a), Position(b))
  }

  function CompareItems(xs: seq<Value>, ys: seq<Value>): Order
    decreases xs
  {
    if xs == [] || ys == [] then CompareInt(|xs|, |ys|)
    else Compare(xs[0], ys[0]).Then(CompareItems(xs[1..], ys[1..]))
  }

  function ComparePairs(ps: seq<Pair>, qs: seq<Pair>): Order
    decreases ps
  {
    if ps == [] || qs == [] then CompareInt(|ps|, |qs|)
    else ComparePair(ps[0], qs[0]).Then(ComparePairs(ps[1..], qs[1..]))
  }

  function ComparePair(p: Pair, q: Pair): Order
    decreases p
  {
    Compare(p.key, q.key).Then(Compare(p.value, q.value))
  }

  /** Every float inside the value is tame: no NaN and none that absorbs integers. */
  predicate Tame(v: Value) {
    match v
    case F32(_) => TameNumber(v)
    case F64(_) => TameNumber(v)
    case Arr(items) => forall i | 0 <= i < |items| :: Tame(items[i])
    case Obj(entries) => forall i | 0 <= i < |entries| :: Tame(entries[i].key) && Tame(entries[i].value)
    case _ => true
  }

  /** No map key contains a NaN or an absorbing float. */
  predicate KeysTame(v: Value) {
    match v
    case Arr(items) => forall i | 0 <= i < |items| :: KeysTame(items[i])
    case Obj(entries) =>
      forall i | 0 <= i < |entries| ::
        Tame(entries[i].key) && KeysTame(entries[i].key) && KeysTame(entries[i].value)
    case _ => true
  }

  predicate Comparable(v: Value) {
    Typed(v) && Tame(v)
  }

  predicate ComparableItems(xs: seq<Value>) {
    forall i | 0 <= i < |xs| :: Comparable(xs[i])
  }

  predicate ComparablePairs(ps: seq<Pair>) {
    forall i | 0 <= i < |ps| :: ComparablePair(ps[i])
  }

  predicate ComparablePair(p: Pair) {
    Comparable(p.key) && Comparable(p.value)
  }

  lemma ComparableParts(v: Value)
    requires Comparable(v)
    ensures v.Arr? ==> ComparableItems(v.items)
    ensures v.Obj? ==> ComparablePairs(v.entries)
  {
  }

  // ---- The reference order is antisymmetric ------------------------------------------------

  lemma {:induction false} BytesFlip(s: seq<byte>, t: seq<byte>)
    ensures CompareBytes(t, s) == CompareBytes(s, t).Flip()
  {
    if s != [] && t != [] { BytesFlip(s[1..], t[1..]); }
  }

  lemma {:induction false} CompareFlip(a: Value, b: Value)
    ensures Compare(b, a) == Compare(a, b).Flip()
    decreases a
  {
    if Class(a) == Class(b) {
      match a
      case Str(s) => BytesFlip(s, b.str);
      case Bin(s) => BytesFlip(s, b.data);
      case Ext(_, s) => BytesFlip(s, b.payload);
      case Arr(items) => ItemsFlip(items, b.items);
      case Obj(entries) => PairsFlip(entries, b.entries);
      case _ =>
    }
  }

  lemma {:induction false} ItemsFlip(xs: seq<Value>, ys: seq<Value>)
    ensures CompareItems(ys, xs) == CompareItems(xs, ys).Flip()
    decreases xs
  {
    if xs != [] && ys != [] {
      CompareFlip(xs[0], ys[0]);
      ItemsFlip(xs[1..], ys[1..]);
    }
  }

  lemma {:induction false} PairsFlip(ps: seq<Pair>, qs: seq<Pair>)
    ensures ComparePairs(qs, ps) == ComparePairs(ps, qs).Flip()
    decreases ps
  {
    if ps != [] && qs != [] {
      PairFlip(ps[0], qs[0]);
      PairsFlip(ps[1..], qs[1..]);
    }
  }

  lemma {:induction false} PairFlip(p: Pair, q: Pair)
    ensures ComparePair(q, p) == ComparePair(p, q).Flip()
    decreases p
  {
    CompareFlip(p.key, q.key);
    CompareFlip(p.value, q.value);
  }

  // ---- ... and transitive ---------------------------------------------------------------------

  lemma {:induction false} BytesChain(s: seq<byte>, t: seq<byte>, u: seq<byte>)
    ensures Chain(CompareBytes(s, t), CompareBytes(t, u), CompareBytes(s, u))
  {
    if s != [] && t != [] && u != [] { BytesChain(s[1..], t[1..], u[1..]); }
  }

  lemma BoolsChain(a: Value, b: Value, c: Value)
    requires a.Bool? && b.Bool? && c.Bool?
    ensures Chain(Compare(a, b), Compare(b, c), Compare(a, c))
  {
  }

  lemma NumbersChain(a: Value, b: Value, c: Value)
    requires IsNumber(a) && IsNumber(b) && IsNumber(c)
    requires Comparable(a) && Comparable(b) && Comparable(c)
    ensures Chain(CompareNum(Position(a), Position(b)), CompareNum(Position(b), Position(c)),
                  CompareNum(Position(a), Position(c)))
  {
    hide Float32, Float64;
  }

  lemma {:induction false} CompareChain(a: Value, b: Value, c: Value)
    requires Comparable(a) && Comparable(b) && Comparable(c)
    ensures Chain(Compare(a, b), Compare(b, c), Compare(a, c))
    decreases a
  {
    if Class(a) == Class(b) == Class(c) {
      ComparableParts(a);
      ComparableParts(b);
      ComparableParts(c);
      match a
      case Null =>
      case Bool(_) => BoolsChain(a, b, c);
      case Str(s) => BytesChain(s, b.str, c.str);
      case Bin(s) => BytesChain(s, b.data, c.data);
      case Ext(_, s) => BytesChain(s, b.payload, c.payload);
      case Arr(items) => ItemsChain(items, b.items, c.items);
      case Obj(entries) => PairsChain(entries, b.entries, c.entries);
      case _ => NumbersChain(a, b, c);
    }
  }

  lemma {:induction false} ItemsChain(xs: seq<Value>, ys: seq<Value>, zs: seq<Value>)
    requires ComparableItems(xs) && ComparableItems(ys) && ComparableItems(zs)
    ensures Chain(CompareItems(xs, ys), CompareItems(ys, zs), CompareItems(xs, zs))
    decreases xs
  {
    hide Comparable;
    if xs != [] && ys != [] && zs != [] {
      CompareChain(xs[0], ys[0], zs[0]);
      ItemsChain(xs[1..], ys[1..], zs[1..]);
    }
  }

  lemma {:induction false} PairsChain(ps: seq<Pair>, qs: seq<Pair>, rs: seq<Pair>)
    requires ComparablePairs(ps) && ComparablePairs(qs) && ComparablePairs(rs)
    ensures Chain(ComparePairs(ps, qs), ComparePairs(qs, rs), ComparePairs(ps, rs))
    decreases ps
  {
    hide ComparablePair;
    if ps != [] && qs != [] && rs != [] {
      PairChain(ps[0], qs[0], rs[0]);
      PairsChain(ps[1..], qs[1..], rs[1..]);
    }
  }

  lemma {:induction false} PairChain(p: Pair, q: Pair, r: Pair)
    requires ComparablePair(p) && ComparablePair(q) && ComparablePair(r)
    ensures Chain(ComparePair(p, q), ComparePair(q, r), ComparePair(p, r))
    decreases p
  {
    hide Comparable;
    CompareChain(p.key, q.key, r.key);
    CompareChain(p.value, q.value, r.value);
  }

  // ---- operator< and operator== are the reference order -----------------------------------

  lemma {:induction false} BytesLessIsCompare(s: seq<byte>, t: seq<byte>)
    ensures BytesLess(s, t) <==> CompareBytes(s, t).Lt?
    ensures s == t <==> CompareBytes(s, t).Eq?
  {
    if s != [] && t != [] {
      BytesLessIsCompare(s[1..], t[1..]);
      assert s == [s[0]] + s[1..] && t == [t[0]] + t[1..];
    }
  }

  lemma ClassesAreTagRanges(a: Value, b: Value)
    requires Class(a) != Class(b)
    ensures Tag(a) < Tag(b) <==> Class(a) < Class(b)
  {
  }

  lemma DifferentClasses(a: Value, b: Value)
    requires Class(a) != Class(b)
    ensures Less(a, b) <==> Compare(a, b).Lt?
    ensures Equals(a, b) <==> Compare(a, b).Eq?
  {
    hide Float32, Float64, Round;
    ClassesAreTagRanges(a, b);
  }

  lemma NumbersMatch(a: Value, b: Value)
    requires IsNumber(a) && IsNumber(b) && Comparable(a) && Comparable(b)
    ensures Less(a, b) <==> Compare(a, b).Lt?
    ensures Equals(a, b) <==> Compare(a, b).Eq?
  {
    hide Float32, Float64, Round, Less, Equals;
    NumbersCompareExactly(a, b);
  }

  lemma {:induction false} LessIsCompare(a: Value, b: Value)
    requires Comparable(a) && Comparable(b)
    ensures Less(a, b) <==> Compare(a, b).Lt?
    ensures Equals(a, b) <==> Compare(a, b).Eq?
    decreases Size(a) + Size(b), 0
  {
    if Class(a) != Class(b) {
      DifferentClasses(a, b);
    } else {
      ComparableParts(a);
      ComparableParts(b);
      match a
      case Null =>
      case Bool(_) =>
      case Str(s) => BytesLessIsCompare(s, b.str);
      case Bin(s) => BytesLessIsCompare(s, b.data);
      case Ext(_, s) => BytesLessIsCompare(s, b.payload);
      case Arr(items) => ItemsLessIsCompare(items, b.items);
      case Obj(entries) => PairsLessIsCompare(entries, b.entries);
      case _ => NumbersMatch(a, b);
    }
  }

  lemma {:induction false} ItemsLessIsCompare(xs: seq<Value>, ys: seq<Value>)
    requires ComparableItems(xs) && ComparableItems(ys)
    ensures ItemsLess(xs, ys) <==> CompareItems(xs, ys).Lt?
    ensures ItemsEqual(xs, ys) <==> CompareItems(xs, ys).Eq?
    decreases SizeItems(xs) + SizeItems(ys), 1
  {
    hide Comparable;
    if xs != [] && ys != [] {
      LessIsCompare(xs[0], ys[0]);
      LessIsCompare(ys[0], xs[0]);
      CompareFlip(xs[0], ys[0]);
      ItemsLessIsCompare(xs[1..], ys[1..]);
      ItemsEqualHasLength(xs[1..], ys[1..]);
    }
  }

  lemma {:induction false} ItemsEqualHasLength(xs: seq<Value>, ys: seq<Value>)
    ensures CompareItems(xs, ys).Eq? ==> |xs| == |ys|
    decreases xs
  {
    if xs != [] && ys != [] { ItemsEqualHasLength(xs[1..], ys[1..]); }
  }

  lemma {:induction false} PairsLessIsCompare(ps: seq<Pair>, qs: seq<Pair>)
    requires ComparablePairs(ps) && ComparablePairs(qs)
    ensures PairsLess(ps, qs) <==> ComparePairs(ps, qs).Lt?
    ensures PairsEqual(ps, qs) <==> ComparePairs(ps, qs).Eq?
    decreases SizePairs(ps) + SizePairs(qs), 2
  {
    hide ComparablePair;
    if ps != [] && qs != [] {
      PairLessIsCompare(ps[0], qs[0]);
      PairLessIsCompare(qs[0], ps[0]);
      PairFlip(ps[0], qs[0]);
      PairsLessIsCompare(ps[1..], qs[1..]);
      PairsEqualHasLength(ps[1..], qs[1..]);
    }
  }

  lemma {:induction false} PairsEqualHasLength(ps: seq<Pair>, qs: seq<Pair>)
    ensures ComparePairs(ps, qs).Eq? ==> |ps| == |qs|
    decreases ps
  {
    if ps != [] && qs != [] { PairsEqualHasLength(ps[1..], qs[1..]); }
  }

  lemma {:induction false} PairLessIsCompare(p: Pair, q: Pair)
    requires ComparablePair(p) && ComparablePair(q)
    ensures PairLess(p, q) <==> ComparePair(p, q).Lt?
    ensures PairEquals(p, q) <==> ComparePair(p, q).Eq?
    decreases SizePair(p) + SizePair(q), 1
  {
    hide Comparable;
    LessIsCompare(p.key, q.key);
    LessIsCompare(q.key, p.key);
    CompareFlip(p.key, q.key);
    LessIsCompare(p.value, q.value);
  }

  // ---- The main results -------------------------------------------------------------------

  /** operator< is a strict weak order on tame values, and operator== is its incomparability. */
  lemma LessIsStrictWeakOrder(a: Value, b: Value, c: Value)
    requires Comparable(a) && Comparable(b) && Comparable(c)
    ensures !Less(a, a)
    ensures Less(a, b) && Less(b, c) ==> Less(a, c)
    ensures !Less(a, b) && !Less(b, c) ==> !Less(a, c)
    ensures Equals(a, b) <==> !Less(a, b) && !Less(b, a)
  {
    hide *;
    LessMeets(a, a);
    LessMeets(a, b);
    LessMeets(b, a);
    LessMeets(b, c);
    LessMeets(c, b);
    LessMeets(a, c);
    LessMeets(c, a);
    CompareChain(a, b, c);
    CompareChain(c, b, a);
    CompareFlip(a, a);
    CompareFlip(a, b);
    CompareFlip(b, c);
    CompareFlip(a, c);
    OrderAlgebra(Compare(a, b), Compare(b, c), Compare(a, c), Compare(a, a));
  }

  lemma LessMeets(a: Value, b: Value)
    requires Comparable(a) && Comparable(b)
    ensures Less(a, b) <==> Compare(a, b).Lt?
    ensures Equals(a, b) <==> Compare(a, b).Eq?
  {
    LessIsCompare(a, b);
  }

  lemma OrderAlgebra(ab: Order, bc: Order, ac: Order, aa: Order)
    requires Chain(ab, bc, ac) && Chain(bc.Flip(), ab.Flip(), ac.Flip())
    requires aa == aa.Flip()
    ensures aa.Eq?
    ensures ab.Lt? && bc.Lt? ==> ac.Lt?
    ensures !ab.Lt? && !bc.Lt? ==> !ac.Lt?
    ensures forall o: Order :: o.Eq? <==> !o.Lt? && !o.Flip().Lt?
  {
  }
}
