/** Which values are sound map keys. operator< is a strict weak order among tame values; here is the converse: a value
    with a NaN or an absorbing float anywhere in it is tied with two values of which one is below the other. */
module KeyOrder {
  import opened Values
  import opened Comparison
  import opened NumberOrder
  import opened ValueOrder

  /** Sound beside all comparable values: those tied with v are tied with each other, as for one key of a map. */
  ghost predicate IsSoundKey(v: Value) {
    forall a: Value, b: Value | Comparable(a) && Comparable(b) && Tied(v, a) && Tied(v, b) :: Tied(a, b)
  }

  /** The same with every map inside the other values in iteration order. */
  ghost predicate IsSoundKeyAmongMaps(v: Value) {
    forall a: Value, b: Value |
      Comparable(a) && Comparable(b) && Ordered(a) && Ordered(b) && Tied(v, a) && Tied(v, b) :: Tied(a, b)
  }

  // ---- Tame values tied with a given value -----------------------------------------------------------

  predicate ItemsTied(xs: seq<Value>, ys: seq<Value>) {
    !ItemsLess(xs, ys) && !ItemsLess(ys, xs)
  }

  predicate PairsTied(ps: seq<Pair>, qs: seq<Pair>) {
    !PairsLess(ps, qs) && !PairsLess(qs, ps)
  }

  predicate PairTied(p: Pair, q: Pair) {
    !PairLess(p, q) && !PairLess(q, p)
  }

  predicate TameItems(xs: seq<Value>) {
    forall i | 0 <= i < |xs| :: Tame(xs[i])
  }

  predicate TamePair(p: Pair) {
    Tame(p.key) && Tame(p.value)
  }

  predicate TamePairs(ps: seq<Pair>) {
    forall i | 0 <= i < |ps| :: TamePair(ps[i])
  }

  /** What the twins of a value keep of it. */
  predicate StaysOrdered(v: Value, a: Value) {
    Ordered(v) && KeysTame(v) ==> Ordered(a)
  }

  lemma TiedWithItself(v: Value)
    requires Comparable(v)
    ensures Tied(v, v)
  {
    hide Less;
    LessIsStrictWeakOrder(v, v, v);
  }

  /** Two tame values tied with v: v itself twice where v is tame, and otherwise one below the other. The floats of v
      that are not tame are replaced by integers they are tied with. */
  lemma {:induction false} Twins(v: Value) returns (a: Value, b: Value)
    requires Typed(v)
    ensures Comparable(a) && Comparable(b) && Tied(v, a) && Tied(v, b)
    ensures if Tame(v) then a == v && b == v else Less(a, b)
    ensures StaysOrdered(v, a) && StaysOrdered(v, b)
    decreases v
  {
    if Tame(v) {
      a, b := v, v;
      TiedWithItself(v);
    } else if v.F32? || v.F64? {
      a, b := FloatTwins(v);
    } else if v.Arr? {
      hide Less, Typed, Tame;
      a, b := ArrTwins(v.items);
    } else {
      assert v.Obj?;
      a, b := ObjTwins(v.entries);
    }
  }

  lemma FloatTwins(v: Value) returns (a: Value, b: Value)
    requires (v.F32? || v.F64?) && !Tame(v)
    ensures Comparable(a) && Comparable(b) && Tied(v, a) && Tied(v, b) && Less(a, b) && Ordered(a) && Ordered(b)
  {
    hide Less, TameNumber;
    a, b := TwoTiedIntegers(v);
    IntegersCompareExactly(a, b);
  }

  lemma {:induction false} ArrTwins(items: seq<Value>) returns (a: Value, b: Value)
    requires Typed(Arr(items)) && !Tame(Arr(items))
    ensures Comparable(a) && Comparable(b) && Tied(Arr(items), a) && Tied(Arr(items), b) && Less(a, b)
    ensures StaysOrdered(Arr(items), a) && StaysOrdered(Arr(items), b)
    decreases items, 1
  {
    hide ItemsLess;
    var xs, ys := ItemTwins(items);
    a, b := Arr(xs), Arr(ys);
  }

  lemma {:induction false} ItemTwins(items: seq<Value>) returns (xs: seq<Value>, ys: seq<Value>)
    requires forall i | 0 <= i < |items| :: Typed(items[i])
    ensures |xs| == |ys| == |items| && ComparableItems(xs) && ComparableItems(ys)
    ensures ItemsTied(items, xs) && ItemsTied(items, ys)
    ensures if TameItems(items) then xs == items && ys == items else ItemsLess(xs, ys)
    ensures forall i | 0 <= i < |items| :: StaysOrdered(items[i], xs[i]) && StaysOrdered(items[i], ys[i])
    decreases items, 0
  {
    hide Less, Typed, Tame, Comparable, StaysOrdered;
    if items == [] {
      xs, ys := [], [];
    } else {
      var x, y := Twins(items[0]);
      var xs', ys' := ItemTwins(items[1..]);
      xs, ys := [x] + xs', [y] + ys';
      TameItemsStep(items);
      if Tame(items[0]) { TiedWithItself(x); }
    }
  }

  lemma TameItemsStep(items: seq<Value>)
    requires items != []
    ensures TameItems(items) <==> Tame(items[0]) && TameItems(items[1..])
  {
    hide Tame;
    assert items == [items[0]] + items[1..];
  }

  lemma {:induction false} ObjTwins(entries: seq<Pair>) returns (a: Value, b: Value)
    requires Typed(Obj(entries)) && !Tame(Obj(entries))
    ensures Comparable(a) && Comparable(b) && Tied(Obj(entries), a) && Tied(Obj(entries), b) && Less(a, b)
    ensures StaysOrdered(Obj(entries), a) && StaysOrdered(Obj(entries), b)
    decreases entries, 1
  {
    hide PairsLess, StaysOrdered, PairStays, Less, Tame, Comparable, ComparablePairs, PairsTied, TamePairs;
    TameEntries(entries);
    var ps, qs := EntryTwins(entries);
    a, b := Obj(ps), Obj(qs);
    ObjOfTwins(entries, ps);
    ObjOfTwins(entries, qs);
    SortedTwins(entries, ps);
    SortedTwins(entries, qs);
    ObjLess(ps, qs);
  }

  lemma TameEntries(entries: seq<Pair>)
    ensures Tame(Obj(entries)) <==> TamePairs(entries)
  {
  }

  lemma ObjOfTwins(entries: seq<Pair>, ps: seq<Pair>)
    requires ComparablePairs(ps) && PairsTied(entries, ps)
    ensures Comparable(Obj(ps)) && Tied(Obj(entries), Obj(ps))
  {
    hide PairsLess;
  }

  lemma ObjLess(ps: seq<Pair>, qs: seq<Pair>)
    ensures PairsLess(ps, qs) ==> Less(Obj(ps), Obj(qs))
  {
    hide PairsLess;
  }

  /** Tame keys are their own twins, so a map with such keys stays in order. */
  lemma SortedTwins(entries: seq<Pair>, ps: seq<Pair>)
    requires |ps| == |entries| && forall i | 0 <= i < |ps| :: PairStays(entries[i], ps[i])
    ensures StaysOrdered(Obj(entries), Obj(ps))
  {
    hide Less, Tame;
  }

  predicate PairStays(p: Pair, q: Pair) {
    && (Tame(p.key) ==> q.key == p.key)
    && StaysOrdered(p.key, q.key)
    && StaysOrdered(p.value, q.value)
  }

  lemma {:induction false} EntryTwins(entries: seq<Pair>) returns (ps: seq<Pair>, qs: seq<Pair>)
    requires forall i | 0 <= i < |entries| :: Typed(entries[i].key) && Typed(entries[i].value)
    ensures |ps| == |qs| == |entries| && ComparablePairs(ps) && ComparablePairs(qs)
    ensures PairsTied(entries, ps) && PairsTied(entries, qs)
    ensures if TamePairs(entries) then ps == entries && qs == entries else PairsLess(ps, qs)
    ensures forall i | 0 <= i < |entries| :: PairStays(entries[i], ps[i]) && PairStays(entries[i], qs[i])
    decreases entries, 0
  {
    hide PairLess, Typed, TamePair, ComparablePair, PairStays;
    if entries == [] {
      ps, qs := [], [];
    } else {
      var p, q := PairTwins(entries[0]);
      var ps', qs' := EntryTwins(entries[1..]);
      ps, qs := [p] + ps', [q] + qs';
      TamePairsStep(entries);
    }
  }

  lemma TamePairsStep(entries: seq<Pair>)
    requires entries != []
    ensures TamePairs(entries) <==> TamePair(entries[0]) && TamePairs(entries[1..])
  {
    hide TamePair;
    assert entries == [entries[0]] + entries[1..];
  }

  lemma {:induction false} PairTwins(e: Pair) returns (p: Pair, q: Pair)
    requires Typed(e.key) && Typed(e.value)
    ensures ComparablePair(p) && ComparablePair(q) && PairTied(e, p) && PairTied(e, q)
    ensures if TamePair(e) then p == e && q == e && !PairLess(e, e) else PairLess(p, q)
    ensures PairStays(e, p) && PairStays(e, q)
    decreases e
  {
    hide Less, Typed, Tame, Comparable, StaysOrdered;
    var k, l := Twins(e.key);
    var x, y := Twins(e.value);
    p, q := Pair(k, x), Pair(l, y);
    if Tame(e.key) { TiedWithItself(k); }
  }

  // ---- The main results --------------------------------------------------------------------------------

  /** A value is a sound key exactly when every float in it is tame. */
  lemma SoundKeyExactlyWhenTame(v: Value)
    requires Typed(v)
    ensures IsSoundKey(v) <==> Tame(v)
  {
    hide Less, Typed, Tame;
    if Tame(v) {
      forall a: Value, b: Value | Comparable(a) && Comparable(b) && Tied(v, a) && Tied(v, b)
        ensures Tied(a, b)
      {
        TiedThrough(a, v, b);
      }
    } else {
      var a, b := Twins(v);
    }
  }

  lemma TiedThrough(a: Value, v: Value, b: Value)
    requires Comparable(a) && Comparable(v) && Comparable(b) && Tied(v, a) && Tied(v, b)
    ensures Tied(a, b)
  {
    hide Less, Comparable;
    LessIsStrictWeakOrder(a, v, b);
    LessIsStrictWeakOrder(b, v, a);
  }

  /** Still so when the maps inside all values are in order, as those of a program are, provided those inside v have
      tame keys themselves. */
  lemma SoundKeyAmongMapsExactlyWhenTame(v: Value)
    requires Typed(v) && Ordered(v) && KeysTame(v)
    ensures IsSoundKeyAmongMaps(v) <==> Tame(v)
  {
    hide Less, Typed, Tame, Ordered, KeysTame;
    SoundKeyExactlyWhenTame(v);
    if !Tame(v) {
      var a, b := Twins(v);
    }
  }

  // ---- Where an untame key inside a map does no harm ------------------------------------------------------

  lemma {:induction false} ItemsTiedPointwise(xs: seq<Value>, ys: seq<Value>)
    ensures ItemsTied(xs, ys) <==> |xs| == |ys| && forall i | 0 <= i < |xs| :: Tied(xs[i], ys[i])
    decreases xs
  {
    hide Less;
    if xs != [] && ys != [] {
      ItemsTiedPointwise(xs[1..], ys[1..]);
      assert xs == [xs[0]] + xs[1..] && ys == [ys[0]] + ys[1..];
    }
  }

  lemma {:induction false} PairsTiedPointwise(ps: seq<Pair>, qs: seq<Pair>)
    ensures PairsTied(ps, qs) <==>
              && |ps| == |qs|
              && forall i | 0 <= i < |ps| :: Tied(ps[i].key, qs[i].key) && Tied(ps[i].value, qs[i].value)
    decreases ps
  {
    hide Less, PairLess;
    if ps != [] && qs != [] {
      PairTiedPointwise(ps[0], qs[0]);
      PairsTiedPointwise(ps[1..], qs[1..]);
      assert ps == [ps[0]] + ps[1..] && qs == [qs[0]] + qs[1..];
    }
  }

  lemma PairTiedPointwise(p: Pair, q: Pair)
    ensures PairTied(p, q) <==> Tied(p.key, q.key) && Tied(p.value, q.value)
  {
    hide Less;
  }

  /** A map with the keys [0, 0], [v, 1] and [0, 2]. */
  function Between(v: Value): (m: Value) {
    Obj([Pair(Arr([Int(U8, 0), Int(U8, 0)]), Null),
         Pair(Arr([v, Int(U8, 1)]), Null),
         Pair(Arr([Int(U8, 0), Int(U8, 2)]), Null)])
  }

  /** Tied in the places of the map around v, a map in order has room for 0 only in the place of v. */
  lemma OnlyZeroBetween(v: Value, a: Value)
    requires Comparable(a) && Ordered(a) && Tied(Between(v), a)
    ensures Tied(Between(Int(U8, 0)), a)
  {
    hide Less, Comparable, Ordered;
    var zero, m := Int(U8, 0), Between(v).entries;
    MapsTied(Between(v), a);
    PairsTiedPointwise(m, a.entries);
    var k := seq(3, i requires 0 <= i < 3 => a.entries[i].key);
    KeyTied(m[0].key, k[0]);
    KeyTied(m[1].key, k[1]);
    KeyTied(m[2].key, k[2]);
    MapKeys(a);
    Squeezed(k[0], k[1], k[2]);
    KeyTied(Arr([zero, Int(U8, 1)]), k[1]);
    PairsTiedPointwise(Between(zero).entries, a.entries);
    MapsTied(Between(zero), a);
  }

  lemma MapsTied(m: Value, a: Value)
    requires m.Obj?
    ensures Tied(m, a) <==> a.Obj? && PairsTied(m.entries, a.entries)
  {
    hide PairsLess;
  }

  lemma KeyTied(m: Value, k: Value)
    requires m.Arr? && |m.items| == 2
    ensures Tied(m, k) <==> k.Arr? && |k.items| == 2 && Tied(m.items[0], k.items[0]) && Tied(m.items[1], k.items[1])
  {
    hide ItemsLess;
    if k.Arr? {
      ItemsTiedPointwise(m.items, k.items);
      if |k.items| == 2 { TwoPlaces(m.items, k.items); }
    }
  }

  lemma TwoPlaces(xs: seq<Value>, ys: seq<Value>)
    requires |xs| == |ys| == 2
    ensures (forall i | 0 <= i < |xs| :: Tied(xs[i], ys[i])) <==> Tied(xs[0], ys[0]) && Tied(xs[1], ys[1])
  {
    hide Less;
  }

  lemma MapKeys(a: Value)
    requires Comparable(a) && Ordered(a) && a.Obj? && |a.entries| == 3
    ensures forall i | 0 <= i < 3 :: Comparable(a.entries[i].key)
    ensures Less(a.entries[0].key, a.entries[1].key) && Less(a.entries[1].key, a.entries[2].key)
  {
    hide Less;
  }

  predicate IsDuo(v: Value) {
    v.Arr? && |v.items| == 2
  }

  lemma Squeezed(k: Value, l: Value, m: Value)
    requires Comparable(k) && Comparable(l) && Comparable(m) && IsDuo(k) && IsDuo(l) && IsDuo(m)
    requires Less(k, l) && Less(l, m) && Tied(Int(U8, 0), k.items[0]) && Tied(Int(U8, 0), m.items[0])
    ensures Tied(Int(U8, 0), l.items[0])
  {
    hide Less, Comparable;
    var zero, x, c, z := Int(U8, 0), k.items[0], l.items[0], m.items[0];
    DuoParts(k);
    DuoParts(l);
    DuoParts(m);
    FirstNotAbove(k, l);
    FirstNotAbove(l, m);
    assert Comparable(zero) by { ZeroIsComparable(); }
    LessIsStrictWeakOrder(c, x, zero);
    LessIsStrictWeakOrder(zero, z, c);
  }

  lemma ZeroIsComparable()
    ensures Comparable(Int(U8, 0))
  {
  }

  lemma DuoParts(v: Value)
    requires Comparable(v) && IsDuo(v)
    ensures Comparable(v.items[0]) && Comparable(v.items[1])
  {
  }

  lemma FirstNotAbove(k: Value, l: Value)
    requires Comparable(k) && Comparable(l) && IsDuo(k) && IsDuo(l) && Less(k, l)
    ensures !Less(l.items[0], k.items[0])
  {
    DuoParts(k);
    DuoParts(l);
    ArrLess(k, l);
    hide Less, Comparable;
    LessIsStrictWeakOrder(k.items[0], l.items[0], k.items[0]);
  }

  lemma ArrLess(k: Value, l: Value)
    requires IsDuo(k) && IsDuo(l) && Less(k, l)
    ensures Less(k.items[0], l.items[0]) || !Less(l.items[0], k.items[0])
  {
  }

  /** Among maps in order tameness of the inner keys cannot be dropped from the condition: with a NaN between two close
      neighbours the map below is a sound key all the same. */
  lemma SoundWithUntameInnerKey()
    ensures var v := Between(F64(0x7ff8_0000_0000_0000));
            Typed(v) && Ordered(v) && IsSoundKeyAmongMaps(v) && !Tame(v) && !KeysTame(v)
  {
    var nan := F64(0x7ff8_0000_0000_0000);
    var v := Between(nan);
    BetweenInOrder(nan);
    hide Less, Comparable, Ordered, Between;
    forall a: Value, b: Value | Comparable(a) && Comparable(b) && Ordered(a) && Ordered(b) && Tied(v, a) && Tied(v, b)
      ensures Tied(a, b)
    {
      OnlyZeroBetween(nan, a);
      OnlyZeroBetween(nan, b);
      ZeroBetweenIsComparable();
      TiedThrough(a, Between(Int(U8, 0)), b);
    }
  }

  lemma ZeroBetweenIsComparable()
    ensures Comparable(Between(Int(U8, 0)))
  {
    DuoIsComparable(0);
    DuoIsComparable(1);
    DuoIsComparable(2);
    hide Comparable;
    ObjIsComparable(Between(Int(U8, 0)).entries);
  }

  lemma DuoIsComparable(n: nat)
    requires n < 256
    ensures Comparable(Arr([Int(U8, 0), Int(U8, n)])) && Comparable(Null)
  {
  }

  lemma ObjIsComparable(entries: seq<Pair>)
    requires ComparablePairs(entries)
    ensures Comparable(Obj(entries))
  {
  }

  lemma BetweenInOrder(nan: Value)
    requires nan == F64(0x7ff8_0000_0000_0000)
    ensures Typed(Between(nan)) && Ordered(Between(nan)) && !Tame(Between(nan)) && !KeysTame(Between(nan))
  {
    hide Less, Typed, Ordered, Tame, KeysTame;
    var zero, m := Int(U8, 0), Between(nan).entries;
    IntIsTyped(zero);
    NanIsTied(nan, zero);
    DuoOrder(zero, 0, nan, 1);
    DuoOrder(zero, 0, zero, 2);
    DuoOrder(nan, 1, zero, 2);
    DuoIsTyped(zero, 0, nan);
    DuoIsTyped(nan, 1, nan);
    DuoIsTyped(zero, 2, nan);
    InOrder(m);
  }

  lemma IntIsTyped(zero: Value)
    requires zero == Int(U8, 0)
    ensures Typed(zero) && Ordered(zero)
  {
  }

  lemma NanIsTied(nan: Value, zero: Value)
    requires nan == F64(0x7ff8_0000_0000_0000) && zero == Int(U8, 0)
    ensures Tied(nan, zero) && Tied(zero, nan) && Tied(zero, zero) && !Tame(nan) && Typed(nan) && Ordered(nan)
  {
  }

  lemma DuoOrder(v: Value, i: nat, w: Value, j: nat)
    requires i < j < 256 && Tied(v, w)
    ensures Less(Arr([v, Int(U8, i)]), Arr([w, Int(U8, j)]))
  {
    var xs, ys := [v, Int(U8, i)], [w, Int(U8, j)];
    IntegersCompareExactly(xs[1], ys[1]);
    LessAtSecond(xs, ys);
  }

  lemma LessAtSecond(xs: seq<Value>, ys: seq<Value>)
    requires |xs| == |ys| == 2 && Tied(xs[0], ys[0]) && Less(xs[1], ys[1])
    ensures Less(Arr(xs), Arr(ys))
  {
    assert xs[1..][0] == xs[1] && ys[1..][0] == ys[1];
    assert ItemsLess(xs[1..], ys[1..]);
  }

  lemma DuoIsTyped(v: Value, n: nat, nan: Value)
    requires n < 256 && Typed(v) && Ordered(v) && !Tame(nan)
    ensures Typed(Arr([v, Int(U8, n)])) && Ordered(Arr([v, Int(U8, n)]))
    ensures v == nan ==> !Tame(Arr([v, Int(U8, n)]))
  {
    hide TameNumber;
    assert Arr([v, Int(U8, n)]).items[0] == v;
  }

  lemma InOrder(entries: seq<Pair>)
    requires |entries| == 3 && !Tame(entries[1].key)
    requires forall i | 0 <= i < 3 :: entries[i].value == Null && Typed(entries[i].key) && Ordered(entries[i].key)
    requires Less(entries[0].key, entries[1].key) && Less(entries[0].key, entries[2].key)
    requires Less(entries[1].key, entries[2].key)
    ensures Typed(Obj(entries)) && Ordered(Obj(entries)) && !Tame(Obj(entries)) && !KeysTame(Obj(entries))
  {
    hide Less;
  }
}
