/** Retyping integers is invisible to operator== and operator<, so maps keep their order. */
module NormOrder {
  import opened Bytes
  import opened Ieee754
  import opened Values
  import opened Comparison
  import opened NumberOrder
  import opened Encoding
  import opened Maps

  lemma MinimalKindHolds(n: int)
    requires IntKind.I64.Min() <= n <= IntKind.U64.Max()
    ensures MinimalKind(n).Holds(n)
  {
  }

  lemma {:induction false} TypedNorm(v: Value)
    requires Typed(v)
    ensures Typed(Norm(v))
    decreases v
  {
    match v
    case Int(_, n) => MinimalKindHolds(n);
    case Arr(items) =>
      forall i | 0 <= i < |items|
        ensures Typed(NormItems(items)[i])
      {
        TypedNorm(items[i]);
      }
    case Obj(entries) =>
      forall i | 0 <= i < |entries|
        ensures Typed(NormPairs(entries)[i].key) && Typed(NormPairs(entries)[i].value)
      {
        TypedNorm(entries[i].key);
        TypedNorm(entries[i].value);
      }
    case _ =>
  }

  lemma NumbersOfNorm(a: Value, b: Value)
    requires Typed(a) && Typed(b) && IsNumber(a)
    ensures Less(Norm(a), Norm(b)) <==> Less(a, b)
    ensures Equals(Norm(a), Norm(b)) <==> Equals(a, b)
  {
    hide Float32, Float64, Round, ItemsLess, PairsLess, ItemsEqual, PairsEqual, NormItems, NormPairs;
    if a.Int? && b.Int? {
      TypedNorm(a);
      TypedNorm(b);
      IntegersCompareExactly(a, b);
      IntegersCompareExactly(Norm(a), Norm(b));
    }
  }

  /** The answers of operator< and operator== do not depend on the integer types involved. */
  lemma {:induction false} ComparisonsOfNorm(a: Value, b: Value)
    requires Typed(a) && Typed(b)
    ensures Less(Norm(a), Norm(b)) <==> Less(a, b)
    ensures Equals(Norm(a), Norm(b)) <==> Equals(a, b)
    decreases Size(a) + Size(b), 0
  {
    if IsNumber(a) {
      NumbersOfNorm(a, b);
    } else if a.Arr? && b.Arr? {
      ItemsOfNorm(a.items, b.items);
    } else if a.Obj? && b.Obj? {
      PairsOfNorm(a.entries, b.entries);
    }
  }

  lemma {:induction false} ItemsOfNorm(xs: seq<Value>, ys: seq<Value>)
    requires forall i | 0 <= i < |xs| :: Typed(xs[i])
    requires forall i | 0 <= i < |ys| :: Typed(ys[i])
    ensures ItemsLess(NormItems(xs), NormItems(ys)) <==> ItemsLess(xs, ys)
    ensures ItemsEqual(NormItems(xs), NormItems(ys)) <==> ItemsEqual(xs, ys)
    decreases SizeItems(xs) + SizeItems(ys), 1
  {
    hide Typed, Norm, Less, Equals;
    if xs != [] && ys != [] {
      ComparisonsOfNorm(xs[0], ys[0]);
      ComparisonsOfNorm(ys[0], xs[0]);
      ItemsOfNorm(xs[1..], ys[1..]);
      assert NormItems(xs)[1..] == NormItems(xs[1..]);
      assert NormItems(ys)[1..] == NormItems(ys[1..]);
    }
  }

  predicate TypedPair(p: Pair) {
    Typed(p.key) && Typed(p.value)
  }

  lemma {:induction false} PairsOfNorm(ps: seq<Pair>, qs: seq<Pair>)
    requires forall i | 0 <= i < |ps| :: TypedPair(ps[i])
    requires forall i | 0 <= i < |qs| :: TypedPair(qs[i])
    ensures PairsLess(NormPairs(ps), NormPairs(qs)) <==> PairsLess(ps, qs)
    ensures PairsEqual(NormPairs(ps), NormPairs(qs)) <==> PairsEqual(ps, qs)
    decreases SizePairs(ps) + SizePairs(qs), 2
  {
    hide TypedPair, NormPair, PairLess, PairEquals;
    if ps != [] && qs != [] {
      PairOfNorm(ps[0], qs[0]);
      PairOfNorm(qs[0], ps[0]);
      PairsOfNorm(ps[1..], qs[1..]);
      assert NormPairs(ps)[1..] == NormPairs(ps[1..]);
      assert NormPairs(qs)[1..] == NormPairs(qs[1..]);
    }
  }

  lemma {:induction false} PairOfNorm(p: Pair, q: Pair)
    requires TypedPair(p) && TypedPair(q)
    ensures PairLess(NormPair(p), NormPair(q)) <==> PairLess(p, q)
    ensures PairEquals(NormPair(p), NormPair(q)) <==> PairEquals(p, q)
    decreases SizePair(p) + SizePair(q), 1
  {
    hide Typed, Norm, Less, Equals;
    ComparisonsOfNorm(p.key, q.key);
    ComparisonsOfNorm(q.key, p.key);
    ComparisonsOfNorm(p.value, q.value);
  }

  lemma SortedNorm(entries: seq<Pair>)
    requires SortedByKey(entries)
    requires forall i | 0 <= i < |entries| :: Typed(entries[i].key)
    ensures SortedByKey(NormPairs(entries))
  {
    hide Typed, Norm, NormPairs, Less;
    forall i, j | 0 <= i < j < |entries|
      ensures Less(NormPairs(entries)[i].key, NormPairs(entries)[j].key)
    {
      ComparisonsOfNorm(entries[i].key, entries[j].key);
    }
  }

  // ---- Inserting keys in their order ----------------------------------------------------------

  lemma {:induction false} InsertLargest(entries: seq<Pair>, e: Pair)
    requires forall i | 0 <= i < |entries| :: Less(entries[i].key, e.key)
    ensures Insert(entries, e) == entries + [e]
  {
    hide Less;
    if entries != [] {
      InsertLargest(entries[1..], e);
      assert entries == [entries[0]] + entries[1..];
    }
  }

  /** Inserting the entries of a map in iteration order rebuilds the map. */
  lemma {:induction false} BuildMapOfSorted(entries: seq<Pair>)
    requires SortedByKey(entries)
    ensures BuildMap(entries) == entries
  {
    hide Less;
    if entries != [] {
      var last := |entries| - 1;
      BuildMapOfSorted(entries[..last]);
      InsertLargest(entries[..last], entries[last]);
    }
  }
}
