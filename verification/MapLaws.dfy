/** What repeated insertion makes of the pairs on the wire: a strictly sorted map that keeps the first pair of every
    class of equal keys. */
module MapLaws {
  import opened Values
  import opened Comparison
  import opened ValueOrder
  import opened Maps

  predicate ComparableKeys(entries: seq<Pair>) {
    forall i | 0 <= i < |entries| :: Comparable(entries[i].key)
  }

  predicate HasKey(entries: seq<Pair>, key: Value) {
    exists i | 0 <= i < |entries| :: Equals(entries[i].key, key)
  }

  /** No earlier pair has an equal key. */
  predicate IsFirst(pairs: seq<Pair>, i: nat)
    requires i < |pairs|
  {
    forall j | 0 <= j < i :: !Equals(pairs[j].key, pairs[i].key)
  }

  // ---- One insertion ----------------------------------------------------------------------

  /** Insertion adds at most the new entry and never removes one. */
  lemma {:induction false} InsertMembers(entries: seq<Pair>, e: Pair)
    ensures forall x :: x in entries ==> x in Insert(entries, e)
    ensures forall x :: x in Insert(entries, e) ==> x in entries || x == e
    ensures Insert(entries, e) == entries || e in Insert(entries, e)
  {
    hide Less;
    if entries != [] {
      InsertMembers(entries[1..], e);
      assert entries == [entries[0]] + entries[1..];
    }
  }

  lemma {:induction false} InsertIntoSorted(entries: seq<Pair>, e: Pair)
    requires SortedByKey(entries) && ComparableKeys(entries) && Comparable(e.key)
    ensures SortedByKey(Insert(entries, e))
    ensures e in Insert(entries, e) || HasKey(entries, e.key)
    ensures HasKey(entries, e.key) ==> Insert(entries, e) == entries
  {
    hide Less, Equals, Comparable;
    if entries != [] {
      var head, tail := entries[0], entries[1..];
      LessIsStrictWeakOrder(head.key, e.key, head.key);
      LessIsStrictWeakOrder(e.key, head.key, e.key);
      if Less(head.key, e.key) {
        InsertIntoSorted(tail, e);
        InsertMembers(tail, e);
        assert HasKey(entries, e.key) <==> HasKey(tail, e.key) by {
          if HasKey(tail, e.key) {
            var i :| 0 <= i < |tail| && Equals(tail[i].key, e.key);
            assert entries[i + 1] == tail[i];
          }
        }
        PrependSmallest(head, Insert(tail, e));
        assert entries == [head] + tail;
      } else if Less(e.key, head.key) {
        forall i | 0 <= i < |entries|
          ensures Less(e.key, entries[i].key) && !Equals(entries[i].key, e.key)
        {
          LessIsStrictWeakOrder(e.key, head.key, entries[i].key);
          LessIsStrictWeakOrder(entries[i].key, e.key, entries[i].key);
        }
        PrependSmallest(e, entries);
      }
    }
  }

  lemma PrependSmallest(e: Pair, entries: seq<Pair>)
    requires SortedByKey(entries)
    requires forall x | x in entries :: Less(e.key, x.key)
    ensures SortedByKey([e] + entries)
  {
    hide Less;
  }

  // ---- All insertions -----------------------------------------------------------------------

  /** Every entry of the finished map came from a pair. */
  lemma {:induction false} BuildMapMembers(pairs: seq<Pair>)
    ensures forall x :: x in BuildMap(pairs) ==> x in pairs
  {
    hide Insert;
    if pairs != [] {
      var last := |pairs| - 1;
      BuildMapMembers(pairs[..last]);
      InsertMembers(BuildMap(pairs[..last]), pairs[last]);
    }
  }

  lemma ComparableKeysOfSubset(xs: seq<Pair>, ys: seq<Pair>)
    requires ComparableKeys(ys) && forall x :: x in xs ==> x in ys
    ensures ComparableKeys(xs)
  {
    hide Comparable;
    forall i | 0 <= i < |xs|
      ensures Comparable(xs[i].key)
    {
      assert xs[i] in ys;
    }
  }

  /** A map whose own keys are comparable is sorted, whatever keys were dropped on the way. */
  lemma {:induction false} BuildMapSorted(pairs: seq<Pair>)
    requires ComparableKeys(BuildMap(pairs))
    ensures SortedByKey(BuildMap(pairs))
  {
    hide Comparable, Insert;
    if pairs != [] {
      var last := |pairs| - 1;
      var before := BuildMap(pairs[..last]);
      InsertMembers(before, pairs[last]);
      ComparableKeysOfSubset(before, BuildMap(pairs));
      BuildMapSorted(pairs[..last]);
      if BuildMap(pairs) != before {
        InsertIntoSorted(before, pairs[last]);
      }
    }
  }

  /** The finished map holds exactly the first pair, in wire order, of every class of equal keys. */
  lemma {:induction false} FirstPairWins(pairs: seq<Pair>)
    requires ComparableKeys(pairs)
    ensures SortedByKey(BuildMap(pairs))
    ensures forall x :: x in BuildMap(pairs) <==> exists i | 0 <= i < |pairs| :: pairs[i] == x && IsFirst(pairs, i)
    ensures forall i | 0 <= i < |pairs| :: HasKey(BuildMap(pairs), pairs[i].key)
  {
    hide Comparable, Insert, Less, Equals;
    BuildMapMembers(pairs);
    ComparableKeysOfSubset(BuildMap(pairs), pairs);
    BuildMapSorted(pairs);
    if pairs != [] {
      var last := |pairs| - 1;
      var before, e := BuildMap(pairs[..last]), pairs[last];
      FirstPairWins(pairs[..last]);
      BuildMapMembers(pairs[..last]);
      ComparableKeysOfSubset(before, pairs[..last]);
      InsertMembers(before, e);
      InsertIntoSorted(before, e);
      LastIsFirstExactlyWhenNew(pairs, before);
      KeysAreKept(pairs);
      forall x
        ensures x in BuildMap(pairs) <==> exists i | 0 <= i < |pairs| :: pairs[i] == x && IsFirst(pairs, i)
      {
        FirstsOfPrefix(pairs, pairs[..last], x);
      }
    }
  }

  /** The last pair is a first occurrence exactly when the map built so far lacks its key. */
  lemma LastIsFirstExactlyWhenNew(pairs: seq<Pair>, before: seq<Pair>)
    requires pairs != [] && ComparableKeys(pairs)
    requires forall x :: x in before ==> x in pairs[..|pairs| - 1]
    requires forall i | 0 <= i < |pairs| - 1 :: HasKey(before, pairs[i].key)
    ensures IsFirst(pairs, |pairs| - 1) <==> !HasKey(before, pairs[|pairs| - 1].key)
  {
    hide Comparable, Less, Equals;
    var last := |pairs| - 1;
    var e := pairs[last];
    if HasKey(before, e.key) {
      var k :| 0 <= k < |before| && Equals(before[k].key, e.key);
      var x := before[k];
      assert x in before;
      assert x in pairs[..last];
      var j :| 0 <= j < last && pairs[j] == x;
    }
    forall j | 0 <= j < last && Equals(pairs[j].key, e.key)
      ensures HasKey(before, e.key)
    {
      assert HasKey(before, pairs[j].key);
      var k :| 0 <= k < |before| && Equals(before[k].key, pairs[j].key);
      assert before[k] in before && before[k] in pairs[..last];
      EqualsIsTransitive(before[k].key, pairs[j].key, e.key);
    }
  }

  lemma EqualsIsTransitive(a: Value, b: Value, c: Value)
    requires Comparable(a) && Comparable(b) && Comparable(c) && Equals(a, b) && Equals(b, c)
    ensures Equals(a, c)
  {
    hide *;
    LessIsStrictWeakOrder(a, b, c);
    LessIsStrictWeakOrder(b, c, a);
    LessIsStrictWeakOrder(c, b, a);
    LessIsStrictWeakOrder(a, c, b);
  }

  lemma EqualsIsReflexive(a: Value)
    requires Comparable(a)
    ensures Equals(a, a)
  {
    hide *;
    LessIsStrictWeakOrder(a, a, a);
  }

  lemma KeysAreKept(pairs: seq<Pair>)
    requires pairs != [] && ComparableKeys(pairs)
    requires var before := BuildMap(pairs[..|pairs| - 1]);
             && SortedByKey(before) && ComparableKeys(before)
             && (forall i | 0 <= i < |pairs| - 1 :: HasKey(before, pairs[i].key))
    ensures forall i | 0 <= i < |pairs| :: HasKey(BuildMap(pairs), pairs[i].key)
  {
    hide Comparable, Less, Equals, Insert;
    var last := |pairs| - 1;
    var before, e, after := BuildMap(pairs[..last]), pairs[last], BuildMap(pairs);
    InsertMembers(before, e);
    InsertIntoSorted(before, e);
    EqualsIsReflexive(e.key);
    if !HasKey(before, e.key) {
      var m :| 0 <= m < |after| && after[m] == e;
    }
    forall i | 0 <= i < last
      ensures HasKey(after, pairs[i].key)
    {
      assert HasKey(before, pairs[i].key);
      var k :| 0 <= k < |before| && Equals(before[k].key, pairs[i].key);
      assert before[k] in after;
      var m :| 0 <= m < |after| && after[m] == before[k];
    }
  }

  lemma FirstsOfPrefix(pairs: seq<Pair>, before: seq<Pair>, x: Pair)
    requires pairs != [] && before == pairs[..|pairs| - 1]
    ensures (exists i | 0 <= i < |pairs| :: pairs[i] == x && IsFirst(pairs, i))
       <==> (exists i | 0 <= i < |before| :: before[i] == x && IsFirst(before, i))
            || (pairs[|before|] == x && IsFirst(pairs, |before|))
  {
    hide Equals;
    forall i | 0 <= i < |before|
      ensures before[i] == pairs[i] && (IsFirst(before, i) <==> IsFirst(pairs, i))
    {
      assert forall j | 0 <= j <= i :: before[j] == pairs[j];
    }
  }
}
