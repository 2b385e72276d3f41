/** What a dump that ends in a throw has written by then, and that no such output passes for a value. */
module Interrupted {
  import opened Bytes
  import opened Values
  import opened Comparison
  import opened Encoding
  import opened Decoding
  import opened RoundTrip

  /** The output of a dump that ends in a throw: the headers on the way down to the first length that does not fit, and
      everything that comes before it in writing order. */
  function Written(v: Value): (s: seq<byte>)
    decreases v
  {
    match v
    case Arr(items) => if |items| < TWO_TO_THE_32 then ArrHeader(|items|) + WrittenItems(items) else []
    case Obj(entries) => if |entries| < TWO_TO_THE_32 then ObjHeader(|entries|) + WrittenPairs(entries) else []
    case _ => if Short(v) then Encode(v) else []
  }

  function WrittenItems(items: seq<Value>): (s: seq<byte>)
    decreases items
  {
    if items == [] then [] else Written(items[0]) + (if Short(items[0]) then WrittenItems(items[1..]) else [])
  }

  function WrittenPairs(entries: seq<Pair>): (s: seq<byte>)
    decreases entries
  {
    if entries == [] then []
    else WrittenPair(entries[0]) + (if ShortPair(entries[0]) then WrittenPairs(entries[1..]) else [])
  }

  function WrittenPair(p: Pair): (s: seq<byte>)
    decreases p
  {
    Written(p.key) + (if Short(p.key) then Written(p.value) else [])
  }

  predicate ShortPair(p: Pair) {
    Short(p.key) && Short(p.value)
  }

  predicate AllShort(items: seq<Value>) {
    forall k | 0 <= k < |items| :: Short(items[k])
  }

  predicate AllPairsShort(entries: seq<Pair>) {
    forall k | 0 <= k < |entries| :: ShortPair(entries[k])
  }

  /** Where nothing is too long, all of the encoding is written. */
  lemma {:induction false} WrittenInFull(v: Value)
    ensures Short(v) ==> Written(v) == Encode(v)
    decreases v
  {
    match v
    case Arr(items) => if Short(v) { WrittenItemsUpTo(items, |items|); assert items[..|items|] == items; }
    case Obj(entries) => if Short(v) { WrittenPairsUpTo(entries, |entries|); assert entries[..|entries|] == entries; }
    case _ =>
  }

  /** Items in front of the first one that throws are written in full; that one as far as it gets. */
  lemma {:induction false} WrittenItemsUpTo(items: seq<Value>, i: nat)
    requires i <= |items| && forall k | 0 <= k < i :: Short(items[k])
    ensures WrittenItems(items) == EncodeItems(items[..i]) + WrittenItems(items[i..])
    decreases items
  {
    hide Written, Encode, Short;
    if i == 0 {
      assert items[0..] == items && EncodeItems(items[..0]) == [];
    } else {
      WrittenInFull(items[0]);
      WrittenItemsUpTo(items[1..], i - 1);
      assert items[..i][1..] == items[1..][..i - 1] && items[1..][i - 1..] == items[i..];
    }
  }

  lemma {:induction false} WrittenPairsUpTo(entries: seq<Pair>, i: nat)
    requires i <= |entries| && forall k | 0 <= k < i :: ShortPair(entries[k])
    ensures WrittenPairs(entries) == EncodePairs(entries[..i]) + WrittenPairs(entries[i..])
    decreases entries
  {
    hide WrittenPair, EncodePair, ShortPair;
    if i == 0 {
      assert entries[0..] == entries && EncodePairs(entries[..0]) == [];
    } else {
      WrittenPairInFull(entries[0]);
      WrittenPairsUpTo(entries[1..], i - 1);
      assert entries[..i][1..] == entries[1..][..i - 1] && entries[1..][i - 1..] == entries[i..];
    }
  }

  lemma {:induction false} WrittenPairInFull(p: Pair)
    ensures ShortPair(p) ==> WrittenPair(p) == EncodePair(p)
    decreases p
  {
    hide Written, Encode, Short;
    WrittenInFull(p.key);
    WrittenInFull(p.value);
  }

  lemma ArrayThrows(items: seq<Value>, i: nat)
    requires |items| < TWO_TO_THE_32 && i < |items| && !Short(items[i]) && AllShort(items[..i])
    ensures Written(Arr(items)) == ArrHeader(|items|) + (EncodeItems(items[..i]) + Written(items[i]))
  {
    hide ArrHeader, Encode, EncodeItems, Short;
    assert forall k | 0 <= k < i :: items[..i][k] == items[k];
    WrittenItemsUpTo(items, i);
    assert items[i..][0] == items[i];
    assert WrittenItems(items[i..]) == Written(items[i]) + [];
  }

  lemma ObjectThrows(entries: seq<Pair>, i: nat)
    requires |entries| < TWO_TO_THE_32 && i < |entries| && !ShortPair(entries[i]) && AllPairsShort(entries[..i])
    ensures Written(Obj(entries)) == ObjHeader(|entries|) + (EncodePairs(entries[..i]) + WrittenPair(entries[i]))
  {
    hide ObjHeader, EncodePair, EncodePairs, ShortPair, WrittenPair;
    assert forall k | 0 <= k < i :: entries[..i][k] == entries[k];
    WrittenPairsUpTo(entries, i);
    assert entries[i..][0] == entries[i];
    assert WrittenPairs(entries[i..]) == WrittenPair(entries[i]) + [];
  }

  /** Which half of an entry throws. */
  lemma PairThrows(p: Pair)
    ensures !Short(p.key) ==> WrittenPair(p) == Written(p.key)
    ensures Short(p.key) ==> WrittenPair(p) == Encode(p.key) + Written(p.value)
  {
    hide Written, Encode, Short;
    WrittenInFull(p.key);
  }

  // ---- An interrupted output does not parse --------------------------------------------------------------

  /** Written is followed by the end of the string. */
  predicate EndsWith(s: seq<byte>, p: nat, t: seq<byte>) {
    At(s, p, t) && p + |t| == |s|
  }

  /** What was written before a throw is never read back as a value. */
  lemma {:induction false} WrittenDoesNotParse(s: seq<byte>, p: nat, v: Value, levels: nat)
    requires Typed(v) && !Short(v) && EndsWith(s, p, Written(v))
    ensures p <= |s| && Parse(s, p, levels).Err?
    decreases Size(v), 0
  {
    if levels > 0 && v.Arr? && |v.items| < TWO_TO_THE_32 {
      hide Parse, Written, Short, Typed;
      ArrDoesNotParse(s, p, v.items, levels);
    } else if levels > 0 && v.Obj? && |v.entries| < TWO_TO_THE_32 {
      hide Parse, Written, Short, Typed;
      ObjDoesNotParse(s, p, v.entries, levels);
    }
  }

  lemma {:induction false} ArrDoesNotParse(s: seq<byte>, p: nat, items: seq<Value>, levels: nat)
    requires levels > 0 && |items| < TWO_TO_THE_32
    requires Typed(Arr(items)) && !Short(Arr(items)) && EndsWith(s, p, Written(Arr(items)))
    ensures p <= |s| && Parse(s, p, levels).Err?
    decreases SizeItems(items), 2
  {
    hide Parse, ParseItems, ArrHeader, WrittenItems;
    AtConcat(s, p, ArrHeader(|items|), WrittenItems(items));
    ArrHeaderRead(s, p, |items|, levels);
    ItemsDoNotParse(s, p + |ArrHeader(|items|)|, items, levels - 1);
  }

  lemma {:induction false} ObjDoesNotParse(s: seq<byte>, p: nat, entries: seq<Pair>, levels: nat)
    requires levels > 0 && |entries| < TWO_TO_THE_32
    requires Typed(Obj(entries)) && !Short(Obj(entries)) && EndsWith(s, p, Written(Obj(entries)))
    ensures p <= |s| && Parse(s, p, levels).Err?
    decreases SizePairs(entries), 2
  {
    hide Parse, ParseItems, ObjHeader, WrittenItems, WrittenPairs, Flatten;
    var items := Flatten(entries);
    AtConcat(s, p, ObjHeader(|entries|), WrittenPairs(entries));
    ObjHeaderRead(s, p, |entries|, levels);
    WrittenPairsIsFlat(entries);
    SizeOfFlatten(entries);
    FlatIsTyped(entries);
    FlatIsNotShort(entries);
    ItemsDoNotParse(s, p + |ObjHeader(|entries|)|, items, levels - 1);
  }

  lemma FlatIsTyped(entries: seq<Pair>)
    requires Typed(Obj(entries))
    ensures forall i | 0 <= i < 2 * |entries| :: Typed(Flatten(entries)[i])
  {
    hide Flatten;
    forall i | 0 <= i < 2 * |entries|
      ensures Typed(Flatten(entries)[i])
    {
      FlatAt(entries, i);
    }
  }

  lemma FlatIsNotShort(entries: seq<Pair>)
    requires |entries| < TWO_TO_THE_32 && !Short(Obj(entries))
    ensures !AllShort(Flatten(entries))
  {
    hide Flatten, Typed;
    var k :| 0 <= k < |entries| && !ShortPair(entries[k]);
    assert Flatten(entries)[2 * k] == entries[k].key && Flatten(entries)[2 * k + 1] == entries[k].value;
  }

  lemma {:induction false} WrittenPairsIsFlat(entries: seq<Pair>)
    ensures WrittenPairs(entries) == WrittenItems(Flatten(entries))
  {
    hide Written, Short;
    if entries != [] {
      var flat := Flatten(entries);
      WrittenPairsIsFlat(entries[1..]);
      assert flat[0] == entries[0].key && flat[1..][0] == entries[0].value;
      assert flat[1..][1..] == Flatten(entries[1..]);
      TwoItems(entries[0].key, entries[0].value, flat);
    }
  }

  lemma TwoItems(k: Value, x: Value, flat: seq<Value>)
    requires |flat| >= 2 && flat[0] == k && flat[1] == x
    ensures WrittenItems(flat)
            == WrittenPair(Pair(k, x)) + if ShortPair(Pair(k, x)) then WrittenItems(flat[1..][1..]) else []
  {
    hide Written, Short;
    assert flat[1..][0] == x;
  }

  /** The items before the one that threw are read back or already too deep; that one is not read back. */
  lemma {:induction false} ItemsDoNotParse(s: seq<byte>, p: nat, items: seq<Value>, levels: nat)
    requires (forall i | 0 <= i < |items| :: Typed(items[i])) && !AllShort(items)
    requires EndsWith(s, p, WrittenItems(items))
    ensures p <= |s| && ParseItems(s, p, |items|, levels).Stopped?
    decreases SizeItems(items), 1
  {
    hide Parse, Encode, Written, Typed, Short, Height, Ordered, Norm;
    var v := items[0];
    if Short(v) {
      AtConcat(s, p, Written(v), WrittenItems(items[1..]));
      WrittenInFull(v);
      ReadBack(s, p, v, levels);
      if Height(v) <= levels {
        AllShortStep(items);
        ItemsDoNotParse(s, p + |Encode(v)|, items[1..], levels);
      }
    } else {
      assert WrittenItems(items) == Written(v);
      WrittenDoesNotParse(s, p, v, levels);
    }
  }

  lemma AllShortStep(items: seq<Value>)
    requires items != []
    ensures AllShort(items) <==> Short(items[0]) && AllShort(items[1..])
  {
    hide Short;
    assert items == [items[0]] + items[1..];
  }
}
