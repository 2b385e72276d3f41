/** What parse returns, for any input: it is well formed, and dumping it takes no more bytes than it was read from. */
module Reserialise {
  import opened Bits
  import opened Bytes
  import opened Values
  import opened Comparison
  import opened ValueOrder
  import opened Encoding
  import opened Formats
  import opened Maps
  import opened MapLaws
  import opened Decoding
  import opened RoundTrip

  // ---- Every result is typed, short and shallow ---------------------------------------------

  /** What a parse with `levels` levels left can return. */
  predicate Fits(v: Value, levels: nat) {
    Writable(v) && Height(v) <= levels
  }

  predicate FitsItems(xs: seq<Value>, levels: nat) {
    forall i | 0 <= i < |xs| :: Fits(xs[i], levels)
  }

  predicate FitsPair(p: Pair, levels: nat) {
    Fits(p.key, levels) && Fits(p.value, levels)
  }

  lemma FromRawHolds(kind: IntKind, raw: nat)
    requires raw < kind.Modulus()
    ensures kind.Holds(FromRaw(kind, raw))
  {
  }

  lemma {:induction false} HeightItemsBound(xs: seq<Value>, levels: nat)
    requires FitsItems(xs, levels)
    ensures HeightItems(xs) <= levels
  {
    hide Writable;
    if xs != [] { HeightItemsBound(xs[1..], levels); }
  }

  lemma {:induction false} HeightPairsBound(ps: seq<Pair>, levels: nat)
    requires forall i | 0 <= i < |ps| :: FitsPair(ps[i], levels)
    ensures HeightPairs(ps) <= levels
  {
    hide Writable;
    if ps != [] { HeightPairsBound(ps[1..], levels); }
  }

  lemma ArrFits(xs: seq<Value>, levels: nat)
    requires FitsItems(xs, levels) && |xs| < TWO_TO_THE_32
    ensures Fits(Arr(xs), levels + 1)
  {
    HeightItemsBound(xs, levels);
  }

  /** Every entry of a parsed map is one of the pairs on the wire. */
  lemma EntryFromItems(xs: seq<Value>, k: nat) returns (i: nat)
    requires |xs| % 2 == 0 && k < |BuildMap(MakePairs(xs))|
    ensures 2 * i + 1 < |xs| && BuildMap(MakePairs(xs))[k] == Pair(xs[2 * i], xs[2 * i + 1])
  {
    hide BuildMap;
    var pairs := MakePairs(xs);
    BuildMapMembers(pairs);
    var x := BuildMap(pairs)[k];
    assert x in BuildMap(pairs);
    i :| 0 <= i < |pairs| && pairs[i] == x;
  }

  lemma ObjFits(xs: seq<Value>, levels: nat)
    requires FitsItems(xs, levels) && |xs| % 2 == 0 && |xs| / 2 < TWO_TO_THE_32
    ensures Fits(Obj(BuildMap(MakePairs(xs))), levels + 1)
  {
    hide BuildMap, MakePairs, Writable;
    var entries := BuildMap(MakePairs(xs));
    forall k | 0 <= k < |entries|
      ensures FitsPair(entries[k], levels)
    {
      var i := EntryFromItems(xs, k);
      assert Fits(xs[2 * i], levels) && Fits(xs[2 * i + 1], levels);
    }
    HeightPairsBound(entries, levels);
    WritableObj(entries, levels);
  }

  lemma WritableObj(entries: seq<Pair>, levels: nat)
    requires |entries| < TWO_TO_THE_32
    requires forall k | 0 <= k < |entries| :: FitsPair(entries[k], levels)
    ensures Writable(Obj(entries))
  {
  }

  lemma {:induction false} ParsedFits(s: seq<byte>, p: nat, levels: nat)
    requires p <= |s| && Parse(s, p, levels).Ok?
    ensures Fits(Parse(s, p, levels).value, levels)
    decreases levels, 0, 0
  {
    hide Fits, ParsePayload, FormatOf, FieldWidth, NumberAt;
    var w := FieldWidth(FormatOf(s[p]));
    PayloadFits(s, p + 1 + w, s[p], NumberAt(s, p + 1, w), levels - 1);
  }

  lemma {:induction false} PayloadFits(s: seq<byte>, p: nat, first: byte, n: nat, levels: nat)
    requires p <= |s| && n < Pow256(FieldWidth(FormatOf(first)))
    requires ParsePayload(s, p, first, n, levels).Ok?
    ensures Fits(ParsePayload(s, p, first, n, levels).value, levels + 1)
    decreases levels, 3, 0
  {
    hide Fits, ParseString, ParseBinary, ParseExt, ParseArray, ParseObject, NumberAt, FormatOf, Pow256, FromRaw;
    Pow256Values();
    match FormatOf(first)
    case Arith(kind) => FromRawHolds(kind, n); LeafFits(Int(kind, FromRaw(kind, n)), levels);
    case FixString => StringFits(s, p, first % 32, levels);
    case String(_) => StringFits(s, p, n, levels);
    case Binary(_) => BinaryFits(s, p, n, levels);
    case FixExt => ShiftIsSmall(first - 0xd4); ExtFits(s, p, Pow2(first - 0xd4), levels);
    case Extension(_) => ExtFits(s, p, n, levels);
    case FixArray => ArrayFits(s, p, first % 16, levels);
    case Array(_) => ArrayFits(s, p, n, levels);
    case FixObject => ObjectFits(s, p, first % 16, levels);
    case Object(_) => ObjectFits(s, p, n, levels);
    case _ => OneByteFits(s, p, first, n, levels);
  }

  lemma ShiftIsSmall(k: nat)
    requires k <= 4
    ensures Pow2(k) <= 16
    ensures Pow2(k) in {1, 2, 4, 8, 16}
  {
    assert k >= 2 ==> Pow2(k) == 4 * Pow2(k - 2);
    assert k >= 4 ==> Pow2(k) == 16 * Pow2(k - 4);
  }

  lemma LeafFits(v: Value, levels: nat)
    requires IsLeaf(v) && Writable(v)
    ensures Fits(v, levels + 1)
  {
  }

  predicate IsScalar(h: Handler) {
    h.PosFixint? || h.NegFixint? || h.Nil? || h.Invalid? || h.Boolean? || h.Float? || h.Double?
  }

  lemma OneByteFits(s: seq<byte>, p: nat, first: byte, n: nat, levels: nat)
    requires p <= |s| && n < Pow256(FieldWidth(FormatOf(first))) && IsScalar(FormatOf(first))
    requires ParsePayload(s, p, first, n, levels).Ok?
    ensures Fits(ParsePayload(s, p, first, n, levels).value, levels + 1)
  {
    hide ParseString, ParseBinary, ParseExt, ParseArray, ParseObject, NumberAt, Pow256;
    Pow256Values();
  }

  lemma StringFits(s: seq<byte>, p: nat, len: nat, levels: nat)
    requires p <= |s| && ParseString(s, p, len).Ok? && len < TWO_TO_THE_32
    ensures Fits(ParseString(s, p, len).value, levels + 1)
  {
  }

  lemma BinaryFits(s: seq<byte>, p: nat, len: nat, levels: nat)
    requires p <= |s| && ParseBinary(s, p, len).Ok? && len < TWO_TO_THE_32
    ensures Fits(ParseBinary(s, p, len).value, levels + 1)
  {
  }

  lemma ExtFits(s: seq<byte>, p: nat, len: nat, levels: nat)
    requires p <= |s| && ParseExt(s, p, len).Ok? && len < TWO_TO_THE_32
    ensures Fits(ParseExt(s, p, len).value, levels + 1)
  {
  }

  lemma {:induction false} ArrayFits(s: seq<byte>, p: nat, count: nat, levels: nat)
    requires p <= |s| && ParseArray(s, p, count, levels).Ok? && count < TWO_TO_THE_32
    ensures Fits(ParseArray(s, p, count, levels).value, levels + 1)
    decreases levels, 2, 0
  {
    hide Fits, ParseItems;
    ItemsFit(s, p, count, levels);
    ArrFits(ParseItems(s, p, count, levels).items, levels);
  }

  lemma {:induction false} ObjectFits(s: seq<byte>, p: nat, count: nat, levels: nat)
    requires p <= |s| && ParseObject(s, p, count, levels).Ok? && count < TWO_TO_THE_32
    ensures Fits(ParseObject(s, p, count, levels).value, levels + 1)
    decreases levels, 2, 0
  {
    hide Fits, ParseItems, BuildMap, MakePairs;
    ItemsFit(s, p, 2 * count, levels);
    ObjFits(ParseItems(s, p, 2 * count, levels).items, levels);
  }

  lemma {:induction false} ItemsFit(s: seq<byte>, p: nat, count: nat, levels: nat)
    requires p <= |s| && ParseItems(s, p, count, levels).Items?
    ensures FitsItems(ParseItems(s, p, count, levels).items, levels)
    decreases levels, 1, count
  {
    hide Fits, Parse;
    if count > 0 {
      ParsedFits(s, p, levels);
      ItemsFit(s, Parse(s, p, levels).next, count - 1, levels);
    }
  }

  // ---- Dumping the result takes no more bytes ---------------------------------------------------

  lemma {:induction false} EncodePairsConcat(ps: seq<Pair>, qs: seq<Pair>)
    ensures EncodePairs(ps + qs) == EncodePairs(ps) + EncodePairs(qs)
  {
    hide EncodePair;
    if ps == [] {
      assert ps + qs == qs;
    } else {
      EncodePairsConcat(ps[1..], qs);
      assert (ps + qs)[1..] == ps[1..] + qs;
      ConcatAssociates(EncodePair(ps[0]), EncodePairs(ps[1..]), EncodePairs(qs));
    }
  }

  lemma {:induction false} InsertGrowth(entries: seq<Pair>, e: Pair)
    ensures |EncodePairs(Insert(entries, e))| <= |EncodePairs(entries)| + |EncodePair(e)|
  {
    hide EncodePair, Less;
    if entries != [] {
      InsertGrowth(entries[1..], e);
      var tail := Insert(entries[1..], e);
      assert ([entries[0]] + tail)[1..] == tail;
      assert ([e] + entries)[1..] == entries;
    } else {
      assert EncodePairs([e]) == EncodePair(e) + EncodePairs([e][1..]);
    }
  }

  /** Dropping pairs with a repeated key can only make the encoding shorter. */
  lemma {:induction false} BuildMapGrowth(pairs: seq<Pair>)
    ensures |EncodePairs(BuildMap(pairs))| <= |EncodePairs(pairs)|
  {
    hide EncodePair, Insert, EncodePairs;
    if pairs != [] {
      var last := |pairs| - 1;
      BuildMapGrowth(pairs[..last]);
      InsertGrowth(BuildMap(pairs[..last]), pairs[last]);
      EncodePairsConcat(pairs[..last], [pairs[last]]);
      assert pairs == pairs[..last] + [pairs[last]];
      EncodeOnePair(pairs[last]);
    }
  }

  lemma EncodeOnePair(e: Pair)
    ensures EncodePairs([e]) == EncodePair(e)
  {
    assert [e][1..] == [];
  }

  /** The number of bytes from the first one on, for a payload that ends at `next`. */
  function Used(first: byte, p: nat, next: nat): int {
    1 + FieldWidth(FormatOf(first)) + (next - p)
  }

  lemma {:induction false} ParsedGrowth(s: seq<byte>, p: nat, levels: nat)
    requires p <= |s| && Parse(s, p, levels).Ok?
    ensures |Encode(Parse(s, p, levels).value)| <= Parse(s, p, levels).next - p
    decreases levels, 0, 0
  {
    hide Encode, ParsePayload, FormatOf, FieldWidth, NumberAt;
    var w := FieldWidth(FormatOf(s[p]));
    PayloadGrowth(s, p + 1 + w, s[p], NumberAt(s, p + 1, w), levels - 1);
  }

  lemma {:induction false} PayloadGrowth(s: seq<byte>, p: nat, first: byte, n: nat, levels: nat)
    requires p <= |s| && n < Pow256(FieldWidth(FormatOf(first)))
    requires ParsePayload(s, p, first, n, levels).Ok?
    ensures var r := ParsePayload(s, p, first, n, levels); |Encode(r.value)| <= Used(first, p, r.next)
    decreases levels, 3, 0
  {
    hide Encode, EncodeInt, ParseString, ParseBinary, ParseExt, ParseArray, ParseObject, NumberAt, Pow256, FromRaw;
    hide Pow2, StrHeader, BinHeader, ExtHeader, ArrHeader, ObjHeader;
    Pow256Values();
    if IsScalar(FormatOf(first)) {
      OneByteGrowth(s, p, first, n, levels);
    } else {
      HeaderGrowth(first, n);
      match FormatOf(first)
      case Arith(kind) => IntGrowth(kind, n);
      case FixString => StringGrowth(s, p, first % 32);
      case String(_) => StringGrowth(s, p, n);
      case Binary(_) => BinaryGrowth(s, p, n);
      case FixExt => ExtGrowth(s, p, Pow2(first - 0xd4));
      case Extension(_) => ExtGrowth(s, p, n);
      case FixArray => ArrayGrowth(s, p, first % 16, levels);
      case Array(_) => ArrayGrowth(s, p, n, levels);
      case FixObject => ObjectGrowth(s, p, first % 16, levels);
      case Object(_) => ObjectGrowth(s, p, n, levels);
    }
  }

  lemma OneByteGrowth(s: seq<byte>, p: nat, first: byte, n: nat, levels: nat)
    requires p <= |s| && n < Pow256(FieldWidth(FormatOf(first))) && IsScalar(FormatOf(first))
    requires ParsePayload(s, p, first, n, levels).Ok?
    ensures var r := ParsePayload(s, p, first, n, levels); |Encode(r.value)| <= Used(first, p, r.next)
  {
    hide ParseString, ParseBinary, ParseExt, ParseArray, ParseObject, NumberAt, Pow256, BigEndian, EncodePairs,
         EncodeItems;
  }

  lemma IntGrowth(kind: IntKind, raw: nat)
    requires raw < kind.Modulus()
    ensures |Encode(Int(kind, FromRaw(kind, raw)))| <= 1 + kind.Width()
  {
    hide BigEndian;
    FromRawHolds(kind, raw);
  }

  /** No header is longer than any other header for the same length. */
  lemma HeaderGrowth(first: byte, n: nat)
    requires n < Pow256(FieldWidth(FormatOf(first)))
    ensures var h, w := FormatOf(first), FieldWidth(FormatOf(first));
            && (h.String? ==> |StrHeader(n)| <= 1 + w)
            && (h.FixString? ==> |StrHeader(first % 32)| <= 1)
            && (h.Binary? ==> |BinHeader(n)| <= 1 + w)
            && (h.Extension? ==> |ExtHeader(n)| <= 1 + w)
            && (h.FixExt? ==> |ExtHeader(Pow2(first - 0xd4))| <= 1)
            && (h.Array? ==> |ArrHeader(n)| <= 1 + w)
            && (h.FixArray? ==> |ArrHeader(first % 16)| <= 1)
            && (h.Object? ==> |ObjHeader(n)| <= 1 + w)
            && (h.FixObject? ==> |ObjHeader(first % 16)| <= 1)
  {
    hide BigEndian, FormatOf, Pow256, Pow2;
    Pow256Values();
    if FormatOf(first).FixExt? { ShiftIsSmall(first - 0xd4); }
  }

  lemma StringGrowth(s: seq<byte>, p: nat, len: nat)
    requires p <= |s| && ParseString(s, p, len).Ok?
    ensures var r := ParseString(s, p, len); |Encode(r.value)| == |StrHeader(len)| + (r.next - p)
  {
    hide StrHeader;
  }

  lemma BinaryGrowth(s: seq<byte>, p: nat, len: nat)
    requires p <= |s| && ParseBinary(s, p, len).Ok?
    ensures var r := ParseBinary(s, p, len); |Encode(r.value)| == |BinHeader(len)| + (r.next - p)
  {
    hide BinHeader;
  }

  lemma ExtGrowth(s: seq<byte>, p: nat, len: nat)
    requires p <= |s| && ParseExt(s, p, len).Ok?
    ensures var r := ParseExt(s, p, len); |Encode(r.value)| == |ExtHeader(len)| + (r.next - p)
  {
    hide ExtHeader;
  }

  lemma {:induction false} ArrayGrowth(s: seq<byte>, p: nat, count: nat, levels: nat)
    requires p <= |s| && ParseArray(s, p, count, levels).Ok?
    ensures var r := ParseArray(s, p, count, levels); |Encode(r.value)| <= |ArrHeader(count)| + (r.next - p)
    decreases levels, 2, 0
  {
    hide ParseItems, ArrHeader, EncodeItems;
    ItemsGrowth(s, p, count, levels);
  }

  lemma ObjHeaderMonotone(a: nat, b: nat)
    requires a <= b
    ensures |ObjHeader(a)| <= |ObjHeader(b)|
  {
    hide BigEndian;
  }

  lemma {:induction false} ObjectGrowth(s: seq<byte>, p: nat, count: nat, levels: nat)
    requires p <= |s| && ParseObject(s, p, count, levels).Ok?
    ensures var r := ParseObject(s, p, count, levels); |Encode(r.value)| <= |ObjHeader(count)| + (r.next - p)
    decreases levels, 2, 0
  {
    hide ParseItems, ObjHeader, EncodeItems, EncodePairs, MakePairs, BuildMap, Flatten;
    var xs := ParseItems(s, p, 2 * count, levels).items;
    var pairs := MakePairs(xs);
    ItemsGrowth(s, p, 2 * count, levels);
    FlattenOfMakePairs(xs);
    EncodePairsIsFlat(pairs);
    BuildMapGrowth(pairs);
    ObjHeaderMonotone(|BuildMap(pairs)|, count);
  }

  lemma {:induction false} ItemsGrowth(s: seq<byte>, p: nat, count: nat, levels: nat)
    requires p <= |s| && ParseItems(s, p, count, levels).Items?
    ensures var r := ParseItems(s, p, count, levels); |EncodeItems(r.items)| <= r.next - p
    decreases levels, 1, count
  {
    hide Parse, Encode;
    if count > 0 {
      ParsedGrowth(s, p, levels);
      ItemsGrowth(s, Parse(s, p, levels).next, count - 1, levels);
      var items := ParseItems(s, p, count, levels).items;
      assert items[1..] == ParseItems(s, Parse(s, p, levels).next, count - 1, levels).items;
    }
  }

  // ---- With tame keys every map in the result is ordered -----------------------------------------

  predicate OrderedIfTame(v: Value) {
    KeysTame(v) ==> Ordered(v)
  }

  lemma {:induction false} ParsedOrdered(s: seq<byte>, p: nat, levels: nat)
    requires p <= |s| && Parse(s, p, levels).Ok?
    ensures OrderedIfTame(Parse(s, p, levels).value)
    decreases levels, 0, 0
  {
    hide OrderedIfTame, ParsePayload, FormatOf, FieldWidth, NumberAt;
    var w := FieldWidth(FormatOf(s[p]));
    PayloadOrdered(s, p + 1 + w, s[p], NumberAt(s, p + 1, w), levels - 1);
  }

  lemma LeafOrdered(v: Value)
    requires IsLeaf(v)
    ensures OrderedIfTame(v)
  {
  }

  lemma {:induction false} PayloadOrdered(s: seq<byte>, p: nat, first: byte, n: nat, levels: nat)
    requires p <= |s| && n < Pow256(FieldWidth(FormatOf(first)))
    requires ParsePayload(s, p, first, n, levels).Ok?
    ensures OrderedIfTame(ParsePayload(s, p, first, n, levels).value)
    decreases levels, 3, 0
  {
    hide OrderedIfTame, ParseArray, ParseObject, NumberAt, FormatOf, FieldWidth, Pow256;
    match FormatOf(first)
    case FixArray => ArrayOrdered(s, p, first % 16, levels);
    case Array(_) => ArrayOrdered(s, p, n, levels);
    case FixObject => ObjectOrdered(s, p, first % 16, levels);
    case Object(_) => ObjectOrdered(s, p, n, levels);
    case Invalid =>
    case NoHandler =>
    case _ => LeafOrdered(ParsePayload(s, p, first, n, levels).value);
  }

  lemma {:induction false} ArrayOrdered(s: seq<byte>, p: nat, count: nat, levels: nat)
    requires p <= |s| && ParseArray(s, p, count, levels).Ok?
    ensures OrderedIfTame(ParseArray(s, p, count, levels).value)
    decreases levels, 2, 0
  {
    hide ParseItems;
    ItemsOrdered(s, p, count, levels);
  }

  lemma {:induction false} ObjectOrdered(s: seq<byte>, p: nat, count: nat, levels: nat)
    requires p <= |s| && ParseObject(s, p, count, levels).Ok?
    ensures OrderedIfTame(ParseObject(s, p, count, levels).value)
    decreases levels, 2, 0
  {
    hide ParseItems, BuildMap, MakePairs;
    ItemsOrdered(s, p, 2 * count, levels);
    ItemsFit(s, p, 2 * count, levels);
    MapOrdered(ParseItems(s, p, 2 * count, levels).items, levels);
  }

  lemma MapOrdered(xs: seq<Value>, levels: nat)
    requires |xs| % 2 == 0 && FitsItems(xs, levels)
    requires forall i | 0 <= i < |xs| :: OrderedIfTame(xs[i])
    ensures OrderedIfTame(Obj(BuildMap(MakePairs(xs))))
  {
    hide BuildMap, MakePairs, Less, Short;
    var entries := BuildMap(MakePairs(xs));
    if KeysTame(Obj(entries)) {
      forall k | 0 <= k < |entries|
        ensures Comparable(entries[k].key) && Ordered(entries[k].key) && Ordered(entries[k].value)
      {
        var i := EntryFromItems(xs, k);
        assert Fits(xs[2 * i], levels) && OrderedIfTame(xs[2 * i]) && OrderedIfTame(xs[2 * i + 1]);
      }
      BuildMapSorted(MakePairs(xs));
    }
  }

  lemma {:induction false} ItemsOrdered(s: seq<byte>, p: nat, count: nat, levels: nat)
    requires p <= |s| && ParseItems(s, p, count, levels).Items?
    ensures forall i | 0 <= i < count :: OrderedIfTame(ParseItems(s, p, count, levels).items[i])
    decreases levels, 1, count
  {
    hide OrderedIfTame, Parse;
    if count > 0 {
      ParsedOrdered(s, p, levels);
      ItemsOrdered(s, Parse(s, p, levels).next, count - 1, levels);
    }
  }
}
