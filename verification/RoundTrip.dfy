/** Parsing what dump wrote, anywhere inside a longer byte string. */
module RoundTrip {
  import opened Bits
  import opened Bytes
  import opened Values
  import opened Comparison
  import opened Encoding
  import opened Formats
  import opened Maps
  import opened NormOrder
  import opened Decoding

  // ---- Headers ---------------------------------------------------------------------------

  /** A first byte followed by its number field, as written and as read. */
  lemma MarkedRead(s: seq<byte>, p: nat, marker: byte, n: nat, levels: nat)
    requires n < Pow256(FieldWidth(FormatOf(marker))) && levels > 0
    requires At(s, p, [marker] + BigEndian(n, FieldWidth(FormatOf(marker))))
    ensures var q := p + 1 + FieldWidth(FormatOf(marker));
            q <= |s| && Parse(s, p, levels) == ParsePayload(s, q, marker, n, levels - 1)
  {
    hide ParsePayload, FormatOf, FieldWidth, BigEndian, FromBigEndian, Pow256;
    var w := FieldWidth(FormatOf(marker));
    AtConcat(s, p, [marker], BigEndian(n, w));
    assert s[p..p + 1] == [marker];
    FromBigEndianOfBigEndian(n, w);
  }

  lemma SingleRead(s: seq<byte>, p: nat, b: byte, levels: nat)
    requires FieldWidth(FormatOf(b)) == 0 && levels > 0 && At(s, p, [b])
    ensures p < |s| && Parse(s, p, levels) == ParsePayload(s, p + 1, b, 0, levels - 1)
  {
    hide ParsePayload, FormatOf, FieldWidth;
    assert [b] + BigEndian(0, 0) == [b];
    MarkedRead(s, p, b, 0, levels);
  }

  lemma SingleByte(s: seq<byte>, p: nat, b: byte)
    requires At(s, p, [b])
    ensures p < |s| && s[p] == b
  {
    assert s[p..p + 1] == [b];
  }

  lemma StrHeaderRead(s: seq<byte>, p: nat, len: nat, levels: nat)
    requires At(s, p, StrHeader(len)) && len < TWO_TO_THE_32 && levels > 0
    ensures Parse(s, p, levels) == ParseString(s, p + |StrHeader(len)|, len)
  {
    hide Parse, ParseString, ParseBinary, ParseExt, ParseArray, ParseObject, BigEndian, NumberAt;
    Pow256Values();
    if len <= 0x1f { SingleRead(s, p, 0xa0 + len, levels); }
    else if len <= 0xff { MarkedRead(s, p, 0xd9, len, levels); }
    else if len <= 0xffff { MarkedRead(s, p, 0xda, len, levels); }
    else { MarkedRead(s, p, 0xdb, len, levels); }
  }

  lemma BinHeaderRead(s: seq<byte>, p: nat, len: nat, levels: nat)
    requires At(s, p, BinHeader(len)) && len < TWO_TO_THE_32 && levels > 0
    ensures Parse(s, p, levels) == ParseBinary(s, p + |BinHeader(len)|, len)
  {
    hide Parse, ParseBinary, Encode, BigEndian, NumberAt;
    Pow256Values();
    if len <= 0xff { MarkedRead(s, p, 0xc4, len, levels); }
    else if len <= 0xffff { MarkedRead(s, p, 0xc5, len, levels); }
    else { MarkedRead(s, p, 0xc6, len, levels); }
  }

  lemma FixExtRead(s: seq<byte>, p: nat, marker: byte, levels: nat)
    requires At(s, p, [marker]) && 0xd4 <= marker <= 0xd8 && levels > 0
    ensures Parse(s, p, levels) == ParseExt(s, p + 1, Pow2(marker - 0xd4))
  {
    hide Parse, ParseString, ParseBinary, ParseExt, ParseArray, ParseObject, NumberAt, Pow2;
    SingleRead(s, p, marker, levels);
  }

  lemma FixExtLengths()
    ensures Pow2(0) == 1 && Pow2(1) == 2 && Pow2(2) == 4
    ensures Pow2(3) == 8 && Pow2(4) == 16
  {
    assert Pow2(4) == 2 * Pow2(3);
  }

  lemma ExtHeaderRead(s: seq<byte>, p: nat, len: nat, levels: nat)
    requires At(s, p, ExtHeader(len)) && len < TWO_TO_THE_32 && levels > 0
    ensures Parse(s, p, levels) == ParseExt(s, p + |ExtHeader(len)|, len)
  {
    hide Parse, ParseString, ParseBinary, ParseExt, ParseArray, ParseObject, BigEndian, NumberAt, Pow2;
    Pow256Values();
    FixExtLengths();
    if len == 1 { FixExtRead(s, p, 0xd4, levels); }
    else if len == 2 { FixExtRead(s, p, 0xd5, levels); }
    else if len == 4 { FixExtRead(s, p, 0xd6, levels); }
    else if len == 8 { FixExtRead(s, p, 0xd7, levels); }
    else if len == 16 { FixExtRead(s, p, 0xd8, levels); }
    else if len <= 0xff { MarkedRead(s, p, 0xc7, len, levels); }
    else if len <= 0xffff { MarkedRead(s, p, 0xc8, len, levels); }
    else { MarkedRead(s, p, 0xc9, len, levels); }
  }

  lemma ArrHeaderRead(s: seq<byte>, p: nat, len: nat, levels: nat)
    requires At(s, p, ArrHeader(len)) && len < TWO_TO_THE_32 && levels > 0
    ensures Parse(s, p, levels) == ParseArray(s, p + |ArrHeader(len)|, len, levels - 1)
  {
    hide Parse, ParseArray, Encode, BigEndian, NumberAt;
    Pow256Values();
    if len <= 15 { SingleRead(s, p, 0x90 + len, levels); }
    else if len <= 0xffff { MarkedRead(s, p, 0xdc, len, levels); }
    else { MarkedRead(s, p, 0xdd, len, levels); }
  }

  lemma ObjHeaderRead(s: seq<byte>, p: nat, len: nat, levels: nat)
    requires At(s, p, ObjHeader(len)) && len < TWO_TO_THE_32 && levels > 0
    ensures Parse(s, p, levels) == ParseObject(s, p + |ObjHeader(len)|, len, levels - 1)
  {
    hide Parse, ParseObject, Encode, BigEndian, NumberAt;
    Pow256Values();
    if len <= 15 { SingleRead(s, p, 0x80 + len, levels); }
    else if len <= 0xffff { MarkedRead(s, p, 0xde, len, levels); }
    else { MarkedRead(s, p, 0xdf, len, levels); }
  }

  // ---- Leaves ------------------------------------------------------------------------------

  lemma OneByteRead(s: seq<byte>, p: nat, v: Value, levels: nat)
    requires v.Null? || v.Bool? || (v.Int? && -32 <= v.n < 128)
    requires At(s, p, Encode(v)) && levels > 0
    ensures Parse(s, p, levels) == Ok(Norm(v), p + |Encode(v)|)
  {
    hide Parse, BigEndian, NumberAt;
    SingleRead(s, p, Encode(v)[0], levels);
  }

  lemma MarkerFormat(kind: IntKind)
    ensures FormatOf(Marker(kind)) == Arith(kind)
  {
  }

  lemma MarkedIntRead(s: seq<byte>, p: nat, kind: IntKind, raw: nat, levels: nat)
    requires At(s, p, [Marker(kind)] + BigEndian(raw, kind.Width())) && raw < kind.Modulus() && levels > 0
    ensures Parse(s, p, levels) == Ok(Int(kind, FromRaw(kind, raw)), p + 1 + kind.Width())
  {
    hide Parse, ParseString, ParseBinary, ParseExt, ParseArray, ParseObject, Pow256, BigEndian, NumberAt, FromRaw,
         FormatOf;
    MarkerFormat(kind);
    MarkedRead(s, p, Marker(kind), raw, levels);
  }

  lemma IntRead(s: seq<byte>, p: nat, v: Value, levels: nat)
    requires v.Int? && Typed(v)
    requires At(s, p, Encode(v)) && levels > 0
    ensures Parse(s, p, levels) == Ok(Norm(v), p + |Encode(v)|)
  {
    hide Parse, BigEndian;
    if -32 <= v.n < 128 {
      OneByteRead(s, p, v, levels);
    } else {
      var kind := MinimalKind(v.n);
      FromRawOfToRaw(kind, v.n);
      MarkedIntRead(s, p, kind, ToRaw(kind, v.n), levels);
    }
  }

  lemma FloatRead(s: seq<byte>, p: nat, bits: uint32, levels: nat)
    requires At(s, p, [0xca] + BigEndian(bits, 4)) && levels > 0
    ensures Parse(s, p, levels) == Ok(F32(bits), p + 5)
  {
    hide Parse, Encode, BigEndian, NumberAt;
    Pow256Values();
    MarkedRead(s, p, 0xca, bits, levels);
  }

  lemma DoubleRead(s: seq<byte>, p: nat, bits: uint64, levels: nat)
    requires At(s, p, [0xcb] + BigEndian(bits, 8)) && levels > 0
    ensures Parse(s, p, levels) == Ok(F64(bits), p + 9)
  {
    hide Parse, Encode, BigEndian, NumberAt;
    Pow256Values();
    MarkedRead(s, p, 0xcb, bits, levels);
  }

  lemma ExtRead(s: seq<byte>, p: nat, tag: int8, payload: seq<byte>, levels: nat)
    requires At(s, p, ExtHeader(|payload|) + ([tag % 256] + payload)) && levels > 0
    requires |payload| < TWO_TO_THE_32
    ensures Parse(s, p, levels) == Ok(Ext(tag, payload), p + |ExtHeader(|payload|)| + 1 + |payload|)
  {
    hide Parse, ExtHeader;
    var q := p + |ExtHeader(|payload|)|;
    AtConcat(s, p, ExtHeader(|payload|), [tag % 256] + payload);
    AtConcat(s, q, [tag % 256], payload);
    SingleByte(s, q, tag % 256);
    ExtHeaderRead(s, p, |payload|, levels);
  }

  predicate IsLeaf(v: Value) {
    !v.Arr? && !v.Obj?
  }

  /** A value without parts comes back retyped, having used exactly its bytes. */
  lemma LeafRead(s: seq<byte>, p: nat, v: Value, levels: nat)
    requires IsLeaf(v) && Typed(v) && Short(v)
    requires At(s, p, Encode(v)) && levels > 0
    ensures Parse(s, p, levels) == Ok(Norm(v), p + |Encode(v)|)
  {
    hide Parse, StrHeader, BinHeader, ExtHeader;
    match v
    case Null => OneByteRead(s, p, v, levels);
    case Bool(_) => OneByteRead(s, p, v, levels);
    case Int(_, _) => IntRead(s, p, v, levels);
    case F32(bits) => FloatRead(s, p, bits, levels);
    case F64(bits) => DoubleRead(s, p, bits, levels);
    case Str(str) =>
      AtConcat(s, p, StrHeader(|str|), str);
      StrHeaderRead(s, p, |str|, levels);
    case Bin(data) =>
      AtConcat(s, p, BinHeader(|data|), data);
      BinHeaderRead(s, p, |data|, levels);
    case Ext(tag, payload) => ExtRead(s, p, tag, payload, levels);
  }

  // ---- Containers --------------------------------------------------------------------------

  lemma ArrRead(s: seq<byte>, p: nat, items: seq<Value>, levels: nat)
    requires At(s, p, ArrHeader(|items|) + EncodeItems(items)) && |items| < TWO_TO_THE_32 && levels > 0
    ensures At(s, p + |ArrHeader(|items|)|, EncodeItems(items))
    ensures Parse(s, p, levels) == ParseArray(s, p + |ArrHeader(|items|)|, |items|, levels - 1)
  {
    hide Parse, ParseArray, ArrHeader, EncodeItems;
    AtConcat(s, p, ArrHeader(|items|), EncodeItems(items));
    ArrHeaderRead(s, p, |items|, levels);
  }

  lemma ObjRead(s: seq<byte>, p: nat, entries: seq<Pair>, levels: nat)
    requires At(s, p, ObjHeader(|entries|) + EncodePairs(entries)) && |entries| < TWO_TO_THE_32 && levels > 0
    ensures At(s, p + |ObjHeader(|entries|)|, EncodeItems(Flatten(entries)))
    ensures Parse(s, p, levels) == ParseObject(s, p + |ObjHeader(|entries|)|, |entries|, levels - 1)
  {
    hide Parse, ParseObject, ObjHeader, EncodePairs, EncodeItems;
    EncodePairsIsFlat(entries);
    AtConcat(s, p, ObjHeader(|entries|), EncodePairs(entries));
    ObjHeaderRead(s, p, |entries|, levels);
  }

  // ---- Whole values ------------------------------------------------------------------------

  predicate Writable(v: Value) {
    Typed(v) && Short(v)
  }

  predicate WritableItems(xs: seq<Value>) {
    forall i | 0 <= i < |xs| :: Writable(xs[i])
  }

  predicate OrderedItems(xs: seq<Value>) {
    forall i | 0 <= i < |xs| :: Ordered(xs[i])
  }

  lemma FlatAt(entries: seq<Pair>, i: nat)
    requires i < 2 * |entries|
    ensures Flatten(entries)[i] == if i % 2 == 0 then entries[i / 2].key else entries[i / 2].value
  {
    hide Flatten;
    var k := i / 2;
    assert i == 2 * k || i == 2 * k + 1;
    assert Flatten(entries)[2 * k] == entries[k].key && Flatten(entries)[2 * k + 1] == entries[k].value;
  }

  lemma FlatParts(entries: seq<Pair>)
    ensures Writable(Obj(entries)) ==> WritableItems(Flatten(entries)) && |entries| < TWO_TO_THE_32
    ensures Ordered(Obj(entries)) ==> OrderedItems(Flatten(entries))
  {
    hide Flatten, Less;
    forall i | 0 <= i < 2 * |entries|
      ensures Writable(Obj(entries)) ==> Writable(Flatten(entries)[i])
      ensures Ordered(Obj(entries)) ==> Ordered(Flatten(entries)[i])
    {
      FlatAt(entries, i);
    }
  }

  /** The map read back from the pairs of an ordered map. */
  lemma ObjReadBack(entries: seq<Pair>)
    requires Typed(Obj(entries)) && Ordered(Obj(entries))
    ensures BuildMap(MakePairs(NormItems(Flatten(entries)))) == NormPairs(entries)
  {
    hide Norm, NormItems, NormPairs, Flatten, MakePairs, BuildMap, Less;
    NormPairsIsFlat(entries);
    MakePairsOfFlatten(NormPairs(entries));
    SortedNorm(entries);
    BuildMapOfSorted(NormPairs(entries));
  }

  /** What dump wrote is read back in full, or fails only because it nests too deep. */
  predicate ReadsBack(s: seq<byte>, p: nat, v: Value, levels: nat)
    requires p <= |s|
  {
    var r := Parse(s, p, levels);
    && (Height(v) <= levels ==> r.Ok? && r.next == p + |Encode(v)|)
    && (Height(v) <= levels && Ordered(v) ==> r == Ok(Norm(v), p + |Encode(v)|))
    && (Height(v) > levels ==> r.Err? && !r.eof)
  }

  lemma {:induction false} ReadBack(s: seq<byte>, p: nat, v: Value, levels: nat)
    requires Writable(v) && At(s, p, Encode(v))
    ensures ReadsBack(s, p, v, levels)
    decreases Size(v), 0
  {
    if levels == 0 {
      NoLevels(s, p);
    } else if v.Arr? {
      hide Parse, ReadsBack, Typed, Short, Encode;
      ReadBackArr(s, p, v.items, levels);
    } else if v.Obj? {
      hide Parse, ReadsBack, Typed, Short, Encode;
      ReadBackObj(s, p, v.entries, levels);
    } else {
      hide Parse, Encode;
      LeafRead(s, p, v, levels);
    }
  }

  lemma {:induction false} ReadBackArr(s: seq<byte>, p: nat, items: seq<Value>, levels: nat)
    requires levels > 0 && Writable(Arr(items)) && At(s, p, Encode(Arr(items)))
    ensures ReadsBack(s, p, Arr(items), levels)
    decreases SizeItems(items), 2
  {
    hide Parse, ParseItems, ArrHeader, EncodeItems, Typed, Short, Ordered;
    ArrParts(Arr(items));
    ArrRead(s, p, items, levels);
    ItemsReadBack(s, p + |ArrHeader(|items|)|, items, levels - 1);
  }

  lemma NoLevels(s: seq<byte>, p: nat)
    requires p <= |s|
    ensures Parse(s, p, 0) == Err(false, p)
  {
  }

  lemma ArrParts(v: Value)
    requires v.Arr? && Writable(v)
    ensures WritableItems(v.items) && |v.items| < TWO_TO_THE_32
    ensures Ordered(v) ==> OrderedItems(v.items)
  {
  }

  lemma {:induction false} ReadBackObj(s: seq<byte>, p: nat, entries: seq<Pair>, levels: nat)
    requires levels > 0 && Writable(Obj(entries)) && At(s, p, Encode(Obj(entries)))
    ensures ReadsBack(s, p, Obj(entries), levels)
    decreases SizePairs(entries), 2
  {
    hide Parse, ParseItems, ObjHeader, EncodeItems, EncodePairs, Typed, Short, Ordered, Flatten, MakePairs, BuildMap;
    FlatParts(entries);
    SizeOfFlatten(entries);
    EncodePairsIsFlat(entries);
    ObjRead(s, p, entries, levels);
    ItemsReadBack(s, p + |ObjHeader(|entries|)|, Flatten(entries), levels - 1);
    if Ordered(Obj(entries)) { ObjReadBack(entries); }
  }

  lemma {:induction false} ItemsReadBack(s: seq<byte>, p: nat, xs: seq<Value>, levels: nat)
    requires p <= |s| && WritableItems(xs) && At(s, p, EncodeItems(xs))
    ensures var r := ParseItems(s, p, |xs|, levels);
            && (HeightItems(xs) <= levels ==> r.Items? && r.next == p + |EncodeItems(xs)|)
            && (HeightItems(xs) <= levels && OrderedItems(xs) ==> r == Items(NormItems(xs), p + |EncodeItems(xs)|))
            && (HeightItems(xs) > levels ==> r.Stopped? && !r.eof)
    decreases SizeItems(xs), 1
  {
    hide Parse, Encode, Norm, Writable, Ordered;
    if xs != [] {
      AtConcat(s, p, Encode(xs[0]), EncodeItems(xs[1..]));
      ReadBack(s, p, xs[0], levels);
      if Height(xs[0]) <= levels {
        ItemsReadBack(s, p + |Encode(xs[0])|, xs[1..], levels);
      }
    }
  }
}
