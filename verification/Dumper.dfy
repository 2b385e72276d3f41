/** The dump functions, writing byte by byte to a stream. A method that answers false stands for the throw on a length
    that does not fit 32 bits. */
module Dumper {
  import opened Bits
  import opened Bytes
  import opened Values
  import opened Encoding
  import opened Interrupted
  import opened HostOrder
  import opened OutputStream

  /** dump_data: the bytes of the object representation, walked so that the most significant comes first. */
  method DumpData(bigEndianHost: bool, value: nat, width: nat, os: OStream)
    modifies os
    ensures os.out == old(os.out) + BigEndian(value, width)
  {
    var bytes := HostBytes(bigEndianHost, value, width);
    var off := if bigEndianHost then 0 else width - 1;
    var dir := if bigEndianHost then 1 else -1;
    var i := 0;
    while i < width
      invariant 0 <= i <= width
      invariant os.out == old(os.out) + BigEndian(value, width)[..i]
    {
      assert dir * i == if bigEndianHost then i else -i;
      os.Put(bytes[off + dir * i]);
      i := i + 1;
    }
  }

  method DumpNull(os: OStream)
    modifies os
    ensures os.out == old(os.out) + Encode(Null)
  {
    os.Put(0xc0);
  }

  method DumpFloat(big: bool, bits: uint32, os: OStream)
    modifies os
    ensures os.out == old(os.out) + Encode(F32(bits))
  {
    os.Put(0xca);
    DumpData(big, bits, 4, os);
  }

  method DumpDouble(big: bool, bits: uint64, os: OStream)
    modifies os
    ensures os.out == old(os.out) + Encode(F64(bits))
  {
    os.Put(0xcb);
    DumpData(big, bits, 8, os);
  }

  method DumpBool(value: bool, os: OStream)
    modifies os
    ensures os.out == old(os.out) + Encode(Bool(value))
  {
    os.Put(if value then 0xc3 else 0xc2);
  }

  // ---- Integers: every width hands smaller numbers to the next narrower one ----------------------

  method DumpU8(value: int, os: OStream)
    requires U8.Holds(value)
    modifies os
    ensures os.out == old(os.out) + EncodeInt(value)
  {
    OneByte(value);
    if 128 <= value {
      os.Put(0xcc);
    }
    os.Put(value);
  }

  /** A single digit is the number itself. */
  lemma OneByte(value: nat)
    requires value < 256
    ensures BigEndian(value, 1) == [value]
  {
    assert BigEndian(value, 1) == BigEndian(value / 256, 0) + [value % 256];
  }

  method DumpU16(big: bool, value: int, os: OStream)
    requires U16.Holds(value)
    modifies os
    ensures os.out == old(os.out) + EncodeInt(value)
  {
    hide BigEndian;
    if value < 0x100 {
      DumpU8(value, os);
    } else {
      os.Put(0xcd);
      DumpData(big, value, 2, os);
    }
  }

  method DumpU32(big: bool, value: int, os: OStream)
    requires U32.Holds(value)
    modifies os
    ensures os.out == old(os.out) + EncodeInt(value)
  {
    hide BigEndian;
    if value < 0x1_0000 {
      DumpU16(big, value, os);
    } else {
      os.Put(0xce);
      DumpData(big, value, 4, os);
    }
  }

  method DumpU64(big: bool, value: int, os: OStream)
    requires U64.Holds(value)
    modifies os
    ensures os.out == old(os.out) + EncodeInt(value)
  {
    hide BigEndian;
    if value < 0x1_0000_0000 {
      DumpU32(big, value, os);
    } else {
      os.Put(0xcf);
      DumpData(big, value, 8, os);
    }
  }

  method DumpI8(value: int, os: OStream)
    requires I8.Holds(value)
    modifies os
    ensures os.out == old(os.out) + EncodeInt(value)
  {
    OneByte(value % 256);
    if value < -32 {
      os.Put(0xd0);
    }
    os.Put(value % 256);
  }

  method DumpI16(big: bool, value: int, os: OStream)
    requires I16.Holds(value)
    modifies os
    ensures os.out == old(os.out) + EncodeInt(value)
  {
    hide BigEndian;
    if value < -0x80 {
      os.Put(0xd1);
      DumpData(big, ToRaw(I16, value), 2, os);
    } else if value <= 0 {
      DumpI8(value, os);
    } else {
      DumpU16(big, value, os);
    }
  }

  method DumpI32(big: bool, value: int, os: OStream)
    requires I32.Holds(value)
    modifies os
    ensures os.out == old(os.out) + EncodeInt(value)
  {
    hide BigEndian;
    if value < -0x8000 {
      os.Put(0xd2);
      DumpData(big, ToRaw(I32, value), 4, os);
    } else if value <= 0 {
      DumpI16(big, value, os);
    } else {
      DumpU32(big, value, os);
    }
  }

  method DumpI64(big: bool, value: int, os: OStream)
    requires I64.Holds(value)
    modifies os
    ensures os.out == old(os.out) + EncodeInt(value)
  {
    hide BigEndian;
    if value < -0x8000_0000 {
      os.Put(0xd3);
      DumpData(big, ToRaw(I64, value), 8, os);
    } else if value <= 0 {
      DumpI32(big, value, os);
    } else {
      DumpU64(big, value, os);
    }
  }

  /** The dump overload of the stored integer type: whatever the type, the bytes depend on the number alone. */
  method DumpInt(big: bool, kind: IntKind, n: int, os: OStream)
    requires kind.Holds(n)
    modifies os
    ensures os.out == old(os.out) + EncodeInt(n)
  {
    match kind
    case U8 => DumpU8(n, os);
    case U16 => DumpU16(big, n, os);
    case U32 => DumpU32(big, n, os);
    case U64 => DumpU64(big, n, os);
    case I8 => DumpI8(n, os);
    case I16 => DumpI16(big, n, os);
    case I32 => DumpI32(big, n, os);
    case I64 => DumpI64(big, n, os);
  }

  // ---- Strings, binaries, extensions ---------------------------------------------------------------

  /** A type prefix and a length below it share one byte. */
  lemma PrefixBits(len: nat)
    ensures len < 32 ==> Or(0xa0, len) == 0xa0 + len
    ensures len < 16 ==> Or(0x90, len) == 0x90 + len && Or(0x80, len) == 0x80 + len
  {
    hide Or;
    assert Pow2(4) == 16 && Pow2(5) == 32;
    if len < 32 { OrBelow(5, len, 5); }
    if len < 16 { OrBelow(9, len, 4); OrBelow(8, len, 4); }
  }

  method DumpString(big: bool, value: seq<byte>, os: OStream) returns (ok: bool)
    modifies os
    ensures ok <==> Short(Str(value))
    ensures os.out == if ok then old(os.out) + Encode(Str(value)) else old(os.out)
  {
    hide Or, BigEndian;
    var len := |value|;
    PrefixBits(len);
    if len <= 0x1f {
      os.Put(Or(0xa0, len));
    } else if len <= 0xff {
      os.Put(0xd9);
      OneByte(len);
      os.Put(len);
    } else if len <= 0xffff {
      os.Put(0xda);
      DumpData(big, len, 2, os);
    } else if len <= 0xffff_ffff {
      os.Put(0xdb);
      DumpData(big, len, 4, os);
    } else {
      return false;
    }
    ghost var header := old(os.out) + StrHeader(len);
    var i := 0;
    while i < len
      invariant 0 <= i <= len
      invariant os.out == header + value[..i]
    {
      OneByte(value[i]);
      DumpData(big, value[i], 1, os);
      i := i + 1;
    }
    ok := true;
  }

  method DumpBinary(big: bool, value: seq<byte>, os: OStream) returns (ok: bool)
    modifies os
    ensures ok <==> Short(Bin(value))
    ensures os.out == if ok then old(os.out) + Encode(Bin(value)) else old(os.out)
  {
    var len := |value|;
    if len <= 0xff {
      os.Put(0xc4);
      DumpData(big, len, 1, os);
    } else if len <= 0xffff {
      os.Put(0xc5);
      DumpData(big, len, 2, os);
    } else if len <= 0xffff_ffff {
      os.Put(0xc6);
      DumpData(big, len, 4, os);
    } else {
      return false;
    }
    os.Write(value);
    ok := true;
  }

  method DumpExtension(big: bool, tag: int8, data: seq<byte>, os: OStream) returns (ok: bool)
    modifies os
    ensures ok <==> Short(Ext(tag, data))
    ensures os.out == if ok then old(os.out) + Encode(Ext(tag, data)) else old(os.out)
  {
    hide BigEndian;
    var len := |data|;
    if len == 0x01 {
      os.Put(0xd4);
    } else if len == 0x02 {
      os.Put(0xd5);
    } else if len == 0x04 {
      os.Put(0xd6);
    } else if len == 0x08 {
      os.Put(0xd7);
    } else if len == 0x10 {
      os.Put(0xd8);
    } else if len <= 0xff {
      os.Put(0xc7);
      OneByte(len);
      os.Put(len);
    } else if len <= 0xffff {
      os.Put(0xc8);
      DumpData(big, len, 2, os);
    } else if len <= 0xffff_ffff {
      os.Put(0xc9);
      DumpData(big, len, 4, os);
    } else {
      return false;
    }
    assert os.out == old(os.out) + ExtHeader(len);
    os.Put(tag % 256);
    os.Write(data);
    ok := true;
  }

  // ---- Arrays and maps --------------------------------------------------------------------------------

  /** The length prefix of an array; false stands for the throw. */
  method DumpArrayLength(big: bool, len: nat, os: OStream) returns (ok: bool)
    modifies os
    ensures ok <==> len < TWO_TO_THE_32
    ensures os.out == if ok then old(os.out) + ArrHeader(len) else old(os.out)
  {
    hide Or, BigEndian;
    PrefixBits(len);
    ok := true;
    if len <= 15 {
      os.Put(Or(0x90, len));
    } else if len <= 0xffff {
      os.Put(0xdc);
      DumpData(big, len, 2, os);
    } else if len <= 0xffff_ffff {
      os.Put(0xdd);
      DumpData(big, len, 4, os);
    } else {
      ok := false;
    }
  }

  /** The first i items of an array have been written after its header. */
  ghost predicate ItemsDumped(start: seq<byte>, items: seq<Value>, i: nat, out: seq<byte>)
    requires i <= |items|
  {
    AllShort(items[..i]) && out == start + ArrHeader(|items|) + EncodeItems(items[..i])
  }

  method DumpArray(big: bool, value: seq<Value>, os: OStream) returns (ok: bool)
    requires Typed(Arr(value))
    modifies os
    ensures ok <==> Short(Arr(value))
    ensures os.out == old(os.out) + if ok then Encode(Arr(value)) else Written(Arr(value))
    decreases value
  {
    hide *;
    ArrayBegins(old(os.out), value);
    var len := |value|;
    ok := DumpArrayLength(big, len, os);
    if !ok {
      return;
    }
    var i := 0;
    while i < len
      invariant 0 <= i <= len
      invariant ItemsDumped(old(os.out), value, i, os.out)
    {
      ghost var before := os.out;
      ok := Dump(big, value[i], os);
      ItemDumped(old(os.out), value, i, before, os.out);
      if !ok {
        return;
      }
      i := i + 1;
    }
    ArrayEnds(old(os.out), value, os.out);
    ok := true;
  }

  lemma ArrayBegins(start: seq<byte>, items: seq<Value>)
    ensures ItemsDumped(start, items, 0, start + ArrHeader(|items|))
    ensures |items| >= TWO_TO_THE_32 ==> !Short(Arr(items)) && start + Written(Arr(items)) == start
    ensures Typed(Arr(items)) <==> forall i | 0 <= i < |items| :: Typed(items[i])
  {
    hide ArrHeader;
    assert items[..0] == [];
  }

  /** One more item: either it is complete, or the dump of the array ends here. */
  lemma ItemDumped(start: seq<byte>, items: seq<Value>, i: nat, before: seq<byte>, after: seq<byte>)
    requires i < |items| < TWO_TO_THE_32 && ItemsDumped(start, items, i, before)
    requires after == before + if Short(items[i]) then Encode(items[i]) else Written(items[i])
    ensures Short(items[i]) ==> ItemsDumped(start, items, i + 1, after)
    ensures !Short(items[i]) ==> !Short(Arr(items)) && after == start + Written(Arr(items))
  {
    hide ArrHeader, Encode, EncodeItems, Written;
    if Short(items[i]) {
      EncodeItemsSnoc(items, i);
      assert items[..i + 1] == items[..i] + [items[i]];
    } else {
      ArrayThrows(items, i);
    }
  }

  lemma ArrayEnds(start: seq<byte>, items: seq<Value>, out: seq<byte>)
    requires |items| < TWO_TO_THE_32 && ItemsDumped(start, items, |items|, out)
    ensures Short(Arr(items)) && out == start + Encode(Arr(items))
  {
    hide ArrHeader, EncodeItems;
    assert items[..|items|] == items;
  }

  lemma {:induction false} EncodeItemsSnoc(items: seq<Value>, i: nat)
    requires i < |items|
    ensures EncodeItems(items[..i + 1]) == EncodeItems(items[..i]) + Encode(items[i])
  {
    hide Encode;
    if i == 0 {
      assert items[..1][1..] == [];
    } else {
      EncodeItemsSnoc(items[1..], i - 1);
      assert items[..i + 1][1..] == items[1..][..i];
      assert items[..i][1..] == items[1..][..i - 1];
    }
  }

  lemma {:induction false} EncodePairsSnoc(entries: seq<Pair>, i: nat)
    requires i < |entries|
    ensures EncodePairs(entries[..i + 1]) == EncodePairs(entries[..i]) + EncodePair(entries[i])
  {
    hide EncodePair;
    if i == 0 {
      assert entries[..1][1..] == [];
    } else {
      EncodePairsSnoc(entries[1..], i - 1);
      assert entries[..i + 1][1..] == entries[1..][..i];
      assert entries[..i][1..] == entries[1..][..i - 1];
    }
  }

  /** The length prefix of a map; false stands for the throw. */
  method DumpObjectLength(big: bool, len: nat, os: OStream) returns (ok: bool)
    modifies os
    ensures ok <==> len < TWO_TO_THE_32
    ensures os.out == if ok then old(os.out) + ObjHeader(len) else old(os.out)
  {
    hide Or, BigEndian;
    PrefixBits(len);
    ok := true;
    if len <= 15 {
      os.Put(Or(0x80, len));
    } else if len <= 0xffff {
      os.Put(0xde);
      DumpData(big, len, 2, os);
    } else if len <= 0xffff_ffff {
      os.Put(0xdf);
      DumpData(big, len, 4, os);
    } else {
      ok := false;
    }
  }

  /** The first i entries of a map have been written after its header. */
  ghost predicate EntriesDumped(start: seq<byte>, entries: seq<Pair>, i: nat, out: seq<byte>)
    requires i <= |entries|
  {
    AllPairsShort(entries[..i]) && out == start + ObjHeader(|entries|) + EncodePairs(entries[..i])
  }

  method DumpObject(big: bool, value: seq<Pair>, os: OStream) returns (ok: bool)
    requires Typed(Obj(value))
    modifies os
    ensures ok <==> Short(Obj(value))
    ensures os.out == old(os.out) + if ok then Encode(Obj(value)) else Written(Obj(value))
    decreases value
  {
    hide *;
    ObjectBegins(old(os.out), value);
    var len := |value|;
    ok := DumpObjectLength(big, len, os);
    if !ok {
      return;
    }
    var i := 0;
    while i < len
      invariant 0 <= i <= len
      invariant EntriesDumped(old(os.out), value, i, os.out)
    {
      ghost var before := os.out;
      ok := Dump(big, value[i].key, os);
      KeyDumped(old(os.out), value, i, before, os.out);
      if !ok {
        return;
      }
      ghost var between := os.out;
      ok := Dump(big, value[i].value, os);
      EntryDumped(old(os.out), value, i, before, between, os.out);
      if !ok {
        return;
      }
      i := i + 1;
    }
    ObjectEnds(old(os.out), value, os.out);
    ok := true;
  }

  lemma ObjectBegins(start: seq<byte>, entries: seq<Pair>)
    ensures EntriesDumped(start, entries, 0, start + ObjHeader(|entries|))
    ensures |entries| >= TWO_TO_THE_32 ==> !Short(Obj(entries)) && start + Written(Obj(entries)) == start
    ensures Typed(Obj(entries)) <==> forall i | 0 <= i < |entries| :: Typed(entries[i].key) && Typed(entries[i].value)
  {
    hide ObjHeader;
    assert entries[..0] == [];
  }

  lemma KeyDumped(start: seq<byte>, entries: seq<Pair>, i: nat, before: seq<byte>, after: seq<byte>)
    requires i < |entries| < TWO_TO_THE_32 && EntriesDumped(start, entries, i, before)
    requires after == before + if Short(entries[i].key) then Encode(entries[i].key) else Written(entries[i].key)
    ensures !Short(entries[i].key) ==> !Short(Obj(entries)) && after == start + Written(Obj(entries))
  {
    hide ObjHeader, Encode, EncodePairs, Written;
    if !Short(entries[i].key) {
      ObjectThrows(entries, i);
      PairThrows(entries[i]);
    }
  }

  lemma EntryDumped(start: seq<byte>, entries: seq<Pair>, i: nat, before: seq<byte>, between: seq<byte>,
                    after: seq<byte>)
    requires i < |entries| < TWO_TO_THE_32 && EntriesDumped(start, entries, i, before) && Short(entries[i].key)
    requires between == before + Encode(entries[i].key)
    requires after == between + if Short(entries[i].value) then Encode(entries[i].value) else Written(entries[i].value)
    ensures Short(entries[i].value) ==> EntriesDumped(start, entries, i + 1, after)
    ensures !Short(entries[i].value) ==> !Short(Obj(entries)) && after == start + Written(Obj(entries))
  {
    hide ObjHeader, Encode, EncodePairs, Written;
    if Short(entries[i].value) {
      EncodePairsSnoc(entries, i);
      assert entries[..i + 1] == entries[..i] + [entries[i]];
    } else {
      ObjectThrows(entries, i);
      PairThrows(entries[i]);
    }
  }

  lemma ObjectEnds(start: seq<byte>, entries: seq<Pair>, out: seq<byte>)
    requires |entries| < TWO_TO_THE_32 && EntriesDumped(start, entries, |entries|, out)
    ensures Short(Obj(entries)) && out == start + Encode(Obj(entries))
  {
    hide ObjHeader, EncodePairs;
    assert entries[..|entries|] == entries;
  }

  /** operator<<: the virtual dump of the value. It completes exactly for values whose lengths all fit 32 bits, and
      then has appended the encoding and nothing else. */
  method Dump(big: bool, v: Value, os: OStream) returns (ok: bool)
    requires Typed(v)
    modifies os
    ensures ok <==> Short(v)
    ensures os.out == old(os.out) + if ok then Encode(v) else Written(v)
    decreases v
  {
    ok := true;
    match v
    case Null => DumpNull(os);
    case Bool(b) => DumpBool(b, os);
    case Int(kind, n) => DumpInt(big, kind, n, os);
    case F32(bits) => DumpFloat(big, bits, os);
    case F64(bits) => DumpDouble(big, bits, os);
    case Str(s) => ok := DumpString(big, s, os);
    case Bin(s) => ok := DumpBinary(big, s, os);
    case Arr(items) => ok := DumpArray(big, items, os);
    case Obj(entries) => ok := DumpObject(big, entries, os);
    case Ext(tag, s) => ok := DumpExtension(big, tag, s, os);
  }
}
