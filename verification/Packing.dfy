/** pack_object: the benchmark's struct tree as a MessagePack value, and the hash after a trip over the wire. */
module Packing {
  import opened Bytes
  import opened Values
  import opened Comparison
  import opened Encoding
  import opened Decoding
  import opened RoundTrip
  import opened Codec
  import opened Hashing
  import opened BenchObject
  import opened ValueHash
  import opened Options

  /** The C string at the start of some memory: everything before the first NUL. */
  function CString(memory: seq<byte>): (s: seq<byte>) {
    if memory == [] || memory[0] == 0 then [] else [memory[0]] + CString(memory[1..])
  }

  /** object_items[key] = value: replaces the value under an equivalent key, or inserts a new entry in its place. */
  function Assign(entries: seq<Pair>, key: Value, value: Value): (r: seq<Pair>) {
    if entries == [] then [Pair(key, value)]
    else if Less(entries[0].key, key) then [entries[0]] + Assign(entries[1..], key, value)
    else if Less(key, entries[0].key) then [Pair(key, value)] + entries
    else [Pair(entries[0].key, value)] + entries[1..]
  }

  function Pack(o: Object): (v: Value)
    requires Shaped(o)
    decreases o
  {
    match o
    case ONil => Null
    case OBool(b) => Bool(b)
    case ODouble(bits) => F64(bits)
    case OInt(i) => Int(I64, i)
    case OUint(u) => Int(U64, u)
    case OStr(_, str) => Str(CString(str))
    case OArray(_, children) => Arr(PackElements(children))
    case OMap(_, children) => Obj(PackEntries(children, []))
  }

  function PackElements(children: seq<Object>): (items: seq<Value>)
    requires forall k | 0 <= k < |children| :: Shaped(children[k])
    ensures |items| == |children|
    ensures forall k | 0 <= k < |children| :: items[k] == Pack(children[k])
    decreases children
  {
    if children == [] then [] else [Pack(children[0])] + PackElements(children[1..])
  }

  /** The map after the keys and values of `children` have been assigned on top of `entries`. */
  function PackEntries(children: seq<Object>, entries: seq<Pair>): (r: seq<Pair>)
    requires ShapedEntries(children)
    decreases children
  {
    if children == [] then entries
    else
      var key, value, rest := children[0], children[1], children[2..];
      PackEntries(rest, Assign(entries, Str(CString(key.str)), Pack(value)))
  }

  /** pack_object as written: arrays are filled in place, maps by assignment. */
  method PackObject(o: Object) returns (v: Value)
    requires Shaped(o)
    ensures v == Pack(o)
    decreases o
  {
    hide CString;
    match o
    case ONil => v := Null;
    case OBool(b) => v := Bool(b);
    case ODouble(bits) => v := F64(bits);
    case OInt(i) => v := Int(I64, i);
    case OUint(u) => v := Int(U64, u);
    case OStr(_, str) => v := Str(CString(str));
    case OArray(l, children) =>
      var items := PackArray(l, children);
      v := Arr(items);
    case OMap(l, children) =>
      var entries := PackMap(l, children);
      v := Obj(entries);
  }

  method PackArray(l: nat, children: seq<Object>) returns (r: seq<Value>)
    requires |children| == l && forall k | 0 <= k < |children| :: Shaped(children[k])
    ensures r == PackElements(children)
    decreases children
  {
    hide Pack, Shaped;
    var items := new Value[l](_ => Null);
    var i := 0;
    while i < l
      invariant 0 <= i <= l
      invariant forall k | 0 <= k < i :: items[k] == Pack(children[k])
    {
      items[i] := PackObject(children[i]);
      i := i + 1;
    }
    r := items[..];
  }

  method PackMap(l: nat, children: seq<Object>) returns (entries: seq<Pair>)
    requires |children| == 2 * l && ShapedEntries(children)
    ensures entries == PackEntries(children, [])
    decreases children
  {
    hide Pack, Shaped, CString, Assign;
    entries := [];
    var i := 0;
    while i < l
      invariant 0 <= i <= l
      invariant ShapedEntries(children[2 * i..])
      invariant PackEntries(children, []) == PackEntries(children[2 * i..], entries)
    {
      var key, value := children[i * 2], children[i * 2 + 1];
      var rest := children[2 * i..];
      assert rest[0] == key && rest[1] == value && rest[2..] == children[2 * (i + 1)..];
      var packed := PackObject(value);
      entries := Assign(entries, Str(CString(key.str)), packed);
      i := i + 1;
    }
  }

  // ---- Trees as the generator makes them ------------------------------------------------------------

  /** Every string ends with its first NUL at its length, and map keys are strictly increasing. */
  predicate Clean(o: Object)
    requires Shaped(o)
  {
    match o
    case OStr(l, str) => str[l] == 0 && forall k | 0 <= k < l :: str[k] != 0
    case OArray(_, children) => forall k | 0 <= k < |children| :: Clean(children[k])
    case OMap(_, children) => CleanEntries(children)
    case _ => true
  }

  predicate CleanEntries(children: seq<Object>)
    requires ShapedEntries(children)
    decreases children, 0
  {
    && (forall k | 0 <= k < |children| :: Clean(children[k]))
    && (forall i, j | 0 <= i < j < |children| && i % 2 == 0 && j % 2 == 0 :: KeyBelow(children[i], children[j]))
  }

  predicate KeyBelow(a: Object, b: Object)
    requires a.OStr? && b.OStr? && Shaped(a) && Shaped(b)
  {
    BytesLess(Text(a), Text(b))
  }

  /** Levels of nesting, as for values. */
  function ObjectHeight(o: Object): (h: nat) {
    match o
    case OArray(_, children) => 1 + ElementsHeight(children)
    case OMap(_, children) => 1 + ElementsHeight(children)
    case _ => 1
  }

  function ElementsHeight(children: seq<Object>): (h: nat) {
    if children == [] then 0 else Max(ObjectHeight(children[0]), ElementsHeight(children[1..]))
  }

  lemma {:induction false} CStringIsText(str: seq<byte>, l: nat)
    requires l < |str| && str[l] == 0 && forall k | 0 <= k < l :: str[k] != 0
    ensures CString(str) == str[..l]
  {
    if l > 0 {
      CStringIsText(str[1..], l - 1);
      assert str[..l] == [str[0]] + str[1..][..l - 1];
    }
  }

  // ---- Clean maps are packed entry by entry -----------------------------------------------------------

  function PlainEntries(children: seq<Object>): (r: seq<Pair>)
    requires ShapedEntries(children)
    decreases children
  {
    if children == [] then []
    else [Pair(Str(Text(children[0])), Pack(children[1]))] + PlainEntries(children[2..])
  }

  lemma {:induction false} PlainEntriesAt(children: seq<Object>, i: nat)
    requires ShapedEntries(children)
    ensures |PlainEntries(children)| == |children| / 2
    ensures 2 * i < |children| ==>
              PlainEntries(children)[i] == Pair(Str(Text(children[2 * i])), Pack(children[2 * i + 1]))
    decreases children
  {
    hide Shaped, Pack, Text;
    if children != [] {
      PlainEntriesAt(children[2..], if i == 0 then 0 else i - 1);
      if i > 0 && 2 * i < |children| {
        assert children[2..][2 * (i - 1)] == children[2 * i];
        assert children[2..][2 * (i - 1) + 1] == children[2 * i + 1];
      }
    }
  }

  lemma {:induction false} AssignLargest(entries: seq<Pair>, key: Value, value: Value)
    requires forall i | 0 <= i < |entries| :: Less(entries[i].key, key)
    ensures Assign(entries, key, value) == entries + [Pair(key, value)]
  {
    hide Less;
    if entries != [] {
      AssignLargest(entries[1..], key, value);
      assert entries == [entries[0]] + entries[1..];
    }
  }

  lemma {:induction false} PackCleanEntries(children: seq<Object>, entries: seq<Pair>)
    requires ShapedEntries(children) && CleanEntries(children)
    requires forall i, j | 0 <= i < |entries| && 0 <= j < |children| && j % 2 == 0 ::
               Less(entries[i].key, Str(Text(children[j])))
    ensures PackEntries(children, entries) == entries + PlainEntries(children)
    decreases children
  {
    hide Pack, Less, Clean, Shaped, Assign;
    if children == [] {
      assert entries + [] == entries;
    } else {
      var key, value, rest := children[0], children[1], children[2..];
      var more := entries + [Pair(Str(Text(key)), Pack(value))];
      CleanKey(key);
      AssignLargest(entries, Str(Text(key)), Pack(value));
      CleanTail(children);
      forall i, j | 0 <= i < |more| && 0 <= j < |rest| && j % 2 == 0
        ensures Less(more[i].key, Str(Text(rest[j])))
      {
        assert rest[j] == children[j + 2];
        KeyBelowIsLess(key, children[j + 2]);
      }
      PackCleanEntries(rest, more);
      assert more + PlainEntries(rest) == entries + PlainEntries(children);
    }
  }

  lemma CleanKey(key: Object)
    requires key.OStr? && Shaped(key) && Clean(key)
    ensures CString(key.str) == Text(key)
  {
    CStringIsText(key.str, key.l);
  }

  lemma CleanTail(children: seq<Object>)
    requires children != [] && ShapedEntries(children) && CleanEntries(children)
    ensures ShapedEntries(children[2..]) && CleanEntries(children[2..])
    ensures forall j | 2 <= j < |children| && j % 2 == 0 :: KeyBelow(children[0], children[j])
  {
    hide Clean, Shaped, KeyBelow;
    var rest := children[2..];
    forall k | 0 <= k < |rest|
      ensures rest[k] == children[k + 2]
    {
    }
  }

  lemma KeyBelowIsLess(a: Object, b: Object)
    requires a.OStr? && b.OStr? && Shaped(a) && Shaped(b)
    ensures KeyBelow(a, b) <==> Less(Str(Text(a)), Str(Text(b)))
  {
  }

  lemma PackCleanMap(l: uint32, children: seq<Object>)
    requires Shaped(OMap(l, children)) && Clean(OMap(l, children))
    ensures ShapedEntries(children)
    ensures Pack(OMap(l, children)) == Obj(PlainEntries(children))
  {
    PackCleanEntries(children, []);
    assert [] + PlainEntries(children) == PlainEntries(children);
  }

  // ---- What pack_object returns can be dumped and parsed back ---------------------------------------------

  /** A packed tree is typed, short, ordered, and as high as the tree. */
  predicate PacksWell(o: Object)
    requires Shaped(o)
  {
    var v := Pack(o);
    Writable(v) && Ordered(v) && Height(v) == ObjectHeight(o)
  }

  lemma {:induction false} CleanPacksWell(o: Object)
    requires Shaped(o) && Clean(o)
    ensures PacksWell(o)
    decreases o
  {
    match o
    case OStr(l, str) => CStringIsText(str, l);
    case OArray(l, children) => ArrayPacksWell(l, children);
    case OMap(l, children) => MapPacksWell(l, children);
    case _ =>
  }

  lemma {:induction false} ArrayPacksWell(l: uint32, children: seq<Object>)
    requires Shaped(OArray(l, children)) && Clean(OArray(l, children))
    ensures PacksWell(OArray(l, children))
    decreases children
  {
    forall k | 0 <= k < |children|
      ensures PacksWell(children[k])
    {
      CleanPacksWell(children[k]);
    }
    ElementsHeightMatches(children);
  }

  lemma {:induction false} ElementsHeightMatches(children: seq<Object>)
    requires forall k | 0 <= k < |children| :: Shaped(children[k]) && PacksWell(children[k])
    ensures HeightItems(PackElements(children)) == ElementsHeight(children)
  {
    hide Pack, Shaped, Writable, Ordered;
    if children != [] {
      ElementsHeightMatches(children[1..]);
      assert PackElements(children)[1..] == PackElements(children[1..]);
    }
  }

  lemma {:induction false} MapPacksWell(l: uint32, children: seq<Object>)
    requires Shaped(OMap(l, children)) && Clean(OMap(l, children))
    ensures PacksWell(OMap(l, children))
    decreases children
  {
    hide Pack, Less, BytesLess, PlainEntries;
    assert ShapedEntries(children);
    forall k | 0 <= k < |children|
      ensures PacksWell(children[k])
    {
      CleanPacksWell(children[k]);
    }
    PackCleanMap(l, children);
    PlainEntriesSorted(children);
    PlainEntriesPackWell(children);
    EntriesHeightMatches(children);
  }

  lemma PlainEntriesSorted(children: seq<Object>)
    requires ShapedEntries(children) && CleanEntries(children)
    ensures SortedByKey(PlainEntries(children))
  {
    hide Pack, Less, PlainEntries, Clean, Shaped, KeyBelow, Text;
    var entries := PlainEntries(children);
    PlainEntriesAt(children, 0);
    forall i, j | 0 <= i < j < |entries|
      ensures Less(entries[i].key, entries[j].key)
    {
      PlainEntriesAt(children, i);
      PlainEntriesAt(children, j);
      KeysIncrease(children, 2 * i, 2 * j);
      KeyBelowIsLess(children[2 * i], children[2 * j]);
    }
  }

  lemma KeysIncrease(children: seq<Object>, i: nat, j: nat)
    requires ShapedEntries(children) && CleanEntries(children)
    requires i < j < |children| && i % 2 == 0 && j % 2 == 0
    ensures KeyBelow(children[i], children[j])
  {
    hide KeyBelow, Shaped, Clean;
  }

  predicate AllPackWell(children: seq<Object>)
    requires ShapedEntries(children)
  {
    forall k | 0 <= k < |children| :: PacksWell(children[k])
  }

  lemma PlainEntryPacksWell(children: seq<Object>, i: nat)
    requires ShapedEntries(children) && AllPackWell(children) && 2 * i < |children|
    ensures i < |PlainEntries(children)| && EntryPacksWell(PlainEntries(children)[i])
  {
    hide Pack, PlainEntries, Shaped, Text, PacksWell, EntryPacksWell;
    PlainEntriesAt(children, i);
    OneEntryPacksWell(children[2 * i], children[2 * i + 1]);
  }

  lemma PlainEntriesPackWell(children: seq<Object>)
    requires ShapedEntries(children) && |children| / 2 < TWO_TO_THE_32 && AllPackWell(children)
    requires SortedByKey(PlainEntries(children))
    ensures Writable(Obj(PlainEntries(children))) && Ordered(Obj(PlainEntries(children)))
  {
    hide *;
    PlainEntriesAt(children, 0);
    var entries := PlainEntries(children);
    forall i | 0 <= i < |entries|
      ensures EntryPacksWell(entries[i])
    {
      PlainEntryPacksWell(children, i);
    }
    EntriesPackWell(entries);
  }

  predicate EntryPacksWell(p: Pair) {
    Writable(p.key) && Writable(p.value) && Ordered(p.key) && Ordered(p.value)
  }

  lemma OneEntryPacksWell(key: Object, value: Object)
    requires key.OStr? && Shaped(key) && Shaped(value) && PacksWell(key) && PacksWell(value)
    ensures EntryPacksWell(Pair(Str(Text(key)), Pack(value)))
  {
    hide Pack, Height, ObjectHeight, Writable, Ordered;
    KeyPacksWell(key);
  }

  lemma EntriesPackWell(entries: seq<Pair>)
    requires |entries| < TWO_TO_THE_32 && SortedByKey(entries)
    requires forall i | 0 <= i < |entries| :: EntryPacksWell(entries[i])
    ensures Writable(Obj(entries)) && Ordered(Obj(entries))
  {
    hide Less;
  }

  lemma KeyPacksWell(key: Object)
    requires key.OStr? && Shaped(key)
    ensures Writable(Str(Text(key))) && Ordered(Str(Text(key))) && Height(Str(Text(key))) == ObjectHeight(key)
  {
  }

  lemma {:induction false} EntriesHeightMatches(children: seq<Object>)
    requires ShapedEntries(children)
    requires AllPackWell(children)
    ensures HeightPairs(PlainEntries(children)) == ElementsHeight(children)
    decreases children
  {
    hide Pack, Shaped, Height, ObjectHeight, Writable, Ordered;
    if children != [] {
      var rest := children[2..];
      EntriesHeightMatches(rest);
      KeyPacksWell(children[0]);
      assert PacksWell(children[1]);
      assert PlainEntries(children)[1..] == PlainEntries(rest);
      assert children[1..][1..] == rest;
      assert ElementsHeight(children)
             == Max(ObjectHeight(children[0]), Max(ObjectHeight(children[1]), ElementsHeight(rest)));
    }
  }

  // ---- The two hashes agree ---------------------------------------------------------------------------------

  /** An integer hashes the same with the type it was stored in and the type it comes back with. */
  lemma IntHashesAgree(o: Object, hash: uint32)
    requires (o.OInt? || o.OUint?) && Shaped(o)
    ensures HashValue(Norm(Pack(o)), hash) == Some(HashStruct(o, hash))
  {
    hide HashU64;
  }

  lemma LeafHashesAgree(o: Object, hash: uint32)
    requires o.ONil? || o.OBool? || o.ODouble? || o.OStr?
    requires Shaped(o) && Clean(o)
    ensures HashValue(Norm(Pack(o)), hash) == Some(HashStruct(o, hash))
  {
    hide HashStr, HashNil, HashDouble, HashBool, CString;
    if o.OStr? { CStringIsText(o.str, o.l); }
  }

  lemma {:induction false} HashesAgree(o: Object, hash: uint32)
    requires Shaped(o) && Clean(o)
    ensures HashValue(Norm(Pack(o)), hash) == Some(HashStruct(o, hash))
    decreases o
  {
    if o.OInt? || o.OUint? {
      hide *;
      IntHashesAgree(o, hash);
    } else if o.OArray? {
      ArrayHashesAgree(o.l, o.children, hash);
    } else if o.OMap? {
      MapHashesAgree(o.l, o.children, hash);
    } else {
      hide *;
      LeafHashesAgree(o, hash);
    }
  }

  lemma {:induction false} ArrayHashesAgree(l: uint32, children: seq<Object>, hash: uint32)
    requires Shaped(OArray(l, children)) && Clean(OArray(l, children))
    ensures var o := OArray(l, children); HashValue(Norm(Pack(o)), hash) == Some(HashStruct(o, hash))
    decreases children, 1
  {
    hide HashU32, HashElements, HashItems, PackElements, NormItems;
    ElementHashesAgree(children, hash);
  }

  lemma {:induction false} MapHashesAgree(l: uint32, children: seq<Object>, hash: uint32)
    requires Shaped(OMap(l, children)) && Clean(OMap(l, children))
    ensures var o := OMap(l, children); HashValue(Norm(Pack(o)), hash) == Some(HashStruct(o, hash))
    decreases children, 1
  {
    hide HashU32, HashEntries, HashPairs, PlainEntries, PackEntries, NormPairs;
    PackCleanMap(l, children);
    EntryHashesAgree(children, hash);
    PlainEntriesAt(children, 0);
  }

  lemma {:induction false} ElementHashesAgree(children: seq<Object>, hash: uint32)
    requires forall k | 0 <= k < |children| :: Shaped(children[k]) && Clean(children[k])
    ensures HashItems(NormItems(PackElements(children)), hash) == Some(HashElements(children, hash))
    decreases children, 0
  {
    hide HashValue, HashStruct, Norm, Pack, Shaped, Clean;
    if children != [] {
      HashesAgree(children[0], hash);
      ElementHashesAgree(children[1..], HashStruct(children[0], hash));
      assert PackElements(children)[1..] == PackElements(children[1..]);
      assert NormItems(PackElements(children))[1..] == NormItems(PackElements(children)[1..]);
    }
  }

  lemma {:induction false} EntryHashesAgree(children: seq<Object>, hash: uint32)
    requires ShapedEntries(children)
    requires forall k | 0 <= k < |children| :: Clean(children[k])
    ensures HashPairs(NormPairs(PlainEntries(children)), hash) == Some(HashEntries(children, hash))
    decreases children, 0
  {
    hide HashValue, HashStruct, Norm, Pack, Shaped, Clean, HashStr, Text;
    if children != [] {
      var key, value, rest := children[0], children[1], children[2..];
      var entry := Pair(Str(Text(key)), Pack(value));
      var h := HashStr(hash, Text(key));
      HashesAgree(value, h);
      NormOfEntry(Text(key), Pack(value));
      EntryHashesAgree(rest, HashStruct(value, h));
      assert PlainEntries(children) == [entry] + PlainEntries(rest);
      assert NormPairs(PlainEntries(children))[1..] == NormPairs(PlainEntries(rest));
    }
  }

  lemma NormOfEntry(text: seq<byte>, value: Value)
    ensures NormPair(Pair(Str(text), value)) == Pair(Str(text), Norm(value))
  {
  }

  /** From the struct tree through pack, dump, parse to the hash of what was parsed: the hash is the one computed on the
      structs, whatever it starts from, although the integers come back with other types. */
  lemma HashSurvivesTheWire(o: Object, hash: uint32)
    requires Shaped(o) && Clean(o) && ObjectHeight(o) <= MAX_LEVELS
    ensures var s := Encode(Pack(o)); var r := Codec.ParseAll(s);
            && r.Ok? && r.next == |s|
            && HashValue(r.value, hash) == Some(HashStruct(o, hash))
  {
    hide Parse, Encode, Norm, Pack, HashValue, HashStruct, Writable, Ordered, Height, ObjectHeight, Shaped, Clean,
         Equals;
    CleanPacksWell(o);
    DumpThenParse(Pack(o), []);
    assert Encode(Pack(o)) + [] == Encode(Pack(o));
    HashesAgree(o, hash);
  }
}
