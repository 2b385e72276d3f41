/** The benchmark's object_t as a tree, and its reference hash. */
module BenchObject {
  import opened Bytes
  import opened Values
  import opened Hashing

  /** object_t by its type: `l` is the length field; `str` is the memory from the string pointer on; `children` is the
      memory behind the children pointer, in which a map stores keys and values alternately. */
  datatype Object =
    | ONil
    | OBool(b: bool)
    | ODouble(bits: uint64)
    | OInt(i: int)
    | OUint(u: uint64)
    | OStr(l: uint32, str: seq<byte>)
    | OArray(l: uint32, children: seq<Object>)
    | OMap(l: uint32, children: seq<Object>)

  /** The memory an object refers to is as large as its length fields say. A map has fewer than 2^31 entries, as its
      32-bit child index must not wrap. */
  predicate Shaped(o: Object) {
    match o
    case OInt(i) => IntKind.I64.Holds(i)
    case OStr(l, str) => l < |str|
    case OArray(l, children) => |children| == l && forall k | 0 <= k < |children| :: Shaped(children[k])
    case OMap(l, children) =>
      && |children| == 2 * l
      && l < 0x8000_0000
      && forall k | 0 <= k < |children| :: Shaped(children[k]) && (k % 2 == 0 ==> children[k].OStr?)
    case _ => true
  }

  /** The memory an object refers to is what its length fields say, and 32-bit length arithmetic does not wrap. */
  predicate Exact(o: Object) {
    match o
    case OStr(l, str) => |str| == l + 1 && l + 1 < TWO_TO_THE_32
    case OArray(l, children) => |children| == l && forall k | 0 <= k < |children| :: Exact(children[k])
    case OMap(l, children) =>
      && |children| == 2 * l
      && l < 0x8000_0000
      && forall k | 0 <= k < |children| :: Exact(children[k])
    case _ => true
  }

  predicate ExactAll(children: seq<Object>) {
    forall k | 0 <= k < |children| :: Exact(children[k])
  }

  /** The string of an OStr by its length field. */
  function Text(o: Object): (s: seq<byte>)
    requires o.OStr? && Shaped(o)
  {
    o.str[..o.l]
  }

  // ---- hash_object over the structs -----------------------------------------------------------------

  function HashStruct(o: Object, hash: uint32): (h: uint32)
    requires Shaped(o)
    decreases o
  {
    match o
    case ONil => HashNil(hash)
    case OBool(b) => HashBool(hash, b)
    case ODouble(_) => HashDouble(hash)
    case OInt(i) => HashI64(hash, i)
    case OUint(u) => HashU64(hash, u)
    case OStr(l, str) => HashStr(hash, str[..l])
    case OArray(l, children) => HashU32(HashElements(children, hash), l)
    case OMap(l, children) => HashU32(HashEntries(children, hash), l)
  }

  function HashElements(children: seq<Object>, hash: uint32): (h: uint32)
    requires forall k | 0 <= k < |children| :: Shaped(children[k])
    decreases children
  {
    if children == [] then hash else HashElements(children[1..], HashStruct(children[0], hash))
  }

  predicate ShapedEntries(children: seq<Object>) {
    && |children| % 2 == 0
    && forall k | 0 <= k < |children| :: Shaped(children[k]) && (k % 2 == 0 ==> children[k].OStr?)
  }

  function HashEntries(children: seq<Object>, hash: uint32): (h: uint32)
    requires ShapedEntries(children)
    decreases children
  {
    if children == [] then hash
    else
      var key, value, rest := children[0], children[1], children[2..];
      HashEntries(rest, HashStruct(value, HashStr(hash, Text(key))))
  }

  /** The 32-bit accumulator behind the uint32_t* parameter. */
  class Accumulator {
    var hash: uint32

    constructor (h: uint32)
      ensures hash == h
    {
      hash := h;
    }
  }

  /** hash_object: the recursive walk that updates *hash. */
  method HashObject(o: Object, acc: Accumulator)
    requires Shaped(o)
    modifies acc
    ensures acc.hash == HashStruct(o, old(acc.hash))
    decreases o
  {
    hide HashU32, HashU64, HashI64, HashStr, HashNil, HashDouble, HashBool;
    match o
    case ONil => acc.hash := HashNil(acc.hash);
    case OBool(b) => acc.hash := HashBool(acc.hash, b);
    case ODouble(_) => acc.hash := HashDouble(acc.hash);
    case OInt(i) => acc.hash := HashI64(acc.hash, i);
    case OUint(u) => acc.hash := HashU64(acc.hash, u);
    case OStr(l, str) => acc.hash := HashStrLoop(acc.hash, str[..l]);
    case OArray(count, children) => HashArray(count, children, acc);
    case OMap(count, children) => HashMap(count, children, acc);
  }

  method HashArray(count: uint32, children: seq<Object>, acc: Accumulator)
    requires Shaped(OArray(count, children))
    modifies acc
    ensures acc.hash == HashStruct(OArray(count, children), old(acc.hash))
    decreases children
  {
    hide HashU32, HashStruct, Shaped;
    ArrayShape(count, children, acc.hash);
    var i := 0;
    while i < count
      invariant 0 <= i <= count
      invariant HashElements(children, old(acc.hash)) == HashElements(children[i..], acc.hash)
    {
      HashObject(children[i], acc);
      assert children[i..][1..] == children[i + 1..];
      i := i + 1;
    }
    acc.hash := HashU32(acc.hash, count);
  }

  lemma ArrayShape(count: uint32, children: seq<Object>, hash: uint32)
    requires Shaped(OArray(count, children))
    ensures |children| == count && forall k | 0 <= k < |children| :: Shaped(children[k])
    ensures HashStruct(OArray(count, children), hash) == HashU32(HashElements(children, hash), count)
  {
    hide HashU32;
  }

  method HashMap(count: uint32, children: seq<Object>, acc: Accumulator)
    requires Shaped(OMap(count, children))
    modifies acc
    ensures acc.hash == HashStruct(OMap(count, children), old(acc.hash))
    decreases children
  {
    hide HashU32, HashStruct, Shaped, HashStr;
    MapShape(count, children, acc.hash);
    var i := 0;
    while i < count
      invariant 0 <= i <= count
      invariant ShapedEntries(children[2 * i..])
      invariant HashEntries(children, old(acc.hash)) == HashEntries(children[2 * i..], acc.hash)
    {
      var rest := children[2 * i..];
      var key := children[i * 2];
      assert rest[0] == key && rest[1] == children[i * 2 + 1];
      assert rest[2..] == children[2 * (i + 1)..];
      KeyShape(key);
      acc.hash := HashStrLoop(acc.hash, key.str[..key.l]);
      HashObject(children[i * 2 + 1], acc);
      i := i + 1;
    }
    acc.hash := HashU32(acc.hash, count);
  }

  lemma KeyShape(key: Object)
    requires key.OStr? && Shaped(key)
    ensures key.l < |key.str|
  {
  }

  lemma MapShape(count: uint32, children: seq<Object>, hash: uint32)
    requires Shaped(OMap(count, children))
    ensures |children| == 2 * count && ShapedEntries(children)
    ensures HashStruct(OMap(count, children), hash) == HashU32(HashEntries(children, hash), count)
  {
    hide HashU32;
  }
}
