/** MessagePack values: the class hierarchy under MsgPackValue as one datatype. */
module Values {
  import opened Bytes

  type int8 = n: int | -0x80 <= n < 0x80
  type uint32 = n: int | 0 <= n < TWO_TO_THE_32
  type uint64 = n: int | 0 <= n < TWO_TO_THE_64

  datatype IntKind = I8 | I16 | I32 | I64 | U8 | U16 | U32 | U64 {

    predicate IsSigned() {
      I8? || I16? || I32? || I64?
    }

    /** sizeof of the C++ type. */
    function Width(): (w: nat) {
      match this
      case I8 | U8 => 1
      case I16 | U16 => 2
      case I32 | U32 => 4
      case I64 | U64 => 8
    }

    function Min(): int {
      match this
      case I8 => -0x80
      case I16 => -0x8000
      case I32 => -0x8000_0000
      case I64 => -0x8000_0000_0000_0000
      case _ => 0
    }

    function Max(): int {
      match this
      case I8 => 0x7f
      case I16 => 0x7fff
      case I32 => 0x7fff_ffff
      case I64 => 0x7fff_ffff_ffff_ffff
      case U8 => 0xff
      case U16 => 0xffff
      case U32 => 0xffff_ffff
      case U64 => 0xffff_ffff_ffff_ffff
    }

    /** 2 to the number of bits of the C++ type. */
    function Modulus(): (m: nat)
      ensures m == Pow256(Width())
    {
      Pow256Values();
      match Width()
      case 1 => 0x100
      case 2 => 0x1_0000
      case 4 => 0x1_0000_0000
      case _ => 0x1_0000_0000_0000_0000
    }

    predicate Holds(n: int) {
      Min() <= n <= Max()
    }
  }

  /** An Obj lists the entries of its std::map in iteration order; floats are their IEEE 754 bits. */
  datatype Value =
    | Null
    | Bool(b: bool)
    | Int(kind: IntKind, n: int)
    | F32(bits32: uint32)
    | F64(bits64: uint64)
    | Str(str: seq<byte>)
    | Bin(data: seq<byte>)
    | Arr(items: seq<Value>)
    | Obj(entries: seq<Pair>)
    | Ext(tag: int8, payload: seq<byte>)

  datatype Pair = Pair(key: Value, value: Value)

  predicate IsNumber(v: Value) {
    v.Int? || v.F32? || v.F64?
  }

  /** Every integer fits the C++ type it is stored in. */
  predicate Typed(v: Value) {
    match v
    case Int(kind, n) => kind.Holds(n)
    case Arr(items) => forall i | 0 <= i < |items| :: Typed(items[i])
    case Obj(entries) => forall i | 0 <= i < |entries| :: Typed(entries[i].key) && Typed(entries[i].value)
    case _ => true
  }

  /** Every length fits the 32-bit length field of the wire format; longer values make dump throw. */
  predicate Short(v: Value) {
    match v
    case Str(s) => |s| < TWO_TO_THE_32
    case Bin(s) => |s| < TWO_TO_THE_32
    case Ext(_, s) => |s| < TWO_TO_THE_32
    case Arr(items) => |items| < TWO_TO_THE_32 && forall i | 0 <= i < |items| :: Short(items[i])
    case Obj(entries) =>
      && |entries| < TWO_TO_THE_32
      && forall i | 0 <= i < |entries| :: Short(entries[i].key) && Short(entries[i].value)
    case _ => true
  }

  /** How many levels of nesting a value needs: 1 for a leaf or an empty container. */
  function Height(v: Value): (h: nat)
    ensures h >= 1
  {
    match v
    case Arr(items) => 1 + HeightItems(items)
    case Obj(entries) => 1 + HeightPairs(entries)
    case _ => 1
  }

  function HeightItems(items: seq<Value>): nat {
    if items == [] then 0 else Max(Height(items[0]), HeightItems(items[1..]))
  }

  function HeightPairs(entries: seq<Pair>): nat {
    if entries == [] then 0
    else Max(HeightPair(entries[0]), HeightPairs(entries[1..]))
  }

  function HeightPair(p: Pair): nat {
    Max(Height(p.key), Height(p.value))
  }

  function Max(a: nat, b: nat): nat {
    if a < b then b else a
  }

  /** Nodes of a value, the measure of the recursions that visit two values at once. */
  function Size(v: Value): (n: nat)
    ensures n >= 1
  {
    match v
    case Arr(items) => 1 + SizeItems(items)
    case Obj(entries) => 1 + SizePairs(entries)
    case _ => 1
  }

  function SizeItems(items: seq<Value>): nat {
    if items == [] then 0 else Size(items[0]) + SizeItems(items[1..])
  }

  function SizePairs(entries: seq<Pair>): nat {
    if entries == [] then 0 else SizePair(entries[0]) + SizePairs(entries[1..])
  }

  function SizePair(p: Pair): (n: nat)
    ensures n >= 2
  {
    Size(p.key) + Size(p.value)
  }

  // ---- Entries as the wire lists them: key, value, key, value, ... -----------------------

  function Flatten(entries: seq<Pair>): (items: seq<Value>)
    ensures |items| == 2 * |entries|
    ensures forall i | 0 <= i < |entries| :: items[2 * i] == entries[i].key && items[2 * i + 1] == entries[i].value
  {
    if entries == [] then [] else [entries[0].key, entries[0].value] + Flatten(entries[1..])
  }

  function MakePairs(items: seq<Value>): (entries: seq<Pair>)
    requires |items| % 2 == 0
    ensures |entries| == |items| / 2
  {
    seq(|items| / 2, i requires 0 <= i < |items| / 2 => Pair(items[2 * i], items[2 * i + 1]))
  }

  lemma MakePairsOfFlatten(entries: seq<Pair>)
    ensures MakePairs(Flatten(entries)) == entries
  {
  }

  lemma FlattenOfMakePairs(items: seq<Value>)
    requires |items| % 2 == 0
    ensures Flatten(MakePairs(items)) == items
  {
    var flat := Flatten(MakePairs(items));
    forall i | 0 <= i < |items|
      ensures flat[i] == items[i]
    {
      assert MakePairs(items)[i / 2] == Pair(items[2 * (i / 2)], items[2 * (i / 2) + 1]);
      assert i == 2 * (i / 2) || i == 2 * (i / 2) + 1;
    }
  }

  lemma {:induction false} SizeOfFlatten(entries: seq<Pair>)
    ensures SizeItems(Flatten(entries)) == SizePairs(entries)
    ensures HeightItems(Flatten(entries)) == HeightPairs(entries)
  {
    if entries != [] {
      SizeOfFlatten(entries[1..]);
      var flat := Flatten(entries);
      assert flat[1..][1..] == Flatten(entries[1..]);
      assert flat[1..][0] == entries[0].value;
    }
  }
}
