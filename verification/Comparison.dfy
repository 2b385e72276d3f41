/** operator== and operator< of MsgPack, as the virtual `equals` and `less` of the value classes compute them. */
module Comparison {
  import opened Bytes
  import opened Ieee754
  import opened Values

  const INT64_MAX := 0x7fff_ffff_ffff_ffff

  /** The enumerators of MsgPack::Type; their numbers order values of different types. */
  function Tag(v: Value): int {
    match v
    case Null => 4
    case F32(_) => 9
    case F64(_) => 13
    case Int(I8, _) => 19
    case Int(I16, _) => 23
    case Int(I32, _) => 27
    case Int(I64, _) => 31
    case Int(U8, _) => 35
    case Int(U16, _) => 39
    case Int(U32, _) => 43
    case Int(U64, _) => 47
    case Bool(_) => 48
    case Str(_) => 52
    case Bin(_) => 56
    case Arr(_) => 60
    case Obj(_) => 64
    case Ext(_, _) => 68
  }

  /** float64_value() of a number. */
  function Float64Value(v: Value): Num
    requires IsNumber(v)
  {
    match v
    case Int(_, n) => IntToDouble(n)
    case F32(bits) => Float32(bits)
    case F64(bits) => Float64(bits)
  }

  /** Conversions between the 64-bit types, modulo 2^64. */
  function ToUint64(n: int): int {
    n % TWO_TO_THE_64
  }

  function ToInt64(u: int): int {
    if u <= INT64_MAX then u else u - TWO_TO_THE_64
  }

  predicate EqualUint64Int64(u: int, i: int) {
    0 <= i && u <= INT64_MAX && u == ToUint64(i)
  }

  predicate LessUint64Int64(u: int, i: int) {
    0 <= i && u <= INT64_MAX && u < ToUint64(i)
  }

  predicate LessInt64Uint64(i: int, u: int) {
    i < 0 || INT64_MAX < u || ToUint64(i) < u
  }

  // ---- operator== ----------------------------------------------------------------------

  predicate Equals(a: Value, b: Value)
    decreases a
  {
    match a
    case Int(I64, n) =>
      if b.Int? && b.kind.I64? then n == b.n
      else if b.Int? && b.kind.U64? then EqualUint64Int64(b.n, n)
      else NumberEquals(a, b)
    case Int(U64, n) =>
      if b.Int? && b.kind.I64? then EqualUint64Int64(n, b.n)
      else if b.Int? && b.kind.U64? then n == b.n
      else NumberEquals(a, b)
    case Int(_, _) => NumberEquals(a, b)
    case F32(_) => NumberEquals(a, b)
    case F64(_) => NumberEquals(a, b)
    case Null => b.Null?
    case Bool(x) => b.Bool? && x == b.b
    case Str(s) => b.Str? && s == b.str
    case Bin(s) => b.Bin? && s == b.data
    case Arr(items) => b.Arr? && ItemsEqual(items, b.items)
    case Obj(entries) => b.Obj? && PairsEqual(entries, b.entries)
    case Ext(tag, s) => b.Ext? && tag == b.tag && s == b.payload
  }

  predicate NumberEquals(a: Value, b: Value)
    requires IsNumber(a)
  {
    IsNumber(b) && Same(Float64Value(a), Float64Value(b))
  }

  predicate ItemsEqual(xs: seq<Value>, ys: seq<Value>)
    decreases xs
  {
    |xs| == |ys| && (xs == [] || (Equals(xs[0], ys[0]) && ItemsEqual(xs[1..], ys[1..])))
  }

  predicate PairsEqual(ps: seq<Pair>, qs: seq<Pair>)
    decreases ps
  {
    |ps| == |qs| && (ps == [] || (PairEquals(ps[0], qs[0]) && PairsEqual(ps[1..], qs[1..])))
  }

  predicate PairEquals(p: Pair, q: Pair)
    decreases p
  {
    Equals(p.key, q.key) && Equals(p.value, q.value)
  }

  // ---- operator< -----------------------------------------------------------------------

  predicate Less(a: Value, b: Value)
    decreases Size(a) + Size(b), 0
  {
    match a
    case Int(I64, n) =>
      if b.Int? && b.kind.I64? then n < b.n
      else if b.Int? && b.kind.U64? then LessInt64Uint64(n, b.n)
      else NumberLess(a, b)
    case Int(U64, n) =>
      // the argument is the other side's uint64_value() and becomes an int64_t again on the call
      if b.Int? && b.kind.I64? then LessUint64Int64(n, ToInt64(ToUint64(b.n)))
      else if b.Int? && b.kind.U64? then n < b.n
      else NumberLess(a, b)
    case Int(_, _) => NumberLess(a, b)
    case F32(_) => NumberLess(a, b)
    case F64(_) => NumberLess(a, b)
    case Null => Tag(a) < Tag(b)
    case Bool(x) => Tag(a) < Tag(b) || (b.Bool? && !x && b.b)
    case Str(s) => Tag(a) < Tag(b) || (b.Str? && BytesLess(s, b.str))
    case Bin(s) => Tag(a) < Tag(b) || (b.Bin? && BytesLess(s, b.data))
    case Arr(items) => Tag(a) < Tag(b) || (b.Arr? && ItemsLess(items, b.items))
    case Obj(entries) => Tag(a) < Tag(b) || (b.Obj? && PairsLess(entries, b.entries))
    case Ext(tag, s) =>
      Tag(a) < Tag(b) || (b.Ext? && (tag < b.tag || (!(b.tag < tag) && BytesLess(s, b.payload))))
  }

  predicate NumberLess(a: Value, b: Value)
    requires IsNumber(a)
  {
    if IsNumber(b) then Below(Float64Value(a), Float64Value(b)) else Tag(a) < Tag(b)
  }

  /** Lexicographic order of unsigned bytes. */
  predicate BytesLess(s: seq<byte>, t: seq<byte>) {
    if s == [] || t == [] then s == [] && t != []
    else s[0] < t[0] || (!(t[0] < s[0]) && BytesLess(s[1..], t[1..]))
  }

  predicate ItemsLess(xs: seq<Value>, ys: seq<Value>)
    decreases SizeItems(xs) + SizeItems(ys), 1
  {
    if xs == [] || ys == [] then xs == [] && ys != []
    else Less(xs[0], ys[0]) || (!Less(ys[0], xs[0]) && ItemsLess(xs[1..], ys[1..]))
  }

  predicate PairsLess(ps: seq<Pair>, qs: seq<Pair>)
    decreases SizePairs(ps) + SizePairs(qs), 2
  {
    if ps == [] || qs == [] then ps == [] && qs != []
    else PairLess(ps[0], qs[0]) || (!PairLess(qs[0], ps[0]) && PairsLess(ps[1..], qs[1..]))
  }

  /** operator< of std::pair. */
  predicate PairLess(p: Pair, q: Pair)
    decreases SizePair(p) + SizePair(q), 1
  {
    Less(p.key, q.key) || (!Less(q.key, p.key) && Less(p.value, q.value))
  }

  /** Neither is below the other: a std::map takes them for the same key. */
  predicate Tied(a: Value, b: Value) {
    !Less(a, b) && !Less(b, a)
  }

  /** The iteration order of a std::map: every key strictly below the ones after it. */
  predicate SortedByKey(entries: seq<Pair>) {
    forall i, j | 0 <= i < j < |entries| :: Less(entries[i].key, entries[j].key)
  }

  /** Every map inside the value is in iteration order. */
  predicate Ordered(v: Value) {
    match v
    case Arr(items) => forall i | 0 <= i < |items| :: Ordered(items[i])
    case Obj(entries) =>
      && SortedByKey(entries)
      && forall i | 0 <= i < |entries| :: Ordered(entries[i].key) && Ordered(entries[i].value)
    case _ => true
  }
}
