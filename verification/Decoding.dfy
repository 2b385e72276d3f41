/** What parse makes of a byte string: a recursive-descent reading from a position, with a bound on nesting. */
module Decoding {
  import opened Bits
  import opened Bytes
  import opened Values
  import opened Encoding
  import opened Formats
  import opened Maps

  /** A value and the position after it; or where reading stopped and whether the end of the data was the reason. */
  datatype Result = Ok(value: Value, next: nat) | Err(eof: bool, at: nat)

  datatype ItemsResult = Items(items: seq<Value>, next: nat) | Stopped(eof: bool, at: nat)

  /** The number in the `width` bytes at p, most significant first. */
  function NumberAt(s: seq<byte>, p: nat, width: nat): (n: nat)
    requires p + width <= |s|
    ensures n < Pow256(width)
  {
    BigEndianOfFromBigEndian(s[p..p + width]);
    FromBigEndian(s[p..p + width])
  }

  function ToInt8(b: byte): int8 {
    if b < 0x80 then b else b - 0x100
  }

  /** parse_msgpack at position p; `levels` counts how many levels of values may still be opened. */
  function Parse(s: seq<byte>, p: nat, levels: nat): (r: Result)
    requires p <= |s|
    ensures r.Ok? ==> p < r.next <= |s|
    ensures r.Err? ==> p <= r.at <= |s|
    decreases levels, 0, 0
  {
    if levels == 0 then Err(false, p)
    else if p == |s| then Err(true, p)
    else ParseBody(s, p + 1, s[p], levels - 1)
  }

  /** What follows the first byte: the number field of the format, if it has one, then the payload. */
  function ParseBody(s: seq<byte>, p: nat, first: byte, levels: nat): (r: Result)
    requires p <= |s|
    ensures r.Ok? ==> p <= r.next <= |s|
    ensures r.Err? ==> p <= r.at <= |s|
    decreases levels, 4, 0
  {
    var w := FieldWidth(FormatOf(first));
    if p + w <= |s| then ParsePayload(s, p + w, first, NumberAt(s, p, w), levels) else Err(true, |s|)
  }

  function ParsePayload(s: seq<byte>, p: nat, first: byte, n: nat, levels: nat): (r: Result)
    requires p <= |s| && n < Pow256(FieldWidth(FormatOf(first)))
    ensures r.Ok? ==> p <= r.next <= |s|
    ensures r.Err? ==> p <= r.at <= |s|
    decreases levels, 3, 0
  {
    match FormatOf(first)
    case PosFixint => Ok(Int(U8, first), p)
    case NegFixint => Ok(Int(I8, first - 0x100), p)
    case Nil => Ok(Null, p)
    case Invalid => Err(false, p)
    case Boolean => Ok(Bool(first == 0xc3), p)
    case Float => Pow256Values(); Ok(F32(n), p)
    case Double => Pow256Values(); Ok(F64(n), p)
    case Arith(kind) => Ok(Int(kind, FromRaw(kind, n)), p)
    case FixString => ParseString(s, p, first % 32)
    case String(_) => ParseString(s, p, n)
    case Binary(_) => ParseBinary(s, p, n)
    case FixExt => ParseExt(s, p, Pow2(first - 0xd4))
    case Extension(_) => ParseExt(s, p, n)
    case FixArray => ParseArray(s, p, first % 16, levels)
    case Array(_) => ParseArray(s, p, n, levels)
    case FixObject => ParseObject(s, p, first % 16, levels)
    case Object(_) => ParseObject(s, p, n, levels)
  }

  function ParseString(s: seq<byte>, p: nat, len: nat): (r: Result)
    requires p <= |s|
    ensures r.Ok? ==> p <= r.next <= |s|
    ensures r.Err? ==> p <= r.at <= |s|
  {
    if p + len <= |s| then Ok(Str(s[p..p + len]), p + len) else Err(true, |s|)
  }

  function ParseBinary(s: seq<byte>, p: nat, len: nat): (r: Result)
    requires p <= |s|
    ensures r.Ok? ==> p <= r.next <= |s|
    ensures r.Err? ==> p <= r.at <= |s|
  {
    if p + len <= |s| then Ok(Bin(s[p..p + len]), p + len) else Err(true, |s|)
  }

  function ParseExt(s: seq<byte>, p: nat, len: nat): (r: Result)
    requires p <= |s|
    ensures r.Ok? ==> p <= r.next <= |s|
    ensures r.Err? ==> p <= r.at <= |s|
  {
    if p + 1 + len <= |s| then Ok(Ext(ToInt8(s[p]), s[p + 1..p + 1 + len]), p + 1 + len) else Err(true, |s|)
  }

  function ParseArray(s: seq<byte>, p: nat, count: nat, levels: nat): (r: Result)
    requires p <= |s|
    ensures r.Ok? ==> p <= r.next <= |s|
    ensures r.Err? ==> p <= r.at <= |s|
    decreases levels, 2, 0
  {
    match ParseItems(s, p, count, levels)
    case Items(items, q) => Ok(Arr(items), q)
    case Stopped(eof, at) => Err(eof, at)
  }

  function ParseObject(s: seq<byte>, p: nat, count: nat, levels: nat): (r: Result)
    requires p <= |s|
    ensures r.Ok? ==> p <= r.next <= |s|
    ensures r.Err? ==> p <= r.at <= |s|
    decreases levels, 2, 0
  {
    match ParseItems(s, p, 2 * count, levels)
    case Items(items, q) => Ok(Obj(BuildMap(MakePairs(items))), q)
    case Stopped(eof, at) => Err(eof, at)
  }

  /** `count` values one after the other; the first failure stops the reading for good. */
  function ParseItems(s: seq<byte>, p: nat, count: nat, levels: nat): (r: ItemsResult)
    requires p <= |s|
    ensures r.Items? ==> p <= r.next <= |s| && |r.items| == count
    ensures r.Stopped? ==> p <= r.at <= |s|
    decreases levels, 1, count
  {
    if count == 0 then Items([], p)
    else
      match Parse(s, p, levels)
      case Err(eof, at) => Stopped(eof, at)
      case Ok(v, q) =>
        match ParseItems(s, q, count - 1, levels)
        case Stopped(eof, at) => Stopped(eof, at)
        case Items(rest, next) => Items([v] + rest, next)
  }
}
