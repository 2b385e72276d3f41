/** The bytes dump writes, as a function of the value. */
module Encoding {
  import opened Bytes
  import opened Values

  /** The narrowest type for an integer, as both dump and parse choose it: unsigned from zero up, signed below. */
  function MinimalKind(n: int): (kind: IntKind) {
    if n >= 0 then
      if n <= 0xff then U8 else if n <= 0xffff then U16 else if n <= 0xffff_ffff then U32 else U64
    else
      if n >= -0x80 then I8 else if n >= -0x8000 then I16 else if n >= -0x8000_0000 then I32 else I64
  }

  function Marker(kind: IntKind): byte {
    match kind
    case U8 => 0xcc
    case U16 => 0xcd
    case U32 => 0xce
    case U64 => 0xcf
    case I8 => 0xd0
    case I16 => 0xd1
    case I32 => 0xd2
    case I64 => 0xd3
  }

  /** The bits of an integer in `kind`, negative numbers in two's complement. */
  function ToRaw(kind: IntKind, n: int): (raw: nat) {
    n % kind.Modulus()
  }

  function FromRaw(kind: IntKind, raw: nat): int {
    if kind.IsSigned() && raw > kind.Max() then raw - kind.Modulus() else raw
  }

  lemma FromRawOfToRaw(kind: IntKind, n: int)
    requires kind.Holds(n)
    ensures FromRaw(kind, ToRaw(kind, n)) == n
    ensures ToRaw(kind, n) < kind.Modulus()
  {
  }

  function EncodeInt(n: int): (s: seq<byte>) {
    if -32 <= n < 128 then [n % 256]
    else
      var kind := MinimalKind(n);
      [Marker(kind)] + BigEndian(ToRaw(kind, n), kind.Width())
  }

  function StrHeader(len: nat): (s: seq<byte>) {
    if len <= 0x1f then [0xa0 + len]
    else if len <= 0xff then [0xd9] + BigEndian(len, 1)
    else if len <= 0xffff then [0xda] + BigEndian(len, 2)
    else [0xdb] + BigEndian(len, 4)
  }

  function BinHeader(len: nat): (s: seq<byte>) {
    if len <= 0xff then [0xc4] + BigEndian(len, 1)
    else if len <= 0xffff then [0xc5] + BigEndian(len, 2)
    else [0xc6] + BigEndian(len, 4)
  }

  function ArrHeader(len: nat): (s: seq<byte>) {
    if len <= 15 then [0x90 + len]
    else if len <= 0xffff then [0xdc] + BigEndian(len, 2)
    else [0xdd] + BigEndian(len, 4)
  }

  function ObjHeader(len: nat): (s: seq<byte>) {
    if len <= 15 then [0x80 + len]
    else if len <= 0xffff then [0xde] + BigEndian(len, 2)
    else [0xdf] + BigEndian(len, 4)
  }

  function ExtHeader(len: nat): (s: seq<byte>) {
    if len == 1 then [0xd4]
    else if len == 2 then [0xd5]
    else if len == 4 then [0xd6]
    else if len == 8 then [0xd7]
    else if len == 16 then [0xd8]
    else if len <= 0xff then [0xc7] + BigEndian(len, 1)
    else if len <= 0xffff then [0xc8] + BigEndian(len, 2)
    else [0xc9] + BigEndian(len, 4)
  }

  /** The wire form of a value whose lengths all fit 32 bits. */
  function Encode(v: Value): (s: seq<byte>)
    decreases v
  {
    match v
    case Null => [0xc0]
    case Bool(b) => [if b then 0xc3 else 0xc2]
    case Int(_, n) => EncodeInt(n)
    case F32(bits) => [0xca] + BigEndian(bits, 4)
    case F64(bits) => [0xcb] + BigEndian(bits, 8)
    case Str(str) => StrHeader(|str|) + str
    case Bin(data) => BinHeader(|data|) + data
    case Arr(items) => ArrHeader(|items|) + EncodeItems(items)
    case Obj(entries) => ObjHeader(|entries|) + EncodePairs(entries)
    case Ext(tag, payload) => ExtHeader(|payload|) + ([tag % 256] + payload)
  }

  function EncodeItems(items: seq<Value>): (s: seq<byte>)
    decreases items
  {
    if items == [] then [] else Encode(items[0]) + EncodeItems(items[1..])
  }

  function EncodePairs(entries: seq<Pair>): (s: seq<byte>)
    decreases entries
  {
    if entries == [] then [] else EncodePair(entries[0]) + EncodePairs(entries[1..])
  }

  function EncodePair(p: Pair): (s: seq<byte>)
    decreases p
  {
    Encode(p.key) + Encode(p.value)
  }

  /** Where an integer is one byte or which marker it gets: unsigned formats from 128 up, signed ones below -32. */
  lemma FirstByteOfInt(n: int)
    requires -0x8000_0000_0000_0000 <= n < 0x1_0000_0000_0000_0000
    ensures EncodeInt(n)[0] ==
              if n >= 0 then
                if n < 0x80 then n
                else if n < 0x100 then 0xcc
                else if n < 0x1_0000 then 0xcd
                else if n < 0x1_0000_0000 then 0xce else 0xcf
              else
                if n >= -0x20 then 0x100 + n
                else if n >= -0x80 then 0xd0
                else if n >= -0x8000 then 0xd1
                else if n >= -0x8000_0000 then 0xd2 else 0xd3
    ensures |EncodeInt(n)| == if -0x20 <= n < 0x80 then 1
                              else if -0x80 <= n < 0x100 then 2
                              else if -0x8000 <= n < 0x1_0000 then 3
                              else if -0x8000_0000 <= n < 0x1_0000_0000 then 5 else 9
  {
    hide BigEndian, Pow256;
  }

  /** A map writes its entries as the list key, value, key, value, ... */
  lemma {:induction false} EncodePairsIsFlat(entries: seq<Pair>)
    ensures EncodePairs(entries) == EncodeItems(Flatten(entries))
  {
    if entries != [] {
      var flat := Flatten(entries);
      EncodePairsIsFlat(entries[1..]);
      assert flat[0] == entries[0].key && flat[1..][0] == entries[0].value;
      assert flat[1..][1..] == Flatten(entries[1..]);
      assert EncodeItems(flat) == Encode(flat[0]) + (Encode(flat[1]) + EncodeItems(flat[2..]));
    }
  }

  // ---- The value as it comes back: integers retyped to their narrowest kind -----------------

  function Norm(v: Value): (r: Value)
    decreases v
  {
    match v
    case Int(_, n) => Int(MinimalKind(n), n)
    case Arr(items) => Arr(NormItems(items))
    case Obj(entries) => Obj(NormPairs(entries))
    case _ => v
  }

  function NormItems(items: seq<Value>): (r: seq<Value>)
    ensures |r| == |items|
    ensures forall i | 0 <= i < |items| :: r[i] == Norm(items[i])
    decreases items
  {
    if items == [] then [] else [Norm(items[0])] + NormItems(items[1..])
  }

  function NormPairs(entries: seq<Pair>): (r: seq<Pair>)
    ensures |r| == |entries|
    ensures forall i | 0 <= i < |entries| :: r[i] == NormPair(entries[i])
    decreases entries
  {
    if entries == [] then [] else [NormPair(entries[0])] + NormPairs(entries[1..])
  }

  function NormPair(p: Pair): (r: Pair)
    decreases p
  {
    Pair(Norm(p.key), Norm(p.value))
  }

  lemma NormPairsIsFlat(entries: seq<Pair>)
    ensures Flatten(NormPairs(entries)) == NormItems(Flatten(entries))
  {
    hide Norm, NormItems, NormPairs, Flatten;
    var flat, normed := Flatten(entries), Flatten(NormPairs(entries));
    forall i | 0 <= i < |flat|
      ensures normed[i] == Norm(flat[i])
    {
      var k := i / 2;
      assert i == 2 * k || i == 2 * k + 1;
      assert flat[2 * k] == entries[k].key && flat[2 * k + 1] == entries[k].value;
      assert NormPairs(entries)[k] == NormPair(entries[k]);
    }
  }

  /** Retyping the integers does not change a single byte. */
  lemma {:induction false} EncodeOfNorm(v: Value)
    ensures Encode(Norm(v)) == Encode(v)
    decreases v
  {
    match v
    case Arr(items) => EncodeItemsOfNorm(items);
    case Obj(entries) => EncodePairsOfNorm(entries);
    case _ =>
  }

  lemma {:induction false} EncodeItemsOfNorm(items: seq<Value>)
    ensures EncodeItems(NormItems(items)) == EncodeItems(items)
    decreases items
  {
    if items != [] {
      EncodeOfNorm(items[0]);
      EncodeItemsOfNorm(items[1..]);
    }
  }

  lemma {:induction false} EncodePairsOfNorm(entries: seq<Pair>)
    ensures EncodePairs(NormPairs(entries)) == EncodePairs(entries)
    decreases entries
  {
    if entries != [] {
      EncodePairOfNorm(entries[0]);
      EncodePairsOfNorm(entries[1..]);
    }
  }

  lemma {:induction false} EncodePairOfNorm(p: Pair)
    ensures EncodePair(NormPair(p)) == EncodePair(p)
    decreases p
  {
    EncodeOfNorm(p.key);
    EncodeOfNorm(p.value);
  }
}
