/** The MessagePack specification as a grammar (its section "Formats"), with every header it allows for a length, not
    only the shortest one; and that parse accepts exactly this language, giving each text its meaning. */
module Grammar {
  import opened Bits
  import opened Bytes
  import opened Values
  import opened Encoding
  import opened Formats
  import opened Maps
  import opened Decoding
  import opened RoundTrip

  /** The syntax tree of a serialised object. `width` is the number of bytes of the length field, 0 for the formats that
      keep the length in the first byte. The items of a map are its keys and values in turn. */
  datatype Wire =
    | NilWire
    | BoolWire(b: bool)
    | FixIntWire(n: int)
    | IntWire(kind: IntKind, n: int)
    | FloatWire(bits32: uint32)
    | DoubleWire(bits64: uint64)
    | StrWire(width: nat, str: seq<byte>)
    | BinWire(width: nat, data: seq<byte>)
    | ExtWire(width: nat, tag: int8, payload: seq<byte>)
    | ArrWire(width: nat, items: seq<Wire>)
    | ObjWire(width: nat, items: seq<Wire>)

  /** Which lengths a header can express. */
  predicate Legal(w: Wire) {
    match w
    case FixIntWire(n) => -32 <= n < 128
    case IntWire(kind, n) => kind.Holds(n)
    case StrWire(width, str) => if width == 0 then |str| <= 31 else width in {1, 2, 4} && |str| < Pow256(width)
    case BinWire(width, data) => width in {1, 2, 4} && |data| < Pow256(width)
    case ExtWire(width, _, payload) =>
      if width == 0 then |payload| in {1, 2, 4, 8, 16} else width in {1, 2, 4} && |payload| < Pow256(width)
    case ArrWire(width, items) => LegalCount(width, |items|) && forall i | 0 <= i < |items| :: Legal(items[i])
    case ObjWire(width, items) =>
      |items| % 2 == 0 && LegalCount(width, |items| / 2) && forall i | 0 <= i < |items| :: Legal(items[i])
    case _ => true
  }

  predicate LegalCount(width: nat, count: nat) {
    if width == 0 then count <= 15 else width in {2, 4} && count < Pow256(width)
  }

  predicate LegalItems(items: seq<Wire>) {
    forall i | 0 <= i < |items| :: Legal(items[i])
  }

  /** The first byte. */
  function FirstByte(w: Wire): (b: byte)
    requires Legal(w)
  {
    match w
    case NilWire => 0xc0
    case BoolWire(b) => if b then 0xc3 else 0xc2
    case FixIntWire(n) => if n < 0 then 0x100 + n else n
    case IntWire(kind, _) => Marker(kind)
    case FloatWire(_) => 0xca
    case DoubleWire(_) => 0xcb
    case StrWire(width, str) =>
      if width == 0 then 0xa0 + |str| else if width == 1 then 0xd9 else if width == 2 then 0xda else 0xdb
    case BinWire(width, _) => if width == 1 then 0xc4 else if width == 2 then 0xc5 else 0xc6
    case ExtWire(width, _, payload) =>
      if width == 1 then 0xc7 else if width == 2 then 0xc8 else if width == 4 then 0xc9
      else if |payload| == 1 then 0xd4 else if |payload| == 2 then 0xd5 else if |payload| == 4 then 0xd6
      else if |payload| == 8 then 0xd7 else 0xd8
    case ArrWire(width, items) => if width == 0 then 0x90 + |items| else if width == 2 then 0xdc else 0xdd
    case ObjWire(width, items) => if width == 0 then 0x80 + |items| / 2 else if width == 2 then 0xde else 0xdf
  }

  /** The big-endian field after the first byte: a number or a length. */
  function Field(w: Wire): (s: seq<byte>) {
    match w
    case IntWire(kind, n) => BigEndian(n % kind.Modulus(), kind.Width())
    case FloatWire(bits) => BigEndian(bits, 4)
    case DoubleWire(bits) => BigEndian(bits, 8)
    case StrWire(width, str) => BigEndian(|str|, width)
    case BinWire(width, data) => BigEndian(|data|, width)
    case ExtWire(width, _, payload) => BigEndian(|payload|, width)
    case ArrWire(width, items) => BigEndian(|items|, width)
    case ObjWire(width, items) => BigEndian(|items| / 2, width)
    case _ => []
  }

  function Body(w: Wire): (s: seq<byte>)
    requires Legal(w)
    decreases w, 0
  {
    match w
    case StrWire(_, str) => str
    case BinWire(_, data) => data
    case ExtWire(_, tag, payload) => [if tag < 0 then 0x100 + tag else tag] + payload
    case ArrWire(_, items) => SpellItems(items)
    case ObjWire(_, items) => SpellItems(items)
    case _ => []
  }

  /** The bytes of the serialised object. */
  function Spell(w: Wire): (s: seq<byte>)
    requires Legal(w)
    decreases w, 1
  {
    [FirstByte(w)] + Field(w) + Body(w)
  }

  function SpellItems(items: seq<Wire>): (s: seq<byte>)
    requires LegalItems(items)
    decreases items, 2
  {
    if items == [] then [] else Spell(items[0]) + SpellItems(items[1..])
  }

  /** What the serialised object denotes. Of the pairs of a map with equal keys the first one counts. */
  function Meaning(w: Wire): (v: Value)
    requires Legal(w)
    decreases w
  {
    match w
    case NilWire => Null
    case BoolWire(b) => Bool(b)
    case FixIntWire(n) => Int(if n < 0 then I8 else U8, n)
    case IntWire(kind, n) => Int(kind, n)
    case FloatWire(bits) => F32(bits)
    case DoubleWire(bits) => F64(bits)
    case StrWire(_, str) => Str(str)
    case BinWire(_, data) => Bin(data)
    case ExtWire(_, tag, payload) => Ext(tag, payload)
    case ArrWire(_, items) => Arr(Meanings(items))
    case ObjWire(_, items) => Obj(BuildMap(MakePairs(Meanings(items))))
  }

  function Meanings(items: seq<Wire>): (vs: seq<Value>)
    requires LegalItems(items)
    ensures |vs| == |items|
    decreases items
  {
    if items == [] then [] else [Meaning(items[0])] + Meanings(items[1..])
  }

  /** Levels of nesting on the wire, dropped pairs included. */
  function Depth(w: Wire): (d: nat)
    ensures d >= 1
  {
    match w
    case ArrWire(_, items) => 1 + DepthItems(items)
    case ObjWire(_, items) => 1 + DepthItems(items)
    case _ => 1
  }

  function DepthItems(items: seq<Wire>): (d: nat) {
    if items == [] then 0 else Max(Depth(items[0]), DepthItems(items[1..]))
  }

  // ---- Every text of the language is parsed --------------------------------------------------------------

  predicate IsLeafWire(w: Wire) {
    !w.ArrWire? && !w.ObjWire?
  }

  /** How parse treats the text of w. */
  predicate IsRead(s: seq<byte>, p: nat, w: Wire, levels: nat)
    requires Legal(w) && p <= |s|
  {
    var r := Parse(s, p, levels);
    if Depth(w) <= levels then r == Ok(Meaning(w), p + |Spell(w)|) else r.Err? && !r.eof
  }

  /** The number in the field, 0 where there is no field. */
  function FieldNumber(w: Wire): (n: nat) {
    match w
    case IntWire(kind, n) => n % kind.Modulus()
    case FloatWire(bits) => bits
    case DoubleWire(bits) => bits
    case StrWire(width, str) => if width == 0 then 0 else |str|
    case BinWire(_, data) => |data|
    case ExtWire(width, _, payload) => if width == 0 then 0 else |payload|
    case ArrWire(width, items) => if width == 0 then 0 else |items|
    case ObjWire(width, items) => if width == 0 then 0 else |items| / 2
    case _ => 0
  }

  /** The handler a first byte stands for, by the number in the field. */
  lemma FirstByteFormat(w: Wire)
    requires Legal(w)
    ensures var width := FieldWidth(FormatOf(FirstByte(w)));
            Field(w) == BigEndian(FieldNumber(w), width) && FieldNumber(w) < Pow256(width)
  {
    hide BigEndian, Field, FieldNumber, Legal, FormatOf, FieldWidth, Pow256, FirstByte;
    if w.StrWire? || w.BinWire? || w.ExtWire? {
      TextFormat(w);
    } else if w.ArrWire? || w.ObjWire? {
      ContainerFormat(w);
    } else {
      ScalarFormat(w);
    }
  }

  lemma ScalarFormat(w: Wire)
    requires Legal(w) && IsLeafWire(w) && !w.StrWire? && !w.BinWire? && !w.ExtWire?
    ensures var width := FieldWidth(FormatOf(FirstByte(w)));
            Field(w) == BigEndian(FieldNumber(w), width) && FieldNumber(w) < Pow256(width)
  {
    hide BigEndian, Pow256;
    Pow256Values();
    NoField(0);
  }

  lemma TextFormat(w: Wire)
    requires Legal(w) && (w.StrWire? || w.BinWire? || w.ExtWire?)
    ensures var width := FieldWidth(FormatOf(FirstByte(w)));
            Field(w) == BigEndian(FieldNumber(w), width) && FieldNumber(w) < Pow256(width)
  {
    hide BigEndian, Pow256;
    NoField(0);
    match w
    case StrWire(_, str) => NoField(|str|);
    case ExtWire(_, _, payload) => NoField(|payload|);
    case BinWire(_, _) =>
  }

  lemma ContainerFormat(w: Wire)
    requires Legal(w) && !IsLeafWire(w)
    ensures var width := FieldWidth(FormatOf(FirstByte(w)));
            Field(w) == BigEndian(FieldNumber(w), width) && FieldNumber(w) < Pow256(width)
  {
    hide BigEndian, Pow256;
    NoField(0);
    NoField(if w.ArrWire? then |w.items| else |w.items| / 2);
  }

  lemma NoField(n: nat)
    ensures BigEndian(n, 0) == [] && Pow256(0) == 1
  {
  }

  /** First byte and field lead to the payload. */
  lemma HeadIsRead(s: seq<byte>, p: nat, w: Wire, levels: nat)
    requires Legal(w) && At(s, p, Spell(w)) && levels > 0
    ensures var first, q := FirstByte(w), p + 1 + |Field(w)|;
            && FieldNumber(w) < Pow256(FieldWidth(FormatOf(first)))
            && At(s, q, Body(w))
            && Parse(s, p, levels) == ParsePayload(s, q, first, FieldNumber(w), levels - 1)
  {
    hide Parse, ParsePayload, FormatOf, FieldWidth, BigEndian, FirstByte, Field, FieldNumber, Body, Legal, Pow256;
    FirstByteFormat(w);
    AtConcat(s, p, [FirstByte(w)] + Field(w), Body(w));
    MarkedRead(s, p, FirstByte(w), FieldNumber(w), levels);
  }

  lemma ScalarPayload(s: seq<byte>, q: nat, w: Wire, levels: nat)
    requires Legal(w) && IsLeafWire(w) && !w.StrWire? && !w.BinWire? && !w.ExtWire?
    requires q <= |s| && FieldNumber(w) < Pow256(FieldWidth(FormatOf(FirstByte(w))))
    ensures ParsePayload(s, q, FirstByte(w), FieldNumber(w), levels) == Ok(Meaning(w), q) && Body(w) == []
  {
    hide ParseString, ParseBinary, ParseExt, ParseArray, ParseObject, Pow256;
    if w.IntWire? { FromRawOfToRaw(w.kind, w.n); }
  }

  lemma StrPayload(s: seq<byte>, q: nat, w: Wire, levels: nat)
    requires Legal(w) && (w.StrWire? || w.BinWire?) && At(s, q, Body(w))
    requires FieldNumber(w) < Pow256(FieldWidth(FormatOf(FirstByte(w))))
    ensures ParsePayload(s, q, FirstByte(w), FieldNumber(w), levels) == Ok(Meaning(w), q + |Body(w)|)
  {
    hide ParseExt, ParseArray, ParseObject, Pow256, SpellItems, Meanings;
  }

  lemma ExtPayload(s: seq<byte>, q: nat, w: Wire, levels: nat)
    requires Legal(w) && w.ExtWire? && At(s, q, Body(w))
    requires FieldNumber(w) < Pow256(FieldWidth(FormatOf(FirstByte(w))))
    ensures ParsePayload(s, q, FirstByte(w), FieldNumber(w), levels) == Ok(Meaning(w), q + |Body(w)|)
  {
    hide ParseString, ParseBinary, ParseArray, ParseObject, Pow256, SpellItems, Meanings;
    FixExtLengths();
    ExtBody(s, q, w.tag, w.payload);
    hide ParseExt;
  }

  lemma ExtBody(s: seq<byte>, q: nat, tag: int8, payload: seq<byte>)
    requires At(s, q, [if tag < 0 then 0x100 + tag else tag] + payload)
    ensures ParseExt(s, q, |payload|) == Ok(Ext(tag, payload), q + 1 + |payload|)
  {
    var b: byte := if tag < 0 then 0x100 + tag else tag;
    AtConcat(s, q, [b], payload);
    SingleByte(s, q, b);
  }

  lemma LeafIsRead(s: seq<byte>, p: nat, w: Wire, levels: nat)
    requires Legal(w) && IsLeafWire(w) && At(s, p, Spell(w)) && levels > 0
    ensures IsRead(s, p, w, levels)
  {
    hide Parse, ParsePayload, FormatOf, FieldWidth, FirstByte, Field, FieldNumber, Meaning, Legal, Pow256, Body;
    HeadIsRead(s, p, w, levels);
    if w.StrWire? || w.BinWire? {
      StrPayload(s, p + 1 + |Field(w)|, w, levels - 1);
    } else if w.ExtWire? {
      ExtPayload(s, p + 1 + |Field(w)|, w, levels - 1);
    } else {
      ScalarPayload(s, p + 1 + |Field(w)|, w, levels - 1);
    }
  }

  /** Serialised with any headers the specification allows, an object is read as what it denotes, using exactly its
      bytes, wherever it stands; if it nests too deep, the reading fails, and not for want of data. */
  lemma {:induction false} SpelledIsRead(s: seq<byte>, p: nat, w: Wire, levels: nat)
    requires Legal(w) && At(s, p, Spell(w))
    ensures IsRead(s, p, w, levels)
    decreases w, 1
  {
    if levels == 0 {
      hide Parse, Spell, Meaning;
      NoLevels(s, p);
    } else if IsLeafWire(w) {
      hide IsRead, Spell;
      LeafIsRead(s, p, w, levels);
    } else {
      hide IsRead, Spell;
      ContainerIsRead(s, p, w, levels);
    }
  }

  lemma {:induction false} ContainerIsRead(s: seq<byte>, p: nat, w: Wire, levels: nat)
    requires Legal(w) && !IsLeafWire(w) && At(s, p, Spell(w)) && levels > 0
    ensures IsRead(s, p, w, levels)
    decreases w, 0
  {
    hide *;
    ContainerParts(w);
    HeadIsRead(s, p, w, levels);
    var q := p + 1 + |Field(w)|;
    ContainerPayload(s, q, w, levels - 1);
    ItemsAreRead(s, q, w.items, levels - 1);
    FromItems(s, p, q, w, levels);
  }

  lemma ContainerParts(w: Wire)
    requires Legal(w) && !IsLeafWire(w)
    ensures LegalItems(w.items) && Body(w) == SpellItems(w.items) && Depth(w) == 1 + DepthItems(w.items)
    ensures w.ArrWire? || (w.ObjWire? && |w.items| % 2 == 0)
    ensures w.ArrWire? ==> Meaning(w) == Arr(Meanings(w.items))
    ensures w.ObjWire? ==> Meaning(w) == Obj(BuildMap(MakePairs(Meanings(w.items))))
    ensures |Spell(w)| == 1 + |Field(w)| + |SpellItems(w.items)|
  {
    hide SpellItems, Meanings, DepthItems, BuildMap, MakePairs, FirstByte, Field;
  }

  /** From the items to the container. */
  lemma FromItems(s: seq<byte>, p: nat, q: nat, w: Wire, levels: nat)
    requires Legal(w) && !IsLeafWire(w) && levels > 0 && p <= q <= |s| && q == p + 1 + |Field(w)| && LegalItems(w.items)
    requires Parse(s, p, levels)
             == if w.ArrWire? then ParseArray(s, q, |w.items|, levels - 1)
                else ParseObject(s, q, |w.items| / 2, levels - 1)
    requires var r := ParseItems(s, q, |w.items|, levels - 1);
             if DepthItems(w.items) <= levels - 1 then r == Items(Meanings(w.items), q + |SpellItems(w.items)|)
             else r.Stopped? && !r.eof
    ensures IsRead(s, p, w, levels)
  {
    hide Parse, ParseItems, SpellItems, Meanings, DepthItems, BuildMap, MakePairs, Field, Legal, Spell, Meaning, Depth;
    ContainerParts(w);
  }

  lemma ContainerPayload(s: seq<byte>, q: nat, w: Wire, levels: nat)
    requires Legal(w) && !IsLeafWire(w) && q <= |s|
    requires FieldNumber(w) < Pow256(FieldWidth(FormatOf(FirstByte(w))))
    ensures ParsePayload(s, q, FirstByte(w), FieldNumber(w), levels)
            == if w.ArrWire? then ParseArray(s, q, |w.items|, levels) else ParseObject(s, q, |w.items| / 2, levels)
  {
    hide ParseArray, ParseObject, Pow256;
  }

  lemma {:induction false} ItemsAreRead(s: seq<byte>, p: nat, items: seq<Wire>, levels: nat)
    requires LegalItems(items) && At(s, p, SpellItems(items))
    ensures var r := ParseItems(s, p, |items|, levels);
            if DepthItems(items) <= levels then r == Items(Meanings(items), p + |SpellItems(items)|)
            else r.Stopped? && !r.eof
    decreases items
  {
    hide Parse, Spell, Meaning, Legal;
    if items != [] {
      AtConcat(s, p, Spell(items[0]), SpellItems(items[1..]));
      SpelledIsRead(s, p, items[0], levels);
      if Depth(items[0]) <= levels {
        ItemsAreRead(s, p + |Spell(items[0])|, items[1..], levels);
      }
    }
  }

  // ---- Only texts of the language are ---------------------------------------------------------------------

  /** The text of w stands at q from its body on, behind the given first byte and field. */
  predicate Spells(s: seq<byte>, q: nat, first: byte, n: nat, w: Wire, r: Result, levels: nat) {
    && Legal(w)
    && FirstByte(w) == first
    && Field(w) == BigEndian(n, FieldWidth(FormatOf(first)))
    && At(s, q, Body(w))
    && r == Ok(Meaning(w), q + |Body(w)|)
    && Depth(w) <= levels + 1
  }

  /** Whatever parse accepts is the text of a syntax tree, and the result is what that tree denotes. */
  lemma {:induction false} ParsedIsSpelled(s: seq<byte>, p: nat, levels: nat) returns (w: Wire)
    requires p <= |s| && Parse(s, p, levels).Ok?
    ensures Legal(w) && At(s, p, Spell(w)) && Depth(w) <= levels
    ensures Parse(s, p, levels) == Ok(Meaning(w), p + |Spell(w)|)
    decreases levels, 0, 0, 0
  {
    hide ParsePayload, FormatOf, FieldWidth, NumberAt, BigEndian, FirstByte, Field, Body, Meaning, Legal, Depth;
    var width := FieldWidth(FormatOf(s[p]));
    var n := NumberAt(s, p + 1, width);
    w := PayloadIsSpelled(s, p + 1 + width, s[p], n, levels - 1);
    FieldAt(s, p + 1, width);
    assert At(s, p, [s[p]]);
    AtConcat(s, p, [s[p]], BigEndian(n, width));
    AtConcat(s, p, [s[p]] + BigEndian(n, width), Body(w));
  }

  lemma FieldAt(s: seq<byte>, p: nat, width: nat)
    requires p + width <= |s|
    ensures At(s, p, BigEndian(NumberAt(s, p, width), width))
  {
    BigEndianOfFromBigEndian(s[p..p + width]);
  }

  lemma {:induction false} PayloadIsSpelled(s: seq<byte>, q: nat, first: byte, n: nat, levels: nat) returns (w: Wire)
    requires q <= |s| && n < Pow256(FieldWidth(FormatOf(first)))
    requires ParsePayload(s, q, first, n, levels).Ok?
    ensures Spells(s, q, first, n, w, ParsePayload(s, q, first, n, levels), levels)
    decreases levels, 2, 0
  {
    hide Spells, ParsePayload, Pow256;
    var h := FormatOf(first);
    if h.FixString? || h.String? || h.Binary? {
      w := StrIsSpelled(s, q, first, n, levels);
    } else if h.FixExt? || h.Extension? {
      w := ExtIsSpelled(s, q, first, n, levels);
    } else if h.FixArray? || h.Array? || h.FixObject? || h.Object? {
      w := ContainerIsSpelled(s, q, first, n, levels);
    } else {
      w := ScalarIsSpelled(s, q, first, n, levels);
    }
  }

  lemma RawIsResidue(kind: IntKind, raw: nat)
    requires raw < kind.Modulus()
    ensures kind.Holds(FromRaw(kind, raw)) && FromRaw(kind, raw) % kind.Modulus() == raw
  {
  }

  lemma ScalarIsSpelled(s: seq<byte>, q: nat, first: byte, n: nat, levels: nat) returns (w: Wire)
    requires q <= |s| && n < Pow256(FieldWidth(FormatOf(first)))
    requires var h := FormatOf(first);
             h.PosFixint? || h.NegFixint? || h.Nil? || h.Invalid? || h.Boolean? || h.Float? || h.Double? || h.Arith?
    requires ParsePayload(s, q, first, n, levels).Ok?
    ensures Spells(s, q, first, n, w, ParsePayload(s, q, first, n, levels), levels)
  {
    hide ParseString, ParseBinary, ParseExt, ParseArray, ParseObject, Pow256, FromRaw;
    Pow256Values();
    NoField(n);
    match FormatOf(first)
    case PosFixint => w := FixIntWire(first);
    case NegFixint => w := FixIntWire(first - 0x100);
    case Nil => w := NilWire;
    case Boolean => w := BoolWire(first == 0xc3);
    case Float => w := FloatWire(n);
    case Double => w := DoubleWire(n);
    case Arith(kind) => RawIsResidue(kind, n); w := IntWire(kind, FromRaw(kind, n));
    case Invalid =>
  }

  lemma StrIsSpelled(s: seq<byte>, q: nat, first: byte, n: nat, levels: nat) returns (w: Wire)
    requires q <= |s| && n < Pow256(FieldWidth(FormatOf(first)))
    requires var h := FormatOf(first); h.FixString? || h.String? || h.Binary?
    requires ParsePayload(s, q, first, n, levels).Ok?
    ensures Spells(s, q, first, n, w, ParsePayload(s, q, first, n, levels), levels)
  {
    hide ParseExt, ParseArray, ParseObject, Pow256, SpellItems, Meanings, DepthItems;
    NoField(n);
    var width := FieldWidth(FormatOf(first));
    if FormatOf(first).Binary? {
      w := BinWire(width, ParseBinary(s, q, n).value.data);
    } else {
      var len := if width == 0 then first % 32 else n;
      NoField(len);
      w := StrWire(width, ParseString(s, q, len).value.str);
    }
  }

  lemma ExtIsSpelled(s: seq<byte>, q: nat, first: byte, n: nat, levels: nat) returns (w: Wire)
    requires q <= |s| && n < Pow256(FieldWidth(FormatOf(first)))
    requires var h := FormatOf(first); h.FixExt? || h.Extension?
    requires ParsePayload(s, q, first, n, levels).Ok?
    ensures Spells(s, q, first, n, w, ParsePayload(s, q, first, n, levels), levels)
  {
    hide ParseString, ParseBinary, ParseArray, ParseObject, Pow256, SpellItems, Meanings, DepthItems, ParseExt;
    NoField(n);
    FixExtLengths();
    var width := FieldWidth(FormatOf(first));
    var len := if width == 0 then Pow2(first - 0xd4) else n;
    NoField(len);
    var v := ExtIsBody(s, q, len);
    w := ExtWire(width, v.tag, v.payload);
  }

  lemma ExtIsBody(s: seq<byte>, q: nat, len: nat) returns (v: Value)
    requires q <= |s| && ParseExt(s, q, len).Ok?
    ensures v.Ext? && |v.payload| == len && ParseExt(s, q, len) == Ok(v, q + 1 + len)
    ensures At(s, q, [if v.tag < 0 then 0x100 + v.tag else v.tag] + v.payload)
  {
    v := ParseExt(s, q, len).value;
    assert At(s, q, [s[q]]);
    AtConcat(s, q, [s[q]], v.payload);
  }

  lemma {:induction false} ContainerIsSpelled(s: seq<byte>, q: nat, first: byte, n: nat, levels: nat) returns (w: Wire)
    requires q <= |s| && n < Pow256(FieldWidth(FormatOf(first)))
    requires var h := FormatOf(first); h.FixArray? || h.Array? || h.FixObject? || h.Object?
    requires ParsePayload(s, q, first, n, levels).Ok?
    ensures Spells(s, q, first, n, w, ParsePayload(s, q, first, n, levels), levels)
    decreases levels, 1, 0
  {
    hide Pow256, ParseItems, BuildMap, MakePairs, SpellItems, Meanings, DepthItems;
    var h := FormatOf(first);
    var width := FieldWidth(h);
    NoField(n);
    if h.FixArray? || h.Array? {
      var count := if h.FixArray? then first % 16 else n;
      NoField(count);
      var items := ItemsAreSpelled(s, q, count, levels);
      w := ArrWire(width, items);
    } else {
      var count := if h.FixObject? then first % 16 else n;
      NoField(count);
      var items := ItemsAreSpelled(s, q, 2 * count, levels);
      w := ObjWire(width, items);
    }
  }

  lemma {:induction false} ItemsAreSpelled(s: seq<byte>, p: nat, count: nat, levels: nat) returns (items: seq<Wire>)
    requires p <= |s| && ParseItems(s, p, count, levels).Items?
    ensures |items| == count && LegalItems(items) && At(s, p, SpellItems(items)) && DepthItems(items) <= levels
    ensures ParseItems(s, p, count, levels) == Items(Meanings(items), p + |SpellItems(items)|)
    decreases levels, 0, count, 1
  {
    hide Parse, Spell, Meaning, Legal, Depth;
    if count == 0 {
      items := [];
    } else {
      var w := ParsedIsSpelled(s, p, levels);
      var rest := ItemsAreSpelled(s, p + |Spell(w)|, count - 1, levels);
      items := [w] + rest;
      AtConcat(s, p, Spell(w), SpellItems(rest));
    }
  }

  /** The byte the specification never uses: not for want of data, and at once. */
  lemma UnusedByte(s: seq<byte>, p: nat, levels: nat)
    requires p < |s| && s[p] == 0xc1 && levels > 0
    ensures Parse(s, p, levels) == Err(false, p + 1)
  {
    hide Parse;
    assert s[p..p + 1] == [0xc1];
    SingleRead(s, p, 0xc1, levels);
  }
}
