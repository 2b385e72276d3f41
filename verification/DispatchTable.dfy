/** The static table of parse_msgpack: 256 handlers filled in from a short list of upper bounds. */
module DispatchTable {
  import opened Bytes
  import opened Values
  import opened Formats

  datatype Entry = Entry(upto: byte, handler: Handler)

  /** The template as written, with the four value-initialised elements that complete the std::array of 36. */
  const TEMPLATE: seq<Entry> := [
    Entry(0x7f, PosFixint),
    Entry(0x8f, FixObject),
    Entry(0x9f, FixArray),
    Entry(0xbf, FixString),
    Entry(0xc0, Nil),
    Entry(0xc1, Invalid),
    Entry(0xc3, Boolean),
    Entry(0xc4, Binary(1)),
    Entry(0xc5, Binary(2)),
    Entry(0xc6, Binary(4)),
    Entry(0xc7, Extension(1)),
    Entry(0xc8, Extension(2)),
    Entry(0xc9, Extension(4)),
    Entry(0xca, Float),
    Entry(0xcb, Double),
    Entry(0xcc, Arith(U8)),
    Entry(0xcd, Arith(U16)),
    Entry(0xce, Arith(U32)),
    Entry(0xcf, Arith(U64)),
    Entry(0xd0, Arith(I8)),
    Entry(0xd1, Arith(I16)),
    Entry(0xd2, Arith(I32)),
    Entry(0xd3, Arith(I64)),
    Entry(0xd8, FixExt),
    Entry(0xd9, String(1)),
    Entry(0xda, String(2)),
    Entry(0xdb, String(4)),
    Entry(0xdc, Array(2)),
    Entry(0xdd, Array(4)),
    Entry(0xde, Object(2)),
    Entry(0xdf, Object(4)),
    Entry(0xff, NegFixint),
    Entry(0, NoHandler),
    Entry(0, NoHandler),
    Entry(0, NoHandler),
    Entry(0, NoHandler)
  ]

  /** How many slots a template reaches: one more than its largest bound. */
  function Reach(template: seq<Entry>): (n: nat)
    ensures n <= 256
  {
    if template == [] then 0
    else
      var before, last := Reach(template[..|template| - 1]), template[|template| - 1].upto;
      if before <= last then last + 1 else before
  }

  /** Entry k is the first whose bound is at or above b. */
  predicate Owns(template: seq<Entry>, k: nat, b: nat) {
    && k < |template|
    && b <= template[k].upto
    && forall j | 0 <= j < k :: template[j].upto < b
  }

  /** Every slot a template reaches has an owner. */
  lemma {:induction false} ReachedSlotsAreOwned(template: seq<Entry>, b: nat) returns (k: nat)
    requires b < Reach(template)
    ensures Owns(template, k, b)
  {
    var last := |template| - 1;
    if b < Reach(template[..last]) {
      k := ReachedSlotsAreOwned(template[..last], b);
      assert template[..last][k] == template[k];
    } else {
      k := last;
      BoundsBelowReach(template[..last]);
      assert forall j | 0 <= j < last :: template[..last][j] == template[j];
    }
  }

  lemma {:induction false} BoundsBelowReach(template: seq<Entry>)
    ensures forall j | 0 <= j < |template| :: template[j].upto < Reach(template)
  {
    if template != [] {
      var last := |template| - 1;
      BoundsBelowReach(template[..last]);
      assert forall j | 0 <= j < last :: template[..last][j] == template[j];
    }
  }

  lemma OwnerIsUnique(template: seq<Entry>, k: nat, m: nat, b: nat)
    requires Owns(template, k, b) && Owns(template, m, b)
    ensures k == m
  {
  }

  /** The fill loop. Every slot in reach gets the handler of its owner, the first entry whose bound is at or above the
      index; slots out of reach are left as they were. An entry whose bound lies below the slots already filled
      writes nothing. */
  method FillTable(template: seq<Entry>, parsers: array<Handler>)
    requires parsers.Length == 256
    modifies parsers
    ensures forall b: nat, k: nat | b < 256 && Owns(template, k, b) :: parsers[b] == template[k].handler
    ensures forall b | Reach(template) <= b < 256 :: parsers[b] == old(parsers[b])
  {
    var i := 0;
    var e := 0;
    while e < |template|
      invariant 0 <= e <= |template|
      invariant i == Reach(template[..e])
      invariant forall j | 0 <= j < e :: template[j].upto < i
      invariant forall b: nat, k: nat | b < i && Owns(template, k, b) :: parsers[b] == template[k].handler
      invariant forall b | i <= b < 256 :: parsers[b] == old(parsers[b])
    {
      var upto := template[e].upto;
      ghost var start := i;
      assert template[..e + 1][..e] == template[..e];
      while i <= upto
        invariant start <= i <= 256
        invariant i == start || i <= upto + 1
        invariant forall b: nat, k: nat | b < i && Owns(template, k, b) :: parsers[b] == template[k].handler
        invariant forall b | i <= b < 256 :: parsers[b] == old(parsers[b])
      {
        parsers[i] := template[e].handler;
        forall k: nat | Owns(template, k, i)
          ensures k == e
        {
          OwnerIsUnique(template, k, e, i);
        }
        i := i + 1;
      }
      e := e + 1;
    }
    assert template[..e] == template;
    forall b: nat, k: nat | b < 256 && Owns(template, k, b)
      ensures parsers[b] == template[k].handler
    {
      assert template[k].upto < i;
    }
  }

  /** The entry of TEMPLATE that owns a first byte. */
  function OwnerOf(b: byte): (k: nat) {
    if b <= 0x7f then 0
    else if b <= 0x8f then 1
    else if b <= 0x9f then 2
    else if b <= 0xbf then 3
    else if b <= 0xc1 then b - 0xbc
    else if b <= 0xc3 then 6
    else if b <= 0xd3 then b - 0xbd
    else if b <= 0xd8 then 23
    else if b <= 0xdf then b - 0xc1
    else 31
  }

  lemma TemplateLowBounds(j: nat)
    requires j < 16
    ensures TEMPLATE[j].upto < TEMPLATE[j + 1].upto
  {
  }

  lemma TemplateHighBounds(j: nat)
    requires 16 <= j < 31
    ensures TEMPLATE[j].upto < TEMPLATE[j + 1].upto
  {
  }

  lemma {:induction false} TemplateBoundsIncrease(j: nat, k: nat)
    requires j < k < 32
    ensures TEMPLATE[j].upto < TEMPLATE[k].upto
    decreases k - j
  {
    hide TEMPLATE;
    if j < 16 { TemplateLowBounds(j); } else { TemplateHighBounds(j); }
    if j + 1 < k {
      TemplateBoundsIncrease(j + 1, k);
    }
  }

  lemma TemplateOwners(b: byte)
    ensures Owns(TEMPLATE, OwnerOf(b), b)
  {
    hide TEMPLATE, FormatOf;
    var k := OwnerOf(b);
    TemplateBrackets(b);
    forall j | 0 <= j < k
      ensures TEMPLATE[j].upto < b
    {
      if j < k - 1 { TemplateBoundsIncrease(j, k - 1); }
    }
  }

  lemma TemplateBrackets(b: byte)
    ensures var k := OwnerOf(b);
            k < |TEMPLATE| && b <= TEMPLATE[k].upto && (k > 0 ==> TEMPLATE[k - 1].upto < b)
  {
  }

  lemma LowFormats(b: byte)
    requires b < 0xc4
    ensures TEMPLATE[OwnerOf(b)].handler == FormatOf(b)
  {
  }

  lemma HighFormats(b: byte)
    requires b >= 0xd4
    ensures TEMPLATE[OwnerOf(b)].handler == FormatOf(b)
  {
  }

  lemma BinaryAndFloatFormats(b: byte)
    requires 0xc4 <= b < 0xcc
    ensures TEMPLATE[OwnerOf(b)].handler == FormatOf(b)
  {
  }

  lemma IntegerFormats(b: byte)
    requires 0xcc <= b < 0xd4
    ensures TEMPLATE[OwnerOf(b)].handler == FormatOf(b)
  {
  }

  /** The template describes the formats of the specification, byte for byte. */
  lemma TemplateMatchesFormats(b: byte)
    ensures Owns(TEMPLATE, OwnerOf(b), b)
    ensures TEMPLATE[OwnerOf(b)].handler == FormatOf(b)
  {
    hide TEMPLATE, FormatOf, OwnerOf;
    TemplateOwners(b);
    if 0xc4 <= b < 0xcc {
      BinaryAndFloatFormats(b);
    } else if 0xcc <= b < 0xd4 {
      IntegerFormats(b);
    } else if b < 0xc4 {
      LowFormats(b);
    } else {
      HighFormats(b);
    }
  }

  /** The table as parse_msgpack sees it. */
  method BuildTable() returns (table: seq<Handler>)
    ensures |table| == 256
    ensures forall b: byte :: table[b] == FormatOf(b)
  {
    var parsers := new Handler[256];
    FillTable(TEMPLATE, parsers);
    forall b: byte
      ensures parsers[b] == FormatOf(b)
    {
      TemplateMatchesFormats(b);
    }
    table := parsers[..];
  }
}
