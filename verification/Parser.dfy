/** MsgPackParser: the parse functions on a stream, each refining the reading of Decoding. */
module Parser {
  import opened Bits
  import opened Bytes
  import opened Values
  import opened Encoding
  import opened Formats
  import opened DispatchTable
  import opened HostOrder
  import opened InputStream
  import opened Maps
  import opened Decoding
  import opened Codec

  /** How many more levels may be opened at a nesting depth. */
  function Levels(depth: int): nat {
    if depth > MAX_DEPTH then 0 else MAX_LEVELS - depth
  }

  /** The stream stands where a reading left it: good after the value, or failed for the same reason and place. */
  ghost predicate Landed(stream: IStream, r: Result)
    reads stream
  {
    match r
    case Ok(_, next) => stream.Good() && stream.pos == next
    case Err(eof, at) => stream.fail && stream.eof == eof && stream.pos == at
  }

  ghost predicate ItemsLanded(stream: IStream, r: ItemsResult)
    reads stream
  {
    match r
    case Items(_, next) => stream.Good() && stream.pos == next
    case Stopped(eof, at) => stream.fail && stream.eof == eof && stream.pos == at
  }

  /** A stream that was not good before a call has neither moved nor changed its eof bit. */
  twostate predicate Stuck(stream: IStream)
    reads stream
  {
    stream.fail && stream.eof == old(stream.eof) && stream.pos == old(stream.pos)
  }

  method Fail(stream: IStream) returns (ret: Value)
    requires stream.Valid()
    modifies stream
    ensures stream.Valid() && stream.fail && stream.eof == old(stream.eof) && stream.pos == old(stream.pos)
    ensures ret == Null
  {
    stream.SetFail();
    ret := Null;
  }

  /** read_bytes: `width` bytes into the object representation, most significant first on the wire. Any failure on the
      way gives zero. */
  method ReadBytes(big: bool, stream: IStream, width: nat) returns (value: nat)
    requires stream.Valid() && width > 0
    modifies stream
    ensures stream.Valid()
    ensures value < Pow256(width)
    ensures old(stream.Good()) && old(stream.pos) + width <= |stream.data| ==>
              && stream.Good()
              && stream.pos == old(stream.pos) + width
              && value == NumberAt(stream.data, old(stream.pos), width)
    ensures old(stream.Good()) && old(stream.pos) + width > |stream.data| ==>
              stream.eof && stream.fail && stream.pos == |stream.data| && value == 0
    ensures !old(stream.Good()) ==> Stuck(stream) && value == 0
  {
    hide FromBigEndian, BigEndian, FromHostBytes, NumberAt, Pow256;
    var mem := new byte[width];
    var dst := if big then 0 else width - 1;
    var dir := if big then 1 else -1;
    var i := 0;
    while i < width
      invariant 0 <= i <= width
      invariant stream.Valid()
      invariant dst == if big then i else width - 1 - i
      invariant !old(stream.Good()) ==>
                  && stream.eof == old(stream.eof)
                  && stream.pos == old(stream.pos)
                  && stream.fail == (old(stream.fail) || i > 0)
      invariant old(stream.Good()) && old(stream.pos) + i <= |stream.data| ==>
                  stream.Good() && stream.pos == old(stream.pos) + i
      invariant old(stream.Good()) && old(stream.pos) + i > |stream.data| ==>
                  stream.eof && stream.fail && stream.pos == |stream.data|
      invariant old(stream.Good()) && old(stream.pos) + i <= |stream.data| && big ==>
                  forall k | 0 <= k < i :: mem[k] == stream.data[old(stream.pos) + k]
      invariant old(stream.Good()) && old(stream.pos) + i <= |stream.data| && !big ==>
                  forall k | width - i <= k < width :: mem[k] == stream.data[old(stream.pos) + (width - 1 - k)]
    {
      var c := stream.Get();
      mem[dst] := c % 256;
      dst := dst + dir;
      i := i + 1;
    }
    if stream.fail || stream.eof {
      value := 0;
    } else {
      value := FromHostBytes(big, mem[..]);
      LoadedNumber(big, mem[..], stream.data, old(stream.pos), width);
    }
  }

  /** Bytes stored in host order, most significant first on the wire, load as the number on the wire. */
  lemma LoadedNumber(big: bool, mem: seq<byte>, s: seq<byte>, p: nat, width: nat)
    requires |mem| == width && p + width <= |s|
    requires big ==> forall k | 0 <= k < width :: mem[k] == s[p + k]
    requires !big ==> forall k | 0 <= k < width :: mem[k] == s[p + (width - 1 - k)]
    ensures FromHostBytes(big, mem) == NumberAt(s, p, width)
  {
    hide FromBigEndian;
    assert (if big then mem else Reversed(mem)) == s[p..p + width];
  }

  method ParseStringImpl(stream: IStream, bytes: nat) returns (ret: seq<byte>)
    requires stream.Valid()
    modifies stream
    ensures stream.Valid()
    ensures old(stream.Good()) ==>
              var r := Decoding.ParseString(stream.data, old(stream.pos), bytes);
              Landed(stream, r) && (r.Ok? ==> r.value == Str(ret))
    ensures !old(stream.Good()) ==> Stuck(stream)
  {
    var buffer := new byte[bytes](_ => 0);
    stream.Read(buffer);
    ret := buffer[..];
  }

  method ParseBinaryImpl(stream: IStream, bytes: nat) returns (ret: seq<byte>)
    requires stream.Valid()
    modifies stream
    ensures stream.Valid()
    ensures old(stream.Good()) ==>
              var r := ParseBinary(stream.data, old(stream.pos), bytes);
              Landed(stream, r) && (r.Ok? ==> r.value == Bin(ret))
    ensures !old(stream.Good()) ==> Stuck(stream)
  {
    var buffer := new byte[bytes](_ => 0);
    stream.Read(buffer);
    ret := buffer[..];
  }

  /** The type byte and the data of an extension whose length is known. */
  method ParseExtensionImpl(big: bool, stream: IStream, bytes: nat) returns (ret: Value)
    requires stream.Valid()
    modifies stream
    ensures stream.Valid()
    ensures old(stream.Good()) ==>
              var r := ParseExt(stream.data, old(stream.pos), bytes);
              Landed(stream, r) && (r.Ok? ==> r.value == ret)
    ensures !old(stream.Good()) ==> Stuck(stream)
  {
    hide NumberAt;
    assert Pow256(1) == 256;
    if stream.pos < |stream.data| { OneDigit(stream.data, stream.pos); }
    var tag := ReadBytes(big, stream, 1);
    var data := ParseBinaryImpl(stream, bytes);
    ret := Ext(ToInt8(tag), data);
  }

  lemma OneDigit(s: seq<byte>, p: nat)
    requires p < |s|
    ensures NumberAt(s, p, 1) == s[p]
  {
    assert s[p..p + 1][..0] == [];
  }

  /** Items read so far, followed by what the rest of the reading gives. */
  function Prepend(done: seq<Value>, rest: ItemsResult): ItemsResult {
    match rest
    case Items(items, next) => Items(done + items, next)
    case Stopped(_, _) => rest
  }

  lemma PrependOne(s: seq<byte>, p: nat, count: nat, levels: nat, done: seq<Value>)
    requires p <= |s| && count > 0
    ensures var r := Parse(s, p, levels);
            Prepend(done, ParseItems(s, p, count, levels)) ==
            if r.Ok? then Prepend(done + [r.value], ParseItems(s, r.next, count - 1, levels)) else Stopped(r.eof, r.at)
  {
    hide Parse;
    var r := Parse(s, p, levels);
    if r.Ok? {
      var rest := ParseItems(s, r.next, count - 1, levels);
      if rest.Items? {
        assert done + ([r.value] + rest.items) == (done + [r.value]) + rest.items;
      }
    }
  }

  /** How far a loop over `count` values has come: still good with `done` read, or failed as the whole reading fails. */
  ghost predicate InProgress(stream: IStream, whole: ItemsResult, done: seq<Value>, count: nat, levels: nat)
    requires stream.Valid()
    reads stream
  {
    if stream.Good() then whole == Prepend(done, ParseItems(stream.data, stream.pos, count, levels))
    else whole.Stopped? && ItemsLanded(stream, whole)
  }

  lemma PrependNothing(r: ItemsResult)
    ensures Prepend([], r) == r
  {
    if r.Items? { assert [] + r.items == r.items; }
  }

  lemma NoItemsLeft(s: seq<byte>, p: nat, levels: nat, done: seq<Value>)
    requires p <= |s|
    ensures Prepend(done, ParseItems(s, p, 0, levels)) == Items(done, p)
  {
    assert done + [] == done;
  }

  method ParseArrayImpl(big: bool, parsers: seq<Handler>, stream: IStream, bytes: nat, depth: int)
    returns (res: seq<Value>)
    requires stream.Valid() && IsTable(parsers)
    modifies stream
    ensures stream.Valid()
    ensures old(stream.Good()) ==>
              var r := ParseItems(stream.data, old(stream.pos), bytes, Levels(depth));
              ItemsLanded(stream, r) && (r.Items? ==> r.items == res)
    ensures !old(stream.Good()) ==>
              stream.eof == old(stream.eof) && stream.pos == old(stream.pos) && (old(stream.fail) ==> stream.fail)
    decreases Levels(depth), 1
  {
    hide Parse, ParseItems;
    res := [];
    ghost var whole := ParseItems(stream.data, stream.pos, bytes, Levels(depth));
    PrependNothing(whole);
    var i := 0;
    while i < bytes
      invariant 0 <= i <= bytes && stream.Valid()
      invariant !old(stream.Good()) ==>
                  && stream.eof == old(stream.eof)
                  && stream.pos == old(stream.pos)
                  && !stream.Good()
                  && (old(stream.fail) ==> stream.fail)
      invariant old(stream.Good()) ==> InProgress(stream, whole, res, bytes - i, Levels(depth))
    {
      PrependOne(stream.data, stream.pos, bytes - i, Levels(depth), res);
      var v := ParseMsgpack(big, parsers, stream, depth);
      res := res + [v];
      i := i + 1;
    }
    NoItemsLeft(stream.data, stream.pos, Levels(depth), res);
  }

  lemma MakePairsSnoc(items: seq<Value>, k: Value, v: Value)
    requires |items| % 2 == 0
    ensures MakePairs(items + [k] + [v]) == MakePairs(items) + [Pair(k, v)]
  {
    var more := items + [k] + [v];
    assert more[|items|] == k && more[|items| + 1] == v;
  }

  /** Inserting one more pair continues the building of the map. */
  lemma BuildMapSnoc(items: seq<Value>, k: Value, v: Value)
    requires |items| % 2 == 0
    ensures BuildMap(MakePairs(items + [k] + [v])) == Insert(BuildMap(MakePairs(items)), Pair(k, v))
  {
    hide Insert, MakePairs;
    MakePairsSnoc(items, k, v);
    var pairs := MakePairs(items);
    var more := pairs + [Pair(k, v)];
    assert more[..|more| - 1] == pairs;
  }

  /** The loop of parse_object_impl. It keeps inserting after a failure; then the result is discarded by the caller. */
  method ParseObjectImpl(big: bool, parsers: seq<Handler>, stream: IStream, bytes: nat, depth: int)
    returns (res: seq<Pair>)
    requires stream.Valid() && IsTable(parsers)
    modifies stream
    ensures stream.Valid()
    ensures old(stream.Good()) ==>
              var r := ParseItems(stream.data, old(stream.pos), 2 * bytes, Levels(depth));
              ItemsLanded(stream, r) && (r.Items? ==> BuildMap(MakePairs(r.items)) == res)
    ensures !old(stream.Good()) ==>
              stream.eof == old(stream.eof) && stream.pos == old(stream.pos) && (old(stream.fail) ==> stream.fail)
    decreases Levels(depth), 1
  {
    hide Parse, ParseItems, BuildMap, MakePairs, Insert;
    res := [];
    ghost var items: seq<Value> := [];
    ghost var whole := ParseItems(stream.data, stream.pos, 2 * bytes, Levels(depth));
    PrependNothing(whole);
    EmptyMap();
    var i := 0;
    while i < bytes
      invariant 0 <= i <= bytes && stream.Valid()
      invariant |items| == 2 * i && BuildMap(MakePairs(items)) == res
      invariant !old(stream.Good()) ==>
                  && stream.eof == old(stream.eof)
                  && stream.pos == old(stream.pos)
                  && !stream.Good()
                  && (old(stream.fail) ==> stream.fail)
      invariant old(stream.Good()) ==> InProgress(stream, whole, items, 2 * (bytes - i), Levels(depth))
    {
      PrependOne(stream.data, stream.pos, 2 * (bytes - i), Levels(depth), items);
      var key := ParseMsgpack(big, parsers, stream, depth);
      PrependOne(stream.data, stream.pos, 2 * (bytes - i) - 1, Levels(depth), items + [key]);
      var value := ParseMsgpack(big, parsers, stream, depth);
      BuildMapSnoc(items, key, value);
      items := items + [key] + [value];
      res := Insert(res, Pair(key, value));
      i := i + 1;
    }
    NoItemsLeft(stream.data, stream.pos, Levels(depth), items);
  }

  lemma EmptyMap()
    ensures BuildMap(MakePairs([])) == []
  {
  }

  predicate IsTable(parsers: seq<Handler>) {
    |parsers| == 256 && forall b: byte :: parsers[b] == FormatOf(b)
  }

  /** The masks of the fix formats keep the low bits. */
  lemma MaskBits(first: byte)
    ensures And(first, 0x0f) == first % 16 && And(first, 0x1f) == first % 32
  {
    hide And;
    assert Pow2(4) == 16 && Pow2(5) == 32;
    AndLowMask(first, first / 16, first % 16, 4);
    AndLowMask(first, first / 32, first % 32, 5);
  }

  lemma BodyByPayload(s: seq<byte>, p: nat, first: byte, levels: nat)
    requires p <= |s|
    ensures var w := FieldWidth(FormatOf(first));
            ParseBody(s, p, first, levels) ==
            if p + w <= |s| then ParsePayload(s, p + w, first, NumberAt(s, p, w), levels) else Err(true, |s|)
  {
    hide ParsePayload, NumberAt;
  }

  predicate IsContainer(h: Handler) {
    h.FixArray? || h.Array? || h.FixObject? || h.Object?
  }

  /** The handler of a first byte, called with the stream just past it. */
  method RunHandler(big: bool, parsers: seq<Handler>, handler: Handler, stream: IStream, first: byte, depth: int)
    returns (ret: Value)
    requires stream.Valid() && stream.Good() && IsTable(parsers) && handler == FormatOf(first)
    modifies stream
    ensures stream.Valid()
    ensures var r := ParseBody(stream.data, old(stream.pos), first, Levels(depth));
            Landed(stream, r) && (r.Ok? ==> r.value == ret)
    decreases Levels(depth), 3
  {
    hide Parse, ParseBody, ParsePayload, FormatOf;
    if IsContainer(handler) {
      ret := RunContainerHandler(big, parsers, handler, stream, first, depth);
    } else {
      ret := RunLeafHandler(big, handler, stream, first, Levels(depth));
    }
  }

  /** Handlers of values without parts. */
  method RunLeafHandler(big: bool, handler: Handler, stream: IStream, first: byte, ghost levels: nat)
    returns (ret: Value)
    requires stream.Valid() && stream.Good() && handler == FormatOf(first) && !IsContainer(handler)
    modifies stream
    ensures stream.Valid()
    ensures var r := ParseBody(stream.data, old(stream.pos), first, levels);
            Landed(stream, r) && (r.Ok? ==> r.value == ret)
  {
    hide Parse, NumberAt, And, FromRaw, FormatOf, Pow256, Decoding.ParseString, ParseBinary, ParseExt, ParseArray,
         ParseObject;
    Pow256Values();
    MaskBits(first);
    BodyByPayload(stream.data, stream.pos, first, levels);
    match handler
    case PosFixint => ret := Int(U8, first);
    case NegFixint => ret := Int(I8, first - 0x100);
    case Nil => ret := Null;
    case Invalid => ret := Fail(stream);
    case Boolean => ret := Bool(first == 0xc3);
    case Float =>
      var bits := ReadBytes(big, stream, 4);
      ret := F32(bits);
    case Double =>
      var bits := ReadBytes(big, stream, 8);
      ret := F64(bits);
    case Arith(kind) =>
      var raw := ReadBytes(big, stream, kind.Width());
      ret := Int(kind, FromRaw(kind, raw));
    case FixString =>
      var s := ParseStringImpl(stream, And(first, 0x1f));
      ret := Str(s);
    case String(w) =>
      var bytes := ReadBytes(big, stream, w);
      var s := ParseStringImpl(stream, bytes);
      ret := Str(s);
    case Binary(w) =>
      var bytes := ReadBytes(big, stream, w);
      var s := ParseBinaryImpl(stream, bytes);
      ret := Bin(s);
    case FixExt =>
      ret := ParseExtensionImpl(big, stream, Pow2(first - 0xd4));
    case Extension(w) =>
      var bytes := ReadBytes(big, stream, w);
      ret := ParseExtensionImpl(big, stream, bytes);
  }

  /** Handlers of arrays and maps. */
  method RunContainerHandler(big: bool, parsers: seq<Handler>, handler: Handler, stream: IStream, first: byte,
                             depth: int)
    returns (ret: Value)
    requires stream.Valid() && stream.Good() && IsTable(parsers) && handler == FormatOf(first) && IsContainer(handler)
    modifies stream
    ensures stream.Valid()
    ensures var r := ParseBody(stream.data, old(stream.pos), first, Levels(depth));
            Landed(stream, r) && (r.Ok? ==> r.value == ret)
    decreases Levels(depth), 2
  {
    hide Parse, ParseItems, BuildMap, MakePairs, NumberAt, And, FormatOf, Pow256, Decoding.ParseString, ParseBinary,
         ParseExt;
    MaskBits(first);
    BodyByPayload(stream.data, stream.pos, first, Levels(depth));
    match handler
    case FixArray =>
      var items := ParseArrayImpl(big, parsers, stream, And(first, 0x0f), depth);
      ret := Arr(items);
    case Array(w) =>
      var bytes := ReadBytes(big, stream, w);
      var items := ParseArrayImpl(big, parsers, stream, bytes, depth);
      ret := Arr(items);
    case FixObject =>
      var entries := ParseObjectImpl(big, parsers, stream, And(first, 0x0f), depth);
      ret := Obj(entries);
    case Object(w) =>
      var bytes := ReadBytes(big, stream, w);
      var entries := ParseObjectImpl(big, parsers, stream, bytes, depth);
      ret := Obj(entries);
  }

  /** parse_msgpack. On a good stream it does what Parse says and returns Null on failure; on any other stream it only
      sets the fail bit. */
  method ParseMsgpack(big: bool, parsers: seq<Handler>, stream: IStream, depth: int) returns (ret: Value)
    requires stream.Valid() && IsTable(parsers)
    modifies stream
    ensures stream.Valid()
    ensures old(stream.Good()) ==>
              var r := Parse(stream.data, old(stream.pos), Levels(depth));
              Landed(stream, r) && ret == if r.Ok? then r.value else Null
    ensures !old(stream.Good()) ==> Stuck(stream) && ret == Null
    decreases Levels(depth), 0
  {
    hide ParseBody;
    if MAX_DEPTH < depth {
      ret := Fail(stream);
      return;
    }
    var c := stream.Get();
    if stream.fail || stream.eof {
      ret := Fail(stream);
      return;
    }
    var first: byte := c;
    ret := RunHandler(big, parsers, parsers[first], stream, first, depth + 1);
    if stream.fail || stream.eof {
      ret := Fail(stream);
    }
  }
}
