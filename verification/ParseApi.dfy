/** MsgPack::parse and MsgPack::parse_multi. */
module ParseApi {
  import opened Bytes
  import opened Options
  import opened Values
  import opened Comparison
  import opened Encoding
  import opened Formats
  import opened DispatchTable
  import opened InputStream
  import opened OutputStream
  import opened Dumper
  import opened Decoding
  import opened RoundTrip
  import opened Prefixes
  import opened Codec
  import opened Parser

  const END_OF_BUFFER := "end of buffer."
  const FORMAT_ERROR := "format error."

  /** The error text after a parse that began with text `err`. */
  function ErrorText(r: Result, err: string): string {
    if r.Ok? then err else if r.eof then END_OF_BUFFER else FORMAT_ERROR
  }

  function ValueOrNull(r: Result): Value {
    if r.Ok? then r.value else Null
  }

  /** parse(is, err): the error text changes exactly on failure, and then is not empty. */
  method ParseStream(big: bool, parsers: seq<Handler>, stream: IStream, err: string) returns (ret: Value, err': string)
    requires stream.Valid() && IsTable(parsers)
    modifies stream
    ensures stream.Valid()
    ensures old(stream.Good()) ==>
              var r := Parse(stream.data, old(stream.pos), MAX_LEVELS);
              Landed(stream, r) && ret == ValueOrNull(r) && err' == ErrorText(r, err)
    ensures !old(stream.Good()) ==> Stuck(stream) && ret == Null
    ensures if stream.fail then err' == (if stream.eof then END_OF_BUFFER else FORMAT_ERROR) else err' == err
  {
    hide Parse;
    ret := ParseMsgpack(big, parsers, stream, 0);
    err' := err;
    if stream.eof {
      err' := END_OF_BUFFER;
    } else if stream.fail {
      err' := FORMAT_ERROR;
    }
  }

  /** parse(in, err) on a whole string, with the table built on the way. */
  method ParseWhole(big: bool, s: seq<byte>, err: string) returns (ret: Value, err': string)
    ensures ret == ValueOrNull(Codec.ParseAll(s)) && err' == ErrorText(Codec.ParseAll(s), err)
  {
    hide Parse;
    var parsers := BuildTable();
    var stream := new IStream(s);
    ret, err' := ParseStream(big, parsers, stream, err);
  }

  /** A string cut short inside its value gives Null and this error text. */
  method ParseTruncated(big: bool, s: seq<byte>, k: nat, err: string) returns (ret: Value, err': string)
    requires ParseAll(s).Ok? && k < ParseAll(s).next
    ensures ret == Null && err' == "end of buffer."
  {
    hide Parse;
    TruncationIsDetected(s, k);
    ret, err' := ParseWhole(big, s[..k], err);
  }

  // ---- parse_multi ---------------------------------------------------------------------------------

  /** The values parsed one after the other, where the last of them ended, and how reading stopped. */
  datatype Multi = Multi(values: seq<Value>, stop: Option<nat>, failure: Option<Result>)

  /** Values back to back from position p on, up to the end of the string or the first failure. */
  function ParseMulti(s: seq<byte>, p: nat): (m: Multi)
    requires p <= |s|
    decreases |s| - p
  {
    if p == |s| then Multi([], None, None)
    else
      var r := Parse(s, p, MAX_LEVELS);
      if r.Err? then Multi([], None, Some(r))
      else
        var rest := ParseMulti(s, r.next);
        Multi([r.value] + rest.values, Some(if rest.stop.Some? then rest.stop.value else r.next), rest.failure)
  }

  function MultiError(m: Multi, err: string): string {
    if m.failure.Some? then ErrorText(m.failure.value, err) else err
  }

  /** The loop of parse_multi. `stop` is None while parser_stop_pos has not been assigned. */
  method ParseMultiLoop(big: bool, s: seq<byte>, err: string)
    returns (values: seq<Value>, stop: Option<nat>, err': string)
    ensures var m := ParseMulti(s, 0); values == m.values && stop == m.stop && err' == MultiError(m, err)
  {
    hide Parse, ParseMulti, Continues, ErrorText;
    var parsers := BuildTable();
    var ss := new IStream(s);
    values, stop, err' := [], None, err;
    ghost var whole := ParseMulti(s, 0);
    NothingYet(whole);
    var p := ss.Tellg();
    while p != |s| && !ss.eof && !ss.fail
      invariant ss.Valid() && ss.data == s && fresh(ss)
      invariant p == if ss.fail then -1 else ss.pos
      invariant ss.eof ==> ss.fail
      invariant ss.fail ==> values == whole.values && stop == whole.stop && err' == MultiError(whole, err)
      invariant !ss.fail ==> err' == err && Continues(whole, values, stop, ParseMulti(s, ss.pos))
      decreases |s| - ss.pos, if ss.fail then 0 else 1
    {
      var next;
      CollectNext(whole, values, stop, s, ss.pos);
      next, err' := ParseStream(big, parsers, ss, err');
      if !ss.fail {
        values := values + [next];
        var at := ss.Tellg();
        stop := Some(at);
      }
      p := ss.Tellg();
    }
    if !ss.fail { CollectedAll(whole, values, stop, s); }
  }

  lemma NothingYet(whole: Multi)
    ensures Continues(whole, [], None, whole)
  {
  }

  lemma CollectedAll(whole: Multi, values: seq<Value>, stop: Option<nat>, s: seq<byte>)
    requires Continues(whole, values, stop, ParseMulti(s, |s|))
    ensures whole == Multi(values, stop, None)
  {
  }

  lemma CollectNext(whole: Multi, values: seq<Value>, stop: Option<nat>, s: seq<byte>, p: nat)
    requires p < |s| && Continues(whole, values, stop, ParseMulti(s, p))
    ensures var r := Parse(s, p, MAX_LEVELS);
            if r.Ok? then Continues(whole, values + [r.value], Some(r.next), ParseMulti(s, r.next))
            else whole == Multi(values, stop, Some(r))
  {
    hide Parse;
  }

  /** The whole reading is what was collected so far followed by the rest. */
  predicate Continues(whole: Multi, values: seq<Value>, stop: Option<nat>, rest: Multi) {
    && whole.values == values + rest.values
    && whole.stop == (if rest.stop.Some? then rest.stop else stop)
    && whole.failure == rest.failure
  }

  /** What parse_multi returns, said without its loop: value i lies between marks i and i + 1, the stop position is the
      last mark, and reading stopped there because the string was over or did not parse any further. */
  predicate IsSuccessiveParses(s: seq<byte>, p: nat, m: Multi, marks: seq<nat>) {
    && |marks| == |m.values| + 1
    && marks[0] == p
    && (forall i | 0 <= i < |marks| :: marks[i] <= |s|)
    && (forall i | 0 <= i < |m.values| :: IsNextParse(s, marks[i], m.values[i], marks[i + 1]))
    && var last := marks[|m.values|];
       && m.stop == (if m.values == [] then None else Some(last))
       && m.failure == (if last == |s| then None else Some(Parse(s, last, MAX_LEVELS)))
       && (last < |s| ==> Parse(s, last, MAX_LEVELS).Err?)
  }

  predicate IsNextParse(s: seq<byte>, p: nat, v: Value, q: nat) {
    p < q <= |s| && Parse(s, p, MAX_LEVELS) == Ok(v, q)
  }

  /** On any input parse_multi returns exactly the successive successful parses. */
  lemma {:induction false} MultiIsSuccessive(s: seq<byte>, p: nat) returns (marks: seq<nat>)
    requires p <= |s|
    ensures IsSuccessiveParses(s, p, ParseMulti(s, p), marks)
    decreases |s| - p
  {
    hide Parse, IsNextParse;
    marks := [p];
    if p < |s| && Parse(s, p, MAX_LEVELS).Ok? {
      var r := Parse(s, p, MAX_LEVELS);
      var rest := MultiIsSuccessive(s, r.next);
      marks := [p] + rest;
      FirstParse(s, p);
      MarksPrepended(s, p, r, ParseMulti(s, r.next), rest, ParseMulti(s, p), marks);
    }
  }

  lemma FirstParse(s: seq<byte>, p: nat)
    requires p < |s| && Parse(s, p, MAX_LEVELS).Ok?
    ensures IsNextParse(s, p, Parse(s, p, MAX_LEVELS).value, Parse(s, p, MAX_LEVELS).next)
  {
    hide Parse;
  }

  lemma MarksPrepended(s: seq<byte>, p: nat, r: Result, m: Multi, rest: seq<nat>, m': Multi, marks: seq<nat>)
    requires p < |s| && r.Ok? && IsNextParse(s, p, r.value, r.next)
    requires IsSuccessiveParses(s, r.next, m, rest)
    requires marks == [p] + rest && m'.values == [r.value] + m.values && m'.failure == m.failure
    requires m'.stop == Some(if m.stop.Some? then m.stop.value else r.next)
    ensures IsSuccessiveParses(s, p, m', marks)
  {
    hide Parse, IsNextParse;
    forall i | 0 <= i < |m'.values|
      ensures IsNextParse(s, marks[i], m'.values[i], marks[i + 1])
    {
      if i > 0 {
        assert IsNextParse(s, rest[i - 1], m.values[i - 1], rest[i]);
      }
    }
    assert marks[|m'.values|] == rest[|m.values|];
  }

  /** What parse gives back after dump: no length or level too many. */
  predicate Readable(v: Value) {
    Writable(v) && Ordered(v) && Height(v) <= MAX_LEVELS
  }

  predicate ReadableItems(vs: seq<Value>) {
    forall i | 0 <= i < |vs| :: Readable(vs[i])
  }

  /** Encodings back to back come back as the values, all of them, with the stop position at the very end. */
  lemma {:induction false} MultiOfDumps(s: seq<byte>, p: nat, vs: seq<Value>)
    requires ReadableItems(vs)
    requires At(s, p, EncodeItems(vs)) && p + |EncodeItems(vs)| == |s|
    ensures ParseMulti(s, p) == Multi(NormItems(vs), if vs == [] then None else Some(|s|), None)
    decreases vs
  {
    hide Parse, Encode, Norm, Typed, Short, Ordered, Height;
    if vs != [] {
      AtConcat(s, p, Encode(vs[0]), EncodeItems(vs[1..]));
      ReadBack(s, p, vs[0], MAX_LEVELS);
      MultiOfDumps(s, p + |Encode(vs[0])|, vs[1..]);
    }
  }

  /** parse_multi inverts dumping values one after the other. */
  lemma DumpsThenParseMulti(vs: seq<Value>)
    requires ReadableItems(vs)
    ensures var s := EncodeItems(vs);
            ParseMulti(s, 0) == Multi(NormItems(vs), if vs == [] then None else Some(|s|), None)
  {
    hide Encode, EncodeItems, NormItems, Typed, Short, Ordered, Height, ParseMulti;
    var s := EncodeItems(vs);
    assert s[0..|s|] == s;
    MultiOfDumps(s, 0, vs);
  }

  // ---- Separators ----------------------------------------------------------------------------------

  /** Bytes of ASCII, whitespace among them, as parse reads them one by one. */
  function AsIntegers(t: seq<byte>): (r: seq<Value>)
    ensures |r| == |t| && forall i | 0 <= i < |t| :: r[i] == Int(U8, t[i])
  {
    if t == [] then [] else [Int(U8, t[0])] + AsIntegers(t[1..])
  }

  /** Whatever stands between encodings to separate them, whitespace or any other run of bytes below 0x80, is not
      skipped: each byte is read as an integer. The values come back alone exactly when nothing separates them. */
  lemma SeparatorsAreIntegers(vs: seq<Value>, t: seq<byte>, ws: seq<Value>)
    requires ReadableItems(vs) && ReadableItems(ws) && forall i | 0 <= i < |t| :: t[i] < 0x80
    ensures var s := EncodeItems(vs) + t + EncodeItems(ws);
            && ParseMulti(s, 0).values == NormItems(vs) + AsIntegers(t) + NormItems(ws)
            && ParseMulti(s, 0).stop == (if s == [] then None else Some(|s|))
            && ParseMulti(s, 0).failure == None
    ensures var s := EncodeItems(vs) + t + EncodeItems(ws);
            ParseMulti(s, 0).values == NormItems(vs) + NormItems(ws) <==> t == []
  {
    hide *;
    EncodedIntegers(t);
    ReadableJoin(vs, AsIntegers(t));
    ReadableJoin(vs + AsIntegers(t), ws);
    var all := vs + AsIntegers(t) + ws;
    DumpsThenParseMulti(all);
    NoBytesNoValues(all);
    if t == [] { assert NormItems(vs) + [] + NormItems(ws) == NormItems(vs) + NormItems(ws); }
  }

  lemma NoBytesNoValues(vs: seq<Value>)
    ensures EncodeItems(vs) == [] <==> vs == []
  {
    hide Encode;
    if vs != [] { SomeBytes(vs[0]); }
  }

  lemma SomeBytes(v: Value)
    ensures Encode(v) != []
  {
    hide BigEndian;
  }

  lemma {:induction false} EncodedIntegers(t: seq<byte>)
    requires forall i | 0 <= i < |t| :: t[i] < 0x80
    ensures EncodeItems(AsIntegers(t)) == t && NormItems(AsIntegers(t)) == AsIntegers(t)
    ensures ReadableItems(AsIntegers(t)) && |AsIntegers(t)| == |t|
  {
    hide Encode, Norm, Readable;
    if t != [] {
      EncodedInteger(t[0]);
      EncodedIntegers(t[1..]);
      assert AsIntegers(t)[1..] == AsIntegers(t[1..]);
      assert [t[0]] + t[1..] == t;
    }
  }

  lemma EncodedInteger(b: byte)
    requires b < 0x80
    ensures Encode(Int(U8, b)) == [b] && Norm(Int(U8, b)) == Int(U8, b) && Readable(Int(U8, b))
  {
  }

  lemma ReadableJoin(vs: seq<Value>, ws: seq<Value>)
    requires ReadableItems(vs) && ReadableItems(ws)
    ensures ReadableItems(vs + ws)
    ensures EncodeItems(vs + ws) == EncodeItems(vs) + EncodeItems(ws)
    ensures NormItems(vs + ws) == NormItems(vs) + NormItems(ws)
  {
    hide Readable, EncodeItems, Norm, NormItems;
    EncodeItemsConcat(vs, ws);
  }

  lemma {:induction false} EncodeItemsConcat(vs: seq<Value>, ws: seq<Value>)
    ensures EncodeItems(vs + ws) == EncodeItems(vs) + EncodeItems(ws)
  {
    hide Encode;
    if vs == [] {
      assert vs + ws == ws;
    } else {
      EncodeItemsConcat(vs[1..], ws);
      assert (vs + ws)[1..] == vs[1..] + ws;
      ConcatAssociates(Encode(vs[0]), EncodeItems(vs[1..]), EncodeItems(ws));
    }
  }

  /** Dump on one host, parse on another: the bytes do not depend on either byte order, so the value comes back as
      described by Norm, or is refused with a format error when it nests too deep. */
  method DumpAndParse(writerBigEndian: bool, readerBigEndian: bool, v: Value, err: string)
    returns (ret: Value, err': string)
    requires Typed(v) && Short(v) && Ordered(v)
    ensures Height(v) <= MAX_LEVELS ==> ret == Norm(v) && err' == err
    ensures Height(v) > MAX_LEVELS ==> ret == Null && err' == "format error."
  {
    hide Encode, Norm, Typed, Short, Ordered, Height, Parse;
    var os := new OStream();
    var ok := Dump(writerBigEndian, v, os);
    assert os.out == Encode(v) + [];
    DepthThreshold(v, []);
    if Height(v) <= MAX_LEVELS { DumpThenParse(v, []); }
    ret, err' := ParseWhole(readerBigEndian, os.out, err);
  }
}
