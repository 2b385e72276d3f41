/** The promises of dump and parse taken together. */
module Codec {
  import opened Bytes
  import Ieee754
  import opened Values
  import opened Comparison
  import NumberOrder
  import opened ValueOrder
  import opened Encoding
  import opened Decoding
  import opened NormOrder
  import opened SelfEquality
  import opened RoundTrip
  import opened Grammar
  import opened Interrupted
  import opened Prefixes
  import opened Reserialise

  /** The deepest level parse_msgpack accepts, counting the outermost value as level 0. */
  const MAX_DEPTH: nat := 200

  const MAX_LEVELS: nat := MAX_DEPTH + 1

  /** MsgPack::parse on a whole byte string. */
  function ParseAll(s: seq<byte>): (r: Result) {
    Parse(s, 0, MAX_LEVELS)
  }

  /** dump, then anything, then parse: the value comes back, retyped, and the rest is left alone. The value that
      comes back equals the original exactly when it has no NaN. */
  lemma DumpThenParse(v: Value, t: seq<byte>)
    requires Writable(v) && Ordered(v) && Height(v) <= MAX_LEVELS
    ensures ParseAll(Encode(v) + t) == Ok(Norm(v), |Encode(v)|)
    ensures Equals(Norm(v), v) <==> NanFree(v)
  {
    hide Parse, Encode, Norm, Typed, Short, Ordered, Equals, NanFree, Height;
    assert (Encode(v) + t)[0..|Encode(v)|] == Encode(v);
    ReadBack(Encode(v) + t, 0, v, MAX_LEVELS);
    EqualsItsNorm(v);
  }

  /** parse accepts exactly the language of the MessagePack specification, up to the depth limit, with any header the
      specification allows, and returns what the text denotes. */
  lemma ParseAcceptsTheFormat(s: seq<byte>, v: Value, n: nat)
    ensures ParseAll(s) == Ok(v, n) <==> exists w: Wire :: Denotes(s, n, w, v)
  {
    hide Parse, Spell, Meaning, Legal, Depth;
    if ParseAll(s) == Ok(v, n) {
      var w := ParsedIsSpelled(s, 0, MAX_LEVELS);
      assert Denotes(s, n, w, v);
    }
    forall w: Wire | Denotes(s, n, w, v)
      ensures ParseAll(s) == Ok(v, n)
    {
      SpelledIsRead(s, 0, w, MAX_LEVELS);
    }
  }

  /** The first n bytes are the text of w, which nests within the limit and denotes v. */
  predicate Denotes(s: seq<byte>, n: nat, w: Wire, v: Value) {
    Legal(w) && Depth(w) <= MAX_LEVELS && n == |Spell(w)| && At(s, 0, Spell(w)) && Meaning(w) == v
  }

  /** dump writes a text of the format that denotes the value, retyped. */
  lemma DumpIsSpelled(v: Value) returns (w: Wire)
    requires Writable(v) && Ordered(v)
    ensures Legal(w) && Spell(w) == Encode(v) && Meaning(w) == Norm(v)
  {
    hide Parse, Encode, Norm, Typed, Short, Ordered, Height, Spell, Meaning, Legal, Depth;
    var s := Encode(v);
    assert s[0..|s|] == s;
    ReadBack(s, 0, v, Height(v));
    w := ParsedIsSpelled(s, 0, Height(v));
    assert s[0..|Spell(w)|] == s;
  }

  /** No text of the format with that meaning is shorter than what dump writes. */
  lemma DumpIsShortest(v: Value, w: Wire)
    requires Legal(w) && Norm(Meaning(w)) == Norm(v)
    ensures |Encode(v)| <= |Spell(w)|
  {
    hide Parse, Encode, Norm, Spell, Meaning, Legal, Depth;
    var s := Spell(w);
    assert s[0..|s|] == s;
    SpelledIsRead(s, 0, w, Depth(w));
    ParsedGrowth(s, 0, Depth(w));
    EncodeOfNorm(v);
    EncodeOfNorm(Meaning(w));
  }

  /** Depth alone decides: what dump wrote parses exactly when it nests at most MAX_DEPTH deep, and otherwise the
      failure is a format error, not the end of the buffer. */
  lemma DepthThreshold(v: Value, t: seq<byte>)
    requires Writable(v)
    ensures ParseAll(Encode(v) + t).Ok? <==> Height(v) <= 201
    ensures ParseAll(Encode(v) + t).Err? ==> !ParseAll(Encode(v) + t).eof
  {
    hide Parse, Encode, Norm, Typed, Short, Ordered, Height;
    assert (Encode(v) + t)[0..|Encode(v)|] == Encode(v);
    ReadBack(Encode(v) + t, 0, v, MAX_LEVELS);
  }

  /** No successful parse returns a value that nests deeper than the limit. */
  lemma ResultsAreShallow(s: seq<byte>)
    requires ParseAll(s).Ok?
    ensures Height(ParseAll(s).value) <= 201
  {
    hide Parse;
    ParsedFits(s, 0, MAX_LEVELS);
  }

  /** A string cut short before the end of its value is always noticed, and blamed on the end of the buffer. */
  lemma TruncationIsDetected(s: seq<byte>, k: nat)
    requires ParseAll(s).Ok? && k < ParseAll(s).next
    ensures ParseAll(s[..k]) == Err(true, k)
  {
    hide Parse;
    ParseOfPrefix(s, 0, MAX_LEVELS, k);
  }

  /** No encoding is a proper prefix of another, at any depth. */
  lemma EncodingsArePrefixFree(v: Value, w: Value, t: seq<byte>)
    requires Writable(v) && Writable(w) && Encode(w) == Encode(v) + t
    ensures t == []
  {
    hide Parse, Encode, Norm, Typed, Short, Ordered, Height;
    var levels := Max(Height(v), Height(w));
    var s := Encode(w);
    assert s[0..|Encode(v)|] == Encode(v) && s[0..|s|] == s;
    ReadBack(s, 0, v, levels);
    ReadBack(s, 0, w, levels);
  }

  /** Two values are written alike exactly when they agree up to integer types. */
  lemma SameBytesExactlyWhenSameNorm(v: Value, w: Value)
    requires Writable(v) && Writable(w) && Ordered(v) && Ordered(w)
    ensures Encode(v) == Encode(w) <==> Norm(v) == Norm(w)
  {
    hide Parse, Encode, Norm, Typed, Short, Ordered, Height;
    EncodeOfNorm(v);
    EncodeOfNorm(w);
    if Encode(v) == Encode(w) {
      var levels := Max(Height(v), Height(w));
      var s := Encode(v);
      assert s[0..|s|] == s;
      ReadBack(s, 0, v, levels);
      ReadBack(s, 0, w, levels);
    }
  }

  /** Without floats, operator== is equality of the bytes dump writes. */
  lemma EqualityIsByteEquality(v: Value, w: Value)
    requires Writable(v) && Writable(w) && Ordered(v) && Ordered(w)
    requires FloatFree(v) && FloatFree(w)
    ensures Equals(v, w) <==> Encode(v) == Encode(w)
  {
    hide *;
    WritableIsTyped(v);
    WritableIsTyped(w);
    SameBytesExactlyWhenSameNorm(v, w);
    EqualsIsSameNorm(v, w);
  }

  lemma WritableIsTyped(v: Value)
    requires Writable(v)
    ensures Typed(v)
  {
    hide Typed, Short;
  }

  /** With floats only one direction survives: equal bytes of NaN-free values mean equal values. */
  lemma SameBytesAreEqual(v: Value, w: Value)
    requires Writable(v) && Writable(w) && Ordered(v) && Ordered(w)
    requires NanFree(v) && Encode(v) == Encode(w)
    ensures Equals(v, w)
  {
    hide *;
    EqualityAndBytes(v, w);
  }

  /** A dump that ended in a throw leaves nothing behind that parses. */
  lemma InterruptedDumpIsDetected(v: Value)
    requires Typed(v) && !Short(v)
    ensures ParseAll(Written(v)).Err?
  {
    hide Parse, Written, Typed, Short;
    assert Written(v)[0..|Written(v)|] == Written(v);
    WrittenDoesNotParse(Written(v), 0, v, MAX_LEVELS);
  }

  /** Whatever parsed, dumping the result takes at most as many bytes as parsing it consumed. */
  lemma ReserialisingNeverGrows(s: seq<byte>)
    requires ParseAll(s).Ok?
    ensures |Encode(ParseAll(s).value)| <= ParseAll(s).next
    ensures Writable(ParseAll(s).value)
  {
    hide Parse, Encode, Typed, Short;
    ParsedGrowth(s, 0, MAX_LEVELS);
    ParsedFits(s, 0, MAX_LEVELS);
  }

  /** One pass through parse and dump normalises for good: a second pass reproduces the same bytes. */
  lemma ReserialisingIsStable(s: seq<byte>)
    requires ParseAll(s).Ok? && KeysTame(ParseAll(s).value)
    ensures var once := Encode(ParseAll(s).value);
            ParseAll(once).Ok? && ParseAll(once).next == |once| && Encode(ParseAll(once).value) == once
  {
    hide Parse, Encode, Norm, Typed, Short, Ordered, KeysTame, Height, Equals, NanFree;
    var w := ParseAll(s).value;
    ParsedFits(s, 0, MAX_LEVELS);
    ParsedOrdered(s, 0, MAX_LEVELS);
    DumpThenParse(w, []);
    assert Encode(w) + [] == Encode(w);
    EncodeOfNorm(w);
  }

  /** With floats: two values are written alike, and free of NaNs, exactly when they are equal and every two numbers at
      the same place are of one class and not zeros of opposite sign. */
  lemma EqualityAndBytes(v: Value, w: Value)
    requires Writable(v) && Writable(w) && Ordered(v) && Ordered(w)
    ensures Equals(v, w) && Alike(v, w) <==> Encode(v) == Encode(w) && NanFree(v)
  {
    hide *;
    WritableIsTyped(v);
    WritableIsTyped(w);
    SameBytesExactlyWhenSameNorm(v, w);
    EqualAndAlikeIsSameNorm(v, w);
  }

  /** Where equality and bytes part: the double 2^53 equals the integer 2^53 but is written differently. */
  lemma EqualFloatWithOtherBytes()
    ensures var f, n := F64(0x4340_0000_0000_0000), Int(I64, Ieee754.TWO_53);
            Equals(n, f) && Encode(f) != Encode(n)
  {
    hide Equals, BigEndian;
    NumberOrder.EqualityIsNotTransitive();
    assert Encode(F64(0x4340_0000_0000_0000))[0] != Encode(Int(I64, Ieee754.TWO_53))[0];
  }
}
