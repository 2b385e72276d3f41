/** A successful parse depends on exactly the bytes it used: the same bytes elsewhere give the same value, and any
    proper prefix of them is reported as the end of the buffer. */
module Prefixes {
  import opened Bits
  import opened Bytes
  import opened Values
  import opened Encoding
  import opened Formats
  import opened Maps
  import opened Decoding

  // ---- Locality ------------------------------------------------------------------------------

  lemma NumberElsewhere(s: seq<byte>, p: nat, q: nat, s': seq<byte>, p': nat, width: nat)
    requires p + width <= q <= |s| && At(s', p', s[p..q])
    ensures p' + width <= |s'| && NumberAt(s', p', width) == NumberAt(s, p, width)
  {
    AtSlice(s, p, q, s', p', p, p + width);
  }

  lemma SliceElsewhere(s: seq<byte>, p: nat, q: nat, s': seq<byte>, p': nat, a: nat, b: nat)
    requires p <= a <= b <= q <= |s| && At(s', p', s[p..q])
    ensures var d := a - p; p' + d + (b - a) <= |s'| && s'[p' + d..p' + d + (b - a)] == s[a..b]
  {
    AtSlice(s, p, q, s', p', a, b);
  }

  /** Where a parse that used s[p..q] ends when those bytes stand at p' of another string. */
  function Moved(r: Result, p: nat, p': nat): Result
    requires r.Ok? && p <= r.next
  {
    Ok(r.value, p' + (r.next - p))
  }

  lemma {:induction false} ParseElsewhere(s: seq<byte>, p: nat, levels: nat, s': seq<byte>, p': nat)
    requires p <= |s| && p' <= |s'|
    requires Parse(s, p, levels).Ok? && At(s', p', s[p..Parse(s, p, levels).next])
    ensures Parse(s', p', levels) == Moved(Parse(s, p, levels), p, p')
    decreases levels, 0, 0
  {
    hide ParseBody;
    var q := Parse(s, p, levels).next;
    AtSlice(s, p, q, s', p', p, p + 1);
    assert s[p..p + 1][0] == s[p] && s'[p'..p' + 1][0] == s'[p'];
    AtSlice(s, p, q, s', p', p + 1, q);
    BodyElsewhere(s, p + 1, s[p], levels - 1, s', p' + 1);
  }

  lemma {:induction false} BodyElsewhere(s: seq<byte>, p: nat, first: byte, levels: nat, s': seq<byte>, p': nat)
    requires p <= |s| && p' <= |s'|
    requires ParseBody(s, p, first, levels).Ok? && At(s', p', s[p..ParseBody(s, p, first, levels).next])
    ensures ParseBody(s', p', first, levels) == Moved(ParseBody(s, p, first, levels), p, p')
    decreases levels, 4, 0
  {
    hide ParsePayload, NumberAt, FormatOf, FieldWidth;
    var q := ParseBody(s, p, first, levels).next;
    var w := FieldWidth(FormatOf(first));
    NumberElsewhere(s, p, q, s', p', w);
    AtSlice(s, p, q, s', p', p + w, q);
    PayloadElsewhere(s, p + w, first, NumberAt(s, p, w), levels, s', p' + w);
  }

  lemma {:induction false} PayloadElsewhere(s: seq<byte>, p: nat, first: byte, n: nat, levels: nat, s': seq<byte>,
                                            p': nat)
    requires p <= |s| && p' <= |s'| && n < Pow256(FieldWidth(FormatOf(first)))
    requires ParsePayload(s, p, first, n, levels).Ok? && At(s', p', s[p..ParsePayload(s, p, first, n, levels).next])
    ensures ParsePayload(s', p', first, n, levels) == Moved(ParsePayload(s, p, first, n, levels), p, p')
    decreases levels, 3, 0
  {
    hide ParseString, ParseBinary, ParseExt, ParseArray, ParseObject, NumberAt, FormatOf, FieldWidth, Pow256;
    match FormatOf(first)
    case FixString => StringElsewhere(s, p, first % 32, s', p');
    case String(_) => StringElsewhere(s, p, n, s', p');
    case Binary(_) => BinaryElsewhere(s, p, n, s', p');
    case FixExt => ExtElsewhere(s, p, Pow2(first - 0xd4), s', p');
    case Extension(_) => ExtElsewhere(s, p, n, s', p');
    case FixArray => ArrayElsewhere(s, p, first % 16, levels, s', p');
    case Array(_) => ArrayElsewhere(s, p, n, levels, s', p');
    case FixObject => ObjectElsewhere(s, p, first % 16, levels, s', p');
    case Object(_) => ObjectElsewhere(s, p, n, levels, s', p');
    case _ =>
  }

  lemma StringElsewhere(s: seq<byte>, p: nat, len: nat, s': seq<byte>, p': nat)
    requires p <= |s| && p' <= |s'|
    requires ParseString(s, p, len).Ok? && At(s', p', s[p..ParseString(s, p, len).next])
    ensures ParseString(s', p', len) == Moved(ParseString(s, p, len), p, p')
  {
    SliceElsewhere(s, p, p + len, s', p', p, p + len);
  }

  lemma BinaryElsewhere(s: seq<byte>, p: nat, len: nat, s': seq<byte>, p': nat)
    requires p <= |s| && p' <= |s'|
    requires ParseBinary(s, p, len).Ok? && At(s', p', s[p..ParseBinary(s, p, len).next])
    ensures ParseBinary(s', p', len) == Moved(ParseBinary(s, p, len), p, p')
  {
    SliceElsewhere(s, p, p + len, s', p', p, p + len);
  }

  lemma ExtElsewhere(s: seq<byte>, p: nat, len: nat, s': seq<byte>, p': nat)
    requires p <= |s| && p' <= |s'|
    requires ParseExt(s, p, len).Ok? && At(s', p', s[p..ParseExt(s, p, len).next])
    ensures ParseExt(s', p', len) == Moved(ParseExt(s, p, len), p, p')
  {
    SliceElsewhere(s, p, p + 1 + len, s', p', p, p + 1);
    assert s[p..p + 1][0] == s[p] && s'[p'..p' + 1][0] == s'[p'];
    SliceElsewhere(s, p, p + 1 + len, s', p', p + 1, p + 1 + len);
  }

  lemma {:induction false} ArrayElsewhere(s: seq<byte>, p: nat, count: nat, levels: nat, s': seq<byte>, p': nat)
    requires p <= |s| && p' <= |s'|
    requires ParseArray(s, p, count, levels).Ok? && At(s', p', s[p..ParseArray(s, p, count, levels).next])
    ensures ParseArray(s', p', count, levels) == Moved(ParseArray(s, p, count, levels), p, p')
    decreases levels, 2, 0
  {
    hide ParseItems;
    ItemsElsewhere(s, p, count, levels, s', p');
  }

  lemma {:induction false} ObjectElsewhere(s: seq<byte>, p: nat, count: nat, levels: nat, s': seq<byte>, p': nat)
    requires p <= |s| && p' <= |s'|
    requires ParseObject(s, p, count, levels).Ok? && At(s', p', s[p..ParseObject(s, p, count, levels).next])
    ensures ParseObject(s', p', count, levels) == Moved(ParseObject(s, p, count, levels), p, p')
    decreases levels, 2, 0
  {
    hide ParseItems, BuildMap, MakePairs;
    ItemsElsewhere(s, p, 2 * count, levels, s', p');
  }

  lemma {:induction false} ItemsElsewhere(s: seq<byte>, p: nat, count: nat, levels: nat, s': seq<byte>, p': nat)
    requires p <= |s| && p' <= |s'|
    requires ParseItems(s, p, count, levels).Items? && At(s', p', s[p..ParseItems(s, p, count, levels).next])
    ensures var r := ParseItems(s, p, count, levels);
            ParseItems(s', p', count, levels) == Items(r.items, p' + (r.next - p))
    decreases levels, 1, count
  {
    hide Parse;
    if count > 0 {
      var q := ParseItems(s, p, count, levels).next;
      var m := Parse(s, p, levels).next;
      AtSlice(s, p, q, s', p', p, m);
      ParseElsewhere(s, p, levels, s', p');
      AtSlice(s, p, q, s', p', m, q);
      ItemsElsewhere(s, m, count - 1, levels, s', p' + (m - p));
    }
  }

  // ---- Truncation ------------------------------------------------------------------------------

  lemma NumberInPrefix(s: seq<byte>, k: nat, p: nat, width: nat)
    requires p + width <= k <= |s|
    ensures NumberAt(s[..k], p, width) == NumberAt(s, p, width)
  {
    assert s[..k][p..p + width] == s[p..p + width];
  }

  /** Cut anywhere inside the bytes it used, a successful parse reports the end of the buffer at the cut. */
  lemma {:induction false} ParseOfPrefix(s: seq<byte>, p: nat, levels: nat, k: nat)
    requires p <= k <= |s|
    requires Parse(s, p, levels).Ok? && k < Parse(s, p, levels).next
    ensures Parse(s[..k], p, levels) == Err(true, k)
    decreases levels, 0, 0
  {
    hide ParseBody;
    if p < k {
      BodyOfPrefix(s, p + 1, s[p], levels - 1, k);
    }
  }

  lemma {:induction false} BodyOfPrefix(s: seq<byte>, p: nat, first: byte, levels: nat, k: nat)
    requires p <= k <= |s|
    requires ParseBody(s, p, first, levels).Ok? && k < ParseBody(s, p, first, levels).next
    ensures ParseBody(s[..k], p, first, levels) == Err(true, k)
    decreases levels, 4, 0
  {
    hide ParsePayload, NumberAt, FormatOf, FieldWidth;
    var w := FieldWidth(FormatOf(first));
    if p + w <= k {
      NumberInPrefix(s, k, p, w);
      PayloadOfPrefix(s, p + w, first, NumberAt(s, p, w), levels, k);
    }
  }

  lemma {:induction false} PayloadOfPrefix(s: seq<byte>, p: nat, first: byte, n: nat, levels: nat, k: nat)
    requires p <= k <= |s| && n < Pow256(FieldWidth(FormatOf(first)))
    requires ParsePayload(s, p, first, n, levels).Ok? && k < ParsePayload(s, p, first, n, levels).next
    ensures ParsePayload(s[..k], p, first, n, levels) == Err(true, k)
    decreases levels, 3, 0
  {
    hide ParseString, ParseBinary, ParseExt, ParseArray, ParseObject, NumberAt, FormatOf, FieldWidth, Pow256;
    match FormatOf(first)
    case FixString => LeafOfPrefix(s, p, first % 32, k);
    case String(_) => LeafOfPrefix(s, p, n, k);
    case Binary(_) => LeafOfPrefix(s, p, n, k);
    case FixExt => LeafOfPrefix(s, p, Pow2(first - 0xd4), k);
    case Extension(_) => LeafOfPrefix(s, p, n, k);
    case FixArray => ArrayOfPrefix(s, p, first % 16, levels, k);
    case Array(_) => ArrayOfPrefix(s, p, n, levels, k);
    case FixObject => ObjectOfPrefix(s, p, first % 16, levels, k);
    case Object(_) => ObjectOfPrefix(s, p, n, levels, k);
    case _ =>
  }

  lemma LeafOfPrefix(s: seq<byte>, p: nat, len: nat, k: nat)
    requires p <= k <= |s|
    ensures var r := ParseString(s, p, len); r.Ok? && k < r.next ==> ParseString(s[..k], p, len) == Err(true, k)
    ensures var r := ParseBinary(s, p, len); r.Ok? && k < r.next ==> ParseBinary(s[..k], p, len) == Err(true, k)
    ensures var r := ParseExt(s, p, len); r.Ok? && k < r.next ==> ParseExt(s[..k], p, len) == Err(true, k)
  {
  }

  lemma {:induction false} ArrayOfPrefix(s: seq<byte>, p: nat, count: nat, levels: nat, k: nat)
    requires p <= k <= |s|
    requires ParseArray(s, p, count, levels).Ok? && k < ParseArray(s, p, count, levels).next
    ensures ParseArray(s[..k], p, count, levels) == Err(true, k)
    decreases levels, 2, 0
  {
    hide ParseItems;
    ItemsOfPrefix(s, p, count, levels, k);
  }

  lemma {:induction false} ObjectOfPrefix(s: seq<byte>, p: nat, count: nat, levels: nat, k: nat)
    requires p <= k <= |s|
    requires ParseObject(s, p, count, levels).Ok? && k < ParseObject(s, p, count, levels).next
    ensures ParseObject(s[..k], p, count, levels) == Err(true, k)
    decreases levels, 2, 0
  {
    hide ParseItems, BuildMap, MakePairs;
    ItemsOfPrefix(s, p, 2 * count, levels, k);
  }

  lemma {:induction false} ItemsOfPrefix(s: seq<byte>, p: nat, count: nat, levels: nat, k: nat)
    requires p <= k <= |s|
    requires ParseItems(s, p, count, levels).Items? && k < ParseItems(s, p, count, levels).next
    ensures ParseItems(s[..k], p, count, levels) == Stopped(true, k)
    decreases levels, 1, count
  {
    hide Parse;
    if count > 0 {
      var m := Parse(s, p, levels).next;
      if k < m {
        ParseOfPrefix(s, p, levels, k);
      } else {
        assert s[..k][p..m] == s[p..m];
        ParseElsewhere(s, p, levels, s[..k], p);
        ItemsOfPrefix(s, m, count - 1, levels, k);
      }
    }
  }

  // ---- The main results ---------------------------------------------------------------------

  /** Whatever follows the bytes of a successful parse does not matter. */
  lemma ParseIgnoresTheRest(s: seq<byte>, t: seq<byte>, levels: nat)
    requires Parse(s, 0, levels).Ok?
    ensures Parse(s[..Parse(s, 0, levels).next] + t, 0, levels) == Parse(s, 0, levels)
  {
    hide Parse;
    var used := s[..Parse(s, 0, levels).next];
    assert (used + t)[0..|used|] == used == s[0..|used|];
    ParseElsewhere(s, 0, levels, used + t, 0);
  }
}
