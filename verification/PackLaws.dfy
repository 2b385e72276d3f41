/** What packing a struct tree keeps: everything but the sign of non-negative integers on the wire. */
module PackLaws {
  import opened Bytes
  import opened Values
  import opened Comparison
  import opened ValueOrder
  import opened Encoding
  import opened Decoding
  import opened RoundTrip
  import opened Codec
  import opened BenchObject
  import opened Packing
  import opened Options

  // ---- The value mirrors the tree --------------------------------------------------------------------

  /** Scalar by scalar, text by text, children in order; doubles by their bits, integers by their number. */
  predicate Mirrors(v: Value, o: Object)
    requires Shaped(o)
    decreases o
  {
    match o
    case ONil => v.Null?
    case OBool(b) => v.Bool? && v.b == b
    case ODouble(bits) => v.F64? && v.bits64 == bits
    case OInt(i) => v.Int? && v.n == i
    case OUint(u) => v.Int? && v.n == u
    case OStr(l, str) => v.Str? && v.str == str[..l]
    case OArray(_, children) =>
      v.Arr? && |v.items| == |children| && forall k | 0 <= k < |children| :: Mirrors(v.items[k], children[k])
    case OMap(_, children) =>
      && v.Obj?
      && 2 * |v.entries| == |children|
      && forall k | 0 <= k < |v.entries| ::
           Mirrors(v.entries[k].key, children[2 * k]) && Mirrors(v.entries[k].value, children[2 * k + 1])
  }

  lemma {:induction false} PackMirrors(o: Object)
    requires Shaped(o) && Clean(o)
    ensures Mirrors(Pack(o), o)
    decreases o
  {
    hide CString, PackEntries, PlainEntries;
    match o
    case OStr(l, str) => CStringIsText(str, l);
    case OArray(_, children) =>
      forall k | 0 <= k < |children|
        ensures Mirrors(PackElements(children)[k], children[k])
      {
        PackMirrors(children[k]);
      }
    case OMap(l, children) =>
      PackCleanMap(l, children);
      PlainEntriesAt(children, 0);
      forall k | 0 <= k < |children| / 2
        ensures Mirrors(PlainEntries(children)[k].key, children[2 * k])
        ensures Mirrors(PlainEntries(children)[k].value, children[2 * k + 1])
      {
        PlainEntriesAt(children, k);
        PackMirrors(children[2 * k + 1]);
      }
    case _ =>
  }

  /** Retyping integers is no matter. */
  lemma {:induction false} NormMirrors(v: Value, o: Object)
    requires Shaped(o) && Mirrors(v, o)
    ensures Mirrors(Norm(v), o)
    decreases o
  {
    match o
    case OArray(_, children) =>
      forall k | 0 <= k < |children|
        ensures Mirrors(NormItems(v.items)[k], children[k])
      {
        NormMirrors(v.items[k], children[k]);
      }
    case OMap(_, children) =>
      forall k | 0 <= k < |v.entries|
        ensures Mirrors(NormPairs(v.entries)[k].key, children[2 * k])
        ensures Mirrors(NormPairs(v.entries)[k].value, children[2 * k + 1])
      {
        NormMirrors(v.entries[k].key, children[2 * k]);
        NormMirrors(v.entries[k].value, children[2 * k + 1]);
      }
    case _ =>
  }

  /** What comes back over the wire mirrors the struct tree it was packed from, doubles included. */
  lemma WireMirrors(o: Object)
    requires Shaped(o) && Clean(o) && ObjectHeight(o) <= MAX_LEVELS
    ensures var r := ParseAll(Encode(Pack(o))); r.Ok? && Mirrors(r.value, o)
  {
    hide Parse, Encode, Norm, Pack, Mirrors, Shaped, Clean, Writable, Ordered, Height, ObjectHeight, Equals;
    CleanPacksWell(o);
    DumpThenParse(Pack(o), []);
    assert Encode(Pack(o)) + [] == Encode(Pack(o));
    PackMirrors(o);
    NormMirrors(Pack(o), o);
  }

  // ---- The value determines the tree ------------------------------------------------------------------

  /** A clean string with nothing behind its terminator is determined by its text. */
  lemma TextDetermines(o: Object, o': Object)
    requires o.OStr? && o'.OStr? && Shaped(o) && Shaped(o') && Clean(o) && Clean(o') && Exact(o) && Exact(o')
    requires Text(o) == Text(o')
    ensures o == o'
  {
    assert o.str == Text(o) + [0] && o'.str == Text(o') + [0];
  }

  /** Clean trees packed alike are equal. */
  lemma {:induction false} PackDetermines(o: Object, o': Object)
    requires Shaped(o) && Shaped(o') && Clean(o) && Clean(o') && Exact(o) && Exact(o')
    requires Pack(o) == Pack(o')
    ensures o == o'
    decreases o
  {
    hide CString, PackEntries, PlainEntries;
    match o
    case OStr(l, str) =>
      CStringIsText(str, l);
      CStringIsText(o'.str, o'.l);
      TextDetermines(o, o');
    case OArray(_, children) =>
      ElementsDetermine(children, o'.children);
    case OMap(l, children) =>
      PackCleanMap(l, children);
      PackCleanMap(o'.l, o'.children);
      EntriesDetermine(children, o'.children);
    case _ =>
  }

  lemma {:induction false} ElementsDetermine(children: seq<Object>, others: seq<Object>)
    requires forall k | 0 <= k < |children| :: Shaped(children[k]) && Clean(children[k]) && Exact(children[k])
    requires forall k | 0 <= k < |others| :: Shaped(others[k]) && Clean(others[k]) && Exact(others[k])
    requires PackElements(children) == PackElements(others)
    ensures children == others
    decreases children, 0
  {
    hide Pack, Shaped, Clean, Exact, PackElements;
    assert |children| == |others|;
    forall k | 0 <= k < |children|
      ensures children[k] == others[k]
    {
      assert PackElements(children)[k] == PackElements(others)[k];
      PackDetermines(children[k], others[k]);
    }
  }

  lemma {:induction false} EntriesDetermine(children: seq<Object>, others: seq<Object>)
    requires ShapedEntries(children) && ShapedEntries(others)
    requires forall k | 0 <= k < |children| :: Clean(children[k]) && Exact(children[k])
    requires forall k | 0 <= k < |others| :: Clean(others[k]) && Exact(others[k])
    requires PlainEntries(children) == PlainEntries(others)
    ensures children == others
    decreases children, 0
  {
    hide Pack, Shaped, Clean, Exact, PlainEntries, Text;
    PlainEntriesAt(children, 0);
    PlainEntriesAt(others, 0);
    assert |children| == |others|;
    forall i | 0 <= i < |children|
      ensures children[i] == others[i]
    {
      var k := i / 2;
      assert i == 2 * k || i == 2 * k + 1;
      PlainEntriesAt(children, k);
      PlainEntriesAt(others, k);
      TextDetermines(children[2 * k], others[2 * k]);
      PackDetermines(children[2 * k + 1], others[2 * k + 1]);
    }
  }

  // ---- Assignment under a key ---------------------------------------------------------------------------

  predicate TextKeys(entries: seq<Pair>) {
    forall i | 0 <= i < |entries| :: entries[i].key.Str?
  }

  lemma TextsCompare(s: seq<byte>, t: seq<byte>)
    ensures Less(Str(s), Str(t)) <==> BytesLess(s, t)
    ensures !BytesLess(s, t) && !BytesLess(t, s) <==> s == t
    ensures !(BytesLess(s, t) && BytesLess(t, s))
  {
    BytesLessIsCompare(s, t);
    BytesLessIsCompare(t, s);
    BytesFlip(s, t);
  }

  /** Afterwards the key has the new value, every other key what it had, and the map is still in order. */
  lemma {:induction false} AssignSets(entries: seq<Pair>, key: seq<byte>, value: Value)
    requires SortedByKey(entries) && TextKeys(entries)
    ensures var r := Assign(entries, Str(key), value);
            && SortedByKey(r) && TextKeys(r)
            && forall p: Pair :: p in r <==> if p.key == Str(key) then p.value == value else p in entries
  {
    hide BytesLess, Less;
    if entries != [] {
      var head, tail := entries[0], entries[1..];
      assert entries == [head] + tail;
      TextsCompare(head.key.str, key);
      TextsCompare(key, head.key.str);
      if Less(head.key, Str(key)) {
        AssignSets(tail, key, value);
        AssignKeys(tail, key, value, head.key);
        PrependKey(head, Assign(tail, Str(key), value));
      } else if Less(Str(key), head.key) {
        AllAbove(entries, key);
        PrependKey(Pair(Str(key), value), entries);
      } else {
        forall p | p in tail
          ensures p.key != Str(key)
        {
          TextsCompare(key, key);
        }
        PrependKey(Pair(head.key, value), tail);
      }
    }
  }

  lemma AllAbove(entries: seq<Pair>, key: seq<byte>)
    requires entries != [] && SortedByKey(entries) && TextKeys(entries) && Less(Str(key), entries[0].key)
    ensures forall p | p in entries :: Less(Str(key), p.key) && p.key != Str(key)
  {
    hide Less;
    forall i | 0 <= i < |entries|
      ensures Less(Str(key), entries[i].key) && entries[i].key != Str(key)
    {
      if i > 0 { LessIsStrictWeakOrder(Str(key), entries[0].key, entries[i].key); }
      LessIsStrictWeakOrder(Str(key), Str(key), Str(key));
    }
  }

  lemma {:induction false} AssignKeys(entries: seq<Pair>, key: seq<byte>, value: Value, low: Value)
    requires Less(low, Str(key)) && forall p | p in entries :: Less(low, p.key)
    ensures forall p | p in Assign(entries, Str(key), value) :: Less(low, p.key)
  {
    hide Less;
    if entries != [] {
      assert entries == [entries[0]] + entries[1..];
      AssignKeys(entries[1..], key, value, low);
    }
  }

  lemma PrependKey(p: Pair, entries: seq<Pair>)
    requires p.key.Str? && TextKeys(entries) && SortedByKey(entries)
    requires forall q | q in entries :: Less(p.key, q.key)
    ensures SortedByKey([p] + entries) && TextKeys([p] + entries)
  {
    hide Less;
  }

  /** The value a list of keys and values assigns last under a text. */
  function LastValue(children: seq<Object>, key: seq<byte>): (v: Option<Value>)
    requires ShapedEntries(children)
    decreases |children|
  {
    if children == [] then None
    else
      var later := LastValue(children[2..], key);
      if later.Some? then later else if CString(children[0].str) == key then Some(Pack(children[1])) else None
  }

  /** A packed map is in order and holds, under each key, the value assigned last, also where keys repeat. */
  lemma {:induction false} LastAssignmentWins(children: seq<Object>, entries: seq<Pair>)
    requires ShapedEntries(children) && SortedByKey(entries) && TextKeys(entries)
    ensures var r := PackEntries(children, entries);
            && SortedByKey(r) && TextKeys(r)
            && forall k: seq<byte>, v: Value :: Pair(Str(k), v) in r
                 <==> if LastValue(children, k).Some? then LastValue(children, k).value == v
                      else Pair(Str(k), v) in entries
    decreases |children|
  {
    hide Pack, Shaped, CString, Assign, Less;
    if children != [] {
      var key, value := CString(children[0].str), Pack(children[1]);
      AssignSets(entries, key, value);
      LastAssignmentWins(children[2..], Assign(entries, Str(key), value));
    }
  }
}
