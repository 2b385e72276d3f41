/** What the benchmark's hash computes: the 32-bit words of a tree, in hashing order, folded by "times 31, exclusive or"
    modulo 2^32; and which changes to a tree it is bound to notice. */
module HashLaws {
  import opened Bits
  import opened Bytes
  import opened Values
  import opened HostOrder
  import opened Hashing
  import opened BenchObject
  import opened ValueHash
  import opened Options

  // ---- Exclusive or ---------------------------------------------------------------------------------

  lemma {:induction false} XorAssociates(a: nat, b: nat, c: nat)
    ensures Xor(Xor(a, b), c) == Xor(a, Xor(b, c))
    decreases a + b + c
  {
    if a > 0 || b > 0 || c > 0 {
      XorHalves(a, b);
      XorHalves(b, c);
      XorHalves(Xor(a, b), c);
      XorHalves(a, Xor(b, c));
      XorAssociates(a / 2, b / 2, c / 2);
    }
  }

  lemma XorHalves(a: nat, b: nat)
    ensures Xor(a, b) / 2 == Xor(a / 2, b / 2)
    ensures Xor(a, b) % 2 == if a % 2 != b % 2 then 1 else 0
  {
  }

  lemma {:induction false} XorSelf(a: nat)
    ensures Xor(a, a) == 0 && Xor(a, 0) == a && Xor(0, a) == a
  {
    if a > 0 { XorSelf(a / 2); }
  }

  lemma {:induction false} XorSymmetric(a: nat, b: nat)
    ensures Xor(a, b) == Xor(b, a)
    decreases a + b
  {
    if a > 0 || b > 0 { XorSymmetric(a / 2, b / 2); }
  }

  lemma XorCancels(x: nat, a: nat, b: nat)
    ensures Xor(Xor(x, a), Xor(x, b)) == Xor(a, b)
  {
    hide Xor;
    XorSymmetric(x, a);
    XorAssociates(a, x, Xor(x, b));
    XorAssociates(x, x, b);
    XorSelf(x);
    XorSelf(b);
  }

  lemma {:induction false} XorZeroMeansEqual(a: nat, b: nat)
    ensures Xor(a, b) == 0 ==> a == b
    decreases a + b
  {
    if a > 0 || b > 0 { XorZeroMeansEqual(a / 2, b / 2); }
  }

  // ---- One step -------------------------------------------------------------------------------------

  /** With the word 0 a step multiplies by 31; two words leave results that differ in the bits the words differ in. */
  lemma StepLaw(hash: uint32, a: uint32, b: uint32)
    ensures HashU32(hash, 0) == 31 * hash % 0x1_0000_0000
    ensures Xor(HashU32(hash, a), HashU32(hash, b)) == Xor(a, b)
  {
    hide Xor;
    XorSelf(hash * 31 % TWO_TO_THE_32);
    XorCancels(hash * 31 % TWO_TO_THE_32, a, b);
  }

  lemma WordMatters(hash: uint32, a: uint32, b: uint32)
    ensures HashU32(hash, a) == HashU32(hash, b) ==> a == b
  {
    hide HashU32, Xor;
    StepLaw(hash, a, b);
    XorSelf(HashU32(hash, a));
    XorZeroMeansEqual(a, b);
  }

  /** Whatever was hashed so far stays visible: 31 is odd, so times 31 can be undone modulo 2^32. */
  lemma PastMatters(g: uint32, h: uint32, val: uint32)
    ensures HashU32(g, val) == HashU32(h, val) ==> g == h
  {
    if HashU32(g, val) == HashU32(h, val) {
      StripVal(g, val);
      StripVal(h, val);
      Undo31(g);
      Undo31(h);
    }
  }

  lemma StripVal(h: uint32, val: uint32)
    ensures Xor(HashU32(h, val), val) == h * 31 % TWO_TO_THE_32
  {
    hide Xor;
    XorAssociates(h * 31 % TWO_TO_THE_32, val, val);
    XorSelf(val);
    XorSelf(h * 31 % TWO_TO_THE_32);
  }

  lemma Undo31(h: uint32)
    ensures h * 31 % TWO_TO_THE_32 * 3186588639 % TWO_TO_THE_32 == h
  {
    var q, r := h * 31 / TWO_TO_THE_32, h * 31 % TWO_TO_THE_32;
    assert r * 3186588639 == h + TWO_TO_THE_32 * (23 * h - 3186588639 * q);
    ResidueOf(h, 23 * h - 3186588639 * q, r * 3186588639);
  }

  lemma ResidueOf(h: uint32, k: int, n: int)
    requires n == h + TWO_TO_THE_32 * k
    ensures n % TWO_TO_THE_32 == h
  {
  }

  // ---- Words ----------------------------------------------------------------------------------------

  function Fold(hash: uint32, words: seq<uint32>): (h: uint32)
    decreases |words|
  {
    if words == [] then hash else Fold(HashU32(hash, words[0]), words[1..])
  }

  function ByteOrZero(s: seq<byte>, p: nat): (b: byte) {
    if p < |s| then s[p] else 0
  }

  /** Four bytes from position p on, least significant first, zeros after the end. */
  function WordAt(s: seq<byte>, p: nat): (w: uint32) {
    ByteOrZero(s, p) + 0x100 * ByteOrZero(s, p + 1)
    + 0x1_0000 * ByteOrZero(s, p + 2) + 0x100_0000 * ByteOrZero(s, p + 3)
  }

  function TextWords(s: seq<byte>): (ws: seq<uint32>)
    ensures |ws| == (|s| + 3) / 4
  {
    seq((|s| + 3) / 4, k requires 0 <= k < (|s| + 3) / 4 => WordAt(s, 4 * k))
  }

  /** The words of a tree in the order they are hashed: 64-bit integers high half first in two's complement, strings
      their length and then their bytes, containers their children and then their count. Nil is 0 and the text "nil";
      doubles are all the same word. */
  function Words(o: Object): (ws: seq<uint32>)
    requires Shaped(o)
    decreases o
  {
    match o
    case ONil => [0, 3, 0x6c_69_6e]
    case OBool(b) => [if b then 1 else 0]
    case ODouble(_) => [43013]
    case OInt(i) => [i / 0x1_0000_0000 % 0x1_0000_0000, i % 0x1_0000_0000]
    case OUint(u) => [u / 0x1_0000_0000, u % 0x1_0000_0000]
    case OStr(l, str) => [l] + TextWords(str[..l])
    case OArray(l, children) => WordsOfAll(children) + [l]
    case OMap(l, children) => WordsOfAll(children) + [l]
  }

  predicate ShapedAll(children: seq<Object>) {
    forall k | 0 <= k < |children| :: Shaped(children[k])
  }

  function WordsOfAll(children: seq<Object>): (ws: seq<uint32>)
    requires ShapedAll(children)
    decreases children
  {
    if children == [] then [] else Words(children[0]) + WordsOfAll(children[1..])
  }

  lemma {:induction false} FoldConcat(hash: uint32, xs: seq<uint32>, ys: seq<uint32>)
    ensures Fold(hash, xs + ys) == Fold(Fold(hash, xs), ys)
    decreases |xs|
  {
    hide HashU32;
    if xs == [] {
      assert xs + ys == ys;
    } else {
      assert (xs + ys)[1..] == xs[1..] + ys;
      FoldConcat(HashU32(hash, xs[0]), xs[1..], ys);
    }
  }

  lemma FoldOne(hash: uint32, w: uint32)
    ensures Fold(hash, [w]) == HashU32(hash, w)
  {
    hide HashU32;
  }

  lemma FoldTwo(hash: uint32, v: uint32, w: uint32)
    ensures Fold(hash, [v, w]) == HashU32(HashU32(hash, v), w)
  {
    hide HashU32, Fold;
    FoldConcat(hash, [v], [w]);
    FoldOne(hash, v);
    FoldOne(HashU32(hash, v), w);
    assert [v] + [w] == [v, w];
  }

  lemma FirstWord(s: seq<byte>)
    requires s != []
    ensures WordAt(s, 0) == Word(if |s| < 4 then s else s[..4])
  {
    hide Word;
    WordValue(if |s| < 4 then s else s[..4]);
  }

  lemma {:induction false} TextIsFolded(hash: uint32, s: seq<byte>)
    ensures HashWords(hash, s) == Fold(hash, TextWords(s))
    decreases |s|
  {
    hide HashU32, Word, WordAt;
    if s != [] {
      FirstWord(s);
      if |s| < 4 {
        assert TextWords(s) == [WordAt(s, 0)];
        FoldOne(hash, WordAt(s, 0));
      } else {
        var rest := s[4..];
        assert TextWords(s) == [WordAt(s, 0)] + TextWords(rest) by { LaterWords(s); }
        TextIsFolded(HashU32(hash, WordAt(s, 0)), rest);
      }
    }
  }

  lemma LaterWords(s: seq<byte>)
    requires |s| >= 4
    ensures TextWords(s)[1..] == TextWords(s[4..])
  {
    forall k | 0 <= k < |TextWords(s[4..])|
      ensures WordAt(s, 4 * (k + 1)) == WordAt(s[4..], 4 * k)
    {
    }
  }

  lemma NilWords(hash: uint32)
    ensures HashNil(hash) == Fold(hash, [0, 3, 0x6c_69_6e])
  {
    hide HashU32;
    TextIsFolded(HashU32(HashU32(hash, 0), 3), NIL_TEXT);
    assert TextWords(NIL_TEXT) == [0x6c_69_6e];
    FoldConcat(hash, [0, 3], [0x6c_69_6e]);
    FoldTwo(hash, 0, 3);
    assert [0, 3] + [0x6c_69_6e] == [0, 3, 0x6c_69_6e];
  }

  lemma HalvesOf(i: int)
    ensures i % TWO_TO_THE_64 / TWO_TO_THE_32 == i / 0x1_0000_0000 % 0x1_0000_0000
    ensures i % TWO_TO_THE_64 % TWO_TO_THE_32 == i % 0x1_0000_0000
  {
    var q, r := i / TWO_TO_THE_64, i % TWO_TO_THE_64;
    assert i == q * TWO_TO_THE_64 + r;
    assert i / 0x1_0000_0000 == q * TWO_TO_THE_32 + r / TWO_TO_THE_32;
  }

  lemma TextOfStr(hash: uint32, l: uint32, s: seq<byte>)
    requires |s| == l
    ensures HashStr(hash, s) == Fold(hash, [l] + TextWords(s))
  {
    hide HashU32, HashWords, Fold, TextWords;
    FoldConcat(hash, [l], TextWords(s));
    FoldOne(hash, l);
    TextIsFolded(HashU32(hash, l), s);
  }

  /** The hash of a tree is the fold of its words. */
  lemma {:induction false} HashIsFold(o: Object, hash: uint32)
    requires Shaped(o)
    ensures HashStruct(o, hash) == Fold(hash, Words(o))
    decreases o
  {
    hide HashU32, Fold, TextWords, HashStr, HashNil;
    match o
    case ONil => NilWords(hash);
    case OBool(b) => FoldOne(hash, if b then 1 else 0);
    case ODouble(_) => FoldOne(hash, 43013);
    case OInt(i) =>
      HalvesOf(i);
      FoldTwo(hash, i / 0x1_0000_0000 % 0x1_0000_0000, i % 0x1_0000_0000);
    case OUint(u) => FoldTwo(hash, u / 0x1_0000_0000, u % 0x1_0000_0000);
    case OStr(l, str) => TextOfStr(hash, l, str[..l]);
    case OArray(l, children) =>
      ElementsAreFolded(children, hash);
      FoldConcat(hash, WordsOfAll(children), [l]);
      FoldOne(Fold(hash, WordsOfAll(children)), l);
    case OMap(l, children) =>
      EntriesAreFolded(children, hash);
      FoldConcat(hash, WordsOfAll(children), [l]);
      FoldOne(Fold(hash, WordsOfAll(children)), l);
  }

  lemma {:induction false} ElementsAreFolded(children: seq<Object>, hash: uint32)
    requires ShapedAll(children)
    ensures HashElements(children, hash) == Fold(hash, WordsOfAll(children))
    decreases children
  {
    hide HashU32, HashStruct, Words, Shaped;
    if children != [] {
      HashIsFold(children[0], hash);
      ElementsAreFolded(children[1..], HashStruct(children[0], hash));
      FoldConcat(hash, Words(children[0]), WordsOfAll(children[1..]));
    }
  }

  lemma {:induction false} EntriesAreFolded(children: seq<Object>, hash: uint32)
    requires ShapedEntries(children)
    ensures HashEntries(children, hash) == Fold(hash, WordsOfAll(children))
    decreases children
  {
    hide HashU32, HashStruct, Words, Shaped, HashStr, Text, Fold;
    if children == [] {
      FoldNone(hash);
    } else {
      var key, value, rest := children[0], children[1], children[2..];
      KeyIsFolded(key, hash);
      var h := HashStr(hash, Text(key));
      HashIsFold(value, h);
      EntriesAreFolded(rest, HashStruct(value, h));
      assert children[1..][0] == value && children[1..][1..] == rest;
      FoldConcat(hash, Words(key), WordsOfAll(children[1..]));
      FoldConcat(h, Words(value), WordsOfAll(rest));
    }
  }

  lemma FoldNone(hash: uint32)
    ensures Fold(hash, []) == hash
  {
  }

  lemma KeyIsFolded(key: Object, hash: uint32)
    requires key.OStr? && Shaped(key)
    ensures HashStr(hash, Text(key)) == Fold(hash, Words(key))
  {
    hide HashStr, Fold, TextWords;
    TextOfStr(hash, key.l, Text(key));
  }

  // ---- The hash of a parsed value ---------------------------------------------------------------------------

  /** Without binaries and extensions, and with strings for keys: what the benchmark can hash. */
  predicate Hashable(v: Value) {
    match v
    case Bin(_) => false
    case Ext(_, _) => false
    case Arr(items) => forall i | 0 <= i < |items| :: Hashable(items[i])
    case Obj(entries) => forall i | 0 <= i < |entries| :: HashablePair(entries[i])
    case _ => true
  }

  predicate HashablePair(p: Pair) {
    p.key.Str? && Hashable(p.value)
  }

  /** The words of a value, by its content alone: the integer type makes no difference. */
  function ValueWords(v: Value): (ws: seq<uint32>)
    requires Hashable(v)
    decreases v
  {
    match v
    case Null => [0, 3, 0x6c_69_6e]
    case Bool(b) => [if b then 1 else 0]
    case F32(_) => [43013]
    case F64(_) => [43013]
    case Int(_, n) => [n / 0x1_0000_0000 % 0x1_0000_0000, n % 0x1_0000_0000]
    case Str(s) => [|s| % 0x1_0000_0000] + TextWords(s)
    case Arr(items) => ItemWords(items) + [|items| % 0x1_0000_0000]
    case Obj(entries) => EntryWords(entries) + [|entries| % 0x1_0000_0000]
  }

  function ItemWords(items: seq<Value>): (ws: seq<uint32>)
    requires forall i | 0 <= i < |items| :: Hashable(items[i])
    decreases items
  {
    if items == [] then [] else ValueWords(items[0]) + ItemWords(items[1..])
  }

  function EntryWords(entries: seq<Pair>): (ws: seq<uint32>)
    requires forall i | 0 <= i < |entries| :: HashablePair(entries[i])
    decreases entries
  {
    if entries == [] then []
    else PairWords(entries[0]) + EntryWords(entries[1..])
  }

  function PairWords(p: Pair): (ws: seq<uint32>)
    requires HashablePair(p)
    decreases p
  {
    [|p.key.str| % 0x1_0000_0000] + TextWords(p.key.str) + ValueWords(p.value)
  }

  lemma TextOfValue(hash: uint32, s: seq<byte>)
    ensures HashStr(hash, s) == Fold(hash, [|s| % 0x1_0000_0000] + TextWords(s))
  {
    hide HashU32, HashWords, Fold, TextWords;
    FoldConcat(hash, [|s| % 0x1_0000_0000], TextWords(s));
    FoldOne(hash, |s| % 0x1_0000_0000);
    TextIsFolded(HashU32(hash, |s| % 0x1_0000_0000), s);
  }

  /** The benchmark hashes a value exactly when it is hashable, and then folds its words. */
  lemma {:induction false} ValueHashIsFold(v: Value, hash: uint32)
    ensures HashValue(v, hash) == if Hashable(v) then Some(Fold(hash, ValueWords(v))) else None
    decreases v
  {
    hide HashU32, Fold, TextWords, HashStr, HashNil;
    match v
    case Null => NilWords(hash);
    case Bool(b) => FoldOne(hash, if b then 1 else 0);
    case F32(_) => FoldOne(hash, 43013);
    case F64(_) => FoldOne(hash, 43013);
    case Int(_, n) =>
      HalvesOf(n);
      FoldTwo(hash, n / 0x1_0000_0000 % 0x1_0000_0000, n % 0x1_0000_0000);
    case Str(s) => TextOfValue(hash, s);
    case Arr(items) =>
      ItemsAreFolded(items, hash);
      if Hashable(v) {
        FoldConcat(hash, ItemWords(items), [|items| % 0x1_0000_0000]);
        FoldOne(Fold(hash, ItemWords(items)), |items| % 0x1_0000_0000);
      }
    case Obj(entries) =>
      PairsAreFolded(entries, hash);
      if Hashable(v) {
        FoldConcat(hash, EntryWords(entries), [|entries| % 0x1_0000_0000]);
        FoldOne(Fold(hash, EntryWords(entries)), |entries| % 0x1_0000_0000);
      }
    case Bin(_) =>
    case Ext(_, _) =>
  }

  lemma {:induction false} ItemsAreFolded(items: seq<Value>, hash: uint32)
    ensures HashItems(items, hash)
            == if forall i | 0 <= i < |items| :: Hashable(items[i]) then Some(Fold(hash, ItemWords(items))) else None
    decreases items
  {
    hide HashU32, HashValue, ValueWords, Hashable;
    if items != [] {
      ValueHashIsFold(items[0], hash);
      if Hashable(items[0]) {
        var h := Fold(hash, ValueWords(items[0]));
        assert items == [items[0]] + items[1..];
        ItemsAreFolded(items[1..], h);
        if forall i | 0 <= i < |items| :: Hashable(items[i]) {
          FoldConcat(hash, ValueWords(items[0]), ItemWords(items[1..]));
        }
      }
    }
  }

  lemma {:induction false} PairsAreFolded(entries: seq<Pair>, hash: uint32)
    ensures HashPairs(entries, hash)
            == if forall i | 0 <= i < |entries| :: HashablePair(entries[i]) then Some(Fold(hash, EntryWords(entries)))
               else None
    decreases entries
  {
    hide HashU32, HashPair, PairWords, HashablePair;
    if entries != [] {
      PairIsFolded(entries[0], hash);
      if HashablePair(entries[0]) {
        assert entries == [entries[0]] + entries[1..];
        PairsAreFolded(entries[1..], Fold(hash, PairWords(entries[0])));
        if forall i | 0 <= i < |entries| :: HashablePair(entries[i]) {
          FoldConcat(hash, PairWords(entries[0]), EntryWords(entries[1..]));
        }
      }
    }
  }

  lemma {:induction false} PairIsFolded(p: Pair, hash: uint32)
    ensures HashPair(p, hash) == if HashablePair(p) then Some(Fold(hash, PairWords(p))) else None
    decreases p
  {
    hide HashU32, HashValue, ValueWords, Hashable, HashStr, TextWords, Fold;
    if p.key.Str? {
      TextOfValue(hash, p.key.str);
      ValueHashIsFold(p.value, HashStr(hash, p.key.str));
      if Hashable(p.value) {
        FoldConcat(hash, [|p.key.str| % 0x1_0000_0000] + TextWords(p.key.str), ValueWords(p.value));
      }
    }
  }

  // ---- What the hash is bound to notice -----------------------------------------------------------------

  /** The same words but for the one at k. */
  predicate ApartAt(xs: seq<uint32>, ys: seq<uint32>, k: nat) {
    k < |xs| == |ys| && xs[k] != ys[k] && xs[..k] == ys[..k] && xs[k + 1..] == ys[k + 1..]
  }

  lemma {:induction false} FoldKeepsApart(g: uint32, h: uint32, words: seq<uint32>)
    requires g != h
    ensures Fold(g, words) != Fold(h, words)
    decreases |words|
  {
    hide HashU32;
    if words != [] {
      PastMatters(g, h, words[0]);
      FoldKeepsApart(HashU32(g, words[0]), HashU32(h, words[0]), words[1..]);
    }
  }

  /** Two lists that differ in exactly one word hash differently from every start. */
  lemma OneWordIsNoticed(hash: uint32, xs: seq<uint32>, ys: seq<uint32>, k: nat)
    requires ApartAt(xs, ys, k)
    ensures Fold(hash, xs) != Fold(hash, ys)
  {
    hide HashU32;
    var before, after := xs[..k], xs[k + 1..];
    assert xs == before + ([xs[k]] + after) && ys == before + ([ys[k]] + after);
    FoldConcat(hash, before, [xs[k]] + after);
    FoldConcat(hash, before, [ys[k]] + after);
    var h := Fold(hash, before);
    WordMatters(h, xs[k], ys[k]);
    FoldKeepsApart(HashU32(h, xs[k]), HashU32(h, ys[k]), after);
  }

  /** The two trees are the same but for one boolean, one half of one integer, or one byte of one string. */
  ghost predicate OneChange(o: Object, o': Object)
    decreases o
  {
    match o
    case OBool(b) => o'.OBool? && b != o'.b
    case OInt(i) => o'.OInt? && OneHalfChange(i, o'.i)
    case OUint(u) => o'.OUint? && OneHalfChange(u, o'.u)
    case OStr(l, str) => o'.OStr? && l == o'.l && exists i :: 0 <= i < l && OneByteChange(str, o'.str, i)
    case OArray(l, children) => o'.OArray? && l == o'.l && OneChildChange(children, o'.children)
    case OMap(l, children) => o'.OMap? && l == o'.l && OneChildChange(children, o'.children)
    case _ => false
  }

  predicate OneHalfChange(m: int, n: int) {
    (m / 0x1_0000_0000 == n / 0x1_0000_0000) != (m % 0x1_0000_0000 == n % 0x1_0000_0000)
  }

  predicate OneByteChange(s: seq<byte>, t: seq<byte>, i: nat) {
    i < |s| == |t| && s[i] != t[i] && forall j | 0 <= j < |s| && j != i :: s[j] == t[j]
  }

  /** One child is changed, the others are equal. */
  ghost predicate OneChildChange(children: seq<Object>, others: seq<Object>)
    decreases children
  {
    && children != [] && others != []
    && (if children[0] == others[0] then OneChildChange(children[1..], others[1..])
        else OneChange(children[0], others[0]) && children[1..] == others[1..])
  }

  lemma TextChange(s: seq<byte>, t: seq<byte>, i: nat) returns (k: nat)
    requires OneByteChange(s, t, i)
    ensures ApartAt(TextWords(s), TextWords(t), k)
  {
    hide WordAt;
    k := i / 4;
    forall j | 0 <= j < |TextWords(s)|
      ensures WordAt(s, 4 * j) == WordAt(t, 4 * j) <==> j != k
    {
      WordsDiffer(s, t, i, j);
    }
  }

  lemma WordsDiffer(s: seq<byte>, t: seq<byte>, i: nat, j: nat)
    requires OneByteChange(s, t, i)
    ensures WordAt(s, 4 * j) == WordAt(t, 4 * j) <==> j != i / 4
  {
  }

  lemma Shift(pre: seq<uint32>, xs: seq<uint32>, ys: seq<uint32>, post: seq<uint32>, k: nat)
    requires ApartAt(xs, ys, k)
    ensures ApartAt(pre + xs + post, pre + ys + post, |pre| + k)
  {
    var a, b, n := pre + xs + post, pre + ys + post, |pre| + k;
    assert a[..n] == pre + xs[..k] && b[..n] == pre + ys[..k];
    assert a[n + 1..] == xs[k + 1..] + post && b[n + 1..] == ys[k + 1..] + post;
  }

  /** One change to a tree is one change to its words. */
  lemma {:induction false} ChangedWord(o: Object, o': Object) returns (k: nat)
    requires Shaped(o) && Shaped(o') && OneChange(o, o')
    ensures ApartAt(Words(o), Words(o'), k)
    decreases o, 0
  {
    hide TextWords;
    match o
    case OBool(_) => k := 0;
    case OInt(_) => k := ChangedHalf(o, o');
    case OUint(_) => k := ChangedHalf(o, o');
    case OStr(l, str) => k := ChangedText(l, str, o'.str);
    case OArray(l, children) => k := ChangedChildren(l, children, o'.children);
    case OMap(l, children) => k := ChangedChildren(l, children, o'.children);
  }

  lemma ChangedHalf(o: Object, o': Object) returns (k: nat)
    requires Shaped(o) && Shaped(o') && (o.OInt? || o.OUint?) && OneChange(o, o')
    ensures ApartAt(Words(o), Words(o'), k)
  {
    k := if Words(o)[0] == Words(o')[0] then 1 else 0;
  }

  lemma ChangedText(l: uint32, str: seq<byte>, str': seq<byte>) returns (k: nat)
    requires l < |str| && l < |str'| && exists i :: 0 <= i < l && OneByteChange(str, str', i)
    ensures ApartAt([l] + TextWords(str[..l]), [l] + TextWords(str'[..l]), k)
  {
    hide TextWords;
    var i :| 0 <= i < l && OneByteChange(str, str', i);
    var j := TextChange(str[..l], str'[..l], i);
    Shift([l], TextWords(str[..l]), TextWords(str'[..l]), [], j);
    assert [l] + TextWords(str[..l]) + [] == [l] + TextWords(str[..l]);
    assert [l] + TextWords(str'[..l]) + [] == [l] + TextWords(str'[..l]);
    k := 1 + j;
  }

  lemma {:induction false} ChangedChildren(l: uint32, children: seq<Object>, others: seq<Object>) returns (k: nat)
    requires ShapedAll(children) && ShapedAll(others) && OneChildChange(children, others)
    ensures ApartAt(WordsOfAll(children) + [l], WordsOfAll(others) + [l], k)
    decreases children, 1
  {
    hide Words, WordsOfAll, OneChildChange;
    var j := ChangedChild(children, others);
    Shift([], WordsOfAll(children), WordsOfAll(others), [l], j);
    assert [] + WordsOfAll(children) == WordsOfAll(children) && [] + WordsOfAll(others) == WordsOfAll(others);
    k := j;
  }

  lemma {:induction false} ChangedChild(children: seq<Object>, others: seq<Object>) returns (k: nat)
    requires ShapedAll(children) && ShapedAll(others) && OneChildChange(children, others)
    ensures ApartAt(WordsOfAll(children), WordsOfAll(others), k)
    decreases children, 0
  {
    hide Words, Shaped, OneChange;
    var rest, rest' := WordsOfAll(children[1..]), WordsOfAll(others[1..]);
    if children[0] == others[0] {
      var pre := Words(children[0]);
      var j := ChangedChild(children[1..], others[1..]);
      Shift(pre, rest, rest', [], j);
      assert pre + rest + [] == pre + rest && pre + rest' + [] == pre + rest';
      k := |pre| + j;
    } else {
      var x, y := Words(children[0]), Words(others[0]);
      var j := ChangedWord(children[0], others[0]);
      Shift([], x, y, rest, j);
      assert [] + x + rest == x + rest && [] + y + rest == y + rest;
      k := j;
    }
  }

  /** One flipped boolean, one changed half of an integer or one changed byte of a string, anywhere in a tree, changes
      the hash, whatever it starts from. */
  lemma ChangeIsNoticed(o: Object, o': Object, hash: uint32)
    requires Shaped(o) && Shaped(o') && OneChange(o, o')
    ensures HashStruct(o, hash) != HashStruct(o', hash)
  {
    hide Words, Fold, HashStruct, Shaped, OneChange;
    HashIsFold(o, hash);
    HashIsFold(o', hash);
    var k := ChangedWord(o, o');
    OneWordIsNoticed(hash, Words(o), Words(o'), k);
  }

  /** The hash of nil was to be one that no other simple type can give. An unsigned integer can: from every start, for
      every high half exactly one low half gives it. */
  lemma NilCollides(hash: uint32, high: uint32, low: uint32)
    ensures var needed := Xor(HashU32(HashU32(hash, high), 0), HashNil(hash));
            && needed < TWO_TO_THE_32
            && (HashU64(hash, high * TWO_TO_THE_32 + low) == HashNil(hash) <==> low == needed)
  {
    hide HashU32, HashNil, Xor;
    var g := HashU32(hash, high);
    PowerThirtyTwo();
    XorBound(HashU32(g, 0), HashNil(hash), 32);
    WordFor(g, low, HashNil(hash));
  }

  /** The one word that leads from one hash to another. */
  lemma WordFor(g: uint32, word: uint32, target: uint32)
    ensures HashU32(g, word) == target <==> word == Xor(HashU32(g, 0), target)
  {
    hide HashU32, Xor;
    StepLaw(g, 0, word);
    XorSelf(word);
    XorAssociates(HashU32(g, 0), HashU32(g, 0), HashU32(g, word));
    XorAssociates(HashU32(g, 0), HashU32(g, 0), target);
    XorSelf(HashU32(g, 0));
    XorSelf(HashU32(g, word));
    XorSelf(target);
  }
}
