/** The generator's two passes: one adds up the size of a tree, the other flattens it depth-first into one chunk. */
module Pool {
  import opened Bits
  import opened Bytes
  import opened Values
  import opened BenchObject
  import opened Memory

  // ---- object_align -------------------------------------------------------------------------------

  /** The next multiple of the alignment. */
  function Align(size: nat): (r: nat)
    ensures r >= size && r % ALIGNMENT == 0 && r < size + ALIGNMENT
  {
    (size + 7) / 8 * 8
  }

  /** Clearing the three low bits of a 64-bit number. */
  lemma ClearLowBits(n: nat)
    requires n < TWO_TO_THE_64
    ensures And(n, TWO_TO_THE_64 - 8) == n / 8 * 8
  {
    hide And;
    var mask := 0x1fff_ffff_ffff_ffff;
    PowerSixtyOne();
    AndLowMask(n / 8, 0, n / 8, 61);
    AndHalves(n / 4, mask);
    AndHalves(n / 2, 2 * mask);
    AndHalves(n, 4 * mask);
    assert n / 2 / 2 == n / 4 && n / 4 / 2 == n / 8;
  }

  lemma PowerSixtyOne()
    ensures Pow2(61) == 0x2000_0000_0000_0000
  {
    assert Pow2(8) == 0x100;
    assert Pow2(16) == 0x1_0000;
    assert Pow2(24) == 0x100_0000;
    assert Pow2(32) == 0x1_0000_0000;
    assert Pow2(40) == 0x100_0000_0000;
    assert Pow2(48) == 0x1_0000_0000_0000;
    assert Pow2(56) == 0x100_0000_0000_0000;
  }

  /** object_align as written, with the complement taken in 64 bits. */
  method ObjectAlign(size: nat) returns (r: nat)
    requires size + 7 < TWO_TO_THE_64
    ensures r == Align(size)
  {
    hide And;
    ClearLowBits(size + 7);
    r := And(size + 7, TWO_TO_THE_64 - 8);
  }

  // ---- Sizes ------------------------------------------------------------------------------------------

  /** The bytes a tree needs in the pool, beside the object_t of its root. */
  function CopySize(o: Object): (n: nat) {
    match o
    case OStr(l, _) => Align(l + 1)
    case OArray(_, children) => Align(SIZEOF_OBJECT * |children|) + ElementsSize(children)
    case OMap(_, children) => Align(SIZEOF_OBJECT * |children|) + ElementsSize(children)
    case _ => 0
  }

  function ElementsSize(children: seq<Object>): (n: nat) {
    if children == [] then 0 else CopySize(children[0]) + ElementsSize(children[1..])
  }

  lemma {:induction false} ElementsSizeSnoc(children: seq<Object>, i: nat)
    requires i < |children|
    ensures ElementsSize(children[..i + 1]) == ElementsSize(children[..i]) + CopySize(children[i])
  {
    hide CopySize;
    if i == 0 {
      assert children[..1][1..] == [];
    } else {
      ElementsSizeSnoc(children[1..], i - 1);
      assert children[..i + 1][1..] == children[1..][..i];
      assert children[..i][1..] == children[1..][..i - 1];
    }
  }

  /** Prefixes only grow. */
  lemma {:induction false} ElementsSizePrefix(children: seq<Object>, i: nat, j: nat)
    requires i <= j <= |children|
    ensures ElementsSize(children[..i]) <= ElementsSize(children[..j])
    decreases j
  {
    hide ElementsSize;
    if i < j {
      ElementsSizePrefix(children, i, j - 1);
      ElementsSizeSnoc(children, j - 1);
    }
  }

  /** Where the copies of the descendants of child i begin, for children stored from `lo` on. */
  function ChildBase(children: seq<Object>, lo: nat, i: nat): (p: nat)
    requires i <= |children|
  {
    lo + Align(SIZEOF_OBJECT * |children|) + ElementsSize(children[..i])
  }

  lemma ChildBases(children: seq<Object>, lo: nat, i: nat)
    requires i < |children|
    ensures ChildBase(children, lo, 0) == lo + Align(SIZEOF_OBJECT * |children|)
    ensures ChildBase(children, lo, i + 1) == ChildBase(children, lo, i) + CopySize(children[i])
    ensures lo + SIZEOF_OBJECT * |children| <= ChildBase(children, lo, i)
    ensures ChildBase(children, lo, i + 1) <= ChildBase(children, lo, |children|)
  {
    hide ElementsSize, CopySize;
    ElementsSizeSnoc(children, i);
    ElementsSizePrefix(children, i + 1, |children|);
    NoElements(children);
  }

  lemma NoElements(children: seq<Object>)
    ensures ElementsSize(children[..0]) == 0
  {
  }

  // ---- The tree behind an address ----------------------------------------------------------------------

  /** The struct has the type, length and scalar of the object. */
  predicate HeadMatches(cell: Cell, o: Object) {
    && cell.Struct?
    && match o
       case ONil => cell.tag.TNil?
       case OBool(b) => cell.tag.TBool? && cell.u == B(b)
       case ODouble(bits) => cell.tag.TDouble? && cell.u == D(bits)
       case OInt(i) => cell.tag.TInt? && cell.u == I(i)
       case OUint(u) => cell.tag.TUint? && cell.u == U(u)
       case OStr(l, _) => cell.tag.TStr? && cell.l == l && cell.u.Pointer?
       case OArray(l, _) => cell.tag.TArray? && cell.l == l && cell.u.Pointer?
       case OMap(l, _) => cell.tag.TMap? && cell.l == l && cell.u.Pointer?
  }

  predicate HasChildren(o: Object) {
    o.OArray? || o.OMap?
  }

  predicate CharsAt(cells: Cells, p: nat, s: seq<byte>) {
    forall x | p <= x < p + |s| :: x in cells && cells[x] == Char(s[x - p])
  }

  /** The object_t at `a` is the root of the tree `o`, wherever its parts are, all of it outside [lo, hi). */
  predicate Holds(cells: Cells, a: nat, o: Object, lo: nat, hi: nat)
    decreases o
  {
    && a in cells
    && HeadMatches(cells[a], o)
    && Misses(cells, a, lo, hi)
    && (o.OStr? ==>
          var p := cells[a].u.address;
          CharsAt(cells, p, o.str) && (p + |o.str| <= lo || hi <= p))
    && (HasChildren(o) ==>
          forall k | 0 <= k < |o.children| ::
            Holds(cells, cells[a].u.address + SIZEOF_OBJECT * k, o.children[k], lo, hi))
  }

  /** The object_t at `a` is the root of the tree `o`, laid out depth-first from `p` on: first the array of its
      children, then the descendants of each child in turn. */
  predicate Laid(cells: Cells, a: nat, o: Object, p: nat)
    decreases o
  {
    && a in cells
    && HeadMatches(cells[a], o)
    && (o.OStr? ==> cells[a].u == Pointer(p) && CharsAt(cells, p, o.str))
    && (HasChildren(o) ==>
          && cells[a].u == Pointer(p)
          && forall k | 0 <= k < |o.children| ::
               Laid(cells, p + SIZEOF_OBJECT * k, o.children[k], ChildBase(o.children, p, k)))
  }

  // ---- Frames ----------------------------------------------------------------------------------------

  /** A tree outside the chunk that writes stay in is still there, and still outside. */
  lemma {:induction false} HoldsFrame(before: Cells, after: Cells, a: nat, o: Object, lo: nat, hi: nat)
    requires Holds(before, a, o, lo, hi) && OnlyWrote(before, after, lo, hi, lo, hi)
    ensures Holds(after, a, o, lo, hi)
    decreases o
  {
    if HasChildren(o) {
      var p := before[a].u.address;
      forall k | 0 <= k < |o.children|
        ensures Holds(after, p + SIZEOF_OBJECT * k, o.children[k], lo, hi)
      {
        HoldsFrame(before, after, p + SIZEOF_OBJECT * k, o.children[k], lo, hi);
      }
    }
  }

  /** The object_t at `a` and everything laid out in [p, q) are away from both written ranges. */
  predicate AwayFrom(a: nat, p: nat, q: nat, lo1: nat, hi1: nat, lo2: nat, hi2: nat) {
    && Apart(a, a + SIZEOF_OBJECT, lo1, hi1) && Apart(a, a + SIZEOF_OBJECT, lo2, hi2)
    && Apart(p, q, lo1, hi1) && Apart(p, q, lo2, hi2)
  }

  /** A laid-out tree survives writes that stay away from its bytes. */
  lemma {:induction false} LaidFrame(before: Cells, after: Cells, a: nat, o: Object, p: nat, lo1: nat, hi1: nat,
                                     lo2: nat, hi2: nat)
    requires Laid(before, a, o, p) && OnlyWrote(before, after, lo1, hi1, lo2, hi2)
    requires Exact(o) && AwayFrom(a, p, p + CopySize(o), lo1, hi1, lo2, hi2)
    ensures Laid(after, a, o, p)
    decreases o
  {
    if HasChildren(o) {
      var children := o.children;
      forall k | 0 <= k < |children|
        ensures Laid(after, p + SIZEOF_OBJECT * k, children[k], ChildBase(children, p, k))
      {
        ChildBases(children, p, k);
        ChildAway(o, p, k, lo1, hi1, lo2, hi2);
        LaidFrame(before, after, p + SIZEOF_OBJECT * k, children[k], ChildBase(children, p, k), lo1, hi1, lo2, hi2);
      }
    }
  }

  lemma ChildAway(o: Object, p: nat, k: nat, lo1: nat, hi1: nat, lo2: nat, hi2: nat)
    requires HasChildren(o) && k < |o.children|
    requires Apart(p, p + CopySize(o), lo1, hi1) && Apart(p, p + CopySize(o), lo2, hi2)
    ensures var base := ChildBase(o.children, p, k);
            AwayFrom(p + SIZEOF_OBJECT * k, base, base + CopySize(o.children[k]), lo1, hi1, lo2, hi2)
  {
    hide ChildBase, ElementsSize;
    ChildBases(o.children, p, k);
    WholeSize(o, p);
  }

  lemma WholeSize(o: Object, p: nat)
    requires HasChildren(o)
    ensures ChildBase(o.children, p, |o.children|) == p + CopySize(o)
  {
    assert o.children[..|o.children|] == o.children;
  }

  // ---- object_copy -----------------------------------------------------------------------------------

  /** memcpy of a string with its terminator. */
  method CopyChars(heap: Heap, dst: nat, src: nat, n: nat, ghost s: seq<byte>, ghost lo: nat, ghost hi: nat)
    requires |s| == n && CharsAt(heap.cells, src, s)
    requires lo <= dst && dst + n <= hi && (src + n <= lo || hi <= src)
    modifies heap
    ensures CharsAt(heap.cells, dst, s)
    ensures OnlyWrote(old(heap.cells), heap.cells, dst, dst + n, 0, 0)
  {
    hide Put, OnlyWrote, CharsAt;
    WroteNothing(heap.cells, dst, dst + n, 0, 0);
    NoChars(heap.cells, dst);
    assert s[..0] == [];
    var i := 0;
    while i < n
      invariant 0 <= i <= n
      invariant CharsAt(heap.cells, src, s)
      invariant CharsAt(heap.cells, dst, s[..i])
      invariant OnlyWrote(old(heap.cells), heap.cells, dst, dst + n, 0, 0)
    {
      ghost var before := heap.cells;
      CharAt(before, src, s, i);
      var c := heap.cells[src + i];
      heap.Write(dst + i, c);
      OneCharCopied(old(heap.cells), before, dst, i, n, src, s);
      i := i + 1;
    }
    assert s[..n] == s;
  }

  lemma NoChars(cells: Cells, p: nat)
    ensures CharsAt(cells, p, [])
  {
  }

  lemma CharAt(cells: Cells, p: nat, s: seq<byte>, i: nat)
    requires CharsAt(cells, p, s) && i < |s|
    ensures p + i in cells && cells[p + i] == Char(s[i])
  {
  }

  /** One more char of the string stands in the copy, and none of the source is lost. */
  lemma OneCharCopied(c0: Cells, c1: Cells, dst: nat, i: nat, n: nat, src: nat, s: seq<byte>)
    requires i < n == |s| && CharsAt(c1, src, s) && CharsAt(c1, dst, s[..i])
    requires Apart(src, src + n, dst, dst + n) && OnlyWrote(c0, c1, dst, dst + n, 0, 0)
    ensures var c2 := Put(c1, dst + i, Char(s[i]));
            CharsAt(c2, src, s) && CharsAt(c2, dst, s[..i + 1]) && OnlyWrote(c0, c2, dst, dst + n, 0, 0)
  {
    PutFrame(c1, dst + i, Char(s[i]));
    OnlyWroteWiden(c1, Put(c1, dst + i, Char(s[i])), dst + i, dst + i + 1, 0, 0, dst, dst + n, 0, 0);
  }

  /** The loop over the children: each goes to its slot, its descendants to where the cursor stands. */
  method CopyChildren(heap: Heap, slots: nat, from: nat, n: nat, pool0: nat, ghost children: seq<Object>,
                      ghost lo: nat, ghost hi: nat)
    returns (pool: nat)
    requires |children| == n && ExactAll(children)
    requires forall k | 0 <= k < n :: Holds(heap.cells, from + SIZEOF_OBJECT * k, children[k], lo, hi)
    requires lo <= slots && slots + SIZEOF_OBJECT * n <= pool0 && pool0 + ElementsSize(children) <= hi
    modifies heap
    ensures pool == pool0 + ElementsSize(children)
    ensures forall k | 0 <= k < n ::
              Laid(heap.cells, slots + SIZEOF_OBJECT * k, children[k], pool0 + ElementsSize(children[..k]))
    ensures OnlyWrote(old(heap.cells), heap.cells, slots, slots + SIZEOF_OBJECT * n, pool0, pool)
    decreases children, 0
  {
    hide Holds, Laid, Exact, CopySize, ElementsSize, OnlyWrote;
    pool := pool0;
    NoElements(children);
    WroteNothing(heap.cells, slots, slots + SIZEOF_OBJECT * n, pool0, pool);
    var i := 0;
    while i < n
      invariant 0 <= i <= n
      invariant pool == pool0 + ElementsSize(children[..i])
      invariant forall k | 0 <= k < n :: Holds(heap.cells, from + SIZEOF_OBJECT * k, children[k], lo, hi)
      invariant forall k | 0 <= k < i ::
                  Laid(heap.cells, slots + SIZEOF_OBJECT * k, children[k], pool0 + ElementsSize(children[..k]))
      invariant OnlyWrote(old(heap.cells), heap.cells, slots, slots + SIZEOF_OBJECT * n, pool0, pool)
    {
      ElementsSizeSnoc(children, i);
      ElementsSizePrefix(children, i + 1, n);
      assert children[..n] == children;
      ghost var before, cursor := heap.cells, pool;
      var slot := slots + SIZEOF_OBJECT * i;
      pool := ObjectCopy(heap, slot, from + SIZEOF_OBJECT * i, pool, children[i], lo, hi);
      OnlyWroteWiden(before, heap.cells, slot, slot + SIZEOF_OBJECT, cursor, pool, lo, hi, lo, hi);
      forall k | 0 <= k < n
        ensures Holds(heap.cells, from + SIZEOF_OBJECT * k, children[k], lo, hi)
      {
        HoldsFrame(before, heap.cells, from + SIZEOF_OBJECT * k, children[k], lo, hi);
      }
      forall k | 0 <= k < i
        ensures Laid(heap.cells, slots + SIZEOF_OBJECT * k, children[k], pool0 + ElementsSize(children[..k]))
      {
        ElementsSizeSnoc(children, k);
        ElementsSizePrefix(children, k + 1, i);
        LaidFrame(before, heap.cells, slots + SIZEOF_OBJECT * k, children[k], pool0 + ElementsSize(children[..k]),
                  slot, slot + SIZEOF_OBJECT, cursor, pool);
      }
      OnlyWroteWiden(old(heap.cells), before, slots, slots + SIZEOF_OBJECT * n, pool0, cursor,
                     slots, slots + SIZEOF_OBJECT * n, pool0, pool);
      OnlyWroteWiden(before, heap.cells, slot, slot + SIZEOF_OBJECT, cursor, pool,
                     slots, slots + SIZEOF_OBJECT * n, pool0, pool);
      OnlyWroteThen(old(heap.cells), before, heap.cells, slots, slots + SIZEOF_OBJECT * n, pool0, pool);
      i := i + 1;
    }
    assert children[..n] == children;
  }

  lemma WroteNothing(cells: Cells, lo1: nat, hi1: nat, lo2: nat, hi2: nat)
    ensures OnlyWrote(cells, cells, lo1, hi1, lo2, hi2)
  {
  }

  /** A map or an array: point *dest at the pool, claim the slots, copy the children into them. */
  method CopyContainer(heap: Heap, dest: nat, source: Cell, pool: nat, count: nat, ghost o: Object, ghost lo: nat,
                       ghost hi: nat)
    returns (pool': nat)
    requires HasChildren(o) && Exact(o) && HeadMatches(source, o) && count == |o.children|
    requires forall k | 0 <= k < count :: Holds(heap.cells, source.u.address + SIZEOF_OBJECT * k, o.children[k], lo, hi)
    requires lo <= dest && dest + SIZEOF_OBJECT <= pool && pool + CopySize(o) <= hi
    modifies heap
    ensures pool' == pool + CopySize(o)
    ensures Laid(heap.cells, dest, o, pool)
    ensures OnlyWrote(old(heap.cells), heap.cells, dest, dest + SIZEOF_OBJECT, pool, pool')
    decreases o, 1
  {
    hide Holds, Laid, OnlyWrote, Put, ElementsSize, Align;
    ghost var c0 := heap.cells;
    var copy := source.(u := Pointer(pool));
    heap.Write(dest, copy);
    ghost var c1 := heap.cells;
    WriteKeepsChildren(c0, dest, copy, source.u.address, o.children, lo, hi);
    var space := ObjectAlign(SIZEOF_OBJECT * count);
    pool' := pool + space;
    ghost var first := pool';
    pool' := CopyChildren(heap, pool, source.u.address, count, pool', o.children, lo, hi);
    CopiedContainer(c0, c1, heap.cells, dest, copy, pool, first, pool', o);
  }

  /** A write to the chunk leaves the source children in place. */
  lemma WriteKeepsChildren(before: Cells, dest: nat, copy: Cell, from: nat, children: seq<Object>, lo: nat, hi: nat)
    requires copy.Struct? && lo <= dest && dest + SIZEOF_OBJECT <= hi
    requires forall k | 0 <= k < |children| :: Holds(before, from + SIZEOF_OBJECT * k, children[k], lo, hi)
    ensures forall k | 0 <= k < |children| ::
              Holds(Put(before, dest, copy), from + SIZEOF_OBJECT * k, children[k], lo, hi)
  {
    hide Holds, OnlyWrote, Put;
    PutFrame(before, dest, copy);
    OnlyWroteWiden(before, Put(before, dest, copy), dest, dest + SIZEOF_OBJECT, 0, 0, lo, hi, lo, hi);
    forall k | 0 <= k < |children|
      ensures Holds(Put(before, dest, copy), from + SIZEOF_OBJECT * k, children[k], lo, hi)
    {
      HoldsFrame(before, Put(before, dest, copy), from + SIZEOF_OBJECT * k, children[k], lo, hi);
    }
  }

  lemma CopiedContainer(c0: Cells, c1: Cells, c2: Cells, dest: nat, copy: Cell, pool: nat, first: nat, pool': nat,
                        o: Object)
    requires HasChildren(o) && HeadMatches(copy, o) && copy.u == Pointer(pool)
    requires dest + SIZEOF_OBJECT <= pool
    requires c1 == Put(c0, dest, copy)
    requires first == pool + Align(SIZEOF_OBJECT * |o.children|) && pool' == first + ElementsSize(o.children)
    requires OnlyWrote(c1, c2, pool, pool + SIZEOF_OBJECT * |o.children|, first, pool')
    requires forall k | 0 <= k < |o.children| ::
               Laid(c2, pool + SIZEOF_OBJECT * k, o.children[k], first + ElementsSize(o.children[..k]))
    ensures Laid(c2, dest, o, pool)
    ensures OnlyWrote(c0, c2, dest, dest + SIZEOF_OBJECT, pool, pool')
  {
    hide ElementsSize, Align;
    assert dest in c1 && c1[dest] == copy;
    assert dest in c2 && c2[dest] == copy;
    PutFrame(c0, dest, copy);
    OnlyWroteWiden(c0, c1, dest, dest + SIZEOF_OBJECT, 0, 0, dest, dest + SIZEOF_OBJECT, pool, pool');
    OnlyWroteWiden(c1, c2, pool, pool + SIZEOF_OBJECT * |o.children|, first, pool', dest, dest + SIZEOF_OBJECT, pool,
                   pool');
    OnlyWroteThen(c0, c1, c2, dest, dest + SIZEOF_OBJECT, pool, pool');
  }

  /** object_copy: *dest becomes a copy of the tree at src whose descendants are laid out depth-first from `pool` on.
      The source lies outside the chunk [lo, hi); only *dest and the pool up to the returned cursor are written. */
  method ObjectCopy(heap: Heap, dest: nat, src: nat, pool: nat, ghost o: Object, ghost lo: nat, ghost hi: nat)
    returns (pool': nat)
    requires Exact(o) && Holds(heap.cells, src, o, lo, hi)
    requires lo <= dest && dest + SIZEOF_OBJECT <= pool && pool + CopySize(o) <= hi
    modifies heap
    ensures pool' == pool + CopySize(o)
    ensures Laid(heap.cells, dest, o, pool)
    ensures OnlyWrote(old(heap.cells), heap.cells, dest, dest + SIZEOF_OBJECT, pool, pool')
    decreases o, 2
  {
    hide Holds, Laid, Exact, CopySize, OnlyWrote, Put, CharsAt, ElementsSize, Align;
    ghost var c0 := heap.cells;
    SourceParts(c0, src, o, lo, hi);
    var source := heap.cells[src];
    heap.Write(dest, source);
    ghost var c1 := heap.cells;
    DestWritten(c0, dest, source, src, o, lo, hi);
    SourceParts(c1, src, o, lo, hi);
    pool' := pool;
    if source.tag.TMap? {
      pool' := CopyContainer(heap, dest, source, pool, source.l * 2, o, lo, hi);
      OnlyWroteWiden(c0, c1, dest, dest + SIZEOF_OBJECT, 0, 0, dest, dest + SIZEOF_OBJECT, pool, pool');
    } else if source.tag.TArray? {
      pool' := CopyContainer(heap, dest, source, pool, source.l, o, lo, hi);
      OnlyWroteWiden(c0, c1, dest, dest + SIZEOF_OBJECT, 0, 0, dest, dest + SIZEOF_OBJECT, pool, pool');
    } else if source.tag.TStr? {
      var copy := source.(u := Pointer(pool));
      heap.Write(dest, copy);
      ghost var c2 := heap.cells;
      var space := ObjectAlign(source.l + 1);
      pool' := pool + space;
      DestWritten(c1, dest, copy, src, o, lo, hi);
      SourceParts(c2, src, o, lo, hi);
      CopyChars(heap, pool, source.u.address, source.l + 1, o.str, lo, hi);
      CopiedString(c0, c1, c2, heap.cells, dest, source, copy, pool, pool', o);
      return;
    } else {
      OnlyWroteWiden(c0, c1, dest, dest + SIZEOF_OBJECT, 0, 0, dest, dest + SIZEOF_OBJECT, pool, pool');
      CopiedScalar(c1, dest, source, pool, o);
      return;
    }
    OnlyWroteThen(c0, c1, heap.cells, dest, dest + SIZEOF_OBJECT, pool, pool');
  }

  lemma CopiedScalar(cells: Cells, dest: nat, source: Cell, pool: nat, o: Object)
    requires HeadMatches(source, o) && !HasChildren(o) && !o.OStr? && dest in cells && cells[dest] == source
    ensures CopySize(o) == 0 && Laid(cells, dest, o, pool)
  {
  }

  /** What the struct at the root of a tree tells about its parts. */
  lemma SourceParts(cells: Cells, src: nat, o: Object, lo: nat, hi: nat)
    requires Exact(o) && Holds(cells, src, o, lo, hi)
    ensures src in cells && HeadMatches(cells[src], o)
    ensures HasChildren(o) ==>
              && |o.children| == (if o.OMap? then cells[src].l * 2 else cells[src].l)
              && forall k | 0 <= k < |o.children| ::
                   Holds(cells, cells[src].u.address + SIZEOF_OBJECT * k, o.children[k], lo, hi)
    ensures o.OStr? ==>
              && |o.str| == cells[src].l + 1
              && CharsAt(cells, cells[src].u.address, o.str)
              && (cells[src].u.address + |o.str| <= lo || hi <= cells[src].u.address)
              && CopySize(o) == Align(|o.str|)
  {
  }

  /** After a write to *dest the struct is there and the source tree still is, too. */
  lemma DestWritten(before: Cells, dest: nat, copy: Cell, src: nat, o: Object, lo: nat, hi: nat)
    requires copy.Struct? && lo <= dest && dest + SIZEOF_OBJECT <= hi
    requires Holds(before, src, o, lo, hi)
    ensures var after := Put(before, dest, copy);
            && dest in after && after[dest] == copy
            && OnlyWrote(before, after, dest, dest + SIZEOF_OBJECT, 0, 0)
            && Holds(after, src, o, lo, hi)
            && src in after && after[src] == before[src]
  {
    PutFrame(before, dest, copy);
    OnlyWroteWiden(before, Put(before, dest, copy), dest, dest + SIZEOF_OBJECT, 0, 0, lo, hi, lo, hi);
    HoldsFrame(before, Put(before, dest, copy), src, o, lo, hi);
  }

  lemma CopiedString(c0: Cells, c1: Cells, c2: Cells, c3: Cells, dest: nat, source: Cell, copy: Cell, pool: nat,
                     pool': nat, o: Object)
    requires o.OStr? && HeadMatches(copy, o) && copy.u == Pointer(pool) && source.Struct?
    requires dest + SIZEOF_OBJECT <= pool && pool + |o.str| <= pool'
    requires c1 == Put(c0, dest, source) && c2 == Put(c1, dest, copy)
    requires OnlyWrote(c2, c3, pool, pool + |o.str|, 0, 0) && CharsAt(c3, pool, o.str)
    ensures Laid(c3, dest, o, pool)
    ensures OnlyWrote(c0, c3, dest, dest + SIZEOF_OBJECT, pool, pool')
  {
    assert dest in c2 && c2[dest] == copy;
    assert dest in c3 && c3[dest] == copy;
    PutFrame(c0, dest, source);
    PutFrame(c1, dest, copy);
    OnlyWroteWiden(c0, c1, dest, dest + SIZEOF_OBJECT, 0, 0, dest, dest + SIZEOF_OBJECT, pool, pool');
    OnlyWroteWiden(c1, c2, dest, dest + SIZEOF_OBJECT, 0, 0, dest, dest + SIZEOF_OBJECT, pool, pool');
    OnlyWroteWiden(c2, c3, pool, pool + |o.str|, 0, 0, dest, dest + SIZEOF_OBJECT, pool, pool');
    OnlyWroteThen(c0, c1, c2, dest, dest + SIZEOF_OBJECT, pool, pool');
    OnlyWroteThen(c0, c2, c3, dest, dest + SIZEOF_OBJECT, pool, pool');
  }

  // ---- The layout in one chunk ------------------------------------------------------------------------

  /** A piece of the pool handed out for a string or for the children of a container. */
  datatype Region = Region(start: nat, length: nat)

  /** The regions of a laid-out tree in the order they are handed out. */
  function Regions(o: Object, p: nat): (r: seq<Region>)
    decreases o, 0
  {
    match o
    case OStr(_, str) => [Region(p, |str|)]
    case OArray(_, children) =>
      [Region(p, SIZEOF_OBJECT * |children|)] + ElementRegions(children, p + Align(SIZEOF_OBJECT * |children|))
    case OMap(_, children) =>
      [Region(p, SIZEOF_OBJECT * |children|)] + ElementRegions(children, p + Align(SIZEOF_OBJECT * |children|))
    case _ => []
  }

  function ElementRegions(children: seq<Object>, p: nat): (r: seq<Region>)
    decreases children, 0
  {
    if children == [] then []
    else Regions(children[0], p) + ElementRegions(children[1..], p + CopySize(children[0]))
  }

  /** Aligned regions inside [lo, hi), each ending before the next begins. */
  predicate InOrder(rs: seq<Region>, lo: nat, hi: nat) {
    && (forall i | 0 <= i < |rs| ::
          lo <= rs[i].start && rs[i].start + rs[i].length <= hi && rs[i].start % ALIGNMENT == 0)
    && (forall i, j | 0 <= i < j < |rs| :: rs[i].start + rs[i].length <= rs[j].start)
  }

  lemma InOrderConcat(a: seq<Region>, b: seq<Region>, lo: nat, mid: nat, hi: nat)
    requires lo <= mid <= hi && InOrder(a, lo, mid) && InOrder(b, mid, hi)
    ensures InOrder(a + b, lo, hi)
  {
  }

  lemma {:induction false} CopySizeIsAligned(o: Object)
    ensures CopySize(o) % ALIGNMENT == 0
    decreases o, 0
  {
    hide Align, ElementsSize;
    if HasChildren(o) {
      ElementsSizeIsAligned(o.children);
      AlignedSum(Align(SIZEOF_OBJECT * |o.children|), ElementsSize(o.children));
    }
  }

  lemma AlignedSum(a: nat, b: nat)
    requires a % ALIGNMENT == 0 && b % ALIGNMENT == 0
    ensures (a + b) % ALIGNMENT == 0
  {
  }

  lemma {:induction false} ElementsSizeIsAligned(children: seq<Object>)
    ensures ElementsSize(children) % ALIGNMENT == 0
    decreases children, 0
  {
    hide CopySize;
    if children != [] {
      CopySizeIsAligned(children[0]);
      ElementsSizeIsAligned(children[1..]);
      AlignedSum(CopySize(children[0]), ElementsSize(children[1..]));
    }
  }

  /** From an aligned start, the regions of a tree are aligned, pairwise disjoint, and inside the bytes it is given. */
  lemma {:induction false} RegionsInOrder(o: Object, p: nat)
    requires Exact(o) && p % ALIGNMENT == 0
    ensures InOrder(Regions(o, p), p, p + CopySize(o))
    decreases o, 1
  {
    if HasChildren(o) {
      hide Regions, ElementRegions, ElementsSize, Align, CopySize, Exact, InOrder;
      ContainerRegions(o, p);
      var inner := p + Align(SIZEOF_OBJECT * |o.children|);
      ContainerSize(o);
      AlignedSum(p, Align(SIZEOF_OBJECT * |o.children|));
      ElementRegionsInOrder(o.children, inner);
      OneRegion(p, SIZEOF_OBJECT * |o.children|, inner);
      InOrderConcat([Region(p, SIZEOF_OBJECT * |o.children|)], ElementRegions(o.children, inner), p, inner,
                    p + CopySize(o));
    }
  }

  lemma ContainerRegions(o: Object, p: nat)
    requires HasChildren(o)
    ensures Regions(o, p) == [Region(p, SIZEOF_OBJECT * |o.children|)]
                             + ElementRegions(o.children, p + Align(SIZEOF_OBJECT * |o.children|))
  {
    hide Align, ElementRegions;
  }

  lemma OneRegion(start: nat, length: nat, hi: nat)
    requires start % ALIGNMENT == 0 && start + length <= hi
    ensures InOrder([Region(start, length)], start, hi)
  {
  }

  lemma ContainerSize(o: Object)
    requires HasChildren(o) && Exact(o)
    ensures CopySize(o) == Align(SIZEOF_OBJECT * |o.children|) + ElementsSize(o.children)
    ensures ExactAll(o.children)
  {
  }

  lemma NoRegions(p: nat)
    ensures InOrder([], p, p)
  {
  }

  lemma {:induction false} ElementRegionsInOrder(children: seq<Object>, p: nat)
    requires ExactAll(children) && p % ALIGNMENT == 0
    ensures InOrder(ElementRegions(children, p), p, p + ElementsSize(children))
    decreases children, 1
  {
    hide Regions, CopySize, Exact, InOrder;
    NoRegions(p);
    if children != [] {
      CopySizeIsAligned(children[0]);
      AlignedSum(p, CopySize(children[0]));
      RegionsInOrder(children[0], p);
      ElementRegionsInOrder(children[1..], p + CopySize(children[0]));
      InOrderConcat(Regions(children[0], p), ElementRegions(children[1..], p + CopySize(children[0])),
                    p, p + CopySize(children[0]), p + ElementsSize(children));
    }
  }

  // ---- The regions as the pointers in memory give them ---------------------------------------------------

  /** A string, an array or a map: for the other tags the union holds no pointer. */
  predicate HasPointer(cell: Cell) {
    cell.Struct? && (cell.tag.TStr? || cell.tag.TArray? || cell.tag.TMap?) && cell.u.Pointer?
  }

  /** The piece of memory the pointer in a struct refers to, with the length its tag and length field give it. */
  function PointedRegion(cell: Cell): (r: Region)
    requires HasPointer(cell)
  {
    var length := if cell.tag.TStr? then cell.l + 1
                  else if cell.tag.TMap? then SIZEOF_OBJECT * (2 * cell.l)
                  else SIZEOF_OBJECT * cell.l;
    Region(cell.u.address, length)
  }

  /** Every region reached from the object_t at `a` by following the pointers stored in memory; the tree only tells how
      far to descend. */
  function Handed(cells: Cells, a: nat, o: Object): (r: seq<Region>)
    decreases o, 0
  {
    if a !in cells || !HasPointer(cells[a]) then []
    else
      var region := PointedRegion(cells[a]);
      match o
      case OArray(_, children) => [region] + HandedSlots(cells, region.start, children)
      case OMap(_, children) => [region] + HandedSlots(cells, region.start, children)
      case _ => [region]
  }

  function HandedSlots(cells: Cells, slots: nat, children: seq<Object>): (r: seq<Region>)
    decreases children, 0
  {
    if children == [] then []
    else Handed(cells, slots, children[0]) + HandedSlots(cells, slots + SIZEOF_OBJECT, children[1..])
  }

  /** The pointers of a laid-out tree lead to exactly the regions the layout assigns. */
  lemma {:induction false} HandedIsRegions(cells: Cells, a: nat, o: Object, p: nat)
    requires Laid(cells, a, o, p) && Exact(o)
    ensures Handed(cells, a, o) == Regions(o, p)
    decreases o, 0
  {
    hide Align, ElementsSize, HandedSlots, ElementRegions;
    if HasChildren(o) {
      var base := p + Align(SIZEOF_OBJECT * |o.children|);
      HandedSlotsAreRegions(cells, p, o.children, base);
      assert PointedRegion(cells[a]) == Region(p, SIZEOF_OBJECT * |o.children|);
    }
  }

  lemma {:induction false} HandedSlotsAreRegions(cells: Cells, slots: nat, children: seq<Object>, base: nat)
    requires ExactAll(children)
    requires forall k | 0 <= k < |children| ::
               Laid(cells, slots + SIZEOF_OBJECT * k, children[k], base + ElementsSize(children[..k]))
    ensures HandedSlots(cells, slots, children) == ElementRegions(children, base)
    decreases children, 0
  {
    hide Laid, Exact, CopySize, Handed, Regions;
    if children != [] {
      NoElements(children);
      assert Laid(cells, slots + SIZEOF_OBJECT * 0, children[0], base + ElementsSize(children[..0]));
      HandedIsRegions(cells, slots, children[0], base);
      var rest := children[1..];
      forall k | 0 <= k < |rest|
        ensures Laid(cells, slots + SIZEOF_OBJECT + SIZEOF_OBJECT * k, rest[k],
                     base + CopySize(children[0]) + ElementsSize(rest[..k]))
      {
        assert children[..k + 1][1..] == rest[..k];
        assert Laid(cells, slots + SIZEOF_OBJECT * (k + 1), children[k + 1], base + ElementsSize(children[..k + 1]));
      }
      HandedSlotsAreRegions(cells, slots + SIZEOF_OBJECT, rest, base + CopySize(children[0]));
    }
  }

  // ---- Memory determines the tree ------------------------------------------------------------------------

  /** What object_copy lays out can be read back as the tree. */
  lemma {:induction false} LaidHolds(cells: Cells, a: nat, o: Object, p: nat)
    requires Laid(cells, a, o, p)
    ensures Holds(cells, a, o, 0, 0)
    decreases o
  {
    if HasChildren(o) {
      forall k | 0 <= k < |o.children|
        ensures Holds(cells, p + SIZEOF_OBJECT * k, o.children[k], 0, 0)
      {
        LaidHolds(cells, p + SIZEOF_OBJECT * k, o.children[k], ChildBase(o.children, p, k));
      }
    }
  }

  /** One address is the root of at most one tree: a copy that holds the tree of the source equals it. */
  lemma {:induction false} MemoryDetermines(cells: Cells, a: nat, o: Object, o': Object, lo: nat, hi: nat, lo': nat,
                                            hi': nat)
    requires Holds(cells, a, o, lo, hi) && Holds(cells, a, o', lo', hi') && Exact(o) && Exact(o')
    ensures o == o'
    decreases o
  {
    if HasChildren(o) {
      var p := cells[a].u.address;
      forall k | 0 <= k < |o.children|
        ensures o.children[k] == o'.children[k]
      {
        MemoryDetermines(cells, p + SIZEOF_OBJECT * k, o.children[k], o'.children[k], lo, hi, lo', hi');
      }
      assert o.children == o'.children;
    } else if o.OStr? {
      SameChars(cells, cells[a].u.address, o.str, o'.str);
    }
  }

  lemma SameChars(cells: Cells, p: nat, s: seq<byte>, t: seq<byte>)
    requires |s| == |t| && CharsAt(cells, p, s) && CharsAt(cells, p, t)
    ensures s == t
  {
    forall i | 0 <= i < |s|
      ensures s[i] == t[i]
    {
      assert cells[p + i] == Char(s[p + i - p]) && cells[p + i] == Char(t[p + i - p]);
    }
  }

  /** A tree laid out in a chunk does not depend on anything outside the chunk: freeing the source is harmless. */
  lemma {:induction false} LaidInChunk(before: Cells, after: Cells, a: nat, o: Object, p: nat, lo: nat, hi: nat)
    requires Laid(before, a, o, p) && Exact(o) && SameInside(before, after, lo, hi)
    requires lo <= a && a + SIZEOF_OBJECT <= hi && lo <= p && p + CopySize(o) <= hi
    ensures Laid(after, a, o, p)
    decreases o
  {
    if HasChildren(o) {
      forall k | 0 <= k < |o.children|
        ensures Laid(after, p + SIZEOF_OBJECT * k, o.children[k], ChildBase(o.children, p, k))
      {
        ChildBases(o.children, p, k);
        WholeSize(o, p);
        LaidInChunk(before, after, p + SIZEOF_OBJECT * k, o.children[k], ChildBase(o.children, p, k), lo, hi);
      }
    }
  }

  // ---- object_init's accounting and object_create ----------------------------------------------------------

  /** The running total behind the size_t* parameter. */
  class Total {
    var size: nat

    constructor (n: nat)
      ensures size == n
    {
      size := n;
    }
  }

  /** What object_init adds to the total for a tree: exactly the bytes the copy will need. */
  method AccountSize(o: Object, total: Total)
    requires Exact(o) && KeysAreStrings(o)
    modifies total
    ensures total.size == old(total.size) + CopySize(o)
    decreases o, 1
  {
    hide Align, ElementsSize;
    match o
    case OStr(length, _) =>
      var space := ObjectAlign(length + 1);
      total.size := total.size + space;
    case OArray(length, children) =>
      var space := ObjectAlign(length * SIZEOF_OBJECT);
      total.size := total.size + space;
      AccountElements(length, children, total);
    case OMap(length, children) =>
      var space := ObjectAlign(2 * length * SIZEOF_OBJECT);
      total.size := total.size + space;
      AccountEntries(length, children, total);
    case _ =>
  }

  method AccountElements(length: nat, children: seq<Object>, total: Total)
    requires |children| == length && ExactAll(children) && forall k | 0 <= k < |children| :: KeysAreStrings(children[k])
    modifies total
    ensures total.size == old(total.size) + ElementsSize(children)
    decreases children
  {
    hide ElementsSize, CopySize, Exact, KeysAreStrings;
    NoElements(children);
    var i := 0;
    while i < length
      invariant 0 <= i <= length
      invariant total.size == old(total.size) + ElementsSize(children[..i])
    {
      AccountSize(children[i], total);
      ElementsSizeSnoc(children, i);
      i := i + 1;
    }
    assert children[..length] == children;
  }

  /** Each key is accounted where it is stored, then its value by the recursive call. */
  method AccountEntries(length: nat, children: seq<Object>, total: Total)
    requires |children| == 2 * length && ExactAll(children)
    requires forall k | 0 <= k < |children| :: KeysAreStrings(children[k]) && (k % 2 == 0 ==> children[k].OStr?)
    modifies total
    ensures total.size == old(total.size) + ElementsSize(children)
    decreases children
  {
    hide ElementsSize, CopySize, Exact, KeysAreStrings, Align;
    NoElements(children);
    var i := 0;
    while i < length
      invariant 0 <= i <= length
      invariant total.size == old(total.size) + ElementsSize(children[..2 * i])
    {
      var key := children[i * 2];
      KeySize(key);
      var space := ObjectAlign(key.l + 1);
      total.size := total.size + space;
      ElementsSizeSnoc(children, 2 * i);
      AccountSize(children[i * 2 + 1], total);
      ElementsSizeSnoc(children, 2 * i + 1);
      i := i + 1;
    }
    assert children[..2 * length] == children;
  }

  lemma KeySize(key: Object)
    requires key.OStr?
    ensures CopySize(key) == Align(key.l + 1)
  {
  }

  /** Map keys are strings, all the way down. */
  predicate KeysAreStrings(o: Object) {
    match o
    case OArray(_, children) => forall k | 0 <= k < |children| :: KeysAreStrings(children[k])
    case OMap(_, children) =>
      forall k | 0 <= k < |children| :: KeysAreStrings(children[k]) && (k % 2 == 0 ==> children[k].OStr?)
    case _ => true
  }

  /** object_create after the tree has been generated: total up, take one chunk of that size at `chunk`, copy the tree
      into it. The root stands at the start of the chunk, the tree is laid out behind it, the cursor ends exactly at the
      end of the chunk, and no cell outside the chunk is touched. */
  method CreateFlat(heap: Heap, src: nat, o: Object, chunk: nat) returns (dest: nat, total: nat, cursor: nat)
    requires Exact(o) && KeysAreStrings(o) && chunk % ALIGNMENT == 0
    requires Holds(heap.cells, src, o, chunk, chunk + Align(SIZEOF_OBJECT) + CopySize(o))
    modifies heap
    ensures dest == chunk && total == Align(SIZEOF_OBJECT) + CopySize(o) && cursor == chunk + total
    ensures Laid(heap.cells, dest, o, chunk + Align(SIZEOF_OBJECT))
    ensures InOrder([Region(dest, SIZEOF_OBJECT)] + Handed(heap.cells, dest, o), chunk, chunk + total)
    ensures Holds(heap.cells, src, o, chunk, chunk + total)
    ensures OnlyWrote(old(heap.cells), heap.cells, chunk, chunk + total, 0, 0)
  {
    hide Holds, Laid, Exact, CopySize, OnlyWrote, Regions, Handed, KeysAreStrings;
    var header := ObjectAlign(SIZEOF_OBJECT);
    var counter := new Total(header);
    AccountSize(o, counter);
    total := counter.size;
    dest := chunk;
    var pool := chunk + header;
    ghost var before := heap.cells;
    cursor := ObjectCopy(heap, dest, src, pool, o, chunk, chunk + total);
    OnlyWroteWiden(before, heap.cells, dest, dest + SIZEOF_OBJECT, pool, cursor, chunk, chunk + total, chunk,
                   chunk + total);
    HoldsFrame(before, heap.cells, src, o, chunk, chunk + total);
    OnlyWroteWiden(before, heap.cells, dest, dest + SIZEOF_OBJECT, pool, cursor, chunk, chunk + total, 0, 0);
    HandedIsRegions(heap.cells, dest, o, pool);
    RegionsInOrder(o, pool);
    InOrderConcat([Region(dest, SIZEOF_OBJECT)], Regions(o, pool), chunk, pool, chunk + total);
  }
}
