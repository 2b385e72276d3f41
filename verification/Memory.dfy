/** Memory as the generator uses it: an address holds the start of an object_t (16 bytes) or a single char. A write
    destroys every cell it overlaps. */
module Memory {
  import opened Bytes
  import opened Values

  const SIZEOF_OBJECT := 16
  const ALIGNMENT := 8

  datatype Tag = TNil | TBool | TDouble | TInt | TUint | TStr | TArray | TMap

  /** The union of object_t; both pointer members share Pointer. */
  datatype Union = Unset | B(b: bool) | D(bits: uint64) | I(i: int) | U(u: uint64) | Pointer(address: nat)

  datatype Cell =
    | Struct(tag: Tag, l: uint32, u: Union)
    | Char(c: byte)
  {
    function Size(): (n: nat)
      ensures n >= 1
    {
      if Struct? then SIZEOF_OBJECT else 1
    }
  }

  type Cells = map<nat, Cell>

  /** The cell at x shares no byte with [lo, hi). */
  predicate Misses(cells: Cells, x: nat, lo: nat, hi: nat)
    requires x in cells
  {
    lo >= hi || x + cells[x].Size() <= lo || hi <= x
  }

  function Put(cells: Cells, a: nat, cell: Cell): (r: Cells) {
    (map x | x in cells && Misses(cells, x, a, a + cell.Size()) :: cells[x])[a := cell]
  }

  class Heap {
    var cells: Cells

    method Write(a: nat, cell: Cell)
      modifies this
      ensures cells == Put(old(cells), a, cell)
    {
      cells := Put(cells, a, cell);
    }
  }

  // ---- Frames ----------------------------------------------------------------------------------------

  /** Two ranges of addresses without a common byte. */
  predicate Apart(a: nat, b: nat, c: nat, d: nat) {
    a >= b || c >= d || b <= c || d <= a
  }

  predicate Within(a: nat, b: nat, c: nat, d: nat) {
    a >= b || (c <= a && b <= d)
  }

  /** Only bytes of [lo1, hi1) and [lo2, hi2) were written: every cell that misses both ranges is unchanged. */
  predicate OnlyWrote(before: Cells, after: Cells, lo1: nat, hi1: nat, lo2: nat, hi2: nat) {
    forall x | x in before && Misses(before, x, lo1, hi1) && Misses(before, x, lo2, hi2) ::
      x in after && after[x] == before[x]
  }

  /** The cells wholly inside [lo, hi) are the same. */
  predicate SameInside(before: Cells, after: Cells, lo: nat, hi: nat) {
    forall x | x in before && lo <= x && x + before[x].Size() <= hi :: x in after && after[x] == before[x]
  }

  lemma PutFrame(cells: Cells, a: nat, cell: Cell)
    ensures OnlyWrote(cells, Put(cells, a, cell), a, a + cell.Size(), 0, 0)
  {
  }

  /** A write leaves nothing behind in the bytes it covers but what it put there. */
  lemma PutClears(cells: Cells, a: nat, cell: Cell, x: nat)
    ensures var r := Put(cells, a, cell);
            && a in r && r[a] == cell
            && (x in r && x != a ==> x + r[x].Size() <= a || a + cell.Size() <= x)
  {
  }

  /** Larger ranges permit more. */
  lemma OnlyWroteWiden(before: Cells, after: Cells, a1: nat, b1: nat, a2: nat, b2: nat, lo1: nat, hi1: nat, lo2: nat,
                       hi2: nat)
    requires OnlyWrote(before, after, a1, b1, a2, b2)
    requires Within(a1, b1, lo1, hi1) || Within(a1, b1, lo2, hi2)
    requires Within(a2, b2, lo1, hi1) || Within(a2, b2, lo2, hi2)
    ensures OnlyWrote(before, after, lo1, hi1, lo2, hi2)
  {
  }

  lemma OnlyWroteThen(c0: Cells, c1: Cells, c2: Cells, lo1: nat, hi1: nat, lo2: nat, hi2: nat)
    requires OnlyWrote(c0, c1, lo1, hi1, lo2, hi2) && OnlyWrote(c1, c2, lo1, hi1, lo2, hi2)
    ensures OnlyWrote(c0, c2, lo1, hi1, lo2, hi2)
  {
  }
}
