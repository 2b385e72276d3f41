/** The part of std::istream that parse uses: a read position, an eof bit and a fail bit. */
module InputStream {
  import opened Bytes

  class IStream {
    const data: seq<byte>
    var pos: nat
    var eof: bool
    var fail: bool

    ghost predicate Valid()
      reads this
    {
      pos <= |data|
    }

    predicate Good()
      reads this
    {
      !eof && !fail
    }

    constructor (s: seq<byte>)
      ensures Valid() && Good() && data == s && pos == 0
    {
      data, pos, eof, fail := s, 0, false, false;
    }

    /** get(): the next byte, or -1. A stream that is not good only has its fail bit set. */
    method Get() returns (c: int)
      requires Valid()
      modifies this
      ensures Valid()
      ensures old(Good()) && old(pos) < |data| ==> Good() && pos == old(pos) + 1 && c == data[old(pos)]
      ensures old(Good()) && old(pos) == |data| ==> eof && fail && pos == old(pos) && c == -1
      ensures !old(Good()) ==> fail && eof == old(eof) && pos == old(pos) && c == -1
    {
      if eof || fail {
        fail := true;
        c := -1;
      } else if pos < |data| {
        c := data[pos];
        pos := pos + 1;
      } else {
        eof, fail := true, true;
        c := -1;
      }
    }

    /** read(dst, n): fills all of dst, or as much as there is and sets both bits. */
    method Read(dst: array<byte>)
      requires Valid()
      modifies this, dst
      ensures Valid()
      ensures old(Good()) && old(pos) + dst.Length <= |data| ==>
                Good() && pos == old(pos) + dst.Length && dst[..] == data[old(pos)..pos]
      ensures old(Good()) && old(pos) + dst.Length > |data| ==>
                eof && fail && pos == |data| && dst[..] == data[old(pos)..] + old(dst[..])[|data| - old(pos)..]
      ensures !old(Good()) ==> fail && eof == old(eof) && pos == old(pos) && dst[..] == old(dst[..])
    {
      if eof || fail {
        fail := true;
        return;
      }
      var n := if pos + dst.Length <= |data| then dst.Length else |data| - pos;
      forall i | 0 <= i < n {
        dst[i] := data[pos + i];
      }
      if n < dst.Length {
        eof, fail := true, true;
      }
      pos := pos + n;
    }

    /** setstate(failbit) */
    method SetFail()
      modifies this`fail
      ensures fail
    {
      fail := true;
    }

    /** tellg(): the position, or -1 on a stream that is not good, whose fail bit it sets. */
    method Tellg() returns (p: int)
      modifies this`fail
      ensures fail == (old(fail) || eof)
      ensures p == if fail then -1 else pos
    {
      if eof || fail {
        fail := true;
        p := -1;
      } else {
        p := pos;
      }
    }
  }
}
