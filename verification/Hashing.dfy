/** The multiplicative hash of the benchmarks. */
module Hashing {
  import opened Bits
  import opened Bytes
  import opened Values
  import opened HostOrder

  lemma {:induction false} XorBound(a: nat, b: nat, k: nat)
    requires a < Pow2(k) && b < Pow2(k)
    ensures Xor(a, b) < Pow2(k)
    decreases k
  {
    if k > 0 { XorBound(a / 2, b / 2, k - 1); }
  }

  /** hash * 31 ^ val in 32-bit arithmetic. */
  function HashU32(hash: uint32, val: uint32): (h: uint32) {
    PowerThirtyTwo();
    XorBound(hash * 31 % TWO_TO_THE_32, val, 32);
    Xor(hash * 31 % TWO_TO_THE_32, val)
  }

  function HashU64(hash: uint32, val: uint64): (h: uint32) {
    HashU32(HashU32(hash, val / TWO_TO_THE_32), val % TWO_TO_THE_32)
  }

  /** A signed argument is hashed as the unsigned number with the same bits. */
  function HashI64(hash: uint32, val: int): (h: uint32) {
    HashU64(hash, val % TWO_TO_THE_64)
  }

  function HashBool(hash: uint32, val: bool): (h: uint32) {
    HashU32(hash, if val then 1 else 0)
  }

  /** Floats are skipped over: a constant is mixed in. */
  function HashDouble(hash: uint32): (h: uint32) {
    HashU32(hash, 43013)
  }

  /** At most four bytes as a little-endian number, zero-padded. */
  function Word(s: seq<byte>): (w: uint32)
    requires |s| <= 4
  {
    BigEndianOfFromBigEndian(Reversed(s));
    Pow256Small(|s|);
    FromBigEndian(Reversed(s))
  }

  lemma Pow256Small(k: nat)
    requires k <= 4
    ensures Pow256(k) <= TWO_TO_THE_32
  {
    Pow256Values();
    assert k == 3 ==> Pow256(3) == 256 * Pow256(2);
  }

  /** A byte string, four bytes at a time; a rest of one to three bytes makes a last word. */
  function HashWords(hash: uint32, s: seq<byte>): (h: uint32)
    decreases |s|
  {
    if |s| == 0 then hash
    else if |s| < 4 then HashU32(hash, Word(s))
    else HashWords(HashU32(hash, Word(s[..4])), s[4..])
  }

  function HashStr(hash: uint32, s: seq<byte>): (h: uint32) {
    HashWords(HashU32(hash, |s| % TWO_TO_THE_32), s)
  }

  const NIL_TEXT: seq<byte> := [0x6e, 0x69, 0x6c]

  function HashNil(hash: uint32): (h: uint32) {
    HashStr(HashU32(hash, 0), NIL_TEXT)
  }

  // ---- hash_str as it is written ------------------------------------------------------------------

  /** A byte shifted left by `count` bits. */
  function Shifted(b: byte, count: nat): (n: nat) {
    b * Pow2(count)
  }

  lemma PowersOfBytes()
    ensures Pow2(8) == 0x100 && Pow2(16) == 0x1_0000 && Pow2(24) == 0x100_0000
  {
    assert Pow2(12) == 0x1000;
    assert Pow2(20) == 0x10_0000;
  }

  /** OR-ing bytes shifted by 24, 16, 8 and no bits is the sum of what they stand for. */
  lemma OrOfBytes(d: byte, c: byte, b: byte, a: byte)
    ensures Or(Or(Or(Shifted(d, 24), Shifted(c, 16)), Shifted(b, 8)), a)
            == d * 0x100_0000 + c * 0x1_0000 + b * 0x100 + a
  {
    hide Or;
    PowersOfBytes();
    OrBelow(d, c * 0x1_0000, 24);
    OrBelow(d * 0x100 + c, b * 0x100, 16);
    OrBelow(d * 0x1_0000 + c * 0x100 + b, a, 8);
  }

  lemma NothingShifted(n: nat)
    ensures Or(0, n) == n
    ensures Shifted(0, 24) == 0 && Shifted(0, 16) == 0 && Shifted(0, 8) == 0
  {
    hide Or;
    OrSymmetric(0, n);
    OrZero(n);
  }

  /** The little-endian words of one to four bytes, as hash_str assembles them. */
  lemma WordOfFour(a: byte, b: byte, c: byte, d: byte)
    ensures Or(Or(Or(Shifted(d, 24), Shifted(c, 16)), Shifted(b, 8)), a) == Word([a, b, c, d])
  {
    hide Or, Word, Shifted;
    WordValue([a, b, c, d]);
    OrOfBytes(d, c, b, a);
  }

  lemma WordOfThree(a: byte, b: byte, c: byte)
    ensures Or(Or(Or(0, Shifted(c, 16)), Shifted(b, 8)), a) == Word([a, b, c])
  {
    hide Or, Word, Shifted;
    WordValue([a, b, c]);
    OrOfBytes(0, c, b, a);
    NothingShifted(0);
  }

  lemma WordOfTwo(a: byte, b: byte)
    ensures Or(Or(0, Shifted(b, 8)), a) == Word([a, b])
  {
    hide Or, Word, Shifted;
    WordValue([a, b]);
    OrOfBytes(0, 0, b, a);
    NothingShifted(0);
  }

  lemma WordOfOne(a: byte)
    ensures Or(0, a) == Word([a])
  {
    hide Or, Word;
    WordValue([a]);
    NothingShifted(a);
  }

  lemma WordValue(s: seq<byte>)
    requires 0 < |s| <= 4
    ensures |s| == 1 ==> Word(s) == s[0]
    ensures |s| == 2 ==> Word(s) == s[0] as int + s[1] as int * 0x100
    ensures |s| == 3 ==> Word(s) == s[0] as int + s[1] as int * 0x100 + s[2] as int * 0x1_0000
    ensures |s| == 4 ==>
              Word(s) == s[0] as int + s[1] as int * 0x100 + s[2] as int * 0x1_0000 + s[3] as int * 0x100_0000
  {
    hide Word;
    WordStep(s);
    if |s| > 1 { WordStep(s[1..]); }
    if |s| > 2 { WordStep(s[1..][1..]); }
    if |s| > 3 { WordStep(s[1..][1..][1..]); }
  }

  /** The first byte is the least significant one. */
  lemma WordStep(s: seq<byte>)
    requires 0 < |s| <= 4
    ensures Word(s) == s[0] as int + 256 * Word(s[1..])
    ensures |s| == 1 ==> Word(s[1..]) == 0
  {
    var r := Reversed(s);
    assert r[..|s| - 1] == Reversed(s[1..]);
  }

  /** The loop over whole words, then the switch over the rest, which falls through from case to case. */
  method HashStrLoop(hash0: uint32, str: seq<byte>) returns (hash: uint32)
    ensures hash == HashStr(hash0, str)
  {
    hide Or, Word, HashU32, Shifted;
    var len := |str|;
    hash := HashU32(hash0, len % TWO_TO_THE_32);
    var ustr := 0;
    while len >= 4
      invariant 0 <= len && ustr + len == |str|
      invariant HashStr(hash0, str) == HashWords(hash, str[ustr..])
    {
      WordOfFour(str[ustr], str[ustr + 1], str[ustr + 2], str[ustr + 3]);
      assert str[ustr..][..4] == [str[ustr], str[ustr + 1], str[ustr + 2], str[ustr + 3]];
      assert str[ustr..][4..] == str[ustr + 4..];
      var val := Or(Or(Or(Shifted(str[ustr + 3], 24), Shifted(str[ustr + 2], 16)), Shifted(str[ustr + 1], 8)),
                    str[ustr]);
      hash := HashU32(hash, val);
      ustr, len := ustr + 4, len - 4;
    }
    var val := 0;
    if len == 3 {
      val := Or(val, Shifted(str[ustr + 2], 16));
    }
    if len >= 2 {
      val := Or(val, Shifted(str[ustr + 1], 8));
    }
    if len >= 1 {
      val := Or(val, str[ustr]);
      RestWord(str, ustr);
      hash := HashU32(hash, val);
    }
  }

  /** The last one to three bytes. */
  lemma RestWord(s: seq<byte>, p: nat)
    requires p < |s| <= p + 3
    ensures |s| == p + 1 ==> Or(0, s[p]) == Word(s[p..])
    ensures |s| == p + 2 ==> Or(Or(0, Shifted(s[p + 1], 8)), s[p]) == Word(s[p..])
    ensures |s| == p + 3 ==> Or(Or(Or(0, Shifted(s[p + 2], 16)), Shifted(s[p + 1], 8)), s[p]) == Word(s[p..])
  {
    hide Or, Word, Shifted;
    if |s| == p + 1 {
      WordOfOne(s[p]);
      assert s[p..] == [s[p]];
    } else if |s| == p + 2 {
      WordOfTwo(s[p], s[p + 1]);
      assert s[p..] == [s[p], s[p + 1]];
    } else {
      WordOfThree(s[p], s[p + 1], s[p + 2]);
      assert s[p..] == [s[p], s[p + 1], s[p + 2]];
    }
  }
}
