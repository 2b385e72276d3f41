/** Bytes and the big-endian notation every multi-byte field of the wire format uses. */
module Bytes {

  type byte = b: int | 0 <= b < 256

  const TWO_TO_THE_32 := 0x1_0000_0000
  const TWO_TO_THE_64 := 0x1_0000_0000_0000_0000

  function Pow256(width: nat): (r: nat)
    ensures r > 0
  {
    if width == 0 then 1 else 256 * Pow256(width - 1)
  }

  lemma Pow256Values()
    ensures Pow256(1) == 0x100 && Pow256(2) == 0x1_0000
    ensures Pow256(4) == TWO_TO_THE_32 && Pow256(8) == TWO_TO_THE_64
  {
    assert Pow256(4) == 256 * (256 * Pow256(2));
    assert Pow256(6) == 256 * (256 * Pow256(4));
  }

  /** The low `width` base-256 digits of `value`, most significant first. */
  function BigEndian(value: nat, width: nat): (s: seq<byte>)
    ensures |s| == width
  {
    if width == 0 then [] else BigEndian(value / 256, width - 1) + [value % 256]
  }

  /** Digit i, counted from the most significant one. */
  lemma {:induction false} BigEndianDigit(value: nat, width: nat, i: nat)
    requires i < width
    ensures BigEndian(value, width)[i] == value / Pow256(width - 1 - i) % 256
    decreases width
  {
    if i < width - 1 {
      BigEndianDigit(value / 256, width - 1, i);
      DivideTwice(value, Pow256(width - 2 - i));
    }
  }

  lemma DivideTwice(n: nat, p: nat)
    requires p > 0
    ensures n / 256 / p == n / (256 * p)
  {
    var q, r := n / (256 * p), n % (256 * p);
    assert n == 256 * (p * q) + r;
    assert n / 256 == p * q + r / 256 && r / 256 < p;
    QuotientIs(n / 256, p, q, r / 256);
  }

  lemma QuotientIs(n: nat, p: nat, q: nat, r: nat)
    requires n == p * q + r && r < p
    ensures n / p == q && n % p == r
  {
    OneQuotient(p, q, r, n / p, n % p);
  }

  /** Division with remainder has one answer. */
  lemma OneQuotient(p: nat, q: nat, r: nat, q': nat, r': nat)
    requires r < p && r' < p && p * q + r == p * q' + r'
    ensures q == q' && r == r'
  {
    assert p * (q - q') == r' - r;
    SmallMultiple(p, q - q');
  }

  lemma SmallMultiple(p: nat, d: int)
    requires 0 - p < p * d < p
    ensures d == 0
  {
  }

  /** The number a digit string denotes, most significant digit first. */
  function FromBigEndian(s: seq<byte>): (r: nat)
  {
    if |s| == 0 then 0 else FromBigEndian(s[..|s| - 1]) * 256 + s[|s| - 1]
  }

  /** Writing a number that fits and reading it back gives the number. */
  lemma {:induction false} FromBigEndianOfBigEndian(value: nat, width: nat)
    requires value < Pow256(width)
    ensures FromBigEndian(BigEndian(value, width)) == value
  {
    if width > 0 {
      FromBigEndianOfBigEndian(value / 256, width - 1);
      assert BigEndian(value, width)[..width - 1] == BigEndian(value / 256, width - 1);
    }
  }

  /** `width` digits denote a number below 256^width, and writing it again gives the same digits. */
  lemma {:induction false} BigEndianOfFromBigEndian(s: seq<byte>)
    ensures FromBigEndian(s) < Pow256(|s|)
    ensures BigEndian(FromBigEndian(s), |s|) == s
  {
    if |s| > 0 {
      BigEndianOfFromBigEndian(s[..|s| - 1]);
      assert FromBigEndian(s) / 256 == FromBigEndian(s[..|s| - 1]);
      assert s == s[..|s| - 1] + [s[|s| - 1]];
    }
  }

  /** `chunk` occupies `s` from position `p` on. */
  predicate At(s: seq<byte>, p: nat, chunk: seq<byte>) {
    p + |chunk| <= |s| && s[p..p + |chunk|] == chunk
  }

  lemma AtConcat(s: seq<byte>, p: nat, a: seq<byte>, b: seq<byte>)
    ensures At(s, p, a + b) <==> At(s, p, a) && At(s, p + |a|, b)
  {
    if At(s, p, a + b) {
      assert s[p..p + |a + b|][..|a|] == s[p..p + |a|];
      assert s[p..p + |a + b|][|a|..] == s[p + |a|..p + |a| + |b|];
    }
    if At(s, p, a) && At(s, p + |a|, b) {
      assert s[p..p + |a + b|] == s[p..p + |a|] + s[p + |a|..p + |a| + |b|];
    }
  }

  /** A byte two strings share at a position, when the second holds a slice of the first. */
  lemma AtSlice(s: seq<byte>, p: nat, q: nat, s': seq<byte>, p': nat, a: nat, b: nat)
    requires p <= a <= b <= q <= |s|
    requires At(s', p', s[p..q])
    ensures At(s', p' + (a - p), s[a..b])
  {
    SliceOfSlice(s, p, q, a - p, b - p);
    SliceOfSlice(s', p', p' + (q - p), a - p, b - p);
  }

  lemma SliceOfSlice(s: seq<byte>, p: nat, q: nat, i: nat, j: nat)
    requires p <= q <= |s| && i <= j <= q - p
    ensures s[p..q][i..j] == s[p + i..p + j]
  {
    forall k | 0 <= k < j - i
      ensures s[p..q][i..j][k] == s[p + i..p + j][k]
    {
      assert s[p..q][i + k] == s[p + (i + k)];
    }
  }

  lemma ConcatAssociates(a: seq<byte>, b: seq<byte>, c: seq<byte>)
    ensures a + (b + c) == a + b + c
  {
  }
}
