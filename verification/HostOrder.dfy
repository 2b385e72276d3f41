/** How a host lays a fundamental type out in memory: most significant byte first, or last. */
module HostOrder {
  import opened Bytes

  function Reversed(s: seq<byte>): (r: seq<byte>)
    ensures |r| == |s|
    ensures forall i | 0 <= i < |s| :: r[i] == s[|s| - 1 - i]
  {
    seq(|s|, i requires 0 <= i < |s| => s[|s| - 1 - i])
  }

  /** The object representation of `value` in `width` bytes. */
  function HostBytes(bigEndianHost: bool, value: nat, width: nat): (mem: seq<byte>)
    ensures |mem| == width
  {
    if bigEndianHost then BigEndian(value, width) else Reversed(BigEndian(value, width))
  }

  /** The number an object representation stands for. */
  function FromHostBytes(bigEndianHost: bool, mem: seq<byte>): (value: nat) {
    if bigEndianHost then FromBigEndian(mem) else FromBigEndian(Reversed(mem))
  }

  /** Storing a value and loading it again gives the value, on either kind of host. */
  lemma LoadStored(bigEndianHost: bool, value: nat, width: nat)
    requires value < Pow256(width)
    ensures FromHostBytes(bigEndianHost, HostBytes(bigEndianHost, value, width)) == value
  {
    FromBigEndianOfBigEndian(value, width);
    assert Reversed(Reversed(BigEndian(value, width))) == BigEndian(value, width);
  }
}
