/**
 * Fixed-width unsigned integers and their big-endian encodings, as written by
 * Go's `encoding/binary` with `binary.BigEndian`.
 */
module Bytes {

  type uint8 = x: int | 0 <= x < 0x100
  type uint16 = x: int | 0 <= x < 0x1_0000
  type uint32 = x: int | 0 <= x < 0x1_0000_0000

  /** A Go string: a sequence of bytes, whose `len` counts bytes, not characters. */
  type GoString = seq<uint8>

  const MaxUint16: nat := 0xFFFF
  const MaxUint32: nat := 0xFFFF_FFFF

  /** Go's conversion `uint16(n)` of a non-negative `int`: the low 16 bits. */
  function ToUint16(n: nat): (r: uint16)
    ensures n <= MaxUint16 ==> r == n
    ensures (n - r) % 0x1_0000 == 0
  {
    n % 0x1_0000
  }

  /** Go's conversion `uint32(n)` of a non-negative `int`: the low 32 bits. */
  function ToUint32(n: nat): (r: uint32)
    ensures n <= MaxUint32 ==> r == n
    ensures (n - r) % 0x1_0000_0000 == 0
  {
    n % 0x1_0000_0000
  }

  /** The value of two bytes read most significant first. */
  function FromBE16(b: seq<uint8>): uint16
    requires |b| == 2
  {
    b[0] as int * 0x100 + b[1] as int
  }

  /** The value of four bytes read most significant first. */
  function FromBE32(b: seq<uint8>): uint32
    requires |b| == 4
  {
    FromBE16(b[..2]) as int * 0x1_0000 + FromBE16(b[2..]) as int
  }

  /** The two bytes of `n`, most significant first. */
  function BE16(n: uint16): (r: seq<uint8>)
    ensures |r| == 2
    ensures FromBE16(r) == n
  {
    [n / 0x100, n % 0x100]
  }

  /** The four bytes of `n`, most significant first. */
  function BE32(n: uint32): (r: seq<uint8>)
    ensures |r| == 4
    ensures FromBE32(r) == n
  {
    var r := BE16(n / 0x1_0000) + BE16(n % 0x1_0000);
    assert r[..2] == BE16(n / 0x1_0000) && r[2..] == BE16(n % 0x1_0000);
    r
  }

  /** Every two-byte sequence is the encoding of the value it decodes to. */
  lemma BE16OfFromBE16(b: seq<uint8>)
    requires |b| == 2
    ensures BE16(FromBE16(b)) == b
  {
  }

  /** Every four-byte sequence is the encoding of the value it decodes to. */
  lemma BE32OfFromBE32(b: seq<uint8>)
    requires |b| == 4
    ensures BE32(FromBE32(b)) == b
  {
    var hi := FromBE16(b[..2]);
    var lo := FromBE16(b[2..]);
    assert FromBE32(b) / 0x1_0000 == hi && FromBE32(b) % 0x1_0000 == lo;
    BE16OfFromBE16(b[..2]);
    BE16OfFromBE16(b[2..]);
    assert b == b[..2] + b[2..];
  }

  /** Bytes of a Dafny string literal whose characters are all ASCII. */
  function Ascii(s: string): (r: seq<uint8>)
    requires forall i :: 0 <= i < |s| ==> s[i] < 128 as char
    ensures |r| == |s|
    ensures forall i :: 0 <= i < |s| ==> r[i] == s[i] as int
  {
    seq(|s|, i requires 0 <= i < |s| => s[i] as int)
  }
}
