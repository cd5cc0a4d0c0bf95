/** Fixed-width unsigned integers and their little-endian wire encoding, as used by every
    multi-byte field of a connection-oriented RPC PDU (NDR little-endian data representation). */
module Bytes {

  newtype byte = x: int | 0 <= x < 0x100
  type u16 = x: int | 0 <= x < 0x1_0000
  type u32 = x: int | 0 <= x < 0x1_0000_0000

  /** The value of two bytes read least significant first. */
  function ReadU16(s: seq<byte>): u16
    requires |s| == 2
  {
    s[0] as int + 0x100 * s[1] as int
  }

  /** The value of four bytes read least significant first. */
  function ReadU32(s: seq<byte>): u32
    requires |s| == 4
  {
    s[0] as int + 0x100 * s[1] as int + 0x1_0000 * s[2] as int + 0x100_0000 * s[3] as int
  }

  /** The two bytes of a 16-bit field, least significant first. */
  function LE16(x: u16): (r: seq<byte>)
    ensures |r| == 2 && ReadU16(r) == x
  {
    [(x % 0x100) as byte, (x / 0x100) as byte]
  }

  /** The four bytes of a 32-bit field, least significant first. */
  function LE32(x: u32): (r: seq<byte>)
    ensures |r| == 4 && ReadU32(r) == x
  {
    var lo, hi := x % 0x1_0000, x / 0x1_0000;
    [(lo % 0x100) as byte, (lo / 0x100) as byte, (hi % 0x100) as byte, (hi / 0x100) as byte]
  }

  /** Reading two bytes and writing them back gives the same two bytes. */
  lemma LE16OfRead(s: seq<byte>)
    requires |s| == 2
    ensures LE16(ReadU16(s)) == s
  {
    var x := ReadU16(s);
    assert x % 0x100 == s[0] as int && x / 0x100 == s[1] as int;
  }

  /** Reading four bytes and writing them back gives the same four bytes. */
  lemma LE32OfRead(s: seq<byte>)
    requires |s| == 4
    ensures LE32(ReadU32(s)) == s
  {
    var x := ReadU32(s);
    var lo, hi := s[0] as int + 0x100 * s[1] as int, s[2] as int + 0x100 * s[3] as int;
    assert x == lo + 0x1_0000 * hi;
    assert x % 0x1_0000 == lo && x / 0x1_0000 == hi;
    assert lo % 0x100 == s[0] as int && lo / 0x100 == s[1] as int;
    assert hi % 0x100 == s[2] as int && hi / 0x100 == s[3] as int;
  }

  lemma AppendAssoc(a: seq<byte>, b: seq<byte>, c: seq<byte>)
    ensures a + b + c == a + (b + c)
  {
  }

  /** n zero bytes. */
  function Zeros(n: nat): (r: seq<byte>)
    ensures |r| == n
    ensures forall i :: 0 <= i < n ==> r[i] == 0
  {
    seq(n, _ => 0)
  }

  /** Models rpc_offset_align(&offset, 4) (defined in rpc.c, which is not part of this model):
      the offset rounded up to the next multiple of 4; the pad is the difference. The helper
      takes the alignment as a parameter, but every call in this core passes 4. */
  function Align4(offset: nat): (aligned: nat)
    ensures aligned % 4 == 0
    ensures offset <= aligned < offset + 4
  {
    (offset + 3) / 4 * 4
  }

  /** Where each of eight concatenated pieces sits in the whole. */
  lemma Pieces8(a: seq<byte>, b: seq<byte>, c: seq<byte>, d: seq<byte>,
                e: seq<byte>, f: seq<byte>, g: seq<byte>, h: seq<byte>)
    ensures var s := a + b + c + d + e + f + g + h;
      var i1 := |a|; var i2 := i1 + |b|; var i3 := i2 + |c|; var i4 := i3 + |d|;
      var i5 := i4 + |e|; var i6 := i5 + |f|; var i7 := i6 + |g|;
      s[..i1] == a && s[i1..i2] == b && s[i2..i3] == c && s[i3..i4] == d &&
      s[i4..i5] == e && s[i5..i6] == f && s[i6..i7] == g && s[i7..] == h
  {
  }
}
