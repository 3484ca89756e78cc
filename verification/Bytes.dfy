/** Bytes, and memory regions whose contents are only partly determined. */
module Bytes {

  type Byte = b: int | 0 <= b < 256

  /** What a program has said about one byte of memory: its value, or nothing
      (space that was reserved and not yet stored into, or padding). */
  datatype Cell = Known(value: Byte) | Blank

  function KnownCells(data: seq<Byte>): (cells: seq<Cell>)
    ensures |cells| == |data|
  {
    seq(|data|, i requires 0 <= i < |data| => Known(data[i]))
  }

  function BlankCells(n: nat): (cells: seq<Cell>)
    ensures |cells| == n
  {
    seq(n, _ => Blank)
  }

  /** The bytes of `actual` have every value that `cells` determines. */
  predicate Agrees(actual: seq<Byte>, cells: seq<Cell>) {
    && |actual| == |cells|
    && forall i :: 0 <= i < |cells| && cells[i].Known? ==> actual[i] == cells[i].value
  }

  /** Little-endian 16- and 32-bit integers, as the i386 stores them. */
  function Little16(x: nat): (s: seq<Byte>)
    ensures |s| == 2
  {
    [x % 256, x / 256 % 256]
  }

  function From16(lo: Byte, hi: Byte): nat { lo as int + 256 * hi as int }

  function Little32(x: nat): (s: seq<Byte>)
    ensures |s| == 4
  {
    [x % 256, x / 256 % 256, x / 65536 % 256, x / 16777216 % 256]
  }

  function From32(s: seq<Byte>): nat
    requires |s| == 4
  {
    s[0] as int + 256 * s[1] as int + 65536 * s[2] as int + 16777216 * s[3] as int
  }

  /** The number is in its four bytes, the lowest first, modulo 2^32. */
  lemma Little32RoundTrip(x: nat)
    ensures From32(Little32(x)) == x % 0x1_0000_0000
  {
    assert x / 65536 == x / 256 / 256 && x / 16777216 == x / 65536 / 256;
    assert x / 0x1_0000_0000 == x / 16777216 / 256;
  }

  /** So it is read back as itself if it fits. */
  lemma Little32IsExact(x: nat)
    requires x < 0x1_0000_0000
    ensures From32(Little32(x)) == x
  {
    Little32RoundTrip(x);
  }
}
