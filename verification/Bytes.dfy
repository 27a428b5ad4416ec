/** Bytes, region images and little-endian 32-bit integers. */
module Bytes {

  const U32_BOUND := 0x1_0000_0000

  type Byte = x: int | 0 <= x < 256

  type U32 = x: int | 0 <= x < U32_BOUND

  /** The readable part of a region: its head is an unsigned 32-bit offset. */
  type Image = b: seq<Byte> | |b| < U32_BOUND

  /** Subtraction of unsigned 32-bit integers, which wraps. */
  function U32Difference(x: U32, y: U32): U32 {
    if x >= y then x - y else x - y + U32_BOUND
  }

  /** The four bytes a 32-bit store writes; larger numbers are truncated as in C. */
  function LE32(n: nat): (b: seq<Byte>)
    ensures |b| == 4
  {
    [n % 0x100, n / 0x100 % 0x100, n / 0x1_0000 % 0x100, n / 0x100_0000 % 0x100]
  }

  function FromLE32(b: seq<Byte>): U32
    requires |b| == 4
  {
    var b0: int, b1: int, b2: int, b3: int := b[0], b[1], b[2], b[3];
    b0 + 0x100 * b1 + 0x1_0000 * b2 + 0x100_0000 * b3
  }

  lemma LE32RoundTrip(n: U32)
    ensures FromLE32(LE32(n)) == n
  {
    var h0 := n / 0x100;
    var h1 := h0 / 0x100;
    assert n / 0x1_0000 == h1;
    assert n / 0x100_0000 == h1 / 0x100;
  }

  lemma FromLE32RoundTrip(b: seq<Byte>)
    requires |b| == 4
    ensures LE32(FromLE32(b)) == b
  {
    var b0: int, b1: int, b2: int, b3: int := b[0], b[1], b[2], b[3];
    var h1 := b2 + 0x100 * b3;
    var h0 := b1 + 0x100 * h1;
    var n := b0 + 0x100 * h0;
    assert n == FromLE32(b);
    assert n / 0x100 == h0 && n % 0x100 == b[0];
    assert h0 / 0x100 == h1 && h0 % 0x100 == b[1];
    assert n / 0x1_0000 == h1;
    assert n / 0x100_0000 == h1 / 0x100;
  }
}
