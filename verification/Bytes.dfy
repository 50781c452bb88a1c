/** Bytes, fixed-width little-endian integers and 32-bit wrap-around. */
module Bytes {

  type byte = x: int | 0 <= x < 256

  const U32_MODULUS: nat := 0x1_0000_0000

  /** 256 to the power n: the number of values n bytes can hold. */
  function Pow256(n: nat): (p: nat)
    ensures p > 0
  {
    if n == 0 then 1 else 256 * Pow256(n - 1)
  }

  /** The width lowest bytes of x, least significant first. */
  function LittleEndian(width: nat, x: nat): (b: seq<byte>)
    ensures |b| == width
  {
    if width == 0 then [] else [x % 256] + LittleEndian(width - 1, x / 256)
  }

  function FromLittleEndian(b: seq<byte>): nat {
    if b == [] then 0 else b[0] + 256 * FromLittleEndian(b[1..])
  }

  lemma {:induction false} LittleEndianRoundTrip(width: nat, x: nat)
    requires x < Pow256(width)
    ensures FromLittleEndian(LittleEndian(width, x)) == x
  {
    if width > 0 {
      LittleEndianRoundTrip(width - 1, x / 256);
      assert LittleEndian(width, x)[1..] == LittleEndian(width - 1, x / 256);
    }
  }

  lemma ConcatAssociates(a: seq<byte>, b: seq<byte>, c: seq<byte>)
    ensures a + (b + c) == (a + b) + c
  {
  }

  /** C's conversion of an int to uint32_t and back. */
  function ToU32(x: int): nat {
    x % U32_MODULUS
  }

  function ToI32(x: nat): int {
    if x < 0x8000_0000 then x else x - U32_MODULUS
  }

  /** Sums may be wrapped on the way. */
  lemma WrapSum(x: int, y: int)
    ensures ToU32(ToU32(x) + y) == ToU32(x + y)
    ensures ToU32(ToI32(ToU32(x)) + y) == ToU32(x + y)
  {
  }
}
