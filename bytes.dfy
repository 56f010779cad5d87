/**
  Fixed-width integers and their little-endian byte encodings.

  The term file stores its counts as 4-byte `int32_t` and its table ids as
  8-byte `uint64_t`, copied into the buffer with `memcpy`, so the bytes are in
  the host's order; the model fixes that order as little-endian.
 */
module Bytes {

  type byte = x: int | 0 <= x < 256

  const TWO_31: int := 0x8000_0000
  const TWO_32: int := 0x1_0000_0000
  const TWO_64: int := 0x1_0000_0000_0000_0000

  type u64 = x: int | 0 <= x < TWO_64

  /** The values an `int32_t` can hold. */
  predicate IsI32(x: int) {
    -TWO_31 <= x < TWO_31
  }

  function Pow256(n: nat): (p: nat)
    ensures p > 0
  {
    if n == 0 then 1 else 256 * Pow256(n - 1)
  }

  lemma Pow256Widths()
    ensures Pow256(4) == TWO_32
    ensures Pow256(8) == TWO_64
  {
    assert Pow256(2) == 0x1_0000;
    assert Pow256(4) == 0x1_0000 * Pow256(2);
    assert Pow256(6) == 0x1_0000 * Pow256(4);
    assert Pow256(8) == 0x1_0000 * Pow256(6);
  }

  /** The `n` low-order bytes of `x`, least significant first. */
  function LE(x: nat, n: nat): (bs: seq<byte>)
    ensures |bs| == n
  {
    if n == 0 then [] else [x % 256] + LE(x / 256, n - 1)
  }

  /** The number whose little-endian bytes are `bs`. */
  function FromLE(bs: seq<byte>): nat {
    if |bs| == 0 then 0 else bs[0] + 256 * FromLE(bs[1..])
  }

  lemma {:induction false} FromLEBound(bs: seq<byte>)
    ensures FromLE(bs) < Pow256(|bs|)
  {
    if |bs| > 0 {
      FromLEBound(bs[1..]);
    }
  }

  /** Reading back `n` bytes gives `x` again whenever `x` fits in `n` bytes. */
  lemma {:induction false} FromLEOfLE(x: nat, n: nat)
    requires x < Pow256(n)
    ensures FromLE(LE(x, n)) == x
  {
    if n > 0 {
      FromLEOfLE(x / 256, n - 1);
      assert LE(x, n)[1..] == LE(x / 256, n - 1);
    }
  }

  /** `int32_t` in two's complement, as four little-endian bytes. */
  function EncodeI32(x: int): (bs: seq<byte>)
    requires IsI32(x)
    ensures |bs| == 4
  {
    LE(if x < 0 then x + TWO_32 else x, 4)
  }

  function DecodeI32(bs: seq<byte>): (x: int)
    requires |bs| == 4
    ensures IsI32(x)
  {
    FromLEBound(bs);
    Pow256Widths();
    var v := FromLE(bs);
    if v >= TWO_31 then v - TWO_32 else v
  }

  lemma DecodeEncodeI32(x: int)
    requires IsI32(x)
    ensures DecodeI32(EncodeI32(x)) == x
  {
    Pow256Widths();
    FromLEOfLE(if x < 0 then x + TWO_32 else x, 4);
  }

  function EncodeU64(x: u64): (bs: seq<byte>)
    ensures |bs| == 8
  {
    LE(x, 8)
  }

  function DecodeU64(bs: seq<byte>): u64
    requires |bs| == 8
  {
    FromLEBound(bs);
    Pow256Widths();
    FromLE(bs)
  }

  lemma DecodeEncodeU64(x: u64)
    ensures DecodeU64(EncodeU64(x)) == x
  {
    Pow256Widths();
    FromLEOfLE(x, 8);
  }
}
