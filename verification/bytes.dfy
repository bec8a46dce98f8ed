/** Bytes, 64-bit unsigned integers and Rust's `to_le_bytes`. */
module Bytes {

  type Byte = b: int | 0 <= b < 256

  const U64_LIMIT: nat := 0x1_0000_0000_0000_0000

  /** `u64` */
  type U64 = x: int | 0 <= x < 0x1_0000_0000_0000_0000

  function Pow256(n: nat): (r: nat)
    ensures r >= 1
  {
    if n == 0 then 1 else 256 * Pow256(n - 1)
  }

  /** The `n` least significant bytes of `x`, least significant first. */
  function ToLE(x: nat, n: nat): (r: seq<Byte>)
    ensures |r| == n
  {
    if n == 0 then [] else [(x % 256) as Byte] + ToLE(x / 256, n - 1)
  }

  /** Little-endian decoding: the first byte is the least significant. */
  function FromLE(b: seq<Byte>): (x: nat)
    ensures x < Pow256(|b|)
  {
    if b == [] then 0 else b[0] + 256 * FromLE(b[1..])
  }

  /** Decoding an encoding gives back the value, whenever it fits in `n` bytes. */
  lemma {:induction false} FromLEToLE(x: nat, n: nat)
    requires x < Pow256(n)
    ensures FromLE(ToLE(x, n)) == x
  {
    if n > 0 {
      FromLEToLE(x / 256, n - 1);
    }
  }

  /** Encoding a decoding gives back the bytes. */
  lemma {:induction false} ToLEFromLE(b: seq<Byte>)
    ensures ToLE(FromLE(b), |b|) == b
  {
    if b != [] {
      DivMod256(b[0], FromLE(b[1..]));
      ToLEFromLE(b[1..]);
    }
  }

  /** Splitting off the least significant byte. */
  lemma DivMod256(lo: Byte, hi: nat)
    ensures (lo + 256 * hi) % 256 == lo && (lo + 256 * hi) / 256 == hi
  {
  }

  /** `u64::to_le_bytes`: always eight bytes, and they decode to `x`. */
  function LE8(x: U64): (r: seq<Byte>)
    ensures |r| == 8
    ensures FromLE(r) == x
  {
    assert Pow256(8) == U64_LIMIT;
    FromLEToLE(x, 8);
    ToLE(x, 8)
  }

  /** `u64::from_le_bytes`: decoding eight bytes is a left inverse of LE8. */
  function FromLE8(b: seq<Byte>): (x: U64)
    requires |b| == 8
    ensures LE8(x) == b
  {
    assert Pow256(8) == U64_LIMIT;
    ToLEFromLE(b);
    FromLE(b)
  }

  /** Distinct values have distinct encodings. */
  lemma LE8Injective(x: U64, y: U64)
    requires LE8(x) == LE8(y)
    ensures x == y
  {
  }
}
