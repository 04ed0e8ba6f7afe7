/**
 The fixed-width integers the store is built from, and the two `as` casts
 between them that the searches perform. Rust's `as` between `u32` and
 `i32` keeps the 32 bits and reads them in the other encoding.
 */
module Casts {

  /** `u32`: node ids and weights. */
  type U32 = n: int | 0 <= n < 0x1_0000_0000

  /** `i32`: entries of the parent table and the search's return value. */
  type I32 = x: int | -0x8000_0000 <= x < 0x8000_0000

  /** `u32::MAX`, the one id whose `i32` reading is -1. */
  const U32_MAX: U32 := 0xFFFF_FFFF

  /** `n as i32`: ids below 2^31 keep their value, larger ones read as
      negative numbers with the same residue modulo 2^32. */
  function AsI32(n: U32): (x: I32)
    ensures x % 0x1_0000_0000 == n
    ensures 0 <= x <==> n < 0x8000_0000
  {
    if n < 0x8000_0000 then n else n - 0x1_0000_0000
  }

  /** `x as u32`: the unsigned value with the same residue modulo 2^32. */
  function AsU32(x: I32): (n: U32)
    ensures n == x % 0x1_0000_0000
  {
    if 0 <= x then x else x + 0x1_0000_0000
  }

  /** Reading an id back after `as i32` gives the id: the parent table
      loses nothing. */
  lemma U32RoundTrip(n: U32)
    ensures AsU32(AsI32(n)) == n
  {
  }

  /** The other direction: every `i32` is the reading of exactly one id. */
  lemma I32RoundTrip(x: I32)
    ensures AsI32(AsU32(x)) == x
  {
  }

  /** The `i32` reading of an id is -1 exactly for `u32::MAX`, and the id
      itself exactly below 2^31. */
  lemma AsI32Collisions(n: U32)
    ensures AsI32(n) == -1 <==> n == U32_MAX
    ensures AsI32(n) == n <==> n < 0x8000_0000
  {
  }
}
