/** Bytes and unsigned machine words as numbers, and the lesser of two lengths. */
module Bytes {
  type byte = x: int | 0 <= x < 256

  const U32_LIMIT := 0x1_0000_0000
  const U64_LIMIT := 0x1_0000_0000_0000_0000

  /** The value an `unsigned int` holds after being assigned `x`. */
  function U32(x: int): (r: nat)
    ensures r < U32_LIMIT && (0 <= x < U32_LIMIT ==> r == x)
  {
    x % U32_LIMIT
  }

  function Least(x: nat, y: nat): nat {
    if x < y then x else y
  }
}
