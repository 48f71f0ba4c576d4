/** Bytes as numbers, for the codecs that work by arithmetic. */
module Octets {

  type byte = x: int | 0 <= x < 256

  /** How many values `n` bytes have. */
  function Power256(n: nat): nat {
    if n == 0 then 1 else 256 * Power256(n - 1)
  }
}
