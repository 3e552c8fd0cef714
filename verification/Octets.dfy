/** Octets and byte strings. */
module Octets {
  /** One octet. Bit operations with a constant mask are written as the arithmetic they perform:
      `x & 0x0f` is `x % 16`, `x & 0x7f` is `x % 128`, and bit 7 is set when `x >= 128`. */
  type byte = x: int | 0 <= x < 256

  type Bytes = seq<byte>

  function Pow2(bits: nat): nat {
    if bits == 0 then 1 else 2 * Pow2(bits - 1)
  }
}
