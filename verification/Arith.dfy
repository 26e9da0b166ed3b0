/** Fixed-width unsigned arithmetic of the firmware, written out on unbounded integers. */
module Arith {
  const U16_LIMIT: nat := 0x1_0000
  const U32_LIMIT: nat := 0x1_0000_0000

  type uint16 = x: int | 0 <= x < 0x1_0000
  type uint32 = x: int | 0 <= x < 0x1_0000_0000
  type int32 = x: int | -0x8000_0000 <= x < 0x8000_0000

  /** Conversion of any integer to uint16_t. */
  function U16(x: int): uint16 { x % 0x1_0000 }

  /** Sum of two uint16_t values stored in a uint16_t. */
  function AddU16(a: uint16, b: uint16): uint16 {
    if a + b < 0x1_0000 then a + b else a + b - 0x1_0000
  }

  /** Conversion of any integer to uint32_t. */
  function U32(x: int): uint32 { x % 0x1_0000_0000 }

  /** Conversion of any integer to int16_t (two's complement). */
  function I16(x: int): int {
    if x % 0x1_0000 < 0x8000 then x % 0x1_0000 else x % 0x1_0000 - 0x1_0000
  }

  function Min(a: int, b: int): int { if b > a then a else b }

  function Max(a: int, b: int): int { if a > b then a else b }

  function AbsDiff(a: int, b: int): nat { if a > b then a - b else b - a }
}
