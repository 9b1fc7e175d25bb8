/** The fixed-width integers of the source, with their wrap-around made explicit. */
module Ints {

  const UInt32Limit: int := 0x1_0000_0000

  /** C# `uint`. */
  newtype uint32 = x: int | 0 <= x < 0x1_0000_0000

  /** C# `int`. */
  newtype int32 = x: int | -0x8000_0000 <= x < 0x8000_0000

  /** `x++` on a `uint` in an unchecked context: wraps from the maximum to 0. */
  function Inc(x: uint32): (y: uint32)
    ensures y as int == (x as int + 1) % UInt32Limit
  {
    if x == 0xFFFF_FFFF then 0 else x + 1
  }

  /** The unchecked `(int)` cast of a `uint`: keeps the 32-bit pattern. */
  function ToInt32(x: uint32): (y: int32)
    ensures (y as int - x as int) % UInt32Limit == 0
    ensures y < 0 <==> x >= 0x8000_0000
  {
    if x < 0x8000_0000 then x as int as int32 else (x as int - UInt32Limit) as int32
  }
}
