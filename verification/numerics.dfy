/** Fixed-width integer arithmetic of the CLR, written out over Dafny's unbounded `int`. */
module Numerics {

  const Int32Min: int := -0x8000_0000
  const Int32Max: int := 0x7FFF_FFFF

  /** C#'s `int`. */
  newtype int32 = x: int | -0x8000_0000 <= x < 0x8000_0000

  /** Two's-complement wrap-around of an unbounded integer to 32 bits (unchecked C# arithmetic). */
  function Wrap32(x: int): (r: int32)
    ensures (r as int - x) % 0x1_0000_0000 == 0
    ensures Int32Min <= x <= Int32Max ==> r as int == x
  {
    ((x + 0x8000_0000) % 0x1_0000_0000 - 0x8000_0000) as int32
  }

  /** Unchecked 32-bit subtraction `a - b`. */
  function Sub32(a: int32, b: int32): (r: int32)
    ensures Int32Min <= a as int - b as int <= Int32Max ==> r as int == a as int - b as int
  {
    Wrap32(a as int - b as int)
  }
}
