/** Fixed-width integer types of the C++ implementation, with the wrap-around
    and conversions it relies on written out explicitly. */
module Numeric {

  type Byte = x: int | 0 <= x < 0x100
  type U16 = x: int | 0 <= x < 0x1_0000
  type U32 = x: int | 0 <= x < 0x1_0000_0000
  type I32 = x: int | -0x8000_0000 <= x < 0x8000_0000

  /** UINT32_MAX, used by the route computation as "infinite distance". */
  const U32Max: U32 := 0xFFFF_FFFF

  /** `++x` on a uint32_t: adds one, wrapping to zero after UINT32_MAX. */
  function WrapInc(x: U32): (r: U32)
    ensures x < U32Max ==> r == x + 1 && r > x
    ensures x == U32Max ==> r == 0
  {
    if x == U32Max then 0 else x + 1
  }

  /** The usual arithmetic conversion of a signed `int` to `uint32_t` that a
      mixed comparison `uint32_t > int` performs on its signed operand. */
  function ToUnsigned(x: I32): (r: U32)
    ensures 0 <= x ==> r == x
    ensures x < 0 ==> r >= 0x8000_0000
    ensures (r - x) % 0x1_0000_0000 == 0
  {
    if x >= 0 then x else x + 0x1_0000_0000
  }
}

/** The codec's error path and optional outputs (a relay packet, a
    generated packet). */
module Wrappers {

  datatype Option<+T> = None | Some(value: T)

  datatype Result<+R, +E> = Success(value: R) | Failure(error: E)
}
