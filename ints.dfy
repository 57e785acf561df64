/** Fixed-width unsigned integers shared by the loader and the header helpers. */
module Ints {
  /** 2^32, the number of values of a C `unsigned int`. */
  const U32: int := 0x1_0000_0000

  /** A C `unsigned int` (32 bits). */
  newtype uint32 = x: int | 0 <= x < 0x1_0000_0000

  /** A C `unsigned short` (16 bits). */
  newtype uint16 = x: int | 0 <= x < 0x1_0000

  /** The C++ conversion `unsigned(x)` of a `size_t` keeps the low 32 bits. */
  function Truncate32(x: nat): (r: uint32)
  {
    (x % U32) as uint32
  }
}
