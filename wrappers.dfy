/** Optional values, standing for the C API's nullable pointers. */
module Wrappers {

  datatype Option<+T> = None | Some(value: T)

  /** Unsigned 32-bit integers, as the C structures store them. */
  newtype uint32 = x: int | 0 <= x < 0x1_0000_0000

  const UINT32_MAX: uint32 := 0xFFFF_FFFF
}
