/** Bytes and the integers of fixed width, as ranges. */
module Bytes {
  type byte = b: int | 0 <= b < 256
  type uint32 = v: int | 0 <= v < 0x1_0000_0000
  type uint64 = v: int | 0 <= v < 0x1_0000_0000_0000_0000
  type int32 = v: int | -0x8000_0000 <= v < 0x8000_0000
  type int64 = v: int | -0x8000_0000_0000_0000 <= v < 0x8000_0000_0000_0000
}
