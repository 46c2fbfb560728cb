/** Fixed-width integers of the source, as subset types of `int`: a value outside
    the range cannot be stored, so every arithmetic step that lands in one of
    these types carries the proof that it does not overflow. */
module Numeric {

  /** u8 */
  type byte = x: int | 0 <= x < 0x100

  /** i32 */
  type int32 = x: int | -0x8000_0000 <= x < 0x8000_0000

  /** i64 */
  type int64 = x: int | -0x8000_0000_0000_0000 <= x < 0x8000_0000_0000_0000

  /** u64 */
  type uint64 = x: int | 0 <= x < 0x1_0000_0000_0000_0000

  const Int32Min: int := -0x8000_0000
  const Int32Max: int := 0x7FFF_FFFF
}
