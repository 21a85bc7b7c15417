/** The integer ranges of the source, and a value that may be absent. */
module Basics {

  datatype Option<T> = None | Some(value: T)

  /** The `int` in which the source keeps positions, lengths and counts. */
  type Int32 = x: int | -0x8000_0000 <= x < 0x8000_0000

  const INT_LIMIT: nat := 0x8000_0000

  /** The ranges of UINT and size_t: sums below these do not wrap. */
  const UINT_LIMIT: nat := 0x1_0000_0000
  const SIZE_LIMIT: nat := 0x1_0000_0000_0000_0000
}
