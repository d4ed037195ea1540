/** What several modules share. */
module Basics {

  /** One more than the largest 32-bit unsigned number. */
  const U32_LIMIT: int := 0x1_0000_0000

  datatype Option<+T> = None | Some(value: T)
}
