/** What several parts share: the size of a page, the number of 64-bit words, and values that may be missing. */
module Basics {
  const PAGE_SIZE := 4096
  const WORD := 0x1_0000_0000_0000_0000

  datatype Option<T> = None | Some(value: T)
}
