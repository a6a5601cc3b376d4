/** Bytes and the range of a 32-bit word. */
module Bytes {

  type Byte = n: int | 0 <= n < 256

  const WORD: int := 0x1_0000_0000
}
