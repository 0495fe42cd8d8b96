/** Bytes and machine words, truth values as numbers, and values that may be missing. */
module Words {

  type Byte = x: int | 0 <= x < 256

  /** The number of values of 32-bit and 64-bit words. */
  const WORD32 := 0x1_0000_0000
  const WORD64 := 0x1_0000_0000_0000_0000

  function One(b: bool): int {
    if b then 1 else 0
  }

  datatype Option<T> = None | Some(value: T)
}
