/** The machine's words, bytes and memory. */
module Words {
  const TWO_TO_THE_32: int := 0x1_0000_0000
  const TWO_TO_THE_64: int := 0x1_0000_0000_0000_0000

  type Word = w: int | 0 <= w < 0x1_0000_0000
  type Byte = b: int | 0 <= b < 0x100

  /** A whole address space: the byte at every address. */
  type Memory = Word -> Byte
}
