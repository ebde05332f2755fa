/** The machine's words: their ranges, and the bytes they are made of. */
module Words {
  type Byte = x: nat | x < 256

  const TWO32: nat := 0x1_0000_0000
  const TWO64: nat := 0x1_0000_0000_0000_0000
}
