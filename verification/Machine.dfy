/** Sizes that several parts of the system share. */
module Machine {
  const TERMINALS := 3
  const WORD := 0x1_0000_0000
}
