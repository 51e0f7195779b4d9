/** Machine words. */
module Words {
  const TWO64 := 0x1_0000_0000_0000_0000
}
