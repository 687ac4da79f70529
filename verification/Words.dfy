// The width of a block number.
module Words {

  /** Block numbers and tree keys are unsigned long longs of 64 bits. */
  const ULONG_LIMIT: nat := 0x1_0000_0000_0000_0000
}
