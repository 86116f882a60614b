/** Unsigned 32-bit words, as the program's counters and sizes have them. */
module Words {
  type UInt32 = n: nat | n < 0x1_0000_0000

  const WORD: nat := 0x1_0000_0000

  function U32(n: nat): UInt32 {
    n % WORD
  }

  lemma Fits(n: nat)
    requires n < WORD
    ensures U32(n) == n
  {
  }
}
