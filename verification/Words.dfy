/** 64-bit words that stand for counters (details::circular_less_than of concurrentqueue.h). */
module Words {
  const WORD := 0x1_0000_0000_0000_0000
  const HALF := 0x8000_0000_0000_0000

  /** details::circular_less_than on 64-bit words. */
  function CircularLessThan(a: nat, b: nat): bool
    requires a < WORD && b < WORD
  {
    (a - b) % WORD > HALF
  }

  lemma ModOfDifference(a: int, b: int)
    ensures (a % WORD - b % WORD) % WORD == (a - b) % WORD
  {
  }
}
