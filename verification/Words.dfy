/** Go's `uint64` and its wrap-around. */
module Words {
  const WORD := 0x1_0000_0000_0000_0000

  /** `math.MaxInt64`, the bound the contracts keep sequences and generations within. */
  const MAXIMUM_INT64 := 0x7fff_ffff_ffff_ffff

  type Word = n: int | 0 <= n < WORD

  function Add(a: Word, b: Word): Word {
    (a + b) % WORD
  }

  lemma AddOne(a: Word)
    requires a <= MAXIMUM_INT64
    ensures Add(a, 1) == a + 1
  {
  }
}
