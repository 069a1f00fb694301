/** The 32-bit machine the kernel runs on: words, wrap-around and null. */
module Machine {

  const WORDS := 0x1_0000_0000

  /** A `uint32_t`.  Assigning an expression to a Word proves that it does not wrap. */
  type Word = x: int | 0 <= x < 0x1_0000_0000

  datatype Option<+T> = None | Some(value: T)

  /** Unsigned 32-bit arithmetic keeps the low 32 bits. */
  function Wrap(x: int): (r: Word) {
    x % WORDS
  }

  /** A word stands for itself, and what is a multiple of 2 to the 32 apart wraps to the same word. */
  lemma WrapExact(x: int)
    ensures 0 <= x < 0x1_0000_0000 ==> Wrap(x) == x
    ensures Wrap(x + 0x1_0000_0000) == Wrap(x)
  {
  }

  /** Rounds up to a multiple of 4096 the way `(x + PAGE_SIZE - 1) & ~(PAGE_SIZE - 1)` does in 32 bits. */
  function PageAlignUp(x: Word): (r: Word)
    ensures r % 4096 == 0
    ensures if x <= WORDS - 4096 then x <= r < x + 4096 else r == 0
  {
    var y := Wrap(x + 4095);
    y - y % 4096
  }
}
