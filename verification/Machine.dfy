/** Fixed-width unsigned arithmetic of the target: C's `ulong` and `u64` are 64 bits wide. */
module Machine {
  const WORD: int := 0x1_0000_0000_0000_0000

  type ulong = x: int | 0 <= x < WORD

  /** The value C stores when a sum or difference of two `ulong`s is assigned to an `ulong`. */
  function Wrap(x: int): (r: ulong)
    requires -WORD <= x < 2 * WORD
  {
    if x < 0 then x + WORD else if x < WORD then x else x - WORD
  }

  /** Which is reduction modulo the word size. */
  lemma WrapIsModulo(x: int)
    requires -WORD <= x < 2 * WORD
    ensures Wrap(x) == x % WORD
  {
    if x < 0 {
      assert x == -1 * WORD + (x + WORD);
    } else if x >= WORD {
      assert x == 1 * WORD + (x - WORD);
    }
  }
}
