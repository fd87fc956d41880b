/** The 32-bit words of the target. */
module Words {
  type word = x: int | 0 <= x < 0x1_0000_0000

  /** Arithmetic modulo 2^32. */
  function Wrap(x: int): word {
    x % 0x1_0000_0000
  }

  /** Wrapping early does not matter. */
  lemma WrapSum(x: int, y: int)
    ensures Wrap(Wrap(x) + y) == Wrap(x + y)
  {
  }
}
