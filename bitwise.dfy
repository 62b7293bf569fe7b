/**
 * Bitwise complement of an unsigned integer of a fixed bit width, defined
 * bit by bit, and its arithmetic meaning.
 */
module Bitwise {

  function Pow2(n: nat): nat {
    if n == 0 then 1 else 2 * Pow2(n - 1)
  }

  lemma Pow2Eight()
    ensures Pow2(8) == 256
  {
  }

  /**
   * Flips each of the n low bits of x: bit 0 of the result is the negation of
   * bit 0 of x, and the remaining bits are the complement of x / 2.
   * On an n-bit value this is the same as Pow2(n) - 1 - x.
   */
  function ComplementBits(x: nat, n: nat): (r: nat)
    requires x < Pow2(n)
    ensures r == Pow2(n) - 1 - x
    decreases n
  {
    if n == 0 then 0 else (1 - x % 2) + 2 * ComplementBits(x / 2, n - 1)
  }

  /** Bitwise NOT of an unsigned 8-bit value. */
  function ComplementByte(x: nat): (r: nat)
    requires x < 256
    ensures r == 255 - x
  {
    Pow2Eight();
    ComplementBits(x, 8)
  }
}
