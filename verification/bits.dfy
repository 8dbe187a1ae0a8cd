/** Binary digits of a natural number: the quantities that measure how often the
    halving loop of `getNthfibo` runs and how many products it forms. */
module Bits {

  function Pow2(i: nat): nat
    decreases i
  {
    if i == 0 then 1 else 2 * Pow2(i - 1)
  }

  /** The number of binary digits of n (0 for n = 0): how many times n can be
      halved before it reaches 0. */
  function BitLength(n: nat): nat
    decreases n
  {
    if n == 0 then 0 else 1 + BitLength(n / 2)
  }

  /** The number of one digits in the binary representation of n. */
  function PopCount(n: nat): nat
    decreases n
  {
    if n == 0 then 0 else n % 2 + PopCount(n / 2)
  }

  /** For n >= 1, BitLength(n) is ⌊log₂ n⌋ + 1: n lies between the powers of two
      just below and at its bit length. */
  lemma {:induction false} BitLengthIsFloorLog2(n: nat)
    requires n >= 1
    ensures Pow2(BitLength(n) - 1) <= n < Pow2(BitLength(n))
    decreases n
  {
    if n > 1 {
      BitLengthIsFloorLog2(n / 2);
    }
  }

  /** No more one digits than digits, and at least one when n >= 1. */
  lemma {:induction false} PopCountBounds(n: nat)
    ensures PopCount(n) <= BitLength(n)
    ensures n >= 1 ==> PopCount(n) >= 1
    decreases n
  {
    if n > 0 {
      PopCountBounds(n / 2);
    }
  }
}
