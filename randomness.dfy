/**
 * The random draws of the provers.  Nothing is random in the model: every
 * draw is a parameter, constrained to the interval it is drawn from.
 */
module Randomness {
  import opened DiscreteLog

  /** The default `security_parameter` of ProofSameLog and ProofSquare. */
  const SameLogSecurity: nat := 128

  /** `order * 2.mod_pow(security_parameter, order)`: the interval the
    * Sigma-protocol blinders are drawn from. */
  function SecuritySpace(q: int): (s: int)
    requires q > 0
    ensures s >= 0
  {
    q * (Pow2(SameLogSecurity) % q)
  }

  predicate InSpace(q: int, x: int)
    requires q > 0
  {
    0 <= x < SecuritySpace(q)
  }

  /** ProofSameLog's three blinders: exponent, first and second randomizer. */
  datatype SameLogCoins = SameLogCoins(exponent: int, one: int, two: int)

  predicate ValidSameLogCoins(q: int, c: SameLogCoins)
  {
    q > 0 && InSpace(q, c.exponent) && InSpace(q, c.one) && InSpace(q, c.two)
  }

  /** ProofSquare's randomizer for the root commitment, and its same-log proof. */
  datatype SquareCoins = SquareCoins(sqrRoot: int, sameLog: SameLogCoins)

  predicate ValidSquareCoins(q: int, c: SquareCoins)
  {
    q > 0 && InSpace(q, c.sqrRoot) && ValidSameLogCoins(q, c.sameLog)
  }

  /** ProofRange's draws from [0, 2^security_parameter_2), and the coins of
    * its three sub-proofs. */
  datatype RangeCoins = RangeCoins(
    difference: int,  // random_commitment_difference_bound_number
    root: int,        // root_to_square
    square: int,      // random_commitment_square
    m4: int,
    m2: int,
    r3: int,
    r2: int,
    sameLog: SameLogCoins,
    square1: SquareCoins,
    square2: SquareCoins)

  predicate InBound(bound: int, x: int)
  {
    0 <= x < bound
  }

  predicate ValidRangeCoins(q: int, bound: int, c: RangeCoins)
  {
    q > 0
    && InBound(bound, c.difference) && InBound(bound, c.root) && InBound(bound, c.square)
    && InBound(bound, c.m4) && InBound(bound, c.m2) && InBound(bound, c.r3) && InBound(bound, c.r2)
    && ValidSameLogCoins(q, c.sameLog) && ValidSquareCoins(q, c.square1) && ValidSquareCoins(q, c.square2)
  }
}
