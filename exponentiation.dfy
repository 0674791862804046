/**
 * The exponentiation proof of an RSA signature
 * (zero_knowledge_proofs/ff_based/optimization_proof_signature.py).
 *
 * The prover raises the hidden signature to the public exponent modulo the
 * hidden modulus by right-to-left binary exponentiation: an even exponent
 * squares the running base, an odd one multiplies the base into the running
 * product.  Each step commits to its result and proves it with a squaring or
 * a multiplication proof; the verifier replays the walk on the exponent to
 * pick the commitments of each step.
 */
module SignatureExponentiation {
  import opened DiscreteLog
  import opened Wrappers
  import opened Pedersen
  import opened Randomness
  import opened SquareFF
  import opened RangeFF
  import ModularMultiplication
  import HashFunction

  /** The default exponent, 2^16 + 1. */
  const DefaultExponent: nat := 65537
  /** The default `upper_bound_moduli` of the three classes. */
  const ExponentiationBoundBits: nat := 2048
  const SquaringBoundBits: nat := 2049
  const MultiplicationBoundBits: nat := 2048

  // ---------------------------------------------------------------------
  // The step proofs.
  // ---------------------------------------------------------------------

  /** The draws of one step: the randomizer of the step's result commitment
    * (below the order) and the coins of the range proofs of the step. */
  datatype StepCoins = StepCoins(
    randomizer: int, result: RangeCoins, multiplied1: RangeCoins, multiplied2: RangeCoins, exponent: RangeCoins)

  predicate ValidStepCoins(q: int, c: StepCoins)
  {
    q > 0 && IsElement(q, c.randomizer)
    && ValidRangeCoins(q, Pow2(BlindingBits), c.result)
    && ValidRangeCoins(q, Pow2(BlindingBits), c.multiplied1)
    && ValidRangeCoins(q, Pow2(BlindingBits), c.multiplied2)
    && ValidRangeCoins(q, Pow2(BlindingBits), c.exponent)
  }

  /** The randomizer `secret_random` of the quotient commitment. */
  function SecretRandom(q: int, rResult: int, rFactor: int, value: int, rModulus: int, k: int): (s: int)
    requires q > 0
    ensures IsElement(q, s)
  {
    (rResult - rFactor * value - rModulus * k) % q
  }

  /** `com_pk_exponent`: the modulus commitment, and `h_base_verification`,
    * the factor commitment raised to value times g1^s. */
  function ExponentKey(pk: PublicKey, factor: Commitment, value: int, s: int, modulus: Commitment): (key: PublicKey)
    requires SquareKey(pk) && IsElement(pk.order, modulus.commitment)
    ensures SquareKey(key) && key.order == pk.order
  {
    var q := pk.order;
    KeyWithBases(q, modulus.commitment, Op(q, Scale(q, value, factor.commitment), Scale(q, s, pk.generators[1])))
  }

  /** The fields of a ModularSquaringZKP object. */
  datatype SquaringProof = SquaringProof(
    lowerBound: int,
    upperBound: int,
    rangeResult: RangeProof,
    comPkExponent: PublicKey,
    commitmentSecretExponent: Commitment,
    rangeSecretExponent: RangeProof)

  predicate SquaringShaped(p: SquaringProof, pk: PublicKey)
  {
    SquareKey(pk) && SquareKey(p.comPkExponent)
    && RangeFF.Shaped(p.rangeResult, pk) && RangeFF.Shaped(p.rangeSecretExponent, p.comPkExponent)
  }

  /** ModularSquaringZKP(com_pk, value, result, modulo, commitments...,
    * randomizers...): the quotient (result - value^2) / modulus is
    * committed under the exponent key with randomizer 1. */
  function ProveSquaring(H: HashFunction.Digest, pk: PublicKey, value: int, result: int, modulus: int,
                         cValue: Commitment, cResult: Commitment, cModulus: Commitment,
                         rValue: int, rResult: int, rModulus: int, boundBits: nat, coins: StepCoins): (p: SquaringProof)
    requires SquareKey(pk) && IsElement(pk.order, cModulus.commitment) && modulus != 0
    requires ValidStepCoins(pk.order, coins)
    ensures SquaringShaped(p, pk)
    ensures p.lowerBound == -Pow2(boundBits) && p.upperBound == Pow2(boundBits)
    ensures p.comPkExponent.generators[0] == cModulus.commitment
  {
    var upper, lower := Pow2(boundBits), -Pow2(boundBits);
    var k := TruncDiv(result - value * value, modulus);
    var s := SecretRandom(pk.order, rResult, rValue, value, rModulus, k);
    var key := ExponentKey(pk, cValue, value, s, cModulus);
    var committed := CommitValue(key, [k], 1);
    SquaringProof(lower, upper,
      RangeFF.Prove(H, pk, result, cResult, rResult, lower, upper, coins.result),
      key, committed,
      RangeFF.Prove(H, key, k, committed, 1, lower, upper, coins.exponent))
  }

  /** ModularSquaringZKP.verify: the range proof of the result, and the range
    * proof of the quotient read from the result commitment under the stored
    * exponent key.  The value and modulus commitments are not read. */
  function SquaringAccepts(H: HashFunction.Digest, p: SquaringProof, pk: PublicKey,
                           cValue: Commitment, cResult: Commitment, cModulus: Commitment): (ok: bool)
    requires SquaringShaped(p, pk)
    ensures ok ==> SumResponsesNonNegative(p.rangeResult) && SumResponsesNonNegative(p.rangeSecretExponent)
    ensures ok ==> p.rangeSecretExponent.commitmentOne == LowerShift(p.comPkExponent, cResult, p.lowerBound)
  {
    && RangeFF.Accepts(H, p.rangeResult, pk, cResult, p.lowerBound, p.upperBound)
    && RangeFF.Accepts(H, p.rangeSecretExponent, p.comPkExponent, cResult, p.lowerBound, p.upperBound)
  }

  /** The fields of the ModularMultiplicationZKP object of this file (it has
    * no range proof of the modulus and no same-log proof). */
  datatype MultiplicationStepProof = MultiplicationStepProof(
    lowerBound: int,
    upperBound: int,
    rangeMultiplied1: RangeProof,
    rangeMultiplied2: RangeProof,
    rangeResult: RangeProof,
    comPkExponent: PublicKey,
    commitmentSecretExponent: Commitment,
    rangeSecretExponent: RangeProof)

  predicate MultiplicationStepShaped(p: MultiplicationStepProof, pk: PublicKey)
  {
    SquareKey(pk) && SquareKey(p.comPkExponent)
    && RangeFF.Shaped(p.rangeMultiplied1, pk) && RangeFF.Shaped(p.rangeMultiplied2, pk)
    && RangeFF.Shaped(p.rangeResult, pk) && RangeFF.Shaped(p.rangeSecretExponent, p.comPkExponent)
  }

  /** ModularMultiplicationZKP(com_pk, v1, v2, result, modulo, commitments...,
    * randomizers...): the quotient (result - v1 v2) / modulus under the
    * key whose second base is the commitment to v2 raised to v1. */
  function ProveMultiplicationStep(H: HashFunction.Digest, pk: PublicKey, v1: int, v2: int, result: int,
                                   modulus: int, c1: Commitment, c2: Commitment, cResult: Commitment,
                                   cModulus: Commitment, r1: int, r2: int, rResult: int, rModulus: int,
                                   boundBits: nat, coins: StepCoins): (p: MultiplicationStepProof)
    requires SquareKey(pk) && IsElement(pk.order, cModulus.commitment) && modulus != 0
    requires ValidStepCoins(pk.order, coins)
    ensures MultiplicationStepShaped(p, pk)
    ensures p.lowerBound == -Pow2(boundBits) && p.upperBound == Pow2(boundBits)
    ensures p.comPkExponent.generators[0] == cModulus.commitment
  {
    var upper, lower := Pow2(boundBits), -Pow2(boundBits);
    var k := TruncDiv(result - v1 * v2, modulus);
    var s := SecretRandom(pk.order, rResult, r2, v1, rModulus, k);
    var key := ExponentKey(pk, c2, v1, s, cModulus);
    var committed := CommitValue(key, [k], 1);
    MultiplicationStepProof(lower, upper,
      RangeFF.Prove(H, pk, v1, c1, r1, lower, upper, coins.multiplied1),
      RangeFF.Prove(H, pk, v2, c2, r2, lower, upper, coins.multiplied2),
      RangeFF.Prove(H, pk, result, cResult, rResult, lower, upper, coins.result),
      key, committed,
      RangeFF.Prove(H, key, k, committed, 1, lower, upper, coins.exponent))
  }

  /** ModularMultiplicationZKP.verify: range proofs of both factors and of
    * the result, and of the quotient read from the result commitment. */
  function MultiplicationStepAccepts(H: HashFunction.Digest, p: MultiplicationStepProof, pk: PublicKey,
                                     c1: Commitment, c2: Commitment, cResult: Commitment,
                                     cModulus: Commitment): (ok: bool)
    requires MultiplicationStepShaped(p, pk)
    ensures ok ==> && SumResponsesNonNegative(p.rangeMultiplied1) && SumResponsesNonNegative(p.rangeMultiplied2)
                   && SumResponsesNonNegative(p.rangeResult) && SumResponsesNonNegative(p.rangeSecretExponent)
    ensures ok ==> p.rangeSecretExponent.commitmentOne == LowerShift(p.comPkExponent, cResult, p.lowerBound)
  {
    && RangeFF.Accepts(H, p.rangeMultiplied1, pk, c1, p.lowerBound, p.upperBound)
    && RangeFF.Accepts(H, p.rangeMultiplied2, pk, c2, p.lowerBound, p.upperBound)
    && RangeFF.Accepts(H, p.rangeResult, pk, cResult, p.lowerBound, p.upperBound)
    && RangeFF.Accepts(H, p.rangeSecretExponent, p.comPkExponent, cResult, p.lowerBound, p.upperBound)
  }

  /** Completeness of a squaring step: when result - value^2 is a multiple of
    * the modulus, the result commitment is the quotient commitment, and the
    * step is accepted exactly when its range proofs' sum responses are not
    * negative. */
  lemma {:induction false} SquaringComplete(H: HashFunction.Digest, pk: PublicKey, value: int, result: int, modulus: int,
                         rValue: int, rResult: int, rModulus: int, boundBits: nat, coins: StepCoins, k: int)
    requires SquareKey(pk) && modulus != 0 && ValidStepCoins(pk.order, coins)
    requires result - value * value == k * modulus
    ensures
      var cValue, cResult := CommitValue(pk, [value], rValue), CommitValue(pk, [result], rResult);
      var cModulus := CommitValue(pk, [modulus], rModulus);
      var p := ProveSquaring(H, pk, value, result, modulus, cValue, cResult, cModulus,
                             rValue, rResult, rModulus, boundBits, coins);
      && p.commitmentSecretExponent == cResult
      && (SquaringAccepts(H, p, pk, cValue, cResult, cModulus)
          <==>
          SumResponsesNonNegative(p.rangeResult) && SumResponsesNonNegative(p.rangeSecretExponent))
  {
    var cValue, cModulus := CommitValue(pk, [value], rValue), CommitValue(pk, [modulus], rModulus);
    var upper, lower := Pow2(boundBits), -Pow2(boundBits);
    var k' := TruncDiv(result - value * value, modulus);
    var key := ExponentKey(pk, cValue, value, SecretRandom(pk.order, rResult, rValue, value, rModulus, k'), cModulus);
    MultiplicationStepQuotient(pk, value, value, result, modulus, rValue, rResult, rModulus, k);
    HonestAccepted(H, pk, result, rResult, lower, upper, coins.result);
    HonestAccepted(H, key, k', 1, lower, upper, coins.exponent);
  }

  /** In an honest multiplication step the result commitment is the
    * quotient commitment the range proof of the quotient is built on. */
  lemma {:induction false} MultiplicationStepQuotient(pk: PublicKey, v1: int, v2: int, result: int, modulus: int,
                                                      r2: int, rResult: int, rModulus: int, k: int)
    requires SquareKey(pk) && modulus != 0
    requires result - v1 * v2 == k * modulus
    ensures
      var c2, cResult := CommitValue(pk, [v2], r2), CommitValue(pk, [result], rResult);
      var cModulus := CommitValue(pk, [modulus], rModulus);
      var k' := TruncDiv(result - v1 * v2, modulus);
      var key := ExponentKey(pk, c2, v1, SecretRandom(pk.order, rResult, r2, v1, rModulus, k'), cModulus);
      && k' == k
      && CommitValue(key, [k'], 1) == cResult
  {
    var q, g0, g1 := pk.order, pk.generators[0], pk.generators[1];
    var c2, cModulus := CommitValue(pk, [v2], r2), CommitValue(pk, [modulus], rModulus);
    var s := SecretRandom(q, rResult, r2, v1, rModulus, k);
    var key := ExponentKey(pk, c2, v1, s, cModulus);
    TruncDivExact(result - v1 * v2, modulus, k);
    CommitOneValue(pk, v2, r2);
    CommitOneValue(pk, result, rResult);
    CommitOneValue(pk, modulus, rModulus);
    CommitOneValue(key, k, 1);
    ModularMultiplication.QuotientCommitmentOpens(q, g0, g1, v1, v2, r2, result, rResult, modulus, rModulus, k);
  }

  /** Completeness of a multiplication step, in the same terms. */
  lemma {:induction false} MultiplicationStepComplete(H: HashFunction.Digest, pk: PublicKey, v1: int, v2: int,
                                                      result: int, modulus: int, r1: int, r2: int, rResult: int,
                                                      rModulus: int, boundBits: nat, coins: StepCoins, k: int)
    requires SquareKey(pk) && modulus != 0 && ValidStepCoins(pk.order, coins)
    requires result - v1 * v2 == k * modulus
    ensures
      var c1, c2 := CommitValue(pk, [v1], r1), CommitValue(pk, [v2], r2);
      var cResult, cModulus := CommitValue(pk, [result], rResult), CommitValue(pk, [modulus], rModulus);
      var p := ProveMultiplicationStep(H, pk, v1, v2, result, modulus, c1, c2, cResult, cModulus,
                                       r1, r2, rResult, rModulus, boundBits, coins);
      && p.commitmentSecretExponent == cResult
      && (MultiplicationStepAccepts(H, p, pk, c1, c2, cResult, cModulus)
          <==>
          && SumResponsesNonNegative(p.rangeMultiplied1) && SumResponsesNonNegative(p.rangeMultiplied2)
          && SumResponsesNonNegative(p.rangeResult) && SumResponsesNonNegative(p.rangeSecretExponent))
  {
    var upper, lower := Pow2(boundBits), -Pow2(boundBits);
    var c1, c2 := CommitValue(pk, [v1], r1), CommitValue(pk, [v2], r2);
    var cResult, cModulus := CommitValue(pk, [result], rResult), CommitValue(pk, [modulus], rModulus);
    var p := ProveMultiplicationStep(H, pk, v1, v2, result, modulus, c1, c2, cResult, cModulus,
                                     r1, r2, rResult, rModulus, boundBits, coins);
    var k' := TruncDiv(result - v1 * v2, modulus);
    var key := ExponentKey(pk, c2, v1, SecretRandom(pk.order, rResult, r2, v1, rModulus, k'), cModulus);
    MultiplicationStepParts(H, pk, v1, v2, result, modulus, c1, c2, cResult, cModulus, r1, r2, rResult, rModulus,
                            boundBits, coins);
    MultiplicationStepQuotient(pk, v1, v2, result, modulus, r2, rResult, rModulus, k);
    HonestAccepted(H, pk, v1, r1, lower, upper, coins.multiplied1);
    HonestAccepted(H, pk, v2, r2, lower, upper, coins.multiplied2);
    HonestAccepted(H, pk, result, rResult, lower, upper, coins.result);
    HonestAccepted(H, key, k', 1, lower, upper, coins.exponent);
    MultiplicationStepByRanges(H, p, pk, c1, c2, cResult, cModulus, lower, upper,
                               RangeFF.Prove(H, pk, v1, c1, r1, lower, upper, coins.multiplied1),
                               RangeFF.Prove(H, pk, v2, c2, r2, lower, upper, coins.multiplied2),
                               RangeFF.Prove(H, pk, result, cResult, rResult, lower, upper, coins.result),
                               RangeFF.Prove(H, key, k', CommitValue(key, [k'], 1), 1, lower, upper, coins.exponent));
  }

  /** The parts of an honest multiplication step proof, field by field. */
  lemma {:induction false} MultiplicationStepParts(H: HashFunction.Digest, pk: PublicKey, v1: int, v2: int,
                                                   result: int, modulus: int, c1: Commitment, c2: Commitment,
                                                   cResult: Commitment, cModulus: Commitment, r1: int, r2: int,
                                                   rResult: int, rModulus: int, boundBits: nat, coins: StepCoins)
    requires SquareKey(pk) && IsElement(pk.order, cModulus.commitment) && modulus != 0
    requires ValidStepCoins(pk.order, coins)
    ensures
      var p := ProveMultiplicationStep(H, pk, v1, v2, result, modulus, c1, c2, cResult, cModulus,
                                       r1, r2, rResult, rModulus, boundBits, coins);
      var upper, lower := Pow2(boundBits), -Pow2(boundBits);
      var k := TruncDiv(result - v1 * v2, modulus);
      var key := ExponentKey(pk, c2, v1, SecretRandom(pk.order, rResult, r2, v1, rModulus, k), cModulus);
      && p.lowerBound == lower && p.upperBound == upper
      && p.rangeMultiplied1 == RangeFF.Prove(H, pk, v1, c1, r1, lower, upper, coins.multiplied1)
      && p.rangeMultiplied2 == RangeFF.Prove(H, pk, v2, c2, r2, lower, upper, coins.multiplied2)
      && p.rangeResult == RangeFF.Prove(H, pk, result, cResult, rResult, lower, upper, coins.result)
      && p.comPkExponent == key
      && p.commitmentSecretExponent == CommitValue(key, [k], 1)
      && p.rangeSecretExponent == RangeFF.Prove(H, key, k, CommitValue(key, [k], 1), 1, lower, upper, coins.exponent)
  {
  }

  /** A multiplication step's verdict is the conjunction of its four range
    * verdicts, each of which is known to agree with its sum responses. */
  lemma {:induction false} MultiplicationStepByRanges(H: HashFunction.Digest, p: MultiplicationStepProof,
                                                      pk: PublicKey, c1: Commitment, c2: Commitment,
                                                      cResult: Commitment, cModulus: Commitment,
                                                      lower: int, upper: int, p1: RangeProof, p2: RangeProof,
                                                      pResult: RangeProof, pExponent: RangeProof)
    requires MultiplicationStepShaped(p, pk)
    requires p.lowerBound == lower && p.upperBound == upper
    requires p.rangeMultiplied1 == p1 && p.rangeMultiplied2 == p2
    requires p.rangeResult == pResult && p.rangeSecretExponent == pExponent
    requires RangeFF.Accepts(H, p1, pk, c1, lower, upper) <==> SumResponsesNonNegative(p1)
    requires RangeFF.Accepts(H, p2, pk, c2, lower, upper) <==> SumResponsesNonNegative(p2)
    requires RangeFF.Accepts(H, pResult, pk, cResult, lower, upper) <==> SumResponsesNonNegative(pResult)
    requires RangeFF.Accepts(H, pExponent, p.comPkExponent, cResult, lower, upper)
             <==> SumResponsesNonNegative(pExponent)
    ensures MultiplicationStepAccepts(H, p, pk, c1, c2, cResult, cModulus)
            <==>
            && SumResponsesNonNegative(p.rangeMultiplied1) && SumResponsesNonNegative(p.rangeMultiplied2)
            && SumResponsesNonNegative(p.rangeResult) && SumResponsesNonNegative(p.rangeSecretExponent)
  {
  }

  // ---------------------------------------------------------------------
  // The walk on the exponent.
  // ---------------------------------------------------------------------

  /** The steps the walk takes on exponent e, in order: true for a squaring
    * (e even, halved), false for a multiplication (e odd, decremented). */
  function Steps(e: nat): (s: seq<bool>)
    ensures e == 0 <==> s == []
    ensures e > 0 ==> !s[|s| - 1]
    decreases e
  {
    if e == 0 then []
    else if e % 2 == 0 then [true] + Steps(e / 2)
    else [false] + Steps(e - 1)
  }

  /** How many steps of a walk are of kind b. */
  function Count(s: seq<bool>, b: bool): (n: nat)
    ensures n <= |s|
  {
    if |s| == 0 then 0 else Count(s[..|s| - 1], b) + (if s[|s| - 1] == b then 1 else 0)
  }

  lemma {:induction false} CountNext(s: seq<bool>, j: int, b: bool)
    requires 0 <= j < |s|
    ensures Count(s[..j + 1], b) == Count(s[..j], b) + (if s[j] == b then 1 else 0)
  {
    assert s[..j + 1][..j] == s[..j];
  }

  /** Steps(e)[j..] is the walk still to go after j steps, and its head
    * is the kind of step j. */
  lemma {:induction false} StepsSuffix(e: nat, j: nat, t: nat)
    requires j <= |Steps(e)| && Steps(e)[j..] == Steps(t) && t > 0
    ensures j < |Steps(e)|
    ensures Steps(e)[j] == (t % 2 == 0)
    ensures Steps(e)[j + 1..] == Steps(if t % 2 == 0 then t / 2 else t - 1)
  {
    assert Steps(e)[j + 1..] == Steps(e)[j..][1..];
  }

  /** The exponent 65537 = 2^16 + 1 takes a multiplication, sixteen
    * squarings and a last multiplication (the source's comment speaks of
    * one multiplication: the first one multiplies by 1). */
  lemma {:induction false} StepsOfDefaultExponent()
    ensures Steps(DefaultExponent) == [false] + Squarings(16) + [false]
    ensures Count(Steps(DefaultExponent), true) == 16
    ensures Count(Steps(DefaultExponent), false) == 2
  {
    Pow2Sixteen();
    StepsOfPowerOfTwo(16);
    assert Steps(65537) == [false] + Steps(65536);
    assert [false] + (Squarings(16) + [false]) == [false] + Squarings(16) + [false];
    CountsOfDefaultWalk();
  }

  lemma {:induction false} Pow2Sixteen()
    ensures Pow2(16) == 65536
  {
    assert Pow2(4) == 16 by {
      assert Pow2(1) == 2;
      assert Pow2(2) == 4;
      assert Pow2(3) == 8;
    }
    Pow2Add(4, 4);
    Pow2Add(8, 8);
  }

  lemma {:induction false} CountsOfDefaultWalk()
    ensures Count([false] + Squarings(16) + [false], true) == 16
    ensures Count([false] + Squarings(16) + [false], false) == 2
  {
    CountOfSquarings(16);
    CountConcat([false], Squarings(16) + [false], true);
    CountConcat([false], Squarings(16) + [false], false);
    CountConcat(Squarings(16), [false], true);
    CountConcat(Squarings(16), [false], false);
    assert [false] + Squarings(16) + [false] == [false] + (Squarings(16) + [false]);
  }

  lemma {:induction false} Pow2Add(i: nat, j: nat)
    ensures Pow2(i + j) == Pow2(i) * Pow2(j)
  {
    if i > 0 {
      Pow2Add(i - 1, j);
    }
  }

  /** n squarings in a row. */
  function Squarings(n: nat): (s: seq<bool>)
    ensures |s| == n && forall i :: 0 <= i < n ==> s[i]
  {
    seq(n, _ => true)
  }

  /** Exponent 2^i is i squarings and then one multiplication (by 1). */
  lemma {:induction false} StepsOfPowerOfTwo(i: nat)
    ensures Steps(Pow2(i)) == Squarings(i) + [false]
  {
    if i == 0 {
      assert Steps(1) == [false] + Steps(0);
    } else {
      StepsOfPowerOfTwo(i - 1);
      StepsOfDouble(Pow2(i - 1));
      SquaringsCons(i - 1);
      assert [true] + (Squarings(i - 1) + [false]) == ([true] + Squarings(i - 1)) + [false];
    }
  }

  /** Doubling a positive exponent adds one squaring in front. */
  lemma {:induction false} StepsOfDouble(e: nat)
    requires e > 0
    ensures Steps(2 * e) == [true] + Steps(e)
  {
    assert (2 * e) % 2 == 0 && (2 * e) / 2 == e;
  }

  lemma {:induction false} SquaringsCons(n: nat)
    ensures Squarings(n + 1) == [true] + Squarings(n)
  {
    assert forall k :: 0 <= k < n + 1 ==> Squarings(n + 1)[k] == ([true] + Squarings(n))[k];
  }

  lemma {:induction false} CountOfSquarings(n: nat)
    ensures Count(Squarings(n), true) == n && Count(Squarings(n), false) == 0
  {
    if n > 0 {
      assert Squarings(n)[..n - 1] == Squarings(n - 1);
      CountOfSquarings(n - 1);
    }
  }

  /** Counting distributes over concatenation. */
  lemma {:induction false} CountConcat(a: seq<bool>, b: seq<bool>, x: bool)
    ensures Count(a + b, x) == Count(a, x) + Count(b, x)
    decreases |b|
  {
    if |b| == 0 {
      assert a + b == a;
    } else {
      assert (a + b)[..|a + b| - 1] == a + b[..|b| - 1];
      CountConcat(a, b[..|b| - 1], x);
    }
  }

  /** The base after i squarings: the signature, squared modulo n i times. */
  function SquaredValue(signature: int, modulus: int, i: nat): (x: int)
    requires modulus > 0
    ensures i > 0 ==> 0 <= x < modulus
  {
    if i == 0 then signature else
      var y := SquaredValue(signature, modulus, i - 1);
      (y * y) % modulus
  }

  /** The base after i squarings is signature^(2^i) modulo n. */
  lemma {:induction false} SquaredValueIsPower(signature: int, modulus: int, i: nat)
    requires modulus > 0
    ensures SquaredValue(signature, modulus, i) % modulus == Pow(signature, Pow2(i)) % modulus
  {
    if i > 0 {
      SquaredValueIsPower(signature, modulus, i - 1);
      var y := SquaredValue(signature, modulus, i - 1);
      SquareModStep(modulus, signature, y, Pow2(i - 1));
      ModIdempotent(modulus, y * y);
    }
  }

  lemma {:induction false} SquareModStep(n: int, a: int, y: int, k: nat)
    requires n > 0 && y % n == Pow(a, k) % n
    ensures (y * y) % n == Pow(a, 2 * k) % n
  {
    var z := Pow(a, k);
    ProductOfResidues(n, y, y);
    ProductOfResidues(n, z, z);
    PowAdd(a, k, k);
  }

  lemma {:induction false} ProductOfResidues(n: int, a: int, b: int)
    requires n > 0
    ensures ((a % n) * (b % n)) % n == (a * b) % n
  {
    ModMulLeft(n, a, b % n);
    ModMulRight(n, a, b);
  }

  /** Halving an even exponent after squaring the base keeps acc X^t. */
  lemma {:induction false} SquaringKeepsInvariant(n: int, acc: int, x: int, t: nat)
    requires n > 0 && t % 2 == 0
    ensures (acc * Pow((x * x) % n, t / 2)) % n == (acc * Pow(x, t)) % n
  {
    var k := t / 2;
    calc {
      (acc * Pow((x * x) % n, k)) % n;
      { ModMulRight(n, acc, Pow((x * x) % n, k)); }
      (acc * (Pow((x * x) % n, k) % n)) % n;
      { PowMod(n, x * x, k); }
      (acc * (Pow(x * x, k) % n)) % n;
      { ModMulRight(n, acc, Pow(x * x, k)); }
      (acc * Pow(x * x, k)) % n;
      { PowSquare(x, k); }
      (acc * Pow(x, t)) % n;
    }
  }

  /** Multiplying the base into the product and decrementing keeps acc X^t. */
  lemma {:induction false} MultiplyingKeepsInvariant(n: int, acc: int, x: int, t: nat)
    requires n > 0 && t > 0
    ensures (((x * acc) % n) * Pow(x, t - 1)) % n == (acc * Pow(x, t)) % n
  {
    calc {
      (((x * acc) % n) * Pow(x, t - 1)) % n;
      { ModMulLeft(n, x * acc, Pow(x, t - 1)); }
      ((x * acc) * Pow(x, t - 1)) % n;
      { assert (x * acc) * Pow(x, t - 1) == acc * (x * Pow(x, t - 1)); }
      (acc * Pow(x, t)) % n;
    }
  }

  /** One entry of `proofs_exponantiations`: a squaring or a multiplication. */
  datatype StepProof = Squaring(squaring: SquaringProof) | Multiplying(multiplying: MultiplicationStepProof)

  predicate StepShaped(p: StepProof, pk: PublicKey)
  {
    match p
    case Squaring(sp) => SquaringShaped(sp, pk)
    case Multiplying(mp) => MultiplicationStepShaped(mp, pk)
  }

  /** The draws of the whole proof: the randomizers of the signature and of
    * the first product 1 (below the order), the range coins of the modulus,
    * and one StepCoins per step. */
  datatype ExponentiationCoins = ExponentiationCoins(
    signature: int, one: int, modulus: RangeCoins, steps: seq<StepCoins>)

  predicate ValidExponentiationCoins(q: int, c: ExponentiationCoins)
  {
    q > 0 && IsElement(q, c.signature) && IsElement(q, c.one)
    && ValidRangeCoins(q, Pow2(BlindingBits), c.modulus)
    && forall i :: 0 <= i < |c.steps| ==> ValidStepCoins(q, c.steps[i])
  }

  /** The fields of a ModularExponantiation object. */
  datatype ExponentiationProof = ExponentiationProof(
    exponent: nat,
    message: int,
    lowerBound: int,
    upperBound: int,
    commitmentsSquares: seq<Commitment>,
    commitmentsMultiplication: seq<Commitment>,
    proofsExponantiations: seq<StepProof>,
    rangeModulus: RangeProof,
    randomiserResult: int)

  predicate Shaped(p: ExponentiationProof, pk: PublicKey)
  {
    SquareKey(pk) && RangeFF.Shaped(p.rangeModulus, pk)
    && forall i :: 0 <= i < |p.proofsExponantiations| ==> StepShaped(p.proofsExponantiations[i], pk)
  }

  /** How step i of the verifier's replay fails, if it does: the commitments
    * at the current counters are read first, then the proof, which is then
    * called with the number of commitments of the step's kind. */
  function StepError(p: ExponentiationProof, i: int): Option<VerifyError>
    requires 0 <= i < |Steps(p.exponent)|
  {
    var s := Steps(p.exponent);
    var squares, products := Count(s[..i], true), Count(s[..i], false);
    if s[i] then
      if squares + 1 >= |p.commitmentsSquares| || i >= |p.proofsExponantiations| then Some(IndexError)
      else if !p.proofsExponantiations[i].Squaring? then Some(TypeError)
      else None
    else
      if squares >= |p.commitmentsSquares| || products + 1 >= |p.commitmentsMultiplication|
         || i >= |p.proofsExponantiations| then Some(IndexError)
      else if !p.proofsExponantiations[i].Multiplying? then Some(TypeError)
      else None
  }

  /** Step i of the verifier's replay finds what it reads. */
  predicate StepFits(p: ExponentiationProof, i: int)
    requires 0 <= i < |Steps(p.exponent)|
  {
    StepError(p, i).None?
  }

  /** The error of a replay that reaches step i: the first failing step from
    * i on, or the final read of `commitments_multiplication[-1]`. */
  function ErrorFrom(p: ExponentiationProof, i: nat): VerifyError
    requires i <= |Steps(p.exponent)|
    decreases |Steps(p.exponent)| - i
  {
    if i == |Steps(p.exponent)| then IndexError
    else if StepError(p, i).Some? then StepError(p, i).value
    else ErrorFrom(p, i + 1)
  }

  /** The verifier reads every list within bounds and calls every proof with
    * the number of commitments it takes. */
  predicate WellFormed(p: ExponentiationProof)
  {
    |p.commitmentsMultiplication| > 0 && StepsFit(p)
  }

  predicate StepsFit(p: ExponentiationProof)
  {
    forall i :: 0 <= i < |Steps(p.exponent)| ==> StepFits(p, i)
  }

  /** One `verify` call of the replay: a step proof with the commitments
    * the replay passes to it. */
  datatype StepCall =
    | SquaringCall(squaring: SquaringProof, cValue: Commitment, cResult: Commitment)
    | MultiplyingCall(multiplying: MultiplicationStepProof, c1: Commitment, c2: Commitment, cResult: Commitment)

  predicate CallShaped(call: StepCall, pk: PublicKey)
  {
    match call
    case SquaringCall(sp, _, _) => SquaringShaped(sp, pk)
    case MultiplyingCall(mp, _, _, _) => MultiplicationStepShaped(mp, pk)
  }

  /** The call the replay makes at step i: the proof of step i on the
    * commitments at the counters of the steps before it. */
  function StepCallAt(p: ExponentiationProof, i: int): (call: StepCall)
    requires 0 <= i < |Steps(p.exponent)| && StepFits(p, i)
    ensures call.SquaringCall? <==> Steps(p.exponent)[i]
  {
    var s := Steps(p.exponent);
    var squares, products := Count(s[..i], true), Count(s[..i], false);
    match p.proofsExponantiations[i]
    case Squaring(sp) =>
      SquaringCall(sp, p.commitmentsSquares[squares], p.commitmentsSquares[squares + 1])
    case Multiplying(mp) =>
      MultiplyingCall(mp, p.commitmentsSquares[squares], p.commitmentsMultiplication[products],
                      p.commitmentsMultiplication[products + 1])
  }

  /** The verdict of one call. */
  function CallVerdict(H: HashFunction.Digest, call: StepCall, pk: PublicKey, cModulus: Commitment): bool
    requires CallShaped(call, pk)
  {
    match call
    case SquaringCall(sp, cValue, cResult) => SquaringAccepts(H, sp, pk, cValue, cResult, cModulus)
    case MultiplyingCall(mp, c1, c2, cResult) => MultiplicationStepAccepts(H, mp, pk, c1, c2, cResult, cModulus)
  }

  /** The verdict of step i on the commitments the replay picks for it. */
  function StepAccepted(H: HashFunction.Digest, p: ExponentiationProof, pk: PublicKey, cModulus: Commitment,
                        i: int): bool
    requires Shaped(p, pk) && 0 <= i < |Steps(p.exponent)| && StepFits(p, i)
  {
    assert StepShaped(p.proofsExponantiations[i], pk);
    CallVerdict(H, StepCallAt(p, i), pk, cModulus)
  }

  /** The verdicts of all the steps. */
  predicate AllStepsAccepted(H: HashFunction.Digest, p: ExponentiationProof, pk: PublicKey, cModulus: Commitment)
    requires Shaped(p, pk) && WellFormed(p)
  {
    forall i :: 0 <= i < |Steps(p.exponent)| ==> StepAccepted(H, p, pk, cModulus, i)
  }

  /** `check_result`: the last product commitment is the commitment to the
    * message with the stored randomizer. */
  predicate ResultMatches(p: ExponentiationProof, pk: PublicKey, message: int)
    requires SquareKey(pk) && |p.commitmentsMultiplication| > 0
  {
    p.commitmentsMultiplication[|p.commitmentsMultiplication| - 1] == CommitValue(pk, [message], p.randomiserResult)
  }

  /** How the verifier's replay fails in Python. */
  datatype VerifyError =
    | IndexError   // a commitment list or the proof list is too short
    | TypeError    // a proof is called with the other kind's arguments

  /** Commitment i of `commitments_squares` hides the base after i
    * squarings, with randomizer i. */
  predicate SquaresOpen(pk: PublicKey, signature: int, modulus: int, squares: seq<Commitment>,
                        randomizers: seq<int>)
    requires SquareKey(pk) && modulus > 0
  {
    |squares| == |randomizers|
    && forall i :: 0 <= i < |squares| ==>
         squares[i] == CommitValue(pk, [SquaredValue(signature, modulus, i)], randomizers[i])
  }

  /** After j steps of the walk with t left of the exponent, the lists of
    * square and product commitments have ns and np entries. */
  predicate WalkAt(walk: seq<bool>, j: int, t: nat, ns: int, np: int)
  {
    0 <= j <= |walk| && walk[j..] == Steps(t)
    && ns == 1 + Count(walk[..j], true) && np == 1 + Count(walk[..j], false)
  }

  /** One more step: a squaring when t is even, a multiplication otherwise. */
  lemma {:induction false} WalkAdvance(walk: seq<bool>, j: int, t: nat, ns: int, np: int)
    requires WalkAt(walk, j, t, ns, np) && t > 0
    ensures j < |walk| && walk[j] == (t % 2 == 0)
    ensures t % 2 == 0 ==> WalkAt(walk, j + 1, t / 2, ns + 1, np)
    ensures t % 2 == 1 ==> WalkAt(walk, j + 1, t - 1, ns, np + 1)
  {
    assert walk[j..] == [walk[j]] + walk[j + 1..];
    CountNext(walk, j, true);
    CountNext(walk, j, false);
  }

  /** Open square commitments hide the squared values under some randomizer. */
  lemma {:induction false} SquaresOpenHide(pk: PublicKey, signature: int, modulus: int, squares: seq<Commitment>,
                        randomizers: seq<int>)
    requires SquareKey(pk) && modulus > 0 && SquaresOpen(pk, signature, modulus, squares, randomizers)
    ensures forall i :: 0 <= i < |squares| ==> Hides(pk, squares[i], SquaredValue(signature, modulus, i))
  {
    forall i | 0 <= i < |squares|
      ensures Hides(pk, squares[i], SquaredValue(signature, modulus, i))
    {
      assert squares[i] == CommitValue(pk, [SquaredValue(signature, modulus, i)], randomizers[i]);
    }
  }

  /** c is a commitment to v under some randomizer. */
  ghost predicate Hides(pk: PublicKey, c: Commitment, v: int)
    requires SquareKey(pk)
  {
    exists r :: c == CommitValue(pk, [v], r)
  }

  /** The proofs so far have the kinds of the walk's first steps. */
  predicate ProofsFollow(pk: PublicKey, proofs: seq<StepProof>, walk: seq<bool>)
  {
    |proofs| <= |walk|
    && forall i :: 0 <= i < |proofs| ==> StepShaped(proofs[i], pk) && (proofs[i].Squaring? <==> walk[i])
  }

  lemma {:induction false} ProofsFollowNext(pk: PublicKey, proofs: seq<StepProof>, walk: seq<bool>, proof: StepProof)
    requires ProofsFollow(pk, proofs, walk) && |proofs| < |walk|
    requires StepShaped(proof, pk) && (proof.Squaring? <==> walk[|proofs|])
    ensures ProofsFollow(pk, proofs + [proof], walk)
  {
  }

  lemma {:induction false} SquaresOpenNext(pk: PublicKey, signature: int, modulus: int, squares: seq<Commitment>,
                        randomizers: seq<int>, x: int, r: int, x': int, squares': seq<Commitment>,
                        randomizers': seq<int>)
    requires SquareKey(pk) && modulus > 0 && SquaresOpen(pk, signature, modulus, squares, randomizers)
    requires |squares| > 0 && x == SquaredValue(signature, modulus, |squares| - 1) && x' == (x * x) % modulus
    requires squares' == squares + [CommitValue(pk, [x'], r)] && randomizers' == randomizers + [r]
    ensures x' == SquaredValue(signature, modulus, |squares'| - 1)
    ensures SquaresOpen(pk, signature, modulus, squares', randomizers')
  {
  }

  // ---------------------------------------------------------------------
  // The honest steps.
  // ---------------------------------------------------------------------

  /** The randomizer of the square commitment current before step i: the
    * signature's, or that drawn by the last squaring before step i. */
  function SquareRandomizerAt(walk: seq<bool>, coins: ExponentiationCoins, i: nat): int
    requires i <= |walk| <= |coins.steps|
  {
    if i == 0 then coins.signature
    else if walk[i - 1] then coins.steps[i - 1].randomizer
    else SquareRandomizerAt(walk, coins, i - 1)
  }

  /** The randomizer of the product commitment current before step i: that
    * of the first product 1, or that drawn by the last multiplication. */
  function ProductRandomizerAt(walk: seq<bool>, coins: ExponentiationCoins, i: nat): int
    requires i <= |walk| <= |coins.steps|
  {
    if i == 0 then coins.one
    else if !walk[i - 1] then coins.steps[i - 1].randomizer
    else ProductRandomizerAt(walk, coins, i - 1)
  }

  /** `exponantiated_value` before step i: 1, multiplied by the current base
    * modulo n at every multiplication. */
  function ProductValue(signature: int, modulus: int, walk: seq<bool>, i: nat): int
    requires modulus > 0 && i <= |walk|
  {
    if i == 0 then 1
    else if walk[i - 1] then ProductValue(signature, modulus, walk, i - 1)
    else (SquaredValue(signature, modulus, Count(walk[..i - 1], true)) * ProductValue(signature, modulus, walk, i - 1))
         % modulus
  }

  /** The `verify` call that step i of the walk makes possible: the step
    * proof the constructor builds at step i (lines 61-71 or 78-90), with
    * the commitments it was built over, which open to the walk's values
    * under the randomizers the constructor drew. */
  function HonestCall(H: HashFunction.Digest, pk: PublicKey, signature: int, modulus: int, cModulus: Commitment,
                      rModulus: int, walk: seq<bool>, coins: ExponentiationCoins, i: nat): (call: StepCall)
    requires SquareKey(pk) && IsElement(pk.order, cModulus.commitment) && modulus > 0
    requires ValidExponentiationCoins(pk.order, coins) && i < |walk| <= |coins.steps|
    ensures call.SquaringCall? <==> walk[i]
    ensures CallShaped(call, pk)
  {
    var x := SquaredValue(signature, modulus, Count(walk[..i], true));
    var rx := SquareRandomizerAt(walk, coins, i);
    var cx := CommitValue(pk, [x], rx);
    var sc := coins.steps[i];
    assert ValidStepCoins(pk.order, sc);
    if walk[i] then
      var y := (x * x) % modulus;
      var cy := CommitValue(pk, [y], sc.randomizer);
      SquaringCall(ProveSquaring(H, pk, x, y, modulus, cx, cy, cModulus, rx, sc.randomizer, rModulus,
                                 SquaringBoundBits, sc), cx, cy)
    else
      var acc, racc := ProductValue(signature, modulus, walk, i), ProductRandomizerAt(walk, coins, i);
      var cacc := CommitValue(pk, [acc], racc);
      var y := (x * acc) % modulus;
      var cy := CommitValue(pk, [y], sc.randomizer);
      MultiplyingCall(ProveMultiplicationStep(H, pk, x, acc, y, modulus, cx, cacc, cy, cModulus, rx, racc,
                                              sc.randomizer, rModulus, MultiplicationBoundBits, sc), cx, cacc, cy)
  }

  /** The call's proof sits at step i of `proofs`, and the commitments it
    * was built over sit where the verifier's counters read them. */
  predicate MadeCall(call: StepCall, walk: seq<bool>, i: nat, squares: seq<Commitment>, products: seq<Commitment>,
                     proof: StepProof)
    requires i <= |walk|
  {
    var ns, np := Count(walk[..i], true), Count(walk[..i], false);
    match call
    case SquaringCall(sp, cx, cy) =>
      ns + 1 < |squares| && proof == Squaring(sp) && squares[ns] == cx && squares[ns + 1] == cy
    case MultiplyingCall(mp, cx, cacc, cy) =>
      ns < |squares| && np + 1 < |products| && proof == Multiplying(mp)
      && squares[ns] == cx && products[np] == cacc && products[np + 1] == cy
  }

  /** Appending commitments keeps the calls already made. */
  lemma {:induction false} MadeCallGrows(call: StepCall, walk: seq<bool>, i: nat, squares: seq<Commitment>,
                                         products: seq<Commitment>, proof: StepProof,
                                         squares': seq<Commitment>, products': seq<Commitment>)
    requires i <= |walk| && MadeCall(call, walk, i, squares, products, proof)
    requires |squares| <= |squares'| && squares'[..|squares|] == squares
    requires |products| <= |products'| && products'[..|products|] == products
    ensures MadeCall(call, walk, i, squares', products', proof)
  {
    var ns, np := Count(walk[..i], true), Count(walk[..i], false);
    assert ns < |squares| ==> squares'[ns] == squares[ns];
    assert ns + 1 < |squares| ==> squares'[ns + 1] == squares[ns + 1];
    assert np + 1 < |products| ==> products'[np] == products[np] && products'[np + 1] == products[np + 1];
  }

  /** What the walk keeps beyond WalkInvariant: the current randomizers and
    * product are the ones the coins and the walk determine, and every step
    * so far made its honest call. */
  predicate WalkHonest(H: HashFunction.Digest, pk: PublicKey, signature: int, modulus: int, cModulus: Commitment,
                       rModulus: int, exponent: nat, coins: ExponentiationCoins, w: Walk)
    requires SquareKey(pk) && IsElement(pk.order, cModulus.commitment) && modulus > 0
    requires ValidExponentiationCoins(pk.order, coins) && |coins.steps| >= |Steps(exponent)|
  {
    && WalkDrawn(signature, modulus, Steps(exponent), coins, w)
    && CallsMade(H, pk, signature, modulus, cModulus, rModulus, Steps(exponent), coins, w.squares, w.products,
                 w.proofs)
  }

  /** The current randomizers and product of the walk are the ones the
    * coins and the steps so far determine. */
  predicate WalkDrawn(signature: int, modulus: int, walk: seq<bool>, coins: ExponentiationCoins, w: Walk)
    requires modulus > 0 && |walk| <= |coins.steps|
  {
    var j := |w.proofs|;
    && j <= |walk|
    && 0 < |w.squares| == |w.squareRandomizers| && 0 < |w.products| == |w.productRandomizers|
    && w.squareRandomizers[|w.squares| - 1] == SquareRandomizerAt(walk, coins, j)
    && w.productRandomizers[|w.products| - 1] == ProductRandomizerAt(walk, coins, j)
    && w.acc == ProductValue(signature, modulus, walk, j)
  }

  /** Every step so far made its honest call. */
  predicate CallsMade(H: HashFunction.Digest, pk: PublicKey, signature: int, modulus: int, cModulus: Commitment,
                      rModulus: int, walk: seq<bool>, coins: ExponentiationCoins, squares: seq<Commitment>,
                      products: seq<Commitment>, proofs: seq<StepProof>)
    requires SquareKey(pk) && IsElement(pk.order, cModulus.commitment) && modulus > 0
    requires ValidExponentiationCoins(pk.order, coins) && |proofs| <= |walk| <= |coins.steps|
  {
    forall i :: 0 <= i < |proofs| ==>
      MadeCall(HonestCall(H, pk, signature, modulus, cModulus, rModulus, walk, coins, i), walk, i,
               squares, products, proofs[i])
  }

  /** The calls made so far and the call of the next step. */
  lemma {:induction false} CallsMadeNext(H: HashFunction.Digest, pk: PublicKey, signature: int, modulus: int,
                                         cModulus: Commitment, rModulus: int, walk: seq<bool>,
                                         coins: ExponentiationCoins, squares: seq<Commitment>,
                                         products: seq<Commitment>, proofs: seq<StepProof>, proof: StepProof)
    requires SquareKey(pk) && IsElement(pk.order, cModulus.commitment) && modulus > 0
    requires ValidExponentiationCoins(pk.order, coins) && |proofs| < |walk| <= |coins.steps|
    requires forall i :: 0 <= i < |proofs| ==>
               MadeCall(HonestCall(H, pk, signature, modulus, cModulus, rModulus, walk, coins, i), walk, i,
                        squares, products, (proofs + [proof])[i])
    requires MadeCall(HonestCall(H, pk, signature, modulus, cModulus, rModulus, walk, coins, |proofs|), walk,
                      |proofs|, squares, products, proof)
    ensures CallsMade(H, pk, signature, modulus, cModulus, rModulus, walk, coins, squares, products,
                      proofs + [proof])
  {
    var proofs' := proofs + [proof];
    forall i | 0 <= i < |proofs'|
      ensures MadeCall(HonestCall(H, pk, signature, modulus, cModulus, rModulus, walk, coins, i), walk, i,
                       squares, products, proofs'[i])
    {
      if i == |proofs| {
        assert proofs'[i] == proof;
      }
    }
  }

  lemma {:induction false} WalkStartsHonest(H: HashFunction.Digest, pk: PublicKey, signature: int, modulus: int,
                                            cModulus: Commitment, rModulus: int, exponent: nat,
                                            coins: ExponentiationCoins)
    requires SquareKey(pk) && IsElement(pk.order, cModulus.commitment) && modulus > 0
    requires ValidExponentiationCoins(pk.order, coins) && |coins.steps| >= |Steps(exponent)|
    ensures WalkHonest(H, pk, signature, modulus, cModulus, rModulus, exponent, coins,
                       StartWalk(pk, signature, exponent, coins.signature, coins.one))
  {
  }

  /** Appending commitments and a proof keeps every call made before. */
  lemma {:induction false} CallsKept(H: HashFunction.Digest, pk: PublicKey, signature: int, modulus: int,
                                     cModulus: Commitment, rModulus: int, walk: seq<bool>,
                                     coins: ExponentiationCoins, squares: seq<Commitment>,
                                     products: seq<Commitment>, proofs: seq<StepProof>,
                                     squares': seq<Commitment>, products': seq<Commitment>, proofs': seq<StepProof>)
    requires SquareKey(pk) && IsElement(pk.order, cModulus.commitment) && modulus > 0
    requires ValidExponentiationCoins(pk.order, coins) && |proofs| < |proofs'| <= |walk| <= |coins.steps|
    requires |squares| <= |squares'| && squares'[..|squares|] == squares
    requires |products| <= |products'| && products'[..|products|] == products
    requires proofs'[..|proofs|] == proofs
    requires CallsMade(H, pk, signature, modulus, cModulus, rModulus, walk, coins, squares, products, proofs)
    ensures forall i :: 0 <= i < |proofs| ==>
              MadeCall(HonestCall(H, pk, signature, modulus, cModulus, rModulus, walk, coins, i), walk, i,
                       squares', products', proofs'[i])
  {
    forall i | 0 <= i < |proofs|
      ensures MadeCall(HonestCall(H, pk, signature, modulus, cModulus, rModulus, walk, coins, i), walk, i,
                       squares', products', proofs'[i])
    {
      assert proofs'[i] == proofs[i];
      MadeCallGrows(HonestCall(H, pk, signature, modulus, cModulus, rModulus, walk, coins, i), walk, i,
                    squares, products, proofs[i], squares', products');
    }
  }

  /** A step that appends commitments and makes the honest call of its
    * step keeps every call made before it. */
  lemma {:induction false} CallsAppended(H: HashFunction.Digest, pk: PublicKey, signature: int, modulus: int,
                                         cModulus: Commitment, rModulus: int, walk: seq<bool>,
                                         coins: ExponentiationCoins, squares: seq<Commitment>,
                                         products: seq<Commitment>, proofs: seq<StepProof>,
                                         squares': seq<Commitment>, products': seq<Commitment>, proof: StepProof)
    requires SquareKey(pk) && IsElement(pk.order, cModulus.commitment) && modulus > 0
    requires ValidExponentiationCoins(pk.order, coins) && |proofs| < |walk| <= |coins.steps|
    requires |squares| <= |squares'| && squares'[..|squares|] == squares
    requires |products| <= |products'| && products'[..|products|] == products
    requires CallsMade(H, pk, signature, modulus, cModulus, rModulus, walk, coins, squares, products, proofs)
    requires MadeCall(HonestCall(H, pk, signature, modulus, cModulus, rModulus, walk, coins, |proofs|), walk,
                      |proofs|, squares', products', proof)
    ensures CallsMade(H, pk, signature, modulus, cModulus, rModulus, walk, coins, squares', products',
                      proofs + [proof])
  {
    assert (proofs + [proof])[..|proofs|] == proofs;
    CallsKept(H, pk, signature, modulus, cModulus, rModulus, walk, coins, squares, products, proofs,
              squares', products', proofs + [proof]);
    CallsMadeNext(H, pk, signature, modulus, cModulus, rModulus, walk, coins, squares', products', proofs, proof);
  }

  /** What a turn of the walk reads: the kind of step j, the lengths of the
    * lists, and the current base, product, commitments and randomizers. */
  lemma {:induction false} TurnReads(H: HashFunction.Digest, pk: PublicKey, signature: int, modulus: int,
                                     cModulus: Commitment, rModulus: int, exponent: nat,
                                     coins: ExponentiationCoins, w: Walk)
    requires SquareKey(pk) && IsElement(pk.order, cModulus.commitment) && modulus > 0
    requires ValidExponentiationCoins(pk.order, coins) && |coins.steps| >= |Steps(exponent)|
    requires WalkInvariant(pk, signature, modulus, exponent, w) && w.t > 0
    requires WalkHonest(H, pk, signature, modulus, cModulus, rModulus, exponent, coins, w)
    ensures var walk, j := Steps(exponent), |w.proofs|;
      && j < |walk| && walk[j] == (w.t % 2 == 0)
      && |w.squares| == 1 + Count(walk[..j], true) && |w.products| == 1 + Count(walk[..j], false)
      && |w.squareRandomizers| == |w.squares| && |w.productRandomizers| == |w.products|
      && w.x == SquaredValue(signature, modulus, |w.squares| - 1)
      && w.squareRandomizers[|w.squares| - 1] == SquareRandomizerAt(walk, coins, j)
      && w.squares[|w.squares| - 1] == CommitValue(pk, [w.x], w.squareRandomizers[|w.squares| - 1])
      && w.acc == ProductValue(signature, modulus, walk, j)
      && w.productRandomizers[|w.products| - 1] == ProductRandomizerAt(walk, coins, j)
      && w.products[|w.products| - 1] == CommitValue(pk, [w.acc], w.productRandomizers[|w.products| - 1])
  {
    WalkAdvance(Steps(exponent), |w.proofs|, w.t, |w.squares|, |w.products|);
    var last := |w.squares| - 1;
    assert w.squares[last] == CommitValue(pk, [SquaredValue(signature, modulus, last)], w.squareRandomizers[last]);
  }

  /** A squaring turn keeps the walk's invariant and its honesty. */
  lemma {:induction false} SquaringKeeps(H: HashFunction.Digest, pk: PublicKey, signature: int, modulus: int,
                                         cModulus: Commitment, rModulus: int, exponent: nat,
                                         coins: ExponentiationCoins, w: Walk, proof: StepProof)
    requires SquareKey(pk) && IsElement(pk.order, cModulus.commitment) && modulus > 0
    requires ValidExponentiationCoins(pk.order, coins) && |coins.steps| >= |Steps(exponent)|
    requires WalkInvariant(pk, signature, modulus, exponent, w) && w.t > 0 && w.t % 2 == 0
    requires WalkHonest(H, pk, signature, modulus, cModulus, rModulus, exponent, coins, w)
    requires |w.proofs| < |Steps(exponent)|
    requires var sc, last := coins.steps[|w.proofs|], |w.squares| - 1;
      var value := (w.x * w.x) % modulus;
      proof == Squaring(ProveSquaring(H, pk, w.x, value, modulus, w.squares[last], CommitValue(pk, [value], sc.randomizer),
                                      cModulus, w.squareRandomizers[last], sc.randomizer, rModulus,
                                      SquaringBoundBits, sc))
    requires StepShaped(proof, pk)
    ensures var w' := SquaringNext(pk, modulus, w, coins.steps[|w.proofs|].randomizer, proof);
      && w'.t < w.t && |w'.proofs| == |w.proofs| + 1
      && WalkInvariant(pk, signature, modulus, exponent, w')
      && WalkHonest(H, pk, signature, modulus, cModulus, rModulus, exponent, coins, w')
  {
    var r := coins.steps[|w.proofs|].randomizer;
    SquaringCallMade(H, pk, signature, modulus, cModulus, rModulus, exponent, coins, w, proof);
    SquaringAdvances(pk, signature, modulus, exponent, w, r, proof);
    SquaringHonest(H, pk, signature, modulus, cModulus, rModulus, exponent, coins, w, proof);
  }

  /** A multiplication turn keeps the walk's invariant and its honesty. */
  lemma {:induction false} MultiplyingKeeps(H: HashFunction.Digest, pk: PublicKey, signature: int, modulus: int,
                                            cModulus: Commitment, rModulus: int, exponent: nat,
                                            coins: ExponentiationCoins, w: Walk, proof: StepProof)
    requires SquareKey(pk) && IsElement(pk.order, cModulus.commitment) && modulus > 0
    requires ValidExponentiationCoins(pk.order, coins) && |coins.steps| >= |Steps(exponent)|
    requires WalkInvariant(pk, signature, modulus, exponent, w) && w.t % 2 == 1
    requires WalkHonest(H, pk, signature, modulus, cModulus, rModulus, exponent, coins, w)
    requires |w.proofs| < |Steps(exponent)|
    requires var sc, last, lastProduct := coins.steps[|w.proofs|], |w.squares| - 1, |w.products| - 1;
      var value := (w.x * w.acc) % modulus;
      proof == Multiplying(ProveMultiplicationStep(H, pk, w.x, w.acc, value, modulus, w.squares[last],
                                                   w.products[lastProduct], CommitValue(pk, [value], sc.randomizer),
                                                   cModulus, w.squareRandomizers[last],
                                                   w.productRandomizers[lastProduct], sc.randomizer, rModulus,
                                                   MultiplicationBoundBits, sc))
    requires StepShaped(proof, pk)
    ensures var w' := MultiplyingNext(pk, modulus, w, coins.steps[|w.proofs|].randomizer, proof);
      && w'.t < w.t && |w'.proofs| == |w.proofs| + 1
      && WalkInvariant(pk, signature, modulus, exponent, w')
      && WalkHonest(H, pk, signature, modulus, cModulus, rModulus, exponent, coins, w')
  {
    var r := coins.steps[|w.proofs|].randomizer;
    MultiplyingCallMade(H, pk, signature, modulus, cModulus, rModulus, exponent, coins, w, proof);
    MultiplyingAdvances(pk, signature, modulus, exponent, w, r, proof);
    MultiplyingHonest(H, pk, signature, modulus, cModulus, rModulus, exponent, coins, w, proof);
  }

  /** The proof a squaring turn builds from the walk's current state is
    * the honest call of its step. */
  lemma {:induction false} SquaringCallMade(H: HashFunction.Digest, pk: PublicKey, signature: int, modulus: int,
                                            cModulus: Commitment, rModulus: int, exponent: nat,
                                            coins: ExponentiationCoins, w: Walk, proof: StepProof)
    requires SquareKey(pk) && IsElement(pk.order, cModulus.commitment) && modulus > 0
    requires ValidExponentiationCoins(pk.order, coins) && |coins.steps| >= |Steps(exponent)|
    requires WalkInvariant(pk, signature, modulus, exponent, w) && w.t > 0 && w.t % 2 == 0
    requires WalkHonest(H, pk, signature, modulus, cModulus, rModulus, exponent, coins, w)
    requires |w.proofs| < |Steps(exponent)|
    requires var sc, last := coins.steps[|w.proofs|], |w.squares| - 1;
      var value := (w.x * w.x) % modulus;
      proof == Squaring(ProveSquaring(H, pk, w.x, value, modulus, w.squares[last], CommitValue(pk, [value], sc.randomizer),
                                      cModulus, w.squareRandomizers[last], sc.randomizer, rModulus,
                                      SquaringBoundBits, sc))
    ensures Steps(exponent)[|w.proofs|]
    ensures var r, value := coins.steps[|w.proofs|].randomizer, (w.x * w.x) % modulus;
      MadeCall(HonestCall(H, pk, signature, modulus, cModulus, rModulus, Steps(exponent), coins, |w.proofs|),
               Steps(exponent), |w.proofs|, w.squares + [CommitValue(pk, [value], r)], w.products, proof)
  {
    var last := |w.squares| - 1;
    TurnReads(H, pk, signature, modulus, cModulus, rModulus, exponent, coins, w);
    NewSquaringCall(H, pk, signature, modulus, cModulus, rModulus, Steps(exponent), coins, |w.proofs|, w.squares,
                    w.products, w.x, w.squareRandomizers[last], proof);
  }

  /** The proof a multiplication turn builds from the walk's current state
    * is the honest call of its step. */
  lemma {:induction false} MultiplyingCallMade(H: HashFunction.Digest, pk: PublicKey, signature: int,
                                               modulus: int, cModulus: Commitment, rModulus: int, exponent: nat,
                                               coins: ExponentiationCoins, w: Walk, proof: StepProof)
    requires SquareKey(pk) && IsElement(pk.order, cModulus.commitment) && modulus > 0
    requires ValidExponentiationCoins(pk.order, coins) && |coins.steps| >= |Steps(exponent)|
    requires WalkInvariant(pk, signature, modulus, exponent, w) && w.t % 2 == 1
    requires WalkHonest(H, pk, signature, modulus, cModulus, rModulus, exponent, coins, w)
    requires |w.proofs| < |Steps(exponent)|
    requires var sc, last, lastProduct := coins.steps[|w.proofs|], |w.squares| - 1, |w.products| - 1;
      var value := (w.x * w.acc) % modulus;
      proof == Multiplying(ProveMultiplicationStep(H, pk, w.x, w.acc, value, modulus, w.squares[last],
                                                   w.products[lastProduct], CommitValue(pk, [value], sc.randomizer),
                                                   cModulus, w.squareRandomizers[last],
                                                   w.productRandomizers[lastProduct], sc.randomizer, rModulus,
                                                   MultiplicationBoundBits, sc))
    ensures !Steps(exponent)[|w.proofs|]
    ensures w.x == SquaredValue(signature, modulus, Count(Steps(exponent)[..|w.proofs|], true))
    ensures var r, value := coins.steps[|w.proofs|].randomizer, (w.x * w.acc) % modulus;
      MadeCall(HonestCall(H, pk, signature, modulus, cModulus, rModulus, Steps(exponent), coins, |w.proofs|),
               Steps(exponent), |w.proofs|, w.squares, w.products + [CommitValue(pk, [value], r)], proof)
  {
    var last, lastProduct := |w.squares| - 1, |w.products| - 1;
    TurnReads(H, pk, signature, modulus, cModulus, rModulus, exponent, coins, w);
    NewMultiplyingCall(H, pk, signature, modulus, cModulus, rModulus, Steps(exponent), coins, |w.proofs|,
                       w.squares, w.products, w.x, w.squareRandomizers[last], w.acc,
                       w.productRandomizers[lastProduct], proof);
  }

  /** The call of squaring step j: its proof is built over the current
    * square commitment, which hides the current base x under randomizer
    * rx, and the new one. */
  lemma {:induction false} NewSquaringCall(H: HashFunction.Digest, pk: PublicKey, signature: int, modulus: int,
                                           cModulus: Commitment, rModulus: int, walk: seq<bool>,
                                           coins: ExponentiationCoins, j: nat, squares: seq<Commitment>,
                                           products: seq<Commitment>, x: int, rx: int, proof: StepProof)
    requires SquareKey(pk) && IsElement(pk.order, cModulus.commitment) && modulus > 0
    requires ValidExponentiationCoins(pk.order, coins) && j < |walk| <= |coins.steps| && walk[j]
    requires |squares| == 1 + Count(walk[..j], true)
    requires x == SquaredValue(signature, modulus, |squares| - 1) && rx == SquareRandomizerAt(walk, coins, j)
    requires squares[|squares| - 1] == CommitValue(pk, [x], rx)
    requires var sc := coins.steps[j];
      proof == Squaring(ProveSquaring(H, pk, x, (x * x) % modulus, modulus, squares[|squares| - 1],
                                      CommitValue(pk, [(x * x) % modulus], sc.randomizer), cModulus, rx,
                                      sc.randomizer, rModulus, SquaringBoundBits, sc))
    ensures MadeCall(HonestCall(H, pk, signature, modulus, cModulus, rModulus, walk, coins, j), walk, j,
                     squares + [CommitValue(pk, [(x * x) % modulus], coins.steps[j].randomizer)], products, proof)
  {
  }

  /** The call of multiplication step j: its proof is built over the
    * current square and product commitments, which hide x and acc under
    * rx and racc, and the new product one. */
  lemma {:induction false} NewMultiplyingCall(H: HashFunction.Digest, pk: PublicKey, signature: int, modulus: int,
                                              cModulus: Commitment, rModulus: int, walk: seq<bool>,
                                              coins: ExponentiationCoins, j: nat, squares: seq<Commitment>,
                                              products: seq<Commitment>, x: int, rx: int, acc: int, racc: int,
                                              proof: StepProof)
    requires SquareKey(pk) && IsElement(pk.order, cModulus.commitment) && modulus > 0
    requires ValidExponentiationCoins(pk.order, coins) && j < |walk| <= |coins.steps| && !walk[j]
    requires |squares| == 1 + Count(walk[..j], true) && |products| == 1 + Count(walk[..j], false)
    requires x == SquaredValue(signature, modulus, |squares| - 1) && rx == SquareRandomizerAt(walk, coins, j)
    requires acc == ProductValue(signature, modulus, walk, j) && racc == ProductRandomizerAt(walk, coins, j)
    requires squares[|squares| - 1] == CommitValue(pk, [x], rx)
    requires products[|products| - 1] == CommitValue(pk, [acc], racc)
    requires var sc := coins.steps[j];
      proof == Multiplying(ProveMultiplicationStep(H, pk, x, acc, (x * acc) % modulus, modulus,
                                                   squares[|squares| - 1], products[|products| - 1],
                                                   CommitValue(pk, [(x * acc) % modulus], sc.randomizer),
                                                   cModulus, rx, racc, sc.randomizer, rModulus,
                                                   MultiplicationBoundBits, sc))
    ensures MadeCall(HonestCall(H, pk, signature, modulus, cModulus, rModulus, walk, coins, j), walk, j,
                     squares, products + [CommitValue(pk, [(x * acc) % modulus], coins.steps[j].randomizer)], proof)
  {
  }

  /** After a squaring step the square randomizer is the step's own, and
    * the product and its randomizer are unchanged. */
  lemma {:induction false} AfterSquaring(signature: int, modulus: int, walk: seq<bool>, coins: ExponentiationCoins,
                                         j: nat)
    requires modulus > 0 && j < |walk| <= |coins.steps| && walk[j]
    ensures SquareRandomizerAt(walk, coins, j + 1) == coins.steps[j].randomizer
    ensures ProductRandomizerAt(walk, coins, j + 1) == ProductRandomizerAt(walk, coins, j)
    ensures ProductValue(signature, modulus, walk, j + 1) == ProductValue(signature, modulus, walk, j)
  {
  }

  /** After a multiplication step the product randomizer is the step's own,
    * the product is multiplied by the current base, and the square
    * randomizer is unchanged. */
  lemma {:induction false} AfterMultiplying(signature: int, modulus: int, walk: seq<bool>,
                                            coins: ExponentiationCoins, j: nat)
    requires modulus > 0 && j < |walk| <= |coins.steps| && !walk[j]
    ensures SquareRandomizerAt(walk, coins, j + 1) == SquareRandomizerAt(walk, coins, j)
    ensures ProductRandomizerAt(walk, coins, j + 1) == coins.steps[j].randomizer
    ensures ProductValue(signature, modulus, walk, j + 1)
            == (SquaredValue(signature, modulus, Count(walk[..j], true)) * ProductValue(signature, modulus, walk, j))
               % modulus
  {
    assert walk[..j + 1][..j] == walk[..j];
  }

  /** A squaring step draws the square randomizer of its step and keeps the
    * product and its randomizer. */
  lemma {:induction false} DrawnAfterSquaring(pk: PublicKey, signature: int, modulus: int, walk: seq<bool>,
                                              coins: ExponentiationCoins, w: Walk, r: int, proof: StepProof)
    requires SquareKey(pk) && modulus > 0 && |walk| <= |coins.steps|
    requires WalkDrawn(signature, modulus, walk, coins, w) && |w.proofs| < |walk| && walk[|w.proofs|]
    requires r == coins.steps[|w.proofs|].randomizer
    ensures WalkDrawn(signature, modulus, walk, coins, SquaringNext(pk, modulus, w, r, proof))
  {
    AfterSquaring(signature, modulus, walk, coins, |w.proofs|);
  }

  /** A multiplication step draws the product randomizer of its step,
    * multiplies the product by the current base, and keeps the square
    * randomizer. */
  lemma {:induction false} DrawnAfterMultiplying(pk: PublicKey, signature: int, modulus: int, walk: seq<bool>,
                                                 coins: ExponentiationCoins, w: Walk, r: int, proof: StepProof)
    requires SquareKey(pk) && modulus > 0 && |walk| <= |coins.steps| && w.t > 0
    requires WalkDrawn(signature, modulus, walk, coins, w) && |w.proofs| < |walk| && !walk[|w.proofs|]
    requires w.x == SquaredValue(signature, modulus, Count(walk[..|w.proofs|], true))
    requires r == coins.steps[|w.proofs|].randomizer
    ensures WalkDrawn(signature, modulus, walk, coins, MultiplyingNext(pk, modulus, w, r, proof))
  {
    AfterMultiplying(signature, modulus, walk, coins, |w.proofs|);
  }

  /** A squaring turn that made the honest call of its step keeps the walk
    * honest. */
  lemma {:induction false} SquaringHonest(H: HashFunction.Digest, pk: PublicKey, signature: int, modulus: int,
                                          cModulus: Commitment, rModulus: int, exponent: nat,
                                          coins: ExponentiationCoins, w: Walk, proof: StepProof)
    requires SquareKey(pk) && IsElement(pk.order, cModulus.commitment) && modulus > 0
    requires ValidExponentiationCoins(pk.order, coins) && |coins.steps| >= |Steps(exponent)|
    requires WalkHonest(H, pk, signature, modulus, cModulus, rModulus, exponent, coins, w)
    requires |w.proofs| < |Steps(exponent)| && Steps(exponent)[|w.proofs|]
    requires var r, value := coins.steps[|w.proofs|].randomizer, (w.x * w.x) % modulus;
      MadeCall(HonestCall(H, pk, signature, modulus, cModulus, rModulus, Steps(exponent), coins, |w.proofs|),
               Steps(exponent), |w.proofs|, w.squares + [CommitValue(pk, [value], r)], w.products, proof)
    ensures WalkHonest(H, pk, signature, modulus, cModulus, rModulus, exponent, coins,
                       SquaringNext(pk, modulus, w, coins.steps[|w.proofs|].randomizer, proof))
  {
    var walk, r := Steps(exponent), coins.steps[|w.proofs|].randomizer;
    var w' := SquaringNext(pk, modulus, w, r, proof);
    DrawnAfterSquaring(pk, signature, modulus, walk, coins, w, r, proof);
    assert w'.squares[..|w.squares|] == w.squares;
    assert w.products[..|w.products|] == w.products;
    CallsAppended(H, pk, signature, modulus, cModulus, rModulus, walk, coins, w.squares, w.products, w.proofs,
                  w'.squares, w'.products, proof);
  }

  /** A multiplication turn that made the honest call of its step keeps
    * the walk honest. */
  lemma {:induction false} MultiplyingHonest(H: HashFunction.Digest, pk: PublicKey, signature: int, modulus: int,
                                             cModulus: Commitment, rModulus: int, exponent: nat,
                                             coins: ExponentiationCoins, w: Walk, proof: StepProof)
    requires SquareKey(pk) && IsElement(pk.order, cModulus.commitment) && modulus > 0
    requires ValidExponentiationCoins(pk.order, coins) && |coins.steps| >= |Steps(exponent)| && w.t > 0
    requires WalkHonest(H, pk, signature, modulus, cModulus, rModulus, exponent, coins, w)
    requires |w.proofs| < |Steps(exponent)| && !Steps(exponent)[|w.proofs|]
    requires w.x == SquaredValue(signature, modulus, Count(Steps(exponent)[..|w.proofs|], true))
    requires var r, value := coins.steps[|w.proofs|].randomizer, (w.x * w.acc) % modulus;
      MadeCall(HonestCall(H, pk, signature, modulus, cModulus, rModulus, Steps(exponent), coins, |w.proofs|),
               Steps(exponent), |w.proofs|, w.squares, w.products + [CommitValue(pk, [value], r)], proof)
    ensures WalkHonest(H, pk, signature, modulus, cModulus, rModulus, exponent, coins,
                       MultiplyingNext(pk, modulus, w, coins.steps[|w.proofs|].randomizer, proof))
  {
    var walk, r := Steps(exponent), coins.steps[|w.proofs|].randomizer;
    var w' := MultiplyingNext(pk, modulus, w, r, proof);
    DrawnAfterMultiplying(pk, signature, modulus, walk, coins, w, r, proof);
    assert w.squares[..|w.squares|] == w.squares;
    assert w'.products[..|w.products|] == w.products;
    CallsAppended(H, pk, signature, modulus, cModulus, rModulus, walk, coins, w.squares, w.products, w.proofs,
                  w'.squares, w'.products, proof);
  }

  /** The proof of an honest run of the constructor: the sub-proofs are
    * those it builds, and the verifier's replay makes at every step the
    * call the constructor built for that step. */
  predicate Honest(H: HashFunction.Digest, pk: PublicKey, signature: int, modulus: int, cModulus: Commitment,
                   rModulus: int, coins: ExponentiationCoins, p: ExponentiationProof)
    requires SquareKey(pk) && IsElement(pk.order, cModulus.commitment) && modulus > 0
    requires ValidExponentiationCoins(pk.order, coins)
  {
    var walk := Steps(p.exponent);
    && |coins.steps| >= |walk|
    && Shaped(p, pk) && WellFormed(p)
    && p.rangeModulus == RangeFF.Prove(H, pk, modulus, cModulus, rModulus, p.lowerBound, p.upperBound, coins.modulus)
    && (p.exponent > 0 ==> ResultMatches(p, pk, Pow(signature, p.exponent) % modulus))
    && StepsHonest(H, pk, signature, modulus, cModulus, rModulus, coins, p)
  }

  /** The verifier's replay makes at every step the call the constructor
    * built for that step. */
  predicate StepsHonest(H: HashFunction.Digest, pk: PublicKey, signature: int, modulus: int, cModulus: Commitment,
                        rModulus: int, coins: ExponentiationCoins, p: ExponentiationProof)
    requires SquareKey(pk) && IsElement(pk.order, cModulus.commitment) && modulus > 0
    requires ValidExponentiationCoins(pk.order, coins) && |coins.steps| >= |Steps(p.exponent)|
  {
    forall i :: 0 <= i < |Steps(p.exponent)| ==>
      StepFits(p, i) && StepCallAt(p, i) == HonestCall(H, pk, signature, modulus, cModulus, rModulus, Steps(p.exponent), coins, i)
  }

  /** The replay reads the calls the walk made. */
  lemma {:induction false} ReplayReadsMadeCall(p: ExponentiationProof, i: nat, call: StepCall)
    requires i < |Steps(p.exponent)| && StepFits(p, i)
    requires MadeCall(call, Steps(p.exponent), i, p.commitmentsSquares, p.commitmentsMultiplication,
                      p.proofsExponantiations[i])
    ensures StepCallAt(p, i) == call
  {
  }

  /** Checks 9 and 10 of the range proofs inside a step proof. */
  predicate StepSumsNonNegative(proof: StepProof)
  {
    match proof
    case Squaring(sp) => SumResponsesNonNegative(sp.rangeResult) && SumResponsesNonNegative(sp.rangeSecretExponent)
    case Multiplying(mp) =>
      && SumResponsesNonNegative(mp.rangeMultiplied1) && SumResponsesNonNegative(mp.rangeMultiplied2)
      && SumResponsesNonNegative(mp.rangeResult) && SumResponsesNonNegative(mp.rangeSecretExponent)
  }

  /** Checks 9 and 10 of every range proof inside an exponentiation proof. */
  predicate RangeSumsNonNegative(p: ExponentiationProof)
  {
    SumResponsesNonNegative(p.rangeModulus)
    && forall i :: 0 <= i < |p.proofsExponantiations| ==> StepSumsNonNegative(p.proofsExponantiations[i])
  }

  /** The step proof a call verifies. */
  function CallProof(call: StepCall): StepProof
  {
    match call
    case SquaringCall(sp, _, _) => Squaring(sp)
    case MultiplyingCall(mp, _, _, _) => Multiplying(mp)
  }

  /** The call of step i verifies the proof of step i. */
  lemma {:induction false} CallOfStep(p: ExponentiationProof, i: int)
    requires 0 <= i < |Steps(p.exponent)| && StepFits(p, i)
    ensures CallProof(StepCallAt(p, i)) == p.proofsExponantiations[i]
  {
  }

  /** Reducing a modulo n subtracts a multiple of n: the quotient the step
    * proofs commit to is exact. */
  lemma {:induction false} ReducedQuotient(a: int, n: int)
    requires n > 0
    ensures a % n - a == -(a / n) * n
  {
  }

  /** An honest step is accepted when the sum responses of its range proofs
    * are not negative: its result is x^2 or x acc reduced modulo n, so its
    * quotient is exact. */
  lemma {:induction false} HonestCallAccepted(H: HashFunction.Digest, pk: PublicKey, signature: int, modulus: int,
                                              rModulus: int, walk: seq<bool>, coins: ExponentiationCoins, i: nat)
    requires SquareKey(pk) && modulus > 0
    requires ValidExponentiationCoins(pk.order, coins) && i < |walk| <= |coins.steps|
    ensures var cModulus := CommitValue(pk, [modulus], rModulus);
      var call := HonestCall(H, pk, signature, modulus, cModulus, rModulus, walk, coins, i);
      StepSumsNonNegative(CallProof(call)) ==> CallVerdict(H, call, pk, cModulus)
  {
    var x := SquaredValue(signature, modulus, Count(walk[..i], true));
    var rx := SquareRandomizerAt(walk, coins, i);
    var sc := coins.steps[i];
    assert ValidStepCoins(pk.order, sc);
    if walk[i] {
      ReducedQuotient(x * x, modulus);
      SquaringComplete(H, pk, x, (x * x) % modulus, modulus, rx, sc.randomizer, rModulus, SquaringBoundBits, sc,
                       -((x * x) / modulus));
    } else {
      var acc, racc := ProductValue(signature, modulus, walk, i), ProductRandomizerAt(walk, coins, i);
      ReducedQuotient(x * acc, modulus);
      MultiplicationStepComplete(H, pk, x, acc, (x * acc) % modulus, modulus, rx, racc, sc.randomizer, rModulus,
                                 MultiplicationBoundBits, sc, -((x * acc) / modulus));
    }
  }

  /** Completeness: when signature^exponent is the message modulo n, the
    * modulus commitment is honest, and the range proofs' sum responses come
    * out non-negative, everything `verify` checks holds of the proof the
    * constructor builds, so `verify` returns True. */
  lemma {:induction false} Completeness(H: HashFunction.Digest, pk: PublicKey, signature: int, message: int,
                                        modulus: int, rModulus: int, coins: ExponentiationCoins,
                                        p: ExponentiationProof)
    requires SquareKey(pk) && modulus > 0 && ValidExponentiationCoins(pk.order, coins)
    requires Honest(H, pk, signature, modulus, CommitValue(pk, [modulus], rModulus), rModulus, coins, p)
    requires p.exponent > 0 && Pow(signature, p.exponent) % modulus == message
    requires RangeSumsNonNegative(p)
    ensures Shaped(p, pk) && WellFormed(p) && ResultMatches(p, pk, message)
    ensures AllStepsAccepted(H, p, pk, CommitValue(pk, [modulus], rModulus))
    ensures RangeFF.Accepts(H, p.rangeModulus, pk, CommitValue(pk, [modulus], rModulus), p.lowerBound, p.upperBound)
  {
    RangeFF.HonestAccepted(H, pk, modulus, rModulus, p.lowerBound, p.upperBound, coins.modulus);
    HonestStepsAccepted(H, pk, signature, modulus, rModulus, coins, p);
  }

  /** Every step proof of an honest proof whose range proofs' response sums
    * are non-negative is accepted. */
  lemma {:induction false} HonestStepsAccepted(H: HashFunction.Digest, pk: PublicKey, signature: int,
                                               modulus: int, rModulus: int, coins: ExponentiationCoins,
                                               p: ExponentiationProof)
    requires SquareKey(pk) && modulus > 0 && ValidExponentiationCoins(pk.order, coins)
    requires |coins.steps| >= |Steps(p.exponent)| && Shaped(p, pk) && WellFormed(p)
    requires StepsHonest(H, pk, signature, modulus, CommitValue(pk, [modulus], rModulus), rModulus, coins, p)
    requires RangeSumsNonNegative(p)
    ensures AllStepsAccepted(H, p, pk, CommitValue(pk, [modulus], rModulus))
  {
    var cModulus := CommitValue(pk, [modulus], rModulus);
    var walk := Steps(p.exponent);
    forall i | 0 <= i < |walk|
      ensures StepAccepted(H, p, pk, cModulus, i)
    {
      assert StepFits(p, i);
      HonestCallAccepted(H, pk, signature, modulus, rModulus, walk, coins, i);
      CallOfStep(p, i);
    }
  }

  /** At the end of the walk the replay reads every call the walk made. */
  lemma {:induction false} WalkEndsHonest(H: HashFunction.Digest, pk: PublicKey, signature: int, modulus: int,
                                          cModulus: Commitment, rModulus: int, exponent: nat,
                                          coins: ExponentiationCoins, w: Walk, p: ExponentiationProof)
    requires SquareKey(pk) && IsElement(pk.order, cModulus.commitment) && modulus > 0
    requires ValidExponentiationCoins(pk.order, coins) && |coins.steps| >= |Steps(exponent)|
    requires WalkInvariant(pk, signature, modulus, exponent, w) && w.t == 0
    requires WalkHonest(H, pk, signature, modulus, cModulus, rModulus, exponent, coins, w)
    requires p.exponent == exponent && p.commitmentsSquares == w.squares
    requires p.commitmentsMultiplication == w.products && p.proofsExponantiations == w.proofs
    requires WellFormed(p)
    ensures StepsHonest(H, pk, signature, modulus, cModulus, rModulus, coins, p)
  {
    WalkEnds(pk, signature, modulus, exponent, w);
    forall i | 0 <= i < |Steps(exponent)|
      ensures StepCallAt(p, i) == HonestCall(H, pk, signature, modulus, cModulus, rModulus, Steps(exponent), coins, i)
    {
      assert StepFits(p, i);
      ReplayReadsMadeCall(p, i, HonestCall(H, pk, signature, modulus, cModulus, rModulus, Steps(exponent), coins, i));
    }
  }

  /** ModularExponantiation(com_pk, signature, message, modulus,
    * commitment_modulo, random_committed_modulo, exponent, upper_bound_moduli):
    * the walk.  The base X is squared on even exponents and multiplied into
    * the product on odd ones; every new value is committed and proved. */
  method ProveExponentiation(H: HashFunction.Digest, pk: PublicKey, signature: int, message: int, modulus: int,
                             cModulus: Commitment, rModulus: int, exponent: nat, boundBits: nat,
                             coins: ExponentiationCoins)
    returns (p: ExponentiationProof)
    requires SquareKey(pk) && IsElement(pk.order, cModulus.commitment) && modulus > 0
    requires ValidExponentiationCoins(pk.order, coins) && |coins.steps| >= |Steps(exponent)|
    ensures p.exponent == exponent && p.message == message
    ensures p.lowerBound == -Pow2(boundBits) && p.upperBound == Pow2(boundBits)
    ensures Shaped(p, pk) && WellFormed(p)
    ensures |p.proofsExponantiations| == |Steps(exponent)|
    ensures |p.commitmentsSquares| == 1 + Count(Steps(exponent), true)
    ensures |p.commitmentsMultiplication| == 1 + Count(Steps(exponent), false)
    ensures forall i :: 0 <= i < |p.commitmentsSquares| ==>
              Hides(pk, p.commitmentsSquares[i], SquaredValue(signature, modulus, i))
    ensures exponent > 0 ==>
              ResultMatches(p, pk, Pow(signature, exponent) % modulus)
    ensures Honest(H, pk, signature, modulus, cModulus, rModulus, coins, p)
  {
    var upper, lower := Pow2(boundBits), -Pow2(boundBits);
    var rangeModulus := RangeFF.Prove(H, pk, modulus, cModulus, rModulus, lower, upper, coins.modulus);
    var w := RunWalk(H, pk, signature, modulus, cModulus, rModulus, exponent, coins);
    p := ExponentiationProof(exponent, message, lower, upper, w.squares, w.products, w.proofs, rangeModulus,
                             w.productRandomizers[|w.products| - 1]);
    AssembledShaped(pk, signature, modulus, w, p);
    WalkEndsHonest(H, pk, signature, modulus, cModulus, rModulus, exponent, coins, w, p);
  }

  /** The proof assembled from a finished walk has the walk's shape: its
    * lists fit the replay and its last product commitment opens to the
    * result. */
  lemma {:induction false} AssembledShaped(pk: PublicKey, signature: int, modulus: int, w: Walk,
                                           p: ExponentiationProof)
    requires SquareKey(pk) && modulus > 0
    requires WalkInvariant(pk, signature, modulus, p.exponent, w) && w.t == 0
    requires p.commitmentsSquares == w.squares && p.commitmentsMultiplication == w.products
    requires p.proofsExponantiations == w.proofs
    requires p.randomiserResult == w.productRandomizers[|w.products| - 1]
    requires RangeFF.Shaped(p.rangeModulus, pk)
    ensures Shaped(p, pk) && WellFormed(p)
    ensures |p.proofsExponantiations| == |Steps(p.exponent)|
    ensures |p.commitmentsSquares| == 1 + Count(Steps(p.exponent), true)
    ensures |p.commitmentsMultiplication| == 1 + Count(Steps(p.exponent), false)
    ensures forall i :: 0 <= i < |p.commitmentsSquares| ==>
              Hides(pk, p.commitmentsSquares[i], SquaredValue(signature, modulus, i))
    ensures p.exponent > 0 ==> ResultMatches(p, pk, Pow(signature, p.exponent) % modulus)
  {
    WalkEnds(pk, signature, modulus, p.exponent, w);
    WalkFits(p, Steps(p.exponent));
  }

  /** The walk's loop, from X = signature and product 1 until no exponent
    * is left. */
  method RunWalk(H: HashFunction.Digest, pk: PublicKey, signature: int, modulus: int, cModulus: Commitment,
                 rModulus: int, exponent: nat, coins: ExponentiationCoins)
    returns (w: Walk)
    requires SquareKey(pk) && IsElement(pk.order, cModulus.commitment) && modulus > 0
    requires ValidExponentiationCoins(pk.order, coins) && |coins.steps| >= |Steps(exponent)|
    ensures WalkInvariant(pk, signature, modulus, exponent, w) && w.t == 0
    ensures WalkHonest(H, pk, signature, modulus, cModulus, rModulus, exponent, coins, w)
  {
    w := StartWalk(pk, signature, exponent, coins.signature, coins.one);
    WalkStarts(pk, signature, modulus, exponent, coins.signature, coins.one);
    WalkStartsHonest(H, pk, signature, modulus, cModulus, rModulus, exponent, coins);
    while w.t > 0
      invariant WalkInvariant(pk, signature, modulus, exponent, w)
      invariant WalkHonest(H, pk, signature, modulus, cModulus, rModulus, exponent, coins, w)
      decreases w.t
    {
      w := AdvanceWalk(H, pk, signature, modulus, exponent, cModulus, rModulus, w, coins);
    }
  }

  /** One turn of the walk's loop: a squaring proof when the exponent still
    * to go is even, a multiplication proof when it is odd. */
  method AdvanceWalk(H: HashFunction.Digest, pk: PublicKey, signature: int, modulus: int, exponent: nat,
                     cModulus: Commitment, rModulus: int, w: Walk, coins: ExponentiationCoins)
    returns (w': Walk)
    requires SquareKey(pk) && IsElement(pk.order, cModulus.commitment) && modulus > 0
    requires ValidExponentiationCoins(pk.order, coins) && |coins.steps| >= |Steps(exponent)|
    requires WalkInvariant(pk, signature, modulus, exponent, w) && w.t > 0
    requires WalkHonest(H, pk, signature, modulus, cModulus, rModulus, exponent, coins, w)
    ensures WalkInvariant(pk, signature, modulus, exponent, w')
    ensures WalkHonest(H, pk, signature, modulus, cModulus, rModulus, exponent, coins, w')
    ensures w'.t < w.t && |w'.proofs| == |w.proofs| + 1
  {
    WalkAdvance(Steps(exponent), |w.proofs|, w.t, |w.squares|, |w.products|);
    if w.t % 2 == 0 {
      w' := SquaringTurn(H, pk, signature, modulus, exponent, cModulus, rModulus, w, coins);
    } else {
      w' := MultiplyingTurn(H, pk, signature, modulus, exponent, cModulus, rModulus, w, coins);
    }
  }

  /** Even exponent to go: X is squared and its commitment proved. */
  method SquaringTurn(H: HashFunction.Digest, pk: PublicKey, signature: int, modulus: int, exponent: nat,
                      cModulus: Commitment, rModulus: int, w: Walk, coins: ExponentiationCoins)
    returns (w': Walk)
    requires SquareKey(pk) && IsElement(pk.order, cModulus.commitment) && modulus > 0
    requires ValidExponentiationCoins(pk.order, coins) && |coins.steps| >= |Steps(exponent)|
    requires WalkInvariant(pk, signature, modulus, exponent, w) && w.t > 0 && w.t % 2 == 0
    requires WalkHonest(H, pk, signature, modulus, cModulus, rModulus, exponent, coins, w)
    requires |w.proofs| < |Steps(exponent)|
    ensures WalkInvariant(pk, signature, modulus, exponent, w')
    ensures WalkHonest(H, pk, signature, modulus, cModulus, rModulus, exponent, coins, w')
    ensures w'.t < w.t && |w'.proofs| == |w.proofs| + 1
  {
    var proof := SquaringStep(H, pk, w.x, (w.x * w.x) % modulus, modulus, w.squares[|w.squares| - 1],
                              CommitValue(pk, [(w.x * w.x) % modulus], coins.steps[|w.proofs|].randomizer),
                              cModulus, w.squareRandomizers[|w.squares| - 1], coins.steps[|w.proofs|].randomizer,
                              rModulus, coins.steps[|w.proofs|]);
    SquaringKeeps(H, pk, signature, modulus, cModulus, rModulus, exponent, coins, w, proof);
    w' := SquaringNext(pk, modulus, w, coins.steps[|w.proofs|].randomizer, proof);
  }

  /** Odd exponent to go: the product is multiplied by X and its commitment
    * proved. */
  method MultiplyingTurn(H: HashFunction.Digest, pk: PublicKey, signature: int, modulus: int, exponent: nat,
                         cModulus: Commitment, rModulus: int, w: Walk, coins: ExponentiationCoins)
    returns (w': Walk)
    requires SquareKey(pk) && IsElement(pk.order, cModulus.commitment) && modulus > 0
    requires ValidExponentiationCoins(pk.order, coins) && |coins.steps| >= |Steps(exponent)|
    requires WalkInvariant(pk, signature, modulus, exponent, w) && w.t % 2 == 1
    requires WalkHonest(H, pk, signature, modulus, cModulus, rModulus, exponent, coins, w)
    requires |w.proofs| < |Steps(exponent)|
    ensures WalkInvariant(pk, signature, modulus, exponent, w')
    ensures WalkHonest(H, pk, signature, modulus, cModulus, rModulus, exponent, coins, w')
    ensures w'.t < w.t && |w'.proofs| == |w.proofs| + 1
  {
    var proof := MultiplyingStep(H, pk, w.x, w.acc, (w.x * w.acc) % modulus, modulus, w.squares[|w.squares| - 1],
                                 w.products[|w.products| - 1],
                                 CommitValue(pk, [(w.x * w.acc) % modulus], coins.steps[|w.proofs|].randomizer),
                                 cModulus, w.squareRandomizers[|w.squares| - 1],
                                 w.productRandomizers[|w.products| - 1], coins.steps[|w.proofs|].randomizer,
                                 rModulus, coins.steps[|w.proofs|]);
    MultiplyingKeeps(H, pk, signature, modulus, cModulus, rModulus, exponent, coins, w, proof);
    w' := MultiplyingNext(pk, modulus, w, coins.steps[|w.proofs|].randomizer, proof);
  }

  /** The state of the walk: the exponent still to go, the current base X
    * and product, the commitments with their randomizers, and the proofs. */
  datatype Walk = Walk(t: nat, x: int, acc: int,
                       squares: seq<Commitment>, squareRandomizers: seq<int>,
                       products: seq<Commitment>, productRandomizers: seq<int>,
                       proofs: seq<StepProof>)

  /** What the walk keeps: the commitments open to the values it computed,
    * the proofs follow the walk, and acc X^t is signature^exponent mod n. */
  predicate WalkInvariant(pk: PublicKey, signature: int, modulus: int, exponent: nat, w: Walk)
    requires SquareKey(pk) && modulus > 0
  {
    var walk := Steps(exponent);
    && WalkAt(walk, |w.proofs|, w.t, |w.squares|, |w.products|)
    && |w.products| == |w.productRandomizers|
    && ProofsFollow(pk, w.proofs, walk)
    && w.x == SquaredValue(signature, modulus, |w.squares| - 1)
    && SquaresOpen(pk, signature, modulus, w.squares, w.squareRandomizers)
    && w.products[|w.products| - 1] == CommitValue(pk, [w.acc], w.productRandomizers[|w.products| - 1])
    && (|w.products| > 1 ==> 0 <= w.acc < modulus)
    && (w.acc * Pow(w.x, w.t)) % modulus == Pow(signature, exponent) % modulus
  }

  function StartWalk(pk: PublicKey, signature: int, exponent: nat, rSignature: int, rOne: int): (w: Walk)
    requires SquareKey(pk)
  {
    Walk(exponent, signature, 1, [CommitValue(pk, [signature], rSignature)], [rSignature],
         [CommitValue(pk, [1], rOne)], [rOne], [])
  }

  /** A squaring step: X becomes X^2 mod n and its commitment is appended. */
  function SquaringNext(pk: PublicKey, modulus: int, w: Walk, r: int, proof: StepProof): (w': Walk)
    requires SquareKey(pk) && modulus > 0
  {
    var value := (w.x * w.x) % modulus;
    w.(t := w.t / 2, x := value, squares := w.squares + [CommitValue(pk, [value], r)],
       squareRandomizers := w.squareRandomizers + [r], proofs := w.proofs + [proof])
  }

  /** A multiplication step: the product becomes X acc mod n and its
    * commitment is appended. */
  function MultiplyingNext(pk: PublicKey, modulus: int, w: Walk, r: int, proof: StepProof): (w': Walk)
    requires SquareKey(pk) && modulus > 0 && w.t > 0
  {
    var value := (w.x * w.acc) % modulus;
    w.(t := w.t - 1, acc := value, products := w.products + [CommitValue(pk, [value], r)],
       productRandomizers := w.productRandomizers + [r], proofs := w.proofs + [proof])
  }

  /** The walk starts from X = signature and product 1. */
  lemma {:induction false} WalkStarts(pk: PublicKey, signature: int, modulus: int, exponent: nat, rSignature: int, rOne: int)
    requires SquareKey(pk) && modulus > 0
    ensures WalkInvariant(pk, signature, modulus, exponent, StartWalk(pk, signature, exponent, rSignature, rOne))
  {
    assert Steps(exponent)[0..] == Steps(exponent);
    assert Steps(exponent)[..0] == [];
  }

  lemma {:induction false} SquaringAdvances(pk: PublicKey, signature: int, modulus: int, exponent: nat, w: Walk, r: int,
                         proof: StepProof)
    requires SquareKey(pk) && modulus > 0 && WalkInvariant(pk, signature, modulus, exponent, w)
    requires w.t > 0 && w.t % 2 == 0 && proof.Squaring? && StepShaped(proof, pk)
    ensures WalkInvariant(pk, signature, modulus, exponent, SquaringNext(pk, modulus, w, r, proof))
  {
    var w' := SquaringNext(pk, modulus, w, r, proof);
    StepKeepsWalk(pk, Steps(exponent), w.t, w.squares, w.products, w.proofs, proof,
                  w'.t, w'.squares, w'.products, w'.proofs);
    SquaresOpenNext(pk, signature, modulus, w.squares, w.squareRandomizers, w.x, r, w'.x, w'.squares,
                    w'.squareRandomizers);
    SquaringKeepsInvariant(modulus, w.acc, w.x, w.t);
  }

  lemma {:induction false} MultiplyingAdvances(pk: PublicKey, signature: int, modulus: int, exponent: nat, w: Walk, r: int,
                            proof: StepProof)
    requires SquareKey(pk) && modulus > 0 && WalkInvariant(pk, signature, modulus, exponent, w)
    requires w.t % 2 == 1 && proof.Multiplying? && StepShaped(proof, pk)
    ensures WalkInvariant(pk, signature, modulus, exponent, MultiplyingNext(pk, modulus, w, r, proof))
  {
    var w' := MultiplyingNext(pk, modulus, w, r, proof);
    StepKeepsWalk(pk, Steps(exponent), w.t, w.squares, w.products, w.proofs, proof,
                  w'.t, w'.squares, w'.products, w'.proofs);
    MultiplyingKeepsInvariant(modulus, w.acc, w.x, w.t);
  }

  /** A step of the walk's kind, with one more commitment in the list of
    * its kind, keeps the walk's bookkeeping. */
  lemma {:induction false} StepKeepsWalk(pk: PublicKey, walk: seq<bool>, t: nat, squares: seq<Commitment>,
                      products: seq<Commitment>, proofs: seq<StepProof>, proof: StepProof,
                      t': nat, squares': seq<Commitment>, products': seq<Commitment>, proofs': seq<StepProof>)
    requires WalkAt(walk, |proofs|, t, |squares|, |products|) && t > 0 && ProofsFollow(pk, proofs, walk)
    requires StepShaped(proof, pk) && (proof.Squaring? <==> t % 2 == 0) && proofs' == proofs + [proof]
    requires t % 2 == 0 ==> t' == t / 2 && |squares'| == |squares| + 1 && |products'| == |products|
    requires t % 2 == 1 ==> t' == t - 1 && |squares'| == |squares| && |products'| == |products| + 1
    ensures WalkAt(walk, |proofs'|, t', |squares'|, |products'|)
    ensures ProofsFollow(pk, proofs', walk)
  {
    WalkAdvance(walk, |proofs|, t, |squares|, |products|);
    ProofsFollowNext(pk, proofs, walk, proof);
  }

  /** At the end of the walk every step has its proof and the last product
    * commitment hides signature^exponent mod n. */
  lemma {:induction false} WalkEnds(pk: PublicKey, signature: int, modulus: int, exponent: nat, w: Walk)
    requires SquareKey(pk) && modulus > 0 && WalkInvariant(pk, signature, modulus, exponent, w) && w.t == 0
    ensures |w.proofs| == |Steps(exponent)|
    ensures |w.squares| == 1 + Count(Steps(exponent), true)
    ensures |w.products| == |w.productRandomizers| == 1 + Count(Steps(exponent), false)
    ensures forall i :: 0 <= i < |w.proofs| ==>
              StepShaped(w.proofs[i], pk) && (w.proofs[i].Squaring? <==> Steps(exponent)[i])
    ensures forall i :: 0 <= i < |w.squares| ==> Hides(pk, w.squares[i], SquaredValue(signature, modulus, i))
    ensures exponent > 0 ==>
              w.products[|w.products| - 1]
              == CommitValue(pk, [Pow(signature, exponent) % modulus], w.productRandomizers[|w.products| - 1])
  {
    var walk := Steps(exponent);
    assert walk[..|w.proofs|] == walk;
    SquaresOpenHide(pk, signature, modulus, w.squares, w.squareRandomizers);
    if exponent > 0 {
      MultiplicationCounted(walk);
      ModOfReduced(modulus, w.acc);
    }
  }

  /** The proof of one squaring step of the walk. */
  method SquaringStep(H: HashFunction.Digest, pk: PublicKey, value: int, result: int, modulus: int,
                      cValue: Commitment, cResult: Commitment, cModulus: Commitment,
                      rValue: int, rResult: int, rModulus: int, coins: StepCoins)
    returns (proof: StepProof)
    requires SquareKey(pk) && IsElement(pk.order, cModulus.commitment) && modulus != 0
    requires ValidStepCoins(pk.order, coins)
    ensures proof == Squaring(ProveSquaring(H, pk, value, result, modulus, cValue, cResult, cModulus,
                                            rValue, rResult, rModulus, SquaringBoundBits, coins))
    ensures StepShaped(proof, pk)
  {
    proof := Squaring(ProveSquaring(H, pk, value, result, modulus, cValue, cResult, cModulus,
                                    rValue, rResult, rModulus, SquaringBoundBits, coins));
  }

  /** The proof of one multiplication step of the walk. */
  method MultiplyingStep(H: HashFunction.Digest, pk: PublicKey, v1: int, v2: int, result: int, modulus: int,
                         c1: Commitment, c2: Commitment, cResult: Commitment, cModulus: Commitment,
                         r1: int, r2: int, rResult: int, rModulus: int, coins: StepCoins)
    returns (proof: StepProof)
    requires SquareKey(pk) && IsElement(pk.order, cModulus.commitment) && modulus != 0
    requires ValidStepCoins(pk.order, coins)
    ensures proof == Multiplying(ProveMultiplicationStep(H, pk, v1, v2, result, modulus, c1, c2, cResult,
                                                         cModulus, r1, r2, rResult, rModulus,
                                                         MultiplicationBoundBits, coins))
    ensures StepShaped(proof, pk)
  {
    proof := Multiplying(ProveMultiplicationStep(H, pk, v1, v2, result, modulus, c1, c2, cResult, cModulus,
                                                 r1, r2, rResult, rModulus, MultiplicationBoundBits, coins));
  }

  /** A non-empty walk ends with a multiplication, so it counts one. */
  lemma {:induction false} MultiplicationCounted(s: seq<bool>)
    requires |s| > 0 && !s[|s| - 1]
    ensures Count(s, false) >= 1
  {
  }

  /** With lists as long as the walk consumes and proofs of the walk's kinds,
    * every step fits. */
  lemma {:induction false} WalkFits(p: ExponentiationProof, walk: seq<bool>)
    requires walk == Steps(p.exponent)
    requires |p.proofsExponantiations| == |walk|
    requires |p.commitmentsSquares| == 1 + Count(walk, true)
    requires |p.commitmentsMultiplication| == 1 + Count(walk, false)
    requires forall i :: 0 <= i < |walk| ==> (p.proofsExponantiations[i].Squaring? <==> walk[i])
    ensures WellFormed(p)
  {
    forall i | 0 <= i < |walk|
      ensures StepFits(p, i)
    {
      CountPrefix(walk, i + 1, true);
      CountPrefix(walk, i + 1, false);
      CountNext(walk, i, true);
      CountNext(walk, i, false);
    }
  }

  /** Counting a prefix counts no more than the whole. */
  lemma {:induction false} CountPrefix(s: seq<bool>, j: int, b: bool)
    requires 0 <= j <= |s|
    ensures Count(s[..j], b) <= Count(s, b)
    decreases |s| - j
  {
    if j < |s| {
      CountPrefix(s, j + 1, b);
      CountNext(s, j, b);
    } else {
      assert s[..j] == s;
    }
  }

  /** ModularExponantiation.verify(com_pk, message, commitment_modulo): the
    * replay of the walk on the exponent.  A squaring step reads the square
    * commitments at the counter and the next one, a multiplication step the
    * current square and the product commitments at the counter and the next
    * one; every proof is verified, and the last product commitment must be
    * the commitment to the message with the stored randomizer. */
  method VerifyExponentiation(H: HashFunction.Digest, p: ExponentiationProof, pk: PublicKey, message: int,
                              cModulus: Commitment)
    returns (r: Result<bool, VerifyError>)
    requires Shaped(p, pk)
    ensures r.Err? <==> !WellFormed(p)
    ensures r.Err? ==> r.error == ErrorFrom(p, 0)
    ensures r.Ok? ==> WellFormed(p) && r.value == (ResultMatches(p, pk, message)
                                                  && AllStepsAccepted(H, p, pk, cModulus)
                                                  && RangeFF.Accepts(H, p.rangeModulus, pk, cModulus,
                                                                     p.lowerBound, p.upperBound))
  {
    var checkModulo := RangeFF.Accepts(H, p.rangeModulus, pk, cModulus, p.lowerBound, p.upperBound);
    var replayed := Replay(p, pk);
    if replayed.Err? {
      return Err(replayed.error);
    }
    var calls := replayed.value;
    var verifications := seq(|calls|, k requires 0 <= k < |calls| => CallVerdict(H, calls[k], pk, cModulus));
    if |p.commitmentsMultiplication| == 0 {
      ErrorAfterSteps(p, 0);
      return Err(IndexError);
    }
    var checkResult := p.commitmentsMultiplication[|p.commitmentsMultiplication| - 1]
                       == CommitValue(pk, [message], p.randomiserResult);
    var all := forall k :: 0 <= k < |verifications| ==> verifications[k];
    assert forall k :: 0 <= k < |verifications| ==> verifications[k] == StepAccepted(H, p, pk, cModulus, k);
    r := Ok(checkResult && all && checkModulo);
  }

  /** The replay loop: the `verify` calls of the steps in order, or the
    * error of the first step that does not find what it reads. */
  method Replay(p: ExponentiationProof, pk: PublicKey) returns (r: Result<seq<StepCall>, VerifyError>)
    requires Shaped(p, pk)
    ensures r.Err? <==> !StepsFit(p)
    ensures r.Err? ==> r.error == ErrorFrom(p, 0)
    ensures r.Ok? ==> StepsFit(p) && |r.value| == |Steps(p.exponent)|
    ensures r.Ok? ==> forall k :: 0 <= k < |r.value| ==> r.value[k] == StepCallAt(p, k)
    ensures r.Ok? ==> forall k :: 0 <= k < |r.value| ==> CallShaped(r.value[k], pk)
  {
    var t := p.exponent;
    var squares, products := 0, 0;
    var calls: seq<StepCall> := [];
    ReplayStarts(p, pk);
    while t > 0
      invariant ReplayInvariant(p, pk, t, squares, products, calls)
      decreases t
    {
      var call := ReplayStep(p, pk, |calls|, t, squares, products);
      if call.Err? {
        ReplayFails(p, pk, t, squares, products, calls);
        return Err(call.error);
      }
      ReplayAdvances(p, pk, t, squares, products, calls, call.value);
      calls := calls + [call.value];
      if t % 2 == 0 {
        squares := squares + 1;
        t := t / 2;
      } else {
        products := products + 1;
        t := t - 1;
      }
    }
    ReplayEnds(p, pk, squares, products, calls);
    r := Ok(calls);
  }

  /** After j = |calls| steps of the replay, with t left of the exponent:
    * the counters count the walk so far, and steps 0..j-1 fit and made
    * their calls. */
  predicate ReplayInvariant(p: ExponentiationProof, pk: PublicKey, t: nat, squares: nat, products: nat,
                            calls: seq<StepCall>)
    requires Shaped(p, pk)
  {
    && WalkAt(Steps(p.exponent), |calls|, t, squares + 1, products + 1)
    && (forall k :: 0 <= k < |calls| ==> StepFits(p, k))
    && ErrorFrom(p, 0) == ErrorFrom(p, |calls|)
    && forall k :: 0 <= k < |calls| ==> calls[k] == StepCallAt(p, k) && CallShaped(calls[k], pk)
  }

  lemma {:induction false} ReplayStarts(p: ExponentiationProof, pk: PublicKey)
    requires Shaped(p, pk)
    ensures ReplayInvariant(p, pk, p.exponent, 0, 0, [])
  {
    assert Steps(p.exponent)[0..] == Steps(p.exponent);
    assert Steps(p.exponent)[..0] == [];
  }

  lemma {:induction false} ReplayAdvances(p: ExponentiationProof, pk: PublicKey, t: nat, squares: nat, products: nat,
                       calls: seq<StepCall>, call: StepCall)
    requires Shaped(p, pk) && ReplayInvariant(p, pk, t, squares, products, calls) && t > 0
    requires |calls| < |Steps(p.exponent)| && StepError(p, |calls|).None?
    requires call == StepCallAt(p, |calls|) && CallShaped(call, pk)
    ensures t % 2 == 0 ==> ReplayInvariant(p, pk, t / 2, squares + 1, products, calls + [call])
    ensures t % 2 == 1 ==> ReplayInvariant(p, pk, t - 1, squares, products + 1, calls + [call])
  {
    WalkAdvance(Steps(p.exponent), |calls|, t, squares + 1, products + 1);
    CallsExtend(p, pk, calls, call);
  }

  lemma {:induction false} CallsExtend(p: ExponentiationProof, pk: PublicKey, calls: seq<StepCall>, call: StepCall)
    requires |calls| < |Steps(p.exponent)| && forall k :: 0 <= k <= |calls| ==> StepFits(p, k)
    requires forall k :: 0 <= k < |calls| ==> calls[k] == StepCallAt(p, k) && CallShaped(calls[k], pk)
    requires call == StepCallAt(p, |calls|) && CallShaped(call, pk)
    ensures forall k :: 0 <= k < |calls| + 1 ==>
              (calls + [call])[k] == StepCallAt(p, k) && CallShaped((calls + [call])[k], pk)
  {
  }

  lemma {:induction false} ReplayFails(p: ExponentiationProof, pk: PublicKey, t: nat, squares: nat, products: nat,
                    calls: seq<StepCall>)
    requires Shaped(p, pk) && ReplayInvariant(p, pk, t, squares, products, calls)
    requires |calls| < |Steps(p.exponent)| && StepError(p, |calls|).Some?
    ensures !StepsFit(p) && ErrorFrom(p, 0) == StepError(p, |calls|).value
  {
    assert !StepFits(p, |calls|);
  }

  lemma {:induction false} ReplayEnds(p: ExponentiationProof, pk: PublicKey, squares: nat, products: nat, calls: seq<StepCall>)
    requires Shaped(p, pk) && ReplayInvariant(p, pk, 0, squares, products, calls)
    ensures StepsFit(p) && |calls| == |Steps(p.exponent)|
    ensures forall k :: 0 <= k < |calls| ==> calls[k] == StepCallAt(p, k) && CallShaped(calls[k], pk)
  {
  }

  /** Once every step fits, the only error left is the final read. */
  lemma {:induction false} ErrorAfterSteps(p: ExponentiationProof, i: nat)
    requires i <= |Steps(p.exponent)| && StepsFit(p)
    ensures ErrorFrom(p, i) == IndexError
    decreases |Steps(p.exponent)| - i
  {
    if i < |Steps(p.exponent)| {
      assert StepFits(p, i);
      ErrorAfterSteps(p, i + 1);
    }
  }

  /** One pass of the replay loop, at step j with t left of the exponent and
    * the counters `nr_squares` and `nr_multiplications`: the commitments
    * are read, then the proof, which must be of the step's kind. */
  method ReplayStep(p: ExponentiationProof, pk: PublicKey, j: nat, t: nat, squares: nat, products: nat)
    returns (r: Result<StepCall, VerifyError>)
    requires Shaped(p, pk) && t > 0
    requires WalkAt(Steps(p.exponent), j, t, squares + 1, products + 1)
    ensures j < |Steps(p.exponent)|
    ensures r.Err? <==> StepError(p, j).Some?
    ensures r.Err? ==> r.error == StepError(p, j).value
    ensures r.Ok? ==> r.value == StepCallAt(p, j) && CallShaped(r.value, pk)
  {
    WalkAdvance(Steps(p.exponent), j, t, squares + 1, products + 1);
    if t % 2 == 0 {
      if squares + 1 >= |p.commitmentsSquares| || j >= |p.proofsExponantiations| {
        return Err(IndexError);
      }
      var committedValue, committedResult := p.commitmentsSquares[squares], p.commitmentsSquares[squares + 1];
      match p.proofsExponantiations[j]
      case Multiplying(_) =>
        return Err(TypeError);
      case Squaring(sp) =>
        assert StepShaped(p.proofsExponantiations[j], pk);
        r := Ok(SquaringCall(sp, committedValue, committedResult));
    } else {
      if squares >= |p.commitmentsSquares| || products + 1 >= |p.commitmentsMultiplication|
         || j >= |p.proofsExponantiations| {
        return Err(IndexError);
      }
      var committedValue1 := p.commitmentsSquares[squares];
      var committedValue2, committedResult := p.commitmentsMultiplication[products],
                                              p.commitmentsMultiplication[products + 1];
      match p.proofsExponantiations[j]
      case Squaring(_) =>
        return Err(TypeError);
      case Multiplying(mp) =>
        assert StepShaped(p.proofsExponantiations[j], pk);
        r := Ok(MultiplyingCall(mp, committedValue1, committedValue2, committedResult));
    }
  }

  /** exponantiation(message, exponent, modulo): message^65537 mod n by
    * sixteen squarings and one multiplication; the exponent argument is not
    * read. */
  method Exponantiation(message: int, exponent: int, modulus: int) returns (product: int)
    requires modulus > 0
    ensures product == Pow(message, DefaultExponent) % modulus
  {
    var x := message;
    product := 1 * x;
    for i := 0 to 16
      invariant x == SquaredValue(message, modulus, i)
    {
      x := (x * x) % modulus;
    }
    product := (product * x) % modulus;
    SquaredValueIsPower(message, modulus, 16);
    Pow2Add(4, 4);
    Pow2Add(8, 8);
    assert Pow2(4) == 16 by {
      assert Pow2(1) == 2;
      assert Pow2(2) == 4;
      assert Pow2(3) == 8;
    }
    ModOfReduced(modulus, x);
    ModMulRight(modulus, message, Pow(message, Pow2(16)));
  }
}
