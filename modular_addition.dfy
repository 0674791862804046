/**
 * Modular addition in zero knowledge
 * (zero_knowledge_proofs/ff_based/linear_algebra/modular_addition.py).
 *
 * Given commitments to a1, a2, result and modulus, the prover shows that
 * result - a1 - a2 is a multiple k of the modulus: the quotient k is
 * committed with the modulus commitment as its first base, so that the
 * verifier's result / (a1 a2) is that commitment when the relation holds.
 * Five range proofs keep every number below 2^2050 in absolute value.
 */
module ModularAddition {
  import opened DiscreteLog
  import opened Pedersen
  import opened Randomness
  import opened SquareFF
  import opened RangeFF
  import HashFunction

  /** The default `upper_bound_moduli`. */
  const DefaultBoundBits: nat := 2050

  /** The coins of the five range proofs. */
  datatype AdditionCoins = AdditionCoins(
    added1: RangeCoins, added2: RangeCoins, result: RangeCoins, modulus: RangeCoins, exponent: RangeCoins)

  predicate ValidAdditionCoins(q: int, c: AdditionCoins)
  {
    && ValidRangeCoins(q, Pow2(BlindingBits), c.added1) && ValidRangeCoins(q, Pow2(BlindingBits), c.added2)
    && ValidRangeCoins(q, Pow2(BlindingBits), c.result) && ValidRangeCoins(q, Pow2(BlindingBits), c.modulus)
    && ValidRangeCoins(q, Pow2(BlindingBits), c.exponent)
  }

  /** The four public commitments the statement is about. */
  datatype Statement = Statement(added1: Commitment, added2: Commitment, result: Commitment, modulus: Commitment)

  /** The fields of a ModularAdditionZKP object. */
  datatype AdditionProof = AdditionProof(
    lowerBound: int,
    upperBound: int,
    rangeAdded1: RangeProof,
    rangeAdded2: RangeProof,
    rangeResult: RangeProof,
    rangeModulus: RangeProof,
    commitmentSecretExponent: Commitment,
    rangeSecretExponent: RangeProof)

  /** `com_pk_exponent`: the modulus commitment and g1. */
  function ExponentKey(pk: PublicKey, modulus: Commitment): (k: PublicKey)
    requires SquareKey(pk) && IsElement(pk.order, modulus.commitment)
    ensures SquareKey(k) && k.order == pk.order
  {
    KeyWithBases(pk.order, modulus.commitment, pk.generators[1])
  }

  /** The quotient (result - a1 - a2) / modulus, truncated as `Bn` does. */
  function SecretExponent(a1: int, a2: int, result: int, modulus: int): int
    requires modulus != 0
  {
    TruncDiv(result - a1 - a2, modulus)
  }

  /** The randomizer of the quotient commitment. */
  function SecretRandom(q: int, r1: int, r2: int, rResult: int, rModulus: int, k: int): (s: int)
    requires q > 0
    ensures IsElement(q, s)
  {
    (rResult - r1 - r2 - rModulus * k) % q
  }

  /** ModularAdditionZKP(com_pk, a1, a2, result, modulo, commitments...,
    * randomizers..., upper_bound_moduli) */
  function Prove(H: HashFunction.Digest, pk: PublicKey, a1: int, a2: int, result: int, modulus: int,
                 st: Statement, r1: int, r2: int, rResult: int, rModulus: int,
                 boundBits: nat, coins: AdditionCoins): (p: AdditionProof)
    requires SquareKey(pk) && IsElement(pk.order, st.modulus.commitment) && modulus != 0
    requires ValidAdditionCoins(pk.order, coins)
    ensures p.upperBound == Pow2(boundBits) && p.lowerBound == -Pow2(boundBits)
  {
    var q := pk.order;
    var upper, lower := Pow2(boundBits), -Pow2(boundBits);
    var k := SecretExponent(a1, a2, result, modulus);
    var s := SecretRandom(q, r1, r2, rResult, rModulus, k);
    AdditionProof(lower, upper,
      RangeFF.Prove(H, pk, a1, st.added1, r1, lower, upper, coins.added1),
      RangeFF.Prove(H, pk, a2, st.added2, r2, lower, upper, coins.added2),
      RangeFF.Prove(H, pk, result, st.result, rResult, lower, upper, coins.result),
      RangeFF.Prove(H, pk, modulus, st.modulus, rModulus, lower, upper, coins.modulus),
      QuotientCommitment(pk, st.modulus, k, s),
      ProveQuotient(H, pk, st, k, s, boundBits, coins.exponent))
  }

  /** `commitment_secret_exponent`: modulus^(k mod q) g1^s. */
  function QuotientCommitment(pk: PublicKey, cModulus: Commitment, k: int, s: int): Commitment
    requires SquareKey(pk)
  {
    var q := pk.order;
    Commitment(Op(q, Scale(q, k % q, cModulus.commitment), Scale(q, s, pk.generators[1])))
  }

  /** `range_secret_exponent`: the range proof of the quotient k under the
    * modulus key, with randomizer s. */
  function ProveQuotient(H: HashFunction.Digest, pk: PublicKey, st: Statement, k: int, s: int, boundBits: nat,
                         coins: RangeCoins): RangeProof
    requires SquareKey(pk) && IsElement(pk.order, st.modulus.commitment)
    requires ValidRangeCoins(pk.order, Pow2(BlindingBits), coins)
  {
    RangeFF.Prove(H, ExponentKey(pk, st.modulus), k, QuotientCommitment(pk, st.modulus, k, s), s,
                  -Pow2(boundBits), Pow2(boundBits), coins)
  }

  /** The range proofs fit the verifier's keys. */
  predicate Shaped(p: AdditionProof, pk: PublicKey, st: Statement)
  {
    SquareKey(pk) && IsElement(pk.order, st.modulus.commitment)
    && RangeFF.Shaped(p.rangeAdded1, pk) && RangeFF.Shaped(p.rangeAdded2, pk)
    && RangeFF.Shaped(p.rangeResult, pk) && RangeFF.Shaped(p.rangeModulus, pk)
    && RangeFF.Shaped(p.rangeSecretExponent, ExponentKey(pk, st.modulus))
  }

  /** What check 5 reads the quotient commitment from: result / (a1 a2). */
  function Remainder(q: int, st: Statement): (c: Commitment)
    requires q > 0
  {
    Divide(q, st.result, Mul(q, st.added1, st.added2))
  }

  /** ModularAdditionZKP.verify: four range proofs on the inputs, one on the
    * quotient, read from result / (a1 a2) under the modulus key. */
  function Accepts(H: HashFunction.Digest, p: AdditionProof, pk: PublicKey, st: Statement): (ok: bool)
    requires Shaped(p, pk, st)
    ensures ok ==> && SumResponsesNonNegative(p.rangeAdded1) && SumResponsesNonNegative(p.rangeAdded2)
                   && SumResponsesNonNegative(p.rangeResult) && SumResponsesNonNegative(p.rangeModulus)
                   && SumResponsesNonNegative(p.rangeSecretExponent)
    ensures ok ==> p.rangeSecretExponent.commitmentOne
                   == LowerShift(ExponentKey(pk, st.modulus), Remainder(pk.order, st), p.lowerBound)
  {
    var lower, upper := p.lowerBound, p.upperBound;
    && RangeFF.Accepts(H, p.rangeAdded1, pk, st.added1, lower, upper)
    && RangeFF.Accepts(H, p.rangeAdded2, pk, st.added2, lower, upper)
    && RangeFF.Accepts(H, p.rangeResult, pk, st.result, lower, upper)
    && RangeFF.Accepts(H, p.rangeModulus, pk, st.modulus, lower, upper)
    && RangeFF.Accepts(H, p.rangeSecretExponent, ExponentKey(pk, st.modulus), Remainder(pk.order, st),
                       lower, upper)
  }

  /** The statement built from honest commitments. */
  function Honest(pk: PublicKey, a1: int, a2: int, result: int, modulus: int,
                  r1: int, r2: int, rResult: int, rModulus: int): (st: Statement)
    requires SquareKey(pk)
    ensures IsElement(pk.order, st.modulus.commitment)
  {
    Statement(CommitValue(pk, [a1], r1), CommitValue(pk, [a2], r2),
              CommitValue(pk, [result], rResult), CommitValue(pk, [modulus], rModulus))
  }

  /** When result - a1 - a2 is k times the modulus, result / (a1 a2) is the
    * prover's quotient commitment, which opens to k under the modulus key. */
  lemma {:induction false} RemainderIsQuotientCommitment(pk: PublicKey, a1: int, a2: int, result: int, modulus: int,
                                                         r1: int, r2: int, rResult: int, rModulus: int, k: int)
    requires SquareKey(pk) && modulus != 0
    requires result - a1 - a2 == k * modulus
    ensures
      var st := Honest(pk, a1, a2, result, modulus, r1, r2, rResult, rModulus);
      var s := SecretRandom(pk.order, r1, r2, rResult, rModulus, k);
      && Remainder(pk.order, st) == QuotientCommitment(pk, st.modulus, k, s)
      && QuotientCommitment(pk, st.modulus, k, s) == CommitValue(ExponentKey(pk, st.modulus), [k], s)
  {
    var q, g0, g1 := pk.order, pk.generators[0], pk.generators[1];
    var st := Honest(pk, a1, a2, result, modulus, r1, r2, rResult, rModulus);
    var s := SecretRandom(q, r1, r2, rResult, rModulus, k);
    CommitOneValue(pk, a1, r1);
    CommitOneValue(pk, a2, r2);
    CommitOneValue(pk, result, rResult);
    CommitOneValue(pk, modulus, rModulus);
    CommitOneValue(ExponentKey(pk, st.modulus), k, s);
    // the verifier's side: result / (a1 a2)
    LinOp(q, g0, g1, a1, r1, a2, r2);
    LinDiv(q, g0, g1, result, rResult, a1 + a2, r1 + r2);
    // the prover's side: modulus^(k mod q) g1^s
    var cm := st.modulus.commitment;
    ScaleReduce(q, k, cm);
    LinNested(q, g0, g1, modulus, rModulus, k, s);
    ModAddLeft(q, rResult - r1 - r2 - rModulus * k, k * rModulus);
    LinReduce(q, g0, g1, k * modulus, k * rModulus + s, result - (a1 + a2), rResult - (r1 + r2));
  }

  /** Completeness: for an honest prover with result = a1 + a2 + k modulus,
    * verification succeeds exactly when the sum responses of the five range
    * proofs are non-negative. */
  lemma {:induction false} AdditionComplete(H: HashFunction.Digest, pk: PublicKey, a1: int, a2: int, result: int,
                         modulus: int, r1: int, r2: int, rResult: int, rModulus: int,
                         boundBits: nat, coins: AdditionCoins, k: int)
    requires SquareKey(pk) && modulus != 0 && ValidAdditionCoins(pk.order, coins)
    requires result - a1 - a2 == k * modulus
    ensures
      var st := Honest(pk, a1, a2, result, modulus, r1, r2, rResult, rModulus);
      var p := Prove(H, pk, a1, a2, result, modulus, st, r1, r2, rResult, rModulus, boundBits, coins);
      && Shaped(p, pk, st)
      && (Accepts(H, p, pk, st)
          <==>
          && SumResponsesNonNegative(p.rangeAdded1) && SumResponsesNonNegative(p.rangeAdded2)
          && SumResponsesNonNegative(p.rangeResult) && SumResponsesNonNegative(p.rangeModulus)
          && SumResponsesNonNegative(p.rangeSecretExponent))
  {
    var st := Honest(pk, a1, a2, result, modulus, r1, r2, rResult, rModulus);
    var p := Prove(H, pk, a1, a2, result, modulus, st, r1, r2, rResult, rModulus, boundBits, coins);
    var lower, upper := -Pow2(boundBits), Pow2(boundBits);
    HonestAccepted(H, pk, a1, r1, lower, upper, coins.added1);
    HonestAccepted(H, pk, a2, r2, lower, upper, coins.added2);
    HonestAccepted(H, pk, result, rResult, lower, upper, coins.result);
    HonestAccepted(H, pk, modulus, rModulus, lower, upper, coins.modulus);
    QuotientAccepted(H, pk, a1, a2, result, modulus, r1, r2, rResult, rModulus, boundBits, coins.exponent, k);
    PartsOfProve(H, pk, a1, a2, result, modulus, r1, r2, rResult, rModulus, boundBits, coins);
    AcceptsByRanges(H, p, pk, st);
  }

  /** The parts of the honest proof, field by field. */
  lemma {:induction false} PartsOfProve(H: HashFunction.Digest, pk: PublicKey, a1: int, a2: int, result: int,
                                        modulus: int, r1: int, r2: int, rResult: int, rModulus: int,
                                        boundBits: nat, coins: AdditionCoins)
    requires SquareKey(pk) && modulus != 0 && ValidAdditionCoins(pk.order, coins)
    ensures
      var st := Honest(pk, a1, a2, result, modulus, r1, r2, rResult, rModulus);
      var p := Prove(H, pk, a1, a2, result, modulus, st, r1, r2, rResult, rModulus, boundBits, coins);
      var lower, upper := -Pow2(boundBits), Pow2(boundBits);
      var k := SecretExponent(a1, a2, result, modulus);
      var s := SecretRandom(pk.order, r1, r2, rResult, rModulus, k);
      && st.added1 == CommitValue(pk, [a1], r1) && st.added2 == CommitValue(pk, [a2], r2)
      && st.result == CommitValue(pk, [result], rResult) && st.modulus == CommitValue(pk, [modulus], rModulus)
      && p.lowerBound == lower && p.upperBound == upper
      && p.rangeAdded1 == RangeFF.Prove(H, pk, a1, CommitValue(pk, [a1], r1), r1, lower, upper, coins.added1)
      && p.rangeAdded2 == RangeFF.Prove(H, pk, a2, CommitValue(pk, [a2], r2), r2, lower, upper, coins.added2)
      && p.rangeResult == RangeFF.Prove(H, pk, result, CommitValue(pk, [result], rResult), rResult, lower, upper,
                                        coins.result)
      && p.rangeModulus == RangeFF.Prove(H, pk, modulus, CommitValue(pk, [modulus], rModulus), rModulus, lower,
                                         upper, coins.modulus)
      && p.rangeSecretExponent == ProveQuotient(H, pk, st, k, s, boundBits, coins.exponent)
  {
  }

  /** The quotient's range proof, checked against result / (a1 a2), is
    * accepted exactly when its sum responses are non-negative. */
  lemma {:induction false} QuotientAccepted(H: HashFunction.Digest, pk: PublicKey, a1: int, a2: int, result: int,
                                            modulus: int, r1: int, r2: int, rResult: int, rModulus: int,
                                            boundBits: nat, coins: RangeCoins, k: int)
    requires SquareKey(pk) && modulus != 0 && ValidRangeCoins(pk.order, Pow2(BlindingBits), coins)
    requires result - a1 - a2 == k * modulus
    ensures
      var st := Honest(pk, a1, a2, result, modulus, r1, r2, rResult, rModulus);
      var k' := SecretExponent(a1, a2, result, modulus);
      var s := SecretRandom(pk.order, r1, r2, rResult, rModulus, k');
      var proof := ProveQuotient(H, pk, st, k', s, boundBits, coins);
      RangeFF.Accepts(H, proof, ExponentKey(pk, st.modulus), Remainder(pk.order, st), -Pow2(boundBits), Pow2(boundBits))
      <==> SumResponsesNonNegative(proof)
  {
    var st := Honest(pk, a1, a2, result, modulus, r1, r2, rResult, rModulus);
    TruncDivExact(result - a1 - a2, modulus, k);
    var s := SecretRandom(pk.order, r1, r2, rResult, rModulus, k);
    RemainderIsQuotientCommitment(pk, a1, a2, result, modulus, r1, r2, rResult, rModulus, k);
    HonestAccepted(H, ExponentKey(pk, st.modulus), k, s, -Pow2(boundBits), Pow2(boundBits), coins);
  }

  /** The verdict is the conjunction of the five range verdicts, each of
    * which is known to agree with its sum responses. */
  lemma {:induction false} AcceptsByRanges(H: HashFunction.Digest, p: AdditionProof, pk: PublicKey, st: Statement)
    requires Shaped(p, pk, st)
    requires RangeFF.Accepts(H, p.rangeAdded1, pk, st.added1, p.lowerBound, p.upperBound)
             <==> SumResponsesNonNegative(p.rangeAdded1)
    requires RangeFF.Accepts(H, p.rangeAdded2, pk, st.added2, p.lowerBound, p.upperBound)
             <==> SumResponsesNonNegative(p.rangeAdded2)
    requires RangeFF.Accepts(H, p.rangeResult, pk, st.result, p.lowerBound, p.upperBound)
             <==> SumResponsesNonNegative(p.rangeResult)
    requires RangeFF.Accepts(H, p.rangeModulus, pk, st.modulus, p.lowerBound, p.upperBound)
             <==> SumResponsesNonNegative(p.rangeModulus)
    requires RangeFF.Accepts(H, p.rangeSecretExponent, ExponentKey(pk, st.modulus), Remainder(pk.order, st),
                             p.lowerBound, p.upperBound)
             <==> SumResponsesNonNegative(p.rangeSecretExponent)
    ensures Accepts(H, p, pk, st)
            <==>
            && SumResponsesNonNegative(p.rangeAdded1) && SumResponsesNonNegative(p.rangeAdded2)
            && SumResponsesNonNegative(p.rangeResult) && SumResponsesNonNegative(p.rangeModulus)
            && SumResponsesNonNegative(p.rangeSecretExponent)
  {
  }

  /** The quotient the prover computes is exact, result = a1 + a2 + k modulus,
    * exactly when result and a1 + a2 agree modulo the modulus: the statement
    * the five range proofs stand for is the modular relation. */
  lemma {:induction false} AdditionRelation(a1: int, a2: int, result: int, modulus: int)
    requires modulus > 0
    ensures result % modulus == (a1 + a2) % modulus
            <==> result - a1 - a2 == SecretExponent(a1, a2, result, modulus) * modulus
  {
    var k := SecretExponent(a1, a2, result, modulus);
    if result - a1 - a2 == k * modulus {
      ModCongruent(modulus, result, a1 + a2, k);
    }
    if result % modulus == (a1 + a2) % modulus {
      CongruentDifference(modulus, result, a1 + a2);
      TruncDivExact(result - a1 - a2, modulus, result / modulus - (a1 + a2) / modulus);
    }
  }

  /** Completeness for a true modular sum: when result = a1 + a2 (mod
    * modulus), the honest proof is accepted exactly when the sum responses
    * of its five range proofs are non-negative. */
  lemma {:induction false} RelationComplete(H: HashFunction.Digest, pk: PublicKey, a1: int, a2: int, result: int,
                         modulus: int, r1: int, r2: int, rResult: int, rModulus: int,
                         boundBits: nat, coins: AdditionCoins)
    requires SquareKey(pk) && modulus > 0 && ValidAdditionCoins(pk.order, coins)
    requires result % modulus == (a1 + a2) % modulus
    ensures
      var st := Honest(pk, a1, a2, result, modulus, r1, r2, rResult, rModulus);
      var p := Prove(H, pk, a1, a2, result, modulus, st, r1, r2, rResult, rModulus, boundBits, coins);
      && Shaped(p, pk, st)
      && (Accepts(H, p, pk, st)
          <==>
          && SumResponsesNonNegative(p.rangeAdded1) && SumResponsesNonNegative(p.rangeAdded2)
          && SumResponsesNonNegative(p.rangeResult) && SumResponsesNonNegative(p.rangeModulus)
          && SumResponsesNonNegative(p.rangeSecretExponent))
  {
    AdditionRelation(a1, a2, result, modulus);
    AdditionComplete(H, pk, a1, a2, result, modulus, r1, r2, rResult, rModulus, boundBits, coins,
                     SecretExponent(a1, a2, result, modulus));
  }
}
