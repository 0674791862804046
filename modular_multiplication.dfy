/**
 * Modular multiplication in zero knowledge
 * (zero_knowledge_proofs/ff_based/linear_algebra/modular_multiplication.py).
 *
 * Given commitments to v1, v2, result and modulus, the prover shows that
 * result - v1 v2 is a multiple k of the modulus.  The quotient k is
 * committed twice: under the ordinary key, with a range proof, and under the
 * key (modulus commitment, h) with randomizer 1, where h is v1 times the
 * commitment to v2 blinded by g1; a same-log proof links the two, with the
 * result commitment standing for the second.
 */
module ModularMultiplication {
  import opened DiscreteLog
  import opened Pedersen
  import opened Randomness
  import opened SquareFF
  import opened RangeFF
  import HashFunction

  /** The default `upper_bound_moduli`. */
  const DefaultBoundBits: nat := 2048

  /** The coins of the five range proofs, the randomizer of the ordinary
    * quotient commitment (drawn below the order) and the same-log coins. */
  datatype MultiplicationCoins = MultiplicationCoins(
    multiplied1: RangeCoins, multiplied2: RangeCoins, result: RangeCoins, modulus: RangeCoins,
    exponent: RangeCoins, normal: int, sameLog: SameLogCoins)

  predicate ValidMultiplicationCoins(q: int, c: MultiplicationCoins)
  {
    && ValidRangeCoins(q, Pow2(BlindingBits), c.multiplied1) && ValidRangeCoins(q, Pow2(BlindingBits), c.multiplied2)
    && ValidRangeCoins(q, Pow2(BlindingBits), c.result) && ValidRangeCoins(q, Pow2(BlindingBits), c.modulus)
    && ValidRangeCoins(q, Pow2(BlindingBits), c.exponent)
    && IsElement(q, c.normal) && ValidSameLogCoins(q, c.sameLog)
  }

  /** The four public commitments the statement is about. */
  datatype Statement = Statement(
    multiplied1: Commitment, multiplied2: Commitment, result: Commitment, modulus: Commitment)

  /** The fields of a ModularMultiplicationZKP object. */
  datatype MultiplicationProof = MultiplicationProof(
    lowerBound: int,
    upperBound: int,
    rangeMultiplied1: RangeProof,
    rangeMultiplied2: RangeProof,
    rangeResult: RangeProof,
    rangeModulus: RangeProof,
    comPkExponent: PublicKey,
    commitmentSecretExponent: Commitment,
    normalCommitmentSecretExponent: Commitment,
    proofSameLog: ProofSameLog,
    rangeSecretExponent: RangeProof)

  /** The quotient (result - v1 v2) / modulus, truncated as `Bn` does. */
  function SecretExponent(v1: int, v2: int, result: int, modulus: int): int
    requires modulus != 0
  {
    TruncDiv(result - v1 * v2, modulus)
  }

  /** `h_base_verification`: the commitment to v2 raised to v1, times g1^s. */
  function HBase(pk: PublicKey, st: Statement, v1: int, s: int): (h: int)
    requires SquareKey(pk)
    ensures IsElement(pk.order, h)
  {
    Op(pk.order, Scale(pk.order, v1, st.multiplied2.commitment), Scale(pk.order, s, pk.generators[1]))
  }

  /** The randomizer s of `h_base_verification`. */
  function QuotientRandom(q: int, v1: int, r2: int, rResult: int, rModulus: int, k: int): int
    requires q > 0
  {
    (rResult - r2 * v1 - rModulus * k) % q
  }

  /** `com_pk_exponent`: the key with bases (modulus commitment, h). */
  function ExponentKey(pk: PublicKey, st: Statement, v1: int, s: int): (key: PublicKey)
    requires SquareKey(pk) && IsElement(pk.order, st.modulus.commitment)
    ensures SquareKey(key) && key.order == pk.order
    ensures key.generators[0] == st.modulus.commitment && key.generators[1] == HBase(pk, st, v1, s)
  {
    KeyWithBases(pk.order, st.modulus.commitment, HBase(pk, st, v1, s))
  }

  /** ModularMultiplicationZKP(com_pk, v1, v2, result, modulo, commitments...,
    * randomizers..., upper_bound_moduli) */
  function Prove(H: HashFunction.Digest, pk: PublicKey, v1: int, v2: int, result: int, modulus: int,
                 st: Statement, r1: int, r2: int, rResult: int, rModulus: int,
                 boundBits: nat, coins: MultiplicationCoins): (p: MultiplicationProof)
    requires SquareKey(pk) && IsElement(pk.order, st.modulus.commitment) && modulus != 0
    requires ValidMultiplicationCoins(pk.order, coins)
    ensures p.upperBound == Pow2(boundBits) && p.lowerBound == -Pow2(boundBits)
    ensures SquareKey(p.comPkExponent) && p.comPkExponent.order == pk.order
    ensures p.proofSameLog.order == pk.order
  {
    var q, g0, g1 := pk.order, pk.generators[0], pk.generators[1];
    var upper, lower := Pow2(boundBits), -Pow2(boundBits);
    var k := SecretExponent(v1, v2, result, modulus);
    var s := QuotientRandom(q, v1, r2, rResult, rModulus, k);
    var h := HBase(pk, st, v1, s);
    var exponentKey := ExponentKey(pk, st, v1, s);
    var normal := CommitValue(pk, [k], coins.normal);
    MultiplicationProof(lower, upper,
      RangeFF.Prove(H, pk, v1, st.multiplied1, r1, lower, upper, coins.multiplied1),
      RangeFF.Prove(H, pk, v2, st.multiplied2, r2, lower, upper, coins.multiplied2),
      RangeFF.Prove(H, pk, result, st.result, rResult, lower, upper, coins.result),
      RangeFF.Prove(H, pk, modulus, st.modulus, rModulus, lower, upper, coins.modulus),
      exponentKey,
      CommitValue(exponentKey, [k], 1),
      normal,
      ProveSameLog(H, k, coins.normal, 1, g0, g1, st.modulus.commitment, h, q, coins.sameLog),
      RangeFF.Prove(H, pk, k, normal, coins.normal, lower, upper, coins.exponent))
  }

  /** The range proofs fit the verifier's key, and the stored exponent key
    * has two generators. */
  predicate Shaped(p: MultiplicationProof, pk: PublicKey)
  {
    SquareKey(pk) && SquareKey(p.comPkExponent) && p.proofSameLog.order > 0
    && RangeFF.Shaped(p.rangeMultiplied1, pk) && RangeFF.Shaped(p.rangeMultiplied2, pk)
    && RangeFF.Shaped(p.rangeResult, pk) && RangeFF.Shaped(p.rangeModulus, pk)
    && RangeFF.Shaped(p.rangeSecretExponent, pk)
  }

  /** ModularMultiplicationZKP.verify: four range proofs on the inputs, the
    * same-log proof between the ordinary quotient commitment and the result
    * commitment (under the exponent key stored in the proof), and the range
    * proof on the quotient. */
  function Accepts(H: HashFunction.Digest, p: MultiplicationProof, pk: PublicKey, st: Statement): (ok: bool)
    requires Shaped(p, pk)
    ensures ok ==> && SumResponsesNonNegative(p.rangeMultiplied1) && SumResponsesNonNegative(p.rangeMultiplied2)
                   && SumResponsesNonNegative(p.rangeResult) && SumResponsesNonNegative(p.rangeModulus)
                   && SumResponsesNonNegative(p.rangeSecretExponent)
    ensures ok ==> 0 <= p.proofSameLog.challenge < p.proofSameLog.order
  {
    var lower, upper := p.lowerBound, p.upperBound;
    && RangeFF.Accepts(H, p.rangeMultiplied1, pk, st.multiplied1, lower, upper)
    && RangeFF.Accepts(H, p.rangeMultiplied2, pk, st.multiplied2, lower, upper)
    && RangeFF.Accepts(H, p.rangeResult, pk, st.result, lower, upper)
    && RangeFF.Accepts(H, p.rangeModulus, pk, st.modulus, lower, upper)
    && VerifySameLog(H, p.proofSameLog, Wrapped(p.normalCommitmentSecretExponent), Wrapped(st.result),
                     pk.generators[0], pk.generators[1],
                     p.comPkExponent.generators[0], p.comPkExponent.generators[1])
    && RangeFF.Accepts(H, p.rangeSecretExponent, pk, p.normalCommitmentSecretExponent, lower, upper)
  }

  /** The statement built from honest commitments. */
  function Honest(pk: PublicKey, v1: int, v2: int, result: int, modulus: int,
                  r1: int, r2: int, rResult: int, rModulus: int): (st: Statement)
    requires SquareKey(pk)
    ensures IsElement(pk.order, st.modulus.commitment)
  {
    Statement(CommitValue(pk, [v1], r1), CommitValue(pk, [v2], r2),
              CommitValue(pk, [result], rResult), CommitValue(pk, [modulus], rModulus))
  }

  /** When result - v1 v2 is k times the modulus, the result commitment is
    * the commitment to k under the exponent key with randomizer 1: the
    * statement of the same-log proof holds. */
  lemma {:induction false} ResultIsQuotientCommitment(pk: PublicKey, v1: int, v2: int, result: int, modulus: int,
                                                      r1: int, r2: int, rResult: int, rModulus: int, k: int)
    requires SquareKey(pk) && modulus != 0
    requires result - v1 * v2 == k * modulus
    ensures
      var st := Honest(pk, v1, v2, result, modulus, r1, r2, rResult, rModulus);
      var k' := SecretExponent(v1, v2, result, modulus);
      var key := ExponentKey(pk, st, v1, QuotientRandom(pk.order, v1, r2, rResult, rModulus, k'));
      && k' == k
      && st.result == CommitValue(key, [k'], 1)
      && st.result.commitment == Lin(pk.order, key.generators[0], key.generators[1], k', 1)
  {
    var q, g0, g1 := pk.order, pk.generators[0], pk.generators[1];
    var st := Honest(pk, v1, v2, result, modulus, r1, r2, rResult, rModulus);
    var s := QuotientRandom(q, v1, r2, rResult, rModulus, k);
    TruncDivExact(result - v1 * v2, modulus, k);
    CommitOneValue(pk, v2, r2);
    CommitOneValue(pk, result, rResult);
    CommitOneValue(pk, modulus, rModulus);
    CommitOneValue(ExponentKey(pk, st, v1, s), k, 1);
    QuotientCommitmentOpens(q, g0, g1, v1, v2, r2, result, rResult, modulus, rModulus, k);
  }

  /** The group algebra behind it: k (modulus g0 + r_m g1) + v1 (v2 g0 + r2 g1)
    * + s g1, with s = r_result - r2 v1 - r_m k, is result g0 + r_result g1. */
  lemma {:induction false} QuotientCommitmentOpens(q: int, g0: int, g1: int, v1: int, v2: int, r2: int, result: int,
                                rResult: int, modulus: int, rModulus: int, k: int)
    requires q > 0 && IsElement(q, g1) && result - v1 * v2 == k * modulus
    ensures
      var s := (rResult - r2 * v1 - rModulus * k) % q;
      var cm := Lin(q, g0, g1, modulus, rModulus);
      var h := Op(q, Scale(q, v1, Lin(q, g0, g1, v2, r2)), Scale(q, s, g1));
      Lin(q, cm, h, k, 1) == Lin(q, g0, g1, result, rResult)
  {
    var s := (rResult - r2 * v1 - rModulus * k) % q;
    var cm := Lin(q, g0, g1, modulus, rModulus);
    var h := Op(q, Scale(q, v1, Lin(q, g0, g1, v2, r2)), Scale(q, s, g1));
    LinNested(q, g0, g1, v2, r2, v1, s);
    LinScale(q, g0, g1, k, modulus, rModulus);
    ModOfReduced(q, h);
    assert Scale(q, 1, h) == h;
    LinOp(q, g0, g1, k * modulus, k * rModulus, v1 * v2, v1 * r2 + s);
    ModAddLeft(q, rResult - r2 * v1 - rModulus * k, k * rModulus + v1 * r2);
    assert k * rModulus + (v1 * r2 + (rResult - r2 * v1 - rModulus * k)) == rResult;
    LinReduce(q, g0, g1, k * modulus + v1 * v2, k * rModulus + (v1 * r2 + s), result, rResult);
  }

  /** Completeness: for an honest prover with result = v1 v2 + k modulus,
    * verification succeeds exactly when the sum responses of the five range
    * proofs are non-negative. */
  lemma {:induction false} MultiplicationComplete(H: HashFunction.Digest, pk: PublicKey, v1: int, v2: int, result: int,
                               modulus: int, r1: int, r2: int, rResult: int, rModulus: int,
                               boundBits: nat, coins: MultiplicationCoins, k: int)
    requires SquareKey(pk) && modulus != 0 && ValidMultiplicationCoins(pk.order, coins)
    requires result - v1 * v2 == k * modulus
    ensures
      var st := Honest(pk, v1, v2, result, modulus, r1, r2, rResult, rModulus);
      var p := Prove(H, pk, v1, v2, result, modulus, st, r1, r2, rResult, rModulus, boundBits, coins);
      && Shaped(p, pk)
      && (Accepts(H, p, pk, st)
          <==>
          && SumResponsesNonNegative(p.rangeMultiplied1) && SumResponsesNonNegative(p.rangeMultiplied2)
          && SumResponsesNonNegative(p.rangeResult) && SumResponsesNonNegative(p.rangeModulus)
          && SumResponsesNonNegative(p.rangeSecretExponent))
  {
    var q, g0, g1 := pk.order, pk.generators[0], pk.generators[1];
    var st := Honest(pk, v1, v2, result, modulus, r1, r2, rResult, rModulus);
    var p := Prove(H, pk, v1, v2, result, modulus, st, r1, r2, rResult, rModulus, boundBits, coins);
    var lower, upper := -Pow2(boundBits), Pow2(boundBits);
    var k' := SecretExponent(v1, v2, result, modulus);
    var s := QuotientRandom(q, v1, r2, rResult, rModulus, k');
    var key := ExponentKey(pk, st, v1, s);
    PartsOfProve(H, pk, v1, v2, result, modulus, r1, r2, rResult, rModulus, boundBits, coins);
    ResultIsQuotientCommitment(pk, v1, v2, result, modulus, r1, r2, rResult, rModulus, k);
    CommitOneValue(pk, k', coins.normal);
    SameLogComplete(H, k', coins.normal, 1, g0, g1, key.generators[0], key.generators[1], q, coins.sameLog,
                    Wrapped(CommitValue(pk, [k'], coins.normal)), Wrapped(st.result));
    HonestAccepted(H, pk, v1, r1, lower, upper, coins.multiplied1);
    HonestAccepted(H, pk, v2, r2, lower, upper, coins.multiplied2);
    HonestAccepted(H, pk, result, rResult, lower, upper, coins.result);
    HonestAccepted(H, pk, modulus, rModulus, lower, upper, coins.modulus);
    HonestAccepted(H, pk, k', coins.normal, lower, upper, coins.exponent);
    AcceptsByParts(H, p, pk, st);
  }

  /** The parts of the honest proof, field by field. */
  lemma {:induction false} PartsOfProve(H: HashFunction.Digest, pk: PublicKey, v1: int, v2: int, result: int,
                                        modulus: int, r1: int, r2: int, rResult: int, rModulus: int,
                                        boundBits: nat, coins: MultiplicationCoins)
    requires SquareKey(pk) && modulus != 0 && ValidMultiplicationCoins(pk.order, coins)
    ensures
      var q := pk.order;
      var st := Honest(pk, v1, v2, result, modulus, r1, r2, rResult, rModulus);
      var p := Prove(H, pk, v1, v2, result, modulus, st, r1, r2, rResult, rModulus, boundBits, coins);
      var lower, upper := -Pow2(boundBits), Pow2(boundBits);
      var k := SecretExponent(v1, v2, result, modulus);
      var s := QuotientRandom(q, v1, r2, rResult, rModulus, k);
      var key := ExponentKey(pk, st, v1, s);
      var normal := CommitValue(pk, [k], coins.normal);
      && st.multiplied1 == CommitValue(pk, [v1], r1) && st.multiplied2 == CommitValue(pk, [v2], r2)
      && st.result == CommitValue(pk, [result], rResult) && st.modulus == CommitValue(pk, [modulus], rModulus)
      && p.lowerBound == lower && p.upperBound == upper
      && p.rangeMultiplied1 == RangeFF.Prove(H, pk, v1, CommitValue(pk, [v1], r1), r1, lower, upper, coins.multiplied1)
      && p.rangeMultiplied2 == RangeFF.Prove(H, pk, v2, CommitValue(pk, [v2], r2), r2, lower, upper, coins.multiplied2)
      && p.rangeResult == RangeFF.Prove(H, pk, result, CommitValue(pk, [result], rResult), rResult, lower, upper,
                                        coins.result)
      && p.rangeModulus == RangeFF.Prove(H, pk, modulus, CommitValue(pk, [modulus], rModulus), rModulus, lower,
                                         upper, coins.modulus)
      && p.comPkExponent == key
      && p.normalCommitmentSecretExponent == normal
      && p.proofSameLog == ProveSameLog(H, k, coins.normal, 1, pk.generators[0], pk.generators[1],
                                        key.generators[0], key.generators[1], q, coins.sameLog)
      && p.rangeSecretExponent == RangeFF.Prove(H, pk, k, normal, coins.normal, lower, upper, coins.exponent)
  {
  }

  /** The verdict is the conjunction of the five range verdicts and the
    * same-log verdict; when the latter holds and each range verdict agrees
    * with its sum responses, so does the whole. */
  lemma {:induction false} AcceptsByParts(H: HashFunction.Digest, p: MultiplicationProof, pk: PublicKey,
                                          st: Statement)
    requires Shaped(p, pk)
    requires RangeFF.Accepts(H, p.rangeMultiplied1, pk, st.multiplied1, p.lowerBound, p.upperBound)
             <==> SumResponsesNonNegative(p.rangeMultiplied1)
    requires RangeFF.Accepts(H, p.rangeMultiplied2, pk, st.multiplied2, p.lowerBound, p.upperBound)
             <==> SumResponsesNonNegative(p.rangeMultiplied2)
    requires RangeFF.Accepts(H, p.rangeResult, pk, st.result, p.lowerBound, p.upperBound)
             <==> SumResponsesNonNegative(p.rangeResult)
    requires RangeFF.Accepts(H, p.rangeModulus, pk, st.modulus, p.lowerBound, p.upperBound)
             <==> SumResponsesNonNegative(p.rangeModulus)
    requires VerifySameLog(H, p.proofSameLog, Wrapped(p.normalCommitmentSecretExponent), Wrapped(st.result),
                           pk.generators[0], pk.generators[1],
                           p.comPkExponent.generators[0], p.comPkExponent.generators[1])
    requires RangeFF.Accepts(H, p.rangeSecretExponent, pk, p.normalCommitmentSecretExponent, p.lowerBound,
                             p.upperBound)
             <==> SumResponsesNonNegative(p.rangeSecretExponent)
    ensures Accepts(H, p, pk, st)
            <==>
            && SumResponsesNonNegative(p.rangeMultiplied1) && SumResponsesNonNegative(p.rangeMultiplied2)
            && SumResponsesNonNegative(p.rangeResult) && SumResponsesNonNegative(p.rangeModulus)
            && SumResponsesNonNegative(p.rangeSecretExponent)
  {
  }

  /** The same-log statement does not mention v1 or v2: the exponent key is
    * read from the proof, and for any result commitment and any quotient k
    * the base h = result / modulus^k makes the result commitment a
    * commitment to k under (modulus, h) with randomizer 1. */
  lemma {:induction false} SameLogStatementIgnoresFactors(q: int, cm: int, cResult: int, k: int)
    requires q > 0 && IsElement(q, cResult)
    ensures cResult == Lin(q, cm, Div(q, cResult, Scale(q, k, cm)), k, 1)
  {
    var h := Div(q, cResult, Scale(q, k, cm));
    ModAddLeft(q, cResult - Scale(q, k, cm), Scale(q, k, cm));
    ModOfReduced(q, cResult);
    assert Scale(q, 1, h) == h by { ModIdempotent(q, cResult - Scale(q, k, cm)); }
  }

  /** The quotient the prover computes is exact, result = v1 v2 + k modulus,
    * exactly when result and v1 v2 agree modulo the modulus: the statement
    * the proof stands for is the modular relation. */
  lemma {:induction false} MultiplicationRelation(v1: int, v2: int, result: int, modulus: int)
    requires modulus > 0
    ensures result % modulus == (v1 * v2) % modulus
            <==> result - v1 * v2 == SecretExponent(v1, v2, result, modulus) * modulus
  {
    var k := SecretExponent(v1, v2, result, modulus);
    if result - v1 * v2 == k * modulus {
      ModCongruent(modulus, result, v1 * v2, k);
    }
    if result % modulus == (v1 * v2) % modulus {
      CongruentDifference(modulus, result, v1 * v2);
      TruncDivExact(result - v1 * v2, modulus, result / modulus - (v1 * v2) / modulus);
    }
  }

  /** Completeness for a true modular product: when result = v1 v2 (mod
    * modulus), the honest proof is accepted exactly when the sum responses
    * of its five range proofs are non-negative. */
  lemma {:induction false} RelationComplete(H: HashFunction.Digest, pk: PublicKey, v1: int, v2: int, result: int,
                         modulus: int, r1: int, r2: int, rResult: int, rModulus: int,
                         boundBits: nat, coins: MultiplicationCoins)
    requires SquareKey(pk) && modulus > 0 && ValidMultiplicationCoins(pk.order, coins)
    requires result % modulus == (v1 * v2) % modulus
    ensures
      var st := Honest(pk, v1, v2, result, modulus, r1, r2, rResult, rModulus);
      var p := Prove(H, pk, v1, v2, result, modulus, st, r1, r2, rResult, rModulus, boundBits, coins);
      && Shaped(p, pk)
      && (Accepts(H, p, pk, st)
          <==>
          && SumResponsesNonNegative(p.rangeMultiplied1) && SumResponsesNonNegative(p.rangeMultiplied2)
          && SumResponsesNonNegative(p.rangeResult) && SumResponsesNonNegative(p.rangeModulus)
          && SumResponsesNonNegative(p.rangeSecretExponent))
  {
    MultiplicationRelation(v1, v2, result, modulus);
    MultiplicationComplete(H, pk, v1, v2, result, modulus, r1, r2, rResult, rModulus, boundBits, coins,
                           SecretExponent(v1, v2, result, modulus));
  }
}
