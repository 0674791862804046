/**
 * Range proof, elliptic-curve notation
 * (zero_knowledge_proofs/ec_based/proof_range_ec.py), after Peng and Bao.
 *
 * The additive twin of the finite-field proof.  It differs in three places:
 * lower - 1 and -r are not reduced modulo the order, the blinders are drawn
 * below 2^250, and the key of the first square proof keeps the second
 * generator of a fresh key, the point hashed from "1".
 *
 * To show that the committed number x lies in [lower, upper], the prover
 * shows that (x - lower + 1) (upper - x + 1) times a random square is a sum
 * m1 + m2 + m3 whose parts pass a positivity test, with m3 a square.
 */
module RangeEC {
  import opened DiscreteLog
  import opened Pedersen
  import opened HashFunction
  import opened Randomness
  import opened SquareEC

  /** `security_parameter_1`: the challenges live in [0, 2^120). */
  const ChallengeBits: nat := 120
  /** `security_parameter_2`: the prover's blinders live in [0, 2^250). */
  const BlindingBits: nat := 250

  /** The fields of a ProofRange object. */
  datatype RangeProof = RangeProof(
    order: int,
    commitmentOne: int,
    commitmentTwo: int,
    commitmentDifference: Commitment,
    proofSameLog: ProofSameLog,
    commitmentSquare: Commitment,
    comPkSquare: PublicKey,
    proofSquare: ProofSquare,
    commitmentM1: Commitment,
    commitmentM2: Commitment,
    commitmentM3: int,
    proofSquare2: ProofSquare,
    challenge1: int,
    challenge2: int,
    responseMs1: int,
    responseMs2: int,
    responseRs1: int,
    responseRs2: int)

  /** The keys and orders inside a proof fit the verifier's key. */
  predicate Shaped(p: RangeProof, pk: PublicKey)
  {
    SquareKey(pk) && p.order == pk.order
    && SquareKey(p.comPkSquare) && p.comPkSquare.order == pk.order
    && p.proofSameLog.order == pk.order
    && p.proofSquare.proofSameLog.order == pk.order
    && p.proofSquare2.proofSameLog.order == pk.order
  }

  /** The challenge both challenge fields are computed as, from the three
    * commitments to the parts m1, m2, m3. */
  function PartsChallenge(H: Digest, m1: Commitment, m2: Commitment, m3: int): (c: int)
    ensures 0 <= c < Pow2(ChallengeBits)
  {
    Challenge(H, [Export(m1), Export(m2), PointItem(m3)], Pow2(ChallengeBits))
  }

  /** The number whose decomposition is proved: root^2 (x - lower + 1) (upper - x + 1). */
  function SummedValue(root: int, x: int, lower: int, upper: int): int
  {
    root * root * (x - lower + 1) * (upper - x + 1)
  }

  /** The randomizer of the square commitment:
    * root^2 ((upper - x + 1) r + r_difference) + r_square. */
  function SummedRandomness(root: int, x: int, upper: int, r: int, rDifference: int, rSquare: int): int
  {
    root * root * ((upper - x + 1) * r + rDifference) + rSquare
  }

  /** commitment_one: the commitment minus (lower - 1) g0. */
  function LowerShift(pk: PublicKey, C: Commitment, lower: int): int
    requires SquareKey(pk)
  {
    Div(pk.order, C.commitment, Scale(pk.order, lower - 1, pk.generators[0]))
  }

  /** commitment_two: (upper + 1) g0 minus the commitment. */
  function UpperShift(pk: PublicKey, C: Commitment, upper: int): int
    requires SquareKey(pk)
  {
    Div(pk.order, Scale(pk.order, upper + 1, pk.generators[0]), C.commitment)
  }

  /** k base + blinder g1, the shape of the difference and square commitments. */
  function Reblind(pk: PublicKey, base: int, k: int, blinder: int): int
    requires SquareKey(pk)
  {
    Op(pk.order, Scale(pk.order, k, base), Scale(pk.order, blinder, pk.generators[1]))
  }

  /** ProofRange(com_pk, number, commitment_number, random_commitment, lower_bound, upper_bound);
    * `pointOne` is the point the group hashes from "1", the second generator
    * of the fresh key `PublicKey(group, 1)`. */
  function Prove(H: Digest, pk: PublicKey, pointOne: int, x: int, C: Commitment, r: int, lower: int, upper: int,
                 coins: RangeCoins): (p: RangeProof)
    requires SquareKey(pk) && IsElement(pk.order, pointOne)
    requires ValidRangeCoins(pk.order, Pow2(BlindingBits), coins)
    ensures Shaped(p, pk)
    ensures p.challenge1 == p.challenge2 == PartsChallenge(H, p.commitmentM1, p.commitmentM2, p.commitmentM3)
  {
    var q, g0, g1 := pk.order, pk.generators[0], pk.generators[1];
    var one := LowerShift(pk, C, lower);
    var two := UpperShift(pk, C, upper);
    var difference := Commitment(Reblind(pk, one, upper - x + 1, coins.difference));
    var sameLog := ProveSameLog(H, upper - x + 1, -r, coins.difference, g0, g1, one, g1, q, coins.sameLog);
    var root := coins.root;
    var square := Commitment(Reblind(pk, difference.commitment, (root * root) % q, coins.square));
    var pkSquare := KeyWithBases(q, difference.commitment, pointOne);
    var proofSquare := ProveSquare(H, pkSquare, root, Wrapped(square), coins.square, coins.square1);
    var value := SummedValue(root, x, lower, upper);
    var m3 := coins.m4 * coins.m4;
    var m1 := value - m3 - coins.m2;
    var summed := SummedRandomness(root, x, upper, r, coins.difference, coins.square);
    var r1 := summed - coins.r3 - coins.r2;
    var cm1 := CommitValue(pk, [m1], r1);
    var cm2 := CommitValue(pk, [coins.m2], coins.r2);
    var cm3 := Div(q, Div(q, square.commitment, cm1.commitment), cm2.commitment);
    var proofSquare2 := ProveSquare(H, pk, coins.m4, Bare(cm3), coins.r3, coins.square2);
    var c1 := PartsChallenge(H, cm1, cm2, cm3);
    var c2 := PartsChallenge(H, cm1, cm2, cm3);
    RangeProof(q, one, two, difference, sameLog, square, pkSquare, proofSquare, cm1, cm2, cm3, proofSquare2,
               c1, c2,
               c1 * m1 + coins.m2 + m3, m1 + c2 * coins.m2 + m3,
               c1 * r1 + coins.r2 + coins.r3, r1 + c2 * coins.r2 + coins.r3)
  }

  /** Checks 9 and 10: both sum responses are non-negative. */
  predicate SumResponsesNonNegative(p: RangeProof)
  {
    p.responseMs1 >= 0 && p.responseMs2 >= 0
  }

  /** The ten checks of ProofRange.verify, with the challenges recomputed
    * from the part commitments (the stored challenge fields are not read). */
  function Accepts(H: Digest, p: RangeProof, pk: PublicKey, C: Commitment, lower: int, upper: int): (ok: bool)
    requires Shaped(p, pk)
    ensures ok ==> p.commitmentOne == LowerShift(pk, C, lower) && p.commitmentTwo == UpperShift(pk, C, upper)
    ensures ok ==> SumResponsesNonNegative(p)
  {
    var q, g0, g1 := pk.order, pk.generators[0], pk.generators[1];
    var m1, m2, m3 := p.commitmentM1.commitment, p.commitmentM2.commitment, p.commitmentM3;
    var check1 := VerifySameLog(H, p.proofSameLog, Bare(p.commitmentTwo), Wrapped(p.commitmentDifference),
                                g0, g1, p.commitmentOne, g1);
    var check2 := VerifySquare(H, p.proofSquare, p.comPkSquare, Wrapped(p.commitmentSquare));
    var check3 := VerifySquare(H, p.proofSquare2, pk, Bare(p.commitmentM3));
    var check4 := p.commitmentOne == LowerShift(pk, C, lower);
    var check5 := p.commitmentTwo == UpperShift(pk, C, upper);
    var check6 := p.commitmentSquare.commitment == Op(q, Op(q, m1, m2), m3);
    var c1 := PartsChallenge(H, p.commitmentM1, p.commitmentM2, m3);
    var c2 := PartsChallenge(H, p.commitmentM1, p.commitmentM2, m3);
    var check7 := Op(q, Op(q, Scale(q, c1, m1), m2), m3) == Lin(q, g0, g1, p.responseMs1, p.responseRs1);
    var check8 := Op(q, Op(q, m1, Scale(q, c2, m2)), m3) == Lin(q, g0, g1, p.responseMs2, p.responseRs2);
    check1 && check2 && check3 && check4 && check5 && check6 && check7 && check8 && SumResponsesNonNegative(p)
  }

  /** The proof object: `verify` overwrites the two challenge fields with the
    * values it recomputes, and nothing else. */
  class ProofRange {
    var proof: RangeProof

    constructor (H: Digest, pk: PublicKey, pointOne: int, x: int, C: Commitment, r: int, lower: int, upper: int,
                 coins: RangeCoins)
      requires SquareKey(pk) && IsElement(pk.order, pointOne)
      requires ValidRangeCoins(pk.order, Pow2(BlindingBits), coins)
      ensures proof == Prove(H, pk, pointOne, x, C, r, lower, upper, coins)
    {
      proof := Prove(H, pk, pointOne, x, C, r, lower, upper, coins);
    }

    method Verify(H: Digest, pk: PublicKey, C: Commitment, lower: int, upper: int) returns (ok: bool)
      requires Shaped(proof, pk)
      modifies this
      ensures ok == Accepts(H, old(proof), pk, C, lower, upper)
      ensures proof == old(proof).(
        challenge1 := PartsChallenge(H, old(proof).commitmentM1, old(proof).commitmentM2, old(proof).commitmentM3),
        challenge2 := PartsChallenge(H, old(proof).commitmentM1, old(proof).commitmentM2, old(proof).commitmentM3))
    {
      var q, g0, g1 := pk.order, pk.generators[0], pk.generators[1];
      var p := proof;
      var m1, m2, m3 := p.commitmentM1.commitment, p.commitmentM2.commitment, p.commitmentM3;
      var check1 := VerifySameLog(H, p.proofSameLog, Bare(p.commitmentTwo), Wrapped(p.commitmentDifference),
                                  g0, g1, p.commitmentOne, g1);
      var check2 := VerifySquare(H, p.proofSquare, p.comPkSquare, Wrapped(p.commitmentSquare));
      var check3 := VerifySquare(H, p.proofSquare2, pk, Bare(p.commitmentM3));
      var check4 := p.commitmentOne == LowerShift(pk, C, lower);
      var check5 := p.commitmentTwo == UpperShift(pk, C, upper);
      var check6 := p.commitmentSquare.commitment == Op(q, Op(q, m1, m2), m3);
      var c1 := ComputeChallenge(H, [Export(p.commitmentM1), Export(p.commitmentM2), PointItem(m3)],
                                 Pow2(ChallengeBits));
      proof := proof.(challenge1 := c1);
      var c2 := ComputeChallenge(H, [Export(p.commitmentM1), Export(p.commitmentM2), PointItem(m3)],
                                 Pow2(ChallengeBits));
      proof := proof.(challenge2 := c2);
      var check7 := Op(q, Op(q, Scale(q, proof.challenge1, m1), m2), m3)
                    == Lin(q, g0, g1, p.responseMs1, p.responseRs1);
      var check8 := Op(q, Op(q, m1, Scale(q, proof.challenge2, m2)), m3)
                    == Lin(q, g0, g1, p.responseMs2, p.responseRs2);
      var check9 := p.responseMs1 >= 0;
      var check10 := p.responseMs2 >= 0;
      ok := check1 && check2 && check3 && check4 && check5 && check6 && check7 && check8 && check9 && check10;
    }
  }

  // ---------------------------------------------------------------------
  // What an honest proof contains.
  // ---------------------------------------------------------------------

  /** commitment_one hides x - lower + 1 and commitment_two hides
    * upper + 1 - x, with randomizers r and -r. */
  lemma {:induction false} HonestBounds(H: Digest, pk: PublicKey, pointOne: int, x: int, r: int, lower: int, upper: int,
                     coins: RangeCoins)
    requires SquareKey(pk) && IsElement(pk.order, pointOne)
    requires ValidRangeCoins(pk.order, Pow2(BlindingBits), coins)
    ensures
      var p := Prove(H, pk, pointOne, x, CommitValue(pk, [x], r), r, lower, upper, coins);
      var q, g0, g1 := pk.order, pk.generators[0], pk.generators[1];
      && p.commitmentOne == Lin(q, g0, g1, x - lower + 1, r)
      && p.commitmentTwo == Lin(q, g0, g1, upper + 1 - x, -r)
  {
    var q, g0, g1 := pk.order, pk.generators[0], pk.generators[1];
    CommitOneValue(pk, x, r);
    ScaleIsLin(q, g0, g1, lower - 1);
    ScaleIsLin(q, g0, g1, upper + 1);
    LinDiv(q, g0, g1, x, r, lower - 1, 0);
    LinDiv(q, g0, g1, upper + 1, 0, x, r);
  }

  /** The difference commitment hides (upper - x + 1)(x - lower + 1) and the
    * square commitment hides the summed value, with the summed randomness. */
  lemma {:induction false} HonestSquare(H: Digest, pk: PublicKey, pointOne: int, x: int, r: int, lower: int, upper: int,
                     coins: RangeCoins)
    requires SquareKey(pk) && IsElement(pk.order, pointOne)
    requires ValidRangeCoins(pk.order, Pow2(BlindingBits), coins)
    ensures
      var p := Prove(H, pk, pointOne, x, CommitValue(pk, [x], r), r, lower, upper, coins);
      var q, g0, g1 := pk.order, pk.generators[0], pk.generators[1];
      && p.commitmentDifference.commitment
         == Lin(q, g0, g1, (upper - x + 1) * (x - lower + 1), (upper - x + 1) * r + coins.difference)
      && p.commitmentSquare.commitment
         == Lin(q, g0, g1, SummedValue(coins.root, x, lower, upper),
                SummedRandomness(coins.root, x, upper, r, coins.difference, coins.square))
  {
    HonestBounds(H, pk, pointOne, x, r, lower, upper, coins);
    ReblindDifference(pk, x, r, lower, upper, coins.difference);
    ReblindSquare(pk, x, r, lower, upper, coins.root, coins.difference, coins.square);
  }

  /** Reblinding commitment_one by (upper - x + 1) gives the difference
    * commitment's opening. */
  lemma {:induction false} ReblindDifference(pk: PublicKey, x: int, r: int, lower: int, upper: int, rDifference: int)
    requires SquareKey(pk)
    ensures
      var q, g0, g1 := pk.order, pk.generators[0], pk.generators[1];
      Reblind(pk, Lin(q, g0, g1, x - lower + 1, r), upper - x + 1, rDifference)
      == Lin(q, g0, g1, (upper - x + 1) * (x - lower + 1), (upper - x + 1) * r + rDifference)
  {
    var q, g0, g1 := pk.order, pk.generators[0], pk.generators[1];
    LinNested(q, g0, g1, x - lower + 1, r, upper - x + 1, rDifference);
  }

  /** Reblinding the difference commitment by root^2 mod order gives the
    * summed value with the summed randomness. */
  lemma {:induction false} ReblindSquare(pk: PublicKey, x: int, r: int, lower: int, upper: int, root: int,
                                         rDifference: int, rSquare: int)
    requires SquareKey(pk)
    ensures
      var q, g0, g1 := pk.order, pk.generators[0], pk.generators[1];
      var diff := Lin(q, g0, g1, (upper - x + 1) * (x - lower + 1), (upper - x + 1) * r + rDifference);
      Reblind(pk, diff, (root * root) % q, rSquare)
      == Lin(q, g0, g1, SummedValue(root, x, lower, upper), SummedRandomness(root, x, upper, r, rDifference, rSquare))
  {
    var q, g0, g1 := pk.order, pk.generators[0], pk.generators[1];
    var k := upper - x + 1;
    var diff := Lin(q, g0, g1, k * (x - lower + 1), k * r + rDifference);
    ScaleReduce(q, root * root, diff);
    LinNested(q, g0, g1, k * (x - lower + 1), k * r + rDifference, root * root, rSquare);
    SummedValueFactors(root, x, lower, upper);
  }

  lemma {:induction false} SummedValueFactors(root: int, x: int, lower: int, upper: int)
    ensures root * root * ((upper - x + 1) * (x - lower + 1)) == SummedValue(root, x, lower, upper)
  {
  }

  /** The three parts: commitment_m_1 and commitment_m_2 hide m1 and m2, and
    * commitment_m_3 (the square commitment divided by both) hides m4^2 with r3. */
  lemma {:induction false} HonestParts(H: Digest, pk: PublicKey, pointOne: int, x: int, r: int, lower: int, upper: int,
                    coins: RangeCoins)
    requires SquareKey(pk) && IsElement(pk.order, pointOne)
    requires ValidRangeCoins(pk.order, Pow2(BlindingBits), coins)
    ensures
      var p := Prove(H, pk, pointOne, x, CommitValue(pk, [x], r), r, lower, upper, coins);
      var q, g0, g1 := pk.order, pk.generators[0], pk.generators[1];
      var value := SummedValue(coins.root, x, lower, upper);
      var summed := SummedRandomness(coins.root, x, upper, r, coins.difference, coins.square);
      var m3 := coins.m4 * coins.m4;
      && p.commitmentM1.commitment == Lin(q, g0, g1, value - m3 - coins.m2, summed - coins.r3 - coins.r2)
      && p.commitmentM2.commitment == Lin(q, g0, g1, coins.m2, coins.r2)
      && p.commitmentM3 == Lin(q, g0, g1, m3, coins.r3)
  {
    var q, g0, g1 := pk.order, pk.generators[0], pk.generators[1];
    var value := SummedValue(coins.root, x, lower, upper);
    var summed := SummedRandomness(coins.root, x, upper, r, coins.difference, coins.square);
    var m3 := coins.m4 * coins.m4;
    var m1, r1 := value - m3 - coins.m2, summed - coins.r3 - coins.r2;
    HonestSquare(H, pk, pointOne, x, r, lower, upper, coins);
    CommitOneValue(pk, m1, r1);
    CommitOneValue(pk, coins.m2, coins.r2);
    LinDiv(q, g0, g1, value, summed, m1, r1);
    LinDiv(q, g0, g1, value - m1, summed - r1, coins.m2, coins.r2);
  }

  /** The three sub-proofs of an honest proof verify (checks 1 to 3), when
    * the point hashed from "1" is the key's own second generator, as it is
    * for every key made by `PublicKey(group, n)`. */
  lemma {:induction false} HonestSubProofs(H: Digest, pk: PublicKey, pointOne: int, x: int, r: int, lower: int, upper: int,
                        coins: RangeCoins)
    requires SquareKey(pk) && IsElement(pk.order, pointOne)
    requires pointOne == pk.generators[1]
    requires ValidRangeCoins(pk.order, Pow2(BlindingBits), coins)
    ensures
      var p := Prove(H, pk, pointOne, x, CommitValue(pk, [x], r), r, lower, upper, coins);
      var g0, g1 := pk.generators[0], pk.generators[1];
      && VerifySameLog(H, p.proofSameLog, Bare(p.commitmentTwo), Wrapped(p.commitmentDifference),
                       g0, g1, p.commitmentOne, g1)
      && VerifySquare(H, p.proofSquare, p.comPkSquare, Wrapped(p.commitmentSquare))
      && VerifySquare(H, p.proofSquare2, pk, Bare(p.commitmentM3))
  {
    var q, g0, g1 := pk.order, pk.generators[0], pk.generators[1];
    var C := CommitValue(pk, [x], r);
    var p := Prove(H, pk, pointOne, x, C, r, lower, upper, coins);
    var k, root := upper - x + 1, coins.root;
    HonestBounds(H, pk, pointOne, x, r, lower, upper, coins);
    HonestParts(H, pk, pointOne, x, r, lower, upper, coins);
    // check 1: commitment_two and the difference commitment share the exponent k
    SameLogComplete(H, k, -r, coins.difference, g0, g1, p.commitmentOne, g1, q, coins.sameLog,
                    Bare(p.commitmentTwo), Wrapped(p.commitmentDifference));
    // check 2: the square commitment hides root^2 under the key (difference, g1)
    var diff := p.commitmentDifference.commitment;
    CommitOneValue(p.comPkSquare, root * root, coins.square);
    ModIdempotent(q, root * root);
    LinReduce(q, diff, g1, (root * root) % q, coins.square, root * root, coins.square);
    SquareComplete(H, p.comPkSquare, root, Wrapped(p.commitmentSquare), coins.square, coins.square1);
    // check 3: commitment_m_3 hides m4^2
    CommitOneValue(pk, coins.m4 * coins.m4, coins.r3);
    SquareComplete(H, pk, coins.m4, Bare(p.commitmentM3), coins.r3, coins.square2);
  }

  /** The three parts of an honest proof multiply to the square commitment,
    * and the responses open the two challenged products (checks 6 to 8). */
  lemma {:induction false} HonestBalances(H: Digest, pk: PublicKey, pointOne: int, x: int, r: int, lower: int, upper: int,
                       coins: RangeCoins)
    requires SquareKey(pk) && IsElement(pk.order, pointOne)
    requires ValidRangeCoins(pk.order, Pow2(BlindingBits), coins)
    ensures
      var p := Prove(H, pk, pointOne, x, CommitValue(pk, [x], r), r, lower, upper, coins);
      var q, g0, g1 := pk.order, pk.generators[0], pk.generators[1];
      var m1, m2, m3 := p.commitmentM1.commitment, p.commitmentM2.commitment, p.commitmentM3;
      var c := PartsChallenge(H, p.commitmentM1, p.commitmentM2, m3);
      && p.commitmentSquare.commitment == Op(q, Op(q, m1, m2), m3)
      && Op(q, Op(q, Scale(q, c, m1), m2), m3) == Lin(q, g0, g1, p.responseMs1, p.responseRs1)
      && Op(q, Op(q, m1, Scale(q, c, m2)), m3) == Lin(q, g0, g1, p.responseMs2, p.responseRs2)
  {
    var q, g0, g1 := pk.order, pk.generators[0], pk.generators[1];
    var p := Prove(H, pk, pointOne, x, CommitValue(pk, [x], r), r, lower, upper, coins);
    var c := PartsChallenge(H, p.commitmentM1, p.commitmentM2, p.commitmentM3);
    var value := SummedValue(coins.root, x, lower, upper);
    var summed := SummedRandomness(coins.root, x, upper, r, coins.difference, coins.square);
    var m3, r3 := coins.m4 * coins.m4, coins.r3;
    var m2, r2 := coins.m2, coins.r2;
    var m1, r1 := value - m3 - m2, summed - r3 - r2;
    HonestSquare(H, pk, pointOne, x, r, lower, upper, coins);
    HonestParts(H, pk, pointOne, x, r, lower, upper, coins);
    LinOp(q, g0, g1, m1, r1, m2, r2);
    LinOp(q, g0, g1, m1 + m2, r1 + r2, m3, r3);
    LinScale(q, g0, g1, c, m1, r1);
    LinOp(q, g0, g1, c * m1, c * r1, m2, r2);
    LinOp(q, g0, g1, c * m1 + m2, c * r1 + r2, m3, r3);
    LinScale(q, g0, g1, c, m2, r2);
    LinOp(q, g0, g1, m1, r1, c * m2, c * r2);
    LinOp(q, g0, g1, m1 + c * m2, r1 + c * r2, m3, r3);
  }

  /** An honest proof of a committed number passes checks 1 to 8, so it is
    * accepted exactly when both sum responses are non-negative. */
  lemma {:induction false} HonestAccepted(H: Digest, pk: PublicKey, pointOne: int, x: int, r: int, lower: int, upper: int,
                       coins: RangeCoins)
    requires SquareKey(pk) && IsElement(pk.order, pointOne)
    requires pointOne == pk.generators[1]
    requires ValidRangeCoins(pk.order, Pow2(BlindingBits), coins)
    ensures
      var C := CommitValue(pk, [x], r);
      var p := Prove(H, pk, pointOne, x, C, r, lower, upper, coins);
      Accepts(H, p, pk, C, lower, upper) <==> SumResponsesNonNegative(p)
  {
    HonestSubProofs(H, pk, pointOne, x, r, lower, upper, coins);
    HonestBalances(H, pk, pointOne, x, r, lower, upper, coins);
  }

  /** The sum responses in terms of the value V = root^2 (x - lower + 1)
    * (upper - x + 1) the prover decomposed, the challenge c and the parts
    * m2 and m3 = m4^2 it drew: c V - (c - 1)(m2 + m3) and V + (c - 1) m2. */
  lemma {:induction false} HonestResponses(H: Digest, pk: PublicKey, pointOne: int, x: int, C: Commitment, r: int, lower: int, upper: int,
                        coins: RangeCoins)
    requires SquareKey(pk) && IsElement(pk.order, pointOne)
    requires ValidRangeCoins(pk.order, Pow2(BlindingBits), coins)
    ensures
      var p := Prove(H, pk, pointOne, x, C, r, lower, upper, coins);
      var v, c := SummedValue(coins.root, x, lower, upper), p.challenge1;
      var m2, m3 := coins.m2, coins.m4 * coins.m4;
      && p.responseMs1 == c * v - (c - 1) * (m2 + m3)
      && p.responseMs2 == v + (c - 1) * m2
  {
    var p := Prove(H, pk, pointOne, x, C, r, lower, upper, coins);
    var v, c := SummedValue(coins.root, x, lower, upper), p.challenge1;
    var m2, m3 := coins.m2, coins.m4 * coins.m4;
    assert p.responseMs1 == c * (v - m3 - m2) + m2 + m3;
    assert p.responseMs2 == (v - m3 - m2) + c * m2 + m3;
    ResponseAlgebra(c, v, m2, m3);
  }

  lemma {:induction false} ResponseAlgebra(c: int, v: int, m2: int, m3: int)
    ensures c * (v - m3 - m2) + m2 + m3 == c * v - (c - 1) * (m2 + m3)
    ensures (v - m3 - m2) + c * m2 + m3 == v + (c - 1) * m2
  {
  }

  /** A number outside [lower - 1, upper + 1] (with a non-zero root) makes V
    * negative, and then no challenge saves the honest prover: the proof is
    * rejected (the doctest with 7 and the range [3, 5]). */
  lemma {:induction false} RangeRejectsOutside(H: Digest, pk: PublicKey, pointOne: int, x: int, r: int, lower: int, upper: int,
                            coins: RangeCoins)
    requires SquareKey(pk) && IsElement(pk.order, pointOne)
    requires ValidRangeCoins(pk.order, Pow2(BlindingBits), coins)
    requires lower <= upper && coins.root != 0
    requires x < lower - 1 || x > upper + 1
    ensures
      var C := CommitValue(pk, [x], r);
      !Accepts(H, Prove(H, pk, pointOne, x, C, r, lower, upper, coins), pk, C, lower, upper)
  {
    var C := CommitValue(pk, [x], r);
    var p := Prove(H, pk, pointOne, x, C, r, lower, upper, coins);
    var v, c := SummedValue(coins.root, x, lower, upper), p.challenge1;
    var m2, m3 := coins.m2, coins.m4 * coins.m4;
    HonestResponses(H, pk, pointOne, x, C, r, lower, upper, coins);
    NegativeSummedValue(coins.root, x, lower, upper);
    SquareNonNegative(coins.m4);
    NegativeSumRejected(c, v, m2, m3);
    AcceptedNeedsSums(H, p, pk, C, lower, upper);
  }

  /** At the edges x = lower - 1 and x = upper + 1 the value V is 0, so the
    * sign checks decide on the challenge and the drawn parts alone: the
    * honest proof is accepted exactly when the challenge is 1, or m2 = 0 and
    * either the challenge is 0 or m4 = 0. The doctest with 2 and the range
    * [3, 5] is this edge, so its expected rejection holds for every other
    * challenge and parts. */
  lemma {:induction false} RangeEdgeAccepts(H: Digest, pk: PublicKey, pointOne: int, x: int, r: int, lower: int, upper: int,
                         coins: RangeCoins)
    requires SquareKey(pk) && IsElement(pk.order, pointOne)
    requires pointOne == pk.generators[1]
    requires ValidRangeCoins(pk.order, Pow2(BlindingBits), coins)
    requires x == lower - 1 || x == upper + 1
    ensures
      var C := CommitValue(pk, [x], r);
      var p := Prove(H, pk, pointOne, x, C, r, lower, upper, coins);
      Accepts(H, p, pk, C, lower, upper) <==> (p.challenge1 == 1 || (coins.m2 == 0 && (p.challenge1 == 0 || coins.m4 == 0)))
  {
    var C := CommitValue(pk, [x], r);
    var p := Prove(H, pk, pointOne, x, C, r, lower, upper, coins);
    HonestAccepted(H, pk, pointOne, x, r, lower, upper, coins);
    HonestResponses(H, pk, pointOne, x, C, r, lower, upper, coins);
    EdgeSummedValue(coins.root, x, lower, upper);
    EdgeSigns(p.challenge1, SummedValue(coins.root, x, lower, upper), coins.m2, coins.m4 * coins.m4, coins.m4);
  }

  lemma {:induction false} EdgeSummedValue(root: int, x: int, lower: int, upper: int)
    requires x == lower - 1 || x == upper + 1
    ensures SummedValue(root, x, lower, upper) == 0
  {
  }

  /** With V = 0 the sum responses are -(c - 1)(m2 + m4^2) and (c - 1) m2. */
  lemma {:induction false} EdgeSigns(c: int, v: int, m2: int, m3: int, m4: int)
    requires c >= 0 && v == 0 && m2 >= 0 && m3 == m4 * m4
    ensures (c * v - (c - 1) * (m2 + m3) >= 0 && v + (c - 1) * m2 >= 0)
            <==> (c == 1 || (m2 == 0 && (c == 0 || m4 == 0)))
  {
    SquareNonNegative(m4);
    if c >= 2 {
      if m2 + m3 > 0 {
        NegativeProduct(c - 1, -(m2 + m3));
      }
      if m4 != 0 {
        PositiveSquare(m4);
      }
      NonNegativeProduct(c - 1, m2);
    }
  }

  /** With V < 0 one of the two sum responses c V - (c - 1)(m2 + m3) and
    * V + (c - 1) m2 is negative, whatever the challenge c >= 0. */
  lemma {:induction false} NegativeSumRejected(c: int, v: int, m2: int, m3: int)
    requires c >= 0 && v < 0 && m2 >= 0 && m3 >= 0
    ensures c * v - (c - 1) * (m2 + m3) < 0 || v + (c - 1) * m2 < 0
  {
    if c > 0 {
      NegativeProduct(c, v);
      NonNegativeProduct(c - 1, m2 + m3);
    }
  }

  /** Checks 9 and 10 are part of the verdict. */
  lemma {:induction false} AcceptedNeedsSums(H: Digest, p: RangeProof, pk: PublicKey, C: Commitment, lower: int, upper: int)
    requires Shaped(p, pk)
    ensures Accepts(H, p, pk, C, lower, upper) ==> SumResponsesNonNegative(p)
  {
  }

  /** Completeness when the drawn parts fit: if m1 = V - m4^2 - m2 is not
    * negative, the honest proof is accepted. */
  lemma {:induction false} RangeAcceptsDecomposable(H: Digest, pk: PublicKey, pointOne: int, x: int, r: int, lower: int, upper: int,
                                 coins: RangeCoins)
    requires SquareKey(pk) && IsElement(pk.order, pointOne)
    requires pointOne == pk.generators[1]
    requires ValidRangeCoins(pk.order, Pow2(BlindingBits), coins)
    requires SummedValue(coins.root, x, lower, upper) - coins.m4 * coins.m4 - coins.m2 >= 0
    ensures
      var C := CommitValue(pk, [x], r);
      Accepts(H, Prove(H, pk, pointOne, x, C, r, lower, upper, coins), pk, C, lower, upper)
  {
    var C := CommitValue(pk, [x], r);
    var p := Prove(H, pk, pointOne, x, C, r, lower, upper, coins);
    var v, c := SummedValue(coins.root, x, lower, upper), p.challenge1;
    var m2, m3 := coins.m2, coins.m4 * coins.m4;
    var m1 := v - m3 - m2;
    HonestAccepted(H, pk, pointOne, x, r, lower, upper, coins);
    assert m3 >= 0 by { SquareNonNegative(coins.m4); }
    assert c * m1 >= 0 by { NonNegativeProduct(c, m1); }
    assert c * m2 >= 0 by { NonNegativeProduct(c, m2); }
  }

  lemma {:induction false} NegativeSummedValue(root: int, x: int, lower: int, upper: int)
    requires lower <= upper && root != 0
    requires x < lower - 1 || x > upper + 1
    ensures SummedValue(root, x, lower, upper) < 0
  {
    var a, b := x - lower + 1, upper - x + 1;
    assert root * root > 0 by { PositiveSquare(root); }
    assert a * b < 0 by { NegativeProduct(if a < 0 then b else a, if a < 0 then a else b); }
    assert root * root * (a * b) < 0 by { NegativeProduct(root * root, a * b); }
    SummedValueFactors(root, x, lower, upper);
  }

  lemma {:induction false} SquareNonNegative(a: int)
    ensures a * a >= 0
  {
  }

  lemma {:induction false} PositiveSquare(a: int)
    requires a != 0
    ensures a * a > 0
  {
  }

  lemma {:induction false} NegativeProduct(a: int, b: int)
    requires a > 0 && b < 0
    ensures a * b < 0
  {
  }

  lemma {:induction false} NonNegativeProduct(a: int, b: int)
    requires a >= 0 && b >= 0
    ensures a * b >= 0
  {
  }
}
