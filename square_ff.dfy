/**
 * Proof that a committed value is a square, finite-field notation
 * (zero_knowledge_proofs/ff_based/proof_square_ff.py), after Boudot.
 *
 * ProofSameLog shows that two two-base combinations share their first
 * exponent; ProofSquare commits to the root and uses the root commitment as
 * a base, so that the same-log proof shows the given commitment hides the
 * square of the root.
 */
module SquareFF {
  import opened DiscreteLog
  import opened Pedersen
  import opened HashFunction
  import opened Randomness

  /** ProofSameLog: the stored order, challenge and three responses. */
  datatype ProofSameLog = ProofSameLog(
    order: int,
    challenge: int,
    responseExponent: int,
    responseRandomOne: int,
    responseRandomTwo: int)

  /** `verify` accepts a Commitment or a bare element and unwraps the former. */
  datatype Operand = Wrapped(c: Commitment) | Bare(e: int)

  function Unwrap(o: Operand): int
  {
    match o
    case Wrapped(c) => c.commitment
    case Bare(e) => e
  }

  /** The prover's announcement `g ** rho_e * h ** rho_r`. */
  function Announcement(q: int, g: int, h: int, rhoE: int, rhoR: int): int
    requires q > 0
  {
    Lin(q, g, h, rhoE, rhoR)
  }

  /** ProofSameLog(exponent, r1, r2, g1, h1, g2, h2, order): a proof that
    * g1^e h1^r1 and g2^e h2^r2 share e. */
  function ProveSameLog(H: Digest, exponent: int, r1: int, r2: int,
                        g1: int, h1: int, g2: int, h2: int, q: int, coins: SameLogCoins)
    : (p: ProofSameLog)
    requires ValidSameLogCoins(q, coins)
    ensures p.order == q && 0 <= p.challenge < q
  {
    var a1 := Announcement(q, g1, h1, coins.exponent, coins.one);
    var a2 := Announcement(q, g2, h2, coins.exponent, coins.two);
    var c := Challenge(H, [PointItem(a1), PointItem(a2)], q);
    ProofSameLog(q, c, coins.exponent + c * exponent, coins.one + c * r1, coins.two + c * r2)
  }

  /** The verifier's recomputed announcement
    * `g ** s_e * h ** s_r * C ** ((-c) mod order)`. */
  function Replayed(q: int, g: int, h: int, sE: int, sR: int, c: int, C: int): int
    requires q > 0
  {
    Op(q, Op(q, Scale(q, sE, g), Scale(q, sR, h)), Scale(q, (-c) % q, C))
  }

  /** ProofSameLog.verify: the challenge recomputed from the replayed
    * announcements equals the stored one. */
  function VerifySameLog(H: Digest, p: ProofSameLog, C1: Operand, C2: Operand,
                         g1: int, h1: int, g2: int, h2: int): (ok: bool)
    requires p.order > 0
    ensures ok ==> 0 <= p.challenge < p.order
  {
    var q := p.order;
    var a1 := Replayed(q, g1, h1, p.responseExponent, p.responseRandomOne, p.challenge, Unwrap(C1));
    var a2 := Replayed(q, g2, h2, p.responseExponent, p.responseRandomTwo, p.challenge, Unwrap(C2));
    p.challenge == Challenge(H, [PointItem(a1), PointItem(a2)], q)
  }

  /** The replay of an honest proof reproduces an announcement exactly when
    * c times the commitment equals c times the combination the prover
    * opened it to. */
  lemma {:induction false} SameLogReplay(H: Digest, e: int, r1: int, r2: int, g1: int, h1: int, g2: int, h2: int,
                      q: int, coins: SameLogCoins, C1: int, C2: int)
    requires ValidSameLogCoins(q, coins) && IsElement(q, C1) && IsElement(q, C2)
    ensures
      var p := ProveSameLog(H, e, r1, r2, g1, h1, g2, h2, q, coins);
      && (Replayed(q, g1, h1, p.responseExponent, p.responseRandomOne, p.challenge, C1)
            == Announcement(q, g1, h1, coins.exponent, coins.one)
          <==> Scale(q, p.challenge, Lin(q, g1, h1, e, r1)) == Scale(q, p.challenge, C1))
      && (Replayed(q, g2, h2, p.responseExponent, p.responseRandomTwo, p.challenge, C2)
            == Announcement(q, g2, h2, coins.exponent, coins.two)
          <==> Scale(q, p.challenge, Lin(q, g2, h2, e, r2)) == Scale(q, p.challenge, C2))
  {
    var p := ProveSameLog(H, e, r1, r2, g1, h1, g2, h2, q, coins);
    var c := p.challenge;
    ScaleReduce(q, -c, C1);
    ScaleReduce(q, -c, C2);
    Replay(q, g1, h1, coins.exponent, coins.one, c, e, r1, C1);
    Replay(q, g2, h2, coins.exponent, coins.two, c, e, r2, C2);
  }

  /** Completeness: commitments that open to the proved exponent verify. */
  lemma {:induction false} SameLogComplete(H: Digest, e: int, r1: int, r2: int, g1: int, h1: int, g2: int, h2: int,
                        q: int, coins: SameLogCoins, C1: Operand, C2: Operand)
    requires ValidSameLogCoins(q, coins)
    requires Unwrap(C1) == Lin(q, g1, h1, e, r1) && Unwrap(C2) == Lin(q, g2, h2, e, r2)
    ensures VerifySameLog(H, ProveSameLog(H, e, r1, r2, g1, h1, g2, h2, q, coins), C1, C2, g1, h1, g2, h2)
  {
    SameLogReplay(H, e, r1, r2, g1, h1, g2, h2, q, coins, Unwrap(C1), Unwrap(C2));
  }

  /** With prime order and a non-zero challenge, a replayed announcement
    * equals the prover's exactly when the commitment opens to the proved
    * exponent and randomizer. */
  lemma {:induction false} SameLogBinding(H: Digest, e: int, r1: int, r2: int, g1: int, h1: int, g2: int, h2: int,
                       q: int, coins: SameLogCoins, C1: int, C2: int)
    requires ValidSameLogCoins(q, coins) && IsPrime(q) && IsElement(q, C1) && IsElement(q, C2)
    requires ProveSameLog(H, e, r1, r2, g1, h1, g2, h2, q, coins).challenge != 0
    ensures
      var p := ProveSameLog(H, e, r1, r2, g1, h1, g2, h2, q, coins);
      && (Replayed(q, g1, h1, p.responseExponent, p.responseRandomOne, p.challenge, C1)
            == Announcement(q, g1, h1, coins.exponent, coins.one)
          <==> C1 == Lin(q, g1, h1, e, r1))
      && (Replayed(q, g2, h2, p.responseExponent, p.responseRandomTwo, p.challenge, C2)
            == Announcement(q, g2, h2, coins.exponent, coins.two)
          <==> C2 == Lin(q, g2, h2, e, r2))
  {
    var p := ProveSameLog(H, e, r1, r2, g1, h1, g2, h2, q, coins);
    ModOfReduced(q, p.challenge);
    SameLogReplay(H, e, r1, r2, g1, h1, g2, h2, q, coins, C1, C2);
    ScaleInjective(q, p.challenge, Lin(q, g1, h1, e, r1), C1);
    ScaleInjective(q, p.challenge, Lin(q, g2, h2, e, r2), C2);
  }

  // ---------------------------------------------------------------------
  // ProofSquare
  // ---------------------------------------------------------------------

  /** ProofSquare: the root commitment, the prover's square commitment and
    * the same-log proof linking them. */
  datatype ProofSquare = ProofSquare(
    order: int,
    commitmentSqrRoot: Commitment,
    commitmentSqr: Commitment,
    proofSameLog: ProofSameLog)

  /** A key the square proof can use: one value, two generators. */
  predicate SquareKey(pk: PublicKey)
  {
    pk.Valid() && pk.n == 1
  }

  /** ProofSquare(com_pk, sqr_root, commitment_sqr, random_commitment): the
    * caller's commitment_sqr is not used by the prover. */
  function ProveSquare(H: Digest, pk: PublicKey, sqrRoot: int, commitmentSqr: Operand,
                       randomCommitment: int, coins: SquareCoins): (p: ProofSquare)
    requires SquareKey(pk) && ValidSquareCoins(pk.order, coins)
    ensures p.order == pk.order
    ensures p.commitmentSqrRoot == CommitValue(pk, [sqrRoot], coins.sqrRoot)
  {
    var q, g0, g1 := pk.order, pk.generators[0], pk.generators[1];
    var rootCommitment := CommitValue(pk, [sqrRoot], coins.sqrRoot);
    var randomSqr := (randomCommitment - sqrRoot * coins.sqrRoot) % q;
    var generator1 := rootCommitment.commitment;
    var square := Commitment(Op(q, Scale(q, sqrRoot, generator1), Scale(q, randomSqr, g1)));
    var sameLog := ProveSameLog(H, sqrRoot, coins.sqrRoot, randomSqr, g0, g1, generator1, g1, q, coins.sameLog);
    ProofSquare(q, rootCommitment, square, sameLog)
  }

  /** ProofSquare.verify(com_pk, commitment_sqr) */
  function VerifySquare(H: Digest, p: ProofSquare, pk: PublicKey, commitmentSqr: Operand): (ok: bool)
    requires SquareKey(pk) && p.proofSameLog.order > 0
    ensures ok ==> 0 <= p.proofSameLog.challenge < p.proofSameLog.order
  {
    VerifySameLog(H, p.proofSameLog, Wrapped(p.commitmentSqrRoot), commitmentSqr,
                  pk.generators[0], pk.generators[1], p.commitmentSqrRoot.commitment, pk.generators[1])
  }

  /** The prover's square commitment hides sqr_root^2 with the caller's
    * randomizer: using the root commitment as a base squares the root. */
  lemma {:induction false} SquareCommitmentOpens(H: Digest, pk: PublicKey, s: int, C: Operand, r: int, coins: SquareCoins)
    requires SquareKey(pk) && ValidSquareCoins(pk.order, coins)
    ensures ProveSquare(H, pk, s, C, r, coins).commitmentSqr == CommitValue(pk, [s * s], r)
  {
    var q, g0, g1 := pk.order, pk.generators[0], pk.generators[1];
    var rRoot := coins.sqrRoot;
    var randomSqr := (r - s * rRoot) % q;
    CommitOneValue(pk, s, rRoot);
    CommitOneValue(pk, s * s, r);
    LinNested(q, g0, g1, s, rRoot, s, randomSqr);
    ModAddLeft(q, r - s * rRoot, s * rRoot);
    ModIdempotent(q, r);
    LinReduce(q, g0, g1, s * s, s * rRoot + randomSqr, s * s, r);
  }

  /** The second same-log statement of an honest square proof: the square
    * commitment is a combination of the root commitment and g1. */
  lemma {:induction false} SquareStatement(H: Digest, pk: PublicKey, s: int, C: Operand, r: int, coins: SquareCoins)
    requires SquareKey(pk) && ValidSquareCoins(pk.order, coins)
    ensures
      var p := ProveSquare(H, pk, s, C, r, coins);
      var q := pk.order;
      && p.commitmentSqrRoot.commitment == Lin(q, pk.generators[0], pk.generators[1], s, coins.sqrRoot)
      && Lin(q, p.commitmentSqrRoot.commitment, pk.generators[1], s, (r - s * coins.sqrRoot) % q)
         == CommitValue(pk, [s * s], r).commitment
  {
    SquareCommitmentOpens(H, pk, s, C, r, coins);
    CommitOneValue(pk, s, coins.sqrRoot);
  }

  /** Completeness: a commitment to the square of the root, with the
    * randomizer given to the prover, verifies. */
  lemma {:induction false} SquareComplete(H: Digest, pk: PublicKey, s: int, C: Operand, r: int, coins: SquareCoins)
    requires SquareKey(pk) && ValidSquareCoins(pk.order, coins)
    requires Unwrap(C) == CommitValue(pk, [s * s], r).commitment
    ensures VerifySquare(H, ProveSquare(H, pk, s, C, r, coins), pk, C)
  {
    var q, g0, g1 := pk.order, pk.generators[0], pk.generators[1];
    var p := ProveSquare(H, pk, s, C, r, coins);
    SquareStatement(H, pk, s, C, r, coins);
    SameLogComplete(H, s, coins.sqrRoot, (r - s * coins.sqrRoot) % q, g0, g1,
                    p.commitmentSqrRoot.commitment, g1, q, coins.sameLog,
                    Wrapped(p.commitmentSqrRoot), C);
  }

  /** With prime order and a non-zero challenge, the replay of the second
    * announcement matches only a commitment to the square of the root with
    * the prover's randomizer (the doctest: 17 is not 5 squared). */
  lemma {:induction false} SquareBinding(H: Digest, pk: PublicKey, s: int, C: Operand, r: int, coins: SquareCoins)
    requires SquareKey(pk) && ValidSquareCoins(pk.order, coins) && IsPrime(pk.order)
    requires IsElement(pk.order, Unwrap(C))
    requires ProveSquare(H, pk, s, C, r, coins).proofSameLog.challenge != 0
    ensures
      var p := ProveSquare(H, pk, s, C, r, coins);
      var sl := p.proofSameLog;
      var q, g1 := pk.order, pk.generators[1];
      Replayed(q, p.commitmentSqrRoot.commitment, g1, sl.responseExponent, sl.responseRandomTwo,
               sl.challenge, Unwrap(C))
        == Announcement(q, p.commitmentSqrRoot.commitment, g1, coins.sameLog.exponent, coins.sameLog.two)
      <==> Unwrap(C) == CommitValue(pk, [s * s], r).commitment
  {
    var q, g0, g1 := pk.order, pk.generators[0], pk.generators[1];
    var p := ProveSquare(H, pk, s, C, r, coins);
    SquareStatement(H, pk, s, C, r, coins);
    SameLogBinding(H, s, coins.sqrRoot, (r - s * coins.sqrRoot) % q, g0, g1,
                   p.commitmentSqrRoot.commitment, g1, q, coins.sameLog,
                   p.commitmentSqrRoot.commitment, Unwrap(C));
  }
}
