/**
 * ProofSignatureSet (zero_knowledge_proofs/ff_based/proof_signature_from_set.py):
 * a proof that the prover holds an RSA signature on a message under a
 * committed modulus, and that the committed modulus is a root of a public
 * polynomial, that is a member of the set of moduli the polynomial was built
 * from.
 *
 * The composition commits to the modulus once and hands that commitment to
 * both sub-proofs: the exponentiation proof of module
 * SignatureExponentiation, and the polynomial-evaluation proof of module
 * PolynomialEvaluationProof, which shows that the committed modulus
 * evaluates to the committed zero.
 */
module SignatureSet {
  import opened DiscreteLog
  import opened Wrappers
  import opened Pedersen
  import HashFunction
  import Poly = Polynomials
  import opened PolynomialEvaluation
  import PE = PolynomialEvaluationProof
  import opened SignatureExponentiation
  import opened SquareFF
  import RangeFF

  /** The fields `verify` reads; the timing fields are not modelled. */
  datatype SignatureSetProof = SignatureSetProof(
    order: int,
    commitmentModulo: Commitment,
    signatureVerificationProof: ExponentiationProof,
    setMembershipProof: PE.PolynomialProof)

  /** The draws of the constructor: `random_commitment_modulo` and the
    * draws of the two sub-proofs. */
  datatype SignatureSetCoins = SignatureSetCoins(
    commitmentModulo: int,
    exponentiation: ExponentiationCoins,
    membership: PE.PolyEvalCoins)

  /** An error raised by one of the two sub-verifiers. */
  datatype SetVerifyError =
    | ExponentiationFailed(exponentiationError: VerifyError)
    | MembershipFailed(membershipError: PE.VerifyError)

  /** The relation asserted in `dummy_data`: the signature raised to the
    * public exponent is the message modulo the RSA modulus (RSAVP1, section
    * 5.2.2 of RFC 8017). */
  predicate SignatureRelation(signature: int, message: int, modulus: int)
    requires modulus > 0
  {
    Pow(signature, DefaultExponent) % modulus == message
  }

  /** `dummy_roots(modulo, size)`: size copies of the modulus. */
  function DummyRoots(modulus: int, size: nat): (roots: seq<int>)
    ensures |roots| == size
    ensures forall i :: 0 <= i < |roots| ==> roots[i] == modulus
  {
    seq(size, _ => modulus)
  }

  /** `com_pk.commit([0], 0)`: the commitment both sides use for the value
    * the polynomial takes at the modulus. */
  function CommitmentZero(pk: PublicKey): (c: Commitment)
    requires pk.Valid() && pk.n == 1
  {
    CommitValue(pk, [0], 0)
  }

  /** The commitment to zero with randomizer zero is the group identity, so
    * combining with it changes no commitment. */
  lemma {:induction false} CommitmentZeroIsIdentity(pk: PublicKey, c: Commitment)
    requires pk.Valid() && pk.n == 1 && IsElement(pk.order, c.commitment)
    ensures CommitmentZero(pk).commitment == 0
    ensures Mul(pk.order, c, CommitmentZero(pk)) == c
  {
    CommitmentZeroOpens(pk);
    assert Op(pk.order, c.commitment, 0) == c.commitment;
  }

  lemma {:induction false} CommitmentZeroOpens(pk: PublicKey)
    requires pk.Valid() && pk.n == 1
    ensures CommitmentZero(pk).commitment == 0
  {
    CommitOneValue(pk, 0, 0);
    LinOfZeros(pk.order, pk.generators[0], pk.generators[1]);
  }

  lemma {:induction false} LinOfZeros(q: int, g: int, h: int)
    requires q > 0
    ensures Lin(q, g, h, 0, 0) == 0
  {
    assert Scale(q, 0, g) == 0 && Scale(q, 0, h) == 0;
  }

  // ---------------------------------------------------------------------
  // __init__
  // ---------------------------------------------------------------------

  /** `ProofSignatureSet(com_pk, signature, message, modulus, polynomial_list)`:
    * commits to the modulus, proves the exponentiation against that
    * commitment with `upper_bound_moduli=2049`, and proves that the
    * polynomial takes the committed value zero (randomizer zero) at the
    * committed modulus; the polynomial proof pads the caller's list. */
  method ProveSignatureSet(H: HashFunction.Digest, pk: PublicKey, signature: int, message: int, modulus: int,
                           list: CoefficientList, coins: SignatureSetCoins)
    returns (p: SignatureSetProof)
    requires SquareKey(pk) && modulus > 0 && IsElement(pk.order, coins.commitmentModulo)
    requires ValidExponentiationCoins(pk.order, coins.exponentiation)
    requires |coins.exponentiation.steps| >= |Steps(DefaultExponent)|
    requires |list.items| >= 2 && PE.ValidCoins(pk.order, BitLength(|list.items|), coins.membership)
    modifies list
    ensures p.order == pk.order
    ensures p.commitmentModulo == CommitValue(pk, [modulus], coins.commitmentModulo)
    ensures var e := p.signatureVerificationProof;
      e.exponent == DefaultExponent && e.message == message && Shaped(e, pk) && WellFormed(e)
    ensures SignatureRelation(signature, message, modulus) ==>
              ResultMatches(p.signatureVerificationProof, pk, message)
    ensures Honest(H, pk, signature, modulus, p.commitmentModulo, coins.commitmentModulo, coins.exponentiation,
                   p.signatureVerificationProof)
    ensures p.setMembershipProof == PE.MakeProof(pk, H, old(list.items), p.commitmentModulo, modulus,
                                                 coins.commitmentModulo, 0, coins.membership)
    ensures list.items == Padded(old(list.items), PaddedDegree(|old(list.items)|))
  {
    var cModulus := CommitValue(pk, [modulus], coins.commitmentModulo);
    var exponentiation := ProveExponentiation(H, pk, signature, message, modulus, cModulus, coins.commitmentModulo,
                                              DefaultExponent, SquaringBoundBits, coins.exponentiation);
    var membership := PE.Prove(pk, H, list, cModulus, modulus, coins.commitmentModulo, 0, coins.membership);
    p := SignatureSetProof(pk.order, cModulus, exponentiation, membership);
  }

  // ---------------------------------------------------------------------
  // verify
  // ---------------------------------------------------------------------

  /** What the exponentiation proof's `verify` returns. */
  function ExponentiationVerdict(H: HashFunction.Digest, p: ExponentiationProof, pk: PublicKey, message: int,
                                 cModulus: Commitment): (r: Result<bool, VerifyError>)
    requires Shaped(p, pk)
    ensures r.Err? <==> !WellFormed(p)
    ensures r == Ok(true) ==> ResultMatches(p, pk, message)
  {
    if !WellFormed(p) then Err(ErrorFrom(p, 0))
    else Ok(ResultMatches(p, pk, message) && AllStepsAccepted(H, p, pk, cModulus)
            && RangeFF.Accepts(H, p.rangeModulus, pk, cModulus, p.lowerBound, p.upperBound))
  }

  /** What `verify(com_pk, message, polynomial_list)` returns on the list as
    * the membership verifier pads it: the first sub-verifier's error, else
    * the second's, else `check1 and check2`. */
  function SetVerdict(H: HashFunction.Digest, p: SignatureSetProof, pk: PublicKey, message: int, a: seq<int>)
    : (r: Result<bool, SetVerifyError>)
    requires SquareKey(pk) && Shaped(p.signatureVerificationProof, pk) && p.setMembershipProof.order > 0
    ensures r.Err? <==> !WellFormed(p.signatureVerificationProof) || !PE.WellFormed(p.setMembershipProof)
    ensures r.Err? && r.error.ExponentiationFailed? <==> !WellFormed(p.signatureVerificationProof)
    ensures r == Ok(true) ==> ResultMatches(p.signatureVerificationProof, pk, message)
  {
    match ExponentiationVerdict(H, p.signatureVerificationProof, pk, message, p.commitmentModulo)
    case Err(e) => Err(ExponentiationFailed(e))
    case Ok(check1) =>
      match PE.Verdict(pk, p.setMembershipProof, a, CommitmentZero(pk))
      case Err(e) => Err(MembershipFailed(e))
      case Ok(check2) => Ok(check1 && check2)
  }

  /** `verify`: runs the exponentiation verifier against the stored
    * commitment to the modulus, then the membership verifier against the
    * commitment to zero, which pads the caller's list. */
  method VerifySignatureSet(H: HashFunction.Digest, p: SignatureSetProof, pk: PublicKey, message: int,
                            list: CoefficientList)
    returns (r: Result<bool, SetVerifyError>)
    requires SquareKey(pk) && Shaped(p.signatureVerificationProof, pk) && p.setMembershipProof.order > 0
    modifies list
    ensures r == SetVerdict(H, p, pk, message, Padded(old(list.items), p.setMembershipProof.degree))
    ensures r.Err? && r.error.ExponentiationFailed? ==> list.items == old(list.items)
    ensures !(r.Err? && r.error.ExponentiationFailed?) ==>
              list.items == Padded(old(list.items), p.setMembershipProof.degree)
  {
    var check1 := VerifyExponentiation(H, p.signatureVerificationProof, pk, message, p.commitmentModulo);
    if check1.Err? {
      return Err(ExponentiationFailed(check1.error));
    }
    var commitmentZero := CommitmentZero(pk);
    var check2 := PE.Verify(pk, p.setMembershipProof, list, p.commitmentModulo, commitmentZero);
    if check2.Err? {
      return Err(MembershipFailed(check2.error));
    }
    r := Ok(check1.value && check2.value);
  }

  /** `check1 and check2`: the composition accepts exactly when both
    * sub-verifiers accept. */
  lemma {:induction false} SetAcceptsIffBoth(H: HashFunction.Digest, p: SignatureSetProof, pk: PublicKey,
                                             message: int, a: seq<int>)
    requires SquareKey(pk) && Shaped(p.signatureVerificationProof, pk) && p.setMembershipProof.order > 0
    ensures SetVerdict(H, p, pk, message, a) == Ok(true) <==>
              (ExponentiationVerdict(H, p.signatureVerificationProof, pk, message, p.commitmentModulo) == Ok(true)
               && PE.Verdict(pk, p.setMembershipProof, a, CommitmentZero(pk)) == Ok(true))
  {
  }

  /** An accepted composition carries an exponentiation proof whose last
    * product commitment is the commitment to the message. */
  lemma {:induction false} AcceptedMatchesMessage(H: HashFunction.Digest, p: SignatureSetProof, pk: PublicKey,
                                                  message: int, a: seq<int>)
    requires SquareKey(pk) && Shaped(p.signatureVerificationProof, pk) && p.setMembershipProof.order > 0
    requires SetVerdict(H, p, pk, message, a) == Ok(true)
    ensures ResultMatches(p.signatureVerificationProof, pk, message)
    ensures PE.Check3(pk, p.setMembershipProof, a, CommitmentZero(pk))
  {
    SetAcceptsIffBoth(H, p, pk, message, a);
  }

  /** The composition is complete: for a signature on the message under the
    * modulus and a polynomial that has the modulus as a root modulo the
    * group order, the proof the constructor builds (as ProveSignatureSet
    * describes it) is accepted, whenever the range proofs' response sums of
    * the exponentiation proof come out non-negative. */
  lemma {:induction false} Completeness(H: HashFunction.Digest, pk: PublicKey, signature: int, message: int,
                                        modulus: int, list: seq<int>, coins: SignatureSetCoins,
                                        p: SignatureSetProof)
    requires SquareKey(pk) && modulus > 0 && ValidExponentiationCoins(pk.order, coins.exponentiation)
    requires p.commitmentModulo == CommitValue(pk, [modulus], coins.commitmentModulo)
    requires Honest(H, pk, signature, modulus, p.commitmentModulo, coins.commitmentModulo, coins.exponentiation,
                    p.signatureVerificationProof)
    requires p.signatureVerificationProof.exponent == DefaultExponent
    requires |list| >= 2 && PE.ValidCoins(pk.order, BitLength(|list|), coins.membership)
    requires p.setMembershipProof == PE.MakeProof(pk, H, list, p.commitmentModulo, modulus, coins.commitmentModulo,
                                                  0, coins.membership)
    requires SignatureRelation(signature, message, modulus)
    requires Poly.EvalSum(list, modulus) % pk.order == 0
    requires RangeSumsNonNegative(p.signatureVerificationProof)
    ensures Shaped(p.signatureVerificationProof, pk) && p.setMembershipProof.order > 0
    ensures SetVerdict(H, p, pk, message, Padded(list, p.setMembershipProof.degree)) == Ok(true)
  {
    ExponentiationAccepted(H, pk, signature, message, modulus, coins.commitmentModulo, coins.exponentiation,
                           p.signatureVerificationProof);
    MembershipComplete(pk, H, list, modulus, coins.commitmentModulo, coins.membership);
  }

  /** The exponentiation half of the composition is complete. */
  lemma {:induction false} ExponentiationAccepted(H: HashFunction.Digest, pk: PublicKey, signature: int,
                                                  message: int, modulus: int, rModulus: int,
                                                  coins: ExponentiationCoins, p: ExponentiationProof)
    requires SquareKey(pk) && modulus > 0 && ValidExponentiationCoins(pk.order, coins)
    requires Honest(H, pk, signature, modulus, CommitValue(pk, [modulus], rModulus), rModulus, coins, p)
    requires p.exponent == DefaultExponent && SignatureRelation(signature, message, modulus)
    requires RangeSumsNonNegative(p)
    ensures Shaped(p, pk)
    ensures ExponentiationVerdict(H, p, pk, message, CommitValue(pk, [modulus], rModulus)) == Ok(true)
  {
    SignatureExponentiation.Completeness(H, pk, signature, message, modulus, rModulus, coins, p);
  }

  // ---------------------------------------------------------------------
  // Membership
  // ---------------------------------------------------------------------

  /** The membership half of the composition is complete: when the modulus
    * is a root of the polynomial modulo the group order, the proof the
    * constructor builds is accepted against the commitment to zero. */
  lemma {:induction false} MembershipComplete(pk: PublicKey, H: HashFunction.Digest, list: seq<int>, modulus: int,
                                              rModulus: int, coins: PE.PolyEvalCoins)
    requires pk.Valid() && pk.n == 1 && |list| >= 2 && PE.ValidCoins(pk.order, BitLength(|list|), coins)
    requires Poly.EvalSum(list, modulus) % pk.order == 0
    ensures var p := PE.MakeProof(pk, H, list, CommitValue(pk, [modulus], rModulus), modulus, rModulus, 0, coins);
      PE.Verdict(pk, p, Padded(list, p.degree), CommitmentZero(pk)) == Ok(true)
  {
    assert 0 % pk.order == 0;
    PE.Completeness(pk, H, list, modulus, rModulus, 0, 0, coins);
  }

  /** The modulus is a root of the polynomial built from any list of roots
    * that contains it, in particular from `dummy_roots(modulo, size)`. */
  lemma {:induction false} MemberIsRoot(roots: seq<int>, q: nat, k: int)
    requires q > 0 && 0 <= k < |roots|
    ensures Poly.EvalSum(Poly.RootCoefficients(roots, q), roots[k]) % q == 0
  {
    Poly.RootCoefficientsVanish(roots, q, k);
  }

  /** The doctest of `verify`: for the polynomial over the group order with
    * roots `dummy_roots(modulus, size)`, size >= 1, the membership proof of
    * the constructor is accepted. */
  lemma {:induction false} DummyRootsAccepted(pk: PublicKey, H: HashFunction.Digest, modulus: int, size: nat,
                                              rModulus: int, coins: PE.PolyEvalCoins)
    requires pk.Valid() && pk.n == 1 && size >= 1
    requires PE.ValidCoins(pk.order, BitLength(size + 1), coins)
    ensures var list := Poly.RootCoefficients(DummyRoots(modulus, size), pk.order);
      var p := PE.MakeProof(pk, H, list, CommitValue(pk, [modulus], rModulus), modulus, rModulus, 0, coins);
      PE.Verdict(pk, p, Padded(list, p.degree), CommitmentZero(pk)) == Ok(true)
  {
    var roots := DummyRoots(modulus, size);
    MemberIsRoot(roots, pk.order, 0);
    MembershipComplete(pk, H, Poly.RootCoefficients(roots, pk.order), modulus, rModulus, coins);
  }

  /** With the constructor as written in proof_poly_eval_ec.py, the
    * membership half always raises: the modulus is a root, so the deltas
    * come out one short and `verify` raises IndexError. */
  lemma {:induction false} AsWrittenMembershipRaises(pk: PublicKey, H: HashFunction.Digest, roots: seq<int>, k: int,
                                                     rModulus: int, coins: PE.PolyEvalCoins)
    requires pk.Valid() && pk.n == 1 && 0 <= k < |roots|
    requires PE.ValidCoins(pk.order, BitLength(|roots| + 1), coins)
    ensures var list := Poly.RootCoefficients(roots, pk.order);
      var p := PE.MakeProofAsWritten(pk, H, list, CommitValue(pk, [roots[k]], rModulus), roots[k], rModulus, 0, coins);
      PE.Verdict(pk, p, Padded(list, p.degree), CommitmentZero(pk)) == Err(PE.IndexError)
  {
    var list := Poly.RootCoefficients(roots, pk.order);
    MemberIsRoot(roots, pk.order, k);
    var p := PE.MakeProofAsWritten(pk, H, list, CommitValue(pk, [roots[k]], rModulus), roots[k], rModulus, 0, coins);
    PE.AsWrittenRaises(pk, H, list, CommitValue(pk, [roots[k]], rModulus), roots[k], rModulus, 0, coins,
                       Padded(list, p.degree), CommitmentZero(pk));
  }
}
