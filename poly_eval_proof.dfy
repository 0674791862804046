/**
 * PolynomialProof (zero_knowledge_proofs/ec_based/proof_poly_eval_ec.py):
 * the prover's commitments and responses, the verifier's three families of
 * checks, and `product_rhs_calculation`.
 *
 * The algebra of the hidden polynomial lives in module PolynomialEvaluation;
 * this module assembles the proof from it and shows that an honest proof
 * passes every check.
 */
module PolynomialEvaluationProof {
  import opened DiscreteLog
  import opened Wrappers
  import opened HashFunction
  import opened Pedersen
  import Poly = Polynomials
  import opened PolynomialEvaluation

  // ---------------------------------------------------------------------
  // product_rhs_calculation
  // ---------------------------------------------------------------------

  /** The honest `response_random_hidden`: c v^(2^j) + rh_j, unreduced. */
  function ResponseHidden(c: int, v: int, rh: seq<int>, L: nat): (z: seq<int>)
    requires |rh| == L + 1
    ensures |z| == L + 1
  {
    seq(L + 1, j requires 0 <= j < L + 1 => c * Pow(v, Pow2(j)) + rh[j])
  }

  /** `temp_poly` of `product_rhs_calculation`: z_j ** b_j * c ** (1 - b_j)
    * for the bits b of one index. */
  function RhsFactors(z: seq<int>, c: int, bits: seq<int>, n: nat): (f: seq<int>)
    requires n <= |z| && n <= |bits| && forall j :: 0 <= j < |bits| ==> IsBit(bits[j])
    ensures |f| == n
  {
    seq(n, j requires 0 <= j < n => RhsFactor(z[j], c, bits[j]))
  }

  /** z ** b * c ** (1 - b): z for a set bit, c for a clear one. */
  function RhsFactor(z: int, c: int, b: int): int
    requires IsBit(b)
  {
    Pow(z, b) * Pow(c, 1 - b)
  }

  /** `reduce(lambda a, b: (a * b).mod(order), temp_poly)` for index i. */
  function RhsTerm(order: nat, z: seq<int>, c: int, L: nat, i: nat): int
    requires order > 0 && |z| >= L + 1
  {
    BinaryReprValue(i, L + 1);
    Poly.ReduceMul(RhsFactors(z, c, BinaryRepr(i, L + 1), L + 1), order)
  }

  function RhsTerms(order: nat, z: seq<int>, c: int, L: nat, count: nat): (t: seq<int>)
    requires order > 0 && |z| >= L + 1
    ensures |t| == count
  {
    seq(count, i requires 0 <= i < count => RhsTerm(order, z, c, L, i))
  }

  /** The value `product_rhs_calculation` returns: sum_i term_i a_i,
    * unreduced. */
  function ProductRhs(order: nat, z: seq<int>, c: int, a: seq<int>, L: nat): int
    requires order > 0 && |z| >= L + 1
  {
    Dot(RhsTerms(order, z, c, L, |a|), a, |a|)
  }

  /** The accumulating loop of `product_rhs_calculation`. */
  method ProductRhsCalculation(order: nat, z: seq<int>, c: int, a: seq<int>, L: nat) returns (finalPoly: int)
    requires order > 0 && |z| >= L + 1
    ensures finalPoly == ProductRhs(order, z, c, a, L)
  {
    ghost var terms := RhsTerms(order, z, c, L, |a|);
    finalPoly := 0;
    for i := 0 to |a|
      invariant finalPoly == Dot(terms, a, i)
    {
      var bits := BinaryRepr(i, L + 1);
      BinaryReprValue(i, L + 1);
      var temp := RhsFactors(z, c, bits, L + 1);
      finalPoly := finalPoly + Poly.ReduceMul(temp, order) * a[i];
    }
  }

  /** Sums of products only depend on the first factors modulo q. */
  lemma {:induction false} DotCongruent(u: seq<int>, u': seq<int>, w: seq<int>, n: nat, q: nat)
    requires q > 0 && n <= |u| && n <= |u'| && n <= |w|
    requires forall i :: 0 <= i < n ==> u[i] % q == u'[i] % q
    ensures Dot(u, w, n) % q == Dot(u', w, n) % q
  {
    if n > 0 {
      DotCongruent(u, u', w, n - 1, q);
      Poly.ReduceProduct(q, u[n - 1], u'[n - 1], w[n - 1]);
      assert w[n - 1] * u[n - 1] == u[n - 1] * w[n - 1];
      assert w[n - 1] * u'[n - 1] == u'[n - 1] * w[n - 1];
      Poly.ReduceSum(q, Dot(u, w, n - 1), Dot(u', w, n - 1), u[n - 1] * w[n - 1], u'[n - 1] * w[n - 1]);
    }
  }

  /** With honest responses, each factor of `temp_poly` is the factor of the
    * hidden polynomial's product evaluated at the challenge. */
  lemma {:induction false} RhsFactorCongruent(q: nat, v: int, rh: seq<int>, c: int, L: nat, bits: seq<int>, j: nat)
    requires q > 0 && |rh| == L + 1 && |bits| >= L + 1 && j <= L
    requires forall k :: 0 <= k < |bits| ==> IsBit(bits[k])
    ensures Poly.Reduce(RhsFactors(ResponseHidden(c, v, rh, L), c, bits, L + 1)[j], q)
         == Poly.Reduce(FactorValues(q, v, rh, bits, L + 1, c)[j], q)
  {
    var w := Pow(v, Pow2(j));
    if bits[j] == 1 {
      assert Pow(c, 0) == 1;
      assert Pow(c * w + rh[j], 1) == c * w + rh[j];
      ModMulLeft(q, w, c);
      assert c * w == w * c;
      ModAddLeft(q, (w % q) * c, rh[j]);
      ModAddLeft(q, w * c, rh[j]);
    } else {
      assert Pow(c, 1) == c;
    }
  }

  /** Each term of the sum is the product for its index evaluated at c. */
  lemma {:induction false} RhsTermIsIndexValue(q: nat, v: int, rh: seq<int>, c: int, L: nat, i: nat)
    requires q > 0 && |rh| == L + 1
    ensures RhsTerm(q, ResponseHidden(c, v, rh, L), c, L, i) % q == IndexValue(q, v, rh, L, i, c) % q
  {
    var z := ResponseHidden(c, v, rh, L);
    BinaryReprValue(i, L + 1);
    var bits := BinaryRepr(i, L + 1);
    var f := RhsFactors(z, c, bits, L + 1);
    var e := FactorValues(q, v, rh, bits, L + 1, c);
    forall j | 0 <= j < L + 1
      ensures Poly.Reduce(f[j], q) == Poly.Reduce(e[j], q)
    {
      RhsFactorCongruent(q, v, rh, c, L, bits, j);
    }
    Poly.ListProductCongruent(f, e, q);
    Poly.ReduceMulCongruent(f, q);
  }

  /** `product_rhs` is the hidden polynomial evaluated at the challenge,
    * modulo the order, when the responses are honest. */
  lemma {:induction false} ProductRhsIsHiddenValue(q: nat, v: int, rh: seq<int>, c: int, a: seq<int>, L: nat)
    requires q > 0 && |rh| == L + 1
    ensures ProductRhs(q, ResponseHidden(c, v, rh, L), c, a, L) % q
         == Poly.EvalSum(Hidden(q, v, rh, a, L).coefficients, c) % q
  {
    var z := ResponseHidden(c, v, rh, L);
    var terms := RhsTerms(q, z, c, L, |a|);
    var vals := IndexValues(q, v, rh, L, |a|, c);
    forall i | 0 <= i < |a|
      ensures terms[i] % q == vals[i] % q
    {
      RhsTermIsIndexValue(q, v, rh, c, L, i);
    }
    DotCongruent(terms, vals, a, |a|, q);
    HiddenEvaluates(q, v, rh, a, L, c);
  }

  // ---------------------------------------------------------------------
  // The deltas: coefficients of the hidden polynomial below the top one
  // ---------------------------------------------------------------------

  /** `final_poly.coefficients[:-1]`, as the constructor computes the
    * deltas: the trimmed coefficient list without its last entry. */
  function DeltasAsWritten(h: seq<int>): (d: seq<int>)
    requires |h| > 0
    ensures |d| == |h| - 1
  {
    h[..|h| - 1]
  }

  /** The coefficients of X^0 .. X^L, read as zero past the end of the
    * trimmed list: the L + 1 deltas the verifier expects. */
  function Deltas(h: seq<int>, L: nat): (d: seq<int>)
    ensures |d| == L + 1
  {
    seq(L + 1, k requires 0 <= k < L + 1 => Poly.Entry(h, k))
  }

  /** A polynomial of degree at most L + 1 is its deltas plus its top
    * coefficient times X^(L+1). */
  lemma {:induction false} DeltasSplit(h: seq<int>, L: nat, x: int)
    requires |h| <= L + 2
    ensures Poly.EvalSum(h, x) == Poly.EvalSum(Deltas(h, L), x) + Poly.Entry(h, L + 1) * Pow(x, L + 1)
  {
    var p := Padded(h, L + 2);
    PaddedEvaluates(h, L + 2, x);
    assert |p| == L + 2;
    assert p[..L + 1] == Deltas(h, L);
    assert p[L + 1] == Poly.Entry(h, L + 1);
  }

  /** The hidden polynomial is trimmed: its last coefficient is non-zero
    * unless it is the only one. */
  lemma HiddenTrimmed(q: nat, v: int, rh: seq<int>, a: seq<int>, L: nat)
    requires q > 0 && |rh| == L + 1
    ensures var h := Hidden(q, v, rh, a, L).coefficients;
      |h| == 1 || h[|h| - 1] != 0
  {
    if |a| == 0 {
      HiddenSumEmpty(IndexPolynomials(q, v, rh, L, 0), a, q);
    }
  }

  /** When P(v) is not 0 modulo the order, the hidden polynomial has exactly
    * L + 2 coefficients and dropping the last one leaves the deltas. */
  lemma {:induction false} DeltasAsWrittenAgree(q: nat, v: int, rh: seq<int>, a: seq<int>, L: nat)
    requires q > 0 && |rh| == L + 1 && |a| <= Pow2(L + 1)
    requires Poly.EvalSum(a, v) % q != 0
    ensures var h := Hidden(q, v, rh, a, L).coefficients;
      DeltasAsWritten(h) == Deltas(h, L)
  {
    var h := Hidden(q, v, rh, a, L).coefficients;
    HiddenTop(q, v, rh, a, L);
    assert |h| == L + 2;
    assert DeltasAsWritten(h) == h[..L + 1];
  }

  /** When P(v) is 0 modulo the order, the top coefficient is trimmed away
    * and `coefficients[:-1]` also drops a real delta: fewer than L + 1
    * deltas remain. */
  lemma {:induction false} DeltasAsWrittenShort(q: nat, v: int, rh: seq<int>, a: seq<int>, L: nat)
    requires q > 0 && |rh| == L + 1 && |a| <= Pow2(L + 1)
    requires Poly.EvalSum(a, v) % q == 0
    ensures |DeltasAsWritten(Hidden(q, v, rh, a, L).coefficients)| < L + 1
  {
    var h := Hidden(q, v, rh, a, L).coefficients;
    HiddenTop(q, v, rh, a, L);
    HiddenTrimmed(q, v, rh, a, L);
    TrimmedTopZero(h, L + 1);
  }

  /** A trimmed list of at most k + 1 entries whose entry k is zero has at
    * most k entries. */
  lemma TrimmedTopZero(h: seq<int>, k: nat)
    requires k >= 1 && 0 < |h| <= k + 1 && (|h| == 1 || h[|h| - 1] != 0)
    requires Poly.Entry(h, k) == 0
    ensures |h| <= k
  {
  }

  /** c.mod_pow(k, order) for k = 0 .. n - 1. */
  function ChallengePowers(c: int, order: int, n: nat): (e: seq<int>)
    requires order > 0
    ensures |e| == n
  {
    seq(n, k requires 0 <= k < n => Pow(c, k) % order)
  }

  /** Weighting by the reduced powers of c evaluates at c, modulo the order. */
  lemma {:induction false} DotPowers(d: seq<int>, c: int, q: int, m: nat, n: nat)
    requires q > 0 && n <= m && n <= |d|
    ensures Dot(d, ChallengePowers(c, q, m), n) % q == Poly.EvalSum(d[..n], c) % q
  {
    if n > 0 {
      DotPowers(d, c, q, m, n - 1);
      var e := ChallengePowers(c, q, m);
      assert d[..n][..n - 1] == d[..n - 1];
      assert Poly.EvalSum(d[..n], c) == Poly.EvalSum(d[..n - 1], c) + d[n - 1] * Pow(c, n - 1);
      ModMulRight(q, d[n - 1], Pow(c, n - 1));
      Poly.ReduceSum(q, Dot(d, e, n - 1), Poly.EvalSum(d[..n - 1], c), d[n - 1] * e[n - 1], d[n - 1] * Pow(c, n - 1));
    }
  }

  // ---------------------------------------------------------------------
  // The proof and its construction
  // ---------------------------------------------------------------------

  /** The prover's `order.random()` draws, list by list. */
  datatype PolyEvalCoins = PolyEvalCoins(
    commitments: seq<int>,                 // random_commitments, one per squaring
    commitmentsHidden: seq<int>,           // random_commitments_hidden
    hidden: seq<int>,                      // random_hidden
    commitmentsDeltas: seq<int>,           // random_commitments_deltas
    commitmentsExponentiations: seq<int>)  // random_commitments_exponantiations

  predicate Draws(q: int, s: seq<int>)
  {
    forall i :: 0 <= i < |s| ==> 0 <= s[i] < q
  }

  /** Every draw is in [0, order), and every list has the length the
    * constructor draws for bit length L. */
  predicate ValidCoins(q: int, L: nat, coins: PolyEvalCoins)
  {
    && |coins.commitments| == L && |coins.commitmentsHidden| == L + 1 && |coins.hidden| == L + 1
    && |coins.commitmentsDeltas| == L + 1 && |coins.commitmentsExponentiations| == L
    && Draws(q, coins.commitments) && Draws(q, coins.commitmentsHidden) && Draws(q, coins.hidden)
    && Draws(q, coins.commitmentsDeltas) && Draws(q, coins.commitmentsExponentiations)
  }

  /** The fields of a PolynomialProof that `verify` reads. */
  datatype PolynomialProof = PolynomialProof(
    order: int,
    degree: nat,
    bitLength: nat,
    commitments: seq<Commitment>,
    commitmentsHidden: seq<Commitment>,
    commitmentsDeltas: seq<Commitment>,
    commitmentsExponentiations: seq<Commitment>,
    challenge: int,
    responseRandomHidden: seq<int>,
    responseRandomCommitments: seq<int>,
    responseRandomDeltas: int,
    responseRandomExponentiations: seq<int>)

  function Min(a: int, b: int): int
  {
    if a <= b then a else b
  }

  /** `[com_pk.commit([x], r) for x, r in zip(xs, rs)]` */
  function CommitPairs(pk: PublicKey, xs: seq<int>, rs: seq<int>): (cs: seq<Commitment>)
    requires pk.Valid() && pk.n == 1
    ensures |cs| == Min(|xs|, |rs|)
    ensures forall i :: 0 <= i < |cs| ==> cs[i] == CommitValue(pk, [xs[i]], rs[i])
  {
    seq(Min(|xs|, |rs|), i requires 0 <= i < Min(|xs|, |rs|) => CommitValue(pk, [xs[i]], rs[i]))
  }

  /** The transcript entries of a list of commitments. */
  function Exports(cs: seq<Commitment>): (items: seq<Item>)
    ensures |items| == |cs|
  {
    seq(|cs|, i requires 0 <= i < |cs| => Export(cs[i]))
  }

  /** `self.commitments`: the commitment to the point, then commitments to
    * v^(2^i) mod order for i = 1 .. L. */
  function PointCommitments(pk: PublicKey, L: nat, C0: Commitment, v: int, rs: seq<int>): (cs: seq<Commitment>)
    requires pk.Valid() && pk.n == 1 && |rs| == L
    ensures |cs| == L + 1 && cs[0] == C0
    ensures forall i :: 0 <= i < L ==> cs[i + 1] == CommitValue(pk, [SquarePower(pk.order, v, i + 1)], rs[i])
  {
    [C0] + seq(L, i requires 0 <= i < L => CommitValue(pk, [SquarePower(pk.order, v, i + 1)], rs[i]))
  }

  /** `self.commitments_exponantiations`: commitments to rh_i v^(2^i). */
  function ExpCommitments(pk: PublicKey, L: nat, v: int, hidden: seq<int>, rs: seq<int>): (cs: seq<Commitment>)
    requires pk.Valid() && pk.n == 1 && |hidden| >= L && |rs| == L
    ensures |cs| == L
  {
    seq(L, i requires 0 <= i < L => CommitValue(pk, [hidden[i] * Pow(v, Pow2(i))], rs[i]))
  }

  /** What the challenge hashes: commitments, delta commitments,
    * exponentiation commitments and hidden commitments, in that order. */
  function Transcript(pk: PublicKey, L: nat, C0: Commitment, v: int, coins: PolyEvalCoins, deltas: seq<int>): seq<Item>
    requires pk.Valid() && pk.n == 1 && ValidCoins(pk.order, L, coins)
  {
    Exports(PointCommitments(pk, L, C0, v, coins.commitments)
            + CommitPairs(pk, deltas, coins.commitmentsDeltas)
            + ExpCommitments(pk, L, v, coins.hidden, coins.commitmentsExponentiations)
            + CommitPairs(pk, coins.hidden, coins.commitmentsHidden))
  }

  /** The constructor's fields once the challenge c is known. */
  function Respond(pk: PublicKey, L: nat, degree: nat, C0: Commitment, v: int,
                   rTo: int, rEval: int, coins: PolyEvalCoins, deltas: seq<int>, c: int): (p: PolynomialProof)
    requires pk.Valid() && pk.n == 1 && ValidCoins(pk.order, L, coins)
    ensures p.order == pk.order && p.degree == degree && p.bitLength == L && p.challenge == c
    ensures |p.commitments| == L + 1 && |p.commitmentsHidden| == L + 1
    ensures |p.commitmentsDeltas| == Min(|deltas|, L + 1) && |p.commitmentsExponentiations| == L
    ensures |p.responseRandomHidden| == L + 1 && |p.responseRandomCommitments| == L + 1
    ensures |p.responseRandomExponentiations| == L
  {
    var q := pk.order;
    var rc := [rTo] + coins.commitments;
    var z := ResponseHidden(c, v, coins.hidden, L);
    PolynomialProof(
      q, degree, L,
      PointCommitments(pk, L, C0, v, coins.commitments),
      CommitPairs(pk, coins.hidden, coins.commitmentsHidden),
      CommitPairs(pk, deltas, coins.commitmentsDeltas),
      ExpCommitments(pk, L, v, coins.hidden, coins.commitmentsExponentiations),
      c, z,
      seq(L + 1, i requires 0 <= i < L + 1 => c * rc[i] + coins.commitmentsHidden[i]),
      (Pow(c, L + 1) % q) * rEval + Dot(coins.commitmentsDeltas, ChallengePowers(c, q, L + 1), L + 1),
      seq(L, i requires 0 <= i < L => c * rc[i + 1] - z[i] * rc[i] + coins.commitmentsExponentiations[i]))
  }

  /** The constructor's fields, for bit length L and the given deltas: the
    * challenge is the hash of the transcript. */
  function Assemble(pk: PublicKey, H: Digest, L: nat, degree: nat, C0: Commitment, v: int,
                    rTo: int, rEval: int, coins: PolyEvalCoins, deltas: seq<int>): (p: PolynomialProof)
    requires pk.Valid() && pk.n == 1 && ValidCoins(pk.order, L, coins)
    ensures p.order == pk.order && p.degree == degree && p.bitLength == L
    ensures |p.commitments| == L + 1 && |p.commitmentsHidden| == L + 1
    ensures |p.commitmentsDeltas| == Min(|deltas|, L + 1) && |p.commitmentsExponentiations| == L
    ensures |p.responseRandomHidden| == L + 1 && |p.responseRandomCommitments| == L + 1
    ensures |p.responseRandomExponentiations| == L
    ensures 0 <= p.challenge < pk.order
  {
    Respond(pk, L, degree, C0, v, rTo, rEval, coins, deltas,
            Challenge(H, Transcript(pk, L, C0, v, coins, deltas), pk.order))
  }

  /** `PolynomialProof(com_pk, polynomial_list, commitment_to_eval, ...)`
    * with the deltas read off the hidden polynomial as L + 1 coefficients.
    * `value_eval` and `commitment_eval` are not used by the constructor. */
  function MakeProof(pk: PublicKey, H: Digest, list: seq<int>, C0: Commitment, v: int,
                     rTo: int, rEval: int, coins: PolyEvalCoins): (p: PolynomialProof)
    requires pk.Valid() && pk.n == 1 && |list| >= 2 && ValidCoins(pk.order, BitLength(|list|), coins)
    ensures p.bitLength == BitLength(|list|) && p.degree == PaddedDegree(|list|)
    ensures p.order == pk.order && WellFormed(p)
  {
    var L := BitLength(|list|);
    var a := Padded(list, PaddedDegree(|list|));
    var h := Hidden(pk.order, v, coins.hidden, a, L).coefficients;
    Assemble(pk, H, L, PaddedDegree(|list|), C0, v, rTo, rEval, coins, Deltas(h, L))
  }

  /** The constructor as written: the deltas are `coefficients[:-1]`. */
  function MakeProofAsWritten(pk: PublicKey, H: Digest, list: seq<int>, C0: Commitment, v: int,
                              rTo: int, rEval: int, coins: PolyEvalCoins): (p: PolynomialProof)
    requires pk.Valid() && pk.n == 1 && |list| >= 2 && ValidCoins(pk.order, BitLength(|list|), coins)
    ensures p.bitLength == BitLength(|list|) && p.degree == PaddedDegree(|list|)
  {
    var L := BitLength(|list|);
    var a := Padded(list, PaddedDegree(|list|));
    var h := Hidden(pk.order, v, coins.hidden, a, L).coefficients;
    Assemble(pk, H, L, PaddedDegree(|list|), C0, v, rTo, rEval, coins, DeltasAsWritten(h))
  }

  /** The constructor: pads the caller's list in place, runs
    * `hidden_polynomial_computation` and fills in the fields. */
  method Prove(pk: PublicKey, H: Digest, list: CoefficientList, C0: Commitment, v: int,
               rTo: int, rEval: int, coins: PolyEvalCoins) returns (p: PolynomialProof)
    requires pk.Valid() && pk.n == 1 && |list.items| >= 2
    requires ValidCoins(pk.order, BitLength(|list.items|), coins)
    modifies list
    ensures list.items == Padded(old(list.items), PaddedDegree(|old(list.items)|))
    ensures p == MakeProof(pk, H, old(list.items), C0, v, rTo, rEval, coins)
  {
    var L := BitLength(|list.items|);
    var degree := PaddedDegree(|list.items|);
    list.PadTo(degree);
    var finalPoly := HiddenPolynomial(pk.order, v, coins.hidden, list.items, L);
    p := Assemble(pk, H, L, degree, C0, v, rTo, rEval, coins, Deltas(finalPoly.coefficients, L));
  }

  // ---------------------------------------------------------------------
  // verify
  // ---------------------------------------------------------------------

  /** The exception `verify` raises when a list of the proof is too short. */
  datatype VerifyError = IndexError

  /** Every index `verify` reads is in range. */
  predicate WellFormed(p: PolynomialProof)
  {
    var L := p.bitLength;
    && |p.commitments| >= L + 1 && |p.commitmentsHidden| >= L + 1
    && |p.responseRandomHidden| >= L + 1 && |p.responseRandomCommitments| >= L + 1
    && |p.commitmentsExponentiations| >= L && |p.responseRandomExponentiations| >= L
    && |p.commitmentsDeltas| >= L + 1
  }

  /** check1[i]: `commitments[i] ** c * commitments_hidden[i] ==
    * commit([response_random_hidden[i]], response_random_commitments[i])` */
  predicate Check1(pk: PublicKey, p: PolynomialProof, i: nat): (ok: bool)
    requires pk.Valid() && pk.n == 1 && WellFormed(p) && i <= p.bitLength
    ensures
      var q, g, h := pk.order, pk.generators[0], pk.generators[1];
      ok <==> (p.challenge * p.commitments[i].commitment + p.commitmentsHidden[i].commitment) % q
              == Lin(q, g, h, p.responseRandomHidden[i], p.responseRandomCommitments[i])
  {
    var q := pk.order;
    ModAddLeft(q, p.challenge * p.commitments[i].commitment, p.commitmentsHidden[i].commitment);
    CommitOneValue(pk, p.responseRandomHidden[i], p.responseRandomCommitments[i]);
    Mul(q, Power(q, p.commitments[i], p.challenge), p.commitmentsHidden[i])
      == CommitValue(pk, [p.responseRandomHidden[i]], p.responseRandomCommitments[i])
  }

  /** check2[i]: `commitments[i + 1] ** c * commitments[i] ** (-z_i) *
    * commitments_exponantiations[i] == commit([0], response_random_exponantiations[i])` */
  predicate Check2(pk: PublicKey, p: PolynomialProof, i: nat): (ok: bool)
    requires pk.Valid() && pk.n == 1 && WellFormed(p) && i < p.bitLength
    ensures
      var q, g, h := pk.order, pk.generators[0], pk.generators[1];
      var c, z := p.challenge, p.responseRandomHidden[i];
      ok <==> (c * p.commitments[i + 1].commitment + (-z) * p.commitments[i].commitment
               + p.commitmentsExponentiations[i].commitment) % q
              == Lin(q, g, h, 0, p.responseRandomExponentiations[i])
  {
    var q := pk.order;
    ResidueOfThree(q, p.challenge * p.commitments[i + 1].commitment,
                   (-p.responseRandomHidden[i]) * p.commitments[i].commitment,
                   p.commitmentsExponentiations[i].commitment);
    CommitOneValue(pk, 0, p.responseRandomExponentiations[i]);
    Mul(q, Mul(q, Power(q, p.commitments[i + 1], p.challenge),
                  Power(q, p.commitments[i], -p.responseRandomHidden[i])),
           p.commitmentsExponentiations[i])
      == CommitValue(pk, [0], p.responseRandomExponentiations[i])
  }

  /** `product_lhs`: the product of `commitments_deltas[i] ** c.mod_pow(i,
    * order)` for i < n, folded from the left. */
  function ProductLhs(q: int, ds: seq<Commitment>, c: int, order: int, n: nat): (lhs: Commitment)
    requires q > 0 && order > 0 && 1 <= n <= |ds|
    ensures lhs.commitment == Dot(Elements(ds), ChallengePowers(c, order, |ds|), n) % q
  {
    var E := ChallengePowers(c, order, |ds|);
    var term := Power(q, ds[n - 1], Pow(c, n - 1) % order);
    var prev := Dot(Elements(ds), E, n - 1);
    ProductLhsStep(q, prev, ds[n - 1].commitment, E[n - 1]);
    if n == 1 then
      term
    else
      Mul(q, ProductLhs(q, ds, c, order, n - 1), term)
  }

  /** One factor of `product_lhs`: (prev mod q) + (e d mod q) is prev + d e,
    * modulo q. */
  lemma {:induction false} ProductLhsStep(q: int, prev: int, d: int, e: int)
    requires q > 0
    ensures (e * d) % q == (0 + d * e) % q
    ensures (prev % q + (e * d) % q) % q == (prev + d * e) % q
  {
    assert e * d == d * e;
    ModAddLeft(q, prev, (e * d) % q);
    ModAddLeft(q, d * e, prev);
  }

  /** Three group elements combined in two steps are the residue of their
    * sum. */
  lemma {:induction false} ResidueOfThree(q: int, a: int, b: int, x: int)
    requires q > 0
    ensures ((a % q + b % q) % q + x) % q == (a + b + x) % q
  {
    var s := a + b;
    SumOfTwoResidues(q, a, b);
    ModAddLeft(q, s, x);
  }

  lemma {:induction false} SumOfTwoResidues(q: int, a: int, b: int)
    requires q > 0
    ensures (a % q + b % q) % q == (a + b) % q
  {
    ModAddLeft(q, a, b % q);
    ModAddLeft(q, b, a);
  }

  /** The group elements of a list of commitments. */
  function Elements(cs: seq<Commitment>): (xs: seq<int>)
    ensures |xs| == |cs|
    ensures forall k :: 0 <= k < |cs| ==> xs[k] == cs[k].commitment
  {
    seq(|cs|, k requires 0 <= k < |cs| => cs[k].commitment)
  }

  /** check3: `commitment_eval ** c.mod_pow(L + 1, order) * product_lhs ==
    * commit([product_rhs], response_random_deltas)` */
  predicate Check3(pk: PublicKey, p: PolynomialProof, a: seq<int>, Ceval: Commitment): (ok: bool)
    requires pk.Valid() && pk.n == 1 && WellFormed(p) && p.order > 0
    ensures
      var q, g, h, L := pk.order, pk.generators[0], pk.generators[1], p.bitLength;
      var E := ChallengePowers(p.challenge, p.order, |p.commitmentsDeltas|);
      ok <==> ((Pow(p.challenge, L + 1) % p.order) * Ceval.commitment + Dot(Elements(p.commitmentsDeltas), E, L + 1)) % q
              == Lin(q, g, h, ProductRhs(p.order, p.responseRandomHidden, p.challenge, a, L), p.responseRandomDeltas)
  {
    var q := pk.order;
    var L := p.bitLength;
    SumOfTwoResidues(q, (Pow(p.challenge, L + 1) % p.order) * Ceval.commitment,
                     Dot(Elements(p.commitmentsDeltas), ChallengePowers(p.challenge, p.order, |p.commitmentsDeltas|), L + 1));
    CommitOneValue(pk, ProductRhs(p.order, p.responseRandomHidden, p.challenge, a, L), p.responseRandomDeltas);
    Mul(q, Power(q, Ceval, Pow(p.challenge, L + 1) % p.order),
           ProductLhs(q, p.commitmentsDeltas, p.challenge, p.order, L + 1))
      == CommitValue(pk, [ProductRhs(p.order, p.responseRandomHidden, p.challenge, a, L)], p.responseRandomDeltas)
  }

  /** What `verify` returns for the padded list a: `IndexError` when a list
    * of the proof is too short, and otherwise `all(check1) and all(check2)
    * and check3`.  The commitment to the evaluation point is not an input:
    * `verify` receives `commitment_to_eval` but reads `commitments[0]`. */
  function Verdict(pk: PublicKey, p: PolynomialProof, a: seq<int>, Ceval: Commitment): (r: Result<bool, VerifyError>)
    requires pk.Valid() && pk.n == 1 && p.order > 0
    ensures r.Err? <==> !WellFormed(p)
    ensures r == Ok(true) ==> Check3(pk, p, a, Ceval)
    ensures r == Ok(true) ==> forall i :: 0 <= i <= p.bitLength ==> Check1(pk, p, i)
    ensures r == Ok(true) ==> forall i :: 0 <= i < p.bitLength ==> Check2(pk, p, i)
  {
    if !WellFormed(p) then Err(IndexError)
    else Ok((forall i :: 0 <= i <= p.bitLength ==> Check1(pk, p, i))
            && (forall i :: 0 <= i < p.bitLength ==> Check2(pk, p, i))
            && Check3(pk, p, a, Ceval))
  }

  /** `verify(com_pk, polynomial_list, commitment_to_eval, commitment_eval)`:
    * pads the caller's list to the proof's degree, then evaluates the
    * checks. */
  method Verify(pk: PublicKey, p: PolynomialProof, list: CoefficientList,
                commitmentToEval: Commitment, Ceval: Commitment) returns (r: Result<bool, VerifyError>)
    requires pk.Valid() && pk.n == 1 && p.order > 0
    modifies list
    ensures list.items == Padded(old(list.items), p.degree)
    ensures r == Verdict(pk, p, list.items, Ceval)
  {
    list.PadTo(p.degree);
    if !WellFormed(p) {
      return Err(IndexError);
    }
    var q := pk.order;
    var L := p.bitLength;
    var check1 := forall i :: 0 <= i <= L ==> Check1(pk, p, i);
    var check2 := forall i :: 0 <= i < L ==> Check2(pk, p, i);
    var productLhs := ProductLhs(q, p.commitmentsDeltas, p.challenge, p.order, L + 1);
    var productRhs := ProductRhsCalculation(p.order, p.responseRandomHidden, p.challenge, list.items, L);
    var check3 := Mul(q, Power(q, Ceval, Pow(p.challenge, L + 1) % p.order), productLhs)
      == CommitValue(pk, [productRhs], p.responseRandomDeltas);
    r := Ok(check1 && check2 && check3);
  }

  // ---------------------------------------------------------------------
  // The deltas as written
  // ---------------------------------------------------------------------

  /** When P(v) is 0 modulo the order, the proof the constructor builds
    * carries fewer than L + 1 delta commitments, and `verify` raises
    * `IndexError` in `product_lhs` whatever the other inputs. */
  lemma {:induction false} AsWrittenRaises(pk: PublicKey, H: Digest, list: seq<int>, C0: Commitment, v: int,
                                           rTo: int, rEval: int, coins: PolyEvalCoins, a: seq<int>, Ceval: Commitment)
    requires pk.Valid() && pk.n == 1 && |list| >= 2 && ValidCoins(pk.order, BitLength(|list|), coins)
    requires Poly.EvalSum(list, v) % pk.order == 0
    ensures Verdict(pk, MakeProofAsWritten(pk, H, list, C0, v, rTo, rEval, coins), a, Ceval) == Err(IndexError)
  {
    var L := BitLength(|list|);
    var padded := Padded(list, PaddedDegree(|list|));
    PaddedLengthBound(list);
    PaddedEvaluates(list, PaddedDegree(|list|), v);
    DeltasAsWrittenShort(pk.order, v, coins.hidden, padded, L);
  }

  /** When P(v) is not 0 modulo the order, the constructor as written
    * builds the same proof as MakeProof. */
  lemma {:induction false} AsWrittenAgrees(pk: PublicKey, H: Digest, list: seq<int>, C0: Commitment, v: int,
                                           rTo: int, rEval: int, coins: PolyEvalCoins)
    requires pk.Valid() && pk.n == 1 && |list| >= 2 && ValidCoins(pk.order, BitLength(|list|), coins)
    requires Poly.EvalSum(list, v) % pk.order != 0
    ensures MakeProofAsWritten(pk, H, list, C0, v, rTo, rEval, coins) == MakeProof(pk, H, list, C0, v, rTo, rEval, coins)
  {
    var L := BitLength(|list|);
    var padded := Padded(list, PaddedDegree(|list|));
    PaddedLengthBound(list);
    PaddedEvaluates(list, PaddedDegree(|list|), v);
    DeltasAsWrittenAgree(pk.order, v, coins.hidden, padded, L);
  }

  // ---------------------------------------------------------------------
  // Completeness
  // ---------------------------------------------------------------------

  /** The commitment c opens to value x under randomizer r: it is
    * g^x h^r in the group. */
  predicate Opens(pk: PublicKey, c: Commitment, x: int, r: int)
    requires pk.Valid() && pk.n == 1
  {
    c.commitment == Lin(pk.order, pk.generators[0], pk.generators[1], x, r)
  }

  lemma {:induction false} AffineCongruent(q: int, c: int, x: int, y: int, r: int)
    requires q > 0 && x % q == y % q
    ensures (c * x + r) % q == (c * y + r) % q
  {
    ModMulRight(q, c, x);
    ModMulRight(q, c, y);
    ModAddLeft(q, c * x, r);
    ModAddLeft(q, c * y, r);
  }

  /** check1[i] holds when commitments[i] opens to a value congruent to
    * V = v^(2^i) and the responses are c V + rh and c r + rch. */
  lemma {:induction false} Check1Honest(pk: PublicKey, p: PolynomialProof, i: nat,
                                        x: int, V: int, rc: int, rh: int, rch: int)
    requires pk.Valid() && pk.n == 1 && WellFormed(p) && i <= p.bitLength
    requires Opens(pk, p.commitments[i], x, rc) && x % pk.order == V % pk.order
    requires Opens(pk, p.commitmentsHidden[i], rh, rch)
    requires p.responseRandomHidden[i] == p.challenge * V + rh
    requires p.responseRandomCommitments[i] == p.challenge * rc + rch
    ensures Check1(pk, p, i)
  {
    var q, g, h, c := pk.order, pk.generators[0], pk.generators[1], p.challenge;
    CommitOneValue(pk, c * V + rh, c * rc + rch);
    LinScale(q, g, h, c, x, rc);
    LinOp(q, g, h, c * x, c * rc, rh, rch);
    AffineCongruent(q, c, x, V, rh);
    LinReduce(q, g, h, c * x + rh, c * rc + rch, c * V + rh, c * rc + rch);
  }

  lemma {:induction false} Check2Algebra(q: int, c: int, x1: int, x0: int, W: int, rh: int, z: int)
    requires q > 0 && x1 % q == (W * W) % q && x0 % q == W % q && z == c * W + rh
    ensures (c * x1 + (-z) * x0 + rh * W) % q == 0 % q
  {
    ModMulRight(q, c, x1);
    ModMulRight(q, c, W * W);
    ModMulRight(q, -z, x0);
    ModMulRight(q, -z, W);
    Poly.ReduceSum(q, c * x1, c * (W * W), (-z) * x0, (-z) * W);
    Poly.ReduceSum(q, c * x1 + (-z) * x0, c * (W * W) + (-z) * W, rh * W, rh * W);
    assert (-z) * W == -(c * (W * W)) - rh * W by {
      assert z * W == (c * W) * W + rh * W;
      assert (c * W) * W == c * (W * W);
    }
  }

  /** check2[i] holds when commitments[i + 1] opens to a value congruent to
    * W^2, commitments[i] to one congruent to W, the exponentiation
    * commitment to rh W, and the responses are honest. */
  lemma {:induction false} Check2Honest(pk: PublicKey, p: PolynomialProof, i: nat,
                                        x1: int, r1: int, x0: int, r0: int, W: int, rh: int, re: int)
    requires pk.Valid() && pk.n == 1 && WellFormed(p) && i < p.bitLength
    requires Opens(pk, p.commitments[i + 1], x1, r1) && x1 % pk.order == (W * W) % pk.order
    requires Opens(pk, p.commitments[i], x0, r0) && x0 % pk.order == W % pk.order
    requires Opens(pk, p.commitmentsExponentiations[i], rh * W, re)
    requires p.responseRandomHidden[i] == p.challenge * W + rh
    requires p.responseRandomExponentiations[i] == p.challenge * r1 - p.responseRandomHidden[i] * r0 + re
    ensures Check2(pk, p, i)
  {
    var q, g, h, c := pk.order, pk.generators[0], pk.generators[1], p.challenge;
    var z := p.responseRandomHidden[i];
    var ze := p.responseRandomExponentiations[i];
    CommitOneValue(pk, 0, ze);
    LinScale(q, g, h, c, x1, r1);
    LinScale(q, g, h, -z, x0, r0);
    LinOp(q, g, h, c * x1, c * r1, (-z) * x0, (-z) * r0);
    LinOp(q, g, h, c * x1 + (-z) * x0, c * r1 + (-z) * r0, rh * W, re);
    Check2Algebra(q, c, x1, x0, W, rh, z);
    assert c * r1 + (-z) * r0 + re == ze;
    LinReduce(q, g, h, c * x1 + (-z) * x0 + rh * W, c * r1 + (-z) * r0 + re, 0, ze);
  }

  /** `product_lhs` over commitments to (x_k, r_k) is the commitment to the
    * sums of x_k and r_k weighted by c^k mod order. */
  lemma {:induction false} ProductLhsOpens(pk: PublicKey, ds: seq<Commitment>, xs: seq<int>, rs: seq<int>,
                                           c: int, m: nat, n: nat)
    requires pk.Valid() && pk.n == 1 && 1 <= n <= m && n <= |ds| && n <= |xs| && n <= |rs|
    requires forall k :: 0 <= k < n ==> Opens(pk, ds[k], xs[k], rs[k])
    ensures var E := ChallengePowers(c, pk.order, m);
      ProductLhs(pk.order, ds, c, pk.order, n).commitment
        == Lin(pk.order, pk.generators[0], pk.generators[1], Dot(xs, E, n), Dot(rs, E, n))
  {
    var q, g, h := pk.order, pk.generators[0], pk.generators[1];
    var E := ChallengePowers(c, q, m);
    var e := E[n - 1];
    LinScale(q, g, h, e, xs[n - 1], rs[n - 1]);
    assert e * xs[n - 1] == xs[n - 1] * e && e * rs[n - 1] == rs[n - 1] * e;
    if n > 1 {
      ProductLhsOpens(pk, ds, xs, rs, c, m, n - 1);
      LinOp(q, g, h, Dot(xs, E, n - 1), Dot(rs, E, n - 1), xs[n - 1] * e, rs[n - 1] * e);
    }
  }

  /** The equation of check3 on values: C y + dotD is congruent to rhs,
    * with C reduced first. */
  predicate Check3Equation(q: int, C: int, y: int, dotD: int, rhs: int)
    requires q > 0
  {
    ((C % q) * y + dotD) % q == rhs % q
  }

  lemma {:induction false} Check3Algebra(q: int, C: int, y: int, P: int, T: int, dotD: int, evD: int, rhs: int, evH: int)
    requires q > 0 && y % q == P % q && T == P % q && dotD % q == evD % q
    requires evH == evD + T * C && rhs % q == evH % q
    ensures Check3Equation(q, C, y, dotD, rhs)
  {
    ModMulLeft(q, C, y);
    ModMulRight(q, C, y);
    ModMulRight(q, C, P);
    assert T * C == C * (P % q);
    Poly.ReduceSum(q, (C % q) * y, T * C, dotD, evD);
  }

  /** The value side of check3: c^(L+1) y plus the deltas weighted by
    * c^k mod order is congruent to rhs. */
  predicate Balanced(q: int, c: int, L: nat, y: int, deltas: seq<int>, rhs: int)
    requires q > 0 && |deltas| == L + 1
  {
    Check3Equation(q, Pow(c, L + 1), y, Dot(deltas, ChallengePowers(c, q, L + 1), L + 1), rhs)
  }

  /** check3 holds when commitment_eval opens to (y, r_eval), the delta
    * commitments open to (deltas_k, rcd_k), `response_random_deltas` is
    * honest and the values agree modulo the order. */
  lemma {:induction false} Check3Honest(pk: PublicKey, p: PolynomialProof, a: seq<int>, Ceval: Commitment,
                                        y: int, rEval: int, deltas: seq<int>, rcd: seq<int>)
    requires pk.Valid() && pk.n == 1 && WellFormed(p) && p.order == pk.order
    requires |deltas| == p.bitLength + 1 && |rcd| == p.bitLength + 1
    requires Ceval == CommitValue(pk, [y], rEval)
    requires forall k :: 0 <= k < p.bitLength + 1 ==> Opens(pk, p.commitmentsDeltas[k], deltas[k], rcd[k])
    requires var E := ChallengePowers(p.challenge, pk.order, p.bitLength + 1);
      p.responseRandomDeltas == (Pow(p.challenge, p.bitLength + 1) % pk.order) * rEval + Dot(rcd, E, p.bitLength + 1)
    requires Balanced(pk.order, p.challenge, p.bitLength, y, deltas,
                      ProductRhs(p.order, p.responseRandomHidden, p.challenge, a, p.bitLength))
    ensures Check3(pk, p, a, Ceval)
  {
    var q, g, h, c, L := pk.order, pk.generators[0], pk.generators[1], p.challenge, p.bitLength;
    var E := ChallengePowers(c, q, L + 1);
    var e := Pow(c, L + 1) % q;
    var rhs := ProductRhs(p.order, p.responseRandomHidden, c, a, L);
    CommitOneValue(pk, y, rEval);
    CommitOneValue(pk, rhs, p.responseRandomDeltas);
    LinScale(q, g, h, e, y, rEval);
    ProductLhsOpens(pk, p.commitmentsDeltas, deltas, rcd, c, L + 1, L + 1);
    LinOp(q, g, h, e * y, e * rEval, Dot(deltas, E, L + 1), Dot(rcd, E, L + 1));
    LinReduce(q, g, h, e * y + Dot(deltas, E, L + 1), e * rEval + Dot(rcd, E, L + 1), rhs, p.responseRandomDeltas);
  }

  /** The commitments of a proof the honest prover assembled:
    * commitments[i] opens to v^(2^i) (reduced for i > 0), the hidden,
    * delta and exponentiation commitments to the coins' values. */
  predicate HonestOpenings(pk: PublicKey, p: PolynomialProof, v: int, rTo: int, coins: PolyEvalCoins, deltas: seq<int>)
    requires pk.Valid() && pk.n == 1
  {
    var q, L := pk.order, p.bitLength;
    && ValidCoins(q, L, coins) && |deltas| == L + 1 && WellFormed(p)
    && Opens(pk, p.commitments[0], v, rTo)
    && (forall i :: 0 <= i < L ==> Opens(pk, p.commitments[i + 1], SquarePower(q, v, i + 1), coins.commitments[i]))
    && (forall i :: 0 <= i <= L ==> Opens(pk, p.commitmentsHidden[i], coins.hidden[i], coins.commitmentsHidden[i]))
    && (forall i :: 0 <= i <= L ==> Opens(pk, p.commitmentsDeltas[i], deltas[i], coins.commitmentsDeltas[i]))
    && (forall i :: 0 <= i < L ==>
          Opens(pk, p.commitmentsExponentiations[i], coins.hidden[i] * Pow(v, Pow2(i)),
                coins.commitmentsExponentiations[i]))
  }

  /** The responses of a proof the honest prover assembled, each formed
    * from the challenge as the constructor forms it. */
  predicate HonestResponses(pk: PublicKey, p: PolynomialProof, v: int, rTo: int, rEval: int, coins: PolyEvalCoins)
    requires pk.Valid() && pk.n == 1
  {
    var q, L, c := pk.order, p.bitLength, p.challenge;
    var rc := [rTo] + coins.commitments;
    && ValidCoins(q, L, coins) && WellFormed(p)
    && p.responseRandomHidden == ResponseHidden(c, v, coins.hidden, L)
    && (forall i :: 0 <= i <= L ==> p.responseRandomCommitments[i] == c * rc[i] + coins.commitmentsHidden[i])
    && p.responseRandomDeltas == (Pow(c, L + 1) % q) * rEval + Dot(coins.commitmentsDeltas, ChallengePowers(c, q, L + 1), L + 1)
    && (forall i :: 0 <= i < L ==>
          p.responseRandomExponentiations[i]
            == c * rc[i + 1] - p.responseRandomHidden[i] * rc[i] + coins.commitmentsExponentiations[i])
  }

  /** A proof the honest prover assembled, with the challenge left as it is. */
  predicate Honest(pk: PublicKey, p: PolynomialProof, v: int, rTo: int, rEval: int,
                   coins: PolyEvalCoins, deltas: seq<int>)
    requires pk.Valid() && pk.n == 1
  {
    && p.order == pk.order
    && HonestOpenings(pk, p, v, rTo, coins, deltas)
    && HonestResponses(pk, p, v, rTo, rEval, coins)
  }

  lemma {:induction false} RespondOpenings(pk: PublicKey, L: nat, degree: nat, v: int, rTo: int,
                                           rEval: int, coins: PolyEvalCoins, deltas: seq<int>, c: int)
    requires pk.Valid() && pk.n == 1 && ValidCoins(pk.order, L, coins) && |deltas| == L + 1
    ensures HonestOpenings(pk, Respond(pk, L, degree, CommitValue(pk, [v], rTo), v, rTo, rEval, coins, deltas, c),
                           v, rTo, coins, deltas)
  {
    var p := Respond(pk, L, degree, CommitValue(pk, [v], rTo), v, rTo, rEval, coins, deltas, c);
    var q := pk.order;
    CommitOneValue(pk, v, rTo);
    forall i | 0 <= i < L
      ensures Opens(pk, p.commitments[i + 1], SquarePower(q, v, i + 1), coins.commitments[i])
    {
      CommitOneValue(pk, SquarePower(q, v, i + 1), coins.commitments[i]);
    }
    forall i | 0 <= i <= L
      ensures Opens(pk, p.commitmentsHidden[i], coins.hidden[i], coins.commitmentsHidden[i])
      ensures Opens(pk, p.commitmentsDeltas[i], deltas[i], coins.commitmentsDeltas[i])
    {
      CommitOneValue(pk, coins.hidden[i], coins.commitmentsHidden[i]);
      CommitOneValue(pk, deltas[i], coins.commitmentsDeltas[i]);
    }
    forall i | 0 <= i < L
      ensures Opens(pk, p.commitmentsExponentiations[i], coins.hidden[i] * Pow(v, Pow2(i)),
                    coins.commitmentsExponentiations[i])
    {
      CommitOneValue(pk, coins.hidden[i] * Pow(v, Pow2(i)), coins.commitmentsExponentiations[i]);
    }
  }

  lemma {:induction false} RespondResponses(pk: PublicKey, L: nat, degree: nat, v: int, rTo: int,
                                            rEval: int, coins: PolyEvalCoins, deltas: seq<int>, c: int)
    requires pk.Valid() && pk.n == 1 && ValidCoins(pk.order, L, coins) && |deltas| == L + 1
    ensures HonestResponses(pk, Respond(pk, L, degree, CommitValue(pk, [v], rTo), v, rTo, rEval, coins, deltas, c),
                            v, rTo, rEval, coins)
  {
  }

  /** The constructor's fields are honest, whatever the challenge, when the
    * commitment to the point is the commitment to v under r_to. */
  lemma {:induction false} RespondHonest(pk: PublicKey, L: nat, degree: nat, v: int, rTo: int,
                                         rEval: int, coins: PolyEvalCoins, deltas: seq<int>, c: int)
    requires pk.Valid() && pk.n == 1 && ValidCoins(pk.order, L, coins) && |deltas| == L + 1
    ensures Honest(pk, Respond(pk, L, degree, CommitValue(pk, [v], rTo), v, rTo, rEval, coins, deltas, c),
                   v, rTo, rEval, coins, deltas)
  {
    RespondOpenings(pk, L, degree, v, rTo, rEval, coins, deltas, c);
    RespondResponses(pk, L, degree, v, rTo, rEval, coins, deltas, c);
  }

  /** check1[i] of an honest proof holds. */
  lemma {:induction false} HonestCheck1At(pk: PublicKey, p: PolynomialProof, v: int, rTo: int, rEval: int,
                                          coins: PolyEvalCoins, deltas: seq<int>, i: nat)
    requires pk.Valid() && pk.n == 1 && Honest(pk, p, v, rTo, rEval, coins, deltas) && i <= p.bitLength
    ensures Check1(pk, p, i)
  {
    var q := pk.order;
    var V := Pow(v, Pow2(i));
    if i == 0 {
      assert Pow2(0) == 1 && Pow(v, 1) == v * Pow(v, 0);
      Check1Honest(pk, p, 0, v, V, rTo, coins.hidden[0], coins.commitmentsHidden[0]);
    } else {
      ModIdempotent(q, V);
      assert Opens(pk, p.commitments[(i - 1) + 1], SquarePower(q, v, i), coins.commitments[i - 1]);
      Check1Honest(pk, p, i, SquarePower(q, v, i), V, coins.commitments[i - 1],
                   coins.hidden[i], coins.commitmentsHidden[i]);
    }
  }

  /** v^(2^(i+1)) is the square of v^(2^i). */
  lemma {:induction false} SquarePowerStep(q: int, v: int, i: nat)
    requires q > 0
    ensures SquarePower(q, v, i + 1) % q == (Pow(v, Pow2(i)) * Pow(v, Pow2(i))) % q
  {
    PowAdd(v, Pow2(i), Pow2(i));
    ModIdempotent(q, Pow(v, Pow2(i + 1)));
  }

  /** The openings check2[i] combines, read off an honest proof. */
  lemma {:induction false} HonestCheck2Openings(pk: PublicKey, p: PolynomialProof, v: int, rTo: int,
                                                coins: PolyEvalCoins, deltas: seq<int>, i: nat)
    requires pk.Valid() && pk.n == 1 && HonestOpenings(pk, p, v, rTo, coins, deltas) && i < p.bitLength
    ensures var q := pk.order;
      var rc := [rTo] + coins.commitments;
      && Opens(pk, p.commitments[i + 1], SquarePower(q, v, i + 1), rc[i + 1])
      && Opens(pk, p.commitments[i], if i == 0 then v else SquarePower(q, v, i), rc[i])
      && Opens(pk, p.commitmentsExponentiations[i], coins.hidden[i] * Pow(v, Pow2(i)), coins.commitmentsExponentiations[i])
  {
    if i > 0 {
      assert Opens(pk, p.commitments[(i - 1) + 1], SquarePower(pk.order, v, i), coins.commitments[i - 1]);
    }
  }

  /** The responses check2[i] combines, read off an honest proof. */
  lemma {:induction false} HonestCheck2Responses(pk: PublicKey, p: PolynomialProof, v: int, rTo: int, rEval: int,
                                                 coins: PolyEvalCoins, deltas: seq<int>, i: nat)
    requires pk.Valid() && pk.n == 1 && Honest(pk, p, v, rTo, rEval, coins, deltas) && i < p.bitLength
    ensures var rc := [rTo] + coins.commitments;
      && p.responseRandomHidden[i] == p.challenge * Pow(v, Pow2(i)) + coins.hidden[i]
      && p.responseRandomExponentiations[i]
           == p.challenge * rc[i + 1] - p.responseRandomHidden[i] * rc[i] + coins.commitmentsExponentiations[i]
  {
  }

  /** check2[i] of an honest proof holds. */
  lemma {:induction false} HonestCheck2At(pk: PublicKey, p: PolynomialProof, v: int, rTo: int, rEval: int,
                                          coins: PolyEvalCoins, deltas: seq<int>, i: nat)
    requires pk.Valid() && pk.n == 1 && Honest(pk, p, v, rTo, rEval, coins, deltas) && i < p.bitLength
    ensures Check2(pk, p, i)
  {
    var q := pk.order;
    var rc := [rTo] + coins.commitments;
    var x0 := if i == 0 then v else SquarePower(q, v, i);
    var W := Pow(v, Pow2(i));
    SquarePowerStep(q, v, i);
    if i == 0 {
      assert Pow2(0) == 1 && Pow(v, 1) == v * Pow(v, 0);
    } else {
      ModIdempotent(q, W);
    }
    HonestCheck2Openings(pk, p, v, rTo, coins, deltas, i);
    HonestCheck2Responses(pk, p, v, rTo, rEval, coins, deltas, i);
    Check2Honest(pk, p, i, SquarePower(q, v, i + 1), rc[i + 1], x0, rc[i], W,
                 coins.hidden[i], coins.commitmentsExponentiations[i]);
  }

  /** Every check1 and check2 of an honest proof holds. */
  lemma {:induction false} HonestChecks(pk: PublicKey, p: PolynomialProof, v: int, rTo: int, rEval: int,
                                        coins: PolyEvalCoins, deltas: seq<int>)
    requires pk.Valid() && pk.n == 1 && Honest(pk, p, v, rTo, rEval, coins, deltas)
    ensures forall i :: 0 <= i <= p.bitLength ==> Check1(pk, p, i)
    ensures forall i :: 0 <= i < p.bitLength ==> Check2(pk, p, i)
  {
    forall i | 0 <= i <= p.bitLength
      ensures Check1(pk, p, i)
    {
      HonestCheck1At(pk, p, v, rTo, rEval, coins, deltas, i);
    }
    forall i | 0 <= i < p.bitLength
      ensures Check2(pk, p, i)
    {
      HonestCheck2At(pk, p, v, rTo, rEval, coins, deltas, i);
    }
  }

  /** The value side of check3 for an honest prover: c^(L+1) y plus the
    * deltas weighted by the challenge powers is P(c) for the hidden
    * polynomial, which is what `product_rhs_calculation` computes. */
  lemma {:induction false} Check3Value(q: int, v: int, rh: seq<int>, a: seq<int>, L: nat, c: int, y: int, d: seq<int>)
    requires q > 0 && |rh| == L + 1 && |a| <= Pow2(L + 1) && y % q == Poly.EvalSum(a, v) % q
    requires d == Deltas(Hidden(q, v, rh, a, L).coefficients, L)
    ensures Balanced(q, c, L, y, d, ProductRhs(q, ResponseHidden(c, v, rh, L), c, a, L))
  {
    var h := Hidden(q, v, rh, a, L).coefficients;
    var C := Pow(c, L + 1);
    var dotD := Dot(d, ChallengePowers(c, q, L + 1), L + 1);
    var rhs := ProductRhs(q, ResponseHidden(c, v, rh, L), c, a, L);
    ProductRhsIsHiddenValue(q, v, rh, c, a, L);
    HiddenTop(q, v, rh, a, L);
    DeltasSplit(h, L, c);
    DotPowers(d, c, q, L + 1, L + 1);
    assert d[..L + 1] == d;
    Check3Algebra(q, C, y, Poly.EvalSum(a, v), Poly.Entry(h, L + 1), dotD, Poly.EvalSum(d, c), rhs, Poly.EvalSum(h, c));
  }

  /** check3 of an honest proof over the padded list a, whose deltas are
    * those of the hidden polynomial, holds for any commitment to a value
    * congruent to P(v). */
  lemma {:induction false} HonestCheck3(pk: PublicKey, p: PolynomialProof, a: seq<int>, v: int, rTo: int,
                                        y: int, rEval: int, coins: PolyEvalCoins)
    requires pk.Valid() && pk.n == 1 && |a| <= Pow2(p.bitLength + 1) && ValidCoins(pk.order, p.bitLength, coins)
    requires Honest(pk, p, v, rTo, rEval, coins,
                    Deltas(Hidden(pk.order, v, coins.hidden, a, p.bitLength).coefficients, p.bitLength))
    requires y % pk.order == Poly.EvalSum(a, v) % pk.order
    ensures Check3(pk, p, a, CommitValue(pk, [y], rEval))
  {
    var q, L, c := pk.order, p.bitLength, p.challenge;
    var d := Deltas(Hidden(q, v, coins.hidden, a, L).coefficients, L);
    var E := ChallengePowers(c, q, L + 1);
    var z := ResponseHidden(c, v, coins.hidden, L);
    assert p.responseRandomHidden == z;
    Check3Value(q, v, coins.hidden, a, L, c, y, d);
    assert p.responseRandomDeltas == (Pow(c, L + 1) % q) * rEval + Dot(coins.commitmentsDeltas, E, L + 1);
    assert forall k :: 0 <= k < L + 1 ==> Opens(pk, p.commitmentsDeltas[k], d[k], coins.commitmentsDeltas[k]);
    Check3Honest(pk, p, a, CommitValue(pk, [y], rEval), y, rEval, d, coins.commitmentsDeltas);
  }

  /** An honest proof over the padded list a, whose deltas are those of
    * the hidden polynomial, is accepted for any commitment to a value
    * congruent to P(v). */
  lemma {:induction false} HonestAccepted(pk: PublicKey, p: PolynomialProof, a: seq<int>, v: int, rTo: int,
                                          y: int, rEval: int, coins: PolyEvalCoins)
    requires pk.Valid() && pk.n == 1 && |a| <= Pow2(p.bitLength + 1) && ValidCoins(pk.order, p.bitLength, coins)
    requires Honest(pk, p, v, rTo, rEval, coins,
                    Deltas(Hidden(pk.order, v, coins.hidden, a, p.bitLength).coefficients, p.bitLength))
    requires y % pk.order == Poly.EvalSum(a, v) % pk.order
    ensures Verdict(pk, p, a, CommitValue(pk, [y], rEval)) == Ok(true)
  {
    var d := Deltas(Hidden(pk.order, v, coins.hidden, a, p.bitLength).coefficients, p.bitLength);
    HonestChecks(pk, p, v, rTo, rEval, coins, d);
    HonestCheck3(pk, p, a, v, rTo, y, rEval, coins);
  }

  /** Completeness: an honest prover's proof, about a committed point v
    * and a committed value y = P(v), is accepted by `verify` on the
    * padded coefficient list. */
  lemma {:induction false} Completeness(pk: PublicKey, H: Digest, list: seq<int>, v: int, rTo: int,
                                        y: int, rEval: int, coins: PolyEvalCoins)
    requires pk.Valid() && pk.n == 1 && |list| >= 2 && ValidCoins(pk.order, BitLength(|list|), coins)
    requires y % pk.order == Poly.EvalSum(list, v) % pk.order
    ensures var p := MakeProof(pk, H, list, CommitValue(pk, [v], rTo), v, rTo, rEval, coins);
      Verdict(pk, p, Padded(list, p.degree), CommitValue(pk, [y], rEval)) == Ok(true)
  {
    var L, degree := BitLength(|list|), PaddedDegree(|list|);
    var a := Padded(list, degree);
    var d := Deltas(Hidden(pk.order, v, coins.hidden, a, L).coefficients, L);
    var p := MakeProof(pk, H, list, CommitValue(pk, [v], rTo), v, rTo, rEval, coins);
    assert p == Respond(pk, L, degree, CommitValue(pk, [v], rTo), v, rTo, rEval, coins, d, p.challenge);
    RespondHonest(pk, L, degree, v, rTo, rEval, coins, d, p.challenge);
    PaddedLengthBound(list);
    PaddedEvaluates(list, degree, v);
    HonestAccepted(pk, p, a, v, rTo, y, rEval, coins);
  }
}
