# rsa_sign_ring in Dafny: a discrete-log model of the proof stack

This project models the core of `rsa_sign_ring` and proves properties of the model. The core is:

- the Fiat–Shamir challenge;
- Pedersen commitments;
- polynomials over Z_m;
- the same-log and square Sigma proofs;
- the Peng–Bao range proof;
- the modular addition and multiplication proofs;
- the square-and-multiply exponentiation proof of an RSA verification;
- the signature-from-a-set composition;
- the Bayer–Groth polynomial-evaluation argument;
- EC ElGamal and its correct-decryption proof.

The model rests on these choices:

- **Group elements as discrete logs.** A group element is its discrete log, an integer in `[0, q)`. The group operation (EC `+`, FF `*`) is `(a + b) % q`. The scalar action (EC `k * P`, FF `P ** k`) is `(k * a) % q`, and division (EC `-`, FF `/`) is `(a - b) % q`. Generators are opaque elements carried in the keys. `DiscreteLog.Lin(q, g, h, a, r)` is the two-base combination `a·g + r·h`, so a Pedersen commitment to `(v, r)` is `Lin(q, g0, g1, v, r)`. In this model the FF files (multiplicative notation) and the EC files (additive notation) compute the same things.
- **The hash.** SHA-512 is an uninterpreted function `H: seq<Encoding> -> nat` passed as a parameter. A challenge is `H(encodings of the flattened transcript) % p`.
- **Randomness.** Every random draw is a parameter, the "coins" of a proof. The predicates in module `Randomness` bound each coin to the range it is drawn from.
- **Module layout.** There is one module per source file, and two for `proof_poly_eval_ec.py`: `PolynomialEvaluation` holds the polynomial side and `PolynomialEvaluationProof` the proof. `DiscreteLog` holds the group algebra and `Wrappers` holds `Option`/`Result`.
- **Where the source mutates state, the model is imperative.**
  - The range proof's `verify` rewrites its stored challenges. It is `ProofRange.Verify`, a method of a class holding the proof.
  - `PolynomialProof` pads the caller's list in place. That list is a `CoefficientList` object.
  - The exponentiation walk, its verifier replay, polynomial multiplication, evaluation, both root constructions, the hidden-polynomial and right-hand-side accumulations, and the challenge hashing loop are methods with loops. Each is proved equal to a specification function, and the properties are proved about that function.

Where a statement says "an honest proof", it means the proof the prover builds from the given witnesses and coins. Completeness lemmas show that the verifier accepts such a proof. Binding lemmas show that, with a prime order and a non-zero challenge, a check on an honest response holds only for the true statement.

## Model

| member | source | states |
|---|---|---|
| HashFunction.Flatten | primitives/hash_function.py:24-26 | the result contains no nested list, and the empty list flattens to the empty list |
| HashFunction.FlattenOfFlat | primitives/hash_function.py:24-26 | flattening a list without nested lists returns it unchanged |
| HashFunction.FlattenAppend | primitives/hash_function.py:24-26 | flattening distributes over concatenation, so the leaves come out in left-to-right order |
| HashFunction.FlattenIdempotent | primitives/hash_function.py:24-26 | flattening twice equals flattening once |
| HashFunction.Encode | primitives/hash_function.py:11-18 | an item with an `export` is encoded by its export and an integer by its hex form |
| HashFunction.Challenge | primitives/hash_function.py:5-22 | for `p > 0` the challenge lies in `[0, p)`; it is a function of the transcript and `p` alone |
| HashFunction.ComputeChallenge | primitives/hash_function.py:9-22 | the loop that feeds encodings to the hasher in order returns `Challenge` of the transcript, in `[0, p)` |
| HashFunction.ChallengeIgnoresNesting | primitives/hash_function.py:9-22 | the challenge of the flattened transcript equals the challenge of the transcript |
| HashFunction.ChallengeOfGrouped | primitives/hash_function.py:9-22 | `[[a...], b...]` and `[a..., b...]` give the same challenge |
| Pedersen.NewPublicKey | primitives/pedersen.py:9-25 | the key for `n` values holds exactly `n + 1` generators, generator `i` being the hash-to-point of `i` |
| Pedersen.MultiExp | primitives/pedersen.py:48-53 | the multi-exponentiation is the inner product of generators and powers, reduced mod the order |
| Pedersen.CommitValue | primitives/pedersen.py:48-55 | the commitment is `Σ v_i·g_i + r·g_n` mod the order |
| Pedersen.Commit | primitives/pedersen.py:27-55 | fails with `IncorrectLength(len, n)` exactly when `len(values) != n`; otherwise commits with the given randomizer, or with the draw from `[0, order)` when none is given |
| Pedersen.CommitOneValue | primitives/pedersen.py:48-53 | a one-value commitment is `v·g0 + r·g1` |
| Pedersen.Mul | primitives/pedersen.py:64-93 | the product of two commitments is a group element, and the product does not depend on the order of the factors |
| Pedersen.Power | primitives/pedersen.py:101-125 | a commitment power is a group element; power 0 is the identity and power 1 the commitment itself |
| Pedersen.Divide | primitives/pedersen.py:134-161 | the quotient is a group element that gives the dividend back when multiplied by the divisor |
| Pedersen.CommitMulHomomorphic | primitives/pedersen.py:64-93 | `commit(v1, r1) * commit(v2, r2) == commit(v1 + v2, r1 + r2)` pointwise |
| Pedersen.CommitPowHomomorphic | primitives/pedersen.py:101-125 | `commit(v, r) ** k == commit(k·v, k·r)` |
| Pedersen.CommitDivHomomorphic | primitives/pedersen.py:134-161 | `commit(v1, r1) / commit(v2, r2) == commit(v1 - v2, r1 - r2)` |
| Pedersen.Export | primitives/pedersen.py:172-173 | a commitment is exported as its group element |
| Polynomials.Trimmed | primitives/polynomial.py:19-20 | trimming keeps a non-empty prefix whose last entry is non-zero (or the single remaining entry), and only zeros are dropped |
| Polynomials.NewPolynomial | primitives/polynomial.py:15-27 | the popping loop builds the trimmed polynomial, and `degree` is the number of coefficients kept |
| Polynomials.TrimmedUnique | primitives/polynomial.py:19-20 | any prefix with those three properties is the trimmed list |
| Polynomials.TrimmedIdempotent | primitives/polynomial.py:19-20 | trimming a trimmed list changes nothing |
| Polynomials.TrimmedKeepsNonZeroTop | primitives/polynomial.py:19-20 | a list whose last entry is non-zero is kept whole |
| Polynomials.TrimmedEvaluates | primitives/polynomial.py:19-20 | trimming does not change the value at any point |
| Polynomials.Eval | primitives/polynomial.py:118-136 | the loop returns `Σ c_i·x^i mod m`, a value in `[0, m)` |
| Polynomials.EvalExample | primitives/polynomial.py:122-127 | `1 + 2x` mod 7 is 5 at 2 and 0 at 3 |
| Polynomials.ZipLongestUnzips | primitives/polynomial.py:225-234 | the pairs project back to both lists, padded with the fill value 0 |
| Polynomials.Add | primitives/polynomial.py:29-55 | fails with `ModulusMismatch` exactly when the moduli differ; otherwise the sum has the same modulus |
| Polynomials.AddEvaluates | primitives/polynomial.py:29-55 | the sum evaluates to the sum of the values, mod m |
| Polynomials.AddExample | primitives/polynomial.py:33-44 | `[1,2,4,0,5] + [3,5,2,2,6]` is `[4,7,6,2,11]` mod 13, and mixing moduli 13 and 5 fails |
| Polynomials.Product | primitives/polynomial.py:60-104 | fails with `ModulusMismatch` exactly when a polynomial factor has another modulus; otherwise the product has the same modulus |
| Polynomials.Mul | primitives/polynomial.py:60-104 | the nested loops over the result buffer compute `Product` |
| Polynomials.ProductEvaluates | primitives/polynomial.py:60-104 | the convolution product evaluates to the product of the values, mod m |
| Polynomials.ScaleEvaluates | primitives/polynomial.py:99-103 | the scalar product evaluates to the value times the scalar, mod m |
| Polynomials.MulExample | primitives/polynomial.py:64-82 | `[1,2]·[3,3] = [3,9,6]` mod 13, multiplying by `[1]` is the identity, and the scalar products match the doctests |
| Polynomials.Power | primitives/polynomial.py:106-113 | fails with `UnsupportedPower` exactly when the power is neither 0 nor 1 |
| Polynomials.PowerEvaluates | primitives/polynomial.py:106-113 | power 0 evaluates to 1 and power 1 to the polynomial's own value |
| Polynomials.RootCoefficients | primitives/polynomial.py:138-177 | the coefficients from `n` roots form a monic list of `n + 1` entries |
| Polynomials.FromRoots | primitives/polynomial.py:138-177 | the loop over combinations builds the polynomial with coefficients `RootCoefficients(roots)` |
| Polynomials.CombinationCoefficientIs | primitives/polynomial.py:172-175 | coefficient `i` is the signed elementary symmetric sum of degree `n - i`, mod m |
| Polynomials.FromRootsOpt | primitives/polynomial.py:179-223 | the incremental construction builds the same polynomial as `FromRoots` |
| Polynomials.MultiplyFactor | primitives/polynomial.py:216-221 | one pass multiplies the current coefficients by `(X - r)` |
| Polynomials.RootCoefficientsVanish | primitives/polynomial.py:179-223 | the polynomial built from the roots evaluates to 0 at every root |
| Polynomials.RootCoefficientsEvaluate | primitives/polynomial.py:179-223 | it evaluates to `Π (x - r_i)` mod m everywhere |
| Polynomials.RootsExample | primitives/polynomial.py:144-146 | roots `[1, 1]` mod 7 give `[1, 5, 1]`, which vanishes at 1 |
| Polynomials.FromRootsDoctest | primitives/polynomial.py:148-164 | roots `[1, 2, 3, 3, 4, 5]` give the coefficients `[3, 3, 4, 3, 4, 3, 1]` mod 7 and `[360, 58, 949, 520, 130, 982, 1]` mod 1000 |
| Polynomials.FromRootsDoctestValues | primitives/polynomial.py:148-156 | that polynomial mod 7 is 0 at 3 and at 5, and 3 at 6 |
| SquareFF.ProveSameLog | zero_knowledge_proofs/ff_based/proof_square_ff.py:75-90 | the same-log challenge lies in `[0, order)` |
| SquareFF.VerifySameLog | zero_knowledge_proofs/ff_based/proof_square_ff.py:92-135 | `verify` accepts only a stored challenge in `[0, order)`: the challenge of the two replayed announcements |
| SquareFF.SameLogReplay | zero_knowledge_proofs/ff_based/proof_square_ff.py:92-135 | each reconstructed announcement equals the prover's exactly when `c` times the claimed opening equals `c` times the commitment |
| SquareFF.SameLogComplete | zero_knowledge_proofs/ff_based/proof_square_ff.py:83-135 | if the commitments open to `(e, r1)` and `(e, r2)`, `verify` accepts the honest proof, wrapped or bare |
| SquareFF.SameLogBinding | zero_knowledge_proofs/ff_based/proof_square_ff.py:109-135 | with prime order and a non-zero challenge, a reconstruction matches only if the commitment opens to the proved values |
| SquareFF.ProveSquare | zero_knowledge_proofs/ff_based/proof_square_ff.py:12-34 | `commitment_sqr_root` is the commitment to the root with its drawn randomizer |
| SquareFF.VerifySquare | zero_knowledge_proofs/ff_based/proof_square_ff.py:36-67 | the delegated same-log check accepts only a challenge in `[0, order)` |
| SquareFF.SquareCommitmentOpens | zero_knowledge_proofs/ff_based/proof_square_ff.py:17-27 | `C_root^s · h^((r - s·r_root) mod q)` is the commitment to `s²` with blinding `r` |
| SquareFF.SquareStatement | zero_knowledge_proofs/ff_based/proof_square_ff.py:17-27 | the same-log statement over `(C_root, h)` is the commitment to `s²` |
| SquareFF.SquareComplete | zero_knowledge_proofs/ff_based/proof_square_ff.py:41-67 | `verify` accepts the honest proof for a commitment to `s²` |
| SquareFF.SquareBinding | zero_knowledge_proofs/ff_based/proof_square_ff.py:53-60 | with prime order and a non-zero challenge, the delegated check holds exactly when the commitment hides `s²` with blinding `r` |
| SquareEC.ProveSameLog | zero_knowledge_proofs/ec_based/proof_square_ec.py:72-87 | the same-log challenge lies in `[0, order)` |
| SquareEC.VerifySameLog | zero_knowledge_proofs/ec_based/proof_square_ec.py:89-132 | `verify` accepts only a stored challenge in `[0, order)`: the challenge of the two replayed announcements |
| SquareEC.SameLogReplay | zero_knowledge_proofs/ec_based/proof_square_ec.py:89-132 | in additive notation, with the challenge negated unreduced, each reconstruction matches exactly when `c` times opening equals `c` times commitment |
| SquareEC.SameLogComplete | zero_knowledge_proofs/ec_based/proof_square_ec.py:80-132 | if the commitments open to `(e, r1)` and `(e, r2)`, `verify` accepts the honest proof, wrapped or bare |
| SquareEC.SameLogBinding | zero_knowledge_proofs/ec_based/proof_square_ec.py:89-132 | with prime order and a non-zero challenge, a reconstruction matches only for the true openings |
| SquareEC.ProveSquare | zero_knowledge_proofs/ec_based/proof_square_ec.py:11-31 | `commitment_sqr_root` is the commitment to the root with its drawn randomizer |
| SquareEC.VerifySquare | zero_knowledge_proofs/ec_based/proof_square_ec.py:33-64 | the delegated same-log check accepts only a challenge in `[0, order)` |
| SquareEC.SquareCommitmentOpens | zero_knowledge_proofs/ec_based/proof_square_ec.py:14-24 | `s·C_root + (r - s·r_root)·h`, blinding unreduced, is the commitment to `s²` with blinding `r` |
| SquareEC.SquareStatement | zero_knowledge_proofs/ec_based/proof_square_ec.py:14-24 | the same-log statement over `(C_root, h)` is the commitment to `s²` |
| SquareEC.SquareComplete | zero_knowledge_proofs/ec_based/proof_square_ec.py:38-64 | `verify` accepts the honest proof for a commitment to `s²` |
| SquareEC.SquareBinding | zero_knowledge_proofs/ec_based/proof_square_ec.py:33-64 | with prime order and a non-zero challenge, the delegated check holds exactly when the commitment hides `s²` |
| RangeFF.PartsChallenge | zero_knowledge_proofs/ff_based/proof_range_ff.py:89-90 | the split challenge lies in `[0, 2^120)` |
| RangeFF.Prove | zero_knowledge_proofs/ff_based/proof_range_ff.py:16-95 | the two stored challenges are equal, both the challenge of `(M1, M2, M3)` |
| RangeFF.Accepts | zero_knowledge_proofs/ff_based/proof_range_ff.py:99-191 | an accepted proof has `commitment_one` and `commitment_two` shifted from the caller's commitment by the bounds, and both sum responses non-negative |
| RangeFF.ProofRange.Verify | zero_knowledge_proofs/ff_based/proof_range_ff.py:99-191 | returns `Accepts` of the proof as stored; afterwards the proof differs only in the two challenges, rewritten to the challenge of `(M1, M2, M3)` |
| RangeFF.HonestBounds | zero_knowledge_proofs/ff_based/proof_range_ff.py:33-34 | `commitment_one` opens to `(x - lower + 1, r)` and `commitment_two` to `(upper + 1 - x, -r)` |
| RangeFF.HonestSquare | zero_knowledge_proofs/ff_based/proof_range_ff.py:37-74 | `commitment_square` opens to `root²·(x - lower + 1)·(upper - x + 1)` with blinding `commitment_of_summed` |
| RangeFF.HonestParts | zero_knowledge_proofs/ff_based/proof_range_ff.py:67-82 | `M1`, `M2` and the quotient `M3` open to `(m1, r1)`, `(m2, r2)` and `(m4², r3)` |
| RangeFF.HonestSubProofs | zero_knowledge_proofs/ff_based/proof_range_ff.py:43-86 | checks 1–3, the same-log proof and both square proofs, accept the honest proof |
| RangeFF.HonestBalances | zero_knowledge_proofs/ff_based/proof_range_ff.py:82-95 | check 6 holds by construction, and checks 7 and 8 hold for the honest responses |
| RangeFF.HonestResponses | zero_knowledge_proofs/ff_based/proof_range_ff.py:92-93 | the responses are `c·v - (c-1)(m2+m3)` and `v + (c-1)·m2` for the summed value `v` |
| RangeFF.AcceptedNeedsSums | zero_knowledge_proofs/ff_based/proof_range_ff.py:186-191 | any accepted proof has both summed responses non-negative |
| RangeFF.HonestAccepted | zero_knowledge_proofs/ff_based/proof_range_ff.py:162-191 | an honest proof is accepted exactly when both summed responses are non-negative |
| RangeFF.RangeAcceptsDecomposable | zero_knowledge_proofs/ff_based/proof_range_ff.py:67-95 | when `m1 = v - m4² - m2` is non-negative, the honest proof is accepted |
| RangeFF.NegativeSummedValue | zero_knowledge_proofs/ff_based/proof_range_ff.py:65 | with a non-zero root and `x` outside `[lower - 1, upper + 1]`, the summed value is negative |
| RangeFF.RangeRejectsOutside | zero_knowledge_proofs/ff_based/proof_range_ff.py:186-189 | for `x` outside `[lower - 1, upper + 1]` the honest proof is rejected by the sign checks |
| RangeFF.RangeEdgeAccepts | zero_knowledge_proofs/ff_based/proof_range_ff.py:65-95 | for `x = lower - 1` or `x = upper + 1` the honest proof is accepted exactly when the challenge is 1, or `m2 = 0` and either the challenge is 0 or `m4 = 0` |
| RangeEC.PartsChallenge | zero_knowledge_proofs/ec_based/proof_range_ec.py:82-83 | the split challenge lies in `[0, 2^120)` |
| RangeEC.Prove | zero_knowledge_proofs/ec_based/proof_range_ec.py:13-88 | the two stored challenges are equal, both the challenge of `(M1, M2, M3)` |
| RangeEC.Accepts | zero_knowledge_proofs/ec_based/proof_range_ec.py:90-151 | an accepted proof has both shifted commitments derived from the caller's commitment and bounds, and both sum responses non-negative |
| RangeEC.ProofRange.Verify | zero_knowledge_proofs/ec_based/proof_range_ec.py:90-151 | returns `Accepts` of the stored proof; only the two challenges change, to the challenge of `(M1, M2, M3)` |
| RangeEC.HonestBounds | zero_knowledge_proofs/ec_based/proof_range_ec.py:28-29 | `C - (lower-1)·g0` opens to `x - lower + 1` and `(upper+1)·g0 - C` to `upper + 1 - x` |
| RangeEC.HonestSquare | zero_knowledge_proofs/ec_based/proof_range_ec.py:31-58 | `commitment_square` opens to `(value_to_find_sum, commitment_of_summed)` |
| RangeEC.HonestParts | zero_knowledge_proofs/ec_based/proof_range_ec.py:60-75 | the three parts open to `(m1, r1)`, `(m2, r2)`, `(m4², r3)` |
| RangeEC.HonestSubProofs | zero_knowledge_proofs/ec_based/proof_range_ec.py:38-56 | the same-log and both square proofs accept the honest proof |
| RangeEC.HonestBalances | zero_knowledge_proofs/ec_based/proof_range_ec.py:60-88 | check 6 holds by construction, and checks 7 and 8 hold for the honest responses |
| RangeEC.HonestResponses | zero_knowledge_proofs/ec_based/proof_range_ec.py:85-88 | the responses are `c·v - (c-1)(m2+m3)` and `v + (c-1)·m2` |
| RangeEC.AcceptedNeedsSums | zero_knowledge_proofs/ec_based/proof_range_ec.py:148-151 | any accepted proof has both summed responses non-negative |
| RangeEC.HonestAccepted | zero_knowledge_proofs/ec_based/proof_range_ec.py:90-151 | an honest proof is accepted exactly when both summed responses are non-negative |
| RangeEC.RangeAcceptsDecomposable | zero_knowledge_proofs/ec_based/proof_range_ec.py:60-88 | when `m1` is non-negative, the honest proof is accepted |
| RangeEC.NegativeSummedValue | zero_knowledge_proofs/ec_based/proof_range_ec.py:58 | outside `[lower - 1, upper + 1]` with a non-zero root, the summed value is negative |
| RangeEC.RangeRejectsOutside | zero_knowledge_proofs/ec_based/proof_range_ec.py:148-149 | for `x` outside `[lower - 1, upper + 1]` the honest proof is rejected |
| RangeEC.RangeEdgeAccepts | zero_knowledge_proofs/ec_based/proof_range_ec.py:108-119 | the doctest with 2 and the range `[3, 5]` is this edge: the honest proof is accepted exactly when the challenge is 1, or `m2 = 0` and either the challenge is 0 or `m4 = 0` |
| ModularAddition.Prove | zero_knowledge_proofs/ff_based/linear_algebra/modular_addition.py:10-53 | the calculation bounds are symmetric, `±2^boundBits` |
| ModularAddition.Accepts | zero_knowledge_proofs/ff_based/linear_algebra/modular_addition.py:56-90 | an accepted proof has non-negative sums in all five range proofs, and its quotient range proof is over `result / (a1·a2)` under the quotient key |
| ModularAddition.ExponentKey | zero_knowledge_proofs/ff_based/linear_algebra/modular_addition.py:51-53 | the quotient key `[Com(modulus), g1]` is a valid two-generator key of the same order |
| ModularAddition.SecretRandom | zero_knowledge_proofs/ff_based/linear_algebra/modular_addition.py:48 | the blinding of the quotient commitment is a group scalar |
| ModularAddition.RemainderIsQuotientCommitment | zero_knowledge_proofs/ff_based/linear_algebra/modular_addition.py:46-49 | when `result = a1 + a2 + k·modulus`, `Com(result)/(Com(a1)·Com(a2))` equals `Com(modulus)^k·g1^secret_random`, a commitment to `k` under the quotient key |
| ModularAddition.PartsOfProve | zero_knowledge_proofs/ff_based/linear_algebra/modular_addition.py:33-53 | the four operand range proofs and the quotient range proof share the bounds, each over its own commitment |
| ModularAddition.QuotientAccepted | zero_knowledge_proofs/ff_based/linear_algebra/modular_addition.py:84-88 | the verifier's quotient check accepts the honest quotient proof exactly when its sums are non-negative |
| ModularAddition.AcceptsByRanges | zero_knowledge_proofs/ff_based/linear_algebra/modular_addition.py:79-90 | `verify` is the AND of the four operand range checks and the quotient check |
| ModularAddition.AdditionComplete | zero_knowledge_proofs/ff_based/linear_algebra/modular_addition.py:79-90 | the honest proof is accepted exactly when all five range proofs have non-negative sums |
| ModularAddition.AdditionRelation | zero_knowledge_proofs/ff_based/linear_algebra/modular_addition.py:46-53 | the quotient the prover computes and commits is exact, `result = a1 + a2 + k·modulus`, exactly when `result ≡ a1 + a2 (mod modulus)` |
| ModularAddition.RelationComplete | zero_knowledge_proofs/ff_based/linear_algebra/modular_addition.py:10-90 | for any true modular sum the honest proof is accepted exactly when all five range proofs have non-negative sums |
| ModularMultiplication.Prove | zero_knowledge_proofs/ff_based/linear_algebra/modular_multiplication.py:11-66 | bounds `±2^boundBits`; the quotient key and the same-log proof are over the commitment group |
| ModularMultiplication.Accepts | zero_knowledge_proofs/ff_based/linear_algebra/modular_multiplication.py:69-109 | an accepted proof has non-negative sums in all five range proofs and a same-log challenge in `[0, order)` |
| ModularMultiplication.HBase | zero_knowledge_proofs/ff_based/linear_algebra/modular_multiplication.py:51 | `h_base` is a group element |
| ModularMultiplication.ExponentKey | zero_knowledge_proofs/ff_based/linear_algebra/modular_multiplication.py:50-53 | the quotient key's generators are exactly `[Com(modulus), h_base]` |
| ModularMultiplication.QuotientCommitmentOpens | zero_knowledge_proofs/ff_based/linear_algebra/modular_multiplication.py:47-55 | with `h_base = Com(b)^a·g1^s`, `Com(modulus)^k·h_base` equals `Com(result)` when `result = a·b + k·modulus` |
| ModularMultiplication.ResultIsQuotientCommitment | zero_knowledge_proofs/ff_based/linear_algebra/modular_multiplication.py:46-55 | the quotient computed by the prover is `k`, and `Com(result)` is the commitment to `k` with blinding 1 under the quotient key |
| ModularMultiplication.SameLogStatementIgnoresFactors | zero_knowledge_proofs/ff_based/linear_algebra/modular_multiplication.py:58-61 | `commitment_result` is `k·Com(modulus) + 1·h` for the `h` the verifier derives, whatever the factors |
| ModularMultiplication.PartsOfProve | zero_knowledge_proofs/ff_based/linear_algebra/modular_multiplication.py:33-66 | the range proofs share the bounds, and the final quotient range proof is over the normally formed commitment under `com_pk` |
| ModularMultiplication.AcceptsByParts | zero_knowledge_proofs/ff_based/linear_algebra/modular_multiplication.py:92-109 | `verify` is the AND of its six checks |
| ModularMultiplication.MultiplicationComplete | zero_knowledge_proofs/ff_based/linear_algebra/modular_multiplication.py:92-109 | the honest proof is accepted exactly when all five range proofs have non-negative sums |
| ModularMultiplication.MultiplicationRelation | zero_knowledge_proofs/ff_based/linear_algebra/modular_multiplication.py:46-55 | the quotient the prover computes and commits is exact, `result = a·b + k·modulus`, exactly when `result ≡ a·b (mod modulus)` |
| ModularMultiplication.RelationComplete | zero_knowledge_proofs/ff_based/linear_algebra/modular_multiplication.py:11-109 | for any true modular product the honest proof is accepted exactly when all five range proofs have non-negative sums |
| SignatureExponentiation.ProveSquaring | zero_knowledge_proofs/ff_based/optimization_proof_signature.py:140-180 | the squaring step's range bounds are `±2^boundBits`, the quotient key's first base is the modulus commitment, and the proof fits the verifier's keys |
| SignatureExponentiation.SquaringAccepts | zero_knowledge_proofs/ff_based/optimization_proof_signature.py:182-210 | an accepted squaring step has non-negative sums in both range proofs, and its quotient range proof is over the result commitment under the stored key |
| SignatureExponentiation.ProveMultiplicationStep | zero_knowledge_proofs/ff_based/optimization_proof_signature.py:212-254 | the multiplication step's range bounds are `±2^boundBits`, the quotient key's first base is the modulus commitment, and the proof fits the verifier's keys |
| SignatureExponentiation.MultiplicationStepAccepts | zero_knowledge_proofs/ff_based/optimization_proof_signature.py:256-286 | an accepted multiplication step has non-negative sums in its four range proofs, and its quotient range proof is over the result commitment under the stored key |
| SignatureExponentiation.SquaringComplete | zero_knowledge_proofs/ff_based/optimization_proof_signature.py:168-176 | the squaring step's virtual quotient commitment equals `commitment_result`, and the honest step is accepted exactly when its two range proofs have non-negative sums |
| SignatureExponentiation.MultiplicationStepQuotient | zero_knowledge_proofs/ff_based/optimization_proof_signature.py:242-250 | the prover's quotient is `k`, and `Com(result)` is the commitment to `k` under `[Com(modulus), h_base]` |
| SignatureExponentiation.MultiplicationStepParts | zero_knowledge_proofs/ff_based/optimization_proof_signature.py:232-253 | the step's range proofs share the bounds, and its quotient key and commitment are the ones the relation needs |
| SignatureExponentiation.MultiplicationStepComplete | zero_knowledge_proofs/ff_based/optimization_proof_signature.py:242-286 | the honest multiplication step is accepted exactly when its four range proofs have non-negative sums |
| SignatureExponentiation.Steps | zero_knowledge_proofs/ff_based/optimization_proof_signature.py:58-94 | the parity walk is empty only for exponent 0 and always ends with a multiplication |
| SignatureExponentiation.StepsOfDefaultExponent | zero_knowledge_proofs/ff_based/optimization_proof_signature.py:58-94 | for 65537 the walk is one multiplication, 16 squarings and one more multiplication |
| SignatureExponentiation.SquaredValueIsPower | zero_knowledge_proofs/ff_based/optimization_proof_signature.py:60-75 | the `i`-th squared value is `signature^(2^i) mod modulus` |
| SignatureExponentiation.SquaringKeepsInvariant | zero_knowledge_proofs/ff_based/optimization_proof_signature.py:60-75 | an even step keeps `acc·X^t mod n` |
| SignatureExponentiation.MultiplyingKeepsInvariant | zero_knowledge_proofs/ff_based/optimization_proof_signature.py:77-94 | an odd step keeps `acc·X^t mod n` |
| SignatureExponentiation.WalkEnds | zero_knowledge_proofs/ff_based/optimization_proof_signature.py:58-94 | at exit the list lengths follow the parity counts, and the last multiplication commitment hides `signature^exponent mod modulus` |
| SignatureExponentiation.ProveExponentiation | zero_knowledge_proofs/ff_based/optimization_proof_signature.py:15-96 | the walk emits one proof per step, `1 + #squarings` and `1 + #multiplications` commitments, each square commitment hides its power, the final commitment hides `signature^exponent mod modulus`, and every step proof is the one `HonestCall` describes for its step |
| SignatureExponentiation.HonestCall | zero_knowledge_proofs/ff_based/optimization_proof_signature.py:58-94 | the call built for step `i` is a squaring call exactly when the walk squares at `i`, and it fits the verifier's keys |
| SignatureExponentiation.HonestCallAccepted | zero_knowledge_proofs/ff_based/optimization_proof_signature.py:117-132 | the honest call at any step is accepted once its range proofs have non-negative sums |
| SignatureExponentiation.HonestStepsAccepted | zero_knowledge_proofs/ff_based/optimization_proof_signature.py:114-132 | when every stored step proof is the honest one, every step of the replay is accepted |
| SignatureExponentiation.Completeness | zero_knowledge_proofs/ff_based/optimization_proof_signature.py:15-136 | for `exponent > 0` and `message = signature^exponent mod modulus`, the honest proof is well formed, its terminal check holds, every step is accepted and the modulus range proof is accepted |
| SignatureExponentiation.ReplayStep | zero_knowledge_proofs/ff_based/optimization_proof_signature.py:117-132 | one replay step fails exactly when an index is out of bounds, else it returns the call at that step |
| SignatureExponentiation.Replay | zero_knowledge_proofs/ff_based/optimization_proof_signature.py:114-132 | the replay fails exactly when the lists do not fit the walk; otherwise it consumes each proof once, in order, with every index in bounds |
| SignatureExponentiation.ErrorAfterSteps | zero_knowledge_proofs/ff_based/optimization_proof_signature.py:117-132 | a list that runs out raises `IndexError` |
| SignatureExponentiation.VerifyExponentiation | zero_knowledge_proofs/ff_based/optimization_proof_signature.py:98-136 | raises exactly for ill-formed proofs; otherwise returns terminal check AND all steps AND the modulus range proof |
| SignatureExponentiation.Exponantiation | zero_knowledge_proofs/ff_based/optimization_proof_signature.py:289-298 | returns `message^65537 mod modulus`, whatever `exponent` is |
| SignatureSet.DummyRoots | zero_knowledge_proofs/ff_based/proof_signature_from_set.py:85-86 | `size` copies of the modulus |
| SignatureSet.CommitmentZeroIsIdentity | zero_knowledge_proofs/ff_based/proof_signature_from_set.py:32-33 | `commit([0], 0)` is the identity of the group |
| SignatureSet.ProveSignatureSet | zero_knowledge_proofs/ff_based/proof_signature_from_set.py:20-37 | both sub-proofs get the same modulus commitment and randomizer; the exponentiation proof uses exponent 65537, is the honest proof of the signature, and matches the message whenever `signature^65537 ≡ message`; the membership proof is built over the caller's list, which is padded in place |
| SignatureSet.ExponentiationVerdict | zero_knowledge_proofs/ff_based/proof_signature_from_set.py:61 | the exponentiation verdict raises exactly for ill-formed proofs, and acceptance implies the terminal check |
| SignatureSet.SetVerdict | zero_knowledge_proofs/ff_based/proof_signature_from_set.py:39-70 | raises exactly when one of the sub-proofs is ill formed, with the exponentiation's error first, and acceptance implies the last commitment opens to the message |
| SignatureSet.ExponentiationAccepted | zero_knowledge_proofs/ff_based/proof_signature_from_set.py:20-61 | the honest exponentiation proof of a true signature gives the verdict `True` |
| SignatureSet.VerifySignatureSet | zero_knowledge_proofs/ff_based/proof_signature_from_set.py:39-70 | returns `SetVerdict` on the padded list, and pads the caller's list unless the exponentiation proof raised |
| SignatureSet.SetAcceptsIffBoth | zero_knowledge_proofs/ff_based/proof_signature_from_set.py:61-70 | the set proof is accepted exactly when the exponentiation check and the membership check both accept |
| SignatureSet.AcceptedMatchesMessage | zero_knowledge_proofs/ff_based/proof_signature_from_set.py:61-70 | an accepted proof's last commitment opens to the message, and check 3 holds for the zero commitment |
| SignatureSet.MembershipComplete | zero_knowledge_proofs/ff_based/proof_signature_from_set.py:35-65 | a membership proof for a modulus that is a root of the list's polynomial is accepted |
| SignatureSet.MemberIsRoot | zero_knowledge_proofs/ff_based/proof_signature_from_set.py:85-86 | every root is a zero of the polynomial built from the roots |
| SignatureSet.DummyRootsAccepted | zero_knowledge_proofs/ff_based/proof_signature_from_set.py:85-86 | the membership proof over the dummy roots of the modulus is accepted |
| SignatureSet.Completeness | zero_knowledge_proofs/ff_based/proof_signature_from_set.py:20-70 | for a true signature whose modulus is a root of the list's polynomial, the honest set proof is accepted on the padded list |
| SignatureSet.AsWrittenMembershipRaises | zero_knowledge_proofs/ff_based/proof_signature_from_set.py:35-36 | the as-written membership proof for a true member makes `verify` raise `IndexError` |
| PolynomialEvaluation.CeilLog2 | zero_knowledge_proofs/ec_based/proof_poly_eval_ec.py:31-32 | the least `k` with `2^k ≥ n` |
| PolynomialEvaluation.BitLength | zero_knowledge_proofs/ec_based/proof_poly_eval_ec.py:31-32 | the bit length is the least `b` with `2^b ≥ len - 1` |
| PolynomialEvaluation.PaddedDegree | zero_knowledge_proofs/ec_based/proof_poly_eval_ec.py:31-32 | the degree is at least `len - 1`, and when padding is needed half of it is below `len - 1`: the least power of two that is large enough |
| PolynomialEvaluation.Padded | zero_knowledge_proofs/ec_based/proof_poly_eval_ec.py:35-37 | the list extended with zeros to length `max(len, degree)` |
| PolynomialEvaluation.PaddedIdempotent | zero_knowledge_proofs/ec_based/proof_poly_eval_ec.py:126-127 | padding again to the same degree adds nothing |
| PolynomialEvaluation.PaddedEvaluates | zero_knowledge_proofs/ec_based/proof_poly_eval_ec.py:35-37 | padding does not change the value at any point |
| PolynomialEvaluation.CoefficientList.PadTo | zero_knowledge_proofs/ec_based/proof_poly_eval_ec.py:35-36 | pads the caller's list in place |
| PolynomialEvaluation.BinaryReprIsLittleEndian | zero_knowledge_proofs/ec_based/proof_poly_eval_ec.py:172-187 | the output is the little-endian bits, zero-padded up to `length` |
| PolynomialEvaluation.BinaryReprValue | zero_knowledge_proofs/ec_based/proof_poly_eval_ec.py:172-187 | the output is bits with `Σ bits_i·2^i = a`, at least `length` long, and exactly `length` long when `a < 2^length` |
| PolynomialEvaluation.BinaryReprExample | zero_knowledge_proofs/ec_based/proof_poly_eval_ec.py:180-182 | `(3, 4)` gives `[1, 1, 0, 0]` |
| PolynomialEvaluation.BinaryRepr | zero_knowledge_proofs/ec_based/proof_poly_eval_ec.py:172-187 | the output has only 0s and 1s and is at least `length` and at least one long |
| PolynomialEvaluation.BitFactor | zero_knowledge_proofs/ec_based/proof_poly_eval_ec.py:153-155 | a factor is a polynomial over the group order |
| PolynomialEvaluation.ComputeIndexPolynomial | zero_knowledge_proofs/ec_based/proof_poly_eval_ec.py:150-157 | the product loop builds the index polynomial of `i` |
| PolynomialEvaluation.BitFactorList | zero_knowledge_proofs/ec_based/proof_poly_eval_ec.py:151-155 | the loop builds the list of bit factors |
| PolynomialEvaluation.HiddenPolynomial | zero_knowledge_proofs/ec_based/proof_poly_eval_ec.py:144-159 | the accumulation loop builds the hidden polynomial |
| PolynomialEvaluation.FoldTimesEvaluates | zero_knowledge_proofs/ec_based/proof_poly_eval_ec.py:150-157 | a folded product evaluates to the product of the factors' values |
| PolynomialEvaluation.IndexTop | zero_knowledge_proofs/ec_based/proof_poly_eval_ec.py:150-157 | index polynomial `i` has degree at most `L + 1`, and its `X^(L+1)` coefficient is `v^i` |
| PolynomialEvaluation.HiddenTop | zero_knowledge_proofs/ec_based/proof_poly_eval_ec.py:144-159 | the hidden polynomial's `X^(L+1)` coefficient is `P(v) mod q` |
| PolynomialEvaluation.HiddenEvaluates | zero_knowledge_proofs/ec_based/proof_poly_eval_ec.py:144-159 | the hidden polynomial evaluates to `Σ a_i·(value of index polynomial i)` |
| PolynomialEvaluationProof.ProductRhsCalculation | zero_knowledge_proofs/ec_based/proof_poly_eval_ec.py:161-170 | the loop computes `Σ_i a_i·Π_j (bit_j(i) ? z_j : c)`, each product reduced |
| PolynomialEvaluationProof.ProductRhsIsHiddenValue | zero_knowledge_proofs/ec_based/proof_poly_eval_ec.py:161-170 | for honest responses the right-hand side is the hidden polynomial's value at the challenge |
| PolynomialEvaluationProof.DeltasAsWritten | zero_knowledge_proofs/ec_based/proof_poly_eval_ec.py:159 | `coefficients[:-1]` drops exactly one coefficient |
| PolynomialEvaluationProof.DeltasAsWrittenAgree | zero_knowledge_proofs/ec_based/proof_poly_eval_ec.py:159 | when `P(v) mod q ≠ 0`, dropping the last coefficient gives the deltas of `X^0..X^L` |
| PolynomialEvaluationProof.DeltasAsWrittenShort | zero_knowledge_proofs/ec_based/proof_poly_eval_ec.py:159 | when `P(v) mod q = 0`, the dropped list has fewer than `L + 1` deltas |
| PolynomialEvaluationProof.DotPowers | zero_knowledge_proofs/ec_based/proof_poly_eval_ec.py:136-140 | the dot product with challenge powers is the polynomial's value at the challenge |
| PolynomialEvaluationProof.Check1 | zero_knowledge_proofs/ec_based/proof_poly_eval_ec.py:129-130 | check 1 holds exactly when `c·C_i + C'_i ≡ g^(z_i)·h^(w_i)` in additive notation |
| PolynomialEvaluationProof.Check2 | zero_knowledge_proofs/ec_based/proof_poly_eval_ec.py:132-134 | check 2 holds exactly when `c·C_(i+1) - z_i·C_i + X_i ≡ h^(w_i)` in additive notation |
| PolynomialEvaluationProof.ProductLhs | zero_knowledge_proofs/ec_based/proof_poly_eval_ec.py:136-137 | the left-hand product is the commitment to `Σ_j c^j·δ_j`, reduced |
| PolynomialEvaluationProof.Check3 | zero_knowledge_proofs/ec_based/proof_poly_eval_ec.py:138-140 | check 3 holds exactly when `c^(L+1)·C_eval + Σ_j c^j·δ_j ≡ g^(rhs)·h^(w)` |
| PolynomialEvaluationProof.MakeProof | zero_knowledge_proofs/ec_based/proof_poly_eval_ec.py:10-75 | the proof carries the bit length and padded degree of the list, is well formed, and commits to the corrected deltas `Deltas(h, L)` (all `L + 1` coefficients below `X^(L+1)`), not to line 159's `[:-1]` |
| PolynomialEvaluationProof.Prove | zero_knowledge_proofs/ec_based/proof_poly_eval_ec.py:10-75 | pads the caller's list in place and builds `MakeProof` of the original list, so it uses the corrected deltas `Deltas(h, L)` |
| PolynomialEvaluationProof.Verdict | zero_knowledge_proofs/ec_based/proof_poly_eval_ec.py:77-142 | raises exactly for ill-formed proofs; acceptance implies every check 1, every check 2 and check 3 |
| PolynomialEvaluationProof.Verify | zero_knowledge_proofs/ec_based/proof_poly_eval_ec.py:77-142 | pads the caller's list to the proof's degree and returns `Verdict` on it |
| PolynomialEvaluationProof.HonestCheck1At | zero_knowledge_proofs/ec_based/proof_poly_eval_ec.py:129-130 | check 1 holds for honest responses `c·v^(2^i) + h_i` and `c·r_i + rh_i` |
| PolynomialEvaluationProof.HonestCheck2At | zero_knowledge_proofs/ec_based/proof_poly_eval_ec.py:132-134 | check 2 holds for honest `response_random_exponantiations` |
| PolynomialEvaluationProof.HonestChecks | zero_knowledge_proofs/ec_based/proof_poly_eval_ec.py:129-134 | every check 1 and check 2 holds for an honest proof |
| PolynomialEvaluationProof.HonestCheck3 | zero_knowledge_proofs/ec_based/proof_poly_eval_ec.py:136-140 | check 3 holds for an honest proof of `y ≡ P(v)` |
| PolynomialEvaluationProof.HonestAccepted | zero_knowledge_proofs/ec_based/proof_poly_eval_ec.py:77-142 | an honest proof with the full deltas is accepted |
| PolynomialEvaluationProof.Completeness | zero_knowledge_proofs/ec_based/proof_poly_eval_ec.py:10-142 | for `y ≡ P(v)`, the proof built from the list is accepted on the padded list |
| PolynomialEvaluationProof.MakeProofAsWritten | zero_knowledge_proofs/ec_based/proof_poly_eval_ec.py:50-52 | the proof as written keeps the bit length and padded degree of the list |
| PolynomialEvaluationProof.AsWrittenAgrees | zero_knowledge_proofs/ec_based/proof_poly_eval_ec.py:50-52 | when `P(v) mod q ≠ 0`, the proof as written is the corrected proof |
| PolynomialEvaluationProof.AsWrittenRaises | zero_knowledge_proofs/ec_based/proof_poly_eval_ec.py:136-137 | when `P(v) ≡ 0`, `verify` of the proof as written raises `IndexError` |
| ElGamal.MakeKeyPair | primitives/elgamal.py:13-17 | the key pair keeps `sk`, and its public key is a valid key of the same group |
| ElGamal.Encrypt | primitives/elgamal.py:35-46 | the ciphertext `(k·g, k·pk + m)` is in the key's group |
| ElGamal.Decrypt | primitives/elgamal.py:174-185 | decryption returns a group element |
| ElGamal.DecryptEncrypt | primitives/elgamal.py:45-46 | `decrypt(encrypt(m, k)) = m` |
| ElGamal.Mul | primitives/elgamal.py:124-152 | the product of two ciphertexts of one group is a ciphertext of that group |
| ElGamal.EncryptMul | primitives/elgamal.py:147-148 | the product of encryptions of `m1`, `m2` under `k1`, `k2` is the encryption of `m1 + m2` under `k1 + k2` |
| ElGamal.DecryptMul | primitives/elgamal.py:124-148 | a ciphertext product decrypts to the sum of the plaintexts |
| ElGamal.Power | primitives/elgamal.py:154-166 | a ciphertext power is a ciphertext of the same group |
| ElGamal.EncryptPower | primitives/elgamal.py:166 | `E(m, k) ** e = E(e·m, e·k)` |
| ElGamal.DecryptPower | primitives/elgamal.py:154-166 | a ciphertext power decrypts to the scaled plaintext |
| ElGamal.DoctestHomomorphisms | primitives/elgamal.py:129-164 | the doctests' product `10 + 1014 = 1024` and power `100·10 = 1000` decrypt as shown |
| ElGamal.Reencrypt | primitives/elgamal.py:52-64 | reencryption yields a ciphertext of the key's group |
| ElGamal.ReencryptEncrypt | primitives/elgamal.py:52-64 | reencrypting `E(m, k)` with `k'` gives `E(m, k + k')` |
| ElGamal.DecryptReencrypt | primitives/elgamal.py:52-64 | reencryption does not change the decryption |
| ElGamal.ToList | primitives/elgamal.py:187-190 | `tolist` has two entries |
| ElGamal.Equal | primitives/elgamal.py:168-169 | two ciphertexts are equal exactly when their components are, whatever their group |
| ElGamal.EqualIffSameList | primitives/elgamal.py:168-190 | ciphertexts are equal exactly when their `tolist` are equal |
| ElGamal.EqualDecryptsEqual | primitives/elgamal.py:168-169 | equal ciphertexts are identical and decrypt alike |
| CorrectDecryption.Transcript | zero_knowledge_proofs/ec_based/correct_decryption.py:21-24 | the hashed transcript is the five flat items `[c1, c2, plaintext, announcement, order]` |
| CorrectDecryption.DecryptionChallenge | zero_knowledge_proofs/ec_based/correct_decryption.py:21-24 | the challenge lies in `[0, order)` |
| CorrectDecryption.Prove | zero_knowledge_proofs/ec_based/correct_decryption.py:11-26 | the announcement is a group element and the order is the group's |
| CorrectDecryption.CheckHolds | zero_knowledge_proofs/ec_based/correct_decryption.py:45 | the check holds exactly when `c·plaintext - A ≡ c·c2 - z·c1` |
| CorrectDecryption.Verify | zero_knowledge_proofs/ec_based/correct_decryption.py:28-45 | `verify` accepts exactly when `c·plaintext - A ≡ c·c2 - z·c1` for the recomputed challenge `c` |
| CorrectDecryption.HonestCheck | zero_knowledge_proofs/ec_based/correct_decryption.py:45 | for honest announcement and response, the check holds exactly when `c·(plaintext - (c2 - sk·c1)) ≡ 0` |
| CorrectDecryption.Completeness | zero_knowledge_proofs/ec_based/correct_decryption.py:18-45 | the proof of the true decryption is accepted |
| CorrectDecryption.HonestCheckIff | zero_knowledge_proofs/ec_based/correct_decryption.py:45 | with prime order and `0 < c < q`, the honest check holds exactly for the true decryption |
| CorrectDecryption.OnlyTrueDecryption | zero_knowledge_proofs/ec_based/correct_decryption.py:45 | with prime order and a non-zero challenge, `verify` of an honest proof accepts exactly the true decryption |

## Left out

- The group backends are left out: petlib `EcGroup`/`EcPt`, `FFGroup`, `hash_to_point` and `export()`. Elements are discrete logs, and hash-to-point is the parameter `hashToPoint` of `Pedersen.NewPublicKey`.
- SHA-512, byte conversion and `hexdigest` parsing are left out. The hash is an uninterpreted parameter.
- Secure random number generation is left out. Draws are parameters, bounded by the `Randomness` predicates.
- Cryptographic soundness, zero-knowledge and hiding rest on hardness assumptions and are not modelled. The binding lemmas cover only honest responses, with a prime order and a non-zero challenge.
- The doctests' "should not verify" cases are not modelled as such. The binding lemmas (`SquareFF.SquareBinding`, `SquareEC.SquareBinding`) state the algebraic reason.
- FF branches of `elgamal.py` are left out. They are unfinished and raise `NotImplementedError`.
- ECDSA `sign`/`verify_signature` are left out. They need affine x-coordinates.
- The broken `weighted_sum` is left out.
- The `ValueError` for an unsupported group type is left out. The model has one kind of group.
- ElGamal.Mul: requires both ciphertexts to be in the same group, where the source would fail inside the group library.
- The `self.infinity` write in `reencrypt` is left out. Nothing reads it.
- `linear_algebra/modular_exponantiation.py` is not part of this model. The `ModularExponantiation` class of `optimization_proof_signature.py` stands in for it.
- `proof_poly_eval_ff.py` is not part of this model. The EC `PolynomialProof` stands in for it.
- `evaluation/time_evaluation.py` is left out. It is a benchmarking driver with file I/O and plots.
- `time()` fields, `__main__` blocks and `generate_dummy_data` are left out.
- The 2048-bit constants of `dummy_data` are left out. Only the asserted relation `signature^65537 mod modulus = message` is kept, as `SignatureSet.SignatureRelation`.
- numpy arrays are sequences.
- `math.log`/`math.pow` in the degree computation are the integer `PolynomialEvaluation.CeilLog2`. Floating-point rounding is not modelled.
- `temp_exp / 2` is Python 3 float division. It is integer halving of an even number here, which is the same value for exponents below 2^53.
- `optimization_proof_signature.py:55` passes the undefined name `modulo`. The model passes `modulus`, the parameter evidently meant.
- The comment at `optimization_proof_signature.py:22` speaks of one multiplication for 65537. `SignatureExponentiation.StepsOfDefaultExponent` shows the walk makes two.
- ModularAddition.AdditionComplete: assumes `result - a1 - a2` is an exact multiple of the modulus. The source never checks this.
- ModularMultiplication.MultiplicationComplete: assumes `result - a·b` is an exact multiple of the modulus. The source never checks this.
- SignatureExponentiation.SquaringComplete: assumes the squaring step's quotient divides exactly.
- SignatureExponentiation.MultiplicationStepComplete: assumes the multiplication step's quotient divides exactly.
- `PolynomialProof.verify` takes `commitment_to_eval` but never reads it, so `PolynomialEvaluationProof.Verdict` has no such parameter.
- RangeFF.ProofRange.Verify: the sign checks read the sign of `repr()`. Here they are `>= 0` on integers.
- RangeEC.ProofRange.Verify: the sign checks read the sign of `repr()`. Here they are `>= 0` on integers.
- RangeFF.HonestSubProofs: the square proof's key `com_pk_commitment_square` is a fresh key whose two generators are overwritten. Only its final generators are modelled.
- Polynomials.Eval: requires a positive modulus. For a zero modulus petlib's `mod_pow` and `mod_add` raise, and that exception is not modelled.
- Polynomials.FromRoots: requires a non-empty list of roots. For an empty list the source raises `IndexError` on `roots[0]`, and that exception is not modelled.
- Polynomials.FromRootsOpt: requires a non-empty list of roots, for the same `IndexError` on `roots[0]`.
- ModularAddition.Prove: requires a non-zero modulus. For a zero modulus the division at line 46 raises, and that exception is not modelled.
- ModularMultiplication.Prove: requires a non-zero modulus, for the same division by zero at line 46.
- PolynomialEvaluation.BitLength: requires a list of length at least 2. For shorter lists `math.log` of a number below 1 raises `ValueError`, and that exception is not modelled.
- SignatureExponentiation.Completeness: stated for `exponent > 0`. For exponent 0 the walk is empty and the terminal check compares against the initial commitment, which is not modelled as a separate case.
- SignatureExponentiation.ProveSquaring: the exactness of the step's quotient is proved in `SquaringComplete` rather than in its own contract.
- SignatureExponentiation.ProveMultiplicationStep: the exactness of the step's quotient is proved in `MultiplicationStepQuotient` rather than in its own contract.

## Findings

| source | as written | input that shows it | evidently intended | confidence | as-written member | corrected member |
|---|---|---|---|---|---|---|
| zero_knowledge_proofs/ec_based/proof_poly_eval_ec.py:50-52 | When `P(v) ≡ 0 (mod order)` the hidden polynomial's `X^(L+1)` coefficient is 0. The `Polynomial` constructor trims it, so `coefficients[:-1]` (line 159) drops `delta_L` instead. Only `L` delta commitments are made, and `verify` indexes `commitments_deltas[bit_length]` (line 136), raising `IndexError`. This is the case of every true set membership in `proof_signature_from_set.py`. | order 7, list `[6, 1]` (the polynomial `X - 1`), `v = 1` | the deltas are the coefficients of `X^0 .. X^L`, so the membership proof verifies | not executed | PolynomialEvaluationProof.AsWrittenRaises | PolynomialEvaluationProof.Completeness |
| zero_knowledge_proofs/ff_based/proof_signature_from_set.py:35-36 | The membership proof is the polynomial-evaluation proof at a root of the list's polynomial, so as written it raises for every true member. | roots `[1]` mod 7, modulus 1 | a true member's proof verifies | not executed | SignatureSet.AsWrittenMembershipRaises | SignatureSet.MembershipComplete |
