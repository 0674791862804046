/**
 * The polynomial-evaluation argument of Bayer and Groth, elliptic-curve
 * notation (zero_knowledge_proofs/ec_based/proof_poly_eval_ec.py).
 *
 * The prover holds commitments to a value v and to y = P(v), for a public
 * polynomial P with coefficient list a.  The list is padded with zeros to a
 * power-of-two degree 2^L; every index i < |a| then has L + 1 bits, and
 * P(X) = sum_i a_i X^i is rewritten through the squares v^(2^j).  The
 * prover commits to the squares, to blinded copies of them, to the
 * coefficients of a "hidden" polynomial in the challenge, and answers one
 * Fiat-Shamir challenge c.  The verifier checks three families of
 * equations in the group.
 *
 * Group elements are discrete logarithms (module DiscreteLog), commitments
 * are the one-value Pedersen commitments v g + r h, the hash is a parameter
 * and every `order.random()` draw is a coin parameter.
 */
module PolynomialEvaluation {
  import opened DiscreteLog
  import opened HashFunction
  import Ped = Pedersen
  import Poly = Polynomials

  // ---------------------------------------------------------------------
  // Sizes: degree, bit length and padding
  // ---------------------------------------------------------------------

  /** ceil(log2 n) for n >= 1: the least k with 2^k >= n. */
  function CeilLog2(n: nat): (k: nat)
    requires n >= 1
    ensures Pow2(k) >= n
    ensures k > 0 ==> Pow2(k - 1) < n
    decreases n
  {
    if n == 1 then 0 else 1 + CeilLog2((n + 1) / 2)
  }

  /** `self.bit_length = log2(self.degree)`, for a list of len >= 2 entries
    * (`math.log` of 0 or of a negative number raises). */
  function BitLength(len: nat): (b: nat)
    requires len >= 2
    ensures Pow2(b) >= len - 1
    ensures b > 0 ==> Pow2(b - 1) < len - 1
  {
    CeilLog2(len - 1)
  }

  /** `self.degree`: 2 to the power ceil(log2(len - 1)), the least power of
    * two that is at least len - 1. */
  function PaddedDegree(len: nat): (d: nat)
    requires len >= 2
    ensures d >= len - 1
    ensures BitLength(len) > 0 ==> d / 2 < len - 1
  {
    Pow2(BitLength(len))
  }

  /** `[0] * n`, which is empty for n <= 0. */
  function Zeros(n: int): (z: seq<int>)
    ensures |z| == if n > 0 then n else 0
    ensures forall i :: 0 <= i < |z| ==> z[i] == 0
  {
    if n <= 0 then [] else seq(n, _ => 0)
  }

  /** The list after `extend([0] * (degree - len(list)))`. */
  function Padded(s: seq<int>, degree: int): (r: seq<int>)
    ensures |r| == Poly.Max(|s|, degree)
    ensures r[..|s|] == s && forall i :: |s| <= i < |r| ==> r[i] == 0
  {
    s + Zeros(degree - |s|)
  }

  /** Padding a second time with the same degree adds nothing, as happens
    * when `verify` receives the list the prover already padded. */
  lemma {:induction false} PaddedIdempotent(s: seq<int>, degree: int)
    ensures Padded(Padded(s, degree), degree) == Padded(s, degree)
  {
    var p := Padded(s, degree);
    assert Zeros(degree - |p|) == [];
  }

  /** Padding leaves the polynomial's value unchanged. */
  lemma {:induction false} PaddedEvaluates(s: seq<int>, degree: int, x: int)
    ensures Poly.EvalSum(Padded(s, degree), x) == Poly.EvalSum(s, x)
  {
    var r := Padded(s, degree);
    Poly.EvalSumZeros(r, |s|, x);
  }

  /** The padded list of a list of len >= 2 entries has at most 2^(L + 1)
    * entries, so every index fits in L + 1 bits. */
  lemma {:induction false} PaddedLengthBound(s: seq<int>)
    requires |s| >= 2
    ensures var L := BitLength(|s|);
      |Padded(s, PaddedDegree(|s|))| <= Pow2(L + 1)
  {
  }

  /** The caller's `polynomial_list`: the constructor and `verify` extend it
    * in place, and the proof keeps a reference to it. */
  class CoefficientList {
    var items: seq<int>

    constructor (items: seq<int>)
      ensures this.items == items
    {
      this.items := items;
    }

    /** `polynomial_list.extend([0] * (degree - len(polynomial_list)))` */
    method PadTo(degree: int)
      modifies this
      ensures items == Padded(old(items), degree)
    {
      items := items + Zeros(degree - |items|);
    }
  }

  // ---------------------------------------------------------------------
  // binary_repr_int
  // ---------------------------------------------------------------------

  /** `bin(a)[2:]`: the binary digits of a, most significant first, "0"
    * for 0. */
  function BinDigits(a: nat): (d: seq<int>)
    ensures |d| >= 1
    ensures forall i :: 0 <= i < |d| ==> d[i] == 0 || d[i] == 1
  {
    if a < 2 then [a] else BinDigits(a / 2) + [a % 2]
  }

  /** `s[::-1]` */
  function Reverse(s: seq<int>): (r: seq<int>)
    ensures |r| == |s|
  {
    seq(|s|, i requires 0 <= i < |s| => s[|s| - 1 - i])
  }

  /** `binary_repr_int(a, length)`: leading zeros up to `length` digits, then
    * the list reversed, so that bit i sits at position i. */
  function BinaryRepr(a: nat, length: int): (bits: seq<int>)
    ensures |bits| >= 1 && |bits| >= length
    ensures forall i :: 0 <= i < |bits| ==> bits[i] == 0 || bits[i] == 1
  {
    var digits := BinDigits(a);
    Reverse(Zeros(length - |digits|) + digits)
  }

  /** The little-endian bits of a, built from the lowest bit up. */
  function LittleEndian(a: nat): (bits: seq<int>)
    ensures |bits| >= 1
  {
    if a < 2 then [a] else [a % 2] + LittleEndian(a / 2)
  }

  lemma {:induction false} ReverseConcat(x: seq<int>, y: seq<int>)
    ensures Reverse(x + y) == Reverse(y) + Reverse(x)
  {
  }

  lemma {:induction false} BinDigitsReversed(a: nat)
    ensures Reverse(BinDigits(a)) == LittleEndian(a)
    decreases a
  {
    if a >= 2 {
      BinDigitsReversed(a / 2);
      ReverseConcat(BinDigits(a / 2), [a % 2]);
    }
  }

  /** The output is the little-endian bits of a followed by zeros up to
    * `length`: it is longer than `length` only when a needs more bits. */
  lemma {:induction false} BinaryReprIsLittleEndian(a: nat, length: int)
    ensures BinaryRepr(a, length) == LittleEndian(a) + Zeros(length - |LittleEndian(a)|)
  {
    var digits := BinDigits(a);
    BinDigitsReversed(a);
    ReverseConcat(Zeros(length - |digits|), digits);
    assert Reverse(Zeros(length - |digits|)) == Zeros(length - |digits|);
  }

  /** Every entry is a bit, and the bits read back as a: sum_i b_i 2^i == a. */
  lemma {:induction false} LittleEndianValue(a: nat)
    ensures forall i :: 0 <= i < |LittleEndian(a)| ==> LittleEndian(a)[i] == 0 || LittleEndian(a)[i] == 1
    ensures Poly.EvalSum(LittleEndian(a), 2) == a
    decreases a
  {
    if a < 2 {
      assert [a][..0] == [];
    } else {
      LittleEndianValue(a / 2);
      Poly.EvalSumCons(a % 2, LittleEndian(a / 2), 2);
    }
  }

  /** a has at most n bits exactly when a < 2^n. */
  lemma {:induction false} LittleEndianLength(a: nat, n: nat)
    requires n >= 1
    ensures |LittleEndian(a)| <= n <==> a < Pow2(n)
    decreases a
  {
    if a >= 2 && n >= 2 {
      LittleEndianLength(a / 2, n - 1);
    }
  }

  /** The properties `binary_repr_int` promises: bits only, least
    * significant first, reading back as a, and of length `length` when a
    * fits in `length` bits. */
  lemma {:induction false} BinaryReprValue(a: nat, length: int)
    ensures var bits := BinaryRepr(a, length);
      && (forall i :: 0 <= i < |bits| ==> bits[i] == 0 || bits[i] == 1)
      && Poly.EvalSum(bits, 2) == a
      && |bits| >= length
      && (length >= 1 && a < Pow2(length) ==> |bits| == length)
  {
    var le := LittleEndian(a);
    var bits := BinaryRepr(a, length);
    BinaryReprIsLittleEndian(a, length);
    LittleEndianValue(a);
    Poly.EvalSumZeros(bits, |le|, 2);
    assert bits[..|le|] == le;
    if length >= 1 {
      LittleEndianLength(a, length);
    }
  }

  /** The docstring example. */
  lemma BinaryReprExample()
    ensures BinaryRepr(3, 4) == [1, 1, 0, 0]
  {
    assert BinDigits(1) == [1];
    assert BinDigits(3) == [1, 1];
    assert Zeros(2) == [0, 0];
    assert [0, 0] + [1, 1] == [0, 0, 1, 1];
  }

  // ---------------------------------------------------------------------
  // hidden_polynomial_computation
  // ---------------------------------------------------------------------

  predicate IsBit(b: int)
  {
    b == 0 || b == 1
  }

  /** v^(2^j) reduced modulo q: `value_to_eval.mod_pow(2 ** j, order)`. */
  function SquarePower(q: int, v: int, j: nat): (w: int)
    requires q > 0
    ensures 0 <= w < q
  {
    Pow(v, Pow2(j)) % q
  }

  /** One entry of `temp_poly`: `(Polynomial([rh, w], q) ** b) *
    * Polynomial([b, 1 - b], q)`, the factor rh + w X for a set bit and X
    * for a clear one. */
  function BitFactor(q: nat, rh: int, w: int, b: int): (f: Poly.Polynomial)
    requires q > 0 && IsBit(b)
    ensures Poly.Valid(f) && f.modulus == q
  {
    var powered := Poly.Power(Poly.Make([rh, w], q), b).value;
    Poly.Product(powered, Poly.PolynomialFactor(Poly.Make([b, 1 - b], q))).value
  }

  /** A factor has degree at most one, and its coefficient of X is w for a
    * set bit and 1 for a clear one. */
  lemma {:induction false} BitFactorShape(q: nat, rh: int, w: int, b: int)
    requires q > 0 && IsBit(b)
    ensures var f := BitFactor(q, rh, w, b).coefficients;
      |f| <= 2 && Poly.Entry(f, 1) == (if b == 1 then w else 1) % q
  {
    var lin := Poly.Make([rh, w], q);
    var sel := Poly.Make([b, 1 - b], q);
    Poly.TrimmedEntry([rh, w], 1);
    Poly.TrimmedEntry([b, 1 - b], 0);
    Poly.TrimmedEntry([b, 1 - b], 1);
    if b == 1 {
      assert Poly.Entry(sel.coefficients, 0) == 1;
      Poly.ProductTop(lin, sel, 1, 0);
    } else {
      var one := Poly.Polynomial([1], q);
      assert Poly.Entry(one.coefficients, 0) == 1;
      Poly.ProductTop(one, sel, 0, 1);
    }
  }

  /** The factor evaluates to rh + w x for a set bit and to x for a clear
    * one. */
  lemma {:induction false} BitFactorEvaluates(q: nat, rh: int, w: int, b: int, x: int)
    requires q > 0 && IsBit(b)
    ensures Poly.EvalSum(BitFactor(q, rh, w, b).coefficients, x) % q
         == (if b == 1 then rh + w * x else x) % q
  {
    var lin := Poly.Make([rh, w], q);
    var sel := Poly.Make([b, 1 - b], q);
    var powered := Poly.Power(lin, b).value;
    Poly.TrimmedEvaluates([rh, w], x);
    Poly.TrimmedEvaluates([b, 1 - b], x);
    EvalSumPair(rh, w, x);
    EvalSumPair(b, 1 - b, x);
    Poly.PowerEvaluates(lin, b, x);
    Poly.ProductEvaluates(powered, sel, x);
    if b == 1 {
      assert Poly.EvalSum(powered.coefficients, x) * Poly.EvalSum(sel.coefficients, x) == rh + w * x;
    } else {
      assert Poly.EvalSum(powered.coefficients, x) * Poly.EvalSum(sel.coefficients, x) == x;
    }
  }

  lemma {:induction false} EvalSumPair(c0: int, c1: int, x: int)
    ensures Poly.EvalSum([c0, c1], x) == c0 + c1 * x
  {
    assert [c0, c1][..1] == [c0];
    assert [c0][..0] == [];
    assert Poly.EvalSum([c0], x) == Poly.EvalSum([], x) + c0 * Pow(x, 0) == c0;
    assert Pow(x, 1) == x * Pow(x, 0) == x;
    assert Poly.EvalSum([c0, c1], x) == Poly.EvalSum([c0], x) + c1 * Pow(x, 1);
  }

  predicate AllOver(ps: seq<Poly.Polynomial>, q: nat)
  {
    forall j :: 0 <= j < |ps| ==> Poly.Valid(ps[j]) && ps[j].modulus == q
  }

  /** `reduce(lambda a, b: a * b, temp_poly)`: a left fold of products. */
  function FoldTimes(ps: seq<Poly.Polynomial>, q: nat): (r: Poly.Polynomial)
    requires |ps| > 0 && AllOver(ps, q)
    ensures Poly.Valid(r) && r.modulus == q
  {
    if |ps| == 1 then ps[0]
    else Poly.Product(FoldTimes(ps[..|ps| - 1], q), Poly.PolynomialFactor(ps[|ps| - 1])).value
  }

  /** The coefficients of X of the factors. */
  function Leads(ps: seq<Poly.Polynomial>): (e: seq<int>)
    ensures |e| == |ps|
  {
    seq(|ps|, j requires 0 <= j < |ps| => Poly.Entry(ps[j].coefficients, 1))
  }

  /** The values of the factors at x. */
  function Values(ps: seq<Poly.Polynomial>, x: int): (e: seq<int>)
    ensures |e| == |ps|
  {
    seq(|ps|, j requires 0 <= j < |ps| => Poly.EvalSum(ps[j].coefficients, x))
  }

  /** A product of n factors of degree at most one has degree at most n,
    * and its coefficient of X^n is the product of theirs. */
  lemma {:induction false} FoldTimesTop(ps: seq<Poly.Polynomial>, q: nat)
    requires q > 0 && |ps| > 0 && AllOver(ps, q)
    requires forall j :: 0 <= j < |ps| ==> |ps[j].coefficients| <= 2
    ensures var r := FoldTimes(ps, q).coefficients;
      |r| <= |ps| + 1 && Poly.Entry(r, |ps|) % q == Poly.ListProduct(Leads(ps)) % q
    decreases |ps|
  {
    var n := |ps|;
    var e := Leads(ps);
    if n == 1 {
      assert e[..0] == [];
      assert Poly.ListProduct(e) == e[0];
    } else {
      var front := ps[..n - 1];
      FoldTimesTop(front, q);
      assert Leads(front) == e[..n - 1];
      var acc := FoldTimes(front, q);
      Poly.ProductTop(acc, ps[n - 1], n - 1, 1);
      var a := Poly.Entry(acc.coefficients, n - 1);
      ModIdempotent(q, a * e[n - 1]);
      ModMulLeft(q, a, e[n - 1]);
      ModMulLeft(q, Poly.ListProduct(e[..n - 1]), e[n - 1]);
    }
  }

  /** The fold evaluates to the product of the factors' values. */
  lemma {:induction false} FoldTimesEvaluates(ps: seq<Poly.Polynomial>, q: nat, x: int)
    requires q > 0 && |ps| > 0 && AllOver(ps, q)
    ensures Poly.EvalSum(FoldTimes(ps, q).coefficients, x) % q == Poly.ListProduct(Values(ps, x)) % q
    decreases |ps|
  {
    var n := |ps|;
    var e := Values(ps, x);
    if n == 1 {
      assert e[..0] == [];
      assert Poly.ListProduct(e) == e[0];
    } else {
      var front := ps[..n - 1];
      FoldTimesEvaluates(front, q, x);
      assert Values(front, x) == e[..n - 1];
      var acc := FoldTimes(front, q);
      Poly.ProductEvaluates(acc, ps[n - 1], x);
      var a := Poly.EvalSum(acc.coefficients, x);
      ModMulLeft(q, a, e[n - 1]);
      ModMulLeft(q, Poly.ListProduct(e[..n - 1]), e[n - 1]);
    }
  }

  /** `temp_poly` for index i: one factor per bit j <= L. */
  function BitFactors(q: nat, v: int, rh: seq<int>, bits: seq<int>, n: nat): (ps: seq<Poly.Polynomial>)
    requires q > 0 && n <= |rh| && n <= |bits|
    requires forall j :: 0 <= j < |bits| ==> IsBit(bits[j])
    ensures |ps| == n && AllOver(ps, q)
  {
    seq(n, j requires 0 <= j < n => BitFactor(q, rh[j], SquarePower(q, v, j), bits[j]))
  }

  /** The product over the bits of index i: `reduce(lambda a, b: a * b, temp_poly)`. */
  function IndexPolynomial(q: nat, v: int, rh: seq<int>, L: nat, i: nat): (p: Poly.Polynomial)
    requires q > 0 && |rh| == L + 1
    ensures Poly.Valid(p) && p.modulus == q
  {
    BinaryReprValue(i, L + 1);
    FoldTimes(BitFactors(q, v, rh, BinaryRepr(i, L + 1), L + 1), q)
  }

  /** The products for the indexes 0 .. count - 1, in order. */
  function IndexPolynomials(q: nat, v: int, rh: seq<int>, L: nat, count: nat): (ips: seq<Poly.Polynomial>)
    requires q > 0 && |rh| == L + 1
    ensures |ips| == count && AllOver(ips, q)
  {
    seq(count, i requires 0 <= i < count => IndexPolynomial(q, v, rh, L, i))
  }

  /** `final_poly` after the first n passes: the sum of ips[i] * a_i over
    * i < n. */
  function HiddenSum(ips: seq<Poly.Polynomial>, a: seq<int>, q: nat, n: nat): (p: Poly.Polynomial)
    requires q > 0 && n <= |ips| && n <= |a| && AllOver(ips, q)
    ensures Poly.Valid(p) && p.modulus == q
  {
    if n == 0 then Poly.Make([0], q)
    else Accumulate(HiddenSum(ips, a, q, n - 1), ips[n - 1], a[n - 1])
  }

  /** One pass of the loop: `final_poly += reduce(...) * polynomial[i]`. */
  function Accumulate(prev: Poly.Polynomial, index: Poly.Polynomial, ai: int): (r: Poly.Polynomial)
    requires Poly.Valid(prev) && Poly.Valid(index) && prev.modulus == index.modulus
    ensures Poly.Valid(r) && r.modulus == prev.modulus
  {
    Poly.Add(prev, Poly.Product(index, Poly.Scalar(ai)).value).value
  }

  /** The hidden polynomial of the padded list a. */
  function Hidden(q: nat, v: int, rh: seq<int>, a: seq<int>, L: nat): (p: Poly.Polynomial)
    requires q > 0 && |rh| == L + 1
    ensures Poly.Valid(p) && p.modulus == q
  {
    HiddenSum(IndexPolynomials(q, v, rh, L, |a|), a, q, |a|)
  }

  /** `hidden_polynomial_computation` up to the slicing of its result:
    * `final_poly` summed over every index of the padded list. */
  method HiddenPolynomial(q: nat, v: int, rh: seq<int>, a: seq<int>, L: nat) returns (finalPoly: Poly.Polynomial)
    requires q > 0 && |rh| == L + 1
    ensures finalPoly == Hidden(q, v, rh, a, L)
  {
    ghost var ips := IndexPolynomials(q, v, rh, L, |a|);
    finalPoly := Poly.Make([0], q);
    for i := 0 to |a|
      invariant finalPoly == HiddenSum(ips, a, q, i)
    {
      var index := ComputeIndexPolynomial(q, v, rh, L, i);
      finalPoly := Accumulate(finalPoly, index, a[i]);
    }
  }

  /** One pass of the outer loop up to `temp_poly`: the bits of i, the list
    * of factors, and their product. */
  method ComputeIndexPolynomial(q: nat, v: int, rh: seq<int>, L: nat, i: nat) returns (index: Poly.Polynomial)
    requires q > 0 && |rh| == L + 1
    ensures index == IndexPolynomial(q, v, rh, L, i)
  {
    var bits := BinaryRepr(i, L + 1);
    BinaryReprValue(i, L + 1);
    var temp := BitFactorList(q, v, rh, bits, L + 1);
    index := FoldTimes(temp, q);
  }

  /** The list comprehension that builds `temp_poly`. */
  method BitFactorList(q: nat, v: int, rh: seq<int>, bits: seq<int>, n: nat) returns (temp: seq<Poly.Polynomial>)
    requires q > 0 && n <= |rh| && n <= |bits|
    requires forall j :: 0 <= j < |bits| ==> IsBit(bits[j])
    ensures temp == BitFactors(q, v, rh, bits, n)
  {
    temp := [];
    for j := 0 to n
      invariant temp == BitFactors(q, v, rh, bits, n)[..j]
    {
      temp := temp + [BitFactor(q, rh[j], SquarePower(q, v, j), bits[j])];
    }
  }

  // ---------------------------------------------------------------------
  // The coefficient of X^(L+1) of the hidden polynomial is P(v)
  // ---------------------------------------------------------------------

  lemma {:induction false} Pow2IsPow(n: nat)
    ensures Pow(2, n) == Pow2(n)
  {
    if n > 0 {
      Pow2IsPow(n - 1);
    }
  }

  /** The coefficients of X of the factors for the bits of one index:
    * v^(2^j) for a set bit and 1 for a clear one, reduced modulo q. */
  function LeadCoefficients(q: int, v: int, bits: seq<int>, n: nat): (e: seq<int>)
    requires q > 0 && n <= |bits|
    ensures |e| == n
  {
    seq(n, j requires 0 <= j < n => (if bits[j] == 1 then SquarePower(q, v, j) else 1) % q)
  }

  lemma {:induction false} LeadsOfBitFactors(q: nat, v: int, rh: seq<int>, bits: seq<int>, n: nat)
    requires q > 0 && n <= |rh| && n <= |bits|
    requires forall j :: 0 <= j < |bits| ==> IsBit(bits[j])
    ensures var ps := BitFactors(q, v, rh, bits, n);
      && (forall j :: 0 <= j < n ==> |ps[j].coefficients| <= 2)
      && Leads(ps) == LeadCoefficients(q, v, bits, n)
  {
    var ps := BitFactors(q, v, rh, bits, n);
    forall j | 0 <= j < n
      ensures |ps[j].coefficients| <= 2
      ensures Leads(ps)[j] == LeadCoefficients(q, v, bits, n)[j]
    {
      BitFactorShape(q, rh[j], SquarePower(q, v, j), bits[j]);
    }
  }

  /** The product of the leading coefficients is v raised to the number the
    * bits spell, sum_j b_j 2^j. */
  lemma {:induction false} LeadProduct(q: int, v: int, bits: seq<int>, n: nat)
    requires q > 0 && n <= |bits| && forall j :: 0 <= j < |bits| ==> IsBit(bits[j])
    ensures Poly.EvalSum(bits[..n], 2) >= 0
    ensures Poly.ListProduct(LeadCoefficients(q, v, bits, n)) % q == Pow(v, Poly.EvalSum(bits[..n], 2)) % q
  {
    var e := LeadCoefficients(q, v, bits, n);
    if n == 0 {
      assert bits[..0] == [];
      assert e == [];
    } else {
      var b := bits[n - 1];
      LeadProduct(q, v, bits, n - 1);
      assert e[..n - 1] == LeadCoefficients(q, v, bits, n - 1);
      assert bits[..n][..n - 1] == bits[..n - 1];
      var s := Poly.EvalSum(bits[..n - 1], 2);
      Pow2IsPow(n - 1);
      var k: nat := b * Pow2(n - 1);
      assert Poly.EvalSum(bits[..n], 2) == s + k;
      PowAdd(v, s, k);
      assert e[n - 1] == Pow(v, k) % q by {
        if b == 1 {
          ModIdempotent(q, Pow(v, Pow2(n - 1)));
        }
      }
      var lp := Poly.ListProduct(e[..n - 1]);
      ModMulLeft(q, lp, e[n - 1]);
      ModMulLeft(q, Pow(v, s), e[n - 1]);
      ModMulRight(q, Pow(v, s), Pow(v, k));
    }
  }

  /** The product for index i has degree at most L + 1; when i fits in
    * L + 1 bits its coefficient of X^(L+1) is v^i. */
  lemma {:induction false} IndexTop(q: nat, v: int, rh: seq<int>, L: nat, i: nat)
    requires q > 0 && |rh| == L + 1
    ensures var p := IndexPolynomial(q, v, rh, L, i).coefficients;
      && |p| <= L + 2
      && (i < Pow2(L + 1) ==> Poly.Entry(p, L + 1) % q == Pow(v, i) % q)
  {
    var bits := BinaryRepr(i, L + 1);
    BinaryReprValue(i, L + 1);
    var ps := BitFactors(q, v, rh, bits, L + 1);
    LeadsOfBitFactors(q, v, rh, bits, L + 1);
    FoldTimesTop(ps, q);
    if i < Pow2(L + 1) {
      IndexLead(q, v, bits, L);
    }
  }

  /** The product of the leading coefficients of L + 1 bits of i is v^i. */
  lemma {:induction false} IndexLead(q: nat, v: int, bits: seq<int>, L: nat)
    requires q > 0 && |bits| == L + 1 && forall j :: 0 <= j < |bits| ==> IsBit(bits[j])
    ensures Poly.EvalSum(bits, 2) >= 0
    ensures Poly.ListProduct(LeadCoefficients(q, v, bits, L + 1)) % q == Pow(v, Poly.EvalSum(bits, 2)) % q
  {
    assert bits[..L + 1] == bits;
    LeadProduct(q, v, bits, L + 1);
  }

  lemma {:induction false} TopAlgebra(q: int, s: int, ei: int, p: int, a: int, t: int)
    requires q > 0 && ei % q == p % q && t == s + a * p
    ensures (s % q + (ei * a) % q) % q == t % q
  {
    ModMulLeft(q, ei, a);
    ModMulLeft(q, p, a);
    assert p * a == a * p;
    ModAddLeft(q, s, (a * p) % q);
    ModAddLeft(q, a * p, s);
  }

  /** One pass of the loop keeps the degree bound and adds a_i v^i to the
    * top coefficient. */
  lemma {:induction false} HiddenTopStep(q: nat, prev: Poly.Polynomial, index: Poly.Polynomial, ai: int, L: nat, s: int, p: int, t: int)
    requires q > 0 && Poly.Valid(prev) && Poly.Valid(index) && prev.modulus == q && index.modulus == q
    requires |prev.coefficients| <= L + 2 && |index.coefficients| <= L + 2
    requires Poly.Entry(prev.coefficients, L + 1) == s % q
    requires Poly.Entry(index.coefficients, L + 1) % q == p % q
    requires t == s + ai * p
    ensures var r := Accumulate(prev, index, ai).coefficients;
      |r| <= L + 2 && Poly.Entry(r, L + 1) == t % q
  {
    Poly.ScaleTop(index, ai, L + 1);
    var term := Poly.Product(index, Poly.Scalar(ai)).value;
    Poly.AddTop(prev, term, L + 1);
    TopAlgebra(q, s, Poly.Entry(index.coefficients, L + 1), p, ai, t);
  }

  lemma {:induction false} HiddenSumTop(ips: seq<Poly.Polynomial>, a: seq<int>, q: nat, v: int, L: nat, n: nat)
    requires q > 0 && n <= |ips| && n <= |a| && AllOver(ips, q)
    requires forall i :: 0 <= i < |ips| ==>
      |ips[i].coefficients| <= L + 2 && Poly.Entry(ips[i].coefficients, L + 1) % q == Pow(v, i) % q
    ensures var h := HiddenSum(ips, a, q, n).coefficients;
      |h| <= L + 2 && Poly.Entry(h, L + 1) == Poly.EvalSum(a[..n], v) % q
  {
    if n == 0 {
      HiddenSumEmpty(ips, a, q);
      assert a[..0] == [];
    } else {
      HiddenSumTop(ips, a, q, v, L, n - 1);
      PrefixSum(a, n, v);
      HiddenTopStep(q, HiddenSum(ips, a, q, n - 1), ips[n - 1], a[n - 1], L,
        Poly.EvalSum(a[..n - 1], v), Pow(v, n - 1), Poly.EvalSum(a[..n], v));
    }
  }

  lemma HiddenSumEmpty(ips: seq<Poly.Polynomial>, a: seq<int>, q: nat)
    requires q > 0 && AllOver(ips, q)
    ensures HiddenSum(ips, a, q, 0).coefficients == [0]
  {
    assert Poly.Trimmed([0]) == [0];
  }

  /** Extending a prefix by one element adds its term. */
  lemma PrefixSum(a: seq<int>, n: nat, v: int)
    requires 0 < n <= |a|
    ensures Poly.EvalSum(a[..n], v) == Poly.EvalSum(a[..n - 1], v) + a[n - 1] * Pow(v, n - 1)
  {
    assert a[..n][..n - 1] == a[..n - 1];
  }

  /** The hidden polynomial has degree at most L + 1, and its coefficient of
    * X^(L+1) is P(v) mod q: this is the coefficient the commitment to y
    * stands in for in the third check. */
  lemma {:induction false} HiddenTop(q: nat, v: int, rh: seq<int>, a: seq<int>, L: nat)
    requires q > 0 && |rh| == L + 1 && |a| <= Pow2(L + 1)
    ensures var h := Hidden(q, v, rh, a, L).coefficients;
      |h| <= L + 2 && Poly.Entry(h, L + 1) == Poly.EvalSum(a, v) % q
  {
    var ips := IndexPolynomials(q, v, rh, L, |a|);
    forall i | 0 <= i < |ips|
      ensures |ips[i].coefficients| <= L + 2 && Poly.Entry(ips[i].coefficients, L + 1) % q == Pow(v, i) % q
    {
      IndexTop(q, v, rh, L, i);
    }
    HiddenSumTop(ips, a, q, v, L, |a|);
    assert a[..|a|] == a;
  }

  // ---------------------------------------------------------------------
  // The value of the hidden polynomial
  // ---------------------------------------------------------------------

  /** The factor values at x: rh_j + w_j x for a set bit, x for a clear one. */
  function FactorValues(q: int, v: int, rh: seq<int>, bits: seq<int>, n: nat, x: int): (f: seq<int>)
    requires q > 0 && n <= |rh| && n <= |bits|
    ensures |f| == n
  {
    seq(n, j requires 0 <= j < n => if bits[j] == 1 then rh[j] + SquarePower(q, v, j) * x else x)
  }

  /** The value at x of the product for index i. */
  function IndexValue(q: int, v: int, rh: seq<int>, L: nat, i: nat, x: int): int
    requires q > 0 && |rh| == L + 1
  {
    BinaryReprValue(i, L + 1);
    Poly.ListProduct(FactorValues(q, v, rh, BinaryRepr(i, L + 1), L + 1, x))
  }

  /** The values at x of the products for the indexes 0 .. count - 1. */
  function IndexValues(q: int, v: int, rh: seq<int>, L: nat, count: nat, x: int): (vals: seq<int>)
    requires q > 0 && |rh| == L + 1
    ensures |vals| == count
  {
    seq(count, i requires 0 <= i < count => IndexValue(q, v, rh, L, i, x))
  }

  /** sum_(i<n) u_i w_i */
  function Dot(u: seq<int>, w: seq<int>, n: nat): int
    requires n <= |u| && n <= |w|
  {
    if n == 0 then 0 else Dot(u, w, n - 1) + u[n - 1] * w[n - 1]
  }

  lemma {:induction false} IndexEvaluates(q: nat, v: int, rh: seq<int>, L: nat, i: nat, x: int)
    requires q > 0 && |rh| == L + 1
    ensures Poly.EvalSum(IndexPolynomial(q, v, rh, L, i).coefficients, x) % q == IndexValue(q, v, rh, L, i, x) % q
  {
    var bits := BinaryRepr(i, L + 1);
    BinaryReprValue(i, L + 1);
    var ps := BitFactors(q, v, rh, bits, L + 1);
    var f := FactorValues(q, v, rh, bits, L + 1, x);
    FoldTimesEvaluates(ps, q, x);
    forall j | 0 <= j < L + 1
      ensures Poly.Reduce(Values(ps, x)[j], q) == Poly.Reduce(f[j], q)
    {
      FactorCongruent(q, v, rh, bits, L + 1, x, j);
    }
    Poly.ListProductCongruent(Values(ps, x), f, q);
  }

  lemma {:induction false} FactorCongruent(q: nat, v: int, rh: seq<int>, bits: seq<int>, n: nat, x: int, j: nat)
    requires q > 0 && n <= |rh| && n <= |bits| && j < n
    requires forall j :: 0 <= j < |bits| ==> IsBit(bits[j])
    ensures Poly.Reduce(Values(BitFactors(q, v, rh, bits, n), x)[j], q)
         == Poly.Reduce(FactorValues(q, v, rh, bits, n, x)[j], q)
  {
    var w := SquarePower(q, v, j);
    BitFactorEvaluates(q, rh[j], w, bits[j], x);
  }

  /** One pass of the loop adds IndexValue(i, x) a_i to the value. */
  lemma {:induction false} HiddenValueStep(q: nat, prev: Poly.Polynomial, index: Poly.Polynomial, ai: int, x: int, s: int, iv: int, sum: int)
    requires q > 0 && Poly.Valid(prev) && Poly.Valid(index) && prev.modulus == q && index.modulus == q
    requires Poly.EvalSum(prev.coefficients, x) % q == s % q
    requires Poly.EvalSum(index.coefficients, x) % q == iv % q
    requires sum == s + iv * ai
    ensures Poly.EvalSum(Accumulate(prev, index, ai).coefficients, x) % q == sum % q
  {
    Poly.ScaleEvaluates(index, ai, x);
    var term := Poly.Product(index, Poly.Scalar(ai)).value;
    Poly.AddEvaluates(prev, term, x);
    SumAlgebra(q, Poly.EvalSum(Poly.Add(prev, term).value.coefficients, x),
      Poly.EvalSum(prev.coefficients, x), Poly.EvalSum(term.coefficients, x), s,
      Poly.EvalSum(index.coefficients, x), iv, ai, sum);
  }

  lemma {:induction false} SumAlgebra(q: nat, all: int, h: int, t: int, s: int, ti: int, iv: int, a: int, sum: int)
    requires q > 0 && Poly.Reduce(all, q) == Poly.Reduce(h + t, q) && Poly.Reduce(t, q) == Poly.Reduce(ti * a, q)
    requires ti % q == iv % q && h % q == s % q && sum == s + iv * a
    ensures all % q == sum % q
  {
    Poly.ReduceProduct(q, ti, iv, a);
    assert a * ti == ti * a && a * iv == iv * a;
    Poly.ReduceSum(q, h, s, t, iv * a);
  }

  lemma {:induction false} HiddenSumEvaluates(ips: seq<Poly.Polynomial>, a: seq<int>, q: nat, n: nat, x: int, vals: seq<int>)
    requires q > 0 && n <= |ips| && n <= |a| && AllOver(ips, q) && |vals| == |ips|
    requires forall i :: 0 <= i < |ips| ==> Poly.EvalSum(ips[i].coefficients, x) % q == vals[i] % q
    ensures Poly.EvalSum(HiddenSum(ips, a, q, n).coefficients, x) % q == Dot(vals, a, n) % q
  {
    if n == 0 {
      HiddenSumEmpty(ips, a, q);
      Poly.EvalSumOfZeros([0], x);
    } else {
      HiddenSumEvaluates(ips, a, q, n - 1, x, vals);
      HiddenValueStep(q, HiddenSum(ips, a, q, n - 1), ips[n - 1], a[n - 1], x, Dot(vals, a, n - 1), vals[n - 1], Dot(vals, a, n));
    }
  }

  /** The hidden polynomial evaluates to sum_i a_i prod_j T_ij(x), where
    * T_ij(x) is rh_j + v^(2^j) x for a set bit j of i and x otherwise. */
  lemma {:induction false} HiddenEvaluates(q: nat, v: int, rh: seq<int>, a: seq<int>, L: nat, x: int)
    requires q > 0 && |rh| == L + 1
    ensures Poly.EvalSum(Hidden(q, v, rh, a, L).coefficients, x) % q == Dot(IndexValues(q, v, rh, L, |a|, x), a, |a|) % q
  {
    var ips := IndexPolynomials(q, v, rh, L, |a|);
    var vals := IndexValues(q, v, rh, L, |a|, x);
    forall i | 0 <= i < |ips|
      ensures Poly.EvalSum(ips[i].coefficients, x) % q == vals[i] % q
    {
      IndexEvaluates(q, v, rh, L, i, x);
    }
    HiddenSumEvaluates(ips, a, q, |a|, x, vals);
  }
}
