/**
 * Polynomials over Z_m (primitives/polynomial.py).
 *
 * A Polynomial holds its coefficients a_0, a_1, ..., a_n in ascending order
 * and an optional modulus.  The source tests the modulus for truth
 * (`if self.modulo:`), so a missing modulus and the modulus 0 behave alike;
 * here the modulus is a natural number and 0 stands for both.  Every
 * `mod_add`/`mod_mul`/`mod` of petlib returns the non-negative residue, which
 * is Dafny's `%` for a positive modulus.
 */
module Polynomials {
  import opened Wrappers
  import opened DiscreteLog

  /** A Polynomial object: `coefficients` after trimming, and `modulo`. */
  datatype Polynomial = Polynomial(coefficients: seq<int>, modulus: nat)

  /** `TypeError` (different moduli) and `ValueError` (a power other than 0 or 1). */
  datatype PolynomialError = ModulusMismatch | UnsupportedPower

  /** The second operand of `*`: another Polynomial or a scalar. */
  datatype Factor = PolynomialFactor(p: Polynomial) | Scalar(k: int)

  /** Every Polynomial the constructor builds has at least one coefficient. */
  predicate Valid(p: Polynomial)
  {
    |p.coefficients| > 0
  }

  /** `self.degree`: the number of coefficients after trimming. */
  function Degree(p: Polynomial): nat
  {
    |p.coefficients|
  }

  /** The residue the source stores: reduced when a modulus is set. */
  function Reduce(x: int, m: nat): int
  {
    if m > 0 then x % m else x
  }

  // ---------------------------------------------------------------------
  // The constructor: trailing zeros are dropped, but never the last one.
  // ---------------------------------------------------------------------

  /** The coefficients without their trailing zeros, keeping at least one. */
  function Trimmed(c: seq<int>): (t: seq<int>)
    requires |c| > 0
    ensures 0 < |t| <= |c| && t == c[..|t|]
    ensures |t| == 1 || t[|t| - 1] != 0
    ensures forall i :: |t| <= i < |c| ==> c[i] == 0
    decreases |c|
  {
    if |c| > 1 && c[|c| - 1] == 0 then Trimmed(c[..|c| - 1]) else c
  }

  /** The Polynomial the constructor builds from a list and a modulus. */
  function Make(c: seq<int>, m: nat): (p: Polynomial)
    requires |c| > 0
    ensures Valid(p) && p.modulus == m
  {
    Polynomial(Trimmed(c), m)
  }

  /** Polynomial(coefficients, modulo): pops trailing zeros while more than
    * one coefficient is left.  An empty list makes the source fail on
    * `coefficients[-1]`, hence the precondition. */
  method NewPolynomial(coefficients: seq<int>, modulus: nat) returns (p: Polynomial)
    requires |coefficients| > 0
    ensures p == Make(coefficients, modulus)
    ensures Degree(p) == |Trimmed(coefficients)|
  {
    var c := coefficients;
    while c[|c| - 1] == 0 && |c| > 1
      invariant 0 < |c| <= |coefficients|
      invariant Trimmed(c) == Trimmed(coefficients)
      decreases |c|
    {
      c := c[..|c| - 1];
    }
    p := Polynomial(c, modulus);
  }

  /** Trimming is characterised by its contract: a non-empty prefix that
    * ends in a non-zero coefficient (or is a single one), followed only by
    * zeros, is the trimmed list. */
  lemma {:induction false} TrimmedUnique(c: seq<int>, t: seq<int>)
    requires 0 < |t| <= |c| && t == c[..|t|]
    requires |t| == 1 || t[|t| - 1] != 0
    requires forall i :: |t| <= i < |c| ==> c[i] == 0
    ensures Trimmed(c) == t
    decreases |c|
  {
    if |c| > |t| {
      var c' := c[..|c| - 1];
      assert c'[..|t|] == t;
      TrimmedUnique(c', t);
    }
  }

  /** Trimming a trimmed list changes nothing. */
  lemma {:induction false} TrimmedIdempotent(c: seq<int>)
    requires |c| > 0
    ensures Trimmed(Trimmed(c)) == Trimmed(c)
  {
    var t := Trimmed(c);
    TrimmedUnique(t, t);
  }

  /** A list whose last coefficient is not zero is kept as it is. */
  lemma {:induction false} TrimmedKeepsNonZeroTop(c: seq<int>)
    requires |c| > 0 && c[|c| - 1] != 0
    ensures Trimmed(c) == c
  {
  }

  // ---------------------------------------------------------------------
  // Evaluation as an integer sum, the reference for every operation.
  // ---------------------------------------------------------------------

  /** sum_i c_i x^i over the integers. */
  function EvalSum(c: seq<int>, x: int): int
    decreases |c|
  {
    if |c| == 0 then 0 else EvalSum(c[..|c| - 1], x) + c[|c| - 1] * Pow(x, |c| - 1)
  }

  /** Trailing zeros do not change the value. */
  lemma {:induction false} EvalSumZeros(c: seq<int>, n: nat, x: int)
    requires n <= |c|
    requires forall i :: n <= i < |c| ==> c[i] == 0
    ensures EvalSum(c, x) == EvalSum(c[..n], x)
    decreases |c|
  {
    if |c| > n {
      assert c[..|c| - 1][..n] == c[..n];
      EvalSumZeros(c[..|c| - 1], n, x);
    } else {
      assert c[..n] == c;
    }
  }

  /** Trimming keeps the value of the polynomial at every point. */
  lemma {:induction false} TrimmedEvaluates(c: seq<int>, x: int)
    requires |c| > 0
    ensures EvalSum(Trimmed(c), x) == EvalSum(c, x)
  {
    EvalSumZeros(c, |Trimmed(c)|, x);
  }

  /** Residues, the two-sided congruence the reduced operations keep. */
  lemma {:induction false} ReduceSum(m: nat, a: int, a': int, b: int, b': int)
    requires Reduce(a, m) == Reduce(a', m) && Reduce(b, m) == Reduce(b', m)
    ensures Reduce(a + b, m) == Reduce(a' + b', m)
  {
    if m > 0 {
      ModAddLeft(m, a, b);
      ModAddLeft(m, b, a % m);
      ModAddLeft(m, a', b');
      ModAddLeft(m, b', a' % m);
    } else {
      assert a == a' && b == b';
    }
  }

  lemma {:induction false} ReduceProduct(m: nat, a: int, a': int, k: int)
    requires Reduce(a, m) == Reduce(a', m)
    ensures Reduce(k * a, m) == Reduce(k * a', m)
  {
    if m > 0 {
      ModMulRight(m, k, a);
      ModMulRight(m, k, a');
    } else {
      assert a == a';
    }
  }

  lemma {:induction false} ReduceReduced(m: nat, x: int)
    ensures Reduce(Reduce(x, m), m) == Reduce(x, m)
  {
    if m > 0 {
      ModIdempotent(m, x);
    }
  }

  /** Reducing every coefficient keeps the value modulo m. */
  lemma {:induction false} ReducedEvaluates(c: seq<int>, r: seq<int>, m: nat, x: int)
    requires |r| == |c| && forall i :: 0 <= i < |c| ==> Reduce(r[i], m) == Reduce(c[i], m)
    ensures Reduce(EvalSum(r, x), m) == Reduce(EvalSum(c, x), m)
    decreases |c|
  {
    if |c| > 0 {
      var n := |c| - 1;
      ReducedEvaluates(c[..n], r[..n], m, x);
      ReduceProduct(m, r[n], c[n], Pow(x, n));
      assert r[n] * Pow(x, n) == Pow(x, n) * r[n] && c[n] * Pow(x, n) == Pow(x, n) * c[n];
      ReduceSum(m, EvalSum(r[..n], x), EvalSum(c[..n], x), r[n] * Pow(x, n), c[n] * Pow(x, n));
    }
  }

  // ---------------------------------------------------------------------
  // eval
  // ---------------------------------------------------------------------

  /** The value `eval` computes: sum_i c_i x^i reduced modulo m. */
  function Value(p: Polynomial, x: int): int
    requires p.modulus > 0
  {
    EvalSum(p.coefficients, x) % p.modulus
  }

  /** eval(point): result = result.mod_add(c_i * point.mod_pow(i, m), m) for
    * each coefficient in turn.  Without a modulus `mod_pow` fails, hence the
    * precondition. */
  method Eval(p: Polynomial, point: int) returns (result: int)
    requires p.modulus > 0
    ensures result == Value(p, point)
    ensures 0 <= result < p.modulus
  {
    var m, c := p.modulus, p.coefficients;
    result := 0;
    for index := 0 to |c|
      invariant result == EvalSum(c[..index], point) % m
    {
      result := (result + c[index] * (Pow(point, index) % m)) % m;
      EvalStep(c, index, point, m);
    }
    assert c[..|c|] == c;
  }

  lemma {:induction false} EvalStep(c: seq<int>, i: nat, x: int, m: int)
    requires i < |c| && m > 0
    ensures (EvalSum(c[..i], x) % m + c[i] * (Pow(x, i) % m)) % m == EvalSum(c[..i + 1], x) % m
  {
    assert c[..i + 1][..i] == c[..i];
    ModAddLeft(m, EvalSum(c[..i], x), c[i] * (Pow(x, i) % m));
    ModMulRight(m, c[i], Pow(x, i));
    ModAddLeft(m, c[i] * (Pow(x, i) % m), EvalSum(c[..i], x));
    ModAddLeft(m, c[i] * Pow(x, i), EvalSum(c[..i], x));
  }

  /** The doctest: [1, 2] modulo 7 is 5 at 2 and 0 at 3. */
  lemma EvalExample()
    ensures Value(Polynomial([1, 2], 7), 2) == 5
    ensures Value(Polynomial([1, 2], 7), 3) == 0
  {
    assert [1, 2][..1] == [1] && [1][..0] == [];
  }

  // ---------------------------------------------------------------------
  // Linear facts about EvalSum.
  // ---------------------------------------------------------------------

  /** Pointwise sums of coefficient lists add the values. */
  lemma {:induction false} EvalSumAdd(a: seq<int>, b: seq<int>, r: seq<int>, x: int)
    requires |a| == |b| == |r| && forall i :: 0 <= i < |r| ==> r[i] == a[i] + b[i]
    ensures EvalSum(r, x) == EvalSum(a, x) + EvalSum(b, x)
    decreases |r|
  {
    if |r| > 0 {
      var n := |r| - 1;
      EvalSumAdd(a[..n], b[..n], r[..n], x);
      assert r[n] * Pow(x, n) == a[n] * Pow(x, n) + b[n] * Pow(x, n);
    }
  }

  /** A list of zeros is the zero polynomial. */
  lemma {:induction false} EvalSumOfZeros(c: seq<int>, x: int)
    requires forall i :: 0 <= i < |c| ==> c[i] == 0
    ensures EvalSum(c, x) == 0
  {
    EvalSumZeros(c, 0, x);
    assert c[..0] == [];
  }

  /** The coefficient at i, or the fill value 0 past the end. */
  function Entry(s: seq<int>, i: int): int
  {
    if 0 <= i < |s| then s[i] else 0
  }

  /** Zero-padding to a longer length keeps the value. */
  lemma {:induction false} EvalSumPadded(c: seq<int>, r: seq<int>, x: int)
    requires |r| >= |c| && forall i :: 0 <= i < |r| ==> r[i] == Entry(c, i)
    ensures EvalSum(r, x) == EvalSum(c, x)
  {
    EvalSumZeros(r, |c|, x);
    assert r[..|c|] == c;
  }

  /** The list a * c shifted up by i places, cut or padded to length n. */
  function Shifted(c: seq<int>, a: int, i: nat, n: nat): (r: seq<int>)
    ensures |r| == n
  {
    seq(n, k requires 0 <= k < n => if i <= k < i + |c| then a * c[k - i] else 0)
  }

  /** Shifting by i places multiplies the value by x^i. */
  lemma {:induction false} ShiftedEvaluates(c: seq<int>, a: int, i: nat, n: nat, x: int)
    requires n >= i + |c|
    ensures EvalSum(Shifted(c, a, i, n), x) == a * Pow(x, i) * EvalSum(c, x)
    decreases n
  {
    var r := Shifted(c, a, i, n);
    if |c| == 0 {
      EvalSumOfZeros(r, x);
    } else if n > i + |c| {
      assert r[..n - 1] == Shifted(c, a, i, n - 1);
      ShiftedEvaluates(c, a, i, n - 1, x);
    } else {
      var l := |c| - 1;
      var c' := c[..l];
      assert r[..n - 1] == Shifted(c', a, i, n - 1);
      assert c[..l] == c';
      ShiftedEvaluates(c', a, i, n - 1, x);
      PowAdd(x, i, l);
      assert r[n - 1] == a * c[l];
      ShiftStep(a, Pow(x, i), EvalSum(c', x), c[l], Pow(x, l));
    }
  }

  lemma {:induction false} ShiftStep(a: int, p: int, e: int, top: int, pTop: int)
    ensures a * p * e + (a * top) * (p * pTop) == a * p * (e + top * pTop)
  {
    assert (a * top) * (p * pTop) == (a * p) * (top * pTop);
  }

  // ---------------------------------------------------------------------
  // zip_longest and __add__
  // ---------------------------------------------------------------------

  function Max(a: int, b: int): int
  {
    if a >= b then a else b
  }

  /** zip_longest(iter1, iter2): the pairs of entries, the shorter list
    * filled with 0. */
  function ZipLongest(s1: seq<int>, s2: seq<int>): (r: seq<(int, int)>)
    ensures |r| == Max(|s1|, |s2|)
  {
    seq(Max(|s1|, |s2|), i requires 0 <= i => (Entry(s1, i), Entry(s2, i)))
  }

  /** Projecting the pairs gives each list back, followed by fill values. */
  lemma {:induction false} ZipLongestUnzips(s1: seq<int>, s2: seq<int>)
    ensures var r := ZipLongest(s1, s2);
      && (forall i :: 0 <= i < |s1| ==> r[i].0 == s1[i])
      && (forall i :: 0 <= i < |s2| ==> r[i].1 == s2[i])
      && (forall i :: |s1| <= i < |r| ==> r[i].0 == 0)
      && (forall i :: |s2| <= i < |r| ==> r[i].1 == 0)
  {
  }

  /** The coefficient list `__add__` builds before the constructor trims it. */
  function AddCoefficients(c1: seq<int>, c2: seq<int>, m: nat): (r: seq<int>)
    ensures |r| == Max(|c1|, |c2|)
  {
    var z := ZipLongest(c1, c2);
    seq(|z|, i requires 0 <= i < |z| => Reduce(z[i].0 + z[i].1, m))
  }

  /** `__add__`: coefficient-wise sums (mod_add when a modulus is set), and
    * TypeError for different moduli. */
  function Add(a: Polynomial, b: Polynomial): (r: Result<Polynomial, PolynomialError>)
    requires Valid(a) && Valid(b)
    ensures r.Err? <==> a.modulus != b.modulus
    ensures r.Err? ==> r.error == ModulusMismatch
    ensures r.Ok? ==> Valid(r.value) && r.value.modulus == a.modulus
  {
    if a.modulus != b.modulus then Err(ModulusMismatch)
    else Ok(Make(AddCoefficients(a.coefficients, b.coefficients, a.modulus), a.modulus))
  }

  /** The sum evaluates to the sum of the values (modulo m when set). */
  lemma {:induction false} AddEvaluates(a: Polynomial, b: Polynomial, x: int)
    requires Valid(a) && Valid(b) && a.modulus == b.modulus
    ensures Add(a, b).Ok?
    ensures Reduce(EvalSum(Add(a, b).value.coefficients, x), a.modulus)
            == Reduce(EvalSum(a.coefficients, x) + EvalSum(b.coefficients, x), a.modulus)
  {
    var r := AddCoefficients(a.coefficients, b.coefficients, a.modulus);
    assert Add(a, b).value.coefficients == Trimmed(r);
    TrimmedEvaluates(r, x);
    AddCoefficientsEvaluate(a.coefficients, b.coefficients, a.modulus, x);
  }

  /** The zipped, reduced sums evaluate to the sum of the values. */
  lemma {:induction false} AddCoefficientsEvaluate(c1: seq<int>, c2: seq<int>, m: nat, x: int)
    ensures Reduce(EvalSum(AddCoefficients(c1, c2, m), x), m) == Reduce(EvalSum(c1, x) + EvalSum(c2, x), m)
  {
    var n := Max(|c1|, |c2|);
    var r := AddCoefficients(c1, c2, m);
    var p1 := seq(n, i requires 0 <= i < n => Entry(c1, i));
    var p2 := seq(n, i requires 0 <= i < n => Entry(c2, i));
    var sum := seq(n, i requires 0 <= i < n => p1[i] + p2[i]);
    AddCoefficientsReduce(c1, c2, m, sum);
    ReducedEvaluates(sum, r, m, x);
    EvalSumAdd(p1, p2, sum, x);
    EvalSumPadded(c1, p1, x);
    EvalSumPadded(c2, p2, x);
  }

  lemma {:induction false} AddCoefficientsReduce(c1: seq<int>, c2: seq<int>, m: nat, sum: seq<int>)
    requires |sum| == Max(|c1|, |c2|)
    requires forall i :: 0 <= i < |sum| ==> sum[i] == Entry(c1, i) + Entry(c2, i)
    ensures var r := AddCoefficients(c1, c2, m);
      forall i :: 0 <= i < |sum| ==> Reduce(r[i], m) == Reduce(sum[i], m)
  {
    var r := AddCoefficients(c1, c2, m);
    forall i | 0 <= i < |sum|
      ensures Reduce(r[i], m) == Reduce(sum[i], m)
    {
      ReduceReduced(m, sum[i]);
    }
  }

  /** The doctests: [1,2,4,0,5] + [3,5,2,2,6] is [4,7,6,2,11] modulo 13 and
    * [4,2,1,2,1] modulo 5. */
  lemma AddExample()
    ensures Add(Polynomial([1, 2, 4, 0, 5], 13), Polynomial([3, 5, 2, 2, 6], 13))
            == Ok(Polynomial([4, 7, 6, 2, 11], 13))
    ensures Add(Polynomial([1, 2, 4, 0, 5], 5), Polynomial([3, 5, 2, 2, 6], 5))
            == Ok(Polynomial([4, 2, 1, 2, 1], 5))
  {
    assert AddCoefficients([1, 2, 4, 0, 5], [3, 5, 2, 2, 6], 13) == [4, 7, 6, 2, 11];
    assert AddCoefficients([1, 2, 4, 0, 5], [3, 5, 2, 2, 6], 5) == [4, 2, 1, 2, 1];
  }

  // ---------------------------------------------------------------------
  // __mul__
  // ---------------------------------------------------------------------

  /** Row i of the schoolbook product at position k: a_i b_(k-i), when both
    * coefficients exist. */
  function Term(c1: seq<int>, c2: seq<int>, i: int, k: int): int
  {
    if 0 <= i < |c1| && 0 <= k - i < |c2| then c1[i] * c2[k - i] else 0
  }

  /** The sum of the first n rows at position k. */
  function Rows(c1: seq<int>, c2: seq<int>, n: nat, k: int): int
  {
    if n == 0 then 0 else Rows(c1, c2, n - 1, k) + Term(c1, c2, n - 1, k)
  }

  /** The coefficient list of the product before trimming: position k holds
    * sum_(i+j=k) a_i b_j, reduced when a modulus is set. */
  function Convolution(c1: seq<int>, c2: seq<int>, m: nat): (r: seq<int>)
    requires |c1| > 0 && |c2| > 0
    ensures |r| == |c1| + |c2| - 1
  {
    seq(|c1| + |c2| - 1, k requires 0 <= k => Reduce(Rows(c1, c2, |c1|, k), m))
  }

  /** The coefficient list of a product by a scalar. */
  function ScaleCoefficients(c: seq<int>, k: int, m: nat): (r: seq<int>)
    ensures |r| == |c|
  {
    seq(|c|, i requires 0 <= i < |c| => Reduce(c[i] * k, m))
  }

  /** What `__mul__` returns: the product polynomial, the scaled polynomial,
    * or TypeError when two polynomials have different moduli. */
  function Product(a: Polynomial, other: Factor): (r: Result<Polynomial, PolynomialError>)
    requires Valid(a) && (other.PolynomialFactor? ==> Valid(other.p))
    ensures r.Err? <==> other.PolynomialFactor? && other.p.modulus != a.modulus
    ensures r.Err? ==> r.error == ModulusMismatch
    ensures r.Ok? ==> Valid(r.value) && r.value.modulus == a.modulus
  {
    match other
    case PolynomialFactor(b) =>
      if a.modulus != b.modulus then Err(ModulusMismatch)
      else Ok(Make(Convolution(a.coefficients, b.coefficients, a.modulus), a.modulus))
    case Scalar(k) => Ok(Make(ScaleCoefficients(a.coefficients, k, a.modulus), a.modulus))
  }

  /** The part of row i already added after j steps of the inner loop. */
  function PartialRow(c1: seq<int>, c2: seq<int>, i: int, j: int, k: int): int
  {
    if 0 <= i < |c1| && i <= k < i + j && k - i < |c2| then c1[i] * c2[k - i] else 0
  }

  /** `__mul__`: the nested loops add every a_i b_j into res[i + j] (with
    * mod_add when a modulus is set); a scalar multiplies each coefficient. */
  method Mul(a: Polynomial, other: Factor) returns (r: Result<Polynomial, PolynomialError>)
    requires Valid(a) && (other.PolynomialFactor? ==> Valid(other.p))
    ensures r == Product(a, other)
  {
    var m := a.modulus;
    match other
    case Scalar(k) =>
      var res := ScaleCoefficients(a.coefficients, k, m);
      var p := NewPolynomial(res, m);
      r := Ok(p);
    case PolynomialFactor(b) =>
      if m != b.modulus {
        r := Err(ModulusMismatch);
        return;
      }
      var c1, c2 := a.coefficients, b.coefficients;
      var res := new int[|c1| + |c2| - 1](_ => 0);
      for i := 0 to |c1|
        invariant forall k :: 0 <= k < res.Length ==> res[k] == Reduce(Rows(c1, c2, i, k), m)
      {
        for j := 0 to |c2|
          invariant forall k :: 0 <= k < res.Length ==>
                      res[k] == Reduce(Rows(c1, c2, i, k) + PartialRow(c1, c2, i, j, k), m)
        {
          MulStep(c1, c2, i, j, m, res[i + j]);
          res[i + j] := Reduce(res[i + j] + c1[i] * c2[j], m);
        }
        RowComplete(c1, c2, i, res.Length);
      }
      assert res[..] == Convolution(c1, c2, m);
      var p := NewPolynomial(res[..], m);
      r := Ok(p);
  }

  /** One inner step adds a_i b_j at position i + j and nowhere else. */
  lemma {:induction false} MulStep(c1: seq<int>, c2: seq<int>, i: int, j: int, m: nat, before: int)
    requires 0 <= i < |c1| && 0 <= j < |c2|
    requires before == Reduce(Rows(c1, c2, i, i + j) + PartialRow(c1, c2, i, j, i + j), m)
    ensures Reduce(before + c1[i] * c2[j], m) == Reduce(Rows(c1, c2, i, i + j) + PartialRow(c1, c2, i, j + 1, i + j), m)
  {
    var s := Rows(c1, c2, i, i + j);
    assert PartialRow(c1, c2, i, j, i + j) == 0;
    assert PartialRow(c1, c2, i, j + 1, i + j) == c1[i] * c2[j];
    ReduceReduced(m, s);
    ReduceSum(m, before, s, c1[i] * c2[j], c1[i] * c2[j]);
  }

  /** After the inner loop the partial row is the whole row. */
  lemma {:induction false} RowComplete(c1: seq<int>, c2: seq<int>, i: int, n: int)
    requires 0 <= i < |c1|
    ensures forall k :: 0 <= k < n ==>
              Rows(c1, c2, i, k) + PartialRow(c1, c2, i, |c2|, k) == Rows(c1, c2, i + 1, k)
  {
  }

  /** A scaled list scales the value. */
  lemma {:induction false} EvalSumScale(c: seq<int>, k: int, r: seq<int>, x: int)
    requires |r| == |c| && forall i :: 0 <= i < |c| ==> r[i] == c[i] * k
    ensures EvalSum(r, x) == EvalSum(c, x) * k
    decreases |c|
  {
    if |c| > 0 {
      var n := |c| - 1;
      EvalSumScale(c[..n], k, r[..n], x);
      assert r[n] * Pow(x, n) == (c[n] * Pow(x, n)) * k;
    }
  }

  /** The first n rows of the product evaluate to the value of the first n
    * coefficients of a times the value of b. */
  lemma {:induction false} RowsEvaluate(c1: seq<int>, c2: seq<int>, n: nat, x: int)
    requires 0 < |c1| && 0 < |c2| && n <= |c1|
    ensures var len := |c1| + |c2| - 1;
      EvalSum(seq(len, k requires 0 <= k < len => Rows(c1, c2, n, k)), x) == EvalSum(c1[..n], x) * EvalSum(c2, x)
    decreases n
  {
    var len := |c1| + |c2| - 1;
    var rows := seq(len, k requires 0 <= k < len => Rows(c1, c2, n, k));
    if n == 0 {
      EvalSumOfZeros(rows, x);
      assert c1[..0] == [];
    } else {
      var previous := seq(len, k requires 0 <= k < len => Rows(c1, c2, n - 1, k));
      var row := Shifted(c2, c1[n - 1], n - 1, len);
      RowsEvaluate(c1, c2, n - 1, x);
      ShiftedEvaluates(c2, c1[n - 1], n - 1, len, x);
      RowsAddRow(c1, c2, n, previous, row, rows);
      EvalSumAdd(previous, row, rows, x);
      assert c1[..n][..n - 1] == c1[..n - 1];
      var e1, e, e2 := EvalSum(c1[..n - 1], x), EvalSum(c1[..n], x), EvalSum(c2, x);
      assert e == e1 + c1[n - 1] * Pow(x, n - 1);
      RowAlgebra(EvalSum(rows, x), EvalSum(previous, x), EvalSum(row, x), e1, e, c1[n - 1], Pow(x, n - 1), e2);
    }
  }

  /** Row n - 1 of the schoolbook product, added to the earlier rows. */
  lemma {:induction false} RowsAddRow(c1: seq<int>, c2: seq<int>, n: nat, previous: seq<int>, row: seq<int>, rows: seq<int>)
    requires 0 < |c1| && 0 < |c2| && 0 < n <= |c1|
    requires var len := |c1| + |c2| - 1;
      && previous == seq(len, k requires 0 <= k < len => Rows(c1, c2, n - 1, k))
      && row == Shifted(c2, c1[n - 1], n - 1, len)
      && rows == seq(len, k requires 0 <= k < len => Rows(c1, c2, n, k))
    ensures |previous| == |row| == |rows|
    ensures forall k :: 0 <= k < |rows| ==> rows[k] == previous[k] + row[k]
  {
  }

  lemma {:induction false} RowAlgebra(all: int, before: int, row: int, e1: int, e: int, a: int, p: int, e2: int)
    requires all == before + row && before == e1 * e2 && row == a * p * e2 && e == e1 + a * p
    ensures all == e * e2
  {
  }

  /** The product evaluates to the product of the values (modulo m when
    * set): `__mul__` multiplies polynomials. */
  lemma {:induction false} ProductEvaluates(a: Polynomial, b: Polynomial, x: int)
    requires Valid(a) && Valid(b) && a.modulus == b.modulus
    ensures Product(a, PolynomialFactor(b)).Ok?
    ensures Reduce(EvalSum(Product(a, PolynomialFactor(b)).value.coefficients, x), a.modulus)
            == Reduce(EvalSum(a.coefficients, x) * EvalSum(b.coefficients, x), a.modulus)
  {
    var c1, c2, m := a.coefficients, b.coefficients, a.modulus;
    var len := |c1| + |c2| - 1;
    var r := Convolution(c1, c2, m);
    var rows := seq(len, k requires 0 <= k < len => Rows(c1, c2, |c1|, k));
    TrimmedEvaluates(r, x);
    forall k | 0 <= k < len
      ensures Reduce(r[k], m) == Reduce(rows[k], m)
    {
      ReduceReduced(m, rows[k]);
    }
    ReducedEvaluates(rows, r, m, x);
    RowsEvaluate(c1, c2, |c1|, x);
    assert c1[..|c1|] == c1;
  }

  /** A product by a scalar scales the value (modulo m when set). */
  lemma {:induction false} ScaleEvaluates(a: Polynomial, k: int, x: int)
    requires Valid(a)
    ensures Product(a, Scalar(k)).Ok?
    ensures Reduce(EvalSum(Product(a, Scalar(k)).value.coefficients, x), a.modulus)
            == Reduce(EvalSum(a.coefficients, x) * k, a.modulus)
  {
    var c, m := a.coefficients, a.modulus;
    var r := ScaleCoefficients(c, k, m);
    var scaled := seq(|c|, i requires 0 <= i < |c| => c[i] * k);
    TrimmedEvaluates(r, x);
    forall i | 0 <= i < |c|
      ensures Reduce(r[i], m) == Reduce(scaled[i], m)
    {
      ReduceReduced(m, scaled[i]);
    }
    ReducedEvaluates(scaled, r, m, x);
    EvalSumScale(c, k, scaled, x);
  }

  /** The doctests of `__mul__`, modulo 13 and modulo 5. */
  lemma MulExample()
    ensures Product(Polynomial([1, 2], 13), PolynomialFactor(Polynomial([3, 3], 13))) == Ok(Polynomial([3, 9, 6], 13))
    ensures Product(Polynomial([1, 2], 13), PolynomialFactor(Make([1, 0], 13))) == Ok(Polynomial([1, 2], 13))
    ensures Product(Polynomial([1, 2], 13), Scalar(3)) == Ok(Polynomial([3, 6], 13))
    ensures Product(Polynomial([1, 2], 5), Scalar(12)) == Ok(Polynomial([2, 4], 5))
  {
    assert Make([1, 0], 13) == Polynomial([1], 13);
    assert Convolution([1, 2], [3, 3], 13) == [3, 9, 6];
    assert Convolution([1, 2], [1], 13) == [1, 2];
    assert ScaleCoefficients([1, 2], 3, 13) == [3, 6];
    assert ScaleCoefficients([1, 2], 12, 5) == [2, 4];
  }

  // ---------------------------------------------------------------------
  // __pow__
  // ---------------------------------------------------------------------

  /** `__pow__`: the polynomial itself for 1, the constant 1 for 0, and
    * ValueError for every other exponent. */
  function Power(p: Polynomial, power: int): (r: Result<Polynomial, PolynomialError>)
    ensures r.Err? <==> power != 0 && power != 1
    ensures r.Err? ==> r.error == UnsupportedPower
    ensures r.Ok? ==> r.value.modulus == p.modulus
  {
    if power == 1 then Ok(p)
    else if power == 0 then Ok(Polynomial([1], p.modulus))
    else Err(UnsupportedPower)
  }

  /** For the two exponents it accepts, the power evaluates to the power of
    * the value. */
  lemma {:induction false} PowerEvaluates(p: Polynomial, power: nat, x: int)
    requires power <= 1
    ensures Power(p, power).Ok?
    ensures EvalSum(Power(p, power).value.coefficients, x) == Pow(EvalSum(p.coefficients, x), power)
  {
    if power == 0 {
      assert [1][..0] == [];
    }
  }

  // ---------------------------------------------------------------------
  // from_roots and from_roots_opt
  // ---------------------------------------------------------------------

  /** (-1)^k, the sign `(-1) ** k` of the source. */
  function NegOnePow(k: nat): (r: int)
    ensures r == 1 || r == -1
  {
    if k == 0 then 1 else -NegOnePow(k - 1)
  }

  /** The elementary symmetric polynomial e_k of the roots: the sum of the
    * products of all k-element sub-lists (0 for k < 0 or k > |s|). */
  function Elementary(s: seq<int>, k: int): int
    decreases |s|
  {
    if k < 0 then 0
    else if k == 0 then 1
    else if |s| == 0 then 0
    else s[0] * Elementary(s[1..], k - 1) + Elementary(s[1..], k)
  }

  /** (-1)^k e_k: the coefficient of x^(n-k) in (x - r_1) ... (x - r_n). */
  function Signed(s: seq<int>, k: int): int
  {
    if k < 0 then 0 else NegOnePow(k) * Elementary(s, k)
  }

  /** The coefficients both constructions return: (-1)^(n-j) e_(n-j) modulo m
    * below the top, and the literal 1 on top. */
  function RootCoefficients(roots: seq<int>, m: nat): (c: seq<int>)
    requires m > 0
    ensures |c| == |roots| + 1 && c[|roots|] == 1
  {
    var n := |roots|;
    seq(n + 1, j requires 0 <= j <= n => if j == n then 1 else Signed(roots, n - j) % m)
  }

  /** (x - r_1) ... (x - r_n). */
  function RootProduct(roots: seq<int>, x: int): int
    decreases |roots|
  {
    if |roots| == 0 then 1 else RootProduct(roots[..|roots| - 1], x) * (x - roots[|roots| - 1])
  }

  lemma {:induction false} ElementaryAbove(s: seq<int>, k: int)
    requires k > |s|
    ensures Elementary(s, k) == 0
    decreases |s|
  {
    if |s| > 0 {
      ElementaryAbove(s[1..], k - 1);
      ElementaryAbove(s[1..], k);
    }
  }

  /** Adding a root r at the end: e_k(s + [r]) = e_k(s) + r e_(k-1)(s). */
  lemma {:induction false} ElementaryAppend(s: seq<int>, r: int, k: int)
    requires k >= 1
    ensures Elementary(s + [r], k) == Elementary(s, k) + r * Elementary(s, k - 1)
    decreases |s|
  {
    if |s| == 0 {
      assert ([] + [r])[1..] == [];
      if k > 1 {
        ElementaryAbove([], k - 1);
      }
    } else {
      var t := s + [r];
      assert t[0] == s[0] && t[1..] == s[1..] + [r];
      ElementaryAppend(s[1..], r, k);
      if k > 1 {
        ElementaryAppend(s[1..], r, k - 1);
      }
      var a, e1, e2, e3 := s[0], Elementary(s[1..], k - 1), Elementary(s[1..], k), Elementary(s[1..], k - 2);
      assert Elementary(s, k - 1) == a * e3 + e1 by {
        if k == 1 {
          assert e3 == 0;
        }
      }
      AppendAlgebra(a, r, e1, e2, e3);
    }
  }

  lemma {:induction false} AppendAlgebra(a: int, r: int, e1: int, e2: int, e3: int)
    ensures a * (e1 + r * e3) + (e2 + r * e1) == (a * e1 + e2) + r * (a * e3 + e1)
  {
  }

  /** The same step for the signed coefficients:
    * S_k(s + [r]) = S_k(s) - r S_(k-1)(s). */
  lemma {:induction false} SignedAppend(s: seq<int>, r: int, k: int)
    ensures Signed(s + [r], k) == Signed(s, k) - r * Signed(s, k - 1)
  {
    if k >= 1 {
      ElementaryAppend(s, r, k);
      var sign := NegOnePow(k - 1);
      assert NegOnePow(k) == -sign;
      assert -sign * (Elementary(s, k) + r * Elementary(s, k - 1))
             == -sign * Elementary(s, k) - r * (sign * Elementary(s, k - 1));
    } else if k == 0 {
      assert Elementary(s + [r], 0) == 1 && Elementary(s, 0) == 1;
    }
  }

  /** The signed coefficients of the roots, unreduced, from x^0 up. */
  function Expansion(s: seq<int>): (u: seq<int>)
    ensures |u| == |s| + 1
  {
    seq(|s| + 1, j requires 0 <= j <= |s| => Signed(s, |s| - j))
  }

  /** The expansion evaluates to the product of the linear factors: this is
    * the statement behind both constructions (Vieta's formulas). */
  lemma {:induction false} ExpansionEvaluates(s: seq<int>, x: int)
    ensures EvalSum(Expansion(s), x) == RootProduct(s, x)
    decreases |s|
  {
    var u := Expansion(s);
    if |s| == 0 {
      assert u == [1];
      assert u[..0] == [];
    } else {
      var n := |s| - 1;
      var p, r := s[..n], s[n];
      assert p + [r] == s;
      var up := Expansion(p);
      var high := Shifted(up, 1, 1, n + 2);
      var low := Shifted(up, -r, 0, n + 2);
      ExpansionSplit(p, r);
      EvalSumAdd(high, low, u, x);
      ShiftedEvaluates(up, 1, 1, n + 2, x);
      ShiftedEvaluates(up, -r, 0, n + 2, x);
      ExpansionEvaluates(p, x);
      assert Pow(x, 1) == x && Pow(x, 0) == 1;
      assert RootProduct(s, x) == RootProduct(p, x) * (x - r);
      ExpansionAlgebra(EvalSum(u, x), EvalSum(high, x), EvalSum(low, x), EvalSum(up, x), x, r, Pow(x, 1), Pow(x, 0));
    }
  }

  /** Multiplying by (x - r): the coefficients shift up one place and the
    * coefficients times -r are added. */
  lemma {:induction false} ExpansionSplit(p: seq<int>, r: int)
    ensures var u, up, n := Expansion(p + [r]), Expansion(p), |p| + 1;
      forall j :: 0 <= j < n + 1 ==> u[j] == Shifted(up, 1, 1, n + 1)[j] + Shifted(up, -r, 0, n + 1)[j]
  {
    var u, up, n := Expansion(p + [r]), Expansion(p), |p| + 1;
    forall j | 0 <= j < n + 1
      ensures u[j] == Shifted(up, 1, 1, n + 1)[j] + Shifted(up, -r, 0, n + 1)[j]
    {
      SignedAppend(p, r, n - j);
      if j == 0 {
        ElementaryAbove(p, n);
      }
    }
  }

  lemma {:induction false} ExpansionAlgebra(all: int, high: int, low: int, e: int, x: int, r: int, x1: int, x0: int)
    requires all == high + low && high == 1 * x1 * e && low == -r * x0 * e && x1 == x && x0 == 1
    ensures all == e * (x - r)
  {
  }

  /** Each returned coefficient is its signed coefficient modulo m. */
  lemma {:induction false} RootCoefficientsReduce(roots: seq<int>, m: nat)
    requires m > 0
    ensures var c, u := RootCoefficients(roots, m), Expansion(roots);
      forall j :: 0 <= j < |c| ==> Reduce(c[j], m) == Reduce(u[j], m)
  {
    var c, u := RootCoefficients(roots, m), Expansion(roots);
    forall j | 0 <= j < |c|
      ensures Reduce(c[j], m) == Reduce(u[j], m)
    {
      if j == |roots| {
        assert Elementary(roots, 0) == 1 && NegOnePow(0) == 1;
        assert u[j] == Signed(roots, 0) == 1;
      } else {
        ModIdempotent(m, u[j]);
      }
    }
  }

  /** A polynomial with coefficients RootCoefficients(roots, m) vanishes
    * modulo m at every root: the doctests evaluating at the roots. */
  lemma {:induction false} RootCoefficientsVanish(roots: seq<int>, m: nat, k: int)
    requires m > 0 && 0 <= k < |roots|
    ensures Value(Polynomial(RootCoefficients(roots, m), m), roots[k]) == 0
  {
    var x := roots[k];
    RootCoefficientsReduce(roots, m);
    ReducedEvaluates(Expansion(roots), RootCoefficients(roots, m), m, x);
    ExpansionEvaluates(roots, x);
    RootProductVanishes(roots, k);
  }

  /** Value at a point x is (x - r_1) ... (x - r_n) modulo m. */
  lemma {:induction false} RootCoefficientsEvaluate(roots: seq<int>, m: nat, x: int)
    requires m > 0
    ensures Value(Polynomial(RootCoefficients(roots, m), m), x) == RootProduct(roots, x) % m
  {
    RootCoefficientsReduce(roots, m);
    ReducedEvaluates(Expansion(roots), RootCoefficients(roots, m), m, x);
    ExpansionEvaluates(roots, x);
  }

  lemma {:induction false} RootProductVanishes(roots: seq<int>, k: int)
    requires 0 <= k < |roots|
    ensures RootProduct(roots, roots[k]) == 0
    decreases |roots|
  {
    var n := |roots| - 1;
    if k < n {
      assert roots[..n][k] == roots[k];
      RootProductVanishes(roots[..n], k);
    }
  }

  /** `itertools.combinations(s, k)`: the k-element sub-lists of s, in the
    * order itertools yields them (those holding s[0] first). */
  function Combinations(s: seq<int>, k: nat): (r: seq<seq<int>>)
    ensures forall j :: 0 <= j < |r| ==> |r[j]| == k
    ensures k <= |s| ==> |r| > 0
    decreases |s|
  {
    if k == 0 then [[]]
    else if |s| < k then []
    else Prepend(s[0], Combinations(s[1..], k - 1)) + Combinations(s[1..], k)
  }

  function Prepend(a: int, cs: seq<seq<int>>): (r: seq<seq<int>>)
    ensures |r| == |cs|
  {
    seq(|cs|, j requires 0 <= j < |cs| => [a] + cs[j])
  }

  function ListProduct(c: seq<int>): int
  {
    if |c| == 0 then 1 else ListProduct(c[..|c| - 1]) * c[|c| - 1]
  }

  function ListSum(v: seq<int>): int
  {
    if |v| == 0 then 0 else ListSum(v[..|v| - 1]) + v[|v| - 1]
  }

  function Products(cs: seq<seq<int>>): (r: seq<int>)
    ensures |r| == |cs|
  {
    seq(|cs|, j requires 0 <= j < |cs| => ListProduct(cs[j]))
  }

  /** `reduce(lambda a, b: a.mod_mul(b, m), c)`: a left fold, so a single
    * factor comes back as it is. */
  function ReduceMul(c: seq<int>, m: nat): int
    requires |c| > 0 && m > 0
  {
    if |c| == 1 then c[0] else (ReduceMul(c[..|c| - 1], m) * c[|c| - 1]) % m
  }

  /** `reduce(lambda a, b: a.mod_add(b, m), v)`. */
  function ReduceAdd(v: seq<int>, m: nat): int
    requires |v| > 0 && m > 0
  {
    if |v| == 1 then v[0] else (ReduceAdd(v[..|v| - 1], m) + v[|v| - 1]) % m
  }

  /** The `values` list of the loop body: each combination's product times
    * the sign, modulo m. */
  function SignedProducts(roots: seq<int>, i: nat, m: nat): (v: seq<int>)
    requires i < |roots| && m > 0
    ensures |v| > 0
  {
    var k := |roots| - i;
    var cs := Combinations(roots, k);
    seq(|cs|, j requires 0 <= j < |cs| => (ReduceMul(cs[j], m) * NegOnePow(k)) % m)
  }

  /** The coefficient of x^i appended by iteration i of `from_roots`. */
  function CombinationCoefficient(roots: seq<int>, i: nat, m: nat): int
    requires i < |roots| && m > 0
  {
    ReduceAdd(SignedProducts(roots, i, m), m)
  }

  /** `Polynomial.from_roots(roots, m)`: one sum over combinations per
    * coefficient, then the leading 1.  The result is the expansion of
    * (x - r_1) ... (x - r_n) modulo m. */
  method FromRoots(roots: seq<int>, modulus: nat) returns (p: Polynomial)
    requires |roots| > 0 && modulus > 0
    ensures p == Polynomial(RootCoefficients(roots, modulus), modulus)
  {
    var degree := |roots|;
    var polynomial: seq<int> := [];
    for i := 0 to degree
      invariant polynomial == RootCoefficients(roots, modulus)[..i]
    {
      CombinationCoefficientIs(roots, i, modulus);
      polynomial := polynomial + [CombinationCoefficient(roots, i, modulus)];
    }
    polynomial := polynomial + [1];
    assert polynomial == RootCoefficients(roots, modulus);
    TrimmedKeepsNonZeroTop(polynomial);
    p := NewPolynomial(polynomial, modulus);
  }

  /** Each combination sum is the signed elementary symmetric polynomial. */
  lemma {:induction false} CombinationCoefficientIs(roots: seq<int>, i: nat, m: nat)
    requires i < |roots| && m > 0
    ensures CombinationCoefficient(roots, i, m) == Signed(roots, |roots| - i) % m
  {
    var k := |roots| - i;
    var cs := Combinations(roots, k);
    var v := SignedProducts(roots, i, m);
    var w := seq(|cs|, j requires 0 <= j < |cs| => NegOnePow(k) * ListProduct(cs[j]));
    forall j | 0 <= j < |v|
      ensures 0 <= v[j] < m && Reduce(v[j], m) == Reduce(w[j], m)
    {
      var a := ReduceMul(cs[j], m);
      ReduceMulCongruent(cs[j], m);
      ModIdempotent(m, a * NegOnePow(k));
      ModMulLeft(m, a, NegOnePow(k));
      ModMulLeft(m, ListProduct(cs[j]), NegOnePow(k));
      assert a * NegOnePow(k) == NegOnePow(k) * a;
    }
    ReduceAddSum(v, m);
    ListSumCongruent(v, w, m);
    ListSumScale(Products(cs), w, NegOnePow(k));
    CombinationsSum(roots, k);
  }

  /** The sum of the products of the k-element combinations. */
  function CombinationSum(s: seq<int>, k: nat): int
  {
    ListSum(Products(Combinations(s, k)))
  }

  /** Sums over the combinations: sum of products of k-subsets is e_k. */
  lemma {:induction false} CombinationsSum(s: seq<int>, k: nat)
    ensures CombinationSum(s, k) == Elementary(s, k)
    decreases |s|
  {
    if k == 0 || |s| < k {
      CombinationsSumBase(s, k);
    } else {
      var a := s[0];
      CombinationsSum(s[1..], k - 1);
      CombinationsSum(s[1..], k);
      CombinationsSplit(s, k);
      assert Elementary(s, k) == a * Elementary(s[1..], k - 1) + Elementary(s[1..], k);
    }
  }

  lemma {:induction false} CombinationsSumBase(s: seq<int>, k: nat)
    requires k == 0 || |s| < k
    ensures CombinationSum(s, k) == Elementary(s, k)
  {
    if k == 0 {
      assert Products([[]]) == [1];
      assert ListProduct([]) == 1;
      assert [1][..0] == [];
    } else {
      ElementaryAbove(s, k);
    }
  }

  lemma {:induction false} CombinationsSplit(s: seq<int>, k: nat)
    requires 1 <= k <= |s|
    ensures CombinationSum(s, k) == s[0] * CombinationSum(s[1..], k - 1) + CombinationSum(s[1..], k)
  {
    var with, without := Combinations(s[1..], k - 1), Combinations(s[1..], k);
    assert Combinations(s, k) == Prepend(s[0], with) + without;
    ProductsConcat(Prepend(s[0], with), without);
    PrependSum(s[0], with);
  }

  lemma {:induction false} ProductsConcat(a: seq<seq<int>>, b: seq<seq<int>>)
    ensures ListSum(Products(a + b)) == ListSum(Products(a)) + ListSum(Products(b))
  {
    assert Products(a + b) == Products(a) + Products(b);
    ListSumConcat(Products(a), Products(b));
  }

  lemma {:induction false} PrependSum(a: int, cs: seq<seq<int>>)
    ensures ListSum(Products(Prepend(a, cs))) == a * ListSum(Products(cs))
  {
    forall j | 0 <= j < |cs|
      ensures Products(Prepend(a, cs))[j] == a * Products(cs)[j]
    {
      ListProductPrepend(a, cs[j]);
    }
    ListSumScale(Products(cs), Products(Prepend(a, cs)), a);
  }

  lemma {:induction false} ListProductPrepend(a: int, c: seq<int>)
    ensures ListProduct([a] + c) == a * ListProduct(c)
    decreases |c|
  {
    if |c| == 0 {
      assert ([a] + c)[..0] == [];
    } else {
      var n := |c| - 1;
      assert ([a] + c)[..n + 1] == [a] + c[..n];
      ListProductPrepend(a, c[..n]);
    }
  }

  lemma {:induction false} ListSumConcat(a: seq<int>, b: seq<int>)
    ensures ListSum(a + b) == ListSum(a) + ListSum(b)
    decreases |b|
  {
    if |b| == 0 {
      assert a + b == a;
    } else {
      var n := |b| - 1;
      assert (a + b)[..|a| + n] == a + b[..n];
      ListSumConcat(a, b[..n]);
    }
  }

  lemma {:induction false} ListSumScale(v: seq<int>, w: seq<int>, a: int)
    requires |w| == |v| && forall j :: 0 <= j < |v| ==> w[j] == a * v[j]
    ensures ListSum(w) == a * ListSum(v)
    decreases |v|
  {
    if |v| > 0 {
      var n := |v| - 1;
      ListSumScale(v[..n], w[..n], a);
      assert a * (ListSum(v[..n]) + v[n]) == a * ListSum(v[..n]) + a * v[n];
    }
  }

  lemma {:induction false} ListSumCongruent(v: seq<int>, w: seq<int>, m: nat)
    requires |w| == |v| && forall j :: 0 <= j < |v| ==> Reduce(v[j], m) == Reduce(w[j], m)
    ensures Reduce(ListSum(v), m) == Reduce(ListSum(w), m)
    decreases |v|
  {
    if |v| > 0 {
      var n := |v| - 1;
      var v', w' := v[..n], w[..n];
      assert forall j :: 0 <= j < n ==> v'[j] == v[j] && w'[j] == w[j];
      ListSumCongruent(v', w', m);
      assert ListSum(v) == ListSum(v') + v[n] && ListSum(w) == ListSum(w') + w[n];
      ReduceSum(m, ListSum(v'), ListSum(w'), v[n], w[n]);
    }
  }

  lemma {:induction false} ListProductCongruent(v: seq<int>, w: seq<int>, m: nat)
    requires |w| == |v| && forall j :: 0 <= j < |v| ==> Reduce(v[j], m) == Reduce(w[j], m)
    ensures Reduce(ListProduct(v), m) == Reduce(ListProduct(w), m)
    decreases |v|
  {
    if |v| > 0 {
      var n := |v| - 1;
      var v', w' := v[..n], w[..n];
      assert forall j :: 0 <= j < n ==> v'[j] == v[j] && w'[j] == w[j];
      ListProductCongruent(v', w', m);
      assert ListProduct(v) == ListProduct(v') * v[n] && ListProduct(w) == ListProduct(w') * w[n];
      ReduceProduct(m, ListProduct(v'), ListProduct(w'), v[n]);
      ReduceProduct(m, v[n], w[n], ListProduct(w'));
      assert v[n] * ListProduct(v') == ListProduct(v') * v[n];
      assert w[n] * ListProduct(w') == ListProduct(w') * w[n];
      assert ListProduct(w') * v[n] == v[n] * ListProduct(w');
    }
  }

  lemma {:induction false} ReduceMulCongruent(c: seq<int>, m: nat)
    requires |c| > 0 && m > 0
    ensures ReduceMul(c, m) % m == ListProduct(c) % m
    decreases |c|
  {
    var n := |c| - 1;
    if n == 0 {
      assert c[..0] == [];
    } else {
      var a := ReduceMul(c[..n], m);
      ReduceMulCongruent(c[..n], m);
      ModIdempotent(m, a * c[n]);
      ModMulLeft(m, a, c[n]);
      ModMulLeft(m, ListProduct(c[..n]), c[n]);
    }
  }

  lemma {:induction false} ReduceAddSum(v: seq<int>, m: nat)
    requires |v| > 0 && m > 0 && forall j :: 0 <= j < |v| ==> 0 <= v[j] < m
    ensures ReduceAdd(v, m) == ListSum(v) % m
    decreases |v|
  {
    var n := |v| - 1;
    if n == 0 {
      assert v[..0] == [];
      ModOfReduced(m, v[0]);
    } else {
      ReduceAddSum(v[..n], m);
      ModAddLeft(m, ListSum(v[..n]), v[n]);
    }
  }

  /** `Polynomial.from_roots_opt(roots, m)`: multiplies the factors in one
    * at a time, each pass reading the previous pass's coefficients.  It
    * returns exactly what `from_roots` returns. */
  method FromRootsOpt(roots: seq<int>, modulus: nat) returns (p: Polynomial)
    requires |roots| > 0 && modulus > 0
    ensures p == Polynomial(RootCoefficients(roots, modulus), modulus)
  {
    var degree := |roots|;
    var polynomial := seq(degree, _ => 0)[0 := 1];
    assert RootCoefficients(roots[..0], modulus) == [1];
    for i := 0 to degree
      invariant |polynomial| >= i + 1
      invariant i > 0 ==> |polynomial| == i + 1
      invariant polynomial[..i + 1] == RootCoefficients(roots[..i], modulus)
    {
      assert roots[..i] + [roots[i]] == roots[..i + 1];
      polynomial := MultiplyFactor(polynomial, roots[..i], roots[i], modulus);
    }
    assert roots[..degree] == roots;
    TrimmedKeepsNonZeroTop(polynomial);
    p := NewPolynomial(polynomial, modulus);
  }

  /** One pass of the outer loop of `from_roots_opt`: the coefficients of
    * the product so far (the leading |before| + 1 entries of `polynomial`)
    * times (x - r). */
  method MultiplyFactor(polynomial: seq<int>, before: seq<int>, r: int, modulus: nat) returns (newPoly: seq<int>)
    requires modulus > 0 && |polynomial| >= |before| + 1
    requires polynomial[..|before| + 1] == RootCoefficients(before, modulus)
    ensures newPoly == RootCoefficients(before + [r], modulus)
  {
    var i := |before|;
    assert polynomial[0] == RootCoefficients(before, modulus)[0];
    OptFirst(before, r, modulus, polynomial[0]);
    newPoly := [(-polynomial[0] * r) % modulus];
    for j := 1 to i + 1
      invariant |newPoly| == j
      invariant newPoly == RootCoefficients(before + [r], modulus)[..j]
    {
      assert polynomial[j] == RootCoefficients(before, modulus)[j];
      assert polynomial[j - 1] == RootCoefficients(before, modulus)[j - 1];
      OptStep(before, r, j, modulus, polynomial[j], polynomial[j - 1]);
      newPoly := newPoly + [(-polynomial[j] * r + polynomial[j - 1]) % modulus];
    }
    newPoly := newPoly + [1];
  }

  /** The constant coefficient after multiplying by (x - r). */
  lemma {:induction false} OptFirst(before: seq<int>, r: int, m: nat, p0: int)
    requires m > 0 && p0 == RootCoefficients(before, m)[0]
    ensures (-p0 * r) % m == RootCoefficients(before + [r], m)[0]
  {
    var i := |before|;
    RootCoefficientAt(before, m, 0);
    RootCoefficientAt(before + [r], m, 0);
    SignedAppend(before, r, i + 1);
    ElementaryAbove(before, i + 1);
    OptAlgebra(m, p0, Signed(before, i), 0, Signed(before, i + 1), r, Signed(before + [r], i + 1));
  }

  /** Coefficient j (1 <= j <= |before|) after multiplying by (x - r). */
  lemma {:induction false} OptStep(before: seq<int>, r: int, j: int, m: nat, pj: int, pj1: int)
    requires m > 0 && 1 <= j <= |before|
    requires pj == RootCoefficients(before, m)[j] && pj1 == RootCoefficients(before, m)[j - 1]
    ensures (-pj * r + pj1) % m == RootCoefficients(before + [r], m)[j]
  {
    var i := |before|;
    RootCoefficientAt(before, m, j);
    RootCoefficientAt(before, m, j - 1);
    RootCoefficientAt(before + [r], m, j);
    SignedAppend(before, r, i + 1 - j);
    OptAlgebra(m, pj, Signed(before, i - j), pj1, Signed(before, i + 1 - j), r, Signed(before + [r], i + 1 - j));
  }

  /** Coefficient j of RootCoefficients is its signed coefficient, up to m;
    * below the top it is already reduced. */
  lemma {:induction false} RootCoefficientAt(roots: seq<int>, m: nat, j: int)
    requires m > 0 && 0 <= j <= |roots|
    ensures RootCoefficients(roots, m)[j] % m == Signed(roots, |roots| - j) % m
    ensures j < |roots| ==> RootCoefficients(roots, m)[j] == Signed(roots, |roots| - j) % m
  {
    RootCoefficientsReduce(roots, m);
  }

  lemma {:induction false} OptAlgebra(m: nat, pj: int, s: int, pj1: int, s1: int, r: int, t: int)
    requires m > 0 && pj % m == s % m && pj1 % m == s1 % m && t == s1 - r * s
    ensures (-pj * r + pj1) % m == t % m
  {
    ReduceProduct(m, pj, s, -r);
    ReduceSum(m, -r * pj, -r * s, pj1, s1);
    assert -pj * r == -r * pj;
  }

  /** The first doctest of `from_roots` / `from_roots_opt`: the roots [1, 1]
    * modulo 7. */
  lemma RootsExample()
    ensures RootCoefficients([1, 1], 7) == [1, 5, 1]
    ensures Value(Polynomial(RootCoefficients([1, 1], 7), 7), 1) == 0
  {
    ElementaryAppend([1], 1, 1);
    ElementaryAppend([1], 1, 2);
    assert [1] + [1] == [1, 1];
    assert Elementary([1], 1) == 1 && Elementary([1], 0) == 1 && Elementary([1], 2) == 0;
    assert NegOnePow(1) == -1 && NegOnePow(2) == 1;
    assert Signed([1, 1], 2) == 1 && Signed([1, 1], 1) == -2;
    var c := RootCoefficients([1, 1], 7);
    assert c[0] == 1 && c[1] == 5 && c[2] == 1;
    assert c == [1, 5, 1];
    RootCoefficientsVanish([1, 1], 7, 0);
  }

  /** The elementary symmetric sums of the suffixes `[4, 5]` and `[3, 4, 5]`. */
  lemma DoctestSuffixSums()
    ensures Elementary([3, 4, 5], 0) == 1 && Elementary([3, 4, 5], 1) == 12 && Elementary([3, 4, 5], 2) == 47
    ensures Elementary([3, 4, 5], 3) == 60 && Elementary([3, 4, 5], 4) == 0 && Elementary([3, 4, 5], 5) == 0
  {
    assert [4, 5][1..] == [5] && [5][1..] == [];
    assert Elementary([5], 1) == 5 && Elementary([5], 2) == 0 && Elementary([5], 3) == 0;
    assert Elementary([4, 5], 1) == 9 && Elementary([4, 5], 2) == 20;
    assert Elementary([4, 5], 3) == 0 && Elementary([4, 5], 4) == 0;
    assert [3, 4, 5][1..] == [4, 5];
  }

  /** The elementary symmetric sums of `[2, 3, 3, 4, 5]`. */
  lemma DoctestLongSuffixSums()
    ensures Elementary([2, 3, 3, 4, 5], 0) == 1 && Elementary([2, 3, 3, 4, 5], 1) == 17
    ensures Elementary([2, 3, 3, 4, 5], 2) == 113 && Elementary([2, 3, 3, 4, 5], 3) == 367
    ensures Elementary([2, 3, 3, 4, 5], 4) == 582 && Elementary([2, 3, 3, 4, 5], 5) == 360
    ensures Elementary([2, 3, 3, 4, 5], 6) == 0
  {
    DoctestSuffixSums();
    assert [3, 3, 4, 5][1..] == [3, 4, 5];
    assert Elementary([3, 3, 4, 5], 1) == 15 && Elementary([3, 3, 4, 5], 2) == 83;
    assert Elementary([3, 3, 4, 5], 3) == 201 && Elementary([3, 3, 4, 5], 4) == 180;
    assert Elementary([3, 3, 4, 5], 5) == 0;
    assert [2, 3, 3, 4, 5][1..] == [3, 3, 4, 5];
  }

  /** The signed elementary symmetric sums of the doctest's six roots. */
  lemma DoctestSigned()
    ensures Signed([1, 2, 3, 3, 4, 5], 1) == -18 && Signed([1, 2, 3, 3, 4, 5], 2) == 130
    ensures Signed([1, 2, 3, 3, 4, 5], 3) == -480 && Signed([1, 2, 3, 3, 4, 5], 4) == 949
    ensures Signed([1, 2, 3, 3, 4, 5], 5) == -942 && Signed([1, 2, 3, 3, 4, 5], 6) == 360
  {
    DoctestLongSuffixSums();
    assert [1, 2, 3, 3, 4, 5][1..] == [2, 3, 3, 4, 5];
    assert NegOnePow(1) == -1 && NegOnePow(2) == 1 && NegOnePow(3) == -1;
    assert NegOnePow(4) == 1 && NegOnePow(5) == -1 && NegOnePow(6) == 1;
  }

  /** The six-root doctest of `from_roots`: the coefficients mod 7 and mod
    * 1000. */
  lemma FromRootsDoctest()
    ensures RootCoefficients([1, 2, 3, 3, 4, 5], 7) == [3, 3, 4, 3, 4, 3, 1]
    ensures RootCoefficients([1, 2, 3, 3, 4, 5], 1000) == [360, 58, 949, 520, 130, 982, 1]
  {
    var roots := [1, 2, 3, 3, 4, 5];
    DoctestSigned();
    var c7 := RootCoefficients(roots, 7);
    assert c7[0] == 3 && c7[1] == 3 && c7[2] == 4 && c7[3] == 3 && c7[4] == 4 && c7[5] == 3;
    var c1000 := RootCoefficients(roots, 1000);
    assert c1000[0] == 360 && c1000[1] == 58 && c1000[2] == 949;
    assert c1000[3] == 520 && c1000[4] == 130 && c1000[5] == 982;
  }

  /** The same doctest's evaluations: zeros at the roots 3 and 5, and 3 at 6. */
  lemma FromRootsDoctestValues()
    ensures Value(Polynomial(RootCoefficients([1, 2, 3, 3, 4, 5], 7), 7), 3) == 0
    ensures Value(Polynomial(RootCoefficients([1, 2, 3, 3, 4, 5], 7), 7), 5) == 0
    ensures Value(Polynomial(RootCoefficients([1, 2, 3, 3, 4, 5], 7), 7), 6) == 3
  {
    var roots := [1, 2, 3, 3, 4, 5];
    assert roots[2] == 3 && roots[5] == 5;
    RootCoefficientsVanish(roots, 7, 2);
    RootCoefficientsVanish(roots, 7, 5);
    RootCoefficientsEvaluate(roots, 7, 6);
    assert RootProduct(roots, 6) == 360 by {
      assert roots[..5] == [1, 2, 3, 3, 4] && [1, 2, 3, 3, 4][..4] == [1, 2, 3, 3];
      assert [1, 2, 3, 3][..3] == [1, 2, 3] && [1, 2, 3][..2] == [1, 2] && [1, 2][..1] == [1];
      assert [1][..0] == [];
    }
  }

  // ---------------------------------------------------------------------
  // Degree bounds and the coefficient at the bound
  // ---------------------------------------------------------------------

  /** Trimming only drops zeros, so every coefficient reads the same. */
  lemma {:induction false} TrimmedEntry(c: seq<int>, k: int)
    requires |c| > 0
    ensures Entry(Trimmed(c), k) == Entry(c, k)
  {
  }

  /** At position d1 + d2, with |c1| <= d1 + 1 and |c2| <= d2 + 1, only the
    * row i = d1 contributes. */
  lemma {:induction false} RowsTop(c1: seq<int>, c2: seq<int>, n: nat, d1: nat, d2: nat)
    requires n <= |c1| <= d1 + 1 && |c2| <= d2 + 1
    ensures Rows(c1, c2, n, d1 + d2) == if n > d1 then Entry(c1, d1) * Entry(c2, d2) else 0
  {
    if n > 0 {
      RowsTop(c1, c2, n - 1, d1, d2);
    }
  }

  /** A product of polynomials of degree at most d1 and d2 has degree at
    * most d1 + d2, and its coefficient there is the product of theirs. */
  lemma {:induction false} ProductTop(a: Polynomial, b: Polynomial, d1: nat, d2: nat)
    requires Valid(a) && Valid(b) && a.modulus == b.modulus
    requires |a.coefficients| <= d1 + 1 && |b.coefficients| <= d2 + 1
    ensures Product(a, PolynomialFactor(b)).Ok?
    ensures var r := Product(a, PolynomialFactor(b)).value.coefficients;
      && |r| <= d1 + d2 + 1
      && Entry(r, d1 + d2) == Reduce(Entry(a.coefficients, d1) * Entry(b.coefficients, d2), a.modulus)
  {
    var c1, c2, m := a.coefficients, b.coefficients, a.modulus;
    var conv := Convolution(c1, c2, m);
    assert Product(a, PolynomialFactor(b)).value.coefficients == Trimmed(conv);
    TrimmedEntry(conv, d1 + d2);
    ConvolutionTop(c1, c2, m, d1, d2);
  }

  lemma {:induction false} ConvolutionTop(c1: seq<int>, c2: seq<int>, m: nat, d1: nat, d2: nat)
    requires 0 < |c1| <= d1 + 1 && 0 < |c2| <= d2 + 1
    ensures Entry(Convolution(c1, c2, m), d1 + d2) == Reduce(Entry(c1, d1) * Entry(c2, d2), m)
  {
    var conv := Convolution(c1, c2, m);
    var e1, e2 := Entry(c1, d1), Entry(c2, d2);
    if d1 + d2 < |conv| {
      RowsTop(c1, c2, |c1|, d1, d2);
      assert |c1| > d1;
    } else {
      assert e1 == 0 || e2 == 0;
      assert e1 * e2 == 0;
      assert Reduce(0, m) == 0;
    }
  }

  /** Scaling keeps a degree bound and scales the coefficient there. */
  lemma {:induction false} ScaleTop(a: Polynomial, k: int, d: nat)
    requires Valid(a) && |a.coefficients| <= d + 1
    ensures Product(a, Scalar(k)).Ok?
    ensures var r := Product(a, Scalar(k)).value.coefficients;
      |r| <= d + 1 && Entry(r, d) == Reduce(Entry(a.coefficients, d) * k, a.modulus)
  {
    var c := ScaleCoefficients(a.coefficients, k, a.modulus);
    assert Product(a, Scalar(k)).value.coefficients == Trimmed(c);
    TrimmedEntry(c, d);
  }

  /** A sum keeps a common degree bound and adds the coefficients there. */
  lemma {:induction false} AddTop(a: Polynomial, b: Polynomial, d: nat)
    requires Valid(a) && Valid(b) && a.modulus == b.modulus
    requires |a.coefficients| <= d + 1 && |b.coefficients| <= d + 1
    ensures Add(a, b).Ok?
    ensures var r := Add(a, b).value.coefficients;
      |r| <= d + 1 && Entry(r, d) == Reduce(Entry(a.coefficients, d) + Entry(b.coefficients, d), a.modulus)
  {
    var c := AddCoefficients(a.coefficients, b.coefficients, a.modulus);
    assert Add(a, b).value.coefficients == Trimmed(c);
    TrimmedEntry(c, d);
    AddCoefficientsEntry(a.coefficients, b.coefficients, a.modulus, d);
  }

  lemma {:induction false} AddCoefficientsEntry(c1: seq<int>, c2: seq<int>, m: nat, k: nat)
    ensures Entry(AddCoefficients(c1, c2, m), k) == Reduce(Entry(c1, k) + Entry(c2, k), m)
  {
    var c := AddCoefficients(c1, c2, m);
    if k < |c| {
      assert c[k] == Reduce(ZipLongest(c1, c2)[k].0 + ZipLongest(c1, c2)[k].1, m);
    } else {
      assert Entry(c1, k) + Entry(c2, k) == 0;
    }
  }

  /** The value read from the constant coefficient up: c_0 + x (c_1 + x (...)). */
  lemma {:induction false} EvalSumCons(c: int, rest: seq<int>, x: int)
    ensures EvalSum([c] + rest, x) == c + x * EvalSum(rest, x)
    decreases |rest|
  {
    if |rest| == 0 {
      assert ([c] + rest)[..0] == [];
    } else {
      var n := |rest| - 1;
      assert ([c] + rest)[..n + 1] == [c] + rest[..n];
      EvalSumCons(c, rest[..n], x);
      assert Pow(x, n + 1) == x * Pow(x, n);
      assert x * EvalSum(rest[..n], x) + rest[n] * (x * Pow(x, n))
          == x * (EvalSum(rest[..n], x) + rest[n] * Pow(x, n));
    }
  }
}
