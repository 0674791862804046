/**
 * The prime-order group shared by the elliptic-curve and the finite-field
 * back ends, seen through discrete logarithms.
 *
 * An element is represented by its discrete logarithm with respect to one
 * fixed (unnamed) generator, an integer in [0, q).  Under this view the
 * elliptic-curve point addition and the finite-field multiplication are both
 * addition modulo q, the scalar action (`k * P`, `P ** k`) is multiplication
 * modulo q and the group division (`P - Q`, `P / Q`) is subtraction modulo q.
 * The hash-to-point generators of a commitment key are arbitrary elements.
 */
module DiscreteLog {

  /** x to the power k, over the unbounded integers. */
  function Pow(x: int, k: nat): int
  {
    if k == 0 then 1 else x * Pow(x, k - 1)
  }

  /** 2 to the power k, the bound of `Bn(2).pow(k).random()`. */
  function Pow2(k: nat): (r: int)
    ensures r >= 1
    ensures k >= 1 ==> r >= 2
  {
    if k == 0 then 1 else 2 * Pow2(k - 1)
  }

  lemma {:induction false} PowAdd(x: int, j: nat, k: nat)
    ensures Pow(x, j + k) == Pow(x, j) * Pow(x, k)
  {
    if j > 0 {
      PowAdd(x, j - 1, k);
      calc {
        Pow(x, j + k);
        x * Pow(x, j - 1 + k);
        x * (Pow(x, j - 1) * Pow(x, k));
        (x * Pow(x, j - 1)) * Pow(x, k);
      }
    }
  }

  lemma {:induction false} PowNonNegative(x: int, k: nat)
    requires x >= 0
    ensures Pow(x, k) >= 0
  {
    if k > 0 {
      PowNonNegative(x, k - 1);
    }
  }

  // ---------------------------------------------------------------------
  // Euclidean division facts, proved once and used by the group algebra.
  // ---------------------------------------------------------------------

  lemma {:induction false} MulAtLeast(q: int, k: int)
    requires q > 0 && k >= 1
    ensures q * k >= q
    decreases k
  {
    if k > 1 {
      MulAtLeast(q, k - 1);
      assert q * k == q * (k - 1) + q;
    }
  }

  /** Quotient and remainder are unique. */
  lemma {:induction false} ModUnique(x: int, q: int, d: int, r: int)
    requires q > 0 && 0 <= r < q && x == q * d + r
    ensures x % q == r && x / q == d
  {
    var d', r' := x / q, x % q;
    assert x == q * d' + r' && 0 <= r' < q;
    assert q * (d - d') == r' - r;
    MulBetween(q, d - d');
  }

  /** The only multiple of q strictly between -q and q is 0. */
  lemma {:induction false} MulBetween(q: int, k: int)
    requires q > 0 && -q < q * k < q
    ensures k == 0
  {
    if k >= 1 {
      MulAtLeast(q, k);
      assert false;
    } else if k <= -1 {
      assert q * (-k) == -(q * k);
      MulAtLeast(q, -k);
      assert false;
    }
  }

  lemma {:induction false} ModShift(q: int, x: int, k: int)
    requires q > 0
    ensures (x + q * k) % q == x % q
  {
    assert x == q * (x / q) + x % q;
    assert x + q * k == q * (x / q + k) + x % q;
    ModUnique(x + q * k, q, x / q + k, x % q);
  }

  lemma {:induction false} ModOfReduced(q: int, x: int)
    requires q > 0 && 0 <= x < q
    ensures x % q == x
  {
    ModUnique(x, q, 0, x);
  }

  lemma {:induction false} ModIdempotent(q: int, x: int)
    requires q > 0
    ensures (x % q) % q == x % q
  {
    ModOfReduced(q, x % q);
  }

  /** Two integers that differ by a multiple of q have the same residue. */
  lemma {:induction false} ModCongruent(q: int, x: int, y: int, k: int)
    requires q > 0 && x == y + q * k
    ensures x % q == y % q
  {
    ModShift(q, y, k);
  }

  /** Two integers with the same residue differ by a multiple of q. */
  lemma {:induction false} CongruentDifference(q: int, x: int, y: int)
    requires q > 0 && x % q == y % q
    ensures x - y == (x / q - y / q) * q
  {
  }

  lemma {:induction false} ModAddLeft(q: int, a: int, b: int)
    requires q > 0
    ensures (a % q + b) % q == (a + b) % q
  {
    assert a == q * (a / q) + a % q;
    ModCongruent(q, a + b, a % q + b, a / q);
  }

  lemma {:induction false} ModMulRight(q: int, k: int, a: int)
    requires q > 0
    ensures (k * (a % q)) % q == (k * a) % q
  {
    assert a == q * (a / q) + a % q;
    assert k * a == k * (a % q) + q * (k * (a / q));
    ModCongruent(q, k * a, k * (a % q), k * (a / q));
  }

  lemma {:induction false} ModMulLeft(q: int, k: int, a: int)
    requires q > 0
    ensures ((k % q) * a) % q == (k * a) % q
  {
    ModMulRight(q, a, k);
    assert (k % q) * a == a * (k % q);
  }

  function Abs(a: int): (r: nat)
    ensures r == a || r == -a
  {
    if a >= 0 then a else -a
  }

  /** `Bn` division `a / b`: the quotient truncated toward zero, as OpenSSL's
    * BN_div computes it (Dafny's `/` is Euclidean).  The remainder is smaller
    * than the divisor and has the sign of the dividend. */
  function TruncDiv(a: int, b: int): int
    requires b != 0
  {
    var m := Abs(a) / Abs(b);
    if (a >= 0) == (b > 0) then m else -m
  }

  lemma {:induction false} TruncDivRemainder(a: int, b: int)
    requires b != 0
    ensures var d := TruncDiv(a, b);
      && Abs(a - d * b) < Abs(b)
      && (a >= 0 ==> a - d * b >= 0)
      && (a <= 0 ==> a - d * b <= 0)
  {
    TruncRemainder(a, b, Abs(a) / Abs(b));
  }

  lemma {:induction false} TruncRemainder(a: int, b: int, m: int)
    requires b != 0 && m == Abs(a) / Abs(b)
    ensures
      var d := if (a >= 0) == (b > 0) then m else -m;
      && Abs(a - d * b) < Abs(b)
      && (a >= 0 ==> a - d * b >= 0)
      && (a <= 0 ==> a - d * b <= 0)
  {
    var n, k := Abs(a), Abs(b);
    assert 0 <= n - m * k < k by {
      assert n == k * m + n % k;
    }
    var d := if (a >= 0) == (b > 0) then m else -m;
    if a >= 0 {
      assert d * b == m * k by { SignedProduct(d, b, m, k); }
    } else {
      assert d * b == -(m * k) by { SignedProduct(d, b, m, k); }
    }
  }

  lemma {:induction false} SignedProduct(d: int, b: int, m: int, k: int)
    requires d == m || d == -m
    requires b == k || b == -k
    ensures d * b == m * k || d * b == -(m * k)
    ensures (d == m) == (b == k) ==> d * b == m * k
    ensures (d == m) != (b == k) ==> d * b == -(m * k)
  {
  }

  /** An exact quotient is found exactly. */
  lemma {:induction false} TruncDivExact(a: int, b: int, k: int)
    requires b != 0 && a == k * b
    ensures TruncDiv(a, b) == k
  {
    var d := TruncDiv(a, b);
    TruncDivRemainder(a, b);
    assert a - d * b == (k - d) * b;
    SmallMultiple(k - d, b);
  }

  /** A multiple of b smaller than b in absolute value is 0 times b. */
  lemma {:induction false} SmallMultiple(e: int, b: int)
    requires b != 0 && Abs(e * b) < Abs(b)
    ensures e == 0
  {
    if e != 0 {
      SignedProduct(e, b, Abs(e), Abs(b));
      MulAtLeast(Abs(b), Abs(e));
      assert false;
    }
  }

  /** Powers can be taken of the residue: (a mod n)^k = a^k (mod n). */
  lemma {:induction false} PowMod(n: int, a: int, k: nat)
    requires n > 0
    ensures Pow(a % n, k) % n == Pow(a, k) % n
  {
    if k > 0 {
      PowMod(n, a, k - 1);
      var p, p' := Pow(a, k - 1), Pow(a % n, k - 1);
      calc {
        Pow(a % n, k) % n;
        ((a % n) * p') % n;
        { ModMulRight(n, a % n, p'); }
        ((a % n) * (p' % n)) % n;
        ((a % n) * (p % n)) % n;
        { ModMulRight(n, a % n, p); }
        ((a % n) * p) % n;
        { ModMulLeft(n, a, p); }
        (a * p) % n;
      }
    }
  }

  /** Squaring the base doubles the exponent. */
  lemma {:induction false} PowSquare(x: int, k: nat)
    ensures Pow(x * x, k) == Pow(x, 2 * k)
  {
    if k > 0 {
      PowSquare(x, k - 1);
      calc {
        Pow(x * x, k);
        (x * x) * Pow(x, 2 * k - 2);
        x * (x * Pow(x, 2 * k - 2));
        x * Pow(x, 2 * k - 1);
        Pow(x, 2 * k);
      }
    }
  }

  /** The remainder differs from the number by a multiple of the modulus. */
  lemma {:induction false} RemainderIsShift(n: int, a: int)
    requires n > 0
    ensures a % n - a == (-(a / n)) * n
  {
    assert a == n * (a / n) + a % n;
  }

  // ---------------------------------------------------------------------
  // The group operations.
  // ---------------------------------------------------------------------

  /** An element of the group of order q. */
  predicate IsElement(q: int, x: int)
  {
    0 <= x < q
  }

  /** The group operation: EC point addition, FF multiplication. */
  function Op(q: int, a: int, b: int): (r: int)
    requires q > 0
    ensures IsElement(q, r)
  {
    (a + b) % q
  }

  /** The scalar action: EC `k * P`, FF `P ** k`. */
  function Scale(q: int, k: int, a: int): (r: int)
    requires q > 0
    ensures IsElement(q, r)
  {
    (k * a) % q
  }

  /** The group division: EC `P - Q`, FF `P / Q`. */
  function Div(q: int, a: int, b: int): (r: int)
    requires q > 0
    ensures IsElement(q, r)
  {
    (a - b) % q
  }

  /** a * g + r * h: the two-base combination every commitment and every
    * Sigma-protocol announcement is made of. */
  function Lin(q: int, g: int, h: int, a: int, r: int): (c: int)
    requires q > 0
    ensures IsElement(q, c)
  {
    Op(q, Scale(q, a, g), Scale(q, r, h))
  }

  /** The normal form of a two-base combination: one reduction at the end. */
  lemma {:induction false} LinNormal(q: int, g: int, h: int, a: int, r: int)
    requires q > 0
    ensures Lin(q, g, h, a, r) == (a * g + r * h) % q
  {
    calc {
      Lin(q, g, h, a, r);
      ((a * g) % q + (r * h) % q) % q;
      { ModAddLeft(q, a * g, (r * h) % q); }
      (a * g + (r * h) % q) % q;
      { ModAddLeft(q, r * h, a * g); }
      (a * g + r * h) % q;
    }
  }

  lemma {:induction false} LinOp(q: int, g: int, h: int, a: int, r: int, b: int, s: int)
    requires q > 0
    ensures Op(q, Lin(q, g, h, a, r), Lin(q, g, h, b, s)) == Lin(q, g, h, a + b, r + s)
  {
    var x, y := a * g + r * h, b * g + s * h;
    LinNormal(q, g, h, a, r);
    LinNormal(q, g, h, b, s);
    LinNormal(q, g, h, a + b, r + s);
    ModAddLeft(q, x, y % q);
    ModAddLeft(q, y, x);
    assert (a + b) * g + (r + s) * h == x + y;
  }

  lemma {:induction false} LinScale(q: int, g: int, h: int, k: int, a: int, r: int)
    requires q > 0
    ensures Scale(q, k, Lin(q, g, h, a, r)) == Lin(q, g, h, k * a, k * r)
  {
    var x := a * g + r * h;
    LinNormal(q, g, h, a, r);
    LinNormal(q, g, h, k * a, k * r);
    ModMulRight(q, k, x);
    assert k * x == (k * a) * g + (k * r) * h;
  }

  lemma {:induction false} LinDiv(q: int, g: int, h: int, a: int, r: int, b: int, s: int)
    requires q > 0
    ensures Div(q, Lin(q, g, h, a, r), Lin(q, g, h, b, s)) == Lin(q, g, h, a - b, r - s)
  {
    var x, y := a * g + r * h, b * g + s * h;
    LinNormal(q, g, h, a, r);
    LinNormal(q, g, h, b, s);
    LinNormal(q, g, h, a - b, r - s);
    ModAddLeft(q, x, -(y % q));
    assert (a - b) * g + (r - s) * h == x - y;
    ModNegate(q, x, y);
  }

  lemma {:induction false} ModNegate(q: int, x: int, y: int)
    requires q > 0
    ensures (x - y % q) % q == (x - y) % q
  {
    assert y == q * (y / q) + y % q;
    ModCongruent(q, x - y % q, x - y, y / q);
  }

  /** A scalar only matters modulo the group order. */
  lemma {:induction false} LinReduce(q: int, g: int, h: int, a: int, r: int, a': int, r': int)
    requires q > 0 && a % q == a' % q && r % q == r' % q
    ensures Lin(q, g, h, a, r) == Lin(q, g, h, a', r')
  {
    ModMulLeft(q, a, g);
    ModMulLeft(q, a', g);
    ModMulLeft(q, r, h);
    ModMulLeft(q, r', h);
  }

  lemma {:induction false} ScaleReduce(q: int, k: int, a: int)
    requires q > 0
    ensures Scale(q, k % q, a) == Scale(q, k, a)
  {
    ModMulLeft(q, k, a);
  }

  /** Scaling the first base alone, or the second base alone. */
  lemma {:induction false} ScaleIsLin(q: int, g: int, h: int, k: int)
    requires q > 0 && IsElement(q, g) && IsElement(q, h)
    ensures Scale(q, k, g) == Lin(q, g, h, k, 0)
    ensures Scale(q, k, h) == Lin(q, g, h, 0, k)
  {
    LinNormal(q, g, h, k, 0);
    LinNormal(q, g, h, 0, k);
  }

  /** The element itself is 1 * g + 0 * h. */
  lemma {:induction false} BaseIsLin(q: int, g: int, h: int)
    requires q > 0 && IsElement(q, g) && IsElement(q, h)
    ensures g == Lin(q, g, h, 1, 0)
    ensures h == Lin(q, g, h, 0, 1)
  {
    LinNormal(q, g, h, 1, 0);
    LinNormal(q, g, h, 0, 1);
    ModOfReduced(q, g);
    ModOfReduced(q, h);
  }

  /** A combination over (Lin(g, h; a, r), h) is again a combination over (g, h). */
  lemma {:induction false} LinNested(q: int, g: int, h: int, a: int, r: int, k: int, s: int)
    requires q > 0 && IsElement(q, h)
    ensures Lin(q, Lin(q, g, h, a, r), h, k, s) == Lin(q, g, h, k * a, k * r + s)
  {
    var c := Lin(q, g, h, a, r);
    LinScale(q, g, h, k, a, r);
    LinNormal(q, g, h, 0, s);
    ModOfReduced(q, h);
    assert Scale(q, s, h) == Lin(q, g, h, 0, s);
    LinOp(q, g, h, k * a, k * r, 0, s);
  }

  // ---------------------------------------------------------------------
  // Prime order: a non-zero scalar has an inverse action.
  // ---------------------------------------------------------------------

  predicate IsPrime(p: int)
  {
    p > 1 && forall d :: 1 < d < p ==> p % d != 0
  }

  /** Euclid's lemma in the form the protocols need: a product of a non-zero
    * residue and a residue is zero only when the second one is. */
  lemma {:induction false} PrimeNoZeroDivisors(p: int, a: int, b: int)
    requires IsPrime(p) && 0 < a < p && 0 <= b < p && (a * b) % p == 0
    ensures b == 0
    decreases a
  {
    if a > 1 {
      var k, s := p / a, p % a;
      assert p == a * k + s;
      assert s != 0;
      // s * b = p * b - k * (a * b), a multiple of p
      assert (a * b) == p * ((a * b) / p);
      assert s * b == p * b - k * (a * b);
      assert s * b == p * (b - k * ((a * b) / p));
      ModCongruent(p, s * b, 0, b - k * ((a * b) / p));
      PrimeNoZeroDivisors(p, s, b);
    } else {
      ModOfReduced(p, b);
    }
  }

  /** Equal residues differ by a multiple of the modulus. */
  lemma {:induction false} ModSubZero(q: int, a: int, b: int)
    requires q > 0 && a % q == b % q
    ensures (a - b) % q == 0
  {
    assert a == q * (a / q) + a % q;
    assert b == q * (b / q) + b % q;
    ModCongruent(q, a - b, 0, a / q - b / q);
  }

  lemma {:induction false} ModZeroNegate(q: int, z: int)
    requires q > 0 && z % q == 0
    ensures (-z) % q == 0
  {
    assert z == q * (z / q);
    ModCongruent(q, -z, 0, -(z / q));
  }

  /** With prime order, a non-zero scalar times a residue difference vanishes
    * only when the difference does. */
  lemma {:induction false} PrimeCancel(p: int, c: int, d: int)
    requires IsPrime(p) && c % p != 0 && -p < d < p && (c * d) % p == 0
    ensures d == 0
  {
    ModMulLeft(p, c, d);
    if d >= 0 {
      PrimeNoZeroDivisors(p, c % p, d);
    } else {
      ModZeroNegate(p, (c % p) * d);
      assert -((c % p) * d) == (c % p) * (-d);
      PrimeNoZeroDivisors(p, c % p, -d);
    }
  }

  lemma {:induction false} MulSub(c: int, x: int, y: int)
    ensures c * (x - y) == c * x - c * y
  {
  }

  /** With prime order, scaling by a non-zero scalar is injective. */
  lemma {:induction false} ScaleInjective(p: int, c: int, x: int, y: int)
    requires IsPrime(p) && c % p != 0 && IsElement(p, x) && IsElement(p, y)
    ensures Scale(p, c, x) == Scale(p, c, y) <==> x == y
  {
    if Scale(p, c, x) == Scale(p, c, y) {
      var cx, cy, d := c * x, c * y, x - y;
      ModSubZero(p, cx, cy);
      MulSub(c, x, y);
      assert (c * d) % p == 0;
      PrimeCancel(p, c, d);
    }
  }

  // ---------------------------------------------------------------------
  // Replaying a Sigma-protocol announcement.
  // ---------------------------------------------------------------------

  /** Adding d to an element gives the element back exactly when d is a
    * multiple of the order. */
  lemma {:induction false} AddCancel(q: int, a: int, d: int)
    requires q > 0 && IsElement(q, a)
    ensures (a + d) % q == a <==> d % q == 0
  {
    ModOfReduced(q, a);
    if (a + d) % q == a {
      ModSubZero(q, a + d, a);
      assert a + d - a == d;
    }
    if d % q == 0 {
      assert d == q * (d / q);
      ModCongruent(q, a + d, a, d / q);
    }
  }

  /** Two elements are congruent only when they are equal. */
  lemma {:induction false} ElementsCongruent(q: int, u: int, v: int)
    requires q > 0 && IsElement(q, u) && IsElement(q, v)
    ensures (u - v) % q == 0 <==> u == v
  {
    if (u - v) % q == 0 {
      assert u - v == q * ((u - v) / q);
      MulBetween(q, (u - v) / q);
    }
  }

  /** The verifier's replay a' = (rho_a + c a) g + (rho_r + c r) h - c C
    * reproduces the announcement rho_a g + rho_r h exactly when c C equals
    * c (a g + r h). */
  lemma {:induction false} Replay(q: int, g: int, h: int, rhoA: int, rhoR: int, c: int, a: int, r: int, C: int)
    requires q > 0 && IsElement(q, C)
    ensures Op(q, Lin(q, g, h, rhoA + c * a, rhoR + c * r), Scale(q, -c, C)) == Lin(q, g, h, rhoA, rhoR)
        <==> Scale(q, c, Lin(q, g, h, a, r)) == Scale(q, c, C)
  {
    var A, O := Lin(q, g, h, rhoA, rhoR), Lin(q, g, h, a, r);
    var u, v := Scale(q, c, O), Scale(q, c, C);
    LinScale(q, g, h, c, a, r);
    LinOp(q, g, h, rhoA, rhoR, c * a, c * r);
    assert Lin(q, g, h, rhoA + c * a, rhoR + c * r) == Op(q, A, u);
    // (A + u) % q + (-c C) % q, reduced, is (A + (u - c C)) % q
    ModAddLeft(q, A + u, (-c * C) % q);
    ModAddLeft(q, -c * C, A + u);
    assert -c * C == -(c * C);
    assert A + u + -(c * C) == A + (u - c * C);
    AddCancel(q, A, u - c * C);
    ModNegate(q, u, c * C);
    ElementsCongruent(q, u, v);
  }

  /** With prime order and a non-zero challenge, the replay reproduces the
    * announcement exactly when C is the combination a g + r h. */
  lemma {:induction false} ReplayBinding(q: int, g: int, h: int, rhoA: int, rhoR: int, c: int, a: int, r: int, C: int)
    requires IsPrime(q) && c % q != 0 && IsElement(q, C)
    ensures Op(q, Lin(q, g, h, rhoA + c * a, rhoR + c * r), Scale(q, -c, C)) == Lin(q, g, h, rhoA, rhoR)
        <==> C == Lin(q, g, h, a, r)
  {
    Replay(q, g, h, rhoA, rhoR, c, a, r, C);
    ScaleInjective(q, c, Lin(q, g, h, a, r), C);
  }
}
