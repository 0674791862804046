/**
 * Pedersen commitments (primitives/pedersen.py).
 *
 * A key for n values holds n + 1 generators; a commitment to values
 * v_0 .. v_{n-1} with randomizer r is v_0 g_0 + ... + v_{n-1} g_{n-1} + r g_n.
 * The elliptic-curve key sums `powers * generators`, the finite-field key
 * multiplies `g ** p`: in the discrete-log view both are the same fold.
 */
module Pedersen {
  import opened DiscreteLog
  import opened Wrappers
  import HashFunction

  /** `PublicKey(group, n)`: the group order, the arity and the generators. */
  datatype PublicKey = PublicKey(order: int, n: nat, generators: seq<int>)
  {
    predicate Valid()
    {
      order > 0 && |generators| == n + 1
      && forall i :: 0 <= i < |generators| ==> IsElement(order, generators[i])
    }
  }

  /** `Commitment(c)`: a wrapped group element. */
  datatype Commitment = Commitment(commitment: int)

  /** The exception `commit` raises for a value list of the wrong length. */
  datatype CommitError = IncorrectLength(got: nat, expected: nat)

  /** The key for n values: generator i is the point hashed from the text of i. */
  function NewPublicKey(q: int, n: nat, hashToPoint: nat -> int): (pk: PublicKey)
    requires q > 0
    requires forall i: nat :: IsElement(q, hashToPoint(i))
    ensures pk.Valid() && pk.order == q && pk.n == n
    ensures forall i :: 0 <= i <= n ==> pk.generators[i] == hashToPoint(i)
  {
    PublicKey(q, n, seq(n + 1, i requires 0 <= i => hashToPoint(i)))
  }

  /** A key with two generators chosen by the caller, as the proofs build by
    * overwriting `generators` of a fresh `PublicKey(group, 1)`. */
  function KeyWithBases(q: int, g: int, h: int): (pk: PublicKey)
    requires q > 0 && IsElement(q, g) && IsElement(q, h)
    ensures pk.Valid() && pk.n == 1 && pk.order == q
    ensures pk.generators[0] == g && pk.generators[1] == h
  {
    PublicKey(q, 1, [g, h])
  }

  /** The integer the commitment is a residue of: sum of powers[i] * gens[i]. */
  function InnerProduct(gens: seq<int>, powers: seq<int>): int
    requires |gens| == |powers|
  {
    if |gens| == 0 then 0 else powers[0] * gens[0] + InnerProduct(gens[1..], powers[1..])
  }

  /** The fold over `powers * generators` (EC) or `g ** p` (FF). */
  function MultiExp(q: int, gens: seq<int>, powers: seq<int>): (c: int)
    requires q > 0 && |gens| == |powers| >= 1
    ensures IsElement(q, c)
    ensures c == InnerProduct(gens, powers) % q
  {
    if |gens| == 1 then
      Scale(q, powers[0], gens[0])
    else
      var rest := MultiExp(q, gens[1..], powers[1..]);
      ModAddLeft(q, InnerProduct(gens[1..], powers[1..]), (powers[0] * gens[0]) % q);
      ModAddLeft(q, powers[0] * gens[0], InnerProduct(gens[1..], powers[1..]));
      Op(q, Scale(q, powers[0], gens[0]), rest)
  }

  /** `commit(values, randomizer)` once the length check has passed. */
  function CommitValue(pk: PublicKey, values: seq<int>, randomizer: int): (c: Commitment)
    requires pk.Valid() && |values| == pk.n
    ensures IsElement(pk.order, c.commitment)
    ensures c.commitment == InnerProduct(pk.generators, values + [randomizer]) % pk.order
  {
    Commitment(MultiExp(pk.order, pk.generators, values + [randomizer]))
  }

  /** `commit(values, randomizer=None)`: the length check, then the fold; a
    * missing randomizer is the draw `order.random()`, here `draw`. */
  function Commit(pk: PublicKey, values: seq<int>, randomizer: Option<int>, draw: int)
    : (r: Result<Commitment, CommitError>)
    requires pk.Valid() && IsElement(pk.order, draw)
    ensures r.Err? <==> |values| != pk.n
    ensures r.Err? ==> r.error == IncorrectLength(|values|, pk.n)
    ensures r.Ok? ==>
      r.value.commitment == InnerProduct(pk.generators, values + [randomizer.GetOr(draw)]) % pk.order
  {
    if |values| != pk.n then Err(IncorrectLength(|values|, pk.n))
    else Ok(CommitValue(pk, values, randomizer.GetOr(draw)))
  }

  /** `c1 * c2` */
  function Mul(q: int, a: Commitment, b: Commitment): (c: Commitment)
    requires q > 0
    ensures IsElement(q, c.commitment)
    ensures c.commitment == Op(q, b.commitment, a.commitment)
  {
    Commitment(Op(q, a.commitment, b.commitment))
  }

  /** `c ** k` */
  function Power(q: int, a: Commitment, k: int): (c: Commitment)
    requires q > 0
    ensures IsElement(q, c.commitment)
    ensures k == 0 ==> c.commitment == 0
    ensures k == 1 ==> c.commitment == a.commitment % q
  {
    Commitment(Scale(q, k, a.commitment))
  }

  /** `c1 / c2` */
  function Divide(q: int, a: Commitment, b: Commitment): (c: Commitment)
    requires q > 0
    ensures IsElement(q, c.commitment)
    ensures Mul(q, c, b).commitment == a.commitment % q
  {
    ModAddLeft(q, a.commitment - b.commitment, b.commitment);
    Commitment(Div(q, a.commitment, b.commitment))
  }

  /** `c.export()`: a commitment enters a transcript as its element does. */
  function Export(c: Commitment): (item: HashFunction.Item)
    ensures item.Leaf? && item.value.Exportable?
    ensures item == HashFunction.Leaf(HashFunction.Exportable(c.commitment))
  {
    HashFunction.Leaf(HashFunction.Exportable(c.commitment))
  }

  // ---------------------------------------------------------------------
  // Pointwise arithmetic on value vectors, and the homomorphisms.
  // ---------------------------------------------------------------------

  function AddPointwise(a: seq<int>, b: seq<int>): (c: seq<int>)
    requires |a| == |b|
    ensures |c| == |a| && forall i :: 0 <= i < |a| ==> c[i] == a[i] + b[i]
  {
    seq(|a|, i requires 0 <= i < |a| => a[i] + b[i])
  }

  function SubPointwise(a: seq<int>, b: seq<int>): (c: seq<int>)
    requires |a| == |b|
    ensures |c| == |a| && forall i :: 0 <= i < |a| ==> c[i] == a[i] - b[i]
  {
    seq(|a|, i requires 0 <= i < |a| => a[i] - b[i])
  }

  function ScalePointwise(k: int, a: seq<int>): (c: seq<int>)
    ensures |c| == |a| && forall i :: 0 <= i < |a| ==> c[i] == k * a[i]
  {
    seq(|a|, i requires 0 <= i < |a| => k * a[i])
  }

  lemma {:induction false} InnerProductAdd(gens: seq<int>, a: seq<int>, b: seq<int>)
    requires |gens| == |a| == |b|
    ensures InnerProduct(gens, AddPointwise(a, b)) == InnerProduct(gens, a) + InnerProduct(gens, b)
  {
    if |gens| > 0 {
      assert AddPointwise(a, b)[1..] == AddPointwise(a[1..], b[1..]);
      InnerProductAdd(gens[1..], a[1..], b[1..]);
      assert (a[0] + b[0]) * gens[0] == a[0] * gens[0] + b[0] * gens[0];
    }
  }

  lemma {:induction false} InnerProductScale(gens: seq<int>, k: int, a: seq<int>)
    requires |gens| == |a|
    ensures InnerProduct(gens, ScalePointwise(k, a)) == k * InnerProduct(gens, a)
  {
    if |gens| > 0 {
      assert ScalePointwise(k, a)[1..] == ScalePointwise(k, a[1..]);
      InnerProductScale(gens[1..], k, a[1..]);
      assert (k * a[0]) * gens[0] + k * InnerProduct(gens[1..], a[1..])
        == k * (a[0] * gens[0] + InnerProduct(gens[1..], a[1..]));
    }
  }

  lemma {:induction false} InnerProductSub(gens: seq<int>, a: seq<int>, b: seq<int>)
    requires |gens| == |a| == |b|
    ensures InnerProduct(gens, SubPointwise(a, b)) == InnerProduct(gens, a) - InnerProduct(gens, b)
  {
    InnerProductAdd(gens, SubPointwise(a, b), b);
    assert AddPointwise(SubPointwise(a, b), b) == a;
  }

  /** Multiplying two commitments commits to the pointwise sum of the values
    * with the sum of the randomizers. */
  lemma {:induction false} CommitMulHomomorphic(pk: PublicKey, v1: seq<int>, r1: int, v2: seq<int>, r2: int)
    requires pk.Valid() && |v1| == |v2| == pk.n
    ensures Mul(pk.order, CommitValue(pk, v1, r1), CommitValue(pk, v2, r2))
         == CommitValue(pk, AddPointwise(v1, v2), r1 + r2)
  {
    var q, g := pk.order, pk.generators;
    var x, y := InnerProduct(g, v1 + [r1]), InnerProduct(g, v2 + [r2]);
    assert AddPointwise(v1, v2) + [r1 + r2] == AddPointwise(v1 + [r1], v2 + [r2]);
    InnerProductAdd(g, v1 + [r1], v2 + [r2]);
    ModAddLeft(q, x, y % q);
    ModAddLeft(q, y, x);
  }

  /** Raising a commitment to k multiplies the values and the randomizer by k. */
  lemma {:induction false} CommitPowHomomorphic(pk: PublicKey, v: seq<int>, r: int, k: int)
    requires pk.Valid() && |v| == pk.n
    ensures Power(pk.order, CommitValue(pk, v, r), k) == CommitValue(pk, ScalePointwise(k, v), k * r)
  {
    var q, g := pk.order, pk.generators;
    assert ScalePointwise(k, v) + [k * r] == ScalePointwise(k, v + [r]);
    InnerProductScale(g, k, v + [r]);
    ModMulRight(q, k, InnerProduct(g, v + [r]));
  }

  /** Dividing commitments commits to the pointwise difference. */
  lemma {:induction false} CommitDivHomomorphic(pk: PublicKey, v1: seq<int>, r1: int, v2: seq<int>, r2: int)
    requires pk.Valid() && |v1| == |v2| == pk.n
    ensures Divide(pk.order, CommitValue(pk, v1, r1), CommitValue(pk, v2, r2))
         == CommitValue(pk, SubPointwise(v1, v2), r1 - r2)
  {
    var q, g := pk.order, pk.generators;
    var x, y := InnerProduct(g, v1 + [r1]), InnerProduct(g, v2 + [r2]);
    assert SubPointwise(v1, v2) + [r1 - r2] == SubPointwise(v1 + [r1], v2 + [r2]);
    InnerProductSub(g, v1 + [r1], v2 + [r2]);
    ModAddLeft(q, x, -(y % q));
    ModNegate(q, x, y);
  }

  /** For a one-value key, a commitment is the two-base combination
    * v g_0 + r g_1 that the proofs compute with. */
  lemma {:induction false} CommitOneValue(pk: PublicKey, v: int, r: int)
    requires pk.Valid() && pk.n == 1
    ensures CommitValue(pk, [v], r).commitment
         == Lin(pk.order, pk.generators[0], pk.generators[1], v, r)
  {
    var g := pk.generators;
    assert [v] + [r] == [v, r];
    assert InnerProduct(g, [v, r]) == v * g[0] + r * g[1] by {
      assert [v, r][1..] == [r];
      assert InnerProduct(g[1..], [r]) == r * g[1] + InnerProduct(g[1..][1..], [r][1..]);
    }
    LinNormal(pk.order, g[0], g[1], v, r);
  }
}
