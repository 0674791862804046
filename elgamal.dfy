/**
 * EC ElGamal (primitives/elgamal.py): key pairs, encryption, decryption,
 * re-encryption and the homomorphic operations on ciphertexts.
 *
 * A point is its discrete logarithm to an opaque base, an integer in
 * [0, order): point addition is `Op`, `k * P` is `Scale`, `P - Q` is `Div`
 * and the point at infinity is 0.
 */
module ElGamal {
  import opened DiscreteLog

  /** The curve group: its order and its generator. */
  datatype Group = Group(order: int, generator: int)
  {
    predicate Valid()
    {
      order > 0 && IsElement(order, generator)
    }
  }

  /** `group.infinite()`: the neutral point. */
  const Infinity: int := 0

  /** `PublicKey(group, pk)`. */
  datatype PublicKey = PublicKey(group: Group, point: int)
  {
    predicate Valid()
    {
      group.Valid() && IsElement(group.order, point)
    }
  }

  /** `KeyPair(group)`: the secret scalar and the public key sk * g. */
  datatype KeyPair = KeyPair(group: Group, sk: int, pk: PublicKey)

  /** `Ciphertext(c1, c2)`; its group is the group of c1. */
  datatype Ciphertext = Ciphertext(group: Group, c1: int, c2: int)
  {
    predicate Valid()
    {
      group.Valid() && IsElement(group.order, c1) && IsElement(group.order, c2)
    }
  }

  /** `KeyPair(group)` with the drawn secret sk. */
  function MakeKeyPair(G: Group, sk: int): (kp: KeyPair)
    requires G.Valid()
    ensures kp.group == G && kp.pk.group == G && kp.sk == sk && kp.pk.Valid()
  {
    KeyPair(G, sk, PublicKey(G, Scale(G.order, sk, G.generator)))
  }

  /** `encrypt(msg, ephemeral_key)`: (k g, k pk + msg). */
  function Encrypt(pk: PublicKey, msg: int, k: int): (ct: Ciphertext)
    requires pk.Valid()
    ensures ct.Valid() && ct.group == pk.group
  {
    var q := pk.group.order;
    Ciphertext(pk.group, Scale(q, k, pk.group.generator), Op(q, Scale(q, k, pk.point), msg))
  }

  /** `decrypt(sk)`: c2 - sk c1. */
  function Decrypt(ct: Ciphertext, sk: int): (m: int)
    requires ct.group.Valid()
    ensures IsElement(ct.group.order, m)
  {
    var q := ct.group.order;
    Div(q, ct.c2, Scale(q, sk, ct.c1))
  }

  /** `__mul__`: the componentwise sum of two ciphertexts of one group. */
  function Mul(a: Ciphertext, b: Ciphertext): (ct: Ciphertext)
    requires a.group.Valid() && b.group == a.group
    ensures ct.Valid() && ct.group == a.group
  {
    var q := a.group.order;
    Ciphertext(a.group, Op(q, a.c1, b.c1), Op(q, a.c2, b.c2))
  }

  /** `__pow__(exponent)`: both components scaled by the exponent. */
  function Power(ct: Ciphertext, e: int): (r: Ciphertext)
    requires ct.group.Valid()
    ensures r.Valid() && r.group == ct.group
  {
    var q := ct.group.order;
    Ciphertext(ct.group, Scale(q, e, ct.c1), Scale(q, e, ct.c2))
  }

  /** `reencrypt(ctxt, ephemeral_key)`: the product with an encryption of
    * the point at infinity. */
  function Reencrypt(pk: PublicKey, ct: Ciphertext, k: int): (r: Ciphertext)
    requires pk.Valid() && ct.group == pk.group
    ensures r.Valid() && r.group == pk.group
  {
    Mul(ct, Encrypt(pk, Infinity, k))
  }

  /** `__eq__`: the two points agree; the group is not compared. */
  function Equal(a: Ciphertext, b: Ciphertext): (r: bool)
    ensures r <==> a.(group := b.group) == b
  {
    a.c1 == b.c1 && a.c2 == b.c2
  }

  /** `tolist()`. */
  function ToList(ct: Ciphertext): (r: seq<int>)
    ensures |r| == 2
  {
    [ct.c1, ct.c2]
  }

  // ---------------------------------------------------------------------
  // Residue arithmetic
  // ---------------------------------------------------------------------

  lemma {:induction false} DivMod(q: int, x: int)
    requires q > 0
    ensures x == q * (x / q) + x % q
  {
  }

  lemma {:induction false} SumOfResidues(q: int, a: int, b: int)
    requires q > 0
    ensures (a % q + b % q) % q == (a + b) % q
  {
    ModAddLeft(q, a, b % q);
    ModAddLeft(q, b, a);
    assert b % q + a == a + b % q;
  }

  lemma {:induction false} DifferenceOfResidues(q: int, a: int, b: int)
    requires q > 0
    ensures (a % q - b % q) % q == (a - b) % q
  {
    ModAddLeft(q, a, -(b % q));
    DivMod(q, b);
    ModCongruent(q, a - b % q, a - b, b / q);
  }

  /** Decryption, with the reductions of the intermediate points removed. */
  lemma {:induction false} DecryptNormal(ct: Ciphertext, sk: int)
    requires ct.Valid()
    ensures Decrypt(ct, sk) == (ct.c2 - sk * ct.c1) % ct.group.order
  {
    var q := ct.group.order;
    ModOfReduced(q, ct.c2);
    DifferenceOfResidues(q, ct.c2, sk * ct.c1);
  }

  // ---------------------------------------------------------------------
  // Round trip
  // ---------------------------------------------------------------------

  /** Decryption with the secret key undoes encryption under the matching
    * public key, whatever the ephemeral key: the `decrypt` doctest. */
  lemma {:induction false} DecryptEncrypt(G: Group, sk: int, msg: int, k: int)
    requires G.Valid() && IsElement(G.order, msg)
    ensures Decrypt(Encrypt(MakeKeyPair(G, sk).pk, msg, k), sk) == msg
  {
    var q, g := G.order, G.generator;
    var ct := Encrypt(MakeKeyPair(G, sk).pk, msg, k);
    var t := k * (sk * g);
    ModMulRight(q, sk, k * g);
    ModMulRight(q, k, sk * g);
    assert sk * (k * g) == t;
    assert ct.c2 == (t % q + msg) % q;
    ModAddLeft(q, t, msg);
    DecryptNormal(ct, sk);
    assert Decrypt(ct, sk) == (ct.c2 % q - (sk * (k * g)) % q) % q by {
      ModOfReduced(q, ct.c2);
      DifferenceOfResidues(q, ct.c2, sk * (k * g));
    }
    DifferenceOfResidues(q, t + msg, t);
    assert t + msg - t == msg;
    ModOfReduced(q, msg);
  }

  // ---------------------------------------------------------------------
  // Homomorphisms
  // ---------------------------------------------------------------------

  lemma {:induction false} DistributeLeft(e: int, a: int, b: int)
    ensures e * (a + b) == e * a + e * b
    ensures e * (a - b) == e * a - e * b
  {
  }

  lemma {:induction false} DistributeRight(a: int, b: int, g: int)
    ensures (a + b) * g == a * g + b * g
  {
  }

  lemma {:induction false} Associate(a: int, b: int, c: int)
    ensures a * (b * c) == (a * b) * c == b * (a * c)
  {
  }

  /** Replacing the subtrahend by a congruent one keeps the residue. */
  lemma {:induction false} SubtractCongruent(q: int, a: int, b: int, b': int)
    requires q > 0 && b % q == b' % q
    ensures (a - b) % q == (a - b') % q
  {
    DivMod(q, b);
    DivMod(q, b');
    ModCongruent(q, a - b % q, a - b, b / q);
    ModCongruent(q, a - b' % q, a - b', b' / q);
  }

  /** The second components of a product of encryptions, with the masks
    * x1 = k1 pk and x2 = k2 pk. */
  lemma {:induction false} SumOfMasked(q: int, x1: int, x2: int, m1: int, m2: int)
    requires q > 0
    ensures ((x1 % q + m1) % q + (x2 % q + m2) % q) % q == ((x1 + x2) % q + (m1 + m2) % q) % q
  {
    SumOfResidues(q, x1 % q + m1, x2 % q + m2);
    ModAddLeft(q, x1, m1 + x2 % q + m2);
    ModAddLeft(q, x2, x1 + m1 + m2);
    assert x1 % q + m1 + (x2 % q + m2) == x1 % q + (m1 + x2 % q + m2);
    assert x1 + (m1 + x2 % q + m2) == x2 % q + (x1 + m1 + m2);
    SumOfResidues(q, x1 + x2, m1 + m2);
    assert x2 + (x1 + m1 + m2) == x1 + x2 + (m1 + m2);
  }

  /** The product of two encryptions is the encryption of the sum of the
    * messages under the sum of the ephemeral keys. */
  lemma {:induction false} EncryptMul(pk: PublicKey, m1: int, k1: int, m2: int, k2: int)
    requires pk.Valid()
    ensures Mul(Encrypt(pk, m1, k1), Encrypt(pk, m2, k2))
         == Encrypt(pk, Op(pk.group.order, m1, m2), k1 + k2)
  {
    var q, g, P := pk.group.order, pk.group.generator, pk.point;
    DistributeRight(k1, k2, g);
    SumOfResidues(q, k1 * g, k2 * g);
    DistributeRight(k1, k2, P);
    SumOfMasked(q, k1 * P, k2 * P, m1, m2);
  }

  /** Decryption of a product, on the components. */
  lemma {:induction false} DecryptSum(q: int, sk: int, a1: int, a2: int, b1: int, b2: int)
    requires q > 0
    ensures ((a2 + b2) % q - (sk * ((a1 + b1) % q)) % q) % q
         == ((a2 - (sk * a1) % q) % q + (b2 - (sk * b1) % q) % q) % q
  {
    var x, y := sk * a1, sk * b1;
    ModMulRight(q, sk, a1 + b1);
    DistributeLeft(sk, a1, b1);
    DifferenceOfResidues(q, a2 + b2, x + y);
    SumOfResidues(q, a2 - x % q, b2 - y % q);
    DivMod(q, x);
    DivMod(q, y);
    ModCongruent(q, a2 - x % q + (b2 - y % q), a2 - x + (b2 - y % q), x / q);
    ModCongruent(q, a2 - x + (b2 - y % q), a2 + b2 - (x + y), y / q);
  }

  /** Decryption turns the product of ciphertexts into the sum of the
    * plaintexts: the `__mul__` doctest. */
  lemma {:induction false} DecryptMul(a: Ciphertext, b: Ciphertext, sk: int)
    requires a.Valid() && b.Valid() && b.group == a.group
    ensures Decrypt(Mul(a, b), sk) == Op(a.group.order, Decrypt(a, sk), Decrypt(b, sk))
  {
    DecryptSum(a.group.order, sk, a.c1, a.c2, b.c1, b.c2);
  }

  /** The second components of a power of an encryption, with the mask
    * x = k pk. */
  lemma {:induction false} ScaledMasked(q: int, e: int, x: int, msg: int)
    requires q > 0
    ensures (e * ((x % q + msg) % q)) % q == ((e * x) % q + (e * msg) % q) % q
  {
    ModMulRight(q, e, x % q + msg);
    DistributeLeft(e, x % q, msg);
    ModAddLeft(q, e * (x % q), e * msg);
    ModMulRight(q, e, x);
    ModAddLeft(q, e * x, e * msg);
    SumOfResidues(q, e * x, e * msg);
  }

  /** Raising an encryption to e gives the encryption of e msg under the
    * ephemeral key e k. */
  lemma {:induction false} EncryptPower(pk: PublicKey, msg: int, k: int, e: int)
    requires pk.Valid()
    ensures Power(Encrypt(pk, msg, k), e) == Encrypt(pk, Scale(pk.group.order, e, msg), e * k)
  {
    var q, g, P := pk.group.order, pk.group.generator, pk.point;
    ModMulRight(q, e, k * g);
    Associate(e, k, g);
    ScaledMasked(q, e, k * P, msg);
    Associate(e, k, P);
  }

  /** Decryption of a power, on the components. */
  lemma {:induction false} DecryptScaled(q: int, sk: int, e: int, c1: int, c2: int)
    requires q > 0
    ensures ((e * c2) % q - (sk * ((e * c1) % q)) % q) % q == (e * ((c2 - (sk * c1) % q) % q)) % q
  {
    var w := sk * c1;
    ModMulRight(q, sk, e * c1);
    DifferenceOfResidues(q, e * c2, sk * (e * c1));
    ModMulRight(q, e, c2 - w % q);
    DistributeLeft(e, c2, w % q);
    ModMulRight(q, e, w);
    SubtractCongruent(q, e * c2, e * (w % q), e * w);
    Associate(e, sk, c1);
  }

  /** Decryption turns a power of a ciphertext into the multiple of the
    * plaintext: the `__pow__` doctest. */
  lemma {:induction false} DecryptPower(ct: Ciphertext, e: int, sk: int)
    requires ct.Valid()
    ensures Decrypt(Power(ct, e), sk) == Scale(ct.group.order, e, Decrypt(ct, sk))
  {
    DecryptScaled(ct.group.order, sk, e, ct.c1, ct.c2);
  }

  /** The doctests of `__mul__` and `__pow__`: 10 g and 1014 g add up to
    * 1024 g, and (10 g) ** 100 decrypts to 1000 g. */
  lemma {:induction false} DoctestHomomorphisms(G: Group, sk: int, k1: int, k2: int)
    requires G.Valid()
    ensures var pk, g, q := MakeKeyPair(G, sk).pk, G.generator, G.order;
      && Decrypt(Mul(Encrypt(pk, Scale(q, 10, g), k1), Encrypt(pk, Scale(q, 1014, g), k2)), sk) == Scale(q, 1024, g)
      && Decrypt(Power(Encrypt(pk, Scale(q, 10, g), k1), 100), sk) == Scale(q, 1000, g)
  {
    var pk, g, q := MakeKeyPair(G, sk).pk, G.generator, G.order;
    var a, b := Encrypt(pk, Scale(q, 10, g), k1), Encrypt(pk, Scale(q, 1014, g), k2);
    DecryptMul(a, b, sk);
    DecryptEncrypt(G, sk, Scale(q, 10, g), k1);
    DecryptEncrypt(G, sk, Scale(q, 1014, g), k2);
    DistributeRight(10, 1014, g);
    SumOfResidues(q, 10 * g, 1014 * g);
    DecryptPower(a, 100, sk);
    ModMulRight(q, 100, 10 * g);
    Associate(100, 10, g);
  }

  // ---------------------------------------------------------------------
  // Re-encryption
  // ---------------------------------------------------------------------

  /** Re-encrypting an encryption refreshes its ephemeral key. */
  lemma {:induction false} ReencryptEncrypt(pk: PublicKey, msg: int, k: int, k': int)
    requires pk.Valid() && IsElement(pk.group.order, msg)
    ensures Reencrypt(pk, Encrypt(pk, msg, k), k') == Encrypt(pk, msg, k + k')
  {
    EncryptMul(pk, msg, k, Infinity, k');
    ModOfReduced(pk.group.order, msg);
  }

  /** Re-encryption under the matching public key never changes the
    * plaintext, for any ciphertext. */
  lemma {:induction false} DecryptReencrypt(G: Group, sk: int, ct: Ciphertext, k: int)
    requires G.Valid() && ct.Valid() && ct.group == G
    ensures Decrypt(Reencrypt(MakeKeyPair(G, sk).pk, ct, k), sk) == Decrypt(ct, sk)
  {
    var pk := MakeKeyPair(G, sk).pk;
    var zero := Encrypt(pk, Infinity, k);
    DecryptMul(ct, zero, sk);
    DecryptEncrypt(G, sk, Infinity, k);
    ModOfReduced(G.order, Decrypt(ct, sk));
  }

  // ---------------------------------------------------------------------
  // Equality and tolist
  // ---------------------------------------------------------------------

  /** Two ciphertexts are `==` exactly when their lists are equal. */
  lemma {:induction false} EqualIffSameList(a: Ciphertext, b: Ciphertext)
    ensures Equal(a, b) <==> ToList(a) == ToList(b)
  {
    if ToList(a) == ToList(b) {
      assert ToList(a)[0] == ToList(b)[0] && ToList(a)[1] == ToList(b)[1];
    }
  }

  /** Equal ciphertexts of one group decrypt to the same point. */
  lemma {:induction false} EqualDecryptsEqual(a: Ciphertext, b: Ciphertext, sk: int)
    requires a.group.Valid() && b.group == a.group && Equal(a, b)
    ensures Decrypt(a, sk) == Decrypt(b, sk) && a == b
  {
  }
}
