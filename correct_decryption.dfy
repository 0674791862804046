/**
 * ProofCorrectDecryption (zero_knowledge_proofs/ec_based/correct_decryption.py):
 * a Sigma proof that a plaintext is the ElGamal decryption of a ciphertext,
 * made non-interactive with the challenge of module HashFunction.
 */
module CorrectDecryption {
  import opened DiscreteLog
  import opened HashFunction
  import opened ElGamal

  /** The fields `verify` reads. */
  datatype DecryptionProof = DecryptionProof(order: int, announcement: int, response: int)

  /** `ciphertext.tolist() + [plaintext] + [announcement] + [order]`: what
    * both sides hash. */
  function Transcript(ct: Ciphertext, plaintext: int, announcement: int, order: int): (t: seq<Item>)
    ensures |t| == 5 && IsFlat(t)
  {
    [PointItem(ct.c1), PointItem(ct.c2), PointItem(plaintext), PointItem(announcement), Leaf(Integer(order))]
  }

  /** The challenge of a transcript. */
  function DecryptionChallenge(H: Digest, ct: Ciphertext, plaintext: int, announcement: int, order: int): (c: int)
    requires order > 0
    ensures 0 <= c < order
  {
    Challenge(H, Transcript(ct, plaintext, announcement, order), order)
  }

  /** `ProofCorrectDecryption(kp, ciphertext, plaintext)` with the drawn
    * `random_announcement`: announcement rho c1, response rho + c sk. */
  function Prove(H: Digest, kp: KeyPair, ct: Ciphertext, plaintext: int, rho: int): (p: DecryptionProof)
    requires kp.group.Valid() && ct.group == kp.group
    ensures p.order == kp.group.order && IsElement(p.order, p.announcement)
  {
    var q := kp.group.order;
    var announcement := Scale(q, rho, ct.c1);
    var c := DecryptionChallenge(H, ct, plaintext, announcement, q);
    DecryptionProof(q, announcement, rho + c * kp.sk)
  }

  /** `verify(ciphertext, plaintext)`: recomputes the challenge from the
    * stored announcement and order, then compares
    * c plaintext - announcement with c c2 - response c1. */
  function Verify(H: Digest, p: DecryptionProof, ct: Ciphertext, plaintext: int): (ok: bool)
    requires ct.group.Valid() && p.order > 0
    ensures
      var q, c := ct.group.order, DecryptionChallenge(H, ct, plaintext, p.announcement, p.order);
      ok <==> (c * plaintext - p.announcement) % q == (c * ct.c2 - p.response * ct.c1) % q
  {
    var c := DecryptionChallenge(H, ct, plaintext, p.announcement, p.order);
    CheckHolds(ct.group.order, c, plaintext, p.announcement, p.response, ct.c1, ct.c2)
  }

  /** The equation of `verify` for challenge c, announcement A and response
    * z: c plaintext - A == c c2 - z c1 in the group, that is, the two
    * integers agree modulo the order. */
  predicate CheckHolds(q: int, c: int, plaintext: int, A: int, z: int, c1: int, c2: int): (ok: bool)
    requires q > 0
    ensures ok <==> (c * plaintext - A) % q == (c * c2 - z * c1) % q
  {
    ModAddLeft(q, c * plaintext, -A);
    DifferenceOfResidues(q, c * c2, z * c1);
    Div(q, Scale(q, c, plaintext), A) == Div(q, Scale(q, c, c2), Scale(q, z, c1))
  }

  // ---------------------------------------------------------------------
  // The check as an identity
  // ---------------------------------------------------------------------

  /** Both sides of the check with the reductions of the intermediate points
    * removed. */
  lemma {:induction false} CheckNormal(q: int, c: int, plaintext: int, announcement: int, c1: int, c2: int,
                                       response: int)
    requires q > 0 && IsElement(q, announcement)
    ensures Div(q, Scale(q, c, plaintext), announcement) == (c * plaintext - announcement) % q
    ensures Div(q, Scale(q, c, c2), Scale(q, response, c1)) == (c * c2 - response * c1) % q
  {
    ModOfReduced(q, announcement);
    DifferenceOfResidues(q, c * plaintext, announcement);
    DifferenceOfResidues(q, c * c2, response * c1);
  }

  /** Two integers agree modulo q exactly when their difference vanishes. */
  lemma {:induction false} CongruentIffDifference(q: int, x: int, y: int)
    requires q > 0
    ensures x % q == y % q <==> (x - y) % q == 0
  {
    if x % q == y % q {
      ModSubZero(q, x, y);
    }
    if (x - y) % q == 0 {
      assert x - y == q * ((x - y) / q);
      ModCongruent(q, x, y, (x - y) / q);
    }
  }

  /** For an honest announcement rho c1 and response rho + c sk, the two
    * sides of the check (reductions removed) differ by c (plaintext - m)
    * modulo q, m being the decryption c2 - sk c1. */
  lemma {:induction false} HonestDifference(q: int, c: int, plaintext: int, rho: int, sk: int, c1: int, c2: int)
    requires q > 0
    ensures var x, y := c * plaintext - (rho * c1) % q, c * c2 - (rho + c * sk) * c1;
      (x - y) % q == (c * (plaintext - (c2 - sk * c1) % q)) % q
  {
    var x, y := c * plaintext - (rho * c1) % q, c * c2 - (rho + c * sk) * c1;
    var a, d := rho * c1, c2 - sk * c1;
    DivMod(q, a);
    DivMod(q, d);
    assert x - y == c * (plaintext - d) + q * (a / q) by {
      assert (rho + c * sk) * c1 == a + c * (sk * c1);
      assert c * (plaintext - d) == c * plaintext - c * c2 + c * (sk * c1);
    }
    assert c * (plaintext - d % q) == c * (plaintext - d) + q * (c * (d / q));
    ModCongruent(q, x - y, c * (plaintext - d % q), a / q - c * (d / q));
  }

  /** The check of an honest proof holds exactly when c (plaintext - m)
    * vanishes modulo q. */
  lemma {:induction false} HonestCheck(q: int, c: int, plaintext: int, rho: int, sk: int, c1: int, c2: int)
    requires q > 0
    ensures CheckHolds(q, c, plaintext, Scale(q, rho, c1), rho + c * sk, c1, c2)
      <==> (c * (plaintext - (c2 - sk * c1) % q)) % q == 0
  {
    var A := Scale(q, rho, c1);
    CheckNormal(q, c, plaintext, A, c1, c2, rho + c * sk);
    CongruentIffDifference(q, c * plaintext - A, c * c2 - (rho + c * sk) * c1);
    HonestDifference(q, c, plaintext, rho, sk, c1, c2);
  }

  lemma {:induction false} ZeroMultiple(q: int, c: int, d: int)
    requires q > 0 && d == 0
    ensures (c * d) % q == 0
  {
  }

  /** Completeness: the proof of the true decryption is accepted. */
  lemma {:induction false} Completeness(H: Digest, G: Group, sk: int, ct: Ciphertext, rho: int)
    requires G.Valid() && ct.Valid() && ct.group == G
    ensures var kp := MakeKeyPair(G, sk);
      var plaintext := Decrypt(ct, sk);
      Verify(H, Prove(H, kp, ct, plaintext, rho), ct, plaintext)
  {
    var q := G.order;
    var plaintext := Decrypt(ct, sk);
    var p := Prove(H, MakeKeyPair(G, sk), ct, plaintext, rho);
    var c := DecryptionChallenge(H, ct, plaintext, p.announcement, q);
    assert p == DecryptionProof(q, Scale(q, rho, ct.c1), rho + c * sk);
    DecryptNormal(ct, sk);
    HonestCheck(q, c, plaintext, rho, sk, ct.c1, ct.c2);
    ZeroMultiple(q, c, plaintext - (ct.c2 - sk * ct.c1) % q);
    assert Verify(H, p, ct, plaintext) == CheckHolds(q, c, plaintext, p.announcement, p.response, ct.c1, ct.c2);
  }

  /** With prime order and a non-zero challenge, the check of an honest
    * proof holds exactly for the true decryption. */
  lemma {:induction false} HonestCheckIff(q: int, c: int, plaintext: int, rho: int, sk: int, ct: Ciphertext)
    requires IsPrime(q) && 0 < c < q && ct.Valid() && ct.group.order == q && IsElement(q, plaintext)
    ensures CheckHolds(q, c, plaintext, Scale(q, rho, ct.c1), rho + c * sk, ct.c1, ct.c2)
            <==> plaintext == Decrypt(ct, sk)
  {
    var m := Decrypt(ct, sk);
    DecryptNormal(ct, sk);
    HonestCheck(q, c, plaintext, rho, sk, ct.c1, ct.c2);
    if plaintext == m {
      ZeroMultiple(q, c, plaintext - m);
    } else if (c * (plaintext - m)) % q == 0 {
      ModOfReduced(q, c);
      PrimeCancel(q, c, plaintext - m);
    }
  }

  /** Soundness for an honest response: with prime order and a non-zero
    * challenge, the check holds only for the true decryption. */
  lemma {:induction false} OnlyTrueDecryption(H: Digest, G: Group, sk: int, ct: Ciphertext, plaintext: int, rho: int)
    requires G.Valid() && IsPrime(G.order) && ct.Valid() && ct.group == G && IsElement(G.order, plaintext)
    requires var p := Prove(H, MakeKeyPair(G, sk), ct, plaintext, rho);
      DecryptionChallenge(H, ct, plaintext, p.announcement, p.order) != 0
    ensures Verify(H, Prove(H, MakeKeyPair(G, sk), ct, plaintext, rho), ct, plaintext) <==> plaintext == Decrypt(ct, sk)
  {
    var q := G.order;
    var p := Prove(H, MakeKeyPair(G, sk), ct, plaintext, rho);
    var c := DecryptionChallenge(H, ct, plaintext, p.announcement, q);
    assert p == DecryptionProof(q, Scale(q, rho, ct.c1), rho + c * sk);
    assert Verify(H, p, ct, plaintext) == CheckHolds(q, c, plaintext, p.announcement, p.response, ct.c1, ct.c2);
    HonestCheckIff(q, c, plaintext, rho, sk, ct);
  }
}
