/** Sign followed by Verify accepts, in any group satisfying the laws. */
module RoundTrip {
  import opened Outcomes
  import opened Bytes
  import opened Field
  import opened Edwards
  import opened Hashing
  import opened EdDSA
  import ModArith

  /** The signing equation, multiplied by the cofactor: when s ≡ t (mod o) and
      S = (nonce + hram·s) mod o, then S·cof ≡ (t·hram + nonce)·cof (mod o). */
  lemma SigningEquation(o: nat, hram: nat, s: nat, t: nat, nonce: nat, cof: nat, S: nat)
    requires o > 0 && s % o == t % o
    requires S == (nonce + hram * s) % o
    ensures (S * cof) % o == ((t * hram + nonce) * cof) % o
  {
    ModArith.ModCongruence(s, t, hram, nonce, o);
    var u := hram * s + nonce;
    var v := t * hram + nonce;
    assert u % o == v % o && S == u % o;
    ModArith.ModMul(u, cof, o);
    ModArith.ModMul(v, cof, o);
    assert (S * cof) % o == (u * cof) % o;
  }

  /** cofactor·(S·Base) is the multiple (S·cofactor)·Base. */
  lemma LhsMultiple(c: Curve, S: nat)
    requires GroupLaws(c)
    ensures c.scalarMul(Mul(c, S), c.cofactor) == Mul(c, S * c.cofactor)
  {
    assert c.scalarMul(Mul(c, S), c.cofactor) == Mul(c, S * c.cofactor);
  }

  /** cofactor·(hram·(t·Base) + nonce·Base) is the multiple ((t·hram + nonce)·cofactor)·Base. */
  lemma RhsMultiple(c: Curve, t: nat, nonce: nat, hram: nat)
    requires GroupLaws(c)
    ensures Rhs(c, Mul(c, nonce), Mul(c, t), hram) == Mul(c, (t * hram + nonce) * c.cofactor)
  {
    assert c.scalarMul(Mul(c, t), hram) == Mul(c, t * hram);
    assert c.add(Mul(c, t * hram), Mul(c, nonce)) == Mul(c, t * hram + nonce);
    assert c.scalarMul(Mul(c, t * hram + nonce), c.cofactor) == Mul(c, (t * hram + nonce) * c.cofactor);
  }

  /** The values a successful Sign committed to: its nonce and its challenge. */
  lemma SignedValues(env: Env, message: Element, pub: PublicKey, priv: PrivateKey) returns (nonce: nat, hram: nat)
    requires env.curve.order <= env.curve.modulus
    requires Sign(env, message, pub, priv).err.None?
    ensures var sig := Sign(env, message, pub, priv).sig;
            && sig.R == Mul(env.curve, nonce)
            && Challenge(pub.hFunc, sig.R, pub.A, message) == Ok(hram)
            && sig.S == (nonce + hram * priv.scalar) % env.curve.order
  {
    var sig := Sign(env, message, pub, priv).sig;
    nonce := Nonce(env, priv.randSrc, env.writeMessage(message).value);
    hram := Challenge(pub.hFunc, sig.R, pub.A, message).value;
  }

  /** With A = t·Base, R = nonce·Base and S from the signing equation, the two sides Verify compares
      coincide and lie on the curve. */
  lemma EquationHolds(c: Curve, t: nat, s: nat, nonce: nat, hram: nat, S: Element)
    requires GroupLaws(c)
    requires s % c.order == t % c.order
    requires S == (nonce + hram * s) % c.order
    ensures Lhs(c, S) == Rhs(c, Mul(c, nonce), Mul(c, t), hram)
    ensures c.isOnCurve(Lhs(c, S))
  {
    LhsMultiple(c, S);
    RhsMultiple(c, t, nonce, hram);
    SigningEquation(c.order, hram, s, t, nonce, c.cofactor, S);
    SameMultiple(c, S * c.cofactor, (t * hram + nonce) * c.cofactor);
  }

  /** For a key pair in which A = t·Base and the stored scalar is congruent to t mod Order, every
      signature Sign produces is accepted by Verify with no error: both compute the challenge from the
      same five elements in the same order, and both sides of the check are the same multiple of Base. */
  lemma SignThenVerify(env: Env, t: nat, pub: PublicKey, priv: PrivateKey, message: Element)
    requires GroupLaws(env.curve)
    requires pub.A == Mul(env.curve, t)
    requires priv.scalar % env.curve.order == t % env.curve.order
    requires Sign(env, message, pub, priv).err.None?
    ensures Verify(env, Sign(env, message, pub, priv).sig, message, pub) == VerifyResult(true, None)
  {
    var sig := Sign(env, message, pub, priv).sig;
    var nonce, hram := SignedValues(env, message, pub, priv);
    EquationHolds(env.curve, t, priv.scalar, nonce, hram, sig.S);
    VerifyAccepts(env, sig, message, pub, hram);
  }

  /** Congruent scalars give the same multiple of Base. */
  lemma SameMultiple(c: Curve, a: nat, b: nat)
    requires GroupLaws(c)
    requires a % c.order == b % c.order
    ensures Mul(c, a) == Mul(c, b)
  {
    assert SameClass(c.order, a, b);
  }

  /** Verify accepts once the public key and both sides are on the curve and the sides coincide. */
  lemma VerifyAccepts(env: Env, sig: Signature, message: Element, pub: PublicKey, hram: nat)
    requires env.curve.isOnCurve(pub.A)
    requires Challenge(pub.hFunc, sig.R, pub.A, message) == Ok(hram)
    requires env.curve.isOnCurve(Lhs(env.curve, sig.S))
    requires Lhs(env.curve, sig.S) == Rhs(env.curve, sig.R, pub.A, hram)
    ensures Verify(env, sig, message, pub) == VerifyResult(true, None)
  {
  }

  /** The key pair `New` derives is usable exactly when its stored scalar, reduced mod the field
      modulus, still agrees with tmp mod Order; then every signature verifies. */
  lemma NewSignVerify(env: Env, seed: Bytes32, hFunc: Hasher, message: Element)
    requires GroupLaws(env.curve)
    requires var tmp := ScalarInt(env.sum512(seed));
             (tmp % env.curve.modulus) % env.curve.order == tmp % env.curve.order
    requires Sign(env, message, New(env, seed, hFunc).0, New(env, seed, hFunc).1).err.None?
    ensures var (pub, priv) := New(env, seed, hFunc);
            Verify(env, Sign(env, message, pub, priv).sig, message, pub) == VerifyResult(true, None)
  {
    var (pub, priv) := New(env, seed, hFunc);
    SignThenVerify(env, ScalarInt(env.sum512(seed)), pub, priv, message);
  }
}
