/** The stored secret scalar. `New` keeps tmp in an `fr.Element`, so the scalar Sign uses is tmp
    reduced mod the field modulus, while the public key is A = tmp·Base. This module shows, in a
    lawful toy group, a key from `New` whose signature Verify rejects. It also proves that a
    derivation keeping the scalar congruent to tmp mod the group order makes every signature verify. */
module ScalarReduction {
  import opened Outcomes
  import opened Bytes
  import opened Field
  import opened Edwards
  import opened Hashing
  import opened EdDSA
  import opened RoundTrip
  import opened Clamping
  import ModArith

  /** The all-zero seed. */
  const ZeroSeed: Bytes32 := seq(32, _ => 0 as bv8)

  /** The 32 bytes the toy `binary.Write` yields for every message. */
  const ZeroLimbs: Bytes32 := seq(32, _ => 0 as bv8)

  /** The intended key derivation: the RFC 8032 scalar, with the stored secret congruent to it mod the
      group order, so that the signing key and A = tmp·Base agree. */
  function NewCorrected(env: Env, seed: Bytes32, hFunc: Hasher): (PublicKey, PrivateKey)
  {
    var h := env.sum512(seed);
    var tmp := ClampedScalar(h);
    (PublicKey(Mul(env.curve, tmp), hFunc),
     PrivateKey(h[32..], SetBigInt(tmp % env.curve.order, env.curve.modulus)))
  }

  /** With the corrected derivation every signature verifies, for every seed. */
  lemma RoundTripCorrected(env: Env, seed: Bytes32, hFunc: Hasher, message: Element)
    requires GroupLaws(env.curve)
    requires Sign(env, message, NewCorrected(env, seed, hFunc).0, NewCorrected(env, seed, hFunc).1).err.None?
    ensures var (pub, priv) := NewCorrected(env, seed, hFunc);
            Verify(env, Sign(env, message, pub, priv).sig, message, pub) == VerifyResult(true, None)
  {
    var (pub, priv) := NewCorrected(env, seed, hFunc);
    var tmp := ClampedScalar(env.sum512(seed));
    ModArith.ModSmall(tmp % env.curve.order, env.curve.order);
    assert priv.scalar == tmp % env.curve.order;
    SignThenVerify(env, tmp, pub, priv, message);
  }

  /** A lawful discrete-log group of order 5 over a field of modulus 17, with both hashes replaced by
      constant test doubles and a `binary.Write` that yields 32 zero bytes. */
  function ToyEnv(): Env
  {
    Pow256AtLeast(32);
    Env(DiscreteLog(5, 17, 1), (_: seq<bv8>) => ZeroDigest, (_: Element) => Ok(ZeroLimbs))
  }

  function ToyHasher(): Hasher
  {
    Hasher((_: seq<bv8>) => [1 as bv8], (_: seq<bv8>, _: seq<bv8>) => None)
  }

  lemma Pow256ModOne(n: nat, d: nat)
    requires d > 1 && 256 % d == 1
    ensures Pow256(n) % d == 1
  {
    if n > 0 {
      Pow256ModOne(n - 1, d);
      ModArith.ModCongruence(Pow256(n - 1), 1, 256, 0, d);
    }
  }

  /** The as-written scalar of the all-zero digest is 0x40·256^30 (only the clamped byte 31 survives). */
  lemma ZeroDigestScalar()
    ensures ScalarInt(ZeroDigest) == 64 * Pow256(30)
  {
    var p := Prune(ZeroDigest);
    assert forall k :: 0 <= k < 64 && k != 31 ==> p[k] == 0;
    assert p[31] == 0x40;
    var s := SwapHead(p)[..32];
    assert forall k :: 0 <= k < 32 ==> s[k] == p[32 - k];
    var t := s[1..];
    var tail := t[1..];
    assert forall k :: 0 <= k < |tail| ==> tail[k] == 0;
    FromBigEndianZeros(tail);
    LeadingZero(s);
    LeadingByte64(t);
  }

  lemma {:induction false} LeadingZero(s: seq<bv8>)
    requires |s| > 0 && s[0] == 0
    ensures FromBigEndian(s) == FromBigEndian(s[1..])
  {
    if |s| == 1 {
      assert s[..0] == [] && s[1..] == [];
    } else {
      LeadingZero(s[..|s| - 1]);
      InitTail(s);
    }
  }

  lemma LeadingByte64(t: seq<bv8>)
    requires |t| == 31 && t[0] == 0x40
    requires FromBigEndian(t[1..]) == 0
    ensures FromBigEndian(t) == 64 * Pow256(30)
  {
    FromBigEndianHead(t);
  }

  /** The scalar of the zero digest is 13 mod 17 but 4 mod 5. */
  lemma ZeroDigestScalarClasses()
    ensures ScalarInt(ZeroDigest) % 17 == 13 && ScalarInt(ZeroDigest) % 5 == 4
  {
    ZeroDigestScalar();
    var p := Pow256(30);
    Pow256ModOne(30, 17);
    Pow256ModOne(30, 5);
    Classes(p);
  }

  lemma Classes(p: nat)
    requires p % 17 == 1 && p % 5 == 1
    ensures (64 * p) % 17 == 13 && (64 * p) % 5 == 4
  {
    ModArith.ModCongruence(p, 1, 64, 0, 17);
    ModArith.ModCongruence(p, 1, 64, 0, 5);
  }

  /** The keys `New` derives from the zero seed in the toy setting. */
  lemma ToyKeys()
    ensures var (pub, priv) := New(ToyEnv(), ZeroSeed, ToyHasher());
            pub.A == Point(4, 0) && priv.scalar == 13 && priv.randSrc == ZeroSeed
  {
    var env := ToyEnv();
    assert env.sum512(ZeroSeed) == ZeroDigest;
    var tmp := ScalarInt(ZeroDigest);
    ZeroDigestScalarClasses();
    DiscreteLogMul(5, 17, 1, tmp);
    assert Mul(env.curve, tmp) == Point(4, 0);
    assert SetBigInt(tmp, env.curve.modulus) == 13;
    assert ZeroDigest[32..] == ZeroSeed;
  }

  /** Signing message 0 with those keys: nonce 0, so R = 0·Base, challenge 1, S = 13 mod 5 = 3. */
  lemma ToySign(pub: PublicKey, priv: PrivateKey)
    requires pub.A == Point(4, 0) && pub.hFunc == ToyHasher()
    requires priv.scalar == 13 && priv.randSrc == ZeroSeed
    ensures Sign(ToyEnv(), 0, pub, priv) == SignResult(Signature(Point(0, 0), 3), None)
  {
    var c := ToyEnv().curve;
    FromBigEndianZeros(ZeroDigest[..32]);
    assert Nonce(ToyEnv(), ZeroSeed, ZeroLimbs) == 0;
    DiscreteLogMul(5, 17, 1, 0);
    assert Challenge(ToyHasher(), Point(0, 0), pub.A, 0) == Ok(1);
  }

  /** Verify compares 3·Base = Point(3, 0) with 1·A + R = Point(4, 0): a plain rejection. */
  lemma ToyVerify(pub: PublicKey)
    requires pub.A == Point(4, 0) && pub.hFunc == ToyHasher()
    ensures Verify(ToyEnv(), Signature(Point(0, 0), 3), 0, pub) == VerifyResult(false, None)
  {
    var c := ToyEnv().curve;
    assert Challenge(ToyHasher(), Point(0, 0), pub.A, 0) == Ok(1);
    DiscreteLogMul(5, 17, 1, 3);
    assert Lhs(c, 3) == Point(3, 0);
    assert Rhs(c, Point(0, 0), pub.A, 1) == Point(4, 0);
  }

  /** In that lawful group, the key `New` derives from the zero seed signs a message, yet Verify
      rejects the signature: the stored scalar tmp mod 17 = 13 is 3 mod 5, while A = tmp·Base has
      tmp ≡ 4 mod 5. */
  lemma ReducedScalarBreaksRoundTrip()
    ensures GroupLaws(ToyEnv().curve)
    ensures var (pub, priv) := New(ToyEnv(), ZeroSeed, ToyHasher());
            && Sign(ToyEnv(), 0, pub, priv).err.None?
            && Verify(ToyEnv(), Sign(ToyEnv(), 0, pub, priv).sig, 0, pub) == VerifyResult(false, None)
  {
    DiscreteLogLaws(5, 17, 1);
    var (pub, priv) := New(ToyEnv(), ZeroSeed, ToyHasher());
    ToyKeys();
    ToySign(pub, priv);
    ToyVerify(pub);
  }
}
