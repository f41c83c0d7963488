/** What key derivation actually produces from the 64-byte seed digest. */
module KeyDerivation {
  import opened Bytes
  import opened Field
  import opened Edwards
  import opened Hashing
  import opened EdDSA

  /** The scalar integer tmp is the big-endian reading of the pruned digest bytes 32, 31, ..., 1:
      its top byte is digest byte 32 (also the first byte of randSrc), its second byte is the
      clamped byte 31, its low byte is digest byte 1, and the clamped byte 0 is not part of it. */
  lemma {:induction false} ScalarLayout(h: Digest64)
    ensures SwapHead(Prune(h))[32] == Prune(h)[0]
    ensures ScalarInt(h) / Pow256(31) == h[32] as int
    ensures (ScalarInt(h) % Pow256(31)) / Pow256(30) == Prune(h)[31] as int
    ensures 64 <= (ScalarInt(h) % Pow256(31)) / Pow256(30) < 128
    ensures ScalarInt(h) % 256 == h[1] as int
  {
    var s := ScalarBytes(h);
    assert Prune(h)[32] == h[32] && Prune(h)[1] == h[1];
    assert s[0] == h[32] && s[1] == Prune(h)[31] && s[31] == h[1];
    FromBigEndianLeading(s);
    FromBigEndianTrailing(s);
    SecondByte(s);
  }

  /** The second byte of a 32-byte big-endian number is its digit of weight 256^30. */
  lemma SecondByte(s: seq<bv8>)
    requires |s| == 32
    ensures (FromBigEndian(s) % Pow256(31)) / Pow256(30) == s[1] as int
    ensures 0 <= s[1] as int < 256
  {
    FromBigEndianHead(s);
    var rest := FromBigEndian(s[1..]);
    ModOfAffine(s[0] as int, rest, Pow256(31));
    FromBigEndianLeading(s[1..]);
  }

  /** (a·p + rest) mod p == rest when rest < p. */
  lemma ModOfAffine(a: nat, rest: nat, p: nat)
    requires rest < p
    ensures (a * p + rest) % p == rest
  {
    DivOfAffine(a, rest, p);
  }

  /** The first byte of the nonce seed `New` keeps is also the top byte of the integer tmp behind the
      public key: the two halves of the digest, meant to be independent, share digest byte 32. */
  lemma SeedByteShared(env: Env, seed: Bytes32, hFunc: Hasher)
    ensures var tmp := ScalarInt(env.sum512(seed));
            && New(env, seed, hFunc).0.A == Mul(env.curve, tmp)
            && New(env, seed, hFunc).1.randSrc[0] as int == tmp / Pow256(31)
  {
    ScalarLayout(env.sum512(seed));
  }
}
