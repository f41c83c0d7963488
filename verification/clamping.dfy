/** The scalar clamping of key derivation. The reversal loop of `New` swaps 33 bytes, so the integer
    `SetBytes` reads is not the little-endian reading of the pruned first half that its comment
    describes. This module shows the effect on the code as written and gives the intended scalar
    with its clamping properties proved. */
module Clamping {
  import opened Bytes
  import opened EdDSA
  import opened KeyDerivation
  import ModArith

  /** The all-zero digest. */
  const ZeroDigest: Digest64 := seq(64, _ => 0 as bv8)

  /** The pruning bits of a byte, read as integer facts. */
  lemma ByteBits(b: bv8)
    ensures b & 0x07 == 0 ==> (b as int) % 8 == 0
    ensures b & 0x80 == 0 && b & 0x40 == 0x40 ==> 64 <= b as int < 128
  {
  }

  /** x and x mod 256 agree mod 8. */
  lemma LowBits(x: nat)
    ensures (x % 256) % 8 == x % 8
  {
    ModArith.ModShift(32 * (x / 256), x % 256, 8);
    assert x == 8 * (32 * (x / 256)) + x % 256;
  }

  /** As written, the scalar does not depend on digest byte 0 at all: the pruning of byte 0 is lost. */
  lemma ScalarIgnoresClampedByte(h: Digest64, h': Digest64)
    requires forall k :: 1 <= k < 64 ==> h[k] == h'[k]
    ensures ScalarInt(h) == ScalarInt(h')
  {
    assert SwapHead(Prune(h))[..32] == SwapHead(Prune(h'))[..32];
  }

  /** A digest for which the as-written scalar is odd, not a multiple of 8 as pruning is meant to ensure. */
  lemma ClampingLostExample()
    ensures ScalarInt(ZeroDigest[1 := 7]) % 8 == 7
  {
    var h := ZeroDigest[1 := 7];
    ScalarLayout(h);
    LowBits(ScalarInt(h));
  }

  /** The intended scalar: the pruned first 32 digest bytes read as a little-endian integer. It is a
      multiple of 8 with bit 254 set and no higher bit, as section 5.1.5 of RFC 8032 requires. */
  function ClampedScalar(h: Digest64): (r: nat)
    ensures r % 8 == 0
    ensures 64 * Pow256(31) <= r < 128 * Pow256(31)
  {
    var p := Prune(h);
    var s := Reverse(p[..32]);
    FromBigEndianBytes(s);
    FromBigEndianHead(s);
    ByteBits(p[0]);
    ByteBits(p[31]);
    LowBits(FromBigEndian(s));
    Bounds(s[0] as int, FromBigEndian(s[1..]), Pow256(31));
    FromBigEndian(s)
  }

  lemma Bounds(a: nat, rest: nat, p: nat)
    requires 64 <= a < 128 && rest < p
    ensures 64 * p <= a * p + rest < 128 * p
  {
    assert a * p >= 64 * p;
    assert (a + 1) * p <= 128 * p;
  }
}
