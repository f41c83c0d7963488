/** The EdDSA protocol layer over the bn256 twisted Edwards curve: key derivation from a seed (`New`),
    deterministic signing of a field-element message (`Sign`) and cofactor-cleared verification
    (`Verify`). */
module EdDSA {
  import opened Outcomes
  import opened Bytes
  import opened Field
  import opened Edwards
  import opened Hashing

  /** R is the nonce commitment, S the response scalar. */
  datatype Signature = Signature(R: Point, S: Element)

  /** The public point A, with the hash handle every Sign and Verify for this key uses. */
  datatype PublicKey = PublicKey(A: Point, hFunc: Hasher)

  /** randSrc seeds the per-message nonce; scalar is the secret scalar as stored in an `fr.Element`. */
  datatype PrivateKey = PrivateKey(randSrc: Bytes32, scalar: Element)

  /** The collaborators the package calls but does not define: the curve, `blake2b.Sum512`, and
      `binary.Write` of a message's raw limbs (32 bytes, or the error it returns). */
  datatype Env = Env(
    curve: Curve,
    sum512: seq<bv8> -> Digest64,
    writeMessage: Element -> Result<Bytes32>)

  /** Go's `(Signature, error)` and `(bool, error)` results; None stands for a nil error. */
  datatype SignResult = SignResult(sig: Signature, err: Option<Error>)
  datatype VerifyResult = VerifyResult(valid: bool, err: Option<Error>)

  /** The zero `Signature{}` returned alongside every error. */
  const EmptySignature := Signature(Point(0, 0), 0)

  // ---------------------------------------------------------------- key derivation

  /** The pruning of section 5.1.5 of RFC 8032 applied to bytes 0 and 31 of the digest. */
  function Prune(h: Digest64): (r: Digest64)
    ensures r[0] & 0x07 == 0 && r[0] & 0xF8 == h[0] & 0xF8
    ensures r[31] & 0x80 == 0 && r[31] & 0x40 == 0x40 && r[31] & 0x3F == h[31] & 0x3F
    ensures forall k :: 0 <= k < 64 && k != 0 && k != 31 ==> r[k] == h[k]
  {
    h[0 := h[0] & 0xF8][31 := (h[31] & 0x7F) | 0x40]
  }

  /** The buffer the reversal loop leaves: positions 0..32 (thirty-three bytes) mirrored about 16. */
  function SwapHead(h: Digest64): Digest64
  {
    seq(64, k requires 0 <= k < 64 => if k <= 32 then h[32 - k] else h[k])
  }

  /** The reversal loop as written: i runs up from 0 while j runs down from 32, swapping until they meet. */
  method ReverseHead(h: Digest64) returns (r: Digest64)
    ensures r == SwapHead(h)
  {
    r := h;
    var i, j := 0, 32;
    while i < j
      invariant 0 <= i <= 16 && j == 32 - i
      invariant forall k :: 0 <= k < i ==> r[k] == h[32 - k]
      invariant forall k :: j < k <= 32 ==> r[k] == h[32 - k]
      invariant forall k :: i <= k <= j ==> r[k] == h[k]
      invariant forall k :: 32 < k < 64 ==> r[k] == h[k]
    {
      r := r[i := r[j]][j := r[i]];
      i, j := i + 1, j - 1;
    }
  }

  /** The pruned digest bytes 32, 31, ..., 1, in that order. */
  function ScalarBytes(digest: Digest64): Bytes32
  {
    seq(32, k requires 0 <= k < 32 => Prune(digest)[32 - k])
  }

  /** `tmp`: the integer `SetBytes` reads from the first 32 bytes of the swapped buffer. Because the
      swap covers 33 bytes, those are the pruned digest bytes 32, 31, ..., 1, not bytes 31, ..., 0. */
  function ScalarInt(digest: Digest64): (r: nat)
    ensures r == FromBigEndian(ScalarBytes(digest))
    ensures r < Pow256(32)
  {
    assert SwapHead(Prune(digest))[..32] == ScalarBytes(digest);
    FromBigEndian(SwapHead(Prune(digest))[..32])
  }

  /** `New`: expand the seed, keep the upper half as nonce seed, derive the scalar from the lower half.
      The stored scalar is tmp as an `fr.Element`, so reduced mod the field modulus, while A uses tmp. */
  function New(env: Env, seed: Bytes32, hFunc: Hasher): (r: (PublicKey, PrivateKey))
    ensures var h := env.sum512(seed);
            var tmp := ScalarInt(h);
            && r.1.randSrc == h[32..]
            && r.0.A == Mul(env.curve, tmp)
            && r.0.hFunc == hFunc
            && r.1.scalar < env.curve.modulus
            && (tmp - r.1.scalar) % env.curve.modulus == 0
            && (tmp < env.curve.modulus ==> r.1.scalar == tmp)
  {
    var h := env.sum512(seed);
    var tmp := ScalarInt(h);
    (PublicKey(Mul(env.curve, tmp), hFunc), PrivateKey(h[32..], SetBigInt(tmp, env.curve.modulus)))
  }

  // ---------------------------------------------------------------- nonce

  /** The nonce input built by the two copy loops: randSrc into bytes 0..31, the first 32 bytes of
      `binary.Write(message)` into bytes 32..63. */
  method NonceBuffer(randSrc: Bytes32, bufb: Bytes32) returns (buf: seq<bv8>)
    ensures buf == randSrc + bufb
  {
    buf := seq(64, _ => 0 as bv8);
    var i := 0;
    while i < 32
      invariant 0 <= i <= 32 && |buf| == 64
      invariant forall k :: 0 <= k < i ==> buf[k] == randSrc[k]
    {
      buf := buf[i := randSrc[i]];
      i := i + 1;
    }
    i := 0;
    while i < 32
      invariant 0 <= i <= 32 && |buf| == 64
      invariant forall k :: 0 <= k < 32 ==> buf[k] == randSrc[k]
      invariant forall k :: 32 <= k < 32 + i ==> buf[k] == bufb[k - 32]
    {
      buf := buf[32 + i := bufb[i]];
      i := i + 1;
    }
    assert forall k :: 0 <= k < 64 ==> buf[k] == (randSrc + bufb)[k];
  }

  /** The per-message nonce: the first half of Sum512(randSrc ‖ bufb) read as an integer, with no
      reduction mod Order. */
  function Nonce(env: Env, randSrc: Bytes32, bufb: Bytes32): (r: nat)
    ensures r < Pow256(32)
  {
    FromBigEndian(env.sum512(randSrc + bufb)[..32])
  }

  // ---------------------------------------------------------------- challenge

  /** The five elements absorbed for H(R, A, M), in order, each in its canonical 32-byte encoding. */
  function ChallengeData(R: Point, A: Point, message: Element): seq<seq<bv8>>
  {
    [Encode(R.X), Encode(R.Y), Encode(A.X), Encode(A.Y), Encode(message)]
  }

  /** H(R, A, M): reset, write the five encodings, read the digest as an unsigned integer.
      A failing Write ends the computation with that Write's error. */
  function Challenge(h: Hasher, R: Point, A: Point, message: Element): (r: Result<nat>)
    ensures r.Ok? ==> r.value == FromBigEndian(h.sum(Concat(ChallengeData(R, A, message))))
    ensures r.Ok? <==> forall i :: 0 <= i < 5 ==>
                         h.write(Before([], ChallengeData(R, A, message), i), ChallengeData(R, A, message)[i]).None?
    ensures r.Err? ==> exists i :: 0 <= i < 5
                         && h.write(Before([], ChallengeData(R, A, message), i), ChallengeData(R, A, message)[i]) == Some(r.error)
                         && forall j :: 0 <= j < i ==>
                              h.write(Before([], ChallengeData(R, A, message), j), ChallengeData(R, A, message)[j]).None?
  {
    var data := ChallengeData(R, A, message);
    assert [] + Concat(data) == Concat(data);
    match Absorb(h, [], data)
    case Err(e) => Err(e)
    case Ok(stream) => Ok(FromBigEndian(h.sum(stream)))
  }

  // ---------------------------------------------------------------- signing

  function Sign(env: Env, message: Element, pub: PublicKey, priv: PrivateKey): (r: SignResult)
    ensures r.err.Some? ==> r.sig == EmptySignature
    ensures env.writeMessage(message).Err? ==> r.err == Some(env.writeMessage(message).error)
    ensures env.writeMessage(message).Ok? ==>
              var R := Mul(env.curve, Nonce(env, priv.randSrc, env.writeMessage(message).value));
              && (!env.curve.isOnCurve(R) ==> r.err == Some(NotOnCurve))
              && (env.curve.isOnCurve(R) && Challenge(pub.hFunc, R, pub.A, message).Err? ==>
                    r.err == Some(Challenge(pub.hFunc, R, pub.A, message).error))
    ensures r.err.None? ==>
              && env.writeMessage(message).Ok?
              && var nonce := Nonce(env, priv.randSrc, env.writeMessage(message).value);
                 && r.sig.R == Mul(env.curve, nonce)
                 && env.curve.isOnCurve(r.sig.R)
                 && Challenge(pub.hFunc, r.sig.R, pub.A, message).Ok?
                 && (env.curve.order <= env.curve.modulus ==>
                       && r.sig.S < env.curve.order
                       && r.sig.S == (nonce + Challenge(pub.hFunc, r.sig.R, pub.A, message).value * priv.scalar) % env.curve.order)
    ensures env.writeMessage(message).Ok? ==>
              var R := Mul(env.curve, Nonce(env, priv.randSrc, env.writeMessage(message).value));
              env.curve.isOnCurve(R) && Challenge(pub.hFunc, R, pub.A, message).Ok? ==> r.err.None?
  {
    var c := env.curve;
    match env.writeMessage(message)
    case Err(e) => SignResult(EmptySignature, Some(e))
    case Ok(bufb) =>
      var nonce := Nonce(env, priv.randSrc, bufb);
      var R := Mul(c, nonce);
      if !c.isOnCurve(R) then SignResult(EmptySignature, Some(NotOnCurve))
      else
        match Challenge(pub.hFunc, R, pub.A, message)
        case Err(e) => SignResult(EmptySignature, Some(e))
        case Ok(hram) =>
          SignResult(Signature(R, SetBigInt((hram * priv.scalar + nonce) % c.order, c.modulus)), None)
  }

  // ---------------------------------------------------------------- verification

  /** cofactor·(S·Base). */
  function Lhs(c: Curve, S: Element): Point
  {
    c.scalarMul(Mul(c, S), c.cofactor)
  }

  /** cofactor·(challenge·A + R). */
  function Rhs(c: Curve, R: Point, A: Point, hram: nat): Point
  {
    c.scalarMul(c.add(c.scalarMul(A, hram), R), c.cofactor)
  }

  function Verify(env: Env, sig: Signature, message: Element, pub: PublicKey): (r: VerifyResult)
    ensures r.valid ==> r.err.None?
    ensures !env.curve.isOnCurve(pub.A) ==> r == VerifyResult(false, Some(NotOnCurve))
    ensures env.curve.isOnCurve(pub.A) && Challenge(pub.hFunc, sig.R, pub.A, message).Err? ==>
              r == VerifyResult(false, Some(Challenge(pub.hFunc, sig.R, pub.A, message).error))
    ensures env.curve.isOnCurve(pub.A) && Challenge(pub.hFunc, sig.R, pub.A, message).Ok? &&
            (!env.curve.isOnCurve(Lhs(env.curve, sig.S)) ||
             !env.curve.isOnCurve(Rhs(env.curve, sig.R, pub.A, Challenge(pub.hFunc, sig.R, pub.A, message).value))) ==>
              r == VerifyResult(false, Some(NotOnCurve))
    ensures r.err.None? <==>
              && env.curve.isOnCurve(pub.A)
              && Challenge(pub.hFunc, sig.R, pub.A, message).Ok?
              && env.curve.isOnCurve(Lhs(env.curve, sig.S))
              && env.curve.isOnCurve(Rhs(env.curve, sig.R, pub.A, Challenge(pub.hFunc, sig.R, pub.A, message).value))
    ensures r.valid <==>
              && r.err.None?
              && Lhs(env.curve, sig.S) == Rhs(env.curve, sig.R, pub.A, Challenge(pub.hFunc, sig.R, pub.A, message).value)
  {
    var c := env.curve;
    if !c.isOnCurve(pub.A) then VerifyResult(false, Some(NotOnCurve))
    else
      match Challenge(pub.hFunc, sig.R, pub.A, message)
      case Err(e) => VerifyResult(false, Some(e))
      case Ok(hram) =>
        var lhs := Lhs(c, sig.S);
        if !c.isOnCurve(lhs) then VerifyResult(false, Some(NotOnCurve))
        else
          var rhs := Rhs(c, sig.R, pub.A, hram);
          if !c.isOnCurve(rhs) then VerifyResult(false, Some(NotOnCurve))
          else if lhs.X != rhs.X || lhs.Y != rhs.Y then VerifyResult(false, None)
          else VerifyResult(true, None)
  }
}
