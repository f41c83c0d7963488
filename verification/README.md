# EdDSA over the bn256 twisted Edwards curve — a Dafny model

This project models the EdDSA protocol layer of gnark's `crypto/signature/eddsa/bn256` package. That
layer has three operations:

- `New` derives a key pair from a 32-byte seed. It expands the seed with Blake2b-512, keeps the upper
  half as the nonce seed `randSrc`, prunes the lower half, reverses it and reads it as the scalar
  integer `tmp`, and sets `A = tmp·Base`.
- `Sign` signs a message that is a scalar-field element. The nonce is derived deterministically from
  `randSrc ‖ binary.Write(message)`. It then computes `R = nonce·Base` and the challenge
  `H(R.X, R.Y, A.X, A.Y, M)`, and returns `S = (nonce + challenge·scalar) mod Order`.
- `Verify` checks that A is on the curve, recomputes the challenge from `sig.R`, and compares
  `cofactor·(S·Base)` with `cofactor·(challenge·A + R)`.

Go's `(value, error)` results become `SignResult` / `VerifyResult`. They carry an `Option<Error>`, in
which `None` is a nil error.

External collaborators are parameters, not definitions:

- **The curve library** is `Edwards.Curve`, a record of Base, Order, Cofactor, the `fr` modulus,
  `Add`, `ScalarMul` and `IsOnCurve`. Where a proof needs the group, the requirement `GroupLaws`
  supplies it: multiples of Base depend only on the scalar mod Order, adding multiples adds the
  scalars, scaling a multiple multiplies the scalars, and multiples lie on the curve.
  `Edwards.DiscreteLogLaws` proves that a discrete-log instance (a point stored as its scalar mod
  Order) satisfies every law, so the requirement can be met.
- **`blake2b.Sum512` and `binary.Write`** are the fields `sum512` and `writeMessage` of `EdDSA.Env`.
- **The injected `hash.Hash`** is `Hashing.Hasher`. Its `sum` field is the digest of everything written
  since the last Reset. Its `write` field gives the error a Write returns at a given point of the
  stream.

`fr.Element` values are modelled by their canonical integer, which is below 2^256. `SetBigInt`
reduces modulo the `fr` modulus, which is not the curve Order. `Encode` is the 32-byte big-endian
`Bytes()`.

Four points where the code departs from the protocol as usually described:

- The reversal loop of `New` swaps 33 bytes, not 32.
- The nonce buffer holds the raw limbs that `binary.Write` emits, not a canonical encoding of the
  message.
- The stored secret scalar lives in an `fr.Element`, so it is reduced modulo the field modulus and
  not modulo the group order.
- The cofactor reaches `ScalarMul` through `Cofactor.ToBigInt`, a conversion that depends on the
  element's internal representation. The model treats the resulting integer as opaque, and the round
  trip holds for any value of it.

The model follows the code in all four.

The package's records are datatypes of module `EdDSA`:

- `Signature(R, S)` is the `Signature` struct (eddsa.go:35-38).
- `PublicKey(A, hFunc)` is `PublicKey` (eddsa.go:42-45).
- `PrivateKey(randSrc, scalar)` is `PrivateKey` (eddsa.go:48-51).
- `NotOnCurve` of `Outcomes.Error` is `errNotOnCurve` (eddsa.go:31).

## Model

| member | source | states |
|---|---|---|
| `Bytes.FromBigEndian` | crypto/signature/eddsa/bn256/eddsa.go:84 | `SetBytes` reads bytes as an unsigned big-endian integer below 256^len |
| `Bytes.ToBigEndian` | crypto/signature/eddsa/bn256/eddsa.go:139 | the fixed-width big-endian encoding reads back to the value it encodes |
| `Bytes.FromBigEndianBytes` | crypto/signature/eddsa/bn256/eddsa.go:84 | the first byte of a big-endian number is its top digit, the last byte its value mod 256 |
| `Field.SetBigInt` | crypto/signature/eddsa/bn256/eddsa.go:85 | the stored element is below the field modulus, congruent to its argument, and equal to it when already reduced |
| `Field.Encode` | crypto/signature/eddsa/bn256/eddsa.go:139 | `Bytes()` is the canonical 32-byte encoding, so distinct elements get distinct encodings |
| `Hashing.Absorb` | crypto/signature/eddsa/bn256/eddsa.go:137-143 | the writes succeed iff none fails; on success the stream is the chunks in order; otherwise the first failing Write's own error is returned |
| `EdDSA.Prune` | crypto/signature/eddsa/bn256/eddsa.go:75-77 | byte 0 has its low 3 bits cleared, byte 31 has bit 7 cleared and bit 6 set, the remaining bits and every other byte are unchanged |
| `EdDSA.ReverseHead` | crypto/signature/eddsa/bn256/eddsa.go:81-83 | the swap loop leaves bytes 0..32 mirrored (h[i] and h[32-i] exchanged, h[16] fixed) and bytes 33..63 untouched |
| `EdDSA.ScalarInt` | crypto/signature/eddsa/bn256/eddsa.go:79-84 | tmp, read from the first 32 bytes of the swapped buffer, is the big-endian integer of the pruned digest bytes h[32], h[31], …, h[1], below 2^256 |
| `KeyDerivation.ScalarLayout` | crypto/signature/eddsa/bn256/eddsa.go:81-84 | in tmp, the top byte is h[32], the second byte is the clamped h[31] (so in [64, 128)) and the low byte is h[1]; the clamped h[0] ends at position 32, outside what SetBytes reads |
| `EdDSA.New` | crypto/signature/eddsa/bn256/eddsa.go:59-91 | randSrc is digest bytes 32..63, copied before pruning; A = tmp·Base; the hash handle is passed through; the stored scalar is below the field modulus, congruent to tmp mod it, and equal to tmp when tmp is below it |
| `KeyDerivation.SeedByteShared` | crypto/signature/eddsa/bn256/eddsa.go:69-87 | the first byte of the nonce seed `New` keeps is the top byte of the integer tmp behind A, so the two halves of the digest are not independent |
| `EdDSA.NonceBuffer` | crypto/signature/eddsa/bn256/eddsa.go:105-117 | the two copy loops build exactly randSrc followed by the 32 bytes `binary.Write` emitted |
| `EdDSA.Nonce` | crypto/signature/eddsa/bn256/eddsa.go:120-121 | the nonce is the first half of Sum512 of that buffer read as an integer below 2^256, with no reduction mod Order |
| `EdDSA.Challenge` | crypto/signature/eddsa/bn256/eddsa.go:129-145 | the challenge is the digest of the five encodings read as an integer; it fails iff some Write fails, and then with the error of the first failing Write |
| `ChallengeStream.Layout` | crypto/signature/eddsa/bn256/eddsa.go:130-143 | the absorbed stream is the 160 bytes R.X ‖ R.Y ‖ A.X ‖ A.Y ‖ M |
| `ChallengeStream.Binding` | crypto/signature/eddsa/bn256/eddsa.go:171-184 | equal streams mean equal R, A and message, so Sign and Verify hash the same thing only for the same inputs |
| `EdDSA.Sign` | crypto/signature/eddsa/bn256/eddsa.go:96-157 | an error from `binary.Write` or a Write is returned unchanged with the empty signature; an off-curve R gives `errNotOnCurve`; the error is nil exactly when `binary.Write`, the on-curve test of R and all five Writes succeed; then R = nonce·Base on the curve and S = (nonce + challenge·scalar) mod Order < Order |
| `EdDSA.Verify` | crypto/signature/eddsa/bn256/eddsa.go:161-215 | an off-curve A gives (false, errNotOnCurve) whatever the hash does; a Write error is passed on; an off-curve lhs or rhs gives (false, errNotOnCurve); no error iff A, lhs and rhs are on the curve; acceptance iff additionally lhs = rhs; never (true, error) |
| `RoundTrip.LhsMultiple` | crypto/signature/eddsa/bn256/eddsa.go:189-195 | in a lawful group, lhs = cofactor·(S·Base) is the multiple (S·cofactor)·Base |
| `RoundTrip.RhsMultiple` | crypto/signature/eddsa/bn256/eddsa.go:201-205 | in a lawful group, with A = t·Base and R = nonce·Base, rhs = cofactor·(challenge·A + R) is the multiple ((t·challenge + nonce)·cofactor)·Base |
| `RoundTrip.SigningEquation` | crypto/signature/eddsa/bn256/eddsa.go:149-153 | with scalar ≡ t (mod Order), cofactor·S ≡ cofactor·(t·challenge + nonce) (mod Order) |
| `RoundTrip.EquationHolds` | crypto/signature/eddsa/bn256/eddsa.go:189-208 | for A = t·Base, R = nonce·Base and S from the signing equation, lhs and rhs are the same point, on the curve |
| `RoundTrip.SignThenVerify` | crypto/signature/eddsa/bn256/eddsa.go:96-215 | for A = t·Base and a scalar congruent to t mod Order, every signature Sign returns without error is accepted by Verify with a nil error |
| `RoundTrip.NewSignVerify` | crypto/signature/eddsa/bn256/eddsa.go:84-87 | keys from `New` sign verifiably whenever tmp reduced mod the field modulus is still congruent to tmp mod Order |
| `Clamping.ScalarIgnoresClampedByte` | crypto/signature/eddsa/bn256/eddsa.go:75-84 | digests that differ only in byte 0 give the same tmp: the pruning of byte 0 has no effect |
| `Clamping.ClampingLostExample` | crypto/signature/eddsa/bn256/eddsa.go:79-84 | a digest whose tmp is 7 mod 8, where pruning is meant to make it a multiple of 8 |
| `Clamping.ClampedScalar` | crypto/signature/eddsa/bn256/eddsa.go:73-84 | the little-endian reading of the pruned 32 bytes is a multiple of 8 in [2^254, 2^255) |
| `ScalarReduction.ReducedScalarBreaksRoundTrip` | crypto/signature/eddsa/bn256/eddsa.go:84-87 | in a lawful group with a field modulus above the order, a key from `New` signs and Verify answers (false, nil) |
| `ScalarReduction.RoundTripCorrected` | crypto/signature/eddsa/bn256/eddsa.go:84-87 | with the scalar kept congruent to tmp mod Order, every signature verifies, for every seed |

## Left out

- Twisted Edwards point formulas and the constants of `GetCurveParams` (eddsa.go:54-56). They come from
  the curve library, which is not part of this model. They are replaced by the `Curve` record and
  `GroupLaws`.
- Montgomery representation inside `fr.Element` (`ToMont`, `FromMont`, raw limbs). The `fr` package is
  not part of this model. An element is its
  canonical integer. `SetBigInt` followed by `FromMont` and read back by `ToBigInt` is modelled as
  reduction mod the field modulus, which is the integer those calls leave in the limbs.
- The byte layout `binary.Write` gives the message's limbs. It is the opaque `Env.writeMessage`.
- Blake2b-512 and the injected hash function's digest. Both are uninterpreted function parameters.
- The sharing and in-place mutation of `PublicKey.HFunc`, and any concurrent use of one key. Each
  call sees the hasher as a pure value.
- Security properties: unforgeability, tamper sensitivity, small-subgroup resistance. These are
  computational claims that this algebraic model cannot express.
- Determinism of `New` and `Sign` needs no lemma. Every operation is a pure function of its inputs,
  and no randomness or clock is a parameter.
- RoundTrip.NewSignVerify: requires `(tmp mod q) mod Order == tmp mod Order`, where q is the field
  modulus. Without that condition the round trip fails as written (see Findings).
- EdDSA.Sign: states `S = (nonce + challenge·scalar) mod Order` and `S < Order` only when Order does
  not exceed the field modulus. Otherwise `SetBigInt` would reduce S a second time.

## Findings

| source | as written | input that shows it | evidently intended | confidence | as-written member | corrected member |
|---|---|---|---|---|---|---|
| crypto/signature/eddsa/bn256/eddsa.go:81-84 | the reversal loop starts at j = 32, so `h[:32]` becomes h[32], h[31], …, h[1]: the clamped h[0] is dropped, and nonce-seed byte h[32] becomes the scalar's top byte | a digest whose byte 1 is 7 and whose other bytes are 0: tmp ≡ 7 (mod 8) | reverse exactly bytes 0..31, so tmp is the little-endian reading of the pruned half: a multiple of 8 in [2^254, 2^255) | high, not executed | `Clamping.ClampingLostExample` | `Clamping.ClampedScalar` |
| crypto/signature/eddsa/bn256/eddsa.go:84-87 | `priv.scalar` is tmp stored in an `fr.Element`, so it is tmp mod the field modulus, while `A = tmp·Base` uses tmp itself; the two can disagree mod Order once tmp reaches the modulus | a discrete-log group of order 5 over a field of modulus 17, with constant hashes and the zero seed: tmp = 64·256^30, scalar 13 ≡ 3 but tmp ≡ 4 (mod 5), so Verify returns (false, nil) | the signing scalar is congruent to tmp mod Order, so every signature verifies | medium (relies on `SetBigInt` reducing mod the field modulus), not executed | `ScalarReduction.ReducedScalarBreaksRoundTrip` | `ScalarReduction.RoundTripCorrected` |
