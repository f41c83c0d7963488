/** The scalar field element `fr.Element` of the pairing-friendly curve, seen through its integer value. */
module Field {
  import opened Bytes
  import ModArith

  /** The value of a field element: four 64-bit limbs, so below 2^256. The model keeps the
      canonical (non-Montgomery) integer; the Montgomery limbs of the library are not modelled. */
  type Element = x: nat | x < Pow256(32)

  /** The modulus of the field, fixed by the library; it fits in four limbs. */
  type Modulus = q: nat | 0 < q <= Pow256(32) witness 1

  /** `SetBigInt`: the field element congruent to x. Values already below q are kept as they are. */
  function SetBigInt(x: nat, q: Modulus): (e: Element)
    ensures e < q
    ensures x < q ==> e == x
    ensures (x - e) % q == 0
  {
    ModArith.ModDifference(x, q);
    assert x < q ==> x % q == x by {
      if x < q {
        ModArith.ModSmall(x, q);
      }
    }
    x % q
  }

  /** `Bytes()`: the canonical 32-byte big-endian encoding of an element; reading it back gives the
      element, so distinct elements never share an encoding. */
  function Encode(e: Element): (r: Bytes32)
    ensures FromBigEndian(r) == e
  {
    ToBigEndian(e, 32)
  }
}
