/** The twisted Edwards group the protocol runs on, given only by the operations it calls
    (`ScalarMul`, `Add`, `IsOnCurve`) and the constants of `GetCurveParams` (Base, Order, Cofactor).
    The point formulas themselves belong to the curve library and are not part of this model. */
module Edwards {
  import opened Bytes
  import opened Field
  import ModArith

  /** A point by its affine coordinates, both field elements. */
  datatype Point = Point(X: Element, Y: Element)

  type Order = o: nat | 0 < o witness 1

  /** Curve parameters and point operations as supplied by the curve library.
      `cofactor` is the integer `Cofactor.ToBigInt` yields; `modulus` is that of `fr.Element`,
      the field the coordinates, messages and stored scalars live in. */
  datatype Curve = Curve(
    base: Point,
    order: Order,
    cofactor: nat,
    modulus: Modulus,
    add: (Point, Point) -> Point,
    scalarMul: (Point, nat) -> Point,
    isOnCurve: Point -> bool)

  /** k·Base. */
  function Mul(c: Curve, k: nat): Point
  {
    c.scalarMul(c.base, k)
  }

  /** a and b are congruent mod o. The periodicity law below is stated through this predicate so that
      it is applied only where a proof names the two scalars. */
  predicate SameClass(o: Order, a: nat, b: nat)
  {
    a % o == b % o
  }

  /** What the protocol needs of the library: multiples of Base depend only on the scalar mod Order,
      adding two of them adds the scalars, scaling one multiplies the scalars, and every one lies on
      the curve. The group order also fits below the field modulus. */
  ghost predicate GroupLaws(c: Curve)
  {
    && c.order <= c.modulus
    && (forall a: nat, b: nat {:trigger SameClass(c.order, a, b)} ::
          SameClass(c.order, a, b) ==> Mul(c, a) == Mul(c, b))
    && (forall a: nat, b: nat {:trigger c.add(Mul(c, a), Mul(c, b))} ::
          c.add(Mul(c, a), Mul(c, b)) == Mul(c, a + b))
    && (forall a: nat, b: nat {:trigger c.scalarMul(Mul(c, a), b)} ::
          c.scalarMul(Mul(c, a), b) == Mul(c, a * b))
    && (forall k: nat {:trigger Mul(c, k)} :: c.isOnCurve(Mul(c, k)))
  }

  /** A discrete-log instance of the interface: a point of the prime-order subgroup is stored as
      Point(k mod Order, 0); a non-zero Y marks a point off the curve, which stays off under
      the operations. */
  function DiscreteLog(order: Order, modulus: Modulus, cofactor: nat): (c: Curve)
    requires order <= modulus
    ensures c.order == order && c.modulus == modulus && c.cofactor == cofactor
  {
    Curve(
      Point(1 % order, 0),
      order,
      cofactor,
      modulus,
      (p: Point, q: Point) => Point((p.X + q.X) % order, if p.Y == 0 && q.Y == 0 then 0 else 1),
      (p: Point, k: nat) => Point((p.X * k) % order, p.Y),
      (p: Point) => p.Y == 0 && p.X < order)
  }

  lemma DiscreteLogMul(order: Order, modulus: Modulus, cofactor: nat, k: nat)
    requires order <= modulus
    ensures Mul(DiscreteLog(order, modulus, cofactor), k) == Point(k % order, 0)
  {
    ModArith.ModMul(1, k, order);
  }

  /** The interface is consistent: the discrete-log instance satisfies every law. */
  lemma DiscreteLogLaws(order: Order, modulus: Modulus, cofactor: nat)
    requires order <= modulus
    ensures GroupLaws(DiscreteLog(order, modulus, cofactor))
  {
    var c := DiscreteLog(order, modulus, cofactor);
    forall a: nat, b: nat
      ensures SameClass(order, a, b) ==> Mul(c, a) == Mul(c, b)
    {
      DiscreteLogMul(order, modulus, cofactor, a);
      DiscreteLogMul(order, modulus, cofactor, b);
    }
    forall a: nat, b: nat
      ensures c.add(Mul(c, a), Mul(c, b)) == Mul(c, a + b)
    {
      DiscreteLogMul(order, modulus, cofactor, a);
      DiscreteLogMul(order, modulus, cofactor, b);
      DiscreteLogMul(order, modulus, cofactor, a + b);
      ModArith.ModAdd(a, b, order);
    }
    forall a: nat, b: nat
      ensures c.scalarMul(Mul(c, a), b) == Mul(c, a * b)
    {
      DiscreteLogMul(order, modulus, cofactor, a);
      DiscreteLogMul(order, modulus, cofactor, a * b);
      ModArith.ModMul(a, b, order);
    }
    forall k: nat
      ensures c.isOnCurve(Mul(c, k))
    {
      DiscreteLogMul(order, modulus, cofactor, k);
    }
  }
}
