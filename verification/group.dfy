/** The SM2 curve group, seen through discrete logarithms.

    The group has prime order Q and is cyclic, so fixing a generator B identifies every
    point P with the unique scalar d such that P == B·d. Under that identification point
    addition is field addition, the scalar multiple P·s is the field product, and the
    identity point is 0. Equality of points is equality of their logarithms. */
module Group {
  import opened Field

  /** A curve point, represented by its discrete logarithm. */
  type Point = Scalar

  /** `ProjectivePoint::IDENTITY` */
  const Identity: Point := 0

  /** Point addition `P + R`. */
  function PointAdd(p: Point, r: Point): Point {
    Add(p, r)
  }

  /** Scalar multiplication `P * s`. */
  function ScalarMul(p: Point, s: Scalar): Point {
    Mul(p, s)
  }

  /** Multiplying a non-identity point is injective in the scalar: P·s == P·s' iff s == s'.
      This is what makes a single commitment binding. */
  lemma ScalarMulInjective(p: Point, s: Scalar, s': Scalar)
    requires p != Identity
    ensures ScalarMul(p, s) == ScalarMul(p, s') <==> s == s'
  {
    if ScalarMul(p, s) == ScalarMul(p, s') {
      MulDistribSub(p, s, s');
      SubSelf(Mul(p, s));
      NoZeroDivisors(p, Sub(s, s'));
      SubZeroIff(s, s');
    }
  }

  /** Adding a non-identity point changes any point. */
  lemma PointAddNonIdentity(p: Point, r: Point)
    requires r != Identity
    ensures PointAdd(p, r) != p
  {
    if PointAdd(p, r) == p {
      AddSubInverse(p, r, p);
      SubSelf(p);
    }
  }
}
