/** The scalar field of the SM2 group: integers modulo the (prime) group order.

    The concrete 256-bit order is not fixed here: `Q` is an arbitrary prime, so every
    result below holds for the SM2 order in particular. Elements are kept in the
    canonical range [0, Q). */
module Field {

  predicate Divides(d: int, n: int) {
    d != 0 && n % d == 0
  }

  ghost predicate IsPrime(n: int) {
    n >= 2 && forall d :: 2 <= d < n ==> !Divides(d, n)
  }

  type Prime = q: int | IsPrime(q) witness 2

  /** The order of the group, which is the size of the scalar field. */
  const Q: Prime

  type Scalar = a: int | 0 <= a < Q

  /* ---------------- field operations ---------------- */

  function Add(a: Scalar, b: Scalar): Scalar {
    (a + b) % Q
  }

  function Sub(a: Scalar, b: Scalar): Scalar {
    (a - b) % Q
  }

  function Neg(a: Scalar): Scalar {
    (0 - a as int) % Q
  }

  function Mul(a: Scalar, b: Scalar): Scalar {
    (a * b) % Q
  }

  /** `Scalar::from(n as u64)`: the integer n reduced into the field. */
  function FromU64(n: nat): (r: Scalar)
    ensures n < Q ==> r == n
    ensures r == 0 <==> Divides(Q, n)
  {
    ModSmall(n % Q);
    n % Q
  }

  /** `x.pow(&[i, 0, 0, 0])`: x raised to the small exponent i, with x^0 == 1. */
  function Pow(x: Scalar, i: nat): Scalar {
    if i == 0 then 1 else Mul(Pow(x, i - 1), x)
  }

  /* ---------------- extended Euclid and inversion ---------------- */

  datatype Bezout = Bezout(g: int, s: int, t: int)

  /** Extended Euclid: a*s + b*t == g, where g is the greatest common divisor. */
  function Egcd(a: nat, b: nat): (r: Bezout)
    ensures a * r.s + b * r.t == r.g
    ensures r.g >= 0
    decreases b
  {
    if b == 0 then Bezout(a, 1, 0)
    else
      var r := Egcd(b, a % b);
      BezoutStep(a, b, a / b, a % b, r.s, r.t, r.g);
      Bezout(r.g, r.t, r.s - (a / b) * r.t)
  }

  /** One step of extended Euclid: from a == q·b + rem and b·s + rem·t == g,
      a·t + b·(s − q·t) == g. */
  lemma BezoutStep(a: int, b: int, q: int, rem: int, s: int, t: int, g: int)
    requires a == q * b + rem && b * s + rem * t == g
    ensures a * t + b * (s - q * t) == g
  {
    calc {
      a * t + b * (s - q * t);
      a * t + b * s - b * q * t;
      (q * b + rem) * t + b * s - b * q * t;
      b * s + rem * t;
    }
  }

  /** The gcd found by Egcd divides both inputs: returns the two cofactors. */
  lemma {:induction false} EgcdDivides(a: nat, b: nat) returns (u: int, v: int)
    ensures a == u * Egcd(a, b).g && b == v * Egcd(a, b).g
    decreases b
  {
    if b == 0 {
      u, v := 1, 0;
    } else {
      var g := Egcd(b, a % b).g;
      assert Egcd(a, b).g == g;
      var u', v' := EgcdDivides(b, a % b);
      DivisionIdentity(a, b);
      u := QuotientStep(a, b, a / b, a % b, u', v', g);
      v := u';
    }
  }

  lemma DivisionIdentity(a: nat, b: nat)
    requires b != 0
    ensures a == (a / b) * b + a % b
  {
  }

  /** From a == m·b + rem, b == u'·g and rem == v'·g: a == (m·u' + v')·g. */
  lemma QuotientStep(a: int, b: int, m: int, rem: int, u': int, v': int, g: int) returns (u: int)
    requires a == m * b + rem && b == u' * g && rem == v' * g
    ensures u == m * u' + v' && a == u * g
  {
    u := m * u' + v';
    MulAddFactor(m, u', v', g);
  }

  lemma MulAddFactor(m: int, u: int, v: int, g: int)
    ensures (m * u + v) * g == m * (u * g) + v * g
  {
  }

  lemma GcdWithPrime(a: nat)
    requires 0 < a < Q
    ensures Egcd(a, Q).g == 1
  {
    var g := Egcd(a, Q).g;
    var u, v := EgcdDivides(a, Q);
    MulZeroRight(u);
    assert g >= 1;
    MulSign(u, g);
    assert u >= 1;
    assert g <= a;
    DivModUnique(v * g, g, v, 0);
    assert !Divides(g, Q) || g == 1 || g == Q;
  }

  lemma MulZeroRight(u: int)
    ensures u * 0 == 0
  {
  }

  lemma MulMonotone(u: int, g: int)
    requires u >= 1 && g >= 0
    ensures u * g >= g
  {
    assert u * g == (u - 1) * g + g;
  }

  /** The sign of a product with a nonnegative factor. */
  lemma MulSign(m: int, d: int)
    requires d >= 0
    ensures m >= 1 ==> m * d >= d
    ensures m <= -1 ==> m * d <= -d
    ensures m <= 0 ==> m * d <= 0
  {
    if m >= 1 {
      MulMonotone(m, d);
    }
    if m <= -1 {
      MulMonotone(-m, d);
      NegMul(m, d);
    }
    if m == 0 {
      MulZeroRight(d);
    }
  }

  lemma NegMul(m: int, d: int)
    ensures (-m) * d == -(m * d)
  {
  }

  /** Euclidean division is unique. */
  lemma DivModUnique(x: int, d: int, k: int, r: int)
    requires d >= 1 && x == k * d + r && 0 <= r < d
    ensures x % d == r
  {
    var k' := x / d;
    var r' := x % d;
    assert x == k' * d + r';
    assert (k - k') * d == r' - r;
    MulSign(k - k', d);
  }

  /** The multiplicative inverse, defined for every nonzero scalar. */
  function Inv(a: Scalar): (r: Scalar)
    requires a != 0
    ensures Mul(a, r) == 1
    ensures r != 0
  {
    var b := Egcd(a, Q);
    GcdWithPrime(a);
    var r := b.s % Q;
    assert Mul(a, r) == 1 by {
      calc {
        Mul(a, r);
        (a * (b.s % Q)) % Q;
        { ModOfProd(a, b.s); ModSmall(a); }
        (a * b.s) % Q;
        (1 + (-b.t) * Q) % Q;
        { ModAddMultiple(1, -b.t); }
        1 % Q;
        { ModSmall(1); }
        1;
      }
    }
    r
  }

  /** `invert()` of the curve library: a value exactly when the input is nonzero. */
  function Invert(a: Scalar): (r: Option<Scalar>)
    ensures r.Some? <==> a != 0
    ensures r.Some? ==> Mul(a, r.value) == 1
  {
    if a == 0 then None else Some(Inv(a))
  }

  datatype Option<T> = None | Some(value: T)

  /* ---------------- arithmetic modulo Q ---------------- */

  lemma ModUnique(x: int, k: int, r: int)
    requires x == k * Q + r && 0 <= r < Q
    ensures x % Q == r
  {
    DivModUnique(x, Q, k, r);
  }

  lemma ModSmall(r: int)
    requires 0 <= r < Q
    ensures r % Q == r
  {
    ModUnique(r, 0, r);
  }

  lemma ModAddMultiple(x: int, k: int)
    ensures (x + k * Q) % Q == x % Q
  {
    var k' := x / Q;
    assert x == k' * Q + x % Q;
    assert x + k * Q == (k' + k) * Q + x % Q;
    ModUnique(x + k * Q, k' + k, x % Q);
  }

  lemma ModOfSum(x: int, y: int)
    ensures (x + y) % Q == (x % Q + y % Q) % Q
  {
    var kx, ky := x / Q, y / Q;
    assert x + y == (x % Q + y % Q) + (kx + ky) * Q;
    ModAddMultiple(x % Q + y % Q, kx + ky);
  }

  lemma ModOfDiff(x: int, y: int)
    ensures (x - y) % Q == (x % Q - y % Q) % Q
  {
    var kx, ky := x / Q, y / Q;
    assert x - y == (x % Q - y % Q) + (kx - ky) * Q;
    ModAddMultiple(x % Q - y % Q, kx - ky);
  }

  lemma ModOfProd(x: int, y: int)
    ensures (x * y) % Q == ((x % Q) * (y % Q)) % Q
  {
    var kx, ky := x / Q, y / Q;
    var rx, ry := x % Q, y % Q;
    assert x == kx * Q + rx;
    assert y == ky * Q + ry;
    assert x * y == rx * ry + (kx * ky * Q + kx * ry + rx * ky) * Q;
    ModAddMultiple(rx * ry, kx * ky * Q + kx * ry + rx * ky);
  }

  /* ---------------- field laws ---------------- */

  lemma AddComm(a: Scalar, b: Scalar)
    ensures Add(a, b) == Add(b, a)
  {
  }

  lemma AddAssoc(a: Scalar, b: Scalar, c: Scalar)
    ensures Add(Add(a, b), c) == Add(a, Add(b, c))
  {
    ModSmall(a);
    ModSmall(c);
    ModOfSum(a + b, c);
    ModOfSum(a, b + c);
  }

  lemma AddZero(a: Scalar)
    ensures Add(a, 0) == a && Add(0, a) == a
  {
    ModSmall(a);
  }

  lemma MulComm(a: Scalar, b: Scalar)
    ensures Mul(a, b) == Mul(b, a)
  {
  }

  lemma MulAssoc(a: Scalar, b: Scalar, c: Scalar)
    ensures Mul(Mul(a, b), c) == Mul(a, Mul(b, c))
  {
    var x, y := a * b, b * c;
    ModSmall(a);
    ModSmall(c);
    ModOfProd(x, c);
    ModOfProd(a, y);
    assert x * c == a * y;
  }

  lemma MulOne(a: Scalar)
    ensures Mul(a, 1) == a && Mul(1, a) == a
  {
    ModSmall(a);
  }

  lemma MulZero(a: Scalar)
    ensures Mul(a, 0) == 0 && Mul(0, a) == 0
  {
    ModSmall(0);
  }

  lemma Distrib(a: Scalar, b: Scalar, c: Scalar)
    ensures Mul(a, Add(b, c)) == Add(Mul(a, b), Mul(a, c))
  {
    var x, y := a * b, a * c;
    calc {
      Mul(a, Add(b, c));
      (a * ((b + c) % Q)) % Q;
      { ModSmall(a); ModOfProd(a, b + c); }
      (a * (b + c)) % Q;
      { MulDistribInt(a, b, c); }
      (x + y) % Q;
      { ModOfSum(x, y); }
      Add(Mul(a, b), Mul(a, c));
    }
  }

  lemma MulDistribInt(a: int, b: int, c: int)
    ensures a * (b + c) == a * b + a * c
  {
  }

  lemma DistribRight(a: Scalar, b: Scalar, c: Scalar)
    ensures Mul(Add(a, b), c) == Add(Mul(a, c), Mul(b, c))
  {
    MulComm(Add(a, b), c);
    Distrib(c, a, b);
    MulComm(c, a);
    MulComm(c, b);
  }

  lemma SubSelf(a: Scalar)
    ensures Sub(a, a) == 0
  {
    ModSmall(0);
  }

  lemma SubZero(a: Scalar)
    ensures Sub(a, 0) == a
  {
    ModSmall(a);
  }

  lemma SubZeroIff(a: Scalar, b: Scalar)
    ensures Sub(a, b) == 0 <==> a == b
  {
    if a != b {
      if a > b {
        ModSmall(a - b);
      } else {
        ModAddMultiple(a - b, 1);
        ModSmall(a - b + Q);
      }
    } else {
      SubSelf(a);
    }
  }

  lemma SubAntiSymm(a: Scalar, b: Scalar)
    ensures Sub(a, b) == Neg(Sub(b, a))
  {
    ModOfDiff(0, b - a);
    ModSmall(0);
  }

  lemma NegIsSubFromZero(a: Scalar)
    ensures Neg(a) == Sub(0, a)
  {
  }

  lemma MulNeg(a: Scalar, b: Scalar)
    ensures Mul(Neg(a), b) == Neg(Mul(a, b))
  {
    var x := a * b;
    calc {
      Mul(Neg(a), b);
      ((-(a as int)) % Q * b) % Q;
      { ModSmall(b); ModOfProd(-(a as int), b); }
      ((-(a as int)) * b) % Q;
      { assert (-(a as int)) * b == 0 - x; }
      (0 - x) % Q;
      { ModOfDiff(0, x); ModSmall(0); }
      (0 - x % Q) % Q;
      Neg(Mul(a, b));
    }
  }

  lemma AddSubCancel(a: Scalar, b: Scalar)
    ensures Add(Sub(a, b), b) == a
  {
    ModSmall(b);
    ModOfSum(a - b, b);
    ModSmall(a);
  }

  lemma AddSubInverse(a: Scalar, b: Scalar, c: Scalar)
    requires Add(a, b) == c
    ensures Sub(c, a) == b
  {
    ModSmall(a);
    ModOfDiff(a + b, a);
    ModSmall(b);
  }

  lemma MulDistribSub(a: Scalar, b: Scalar, c: Scalar)
    ensures Mul(a, Sub(b, c)) == Sub(Mul(a, b), Mul(a, c))
  {
    var x, y := a * b, a * c;
    calc {
      Mul(a, Sub(b, c));
      (a * ((b - c) % Q)) % Q;
      { ModSmall(a); ModOfProd(a, b - c); }
      (a * (b - c)) % Q;
      { assert a * (b - c) == x - y; }
      (x - y) % Q;
      { ModOfDiff(x, y); }
      (x % Q - y % Q) % Q;
      Sub(Mul(a, b), Mul(a, c));
    }
  }

  lemma NoZeroDivisors(a: Scalar, b: Scalar)
    ensures Mul(a, b) == 0 <==> a == 0 || b == 0
  {
    if a != 0 && Mul(a, b) == 0 {
      var ia := Inv(a);
      calc {
        b;
        { MulOne(b); }
        Mul(1, b);
        { MulComm(a, ia); }
        Mul(Mul(ia, a), b);
        { MulAssoc(ia, a, b); }
        Mul(ia, Mul(a, b));
        { MulZero(ia); }
        0;
      }
    }
    MulZero(a);
    MulZero(b);
  }

  /** An inverse is unique: anything that multiplies a to 1 is Inv(a). */
  lemma InvUnique(a: Scalar, b: Scalar)
    requires Mul(a, b) == 1
    ensures a != 0 && b == Inv(a)
  {
    MulZero(b);
    var ia := Inv(a);
    calc {
      b;
      { MulOne(b); }
      Mul(1, b);
      { MulComm(a, ia); }
      Mul(Mul(ia, a), b);
      { MulAssoc(ia, a, b); }
      Mul(ia, Mul(a, b));
      { MulOne(ia); }
      ia;
    }
  }

  lemma InvOfProduct(a: Scalar, b: Scalar)
    requires a != 0 && b != 0
    ensures Mul(a, b) != 0
    ensures Inv(Mul(a, b)) == Mul(Inv(a), Inv(b))
  {
    NoZeroDivisors(a, b);
    var ia, ib := Inv(a), Inv(b);
    calc {
      Mul(Mul(a, b), Mul(ia, ib));
      { MulAssoc(a, b, Mul(ia, ib)); }
      Mul(a, Mul(b, Mul(ia, ib)));
      { MulAssoc(b, ia, ib); MulComm(b, ia); MulAssoc(ia, b, ib); }
      Mul(a, Mul(ia, Mul(b, ib)));
      { MulOne(ia); }
      Mul(a, ia);
    }
    InvUnique(Mul(a, b), Mul(ia, ib));
  }
}
