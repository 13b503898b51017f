/** Polynomials over the scalar field, coefficients listed from the constant term up,
    with Horner evaluation and the Feldman and Pedersen coefficient commitments. */
module Polynomials {
  import opened Field
  import opened Group

  /** A polynomial c_0 + c_1·x + ... + c_d·x^d, stored as [c_0, ..., c_d]. */
  datatype Polynomial = Polynomial(coefficients: seq<Scalar>)

  /** The output of a Pedersen commitment: one point per coefficient and the
      polynomial whose coefficients are the blinding factors. */
  datatype PedersenCommitment = PedersenCommitment(commitments: seq<Point>, blinding: Polynomial)

  /** `Polynomial::new`: the constant term is `secret`, followed by `degree` random
      coefficients, which are the first `degree` draws of the random source. */
  function New(secret: Scalar, degree: nat, draws: nat -> Scalar): (p: Polynomial)
    ensures |p.coefficients| == degree + 1
    ensures p.coefficients[0] == secret
    ensures forall i :: 1 <= i <= degree ==> p.coefficients[i] == draws(i - 1)
  {
    Polynomial([secret] + seq(degree, i requires 0 <= i => draws(i)))
  }

  /** The reverse fold `acc * x + c` from ZERO over the coefficients, highest first. */
  function Horner(cs: seq<Scalar>, x: Scalar): Scalar {
    if |cs| == 0 then 0 else Add(Mul(Horner(cs[1..], x), x), cs[0])
  }

  /** `Polynomial::evaluate`: the value Σ c_i·x^i of the polynomial at x. */
  function Evaluate(p: Polynomial, x: Scalar): (v: Scalar)
    ensures v == PowerSum(p.coefficients, x)
  {
    HornerIsPowerSum(p.coefficients, x);
    Horner(p.coefficients, x)
  }

  /** The textbook value c_0·x^0 + c_1·x^1 + ..., summed from the lowest index. */
  function PowerSum(cs: seq<Scalar>, x: Scalar): Scalar {
    if |cs| == 0 then 0
    else Add(PowerSum(cs[..|cs| - 1], x), Mul(cs[|cs| - 1], Pow(x, |cs| - 1)))
  }

  /** C_0·x^0 + C_1·x^1 + ... over a commitment vector, starting from the identity point:
      the accumulation loop of both share verifiers. */
  function CommitmentAt(cs: seq<Point>, x: Scalar): Point {
    if |cs| == 0 then Identity
    else PointAdd(CommitmentAt(cs[..|cs| - 1], x), ScalarMul(cs[|cs| - 1], Pow(x, |cs| - 1)))
  }

  /** `Polynomial::feldman_commit`: C_i = g·c_i, one point per coefficient, in order. */
  function FeldmanCommit(p: Polynomial, g: Point): (cs: seq<Point>)
    ensures |cs| == |p.coefficients|
    ensures forall i :: 0 <= i < |cs| ==> cs[i] == ScalarMul(g, p.coefficients[i])
  {
    seq(|p.coefficients|, i requires 0 <= i < |p.coefficients| => ScalarMul(g, p.coefficients[i]))
  }

  /** `Polynomial::pedersen_commit`: for the i-th coefficient the i-th draw r_i is taken
      as blinding factor and C_i = g·c_i + h·r_i; the blinding factors, in order, form
      the returned blinding polynomial. */
  function PedersenCommit(p: Polynomial, g: Point, h: Point, draws: nat -> Scalar): (r: PedersenCommitment)
    ensures |r.commitments| == |p.coefficients| == |r.blinding.coefficients|
    ensures forall i :: 0 <= i < |p.coefficients| ==> r.blinding.coefficients[i] == draws(i)
    ensures forall i :: 0 <= i < |p.coefficients| ==>
      r.commitments[i] == PointAdd(ScalarMul(g, p.coefficients[i]), ScalarMul(h, r.blinding.coefficients[i]))
  {
    var n := |p.coefficients|;
    var blinding := seq(n, i requires 0 <= i => draws(i));
    var commitments := seq(n, i requires 0 <= i < n => PointAdd(ScalarMul(g, p.coefficients[i]), ScalarMul(h, blinding[i])));
    PedersenCommitment(commitments, Polynomial(blinding))
  }

  /* ---------------- evaluation ---------------- */

  /** Horner's fold computes the power sum: evaluate(x) == Σ c_i·x^i for every x. */
  lemma {:induction false} HornerIsPowerSum(cs: seq<Scalar>, x: Scalar)
    ensures Horner(cs, x) == PowerSum(cs, x)
    decreases |cs|
  {
    if |cs| > 0 {
      var init := cs[..|cs| - 1];
      assert cs == init + [cs[|cs| - 1]];
      HornerAppend(init, cs[|cs| - 1], x);
      HornerIsPowerSum(init, x);
    }
  }

  /** Appending a top coefficient c adds c·x^n to the value. */
  lemma {:induction false} HornerAppend(cs: seq<Scalar>, c: Scalar, x: Scalar)
    ensures Horner(cs + [c], x) == Add(Horner(cs, x), Mul(c, Pow(x, |cs|)))
    decreases |cs|
  {
    if |cs| == 0 {
      MulZero(x);
      AddZero(c);
      MulOne(c);
      assert Horner([c], x) == Add(Mul(Horner([], x), x), c);
    } else {
      var n := |cs|;
      var rest := cs[1..];
      assert (cs + [c])[1..] == rest + [c];
      HornerAppend(rest, c, x);
      var h := Horner(rest, x);
      var t := Mul(c, Pow(x, n - 1));
      calc {
        Horner(cs + [c], x);
        Add(Mul(Horner(rest + [c], x), x), cs[0]);
        Add(Mul(Add(h, t), x), cs[0]);
        { DistribRight(h, t, x); }
        Add(Add(Mul(h, x), Mul(t, x)), cs[0]);
        { MulAssoc(c, Pow(x, n - 1), x); }
        Add(Add(Mul(h, x), Mul(c, Pow(x, n))), cs[0]);
        { AddRotate(Mul(h, x), Mul(c, Pow(x, n)), cs[0]); }
        Add(Add(Mul(h, x), cs[0]), Mul(c, Pow(x, n)));
        Add(Horner(cs, x), Mul(c, Pow(x, n)));
      }
    }
  }

  lemma AddRotate(a: Scalar, b: Scalar, c: Scalar)
    ensures Add(Add(a, b), c) == Add(Add(a, c), b)
  {
    AddAssoc(a, b, c);
    AddComm(b, c);
    AddAssoc(a, c, b);
  }

  lemma AddSwapMiddle(a: Scalar, b: Scalar, c: Scalar, d: Scalar)
    ensures Add(Add(a, b), Add(c, d)) == Add(Add(a, c), Add(b, d))
  {
    AddAssoc(Add(a, b), c, d);
    AddRotate(a, b, c);
    AddAssoc(Add(a, c), b, d);
  }

  /** A polynomial with no coefficient above the constant term is that constant. */
  lemma HornerOfConstant(c: Scalar, x: Scalar)
    ensures Horner([c], x) == c
  {
    MulZero(x);
    AddZero(c);
  }

  /** Evaluating at zero yields the constant term. */
  lemma HornerAtZero(cs: seq<Scalar>)
    requires |cs| > 0
    ensures Horner(cs, 0) == cs[0]
  {
    MulZero(Horner(cs[1..], 0));
    AddZero(cs[0]);
  }

  /** A freshly created polynomial evaluates to its secret at x = 0. */
  lemma NewAtZero(secret: Scalar, degree: nat, draws: nat -> Scalar)
    ensures Evaluate(New(secret, degree, draws), 0) == secret
  {
    HornerAtZero(New(secret, degree, draws).coefficients);
  }

  /* ---------------- commitments ---------------- */

  /** Scaling every coefficient by g scales the accumulated commitment by g. */
  lemma {:induction false} CommitmentAtScaled(cs: seq<Point>, g: Point, coeffs: seq<Scalar>, x: Scalar)
    requires |cs| == |coeffs|
    requires forall i :: 0 <= i < |cs| ==> cs[i] == ScalarMul(g, coeffs[i])
    ensures CommitmentAt(cs, x) == ScalarMul(g, PowerSum(coeffs, x))
    decreases |cs|
  {
    if |cs| == 0 {
      MulZero(g);
    } else {
      var n := |cs|;
      CommitmentAtScaled(cs[..n - 1], g, coeffs[..n - 1], x);
      var s := PowerSum(coeffs[..n - 1], x);
      var px := Pow(x, n - 1);
      calc {
        CommitmentAt(cs, x);
        Add(Mul(g, s), Mul(Mul(g, coeffs[n - 1]), px));
        { MulAssoc(g, coeffs[n - 1], px); }
        Add(Mul(g, s), Mul(g, Mul(coeffs[n - 1], px)));
        { Distrib(g, s, Mul(coeffs[n - 1], px)); }
        Mul(g, PowerSum(coeffs, x));
      }
    }
  }

  /** The accumulated commitment of a point-wise sum is the sum of the accumulations. */
  lemma {:induction false} CommitmentAtSum(cs: seq<Point>, a: seq<Point>, b: seq<Point>, x: Scalar)
    requires |cs| == |a| == |b|
    requires forall i :: 0 <= i < |cs| ==> cs[i] == PointAdd(a[i], b[i])
    ensures CommitmentAt(cs, x) == PointAdd(CommitmentAt(a, x), CommitmentAt(b, x))
    decreases |cs|
  {
    if |cs| == 0 {
      AddZero(0);
    } else {
      var n := |cs|;
      CommitmentAtSum(cs[..n - 1], a[..n - 1], b[..n - 1], x);
      var px := Pow(x, n - 1);
      calc {
        CommitmentAt(cs, x);
        Add(Add(CommitmentAt(a[..n - 1], x), CommitmentAt(b[..n - 1], x)), Mul(Add(a[n - 1], b[n - 1]), px));
        { DistribRight(a[n - 1], b[n - 1], px); }
        Add(Add(CommitmentAt(a[..n - 1], x), CommitmentAt(b[..n - 1], x)), Add(Mul(a[n - 1], px), Mul(b[n - 1], px)));
        { AddSwapMiddle(CommitmentAt(a[..n - 1], x), CommitmentAt(b[..n - 1], x), Mul(a[n - 1], px), Mul(b[n - 1], px)); }
        Add(CommitmentAt(a, x), CommitmentAt(b, x));
      }
    }
  }

  /** Feldman homomorphism: for every x, Σ C_i·x^i == g·p(x). */
  lemma FeldmanHomomorphism(p: Polynomial, g: Point, x: Scalar)
    ensures CommitmentAt(FeldmanCommit(p, g), x) == ScalarMul(g, Evaluate(p, x))
  {
    CommitmentAtScaled(FeldmanCommit(p, g), g, p.coefficients, x);
    HornerIsPowerSum(p.coefficients, x);
  }

  /** Pedersen homomorphism: for every x, Σ C_i·x^i == g·p(x) + h·b(x), where b is the
      returned blinding polynomial. */
  lemma PedersenHomomorphism(p: Polynomial, g: Point, h: Point, draws: nat -> Scalar, x: Scalar)
    ensures var r := PedersenCommit(p, g, h, draws);
      CommitmentAt(r.commitments, x) == PointAdd(ScalarMul(g, Evaluate(p, x)), ScalarMul(h, Evaluate(r.blinding, x)))
  {
    var r := PedersenCommit(p, g, h, draws);
    var gs := FeldmanCommit(p, g);
    var hs := FeldmanCommit(r.blinding, h);
    CommitmentAtSum(r.commitments, gs, hs, x);
    FeldmanHomomorphism(p, g, x);
    FeldmanHomomorphism(r.blinding, h, x);
  }
}
