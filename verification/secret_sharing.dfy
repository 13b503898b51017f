/** Shamir secret sharing with Feldman and Pedersen verifiable variants.

    A dealer hides `secret` as the constant term of a random polynomial p of degree t − 1,
    hands out the n shares (k, p(k)) for k = 1..n, and (in the verifiable variants)
    publishes commitments to p's coefficients. Any t shares give p(0) back by Lagrange
    interpolation; a single share is checked against the commitments by evaluating the
    committed polynomial "in the exponent".

    The random source is an infinite stream of draws: the dealer polynomial takes the
    first t − 1 draws, and the Pedersen blinding factors the next t. */
module SecretSharing {
  import opened Field
  import opened Group
  import opened Polynomials
  import opened Lagrange

  /** A share (x, y) with y == p(x). */
  datatype Share = Share(x: Scalar, y: Scalar)

  /** The output of the Feldman dealer: shares and one commitment per coefficient. */
  datatype FeldmanDeal = FeldmanDeal(shares: seq<Share>, commitments: seq<Point>)

  /** The output of the Pedersen dealer: shares, commitments and the blinding polynomial. */
  datatype PedersenDeal = PedersenDeal(shares: seq<Share>, commitments: seq<Point>, blinding: Polynomial)

  function Xs(shares: seq<Share>): (xs: seq<Scalar>)
    ensures |xs| == |shares|
  {
    seq(|shares|, i requires 0 <= i < |shares| => shares[i].x)
  }

  function Ys(shares: seq<Share>): (ys: seq<Scalar>)
    ensures |ys| == |shares|
  {
    seq(|shares|, i requires 0 <= i < |shares| => shares[i].y)
  }

  /** Some two of the shares carry the same x-coordinate: the condition under which
      `invert().unwrap()` panics, stated over shares. It is `!Distinct(Xs(shares))`, as
      `DistinctIff` proves. */
  predicate HasRepeatedX(shares: seq<Share>) {
    exists i, j :: 0 <= i < j < |shares| && shares[i].x == shares[j].x
  }

  /* ---------------- dealing ---------------- */

  /** The dealer polynomial of degree t − 1 (t − 1 underflows for t == 0, hence t ≥ 1):
      it has t coefficients and hides the secret at x = 0. */
  function DealerPolynomial(secret: Scalar, t: nat, draws: nat -> Scalar): (p: Polynomial)
    requires 1 <= t
    ensures |p.coefficients| == t
    ensures Evaluate(p, 0) == secret
  {
    NewAtZero(secret, t - 1, draws);
    New(secret, t - 1, draws)
  }

  /** The shares (k, p(k)) for k = 1..n, with k taken into the field by `Scalar::from`;
      when n < Q the x-coordinates are exactly 1..n. */
  function SharesOf(p: Polynomial, n: nat): (shares: seq<Share>)
    ensures |shares| == n
    ensures forall k :: 0 <= k < n ==> shares[k].x == FromU64(k + 1) && shares[k].y == Evaluate(p, shares[k].x)
    ensures n < Q ==> forall k :: 0 <= k < n ==> shares[k].x == k + 1
  {
    seq(n, k requires 0 <= k < n => Share(FromU64(k + 1), Evaluate(p, FromU64(k + 1))))
  }

  /** `generate_shares`: n shares of the polynomial built from the secret and the first
      t − 1 draws. */
  function GenerateShares(secret: Scalar, n: nat, t: nat, draws: nat -> Scalar): (shares: seq<Share>)
    requires 1 <= t
    ensures |shares| == n
    ensures forall k :: 0 <= k < n ==>
      shares[k].x == FromU64(k + 1) && shares[k].y == Evaluate(New(secret, t - 1, draws), FromU64(k + 1))
    ensures n < Q ==> forall k :: 0 <= k < n ==> shares[k].x == k + 1
  {
    SharesOf(DealerPolynomial(secret, t, draws), n)
  }

  /** `generate_shares_with_feldman_vss`: the same shares as `generate_shares` on the same
      draws, and t commitments, the first of which is g·secret. */
  function GenerateSharesWithFeldmanVss(secret: Scalar, n: nat, t: nat, g: Point, draws: nat -> Scalar): (r: FeldmanDeal)
    requires 1 <= t
    ensures r.shares == GenerateShares(secret, n, t, draws)
    ensures |r.commitments| == t
    ensures r.commitments[0] == ScalarMul(g, secret)
    ensures forall i :: 1 <= i < t ==> r.commitments[i] == ScalarMul(g, draws(i - 1))
  {
    var p := DealerPolynomial(secret, t, draws);
    FeldmanDeal(SharesOf(p, n), FeldmanCommit(p, g))
  }

  /** `generate_shares_with_pedersen_vss`: the same shares as `generate_shares`; the
      blinding factors are the t draws that follow the polynomial's t − 1 draws, and
      C_i = g·c_i + h·r_i at every index: g·secret + h·r_0 first, then g·draw_{i−1} + h·r_i. */
  function GenerateSharesWithPedersenVss(secret: Scalar, n: nat, t: nat, g: Point, h: Point, draws: nat -> Scalar): (r: PedersenDeal)
    requires 1 <= t
    ensures r.shares == GenerateShares(secret, n, t, draws)
    ensures |r.commitments| == t && |r.blinding.coefficients| == t
    ensures forall i :: 0 <= i < t ==> r.blinding.coefficients[i] == draws(t - 1 + i)
    ensures r.commitments[0] == PointAdd(ScalarMul(g, secret), ScalarMul(h, draws(t - 1)))
    ensures forall i :: 1 <= i < t ==>
      r.commitments[i] == PointAdd(ScalarMul(g, draws(i - 1)), ScalarMul(h, draws(t - 1 + i)))
  {
    var p := DealerPolynomial(secret, t, draws);
    var c := PedersenCommit(p, g, h, i => draws(t - 1 + i));
    PedersenDeal(SharesOf(p, n), c.commitments, c.blinding)
  }

  /* ---------------- verification ---------------- */

  /** `verify_share_with_feldman_vss`: g·y == Σ C_i·x^i. */
  predicate VerifyFeldman(share: Share, commitments: seq<Point>, g: Point) {
    ScalarMul(g, share.y) == CommitmentAt(commitments, share.x)
  }

  /** `verify_share_with_pedersen_vss`: g·y + h·b(x) == Σ C_i·x^i. */
  predicate VerifyPedersen(share: Share, commitments: seq<Point>, blinding: Polynomial, g: Point, h: Point) {
    PointAdd(ScalarMul(g, share.y), ScalarMul(h, Evaluate(blinding, share.x))) == CommitmentAt(commitments, share.x)
  }

  /** Against the Feldman commitments of p, with g not the identity, a share verifies
      exactly when it lies on p. */
  lemma FeldmanVerifyIff(p: Polynomial, g: Point, s: Share)
    requires g != Identity
    ensures VerifyFeldman(s, FeldmanCommit(p, g), g) <==> s.y == Evaluate(p, s.x)
  {
    FeldmanHomomorphism(p, g, s.x);
    ScalarMulInjective(g, s.y, Evaluate(p, s.x));
  }

  /** Against the Pedersen commitments of p and their blinding polynomial, with g not the
      identity, a share verifies exactly when it lies on p. */
  lemma PedersenVerifyIff(p: Polynomial, g: Point, h: Point, draws: nat -> Scalar, s: Share)
    requires g != Identity
    ensures var c := PedersenCommit(p, g, h, draws);
      VerifyPedersen(s, c.commitments, c.blinding, g, h) <==> s.y == Evaluate(p, s.x)
  {
    var c := PedersenCommit(p, g, h, draws);
    PedersenHomomorphism(p, g, h, draws, s.x);
    var hb := ScalarMul(h, Evaluate(c.blinding, s.x));
    ScalarMulInjective(g, s.y, Evaluate(p, s.x));
    if PointAdd(ScalarMul(g, s.y), hb) == PointAdd(ScalarMul(g, Evaluate(p, s.x)), hb) {
      AddCancelRight(ScalarMul(g, s.y), ScalarMul(g, Evaluate(p, s.x)), hb);
    }
  }

  lemma AddCancelRight(a: Scalar, b: Scalar, c: Scalar)
    requires Add(a, c) == Add(b, c)
    ensures a == b
  {
    AddSubInverse(c, a, Add(a, c));
    AddComm(a, c);
    AddSubInverse(c, b, Add(b, c));
    AddComm(b, c);
  }

  /** Every share the Feldman dealer hands out verifies against its commitments. */
  lemma FeldmanSharesVerify(secret: Scalar, n: nat, t: nat, g: Point, draws: nat -> Scalar)
    requires 1 <= t
    ensures var r := GenerateSharesWithFeldmanVss(secret, n, t, g, draws);
      forall k :: 0 <= k < n ==> VerifyFeldman(r.shares[k], r.commitments, g)
  {
    var p := DealerPolynomial(secret, t, draws);
    forall k | 0 <= k < n
      ensures VerifyFeldman(SharesOf(p, n)[k], FeldmanCommit(p, g), g)
    {
      FeldmanHomomorphism(p, g, SharesOf(p, n)[k].x);
    }
  }

  /** With g not the identity, a Feldman share whose y is raised by one fails. */
  lemma FeldmanTamperFails(secret: Scalar, n: nat, t: nat, g: Point, draws: nat -> Scalar, k: nat)
    requires 1 <= t && k < n && g != Identity
    ensures var r := GenerateSharesWithFeldmanVss(secret, n, t, g, draws);
      !VerifyFeldman(Share(r.shares[k].x, Add(r.shares[k].y, 1)), r.commitments, g)
  {
    var p := DealerPolynomial(secret, t, draws);
    var s := SharesOf(p, n)[k];
    FeldmanVerifyIff(p, g, Share(s.x, Add(s.y, 1)));
    PointAddNonIdentity(s.y, 1);
  }

  /** Every share the Pedersen dealer hands out satisfies g·y + h·b(x) == Σ C_i·x^i. */
  lemma PedersenSharesVerify(secret: Scalar, n: nat, t: nat, g: Point, h: Point, draws: nat -> Scalar)
    requires 1 <= t
    ensures var r := GenerateSharesWithPedersenVss(secret, n, t, g, h, draws);
      forall k :: 0 <= k < n ==> VerifyPedersen(r.shares[k], r.commitments, r.blinding, g, h)
  {
    var p := DealerPolynomial(secret, t, draws);
    var d: nat -> Scalar := (i: nat) => draws(t - 1 + i);
    var c := PedersenCommit(p, g, h, d);
    forall k | 0 <= k < n
      ensures VerifyPedersen(SharesOf(p, n)[k], c.commitments, c.blinding, g, h)
    {
      PedersenHomomorphism(p, g, h, d, SharesOf(p, n)[k].x);
    }
  }

  /** With g not the identity, a Pedersen share whose y is raised by one fails. */
  lemma PedersenTamperFails(secret: Scalar, n: nat, t: nat, g: Point, h: Point, draws: nat -> Scalar, k: nat)
    requires 1 <= t && k < n && g != Identity
    ensures var r := GenerateSharesWithPedersenVss(secret, n, t, g, h, draws);
      !VerifyPedersen(Share(r.shares[k].x, Add(r.shares[k].y, 1)), r.commitments, r.blinding, g, h)
  {
    var p := DealerPolynomial(secret, t, draws);
    var s := SharesOf(p, n)[k];
    PedersenVerifyIff(p, g, h, i => draws(t - 1 + i), Share(s.x, Add(s.y, 1)));
    PointAddNonIdentity(s.y, 1);
  }

  /* ---------------- reconstruction ---------------- */

  /** `reconstruct_secret` as a value: None stands for the panic of `invert().unwrap()`
      on a zero denominator, which happens exactly when two shares share an x. */
  function Reconstruct(shares: seq<Share>): (r: Option<Scalar>)
    ensures r.None? <==> HasRepeatedX(shares)
  {
    DistinctIff(shares);
    if Distinct(Xs(shares)) then Some(Interpolate(Xs(shares), Ys(shares))) else None
  }

  /** `reconstruct_secret`, loop for loop: for each share i the inner loop multiplies up
      x_j and x_j − x_i over the other shares, then y_i·num/den is added to the sum. */
  method ReconstructSecret(shares: seq<Share>) returns (r: Option<Scalar>)
    ensures r == Reconstruct(shares)
    ensures r.None? <==> HasRepeatedX(shares)
    ensures r.Some? ==> r.value == Interpolate(Xs(shares), Ys(shares))
  {
    ghost var xs := Xs(shares);
    ghost var ys := Ys(shares);
    var secret: Scalar := 0;
    var i := 0;
    while i < |shares|
      invariant 0 <= i <= |shares|
      invariant forall k :: 0 <= k < i ==> Denominator(xs, k) != 0
      invariant Distinct(xs) ==> secret == Dot(ys[..i], Weights(xs)[..i])
    {
      var xi, yi := shares[i].x, shares[i].y;
      var numerator: Scalar := 1;
      var denominator: Scalar := 1;
      var j := 0;
      while j < |shares|
        invariant 0 <= j <= |shares|
        invariant numerator == SkipProd(xs[..j], i, 0)
        invariant denominator == SkipProd(xs[..j], i, xi)
      {
        SkipProdPrefixStep(xs, j, i, 0);
        SkipProdPrefixStep(xs, j, i, xi);
        if i != j {
          SubZero(shares[j].x);
          numerator := Mul(numerator, shares[j].x);
          denominator := Mul(denominator, Sub(shares[j].x, xi));
        }
        j := j + 1;
      }
      assert xs[..|shares|] == xs;
      var inverse := Invert(denominator);
      if inverse.None? {
        RepeatedFromZeroDenominator(shares, i);
        return None;
      }
      secret := Add(secret, Mul(yi, Mul(numerator, inverse.value)));
      if Distinct(xs) {
        DotPrefixStep(ys, Weights(xs), i);
      }
      i := i + 1;
    }
    DistinctFromDenominators(xs);
    assert ys[..|shares|] == ys && Weights(xs)[..|shares|] == Weights(xs);
    return Some(secret);
  }

  lemma SkipProdPrefixStep(xs: seq<Scalar>, j: nat, i: nat, c: Scalar)
    requires j < |xs|
    ensures SkipProd(xs[..j + 1], i, c)
      == if j == i then SkipProd(xs[..j], i, c) else Mul(SkipProd(xs[..j], i, c), Sub(xs[j], c))
  {
    assert xs[..j + 1][..j] == xs[..j];
  }

  lemma DotPrefixStep(ys: seq<Scalar>, ws: seq<Scalar>, i: nat)
    requires |ys| == |ws| && i < |ys|
    ensures Dot(ys[..i + 1], ws[..i + 1]) == Add(Dot(ys[..i], ws[..i]), Mul(ys[i], ws[i]))
  {
    assert ys[..i + 1][..i] == ys[..i] && ws[..i + 1][..i] == ws[..i];
  }

  /** The x-coordinates are pairwise distinct exactly when no x repeats. */
  lemma DistinctIff(shares: seq<Share>)
    ensures Distinct(Xs(shares)) <==> !HasRepeatedX(shares)
  {
    var xs := Xs(shares);
    if HasRepeatedX(shares) {
      var i, j :| 0 <= i < j < |shares| && shares[i].x == shares[j].x;
      assert xs[i] == xs[j];
    }
  }

  /** A zero denominator for share i means another share has the same x. */
  lemma RepeatedFromZeroDenominator(shares: seq<Share>, i: nat)
    requires i < |shares| && Denominator(Xs(shares), i) == 0
    ensures HasRepeatedX(shares)
  {
    var xs := Xs(shares);
    SkipProdZero(xs, i, xs[i]);
    var j :| 0 <= j < |xs| && j != i && xs[j] == xs[i];
    if j < i {
      assert shares[j].x == shares[i].x;
    } else {
      assert shares[i].x == shares[j].x;
    }
  }

  /** If every denominator is nonzero, the points are pairwise distinct. */
  lemma DistinctFromDenominators(xs: seq<Scalar>)
    requires forall k :: 0 <= k < |xs| ==> Denominator(xs, k) != 0
    ensures Distinct(xs)
  {
    forall i, j | 0 <= i < j < |xs|
      ensures xs[i] != xs[j]
    {
      assert Denominator(xs, i) != 0;
      SkipProdZero(xs, i, xs[i]);
    }
  }

  /** The shares picked out by a list of indices, in the order listed. */
  function Select(shares: seq<Share>, idx: seq<nat>): (sel: seq<Share>)
    requires forall i :: 0 <= i < |idx| ==> idx[i] < |shares|
    ensures |sel| == |idx|
    ensures forall i :: 0 <= i < |idx| ==> sel[i] == shares[idx[i]]
  {
    seq(|idx|, i requires 0 <= i < |idx| => shares[idx[i]])
  }

  /** The index list names each generated share at most once. */
  predicate ValidSelection(idx: seq<nat>, n: nat) {
    (forall i :: 0 <= i < |idx| ==> idx[i] < n)
    && (forall i, j :: 0 <= i < j < |idx| ==> idx[i] != idx[j])
  }

  /** Any selection of t or more of the generated shares, distinct and in any order, has
      pairwise-distinct, nonzero x-coordinates and values on the dealer polynomial. */
  lemma SelectionFacts(secret: Scalar, n: nat, t: nat, draws: nat -> Scalar, idx: seq<nat>)
    requires 1 <= t && n < Q && ValidSelection(idx, n)
    ensures var sel := Select(GenerateShares(secret, n, t, draws), idx);
      Distinct(Xs(sel))
      && (forall i :: 0 <= i < |sel| ==> sel[i].x != 0)
      && Ys(sel) == Values(DealerPolynomial(secret, t, draws).coefficients, Xs(sel))
  {
  }

  /** Round trip: any t or more distinct generated shares, in any order, reconstruct
      exactly the secret, provided n < Q so that the x-coordinates 1..n are distinct. */
  lemma RoundTrip(secret: Scalar, n: nat, t: nat, draws: nat -> Scalar, idx: seq<nat>)
    requires 1 <= t && n < Q && ValidSelection(idx, n) && |idx| >= t
    ensures Reconstruct(Select(GenerateShares(secret, n, t, draws), idx)) == Some(secret)
  {
    var sel := Select(GenerateShares(secret, n, t, draws), idx);
    var p := DealerPolynomial(secret, t, draws);
    SelectionFacts(secret, n, t, draws, idx);
    Exactness(Xs(sel), p.coefficients);
  }

  /** The shares with the y of share m raised by one. */
  function Bump(shares: seq<Share>, m: nat): (r: seq<Share>)
    requires m < |shares|
    ensures |r| == |shares| && Xs(r) == Xs(shares)
    ensures r[m].y == Add(shares[m].y, 1)
    ensures forall i :: 0 <= i < |shares| && i != m ==> r[i] == shares[i]
  {
    shares[m := Share(shares[m].x, Add(shares[m].y, 1))]
  }

  /** Reconstruction is linear in the y's: raising y_m by one shifts the result by the
      m-th Lagrange coefficient. */
  lemma ReconstructShift(shares: seq<Share>, m: nat)
    requires m < |shares| && Distinct(Xs(shares))
    ensures Reconstruct(Bump(shares, m))
      == Some(Add(Interpolate(Xs(shares), Ys(shares)), Basis(Xs(shares), m)))
  {
    var xs, ys := Xs(shares), Ys(shares);
    var ys' := Ys(Bump(shares, m));
    var unit := seq(|shares|, i requires 0 <= i < |shares| => if i == m then 1 else 0);
    forall i | 0 <= i < |shares| ensures ys'[i] == Add(ys[i], unit[i]) {
      AddZero(ys[i]);
    }
    DotSum(ys', ys, unit, Weights(xs));
    DotUnit(unit, Weights(xs), m, 1);
    MulOne(Weights(xs)[m]);
    MulComm(1, Weights(xs)[m]);
  }

  /** With pairwise-distinct, nonzero x's every Lagrange coefficient is nonzero. */
  lemma BasisNonZero(xs: seq<Scalar>, i: nat)
    requires i < |xs| && Distinct(xs)
    requires forall j :: 0 <= j < |xs| ==> xs[j] != 0
    ensures Basis(xs, i) != 0
  {
    SkipProdZero(xs, i, 0);
    DenominatorNonZero(xs, i);
    NoZeroDivisors(Numerator(xs, i), Inv(Denominator(xs, i)));
  }

  /** A selection of t or more generated shares in which one y has been raised by one
      reconstructs to something other than the secret. */
  lemma TamperedSelectionFails(secret: Scalar, n: nat, t: nat, draws: nat -> Scalar, idx: seq<nat>, m: nat)
    requires 1 <= t && n < Q && ValidSelection(idx, n) && |idx| >= t && m < |idx|
    ensures var r := Reconstruct(Bump(Select(GenerateShares(secret, n, t, draws), idx), m));
      r.Some? && r.value != secret
  {
    var sel := Select(GenerateShares(secret, n, t, draws), idx);
    SelectionFacts(secret, n, t, draws, idx);
    RoundTrip(secret, n, t, draws, idx);
    ReconstructShift(sel, m);
    BasisNonZero(Xs(sel), m);
    PointAddNonIdentity(secret, Basis(Xs(sel), m));
  }

  /** A single share reconstructs to its own y: both products are empty, so the
      coefficient is 1/1. */
  lemma SingleShare(s: Share)
    ensures Reconstruct([s]) == Some(s.y)
  {
    SingleBasis(s.x);
    assert Xs([s]) == [s.x];
    DotSingle(Ys([s]), Weights([s.x]));
    MulOne(s.y);
  }
}
