/** Lagrange interpolation at x = 0, in the exact form the reconstruction loop computes:
    the basis value of point i is  Π_{j≠i} x_j  /  Π_{j≠i} (x_j − x_i),
    and the interpolated value is  Σ_i y_i · basis_i.

    The main result, `Exactness`, says that for k pairwise-distinct points and a polynomial
    with at most k coefficients, the interpolated value of the polynomial's values at those
    points is the polynomial's constant term. */
module Lagrange {
  import opened Field
  import opened Polynomials

  /** No two of the points coincide. */
  predicate Distinct(xs: seq<Scalar>) {
    forall i, j :: 0 <= i < j < |xs| ==> xs[i] != xs[j]
  }

  /** Π_{j≠i} (xs[j] − c), multiplied in index order starting from ONE. */
  function SkipProd(xs: seq<Scalar>, i: nat, c: Scalar): Scalar
    decreases |xs|
  {
    if |xs| == 0 then 1
    else if |xs| - 1 == i then SkipProd(xs[..|xs| - 1], i, c)
    else Mul(SkipProd(xs[..|xs| - 1], i, c), Sub(xs[|xs| - 1], c))
  }

  /** The numerator Π_{j≠i} x_j of the i-th basis value. */
  function Numerator(xs: seq<Scalar>, i: nat): Scalar {
    SkipProd(xs, i, 0)
  }

  /** The denominator Π_{j≠i} (x_j − x_i) of the i-th basis value. */
  function Denominator(xs: seq<Scalar>, i: nat): Scalar
    requires i < |xs|
  {
    SkipProd(xs, i, xs[i])
  }

  /** The i-th Lagrange basis value at zero. */
  function Basis(xs: seq<Scalar>, i: nat): Scalar
    requires i < |xs| && Distinct(xs)
  {
    DenominatorNonZero(xs, i);
    Mul(Numerator(xs, i), Inv(Denominator(xs, i)))
  }

  function Weights(xs: seq<Scalar>): (ws: seq<Scalar>)
    requires Distinct(xs)
    ensures |ws| == |xs|
  {
    seq(|xs|, i requires 0 <= i < |xs| => Basis(xs, i))
  }

  /** Σ ys[i]·ws[i], accumulated in index order from ZERO. */
  function Dot(ys: seq<Scalar>, ws: seq<Scalar>): Scalar
    requires |ys| == |ws|
  {
    if |ys| == 0 then 0
    else Add(Dot(ys[..|ys| - 1], ws[..|ws| - 1]), Mul(ys[|ys| - 1], ws[|ws| - 1]))
  }

  /** The value at zero interpolated through the points (xs[i], ys[i]). */
  function Interpolate(xs: seq<Scalar>, ys: seq<Scalar>): Scalar
    requires Distinct(xs) && |ys| == |xs|
  {
    Dot(ys, Weights(xs))
  }

  /** The values of the polynomial with coefficients cs at the points xs. */
  function Values(cs: seq<Scalar>, xs: seq<Scalar>): (ys: seq<Scalar>)
    ensures |ys| == |xs|
  {
    seq(|xs|, i requires 0 <= i < |xs| => Horner(cs, xs[i]))
  }

  /* ---------------- the skipping product ---------------- */

  /** The product vanishes exactly when some other factor x_j − c does, i.e. when some
      point other than the i-th equals c. */
  lemma {:induction false} SkipProdZero(xs: seq<Scalar>, i: nat, c: Scalar)
    ensures SkipProd(xs, i, c) == 0 <==> exists j :: 0 <= j < |xs| && j != i && xs[j] == c
    decreases |xs|
  {
    if |xs| > 0 {
      var n := |xs| - 1;
      var init := xs[..n];
      SkipProdZero(init, i, c);
      assert forall j :: 0 <= j < n ==> init[j] == xs[j];
      if n != i {
        NoZeroDivisors(SkipProd(init, i, c), Sub(xs[n], c));
        SubZeroIff(xs[n], c);
      }
    }
  }

  lemma DenominatorNonZero(xs: seq<Scalar>, i: nat)
    requires i < |xs| && Distinct(xs)
    ensures Denominator(xs, i) != 0
  {
    SkipProdZero(xs, i, xs[i]);
  }

  /** Peeling the first factor off the product. */
  lemma {:induction false} SkipProdFirst(xs: seq<Scalar>, i: nat, c: Scalar)
    requires |xs| >= 1 && i >= 1
    ensures SkipProd(xs, i, c) == Mul(Sub(xs[0], c), SkipProd(xs[1..], i - 1, c))
    decreases |xs|
  {
    var n := |xs| - 1;
    if n == 0 {
      MulOne(Sub(xs[0], c));
      assert xs[..0] == [] && xs[1..] == [];
    } else {
      var init := xs[..n];
      SkipProdFirst(init, i, c);
      assert init[1..] == xs[1..][..n - 1];
      assert init[0] == xs[0];
      if n != i {
        MulAssoc(Sub(xs[0], c), SkipProd(init[1..], i - 1, c), Sub(xs[n], c));
      }
    }
  }

  /* ---------------- sums of products ---------------- */

  lemma {:induction false} DotSum(ys: seq<Scalar>, a: seq<Scalar>, b: seq<Scalar>, ws: seq<Scalar>)
    requires |ys| == |a| == |b| == |ws|
    requires forall i :: 0 <= i < |ys| ==> ys[i] == Add(a[i], b[i])
    ensures Dot(ys, ws) == Add(Dot(a, ws), Dot(b, ws))
    decreases |ys|
  {
    if |ys| == 0 {
      AddZero(0);
    } else {
      var n := |ys| - 1;
      DotSum(ys[..n], a[..n], b[..n], ws[..n]);
      DistribRight(a[n], b[n], ws[n]);
      AddSwapMiddle(Dot(a[..n], ws[..n]), Dot(b[..n], ws[..n]), Mul(a[n], ws[n]), Mul(b[n], ws[n]));
    }
  }

  lemma {:induction false} DotScale(ys: seq<Scalar>, a: seq<Scalar>, c: Scalar, ws: seq<Scalar>)
    requires |ys| == |a| == |ws|
    requires forall i :: 0 <= i < |ys| ==> ys[i] == Mul(c, a[i])
    ensures Dot(ys, ws) == Mul(c, Dot(a, ws))
    decreases |ys|
  {
    if |ys| == 0 {
      MulZero(c);
    } else {
      var n := |ys| - 1;
      DotScale(ys[..n], a[..n], c, ws[..n]);
      MulAssoc(c, a[n], ws[n]);
      Distrib(c, Dot(a[..n], ws[..n]), Mul(a[n], ws[n]));
    }
  }

  lemma {:induction false} DotPointwise(a: seq<Scalar>, w: seq<Scalar>, b: seq<Scalar>, v: seq<Scalar>)
    requires |a| == |w| == |b| == |v|
    requires forall i :: 0 <= i < |a| ==> Mul(a[i], w[i]) == Mul(b[i], v[i])
    ensures Dot(a, w) == Dot(b, v)
    decreases |a|
  {
    if |a| > 0 {
      var n := |a| - 1;
      DotPointwise(a[..n], w[..n], b[..n], v[..n]);
    }
  }

  lemma {:induction false} DotFirst(ys: seq<Scalar>, ws: seq<Scalar>)
    requires |ys| == |ws| >= 1
    ensures Dot(ys, ws) == Add(Mul(ys[0], ws[0]), Dot(ys[1..], ws[1..]))
    decreases |ys|
  {
    var n := |ys| - 1;
    if n == 0 {
      AddZero(Mul(ys[0], ws[0]));
    } else {
      DotFirst(ys[..n], ws[..n]);
      assert ys[..n][1..] == ys[1..][..n - 1];
      assert ws[..n][1..] == ws[1..][..n - 1];
      AddAssoc(Mul(ys[0], ws[0]), Dot(ys[1..][..n - 1], ws[1..][..n - 1]), Mul(ys[n], ws[n]));
    }
  }

  lemma DotSingle(ys: seq<Scalar>, ws: seq<Scalar>)
    requires |ys| == |ws| == 1
    ensures Dot(ys, ws) == Mul(ys[0], ws[0])
  {
    assert ys[..0] == [] && ws[..0] == [];
    AddZero(Mul(ys[0], ws[0]));
  }

  /** Σ over a vector that is d at index m and zero elsewhere. */
  lemma {:induction false} DotUnit(u: seq<Scalar>, ws: seq<Scalar>, m: nat, d: Scalar)
    requires |u| == |ws| && m < |u|
    requires forall i :: 0 <= i < |u| ==> u[i] == if i == m then d else 0
    ensures Dot(u, ws) == Mul(d, ws[m])
  {
    DotUnitPrefix(u, ws, m, d, |u|);
    assert u[..|u|] == u && ws[..|ws|] == ws;
  }

  lemma {:induction false} DotUnitPrefix(u: seq<Scalar>, ws: seq<Scalar>, m: nat, d: Scalar, n: nat)
    requires |u| == |ws| && m < |u| && n <= |u|
    requires forall i :: 0 <= i < |u| ==> u[i] == if i == m then d else 0
    ensures Dot(u[..n], ws[..n]) == if n > m then Mul(d, ws[m]) else 0
    decreases n
  {
    if n > 0 {
      DotUnitPrefix(u, ws, m, d, n - 1);
      assert u[..n][..n - 1] == u[..n - 1] && ws[..n][..n - 1] == ws[..n - 1];
      MulZero(ws[n - 1]);
      AddZero(Dot(u[..n - 1], ws[..n - 1]));
      AddZero(Mul(u[n - 1], ws[n - 1]));
    }
  }

  /* ---------------- division by a linear factor ---------------- */

  /** Synthetic division: the quotient of p(x) − p(a) by x − a. */
  function DivLinear(cs: seq<Scalar>, a: Scalar): (r: seq<Scalar>)
    ensures |cs| > 0 ==> |r| == |cs| - 1
    ensures |cs| == 0 ==> r == []
  {
    if |cs| <= 1 then [] else [Horner(cs[1..], a)] + DivLinear(cs[1..], a)
  }

  /** p(x) == p(a) + (x − a)·q(x) for the quotient q. */
  lemma {:induction false} DivLinearSpec(cs: seq<Scalar>, a: Scalar, x: Scalar)
    ensures Horner(cs, x) == Add(Horner(cs, a), Mul(Sub(x, a), Horner(DivLinear(cs, a), x)))
    decreases |cs|
  {
    var s := Sub(x, a);
    if |cs| == 0 {
      MulZero(s);
      AddZero(0);
    } else if |cs| == 1 {
      assert cs == [cs[0]];
      HornerOfConstant(cs[0], x);
      HornerOfConstant(cs[0], a);
      MulZero(s);
      AddZero(cs[0]);
    } else {
      var rest := cs[1..];
      var e := Horner(rest, a);
      var r' := DivLinear(rest, a);
      var big := Horner(r', x);
      DivLinearSpec(rest, a, x);
      assert DivLinear(cs, a)[1..] == r';
      assert Horner(DivLinear(cs, a), x) == Add(Mul(big, x), e);
      DivStepAlgebra(e, s, big, x, a, cs[0]);
    }
  }

  lemma DivStepAlgebra(e: Scalar, s: Scalar, r: Scalar, x: Scalar, a: Scalar, c: Scalar)
    requires s == Sub(x, a)
    ensures Add(Mul(Add(e, Mul(s, r)), x), c) == Add(Add(Mul(e, a), c), Mul(s, Add(Mul(r, x), e)))
  {
    var t := Mul(s, Mul(r, x));
    var ex, ea := Mul(e, x), Mul(e, a);
    DistribRight(e, Mul(s, r), x);
    MulAssoc(s, r, x);
    assert Add(Mul(Add(e, Mul(s, r)), x), c) == Add(Add(ex, t), c);
    Distrib(s, Mul(r, x), e);
    MulComm(s, e);
    MulDistribSub(e, x, a);
    assert Mul(s, Add(Mul(r, x), e)) == Add(t, Sub(ex, ea));
    calc {
      Add(Add(ex, t), c);
      { ModSmall(c); ModOfSum(ex + t, c); }
      (ex + t + c) % Q;
      ((ea + c) + (t + (ex - ea))) % Q;
      { ModOfSum(ea + c, t + (ex - ea)); }
      ((ea + c) % Q + (t + (ex - ea)) % Q) % Q;
      { ModSmall(t); ModOfSum(t, ex - ea); }
      Add(Add(ea, c), Add(t, Sub(ex, ea)));
    }
  }

  /* ---------------- basis values of neighbouring point sets ---------------- */

  /** n·a / (d·e), scaled by −e, is −a·(n/d). */
  lemma BasisStep(n: Scalar, d: Scalar, a: Scalar, e: Scalar)
    requires d != 0 && e != 0
    ensures Mul(d, e) != 0
    ensures Mul(Neg(e), Mul(Mul(n, a), Inv(Mul(d, e)))) == Mul(Neg(a), Mul(n, Inv(d)))
  {
    InvOfProduct(d, e);
    var id, ie := Inv(d), Inv(e);
    CancelFactor(n, a, id, e, ie);
    MulNeg(e, Mul(Mul(n, a), Mul(id, ie)));
    MulNeg(a, Mul(n, id));
  }

  /** e·((n·a)·(d'·e')) == a·(n·d') when e·e' == 1. */
  lemma CancelFactor(n: Scalar, a: Scalar, id: Scalar, e: Scalar, ie: Scalar)
    requires Mul(e, ie) == 1
    ensures Mul(e, Mul(Mul(n, a), Mul(id, ie))) == Mul(a, Mul(n, id))
  {
    var y := Mul(Mul(n, a), id);
    calc {
      Mul(e, Mul(Mul(n, a), Mul(id, ie)));
      { MulAssoc(Mul(n, a), id, ie); }
      Mul(e, Mul(y, ie));
      { MulComm(e, Mul(y, ie)); MulAssoc(y, ie, e); MulComm(ie, e); }
      Mul(y, 1);
      { MulOne(y); }
      y;
      { MulComm(n, a); MulAssoc(a, n, id); }
      Mul(a, Mul(n, id));
    }
  }

  /** Dropping the last point a: for every other i,
      (x_i − a)·basis_i(xs) == −a·basis_i(xs without a). */
  lemma BasisDropLast(xs: seq<Scalar>, i: nat)
    requires Distinct(xs) && |xs| >= 2 && i < |xs| - 1
    ensures Distinct(xs[..|xs| - 1])
    ensures Mul(Sub(xs[i], xs[|xs| - 1]), Basis(xs, i)) == Mul(Neg(xs[|xs| - 1]), Basis(xs[..|xs| - 1], i))
  {
    var k := |xs|;
    var a := xs[k - 1];
    var init := xs[..k - 1];
    assert init[i] == xs[i];
    var e := Sub(a, xs[i]);
    SubZeroIff(a, xs[i]);
    SubZero(a);
    DenominatorNonZero(init, i);
    assert Numerator(xs, i) == Mul(Numerator(init, i), a);
    assert Denominator(xs, i) == Mul(Denominator(init, i), e);
    SubAntiSymm(xs[i], a);
    BasisStep(Numerator(init, i), Denominator(init, i), a, e);
  }

  /** Dropping the first point a: for every other i,
      (x_i − a)·basis_i(xs) == −a·basis_{i−1}(xs without a). */
  lemma BasisDropFirst(xs: seq<Scalar>, i: nat)
    requires Distinct(xs) && 1 <= i < |xs|
    ensures Distinct(xs[1..])
    ensures Mul(Sub(xs[i], xs[0]), Basis(xs, i)) == Mul(Neg(xs[0]), Basis(xs[1..], i - 1))
  {
    var a := xs[0];
    var tail := xs[1..];
    assert tail[i - 1] == xs[i];
    assert Distinct(tail) by {
      forall p, q | 0 <= p < q < |tail| ensures tail[p] != tail[q] {
        assert tail[p] == xs[p + 1] && tail[q] == xs[q + 1];
      }
    }
    var e := Sub(a, xs[i]);
    SubZeroIff(a, xs[i]);
    SubZero(a);
    DenominatorNonZero(tail, i - 1);
    var n, d := Numerator(tail, i - 1), Denominator(tail, i - 1);
    SkipProdFirst(xs, i, 0);
    SkipProdFirst(xs, i, xs[i]);
    MulComm(a, n);
    MulComm(e, d);
    SubAntiSymm(xs[i], a);
    BasisStep(n, d, a, e);
  }

  /* ---------------- exactness ---------------- */

  /** Σ of the basis values, i.e. the interpolation of the constant 1. */
  function BasisSum(xs: seq<Scalar>): Scalar
    requires Distinct(xs)
  {
    Dot(seq(|xs|, _ => 1), Weights(xs))
  }

  /** The values of the quotient q, each scaled by x_i − a. */
  function ScaledQuotient(xs: seq<Scalar>, q: seq<Scalar>, a: Scalar): (r: seq<Scalar>)
    ensures |r| == |xs|
  {
    seq(|xs|, i requires 0 <= i < |xs| => Mul(Sub(xs[i], a), Horner(q, xs[i])))
  }

  /** Splitting p(x) = p(a) + (x − a)·q(x) splits the interpolation sum accordingly. */
  lemma SplitAt(xs: seq<Scalar>, cs: seq<Scalar>, a: Scalar)
    requires Distinct(xs)
    ensures Interpolate(xs, Values(cs, xs))
      == Add(Mul(Horner(cs, a), BasisSum(xs)), Dot(ScaledQuotient(xs, DivLinear(cs, a), a), Weights(xs)))
  {
    var k := |xs|;
    var ys := Values(cs, xs);
    var ws := Weights(xs);
    var pa := Horner(cs, a);
    var first := seq(k, _ => pa);
    var second := ScaledQuotient(xs, DivLinear(cs, a), a);
    forall i | 0 <= i < k ensures ys[i] == Add(first[i], second[i]) {
      DivLinearSpec(cs, a, xs[i]);
    }
    DotSum(ys, first, second, ws);
    forall i | 0 <= i < k ensures first[i] == Mul(pa, seq(k, _ => 1)[i]) {
      MulOne(pa);
    }
    DotScale(first, seq(k, _ => 1), pa, ws);
  }

  /** With a the last point, the scaled quotient interpolates to −a times the
      interpolation of q over the other points. */
  lemma TailAtLast(xs: seq<Scalar>, q: seq<Scalar>)
    requires Distinct(xs) && |xs| >= 2
    ensures Distinct(xs[..|xs| - 1])
    ensures var a := xs[|xs| - 1];
      Dot(ScaledQuotient(xs, q, a), Weights(xs))
      == Mul(Neg(a), Interpolate(xs[..|xs| - 1], Values(q, xs[..|xs| - 1])))
  {
    var k := |xs|;
    var a := xs[k - 1];
    var rest := xs[..k - 1];
    BasisDropLast(xs, 0);
    var second := ScaledQuotient(xs, q, a);
    var ws := Weights(xs);
    var scaled := seq(k - 1, i requires 0 <= i < k - 1 => Mul(Neg(a), Horner(q, rest[i])));
    forall i | 0 <= i < k - 1
      ensures Mul(second[..k - 1][i], ws[..k - 1][i]) == Mul(scaled[i], Weights(rest)[i])
    {
      BasisDropLast(xs, i);
      Regroup(Sub(xs[i], a), Horner(q, xs[i]), Basis(xs, i), Neg(a), Basis(rest, i));
    }
    DotPointwise(second[..k - 1], ws[..k - 1], scaled, Weights(rest));
    SubSelf(a);
    MulZero(Horner(q, a));
    MulZero(ws[k - 1]);
    AddZero(Dot(second[..k - 1], ws[..k - 1]));
    DotScale(scaled, Values(q, rest), Neg(a), Weights(rest));
  }

  /** With a the first point, likewise. */
  lemma TailAtFirst(xs: seq<Scalar>, q: seq<Scalar>)
    requires Distinct(xs) && |xs| >= 2
    ensures Distinct(xs[1..])
    ensures var a := xs[0];
      Dot(ScaledQuotient(xs, q, a), Weights(xs)) == Mul(Neg(a), Interpolate(xs[1..], Values(q, xs[1..])))
  {
    var k := |xs|;
    var a := xs[0];
    var rest := xs[1..];
    BasisDropFirst(xs, 1);
    var second := ScaledQuotient(xs, q, a);
    var ws := Weights(xs);
    var scaled := seq(k - 1, i requires 0 <= i < k - 1 => Mul(Neg(a), Horner(q, rest[i])));
    DotFirst(second, ws);
    forall i | 0 <= i < k - 1
      ensures Mul(second[1..][i], ws[1..][i]) == Mul(scaled[i], Weights(rest)[i])
    {
      BasisDropFirst(xs, i + 1);
      Regroup(Sub(xs[i + 1], a), Horner(q, xs[i + 1]), Basis(xs, i + 1), Neg(a), Basis(rest, i));
    }
    DotPointwise(second[1..], ws[1..], scaled, Weights(rest));
    SubSelf(a);
    MulZero(Horner(q, a));
    MulZero(ws[0]);
    AddZero(Dot(second[1..], ws[1..]));
    DotScale(scaled, Values(q, rest), Neg(a), Weights(rest));
  }

  /** Splitting p at one of the end points a (the last one, or the first one) and
      interpolating the quotient over the remaining points gives
      Σ_i p(x_i)·basis_i == p(a)·BasisSum + (p(0) − p(a)). */
  lemma {:induction false} Decompose(xs: seq<Scalar>, cs: seq<Scalar>, atFirst: bool)
    requires Distinct(xs) && |xs| >= 2 && |cs| <= |xs|
    ensures var a := if atFirst then xs[0] else xs[|xs| - 1];
      Interpolate(xs, Values(cs, xs)) == Add(Mul(Horner(cs, a), BasisSum(xs)), Sub(Horner(cs, 0), Horner(cs, a)))
    decreases |xs|, 0
  {
    var k := |xs|;
    var a := if atFirst then xs[0] else xs[k - 1];
    var q := DivLinear(cs, a);
    SplitAt(xs, cs, a);
    var rest := if atFirst then xs[1..] else xs[..k - 1];
    if atFirst {
      TailAtFirst(xs, q);
    } else {
      TailAtLast(xs, q);
    }
    Exactness(rest, q);
    // p(0) = p(a) + (0 − a)·q(0)
    DivLinearSpec(cs, a, 0);
    NegIsSubFromZero(a);
    AddSubInverse(Horner(cs, a), Mul(Neg(a), Horner(q, 0)), Horner(cs, 0));
  }

  /** (s·v)·b == (m·v)·b' whenever s·b == m·b'. */
  lemma Regroup(s: Scalar, v: Scalar, b: Scalar, m: Scalar, b': Scalar)
    requires Mul(s, b) == Mul(m, b')
    ensures Mul(Mul(s, v), b) == Mul(Mul(m, v), b')
  {
    MulComm(s, v);
    MulAssoc(v, s, b);
    MulComm(m, v);
    MulAssoc(v, m, b');
  }

  /** If u·S − u == v·S − v for distinct u and v, then S == 1. */
  lemma SolveForOne(u: Scalar, v: Scalar, s: Scalar)
    requires u != v
    requires Add(Mul(u, s), Sub(0, u)) == Add(Mul(v, s), Sub(0, v))
    ensures s == 1
  {
    AddNegIsSub(Mul(u, s), u);
    AddNegIsSub(Mul(v, s), v);
    MulOne(u);
    MulOne(v);
    MulDistribSub(u, s, 1);
    MulDistribSub(v, s, 1);
    var t := Sub(s, 1);
    assert Mul(u, t) == Mul(v, t);
    MulComm(u, t);
    MulComm(v, t);
    MulDistribSub(t, u, v);
    SubSelf(Mul(u, t));
    NoZeroDivisors(t, Sub(u, v));
    SubZeroIff(u, v);
    SubZeroIff(s, 1);
  }

  lemma AddNegIsSub(a: Scalar, b: Scalar)
    ensures Add(a, Sub(0, b)) == Sub(a, b)
  {
    ModSmall(a);
    ModOfSum(a, 0 - b as int);
  }

  /** Lagrange exactness: for pairwise-distinct points xs and a polynomial with at most
      |xs| coefficients, interpolating its values at xs yields its value at zero. */
  lemma {:induction false} Exactness(xs: seq<Scalar>, cs: seq<Scalar>)
    requires Distinct(xs) && |xs| >= 1 && |cs| <= |xs|
    ensures Interpolate(xs, Values(cs, xs)) == Horner(cs, 0)
    decreases |xs|, 2
  {
    var k := |xs|;
    if k == 1 {
      ExactnessSingle(xs[0], cs);
      assert xs == [xs[0]];
    } else {
      BasisSumIsOne(xs);
      Decompose(xs, cs, false);
      CombineWithOne(Horner(cs, 0), Horner(cs, xs[k - 1]));
    }
  }

  lemma CombineWithOne(p0: Scalar, pa: Scalar)
    ensures Add(Mul(pa, 1), Sub(p0, pa)) == p0
  {
    MulOne(pa);
    AddSubCancel(p0, pa);
    AddComm(pa, Sub(p0, pa));
  }

  /** Exactness for a single point. */
  lemma ExactnessSingle(x: Scalar, cs: seq<Scalar>)
    requires |cs| <= 1
    ensures Distinct([x]) && Interpolate([x], Values(cs, [x])) == Horner(cs, 0)
  {
    SingleBasis(x);
    var ys := Values(cs, [x]);
    DotSingle(ys, Weights([x]));
    MulOne(ys[0]);
    ConstantEverywhere(cs, x);
  }

  /** The basis values of at least two distinct points sum to one: compare both
      splittings of p(x) = x. */
  lemma {:induction false} BasisSumIsOne(xs: seq<Scalar>)
    requires Distinct(xs) && |xs| >= 2
    ensures BasisSum(xs) == 1
    decreases |xs|, 1
  {
    var k := |xs|;
    var ident := [0, 1];
    Decompose(xs, ident, true);
    Decompose(xs, ident, false);
    forall i | 0 <= i < k ensures Values(ident, xs)[i] == xs[i] {
      IdentityPolynomial(xs[i]);
    }
    IdentityPolynomial(0);
    SolveForOne(xs[0], xs[k - 1], BasisSum(xs));
  }

  /** With a single point every product is empty, so the basis value is 1/1 = 1. */
  lemma SingleBasis(x: Scalar)
    ensures Distinct([x]) && Weights([x]) == [1]
  {
    assert [x][..0] == [];
    assert SkipProd([x], 0, 0) == SkipProd([], 0, 0) == 1;
    assert SkipProd([x], 0, x) == SkipProd([], 0, x) == 1;
    assert Numerator([x], 0) == 1 && Denominator([x], 0) == 1;
    MulOne(1);
    InvUnique(1, 1);
    MulOne(Inv(1));
  }

  lemma IdentityPolynomial(x: Scalar)
    ensures Horner([0, 1], x) == x
  {
    HornerOfConstant(1, x);
    assert [0, 1][1..] == [1];
    MulOne(x);
    MulComm(1, x);
    AddZero(x);
  }

  /** A polynomial with at most one coefficient takes the same value everywhere. */
  lemma ConstantEverywhere(cs: seq<Scalar>, x: Scalar)
    requires |cs| <= 1
    ensures Horner(cs, x) == Horner(cs, 0)
  {
    if |cs| == 1 {
      assert cs == [cs[0]];
      HornerOfConstant(cs[0], x);
      HornerOfConstant(cs[0], 0);
    }
  }
}
