/** The plain Shamir pair of the `share` source file: share generation and
    reconstruction without commitments. Its two functions are written out exactly as the
    corresponding ones of the secret-sharing file, so here they are defined through them
    and their contracts restate what a caller of this file may rely on. */
module Share {
  import opened Field
  import opened Polynomials
  import opened Lagrange
  import SS = SecretSharing

  /** `generate_shares`: n shares (k, p(k)), k = 1..n, of the polynomial with constant term
      `secret` and the first t − 1 draws as higher coefficients; the same result as the
      secret-sharing file's `generate_shares` on the same draws. */
  function GenerateShares(secret: Scalar, n: nat, t: nat, draws: nat -> Scalar): (shares: seq<SS.Share>)
    requires 1 <= t
    ensures |shares| == n
    ensures forall k :: 0 <= k < n ==>
      shares[k].x == FromU64(k + 1) && shares[k].y == Evaluate(New(secret, t - 1, draws), FromU64(k + 1))
    ensures shares == SS.GenerateShares(secret, n, t, draws)
  {
    SS.SharesOf(Polynomials.New(secret, t - 1, draws), n)
  }

  /** `reconstruct_secret`: None (the panic) exactly when two shares share an x;
      otherwise the Lagrange interpolation at zero, as in the secret-sharing file. */
  method ReconstructSecret(shares: seq<SS.Share>) returns (r: Option<Scalar>)
    ensures r.None? <==> SS.HasRepeatedX(shares)
    ensures r.Some? ==> r.value == Interpolate(SS.Xs(shares), SS.Ys(shares))
    ensures r == SS.Reconstruct(shares)
  {
    r := SS.ReconstructSecret(shares);
  }

  /** A single share reconstructs to its own y. Stated over `SS.Reconstruct`, which
      `ReconstructSecret` above is proved equal to. */
  lemma SingleShare(x: Scalar, y: Scalar)
    ensures SS.Reconstruct([SS.Share(x, y)]) == Some(y)
  {
    SS.SingleShare(SS.Share(x, y));
  }

  /** The worked scenario: secret 123456789 split into five shares with threshold three;
      the first three shares give the secret back. */
  lemma Scenario(draws: nat -> Scalar)
    requires 5 < Q
    ensures var secret := FromU64(123456789);
      SS.Reconstruct(GenerateShares(secret, 5, 3, draws)[..3]) == Some(secret)
  {
    var secret := FromU64(123456789);
    var shares := GenerateShares(secret, 5, 3, draws);
    var idx: seq<nat> := [0, 1, 2];
    assert SS.Select(shares, idx) == shares[..3];
    SS.RoundTrip(secret, 5, 3, draws, idx);
  }
}
