# Shamir, Feldman and Pedersen secret sharing over the SM2 scalar field

This project models the core of a small Rust secret-sharing library built on the SM2
curve:

- polynomials over the scalar field, with random construction, Horner evaluation and
  Feldman and Pedersen commitments to their coefficients (`sm2/src/polynomial.rs`);
- dealing n shares with threshold t, with or without commitments, checking a single share
  against the commitments, and reconstructing the secret by Lagrange interpolation at zero
  (`sm2/src/secret_sharing.rs`);
- the plain Shamir pair, which is textually the same code (`sm2/src/share.rs`).

Modules, in dependency order:

- `Field` (`field.dfy`) is the scalar field Z_Q. The modulus `Q` is abstract, and its
  primality is carried by its type. The inverse comes from the extended Euclidean
  algorithm, and the file proves the field laws the other modules use.
- `Group` (`group.dfy`) is the curve group of prime order Q, seen through discrete
  logarithms. A point is its logarithm, point addition is field addition, `P * s` is the
  field product, and the identity is 0.
- `Polynomials` (`polynomial.dfy`) covers `Polynomial::new`, `evaluate`, `feldman_commit`
  and `pedersen_commit`. It also covers the accumulation Σ C_i·x^i that both verifiers run.
- `Lagrange` (`lagrange.dfy`) has the basis values Π_{j≠i} x_j / Π_{j≠i} (x_j − x_i),
  multiplied in the source's order. It proves exactness: for k pairwise-distinct points
  and a polynomial with at most k coefficients, Σ λ_i·p(x_i) == p(0).
- `SecretSharing` (`secret_sharing.dfy`) covers the three dealers, the two verifiers and
  reconstruction. Reconstruction is modelled twice: once as a function, and once as a
  method that mirrors the nested loops.
- `Share` (`share.dfy`) covers the duplicate `generate_shares` / `reconstruct_secret` and
  the scenario of the repository's share test (secret 123456789, n = 5, t = 3).

Randomness is an explicit stream `draws: nat -> Scalar`, in the order the one random
generator is consumed:

- `Polynomial::new(secret, degree, rng)` takes draws 0..degree−1.
- The Pedersen dealer's `pedersen_commit` continues on the same generator. It therefore
  takes draws t−1 .. 2t−2 as blinding factors.

`reconstruct_secret` panics in `denominator.invert().unwrap()` when a denominator is zero.
The model returns `None` for that panic and proves that `None` happens exactly when two
shares carry the same x-coordinate. The generators panic on `t - 1` when t == 0, which the
model turns into `requires 1 <= t`. The code has no typed error results, and the model
follows the code: the unwrap panic is `None`, and the underflow is a precondition.

## Model

| member | source | states |
|---|---|---|
| Field.FromU64 | sm2/src/secret_sharing.rs:13 | `Scalar::from(i as u64)` is i itself below Q, and zero exactly when Q divides i |
| Field.Inv | sm2/src/secret_sharing.rs:41 | every nonzero scalar has a nonzero inverse a⁻¹ with a·a⁻¹ == 1 |
| Field.Invert | sm2/src/secret_sharing.rs:41 | `invert()` yields a value exactly for nonzero input, and that value is an inverse |
| Group.ScalarMulInjective | sm2/src/secret_sharing.rs:109 | for a non-identity point g, g·y == g·y' iff y == y' (what makes a wrong y detectable) |
| Polynomials.New | sm2/src/polynomial.rs:20-29 | exactly degree+1 coefficients: the secret first, then the draws in order |
| Polynomials.NewAtZero | sm2/src/polynomial.rs:20-45 | a new polynomial evaluates to its secret at x = 0 |
| Polynomials.HornerIsPowerSum | sm2/src/polynomial.rs:40-45 | the reverse fold `acc * x + c` from zero equals Σ c_i·x^i for every x |
| Polynomials.Evaluate | sm2/src/polynomial.rs:40-45 | the Horner fold `acc * x + c` from zero over the reversed coefficients, whose value is Σ c_i·x^i (via HornerIsPowerSum) |
| Polynomials.CommitmentAt | sm2/src/secret_sharing.rs:112-115 | the verifiers' accumulation Σ C_i·x^i from the identity in index order; its meaning for Feldman and Pedersen commitments is given by FeldmanHomomorphism and PedersenHomomorphism |
| Polynomials.HornerAtZero | sm2/src/polynomial.rs:40-45 | evaluation at zero returns the constant term |
| Polynomials.FeldmanCommit | sm2/src/polynomial.rs:56-66 | one commitment per coefficient, in order, C_i = g·c_i |
| Polynomials.FeldmanHomomorphism | sm2/tests/polynomial_test.rs:115-140 | for every x, Σ C_i·x^i == g·p(x) |
| Polynomials.PedersenCommit | sm2/src/polynomial.rs:77-101 | commitments and blinding polynomial both as long as the coefficients; r_i is the i-th draw and C_i = g·c_i + h·r_i |
| Polynomials.PedersenHomomorphism | sm2/tests/polynomial_test.rs:41-67 | for every x, Σ C_i·x^i == g·p(x) + h·b(x) with b the returned blinding polynomial |
| Lagrange.Exactness | sm2/src/secret_sharing.rs:22-47 | for k pairwise-distinct x's and a polynomial with at most k coefficients, the interpolation of its values is its value at 0 |
| Lagrange.DenominatorNonZero | sm2/src/secret_sharing.rs:36-41 | with distinct x's no denominator Π_{j≠i}(x_j − x_i) is zero |
| Lagrange.SkipProdZero | sm2/src/secret_sharing.rs:31-39 | the product over j ≠ i of (x_j − c) is zero iff some other x_j equals c |
| SecretSharing.DealerPolynomial | sm2/src/secret_sharing.rs:9 | the dealer polynomial has t coefficients and hides the secret at 0; t ≥ 1 because `t - 1` underflows otherwise |
| SecretSharing.SharesOf | sm2/src/secret_sharing.rs:11-18 | n shares, the k-th with x = k (for n < Q) and y = p(x) |
| SecretSharing.GenerateShares | sm2/src/secret_sharing.rs:7-19 | n shares with x = 1..n (for n < Q) and y = p(x), p built from the secret and the first t−1 draws |
| SecretSharing.GenerateSharesWithFeldmanVss | sm2/src/secret_sharing.rs:62-88 | the same shares as `generate_shares`; t commitments, g·secret first and g·draw_{i−1} at i ≥ 1 |
| SecretSharing.GenerateSharesWithPedersenVss | sm2/src/secret_sharing.rs:135-162 | the same shares as `generate_shares`; a t-coefficient blinding polynomial r made of the t draws after the polynomial's, and t commitments: g·secret + h·r_0 first and g·draw_{i−1} + h·r_i at i ≥ 1 |
| SecretSharing.VerifyFeldman | sm2/src/secret_sharing.rs:101-119 | true iff g·y == Σ C_i·x^i, accumulated from the identity in index order; meaning given by FeldmanVerifyIff |
| SecretSharing.VerifyPedersen | sm2/src/secret_sharing.rs:177-199 | true iff g·y + h·b(x) == Σ C_i·x^i, accumulated from the identity in index order; meaning given by PedersenVerifyIff |
| SecretSharing.FeldmanVerifyIff | sm2/src/secret_sharing.rs:101-119 | against Feldman commitments of p with g ≠ identity, a share verifies iff y == p(x) |
| SecretSharing.FeldmanSharesVerify | sm2/tests/secret_sharing_test.rs:41-46 | every share the Feldman dealer returns verifies |
| SecretSharing.FeldmanTamperFails | sm2/tests/secret_sharing_test.rs:53-59 | with g ≠ identity, a dealt share with y + 1 fails Feldman verification |
| SecretSharing.PedersenVerifyIff | sm2/src/secret_sharing.rs:177-199 | against Pedersen commitments of p and their blinding polynomial, with g ≠ identity, a share verifies iff y == p(x) |
| SecretSharing.PedersenSharesVerify | sm2/tests/secret_sharing_test.rs:83-113 | every share the Pedersen dealer returns satisfies g·y + h·b(x) == Σ C_i·x^i |
| SecretSharing.PedersenTamperFails | sm2/tests/secret_sharing_test.rs:83-113 | with g ≠ identity, a dealt share with y + 1 fails Pedersen verification |
| SecretSharing.Reconstruct | sm2/src/secret_sharing.rs:22-47 | reconstruction fails (the unwrap panic) iff two shares have the same x |
| SecretSharing.ReconstructSecret | sm2/src/secret_sharing.rs:22-47 | the nested loops return None iff some x repeats, and otherwise Σ y_i·Π x_j / Π (x_j − x_i) |
| SecretSharing.RoundTrip | sm2/tests/secret_sharing_test.rs:97-101 | any t or more distinct dealt shares, in any order, reconstruct exactly the secret when n < Q |
| SecretSharing.ReconstructShift | sm2/src/secret_sharing.rs:41-43 | raising one y by 1 shifts the result by that share's Lagrange coefficient |
| SecretSharing.BasisNonZero | sm2/src/secret_sharing.rs:33-41 | with distinct nonzero x's every Lagrange coefficient is nonzero |
| SecretSharing.TamperedSelectionFails | sm2/tests/secret_sharing_test.rs:116-120 | t or more dealt shares with one y raised by 1 do not reconstruct the secret |
| SecretSharing.SingleShare | sm2/src/secret_sharing.rs:26-46 | one share reconstructs to its own y, since both empty products are 1 |
| Share.GenerateShares | sm2/src/share.rs:6-18 | n shares with x = k and y = p(k); the same result as the secret-sharing file's `generate_shares` |
| Share.ReconstructSecret | sm2/src/share.rs:21-46 | None iff some x repeats, otherwise the Lagrange value; the same result as the secret-sharing file's `reconstruct_secret` |
| Share.SingleShare | sm2/src/share.rs:21-46 | a single share reconstructs to its own y; stated over `SecretSharing.Reconstruct`, which `Share.ReconstructSecret` equals |
| Share.Scenario | sm2/tests/secret_sharing.rs:10-28 | secret 123456789 with n = 5 and t = 3: the first three shares give it back |

## Left out

- The concrete SM2 curve and scalar arithmetic are left out. That is the `sm2` crate,
  including the limb encoding of `x.pow(&[i, 0, 0, 0])`. The group is modelled by discrete
  logarithms in an abstract prime-order field.
- Random generation (`Scalar::random`, `thread_rng`, `OsRng`) is left out. Draws are an
  explicit input stream.
- Freshness of two Pedersen commitments to the same polynomial is left out, because it is
  a probabilistic claim.
- Hiding, binding and "fewer than t shares reveal nothing" are left out. They are
  computational or probabilistic security properties.
- `reconstruct_secret` does not know t. With fewer than t shares it returns an unrelated
  value. The model states correctness only for t or more shares and says nothing about
  smaller sets.
- `usize` wrap-around of `t - 1` is not modelled. t = 0 is excluded by a precondition,
  since the subtraction panics in debug builds.
- `Polynomial::coefficients` is not modelled as a separate member. It is the datatype
  field `coefficients`.
- Neither commit operation changes the polynomial. This holds by construction, because
  polynomials are immutable values.
- Test printing and shuffling are left out.
- SecretSharing.RoundTrip: states correctness for n < Q only. Beyond that, `Scalar::from`
  wraps and x-coordinates can repeat or be zero.
