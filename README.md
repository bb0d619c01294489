# kzg-rust: polynomial helpers and aggregatable subvector commitments in Dafny

kzg-rust implements KZG polynomial commitments and an aggregatable subvector commitment
(ASVC, after Tomescu et al., "Aggregatable Subvector Commitments for Stateless
Cryptocurrencies", ePrint 2020/527) over the BLS12-381 pairing. This project models two parts
of it and proves properties of the model:

- the coefficient-vector helpers of `src/utils.rs`:
  - `mul`, a schoolbook product into a zeroed buffer;
  - `div`, long division with trailing-zero popping;
  - `evaluate`, a power sum;
  - `interpolate`, a double loop over the points.

  Each is an imperative method with its loops. `mul` and `evaluate` are proved against the
  specification functions `Polynomial.Conv` and `Polynomial.Eval`. `div` is proved against
  the quotient/remainder decomposition, which is shown to be unique. `interpolate` is proved
  against `Utils.InterpolationCoeffs`, the per-point values it actually computes.
- the ASVC of `src/asvc.rs`:
  - the key structs (`CRS`, `UpdateKey`, `ProvingKey`, `VerificationKey`, `ASVC`) as datatypes;
  - `key_gen`, `vector_commit`, `prove_position`, `verify_position` and `aggregate_proofs` as
    methods that follow the code's loops and arrays.

Modules:

- `Field`: the BLS12-381 scalar field, `Fe = 0 <= x < P`. It has the `as u32` cast and the
  extended-Euclid inverse, whose contract is an if-and-only-if.
- `Polynomial`: coefficient vectors. It covers:
  - sum, scaling, convolution and evaluation;
  - X^n - 1 and its quotient by X - w;
  - products of linear factors;
  - the formal derivative;
  - the uniqueness of division.
- `Group`: G1, G2 and the target group in the exponent representation. An element is its
  discrete logarithm, so scalar multiplication and the pairing are field products and addition
  is field addition. Commitments are multi-scalar sums.
- `Utils`: `src/utils.rs`.
- `Asvc`: `src/asvc.rs`.

The ASVC code is modelled as written, not as the paper describes it:

- The denominator's first root is `omega^indices[0]`. Its other roots are `omega^i` for the
  loop counter `i = 1 .. |indices|-1`, not `omega^indices[i]` (`FactorRoots`).
- The root of unity comes from the length of the zero vector each call site builds: `degree`,
  `vector.len()`, `subvector.len()` or `indices.len()`.
- `interpolate` returns `values[i] * L_i(0)` for each point, not the coefficients of the
  interpolating polynomial (`Utils.InterpolationCoeffs`).
- `prove_position` interpolates over the integers `0 .. n-1` and discards the remainder of
  its division.

The model states what each operation computes, including these quirks. It does not claim that
proofs verify end to end.

## Model

| member | source | states |
|---|---|---|
| Utils.Multiply | src/utils.rs:4-14 | The accumulated buffer is the convolution of the two coefficient vectors, so it evaluates to the product of their values (Polynomial.EvalConv). |
| Utils.Divide | src/utils.rs:17-45 | It fails exactly when the divisor is empty or all zero, with the source's message. A shorter dividend gives `[0]`. Otherwise the dividend is quotient * divisor + remainder, with a trimmed remainder shorter than the divisor. An exact division leaves an empty remainder, which also means the quotient is the unique one. |
| Utils.DivisionOutcome | src/utils.rs:29-44 | When the long-division loop stops, its coefficient-wise invariant gives the polynomial decomposition. Any exact quotient equals the computed one. |
| Utils.SubtractShifted | src/utils.rs:35-37 | Each coefficient from `pos` on has the divisor times `coeff` subtracted. The rest are unchanged. |
| Utils.PopZeros | src/utils.rs:39-41 | The result is trimmed and has the same coefficients. It is strictly shorter when the top coefficient was zero, which makes the division loop terminate. |
| Utils.DivStepCoeff | src/utils.rs:30-37 | One division step keeps every coefficient of quotient * divisor + remainder. |
| Utils.Evaluate | src/utils.rs:48-56 | The loop computes the polynomial's value at the point. |
| Utils.InterpolationCoeffs | src/utils.rs:64-80 | The result vector has one entry per point. Entry i times the product of (points[i] - points[j]) equals values[i] times the product of (-points[j]), over j != i. |
| Utils.InterpolationCoeffsMeaning | src/utils.rs:79 | Any vector with entries values[i] * L_i(0) satisfies that defining identity. |
| Utils.Interpolate | src/utils.rs:59-83 | It fails exactly when the lengths differ, with the source's message. Otherwise its result is `InterpolationCoeffs`. |
| Utils.PointCoeff | src/utils.rs:67-79 | Entry i is values[i] * L_i(0), the numerator times the inverse of the denominator. |
| Utils.PointFactors | src/utils.rs:66-77 | The inner loop skips j == i. It yields the product of (-points[j]) and the product of (points[i] - points[j]). |
| Utils.LagrangeAtZeroMeaning | src/utils.rs:79 | L_i(0) times the denominator of point i is its numerator. |
| Utils.DuplicatePointUndefined | src/utils.rs:76-79 | Two equal points make a denominator zero, so the `inverse().unwrap()` panics. |
| Field.FromU32 | src/asvc.rs:73 | `E::ScalarField::from(n as u32)` is n itself in the field whenever n < 2^32. |
| Field.Inverse | src/utils.rs:79 | A returned inverse multiplies to 1. No inverse is returned only when no field element multiplies to 1. |
| Field.InverseExists | src/utils.rs:79 | `inverse()` succeeds if and only if the element is invertible. |
| Field.DivMul | src/utils.rs:30 | Field division by an invertible element undoes multiplication. |
| Field.CancelInvertible | src/utils.rs:30 | A product with an invertible factor is zero only when the other factor is zero. Division by the divisor's leading coefficient relies on this for uniqueness, and so does the Lagrange basis (src/asvc.rs:71-74). |
| Field.InverseUnique | src/utils.rs:79 | An element that multiplies a to 1 is exactly what `inverse()` returns. |
| Field.Div | src/asvc.rs:73 | `a.div(b)`, the product of a with the inverse of b, for an invertible b (Field.DivMul). The same `/` appears at src/utils.rs:30. |
| Field.RootPower | src/asvc.rs:67 | Every power of an n-th root of unity is an n-th root of unity. |
| Polynomial.EvalConv | src/utils.rs:4-14 | Evaluation turns the convolution into the product of values. |
| Polynomial.EvalAdd | src/asvc.rs:146 | Evaluation distributes over coefficient-wise sums. This turns the division identity into values. |
| Polynomial.EvalDecrementConstant | src/asvc.rs:77-78 | Lowering the constant coefficient by one lowers every value by one, so l_i - 1 takes the values of l_i minus 1. |
| Polynomial.Scale | src/asvc.rs:71-74 | `scalar_mul`: every coefficient multiplied by the scalar. |
| Polynomial.VanishingPoly | src/asvc.rs:62-64 | The coefficient vector of X^n - 1 that `ai_numerator` holds: -1 at 0, 1 at n, zeros between. |
| Polynomial.Derivative | src/asvc.rs:205-208 | The formal derivative with the `i as u32` cast: coefficient i-1 is p[i] times i truncated to 32 bits. |
| Polynomial.EvalScale | src/asvc.rs:71-74 | Evaluation commutes with `scalar_mul`. |
| Polynomial.DivisionUnique | src/utils.rs:17-45 | Two decompositions of one dividend, with trimmed remainders shorter than a divisor whose leading coefficient is invertible, agree in quotient and remainder. |
| Polynomial.TrimmedUnique | src/utils.rs:39-41 | Two trimmed vectors with the same coefficients are equal. |
| Polynomial.VanishingFactorization | src/asvc.rs:61-68 | For an n-th root of unity w, X^n - 1 is exactly the geometric sum 1 + wX + ... times X - w. |
| Polynomial.VanishingPolyEval | src/asvc.rs:49-50 | X^n - 1 evaluates to x^n - 1. |
| Polynomial.VanishingQuotientEval | src/asvc.rs:70-74 | The quotient (X^n - 1)/(X - w) takes the value n * w^(n-1) at w. For w = omega^i that is n * omega^(-i), not the n * (w^i) that the comment at line 70 writes. Scaling by w / n, as the code does, therefore gives l_i(w) = 1 (Asvc.LagrangeBasisAtOwnPoint). |
| Polynomial.LinearProductShape | src/asvc.rs:140-143 | A product of k linear factors has k + 1 coefficients, with leading coefficient 1. |
| Polynomial.LinearProductEval | src/asvc.rs:140-143 | The product of linear factors evaluates to the product of (x - root). |
| Polynomial.LinearProductVanishes | src/asvc.rs:138-143 | The product of linear factors vanishes at each of its roots. |
| Polynomial.LeibnizRule | src/asvc.rs:205-208 | The coefficient-wise derivative satisfies (f(X - r))' = f'(X - r) + f. |
| Polynomial.DerivativeOfLinearProduct | src/asvc.rs:205-211 | The derivative of a product of linear factors, at x, is the sum over factors of the product of the others. |
| Polynomial.DerivativeAtRoot | src/asvc.rs:205-211 | At root k, that derivative is the product of the differences to the other roots. |
| Group.Pairing | src/asvc.rs:187-188 | `E::pairing` in the exponent model: the product of the two discrete logarithms, which is bilinear. |
| Group.Msm | src/asvc.rs:125-128 | The commitment loops and folds: the sum of bases[k] * scalars[k] for k < n, added from the identity. |
| Group.ZipCommit | src/asvc.rs:82-92 | The `zip`/`map`/`fold` commitment, which stops at the shorter of the reference string and the polynomial. |
| Group.CommitIsEvaluation | src/asvc.rs:82-92 | Committing a polynomial against a reference string of powers g * s^k, by a fold or a zip, gives g times the polynomial's value at s. |
| Group.MsmAdd | src/asvc.rs:126-128 | A commitment is additive in the committed scalars. |
| Group.MsmScale | src/asvc.rs:126-128 | A commitment is homogeneous in the committed scalars. |
| Asvc.Crs | src/asvc.rs:9-12 | `CRS`: the reference strings in G1 and G2. |
| Asvc.UpdateKey | src/asvc.rs:16-19 | `UpdateKey`: the a_i and u_i commitments. |
| Asvc.ProvingKey | src/asvc.rs:21-25 | `ProvingKey`: the reference string, the update key and the l_i commitments. |
| Asvc.VerificationKey | src/asvc.rs:27-30 | `VerificationKey`: the reference string and the commitment to X^n - 1. |
| Asvc.Asvc | src/asvc.rs:32-37 | `ASVC`: the degree and the three keys. |
| Asvc.LagrangeBasis | src/asvc.rs:70-74 | l_i as key generation builds it: the quotient (X^n - 1)/(X - w) scaled by w / (n as u32). |
| Asvc.UiNumerator | src/asvc.rs:77-78 | `ui_numerator`: l_i with its constant coefficient lowered by 1. |
| Asvc.DividedByLinear | src/utils.rs:17-45 | The outcome of `div(num, [-w, 1])`: `[0]` for a dividend shorter than 2. Otherwise a quotient of \|num\| - 1 coefficients and a trimmed remainder shorter than 2 that decompose the dividend. |
| Asvc.DividedByLinearUnique | src/asvc.rs:68-79 | That outcome is unique, so each `div` of key generation has exactly one possible result. |
| Asvc.SlotKeys | src/asvc.rs:82-92 | The keys of slot i against the reference string of powers (see Asvc.IndexKeys). |
| Asvc.SlotKeysUnique | src/asvc.rs:82-92 | The slot keys are determined by g1, the secret, n and w. No commitment is left free, even when the secret equals w. |
| Asvc.FactorRoots | src/asvc.rs:140-142 | The roots of the denominator: omega^indices[0] first, then omega^i for the loop counter i = 1 .. \|indices\| - 1. |
| Asvc.IntegerPoints | src/asvc.rs:135 | The interpolation points of `prove_position`: `i as u32` for i < \|vector\|. |
| Asvc.IndexPoints | src/asvc.rs:177 | The interpolation points of `verify_position`: `indices[k] as u32`. |
| Asvc.WeightsAt | src/asvc.rs:210-211 | The sum's scalars: a polynomial evaluated at omega^indices[k], one per proof. |
| Asvc.AggregationWeights | src/asvc.rs:198-211 | The weights of `aggregate_proofs`: the derivative of the denominator at omega^indices[k]. |
| Asvc.ReferenceString | src/asvc.rs:42-47 | Both reference strings have degree + 1 entries. Entry k is g1 * s^k, respectively g2 * s^k. |
| Asvc.KeyGen | src/asvc.rs:40-117 | The proving and verification keys share the reference string, and the update key is shared. The reference strings are powers of the secret. The commitment to X^n - 1 is g1 * (s^n - 1). There is one a_i, l_i and u_i per slot. When omega is an n-th root of unity, the keys of every slot i are those of `SlotKeys` at omega^i. |
| Asvc.SlotCommitments | src/asvc.rs:53-93 | One key of each kind per slot. When omega is an n-th root of unity, slot i holds `SlotKeys` at omega^i. |
| Asvc.IndexKeys | src/asvc.rs:65-93 | For an n-th root of unity w, the three fold commitments satisfy the following. a_i commits to (X^n - 1)/(X - w), so a_i * (s - w) = g1 * (s^n - 1). l_i commits to the Lagrange basis polynomial. u_i commits to the outcome of `div(l_i - 1, X - w)`, and u_i * (s - w) = l_i - g1, so u_i opens l_i at w to 1. |
| Asvc.KeyPolynomials | src/asvc.rs:67-79 | a_i has n coefficients and, for an n-th root of unity, is the geometric quotient. l_i is a_i scaled by w / n. u_i is the quotient of l_i - 1 by X - w, with a remainder shorter than 2. |
| Asvc.UiDivisionExact | src/asvc.rs:77-79 | For an n-th root of unity w and 2 <= n < 2^32, `div(l_i - 1, X - w)` leaves no remainder: u_i * (X - w) = l_i - 1. |
| Asvc.AiQuotient | src/asvc.rs:67-68 | For an n-th root of unity, `div(X^n - 1, X - w)` is the geometric sum and leaves no remainder. |
| Asvc.DivideByLinear | src/asvc.rs:67-79 | Division by `[-w, 1]` always succeeds with the shape and decomposition of `div`. |
| Asvc.DivideByMonic | src/asvc.rs:146 | Division by a monic denominator always succeeds, so `unwrap` cannot panic. |
| Asvc.LagrangeBasisAtOwnPoint | src/asvc.rs:70-74 | l_i, as key generation builds it, takes the value 1 at w = omega^i. |
| Asvc.LagrangeBasisAtOtherPoint | src/asvc.rs:70-74 | l_i vanishes at every other n-th root of unity x with x - w invertible. |
| Asvc.ExactLinearDivision | src/asvc.rs:76-79 | Dividing a polynomial that vanishes at w by X - w leaves no remainder. The quotient times (x - w) evaluates like the dividend. |
| Asvc.UiQuotient | src/asvc.rs:76-79 | For both outcomes of `div`, u_i(x) * (x - w) = l_i(x) - 1. |
| Asvc.SlotKeysFromPolynomials | src/asvc.rs:82-92 | The commitments to the three key polynomials are the slot keys described above. |
| Asvc.VectorCommit | src/asvc.rs:120-130 | The commitment is the sum of l_i * vector[i]. With Group.MsmAdd and Group.MsmScale it is linear in the vector. |
| Asvc.Denominator | src/asvc.rs:139-143 | The product of X - r over the roots of `FactorRoots`, of length \|indices\| + 1, with leading coefficient 1. |
| Asvc.Commit | src/asvc.rs:171-174 | The commitment loop from `g[0] * 0` is the multi-scalar sum of the scalars against the bases. |
| Asvc.CommitQuotient | src/asvc.rs:147-150 | The proof loop that starts at `g1[0] * quotient[0]` is the multi-scalar sum over the whole quotient. |
| Asvc.DivisionInValues | src/asvc.rs:146 | At every point, numerator = quotient * denominator + the discarded remainder, whichever outcome `div` takes. |
| Asvc.ProvePosition | src/asvc.rs:133-153 | The numerator is the interpolation over 0..n-1 and the denominator is the product of `FactorRoots` at omega from \|vector\|. The numerator decomposes as quotient * denominator + remainder, with the remainder shorter. pi commits to the quotient, within the reference string. A vector no longer than the indices always gets the identity as its proof. |
| Asvc.PairingCheckInExponent | src/asvc.rs:187-189 | Against reference strings of powers, the pairing equation holds if and only if pi * D(s) * h = (C - g * R(s)) * h. |
| Asvc.VerifyPosition | src/asvc.rs:156-190 | The result is true exactly when e(pi, [D]_2) = e(C - [R]_1, g2[0]). Here D is the denominator at omega from \|subvector\|, and R interpolates the subvector over its indices. |
| Asvc.AggregateProofs | src/asvc.rs:193-215 | The result is the sum of proofs[k] times A'(omega^indices[k]), where A' is the formal derivative of the denominator. |
| Asvc.AggregationWeightSum | src/asvc.rs:205-212 | Weight k is the sum over the denominator's factors of the product of the others at omega^indices[k]. |
| Asvc.AggregationWeightAtRoot | src/asvc.rs:205-212 | Where omega^indices[k] is itself a root of the denominator (always for k = 0), weight k is the product of its differences to the other roots. |

## Left out

- `src/main.rs`, the demonstration driver, and `src/kzg.rs`, the single-polynomial KZG scheme, are not part of this model.
- Elliptic-curve arithmetic and the BLS12-381 pairing: groups are modelled in the exponent representation, so the model says nothing about the hardness assumptions or the security of the scheme.
- The update of commitments and proofs is not implemented by the source (`src/asvc.rs:217`), so it is not modelled.
- `get_omega`, `scalar_mul` and the arkworks field and group types are not part of this model. The root of unity is the parameter `getOmega`, applied to the length each call site passes. `scalar_mul` is coefficient-wise scaling. Randomness and the secret come in as parameters.
- The primality of the field modulus is not proved. Where the source divides or inverts (`src/utils.rs:30`, `src/utils.rs:79`, `src/asvc.rs:73`), the model requires the element to be invertible. That is exactly the condition under which the source does not panic.
- Panics become preconditions. These are the `assert_eq!`s at `src/asvc.rs:122` and `src/asvc.rs:195`, the `unwrap`s of `interpolate`, out-of-bounds indexing of `indices[0]` and of the reference strings, and the `usize` underflow of `mul` on two empty vectors.
- Asvc.KeyGen: the opening property u_i * (s - w) = l_i - g1 is stated only for degree < 2^32, because `degree as u32` truncates above that. The u_i commitment itself is pinned for every degree.
- Asvc.SlotCommitments: the opening property u_i * (s - w) = l_i - g1 is stated only for degree < 2^32, because `degree as u32` truncates above that. The u_i commitment itself is pinned for every degree.
- Asvc.IndexKeys: the opening property u_i * (s - w) = l_i - g1 is stated only for degree < 2^32, because `degree as u32` truncates above that. The u_i commitment itself is pinned for every degree.
- Asvc.SlotKeysFromPolynomials: the opening property u_i * (s - w) = l_i - g1 is stated only for degree < 2^32, because `degree as u32` truncates above that. The u_i commitment itself is pinned for every degree.
- Asvc.LagrangeBasisAtOwnPoint: holds only for n < 2^32, where `n as u32` is n.
- Asvc.AggregationWeightSum: holds only for fewer than 2^32 indices, where the `i as u32` factors of the derivative are exact.
- Asvc.ProvePosition: does not state that the proof passes `verify_position`. The as-written code interpolates each side differently and uses loop-counter roots, so no such promise holds in general. Its contract gives the pieces (the decomposition, the commitment) from which the pairing equation can be computed.
- Utils.InterpolationCoeffs: states what `interpolate` computes, `values[i] * L_i(0)` per point. It does not claim that this is the interpolating polynomial, which it is not in general.
- `u64` exponents in `pow` are exact because every exponent is a `usize` index. Field exponentiation is `Field.Pow` on naturals.
