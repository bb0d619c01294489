/** The aggregatable subvector commitment of src/asvc.rs, after Tomescu et al., "Aggregatable
    Subvector Commitments for Stateless Cryptocurrencies" (ePrint 2020/527). It is modelled as the
    code is written: the denominators take their roots from the loop counter, the root of unity
    comes from the length the code passes, interpolation runs over the integers 0..n, and the
    remainder of the division in `prove_position` is dropped.

    The root of unity helper (`get_omega`) is not part of this model: it is the parameter
    `getOmega`, applied to the length of the zero vector each call site builds. `scalar_mul` is
    coefficient-wise scaling (Polynomial.Scale). */
module Asvc {
  import opened Field
  import opened Polynomial
  import opened Group
  import Utils

  datatype Crs = Crs(g1: seq<G1>, g2: seq<G2>)

  datatype UpdateKey = UpdateKey(aiCommitment: seq<G1>, uiCommitment: seq<G1>)

  datatype ProvingKey = ProvingKey(crs: Crs, updateKey: UpdateKey, liCommitment: seq<G1>)

  datatype VerificationKey = VerificationKey(crs: Crs, aCommitment: G1)

  datatype Asvc = Asvc(degree: nat, updateKey: UpdateKey, provingKey: ProvingKey,
                       verificationKey: VerificationKey)

  /** Indices at or above this bound are truncated by the `as u32` casts. */
  const U32_LIMIT: nat := 0x1_0000_0000

  // =============================================================================================
  // The polynomials the scheme builds

  /** l_i as key generation builds it: the quotient (X^n - 1) / (X - w) scaled by w / n. */
  function LagrangeBasis(n: nat, w: Fe): Poly
    requires Invertible(FromU32(n))
  {
    Scale(VanishingQuotient(n, w), Div(w, FromU32(n)))
  }

  /** The roots of the shared denominator: omega^indices[0] first, then omega^k for the loop
      counter k = 1 .. |indices| - 1. */
  function FactorRoots(omega: Fe, indices: seq<nat>): seq<Fe>
    requires |indices| >= 1
  {
    seq(|indices|, k requires 0 <= k < |indices| => if k == 0 then Pow(omega, indices[0]) else Pow(omega, k))
  }

  /** The interpolation points of `prove_position`: `i as u32` for i = 0 .. n - 1. */
  function IntegerPoints(n: nat): seq<Fe>
  {
    seq(n, i requires 0 <= i < n => FromU32(i))
  }

  /** The interpolation points of `verify_position`: `indices[k] as u32`. */
  function IndexPoints(indices: seq<nat>): seq<Fe>
  {
    seq(|indices|, k requires 0 <= k < |indices| => FromU32(indices[k]))
  }

  /** The scalars of the sum in `aggregate_proofs`: the polynomial d at omega^indices[k]. */
  function WeightsAt(d: Poly, omega: Fe, indices: seq<nat>): seq<Fe>
  {
    seq(|indices|, k requires 0 <= k < |indices| => Eval(d, Pow(omega, indices[k])))
  }

  /** The weight of proof k in `aggregate_proofs`: the derivative of the denominator at
      omega^indices[k]. */
  function AggregationWeights(omega: Fe, indices: seq<nat>): seq<Fe>
    requires |indices| >= 1
  {
    var roots := FactorRoots(omega, indices);
    LinearProductShape(roots);
    WeightsAt(Derivative(LinearProduct(roots)), omega, indices)
  }

  // =============================================================================================
  // Properties of the Lagrange basis of key generation

  /** l_i is 1 at its own point w = omega^i, provided n fits the `as u32` cast. */
  lemma LagrangeBasisAtOwnPoint(n: nat, w: Fe)
    requires 1 <= n < U32_LIMIT && Invertible(FromU32(n)) && Pow(w, n) == 1
    ensures Eval(LagrangeBasis(n, w), w) == 1
  {
    var c, m := Div(w, FromU32(n)), Pow(w, n - 1);
    EvalScale(VanishingQuotient(n, w), c, w);
    VanishingQuotientEval(n, w);
    calc {
      Mul(c, Mul(FromNat(n), m));
      { MulAssoc(c, FromNat(n), m); }
      Mul(Mul(c, FromNat(n)), m);
      { DivMul(w, FromU32(n)); }
      Mul(w, m);
      { MulComm(w, m); }
      Pow(w, n);
    }
  }

  /** l_i is 0 at every other n-th root of unity x whose difference to w is invertible. */
  lemma LagrangeBasisAtOtherPoint(n: nat, w: Fe, x: Fe)
    requires n >= 1 && Invertible(FromU32(n)) && Pow(w, n) == 1 && Pow(x, n) == 1
    requires Invertible(Sub(x, w))
    ensures Eval(LagrangeBasis(n, w), x) == 0
  {
    var q := VanishingQuotient(n, w);
    VanishingFactorization(n, w);
    EvalConv(q, Linear(w), x);
    EvalLinear(w, x);
    VanishingPolyEval(n, x);
    CancelInvertible(Eval(q, x), Sub(x, w));
    EvalScale(q, Div(w, FromU32(n)), x);
    MulZero(Div(w, FromU32(n)));
  }

  /** Dividing a polynomial that vanishes at w by X - w leaves no remainder. */
  lemma ExactLinearDivision(num: Poly, w: Fe, q: Poly, rem: Poly, x: Fe)
    requires num == PolyAdd(Conv(q, Linear(w)), rem) && |rem| < 2 && Trimmed(rem)
    requires Eval(num, w) == 0
    ensures rem == []
    ensures Eval(num, x) == Mul(Eval(q, x), Sub(x, w))
  {
    var L := Linear(w);
    EvalAdd(Conv(q, L), rem, w);
    EvalConv(q, L, w);
    EvalLinear(w, w);
    MulZero(Eval(q, w));
    ShortRemainderVanishes(rem, w);
    EvalAdd(Conv(q, L), rem, x);
    EvalConv(q, L, x);
    EvalLinear(w, x);
  }

  /** The outcome of `div(num, &vec![-w, 1])`: `[0]` for a dividend shorter than the divisor,
      otherwise a quotient of |num| - 1 coefficients and a trimmed remainder of degree below 1
      with num == q * (X - w) + rem. */
  ghost predicate DividedByLinear(num: Poly, w: Fe, q: Poly, rem: Poly)
  {
    && (|num| < 2 ==> q == [0])
    && (|num| >= 2 ==> |q| == |num| - 1 && num == PolyAdd(Conv(q, Linear(w)), rem) && |rem| < 2 && Trimmed(rem))
  }

  /** The outcome of the division by X - w is unique: `div` has no choice to make. */
  lemma DividedByLinearUnique(num: Poly, w: Fe, q1: Poly, r1: Poly, q2: Poly, r2: Poly)
    requires DividedByLinear(num, w, q1, r1) && DividedByLinear(num, w, q2, r2)
    ensures q1 == q2
    ensures |num| >= 2 ==> r1 == r2
  {
    if |num| >= 2 {
      OneIsInvertible();
      assert Linear(w)[|Linear(w)| - 1] == 1;
      DivisionUnique(num, Linear(w), q1, r1, q2, r2);
    }
  }

  /** What the ui quotient of key generation satisfies, in both outcomes of `div`. */
  lemma UiQuotient(num: Poly, w: Fe, q: Poly, rem: Poly, x: Fe)
    requires |num| >= 1 && Eval(num, w) == 0
    requires DividedByLinear(num, w, q, rem)
    ensures Mul(Eval(q, x), Sub(x, w)) == Eval(num, x)
  {
    if |num| >= 2 {
      ExactLinearDivision(num, w, q, rem, x);
    } else {
      EvalLengthOne(num, w);
      EvalLengthOne(num, x);
      EvalSingle(0, x);
      MulZero(Sub(x, w));
    }
  }

  // =============================================================================================
  // Key generation

  /** The `div(..).unwrap()` of key generation and `prove_position`: a monic denominator is not the zero polynomial
      and its leading coefficient is invertible, so the division succeeds. */
  method DivideByMonic(num: Poly, den: Poly) returns (q: Poly, ghost rem: Poly)
    requires |den| >= 1 && den[|den| - 1] == 1
    ensures |num| < |den| ==> q == [0]
    ensures |num| >= |den| ==>
      |q| == |num| - |den| + 1 && num == PolyAdd(Conv(q, den), rem) && |rem| < |den| && Trimmed(rem)
  {
    OneIsInvertible();
    InvertibleLeadNotZero(den);
    var divided;
    divided, rem := Utils.Divide(num, den);
    q := divided.value;
  }


  /** The numerator l_i - 1 of the u_i division: the Lagrange basis with its constant lowered. */
  function UiNumerator(n: nat, w: Fe): Poly
    requires n >= 1 && Invertible(FromU32(n))
  {
    var l := LagrangeBasis(n, w);
    l[0 := Sub(l[0], 1)]
  }

  /** The keys of slot i of key generation in the exponent model, with w = omega^i: a_i commits
      to (X^n - 1) / (X - w), so a_i * (s - w) is the commitment to X^n - 1; l_i commits to the
      Lagrange basis polynomial; u_i commits to the outcome of dividing l_i - 1 by X - w (unique,
      by DividedByLinearUnique), and so opens l_i at w to 1. */
  ghost predicate SlotKeys(g1: G1, secret: Fe, n: nat, w: Fe, a: G1, l: G1, u: G1)
    requires n >= 1 && Invertible(FromU32(n))
  {
    && a == Mul(g1, Eval(VanishingQuotient(n, w), secret))
    && Mul(a, Sub(secret, w)) == Mul(g1, Sub(Pow(secret, n), 1))
    && l == Mul(g1, Eval(LagrangeBasis(n, w), secret))
    && (exists q: Poly, rem: Poly :: DividedByLinear(UiNumerator(n, w), w, q, rem) && u == Mul(g1, Eval(q, secret)))
    && (n < U32_LIMIT ==> Mul(u, Sub(secret, w)) == Sub(l, g1))
  }

  /** The slot keys are determined by the generator, the secret, n and w. */
  lemma SlotKeysUnique(g1: G1, secret: Fe, n: nat, w: Fe, a1: G1, l1: G1, u1: G1, a2: G1, l2: G1, u2: G1)
    requires n >= 1 && Invertible(FromU32(n))
    requires SlotKeys(g1, secret, n, w, a1, l1, u1) && SlotKeys(g1, secret, n, w, a2, l2, u2)
    ensures a1 == a2 && l1 == l2 && u1 == u2
  {
    var num := UiNumerator(n, w);
    var q1, r1 :| DividedByLinear(num, w, q1, r1) && u1 == Mul(g1, Eval(q1, secret));
    var q2, r2 :| DividedByLinear(num, w, q2, r2) && u2 == Mul(g1, Eval(q2, secret));
    DividedByLinearUnique(num, w, q1, r1, q2, r2);
  }

  /** The quotient of X^n - 1 by X - w, for an n-th root of unity w, is the geometric sum
      VanishingQuotient(n, w), with no remainder, because division is unique. */
  lemma AiQuotient(n: nat, w: Fe, ai: Poly, rem: Poly)
    requires n >= 1 && Pow(w, n) == 1
    requires |ai| == n && VanishingPoly(n) == PolyAdd(Conv(ai, Linear(w)), rem)
    requires |rem| < 2 && Trimmed(rem)
    ensures ai == VanishingQuotient(n, w) && rem == []
  {
    VanishingFactorization(n, w);
    PolyAddEmpty(Conv(VanishingQuotient(n, w), Linear(w)));
    OneIsInvertible();
    DivisionUnique(VanishingPoly(n), Linear(w), ai, rem, VanishingQuotient(n, w), []);
  }

  /** The slot keys follow from the three key polynomials: a_i from the quotient, l_i from its
      scaling, u_i from the quotient of l_i - 1 by X - w. */
  lemma SlotKeysFromPolynomials(crsG1: seq<G1>, g1: G1, secret: Fe, n: nat, w: Fe,
                                li: Poly, ui: Poly, uiRem: Poly)
    requires n >= 1 && Invertible(FromU32(n)) && Pow(w, n) == 1
    requires |crsG1| == n + 1 && Powers(crsG1, g1, secret)
    requires li == Scale(VanishingQuotient(n, w), Div(w, FromU32(n)))
    requires DividedByLinear(li[0 := Sub(li[0], 1)], w, ui, uiRem)
    ensures SlotKeys(g1, secret, n, w, ZipCommit(crsG1, VanishingQuotient(n, w)), ZipCommit(crsG1, li),
                     ZipCommit(crsG1, ui))
  {
    var vq := VanishingQuotient(n, w);
    CommitIsEvaluation(crsG1, g1, secret, vq);
    CommitIsEvaluation(crsG1, g1, secret, li);
    CommitIsEvaluation(crsG1, g1, secret, ui);
    VanishingFactorization(n, w);
    EvalConv(vq, Linear(w), secret);
    EvalLinear(w, secret);
    VanishingPolyEval(n, secret);
    MulAssoc(g1, Eval(vq, secret), Sub(secret, w));
    assert li == LagrangeBasis(n, w);
    assert DividedByLinear(UiNumerator(n, w), w, ui, uiRem) && ZipCommit(crsG1, ui) == Mul(g1, Eval(ui, secret));
    if n < U32_LIMIT {
      var num := li[0 := Sub(li[0], 1)];
      LagrangeBasisAtOwnPoint(n, w);
      EvalDecrementConstant(li, w);
      EvalDecrementConstant(li, secret);
      UiQuotient(num, w, ui, uiRem, secret);
      MulAssoc(g1, Eval(ui, secret), Sub(secret, w));
      MulSubDistr(g1, Eval(li, secret), 1);
      MulOne(g1);
    }
  }

  /** The `div(.., &vec![-w, 1]).unwrap()` calls of key generation, by the monic X - w. */
  method DivideByLinear(num: Poly, w: Fe) returns (q: Poly, ghost rem: Poly)
    ensures DividedByLinear(num, w, q, rem)
  {
    var denominator := Linear(w);
    q, rem := DivideByMonic(num, denominator);
  }

  /** The polynomials of the index loop of `key_gen` for the point w: a_i is the quotient of the
      numerator by X - w, l_i its scaling by w / n, and u_i the quotient of l_i - 1 by X - w. */
  method KeyPolynomials(numerator: Poly, degree: nat, w: Fe)
    returns (ai: Poly, li: Poly, ui: Poly, ghost uiRem: Poly)
    requires degree >= 1 && Invertible(FromU32(degree))
    requires numerator == VanishingPoly(degree)
    ensures |ai| == degree && (Pow(w, degree) == 1 ==> ai == VanishingQuotient(degree, w))
    ensures li == Scale(ai, Div(w, FromU32(degree)))
    ensures DividedByLinear(li[0 := Sub(li[0], 1)], w, ui, uiRem)
  {
    ghost var aiRem;
    ai, aiRem := DivideByLinear(numerator, w);
    if Pow(w, degree) == 1 {
      AiQuotient(degree, w, ai, aiRem);
    }
    li := Scale(ai, Div(w, FromU32(degree)));
    ui, uiRem := DivideByLinear(li[0 := Sub(li[0], 1)], w);
  }

  /** The u_i division of `key_gen` is exact: for an n-th root of unity w and 2 <= n < 2^32, l_i - 1
      vanishes at w, so `div(l_i - 1, X - w)` leaves no remainder and u_i * (X - w) == l_i - 1. For
      n = 1 the dividend is shorter than the divisor and `div` returns `[0]` without dividing. */
  lemma UiDivisionExact(n: nat, w: Fe, ui: Poly, uiRem: Poly)
    requires 2 <= n < U32_LIMIT && Invertible(FromU32(n)) && Pow(w, n) == 1
    requires DividedByLinear(UiNumerator(n, w), w, ui, uiRem)
    ensures uiRem == [] && Conv(ui, Linear(w)) == UiNumerator(n, w)
  {
    var num := UiNumerator(n, w);
    LagrangeBasisAtOwnPoint(n, w);
    EvalDecrementConstant(LagrangeBasis(n, w), w);
    ExactLinearDivision(num, w, ui, uiRem, w);
    PolyAddEmpty(Conv(ui, Linear(w)));
  }

  /** The body of the index loop of `key_gen` for the point w = omega^i: the key polynomials and
      their three commitments, each a fold from the identity g1 * 0. The secret is a ghost: the
      source uses it only through the reference string. */
  method IndexKeys(crsG1: seq<G1>, numerator: Poly, degree: nat, w: Fe, g1: G1, ghost secret: Fe)
    returns (a: G1, l: G1, u: G1)
    requires degree >= 1 && Invertible(FromU32(degree))
    requires numerator == VanishingPoly(degree)
    requires |crsG1| == degree + 1 && Powers(crsG1, g1, secret)
    ensures Pow(w, degree) == 1 ==> SlotKeys(g1, secret, degree, w, a, l, u)
  {
    var aiPolynomial, liPolynomial, uiPolynomial, uiRem := KeyPolynomials(numerator, degree, w);
    a := ZipCommit(crsG1, aiPolynomial);
    l := ZipCommit(crsG1, liPolynomial);
    u := ZipCommit(crsG1, uiPolynomial);
    if Pow(w, degree) == 1 {
      SlotKeysFromPolynomials(crsG1, g1, secret, degree, w, liPolynomial, uiPolynomial, uiRem);
    }
  }

  /** The first loop of `key_gen`: g1 * s^i and g2 * s^i for i = 0 .. degree. */
  method ReferenceString(g1: G1, g2: G2, degree: nat, secret: Fe) returns (crsG1: seq<G1>, crsG2: seq<G2>)
    ensures |crsG1| == degree + 1 && |crsG2| == degree + 1
    ensures Powers(crsG1, g1, secret) && Powers(crsG2, g2, secret)
  {
    crsG1, crsG2 := [], [];
    for i := 0 to degree + 1
      invariant |crsG1| == i && |crsG2| == i
      invariant Powers(crsG1, g1, secret) && Powers(crsG2, g2, secret)
    {
      crsG1 := crsG1 + [Mul(g1, Pow(secret, i))];
      crsG2 := crsG2 + [Mul(g2, Pow(secret, i))];
    }
  }

  /** The index loop of `key_gen`: the numerator X^n - 1 as a coefficient vector, then the keys of
      every slot i < n at omega^i, written into vectors initialised with g1. */
  method SlotCommitments(crsG1: seq<G1>, degree: nat, omega: Fe, g1: G1, ghost secret: Fe)
    returns (ai: seq<G1>, li: seq<G1>, ui: seq<G1>)
    requires degree == 0 || Invertible(FromU32(degree))
    requires |crsG1| == degree + 1 && Powers(crsG1, g1, secret)
    ensures |ai| == degree && |li| == degree && |ui| == degree
    ensures Pow(omega, degree) == 1 ==> forall i :: 0 <= i < degree ==>
      SlotKeys(g1, secret, degree, Pow(omega, i), ai[i], li[i], ui[i])
  {
    var aiCommitment := new G1[degree](_ => g1);
    var liCommitment := new G1[degree](_ => g1);
    var uiCommitment := new G1[degree](_ => g1);
    var aiNumerator := new Fe[degree + 1](_ => 0);
    aiNumerator[0] := Neg(1);
    aiNumerator[degree] := 1;
    assert aiNumerator[..] == VanishingPoly(degree);
    for i := 0 to degree
      invariant aiNumerator[..] == VanishingPoly(degree)
      invariant Pow(omega, degree) == 1 ==> forall k :: 0 <= k < i ==>
        SlotKeys(g1, secret, degree, Pow(omega, k), aiCommitment[k], liCommitment[k], uiCommitment[k])
    {
      var a, l, u := IndexKeys(crsG1, aiNumerator[..], degree, Pow(omega, i), g1, secret);
      ghost var ai0, li0, ui0 := aiCommitment[..], liCommitment[..], uiCommitment[..];
      aiCommitment[i] := a;
      liCommitment[i] := l;
      uiCommitment[i] := u;
      assert aiCommitment[..] == ai0[i := a] && liCommitment[..] == li0[i := l] && uiCommitment[..] == ui0[i := u];
      if Pow(omega, degree) == 1 {
        RootPower(omega, degree, i);
        forall k | 0 <= k < i + 1
          ensures SlotKeys(g1, secret, degree, Pow(omega, k), aiCommitment[k], liCommitment[k], uiCommitment[k])
        {
          if k < i {
            assert aiCommitment[k] == ai0[k] && liCommitment[k] == li0[k] && uiCommitment[k] == ui0[k];
          }
        }
      }
    }
    ai, li, ui := aiCommitment[..], liCommitment[..], uiCommitment[..];
  }

  /** `key_gen`: the reference string of powers of the secret in both groups, the commitment to
      X^n - 1, and for every slot i < n the keys a_i, l_i and u_i at omega^i. The slot keys are
      what the design promises only when omega is an n-th root of unity. */
  method KeyGen(g1: G1, g2: G2, degree: nat, secret: Fe, getOmega: nat -> Fe) returns (key: Asvc)
    requires degree == 0 || Invertible(FromU32(degree))
    ensures key.degree == degree
    ensures key.provingKey.crs == key.verificationKey.crs
    ensures key.provingKey.updateKey == key.updateKey
    ensures |key.verificationKey.crs.g1| == degree + 1 && |key.verificationKey.crs.g2| == degree + 1
    ensures Powers(key.verificationKey.crs.g1, g1, secret) && Powers(key.verificationKey.crs.g2, g2, secret)
    ensures key.verificationKey.aCommitment == Mul(g1, Sub(Pow(secret, degree), 1))
    ensures |key.updateKey.aiCommitment| == degree && |key.updateKey.uiCommitment| == degree
    ensures |key.provingKey.liCommitment| == degree
    ensures Pow(getOmega(degree), degree) == 1 ==> forall i :: 0 <= i < degree ==>
      SlotKeys(g1, secret, degree, Pow(getOmega(degree), i), key.updateKey.aiCommitment[i],
               key.provingKey.liCommitment[i], key.updateKey.uiCommitment[i])
  {
    var crsG1, crsG2 := ReferenceString(g1, g2, degree, secret);
    var aCommitment := Add(Mul(crsG1[degree], 1), Mul(crsG1[0], Neg(1)));
    MulOne(crsG1[degree]);
    MulOne(g1);
    MulNeg(g1, 1);
    MulSubDistr(g1, Pow(secret, degree), 1);
    var ai, li, ui := SlotCommitments(crsG1, degree, getOmega(degree), g1, secret);
    var updateKey := UpdateKey(ai, ui);
    var crs := Crs(crsG1, crsG2);
    key := Asvc(degree, updateKey, ProvingKey(crs, updateKey, li), VerificationKey(crs, aCommitment));
  }

  // =============================================================================================
  // Commitments, proofs and their verification

  /** `vector_commit`: the sum of l_i * vector[i], starting from the identity `g1[0] * 0`. */
  method VectorCommit(key: Asvc, vector: seq<Fe>) returns (commitment: G1)
    requires |vector| == |key.provingKey.liCommitment|
    requires |key.provingKey.crs.g1| >= 1
    ensures commitment == Msm(key.provingKey.liCommitment, vector, |vector|)
  {
    var li := key.provingKey.liCommitment;
    commitment := Mul(key.provingKey.crs.g1[0], 0);
    MulZero(key.provingKey.crs.g1[0]);
    for i := 0 to |vector|
      invariant commitment == Msm(li, vector, i)
    {
      commitment := Add(commitment, Mul(li[i], vector[i]));
    }
  }

  /** The denominator loop shared by `prove_position`, `verify_position` and `aggregate_proofs`:
      a monic product of |indices| linear factors. */
  method Denominator(omega: Fe, indices: seq<nat>) returns (d: Poly)
    requires |indices| >= 1
    ensures d == LinearProduct(FactorRoots(omega, indices))
    ensures |d| == |indices| + 1 && d[|indices|] == 1
  {
    ghost var roots := FactorRoots(omega, indices);
    d := [Neg(Pow(omega, indices[0])), 1];
    assert roots[..1] == [roots[0]];
    for i := 1 to |indices|
      invariant d == LinearProduct(roots[..i])
    {
      LinearProductShape(roots[..i]);
      d := Utils.Multiply(d, [Neg(Pow(omega, i)), 1]);
      assert roots[..i + 1][..i] == roots[..i];
    }
    assert roots[..|indices|] == roots;
    LinearProductShape(roots);
  }

  /** The commitment loops of `verify_position`: `bases[0] * 0` plus bases[i] * scalars[i]. */
  method Commit(bases: seq<Fe>, scalars: seq<Fe>) returns (c: Fe)
    requires 1 <= |bases| && |scalars| <= |bases|
    ensures c == Msm(bases, scalars, |scalars|)
  {
    c := Mul(bases[0], 0);
    MulZero(bases[0]);
    for i := 0 to |scalars|
      invariant c == Msm(bases, scalars, i)
    {
      c := Add(c, Mul(bases[i], scalars[i]));
    }
  }

  /** The proof loop of `prove_position`: `g1[0] * quotient[0]` plus g1[i] * quotient[i] for the
      remaining i. */
  method CommitQuotient(bases: seq<G1>, quotient: Poly) returns (pi: G1)
    requires 1 <= |quotient| <= |bases|
    ensures pi == Msm(bases, quotient, |quotient|)
  {
    pi := Mul(bases[0], quotient[0]);
    for i := 1 to |quotient|
      invariant pi == Msm(bases, quotient, i)
    {
      pi := Add(pi, Mul(bases[i], quotient[i]));
    }
  }

  /** The division identity in values: numerator(x) == quotient(x) * denominator(x) + remainder(x),
      in both outcomes of `div`. */
  lemma DivisionInValues(num: Poly, den: Poly, q: Poly, rem: Poly, x: Fe)
    requires |num| < |den| ==> q == [0] && rem == num
    requires |num| >= |den| ==> |q| + |den| >= 1 && num == PolyAdd(Conv(q, den), rem)
    ensures Eval(num, x) == Add(Mul(Eval(q, x), Eval(den, x)), Eval(rem, x))
  {
    if |num| < |den| {
      EvalSingle(0, x);
      MulZero(Eval(den, x));
    } else {
      EvalAdd(Conv(q, den), rem, x);
      EvalConv(q, den, x);
    }
  }

  /** `prove_position`: interpolate the vector over 0..n-1, divide by the denominator, and commit
      the quotient. The interpolated numerator, the denominator, the quotient and the discarded
      remainder are returned as ghosts; DivisionInValues and Group.CommitIsEvaluation say what
      they mean at a point and at the secret. A vector no longer than the indices interpolates to
      fewer coefficients than the denominator has, so its proof is always the identity. */
  method ProvePosition(key: Asvc, indices: seq<nat>, vector: seq<Fe>, getOmega: nat -> Fe)
    returns (pi: G1, ghost numerator: Poly, ghost denominator: Poly, ghost quotient: Poly,
             ghost remainder: Poly)
    requires |indices| >= 1
    requires Utils.InterpolationDefined(IntegerPoints(|vector|))
    requires |key.provingKey.crs.g1| >= 1 && |vector| <= |indices| + |key.provingKey.crs.g1|
    ensures numerator == Utils.InterpolationCoeffs(IntegerPoints(|vector|), vector)
    ensures denominator == LinearProduct(FactorRoots(getOmega(|vector|), indices))
    ensures |numerator| < |denominator| ==> quotient == [0]
    ensures |numerator| >= |denominator| ==>
      numerator == PolyAdd(Conv(quotient, denominator), remainder) && |remainder| < |denominator|
    ensures |denominator| == |indices| + 1 && |quotient| <= |key.provingKey.crs.g1|
    ensures pi == Msm(key.provingKey.crs.g1, quotient, |quotient|)
    ensures |vector| <= |indices| ==> pi == 0
  {
    var points := IntegerPoints(|vector|);
    var interpolated := Utils.Interpolate(points, vector);
    var num := interpolated.value;
    var omega := getOmega(|vector|);
    var den := Denominator(omega, indices);
    var q, rem := DivideByMonic(num, den);
    numerator, denominator, quotient, remainder := num, den, q, rem;
    var g1 := key.provingKey.crs.g1;
    pi := CommitQuotient(g1, q);
    MulZero(g1[0]);
  }

  /** In the exponent model the pairing check reads pi * D(s) * h == (C - g * R(s)) * h, for
      reference strings of powers g * s^k and h * s^k. */
  lemma PairingCheckInExponent(crs: Crs, g: G1, h: G2, s: Fe, d: Poly, r: Poly, pi: G1, c: G1)
    requires Powers(crs.g1, g, s) && Powers(crs.g2, h, s)
    requires 1 <= |crs.g2| && |d| <= |crs.g2| && |r| <= |crs.g1|
    ensures (Pairing(pi, Msm(crs.g2, d, |d|)) == Pairing(Sub(c, Msm(crs.g1, r, |r|)), crs.g2[0]))
        <==> (Mul(Mul(pi, Eval(d, s)), h) == Mul(Sub(c, Mul(g, Eval(r, s))), h))
  {
    CommitIsEvaluation(crs.g2, h, s, d);
    CommitIsEvaluation(crs.g1, g, s, r);
    MulOne(h);
    calc {
      Mul(pi, Mul(h, Eval(d, s)));
      { MulComm(h, Eval(d, s)); }
      Mul(pi, Mul(Eval(d, s), h));
      { MulAssoc(pi, Eval(d, s), h); }
      Mul(Mul(pi, Eval(d, s)), h);
    }
  }

  /** `verify_position`: exactly the truth value of the pairing equation
      e(pi, [D]_2) == e(C - [R]_1, g2[0]), where D is the denominator and R interpolates the
      subvector over its indices. */
  method VerifyPosition(key: Asvc, commitment: G1, indices: seq<nat>, subvector: seq<Fe>, pi: G1,
                        getOmega: nat -> Fe) returns (b: bool)
    requires |indices| >= 1 && |indices| == |subvector|
    requires |indices| + 1 <= |key.verificationKey.crs.g2| && |subvector| <= |key.verificationKey.crs.g1|
    requires Utils.InterpolationDefined(IndexPoints(indices))
    ensures var crs := key.verificationKey.crs;
      var d := LinearProduct(FactorRoots(getOmega(|subvector|), indices));
      var r := Utils.InterpolationCoeffs(IndexPoints(indices), subvector);
      && |d| <= |crs.g2| && |r| <= |crs.g1|
      && (b <==> Pairing(pi, Msm(crs.g2, d, |d|)) == Pairing(Sub(commitment, Msm(crs.g1, r, |r|)), crs.g2[0]))
  {
    var crs := key.verificationKey.crs;
    var omega := getOmega(|subvector|);
    var denominator := Denominator(omega, indices);
    var denominatorCommitment := Commit(crs.g2, denominator);
    var indicesField := IndexPoints(indices);
    var interpolated := Utils.Interpolate(indicesField, subvector);
    var remainder := interpolated.value;
    var remainderCommitment := Commit(crs.g1, remainder);
    var lhs := Pairing(pi, denominatorCommitment);
    var rhs := Pairing(Sub(commitment, remainderCommitment), crs.g2[0]);
    b := lhs == rhs;
  }

  /** `aggregate_proofs`: the formal derivative A' of the denominator, filled by index, and the sum
      of proofs[k] * A'(omega^indices[k]). */
  method AggregateProofs(key: Asvc, indices: seq<nat>, proofs: seq<G1>, getOmega: nat -> Fe)
    returns (pi: G1)
    requires |indices| == |proofs| && |indices| >= 1
    ensures pi == Msm(proofs, AggregationWeights(getOmega(|indices|), indices), |proofs|)
  {
    var omega := getOmega(|indices|);
    var aPolynomial := Denominator(omega, indices);
    var aDerivative := new Fe[|aPolynomial| - 1](_ => 0);
    for i := 1 to |aPolynomial|
      invariant forall k :: 0 <= k < i - 1 ==> aDerivative[k] == Mul(aPolynomial[k + 1], FromU32(k + 1))
    {
      aDerivative[i - 1] := Mul(aPolynomial[i], FromU32(i));
    }
    var derivative := aDerivative[..];
    assert derivative == Derivative(aPolynomial);
    var weights := WeightsAt(derivative, omega, indices);
    pi := Msm(proofs, weights, |proofs|);
  }

  /** Weight k of the aggregation is the sum, over the factors of the denominator, of the product
      of the other factors at omega^indices[k]. */
  lemma AggregationWeightSum(omega: Fe, indices: seq<nat>, k: nat)
    requires 1 <= |indices| < U32_LIMIT && k < |indices|
    ensures AggregationWeights(omega, indices)[k]
         == DerivSum(FactorRoots(omega, indices), Pow(omega, indices[k]), |indices|)
  {
    DerivativeOfLinearProduct(FactorRoots(omega, indices), Pow(omega, indices[k]));
  }

  /** Where omega^indices[k] is itself root k of the denominator (always for k = 0), weight k is
      the product of its differences to the other roots, A'(omega^i) = prod_{j != k} (omega^i - r_j). */
  lemma AggregationWeightAtRoot(omega: Fe, indices: seq<nat>, k: nat)
    requires 1 <= |indices| < U32_LIMIT && k < |indices|
    requires FactorRoots(omega, indices)[k] == Pow(omega, indices[k])
    ensures AggregationWeights(omega, indices)[k]
         == RootsProduct(FactorRoots(omega, indices), Pow(omega, indices[k]), k)
  {
    DerivativeAtRoot(FactorRoots(omega, indices), k);
  }
}
