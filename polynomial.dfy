/** Polynomials over the scalar field as coefficient vectors (index = degree), and the algebra
    the routines of src/utils.rs and src/asvc.rs rely on. Trailing zero coefficients are allowed
    and do not change a polynomial's value. */
module Polynomial {
  import opened Field

  type Poly = seq<Fe>

  /** Coefficient k, reading past the end as zero. */
  function Coeff(p: Poly, k: nat): Fe { if k < |p| then p[k] else 0 }

  predicate AllZero(p: Poly) { forall k :: 0 <= k < |p| ==> p[k] == 0 }

  /** The remainder vector of `div` after popping: empty or with a nonzero last coefficient. */
  predicate Trimmed(p: Poly) { p == [] || p[|p| - 1] != 0 }

  function Max(a: nat, b: nat): nat { if a < b then b else a }

  /** Coefficient-wise sum, padding the shorter operand with zeros. */
  function PolyAdd(a: Poly, b: Poly): Poly
  {
    seq(Max(|a|, |b|), k requires 0 <= k => Add(Coeff(a, k), Coeff(b, k)))
  }

  /** Coefficient-wise scaling (`scalar_mul`). */
  function Scale(p: Poly, c: Fe): Poly
  {
    seq(|p|, k requires 0 <= k < |p| => Mul(p[k], c))
  }

  /** Coefficient-wise difference of two vectors of the same length. */
  function PointwiseSub(a: Poly, b: Poly): Poly
    requires |a| == |b|
  {
    seq(|a|, k requires 0 <= k < |a| => Sub(a[k], b[k]))
  }

  /** The k-th coefficient of the product: the sum of p[i] * q[j] over i + j == k. */
  function ConvCoeff(p: Poly, q: Poly, k: nat): Fe
    decreases |p|
  {
    if |p| == 0 then 0
    else Add(Mul(p[0], Coeff(q, k)), if k == 0 then 0 else ConvCoeff(p[1..], q, k - 1))
  }

  /** The product polynomial, of length |p| + |q| - 1 (which underflows when both are empty). */
  function Conv(p: Poly, q: Poly): Poly
    requires |p| + |q| >= 1
  {
    seq(|p| + |q| - 1, k requires 0 <= k => ConvCoeff(p, q, k))
  }

  /** The value of p at x, by Horner's rule. */
  function Eval(p: Poly, x: Fe): Fe
  {
    if |p| == 0 then 0 else Add(p[0], Mul(x, Eval(p[1..], x)))
  }

  /** The power sum p[0] + p[1]*x + ... + p[n-1]*x^(n-1), summed from the low end. */
  function PowerSum(p: Poly, x: Fe): Fe
  {
    if |p| == 0 then 0 else Add(PowerSum(p[..|p| - 1], x), Mul(p[|p| - 1], Pow(x, |p| - 1)))
  }

  /** X - r, as the source writes it: `vec![-r, ONE]`. */
  function Linear(r: Fe): Poly { [Neg(r), 1] }

  /** The product of the linear factors X - roots[k], multiplied up from the left. */
  function LinearProduct(roots: seq<Fe>): Poly
    requires |roots| >= 1
    decreases |roots|
  {
    if |roots| == 1 then Linear(roots[0])
    else
      var init := LinearProduct(roots[..|roots| - 1]);
      Conv(init, Linear(roots[|roots| - 1]))
  }

  /** (x - roots[0]) * ... * (x - roots[n-1]), leaving out factor `skip` (no factor is skipped
      when skip >= |roots|). */
  function RootsProduct(roots: seq<Fe>, x: Fe, skip: nat): Fe
    decreases |roots|
  {
    if |roots| == 0 then 1
    else if |roots| - 1 == skip then RootsProduct(roots[..|roots| - 1], x, skip)
    else Mul(RootsProduct(roots[..|roots| - 1], x, skip), Sub(x, roots[|roots| - 1]))
  }

  /** X^n - 1 as key generation builds it: coefficient n is 1, coefficient 0 is -1 (for n = 0 the
      later write wins), all others 0. */
  function VanishingPoly(n: nat): Poly
  {
    seq(n + 1, k requires 0 <= k => if k == n then 1 else if k == 0 then Neg(1) else 0)
  }

  /** The quotient (X^n - 1) / (X - r) for an n-th root of unity r:
      the sum over k < n of r^(n-1-k) X^k. */
  function VanishingQuotient(n: nat, r: Fe): Poly
  {
    seq(n, k requires 0 <= k < n => Pow(r, n - 1 - k))
  }

  /** The formal derivative, as `aggregate_proofs` computes it: coefficient i-1 is p[i] * i. */
  function Derivative(p: Poly): Poly
    requires |p| >= 1
  {
    seq(|p| - 1, i requires 0 <= i < |p| - 1 => Mul(p[i + 1], FromU32(i + 1)))
  }

  /** A polynomial whose leading coefficient is invertible is not the zero polynomial. */
  lemma InvertibleLeadNotZero(p: Poly)
    requires |p| >= 1 && Invertible(p[|p| - 1])
    ensures !AllZero(p)
  {
    ZeroNotInvertible();
    assert p[|p| - 1] != 0;
  }

  // =============================================================================================
  // Evaluation

  lemma EvalHead(p: Poly, x: Fe)
    ensures Eval(p, x) == Add(Coeff(p, 0), Mul(x, Eval(if |p| == 0 then [] else p[1..], x)))
  {}

  lemma {:induction false} EvalAllZero(p: Poly, x: Fe)
    requires AllZero(p)
    ensures Eval(p, x) == 0
    decreases |p|
  {
    if |p| > 0 {
      EvalAllZero(p[1..], x);
      MulZero(x);
    }
  }

  /** Appending a coefficient adds its monomial. */
  lemma {:induction false} EvalAppend(s: Poly, b: Fe, x: Fe)
    ensures Eval(s + [b], x) == Add(Eval(s, x), Mul(b, Pow(x, |s|)))
    decreases |s|
  {
    if |s| == 0 {
      assert (s + [b])[1..] == [];
      MulZero(x);
      MulOne(b);
    } else {
      assert (s + [b])[1..] == s[1..] + [b];
      EvalAppend(s[1..], b, x);
      var e, m := Eval(s[1..], x), Mul(b, Pow(x, |s| - 1));
      MulAddDistr(x, e, m);
      calc {
        Mul(x, m);
        { MulAssoc(b, Pow(x, |s| - 1), x); }
        Mul(b, Pow(x, |s|));
      }
    }
  }

  /** The power sum the `evaluate` loop accumulates equals the polynomial's value. */
  lemma {:induction false} PowerSumIsEval(p: Poly, x: Fe)
    ensures PowerSum(p, x) == Eval(p, x)
    decreases |p|
  {
    if |p| > 0 {
      var init := p[..|p| - 1];
      PowerSumIsEval(init, x);
      EvalAppend(init, p[|p| - 1], x);
      assert init + [p[|p| - 1]] == p;
    }
  }

  function Tail(p: Poly): Poly { if |p| == 0 then [] else p[1..] }

  lemma PolyAddHead(a: Poly, b: Poly)
    requires |a| + |b| >= 1
    ensures PolyAdd(a, b) == [Add(Coeff(a, 0), Coeff(b, 0))] + PolyAdd(Tail(a), Tail(b))
  {
    var l, r := PolyAdd(a, b), [Add(Coeff(a, 0), Coeff(b, 0))] + PolyAdd(Tail(a), Tail(b));
    assert |l| == |r|;
    forall k | 0 <= k < |l| ensures l[k] == r[k] {
      if k > 0 {
        assert Coeff(a, k) == Coeff(Tail(a), k - 1);
        assert Coeff(b, k) == Coeff(Tail(b), k - 1);
      }
    }
  }

  /** Evaluation is additive. */
  lemma {:induction false} EvalAdd(a: Poly, b: Poly, x: Fe)
    ensures Eval(PolyAdd(a, b), x) == Add(Eval(a, x), Eval(b, x))
    decreases |a| + |b|
  {
    if |a| + |b| == 0 {
      assert PolyAdd(a, b) == [];
    } else {
      PolyAddHead(a, b);
      var s := PolyAdd(a, b);
      assert s[1..] == PolyAdd(Tail(a), Tail(b));
      EvalAdd(Tail(a), Tail(b), x);
      EvalHead(a, x);
      EvalHead(b, x);
      MulAddDistr(x, Eval(Tail(a), x), Eval(Tail(b), x));
    }
  }

  /** Evaluation commutes with scaling. */
  lemma {:induction false} EvalScale(p: Poly, c: Fe, x: Fe)
    ensures Eval(Scale(p, c), x) == Mul(c, Eval(p, x))
    decreases |p|
  {
    if |p| == 0 {
      MulZero(c);
    } else {
      assert Scale(p, c)[1..] == Scale(p[1..], c);
      EvalScale(p[1..], c, x);
      var e := Eval(p[1..], x);
      MulAddDistr(c, p[0], Mul(x, e));
      MulAssoc(x, c, e);
      MulAssoc(c, x, e);
    }
  }

  lemma EvalLinear(r: Fe, x: Fe)
    ensures Eval(Linear(r), x) == Sub(x, r)
  {
    assert Linear(r)[1..] == [1];
    assert Eval([1], x) == 1 by { assert [1][1..] == []; MulZero(x); }
    MulOne(x);
  }

  // =============================================================================================
  // Products

  lemma {:induction false} ConvCoeffZero(p: Poly, q: Poly, k: nat)
    requires AllZero(p)
    ensures ConvCoeff(p, q, k) == 0
    decreases |p|
  {
    if |p| > 0 {
      MulZero(Coeff(q, k));
      if k > 0 { ConvCoeffZero(p[1..], q, k - 1); }
    }
  }

  /** Multiplying by p = [a] + p' is scaling by a plus shifting the product with p'. */
  lemma ConvCons(p: Poly, q: Poly)
    requires |p| >= 1 && |p| + |q| >= 2
    ensures Conv(p, q) == PolyAdd(Scale(q, p[0]), [0] + Conv(p[1..], q))
  {
    var l, r := Conv(p, q), PolyAdd(Scale(q, p[0]), [0] + Conv(p[1..], q));
    assert |l| == |r|;
    forall k | 0 <= k < |l| ensures l[k] == r[k] {
      MulZero(p[0]);
      assert Coeff(Scale(q, p[0]), k) == Mul(p[0], Coeff(q, k));
      if k > 0 {
        assert Coeff([0] + Conv(p[1..], q), k) == ConvCoeff(p[1..], q, k - 1);
      }
    }
  }

  /** Evaluation is multiplicative: (p*q)(x) = p(x) * q(x). */
  lemma {:induction false} EvalConv(p: Poly, q: Poly, x: Fe)
    requires |p| + |q| >= 1
    ensures Eval(Conv(p, q), x) == Mul(Eval(p, x), Eval(q, x))
    decreases |p|
  {
    if |p| == 0 {
      forall k | 0 <= k < |Conv(p, q)| ensures Conv(p, q)[k] == 0 {}
      EvalAllZero(Conv(p, q), x);
      MulZero(Eval(q, x));
    } else if |p| + |q| == 1 {
      assert Conv(p, q) == [];
      MulZero(Eval(p, x));
    } else {
      var a, ep, eq := p[0], Eval(p[1..], x), Eval(q, x);
      ConvCons(p, q);
      EvalAdd(Scale(q, a), [0] + Conv(p[1..], q), x);
      EvalScale(q, a, x);
      assert ([0] + Conv(p[1..], q))[1..] == Conv(p[1..], q);
      EvalConv(p[1..], q, x);
      calc {
        Eval(Conv(p, q), x);
        Add(Mul(a, eq), Mul(x, Mul(ep, eq)));
        { MulAssoc(x, ep, eq); }
        Add(Mul(eq, a), Mul(eq, Mul(x, ep)));
        { MulAddDistr(eq, a, Mul(x, ep)); }
        Mul(Eval(p, x), eq);
      }
    }
  }

  /** Appending a coefficient a to p adds a * q shifted by |p| to the product (the row the
      inner loop of `mul` adds). */
  lemma {:induction false} ConvCoeffSnoc(p: Poly, a: Fe, q: Poly, k: nat)
    ensures ConvCoeff(p + [a], q, k)
         == Add(ConvCoeff(p, q, k), if k >= |p| then Mul(a, Coeff(q, k - |p|)) else 0)
    decreases |p|
  {
    if |p| == 0 {
      assert (p + [a])[1..] == [];
    } else {
      assert (p + [a])[1..] == p[1..] + [a];
      if k > 0 { ConvCoeffSnoc(p[1..], a, q, k - 1); }
    }
  }

  /** Writing c into a zero coefficient at pos adds c * q shifted by pos to the product (the
      quotient update in `div`). */
  lemma {:induction false} ConvCoeffUpdate(p: Poly, pos: nat, c: Fe, q: Poly, k: nat)
    requires pos < |p| && p[pos] == 0
    ensures ConvCoeff(p[pos := c], q, k)
         == Add(ConvCoeff(p, q, k), if k >= pos then Mul(c, Coeff(q, k - pos)) else 0)
    decreases pos
  {
    MulZero(Coeff(q, k));
    if pos == 0 {
      assert p[pos := c][1..] == p[1..];
    } else {
      assert p[pos := c][1..] == p[1..][pos - 1 := c];
      if k > 0 { ConvCoeffUpdate(p[1..], pos - 1, c, q, k - 1); }
    }
  }

  /** The product is linear in its first operand. */
  lemma {:induction false} ConvCoeffSub(a: Poly, b: Poly, q: Poly, k: nat)
    requires |a| == |b|
    ensures ConvCoeff(PointwiseSub(a, b), q, k) == Sub(ConvCoeff(a, q, k), ConvCoeff(b, q, k))
    decreases |a|
  {
    if |a| > 0 {
      var d := PointwiseSub(a, b);
      assert d[1..] == PointwiseSub(a[1..], b[1..]);
      var c := Coeff(q, k);
      var ra := if k == 0 then 0 else ConvCoeff(a[1..], q, k - 1);
      var rb := if k == 0 then 0 else ConvCoeff(b[1..], q, k - 1);
      var rd := if k == 0 then 0 else ConvCoeff(d[1..], q, k - 1);
      if k > 0 { ConvCoeffSub(a[1..], b[1..], q, k - 1); }
      assert rd == Sub(ra, rb);
      assert ConvCoeff(a, q, k) == Add(Mul(a[0], c), ra);
      assert ConvCoeff(b, q, k) == Add(Mul(b[0], c), rb);
      assert ConvCoeff(d, q, k) == Add(Mul(d[0], c), rd);
      MulSubRight(a[0], b[0], c);
      assert d[0] == Sub(a[0], b[0]);
      SubAddShuffle(Mul(a[0], c), Mul(b[0], c), ra, rb);
    }
  }

  /** With nothing above position m, coefficient m + |q| - 1 of the product is d[m] times the
      leading coefficient of q. */
  lemma {:induction false} ConvCoeffTop(d: Poly, q: Poly, m: nat)
    requires |q| >= 1 && m < |d|
    requires forall j :: m < j < |d| ==> d[j] == 0
    ensures ConvCoeff(d, q, m + |q| - 1) == Mul(d[m], q[|q| - 1])
    decreases m
  {
    if m == 0 {
      if |q| > 1 { ConvCoeffZero(d[1..], q, |q| - 2); }
    } else {
      MulZero(d[0]);
      ConvCoeffTop(d[1..], q, m - 1);
    }
  }

  lemma {:induction false} ZeroFromTop(d: Poly, q: Poly, m: nat)
    requires |q| >= 1 && Invertible(q[|q| - 1])
    requires forall k :: |q| - 1 <= k < |d| + |q| - 1 ==> ConvCoeff(d, q, k) == 0
    ensures forall j :: m <= j < |d| ==> d[j] == 0
    decreases |d| - m
  {
    if m < |d| {
      ZeroFromTop(d, q, m + 1);
      ConvCoeffTop(d, q, m);
      CancelInvertible(d[m], q[|q| - 1]);
    }
  }

  lemma TrimmedShorter(r1: Poly, r2: Poly)
    requires Trimmed(r1)
    requires forall k: nat :: Coeff(r1, k) == Coeff(r2, k)
    ensures |r1| <= |r2|
  {
    if |r1| > 0 {
      assert Coeff(r1, |r1| - 1) == Coeff(r2, |r1| - 1);
    }
  }

  lemma TrimmedUnique(r1: Poly, r2: Poly)
    requires Trimmed(r1) && Trimmed(r2)
    requires forall k: nat :: Coeff(r1, k) == Coeff(r2, k)
    ensures r1 == r2
  {
    TrimmedShorter(r1, r2);
    TrimmedShorter(r2, r1);
    forall k | 0 <= k < |r1| ensures r1[k] == r2[k] {
      assert Coeff(r1, k) == Coeff(r2, k);
    }
  }

  /** Division by a polynomial with an invertible leading coefficient is unique: at most one
      quotient of a given length and one trimmed remainder shorter than the divisor. */
  lemma DivisionUnique(p1: Poly, p2: Poly, q1: Poly, r1: Poly, q2: Poly, r2: Poly)
    requires |p2| >= 1 && Invertible(p2[|p2| - 1])
    requires |q1| == |q2| && |r1| < |p2| && |r2| < |p2| && Trimmed(r1) && Trimmed(r2)
    requires p1 == PolyAdd(Conv(q1, p2), r1) && p1 == PolyAdd(Conv(q2, p2), r2)
    ensures q1 == q2 && r1 == r2
  {
    var d := PointwiseSub(q1, q2);
    forall k | |p2| - 1 <= k < |d| + |p2| - 1 ensures ConvCoeff(d, p2, k) == 0 {
      assert p1[k] == Add(Conv(q1, p2)[k], Coeff(r1, k));
      assert p1[k] == Add(Conv(q2, p2)[k], Coeff(r2, k));
      ConvCoeffSub(q1, q2, p2, k);
    }
    ZeroFromTop(d, p2, 0);
    assert q1 == q2 by {
      forall j | 0 <= j < |q1| ensures q1[j] == q2[j] { assert d[j] == 0; }
    }
    forall k: nat ensures Coeff(r1, k) == Coeff(r2, k) {
      if k < |p1| {
        assert p1[k] == Add(Coeff(Conv(q1, p2), k), Coeff(r1, k));
        assert p1[k] == Add(Coeff(Conv(q2, p2), k), Coeff(r2, k));
      }
    }
    TrimmedUnique(r1, r2);
  }

  lemma PolyAddEmpty(a: Poly)
    ensures PolyAdd(a, []) == a
  {}

  /** Coefficient k of a product with the linear factor X - r. */
  lemma {:induction false} ConvLinearCoeff(q: Poly, r: Fe, k: nat)
    ensures ConvCoeff(q, Linear(r), k)
         == Add(Mul(Coeff(q, k), Neg(r)), if k >= 1 then Coeff(q, k - 1) else 0)
    decreases |q|
  {
    var L := Linear(r);
    if |q| == 0 {
      MulZero(Neg(r));
    } else {
      assert Coeff(L, k) == (if k == 0 then Neg(r) else if k == 1 then 1 else 0);
      MulOne(q[0]);
      MulZero(q[0]);
      if k > 0 {
        ConvLinearCoeff(q[1..], r, k - 1);
        if k >= 2 { assert Coeff(q[1..], k - 2) == Coeff(q, k - 1); }
        assert Coeff(q[1..], k - 1) == Coeff(q, k);
        MulZero(Neg(r));
      }
    }
  }

  /** (X^n - 1) = (X - r) * sum_k r^(n-1-k) X^k, coefficient for coefficient, when r^n == 1. */
  lemma VanishingFactorization(n: nat, r: Fe)
    requires n >= 1 && Pow(r, n) == 1
    ensures Conv(VanishingQuotient(n, r), Linear(r)) == VanishingPoly(n)
  {
    var l, v := Conv(VanishingQuotient(n, r), Linear(r)), VanishingPoly(n);
    assert |l| == |v|;
    forall k | 0 <= k < |l| ensures l[k] == v[k] {
      VanishingFactorCoeff(n, r, k);
    }
  }

  lemma VanishingFactorCoeff(n: nat, r: Fe, k: nat)
    requires n >= 1 && Pow(r, n) == 1 && k <= n
    ensures ConvCoeff(VanishingQuotient(n, r), Linear(r), k) == VanishingPoly(n)[k]
  {
    var q := VanishingQuotient(n, r);
    ConvLinearCoeff(q, r, k);
    if k == 0 {
      MulNeg(Pow(r, n - 1), r);
      assert ConvCoeff(q, Linear(r), k) == Mul(Pow(r, n - 1), Neg(r));
    } else if k < n {
      MulNeg(Pow(r, n - 1 - k), r);
      assert Pow(r, n - k) == Mul(Pow(r, n - 1 - k), r);
      assert Coeff(q, k - 1) == Pow(r, n - k);
      assert ConvCoeff(q, Linear(r), k) == Add(Neg(Pow(r, n - k)), Pow(r, n - k));
    } else {
      MulZero(Neg(r));
      assert q[n - 1] == Pow(r, 0);
    }
  }

  lemma EvalSingle(c: Fe, x: Fe)
    ensures Eval([c], x) == c
  {
    assert [c][1..] == [];
    MulZero(x);
  }

  /** Lowering the constant coefficient by one lowers every value by one. */
  lemma EvalDecrementConstant(p: Poly, x: Fe)
    requires |p| >= 1
    ensures Eval(p[0 := Sub(p[0], 1)], x) == Sub(Eval(p, x), 1)
  {
    assert p[0 := Sub(p[0], 1)][1..] == p[1..];
  }

  /** A remainder shorter than a linear divisor that vanishes at a point is empty. */
  lemma ShortRemainderVanishes(rem: Poly, x: Fe)
    requires |rem| < 2 && Trimmed(rem) && Eval(rem, x) == 0
    ensures rem == []
  {
    EvalLengthOne(rem, x);
  }

  lemma EvalLengthOne(rem: Poly, x: Fe)
    ensures |rem| == 1 ==> Eval(rem, x) == rem[0]
  {
    if |rem| == 1 {
      assert rem == [rem[0]];
      EvalSingle(rem[0], x);
    }
  }

  // =============================================================================================
  // Products of linear factors

  /** The product of n linear factors has n + 1 coefficients and is monic. */
  lemma {:induction false} LinearProductShape(roots: seq<Fe>)
    requires |roots| >= 1
    ensures |LinearProduct(roots)| == |roots| + 1
    ensures LinearProduct(roots)[|roots|] == 1
    decreases |roots|
  {
    if |roots| > 1 {
      var init := roots[..|roots| - 1];
      LinearProductShape(init);
      var d := LinearProduct(init);
      ConvCoeffTop(d, Linear(roots[|roots| - 1]), |d| - 1);
      MulOne(1);
    }
  }

  lemma {:induction false} RootsProductNoSkip(roots: seq<Fe>, x: Fe, s1: nat, s2: nat)
    requires s1 >= |roots| && s2 >= |roots|
    ensures RootsProduct(roots, x, s1) == RootsProduct(roots, x, s2)
    decreases |roots|
  {
    if |roots| > 0 {
      RootsProductNoSkip(roots[..|roots| - 1], x, s1, s2);
    }
  }

  /** The product of linear factors evaluates to the product of the differences x - root. */
  lemma {:induction false} LinearProductEval(roots: seq<Fe>, x: Fe)
    requires |roots| >= 1
    ensures Eval(LinearProduct(roots), x) == RootsProduct(roots, x, |roots|)
    decreases |roots|
  {
    var init, r := roots[..|roots| - 1], roots[|roots| - 1];
    EvalLinear(r, x);
    if |roots| == 1 {
      assert init == [];
      MulOne(Sub(x, r));
    } else {
      LinearProductEval(init, x);
      LinearProductShape(init);
      EvalConv(LinearProduct(init), Linear(r), x);
      RootsProductNoSkip(init, x, |roots|, |init|);
    }
  }

  /** A product of differences that keeps the factor x - roots[k] vanishes at x == roots[k]. */
  lemma {:induction false} RootsProductVanishes(roots: seq<Fe>, x: Fe, skip: nat, k: nat)
    requires k < |roots| && k != skip && roots[k] == x
    ensures RootsProduct(roots, x, skip) == 0
    decreases |roots|
  {
    var n := |roots|;
    var init := roots[..n - 1];
    if n - 1 == k {
      MulZero(RootsProduct(init, x, skip));
    } else {
      RootsProductVanishes(init, x, skip, k);
      MulZero(Sub(x, roots[n - 1]));
    }
  }

  /** Every root is a zero of the product of linear factors. */
  lemma LinearProductVanishes(roots: seq<Fe>, k: nat)
    requires k < |roots|
    ensures Eval(LinearProduct(roots), roots[k]) == 0
  {
    LinearProductEval(roots, roots[k]);
    RootsProductVanishes(roots, roots[k], |roots|, k);
  }

  // =============================================================================================
  // The formal derivative

  /** The sum over j < n of the products of differences that leave out factor j. */
  function DerivSum(roots: seq<Fe>, x: Fe, n: nat): Fe
    requires n <= |roots|
  {
    if n == 0 then 0 else Add(DerivSum(roots, x, n - 1), RootsProduct(roots, x, n - 1))
  }

  /** i * (a * (-r) + b) == (i * a) * (-r) + (i - 1) * b + b, written with i = m + 1. */
  lemma LeibnizCoeff(a: Fe, b: Fe, r: Fe, m: Fe)
    ensures Mul(Add(Mul(a, Neg(r)), b), Add(m, 1))
         == Add(Add(Mul(Mul(a, Add(m, 1)), Neg(r)), Mul(b, m)), b)
  {
    var n := Add(m, 1);
    MulAddRight(Mul(a, Neg(r)), b, n);
    calc {
      Mul(Mul(a, Neg(r)), n);
      { MulAssoc(a, Neg(r), n); }
      Mul(a, Mul(Neg(r), n));
      { MulComm(Neg(r), n); }
      Mul(a, Mul(n, Neg(r)));
      { MulAssoc(a, n, Neg(r)); }
      Mul(Mul(a, n), Neg(r));
    }
    MulAddDistr(b, m, 1);
    MulOne(b);
  }

  /** Coefficient i of the product rule (f * (X - r))' == f' * (X - r) + f. */
  lemma LeibnizStep(f: Poly, r: Fe, i: nat)
    requires 1 <= |f| < 0x1_0000_0000 && i < |f|
    ensures Derivative(Conv(f, Linear(r)))[i] == PolyAdd(Conv(Derivative(f), Linear(r)), f)[i]
  {
    var df := Derivative(f);
    ConvLinearCoeff(f, r, i + 1);
    ConvLinearCoeff(df, r, i);
    var a, b, m := Coeff(f, i + 1), f[i], FromNat(i);
    FromNatSucc(i);
    MulZero(FromNat(i + 1));
    assert Coeff(df, i) == Mul(a, FromNat(i + 1));
    MulZero(b);
    assert (if i >= 1 then Coeff(df, i - 1) else 0) == Mul(b, m);
    LeibnizCoeff(a, b, r, m);
  }

  /** The product rule for one linear factor: (f * (X - r))' == f' * (X - r) + f, as long as the
      coefficient indices fit the `as u32` cast. */
  lemma LeibnizRule(f: Poly, r: Fe)
    requires 1 <= |f| < 0x1_0000_0000
    ensures Derivative(Conv(f, Linear(r))) == PolyAdd(Conv(Derivative(f), Linear(r)), f)
  {
    var lhs := Derivative(Conv(f, Linear(r)));
    var rhs := PolyAdd(Conv(Derivative(f), Linear(r)), f);
    assert |lhs| == |rhs|;
    forall i | 0 <= i < |lhs| ensures lhs[i] == rhs[i] {
      LeibnizStep(f, r, i);
    }
  }

  /** The product rule, evaluated: (f * (X - r))'(x) == f'(x) (x - r) + f(x). */
  lemma DerivativeProductRule(f: Poly, r: Fe, x: Fe)
    requires 1 <= |f| < 0x1_0000_0000
    ensures Eval(Derivative(Conv(f, Linear(r))), x) == Add(Mul(Eval(Derivative(f), x), Sub(x, r)), Eval(f, x))
  {
    var L, df := Linear(r), Derivative(f);
    LeibnizRule(f, r);
    EvalAdd(Conv(df, L), f, x);
    EvalConv(df, L, x);
    EvalLinear(r, x);
  }

  lemma {:induction false} DerivSumSnoc(roots: seq<Fe>, x: Fe, m: nat)
    requires |roots| >= 2 && m < |roots|
    ensures DerivSum(roots, x, m) == Mul(DerivSum(roots[..|roots| - 1], x, m), Sub(x, roots[|roots| - 1]))
  {
    var init, d := roots[..|roots| - 1], Sub(x, roots[|roots| - 1]);
    if m == 0 {
      MulZero(d);
    } else {
      DerivSumSnoc(roots, x, m - 1);
      MulAddRight(DerivSum(init, x, m - 1), RootsProduct(init, x, m - 1), d);
    }
  }

  /** The derivative of a product of linear factors is the sum of the products that leave out one
      factor each. */
  lemma {:induction false} DerivativeOfLinearProduct(roots: seq<Fe>, x: Fe)
    requires 1 <= |roots| < 0x1_0000_0000
    ensures Eval(Derivative(LinearProduct(roots)), x) == DerivSum(roots, x, |roots|)
    decreases |roots|
  {
    if |roots| == 1 {
      var L := Linear(roots[0]);
      assert LinearProduct(roots) == L;
      MulOne(1);
      assert Derivative(L) == [1];
      EvalSingle(1, x);
      assert roots[..0] == [];
      assert RootsProduct(roots, x, 0) == RootsProduct([], x, 0) == 1;
      assert DerivSum(roots, x, 1) == Add(0, 1);
    } else {
      var init, r := roots[..|roots| - 1], roots[|roots| - 1];
      DerivativeOfLinearProduct(init, x);
      LinearProductShape(init);
      DerivativeProductRule(LinearProduct(init), r, x);
      LinearProductEval(init, x);
      DerivSumSnoc(roots, x, |init|);
    }
  }

  lemma {:induction false} DerivSumAtRoot(roots: seq<Fe>, k: nat, n: nat)
    requires k < |roots| && n <= |roots|
    ensures DerivSum(roots, roots[k], n) == if k < n then RootsProduct(roots, roots[k], k) else 0
  {
    if n > 0 {
      DerivSumAtRoot(roots, k, n - 1);
      if n - 1 != k {
        RootsProductVanishes(roots, roots[k], n - 1, k);
      }
    }
  }

  /** At a root, the derivative of the product of linear factors is the product of the differences
      to the other roots. */
  lemma DerivativeAtRoot(roots: seq<Fe>, k: nat)
    requires 1 <= |roots| < 0x1_0000_0000 && k < |roots|
    ensures Eval(Derivative(LinearProduct(roots)), roots[k]) == RootsProduct(roots, roots[k], k)
  {
    DerivativeOfLinearProduct(roots, roots[k]);
    DerivSumAtRoot(roots, k, |roots|);
  }

  // =============================================================================================
  // X^n - 1 and its quotient by X - r

  lemma {:induction false} VanishingQuotientPrefix(n: nat, w: Fe, m: nat)
    requires 1 <= n && m <= n
    ensures PowerSum(VanishingQuotient(n, w)[..m], w) == Mul(FromNat(m), Pow(w, n - 1))
  {
    var v, c := VanishingQuotient(n, w)[..m], Pow(w, n - 1);
    if m == 0 {
      MulZero(c);
    } else {
      VanishingQuotientPrefix(n, w, m - 1);
      assert v[..m - 1] == VanishingQuotient(n, w)[..m - 1];
      PowAdd(w, n - m, m - 1);
      assert Mul(v[m - 1], Pow(w, m - 1)) == c;
      FromNatSucc(m - 1);
      MulAddRight(FromNat(m - 1), 1, c);
      MulOne(c);
    }
  }

  /** The quotient of X^n - 1 by X - w, at w: n * w^(n-1). */
  lemma VanishingQuotientEval(n: nat, w: Fe)
    requires n >= 1
    ensures Eval(VanishingQuotient(n, w), w) == Mul(FromNat(n), Pow(w, n - 1))
  {
    VanishingQuotientPrefix(n, w, n);
    assert VanishingQuotient(n, w)[..n] == VanishingQuotient(n, w);
    PowerSumIsEval(VanishingQuotient(n, w), w);
  }

  lemma {:induction false} VanishingPolyPrefix(n: nat, x: Fe, m: nat)
    requires 1 <= m <= n
    ensures PowerSum(VanishingPoly(n)[..m], x) == Neg(1)
  {
    var v := VanishingPoly(n)[..m];
    if m == 1 {
      assert v[..0] == [];
      MulOne(Neg(1));
    } else {
      VanishingPolyPrefix(n, x, m - 1);
      assert v[..m - 1] == VanishingPoly(n)[..m - 1];
      MulZero(Pow(x, m - 1));
    }
  }

  /** X^n - 1 evaluates to x^n - 1. */
  lemma VanishingPolyEval(n: nat, x: Fe)
    requires n >= 1
    ensures Eval(VanishingPoly(n), x) == Sub(Pow(x, n), 1)
  {
    var v := VanishingPoly(n);
    VanishingPolyPrefix(n, x, n);
    assert v[..n + 1] == v;
    MulOne(Pow(x, n));
    PowerSumIsEval(v, x);
  }
}
