/** The polynomial helpers of src/utils.rs: `mul`, `div`, `evaluate` and `interpolate`, written as
    the loops the source runs and proved against the definitions of module Polynomial. */
module Utils {
  import opened Field
  import opened Polynomial

  datatype Result<T> = Ok(value: T) | Err(msg: string)

  /** `mul`: the coefficients of the product, accumulated row by row into a zeroed buffer. The
      buffer length |p1| + |p2| - 1 underflows when both operands are empty. */
  method Multiply(p1: Poly, p2: Poly) returns (r: Poly)
    requires |p1| + |p2| >= 1
    ensures r == Conv(p1, p2)
  {
    var result := new Fe[|p1| + |p2| - 1](_ => 0);
    for i := 0 to |p1|
      invariant forall k :: 0 <= k < result.Length ==> result[k] == ConvCoeff(p1[..i], p2, k)
    {
      for j := 0 to |p2|
        invariant forall k :: 0 <= k < result.Length ==>
          result[k] == Add(ConvCoeff(p1[..i], p2, k), if i <= k < i + j then Mul(p1[i], p2[k - i]) else 0)
      {
        result[i + j] := Add(result[i + j], Mul(p1[i], p2[j]));
      }
      assert p1[..i + 1] == p1[..i] + [p1[i]];
      forall k | 0 <= k < result.Length
        ensures result[k] == ConvCoeff(p1[..i + 1], p2, k)
      {
        ConvCoeffSnoc(p1[..i], p1[i], p2, k);
        MulZero(p1[i]);
      }
    }
    assert p1[..|p1|] == p1;
    r := result[..];
  }

  /** `div`: long division from the top coefficient down. The divisor's leading coefficient is
      divided by at every step, so it must be invertible whenever the loop runs. The remainder,
      which the source computes and drops, is returned as a ghost. */
  method Divide(p1: Poly, p2: Poly) returns (r: Result<Poly>, ghost rem: Poly)
    requires |p1| < |p2| || AllZero(p2) || Invertible(p2[|p2| - 1])
    ensures r.Err? <==> AllZero(p2)
    ensures r.Err? ==> r.msg == "Cannot divide by zero polynomial"
    ensures r.Ok? && |p1| < |p2| ==> r.value == [0] && rem == p1
    ensures r.Ok? && |p1| >= |p2| ==>
      && |r.value| == |p1| - |p2| + 1
      && p1 == PolyAdd(Conv(r.value, p2), rem)
      && |rem| < |p2| && Trimmed(rem)
    ensures r.Ok? && |p1| >= |p2| && rem == [] ==> Conv(r.value, p2) == p1
    ensures r.Ok? && |p1| >= |p2| ==>
      forall q :: |q| + |p2| >= 1 && Conv(q, p2) == p1 ==> r.value == q && rem == []
  {
    if AllZero(p2) {
      return Err("Cannot divide by zero polynomial"), [];
    }
    if |p1| < |p2| {
      return Ok([0]), p1;
    }
    var quotient := new Fe[|p1| - |p2| + 1](_ => 0);
    var remainder := p1;
    forall k | 0 <= k < |p1| ensures ConvCoeff(quotient[..], p2, k) == 0 {
      ConvCoeffZero(quotient[..], p2, k);
    }
    while |remainder| >= |p2|
      invariant |remainder| <= |p1|
      invariant |remainder| >= |p2| || Trimmed(remainder)
      invariant forall k :: 0 <= k < quotient.Length && k + |p2| <= |remainder| ==> quotient[k] == 0
      invariant forall k :: 0 <= k < |p1| ==> p1[k] == Add(ConvCoeff(quotient[..], p2, k), Coeff(remainder, k))
      decreases |remainder|
    {
      var top := |p2| - 1;
      var coeff := Div(remainder[|remainder| - 1], p2[top]);
      var pos := |remainder| - |p2|;
      ghost var q0, r0 := quotient[..], remainder;
      quotient[pos] := coeff;
      assert quotient[..] == q0[pos := coeff];
      var r1 := SubtractShifted(remainder, p2, pos, coeff);
      forall k | 0 <= k < |p1|
        ensures p1[k] == Add(ConvCoeff(quotient[..], p2, k), Coeff(r1, k))
      {
        DivStepCoeff(q0, r0, r1, p2, pos, coeff, k);
      }
      DivMul(r0[|r0| - 1], p2[top]);
      MulComm(coeff, p2[top]);
      remainder := PopZeros(r1);
    }
    r, rem := Ok(quotient[..]), remainder;
    DivisionOutcome(p1, p2, quotient[..], rem);
  }

  /** When the loop of `div` stops, quotient and remainder decompose the dividend, and the
      quotient is the only one of its length, so an exact division finds the exact quotient. */
  lemma DivisionOutcome(p1: Poly, p2: Poly, q: Poly, rem: Poly)
    requires |p2| >= 1 && Invertible(p2[|p2| - 1]) && |q| == |p1| - |p2| + 1
    requires |rem| < |p2| && Trimmed(rem)
    requires forall k :: 0 <= k < |p1| ==> p1[k] == Add(ConvCoeff(q, p2, k), Coeff(rem, k))
    ensures p1 == PolyAdd(Conv(q, p2), rem)
    ensures forall q0 :: |q0| + |p2| >= 1 && Conv(q0, p2) == p1 ==> q == q0 && rem == []
  {
    var c := Conv(q, p2);
    assert p1 == PolyAdd(c, rem) by {
      forall k | 0 <= k < |p1| ensures p1[k] == PolyAdd(c, rem)[k] {}
    }
    forall q0 | |q0| + |p2| >= 1 && Conv(q0, p2) == p1
      ensures q == q0 && rem == []
    {
      PolyAddEmpty(Conv(q0, p2));
      DivisionUnique(p1, p2, q, rem, q0, []);
    }
  }

  /** The inner `for` loop of `div`: subtract coeff times the divisor, shifted by pos. */
  method SubtractShifted(remainder: Poly, p2: Poly, pos: nat, coeff: Fe) returns (r: Poly)
    requires pos + |p2| == |remainder|
    ensures |r| == |remainder|
    ensures forall k :: 0 <= k < |r| ==>
      r[k] == if pos <= k then Sub(remainder[k], Mul(p2[k - pos], coeff)) else remainder[k]
  {
    r := remainder;
    for i := 0 to |p2|
      invariant |r| == |remainder|
      invariant forall k :: 0 <= k < |r| ==>
        r[k] == if pos <= k < pos + i then Sub(remainder[k], Mul(p2[k - pos], coeff)) else remainder[k]
    {
      r := r[pos + i := Sub(r[pos + i], Mul(p2[i], coeff))];
    }
  }

  /** The `while let` loop of `div`: pop trailing zero coefficients. */
  method PopZeros(r1: Poly) returns (r: Poly)
    ensures Trimmed(r) && |r| <= |r1|
    ensures forall k: nat :: Coeff(r, k) == Coeff(r1, k)
    ensures |r1| > 0 && r1[|r1| - 1] == 0 ==> |r| < |r1|
  {
    r := r1;
    while |r| > 0 && r[|r| - 1] == 0
      invariant |r| <= |r1|
      invariant forall k: nat :: Coeff(r, k) == Coeff(r1, k)
      invariant |r1| > 0 && r1[|r1| - 1] == 0 ==> r != r1 ==> |r| < |r1|
      decreases |r|
    {
      r := r[..|r| - 1];
    }
  }

  /** One step of `div`: writing c at quotient position pos and subtracting c times the divisor,
      shifted by pos, from the remainder keeps quotient * divisor + remainder unchanged. */
  lemma DivStepCoeff(q0: Poly, r0: Poly, r1: Poly, p2: Poly, pos: nat, c: Fe, k: nat)
    requires pos < |q0| && q0[pos] == 0 && pos + |p2| == |r0| == |r1|
    requires forall m :: 0 <= m < |r0| ==> r1[m] == if pos <= m then Sub(r0[m], Mul(p2[m - pos], c)) else r0[m]
    ensures Add(ConvCoeff(q0[pos := c], p2, k), Coeff(r1, k)) == Add(ConvCoeff(q0, p2, k), Coeff(r0, k))
  {
    ConvCoeffUpdate(q0, pos, c, p2, k);
    if pos <= k < |r0| {
      MulComm(c, p2[k - pos]);
    } else if k >= |r0| {
      MulZero(c);
    }
  }

  /** `evaluate`: the power sum poly[0] + poly[1] x + ... + poly[n-1] x^(n-1). */
  method Evaluate(poly: Poly, point: Fe) returns (value: Fe)
    ensures value == Eval(poly, point)
  {
    value := 0;
    for i := 0 to |poly|
      invariant value == PowerSum(poly[..i], point)
    {
      assert poly[..i + 1][..i] == poly[..i];
      value := Add(value, Mul(poly[i], Pow(point, i)));
    }
    assert poly[..|poly|] == poly;
    PowerSumIsEval(poly, point);
  }

  /** Every denominator `interpolate` forms, the product of points[i] - points[j] over j != i, is
      invertible (line 79 unwraps its inverse). */
  ghost predicate InterpolationDefined(points: seq<Fe>)
  {
    forall i :: 0 <= i < |points| ==> Invertible(RootsProduct(points, points[i], i))
  }

  /** L_i(0) for the Lagrange basis polynomial L_i of point i: the product of (0 - points[j]) over
      the product of (points[i] - points[j]), j != i. */
  function LagrangeAtZero(points: seq<Fe>, i: nat): Fe
    requires InterpolationDefined(points) && i < |points|
  {
    Div(RootsProduct(points, 0, i), RootsProduct(points, points[i], i))
  }

  /** What `interpolate` returns for matching lengths: coefficient i is values[i] * L_i(0). This
      is not the interpolating polynomial; it only agrees with it in being built from the Lagrange
      basis values. */
  function InterpolationCoeffs(points: seq<Fe>, values: seq<Fe>): (r: Poly)
    requires |points| == |values| && InterpolationDefined(points)
    ensures |r| == |points|
    ensures forall i :: 0 <= i < |points| ==>
      Mul(r[i], RootsProduct(points, points[i], i)) == Mul(values[i], RootsProduct(points, 0, i))
  {
    var r := seq(|points|, i requires 0 <= i < |points| => Mul(values[i], LagrangeAtZero(points, i)));
    InterpolationCoeffsMeaning(points, values, r);
    r
  }

  lemma InterpolationCoeffsMeaning(points: seq<Fe>, values: seq<Fe>, r: Poly)
    requires |points| == |values| == |r| && InterpolationDefined(points)
    requires forall i :: 0 <= i < |points| ==> r[i] == Mul(values[i], LagrangeAtZero(points, i))
    ensures forall i :: 0 <= i < |points| ==>
      Mul(r[i], RootsProduct(points, points[i], i)) == Mul(values[i], RootsProduct(points, 0, i))
  {
    forall i | 0 <= i < |points|
      ensures Mul(r[i], RootsProduct(points, points[i], i)) == Mul(values[i], RootsProduct(points, 0, i))
    {
      LagrangeAtZeroMeaning(points, i);
      MulAssoc(values[i], LagrangeAtZero(points, i), RootsProduct(points, points[i], i));
    }
  }

  /** `interpolate`: an error for mismatched lengths, otherwise the coefficients above. */
  method Interpolate(points: seq<Fe>, values: seq<Fe>) returns (r: Result<Poly>)
    requires |points| == |values| ==> InterpolationDefined(points)
    ensures r.Err? <==> |points| != |values|
    ensures r.Err? ==> r.msg == "Number of points and values do not match"
    ensures r.Ok? ==> |points| == |values| && r.value == InterpolationCoeffs(points, values)
  {
    if |points| != |values| {
      return Err("Number of points and values do not match");
    }
    var result := new Fe[|points|](_ => 0);
    for i := 0 to |points|
      invariant forall k :: 0 <= k < i ==> result[k] == Mul(values[k], LagrangeAtZero(points, k))
    {
      result[i] := PointCoeff(points, values, i);
    }
    r := Ok(result[..]);
  }

  /** The body of the outer loop of `interpolate`: values[i] * numerator * denominator^-1. */
  method PointCoeff(points: seq<Fe>, values: seq<Fe>, i: nat) returns (c: Fe)
    requires |points| == |values| && InterpolationDefined(points) && i < |points|
    ensures c == Mul(values[i], LagrangeAtZero(points, i))
  {
    var numerator, denominator := PointFactors(points, i);
    InverseExists(denominator);
    var inv := Inverse(denominator).value;
    c := Mul(Mul(values[i], numerator), inv);
    MulAssoc(values[i], numerator, inv);
  }

  /** The inner loop of `interpolate` for point i: the products of -points[j] and of
      points[i] - points[j] over all j != i. */
  method PointFactors(points: seq<Fe>, i: nat) returns (numerator: Fe, denominator: Fe)
    requires i < |points|
    ensures numerator == RootsProduct(points, 0, i)
    ensures denominator == RootsProduct(points, points[i], i)
  {
    numerator, denominator := 1, 1;
    for j := 0 to |points|
      invariant numerator == RootsProduct(points[..j], 0, i)
      invariant denominator == RootsProduct(points[..j], points[i], i)
    {
      assert points[..j + 1][..j] == points[..j];
      if i == j {
        continue;
      }
      assert Sub(0, points[j]) == Neg(points[j]);
      numerator := Mul(numerator, Neg(points[j]));
      denominator := Mul(denominator, Sub(points[i], points[j]));
    }
    assert points[..|points|] == points;
  }

  /** L_i(0) times the denominator of point i is its numerator. */
  lemma LagrangeAtZeroMeaning(points: seq<Fe>, i: nat)
    requires InterpolationDefined(points) && i < |points|
    ensures Mul(LagrangeAtZero(points, i), RootsProduct(points, points[i], i)) == RootsProduct(points, 0, i)
  {
    DivMul(RootsProduct(points, 0, i), RootsProduct(points, points[i], i));
  }

  /** Two equal points make a denominator zero, so `interpolate` panics at line 79. */
  lemma DuplicatePointUndefined(points: seq<Fe>, i: nat, j: nat)
    requires i < |points| && j < |points| && i != j && points[i] == points[j]
    ensures !InterpolationDefined(points)
  {
    RootsProductVanishes(points, points[i], i, j);
    ZeroNotInvertible();
  }
}
