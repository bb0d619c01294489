/** The pairing groups of `E: Pairing` in the exponent representation: an element of G1, G2 or the
    target group is written as its discrete logarithm with respect to a fixed generator. Scalar
    multiplication `g.mul(c)` becomes the field product, group addition the field sum, and the
    pairing `E::pairing(a, b)`, being bilinear, the product of the two logarithms. */
module Group {
  import opened Field
  import opened Polynomial

  type G1 = Fe
  type G2 = Fe
  type Gt = Fe

  function Pairing(a: G1, b: G2): Gt { Mul(a, b) }

  /** The multi-scalar sum bases[0] * scalars[0] + ... + bases[n-1] * scalars[n-1], added from
      the left starting at the identity, as the commitment loops and folds accumulate it. */
  function Msm(bases: seq<Fe>, scalars: seq<Fe>, n: nat): Fe
    requires n <= |bases| && n <= |scalars|
  {
    if n == 0 then 0 else Add(Msm(bases, scalars, n - 1), Mul(bases[n - 1], scalars[n - 1]))
  }

  /** `bases.iter().zip(scalars.iter()).map(..).fold(..)`: the zip stops at the shorter side. */
  function ZipCommit(bases: seq<Fe>, scalars: seq<Fe>): Fe
  {
    Msm(bases, scalars, if |bases| < |scalars| then |bases| else |scalars|)
  }

  /** A reference string of powers: element k is the generator g times s^k. */
  predicate Powers(crs: seq<Fe>, g: Fe, s: Fe)
  {
    forall k :: 0 <= k < |crs| ==> crs[k] == Mul(g, Pow(s, k))
  }

  lemma {:induction false} MsmPowerSum(crs: seq<Fe>, g: Fe, s: Fe, p: Poly, n: nat)
    requires Powers(crs, g, s) && n <= |crs| && n <= |p|
    ensures Msm(crs, p, n) == Mul(g, PowerSum(p[..n], s))
  {
    if n == 0 {
      MulZero(g);
    } else {
      MsmPowerSum(crs, g, s, p, n - 1);
      assert p[..n][..n - 1] == p[..n - 1];
      var c, e := p[n - 1], Pow(s, n - 1);
      calc {
        Mul(crs[n - 1], c);
        Mul(Mul(g, e), c);
        { MulAssoc(g, e, c); }
        Mul(g, Mul(e, c));
        { MulComm(e, c); }
        Mul(g, Mul(c, e));
      }
      MulAddDistr(g, PowerSum(p[..n - 1], s), Mul(c, e));
    }
  }

  /** Committing a polynomial against a reference string of powers gives the generator times the
      polynomial's value at the secret. */
  lemma CommitIsEvaluation(crs: seq<Fe>, g: Fe, s: Fe, p: Poly)
    requires Powers(crs, g, s) && |p| <= |crs|
    ensures Msm(crs, p, |p|) == Mul(g, Eval(p, s))
    ensures ZipCommit(crs, p) == Mul(g, Eval(p, s))
  {
    MsmPowerSum(crs, g, s, p, |p|);
    assert p[..|p|] == p;
    PowerSumIsEval(p, s);
  }

  /** A commitment is additive in the committed scalars. */
  lemma {:induction false} MsmAdd(bases: seq<Fe>, u: seq<Fe>, v: seq<Fe>, n: nat)
    requires n <= |bases| && n <= |u| && n <= |v|
    ensures Msm(bases, PolyAdd(u, v), n) == Add(Msm(bases, u, n), Msm(bases, v, n))
  {
    if n > 0 {
      MsmAdd(bases, u, v, n - 1);
      var b, w := bases[n - 1], PolyAdd(u, v);
      assert w[n - 1] == Add(u[n - 1], v[n - 1]);
      MulAddDistr(b, u[n - 1], v[n - 1]);
      AddShuffle(Msm(bases, u, n - 1), Msm(bases, v, n - 1), Mul(b, u[n - 1]), Mul(b, v[n - 1]));
    }
  }

  /** A commitment is homogeneous in the committed scalars. */
  lemma {:induction false} MsmScale(bases: seq<Fe>, v: seq<Fe>, c: Fe, n: nat)
    requires n <= |bases| && n <= |v|
    ensures Msm(bases, Scale(v, c), n) == Mul(Msm(bases, v, n), c)
  {
    if n == 0 {
      MulZero(c);
    } else {
      MsmScale(bases, v, c, n - 1);
      MulAssoc(bases[n - 1], v[n - 1], c);
      MulAddRight(Msm(bases, v, n - 1), Mul(bases[n - 1], v[n - 1]), c);
    }
  }
}
