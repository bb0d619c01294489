/** The scalar field the library is generic over (`E: Field` / `E::ScalarField`), instantiated
    with the scalar field of BLS12-381. Elements are the integers 0..P-1; the arithmetic that the
    arkworks library supplies (add, subtract, negate, multiply, pow, inverse, from-u32) is written
    out here over those integers. */
module Field {

  /** The order of the BLS12-381 scalar field. */
  const P: nat := 0x73eda753299d7d483339d80809a1d80553bda402fffe5bfeffffffff00000001

  /** A field element, in canonical form. */
  type Fe = x: int | 0 <= x < P

  datatype Option<T> = None | Some(value: T)

  function Add(a: Fe, b: Fe): Fe { if a + b < P then a + b else a + b - P }

  function Sub(a: Fe, b: Fe): Fe { if a >= b then a - b else a - b + P }

  function Neg(a: Fe): Fe { if a == 0 then 0 else P - a }

  function Mul(a: Fe, b: Fe): Fe { (a * b) % P }

  /** `x.pow(&[n as u64])`: the n-th power. */
  function Pow(a: Fe, n: nat): Fe { if n == 0 then 1 else Mul(Pow(a, n - 1), a) }

  /** The image of the integer n in the field. */
  function FromNat(n: nat): Fe { n % P }

  /** `E::ScalarField::from(n as u32)`: the `as u32` cast keeps the low 32 bits. */
  function FromU32(n: nat): (r: Fe)
    ensures n < 0x1_0000_0000 ==> r == FromNat(n)
  { n % 0x1_0000_0000 }

  // ---------------------------------------------------------------------------------------------
  // Reduction modulo P

  lemma ModMultiple(k: int, r: int)
    ensures (P * k + r) % P == r % P
  {
    var q, m := r / P, r % P;
    assert r == P * q + m;
    assert P * k + r == P * (k + q) + m;
  }

  lemma ModMulLeft(x: int, y: int)
    ensures ((x % P) * y) % P == (x * y) % P
  {
    var q, m := x / P, x % P;
    assert x == P * q + m;
    assert x * y == P * (q * y) + m * y;
    ModMultiple(q * y, m * y);
  }

  lemma ModAdd(x: int, y: int)
    ensures ((x % P) + (y % P)) % P == (x + y) % P
  {
    var qx, qy := x / P, y / P;
    assert x + y == P * (qx + qy) + ((x % P) + (y % P));
    ModMultiple(qx + qy, (x % P) + (y % P));
  }

  lemma AddIsMod(a: Fe, b: Fe)
    ensures Add(a, b) == (a + b) % P
  {
    if a + b >= P { ModMultiple(1, a + b - P); }
  }

  // ---------------------------------------------------------------------------------------------
  // Ring laws

  lemma MulAssoc(a: Fe, b: Fe, c: Fe)
    ensures Mul(Mul(a, b), c) == Mul(a, Mul(b, c))
  {
    ModMulLeft(a * b, c);
    ModMulLeft(b * c, a);
    assert (a * b) * c == (b * c) * a;
  }

  lemma MulAddDistr(a: Fe, b: Fe, c: Fe)
    ensures Mul(a, Add(b, c)) == Add(Mul(a, b), Mul(a, c))
  {
    var s := Add(b, c);
    AddIsMod(b, c);
    calc {
      Mul(a, s);
      (s * a) % P;
      { ModMulLeft(b + c, a); }
      ((b + c) * a) % P;
      { assert (b + c) * a == a * b + a * c; }
      (a * b + a * c) % P;
      { ModAdd(a * b, a * c); }
      (Mul(a, b) + Mul(a, c)) % P;
      { AddIsMod(Mul(a, b), Mul(a, c)); }
      Add(Mul(a, b), Mul(a, c));
    }
  }

  lemma MulAddRight(a: Fe, b: Fe, c: Fe)
    ensures Mul(Add(a, b), c) == Add(Mul(a, c), Mul(b, c))
  {
    MulAddDistr(c, a, b);
    assert Add(a, b) * c == c * Add(a, b);
    assert a * c == c * a;
    assert b * c == c * b;
  }

  lemma MulSubDistr(a: Fe, b: Fe, c: Fe)
    ensures Mul(a, Sub(b, c)) == Sub(Mul(a, b), Mul(a, c))
  {
    var d := Sub(b, c);
    assert Add(d, c) == b;
    MulAddDistr(a, d, c);
  }

  lemma MulComm(a: Fe, b: Fe)
    ensures Mul(a, b) == Mul(b, a)
  {
    assert a * b == b * a;
  }

  lemma MulSubRight(a: Fe, b: Fe, c: Fe)
    ensures Mul(Sub(a, b), c) == Sub(Mul(a, c), Mul(b, c))
  {
    MulSubDistr(c, a, b);
    MulComm(Sub(a, b), c);
    MulComm(a, c);
    MulComm(b, c);
  }

  lemma MulNeg(a: Fe, b: Fe)
    ensures Mul(a, Neg(b)) == Neg(Mul(a, b))
  {
    assert Add(Neg(b), b) == 0;
    MulAddDistr(a, Neg(b), b);
    MulZero(a);
    assert Add(Mul(a, Neg(b)), Mul(a, b)) == 0;
  }

  /** (x + y) + (z + w) == (x + z) + (y + w) */
  lemma AddShuffle(x: Fe, y: Fe, z: Fe, w: Fe)
    ensures Add(Add(x, y), Add(z, w)) == Add(Add(x, z), Add(y, w))
  {}

  /** (x - y) + (z - w) == (x + z) - (y + w) */
  lemma SubAddShuffle(x: Fe, y: Fe, z: Fe, w: Fe)
    ensures Add(Sub(x, y), Sub(z, w)) == Sub(Add(x, z), Add(y, w))
  {}

  lemma MulZero(a: Fe)
    ensures Mul(a, 0) == 0 && Mul(0, a) == 0
  {}

  lemma MulOne(a: Fe)
    ensures Mul(a, 1) == a && Mul(1, a) == a
  {}

  /** The image of i + 1 is the image of i plus one. */
  lemma FromNatSucc(i: nat)
    ensures FromNat(i + 1) == Add(FromNat(i), 1)
  {
    ModAdd(i, 1);
    AddIsMod(FromNat(i), 1);
  }

  // ---------------------------------------------------------------------------------------------
  // Powers

  lemma {:induction false} PowAdd(a: Fe, m: nat, n: nat)
    ensures Pow(a, m + n) == Mul(Pow(a, m), Pow(a, n))
    decreases n
  {
    if n == 0 {
      MulOne(Pow(a, m));
    } else {
      PowAdd(a, m, n - 1);
      MulAssoc(Pow(a, m), Pow(a, n - 1), a);
    }
  }

  lemma {:induction false} PowOne(n: nat)
    ensures Pow(1, n) == 1
  {
    if n > 0 { PowOne(n - 1); }
  }

  lemma {:induction false} PowMul(a: Fe, m: nat, n: nat)
    ensures Pow(Pow(a, m), n) == Pow(a, m * n)
    decreases n
  {
    if n > 0 {
      PowMul(a, m, n - 1);
      assert m * n == m * (n - 1) + m;
      PowAdd(a, m * (n - 1), m);
    }
  }

  /** Every power of an n-th root of unity is an n-th root of unity: (w^i)^n = (w^n)^i = 1. */
  lemma RootPower(w: Fe, n: nat, i: nat)
    requires Pow(w, n) == 1
    ensures Pow(Pow(w, i), n) == 1
  {
    PowMul(w, i, n);
    PowMul(w, n, i);
    assert i * n == n * i;
    PowOne(i);
  }

  // ---------------------------------------------------------------------------------------------
  // Inversion (`Field::inverse`): extended Euclid on (a, P)

  /** Bezout data: a*x + b*y == g and g divides both a (= g*ca) and b (= g*cb). */
  datatype Bezout = Bezout(g: nat, x: int, y: int, ca: nat, cb: nat)

  function ExtendedGcd(a: nat, b: nat): (r: Bezout)
    ensures a * r.x + b * r.y == r.g
    ensures a == r.g * r.ca && b == r.g * r.cb
    decreases b
  {
    if b == 0 then Bezout(a, 1, 0, 1, 0)
    else
      var t := ExtendedGcd(b, a % b);
      EuclidStep(a, b, t);
      Bezout(t.g, t.y, t.x - (a / b) * t.y, t.ca * (a / b) + t.cb, t.ca)
  }

  /** One step of Euclid: Bezout data for (b, a % b) gives Bezout data for (a, b). */
  lemma EuclidStep(a: nat, b: nat, t: Bezout)
    requires b > 0
    requires b * t.x + (a % b) * t.y == t.g
    requires b == t.g * t.ca && a % b == t.g * t.cb
    ensures a * t.y + b * (t.x - (a / b) * t.y) == t.g
    ensures a == t.g * (t.ca * (a / b) + t.cb)
  {
    var q, m := a / b, a % b;
    assert a == b * q + m;
    calc {
      a * t.y + b * (t.x - q * t.y);
      a * t.y + b * t.x - b * q * t.y;
      b * t.x + (a - b * q) * t.y;
      b * t.x + m * t.y;
    }
    calc {
      t.g * (t.ca * q + t.cb);
      (t.g * t.ca) * q + t.g * t.cb;
      b * q + m;
    }
  }

  lemma ProductSign(g: nat, t: int)
    ensures t <= 0 ==> g * t <= 0
    ensures t >= 1 ==> g * t >= g
  {
    if t >= 1 {
      assert g * t == g + g * (t - 1);
    }
  }

  lemma UnitFactor(g: nat, t: int)
    requires g * t == 1
    ensures g == 1
  {
    ProductSign(g, t);
  }

  /** `a.inverse()`: Some exactly when a has a multiplicative inverse (in a prime field, exactly
      when a is nonzero). */
  function Inverse(a: Fe): (r: Option<Fe>)
    ensures r.Some? ==> Mul(a, r.value) == 1
    ensures r.None? ==> forall y: Fe :: Mul(a, y) != 1
  {
    var b := ExtendedGcd(a, P);
    if b.g == 1 then
      InverseFromBezout(a, b);
      Some(b.x % P)
    else
      NoInverseFromBezout(a, b);
      None
  }

  lemma InverseFromBezout(a: Fe, b: Bezout)
    requires a * b.x + P * b.y == b.g == 1
    ensures Mul(a, b.x % P) == 1
  {
    ModMulLeft(b.x, a);
    assert b.x * a == P * (-b.y) + 1;
    ModMultiple(-b.y, 1);
  }

  lemma NoInverseFromBezout(a: Fe, b: Bezout)
    requires a == b.g * b.ca && P == b.g * b.cb && b.g != 1
    ensures forall y: Fe :: Mul(a, y) != 1
  {
    forall y: Fe ensures Mul(a, y) != 1 {
      if Mul(a, y) == 1 {
        var k := (a * y) / P;
        assert a * y == P * k + 1;
        assert b.g * (b.ca * y - b.cb * k) == 1 by {
          assert a * y == b.g * b.ca * y;
          assert P * k == b.g * b.cb * k;
        }
        UnitFactor(b.g, b.ca * y - b.cb * k);
      }
    }
  }

  /** The inverse, when it exists, is the only element whose product with a is 1. */
  lemma InverseUnique(a: Fe, y: Fe)
    requires Mul(a, y) == 1
    ensures Inverse(a) == Some(y)
  {
    var inv := Inverse(a);
    assert inv.Some?;
    var z := inv.value;
    assert Mul(z, a) == 1;
    calc {
      y;
      { MulOne(y); }
      Mul(Mul(z, a), y);
      { MulAssoc(z, a, y); }
      Mul(z, Mul(a, y));
      { MulOne(z); }
      z;
    }
  }

  /** a has a multiplicative inverse: the condition under which arkworks' `a.inverse()` is Some
      and `b / a` does not panic. */
  ghost predicate Invertible(a: Fe)
  {
    exists y: Fe :: Mul(a, y) == 1
  }

  lemma InverseExists(a: Fe)
    ensures Inverse(a).Some? <==> Invertible(a)
  {
    if Inverse(a).Some? {
      assert Mul(a, Inverse(a).value) == 1;
    }
  }

  lemma OneIsInvertible()
    ensures Invertible(1)
  {
    assert Mul(1, 1) == 1;
  }

  lemma ZeroNotInvertible()
    ensures !Invertible(0)
  {
    forall y: Fe ensures Mul(0, y) != 1 {
      MulZero(y);
    }
  }

  /** `a / b`: multiplication by the inverse; arkworks panics when b has none. */
  function Div(a: Fe, b: Fe): Fe
    requires Invertible(b)
  {
    InverseExists(b);
    Mul(a, Inverse(b).value)
  }

  /** Multiplying a quotient back by its divisor gives the dividend. */
  lemma DivMul(a: Fe, b: Fe)
    requires Invertible(b)
    ensures Mul(Div(a, b), b) == a
  {
    InverseExists(b);
    MulAssoc(a, Inverse(b).value, b);
    MulOne(a);
  }

  /** A product with an invertible factor is zero only if the other factor is. */
  lemma CancelInvertible(a: Fe, b: Fe)
    requires Invertible(b) && Mul(a, b) == 0
    ensures a == 0
  {
    InverseExists(b);
    MulZero(Inverse(b).value);
    MulAssoc(a, b, Inverse(b).value);
    MulOne(a);
  }
}
