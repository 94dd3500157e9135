/** Points of a curve y^2 = x^3 + A x + B over a prime field: the affine group law as
    ecpAddAA computes it, and the formulas in Jacobian coordinates x = X / Z^2,
    y = Y / Z^3, O having Z = 0. */
module EcpPoints {
  import opened Qr
  import opened Gfp
  import N = Numbers

  datatype Curve = Curve(p: nat, A: nat, B: nat)
  datatype Point = Infinity | Affine(x: nat, y: nat)
  datatype Jac = Jac(x: nat, y: nat, z: nat)

  ghost predicate ValidCurve(cv: Curve)
  {
    PrimeField(cv.p) && cv.A < cv.p && cv.B < cv.p
  }

  predicate InField(p: nat, j: Jac)
  {
    j.x < p && j.y < p && j.z < p
  }

  predicate PointIn(p: nat, a: Point)
  {
    a.Affine? ==> a.x < p && a.y < p
  }

  function Sqr(r: Ring, a: nat): (c: nat)
    requires Valid(r)
    ensures c < Size(r)
  {
    Mul(r, a, a)
  }

  // ---------------------------------------------------------------- the affine law

  // The third point on the line of slope l through (x1, y1) and a point over x2, reflected.
  function Third(p: nat, x1: nat, y1: nat, x2: nat, l: nat): Point
    requires p > 1 && x1 < p && y1 < p && x2 < p && l < p
  {
    var r := F(p);
    var x3 := Sub(r, Sub(r, Sqr(r, l), x1), x2);
    Affine(x3, Sub(r, Mul(r, l, Sub(r, x1, x3)), y1))
  }

  function TangentNum(cv: Curve, x: nat): (n: nat)
    requires cv.p > 1 && cv.A < cv.p && x < cv.p
    ensures n < cv.p
  {
    var r := F(cv.p);
    var s := Sqr(r, x);
    Add(r, Add(r, Double(r, s), s), cv.A)
  }

  /** The sum of two points as ecpAddAA computes it, with O as the neutral element. */
  function AddA(cv: Curve, a: Point, b: Point): Point
    requires cv.p > 1 && cv.A < cv.p && PointIn(cv.p, a) && PointIn(cv.p, b)
  {
    var r := F(cv.p);
    if a.Infinity? then b
    else if b.Infinity? then a
    else if a.x != b.x then
      Third(cv.p, a.x, a.y, b.x, Quot(r, Sub(r, a.y, b.y), Sub(r, a.x, b.x)))
    else if a.y != b.y || b.y == 0 then Infinity
    else Third(cv.p, a.x, a.y, b.x, Quot(r, TangentNum(cv, a.x), Double(r, a.y)))
  }

  // ---------------------------------------------------------------- from Jacobian to affine

  function ToA(p: nat, j: Jac): (a: Point)
    requires p > 1
    ensures PointIn(p, a)
  {
    if j.z == 0 then Infinity
    else
      var r := F(p);
      var t1 := Inv(r, j.z);
      var t2 := Sqr(r, t1);
      Affine(Mul(r, j.x, t2), Mul(r, j.y, Mul(r, t1, t2)))
  }

  lemma FromJac(p: nat, j: Jac)
    requires PrimeField(p) && InField(p, j) && j.z != 0
    ensures var a := ToA(p, j);
            && j.x == Rs(p, a.x * (j.z * j.z))
            && j.y == Rs(p, a.y * (j.z * j.z * j.z))
            && (a.y == 0 <==> j.y == 0)
  {
    hide Mul, Inv, N.Prime;
    var r, z, a := F(p), j.z, ToA(p, j);
    var t1 := Inv(r, z);
    var t2, s := Sqr(r, t1), Mul(r, z, z);
    InvLaw(r, z);
    Interchange(r, t1, t1, z, z);
    MulUnit(r, 1);
    MulAssoc(r, j.x, t2, s);
    MulUnit(r, j.x);
    // t1^3 z^3 == 1
    Interchange(r, t1, t2, z, s);
    MulAssoc(r, j.y, Mul(r, t1, t2), Mul(r, z, s));
    MulUnit(r, j.y);
    Residues2(p, a.x, z);
    Residues3(p, a.y, z);
    MulUnit(r, Mul(r, z, s));
    MulUnit(r, Mul(r, t1, t2));
  }

  lemma Residues2(p: nat, x: nat, z: nat)
    requires p > 1 && x < p && z < p
    ensures Rs(p, x * (z * z)) == Mul(F(p), x, Mul(F(p), z, z))
  {
    RsOf(p, x);
    RsOf(p, z);
    MulIs(p, z, z, z * z);
    MulIs(p, x, z * z, x * (z * z));
  }

  lemma Residues3(p: nat, y: nat, z: nat)
    requires p > 1 && y < p && z < p
    ensures Rs(p, y * (z * z * z)) == Mul(F(p), y, Mul(F(p), z, Mul(F(p), z, z)))
  {
    RsOf(p, y);
    RsOf(p, z);
    MulIs(p, z, z, z * z);
    MulIs(p, z, z * z, z * z * z);
    MulIs(p, y, z * z * z, y * (z * z * z));
  }

  // Coordinates of the right shape convert to the expected affine point.
  lemma ToJac(p: nat, j: Jac, x: nat, y: nat)
    requires PrimeField(p) && InField(p, j) && j.z != 0 && x < p && y < p
    requires j.x == Rs(p, x * (j.z * j.z)) && j.y == Rs(p, y * (j.z * j.z * j.z))
    ensures ToA(p, j) == Affine(x, y)
  {
    hide Mul, Inv, N.Prime, ToA;
    FromJac(p, j);
    var r, z, a := F(p), j.z, ToA(p, j);
    assert a.Affine? by { ToAAffine(p, j); }
    var s := Mul(r, z, z);
    Residues2(p, a.x, z);
    Residues2(p, x, z);
    Residues3(p, a.y, z);
    Residues3(p, y, z);
    RsOf(p, z);
    if s == 0 { NoZeroDivisors(r, z, z); }
    if Mul(r, z, s) == 0 { NoZeroDivisors(r, z, s); }
    MulCancel(r, a.x, x, s);
    MulCancel(r, a.y, y, Mul(r, z, s));
  }

  lemma ToAAffine(p: nat, j: Jac)
    requires p > 1 && j.z != 0
    ensures ToA(p, j).Affine?
  {
  }

  // ---------------------------------------------------------------- the shape of every formula

  lemma ThirdIs(p: nat, x1: nat, y1: nat, x2: nat, l: nat)
    requires p > 1 && x1 < p && y1 < p && x2 < p && l < p
    ensures var x3 := l * l - x1 - x2;
            Third(p, x1, y1, x2, l) == Affine(Rs(p, x3), Rs(p, l * (x1 - x3) - y1))
  {
    hide Mul, Add, Neg, Rs, Sub;
    RsOf(p, x1);
    RsOf(p, y1);
    RsOf(p, x2);
    RsOf(p, l);
    var x3 := l * l - x1 - x2;
    MulIs(p, l, l, l * l);
    SubIs(p, l * l, x1, l * l - x1);
    SubIs(p, l * l - x1, x2, x3);
    SubIs(p, x1, x3, x1 - x3);
    MulIs(p, l, x1 - x3, l * (x1 - x3));
    SubIs(p, l * (x1 - x3), y1, l * (x1 - x3) - y1);
  }

  /** All formulas end alike: with Z3 = Q, X3 = x3 Q^2 and Y3 = y3 Q^3 for the affine sum
      (x3, y3) of slope l. */
  lemma Finish(p: nat, x1: nat, y1: nat, x2: nat, l: nat, Q: int, j: Jac)
    requires PrimeField(p) && x1 < p && y1 < p && x2 < p && l < p && Rs(p, Q) != 0
    requires var x3 := l * l - x1 - x2;
             && j.x == Rs(p, x3 * (Q * Q))
             && j.y == Rs(p, (l * (x1 - x3) - y1) * (Q * Q * Q))
             && j.z == Rs(p, Q)
    ensures ToA(p, j) == Third(p, x1, y1, x2, l)
  {
    hide Mul, N.Prime, ToA, Third, Rs;
    var x3 := l * l - x1 - x2;
    var y3 := l * (x1 - x3) - y1;
    ThirdIs(p, x1, y1, x2, l);
    Replace2(p, x3, Q);
    Replace3(p, y3, Q);
    ToJac(p, j, Rs(p, x3), Rs(p, y3));
  }

  lemma Replace2(p: nat, x: int, Q: int)
    requires p > 1
    ensures var q := Rs(p, Q); Rs(p, Rs(p, x) * (q * q)) == Rs(p, x * (Q * Q))
  {
    hide Mul, Rs;
    var q := Rs(p, Q);
    RsOf(p, q);
    RsOf(p, Rs(p, x));
    MulIs(p, Q, Q, Q * Q);
    MulIs(p, q, q, q * q);
    MulIs(p, x, Q * Q, x * (Q * Q));
    MulIs(p, Rs(p, x), q * q, Rs(p, x) * (q * q));
  }

  lemma Replace3(p: nat, y: int, Q: int)
    requires p > 1
    ensures var q := Rs(p, Q); Rs(p, Rs(p, y) * (q * q * q)) == Rs(p, y * (Q * Q * Q))
  {
    hide Mul, Rs;
    var q := Rs(p, Q);
    RsOf(p, q);
    RsOf(p, Rs(p, y));
    MulIs(p, Q, Q, Q * Q);
    MulIs(p, q, q, q * q);
    MulIs(p, Q * Q, Q, Q * Q * Q);
    MulIs(p, q * q, q, q * q * q);
    MulIs(p, y, Q * Q * Q, y * (Q * Q * Q));
    MulIs(p, Rs(p, y), q * q * q, Rs(p, y) * (q * q * q));
  }

  // The slope of a chord or a tangent, and what it says about y2 or about A.
  lemma ChordSlope(p: nat, x1: nat, y1: nat, x2: nat, y2: nat) returns (l: nat)
    requires PrimeField(p) && x1 < p && y1 < p && x2 < p && y2 < p && x1 != x2
    ensures l < p && l == Quot(F(p), Sub(F(p), y1, y2), Sub(F(p), x1, x2))
    ensures y2 == Rs(p, y1 - l * (x1 - x2)) && Rs(p, x2 - x1) != 0
  {
    hide N.Prime, Quot, Rs, Sub;
    RsOf(p, x1);
    RsOf(p, x2);
    RsOf(p, y1);
    RsOf(p, y2);
    SubIs(p, x1, x2, x1 - x2);
    SubIs(p, y1, y2, y1 - y2);
    Distinct(p, x1, x2);
    Distinct(p, x2, x1);
    l := QuotIs(p, y1 - y2, x1 - x2);
    var k := RsSame(p, l * (x1 - x2), y1 - y2);
    RsBy(p, y1 - l * (x1 - x2), y2, -k);
  }

  lemma Distinct(p: nat, a: nat, b: nat)
    requires p > 1 && a < p && b < p && a != b
    ensures Rs(p, a - b) != 0
  {
    if a > b {
      N.SmallMod(a - b, p);
    } else {
      N.DivUnique(a - b, p, -1, a - b + p);
    }
  }

  lemma TangentSlope(cv: Curve, x: nat, y: nat) returns (l: nat)
    requires ValidCurve(cv) && x < cv.p && 0 < y < cv.p
    ensures l < cv.p && l == Quot(F(cv.p), TangentNum(cv, x), Double(F(cv.p), y))
    ensures cv.A == Rs(cv.p, 2 * (y * l) - 3 * (x * x)) && Rs(cv.p, 2 * y) != 0
  {
    hide N.Prime, Quot, Mul, Add, Rs, Double, TangentNum;
    var p, m := cv.p, 3 * (x * x) + cv.A;
    RsOf(p, y);
    RsOf(p, cv.A);
    TangentNumIs(cv, x);
    DoubleIs(p, y);
    SmallNonzero(p, 2);
    NonzeroProduct(p, 2, y);
    l := QuotIs(p, m, 2 * y);
    var k := RsSame(p, l * (2 * y), m);
    N.TwoFactors(2, l, y);
    N.Commute(l, y);
    RsBy(p, 2 * (y * l) - 3 * (x * x), cv.A, k);
  }

  lemma TangentNumIs(cv: Curve, x: nat)
    requires ValidCurve(cv) && x < cv.p
    ensures TangentNum(cv, x) == Rs(cv.p, 3 * (x * x) + cv.A)
  {
    hide Mul, Add, Double, Rs, N.Prime;
    var p, xx := cv.p, x * x;
    RsOf(p, x);
    RsOf(p, cv.A);
    MulIs(p, x, x, xx);
    DoubleIs(p, xx);
    AddIs(p, 2 * xx, xx, 3 * xx);
    AddIs(p, 3 * xx, cv.A, 3 * xx + cv.A);
  }
}
