/** What ecpAddJ computes when both operands and the result are one buffer, and exactly when
    it is the double. */
module EcpAliased {
  import opened Qr
  import opened Gfp
  import opened EcpPoints
  import N = Numbers
  import J = EcpJacobian

  // The operand with za replaced by what ecpAddJ has already written there.
  function Overwritten(p: nat, a: Jac): (q: Jac)
    requires p > 1 && InField(p, a)
    ensures InField(p, q)
  {
    a.(z := J.ZSum(p, a, a))
  }

  // What the buffer holds in the end.
  function AddAliased(cv: Curve, a: Jac): (c: Jac)
    requires ValidCurve(cv) && InField(cv.p, a)
    ensures InField(cv.p, c)
  {
    if a.z == 0 then a
    else
      var q := Overwritten(cv.p, a);
      J.DblJ(cv, q, q)
  }

  // ---------------------------------------------------------------- the double as fractions

  // The double of (x, y) with m == 3 x^2 + A is (XNum / 4 y^2, YNum / 8 y^3).
  function XNum(x: int, y: int, m: int): int
  {
    m * m - 8 * (x * (y * y))
  }

  function YNum(x: int, y: int, m: int): int
  {
    m * (12 * (x * (y * y)) - m * m) - 8 * (y * y * (y * y))
  }

  function Slope(x: int, a: int): int
  {
    3 * (x * x) + a
  }

  lemma XNumSame(p: nat, x: int, y: int, m: int, x': int, y': int, m': int)
    requires p > 1 && Rs(p, x) == Rs(p, x') && Rs(p, y) == Rs(p, y') && Rs(p, m) == Rs(p, m')
    ensures Rs(p, XNum(x, y, m)) == Rs(p, XNum(x', y', m'))
  {
    hide Rs, Mul, Sub;
    XNumSteps(p, x, y, m);
    XNumSteps(p, x', y', m');
  }

  lemma XNumSteps(p: nat, x: int, y: int, m: int)
    requires p > 1
    ensures var r, X, Y, M := F(p), Rs(p, x), Rs(p, y), Rs(p, m);
            Rs(p, XNum(x, y, m)) == Sub(r, Mul(r, M, M), Mul(r, Rs(p, 8), Mul(r, X, Mul(r, Y, Y))))
  {
    hide Rs, Mul, Sub;
    MulIs(p, m, m, m * m);
    MulIs(p, y, y, y * y);
    MulIs(p, x, y * y, x * (y * y));
    MulIs(p, 8, x * (y * y), 8 * (x * (y * y)));
    SubIs(p, m * m, 8 * (x * (y * y)), XNum(x, y, m));
  }

  lemma YNumSame(p: nat, x: int, y: int, m: int, x': int, y': int, m': int)
    requires p > 1 && Rs(p, x) == Rs(p, x') && Rs(p, y) == Rs(p, y') && Rs(p, m) == Rs(p, m')
    ensures Rs(p, YNum(x, y, m)) == Rs(p, YNum(x', y', m'))
  {
    hide Rs, Mul, Sub;
    YNumSteps(p, x, y, m);
    YNumSteps(p, x', y', m');
  }

  lemma YNumSteps(p: nat, x: int, y: int, m: int)
    requires p > 1
    ensures var r, X, Y, M := F(p), Rs(p, x), Rs(p, y), Rs(p, m);
            var YY := Mul(r, Y, Y);
            Rs(p, YNum(x, y, m))
            == Sub(r, Mul(r, M, Sub(r, Mul(r, Rs(p, 12), Mul(r, X, YY)), Mul(r, M, M))),
                   Mul(r, Rs(p, 8), Mul(r, YY, YY)))
  {
    hide Rs, Mul, Sub;
    var yy, mm := y * y, m * m;
    var u := x * yy;
    MulIs(p, y, y, yy);
    MulIs(p, m, m, mm);
    MulIs(p, x, yy, u);
    MulIs(p, 12, u, 12 * u);
    SubIs(p, 12 * u, mm, 12 * u - mm);
    MulIs(p, m, 12 * u - mm, m * (12 * u - mm));
    MulIs(p, yy, yy, yy * yy);
    MulIs(p, 8, yy * yy, 8 * (yy * yy));
    SubIs(p, m * (12 * u - mm), 8 * (yy * yy), YNum(x, y, m));
  }

  lemma SlopeFractions(x: int, y: int, l: int)
    ensures var x3, m := l * l - x - x, 2 * (y * l);
            && x3 * (4 * (y * y)) == XNum(x, y, m)
            && (l * (x - x3) - y) * (8 * (y * y * y)) == YNum(x, y, m)
  {
    var yy, yl := y * y, y * l;
    assert yl * yl == (l * l) * yy;
    assert 2 * yl * (2 * yl) == 4 * ((l * l) * yy);
    assert x * (4 * yy) == 4 * (x * yy);
    SlopeFractionY(x, y, l, yy, yl);
  }

  lemma SlopeFractionY(x: int, y: int, l: int, yy: int, yl: int)
    requires yy == y * y && yl == y * l && yl * yl == (l * l) * yy
    ensures (l * (x - (l * l - x - x)) - y) * (8 * (yy * y))
            == 2 * yl * (12 * (x * yy) - 2 * yl * (2 * yl)) - 8 * (yy * yy)
  {
    var k := 3 * x - l * l;
    assert x - (l * l - x - x) == k;
    assert (l * k) * (yy * y) == (yl * k) * yy;
    assert y * (yy * y) == yy * yy;
    assert k * yy == 3 * (x * yy) - yl * yl;
    assert (yl * k) * yy == yl * (k * yy);
  }

  lemma DoubleFractions(cv: Curve, x: nat, y: nat)
    requires ValidCurve(cv) && x < cv.p && 0 < y < cv.p
    ensures var d, m := AddA(cv, Affine(x, y), Affine(x, y)), Slope(x, cv.A);
            && d.Affine? && d.x < cv.p && d.y < cv.p
            && Rs(cv.p, d.x * (4 * (y * y))) == Rs(cv.p, XNum(x, y, m))
            && Rs(cv.p, d.y * (8 * (y * y * y))) == Rs(cv.p, YNum(x, y, m))
  {
    hide N.Prime, Quot, TangentNum, Third, Rs, Mul, XNum, YNum;
    var p := cv.p;
    var l := TangentSlope(cv, x, y);
    ThirdIs(p, x, y, x, l);
    var x3, m := l * l - x - x, 2 * (y * l);
    SlopeFractions(x, y, l);
    RsOf(p, cv.A);
    var k := RsSame(p, cv.A, m - 3 * (x * x));
    RsBy(p, Slope(x, cv.A), m, k);
    XNumSame(p, x, y, m, x, y, Slope(x, cv.A));
    YNumSame(p, x, y, m, x, y, Slope(x, cv.A));
    Times(p, x3, 4 * (y * y));
    Times(p, l * (x - x3) - y, 8 * (y * y * y));
  }

  // A residue times w is the product.
  lemma Times(p: nat, n: int, w: int)
    requires p > 1
    ensures Rs(p, Rs(p, n) * w) == Rs(p, n * w)
  {
    hide Rs, Mul;
    RsOf(p, Rs(p, n));
    MulIs(p, n, w, n * w);
    MulIs(p, Rs(p, n), w, Rs(p, n) * w);
  }

  // ---------------------------------------------------------------- the overwritten operand

  // The point (X, Y) becomes (X / s^2, Y / s^3) for s == 2 za.
  lemma OverwrittenPoint(p: nat, a: Jac)
    requires PrimeField(p) && InField(p, a) && a.z != 0
    ensures var q, s := Overwritten(p, a), 2 * a.z;
            var P, Q := ToA(p, a), ToA(p, q);
            && q.z != 0 && P.Affine? && Q.Affine?
            && P.x == Rs(p, Q.x * (s * s)) && P.y == Rs(p, Q.y * (s * s * s))
            && (Q.y == 0 <==> P.y == 0)
  {
    hide N.Prime, Rs, Mul, ToA, J.ZSum;
    var q, z := Overwritten(p, a), a.z;
    J.ZSumIs(p, a, a);
    RsOf(p, z);
    SmallNonzero(p, 2);
    NonzeroProduct(p, z, z);
    NonzeroProduct(p, 2, z * z);
    ToAAffine(p, a);
    ToAAffine(p, q);
    FromJac(p, a);
    FromJac(p, q);
    var P, Q := ToA(p, a), ToA(p, q);
    Replaced(p, Q.x, Q.y, q.z, 2 * (z * z));
    Unscale(p, P.x, Q.x, P.y, Q.y, z);
  }

  lemma Replaced(p: nat, x: nat, y: nat, z: nat, w: int)
    requires p > 1 && z < p && z == Rs(p, w)
    ensures Rs(p, x * (z * z)) == Rs(p, x * (w * w)) && Rs(p, y * (z * z * z)) == Rs(p, y * (w * w * w))
  {
    hide Rs, Mul;
    RsOf(p, z);
    MulIs(p, z, z, z * z);
    MulIs(p, w, w, w * w);
    MulIs(p, z * z, z, z * z * z);
    MulIs(p, w * w, w, w * w * w);
    MulIs(p, x, z * z, x * (z * z));
    MulIs(p, x, w * w, x * (w * w));
    MulIs(p, y, z * z * z, y * (z * z * z));
    MulIs(p, y, w * w * w, y * (w * w * w));
  }

  // x z^2 == x' (2 z^2)^2 and y z^3 == y' (2 z^2)^3 with z^2 and z^3 cancelled
  lemma Unscale(p: nat, x: nat, x': nat, y: nat, y': nat, z: nat)
    requires PrimeField(p) && x < p && y < p && 0 < z < p
    requires var w := 2 * (z * z); Rs(p, x * (z * z)) == Rs(p, x' * (w * w)) && Rs(p, y * (z * z * z)) == Rs(p, y' * (w * w * w))
    ensures var s := 2 * z; x == Rs(p, x' * (s * s)) && y == Rs(p, y' * (s * s * s))
  {
    hide N.Prime, Rs;
    var w, s := 2 * (z * z), 2 * z;
    RsOf(p, z);
    J.NonzeroCube(p, z);
    UnscaleInt(x', y', z);
    var u, v := Rs(p, x' * (s * s)), Rs(p, y' * (s * s * s));
    Times(p, x' * (s * s), z * z);
    Times(p, y' * (s * s * s), z * z * z);
    J.SameCoordinate(p, x, u, z * z);
    J.SameCoordinate(p, y, v, z * z * z);
  }

  lemma UnscaleInt(x: int, y: int, z: int)
    ensures var w, s := 2 * (z * z), 2 * z;
            x * (w * w) == x * (s * s) * (z * z) && y * (w * w * w) == y * (s * s * s) * (z * z * z)
  {
    var w, s := 2 * (z * z), 2 * z;
    assert w == s * z;
    assert (s * z) * (s * z) == (s * s) * (z * z);
    assert (s * s) * (z * z) * (s * z) == (s * s * s) * (z * z * z);
  }

  // The fractions at (x s^2, y s^3) and coefficient A s^4 are scaled ones.
  lemma ScaledFractions(x: int, y: int, s: int, A: int)
    ensures var s2, s3 := s * s, s * s * s;
            var X, Y, m := x * s2, y * s3, Slope(x * s2, A * (s2 * s2));
            && XNum(X, Y, m) == XNum(x, y, Slope(x, A)) * (s2 * s2 * (s2 * s2))
            && YNum(X, Y, m) == YNum(x, y, Slope(x, A)) * (s2 * s2 * (s2 * s2) * (s2 * s2))
  {
    hide Slope, XNum, YNum;
    var s2, s3 := s * s, s * s * s;
    var s4, M := s2 * s2, Slope(x, A);
    var X, Y, m := x * s2, y * s3, Slope(x * s2, A * s4);
    ScaledSlope(x, s2, A);
    SquareOfY(y, s, s2, s3);
    ScaledProduct(x, s2, s4, y * y, Y * Y);
    N.Squared(M, s4);
    ScaledX(x, y, M, s4, X, Y, m);
    ScaledY(x, y, M, s4, s2, X, Y, m);
  }

  lemma ScaledSlope(x: int, s2: int, A: int)
    ensures Slope(x * s2, A * (s2 * s2)) == Slope(x, A) * (s2 * s2)
  {
    N.Squared(x, s2);
  }

  lemma ScaledProduct(x: int, s2: int, s4: int, yy: int, YY: int)
    requires s4 == s2 * s2 && YY == yy * (s2 * s4)
    ensures x * s2 * YY == x * yy * (s4 * s4)
  {
    assert s2 * (s2 * s4) == s4 * s4;
    N.Regroup(x, s2, yy, s2 * s4);
  }

  lemma ScaledX(x: int, y: int, M: int, s4: int, X: int, Y: int, m: int)
    requires X * (Y * Y) == x * (y * y) * (s4 * s4) && m * m == M * M * (s4 * s4)
    ensures XNum(X, Y, m) == XNum(x, y, M) * (s4 * s4)
  {
  }

  lemma SquareOfY(y: int, s: int, s2: int, s3: int)
    requires s2 == s * s && s3 == s * s * s
    ensures (y * s3) * (y * s3) == (y * y) * (s2 * (s2 * s2))
  {
    assert s3 == s * s2;
    assert s3 * s3 == s2 * (s2 * s2);
    assert (y * s3) * (y * s3) == (y * y) * (s3 * s3);
  }

  lemma ScaledY(x: int, y: int, M: int, s4: int, s2: int, X: int, Y: int, m: int)
    requires s4 == s2 * s2 && X * (Y * Y) == x * (y * y) * (s4 * s4) && Y * Y == y * y * (s2 * s4)
    requires m == M * s4 && m * m == M * M * (s4 * s4)
    ensures YNum(X, Y, m) == YNum(x, y, M) * (s4 * s4 * s4)
  {
    var u, v := x * (y * y), y * y;
    var k, K := 12 * u - M * M, 12 * (X * (Y * Y)) - m * m;
    assert K == k * (s4 * s4);
    N.Regroup(M, s4, k, s4 * s4);
    N.Squared(v, s2 * s4);
    N.Squared(s2, s4);
    ScaledEnd(M * k, v * v, s4, m * K, Y * Y * (Y * Y));
  }

  lemma ScaledEnd(a: int, b: int, s4: int, a': int, b': int)
    requires a' == a * (s4 * (s4 * s4)) && b' == b * (s4 * (s4 * s4))
    ensures a' - 8 * b' == (a - 8 * b) * (s4 * s4 * s4)
  {
  }

  // ---------------------------------------------------------------- when it is the double

  // The tests on the affine point and s == 2 za: polynomial equations without division.
  predicate SameX(cv: Curve, x: int, y: int, s: int)
    requires cv.p > 1
  {
    Rs(cv.p, XNum(x, y, Slope(x, cv.A * (s * s * (s * s))))) == Rs(cv.p, XNum(x, y, Slope(x, cv.A)) * (s * s))
  }

  predicate SameY(cv: Curve, x: int, y: int, s: int)
    requires cv.p > 1
  {
    Rs(cv.p, YNum(x, y, Slope(x, cv.A * (s * s * (s * s))))) == Rs(cv.p, YNum(x, y, Slope(x, cv.A)) * (s * s * s))
  }

  // Both doubles over the common denominators 4 y^2 s^2 and 8 y^3 s^3.
  lemma CommonX(cv: Curve, x: nat, y: nat, x': nat, y': nat, s: nat)
    requires ValidCurve(cv) && x < cv.p && 0 < y < cv.p && x' < cv.p && 0 < y' < cv.p
    requires x == Rs(cv.p, x' * (s * s)) && y == Rs(cv.p, y' * (s * s * s))
    ensures var d, e, w := AddA(cv, Affine(x, y), Affine(x, y)), AddA(cv, Affine(x', y'), Affine(x', y')), 4 * (y * y) * (s * s);
            && d.Affine? && e.Affine?
            && Rs(cv.p, d.x * w) == Rs(cv.p, XNum(x, y, Slope(x, cv.A)) * (s * s))
            && Rs(cv.p, e.x * w) == Rs(cv.p, XNum(x, y, Slope(x, cv.A * (s * s * (s * s)))))
  {
    hide N.Prime, AddA, Rs, XNum, YNum, Slope, Mul;
    var p := cv.p;
    DoubleFractions(cv, x, y);
    DoubleFractions(cv, x', y');
    var d, e := AddA(cv, Affine(x, y), Affine(x, y)), AddA(cv, Affine(x', y'), Affine(x', y'));
    var s2 := s * s;
    var s8 := s2 * s2 * (s2 * s2);
    Carry(p, d.x, 4 * (y * y), s2, XNum(x, y, Slope(x, cv.A)));
    Carry(p, e.x, 4 * (y' * y'), s8, XNum(x', y', Slope(x', cv.A)));
    ScaledFractions(x', y', s, cv.A);
    ToTheLeft(p, x, y, x' * s2, y' * (s * s * s), cv.A * (s2 * s2));
    DenominatorX(p, e.x, y, y', s);
  }

  // d n1 == t, times s
  lemma Carry(p: nat, d: int, n: int, s: int, t: int)
    requires p > 1 && Rs(p, d * n) == Rs(p, t)
    ensures Rs(p, d * (n * s)) == Rs(p, t * s)
  {
    hide Rs, Mul;
    MulIs(p, d * n, s, d * n * s);
    MulIs(p, t, s, t * s);
    assert d * n * s == d * (n * s);
  }

  // The fractions at congruent points.
  lemma ToTheLeft(p: nat, x: nat, y: nat, X: int, Y: int, a: int)
    requires p > 1 && x < p && y < p && x == Rs(p, X) && y == Rs(p, Y)
    ensures Rs(p, XNum(x, y, Slope(x, a))) == Rs(p, XNum(X, Y, Slope(X, a)))
    ensures Rs(p, YNum(x, y, Slope(x, a))) == Rs(p, YNum(X, Y, Slope(X, a)))
  {
    hide Rs, XNum, YNum, Mul, Add;
    RsOf(p, x);
    RsOf(p, y);
    SlopeSame(p, x, X, a);
    XNumSame(p, x, y, Slope(x, a), X, Y, Slope(X, a));
    YNumSame(p, x, y, Slope(x, a), X, Y, Slope(X, a));
  }

  lemma SlopeSame(p: nat, x: int, X: int, a: int)
    requires p > 1 && Rs(p, x) == Rs(p, X)
    ensures Rs(p, Slope(x, a)) == Rs(p, Slope(X, a))
  {
    hide Rs, Mul, Add;
    MulIs(p, x, x, x * x);
    MulIs(p, X, X, X * X);
    MulIs(p, 3, x * x, 3 * (x * x));
    MulIs(p, 3, X * X, 3 * (X * X));
    AddIs(p, 3 * (x * x), a, Slope(x, a));
    AddIs(p, 3 * (X * X), a, Slope(X, a));
  }

  // 4 y'^2 s^8 and 4 y^2 s^2 for y == y' s^3
  lemma DenominatorX(p: nat, d: int, y: nat, y': int, s: int)
    requires p > 1 && y < p && y == Rs(p, y' * (s * s * s))
    ensures var s2 := s * s; Rs(p, d * (4 * (y' * y') * (s2 * s2 * (s2 * s2)))) == Rs(p, d * (4 * (y * y) * s2))
  {
    hide Rs, Mul;
    var s2 := s * s;
    var Y := y' * (s * s * s);
    RsOf(p, y);
    SquareOfY(y', s, s2, s * s * s);
    assert 4 * (Y * Y) * s2 == 4 * (y' * y') * (s2 * s2 * (s2 * s2)) by {
      assert (y' * y') * (s2 * (s2 * s2)) * s2 == (y' * y') * (s2 * s2 * (s2 * s2));
    }
    MulIs(p, y, y, y * y);
    MulIs(p, Y, Y, Y * Y);
    MulIs(p, 4, y * y, 4 * (y * y));
    MulIs(p, 4, Y * Y, 4 * (Y * Y));
    MulIs(p, 4 * (y * y), s2, 4 * (y * y) * s2);
    MulIs(p, 4 * (Y * Y), s2, 4 * (Y * Y) * s2);
    MulIs(p, d, 4 * (y * y) * s2, d * (4 * (y * y) * s2));
    MulIs(p, d, 4 * (Y * Y) * s2, d * (4 * (Y * Y) * s2));
  }

  lemma CommonY(cv: Curve, x: nat, y: nat, x': nat, y': nat, s: nat)
    requires ValidCurve(cv) && x < cv.p && 0 < y < cv.p && x' < cv.p && 0 < y' < cv.p
    requires x == Rs(cv.p, x' * (s * s)) && y == Rs(cv.p, y' * (s * s * s))
    ensures var d, e, w := AddA(cv, Affine(x, y), Affine(x, y)), AddA(cv, Affine(x', y'), Affine(x', y')), 8 * (y * y * y) * (s * s * s);
            && d.Affine? && e.Affine?
            && Rs(cv.p, d.y * w) == Rs(cv.p, YNum(x, y, Slope(x, cv.A)) * (s * s * s))
            && Rs(cv.p, e.y * w) == Rs(cv.p, YNum(x, y, Slope(x, cv.A * (s * s * (s * s)))))
  {
    hide N.Prime, AddA, Rs, XNum, YNum, Slope, Mul;
    var p := cv.p;
    DoubleFractions(cv, x, y);
    DoubleFractions(cv, x', y');
    var d, e := AddA(cv, Affine(x, y), Affine(x, y)), AddA(cv, Affine(x', y'), Affine(x', y'));
    var s2 := s * s;
    var s12 := s2 * s2 * (s2 * s2) * (s2 * s2);
    Carry(p, d.y, 8 * (y * y * y), s * s * s, YNum(x, y, Slope(x, cv.A)));
    Carry(p, e.y, 8 * (y' * y' * y'), s12, YNum(x', y', Slope(x', cv.A)));
    ScaledFractions(x', y', s, cv.A);
    ToTheLeft(p, x, y, x' * s2, y' * (s * s * s), cv.A * (s2 * s2));
    DenominatorY(p, e.y, y, y', s);
  }

  // 8 y'^3 s^12 and 8 y^3 s^3 for y == y' s^3
  lemma DenominatorY(p: nat, d: int, y: nat, y': int, s: int)
    requires p > 1 && y < p && y == Rs(p, y' * (s * s * s))
    ensures var s2 := s * s;
            Rs(p, d * (8 * (y' * y' * y') * (s2 * s2 * (s2 * s2) * (s2 * s2))))
            == Rs(p, d * (8 * (y * y * y) * (s * s * s)))
  {
    hide Rs, Mul;
    var s2, s3 := s * s, s * s * s;
    var Y := y' * s3;
    RsOf(p, y);
    CubeOfY(y', s, s2, s3);
    MulIs(p, y, y, y * y);
    MulIs(p, Y, Y, Y * Y);
    MulIs(p, y * y, y, y * y * y);
    MulIs(p, Y * Y, Y, Y * Y * Y);
    MulIs(p, 8, y * y * y, 8 * (y * y * y));
    MulIs(p, 8, Y * Y * Y, 8 * (Y * Y * Y));
    MulIs(p, 8 * (y * y * y), s3, 8 * (y * y * y) * s3);
    MulIs(p, 8 * (Y * Y * Y), s3, 8 * (Y * Y * Y) * s3);
    MulIs(p, d, 8 * (y * y * y) * s3, d * (8 * (y * y * y) * s3));
    MulIs(p, d, 8 * (Y * Y * Y) * s3, d * (8 * (Y * Y * Y) * s3));
  }

  lemma CubeOfY(y: int, s: int, s2: int, s3: int)
    requires s2 == s * s && s3 == s * s * s
    ensures var Y := y * s3; 8 * (Y * Y * Y) * s3 == 8 * (y * y * y) * (s2 * s2 * (s2 * s2) * (s2 * s2))
  {
    var Y, s6 := y * s3, s2 * (s2 * s2);
    SquareOfY(y, s, s2, s3);
    CubeOfS(s, s2, s3);
    N.Regroup(y * y, s6, y, s3 * s3);
    CubeEnd(y, s3, s6, Y);
  }

  lemma CubeOfS(s: int, s2: int, s3: int)
    requires s2 == s * s && s3 == s * s * s
    ensures s3 * s3 == s2 * (s2 * s2)
    ensures s2 * (s2 * s2) * (s2 * (s2 * s2)) == s2 * s2 * (s2 * s2) * (s2 * s2)
  {
    assert s3 == s * s2;
    N.Squared(s, s2);
    N.Squared(s2, s2 * s2);
  }

  lemma CubeEnd(y: int, s3: int, s6: int, Y: int)
    requires Y == y * s3 && Y * Y == y * y * s6 && s3 * s3 == s6
    ensures Y * Y * Y * s3 == y * y * y * (s6 * s6)
  {
    assert Y * s3 == y * s6;
    assert Y * Y * (Y * s3) == y * y * s6 * (y * s6);
    N.Regroup(y * y, s6, y, s6);
  }

  /** With one buffer for both operands and the result ecpAddJ gives the double exactly when the
      operand is O, or its y-coordinate is 0, or both tests hold for s == 2 za. */
  lemma AliasedExact(cv: Curve, a: Jac)
    requires ValidCurve(cv) && InField(cv.p, a)
    ensures var P, s := ToA(cv.p, a), 2 * a.z;
            ToA(cv.p, AddAliased(cv, a)) == AddA(cv, P, P)
            <==> a.z == 0 || a.y == 0 || (P.Affine? && SameX(cv, P.x, P.y, s) && SameY(cv, P.x, P.y, s))
  {
    hide N.Prime, AddA, ToA, Rs, Mul, J.DblJ, Overwritten, SameX, SameY;
    var p := cv.p;
    var P := ToA(p, a);
    if a.z == 0 {
      InfinityTwice(cv, a);
    } else {
      var q := Overwritten(p, a);
      OverwrittenPoint(p, a);
      FromJac(p, a);
      J.DblJLaw(cv, q, q);
      var Q := ToA(p, q);
      if P.y == 0 {
        OrderTwo(cv, P);
        OrderTwo(cv, Q);
      } else {
        DoublesAgree(cv, P.x, P.y, Q.x, Q.y, 2 * a.z);
      }
    }
  }

  lemma InfinityTwice(cv: Curve, a: Jac)
    requires ValidCurve(cv) && a.z == 0
    ensures ToA(cv.p, a) == Infinity && AddA(cv, Infinity, Infinity) == Infinity
  {
  }

  lemma OrderTwo(cv: Curve, P: Point)
    requires ValidCurve(cv) && PointIn(cv.p, P) && P.Affine? && P.y == 0
    ensures AddA(cv, P, P) == Infinity
  {
  }

  lemma DoublesAgree(cv: Curve, x: nat, y: nat, x': nat, y': nat, s: nat)
    requires ValidCurve(cv) && x < cv.p && 0 < y < cv.p && x' < cv.p && 0 < y' < cv.p
    requires x == Rs(cv.p, x' * (s * s)) && y == Rs(cv.p, y' * (s * s * s))
    ensures AddA(cv, Affine(x', y'), Affine(x', y')) == AddA(cv, Affine(x, y), Affine(x, y))
            <==> SameX(cv, x, y, s) && SameY(cv, x, y, s)
  {
    hide N.Prime, AddA, Rs, Mul, XNum, YNum, Slope;
    var p := cv.p;
    CommonX(cv, x, y, x', y', s);
    CommonY(cv, x, y, x', y', s);
    DoubleFractions(cv, x, y);
    DoubleFractions(cv, x', y');
    var d, e := AddA(cv, Affine(x, y), Affine(x, y)), AddA(cv, Affine(x', y'), Affine(x', y'));
    Denominators(p, y, y', s);
    J.SameCoordinate(p, e.x, d.x, 4 * (y * y) * (s * s));
    J.SameCoordinate(p, e.y, d.y, 8 * (y * y * y) * (s * s * s));
  }

  lemma Denominators(p: nat, y: nat, y': nat, s: nat)
    requires PrimeField(p) && 0 < y < p && y == Rs(p, y' * (s * s * s))
    ensures Rs(p, 4 * (y * y) * (s * s)) != 0 && Rs(p, 8 * (y * y * y) * (s * s * s)) != 0
  {
    hide N.Prime, Rs, Mul;
    RsOf(p, y);
    RsOf(p, 0);
    SmallNonzero(p, 2);
    if Rs(p, s) == 0 {
      MulIs(p, s, s, s * s);
      MulIs(p, s * s, s, s * s * s);
      MulIs(p, y', s * s * s, y' * (s * s * s));
      MulUnit(F(p), Rs(p, s * s));
      MulUnit(F(p), Rs(p, y'));
    }
    NonzeroProduct(p, s, s);
    NonzeroProduct(p, s * s, s);
    NonzeroProduct(p, y, y);
    NonzeroProduct(p, y * y, y);
    NonzeroProduct(p, 2, 2);
    NonzeroProduct(p, 4, 2);
    NonzeroProduct(p, 4, y * y);
    NonzeroProduct(p, 4 * (y * y), s * s);
    NonzeroProduct(p, 8, y * y * y);
    NonzeroProduct(p, 8 * (y * y * y), s * s * s);
  }

  // ---------------------------------------------------------------- right and wrong cases

  /** When 2 za == 1 the overwritten coordinate is za again and the result is right. */
  lemma AliasedHalf(cv: Curve, a: Jac)
    requires ValidCurve(cv) && InField(cv.p, a) && Rs(cv.p, 2 * a.z) == 1
    ensures ToA(cv.p, AddAliased(cv, a)) == AddA(cv, ToA(cv.p, a), ToA(cv.p, a))
  {
    hide N.Prime, AddA, ToA, Rs, Mul, J.DblJ, J.ZSum;
    var p, z := cv.p, a.z;
    if z == 0 {
      InfinityTwice(cv, a);
    } else {
      J.ZSumIs(p, a, a);
      RsOf(p, z);
      RsOf(p, 1);
      MulIs(p, 2 * z, z, 2 * (z * z));
      MulUnit(F(p), z);
      J.DblJLaw(cv, a, a);
    }
  }

  /** Whatever A, the aliased sum of (0 : y : 1) with itself is wrong, unless the field has 7
      elements. The point lies on the curve with B == y^2. */
  lemma AliasedSumIsWrong(cv: Curve, y: nat)
    requires ValidCurve(cv) && 0 < y < cv.p && cv.p != 7
    ensures var a := Jac(0, y, 1); ToA(cv.p, AddAliased(cv, a)) != AddA(cv, ToA(cv.p, a), ToA(cv.p, a))
  {
    hide N.Prime, AddA, ToA, Rs, Mul, AddAliased, XNum, YNum;
    var p, A := cv.p, cv.A;
    J.ToAUnit(p, 0, y);
    AliasedExact(cv, Jac(0, y, 1));
    assert 2 * 1 == 2;
    if SameX(cv, 0, y, 2) && SameY(cv, 0, y, 2) {
      AtZero(y, A);
      AtZero(y, A * 16);
      assert A * (2 * 2 * (2 * 2)) == A * 16;
      // 256 A^2 == 4 A^2
      var i := RsSame(p, A * 16 * (A * 16), A * A * 4);
      WrongX(p, A, i);
      // -8 y^4 == -64 y^4
      WrongY(p, y);
    }
  }

  lemma AtZero(y: int, a: int)
    ensures Slope(0, a) == a && XNum(0, y, a) == a * a && YNum(0, y, 0) == -8 * (y * y * (y * y))
  {
  }

  lemma WrongX(p: nat, A: nat, i: int)
    requires PrimeField(p) && p != 7 && A < p && A * 16 * (A * 16) == A * A * 4 + i * p
    ensures A == 0
  {
    hide N.Prime, Rs;
    RsOf(p, 0);
    RsOf(p, A);
    assert 252 * (A * A) == i * p;
    RsBy(p, 252 * (A * A), 0, i);
    Divisors252(p);
    if A != 0 {
      NonzeroProduct(p, A, A);
      NonzeroProduct(p, 252, A * A);
    }
  }

  lemma Divisors252(p: nat)
    requires PrimeField(p) && p != 7
    ensures Rs(p, 252) != 0 && Rs(p, 56) != 0
  {
    hide N.Prime, Rs;
    SmallNonzero(p, 2);
    SmallNonzero(p, 3);
    Seven(p);
    NonzeroProduct(p, 2, 2);
    NonzeroProduct(p, 4, 2);
    NonzeroProduct(p, 8, 7);
    NonzeroProduct(p, 4, 3);
    NonzeroProduct(p, 12, 3);
    NonzeroProduct(p, 36, 7);
  }

  lemma Seven(p: nat)
    requires PrimeField(p) && p != 7
    ensures Rs(p, 7) != 0
  {
    if p > 7 {
      N.SmallMod(7, p);
    }
  }

  lemma WrongY(p: nat, y: nat)
    requires PrimeField(p) && p != 7 && 0 < y < p
    ensures Rs(p, YNum(0, y, 0)) != Rs(p, YNum(0, y, 0) * 8)
  {
    hide N.Prime, Rs, YNum;
    var w := y * y * (y * y);
    RsOf(p, y);
    Divisors252(p);
    NonzeroProduct(p, y, y);
    NonzeroProduct(p, y * y, y * y);
    NonzeroProduct(p, 56, w);
    AtZero(y, 0);
    NotEightTimes(p, YNum(0, y, 0), w);
  }

  lemma NotEightTimes(p: nat, n: int, w: int)
    requires p > 1 && n == -8 * w && Rs(p, 56 * w) != 0
    ensures Rs(p, n) != Rs(p, n * 8)
  {
    hide Rs;
    RsOf(p, 0);
    if Rs(p, n) == Rs(p, n * 8) {
      var j := RsSame(p, n, n * 8);
      RsBy(p, 56 * w, 0, j);
    }
  }
}
