/** Tripling in Jacobian coordinates against two affine additions. */
module EcpTriple {
  import opened Qr
  import opened Gfp
  import opened EcpPoints
  import opened EcpJacobian
  import N = Numbers

  function Times4(r: Ring, a: nat): (c: nat)
    requires Valid(r) && a < Size(r)
    ensures c < Size(r)
  {
    Double(r, Double(r, a))
  }

  // The common end of both triplings: t1 == YY, t2 == ZZ, t4 == M, t6 == E
  function TplEnd(p: nat, a: Jac, t4: nat, t6: nat): (b: Jac)
    requires p > 1 && InField(p, a) && t4 < p && t6 < p
    ensures InField(p, b)
  {
    var r := F(p);
    var t1 := Sqr(r, a.y);
    var t2 := Sqr(r, a.z);
    var t5 := Sqr(r, t4);
    var t7 := Sqr(r, t6);
    var t3 := Times4(r, Times4(r, Sqr(r, t1)));
    var zb := Sub(r, Sub(r, Sqr(r, Add(r, a.z, t6)), t2), t7);
    var t2 := Sub(r, Sub(r, Sub(r, Sqr(r, Add(r, t4, t6)), t5), t7), t3);
    var t3 := Mul(r, t2, Sub(r, t3, t2));
    var t3 := Sub(r, t3, Mul(r, t6, t7));
    var yb := Double(r, Times4(r, Mul(r, a.y, t3)));
    var t1 := Times4(r, Mul(r, t1, t2));
    Jac(Times4(r, Sub(r, Mul(r, a.x, t7), t1)), yb, zb)
  }

  // M == 3 x^2 + A z^4, in the order ecpTplJ adds it
  function TplM(cv: Curve, a: Jac): (m: nat)
    requires cv.p > 1 && cv.A < cv.p && InField(cv.p, a)
    ensures m < cv.p
  {
    var r := F(cv.p);
    var t0 := Sqr(r, a.x);
    Add(r, Mul(r, Sqr(r, Sqr(r, a.z)), cv.A), Add(r, t0, Double(r, t0)))
  }

  // ecpTplJ
  function TplJ(cv: Curve, a: Jac): (b: Jac)
    requires ValidCurve(cv) && InField(cv.p, a)
    ensures InField(cv.p, b)
  {
    var r := F(cv.p);
    var t0 := Sqr(r, a.x);
    var t1 := Sqr(r, a.y);
    var t3 := Sqr(r, t1);
    var t4 := TplM(cv, a);
    var t6 := Sub(r, Sub(r, Sqr(r, Add(r, a.x, t1)), t0), t3);
    var t6 := Double(r, Add(r, t6, Double(r, t6)));
    TplEnd(cv.p, a, t4, Sub(r, t6, Sqr(r, t4)))
  }

  // ecpTplJA3
  function TplJA3(cv: Curve, a: Jac): (b: Jac)
    requires ValidCurve(cv) && InField(cv.p, a)
    ensures InField(cv.p, b)
  {
    var r := F(cv.p);
    var t2 := Sqr(r, a.z);
    var t4 := Mul(r, Sub(r, a.x, t2), Add(r, a.x, t2));
    var t4 := Add(r, t4, Double(r, t4));
    var t6 := Mul(r, a.x, Sqr(r, a.y));
    var t6 := Times4(r, Add(r, t6, Double(r, t6)));
    TplEnd(cv.p, a, t4, Sub(r, t6, Sqr(r, t4)))
  }

  // ---------------------------------------------------------------- the intermediate values

  lemma Times4Is(p: nat, n: int)
    requires p > 1
    ensures Times4(F(p), Rs(p, n)) == Rs(p, 4 * n)
  {
    hide Double, Rs;
    DoubleIs(p, n);
    DoubleIs(p, 2 * n);
  }

  // Both forms of the value M - E depends on: 12 X YY
  lemma TwelveXYY(p: nat, X: int, Y: int)
    requires p > 1
    ensures var r, v := F(p), Rs(p, 12 * (X * (Y * Y)));
            var x, t1 := Rs(p, X), Sqr(r, Rs(p, Y));
            && (var t6 := Sub(r, Sub(r, Sqr(r, Add(r, x, t1)), Sqr(r, x)), Sqr(r, t1));
                Double(r, Add(r, t6, Double(r, t6))) == v)
            && (var t6 := Mul(r, x, t1);
                Times4(r, Add(r, t6, Double(r, t6))) == v)
  {
    hide Mul, Add, Double, Rs, Sub, Times4;
    var yy := Y * Y;
    MulIs(p, Y, Y, yy);
    AddIs(p, X, yy, X + yy);
    MulIs(p, X + yy, X + yy, (X + yy) * (X + yy));
    MulIs(p, X, X, X * X);
    MulIs(p, yy, yy, yy * yy);
    SubIs(p, (X + yy) * (X + yy), X * X, (X + yy) * (X + yy) - X * X);
    SumSquare(X, yy);
    SubIs(p, (X + yy) * (X + yy) - X * X, yy * yy, 2 * (X * yy));
    DoubleIs(p, 2 * (X * yy));
    AddIs(p, 2 * (X * yy), 4 * (X * yy), 6 * (X * yy));
    DoubleIs(p, 6 * (X * yy));
    MulIs(p, X, yy, X * yy);
    DoubleIs(p, X * yy);
    AddIs(p, X * yy, 2 * (X * yy), 3 * (X * yy));
    Times4Is(p, 3 * (X * yy));
  }

  lemma SumSquare(a: int, b: int)
    ensures (a + b) * (a + b) - a * a - b * b == 2 * (a * b)
  {
  }

  lemma TplMIs(cv: Curve, a: Jac)
    requires ValidCurve(cv) && InField(cv.p, a)
    ensures TplM(cv, a) == TangentJ(cv, a)
  {
    hide Mul, N.Prime;
    var r := F(cv.p);
    var t, z := Sqr(r, a.x), Sqr(r, Sqr(r, a.z));
    MulComm(r, cv.A, z);
    SumTwice(r, Mul(r, cv.A, z), t);
  }

  // w + (t + 2t) == (w + t) + 2t
  lemma SumTwice(r: Ring, w: nat, t: nat)
    requires Valid(r) && w < Size(r) && t < Size(r)
    ensures Add(r, w, Add(r, t, Double(r, t))) == Add(r, Add(r, w, t), Double(r, t))
  {
    hide Add, Size;
    AddLaws(r, w, t, Double(r, t));
  }

  /** For A = -3 both triplings write the same coordinates. */
  lemma TplJA3Law(cv: Curve, a: Jac)
    requires ValidCurve(cv) && InField(cv.p, a) && cv.A == cv.p - 3
    ensures TplJA3(cv, a) == TplJ(cv, a)
  {
    hide Mul, Add, Double, Sub, TplEnd, Times4, TplM, TangentJ, N.Prime, Rs;
    var p, r := cv.p, F(cv.p);
    TplMIs(cv, a);
    TangentJA3Is(cv, a);
    RsOf(p, a.x);
    RsOf(p, a.y);
    TwelveXYY(p, a.x, a.y);
    var t2 := Sqr(r, a.z);
    var u, v := Sub(r, a.x, t2), Add(r, a.x, t2);
    MulComm(r, u, v);
    var t4 := Mul(r, u, v);
    AddLaws(r, t4, Double(r, t4), t4);
  }

  // ---------------------------------------------------------------- the end as integers

  lemma TplEndIs(p: nat, a: Jac, X: int, Y: int, M: int, E: int)
    requires p > 1 && InField(p, a) && a.x == Rs(p, X) && a.y == Rs(p, Y)
    ensures var z: int, b := a.z, TplEnd(p, a, Rs(p, M), Rs(p, E));
            var T := 16 * (Y * Y * (Y * Y));
            var U := 2 * (M * E) - T;
            && b.z == Rs(p, 2 * (z * E))
            && b.x == Rs(p, 4 * (X * (E * E) - 4 * (Y * Y * U)))
            && b.y == Rs(p, 8 * (Y * (U * (T - U) - E * (E * E))))
  {
    hide Mul, Add, Double, Rs, Sub, Times4;
    var z: int := a.z;
    var yy, T, ee := Y * Y, 16 * (Y * Y * (Y * Y)), E * E;
    var U := 2 * (M * E) - T;
    RsOf(p, a.z);
    MulIs(p, Y, Y, yy);
    MulIs(p, yy, yy, yy * yy);
    Times4Is(p, yy * yy);
    Times4Is(p, 4 * (yy * yy));
    CrossTerm(p, z, E);
    CrossTerm(p, M, E);
    SubIs(p, 2 * (M * E), T, U);
    MulIs(p, E, E, ee);
    SubIs(p, T, U, T - U);
    MulIs(p, U, T - U, U * (T - U));
    MulIs(p, E, ee, E * ee);
    SubIs(p, U * (T - U), E * ee, U * (T - U) - E * ee);
    var w := U * (T - U) - E * ee;
    MulIs(p, Y, w, Y * w);
    Times4Is(p, Y * w);
    DoubleIs(p, 4 * (Y * w));
    MulIs(p, yy, U, yy * U);
    Times4Is(p, yy * U);
    MulIs(p, X, ee, X * ee);
    SubIs(p, X * ee, 4 * (yy * U), X * ee - 4 * (yy * U));
    Times4Is(p, X * ee - 4 * (yy * U));
  }

  // (m + e)^2 - m^2 - e^2 == 2 m e
  lemma CrossTerm(p: nat, m: int, e: int)
    requires p > 1
    ensures var r, u, v := F(p), Rs(p, m), Rs(p, e);
            Sub(r, Sub(r, Sqr(r, Add(r, u, v)), Sqr(r, u)), Sqr(r, v)) == Rs(p, 2 * (m * e))
  {
    hide Mul, Add, Rs, Sub;
    AddIs(p, m, e, m + e);
    MulIs(p, m + e, m + e, (m + e) * (m + e));
    MulIs(p, m, m, m * m);
    MulIs(p, e, e, e * e);
    SubIs(p, (m + e) * (m + e), m * m, (m + e) * (m + e) - m * m);
    SumSquare(m, e);
    SubIs(p, (m + e) * (m + e) - m * m, e * e, 2 * (m * e));
  }

  // ---------------------------------------------------------------- a point not of order 2

  // The slope is l, Q == y z^4, e == x - x(2P) == 3x - l^2 and y2 == y(2P) == l e - y.
  lemma TplMonomials(x: int, y: int, z: int, l: int, Q: int)
    requires Q == y * (z * z * (z * z))
    ensures var S, V, e := Q * Q, z * (Q * Q), 3 * x - l * l;
            var y2, X, Y := l * e - y, x * (z * z), y * (z * z * z);
            var M, E, T := 2 * (l * Q), 4 * (S * e), 16 * (Y * Y * (Y * Y));
            var U := 2 * (M * E) - T;
            && 12 * (X * (Y * Y)) - M * M == E
            && 2 * (z * E) == 8 * (V * e)
            && 4 * (X * (E * E) - 4 * (Y * Y * U)) == 64 * (V * V * (x * (e * e) - 4 * (y * y2)))
            && 8 * (Y * (U * (T - U) - E * (E * E)))
               == 512 * (V * V * V * (4 * (y * y2) * (y - y2) - y * (e * e * e)))
  {
    var S, V, e := Q * Q, z * (Q * Q), 3 * x - l * l;
    var y2, z2, Y := l * e - y, z * z, y * (z * z * z);
    YPowers(y, z, Q, S);
    TplE(x, l, Q, S, e, Y * Y, z2);
    Reorder12(x, z2, Y * Y);
    TplZ(z, S, e, V);
    TplU(l, Q, S, e, y, y2, 16 * (Y * Y * (Y * Y)));
    TplX(x, y, z, Q, S, V, e, y2, Y * Y);
    TplY(y, z, Q, S, e, y2, 16 * (Y * Y * (Y * Y)));
  }

  lemma Reorder12(x: int, w: int, v: int)
    ensures 12 * (x * w * v) == 12 * ((x * w) * v)
  {
  }

  lemma TplZ(z: int, S: int, e: int, V: int)
    requires V == z * S
    ensures 2 * (z * (4 * (S * e))) == 8 * (V * e)
  {
    assert z * (S * e) == (z * S) * e;
  }

  lemma YPowers(y: int, z: int, Q: int, S: int)
    requires Q == y * (z * z * (z * z)) && S == Q * Q
    ensures var Y := y * (z * z * z);
            && Y * Y * (z * z) == S && Y * Y * (Y * Y) == y * (Q * S) && Y * Y * Q == y * (z * z * S)
  {
    var Y, z2 := y * (z * z * z), z * z;
    HeightTimesZ(y, z, Q);
    N.SquareOfProduct(Y, z, Q, S);
    var yz := y * z2;
    assert Y == yz * z;
    N.TwoFactors(z, yz, Y);
    FourthPower(y, z, yz, Y, Y * Y, Q, S);
    // Y^2 Q == (y z^2 Q) Q
    N.FrontOfNamed(yz, z, Y, Y, Q);
    N.FrontOfNamed(yz, Q, Y * Y, Q, S);
    N.TwoFactors(y, z2, S);
  }

  lemma TplE(x: int, l: int, Q: int, S: int, e: int, YY: int, z2: int)
    requires S == Q * Q && e == 3 * x - l * l && YY * z2 == S
    ensures 12 * (x * z2 * YY) - 2 * (l * Q) * (2 * (l * Q)) == 4 * (S * e)
  {
    assert x * z2 * YY == x * (YY * z2);
    assert 2 * (l * Q) * (2 * (l * Q)) == 4 * (l * l * S);
    assert S * e == 3 * (x * S) - l * l * S;
  }

  lemma TplU(l: int, Q: int, S: int, e: int, y: int, y2: int, T: int)
    requires y2 == l * e - y && T == 16 * (y * (Q * S))
    ensures 2 * (2 * (l * Q) * (4 * (S * e))) - T == 16 * (Q * S * y2)
  {
    assert 2 * (2 * (l * Q) * (4 * (S * e))) == 16 * (Q * S * (l * e));
    assert Q * S * y2 == Q * S * (l * e) - Q * S * y;
  }

  lemma TplX(x: int, y: int, z: int, Q: int, S: int, V: int, e: int, y2: int, YY: int)
    requires V == z * S && YY * Q == y * (z * z * S)
    ensures 4 * (x * (z * z) * (4 * (S * e) * (4 * (S * e))) - 4 * (YY * (16 * (Q * S * y2))))
            == 64 * (V * V * (x * (e * e) - 4 * (y * y2)))
  {
    var W, k, h := V * V, x * (e * e), y * y2;
    TplXFirst(x, z, S, V, e);
    TplXSecond(y, z, Q, S, V, y2, YY);
    TplXDifference(W, k, h);
  }

  lemma TplXFirst(x: int, z: int, S: int, V: int, e: int)
    requires V == z * S
    ensures x * (z * z) * (4 * (S * e) * (4 * (S * e))) == 16 * (V * V * (x * (e * e)))
  {
    var f, zz, ss, ee := S * e, z * z, S * S, e * e;
    N.Pair(S, e, S, e, ee);
    N.SquareOfProduct(z, S, V, V * V);
    N.Pair(x, zz, ee, ss, V * V);
    assert f * f == ss * ee;
    assert 4 * f * (4 * f) == 16 * (f * f);
    SixteenTimes(x * zz, f * f, ss * ee, V * V * (x * ee));
  }

  lemma SixteenTimes(a: int, b: int, c: int, d: int)
    requires b == c && a * c == d
    ensures a * (16 * b) == 16 * d
  {
  }

  lemma TplXSecond(y: int, z: int, Q: int, S: int, V: int, y2: int, YY: int)
    requires V == z * S && YY * Q == y * (z * z * S)
    ensures YY * (16 * (Q * S * y2)) == 16 * (V * V * (y * y2))
  {
    var a, b := y * (z * z * S), S * y2;
    N.FrontOf(YY, Q, b, Q * b);
    assert Q * S * y2 == Q * b;
    TplXSecondSquare(y, z, S, V, y2);
    SixteenTimes(YY, Q * S * y2, Q * b, a * b);
  }

  lemma TplXSecondSquare(y: int, z: int, S: int, V: int, y2: int)
    requires V == z * S
    ensures y * (z * z * S) * (S * y2) == V * V * (y * y2)
  {
    var zz, ss := z * z, S * S;
    N.SquareOfProduct(z, S, V, V * V);
    N.FrontOf(zz, S, S * y2, ss * y2);
    N.FrontOf(y, zz * S, S * y2, zz * (ss * y2));
    N.TwoFactors(zz, ss, y2);
    N.TwoFactors(y, zz * ss, y2);
  }

  lemma TplXDifference(W: int, k: int, h: int)
    ensures 4 * (16 * (W * k) - 4 * (16 * (W * h))) == 64 * (W * (k - 4 * h))
  {
  }

  lemma TplY(y: int, z: int, Q: int, S: int, e: int, y2: int, T: int)
    requires S == Q * Q && T == 16 * (y * (Q * S))
    ensures var U, E, V, Y := 16 * (Q * S * y2), 4 * (S * e), z * S, y * (z * z * z);
            8 * (Y * (U * (T - U) - E * (E * E)))
            == 512 * (V * V * V * (4 * (y * y2) * (y - y2) - y * (e * e * e)))
  {
    var q, K, d, e3 := Q * S, S * S * S, y - y2, e * e * e;
    var w := 4 * (y2 * d) - e3;
    QSquare(Q, S);
    TplYDifference(q, y, y2);
    TplYProduct(q, y2, d);
    TplYCube(S, e);
    TplYFactor(K, y2 * d, e3);
    TplYScale(y, z, S, w);
    TplYLast(y, y2, d, e3);
  }

  lemma TplYFactor(K: int, a: int, b: int)
    ensures 256 * (K * a) - 64 * (K * b) == 64 * (K * (4 * a - b))
  {
  }

  lemma TplYLast(y: int, y2: int, d: int, e3: int)
    ensures y * (4 * (y2 * d) - e3) == 4 * (y * y2) * d - y * e3
  {
  }

  lemma QSquare(Q: int, S: int)
    requires S == Q * Q
    ensures (Q * S) * (Q * S) == S * S * S
  {
    assert (Q * S) * (Q * S) == (Q * Q) * (S * S);
  }

  lemma TplYDifference(q: int, y: int, y2: int)
    ensures 16 * (y * q) - 16 * (q * y2) == 16 * (q * (y - y2))
  {
  }

  lemma TplYProduct(q: int, y2: int, d: int)
    ensures 16 * (q * y2) * (16 * (q * d)) == 256 * ((q * q) * (y2 * d))
  {
    assert (q * y2) * (q * d) == (q * q) * (y2 * d);
  }

  lemma TplYCube(S: int, e: int)
    ensures 4 * (S * e) * (4 * (S * e) * (4 * (S * e))) == 64 * (S * S * S * (e * e * e))
  {
    var f := S * e;
    assert 4 * f * (4 * f * (4 * f)) == 64 * (f * f * f);
    assert f * f == (S * S) * (e * e);
    assert f * f * f == S * S * S * (e * e * e);
  }

  lemma TplYScale(y: int, z: int, S: int, w: int)
    ensures var V := z * S;
            8 * (y * (z * z * z) * (64 * (S * S * S * w))) == 512 * (V * V * V * (y * w))
  {
    var V, c, K := z * S, z * z * z, S * S * S;
    assert V * V == (z * z) * (S * S);
    assert V * V * V == c * K;
    assert y * c * (64 * (K * w)) == 64 * ((c * K) * (y * w));
  }

  lemma RsProduct(p: nat, a: int, b: int, w: int)
    requires p > 1 && Rs(p, a) == Rs(p, b)
    ensures Rs(p, a * w) == Rs(p, b * w)
  {
    hide Rs, Mul;
    MulIs(p, a, w, a * w);
    MulIs(p, b, w, b * w);
  }

  // 3P as the sum of 2P == (x2, y2) and P on a chord of slope k, over the denominators e^2, e^3.
  lemma ThirdOverE(p: nat, x: int, y: int, l: int, X2: nat, Y2: nat, k: nat)
    requires p > 1
    requires var e := 3 * x - l * l;
             X2 == Rs(p, l * l - 2 * x) && Y2 == Rs(p, l * e - y) && Rs(p, y) == Rs(p, Y2 - k * (X2 - x))
    ensures var e, x3 := 3 * x - l * l, k * k - X2 - x;
            var y2 := l * e - y;
            && Rs(p, x3 * (e * e)) == Rs(p, x * (e * e) - 4 * (y * y2))
            && Rs(p, (k * (X2 - x3) - Y2) * (e * e * e)) == Rs(p, 4 * (y * y2) * (y - y2) - y * (e * e * e))
  {
    hide Rs, Mul;
    var e := 3 * x - l * l;
    var x2, y2 := l * l - 2 * x, l * e - y;
    // write everything with multiples of p: X2 == x2 + a p, Y2 == y2 + b p, y == Y2 - k (X2 - x) + c p
    RsOf2(p, x2);
    RsOf2(p, y2);
    var a := RsSame(p, X2, x2);
    var b := RsSame(p, Y2, y2);
    var c := RsSame(p, y, Y2 - k * (X2 - x));
    KTimesE(p, x, y, l, X2, Y2, k, a, b, c);
    var d := b + c - k * a;
    ThirdX(p, x, y, l, e, k, a, d, y2, X2);
    ThirdY(p, x, y, l, e, k, a, b, d, y2, X2, Y2);
  }

  lemma RsOf2(p: nat, n: int)
    requires p > 1
    ensures Rs(p, Rs(p, n)) == Rs(p, n)
  {
    RsOf(p, Rs(p, n));
  }

  lemma KTimesE(p: int, x: int, y: int, l: int, X2: int, Y2: int, k: int, a: int, b: int, c: int)
    requires X2 == l * l - 2 * x + a * p && Y2 == l * (3 * x - l * l) - y + b * p
    requires y == Y2 - k * (X2 - x) + c * p
    ensures var e := 3 * x - l * l; k * e == y - (l * e - y) - (b + c - k * a) * p
  {
    var e := 3 * x - l * l;
    assert X2 - x == a * p - e;
    assert k * (X2 - x) == k * a * p - k * e;
    assert (b + c - k * a) * p == b * p + c * p - k * a * p;
  }

  lemma ThirdX(p: nat, x: int, y: int, l: int, e: int, k: int, a: int, d: int, y2: int, X2: int)
    requires p > 1 && e == 3 * x - l * l && y2 == l * e - y
    requires X2 == l * l - 2 * x + a * p && k * e == y - y2 - d * p
    ensures Rs(p, (k * k - X2 - x) * (e * e)) == Rs(p, x * (e * e) - 4 * (y * y2))
  {
    hide Rs;
    var u, w := y - y2, e * e;
    ChordX(k, X2 + x, e);
    SquareMinus(u, d, p);
    SumSquares(l * e, y);
    ShiftX(l, x, a, w, p);
    LastX(l, e, x);
    var m := d * d * p - 2 * (u * d) - a * w;
    assert m * p == (d * d * p - 2 * (u * d)) * p - (a * w) * p;
    RsBy(p, (k * k - X2 - x) * w, x * w - 4 * (y * y2), m);
  }

  lemma ChordX(k: int, s: int, e: int)
    ensures (k * k - s) * (e * e) == (k * e) * (k * e) - s * (e * e)
  {
    assert (k * e) * (k * e) == k * k * (e * e);
  }

  // (y - y2)^2 == (y + y2)^2 - 4 y y2 with y + y2 == t
  lemma SumSquares(t: int, y: int)
    ensures var y2 := t - y; (y - y2) * (y - y2) == t * t - 4 * (y * y2)
  {
  }

  lemma ShiftX(l: int, x: int, a: int, w: int, p: int)
    ensures (l * l - 2 * x + a * p + x) * w == (l * l - x) * w + (a * w) * p
  {
  }

  lemma LastX(l: int, e: int, x: int)
    ensures (l * e) * (l * e) - (l * l - x) * (e * e) == x * (e * e)
  {
    assert (l * e) * (l * e) == l * l * (e * e);
  }

  lemma SquareMinus(u: int, d: int, p: int)
    ensures (u - d * p) * (u - d * p) == u * u + (d * d * p - 2 * (u * d)) * p
  {
  }

  lemma ThirdY(p: nat, x: int, y: int, l: int, e: int, k: int, a: int, b: int, d: int, y2: int, X2: int, Y2: int)
    requires p > 1 && e == 3 * x - l * l && y2 == l * e - y
    requires X2 == l * l - 2 * x + a * p && Y2 == y2 + b * p && k * e == y - y2 - d * p
    requires Rs(p, (k * k - X2 - x) * (e * e)) == Rs(p, x * (e * e) - 4 * (y * y2))
    ensures Rs(p, (k * (X2 - (k * k - X2 - x)) - Y2) * (e * e * e))
            == Rs(p, 4 * (y * y2) * (y - y2) - y * (e * e * e))
  {
    hide Rs;
    var x3, u, e3 := k * k - X2 - x, y - y2, e * e * e;
    var c := RsSame(p, x3 * (e * e), x * (e * e) - 4 * (y * y2));
    var v, f := 4 * (y * y2) - e3, a * (e * e) - c;
    Height(p, x, e, a, c, X2, x3, 4 * (y * y2));
    Expand(k, X2 - x3, Y2, e);
    ProductMinus(u, d, v, f, p);
    Collect(y, y2, e3, b, p);
    var m := u * f - d * v - d * f * p - b * e3;
    assert m * p == (u * f - d * v - d * f * p) * p - (b * e3) * p;
    RsBy(p, (k * (X2 - x3) - Y2) * e3, 4 * (y * y2) * u - y * e3, m);
  }

  // (X2 - x3) e^2 == -e^3 + 4 y y2 modulo p
  lemma Height(p: int, x: int, e: int, a: int, c: int, X2: int, x3: int, t: int)
    requires X2 == x - e + a * p && x3 * (e * e) == x * (e * e) - t + c * p
    ensures (X2 - x3) * (e * e) == t - e * e * e + (a * (e * e) - c) * p
  {
    var w := e * e;
    assert (X2 - x3) * w == X2 * w - x3 * w;
    assert (x - e + a * p) * w == x * w - e * w + (a * w) * p;
    assert (a * w - c) * p == (a * w) * p - c * p;
  }

  lemma Expand(k: int, h: int, Y2: int, e: int)
    ensures (k * h - Y2) * (e * e * e) == (k * e) * (h * (e * e)) - Y2 * (e * e * e)
  {
    assert (k * e) * (h * (e * e)) == (k * h) * (e * e * e);
  }

  lemma Collect(y: int, y2: int, e3: int, b: int, p: int)
    ensures var u, v := y - y2, 4 * (y * y2) - e3;
            u * v - (y2 + b * p) * e3 == 4 * (y * y2) * u - y * e3 - (b * e3) * p
  {
    var u, t := y - y2, 4 * (y * y2);
    assert u * (t - e3) == t * u - (y - y2) * e3;
    assert (y2 + b * p) * e3 == y2 * e3 + (b * e3) * p;
  }

  lemma ProductMinus(u: int, d: int, v: int, f: int, p: int)
    ensures (u - d * p) * (v + f * p) == u * v + (u * f - d * v - d * f * p) * p
  {
  }

  // ---------------------------------------------------------------- tripling is two additions

  // The tangent at a point is defined: not both y and 3 x^2 + A vanish.
  predicate Smooth(cv: Curve, a: Point)
    requires cv.p > 1 && cv.A < cv.p && PointIn(cv.p, a)
  {
    a.Affine? && a.y == 0 ==> TangentNum(cv, a.x) != 0
  }

  lemma TplValues(cv: Curve, a: Jac, X: int, Y: int, M: int)
    requires ValidCurve(cv) && InField(cv.p, a) && a.x == Rs(cv.p, X) && a.y == Rs(cv.p, Y)
    requires TangentJ(cv, a) == Rs(cv.p, M)
    ensures TplJ(cv, a) == TplEnd(cv.p, a, Rs(cv.p, M), Rs(cv.p, 12 * (X * (Y * Y)) - M * M))
  {
    hide Mul, Add, Double, Rs, Sub, Times4, TplEnd, TplM, TangentJ, N.Prime;
    TplMIs(cv, a);
    TwelveXYY(cv.p, X, Y);
    MulIs(cv.p, M, M, M * M);
    SubIs(cv.p, 12 * (X * (Y * Y)), M * M, 12 * (X * (Y * Y)) - M * M);
  }

  lemma TplOfO(cv: Curve, a: Jac)
    requires ValidCurve(cv) && InField(cv.p, a) && a.z == 0
    ensures TplJ(cv, a).z == 0
  {
    hide Mul, Add, Double, Rs, Sub, Times4, TplEnd, TplM, TangentJ, TplJ, N.Prime;
    var p, M: int := cv.p, TangentJ(cv, a);
    RsOf(p, a.x);
    RsOf(p, a.y);
    RsOf(p, TangentJ(cv, a));
    RsOf(p, 0);
    TplValues(cv, a, a.x, a.y, M);
    TplEndIs(p, a, a.x, a.y, M, 12 * (a.x * (a.y * a.y)) - M * M);
  }

  lemma TangentJNum(cv: Curve, a: Jac, x: nat)
    requires ValidCurve(cv) && InField(cv.p, a) && x < cv.p && a.x == Rs(cv.p, x * (a.z * a.z))
    ensures TangentNum(cv, x) == Rs(cv.p, 3 * (x * x) + cv.A)
    ensures TangentJ(cv, a) == Rs(cv.p, (3 * (x * x) + cv.A) * (a.z * a.z * (a.z * a.z)))
  {
    hide Mul, Add, Double, Rs, N.Prime;
    var p, z, A: int := cv.p, a.z, cv.A;
    var z2, xx := z * z, x * x;
    var z4 := z2 * z2;
    RsOf(p, x);
    RsOf(p, z);
    RsOf(p, cv.A);
    MulIs(p, x, x, xx);
    DoubleIs(p, xx);
    AddIs(p, 2 * xx, xx, 3 * xx);
    AddIs(p, 3 * xx, A, 3 * xx + A);
    MulIs(p, z, z, z2);
    MulIs(p, z2, z2, z4);
    MulIs(p, A, z4, A * z4);
    SquareXZ(x, z2);
    MulIs(p, x * z2, x * z2, xx * z4);
    AddIs(p, A * z4, xx * z4, A * z4 + xx * z4);
    DoubleIs(p, xx * z4);
    NumSum(xx, A, z4);
    AddIs(p, A * z4 + xx * z4, 2 * (xx * z4), (3 * xx + A) * z4);
  }

  lemma NumSum(s: int, A: int, w: int)
    ensures A * w + s * w + 2 * (s * w) == (3 * s + A) * w
  {
  }

  // A point of order 2 is its own triple.
  lemma TplOfOrder2(cv: Curve, a: Jac)
    requires ValidCurve(cv) && InField(cv.p, a) && a.z != 0 && a.y == 0
    requires Smooth(cv, ToA(cv.p, a))
    ensures ToA(cv.p, TplJ(cv, a)) == ToA(cv.p, a)
  {
    hide Mul, Add, Double, Rs, Sub, Times4, TplEnd, TplM, TangentJ, TplJ, ToA, TangentNum, N.Prime;
    var p, z := cv.p, a.z;
    ToAAffine(p, a);
    FromJac(p, a);
    var x := ToA(p, a).x;
    var z2 := z * z;
    RsOf(p, z);
    RsOf(p, 0);
    TangentJNum(cv, a, x);
    var M := (3 * (x * x) + cv.A) * (z2 * z2);
    NonzeroProduct(p, z, z);
    NonzeroProduct(p, z2, z2);
    NonzeroProduct(p, 3 * (x * x) + cv.A, z2 * z2);
    TplValues(cv, a, x * z2, 0, M);
    Order2End(p, a, x, M);
  }

  lemma Order2End(p: nat, a: Jac, x: nat, M: int)
    requires PrimeField(p) && InField(p, a) && a.z > 0 && a.y == 0 && x < p
    requires a.x == Rs(p, x * (a.z * a.z)) && Rs(p, M) != 0
    ensures ToA(p, TplEnd(p, a, Rs(p, M), Rs(p, 12 * (x * (a.z * a.z) * (0 * 0)) - M * M))) == Affine(x, 0)
  {
    hide Mul, Rs, TplEnd, ToA, N.Prime;
    var z: int := a.z;
    var E := 12 * (x * (z * z) * (0 * 0)) - M * M;
    assert x * (z * z) * (0 * 0) == 0;
    RsOf(p, 0);
    RsOf(p, a.z);
    TplEndIs(p, a, x * (z * z), 0, M, E);
    SmallNonzero(p, 2);
    NonzeroProduct(p, M, M);
    NegNonzero(p, M * M);
    NonzeroProduct(p, z, E);
    NonzeroProduct(p, 2, z * E);
    var Q := 2 * (z * E);
    Order2Int(x, z, E, M);
    var b := TplEnd(p, a, Rs(p, M), Rs(p, E));
    Replace2(p, x, Q);
    Replace3(p, 0, Q);
    RsOf(p, x);
    ZeroTimes(Q * Q * Q);
    ZeroTimes(b.z * b.z * b.z);
    ToJac(p, b, x, 0);
  }

  lemma ZeroTimes(a: int)
    ensures 0 * a == 0
  {
  }

  lemma NegNonzero(p: nat, a: int)
    requires p > 1 && Rs(p, a) != 0
    ensures Rs(p, -a) != 0
  {
    if Rs(p, -a) == 0 {
      var k := RsSame(p, -a, 0);
      RsBy(p, a, 0, -k);
    }
  }

  lemma Order2Int(x: int, z: int, E: int, M: int)
    ensures var U, Q := 2 * (M * E) - 16 * (0 * 0 * (0 * 0)), 2 * (z * E);
            && 4 * (x * (z * z) * (E * E) - 4 * (0 * 0 * U)) == x * (Q * Q)
            && 8 * (0 * (U * (16 * (0 * 0 * (0 * 0)) - U) - E * (E * E))) == 0
  {
    var U := 2 * (M * E);
    ZeroTimes(U);
    ZeroTimes(U * (0 - U) - E * (E * E));
    assert (z * E) * (z * E) == (z * z) * (E * E);
    assert x * (z * z) * (E * E) == x * ((z * z) * (E * E));
  }

  lemma TplGeneral(cv: Curve, a: Jac, x: nat, y: nat, l: nat)
    requires ValidCurve(cv) && InField(cv.p, a) && x < cv.p && 0 < y < cv.p && l < cv.p && a.z > 0
    requires a.x == Rs(cv.p, x * (a.z * a.z)) && a.y == Rs(cv.p, y * (a.z * a.z * a.z))
    requires cv.A == Rs(cv.p, 2 * (y * l) - 3 * (x * x))
    ensures var Q, e := y * (a.z * a.z * (a.z * a.z)), 3 * x - l * l;
            var V, y2, b := a.z * (Q * Q), l * e - y, TplJ(cv, a);
            && Rs(cv.p, V) != 0
            && b.z == Rs(cv.p, 8 * (V * e))
            && b.x == Rs(cv.p, 64 * (V * V * (x * (e * e) - 4 * (y * y2))))
            && b.y == Rs(cv.p, 512 * (V * V * V * (4 * (y * y2) * (y - y2) - y * (e * e * e))))
  {
    hide Mul, Add, Double, Rs, Sub, TplEnd, TangentJ, TplJ, N.Prime;
    var p, z: int := cv.p, a.z;
    var Q := y * (z * z * (z * z));
    TangentJIs(cv, a, x, y, l);
    TplValues(cv, a, x * (z * z), y * (z * z * z), 2 * (l * Q));
    TplMonomials(x, y, z, l, Q);
    TplEndIs(p, a, x * (z * z), y * (z * z * z), 2 * (l * Q), 4 * (Q * Q * (3 * x - l * l)));
    NonzeroQ(p, y, a.z);
    RsOf(p, a.z);
    NonzeroProduct(p, Q, Q);
    NonzeroProduct(p, z, Q * Q);
  }

  // The chord through 2P and P, with the denominators of the formula.
  lemma TripleSum(p: nat, x: nat, y: nat, l: nat, V: int, b: Jac, X2: nat, Y2: nat)
    requires PrimeField(p) && x < p && 0 < y < p && InField(p, b) && Rs(p, V) != 0
    requires var e := 3 * x - l * l;
             && X2 == Rs(p, l * l - 2 * x) && Y2 == Rs(p, l * e - y) && X2 != x
             && b.z == Rs(p, 8 * (V * e))
             && b.x == Rs(p, 64 * (V * V * (x * (e * e) - 4 * (y * (l * e - y)))))
             && b.y == Rs(p, 512 * (V * V * V * (4 * (y * (l * e - y)) * (y - (l * e - y)) - y * (e * e * e))))
    ensures ToA(p, b) == Third(p, X2, Y2, x, Quot(F(p), Sub(F(p), Y2, y), Sub(F(p), X2, x)))
  {
    hide Rs, ToA, Third, Quot, Sub, N.Prime;
    var e := 3 * x - l * l;
    var k := ChordSlope(p, X2, Y2, x, y);
    RsOf(p, y);
    ThirdOverE(p, x, y, l, X2, Y2, k);
    ENonzero(p, x, l, X2);
    NonzeroProduct(p, V, e);
    EightNonzero(p);
    NonzeroProduct(p, 8, V * e);
    var x3 := k * k - X2 - x;
    var Q := 8 * (V * e);
    ScaleSquare(p, x3, e, V, x * (e * e) - 4 * (y * (l * e - y)));
    ScaleCube(p, k * (X2 - x3) - Y2, e, V, 4 * (y * (l * e - y)) * (y - (l * e - y)) - y * (e * e * e));
    Finish(p, X2, Y2, x, k, Q, b);
  }

  lemma EightNonzero(p: nat)
    requires PrimeField(p)
    ensures Rs(p, 8) != 0
  {
    hide N.Prime, Rs;
    SmallNonzero(p, 2);
    NonzeroProduct(p, 2, 2);
    NonzeroProduct(p, 4, 2);
  }

  lemma ENonzero(p: nat, x: nat, l: nat, X2: nat)
    requires p > 1 && x < p && X2 == Rs(p, l * l - 2 * x)
    ensures Rs(p, 3 * x - l * l) == 0 <==> X2 == x
  {
    hide Rs;
    var e := 3 * x - l * l;
    RsOf(p, x);
    RsOf(p, 0);
    assert x == (l * l - 2 * x) + e;
    if Rs(p, e) == 0 {
      var k := RsSame(p, e, 0);
      RsBy(p, x, l * l - 2 * x, k);
    }
    if X2 == x {
      var k := RsSame(p, x, l * l - 2 * x);
      RsBy(p, e, 0, k);
    }
  }

  lemma ScaleSquare(p: nat, x3: int, e: int, V: int, n: int)
    requires p > 1 && Rs(p, x3 * (e * e)) == Rs(p, n)
    ensures var Q := 8 * (V * e); Rs(p, 64 * (V * V * n)) == Rs(p, x3 * (Q * Q))
  {
    hide Rs;
    RsProduct(p, x3 * (e * e), n, 64 * (V * V));
    assert n * (64 * (V * V)) == 64 * (V * V * n);
    assert (V * e) * (V * e) == (V * V) * (e * e);
    assert x3 * (e * e) * (64 * (V * V)) == x3 * (8 * (V * e) * (8 * (V * e)));
  }

  lemma ScaleCube(p: nat, y3: int, e: int, V: int, n: int)
    requires p > 1 && Rs(p, y3 * (e * e * e)) == Rs(p, n)
    ensures var Q := 8 * (V * e); Rs(p, 512 * (V * V * V * n)) == Rs(p, y3 * (Q * Q * Q))
  {
    hide Rs;
    RsProduct(p, y3 * (e * e * e), n, 512 * (V * V * V));
    assert n * (512 * (V * V * V)) == 512 * (V * V * V * n);
    CubeOf(V, e);
    assert y3 * (e * e * e) * (512 * (V * V * V)) == y3 * (512 * ((V * V * V) * (e * e * e)));
  }

  lemma CubeOf(V: int, e: int)
    ensures var Q := 8 * (V * e); Q * Q * Q == 512 * ((V * V * V) * (e * e * e))
  {
    var f := V * e;
    assert 8 * f * (8 * f) * (8 * f) == 512 * (f * f * f);
    assert f * f == (V * V) * (e * e);
    assert f * f * f == (V * V * V) * (e * e * e);
  }

  // Where the tangent is not defined the formula gives O.
  lemma TplOfSingular(cv: Curve, a: Jac)
    requires ValidCurve(cv) && InField(cv.p, a) && a.z != 0 && a.y == 0
    requires !Smooth(cv, ToA(cv.p, a))
    ensures TplJ(cv, a).z == 0
  {
    hide Mul, Add, Double, Rs, Sub, Times4, TplEnd, TplM, TangentJ, TplJ, ToA, TangentNum, N.Prime;
    var p := cv.p;
    ToAAffine(p, a);
    FromJac(p, a);
    var x, z2 := ToA(p, a).x, a.z * a.z;
    var m, E := 3 * (x * x) + cv.A, 12 * (x * z2 * (0 * 0)) - 0 * 0;
    RsOf(p, 0);
    TangentJNum(cv, a, x);
    var k := RsSame(p, m, 0);
    MultipleTimes(k, p, z2 * z2);
    RsBy(p, m * (z2 * z2), 0, k * (z2 * z2));
    TplValues(cv, a, x * z2, 0, 0);
    ZeroTimes(0);
    TplEndIs(p, a, x * z2, 0, 0, E);
    Vanishing(x * z2, a.z, E);
  }

  lemma MultipleTimes(k: int, p: int, w: int)
    ensures (k * p) * w == (k * w) * p
  {
  }

  lemma Vanishing(u: int, z: int, E: int)
    requires E == 12 * (u * (0 * 0)) - 0 * 0
    ensures 2 * (z * E) == 0
  {
    ZeroTimes(0);
    assert u * 0 == 0;
  }

  /** ecpTplJ gives P + P + P in the affine law exactly where the tangent at P is defined. */
  lemma TplJLaw(cv: Curve, a: Jac)
    requires ValidCurve(cv) && InField(cv.p, a)
    ensures var P := ToA(cv.p, a);
            var D := AddA(cv, P, P);
            PointIn(cv.p, D) && (ToA(cv.p, TplJ(cv, a)) == AddA(cv, D, P) <==> Smooth(cv, P))
  {
    hide Mul, Add, Rs, Sub, TplJ, N.Prime, Third, Quot, TangentNum, ToA;
    var p := cv.p;
    if a.z == 0 {
      TplOfO(cv, a);
      ToAInfinity(p, a);
      ToAInfinity(p, TplJ(cv, a));
    } else {
      ToAAffine(p, a);
      FromJac(p, a);
      if a.y == 0 {
        if Smooth(cv, ToA(p, a)) {
          TplOfOrder2(cv, a);
        } else {
          TplOfSingular(cv, a);
          ToAInfinity(p, TplJ(cv, a));
        }
      } else {
        TplDistinct(cv, a);
      }
    }
  }

  lemma ToAInfinity(p: nat, a: Jac)
    requires p > 1 && InField(p, a) && a.z == 0
    ensures ToA(p, a) == Infinity
  {
  }

  lemma TplDistinct(cv: Curve, a: Jac)
    requires ValidCurve(cv) && InField(cv.p, a) && a.z != 0 && ToA(cv.p, a).Affine? && ToA(cv.p, a).y != 0
    ensures var P := ToA(cv.p, a);
            var D := AddA(cv, P, P);
            PointIn(cv.p, D) && ToA(cv.p, TplJ(cv, a)) == AddA(cv, D, P)
  {
    hide Mul, Add, Rs, Sub, TplJ, N.Prime, Third, Quot, TangentNum, ToA;
    var p := cv.p;
    FromJac(p, a);
    var x, y := ToA(p, a).x, ToA(p, a).y;
    var l := TangentSlope(cv, x, y);
    TplGeneral(cv, a, x, y, l);
    ThirdIs(p, x, y, x, l);
    var e, Q := 3 * x - l * l, y * (a.z * a.z * (a.z * a.z));
    var V := a.z * (Q * Q);
    assert l * l - x - x == l * l - 2 * x && x - (l * l - x - x) == e;
    var X2, Y2 := Rs(p, l * l - 2 * x), Rs(p, l * e - y);
    if X2 == x {
      VanishingE(p, x, y, l, V, X2, Y2);
      ToAInfinity(p, TplJ(cv, a));
    } else {
      TripleSum(p, x, y, l, V, TplJ(cv, a), X2, Y2);
    }
  }

  // When 2P has the x-coordinate of P it is -P, and the formula gives Z == 0.
  lemma VanishingE(p: nat, x: nat, y: nat, l: nat, V: int, X2: nat, Y2: nat)
    requires PrimeField(p) && x < p && 0 < y < p && X2 == x
    requires var e := 3 * x - l * l; X2 == Rs(p, l * l - 2 * x) && Y2 == Rs(p, l * e - y)
    ensures Rs(p, 8 * (V * (3 * x - l * l))) == 0 && Y2 != y
  {
    hide Rs, N.Prime;
    var e := 3 * x - l * l;
    ENonzero(p, x, l, X2);
    RsOf(p, 0);
    RsOf(p, y);
    var k := RsSame(p, e, 0);
    assert e == k * p;
    assert 8 * (V * (k * p)) == (8 * (V * k)) * p;
    RsBy(p, 8 * (V * e), 0, 8 * (V * k));
    if Y2 == y {
      var c := RsSame(p, y, l * e - y);
      assert l * (k * p) == (l * k) * p;
      assert 2 * y == 0 + (c + l * k) * p;
      RsBy(p, 2 * y, 0, c + l * k);
      SmallNonzero(p, 2);
      NonzeroProduct(p, 2, y);
    }
  }

  /** On a curve with 4 A^3 + 27 B^2 != 0 the tangent is defined at every point. */
  lemma NonsingularSmooth(cv: Curve, x: nat, y: nat)
    requires ValidCurve(cv) && x < cv.p && y < cv.p
    requires Rs(cv.p, 4 * (cv.A * cv.A * cv.A) + 27 * (cv.B * cv.B)) != 0
    requires Rs(cv.p, y * y) == Rs(cv.p, x * x * x + cv.A * x + cv.B)
    ensures Smooth(cv, Affine(x, y))
  {
    hide Rs, N.Prime, TangentNum;
    TangentNumIs(cv, x);
    if y == 0 && TangentNum(cv, x) == 0 {
      DoubleRoot(cv.p, x, cv.A, cv.B);
    }
  }

  // A common root of the cubic and of its derivative makes the discriminant vanish.
  lemma DoubleRoot(p: nat, x: nat, A: nat, B: nat)
    requires p > 1 && Rs(p, 3 * (x * x) + A) == 0
    requires Rs(p, 0 * 0) == Rs(p, x * x * x + A * x + B)
    ensures Rs(p, 4 * (A * A * A) + 27 * (B * B)) == 0
  {
    hide Rs;
    RsOf(p, 0);
    var j := RsSame(p, 3 * (x * x) + A, 0);
    var k := RsSame(p, x * x * x + A * x + B, 0);
    RootB(p, x, A, B, j, k);
    Discriminant(p, x, A, B, j, k - j * x);
  }

  lemma RootB(p: int, x: int, A: int, B: int, j: int, k: int)
    requires A == j * p - 3 * (x * x) && x * x * x + A * x + B == k * p
    ensures B == 2 * (x * x * x) + (k - j * x) * p
  {
    assert A * x == (j * x) * p - 3 * (x * x * x);
  }

  lemma Discriminant(p: nat, x: int, A: int, B: int, j: int, m: int)
    requires p > 1 && A == j * p - 3 * (x * x) && B == 2 * (x * x * x) + m * p
    ensures Rs(p, 4 * (A * A * A) + 27 * (B * B)) == Rs(p, 0)
  {
    hide Rs, Mul;
    var s, c := -3 * (x * x), 2 * (x * x * x);
    RsBy(p, A, s, j);
    RsBy(p, B, c, m);
    MulIs(p, A, A, A * A);
    MulIs(p, A * A, A, A * A * A);
    MulIs(p, s, s, s * s);
    MulIs(p, s * s, s, s * s * s);
    MulIs(p, B, B, B * B);
    MulIs(p, c, c, c * c);
    MulIs(p, 4, A * A * A, 4 * (A * A * A));
    MulIs(p, 4, s * s * s, 4 * (s * s * s));
    MulIs(p, 27, B * B, 27 * (B * B));
    MulIs(p, 27, c * c, 27 * (c * c));
    AddIs(p, 4 * (A * A * A), 27 * (B * B), 4 * (A * A * A) + 27 * (B * B));
    CubeAndSquare(x);
    AddIs(p, 4 * (s * s * s), 27 * (c * c), 0);
  }

  lemma CubeAndSquare(x: int)
    ensures var s, c := -3 * (x * x), 2 * (x * x * x); 4 * (s * s * s) + 27 * (c * c) == 0
  {
    var w := x * x;
    assert (-3 * w) * (-3 * w) * (-3 * w) == -27 * (w * w * w);
    assert (w * x) * (w * x) == w * w * w;
  }
}
