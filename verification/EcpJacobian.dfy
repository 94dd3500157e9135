/** The fast formulas in Jacobian coordinates, as sequences of field operations, and their
    agreement with the affine law. */
module EcpJacobian {
  import opened Qr
  import opened Gfp
  import opened EcpPoints
  import N = Numbers

  // ---------------------------------------------------------------- doubling

  // ecpDblJ from the value M == 3 xa^2 + A za^4 on
  function DblTail(p: nat, a: Jac, t1: nat): (b: Jac)
    requires p > 1 && p % 2 == 1 && InField(p, a) && t1 < p
    ensures InField(p, b)
  {
    var r := F(p);
    var zb := Double(r, Mul(r, a.y, a.z));
    var yb := Double(r, a.y);
    var yb := Sqr(r, yb);
    var t2 := Half(p, Sqr(r, yb));
    var yb := Mul(r, yb, a.x);
    var xb := Sub(r, Sub(r, Sqr(r, t1), yb), yb);
    var yb := Sub(r, yb, xb);
    var yb := Mul(r, yb, t1);
    Jac(xb, Sub(r, yb, t2), zb)
  }

  // What the code leaves when it only sets the z-coordinate to 0.
  function Zeroed(b: Jac): Jac
  {
    b.(z := 0)
  }

  function TangentJ(cv: Curve, a: Jac): (t1: nat)
    requires cv.p > 1 && cv.A < cv.p && InField(cv.p, a)
    ensures t1 < cv.p
  {
    var r := F(cv.p);
    var t1 := Mul(r, cv.A, Sqr(r, Sqr(r, a.z)));
    var t2 := Sqr(r, a.x);
    var t1 := Add(r, t1, t2);
    Add(r, t1, Double(r, t2))
  }

  // The same for A = -3.
  function TangentJA3(p: nat, a: Jac): (t1: nat)
    requires p > 1 && InField(p, a)
    ensures t1 < p
  {
    var r := F(p);
    var t1 := Sqr(r, a.z);
    var t2 := Sub(r, a.x, t1);
    var t1 := Add(r, a.x, t1);
    var t2 := Mul(r, t1, t2);
    Add(r, Double(r, t2), t2)
  }

  // old: the previous content of the output, whose x and y survive when the result is O
  function DblJ(cv: Curve, a: Jac, old': Jac): (b: Jac)
    requires ValidCurve(cv) && InField(cv.p, a)
    ensures InField(cv.p, old') ==> InField(cv.p, b)
    ensures b.z != 0 ==> InField(cv.p, b)
  {
    OddPrime(cv.p);
    if a.z == 0 || a.y == 0 then Zeroed(old') else DblTail(cv.p, a, TangentJ(cv, a))
  }

  function DblJA3(cv: Curve, a: Jac, old': Jac): (b: Jac)
    requires ValidCurve(cv) && InField(cv.p, a)
    ensures InField(cv.p, old') ==> InField(cv.p, b)
    ensures b.z != 0 ==> InField(cv.p, b)
  {
    OddPrime(cv.p);
    if a.z == 0 || a.y == 0 then Zeroed(old') else DblTail(cv.p, a, TangentJA3(cv.p, a))
  }

  lemma OddPrime(p: nat)
    requires PrimeField(p)
    ensures p % 2 == 1
  {
    assert p % 2 != 0;
  }

  // M == 2 l Q with Q == y z^4, where l is the slope of the tangent at the affine point.
  lemma TangentJIs(cv: Curve, a: Jac, x: nat, y: nat, l: nat)
    requires ValidCurve(cv) && InField(cv.p, a)
    requires a.x == Rs(cv.p, x * (a.z * a.z)) && cv.A == Rs(cv.p, 2 * (y * l) - 3 * (x * x))
    ensures var z4 := a.z * a.z * (a.z * a.z); TangentJ(cv, a) == Rs(cv.p, 2 * (l * (y * z4)))
  {
    hide Mul, Add, Double, Rs, N.Prime;
    var p, z := cv.p, a.z;
    var z2, m := z * z, 2 * (y * l) - 3 * (x * x);
    var z4 := z2 * z2;
    RsOf(p, z);
    MulIs(p, z, z, z2);
    MulIs(p, z2, z2, z4);
    MulIs(p, m, z4, m * z4);
    SquareXZ(x, z2);
    MulIs(p, x * z2, x * z2, x * x * z4);
    AddIs(p, m * z4, x * x * z4, (m + x * x) * z4);
    DoubleIs(p, x * x * z4);
    TangentSum(m, x, z4, y, l);
    AddIs(p, (m + x * x) * z4, 2 * (x * x * z4), 2 * (l * (y * z4)));
  }

  lemma SquareXZ(x: int, w: int)
    ensures (x * w) * (x * w) == x * x * (w * w)
  {
  }

  lemma TangentSum(m: int, x: int, w: int, y: int, l: int)
    requires m == 2 * (y * l) - 3 * (x * x)
    ensures (m + x * x) * w == m * w + x * x * w
    ensures (m + x * x) * w + 2 * (x * x * w) == 2 * (l * (y * w))
  {
    assert m * w == 2 * (y * l) * w - 3 * (x * x) * w;
  }

  lemma TangentJA3Is(cv: Curve, a: Jac)
    requires ValidCurve(cv) && InField(cv.p, a) && cv.A == cv.p - 3
    ensures TangentJA3(cv.p, a) == TangentJ(cv, a)
  {
    hide Mul, Add, Double, Rs, N.Prime, Sub;
    RsOf(cv.p, a.z);
    RsOf(cv.p, a.x);
    RsOf(cv.p, cv.A);
    var m3: int := 0 - 3;
    RsBy(cv.p, cv.A, m3, 1);
    MulIs(cv.p, a.z, a.z, a.z * a.z);
    ByDefinition(cv.p, a.x, a.z * a.z, m3);
    ByConjugates(cv.p, a.x, a.z * a.z);
  }

  // A w^2 + x^2 + 2 x^2 for A = -3
  lemma ByDefinition(p: nat, x: int, w: int, m3: int)
    requires p > 1 && m3 == 0 - 3
    ensures var r := F(p);
            var t2 := Sqr(r, Rs(p, x));
            Add(r, Add(r, Mul(r, Rs(p, m3), Sqr(r, Rs(p, w))), t2), Double(r, t2))
            == Rs(p, 3 * (x * x - w * w))
  {
    hide Mul, Add, Double, Rs;
    var xx, ww := x * x, w * w;
    MulIs(p, w, w, ww);
    MulIs(p, m3, ww, m3 * ww);
    MulIs(p, x, x, xx);
    AddIs(p, m3 * ww, xx, m3 * ww + xx);
    DoubleIs(p, xx);
    AddIs(p, m3 * ww + xx, 2 * xx, 3 * (xx - ww));
  }

  // 3 (x + w) (x - w)
  lemma ByConjugates(p: nat, x: int, w: int)
    requires p > 1
    ensures var r := F(p);
            var t2 := Mul(r, Add(r, Rs(p, x), Rs(p, w)), Sub(r, Rs(p, x), Rs(p, w)));
            Add(r, Double(r, t2), t2) == Rs(p, 3 * (x * x - w * w))
  {
    hide Mul, Add, Double, Rs, Sub;
    var d := x * x - w * w;
    SubIs(p, x, w, x - w);
    AddIs(p, x, w, x + w);
    Conjugate(x, w);
    MulIs(p, x + w, x - w, d);
    DoubleIs(p, d);
    AddIs(p, 2 * d, d, 3 * d);
  }

  lemma Conjugate(x: int, w: int)
    ensures (x + w) * (x - w) == x * x - w * w
  {
  }

  // The tail of the doubling: from M == 2 l Q to a point with Z == 2 Q.
  lemma DblTailIs(p: nat, a: Jac, x: nat, y: nat, l: nat, Q: int)
    requires PrimeField(p) && p % 2 == 1 && InField(p, a) && x < p && y < p && l < p
    requires Q == y * (a.z * a.z * (a.z * a.z))
    requires a.x == Rs(p, x * (a.z * a.z)) && a.y == Rs(p, y * (a.z * a.z * a.z))
    ensures var x3, b := l * l - x - x, DblTail(p, a, Rs(p, 2 * (l * Q)));
            && b.z == Rs(p, 2 * Q)
            && b.x == Rs(p, x3 * (2 * Q * (2 * Q)))
            && b.y == Rs(p, (l * (x - x3) - y) * (2 * Q * (2 * Q) * (2 * Q)))
  {
    hide Mul, Add, Double, Rs, N.Prime, Sub, Half;
    var z: int, S := a.z, Q * Q;
    var z2, u := z * z, y * (z * z * z);
    RsOf(p, a.z);
    DblMonomials(x, y, z, Q);
    DblSteps(p, a, x * z2, u, u * u, Q, x * S, y * (Q * S), 2 * (l * Q));
    TailEnd(p, x, y, l, Q);
  }

  // The first field operations of a doubling, X == x z^2 and u == y z^3.
  lemma DblSteps(p: nat, a: Jac, X: int, u: int, uu: int, Q: int, v: int, t: int, m: int)
    requires p > 1 && p % 2 == 1 && InField(p, a) && a.x == Rs(p, X) && a.y == Rs(p, u) && a.z == Rs(p, a.z)
    requires u * a.z == Q && uu == u * u && uu * X == v && uu * uu == t
    ensures var r, M, V := F(p), Rs(p, m), Rs(p, 4 * v);
            var xb := Sub(r, Sub(r, Sqr(r, M), V), V);
            DblTail(p, a, M) == Jac(xb, Sub(r, Mul(r, Sub(r, V, xb), M), Rs(p, 8 * t)), Rs(p, 2 * Q))
  {
    hide Mul, Add, Double, Rs, Sub, Half;
    MulIs(p, u, a.z, Q);
    DoubleIs(p, Q);
    DoubleIs(p, u);
    Multiples(u, uu, X, v, t);
    MulIs(p, 2 * u, 2 * u, 4 * uu);
    MulIs(p, 4 * uu, 4 * uu, 2 * (8 * t));
    HalfIs(p, 8 * t);
    MulIs(p, 4 * uu, X, 4 * v);
  }

  lemma Multiples(u: int, uu: int, X: int, v: int, t: int)
    requires uu == u * u && uu * X == v && uu * uu == t
    ensures 2 * u * (2 * u) == 4 * uu && 4 * uu * (4 * uu) == 2 * (8 * t) && 4 * uu * X == 4 * v
  {
  }

  // The last field operations of a doubling.
  lemma TailEnd(p: nat, x: int, y: int, l: int, Q: int)
    requires p > 1
    ensures var r, S, x3 := F(p), Q * Q, l * l - x - x;
            var m, v, t := Rs(p, 2 * (l * Q)), Rs(p, 4 * (x * S)), Rs(p, 8 * (y * (Q * S)));
            var xb := Sub(r, Sub(r, Sqr(r, m), v), v);
            && xb == Rs(p, x3 * (2 * Q * (2 * Q)))
            && Sub(r, Mul(r, Sub(r, v, xb), m), t)
               == Rs(p, (l * (x - x3) - y) * (2 * Q * (2 * Q) * (2 * Q)))
  {
    hide Mul, Add, Rs, Sub;
    var S, x3, m := Q * Q, l * l - x - x, 2 * (l * Q);
    DblFinal(x, y, l, Q, S, x3);
    MulIs(p, m, m, 4 * (l * l * S));
    SubIs(p, 4 * (l * l * S), 4 * (x * S), 4 * (l * l * S) - 4 * (x * S));
    SubIs(p, 4 * (l * l * S) - 4 * (x * S), 4 * (x * S), x3 * (2 * Q * (2 * Q)));
    var d := 4 * (x * S) - x3 * (2 * Q * (2 * Q));
    SubIs(p, 4 * (x * S), x3 * (2 * Q * (2 * Q)), d);
    MulIs(p, d, m, d * m);
    SubIs(p, d * m, 8 * (y * (Q * S)), (l * (x - x3) - y) * (2 * Q * (2 * Q) * (2 * Q)));
  }

  lemma DblMonomials(x: int, y: int, z: int, Q: int)
    requires Q == y * (z * z * (z * z))
    ensures var u, S := y * (z * z * z), Q * Q;
            u * z == Q && (u * u) * (x * (z * z)) == x * S && (u * u) * (u * u) == y * (Q * S)
  {
    var z2, u, S := z * z, y * (z * z * z), Q * Q;
    HeightTimesZ(y, z, Q);
    N.SquareOfProduct(u, z, Q, S);
    N.FrontOf(x, z2, u * u, S);
    var yz := y * z2;
    assert u == yz * z;
    N.TwoFactors(z, yz, u);
    FourthPower(y, z, yz, u, u * u, Q, S);
  }

  lemma HeightTimesZ(y: int, z: int, Q: int)
    requires Q == y * (z * z * (z * z))
    ensures y * (z * z * z) * z == Q
  {
    assert z * z * z * z == z * z * (z * z);
  }

  // u^4 == y Q S for u == y z^3 and Q == u z
  lemma FourthPower(y: int, z: int, yz: int, u: int, uu: int, Q: int, S: int)
    requires yz == y * (z * z) && u == yz * z && uu == u * u && u * z == Q && uu * (z * z) == S
    ensures uu * uu == y * (Q * S)
  {
    // u^2 == y z^2 (u z)
    assert uu == yz * Q by {
      N.FrontOfNamed(yz, z, u, u, Q);
    }
    N.FrontOfNamed(yz, Q, uu, uu, Q * uu);
    SwapMiddle(y, z * z, Q, uu, S);
  }

  lemma SwapMiddle(y: int, w: int, Q: int, k: int, S: int)
    requires k * w == S
    ensures (y * w) * (Q * k) == y * (Q * S)
  {
    N.Pair(y, w, Q, k, S);
    N.TwoFactors(y, Q, S);
  }

  lemma DblFinal(x: int, y: int, l: int, Q: int, S: int, x3: int)
    requires S == Q * Q && x3 == l * l - x - x
    ensures 2 * (l * Q) * (2 * (l * Q)) == 4 * (l * l * S)
    ensures 4 * (l * l * S) - 4 * (x * S) - 4 * (x * S) == x3 * (2 * Q * (2 * Q))
    ensures (4 * (x * S) - x3 * (2 * Q * (2 * Q))) * (2 * (l * Q)) - 8 * (y * (Q * S))
            == (l * (x - x3) - y) * (2 * Q * (2 * Q) * (2 * Q))
  {
    assert 2 * Q * (2 * Q) == 4 * S;
    assert x3 * (4 * S) == 4 * (l * l * S) - 8 * (x * S);
    assert 2 * Q * (2 * Q) * (2 * Q) == 8 * (Q * S);
    DblFinalY(x, y, l, Q, S, x3);
  }

  lemma DblFinalY(x: int, y: int, l: int, Q: int, S: int, x3: int)
    ensures (4 * (x * S) - x3 * (4 * S)) * (2 * (l * Q)) - 8 * (y * (Q * S))
            == (l * (x - x3) - y) * (8 * (Q * S))
  {
  }

  /** ecpDblJ doubles: also for O and for points of order 2. */
  lemma DblJLaw(cv: Curve, a: Jac, old': Jac)
    requires ValidCurve(cv) && InField(cv.p, a)
    ensures ToA(cv.p, DblJ(cv, a, old')) == AddA(cv, ToA(cv.p, a), ToA(cv.p, a))
  {
    hide Mul, Add, Double, Rs, N.Prime, Sub, DblTail, TangentJ, Third, Inv, TangentNum;
    var p := cv.p;
    OddPrime(p);
    if a.z != 0 && a.y != 0 {
      FromJac(p, a);
      var t := ToA(p, a);
      var l := TangentSlope(cv, t.x, t.y);
      var Q := t.y * (a.z * a.z * (a.z * a.z));
      TangentJIs(cv, a, t.x, t.y, l);
      DblTailIs(p, a, t.x, t.y, l, Q);
      NonzeroQ(p, t.y, a.z);
      Finish(p, t.x, t.y, t.x, l, 2 * Q, DblJ(cv, a, old'));
    } else if a.z != 0 {
      FromJac(p, a);
    }
  }

  lemma NonzeroQ(p: nat, y: nat, z: nat)
    requires PrimeField(p) && 0 < y < p && 0 < z < p
    ensures Rs(p, y * (z * z * (z * z))) != 0 && Rs(p, 2 * (y * (z * z * (z * z)))) != 0
  {
    hide N.Prime, Rs;
    RsOf(p, y);
    RsOf(p, z);
    SmallNonzero(p, 2);
    NonzeroProduct(p, z, z);
    NonzeroProduct(p, z * z, z * z);
    NonzeroProduct(p, y, z * z * (z * z));
    NonzeroProduct(p, 2, y * (z * z * (z * z)));
  }

  /** For A = -3 the two doublings write the same coordinates. */
  lemma DblJA3Law(cv: Curve, a: Jac, old': Jac)
    requires ValidCurve(cv) && InField(cv.p, a) && cv.A == cv.p - 3
    ensures DblJA3(cv, a, old') == DblJ(cv, a, old')
  {
    hide Mul, Add, Double, Sub, DblTail, TangentJ, TangentJA3;
    TangentJA3Is(cv, a);
  }

  // ---------------------------------------------------------------- doubling an affine point

  function DblAJ(cv: Curve, x: nat, y: nat, old': Jac): (b: Jac)
    requires ValidCurve(cv) && x < cv.p && y < cv.p
    ensures InField(cv.p, old') ==> InField(cv.p, b)
    ensures b.z != 0 ==> InField(cv.p, b)
  {
    var r := F(cv.p);
    if y == 0 then Zeroed(old')
    else
      var t1 := Sqr(r, x);
      var t2 := Sqr(r, y);
      var t3 := Sqr(r, t2);
      var t2 := Sqr(r, Add(r, t2, x));
      var t2 := Double(r, Sub(r, Sub(r, t2, t1), t3));
      var t4 := Add(r, Add(r, Double(r, t1), t1), cv.A);
      var t1 := Double(r, t2);
      var xb := Sub(r, Sqr(r, t4), t1);
      var t2 := Sub(r, t2, xb);
      var t3 := Double(r, Double(r, Double(r, t3)));
      Jac(xb, Sub(r, Mul(r, t4, t2), t3), Double(r, y))
  }

  // The y-coordinate at the end of every formula with Z == 2 Q.
  lemma EndY(p: nat, x1: int, y1: int, l: int, Q: int, x3: int)
    requires p > 1
    ensures var r, S := F(p), Q * Q;
            Sub(r, Mul(r, Rs(p, 2 * (l * Q)), Sub(r, Rs(p, 4 * (x1 * S)), Rs(p, x3 * (2 * Q * (2 * Q))))),
                Rs(p, 8 * (y1 * (Q * S))))
            == Rs(p, (l * (x1 - x3) - y1) * (2 * Q * (2 * Q) * (2 * Q)))
  {
    hide Mul, Add, Rs, Sub;
    var S, m := Q * Q, 2 * (l * Q);
    var d := 4 * (x1 * S) - x3 * (2 * Q * (2 * Q));
    SubIs(p, 4 * (x1 * S), x3 * (2 * Q * (2 * Q)), d);
    MulIs(p, m, d, m * d);
    EndYInt(x1, y1, l, Q, S, x3);
    SubIs(p, m * d, 8 * (y1 * (Q * S)), (l * (x1 - x3) - y1) * (2 * Q * (2 * Q) * (2 * Q)));
  }

  lemma EndYInt(x1: int, y1: int, l: int, Q: int, S: int, x3: int)
    requires S == Q * Q
    ensures 2 * (l * Q) * (4 * (x1 * S) - x3 * (2 * Q * (2 * Q))) - 8 * (y1 * (Q * S))
            == (l * (x1 - x3) - y1) * (2 * Q * (2 * Q) * (2 * Q))
  {
    assert 2 * Q * (2 * Q) == 4 * S;
    assert 2 * Q * (2 * Q) * (2 * Q) == 8 * (Q * S);
    DblFinalY(x1, y1, l, Q, S, x3);
  }

  lemma DblAJIs(cv: Curve, x: nat, y: nat, l: nat, old': Jac)
    requires ValidCurve(cv) && x < cv.p && 0 < y < cv.p && l < cv.p
    requires cv.A == Rs(cv.p, 2 * (y * l) - 3 * (x * x))
    ensures var x3, b := l * l - x - x, DblAJ(cv, x, y, old');
            && b.z == Rs(cv.p, 2 * y)
            && b.x == Rs(cv.p, x3 * (2 * y * (2 * y)))
            && b.y == Rs(cv.p, (l * (x - x3) - y) * (2 * y * (2 * y) * (2 * y)))
  {
    hide Mul, Add, Double, Rs, N.Prime, Sub;
    var p, xx, yy, x3 := cv.p, x * x, y * y, l * l - x - x;
    var q := yy * yy;
    RsOf(p, x);
    RsOf(p, y);
    MulIs(p, x, x, xx);
    MulIs(p, y, y, yy);
    MulIs(p, yy, yy, q);
    AddIs(p, yy, x, yy + x);
    MulIs(p, yy + x, yy + x, (yy + x) * (yy + x));
    SubIs(p, (yy + x) * (yy + x), xx, (yy + x) * (yy + x) - xx);
    SquareSum(yy, x);
    SubIs(p, (yy + x) * (yy + x) - xx, q, 2 * (x * yy));
    DoubleIs(p, 2 * (x * yy));
    DoubleIs(p, xx);
    AddIs(p, 2 * xx, xx, 3 * xx);
    AddIs(p, 3 * xx, 2 * (y * l) - 3 * xx, 2 * (l * y));
    DoubleIs(p, 4 * (x * yy));
    DoubleIs(p, q);
    DoubleIs(p, 2 * q);
    DoubleIs(p, 4 * q);
    DoubleIs(p, y);
    assert y * (y * yy) == q;
    DblFinal(x, y, l, y, yy, x3);
    MulIs(p, 2 * (l * y), 2 * (l * y), 4 * (l * l * yy));
    SubIs(p, 4 * (l * l * yy), 8 * (x * yy), x3 * (2 * y * (2 * y)));
    EndY(p, x, y, l, y, x3);
  }

  lemma SquareSum(a: int, b: int)
    ensures (a + b) * (a + b) - b * b - a * a == 2 * (b * a)
  {
  }

  lemma DblAJLaw(cv: Curve, x: nat, y: nat, old': Jac)
    requires ValidCurve(cv) && x < cv.p && y < cv.p
    ensures ToA(cv.p, DblAJ(cv, x, y, old')) == AddA(cv, Affine(x, y), Affine(x, y))
  {
    hide Mul, Add, Double, Rs, N.Prime, Sub, Third, Inv, TangentNum, Quot;
    var p := cv.p;
    if y != 0 {
      var l := TangentSlope(cv, x, y);
      DblAJIs(cv, x, y, l, old');
      Finish(p, x, y, x, l, 2 * y, DblAJ(cv, x, y, old'));
    }
  }

  // ---------------------------------------------------------------- adding

  // ecpAddJ after the case distinction: t1 == H, t2 == U1, t3 == S1, t4 == S2
  function AddTail(p: nat, t1: nat, t2: nat, t3: nat, t4: nat, zc: nat): (c: Jac)
    requires p > 1 && t1 < p && t2 < p && t3 < p && t4 < p && zc < p
    ensures InField(p, c)
  {
    var r := F(p);
    var zc := Mul(r, zc, t1);
    var t4 := Double(r, Sub(r, t4, t3));
    var yc := Sqr(r, Double(r, t1));
    var t1 := Mul(r, t1, yc);
    var yc := Mul(r, t2, yc);
    var t2 := Double(r, yc);
    var xc := Sub(r, Sub(r, Sqr(r, t4), t1), t2);
    var yc := Mul(r, t4, Sub(r, yc, xc));
    var t3 := Mul(r, Double(r, t3), t1);
    Jac(xc, Sub(r, yc, t3), zc)
  }

  // U1 == X1 Z2^2, U2 == X2 Z1^2, S1 == Y1 Z2^3, S2 == Y2 Z1^3
  function U(p: nat, a: Jac, b: Jac): (u: nat)
    requires p > 1
    ensures u < p
  {
    Mul(F(p), a.x, Sqr(F(p), b.z))
  }

  function S(p: nat, a: Jac, b: Jac): (s: nat)
    requires p > 1
    ensures s < p
  {
    Mul(F(p), a.y, Mul(F(p), b.z, Sqr(F(p), b.z)))
  }

  function ZSum(p: nat, a: Jac, b: Jac): (z: nat)
    requires p > 1 && InField(p, a) && InField(p, b)
    ensures z < p
  {
    var r := F(p);
    Sub(r, Sub(r, Sqr(r, Add(r, a.z, b.z)), Sqr(r, a.z)), Sqr(r, b.z))
  }

  // same: which of the two operands is doubled when they are the same point
  function AddJ(cv: Curve, a: Jac, b: Jac, old': Jac, same: Jac): (c: Jac)
    requires ValidCurve(cv) && InField(cv.p, a) && InField(cv.p, b) && InField(cv.p, same)
    ensures InField(cv.p, old') ==> InField(cv.p, c)
    ensures c.z != 0 ==> InField(cv.p, c)
  {
    var p := cv.p;
    if a.z == 0 then b
    else if b.z == 0 then a
    else
      var t3, t4, zc := S(p, a, b), S(p, b, a), ZSum(p, a, b);
      var t2 := U(p, a, b);
      var t1 := Sub(F(p), U(p, b, a), t2);
      if t1 == 0 then if t3 == t4 then DblJ(cv, same, old') else Zeroed(old')
      else AddTail(p, t1, t2, t3, t4, zc)
  }

  lemma FrontIs(p: nat, a: Jac, b: Jac, x: int, y: int)
    requires p > 1 && InField(p, a) && InField(p, b)
    requires a.x == Rs(p, x * (a.z * a.z)) && a.y == Rs(p, y * (a.z * a.z * a.z))
    ensures var W := a.z * b.z;
            && U(p, a, b) == Rs(p, x * (W * W))
            && S(p, a, b) == Rs(p, y * (W * W * W))
  {
    hide Mul, Add, Rs, Sub;
    var z, w := a.z, b.z;
    RsOf(p, z);
    RsOf(p, w);
    MulIs(p, w, w, w * w);
    MulIs(p, w, w * w, w * w * w);
    FrontInt(x, y, z, w);
    MulIs(p, x * (z * z), w * w, x * (z * w * (z * w)));
    MulIs(p, y * (z * z * z), w * w * w, y * (z * w * (z * w) * (z * w)));
  }

  lemma FrontInt(x: int, y: int, z: int, w: int)
    ensures x * (z * z) * (w * w) == x * (z * w * (z * w))
    ensures y * (z * z * z) * (w * w * w) == y * (z * w * (z * w) * (z * w))
  {
    assert (z * z) * (w * w) == z * w * (z * w);
    assert (z * z * z) * (w * w * w) == z * w * (z * w) * (z * w);
  }

  lemma ZSumIs(p: nat, a: Jac, b: Jac)
    requires p > 1 && InField(p, a) && InField(p, b)
    ensures ZSum(p, a, b) == Rs(p, 2 * (a.z * b.z))
  {
    hide Mul, Add, Rs, Sub;
    var z: int, w: int := a.z, b.z;
    RsOf(p, a.z);
    RsOf(p, b.z);
    AddIs(p, z, w, z + w);
    MulIs(p, z, z, z * z);
    MulIs(p, w, w, w * w);
    MulIs(p, z + w, z + w, (z + w) * (z + w));
    SubIs(p, (z + w) * (z + w), z * z, (z + w) * (z + w) - z * z);
    SquareSum(w, z);
    assert (z + w) * (z + w) == (w + z) * (w + z);
    SubIs(p, (z + w) * (z + w) - z * z, w * w, 2 * (z * w));
  }

  // With D == x2 - x1, P == W^3 and Q == D P the sum has Z == 2 Q.
  lemma AddTailIs(p: nat, x1: int, y1: int, D: int, l: int, W: int)
    requires p > 1
    ensures var w2, P := W * W, W * W * W;
            var Q, x3 := D * P, l * l - x1 - (x1 + D);
            var c := AddTail(p, Rs(p, D * w2), Rs(p, x1 * w2), Rs(p, y1 * P), Rs(p, (y1 + l * D) * P), Rs(p, 2 * W));
            && c.z == Rs(p, 2 * Q)
            && c.x == Rs(p, x3 * (2 * Q * (2 * Q)))
            && c.y == Rs(p, (l * (x1 - x3) - y1) * (2 * Q * (2 * Q) * (2 * Q)))
  {
    hide Mul, Add, Double, Rs, Sub;
    var w2, P := W * W, W * W * W;
    var Q, x3 := D * P, l * l - x1 - (x1 + D);
    var S, H := Q * Q, D * w2;
    AddMonomials(x1, y1, D, l, W, P, Q);
    MulIs(p, 2 * W, H, 2 * Q);
    SubIs(p, (y1 + l * D) * P, y1 * P, l * Q);
    DoubleIs(p, l * Q);
    DoubleIs(p, H);
    MulIs(p, 2 * H, 2 * H, 4 * (H * H));
    MulIs(p, H, 4 * (H * H), 4 * (D * S));
    MulIs(p, x1 * w2, 4 * (H * H), 4 * (x1 * S));
    DoubleIs(p, 4 * (x1 * S));
    MulIs(p, 2 * (l * Q), 2 * (l * Q), 4 * (l * l * S));
    SubIs(p, 4 * (l * l * S), 4 * (D * S), 4 * (l * l * S) - 4 * (D * S));
    AddFinalX(x1, D, l, Q, S, x3);
    SubIs(p, 4 * (l * l * S) - 4 * (D * S), 2 * (4 * (x1 * S)), x3 * (2 * Q * (2 * Q)));
    EndY(p, x1, y1, l, Q, x3);
    DoubleIs(p, y1 * P);
    MulIs(p, 2 * (y1 * P), 4 * (D * S), 8 * (y1 * (Q * S)));
  }

  lemma AddMonomials(x1: int, y1: int, D: int, l: int, W: int, P: int, Q: int)
    requires P == W * W * W && Q == D * P
    ensures var w2, H, S := W * W, D * (W * W), Q * Q;
            && 2 * W * H == 2 * Q
            && (y1 + l * D) * P - y1 * P == l * Q
            && 2 * H * (2 * H) == 4 * (H * H)
            && H * (4 * (H * H)) == 4 * (D * S)
            && x1 * w2 * (4 * (H * H)) == 4 * (x1 * S)
            && 2 * (l * Q) * (2 * (l * Q)) == 4 * (l * l * S)
            && 2 * (y1 * P) * (4 * (D * S)) == 8 * (y1 * (Q * S))
  {
    var w2, H, S := W * W, D * (W * W), Q * Q;
    WidthTimesH(D, W, P, Q);
    N.SquareOfProduct(W, H, Q, S);
    var K := H * H;
    N.FrontOfNamed(D, w2, H, K, S);
    N.FrontOf(x1, w2, K, S);
    SlopeTimes(y1, l, D, P, Q);
    SlopeSquare(l, Q, S);
    HeightTail(y1, D, P, Q, S);
    Fours(H, K, D * S, x1 * w2, x1 * S);
  }

  lemma WidthTimesH(D: int, W: int, P: int, Q: int)
    requires P == W * W * W && Q == D * P
    ensures W * (D * (W * W)) == Q
  {
  }

  lemma SlopeTimes(y1: int, l: int, D: int, P: int, Q: int)
    requires Q == D * P
    ensures (y1 + l * D) * P - y1 * P == l * Q
  {
    N.FrontOf(l, D, P, Q);
  }

  lemma SlopeSquare(l: int, Q: int, S: int)
    requires S == Q * Q
    ensures 2 * (l * Q) * (2 * (l * Q)) == 4 * (l * l * S)
  {
    N.Pair(l, Q, l, Q, S);
  }

  lemma HeightTail(y1: int, D: int, P: int, Q: int, S: int)
    requires Q == D * P
    ensures 2 * (y1 * P) * (4 * (D * S)) == 8 * (y1 * (Q * S))
  {
    assert P * D == Q;
    N.Pair(y1, P, S, D, Q);
    assert (y1 * P) * (S * D) == y1 * (Q * S);
  }

  lemma Fours(H: int, K: int, u: int, a: int, v: int)
    requires K == H * H && H * K == u && a * K == v
    ensures 2 * H * (2 * H) == 4 * K && H * (4 * K) == 4 * u && a * (4 * K) == 4 * v
  {
  }

  lemma AddFinalX(x1: int, D: int, l: int, Q: int, S: int, x3: int)
    requires S == Q * Q && x3 == l * l - x1 - (x1 + D)
    ensures 4 * (l * l * S) - 4 * (D * S) - 2 * (4 * (x1 * S)) == x3 * (2 * Q * (2 * Q))
  {
    assert 2 * Q * (2 * Q) == 4 * S;
    assert x3 * (4 * S) == 4 * (l * l * S) - 8 * (x1 * S) - 4 * (D * S);
  }

  // Cross-multiplied coordinates agree exactly when the affine ones do.
  lemma SameCoordinate(p: nat, x1: nat, x2: nat, w: int)
    requires PrimeField(p) && x1 < p && x2 < p && Rs(p, w) != 0
    ensures Rs(p, x1 * w) == Rs(p, x2 * w) <==> x1 == x2
  {
    hide N.Prime, Rs;
    if Rs(p, x1 * w) == Rs(p, x2 * w) && x1 != x2 {
      var k := RsSame(p, x1 * w, x2 * w);
      Distinct(p, x1, x2);
      assert (x1 - x2) * w == 0 + k * p;
      RsBy(p, (x1 - x2) * w, 0, k);
      RsOf(p, 0);
      NonzeroProduct(p, x1 - x2, w);
    }
  }

  lemma NonzeroW(p: nat, z: nat, w: nat)
    requires PrimeField(p) && 0 < z < p && 0 < w < p
    ensures var W := z * w; Rs(p, W * W) != 0 && Rs(p, W * W * W) != 0
  {
    hide N.Prime, Rs;
    RsOf(p, z);
    RsOf(p, w);
    NonzeroProduct(p, z, w);
    NonzeroProduct(p, z * w, z * w);
    NonzeroProduct(p, z * w * (z * w), z * w);
  }

  lemma SubZero(p: nat, a: nat, b: nat)
    requires p > 1 && a < p && b < p
    ensures Sub(F(p), a, b) == 0 <==> a == b
  {
    hide Sub;
    RsOf(p, a);
    RsOf(p, b);
    SubIs(p, a, b, a - b);
    if a != b {
      Distinct(p, a, b);
    } else {
      RsOf(p, 0);
    }
  }

  /** ecpAddJ adds, whatever the operands: O, equal, opposite or of order 2. */
  lemma AddJLaw(cv: Curve, a: Jac, b: Jac, old': Jac, same: Jac)
    requires ValidCurve(cv) && InField(cv.p, a) && InField(cv.p, b)
    requires same == a || same == b
    ensures ToA(cv.p, AddJ(cv, a, b, old', same)) == AddA(cv, ToA(cv.p, a), ToA(cv.p, b))
  {
    hide Mul, Add, Double, Rs, N.Prime, Sub, DblJ, AddTail, Third, Inv, TangentNum, Quot, ZSum, U, S;
    var p := cv.p;
    if a.z != 0 && b.z != 0 {
      FromJac(p, a);
      FromJac(p, b);
      var s, t, W := ToA(p, a), ToA(p, b), a.z * b.z;
      NonzeroW(p, a.z, b.z);
      FrontIs(p, a, b, s.x, s.y);
      FrontIs(p, b, a, t.x, t.y);
      assert b.z * a.z == W;
      SameCoordinate(p, s.x, t.x, W * W);
      SameCoordinate(p, s.y, t.y, W * W * W);
      SubZero(p, U(p, b, a), U(p, a, b));
      if s.x != t.x {
        AddJDistinct(cv, a, b, old', same);
      } else if s.y == t.y {
        DblJLaw(cv, same, old');
      }
    }
  }

  // On the line y2 == y1 + l D.
  lemma SecondY(p: nat, x1: nat, y1: nat, x2: nat, y2: nat, l: nat, w: int)
    requires p > 1 && y2 < p && y2 == Rs(p, y1 - l * (x1 - x2))
    ensures var D: int := x2 - x1; Rs(p, y2 * w) == Rs(p, (y1 + l * D) * w)
  {
    hide Rs, Mul;
    var D: int := x2 - x1;
    RsOf(p, y2);
    assert y1 - l * (x1 - x2) == y1 + l * D;
    MulIs(p, y2, w, y2 * w);
    MulIs(p, y1 + l * D, w, (y1 + l * D) * w);
  }

  lemma ChordSum(p: nat, x1: nat, y1: nat, x2: nat, y2: nat, l: nat, W: int)
    requires PrimeField(p) && x1 < p && y1 < p && x2 < p && y2 < p && l < p
    requires y2 == Rs(p, y1 - l * (x1 - x2)) && Rs(p, x2 - x1) != 0 && Rs(p, W * W * W) != 0
    ensures var D: int, w2, P := x2 - x1, W * W, W * W * W;
            ToA(p, AddTail(p, Rs(p, D * w2), Rs(p, x1 * w2), Rs(p, y1 * P), Rs(p, y2 * P), Rs(p, 2 * W)))
            == Third(p, x1, y1, x2, l)
  {
    hide Rs, N.Prime, AddTail, Third, ToA;
    var D: int, w2, P := x2 - x1, W * W, W * W * W;
    SecondY(p, x1, y1, x2, y2, l, P);
    AddTailIs(p, x1, y1, D, l, W);
    SmallNonzero(p, 2);
    NonzeroProduct(p, D, P);
    NonzeroProduct(p, 2, D * P);
    Finish(p, x1, y1, x2, l, 2 * (D * P),
           AddTail(p, Rs(p, D * w2), Rs(p, x1 * w2), Rs(p, y1 * P), Rs(p, y2 * P), Rs(p, 2 * W)));
  }

  lemma AddJDistinct(cv: Curve, a: Jac, b: Jac, old': Jac, same: Jac)
    requires ValidCurve(cv) && InField(cv.p, a) && InField(cv.p, b)
    requires same == a || same == b
    requires a.z != 0 && b.z != 0 && ToA(cv.p, a).Affine? && ToA(cv.p, b).Affine?
    requires ToA(cv.p, a).x != ToA(cv.p, b).x
    requires Sub(F(cv.p), U(cv.p, b, a), U(cv.p, a, b)) != 0
    ensures ToA(cv.p, AddJ(cv, a, b, old', same)) == AddA(cv, ToA(cv.p, a), ToA(cv.p, b))
  {
    hide Mul, Add, Rs, N.Prime, Sub, DblJ, AddTail, Third, TangentNum, Quot, ZSum, U, S, ToA;
    var p := cv.p;
    var s, t := ToA(p, a), ToA(p, b);
    var l := ChordSlope(p, s.x, s.y, t.x, t.y);
    AddJParts(p, a, b);
    ChordSum(p, s.x, s.y, t.x, t.y, l, a.z * b.z);
  }

  lemma AddJParts(p: nat, a: Jac, b: Jac)
    requires PrimeField(p) && InField(p, a) && InField(p, b)
    requires a.z != 0 && b.z != 0 && ToA(p, a).Affine? && ToA(p, b).Affine?
    ensures var s, t, W := ToA(p, a), ToA(p, b), a.z * b.z;
            var D: int, w2, P := t.x - s.x, W * W, W * W * W;
            && Rs(p, P) != 0
            && Sub(F(p), U(p, b, a), U(p, a, b)) == Rs(p, D * w2)
            && U(p, a, b) == Rs(p, s.x * w2)
            && S(p, a, b) == Rs(p, s.y * P)
            && S(p, b, a) == Rs(p, t.y * P)
            && ZSum(p, a, b) == Rs(p, 2 * W)
  {
    hide Rs, N.Prime, Sub, ZSum, U, S, ToA;
    FromJac(p, a);
    FromJac(p, b);
    var s, t, W := ToA(p, a), ToA(p, b), a.z * b.z;
    NonzeroW(p, a.z, b.z);
    FrontIs(p, a, b, s.x, s.y);
    FrontIs(p, b, a, t.x, t.y);
    assert b.z * a.z == W;
    ZSumIs(p, a, b);
    var D: int, w2 := t.x - s.x, W * W;
    DifferenceOf(t.x, s.x, w2);
    SubIs(p, t.x * w2, s.x * w2, D * w2);
  }

  lemma DifferenceOf(a: int, b: int, w: int)
    ensures (a - b) * w == a * w - b * w
  {
  }

  // ---------------------------------------------------------------- adding an affine point

  function MixTail(p: nat, a: Jac, t1: nat, t2: nat): (c: Jac)
    requires p > 1 && InField(p, a) && t1 < p && t2 < p
    ensures InField(p, c)
  {
    var r := F(p);
    var zc := Mul(r, t1, a.z);
    var t3 := Sqr(r, t1);
    var t4 := Mul(r, t1, t3);
    var t3 := Mul(r, t3, a.x);
    var t1 := Double(r, t3);
    var xc := Sub(r, Sub(r, Sqr(r, t2), t1), t4);
    var t3 := Mul(r, Sub(r, t3, xc), t2);
    var t4 := Mul(r, t4, a.y);
    Jac(xc, Sub(r, t3, t4), zc)
  }

  function MixX(p: nat, a: Jac, xb: nat): (t1: nat)
    requires p > 1 && InField(p, a)
    ensures t1 < p
  {
    Sub(F(p), Mul(F(p), Sqr(F(p), a.z), xb), a.x)
  }

  function MixY(p: nat, a: Jac, yb: nat): (t2: nat)
    requires p > 1 && InField(p, a)
    ensures t2 < p
  {
    Sub(F(p), Mul(F(p), Mul(F(p), Sqr(F(p), a.z), a.z), yb), a.y)
  }

  // ecpAddAJ
  function AddAJ(cv: Curve, a: Jac, x: nat, y: nat, old': Jac): (c: Jac)
    requires ValidCurve(cv) && InField(cv.p, a) && x < cv.p && y < cv.p
    ensures InField(cv.p, old') ==> InField(cv.p, c)
    ensures c.z != 0 ==> InField(cv.p, c)
  {
    if a.z == 0 then Jac(x, y, 1)
    else
      var t1, t2 := MixX(cv.p, a, x), MixY(cv.p, a, y);
      if t1 == 0 then if t2 == 0 then DblAJ(cv, x, y, old') else Zeroed(old')
      else MixTail(cv.p, a, t1, t2)
  }

  lemma MixFront(p: nat, a: Jac, x1: nat, y1: nat, x2: nat, y2: nat)
    requires p > 1 && InField(p, a) && x1 < p && y1 < p && x2 < p && y2 < p
    requires a.x == Rs(p, x1 * (a.z * a.z)) && a.y == Rs(p, y1 * (a.z * a.z * a.z))
    ensures var D: int, E: int := x2 - x1, y2 - y1;
            && MixX(p, a, x2) == Rs(p, D * (a.z * a.z))
            && MixY(p, a, y2) == Rs(p, E * (a.z * a.z * a.z))
  {
    hide Mul, Add, Rs, Sub;
    var z := a.z;
    var z2, z3 := z * z, z * z * z;
    var D: int, E: int := x2 - x1, y2 - y1;
    RsOf(p, z);
    RsOf(p, x2);
    RsOf(p, y2);
    MulIs(p, z, z, z2);
    MulIs(p, z2, z, z3);
    MulIs(p, z2, x2, x2 * z2);
    MulIs(p, z3, y2, y2 * z3);
    assert D * z2 == x2 * z2 - x1 * z2;
    assert E * z3 == y2 * z3 - y1 * z3;
    SubIs(p, x2 * z2, x1 * z2, D * z2);
    SubIs(p, y2 * z3, y1 * z3, E * z3);
  }

  lemma MixTailIs(p: nat, a: Jac, x1: int, y1: int, D: int, l: int)
    requires p > 1 && InField(p, a)
    requires a.x == Rs(p, x1 * (a.z * a.z)) && a.y == Rs(p, y1 * (a.z * a.z * a.z))
    ensures var z2, z3 := a.z * a.z, a.z * a.z * a.z;
            var Q, x3 := D * z3, l * l - x1 - (x1 + D);
            var c := MixTail(p, a, Rs(p, D * z2), Rs(p, l * D * z3));
            && c.z == Rs(p, Q)
            && c.x == Rs(p, x3 * (Q * Q))
            && c.y == Rs(p, (l * (x1 - x3) - y1) * (Q * Q * Q))
  {
    hide Mul, Add, Double, Rs, Sub;
    var z: int := a.z;
    var z2, z3 := z * z, z * z * z;
    var Q, x3 := D * z3, l * l - x1 - (x1 + D);
    RsOf(p, a.z);
    MixMonomials(x1, y1, D, l, z, Q);
    MixSteps(p, a, D * z2, D * z2 * (D * z2), x1 * z2, y1 * z3, l * D * z3, Q, D * (Q * Q), x1 * (Q * Q), l * l * (Q * Q), y1 * (Q * (Q * Q)));
    MixEnd(p, x1, y1, D, l, Q, x3);
  }

  // The field operations of the mixed addition on the factors of its monomials.
  lemma MixSteps(p: nat, a: Jac, H: int, K: int, X: int, Y: int, m: int, Q: int, ds: int, xs: int, ls: int, t: int)
    requires p > 1 && InField(p, a) && a.x == Rs(p, X) && a.y == Rs(p, Y) && a.z == Rs(p, a.z)
    requires H * a.z == Q && K == H * H && H * K == ds && K * X == xs && m * m == ls && ds * Y == t
    ensures var r, M := F(p), Rs(p, m);
            var xc := Sub(r, Sub(r, Rs(p, ls), Rs(p, 2 * xs)), Rs(p, ds));
            MixTail(p, a, Rs(p, H), M)
            == Jac(xc, Sub(r, Mul(r, Sub(r, Rs(p, xs), xc), M), Rs(p, t)), Rs(p, Q))
  {
    hide Mul, Add, Double, Rs, Sub;
    MulIs(p, H, a.z, Q);
    MulIs(p, H, H, K);
    MulIs(p, H, K, ds);
    MulIs(p, K, X, xs);
    DoubleIs(p, xs);
    MulIs(p, m, m, ls);
    MulIs(p, ds, Y, t);
  }

  lemma MixEnd(p: nat, x1: int, y1: int, D: int, l: int, Q: int, x3: int)
    requires p > 1 && x3 == l * l - x1 - (x1 + D)
    ensures var r, S, M := F(p), Q * Q, Rs(p, l * Q);
            var xc := Sub(r, Sub(r, Rs(p, l * l * S), Rs(p, 2 * (x1 * S))), Rs(p, D * S));
            && xc == Rs(p, x3 * S)
            && Sub(r, Mul(r, Sub(r, Rs(p, x1 * S), xc), M), Rs(p, y1 * (Q * S)))
               == Rs(p, (l * (x1 - x3) - y1) * (Q * Q * Q))
  {
    hide Mul, Add, Rs, Sub;
    var S, m := Q * Q, l * Q;
    SubIs(p, l * l * S, 2 * (x1 * S), l * l * S - 2 * (x1 * S));
    ThirdTimes(l, x1, D, x3, S);
    SubIs(p, l * l * S - 2 * (x1 * S), D * S, x3 * S);
    SubIs(p, x1 * S, x3 * S, x1 * S - x3 * S);
    MulIs(p, x1 * S - x3 * S, m, (x1 * S - x3 * S) * m);
    MixFinalY(x1, y1, l, Q, S, x3, m);
    SubIs(p, (x1 * S - x3 * S) * m, y1 * (Q * S), (l * (x1 - x3) - y1) * (Q * Q * Q));
  }

  lemma ThirdTimes(l: int, x1: int, D: int, x3: int, S: int)
    requires x3 == l * l - x1 - (x1 + D)
    ensures l * l * S - 2 * (x1 * S) - D * S == x3 * S
  {
  }

  lemma MixMonomials(x1: int, y1: int, D: int, l: int, z: int, Q: int)
    requires Q == D * (z * z * z)
    ensures var z2, z3, H, S := z * z, z * z * z, D * (z * z), Q * Q;
            && H * z == Q
            && H * (H * H) == D * S
            && H * H * (x1 * z2) == x1 * S
            && l * D * z3 == l * Q
            && l * D * z3 * (l * D * z3) == l * l * S
            && D * S * (y1 * z3) == y1 * (Q * S)
  {
    var z2, z3, H, S := z * z, z * z * z, D * (z * z), Q * Q;
    WidthTimesZ(D, z, Q);
    N.SquareOfProduct(H, z, Q, S);
    var K := H * H;
    N.FrontOfNamed(D, z2, H, K, S);
    N.FrontOf(x1, z2, K, S);
    N.FrontOf(l, D, z3, Q);
    N.Pair(l, Q, l, Q, S);
    MixHeight(y1, D, z3, Q, S);
  }

  lemma WidthTimesZ(D: int, z: int, Q: int)
    requires Q == D * (z * z * z)
    ensures D * (z * z) * z == Q
  {
  }

  lemma MixHeight(y1: int, D: int, w: int, Q: int, S: int)
    requires Q == D * w
    ensures D * S * (y1 * w) == y1 * (Q * S)
  {
    assert w * D == Q;
    N.Pair(y1, w, S, D, Q);
    assert (y1 * w) * (S * D) == y1 * (Q * S);
  }

  lemma MixFinalY(x1: int, y1: int, l: int, Q: int, S: int, x3: int, m: int)
    requires S == Q * Q && m == l * Q
    ensures (x1 * S - x3 * S) * m - y1 * (Q * S) == (l * (x1 - x3) - y1) * (Q * Q * Q)
  {
    assert Q * Q * Q == Q * S;
    assert (x1 * S - x3 * S) * (l * Q) == l * (x1 - x3) * (Q * S);
  }

  lemma NonzeroCube(p: nat, z: nat)
    requires PrimeField(p) && 0 < z < p
    ensures Rs(p, z * z) != 0 && Rs(p, z * z * z) != 0
  {
    hide N.Prime, Rs;
    RsOf(p, z);
    NonzeroProduct(p, z, z);
    NonzeroProduct(p, z * z, z);
  }

  lemma ToAUnit(p: nat, x: nat, y: nat)
    requires PrimeField(p) && x < p && y < p
    ensures ToA(p, Jac(x, y, 1)) == Affine(x, y)
  {
    hide ToA, N.Prime;
    RsOf(p, x);
    RsOf(p, y);
    assert x * (1 * 1) == x && y * (1 * 1 * 1) == y;
    ToJac(p, Jac(x, y, 1), x, y);
  }

  /** ecpAddAJ adds an affine point. */
  lemma AddAJLaw(cv: Curve, a: Jac, x: nat, y: nat, old': Jac)
    requires ValidCurve(cv) && InField(cv.p, a) && x < cv.p && y < cv.p
    ensures ToA(cv.p, AddAJ(cv, a, x, y, old')) == AddA(cv, ToA(cv.p, a), Affine(x, y))
  {
    hide Mul, Add, Double, Rs, N.Prime, Sub, DblAJ, MixTail, MixX, MixY, Third, Inv, TangentNum, Quot;
    var p := cv.p;
    ToAUnit(p, x, y);
    if a.z != 0 {
      FromJac(p, a);
      var s := ToA(p, a);
      MixFront(p, a, s.x, s.y, x, y);
      NonzeroCube(p, a.z);
      var D: int, E: int := x - s.x, y - s.y;
      DifferenceZero(p, x, s.x, a.z * a.z);
      DifferenceZero(p, y, s.y, a.z * a.z * a.z);
      if s.x != x {
        AddAJDistinct(cv, a, x, y, old');
      } else if s.y == y {
        DblAJLaw(cv, x, y, old');
      }
    }
  }

  lemma DifferenceZero(p: nat, a: nat, b: nat, w: int)
    requires PrimeField(p) && a < p && b < p && Rs(p, w) != 0
    ensures var d: int := a - b; Rs(p, d * w) == 0 <==> a == b
  {
    hide N.Prime, Rs;
    var d: int := a - b;
    if a == b {
      assert d * w == 0;
      RsOf(p, 0);
    } else {
      Distinct(p, a, b);
      NonzeroProduct(p, d, w);
    }
  }

  lemma ChordMixSum(p: nat, a: Jac, x1: nat, y1: nat, x2: nat, y2: nat, l: nat)
    requires PrimeField(p) && InField(p, a) && x1 < p && y1 < p && x2 < p && y2 < p && l < p && a.z > 0
    requires a.x == Rs(p, x1 * (a.z * a.z)) && a.y == Rs(p, y1 * (a.z * a.z * a.z))
    requires y2 == Rs(p, y1 - l * (x1 - x2)) && Rs(p, x2 - x1) != 0
    ensures var D: int, E: int, z2, z3 := x2 - x1, y2 - y1, a.z * a.z, a.z * a.z * a.z;
            ToA(p, MixTail(p, a, Rs(p, D * z2), Rs(p, E * z3))) == Third(p, x1, y1, x2, l)
  {
    hide Rs, N.Prime, MixTail, Third, ToA;
    var D: int, E: int, z2, z3 := x2 - x1, y2 - y1, a.z * a.z, a.z * a.z * a.z;
    SlopeY(p, x1, y1, x2, y2, l, z3);
    MixTailIs(p, a, x1, y1, D, l);
    NonzeroCube(p, a.z);
    NonzeroProduct(p, D, z3);
    Finish(p, x1, y1, x2, l, D * z3, MixTail(p, a, Rs(p, D * z2), Rs(p, E * z3)));
  }

  lemma AddAJDistinct(cv: Curve, a: Jac, x: nat, y: nat, old': Jac)
    requires ValidCurve(cv) && InField(cv.p, a) && x < cv.p && y < cv.p
    requires a.z != 0 && ToA(cv.p, a).Affine? && ToA(cv.p, a).x != x && MixX(cv.p, a, x) != 0
    ensures ToA(cv.p, AddAJ(cv, a, x, y, old')) == AddA(cv, ToA(cv.p, a), Affine(x, y))
  {
    hide Mul, Add, Rs, N.Prime, Sub, DblAJ, MixTail, MixX, MixY, Third, TangentNum, Quot, ToA;
    var p := cv.p;
    FromJac(p, a);
    var s := ToA(p, a);
    var l := ChordSlope(p, s.x, s.y, x, y);
    MixFront(p, a, s.x, s.y, x, y);
    ChordMixSum(p, a, s.x, s.y, x, y, l);
  }

  lemma SlopeY(p: nat, x1: nat, y1: nat, x2: nat, y2: nat, l: nat, w: int)
    requires p > 1 && y2 < p && y2 == Rs(p, y1 - l * (x1 - x2))
    ensures var D: int, E: int := x2 - x1, y2 - y1; Rs(p, E * w) == Rs(p, l * D * w)
  {
    hide Rs;
    var D: int, E: int := x2 - x1, y2 - y1;
    RsOf(p, y2);
    var k := RsSame(p, y2, y1 - l * (x1 - x2));
    assert y1 - l * (x1 - x2) == y1 + l * D;
    assert E * w == l * D * w + (k * w) * p by {
      assert E == l * D + k * p;
      assert (l * D + k * p) * w == l * D * w + (k * w) * p;
    }
    RsBy(p, E * w, l * D * w, k * w);
  }
}
