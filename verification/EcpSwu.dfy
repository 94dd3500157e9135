/** The deterministic map of field elements to points of a curve over a prime field with
    p = 3 mod 4 (ecpSWU). */
module EcpSwu {
  import opened PowersOfTwo
  import opened Qr
  import opened Gfp
  import opened EcpPoints
  import opened EcpAffine
  import N = Numbers
  import J = EcpJacobian
  import QrPower

  predicate IsSquare(p: nat, a: nat)
    requires p > 1
  {
    exists z: nat :: z < p && Mul(F(p), z, z) == a
  }

  // x^3 + A x + B
  function G(cv: Curve, x: nat): (y: nat)
    requires cv.p > 1 && cv.A < cv.p && cv.B < cv.p && x < cv.p
    ensures y < cv.p
  {
    var r := F(cv.p);
    Add(r, Add(r, Mul(r, x, cv.A), Mul(r, Sqr(r, x), x)), cv.B)
  }

  ghost predicate Suits(cv: Curve)
  {
    ValidCurve(cv) && cv.p % 4 == 3 && cv.A != 0 && cv.B != 0
  }

  // ---------------------------------------------------------------- squares

  // chi(y) == y^((p - 1) / 2)
  function Chi(p: nat, y: nat): (c: nat)
    requires p > 1
    ensures c < p
  {
    Pow(F(p), y, (p - 1) / 2)
  }

  lemma ChiValues(p: nat, y: nat)
    requires PrimeField(p) && y < p
    ensures Chi(p, y) == (if y == 0 then 0 else Chi(p, y)) && (y != 0 ==> Chi(p, y) == 1 || Chi(p, y) == p - 1)
    ensures Mul(F(p), Chi(p, y), Chi(p, y)) == if y == 0 then 0 else 1
  {
    hide Mul, Pow, N.Prime, Rs;
    var r := F(p);
    J.OddPrime(p);
    PowAdd(r, y, (p - 1) / 2, (p - 1) / 2);
    if y == 0 {
      PowOne(r, (p - 1) / 2);
      PowOne(r, p - 1);
    } else {
      Fermat(r, y);
      RootOfOne(p, Chi(p, y));
    }
  }

  lemma RootOfOne(p: nat, c: nat)
    requires PrimeField(p) && c < p && Mul(F(p), c, c) == 1
    ensures c == 1 || c == p - 1
  {
    hide Mul, N.Prime, Rs;
    RsOf(p, c);
    RsOf(p, 1);
    MulIs(p, c, c, c * c);
    var k := RsSame(p, c * c, 1);
    assert (c - 1) * (c + 1) == 0 + k * p;
    RsBy(p, (c - 1) * (c + 1), 0, k);
    RsOf(p, 0);
    ZeroProduct(p, c - 1, c + 1);
    if c != 1 {
      Distinct(p, c, 1);
    }
    if c + 1 < p {
      RsOf(p, c + 1);
    }
  }

  /** Euler's criterion for p = 3 mod 4. */
  lemma Euler(p: nat, y: nat)
    requires PrimeField(p) && p % 4 == 3 && y < p
    ensures IsSquare(p, y) <==> y == 0 || Chi(p, y) == 1
  {
    hide Mul, Pow, N.Prime;
    var r := F(p);
    ChiValues(p, y);
    if IsSquare(p, y) && y != 0 {
      var z: nat :| z < p && Mul(r, z, z) == y;
      SquareChi(p, z, y);
    }
    if y == 0 {
      ZeroSquare(p);
    } else if Chi(p, y) == 1 {
      // y == (y^((p + 1) / 4))^2
      var h := (p + 1) / 4;
      PowAdd(r, y, h, h);
      PowStep(r, y, (p - 1) / 2);
      MulUnit(r, y);
      assert h + h == (p - 1) / 2 + 1;
      assert Mul(r, Pow(r, y, h), Pow(r, y, h)) == y;
    }
  }

  lemma ZeroSquare(p: nat)
    requires p > 1
    ensures Mul(F(p), 0, 0) == 0 && IsSquare(p, 0)
  {
  }

  lemma SquareChi(p: nat, z: nat, y: nat)
    requires PrimeField(p) && z < p && y != 0 && Mul(F(p), z, z) == y
    ensures Chi(p, y) == 1
  {
    hide Mul, Pow, N.Prime;
    var r := F(p);
    J.OddPrime(p);
    PowProduct(r, z, z, (p - 1) / 2);
    PowAdd(r, z, (p - 1) / 2, (p - 1) / 2);
    if z == 0 { MulUnit(r, 0); }
    Fermat(r, z);
  }

  // The exponent the code uses: (p - 2) - (p - 3) / 4
  function Exponent(p: nat): nat
    requires p > 3 && p % 4 == 3
  {
    p - 2 - p / 4
  }

  // With t == y^e, t^2 y is chi(y).
  lemma RootTest(p: nat, y: nat)
    requires PrimeField(p) && p % 4 == 3 && y < p
    ensures var r := F(p);
            var t := Pow(r, y, Exponent(p));
            Mul(r, Mul(r, t, t), y) == Chi(p, y)
  {
    hide Mul, Pow, N.Prime;
    var r, e, h := F(p), Exponent(p), (p - 1) / 2;
    PowAdd(r, y, e, e);
    PowStep(r, y, e + e);
    MulComm(r, y, Pow(r, y, e + e));
    assert e + e + 1 == h + (p - 1);
    PowAdd(r, y, h, p - 1);
    MulUnit(r, Chi(p, y));
    if y == 0 {
      PowOne(r, h);
      PowOne(r, e + e + 1);
    } else {
      Fermat(r, y);
    }
  }

  // ---------------------------------------------------------------- the two candidates

  // t == -a^2, as an integer; u == t + t^2
  function TOf(a: int): int
  {
    -(a * a)
  }

  function UOf(t: int): int
  {
    t + t * t
  }

  lemma UZero(p: nat, a: nat)
    requires PrimeField(p) && a < p
    ensures Rs(p, UOf(TOf(a))) == 0 <==> a == 0 || a == 1 || a == p - 1
  {
    hide N.Prime, Rs, TOf, Mul;
    var t := TOf(a);
    RsOf(p, 0);
    RsOf(p, a);
    RsOf(p, 1);
    TSigns(a);
    if Rs(p, UOf(t)) == 0 {
      assert UOf(t) == t * (t + 1);
      ZeroProduct(p, t, t + 1);
      if Rs(p, t) == 0 {
        var k := RsSame(p, t, 0);
        RsBy(p, a * a, 0, -k);
        ZeroProduct(p, a, a);
      } else {
        var k := RsSame(p, t + 1, 0);
        RsBy(p, a * a, 1, -k);
        MulIs(p, a, a, a * a);
        RootOfOne(p, a);
      }
    } else if a == p - 1 {
      UAtMinusOne(p, a);
    }
  }

  lemma TSigns(a: int)
    ensures TOf(a) == 0 - a * a && TOf(0) == 0 && TOf(1) == -1 && UOf(TOf(0)) == 0 && UOf(TOf(1)) == 0
  {
  }

  lemma UAtMinusOne(p: nat, a: int)
    requires p > 1 && a == p - 1
    ensures Rs(p, UOf(TOf(a))) == 0
  {
    hide Rs;
    var t := TOf(a);
    assert t == -1 + (2 - p) * p;
    assert t * (t + 1) == (t * (2 - p)) * p;
    RsBy(p, UOf(t), 0, t * (2 - p));
    RsOf(p, 0);
  }

  // The abscissa x1 and what it satisfies: A u x1 == -B (1 + u), or x1 == 0 when u == 0.
  function X1(cv: Curve, a: nat): (x: nat)
    requires ValidCurve(cv) && a < cv.p
    ensures x < cv.p
  {
    var r := F(cv.p);
    var t := Neg(r, Sqr(r, a));
    var u := Add(r, Sqr(r, t), t);
    Neg(r, Mul(r, Mul(r, Inv(r, Mul(r, u, cv.A)), Add(r, u, 1)), cv.B))
  }

  function X2(cv: Curve, a: nat): (x: nat)
    requires ValidCurve(cv) && a < cv.p
    ensures x < cv.p
  {
    var r := F(cv.p);
    Mul(r, X1(cv, a), Neg(r, Sqr(r, a)))
  }

  // Some integer w with w A u == 1 + k p gives x1 == -(B (1 + u) w).
  lemma X1Is(cv: Curve, a: nat) returns (w: nat)
    requires ValidCurve(cv) && a < cv.p
    ensures var u := UOf(TOf(a));
            && X1(cv, a) == Rs(cv.p, -(w * (u + 1) * cv.B))
            && (Rs(cv.p, u * cv.A) != 0 ==> Rs(cv.p, u * cv.A * w) == 1)
            && (Rs(cv.p, u * cv.A) == 0 ==> w == 0)
  {
    hide N.Prime, Rs, Mul, Add, Neg, Inv, TOf, UOf;
    var p := cv.p;
    var u := UOf(TOf(a));
    FrontOf(cv, a);
    w := Inv(F(p), Rs(p, u * cv.A));
    InverseIs(p, u * cv.A, w);
    X1Tail(p, w, u, cv.B);
  }

  lemma InverseIs(p: nat, n: int, w: nat)
    requires PrimeField(p) && w == Inv(F(p), Rs(p, n))
    ensures w < p && (Rs(p, n) != 0 ==> Rs(p, n * w) == 1)
    ensures Rs(p, n) == 0 ==> w == 0
  {
    hide N.Prime, Rs, Mul, Inv;
    if Rs(p, n) == 0 {
      InvZero(p);
    } else {
      InvLaw(F(p), Rs(p, n));
      RsOf(p, w);
      MulIs(p, n, w, n * w);
    }
  }

  lemma X1Tail(p: nat, w: nat, u: int, B: nat)
    requires p > 1 && w < p && B < p
    ensures var r := F(p);
            Neg(r, Mul(r, Mul(r, w, Add(r, Rs(p, u), 1)), B)) == Rs(p, -(w * (u + 1) * B))
  {
    hide Rs, Mul, Add, Neg;
    AddIs(p, u, 1, u + 1);
    RsOf(p, 1);
    RsOf(p, w);
    RsOf(p, B);
    MulIs(p, w, u + 1, w * (u + 1));
    MulIs(p, w * (u + 1), B, w * (u + 1) * B);
    NegIs(p, w * (u + 1) * B);
  }

  lemma InvZero(p: nat)
    requires PrimeField(p)
    ensures Inv(F(p), 0) == 0
  {
    hide Mul, N.Prime;
    PowOne(F(p), p - 2);
  }

  lemma FrontOf(cv: Curve, a: nat)
    requires ValidCurve(cv) && a < cv.p
    ensures var r := F(cv.p);
            var t := Neg(r, Sqr(r, a));
            var u := Add(r, Sqr(r, t), t);
            && t == Rs(cv.p, TOf(a)) && u == Rs(cv.p, UOf(TOf(a)))
            && Mul(r, u, cv.A) == Rs(cv.p, UOf(TOf(a)) * cv.A)
  {
    hide N.Prime, Rs, Mul, Add, Neg;
    var p := cv.p;
    var t := TOf(a);
    RsOf(p, a);
    RsOf(p, cv.A);
    MulIs(p, a, a, a * a);
    NegIs(p, a * a);
    MulIs(p, t, t, t * t);
    AddIs(p, t * t, t, t + t * t);
    MulIs(p, UOf(t), cv.A, UOf(t) * cv.A);
  }

  // The values of the cubic at x1 and at x2 == t x1.
  function Cubic(cv: Curve, x: int): int
  {
    x * x * x + cv.A * x + cv.B
  }

  lemma GIs(cv: Curve, x: int)
    requires ValidCurve(cv)
    ensures G(cv, Rs(cv.p, x)) == Rs(cv.p, Cubic(cv, x))
  {
    hide N.Prime, Rs, Mul, Add;
    var p := cv.p;
    RsOf(p, cv.A);
    RsOf(p, cv.B);
    MulIs(p, x, cv.A, cv.A * x);
    MulIs(p, x, x, x * x);
    MulIs(p, x * x, x, x * x * x);
    AddIs(p, cv.A * x, x * x * x, x * x * x + cv.A * x);
    AddIs(p, x * x * x + cv.A * x, cv.B, Cubic(cv, x));
  }

  // g(x2) == t^3 g(x1), unless u == 0
  lemma CubicTwist(cv: Curve, t: int, w: int, k: int)
    requires UOf(t) * cv.A * w == 1 + k * cv.p
    ensures var x := -(w * (UOf(t) + 1) * cv.B);
            Cubic(cv, x * t) == t * t * t * Cubic(cv, x) + (k * ((t * t * t - 1) * cv.B)) * cv.p
  {
    TwistSum(cv.A, cv.B, t, UOf(t), w, k, cv.p);
  }

  lemma TwistSum(A: int, B: int, t: int, u: int, w: int, k: int, p: int)
    requires u == t + t * t && u * A * w == 1 + k * p
    ensures var x := -(w * (u + 1) * B);
            (x * t) * (x * t) * (x * t) + A * (x * t) + B
            == t * t * t * (x * x * x + A * x + B) + (k * ((t * t * t - 1) * B)) * p
  {
    var x, c := -(w * (u + 1) * B), (t * t * t - 1) * B;
    TwistDifference(A, B, t, x);
    TwistFactor(A, B, t, u, w);
    TwistRest(c, k, p);
  }

  lemma TwistRest(c: int, k: int, p: int)
    ensures c * (1 + k * p) - c == (k * c) * p
  {
  }

  lemma TwistDifference(A: int, B: int, t: int, x: int)
    ensures (x * t) * (x * t) * (x * t) + A * (x * t) + B
            == t * t * t * (x * x * x + A * x + B) - (A * x) * ((t - 1) * (t + t * t)) - (t * t * t - 1) * B
  {
    var c := t * t * t;
    CubeOfProduct(x, t);
    CubeLessRoot(t);
    N.TwoFactors(A, x, t);
    N.Spread(0, c, t, A * x);
    N.Commute(A * x, c - t);
    N.Spread(x * x * x, A * x, -B, c);
    N.Commute(c, x * x * x + A * x + B);
    N.Spread(c, 0, 1, B);
    N.Commute(t, A * x);
    N.Commute(c, B);
  }

  lemma CubeOfProduct(x: int, t: int)
    ensures (x * t) * (x * t) * (x * t) == x * x * x * (t * t * t)
  {
    N.Squared(x, t);
    N.Regroup(x * x, t * t, x, t);
  }

  lemma CubeLessRoot(t: int)
    ensures (t - 1) * (t + t * t) == t * t * t - t
  {
  }

  lemma TwistFactor(A: int, B: int, t: int, u: int, w: int)
    requires u == t + t * t
    ensures (A * -(w * (u + 1) * B)) * ((t - 1) * u) == -(((t * t * t - 1) * B) * (u * A * w))
  {
    assert (u + 1) * (t - 1) == t * t * t - 1;
    var c := (u + 1) * (t - 1);
    assert (A * -(w * (u + 1) * B)) * ((t - 1) * u) == -((c * B) * (u * A * w)) by {
      assert (w * (u + 1) * B) * (t - 1) == (c * B) * w;
      assert (A * -(w * (u + 1) * B)) * ((t - 1) * u) == -(A * u * ((w * (u + 1) * B) * (t - 1)));
      assert A * u * ((c * B) * w) == (c * B) * (u * A * w);
    }
  }

  /** g(x2) == (-a^2)^3 g(x1) whenever the denominator does not vanish. */
  lemma Twist(cv: Curve, a: nat) returns (y: int)
    requires Suits(cv) && a < cv.p && a != 0 && a != 1 && a != cv.p - 1
    ensures G(cv, X1(cv, a)) == Rs(cv.p, y)
    ensures var t := TOf(a); G(cv, X2(cv, a)) == Rs(cv.p, t * t * t * y)
  {
    hide N.Prime, Rs, Mul, Add, Neg, TOf, UOf, Cubic, G, X1, Inv;
    var p := cv.p;
    var t := TOf(a);
    var w := X1Is(cv, a);
    UZero(p, a);
    RsOf(p, cv.A);
    NonzeroProduct(p, UOf(t), cv.A);
    RsOf(p, 1);
    var k := RsSame(p, UOf(t) * cv.A * w, 1);
    var x := -(w * (UOf(t) + 1) * cv.B);
    CubicTwist(cv, t, w, k);
    FrontOf(cv, a);
    MulIs(p, x, t, x * t);
    GIs(cv, x);
    GIs(cv, x * t);
    y := Cubic(cv, x);
    RsBy(p, Cubic(cv, x * t), t * t * t * y, k * ((t * t * t - 1) * cv.B));
  }

  // When the denominator vanishes both abscissas are 0 and both values are B.
  lemma Degenerate(cv: Curve, a: nat)
    requires Suits(cv) && a < cv.p && (a == 0 || a == 1 || a == cv.p - 1)
    ensures X1(cv, a) == 0 && X2(cv, a) == 0 && G(cv, 0) == cv.B
  {
    hide N.Prime, Rs, Mul, Add, Neg, TOf, UOf, Cubic, G, X1, Inv;
    var p := cv.p;
    var u := UOf(TOf(a));
    UZero(p, a);
    RsOf(p, 0);
    RsOf(p, cv.A);
    RsOf(p, cv.B);
    MulIs(p, u, cv.A, u * cv.A);
    MulIs(p, 0, cv.A, 0);
    var w := X1Is(cv, a);
    MulUnit(F(p), Neg(F(p), Sqr(F(p), a)));
    GIs(cv, 0);
    CubicAtZero(cv);
    assert -(0 * (u + 1) * cv.B) == 0;
  }

  lemma CubicAtZero(cv: Curve)
    ensures Cubic(cv, 0) == cv.B
  {
  }

  // ---------------------------------------------------------------- the point

  // The ordinate the code gives for the first and for the second candidate.
  function Y1(cv: Curve, a: nat): (y: nat)
    requires ValidCurve(cv) && cv.p % 4 == 3 && a < cv.p
    ensures y < cv.p
  {
    var r := F(cv.p);
    var y := G(cv, X1(cv, a));
    Mul(r, Pow(r, y, Exponent(cv.p)), y)
  }

  function Y2(cv: Curve, a: nat): (y: nat)
    requires ValidCurve(cv) && cv.p % 4 == 3 && a < cv.p
    ensures y < cv.p
  {
    var r := F(cv.p);
    var y := G(cv, X1(cv, a));
    Mul(r, Pow(r, y, Exponent(cv.p)), Mul(r, Mul(r, Sqr(r, a), a), y))
  }

  function Swu(cv: Curve, a: nat): (b: Point)
    requires Suits(cv) && a < cv.p
    ensures b.Affine? && PointIn(cv.p, b)
  {
    if Chi(cv.p, G(cv, X1(cv, a))) == 1 then Affine(X1(cv, a), Y1(cv, a))
    else Affine(X2(cv, a), Y2(cv, a))
  }

  // (t y)^2 == (t^2 y) y
  lemma SquareOfRoot(r: Ring, t: nat, y: nat)
    requires Valid(r)
    ensures var s := Mul(r, t, y); Mul(r, s, s) == Mul(r, Mul(r, Mul(r, t, t), y), y)
  {
    hide Mul;
    Interchange(r, t, y, t, y);
    MulAssoc(r, Mul(r, t, t), y, y);
  }

  lemma OnCurveG(cv: Curve, x: nat, y: nat)
    requires ValidCurve(cv) && x < cv.p && y < cv.p
    ensures OnCurve(cv, Affine(x, y)) <==> Mul(F(cv.p), y, y) == G(cv, x)
  {
    hide N.Prime, Rs, Mul, G;
    RsOf(cv.p, x);
    RsOf(cv.p, y);
    MulIs(cv.p, y, y, y * y);
    GIs(cv, x);
  }

  // The first branch: g(x1) is a nonzero square.
  lemma FirstBranch(cv: Curve, a: nat)
    requires Suits(cv) && a < cv.p && Chi(cv.p, G(cv, X1(cv, a))) == 1
    ensures OnCurve(cv, Affine(X1(cv, a), Y1(cv, a)))
  {
    hide N.Prime, Mul, G, X1, Pow, Chi, Exponent, OnCurve;
    var r, y := F(cv.p), G(cv, X1(cv, a));
    var t := Pow(r, y, Exponent(cv.p));
    RootTest(cv.p, y);
    SquareOfRoot(r, t, y);
    MulUnit(r, y);
    OnCurveG(cv, X1(cv, a), Y1(cv, a));
  }

  // (t a^3 y)^2 == chi(y) y a^6
  lemma SecondSquare(cv: Curve, a: nat)
    requires Suits(cv) && a < cv.p
    ensures var r, y, d := F(cv.p), G(cv, X1(cv, a)), Mul(F(cv.p), Sqr(F(cv.p), a), a);
            Mul(r, Y2(cv, a), Y2(cv, a)) == Mul(r, Mul(r, Chi(cv.p, y), y), Mul(r, d, d))
  {
    hide N.Prime, Mul, G, X1, Pow, Chi, Exponent;
    var r, y, d := F(cv.p), G(cv, X1(cv, a)), Mul(F(cv.p), Sqr(F(cv.p), a), a);
    var t := Pow(r, y, Exponent(cv.p));
    RootTest(cv.p, y);
    MulComm(r, d, y);
    MulAssoc(r, t, y, d);
    var s := Mul(r, t, y);
    Interchange(r, s, d, s, d);
    SquareOfRoot(r, t, y);
  }

  // -(y a^6) as a residue, for y given by an integer
  lemma MinusSixth(p: nat, a: nat, y: int)
    requires PrimeField(p) && a < p
    ensures var r, t := F(p), TOf(a);
            var d := Mul(r, Sqr(r, a), a);
            Mul(r, Mul(r, p - 1, Rs(p, y)), Mul(r, d, d)) == Rs(p, t * t * t * y)
  {
    hide N.Prime, Mul, Rs, TOf;
    var t, a3 := TOf(a), a * a * a;
    var m: int := 0 - 1;
    RsOf(p, a);
    RsOf(p, p - 1);
    RsBy(p, p - 1, m, 1);
    MulIs(p, a, a, a * a);
    MulIs(p, a * a, a, a3);
    MulIs(p, a3, a3, a3 * a3);
    MulIs(p, m, y, m * y);
    SixthInt(a, y, m);
    MulIs(p, m * y, a3 * a3, t * t * t * y);
  }

  lemma SixthInt(a: int, y: int, m: int)
    requires m == -1
    ensures var t, a3 := TOf(a), a * a * a; (m * y) * (a3 * a3) == t * t * t * y
  {
    var s, a3 := a * a, a * a * a;
    assert a3 * a3 == s * s * s;
    assert (-s) * (-s) * (-s) == -(s * s * s);
  }

  // The second branch for regular a: g(x1) is 0 or not a square.
  lemma SecondBranch(cv: Curve, a: nat)
    requires Suits(cv) && a < cv.p && a != 0 && a != 1 && a != cv.p - 1
    requires Chi(cv.p, G(cv, X1(cv, a))) != 1
    ensures OnCurve(cv, Affine(X2(cv, a), Y2(cv, a)))
  {
    hide N.Prime, Mul, G, X1, X2, Y2, Pow, Chi, Exponent, OnCurve, Rs;
    var p, r, t := cv.p, F(cv.p), TOf(a);
    var y := Twist(cv, a);
    SecondSquare(cv, a);
    var d := Mul(r, Sqr(r, a), a);
    ChiValues(p, Rs(p, y));
    if Rs(p, y) == 0 {
      MulUnit(r, 0);
      MulUnit(r, Mul(r, d, d));
      RsOf(p, 0);
      MulIs(p, t * t * t, y, t * t * t * y);
      MulUnit(r, Rs(p, t * t * t));
    } else {
      MinusSixth(p, a, y);
    }
    OnCurveG(cv, X2(cv, a), Y2(cv, a));
  }

  // The second branch for a in {0, 1, -1}: (0, y) with y^2 == -B a^6, never B.
  lemma DegenerateBranch(cv: Curve, a: nat)
    requires Suits(cv) && a < cv.p && (a == 0 || a == 1 || a == cv.p - 1) && Chi(cv.p, cv.B) != 1
    ensures !OnCurve(cv, Affine(X2(cv, a), Y2(cv, a)))
  {
    hide N.Prime, Mul, G, X1, X2, Y2, Pow, Chi, Exponent, OnCurve, Rs, TOf;
    var p, r, t := cv.p, F(cv.p), TOf(a);
    Degenerate(cv, a);
    SecondSquare(cv, a);
    ChiValues(p, cv.B);
    RsOf(p, cv.B);
    MinusSixth(p, a, cv.B);
    OnCurveG(cv, X2(cv, a), Y2(cv, a));
    if Rs(p, t * t * t * cv.B) == cv.B {
      NotB(p, a, cv.B);
    }
  }

  // -a^6 B == B is impossible for a in {0, 1, -1}
  lemma NotB(p: nat, a: nat, B: nat)
    requires PrimeField(p) && 0 < B < p && (a == 0 || a == 1 || a == p - 1)
    ensures var t := TOf(a); Rs(p, t * t * t * B) != B
  {
    hide N.Prime, Rs, TOf;
    var t := TOf(a);
    RsOf(p, 0);
    RsOf(p, B);
    TSigns(a);
    if a == 0 {
      assert t * t * t * B == 0;
    } else {
      var m: int := 0 - B;
      CubeOfMinusOne(p, a, B);
      SmallNonzero(p, 2);
      NonzeroProduct(p, 2, B);
      if Rs(p, m) == B {
        var k := RsSame(p, B, m);
        RsBy(p, 2 * B, 0, k);
      }
    }
  }

  lemma CubeOfMinusOne(p: nat, a: nat, B: nat)
    requires PrimeField(p) && (a == 1 || a == p - 1)
    ensures var t := TOf(a); Rs(p, t * t * t * B) == Rs(p, 0 - B)
  {
    hide N.Prime, Rs, TOf, UOf, Mul;
    var t := TOf(a);
    var m: int := 0 - 1;
    // t == -1 mod p
    var k := if a == 1 then 0 else 2 - p;
    TSigns(a);
    assert t == m + k * p by {
      if a == p - 1 { assert a * a == 1 + (p - 2) * p; }
    }
    RsBy(p, t, m, k);
    MulIs(p, t, t, t * t);
    MulIs(p, m, m, 1);
    MulIs(p, t * t, t, t * t * t);
    MulIs(p, 1, m, m);
    MulIs(p, t * t * t, B, t * t * t * B);
    MulIs(p, m, B, 0 - B);
  }

  // ---------------------------------------------------------------- which root it is

  lemma {:induction false} ChiPow(p: nat, y: nat, n: nat)
    requires PrimeField(p) && y < p
    ensures Chi(p, Pow(F(p), y, n)) == Pow(F(p), Chi(p, y), n)
  {
    hide Mul, N.Prime;
    var r, h := F(p), (p - 1) / 2;
    if n == 0 {
      PowOne(r, h);
    } else {
      ChiPow(p, y, n - 1);
      PowProduct(r, y, Pow(r, y, n - 1), h);
    }
  }

  lemma ChiProduct(p: nat, a: nat, b: nat)
    requires PrimeField(p) && a < p && b < p
    ensures Chi(p, Mul(F(p), a, b)) == Mul(F(p), Chi(p, a), Chi(p, b))
  {
    hide Mul, N.Prime, Pow;
    PowProduct(F(p), a, b, (p - 1) / 2);
  }

  lemma {:induction false} MinusOnePow(p: nat, n: nat)
    requires PrimeField(p)
    ensures Pow(F(p), p - 1, n) == if n % 2 == 0 then 1 else p - 1
  {
    hide Mul, N.Prime;
    if n > 0 {
      MinusOnePow(p, n - 1);
      MinusOneSquare(p);
      MulUnit(F(p), p - 1);
    }
  }

  lemma MinusOneSquare(p: nat)
    requires PrimeField(p)
    ensures Mul(F(p), p - 1, p - 1) == 1
  {
    hide N.Prime, Rs, Mul;
    var m: int := 0 - 1;
    RsOf(p, p - 1);
    RsOf(p, 1);
    RsBy(p, p - 1, m, 1);
    MulIs(p, m, m, 1);
  }

  // y^(e + 1) for chi(y) == 1 and for chi(y) == -1
  lemma ChiOfRoot(p: nat, y: nat)
    requires PrimeField(p) && p % 4 == 3 && y < p
    ensures var c := Chi(p, Mul(F(p), Pow(F(p), y, Exponent(p)), y));
            && (Chi(p, y) == 1 ==> c == 1)
            && (Chi(p, y) == p - 1 ==> c == if p % 8 == 3 then 1 else p - 1)
  {
    hide Mul, N.Prime, Pow, Chi, Exponent;
    ExponentParity(p);
    var r, e := F(p), Exponent(p);
    MulComm(r, Pow(r, y, e), y);
    PowStep(r, y, e);
    ChiPow(p, y, e + 1);
    PowOne(r, e + 1);
    MinusOnePow(p, e + 1);
  }

  lemma ExponentParity(p: nat)
    requires p > 3 && p % 4 == 3
    ensures (Exponent(p) + 1) % 2 == if p % 8 == 3 then 0 else 1
  {
    var m := p / 4;
    var i, b := m / 2, m % 2;
    ModEight(p, m, i, b);
    if b == 0 {
      N.DivUnique(3 * m + 2, 2, 3 * i + 1, 0);
    } else {
      N.DivUnique(3 * m + 2, 2, 3 * i + 2, 1);
    }
  }

  lemma ModEight(p: nat, m: nat, i: nat, b: nat)
    requires p == 4 * m + 3 && m == 2 * i + b && b < 2
    ensures p % 8 == if b == 0 then 3 else 7
  {
    N.DivUnique(p, 8, i, 4 * b + 3);
  }

  // chi(a^3) == chi(a)
  lemma ChiOfCube(p: nat, a: nat)
    requires PrimeField(p) && 0 < a < p
    ensures Chi(p, Mul(F(p), Sqr(F(p), a), a)) == Chi(p, a)
  {
    hide Mul, N.Prime, Pow, Chi;
    var r := F(p);
    ChiProduct(p, Sqr(r, a), a);
    ChiProduct(p, a, a);
    ChiValues(p, a);
    MulUnit(r, Chi(p, a));
  }

  // The quadratic characters of the two ordinates.
  lemma ChiOfY(cv: Curve, a: nat)
    requires Suits(cv) && a < cv.p
    ensures var c := Chi(cv.p, G(cv, X1(cv, a)));
            && (c == 1 ==> Chi(cv.p, Y1(cv, a)) == 1)
            && (c == cv.p - 1 && a != 0 ==>
                Chi(cv.p, Y2(cv, a)) == if cv.p % 8 == 3 then Chi(cv.p, a) else Mul(F(cv.p), cv.p - 1, Chi(cv.p, a)))
  {
    hide Mul, N.Prime, Pow, Chi, G, X1, Exponent;
    var p, r, y := cv.p, F(cv.p), G(cv, X1(cv, a));
    var t, d := Pow(r, y, Exponent(p)), Mul(r, Sqr(r, a), a);
    ChiOfRoot(p, y);
    MulComm(r, d, y);
    MulAssoc(r, t, y, d);
    ChiProduct(p, Mul(r, t, y), d);
    if a != 0 {
      ChiOfCube(p, a);
      MulUnit(r, Chi(p, a));
    }
  }

  // A u x1 + B (u + 1) == 0
  lemma X1Equation(cv: Curve, a: nat)
    requires Suits(cv) && a < cv.p && a != 0 && a != 1 && a != cv.p - 1
    ensures var u := UOf(TOf(a)); Rs(cv.p, cv.A * u * X1(cv, a) + cv.B * (u + 1)) == 0
  {
    hide N.Prime, Rs, Mul, Add, Neg, TOf, UOf, X1, Inv;
    var p, u := cv.p, UOf(TOf(a));
    var w := X1Is(cv, a);
    UZero(p, a);
    RsOf(p, cv.A);
    RsOf(p, 0);
    RsOf(p, 1);
    NonzeroProduct(p, u, cv.A);
    var k := RsSame(p, u * cv.A * w, 1);
    RsOf(p, X1(cv, a));
    var m := RsSame(p, X1(cv, a), -(w * (u + 1) * cv.B));
    X1Int(cv.A, cv.B, u, w, k, m, p, X1(cv, a));
    RsBy(p, cv.A * u * X1(cv, a) + cv.B * (u + 1), 0, cv.A * u * m - k * ((u + 1) * cv.B));
  }

  lemma X1Int(A: int, B: int, u: int, w: int, k: int, m: int, p: int, x: int)
    requires u * A * w == 1 + k * p && x == -(w * (u + 1) * B) + m * p
    ensures A * u * x + B * (u + 1) == (A * u * m - k * ((u + 1) * B)) * p
  {
    var c := (u + 1) * B;
    assert w * (u + 1) * B == w * c;
    assert A * u * x == A * u * (m * p) - A * u * (w * c);
    X1Products(A, u, w, c, k, p, m);
  }

  lemma X1Products(A: int, u: int, w: int, c: int, k: int, p: int, m: int)
    requires u * A * w == 1 + k * p
    ensures A * u * (w * c) == c + k * c * p && A * u * (m * p) == A * u * m * p
  {
    assert A * u * (w * c) == (u * A * w) * c;
    assert (1 + k * p) * c == c + k * c * p;
  }

  /** The point of ecpSWU. For a other than 0, 1 and -1, x1 is the solution of a linear equation
      in it. Where g(x1) is a nonzero square the point is over x1 and its ordinate, a root of
      g(x1), is a square itself. Otherwise it is over -a^2 x1, and the ordinate is a root of
      -a^6 g(x1) that is a square with a, or without it, according to p modulo 8. */
  lemma SwuRoot(cv: Curve, a: nat) returns (x1: nat)
    requires Suits(cv) && a < cv.p
    ensures var p, t := cv.p, 0 - a * a;
            && x1 < p
            && if a == 0 || a == 1 || a == p - 1 then x1 == 0
               else Rs(p, cv.A * (t + t * t) * x1 + cv.B * (t + t * t + 1)) == 0
    ensures var p, t, b := cv.p, 0 - a * a, Swu(cv, a);
            var y := Rs(p, x1 * x1 * x1 + cv.A * x1 + cv.B);
            if y != 0 && IsSquare(p, y) then
              b.x == x1 && b.y != 0 && IsSquare(p, b.y) && Rs(p, b.y * b.y) == y
            else
              && b.x == Rs(p, x1 * t) && Rs(p, b.y * b.y) == Rs(p, t * t * t * y)
              && if y == 0 || a == 0 then b.y == 0
                 else b.y != 0 && (IsSquare(p, b.y) <==> (p % 8 == 3 <==> IsSquare(p, a)))
  {
    hide N.Prime, Mul, G, X1, X2, Y1, Y2, Pow, Chi, Exponent, Rs, TOf, UOf, IsSquare;
    var p := cv.p;
    TSigns(a);
    x1 := X1(cv, a);
    if a == 0 || a == 1 || a == p - 1 {
      Degenerate(cv, a);
    } else {
      X1Equation(cv, a);
      UIs(a);
    }
    RsOf(p, x1);
    GIs(cv, x1);
    var y := G(cv, x1);
    Euler(p, y);
    ChiValues(p, y);
    if Chi(p, y) == 1 {
      FirstRoot(cv, a);
    } else {
      SecondRoot(cv, a);
    }
  }

  lemma UIs(a: int)
    ensures var t := 0 - a * a; UOf(TOf(a)) == t + t * t
  {
  }

  lemma FirstRoot(cv: Curve, a: nat)
    requires Suits(cv) && a < cv.p && Chi(cv.p, G(cv, X1(cv, a))) == 1
    ensures var p, y := cv.p, Y1(cv, a);
            y != 0 && IsSquare(p, y) && Rs(p, y * y) == G(cv, X1(cv, a)) != 0
  {
    hide N.Prime, Mul, G, X1, Pow, Exponent, Rs, IsSquare, Chi, Y1, OnCurve;
    var p, y := cv.p, Y1(cv, a);
    ChiOfY(cv, a);
    ChiValues(p, y);
    ChiOfZero(p);
    Euler(p, y);
    FirstBranch(cv, a);
    OnCurveG(cv, X1(cv, a), y);
    RsOf(p, y);
    MulIs(p, y, y, y * y);
  }

  lemma ChiOfZero(p: nat)
    requires PrimeField(p)
    ensures Chi(p, 0) == 0
  {
    hide N.Prime, Mul;
    J.OddPrime(p);
    PowOne(F(p), (p - 1) / 2);
  }

  lemma SecondRoot(cv: Curve, a: nat)
    requires Suits(cv) && a < cv.p && Chi(cv.p, G(cv, X1(cv, a))) != 1
    ensures var p, t, y, z := cv.p, 0 - a * a, Y2(cv, a), G(cv, X1(cv, a));
            && X2(cv, a) == Rs(p, X1(cv, a) * t) && Rs(p, y * y) == Rs(p, t * t * t * z)
            && if z == 0 || a == 0 then y == 0
               else y != 0 && (IsSquare(p, y) <==> (p % 8 == 3 <==> IsSquare(p, a)))
  {
    hide N.Prime, Mul, G, X1, Pow, Exponent, Rs, IsSquare, Chi, Y2, TOf;
    var p, r, t, y, z := cv.p, F(cv.p), TOf(a), Y2(cv, a), G(cv, X1(cv, a));
    TSigns(a);
    FrontOf(cv, a);
    RsOf(p, X1(cv, a));
    MulIs(p, X1(cv, a), t, X1(cv, a) * t);
    SecondSquareInt(cv, a);
    if z == 0 || a == 0 {
      ZeroRoot(cv, a);
    } else {
      ChiValues(p, z);
      ChiOfY(cv, a);
      ChiValues(p, a);
      ChiValues(p, y);
      ChiOfZero(p);
      MinusOneSquare(p);
      MulUnit(r, p - 1);
      Euler(p, y);
      Euler(p, a);
    }
  }

  // y^2 == -a^6 g(x1), also where g(x1) == 0
  lemma SecondSquareInt(cv: Curve, a: nat)
    requires Suits(cv) && a < cv.p && Chi(cv.p, G(cv, X1(cv, a))) != 1
    ensures var p, t, y, z := cv.p, TOf(a), Y2(cv, a), G(cv, X1(cv, a)); Rs(p, y * y) == Rs(p, t * t * t * z)
  {
    hide N.Prime, Mul, G, X1, Pow, Exponent, Rs, Chi, Y2, TOf;
    var p, r, t, y, z := cv.p, F(cv.p), TOf(a), Y2(cv, a), G(cv, X1(cv, a));
    var d := Mul(r, Sqr(r, a), a);
    RsOf(p, y);
    RsOf(p, z);
    MulIs(p, y, y, y * y);
    SecondSquare(cv, a);
    ChiValues(p, z);
    ChiOfZero(p);
    if z == 0 {
      MulUnit(r, 0);
      MulUnit(r, Mul(r, d, d));
      TimesZero(t * t * t);
    } else {
      MinusSixth(p, a, z);
    }
  }

  lemma TimesZero(n: int)
    ensures n * 0 == 0
  {
  }

  lemma ZeroRoot(cv: Curve, a: nat)
    requires Suits(cv) && a < cv.p && (G(cv, X1(cv, a)) == 0 || a == 0)
    ensures Y2(cv, a) == 0
  {
    hide N.Prime, Mul, G, X1, Pow, Exponent;
    var r, z := F(cv.p), G(cv, X1(cv, a));
    var d := Mul(r, Sqr(r, a), a);
    if a == 0 {
      MulUnit(r, Sqr(r, a));
      MulUnit(r, z);
    } else {
      MulUnit(r, d);
    }
    MulUnit(r, Pow(r, z, Exponent(cv.p)));
  }

  /** ecpSWU lands on the curve for every a other than 0, 1 and -1, and for those three
      exactly when B is a square. */
  lemma SwuOnCurve(cv: Curve, a: nat)
    requires Suits(cv) && a < cv.p
    ensures OnCurve(cv, Swu(cv, a)) <==> (a != 0 && a != 1 && a != cv.p - 1) || IsSquare(cv.p, cv.B)
  {
    hide N.Prime, Mul, G, X1, X2, Y1, Y2, Pow, Chi, Exponent, OnCurve, Rs, TOf, UOf, IsSquare;
    Euler(cv.p, cv.B);
    var first := Chi(cv.p, G(cv, X1(cv, a))) == 1;
    if first { FirstBranch(cv, a); }
    if a == 0 || a == 1 || a == cv.p - 1 {
      Degenerate(cv, a);
      if !first { DegenerateBranch(cv, a); }
    } else if !first {
      SecondBranch(cv, a);
    }
  }

  /** ecpSWU, in words: n words of W bits hold the modulus. */
  method SWU(cv: Curve, b: array<nat>, a: nat, n: nat, W: nat, max: nat)
    requires Suits(cv) && a < cv.p && cv.p <= Pow2(W * n) && W * n < max && 7 < max
    requires b.Length >= 2
    modifies b
    ensures Affine(b[0], b[1]) == Swu(cv, a) && b[2..] == old(b[2..])
    ensures OnCurve(cv, Affine(b[0], b[1])) <==> (a != 0 && a != 1 && a != cv.p - 1) || IsSquare(cv.p, cv.B)
  {
    hide N.Prime, Mul, Add, Neg, Pow, Pow2, OnCurve, IsSquare;
    var p, r := cv.p, F(cv.p);
    SwuOnCurve(cv, a);
    var t := Sqr(r, a);
    t := Neg(r, t);
    var s: nat := p - 2;
    var x2 := Sqr(r, t);
    x2 := Add(r, x2, t);
    var x1 := Mul(r, x2, cv.A);
    x1 := QrPower.Power(r, x1, s, n, W, max);
    x2 := Add(r, x2, 1);
    x1 := Mul(r, x1, x2);
    x1 := Mul(r, x1, cv.B);
    x1 := Neg(r, x1);
    x2 := Sqr(r, x1);
    x2 := Mul(r, x2, x1);
    var y := Mul(r, x1, cv.A);
    y := Add(r, y, x2);
    y := Add(r, y, cv.B);
    x2 := Mul(r, x1, t);
    s := s - p / 4;
    t := QrPower.Power(r, y, s, n, W, max);
    RootTest(p, y);
    s := Sqr(r, a);
    s := Mul(r, s, a);
    s := Mul(r, s, y);
    b[0] := Sqr(r, t);
    b[0] := Mul(r, b[0], y);
    if b[0] == 1 {
      b[0] := x1;
      b[1] := Mul(r, t, y);
    } else {
      b[0] := x2;
      b[1] := Mul(r, t, s);
    }
  }
}
