/** Affine points: the curve equation, which addition preserves, and the affine operations
    of ecp.c on coordinate buffers. */
module EcpAffine {
  import opened Qr
  import opened Gfp
  import opened EcpPoints
  import opened Ecp
  import N = Numbers

  // y^2 == x^3 + A x + B among residues
  predicate OnCurve(cv: Curve, a: Point)
    requires cv.p > 1
  {
    a.Affine? ==>
      a.x < cv.p && a.y < cv.p && Rs(cv.p, a.y * a.y) == Rs(cv.p, a.x * a.x * a.x + cv.A * a.x + cv.B)
  }

  // ---------------------------------------------------------------- the line through two points

  // Line(x) is the cubic minus the square of the line y == c + l x.
  function Line(A: int, B: int, c: int, l: int, x: int): int
  {
    x * x * x + A * x + B - (c + l * x) * (c + l * x)
  }

  function LineA(A: int, c: int, l: int, x1: int, x2: int, x3: int): int
  {
    A - 2 * (l * c) - (x1 * x2 + x1 * x3 + x2 * x3)
  }

  function LineB(B: int, c: int, x1: int, x2: int, x3: int): int
  {
    B - c * c + x1 * x2 * x3
  }

  // With x1 + x2 + x3 == l^2 it leaves a linear rest modulo (x - x1)(x - x2)(x - x3).
  lemma LineRest(A: int, B: int, c: int, l: int, x1: int, x2: int, x3: int)
    requires x1 + x2 + x3 == l * l
    ensures var a, b := LineA(A, c, l, x1, x2, x3), LineB(B, c, x1, x2, x3);
            && Line(A, B, c, l, x1) == a * x1 + b
            && Line(A, B, c, l, x2) == a * x2 + b
            && Line(A, B, c, l, x3) == a * x3 + b
  {
    hide Line, LineA, LineB;
    LineAt(A, B, c, l, x1, x2, x3);
    LineAt(A, B, c, l, x2, x1, x3);
    LineAt(A, B, c, l, x3, x1, x2);
    LineSymmetric(A, B, c, l, x1, x2, x3);
  }

  lemma LineSymmetric(A: int, B: int, c: int, l: int, x1: int, x2: int, x3: int)
    ensures LineA(A, c, l, x1, x2, x3) == LineA(A, c, l, x2, x1, x3) == LineA(A, c, l, x3, x1, x2)
    ensures LineB(B, c, x1, x2, x3) == LineB(B, c, x2, x1, x3) == LineB(B, c, x3, x1, x2)
  {
    assert x1 * x2 * x3 == x2 * x1 * x3 == x3 * x1 * x2;
  }

  lemma LineAt(A: int, B: int, c: int, l: int, x: int, u: int, v: int)
    requires x + u + v == l * l
    ensures Line(A, B, c, l, x) == LineA(A, c, l, x, u, v) * x + LineB(B, c, x, u, v)
  {
    assert (c + l * x) * (c + l * x) == c * c + 2 * (l * c) * x + (l * l) * (x * x);
    assert (x + u + v) * (x * x) == x * x * x + (x * u + x * v) * x;
    assert u * v * x == x * u * v;
    assert (A - 2 * (l * c) - (x * u + x * v + u * v)) * x
           == A * x - 2 * (l * c) * x - (x * u + x * v) * x - u * v * x;
  }

  lemma LineEnd(p: nat, a: int, b: int, x1: int, x3: int)
    requires p > 1 && Rs(p, a) == 0 && Rs(p, a * x1 + b) == 0
    ensures Rs(p, a * x3 + b) == 0
  {
    hide Rs;
    RsOf(p, 0);
    var i := RsSame(p, a, 0);
    var j := RsSame(p, a * x1 + b, 0);
    EndInt(p, a, b, x1, x3, i, j);
    RsBy(p, a * x3 + b, 0, j + i * (x3 - x1));
  }

  lemma EndInt(p: int, a: int, b: int, x1: int, x3: int, i: int, j: int)
    requires a == i * p && a * x1 + b == j * p
    ensures a * x3 + b == (j + i * (x3 - x1)) * p
  {
    assert a * x3 == a * x1 + (i * p) * (x3 - x1);
    assert (i * p) * (x3 - x1) == (i * (x3 - x1)) * p;
  }

  // A point of the curve on the line is a root.
  lemma OnLine(cv: Curve, x: nat, y: nat, c: int, l: int)
    requires cv.p > 1 && OnCurve(cv, Affine(x, y)) && y == Rs(cv.p, c + l * x)
    ensures Rs(cv.p, Line(cv.A, cv.B, c, l, x)) == 0
  {
    hide Rs, Mul;
    var p := cv.p;
    var g, m := x * x * x + cv.A * x + cv.B, c + l * x;
    RsOf(p, y);
    RsOf(p, 0);
    MulIs(p, m, m, m * m);
    MulIs(p, y, y, y * y);
    var k := RsSame(p, g, m * m);
    RsBy(p, g - m * m, 0, k);
  }

  lemma RootOnCurve(cv: Curve, x: int, c: int, l: int)
    requires cv.p > 1 && Rs(cv.p, Line(cv.A, cv.B, c, l, x)) == 0
    ensures OnCurve(cv, Affine(Rs(cv.p, x), Rs(cv.p, -(c + l * x))))
  {
    hide Rs, Mul, Add;
    var p, y := cv.p, -(c + l * x);
    var X, A: int, B: int := Rs(p, x), cv.A, cv.B;
    RsOf(p, 0);
    var k := RsSame(p, Line(A, B, c, l, x), 0);
    assert y * y == (c + l * x) * (c + l * x);
    RsBy(p, x * x * x + A * x + B, y * y, k);
    SquareOf(p, y);
    CubicOf(p, x, A, B);
  }

  lemma SquareOf(p: nat, y: int)
    requires p > 1
    ensures Rs(p, Rs(p, y) * Rs(p, y)) == Rs(p, y * y)
  {
    hide Rs, Mul;
    RsOf(p, Rs(p, y));
    MulIs(p, y, y, y * y);
    MulIs(p, Rs(p, y), Rs(p, y), Rs(p, y) * Rs(p, y));
  }

  lemma CubicOf(p: nat, x: int, A: int, B: int)
    requires p > 1
    ensures var X := Rs(p, x); Rs(p, X * X * X + A * X + B) == Rs(p, x * x * x + A * x + B)
  {
    hide Rs;
    var X := Rs(p, x);
    RsOf(p, X);
    var k := RsSame(p, x, X);
    CubicDifference(x, X, A, k, p);
    RsBy(p, x * x * x + A * x + B, X * X * X + A * X + B, k * (x * x + x * X + X * X + A));
  }

  lemma CubicDifference(x: int, X: int, A: int, k: int, p: int)
    requires x == X + k * p
    ensures x * x * x + A * x == X * X * X + A * X + (k * (x * x + x * X + X * X + A)) * p
  {
    var s := x * x + x * X + X * X + A;
    assert (x - X) * s == x * x * x + A * x - X * X * X - A * X;
    assert (k * p) * s == (k * s) * p;
  }

  // ---------------------------------------------------------------- addition stays on the curve

  lemma ChordOnCurve(cv: Curve, x1: nat, y1: nat, x2: nat, y2: nat)
    requires ValidCurve(cv) && OnCurve(cv, Affine(x1, y1)) && OnCurve(cv, Affine(x2, y2)) && x1 != x2
    ensures OnCurve(cv, AddA(cv, Affine(x1, y1), Affine(x2, y2)))
  {
    hide Rs, N.Prime, OnCurve, Line, LineA, LineB, Third, Quot, Sub, TangentNum;
    var p := cv.p;
    InRange(cv, x1, y1);
    InRange(cv, x2, y2);
    var l := ChordSlope(p, x1, y1, x2, y2);
    var c, x3 := y1 - l * x1, l * l - x1 - x2;
    RsOf(p, y1);
    Through(l, x1, x2, y1, c);
    OnLine(cv, x1, y1, c, l);
    OnLine(cv, x2, y2, c, l);
    LineRest(cv.A, cv.B, c, l, x1, x2, x3);
    var a, b := LineA(cv.A, c, l, x1, x2, x3), LineB(cv.B, c, x1, x2, x3);
    TwoRoots(p, a, b, x1, x2);
    LineEnd(p, a, b, x1, x3);
    RootOnCurve(cv, x3, c, l);
    ThirdIs(p, x1, y1, x2, l);
    ReflectedY(l, x1, x3, y1, c);
  }

  lemma Through(l: int, x1: int, x2: int, y1: int, c: int)
    requires c == y1 - l * x1
    ensures y1 - l * (x1 - x2) == c + l * x2
  {
  }

  lemma ReflectedY(l: int, x1: int, x3: int, y1: int, c: int)
    requires c == y1 - l * x1
    ensures -(c + l * x3) == l * (x1 - x3) - y1
  {
  }

  lemma InRange(cv: Curve, x: nat, y: nat)
    requires cv.p > 1 && OnCurve(cv, Affine(x, y))
    ensures x < cv.p && y < cv.p
  {
  }

  lemma RootsApart(p: int, a: int, b: int, x1: int, x2: int, i: int, j: int)
    requires a * x1 + b == i * p && a * x2 + b == j * p
    ensures a * (x1 - x2) == (i - j) * p
  {
  }

  // a x + b with two different roots is zero.
  lemma TwoRoots(p: nat, a: int, b: int, x1: nat, x2: nat)
    requires PrimeField(p) && x1 < p && x2 < p && x1 != x2
    requires Rs(p, a * x1 + b) == 0 && Rs(p, a * x2 + b) == 0
    ensures Rs(p, a) == 0
  {
    hide Rs, N.Prime;
    RsOf(p, 0);
    var i := RsSame(p, a * x1 + b, 0);
    var j := RsSame(p, a * x2 + b, 0);
    RootsApart(p, a, b, x1, x2, i, j);
    RsBy(p, a * (x1 - x2), 0, i - j);
    ZeroProduct(p, a, x1 - x2);
    Distinct(p, x1, x2);
  }

  lemma TangentOnCurve(cv: Curve, x: nat, y: nat)
    requires ValidCurve(cv) && OnCurve(cv, Affine(x, y)) && y != 0
    ensures OnCurve(cv, AddA(cv, Affine(x, y), Affine(x, y)))
  {
    hide Rs, N.Prime, OnCurve, Line, LineB, Third, Quot, Sub, TangentNum;
    var p := cv.p;
    InRange(cv, x, y);
    var l := TangentSlope(cv, x, y);
    var c, x3 := y - l * x, l * l - x - x;
    RsOf(p, y);
    RsOf(p, 0);
    RsOf(p, cv.A);
    OnLine(cv, x, y, c, l);
    LineRest(cv.A, cv.B, c, l, x, x, x3);
    var a, b := LineA(cv.A, c, l, x, x, x3), LineB(cv.B, c, x, x, x3);
    TangentInt(cv.A, c, l, x, y, x3);
    var k := RsSame(p, cv.A, 2 * (y * l) - 3 * (x * x));
    RsBy(p, a, 0, k);
    LineEnd(p, a, b, x, x3);
    RootOnCurve(cv, x3, c, l);
    ThirdIs(p, x, y, x, l);
    ReflectedY(l, x, x3, y, c);
  }

  lemma TangentInt(A: int, c: int, l: int, x: int, y: int, x3: int)
    requires c == y - l * x && x3 == l * l - x - x
    ensures LineA(A, c, l, x, x, x3) == A - 2 * (y * l) + 3 * (x * x)
  {
    assert l * c == y * l - (l * l) * x;
    assert x * x3 == (l * l) * x - 2 * (x * x);
  }

  /** The sum of two points of the curve is a point of the curve. */
  lemma AddOnCurve(cv: Curve, a: Point, b: Point)
    requires ValidCurve(cv) && OnCurve(cv, a) && OnCurve(cv, b)
    ensures PointIn(cv.p, a) && PointIn(cv.p, b) && OnCurve(cv, AddA(cv, a, b))
  {
    hide Rs, N.Prime, Third, Quot, Sub, TangentNum;
    if a.Affine? && b.Affine? {
      if a.x != b.x {
        ChordOnCurve(cv, a.x, a.y, b.x, b.y);
      } else if a.y == b.y && b.y != 0 {
        TangentOnCurve(cv, a.x, a.y);
      }
    }
  }

  /** The opposite of a point is on the curve exactly when the point is, and its opposite is
      the point again. */
  lemma NegOnCurve(cv: Curve, a: Point)
    requires ValidCurve(cv) && PointIn(cv.p, a)
    ensures OnCurve(cv, NegPoint(cv.p, a)) <==> OnCurve(cv, a)
    ensures NegPoint(cv.p, NegPoint(cv.p, a)) == a
  {
    hide Rs, N.Prime, Neg;
    if a.Affine? {
      var n: int := 0 - a.y;
      RsOf(cv.p, a.y);
      NegIs(cv.p, a.y);
      NegIs(cv.p, n);
      assert n * n == a.y * a.y;
      SquareOf(cv.p, n);
    }
  }

  // Two points of the curve over one x are equal or opposite.
  lemma OverOneX(cv: Curve, x: nat, y1: nat, y2: nat)
    requires ValidCurve(cv) && OnCurve(cv, Affine(x, y1)) && OnCurve(cv, Affine(x, y2)) && y1 != y2
    ensures x < cv.p && y1 < cv.p && y2 == Neg(F(cv.p), y1) && y1 != 0
  {
    hide Rs, N.Prime;
    var p := cv.p;
    RsOf(p, 0);
    var k := RsSame(p, y1 * y1, y2 * y2);
    assert (y1 - y2) * (y1 + y2) == 0 + k * p;
    RsBy(p, (y1 - y2) * (y1 + y2), 0, k);
    ZeroProduct(p, y1 - y2, y1 + y2);
    Distinct(p, y1, y2);
    var j := RsSame(p, y1 + y2, 0);
    var n: int := 0 - y1;
    RsBy(p, y2, n, j);
    RsOf(p, y2);
    RsOf(p, y1);
    NegIs(p, y1);
  }

  // ---------------------------------------------------------------- the operations

  /** ecpIsOnA decides the curve equation, also for coordinates outside the field. */
  method IsOnA(cv: Curve, a: array<nat>) returns (on: bool)
    requires ValidCurve(cv) && a.Length >= 2
    ensures on <==> OnCurve(cv, AffineOf(a[..]))
  {
    hide Mul, Add, N.Prime, Rs;
    var r := F(cv.p);
    if !(a[0] < cv.p && a[1] < cv.p) {
      return false;
    }
    var t1 := Sqr(r, a[0]);
    t1 := Add(r, t1, cv.A);
    t1 := Mul(r, t1, a[0]);
    t1 := Add(r, t1, cv.B);
    var t2 := Sqr(r, a[1]);
    on := t1 == t2;
    CubicResidue(cv, a[0]);
    RsOf(cv.p, a[1]);
    MulIs(cv.p, a[1], a[1], a[1] * a[1]);
  }

  lemma CubicResidue(cv: Curve, x: nat)
    requires ValidCurve(cv) && x < cv.p
    ensures var r := F(cv.p);
            Add(r, Mul(r, Add(r, Sqr(r, x), cv.A), x), cv.B) == Rs(cv.p, x * x * x + cv.A * x + cv.B)
  {
    hide Mul, Add, N.Prime, Rs;
    var p := cv.p;
    RsOf(p, x);
    RsOf(p, cv.A);
    RsOf(p, cv.B);
    var xx := x * x;
    MulIs(p, x, x, xx);
    AddIs(p, xx, cv.A, xx + cv.A);
    CubicHorner(x, cv.A);
    MulIs(p, xx + cv.A, x, x * x * x + cv.A * x);
    AddIs(p, x * x * x + cv.A * x, cv.B, x * x * x + cv.A * x + cv.B);
  }

  lemma CubicHorner(x: int, A: int)
    ensures (x * x + A) * x == x * x * x + A * x
  {
  }

  method NegA(cv: Curve, b: array<nat>, a: array<nat>)
    requires ValidCurve(cv) && b.Length >= 2 && SeemsA(cv.p, a[..])
    modifies b
    ensures AffineOf(b[..]) == NegPoint(cv.p, old(AffineOf(a[..]))) && b[2..] == old(b[2..])
  {
    hide Neg, N.Prime;
    b[0] := a[0];
    b[1] := Neg(F(cv.p), a[1]);
  }

  // The end of ecpAddAA and ecpSubAA, once numerator and denominator of the slope are known.
  method ChordEnd(cv: Curve, c: array<nat>, a: array<nat>, b: array<nat>, t10: nat, t20: nat)
    requires ValidCurve(cv) && c.Length >= 2 && SeemsA(cv.p, a[..]) && SeemsA(cv.p, b[..])
    requires t10 < cv.p && t20 < cv.p
    modifies c
    ensures AffineOf(c[..])
            == Third(cv.p, old(a[0]), old(a[1]), old(b[0]), Quot(F(cv.p), t20, t10))
    ensures c[2..] == old(c[2..])
  {
    hide Mul, Sub, Quot, N.Prime;
    var r := F(cv.p);
    var t2 := Quot(r, t20, t10);
    var t1 := Sqr(r, t2);
    t1 := Sub(r, t1, a[0]);
    t1 := Sub(r, t1, b[0]);
    var t3 := Sub(r, a[0], t1);
    t2 := Mul(r, t2, t3);
    t2 := Sub(r, t2, a[1]);
    c[0] := t1;
    c[1] := t2;
  }

  method AddAA(cv: Curve, c: array<nat>, a: array<nat>, b: array<nat>) returns (ok: bool)
    requires ValidCurve(cv) && c.Length >= 2 && SeemsA(cv.p, a[..]) && SeemsA(cv.p, b[..])
    modifies c
    ensures var sum := AddA(cv, old(AffineOf(a[..])), old(AffineOf(b[..])));
            && (ok <==> sum != Infinity)
            && (if ok then AffineOf(c[..]) == sum else c[..] == old(c[..]))
  {
    hide Mul, Add, Sub, Quot, Double, N.Prime;
    var r := F(cv.p);
    var t1, t2;
    if a[0] != b[0] {
      t1 := Sub(r, a[0], b[0]);
      t2 := Sub(r, a[1], b[1]);
    } else {
      if a[1] != b[1] || b[1] == 0 {
        return false;
      }
      t1 := Sqr(r, a[0]);
      t2 := Double(r, t1);
      t2 := Add(r, t2, t1);
      t2 := Add(r, t2, cv.A);
      t1 := Double(r, a[1]);
    }
    ChordEnd(cv, c, a, b, t1, t2);
    ok := true;
  }

  /** ecpSubAA computes a + (-b) for points of the curve. */
  method SubAA(cv: Curve, c: array<nat>, a: array<nat>, b: array<nat>) returns (ok: bool)
    requires ValidCurve(cv) && c.Length >= 2 && SeemsA(cv.p, a[..]) && SeemsA(cv.p, b[..])
    requires OnCurve(cv, AffineOf(a[..])) && OnCurve(cv, AffineOf(b[..]))
    modifies c
    ensures var d := AddA(cv, old(AffineOf(a[..])), NegPoint(cv.p, old(AffineOf(b[..]))));
            && (ok <==> d != Infinity)
            && (if ok then AffineOf(c[..]) == d else c[..] == old(c[..]))
  {
    hide Mul, Add, Neg, Sub, Quot, Double, N.Prime, OnCurve, Rs;
    var r := F(cv.p);
    NegTwice(cv.p, b[1]);
    var t1, t2;
    if a[0] != b[0] {
      t1 := Sub(r, a[0], b[0]);
      t2 := Add(r, a[1], b[1]);
      SubNeg(cv.p, a[1], b[1]);
    } else {
      if a[1] == b[1] {
        return false;
      }
      OverOneX(cv, b[0], b[1], a[1]);
      t1 := Sqr(r, a[0]);
      t2 := Double(r, t1);
      t2 := Add(r, t2, t1);
      t2 := Add(r, t2, cv.A);
      t1 := Double(r, a[1]);
    }
    ChordEnd(cv, c, a, b, t1, t2);
    ok := true;
  }

  lemma NegTwice(p: nat, y: nat)
    requires PrimeField(p) && y < p
    ensures Neg(F(p), Neg(F(p), y)) == y
    ensures Neg(F(p), y) == 0 <==> y == 0
    ensures Neg(F(p), y) == y <==> y == 0
  {
    J.OddPrime(p);
    N.SmallMod(y, p);
    if y > 0 {
      N.SmallMod(p - y, p);
    } else {
      N.DivUnique(p, p, 1, 0);
    }
  }

  lemma SubNeg(p: nat, a: nat, b: nat)
    requires PrimeField(p) && a < p && b < p
    ensures Sub(F(p), a, Neg(F(p), b)) == Add(F(p), a, b)
  {
    NegTwice(p, b);
  }
}
