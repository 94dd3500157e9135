/** The curve operations of ecp.c on coordinate buffers. The output buffer may be one of
    the inputs; every write happens in the order of the code. */
module Ecp {
  import opened Qr
  import opened Gfp
  import opened EcpPoints
  import N = Numbers
  import J = EcpJacobian
  import T = EcpTriple
  import L = EcpAliased

  // The coordinates a buffer holds.
  function Jacobian(s: seq<nat>): Jac
    requires |s| == 3
  {
    Jac(s[0], s[1], s[2])
  }

  function AffineOf(s: seq<nat>): Point
    requires |s| >= 2
  {
    Affine(s[0], s[1])
  }

  predicate Seems3(p: nat, s: seq<nat>)
  {
    |s| == 3 && s[0] < p && s[1] < p && s[2] < p
  }

  predicate SeemsA(p: nat, s: seq<nat>)
  {
    |s| >= 2 && s[0] < p && s[1] < p
  }

  // ---------------------------------------------------------------- conversions

  method FromAJ(cv: Curve, b: array<nat>, a: array<nat>)
    requires ValidCurve(cv) && b.Length == 3 && SeemsA(cv.p, a[..])
    modifies b
    ensures Seems3(cv.p, b[..]) && ToA(cv.p, Jacobian(b[..])) == old(AffineOf(a[..]))
  {
    hide ToA, N.Prime;
    J.ToAUnit(cv.p, a[0], a[1]);
    b[0] := a[0];
    b[1] := a[1];
    b[2] := 1;
  }

  /** ecpToAJ returns FALSE exactly for O. */
  method ToAJ(cv: Curve, b: array<nat>, a: array<nat>) returns (ok: bool)
    requires ValidCurve(cv) && b.Length >= 2 && Seems3(cv.p, a[..])
    modifies b
    ensures ok <==> old(ToA(cv.p, Jacobian(a[..]))) != Infinity
    ensures ok ==> AffineOf(b[..]) == old(ToA(cv.p, Jacobian(a[..])))
    ensures b[2..] == old(b[2..]) && (!ok ==> b[..] == old(b[..]))
  {
    hide Mul, Inv, N.Prime;
    var r := F(cv.p);
    if a[2] == 0 {
      return false;
    }
    var t1 := Inv(r, a[2]);
    var t2 := Sqr(r, t1);
    b[0] := Mul(r, a[0], t2);
    t2 := Mul(r, t1, t2);
    b[1] := Mul(r, a[1], t2);
    ok := true;
  }

  // ---------------------------------------------------------------- doubling

  method DblJ(cv: Curve, b: array<nat>, a: array<nat>)
    requires ValidCurve(cv) && b.Length == 3 && Seems3(cv.p, a[..])
    modifies b
    ensures Jacobian(b[..]) == J.DblJ(cv, old(Jacobian(a[..])), old(Jacobian(b[..])))
    ensures var P := old(ToA(cv.p, Jacobian(a[..]))); ToA(cv.p, Jacobian(b[..])) == AddA(cv, P, P)
  {
    hide Mul, Add, Neg, N.Prime, Half, Sub, Double, Inv, AddA, ToA, Sqr;
    var p, r := cv.p, F(cv.p);
    J.OddPrime(p);
    J.DblJLaw(cv, Jacobian(a[..]), Jacobian(b[..]));
    if a[2] == 0 || a[1] == 0 {
      b[2] := 0;
      return;
    }
    var t1 := Sqr(r, a[2]);
    b[2] := Mul(r, a[1], a[2]);
    b[2] := Double(r, b[2]);
    t1 := Sqr(r, t1);
    t1 := Mul(r, cv.A, t1);
    var t2 := Sqr(r, a[0]);
    t1 := Add(r, t1, t2);
    t2 := Double(r, t2);
    t1 := Add(r, t1, t2);
    DblEnd(cv, b, a, t1);
  }

  // The common end of the two doublings, with zb already written and za no longer read.
  method DblEnd(cv: Curve, b: array<nat>, a: array<nat>, t1: nat)
    requires ValidCurve(cv) && b.Length == 3 && b[2] < cv.p && SeemsA(cv.p, a[..]) && t1 < cv.p
    modifies b
    ensures cv.p % 2 == 1
    ensures forall z: nat :: z < cv.p && old(b[2]) == Double(F(cv.p), Mul(F(cv.p), old(a[1]), z)) ==>
              Jacobian(b[..]) == J.DblTail(cv.p, Jac(old(a[0]), old(a[1]), z), t1)
  {
    hide Mul, Add, Neg, N.Prime, Half, Sub, Double, Sqr;
    var p, r := cv.p, F(cv.p);
    J.OddPrime(p);
    b[1] := Double(r, a[1]);
    b[1] := Sqr(r, b[1]);
    var t2 := Sqr(r, b[1]);
    t2 := Half(p, t2);
    b[1] := Mul(r, b[1], a[0]);
    b[0] := Sqr(r, t1);
    b[0] := Sub(r, b[0], b[1]);
    b[0] := Sub(r, b[0], b[1]);
    b[1] := Sub(r, b[1], b[0]);
    b[1] := Mul(r, b[1], t1);
    b[1] := Sub(r, b[1], t2);
  }

  method DblJA3(cv: Curve, b: array<nat>, a: array<nat>)
    requires ValidCurve(cv) && b.Length == 3 && Seems3(cv.p, a[..]) && cv.A == cv.p - 3
    modifies b
    ensures Jacobian(b[..]) == J.DblJ(cv, old(Jacobian(a[..])), old(Jacobian(b[..])))
    ensures var P := old(ToA(cv.p, Jacobian(a[..]))); ToA(cv.p, Jacobian(b[..])) == AddA(cv, P, P)
  {
    hide Mul, Add, Neg, N.Prime, Half, Sub, Double, Inv, AddA, ToA, Sqr, J.DblJ;
    var p, r := cv.p, F(cv.p);
    J.OddPrime(p);
    J.DblJLaw(cv, Jacobian(a[..]), Jacobian(b[..]));
    J.DblJA3Law(cv, Jacobian(a[..]), Jacobian(b[..]));
    if a[2] == 0 || a[1] == 0 {
      b[2] := 0;
      return;
    }
    var t1 := Sqr(r, a[2]);
    b[2] := Mul(r, a[1], a[2]);
    b[2] := Double(r, b[2]);
    var t2 := Sub(r, a[0], t1);
    t1 := Add(r, a[0], t1);
    t2 := Mul(r, t1, t2);
    t1 := Double(r, t2);
    t1 := Add(r, t1, t2);
    DblEnd(cv, b, a, t1);
  }

  method DblAJ(cv: Curve, b: array<nat>, a: array<nat>)
    requires ValidCurve(cv) && b.Length == 3 && SeemsA(cv.p, a[..])
    modifies b
    ensures Jacobian(b[..]) == J.DblAJ(cv, old(a[0]), old(a[1]), old(Jacobian(b[..])))
    ensures var P := old(AffineOf(a[..])); ToA(cv.p, Jacobian(b[..])) == AddA(cv, P, P)
  {
    hide Mul, Add, Neg, N.Prime, Sub, Double, Inv, AddA, ToA, Sqr;
    var r := F(cv.p);
    J.DblAJLaw(cv, a[0], a[1], Jacobian(b[..]));
    if a[1] == 0 {
      b[2] := 0;
      return;
    }
    var t1 := Sqr(r, a[0]);
    var t2 := Sqr(r, a[1]);
    var t3 := Sqr(r, t2);
    t2 := Add(r, t2, a[0]);
    t2 := Sqr(r, t2);
    t2 := Sub(r, t2, t1);
    t2 := Sub(r, t2, t3);
    t2 := Double(r, t2);
    var t4 := Double(r, t1);
    t4 := Add(r, t4, t1);
    t4 := Add(r, t4, cv.A);
    t1 := Double(r, t2);
    b[0] := Sqr(r, t4);
    b[0] := Sub(r, b[0], t1);
    b[2] := Double(r, a[1]);
    t2 := Sub(r, t2, b[0]);
    b[1] := Mul(r, t4, t2);
    t3 := Double(r, t3);
    t3 := Double(r, t3);
    t3 := Double(r, t3);
    b[1] := Sub(r, b[1], t3);
  }

  // ---------------------------------------------------------------- adding

  /** ecpAddJ: c may be a or b. When all three are one buffer the sum is 2a, but by then the
      code has overwritten za, and it doubles (xa : ya : 2 za^2) instead. The last clause says
      for which operands that is still 2a. */
  method AddJ(cv: Curve, c: array<nat>, a: array<nat>, b: array<nat>)
    requires ValidCurve(cv) && c.Length == 3 && Seems3(cv.p, a[..]) && Seems3(cv.p, b[..])
    modifies c
    ensures !(c == a == b) ==>
              var a0, b0 := old(Jacobian(a[..])), old(Jacobian(b[..]));
              Jacobian(c[..]) == J.AddJ(cv, a0, b0, old(Jacobian(c[..])), if c == a then b0 else a0)
    ensures !(c == a == b) ==>
              ToA(cv.p, Jacobian(c[..]))
              == AddA(cv, old(ToA(cv.p, Jacobian(a[..]))), old(ToA(cv.p, Jacobian(b[..]))))
    ensures c == a == b ==> Jacobian(c[..]) == L.AddAliased(cv, old(Jacobian(a[..])))
    ensures c == a == b ==>
              var P, s := old(ToA(cv.p, Jacobian(a[..]))), 2 * old(a[2]);
              ToA(cv.p, Jacobian(c[..])) == AddA(cv, P, P)
              <==> old(a[2]) == 0 || old(a[1]) == 0
                   || (P.Affine? && L.SameX(cv, P.x, P.y, s) && L.SameY(cv, P.x, P.y, s))
  {
    hide Mul, Add, Neg, N.Prime, Sub, Double, Inv, AddA, ToA, Sqr, J.DblTail, J.TangentJ, J.AddTail, L.SameX, L.SameY;
    var r := F(cv.p);
    ghost var a0, b0, c0 := Jacobian(a[..]), Jacobian(b[..]), Jacobian(c[..]);
    ghost var s0 := if c == a then b0 else a0;
    L.AliasedExact(cv, a0);
    if a[2] == 0 {
      J.AddJLaw(cv, a0, b0, c0, s0);
      c[0], c[1], c[2] := b[0], b[1], b[2];
      return;
    }
    if b[2] == 0 {
      J.AddJLaw(cv, a0, b0, c0, s0);
      c[0], c[1], c[2] := a[0], a[1], a[2];
      return;
    }
    var t1 := Sqr(r, a[2]);
    var t2 := Sqr(r, b[2]);
    var t3 := Mul(r, b[2], t2);
    t3 := Mul(r, a[1], t3);
    var t4 := Mul(r, a[2], t1);
    t4 := Mul(r, b[1], t4);
    c[2] := Add(r, a[2], b[2]);
    c[2] := Sqr(r, c[2]);
    c[2] := Sub(r, c[2], t1);
    c[2] := Sub(r, c[2], t2);
    t1 := Mul(r, b[0], t1);
    t2 := Mul(r, a[0], t2);
    t1 := Sub(r, t1, t2);
    ghost var c1 := Jacobian(c[..]);
    J.AddJLaw(cv, a0, b0, c1, s0);
    J.SubZero(cv.p, J.U(cv.p, b0, a0), J.U(cv.p, a0, b0));
    if t1 == 0 {
      if t3 == t4 {
        if c == a { DblJ(cv, c, b); } else { DblJ(cv, c, a); }
      } else {
        c[2] := 0;
      }
      return;
    }
    AddEnd(cv, c, t1, t2, t3, t4);
  }

  // The end of the addition of different points.
  method AddEnd(cv: Curve, c: array<nat>, t10: nat, t20: nat, t30: nat, t40: nat)
    requires ValidCurve(cv) && c.Length == 3 && t10 < cv.p && t20 < cv.p && t30 < cv.p && t40 < cv.p && c[2] < cv.p
    modifies c
    ensures Jacobian(c[..]) == J.AddTail(cv.p, t10, t20, t30, t40, old(c[2]))
  {
    hide Mul, Add, Neg, N.Prime, Sub, Double, Sqr;
    var r := F(cv.p);
    var t1, t2, t3, t4 := t10, t20, t30, t40;
    c[2] := Mul(r, c[2], t1);
    t4 := Sub(r, t4, t3);
    t4 := Double(r, t4);
    c[1] := Double(r, t1);
    c[1] := Sqr(r, c[1]);
    t1 := Mul(r, t1, c[1]);
    c[1] := Mul(r, t2, c[1]);
    t2 := Double(r, c[1]);
    c[0] := Sqr(r, t4);
    c[0] := Sub(r, c[0], t1);
    c[0] := Sub(r, c[0], t2);
    c[1] := Sub(r, c[1], c[0]);
    c[1] := Mul(r, t4, c[1]);
    t3 := Double(r, t3);
    t3 := Mul(r, t3, t1);
    c[1] := Sub(r, c[1], t3);
  }

  /** ecpAddAJ: c may be a, b or both. */
  method AddAJ(cv: Curve, c: array<nat>, a: array<nat>, b: array<nat>)
    requires ValidCurve(cv) && c.Length == 3 && Seems3(cv.p, a[..]) && SeemsA(cv.p, b[..])
    modifies c
    ensures Jacobian(c[..])
            == J.AddAJ(cv, old(Jacobian(a[..])), old(b[0]), old(b[1]), old(Jacobian(c[..])))
    ensures ToA(cv.p, Jacobian(c[..]))
            == AddA(cv, old(ToA(cv.p, Jacobian(a[..]))), old(AffineOf(b[..])))
  {
    hide Mul, Add, Neg, N.Prime, Sub, Double, Inv, AddA, ToA, Sqr, J.DblAJ;
    var r := F(cv.p);
    ghost var a0, x0, y0, c0 := Jacobian(a[..]), b[0], b[1], Jacobian(c[..]);
    J.AddAJLaw(cv, a0, x0, y0, c0);
    if a[2] == 0 {
      c[0] := b[0];
      c[1] := b[1];
      c[2] := 1;
      return;
    }
    var t1 := Sqr(r, a[2]);
    var t2 := Mul(r, t1, a[2]);
    t1 := Mul(r, t1, b[0]);
    t2 := Mul(r, t2, b[1]);
    t1 := Sub(r, t1, a[0]);
    t2 := Sub(r, t2, a[1]);
    if t1 == 0 {
      if t2 == 0 {
        DblAJ(cv, c, b);
      } else {
        c[2] := 0;
      }
      return;
    }
    c[2] := Mul(r, t1, a[2]);
    var t3 := Sqr(r, t1);
    var t4 := Mul(r, t1, t3);
    t3 := Mul(r, t3, a[0]);
    t1 := Double(r, t3);
    c[0] := Sqr(r, t2);
    c[0] := Sub(r, c[0], t1);
    c[0] := Sub(r, c[0], t4);
    t3 := Sub(r, t3, c[0]);
    t3 := Mul(r, t3, t2);
    t4 := Mul(r, t4, a[1]);
    c[1] := Sub(r, t3, t4);
  }

  // ---------------------------------------------------------------- subtracting

  function NegPoint(p: nat, a: Point): (b: Point)
    requires p > 1 && PointIn(p, a)
    ensures PointIn(p, b)
  {
    if a.Infinity? then a else Affine(a.x, Neg(F(p), a.y))
  }

  lemma ToANeg(p: nat, j: Jac)
    requires PrimeField(p) && InField(p, j)
    ensures ToA(p, j.(y := Neg(F(p), j.y))) == NegPoint(p, ToA(p, j))
  {
    hide Mul, Neg, Inv, N.Prime, Rs;
    if j.z != 0 {
      var r := F(p);
      var t1 := Inv(r, j.z);
      var t := Mul(r, t1, Sqr(r, t1));
      var m := j.y * t;
      var n: int := 0 - j.y;
      RsOf(p, j.y);
      RsOf(p, t);
      NegIs(p, j.y);
      MulIs(p, j.y, t, m);
      MulIs(p, n, t, -m);
      NegIs(p, m);
    }
  }

  method SubJ(cv: Curve, c: array<nat>, a: array<nat>, b: array<nat>)
    requires ValidCurve(cv) && c.Length == 3 && Seems3(cv.p, a[..]) && Seems3(cv.p, b[..])
    modifies c
    ensures ToA(cv.p, Jacobian(c[..]))
            == AddA(cv, old(ToA(cv.p, Jacobian(a[..]))), NegPoint(cv.p, old(ToA(cv.p, Jacobian(b[..])))))
  {
    hide Neg, N.Prime, AddA, ToA;
    var t := new nat[3];
    t[0] := b[0];
    t[1] := Neg(F(cv.p), b[1]);
    t[2] := b[2];
    ToANeg(cv.p, Jacobian(b[..]));
    assert Jacobian(t[..]) == Jacobian(b[..]).(y := Neg(F(cv.p), b[1]));
    AddJ(cv, c, a, t);
  }

  method SubAJ(cv: Curve, c: array<nat>, a: array<nat>, b: array<nat>)
    requires ValidCurve(cv) && c.Length == 3 && Seems3(cv.p, a[..]) && SeemsA(cv.p, b[..])
    modifies c
    ensures ToA(cv.p, Jacobian(c[..]))
            == AddA(cv, old(ToA(cv.p, Jacobian(a[..]))), NegPoint(cv.p, old(AffineOf(b[..]))))
  {
    hide Neg, N.Prime, AddA, ToA;
    var t := new nat[2];
    t[0] := b[0];
    t[1] := Neg(F(cv.p), b[1]);
    AddAJ(cv, c, a, t);
  }

  // ---------------------------------------------------------------- tripling

  method TplJ(cv: Curve, b: array<nat>, a: array<nat>)
    requires ValidCurve(cv) && b.Length == 3 && Seems3(cv.p, a[..])
    modifies b
    ensures Jacobian(b[..]) == T.TplJ(cv, old(Jacobian(a[..])))
    ensures var P := old(ToA(cv.p, Jacobian(a[..])));
            ToA(cv.p, Jacobian(b[..])) == AddA(cv, AddA(cv, P, P), P) <==> T.Smooth(cv, P)
  {
    hide Mul, Add, Neg, N.Prime, Sub, Double, Sqr, ToA, AddA;
    var r := F(cv.p);
    T.TplJLaw(cv, Jacobian(a[..]));
    var t0 := Sqr(r, a[0]);
    var t1 := Sqr(r, a[1]);
    var t2 := Sqr(r, a[2]);
    var t3 := Sqr(r, t1);
    var t4 := Sqr(r, t2);
    t4 := Mul(r, t4, cv.A);
    var t5 := Double(r, t0);
    t5 := Add(r, t0, t5);
    t4 := Add(r, t4, t5);
    t5 := Sqr(r, t4);
    var t6 := Add(r, a[0], t1);
    t6 := Sqr(r, t6);
    t6 := Sub(r, t6, t0);
    t6 := Sub(r, t6, t3);
    var t7 := Double(r, t6);
    t6 := Add(r, t6, t7);
    t6 := Double(r, t6);
    t6 := Sub(r, t6, t5);
    TplEnd(cv, b, a, t1, t2, t3, t4, t5, t6);
  }

  // The common end of the two triplings.
  method TplEnd(cv: Curve, b: array<nat>, a: array<nat>, t10: nat, t20: nat, t30: nat, t4: nat, t5: nat, t60: nat)
    requires ValidCurve(cv) && b.Length == 3 && Seems3(cv.p, a[..]) && t4 < cv.p && t60 < cv.p
    requires t10 == Sqr(F(cv.p), a[1]) && t20 == Sqr(F(cv.p), a[2]) && t30 == Sqr(F(cv.p), t10) && t5 == Sqr(F(cv.p), t4)
    modifies b
    ensures Jacobian(b[..]) == T.TplEnd(cv.p, old(Jacobian(a[..])), t4, t60)
  {
    hide Mul, Add, Neg, N.Prime, Sub, Double, Sqr;
    var r := F(cv.p);
    var t1, t2, t3, t6 := t10, t20, t30, t60;
    var t7 := Sqr(r, t6);
    t3 := Double(r, t3);
    t3 := Double(r, t3);
    t3 := Double(r, t3);
    t3 := Double(r, t3);
    b[2] := Add(r, a[2], t6);
    b[2] := Sqr(r, b[2]);
    b[2] := Sub(r, b[2], t2);
    b[2] := Sub(r, b[2], t7);
    t2 := Add(r, t4, t6);
    t2 := Sqr(r, t2);
    t2 := Sub(r, t2, t5);
    t2 := Sub(r, t2, t7);
    t2 := Sub(r, t2, t3);
    t3 := Sub(r, t3, t2);
    t3 := Mul(r, t2, t3);
    t6 := Mul(r, t6, t7);
    t3 := Sub(r, t3, t6);
    b[1] := Mul(r, a[1], t3);
    b[1] := Double(r, b[1]);
    b[1] := Double(r, b[1]);
    b[1] := Double(r, b[1]);
    t1 := Mul(r, t1, t2);
    t1 := Double(r, t1);
    t1 := Double(r, t1);
    b[0] := Mul(r, a[0], t7);
    b[0] := Sub(r, b[0], t1);
    b[0] := Double(r, b[0]);
    b[0] := Double(r, b[0]);
  }

  method TplJA3(cv: Curve, b: array<nat>, a: array<nat>)
    requires ValidCurve(cv) && b.Length == 3 && Seems3(cv.p, a[..]) && cv.A == cv.p - 3
    modifies b
    ensures Jacobian(b[..]) == T.TplJ(cv, old(Jacobian(a[..])))
    ensures var P := old(ToA(cv.p, Jacobian(a[..])));
            ToA(cv.p, Jacobian(b[..])) == AddA(cv, AddA(cv, P, P), P) <==> T.Smooth(cv, P)
  {
    hide Mul, Add, Neg, N.Prime, Sub, Double, Sqr, T.TplJ, ToA, AddA;
    var r := F(cv.p);
    T.TplJLaw(cv, Jacobian(a[..]));
    T.TplJA3Law(cv, Jacobian(a[..]));
    var t1 := Sqr(r, a[1]);
    var t2 := Sqr(r, a[2]);
    var t3 := Sqr(r, t1);
    var t4 := Sub(r, a[0], t2);
    var t5 := Add(r, a[0], t2);
    t4 := Mul(r, t4, t5);
    t5 := Double(r, t4);
    t4 := Add(r, t4, t5);
    t5 := Sqr(r, t4);
    var t6 := Mul(r, a[0], t1);
    var t7 := Double(r, t6);
    t6 := Add(r, t6, t7);
    t6 := Double(r, t6);
    t6 := Double(r, t6);
    t6 := Sub(r, t6, t5);
    TplEnd(cv, b, a, t1, t2, t3, t4, t5, t6);
  }
}
