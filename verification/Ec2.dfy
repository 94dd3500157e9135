/** The curve operations of ec2.c on coordinate buffers. The output buffer may be one of the
    inputs, as far as the code allows; every write happens in the order of the code. */
module Ec2 {
  import opened Qr
  import opened Gf2Field
  import opened Ec2Points
  import L = Ec2LopezDahab

  // The coordinates a buffer holds.
  function Projective(s: seq<nat>): LD
    requires |s| == 3
  {
    LD(s[0], s[1], s[2])
  }

  function AffineOf(s: seq<nat>): Point
    requires |s| >= 2
  {
    Affine(s[0], s[1])
  }

  predicate Seems3(r: Ring, s: seq<nat>)
    requires Valid(r)
  {
    |s| == 3 && s[0] < Size(r) && s[1] < Size(r) && s[2] < Size(r)
  }

  predicate SeemsA(r: Ring, s: seq<nat>)
    requires Valid(r)
  {
    |s| >= 2 && s[0] < Size(r) && s[1] < Size(r)
  }

  // ---------------------------------------------------------------- conversions

  method FromALD(cv: Curve, b: array<nat>, a: array<nat>)
    requires ValidCurve(cv) && b.Length == 3 && SeemsA(cv.r, a[..])
    modifies b
    ensures Seems3(cv.r, b[..]) && ToA(cv.r, Projective(b[..])) == old(AffineOf(a[..]))
  {
    hide ToA, Field, Size;
    L.ToAUnit(cv.r, a[0], a[1]);
    b[0] := a[0];
    b[1] := a[1];
    b[2] := 1;
  }

  /** ec2ToALD returns FALSE exactly for O. */
  method ToALD(cv: Curve, b: array<nat>, a: array<nat>) returns (ok: bool)
    requires ValidCurve(cv) && b.Length >= 2 && Seems3(cv.r, a[..])
    modifies b
    ensures ok <==> old(ToA(cv.r, Projective(a[..]))) != Infinity
    ensures ok ==> AffineOf(b[..]) == old(ToA(cv.r, Projective(a[..])))
    ensures b[2..] == old(b[2..]) && (!ok ==> b[..] == old(b[..]))
  {
    hide Mul, Inv, Field, Size;
    var r := cv.r;
    if a[2] == 0 {
      return false;
    }
    var t1 := Inv(r, a[2]);
    b[0] := Mul(r, a[0], t1);
    t1 := Sqr(r, t1);
    b[1] := Mul(r, a[1], t1);
    ok := true;
  }

  // ---------------------------------------------------------------- doubling

  // xb <- xb + A zb, by cases
  method AddA0(cv: Curve, x: nat, z: nat) returns (c: nat)
    requires ValidCurve(cv) && x < Size(cv.r) && z < Size(cv.r)
    ensures c == L.PlusA(cv, x, z)
  {
    c := x;
    if cv.A == 1 {
      c := Add(cv.r, c, z);
    } else if cv.A != 0 {
      var t := Mul(cv.r, cv.A, z);
      c := Add(cv.r, c, t);
    }
  }

  method DblLD(cv: Curve, b: array<nat>, a: array<nat>)
    requires ValidCurve(cv) && b.Length == 3 && Seems3(cv.r, a[..])
    modifies b
    ensures Projective(b[..]) == L.DblLD(cv, old(Projective(a[..])), old(Projective(b[..])))
    ensures var P := old(ToA(cv.r, Projective(a[..]))); ToA(cv.r, Projective(b[..])) == AddA(cv, P, P)
  {
    hide Mul, Add, Field, Size, Inv, AddA, ToA, L.PlusA;
    var r := cv.r;
    L.DblLDLaw(cv, Projective(a[..]), Projective(b[..]));
    if a[2] == 0 || a[0] == 0 {
      b[2] := 0;
      return;
    }
    var t1 := Mul(r, a[0], a[2]);
    b[2] := Sqr(r, t1);
    var t2 := Sqr(r, a[0]);
    b[0] := Add(r, a[1], t2);
    t1 := Mul(r, t1, b[0]);
    b[0] := Sqr(r, b[0]);
    b[0] := Add(r, b[0], t1);
    t1 := Add(r, t1, b[2]);
    b[1] := Sqr(r, t2);
    b[1] := Mul(r, b[1], b[2]);
    var x := AddA0(cv, b[0], b[2]);
    b[0] := x;
    t1 := Mul(r, t1, b[0]);
    b[1] := Add(r, b[1], t1);
  }

  method DblALD(cv: Curve, b: array<nat>, a: array<nat>)
    requires ValidCurve(cv) && b.Length == 3 && SeemsA(cv.r, a[..]) && OnCurve(cv, AffineOf(a[..]))
    modifies b
    ensures Projective(b[..]) == L.DblALD(cv, old(a[0]), old(a[1]), old(Projective(b[..])))
    ensures var P := old(AffineOf(a[..])); ToA(cv.r, Projective(b[..])) == AddA(cv, P, P)
  {
    hide Mul, Add, Field, Size, Inv, AddA, ToA, L.PlusA, OnCurve;
    var r := cv.r;
    L.DblALDLaw(cv, a[0], a[1], Projective(b[..]));
    if a[0] == 0 {
      b[2] := 0;
      return;
    }
    b[2] := Sqr(r, a[0]);
    b[0] := Sqr(r, b[2]);
    b[0] := Add(r, b[0], cv.B);
    b[1] := Sqr(r, a[1]);
    b[1] := Add(r, b[1], cv.B);
    var y := AddA0(cv, b[1], b[2]);
    b[1] := y;
    b[1] := Mul(r, b[1], b[0]);
    var t1 := Mul(r, cv.B, b[2]);
    b[1] := Add(r, b[1], t1);
  }

  // ---------------------------------------------------------------- adding

  /** ec2AddLD: c may be a, b or both. */
  method AddLD(cv: Curve, c: array<nat>, a: array<nat>, b: array<nat>)
    requires ValidCurve(cv) && c.Length == 3 && Seems3(cv.r, a[..]) && Seems3(cv.r, b[..])
    requires OnCurve(cv, ToA(cv.r, Projective(a[..]))) && OnCurve(cv, ToA(cv.r, Projective(b[..])))
    modifies c
    ensures Projective(c[..])
            == L.AddLD(cv, old(Projective(a[..])), old(Projective(b[..])), old(Projective(c[..])))
    ensures ToA(cv.r, Projective(c[..]))
            == AddA(cv, old(ToA(cv.r, Projective(a[..]))), old(ToA(cv.r, Projective(b[..]))))
  {
    hide Mul, Add, Field, Size, Inv, AddA, ToA, OnCurve, L.DblLD;
    var r := cv.r;
    L.AddLDLaw(cv, Projective(a[..]), Projective(b[..]), Projective(c[..]));
    if a[2] == 0 {
      c[0], c[1], c[2] := b[0], b[1], b[2];
      return;
    }
    if b[2] == 0 {
      c[0], c[1], c[2] := a[0], a[1], a[2];
      return;
    }
    var t1 := Mul(r, a[0], b[2]);
    var t2 := Mul(r, b[0], a[2]);
    var t3 := Sqr(r, b[2]);
    t3 := Mul(r, t3, a[1]);
    var t4 := Sqr(r, a[2]);
    t4 := Mul(r, t4, b[1]);
    if t1 == t2 {
      if t3 == t4 {
        DblLD(cv, c, a);
      } else {
        c[2] := 0;
      }
      return;
    }
    var t5 := Add(r, t1, t2);
    var t6 := Add(r, t3, t4);
    t5 := Mul(r, t5, t6);
    c[0] := Sqr(r, t1);
    c[1] := Sqr(r, t2);
    t6 := Add(r, c[0], c[1]);
    c[2] := Mul(r, a[2], b[2]);
    c[2] := Mul(r, t6, c[2]);
    t4 := Add(r, t4, c[1]);
    t4 := Mul(r, t1, t4);
    c[0] := Add(r, c[0], t3);
    c[0] := Mul(r, t2, c[0]);
    c[0] := Add(r, c[0], t4);
    t1 := Mul(r, t1, t5);
    t3 := Mul(r, t3, t6);
    t1 := Add(r, t1, t3);
    t1 := Mul(r, t1, t6);
    c[1] := Add(r, t5, c[2]);
    c[1] := Mul(r, c[1], c[0]);
    c[1] := Add(r, c[1], t1);
  }

  /** ec2AddALD: c may be a, b or both. */
  method AddALD(cv: Curve, c: array<nat>, a: array<nat>, b: array<nat>)
    requires ValidCurve(cv) && c.Length == 3 && Seems3(cv.r, a[..]) && SeemsA(cv.r, b[..])
    requires OnCurve(cv, AffineOf(b[..]))
    modifies c
    ensures Projective(c[..])
            == L.AddALD(cv, old(Projective(a[..])), old(b[0]), old(b[1]), old(Projective(c[..])))
    ensures ToA(cv.r, Projective(c[..]))
            == AddA(cv, old(ToA(cv.r, Projective(a[..]))), old(AffineOf(b[..])))
  {
    hide Mul, Add, Field, Size, Inv, AddA, ToA, OnCurve, L.DblALD, L.PlusA;
    var r := cv.r;
    L.AddALDLaw(cv, Projective(a[..]), b[0], b[1], Projective(c[..]));
    if a[2] == 0 {
      c[0] := b[0];
      c[1] := b[1];
      c[2] := 1;
      return;
    }
    var t1 := Sqr(r, a[2]);
    t1 := Mul(r, b[1], t1);
    t1 := Add(r, t1, a[1]);
    var t2 := Mul(r, b[0], a[2]);
    t2 := Add(r, t2, a[0]);
    if t2 == 0 {
      if t1 == 0 {
        DblALD(cv, c, b);
      } else {
        c[2] := 0;
      }
      return;
    }
    var t3 := Mul(r, t2, a[2]);
    c[2] := Sqr(r, t3);
    var t4 := Mul(r, b[0], c[2]);
    c[1] := Add(r, b[0], b[1]);
    c[0] := Sqr(r, t2);
    c[0] := Add(r, c[0], t1);
    var x := AddA0(cv, c[0], t3);
    c[0] := x;
    c[0] := Mul(r, c[0], t3);
    t2 := Sqr(r, t1);
    c[0] := Add(r, c[0], t2);
    t2 := Sqr(r, c[2]);
    c[1] := Mul(r, c[1], t2);
    t4 := Add(r, t4, c[0]);
    t1 := Mul(r, t1, t3);
    t1 := Add(r, t1, c[2]);
    t1 := Mul(r, t1, t4);
    c[1] := Add(r, c[1], t1);
  }

  // ---------------------------------------------------------------- affine points

  /** ec2IsOnA decides the curve equation, also for coordinates outside the field. */
  method IsOnA(cv: Curve, a: array<nat>) returns (on: bool)
    requires ValidCurve(cv) && a.Length >= 2
    ensures on <==> OnCurve(cv, AffineOf(a[..]))
  {
    hide Mul, Add, Field, Size;
    var r := cv.r;
    if !(a[0] < Size(r) && a[1] < Size(r)) {
      return false;
    }
    var t1 := Sqr(r, a[0]);
    var t2 := Add(r, a[0], cv.A);
    t1 := Mul(r, t1, t2);
    t1 := Add(r, t1, cv.B);
    t2 := Add(r, a[0], a[1]);
    t2 := Mul(r, t2, a[1]);
    on := t1 == t2;
  }

  /** ec2AddAA: c may be b but not a. */
  method AddAA(cv: Curve, c: array<nat>, a: array<nat>, b: array<nat>) returns (ok: bool)
    requires ValidCurve(cv) && c.Length >= 2 && SeemsA(cv.r, a[..]) && SeemsA(cv.r, b[..]) && c != a
    modifies c
    ensures var sum := AddA(cv, old(AffineOf(a[..])), old(AffineOf(b[..])));
            && (ok <==> sum != Infinity)
            && (if ok then AffineOf(c[..]) == sum else c[..] == old(c[..]))
  {
    hide Mul, Add, Field, Size, Quot;
    var r := cv.r;
    var t1, t2;
    if a[0] == b[0] {
      if a[1] != b[1] {
        return false;
      }
      if a[0] == 0 {
        return false;
      }
      t1 := Quot(r, a[1], a[0]);
      t1 := Add(r, t1, a[0]);
      t2 := a[0];
      c[0] := Sqr(r, t1);
      c[0] := Add(r, c[0], t1);
      c[0] := Add(r, c[0], cv.A);
      t2 := Add(r, t2, c[0]);
      t2 := Mul(r, t1, t2);
      c[1] := Add(r, a[1], t2);
      c[1] := Add(r, c[1], c[0]);
      return true;
    }
    t1 := a[0];
    c[0] := Add(r, a[0], b[0]);
    t2 := Add(r, a[1], b[1]);
    t2 := Quot(r, t2, c[0]);
    var t3 := Sqr(r, t2);
    c[0] := Add(r, c[0], t2);
    c[0] := Add(r, c[0], t3);
    c[0] := Add(r, c[0], cv.A);
    t1 := Add(r, t1, c[0]);
    t1 := Mul(r, t1, t2);
    c[1] := Add(r, a[1], c[0]);
    c[1] := Add(r, c[1], t1);
    ok := true;
  }
}
