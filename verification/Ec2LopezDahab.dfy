/** The fast formulas in Lopez-Dahab coordinates, as sequences of field operations, and their
    agreement with the affine law. */
module Ec2LopezDahab {
  import opened Qr
  import opened Gf2Field
  import opened Ec2Points

  // What the code leaves when it only sets the z-coordinate to 0.
  function Zeroed(b: LD): LD
  {
    b.(z := 0)
  }

  // x + A z, where the code tells A = 0 and A = 1 apart
  function PlusA(cv: Curve, x: nat, z: nat): (c: nat)
    requires Valid(cv.r) && x < Size(cv.r) && z < Size(cv.r)
    ensures c < Size(cv.r)
  {
    if cv.A == 1 then Add(cv.r, x, z)
    else if cv.A != 0 then Add(cv.r, x, Mul(cv.r, cv.A, z))
    else x
  }

  lemma PlusAIs(cv: Curve, x: nat, z: nat)
    requires ValidCurve(cv) && x < Size(cv.r) && z < Size(cv.r)
    ensures PlusA(cv, x, z) == Add(cv.r, x, Mul(cv.r, cv.A, z))
  {
    hide Add, Mul, Size, Field;
    MulUnit(cv.r, z);
    AddZero(cv.r, x);
  }

  // ---------------------------------------------------------------- doubling

  // ec2DblLD; old: the previous content of the output
  function DblLD(cv: Curve, a: LD, old': LD): (b: LD)
    requires ValidCurve(cv) && InField(cv.r, a)
    ensures b.z != 0 ==> InField(cv.r, b)
  {
    var r := cv.r;
    if a.z == 0 || a.x == 0 then Zeroed(old')
    else
      var t1 := Mul(r, a.x, a.z);
      var zb := Sqr(r, t1);
      var t2 := Sqr(r, a.x);
      var xb := Add(r, a.y, t2);
      var t1 := Mul(r, t1, xb);
      var xb := Add(r, Sqr(r, xb), t1);
      var t1 := Add(r, t1, zb);
      var yb := Mul(r, Sqr(r, t2), zb);
      var xb := PlusA(cv, xb, zb);
      LD(xb, Add(r, yb, Mul(r, t1, xb)), zb)
  }

  // The slope of the tangent: l x == y + x^2
  lemma TangentSlope(cv: Curve, x: nat, y: nat) returns (l: nat)
    requires ValidCurve(cv) && 0 < x < Size(cv.r) && y < Size(cv.r)
    ensures l == Add(cv.r, Quot(cv.r, y, x), x) < Size(cv.r)
    ensures Mul(cv.r, l, x) == Add(cv.r, y, Sqr(cv.r, x))
  {
    hide Add, Mul, Size, Field, Quot;
    var r := cv.r;
    l := Add(r, Quot(r, y, x), x);
    QuotLaw(r, y, x);
    DistributeR(r, Quot(r, y, x), x, x);
  }

  // x3 x^2 for the doubled point: e^2 + x e + A x^2 with e == l x
  lemma DblX(cv: Curve, x: nat, e: nat, l: nat)
    requires ValidCurve(cv) && x < Size(cv.r) && l < Size(cv.r) && e == Mul(cv.r, l, x)
    ensures var r, xx := cv.r, Sqr(cv.r, x);
            && Mul(r, l, xx) == Mul(r, x, e)
            && Mul(r, Add(r, Add(r, Sqr(r, l), l), cv.A), xx)
               == Add(r, Add(r, Sqr(r, e), Mul(r, x, e)), Mul(r, cv.A, xx))
  {
    hide Add, Mul, Size, Field;
    var r, xx := cv.r, Sqr(cv.r, x);
    Interchange(r, l, x, l, x);
    MulAssoc(r, l, x, x);
    MulComm(r, e, x);
    DistributeR(r, Sqr(r, l), l, xx);
    DistributeR(r, Add(r, Sqr(r, l), l), cv.A, xx);
  }

  // y3 == y + l (x + x3) + x3 is x^2 + (l + 1) x3
  lemma DblY(cv: Curve, x: nat, y: nat, l: nat, x3: nat)
    requires ValidCurve(cv) && x < Size(cv.r) && y < Size(cv.r) && l < Size(cv.r) && x3 < Size(cv.r)
    requires Mul(cv.r, l, x) == Add(cv.r, y, Sqr(cv.r, x))
    ensures var r := cv.r;
            Add(r, Add(r, y, Mul(r, l, Add(r, x, x3))), x3)
            == Add(r, Sqr(r, x), Mul(r, Add(r, l, 1), x3))
  {
    hide Add, Mul, Size, Field, Lin;
    var r, xx := cv.r, Sqr(cv.r, x);
    var p := Mul(r, l, x3);
    Distribute(r, l, x, x3);
    UnitIn(r);
    DistributeR(r, l, 1, x3);
    MulUnit(r, x3);
    var at := [y, xx, p, x3];
    LinAtom(r, at, 0, "1000");
    LinAtom(r, at, 1, "0100");
    LinAtom(r, at, 2, "0010");
    LinAtom(r, at, 3, "0001");
    LinAdd(r, at, "1000", "0100", "1100");
    LinAdd(r, at, "1100", "0010", "1110");
    LinAdd(r, at, "1000", "1110", "0110");
    LinAdd(r, at, "0110", "0001", "0111");
    LinAdd(r, at, "0010", "0001", "0011");
    LinAdd(r, at, "0100", "0011", "0111");
  }

  // The coordinates of the double in front of powers of z.
  lemma DblCoefficients(cv: Curve, x: nat, y: nat, l: nat)
    requires ValidCurve(cv) && x < Size(cv.r) && y < Size(cv.r) && l < Size(cv.r)
    requires Mul(cv.r, l, x) == Add(cv.r, y, Sqr(cv.r, x))
    ensures var r, xx, e := cv.r, Sqr(cv.r, x), Mul(cv.r, l, x);
            var x3 := Add(r, Add(r, Sqr(r, l), l), cv.A);
            var y3 := Add(r, Add(r, y, Mul(r, l, Add(r, x, x3))), x3);
            var X := Add(r, Add(r, Sqr(r, e), Mul(r, x, e)), Mul(r, cv.A, xx));
            && X == Mul(r, x3, xx)
            && Add(r, Mul(r, Sqr(r, xx), xx), Mul(r, Add(r, Mul(r, x, e), xx), X)) == Mul(r, y3, Sqr(r, xx))
  {
    hide Add, Mul, Size, Field;
    var r, xx, e := cv.r, Sqr(cv.r, x), Mul(cv.r, l, x);
    var x3 := Add(r, Add(r, Sqr(r, l), l), cv.A);
    DblX(cv, x, e, l);
    DblY(cv, x, y, l, x3);
    UnitIn(r);
    MulUnit(r, xx);
    DistributeR(r, l, 1, xx);
    var l1 := Add(r, l, 1);
    Interchange(r, l1, xx, x3, xx);
    MulComm(r, xx, Sqr(r, xx));
    DistributeR(r, xx, Mul(r, l1, x3), Sqr(r, xx));
  }

  // The formula as powers of z times coefficients.
  lemma DblWeights(cv: Curve, a: LD, x: nat, y: nat, e: nat)
    requires ValidCurve(cv) && InField(cv.r, a) && a.z != 0 && a.x != 0 && x < Size(cv.r) && y < Size(cv.r)
    requires a.x == W(cv.r, a.z, x, 1) && a.y == W(cv.r, a.z, y, 2) && e == Add(cv.r, y, Sqr(cv.r, x))
    ensures var r, z, xx, b := cv.r, a.z, Sqr(cv.r, x), DblLD(cv, a, a);
            var X := Add(r, Add(r, Sqr(r, e), Mul(r, x, e)), Mul(r, cv.A, xx));
            && b.z == W(r, z, xx, 4)
            && b.x == W(r, z, X, 4)
            && b.y == W(r, z, Add(r, Mul(r, Sqr(r, xx), xx), Mul(r, Add(r, Mul(r, x, e), xx), X)), 8)
  {
    hide Add, Mul, Size, Field, W, PlusA;
    var r, z, xx := cv.r, a.z, Sqr(cv.r, x);
    var ee, xe, Axx := Sqr(r, e), Mul(r, x, e), Mul(r, cv.A, xx);
    var X := Add(r, Add(r, ee, xe), Axx);
    WOne(r, z);
    WMul(r, z, x, 1, 1, 1);
    MulUnit(r, x);
    WMul(r, z, x, 2, x, 2);
    WMul(r, z, x, 1, x, 1);
    WAdd(r, z, y, xx, 2);
    WMul(r, z, x, 2, e, 2);
    WMul(r, z, e, 2, e, 2);
    WAdd(r, z, ee, xe, 4);
    WAdd(r, z, xe, xx, 4);
    WMul(r, z, xx, 2, xx, 2);
    WMul(r, z, Sqr(r, xx), 4, xx, 4);
    PlusAIs(cv, W(r, z, Add(r, ee, xe), 4), W(r, z, xx, 4));
    WFront(r, z, cv.A, xx, 4);
    WAdd(r, z, Add(r, ee, xe), Axx, 4);
    WMul(r, z, Add(r, xe, xx), 4, X, 4);
    WAdd(r, z, Mul(r, Sqr(r, xx), xx), Mul(r, Add(r, xe, xx), X), 8);
  }

  /** ec2DblLD doubles: also for O and for the point of order 2. */
  lemma DblLDLaw(cv: Curve, a: LD, old': LD)
    requires ValidCurve(cv) && InField(cv.r, a)
    ensures ToA(cv.r, DblLD(cv, a, old')) == AddA(cv, ToA(cv.r, a), ToA(cv.r, a))
  {
    hide Add, Mul, Size, Field, W, PlusA, Inv, Quot;
    var r := cv.r;
    if a.z != 0 {
      FromLD(r, a);
      var x, y := ToA(r, a).x, ToA(r, a).y;
      ZeroX(r, a, x);
      if x != 0 {
        var l := TangentSlope(cv, x, y);
        var e := Add(r, y, Sqr(r, x));
        DblWeights(cv, a, x, y, e);
        DblCoefficients(cv, x, y, l);
        SqrNonzero(r, x);
        Finish(r, DblLD(cv, a, old'), a.z, Sqr(r, x), 4, AddA(cv, Affine(x, y), Affine(x, y)).x,
               AddA(cv, Affine(x, y), Affine(x, y)).y);
      }
    }
  }

  lemma ZeroX(r: Ring, a: LD, x: nat)
    requires BinField(r) && InField(r, a) && a.z != 0 && x < Size(r) && a.x == W(r, a.z, x, 1)
    ensures a.x == 0 <==> x == 0
  {
    hide Mul, Size, Field, Pow;
    PowNonzero(r, a.z, 1);
    if a.x == 0 {
      NoZeroDivisors(r, x, Pow(r, a.z, 1));
    }
    if x == 0 {
      MulUnit(r, Pow(r, a.z, 1));
    }
  }

  // ---------------------------------------------------------------- the curve equation

  // y^2 == x y + (x^3 + A x^2 + B)
  lemma CurveY(cv: Curve, x: nat, y: nat)
    requires ValidCurve(cv) && OnCurve(cv, Affine(x, y))
    ensures x < Size(cv.r) && y < Size(cv.r)
    ensures var r, xx := cv.r, Sqr(cv.r, x);
            Sqr(r, y) == Add(r, Mul(r, x, y), Add(r, Add(r, Mul(r, x, xx), Mul(r, cv.A, xx)), cv.B))
  {
    hide Add, Mul, Size, Field;
    var r, xx := cv.r, Sqr(cv.r, x);
    Distribute(r, xx, x, cv.A);
    MulComm(r, xx, x);
    MulComm(r, xx, cv.A);
    DistributeR(r, x, y, y);
    // the right side is x y + y^2
    var p, s := Mul(r, x, y), Sqr(r, y);
    AddComm(r, p, s);
    AddTwice(r, s, p);
    AddComm(r, p, Add(r, s, p));
  }

  // ---------------------------------------------------------------- doubling an affine point

  function DblALD(cv: Curve, x: nat, y: nat, old': LD): (b: LD)
    requires ValidCurve(cv) && x < Size(cv.r) && y < Size(cv.r)
    ensures b.z != 0 ==> InField(cv.r, b)
  {
    var r := cv.r;
    if x == 0 then Zeroed(old')
    else
      var zb := Sqr(r, x);
      var xb := Add(r, Sqr(r, zb), cv.B);
      var yb := Add(r, Sqr(r, y), cv.B);
      var yb := Mul(r, PlusA(cv, yb, zb), xb);
      LD(xb, Add(r, yb, Mul(r, cv.B, zb)), zb)
  }

  // e^2 + x e + A x^2 == x^4 + B and y^2 + B + A x^2 == x e, on the curve
  lemma DblCurve(cv: Curve, x: nat, y: nat)
    requires ValidCurve(cv) && OnCurve(cv, Affine(x, y))
    ensures x < Size(cv.r) && y < Size(cv.r)
    ensures var r, xx := cv.r, Sqr(cv.r, x);
            var e := Add(r, y, xx);
            && Add(r, Add(r, Sqr(r, e), Mul(r, x, e)), Mul(r, cv.A, xx)) == Add(r, Sqr(r, xx), cv.B)
            && Add(r, Add(r, Sqr(r, y), cv.B), Mul(r, cv.A, xx)) == Mul(r, x, e)
  {
    hide Add, Mul, Size, Field, Lin;
    CurveY(cv, x, y);
    var r, xx := cv.r, Sqr(cv.r, x);
    var q, p, c, m := Sqr(r, xx), Mul(r, x, y), Mul(r, x, xx), Mul(r, cv.A, xx);
    SqrAdd(r, y, xx);
    Distribute(r, x, y, xx);
    var at := [q, p, c, m, cv.B];
    LinAtom(r, at, 0, "10000");
    LinAtom(r, at, 1, "01000");
    LinAtom(r, at, 2, "00100");
    LinAtom(r, at, 3, "00010");
    LinAtom(r, at, 4, "00001");
    LinAdd(r, at, "00100", "00010", "00110");
    LinAdd(r, at, "00110", "00001", "00111");
    LinAdd(r, at, "01000", "00111", "01111");
    LinAdd(r, at, "01111", "10000", "11111");
    LinAdd(r, at, "01000", "00100", "01100");
    LinAdd(r, at, "11111", "01100", "10011");
    LinAdd(r, at, "10011", "00010", "10001");
    LinAdd(r, at, "10000", "00001", "10001");
    LinAdd(r, at, "01111", "00001", "01110");
    LinAdd(r, at, "01110", "00010", "01100");
  }

  // x e X + B x^2 == x^6 + (x e + x^2) X for X == x^4 + B
  lemma DblEnd(r: Ring, q: nat, xx: nat, B: nat, xe: nat)
    requires BinField(r) && q < Size(r) && xx < Size(r) && B < Size(r) && xe < Size(r)
    ensures var X := Add(r, q, B);
            Add(r, Mul(r, xe, X), Mul(r, B, xx)) == Add(r, Mul(r, q, xx), Mul(r, Add(r, xe, xx), X))
  {
    hide Add, Mul, Size, Field, Lin;
    var X := Add(r, q, B);
    DistributeR(r, xe, xx, X);
    Distribute(r, xx, q, B);
    MulComm(r, xx, q);
    MulComm(r, xx, B);
    var at := [Mul(r, q, xx), Mul(r, xe, X), Mul(r, B, xx)];
    LinAtom(r, at, 0, "100");
    LinAtom(r, at, 1, "010");
    LinAtom(r, at, 2, "001");
    LinAdd(r, at, "010", "001", "011");
    LinAdd(r, at, "100", "001", "101");
    LinAdd(r, at, "010", "101", "111");
    LinAdd(r, at, "100", "111", "011");
  }

  /** ec2DblALD doubles a point of the curve. */
  lemma DblALDLaw(cv: Curve, x: nat, y: nat, old': LD)
    requires ValidCurve(cv) && OnCurve(cv, Affine(x, y))
    ensures x < Size(cv.r) && y < Size(cv.r)
    ensures ToA(cv.r, DblALD(cv, x, y, old')) == AddA(cv, Affine(x, y), Affine(x, y))
  {
    hide Add, Mul, Size, Field, W, PlusA, Inv, Quot;
    var r := cv.r;
    DblCurve(cv, x, y);
    if x != 0 {
      var l := TangentSlope(cv, x, y);
      DblCoefficients(cv, x, y, l);
      var xx, e := Sqr(r, x), Add(r, y, Sqr(r, x));
      PlusAIs(cv, Add(r, Sqr(r, y), cv.B), xx);
      DblEnd(r, Sqr(r, xx), xx, cv.B, Mul(r, x, e));
      SqrNonzero(r, x);
      UnitIn(r);
      var s := AddA(cv, Affine(x, y), Affine(x, y));
      WeightOne(r, xx, 4);
      WeightOne(r, Mul(r, s.x, xx), 4);
      WeightOne(r, Mul(r, s.y, Sqr(r, xx)), 8);
      Finish(r, DblALD(cv, x, y, old'), 1, xx, 4, s.x, s.y);
    }
  }

  lemma WeightOne(r: Ring, u: nat, k: nat)
    requires Valid(r) && u < Size(r)
    ensures W(r, 1, u, k) == u
  {
    hide Mul, Size, Pow;
    PowOne(r, k);
    MulUnit(r, u);
  }

  // ---------------------------------------------------------------- adding

  // ec2AddLD after the case distinction: t1 == A, t2 == B, t3 == G, t4 == H
  function AddTail(r: Ring, a: LD, b: LD, t1: nat, t2: nat, t3: nat, t4: nat): (c: LD)
    requires Valid(r) && InField(r, a) && InField(r, b)
    requires t1 < Size(r) && t2 < Size(r) && t3 < Size(r) && t4 < Size(r)
    ensures InField(r, c)
  {
    var t5 := Add(r, t1, t2);
    var t6 := Add(r, t3, t4);
    var t5 := Mul(r, t5, t6);
    var xc := Sqr(r, t1);
    var yc := Sqr(r, t2);
    var t6 := Add(r, xc, yc);
    var zc := Mul(r, t6, Mul(r, a.z, b.z));
    var t4 := Mul(r, t1, Add(r, t4, yc));
    var xc := Add(r, Mul(r, t2, Add(r, xc, t3)), t4);
    var t1 := Mul(r, t1, t5);
    var t3 := Mul(r, t3, t6);
    var t1 := Mul(r, Add(r, t1, t3), t6);
    LD(xc, Add(r, Mul(r, Add(r, t5, zc), xc), t1), zc)
  }

  function AddLD(cv: Curve, a: LD, b: LD, old': LD): (c: LD)
    requires ValidCurve(cv) && InField(cv.r, a) && InField(cv.r, b)
    ensures c.z != 0 ==> InField(cv.r, c)
  {
    var r := cv.r;
    if a.z == 0 then b
    else if b.z == 0 then a
    else
      var t1, t2 := Mul(r, a.x, b.z), Mul(r, b.x, a.z);
      var t3, t4 := Mul(r, Sqr(r, b.z), a.y), Mul(r, Sqr(r, a.z), b.y);
      if t1 == t2 then if t3 == t4 then DblLD(cv, a, old') else Zeroed(old')
      else AddTail(r, a, b, t1, t2, t3, t4)
  }

  // Both operands as coefficients of powers of w == za zb
  lemma AddFront(r: Ring, a: LD, b: LD, x: nat, y: nat)
    requires BinField(r) && InField(r, a) && InField(r, b) && a.x == W(r, a.z, x, 1) && a.y == W(r, a.z, y, 2)
    ensures var w := Mul(r, a.z, b.z);
            && Mul(r, a.x, b.z) == W(r, w, x, 1)
            && Mul(r, Sqr(r, b.z), a.y) == W(r, w, y, 2)
  {
    hide Mul, Size, Field;
    var z, v := a.z, b.z;
    var w := Mul(r, z, v);
    PowTwo(r, z);
    PowTwo(r, w);
    MulAssoc(r, x, z, v);
    MulComm(r, Sqr(r, v), a.y);
    MulAssoc(r, y, Sqr(r, z), Sqr(r, v));
    SqrMul(r, z, v);
  }

  lemma AddWeights(r: Ring, a: LD, b: LD, x1: nat, y1: nat, x2: nat, y2: nat, w: nat)
    requires BinField(r) && InField(r, a) && InField(r, b) && w == Mul(r, a.z, b.z)
    requires x1 < Size(r) && y1 < Size(r) && x2 < Size(r) && y2 < Size(r)
    ensures var c := AddTail(r, a, b, W(r, w, x1, 1), W(r, w, x2, 1), W(r, w, y1, 2), W(r, w, y2, 2));
            var d, n, s1, s2 := Add(r, x1, x2), Add(r, y1, y2), Sqr(r, x1), Sqr(r, x2);
            var dd, J := Add(r, s1, s2), Mul(r, d, n);
            var X := Add(r, Mul(r, x2, Add(r, s1, y1)), Mul(r, x1, Add(r, y2, s2)));
            && c.z == W(r, w, dd, 3) && c.x == W(r, w, X, 3)
            && c.y == W(r, w, Add(r, Mul(r, Add(r, J, dd), X), Mul(r, Add(r, Mul(r, x1, J), Mul(r, y1, dd)), dd)), 6)
  {
    hide Add, Mul, Size, Field, W;
    var d, n, s1, s2 := Add(r, x1, x2), Add(r, y1, y2), Sqr(r, x1), Sqr(r, x2);
    var dd, J := Add(r, s1, s2), Mul(r, d, n);
    var X := Add(r, Mul(r, x2, Add(r, s1, y1)), Mul(r, x1, Add(r, y2, s2)));
    WAdd(r, w, x1, x2, 1);
    WAdd(r, w, y1, y2, 2);
    WMul(r, w, d, 1, n, 2);
    WMul(r, w, x1, 1, x1, 1);
    WMul(r, w, x2, 1, x2, 1);
    WAdd(r, w, s1, s2, 2);
    WOne(r, w);
    WMul(r, w, dd, 2, 1, 1);
    MulUnit(r, dd);
    WAdd(r, w, y2, s2, 2);
    WMul(r, w, x1, 1, Add(r, y2, s2), 2);
    WAdd(r, w, s1, y1, 2);
    WMul(r, w, x2, 1, Add(r, s1, y1), 2);
    WAdd(r, w, Mul(r, x2, Add(r, s1, y1)), Mul(r, x1, Add(r, y2, s2)), 3);
    WMul(r, w, x1, 1, J, 3);
    WMul(r, w, y1, 2, dd, 2);
    AddWeightsY(r, w, x1, y1, dd, J, X);
  }

  lemma AddWeightsY(r: Ring, w: nat, x1: nat, y1: nat, dd: nat, J: nat, X: nat)
    requires BinField(r) && w < Size(r) && dd < Size(r) && J < Size(r) && X < Size(r)
    ensures Add(r, Mul(r, Add(r, W(r, w, J, 3), W(r, w, dd, 3)), W(r, w, X, 3)),
                Mul(r, Add(r, W(r, w, Mul(r, x1, J), 4), W(r, w, Mul(r, y1, dd), 4)), W(r, w, dd, 2)))
            == W(r, w, Add(r, Mul(r, Add(r, J, dd), X), Mul(r, Add(r, Mul(r, x1, J), Mul(r, y1, dd)), dd)), 6)
  {
    hide Add, Mul, Size, Field, W;
    var s := Add(r, Mul(r, x1, J), Mul(r, y1, dd));
    WAdd(r, w, Mul(r, x1, J), Mul(r, y1, dd), 4);
    WMul(r, w, s, 4, dd, 2);
    WAdd(r, w, J, dd, 3);
    WMul(r, w, Add(r, J, dd), 3, X, 3);
    WAdd(r, w, Mul(r, Add(r, J, dd), X), Mul(r, s, dd), 6);
  }

  // The slope of a chord: l d == n
  lemma ChordSlope(cv: Curve, x1: nat, y1: nat, x2: nat, y2: nat) returns (l: nat)
    requires ValidCurve(cv) && x1 < Size(cv.r) && y1 < Size(cv.r) && x2 < Size(cv.r) && y2 < Size(cv.r) && x1 != x2
    ensures var d, n := Add(cv.r, x1, x2), Add(cv.r, y1, y2);
            l == Quot(cv.r, n, d) < Size(cv.r) && Mul(cv.r, l, d) == n && d != 0
  {
    hide Add, Mul, Size, Field, Quot;
    var r := cv.r;
    var d := Add(r, x1, x2);
    if d == 0 {
      Double(r, x2);
      AddCancel(r, x1, x2, x2);
    }
    l := Quot(r, Add(r, y1, y2), d);
    QuotLaw(r, Add(r, y1, y2), d);
  }

  // x3 d^2 == d^3 + n d + n^2 + A d^2
  lemma ThirdScaled(cv: Curve, d: nat, n: nat, l: nat)
    requires ValidCurve(cv) && d < Size(cv.r) && n < Size(cv.r) && l < Size(cv.r) && Mul(cv.r, l, d) == n
    ensures var r, dd := cv.r, Sqr(cv.r, d);
            && Mul(r, l, dd) == Mul(r, d, n)
            && Mul(r, Add(r, Add(r, Add(r, d, l), Sqr(r, l)), cv.A), dd)
               == Add(r, Add(r, Add(r, Mul(r, d, dd), Mul(r, d, n)), Sqr(r, n)), Mul(r, cv.A, dd))
  {
    hide Add, Mul, Size, Field;
    var r, dd := cv.r, Sqr(cv.r, d);
    MulAssoc(r, l, d, d);
    MulComm(r, n, d);
    Interchange(r, l, d, l, d);
    DistributeR(r, d, l, dd);
    DistributeR(r, Add(r, d, l), Sqr(r, l), dd);
    DistributeR(r, Add(r, Add(r, d, l), Sqr(r, l)), cv.A, dd);
  }

  // The sum of d^3, n d, n^2 and A d^2 on the curve: only mixed terms remain.
  lemma ChordCurve(cv: Curve, x1: nat, y1: nat, x2: nat, y2: nat)
    requires ValidCurve(cv) && OnCurve(cv, Affine(x1, y1)) && OnCurve(cv, Affine(x2, y2))
    ensures x1 < Size(cv.r) && y1 < Size(cv.r) && x2 < Size(cv.r) && y2 < Size(cv.r)
    ensures var r, d, n, s1, s2 := cv.r, Add(cv.r, x1, x2), Add(cv.r, y1, y2), Sqr(cv.r, x1), Sqr(cv.r, x2);
            var dd := Add(r, s1, s2);
            && dd == Sqr(r, d)
            && Add(r, Mul(r, x2, Add(r, s1, y1)), Mul(r, x1, Add(r, y2, s2)))
               == Add(r, Add(r, Add(r, Mul(r, d, dd), Mul(r, d, n)), Sqr(r, n)), Mul(r, cv.A, dd))
  {
    hide Add, Mul, Size, Field, Lin;
    CurveY(cv, x1, y1);
    CurveY(cv, x2, y2);
    var r, A, s1, s2 := cv.r, cv.A, Sqr(cv.r, x1), Sqr(cv.r, x2);
    SqrAdd(r, x1, x2);
    SqrAdd(r, y1, y2);
    ChordProducts(r, x1, y1, x2, y2, s1, s2, A);
    var at := [Mul(r, x1, s1), Mul(r, x2, s2), Mul(r, x2, s1), Mul(r, x1, s2), Mul(r, x1, y1), Mul(r, x2, y2),
               Mul(r, x1, y2), Mul(r, x2, y1), Mul(r, A, s1), Mul(r, A, s2), cv.B];
    ChordLin(r, at, Sqr(r, y1), Sqr(r, y2));
  }

  lemma ChordProducts(r: Ring, x1: nat, y1: nat, x2: nat, y2: nat, s1: nat, s2: nat, A: nat)
    requires BinField(r) && x1 < Size(r) && y1 < Size(r) && x2 < Size(r) && y2 < Size(r) && s1 < Size(r) && s2 < Size(r)
    ensures var d, n, dd := Add(r, x1, x2), Add(r, y1, y2), Add(r, s1, s2);
            && Mul(r, d, dd) == Add(r, Add(r, Mul(r, x1, s1), Mul(r, x2, s1)), Add(r, Mul(r, x1, s2), Mul(r, x2, s2)))
            && Mul(r, d, n) == Add(r, Add(r, Mul(r, x1, y1), Mul(r, x2, y1)), Add(r, Mul(r, x1, y2), Mul(r, x2, y2)))
            && Mul(r, A, dd) == Add(r, Mul(r, A, s1), Mul(r, A, s2))
            && Mul(r, x2, Add(r, s1, y1)) == Add(r, Mul(r, x2, s1), Mul(r, x2, y1))
            && Mul(r, x1, Add(r, y2, s2)) == Add(r, Mul(r, x1, y2), Mul(r, x1, s2))
  {
    hide Add, Mul, Size, Field;
    var d := Add(r, x1, x2);
    Distribute(r, d, s1, s2);
    DistributeR(r, x1, x2, s1);
    DistributeR(r, x1, x2, s2);
    Distribute(r, d, y1, y2);
    DistributeR(r, x1, x2, y1);
    DistributeR(r, x1, x2, y2);
    Distribute(r, A, s1, s2);
    Distribute(r, x2, s1, y1);
    Distribute(r, x1, y2, s2);
  }

  // at: u, v, g, h, p, q, s, t, m, n, B for x1^3, x2^3, x2 x1^2, x1 x2^2, x1 y1, x2 y2, x1 y2,
  // x2 y1, A x1^2, A x2^2
  lemma ChordLin(r: Ring, at: seq<nat>, Y1: nat, Y2: nat)
    requires BinField(r) && |at| == 11 && (forall i :: 0 <= i < 11 ==> at[i] < Size(r))
    requires Y1 == Add(r, at[4], Add(r, Add(r, at[0], at[8]), at[10]))
    requires Y2 == Add(r, at[5], Add(r, Add(r, at[1], at[9]), at[10]))
    ensures Y1 < Size(r) && Y2 < Size(r)
    ensures Add(r, Add(r, at[2], at[7]), Add(r, at[6], at[3]))
            == Add(r, Add(r, Add(r, Add(r, Add(r, at[0], at[2]), Add(r, at[3], at[1])),
                                    Add(r, Add(r, at[4], at[7]), Add(r, at[6], at[5]))),
                             Add(r, Y1, Y2)),
                      Add(r, at[8], at[9]))
  {
    hide Add, Size, Field, Lin;
    ChordAtoms(r, at);
    ChordLinY(r, at);
    ChordLinSum(r, at);
    LinAdd(r, at, "00100000000", "00000001000", "00100001000");
    LinAdd(r, at, "00000010000", "00010000000", "00010010000");
    LinAdd(r, at, "00100001000", "00010010000", "00110011000");
  }

  lemma ChordAtoms(r: Ring, at: seq<nat>)
    requires BinField(r) && |at| == 11 && (forall i :: 0 <= i < 11 ==> at[i] < Size(r))
    ensures at[0] == Lin(r, at, "10000000000") && at[1] == Lin(r, at, "01000000000")
    ensures at[2] == Lin(r, at, "00100000000") && at[3] == Lin(r, at, "00010000000")
    ensures at[4] == Lin(r, at, "00001000000") && at[5] == Lin(r, at, "00000100000")
    ensures at[6] == Lin(r, at, "00000010000") && at[7] == Lin(r, at, "00000001000")
    ensures at[8] == Lin(r, at, "00000000100") && at[9] == Lin(r, at, "00000000010")
    ensures at[10] == Lin(r, at, "00000000001")
  {
    hide Add, Size, Field, Lin;
    LinAtom(r, at, 0, "10000000000");
    LinAtom(r, at, 1, "01000000000");
    LinAtom(r, at, 2, "00100000000");
    LinAtom(r, at, 3, "00010000000");
    LinAtom(r, at, 4, "00001000000");
    LinAtom(r, at, 5, "00000100000");
    LinAtom(r, at, 6, "00000010000");
    LinAtom(r, at, 7, "00000001000");
    LinAtom(r, at, 8, "00000000100");
    LinAtom(r, at, 9, "00000000010");
    LinAtom(r, at, 10, "00000000001");
  }

  lemma ChordLinY(r: Ring, at: seq<nat>)
    requires BinField(r) && |at| == 11 && (forall i :: 0 <= i < 11 ==> at[i] < Size(r))
    ensures Lin(r, at, "10001000101")
            == Add(r, Lin(r, at, "00001000000"),
                   Add(r, Add(r, Lin(r, at, "10000000000"), Lin(r, at, "00000000100")), Lin(r, at, "00000000001")))
    ensures Lin(r, at, "01000100011")
            == Add(r, Lin(r, at, "00000100000"),
                   Add(r, Add(r, Lin(r, at, "01000000000"), Lin(r, at, "00000000010")), Lin(r, at, "00000000001")))
    ensures Lin(r, at, "11001100110") == Add(r, Lin(r, at, "10001000101"), Lin(r, at, "01000100011"))
  {
    hide Add, Size, Field, Lin;
    LinAdd(r, at, "10000000000", "00000000100", "10000000100");
    LinAdd(r, at, "10000000100", "00000000001", "10000000101");
    LinAdd(r, at, "00001000000", "10000000101", "10001000101");
    LinAdd(r, at, "01000000000", "00000000010", "01000000010");
    LinAdd(r, at, "01000000010", "00000000001", "01000000011");
    LinAdd(r, at, "00000100000", "01000000011", "01000100011");
    LinAdd(r, at, "10001000101", "01000100011", "11001100110");
  }

  lemma ChordLinSum(r: Ring, at: seq<nat>)
    requires BinField(r) && |at| == 11 && (forall i :: 0 <= i < 11 ==> at[i] < Size(r))
    ensures Lin(r, at, "00110011000")
            == Add(r, Add(r, Add(r, Add(r, Add(r, Lin(r, at, "10000000000"), Lin(r, at, "00100000000")),
                                           Add(r, Lin(r, at, "00010000000"), Lin(r, at, "01000000000"))),
                                    Add(r, Add(r, Lin(r, at, "00001000000"), Lin(r, at, "00000001000")),
                                           Add(r, Lin(r, at, "00000010000"), Lin(r, at, "00000100000")))),
                             Lin(r, at, "11001100110")),
                      Add(r, Lin(r, at, "00000000100"), Lin(r, at, "00000000010")))
  {
    hide Add, Size, Field, Lin;
    LinAdd(r, at, "10000000000", "00100000000", "10100000000");
    LinAdd(r, at, "00010000000", "01000000000", "01010000000");
    LinAdd(r, at, "10100000000", "01010000000", "11110000000");
    LinAdd(r, at, "00001000000", "00000001000", "00001001000");
    LinAdd(r, at, "00000010000", "00000100000", "00000110000");
    LinAdd(r, at, "00001001000", "00000110000", "00001111000");
    LinAdd(r, at, "11110000000", "00001111000", "11111111000");
    LinAdd(r, at, "11111111000", "11001100110", "00110011110");
    LinAdd(r, at, "00000000100", "00000000010", "00000000110");
    LinAdd(r, at, "00110011110", "00000000110", "00110011000");
  }

  // (l + 1) x3 + x1 l + y1 == y3
  lemma ChordY(r: Ring, x1: nat, y1: nat, x3: nat, l: nat)
    requires BinField(r) && x1 < Size(r) && y1 < Size(r) && x3 < Size(r) && l < Size(r)
    ensures Add(r, Mul(r, Add(r, l, 1), x3), Add(r, Mul(r, x1, l), y1))
            == Add(r, Add(r, y1, x3), Mul(r, Add(r, x1, x3), l))
  {
    hide Add, Mul, Size, Field, Lin;
    UnitIn(r);
    DistributeR(r, l, 1, x3);
    MulUnit(r, x3);
    MulComm(r, l, x3);
    DistributeR(r, x1, x3, l);
    var at := [y1, x3, Mul(r, x1, l), Mul(r, x3, l)];
    LinAtom(r, at, 0, "1000");
    LinAtom(r, at, 1, "0100");
    LinAtom(r, at, 2, "0010");
    LinAtom(r, at, 3, "0001");
    LinAdd(r, at, "0001", "0100", "0101");
    LinAdd(r, at, "0010", "1000", "1010");
    LinAdd(r, at, "0101", "1010", "1111");
    LinAdd(r, at, "1000", "0100", "1100");
    LinAdd(r, at, "0010", "0001", "0011");
    LinAdd(r, at, "1100", "0011", "1111");
  }

  // The y-coefficient: ((l + 1) x3 + x1 l + y1) d^4
  lemma AddY(r: Ring, x1: nat, y1: nat, x3: nat, l: nat, dd: nat)
    requires BinField(r) && x1 < Size(r) && y1 < Size(r) && x3 < Size(r) && l < Size(r) && dd < Size(r)
    ensures var J, X := Mul(r, l, dd), Mul(r, x3, dd);
            Add(r, Mul(r, Add(r, J, dd), X), Mul(r, Add(r, Mul(r, x1, J), Mul(r, y1, dd)), dd))
            == Mul(r, Add(r, Mul(r, Add(r, l, 1), x3), Add(r, Mul(r, x1, l), y1)), Sqr(r, dd))
  {
    hide Add, Mul, Size, Field;
    var J, l1, k := Mul(r, l, dd), Add(r, l, 1), Add(r, Mul(r, x1, l), y1);
    UnitIn(r);
    MulUnit(r, dd);
    DistributeR(r, l, 1, dd);
    Interchange(r, l1, dd, x3, dd);
    MulAssoc(r, x1, l, dd);
    DistributeR(r, Mul(r, x1, l), y1, dd);
    MulAssoc(r, k, dd, dd);
    DistributeR(r, Mul(r, l1, x3), k, Sqr(r, dd));
  }

  /** ec2AddLD adds points of the curve: O, equal and opposite ones too. */
  lemma AddLDLaw(cv: Curve, a: LD, b: LD, old': LD)
    requires ValidCurve(cv) && InField(cv.r, a) && InField(cv.r, b)
    requires OnCurve(cv, ToA(cv.r, a)) && OnCurve(cv, ToA(cv.r, b))
    ensures ToA(cv.r, AddLD(cv, a, b, old')) == AddA(cv, ToA(cv.r, a), ToA(cv.r, b))
  {
    hide Add, Mul, Size, Field, W, Inv, Quot, OnCurve, AddTail, DblLD;
    var r := cv.r;
    if a.z != 0 && b.z != 0 {
      FromLD(r, a);
      FromLD(r, b);
      var s, t, w := ToA(r, a), ToA(r, b), Mul(r, a.z, b.z);
      NonzeroW(r, a.z, b.z);
      AddFront(r, a, b, s.x, s.y);
      AddFront(r, b, a, t.x, t.y);
      MulComm(r, a.z, b.z);
      SameWeighted(r, w, s.x, t.x, 1);
      SameWeighted(r, w, s.y, t.y, 2);
      if s.x != t.x {
        AddLDDistinct(cv, a, b, s.x, s.y, t.x, t.y);
      } else if s.y == t.y {
        DblLDLaw(cv, a, old');
      }
    }
  }

  lemma NonzeroW(r: Ring, z: nat, v: nat)
    requires BinField(r) && 0 < z < Size(r) && 0 < v < Size(r)
    ensures Mul(r, z, v) != 0
  {
    hide Mul, Size, Field;
    if Mul(r, z, v) == 0 {
      NoZeroDivisors(r, z, v);
    }
  }

  lemma SameWeighted(r: Ring, w: nat, u: nat, v: nat, k: nat)
    requires BinField(r) && 0 < w < Size(r) && u < Size(r) && v < Size(r)
    ensures W(r, w, u, k) == W(r, w, v, k) <==> u == v
  {
    hide Mul, Size, Field, Pow;
    PowNonzero(r, w, k);
    if W(r, w, u, k) == W(r, w, v, k) {
      MulCancel(r, u, v, Pow(r, w, k));
    }
  }

  lemma AddLDDistinct(cv: Curve, a: LD, b: LD, x1: nat, y1: nat, x2: nat, y2: nat)
    requires ValidCurve(cv) && InField(cv.r, a) && InField(cv.r, b) && a.z != 0 && b.z != 0
    requires OnCurve(cv, Affine(x1, y1)) && OnCurve(cv, Affine(x2, y2)) && x1 != x2
    ensures x1 < Size(cv.r) && y1 < Size(cv.r) && x2 < Size(cv.r) && y2 < Size(cv.r)
    ensures var r, w := cv.r, Mul(cv.r, a.z, b.z);
            ToA(r, AddTail(r, a, b, W(r, w, x1, 1), W(r, w, x2, 1), W(r, w, y1, 2), W(r, w, y2, 2)))
            == AddA(cv, Affine(x1, y1), Affine(x2, y2))
  {
    hide Add, Mul, Size, Field, W, Inv, Quot, OnCurve, AddTail, ToA;
    var r, w := cv.r, Mul(cv.r, a.z, b.z);
    ChordCurve(cv, x1, y1, x2, y2);
    var l := ChordSlope(cv, x1, y1, x2, y2);
    var d, n := Add(r, x1, x2), Add(r, y1, y2);
    ThirdScaled(cv, d, n, l);
    AddWeights(r, a, b, x1, y1, x2, y2, w);
    var P := Third(cv, x1, y1, d, l);
    AddY(r, x1, y1, P.x, l, Sqr(r, d));
    ChordY(r, x1, y1, P.x, l);
    SqrNonzero(r, d);
    NonzeroW(r, a.z, b.z);
    Finish(r, AddTail(r, a, b, W(r, w, x1, 1), W(r, w, x2, 1), W(r, w, y1, 2), W(r, w, y2, 2)),
           w, Sqr(r, d), 3, P.x, P.y);
  }

  // ---------------------------------------------------------------- adding an affine point

  function MixTail(cv: Curve, z: nat, x: nat, y: nat, t1: nat, t2: nat): (c: LD)
    requires ValidCurve(cv) && z < Size(cv.r) && x < Size(cv.r) && y < Size(cv.r) && t1 < Size(cv.r) && t2 < Size(cv.r)
    ensures InField(cv.r, c)
  {
    var r := cv.r;
    var t3 := Mul(r, t2, z);
    var zc := Sqr(r, t3);
    var t4 := Mul(r, x, zc);
    var yc := Add(r, x, y);
    var xc := Add(r, Sqr(r, t2), t1);
    var xc := Mul(r, PlusA(cv, xc, t3), t3);
    var xc := Add(r, xc, Sqr(r, t1));
    var yc := Mul(r, yc, Sqr(r, zc));
    var t4 := Add(r, t4, xc);
    var t1 := Mul(r, Add(r, Mul(r, t1, t3), zc), t4);
    LD(xc, Add(r, yc, t1), zc)
  }

  // ec2AddALD
  function AddALD(cv: Curve, a: LD, x: nat, y: nat, old': LD): (c: LD)
    requires ValidCurve(cv) && InField(cv.r, a) && x < Size(cv.r) && y < Size(cv.r)
    ensures c.z != 0 ==> InField(cv.r, c)
  {
    var r := cv.r;
    if a.z == 0 then UnitIn(r); LD(x, y, 1)
    else
      var t1 := Add(r, Mul(r, y, Sqr(r, a.z)), a.y);
      var t2 := Add(r, Mul(r, x, a.z), a.x);
      if t2 == 0 then if t1 == 0 then DblALD(cv, x, y, old') else Zeroed(old')
      else MixTail(cv, a.z, x, y, t1, t2)
  }

  lemma MixWeights(cv: Curve, z: nat, x: nat, y: nat, n: nat, d: nat)
    requires ValidCurve(cv) && 0 < z < Size(cv.r) && x < Size(cv.r) && y < Size(cv.r) && n < Size(cv.r) && d < Size(cv.r)
    ensures var r, dd := cv.r, Sqr(cv.r, d);
            var c := MixTail(cv, z, x, y, W(r, z, n, 2), W(r, z, d, 1));
            var X := Add(r, Mul(r, Add(r, Add(r, dd, n), Mul(r, cv.A, d)), d), Sqr(r, n));
            && c.z == W(r, z, dd, 4) && c.x == W(r, z, X, 4)
            && c.y == W(r, z, Add(r, Mul(r, Add(r, x, y), Sqr(r, dd)),
                                     Mul(r, Add(r, Mul(r, n, d), dd), Add(r, Mul(r, x, dd), X))), 8)
  {
    hide Add, Mul, Size, Field, W, PlusA;
    var r, dd := cv.r, Sqr(cv.r, d);
    var u := Add(r, Add(r, dd, n), Mul(r, cv.A, d));
    var X := Add(r, Mul(r, u, d), Sqr(r, n));
    WOne(r, z);
    MulUnit(r, d);
    WMul(r, z, d, 1, 1, 1);
    WMul(r, z, d, 2, d, 2);
    WFront(r, z, x, dd, 4);
    WMul(r, z, d, 1, d, 1);
    WAdd(r, z, dd, n, 2);
    PlusAIs(cv, W(r, z, Add(r, dd, n), 2), W(r, z, d, 2));
    WFront(r, z, cv.A, d, 2);
    WAdd(r, z, Add(r, dd, n), Mul(r, cv.A, d), 2);
    WMul(r, z, u, 2, d, 2);
    WMul(r, z, n, 2, n, 2);
    WAdd(r, z, Mul(r, u, d), Sqr(r, n), 4);
    WMul(r, z, n, 2, d, 2);
    MixWeightsY(r, z, x, y, dd, Mul(r, n, d), X);
  }

  lemma MixWeightsY(r: Ring, z: nat, x: nat, y: nat, dd: nat, nd: nat, X: nat)
    requires BinField(r) && z < Size(r) && x < Size(r) && y < Size(r) && dd < Size(r) && nd < Size(r) && X < Size(r)
    ensures Add(r, Mul(r, Add(r, x, y), Sqr(r, W(r, z, dd, 4))),
                Mul(r, Add(r, W(r, z, nd, 4), W(r, z, dd, 4)), Add(r, W(r, z, Mul(r, x, dd), 4), W(r, z, X, 4))))
            == W(r, z, Add(r, Mul(r, Add(r, x, y), Sqr(r, dd)),
                              Mul(r, Add(r, nd, dd), Add(r, Mul(r, x, dd), X))), 8)
  {
    hide Add, Mul, Size, Field, W;
    WMul(r, z, dd, 4, dd, 4);
    WFront(r, z, Add(r, x, y), Sqr(r, dd), 8);
    WAdd(r, z, nd, dd, 4);
    WAdd(r, z, Mul(r, x, dd), X, 4);
    WMul(r, z, Add(r, nd, dd), 4, Add(r, Mul(r, x, dd), X), 4);
    WAdd(r, z, Mul(r, Add(r, x, y), Sqr(r, dd)), Mul(r, Add(r, nd, dd), Add(r, Mul(r, x, dd), X)), 8);
  }

  // (d^2 + n + A d) d + n^2 is x3 d^2
  lemma MixX(cv: Curve, d: nat, n: nat, l: nat)
    requires ValidCurve(cv) && d < Size(cv.r) && n < Size(cv.r) && l < Size(cv.r) && Mul(cv.r, l, d) == n
    ensures var r, dd := cv.r, Sqr(cv.r, d);
            Add(r, Mul(r, Add(r, Add(r, dd, n), Mul(r, cv.A, d)), d), Sqr(r, n))
            == Mul(r, Add(r, Add(r, Add(r, d, l), Sqr(r, l)), cv.A), dd)
  {
    hide Add, Mul, Size, Field, Lin;
    var r, dd := cv.r, Sqr(cv.r, d);
    ThirdScaled(cv, d, n, l);
    DistributeR(r, Add(r, dd, n), Mul(r, cv.A, d), d);
    DistributeR(r, dd, n, d);
    MulComm(r, dd, d);
    MulComm(r, n, d);
    MulAssoc(r, cv.A, d, d);
    var at := [Mul(r, d, dd), Mul(r, d, n), Sqr(r, n), Mul(r, cv.A, dd)];
    LinAtom(r, at, 0, "1000");
    LinAtom(r, at, 1, "0100");
    LinAtom(r, at, 2, "0010");
    LinAtom(r, at, 3, "0001");
    LinAdd(r, at, "1000", "0100", "1100");
    LinAdd(r, at, "1100", "0001", "1101");
    LinAdd(r, at, "1101", "0010", "1111");
    LinAdd(r, at, "1100", "0010", "1110");
    LinAdd(r, at, "1110", "0001", "1111");
  }

  // (x2 + y2) + (l + 1) (x2 + x3) == y3, where l (x1 + x2) == y1 + y2
  lemma MixY(r: Ring, x1: nat, y1: nat, x2: nat, y2: nat, x3: nat, l: nat)
    requires BinField(r) && x1 < Size(r) && y1 < Size(r) && x2 < Size(r) && y2 < Size(r) && x3 < Size(r) && l < Size(r)
    requires Mul(r, l, Add(r, x1, x2)) == Add(r, y1, y2)
    ensures Add(r, Add(r, x2, y2), Mul(r, Add(r, l, 1), Add(r, x2, x3)))
            == Add(r, Add(r, y1, x3), Mul(r, Add(r, x1, x3), l))
  {
    hide Add, Mul, Size, Field, Lin;
    var e := Add(r, x2, x3);
    var a, b, c := Mul(r, l, x1), Mul(r, l, x2), Mul(r, l, x3);
    UnitIn(r);
    DistributeR(r, l, 1, e);
    MulUnit(r, e);
    Distribute(r, l, x2, x3);
    Distribute(r, l, x1, x2);
    DistributeR(r, x1, x3, l);
    MulComm(r, x1, l);
    MulComm(r, x3, l);
    // l x2 == (y1 + y2) + l x1
    AddComm(r, a, b);
    AddTwice(r, b, a);
    var at := [y1, y2, x2, x3, a, c];
    LinAtom(r, at, 0, "100000");
    LinAtom(r, at, 1, "010000");
    LinAtom(r, at, 2, "001000");
    LinAtom(r, at, 3, "000100");
    LinAtom(r, at, 4, "000010");
    LinAtom(r, at, 5, "000001");
    LinAdd(r, at, "100000", "010000", "110000");
    LinAdd(r, at, "110000", "000010", "110010");
    MixLin(r, at);
  }

  lemma MixLin(r: Ring, at: seq<nat>)
    requires BinField(r) && |at| == 6 && (forall i :: 0 <= i < 6 ==> at[i] < Size(r))
    ensures Add(r, Add(r, Lin(r, at, "001000"), Lin(r, at, "010000")),
                Add(r, Add(r, Lin(r, at, "110010"), Lin(r, at, "000001")),
                       Add(r, Lin(r, at, "001000"), Lin(r, at, "000100"))))
            == Add(r, Add(r, Lin(r, at, "100000"), Lin(r, at, "000100")),
                      Add(r, Lin(r, at, "000010"), Lin(r, at, "000001")))
  {
    hide Add, Size, Field, Lin;
    LinAdd(r, at, "001000", "010000", "011000");
    LinAdd(r, at, "110010", "000001", "110011");
    LinAdd(r, at, "001000", "000100", "001100");
    LinAdd(r, at, "110011", "001100", "111111");
    LinAdd(r, at, "011000", "111111", "100111");
    LinAdd(r, at, "100000", "000100", "100100");
    LinAdd(r, at, "000010", "000001", "000011");
    LinAdd(r, at, "100100", "000011", "100111");
  }

  // The y-coefficient is ((x2 + y2) + (l + 1) (x2 + x3)) d^4.
  lemma MixScaled(r: Ring, s: nat, x2: nat, x3: nat, l: nat, dd: nat)
    requires BinField(r) && s < Size(r) && x2 < Size(r) && x3 < Size(r) && l < Size(r) && dd < Size(r)
    ensures Add(r, Mul(r, s, Sqr(r, dd)),
                Mul(r, Add(r, Mul(r, l, dd), dd), Add(r, Mul(r, x2, dd), Mul(r, x3, dd))))
            == Mul(r, Add(r, s, Mul(r, Add(r, l, 1), Add(r, x2, x3))), Sqr(r, dd))
  {
    hide Add, Mul, Size, Field;
    UnitIn(r);
    MulUnit(r, dd);
    DistributeR(r, l, 1, dd);
    DistributeR(r, x2, x3, dd);
    var l1, e := Add(r, l, 1), Add(r, x2, x3);
    Interchange(r, l1, dd, e, dd);
    DistributeR(r, s, Mul(r, l1, e), Sqr(r, dd));
  }

  lemma MixDistinct(cv: Curve, z: nat, x1: nat, y1: nat, x2: nat, y2: nat)
    requires ValidCurve(cv) && 0 < z < Size(cv.r) && x1 < Size(cv.r) && y1 < Size(cv.r)
    requires x2 < Size(cv.r) && y2 < Size(cv.r) && x1 != x2
    ensures var r, n, d := cv.r, Add(cv.r, y1, y2), Add(cv.r, x1, x2);
            ToA(r, MixTail(cv, z, x2, y2, W(r, z, n, 2), W(r, z, d, 1)))
            == AddA(cv, Affine(x1, y1), Affine(x2, y2))
  {
    hide Add, Mul, Size, Field, W, Inv, Quot, MixTail, ToA;
    var r := cv.r;
    var l := ChordSlope(cv, x1, y1, x2, y2);
    var d, n := Add(r, x1, x2), Add(r, y1, y2);
    var P := Third(cv, x1, y1, d, l);
    MixX(cv, d, n, l);
    ThirdScaled(cv, d, n, l);
    MulComm(r, d, n);
    MixWeights(cv, z, x2, y2, n, d);
    MixScaled(r, Add(r, x2, y2), x2, P.x, l, Sqr(r, d));
    MixY(r, x1, y1, x2, y2, P.x, l);
    SqrNonzero(r, d);
    Finish(r, MixTail(cv, z, x2, y2, W(r, z, n, 2), W(r, z, d, 1)), z, Sqr(r, d), 4, P.x, P.y);
  }

  // The two tests as coefficients.
  lemma MixFront(cv: Curve, a: LD, x1: nat, y1: nat, x2: nat, y2: nat)
    requires ValidCurve(cv) && InField(cv.r, a) && x1 < Size(cv.r) && y1 < Size(cv.r) && x2 < Size(cv.r) && y2 < Size(cv.r)
    requires a.x == W(cv.r, a.z, x1, 1) && a.y == W(cv.r, a.z, y1, 2)
    ensures var r := cv.r;
            && Add(r, Mul(r, y2, Sqr(r, a.z)), a.y) == W(r, a.z, Add(r, y1, y2), 2)
            && Add(r, Mul(r, x2, a.z), a.x) == W(r, a.z, Add(r, x1, x2), 1)
  {
    hide Add, Mul, Size, Field;
    var r, z := cv.r, a.z;
    PowTwo(r, z);
    WAdd(r, z, y2, y1, 2);
    WAdd(r, z, x2, x1, 1);
    AddComm(r, y1, y2);
    AddComm(r, x1, x2);
  }

  lemma SumZero(r: Ring, u: nat, v: nat)
    requires BinField(r) && u < Size(r) && v < Size(r)
    ensures Add(r, u, v) == 0 <==> u == v
  {
    hide Add, Size, Field;
    Double(r, v);
    if Add(r, u, v) == 0 {
      AddCancel(r, u, v, v);
    }
  }

  lemma WZero(r: Ring, w: nat, u: nat, k: nat)
    requires BinField(r) && 0 < w < Size(r) && u < Size(r)
    ensures W(r, w, u, k) == 0 <==> u == 0
  {
    hide Mul, Size, Field, Pow;
    PowNonzero(r, w, k);
    MulUnit(r, Pow(r, w, k));
    if W(r, w, u, k) == 0 {
      NoZeroDivisors(r, u, Pow(r, w, k));
    }
  }

  lemma ToAUnit(r: Ring, x: nat, y: nat)
    requires BinField(r) && x < Size(r) && y < Size(r)
    ensures InField(r, LD(x, y, 1)) && ToA(r, LD(x, y, 1)) == Affine(x, y)
  {
    hide Mul, Size, Field, ToA;
    UnitIn(r);
    MulUnit(r, x);
    MulUnit(r, y);
    MulUnit(r, 1);
    ToLD(r, LD(x, y, 1), x, y);
  }

  /** ec2AddALD adds an affine point of the curve. */
  lemma AddALDLaw(cv: Curve, a: LD, x: nat, y: nat, old': LD)
    requires ValidCurve(cv) && InField(cv.r, a) && OnCurve(cv, Affine(x, y))
    ensures x < Size(cv.r) && y < Size(cv.r)
    ensures ToA(cv.r, AddALD(cv, a, x, y, old')) == AddA(cv, ToA(cv.r, a), Affine(x, y))
  {
    hide Add, Mul, Size, Field, W, Inv, Quot, MixTail, DblALD;
    var r := cv.r;
    DblALDLaw(cv, x, y, old');
    ToAUnit(r, x, y);
    if a.z != 0 {
      FromLD(r, a);
      var s := ToA(r, a);
      MixFront(cv, a, s.x, s.y, x, y);
      SumZero(r, s.x, x);
      SumZero(r, s.y, y);
      WZero(r, a.z, Add(r, s.x, x), 1);
      WZero(r, a.z, Add(r, s.y, y), 2);
      if s.x != x {
        MixDistinct(cv, a.z, s.x, s.y, x, y);
      }
    }
  }
}
