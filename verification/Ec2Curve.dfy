/** Addition keeps points of a binary curve on the curve: the operands of the fast formulas
    are sums again. */
module Ec2Curve {
  import opened Qr
  import opened Gf2Field
  import opened Ec2Points
  import L = Ec2LopezDahab

  // x^3 + a x^2 + c x + b
  function E(r: Ring, a: nat, c: nat, b: nat, x: nat): (e: nat)
    requires Valid(r) && b < Size(r)
    ensures e < Size(r)
  {
    Add(r, Add(r, Mul(r, x, Sqr(r, x)), Mul(r, a, Sqr(r, x))), Add(r, Mul(r, c, x), b))
  }

  // (E(x) + E(y)) / (x + y)
  function K(r: Ring, a: nat, c: nat, x: nat, y: nat): (k: nat)
    requires Valid(r) && c < Size(r) && x < Size(r) && y < Size(r)
    ensures k < Size(r)
  {
    Add(r, Add(r, Add(r, Sqr(r, x), Mul(r, x, y)), Sqr(r, y)), Add(r, Mul(r, a, Add(r, x, y)), c))
  }

  lemma Products(r: Ring, a: nat, c: nat, x: nat, y: nat)
    requires BinField(r) && a < Size(r) && c < Size(r) && x < Size(r) && y < Size(r)
    ensures var d, xx, yy := Add(r, x, y), Sqr(r, x), Sqr(r, y);
            Mul(r, d, K(r, a, c, x, y))
            == Add(r, Add(r, Add(r, Add(r, Mul(r, x, xx), Mul(r, y, xx)),
                                    Add(r, Mul(r, y, xx), Mul(r, x, yy))),
                             Add(r, Mul(r, x, yy), Mul(r, y, yy))),
                      Add(r, Add(r, Mul(r, a, xx), Mul(r, a, yy)), Add(r, Mul(r, c, x), Mul(r, c, y))))
  {
    hide Add, Mul, Size, Field;
    var d, xx, yy, p := Add(r, x, y), Sqr(r, x), Sqr(r, y), Mul(r, x, y);
    var m := Mul(r, a, d);
    Distribute(r, d, Add(r, Add(r, xx, p), yy), Add(r, m, c));
    Distribute(r, d, Add(r, xx, p), yy);
    Distribute(r, d, xx, p);
    Distribute(r, d, m, c);
    DistributeR(r, x, y, xx);
    DistributeR(r, x, y, yy);
    DistributeR(r, x, y, p);
    MulAssoc(r, x, x, y);
    MulComm(r, xx, y);
    MulComm(r, x, y);
    MulAssoc(r, y, y, x);
    MulComm(r, yy, x);
    ScaledSquare(r, a, d, x, y);
    MulComm(r, d, c);
    Distribute(r, c, x, y);
  }

  // d (a d) == a x^2 + a y^2 for d == x + y
  lemma ScaledSquare(r: Ring, a: nat, d: nat, x: nat, y: nat)
    requires BinField(r) && a < Size(r) && x < Size(r) && y < Size(r) && d == Add(r, x, y)
    ensures Mul(r, d, Mul(r, a, d)) == Add(r, Mul(r, a, Sqr(r, x)), Mul(r, a, Sqr(r, y)))
  {
    hide Add, Mul, Size, Field;
    MulComm(r, d, Mul(r, a, d));
    MulAssoc(r, a, d, d);
    SqrAdd(r, x, y);
    Distribute(r, a, Sqr(r, x), Sqr(r, y));
  }

  lemma Difference(r: Ring, a: nat, c: nat, b: nat, x: nat, y: nat)
    requires BinField(r) && a < Size(r) && c < Size(r) && b < Size(r) && x < Size(r) && y < Size(r)
    ensures Add(r, E(r, a, c, b, x), E(r, a, c, b, y)) == Mul(r, Add(r, x, y), K(r, a, c, x, y))
  {
    hide Add, Mul, Size, Field, Lin, K;
    Products(r, a, c, x, y);
    var xx, yy := Sqr(r, x), Sqr(r, y);
    var at := [Mul(r, x, xx), Mul(r, y, yy), Mul(r, y, xx), Mul(r, x, yy), Mul(r, a, xx), Mul(r, a, yy),
               Mul(r, c, x), Mul(r, c, y), b];
    LinAtom(r, at, 0, "100000000");
    LinAtom(r, at, 1, "010000000");
    LinAtom(r, at, 2, "001000000");
    LinAtom(r, at, 3, "000100000");
    LinAtom(r, at, 4, "000010000");
    LinAtom(r, at, 5, "000001000");
    LinAtom(r, at, 6, "000000100");
    LinAtom(r, at, 7, "000000010");
    LinAtom(r, at, 8, "000000001");
    DifferenceLeft(r, at);
    DifferenceRight(r, at);
  }

  lemma DifferenceLeft(r: Ring, at: seq<nat>)
    requires BinField(r) && |at| == 9 && (forall i :: 0 <= i < 9 ==> at[i] < Size(r))
    ensures Add(r, Add(r, Add(r, Lin(r, at, "100000000"), Lin(r, at, "000010000")),
                          Add(r, Lin(r, at, "000000100"), Lin(r, at, "000000001"))),
                   Add(r, Add(r, Lin(r, at, "010000000"), Lin(r, at, "000001000")),
                          Add(r, Lin(r, at, "000000010"), Lin(r, at, "000000001"))))
            == Lin(r, at, "110011110")
  {
    hide Add, Size, Field, Lin;
    LinAdd(r, at, "100000000", "000010000", "100010000");
    LinAdd(r, at, "000000100", "000000001", "000000101");
    LinAdd(r, at, "100010000", "000000101", "100010101");
    LinAdd(r, at, "010000000", "000001000", "010001000");
    LinAdd(r, at, "000000010", "000000001", "000000011");
    LinAdd(r, at, "010001000", "000000011", "010001011");
    LinAdd(r, at, "100010101", "010001011", "110011110");
  }

  lemma DifferenceRight(r: Ring, at: seq<nat>)
    requires BinField(r) && |at| == 9 && (forall i :: 0 <= i < 9 ==> at[i] < Size(r))
    ensures Add(r, Add(r, Add(r, Add(r, Lin(r, at, "100000000"), Lin(r, at, "001000000")),
                                 Add(r, Lin(r, at, "001000000"), Lin(r, at, "000100000"))),
                          Add(r, Lin(r, at, "000100000"), Lin(r, at, "010000000"))),
                   Add(r, Add(r, Lin(r, at, "000010000"), Lin(r, at, "000001000")),
                          Add(r, Lin(r, at, "000000100"), Lin(r, at, "000000010"))))
            == Lin(r, at, "110011110")
  {
    hide Add, Size, Field, Lin;
    LinAdd(r, at, "100000000", "001000000", "101000000");
    LinAdd(r, at, "001000000", "000100000", "001100000");
    LinAdd(r, at, "101000000", "001100000", "100100000");
    LinAdd(r, at, "000100000", "010000000", "010100000");
    LinAdd(r, at, "100100000", "010100000", "110000000");
    LinAdd(r, at, "000010000", "000001000", "000011000");
    LinAdd(r, at, "000000100", "000000010", "000000110");
    LinAdd(r, at, "000011000", "000000110", "000011110");
    LinAdd(r, at, "110000000", "000011110", "110011110");
  }

  // With x1 + x2 + x3 == a the divided differences over (x1, x2) and (x1, x3) agree.
  lemma SameK(r: Ring, a: nat, c: nat, x: nat, y: nat)
    requires BinField(r) && a < Size(r) && c < Size(r) && x < Size(r) && y < Size(r)
    ensures var z := Add(r, Add(r, x, y), a); K(r, a, c, x, y) == K(r, a, c, x, z)
  {
    hide Add, Mul, Size, Field, Lin;
    // z == d + a for d == x + y
    var d := Add(r, x, y);
    var z := Add(r, d, a);
    var xx, yy, aa, xy, ax, ay := Sqr(r, x), Sqr(r, y), Sqr(r, a), Mul(r, x, y), Mul(r, a, x), Mul(r, a, y);
    SqrAdd(r, d, a);
    SqrAdd(r, x, y);
    Distribute(r, x, d, a);
    Distribute(r, x, x, y);
    MulComm(r, x, a);
    Distribute(r, a, x, y);
    Distribute(r, a, x, z);
    Distribute(r, a, d, a);
    var at := [xx, yy, aa, xy, ax, ay, c];
    LinAtom(r, at, 0, "1000000");
    LinAtom(r, at, 1, "0100000");
    LinAtom(r, at, 2, "0010000");
    LinAtom(r, at, 3, "0001000");
    LinAtom(r, at, 4, "0000100");
    LinAtom(r, at, 5, "0000010");
    LinAtom(r, at, 6, "0000001");
    SameKLeft(r, at);
    SameKRight(r, at);
  }

  // (xx + xy) + yy + ((ax + ay) + c)
  lemma SameKLeft(r: Ring, at: seq<nat>)
    requires BinField(r) && |at| == 7 && (forall i :: 0 <= i < 7 ==> at[i] < Size(r))
    ensures Add(r, Add(r, Add(r, Lin(r, at, "1000000"), Lin(r, at, "0001000")), Lin(r, at, "0100000")),
                   Add(r, Add(r, Lin(r, at, "0000100"), Lin(r, at, "0000010")), Lin(r, at, "0000001")))
            == Lin(r, at, "1101111")
  {
    hide Add, Size, Field, Lin;
    LinAdd(r, at, "1000000", "0001000", "1001000");
    LinAdd(r, at, "1001000", "0100000", "1101000");
    LinAdd(r, at, "0000100", "0000010", "0000110");
    LinAdd(r, at, "0000110", "0000001", "0000111");
    LinAdd(r, at, "1101000", "0000111", "1101111");
  }

  // (xx + ((xx + xy) + ax)) + ((xx + yy) + aa) + ((ax + ((ax + ay) + aa)) + c)
  lemma SameKRight(r: Ring, at: seq<nat>)
    requires BinField(r) && |at| == 7 && (forall i :: 0 <= i < 7 ==> at[i] < Size(r))
    ensures Add(r, Add(r, Add(r, Lin(r, at, "1000000"),
                                 Add(r, Add(r, Lin(r, at, "1000000"), Lin(r, at, "0001000")), Lin(r, at, "0000100"))),
                          Add(r, Add(r, Lin(r, at, "1000000"), Lin(r, at, "0100000")), Lin(r, at, "0010000"))),
                   Add(r, Add(r, Lin(r, at, "0000100"),
                                 Add(r, Add(r, Lin(r, at, "0000100"), Lin(r, at, "0000010")), Lin(r, at, "0010000"))),
                          Lin(r, at, "0000001")))
            == Lin(r, at, "1101111")
  {
    hide Add, Size, Field, Lin;
    LinAdd(r, at, "1000000", "0001000", "1001000");
    LinAdd(r, at, "1001000", "0000100", "1001100");
    LinAdd(r, at, "1000000", "1001100", "0001100");
    LinAdd(r, at, "1000000", "0100000", "1100000");
    LinAdd(r, at, "1100000", "0010000", "1110000");
    LinAdd(r, at, "0001100", "1110000", "1111100");
    LinAdd(r, at, "0000100", "0000010", "0000110");
    LinAdd(r, at, "0000110", "0010000", "0010110");
    LinAdd(r, at, "0000100", "0010110", "0010010");
    LinAdd(r, at, "0010010", "0000001", "0010011");
    LinAdd(r, at, "1111100", "0010011", "1101111");
  }

  // ---------------------------------------------------------------- points on a line

  // (x, l x + c) is on the curve exactly when E(x) == 0 for a == A + l^2 + l, b == B + c^2.
  lemma OnLine(cv: Curve, x: nat, l: nat, c: nat)
    requires ValidCurve(cv) && x < Size(cv.r) && l < Size(cv.r) && c < Size(cv.r)
    ensures var r := cv.r;
            var a, b := Add(r, Add(r, Sqr(r, l), l), cv.A), Add(r, cv.B, Sqr(r, c));
            OnCurve(cv, Affine(x, Add(r, Mul(r, l, x), c))) <==> E(r, a, c, b, x) == 0
  {
    hide Add, Mul, Size, Field, Lin;
    var r, xx := cv.r, Sqr(cv.r, x);
    var a, b := Add(r, Add(r, Sqr(r, l), l), cv.A), Add(r, cv.B, Sqr(r, c));
    var y := Add(r, Mul(r, l, x), c);
    LineRight(cv, x, l, c);
    Distribute(r, xx, x, cv.A);
    MulComm(r, xx, x);
    MulComm(r, xx, cv.A);
    DistributeR(r, Add(r, Sqr(r, l), l), cv.A, xx);
    DistributeR(r, Sqr(r, l), l, xx);
    var at := [Mul(r, x, xx), Mul(r, cv.A, xx), cv.B, Mul(r, Sqr(r, l), xx), Mul(r, l, xx), Mul(r, c, x), Sqr(r, c)];
    LinAtom(r, at, 0, "1000000");
    LinAtom(r, at, 1, "0100000");
    LinAtom(r, at, 2, "0010000");
    LinAtom(r, at, 3, "0001000");
    LinAtom(r, at, 4, "0000100");
    LinAtom(r, at, 5, "0000010");
    LinAtom(r, at, 6, "0000001");
    LineLin(r, at);
    var u := Add(r, Mul(r, xx, Add(r, x, cv.A)), cv.B);
    L.SumZero(r, u, Mul(r, Add(r, x, y), y));
  }

  // (x + y) y == ((l^2 x^2 + c^2) + (l x^2 + c x)) for y == l x + c
  lemma LineRight(cv: Curve, x: nat, l: nat, c: nat)
    requires ValidCurve(cv) && x < Size(cv.r) && l < Size(cv.r) && c < Size(cv.r)
    ensures var r, xx := cv.r, Sqr(cv.r, x);
            var y := Add(r, Mul(r, l, x), c);
            Mul(r, Add(r, x, y), y)
            == Add(r, Add(r, Mul(r, l, xx), Mul(r, c, x)), Add(r, Mul(r, Sqr(r, l), xx), Sqr(r, c)))
  {
    hide Add, Mul, Size, Field;
    var r, xx := cv.r, Sqr(cv.r, x);
    var p := Mul(r, l, x);
    var y := Add(r, p, c);
    DistributeR(r, x, y, y);
    SqrAdd(r, p, c);
    SqrMul(r, l, x);
    Distribute(r, x, p, c);
    MulComm(r, x, p);
    MulAssoc(r, l, x, x);
    MulComm(r, x, c);
  }

  lemma LineLin(r: Ring, at: seq<nat>)
    requires BinField(r) && |at| == 7 && (forall i :: 0 <= i < 7 ==> at[i] < Size(r))
    ensures Add(r, Add(r, Add(r, Lin(r, at, "1000000"), Lin(r, at, "0100000")), Lin(r, at, "0010000")),
                   Add(r, Add(r, Lin(r, at, "0000100"), Lin(r, at, "0000010")),
                          Add(r, Lin(r, at, "0001000"), Lin(r, at, "0000001"))))
            == Lin(r, at, "1111111")
    ensures Add(r, Add(r, Lin(r, at, "1000000"),
                          Add(r, Add(r, Lin(r, at, "0001000"), Lin(r, at, "0000100")), Lin(r, at, "0100000"))),
                   Add(r, Lin(r, at, "0000010"), Add(r, Lin(r, at, "0010000"), Lin(r, at, "0000001"))))
            == Lin(r, at, "1111111")
  {
    hide Add, Size, Field, Lin;
    LinAdd(r, at, "1000000", "0100000", "1100000");
    LinAdd(r, at, "1100000", "0010000", "1110000");
    LinAdd(r, at, "0000100", "0000010", "0000110");
    LinAdd(r, at, "0001000", "0000001", "0001001");
    LinAdd(r, at, "0000110", "0001001", "0001111");
    LinAdd(r, at, "1110000", "0001111", "1111111");
    LinAdd(r, at, "0001000", "0000100", "0001100");
    LinAdd(r, at, "0001100", "0100000", "0101100");
    LinAdd(r, at, "1000000", "0101100", "1101100");
    LinAdd(r, at, "0010000", "0000001", "0010001");
    LinAdd(r, at, "0000010", "0010001", "0010011");
    LinAdd(r, at, "1101100", "0010011", "1111111");
  }

  // ec2NegA
  function NegPoint(r: Ring, a: Point): (b: Point)
    requires Valid(r) && PointIn(r, a)
    ensures PointIn(r, b)
  {
    if a.Infinity? then a else Affine(a.x, Add(r, a.x, a.y))
  }

  /** The opposite of a point of the curve is one, and its opposite is the point again. */
  lemma NegOnCurve(cv: Curve, a: Point)
    requires ValidCurve(cv) && PointIn(cv.r, a)
    ensures OnCurve(cv, NegPoint(cv.r, a)) <==> OnCurve(cv, a)
    ensures NegPoint(cv.r, NegPoint(cv.r, a)) == a
  {
    hide Add, Mul, Size, Field;
    if a.Affine? {
      var r := cv.r;
      AddComm(r, a.x, a.y);
      AddTwice(r, a.y, a.x);
      AddComm(r, a.x, Add(r, a.y, a.x));
      MulComm(r, a.y, Add(r, a.x, a.y));
    }
  }

  // The third point of a line through two points, once the divided difference vanishes.
  lemma ThirdOnLine(cv: Curve, x1: nat, x2: nat, l: nat, c: nat)
    requires ValidCurve(cv) && x1 < Size(cv.r) && x2 < Size(cv.r) && l < Size(cv.r) && c < Size(cv.r)
    requires var a := Add(cv.r, Add(cv.r, Sqr(cv.r, l), l), cv.A); K(cv.r, a, c, x1, x2) == 0
    requires OnCurve(cv, Affine(x1, Add(cv.r, Mul(cv.r, l, x1), c)))
    ensures var r := cv.r;
            var x3 := Add(r, Add(r, x1, x2), Add(r, Add(r, Sqr(r, l), l), cv.A));
            OnCurve(cv, Affine(x3, Add(r, Mul(r, l, x3), c)))
  {
    hide Add, Mul, Size, Field, E, K, OnCurve;
    var r := cv.r;
    var a, b := Add(r, Add(r, Sqr(r, l), l), cv.A), Add(r, cv.B, Sqr(r, c));
    var x3 := Add(r, Add(r, x1, x2), a);
    SameK(r, a, c, x1, x2);
    Difference(r, a, c, b, x1, x3);
    MulUnit(r, Add(r, x1, x3));
    OnLine(cv, x1, l, c);
    OnLine(cv, x3, l, c);
    L.SumZero(r, E(r, a, c, b, x1), E(r, a, c, b, x3));
  }

  // The reflected third point, in the two forms in which the code adds its terms.
  lemma Reflected(r: Ring, x1: nat, y1: nat, x3: nat, l: nat)
    requires BinField(r) && x1 < Size(r) && y1 < Size(r) && x3 < Size(r) && l < Size(r)
    ensures var c := Add(r, y1, Mul(r, l, x1));
            var y := Add(r, x3, Add(r, Mul(r, l, x3), c));
            && y == Add(r, Add(r, y1, x3), Mul(r, Add(r, x1, x3), l))
            && y == Add(r, Add(r, y1, Mul(r, l, Add(r, x1, x3))), x3)
  {
    hide Add, Mul, Size, Field, Lin;
    Distribute(r, l, x1, x3);
    MulComm(r, l, Add(r, x1, x3));
    var at := [y1, x3, Mul(r, l, x1), Mul(r, l, x3)];
    LinAtom(r, at, 0, "1000");
    LinAtom(r, at, 1, "0100");
    LinAtom(r, at, 2, "0010");
    LinAtom(r, at, 3, "0001");
    LinAdd(r, at, "1000", "0010", "1010");
    LinAdd(r, at, "0001", "1010", "1011");
    LinAdd(r, at, "0100", "1011", "1111");
    LinAdd(r, at, "1000", "0100", "1100");
    LinAdd(r, at, "0010", "0001", "0011");
    LinAdd(r, at, "1100", "0011", "1111");
    LinAdd(r, at, "1000", "0011", "1011");
    LinAdd(r, at, "1011", "0100", "1111");
  }

  // c == y1 + l x1, so that the line passes through (x1, y1).
  lemma ThroughFirst(r: Ring, x1: nat, y1: nat, l: nat)
    requires BinField(r) && x1 < Size(r) && y1 < Size(r) && l < Size(r)
    ensures var p := Mul(r, l, x1); Add(r, p, Add(r, y1, p)) == y1
  {
    hide Add, Mul, Size, Field;
    var p := Mul(r, l, x1);
    AddTwice(r, y1, p);
    AddComm(r, p, Add(r, y1, p));
  }

  lemma ThroughSecond(r: Ring, x1: nat, y1: nat, x2: nat, y2: nat, l: nat)
    requires BinField(r) && x1 < Size(r) && y1 < Size(r) && x2 < Size(r) && y2 < Size(r) && l < Size(r)
    requires Mul(r, l, Add(r, x1, x2)) == Add(r, y1, y2)
    ensures Add(r, Mul(r, l, x2), Add(r, y1, Mul(r, l, x1))) == y2
  {
    hide Add, Mul, Size, Field;
    var p, q := Mul(r, l, x1), Mul(r, l, x2);
    Distribute(r, l, x1, x2);
    // q + (y1 + p) == (p + q) + y1 == (y1 + y2) + y1
    AddComm(r, y1, p);
    AddAssoc(r, q, p, y1);
    AddComm(r, q, p);
    AddComm(r, y1, y2);
    AddTwice(r, y2, y1);
  }

  lemma ChordOnCurve(cv: Curve, x1: nat, y1: nat, x2: nat, y2: nat)
    requires ValidCurve(cv) && OnCurve(cv, Affine(x1, y1)) && OnCurve(cv, Affine(x2, y2)) && x1 != x2
    ensures x1 < Size(cv.r) && y1 < Size(cv.r) && x2 < Size(cv.r) && y2 < Size(cv.r)
    ensures OnCurve(cv, AddA(cv, Affine(x1, y1), Affine(x2, y2)))
  {
    hide Add, Mul, Size, Field, E, K, OnCurve, Quot;
    InRange(cv, x1, y1);
    InRange(cv, x2, y2);
    var r := cv.r;
    var l := L.ChordSlope(cv, x1, y1, x2, y2);
    var d, c := Add(r, x1, x2), Add(r, y1, Mul(r, l, x1));
    var a, b := Add(r, Add(r, Sqr(r, l), l), cv.A), Add(r, cv.B, Sqr(r, c));
    ThroughFirst(r, x1, y1, l);
    ThroughSecond(r, x1, y1, x2, y2, l);
    OnLine(cv, x1, l, c);
    OnLine(cv, x2, l, c);
    Difference(r, a, c, b, x1, x2);
    L.SumZero(r, E(r, a, c, b, x1), E(r, a, c, b, x2));
    NoZeroDivisors(r, d, K(r, a, c, x1, x2));
    ThirdOnLine(cv, x1, x2, l, c);
    SlopeSum(r, d, l, Sqr(r, l), cv.A);
    var x3 := Add(r, d, a);
    Reflected(r, x1, y1, x3, l);
    NegOnCurve(cv, Affine(x3, Add(r, Mul(r, l, x3), c)));
  }

  // ((d + l) + l^2) + A == d + ((l^2 + l) + A)
  lemma SlopeSum(r: Ring, d: nat, l: nat, ll: nat, A: nat)
    requires BinField(r) && d < Size(r) && l < Size(r) && ll < Size(r) && A < Size(r)
    ensures Add(r, Add(r, Add(r, d, l), ll), A) == Add(r, d, Add(r, Add(r, ll, l), A))
  {
    hide Add, Size, Field;
    AddAssoc(r, d, l, ll);
    AddComm(r, l, ll);
    AddAssoc(r, d, Add(r, ll, l), A);
  }

  lemma InRange(cv: Curve, x: nat, y: nat)
    requires ValidCurve(cv) && OnCurve(cv, Affine(x, y))
    ensures x < Size(cv.r) && y < Size(cv.r)
  {
  }

  lemma TangentOnCurve(cv: Curve, x: nat, y: nat)
    requires ValidCurve(cv) && OnCurve(cv, Affine(x, y)) && x != 0
    ensures x < Size(cv.r) && y < Size(cv.r)
    ensures OnCurve(cv, AddA(cv, Affine(x, y), Affine(x, y)))
  {
    hide Add, Mul, Size, Field, E, K, OnCurve, Quot;
    InRange(cv, x, y);
    var r := cv.r;
    var l := L.TangentSlope(cv, x, y);
    var c := Add(r, y, Mul(r, l, x));
    var a := Add(r, Add(r, Sqr(r, l), l), cv.A);
    ThroughFirst(r, x, y, l);
    TangentK(r, a, c, x, y, l);
    ThirdOnLine(cv, x, x, l, c);
    Double(r, x);
    AddZero(r, a);
    Reflected(r, x, y, a, l);
    NegOnCurve(cv, Affine(a, Add(r, Mul(r, l, a), c)));
  }

  // On the tangent c == x^2 and the divided difference over (x, x) vanishes.
  lemma TangentK(r: Ring, a: nat, c: nat, x: nat, y: nat, l: nat)
    requires BinField(r) && a < Size(r) && x < Size(r) && y < Size(r) && l < Size(r)
    requires c == Add(r, y, Mul(r, l, x)) && Mul(r, l, x) == Add(r, y, Sqr(r, x))
    ensures K(r, a, c, x, x) == 0
  {
    hide Add, Mul, Size, Field;
    var xx := Sqr(r, x);
    AddComm(r, y, Add(r, y, xx));
    AddComm(r, y, xx);
    AddTwice(r, xx, y);
    Double(r, xx);
    Zero(r);
    AddZero(r, xx);
    Double(r, x);
    MulUnit(r, a);
  }

  /** The sum of two points of the curve is a point of the curve. */
  lemma AddOnCurve(cv: Curve, a: Point, b: Point)
    requires ValidCurve(cv) && OnCurve(cv, a) && OnCurve(cv, b)
    ensures PointIn(cv.r, a) && PointIn(cv.r, b) && OnCurve(cv, AddA(cv, a, b))
  {
    hide Add, Mul, Size, Field, Quot;
    if a.Affine? && b.Affine? {
      if a.x != b.x {
        ChordOnCurve(cv, a.x, a.y, b.x, b.y);
      } else if a.y == b.y && a.x != 0 {
        TangentOnCurve(cv, a.x, a.y);
      }
    }
  }
}
