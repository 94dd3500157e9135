/** Points of a curve y^2 + x y = x^3 + A x^2 + B over a binary field: the affine law of
    ec2AddAA, and Lopez-Dahab coordinates x = X / Z, y = Y / Z^2. */
module Ec2Points {
  import opened Qr
  import opened Gf2Field

  datatype Curve = Curve(r: Ring, A: nat, B: nat)
  datatype Point = Infinity | Affine(x: nat, y: nat)
  datatype LD = LD(x: nat, y: nat, z: nat)

  ghost predicate BinField(r: Ring)
  {
    r.Binary? && Valid(r) && Field(r)
  }

  ghost predicate ValidCurve(cv: Curve)
  {
    BinField(cv.r) && cv.A < Size(cv.r) && cv.B < Size(cv.r)
  }

  predicate InField(r: Ring, j: LD)
    requires Valid(r)
  {
    j.x < Size(r) && j.y < Size(r) && j.z < Size(r)
  }

  predicate PointIn(r: Ring, a: Point)
    requires Valid(r)
  {
    a.Affine? ==> a.x < Size(r) && a.y < Size(r)
  }

  // ec2IsOnA: (x + A) x^2 + B == y (y + x)
  predicate OnCurve(cv: Curve, a: Point)
    requires Valid(cv.r) && cv.A < Size(cv.r) && cv.B < Size(cv.r)
  {
    a.Affine? ==>
      && a.x < Size(cv.r) && a.y < Size(cv.r)
      && Add(cv.r, Mul(cv.r, Sqr(cv.r, a.x), Add(cv.r, a.x, cv.A)), cv.B)
         == Mul(cv.r, Add(cv.r, a.x, a.y), a.y)
  }

  // ---------------------------------------------------------------- sums of chosen terms

  // The sum of the terms marked by '1'.
  function Lin(r: Ring, at: seq<nat>, m: string): (c: nat)
    requires Valid(r) && |at| == |m| && forall i :: 0 <= i < |at| ==> at[i] < Size(r)
    ensures c < Size(r)
  {
    if at == [] then 0 else Add(r, if m[0] == '1' then at[0] else 0, Lin(r, at[1..], m[1..]))
  }

  // Marks are added modulo 2.
  predicate Marks(m: string, n: string, k: string)
  {
    |m| == |n| == |k| && forall i :: 0 <= i < |k| ==> ((k[i] == '1') <==> (m[i] == '1') != (n[i] == '1'))
  }

  lemma {:induction false} LinAdd(r: Ring, at: seq<nat>, m: string, n: string, k: string)
    requires Valid(r) && r.Binary? && |at| == |k| && forall i :: 0 <= i < |at| ==> at[i] < Size(r)
    requires Marks(m, n, k)
    ensures Lin(r, at, k) == Add(r, Lin(r, at, m), Lin(r, at, n))
  {
    hide Add, Size;
    if at != [] {
      LinAdd(r, at[1..], m[1..], n[1..], k[1..]);
      var a, b := if m[0] == '1' then at[0] else 0, if n[0] == '1' then at[0] else 0;
      Zero(r);
      AddSwap(r, a, Lin(r, at[1..], m[1..]), b, Lin(r, at[1..], n[1..]));
      Double(r, at[0]);
      AddZero(r, at[0]);
      AddZero(r, 0);
    } else {
      Zero(r);
      AddZero(r, 0);
    }
  }

  lemma Zero(r: Ring)
    requires Valid(r)
    ensures 0 < Size(r)
  {
  }

  lemma {:induction false} LinAtom(r: Ring, at: seq<nat>, i: nat, m: string)
    requires Valid(r) && |at| == |m| && forall i :: 0 <= i < |at| ==> at[i] < Size(r)
    requires i < |m| && forall j :: 0 <= j < |m| ==> ((m[j] == '1') <==> j == i)
    ensures Lin(r, at, m) == at[i]
  {
    hide Add, Size;
    Zero(r);
    if i == 0 {
      LinNone(r, at[1..], m[1..]);
      AddZero(r, at[0]);
    } else {
      LinAtom(r, at[1..], i - 1, m[1..]);
      AddZero(r, at[i]);
    }
  }

  lemma {:induction false} LinNone(r: Ring, at: seq<nat>, m: string)
    requires Valid(r) && |at| == |m| && forall i :: 0 <= i < |at| ==> at[i] < Size(r)
    requires forall j :: 0 <= j < |m| ==> m[j] != '1'
    ensures Lin(r, at, m) == 0
  {
    hide Add, Size;
    Zero(r);
    if at != [] {
      LinNone(r, at[1..], m[1..]);
      AddZero(r, 0);
    }
  }

  // ---------------------------------------------------------------- the affine law

  // The point of slope l: x3 == l^2 + l + d + A with d == x1 + x2, and y3.
  function Third(cv: Curve, x1: nat, y1: nat, d: nat, l: nat): (c: Point)
    requires Valid(cv.r) && cv.A < Size(cv.r) && x1 < Size(cv.r) && y1 < Size(cv.r) && d < Size(cv.r) && l < Size(cv.r)
    ensures c.Affine? && PointIn(cv.r, c)
  {
    var r := cv.r;
    var x3 := Add(r, Add(r, Add(r, d, l), Sqr(r, l)), cv.A);
    Affine(x3, Add(r, Add(r, y1, x3), Mul(r, Add(r, x1, x3), l)))
  }

  /** The sum of two points as ec2AddAA computes it, with O as the neutral element. */
  function AddA(cv: Curve, a: Point, b: Point): (c: Point)
    requires Valid(cv.r) && cv.A < Size(cv.r) && PointIn(cv.r, a) && PointIn(cv.r, b)
    ensures PointIn(cv.r, c)
  {
    var r := cv.r;
    if a.Infinity? then b
    else if b.Infinity? then a
    else if a.x == b.x then
      if a.y != b.y || a.x == 0 then Infinity
      else
        // the code adds the terms in another order
        var l := Add(r, Quot(r, a.y, a.x), a.x);
        var x3 := Add(r, Add(r, Sqr(r, l), l), cv.A);
        Affine(x3, Add(r, Add(r, a.y, Mul(r, l, Add(r, a.x, x3))), x3))
    else Third(cv, a.x, a.y, Add(r, a.x, b.x), Quot(r, Add(r, a.y, b.y), Add(r, a.x, b.x)))
  }

  // ---------------------------------------------------------------- coordinates

  // ec2ToALD
  function ToA(r: Ring, j: LD): (a: Point)
    requires Valid(r)
    ensures PointIn(r, a)
  {
    if j.z == 0 then Infinity
    else
      var t := Inv(r, j.z);
      Affine(Mul(r, j.x, t), Mul(r, j.y, Sqr(r, t)))
  }

  // u w^k: every coordinate is a value of some weight k in w.
  function W(r: Ring, w: nat, u: nat, k: nat): (c: nat)
    requires Valid(r)
    ensures c < Size(r)
  {
    Mul(r, u, Pow(r, w, k))
  }

  lemma WMul(r: Ring, w: nat, u: nat, j: nat, v: nat, k: nat)
    requires Valid(r)
    ensures Mul(r, W(r, w, u, j), W(r, w, v, k)) == W(r, w, Mul(r, u, v), j + k)
  {
    hide Mul, Pow;
    Interchange(r, u, Pow(r, w, j), v, Pow(r, w, k));
    PowAdd(r, w, j, k);
  }

  lemma WAdd(r: Ring, w: nat, u: nat, v: nat, k: nat)
    requires Valid(r) && u < Size(r) && v < Size(r)
    ensures Add(r, W(r, w, u, k), W(r, w, v, k)) == W(r, w, Add(r, u, v), k)
  {
    hide Mul, Pow, Add, Size;
    DistributeR(r, u, v, Pow(r, w, k));
  }

  lemma WOne(r: Ring, w: nat)
    requires Valid(r) && w < Size(r)
    ensures W(r, w, 1, 1) == w && W(r, w, 1, 0) == 1 && Pow(r, w, 0) == 1
  {
    hide Mul, Size;
    MulUnit(r, w);
    UnitIn(r);
    MulUnit(r, 1);
    PowStep(r, w, 0);
  }

  lemma UnitIn(r: Ring)
    requires Valid(r)
    ensures 1 < Size(r)
  {
  }

  lemma FromLD(r: Ring, j: LD)
    requires BinField(r) && InField(r, j) && j.z != 0
    ensures var a := ToA(r, j);
            && a.Affine? && j.x == W(r, j.z, a.x, 1) && j.y == W(r, j.z, a.y, 2)
  {
    hide Mul, Inv, Size, Field;
    var z, t := j.z, Inv(r, j.z);
    InvLaw(r, z);
    WOne(r, z);
    PowTwo(r, z);
    MulAssoc(r, j.x, t, z);
    MulUnit(r, j.x);
    Interchange(r, t, t, z, z);
    UnitIn(r);
    MulUnit(r, 1);
    MulAssoc(r, j.y, Sqr(r, t), Sqr(r, z));
    MulUnit(r, j.y);
  }

  lemma PowTwo(r: Ring, z: nat)
    requires Valid(r) && z < Size(r)
    ensures Pow(r, z, 1) == z && Pow(r, z, 2) == Sqr(r, z)
  {
    hide Mul, Size;
    MulUnit(r, z);
    PowStep(r, z, 0);
    PowStep(r, z, 1);
    PowZero(r, z);
  }

  lemma PowZero(r: Ring, z: nat)
    requires Valid(r)
    ensures Pow(r, z, 0) == 1
  {
  }

  // Coordinates of the right shape convert to the expected affine point.
  lemma ToLD(r: Ring, j: LD, x: nat, y: nat)
    requires BinField(r) && InField(r, j) && j.z != 0 && x < Size(r) && y < Size(r)
    requires j.x == Mul(r, x, j.z) && j.y == Mul(r, y, Sqr(r, j.z))
    ensures ToA(r, j) == Affine(x, y)
  {
    hide Mul, Inv, Size, Field;
    FromLD(r, j);
    PowTwo(r, j.z);
    SqrNonzero(r, j.z);
    var a := ToA(r, j);
    MulCancel(r, a.x, x, j.z);
    MulCancel(r, a.y, y, Sqr(r, j.z));
  }

  // A value in front of a weighted one.
  lemma WFront(r: Ring, w: nat, u: nat, v: nat, k: nat)
    requires Valid(r)
    ensures Mul(r, u, W(r, w, v, k)) == W(r, w, Mul(r, u, v), k)
  {
    hide Mul, Pow;
    MulAssoc(r, u, v, Pow(r, w, k));
  }

  /** All formulas end alike: Z3 == d w^k, X3 == x3 d w^k and Y3 == y3 d^2 w^2k. */
  lemma Finish(r: Ring, j: LD, w: nat, d: nat, k: nat, x: nat, y: nat)
    requires BinField(r) && InField(r, j) && 0 < w < Size(r) && 0 < d < Size(r) && x < Size(r) && y < Size(r)
    requires j.z == W(r, w, d, k) && j.x == W(r, w, Mul(r, x, d), k) && j.y == W(r, w, Mul(r, y, Sqr(r, d)), k + k)
    ensures j.z != 0 && ToA(r, j) == Affine(x, y)
  {
    hide Mul, Inv, Size, Field, Pow;
    PowNonzero(r, w, k);
    if j.z == 0 {
      NoZeroDivisors(r, d, Pow(r, w, k));
    }
    WFront(r, w, x, d, k);
    WMul(r, w, d, k, d, k);
    WFront(r, w, y, Sqr(r, d), k + k);
    ToLD(r, j, x, y);
  }
}
