/** Compression of curve points (DSTU 4145-2002): the x-coordinate with its lowest bit
    replaced by the trace of y / x. */
module DstuPoint {
  import opened Qr
  import opened Gf2Field
  import opened PowersOfTwo
  import P = Gf2Poly

  // DivisionByZero: qrDiv called outside its precondition.
  datatype Err = Ok | BadPoint | BadParams | DivisionByZero

  // y^2 + xy = x^3 + A x^2 + B over a binary field of odd degree m
  datatype Curve = Curve(r: Ring, m: nat, A: nat, B: nat)

  // What dstuPointRecover leaves in the output buffer.
  datatype Output = Nothing | Point(x: nat, y: nat) | RootOnly(at: nat, y: nat)

  ghost predicate ValidCurve(c: Curve)
  {
    BinaryField(c.r, c.m) && c.m % 2 == 1 && c.A < 2 && 0 < c.B < Size(c.r)
  }

  predicate OnCurve(c: Curve, x: nat, y: nat)
    requires Valid(c.r) && c.A < Size(c.r) && c.B < Size(c.r)
  {
    && x < Size(c.r) && y < Size(c.r)
    && Add(c.r, Mul(c.r, Sqr(c.r, x), Add(c.r, x, c.A)), c.B) == Mul(c.r, y, Add(c.r, x, y))
  }

  // The right-hand side of the equation for y / x.
  function Target(c: Curve, x: nat): (t: nat)
    requires Valid(c.r) && c.A < Size(c.r) && c.B < Size(c.r) && x < Size(c.r)
    ensures t < Size(c.r)
  {
    Add(c.r, Add(c.r, Quot(c.r, c.B, Sqr(c.r, x)), x), c.A)
  }

  /** (x, y) is a point of the odd-order subgroup's kind (tr x = A) that xp encodes. */
  ghost predicate Encodes(c: Curve, xp: nat, x: nat, y: nat)
    requires ValidCurve(c)
  {
    && OnCurve(c, x, y) && x != 0
    && Trace(c.r, x) == c.A
    && x / 2 == xp / 2
    && Trace(c.r, Quot(c.r, y, x)) == xp % 2
  }

  // ---------------------------------------------------------------- points and roots

  // For x != 0, (x, zx) is on the curve exactly when z^2 + z == x + A + B / x^2.
  lemma CurveIffRoot(c: Curve, x: nat, z: nat)
    requires ValidCurve(c) && 0 < x < Size(c.r) && z < Size(c.r)
    ensures OnCurve(c, x, Mul(c.r, z, x)) <==> Add(c.r, Sqr(c.r, z), z) == Target(c, x)
  {
    hide Mul, Size, Add, Field, Quot, Sqr;
    var r, y, s := c.r, Mul(c.r, z, x), Sqr(c.r, x);
    SqrNonzero(r, x);
    LeftSide(c, x, z);
    RightSide(c, x);
    if Mul(r, Add(r, Sqr(r, z), z), s) == Mul(r, Target(c, x), s) {
      MulCancel(r, Add(r, Sqr(r, z), z), Target(c, x), s);
    }
  }

  lemma LeftSide(c: Curve, x: nat, z: nat)
    requires ValidCurve(c) && x < Size(c.r) && z < Size(c.r)
    ensures var y := Mul(c.r, z, x);
            Mul(c.r, y, Add(c.r, x, y)) == Mul(c.r, Add(c.r, Sqr(c.r, z), z), Sqr(c.r, x))
  {
    hide Mul, Size, Add, Field;
    var r, y := c.r, Mul(c.r, z, x);
    Distribute(r, y, x, y);
    Normalized(r, x, z);
    MulComm(r, x, y);
    AddComm(r, Sqr(r, y), Mul(r, x, y));
  }

  lemma RightSide(c: Curve, x: nat)
    requires ValidCurve(c) && 0 < x < Size(c.r)
    ensures var s := Sqr(c.r, x);
            Mul(c.r, Target(c, x), s) == Add(c.r, Mul(c.r, s, Add(c.r, x, c.A)), c.B)
  {
    hide Mul, Size, Add, Field, Quot, Sqr;
    var r, s := c.r, Sqr(c.r, x);
    var q := Quot(r, c.B, s);
    SqrNonzero(r, x);
    QuotLaw(r, c.B, s);
    AddAssoc(r, q, x, c.A);
    DistributeR(r, q, Add(r, x, c.A), s);
    MulComm(r, s, Add(r, x, c.A));
    AddComm(r, c.B, Mul(r, s, Add(r, x, c.A)));
  }

  // The lowest bit is determined by the trace, the rest by the code.
  lemma SameX(c: Curve, x: nat, x': nat)
    requires ValidCurve(c) && x < Size(c.r) && x' < Size(c.r)
    requires x / 2 == x' / 2 && Trace(c.r, x) == Trace(c.r, x')
    ensures x == x'
  {
    hide Mul, Size, Field, Trace;
    var e := 2 * (x / 2);
    EvenPlusOne(c, e);
    if x != x' {
      TraceFlip(c.r, c.m, e);
    }
  }

  lemma EvenPlusOne(c: Curve, e: nat)
    requires ValidCurve(c) && e < Size(c.r) && e % 2 == 0
    ensures Add(c.r, e, 1) == e + 1
  {
    hide P.Add;
    P.AppendBit(e / 2, 1);
  }

  /** A code determines its point. */
  lemma EncodesUnique(c: Curve, xp: nat, x: nat, y: nat, x': nat, y': nat)
    requires ValidCurve(c) && Encodes(c, xp, x, y) && Encodes(c, xp, x', y')
    ensures x == x' && y == y'
  {
    hide Mul, Size, Add, Field, Quot, Sqr, Trace, Target, OnCurve;
    PointRange(c, x, y);
    PointRange(c, x', y');
    SameX(c, x, x');
    var r, z, w := c.r, Quot(c.r, y, x), Quot(c.r, y', x);
    QuotLaw(r, y, x);
    QuotLaw(r, y', x);
    CurveIffRoot(c, x, z);
    CurveIffRoot(c, x, w);
    TwoRoots(r, z, w);
    if z != w {
      TraceFlip(r, c.m, w);
    }
  }

  lemma PointRange(c: Curve, x: nat, y: nat)
    requires ValidCurve(c) && OnCurve(c, x, y)
    ensures x < Size(c.r) && y < Size(c.r)
  {
  }

  // ---------------------------------------------------------------- compression

  // old: what the output buffer held before the call
  method Compress(c: Curve, x: nat, y: nat, old': nat) returns (code: Err, xp: nat)
    requires ValidCurve(c)
    ensures code == if x < Size(c.r) && y < Size(c.r) then Ok else BadPoint
    ensures code != Ok || x == 0 ==> xp == old'
    ensures code == Ok && x != 0 ==> xp / 2 == x / 2 && xp % 2 == Trace(c.r, Quot(c.r, y, x))
  {
    hide Mul, Size, Add, Field, Quot, Sqr, Trace;
    if x >= Size(c.r) || y >= Size(c.r) {
      return BadPoint, old';
    }
    if x == 0 {
      return Ok, old';
    }
    var t := Quot(c.r, y, x);
    xp := x - x % 2;
    var bit := Tr(c.r, c.m, t);
    xp := xp + if bit then 1 else 0;
    code := Ok;
  }

  // ---------------------------------------------------------------- recovery

  lemma PointGivesRoot(c: Curve, xp: nat, x: nat, x': nat, y': nat)
    requires ValidCurve(c) && 0 < x < Size(c.r)
    requires x / 2 == xp / 2 && Trace(c.r, x) == c.A
    requires Encodes(c, xp, x', y')
    ensures Solves(c.r, 1, Target(c, x), Quot(c.r, y', x))
  {
    hide Mul, Size, Add, Field, Quot, Sqr, Trace, Target, OnCurve;
    PointRange(c, x', y');
    SameX(c, x, x');
    var z := Quot(c.r, y', x);
    QuotLaw(c.r, y', x);
    CurveIffRoot(c, x, z);
    MulUnit(c.r, z);
  }

  lemma NoRootNoPoint(c: Curve, xp: nat, x: nat)
    requires ValidCurve(c) && 0 < x < Size(c.r)
    requires x / 2 == xp / 2 && Trace(c.r, x) == c.A
    requires forall z :: !Solves(c.r, 1, Target(c, x), z)
    ensures forall x', y' :: !Encodes(c, xp, x', y')
  {
    hide Solves, Encodes, Target, Trace, Size;
    forall x', y' | Encodes(c, xp, x', y')
      ensures false
    {
      PointGivesRoot(c, xp, x, x', y');
    }
  }

  lemma RootGivesPoint(c: Curve, xp: nat, x: nat, z: nat)
    requires ValidCurve(c) && 0 < x < Size(c.r)
    requires x / 2 == xp / 2 && Trace(c.r, x) == c.A
    requires Solves(c.r, 1, Target(c, x), z)
    ensures Trace(c.r, z) == xp % 2 ==> Encodes(c, xp, x, Mul(c.r, x, z))
    ensures Trace(c.r, z) != xp % 2 ==> Encodes(c, xp, x, Add(c.r, Mul(c.r, x, z), x))
  {
    hide Mul, Size, Add, Field, Quot, Sqr, Trace, Target, OnCurve;
    var r, w := c.r, Add(c.r, z, 1);
    MulUnit(r, z);
    MulComm(r, x, z);
    QuotLaw(r, z, x);
    CurveIffRoot(c, x, z);
    // the other root
    SqrAdd(r, z, 1);
    SqrIs(r, 1);
    MulUnit(r, 1);
    AddSwap(r, Sqr(r, z), 1, z, 1);
    Double(r, 1);
    AddZero(r, Add(r, Sqr(r, z), z));
    CurveIffRoot(c, x, w);
    DistributeR(r, z, 1, x);
    MulUnit(r, x);
    QuotLaw(r, w, x);
    TraceFlip(r, c.m, z);
    TraceBit(r, c.m, z);
  }

  /** n: the words of an element. For the code 0 the root goes to the octet n of the output,
      and nothing else is written; the y-coordinate of a point starts behind the octets of x. */
  method Recover(c: Curve, n: nat, xp: nat) returns (code: Err, out: Output)
    requires ValidCurve(c)
    ensures code == BadPoint <==> xp >= Size(c.r)
    ensures xp == 0 ==> code == Ok && out.RootOnly? && out.at == n && out.y < Size(c.r) && Sqr(c.r, out.y) == c.B
    ensures code == DivisionByZero <==> xp == 1 && c.A == 0
    ensures code == Ok && xp != 0 ==> out.Point? && Encodes(c, xp, out.x, out.y)
    ensures code == BadParams || code == DivisionByZero ==> forall x, y :: !Encodes(c, xp, x, y)
  {
    hide Mul, Size, Add, Field, Quot, Sqr, Trace, Solves, OnCurve;
    out := Nothing;
    if xp >= Size(c.r) {
      return BadPoint, out;
    }
    var r, m := c.r, c.m;
    if xp == 0 {
      var b: nat := c.B;
      var k: nat := m - 1;
      while k > 0
        invariant k < m && b == SqrTimes(r, c.B, m - 1 - k)
      {
        b := Sqr(r, b);
        k := k - 1;
      }
      RootLaw(r, m, c.B);
      return Ok, RootOnly(n, b);
    }
    // restore the lowest bit of x
    var trace := xp % 2;
    var x: nat := xp - xp % 2;
    EvenPlusOne(c, x);
    TraceFlip(r, m, x);
    TraceBit(r, m, x);
    TraceOne(r, m);
    var t := Tr(r, m, x);
    if t != (c.A == 1) {
      x := x + 1;
    }
    if x == 0 {
      NoZeroPoint(c, xp);
      return DivisionByZero, out;
    }
    // y <- x + A + B / x^2
    var y: nat := Sqr(r, x);
    y := Quot(r, c.B, y);
    y := Add(r, y, x);
    if c.A == 1 {
      y := Add(r, y, 1);
    } else {
      AddZero(r, y);
    }
    assert y == Target(c, x);
    var ok, z := QSolve(r, m, 1, y);
    if !ok {
      NoRootNoPoint(c, xp, x);
      return BadParams, out;
    }
    RootGivesPoint(c, xp, x, z);
    TraceBit(r, m, z);
    t := Tr(r, m, z);
    y := Mul(r, x, z);
    if t != (trace == 1) {
      y := Add(r, y, x);
    }
    return Ok, Point(x, y);
  }

  // With A = 0 no point has the x-coordinate 1 and trace 0.
  lemma NoZeroPoint(c: Curve, xp: nat)
    requires ValidCurve(c) && xp == 1 && c.A == 0
    ensures forall x, y :: !Encodes(c, xp, x, y)
  {
    hide Mul, Size, Add, Field, Quot, Sqr, Trace, OnCurve;
    TraceOne(c.r, c.m);
  }

  // ---------------------------------------------------------------- the round trip

  /** Recovery undoes compression exactly for the points with x != 0 and tr x = A, except
      that x = 1 with tr(y / x) = 0 compresses to 0 and is taken for the point of order 2. */
  method CompressThenRecover(c: Curve, n: nat, x: nat, y: nat, old': nat) returns (code: Err, out: Output)
    requires ValidCurve(c) && OnCurve(c, x, y)
    ensures code == Ok && out == Point(x, y)
            <==> x != 0 && Trace(c.r, x) == c.A && !(x == 1 && Trace(c.r, Quot(c.r, y, x)) == 0)
  {
    hide Mul, Size, Add, Field, Quot, Sqr, Trace, OnCurve;
    PointRange(c, x, y);
    var xp;
    code, xp := Compress(c, x, y, old');
    code, out := Recover(c, n, xp);
    if x != 0 && Trace(c.r, x) == c.A && xp != 0 {
      assert Encodes(c, xp, x, y);
      assert xp < Size(c.r) by {
        CodeRange(c, x, xp);
      }
      EncodesUnique(c, xp, x, y, out.x, out.y);
    }
  }

  lemma CodeRange(c: Curve, x: nat, xp: nat)
    requires ValidCurve(c) && x < Size(c.r) && xp / 2 == x / 2
    ensures xp < Size(c.r)
  {
    hide Pow2;
    Pow2Step(c.m - 1);
    HalfBound(x, xp, Pow2(c.m - 1));
  }

  lemma HalfBound(x: nat, xp: nat, h: nat)
    requires x < 2 * h && xp / 2 == x / 2
    ensures xp < 2 * h
  {
  }
}
