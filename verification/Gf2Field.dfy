/** Traces and quadratic equations in the binary field GF(2)[x]/(f), deg f odd
    (DSTU 4145-2002, section 6.7). */
module Gf2Field {
  import opened Qr
  import opened PowersOfTwo
  import P = Gf2Poly

  // A binary field of extension degree m.
  ghost predicate BinaryField(r: Ring, m: nat)
  {
    r.Binary? && Valid(r) && Field(r) && m == P.Deg(r.f) && m > 0 && Size(r) == Pow2(m)
  }

  function Sqr(r: Ring, a: nat): (c: nat)
    requires Valid(r)
    ensures c < Size(r)
  {
    Mul(r, a, a)
  }

  // a^(2^n) by repeated squaring
  function SqrTimes(r: Ring, a: nat, n: nat): (c: nat)
    requires Valid(r) && a < Size(r)
    ensures c < Size(r)
  {
    if n == 0 then a else Sqr(r, SqrTimes(r, a, n - 1))
  }

  // a + a^2 + a^4 + ... (n summands)
  function TraceSum(r: Ring, a: nat, n: nat): (c: nat)
    requires Valid(r) && a < Size(r)
    ensures c < Size(r)
  {
    if n == 0 then 0 else Add(r, SqrTimes(r, a, n - 1), TraceSum(r, a, n - 1))
  }

  ghost function Trace(r: Ring, a: nat): (c: nat)
    requires Valid(r) && r.Binary? && a < Size(r)
    ensures c < Size(r)
  {
    TraceSum(r, a, P.Deg(r.f))
  }

  // ---------------------------------------------------------------- addition in characteristic 2

  lemma Double(r: Ring, a: nat)
    requires Valid(r) && r.Binary? && a < Size(r)
    ensures Add(r, a, a) == 0
  {
    hide P.Add;
    P.AddSelf(a);
  }

  lemma AddComm(r: Ring, a: nat, b: nat)
    requires Valid(r) && a < Size(r) && b < Size(r)
    ensures Add(r, a, b) == Add(r, b, a)
  {
    hide Add, Size;
    AddLaws(r, a, b, a);
  }

  lemma AddAssoc(r: Ring, a: nat, b: nat, c: nat)
    requires Valid(r) && a < Size(r) && b < Size(r) && c < Size(r)
    ensures Add(r, Add(r, a, b), c) == Add(r, a, Add(r, b, c))
  {
    hide Add, Size;
    AddLaws(r, a, b, c);
  }

  lemma AddZero(r: Ring, a: nat)
    requires Valid(r) && a < Size(r)
    ensures Add(r, a, 0) == a && Add(r, 0, a) == a
  {
    hide Add, Size;
    AddLaws(r, a, 0, 0);
  }

  // (a + b) + b == a
  lemma AddTwice(r: Ring, a: nat, b: nat)
    requires Valid(r) && r.Binary? && a < Size(r) && b < Size(r)
    ensures Add(r, Add(r, a, b), b) == a
  {
    hide Add, Size;
    AddAssoc(r, a, b, b);
    Double(r, b);
    AddZero(r, a);
  }

  // (a + b) + (c + d) == (a + c) + (b + d)
  lemma AddSwap(r: Ring, a: nat, b: nat, c: nat, d: nat)
    requires Valid(r) && a < Size(r) && b < Size(r) && c < Size(r) && d < Size(r)
    ensures Add(r, Add(r, a, b), Add(r, c, d)) == Add(r, Add(r, a, c), Add(r, b, d))
  {
    hide Add, Size;
    AddAssoc(r, a, b, Add(r, c, d));
    AddAssoc(r, b, c, d);
    AddComm(r, b, c);
    AddAssoc(r, c, b, d);
    AddAssoc(r, a, c, Add(r, b, d));
  }

  lemma DistributeR(r: Ring, a: nat, b: nat, c: nat)
    requires Valid(r) && a < Size(r) && b < Size(r)
    ensures Mul(r, Add(r, a, b), c) == Add(r, Mul(r, a, c), Mul(r, b, c))
  {
    hide Add, Size, Mul;
    MulComm(r, Add(r, a, b), c);
    MulComm(r, a, c);
    MulComm(r, b, c);
    Distribute(r, c, a, b);
  }

  // Squaring is additive.
  lemma SqrAdd(r: Ring, a: nat, b: nat)
    requires Valid(r) && r.Binary? && a < Size(r) && b < Size(r)
    ensures Sqr(r, Add(r, a, b)) == Add(r, Sqr(r, a), Sqr(r, b))
  {
    hide Add, Size, Mul;
    var ab := Mul(r, a, b);
    MulComm(r, a, b);
    DistributeR(r, a, b, Add(r, a, b));
    Distribute(r, a, a, b);
    Distribute(r, b, a, b);
    // (aa + ab) + (ab + bb)
    AddAssoc(r, Sqr(r, a), ab, Add(r, ab, Sqr(r, b)));
    AddComm(r, ab, Sqr(r, b));
    AddComm(r, ab, Add(r, Sqr(r, b), ab));
    AddTwice(r, Sqr(r, b), ab);
  }

  lemma SqrMul(r: Ring, a: nat, b: nat)
    requires Valid(r)
    ensures Sqr(r, Mul(r, a, b)) == Mul(r, Sqr(r, a), Sqr(r, b))
  {
    hide Mul;
    Interchange(r, a, b, a, b);
  }

  // ---------------------------------------------------------------- the Frobenius map

  lemma {:induction false} SqrTimesPow(r: Ring, a: nat, n: nat)
    requires Valid(r) && a < Size(r)
    ensures SqrTimes(r, a, n) == Pow(r, a, Pow2(n))
  {
    hide Mul, Size;
    if n == 0 {
      MulUnit(r, a);
      assert Pow(r, a, 1) == Mul(r, a, Pow(r, a, 0));
    } else {
      SqrTimesPow(r, a, n - 1);
      var k := Pow2(n - 1);
      assert Pow2(n) == k + k;
      PowAdd(r, a, k, k);
    }
  }

  // a^(2^m) == a
  lemma FrobeniusFixed(r: Ring, m: nat, a: nat)
    requires BinaryField(r, m) && a < Size(r)
    ensures SqrTimes(r, a, m) == a
  {
    hide Mul, Field, SqrTimes;
    SqrTimesPow(r, a, m);
    if a == 0 {
      PowOne(r, Pow2(m));
    } else {
      Fermat(r, a);
      MulUnit(r, a);
      assert Pow(r, a, Size(r)) == Mul(r, a, Pow(r, a, Size(r) - 1));
    }
  }

  lemma {:induction false} SqrTimesAdd(r: Ring, a: nat, b: nat, n: nat)
    requires Valid(r) && r.Binary? && a < Size(r) && b < Size(r)
    ensures SqrTimes(r, Add(r, a, b), n) == Add(r, SqrTimes(r, a, n), SqrTimes(r, b, n))
  {
    hide Mul, Size, Add, Sqr;
    if n > 0 {
      SqrTimesAdd(r, a, b, n - 1);
      SqrAdd(r, SqrTimes(r, a, n - 1), SqrTimes(r, b, n - 1));
    }
  }

  lemma {:induction false} SqrTimesOfSqr(r: Ring, a: nat, n: nat)
    requires Valid(r) && a < Size(r)
    ensures SqrTimes(r, Sqr(r, a), n) == SqrTimes(r, a, n + 1)
  {
    hide Mul, Size, Sqr;
    if n > 0 {
      SqrTimesOfSqr(r, a, n - 1);
    }
  }

  // ---------------------------------------------------------------- the trace

  // t^2 + a appends one summand
  lemma {:induction false} TraceSumStep(r: Ring, a: nat, n: nat)
    requires Valid(r) && r.Binary? && a < Size(r)
    ensures Add(r, Sqr(r, TraceSum(r, a, n)), a) == TraceSum(r, a, n + 1)
  {
    hide Mul, Size, Add, Sqr;
    if n == 0 {
      assert Sqr(r, 0) == 0 by {
        SqrIs(r, 0);
        MulUnit(r, 0);
      }
      AddZero(r, a);
      assert TraceSum(r, a, 1) == Add(r, SqrTimes(r, a, 0), TraceSum(r, a, 0));
    } else {
      TraceSumStep(r, a, n - 1);
      var t, s := TraceSum(r, a, n - 1), SqrTimes(r, a, n - 1);
      SqrAdd(r, s, t);
      AddAssoc(r, Sqr(r, s), Sqr(r, t), a);
    }
  }

  lemma SqrIs(r: Ring, a: nat)
    requires Valid(r)
    ensures Sqr(r, a) == Mul(r, a, a)
  {
  }

  lemma {:induction false} TraceSumAdd(r: Ring, a: nat, b: nat, n: nat)
    requires Valid(r) && r.Binary? && a < Size(r) && b < Size(r)
    ensures TraceSum(r, Add(r, a, b), n) == Add(r, TraceSum(r, a, n), TraceSum(r, b, n))
  {
    hide Mul, Size, Add, SqrTimes;
    if n == 0 {
      AddZero(r, 0);
    } else {
      TraceSumAdd(r, a, b, n - 1);
      SqrTimesAdd(r, a, b, n - 1);
      AddSwap(r, SqrTimes(r, a, n - 1), SqrTimes(r, b, n - 1), TraceSum(r, a, n - 1), TraceSum(r, b, n - 1));
    }
  }

  // The trace of a square is the trace: the summands are rotated.
  lemma {:induction false} TraceSumSqr(r: Ring, a: nat, n: nat)
    requires Valid(r) && r.Binary? && a < Size(r)
    ensures Add(r, TraceSum(r, Sqr(r, a), n), a) == Add(r, SqrTimes(r, a, n), TraceSum(r, a, n))
  {
    hide Mul, Size, Add, Sqr;
    if n == 0 {
      AddZero(r, a);
    } else {
      TraceSumSqr(r, a, n - 1);
      SqrTimesOfSqr(r, a, n - 1);
      var s := SqrTimes(r, a, n);
      AddAssoc(r, s, TraceSum(r, Sqr(r, a), n - 1), a);
    }
  }

  lemma TraceBit(r: Ring, m: nat, a: nat)
    requires BinaryField(r, m) && a < Size(r)
    ensures Trace(r, a) == 0 || Trace(r, a) == 1
  {
    hide Mul, Size, Add, Sqr, Field, SqrTimes, TraceSum;
    var t := TraceSum(r, a, m);
    TraceSumStep(r, a, m);
    TraceNext(r, m, a);
    AddComm(r, a, t);
    AddCancel(r, Sqr(r, t), t, a);
    SqrIs(r, t);
    MulUnit(r, t);
    if t != 0 {
      MulCancel(r, t, 1, t);
    }
  }

  // One summand more than the trace has: the last one is a again.
  lemma TraceNext(r: Ring, m: nat, a: nat)
    requires BinaryField(r, m) && a < Size(r)
    ensures TraceSum(r, a, m + 1) == Add(r, a, TraceSum(r, a, m))
  {
    hide Mul, Add, Sqr, Field, SqrTimes;
    FrobeniusFixed(r, m, a);
  }

  lemma TraceAdd(r: Ring, m: nat, a: nat, b: nat)
    requires BinaryField(r, m) && a < Size(r) && b < Size(r)
    ensures Trace(r, Add(r, a, b)) == Add(r, Trace(r, a), Trace(r, b))
  {
    hide Mul, Add, Sqr, Field, TraceSum;
    TraceSumAdd(r, a, b, m);
  }

  lemma TraceSqr(r: Ring, m: nat, a: nat)
    requires BinaryField(r, m) && a < Size(r)
    ensures Trace(r, Sqr(r, a)) == Trace(r, a)
  {
    hide Mul, Size, Add, Sqr, Field, SqrTimes, TraceSum;
    TraceSumSqr(r, a, m);
    FrobeniusFixed(r, m, a);
    AddComm(r, a, TraceSum(r, a, m));
    AddCancel(r, Trace(r, Sqr(r, a)), Trace(r, a), a);
  }

  // z^2 + z always has trace 0.
  lemma TraceArtinSchreier(r: Ring, m: nat, z: nat)
    requires BinaryField(r, m) && z < Size(r)
    ensures Trace(r, Add(r, Sqr(r, z), z)) == 0
  {
    hide Mul, Size, Add, Sqr, Field, Trace;
    TraceAdd(r, m, Sqr(r, z), z);
    TraceSqr(r, m, z);
    Double(r, Trace(r, z));
  }

  lemma {:induction false} TraceSumOne(r: Ring, n: nat)
    requires Valid(r) && r.Binary?
    ensures TraceSum(r, 1, n) == n % 2
  {
    hide Mul, Size, Add, Sqr;
    if n > 0 {
      TraceSumOne(r, n - 1);
      SqrTimesOne(r, n - 1);
      AddZero(r, 1);
      Double(r, 1);
    }
  }

  lemma {:induction false} SqrTimesOne(r: Ring, n: nat)
    requires Valid(r)
    ensures SqrTimes(r, 1, n) == 1
  {
    hide Mul, Size, Sqr;
    if n > 0 {
      SqrTimesOne(r, n - 1);
      SqrIs(r, 1);
      MulUnit(r, 1);
    }
  }

  // Adding 1 flips the trace when the degree is odd.
  lemma TraceFlip(r: Ring, m: nat, a: nat)
    requires BinaryField(r, m) && m % 2 == 1 && a < Size(r)
    ensures Trace(r, Add(r, a, 1)) == 1 - Trace(r, a)
  {
    hide Mul, Size, Add, Sqr, Field, Trace;
    TraceAdd(r, m, a, 1);
    TraceOne(r, m);
    TraceBit(r, m, a);
    AddZero(r, 1);
    Double(r, 1);
  }

  lemma TraceOne(r: Ring, m: nat)
    requires BinaryField(r, m)
    ensures Trace(r, 1) == m % 2 && Trace(r, 0) == 0
  {
    hide Mul, Size, Add, Sqr, Field, TraceSum;
    TraceSumOne(r, m);
    AddZero(r, 0);
    TraceAdd(r, m, 0, 0);
    Double(r, Trace(r, 0));
  }

  // ---------------------------------------------------------------- the half-trace

  // a + a^4 + a^16 + ... (n + 1 summands)
  function HalfTrace(r: Ring, a: nat, n: nat): (c: nat)
    requires Valid(r) && a < Size(r)
    ensures c < Size(r)
  {
    if n == 0 then a else Add(r, Sqr(r, Sqr(r, HalfTrace(r, a, n - 1))), a)
  }

  lemma {:induction false} HalfTraceSum(r: Ring, a: nat, n: nat)
    requires Valid(r) && r.Binary? && a < Size(r)
    ensures var h := HalfTrace(r, a, n); Add(r, Sqr(r, h), h) == TraceSum(r, a, 2 * n + 2)
  {
    hide Mul, Size, Add, Sqr, TraceSum;
    TraceSumStep(r, a, 2 * n + 1);
    TraceSumStep(r, a, 2 * n);
    if n == 0 {
      TraceSumFirst(r, a);
    } else {
      HalfTraceSum(r, a, n - 1);
      HalfTraceStep(r, a, HalfTrace(r, a, n - 1), TraceSum(r, a, 2 * n));
    }
  }

  lemma TraceSumFirst(r: Ring, a: nat)
    requires Valid(r) && r.Binary? && a < Size(r)
    ensures TraceSum(r, a, 1) == a
  {
    hide Mul, Size, Add, Sqr;
    AddZero(r, a);
    assert TraceSum(r, a, 1) == Add(r, SqrTimes(r, a, 0), TraceSum(r, a, 0));
  }

  // From h^2 + h == s for h to the same for h^4 + a.
  lemma HalfTraceStep(r: Ring, a: nat, h: nat, s: nat)
    requires Valid(r) && r.Binary? && a < Size(r) && h < Size(r) && s == Add(r, Sqr(r, h), h)
    ensures var k := Add(r, Sqr(r, Sqr(r, h)), a);
            Add(r, Sqr(r, k), k) == Add(r, Sqr(r, Add(r, Sqr(r, s), a)), a)
  {
    hide Mul, Size, Add, Sqr;
    var q := Sqr(r, Sqr(r, h));
    SqrAdd(r, Sqr(r, h), h);
    SqrAdd(r, q, Sqr(r, h));
    SqrAdd(r, Sqr(r, h), h);
    // s^4 == q^2 + q, and both sides are q^2 + q + a^2 + a
    SqrAdd(r, Sqr(r, Sqr(r, h)), Sqr(r, h));
    SqrAdd(r, Sqr(r, s), a);
    SqrAdd(r, q, a);
    AddSwap(r, Sqr(r, q), Sqr(r, a), q, a);
    AddAssoc(r, Sqr(r, Sqr(r, s)), Sqr(r, a), a);
  }

  /** In odd degree the half-trace solves z^2 + z == a whenever the trace of a is 0. */
  lemma HalfTraceSolves(r: Ring, m: nat, a: nat)
    requires BinaryField(r, m) && m % 2 == 1 && a < Size(r) && Trace(r, a) == 0
    ensures var h := HalfTrace(r, a, (m - 1) / 2); Add(r, Sqr(r, h), h) == a
  {
    hide Mul, Size, Add, Sqr, Field, TraceSum, HalfTrace;
    var n := (m - 1) / 2;
    assert 2 * n + 2 == m + 1;
    HalfTraceSum(r, a, n);
    TraceNext(r, m, a);
    AddZero(r, a);
  }

  // ---------------------------------------------------------------- gf2Tr and gf2QSolve

  method Tr(r: Ring, m: nat, a: nat) returns (bit: bool)
    requires BinaryField(r, m) && a < Size(r)
    ensures bit <==> Trace(r, a) == 1
    ensures !bit <==> Trace(r, a) == 0
  {
    hide Mul, Size, Add, Sqr, Field, TraceSum;
    var t: nat := a;
    TraceSumFirst(r, a);
    var k: nat := m - 1;
    while k > 0
      invariant k < m && t == TraceSum(r, a, m - k)
    {
      TraceSumStep(r, a, m - k);
      t := Sqr(r, t);
      t := Add(r, t, a);
      k := k - 1;
    }
    TraceBit(r, m, a);
    bit := t != 0;
  }

  // z solves z^2 + a z == b
  predicate Solves(r: Ring, a: nat, b: nat, z: nat)
    requires Valid(r)
  {
    z < Size(r) && Add(r, Sqr(r, z), Mul(r, a, z)) == b
  }

  // The root of z^2 == b is unique.
  lemma RootLaw(r: Ring, m: nat, b: nat)
    requires BinaryField(r, m) && b < Size(r)
    ensures Sqr(r, SqrTimes(r, b, m - 1)) == b
    ensures Solves(r, 0, b, SqrTimes(r, b, m - 1))
  {
    hide Mul, Size, Add, Sqr, Field;
    FrobeniusFixed(r, m, b);
    var z := SqrTimes(r, b, m - 1);
    MulUnit(r, z);
    AddZero(r, b);
  }

  // Division by a^2 turns z^2 + a z == b into the equation for w == z / a.
  lemma Normalized(r: Ring, a: nat, w: nat)
    requires Valid(r) && a < Size(r) && w < Size(r)
    ensures var z := Mul(r, w, a);
            Add(r, Sqr(r, z), Mul(r, a, z)) == Mul(r, Add(r, Sqr(r, w), w), Sqr(r, a))
  {
    hide Mul, Size, Add;
    var z := Mul(r, w, a);
    SqrMul(r, w, a);
    MulComm(r, w, a);
    MulComm(r, a, z);
    MulAssoc(r, w, a, a);
    DistributeR(r, Sqr(r, w), w, Sqr(r, a));
  }

  // b / a, as qrDiv computes it for a != 0
  function Quot(r: Ring, b: nat, a: nat): (c: nat)
    requires Valid(r)
    ensures c < Size(r)
  {
    Mul(r, b, Inv(r, a))
  }

  lemma QuotLaw(r: Ring, b: nat, a: nat)
    requires Valid(r) && Field(r) && b < Size(r) && 0 < a < Size(r)
    ensures Mul(r, Quot(r, b, a), a) == b
    ensures Quot(r, Mul(r, b, a), a) == b
  {
    hide Mul, Size, Field, Inv;
    InvLaw(r, a);
    MulAssoc(r, b, Inv(r, a), a);
    MulAssoc(r, b, a, Inv(r, a));
    MulUnit(r, b);
  }

  // The equation has a root exactly when the trace of b / a^2 is 0.
  lemma SolvableIff(r: Ring, m: nat, a: nat, b: nat, z: nat)
    requires BinaryField(r, m) && 0 < a < Size(r) && b < Size(r)
    requires Solves(r, a, b, z)
    ensures Trace(r, Quot(r, b, Sqr(r, a))) == 0
  {
    hide Mul, Size, Add, Field, Trace, Quot;
    var w := Quot(r, z, a);
    QuotLaw(r, z, a);
    Normalized(r, a, w);
    SqrNonzero(r, a);
    QuotLaw(r, Add(r, Sqr(r, w), w), Sqr(r, a));
    TraceArtinSchreier(r, m, w);
  }

  lemma SqrNonzero(r: Ring, a: nat)
    requires Valid(r) && Field(r) && 0 < a < Size(r)
    ensures Sqr(r, a) != 0
  {
    hide Mul, Size, Field;
    if Sqr(r, a) == 0 {
      NoZeroDivisors(r, a, a);
    }
  }

  lemma ScaledRoot(r: Ring, m: nat, a: nat, b: nat, w: nat)
    requires BinaryField(r, m) && 0 < a < Size(r) && b < Size(r) && w < Size(r)
    requires Add(r, Sqr(r, w), w) == Quot(r, b, Sqr(r, a))
    ensures Solves(r, a, b, Mul(r, w, a))
  {
    hide Mul, Size, Add, Field, Quot, Sqr;
    Normalized(r, a, w);
    SqrNonzero(r, a);
    QuotLaw(r, b, Sqr(r, a));
  }

  /** gf2QSolve finds a root of z^2 + a z == b whenever there is one. */
  method QSolve(r: Ring, m: nat, a: nat, b: nat) returns (ok: bool, x: nat)
    requires BinaryField(r, m) && m % 2 == 1 && a < Size(r) && b < Size(r)
    ensures ok ==> Solves(r, a, b, x)
    ensures !ok ==> forall z :: !Solves(r, a, b, z)
    ensures x < Size(r)
  {
    hide Mul, Size, Add, Sqr, Field, Trace, Quot, Solves;
    if a == 0 {
      x := b;
      var k: nat := m - 1;
      while k > 0
        invariant k < m && x == SqrTimes(r, b, m - 1 - k)
      {
        x := Sqr(r, x);
        k := k - 1;
      }
      RootLaw(r, m, b);
      return true, x;
    }
    if b == 0 {
      ZeroRoot(r, a);
      return true, 0;
    }
    var t: nat := Sqr(r, a);
    t := Quot(r, b, t);
    var odd := Tr(r, m, t);
    if odd {
      forall z | Solves(r, a, b, z)
        ensures false
      {
        SolvableIff(r, m, a, b, z);
      }
      return false, 0;
    }
    x := t;
    var k: nat, n: nat := (m - 1) / 2, 0;
    while k > 0
      invariant k + n == (m - 1) / 2 && x == HalfTrace(r, t, n)
      decreases k
    {
      x := Sqr(r, x);
      x := Sqr(r, x);
      x := Add(r, x, t);
      k, n := k - 1, n + 1;
    }
    HalfTraceSolves(r, m, t);
    ScaledRoot(r, m, a, b, x);
    x := Mul(r, x, a);
    ok := true;
  }

  lemma ZeroRoot(r: Ring, a: nat)
    requires Valid(r) && a < Size(r)
    ensures Solves(r, a, 0, 0)
  {
    hide Mul, Add;
    MulUnit(r, 0);
    MulUnit(r, a);
    AddZero(r, 0);
  }

  // Two roots of z^2 + z == b differ by 0 or 1.
  lemma TwoRoots(r: Ring, z: nat, w: nat)
    requires Valid(r) && Field(r) && r.Binary? && z < Size(r) && w < Size(r)
    requires Add(r, Sqr(r, z), z) == Add(r, Sqr(r, w), w)
    ensures z == w || z == Add(r, w, 1)
  {
    hide Mul, Size, Add, Field;
    // d^2 + d == 0 for d == z + w
    var d := Add(r, z, w);
    SqrAdd(r, z, w);
    AddSwap(r, Sqr(r, z), Sqr(r, w), z, w);
    Double(r, Add(r, Sqr(r, z), z));
    Double(r, d);
    AddCancel(r, Sqr(r, d), d, d);
    MulUnit(r, d);
    if d != 0 {
      MulCancel(r, d, 1, d);
    }
    AddTwice(r, z, w);
    AddComm(r, w, 1);
    AddZero(r, w);
  }
}
