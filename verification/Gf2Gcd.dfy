/** Greatest common divisors of polynomials over GF(2): Bezout coefficients with the
    degree bounds the secret-sharing code asserts, coprimality, irreducibility, and
    uniqueness of a residue modulo a product. */
module Gf2Gcd {
  import opened PowersOfTwo
  import opened Gf2Poly

  // ---------------------------------------------------------------- divisibility

  lemma DividesAdd(f: nat, a: nat, b: nat)
    requires Divides(f, a) && Divides(f, b)
    ensures Divides(f, Add(a, b))
  {
    hide Add, Mul;
    var p: nat :| a == Mul(p, f);
    var q: nat :| b == Mul(q, f);
    MulAddL(p, q, f);
  }

  lemma DividesMul(f: nat, a: nat, b: nat)
    requires Divides(f, a)
    ensures Divides(f, Mul(a, b)) && Divides(f, Mul(b, a))
  {
    hide Add, Mul;
    var q: nat :| a == Mul(q, f);
    MulComm(a, b);
    MulAssoc(b, q, f);
  }

  // ---------------------------------------------------------------- extended Euclid

  datatype Bezout = Bezout(d: nat, u: nat, v: nat)

  // d = uf + vg, without any care for the size of u and v.
  function Euclid(f: nat, g: nat): Bezout
    decreases g
  {
    if g == 0 then Bezout(f, 1, 0)
    else
      ModBelow(f, g);
      var e := Euclid(g, Mod(f, g));
      Bezout(e.d, e.v, Add(e.u, Mul(Div(f, g), e.v)))
  }

  lemma ModBelow(f: nat, g: nat)
    requires g > 0
    ensures Mod(f, g) < g
  {
  }

  lemma {:induction false} EuclidLaw(f: nat, g: nat)
    ensures var e := Euclid(f, g);
            Divides(e.d, f) && Divides(e.d, g) && e.d == Add(Mul(e.u, f), Mul(e.v, g))
    decreases g
  {
    hide Add, Mul, Mod, Div;
    var e := Euclid(f, g);
    MulZero(f);
    MulZero(e.d);
    MulZero(g);
    MulOne(f);
    AddZero(f);
    if g == 0 {
      assert f == Mul(1, e.d);
      assert g == Mul(0, e.d);
    } else {
      var r, q := Mod(f, g), Div(f, g);
      EuclidLaw(g, r);
      DivMod(f, g);
      var c := Euclid(g, r);
      MulComm(q, g);
      DividesMul(c.d, g, q);
      DividesAdd(c.d, Mul(q, g), r);
      EuclidStep(c.u, c.v, f, q, g, r);
    }
  }

  // a + (b + c) == b + (a + c)
  lemma AddRotate(a: nat, b: nat, c: nat)
    ensures Add(a, Add(b, c)) == Add(b, Add(a, c))
  {
    hide Add, Mul;
    AddAssoc(a, b, c);
    AddComm(a, b);
    AddAssoc(b, a, c);
  }

  lemma EuclidStep(u: nat, v: nat, f: nat, q: nat, g: nat, r: nat)
    requires f == Add(Mul(q, g), r)
    ensures Add(Mul(v, f), Mul(Add(u, Mul(q, v)), g)) == Add(Mul(u, g), Mul(v, r))
  {
    hide Add, Mul;
    MulAddL(u, Mul(q, v), g);
    MulComm(q, v);
    MulAssoc(v, q, g);
    MulAddR(v, Mul(q, g), r);
    var c := Mul(v, Mul(q, g));
    AddRotate(Mul(v, f), Mul(u, g), c);
    AddComm(Mul(v, f), c);
    AddCancel(Mul(v, r), c);
  }

  // ppExGCD: the coefficients are brought below the degrees of the arguments.
  function ExGcd(f: nat, g: nat): (e: Bezout)
    requires f > 1 && g > 1
    ensures Divides(e.d, f) && Divides(e.d, g)
    ensures e.d == Add(Mul(e.u, f), Mul(e.v, g))
    ensures e.d == 1 ==> e.u < Pow2(Deg(g)) && e.v < Pow2(Deg(f))
  {
    EuclidLaw(f, g);
    var e := Euclid(f, g);
    ReduceLaw(f, g, e);
    Bezout(e.d, Mod(e.u, g), Add(e.v, Mul(Div(e.u, g), f)))
  }

  lemma ReduceLaw(f: nat, g: nat, e: Bezout)
    requires f > 1 && g > 1 && e.d == Add(Mul(e.u, f), Mul(e.v, g))
    ensures var u, v := Mod(e.u, g), Add(e.v, Mul(Div(e.u, g), f));
            e.d == Add(Mul(u, f), Mul(v, g)) && (e.d == 1 ==> v < Pow2(Deg(f)))
  {
    hide Add, Mul, Mod, Div, Pow2;
    var k, u := Div(e.u, g), Mod(e.u, g);
    var v := Add(e.v, Mul(k, f));
    DivMod(e.u, g);
    // u f + (e.v + k f) g == (u + k g) f + e.v g
    MulAddL(Mul(k, g), u, f);
    MulAddL(e.v, Mul(k, f), g);
    MulAssoc(k, g, f);
    MulAssoc(k, f, g);
    MulComm(f, g);
    var w := Mul(Mul(k, g), f);
    AddComm(w, Mul(u, f));
    AddAssoc(Mul(u, f), w, Mul(e.v, g));
    AddComm(w, Mul(e.v, g));
    if e.d == 1 {
      var bound := Deg(f) + Deg(g);
      MulLt(u, Deg(g), f, Deg(f) + 1);
      AddComm(Mul(u, f), Mul(v, g));
      AddCancel(Mul(v, g), Mul(u, f));
      CofactorSmall(u, f, v, g);
    }
  }

  // v g == 1 + u f with deg u < deg g leaves room only for deg v < deg f
  lemma CofactorSmall(u: nat, f: nat, v: nat, g: nat)
    requires f > 1 && g > 1 && u < Pow2(Deg(g)) && 1 == Add(Mul(u, f), Mul(v, g))
    ensures v < Pow2(Deg(f))
  {
    hide Add, Mul, Deg;
    var bound := Deg(f) + Deg(g);
    AddCancel(Mul(v, g), Mul(u, f));
    MulZero(f);
    if u > 0 {
      MulDeg(u, Deg(u), f, Deg(f));
      if Deg(u) >= Deg(g) {
        Pow2Monotone(Deg(g), Deg(u));
      }
      Pow2Monotone(Deg(u) + Deg(f) + 1, bound);
    }
    assert Mul(u, f) < Pow2(bound);
    Pow2Monotone(1, bound);
    AddLt(1, Mul(u, f), bound);
    AddComm(1, Mul(u, f));
    if v >= Pow2(Deg(f)) {
      MulDeg(v, Deg(v), g, Deg(g));
      if Deg(v) < Deg(f) {
        Pow2Monotone(Deg(v) + 1, Deg(f));
      }
      Pow2Monotone(bound, Deg(v) + Deg(g));
    }
  }

  // ---------------------------------------------------------------- coprime polynomials

  ghost predicate Coprime(f: nat, g: nat)
  {
    exists u: nat, v: nat :: Add(Mul(u, f), Mul(v, g)) == 1
  }

  lemma DividesOne(d: nat)
    requires Divides(d, 1)
    ensures d == 1
  {
    var q: nat :| 1 == Mul(q, d);
    MulZero(q);
    MulZero(d);
    MulDeg(q, Deg(q), d, Deg(d));
    DegUnique(1, 0, Deg(q) + Deg(d));
  }

  lemma ExGcdCoprime(f: nat, g: nat)
    requires f > 1 && g > 1
    ensures ExGcd(f, g).d == 1 <==> Coprime(f, g)
  {
    hide Add, Mul, Mod, Div;
    var e := ExGcd(f, g);
    if Coprime(f, g) {
      var u: nat, v: nat :| Add(Mul(u, f), Mul(v, g)) == 1;
      DividesMul(e.d, f, u);
      DividesMul(e.d, g, v);
      DividesAdd(e.d, Mul(u, f), Mul(v, g));
      DividesOne(e.d);
    }
  }

  lemma CoprimeSym(f: nat, g: nat)
    requires Coprime(f, g)
    ensures Coprime(g, f)
  {
    hide Add, Mul;
    var u: nat, v: nat :| Add(Mul(u, f), Mul(v, g)) == 1;
    AddComm(Mul(u, f), Mul(v, g));
  }

  // f is coprime to a product exactly when it is coprime to both factors.
  lemma CoprimeProduct(f: nat, g: nat, h: nat)
    ensures Coprime(f, Mul(g, h)) <==> Coprime(f, g) && Coprime(f, h)
  {
    hide Add, Mul;
    if Coprime(f, Mul(g, h)) {
      var u: nat, v: nat :| Add(Mul(u, f), Mul(v, Mul(g, h))) == 1;
      MulAssoc(v, g, h);
      MulComm(g, h);
      MulAssoc(v, h, g);
      assert Add(Mul(u, f), Mul(Mul(v, h), g)) == 1;
      assert Add(Mul(u, f), Mul(Mul(v, g), h)) == 1;
    }
    if Coprime(f, g) && Coprime(f, h) {
      var u: nat, v: nat :| Add(Mul(u, f), Mul(v, g)) == 1;
      var s: nat, t: nat :| Add(Mul(s, f), Mul(t, h)) == 1;
      CoprimeProductStep(f, g, h, u, v, s, t);
    }
  }

  lemma CoprimeProductStep(f: nat, g: nat, h: nat, u: nat, v: nat, s: nat, t: nat)
    requires Add(Mul(u, f), Mul(v, g)) == 1 && Add(Mul(s, f), Mul(t, h)) == 1
    ensures Coprime(f, Mul(g, h))
  {
    hide Add, Mul, Coprime;
    // 1 == sf + th == sf + th(uf + vg) == (s + thu) f + (tv)(gh)
    SpreadOne(Mul(t, h), Mul(u, f), Mul(v, g), Mul(s, f));
    CollectFirst(s, Mul(t, h), u, f);
    CollectSecond(t, h, v, g);
    CoprimeBy(f, Mul(g, h), Add(s, Mul(Mul(t, h), u)), Mul(t, v));
  }

  lemma CoprimeBy(f: nat, g: nat, u: nat, v: nat)
    requires Add(Mul(u, f), Mul(v, g)) == 1
    ensures Coprime(f, g)
  {
    hide Add, Mul;
  }

  lemma SpreadOne(th: nat, x: nat, y: nat, a: nat)
    requires Add(x, y) == 1 && Add(a, th) == 1
    ensures Add(Add(a, Mul(th, x)), Mul(th, y)) == 1
  {
    MulOne(th);
    MulAddR(th, x, y);
    AddAssoc(a, Mul(th, x), Mul(th, y));
  }

  lemma CollectFirst(s: nat, th: nat, u: nat, f: nat)
    ensures Add(Mul(s, f), Mul(th, Mul(u, f))) == Mul(Add(s, Mul(th, u)), f)
  {
    MulAssoc(th, u, f);
    MulAddL(s, Mul(th, u), f);
  }

  lemma CollectSecond(t: nat, h: nat, v: nat, g: nat)
    ensures Mul(Mul(t, h), Mul(v, g)) == Mul(Mul(t, v), Mul(g, h))
  {
    ProductForm(t, h, v, g);
    MulComm(h, g);
  }

  // Coprime divisors divide together.
  lemma CoprimeDivides(f: nat, g: nat, a: nat)
    requires Coprime(f, g) && Divides(f, a) && Divides(g, a)
    ensures Divides(Mul(f, g), a)
  {
    hide Add, Mul;
    var u: nat, v: nat :| Add(Mul(u, f), Mul(v, g)) == 1;
    var p: nat :| a == Mul(p, f);
    var q: nat :| a == Mul(q, g);
    // a == uf a + vg a == uf (qg) + vg (pf)
    MulOne(a);
    MulAddL(Mul(u, f), Mul(v, g), a);
    ProductForm(u, f, q, g);
    ProductForm(v, g, p, f);
    MulComm(f, g);
    MulAddL(Mul(u, q), Mul(v, p), Mul(f, g));
  }

  lemma ProductForm(u: nat, f: nat, q: nat, g: nat)
    ensures Mul(Mul(u, f), Mul(q, g)) == Mul(Mul(u, q), Mul(f, g))
  {
    MulAssoc(u, f, Mul(q, g));
    MulComm(f, Mul(q, g));
    MulAssoc(q, g, f);
    MulComm(g, f);
    MulAssoc(u, q, Mul(f, g));
  }

  // ---------------------------------------------------------------- irreducible polynomials

  ghost predicate Irreducible(f: nat)
  {
    f > 1 && forall d: nat :: Divides(d, f) ==> d == 1 || d == f
  }

  lemma IrreducibleCoprime(f: nat, g: nat)
    requires Irreducible(f) && g > 1 && !Divides(f, g)
    ensures Coprime(f, g)
  {
    var e := ExGcd(f, g);
    ExGcdCoprime(f, g);
  }

  // Distinct irreducible polynomials of one degree have no common factor.
  lemma DistinctIrreducible(f: nat, g: nat)
    requires Irreducible(f) && Irreducible(g) && f != g
    ensures Coprime(f, g)
  {
    IrreducibleCoprime(f, g);
  }
}
