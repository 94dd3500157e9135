/** Polynomials over GF(2).

    A polynomial is the number whose bit i is the coefficient of x^i. This is how the
    library stores polynomials in word buffers, so one definition serves the ring
    GF(2)[x], machine words (XOR is Add) and whole buffers of words. */
module Gf2Poly {
  import N = Numbers
  import opened PowersOfTwo

  // ---------------------------------------------------------------- addition (XOR)

  function Add(a: nat, b: nat): nat
  {
    if a == 0 && b == 0 then 0 else 2 * Add(a / 2, b / 2) + (a + b) % 2
  }

  lemma Halve(h: nat, bit: nat)
    requires bit < 2
    ensures (2 * h + bit) / 2 == h && (2 * h + bit) % 2 == bit
  {
  }

  lemma {:induction false} AddBits(a: nat, b: nat)
    ensures Add(a, b) % 2 == (a + b) % 2
    ensures Add(a, b) / 2 == Add(a / 2, b / 2)
  {
    Halve(Add(a / 2, b / 2), (a + b) % 2);
  }

  lemma Parity(h: nat, z: nat)
    ensures (2 * h + z) % 2 == z % 2
  {
  }

  lemma {:induction false} AddUnfold(a: nat, b: nat)
    ensures Add(a, b) == 2 * Add(a / 2, b / 2) + (a + b) % 2
  {
  }

  // The sum of two numbers given as half and lowest bit.
  lemma {:induction false} AddSplit(h: nat, x: nat, k: nat, y: nat)
    requires x < 2 && y < 2
    ensures Add(2 * h + x, 2 * k + y) == 2 * Add(h, k) + (x + y) % 2
  {
    hide Add;
    Halve(h, x);
    Halve(k, y);
    Parity(h + k, x + y);
    AddUnfold(2 * h + x, 2 * k + y);
  }

  lemma SplitBit(a: nat) returns (h: nat, x: nat)
    ensures x < 2 && a == 2 * h + x && h == a / 2 && x == a % 2
    ensures a > 0 ==> h < a
  {
    h, x := a / 2, a % 2;
  }

  lemma {:induction false} AddComm(a: nat, b: nat)
    ensures Add(a, b) == Add(b, a)
  {
    if a > 0 || b > 0 {
      AddComm(a / 2, b / 2);
    }
  }

  lemma {:induction false} AddZero(a: nat)
    ensures Add(a, 0) == a && Add(0, a) == a
  {
    if a > 0 {
      AddZero(a / 2);
    }
  }

  lemma {:induction false} AddSelf(a: nat)
    ensures Add(a, a) == 0
  {
    if a > 0 {
      AddSelf(a / 2);
    }
  }

  lemma BitAssoc(x: nat, y: nat, z: nat)
    requires x < 2 && y < 2 && z < 2
    ensures ((x + y) % 2 + z) % 2 == (x + (y + z) % 2) % 2
  {
  }

  lemma AddSplit3(h: nat, x: nat, k: nat, y: nat, l: nat, z: nat)
    requires x < 2 && y < 2 && z < 2
    ensures Add(Add(2 * h + x, 2 * k + y), 2 * l + z) == 2 * Add(Add(h, k), l) + ((x + y) % 2 + z) % 2
  {
    hide Add;
    AddSplit(h, x, k, y);
    AddSplit(Add(h, k), (x + y) % 2, l, z);
  }

  lemma AssocStep(h: nat, x: nat, k: nat, y: nat, l: nat, z: nat)
    requires x < 2 && y < 2 && z < 2
    requires Add(Add(h, k), l) == Add(h, Add(k, l))
    ensures Add(Add(2 * h + x, 2 * k + y), 2 * l + z) == Add(2 * h + x, Add(2 * k + y, 2 * l + z))
  {
    hide Add;
    AddSplit3(h, x, k, y, l, z);
    AddSplit3(k, y, l, z, h, x);
    AddComm(2 * h + x, Add(2 * k + y, 2 * l + z));
    AddComm(h, Add(k, l));
    BitAssoc(x, y, z);
  }

  lemma {:induction false} AddAssoc(a: nat, b: nat, c: nat)
    ensures Add(Add(a, b), c) == Add(a, Add(b, c))
    decreases a + b + c
  {
    hide Add;
    if a == 0 && b == 0 && c == 0 {
      AddZero(0);
    } else {
      var h, x := SplitBit(a);
      var k, y := SplitBit(b);
      var l, z := SplitBit(c);
      AddAssoc(h, k, l);
      AssocStep(h, x, k, y, l, z);
    }
  }

  lemma AddDouble(a: nat, b: nat)
    ensures Add(2 * a, 2 * b) == 2 * Add(a, b)
  {
    hide Add;
    AddSplit(a, 0, b, 0);
  }

  // (a + b) + (c + d) == (a + c) + (b + d)
  lemma AddSwap(a: nat, b: nat, c: nat, d: nat)
    ensures Add(Add(a, b), Add(c, d)) == Add(Add(a, c), Add(b, d))
  {
    hide Add;
    AddAssoc(a, b, Add(c, d));
    AddAssoc(b, c, d);
    AddComm(b, c);
    AddAssoc(c, b, d);
    AddAssoc(a, c, Add(b, d));
  }

  // a + b == c is the same as a == b + c
  lemma AddCancel(a: nat, b: nat)
    ensures Add(Add(a, b), b) == a && Add(b, Add(b, a)) == a && Add(b, Add(a, b)) == a
  {
    hide Add;
    AddAssoc(a, b, b);
    AddSelf(b);
    AddZero(a);
    AddAssoc(b, b, a);
    AddComm(a, b);
  }

  lemma AddEqZero(a: nat, b: nat)
    ensures Add(a, b) == 0 <==> a == b
  {
    hide Add;
    AddSelf(a);
    if Add(a, b) == 0 {
      AddCancel(a, b);
      AddZero(b);
    }
  }

  lemma DoubleProduct(h: nat, p: nat)
    ensures h * (2 * p) == 2 * (h * p)
  {
  }

  // Without common bits the sum is the ordinary one.
  lemma {:induction false} AddDisjoint(hi: nat, lo: nat, n: nat)
    requires lo < Pow2(n)
    ensures Add(hi * Pow2(n), lo) == hi * Pow2(n) + lo
    decreases n
  {
    hide Add;
    if n == 0 {
      AddZero(hi);
    } else {
      var l, x := SplitBit(lo);
      DoubleProduct(hi, Pow2(n - 1));
      AddDisjoint(hi, l, n - 1);
      AddSplit(hi * Pow2(n - 1), 0, l, x);
    }
  }

  lemma {:induction false} AddLt(a: nat, b: nat, n: nat)
    requires a < Pow2(n) && b < Pow2(n)
    ensures Add(a, b) < Pow2(n)
  {
    if n > 0 {
      AddLt(a / 2, b / 2, n - 1);
    }
  }

  lemma AppendBit(h: nat, bit: nat)
    requires bit < 2
    ensures Add(2 * h, bit) == 2 * h + bit
  {
    hide Add;
    AddSplit(h, 0, 0, bit);
    AddZero(h);
  }

  // ---------------------------------------------------------------- multiplication

  function Mul(a: nat, b: nat): nat
  {
    if a == 0 then 0 else Add(if a % 2 == 1 then b else 0, 2 * Mul(a / 2, b))
  }

  lemma {:induction false} MulZero(a: nat)
    ensures Mul(a, 0) == 0 && Mul(0, a) == 0
  {
    if a > 0 {
      MulZero(a / 2);
    }
  }

  lemma {:induction false} MulOne(a: nat)
    ensures Mul(1, a) == a && Mul(a, 1) == a
  {
    AddZero(a);
    MulZero(a);
    assert Mul(1, a) == Add(a, 2 * Mul(0, a));
    if a > 0 {
      MulOne(a / 2);
      AppendBit(a / 2, a % 2);
      AddComm(2 * (a / 2), a % 2);
    }
  }

  lemma MulDoubleL(a: nat, b: nat)
    ensures Mul(2 * a, b) == 2 * Mul(a, b)
  {
    AddZero(2 * Mul(a, b));
  }

  lemma {:induction false} MulDoubleR(a: nat, b: nat)
    ensures Mul(a, 2 * b) == 2 * Mul(a, b)
  {
    hide Add;
    if a > 0 {
      MulDoubleR(a / 2, b);
      AddDouble(if a % 2 == 1 then b else 0, 2 * Mul(a / 2, b));
    }
  }

  lemma {:induction false} MulAddR(a: nat, b: nat, c: nat)
    ensures Mul(a, Add(b, c)) == Add(Mul(a, b), Mul(a, c))
  {
    hide Add;
    AddZero(0);
    if a == 0 {
    } else {
      MulAddR(a / 2, b, c);
      var mb, mc := Mul(a / 2, b), Mul(a / 2, c);
      AddDouble(mb, mc);
      var b', c' := if a % 2 == 1 then b else 0, if a % 2 == 1 then c else 0;
      AddSwap(b', 2 * mb, c', 2 * mc);
    }
  }

  lemma {:induction false} MulComm(a: nat, b: nat)
    ensures Mul(a, b) == Mul(b, a)
  {
    hide Add;
    MulZero(b);
    if a > 0 {
      var half, bit := SplitBit(a);
      MulComm(half, b);
      AppendBit(half, bit);
      AddComm(2 * half, bit);
      MulAddR(b, bit, 2 * half);
      MulDoubleR(b, half);
      MulOne(b);
    }
  }

  lemma MulAddL(a: nat, b: nat, c: nat)
    ensures Mul(Add(a, b), c) == Add(Mul(a, c), Mul(b, c))
  {
    hide Add, Mul;
    MulAddR(c, a, b);
    MulComm(c, Add(a, b));
    MulComm(c, a);
    MulComm(c, b);
  }

  lemma {:induction false} MulAssoc(a: nat, b: nat, c: nat)
    ensures Mul(Mul(a, b), c) == Mul(a, Mul(b, c))
  {
    hide Add;
    if a > 0 {
      var half := a / 2;
      MulAssoc(half, b, c);
      var m := Mul(half, b);
      MulAddL(if a % 2 == 1 then b else 0, 2 * m, c);
      MulDoubleL(m, c);
      MulZero(c);
    }
  }

  // Multiplication by x^n is a shift.
  lemma {:induction false} MulPow2(a: nat, n: nat)
    ensures Mul(Pow2(n), a) == a * Pow2(n)
  {
    hide Add, Mul;
    if n == 0 {
      MulOne(a);
    } else {
      MulPow2(a, n - 1);
      MulDoubleL(Pow2(n - 1), a);
    }
  }

  // Shift towards higher degrees: a x^n.
  function Shl(a: nat, n: nat): nat
  {
    a * Pow2(n)
  }

  function Shr(a: nat, n: nat): nat
  {
    N.DivNat(a, Pow2(n));
    a / Pow2(n)
  }

  lemma ShlMul(a: nat, n: nat)
    ensures Shl(a, n) == Mul(Pow2(n), a) == Mul(a, Pow2(n))
  {
    hide Mul, Pow2;
    MulPow2(a, n);
    MulComm(a, Pow2(n));
  }

  lemma ShlAdd(a: nat, b: nat, n: nat)
    ensures Add(Shl(a, n), Shl(b, n)) == Shl(Add(a, b), n)
  {
    hide Add, Mul, Pow2, Shl;
    ShlMul(a, n);
    ShlMul(b, n);
    ShlMul(Add(a, b), n);
    MulAddR(Pow2(n), a, b);
  }

  lemma ShlShl(a: nat, n: nat, m: nat)
    ensures Shl(Shl(a, n), m) == Shl(a, n + m)
  {
    hide Pow2;
    Pow2Add(n, m);
    TimesAssoc(a, Pow2(n), Pow2(m));
  }

  lemma TimesAssoc(a: int, b: int, c: int)
    ensures (a * b) * c == a * (b * c)
  {
  }

  lemma ShlLt(a: nat, n: nat, k: nat)
    requires a < Pow2(n)
    ensures Shl(a, k) < Pow2(n + k)
  {
    hide Pow2;
    Pow2Add(n, k);
    ProductLt(a, Pow2(n), Pow2(k));
  }

  lemma ProductLt(a: nat, b: nat, c: nat)
    requires a < b && c > 0
    ensures a * c < b * c
  {
  }

  // ---------------------------------------------------------------- degree

  predicate HasDeg(a: nat, d: nat)
  {
    Pow2(d) <= a < Pow2(d + 1)
  }

  function Deg(a: nat): (d: nat)
    requires a > 0
    ensures HasDeg(a, d)
  {
    if a == 1 then 0 else 1 + Deg(a / 2)
  }

  lemma DegUnique(a: nat, d: nat, e: nat)
    requires HasDeg(a, d) && HasDeg(a, e)
    ensures d == e
  {
    if d < e {
      Pow2Monotone(d + 1, e);
    } else if e < d {
      Pow2Monotone(e + 1, d);
    }
  }

  lemma BelowTop(a: nat, d: nat)
    requires HasDeg(a, d)
    ensures 0 <= a - Pow2(d) < Pow2(d)
  {
  }

  // The leading monomials of equal degree cancel; otherwise the larger one stays.
  lemma {:induction false} AddDeg(a: nat, b: nat, d: nat)
    requires HasDeg(a, d)
    ensures HasDeg(b, d) ==> Add(a, b) < Pow2(d)
    ensures b < Pow2(d) ==> HasDeg(Add(a, b), d)
  {
    hide Deg;
    if d > 0 {
      AddDeg(a / 2, b / 2, d - 1);
      AddBits(a, b);
    } else {
      AddZero(1);
      AddSelf(1);
    }
  }

  lemma {:induction false} MulDeg(a: nat, d: nat, b: nat, e: nat)
    requires HasDeg(a, d) && HasDeg(b, e)
    ensures HasDeg(Mul(a, b), d + e)
  {
    hide Add, Deg;
    if d == 0 {
      MulOne(b);
    } else {
      MulDeg(a / 2, d - 1, b, e);
      var m := 2 * Mul(a / 2, b);
      assert HasDeg(m, d + e) by {
        assert Pow2(d + e) == 2 * Pow2(d - 1 + e);
        assert Pow2(d + e + 1) == 2 * Pow2(d + e);
      }
      Pow2Monotone(e + 1, d + e);
      AddDeg(m, if a % 2 == 1 then b else 0, d + e);
      AddComm(m, if a % 2 == 1 then b else 0);
    }
  }

  lemma MulLt(a: nat, n: nat, b: nat, m: nat)
    requires a < Pow2(n) && b < Pow2(m)
    ensures Mul(a, b) < Pow2(n + m)
  {
    hide Add, Mul, Deg;
    MulZero(a);
    MulZero(b);
    if a > 0 && b > 0 {
      var d, e := Deg(a), Deg(b);
      MulDeg(a, d, b, e);
      if d >= n { Pow2Monotone(n, d); }
      if e >= m { Pow2Monotone(m, e); }
      Pow2Monotone(d + e + 1, n + m);
    }
  }

  // ---------------------------------------------------------------- division with remainder

  // The remainder of a modulo f, bit by bit from the top.
  function Mod(a: nat, f: nat): (r: nat)
    requires f > 0
    ensures r < Pow2(Deg(f))
    decreases a
  {
    if a < Pow2(Deg(f)) then a
    else
      var r := 2 * Mod(a / 2, f) + a % 2;
      if r < Pow2(Deg(f)) then r
      else
        AddDeg(r, f, Deg(f));
        Add(r, f)
  }

  ghost predicate Divides(f: nat, a: nat)
  {
    exists q: nat :: a == Mul(q, f)
  }

  function Div(a: nat, f: nat): nat
    requires f > 0
    decreases a
  {
    if a < Pow2(Deg(f)) then 0
    else 2 * Div(a / 2, f) + if 2 * Mod(a / 2, f) + a % 2 < Pow2(Deg(f)) then 0 else 1
  }

  lemma DivStep(h: nat, f: nat, r: nat, bit: nat, top: nat)
    requires f > 0 && bit < 2 && top < 2
    ensures 2 * Add(Mul(h, f), r) + bit
            == Add(Mul(2 * h + top, f), if top == 0 then 2 * r + bit else Add(2 * r + bit, f))
  {
    hide Add, Mul, Deg;
    var s := 2 * r + bit;
    MulDoubleL(h, f);
    AddSplit(Mul(h, f), 0, r, bit);
    if top == 1 {
      AppendBit(h, 1);
      MulAddL(2 * h, 1, f);
      MulOne(f);
      AddAssoc(Mul(2 * h, f), f, Add(s, f));
      AddCancel(s, f);
    }
  }

  lemma {:induction false} DivMod(a: nat, f: nat)
    requires f > 0
    ensures a == Add(Mul(Div(a, f), f), Mod(a, f))
    decreases a
  {
    hide Add, Mul, Pow2, Deg, Div, Mod;
    if a < Pow2(Deg(f)) {
      DivSmall(a, f);
      AddZero(a);
      MulZero(f);
    } else {
      var half, bit := SplitBit(a);
      DivMod(half, f);
      var r := Mod(half, f);
      var top := if 2 * r + bit < Pow2(Deg(f)) then 0 else 1;
      DivUnfold(a, f, half, bit, r, top);
      DivStep(Div(half, f), f, r, bit, top);
    }
  }

  lemma DivSmall(a: nat, f: nat)
    requires f > 0 && a < Pow2(Deg(f))
    ensures Div(a, f) == 0 && Mod(a, f) == a
  {
  }

  lemma DivUnfold(a: nat, f: nat, half: nat, bit: nat, r: nat, top: nat)
    requires f > 0 && a >= Pow2(Deg(f)) && half == a / 2 && bit == a % 2 && r == Mod(half, f)
    requires top == if 2 * r + bit < Pow2(Deg(f)) then 0 else 1
    ensures Div(a, f) == 2 * Div(half, f) + top
    ensures Mod(a, f) == if top == 0 then 2 * r + bit else Add(2 * r + bit, f)
  {
    hide Add, Mul, Pow2, Deg;
  }

  lemma {:induction false} ModSmall(a: nat, f: nat)
    requires f > 0 && a < Pow2(Deg(f))
    ensures Mod(a, f) == a
  {
  }

  // A remainder is determined by its congruence class.
  lemma ModUnique(a: nat, q: nat, r: nat, f: nat)
    requires f > 0 && r < Pow2(Deg(f)) && a == Add(Mul(q, f), r)
    ensures r == Mod(a, f)
  {
    hide Add, Mul, Mod, Div, Deg;
    var p := Div(a, f);
    DivMod(a, f);
    var s := Mod(a, f);
    // (p + q) f == r + s
    MulAddL(p, q, f);
    AddSwap(Mul(p, f), s, Mul(q, f), r);
    AddSelf(a);
    AddEqZero(Mul(Add(p, q), f), Add(s, r));
    AddLt(s, r, Deg(f));
    if Add(p, q) > 0 {
      var e := Deg(Add(p, q));
      MulDeg(Add(p, q), e, f, Deg(f));
      Pow2Monotone(Deg(f), e + Deg(f));
    }
    MulZero(f);
    AddEqZero(s, r);
  }

  lemma ModAdd(a: nat, b: nat, f: nat)
    requires f > 0
    ensures Mod(Add(a, b), f) == Add(Mod(a, f), Mod(b, f))
  {
    hide Add, Mul, Mod, Div, Deg;
    var p := Div(a, f);
    DivMod(a, f);
    var q := Div(b, f);
    DivMod(b, f);
    AddSwap(Mul(p, f), Mod(a, f), Mul(q, f), Mod(b, f));
    MulAddL(p, q, f);
    AddLt(Mod(a, f), Mod(b, f), Deg(f));
    ModUnique(Add(a, b), Add(p, q), Add(Mod(a, f), Mod(b, f)), f);
  }

  lemma ModMultiple(q: nat, f: nat)
    requires f > 0
    ensures Mod(Mul(q, f), f) == 0 && Mod(Mul(f, q), f) == 0
  {
    hide Add, Mul, Mod, Deg;
    AddZero(Mul(q, f));
    ModUnique(Mul(q, f), q, 0, f);
    MulComm(q, f);
  }

  // Factors may be reduced before multiplying.
  lemma ModMul(a: nat, b: nat, f: nat)
    requires f > 0
    ensures Mod(Mul(a, b), f) == Mod(Mul(Mod(a, f), b), f)
    ensures Mod(Mul(a, b), f) == Mod(Mul(a, Mod(b, f)), f)
  {
    hide Add, Mul, Mod;
    ModMulLeft(a, b, f);
    ModMulLeft(b, a, f);
    MulComm(a, b);
    MulComm(a, Mod(b, f));
  }

  lemma ModMulLeft(a: nat, b: nat, f: nat)
    requires f > 0
    ensures Mod(Mul(a, b), f) == Mod(Mul(Mod(a, f), b), f)
  {
    hide Add, Mul, Mod, Div, Deg;
    var q := Div(a, f);
    DivMod(a, f);
    MulAddL(Mul(q, f), Mod(a, f), b);
    MulComm(q, f);
    MulAssoc(f, q, b);
    MulComm(f, Mul(q, b));
    ModAdd(Mul(Mul(q, f), b), Mul(Mod(a, f), b), f);
    ModMultiple(Mul(q, b), f);
    AddZero(Mod(Mul(Mod(a, f), b), f));
  }

  lemma DividesMod(f: nat, a: nat)
    requires f > 0
    ensures Divides(f, a) <==> Mod(a, f) == 0
  {
    hide Add, Mul, Mod, Deg;
    if Divides(f, a) {
      var q: nat :| a == Mul(q, f);
      ModMultiple(q, f);
    }
    if Mod(a, f) == 0 {
      var q := Div(a, f);
    DivMod(a, f);
      AddZero(Mul(q, f));
    }
  }

  // a and b have the same remainder exactly when f divides a + b.
  lemma CongruentDivides(a: nat, b: nat, f: nat)
    requires f > 0
    ensures Mod(a, f) == Mod(b, f) <==> Divides(f, Add(a, b))
  {
    hide Add, Mul, Mod, Divides;
    ModAdd(a, b, f);
    AddEqZero(Mod(a, f), Mod(b, f));
    DividesMod(f, Add(a, b));
  }
}
