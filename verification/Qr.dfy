/** The quotient rings the library computes in: residues modulo a number (gfp) and
    polynomials over GF(2) modulo a polynomial (gf2). Elements are the numbers below Size. */
module Qr {
  import opened PowersOfTwo
  import P = Gf2Poly
  import G = Gf2Gcd
  import N = Numbers

  datatype Ring = Residues(mod: nat) | Binary(f: nat)

  predicate Valid(r: Ring)
  {
    match r
    case Residues(mod) => mod > 1
    case Binary(f) => f > 1
  }

  function Size(r: Ring): (n: nat)
    requires Valid(r)
    ensures n > 1
  {
    match r
    case Residues(mod) => mod
    case Binary(f) => Pow2(P.Deg(f))
  }

  function Add(r: Ring, a: nat, b: nat): (c: nat)
    requires Valid(r) && a < Size(r) && b < Size(r)
    ensures c < Size(r)
  {
    match r
    case Residues(mod) => (a + b) % mod
    case Binary(f) => P.AddLt(a, b, P.Deg(f)); P.Add(a, b)
  }

  function Neg(r: Ring, a: nat): (c: nat)
    requires Valid(r) && a < Size(r)
    ensures c < Size(r)
  {
    match r
    case Residues(mod) => (mod - a) % mod
    case Binary(f) => a
  }

  function Mul(r: Ring, a: nat, b: nat): (c: nat)
    requires Valid(r)
    ensures c < Size(r)
  {
    match r
    case Residues(mod) => (a * b) % mod
    case Binary(f) => P.Mod(P.Mul(a, b), f)
  }

  ghost predicate Field(r: Ring)
  {
    match r
    case Residues(mod) => N.Prime(mod)
    case Binary(f) => G.Irreducible(f)
  }

  // ---------------------------------------------------------------- ring laws

  lemma AddLaws(r: Ring, a: nat, b: nat, c: nat)
    requires Valid(r) && a < Size(r) && b < Size(r) && c < Size(r)
    ensures Add(r, a, b) == Add(r, b, a)
    ensures Add(r, Add(r, a, b), c) == Add(r, a, Add(r, b, c))
    ensures Add(r, a, 0) == a
    ensures Add(r, a, Neg(r, a)) == 0
  {
    hide P.Add, Pow2, P.Deg;
    match r
    case Residues(mod) =>
      N.ModAdd(a + b, c, mod);
      N.ModAdd(a, b + c, mod);
      N.SmallMod(a, mod);
      N.ModAdd(a, mod - a, mod);
      N.DivUnique(mod, mod, 1, 0);
    case Binary(f) =>
      P.AddComm(a, b);
      P.AddAssoc(a, b, c);
      P.AddZero(a);
      P.AddSelf(a);
  }

  lemma MulComm(r: Ring, a: nat, b: nat)
    requires Valid(r)
    ensures Mul(r, a, b) == Mul(r, b, a)
  {
    hide P.Mul, P.Mod;
    if r.Binary? {
      P.MulComm(a, b);
    }
  }

  lemma MulAssoc(r: Ring, a: nat, b: nat, c: nat)
    requires Valid(r)
    ensures Mul(r, Mul(r, a, b), c) == Mul(r, a, Mul(r, b, c))
  {
    hide P.Mul, P.Mod, Pow2, P.Deg;
    match r
    case Residues(mod) =>
      N.ModMul(a * b, c, mod);
      N.ModMul(a, b * c, mod);
      TimesAssoc(a, b, c);
    case Binary(f) =>
      P.ModMul(P.Mul(a, b), c, f);
      P.ModMul(a, P.Mul(b, c), f);
      P.MulAssoc(a, b, c);
  }

  lemma TimesAssoc(a: int, b: int, c: int)
    ensures (a * b) * c == a * (b * c)
  {
  }

  lemma DistributeMod(m: nat, a: nat, b: nat, c: nat)
    requires m > 1 && b < m && c < m
    ensures var r := Residues(m); Mul(r, a, Add(r, b, c)) == Add(r, Mul(r, a, b), Mul(r, a, c))
  {
    N.ModMul(a, b + c, m);
    N.ModAdd(a * b, a * c, m);
    N.ModAdd((a * b) % m, a * c, m);
    TimesSum(a, b, c);
  }

  lemma TimesSum(a: int, b: int, c: int)
    ensures a * (b + c) == a * b + a * c
  {
  }

  lemma DistributeBinary(f: nat, a: nat, b: nat, c: nat)
    requires f > 1 && b < Size(Binary(f)) && c < Size(Binary(f))
    ensures var r := Binary(f); Mul(r, a, Add(r, b, c)) == Add(r, Mul(r, a, b), Mul(r, a, c))
  {
    hide P.Mul, P.Mod, P.Add, Pow2, P.Deg;
    P.MulAddR(a, b, c);
    P.ModAdd(P.Mul(a, b), P.Mul(a, c), f);
  }

  lemma Distribute(r: Ring, a: nat, b: nat, c: nat)
    requires Valid(r) && b < Size(r) && c < Size(r)
    ensures Mul(r, a, Add(r, b, c)) == Add(r, Mul(r, a, b), Mul(r, a, c))
  {
    hide Mul, Add, Pow2, P.Deg;
    match r
    case Residues(mod) => DistributeMod(mod, a, b, c);
    case Binary(f) => DistributeBinary(f, a, b, c);
  }

  lemma MulUnit(r: Ring, a: nat)
    requires Valid(r) && a < Size(r)
    ensures Mul(r, a, 1) == a && Mul(r, 1, a) == a
    ensures Mul(r, a, 0) == 0 && Mul(r, 0, a) == 0
  {
    hide P.Mul, P.Mod, Pow2, P.Deg;
    match r
    case Residues(mod) =>
      N.SmallMod(a, mod);
      N.SmallMod(0, mod);
    case Binary(f) =>
      P.MulOne(a);
      P.MulZero(a);
      P.ModSmall(a, f);
      P.ModSmall(0, f);
  }

  // Opposite elements are unique.
  lemma AddCancel(r: Ring, a: nat, b: nat, c: nat)
    requires Valid(r) && a < Size(r) && b < Size(r) && c < Size(r)
    requires Add(r, a, c) == Add(r, b, c)
    ensures a == b
  {
    hide Add, Neg;
    var n := Neg(r, c);
    AddLaws(r, a, c, n);
    AddLaws(r, b, c, n);
    AddLaws(r, c, 0, 0);
  }

  // ---------------------------------------------------------------- fields

  lemma NoZeroDivisors(r: Ring, a: nat, b: nat)
    requires Valid(r) && Field(r) && a < Size(r) && b < Size(r) && Mul(r, a, b) == 0
    ensures a == 0 || b == 0
  {
    hide P.Mul, P.Mod, Pow2, P.Deg, G.Irreducible;
    if a > 0 && b > 0 {
      match r
      case Residues(mod) =>
        N.EuclidLemma(a, b, mod);
        N.SmallMod(b, mod);
      case Binary(f) =>
        P.DividesMod(f, P.Mul(a, b));
        BinaryPrime(f, a, b);
    }
  }

  lemma BinaryPrime(f: nat, a: nat, b: nat)
    requires G.Irreducible(f) && 0 < a < Pow2(P.Deg(f)) && 0 < b < Pow2(P.Deg(f))
    ensures !P.Divides(f, P.Mul(a, b))
  {
    hide P.Mul, P.Add, P.Mod, Pow2, P.Deg, P.Divides, G.Irreducible, G.Coprime;
    SmallNotDivided(f, a);
    SmallNotDivided(f, b);
    CoprimeToSmall(f, a);
    CoprimeToSmall(f, b);
    G.CoprimeProduct(f, a, b);
    CoprimeNotDivided(f, P.Mul(a, b));
  }

  lemma SmallNotDivided(f: nat, a: nat)
    requires f > 1 && 0 < a < Pow2(P.Deg(f))
    ensures !P.Divides(f, a)
  {
    hide P.Mul, P.Mod, Pow2, P.Deg;
    P.DividesMod(f, a);
    P.ModSmall(a, f);
  }

  lemma CoprimeToSmall(f: nat, a: nat)
    requires G.Irreducible(f) && 0 < a && !P.Divides(f, a)
    ensures G.Coprime(f, a)
  {
    hide P.Mul, P.Add, P.Divides;
    if a == 1 {
      P.MulZero(f);
      P.MulOne(1);
      P.AddZero(1);
      G.CoprimeBy(f, 1, 0, 1);
    } else {
      G.IrreducibleCoprime(f, a);
    }
  }

  lemma CoprimeNotDivided(f: nat, a: nat)
    requires f > 1 && G.Coprime(f, a)
    ensures !P.Divides(f, a)
  {
    hide P.Mul, P.Add, P.Divides;
    if P.Divides(f, a) {
      var u: nat, v: nat :| P.Add(P.Mul(u, f), P.Mul(v, a)) == 1;
      P.MulOne(f);
      DividesBy(f, f, 1);
      G.DividesMul(f, f, u);
      G.DividesMul(f, a, v);
      G.DividesAdd(f, P.Mul(u, f), P.Mul(v, a));
      G.DividesOne(f);
    }
  }

  lemma DividesBy(f: nat, a: nat, q: nat)
    requires a == P.Mul(q, f)
    ensures P.Divides(f, a)
  {
  }

  lemma MulCancel(r: Ring, a: nat, b: nat, c: nat)
    requires Valid(r) && Field(r) && a < Size(r) && b < Size(r) && 0 < c < Size(r)
    requires Mul(r, a, c) == Mul(r, b, c)
    ensures a == b
  {
    hide Add, Neg, Mul, Field;
    var n := Neg(r, b);
    AddLaws(r, b, n, n);
    AddLaws(r, a, n, n);
    MulComm(r, a, c);
    MulComm(r, b, c);
    // c (a - b) == 0
    Distribute(r, c, a, n);
    Distribute(r, c, b, n);
    MulUnit(r, c);
    NoZeroDivisors(r, c, Add(r, a, n));
    AddCancel(r, a, b, n);
  }

  // ---------------------------------------------------------------- powers

  function Pow(r: Ring, a: nat, n: nat): (c: nat)
    requires Valid(r)
    ensures c < Size(r)
  {
    if n == 0 then 1 else Mul(r, a, Pow(r, a, n - 1))
  }

  lemma PowStep(r: Ring, y: nat, n: nat)
    requires Valid(r)
    ensures Pow(r, y, n + 1) == Mul(r, y, Pow(r, y, n))
  {
  }

  lemma {:induction false} PowAdd(r: Ring, a: nat, n: nat, m: nat)
    requires Valid(r)
    ensures Pow(r, a, n + m) == Mul(r, Pow(r, a, n), Pow(r, a, m))
  {
    hide Mul;
    if n == 0 {
      MulUnit(r, Pow(r, a, m));
    } else {
      PowAdd(r, a, n - 1, m);
      assert n + m - 1 == n - 1 + m;
      MulAssoc(r, a, Pow(r, a, n - 1), Pow(r, a, m));
    }
  }

  lemma {:induction false} PowProduct(r: Ring, a: nat, b: nat, n: nat)
    requires Valid(r)
    ensures Pow(r, Mul(r, a, b), n) == Mul(r, Pow(r, a, n), Pow(r, b, n))
  {
    hide Mul;
    if n == 0 {
      MulUnit(r, 1);
    } else {
      PowProduct(r, a, b, n - 1);
      Interchange(r, a, b, Pow(r, a, n - 1), Pow(r, b, n - 1));
    }
  }

  // (ab)(xy) == (ax)(by)
  lemma Interchange(r: Ring, a: nat, b: nat, x: nat, y: nat)
    requires Valid(r)
    ensures Mul(r, Mul(r, a, b), Mul(r, x, y)) == Mul(r, Mul(r, a, x), Mul(r, b, y))
  {
    hide Mul;
    MulAssoc(r, a, b, Mul(r, x, y));
    MulAssoc(r, b, x, y);
    MulComm(r, b, x);
    MulAssoc(r, x, b, y);
    MulAssoc(r, a, x, Mul(r, b, y));
  }

  lemma {:induction false} PowOne(r: Ring, n: nat)
    requires Valid(r)
    ensures Pow(r, 1, n) == 1
    ensures n > 0 ==> Pow(r, 0, n) == 0
  {
    hide Mul;
    if n > 0 {
      PowOne(r, n - 1);
      MulUnit(r, 1);
      MulUnit(r, Pow(r, 0, n - 1));
    }
  }

  lemma {:induction false} PowNonzero(r: Ring, a: nat, n: nat)
    requires Valid(r) && Field(r) && 0 < a < Size(r)
    ensures Pow(r, a, n) != 0
  {
    hide Mul, Field;
    if n > 0 {
      PowNonzero(r, a, n - 1);
      if Pow(r, a, n) == 0 {
        NoZeroDivisors(r, a, Pow(r, a, n - 1));
      }
    }
  }

  // ---------------------------------------------------------------- Fermat's theorem

  // The product of a set of elements.
  ghost function Product(r: Ring, s: set<nat>): (c: nat)
    requires Valid(r)
    ensures c < Size(r)
  {
    if s == {} then 1 else
      var x :| x in s;
      Mul(r, x, Product(r, s - {x}))
  }

  lemma {:induction false} ProductPick(r: Ring, s: set<nat>, x: nat)
    requires Valid(r) && x in s
    ensures Product(r, s) == Mul(r, x, Product(r, s - {x}))
    decreases s
  {
    hide Mul;
    var y :| y in s && Product(r, s) == Mul(r, y, Product(r, s - {y}));
    if x != y {
      ProductPick(r, s - {y}, x);
      ProductPick(r, s - {x}, y);
      var rest := Product(r, s - {y} - {x});
      assert s - {y} - {x} == s - {x} - {y};
      MulAssoc(r, y, x, rest);
      MulAssoc(r, x, y, rest);
      MulComm(r, x, y);
    }
  }

  lemma {:induction false} ProductNonzero(r: Ring, s: set<nat>)
    requires Valid(r) && Field(r) && forall x :: x in s ==> 0 < x < Size(r)
    ensures Product(r, s) != 0
    decreases s
  {
    hide Mul, Field;
    if s != {} {
      var x :| x in s;
      ProductPick(r, s, x);
      ProductNonzero(r, s - {x});
      if Product(r, s) == 0 {
        NoZeroDivisors(r, x, Product(r, s - {x}));
      }
    }
  }

  ghost function Scaled(r: Ring, a: nat, s: set<nat>): set<nat>
    requires Valid(r)
  {
    set x | x in s :: Mul(r, a, x)
  }

  lemma ScaleSplit(r: Ring, a: nat, s: set<nat>, x: nat)
    requires Valid(r) && Field(r) && 0 < a < Size(r) && x in s
    requires forall x :: x in s ==> 0 < x < Size(r)
    ensures Mul(r, a, x) !in Scaled(r, a, s - {x})
    ensures Scaled(r, a, s) == Scaled(r, a, s - {x}) + {Mul(r, a, x)}
    ensures Scaled(r, a, s) - {Mul(r, a, x)} == Scaled(r, a, s - {x})
  {
    hide Mul, Field, Size;
    forall z | z in s && z != x
      ensures Mul(r, a, z) != Mul(r, a, x)
    {
      if Mul(r, a, z) == Mul(r, a, x) {
        MulComm(r, a, x);
        MulComm(r, a, z);
        MulCancel(r, z, x, a);
      }
    }
  }

  // Multiplication by a nonzero element is injective, so it permutes the units.
  lemma {:induction false} ScaleLaw(r: Ring, a: nat, s: set<nat>)
    requires Valid(r) && Field(r) && 0 < a < Size(r)
    requires forall x :: x in s ==> 0 < x < Size(r)
    ensures |Scaled(r, a, s)| == |s|
    ensures Product(r, Scaled(r, a, s)) == Mul(r, Pow(r, a, |s|), Product(r, s))
    decreases s
  {
    hide Mul, Field, Size;
    if s == {} {
      assert Scaled(r, a, s) == {};
      MulUnit(r, 1);
    } else {
      var x :| x in s;
      var t, y := s - {x}, Mul(r, a, x);
      ScaleLaw(r, a, t);
      ScaleSplit(r, a, s, x);
      ProductPick(r, Scaled(r, a, s), y);
      ProductPick(r, s, x);
      Interchange(r, a, x, Pow(r, a, |t|), Product(r, t));
    }
  }

  lemma {:induction false} SameSize(s: set<nat>, t: set<nat>)
    requires s <= t && |s| == |t|
    ensures s == t
  {
    if s != t {
      var x :| x in t && x !in s;
      SubsetSize(s, t - {x});
    }
  }

  lemma {:induction false} SubsetSize(s: set<nat>, t: set<nat>)
    requires s <= t
    ensures |s| <= |t|
    decreases s
  {
    if s != {} {
      var x :| x in s;
      SubsetSize(s - {x}, t - {x});
    }
  }

  ghost function Units(n: nat): (s: set<nat>)
    ensures forall x :: x in s <==> 0 < x < n
  {
    if n <= 1 then {} else Units(n - 1) + {n - 1}
  }

  lemma {:induction false} CountUnits(n: nat)
    requires n > 0
    ensures |Units(n)| == n - 1
  {
    if n > 1 {
      CountUnits(n - 1);
    }
  }

  lemma ScaledUnits(r: Ring, a: nat)
    requires Valid(r) && Field(r) && 0 < a < Size(r)
    requires |Scaled(r, a, Units(Size(r)))| == |Units(Size(r))|
    ensures Scaled(r, a, Units(Size(r))) == Units(Size(r))
  {
    hide Mul, Field, Size;
    var units := Units(Size(r));
    forall x | x in units
      ensures Mul(r, a, x) in units
    {
      if Mul(r, a, x) == 0 {
        NoZeroDivisors(r, a, x);
      }
    }
    SameSize(Scaled(r, a, units), units);
  }

  /** Fermat's little theorem, for prime fields and for binary fields alike. */
  lemma Fermat(r: Ring, a: nat)
    requires Valid(r) && Field(r) && 0 < a < Size(r)
    ensures Pow(r, a, Size(r) - 1) == 1
  {
    hide Mul, Field, Pow, Size, Product, Scaled;
    var units := Units(Size(r));
    CountUnits(Size(r));
    ScaleLaw(r, a, units);
    ScaledUnits(r, a);
    ProductNonzero(r, units);
    var p := Product(r, units);
    MulUnit(r, p);
    MulCancel(r, Pow(r, a, |units|), 1, p);
  }

  /** In a field a^(Size - 2) inverts a; for a = 0 it is 0. */
  function Inv(r: Ring, a: nat): nat
    requires Valid(r)
  {
    Pow(r, a, Size(r) - 2)
  }

  lemma InvLaw(r: Ring, a: nat)
    requires Valid(r) && Field(r) && a < Size(r)
    ensures Inv(r, a) < Size(r)
    ensures a != 0 ==> Mul(r, a, Inv(r, a)) == 1 && Mul(r, Inv(r, a), a) == 1 && Inv(r, a) != 0
  {
    hide Mul, Field, Size;
    if a != 0 {
      Fermat(r, a);
      assert Pow(r, a, Size(r) - 1) == Mul(r, a, Pow(r, a, Size(r) - 2));
      MulComm(r, a, Inv(r, a));
      PowNonzero(r, a, Size(r) - 2);
    }
  }
}
