/** Secret sharing by Chinese remaindering over GF(2)[x] (STB 34.101.60).

    Octet strings of len octets are the polynomials of degree < l = 8 * len they load into.
    A public key m stands for the polynomial x^l + m(x). */
module Bels {
  import opened PowersOfTwo
  import opened Gf2Poly
  import opened Gf2Gcd

  datatype Err = Ok | BadInput | BadRng | BadPubkey

  predicate ValidLen(len: nat)
  {
    len == 16 || len == 24 || len == 32
  }

  // x^l + m(x)
  function Key(l: nat, m: nat): nat
  {
    Pow2(l) + m
  }

  ghost predicate Loaded(l: nat, ms: seq<nat>)
  {
    forall i :: 0 <= i < |ms| ==> ms[i] < Pow2(l)
  }

  ghost predicate PairwiseCoprime(l: nat, mi: seq<nat>)
  {
    forall i, j :: 0 <= i < j < |mi| ==> Coprime(Key(l, mi[j]), Key(l, mi[i]))
  }

  // c agrees with the first n shares
  ghost predicate Interpolates(c: nat, l: nat, mi: seq<nat>, si: seq<nat>, n: nat)
    requires n <= |mi| == |si|
  {
    forall j :: 0 <= j < n ==> Mod(c, Key(l, mi[j])) == si[j]
  }

  // the product of the first n public keys
  ghost function Product(l: nat, mi: seq<nat>, n: nat): nat
    requires n <= |mi|
  {
    if n == 0 then 1 else Mul(Product(l, mi, n - 1), Key(l, mi[n - 1]))
  }

  // ---------------------------------------------------------------- keys and products

  lemma KeyDeg(l: nat, m: nat)
    requires m < Pow2(l)
    ensures HasDeg(Key(l, m), l) && Deg(Key(l, m)) == l
    ensures l > 0 ==> Key(l, m) > 1
  {
    DegUnique(Key(l, m), l, Deg(Key(l, m)));
  }

  // A product with x^n + low computed as the code does: multiply by low, XOR a shifted copy.
  lemma MulTop(a: nat, n: nat, low: nat)
    requires low < Pow2(n)
    ensures Add(Mul(a, low), Shl(a, n)) == Mul(a, Pow2(n) + low)
  {
    hide Add, Mul;
    AddDisjoint(1, low, n);
    MulAddR(a, Pow2(n), low);
    MulPow2(a, n);
    MulComm(a, Pow2(n));
    AddComm(Mul(a, low), Shl(a, n));
  }

  lemma {:induction false} ProductDeg(l: nat, mi: seq<nat>, n: nat)
    requires n <= |mi| && Loaded(l, mi)
    ensures HasDeg(Product(l, mi, n), n * l)
  {
    hide Mul;
    if n > 0 {
      ProductDeg(l, mi, n - 1);
      KeyDeg(l, mi[n - 1]);
      MulDeg(Product(l, mi, n - 1), (n - 1) * l, Key(l, mi[n - 1]), l);
      assert (n - 1) * l + l == n * l;
    }
  }

  lemma {:induction false} KeyDividesProduct(l: nat, mi: seq<nat>, n: nat, j: nat)
    requires j < n <= |mi|
    ensures Divides(Key(l, mi[j]), Product(l, mi, n))
  {
    hide Mul;
    var p, f := Product(l, mi, n - 1), Key(l, mi[n - 1]);
    if j == n - 1 {
      assert Divides(f, f) by {
        MulOne(f);
        assert f == Mul(1, f);
      }
      DividesMul(f, f, p);
    } else {
      KeyDividesProduct(l, mi, n - 1, j);
      DividesMul(Key(l, mi[j]), p, f);
    }
  }

  lemma {:induction false} CoprimeToProduct(l: nat, mi: seq<nat>, n: nat, f: nat)
    requires n <= |mi|
    ensures Coprime(f, Product(l, mi, n)) <==> forall j :: 0 <= j < n ==> Coprime(f, Key(l, mi[j]))
  {
    hide Add, Mul;
    if n == 0 {
      MulOne(1);
      MulZero(f);
      AddZero(1);
      CoprimeBy(f, 1, 0, 1);
    } else {
      CoprimeToProduct(l, mi, n - 1, f);
      CoprimeProduct(f, Product(l, mi, n - 1), Key(l, mi[n - 1]));
    }
  }

  lemma PrefixCoprime(l: nat, mi: seq<nat>, n: nat)
    requires n <= |mi| && PairwiseCoprime(l, mi)
    ensures PairwiseCoprime(l, mi[..n])
  {
  }

  lemma {:induction false} ProductDivides(l: nat, mi: seq<nat>, n: nat, a: nat)
    requires n <= |mi| && PairwiseCoprime(l, mi[..n])
    requires forall j :: 0 <= j < n ==> Divides(Key(l, mi[j]), a)
    ensures Divides(Product(l, mi, n), a)
  {
    hide Mul;
    if n == 0 {
      MulOne(a);
      assert a == Mul(a, 1);
    } else {
      var f := Key(l, mi[n - 1]);
      assert mi[..n][..n - 1] == mi[..n - 1];
      PrefixCoprime(l, mi[..n], n - 1);
      ProductDivides(l, mi, n - 1, a);
      forall j | 0 <= j < n - 1
        ensures Coprime(f, Key(l, mi[j]))
      {
        assert mi[..n][j] == mi[j] && mi[..n][n - 1] == mi[n - 1];
      }
      CoprimeToProduct(l, mi, n - 1, f);
      CoprimeSym(f, Product(l, mi, n - 1));
      CoprimeDivides(Product(l, mi, n - 1), f, a);
    }
  }

  // ---------------------------------------------------------------- uniqueness and recovery

  // Below the degree of the product, the shares leave no choice.
  lemma CrtUnique(l: nat, mi: seq<nat>, si: seq<nat>, c: nat, c': nat)
    requires Loaded(l, mi) && |mi| == |si| && PairwiseCoprime(l, mi)
    requires c < Pow2(|mi| * l) && c' < Pow2(|mi| * l)
    requires Interpolates(c, l, mi, si, |mi|) && Interpolates(c', l, mi, si, |mi|)
    ensures c == c'
  {
    hide Add, Mul, Mod, Pow2;
    var n, d := |mi|, Add(c, c');
    forall j | 0 <= j < n
      ensures Divides(Key(l, mi[j]), d)
    {
      CongruentDivides(c, c', Key(l, mi[j]));
    }
    assert mi[..n] == mi;
    ProductDivides(l, mi, n, d);
    ProductDeg(l, mi, n);
    AddLt(c, c', n * l);
    SmallMultiple(Product(l, mi, n), n * l, d);
    AddEqZero(c, c');
  }

  lemma SmallMultiple(f: nat, n: nat, a: nat)
    requires HasDeg(f, n) && a < Pow2(n) && Divides(f, a)
    ensures a == 0
  {
    hide Mod, Mul;
    DegUnique(f, n, Deg(f));
    DividesMod(f, a);
    ModSmall(a, f);
  }

  lemma MaskedBound(l: nat, threshold: nat, m0: nat, k: nat, s: nat)
    requires threshold > 0 && m0 < Pow2(l) && s < Pow2(l) && k < Pow2((threshold - 1) * l)
    ensures Add(Mul(k, Key(l, m0)), s) < Pow2(threshold * l)
  {
    hide Add, Mul, Pow2, Key;
    MaskedBoundAt(l, (threshold - 1) * l, m0, k, s);
    assert (threshold - 1) * l + l == threshold * l;
  }

  lemma MaskedBoundAt(l: nat, n: nat, m0: nat, k: nat, s: nat)
    requires m0 < Pow2(l) && s < Pow2(l) && k < Pow2(n)
    ensures Add(Mul(k, Key(l, m0)), s) < Pow2(n + l)
  {
    hide Add, Mul, Deg;
    Pow2Monotone(l, n + l);
    MulZero(Key(l, m0));
    if k > 0 {
      KeyDeg(l, m0);
      MulDeg(k, Deg(k), Key(l, m0), l);
      if Deg(k) >= n {
        Pow2Monotone(n, Deg(k));
      }
      Pow2Monotone(Deg(k) + l + 1, n + l);
    }
    AddLt(Mul(k, Key(l, m0)), s, n + l);
  }

  /** Any family of at least threshold shares determines the secret: whatever polynomial
      of degree < |mi| * l agrees with the shares, its residue modulo the zero key is s. */
  lemma SharesDetermineSecret(l: nat, threshold: nat, m0: nat, k: nat, s: nat, mi: seq<nat>, c: nat)
    requires 0 < threshold <= |mi| && Loaded(l, mi) && PairwiseCoprime(l, mi)
    requires m0 < Pow2(l) && s < Pow2(l) && k < Pow2((threshold - 1) * l)
    requires c < Pow2(|mi| * l)
    requires forall j :: 0 <= j < |mi| ==>
                           Mod(c, Key(l, mi[j])) == Mod(Add(Mul(k, Key(l, m0)), s), Key(l, mi[j]))
    ensures Mod(c, Key(l, m0)) == s
  {
    hide Add, Mul, Mod, Pow2, Deg, Coprime;
    var full := Add(Mul(k, Key(l, m0)), s);
    MaskedBound(l, threshold, m0, k, s);
    LongerBound(threshold, |mi|, l);
    var si := seq(|mi|, j requires 0 <= j < |mi| => Mod(full, Key(l, mi[j])));
    CrtUnique(l, mi, si, c, full);
    KeyDeg(l, m0);
    ModUnique(full, k, s, Key(l, m0));
  }

  lemma LongerBound(m: nat, n: nat, l: nat)
    requires m <= n
    ensures Pow2(m * l) <= Pow2(n * l)
  {
    assert m * l <= n * l;
    Pow2Monotone(m * l, n * l);
  }

  // ---------------------------------------------------------------- secrecy

  /** Any c below x^(threshold l) is (x^l + m0) k + s for exactly one k and one s. */
  lemma Decomposition(l: nat, threshold: nat, m0: nat, c: nat) returns (k: nat, s: nat)
    requires threshold > 0 && m0 < Pow2(l) && c < Pow2(threshold * l)
    ensures k < Pow2((threshold - 1) * l) && s < Pow2(l) && c == Add(Mul(k, Pow2(l) + m0), s)
    ensures forall k': nat, s': nat :: s' < Pow2(l) && c == Add(Mul(k', Key(l, m0)), s') ==> k' == k && s' == s
  {
    hide Add, Mul, Mod, Div, Pow2, Deg, HasDeg;
    var f := Pow2(l) + m0;
    KeyDeg(l, m0);
    k, s := Div(c, f), Mod(c, f);
    DivMod(c, f);
    assert (threshold - 1) * l + l == threshold * l;
    QuotientBound(l, (threshold - 1) * l, m0, k, s);
    forall k': nat, s': nat | s' < Pow2(l) && c == Add(Mul(k', f), s')
      ensures k' == k && s' == s
    {
      ModUnique(c, k', s', f);
      AddCancel(Mul(k', f), s);
      AddCancel(Mul(k, f), s);
      SameQuotient(l, m0, k, k');
    }
  }

  // A quotient of at least x^n makes the sum at least x^(n + l).
  lemma QuotientBound(l: nat, n: nat, m0: nat, k: nat, s: nat)
    requires m0 < Pow2(l) && s < Pow2(l) && Add(Mul(k, Key(l, m0)), s) < Pow2(n + l)
    ensures k < Pow2(n)
  {
    hide Add, Mul, Deg;
    var m := Mul(k, Key(l, m0));
    Pow2Monotone(l, n + l);
    AddLt(Add(m, s), s, n + l);
    AddCancel(m, s);
    if k > 0 {
      KeyDeg(l, m0);
      MulDeg(k, Deg(k), Key(l, m0), l);
      if Deg(k) >= n {
        Pow2Monotone(n + l, Deg(k) + l);
      }
      Pow2Monotone(Deg(k) + 1, n);
    }
  }

  lemma SameQuotient(l: nat, m0: nat, k: nat, k': nat)
    requires m0 < Pow2(l) && Mul(k, Key(l, m0)) == Mul(k', Key(l, m0))
    ensures k == k'
  {
    hide Add, Mul, Pow2, Deg, HasDeg;
    var f, d := Key(l, m0), Add(k, k');
    MulAddL(k, k', f);
    AddEqZero(Mul(k, f), Mul(k', f));
    AddEqZero(k, k');
    if d > 0 {
      KeyDeg(l, m0);
      NonzeroMultiple(l, m0, d);
    }
  }

  lemma NonzeroMultiple(l: nat, m0: nat, d: nat)
    requires m0 < Pow2(l) && d > 0
    ensures Mul(d, Key(l, m0)) > 0
  {
    hide Mul, Deg;
    KeyDeg(l, m0);
    MulDeg(d, Deg(d), Key(l, m0), l);
  }

  /** Fewer than threshold shares say nothing about the secret: for keys that are coprime with
      the zero key there is a j so that every k for s and k + j for s' give the same shares. */
  lemma SharesHideSecret(l: nat, threshold: nat, m0: nat, mi: seq<nat>, s: nat, s': nat) returns (j: nat)
    requires |mi| < threshold && Loaded(l, mi) && m0 < Pow2(l) && s < Pow2(l) && s' < Pow2(l)
    requires forall i :: 0 <= i < |mi| ==> Coprime(Key(l, m0), Key(l, mi[i]))
    ensures forall k: nat :: k < Pow2((threshold - 1) * l) ==> Add(k, j) < Pow2((threshold - 1) * l)
    ensures forall k: nat, i :: 0 <= i < |mi| ==>
              Mod(Add(Mul(k, Pow2(l) + m0), s), Pow2(l) + mi[i])
              == Mod(Add(Mul(Add(k, j), Pow2(l) + m0), s'), Pow2(l) + mi[i])
  {
    hide Add, Mul, Mod, Pow2, Deg, Coprime, Divides, Key;
    var n, f := |mi|, Key(l, m0);
    var g := Product(l, mi, n);
    CoprimeToProduct(l, mi, n, f);
    ProductDeg(l, mi, n);
    DegUnique(g, n * l, Deg(g));
    var d := Add(s, s');
    j := Inverse(f, g, d);
    LongerBound(n, threshold - 1, l);
    forall k: nat | k < Pow2((threshold - 1) * l)
      ensures Add(k, j) < Pow2((threshold - 1) * l)
    {
      AddLt(k, j, (threshold - 1) * l);
    }
    forall i | 0 <= i < n
      ensures Key(l, mi[i]) > 0
    {
      KeyDeg(l, mi[i]);
    }
    forall k: nat, i | 0 <= i < n
      ensures Mod(Add(Mul(k, f), s), Key(l, mi[i])) == Mod(Add(Mul(Add(k, j), f), s'), Key(l, mi[i]))
    {
      KeyDividesProduct(l, mi, n, i);
      ShiftedDifference(k, j, f, s, s');
      DividesThrough(Key(l, mi[i]), g, Add(Mul(j, f), d));
      CongruentDivides(Add(Mul(k, f), s), Add(Mul(Add(k, j), f), s'), Key(l, mi[i]));
    }
    KeySpelled(l, m0, mi);
  }

  lemma KeySpelled(l: nat, m0: nat, mi: seq<nat>)
    ensures Key(l, m0) == Pow2(l) + m0 && forall i :: 0 <= i < |mi| ==> Key(l, mi[i]) == Pow2(l) + mi[i]
  {
  }

  // Some j below g with j f == d modulo g.
  lemma Inverse(f: nat, g: nat, d: nat) returns (j: nat)
    requires Coprime(f, g) && g > 0
    ensures j < Pow2(Deg(g)) && Divides(g, Add(Mul(j, f), d))
  {
    hide Add, Mul, Mod, Pow2, Deg, Divides;
    var u: nat, v: nat :| Add(Mul(u, f), Mul(v, g)) == 1;
    j := Mod(Mul(d, u), g);
    // d u f + d v g == d
    MulOne(d);
    MulAddR(d, Mul(u, f), Mul(v, g));
    MulAssoc(d, u, f);
    MulAssoc(d, v, g);
    ModMul(Mul(d, u), f, g);
    var a, b := Mul(Mul(d, u), f), Mul(Mul(d, v), g);
    ModMultiple(Mul(d, v), g);
    ModAdd(a, b, g);
    AddZero(Mod(a, g));
    CongruentDivides(Mul(j, f), d, g);
  }

  // (k f + s) + ((k + j) f + s') == j f + (s + s')
  lemma ShiftedDifference(k: nat, j: nat, f: nat, s: nat, s': nat)
    ensures Add(Add(Mul(k, f), s), Add(Mul(Add(k, j), f), s')) == Add(Mul(j, f), Add(s, s'))
  {
    hide Add, Mul;
    MulAddL(k, j, f);
    AddSwap(Mul(k, f), s, Mul(Add(k, j), f), s');
    AddCancel(Mul(j, f), Mul(k, f));
  }

  lemma DividesThrough(f: nat, g: nat, a: nat)
    requires Divides(f, g) && Divides(g, a)
    ensures Divides(f, a)
  {
    hide Add, Mul;
    var q: nat :| a == Mul(q, g);
    DividesMul(f, g, q);
  }

  // ---------------------------------------------------------------- sharing

  method Share(threshold: nat, len: nat, s: nat, m0: nat, mi: seq<nat>, rng: nat -> nat, hasRng: bool)
    returns (code: Err, si: seq<nat>, ghost k: nat)
    requires s < Pow2(8 * len) && m0 < Pow2(8 * len) && Loaded(8 * len, mi)
    requires forall n :: rng(n) < Pow2(n)
    ensures code == if !hasRng then BadRng
                    else if !ValidLen(len) || threshold == 0 || |mi| < threshold then BadInput
                    else Ok
    ensures code == Ok ==>
              && |si| == |mi|
              && k == rng((threshold - 1) * (8 * len)) && Loaded(8 * len, si)
              && (forall i :: 0 <= i < |mi| ==>
                                si[i] == Mod(Add(Mul(k, Pow2(8 * len) + m0), s), Pow2(8 * len) + mi[i]))
  {
    hide Add, Mul, Mod, Deg, Pow2;
    si, k := [], 0;
    if !hasRng {
      return BadRng, si, k;
    }
    if !ValidLen(len) || threshold == 0 || |mi| < threshold {
      return BadInput, si, k;
    }
    var l := 8 * len;
    var r := rng((threshold - 1) * l);
    k := r;
    // c <- (x^l + m0) k + s
    var c := Mul(r, m0);
    c := Add(c, Shl(r, l));
    MulTop(r, l, m0);
    c := Add(c, s);
    var i := 0;
    while i < |mi|
      invariant i <= |mi| && |si| == i && Loaded(l, si)
      invariant forall j :: 0 <= j < i ==> si[j] == Mod(c, Key(l, mi[j]))
    {
      var f := Pow2(l) + mi[i];
      KeyDeg(l, mi[i]);
      si := si + [Mod(c, f)];
      i := i + 1;
    }
    code := Ok;
  }

  // ---------------------------------------------------------------- recovery

  // One step of incremental remaindering: u f c + v g s keeps the old residues and gains a new one.
  lemma CrtStep(f: nat, g: nat, u: nat, v: nat, c: nat, s: nat)
    requires f > 0 && g > 0 && Add(Mul(u, f), Mul(v, g)) == 1
    ensures var n := Add(Mul(Mul(u, c), f), Mul(Mul(v, s), g));
            Mod(n, f) == Mod(s, f) && Mod(n, g) == Mod(c, g)
  {
    hide Add, Mul, Mod;
    CrtHalf(f, g, u, v, c, s);
    AddComm(Mul(u, f), Mul(v, g));
    CrtHalf(g, f, v, u, s, c);
    AddComm(Mul(Mul(u, c), f), Mul(Mul(v, s), g));
  }

  lemma CrtHalf(f: nat, g: nat, u: nat, v: nat, c: nat, s: nat)
    requires f > 0 && Add(Mul(u, f), Mul(v, g)) == 1
    ensures Mod(Add(Mul(Mul(u, c), f), Mul(Mul(v, s), g)), f) == Mod(s, f)
  {
    hide Add, Mul, Mod;
    // v s g == s + u f s
    CrtExpand(f, g, u, v, s);
    ModAdd(Mul(Mul(u, c), f), Mul(Mul(v, s), g), f);
    ModAdd(s, Mul(Mul(u, s), f), f);
    ModMultiple(Mul(u, c), f);
    ModMultiple(Mul(u, s), f);
    AddZero(Mod(s, f));
  }

  lemma CrtExpand(f: nat, g: nat, u: nat, v: nat, s: nat)
    requires Add(Mul(u, f), Mul(v, g)) == 1
    ensures Mul(Mul(v, s), g) == Add(s, Mul(Mul(u, s), f))
  {
    hide Add, Mul;
    MulOne(s);
    MulAddR(s, Mul(u, f), Mul(v, g));
    Slide(s, u, f);
    Slide(s, v, g);
    AddComm(Mul(Mul(u, s), f), Mul(Mul(v, s), g));
    AddCancel(Mul(Mul(v, s), g), Mul(Mul(u, s), f));
  }

  lemma Slide(s: nat, u: nat, f: nat)
    ensures Mul(s, Mul(u, f)) == Mul(Mul(u, s), f)
  {
    hide Mul;
    MulAssoc(s, u, f);
    MulComm(s, u);
  }

  // Residues modulo a divisor of g survive reduction modulo g.
  lemma ModTower(c: nat, g: nat, f: nat)
    requires f > 0 && g > 0 && Divides(f, g)
    ensures Mod(Mod(c, g), f) == Mod(c, f)
  {
    hide Add, Mul, Mod, Div;
    DivMod(c, g);
    DividesMul(f, g, Div(c, g));
    ModAdd(Mul(Div(c, g), g), Mod(c, g), f);
    DividesMod(f, Mul(Div(c, g), g));
    AddZero(Mod(Mod(c, g), f));
  }

  // The product of two keys assembled from the words below their leading ones.
  lemma ProductAssembled(n: nat, low: nat, l: nat, m: nat)
    requires low < Pow2(n) && m < Pow2(l)
    ensures var t := Add(Add(Mul(m, low), Shl(low, l)), Shl(m, n));
            t + Pow2(n + l) == Mul(Pow2(n) + low, Pow2(l) + m)
  {
    hide Add, Mul, Pow2;
    var f, a := Pow2(l) + m, Add(Mul(m, low), Shl(low, l));
    MulComm(m, low);
    MulTop(low, l, m);
    assert a == Mul(low, f);
    // f (x^n + low) == f low + f x^n, and f x^n == x^(n + l) + m x^n
    MulTop(f, n, low);
    MulComm(low, f);
    MulComm(f, Pow2(n) + low);
    AddDisjoint(1, m, l);
    Pow2Add(n, l);
    ShlAdd(Pow2(l), m, n);
    AddComm(Pow2(l) * Pow2(n), Shl(m, n));
    AddAssoc(a, Shl(m, n), Pow2(n + l));
    var t := Add(a, Shl(m, n));
    assert t < Pow2(n + l) by {
      MulLt(low, n, m, l);
      MulComm(low, m);
      ShlLt(low, n, l);
      ShlLt(m, l, n);
      Pow2Add(l, n);
      AddLt(Mul(m, low), Shl(low, l), n + l);
      AddLt(a, Shl(m, n), n + l);
    }
    AddDisjoint(1, t, n + l);
    AddComm(t, Pow2(n + l));
  }

  lemma StepKeepsShares(l: nat, mi: seq<nat>, si: seq<nat>, i: nat, c0: nat, u: nat, v: nat, c: nat)
    requires 1 <= i < |mi| == |si| && Loaded(l, mi) && Loaded(l, si)
    requires c0 < Pow2(i * l) && Interpolates(c0, l, mi, si, i)
    requires Add(Mul(u, Key(l, mi[i])), Mul(v, Product(l, mi, i))) == 1
    requires c == Add(Mul(Mul(u, c0), Key(l, mi[i])), Mul(Mul(v, si[i]), Product(l, mi, i)))
    ensures Product(l, mi, i + 1) > 0
    ensures Interpolates(Mod(c, Product(l, mi, i + 1)), l, mi, si, i + 1)
    ensures Mod(c, Product(l, mi, i + 1)) < Pow2((i + 1) * l)
  {
    hide Add, Mul, Mod, Deg, Pow2, Key;
    var f, g, h := Key(l, mi[i]), Product(l, mi, i), Product(l, mi, i + 1);
    ProductDeg(l, mi, i);
    ProductDeg(l, mi, i + 1);
    DegUnique(g, i * l, Deg(g));
    DegUnique(h, (i + 1) * l, Deg(h));
    KeyDeg(l, mi[i]);
    CrtStep(f, g, u, v, c0, si[i]);
    ModSmall(c0, g);
    ModSmall(si[i], f);
    forall j | 0 <= j < i + 1
      ensures Mod(Mod(c, h), Key(l, mi[j])) == si[j]
    {
      KeyDividesProduct(l, mi, i + 1, j);
      ModTower(c, h, Key(l, mi[j]));
      if j < i {
        KeyDividesProduct(l, mi, i, j);
        ModTower(c, g, Key(l, mi[j]));
      }
    }
  }

  // What ExGcd promises when the product so far meets the next key.
  lemma GcdReady(l: nat, mi: seq<nat>, i: nat)
    requires 0 < l && 0 < i < |mi| && Loaded(l, mi)
    ensures var f, g := Key(l, mi[i]), Product(l, mi, i);
            && f > 1 && g > 1 && Deg(f) == l && Deg(g) == i * l
            && 0 <= g - Pow2(i * l) < Pow2(i * l)
            && (ExGcd(f, g).d == 1 <==> Coprime(f, g))
  {
    hide Mul, Pow2, Deg, ExGcd, Coprime;
    KeyDeg(l, mi[i]);
    ProductDeg(l, mi, i);
    var g, n := Product(l, mi, i), i * l;
    DegUnique(g, n, Deg(g));
    assert 1 <= n;
    Pow2Monotone(1, n);
    Pow2One();
    BelowTop(g, n);
    ExGcdCoprime(Key(l, mi[i]), g);
  }

  // The same step with the products assembled from stored words and leading ones.
  lemma StepAsCoded(l: nat, mi: seq<nat>, si: seq<nat>, i: nat, c0: nat, u: nat, v: nat)
    requires 0 < l && 1 <= i < |mi| == |si| && Loaded(l, mi) && Loaded(l, si)
    requires c0 < Pow2(i * l) && Interpolates(c0, l, mi, si, i)
    requires Add(Mul(u, Key(l, mi[i])), Mul(v, Product(l, mi, i))) == 1
    requires Product(l, mi, i) >= Pow2(i * l)
    ensures var n, m := i * l, mi[i];
            var low, t, d := Product(l, mi, i) - Pow2(n), Mul(u, c0), Mul(v, si[i]);
            var c := Add(Add(Mul(t, m), Shl(t, l)), Add(Mul(d, low), Shl(d, n)));
            var g := Add(Add(Mul(m, low), Shl(low, l)), Shl(m, n)) + Pow2(n + l);
            && g == Product(l, mi, i + 1)
            && Interpolates(Mod(c, g), l, mi, si, i + 1)
            && Mod(c, g) < Pow2((i + 1) * l)
  {
    hide Add, Mul, Shl, Mod, Deg, Pow2, Interpolates, ExGcd, Coprime, HasDeg;
    GcdReady(l, mi, i);
    var n, m := i * l, mi[i];
    var low, t, d := Product(l, mi, i) - Pow2(n), Mul(u, c0), Mul(v, si[i]);
    MulTop(t, l, m);
    MulTop(d, n, low);
    ProductAssembled(n, low, l, m);
    StepKeepsShares(l, mi, si, i, c0, u, v, Add(Mul(t, Pow2(l) + m), Mul(d, Pow2(n) + low)));
  }

  // The gcd test at step i decides whether the first i + 1 keys are pairwise coprime.
  lemma CoprimeSoFar(l: nat, mi: seq<nat>, i: nat)
    requires i < |mi| && PairwiseCoprime(l, mi[..i])
    ensures Coprime(Key(l, mi[i]), Product(l, mi, i)) ==> PairwiseCoprime(l, mi[..i + 1])
    ensures PairwiseCoprime(l, mi) ==> Coprime(Key(l, mi[i]), Product(l, mi, i))
  {
    hide Coprime, Product, Key;
    CoprimeToProduct(l, mi, i, Key(l, mi[i]));
    if Coprime(Key(l, mi[i]), Product(l, mi, i)) {
      OneMoreCoprime(l, mi[..i], mi[i]);
      assert mi[..i + 1] == mi[..i] + [mi[i]];
    }
  }

  lemma OneMoreCoprime(l: nat, mi: seq<nat>, m: nat)
    requires PairwiseCoprime(l, mi) && forall j :: 0 <= j < |mi| ==> Coprime(Key(l, m), Key(l, mi[j]))
    ensures PairwiseCoprime(l, mi + [m])
  {
    hide Coprime, Key;
    var a := mi + [m];
    forall p, q | 0 <= p < q < |a|
      ensures Coprime(Key(l, a[q]), Key(l, a[p]))
    {
      assert a[p] == mi[p];
    }
  }

  lemma FirstShare(l: nat, mi: seq<nat>, si: seq<nat>)
    requires |mi| == |si| > 0 && Loaded(l, mi) && Loaded(l, si)
    ensures Product(l, mi, 1) == Key(l, mi[0]) && Interpolates(si[0], l, mi, si, 1)
    ensures PairwiseCoprime(l, mi[..1])
  {
    hide Mod, Mul, Coprime;
    MulOne(Key(l, mi[0]));
    assert Product(l, mi, 1) == Mul(Product(l, mi, 0), Key(l, mi[0]));
    KeyDeg(l, mi[0]);
    ModSmall(si[0], Key(l, mi[0]));
  }

  method Recover(len: nat, si: seq<nat>, m0: nat, mi: seq<nat>) returns (code: Err, s: nat, ghost full: nat)
    requires |si| == |mi| && m0 < Pow2(8 * len) && Loaded(8 * len, mi) && Loaded(8 * len, si)
    ensures !ValidLen(len) || |si| == 0 ==> code == BadInput
    ensures ValidLen(len) && |si| > 0 ==>
              code == if PairwiseCoprime(8 * len, mi) then Ok else BadPubkey
    ensures code == Ok ==>
              && full < Pow2(|si| * (8 * len))
              && Interpolates(full, 8 * len, mi, si, |si|)
              && s == Mod(full, Key(8 * len, m0))
  {
    hide Add, Mul, Shl, Mod, Deg, Pow2, Coprime, ExGcd, HasDeg, PairwiseCoprime, Interpolates, Divides;
    s, full := 0, 0;
    if !ValidLen(len) || |si| == 0 {
      return BadInput, s, full;
    }
    var l, count := 8 * len, |si|;
    KeyDeg(l, mi[0]);
    var c: nat := si[0];
    var g: nat := Pow2(l) + mi[0];
    FirstShare(l, mi, si);
    var i := 1;
    while i < count
      invariant 1 <= i <= count
      invariant g == Product(l, mi, i) && c < Pow2(i * l)
      invariant Interpolates(c, l, mi, si, i)
      invariant PairwiseCoprime(l, mi[..i])
    {
      var f, n := Pow2(l) + mi[i], i * l;
      GcdReady(l, mi, i);
      var e := ExGcd(f, g);
      CoprimeSoFar(l, mi, i);
      if e.d != 1 {
        return BadPubkey, s, full;
      }
      assert e.u < Pow2(n) && e.v < Pow2(l);  // the coefficients fit their buffers
      ghost var c0: nat := c;
      var low: nat := g - Pow2(n);  // the words of g below its leading one
      // c <- u f c
      var t: nat := Mul(e.u, c);
      c := Mul(t, mi[i]);
      c := Add(c, Shl(t, l));
      // c <- c + v g si
      var d := Mul(e.v, si[i]);
      t := Mul(d, low);
      t := Add(t, Shl(d, n));
      c := Add(c, t);
      // g <- g f
      t := Mul(mi[i], low);
      t := Add(t, Shl(low, l));
      t := Add(t, Shl(mi[i], n));
      g := t + Pow2(n + l);
      // c <- c mod g
      StepAsCoded(l, mi, si, i, c0, e.u, e.v);
      c := Mod(c, g);
      i := i + 1;
    }
    assert mi[..count] == mi;
    full := c;
    KeyDeg(l, m0);
    s := Mod(c, Pow2(l) + m0);
    code := Ok;
  }

  // ---------------------------------------------------------------- recovery undoes sharing

  /** Shares of any at least threshold users, collected in any order, give the secret back. */
  method ShareThenRecover(threshold: nat, len: nat, s: nat, m0: nat, mi: seq<nat>, rng: nat -> nat, users: seq<nat>)
    returns (code: Err, s': nat)
    requires ValidLen(len) && s < Pow2(8 * len) && m0 < Pow2(8 * len) && Loaded(8 * len, mi)
    requires forall n :: rng(n) < Pow2(n)
    requires 0 < threshold <= |users| && threshold <= |mi|
    requires forall j :: 0 <= j < |users| ==> users[j] < |mi|
    requires PairwiseCoprime(8 * len, seq(|users|, j requires 0 <= j < |users| => mi[users[j]]))
    ensures code == Ok && s' == s
  {
    hide Add, Mul, Mod, Deg, Pow2, Coprime;
    var c, si, k := Share(threshold, len, s, m0, mi, rng, true);
    var ms := seq(|users|, j requires 0 <= j < |users| => mi[users[j]]);
    var shares := seq(|users|, j requires 0 <= j < |users| => si[users[j]]);
    ghost var full;
    code, s', full := Recover(len, shares, m0, ms);
    SharesDetermineSecret(8 * len, threshold, m0, k, s, ms, full);
  }
}
