/** In-place reduction of a 2n-word product modulo a trinomial or a pentanomial. */
module Gf2Red {
  import opened PowersOfTwo
  import opened Gf2Poly
  import N = Numbers

  ghost predicate Words(s: seq<nat>, W: nat)
  {
    forall i :: 0 <= i < |s| ==> s[i] < Pow2(W)
  }

  // The polynomial stored in a buffer of W-bit words, lowest word first.
  ghost function Value(s: seq<nat>, W: nat): nat
  {
    if s == [] then 0 else Add(Value(s[..|s| - 1], W), Shl(s[|s| - 1], W * (|s| - 1)))
  }

  // ---------------------------------------------------------------- buffers as polynomials

  // XOR into one word adds a shifted polynomial.
  lemma {:induction false} ValueXor(s: seq<nat>, W: nat, j: nat, e: nat)
    requires j < |s|
    ensures Value(s[j := Add(s[j], e)], W) == Add(Value(s, W), Shl(e, W * j))
  {
    hide Add, Shl;
    var n := |s| - 1;
    var t := s[j := Add(s[j], e)];
    var low, top, x := Value(s[..n], W), Shl(s[n], W * n), Shl(e, W * j);
    if j == n {
      assert t[..n] == s[..n];
      ShlAdd(s[n], e, W * n);
      AddAssoc(low, top, x);
    } else {
      ValueXor(s[..n], W, j, e);
      assert t[..n] == s[..n][j := Add(s[j], e)];
      AddAssoc(low, x, top);
      AddComm(x, top);
      AddAssoc(low, top, x);
    }
  }

  lemma {:induction false} ValueLt(s: seq<nat>, W: nat)
    requires Words(s, W)
    ensures Value(s, W) < Pow2(W * |s|)
  {
    hide Add, Shl, Pow2;
    if s == [] {
      Pow2One();
    } else {
      var n := |s| - 1;
      ValueLt(s[..n], W);
      assert W * n + W == W * |s|;
      ShlLt(s[n], W, W * n);
      Pow2Monotone(W * n, W * |s|);
      AddLt(Value(s[..n], W), Shl(s[n], W * n), W * |s|);
    }
  }

  lemma ValueTop(s: seq<nat>, W: nat, n: nat)
    requires n < |s|
    ensures Value(s[..n + 1], W) == Add(Value(s[..n], W), Shl(s[n], W * n))
  {
    assert s[..n + 1][..n] == s[..n];
  }

  // ---------------------------------------------------------------- splitting a word

  // hi << (W - b) and hi >> b, read as two adjacent words, are hi shifted by W - b.
  lemma SplitWord(hi: nat, W: nat, b: nat)
    requires hi < Pow2(W) && 0 < b < W
    ensures var lo, up := Shl(hi, W - b) % Pow2(W), Shr(hi, b);
            && lo < Pow2(W) && up < Pow2(W)
            && Add(lo, Shl(up, W)) == Shl(hi, W - b)
  {
    hide Add, Pow2, Shl, Shr;
    SplitHalves(hi, W, b);
    SplitParts(W, Shr(hi, b), Shl(hi, W - b) % Pow2(W));
  }

  lemma SplitHalves(hi: nat, W: nat, b: nat)
    requires hi < Pow2(W) && 0 < b < W
    ensures var lo, up := Shl(hi, W - b) % Pow2(W), Shr(hi, b);
            lo < Pow2(W) && up < Pow2(W) && Shl(hi, W - b) == up * Pow2(W) + lo
  {
    hide Pow2;
    var p, q := Pow2(b), Pow2(W - b);
    Pow2Add(W - b, b);
    N.DivLe(hi, p);
    ScaledDiv(hi, p, q);
  }

  lemma SplitParts(W: nat, up: nat, lo: nat)
    requires lo < Pow2(W)
    ensures Add(lo, Shl(up, W)) == up * Pow2(W) + lo
  {
    hide Add, Pow2;
    AddDisjoint(up, lo, W);
    AddComm(Shl(up, W), lo);
  }

  // (hi q) divided by q p
  lemma ScaledDiv(hi: nat, p: nat, q: nat)
    requires p > 0 && q > 0
    ensures q * p > 0
    ensures (hi * q) % (q * p) == (hi % p) * q < q * p
    ensures hi * q == (hi / p) * (q * p) + (hi % p) * q
  {
    var u, r := hi / p, hi % p;
    assert hi == u * p + r;
    assert hi * q == u * (q * p) + r * q by {
      assert (u * p) * q == u * (q * p);
    }
    ProductLt(r, p, q);
    assert q * p == p * q;
    N.DivUnique(hi * q, q * p, u, r * q);
  }

  lemma ShrNone(h: nat)
    ensures Shr(h, 0) == h
  {
    Pow2One();
  }

  // A shift to the right of something shifted further to the left loses no bits.
  lemma ShiftBack(h: nat, c: nat, b: nat)
    requires b <= c
    ensures Shr(Shl(h, c), b) == Shl(h, c - b)
  {
    hide Pow2;
    Pow2Add(c - b, b);
    TimesAssoc(h, Pow2(c - b), Pow2(b));
    N.DivUnique(Shl(h, c), Pow2(b), Shl(h, c - b), 0);
  }

  lemma ShrLt(hi: nat, W: nat, b: nat)
    requires hi < Pow2(W)
    ensures Shr(hi, b) < Pow2(W)
  {
    N.DivLe(hi, Pow2(b));
  }

  // ---------------------------------------------------------------- one monomial

  /** a[n - w - 1] ^= hi << (W - b), a[n - w] ^= hi >> b: the word hi == h x^c standing at
      position n is added W w + b places lower. */
  method XorLower(a: array<nat>, W: nat, n: nat, w: nat, b: nat, hi: nat, ghost h: nat, ghost c: nat)
    requires Words(a[..], W) && hi < Pow2(W) && hi == Shl(h, c)
    requires 0 < w <= n < a.Length && b < W && W * w + b <= W * n + c
    modifies a
    ensures Words(a[..], W)
    ensures Value(a[..n], W) == Add(old(Value(a[..n], W)), Shl(h, W * n + c - (W * w + b)))
    ensures a[n..] == old(a[n..])
  {
    hide Add, Shl, Pow2, Value;
    ghost var s := a[..n];
    if w < n && b != 0 {
      var lo := Shl(hi, W - b) % Pow2(W);
      SplitWord(hi, W, b);
      AddLt(a[n - w - 1], lo, W);
      a[n - w - 1] := Add(a[n - w - 1], lo);
      assert a[..n] == s[n - w - 1 := Add(s[n - w - 1], lo)];
    }
    ShrLt(hi, W, b);
    AddLt(a[n - w], Shr(hi, b), W);
    a[n - w] := Add(a[n - w], Shr(hi, b));
    LowerValue(s, W, n, w, b, hi, h, c, a[..n]);
  }

  lemma LowerValue(s: seq<nat>, W: nat, n: nat, w: nat, b: nat, hi: nat, h: nat, c: nat, t: seq<nat>)
    requires |s| == n && hi < Pow2(W) && hi == Shl(h, c)
    requires 0 < w <= n && b < W && W * w + b <= W * n + c
    requires var lo := Shl(hi, W - b) % Pow2(W);
             var s' := if w < n && b != 0 then s[n - w - 1 := Add(s[n - w - 1], lo)] else s;
             t == s'[n - w := Add(s'[n - w], Shr(hi, b))]
    ensures Value(t, W) == Add(Value(s, W), Shl(h, W * n + c - (W * w + b)))
  {
    hide Add, Shl, Shr, Pow2, Value;
    var e, up := W * n + c - (W * w + b), Shr(hi, b);
    if w < n && b != 0 {
      LowerTwoWords(s, W, n, w, b, hi, h, c);
    } else {
      ValueXor(s, W, n - w, up);
      assert W * n == W * w + W * (n - w);
      if b == 0 {
        ShrNone(hi);
        ShlShl(h, c, W * (n - w));
      } else {
        ShiftBack(h, c, b);
        ShlShl(h, c - b, 0);
      }
    }
  }

  lemma LowerTwoWords(s: seq<nat>, W: nat, n: nat, w: nat, b: nat, hi: nat, h: nat, c: nat)
    requires |s| == n && hi < Pow2(W) && hi == Shl(h, c)
    requires 0 < w < n && 0 < b < W && W * w + b <= W * n + c
    ensures var lo, up := Shl(hi, W - b) % Pow2(W), Shr(hi, b);
            var s' := s[n - w - 1 := Add(s[n - w - 1], lo)];
            Value(s'[n - w := Add(s'[n - w], up)], W)
            == Add(Value(s, W), Shl(h, W * n + c - (W * w + b)))
  {
    hide Add, Shl, Shr, Pow2, Value;
    var j, lo, up := n - w - 1, Shl(hi, W - b) % Pow2(W), Shr(hi, b);
    SplitWord(hi, W, b);
    var s' := s[j := Add(s[j], lo)];
    ValueXor(s, W, j, lo);
    ValueXor(s', W, j + 1, up);
    AddAssoc(Value(s, W), Shl(lo, W * j), Shl(up, W * (j + 1)));
    TwoWords(lo, up, W, j, Shl(hi, W - b));
    ShlShl(h, c, W - b);
    ShlShl(h, c + (W - b), W * j);
    PlaceSum(W, n, w, j);
  }

  lemma PlaceSum(W: nat, n: nat, w: nat, j: nat)
    requires n == w + j + 1
    ensures W * n == W * w + W * j + W
  {
  }

  lemma TwoWords(lo: nat, up: nat, W: nat, j: nat, v: nat)
    requires Add(lo, Shl(up, W)) == v
    ensures Add(Shl(lo, W * j), Shl(up, W * (j + 1))) == Shl(v, W * j)
  {
    hide Add, Shl;
    assert W + W * j == W * (j + 1);
    ShlShl(up, W, W * j);
    ShlAdd(lo, Shl(up, W), W * j);
  }

  // ---------------------------------------------------------------- reduction

  // Modulo x^m + tail, x^m may be replaced by the tail.
  lemma Replace(p: nat, y: nat, m: nat, tail: nat, f: nat)
    requires f > 0 && f == Add(Pow2(m), tail)
    ensures Mod(Add(p, Shl(y, m)), f) == Mod(Add(p, Mul(y, tail)), f)
  {
    hide Add, Mul, Mod, Pow2, Shl;
    ShlMul(y, m);
    MulAddR(y, Pow2(m), tail);
    var s, t := Shl(y, m), Mul(y, tail);
    ModMultiple(y, f);
    ModAdd(s, t, f);
    AddEqZero(Mod(s, f), Mod(t, f));
    ModAdd(p, s, f);
    ModAdd(p, t, f);
  }

  /** A sparse modulus x^m + x^ks[0] + ... + x^ks[last] + 1. */
  ghost function Tail(ks: seq<nat>): nat
  {
    if ks == [] then 1 else Add(Tail(ks[..|ks| - 1]), Pow2(ks[|ks| - 1]))
  }

  ghost function Modulus(m: nat, ks: seq<nat>): nat
  {
    Add(Pow2(m), Tail(ks))
  }

  // The summands y and y x^k of y * tail, in the order the code adds them.
  ghost function Summands(y: nat, ks: seq<nat>): nat
  {
    if ks == [] then y else Add(Summands(y, ks[..|ks| - 1]), Shl(y, ks[|ks| - 1]))
  }

  lemma {:induction false} SummandsTail(y: nat, ks: seq<nat>)
    ensures Summands(y, ks) == Mul(y, Tail(ks))
  {
    hide Add, Mul, Pow2, Shl;
    if ks == [] {
      MulOne(y);
    } else {
      var k := ks[|ks| - 1];
      SummandsTail(y, ks[..|ks| - 1]);
      MulAddR(y, Tail(ks[..|ks| - 1]), Pow2(k));
      ShlMul(y, k);
    }
  }

  lemma {:induction false} ModulusDeg(m: nat, ks: seq<nat>)
    requires m > 0 && forall i :: 0 <= i < |ks| ==> ks[i] < m
    ensures Tail(ks) < Pow2(m) && HasDeg(Modulus(m, ks), m) && Deg(Modulus(m, ks)) == m
  {
    hide Add, Pow2;
    TailLt(m, ks);
    Pow2Monotone(m, m + 1);
    Pow2Step(m);
    AddDeg(Pow2(m), Tail(ks), m);
    DegUnique(Modulus(m, ks), m, Deg(Modulus(m, ks)));
  }

  lemma {:induction false} TailLt(m: nat, ks: seq<nat>)
    requires m > 0 && forall i :: 0 <= i < |ks| ==> ks[i] < m
    ensures Tail(ks) < Pow2(m)
  {
    hide Add;
    if ks == [] {
    } else {
      var k := ks[|ks| - 1];
      TailLt(m, ks[..|ks| - 1]);
      Pow2Monotone(k + 1, m);
      AddLt(Tail(ks[..|ks| - 1]), Pow2(k), m);
    }
  }

  lemma Pow2Congruent(m: nat, ks: seq<nat>, p: nat, y: nat)
    requires m > 0 && forall i :: 0 <= i < |ks| ==> ks[i] < m
    ensures Modulus(m, ks) > 0
    ensures Mod(Add(p, Shl(y, m)), Modulus(m, ks)) == Mod(Add(p, Summands(y, ks)), Modulus(m, ks))
  {
    hide Add, Mul, Mod, Pow2, Shl, Tail, Summands, Deg;
    ModulusDeg(m, ks);
    SummandsTail(y, ks);
    Replace(p, y, m, Tail(ks), Modulus(m, ks));
  }

  // What one pass over the monomials leaves of the words below position n.
  ghost predicate Spread(v: nat, p: nat, y: nat, ks: seq<nat>)
  {
    v == Add(p, Summands(y, ks))
  }

  lemma SpreadNext(v: nat, p: nat, y: nat, ks: seq<nat>, k: nat, v': nat)
    requires Spread(v, p, y, ks) && v' == Add(v, Shl(y, k))
    ensures Spread(v', p, y, ks + [k])
  {
    hide Add, Shl;
    assert (ks + [k])[..|ks|] == ks;
    AddAssoc(p, Summands(y, ks), Shl(y, k));
  }

  // A whole word at position n > m / W is folded away.
  lemma FoldWord(s: seq<nat>, W: nat, n: nat, m: nat, ks: seq<nat>, v: nat)
    requires n < |s| && 0 < m <= W * n && forall i :: 0 <= i < |ks| ==> ks[i] < m
    requires Spread(v, Value(s[..n], W), Shl(s[n], W * n - m), ks)
    ensures Modulus(m, ks) > 0
    ensures Mod(v, Modulus(m, ks)) == Mod(Value(s[..n + 1], W), Modulus(m, ks))
  {
    hide Add, Mul, Mod, Pow2, Shl, Tail, Summands, Deg, Value, Modulus;
    ValueTop(s, W, n);
    ShlShl(s[n], W * n - m, m);
    Pow2Congruent(m, ks, Value(s[..n], W), Shl(s[n], W * n - m));
  }

  // x == r + h x^bm at position N: what stays, and h x^(N + bm).
  lemma LastBefore(low: nat, x: nat, r: nat, h: nat, N: nat, bm: nat)
    requires x == Add(r, Shl(h, bm))
    ensures Add(low, Shl(x, N)) == Add(Add(low, Shl(r, N)), Shl(h, N + bm))
  {
    hide Add, Shl;
    ShlAdd(r, Shl(h, bm), N);
    ShlShl(h, bm, N);
    AddAssoc(low, Shl(r, N), Shl(h, N + bm));
  }

  lemma LastValue(low: nat, x: nat, r: nat, h: nat, N: nat, bm: nat, ks: seq<nat>, v: nat)
    requires x == Add(r, Shl(h, bm)) && Spread(v, low, h, ks)
    requires N + bm > 0 && forall i :: 0 <= i < |ks| ==> ks[i] < N + bm
    ensures Modulus(N + bm, ks) > 0
    ensures Mod(Add(v, Shl(r, N)), Modulus(N + bm, ks)) == Mod(Add(low, Shl(x, N)), Modulus(N + bm, ks))
  {
    hide Add, Mod, Shl, Summands, Modulus;
    LastBefore(low, x, r, h, N, bm);
    Pow2Congruent(N + bm, ks, Add(low, Shl(r, N)), h);
    SwapLast(low, Summands(h, ks), Shl(r, N));
  }

  // The word with the monomial x^m keeps its bits below x^m; the result is the remainder.
  lemma FoldLast(s: seq<nat>, W: nat, n: nat, bm: nat, ks: seq<nat>, v: nat, t: seq<nat>)
    requires n < |s| && 0 < W * n + bm && bm < W && |t| == n + 1 && Words(t, W)
    requires forall i :: 0 <= i < |ks| ==> ks[i] < W * n + bm
    requires Spread(v, Value(s[..n], W), Shr(s[n], bm), ks)
    requires Value(t[..n], W) == v && t[n] == Add(s[n], Shl(Shr(s[n], bm), bm))
    ensures Modulus(W * n + bm, ks) > 0
    ensures Value(t, W) == Mod(Value(s[..n + 1], W), Modulus(W * n + bm, ks))
    ensures bm == 0 ==> Value(t[..n], W) == Value(t, W)
  {
    hide Add, Mod, Pow2, Shl, Shr, Value, Modulus, Spread;
    LowBits(s[n], bm);
    ValueTop(s, W, n);
    ValueTop(t, W, n);
    assert t[..n + 1] == t;
    LastIsReduced(t, W, n, bm, ks);
    LastValue(Value(s[..n], W), s[n], t[n], Shr(s[n], bm), W * n, bm, ks, v);
    if bm == 0 {
      Pow2One();
      ShlZero(W * n);
      AddZero(Value(t[..n], W));
    }
  }

  lemma SwapLast(a: nat, b: nat, c: nat)
    ensures Add(Add(a, b), c) == Add(Add(a, c), b)
  {
    hide Add;
    AddAssoc(a, b, c);
    AddComm(b, c);
    AddAssoc(a, c, b);
  }

  lemma LastIsReduced(t: seq<nat>, W: nat, n: nat, bm: nat, ks: seq<nat>)
    requires |t| == n + 1 && Words(t, W) && t[n] < Pow2(bm) && 0 < W * n + bm
    requires forall i :: 0 <= i < |ks| ==> ks[i] < W * n + bm
    ensures Modulus(W * n + bm, ks) > 0
    ensures Mod(Value(t, W), Modulus(W * n + bm, ks)) == Value(t, W)
  {
    hide Add, Mod, Pow2, Shl, Tail, Deg, Value, Modulus;
    ModulusDeg(W * n + bm, ks);
    ReducedLt(t, W, n, bm);
    ModSmall(Value(t, W), Modulus(W * n + bm, ks));
  }

  lemma ShlZero(n: nat)
    ensures Shl(0, n) == 0
  {
  }

  lemma LowBits(a: nat, b: nat)
    ensures var h, r := Shr(a, b), a % Pow2(b);
            && Add(a, Shl(h, b)) == r < Pow2(b)
            && a == Add(r, Shl(h, b))
  {
    hide Add, Pow2;
    var h, r := a / Pow2(b), a % Pow2(b);
    AddDisjoint(h, r, b);
    AddComm(Shl(h, b), r);
    AddCancel(r, Shl(h, b));
  }

  lemma ReducedLt(t: seq<nat>, W: nat, n: nat, bm: nat)
    requires |t| == n + 1 && Words(t, W) && t[n] < Pow2(bm)
    ensures Value(t, W) < Pow2(W * n + bm)
  {
    hide Add, Pow2, Shl, Value;
    ValueTop(t, W, n);
    assert t[..n + 1] == t;
    ValueLt(t[..n], W);
    Pow2Monotone(W * n, W * n + bm);
    ShlLt(t[n], bm, W * n);
    AddLt(Value(t[..n], W), Shl(t[n], W * n), W * n + bm);
  }

  // ---------------------------------------------------------------- trinomials

  // gf2_trinom_st: the exponents split into whole words and bits.
  datatype Trinomial = Trinomial(m: nat, k: nat, bm: nat, wm: nat, bk: nat, wk: nat)

  // gf2Create refuses m % 8 == 0, so bm is never 0.
  ghost predicate ValidTrinomial(p: Trinomial, W: nat, n: nat)
  {
    && 0 < p.k < p.m && W <= p.m - p.k
    && 0 < p.bm < W && p.bk < W
    && p.m == W * p.wm + p.bm
    && p.m == p.k + W * p.wk + p.bk
    && n == p.wm + 1
  }

  lemma Positions(W: nat, m: nat, wm: nat, bm: nat, k: nat, wk: nat, bk: nat)
    requires 0 < W <= m - k && 0 < k && m == W * wm + bm && m == k + W * wk + bk && bm < W && bk < W
    ensures 0 < wk <= wm
    ensures W * wk + bk <= W * wm + bm
  {
    assert W * wk > 0;
    PositiveFactor(W, wk);
    if wk > wm {
      N.StepUp(wk, wm, W);
    }
  }

  lemma PositiveFactor(a: nat, b: nat)
    requires a * b > 0
    ensures b > 0
  {
  }

  lemma WordBound(W: nat, wm: nat, bm: nat, i: nat)
    requires bm < W && wm < i
    ensures W * wm + bm <= W * i
  {
    assert W * i >= W * (wm + 1);
  }

  // One pass of the loop: the word at position i is folded into the words below it.
  method TrinomialWord(a: array<nat>, W: nat, ghost n: nat, p: Trinomial, i: nat)
    requires Words(a[..], W) && ValidTrinomial(p, W, n) && p.wm < i < a.Length
    modifies a
    ensures Words(a[..], W)
    ensures Modulus(p.m, [p.k]) > 0
    ensures Mod(Value(a[..i], W), Modulus(p.m, [p.k])) == Mod(old(Value(a[..i + 1], W)), Modulus(p.m, [p.k]))
  {
    hide Add, Shl, Shr, Pow2, Value, Mod, Summands, Modulus, Spread;
    Positions(W, p.m, p.wm, p.bm, p.k, p.wk, p.bk);
    WordBound(W, p.wm, p.bm, i);
    var hi := a[i];
    ghost var s := a[..];
    ShlNone(hi);
    XorLower(a, W, i, p.wm, p.bm, hi, hi, 0);
    ghost var v0 := Value(a[..i], W);
    XorLower(a, W, i, p.wk, p.bk, hi, hi, 0);
    TrinomialSpread(s, W, i, p.m, p.k, v0, Value(a[..i], W));
    FoldWord(s, W, i, p.m, [p.k], Value(a[..i], W));
  }

  // After the loop: the word with the monomial x^m.
  method TrinomialLastWord(a: array<nat>, W: nat, ghost n: nat, p: Trinomial)
    requires Words(a[..], W) && ValidTrinomial(p, W, n) && p.wm < a.Length
    modifies a
    ensures Words(a[..], W)
    ensures Modulus(p.m, [p.k]) > 0
    ensures Value(a[..p.wm + 1], W) == Mod(old(Value(a[..p.wm + 1], W)), Modulus(p.m, [p.k]))
  {
    hide Add, Shl, Shr, Pow2, Value, Mod, Summands, Modulus, Spread;
    Positions(W, p.m, p.wm, p.bm, p.k, p.wk, p.bk);
    var i := p.wm;
    var hi := Shr(a[i], p.bm);
    ghost var s, h := a[..], hi;
    TopWord(a[i], W, p.bm);
    AddLt(a[0], hi, W);
    a[0] := Add(a[0], hi);
    assert a[..i] == s[..i][0 := Add(s[0], hi)];
    ValueXor(s[..i], W, 0, hi);
    ghost var v0 := Value(a[..i], W);
    hi := Shl(hi, p.bm);
    XorLower(a, W, i, p.wk, p.bk, hi, h, p.bm);
    ghost var v1 := Value(a[..i], W);
    TrinomialLast(s, W, i, h, p.k, v0, v1);
    assert a[i] == a[i..][0] == s[i];
    AddLt(a[i], hi, W);
    a[i] := Add(a[i], hi);
    assert a[..i + 1][..i] == a[..i];
    FoldLast(s, W, i, p.bm, [p.k], v1, a[..i + 1]);
  }

  /** gf2RedTrinomial0 (bk == 0) and gf2RedTrinomial1 (bk != 0): the low n words become
      the remainder of the whole buffer modulo x^m + x^k + 1. */
  method RedTrinomial(a: array<nat>, W: nat, n: nat, p: Trinomial)
    requires a.Length == 2 * n && Words(a[..], W) && ValidTrinomial(p, W, n)
    modifies a
    ensures Words(a[..], W)
    ensures Modulus(p.m, [p.k]) > 0
    ensures Value(a[..n], W) == Mod(old(Value(a[..], W)), Modulus(p.m, [p.k]))
  {
    hide Add, Shl, Pow2, Value, Mod, Summands, Modulus, Deg;
    Positions(W, p.m, p.wm, p.bm, p.k, p.wk, p.bk);
    ModulusDeg(p.m, [p.k]);
    var i := 2 * n - 1;
    assert a[..i + 1] == a[..];
    while i > p.wm
      invariant p.wm <= i < 2 * n && Words(a[..], W)
      invariant Mod(Value(a[..i + 1], W), Modulus(p.m, [p.k])) == Mod(old(Value(a[..], W)), Modulus(p.m, [p.k]))
    {
      TrinomialWord(a, W, n, p, i);
      i := i - 1;
    }
    TrinomialLastWord(a, W, n, p);
  }

  lemma ShlNone(h: nat)
    ensures Shl(h, 0) == h
  {
    Pow2One();
  }

  lemma TopWord(x: nat, W: nat, bm: nat)
    requires x < Pow2(W) && bm < W
    ensures Shr(x, bm) < Pow2(W) && Shl(Shr(x, bm), bm) < Pow2(W)
  {
    hide Pow2;
    N.DivLe(x, Pow2(bm));
  }

  lemma TrinomialSpread(s: seq<nat>, W: nat, n: nat, m: nat, k: nat, v0: nat, v1: nat)
    requires n < |s| && 0 < k < m <= W * n
    requires v0 == Add(Value(s[..n], W), Shl(s[n], W * n - m))
    requires v1 == Add(v0, Shl(s[n], W * n - (m - k)))
    ensures Spread(v1, Value(s[..n], W), Shl(s[n], W * n - m), [k])
  {
    hide Add, Shl, Value;
    var y := Shl(s[n], W * n - m);
    ShlShl(s[n], W * n - m, k);
    SpreadNext(v0, Value(s[..n], W), y, [], k, v1);
    assert [] + [k] == [k];
  }

  lemma TrinomialLast(s: seq<nat>, W: nat, n: nat, h: nat, k: nat, v0: nat, v1: nat)
    requires n < |s|
    requires v0 == Add(Value(s[..n], W), Shl(h, W * 0)) && v1 == Add(v0, Shl(h, k))
    ensures Spread(v1, Value(s[..n], W), h, [k])
  {
    hide Add, Shl, Value;
    ShlNone(h);
    assert W * 0 == 0;
    SpreadNext(v0, Value(s[..n], W), h, [], k, v1);
    assert [] + [k] == [k];
  }

  // ---------------------------------------------------------------- pentanomials

  // gf2_pentanom_st
  datatype Pentanomial = Pentanomial(
    m: nat, k: nat, l: nat, l1: nat,
    bm: nat, wm: nat, bk: nat, wk: nat, bl: nat, wl: nat, bl1: nat, wl1: nat)

  ghost predicate ValidPentanomial(p: Pentanomial, W: nat, n: nat)
  {
    && 0 < p.l1 < p.l < p.k < p.m && W <= p.m - p.k && p.k < W
    && p.bm < W && p.bk < W && p.bl < W && p.bl1 < W
    && p.m == W * p.wm + p.bm
    && p.m == p.k + W * p.wk + p.bk
    && p.m == p.l + W * p.wl + p.bl
    && p.m == p.l1 + W * p.wl1 + p.bl1
    && n == if p.bm == 0 then p.wm else p.wm + 1
  }

  ghost function Inner(p: Pentanomial): seq<nat>
  {
    [p.l1, p.l, p.k]
  }

  lemma PentanomialPositions(W: nat, n: nat, p: Pentanomial)
    requires ValidPentanomial(p, W, n)
    ensures 0 < p.wk <= p.wm && 0 < p.wl <= p.wm && 0 < p.wl1 <= p.wm
    ensures W * p.wk + p.bk <= p.m && W * p.wl + p.bl <= p.m && W * p.wl1 + p.bl1 <= p.m
  {
    Positions(W, p.m, p.wm, p.bm, p.k, p.wk, p.bk);
    Positions(W, p.m, p.wm, p.bm, p.l, p.wl, p.bl);
    Positions(W, p.m, p.wm, p.bm, p.l1, p.wl1, p.bl1);
  }

  // Four XOR passes put y and its three shifts below position n.
  lemma PentanomialSpread(low: nat, y: nat, p: Pentanomial, v0: nat, v1: nat, v2: nat, v3: nat)
    requires v0 == Add(low, y) && v1 == Add(v0, Shl(y, p.l1))
    requires v2 == Add(v1, Shl(y, p.l)) && v3 == Add(v2, Shl(y, p.k))
    ensures Spread(v3, low, y, Inner(p))
  {
    hide Add, Shl;
    SpreadNext(v0, low, y, [], p.l1, v1);
    assert [] + [p.l1] == [p.l1];
    SpreadNext(v1, low, y, [p.l1], p.l, v2);
    assert [p.l1] + [p.l] == [p.l1, p.l];
    SpreadNext(v2, low, y, [p.l1, p.l], p.k, v3);
    assert [p.l1, p.l] + [p.k] == Inner(p);
  }

  method PentanomialWord(a: array<nat>, W: nat, ghost n: nat, p: Pentanomial, i: nat)
    requires Words(a[..], W) && ValidPentanomial(p, W, n) && p.wm < i < a.Length
    modifies a
    ensures Words(a[..], W)
    ensures Modulus(p.m, Inner(p)) > 0
    ensures Mod(Value(a[..i], W), Modulus(p.m, Inner(p)))
            == Mod(old(Value(a[..i + 1], W)), Modulus(p.m, Inner(p)))
  {
    hide Add, Shl, Shr, Pow2, Value, Mod, Summands, Modulus, Spread;
    PentanomialPositions(W, n, p);
    WordBound(W, p.wm, p.bm, i);
    var hi := a[i];
    ghost var s, y := a[..], Shl(hi, W * i - p.m);
    ShlNone(hi);
    ShlShl(hi, W * i - p.m, p.l1);
    ShlShl(hi, W * i - p.m, p.l);
    ShlShl(hi, W * i - p.m, p.k);
    XorLower(a, W, i, p.wm, p.bm, hi, hi, 0);
    ghost var v0 := Value(a[..i], W);
    XorLower(a, W, i, p.wl1, p.bl1, hi, hi, 0);
    ghost var v1 := Value(a[..i], W);
    XorLower(a, W, i, p.wl, p.bl, hi, hi, 0);
    ghost var v2 := Value(a[..i], W);
    XorLower(a, W, i, p.wk, p.bk, hi, hi, 0);
    PentanomialSpread(Value(s[..i], W), y, p, v0, v1, v2, Value(a[..i], W));
    FoldWord(s, W, i, p.m, Inner(p), Value(a[..i], W));
  }

  method PentanomialLastWord(a: array<nat>, W: nat, ghost n: nat, p: Pentanomial)
    requires Words(a[..], W) && ValidPentanomial(p, W, n) && p.wm < a.Length
    modifies a
    ensures Words(a[..], W)
    ensures Modulus(p.m, Inner(p)) > 0
    ensures Value(a[..p.wm + 1], W) == Mod(old(Value(a[..p.wm + 1], W)), Modulus(p.m, Inner(p)))
    ensures p.bm == 0 ==> Value(a[..p.wm], W) == Value(a[..p.wm + 1], W)
  {
    hide Add, Shl, Shr, Pow2, Value, Mod, Summands, Modulus, Spread;
    PentanomialPositions(W, n, p);
    var i := p.wm;
    var hi := Shr(a[i], p.bm);
    ghost var s, h := a[..], hi;
    TopWord(a[i], W, p.bm);
    AddLt(a[0], hi, W);
    a[0] := Add(a[0], hi);
    assert a[..i] == s[..i][0 := Add(s[0], hi)];
    ValueXor(s[..i], W, 0, hi);
    ShlNone(hi);
    assert W * 0 == 0;
    ghost var v0 := Value(a[..i], W);
    hi := Shl(hi, p.bm);
    XorLower(a, W, i, p.wl1, p.bl1, hi, h, p.bm);
    ghost var v1 := Value(a[..i], W);
    XorLower(a, W, i, p.wl, p.bl, hi, h, p.bm);
    ghost var v2 := Value(a[..i], W);
    XorLower(a, W, i, p.wk, p.bk, hi, h, p.bm);
    ghost var v3 := Value(a[..i], W);
    PentanomialSpread(Value(s[..i], W), h, p, v0, v1, v2, v3);
    assert a[i] == a[i..][0] == s[i];
    AddLt(a[i], hi, W);
    a[i] := Add(a[i], hi);
    assert a[..i + 1][..i] == a[..i];
    FoldLast(s, W, i, p.bm, Inner(p), v3, a[..i + 1]);
  }

  /** gf2RedPentanomial: the low n words become the remainder of the whole buffer modulo
      x^m + x^k + x^l + x^l1 + 1. */
  method RedPentanomial(a: array<nat>, W: nat, n: nat, p: Pentanomial)
    requires a.Length == 2 * n && Words(a[..], W) && ValidPentanomial(p, W, n)
    modifies a
    ensures Words(a[..], W)
    ensures Modulus(p.m, Inner(p)) > 0
    ensures Value(a[..n], W) == Mod(old(Value(a[..], W)), Modulus(p.m, Inner(p)))
  {
    hide Add, Shl, Pow2, Value, Mod, Summands, Modulus, Deg;
    PentanomialPositions(W, n, p);
    ModulusDeg(p.m, Inner(p));
    var i := 2 * n - 1;
    assert a[..i + 1] == a[..];
    while i > p.wm
      invariant p.wm <= i < 2 * n && Words(a[..], W)
      invariant Mod(Value(a[..i + 1], W), Modulus(p.m, Inner(p)))
                == Mod(old(Value(a[..], W)), Modulus(p.m, Inner(p)))
    {
      PentanomialWord(a, W, n, p, i);
      i := i - 1;
    }
    PentanomialLastWord(a, W, n, p);
  }
}
