/** Multiples of points by window NAF (ecMulA) and sums of multiples by interleaving
    (ecAddMulA), over any abelian group. */
module Ec {
  import opened PowersOfTwo
  import opened Groups
  import N = Numbers
  import Naf

  // ecNAFWidth
  function NafWidth(l: nat): (w: nat)
    ensures 3 <= w <= 6
  {
    if l >= 336 then 6 else if l >= 120 then 5 else if l >= 40 then 4 else 3
  }

  // pre[i] == (2 i + 1) a
  ghost predicate OddMultiples<P>(g: Group<P>, pre: seq<P>, a: P, w: nat)
  {
    w >= 3 && |pre| == Pow2(w - 2) && forall i :: 0 <= i < |pre| ==> pre[i] == Times(g, 2 * i + 1, a)
  }

  lemma TableSize(w: nat)
    requires w >= 3
    ensures Pow2(w - 2) >= 2 && Pow2(w - 1) == 2 * Pow2(w - 2) && Pow2(w) == 2 * Pow2(w - 1)
  {
    assert Pow2(w - 2) == 2 * Pow2(w - 3);
  }

  // The small odd multiples of a: t <- 2a, pre[i] <- t + pre[i - 1].
  method Precompute<P(!new)>(g: Group<P>, a: P, w: nat) returns (pre: seq<P>)
    requires Abelian(g) && w >= 3
    ensures OddMultiples(g, pre, a, w)
  {
    hide Abelian, Pow2, Times;
    TableSize(w);
    TimesOne(g, a);
    pre := [a];
    var t := g.add(a, a);
    TimesAdd(g, 1, 1, a);
    var i := 1;
    while i < Pow2(w - 2)
      invariant 1 <= i <= Pow2(w - 2) && |pre| == i
      invariant forall j :: 0 <= j < i ==> pre[j] == Times(g, 2 * j + 1, a)
    {
      TimesAdd(g, 2, 2 * (i - 1) + 1, a);
      pre := pre + [g.add(t, pre[i - 1])];
      i := i + 1;
    }
  }

  /** A nonzero symbol adds its digit's multiple of a. */
  method AddSymbol<P(!new)>(g: Group<P>, t: P, pre: seq<P>, w: nat, symbol: nat, ghost d: int, ghost a: P)
    returns (t': P)
    requires Abelian(g) && OddMultiples(g, pre, a, w)
    requires Naf.Digit(d, w) && d != 0 && symbol == Naf.Symbol(d, w)
    ensures t' == g.add(t, Times(g, d, a))
  {
    hide Abelian, Pow2, Times;
    TableSize(w);
    SymbolFacts(d, w, symbol);
    TimesNeg(g, -d, a);
    var hi := Pow2(w - 1);
    if symbol == 1 {
      t' := g.add(t, pre[0]);
    } else if symbol == hi + 1 {  // hi XOR 1
      t' := g.add(t, g.neg(pre[0]));
    } else if symbol >= hi {  // the sign bit is set
      t' := g.add(t, g.neg(pre[(symbol - hi) / 2]));
    } else {
      t' := g.add(t, pre[symbol / 2]);
    }
  }

  lemma SymbolFacts(d: int, w: nat, symbol: nat)
    requires w >= 3 && Naf.Digit(d, w) && d != 0 && symbol == Naf.Symbol(d, w)
    ensures var hi, n := Pow2(w - 1), Pow2(w - 2);
            && (symbol < hi ==> d == 2 * (symbol / 2) + 1 && symbol / 2 < n)
            && (symbol >= hi ==> -d == symbol - hi == 2 * ((symbol - hi) / 2) + 1 && (symbol - hi) / 2 < n)
  {
    hide Pow2;
    TableSize(w);
  }

  // The digits from position j up, read as a number.
  ghost function From(x: seq<int>, j: nat): int
    requires j <= |x|
  {
    Naf.Value(x[j..])
  }

  lemma FromStep(x: seq<int>, j: nat)
    requires j < |x|
    ensures From(x, j) == x[j] + 2 * From(x, j + 1)
    ensures From(x, |x|) == 0 && From(x, 0) == Naf.Value(x)
  {
    assert x[j..][1..] == x[j + 1..];
    assert x[0..] == x;
  }

  lemma DoubleAndAdd<P(!new)>(g: Group<P>, d: int, v: int, a: P)
    requires Abelian(g)
    ensures var t := Times(g, v, a);
            g.add(g.add(t, t), Times(g, d, a)) == Times(g, d + 2 * v, a)
            && g.add(t, t) == Times(g, 2 * v, a)
  {
    hide Abelian, Times;
    TimesAdd(g, v, v, a);
    TimesAdd(g, 2 * v, d, a);
  }

  /** ecMulA: the d-fold of a, for a scalar of m words of B bits each. The result is
      FALSE exactly when it is the point at infinity. */
  method MulA<P(!new, ==)>(g: Group<P>, a: P, d: nat, m: nat, B: nat) returns (ok: bool, b: P)
    requires Abelian(g) && d < Pow2(B * m)
    ensures ok <==> Times(g, d, a) != g.zero
    ensures ok ==> b == Times(g, d, a)
  {
    hide Abelian, Times, Naf.Code, Naf.Digit, Naf.Symbol, Naf.Digits, Naf.GetBits, Pow2, Naf.Value, OddMultiples, Naf.Rest;
    var w := NafWidth(B * m);
    var naf: nat, size: nat;
    ghost var x;
    naf, size, x := Naf.Recode(d, w);
    TimesOne(g, a);
    if size == 0 {
      return false, g.zero;
    }
    var pre := Precompute(g, a, w);
    RestStart(naf, x, w);
    FromStep(x, size - 1);
    // the highest digit is positive: t <- its multiple
    ReadNext(naf, 0, x, size, w);
    TopSymbol(g, pre, a, w, x[size - 1]);
    var s := Naf.GetBits(naf, 0, w);
    var t := pre[s / 2];
    var pos: nat := w;
    size := size - 1;
    while size > 0
      invariant size < |x| && t == Times(g, From(x, size), a)
      invariant Naf.Rest(naf, pos, x[..size], w)
    {
      ReadNext(naf, pos, x, size, w);
      FromStep(x, size - 1);
      DoubleAndAdd(g, x[size - 1], From(x, size), a);
      s := Naf.GetBits(naf, pos, w);
      t := g.add(t, t);
      if s % 2 == 1 {
        t := AddSymbol(g, t, pre, w, s, x[size - 1], a);
        pos := pos + w;
      } else {
        pos := pos + 1;
      }
      size := size - 1;
    }
    FromStep(x, 0);
    ok, b := t != g.zero, t;
  }

  lemma RestStart(naf: nat, x: seq<int>, w: nat)
    requires w > 0 && Naf.Digits(x, w) && naf == Naf.Code(x, w)
    ensures Naf.Rest(naf, 0, x[..|x|], w)
  {
    Pow2One();
    assert x[..|x|] == x;
  }

  lemma ReadNext(naf: nat, pos: nat, x: seq<int>, n: nat, w: nat)
    requires w > 0 && 0 < n <= |x| && Naf.Rest(naf, pos, x[..n], w)
    ensures var d, s := x[n - 1], Naf.GetBits(naf, pos, w);
            && Naf.Digit(d, w)
            && (s % 2 == 1 <==> d != 0)
            && (d == 0 ==> Naf.Rest(naf, pos + 1, x[..n - 1], w))
            && (d != 0 ==> s == Naf.Symbol(d, w) && Naf.Rest(naf, pos + w, x[..n - 1], w))
  {
    hide Naf.Rest, Naf.GetBits, Pow2;
    Naf.ReadSymbol(naf, pos, x[..n], w);
    assert x[..n][..n - 1] == x[..n - 1];
  }

  lemma TopSymbol<P(!new)>(g: Group<P>, pre: seq<P>, a: P, w: nat, d: int)
    requires OddMultiples(g, pre, a, w) && Naf.Digit(d, w) && d > 0
    ensures var s := Naf.Symbol(d, w); s / 2 < |pre| && pre[s / 2] == Times(g, d, a)
  {
    hide Pow2, Times;
    TableSize(w);
    SymbolFacts(d, w, Naf.Symbol(d, w));
  }

  // ---------------------------------------------------------------- sums of multiples

  // An operand of ecAddMulA: the point a and the scalar d of m words.
  datatype Term<P> = Term(a: P, d: nat, m: nat)

  // What is prepared for an operand: its NAF and its table. The digits are a ghost sequence
  // kept beside it.
  datatype Prepared<P> = Prepared(width: nat, size: nat, naf: nat, pre: seq<P>)

  ghost predicate Ready<P(!new)>(g: Group<P>, t: Term<P>, p: Prepared<P>, x: seq<int>)
  {
    && OddMultiples(g, p.pre, t.a, p.width)
    && |x| == p.size && Naf.Digits(x, p.width) && p.naf == Naf.Code(x, p.width)
    && Naf.Value(x) == t.d
  }

  ghost function SumOf<P>(g: Group<P>, ts: seq<Term<P>>): P
  {
    if ts == [] then g.zero
    else g.add(SumOf(g, ts[..|ts| - 1]), Times(g, ts[|ts| - 1].d, ts[|ts| - 1].a))
  }

  lemma SumOfTwo<P(!new)>(g: Group<P>, a: Term<P>, b: Term<P>)
    requires Abelian(g)
    ensures SumOf(g, [a, b]) == g.add(Times(g, a.d, a.a), Times(g, b.d, b.a))
  {
    hide Abelian, Times;
    var x := Times(g, a.d, a.a);
    Laws(g, x, x, x);
    assert [a, b][..1] == [a];
    assert [a][..0] == [];
    assert SumOf(g, [a]) == g.add(SumOf(g, [a][..0]), x);
  }

  // The digits at positions >= level of every operand, as multiples of the points.
  ghost function Partial<P>(g: Group<P>, ts: seq<Term<P>>, xs: seq<seq<int>>, level: nat): P
    requires |ts| == |xs|
  {
    if ts == [] then g.zero
    else
      var n := |ts| - 1;
      g.add(Partial(g, ts[..n], xs[..n], level), Times(g, Above(xs[n], level), ts[n].a))
  }

  ghost function Above(x: seq<int>, level: nat): int
  {
    if level >= |x| then 0 else From(x, level)
  }

  lemma AboveStep(x: seq<int>, level: nat)
    ensures Above(x, level) == 2 * Above(x, level + 1) + if level < |x| then x[level] else 0
  {
    if level < |x| {
      FromStep(x, level);
    }
  }

  lemma {:induction false} PartialAll<P(!new)>(g: Group<P>, ts: seq<Term<P>>, xs: seq<seq<int>>, top: nat)
    requires |ts| == |xs| && Abelian(g)
    requires forall i :: 0 <= i < |ts| ==> Naf.Value(xs[i]) == ts[i].d
    ensures Partial(g, ts, xs, 0) == SumOf(g, ts)
    ensures (forall i :: 0 <= i < |xs| ==> |xs[i]| <= top) ==> Partial(g, ts, xs, top) == g.zero
  {
    hide Abelian, Times;
    if ts != [] {
      var n := |ts| - 1;
      PartialAll(g, ts[..n], xs[..n], top);
      Laws(g, g.zero, g.zero, g.zero);
      TimesOne(g, ts[n].a);
      if xs[n] != [] {
        FromStep(xs[n], 0);
      }
    }
  }

  lemma {:induction false} PartialDouble<P(!new)>(g: Group<P>, ts: seq<Term<P>>, xs: seq<seq<int>>, level: nat)
    requires |ts| == |xs| && Abelian(g)
    ensures var p := Partial(g, ts, xs, level + 1);
            g.add(p, p) == Doubled(g, ts, xs, level, 0)
  {
    hide Abelian, Times, Above;
    if ts == [] {
      Laws(g, g.zero, g.zero, g.zero);
    } else {
      var n := |ts| - 1;
      PartialDouble(g, ts[..n], xs[..n], level);
      var p, q := Partial(g, ts[..n], xs[..n], level + 1), Times(g, Above(xs[n], level + 1), ts[n].a);
      Swap(g, p, q, p, q);
      DoubleAndAdd(g, 0, Above(xs[n], level + 1), ts[n].a);
    }
  }

  // At one level: the first k operands have had their digit added, the others only doubled.
  ghost function Doubled<P>(g: Group<P>, ts: seq<Term<P>>, xs: seq<seq<int>>, level: nat, k: nat): P
    requires |ts| == |xs|
  {
    if ts == [] then g.zero
    else
      var n := |ts| - 1;
      g.add(Doubled(g, ts[..n], xs[..n], level, k),
            Times(g, if n < k then Above(xs[n], level) else 2 * Above(xs[n], level + 1), ts[n].a))
  }

  // Adding the digit of operand k.
  lemma {:induction false} DoubledStep<P(!new)>(g: Group<P>, ts: seq<Term<P>>, xs: seq<seq<int>>, level: nat, k: nat)
    requires |ts| == |xs| && Abelian(g) && k < |ts|
    ensures var d := if level < |xs[k]| then xs[k][level] else 0;
            g.add(Doubled(g, ts, xs, level, k), Times(g, d, ts[k].a)) == Doubled(g, ts, xs, level, k + 1)
  {
    hide Abelian, Times, Above;
    var n := |ts| - 1;
    var d := if level < |xs[k]| then xs[k][level] else 0;
    var rest := Doubled(g, ts[..n], xs[..n], level, k);
    if k == n {
      AboveStep(xs[n], level);
      var v := 2 * Above(xs[n], level + 1);
      TimesAdd(g, v, d, ts[n].a);
      Laws(g, rest, Times(g, v, ts[n].a), Times(g, d, ts[n].a));
      DoubledSame(g, ts[..n], xs[..n], level, k, k + 1);
    } else {
      DoubledStep(g, ts[..n], xs[..n], level, k);
      var v := Times(g, 2 * Above(xs[n], level + 1), ts[n].a);
      var u := Times(g, d, ts[k].a);
      Laws(g, rest, v, u);
      Laws(g, v, u, u);
      Laws(g, rest, u, v);
    }
  }

  lemma {:induction false} DoubledSame<P(!new)>(g: Group<P>, ts: seq<Term<P>>, xs: seq<seq<int>>, level: nat, k: nat, l: nat)
    requires |ts| == |xs| && k >= |ts| && l >= |ts|
    ensures Doubled(g, ts, xs, level, k) == Doubled(g, ts, xs, level, l) == Partial(g, ts, xs, level)
  {
    if ts != [] {
      var n := |ts| - 1;
      DoubledSame(g, ts[..n], xs[..n], level, k, l);
    }
  }

  // wwWordSize
  function WordSize(d: nat, B: nat): nat
    requires B > 0
  {
    if d == 0 then 0
    else
      WordDrop(d, B);
      1 + WordSize(d / Pow2(B), B)
  }

  lemma WordDrop(d: nat, B: nat)
    requires B > 0 && d > 0
    ensures 0 <= d / Pow2(B) < d
  {
    assert Pow2(B) == 2 * Pow2(B - 1);
    N.DivLess(d, Pow2(B));
  }

  function Min(a: nat, b: nat): nat
  {
    if a < b then a else b
  }

  // Operand i has its digits below level `level` still to be read.
  ghost predicate Unread<P>(p: Prepared<P>, x: seq<int>, pos: nat, level: nat)
  {
    p.width > 0 && Naf.Rest(p.naf, pos, x[..Min(level, |x|)], p.width)
  }

  method Prepare<P(!new)>(g: Group<P>, t: Term<P>, B: nat) returns (p: Prepared<P>, ghost x: seq<int>)
    requires Abelian(g) && B > 0
    ensures Ready(g, t, p, x)
  {
    hide Abelian, Naf.Code, Naf.Value, OddMultiples, Naf.Digits, WordSize;
    var m := WordSize(t.d, B);
    var width := NafWidth(B * m);
    var naf, size;
    naf, size, x := Naf.Recode(t.d, width);
    var pre := Precompute(g, t.a, width);
    p := Prepared(width, size, naf, pre);
  }

  // The digit of one operand at the current level, if its NAF is that long.
  method AddDigit<P(!new)>(g: Group<P>, t: P, term: Term<P>, p: Prepared<P>, pos: nat, level: nat, ghost x: seq<int>)
    returns (t': P, pos': nat)
    requires Abelian(g) && Ready(g, term, p, x) && Unread(p, x, pos, level + 1)
    ensures Unread(p, x, pos', level)
    ensures t' == g.add(t, Times(g, if level < |x| then x[level] else 0, term.a))
  {
    hide Abelian, Times, Naf.Code, Naf.Digit, Naf.Symbol, Naf.Digits, Naf.GetBits, Pow2, Naf.Value, OddMultiples, Naf.Rest;
    TimesOne(g, term.a);
    Laws(g, t, t, t);
    t', pos' := t, pos;
    if p.size < level + 1 {
      return;
    }
    ReadNext(p.naf, pos, x, level + 1, p.width);
    var s := Naf.GetBits(p.naf, pos, p.width);
    if s % 2 == 1 {
      t' := AddSymbol(g, t, p.pre, p.width, s, x[level], term.a);
      pos' := pos + p.width;
    } else {
      pos' := pos + 1;
    }
  }

  ghost predicate AllReady<P(!new)>(g: Group<P>, ts: seq<Term<P>>, ps: seq<Prepared<P>>, xs: seq<seq<int>>)
  {
    |ts| == |ps| == |xs| && forall i :: 0 <= i < |ts| ==> Ready(g, ts[i], ps[i], xs[i])
  }

  // The first k operands are at `level`, the others one level higher.
  ghost predicate InStep<P>(ps: seq<Prepared<P>>, xs: seq<seq<int>>, pos: seq<nat>, level: nat, k: nat)
  {
    |ps| == |xs| == |pos|
    && forall i :: 0 <= i < |ps| ==> Unread(ps[i], xs[i], pos[i], if i < k then level else level + 1)
  }

  /** ecAddMulA: the sum of the d-folds of all operands; FALSE exactly when it is O. */
  method AddMulA<P(!new, ==)>(g: Group<P>, ts: seq<Term<P>>, B: nat) returns (ok: bool, b: P)
    requires Abelian(g) && |ts| > 0 && B > 0
    ensures ok <==> SumOf(g, ts) != g.zero
    ensures ok ==> b == SumOf(g, ts)
  {
    hide Abelian, Times, Pow2, Ready, Unread, Partial, Doubled, SumOf, Above;
    var ps: seq<Prepared<P>>, top: nat, pos: seq<nat> := [], 0, [];
    ghost var xs: seq<seq<int>> := [];
    var k := 0;
    while k < |ts|
      invariant 0 <= k <= |ts| && AllReady(g, ts[..k], ps, xs) && |pos| == k
      invariant forall i :: 0 <= i < k ==> |xs[i]| <= top && pos[i] == 0
    {
      var p;
      ghost var x;
      p, x := Prepare(g, ts[k], B);
      ReadySize(g, ts[k], p, x);
      if p.size > top {
        top := p.size;
      }
      ps, xs, pos := ps + [p], xs + [x], pos + [0];
      k := k + 1;
    }
    assert ts[..k] == ts;
    AllStart(g, ts, ps, xs, pos, top);
    var t := g.zero;
    while top > 0
      invariant t == Partial(g, ts, xs, top) && InStep(ps, xs, pos, top, |ts|)
    {
      PartialDouble(g, ts, xs, top - 1);
      t := g.add(t, t);
      var i := 0;
      while i < |ts|
        invariant 0 <= i <= |ts|
        invariant t == Doubled(g, ts, xs, top - 1, i) && InStep(ps, xs, pos, top - 1, i)
      {
        var pos';
        DoubledStep(g, ts, xs, top - 1, i);
        t, pos' := AddDigit(g, t, ts[i], ps[i], pos[i], top - 1, xs[i]);
        pos := pos[i := pos'];
        i := i + 1;
      }
      DoubledSame(g, ts, xs, top - 1, |ts|, |ts|);
      top := top - 1;
    }
    AllDone(g, ts, ps, xs);
    ok, b := t != g.zero, t;
  }

  lemma ReadySize<P(!new)>(g: Group<P>, t: Term<P>, p: Prepared<P>, x: seq<int>)
    requires Ready(g, t, p, x)
    ensures |x| == p.size
  {
  }

  lemma AllStart<P(!new)>(g: Group<P>, ts: seq<Term<P>>, ps: seq<Prepared<P>>, xs: seq<seq<int>>, pos: seq<nat>, top: nat)
    requires Abelian(g) && AllReady(g, ts, ps, xs) && |pos| == |ts|
    requires forall i :: 0 <= i < |ts| ==> |xs[i]| <= top && pos[i] == 0
    ensures Partial(g, ts, xs, top) == g.zero && InStep(ps, xs, pos, top, |ts|)
  {
    hide Abelian, Times, Pow2, Partial, Doubled, SumOf, Above, Naf.Code, Naf.Value, Naf.Rest, Naf.Digits;
    PartialAll(g, ts, xs, top);
    forall i | 0 <= i < |ts|
      ensures Unread(ps[i], xs[i], pos[i], top)
    {
      RestStart(ps[i].naf, xs[i], ps[i].width);
    }
  }

  lemma AllDone<P(!new)>(g: Group<P>, ts: seq<Term<P>>, ps: seq<Prepared<P>>, xs: seq<seq<int>>)
    requires Abelian(g) && AllReady(g, ts, ps, xs)
    ensures Partial(g, ts, xs, 0) == SumOf(g, ts)
  {
    hide Abelian, Times, Pow2, Partial, SumOf, Above, Naf.Code, Naf.Value, OddMultiples;
    PartialAll(g, ts, xs, 0);
  }
}
