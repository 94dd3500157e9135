/** An abelian group given by its operations, the way ec_o carries the operations on points. */
module Groups {

  datatype Group<!P> = Group(zero: P, add: (P, P) -> P, neg: P -> P)

  ghost predicate Abelian<P(!new)>(g: Group<P>)
  {
    && (forall a, b, c :: g.add(g.add(a, b), c) == g.add(a, g.add(b, c)))
    && (forall a, b :: g.add(a, b) == g.add(b, a))
    && (forall a :: g.add(a, g.zero) == a)
    && (forall a :: g.add(a, g.neg(a)) == g.zero)
  }

  lemma Laws<P(!new)>(g: Group<P>, a: P, b: P, c: P)
    requires Abelian(g)
    ensures g.add(g.add(a, b), c) == g.add(a, g.add(b, c))
    ensures g.add(a, b) == g.add(b, a)
    ensures g.add(a, g.zero) == a && g.add(g.zero, a) == a
    ensures g.add(a, g.neg(a)) == g.zero && g.add(g.neg(a), a) == g.zero
  {
    assert g.add(g.zero, a) == g.add(a, g.zero);
    assert g.add(g.neg(a), a) == g.add(a, g.neg(a));
  }

  // (a + b) + (c + d) == (a + c) + (b + d)
  lemma Swap<P(!new)>(g: Group<P>, a: P, b: P, c: P, d: P)
    requires Abelian(g)
    ensures g.add(g.add(a, b), g.add(c, d)) == g.add(g.add(a, c), g.add(b, d))
  {
    hide Abelian;
    Laws(g, a, b, g.add(c, d));
    Laws(g, b, c, d);
    Laws(g, c, b, d);
    Laws(g, a, c, g.add(b, d));
  }

  lemma Cancel<P(!new)>(g: Group<P>, a: P, b: P, c: P)
    requires Abelian(g) && g.add(a, c) == g.add(b, c)
    ensures a == b
  {
    hide Abelian;
    Laws(g, a, c, g.neg(c));
    Laws(g, b, c, g.neg(c));
    Laws(g, c, c, c);
  }

  lemma NegNeg<P(!new)>(g: Group<P>, a: P)
    requires Abelian(g)
    ensures g.neg(g.neg(a)) == a && g.neg(g.zero) == g.zero
  {
    hide Abelian;
    var n := g.neg(a);
    Laws(g, a, n, n);
    Laws(g, n, n, n);
    Cancel(g, g.neg(n), a, n);
    Laws(g, g.zero, g.zero, g.zero);
    Laws(g, g.neg(g.zero), g.zero, g.zero);
  }

  lemma NegAdd<P(!new)>(g: Group<P>, a: P, b: P)
    requires Abelian(g)
    ensures g.neg(g.add(a, b)) == g.add(g.neg(a), g.neg(b))
  {
    hide Abelian;
    var s, n := g.add(a, b), g.add(g.neg(a), g.neg(b));
    Swap(g, g.neg(a), g.neg(b), a, b);
    Laws(g, a, a, a);
    Laws(g, b, b, b);
    Laws(g, g.zero, g.zero, g.zero);
    Laws(g, s, s, s);
    Cancel(g, n, g.neg(s), s);
  }

  // ---------------------------------------------------------------- multiples

  // k a, for any integer k
  ghost function Times<P>(g: Group<P>, k: int, a: P): P
    decreases if k < 0 then -k + 1 else k
  {
    if k == 0 then g.zero
    else if k > 0 then g.add(a, Times(g, k - 1, a))
    else g.neg(Times(g, -k, a))
  }

  lemma TimesOne<P(!new)>(g: Group<P>, a: P)
    requires Abelian(g)
    ensures Times(g, 0, a) == g.zero && Times(g, 1, a) == a && Times(g, -1, a) == g.neg(a)
  {
    hide Abelian;
    Laws(g, a, a, a);
    assert Times(g, 1, a) == g.add(a, Times(g, 0, a));
  }

  lemma TimesNeg<P(!new)>(g: Group<P>, k: int, a: P)
    requires Abelian(g)
    ensures Times(g, -k, a) == g.neg(Times(g, k, a))
  {
    hide Abelian;
    NegNeg(g, Times(g, -k, a));
    NegNeg(g, a);
  }

  lemma {:induction false} TimesNext<P(!new)>(g: Group<P>, k: int, a: P)
    requires Abelian(g)
    ensures Times(g, k + 1, a) == g.add(a, Times(g, k, a))
  {
    hide Abelian;
    if k < 0 {
      // Times(-k) == a + Times(-k - 1)
      var t := Times(g, -k - 1, a);
      assert Times(g, -k, a) == g.add(a, t);
      TimesNeg(g, -k, a);
      TimesNeg(g, -k - 1, a);
      NegAdd(g, a, t);
      Laws(g, a, g.neg(a), g.neg(t));
      Laws(g, g.neg(t), a, a);
    }
  }

  lemma {:induction false} TimesAdd<P(!new)>(g: Group<P>, j: int, k: int, a: P)
    requires Abelian(g)
    ensures Times(g, j + k, a) == g.add(Times(g, j, a), Times(g, k, a))
    decreases if j < 0 then -j else j
  {
    hide Abelian;
    if j == 0 {
      Laws(g, Times(g, k, a), a, a);
    } else if j > 0 {
      TimesAdd(g, j - 1, k, a);
      TimesNext(g, j - 1 + k, a);
      TimesNext(g, j - 1, a);
      Laws(g, a, Times(g, j - 1, a), Times(g, k, a));
    } else {
      TimesAdd(g, j + 1, k, a);
      TimesNext(g, j + k, a);
      TimesNext(g, j, a);
      Laws(g, a, Times(g, j, a), Times(g, k, a));
      var x, y := Times(g, j + k, a), g.add(Times(g, j, a), Times(g, k, a));
      Laws(g, x, a, a);
      Laws(g, y, a, a);
      Cancel(g, x, y, a);
    }
  }

  lemma {:induction false} TimesTimes<P(!new)>(g: Group<P>, j: int, k: int, a: P)
    requires Abelian(g)
    ensures Times(g, j, Times(g, k, a)) == Times(g, j * k, a)
    decreases if j < 0 then -j + 1 else j
  {
    hide Abelian;
    if j == 0 {
      assert j * k == 0;
    } else if j > 0 {
      TimesTimes(g, j - 1, k, a);
      assert j * k == k + (j - 1) * k;
      TimesAdd(g, k, (j - 1) * k, a);
    } else {
      TimesTimes(g, -j, k, a);
      assert (-j) * k == -(j * k);
      TimesNeg(g, j * k, a);
      TimesNeg(g, -(j * k), a);
    }
  }

  lemma {:induction false} TimesZero<P(!new)>(g: Group<P>, k: int)
    requires Abelian(g)
    ensures Times(g, k, g.zero) == g.zero
  {
    hide Abelian;
    TimesTimes(g, k, 0, g.zero);
    assert k * 0 == 0;
  }
}
