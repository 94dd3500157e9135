/** Multiples of a point in a group of prime order. */
module PrimeOrder {
  import opened Groups
  import opened Qr
  import N = Numbers

  // Every element has order q, or is zero.
  ghost predicate OfOrder<P(!new)>(g: Group<P>, q: nat)
  {
    Abelian(g) && N.Prime(q) && forall a :: Times(g, q, a) == g.zero
  }

  lemma OfOrderAt<P(!new)>(g: Group<P>, q: nat, a: P)
    requires OfOrder(g, q)
    ensures Abelian(g) && q > 1 && Times(g, q, a) == g.zero
  {
  }

  lemma TimesPlusMultiple<P(!new)>(g: Group<P>, q: nat, m: int, r: int, v: int, a: P)
    requires OfOrder(g, q) && v == m * q
    ensures Times(g, v + r, a) == Times(g, r, a)
  {
    hide Abelian, OfOrder, Times;
    OfOrderAt(g, q, a);
    TimesAdd(g, v, r, a);
    TimesTimes(g, m, q, a);
    TimesZero(g, m);
    Laws(g, Times(g, r, a), a, a);
  }

  // Scalars count modulo q.
  lemma TimesMod<P(!new)>(g: Group<P>, q: nat, k: int, a: P)
    requires OfOrder(g, q)
    ensures q > 1 && Times(g, k % q, a) == Times(g, k, a)
  {
    hide Abelian, OfOrder, Times;
    OfOrderAt(g, q, a);
    TimesPlusMultiple(g, q, k / q, k % q, k - k % q, a);
  }

  lemma TimesCongruent<P(!new)>(g: Group<P>, q: nat, j: int, k: int, a: P)
    requires OfOrder(g, q) && q > 1 && j % q == k % q
    ensures Times(g, j, a) == Times(g, k, a)
  {
    hide Abelian, OfOrder, Times;
    TimesMod(g, q, j, a);
    TimesMod(g, q, k, a);
  }

  lemma PrimeRing(q: nat)
    requires N.Prime(q)
    ensures Valid(Residues(q)) && Field(Residues(q)) && Size(Residues(q)) == q
  {
  }

  lemma OfOrderPrime<P(!new)>(g: Group<P>, q: nat)
    requires OfOrder(g, q)
    ensures N.Prime(q)
  {
  }

  lemma MulResidues(q: nat, a: nat, b: nat)
    requires q > 1
    ensures Mul(Residues(q), a, b) == (a * b) % q
  {
  }

  /** A multiple k a of a nonzero a vanishes exactly when q divides k. */
  lemma TimesVanishes<P(!new)>(g: Group<P>, q: nat, k: int, a: P)
    requires OfOrder(g, q) && a != g.zero
    ensures q > 1 && (Times(g, k, a) == g.zero <==> k % q == 0)
  {
    hide Abelian, OfOrder, Times, N.Prime, Mul, Inv, Field, Size;
    OfOrderAt(g, q, a);
    OfOrderPrime(g, q);
    PrimeRing(q);
    TimesMod(g, q, k, a);
    TimesOne(g, a);
    var r := k % q;
    if r != 0 && Times(g, k, a) == g.zero {
      // an inverse of k would make a == 1 a vanish
      var i := Inv(Residues(q), r);
      InvLaw(Residues(q), r);
      MulResidues(q, i, r);
      TimesTimes(g, i, r, a);
      TimesZero(g, i);
      TimesMod(g, q, i * r, a);
    }
  }

  // ---------------------------------------------------------------- keys

  // (u - t d) mod q
  function Response(q: nat, u: nat, t: nat, d: nat): (s: nat)
    ensures q > 0 ==> s < q
  {
    if q == 0 then 0 else (u - t * d) % q
  }

  /** u G - t (d G) == s G for the response s; it is also what s G + t (d G) == u G says. */
  lemma ResponseLaw<P(!new)>(g: Group<P>, q: nat, u: nat, t: nat, d: nat, a: P)
    requires OfOrder(g, q) && q > 0
    ensures var s, R := Response(q, u, t, d), Times(g, t, Times(g, d, a));
            && g.add(Times(g, u, a), g.neg(R)) == Times(g, s, a)
            && g.add(Times(g, s, a), R) == Times(g, u, a)
  {
    hide Abelian, OfOrder, Times, Response;
    OfOrderAt(g, q, a);
    TimesTimes(g, t, d, a);
    var v := t * d;
    ResponseIs(g, q, u, t, d, a, v);
    SumWithResponse(g, u, v, a);
  }

  lemma ResponseIs<P(!new)>(g: Group<P>, q: nat, u: nat, t: nat, d: nat, a: P, v: int)
    requires OfOrder(g, q) && q > 0 && v == t * d
    ensures Times(g, Response(q, u, t, d), a) == Times(g, u - v, a)
  {
    hide Abelian, OfOrder, Times;
    TimesMod(g, q, u - v, a);
  }

  lemma SumWithResponse<P(!new)>(g: Group<P>, u: int, v: int, a: P)
    requires Abelian(g)
    ensures g.add(Times(g, u, a), g.neg(Times(g, v, a))) == Times(g, u - v, a)
    ensures g.add(Times(g, u - v, a), Times(g, v, a)) == Times(g, u, a)
  {
    hide Abelian, Times;
    TimesNeg(g, v, a);
    TimesAdd(g, u, -v, a);
    assert u + -v == u - v;
    TimesAdd(g, u - v, v, a);
    assert u - v + v == u;
  }

  // The response as the code computes it: a subtraction modulo q of two residues.
  lemma SubModIs(q: nat, u: nat, v: int)
    requires q > 0 && u < q
    ensures var r := v % q; (if u >= r then u - r else u + q - r) == (u - v) % q
  {
    var r := v % q;
    N.ModSub(u, v, q);
    if u >= r {
      N.SmallMod(u - r, q);
    } else {
      N.DivUnique(u - r, q, -1, u + q - r);
    }
  }
}
