/** What the signature algorithms share: a group of prime order and two-term sums. */
module Signing {
  import opened PowersOfTwo
  import opened Groups
  import opened PrimeOrder
  import N = Numbers
  import Ec

  datatype Error = BadInput | BadParams | BadOid | BadRng | BadPrivkey | BadPubkey | BadSig
  datatype Code = Ok | Err(error: Error)
  datatype Option<+T> = None | Some(value: T)

  // x: the first coordinate of a point other than O; n words of bits bits hold a scalar
  datatype Curve<!P> = Curve(g: Group<P>, base: P, q: nat, x: P -> nat, bits: nat, n: nat)

  ghost predicate Sound<P(!new)>(c: Curve<P>)
  {
    OfOrder(c.g, c.q) && c.base != c.g.zero && c.bits > 0 && c.q <= Pow2(c.bits * c.n)
  }

  lemma Parts<P(!new)>(c: Curve<P>)
    requires Sound(c)
    ensures Abelian(c.g) && N.Prime(c.q) && c.q > 1
  {
    OfOrderPrime(c.g, c.q);
  }

  method Multiple<P(!new, ==)>(c: Curve<P>, k: nat) returns (ok: bool, R: P)
    requires Sound(c) && k < c.q
    ensures ok <==> k != 0
    ensures ok ==> R == Times(c.g, k, c.base)
  {
    hide Pow2, Abelian, OfOrder, Times;
    Parts(c);
    TimesVanishes(c.g, c.q, k, c.base);
    N.SmallMod(k, c.q);
    ok, R := Ec.MulA(c.g, c.base, k, c.n, c.bits);
  }

  // i G + j Q
  ghost function Sum2<P>(c: Curve<P>, i: nat, j: nat, Q: P): P
  {
    c.g.add(Times(c.g, i, c.base), Times(c.g, j, Q))
  }

  method AddMul2<P(!new, ==)>(c: Curve<P>, i: nat, j: nat, m: nat, Q: P) returns (ok: bool, R: P)
    requires Sound(c)
    ensures ok <==> Sum2(c, i, j, Q) != c.g.zero
    ensures ok ==> R == Sum2(c, i, j, Q)
  {
    hide Pow2, Abelian, OfOrder, Times, Ec.SumOf;
    Parts(c);
    var ts := [Ec.Term(c.base, i, c.n), Ec.Term(Q, j, m)];
    Ec.SumOfTwo(c.g, ts[0], ts[1]);
    ok, R := Ec.AddMulA(c.g, ts, c.bits);
  }

  /** With the key Q == d G the sum i G + j Q is k G whenever i + j d == k modulo q. */
  lemma Sum2Is<P(!new)>(c: Curve<P>, i: nat, j: nat, d: int, k: nat)
    requires Sound(c) && c.q > 0 && (i + j * d) % c.q == k % c.q
    ensures Sum2(c, i, j, Times(c.g, d, c.base)) == Times(c.g, k, c.base)
  {
    hide Pow2, Abelian, OfOrder, Times;
    Parts(c);
    TimesTimes(c.g, j, d, c.base);
    TimesAdd(c.g, i, j * d, c.base);
    TimesCongruent(c.g, c.q, i + j * d, k, c.base);
  }

  lemma Nonzero<P(!new)>(c: Curve<P>, k: nat)
    requires Sound(c) && 0 < k < c.q
    ensures Times(c.g, k, c.base) != c.g.zero
  {
    hide Pow2, Abelian, OfOrder, Times;
    TimesVanishes(c.g, c.q, k, c.base);
    N.SmallMod(k, c.q);
  }
}
