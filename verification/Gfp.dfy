/** Arithmetic of a prime field, seen through the map from the integers onto residues. */
module Gfp {
  import opened Qr
  import N = Numbers

  function F(p: nat): Ring
  {
    Residues(p)
  }

  ghost predicate PrimeField(p: nat)
  {
    N.Prime(p) && p > 3
  }

  // The residue of an integer.
  function Rs(p: nat, n: int): (r: nat)
    requires p > 1
    ensures r < p
  {
    n % p
  }

  // zmSub, gfpDouble, gfpHalf
  function Sub(r: Ring, a: nat, b: nat): (c: nat)
    requires Valid(r) && a < Size(r) && b < Size(r)
    ensures c < Size(r)
  {
    Add(r, a, Neg(r, b))
  }

  function Double(r: Ring, a: nat): (c: nat)
    requires Valid(r) && a < Size(r)
    ensures c < Size(r)
  {
    Add(r, a, a)
  }

  function Half(p: nat, a: nat): (c: nat)
    requires p > 1 && p % 2 == 1 && a < p
    ensures c < p
  {
    if a % 2 == 0 then a / 2 else (a + p) / 2
  }

  lemma RsOf(p: nat, a: nat)
    requires p > 1 && a < p
    ensures Rs(p, a) == a
  {
    N.SmallMod(a, p);
  }

  lemma RsBy(p: nat, a: int, b: int, k: int)
    requires p > 1 && a == b + k * p
    ensures Rs(p, a) == Rs(p, b)
  {
    N.CongruentBy(a, b, k, p);
  }

  lemma RsSame(p: nat, a: int, b: int) returns (k: int)
    requires p > 1 && Rs(p, a) == Rs(p, b)
    ensures a == b + k * p
  {
    k := N.SameModDiff(a, b, p);
  }

  lemma MulIs(p: nat, m: int, n: int, k: int)
    requires p > 1 && k == m * n
    ensures Mul(F(p), Rs(p, m), Rs(p, n)) == Rs(p, k)
  {
    N.ModMul(m, n, p);
    N.ModMul(m % p, n, p);
  }

  lemma AddIs(p: nat, m: int, n: int, k: int)
    requires p > 1 && k == m + n
    ensures Add(F(p), Rs(p, m), Rs(p, n)) == Rs(p, k)
  {
    N.ModAdd(m, n, p);
    N.ModAdd(m % p, n, p);
  }

  lemma NegIs(p: nat, n: int)
    requires p > 1
    ensures Neg(F(p), Rs(p, n)) == Rs(p, -n)
  {
    N.CongruentBy(-n, p - n % p, -1 - n / p, p);
  }

  lemma SubIs(p: nat, m: int, n: int, k: int)
    requires p > 1 && k == m - n
    ensures Sub(F(p), Rs(p, m), Rs(p, n)) == Rs(p, k)
  {
    NegIs(p, n);
    AddIs(p, m, -n, k);
  }

  lemma DoubleIs(p: nat, n: int)
    requires p > 1
    ensures Double(F(p), Rs(p, n)) == Rs(p, 2 * n)
  {
    AddIs(p, n, n, 2 * n);
  }

  lemma HalfIs(p: nat, n: int)
    requires p > 1 && p % 2 == 1
    ensures Half(p, Rs(p, 2 * n)) == Rs(p, n)
  {
    var a, k := Rs(p, 2 * n), 2 * n / p;
    // 2n == a + kp, so a and k have the same parity
    assert 2 * n == k * p + a;
    HalfParity(p, n, a, k);
  }

  lemma HalfParity(p: nat, n: int, a: nat, k: int)
    requires p > 1 && p % 2 == 1 && a < p && 2 * n == k * p + a
    ensures Half(p, a) == n % p
  {
    if a % 2 == 0 {
      EvenQuotient(k, p);
      HalfOf(p, n, a / 2, k / 2);
    } else {
      OddQuotient(k, p);
      HalfOf(p, n, (a + p) / 2, (k - 1) / 2);
    }
  }

  lemma HalfOf(p: nat, n: int, h: nat, k: int)
    requires h < p && n == h + k * p
    ensures n % p == h
  {
    N.DivUnique(n, p, k, h);
  }

  lemma EvenQuotient(k: int, p: int)
    requires p % 2 == 1 && (k * p) % 2 == 0
    ensures k % 2 == 0 && k * p == 2 * (k / 2 * p)
  {
    Doubled(k, p);
    N.TwoFactors(2, k / 2, p);
  }

  lemma OddQuotient(k: int, p: int)
    requires p % 2 == 1 && (k * p) % 2 == 1
    ensures k % 2 == 1 && k * p == 2 * ((k - 1) / 2 * p) + p
  {
    Doubled(k, p);
    OddTimes(p, (k - 1) / 2);
    N.Commute(k, p);
    N.Commute((k - 1) / 2, p);
  }

  // k p has the parity of k
  lemma Doubled(k: int, p: int)
    requires p % 2 == 1
    ensures (k * p) % 2 == k % 2 && k * p == 2 * (k * (p / 2)) + k
  {
    var q := p / 2;
    OddTimes(k, q);
    SameParity(k * p, k * q, k);
  }

  lemma SameParity(n: int, m: int, k: int)
    requires n == 2 * m + k
    ensures n % 2 == k % 2
  {
  }

  lemma OddTimes(k: int, q: int)
    ensures k * (2 * q + 1) == 2 * (k * q) + k
  {
  }

  // ---------------------------------------------------------------- zero and division

  lemma ZeroProduct(p: nat, a: int, b: int)
    requires PrimeField(p) && Rs(p, a * b) == 0
    ensures Rs(p, a) == 0 || Rs(p, b) == 0
  {
    MulIs(p, a, b, a * b);
    NoZeroDivisors(F(p), Rs(p, a), Rs(p, b));
  }

  lemma NonzeroProduct(p: nat, a: int, b: int)
    requires PrimeField(p) && Rs(p, a) != 0 && Rs(p, b) != 0
    ensures Rs(p, a * b) != 0
  {
    hide N.Prime;
    if Rs(p, a * b) == 0 {
      ZeroProduct(p, a, b);
    }
  }

  lemma SmallNonzero(p: nat, k: int)
    requires PrimeField(p) && 0 < k <= 3
    ensures Rs(p, k) == k
  {
  }

  // The quotient of two residues, as qrDiv computes it: n / d
  function Quot(r: Ring, n: nat, d: nat): (c: nat)
    requires Valid(r)
    ensures c < Size(r)
  {
    Mul(r, n, Inv(r, d))
  }

  lemma QuotIs(p: nat, n: int, d: int) returns (q: nat)
    requires PrimeField(p) && Rs(p, d) != 0
    ensures q == Quot(F(p), Rs(p, n), Rs(p, d)) < p
    ensures Rs(p, q * d) == Rs(p, n)
  {
    hide N.Prime, Inv;
    var r, e := F(p), Rs(p, d);
    q := Quot(r, Rs(p, n), e);
    InvLaw(r, e);
    MulAssoc(r, Rs(p, n), Inv(r, e), e);
    MulUnit(r, Rs(p, n));
    RsOf(p, q);
    MulIs(p, q, d, q * d);
  }
}
