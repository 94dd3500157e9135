/** Divisibility and primes among the integers, as far as modular arithmetic needs them. */
module Numbers {

  lemma DivUnique(a: int, m: nat, q: int, r: nat)
    requires m > 0 && r < m && a == q * m + r
    ensures a / m == q && a % m == r
  {
    var d := a / m - q;
    assert d * m == r - a % m;
    if d != 0 {
      MultipleSize(d, m);
    }
  }

  lemma MultipleSize(d: int, m: int)
    requires d != 0 && m >= 0
    ensures d * m >= m || d * m <= -m
  {
    if d > 0 {
      assert (d - 1) * m >= 0;
    } else {
      assert (-d - 1) * m >= 0;
    }
  }

  lemma ProductGe(a: nat, b: nat)
    requires b > 0
    ensures a * b >= a
  {
    assert a * (b - 1) >= 0;
  }

  lemma NegativeProduct(q: int, p: int)
    requires q < 0 && p > 0
    ensures q * p <= -p
  {
    assert (-q - 1) * p >= 0;
  }

  lemma DivNat(a: nat, p: nat)
    requires p > 0
    ensures a / p >= 0
  {
    var q := a / p;
    assert a == q * p + a % p;
    if q < 0 {
      NegativeProduct(q, p);
    }
  }

  lemma DivLe(a: nat, p: nat)
    requires p > 0
    ensures a / p <= a
  {
    DivNat(a, p);
    var q := a / p;
    ProductGe(q, p);
    assert a == q * p + a % p;
  }

  lemma DivLess(a: nat, p: nat)
    requires p >= 2 && a > 0
    ensures 0 <= a / p < a
  {
    DivNat(a, p);
    var q := a / p;
    assert a == q * p + a % p;
    TwiceLe(q, p);
  }

  lemma TwiceLe(q: nat, p: nat)
    requires p >= 2
    ensures q * p >= 2 * q
  {
    assert q * (p - 2) >= 0;
  }

  lemma StepUp(q: nat, r: nat, m: nat)
    requires q > r
    ensures q * m >= r * m + m
  {
    var d: nat := q - r - 1;
    NatProduct(d, m);
    assert q * m == d * m + r * m + m by {
      assert q == d + r + 1;
    }
  }

  lemma NatProduct(a: nat, b: nat)
    ensures a * b >= 0
  {
  }

  lemma DivDiv(n: nat, a: nat, b: nat)
    requires a > 0 && b > 0
    ensures a * b > 0 && n / (a * b) == (n / a) / b
  {
    DivNat(n, a);
    var m := n / a;
    DivNat(m, b);
    TwoStepDivision(n, a, b, m / b, m % b, n % a);
  }

  lemma TwoStepDivision(n: nat, a: nat, b: nat, q: nat, s: nat, r: nat)
    requires s < b && r < a && n == (q * b + s) * a + r
    ensures a * b > 0 && n / (a * b) == q
  {
    assert (q * b + s) * a == q * (a * b) + s * a;
    assert s * a + r < a * b by {
      StepUp(b, s, a);
    }
    DivUnique(n, a * b, q, s * a + r);
  }

  lemma ModShift(a: int, k: int, m: nat)
    requires m > 0
    ensures (a + k * m) % m == a % m
  {
    var q, r := a / m, a % m;
    assert a + k * m == (q + k) * m + r;
    DivUnique(a + k * m, m, q + k, r);
  }

  // a and b leave the same remainder exactly when they differ by a multiple.
  lemma CongruentBy(a: int, b: int, k: int, m: nat)
    requires m > 0 && a == b + k * m
    ensures a % m == b % m
  {
    ModShift(b, k, m);
  }

  lemma SameModDiff(a: int, b: int, m: nat) returns (k: int)
    requires m > 0 && a % m == b % m
    ensures a == b + k * m
  {
    k := a / m - b / m;
  }

  lemma ModAdd(a: int, b: int, m: nat)
    requires m > 0
    ensures (a % m + b) % m == (a + b) % m
    ensures (a + b % m) % m == (a + b) % m
  {
    CongruentBy(a + b, a % m + b, a / m, m);
    CongruentBy(a + b, a + b % m, b / m, m);
  }

  lemma ModSub(a: int, b: int, m: nat)
    requires m > 0
    ensures (a % m - b) % m == (a - b) % m
    ensures (a - b % m) % m == (a - b) % m
  {
    CongruentBy(a - b, a % m - b, a / m, m);
    CongruentBy(a - b, a - b % m, -(b / m), m);
  }

  lemma ModMul(a: int, b: int, m: nat)
    requires m > 0
    ensures (a % m * b) % m == (a * b) % m
    ensures (a * (b % m)) % m == (a * b) % m
  {
    var q, r := a / m, a % m;
    assert a * b == r * b + (q * b) * m;
    CongruentBy(a * b, r * b, q * b, m);
    var s, t := b / m, b % m;
    assert a * b == a * t + (a * s) * m;
    CongruentBy(a * b, a * t, a * s, m);
  }

  lemma SmallMod(a: nat, m: nat)
    requires a < m
    ensures a % m == a
  {
    DivUnique(a, m, 0, a);
  }

  // ---------------------------------------------------------------- products, one step at a time

  lemma SquareOfProduct(a: int, b: int, q: int, s: int)
    requires a * b == q && s == q * q
    ensures (a * a) * (b * b) == s
  {
    assert (a * b) * (a * b) == (a * a) * (b * b);
  }

  // a in front of b k
  lemma FrontOf(a: int, b: int, k: int, s: int)
    requires b * k == s
    ensures (a * b) * k == a * s
  {
    assert (a * b) * k == a * (b * k);
  }

  lemma FrontOfNamed(a: int, b: int, c: int, k: int, s: int)
    requires c == a * b && b * k == s
    ensures c * k == a * s
  {
    FrontOf(a, b, k, s);
  }

  // (a b) (c d) for b d == q
  lemma Pair(a: int, b: int, c: int, d: int, q: int)
    requires b * d == q
    ensures (a * b) * (c * d) == (a * c) * q
  {
    assert (a * b) * (c * d) == (a * c) * (b * d);
  }

  lemma TwoFactors(c: int, a: int, b: int)
    ensures (c * a) * b == c * (a * b) && a * (c * b) == c * (a * b)
  {
  }

  lemma Commute(a: int, b: int)
    ensures a * b == b * a
  {
  }

  lemma Spread(a: int, b: int, c: int, k: int)
    ensures (a + b - c) * k == a * k + b * k - c * k
  {
  }

  lemma Regroup(a: int, b: int, c: int, d: int)
    ensures a * b * (c * d) == a * c * (b * d)
  {
  }

  lemma Squared(a: int, b: int)
    ensures a * b * (a * b) == a * a * (b * b)
  {
  }

  predicate Prime(p: nat)
  {
    p > 1 && forall d :: 1 < d < p ==> p % d != 0
  }

  // A prime that divides a product divides a factor.
  lemma {:induction false} EuclidLemma(a: nat, b: int, p: nat)
    requires Prime(p) && 0 < a < p && (a * b) % p == 0
    ensures b % p == 0
    decreases a
  {
    if a > 1 {
      var q, r := p / a, p % a;
      assert r > 0;
      // r b == p b - q (a b)
      var k := (a * b) / p;
      assert a * b == k * p;
      assert r * b == (b - q * k) * p by {
        assert r == p - q * a;
        assert r * b == p * b - q * (a * b);
        assert q * (k * p) == (q * k) * p;
      }
      DivUnique(r * b, p, b - q * k, 0);
      EuclidLemma(r, b, p);
    }
  }
}
