/** GOST R 34.10-2012 signatures (g12sSign, g12sVerify). */
module G12s {
  import opened PowersOfTwo
  import opened Groups
  import opened PrimeOrder
  import opened Octets
  import opened Signing
  import N = Numbers
  import Qr

  // The hash value as a scalar, from octets in big-endian order; 0 is replaced by 1.
  function Scalar(q: nat, hash: seq<nat>): (e: nat)
    requires q > 1
    ensures 0 < e < q
  {
    var e: nat := FromLe(Reversed(hash)) % q;
    if e == 0 then 1 else e
  }

  // r and s in big-endian order
  function Code2(r: nat, s: nat, mo: nat): (sig: seq<nat>)
    ensures |sig| == 2 * mo
  {
    Reversed(ToLe(r, mo)) + Reversed(ToLe(s, mo))
  }

  lemma Code2Parts(r: nat, s: nat, mo: nat)
    requires r < Pow2(8 * mo) && s < Pow2(8 * mo)
    ensures var sig := Code2(r, s, mo);
            && FromLe(Reversed(sig[..mo])) == r && FromLe(Reversed(sig[mo..])) == s
            && FromBe(sig[..mo]) == r && FromBe(sig[mo..]) == s && IsOctets(sig)
            && sig == Reversed(ToLe(s, mo) + ToLe(r, mo))
  {
    hide Pow2, ToLe, FromLe, Reversed, FromBe;
    var x, y := ToLe(r, mo), ToLe(s, mo);
    ReversedTwice(x);
    ReversedTwice(y);
    ReversedSum(y, x);
    FromTo(r, mo);
    FromTo(s, mo);
    assert |Reversed(x)| == mo;
    assert (Reversed(x) + Reversed(y))[..mo] == Reversed(x);
    assert (Reversed(x) + Reversed(y))[mo..] == Reversed(y);
    ReversedBe(Reversed(x));
    ReversedBe(Reversed(y));
    ReversedOctets(x);
    ReversedOctets(y);
  }

  lemma ReversedOctets(s: seq<nat>)
    requires IsOctets(s)
    ensures IsOctets(Reversed(s))
  {
  }

  // r == x(k G) mod q
  ghost function R<P>(c: Curve<P>, k: nat): (r: nat)
    requires c.q > 0
    ensures r < c.q
  {
    c.x(Times(c.g, k, c.base)) % c.q
  }

  function S(q: nat, r: nat, d: nat, k: nat, e: nat): (s: nat)
    requires q > 0
    ensures s < q
  {
    (r * d + k * e) % q
  }

  lemma SIs(q: nat, r: nat, d: nat, k: nat, e: nat)
    requires q > 0
    ensures ((r * d) % q + (k * e) % q) % q == S(q, r, d, k, e)
  {
    N.ModAdd(r * d, (k * e) % q, q);
    N.ModAdd(r * d, k * e, q);
  }

  /** g12sSign. The draws are what the random generator yields; it fails when they run out.
      The first draw with r != 0 makes the signature, and s == 0 is not retried. */
  method Sign<P(!new, ==)>(c: Curve<P>, hash: seq<nat>, d: nat, draws: seq<nat>, mo: nat) returns (code: Code, sig: seq<nat>, ghost i: nat)
    requires Sound(c) && |hash| == mo && c.q <= Pow2(8 * mo)
    requires forall j :: 0 <= j < |draws| ==> 0 < draws[j] < c.q
    ensures c.q > 1 && (d == 0 || d >= c.q <==> code == Err(BadPrivkey))
    ensures code == Err(BadPrivkey) || (code == if i < |draws| then Ok else Err(BadRng))
    ensures code != Err(BadPrivkey) ==>
              i <= |draws| && forall j :: 0 <= j < i ==> c.x(Times(c.g, draws[j], c.base)) % c.q == 0
    ensures code == Ok ==>
              var k, h := draws[i], FromBe(hash) % c.q;
              var r, e := c.x(Times(c.g, k, c.base)) % c.q, if h == 0 then 1 else h;
              && r != 0 && |sig| == 2 * mo && IsOctets(sig)
              && FromBe(sig[..mo]) == r && FromBe(sig[mo..]) == (r * d + k * e) % c.q
              && sig == Code2(R(c, k), S(c.q, R(c, k), d, k, Scalar(c.q, hash)), mo)
  {
    hide Pow2, Abelian, OfOrder, Times, ToLe, FromLe, FromBe, Reversed, Scalar, S, Code2;
    Parts(c);
    sig := [];
    i := 0;
    if d == 0 || d >= c.q {
      return Err(BadPrivkey), [], 0;
    }
    var e: nat := Scalar(c.q, hash);
    var n := 0;
    while n < |draws|
      invariant 0 <= n <= |draws| && i == n
      invariant forall j :: 0 <= j < n ==> c.x(Times(c.g, draws[j], c.base)) % c.q == 0
    {
      var k := draws[n];
      var ok, C := Multiple(c, k);
      var r: nat := c.x(C) % c.q;
      if r != 0 {
        var s := Second(c.q, r, d, k, e);
        SignatureIs(c, hash, d, k, mo);
        sig := Reversed(ToLe(s, mo) + ToLe(r, mo));
        return Ok, sig, n;
      }
      n := n + 1;
      i := n;
    }
    code := Err(BadRng);
  }

  method Second(q: nat, r: nat, d: nat, k: nat, e: nat) returns (s: nat)
    requires q > 0
    ensures s == S(q, r, d, k, e)
  {
    SIs(q, r, d, k, e);
    s := ((r * d) % q + (k * e) % q) % q;
  }

  // The octets of a signature.
  lemma SignatureIs<P(!new)>(c: Curve<P>, hash: seq<nat>, d: nat, k: nat, mo: nat)
    requires c.q > 1 && c.q <= Pow2(8 * mo)
    ensures var h, r := FromBe(hash) % c.q, c.x(Times(c.g, k, c.base)) % c.q;
            var e := if h == 0 then 1 else h;
            var sig := Code2(R(c, k), S(c.q, R(c, k), d, k, Scalar(c.q, hash)), mo);
            && |sig| == 2 * mo && IsOctets(sig)
            && FromBe(sig[..mo]) == r && FromBe(sig[mo..]) == (r * d + k * e) % c.q
            && sig == Reversed(ToLe(S(c.q, r, d, k, Scalar(c.q, hash)), mo) + ToLe(r, mo))
  {
    hide Pow2, Times, ToLe, FromLe, FromBe, Reversed, Code2, S;
    ReversedBe(hash);
    var r, e := R(c, k), Scalar(c.q, hash);
    SExplicit(c.q, r, d, e);
    Code2Parts(r, S(c.q, r, d, k, e), mo);
  }

  // z1 == s v and z2 == -v r modulo q
  function Z1(q: nat, s: nat, v: nat): (z: nat)
    requires q > 0
    ensures z < q
  {
    (s * v) % q
  }

  function Z2(q: nat, v: nat, r: nat): (z: nat)
    requires q > 0
    ensures z < q
  {
    (-(v * r)) % q
  }

  // What g12sVerify answers; key is None when the coordinates are outside the field.
  ghost function Verdict<P>(c: Curve<P>, hash: seq<nat>, sig: seq<nat>, key: Option<P>, mo: nat): Code
    requires c.q > 1 && |sig| == 2 * mo
  {
    var r, s := FromLe(Reversed(sig[..mo])), FromLe(Reversed(sig[mo..]));
    if key.None? then Err(BadPubkey)
    else if s == 0 || r == 0 || s >= c.q || r >= c.q then Err(BadSig)
    else
      var v := Qr.Inv(Qr.Residues(c.q), Scalar(c.q, hash));
      var W := Sum2(c, Z1(c.q, s, v), Z2(c.q, v, r), key.value);
      if W == c.g.zero then Err(BadParams)
      else if c.x(W) % c.q == r then Ok else Err(BadSig)
  }

  method Verify<P(!new, ==)>(c: Curve<P>, hash: seq<nat>, sig: seq<nat>, key: Option<P>, mo: nat) returns (code: Code)
    requires Sound(c) && |hash| == mo && |sig| == 2 * mo
    ensures c.q > 1 && code == Verdict(c, hash, sig, key, mo)
  {
    hide Pow2, Abelian, OfOrder, Times, ToLe, FromLe, Reversed, Scalar, Qr.Inv, Sum2;
    Parts(c);
    if key.None? {
      return Err(BadPubkey);
    }
    var s: nat := FromLe(Reversed(sig[mo..]));
    var r: nat := FromLe(Reversed(sig[..mo]));
    if s == 0 || r == 0 || s >= c.q || r >= c.q {
      return Err(BadSig);
    }
    var e: nat := Scalar(c.q, hash);
    e := Qr.Inv(Qr.Residues(c.q), e);
    s := (s * e) % c.q;
    NegModIs(c.q, e * r);
    e := (e * r) % c.q;
    e := if e == 0 then 0 else c.q - e;
    var ok, W := AddMul2(c, s, e, c.n, key.value);
    if !ok {
      return Err(BadParams);
    }
    s := c.x(W) % c.q;
    code := if r == s then Ok else Err(BadSig);
  }

  // zzNegMod
  lemma NegModIs(q: nat, v: int)
    requires q > 0
    ensures var r := v % q; (if r == 0 then 0 else q - r) == (-v) % q
  {
    var r, h := v % q, v / q;
    if r == 0 {
      assert -v == (-h) * q + 0;
      N.DivUnique(-v, q, -h, 0);
    } else {
      assert -v == (-h - 1) * q + (q - r);
      N.DivUnique(-v, q, -h - 1, q - r);
    }
  }

  // v (s - r d) == k modulo q, when v e == 1
  lemma Recovered(q: nat, e: nat, v: nat, r: nat, d: nat, k: nat, s: nat)
    requires q > 1 && (e * v) % q == 1 && s == S(q, r, d, k, e)
    ensures (Z1(q, s, v) + Z2(q, v, r) * d) % q == k % q
  {
    var z2: nat := (-(v * r)) % q;
    var a := (s * v) / q;
    var b := (-(v * r)) / q;
    var h := (r * d + k * e) / q;
    var w := (e * v) / q;
    assert s * v == a * q + (s * v) % q;
    assert -(v * r) == b * q + z2;
    assert r * d + k * e == h * q + s;
    assert e * v == w * q + 1;
    RecoveredInt(q, e, v, r, d, k, s, a, b, h, w, (s * v) % q, z2);
    N.CongruentBy((s * v) % q + z2 * d, k, k * w - v * h - a - b * d, q);
  }

  lemma RecoveredInt(q: int, e: int, v: int, r: int, d: int, k: int, s: int, a: int, b: int, h: int, w: int, z1: int, z2: int)
    requires s * v == a * q + z1 && -(v * r) == b * q + z2 && r * d + k * e == h * q + s && e * v == w * q + 1
    ensures z1 + z2 * d == k + (k * w - v * h - a - b * d) * q
  {
    SumTimes(r, d, k, e, h, q, v);
    Unit(k, e, v, w, q);
    SumTimesD(z2, v, r, b, q, d);
    Spread(k * w, v * h, a, b * d, q);
  }

  lemma SumTimes(r: int, d: int, k: int, e: int, h: int, q: int, v: int)
    ensures (r * d + k * e - h * q) * v == v * r * d + k * (e * v) - v * h * q
  {
    N.Spread(r * d, k * e, h * q, v);
  }

  lemma Unit(k: int, e: int, v: int, w: int, q: int)
    requires e * v == w * q + 1
    ensures k * (e * v) == k * w * q + k
  {
  }

  lemma SumTimesD(z: int, v: int, r: int, b: int, q: int, d: int)
    requires -(v * r) == b * q + z
    ensures z * d == -(v * r * d) - b * d * q
  {
    assert z == -(v * r) - b * q;
  }

  lemma Spread(a: int, b: int, c: int, d: int, q: int)
    ensures (a - b - c - d) * q == a * q - b * q - c * q - d * q
  {
  }

  // r d + k e == s for the k that is recovered
  lemma RecoveredBack(q: nat, e: nat, v: nat, r: nat, d: nat, s: nat, k: nat)
    requires q > 1 && (e * v) % q == 1 && s < q && k == (Z1(q, s, v) + Z2(q, v, r) * d) % q
    ensures S(q, r, d, k, e) == s
  {
    var z1, z2 := Z1(q, s, v), Z2(q, v, r);
    var a, b, h, w := (s * v) / q, (-(v * r)) / q, (z1 + z2 * d) / q, (e * v) / q;
    assert s * v == a * q + z1;
    assert -(v * r) == b * q + z2;
    assert z1 + z2 * d == h * q + k;
    assert e * v == w * q + 1;
    BackInt(q, e, v, r, d, s, k, a, b, h, w, z1, z2);
    N.DivUnique(r * d + k * e, q, s * w - r * d * w - e * (a + b * d + h), s);
  }

  lemma BackInt(q: int, e: int, v: int, r: int, d: int, s: int, k: int, a: int, b: int, h: int, w: int, z1: int, z2: int)
    requires s * v == a * q + z1 && -(v * r) == b * q + z2 && z1 + z2 * d == h * q + k && e * v == w * q + 1
    ensures r * d + k * e == s + (s * w - r * d * w - e * (a + b * d + h)) * q
  {
    SumTimesD(z2, v, r, b, q, d);
    // k == s v - v r d - (a + b d + h) q
    var m := a + b * d + h;
    Spread(0, a, b * d, h, q);
    BackTimes(s, v, r, d, m, q, e, k);
    Unit(s, e, v, w, q);
    Unit(r * d, e, v, w, q);
    Spread(s * w, r * d * w, e * m, 0, q);
  }

  lemma BackTimes(s: int, v: int, r: int, d: int, m: int, q: int, e: int, k: int)
    requires k == s * v - v * r * d - m * q
    ensures k * e == s * (e * v) - r * d * (e * v) - e * m * q
  {
    N.Spread(s * v, 0, v * r * d + m * q, e);
    N.Spread(v * r * d, m * q, 0, e);
    N.Regroup(s, v, 1, e);
    BackProducts(s, v, r, d, m, q, e);
  }

  lemma BackProducts(s: int, v: int, r: int, d: int, m: int, q: int, e: int)
    ensures s * v * e == s * (e * v) && v * r * d * e == r * d * (e * v) && m * q * e == e * m * q
  {
    assert v * r * d == r * d * v;
  }

  /** Which signatures g12sVerify accepts under the key d G, for any octets: those whose parts
      are in range and belong to one another through some k. */
  lemma VerifyExact<P(!new)>(c: Curve<P>, hash: seq<nat>, sig: seq<nat>, d: nat, mo: nat)
    requires Sound(c) && c.q > 1 && 0 < d < c.q && |sig| == 2 * mo
    ensures var q, h, r, s := c.q, FromBe(hash) % c.q, FromBe(sig[..mo]), FromBe(sig[mo..]);
            var e := if h == 0 then 1 else h;
            var code := Verdict(c, hash, sig, Some(Times(c.g, d, c.base)), mo);
            && (code == Ok <==>
                && 0 < r < q && 0 < s < q
                && exists k :: 0 < k < q && c.x(Times(c.g, k, c.base)) % q == r && s == (r * d + k * e) % q)
            && (code == Err(BadParams) <==> 0 < r < q && 0 < s < q && s == (r * d) % q)
            && (code == Ok || code == Err(BadParams) || code == Err(BadSig))
  {
    hide Pow2, Abelian, OfOrder, Times, FromLe, FromBe, Reversed, S, Qr.Inv, Qr.Mul, Sum2, Z1, Z2;
    Parts(c);
    ReversedBe(hash);
    ReversedBe(sig[..mo]);
    ReversedBe(sig[mo..]);
    var q, e, r, s := c.q, Scalar(c.q, hash), FromBe(sig[..mo]), FromBe(sig[mo..]);
    if 0 < r < q && 0 < s < q {
      PrimeRing(q);
      var v := Qr.Inv(Qr.Residues(q), e);
      Qr.InvLaw(Qr.Residues(q), e);
      MulResidues(q, e, v);
      var k0 := RecoveredKey(q, e, v, r, d, s);
      Sum2Is(c, Z1(q, s, v), Z2(q, v, r), d, k0);
      SExplicit(q, r, d, e);
      OnlyKey(c, q, e, v, r, d, s, k0);
    }
  }

  lemma RecoveredKey(q: nat, e: nat, v: nat, r: nat, d: nat, s: nat) returns (k: nat)
    requires q > 1 && (e * v) % q == 1 && s < q
    ensures k < q && S(q, r, d, k, e) == s && (Z1(q, s, v) + Z2(q, v, r) * d) % q == k % q
    ensures forall k' :: 0 <= k' < q && S(q, r, d, k', e) == s ==> k' == k
  {
    hide S, Z1, Z2;
    k := (Z1(q, s, v) + Z2(q, v, r) * d) % q;
    RecoveredBack(q, e, v, r, d, s, k);
    N.SmallMod(k, q);
    forall k': nat | k' < q && S(q, r, d, k', e) == s
      ensures k' == k
    {
      Recovered(q, e, v, r, d, k', s);
      N.SmallMod(k', q);
    }
  }

  lemma SExplicit(q: nat, r: nat, d: nat, e: nat)
    requires q > 0
    ensures forall k: nat {:trigger S(q, r, d, k, e)} :: S(q, r, d, k, e) == (r * d + k * e) % q
    ensures S(q, r, d, 0, e) == (r * d) % q
  {
  }

  // The multiple of the recovered key decides.
  lemma OnlyKey<P(!new)>(c: Curve<P>, q: nat, e: nat, v: nat, r: nat, d: nat, s: nat, k0: nat)
    requires Sound(c) && q == c.q > 1 && k0 < q && S(q, r, d, k0, e) == s
    requires forall k :: 0 <= k < q && S(q, r, d, k, e) == s ==> k == k0
    ensures Times(c.g, k0, c.base) == c.g.zero <==> s == (r * d) % q
    ensures Times(c.g, k0, c.base) != c.g.zero && c.x(Times(c.g, k0, c.base)) % q == r
            <==> exists k :: 0 < k < q && c.x(Times(c.g, k, c.base)) % q == r && s == (r * d + k * e) % q
  {
    hide Pow2, Abelian, OfOrder, Times, S;
    SExplicit(q, r, d, e);
    TimesVanishes(c.g, q, k0, c.base);
    N.SmallMod(k0, q);
    if k :| 0 < k < q && c.x(Times(c.g, k, c.base)) % q == r && s == (r * d + k * e) % q {
      assert S(q, r, d, k, e) == s;
    }
  }

  /** A signature made by g12sSign is accepted under Q == d G exactly when its s is not 0. */
  lemma SignThenVerify<P(!new)>(c: Curve<P>, hash: seq<nat>, d: nat, k: nat, mo: nat)
    requires Sound(c) && c.q > 1 && c.q <= Pow2(8 * mo) && 0 < d < c.q && 0 < k < c.q && R(c, k) != 0
    ensures var s := S(c.q, R(c, k), d, k, Scalar(c.q, hash));
            Verdict(c, hash, Code2(R(c, k), s, mo), Some(Times(c.g, d, c.base)), mo)
            == if s != 0 then Ok else Err(BadSig)
  {
    hide Pow2, Abelian, OfOrder, Times, ToLe, FromLe, Reversed, Scalar, S, Qr.Inv, Qr.Mul, Sum2, Code2, Z1, Z2;
    Parts(c);
    var q, e := c.q, Scalar(c.q, hash);
    var r := R(c, k);
    var s := S(q, r, d, k, e);
    Code2Parts(r, s, mo);
    PrimeRing(q);
    var v := Qr.Inv(Qr.Residues(q), e);
    Qr.InvLaw(Qr.Residues(q), e);
    MulResidues(q, e, v);
    Recovered(q, e, v, r, d, k, s);
    Sum2Is(c, Z1(q, s, v), Z2(q, v, r), d, k);
    Nonzero(c, k);
  }
}
