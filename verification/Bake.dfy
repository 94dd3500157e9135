/** What the three key-agreement protocols of STB 34.101.66 share: a group of prime order,
    the symmetric primitives, which are parameters, challenges, responses and derived keys. */
module Bake {
  import opened PowersOfTwo
  import opened Groups
  import opened PrimeOrder
  import opened Octets
  import N = Numbers
  import Ec

  datatype Error = BadInput | BadParams | BadRng | BadPoint | BadCert | BadLogic | Auth | FileRead
  datatype Code = Ok | Err(error: Error)
  datatype Option<+T> = None | Some(value: T)

  // The result of a certificate check: the public key or an error.
  datatype Checked = Valid(pubkey: seq<nat>) | Invalid(error: Error)
  datatype Cert = Cert(data: seq<nat>, val: seq<nat> -> Checked)
  datatype Settings = Settings(kca: bool, kcb: bool, helloa: seq<nat>, hellob: seq<nat>)

  // half words of bits bits are the security level l, twice as many hold a scalar
  datatype Suite<!P> = Suite(
    g: Group<P>,
    base: P,
    q: nat,
    bits: nat,
    half: nat,
    encode: P -> seq<nat>,
    decode: seq<nat> -> Option<P>,
    hash: seq<nat> -> seq<nat>,
    krp: (seq<nat>, nat) -> seq<nat>,
    mac: (seq<nat>, seq<nat>) -> seq<nat>,
    cfbE: (seq<nat>, seq<nat>, seq<nat>) -> seq<nat>,
    cfbD: (seq<nat>, seq<nat>, seq<nat>) -> seq<nat>,
    ecbE: (seq<nat>, seq<nat>) -> seq<nat>,
    ecbD: (seq<nat>, seq<nat>) -> seq<nat>,
    swu: seq<nat> -> P)

  function L<P>(su: Suite<P>): nat
  {
    su.bits * su.half
  }

  // the octets of a coordinate
  function No<P>(su: Suite<P>): nat
  {
    L(su) / 4
  }

  // Points are encoded by their two coordinates; O has no encoding.
  ghost predicate Codes<P(!new)>(su: Suite<P>)
  {
    && (forall p :: p != su.g.zero ==> su.decode(su.encode(p)) == Some(p) && |su.encode(p)| == 2 * No(su))
    && (forall s :: su.decode(s).Some? ==> su.decode(s).value != su.g.zero)
    && (forall x :: su.swu(x) != su.g.zero)
  }

  ghost predicate Ciphers<P(!new)>(su: Suite<P>)
  {
    && (forall x :: |su.hash(x)| == 32 && IsOctets(su.hash(x)))
    && (forall k, x :: |su.mac(k, x)| == 8)
    && (forall k, iv, x :: su.cfbD(k, iv, su.cfbE(k, iv, x)) == x && |su.cfbE(k, iv, x)| == |x|)
    && (forall k, iv, x :: |su.cfbD(k, iv, x)| == |x|)
    && (forall k, x :: su.ecbD(k, su.ecbE(k, x)) == x && |su.ecbE(k, x)| == |x|)
    && (forall k, x :: |su.ecbD(k, x)| == |x|)
  }

  ghost predicate Sound<P(!new)>(su: Suite<P>)
  {
    && OfOrder(su.g, su.q) && su.base != su.g.zero
    && su.bits > 0 && L(su) in {128, 192, 256}
    && Pow2(L(su) + 1) < su.q <= Pow2(2 * L(su))
    && Codes(su) && Ciphers(su)
  }

  // ---------------------------------------------------------------- points

  function Prefix(s: seq<nat>, n: nat): (t: seq<nat>)
    ensures |t| <= n && (n <= |s| ==> t == s[..n])
  {
    if n <= |s| then s[..n] else s
  }

  function X<P>(su: Suite<P>, p: P): (x: seq<nat>)
  {
    Prefix(su.encode(p), No(su))
  }

  lemma CodeOf<P(!new)>(su: Suite<P>, p: P)
    requires Sound(su) && p != su.g.zero
    ensures su.decode(su.encode(p)) == Some(p) && |su.encode(p)| == 2 * No(su)
    ensures X(su, p) == su.encode(p)[..No(su)] && |X(su, p)| == No(su) && No(su) >= 32
  {
  }

  lemma DecodedNonzero<P(!new)>(su: Suite<P>, s: seq<nat>)
    requires Sound(su) && su.decode(s).Some?
    ensures su.decode(s).value != su.g.zero
  {
  }

  lemma Parts<P(!new)>(su: Suite<P>)
    requires Sound(su)
    ensures OfOrder(su.g, su.q) && Abelian(su.g) && su.q > 1 && su.base != su.g.zero && N.Prime(su.q)
    ensures su.bits > 0 && Pow2(L(su) + 1) < su.q <= Pow2(2 * L(su)) && 32 <= No(su)
    ensures L(su) % 8 == 0 && No(su) == 2 * (No(su) / 2) && 8 * (No(su) / 2) == L(su) && No(su) / 2 <= 32
  {
    hide Pow2, Codes, Ciphers, Abelian;
    OfOrderPrime(su.g, su.q);
    OfOrderAt(su.g, su.q, su.base);
  }

  lemma ScalarWords<P(!new)>(su: Suite<P>)
    requires Sound(su)
    ensures su.q <= Pow2(su.bits * (2 * su.half))
    ensures Pow2(L(su) + 1) <= Pow2(su.bits * (su.half + 1))
  {
    hide Pow2, Codes, Ciphers, OfOrder;
    assert su.bits * (2 * su.half) == 2 * L(su);
    assert su.bits * (su.half + 1) == L(su) + su.bits;
    Pow2Monotone(L(su) + 1, L(su) + su.bits);
  }

  // ecMulA with a scalar of n words
  method Multiple<P(!new, ==)>(su: Suite<P>, a: P, d: nat) returns (ok: bool, b: P)
    requires Sound(su) && d < su.q
    ensures ok <==> Times(su.g, d, a) != su.g.zero
    ensures ok ==> b == Times(su.g, d, a)
  {
    hide Pow2, Abelian, OfOrder, Codes, Ciphers, Times;
    Parts(su);
    ScalarWords(su);
    ok, b := Ec.MulA(su.g, a, d, 2 * su.half, su.bits);
  }

  // ecMulA with a scalar of n / 2 + 1 words
  method MultipleT<P(!new, ==)>(su: Suite<P>, a: P, t: nat) returns (ok: bool, b: P)
    requires Sound(su) && t < Pow2(L(su) + 1)
    ensures ok <==> Times(su.g, t, a) != su.g.zero
    ensures ok ==> b == Times(su.g, t, a)
  {
    hide Pow2, Abelian, OfOrder, Codes, Ciphers, Times;
    Parts(su);
    ScalarWords(su);
    ok, b := Ec.MulA(su.g, a, t, su.half + 1, su.bits);
  }

  // A scalar strictly between 0 and q keeps a nonzero point away from O.
  lemma SmallMultiple<P(!new)>(su: Suite<P>, k: nat, a: P)
    requires Sound(su) && 0 < k < su.q && a != su.g.zero
    ensures Times(su.g, k, a) != su.g.zero
  {
    hide Pow2, Abelian, OfOrder, Codes, Ciphers, Times;
    Parts(su);
    TimesVanishes(su.g, su.q, k, a);
    N.SmallMod(k, su.q);
  }

  // ---------------------------------------------------------------- challenge and response

  // 2^l + t, where t is the first half of a hash value as a number
  function T<P>(su: Suite<P>, xa: seq<nat>, xb: seq<nat>): nat
  {
    Pow2(L(su)) + FromLe(Prefix(su.hash(xa + xb), No(su) / 2))
  }

  lemma TRange<P(!new)>(su: Suite<P>, xa: seq<nat>, xb: seq<nat>)
    requires Sound(su)
    ensures FromLe(Prefix(su.hash(xa + xb), No(su) / 2)) < Pow2(L(su))
    ensures 0 < T(su, xa, xb) < Pow2(L(su) + 1) < su.q
  {
    hide Pow2, Abelian, OfOrder, Codes, FromLe;
    Parts(su);
    var h := su.hash(xa + xb);
    assert |h| == 32 && IsOctets(h);
    var s := Prefix(h, No(su) / 2);
    ToFrom(s);
    Pow2Step(L(su));
  }

  // The challenge is 2^l and the first half of the hash value.
  lemma TIs<P(!new)>(su: Suite<P>, xa: seq<nat>, xb: seq<nat>)
    requires Sound(su)
    ensures |su.hash(xa + xb)| == 32 >= No(su) / 2
            && T(su, xa, xb) == Pow2(L(su)) + FromLe(su.hash(xa + xb)[..No(su) / 2])
  {
    hide Pow2, Abelian, OfOrder, Codes, FromLe;
    Parts(su);
  }

  // (u - (2^l + t) d) mod q, as the code computes it from t < 2^l
  method Respond<P(!new)>(su: Suite<P>, u: nat, t: nat, d: nat) returns (s: nat)
    requires Sound(su) && u < su.q
    ensures s == Response(su.q, u, Pow2(L(su)) + t, d) < su.q
  {
    hide Pow2, Abelian, OfOrder, Codes, Ciphers;
    Parts(su);
    var v: nat := t * d;
    v := v + Pow2(L(su)) * d;
    SubModIs(su.q, u, v);
    assert v == (Pow2(L(su)) + t) * d;
    v := v % su.q;
    s := if u >= v then u - v else u + su.q - v;
  }

  // ---------------------------------------------------------------- certificates

  datatype Found<+P> = Point(p: P) | Fails(error: Error)

  // The checked public key of a certificate as a point of the curve.
  function CertPoint<P>(su: Suite<P>, val: seq<nat> -> Checked, data: seq<nat>): (f: Found<P>)
    ensures f.Point? <==> val(data).Valid? && su.decode(val(data).pubkey).Some?
    ensures f.Point? ==> su.decode(val(data).pubkey) == Some(f.p)
    ensures f.Fails? ==> f.error == if val(data).Invalid? then val(data).error else BadCert
  {
    match val(data)
    case Invalid(e) => Fails(e)
    case Valid(k) => if su.decode(k).None? then Fails(BadCert) else Point(su.decode(k).value)
  }

  // The certificate that val accepts for the private key d.
  ghost predicate Certifies<P>(su: Suite<P>, val: seq<nat> -> Checked, data: seq<nat>, d: nat)
  {
    0 < d < su.q && val(data) == Valid(su.encode(Times(su.g, d, su.base)))
  }

  lemma CertifiedPoint<P(!new)>(su: Suite<P>, val: seq<nat> -> Checked, data: seq<nat>, d: nat)
    requires Sound(su) && Certifies(su, val, data, d)
    ensures CertPoint(su, val, data) == Point(Times(su.g, d, su.base))
  {
    hide Pow2, Abelian, OfOrder, Times;
    Parts(su);
    SmallMultiple(su, d, su.base);
  }

  // ---------------------------------------------------------------- keys and tags

  const Zeros: seq<nat> := Repeat(0, 16)
  const Ones: seq<nat> := Repeat(255, 16)

  // Two different strings with one hash value, or two different hash values with one key.
  ghost predicate Collision<P>(su: Suite<P>, x: seq<nat>, y: seq<nat>)
  {
    x != y && (su.hash(x) == su.hash(y) || su.krp(su.hash(x), 0) == su.krp(su.hash(y), 0))
  }

  /** Equal keys come from equal strings, or they show a collision. */
  lemma KeyBinds<P>(su: Suite<P>, a: seq<nat>, b: seq<nat>, x: seq<nat>, y: seq<nat>)
    requires |a| == |b| && su.krp(su.hash(a + x), 0) == su.krp(su.hash(b + y), 0)
    ensures (a == b && x == y) || Collision(su, a + x, b + y)
  {
    if a + x == b + y {
      assert a == (a + x)[..|a|] && b == (b + y)[..|b|];
      assert x == (a + x)[|a|..] && y == (b + y)[|b|..];
    }
  }
}
