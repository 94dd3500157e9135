/** Short signatures over a group of a 192-bit order (bign96Sign, bign96Sign2, bign96Verify). */
module Bign96 {
  import opened PowersOfTwo
  import opened Groups
  import opened PrimeOrder
  import opened Octets
  import opened Signing
  import N = Numbers
  import Der
  import Oid

  const M: nat := Pow2(192)
  const Bit103: nat := Pow2(103)

  // hash: belt-hash; its first 10 octets are used
  datatype Params<!P> = Params(c: Curve<P>, hash: seq<nat> -> seq<nat>)

  ghost predicate Suits<P(!new)>(p: Params<P>)
  {
    && Sound(p.c) && Pow2(191) < p.c.q < M
    && (forall x :: |p.hash(x)| == 32 && IsOctets(p.hash(x)))
  }

  lemma HashSize<P(!new)>(p: Params<P>, x: seq<nat>)
    requires Suits(p)
    ensures |p.hash(x)| == 32 && IsOctets(p.hash(x))
  {
  }

  lemma OrderSize<P(!new)>(p: Params<P>)
    requires Suits(p)
    ensures Sound(p.c) && 1 < p.c.q < M < 2 * p.c.q && M == Pow2(8 * 24)
  {
    hide Pow2, OfOrder;
    Parts(p.c);
    Pow2Step(191);
  }

  // ---------------------------------------------------------------- subtraction in words

  // zzSubMod on numbers of n words: it expects both operands below q.
  function SubMod(a: nat, b: nat, q: nat): (c: nat)
    requires a < M && b < M && q < M
    ensures c < M
  {
    if a >= b then a - b
    else
      var c := a + M - b;
      if c + q < M then c + q else c + q - M
  }

  /** For a below q and any b of 192 bits the difference is right exactly when b <= a + q;
      otherwise it is not even below q. */
  lemma SubModExact(a: nat, b: nat, q: nat)
    requires a < q && b < M && q < M < 2 * q
    ensures b <= a + q ==> SubMod(a, b, q) < q && SubMod(a, b, q) == (a - b) % q
    ensures b > a + q ==> SubMod(a, b, q) >= q
  {
    if a >= b {
      N.SmallMod(a - b, q);
    } else if b <= a + q {
      if b == a + q {
        N.DivUnique(a - b, q, -1, 0);
      } else {
        N.DivUnique(a - b, q, -1, a - b + q);
      }
    }
  }

  // ---------------------------------------------------------------- the two parts

  // The challenge: the first 10 octets of a hash value and the bit 103 above them.
  function Head<P>(p: Params<P>, oid: seq<nat>, x: nat, hash: seq<nat>): seq<nat>
  {
    var h := p.hash(oid + ToLe(x, 24) + hash);
    if |h| >= 10 then h[..10] else h
  }

  function Challenge(head: seq<nat>): nat
  {
    FromLe(head + [0, 0, 128])
  }

  function Xof<P>(p: Params<P>, R: P): nat
  {
    p.c.x(R)
  }

  // (k - s0 d - H) mod q, as the code computes it
  function S1(q: nat, k: nat, s0: nat, d: nat, H: nat): (s: nat)
    requires 0 < q < M && k < q && H < M
    ensures s < M
  {
    SubMod((k - s0 * d) % q, H, q)
  }

  // The signature for the ephemeral key k.
  ghost function Signature<P>(p: Params<P>, oid: seq<nat>, hash: seq<nat>, d: nat, k: nat): (sig: seq<nat>)
    requires 1 < p.c.q < M && k < p.c.q && FromLe(hash) < M
  {
    var head := Head(p, oid, Xof(p, Times(p.c.g, k, p.c.base)), hash);
    head + ToLe(S1(p.c.q, k, Challenge(head), d, FromLe(hash)), 24)
  }

  // ---------------------------------------------------------------- signing

  // oidFromDER accepts the whole code; tag is what derTDec finds in its variable.
  predicate OidOk(oid: seq<nat>, tag: nat)
  {
    && |oid| < Der.SizeMax
    && var r := Oid.Read(oid, tag);
       r.Found? && r.n == |oid|
  }

  /** The identifiers that pass: a code with tag 6 of whole numbers and perhaps an unfinished one,
      and nothing behind it; in particular the code of every identifier in range. */
  lemma OidOkIs(oid: seq<nat>, tag: nat) returns (p: seq<nat>, rest: seq<nat>)
    requires IsOctets(oid) && tag != 6
    ensures OidOk(oid, tag) ==> oid == Der.Tlv(6, Oid.Sids(p) + rest) && forall i :: 0 <= i < |rest| ==> rest[i] >= 128
    ensures forall arcs :: Oid.Fits(arcs) && oid == Oid.Code(arcs) && |oid| < Der.SizeMax ==> OidOk(oid, tag)
  {
    hide Der.Tlv, Oid.Sids, Oid.Read, Oid.Code, Oid.Dotted, Oid.Unpacked;
    p, rest := [], [];
    if OidOk(oid, tag) {
      p, rest := Oid.ReadCanonical(oid, tag);
      assert oid[..|oid|] == oid;
    }
    forall arcs | Oid.Fits(arcs) && oid == Oid.Code(arcs) && |oid| < Der.SizeMax
      ensures OidOk(oid, tag)
    {
      assert oid + [] == oid;
      Oid.ReadBack(arcs, [], tag);
    }
  }

  // From the ephemeral key on. The octets 10 to 12 of sig serve as scratch for s0.
  method Finish<P(!new, ==)>(p: Params<P>, sig: array<nat>, oid: seq<nat>, hash: seq<nat>, d: nat, k0: nat) returns (code: Code)
    requires Suits(p) && sig.Length == 34 && |hash| == 24 && IsOctets(hash) && 0 < k0 < p.c.q
    modifies sig
    ensures 1 < p.c.q < M && FromLe(hash) < M
    ensures code == Ok && sig[..] == Signature(p, oid, hash, d, k0)
  {
    hide Pow2, OfOrder, Abelian, Times, ToLe, FromLe, SubMod;
    OrderSize(p);
    ToFrom(hash);
    var k := k0;
    var ok, R := Multiple(p.c, k);
    var h := p.hash(oid + ToLe(Xof(p, R), 24) + hash);
    HashSize(p, oid + ToLe(Xof(p, R), 24) + hash);
    CopyHead(sig, h[..10]);
    sig[10], sig[11], sig[12] := 0, 0, 128;
    var s0 := FromLe(sig[..13]);
    assert sig[..13] == h[..10] + [0, 0, 128];
    SubModIs(p.c.q, k, s0 * d);
    var s1: nat := (s0 * d) % p.c.q;
    SubModSmall(k, s1, p.c.q);
    s1 := SubMod(k, s1, p.c.q);
    k := FromLe(hash);
    s1 := SubMod(s1, k, p.c.q);
    CopyTail(sig, ToLe(s1, 24));
    code := Ok;
  }

  lemma SubModSmall(a: nat, b: nat, q: nat)
    requires a < q && b < q && q < M
    ensures SubMod(a, b, q) == if a >= b then a - b else a + q - b
  {
  }

  method CopyHead(sig: array<nat>, s: seq<nat>)
    requires sig.Length == 34 && |s| == 10
    modifies sig
    ensures sig[..10] == s
  {
    forall i | 0 <= i < 10 {
      sig[i] := s[i];
    }
  }

  method CopyTail(sig: array<nat>, s: seq<nat>)
    requires sig.Length == 34 && |s| == 24
    modifies sig
    ensures sig[..] == old(sig[..10]) + s
  {
    forall i | 10 <= i < 34 {
      sig[i] := s[i - 10];
    }
  }

  /** bign96Sign: r is a scalar from {1, ..., q - 1}, or None when the generator fails. */
  method Sign<P(!new, ==)>(p: Params<P>, sig: array<nat>, oid: seq<nat>, tag: nat, hash: seq<nat>, d: nat,
                            r: Option<nat>) returns (code: Code)
    requires Suits(p) && sig.Length == 34 && |hash| == 24 && IsOctets(hash)
    requires r.Some? ==> 0 < r.value < p.c.q
    modifies sig
    ensures 1 < p.c.q < M && FromLe(hash) < M
    ensures code == if !OidOk(oid, tag) then Err(BadOid)
                    else if d == 0 || d >= p.c.q then Err(BadPrivkey)
                    else if r.None? then Err(BadRng)
                    else Ok
    ensures code == Ok ==> sig[..] == Signature(p, oid, hash, d, r.value)
  {
    hide Pow2, OfOrder, Abelian, Times, ToLe, FromLe, SubMod, OidOk, Signature;
    OrderSize(p);
    ToFrom(hash);
    if !OidOk(oid, tag) {
      return Err(BadOid);
    }
    if d == 0 || d >= p.c.q {
      return Err(BadPrivkey);
    }
    if r.None? {
      return Err(BadRng);
    }
    code := Finish(p, sig, oid, hash, d, r.value);
  }

  // The state of the generator of Sign2 after n encryptions; the counter of rounds runs on.
  function Iterate(block: (seq<nat>, nat) -> (seq<nat>, nat), k: seq<nat>, n: nat): (seq<nat>, nat)
  {
    if n == 0 then (k, 1) else
      var (x, round) := Iterate(block, k, n - 1);
      block(x, round)
  }

  /** bign96Sign2: the hash value is encrypted until it is a scalar. That this happens, after
      n encryptions at the latest, is a hypothesis about the cipher. */
  method Sign2<P(!new, ==)>(p: Params<P>, sig: array<nat>, oid: seq<nat>, tag: nat, hash: seq<nat>, d: nat,
                            block: (seq<nat>, nat) -> (seq<nat>, nat), ghost n: nat)
      returns (code: Code, ghost i: nat, ghost k: nat)
    requires Suits(p) && sig.Length == 34 && |hash| == 24 && IsOctets(hash)
    requires 0 < n && 0 < FromLe(Iterate(block, hash, n).0) < p.c.q
    modifies sig
    ensures 1 < p.c.q < M && FromLe(hash) < M
    ensures code == if !OidOk(oid, tag) then Err(BadOid) else if d == 0 || d >= p.c.q then Err(BadPrivkey) else Ok
    ensures code == Ok ==>
              // the first encryption that gives a scalar
              && 0 < i <= n && k == FromLe(Iterate(block, hash, i).0) && 0 < k < p.c.q
              && (forall j :: 0 < j < i ==> !(0 < FromLe(Iterate(block, hash, j).0) < p.c.q))
              && sig[..] == Signature(p, oid, hash, d, k)
  {
    hide Pow2, OfOrder, Abelian, Times, ToLe, FromLe, SubMod, OidOk, Signature;
    OrderSize(p);
    ToFrom(hash);
    i, k := 0, 0;
    if !OidOk(oid, tag) {
      return Err(BadOid), 0, 0;
    }
    if d == 0 || d >= p.c.q {
      return Err(BadPrivkey), 0, 0;
    }
    var state := block(hash, 1);
    i := 1;
    var scalar := FromLe(state.0);
    while !(0 < scalar < p.c.q)
      invariant 0 < i <= n && state == Iterate(block, hash, i) && scalar == FromLe(state.0)
      invariant forall j :: 0 < j < i ==> !(0 < FromLe(Iterate(block, hash, j).0) < p.c.q)
      decreases n - i
    {
      state := block(state.0, state.1);
      scalar := FromLe(state.0);
      i := i + 1;
    }
    k := scalar;
    code := Finish(p, sig, oid, hash, d, scalar);
  }

  // ---------------------------------------------------------------- verification

  // What bign96Verify answers; key is None when the coordinates are outside the field.
  ghost function Verdict<P>(p: Params<P>, oid: seq<nat>, tag: nat, hash: seq<nat>, sig: seq<nat>, key: Option<P>): Code
    requires p.c.q > 0 && |sig| == 34
  {
    var s1 := FromLe(sig[10..]);
    if !OidOk(oid, tag) then Err(BadOid)
    else if key.None? then Err(BadPubkey)
    else if s1 >= p.c.q then Err(BadSig)
    else
      var W := Sum2(p.c, Plus(s1, FromLe(hash), p.c.q), Challenge(sig[..10]), key.value);
      if W == p.c.g.zero then Err(BadSig)
      else if Head(p, oid, Xof(p, W), hash) == sig[..10] then Ok
      else Err(BadSig)
  }

  function Plus(a: int, b: int, q: nat): nat
    requires q > 0
  {
    (a + b) % q
  }

  method Verify<P(!new, ==)>(p: Params<P>, oid: seq<nat>, tag: nat, hash: seq<nat>, sig: seq<nat>, key: Option<P>)
      returns (code: Code)
    requires Suits(p) && |hash| == 24 && IsOctets(hash) && |sig| == 34
    ensures p.c.q > 0 && code == Verdict(p, oid, tag, hash, sig, key)
  {
    hide Pow2, OfOrder, Abelian, Times, ToLe, FromLe, Sum2, OidOk, Suits;
    OrderSize(p);
    ToFrom(hash);
    if !OidOk(oid, tag) {
      return Err(BadOid);
    }
    if key.None? {
      return Err(BadPubkey);
    }
    var s1 := FromLe(sig[10..]);
    if s1 >= p.c.q {
      return Err(BadSig);
    }
    var H := FromLe(hash);
    PlusIs(s1, H, p.c.q);
    if H >= p.c.q {
      H := H - p.c.q;
    }
    s1 := if s1 + H >= p.c.q then s1 + H - p.c.q else s1 + H;
    var s0 := FromLe(sig[..10] + [0, 0, 128]);
    var ok, R := AddMul2(p.c, s1, s0, 13, key.value);
    if !ok {
      return Err(BadSig);
    }
    HashSize(p, oid + ToLe(Xof(p, R), 24) + hash);
    code := if p.hash(oid + ToLe(Xof(p, R), 24) + hash)[..10] == sig[..10] then Ok else Err(BadSig);
  }

  lemma PlusIs(a: nat, b: nat, q: nat)
    requires a < q && b < 2 * q
    ensures var h := if b >= q then b - q else b;
            (if a + h >= q then a + h - q else a + h) == Plus(a, b, q)
  {
    var h := if b >= q then b - q else b;
    var s := if a + h >= q then a + h - q else a + h;
    N.DivUnique(a + b, q, (if b >= q then 1 else 0) + (if a + h >= q then 1 else 0), s);
  }

  /** A signature of either kind is accepted under Q == d G exactly when the hash value H
      satisfies H <= (k - s0 d mod q) + q; in particular whenever H < q. */
  lemma SignThenVerify<P(!new)>(p: Params<P>, oid: seq<nat>, tag: nat, hash: seq<nat>, d: nat, k: nat)
    requires Suits(p) && OidOk(oid, tag) && |hash| == 24 && IsOctets(hash)
    requires 1 < p.c.q < M && 0 < d < p.c.q && 0 < k < p.c.q && FromLe(hash) < M
    ensures var sig, H := Signature(p, oid, hash, d, k), FromLe(hash);
            var s0 := Challenge(Head(p, oid, Xof(p, Times(p.c.g, k, p.c.base)), hash));
            && |sig| == 34
            && Verdict(p, oid, tag, hash, sig, Some(Times(p.c.g, d, p.c.base)))
               == (if H <= Response(p.c.q, k, s0, d) + p.c.q then Ok else Err(BadSig))
            && (H < p.c.q ==> Verdict(p, oid, tag, hash, sig, Some(Times(p.c.g, d, p.c.base))) == Ok)
  {
    hide Pow2, OfOrder, Abelian, Times, ToLe, FromLe, Sum2, SubMod, Plus, Challenge, OidOk, Suits, Signature, Head;
    OrderSize(p);
    var q, H := p.c.q, FromLe(hash);
    SignatureParts(p, oid, hash, d, k);
    var s0 := Challenge(Head(p, oid, Xof(p, Times(p.c.g, k, p.c.base)), hash));
    var s1 := S1(q, k, s0, d, H);
    SubModExact(Response(q, k, s0, d), H, q);
    if s1 < q {
      Restored(q, k, s0, d, H);
      Sum2Is(p.c, Plus(s1, H, q), s0, d, k);
      Nonzero(p.c, k);
    }
  }

  // The two parts of a signature.
  lemma SignatureParts<P(!new)>(p: Params<P>, oid: seq<nat>, hash: seq<nat>, d: nat, k: nat)
    requires Suits(p) && 1 < p.c.q < M && k < p.c.q && FromLe(hash) < M
    ensures var sig := Signature(p, oid, hash, d, k);
            var head := Head(p, oid, Xof(p, Times(p.c.g, k, p.c.base)), hash);
            && |sig| == 34 && sig[..10] == head
            && FromLe(sig[10..]) == S1(p.c.q, k, Challenge(head), d, FromLe(hash))
  {
    hide Pow2, OfOrder, Abelian, Times, ToLe, FromLe, SubMod, Challenge;
    OrderSize(p);
    var R := Times(p.c.g, k, p.c.base);
    HashSize(p, oid + ToLe(Xof(p, R), 24) + hash);
    var head := Head(p, oid, Xof(p, R), hash);
    var s1 := S1(p.c.q, k, Challenge(head), d, FromLe(hash));
    var sig := Signature(p, oid, hash, d, k);
    assert sig[..10] == head && sig[10..] == ToLe(s1, 24);
    FromTo(s1, 24);
  }

  // (s1 + H) + s0 d == k
  lemma Restored(q: nat, k: nat, s0: nat, d: nat, H: nat)
    requires 1 < q < M < 2 * q && k < q && H < M && H <= (k - s0 * d) % q + q
    ensures (Plus(S1(q, k, s0, d, H), H, q) + s0 * d) % q == k % q
  {
    hide SubMod;
    var v := s0 * d;
    var a: nat := (k - v) % q;
    SubModExact(a, H, q);
    RestoredMod(q, k, v, a, H);
  }

  lemma RestoredMod(q: nat, k: nat, v: nat, a: nat, H: nat)
    requires q > 0 && a == (k - v) % q
    ensures Plus(Plus(Plus(a - H, 0, q), H, q), v, q) == Plus(k, 0, q)
  {
    hide Plus;
    PlusTwice(a - H, H, q);
    PlusTwice(k - v, v, q);
    Reduced(k - v, a, q);
  }

  lemma PlusTwice(a: int, b: int, q: nat)
    requires q > 0
    ensures Plus(Plus(a, 0, q), b, q) == Plus(a + b, 0, q)
  {
    N.ModAdd(a, b, q);
  }

  lemma Reduced(n: int, a: nat, q: nat)
    requires q > 0 && a == n % q
    ensures Plus(a, 0, q) == a == Plus(n, 0, q)
  {
    N.SmallMod(a, q);
  }

  /** Which signatures bign96Verify accepts under the key d G, for any octets: with k the only
      scalar that fits the second part, the first part must be the head of the hash value of
      the identifier, x(k G) and the signed hash value. */
  lemma VerifyExact<P(!new)>(p: Params<P>, oid: seq<nat>, tag: nat, hash: seq<nat>, sig: seq<nat>, d: nat)
    requires Suits(p) && OidOk(oid, tag) && p.c.q > 0 && |hash| == 24 && |sig| == 34
    ensures var q, s0, s1 := p.c.q, Bit103 + FromLe(sig[..10]), FromLe(sig[10..]);
            var k := (s1 + FromLe(hash) + s0 * d) % q;
            var h := p.hash(oid + ToLe(p.c.x(Times(p.c.g, k, p.c.base)), 24) + hash);
            && |h| == 32
            && Verdict(p, oid, tag, hash, sig, Some(Times(p.c.g, d, p.c.base)))
               == if s1 < q && k != 0 && h[..10] == sig[..10] then Ok else Err(BadSig)
  {
    hide Pow2, Abelian, OfOrder, Times, ToLe, FromLe, Sum2, Plus, Challenge, OidOk, Suits, Head;
    OrderSize(p);
    var q, s0, s1 := p.c.q, Challenge(sig[..10]), FromLe(sig[10..]);
    ChallengeIs(sig[..10]);
    var n := s1 + FromLe(hash);
    var k: nat := (n + s0 * d) % q;
    SumMod(n, s0 * d, s1, FromLe(hash), q);
    Sum2Is(p.c, Plus(s1, FromLe(hash), q), s0, d, k);
    ZeroMultiple(p.c, k);
    HeadIs(p, oid, p.c.x(Times(p.c.g, k, p.c.base)), hash);
  }

  lemma ZeroMultiple<P(!new)>(c: Curve<P>, k: nat)
    requires Sound(c) && k < c.q
    ensures Times(c.g, k, c.base) == c.g.zero <==> k == 0
  {
    hide Pow2, OfOrder, Times;
    TimesVanishes(c.g, c.q, k, c.base);
    N.SmallMod(k, c.q);
  }

  lemma HeadIs<P(!new)>(p: Params<P>, oid: seq<nat>, x: nat, hash: seq<nat>)
    requires Suits(p)
    ensures var h := p.hash(oid + ToLe(x, 24) + hash); |h| == 32 && Head(p, oid, x, hash) == h[..10]
  {
    hide Pow2, OfOrder, ToLe;
    HashSize(p, oid + ToLe(x, 24) + hash);
  }

  lemma SumMod(n: int, b: int, s: int, h: int, q: nat)
    requires q > 0 && n == s + h
    ensures (Plus(s, h, q) + b) % q == ((n + b) % q) % q
  {
    N.ModAdd(n, b, q);
    N.SmallMod((n + b) % q, q);
  }

  // Ten octets and the bit 103.
  lemma ChallengeIs(head: seq<nat>)
    requires |head| == 10
    ensures Challenge(head) == Pow2(103) + FromLe(head)
  {
    hide Pow2, FromLe;
    LastOctet(head, 0);
    LastOctet(head + [0], 0);
    LastOctet(head + [0, 0], 128);
    assert head + [0] + [0] == head + [0, 0] && head + [0, 0] + [128] == head + [0, 0, 128];
    Pow2At7();
    Pow2Add(96, 7);
  }

  lemma Pow2At7()
    ensures Pow2(7) == 128
  {
  }

  // ---------------------------------------------------------------- a signature that is refused

  // The parameters p with a hash that is always h.
  function WithHash<P>(p: Params<P>, h: seq<nat>): (r: Params<P>)
    ensures r.c == p.c && forall x :: r.hash(x) == h
  {
    p.(hash := _ => h)
  }

  /** Whatever the group, a hash value H above q makes the code sign what it then refuses:
      with a hash that is constantly h, for every key d, at k == s0 d modulo q. */
  lemma RefusedSignature<P(!new)>(p: Params<P>, oid: seq<nat>, tag: nat, hash: seq<nat>, d: nat, h: seq<nat>)
    requires Suits(p) && OidOk(oid, tag) && |h| == 32 && IsOctets(h) && |hash| == 24 && IsOctets(hash)
    requires 0 < d < p.c.q < FromLe(hash)
    ensures var p', k := WithHash(p, h), (Challenge(h[..10]) * d) % p.c.q;
            && Suits(p') && 0 < k < p.c.q < M && FromLe(hash) < M
            && Verdict(p', oid, tag, hash, Signature(p', oid, hash, d, k), Some(Times(p.c.g, d, p.c.base))) == Err(BadSig)
  {
    hide Pow2, OfOrder, Abelian, Times, ToLe, FromLe, Challenge, Verdict, Signature, OidOk;
    OrderSize(p);
    ToFrom(hash);
    Parts(p.c);
    var p', q, s0 := WithHash(p, h), p.c.q, Challenge(h[..10]);
    ChallengeSize(h[..10]);
    var k := (s0 * d) % q;
    if k == 0 {
      Pow2Monotone(104, 191);
      N.EuclidLemma(s0, d, q);
      N.SmallMod(d, q);
    }
    var x := oid + ToLe(Xof(p', Times(p.c.g, k, p.c.base)), 24) + hash;
    assert p'.hash(x) == h;
    SignThenVerify(p', oid, tag, hash, d, k);
    N.ModSub(s0 * d, s0 * d, q);
    N.SmallMod(0, q);
  }

  lemma ChallengeSize(head: seq<nat>)
    requires |head| == 10 && IsOctets(head)
    ensures 0 < Challenge(head) < Pow2(104)
  {
    hide Pow2, FromLe;
    var s := head + [0, 0, 128];
    ToFrom(s);
    NonzeroOctets(s, 12);
  }

  lemma {:induction false} NonzeroOctets(s: seq<nat>, i: nat)
    requires i < |s| && s[i] > 0
    ensures FromLe(s) > 0
  {
    if i > 0 {
      NonzeroOctets(s[1..], i - 1);
    }
  }
}
