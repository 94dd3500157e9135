/** DSTU 4145-2002 signatures (dstuSign, dstuVerify). */
module DstuSign {
  import opened PowersOfTwo
  import opened Groups
  import opened PrimeOrder
  import opened Octets
  import opened Signing
  import N = Numbers
  import Qr
  import P = Gf2Poly

  // The base field GF(2)[x] / f of degree m, and the bit length nb of the order
  datatype Params<!P> = Params(c: Curve<P>, f: nat, m: nat, nb: nat)

  ghost predicate Suits<P(!new)>(d: Params<P>)
  {
    && Sound(d.c) && d.nb > 0 && Pow2(d.nb - 1) <= d.c.q < Pow2(d.nb)
    && d.f > 1 && P.Deg(d.f) == d.m && d.m % 2 == 1
  }

  // octets of a field element, octets of the order
  function FieldOctets(m: nat): nat
  {
    (m + 7) / 8
  }

  function OrderOctets(nb: nat): nat
  {
    (nb + 7) / 8
  }

  // ---------------------------------------------------------------- hash values

  // The hash value as a nonzero element of the field: cut to m bits, 0 replaced by 1.
  function HashElement(m: nat, hash: seq<nat>): (h: nat)
    ensures h > 0
  {
    var no := FieldOctets(m);
    var h := if |hash| < no then FromLe(hash)
             else if no == 0 then 0
             else FromLe(hash[..no][no - 1 := hash[no - 1] % Pow2(m % 8)]);
    if h == 0 then 1 else h
  }

  // The first n octets, or all of them.
  function Cut(s: seq<nat>, n: nat): seq<nat>
  {
    if n <= |s| then s[..n] else s
  }

  /** The hash value enters as the number of its first octets modulo 2^m, and 0 as 1. */
  lemma HashIs(m: nat, hash: seq<nat>)
    requires m % 2 == 1 && IsOctets(hash)
    ensures var n := FromLe(Cut(hash, (m + 7) / 8)) % Pow2(m);
            HashElement(m, hash) == if n == 0 then 1 else n
  {
    hide Pow2, FromLe;
    var no := (m + 7) / 8;
    FieldSize(m, no);
    if |hash| < no {
      ToFrom(hash);
      Pow2Monotone(8 * |hash|, m);
      N.SmallMod(FromLe(hash), Pow2(m));
    } else {
      var w, b := hash[..no - 1], m % 8;
      LastOctet(w, hash[no - 1]);
      LastOctet(w, hash[no - 1] % Pow2(b));
      assert w + [hash[no - 1]] == hash[..no];
      assert w + [hash[no - 1] % Pow2(b)] == hash[..no][no - 1 := hash[no - 1] % Pow2(b)];
      ToFrom(w);
      CutTop(FromLe(w), hash[no - 1], 8 * (no - 1), b);
    }
  }

  lemma FieldSize(m: nat, no: nat)
    requires m % 2 == 1 && no == (m + 7) / 8
    ensures no > 0 && m == 8 * (no - 1) + m % 8 && FieldOctets(m) == no
  {
  }

  // low + 2^n x modulo 2^(n + b)
  lemma CutTop(low: nat, x: nat, n: nat, b: nat)
    requires low < Pow2(n)
    ensures (low + Pow2(n) * x) % Pow2(n + b) == low + Pow2(n) * (x % Pow2(b))
  {
    hide Pow2;
    Pow2Add(n, b);
    var h, u := x / Pow2(b), x % Pow2(b);
    assert x == h * Pow2(b) + u;
    CutInt(Pow2(n), Pow2(b), h, u, low, x);
    N.DivUnique(low + Pow2(n) * x, Pow2(n + b), h, low + Pow2(n) * u);
  }

  lemma CutInt(p: nat, q: nat, h: int, u: nat, low: nat, x: int)
    requires x == h * q + u && u < q && low < p
    ensures low + p * x == h * (p * q) + (low + p * u) && low + p * u < p * q && p * u >= 0
  {
    N.StepUp(q, u, p);
    assert p * (h * q) == h * (p * q);
    assert p * x == p * (h * q) + p * u;
  }

  // ---------------------------------------------------------------- the two parts

  // r: the low nb - 1 bits of x(e G) h
  ghost function R<P>(d: Params<P>, e: nat, h: nat): (r: nat)
    requires d.f > 1 && d.nb > 0
    ensures r < Pow2(d.nb - 1)
  {
    Low(Qr.Mul(Qr.Binary(d.f), d.c.x(Times(d.c.g, e, d.c.base)), h), d.nb - 1)
  }

  // wwTrimHi
  function Low(a: nat, n: nat): (r: nat)
    ensures r < Pow2(n)
  {
    a % Pow2(n)
  }

  function S(q: nat, e: nat, d: nat, r: nat): (s: nat)
    requires q > 0
    ensures s < q
  {
    (e + d * r) % q
  }

  lemma SIs(q: nat, e: nat, d: nat, r: nat)
    requires q > 0
    ensures ((d * r) % q + e) % q == S(q, e, d, r)
  {
    N.ModAdd(d * r, e, q);
  }

  // r and s, each in ld / 16 octets of which the first no may be nonzero
  function Code2(r: nat, s: nat, no: nat, half: nat): (sig: seq<nat>)
    requires no <= half
    ensures |sig| == 2 * half
  {
    ToLe(r, no) + Repeat(0, half - no) + ToLe(s, no) + Repeat(0, half - no)
  }

  predicate Padded(sig: seq<nat>, no: nat, half: nat)
    requires |sig| == 2 * half
  {
    forall i :: no <= i < half ==> BothZero(sig, i, half)
  }

  predicate BothZero(sig: seq<nat>, i: int, half: nat)
    requires |sig| == 2 * half && 0 <= i < half
  {
    sig[i] == 0 && sig[i + half] == 0
  }

  lemma Code2Parts(r: nat, s: nat, no: nat, half: nat)
    requires no <= half && r < Pow2(8 * no) && s < Pow2(8 * no)
    ensures var sig := Code2(r, s, no, half);
            && FromLe(sig[..no]) == r && FromLe(sig[half..half + no]) == s && Padded(sig, no, half)
  {
    hide Pow2, ToLe, FromLe;
    FromTo(r, no);
    FromTo(s, no);
    var sig := Code2(r, s, no, half);
    assert sig[..no] == ToLe(r, no);
    assert sig[half..half + no] == ToLe(s, no);
  }

  // ---------------------------------------------------------------- signing

  // A draw of the generator is used when no part of the signature vanishes.
  ghost predicate Usable<P>(p: Params<P>, h: nat, d: nat, e: nat)
    requires p.f > 1 && p.nb > 0 && p.c.q > 0
  {
    && e != 0 && p.c.x(Times(p.c.g, e, p.c.base)) != 0
    && R(p, e, h) != 0 && S(p.c.q, e, d, R(p, e, h)) != 0
  }

  // sig holds the parts r and s of a signature made with e: r is the low nb - 1 bits of
  // x(e G) h for the hash value h, and s == e + d r modulo q.
  ghost predicate SignatureOf<P>(p: Params<P>, ld: nat, hash: seq<nat>, d: nat, e: nat, sig: seq<nat>)
    requires p.f > 1 && p.nb > 0 && p.c.q > 0
  {
    var no, half, n := (p.nb + 7) / 8, ld / 16, FromLe(Cut(hash, (p.m + 7) / 8)) % Pow2(p.m);
    var r := Qr.Mul(Qr.Binary(p.f), p.c.x(Times(p.c.g, e, p.c.base)), if n == 0 then 1 else n) % Pow2(p.nb - 1);
    && no <= half && |sig| == 2 * half && FromLe(sig[..no]) == r && FromLe(sig[half..half + no]) == (e + d * r) % p.c.q
    && sig[no..half] == Repeat(0, half - no) && sig[half + no..] == Repeat(0, half - no)
  }

  lemma PaddedIs(sig: seq<nat>, no: nat, half: nat)
    requires no <= half && |sig| == 2 * half
    ensures Padded(sig, no, half)
            <==> sig[no..half] == Repeat(0, half - no) && sig[half + no..] == Repeat(0, half - no)
  {
    if sig[no..half] == Repeat(0, half - no) && sig[half + no..] == Repeat(0, half - no) {
      forall i | no <= i < half
        ensures BothZero(sig, i, half)
      {
        assert sig[no..half][i - no] == 0 && sig[half + no..][i - no] == 0;
      }
    }
    if Padded(sig, no, half) {
      forall j | 0 <= j < half - no
        ensures sig[no..half][j] == 0 && sig[half + no..][j] == 0
      {
        assert BothZero(sig, no + j, half);
      }
    }
  }

  lemma LowIs(a: nat, n: nat)
    ensures Low(a, n) == a % Pow2(n)
  {
  }

  lemma SignatureIs<P(!new)>(p: Params<P>, ld: nat, hash: seq<nat>, d: nat, e: nat)
    requires Suits(p) && p.c.q > 0 && ld >= 16 * OrderOctets(p.nb) && IsOctets(hash)
    ensures var r := R(p, e, HashElement(p.m, hash));
            SignatureOf(p, ld, hash, d, e, Code2(r, S(p.c.q, e, d, r), OrderOctets(p.nb), ld / 16))
  {
    hide Pow2, OfOrder, Times, ToLe, FromLe, Qr.Mul, HashElement;
    var r, no := R(p, e, HashElement(p.m, hash)), OrderOctets(p.nb);
    OrderSize(p.nb, p.c.q);
    HashIs(p.m, hash);
    Code2Parts(r, S(p.c.q, e, d, r), no, ld / 16);
    var sig := Code2(r, S(p.c.q, e, d, r), no, ld / 16);
    PaddedIs(sig, no, ld / 16);
  }

  datatype Signed = Signed(code: Code, sig: seq<nat>) | Running

  /** dstuSign: the first usable draw makes the signature; the code goes on drawing until
      there is one. The number of draws before it is returned too. */
  method Sign<P(!new, ==)>(p: Params<P>, ld: nat, hash: seq<nat>, d: nat, draws: seq<nat>) returns (result: Signed, i: nat)
    requires Suits(p) && d < p.c.q
    ensures p.c.q > 0 && i <= |draws|
    ensures var h := HashElement(p.m, hash);
            if ld % 16 != 0 || ld < 16 * OrderOctets(p.nb) then result == Signed(Err(BadInput), [])
            else
              && (forall j :: 0 <= j < i ==> !Usable(p, h, d, Low(draws[j], p.nb - 1)))
              && if i == |draws| then result == Running
                 else
                   var e := Low(draws[i], p.nb - 1);
                   var r := R(p, e, h);
                   Usable(p, h, d, e)
                   && result == Signed(Ok, Code2(r, S(p.c.q, e, d, r), OrderOctets(p.nb), ld / 16))
    ensures result.Signed? && result.code == Ok && IsOctets(hash) ==>
              SignatureOf(p, ld, hash, d, draws[i] % Pow2(p.nb - 1), result.sig)
  {
    hide Pow2, Abelian, OfOrder, Times, ToLe, FromLe, S, Low, Qr.Mul, HashElement, SignatureOf, Code2;
    Parts(p.c);
    i := 0;
    if ld % 16 != 0 || ld < 16 * OrderOctets(p.nb) {
      return Signed(Err(BadInput), []), 0;
    }
    var h := HashElement(p.m, hash);
    while i < |draws|
      invariant i <= |draws|
      invariant forall j :: 0 <= j < i ==> !Usable(p, h, d, Low(draws[j], p.nb - 1))
    {
      var e := Low(draws[i], p.nb - 1);
      if e != 0 {
        var ok, x := Multiple(p.c, e);
        if p.c.x(x) != 0 {
          var y := Qr.Mul(Qr.Binary(p.f), p.c.x(x), h);
          var r := Low(y, p.nb - 1);
          if r != 0 {
            SIs(p.c.q, e, d, r);
            var s: nat := ((d * r) % p.c.q + e) % p.c.q;
            if s != 0 {
              LowIs(draws[i], p.nb - 1);
              if IsOctets(hash) {
                SignatureIs(p, ld, hash, d, e);
              }
              return Signed(Ok, Code2(r, s, OrderOctets(p.nb), ld / 16)), i;
            }
          }
        }
      }
      i := i + 1;
    }
    result := Running;
  }

  // ---------------------------------------------------------------- verification

  // What dstuVerify answers; key is None when the coordinates are outside the field.
  ghost function Verdict<P>(p: Params<P>, ld: nat, hash: seq<nat>, sig: seq<nat>, key: Option<P>): Code
    requires p.f > 1 && p.nb > 0 && (ld % 16 == 0 ==> |sig| == 2 * (ld / 16))
  {
    var no, half := OrderOctets(p.nb), ld / 16;
    if ld % 16 != 0 || ld < 16 * no then Err(BadInput)
    else if key.None? then Err(BadPubkey)
    else if !Padded(sig, no, half) then Err(BadSig)
    else
      var r, s := FromLe(sig[..no]), FromLe(sig[half..half + no]);
      if r == 0 || s == 0 || r >= p.c.q || s >= p.c.q then Err(BadSig)
      else
        var W := Sum2(p.c, s, r, key.value);
        if W == p.c.g.zero then Err(BadSig)
        else if Low(Qr.Mul(Qr.Binary(p.f), p.c.x(W), HashElement(p.m, hash)), p.nb - 1) == r then Ok
        else Err(BadSig)
  }

  method Verify<P(!new, ==)>(p: Params<P>, ld: nat, hash: seq<nat>, sig: seq<nat>, key: Option<P>) returns (code: Code)
    requires Suits(p) && (ld % 16 == 0 ==> |sig| == 2 * (ld / 16))
    ensures code == Verdict(p, ld, hash, sig, key)
  {
    hide Pow2, Abelian, OfOrder, Times, ToLe, FromLe, Low, Qr.Mul, HashElement, Sum2;
    var no, half := OrderOctets(p.nb), ld / 16;
    if ld % 16 != 0 || ld < 16 * no {
      return Err(BadInput);
    }
    if key.None? {
      return Err(BadPubkey);
    }
    var h := HashElement(p.m, hash);
    var i := no;
    while i < half
      invariant no <= i <= half
      invariant forall j :: no <= j < i ==> BothZero(sig, j, half)
    {
      if !BothZero(sig, i, half) {
        return Err(BadSig);
      }
      i := i + 1;
    }
    var r, s := FromLe(sig[..no]), FromLe(sig[half..half + no]);
    if r == 0 || s == 0 || r >= p.c.q || s >= p.c.q {
      return Err(BadSig);
    }
    var ok, W := AddMul2(p.c, s, r, p.c.n, key.value);
    if !ok {
      return Err(BadSig);
    }
    var y := Qr.Mul(Qr.Binary(p.f), p.c.x(W), h);
    code := if Low(y, p.nb - 1) == r then Ok else Err(BadSig);
  }

  lemma OrderSize(nb: nat, q: nat)
    requires nb > 0 && Pow2(nb - 1) <= q < Pow2(nb)
    ensures Pow2(nb - 1) <= q <= Pow2(8 * OrderOctets(nb))
  {
    hide Pow2;
    Pow2Monotone(nb, 8 * OrderOctets(nb));
  }

  // s - r d == e
  lemma Recovered(q: nat, e: nat, d: nat, r: nat)
    requires q > 0
    ensures var m: int := 0 - d; (S(q, e, d, r) + r * m) % q == e % q
  {
    var m: int := 0 - d;
    var k := (e + d * r) / q;
    assert e + d * r == k * q + S(q, e, d, r);
    assert r * m == -(d * r);
    N.CongruentBy(S(q, e, d, r) + r * m, e, -k, q);
  }

  lemma RecoveredBack(q: nat, d: nat, r: nat, s: nat) returns (e: nat)
    requires q > 0 && s < q
    ensures var m: int := 0 - d; e < q && (s + r * m) % q == e % q
    ensures forall e' :: 0 <= e' < q && S(q, e', d, r) == s <==> e' == e
  {
    hide S;
    var m: int := 0 - d;
    e := (s + r * m) % q;
    N.SmallMod(e, q);
    BackIs(q, e, d, r, s);
    forall e': nat | e' < q && S(q, e', d, r) == s
      ensures e' == e
    {
      Recovered(q, e', d, r);
      N.SmallMod(e', q);
    }
  }

  lemma BackIs(q: nat, e: nat, d: nat, r: nat, s: nat)
    requires q > 0 && s < q && e == (s + r * (0 - d)) % q
    ensures S(q, e, d, r) == s
  {
    var h := (s + r * (0 - d)) / q;
    assert s + r * (0 - d) == h * q + e;
    assert r * (0 - d) == -(d * r);
    N.DivUnique(e + d * r, q, -h, s);
  }

  /** Which signatures dstuVerify accepts under the key -d G: those with zero padding and parts
      in range that were made with some e. */
  lemma VerifyExact<P(!new)>(p: Params<P>, ld: nat, hash: seq<nat>, sig: seq<nat>, d: nat)
    requires Suits(p) && p.c.q > 0 && 0 < d < p.c.q && IsOctets(hash)
    requires ld % 16 == 0 && |sig| == 2 * (ld / 16)
    ensures var m: int := 0 - d;
            var no, half, q := (p.nb + 7) / 8, ld / 16, p.c.q;
            var code := Verdict(p, ld, hash, sig, Some(Times(p.c.g, m, p.c.base)));
            if half < no then code == Err(BadInput)
            else
              && (code == Ok || code == Err(BadSig))
              && (code == Ok <==>
                  && 0 < FromLe(sig[..no]) < q && 0 < FromLe(sig[half..half + no]) < q
                  && exists e :: 0 < e < q && SignatureOf(p, ld, hash, d, e, sig))
  {
    hide Pow2, Abelian, OfOrder, Times, FromLe, Low, Qr.Mul, HashElement, Sum2, S, Cut, SignatureOf;
    var no, half, q := (p.nb + 7) / 8, ld / 16, p.c.q;
    if half >= no {
      var m: int := 0 - d;
      var r, s := FromLe(sig[..no]), FromLe(sig[half..half + no]);
      if 0 < r < q && 0 < s < q {
        var e0 := RecoveredBack(q, d, r, s);
        Sum2Is(p.c, s, r, m, e0);
        TimesVanishes(p.c.g, q, e0, p.c.base);
        N.SmallMod(e0, q);
        OnlyDraw(p, ld, hash, sig, d, e0);
      }
    }
  }

  lemma OnlyDraw<P(!new)>(p: Params<P>, ld: nat, hash: seq<nat>, sig: seq<nat>, d: nat, e0: nat)
    requires Suits(p) && p.c.q > 0 && IsOctets(hash) && ld / 16 >= (p.nb + 7) / 8 && |sig| == 2 * (ld / 16) && e0 < p.c.q
    requires var no, half := (p.nb + 7) / 8, ld / 16;
             forall e :: 0 <= e < p.c.q && S(p.c.q, e, d, FromLe(sig[..no])) == FromLe(sig[half..half + no]) <==> e == e0
    ensures var no, half := (p.nb + 7) / 8, ld / 16;
            e0 > 0 && Padded(sig, no, half)
            && Low(Qr.Mul(Qr.Binary(p.f), p.c.x(Times(p.c.g, e0, p.c.base)), HashElement(p.m, hash)), p.nb - 1) == FromLe(sig[..no])
            <==> exists e :: 0 < e < p.c.q && SignatureOf(p, ld, hash, d, e, sig)
  {
    hide Pow2, OfOrder, Times, FromLe, Qr.Mul, HashElement, Cut, SignatureOf, Low, Padded, S;
    DrawIs(p, ld, hash, sig, d, e0);
    if e :| 0 < e < p.c.q && SignatureOf(p, ld, hash, d, e, sig) {
      DrawIs(p, ld, hash, sig, d, e);
    }
  }

  lemma DrawIs<P(!new)>(p: Params<P>, ld: nat, hash: seq<nat>, sig: seq<nat>, d: nat, e: nat)
    requires Suits(p) && p.c.q > 0 && IsOctets(hash) && ld / 16 >= (p.nb + 7) / 8 && |sig| == 2 * (ld / 16)
    ensures var no, half := (p.nb + 7) / 8, ld / 16;
            SignatureOf(p, ld, hash, d, e, sig)
            <==> && Padded(sig, no, half) && S(p.c.q, e, d, FromLe(sig[..no])) == FromLe(sig[half..half + no])
                 && Low(Qr.Mul(Qr.Binary(p.f), p.c.x(Times(p.c.g, e, p.c.base)), HashElement(p.m, hash)), p.nb - 1)
                    == FromLe(sig[..no])
  {
    hide Pow2, OfOrder, Times, FromLe, Qr.Mul, HashElement, Cut, Padded, S, Low, Repeat;
    HashIs(p.m, hash);
    var no, half := (p.nb + 7) / 8, ld / 16;
    PaddedIs(sig, no, half);
    LowIs(Qr.Mul(Qr.Binary(p.f), p.c.x(Times(p.c.g, e, p.c.base)), HashElement(p.m, hash)), p.nb - 1);
    SExplicit(p.c.q, e, d, FromLe(sig[..no]));
  }

  lemma SExplicit(q: nat, e: nat, d: nat, r: nat)
    requires q > 0
    ensures S(q, e, d, r) == (e + d * r) % q
  {
  }

  /** Whatever draw dstuSign uses, the signature is accepted under the key Q == -d G that
      dstuKeypairGen makes. */
  lemma SignThenVerify<P(!new)>(p: Params<P>, ld: nat, hash: seq<nat>, d: nat, e: nat)
    requires Suits(p) && p.c.q > 0 && 0 < d < p.c.q && e < Pow2(p.nb - 1)
    requires ld % 16 == 0 && ld >= 16 * OrderOctets(p.nb)
    requires Usable(p, HashElement(p.m, hash), d, e)
    ensures var m: int := 0 - d;
            var r := R(p, e, HashElement(p.m, hash));
            Verdict(p, ld, hash, Code2(r, S(p.c.q, e, d, r), OrderOctets(p.nb), ld / 16), Some(Times(p.c.g, m, p.c.base)))
            == Ok
  {
    hide Pow2, Abelian, OfOrder, Times, ToLe, FromLe, Low, Qr.Mul, HashElement, Sum2, S, Code2, Padded;
    var q, m: int := p.c.q, 0 - d;
    var r := R(p, e, HashElement(p.m, hash));
    var s := S(q, e, d, r);
    OrderSize(p.nb, q);
    Code2Parts(r, s, OrderOctets(p.nb), ld / 16);
    Recovered(q, e, d, r);
    Sum2Is(p.c, s, r, m, e);
    Nonzero(p.c, e);
  }
}
