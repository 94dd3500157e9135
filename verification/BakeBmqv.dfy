/** The BMQV protocol: the state of a party, its steps, and runs between honest parties. */
module BakeBmqv {
  import opened Groups
  import opened PrimeOrder
  import opened Octets
  import opened Bake
  import PowersOfTwo
  import N = Numbers

  // ---------------------------------------------------------------- the shared point

  // K for the peer's points V and Q, the challenge t and the own response s: None where
  // ecMulA fails. A vanishing difference V - t Q gives the coordinate of the base point.
  ghost function Shared<P>(su: Suite<P>, V: P, Q: P, t: nat, s: nat): Option<seq<nat>>
  {
    var R := Times(su.g, t, Q);
    var W := su.g.add(V, su.g.neg(R));
    if R == su.g.zero then None
    else if W == su.g.zero then Some(X(su, su.base))
    else if Times(su.g, s, W) == su.g.zero then None
    else Some(X(su, Times(su.g, s, W)))
  }

  /** What one party computes from the peer's ephemeral key u and long-term key d: it depends
      on the two responses only. */
  lemma SharedOf<P(!new)>(su: Suite<P>, u: nat, d: nat, t: nat, s: nat)
    requires Sound(su) && 0 < d < su.q && 0 < t < su.q && s < su.q
    ensures var r := Response(su.q, u, t, d);
            Shared(su, Times(su.g, u, su.base), Times(su.g, d, su.base), t, s)
            == if r == 0 then Some(X(su, su.base))
               else if s == 0 then None
               else Some(X(su, Times(su.g, s * r, su.base)))
  {
    hide PowersOfTwo.Pow2, Abelian, OfOrder, Codes, Ciphers, Times, Response, X;
    Parts(su);
    var g, q, G, r := su.g, su.q, su.base, Response(su.q, u, t, d);
    SmallMultiple(su, d, G);
    SmallMultiple(su, t, Times(g, d, G));
    ResponseLaw(g, q, u, t, d, G);
    var W := Times(g, r, G);
    TimesTimes(g, s, r, G);
    if r == 0 {
      TimesOne(g, G);
    } else {
      SmallMultiple(su, r, G);
      if s == 0 {
        TimesOne(g, W);
      } else {
        SmallMultiple(su, s, W);
      }
    }
  }

  /** Both parties get a point exactly when both responses vanish or neither does, and then
      it is the same point. */
  lemma SharedAgree<P(!new)>(su: Suite<P>, ua: nat, da: nat, ub: nat, db: nat, t: nat)
    requires Sound(su) && 0 < da < su.q && 0 < db < su.q && 0 < t < su.q
    ensures var sa, sb := Response(su.q, ua, t, da), Response(su.q, ub, t, db);
            var ka := Shared(su, Times(su.g, ub, su.base), Times(su.g, db, su.base), t, sa);
            var kb := Shared(su, Times(su.g, ua, su.base), Times(su.g, da, su.base), t, sb);
            && (ka.Some? <==> sb == 0 || sa != 0)
            && (kb.Some? <==> sa == 0 || sb != 0)
            && (ka.Some? && kb.Some? ==> ka == kb)
  {
    hide PowersOfTwo.Pow2, Sound, Times, Response, X, Shared;
    assert su.q > 0 by { Parts(su); }
    var sa, sb := Response(su.q, ua, t, da), Response(su.q, ub, t, db);
    SharedOf(su, ub, db, t, sa);
    SharedOf(su, ua, da, t, sb);
    N.Commute(sa, sb);
  }

  method SharedPoint<P(!new, ==)>(su: Suite<P>, V: P, Q: P, t: nat, s: nat) returns (k: Option<seq<nat>>)
    requires Sound(su) && t < PowersOfTwo.Pow2(L(su) + 1) && s < su.q
    ensures k == Shared(su, V, Q, t, s)
  {
    hide PowersOfTwo.Pow2, Sound, L, Times, X;
    var ok, R := MultipleT(su, Q, t);
    if !ok {
      return None;
    }
    var W := su.g.add(V, su.g.neg(R));
    if W == su.g.zero {
      return Some(X(su, su.base));
    }
    ok, R := Multiple(su, W, s);
    if !ok {
      return None;
    }
    k := Some(X(su, R));
  }

  // ---------------------------------------------------------------- a party

  class Bmqv<P(!new, ==)> {
    const su: Suite<P>
    const settings: Settings
    const cert: Cert
    const d: nat
    var u: nat
    var Vb: seq<nat>
    var K0: seq<nat>
    var K1: seq<nat>

    constructor (su: Suite<P>, settings: Settings, cert: Cert, d: nat)
      ensures this.su == su && this.settings == settings && this.cert == cert && this.d == d
    {
      this.su, this.settings, this.cert, this.d := su, settings, cert, d;
      u, Vb, K0, K1 := 0, [], [], [];
    }

    /** bakeBMQVStart: the state exists exactly when the own certificate holds a point. */
    static method Start(su: Suite<P>, settings: Settings, d: nat, cert: Cert) returns (code: Code, s: Bmqv?<P>)
      requires Sound(su)
      ensures var found := CertPoint(su, cert.val, cert.data);
              code == (if found.Point? then Ok else Err(found.error)) && (code == Ok <==> s != null)
      ensures s != null ==> fresh(s) && s.su == su && s.settings == settings && s.cert == cert && s.d == d
    {
      var found := CertPoint(su, cert.val, cert.data);
      if found.Fails? {
        return Err(found.error), null;
      }
      s := new Bmqv(su, settings, cert, d);
      code := Ok;
    }

    // r: a scalar from {1, ..., q - 1}, or None when the generator fails
    method Step2(r: Option<nat>) returns (code: Code, out: seq<nat>)
      requires Sound(su) && (r.Some? ==> 0 < r.value < su.q)
      modifies this
      ensures code == if r.None? then Err(BadRng) else Ok
      ensures code == Ok ==> out == su.encode(Times(su.g, r.value, su.base))
                             && Vb == X(su, Times(su.g, r.value, su.base)) && u == r.value
      ensures K0 == old(K0) && K1 == old(K1)
    {
      hide PowersOfTwo.Pow2, Abelian, OfOrder, Ciphers, Times;
      if r.None? {
        return Err(BadRng), [];
      }
      u := r.value;
      SmallMultiple(su, u, su.base);
      var ok, V := Multiple(su, su.base, u);
      if !ok {
        return Err(BadParams), [];
      }
      CodeOf(su, V);
      out := su.encode(V);
      Vb := out[..No(su)];
      code := Ok;
    }

    // The keys that follow from the shared point of steps 3 and 4.
    method Derive(k: seq<nat>, certa: seq<nat>, certb: seq<nat>)
      modifies this`K0, this`K1
      ensures K0 == su.krp(su.hash(k + certa + certb + settings.helloa + settings.hellob), 0)
      ensures K1 == if settings.kca || settings.kcb then su.krp(su.hash(k + certa + certb + settings.helloa + settings.hellob), 1)
                    else old(K1)
    {
      var y := su.hash(k + certa + certb + settings.helloa + settings.hellob);
      K0 := su.krp(y, 0);
      if settings.kca || settings.kcb {
        K1 := su.krp(y, 1);
      }
    }

    // Response and shared point of steps 3 and 4.
    method Agree(V: P, Q: P, t0: nat) returns (k: Option<seq<nat>>)
      requires Sound(su) && u < su.q && t0 < PowersOfTwo.Pow2(L(su))
      ensures var t := PowersOfTwo.Pow2(L(su)) + t0; k == Shared(su, V, Q, t, Response(su.q, u, t, d))
    {
      hide PowersOfTwo.Pow2, Sound, L, Times, Response, Shared;
      assert su.q > 0 by { Parts(su); }
      var s := Respond(su, u, t0, d);
      PowersOfTwo.Pow2Step(L(su));
      k := SharedPoint(su, V, Q, PowersOfTwo.Pow2(L(su)) + t0, s);
    }

    method Step3(inp: seq<nat>, certb: Cert, r: Option<nat>) returns (code: Code, out: seq<nat>)
      requires Sound(su) && (r.Some? ==> 0 < r.value < su.q) && |inp| == 2 * No(su)
      modifies this
      ensures var Q, V := CertPoint(su, certb.val, certb.data), su.decode(inp);
              if Q.Fails? then code == Err(Q.error)
              else if V.None? then code == Err(BadPoint)
              else if r.None? then code == Err(BadRng)
              else
                var Va := Times(su.g, r.value, su.base);
                var t := T(su, X(su, Va), inp[..No(su)]);
                var k := Shared(su, V.value, Q.p, t, Response(su.q, r.value, t, d));
                if k.None? then code == Err(BadParams)
                else
                  && code == Ok && u == r.value
                  && K0 == su.krp(su.hash(k.value + cert.data + certb.data + settings.helloa + settings.hellob), 0)
                  && K1 == (if settings.kca || settings.kcb
                            then su.krp(su.hash(k.value + cert.data + certb.data + settings.helloa + settings.hellob), 1)
                            else old(K1))
                  && out == su.encode(Va) + if settings.kca then su.mac(K1, Zeros) else []
      ensures code != Ok ==> K0 == old(K0) && K1 == old(K1)
    {
      hide PowersOfTwo.Pow2, Abelian, OfOrder, Codes, Ciphers, Times, Response, Shared, X;
      out := [];
      Parts(su);
      var Q := CertPoint(su, certb.val, certb.data);
      if Q.Fails? {
        return Err(Q.error), [];
      }
      var V := su.decode(inp);
      if V.None? {
        return Err(BadPoint), [];
      }
      if r.None? {
        return Err(BadRng), [];
      }
      u := r.value;
      SmallMultiple(su, u, su.base);
      var ok, Va := Multiple(su, su.base, u);
      if !ok {
        return Err(BadParams), [];
      }
      CodeOf(su, Va);
      out := su.encode(Va);
      TRange(su, X(su, Va), inp[..No(su)]);
      var t := FromLe(Prefix(su.hash(out[..No(su)] + inp[..No(su)]), No(su) / 2));
      var k := Agree(V.value, Q.p, t);
      if k.None? {
        return Err(BadParams), [];
      }
      Derive(k.value, cert.data, certb.data);
      if settings.kca {
        out := out + su.mac(K1, Zeros);
      }
      code := Ok;
    }

    method Step4(inp: seq<nat>, certa: Cert) returns (code: Code, out: seq<nat>)
      requires Sound(su) && u < su.q && |inp| == 2 * No(su) + (if settings.kca then 8 else 0)
      modifies this
      ensures u == old(u) && Vb == old(Vb)
      ensures var Q, V := CertPoint(su, certa.val, certa.data), su.decode(inp[..2 * No(su)]);
              if Q.Fails? then code == Err(Q.error)
              else if V.None? then code == Err(BadPoint)
              else
                var t := T(su, inp[..No(su)], Vb);
                var k := Shared(su, V.value, Q.p, t, Response(su.q, u, t, d));
                if k.None? then code == Err(BadParams)
                else
                  // the keys are already there when the tag is rejected
                  && K0 == su.krp(su.hash(k.value + certa.data + cert.data + settings.helloa + settings.hellob), 0)
                  && K1 == (if settings.kca || settings.kcb
                            then su.krp(su.hash(k.value + certa.data + cert.data + settings.helloa + settings.hellob), 1)
                            else old(K1))
                  && (if settings.kca && inp[2 * No(su)..] != su.mac(K1, Zeros) then code == Err(Auth)
                      else code == Ok && out == if settings.kcb then su.mac(K1, Ones) else [])
      ensures code != Ok && code != Err(Auth) ==> K0 == old(K0) && K1 == old(K1)
    {
      hide PowersOfTwo.Pow2, Abelian, OfOrder, Codes, Ciphers, Times, Response, Shared, X;
      out := [];
      Parts(su);
      var Q := CertPoint(su, certa.val, certa.data);
      if Q.Fails? {
        return Err(Q.error), [];
      }
      var V := su.decode(inp[..2 * No(su)]);
      if V.None? {
        return Err(BadPoint), [];
      }
      TRange(su, inp[..No(su)], Vb);
      var t := FromLe(Prefix(su.hash(inp[..No(su)] + Vb), No(su) / 2));
      var k := Agree(V.value, Q.p, t);
      if k.None? {
        return Err(BadParams), [];
      }
      Derive(k.value, certa.data, cert.data);
      if settings.kca {
        if inp[2 * No(su)..] != su.mac(K1, Zeros) {
          return Err(Auth), [];
        }
      }
      if settings.kcb {
        out := su.mac(K1, Ones);
      }
      code := Ok;
    }

    method Step5(inp: seq<nat>) returns (code: Code)
      ensures code == if !settings.kcb then Err(BadLogic)
                      else if inp != su.mac(K1, Ones) then Err(Auth) else Ok
    {
      if !settings.kcb {
        return Err(BadLogic);
      }
      if inp != su.mac(K1, Ones) {
        return Err(Auth);
      }
      code := Ok;
    }

    method StepG() returns (key: seq<nat>)
      ensures key == K0
    {
      key := K0;
    }
  }

  // ---------------------------------------------------------------- what a key says

  lemma SharedSize<P(!new)>(su: Suite<P>, V: P, Q: P, t: nat, s: nat)
    requires Sound(su) && Shared(su, V, Q, t, s).Some?
    ensures |Shared(su, V, Q, t, s).value| == No(su)
  {
    hide PowersOfTwo.Pow2, Abelian, OfOrder, Ciphers, Times, X;
    var W := su.g.add(V, su.g.neg(Times(su.g, t, Q)));
    CodeOf(su, su.base);
    if Times(su.g, s, W) != su.g.zero {
      CodeOf(su, Times(su.g, s, W));
    }
  }

  /** Whatever messages and certificates two parties are given, step 3 of one and step 4 of the
      other end with one K0 only if they have computed the same coordinate and use the same
      certificates and hello strings, short of a collision. */
  method SameKey<P(!new, ==)>(a: Bmqv<P>, b: Bmqv<P>, inpa: seq<nat>, certb: Cert, r: Option<nat>, inpb: seq<nat>, certa: Cert)
      returns (codea: Code, codeb: Code, ghost ka: seq<nat>, ghost kb: seq<nat>)
    requires a != b && Sound(a.su) && b.su == a.su && b.u < b.su.q && (r.Some? ==> 0 < r.value < a.su.q)
    requires |inpa| == 2 * No(a.su) && |inpb| == 2 * No(b.su) + (if b.settings.kca then 8 else 0)
    modifies a, b
    ensures codea == Ok ==>
              var su, Q, V := a.su, CertPoint(a.su, certb.val, certb.data), a.su.decode(inpa);
              && Q.Point? && V.Some? && r.Some?
              && var t := T(su, X(su, Times(su.g, r.value, su.base)), inpa[..No(su)]);
                 Shared(su, V.value, Q.p, t, Response(su.q, r.value, t, a.d)) == Some(ka)
    ensures codeb == Ok ==>
              var su, Q, V := b.su, CertPoint(b.su, certa.val, certa.data), b.su.decode(inpb[..2 * No(b.su)]);
              && Q.Point? && V.Some?
              && var t := T(su, inpb[..No(su)], old(b.Vb));
                 Shared(su, V.value, Q.p, t, Response(su.q, old(b.u), t, b.d)) == Some(kb)
    ensures codea == Ok && codeb == Ok && a.K0 == b.K0 ==>
              var x, y := a.cert.data + certb.data + a.settings.helloa + a.settings.hellob,
                          certa.data + b.cert.data + b.settings.helloa + b.settings.hellob;
              (ka == kb && x == y) || Collision(a.su, ka + x, kb + y)
  {
    hide PowersOfTwo.Pow2, Abelian, OfOrder, Codes, Ciphers, Times, Response, Shared, X, T, Collision;
    var su := a.su;
    Parts(su);
    ka, kb := [], [];
    var out;
    codea, out := a.Step3(inpa, certb, r);
    if codea == Ok {
      ghost var V, Q := su.decode(inpa).value, CertPoint(su, certb.val, certb.data).p;
      ghost var t := T(su, X(su, Times(su.g, r.value, su.base)), inpa[..No(su)]);
      SharedSize(su, V, Q, t, Response(su.q, r.value, t, a.d));
      ka := Shared(su, V, Q, t, Response(su.q, r.value, t, a.d)).value;
      Joined5(ka, a.cert.data, certb.data, a.settings.helloa, a.settings.hellob);
    }
    ghost var ub, vb := b.u, b.Vb;
    codeb, out := b.Step4(inpb, certa);
    if codeb == Ok {
      ghost var V, Q := su.decode(inpb[..2 * No(su)]).value, CertPoint(su, certa.val, certa.data).p;
      ghost var t := T(su, inpb[..No(su)], vb);
      SharedSize(su, V, Q, t, Response(su.q, ub, t, b.d));
      kb := Shared(su, V, Q, t, Response(su.q, ub, t, b.d)).value;
      Joined5(kb, certa.data, b.cert.data, b.settings.helloa, b.settings.hellob);
    }
    if codea == Ok && codeb == Ok && a.K0 == b.K0 {
      KeyBinds(su, ka, kb, a.cert.data + certb.data + a.settings.helloa + a.settings.hellob,
               certa.data + b.cert.data + b.settings.helloa + b.settings.hellob);
    }
  }

  lemma Joined5(k: seq<nat>, a: seq<nat>, b: seq<nat>, c: seq<nat>, d: seq<nat>)
    ensures k + a + b + c + d == k + (a + b + c + d)
  {
  }

  // ---------------------------------------------------------------- an honest run

  /** The messages of a run between honest parties with matching settings. A party whose peer
      stops without sending fails to read. Both finish exactly when both responses vanish or
      neither does; tags are never rejected; finished parties hold the same K0. */
  method Run<P(!new, ==)>(a: Bmqv<P>, b: Bmqv<P>, ua: nat, ub: nat, certa: Cert, certb: Cert)
      returns (codea: Code, codeb: Code)
    requires a != b && Sound(a.su) && b.su == a.su && b.settings == a.settings
    requires 0 < ua < a.su.q && 0 < ub < a.su.q
    requires certa.data == a.cert.data && Certifies(a.su, certa.val, certa.data, a.d)
    requires certb.data == b.cert.data && Certifies(b.su, certb.val, certb.data, b.d)
    modifies a, b
    ensures var su := a.su;
            var t := T(su, X(su, Times(su.g, ua, su.base)), X(su, Times(su.g, ub, su.base)));
            var sa, sb := Response(su.q, ua, t, a.d), Response(su.q, ub, t, b.d);
            && (codea == Ok && codeb == Ok <==> (sa == 0 <==> sb == 0))
            && (sa == 0 && sb != 0 ==> codea == Err(BadParams) && codeb == Err(FileRead))
            && (sa != 0 && sb == 0 ==>
                codeb == Err(BadParams) && codea == if a.settings.kcb then Err(FileRead) else Ok)
    ensures codea != Err(Auth) && codeb != Err(Auth)
    ensures codea == Ok && codeb == Ok ==>
              a.K0 == b.K0 && (a.settings.kca || a.settings.kcb ==> a.K1 == b.K1)
  {
    hide PowersOfTwo.Pow2, Abelian, OfOrder, Codes, Ciphers, Times, Response, Shared, X, T, Certifies;
    var su := a.su;
    Parts(su);
    ghost var Va, Vb := Times(su.g, ua, su.base), Times(su.g, ub, su.base);
    ghost var t := T(su, X(su, Va), X(su, Vb));
    HonestFacts(su, certa, a.d, ua);
    HonestFacts(su, certb, b.d, ub);
    TRange(su, X(su, Va), X(su, Vb));
    SharedAgree(su, ua, a.d, ub, b.d, t);
    var code, m1 := b.Step2(Some(ub));
    var m2;
    codea, m2 := a.Step3(m1, certb, Some(ua));
    if codea != Ok {
      return codea, Err(FileRead);
    }
    MacSize(su, a.K1, Zeros);
    MacMessage(su, Va, if a.settings.kca then su.mac(a.K1, Zeros) else []);
    var m3;
    codeb, m3 := b.Step4(m2, certa);
    if codeb != Ok {
      codea := if a.settings.kcb then Err(FileRead) else Ok;
      return;
    }
    if a.settings.kcb {
      codea := a.Step5(m3);
    }
  }

  lemma HonestFacts<P(!new)>(su: Suite<P>, cert: Cert, d: nat, u: nat)
    requires Sound(su) && Certifies(su, cert.val, cert.data, d) && 0 < u < su.q
    ensures 0 < d < su.q && CertPoint(su, cert.val, cert.data) == Point(Times(su.g, d, su.base))
    ensures var V := Times(su.g, u, su.base);
            && su.decode(su.encode(V)) == Some(V) && |su.encode(V)| == 2 * No(su)
            && X(su, V) == su.encode(V)[..No(su)]
  {
    hide PowersOfTwo.Pow2, Abelian, OfOrder, Codes, Ciphers, Times;
    CertifiedPoint(su, cert.val, cert.data, d);
    Parts(su);
    SmallMultiple(su, u, su.base);
    CodeOf(su, Times(su.g, u, su.base));
  }

  lemma MacSize<P(!new)>(su: Suite<P>, k: seq<nat>, x: seq<nat>)
    requires Sound(su)
    ensures |su.mac(k, x)| == 8
  {
  }

  lemma MacMessage<P(!new)>(su: Suite<P>, V: P, tag: seq<nat>)
    requires Sound(su) && |su.encode(V)| == 2 * No(su)
    ensures var m := su.encode(V) + tag;
            && m[..2 * No(su)] == su.encode(V) && m[2 * No(su)..] == tag
            && m[..No(su)] == su.encode(V)[..No(su)]
  {
    hide PowersOfTwo.Pow2, Abelian, OfOrder, Codes, Ciphers, Times;
  }
}
