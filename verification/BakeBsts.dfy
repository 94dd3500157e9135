/** The BSTS protocol: certificates travel encrypted, and each party proves its key by a
    response s with s G + (2^l + t) Q == V. */
module BakeBsts {
  import opened Groups
  import opened PrimeOrder
  import opened Octets
  import opened Bake
  import opened PowersOfTwo
  import N = Numbers
  import Ec

  // ---------------------------------------------------------------- sealed certificates

  datatype Keys = Keys(k0: seq<nat>, k1: seq<nat>, k2: seq<nat>)

  // Y || T for the encrypted response and certificate Y
  function Seal<P>(su: Suite<P>, k: Keys, iv: seq<nat>, s: nat, cert: seq<nat>): seq<nat>
  {
    var y := su.cfbE(k.k2, iv, ToLe(s, No(su)) + cert);
    y + su.mac(k.k1, y + iv)
  }

  datatype Opened<+P> = Opened(s: nat, Q: P) | Refused(error: Error)

  // The response and the certified point in y, once the tag and the ranges are checked.
  function Open<P>(su: Suite<P>, k: Keys, iv: seq<nat>, y: seq<nat>, tag: seq<nat>, val: seq<nat> -> Checked): Opened<P>
  {
    if tag != su.mac(k.k1, y + iv) then Refused(Auth)
    else
      var x := su.cfbD(k.k2, iv, y);
      var s := FromLe(Prefix(x, No(su)));
      if s >= su.q then Refused(Auth)
      else
        var found := CertPoint(su, val, if No(su) <= |x| then x[No(su)..] else []);
        if found.Fails? then Refused(found.error) else Opened(s, found.p)
  }

  /** Opening what was sealed gives back the response and the key of the certificate. */
  lemma OpenSeal<P(!new)>(su: Suite<P>, k: Keys, iv: seq<nat>, s: nat, d: nat, cert: seq<nat>, val: seq<nat> -> Checked)
    requires Sound(su) && s < su.q && Certifies(su, val, cert, d)
    ensures var m := Seal(su, k, iv, s, cert);
            && |m| == No(su) + |cert| + 8
            && Open(su, k, iv, m[..|m| - 8], m[|m| - 8..], val) == Opened(s, Times(su.g, d, su.base))
  {
    hide Pow2, Abelian, OfOrder, Codes, Times, FromLe, ToLe, Certifies;
    Parts(su);
    var x := ToLe(s, No(su)) + cert;
    var y := su.cfbE(k.k2, iv, x);
    assert su.cfbD(k.k2, iv, y) == x && |y| == |x|;
    var tag := su.mac(k.k1, y + iv);
    assert |tag| == 8;
    assert (y + tag)[..|y|] == y && (y + tag)[|y|..] == tag;
    assert Prefix(x, No(su)) == ToLe(s, No(su)) && x[No(su)..] == cert;
    FromTo(s, No(su));
    CertifiedPoint(su, val, cert, d);
  }

  // Encryption and decryption are inverse in both directions, among octets.
  ghost predicate Inverse<P(!new)>(su: Suite<P>)
  {
    && (forall k, iv, x :: su.cfbE(k, iv, su.cfbD(k, iv, x)) == x)
    && (forall k, iv, x :: IsOctets(x) ==> IsOctets(su.cfbD(k, iv, x)))
  }

  /** Open accepts exactly what was sealed: every other tag, ciphertext or certificate is
      refused, with the error of the certificate or as not authentic. */
  lemma OpenExact<P(!new)>(su: Suite<P>, k: Keys, iv: seq<nat>, y: seq<nat>, tag: seq<nat>, val: seq<nat> -> Checked)
    requires Sound(su) && Inverse(su) && IsOctets(y) && |y| >= No(su)
    ensures match Open(su, k, iv, y, tag, val)
            case Opened(s, Q) =>
              && s < su.q
              && exists cert :: y == su.cfbE(k.k2, iv, ToLe(s, No(su)) + cert) && tag == su.mac(k.k1, y + iv)
                                && CertPoint(su, val, cert) == Point(Q)
            case Refused(e) =>
              forall s: nat, cert ::
                s < su.q && y == su.cfbE(k.k2, iv, ToLe(s, No(su)) + cert) && tag == su.mac(k.k1, y + iv)
                ==> CertPoint(su, val, cert) == Fails(e)
  {
    hide Pow2, Abelian, OfOrder, Codes, FromLe, ToLe, CertPoint;
    Parts(su);
    var x := su.cfbD(k.k2, iv, y);
    assert su.cfbE(k.k2, iv, x) == y && IsOctets(x) && |x| == |y|;
    var n := No(su);
    ToFrom(x[..n]);
    assert x == x[..n] + x[n..];
    forall s: nat, cert | s < su.q && y == su.cfbE(k.k2, iv, ToLe(s, n) + cert)
      ensures s == FromLe(x[..n]) && cert == x[n..]
    {
      assert x == ToLe(s, n) + cert;
      FromTo(s, n);
    }
  }

  // ---------------------------------------------------------------- the check of a response

  ghost function Claimed<P>(su: Suite<P>, s: nat, t: nat, Q: P): P
  {
    su.g.add(Times(su.g, s, su.base), Times(su.g, t, Q))
  }

  method Check<P(!new, ==)>(su: Suite<P>, s: nat, t: nat, Q: P, V: P) returns (code: Code)
    requires Sound(su)
    ensures var R := Claimed(su, s, t, Q);
            code == if R == su.g.zero then Err(BadParams) else if R != V then Err(Auth) else Ok
  {
    hide Pow2, Abelian, OfOrder, Codes, Ciphers, Times, Ec.SumOf;
    Parts(su);
    var ts := [Ec.Term(su.base, s, 2 * su.half), Ec.Term(Q, t, su.half + 1)];
    Ec.SumOfTwo(su.g, ts[0], ts[1]);
    var ok, R := Ec.AddMulA(su.g, ts, su.bits);
    if !ok {
      return Err(BadParams);
    }
    code := if R != V then Err(Auth) else Ok;
  }

  /** An honest response passes the check. */
  lemma HonestResponse<P(!new)>(su: Suite<P>, u: nat, t: nat, d: nat)
    requires Sound(su) && 0 < u < su.q
    ensures var R := Claimed(su, Response(su.q, u, t, d), t, Times(su.g, d, su.base));
            R == Times(su.g, u, su.base) && R != su.g.zero
  {
    hide Pow2, Abelian, OfOrder, Codes, Ciphers, Times, Response;
    Parts(su);
    ResponseLaw(su.g, su.q, u, t, d, su.base);
    SmallMultiple(su, u, su.base);
  }

  // ---------------------------------------------------------------- t kept over u

  // The low n / 2 + 1 words of a scalar.
  function Low<P>(su: Suite<P>, u: nat): (v: nat)
    ensures v <= u
  {
    Rest(u, Pow2(L(su) + su.bits))
  }

  function Rest(u: nat, m: nat): (v: nat)
    requires m > 0
    ensures v <= u
  {
    N.DivNat(u, m);
    var q := u / m;
    assert q * m >= 0;
    u % m
  }

  // The scalar u with its low words replaced by t.
  function Overlay<P>(su: Suite<P>, u: nat, t: nat): nat
  {
    u - Low(su, u) + t
  }

  lemma LowOverlay<P(!new)>(su: Suite<P>, u: nat, t: nat)
    requires Sound(su) && t < Pow2(L(su) + 1)
    ensures Low(su, Overlay(su, u, t)) == t
    ensures Overlay(su, u, t) / Pow2(L(su) + su.bits) == u / Pow2(L(su) + su.bits)
  {
    hide Pow2, OfOrder, Codes, Ciphers;
    var m := Pow2(L(su) + su.bits);
    Pow2Monotone(L(su) + 1, L(su) + su.bits);
    N.DivUnique(u - u % m + t, m, u / m, t);
  }

  // ---------------------------------------------------------------- a party

  class Bsts<P(!new, ==)> {
    const su: Suite<P>
    const settings: Settings
    const cert: Cert
    const d: nat
    var u: nat
    var V: P
    var K: Keys

    constructor (su: Suite<P>, settings: Settings, cert: Cert, d: nat, Q: P)
      ensures this.su == su && this.settings == settings && this.cert == cert && this.d == d
    {
      this.su, this.settings, this.cert, this.d := su, settings, cert, d;
      u, V, K := 0, Q, Keys([], [], []);
    }

    /** bakeBSTSStart: both confirmations are obligatory. */
    static method Start(su: Suite<P>, settings: Settings, d: nat, cert: Cert) returns (code: Code, s: Bsts?<P>)
      requires Sound(su)
      ensures var found := CertPoint(su, cert.val, cert.data);
              && code == (if !settings.kca || !settings.kcb then Err(BadInput)
                          else if found.Point? then Ok else Err(found.error))
              && (code == Ok <==> s != null)
      ensures s != null ==> fresh(s) && s.su == su && s.settings == settings && s.cert == cert && s.d == d
    {
      if !settings.kca || !settings.kcb {
        return Err(BadInput), null;
      }
      var found := CertPoint(su, cert.val, cert.data);
      if found.Fails? {
        return Err(found.error), null;
      }
      s := new Bsts(su, settings, cert, d, found.p);
      code := Ok;
    }

    method Step2(r: Option<nat>) returns (code: Code, out: seq<nat>)
      requires Sound(su) && (r.Some? ==> 0 < r.value < su.q)
      modifies this
      ensures code == (if r.None? then Err(BadRng) else Ok) && K == old(K)
      ensures code == Ok ==> u == r.value && V == Times(su.g, u, su.base) && out == su.encode(V)
    {
      hide Pow2, Abelian, OfOrder, Codes, Ciphers, Times;
      if r.None? {
        return Err(BadRng), [];
      }
      u := r.value;
      SmallMultiple(su, u, su.base);
      var ok, V' := Multiple(su, su.base, u);
      if !ok {
        return Err(BadParams), [];
      }
      V := V';
      out := su.encode(V);
      code := Ok;
    }

    method Step3(inp: seq<nat>, r: Option<nat>) returns (code: Code, out: seq<nat>)
      requires Sound(su) && (r.Some? ==> 0 < r.value < su.q) && |inp| == 2 * No(su)
      modifies this
      ensures var Vb := su.decode(inp);
              if Vb.None? then code == Err(BadPoint)
              else if r.None? then code == Err(BadRng)
              else
                var Va := Times(su.g, r.value, su.base);
                var t := T(su, X(su, Va), inp[..No(su)]);
                && code == Ok && V == Vb.value
                && (var y := su.hash(X(su, Times(su.g, r.value, V)) + settings.helloa + settings.hellob);
                   K == Keys(su.krp(y, 0), su.krp(y, 1), su.krp(y, 2)))
                && out == su.encode(Va) + Seal(su, K, Zeros, Response(su.q, r.value, t, d), cert.data)
                // t takes the place of the low words of ua
                && u == Overlay(su, r.value, t)
      ensures code != Ok ==> K == old(K)
    {
      hide Pow2, Abelian, OfOrder, Codes, Ciphers, Times, Response, X, Seal, Overlay;
      Parts(su);
      var Vb := su.decode(inp);
      if Vb.None? {
        return Err(BadPoint), [];
      }
      V := Vb.value;
      DecodedNonzero(su, inp);
      if r.None? {
        return Err(BadRng), [];
      }
      u := r.value;
      SmallMultiple(su, u, su.base);
      var ok, Va := Multiple(su, su.base, u);
      if !ok {
        return Err(BadParams), [];
      }
      CodeOf(su, Va);
      out := su.encode(Va);
      TRange(su, X(su, Va), inp[..No(su)]);
      var t := FromLe(Prefix(su.hash(out[..No(su)] + inp[..No(su)]), No(su) / 2));
      var s := Respond(su, u, t, d);
      SmallMultiple(su, u, V);
      var S;
      ok, S := Multiple(su, V, u);
      if !ok {
        return Err(BadParams), [];
      }
      var y := su.hash(X(su, S) + settings.helloa + settings.hellob);
      K := Keys(su.krp(y, 0), su.krp(y, 1), su.krp(y, 2));
      out := out + Seal(su, K, Zeros, s, cert.data);
      u := Overlay(su, u, Pow2(L(su)) + t);
      code := Ok;
    }

    method Step4(inp: seq<nat>, vala: seq<nat> -> Checked) returns (code: Code, out: seq<nat>)
      requires Sound(su) && 0 < u < su.q
      modifies this
      ensures u == old(u) && V == old(V)
      ensures if |inp| <= 3 * No(su) + 8 then code == Err(BadInput) && K == old(K)
              else
                var Va := su.decode(inp[..2 * No(su)]);
                if Va.None? then code == Err(BadPoint) && K == old(K)
                else
                  && (var y := su.hash(X(su, Times(su.g, u, Va.value)) + settings.helloa + settings.hellob);
                     K == Keys(su.krp(y, 0), su.krp(y, 1), su.krp(y, 2)))
                  && (var box := Open(su, K, Zeros, inp[2 * No(su)..|inp| - 8], inp[|inp| - 8..], vala);
                     if box.Refused? then code == Err(box.error)
                     else
                       var t := T(su, inp[..No(su)], X(su, V));
                       var R := Claimed(su, box.s, t, box.Q);
                       if R == su.g.zero then code == Err(BadParams)
                       else if R != Va.value then code == Err(Auth)
                       else code == Ok && out == Seal(su, K, Ones, Response(su.q, u, t, d), cert.data))
    {
      hide Pow2, Abelian, OfOrder, Codes, Ciphers, Times, Response, X, Seal, Open, Claimed;
      Parts(su);
      out := [];
      if |inp| <= 3 * No(su) + 8 {
        return Err(BadInput), [];
      }
      var Va := su.decode(inp[..2 * No(su)]);
      if Va.None? {
        return Err(BadPoint), [];
      }
      DecodedNonzero(su, inp[..2 * No(su)]);
      SmallMultiple(su, u, Va.value);
      var ok, S := Multiple(su, Va.value, u);
      if !ok {
        return Err(BadParams), [];
      }
      var y := su.hash(X(su, S) + settings.helloa + settings.hellob);
      K := Keys(su.krp(y, 0), su.krp(y, 1), su.krp(y, 2));
      var box := Open(su, K, Zeros, inp[2 * No(su)..|inp| - 8], inp[|inp| - 8..], vala);
      if box.Refused? {
        return Err(box.error), [];
      }
      var xb := X(su, V);
      TRange(su, inp[..No(su)], xb);
      var t := FromLe(Prefix(su.hash(inp[..No(su)] + xb), No(su) / 2));
      code := Check(su, box.s, Pow2(L(su)) + t, box.Q, Va.value);
      if code != Ok {
        return;
      }
      var s := Respond(su, u, t, d);
      out := Seal(su, K, Ones, s, cert.data);
    }

    method Step5(inp: seq<nat>, valb: seq<nat> -> Checked) returns (code: Code)
      requires Sound(su)
      ensures if |inp| <= No(su) + 8 then code == Err(BadInput)
              else
                var box := Open(su, K, Ones, inp[..|inp| - 8], inp[|inp| - 8..], valb);
                if box.Refused? then code == Err(box.error)
                else
                  var R := Claimed(su, box.s, Low(su, u), box.Q);
                  code == if R == su.g.zero then Err(BadParams) else if R != V then Err(Auth) else Ok
    {
      hide Pow2, Abelian, OfOrder, Codes, Ciphers, Times, Open, Claimed, Low;
      if |inp| <= No(su) + 8 {
        return Err(BadInput);
      }
      var box := Open(su, K, Ones, inp[..|inp| - 8], inp[|inp| - 8..], valb);
      if box.Refused? {
        return Err(box.error);
      }
      code := Check(su, box.s, Low(su, u), box.Q, V);
    }

    method StepG() returns (key: seq<nat>)
      ensures key == K.k0
    {
      key := K.k0;
    }
  }

  // ---------------------------------------------------------------- an honest run

  // Both parties compute the same point u_a u_b G.
  lemma SamePoint<P(!new)>(su: Suite<P>, ua: nat, ub: nat, W: P)
    requires Sound(su)
    ensures Times(su.g, ua, Times(su.g, ub, W)) == Times(su.g, ub, Times(su.g, ua, W))
  {
    hide Pow2, Abelian, OfOrder, Codes, Ciphers, Times;
    Parts(su);
    TimesTimes(su.g, ua, ub, W);
    TimesTimes(su.g, ub, ua, W);
    assert ua * ub == ub * ua;
  }

  lemma Joined(e: seq<nat>, m: seq<nat>, n: nat)
    requires |e| == 2 * n && |m| >= 8
    ensures var x := e + m;
            && x[..2 * n] == e && x[..n] == e[..n]
            && x[2 * n..|x| - 8] == m[..|m| - 8] && x[|x| - 8..] == m[|m| - 8..]
  {
  }

  /** Whatever they are given, step 3 of one party and step 4 of another end with one K0 only if
      they have computed points with the same coordinate and use the same hello strings, short
      of a collision. */
  method SameKey<P(!new, ==)>(a: Bsts<P>, b: Bsts<P>, inpa: seq<nat>, r: Option<nat>, inpb: seq<nat>, vala: seq<nat> -> Checked)
      returns (codea: Code, codeb: Code)
    requires a != b && Sound(a.su) && b.su == a.su && 0 < b.u < b.su.q && (r.Some? ==> 0 < r.value < a.su.q)
    requires |inpa| == 2 * No(a.su)
    modifies a, b
    ensures codea == Ok ==> r.Some? && a.su.decode(inpa).Some?
    ensures codeb == Ok ==> |inpb| > 3 * No(b.su) && b.su.decode(inpb[..2 * No(b.su)]).Some?
    ensures codea == Ok && codeb == Ok && a.K.k0 == b.K.k0 ==>
              var su := a.su;
              var ka, kb := X(su, Times(su.g, r.value, su.decode(inpa).value)),
                            X(su, Times(su.g, old(b.u), su.decode(inpb[..2 * No(su)]).value));
              var x, y := a.settings.helloa + a.settings.hellob, b.settings.helloa + b.settings.hellob;
              (ka == kb && x == y) || Collision(su, ka + x, kb + y)
  {
    hide Pow2, Abelian, OfOrder, Codes, Ciphers, Times, Response, X, Seal, Open, Claimed, Overlay, T, Collision;
    var su := a.su;
    Parts(su);
    var out;
    codea, out := a.Step3(inpa, r);
    if codea != Ok {
      codeb := Err(FileRead);
      return;
    }
    ghost var ub := b.u;
    codeb, out := b.Step4(inpb, vala);
    if codeb == Ok && a.K.k0 == b.K.k0 {
      DecodedNonzero(su, inpa);
      DecodedNonzero(su, inpb[..2 * No(su)]);
      ghost var Ka, Kb := Times(su.g, r.value, su.decode(inpa).value), Times(su.g, ub, su.decode(inpb[..2 * No(su)]).value);
      SmallMultiple(su, r.value, su.decode(inpa).value);
      SmallMultiple(su, ub, su.decode(inpb[..2 * No(su)]).value);
      CodeOf(su, Ka);
      CodeOf(su, Kb);
      Joined3(X(su, Ka), a.settings.helloa, a.settings.hellob);
      Joined3(X(su, Kb), b.settings.helloa, b.settings.hellob);
      KeyBinds(su, X(su, Ka), X(su, Kb), a.settings.helloa + a.settings.hellob, b.settings.helloa + b.settings.hellob);
    }
  }

  lemma Joined3(k: seq<nat>, a: seq<nat>, b: seq<nat>)
    ensures k + a + b == k + (a + b)
  {
  }

  /** A run between honest parties: every check passes and both hold the same K0, unless a
      certificate is empty, which the length tests of steps 4 and 5 reject. */
  method Run<P(!new, ==)>(a: Bsts<P>, b: Bsts<P>, ua: nat, ub: nat, vala: seq<nat> -> Checked, valb: seq<nat> -> Checked)
      returns (codea: Code, codeb: Code)
    requires a != b && Sound(a.su) && b.su == a.su && b.settings == a.settings
    requires 0 < ua < a.su.q && 0 < ub < a.su.q
    requires Certifies(a.su, vala, a.cert.data, a.d) && Certifies(a.su, valb, b.cert.data, b.d)
    modifies a, b
    ensures codeb == if |a.cert.data| == 0 then Err(BadInput) else Ok
    ensures codea == if |a.cert.data| == 0 then Err(FileRead)
                     else if |b.cert.data| == 0 then Err(BadInput) else Ok
    ensures codeb == Ok ==> a.K.k0 == b.K.k0
  {
    hide Pow2, Abelian, OfOrder, Codes, Ciphers, Times, Response, X, Seal, Open, Claimed, Low, Overlay, Certifies, T;
    var su := a.su;
    Parts(su);
    ghost var Va, Vb := Times(su.g, ua, su.base), Times(su.g, ub, su.base);
    ghost var t := T(su, X(su, Va), X(su, Vb));
    ghost var sa, sb := Response(su.q, ua, t, a.d), Response(su.q, ub, t, b.d);
    SmallMultiple(su, ua, su.base);
    SmallMultiple(su, ub, su.base);
    CodeOf(su, Va);
    CodeOf(su, Vb);
    TRange(su, X(su, Va), X(su, Vb));
    SamePoint(su, ua, ub, su.base);
    ghost var y := su.hash(X(su, Times(su.g, ua, Vb)) + a.settings.helloa + a.settings.hellob);
    ghost var K := Keys(su.krp(y, 0), su.krp(y, 1), su.krp(y, 2));
    OpenSeal(su, K, Zeros, sa, a.d, a.cert.data, vala);
    OpenSeal(su, K, Ones, sb, b.d, b.cert.data, valb);
    Joined(su.encode(Va), Seal(su, K, Zeros, sa, a.cert.data), No(su));
    HonestResponse(su, ua, t, a.d);
    HonestResponse(su, ub, t, b.d);
    LowOverlay(su, ua, t);
    var code, m1 := b.Step2(Some(ub));
    var m2;
    code, m2 := a.Step3(m1, Some(ua));
    var m3;
    codeb, m3 := b.Step4(m2, vala);
    if codeb != Ok {
      return Err(FileRead), codeb;
    }
    codea := a.Step5(m3, valb);
  }
}
