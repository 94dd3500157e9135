/** The BPACE protocol: keys from a password, over a point W that both parties derive from
    exchanged random strings. */
module BakeBpace {
  import opened Groups
  import opened PrimeOrder
  import opened Octets
  import opened Bake
  import opened PowersOfTwo

  class Bpace<P(!new, ==)> {
    const su: Suite<P>
    const settings: Settings
    var R: seq<nat>
    var W: P
    var u: nat
    var K0: seq<nat>
    var K1: seq<nat>
    var K2: seq<nat>

    ghost predicate Valid()
      reads this
    {
      Sound(su) && |R| == No(su) && u < su.q
    }

    // bakeBPACEStart
    constructor (su: Suite<P>, settings: Settings, pwd: seq<nat>)
      requires Sound(su)
      ensures this.su == su && this.settings == settings && Valid() && K2 == su.hash(pwd)
    {
      Parts(su);
      this.su, this.settings := su, settings;
      R, W, u, K0, K1, K2 := Repeat(0, No(su)), su.base, 0, [], [], su.hash(pwd);
    }

    // rb: l random bits
    method Step2(rb: seq<nat>) returns (out: seq<nat>)
      requires Valid() && |rb| == No(su) / 2
      modifies this`R
      ensures Valid() && R == old(R[..No(su) / 2]) + rb && out == su.ecbE(K2, rb)
    {
      Parts(su);
      R := R[..No(su) / 2] + rb;
      out := su.ecbE(K2, rb);
    }

    method Step3(inp: seq<nat>, ra: seq<nat>, r: Option<nat>) returns (code: Code, out: seq<nat>)
      requires Valid() && |inp| == No(su) / 2 && |ra| == No(su) / 2 && (r.Some? ==> 0 < r.value < su.q)
      modifies this
      ensures Valid() && K0 == old(K0) && K1 == old(K1) && K2 == old(K2)
      ensures W == su.swu(ra + su.ecbD(K2, inp))
      ensures code == if r.None? then Err(BadRng) else Ok
      ensures code == Ok ==>
                var Va := Times(su.g, r.value, W);
                // x(Va) takes the place of Ra || Rb
                u == r.value && R == X(su, Va) && out == su.ecbE(K2, ra) + su.encode(Va)
    {
      hide Pow2, Abelian, OfOrder, Codes, Times, X;
      Parts(su);
      R := ra + su.ecbD(K2, inp);
      out := su.ecbE(K2, ra);
      W := su.swu(R);
      SwuNonzero(su, R);
      if r.None? {
        return Err(BadRng), [];
      }
      u := r.value;
      SmallMultiple(su, u, W);
      var ok, Va := Multiple(su, W, u);
      if !ok {
        return Err(BadParams), [];
      }
      CodeOf(su, Va);
      out := out + su.encode(Va);
      R := X(su, Va);
      code := Ok;
    }

    // The keys that follow from Y.
    method Derive(y: seq<nat>)
      modifies this`K0, this`K1
      ensures K0 == su.krp(y, 0) && K1 == if settings.kca || settings.kcb then su.krp(y, 1) else old(K1)
    {
      K0 := su.krp(y, 0);
      if settings.kca || settings.kcb {
        K1 := su.krp(y, 1);
      }
    }

    method Step4(inp: seq<nat>, r: Option<nat>) returns (code: Code, out: seq<nat>)
      requires Valid() && |inp| == No(su) / 2 + 2 * No(su) && (r.Some? ==> 0 < r.value < su.q)
      modifies this
      ensures Valid() && K2 == old(K2)
      ensures var Va := su.decode(inp[No(su) / 2..]);
              if Va.None? then code == Err(BadPoint)
              else if r.None? then code == Err(BadRng)
              else
                var xa := inp[No(su) / 2..No(su) / 2 + No(su)];
                var Vb := Times(su.g, u, W);
                var y := su.hash(X(su, Times(su.g, u, Va.value)) + xa + X(su, Vb) + settings.helloa + settings.hellob);
                && code == Ok && u == r.value
                && R == su.ecbD(K2, inp[..No(su) / 2]) + old(R[No(su) / 2..]) && W == su.swu(R)
                && K0 == su.krp(y, 0)
                && K1 == (if settings.kca || settings.kcb then su.krp(y, 1) else old(K1))
                && out == su.encode(Vb) + if settings.kcb then su.mac(K1, Ones) else []
      ensures code != Ok ==> K0 == old(K0) && K1 == old(K1)
    {
      hide Pow2, Abelian, OfOrder, Codes, Times, X;
      Parts(su);
      out := [];
      var Va := su.decode(inp[No(su) / 2..]);
      if Va.None? {
        return Err(BadPoint), [];
      }
      DecodedNonzero(su, inp[No(su) / 2..]);
      R := su.ecbD(K2, inp[..No(su) / 2]) + R[No(su) / 2..];
      W := su.swu(R);
      SwuNonzero(su, R);
      if r.None? {
        return Err(BadRng), [];
      }
      u := r.value;
      SmallMultiple(su, u, Va.value);
      var ok, K := Multiple(su, Va.value, u);
      if !ok {
        return Err(BadParams), [];
      }
      SmallMultiple(su, u, W);
      var Vb;
      ok, Vb := Multiple(su, W, u);
      if !ok {
        return Err(BadParams), [];
      }
      out := su.encode(Vb);
      Derive(su.hash(X(su, K) + inp[No(su) / 2..No(su) / 2 + No(su)] + X(su, Vb) + settings.helloa + settings.hellob));
      if settings.kcb {
        out := out + su.mac(K1, Ones);
      }
      code := Ok;
    }

    method Step5(inp: seq<nat>) returns (code: Code, out: seq<nat>)
      requires Valid() && 0 < u && |inp| == 2 * No(su) + (if settings.kcb then 8 else 0)
      modifies this`K0, this`K1
      ensures var Vb := su.decode(inp[..2 * No(su)]);
              if Vb.None? then code == Err(BadPoint) && K0 == old(K0) && K1 == old(K1)
              else
                var y := su.hash(X(su, Times(su.g, u, Vb.value)) + R + X(su, Vb.value) + settings.helloa + settings.hellob);
                && K0 == su.krp(y, 0)
                && K1 == (if settings.kca || settings.kcb then su.krp(y, 1) else old(K1))
                && if settings.kcb && inp[2 * No(su)..] != su.mac(K1, Ones) then code == Err(Auth)
                   else code == Ok && out == if settings.kca then su.mac(K1, Zeros) else []
    {
      hide Pow2, Abelian, OfOrder, Codes, Ciphers, Times, X;
      out := [];
      var Vb := su.decode(inp[..2 * No(su)]);
      if Vb.None? {
        return Err(BadPoint), [];
      }
      DecodedNonzero(su, inp[..2 * No(su)]);
      SmallMultiple(su, u, Vb.value);
      var ok, K := Multiple(su, Vb.value, u);
      if !ok {
        return Err(BadParams), [];
      }
      Derive(su.hash(X(su, K) + R + X(su, Vb.value) + settings.helloa + settings.hellob));
      if settings.kcb {
        if inp[2 * No(su)..] != su.mac(K1, Ones) {
          return Err(Auth), [];
        }
      }
      if settings.kca {
        out := su.mac(K1, Zeros);
      }
      code := Ok;
    }

    method Step6(inp: seq<nat>) returns (code: Code)
      ensures code == if !settings.kca then Err(BadLogic)
                      else if inp != su.mac(K1, Zeros) then Err(Auth) else Ok
    {
      if !settings.kca {
        return Err(BadLogic);
      }
      if inp != su.mac(K1, Zeros) {
        return Err(Auth);
      }
      code := Ok;
    }

    method StepG() returns (key: seq<nat>)
      ensures key == K0
    {
      key := K0;
    }
  }

  lemma SwuNonzero<P(!new)>(su: Suite<P>, x: seq<nat>)
    requires Sound(su)
    ensures su.swu(x) != su.g.zero
  {
  }

  // ---------------------------------------------------------------- an honest run

  /** What the two parties recover from each other's messages under one password. */
  lemma SameStrings<P(!new)>(su: Suite<P>, k: seq<nat>, ra: seq<nat>, rb: seq<nat>)
    requires Sound(su)
    ensures su.ecbD(k, su.ecbE(k, ra)) == ra && su.ecbD(k, su.ecbE(k, rb)) == rb
    ensures |su.ecbE(k, ra)| == |ra| && |su.ecbE(k, rb)| == |rb|
  {
  }

  lemma SharedY<P(!new)>(su: Suite<P>, settings: Settings, ua: nat, ub: nat, W: P)
    requires Sound(su) && 0 < ua < su.q && 0 < ub < su.q && W != su.g.zero
    ensures var Va, Vb := Times(su.g, ua, W), Times(su.g, ub, W);
            && Va != su.g.zero && Vb != su.g.zero
            && X(su, Times(su.g, ua, Vb)) + X(su, Va) + X(su, Vb) + settings.helloa + settings.hellob
               == X(su, Times(su.g, ub, Va)) + X(su, Va) + X(su, Vb) + settings.helloa + settings.hellob
  {
    hide Pow2, Abelian, OfOrder, Codes, Ciphers, Times, X;
    Parts(su);
    SmallMultiple(su, ua, W);
    SmallMultiple(su, ub, W);
    TimesTimes(su.g, ua, ub, W);
    TimesTimes(su.g, ub, ua, W);
    assert ua * ub == ub * ua;
  }

  lemma Joined(y: seq<nat>, e: seq<nat>, n: nat)
    requires |e| == 2 * n && |y| == n / 2
    ensures var x := y + e; x[..n / 2] == y && x[n / 2..] == e && x[n / 2..n / 2 + n] == e[..n]
  {
  }

  lemma Tagged<P(!new)>(su: Suite<P>, e: seq<nat>, k: seq<nat>, n: nat)
    requires Sound(su) && |e| == 2 * n
    ensures var t := su.mac(k, Ones);
            |t| == 8 && (e + t)[..2 * n] == e && (e + t)[2 * n..] == t && (e + [])[..2 * n] == e
  {
    hide Pow2, Abelian, OfOrder, Codes;
  }

  /** Whatever they are given, step 4 of one party and step 5 of the other end with one K0 only if
      they have computed points with the same coordinate and have seen the same coordinates of
      Va and Vb and the same hello strings, short of a collision. */
  method SameKey<P(!new, ==)>(a: Bpace<P>, b: Bpace<P>, inpb: seq<nat>, r: Option<nat>, inpa: seq<nat>)
      returns (codea: Code, codeb: Code)
    requires a != b && a.Valid() && b.Valid() && b.su == a.su && 0 < a.u && (r.Some? ==> 0 < r.value < b.su.q)
    requires |inpb| == No(b.su) / 2 + 2 * No(b.su) && |inpa| == 2 * No(a.su) + (if a.settings.kcb then 8 else 0)
    modifies a, b
    ensures codeb == Ok ==> r.Some? && b.su.decode(inpb[No(b.su) / 2..]).Some?
    ensures codea == Ok ==> a.su.decode(inpa[..2 * No(a.su)]).Some?
    ensures codea == Ok && codeb == Ok && a.K0 == b.K0 ==>
              var su, n := a.su, No(a.su);
              var Va, Vb := su.decode(inpb[n / 2..]).value, su.decode(inpa[..2 * n]).value;
              var ka, kb := X(su, Times(su.g, a.u, Vb)), X(su, Times(su.g, r.value, Va));
              var xa, xb := a.R + X(su, Vb), inpb[n / 2..n / 2 + n] + X(su, Times(su.g, r.value, b.W));
              var x, y := a.settings.helloa + a.settings.hellob, b.settings.helloa + b.settings.hellob;
              (ka == kb && xa == xb && x == y) || Collision(su, ka + xa + x, kb + xb + y)
  {
    hide Pow2, Abelian, OfOrder, Codes, Ciphers, Times, X, Collision;
    var su := a.su;
    Parts(su);
    var out;
    codeb, out := b.Step4(inpb, r);
    if codeb != Ok {
      codea := Err(FileRead);
      return;
    }
    codea, out := a.Step5(inpa);
    if codea == Ok && a.K0 == b.K0 {
      ghost var n := No(su);
      ghost var Va, Vb := su.decode(inpb[n / 2..]).value, su.decode(inpa[..2 * n]).value;
      DecodedNonzero(su, inpb[n / 2..]);
      DecodedNonzero(su, inpa[..2 * n]);
      SmallMultiple(su, a.u, Vb);
      SmallMultiple(su, r.value, Va);
      SwuNonzero(su, b.R);
      SmallMultiple(su, r.value, b.W);
      CodeOf(su, Times(su.g, a.u, Vb));
      CodeOf(su, Times(su.g, r.value, Va));
      CodeOf(su, Times(su.g, r.value, b.W));
      CodeOf(su, Vb);
      ghost var ka, kb := X(su, Times(su.g, a.u, Vb)), X(su, Times(su.g, r.value, Va));
      ghost var xa, xb := inpb[n / 2..n / 2 + n], X(su, Times(su.g, r.value, b.W));
      Grouped(ka, a.R, X(su, Vb), a.settings.helloa, a.settings.hellob);
      Grouped(kb, xa, xb, b.settings.helloa, b.settings.hellob);
      KeyBinds(su, ka + (a.R + X(su, Vb)), kb + (xa + xb), a.settings.helloa + a.settings.hellob, b.settings.helloa + b.settings.hellob);
      SplitOff(ka, kb, a.R + X(su, Vb), xa + xb);
    }
  }

  lemma Grouped(k: seq<nat>, a: seq<nat>, b: seq<nat>, c: seq<nat>, d: seq<nat>)
    ensures k + a + b + c + d == k + (a + b) + (c + d)
  {
  }

  lemma SplitOff(a: seq<nat>, b: seq<nat>, x: seq<nat>, y: seq<nat>)
    requires |a| == |b|
    ensures a + x == b + y ==> a == b && x == y
  {
    if a + x == b + y {
      assert a == (a + x)[..|a|] && b == (b + y)[..|b|];
      assert x == (a + x)[|a|..] && y == (b + y)[|b|..];
    }
  }

  /** With equal passwords and settings a run passes every check and ends with one K0. */
  method Run<P(!new, ==)>(a: Bpace<P>, b: Bpace<P>, ra: seq<nat>, rb: seq<nat>, ua: nat, ub: nat)
      returns (codea: Code, codeb: Code)
    requires a != b && a.Valid() && b.Valid() && b.su == a.su && b.settings == a.settings && a.K2 == b.K2
    requires |ra| == No(a.su) / 2 == |rb| && 0 < ua < a.su.q && 0 < ub < a.su.q
    modifies a, b
    ensures codea == Ok && codeb == Ok && a.K0 == b.K0
    ensures a.W == b.W == a.su.swu(ra + rb)
    ensures a.settings.kca || a.settings.kcb ==> a.K1 == b.K1
  {
    hide Pow2, Abelian, OfOrder, Codes, Ciphers, Times, X;
    var su := a.su;
    Parts(su);
    SameStrings(su, a.K2, ra, rb);
    ghost var W := su.swu(ra + rb);
    SwuNonzero(su, ra + rb);
    SharedY(su, a.settings, ua, ub, W);
    ghost var Va, Vb := Times(su.g, ua, W), Times(su.g, ub, W);
    CodeOf(su, Va);
    CodeOf(su, Vb);
    Joined(su.ecbE(a.K2, ra), su.encode(Va), No(su));
    var m1 := b.Step2(rb);
    var m2;
    assert b.R[No(su) / 2..] == rb;
    codea, m2 := a.Step3(m1, ra, Some(ua));
    var m3;
    codeb, m3 := b.Step4(m2, Some(ub));
    Tagged(su, su.encode(Vb), b.K1, No(su));
    var m4;
    codea, m4 := a.Step5(m3);
    if a.settings.kca {
      codeb := b.Step6(m4);
    }
  }
}
