/** Octet strings and the little-endian numbers they hold (wwFrom, wwTo). */
module Octets {
  import opened PowersOfTwo

  predicate IsOctets(s: seq<nat>)
  {
    forall i :: 0 <= i < |s| ==> s[i] < 256
  }

  function Repeat(x: nat, n: nat): (s: seq<nat>)
    ensures |s| == n && forall i :: 0 <= i < n ==> s[i] == x
  {
    seq(n, _ => x)
  }

  // wwFrom
  function FromLe(s: seq<nat>): (n: nat)
  {
    if s == [] then 0 else s[0] + 256 * FromLe(s[1..])
  }

  // wwTo: n octets
  function ToLe(x: nat, n: nat): (s: seq<nat>)
    ensures |s| == n && IsOctets(s)
  {
    if n == 0 then [] else [x % 256] + ToLe(x / 256, n - 1)
  }

  lemma {:induction false} FromTo(x: nat, n: nat)
    requires x < Pow2(8 * n)
    ensures FromLe(ToLe(x, n)) == x
  {
    hide Pow2;
    if n > 0 {
      OctetTop(x, n);
      FromTo(x / 256, n - 1);
      assert ToLe(x, n)[1..] == ToLe(x / 256, n - 1);
    } else {
      Pow2One();
    }
  }

  lemma OctetTop(x: nat, n: nat)
    requires n > 0 && x < Pow2(8 * n)
    ensures x / 256 < Pow2(8 * (n - 1))
  {
    hide Pow2;
    Pow8Times(n - 1);
  }

  lemma {:induction false} ToFrom(s: seq<nat>)
    requires IsOctets(s)
    ensures ToLe(FromLe(s), |s|) == s && FromLe(s) < Pow2(8 * |s|)
  {
    hide Pow2;
    if s != [] {
      ToFrom(s[1..]);
      OctetBottom(s[0], FromLe(s[1..]), |s|);
    } else {
      Pow2One();
    }
  }

  lemma OctetBottom(o: nat, h: nat, n: nat)
    requires o < 256 && n > 0 && h < Pow2(8 * (n - 1))
    ensures var x := o + 256 * h; x < Pow2(8 * n) && x % 256 == o && x / 256 == h
  {
    hide Pow2;
    Pow8Times(n - 1);
  }

  lemma Pow8Times(n: nat)
    ensures Pow2(8 * (n + 1)) == 256 * Pow2(8 * n)
  {
    hide Pow2;
    Pow2Add(8, 8 * n);
    Pow8();
  }

  lemma Pow8()
    ensures Pow2(8) == 256
  {
  }

  // memRev
  function Reversed(s: seq<nat>): (r: seq<nat>)
    ensures |r| == |s| && forall i :: 0 <= i < |s| ==> r[i] == s[|s| - 1 - i]
  {
    seq(|s|, i requires 0 <= i < |s| => s[|s| - 1 - i])
  }

  lemma ReversedTwice(s: seq<nat>)
    ensures Reversed(Reversed(s)) == s
  {
  }

  lemma ReversedSum(s: seq<nat>, t: seq<nat>)
    ensures Reversed(s + t) == Reversed(t) + Reversed(s)
  {
  }

  // ---------------------------------------------------------------- big-endian numbers

  // n octets of x, the highest first
  function Be(x: nat, n: nat): (s: seq<nat>)
    ensures |s| == n && IsOctets(s)
  {
    if n == 0 then [] else Be(x / 256, n - 1) + [x % 256]
  }

  function FromBe(s: seq<nat>): nat
  {
    if s == [] then 0 else 256 * FromBe(s[..|s| - 1]) + s[|s| - 1]
  }

  // the octets a number needs
  function Size(x: nat): (n: nat)
    ensures n == 0 <==> x == 0
  {
    if x == 0 then 0 else 1 + Size(x / 256)
  }

  lemma {:induction false} FromBeOf(x: nat, n: nat)
    requires Size(x) <= n
    ensures FromBe(Be(x, n)) == x
  {
    if n > 0 {
      FromBeOf(x / 256, n - 1);
      assert Be(x, n)[..n - 1] == Be(x / 256, n - 1);
    }
  }

  lemma {:induction false} BeOf(s: seq<nat>)
    requires IsOctets(s)
    ensures Be(FromBe(s), |s|) == s && Size(FromBe(s)) <= |s|
    ensures |s| > 0 && s[0] > 0 ==> Size(FromBe(s)) == |s|
  {
    if s != [] {
      var n := |s| - 1;
      BeOf(s[..n]);
      BeLast(FromBe(s[..n]), s[n], FromBe(s), n);
      assert s == s[..n] + [s[n]];
      if n == 0 {
        assert FromBe(s[..0]) == 0;
      }
    }
  }

  lemma BeLast(h: nat, o: nat, x: nat, n: nat)
    requires o < 256 && x == 256 * h + o
    ensures Be(x, n + 1) == Be(h, n) + [o]
    ensures x > 0 ==> Size(x) == 1 + Size(h)
  {
    assert x / 256 == h && x % 256 == o;
  }

  // The top octet of a number in n octets.
  lemma {:induction false} TopOctet(x: nat, n: nat)
    requires n > 0 && Size(x) <= n
    ensures Be(x, n)[0] == 0 <==> Size(x) < n
  {
    if n > 1 {
      TopOctet(x / 256, n - 1);
      assert Be(x, n)[0] == Be(x / 256, n - 1)[0];
    }
  }

  lemma {:induction false} SizeBound(x: nat, n: nat)
    ensures Size(x) <= n <==> x < Pow2(8 * n)
  {
    hide Pow2;
    if n == 0 {
      Pow2One();
    } else {
      SizeBound(x / 256, n - 1);
      Pow8Times(n - 1);
    }
  }

  lemma {:induction false} FromBeBound(s: seq<nat>)
    requires IsOctets(s)
    ensures FromBe(s) < Pow2(8 * |s|)
  {
    hide Pow2;
    BeOf(s);
    SizeBound(FromBe(s), |s|);
  }

  // Reversing the octets changes the order in which they are read.
  lemma {:induction false} ReversedBe(s: seq<nat>)
    ensures FromLe(Reversed(s)) == FromBe(s)
  {
    if s != [] {
      var n := |s| - 1;
      ReversedBe(s[..n]);
      assert Reversed(s)[1..] == Reversed(s[..n]);
    }
  }

  lemma {:induction false} LastOctet(w: seq<nat>, x: nat)
    ensures FromLe(w + [x]) == FromLe(w) + Pow2(8 * |w|) * x
  {
    hide Pow2;
    if w == [] {
      Pow2One();
      assert w + [x] == [x] && [x][1..] == [];
      assert FromLe([x]) == x + 256 * FromLe([]);
    } else {
      LastOctet(w[1..], x);
      Pow8Times(|w| - 1);
      assert (w + [x])[1..] == w[1..] + [x];
      assert 256 * Pow2(8 * (|w| - 1)) * x == 256 * (Pow2(8 * (|w| - 1)) * x);
    }
  }
}
