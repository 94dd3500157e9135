/** Object identifiers as dotted strings and as DER codes (oidIsValid, derOIDEnc, derOIDDec). */
module Oid {
  import opened Octets
  import Mem
  import Der
  import N = Numbers

  const U32Max: nat := 0xFFFF_FFFF

  type Option<+T> = Der.Option<T>

  // ---------------------------------------------------------------- strings of numbers

  function Digit(d: nat): (c: char)
    requires d < 10
    ensures c != '.' && '0' <= c <= '9' && DigitValue(c) == d
  {
    ['0', '1', '2', '3', '4', '5', '6', '7', '8', '9'][d]
  }

  function DigitValue(c: char): nat
    requires '0' <= c <= '9'
  {
    c as int - '0' as int
  }

  function Decimal(n: nat): (s: string)
    ensures |s| > 0
  {
    if n < 10 then [Digit(n)] else Decimal(n / 10) + [Digit(n % 10)]
  }

  function Dotted(arcs: seq<nat>): (s: string)
    requires |arcs| > 0
  {
    var n := |arcs| - 1;
    if n == 0 then Decimal(arcs[0]) else Dotted(arcs[..n]) + "." + Decimal(arcs[n])
  }

  // The identifiers that fit the code: at least two numbers, the first two in range.
  predicate Fits(arcs: seq<nat>)
  {
    && |arcs| >= 2 && (forall i :: 0 <= i < |arcs| ==> arcs[i] <= U32Max)
    && arcs[0] <= 2 && (arcs[0] < 2 ==> arcs[1] < 40) && 40 * arcs[0] + arcs[1] <= U32Max
  }

  // ---------------------------------------------------------------- oidIsValid

  // A number that may follow the given ones.
  predicate MayFollow(arcs: seq<nat>, val: nat)
  {
    && (|arcs| == 0 ==> val <= 2)
    && (|arcs| == 1 ==> (arcs[0] < 2 ==> val < 40) && 40 * arcs[0] + val <= U32Max)
  }

  // A further digit of a number.
  predicate MayExtend(pos: nat, val: nat, c: char)
  {
    && '0' <= c <= '9' && !(pos == 1 && val == 0)
    && !(val > U32Max / 10 || (val == U32Max / 10 && DigitValue(c) > U32Max % 10))
  }

  // Reads the rest of a string, after numbers and after pos digits of value val.
  function Parse(rest: string, pos: nat, val: nat, arcs: seq<nat>): Option<seq<nat>>
    decreases |rest|
  {
    if rest == "" || rest[0] == '.' then
      if pos == 0 || !MayFollow(arcs, val) then Der.None
      else if rest != "" then Parse(rest[1..], 0, 0, arcs + [val])
      else if |arcs| >= 1 then Der.Some(arcs + [val])
      else Der.None
    else if !MayExtend(pos, val, rest[0]) then Der.None
    else Parse(rest[1..], pos + 1, 10 * val + DigitValue(rest[0]), arcs)
  }

  /** oidIsValid */
  method IsValid(oid: string) returns (ok: bool)
    ensures ok <==> Parse(oid, 0, 0, []).Some?
  {
    var val: nat, d1: nat, pos: nat, n: nat, i: nat := 0, 0, 0, 0, 0;
    ghost var arcs: seq<nat> := [];
    assert oid[0..] == oid;
    while true
      invariant i <= |oid| && Parse(oid, 0, 0, []) == Parse(oid[i..], pos, val, arcs)
      invariant n == |arcs| && (n > 0 ==> d1 == arcs[0] <= 2)
      decreases |oid| - i
    {
      if i == |oid| || oid[i] == '.' {
        if pos == 0 || (n == 0 && val > 2) || (n == 1 && d1 < 2 && val >= 40)
           || (n == 1 && val > U32Max - 40 * d1)
        {
          return false;
        }
        if n == 0 {
          d1 := val;
        }
        n := n + 1;
        if i == |oid| {
          return n >= 2;
        }
        arcs := arcs + [val];
        i, pos, val := i + 1, 0, 0;
      } else {
        if oid[i] < '0' || oid[i] > '9' || (pos == 1 && val == 0) || val > U32Max / 10
           || (val == U32Max / 10 && DigitValue(oid[i]) > U32Max % 10)
        {
          return false;
        }
        val := 10 * val + DigitValue(oid[i]);
        i, pos := i + 1, pos + 1;
      }
    }
  }

  // What was read before the rest.
  function Done(arcs: seq<nat>, pos: nat, val: nat): string
  {
    (if arcs == [] then "" else Dotted(arcs) + ".") + if pos == 0 then "" else Decimal(val)
  }

  predicate Sofar(arcs: seq<nat>, pos: nat, val: nat)
  {
    && (forall i :: 0 <= i < |arcs| ==> arcs[i] <= U32Max)
    && (|arcs| > 0 ==> arcs[0] <= 2)
    && (|arcs| > 1 ==> (arcs[0] < 2 ==> arcs[1] < 40) && 40 * arcs[0] + arcs[1] <= U32Max)
    && val <= U32Max && (pos == 0 ==> val == 0) && (pos > 1 ==> val > 0) && (pos == 1 ==> val < 10)
  }

  lemma DoneNumber(arcs: seq<nat>, pos: nat, val: nat)
    requires pos > 0
    ensures Dotted(arcs + [val]) == Done(arcs, pos, val)
  {
    if arcs == [] {
      assert arcs + [val] == [val];
    } else {
      assert (arcs + [val])[..|arcs|] == arcs;
    }
  }

  lemma DoneDigit(arcs: seq<nat>, pos: nat, val: nat, c: char)
    requires Sofar(arcs, pos, val) && MayExtend(pos, val, c)
    ensures Sofar(arcs, pos + 1, 10 * val + DigitValue(c))
    ensures Done(arcs, pos + 1, 10 * val + DigitValue(c)) == Done(arcs, pos, val) + [c]
  {
    hide Dotted, Decimal;
    DecimalDigit(val, c);
  }

  lemma DecimalDigit(val: nat, c: char)
    requires '0' <= c <= '9'
    ensures val > 0 ==> Decimal(10 * val + DigitValue(c)) == Decimal(val) + [c]
    ensures Decimal(DigitValue(c)) == [c]
  {
    CharOfValue(c);
    N.DivUnique(10 * val + DigitValue(c), 10, val, DigitValue(c));
  }

  lemma CharOfValue(c: char)
    requires '0' <= c <= '9'
    ensures DigitValue(c) < 10 && Digit(DigitValue(c)) == c
  {
  }

  lemma NumberDone(arcs: seq<nat>, pos: nat, val: nat)
    requires Sofar(arcs, pos, val) && MayFollow(arcs, val) && pos > 0
    ensures Sofar(arcs + [val], 0, 0) && (|arcs| >= 1 ==> Fits(arcs + [val]))
    ensures Dotted(arcs + [val]) == Done(arcs, pos, val)
    ensures Done(arcs + [val], 0, 0) == Done(arcs, pos, val) + "."
  {
    hide Dotted, Decimal, Done, Sofar, Fits;
    NumberFits(arcs, pos, val);
    DoneNumber(arcs, pos, val);
    DoneDot(arcs + [val]);
  }

  lemma DoneDot(arcs: seq<nat>)
    requires |arcs| > 0
    ensures Done(arcs, 0, 0) == Dotted(arcs) + "."
  {
    hide Dotted;
  }

  lemma NumberFits(arcs: seq<nat>, pos: nat, val: nat)
    requires Sofar(arcs, pos, val) && MayFollow(arcs, val)
    ensures Sofar(arcs + [val], 0, 0) && (|arcs| >= 1 ==> Fits(arcs + [val]))
  {
  }

  // Whatever is read fits and is written by the string.
  lemma {:induction false} ParseSound(rest: string, pos: nat, val: nat, arcs: seq<nat>)
    requires Sofar(arcs, pos, val)
    ensures var r := Parse(rest, pos, val, arcs);
            r.Some? ==> Fits(r.value) && Dotted(r.value) == Done(arcs, pos, val) + rest
    decreases |rest|
  {
    hide Dotted, Done, Sofar, Fits, MayFollow;
    if Parse(rest, pos, val, arcs).Some? {
      if rest == "" || rest[0] == '.' {
        NumberDone(arcs, pos, val);
        if rest != "" {
          ParseSound(rest[1..], 0, 0, arcs + [val]);
          assert rest == "." + rest[1..];
          assert Done(arcs, pos, val) + rest == Done(arcs, pos, val) + "." + rest[1..];
        } else {
          assert Done(arcs, pos, val) + rest == Done(arcs, pos, val);
        }
      } else {
        DoneDigit(arcs, pos, val, rest[0]);
        ParseSound(rest[1..], pos + 1, 10 * val + DigitValue(rest[0]), arcs);
        assert [rest[0]] + rest[1..] == rest;
        assert Done(arcs, pos, val) + [rest[0]] + rest[1..] == Done(arcs, pos, val) + rest;
      }
    }
  }

  // The string from the number k on.
  function Suffix(arcs: seq<nat>, k: nat): string
    requires k < |arcs|
    decreases |arcs| - k
  {
    Decimal(arcs[k]) + if k + 1 < |arcs| then "." + Suffix(arcs, k + 1) else ""
  }

  lemma {:induction false} DottedSuffix(arcs: seq<nat>, k: nat)
    requires k < |arcs|
    ensures Dotted(arcs) == (if k == 0 then "" else Dotted(arcs[..k]) + ".") + Suffix(arcs, k)
    decreases |arcs| - k
  {
    hide Decimal;
    if k + 1 < |arcs| {
      DottedSuffix(arcs, k + 1);
      assert arcs[..k + 1][..k] == arcs[..k];
    } else {
      assert arcs[..k + 1] == arcs;
    }
  }

  lemma {:induction false} ReadDecimal(v: nat, rest: string, arcs: seq<nat>)
    requires v <= U32Max
    ensures Parse(Decimal(v) + rest, 0, 0, arcs) == Parse(rest, |Decimal(v)|, v, arcs)
  {
    if v < 10 {
      var s := Decimal(v) + rest;
      assert s[1..] == rest;
    } else {
      var c := Digit(v % 10);
      ReadDecimal(v / 10, [c] + rest, arcs);
      assert Decimal(v) + rest == Decimal(v / 10) + ([c] + rest);
      assert ([c] + rest)[1..] == rest;
      assert MayExtend(|Decimal(v / 10)|, v / 10, c);
    }
  }

  lemma {:induction false} ParseComplete(arcs: seq<nat>, k: nat)
    requires Fits(arcs) && k < |arcs|
    ensures Parse(Suffix(arcs, k), 0, 0, arcs[..k]) == Der.Some(arcs)
    decreases |arcs| - k
  {
    hide Decimal;
    var rest := if k + 1 < |arcs| then "." + Suffix(arcs, k + 1) else "";
    ReadDecimal(arcs[k], rest, arcs[..k]);
    assert arcs[..k] + [arcs[k]] == arcs[..k + 1];
    if k + 1 < |arcs| {
      ParseComplete(arcs, k + 1);
      assert rest[1..] == Suffix(arcs, k + 1);
    } else {
      assert arcs[..k + 1] == arcs;
    }
  }

  /** oidIsValid accepts exactly the strings of the identifiers that fit the code, and reads
      them without ambiguity. */
  lemma ParseExact(oid: string, arcs: seq<nat>)
    ensures Parse(oid, 0, 0, []) == Der.Some(arcs) <==> Fits(arcs) && Dotted(arcs) == oid
  {
    hide Decimal, Dotted, Parse;
    ParseSound(oid, 0, 0, []);
    assert Done([], 0, 0) + oid == oid;
    if Fits(arcs) && Dotted(arcs) == oid {
      ParseComplete(arcs, 0);
      DottedSuffix(arcs, 0);
      assert arcs[..0] == [];
      assert "" + Suffix(arcs, 0) == Suffix(arcs, 0);
    }
  }

  // ---------------------------------------------------------------- codes of numbers

  // Seven bits an octet, all but the last marked.
  function Marked(x: nat): (s: seq<nat>)
    ensures IsOctets(s) && forall i :: 0 <= i < |s| ==> s[i] >= 128
  {
    if x == 0 then [] else Marked(x / 128) + [128 + x % 128]
  }

  function Sid(x: nat): (s: seq<nat>)
    ensures |s| > 0 && IsOctets(s)
  {
    Marked(x / 128) + [x % 128]
  }

  function Sids(arcs: seq<nat>): (s: seq<nat>)
  {
    if arcs == [] then [] else Sids(arcs[..|arcs| - 1]) + Sid(arcs[|arcs| - 1])
  }

  // The numbers of the code: the first two are one.
  function Packed(arcs: seq<nat>): seq<nat>
    requires |arcs| >= 2
  {
    [40 * arcs[0] + arcs[1]] + arcs[2..]
  }

  function Body(arcs: seq<nat>): seq<nat>
    requires |arcs| >= 2
  {
    Sids(Packed(arcs))
  }

  function Code(arcs: seq<nat>): seq<nat>
    requires |arcs| >= 2
  {
    Der.Tlv(6, Body(arcs))
  }

  /** X.690, section 8.19: seven bits an octet, the highest first, all octets but the last
      marked, and no leading zeros. */
  lemma SidNumber(x: nat)
    ensures var s := Sid(x);
            && Der.TagNumber(s) == x && s[|s| - 1] < 128 && (forall i :: 0 <= i < |s| - 1 ==> s[i] >= 128)
            && (|s| > 1 ==> s[0] != 128)
  {
    hide Marked, Der.TagNumber;
    var m := Marked(x / 128);
    MarkedNumber(x / 128);
    NumberMore(m, x % 128);
    if x / 128 == 0 {
      MarkedZero();
    }
  }

  lemma {:induction false} MarkedNumber(x: nat)
    ensures Der.TagNumber(Marked(x)) == x && (x > 0 ==> |Marked(x)| > 0 && Marked(x)[0] != 128)
  {
    hide Der.TagNumber;
    if x > 0 {
      MarkedNumber(x / 128);
      NumberMore(Marked(x / 128), 128 + x % 128);
    } else {
      NoNumber();
    }
  }

  lemma NumberMore(s: seq<nat>, o: nat)
    requires o < 256
    ensures Der.TagNumber(s + [o]) == 128 * Der.TagNumber(s) + if o < 128 then o else o - 128
  {
    assert (s + [o])[..|s|] == s;
  }

  lemma NoNumber()
    ensures Der.TagNumber([]) == 0
  {
  }

  // ---------------------------------------------------------------- reading a code

  // derOIDDec behind the tag: the packed numbers read so far and a number val in progress.
  // An unfinished number at the end is dropped.
  function Scan(s: seq<nat>, val: nat, done: seq<nat>): Option<seq<nat>>
    decreases |s|
  {
    if s == [] then Der.Some(done)
    else if val >= 0x200_0000 || (val == 0 && s[0] == 128) then Der.None
    else
      var v := 128 * val + s[0] % 128;
      if s[0] < 128 then Scan(s[1..], 0, done + [v]) else Scan(s[1..], v, done)
  }

  // The numbers of an identifier from the packed ones.
  function Unpacked(p: seq<nat>): (arcs: seq<nat>)
    requires |p| > 0
  {
    (if p[0] < 40 then [0, p[0]] else if p[0] < 80 then [1, p[0] - 40] else [2, p[0] - 80]) + p[1..]
  }

  function Read(s: seq<nat>, before: nat): Der.Found<string>
  {
    match Der.ReadTagged(s, 6, before)
    case Bad => Der.Bad
    case Overrun => Der.Overrun
    case Found(v, n) =>
      match Scan(v, 0, [])
      case None => Der.Bad
      case Some(p) => Der.Found(if p == [] then "" else Dotted(Unpacked(p)), n)
  }

  lemma {:induction false} DottedMore(p: seq<nat>, v: nat)
    requires |p| > 0
    ensures Dotted(Unpacked(p + [v])) == Dotted(Unpacked(p)) + "." + Decimal(v)
  {
    var arcs := Unpacked(p);
    assert Unpacked(p + [v]) == arcs + [v];
    assert (arcs + [v])[..|arcs|] == arcs;
  }

  lemma DottedTwo(a: nat, b: nat)
    ensures Dotted([a, b]) == Decimal(a) + "." + Decimal(b)
  {
    assert [a, b][..1] == [a];
  }

  /** derOIDDec: the string grows number by number. */
  method Dec(s: seq<nat>, before: nat) returns (r: Der.Found<string>)
    ensures r == Read(s, before)
  {
    hide Der.ReadTagged, Dotted, Decimal;
    var tlv := Der.ReadTagged(s, 6, before);
    if tlv.Bad? {
      return Der.Bad;
    }
    if tlv.Overrun? {
      return Der.Overrun;
    }
    var v := tlv.value;
    var oid: string, first: bool, val: nat, pos: nat := "", true, 0, 0;
    ghost var p: seq<nat> := [];
    assert v[0..] == v;
    while pos < |v|
      invariant pos <= |v| && Scan(v, 0, []) == Scan(v[pos..], val, p)
      invariant first == (p == []) && oid == if p == [] then "" else Dotted(Unpacked(p))
    {
      if val >= 0x200_0000 {
        return Der.Bad;
      }
      if val == 0 && v[pos] == 128 {
        return Der.Bad;
      }
      val := 128 * val + v[pos] % 128;
      if v[pos] < 128 {
        ghost var q := p + [val];
        if first {
          var d1 := if val < 40 then 0 else if val < 80 then 1 else 2;
          assert Unpacked(q) == [d1, val - 40 * d1];
          val := val - 40 * d1;
          DottedTwo(d1, val);
          oid := Decimal(d1);
          first := false;
        } else {
          DottedMore(p, val);
        }
        oid := oid + ".";
        oid := oid + Decimal(val);
        val := 0;
        p := q;
      }
      pos := pos + 1;
    }
    r := Der.Found(oid, tlv.n);
  }

  lemma {:induction false} ScanMarked(x: nat, rest: seq<nat>, done: seq<nat>)
    requires x < 0x200_0000
    ensures Scan(Marked(x) + rest, 0, done) == Scan(rest, x, done)
  {
    if x == 0 {
      assert Marked(x) + rest == rest;
    } else {
      var o := 128 + x % 128;
      ScanMarked(x / 128, [o] + rest, done);
      assert Marked(x) + rest == Marked(x / 128) + ([o] + rest);
      assert ([o] + rest)[1..] == rest;
    }
  }

  lemma ScanSid(x: nat, rest: seq<nat>, done: seq<nat>)
    requires x <= U32Max
    ensures Scan(Sid(x) + rest, 0, done) == Scan(rest, 0, done + [x])
  {
    var o := x % 128;
    ScanMarked(x / 128, [o] + rest, done);
    assert Sid(x) + rest == Marked(x / 128) + ([o] + rest);
    assert ([o] + rest)[1..] == rest;
  }

  lemma {:induction false} ScanSids(p: seq<nat>, rest: seq<nat>)
    requires forall i :: 0 <= i < |p| ==> p[i] <= U32Max
    ensures Scan(Sids(p) + rest, 0, []) == Scan(rest, 0, p)
  {
    hide Scan, Sid;
    if p == [] {
      assert Sids(p) + rest == rest;
    } else {
      var n := |p| - 1;
      ScanSids(p[..n], Sid(p[n]) + rest);
      assert Sids(p) + rest == Sids(p[..n]) + (Sid(p[n]) + rest);
      ScanSid(p[n], rest, p[..n]);
      assert p[..n] + [p[n]] == p;
    }
  }

  lemma UnpackPacked(arcs: seq<nat>)
    requires Fits(arcs)
    ensures Unpacked(Packed(arcs)) == arcs
    ensures forall i :: 0 <= i < |Packed(arcs)| ==> Packed(arcs)[i] <= U32Max
  {
    var p := Packed(arcs);
    assert p[1..] == arcs[2..];
    assert arcs == [arcs[0], arcs[1]] + arcs[2..];
  }

  /** The identifier is read back from its code. */
  lemma ReadBack(arcs: seq<nat>, rest: seq<nat>, before: nat)
    requires Fits(arcs) && |Code(arcs) + rest| < Der.SizeMax
    ensures Read(Code(arcs) + rest, before) == Der.Found(Dotted(arcs), |Code(arcs)|)
  {
    hide Sids, Unpacked, Packed, Dotted, Der.ReadTagged, Der.Tlv;
    assert Der.Usable(6);
    Der.TlvReadBack(6, Body(arcs), rest, before);
    UnpackPacked(arcs);
    ScanSids(Packed(arcs), []);
    assert Body(arcs) + [] == Body(arcs);
    PackedSize(arcs);
  }

  lemma PackedSize(arcs: seq<nat>)
    requires |arcs| >= 2
    ensures |Packed(arcs)| > 0
  {
  }

  // What Scan has read: whole numbers and the octets of an unfinished one.
  lemma {:induction false} ScanParts(s: seq<nat>, val: nat, done: seq<nat>, p: seq<nat>) returns (tail: seq<nat>)
    requires IsOctets(s) && Scan(s, val, done) == Der.Some(p)
    requires val <= U32Max && forall i :: 0 <= i < |done| ==> done[i] <= U32Max
    ensures Sids(done) + (Marked(val) + s) == Sids(p) + tail
    ensures (forall i :: 0 <= i < |tail| ==> tail[i] >= 128) && (forall i :: 0 <= i < |p| ==> p[i] <= U32Max)
    decreases |s|
  {
    hide Sids, Marked;
    if s == [] {
      tail := Marked(val);
    } else {
      var done', val' := Step(s, val, done, p);
      tail := ScanParts(s[1..], val', done', p);
    }
  }

  // One octet: it ends a number or leaves it in progress.
  lemma Step(s: seq<nat>, val: nat, done: seq<nat>, p: seq<nat>) returns (done': seq<nat>, val': nat)
    requires s != [] && IsOctets(s) && Scan(s, val, done) == Der.Some(p)
    requires val <= U32Max && forall i :: 0 <= i < |done| ==> done[i] <= U32Max
    ensures val' <= U32Max && forall i :: 0 <= i < |done'| ==> done'[i] <= U32Max
    ensures IsOctets(s[1..]) && Scan(s[1..], val', done') == Der.Some(p)
    ensures Sids(done) + (Marked(val) + s) == Sids(done') + (Marked(val') + s[1..])
  {
    hide Sids, Marked;
    var v := 128 * val + s[0] % 128;
    if s[0] < 128 {
      done', val' := done + [v], 0;
      LastSid(done, val, s[0]);
      MarkedZero();
      Regroup(Sids(done), Marked(val), s[0], s);
    } else {
      done', val' := done, v;
      MarkedStep(val, s[0] - 128);
      Regroup([], Marked(val), s[0], s);
    }
  }

  lemma Regroup(a: seq<nat>, b: seq<nat>, c: nat, s: seq<nat>)
    requires s != [] && s[0] == c
    ensures a + (b + s) == a + (b + [c]) + s[1..] && b + s == b + [c] + s[1..]
  {
    assert s == [c] + s[1..];
  }

  lemma LastSid(done: seq<nat>, h: nat, o: nat)
    requires o < 128
    ensures Sids(done + [128 * h + o]) == Sids(done) + (Marked(h) + [o])
  {
    var v := 128 * h + o;
    assert v / 128 == h && v % 128 == o;
    assert (done + [v])[..|done|] == done;
  }

  lemma MarkedStep(h: nat, o: nat)
    requires o < 128 && 128 * h + o > 0
    ensures Marked(128 * h + o) == Marked(h) + [128 + o]
  {
    var v := 128 * h + o;
    assert v / 128 == h && v % 128 == o;
  }

  lemma MarkedZero()
    ensures Marked(0) == [] && Sids([]) == []
  {
  }

  // The last octet of whole numbers is not marked.
  lemma SidsEnd(p: seq<nat>)
    requires p != []
    ensures var s := Sids(p); |s| > 0 && s[|s| - 1] < 128
  {
  }

  lemma PackUnpacked(p: seq<nat>)
    requires p != [] && forall i :: 0 <= i < |p| ==> p[i] <= U32Max
    ensures var arcs := Unpacked(p); Fits(arcs) && Packed(arcs) == p
  {
  }

  /** Which accepted codes belong to an identifier: those of a nonempty value whose last octet
      is not marked. Of the others only the whole numbers p are kept, and tail is dropped. */
  lemma ReadCanonical(s: seq<nat>, before: nat) returns (p: seq<nat>, tail: seq<nat>)
    requires IsOctets(s) && |s| < Der.SizeMax && before != 6 && Read(s, before).Found?
    ensures var Found(oid, n) := Read(s, before);
            var v := Der.ReadTagged(s, 6, before).value;
            && n <= |s| && v == Sids(p) + tail && s[..n] == Der.Tlv(6, v)
            && (forall i :: 0 <= i < |tail| ==> tail[i] >= 128)
            && (p == [] ==> oid == "")
            && (p != [] ==> Fits(Unpacked(p)) && oid == Dotted(Unpacked(p)))
            && (p != [] && tail == [] ==> s[..n] == Code(Unpacked(p)))
            && ((exists arcs :: Fits(arcs) && s[..n] == Code(arcs)) <==> |v| > 0 && v[|v| - 1] < 128)
  {
    hide Scan, Sids, Marked, Unpacked, Packed, Dotted, Der.ReadTagged, Der.Tlv;
    ValueRead(s, before);
    var Found(v, n) := Der.ReadTagged(s, 6, before);
    p := Scan(v, 0, []).value;
    tail := ScanParts(v, 0, [], p);
    MarkedZero();
    assert [] + ([] + v) == v;
    if p != [] {
      PackUnpacked(p);
      SidsEnd(p);
    }
    if tail == [] {
      assert Sids(p) + tail == Sids(p);
    }
    forall arcs | Fits(arcs) && s[..n] == Code(arcs)
      ensures |v| > 0 && v[|v| - 1] < 128
    {
      PackedSize(arcs);
      SidsEnd(Packed(arcs));
    }
  }

  // The value of an identifier's code.
  lemma ValueRead(s: seq<nat>, before: nat)
    requires IsOctets(s) && |s| < Der.SizeMax && before != 6 && Der.ReadTagged(s, 6, before).Found?
    ensures var Found(v, n) := Der.ReadTagged(s, 6, before);
            && n <= |s| && s[..n] == Der.Tlv(6, v) && IsOctets(v)
            && forall arcs :: Fits(arcs) && s[..n] == Code(arcs) ==> v == Body(arcs)
  {
    hide Body, Der.ReadTagged, Der.Tlv;
    Der.TlvCanonical(s, 6, before);
    TaggedOctets(s, before);
    var Found(v, n) := Der.ReadTagged(s, 6, before);
    forall arcs | Fits(arcs) && s[..n] == Code(arcs)
      ensures v == Body(arcs)
    {
      ValueOf(s, n, arcs, before);
    }
  }

  lemma TaggedOctets(s: seq<nat>, before: nat)
    requires IsOctets(s) && Der.ReadTagged(s, 6, before).Found?
    ensures IsOctets(Der.ReadTagged(s, 6, before).value)
  {
    hide Der.ReadTl;
    assert Der.ReadTlv(s, before).Found?;
    var (tag, v) := Der.ReadTlv(s, before).value;
    var n := Der.ReadTl(s, before).value.2;
    forall i | 0 <= i < |v|
      ensures v[i] == s[n + i]
    {
    }
  }

  lemma ValueOf(s: seq<nat>, n: nat, arcs: seq<nat>, before: nat)
    requires n <= |s| < Der.SizeMax && Fits(arcs) && s[..n] == Code(arcs)
    ensures Der.ReadTagged(s, 6, before) == Der.Found(Body(arcs), n)
  {
    hide Body, Der.ReadTagged, Der.Tlv;
    assert Der.Usable(6);
    assert s == s[..n] + s[n..];
    Der.TlvReadBack(6, Body(arcs), s[n..], before);
  }

  // ---------------------------------------------------------------- writing a code

  // The loop of derOIDEnc over the rest of a string, with the first number still to be
  // packed into the next one, or 3.
  function Rest(rest: string, val: nat, d1: nat): seq<nat>
    decreases |rest|
  {
    if rest == "" || rest[0] == '.' then
      var sid := Sid(if d1 != 3 then val + 40 * d1 else val);
      if rest == "" then sid else sid + Rest(rest[1..], 0, 3)
    else if '0' <= rest[0] <= '9' then Rest(rest[1..], 10 * val + DigitValue(rest[0]), d1)
    else []
  }

  lemma {:induction false} RestDecimal(v: nat, rest: string, d1: nat)
    ensures Rest(Decimal(v) + rest, 0, d1) == Rest(rest, v, d1)
  {
    hide Rest;
    if v < 10 {
      var c := Digit(v);
      RestDigit([c] + rest, 0, d1);
      assert ([c] + rest)[1..] == rest;
    } else {
      var c := Digit(v % 10);
      RestDecimal(v / 10, [c] + rest, d1);
      RestDigit([c] + rest, v / 10, d1);
      assert Decimal(v) + rest == Decimal(v / 10) + ([c] + rest);
      assert ([c] + rest)[1..] == rest;
    }
  }

  lemma {:induction false} SidsFirst(p: seq<nat>)
    requires |p| > 0
    ensures Sids(p) == Sid(p[0]) + Sids(p[1..])
  {
    hide Sid;
    var n := |p| - 1;
    if n > 0 {
      SidsFirst(p[..n]);
      assert p[1..][..n - 1] == p[..n][1..];
    } else {
      assert p[..0] == [] && p[1..] == [];
      assert Sids(p) == Sids(p[..0]) + Sid(p[0]);
    }
  }

  // Behind the second number, and from the second number on.
  lemma {:induction false} RestOf(arcs: seq<nat>, k: nat)
    requires 2 <= k < |arcs|
    ensures Rest(Suffix(arcs, k), 0, 3) == Sids(arcs[k..])
    decreases |arcs| - k
  {
    hide Decimal, Sid;
    var rest := if k + 1 < |arcs| then "." + Suffix(arcs, k + 1) else "";
    RestDecimal(arcs[k], rest, 3);
    SidsFirst(arcs[k..]);
    assert arcs[k..][1..] == arcs[k + 1..];
    if k + 1 < |arcs| {
      RestOf(arcs, k + 1);
      assert rest[1..] == Suffix(arcs, k + 1);
    } else {
      assert Sids(arcs[k + 1..]) == [];
    }
  }

  lemma RestBody(arcs: seq<nat>)
    requires Fits(arcs)
    ensures Rest(Suffix(arcs, 1), 0, arcs[0]) == Body(arcs)
  {
    hide Decimal, Sid;
    var rest := if 2 < |arcs| then "." + Suffix(arcs, 2) else "";
    RestDecimal(arcs[1], rest, arcs[0]);
    var p := Packed(arcs);
    SidsFirst(p);
    assert p[1..] == arcs[2..];
    if 2 < |arcs| {
      RestOf(arcs, 2);
      assert rest[1..] == Suffix(arcs, 2);
    } else {
      assert Sids(arcs[2..]) == [];
    }
  }

  // derSIDEnc
  method SidEnc(der: array?<nat>, at: nat, val: nat) returns (n: nat)
    requires Der.Fits(der, at, |Sid(val)|)
    modifies der
    ensures n == |Sid(val)| && Der.Wrote(der, at, Sid(val))
  {
    hide Mem.Write, Marked;
    ghost var m := if der != null then der[..] else [];
    n := 1;
    var t: nat := val / 128;
    while t > 0
      invariant n + |Marked(t)| == |Sid(val)| && (der != null ==> der[..] == m)
    {
      MarkedUnfold(t);
      t := t / 128;
      n := n + 1;
    }
    MarkedZero();
    if der != null {
      ghost var s := Sid(val);
      var pos: nat := n - 1;
      t := val;
      der[at + pos] := t % 128;
      Mem.WriteOne(m, at + pos, t % 128);
      assert s[pos..] == [t % 128] && s[..pos] == Marked(t / 128);
      while pos > 0
        invariant pos < n && der[..] == Mem.Write(m, at + pos, s[pos..])
        invariant s[..pos] == Marked(t / 128)
      {
        pos := pos - 1;
        t := t / 128;
        der[at + pos] := 128 + t % 128;
        MarkedSplit(s, t, pos);
        Mem.WriteFront(m, at + pos, 128 + t % 128, s[pos + 1..]);
      }
      assert s[0..] == s;
    }
  }

  lemma MarkedUnfold(t: nat)
    requires t > 0
    ensures Marked(t) == Marked(t / 128) + [128 + t % 128]
  {
  }

  lemma MarkedSplit(s: seq<nat>, t: nat, pos: nat)
    requires pos < |s| && s[..pos + 1] == Marked(t)
    ensures s[..pos] == Marked(t / 128) && s[pos..] == [128 + t % 128] + s[pos + 1..]
  {
    hide Marked;
    MarkedZero();
    if t > 0 {
      MarkedUnfold(t);
    }
    assert s[..pos] == s[..pos + 1][..pos];
    assert s[pos] == s[..pos + 1][pos];
  }

  predicate Readable(c: char)
  {
    c == '.' || '0' <= c <= '9'
  }

  lemma {:induction false} DecimalChars(n: nat)
    ensures forall i :: 0 <= i < |Decimal(n)| ==> Readable(Decimal(n)[i])
  {
    if n >= 10 {
      DecimalChars(n / 10);
    }
  }

  lemma {:induction false} SuffixChars(arcs: seq<nat>, k: nat)
    requires k < |arcs|
    ensures forall i :: 0 <= i < |Suffix(arcs, k)| ==> Readable(Suffix(arcs, k)[i])
    decreases |arcs| - k
  {
    hide Decimal;
    DecimalChars(arcs[k]);
    if k + 1 < |arcs| {
      SuffixChars(arcs, k + 1);
    }
  }

  // How a fitting identifier starts: one digit and a dot.
  lemma FirstNumber(oid: string, arcs: seq<nat>)
    requires Fits(arcs) && Dotted(arcs) == oid
    ensures |oid| >= 2 && Readable(oid[0]) && oid[0] != '.' && DigitValue(oid[0]) == arcs[0] < 3
    ensures oid[2..] == Suffix(arcs, 1) && forall i :: 2 <= i < |oid| ==> Readable(oid[i])
  {
    hide Dotted, Decimal, Digit;
    DottedSuffix(arcs, 0);
    OneDigit(arcs[0]);
    SuffixChars(arcs, 0);
    assert oid == [Digit(arcs[0])] + ("." + Suffix(arcs, 1));
    assert oid[2..] == Suffix(arcs, 1);
  }

  lemma OneDigit(v: nat)
    requires v < 10
    ensures Decimal(v) == [Digit(v)]
  {
  }

  // The code of the next number and what follows it.
  lemma RestSplit(body: seq<nat>, count: nat, rest: string, val: nat, d1: nat, v: nat)
    requires count <= |body| && body[count..] == Rest(rest, val, d1)
    requires (rest == "" || rest[0] == '.') && v == if d1 != 3 then val + 40 * d1 else val
    ensures var k := count + |Sid(v)|;
            && k <= |body| && body[..count] + Sid(v) == body[..k]
            && body[k..] == if rest == "" then [] else Rest(rest[1..], 0, 3)
  {
    hide Sid;
    var t := if rest == "" then [] else Rest(rest[1..], 0, 3);
    assert body == body[..count] + body[count..];
    assert body[count..] == Sid(v) + t;
  }

  lemma RestDigit(rest: string, val: nat, d1: nat)
    requires rest != "" && rest[0] != '.' && Readable(rest[0])
    ensures Rest(rest, val, d1) == Rest(rest[1..], 10 * val + DigitValue(rest[0]), d1)
  {
  }

  lemma SplitAt(body: seq<nat>, count: nat, oid: string, i: nat, val: nat, d1: nat, v: nat)
    requires count <= |body| && i <= |oid| && body[count..] == Rest(oid[i..], val, d1)
    requires (i == |oid| || oid[i] == '.') && v == if d1 != 3 then val + 40 * d1 else val
    ensures var k := count + |Sid(v)|;
            && k <= |body| && body[..count] + Sid(v) == body[..k]
            && body[k..] == if i == |oid| then [] else Rest(oid[i + 1..], 0, 3)
  {
    hide Sid, Rest;
    RestSplit(body, count, oid[i..], val, d1, v);
    if i < |oid| {
      assert oid[i..][1..] == oid[i + 1..];
    }
  }

  lemma DigitAt(oid: string, i: nat, val: nat, d1: nat)
    requires i < |oid| && oid[i] != '.' && Readable(oid[i])
    ensures Rest(oid[i..], val, d1) == Rest(oid[i + 1..], 10 * val + DigitValue(oid[i]), d1)
  {
    hide Rest;
    RestDigit(oid[i..], val, d1);
    assert oid[i..][1..] == oid[i + 1..];
  }

  // The loop of derOIDEnc, behind the first number and its dot.
  method EncBody(der: array?<nat>, at: nat, oid: string, first: nat) returns (count: nat)
    requires |oid| >= 2 && first < 3 && forall j :: 2 <= j < |oid| ==> Readable(oid[j])
    requires Der.Fits(der, at, |Rest(oid[2..], 0, first)|)
    modifies der
    ensures count == |Rest(oid[2..], 0, first)| && Der.Wrote(der, at, Rest(oid[2..], 0, first))
  {
    hide Mem.Write, Sid, Rest;
    ghost var m := if der != null then der[..] else [];
    ghost var body := Rest(oid[2..], 0, first);
    var d1: nat, i: nat, val: nat := first, 2, 0;
    count := 0;
    if der != null {
      Mem.WriteNothing(m, at);
    }
    assert body[..0] == [];
    while true
      invariant 2 <= i <= |oid| && count <= |body| && d1 <= 3
      invariant body[count..] == Rest(oid[i..], val, d1)
      invariant der != null ==> |m| == der.Length && der[..] == Mem.Write(m, at, body[..count])
      decreases |oid| - i
    {
      if i == |oid| || oid[i] == '.' {
        ghost var v: nat := if d1 != 3 then val + 40 * d1 else val;
        SplitAt(body, count, oid, i, val, d1, v);
        if d1 != 3 {
          val := val + 40 * d1;
          d1 := 3;
        }
        var k := SidEnc(der, at + count, val);
        if der != null {
          Mem.WriteAdjacent(m, at, body[..count], Sid(v));
        }
        count := count + k;
        if i == |oid| {
          assert body[..count] == body;
          return;
        }
        i, val := i + 1, 0;
      } else {
        DigitAt(oid, i, val, d1);
        val := 10 * val + DigitValue(oid[i]);
        i := i + 1;
      }
    }
  }

  /** derOIDEnc: the numbers are written at the place of the code and moved behind the tag and
      the length at the end. */
  method Enc(der: array?<nat>, at: nat, oid: string, ghost arcs: seq<nat>) returns (n: Option<nat>)
    requires Parse(oid, 0, 0, []).Some? ==> Parse(oid, 0, 0, []) == Der.Some(arcs)
    requires Parse(oid, 0, 0, []).Some? ==>
               |arcs| >= 2 && |Code(arcs)| < Der.SizeMax && Der.Fits(der, at, |Code(arcs)|)
    modifies der
    ensures n == if Parse(oid, 0, 0, []).Some? then Der.Some(|Code(arcs)|) else Der.None
    ensures Parse(oid, 0, 0, []).Some? ==> Der.Wrote(der, at, Code(arcs))
    ensures Parse(oid, 0, 0, []).None? && der != null ==> der[..] == old(der[..])
  {
    hide Mem.Write, Parse, Decimal, Dotted, Rest, Body, Der.TagCode, Der.LenCode, Der.ValidTag, Fits, Mem.Slice;
    var ok := IsValid(oid);
    if !ok {
      return Der.None;
    }
    ghost var m := if der != null then der[..] else [];
    ParseExact(oid, arcs);
    FirstNumber(oid, arcs);
    RestBody(arcs);
    SixIsUsable();
    var count := EncBody(der, at, oid, DigitValue(oid[0]));
    var t := Der.TEnc(null, 0, 6);
    var l := Der.LEnc(null, 0, count);
    if der != null {
      Mem.WriteOver(m, at, Body(arcs), Code(arcs));
      var k := Der.EncMove(der, at, 6, at, count);
    }
    n := Der.Some(t.value + l + count);
  }

  lemma SixIsUsable()
    ensures Der.Usable(6)
  {
  }
}
