/** The codes of tags, lengths and values of X.690, as der.c writes and reads them. Tags have
    32 bits and lengths 64. */
module Der {
  import opened Octets
  import opened PowersOfTwo
  import Mem
  import N = Numbers

  const SizeMax: nat := Pow2(64) - 1

  datatype Option<+T> = None | Some(value: T)

  // What a decoder answers: nothing, a value and the length of its code, or that the
  // announced length passes the end of the code, which the source does not notice.
  datatype Found<+T> = Bad | Overrun | Found(value: T, n: nat)

  // ---------------------------------------------------------------- tags

  // The loop of derTIsValid over the octets of a long tag, from the last one up.
  function LongTag(tag: nat, t: nat, b: nat): bool
  {
    if tag <= 255 then t >= 31 && b != 0 && tag % 32 == 31
    else if tag % 256 < 128 || t >= Pow2(25) then false
    else LongTag(tag / 256, 128 * t + tag % 128, tag % 128)
  }

  predicate ValidTag(tag: nat)
  {
    if tag < 256 then tag % 32 != 31
    else tag < 0x1_0000_0000 && tag % 256 < 128 && LongTag(tag / 256, tag % 128, tag % 128)
  }

  function TagCode(tag: nat): (s: seq<nat>)
    ensures |s| > 0 && IsOctets(s)
  {
    Be(tag, if tag == 0 then 1 else Size(tag))
  }

  predicate Constructive(tag: nat)
  {
    TagCode(tag)[0] / 32 % 2 == 1
  }

  /** derTIsValid */
  method TIsValid(tag0: nat) returns (ok: bool)
    requires tag0 < 0x1_0000_0000
    ensures ok <==> ValidTag(tag0)
  {
    hide Pow2;
    var tag: nat := tag0;
    if tag < 256 {
      return tag % 32 != 31;
    }
    if tag % 256 >= 128 {
      return false;
    }
    var b: nat := tag % 128;
    var t: nat := b;
    tag := tag / 256;
    while tag > 255
      invariant LongTag(tag0 / 256, tag0 % 128, tag0 % 128) == LongTag(tag, t, b)
      decreases tag
    {
      if tag % 256 < 128 || t >= Pow2(25) {
        return false;
      }
      b := tag % 128;
      t := 128 * t + b;
      tag := tag / 256;
    }
    ok := !(t < 31 || b == 0 || tag % 32 != 31);
  }

  /** The codes of valid tags, octet by octet. The number of a tag is compared with 31 in the
      reverse order of its octets: this refuses three octets that end in 0. */
  predicate Encodable(s: seq<nat>)
  {
    if |s| == 1 then s[0] % 32 != 31
    else if |s| == 2 then s[0] % 32 == 31 && 31 <= s[1] < 128
    else if |s| == 3 then s[0] % 32 == 31 && s[1] > 128 && s[2] < 128 && !(s[2] == 0 && s[1] % 128 < 31)
    else
      && |s| == 4 && s[0] % 32 == 31 && s[1] > 128 && s[2] >= 128 && s[3] < 128
      && !(s[3] == 0 && s[2] == 128 && s[1] % 128 < 31)
  }

  lemma TagShape(tag: nat)
    requires tag < 0x1_0000_0000
    ensures ValidTag(tag) <==> Encodable(TagCode(tag))
    ensures |TagCode(tag)| <= 4 && (|TagCode(tag)| <= 3 <==> tag < 0x100_0000)
  {
    hide TagCode, ValidTag, Encodable;
    TagOctets(tag);
    var h, o := tag / 256, tag % 256;
    var g, c := h / 256, h % 256;
    if tag >= 0x100_0000 {
      FourOctets(tag, g / 256, g % 256, c, o);
    } else if tag >= 65536 {
      ThreeOctets(tag, g, c, o);
    } else if tag >= 256 {
      TwoOctets(tag, h, o);
    } else {
      ShortTag(tag);
    }
  }

  lemma ShortTag(tag: nat)
    requires tag < 256
    ensures ValidTag(tag) <==> Encodable([tag])
  {
  }

  lemma TwoOctets(tag: nat, a: nat, b: nat)
    requires 0 < a < 256 && b < 256 && tag == 256 * a + b
    ensures ValidTag(tag) <==> Encodable([a, b])
  {
    hide LongTag;
    LowOctet(tag, a, b);
    if b < 128 {
      LongTagIs(a, b, b);
    }
  }

  lemma ThreeOctets(tag: nat, a: nat, b: nat, c: nat)
    requires 0 < a < 256 && b < 256 && c < 256 && tag == 65536 * a + 256 * b + c
    ensures ValidTag(tag) <==> Encodable([a, b, c])
  {
    hide Pow2, LongTag;
    var u := 256 * a + b;
    LowOctet(tag, u, c);
    if c < 128 {
      LongTagTwo(u, a, b, c);
    }
  }

  lemma FourOctets(tag: nat, a: nat, b: nat, c: nat, d: nat)
    requires 0 < a < 256 && b < 256 && c < 256 && d < 256 && tag == 256 * (65536 * a + 256 * b + c) + d
    ensures ValidTag(tag) <==> Encodable([a, b, c, d])
  {
    hide Pow2, LongTag;
    var u := 65536 * a + 256 * b + c;
    LowOctet(tag, u, d);
    if d < 128 {
      LongTagThree(u, a, b, c, d);
    }
  }

  lemma LowOctet(n: nat, h: nat, o: nat)
    requires o < 256 && n == 256 * h + o
    ensures n / 256 == h && n % 256 == o && n % 128 == if o < 128 then o else o - 128
  {
    N.DivUnique(n, 256, h, o);
    if o < 128 {
      N.DivUnique(n, 128, 2 * h, o);
    } else {
      N.DivUnique(n, 128, 2 * h + 1, o - 128);
    }
  }

  lemma LongTagTwo(u: nat, a: nat, b: nat, c: nat)
    requires 0 < a < 256 && b < 256 && c < 128 && u == 256 * a + b
    ensures LongTag(u, c, c) <==> a % 32 == 31 && b > 128 && !(c == 0 && b % 128 < 31)
  {
    hide Pow2, LongTag;
    Pow2At25();
    LowOctet(u, a, b);
    LongTagIs(u, c, c);
    LongTagIs(a, 128 * c + u % 128, u % 128);
  }

  lemma LongTagThree(u: nat, a: nat, b: nat, c: nat, d: nat)
    requires 0 < a < 256 && b < 256 && c < 256 && d < 128 && u == 256 * (256 * a + b) + c
    ensures LongTag(u, d, d) <==> a % 32 == 31 && b > 128 && c >= 128 && !(d == 0 && c == 128 && b % 128 < 31)
  {
    hide Pow2, LongTag;
    Pow2At25();
    var v := 256 * a + b;
    LowOctet(u, v, c);
    LowOctet(v, a, b);
    var t := 128 * d + u % 128;
    LongTagIs(u, d, d);
    LongTagIs(v, t, u % 128);
    LongTagIs(a, 128 * t + v % 128, v % 128);
  }

  lemma LongTagIs(tag: nat, t: nat, b: nat)
    ensures LongTag(tag, t, b)
            == if tag <= 255 then t >= 31 && b != 0 && tag % 32 == 31
               else tag % 256 >= 128 && t < Pow2(25) && LongTag(tag / 256, 128 * t + tag % 128, tag % 128)
  {
    hide Pow2;
  }

  lemma Pow2At25()
    ensures Pow2(25) == 0x200_0000
  {
    Pow2Add(8, 17);
    Pow2Add(8, 9);
  }

  lemma TagOctets(tag: nat)
    requires tag < 0x1_0000_0000
    ensures var h, o := tag / 256, tag % 256;
            var g, c := h / 256, h % 256;
            TagCode(tag) == if tag < 256 then [tag]
                            else if tag < 65536 then [h, o]
                            else if tag < 0x100_0000 then [g, c, o]
                            else [g / 256, g % 256, c, o]
  {
    hide Be, Size;
    if tag < 256 {
      BeOne(tag);
    } else if tag < 65536 {
      BeTwo(tag);
    } else if tag < 0x100_0000 {
      BeThree(tag);
    } else {
      BeThree(tag / 256);
      BeLast(tag / 256, tag % 256, tag, 3);
    }
  }

  lemma BeTwo(x: nat)
    requires 256 <= x < 65536
    ensures Be(x, 2) == [x / 256, x % 256] && Size(x) == 2
  {
    hide Be, Size;
    BeOne(x / 256);
    BeLast(x / 256, x % 256, x, 1);
  }

  lemma BeThree(x: nat)
    requires 65536 <= x < 0x100_0000
    ensures Be(x, 3) == [x / 256 / 256, x / 256 % 256, x % 256] && Size(x) == 3
  {
    hide Be, Size;
    BeTwo(x / 256);
    BeLast(x / 256, x % 256, x, 2);
  }

  lemma BeOne(x: nat)
    requires x < 256
    ensures Be(x, 1) == [x] && Size(x) == if x == 0 then 0 else 1
  {
    N.DivUnique(x, 256, 0, x);
    assert Be(0, 0) == [];
  }

  // ---------------------------------------------------------------- the form of a tag

  // The number of a long tag: seven bits an octet, the highest first.
  function TagNumber(s: seq<nat>): nat
  {
    if s == [] then 0 else 128 * TagNumber(s[..|s| - 1]) + s[|s| - 1] % 128
  }

  // X.690, section 8.1.2: one octet, or all octets but the last marked, no leading zero and
  // a number that does not fit one octet.
  predicate WellFormed(s: seq<nat>)
    requires |s| > 0
  {
    if |s| == 1 then s[0] % 32 != 31
    else
      && s[0] % 32 == 31 && s[|s| - 1] < 128 && (forall i :: 0 < i < |s| - 1 ==> s[i] >= 128)
      && s[1] % 128 != 0 && TagNumber(s[1..]) >= 31
  }

  lemma WellFormedShape(s: seq<nat>)
    requires 0 < |s| <= 4
    ensures WellFormed(s) <==>
              if |s| == 1 then s[0] % 32 != 31
              else if |s| == 2 then s[0] % 32 == 31 && 31 <= s[1] < 128
              else if |s| == 3 then s[0] % 32 == 31 && s[1] >= 128 && s[1] % 128 != 0 && s[2] < 128
              else s[0] % 32 == 31 && s[1] >= 128 && s[1] % 128 != 0 && s[2] >= 128 && s[3] < 128
  {
    hide TagNumber;
    if |s| > 1 {
      NumberOfTwo(s[1], if |s| > 2 then s[2] else 0);
      NumberOfThree(s[1], if |s| > 2 then s[2] else 0, if |s| > 3 then s[3] else 0);
      if |s| == 2 {
        assert s[1..] == [s[1]];
      } else if |s| == 3 {
        assert s[1..] == [s[1], s[2]];
      } else {
        assert s[1..] == [s[1], s[2], s[3]];
      }
    }
  }

  lemma NumberOfTwo(a: nat, b: nat)
    ensures TagNumber([a]) == a % 128 && TagNumber([a, b]) == 128 * (a % 128) + b % 128
  {
    assert [a][..0] == [] && [a, b][..1] == [a];
  }

  lemma NumberOfThree(a: nat, b: nat, c: nat)
    ensures TagNumber([a, b, c]) == 128 * (128 * (a % 128) + b % 128) + c % 128
  {
    NumberOfTwo(a, b);
    assert [a, b, c][..2] == [a, b];
  }

  /** derTIsValid accepts the well-formed tags, but it reads the number of a long tag in the
      reverse order of its octets: it refuses the tags whose number is below 31 that way. */
  lemma TagExact(tag: nat)
    requires tag < 0x1_0000_0000
    ensures var s := TagCode(tag);
            ValidTag(tag) <==> WellFormed(s) && (|s| > 1 ==> TagNumber(Reversed(s[1..])) >= 31)
  {
    hide TagCode, ValidTag, WellFormed, TagNumber;
    TagShape(tag);
    var s := TagCode(tag);
    WellFormedShape(s);
    if |s| == 2 {
      assert Reversed(s[1..]) == [s[1]];
      NumberOfTwo(s[1], 0);
    } else if |s| == 3 {
      assert Reversed(s[1..]) == [s[2], s[1]];
      NumberOfTwo(s[2], s[1]);
    } else if |s| == 4 {
      assert Reversed(s[1..]) == [s[3], s[2], s[1]];
      NumberOfThree(s[3], s[2], s[1]);
    }
  }

  // The position behind the octets of a long tag, at most c.
  function TagEnd(s: seq<nat>, c: nat, i: nat): (n: nat)
    requires i <= c <= |s|
    ensures i <= n <= c
    decreases c - i
  {
    if i == c then c else if s[i] < 128 then i + 1 else TagEnd(s, c, i + 1)
  }

  // derTDec. Where it answers FALSE, that is 0, the tag keeps what was there before.
  function ReadTag(s: seq<nat>, before: nat): Option<(nat, nat)>
  {
    if |s| < 1 then None
    else if s[0] % 32 != 31 then Some((s[0], 1))
    else
      var c := if |s| < 4 then |s| else 4;
      if c < 2 || s[1] % 128 == 0 then Some((before, 0))
      else
        var n := TagEnd(s, c, 1);
        if n == c || Seven(s, 1, n) < 31 then None
        else Some((FromBe(s[..n]), n))
  }

  // The number the code compares with 31.
  function Seven(s: seq<nat>, i: nat, n: nat): nat
    requires i <= n <= |s|
  {
    if n == i then 0 else 256 * Seven(s, i, n - 1) + s[n - 1] % 128
  }

  method TDec(s: seq<nat>, before: nat) returns (r: Option<(nat, nat)>)
    ensures r == ReadTag(s, before)
  {
    var n := 1;
    if |s| < 1 {
      return None;
    }
    var count := if |s| < 4 then |s| else 4;
    if s[0] % 32 == 31 {
      if count < 2 || s[1] % 128 == 0 {
        return Some((before, 0));
      }
      var t := 0;
      var found := false;
      while n < count && !found
        invariant 1 <= n <= count && t == Seven(s, 1, n)
        invariant if found then TagEnd(s, count, 1) == n else TagEnd(s, count, 1) == TagEnd(s, count, n)
        decreases count - n, if found then 0 else 1
      {
        t := 256 * t + s[n] % 128;
        found := s[n] < 128;
        n := n + 1;
      }
      if n == count || t < 31 {
        return None;
      }
    }
    var tag := s[0];
    var pos := 1;
    assert s[..1] == [s[0]];
    while pos < n
      invariant 1 <= pos <= n && tag == FromBe(s[..pos])
    {
      assert s[..pos + 1][..pos] == s[..pos];
      tag := 256 * tag + s[pos];
      pos := pos + 1;
    }
    r := Some((tag, n));
  }

  /** derTDec reads a tag whose code is followed by anything exactly when it is well-formed and
      has at most three octets, whether derTEnc writes it or not. */
  lemma TagRead(tag: nat, rest: seq<nat>, before: nat)
    requires tag < 0x1_0000_0000 && |rest| > 0
    ensures var s := TagCode(tag);
            ReadTag(s + rest, before) == Some((tag, |s|)) <==> WellFormed(s) && |s| <= 3
  {
    hide Be, FromBe, ReadTag, WellFormed;
    var s := TagCode(tag);
    TagOctets(tag);
    FromBeOf(tag, |s|);
    WellFormedShape(s);
    assert (s + rest)[..|s|] == s;
    ReadWhole(s, rest, before);
  }

  // Is the whole of s read as a tag?
  lemma ReadWhole(s: seq<nat>, rest: seq<nat>, before: nat)
    requires 0 < |s| <= 4 && |rest| > 0
    ensures var r := ReadTag(s + rest, before);
            && (r.Some? && r.value.1 == |s| <==> |s| <= 3 && WellFormed(s))
            && (r.Some? && r.value.1 == |s| ==> r.value.0 == FromBe((s + rest)[..|s|]))
  {
    hide FromBe, WellFormed, Seven, TagEnd;
    WellFormedShape(s);
    var x := s + rest;
    var c := if |x| < 4 then |x| else 4;
    assert x[0] == s[0];
    LoneFirst(x);
    if s[0] % 32 == 31 {
      TagEndIs(x, c);
      assert |s| > 1 ==> x[1] == s[1];
      assert |s| > 2 ==> x[2] == s[2];
      SevenOf(x);
    }
  }

  lemma LoneFirst(x: seq<nat>)
    requires |x| > 0
    ensures FromBe(x[..1]) == x[0]
  {
    assert x[..1][..0] == [];
  }

  lemma TagEndIs(x: seq<nat>, c: nat)
    requires 2 <= c <= |x| && c <= 4
    ensures var n := TagEnd(x, c, 1);
            && 2 <= n <= c && (n == 2 <==> c == 2 || x[1] < 128)
            && (n == 3 <==> c > 2 && x[1] >= 128 && (c == 3 || x[2] < 128))
  {
    assert TagEnd(x, c, 1) == if x[1] < 128 then 2 else TagEnd(x, c, 2);
    assert c > 2 ==> TagEnd(x, c, 2) == if x[2] < 128 then 3 else TagEnd(x, c, 3);
  }

  lemma SevenOf(x: seq<nat>)
    requires |x| >= 2
    ensures Seven(x, 1, 2) == x[1] % 128
    ensures |x| > 2 ==> Seven(x, 1, 3) == 256 * (x[1] % 128) + x[2] % 128
  {
    assert Seven(x, 1, 1) == 0;
  }

  /** A valid tag is read back from its code, if anything follows, exactly when it has at
      most three octets. */
  lemma TagReadBack(tag: nat, rest: seq<nat>, before: nat)
    requires ValidTag(tag) && |rest| > 0
    ensures var s := TagCode(tag);
            ReadTag(s + rest, before) == if |s| <= 3 then Some((tag, |s|)) else None
  {
    hide ValidTag, TagCode, ReadTag, WellFormed;
    ValidRange(tag);
    TagExact(tag);
    TagShape(tag);
    if |TagCode(tag)| <= 3 {
      TagRead(tag, rest, before);
    } else {
      ReadLong(TagCode(tag), rest, before);
    }
  }

  lemma ValidRange(tag: nat)
    ensures ValidTag(tag) ==> tag < 0x1_0000_0000
  {
  }

  lemma SizeStep(x: nat)
    ensures x > 0 ==> Size(x) == 1 + Size(x / 256)
  {
  }

  lemma BeStep(x: nat, n: nat)
    requires n > 0
    ensures Be(x, n) == Be(x / 256, n - 1) + [x % 256]
  {
  }

  // The number of 1F 81 00 is 128: it is read, but not written.
  lemma TagNotWritten(rest: seq<nat>, before: nat)
    requires |rest| > 0
    ensures TagCode(0x1F8100) == [0x1F, 0x81, 0] && !ValidTag(0x1F8100)
    ensures ReadTag([0x1F, 0x81, 0] + rest, before) == Some((0x1F8100, 3))
  {
    hide ReadTag, ValidTag, TagCode, WellFormed;
    TagOctets(0x1F8100);
    TagShape(0x1F8100);
    WellFormedShape([0x1F, 0x81, 0]);
    TagRead(0x1F8100, rest, before);
  }

  lemma ReadLong(s: seq<nat>, rest: seq<nat>, before: nat)
    requires |s| == 4 && s[0] % 32 == 31 && s[1] > 128 && s[1] < 256 && s[2] >= 128 && |rest| > 0
    ensures ReadTag(s + rest, before) == None
  {
    hide FromBe, Seven;
    var x := s + rest;
    assert x[1] == s[1] && x[2] == s[2] && x[0] == s[0];
    assert TagEnd(x, 4, 1) == TagEnd(x, 4, 2) == TagEnd(x, 4, 3);
    assert TagEnd(x, 4, 3) == 4;
  }

  // ---------------------------------------------------------------- lengths

  function LenCode(len: nat): (s: seq<nat>)
    ensures |s| > 0
  {
    if len < 128 then [len] else [128 + Size(len)] + Be(len, Size(len))
  }

  // derLDec
  function ReadLen(s: seq<nat>): Option<(nat, nat)>
  {
    if |s| < 1 || s[0] == 128 || s[0] == 255 then None
    else if s[0] < 128 then Some((s[0], 1))
    else
      var r := s[0] - 128;
      if |s| < 1 + r || r > 8 || s[1] == 0 || (r == 1 && s[1] < 128) then None
      else
        var l := FromBe(s[1..1 + r]);
        if l == SizeMax then None else Some((l, 1 + r))
  }

  /** X.690, section 10.1: a length below 128 is one octet; a longer one has a first octet with
      the count of the others, which hold the number without leading zeros. */
  lemma LenShape(len: nat)
    requires len < SizeMax
    ensures var s := LenCode(len);
            if len < 128 then s == [len]
            else |s| > 1 && s[0] == 127 + |s| && s[1] > 0 && FromBe(s[1..]) == len
  {
    hide Be, FromBe, Size, Pow2;
    if len >= 128 {
      var n := Size(len);
      SizeStep(len);
      FromBeOf(len, n);
      TopOctet(len, n);
      assert LenCode(len)[1..] == Be(len, n);
    }
  }

  method LDec(s: seq<nat>) returns (r: Option<(nat, nat)>)
    ensures r == ReadLen(s)
  {
    hide Pow2;
    var n := 1;
    if |s| < n || s[0] == 128 || s[0] == 255 {
      return None;
    }
    if s[0] < 128 {
      return Some((s[0], 1));
    }
    var k: nat := s[0] - 128;
    n := n + k;
    if |s| < n || k > 8 || s[1] == 0 || (k == 1 && s[1] < 128) {
      return None;
    }
    var l: nat := 0;
    var i := 1;
    while i < n
      invariant 1 <= i <= n && l == FromBe(s[1..i])
    {
      assert s[1..i + 1][..i - 1] == s[1..i];
      l := 256 * l + s[i];
      i := i + 1;
    }
    if l == SizeMax {
      return None;
    }
    r := Some((l, n));
  }

  lemma LenSize(len: nat)
    requires len < SizeMax
    ensures Size(len) <= 8
  {
    hide Pow2;
    SizeBound(len, 8);
  }

  /** A length is read back from its code. */
  lemma LenReadBack(len: nat, rest: seq<nat>)
    requires len < SizeMax
    ensures ReadLen(LenCode(len) + rest) == Some((len, |LenCode(len)|))
  {
    hide Pow2, FromBe, Be;
    if len >= 128 {
      var r := Size(len);
      LenSize(len);
      var s := LenCode(len) + rest;
      assert s[1..1 + r] == Be(len, r);
      FromBeOf(len, r);
      TopOctet(len, r);
      assert s[1] == Be(len, r)[0];
      if r == 1 {
        OneOctet(len);
      }
    }
  }

  lemma OneOctet(x: nat)
    requires Size(x) == 1
    ensures Be(x, 1) == [x] && x < 256
  {
    assert Size(x / 256) == 0;
    assert Be(x, 1) == Be(x / 256, 0) + [x % 256];
  }

  /** And every code that is read is the code of its length: there is no other. */
  lemma LenCanonical(s: seq<nat>)
    requires IsOctets(s) && ReadLen(s).Some?
    ensures var (l, n) := ReadLen(s).value; l < SizeMax && n <= |s| && s[..n] == LenCode(l)
  {
    hide Pow2, FromBe, Be;
    if s[0] >= 128 {
      var r := s[0] - 128;
      var v := s[1..1 + r];
      BeOf(v);
      assert v[0] == s[1];
      FromBeBound(v);
      Pow2Monotone(8 * r, 64);
      assert s[..1 + r] == [s[0]] + v;
      NotShort(v);
    } else {
      assert s[..1] == [s[0]];
      Pow2Monotone(8, 64);
      Pow8();
    }
  }

  lemma NotShort(v: seq<nat>)
    requires IsOctets(v) && |v| > 0 && v[0] != 0 && (|v| == 1 ==> v[0] >= 128)
    ensures FromBe(v) >= 128
  {
    if |v| == 1 {
      assert FromBe(v) == v[0];
    } else {
      BeOf(v);
      SizeStep(FromBe(v));
      SizeStep(FromBe(v) / 256);
    }
  }

  // ---------------------------------------------------------------- tag, length, value

  function Tlv(tag: nat, val: seq<nat>): seq<nat>
  {
    TagCode(tag) + LenCode(|val|) + val
  }

  // derTLDec: the tag, the length and the octets they take
  function ReadTl(s: seq<nat>, before: nat): Option<(nat, nat, nat)>
  {
    var t := ReadTag(s, before);
    if t.None? || t.value.1 > |s| then None
    else
      var l := ReadLen(s[t.value.1..]);
      if l.None? || t.value.1 + l.value.1 > |s| then None
      else Some((t.value.0, l.value.0, t.value.1 + l.value.1))
  }

  // derDec. The sum of lengths is taken in size_t and may wrap.
  function ReadTlv(s: seq<nat>, before: nat): Found<(nat, seq<nat>)>
  {
    var r := ReadTl(s, before);
    if r.None? then Bad
    else
      var (tag, len, n) := r.value;
      if (n + len) % Pow2(64) > |s| then Bad
      else if n + len > |s| then Overrun
      else Found((tag, s[n..n + len]), n + len)
  }

  // derDec2
  function ReadTagged(s: seq<nat>, tag: nat, before: nat): Found<seq<nat>>
  {
    match ReadTlv(s, before)
    case Bad => Bad
    case Overrun => Overrun
    case Found((t, val), n) => if t != tag then Bad else Found(val, n)
  }

  // The tags that der.c both writes and reads.
  predicate Usable(tag: nat)
  {
    ValidTag(tag) && tag < 0x100_0000
  }

  lemma TlReadBack(tag: nat, len: nat, rest: seq<nat>, before: nat)
    requires Usable(tag) && len < SizeMax
    ensures var h := TagCode(tag) + LenCode(len);
            ReadTl(h + rest, before) == Some((tag, len, |h|))
  {
    hide ReadTag, ReadLen, ValidTag, TagCode, LenCode;
    TagShape(tag);
    var t, l := TagCode(tag), LenCode(len);
    TagReadBack(tag, l + rest, before);
    assert t + l + rest == t + (l + rest);
    LenReadBack(len, rest);
    assert (t + (l + rest))[|t|..] == l + rest;
  }

  /** A value is read back from its code, whatever follows. */
  lemma TlvReadBack(tag: nat, val: seq<nat>, rest: seq<nat>, before: nat)
    requires Usable(tag) && |Tlv(tag, val) + rest| < SizeMax
    ensures ReadTagged(Tlv(tag, val) + rest, tag, before) == Found(val, |Tlv(tag, val)|)
  {
    hide ReadTl, Usable, TagCode, LenCode, Pow2;
    var h := TagCode(tag) + LenCode(|val|);
    TlReadBack(tag, |val|, val + rest, before);
    var s := Tlv(tag, val) + rest;
    assert s == h + (val + rest);
    assert s[|h|..|h| + |val|] == val;
    SmallMod64(|h| + |val|);
  }

  lemma SmallMod64(x: nat)
    requires x < SizeMax
    ensures x % Pow2(64) == x
  {
    hide Pow2;
    N.SmallMod(x, Pow2(64));
  }

  // ---------------------------------------------------------------- SIZE

  // The octets of a nonnegative INTEGER: one more where the top bit would be set.
  function SizeLen(x: nat): (n: nat)
    ensures n > 0
  {
    if x == 0 then 1 else Size(x) + if Be(x, Size(x))[0] >= 128 then 1 else 0
  }

  function SizeVal(x: nat): (s: seq<nat>)
    ensures |s| > 0 && IsOctets(s)
  {
    Be(x, SizeLen(x))
  }

  // derTSIZEDec. Neither the length nor the presence of the octets is compared with the
  // number of octets there are.
  function ReadSize(s: seq<nat>, tag: nat, before: nat): Found<nat>
  {
    var t := ReadTag(s, before);
    if t.None? || t.value.0 != tag || t.value.1 > |s| then Bad
    else
      var l := ReadLen(s[t.value.1..]);
      if l.None? || l.value.0 > 9 || t.value.1 + l.value.1 > |s| then Bad
      else
        var n, len := t.value.1 + l.value.1, l.value.0;
        var v := s[n..];
        if |v| == 0 then Overrun
        else if v[0] >= 128 then Bad
        else if v[0] == 0 && len > 1 && |v| == 1 then Overrun
        else if v[0] == 0 && len > 1 && v[1] < 128 then Bad
        else if len == 9 && v[0] != 0 then Bad
        else if len > |v| then Overrun
        else Found(FromBe(v[..len]), n + len)
  }

  lemma SizeValShape(x: nat)
    requires Size(x) <= 8
    ensures var v := SizeVal(x);
            && FromBe(v) == x && |v| <= 9 && v[0] < 128
            && (v[0] == 0 && |v| > 1 ==> v[1] >= 128)
            && (|v| == 9 ==> v[0] == 0)
  {
    hide FromBe;
    if x > 0 {
      var n := Size(x);
      TopOctet(x, n);
      FromBeOf(x, n);
      FromBeOf(x, n + 1);
      if SizeLen(x) == n + 1 {
        TopOctet(x, n + 1);
        LeadingZero(x, n);
      }
    } else {
      FromBeOf(0, 1);
      assert Be(0, 1) == [0];
    }
  }

  lemma {:induction false} LeadingZero(x: nat, n: nat)
    requires Size(x) <= n
    ensures Be(x, n + 1) == [0] + Be(x, n)
  {
    if n > 0 {
      LeadingZero(x / 256, n - 1);
      assert Be(x, n) == Be(x / 256, n - 1) + [x % 256];
    } else {
      assert Be(x, 1) == Be(x / 256, 0) + [x % 256];
    }
  }

  /** A number below 2^64 is read back. */
  lemma SizeReadBack(tag: nat, x: nat, rest: seq<nat>, before: nat)
    requires Usable(tag) && Size(x) <= 8
    ensures var c := Tlv(tag, SizeVal(x)); ReadSize(c + rest, tag, before) == Found(x, |c|)
  {
    hide ReadTag, ReadLen, ValidTag, TagCode, LenCode, FromBe, SizeVal, ReadSize, Pow2, Size;
    TagShape(tag);
    SizeValShape(x);
    var t, v := TagCode(tag), SizeVal(x);
    var l := LenCode(|v|);
    NineFits(|v|);
    TagReadBack(tag, l + (v + rest), before);
    LenReadBack(|v|, v + rest);
    var s := Tlv(tag, v) + rest;
    ThreeParts(t, l, v, rest);
    SizeFound(s, tag, before, |t|, |l|, v, rest);
  }

  lemma ThreeParts(t: seq<nat>, l: seq<nat>, v: seq<nat>, rest: seq<nat>)
    ensures var s := t + l + v + rest;
            s == t + (l + (v + rest)) && s[|t|..] == l + (v + rest) && s[|t| + |l|..] == v + rest
  {
  }

  lemma SizeFound(s: seq<nat>, tag: nat, before: nat, k: nat, m: nat, v: seq<nat>, rest: seq<nat>)
    requires k + m <= |s| && ReadTag(s, before) == Some((tag, k)) && ReadLen(s[k..]) == Some((|v|, m))
    requires s[k + m..] == v + rest && 0 < |v| <= 9 && v[0] < 128
    requires (v[0] == 0 && |v| > 1 ==> v[1] >= 128) && (|v| == 9 ==> v[0] == 0)
    ensures ReadSize(s, tag, before) == Found(FromBe(v), k + m + |v|)
  {
    hide ReadTag, ReadLen, FromBe;
    assert (v + rest)[..|v|] == v;
  }

  /** Which accepted codes are the ones derTSIZEEnc makes: those whose length is not 0. The
      length 0 is read as the number 0, whatever octet below 128 follows. */
  lemma SizeCanonical(s: seq<nat>, tag: nat, before: nat)
    requires IsOctets(s) && before != tag && ReadSize(s, tag, before).Found?
    ensures var Found(x, n) := ReadSize(s, tag, before);
            && n <= |s| && ReadTl(s, before).Some?
            && (s[..n] == Tlv(tag, SizeVal(x)) <==> ReadTl(s, before).value.1 != 0)
            && (ReadTl(s, before).value.1 == 0 ==> x == 0)
  {
    hide ReadTag, ReadLen, TagCode, LenCode, FromBe, SizeVal, Pow2;
    var t := ReadTag(s, before);
    NothingRead(s, before);
    TagCanonical(s, before);
    var k := t.value.1;
    LenCanonical(s[k..]);
    var (len, m) := ReadLen(s[k..]).value;
    assert s[..k + m] == TagCode(tag) + LenCode(len) by {
      assert s[..k + m] == s[..k] + s[k..][..m];
    }
    var v := s[k + m..];
    if len == 0 {
      EmptyNumber(v[..0]);
      ZeroLen();
    } else {
      SizeValOf(v[..len]);
      assert s[..k + m + len] == s[..k + m] + v[..len];
    }
  }

  // An INTEGER without octets, followed by an octet below 128.
  lemma EmptySizeIsRead()
    ensures ReadSize([2, 0, 5], 2, 0) == Found(0, 2) && [2, 0] != Tlv(2, SizeVal(0))
  {
    hide Pow2, SizeVal, ReadTag, ReadLen, Tlv, FromBe;
    var s := [2, 0, 5];
    EmptyHead();
    assert s[1..] == [0, 5] && s[2..] == [5];
    EmptyNumber(s[2..][..0]);
    SizeCanonical(s, 2, 0);
    assert s[..2] == [2, 0];
  }

  lemma EmptyHead()
    ensures ReadTag([2, 0, 5], 0) == Some((2, 1)) && ReadLen([0, 5]) == Some((0, 1))
  {
    hide Pow2, FromBe;
    assert [2, 0, 5][..1] == [2];
    OneTag(2);
    LoneOctet(2);
  }

  lemma LoneOctet(x: nat)
    ensures FromBe([x]) == x
  {
    assert [x][..0] == [];
  }

  lemma ZeroLen()
    ensures |LenCode(0)| == 1
  {
  }

  lemma EmptyNumber(s: seq<nat>)
    requires s == []
    ensures FromBe(s) == 0
  {
  }

  // The octets that pass the tests of ReadSize are those of their number.
  lemma SizeValOf(w: seq<nat>)
    requires IsOctets(w) && |w| > 0 && w[0] < 128 && (w[0] == 0 && |w| > 1 ==> w[1] >= 128)
    ensures SizeVal(FromBe(w)) == w
  {
    hide FromBe, Be, Size;
    BeOf(w);
    if w[0] == 0 {
      SizeValOfZero(w, w[1..]);
    }
  }

  lemma SizeValOfZero(w: seq<nat>, u: seq<nat>)
    requires IsOctets(u) && w == [0] + u && (u != [] ==> u[0] >= 128)
    ensures SizeVal(FromBe(w)) == w
  {
    hide FromBe, Be, Size;
    var x := FromBe(u);
    BeOf(u);
    LeadingZero(x, |u|);
    FromBeOf(x, |w|);
    if u == [] {
      EmptyNumber(u);
    }
  }

  lemma NineFits(n: nat)
    requires n <= 9
    ensures n < SizeMax
  {
    hide Pow2;
    Pow2Monotone(8, 64);
    Pow8();
  }

  // ---------------------------------------------------------------- UINT

  // A number in little-endian octets without its leading zeros; one octet remains.
  function Stripped(val: seq<nat>): (s: seq<nat>)
    requires |val| > 0
    ensures |s| > 0 && (|s| > 1 ==> s[|s| - 1] != 0) && FromLe(s) == FromLe(val)
    ensures IsOctets(val) ==> IsOctets(s)
  {
    if |val| > 1 && val[|val| - 1] == 0 then
      DropZero(val);
      Stripped(val[..|val| - 1])
    else val
  }

  lemma {:induction false} DropZero(val: seq<nat>)
    requires |val| > 0 && val[|val| - 1] == 0
    ensures FromLe(val[..|val| - 1]) == FromLe(val)
  {
    if |val| > 1 {
      DropZero(val[1..]);
      assert val[1..][..|val| - 2] == val[..|val| - 1][1..];
    } else {
      assert FromLe(val) == val[0] + 256 * FromLe(val[1..]);
    }
  }

  function UintVal(val: seq<nat>): (s: seq<nat>)
    requires |val| > 0
    ensures |s| > 0
  {
    var v := Stripped(val);
    Reversed(if v[|v| - 1] >= 128 then v + [0] else v)
  }

  // derTUINTDec
  function ReadUint(s: seq<nat>, tag: nat, before: nat): Found<seq<nat>>
  {
    match ReadTagged(s, tag, before)
    case Bad => Bad
    case Overrun => Overrun
    case Found(v, n) =>
      if |v| < 1 || v[0] >= 128 || (v[0] == 0 && |v| > 1 && v[1] < 128) then Bad
      else Found(Reversed(if v[0] == 0 && |v| > 1 then v[1..] else v), n)
  }

  lemma UintShape(val: seq<nat>)
    requires |val| > 0 && IsOctets(val)
    ensures var v, w := Stripped(val), UintVal(val);
            && w[0] < 128 && (w[0] == 0 && |w| > 1 ==> w[1] >= 128)
            && Reversed(if w[0] == 0 && |w| > 1 then w[1..] else w) == v
  {
    hide Stripped, Reversed;
    var v := Stripped(val);
    ReversedTwice(v);
    if v[|v| - 1] >= 128 {
      ZeroInFront(v);
    }
  }

  /** X.690, section 8.3: the octets of a number, whose order is the reverse of that in memory,
      have no leading zero but one in front of a set top bit. */
  lemma UintNumber(val: seq<nat>)
    requires |val| > 0 && IsOctets(val)
    ensures var w := UintVal(val);
            FromBe(w) == FromLe(val) && w[0] < 128 && (|w| > 1 && w[0] == 0 ==> w[1] >= 128)
  {
    hide FromLe, FromBe, Reversed, Stripped;
    var v := Stripped(val);
    UintShape(val);
    var w := if v[|v| - 1] >= 128 then v + [0] else v;
    ReversedBe(UintVal(val));
    ReversedTwice(w);
    LastOctet(v, 0);
  }

  lemma ZeroInFront(v: seq<nat>)
    ensures Reversed(v + [0]) == [0] + Reversed(v) && Reversed(v + [0])[1..] == Reversed(v)
  {
    hide Reversed;
    ReversedSum(v, [0]);
    assert Reversed([0]) == [0];
  }

  /** A number of any length is read back without its leading zeros. */
  lemma UintReadBack(tag: nat, val: seq<nat>, rest: seq<nat>, before: nat)
    requires Usable(tag) && |val| > 0 && IsOctets(val) && |Tlv(tag, UintVal(val)) + rest| < SizeMax
    ensures var c := Tlv(tag, UintVal(val)); ReadUint(c + rest, tag, before) == Found(Stripped(val), |c|)
  {
    hide ReadTagged, Tlv, UintVal, Stripped, Pow2, Usable;
    UintShape(val);
    TlvReadBack(tag, UintVal(val), rest, before);
  }

  // ---------------------------------------------------------------- one code per value

  lemma TagCanonical(s: seq<nat>, before: nat)
    requires IsOctets(s) && ReadTag(s, before).Some? && ReadTag(s, before).value.1 > 0
    ensures var (tag, n) := ReadTag(s, before).value; n <= |s| && n <= 3 && s[..n] == TagCode(tag)
  {
    hide FromBe, Be, Seven;
    var (tag, n) := ReadTag(s, before).value;
    BeOf(s[..n]);
    assert s[..n][0] == s[0];
    if n == 1 {
      assert s[..1] == [s[0]];
      OneTag(s[0]);
    }
  }

  lemma OneTag(x: nat)
    requires x < 256
    ensures TagCode(x) == [x]
  {
    if x > 0 {
      SizeStep(x);
      OneOctet(x);
    } else {
      assert Be(0, 1) == [0];
    }
  }

  /** Whatever is read as a tagged value is its only code, unless the tag was not read. */
  lemma TlvCanonical(s: seq<nat>, tag: nat, before: nat)
    requires IsOctets(s) && |s| < SizeMax && ReadTagged(s, tag, before).Found? && before != tag
    ensures var r := ReadTagged(s, tag, before); r.n <= |s| && s[..r.n] == Tlv(tag, r.value)
  {
    hide ReadTag, ReadLen, TagCode, LenCode, Pow2;
    var (t, k) := ReadTag(s, before).value;
    NothingRead(s, before);
    TagCanonical(s, before);
    var u := s[k..];
    LenCanonical(u);
    var (len, m) := ReadLen(u).value;
    var n := k + m + len;
    assert s[k..k + m] == u[..m];
    assert s[..n] == s[..k] + s[k..k + m] + s[k + m..n];
  }

  lemma NothingRead(s: seq<nat>, before: nat)
    ensures ReadTag(s, before).Some? && ReadTag(s, before).value.1 == 0 ==> ReadTag(s, before).value.0 == before
  {
  }

  // ---------------------------------------------------------------- writing

  // What a writer leaves: the code at its place, or nothing without a buffer.
  twostate predicate Wrote(der: array?<nat>, at: nat, code: seq<nat>)
    reads der
  {
    der != null ==>
      at + |code| <= der.Length && der[..] == Mem.Write(old(der[..]), at, code)
  }

  predicate Fits(der: array?<nat>, at: nat, n: nat)
  {
    der != null ==> at + n <= der.Length
  }

  // The loops that count octets.
  method Count(x: nat) returns (n: nat)
    ensures n == Size(x)
  {
    n := 0;
    var t := x;
    while t > 0
      invariant n + Size(t) == Size(x)
    {
      n := n + 1;
      t := t / 256;
    }
  }

  // The loops that write a number from its last octet to its first.
  method PutBe(der: array<nat>, at: nat, x: nat, n: nat)
    requires at + n <= der.Length
    modifies der
    ensures der[..] == Mem.Write(old(der[..]), at, Be(x, n))
  {
    hide Mem.Write, Be;
    ghost var m := der[..];
    ghost var s := Be(x, n);
    var t, pos: nat := x, n;
    Mem.WriteSame(m, at, 0);
    Mem.WriteNothing(m, at + n);
    assert s[n..] == [] && s[..n] == s;
    while pos > 0
      invariant pos <= n && der[..] == Mem.Write(m, at + pos, s[pos..])
      invariant s[..pos] == Be(t, pos)
    {
      pos := pos - 1;
      der[at + pos] := t % 256;
      BeSplit(s, t, pos);
      Mem.WriteFront(m, at + pos, t % 256, s[pos + 1..]);
      t := t / 256;
    }
    assert s[0..] == s;
  }

  lemma BeSplit(s: seq<nat>, t: nat, pos: nat)
    requires pos < |s| && s[..pos + 1] == Be(t, pos + 1)
    ensures s[..pos] == Be(t / 256, pos) && s[pos..] == [t % 256] + s[pos + 1..]
  {
    hide Be;
    BeLast(t / 256, t % 256, t, pos);
    assert s[..pos] == s[..pos + 1][..pos];
    assert s[pos] == s[..pos + 1][pos];
  }

  method TEnc(der: array?<nat>, at: nat, tag: nat) returns (n: Option<nat>)
    requires tag < 0x1_0000_0000 && Fits(der, at, |TagCode(tag)|)
    modifies der
    ensures n == if ValidTag(tag) then Some(|TagCode(tag)|) else None
    ensures if ValidTag(tag) then Wrote(der, at, TagCode(tag)) else der != null ==> der[..] == old(der[..])
  {
    hide ValidTag, Mem.Write, Be, Size;
    var ok := TIsValid(tag);
    if !ok {
      return None;
    }
    var k := Count(tag);
    if k == 0 {
      k := 1;
    }
    if der != null {
      PutBe(der, at, tag, k);
    }
    n := Some(k);
  }

  method LEnc(der: array?<nat>, at: nat, len: nat) returns (n: nat)
    requires len < SizeMax && Fits(der, at, |LenCode(len)|)
    modifies der
    ensures n == |LenCode(len)| && Wrote(der, at, LenCode(len))
  {
    hide Mem.Write, Be, Size, Pow2;
    n := 1;
    if len >= 128 {
      var k := Count(len);
      n := n + k;
    }
    if der != null {
      ghost var m := der[..];
      if len < 128 {
        der[at] := len;
        Mem.WriteOne(m, at, len);
      } else {
        var r: nat := n - 1;
        der[at] := r + 128;
        Mem.WriteOne(m, at, r + 128);
        PutBe(der, at + 1, len, r);
        Mem.WriteAdjacent(m, at, [128 + r], Be(len, r));
      }
    }
  }

  // memMove of a value into its place
  method Put(der: array<nat>, at: nat, val: seq<nat>)
    requires at + |val| <= der.Length
    modifies der
    ensures der[..] == Mem.Write(old(der[..]), at, val)
  {
    forall i | at <= i < at + |val| {
      der[i] := val[i - at];
    }
  }

  /** derEnc: the value first, then the tag and the length in front of it. */
  method Enc(der: array?<nat>, at: nat, tag: nat, val: seq<nat>) returns (n: Option<nat>)
    requires tag < 0x1_0000_0000 && |val| < SizeMax && Fits(der, at, |Tlv(tag, val)|)
    modifies der
    ensures n == if ValidTag(tag) then Some(|Tlv(tag, val)|) else None
    ensures ValidTag(tag) ==> Wrote(der, at, Tlv(tag, val))
    ensures !ValidTag(tag) && der != null ==> der[..] == old(der[..])
  {
    hide Mem.Write, TagCode, LenCode, ValidTag, Pow2;
    ghost var t, l := TagCode(tag), LenCode(|val|);
    n := TEnc(null, 0, tag);
    if n.None? {
      return;
    }
    var k := LEnc(null, 0, |val|);
    if der != null {
      ghost var m := der[..];
      Put(der, at + n.value + k, val);
      var i := TEnc(der, at, tag);
      var j := LEnc(der, at + n.value, |val|);
      Mem.WriteThree(m, at, t, l, val);
    }
    n := Some(n.value + k + |val|);
  }

  /** derEnc of a value that lies in the same buffer, anywhere. */
  method EncMove(der: array<nat>, at: nat, tag: nat, from: nat, len: nat) returns (n: nat)
    requires tag < 0x1_0000_0000 && ValidTag(tag) && from + len <= der.Length && len < SizeMax
    requires at + |TagCode(tag)| + |LenCode(len)| + len <= der.Length
    modifies der
    ensures var code := Tlv(tag, Mem.Slice(old(der[..]), from, len));
            n == |code| && der[..] == Mem.Write(old(der[..]), at, code)
  {
    hide Mem.Write, TagCode, LenCode, ValidTag, Pow2, Mem.Slice;
    ghost var m := der[..];
    ghost var val := Mem.Slice(m, from, len);
    ghost var t, l := TagCode(tag), LenCode(len);
    var i := TEnc(null, 0, tag);
    var k := LEnc(null, 0, len);
    Mem.Move(der, at + i.value + k, from, len);
    var i' := TEnc(der, at, tag);
    var k' := LEnc(der, at + i.value, len);
    Mem.WriteThree(m, at, t, l, val);
    n := i.value + k + len;
  }

  /** derTSIZEEnc */
  method SizeEnc(der: array?<nat>, at: nat, tag: nat, x: nat) returns (n: Option<nat>)
    requires tag < 0x1_0000_0000 && Size(x) <= 8 && Fits(der, at, |Tlv(tag, SizeVal(x))|)
    modifies der
    ensures n == if ValidTag(tag) then Some(|Tlv(tag, SizeVal(x))|) else None
    ensures ValidTag(tag) ==> Wrote(der, at, Tlv(tag, SizeVal(x)))
    ensures !ValidTag(tag) && der != null ==> der[..] == old(der[..])
  {
    hide Mem.Write, TagCode, LenCode, ValidTag, Pow2, Be, Size;
    ghost var t, l := TagCode(tag), LenCode(SizeLen(x));
    ghost var m := if der != null then der[..] else [];
    var len: nat := SizeOctets(x);
    NineFits(len);
    n := TEnc(der, at, tag);
    if n.None? {
      return;
    }
    var k := LEnc(der, at + n.value, len);
    if der != null {
      PutBe(der, at + n.value + k, x, len);
      Mem.WriteAdjacent(m, at, t, l);
      Mem.WriteAdjacent(m, at, t + l, SizeVal(x));
    }
    n := Some(n.value + k + len);
  }

  // for (; v >= 256; v >>= 8, ++len); len += v >> 7
  method SizeOctets(x: nat) returns (len: nat)
    requires Size(x) <= 8
    ensures len == SizeLen(x) <= 9
  {
    hide Be;
    len := 1;
    var v := x;
    while v >= 256
      invariant v > 0 || x == 0
      invariant len + Size(v / 256) == (if x == 0 then 1 else Size(x))
      invariant x > 0 ==> Be(x, Size(x))[0] == Be(v, Size(v))[0]
      decreases v
    {
      SizeStep(v / 256);
      TopKept(v);
      v := v / 256;
      len := len + 1;
    }
    SizeStep(v);
    if v > 0 {
      OneOctet(v);
    }
    len := len + v / 128;
  }

  lemma TopKept(v: nat)
    requires v >= 256
    ensures Size(v) > 0 && Size(v / 256) > 0 && Be(v, Size(v))[0] == Be(v / 256, Size(v / 256))[0]
  {
    SizeStep(v);
    SizeStep(v / 256);
    BeStep(v, Size(v));
  }

  // The octets of a number without the leading zeros.
  method SignificantOctets(val: seq<nat>) returns (len: nat)
    requires |val| > 0
    ensures 0 < len <= |val| && Stripped(val) == val[..len]
  {
    len := |val|;
    assert val[..len] == val;
    while len > 1 && val[len - 1] == 0
      invariant 0 < len <= |val| && Stripped(val[..len]) == Stripped(val)
    {
      assert val[..len][..len - 1] == val[..len - 1];
      len := len - 1;
    }
  }

  // The value of a number: its octets, an octet 0 where the top bit is set, all reversed.
  method PutUint(der: array<nat>, p: nat, v: seq<nat>)
    requires |v| > 0 && p + |v| + (if v[|v| - 1] >= 128 then 1 else 0) <= der.Length
    modifies der
    ensures der[..] == Mem.Write(old(der[..]), p, Reversed(if v[|v| - 1] >= 128 then v + [0] else v))
  {
    hide Mem.Write, Reversed;
    ghost var m := der[..];
    Put(der, p, v);
    if v[|v| - 1] >= 128 {
      ghost var m1 := der[..];
      der[p + |v|] := 0;
      Mem.WriteOne(m1, p + |v|, 0);
      Mem.WriteAdjacent(m, p, v, [0]);
      Reverse(der, p, |v| + 1, m, v + [0]);
    } else {
      Reverse(der, p, |v|, m, v);
    }
  }

  /** derTUINTEnc: the value is copied, extended and reversed in place. */
  method UintEnc(der: array?<nat>, at: nat, tag: nat, val: seq<nat>) returns (n: Option<nat>)
    requires tag < 0x1_0000_0000 && |val| > 0 && |UintVal(val)| < SizeMax && Fits(der, at, |Tlv(tag, UintVal(val))|)
    modifies der
    ensures n == if ValidTag(tag) then Some(|Tlv(tag, UintVal(val))|) else None
    ensures ValidTag(tag) ==> Wrote(der, at, Tlv(tag, UintVal(val)))
    ensures !ValidTag(tag) && der != null ==> der[..] == old(der[..])
  {
    hide Mem.Write, TagCode, LenCode, ValidTag, Pow2, Reversed, Stripped;
    ghost var m := if der != null then der[..] else [];
    var len := SignificantOctets(val);
    var ex := if val[len - 1] >= 128 then 1 else 0;
    ghost var t, l := TagCode(tag), LenCode(len + ex);
    n := TEnc(der, at, tag);
    if n.None? {
      return;
    }
    var k := LEnc(der, at + n.value, len + ex);
    if der != null {
      Mem.WriteAdjacent(m, at, t, l);
      PutUint(der, at + n.value + k, val[..len]);
      Mem.WriteAdjacent(m, at, t + l, UintVal(val));
    }
    n := Some(n.value + k + len + ex);
  }

  // memRev
  method Reverse(der: array<nat>, at: nat, n: nat, ghost m: seq<nat>, ghost v: seq<nat>)
    requires at + n <= der.Length == |m| && |v| == n && der[..] == Mem.Write(m, at, v)
    modifies der
    ensures der[..] == Mem.Write(m, at, Reversed(v))
  {
    hide Mem.Write;
    var i: nat := 0;
    assert EndsSwapped(v, 0) == v;
    while i < n / 2
      invariant i <= n / 2 && der[..] == Mem.Write(m, at, EndsSwapped(v, i))
    {
      SwapStep(m, at, v, i);
      der[at + i], der[at + n - 1 - i] := der[at + n - 1 - i], der[at + i];
      i := i + 1;
    }
    assert EndsSwapped(v, n / 2) == Reversed(v);
  }

  // v with its first i octets and its last i octets exchanged in reverse
  function EndsSwapped(v: seq<nat>, i: nat): (w: seq<nat>)
    ensures |w| == |v|
  {
    seq(|v|, j requires 0 <= j < |v| => if j < i || j >= |v| - i then v[|v| - 1 - j] else v[j])
  }

  lemma SwapStep(m: seq<nat>, at: nat, v: seq<nat>, i: nat)
    requires at + |v| <= |m| && i < |v| / 2
    ensures var w := Mem.Write(m, at, EndsSwapped(v, i));
            w[at + i := w[at + |v| - 1 - i]][at + |v| - 1 - i := w[at + i]]
            == Mem.Write(m, at, EndsSwapped(v, i + 1))
  {
  }
}
