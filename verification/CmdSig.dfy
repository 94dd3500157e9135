/** Signatures of files (cmd_sig.c): the code of a signature, reversed at the end of a file. */
module CmdSig {
  import opened Octets
  import opened Der
  import opened DerTree
  import opened PowersOfTwo
  import Mem
  import C = DerCanonical

  datatype Sig = Sig(certs: seq<nat>, date: seq<nat>, sig: seq<nat>)

  // cvcLen: the length of the certificate a string starts with; dateOk: is it a date?
  datatype Checks = Checks(cvcLen: seq<nat> -> Option<nat>, dateOk: seq<nat> -> bool)

  const NoDate: seq<nat> := Repeat(0, 6)

  predicate SigLen(n: nat)
  {
    n == 34 || n == 48 || n == 72 || n == 96
  }

  // A string of certificates, one after another.
  predicate Chain(cvcLen: seq<nat> -> Option<nat>, s: seq<nat>)
    decreases |s|
  {
    s == [] || (var n := cvcLen(s); n.Some? && 0 < n.value <= |s| && Chain(cvcLen, s[n.value..]))
  }

  // cmdSigSeemsValid
  predicate SeemsValid(c: Checks, s: Sig)
  {
    && SigLen(|s.sig|) && |s.certs| <= 1460 && |s.date| == 6
    && Chain(c.cvcLen, s.certs) && (s.date == NoDate || c.dateOk(s.date))
  }

  function Joined(parts: seq<seq<nat>>): (s: seq<nat>)
  {
    if parts == [] then [] else parts[0] + Joined(parts[1..])
  }

  // Every part is as long as the certificate that the octets from it on start with.
  ghost predicate Certificates(cvcLen: seq<nat> -> Option<nat>, parts: seq<seq<nat>>)
  {
    forall i :: 0 <= i < |parts| ==> |parts[i]| > 0 && cvcLen(Joined(parts[i..])) == Some(|parts[i]|)
  }

  /** The chains are the strings of certificates, in one way only. */
  lemma {:induction false} ChainExact(cvcLen: seq<nat> -> Option<nat>, s: seq<nat>) returns (parts: seq<seq<nat>>)
    ensures Chain(cvcLen, s) <==> Certificates(cvcLen, parts) && Joined(parts) == s
    ensures forall other :: Certificates(cvcLen, other) && Joined(other) == s ==> Chain(cvcLen, s) && other == parts
    decreases |s|
  {
    hide Certificates;
    parts := [];
    NoParts(cvcLen);
    var n := cvcLen(s);
    if s != [] && n.Some? && 0 < n.value <= |s| {
      var rest := ChainExact(cvcLen, s[n.value..]);
      parts := [s[..n.value]] + rest;
      OnePartMore(cvcLen, s, n.value, rest);
    }
    forall other | Certificates(cvcLen, other) && Joined(other) == s
      ensures Chain(cvcLen, s) && other == parts
    {
      if other != [] {
        FirstPart(cvcLen, other);
      }
    }
  }

  lemma NoParts(cvcLen: seq<nat> -> Option<nat>)
    ensures Certificates(cvcLen, []) && Joined([]) == []
  {
  }

  lemma OnePartMore(cvcLen: seq<nat> -> Option<nat>, s: seq<nat>, n: nat, rest: seq<seq<nat>>)
    requires cvcLen(s) == Some(n) && 0 < n <= |s|
    ensures var parts := [s[..n]] + rest;
            Certificates(cvcLen, rest) && Joined(rest) == s[n..] ==> Certificates(cvcLen, parts) && Joined(parts) == s
  {
    var parts := [s[..n]] + rest;
    assert parts[1..] == rest && parts[0..] == parts && s == s[..n] + s[n..];
    if Certificates(cvcLen, rest) && Joined(rest) == s[n..] {
      forall i | 0 <= i < |parts|
        ensures |parts[i]| > 0 && cvcLen(Joined(parts[i..])) == Some(|parts[i]|)
      {
        if i > 0 {
          assert parts[i..] == rest[i - 1..];
        }
      }
    }
  }

  lemma FirstPart(cvcLen: seq<nat> -> Option<nat>, parts: seq<seq<nat>>)
    requires parts != [] && Certificates(cvcLen, parts)
    ensures var s := Joined(parts);
            && s != [] && cvcLen(s) == Some(|parts[0]|) && 0 < |parts[0]| <= |s|
            && s[..|parts[0]|] == parts[0] && s[|parts[0]|..] == Joined(parts[1..])
            && Certificates(cvcLen, parts[1..])
  {
    assert parts[0..] == parts;
    forall i | 0 <= i < |parts[1..]|
      ensures |parts[1..][i]| > 0 && cvcLen(Joined(parts[1..][i..])) == Some(|parts[1..][i]|)
    {
      assert parts[1..][i..] == parts[i + 1..];
    }
  }

  /** cmdSigSeemsValid walks along the certificates. */
  method IsValid(c: Checks, s: Sig) returns (ok: bool)
    requires |s.date| == 6
    ensures ok <==> SeemsValid(c, s)
    ensures ok <==> && |s.sig| in {34, 48, 72, 96} && |s.certs| <= 1460 && Chain(c.cvcLen, s.certs)
                    && (s.date == Repeat(0, 6) || c.dateOk(s.date))
  {
    if !SigLen(|s.sig|) || |s.certs| > 1460 {
      return false;
    }
    var at: nat := 0;
    assert s.certs[0..] == s.certs;
    while at < |s.certs|
      invariant at <= |s.certs| && Chain(c.cvcLen, s.certs) == Chain(c.cvcLen, s.certs[at..])
    {
      var n := c.cvcLen(s.certs[at..]);
      if n.None? || n.value == 0 || n.value > |s.certs| - at {
        return false;
      }
      assert s.certs[at..][n.value..] == s.certs[at + n.value..];
      at := at + n.value;
    }
    ok := s.date == NoDate || c.dateOk(s.date);
  }

  // ---------------------------------------------------------------- the code of a signature

  // The date is there exactly when it is not zero.
  function TreeOf(s: Sig): Tree
  {
    var last := Cons(OctLeaf(4, s.sig), Nil);
    Node(0x30, Cons(OctLeaf(0x30, s.certs), if s.date == NoDate then last else Cons(OctLeaf(4, s.date), last)))
  }

  function Inner(s: Sig): seq<nat>
  {
    Tlv(0x30, s.certs) + ((if s.date == NoDate then [] else Tlv(4, s.date)) + Tlv(4, s.sig))
  }

  lemma Tags()
    ensures Usable(0x30) && Constructive(0x30) && Usable(4)
    ensures TagCode(0x30) == [0x30] && TagCode(4) == [4]
  {
    OneTag(0x30);
    OneTag(4);
  }

  lemma TailCode(s: Sig, last: Forest)
    requires AllValid(last) && Codes(last) == Tlv(4, s.sig)
    ensures var tail := if s.date == NoDate then last else Cons(OctLeaf(4, s.date), last);
            AllValid(tail) && Codes(tail) == (if s.date == NoDate then [] else Tlv(4, s.date)) + Tlv(4, s.sig)
  {
    hide Tlv, Usable;
    Tags();
    if s.date == NoDate {
      assert [] + Tlv(4, s.sig) == Tlv(4, s.sig);
    } else {
      assert Codes(Cons(OctLeaf(4, s.date), last)) == Code(OctLeaf(4, s.date)) + Codes(last);
    }
  }

  lemma TreeCode(s: Sig)
    ensures Valid(TreeOf(s)) && Code(TreeOf(s)) == Tlv(0x30, Inner(s))
  {
    hide Tlv, Usable, Constructive;
    Tags();
    var last := Cons(OctLeaf(4, s.sig), Nil);
    assert AllValid(last) && Codes(last) == Tlv(4, s.sig) + Codes(Nil) == Tlv(4, s.sig);
    assert [] + Tlv(4, s.sig) == Tlv(4, s.sig);
    var tail := if s.date == NoDate then last else Cons(OctLeaf(4, s.date), last);
    TailCode(s, last);
    var all := Cons(OctLeaf(0x30, s.certs), tail);
    assert AllValid(all) && Codes(all) == Inner(s);
  }

  lemma ShortLength(n: nat)
    requires n < 0x10000
    ensures |LenCode(n)| <= 3 && n + 20 < SizeMax
  {
    hide Size, Pow2, Be;
    TwoOctets(n);
    LargeSizes();
  }

  lemma TwoOctets(n: nat)
    requires n < 0x10000
    ensures Size(n) <= 2
  {
    hide Size;
    SizeStep(n);
    SizeStep(n / 256);
    assert Size(n / 256 / 256) == 0;
  }

  lemma LargeSizes()
    ensures 0x20000 < SizeMax
  {
    hide Pow2;
    Pow2Monotone(18, 64);
    Pow2Add(8, 10);
    Pow2Add(8, 2);
    Pow8();
    SmallPowers();
  }

  lemma SmallPowers()
    ensures Pow2(2) == 4 && Pow2(10) == 1024
  {
  }

  lemma TlvSize(tag: nat, v: seq<nat>)
    requires (tag == 0x30 || tag == 4) && |v| < 0x10000
    ensures |v| < |Tlv(tag, v)| <= |v| + 4
  {
    Tags();
    ShortLength(|v|);
  }

  lemma CodeSize(s: Sig)
    requires |s.sig| <= 96 && |s.certs| <= 1460 && |s.date| == 6
    ensures |Inner(s)| < 1600 && |Tlv(0x30, Inner(s))| < 1700 < SizeMax
  {
    hide Tlv;
    TlvSize(0x30, s.certs);
    TlvSize(4, s.date);
    TlvSize(4, s.sig);
    TlvSize(0x30, Inner(s));
    ShortLength(1700);
  }

  /** cmdSigEnc: it starts the structure, writes the parts and stops it. */
  method Enc(buf: array?<nat>, s: Sig) returns (n: nat)
    requires |s.sig| <= 96 && |s.certs| <= 1460 && |s.date| == 6
    requires Der.Fits(buf, 0, |Tlv(0x30, Inner(s))|)
    modifies buf
    ensures n == |Tlv(0x30, Inner(s))| && Wrote(buf, 0, Tlv(0x30, Inner(s)))
  {
    hide Tlv, Inner, Code, Valid, Mem.Write;
    TreeCode(s);
    CodeSize(s);
    n := EncTree(buf, 0, TreeOf(s));
  }

  // ---------------------------------------------------------------- reading a code

  // derDec3: a value of the given tag and length
  function ReadSized(s: seq<nat>, tag: nat, len: nat, before: nat): Option<(seq<nat>, nat)>
  {
    var r := ReadTagged(s, tag, before);
    if r.Found? && |r.value| == len then Some((r.value, r.n)) else None
  }

  // The date is optional.
  function ReadDate(s: seq<nat>, before: nat): (seq<nat>, nat)
  {
    var r := ReadSized(s, 4, 6, before);
    if r.Some? then r.value else (NoDate, 0)
  }

  function ReadValue(s: seq<nat>, before: nat): Option<(seq<nat>, nat)>
  {
    if ReadSized(s, 4, 34, before).Some? then ReadSized(s, 4, 34, before)
    else if ReadSized(s, 4, 48, before).Some? then ReadSized(s, 4, 48, before)
    else if ReadSized(s, 4, 72, before).Some? then ReadSized(s, 4, 72, before)
    else ReadSized(s, 4, 96, before)
  }

  // cmdSigDec
  function Read(c: Checks, s: seq<nat>, before: nat): Option<(Sig, nat)>
  {
    var head := ReadHead(s, 0x30, before);
    if head.None? || head.value.1 > |s| then None
    else
      var u := s[head.value.1..];
      var certs := ReadTagged(u, 0x30, before);
      if !certs.Found? || |certs.value| > 1460 || certs.n > |u| then None
      else
        var v := u[certs.n..];
        var date := ReadDate(v, before);
        if date.1 > |v| then None
        else
          var w := v[date.1..];
          var sig := ReadValue(w, before);
          if sig.None? then None
          else
            var pos := head.value.1 + certs.n + date.1 + sig.value.1;
            var r := Sig(certs.value, date.0, sig.value.0);
            if !AtEnd(0x30, head.value.0, pos) || |r.date| != 6 || !SeemsValid(c, r) then None
            else Some((r, pos))
  }

  // The date, if there is one, and then one of the four lengths.
  method DecDate(s: seq<nat>, before: nat) returns (date: seq<nat>, d: nat)
    ensures (date, d) == ReadDate(s, before)
  {
    date, d := NoDate, 0;
    var r := ReadSized(s, 4, 6, before);
    if r.Some? {
      date, d := r.value.0, r.value.1;
    }
  }

  method DecValue(s: seq<nat>, before: nat) returns (value: Option<(seq<nat>, nat)>)
    ensures value == ReadValue(s, before)
  {
    value := ReadSized(s, 4, 34, before);
    if value.None? {
      value := ReadSized(s, 4, 48, before);
    }
    if value.None? {
      value := ReadSized(s, 4, 72, before);
    }
    if value.None? {
      value := ReadSized(s, 4, 96, before);
    }
  }

  /** cmdSigDec, with the cursor and the count of remaining octets. */
  method Dec(c: Checks, der: seq<nat>, before: nat) returns (r: Option<(Sig, nat)>)
    ensures r == Read(c, der, before)
  {
    hide ReadHead, ReadTagged, AtEnd, SeemsValid, ReadDate, ReadValue;
    var ptr: nat := 0;
    var head := ReadHead(der, 0x30, before);
    if head.None? || head.value.1 > |der| {
      return None;
    }
    ptr := ptr + head.value.1;
    var certs := ReadTagged(der[ptr..], 0x30, before);
    if !certs.Found? || |certs.value| > 1460 || certs.n > |der| - ptr {
      return None;
    }
    assert der[ptr..][certs.n..] == der[ptr + certs.n..];
    ptr := ptr + certs.n;
    var date, d := DecDate(der[ptr..], before);
    if d > |der| - ptr {
      return None;
    }
    assert der[ptr..][d..] == der[ptr + d..];
    ptr := ptr + d;
    var value := DecValue(der[ptr..], before);
    if value.None? {
      return None;
    }
    ptr := ptr + value.value.1;
    var s := Sig(certs.value, date, value.value.0);
    if !AtEnd(0x30, head.value.0, ptr) || |s.date| != 6 {
      return None;
    }
    var ok := IsValid(c, s);
    if !ok {
      return None;
    }
    r := Some((s, ptr));
  }

  // The value behind the certificates, with or without a date.
  lemma TailReadBack(s: Sig, before: nat)
    requires SigLen(|s.sig|) && |s.date| == 6
    ensures var v := (if s.date == NoDate then [] else Tlv(4, s.date)) + Tlv(4, s.sig);
            var d := ReadDate(v, before);
            && d == (s.date, if s.date == NoDate then 0 else |Tlv(4, s.date)|) && d.1 <= |v|
            && ReadValue(v[d.1..], before) == Some((s.sig, |Tlv(4, s.sig)|))
  {
    hide Tlv, Usable, ReadTagged;
    Tags();
    TlvSize(4, s.sig);
    TlvSize(4, s.date);
    ShortLength(120);
    var t := Tlv(4, s.sig);
    assert t + [] == t && [] + t == t && t[0..] == t;
    TlvReadBack(4, s.sig, [], before);
    if s.date != NoDate {
      TlvReadBack(4, s.date, t, before);
      assert (Tlv(4, s.date) + t)[|Tlv(4, s.date)|..] == t;
    }
  }

  /** A valid signature is read back from its code. */
  lemma ReadBack(c: Checks, s: Sig, before: nat)
    requires SeemsValid(c, s)
    ensures var code := Tlv(0x30, Inner(s)); Read(c, code, before) == Some((s, |code|))
  {
    hide Tlv, Usable, Constructive, ReadTagged, ReadHead, ReadDate, ReadValue, Chain, TagCode, LenCode;
    Tags();
    CodeSize(s);
    var code, v := Tlv(0x30, Inner(s)), (if s.date == NoDate then [] else Tlv(4, s.date)) + Tlv(4, s.sig);
    assert code + [] == code && Inner(s) + [] == Inner(s);
    HeadReadBack(0x30, Inner(s), [], before);
    TlvReadBack(0x30, s.certs, v, before);
    assert Inner(s)[|Tlv(0x30, s.certs)|..] == v;
    TailReadBack(s, before);
    CodeParts(s);
  }

  lemma CodeParts(s: Sig)
    ensures |Tlv(0x30, Inner(s))| == |TagCode(0x30)| + |LenCode(|Inner(s)|)| + |Inner(s)|
    ensures |Inner(s)| == |Tlv(0x30, s.certs)| + (if s.date == NoDate then 0 else |Tlv(4, s.date)|) + |Tlv(4, s.sig)|
  {
    hide TagCode, LenCode;
  }

  // A value of the given length lies at the front of the octets.
  lemma SizedIs(s: seq<nat>, len: nat, before: nat)
    requires IsOctets(s) && |s| < SizeMax && before != 4 && ReadSized(s, 4, len, before).Some?
    ensures var (v, n) := ReadSized(s, 4, len, before).value;
            |v| == len && n == |Tlv(4, v)| <= |s| && s == Tlv(4, v) + s[n..]
  {
    hide ReadTagged, Tlv;
    TlvCanonical(s, 4, before);
    var (v, n) := ReadSized(s, 4, len, before).value;
    assert |s[..n]| == n;
  }

  /** What cmdSigDec accepts: the announced lengths are those of the octets behind them, and the
      code is the DER of the signature, or that with a date of zeros written out. */
  lemma ReadCanonical(c: Checks, s: seq<nat>, before: nat)
    requires IsOctets(s) && |s| < SizeMax && before != 4 && before != 0x30 && Read(c, s, before).Some?
    ensures var (r, n) := Read(c, s, before).value;
            && SeemsValid(c, r) && n <= |s|
            && ((r.date == NoDate && s[..n] == Tlv(0x30, Tlv(0x30, r.certs) + ([] + Tlv(4, r.sig))))
                || s[..n] == Tlv(0x30, Tlv(0x30, r.certs) + (Tlv(4, r.date) + Tlv(4, r.sig))))
            && (s[..n] == Tlv(0x30, Inner(r)) <==> r.date != NoDate || s[..n] == Tlv(0x30, Tlv(0x30, r.certs) + ([] + Tlv(4, r.sig))))
  {
    hide ReadHead, SeemsValid, Tlv, TagCode, LenCode, Repeat, Read;
    var r := Read(c, s, before).value.0;
    var len, h, date := Contents(c, s, before);
    C.HeadIs(s, 0x30, before);
    WholeTlv(s[..h], len, Tlv(0x30, r.certs) + (date + Tlv(4, r.sig)));
    assert date == [] ==> [] + Tlv(4, r.sig) == Tlv(4, r.sig);
  }

  // The parts behind the header, in the announced length.
  lemma Contents(c: Checks, s: seq<nat>, before: nat) returns (len: nat, h: nat, date: seq<nat>)
    requires IsOctets(s) && |s| < SizeMax && before != 4 && before != 0x30 && Read(c, s, before).Some?
    ensures var (r, n) := Read(c, s, before).value;
            && SeemsValid(c, r) && ReadHead(s, 0x30, before) == Some((len, h)) && h <= |s|
            && ((date == [] && r.date == NoDate) || date == Tlv(4, r.date))
            && var v := Tlv(0x30, r.certs) + (date + Tlv(4, r.sig));
               n <= |s| && s[..n] == s[..h] + v && (s[..h] == TagCode(0x30) + LenCode(len) ==> |v| == len)
  {
    hide ReadHead, ReadTagged, ReadSized, SeemsValid, Tlv, TagCode, LenCode, Repeat;
    len, h := ReadHead(s, 0x30, before).value.0, ReadHead(s, 0x30, before).value.1;
    var u := s[h..];
    OctetsBehind(s, h);
    TlvCanonical(u, 0x30, before);
    var certs := ReadTagged(u, 0x30, before);
    var v := u[certs.n..];
    OctetsBehind(u, certs.n);
    date := DateIs(v, before);
    var d := ReadDate(v, before).1;
    OctetsBehind(v, d);
    ValueIs(v[d..], before);
    var (sig, k) := ReadValue(v[d..], before).value;
    PartsInFront(s, h, certs.n, d, k, Tlv(0x30, certs.value), date, Tlv(4, sig));
  }

  lemma DateIs(v: seq<nat>, before: nat) returns (date: seq<nat>)
    requires IsOctets(v) && |v| < SizeMax && before != 4
    ensures var (x, d) := ReadDate(v, before);
            && d == |date| <= |v| && v == date + v[d..]
            && ((date == [] && x == NoDate) || date == Tlv(4, x))
  {
    hide ReadSized, Tlv, Repeat;
    date := [];
    if ReadSized(v, 4, 6, before).Some? {
      SizedIs(v, 6, before);
      date := Tlv(4, ReadDate(v, before).0);
    }
  }

  lemma OctetsBehind(s: seq<nat>, n: nat)
    requires IsOctets(s) && n <= |s|
    ensures IsOctets(s[n..]) && |s[n..]| <= |s|
  {
  }

  lemma ValueIs(w: seq<nat>, before: nat)
    requires IsOctets(w) && |w| < SizeMax && before != 4 && ReadValue(w, before).Some?
    ensures var (v, n) := ReadValue(w, before).value; n == |Tlv(4, v)| <= |w| && w == Tlv(4, v) + w[n..]
  {
    hide ReadSized, Tlv;
    if ReadSized(w, 4, 34, before).Some? {
      SizedIs(w, 34, before);
    } else if ReadSized(w, 4, 48, before).Some? {
      SizedIs(w, 48, before);
    } else if ReadSized(w, 4, 72, before).Some? {
      SizedIs(w, 72, before);
    } else {
      SizedIs(w, 96, before);
    }
  }

  lemma PartsInFront(s: seq<nat>, h: nat, a: nat, d: nat, k: nat, A: seq<nat>, D: seq<nat>, K: seq<nat>)
    requires h <= |s| && a == |A| && d == |D| && k == |K|
    requires a <= |s[h..]| && s[h..][..a] == A
    requires d <= |s[h..][a..]| && s[h..][a..] == D + s[h..][a..][d..]
    requires k <= |s[h..][a..][d..]| && s[h..][a..][d..] == K + s[h..][a..][d..][k..]
    ensures h + a + d + k <= |s| && s[..h + a + d + k] == s[..h] + (A + (D + K))
  {
    var u := s[h..];
    assert u == A + (D + (K + u[a..][d..][k..]));
    assert s == s[..h] + u;
    assert s == (s[..h] + (A + (D + K))) + u[a..][d..][k..];
  }

  lemma WholeTlv(head: seq<nat>, len: nat, v: seq<nat>)
    requires head == TagCode(0x30) + LenCode(len)
    ensures |v| == len ==> head + v == Tlv(0x30, v)
  {
    hide TagCode, LenCode;
  }

  // ---------------------------------------------------------------- files

  // cmdSigAppend, cmdSigWrite (to an empty file)
  method Append(file: seq<nat>, s: Sig) returns (signed: seq<nat>)
    requires |s.sig| <= 96 && |s.certs| <= 1460 && |s.date| == 6
    ensures signed == file + Reversed(Tlv(0x30, Inner(s)))
  {
    hide Tlv, Inner, Mem.Write;
    var len := Enc(null, s);
    var der := new nat[len];
    ghost var m := der[..];
    len := Enc(der, s);
    Mem.WriteAll(m, Tlv(0x30, Inner(s)));
    signed := file + Reversed(der[..]);
  }

  // The last n octets of a file, in reverse.
  function Back(file: seq<nat>, n: nat): (s: seq<nat>)
    requires n <= |file|
    ensures |s| == n
  {
    Reversed(file[|file| - n..])
  }

  function Suffix(file: seq<nat>): seq<nat>
  {
    Back(file, if |file| < 16 then |file| else 16)
  }

  // cmdSigRead: the signature and the length of its code
  function ReadFile(c: Checks, file: seq<nat>, before: nat): Option<(Sig, nat)>
  {
    var head := ReadTl(Suffix(file), before);
    if head.None? || head.value.0 != 0x30 then None
    else
      var count := (head.value.2 + head.value.1) % Pow2(64);
      if count > |file| then None
      else
        var r := Read(c, Back(file, count), before);
        if r.Some? && r.value.1 == count then r else None
  }

  method ReadSig(c: Checks, file: seq<nat>, before: nat) returns (r: Option<(Sig, nat)>)
    ensures r == ReadFile(c, file, before)
  {
    hide ReadTl, Read, Pow2;
    var count: nat := if |file| < 16 then |file| else 16;
    var suffix := Reversed(file[|file| - count..]);
    var head := ReadTl(suffix, before);
    if head.None? || head.value.0 != 0x30 {
      return None;
    }
    count := (head.value.2 + head.value.1) % Pow2(64);
    if count > |file| {
      return None;
    }
    var der := Reversed(file[|file| - count..]);
    r := Dec(c, der, before);
    if r.None? || r.value.1 != count {
      return None;
    }
  }

  lemma BackOfSigned(body: seq<nat>, code: seq<nat>, n: nat)
    requires n <= |body + Reversed(code)|
    ensures var file := body + Reversed(code);
            && (n == |code| ==> Back(file, n) == code)
            && (n < |code| ==> Back(file, n) == code[..n])
            && (n > |code| ==> Back(file, n)[..|code|] == code)
  {
  }

  // The header of a code is all in its first 16 octets.
  lemma HeaderInSuffix(s: Sig, body: seq<nat>, before: nat)
    requires SigLen(|s.sig|) && |s.certs| <= 1460 && |s.date| == 6
    ensures var code := Tlv(0x30, Inner(s));
            ReadTl(Suffix(body + Reversed(code)), before) == Some((0x30, |Inner(s)|, |code| - |Inner(s)|))
  {
    hide Tlv, ReadTl, Inner, TagCode, LenCode, Usable, Reversed;
    Tags();
    CodeSize(s);
    var v, code := Inner(s), Tlv(0x30, Inner(s));
    var file := body + Reversed(code);
    ShortLength(|v|);
    var h := TagCode(0x30) + LenCode(|v|);
    HeaderOf(v, code, h);
    var n := if |file| < 16 then |file| else 16;
    BackOfSigned(body, code, n);
    var u := Back(file, n);
    assert |h| <= 4 <= n by { InnerLong(s); }
    assert u[..|h|] == h;
    assert u == h + u[|h|..];
    TlReadBack(0x30, |v|, u[|h|..], before);
  }

  lemma HeaderOf(v: seq<nat>, code: seq<nat>, h: seq<nat>)
    requires code == Tlv(0x30, v) && h == TagCode(0x30) + LenCode(|v|)
    ensures code == h + v && code[..|h|] == h && |code| == |h| + |v|
  {
    hide TagCode, LenCode;
    assert code == h + v;
  }

  lemma InnerLong(s: Sig)
    requires SigLen(|s.sig|) && |s.certs| <= 1460 && |s.date| == 6
    ensures |Inner(s)| >= 34 && |Tlv(0x30, Inner(s))| > 34
  {
    hide Tlv;
    CodeSize(s);
    TlvSize(4, s.sig);
    TlvSize(0x30, Inner(s));
  }

  /** The signature behind any body is read back, with the exact length of its code. */
  lemma AppendThenRead(c: Checks, s: Sig, body: seq<nat>, before: nat)
    requires SeemsValid(c, s)
    ensures var code := Tlv(0x30, Inner(s));
            ReadFile(c, body + Reversed(code), before) == Some((s, |code|))
  {
    hide Tlv, ReadTl, Inner, Read, Chain, Pow2, Reversed, Suffix, Back;
    var code := Tlv(0x30, Inner(s));
    HeaderInSuffix(s, body, before);
    CodeSize(s);
    SmallMod64(|code|);
    BackOfSigned(body, code, |code|);
    ReadBack(c, s, before);
  }

  /** What cmdSigRead accepts: a file that ends in the reversed octets of an accepted code. */
  lemma FileCanonical(c: Checks, file: seq<nat>, before: nat) returns (date: seq<nat>)
    requires IsOctets(file) && |file| < SizeMax && before != 4 && before != 0x30 && ReadFile(c, file, before).Some?
    ensures var (r, n) := ReadFile(c, file, before).value;
            && SeemsValid(c, r) && n <= |file|
            && ((date == [] && r.date == NoDate) || date == Tlv(4, r.date))
            && file == file[..|file| - n] + Reversed(Tlv(0x30, Tlv(0x30, r.certs) + (date + Tlv(4, r.sig))))
  {
    hide ReadTl, Read, Tlv, SeemsValid, Repeat, Reversed;
    var (r, n) := ReadFile(c, file, before).value;
    var s := Back(file, n);
    BackOctets(file, n);
    ReadCanonical(c, s, before);
    assert s[..n] == s;
    date := if s == Tlv(0x30, Tlv(0x30, r.certs) + (Tlv(4, r.date) + Tlv(4, r.sig))) then Tlv(4, r.date) else [];
    assert file == file[..|file| - n] + file[|file| - n..];
    ReversedTwice(file[|file| - n..]);
  }

  lemma BackOctets(file: seq<nat>, n: nat)
    requires IsOctets(file) && n <= |file|
    ensures IsOctets(Back(file, n))
  {
  }

  // ---------------------------------------------------------------- what is hashed

  /** cmdSigHash collects the file in fragments of 4096 octets. */
  method Hash(file: seq<nat>, drop: nat, certs: seq<nat>, date: seq<nat>) returns (data: Option<seq<nat>>)
    ensures data == if drop > |file| then None else Some(file[..|file| - drop] + certs + date)
  {
    if drop > |file| {
      return None;
    }
    var state, at: nat, size: nat := [], 0, |file| - drop;
    while size > 0
      invariant at + size == |file| - drop && state == file[..at]
    {
      var count := if size < 4096 then size else 4096;
      state := state + file[at..at + count];
      at := at + count;
      size := size - count;
    }
    data := Some(state + certs + date);
  }

  /** The verifier of a signed file hashes what the signer hashed: the body, the certificates
      and the date. */
  method SameHashed(c: Checks, s: Sig, body: seq<nat>, before: nat) returns (signer: Option<seq<nat>>, verifier: Option<seq<nat>>)
    requires SeemsValid(c, s)
    ensures signer == verifier == Some(body + s.certs + s.date)
  {
    hide Tlv, Inner, Reversed, ReadFile, Chain;
    signer := Hash(body, 0, s.certs, s.date);
    assert body[..|body| - 0] == body;
    var file := Append(body, s);
    AppendThenRead(c, s, body, before);
    var r := ReadSig(c, file, before);
    assert file[..|file| - r.value.1] == body;
    verifier := Hash(file, r.value.1, r.value.0.certs, r.value.0.date);
  }

  /** Equal data of parts of equal lengths comes from equal parts. */
  method HashBinds(file: seq<nat>, drop: nat, certs: seq<nat>, date: seq<nat>, file': seq<nat>, drop': nat, certs': seq<nat>, date': seq<nat>)
      returns (data: Option<seq<nat>>, data': Option<seq<nat>>)
    requires drop <= |file| && drop' <= |file'| && |file| - drop == |file'| - drop' && |certs| == |certs'|
    ensures data.Some? && data'.Some?
    ensures data == data' ==> file[..|file| - drop] == file'[..|file'| - drop'] && certs == certs' && date == date'
  {
    data := Hash(file, drop, certs, date);
    data' := Hash(file', drop', certs', date');
    if data == data' {
      ThreeParts(file[..|file| - drop], certs, date, file'[..|file'| - drop'], certs', date');
    }
  }

  lemma ThreeParts(a: seq<nat>, b: seq<nat>, c: seq<nat>, x: seq<nat>, y: seq<nat>, z: seq<nat>)
    requires |a| == |x| && |b| == |y| && a + b + c == x + y + z
    ensures a == x && b == y && c == z
  {
    var s := a + b + c;
    assert a == s[..|a|] && b == s[|a|..|a| + |b|] && c == s[|a| + |b|..];
    assert x == s[..|x|] && y == s[|x|..|x| + |y|] && z == s[|x| + |y|..];
  }
}
