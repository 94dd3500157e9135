/** What the codes look like that the reader of nested structures accepts: their layout, and
    which of them are the DER of the tree that is read. */
module DerCanonical {
  import opened Octets
  import opened Der
  import opened DerTree
  import opened PowersOfTwo
  import Oid

  function TagOf(shape: Shape): nat
  {
    match shape
    case SizeShape(tag) => tag
    case UintShape(tag) => tag
    case OctShape(tag) => tag
    case OidShape => 6
    case NodeShape(tag, _) => tag
  }

  // before, the tag that a failing derTDec leaves in place, is none of the expected ones.
  predicate Apart(shape: Shape, before: nat)
    decreases shape, 1
  {
    before != TagOf(shape) && (shape.NodeShape? ==> AllApart(shape.items, before))
  }

  predicate AllApart(shapes: Shapes, before: nat)
    decreases shapes, 0
  {
    shapes.MoreShapes? ==> Apart(shapes.head, before) && AllApart(shapes.tail, before)
  }

  // der.c can also write the tags.
  predicate AllUsable(shape: Shape)
    decreases shape, 1
  {
    Usable(TagOf(shape)) && (shape.NodeShape? ==> EachUsable(shape.items))
  }

  predicate EachUsable(shapes: Shapes)
    decreases shapes, 0
  {
    shapes.MoreShapes? ==> AllUsable(shapes.head) && EachUsable(shapes.tail)
  }

  /** The first n octets of s are headers and values of the given shape: every header has the
      expected tag and announces exactly the octets behind it, down to the leaves. */
  predicate Announced(shape: Shape, s: seq<nat>, before: nat, n: nat)
    decreases shape, 1
  {
    var r := ReadTl(s, before);
    && r.Some?
    && var (tag, len, h) := r.value;
       && tag == TagOf(shape) && n == h + len <= |s|
       && (shape.NodeShape? ==> AllAnnounced(shape.items, s[h..], before, len))
  }

  predicate AllAnnounced(shapes: Shapes, s: seq<nat>, before: nat, n: nat)
    decreases shapes, 0
  {
    match shapes
    case NoShapes => n == 0
    case MoreShapes(shape, more) =>
      var r := ReadTl(s, before);
      && r.Some?
      && var k := r.value.2 + r.value.1;
         k <= n && k <= |s| && Announced(shape, s, before, k) && AllAnnounced(more, s[k..], before, n - k)
  }

  /** No SIZE inside has length 0, and no identifier inside is empty or ends in the middle of a
      number. */
  predicate Clean(shape: Shape, s: seq<nat>, before: nat)
    decreases shape, 1
  {
    var r := ReadTl(s, before);
    && r.Some?
    && var (_, len, h) := r.value;
       match shape
       case SizeShape(_) => len != 0
       case OidShape => 0 < len && h + len <= |s| && s[h + len - 1] < 128
       case NodeShape(_, items) => h <= |s| && AllClean(items, s[h..], before)
       case _ => true
  }

  predicate AllClean(shapes: Shapes, s: seq<nat>, before: nat)
    decreases shapes, 0
  {
    match shapes
    case NoShapes => true
    case MoreShapes(shape, more) =>
      var r := ReadTl(s, before);
      && r.Some?
      && var k := r.value.2 + r.value.1;
         k <= |s| && Clean(shape, s, before) && AllClean(more, s[k..], before)
  }

  // ---------------------------------------------------------------- leaves

  // Where a tagged value lies.
  lemma TaggedPlace(s: seq<nat>, tag: nat, before: nat)
    requires ReadTagged(s, tag, before).Found?
    ensures ReadTl(s, before).Some?
    ensures var Found(v, n) := ReadTagged(s, tag, before);
            var (t, len, h) := ReadTl(s, before).value;
            && t == tag && len == |v| && n == h + len <= |s| && v == s[h..h + len]
            && (IsOctets(s) ==> IsOctets(v)) && (len > 0 ==> v[len - 1] == s[h + len - 1])
  {
    hide ReadTl, Pow2;
    var r := ReadTlv(s, before);
    assert r.Found? && r.value == (tag, ReadTagged(s, tag, before).value);
    var (_, len, h) := ReadTl(s, before).value;
    SliceIs(s, h, len);
  }

  lemma SliceIs(s: seq<nat>, h: nat, len: nat)
    requires h + len <= |s|
    ensures var v := s[h..h + len];
            |v| == len && (IsOctets(s) ==> IsOctets(v)) && (len > 0 ==> v[len - 1] == s[h + len - 1])
  {
  }

  lemma SizePlace(s: seq<nat>, tag: nat, before: nat)
    requires IsOctets(s) && before != tag && ReadSize(s, tag, before).Found?
    ensures ReadTl(s, before).Some?
    ensures var Found(x, n) := ReadSize(s, tag, before);
            var (t, len, h) := ReadTl(s, before).value;
            t == tag && n == h + len <= |s| && Size(x) <= 8
  {
    hide ReadTag, ReadLen, FromBe, Size, Be;
    var t := ReadTag(s, before).value.1;
    var (len, m) := ReadLen(s[t..]).value;
    var v := s[t + m..];
    var w := v[..len];
    BeOf(w);
    if len == 9 {
      var u := w[1..];
      BeOf(u);
      LeadingZero(FromBe(u), 8);
      FromBeOf(FromBe(u), 9);
      assert w == [0] + u;
    }
  }

  lemma SizeLeafIs(s: seq<nat>, tag: nat, before: nat)
    requires IsOctets(s) && before != tag && ReadSize(s, tag, before).Found?
    ensures var Found(x, n) := ReadSize(s, tag, before);
            && Announced(SizeShape(tag), s, before, n)
            && (Valid(SizeLeaf(tag, x)) && s[..n] == Code(SizeLeaf(tag, x))
                <==> AllUsable(SizeShape(tag)) && Clean(SizeShape(tag), s, before))
  {
    hide ReadSize, ReadTl, Tlv, SizeVal, Usable, Size;
    SizePlace(s, tag, before);
    SizeCanonical(s, tag, before);
  }

  // The octets that pass the tests of ReadUint are those of their number.
  lemma UintValOf(v: seq<nat>)
    requires IsOctets(v) && |v| > 0 && v[0] < 128 && (v[0] == 0 && |v| > 1 ==> v[1] >= 128)
    ensures var val := Reversed(if v[0] == 0 && |v| > 1 then v[1..] else v);
            |val| > 0 && IsOctets(val) && UintVal(val) == v
  {
    hide Reversed, Stripped;
    var u := if v[0] == 0 && |v| > 1 then v[1..] else v;
    var val := Reversed(u);
    assert val[|val| - 1] == u[0];
    OctetsReversed(u);
    NotStripped(val);
    ReversedTwice(u);
    ZeroInFront(val);
    assert u != v ==> v == [0] + u;
  }

  lemma OctetsReversed(s: seq<nat>)
    requires IsOctets(s)
    ensures IsOctets(Reversed(s))
  {
  }

  lemma NotStripped(val: seq<nat>)
    requires |val| > 0 && (|val| > 1 ==> val[|val| - 1] != 0)
    ensures Stripped(val) == val
  {
  }

  lemma UintLeafIs(s: seq<nat>, tag: nat, before: nat)
    requires IsOctets(s) && |s| < SizeMax && before != tag && ReadUint(s, tag, before).Found?
    ensures var Found(val, n) := ReadUint(s, tag, before);
            && Announced(UintShape(tag), s, before, n) && Clean(UintShape(tag), s, before)
            && (Valid(UintLeaf(tag, val)) <==> AllUsable(UintShape(tag)))
            && (Valid(UintLeaf(tag, val)) ==> s[..n] == Code(UintLeaf(tag, val)))
  {
    hide ReadTagged, ReadTl, Tlv, Usable, UintVal, Reversed;
    TaggedPlace(s, tag, before);
    TlvCanonical(s, tag, before);
    UintValOf(ReadTagged(s, tag, before).value);
  }

  lemma OctLeafIs(s: seq<nat>, tag: nat, before: nat)
    requires IsOctets(s) && |s| < SizeMax && before != tag && ReadTagged(s, tag, before).Found?
    ensures var Found(v, n) := ReadTagged(s, tag, before);
            && Announced(OctShape(tag), s, before, n) && Clean(OctShape(tag), s, before)
            && (Valid(OctLeaf(tag, v)) <==> AllUsable(OctShape(tag)))
            && (Valid(OctLeaf(tag, v)) ==> s[..n] == Code(OctLeaf(tag, v)))
  {
    hide ReadTagged, ReadTl, Tlv, Usable;
    TaggedPlace(s, tag, before);
    TlvCanonical(s, tag, before);
  }

  lemma OidLeafIs(s: seq<nat>, before: nat)
    requires IsOctets(s) && |s| < SizeMax && before != 6 && Oid.Read(s, before).Found?
    ensures var Found(oid, n) := Oid.Read(s, before);
            && Announced(OidShape, s, before, n) && AllUsable(OidShape)
            && (Valid(OidLeaf(oid)) && s[..n] == Code(OidLeaf(oid)) <==> Clean(OidShape, s, before))
  {
    hide ReadTagged, ReadTl, Tlv, Oid.Sids, Oid.Unpacked, Oid.Dotted, Oid.Parse, Oid.Scan, Oid.Code;
    OneTag(6);
    assert Usable(6);
    TaggedPlace(s, 6, before);
    var p, tail := Oid.ReadCanonical(s, before);
    var Found(oid, n) := Oid.Read(s, before);
    OidClean(s, before, n);
    if Clean(OidShape, s, before) {
      var arcs :| Oid.Fits(arcs) && s[..n] == Oid.Code(arcs);
      Oid.ValueOf(s, n, arcs, before);
      NoTail(p, tail);
      Oid.ParseExact(oid, Oid.Unpacked(p));
    }
    if Valid(OidLeaf(oid)) {
      Oid.ParseExact(oid, Oid.Parse(oid, 0, 0, []).value);
    }
  }

  lemma OidClean(s: seq<nat>, before: nat, n: nat)
    requires ReadTagged(s, 6, before).Found? && n == ReadTagged(s, 6, before).n
    ensures var v := ReadTagged(s, 6, before).value; Clean(OidShape, s, before) <==> |v| > 0 && v[|v| - 1] < 128
  {
    hide ReadTagged, ReadTl;
    TaggedPlace(s, 6, before);
  }

  // Whole numbers and an unfinished one: an unmarked last octet leaves no unfinished one.
  lemma NoTail(p: seq<nat>, tail: seq<nat>)
    requires forall i :: 0 <= i < |tail| ==> tail[i] >= 128
    ensures var v := Oid.Sids(p) + tail; |v| > 0 && v[|v| - 1] < 128 ==> p != [] && tail == []
  {
    hide Oid.Sid;
    if tail != [] {
      var v := Oid.Sids(p) + tail;
      assert v[|v| - 1] == tail[|tail| - 1];
    }
  }

  // ---------------------------------------------------------------- trees

  /** Every code that is accepted announces its own lengths. It is the DER of the tree that is
      read exactly when it is clean, for tags that der.c can write. */
  lemma {:induction false} ReadCanonical(shape: Shape, s: seq<nat>, before: nat)
    requires IsOctets(s) && |s| < SizeMax && Apart(shape, before) && Read(shape, s, before).Found?
    ensures var Found(t, n) := Read(shape, s, before);
            && Announced(shape, s, before, n) && n <= |s| && ShapeOf(t) == shape
            && (Valid(t) && s[..n] == Code(t) <==> AllUsable(shape) && Clean(shape, s, before))
    decreases shape, 1
  {
    hide ReadSize, ReadUint, ReadTagged, Oid.Read, ReadNode, Announced, Clean, Valid, Code, AllUsable, ReadTl;
    match shape
    case SizeShape(tag) => SizeLeafIs(s, tag, before); AnnouncedSize(shape, s, before, Read(shape, s, before).n);
    case UintShape(tag) => UintLeafIs(s, tag, before); AnnouncedSize(shape, s, before, Read(shape, s, before).n);
    case OctShape(tag) => OctLeafIs(s, tag, before); AnnouncedSize(shape, s, before, Read(shape, s, before).n);
    case OidShape => OidLeafIs(s, before); AnnouncedSize(shape, s, before, Read(shape, s, before).n);
    case NodeShape(tag, items) => NodeCanonical(tag, items, s, before);
  }

  lemma AnnouncedSize(shape: Shape, s: seq<nat>, before: nat, n: nat)
    requires Announced(shape, s, before, n)
    ensures n <= |s|
  {
  }

  // The header of a structure: its octets and where they end.
  lemma HeadIs(s: seq<nat>, tag: nat, before: nat)
    requires IsOctets(s) && before != tag && ReadHead(s, tag, before).Some?
    ensures var (len, h) := ReadHead(s, tag, before).value;
            && ReadTl(s, before) == Some((tag, len, h)) && h <= |s| && len < SizeMax
            && s[..h] == TagCode(tag) + LenCode(len)
  {
    hide ReadTag, ReadLen, TagCode, LenCode, Pow2;
    var k := ReadTag(s, before).value.1;
    NothingRead(s, before);
    TagCanonical(s, before);
    LenCanonical(s[k..]);
    var (len, m) := ReadLen(s[k..]).value;
    assert s[..k + m] == s[..k] + s[k..][..m];
  }

  lemma {:induction false} NodeCanonical(tag: nat, items: Shapes, s: seq<nat>, before: nat)
    requires IsOctets(s) && |s| < SizeMax && before != tag && AllApart(items, before) && ReadNode(tag, items, s, before).Found?
    ensures var shape, Found(t, n) := NodeShape(tag, items), ReadNode(tag, items, s, before);
            && Announced(shape, s, before, n) && n <= |s| && ShapeOf(t) == shape
            && (Valid(t) && s[..n] == Code(t) <==> AllUsable(shape) && Clean(shape, s, before))
    decreases items, 1
  {
    hide ReadHead, ReadAll, TagCode, LenCode, Codes, AllValid, ShapesOf, ReadTl, Usable, EachUsable, AllClean, AllAnnounced, Constructive;
    HeadIs(s, tag, before);
    var (len, h) := ReadHead(s, tag, before).value;
    var u := s[h..];
    var Found(f, k) := ReadAll(items, u, before);
    AllCanonical(items, u, before);
    assert |s[..h]| == h;
    assert k == len;
    ReadConstructive(s, tag, before);
    assert s[..h + k] == s[..h] + u[..k];
    if AllUsable(NodeShape(tag, items)) && Clean(NodeShape(tag, items), s, before) {
      assert s[..h + k] == Tlv(tag, Codes(f));
    }
    if Valid(Node(tag, f)) && s[..h + k] == Tlv(tag, Codes(f)) {
      assert s == Tlv(tag, Codes(f)) + s[h + k..];
      HeadReadBack(tag, Codes(f), s[h + k..], before);
      assert u == Codes(f) + s[h + k..];
      assert u[..k] == Codes(f);
    }
  }

  lemma ReadConstructive(s: seq<nat>, tag: nat, before: nat)
    requires ReadHead(s, tag, before).Some?
    ensures Constructive(tag)
  {
    hide ReadTag, ReadLen, TagCode;
  }

  lemma {:induction false} AllCanonical(shapes: Shapes, s: seq<nat>, before: nat)
    requires IsOctets(s) && |s| < SizeMax && AllApart(shapes, before) && ReadAll(shapes, s, before).Found?
    ensures var Found(f, k) := ReadAll(shapes, s, before);
            && AllAnnounced(shapes, s, before, k) && k <= |s| && ShapesOf(f) == shapes
            && (AllValid(f) && s[..k] == Codes(f) <==> EachUsable(shapes) && AllClean(shapes, s, before))
    decreases shapes, 0
  {
    hide Read, Code, Valid, ShapeOf, Clean, AllUsable, ReadTl, Usable;
    if shapes.MoreShapes? {
      var Found(t, n) := Read(shapes.head, s, before);
      ReadCanonical(shapes.head, s, before);
      var u := s[n..];
      AllCanonical(shapes.tail, u, before);
      var Found(f, k) := ReadAll(shapes.tail, u, before);
      AnnouncedPlace(shapes.head, s, before, n);
      AllStep(shapes, s, before, t, f, n, k);
    } else {
      assert s[..0] == [];
    }
  }

  lemma AllStep(shapes: Shapes, s: seq<nat>, before: nat, t: Tree, f: Forest, n: nat, k: nat)
    requires |s| < SizeMax && shapes.MoreShapes? && n + k <= |s|
    requires Read(shapes.head, s, before) == Found(t, n) && ShapeOf(t) == shapes.head
    requires ReadTl(s, before).Some? && n == ReadTl(s, before).value.2 + ReadTl(s, before).value.1
    requires Announced(shapes.head, s, before, n) && AllAnnounced(shapes.tail, s[n..], before, k)
    requires Valid(t) && s[..n] == Code(t) <==> AllUsable(shapes.head) && Clean(shapes.head, s, before)
    requires AllValid(f) && s[n..][..k] == Codes(f) <==> EachUsable(shapes.tail) && AllClean(shapes.tail, s[n..], before)
    ensures AllAnnounced(shapes, s, before, n + k)
    ensures AllValid(Cons(t, f)) && s[..n + k] == Codes(Cons(t, f)) <==> EachUsable(shapes) && AllClean(shapes, s, before)
  {
    hide Read, Code, Valid, ShapeOf, Clean, AllUsable, ReadTl, Announced;
    var u := s[n..];
    assert s[..n + k] == s[..n] + u[..k];
    if Valid(t) && AllValid(f) && s[..n + k] == Code(t) + Codes(f) {
      FirstOfTwo(t, f, s, n + k, before);
      assert s[..n] == (Code(t) + Codes(f))[..n] && u[..k] == (Code(t) + Codes(f))[n..];
    }
  }

  lemma AnnouncedPlace(shape: Shape, s: seq<nat>, before: nat, n: nat)
    requires Announced(shape, s, before, n)
    ensures ReadTl(s, before).Some? && n == ReadTl(s, before).value.2 + ReadTl(s, before).value.1
  {
  }

  // The first item ends where its code ends.
  lemma FirstOfTwo(t: Tree, f: Forest, s: seq<nat>, n: nat, before: nat)
    requires Valid(t) && AllValid(f) && n <= |s| < SizeMax && s[..n] == Code(t) + Codes(f)
    ensures Read(ShapeOf(t), s, before).Found? && Read(ShapeOf(t), s, before).n == |Code(t)|
  {
    hide Read, Code, Codes, Valid, AllValid, ShapeOf, Normal;
    assert s == Code(t) + (Codes(f) + s[n..]);
    ReadBack(t, Codes(f) + s[n..], before);
  }
}
