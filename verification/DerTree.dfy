/** Nested SEQUENCEs: the writer that starts a structure with length 0 and patches it at the
    end, and the reader that checks the length at the end. */
module DerTree {
  import opened Octets
  import opened Der
  import opened PowersOfTwo
  import Mem
  import Oid

  // What a program writes: SIZE, UINT, OCT and OID leaves in nested SEQUENCEs.
  datatype Tree =
    | SizeLeaf(tag: nat, x: nat)
    | UintLeaf(tag: nat, val: seq<nat>)
    | OctLeaf(tag: nat, val: seq<nat>)
    | OidLeaf(oid: string)
    | Node(tag: nat, items: Forest)

  datatype Forest = Nil | Cons(head: Tree, tail: Forest)

  // What a program reads: the same with tags only.
  datatype Shape =
    | SizeShape(tag: nat)
    | UintShape(tag: nat)
    | OctShape(tag: nat)
    | OidShape
    | NodeShape(tag: nat, items: Shapes)

  datatype Shapes = NoShapes | MoreShapes(head: Shape, tail: Shapes)

  function ShapeOf(t: Tree): Shape
  {
    match t
    case SizeLeaf(tag, _) => SizeShape(tag)
    case UintLeaf(tag, _) => UintShape(tag)
    case OctLeaf(tag, _) => OctShape(tag)
    case OidLeaf(_) => OidShape
    case Node(tag, items) => NodeShape(tag, ShapesOf(items))
  }

  function ShapesOf(f: Forest): Shapes
  {
    match f
    case Nil => NoShapes
    case Cons(t, g) => MoreShapes(ShapeOf(t), ShapesOf(g))
  }

  predicate Valid(t: Tree)
  {
    match t
    case SizeLeaf(tag, x) => Usable(tag) && Size(x) <= 8
    case UintLeaf(tag, val) => Usable(tag) && |val| > 0 && IsOctets(val)
    case OctLeaf(tag, val) => Usable(tag)
    case OidLeaf(oid) => Oid.Parse(oid, 0, 0, []).Some?
    case Node(tag, items) => Usable(tag) && Constructive(tag) && AllValid(items)
  }

  predicate AllValid(f: Forest)
  {
    match f
    case Nil => true
    case Cons(t, g) => Valid(t) && AllValid(g)
  }

  // ---------------------------------------------------------------- the DER of a tree

  function OidCode(oid: string): seq<nat>
    requires Oid.Parse(oid, 0, 0, []).Some?
  {
    Oid.ParseExact(oid, Oid.Parse(oid, 0, 0, []).value);
    Oid.Code(Oid.Parse(oid, 0, 0, []).value)
  }

  function Code(t: Tree): seq<nat>
    requires Valid(t)
  {
    match t
    case SizeLeaf(tag, x) => Tlv(tag, SizeVal(x))
    case UintLeaf(tag, val) => Tlv(tag, UintVal(val))
    case OctLeaf(tag, val) => Tlv(tag, val)
    case OidLeaf(oid) => OidCode(oid)
    case Node(tag, items) => Tlv(tag, Codes(items))
  }

  function Codes(f: Forest): seq<nat>
    requires AllValid(f)
  {
    match f
    case Nil => []
    case Cons(t, g) => Code(t) + Codes(g)
  }

  // What is read back: numbers lose their leading zeros.
  function Normal(t: Tree): Tree
    requires Valid(t)
  {
    match t
    case UintLeaf(tag, val) => UintLeaf(tag, Stripped(val))
    case Node(tag, items) => Node(tag, AllNormal(items))
    case _ => t
  }

  function AllNormal(f: Forest): Forest
    requires AllValid(f)
  {
    match f
    case Nil => Nil
    case Cons(t, g) => Cons(Normal(t), AllNormal(g))
  }

  // ---------------------------------------------------------------- writing

  // der_anchor_t: where a structure starts, and the length written there
  datatype Anchor = Anchor(at: nat, tag: nat, len: nat)

  /** derTSEQEncStart */
  method Start(der: array?<nat>, at: nat, tag: nat) returns (anchor: Anchor, n: Option<nat>)
    requires tag < 0x1_0000_0000 && Der.Fits(der, at, |Tlv(tag, [])|)
    modifies der
    ensures n == if ValidTag(tag) && Constructive(tag) then Some(|Tlv(tag, [])|) else None
    ensures n.Some? ==> anchor == Anchor(at, tag, 0) && Wrote(der, at, Tlv(tag, []))
    ensures n.None? && der != null ==> der[..] == old(der[..])
  {
    hide Tlv, ValidTag, Mem.Write, Constructive;
    anchor := Anchor(at, tag, 0);
    var ok := TIsValid(tag);
    if !ok || !Constructive(tag) {
      return anchor, None;
    }
    NineFits(0);
    n := Enc(der, at, tag, []);
  }

  /** derTSEQEncStop: the value v behind an empty header is moved to make room for its real
      length, which is patched in. */
  method Stop(der: array?<nat>, pos: nat, anchor: Anchor, ghost m: seq<nat>, ghost v: seq<nat>)
      returns (shift: Option<nat>)
    requires Usable(anchor.tag) && anchor.len == 0 && |v| < SizeMax
    requires pos == anchor.at + |Tlv(anchor.tag, [])| + |v|
    requires Der.Fits(der, anchor.at, |Tlv(anchor.tag, v)|)
    requires der != null ==> der.Length == |m| && pos <= |m| && der[..] == Mem.Write(m, anchor.at, Tlv(anchor.tag, []) + v)
    modifies der
    ensures shift.Some? && pos + shift.value == anchor.at + |Tlv(anchor.tag, v)|
    ensures der != null ==> der[..] == Mem.Write(m, anchor.at, Tlv(anchor.tag, v))
  {
    hide ValidTag, Mem.Write, Mem.Slice, TagCode, LenCode;
    ghost var t, l0, l := TagCode(anchor.tag), LenCode(0), LenCode(|v|);
    NineFits(0);
    EmptyHeader(anchor.tag, v);
    var t_count := TEnc(null, 0, anchor.tag);
    var l_count := LEnc(null, 0, anchor.len);
    if anchor.at + t_count.value + l_count > pos {
      return None;
    }
    var len: nat := pos - anchor.at - t_count.value - l_count;
    var l_count1 := LEnc(null, 0, len);
    LongerLength(len);
    if der != null {
      Mem.WritePatch(m, anchor.at, t, l0, l, v);
      Mem.Move(der, pos - len + (l_count1 - l_count), pos - len, len);
      var k := LEnc(der, pos - len - l_count, len);
    }
    shift := Some(l_count1 - l_count);
  }

  lemma EmptyHeader(tag: nat, v: seq<nat>)
    ensures Tlv(tag, []) == TagCode(tag) + LenCode(0)
    ensures Tlv(tag, []) + v == TagCode(tag) + LenCode(0) + v
    ensures Tlv(tag, v) == TagCode(tag) + LenCode(|v|) + v
  {
    hide TagCode, LenCode;
  }

  lemma LongerLength(len: nat)
    ensures |LenCode(0)| == 1 <= |LenCode(len)|
  {
  }

  /** Start, the items and Stop write exactly the DER of a tree, and the pass without a buffer
      counts the same octets. */
  method EncTree(der: array?<nat>, at: nat, t: Tree) returns (n: nat)
    requires Valid(t) && |Code(t)| < SizeMax && Der.Fits(der, at, |Code(t)|)
    modifies der
    ensures n == |Code(t)| && Wrote(der, at, Code(t))
    decreases t
  {
    hide Mem.Write, Tlv, ValidTag, SizeVal, UintVal, Pow2;
    match t {
      case SizeLeaf(tag, x) =>
        var r := SizeEnc(der, at, tag, x);
        n := r.value;
      case UintLeaf(tag, val) =>
        UintFits(tag, val);
        var r := UintEnc(der, at, tag, val);
        n := r.value;
      case OctLeaf(tag, val) =>
        TlvLonger(tag, val);
        var r := Enc(der, at, tag, val);
        n := r.value;
      case OidLeaf(oid) =>
        ghost var arcs := Oid.Parse(oid, 0, 0, []).value;
        Oid.ParseExact(oid, arcs);
        var r := Oid.Enc(der, at, oid, arcs);
        n := r.value;
      case Node(tag, items) =>
        n := EncNode(der, at, tag, items);
    }
  }

  method EncNode(der: array?<nat>, at: nat, tag: nat, items: Forest) returns (n: nat)
    requires Usable(tag) && Constructive(tag) && AllValid(items)
    requires |Tlv(tag, Codes(items))| < SizeMax && Der.Fits(der, at, |Tlv(tag, Codes(items))|)
    modifies der
    ensures n == |Tlv(tag, Codes(items))| && Wrote(der, at, Tlv(tag, Codes(items)))
    decreases items, 1
  {
    hide Mem.Write, Tlv, Codes, AllValid, Constructive;
    ghost var v := Codes(items);
    TlvLonger(tag, v);
    ghost var m := if der != null then der[..] else [];
    var anchor, r := Start(der, at, tag);
    n := r.value;
    var k := EncForest(der, at + n, items);
    n := n + k;
    if der != null {
      Mem.WriteAdjacent(m, at, Tlv(tag, []), v);
    }
    var shift := Stop(der, at + n, anchor, m, v);
    n := n + shift.value;
  }

  method EncForest(der: array?<nat>, at: nat, f: Forest) returns (n: nat)
    requires AllValid(f) && |Codes(f)| < SizeMax && Der.Fits(der, at, |Codes(f)|)
    modifies der
    ensures n == |Codes(f)| && Wrote(der, at, Codes(f))
    decreases f, 0
  {
    hide Mem.Write, Code, Valid;
    if f.Nil? {
      n := 0;
      if der != null {
        Mem.WriteNothing(der[..], at);
      }
    } else {
      ghost var m := if der != null then der[..] else [];
      n := EncTree(der, at, f.head);
      var k := EncForest(der, at + n, f.tail);
      if der != null {
        Mem.WriteAdjacent(m, at, Code(f.head), Codes(f.tail));
      }
      n := n + k;
    }
  }

  // A structure is longer than its empty form and than its value.
  lemma TlvLonger(tag: nat, v: seq<nat>)
    ensures |v| + 2 <= |Tlv(tag, v)| && |Tlv(tag, [])| + |v| <= |Tlv(tag, v)|
  {
    hide TagCode;
  }

  lemma UintFits(tag: nat, val: seq<nat>)
    requires |val| > 0
    ensures |UintVal(val)| < |Tlv(tag, UintVal(val))|
  {
    hide TagCode, UintVal;
  }

  // ---------------------------------------------------------------- reading

  // derTSEQDecStart: the length of the value and the octets in front of it
  function ReadHead(s: seq<nat>, tag: nat, before: nat): Option<(nat, nat)>
  {
    if !Constructive(tag) then None
    else
      var t := ReadTag(s, before);
      if t.None? || t.value.0 != tag || t.value.1 > |s| then None
      else
        var l := ReadLen(s[t.value.1..]);
        if l.None? || t.value.1 + l.value.1 > |s| then None
        else Some((l.value.0, t.value.1 + l.value.1))
  }

  // derTSEQDecStop: are pos octets read in all?
  predicate AtEnd(tag: nat, len: nat, pos: nat)
  {
    pos == |TagCode(tag)| + |LenCode(len)| + len
  }

  function Read(shape: Shape, s: seq<nat>, before: nat): Found<Tree>
    decreases shape, 1
  {
    match shape
    case SizeShape(tag) =>
      (match ReadSize(s, tag, before)
       case Bad => Bad
       case Overrun => Overrun
       case Found(x, n) => Found(SizeLeaf(tag, x), n))
    case UintShape(tag) =>
      (match ReadUint(s, tag, before)
       case Bad => Bad
       case Overrun => Overrun
       case Found(x, n) => Found(UintLeaf(tag, x), n))
    case OctShape(tag) =>
      (match ReadTagged(s, tag, before)
       case Bad => Bad
       case Overrun => Overrun
       case Found(x, n) => Found(OctLeaf(tag, x), n))
    case OidShape =>
      (match Oid.Read(s, before)
       case Bad => Bad
       case Overrun => Overrun
       case Found(x, n) => Found(OidLeaf(x), n))
    case NodeShape(tag, items) => ReadNode(tag, items, s, before)
  }

  function ReadNode(tag: nat, items: Shapes, s: seq<nat>, before: nat): Found<Tree>
    decreases items, 1
  {
    var head := ReadHead(s, tag, before);
    if head.None? || head.value.1 > |s| then Bad
    else
      var (len, n) := head.value;
      match ReadAll(items, s[n..], before)
      case Bad => Bad
      case Overrun => Overrun
      case Found(f, k) => if AtEnd(tag, len, n + k) then Found(Node(tag, f), n + k) else Bad
  }

  function ReadAll(shapes: Shapes, s: seq<nat>, before: nat): Found<Forest>
    decreases shapes, 0
  {
    match shapes
    case NoShapes => Found(Nil, 0)
    case MoreShapes(shape, more) =>
      match Read(shape, s, before)
      case Bad => Bad
      case Overrun => Overrun
      case Found(t, n) =>
        if n > |s| then Overrun
        else
          match ReadAll(more, s[n..], before)
          case Bad => Bad
          case Overrun => Overrun
          case Found(f, k) => Found(Cons(t, f), n + k)
  }

  lemma HeadReadBack(tag: nat, v: seq<nat>, rest: seq<nat>, before: nat)
    requires Usable(tag) && Constructive(tag) && |Tlv(tag, v) + rest| < SizeMax
    ensures var n := |TagCode(tag)| + |LenCode(|v|)|;
            && ReadHead(Tlv(tag, v) + rest, tag, before) == Some((|v|, n))
            && (Tlv(tag, v) + rest)[n..] == v + rest && n <= |Tlv(tag, v) + rest|
  {
    hide ReadTag, ReadLen, TagCode, LenCode, Constructive, Usable;
    var h := TagCode(tag) + LenCode(|v|);
    var s := Tlv(tag, v) + rest;
    assert s == h + (v + rest);
    TlReadBack(tag, |v|, v + rest, before);
    assert s[|h|..] == v + rest;
  }

  /** Every tree is read back from its DER, whatever follows. */
  lemma {:induction false} ReadBack(t: Tree, rest: seq<nat>, before: nat)
    requires Valid(t) && |Code(t) + rest| < SizeMax
    ensures Read(ShapeOf(t), Code(t) + rest, before) == Found(Normal(t), |Code(t)|)
    decreases t
  {
    hide ReadSize, ReadUint, ReadTagged, Oid.Read, Tlv, SizeVal, UintVal, Stripped, ReadNode, Codes, AllValid, Constructive, ValidTag, IsOctets;
    match t
    case SizeLeaf(tag, x) => SizeReadBack(tag, x, rest, before);
    case UintLeaf(tag, val) => UintReadBack(tag, val, rest, before);
    case OctLeaf(tag, val) => TlvReadBack(tag, val, rest, before);
    case OidLeaf(oid) =>
      var arcs := Oid.Parse(oid, 0, 0, []).value;
      Oid.ParseExact(oid, arcs);
      Oid.ReadBack(arcs, rest, before);
    case Node(tag, items) => NodeReadBack(tag, items, rest, before);
  }

  lemma {:induction false} NodeReadBack(tag: nat, items: Forest, rest: seq<nat>, before: nat)
    requires Usable(tag) && Constructive(tag) && AllValid(items) && |Tlv(tag, Codes(items)) + rest| < SizeMax
    ensures ReadNode(tag, ShapesOf(items), Tlv(tag, Codes(items)) + rest, before)
            == Found(Node(tag, AllNormal(items)), |Tlv(tag, Codes(items))|)
    decreases items, 1
  {
    hide ReadHead, ReadAll, TagCode, LenCode, Codes, AllNormal, ShapesOf, Constructive, ValidTag;
    var v := Codes(items);
    HeadReadBack(tag, v, rest, before);
    AllReadBack(items, rest, before);
  }

  lemma {:induction false} AllReadBack(f: Forest, rest: seq<nat>, before: nat)
    requires AllValid(f) && |Codes(f) + rest| < SizeMax
    ensures ReadAll(ShapesOf(f), Codes(f) + rest, before) == Found(AllNormal(f), |Codes(f)|)
    decreases f, 0
  {
    hide Read, Code, Normal, ShapeOf, Valid;
    if f.Cons? {
      var s := Codes(f) + rest;
      assert s == Code(f.head) + (Codes(f.tail) + rest);
      ReadBack(f.head, Codes(f.tail) + rest, before);
      AllReadBack(f.tail, rest, before);
      assert s[|Code(f.head)|..] == Codes(f.tail) + rest;
    }
  }

  /** Two trees of one shape with the same code are the same, up to leading zeros. */
  lemma CodeDetermines(t: Tree, u: Tree)
    requires Valid(t) && Valid(u) && ShapeOf(t) == ShapeOf(u) && Code(t) == Code(u) && |Code(t)| < SizeMax
    ensures Normal(t) == Normal(u)
  {
    hide Code, Normal, ShapeOf, Valid, Read;
    assert Code(t) + [] == Code(t);
    ReadBack(t, [], 0);
    ReadBack(u, [], 0);
  }
}
