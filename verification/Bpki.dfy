/** Containers with private keys and partial secrets (bpki.c): PKCS 8 codes encrypted under a
    password, built in overlapping parts of one buffer. */
module Bpki {
  import opened Octets
  import opened Der
  import opened DerTree
  import Mem
  import Oid
  import C = DerCanonical

  datatype Error = BadInput | BadFormat | BadPrivkey | BadSeckey | BadSharekey | BadKeytoken
  datatype Outcome<+T> = Ok(value: T) | Err(error: Error)

  // beltPBKDF2, beltKWPWrap and beltKWPUnwrap
  datatype Cipher = Cipher(
    pbkdf2: (seq<nat>, nat, seq<nat>) -> seq<nat>,
    wrap: (seq<nat>, seq<nat>) -> seq<nat>,
    unwrap: (seq<nat>, seq<nat>) -> Option<seq<nat>>)

  ghost predicate Sound(c: Cipher)
  {
    && (forall k, x :: c.unwrap(k, c.wrap(k, x)) == Some(x))
    && (forall k, x :: |c.wrap(k, x)| == |x| + 16)
  }

  // ---------------------------------------------------------------- identifiers

  const BignPubkey: seq<nat> := [1, 2, 112, 0, 2, 0, 34, 101, 45, 2, 1]
  const BelsShare: seq<nat> := [1, 2, 112, 0, 2, 0, 34, 101, 60, 11]
  const Pbes2: seq<nat> := [1, 2, 840, 113549, 1, 5, 13]
  const Pbkdf2: seq<nat> := [1, 2, 840, 113549, 1, 5, 12]
  const BeltKwp256: seq<nat> := [1, 2, 112, 0, 2, 0, 34, 101, 31, 73]
  const HmacHbelt: seq<nat> := [1, 2, 112, 0, 2, 0, 34, 101, 47, 12]

  function BignCurve(i: nat): seq<nat>
  {
    [1, 2, 112, 0, 2, 0, 34, 101, 45, 3, i]
  }

  function BelsM0(i: nat): seq<nat>
  {
    [1, 2, 112, 0, 2, 0, 34, 101, 60, 2, i]
  }

  datatype Kind = Privkey | Share

  function Algorithm(kind: Kind): (a: seq<nat>)
    ensures |a| > 0
  {
    if kind.Privkey? then BignPubkey else BelsShare
  }

  // The parameters that the length of a key stands for.
  function Params(kind: Kind, len: nat): Option<seq<nat>>
  {
    if kind.Privkey? then
      if len == 24 then Some(BignCurve(0)) else if len == 32 then Some(BignCurve(1))
      else if len == 48 then Some(BignCurve(2)) else if len == 64 then Some(BignCurve(3)) else None
    else
      if len == 17 then Some(BelsM0(1)) else if len == 25 then Some(BelsM0(2))
      else if len == 33 then Some(BelsM0(3)) else None
  }

  lemma ParamsLengths(kind: Kind, len: nat)
    ensures Params(kind, len).Some? <==> if kind.Privkey? then len in {24, 32, 48, 64} else len in {17, 25, 33}
  {
  }

  // The length of the key that an identifier of parameters stands for.
  function KeyLen(kind: Kind, oid: string): Option<nat>
  {
    if kind.Privkey? then
      if oid == Oid.Dotted(BignCurve(0)) then Some(24) else if oid == Oid.Dotted(BignCurve(1)) then Some(32)
      else if oid == Oid.Dotted(BignCurve(2)) then Some(48) else if oid == Oid.Dotted(BignCurve(3)) then Some(64)
      else None
    else
      if oid == Oid.Dotted(BelsM0(1)) then Some(17) else if oid == Oid.Dotted(BelsM0(2)) then Some(25)
      else if oid == Oid.Dotted(BelsM0(3)) then Some(33) else None
  }

  lemma OidValid(arcs: seq<nat>)
    requires Oid.Fits(arcs)
    ensures Oid.Parse(Oid.Dotted(arcs), 0, 0, []) == Some(arcs)
  {
    Oid.ParseExact(Oid.Dotted(arcs), arcs);
  }

  lemma OidInjective(a: seq<nat>, b: seq<nat>)
    requires Oid.Fits(a) && Oid.Fits(b) && Oid.Dotted(a) == Oid.Dotted(b)
    ensures a == b
  {
    OidValid(a);
    OidValid(b);
  }

  lemma ConstantsFit()
    ensures Oid.Fits(BignPubkey) && Oid.Fits(BelsShare) && Oid.Fits(Pbes2) && Oid.Fits(Pbkdf2)
    ensures Oid.Fits(BeltKwp256) && Oid.Fits(HmacHbelt)
  {
  }

  lemma ParamsFit(i: nat)
    requires i < 4
    ensures Oid.Fits(BignCurve(i)) && Oid.Fits(BelsM0(i))
  {
  }

  lemma DifferentParams(i: nat, j: nat)
    requires i < 4 && j < 4 && i != j
    ensures Oid.Dotted(BignCurve(i)) != Oid.Dotted(BignCurve(j)) && Oid.Dotted(BelsM0(i)) != Oid.Dotted(BelsM0(j))
  {
    ParamsFit(i);
    ParamsFit(j);
    assert BignCurve(i)[10] == i && BignCurve(j)[10] == j && BelsM0(i)[10] == i && BelsM0(j)[10] == j;
    if Oid.Dotted(BignCurve(i)) == Oid.Dotted(BignCurve(j)) {
      OidInjective(BignCurve(i), BignCurve(j));
    }
    if Oid.Dotted(BelsM0(i)) == Oid.Dotted(BelsM0(j)) {
      OidInjective(BelsM0(i), BelsM0(j));
    }
  }

  lemma ParamsKeyLen(kind: Kind, len: nat)
    requires Params(kind, len).Some?
    ensures |Params(kind, len).value| > 0 && Oid.Fits(Params(kind, len).value)
    ensures KeyLen(kind, Oid.Dotted(Params(kind, len).value)) == Some(len)
  {
    hide BignCurve, BelsM0, Oid.Dotted, Oid.Fits;
    ParamsFit(0);
    ParamsFit(1);
    ParamsFit(2);
    ParamsFit(3);
    DifferentParams(0, 1);
    DifferentParams(0, 2);
    DifferentParams(0, 3);
    DifferentParams(1, 2);
    DifferentParams(1, 3);
    DifferentParams(2, 3);
  }

  // ---------------------------------------------------------------- the codes

  function OidOf(arcs: seq<nat>): Tree
    requires |arcs| > 0
  {
    OidLeaf(Oid.Dotted(arcs))
  }

  function Two(a: Tree, b: Tree): Tree
  {
    Node(0x30, Cons(a, Cons(b, Nil)))
  }

  // PrivateKeyInfo, as bpkiPrivkeyEnc and bpkiShareEnc write it
  function KeyTree(algorithm: seq<nat>, params: seq<nat>, key: seq<nat>): Tree
    requires |algorithm| > 0 && |params| > 0
  {
    Node(0x30, Cons(SizeLeaf(2, 0), Cons(Two(OidOf(algorithm), OidOf(params)), Cons(OctLeaf(4, key), Nil))))
  }

  // The algorithms of EncryptedPrivateKeyInfo, as bpkiEdataEnc writes them
  function DerivationTree(salt: seq<nat>, iter: nat): Tree
  {
    Node(0x30, Cons(OctLeaf(4, salt), Cons(SizeLeaf(2, iter), Cons(Two(OidOf(HmacHbelt), OctLeaf(5, [])), Nil))))
  }

  function AlgTree(salt: seq<nat>, iter: nat): Tree
  {
    Two(OidOf(Pbes2),
        Two(Two(OidOf(Pbkdf2), DerivationTree(salt, iter)),
            Two(OidOf(BeltKwp256), OctLeaf(5, []))))
  }

  function DataTree(edata: seq<nat>, salt: seq<nat>, iter: nat): Tree
  {
    Two(AlgTree(salt, iter), OctLeaf(4, edata))
  }

  lemma Tags()
    ensures Usable(0x30) && Constructive(0x30) && Usable(4) && Usable(5) && Usable(2)
  {
    OneTag(0x30);
  }

  lemma TwoValid(a: Tree, b: Tree)
    requires Valid(a) && Valid(b)
    ensures Valid(Two(a, b)) && Normal(Two(a, b)) == Two(Normal(a), Normal(b))
    ensures Code(Two(a, b)) == Tlv(0x30, Code(a) + Code(b))
  {
    hide Valid, Code, Tlv;
    Tags();
    OneMore(b, Nil);
    OneMore(a, Cons(b, Nil));
    NodeValid(Cons(a, Cons(b, Nil)));
    assert Code(b) + [] == Code(b);
    assert Codes(Nil) == [];
  }

  lemma OneMore(t: Tree, f: Forest)
    requires Valid(t) && AllValid(f)
    ensures AllValid(Cons(t, f)) && Codes(Cons(t, f)) == Code(t) + Codes(f)
    ensures AllNormal(Cons(t, f)) == Cons(Normal(t), AllNormal(f))
  {
    hide Valid, Code, Normal;
  }

  lemma NodeValid(f: Forest)
    requires AllValid(f)
    ensures Valid(Node(0x30, f)) && Code(Node(0x30, f)) == Tlv(0x30, Codes(f))
    ensures Normal(Node(0x30, f)) == Node(0x30, AllNormal(f))
  {
    hide AllValid, Codes, AllNormal, Tlv;
    Tags();
  }

  lemma OidLeafValid(arcs: seq<nat>)
    requires Oid.Fits(arcs)
    ensures Valid(OidOf(arcs)) && Normal(OidOf(arcs)) == OidOf(arcs)
  {
    OidValid(arcs);
  }

  lemma LeavesValid(v: seq<nat>, x: nat)
    requires Size(x) <= 8
    ensures Valid(OctLeaf(4, v)) && Normal(OctLeaf(4, v)) == OctLeaf(4, v) && Code(OctLeaf(4, v)) == Tlv(4, v)
    ensures Valid(OctLeaf(5, [])) && Normal(OctLeaf(5, [])) == OctLeaf(5, [])
    ensures Valid(SizeLeaf(2, x)) && Normal(SizeLeaf(2, x)) == SizeLeaf(2, x)
  {
    hide Tlv, SizeVal, Size;
    Tags();
  }

  lemma ThreeValid(a: Tree, b: Tree, c: Tree)
    requires Valid(a) && Valid(b) && Valid(c)
    ensures var f := Cons(a, Cons(b, Cons(c, Nil)));
            && Valid(Node(0x30, f))
            && Normal(Node(0x30, f)) == Node(0x30, Cons(Normal(a), Cons(Normal(b), Cons(Normal(c), Nil))))
  {
    hide Valid, Code, Tlv, Normal;
    OneMore(c, Nil);
    OneMore(b, Cons(c, Nil));
    OneMore(a, Cons(b, Cons(c, Nil)));
    NodeValid(Cons(a, Cons(b, Cons(c, Nil))));
  }

  lemma KeyTreeValid(algorithm: seq<nat>, params: seq<nat>, key: seq<nat>)
    requires Oid.Fits(algorithm) && Oid.Fits(params)
    ensures var t := KeyTree(algorithm, params, key); Valid(t) && Normal(t) == t
  {
    hide Valid, Normal, Code, Tlv;
    OidLeafValid(algorithm);
    OidLeafValid(params);
    LeavesValid(key, 0);
    TwoValid(OidOf(algorithm), OidOf(params));
    ThreeValid(SizeLeaf(2, 0), Two(OidOf(algorithm), OidOf(params)), OctLeaf(4, key));
  }

  lemma AlgTreeValid(salt: seq<nat>, iter: nat)
    requires Size(iter) <= 8
    ensures var t := AlgTree(salt, iter); Valid(t) && Normal(t) == t
  {
    hide Valid, Normal, Code, Tlv, Size;
    ConstantsFit();
    OidLeafValid(Pbes2);
    OidLeafValid(Pbkdf2);
    OidLeafValid(BeltKwp256);
    OidLeafValid(HmacHbelt);
    LeavesValid(salt, iter);
    TwoValid(OidOf(HmacHbelt), OctLeaf(5, []));
    ThreeValid(OctLeaf(4, salt), SizeLeaf(2, iter), Two(OidOf(HmacHbelt), OctLeaf(5, [])));
    TwoValid(OidOf(Pbkdf2), DerivationTree(salt, iter));
    TwoValid(OidOf(BeltKwp256), OctLeaf(5, []));
    TwoValid(Two(OidOf(Pbkdf2), DerivationTree(salt, iter)), Two(OidOf(BeltKwp256), OctLeaf(5, [])));
    TwoValid(OidOf(Pbes2), Two(Two(OidOf(Pbkdf2), DerivationTree(salt, iter)), Two(OidOf(BeltKwp256), OctLeaf(5, []))));
  }

  lemma DataTreeValid(edata: seq<nat>, salt: seq<nat>, iter: nat)
    requires Size(iter) <= 8
    ensures var t := DataTree(edata, salt, iter);
            && Valid(t) && Normal(t) == t && Valid(AlgTree(salt, iter))
            && Code(t) == Tlv(0x30, Code(AlgTree(salt, iter)) + Tlv(4, edata))
  {
    hide Valid, Normal, Code, Tlv, AlgTree, Size;
    AlgTreeValid(salt, iter);
    LeavesValid(edata, 0);
    TwoValid(AlgTree(salt, iter), OctLeaf(4, edata));
  }

  // ---------------------------------------------------------------- reading the codes

  // bpkiPrivkeyDec, bpkiShareDec: the key and the length of the code
  function ReadKey(kind: Kind, s: seq<nat>, before: nat): Option<(seq<nat>, nat)>
  {
    match Read(ShapeOf(KeyTree(BignPubkey, BignPubkey, [])), s, before)
    case Found(Node(_, Cons(SizeLeaf(_, version), Cons(Node(_, Cons(OidLeaf(a), Cons(OidLeaf(p), Nil))), Cons(OctLeaf(_, key), Nil)))), n) =>
      if version != 0 || a != Oid.Dotted(Algorithm(kind)) || KeyLen(kind, p) != Some(|key|) then None
      else Some((key, n))
    case _ => None
  }

  // bpkiEdataDec: the data, the salt, the number of iterations and the length of the code
  function ReadData(s: seq<nat>, before: nat): Option<(seq<nat>, seq<nat>, nat, nat)>
  {
    match Read(ShapeOf(DataTree([], [], 0)), s, before)
    case Found(Node(_, Cons(alg, Cons(OctLeaf(_, edata), Nil))), n) =>
      (match alg
       case Node(_, Cons(_, Cons(Node(_, Cons(Node(_, Cons(_, Cons(Node(_, Cons(OctLeaf(_, salt), Cons(SizeLeaf(_, iter), _))), Nil))), _)), Nil))) =>
         // every identifier, every NULL and the length of the salt are compared
         if alg != AlgTree(salt, iter) || |salt| != 8 then None else Some((edata, salt, iter, n))
       case _ => None)
    case _ => None
  }

  lemma SameShape(a: seq<nat>, p: seq<nat>, key: seq<nat>)
    requires |a| > 0 && |p| > 0
    ensures ShapeOf(KeyTree(a, p, key)) == ShapeOf(KeyTree(BignPubkey, BignPubkey, []))
  {
    hide Oid.Dotted;
    ShapeTwo(OidOf(a), OidOf(p));
    ShapeTwo(OidOf(BignPubkey), OidOf(BignPubkey));
    ShapeThree(SizeLeaf(2, 0), Two(OidOf(a), OidOf(p)), OctLeaf(4, key));
    ShapeThree(SizeLeaf(2, 0), Two(OidOf(BignPubkey), OidOf(BignPubkey)), OctLeaf(4, []));
  }

  lemma ShapeTwo(a: Tree, b: Tree)
    ensures ShapeOf(Two(a, b)) == NodeShape(0x30, MoreShapes(ShapeOf(a), MoreShapes(ShapeOf(b), NoShapes)))
  {
    assert ShapesOf(Cons(b, Nil)) == MoreShapes(ShapeOf(b), ShapesOf(Nil));
  }

  lemma ShapeThree(a: Tree, b: Tree, c: Tree)
    ensures ShapeOf(Node(0x30, Cons(a, Cons(b, Cons(c, Nil)))))
            == NodeShape(0x30, MoreShapes(ShapeOf(a), MoreShapes(ShapeOf(b), MoreShapes(ShapeOf(c), NoShapes))))
  {
    assert ShapesOf(Cons(c, Nil)) == MoreShapes(ShapeOf(c), ShapesOf(Nil));
    assert ShapesOf(Cons(b, Cons(c, Nil))) == MoreShapes(ShapeOf(b), ShapesOf(Cons(c, Nil)));
  }

  lemma SameDataShape(edata: seq<nat>, salt: seq<nat>, iter: nat)
    ensures ShapeOf(DataTree(edata, salt, iter)) == ShapeOf(DataTree([], [], 0))
  {
    hide ShapeOf, Oid.Dotted;
    SameAlgShape(salt, iter);
    ShapeTwo(AlgTree(salt, iter), OctLeaf(4, edata));
    ShapeTwo(AlgTree([], 0), OctLeaf(4, []));
    LeafShapes(edata, 0);
    LeafShapes([], 0);
  }

  lemma LeafShapes(v: seq<nat>, x: nat)
    ensures ShapeOf(OctLeaf(4, v)) == OctShape(4) && ShapeOf(SizeLeaf(2, x)) == SizeShape(2)
  {
  }

  lemma SameAlgShape(salt: seq<nat>, iter: nat)
    ensures ShapeOf(AlgTree(salt, iter)) == ShapeOf(AlgTree([], 0))
  {
    hide ShapeOf, Oid.Dotted;
    LeafShapes(salt, iter);
    LeafShapes([], 0);
    var h, k := Two(OidOf(HmacHbelt), OctLeaf(5, [])), Two(OidOf(BeltKwp256), OctLeaf(5, []));
    ShapeThree(OctLeaf(4, salt), SizeLeaf(2, iter), h);
    ShapeThree(OctLeaf(4, []), SizeLeaf(2, 0), h);
    var d, e := DerivationTree(salt, iter), DerivationTree([], 0);
    ShapeTwo(OidOf(Pbkdf2), d);
    ShapeTwo(OidOf(Pbkdf2), e);
    ShapeTwo(Two(OidOf(Pbkdf2), d), k);
    ShapeTwo(Two(OidOf(Pbkdf2), e), k);
    ShapeTwo(OidOf(Pbes2), Two(Two(OidOf(Pbkdf2), d), k));
    ShapeTwo(OidOf(Pbes2), Two(Two(OidOf(Pbkdf2), e), k));
  }

  lemma KeyReadBack(kind: Kind, key: seq<nat>, before: nat)
    requires Params(kind, |key|).Some?
    ensures var t := KeyTree(Algorithm(kind), Params(kind, |key|).value, key);
            Valid(t) && (|Code(t)| < SizeMax ==> ReadKey(kind, Code(t), before) == Some((key, |Code(t)|)))
  {
    hide Valid, Code, Normal, Read, ShapeOf, Oid.Dotted, KeyLen, Params, Oid.Fits;
    ConstantsFit();
    ParamsKeyLen(kind, |key|);
    var t := KeyTree(Algorithm(kind), Params(kind, |key|).value, key);
    KeyTreeValid(Algorithm(kind), Params(kind, |key|).value, key);
    if |Code(t)| < SizeMax {
      assert Code(t) + [] == Code(t);
      ReadBack(t, [], before);
      SameShape(Algorithm(kind), Params(kind, |key|).value, key);
    }
  }

  lemma DataReadBack(edata: seq<nat>, salt: seq<nat>, iter: nat, before: nat)
    requires Size(iter) <= 8 && |salt| == 8
    ensures var t := DataTree(edata, salt, iter);
            Valid(t) && (|Code(t)| < SizeMax ==> ReadData(Code(t), before) == Some((edata, salt, iter, |Code(t)|)))
  {
    hide Valid, Code, ReadData, DataTree, Size;
    DataTreeValid(edata, salt, iter);
    var t := DataTree(edata, salt, iter);
    if |Code(t)| < SizeMax {
      assert Code(t) + [] == Code(t);
      DataReadBehind(edata, salt, iter, [], before);
    }
  }

  lemma DataReadBehind(edata: seq<nat>, salt: seq<nat>, iter: nat, rest: seq<nat>, before: nat)
    requires Size(iter) <= 8 && |salt| == 8
    ensures var t := DataTree(edata, salt, iter);
            Valid(t) && (|Code(t) + rest| < SizeMax ==>
                           ReadData(Code(t) + rest, before) == Some((edata, salt, iter, |Code(t)|)))
  {
    hide Valid, Code, Normal, Read, ShapeOf, Oid.Dotted, Size;
    DataTreeValid(edata, salt, iter);
    var t := DataTree(edata, salt, iter);
    if |Code(t) + rest| < SizeMax {
      ReadBack(t, rest, before);
      SameDataShape(edata, salt, iter);
    }
  }

  // ---------------------------------------------------------------- which codes are accepted

  // None of the tags in the containers.
  predicate Apart(before: nat)
  {
    before != 2 && before != 4 && before != 5 && before != 6 && before != 0x30
  }

  const KeyShape: Shape := ShapeOf(KeyTree(BignPubkey, BignPubkey, []))
  const DataShape: Shape := ShapeOf(DataTree([], [], 0))

  lemma ShapesApart(before: nat)
    requires Apart(before)
    ensures C.Apart(KeyShape, before) && C.Apart(DataShape, before)
    ensures C.AllUsable(KeyShape) && C.AllUsable(DataShape)
  {
    hide Oid.Dotted, Usable;
    Tags();
    OidTag();
    var oid, none := OidShape, OctShape(5);
    ShapePair(oid, oid, before);
    ShapePair(oid, none, before);
    ShapeTriple(SizeShape(2), Pair(oid, oid), OctShape(4), before);
    ShapeTriple(OctShape(4), SizeShape(2), Pair(oid, none), before);
    var derivation := Triple(OctShape(4), SizeShape(2), Pair(oid, none));
    ShapePair(oid, derivation, before);
    ShapePair(Pair(oid, derivation), Pair(oid, none), before);
    ShapePair(oid, Pair(Pair(oid, derivation), Pair(oid, none)), before);
    ShapePair(Pair(oid, Pair(Pair(oid, derivation), Pair(oid, none))), OctShape(4), before);
    KeyShapeIs();
    DataShapeIs();
  }

  lemma OidTag()
    ensures Usable(6)
  {
    OneTag(6);
  }

  function Pair(a: Shape, b: Shape): Shape
  {
    NodeShape(0x30, MoreShapes(a, MoreShapes(b, NoShapes)))
  }

  function Triple(a: Shape, b: Shape, c: Shape): Shape
  {
    NodeShape(0x30, MoreShapes(a, MoreShapes(b, MoreShapes(c, NoShapes))))
  }

  lemma DataShapeIs()
    ensures var oid, none := OidShape, OctShape(5);
            DataShape == Pair(Pair(oid, Pair(Pair(oid, Triple(OctShape(4), SizeShape(2), Pair(oid, none))), Pair(oid, none))), OctShape(4))
  {
    hide ShapeOf, Oid.Dotted;
    LeafShapes([], 0);
    var h, k := Two(OidOf(HmacHbelt), OctLeaf(5, [])), Two(OidOf(BeltKwp256), OctLeaf(5, []));
    var d := DerivationTree([], 0);
    OidShapes();
    ShapeTwo(OidOf(HmacHbelt), OctLeaf(5, []));
    ShapeTwo(OidOf(BeltKwp256), OctLeaf(5, []));
    ShapeThree(OctLeaf(4, []), SizeLeaf(2, 0), h);
    ShapeTwo(OidOf(Pbkdf2), d);
    ShapeTwo(Two(OidOf(Pbkdf2), d), k);
    ShapeTwo(OidOf(Pbes2), Two(Two(OidOf(Pbkdf2), d), k));
    ShapeTwo(AlgTree([], 0), OctLeaf(4, []));
  }

  lemma OidShapes()
    ensures ShapeOf(OidOf(Pbes2)) == ShapeOf(OidOf(Pbkdf2)) == ShapeOf(OidOf(BeltKwp256)) == ShapeOf(OidOf(HmacHbelt)) == OidShape
    ensures ShapeOf(OctLeaf(5, [])) == OctShape(5)
  {
    hide Oid.Dotted;
  }

  lemma ShapePair(a: Shape, b: Shape, before: nat)
    requires Apart(before) && C.Apart(a, before) && C.Apart(b, before) && C.AllUsable(a) && C.AllUsable(b)
    ensures C.Apart(Pair(a, b), before) && C.AllUsable(Pair(a, b))
  {
    hide Usable;
    Tags();
    assert C.AllApart(MoreShapes(b, NoShapes), before) && C.EachUsable(MoreShapes(b, NoShapes));
    assert C.AllApart(MoreShapes(a, MoreShapes(b, NoShapes)), before) && C.EachUsable(MoreShapes(a, MoreShapes(b, NoShapes)));
  }

  lemma ShapeTriple(a: Shape, b: Shape, c: Shape, before: nat)
    requires Apart(before) && C.Apart(a, before) && C.Apart(b, before) && C.Apart(c, before)
    requires C.AllUsable(a) && C.AllUsable(b) && C.AllUsable(c)
    ensures C.Apart(Triple(a, b, c), before) && C.AllUsable(Triple(a, b, c))
  {
    hide Usable;
    Tags();
    var l := MoreShapes(c, NoShapes);
    assert C.AllApart(l, before) && C.EachUsable(l);
    var m := MoreShapes(b, l);
    assert C.AllApart(m, before) && C.EachUsable(m);
    assert C.AllApart(MoreShapes(a, m), before) && C.EachUsable(MoreShapes(a, m));
  }

  /** What bpkiPrivkeyDec and bpkiShareDec accept: a code that announces its own lengths, for the
      algorithm of this kind and parameters that fit the length of the key. It is the DER that
      the writer makes exactly when it is clean. */
  lemma KeyCanonical(kind: Kind, s: seq<nat>, before: nat)
    requires IsOctets(s) && |s| < SizeMax && Apart(before) && ReadKey(kind, s, before).Some?
    ensures var (key, n) := ReadKey(kind, s, before).value;
            && n <= |s| && C.Announced(KeyShape, s, before, n) && Params(kind, |key|).Some?
            && |Params(kind, |key|).value| > 0
            && var t := KeyTree(Algorithm(kind), Params(kind, |key|).value, key);
               Valid(t) && (s[..n] == Code(t) <==> C.Clean(KeyShape, s, before))
  {
    hide Read, Valid, Code, ShapeOf, C.Announced, C.Clean, C.AllUsable, C.Apart, Oid.Dotted, KeyLen, Params, Oid.Fits;
    ShapesApart(before);
    C.ReadCanonical(KeyShape, s, before);
    var (key, n) := ReadKey(kind, s, before).value;
    var Found(t, _) := Read(KeyShape, s, before);
    TagsOfKey(t);
    KeyLenParams(kind, t.items.tail.head.items.tail.head.oid, |key|);
    ConstantsFit();
    KeyTreeValid(Algorithm(kind), Params(kind, |key|).value, key);
  }

  // The trees of a shape.
  lemma PairTree(t: Tree, a: Shape, b: Shape)
    requires ShapeOf(t) == Pair(a, b)
    ensures t.Node? && t.tag == 0x30 && t.items.Cons? && ShapeOf(t.items.head) == a
    ensures t.items.tail.Cons? && ShapeOf(t.items.tail.head) == b && t.items.tail.tail.Nil?
  {
    var f := t.items;
    assert ShapesOf(f) == MoreShapes(a, MoreShapes(b, NoShapes));
    assert ShapesOf(f.tail) == MoreShapes(b, NoShapes);
    assert ShapesOf(f.tail.tail) == NoShapes;
  }

  lemma TripleTree(t: Tree, a: Shape, b: Shape, c: Shape)
    requires ShapeOf(t) == Triple(a, b, c)
    ensures t.Node? && t.tag == 0x30 && t.items.Cons? && ShapeOf(t.items.head) == a
    ensures t.items.tail.Cons? && ShapeOf(t.items.tail.head) == b
    ensures t.items.tail.tail.Cons? && ShapeOf(t.items.tail.tail.head) == c && t.items.tail.tail.tail.Nil?
  {
    var f := t.items;
    assert ShapesOf(f) == MoreShapes(a, MoreShapes(b, MoreShapes(c, NoShapes)));
    assert ShapesOf(f.tail) == MoreShapes(b, MoreShapes(c, NoShapes));
    assert ShapesOf(f.tail.tail) == MoreShapes(c, NoShapes);
    assert ShapesOf(f.tail.tail.tail) == NoShapes;
  }

  lemma LeafTree(t: Tree)
    ensures ShapeOf(t).SizeShape? ==> t.SizeLeaf? && t.tag == ShapeOf(t).tag
    ensures ShapeOf(t).OctShape? ==> t.OctLeaf? && t.tag == ShapeOf(t).tag
    ensures ShapeOf(t).OidShape? ==> t.OidLeaf?
  {
  }

  // The tags in a tree of the shape.
  lemma TagsOfKey(t: Tree)
    requires ShapeOf(t) == KeyShape
    ensures match t
            case Node(a, Cons(SizeLeaf(b, _), Cons(Node(c, Cons(OidLeaf(_), Cons(OidLeaf(_), Nil))), Cons(OctLeaf(d, _), Nil)))) =>
              a == 0x30 && b == 2 && c == 0x30 && d == 4
            case _ => false
  {
    hide ShapeOf, ShapesOf;
    KeyShapeIs();
    TripleTree(t, SizeShape(2), Pair(OidShape, OidShape), OctShape(4));
    var f := t.items;
    LeafTree(f.head);
    PairTree(f.tail.head, OidShape, OidShape);
    LeafTree(f.tail.head.items.head);
    LeafTree(f.tail.head.items.tail.head);
    LeafTree(f.tail.tail.head);
  }

  lemma KeyShapeIs()
    ensures KeyShape == Triple(SizeShape(2), Pair(OidShape, OidShape), OctShape(4))
  {
    hide Oid.Dotted;
  }

  lemma KeyLenParams(kind: Kind, oid: string, len: nat)
    requires KeyLen(kind, oid) == Some(len)
    ensures Params(kind, len).Some? && |Params(kind, len).value| > 0 && Oid.Fits(Params(kind, len).value)
    ensures oid == Oid.Dotted(Params(kind, len).value)
  {
    hide BignCurve, BelsM0, Oid.Dotted, Oid.Fits;
    ParamsFit(0);
    ParamsFit(1);
    ParamsFit(2);
    ParamsFit(3);
    ParamsLong();
  }

  lemma ParamsLong()
    ensures forall i :: 0 <= i ==> |BignCurve(i)| == 11 && |BelsM0(i)| == 11
  {
  }

  /** What bpkiEdataDec accepts, in the same way. */
  lemma DataCanonical(s: seq<nat>, before: nat)
    requires IsOctets(s) && |s| < SizeMax && Apart(before) && ReadData(s, before).Some?
    ensures var (edata, salt, iter, n) := ReadData(s, before).value;
            && n <= |s| && C.Announced(DataShape, s, before, n) && |salt| == 8
            && var t := DataTree(edata, salt, iter);
               (Valid(t) && s[..n] == Code(t) <==> C.Clean(DataShape, s, before))
  {
    hide Read, Valid, Code, ShapeOf, C.Announced, C.Clean, C.AllUsable, C.Apart, DataTree, ReadData;
    ShapesApart(before);
    ReadDataFound(s, before);
    C.ReadCanonical(DataShape, s, before);
    DataRead(s, before);
  }

  lemma ReadDataFound(s: seq<nat>, before: nat)
    requires ReadData(s, before).Some?
    ensures Read(DataShape, s, before).Found? && Read(DataShape, s, before).n == ReadData(s, before).value.3
    ensures |ReadData(s, before).value.1| == 8
  {
    hide Read, AlgTree, ShapeOf;
  }

  // What the reader has compared.
  lemma DataRead(s: seq<nat>, before: nat)
    requires ReadData(s, before).Some? && Read(DataShape, s, before).Found? && ShapeOf(Read(DataShape, s, before).value) == DataShape
    ensures var (edata, salt, iter, _) := ReadData(s, before).value;
            Read(DataShape, s, before).value == DataTree(edata, salt, iter)
  {
    hide Read, AlgTree, ShapeOf;
    TagsOfData(Read(DataShape, s, before).value);
  }

  lemma TagsOfData(t: Tree)
    requires ShapeOf(t) == DataShape
    ensures match t
            case Node(a, Cons(_, Cons(OctLeaf(b, _), Nil))) => a == 0x30 && b == 4
            case _ => false
  {
    hide ShapeOf, ShapesOf;
    DataShapeIs();
    PairTree(t, DataShape.items.head, OctShape(4));
    LeafTree(t.items.tail.head);
  }

  // ---------------------------------------------------------------- the container

  // How long the parts are: the key code and the whole container.
  function KeyCode(kind: Kind, key: seq<nat>): (s: seq<nat>)
    requires Params(kind, |key|).Some?
  {
    KeyReadBack(kind, key, 0);
    ParamsKeyLen(kind, |key|);
    Code(KeyTree(Algorithm(kind), Params(kind, |key|).value, key))
  }

  function DataCode(edata: seq<nat>, salt: seq<nat>, iter: nat): (s: seq<nat>)
    requires Size(iter) <= 8 && |salt| == 8
  {
    DataReadBack(edata, salt, iter, 0);
    Code(DataTree(edata, salt, iter))
  }

  // The length of the container does not depend on what is encrypted.
  lemma DataCodeLength(a: seq<nat>, b: seq<nat>, salt: seq<nat>, iter: nat)
    requires Size(iter) <= 8 && |salt| == 8 && |a| == |b|
    ensures |DataCode(a, salt, iter)| == |DataCode(b, salt, iter)|
  {
    hide TagCode, LenCode, AlgTree, Valid, Code, Size;
    DataTreeValid(a, salt, iter);
    DataTreeValid(b, salt, iter);
  }

  /** bpkiEdataEnc, where the data lies at the end of the same buffer: what is written in front
      of it never reaches it. */
  method EdataEnc(epki: array<nat>, from: nat, len: nat, salt: seq<nat>, iter: nat) returns (n: nat)
    requires Size(iter) <= 8 && |salt| == 8 && from + len <= epki.Length
    requires var code := DataCode(Mem.Slice(epki[..], from, len), salt, iter);
             |code| < SizeMax && from + len == |code|
    modifies epki
    ensures var code := DataCode(Mem.Slice(old(epki[..]), from, len), salt, iter);
            n == |code| && epki[..] == Mem.Write(old(epki[..]), 0, code)
  {
    hide TagCode, LenCode, AlgTree, Valid, Code, Mem.Write, Mem.Slice, Size, ValidTag, Constructive;
    ghost var m := epki[..];
    ghost var edata := Mem.Slice(m, from, len);
    ghost var a := AlgTree(salt, iter);
    DataTreeValid(edata, salt, iter);
    DataParts(edata, salt, iter);
    Tags();
    var anchor, r := Start(epki, 0, 0x30);
    n := r.value;
    var k := EncTree(epki, n, AlgTree(salt, iter));
    Mem.WriteAdjacent(m, 0, Tlv(0x30, []), Code(a));
    n := n + k;
    // the data is still there
    Mem.SliceKept(m, 0, Tlv(0x30, []) + Code(a), from, len);
    k := EncMove(epki, n, 4, from, len);
    Mem.WriteAdjacent(m, 0, Tlv(0x30, []) + Code(a), Tlv(4, edata));
    n := n + k;
    assert Tlv(0x30, []) + Code(a) + Tlv(4, edata) == Tlv(0x30, []) + (Code(a) + Tlv(4, edata));
    var shift := Stop(epki, n, anchor, m, Code(a) + Tlv(4, edata));
    n := n + shift.value;
  }

  // The header and the algorithms end in front of the data, whatever the header's length.
  lemma DataParts(edata: seq<nat>, salt: seq<nat>, iter: nat)
    requires Size(iter) <= 8 && |salt| == 8
    ensures Valid(AlgTree(salt, iter))
    ensures var a, code := Code(AlgTree(salt, iter)), DataCode(edata, salt, iter);
            && |Tlv(0x30, [])| + |a| + |edata| <= |code|
            && |a| + |Tlv(4, edata)| + |Tlv(0x30, [])| <= |code|
            && code == Tlv(0x30, a + Tlv(4, edata))
            && |Tlv(4, edata)| == |TagCode(4)| + |LenCode(|edata|)| + |edata|
  {
    hide TagCode, LenCode, AlgTree, Valid, Code, Size;
    DataTreeValid(edata, salt, iter);
    TlvLonger(4, edata);
    TlvLonger(0x30, Code(AlgTree(salt, iter)) + Tlv(4, edata));
  }

  function Encrypted(c: Cipher, kind: Kind, key: seq<nat>, pwd: seq<nat>, salt: seq<nat>, iter: nat): seq<nat>
    requires Params(kind, |key|).Some?
  {
    c.wrap(c.pbkdf2(pwd, iter, salt), KeyCode(kind, key))
  }

  // The first octet of a partial secret is its number.
  predicate Numbered(kind: Kind, key: seq<nat>)
  {
    kind.Share? && |key| > 0 ==> 1 <= key[0] <= 16
  }

  // What the calls check before they write.
  function Refusal(kind: Kind, key: seq<nat>, iter: nat): Option<Error>
  {
    if iter < 10000 then Some(BadInput)
    else if Params(kind, |key|).None? || !Numbered(kind, key) then Some(if kind.Privkey? then BadPrivkey else BadSeckey)
    else None
  }

  lemma WrapSizes(c: Cipher, kind: Kind, key: seq<nat>, pwd: seq<nat>, salt: seq<nat>, iter: nat)
    requires Sound(c) && |salt| == 8 && Size(iter) <= 8 && Params(kind, |key|).Some?
    ensures var pki, edata := KeyCode(kind, key), Encrypted(c, kind, key, pwd, salt, iter);
            && |edata| == |pki| + 16 && |edata| < |DataCode(edata, salt, iter)|
            && |DataCode(Repeat(0, |edata|), salt, iter)| == |DataCode(edata, salt, iter)|
  {
    hide KeyCode, AlgTree, Valid, Code, Size, Params, TagCode, LenCode;
    var edata := Encrypted(c, kind, key, pwd, salt, iter);
    WrapSize(c, c.pbkdf2(pwd, iter, salt), KeyCode(kind, key));
    DataParts(edata, salt, iter);
    TlvLonger(4, edata);
    DataCodeLength(edata, Repeat(0, |edata|), salt, iter);
  }

  // The passes without a buffer.
  method KeyEnc(epki: array?<nat>, at: nat, kind: Kind, key: seq<nat>) returns (n: nat)
    requires Params(kind, |key|).Some? && |KeyCode(kind, key)| < SizeMax && Der.Fits(epki, at, |KeyCode(kind, key)|)
    modifies epki
    ensures n == |KeyCode(kind, key)| && Wrote(epki, at, KeyCode(kind, key))
  {
    hide Valid, Code, Params, Algorithm, KeyTree, Mem.Write;
    ParamsKeyLen(kind, |key|);
    KeyReadBack(kind, key, 0);
    n := EncTree(epki, at, KeyTree(Algorithm(kind), Params(kind, |key|).value, key));
  }

  method EdataCount(len: nat, salt: seq<nat>, iter: nat) returns (n: nat)
    requires Size(iter) <= 8 && |salt| == 8 && |DataCode(Repeat(0, len), salt, iter)| < SizeMax
    ensures n == |DataCode(Repeat(0, len), salt, iter)|
  {
    hide Valid, Code, DataTree, Mem.Write;
    DataReadBack(Repeat(0, len), salt, iter, 0);
    n := EncTree(null, 0, DataTree(Repeat(0, len), salt, iter));
  }

  // The passes with a buffer.
  method Build(c: Cipher, kind: Kind, epki: array<nat>, key: seq<nat>, k: seq<nat>, salt: seq<nat>, iter: nat,
               pki_len: nat, edata_len: nat, count: nat)
    requires Sound(c) && |salt| == 8 && Size(iter) <= 8 && Params(kind, |key|).Some?
    requires var pki := KeyCode(kind, key);
             var code := DataCode(c.wrap(k, pki), salt, iter);
             pki_len == |pki| && edata_len == |c.wrap(k, pki)| == pki_len + 16
             && edata_len < count == |code| < SizeMax && count <= epki.Length
    modifies epki
    ensures epki[..] == Mem.Write(old(epki[..]), 0, DataCode(c.wrap(k, KeyCode(kind, key)), salt, iter))
  {
    hide Mem.Write, Mem.Slice, Size, Params, KeyCode, DataCode, Sound;
    ghost var m, pki := epki[..], KeyCode(kind, key);
    ghost var edata := c.wrap(k, pki);
    ghost var code := DataCode(edata, salt, iter);
    var n := KeyEnc(epki, count - pki_len, kind, key);
    ghost var m1 := epki[..];
    Mem.WriteAgain(m, count - pki_len, pki, pki);
    var plain := epki[count - pki_len..count];
    PlainSlice(m1, count - pki_len, pki_len, pki, m1);
    assert plain == m1[count - pki_len..count];
    Put(epki, count - edata_len, c.wrap(k, plain));
    Mem.WriteAgain(m1, count - edata_len, edata, edata);
    n := EdataEnc(epki, count - edata_len, edata_len, salt, iter);
    Mem.WriteCovers(m1, count - edata_len, edata, code);
    Mem.WriteCovers(m, count - pki_len, pki, code);
  }

  /** bpkiPrivkeyWrap, bpkiShareWrap: the code of the key is built at the end of the buffer and
      encrypted 16 octets further down, where the container takes it from. */
  method Wrap(c: Cipher, kind: Kind, epki: array?<nat>, key: seq<nat>, pwd: seq<nat>, salt: seq<nat>, iter: nat)
      returns (r: Outcome<nat>)
    requires Sound(c) && |salt| == 8 && Size(iter) <= 8
    requires Refusal(kind, key, iter).None? ==>
               var code := DataCode(Encrypted(c, kind, key, pwd, salt, iter), salt, iter);
               |code| < SizeMax && Der.Fits(epki, 0, |code|)
    modifies epki
    ensures iter < 10000 ==> r == Err(BadInput)
    ensures iter >= 10000 && kind.Privkey? && |key| !in {24, 32, 48, 64} ==> r == Err(BadPrivkey)
    ensures iter >= 10000 && kind.Share? && (|key| !in {17, 25, 33} || key[0] == 0 || key[0] > 16) ==> r == Err(BadSeckey)
    ensures r.Err? ==> Refusal(kind, key, iter).Some?
    ensures Refusal(kind, key, iter).Some? ==>
              r == Err(Refusal(kind, key, iter).value) && (epki != null ==> epki[..] == old(epki[..]))
    ensures Refusal(kind, key, iter).None? ==>
              var code := DataCode(Encrypted(c, kind, key, pwd, salt, iter), salt, iter);
              r == Ok(|code|) && Wrote(epki, 0, code)
  {
    hide Mem.Write, Size, Params, KeyCode, DataCode, Sound;
    ParamsLengths(kind, |key|);
    if iter < 10000 {
      return Err(BadInput);
    }
    if Params(kind, |key|).None? || !Numbered(kind, key) {
      return Err(if kind.Privkey? then BadPrivkey else BadSeckey);
    }
    WrapSizes(c, kind, key, pwd, salt, iter);
    var pki_len := KeyEnc(null, 0, kind, key);
    var edata_len := pki_len + 16;
    var count := EdataCount(edata_len, salt, iter);
    if epki != null {
      var k := c.pbkdf2(pwd, iter, salt);
      Build(c, kind, epki, key, k, salt, iter, pki_len, edata_len, count);
    }
    r := Ok(count);
  }

  lemma WrapSize(c: Cipher, k: seq<nat>, x: seq<nat>)
    requires Sound(c)
    ensures |c.wrap(k, x)| == |x| + 16 && c.unwrap(k, c.wrap(k, x)) == Some(x)
  {
  }

  lemma PlainSlice(m: seq<nat>, at: nat, n: nat, s: seq<nat>, w: seq<nat>)
    requires at + n <= |m| && w == m && Mem.Slice(m, at, n) == s
    ensures w[at..at + n] == s
  {
  }

  // ---------------------------------------------------------------- opening it

  /** bpkiPrivkeyUnwrap, bpkiShareUnwrap */
  function Unwrap(c: Cipher, kind: Kind, epki: seq<nat>, pwd: seq<nat>, before: nat): Outcome<seq<nat>>
  {
    var data := ReadData(epki, before);
    if data.None? || data.value.3 != |epki| then Err(BadFormat)
    else
      var (edata, salt, iter, _) := data.value;
      var pki := c.unwrap(c.pbkdf2(pwd, iter, salt), edata);
      if pki.None? then Err(BadKeytoken)
      else
        var key := ReadKey(kind, pki.value, before);
        if key.None? || key.value.1 != |pki.value| then Err(BadFormat)
        else if !Numbered(kind, key.value.0) then Err(BadSharekey)
        else Ok(key.value.0)
  }

  /** A key that is returned comes from a whole container and from a whole key code of this
      kind, which the protection released; both announce their own lengths. */
  lemma UnwrapExact(c: Cipher, kind: Kind, epki: seq<nat>, pwd: seq<nat>, before: nat)
      returns (edata: seq<nat>, salt: seq<nat>, iter: nat, pki: seq<nat>)
    requires IsOctets(epki) && |epki| < SizeMax && Apart(before) && Unwrap(c, kind, epki, pwd, before).Ok?
    requires forall k, x :: c.unwrap(k, x).Some? ==> IsOctets(c.unwrap(k, x).value) && |c.unwrap(k, x).value| < SizeMax
    ensures var key := Unwrap(c, kind, epki, pwd, before).value;
            && C.Announced(DataShape, epki, before, |epki|) && |salt| == 8
            && (Valid(DataTree(edata, salt, iter)) && epki == Code(DataTree(edata, salt, iter)) <==> C.Clean(DataShape, epki, before))
            && c.unwrap(c.pbkdf2(pwd, iter, salt), edata) == Some(pki)
            && C.Announced(KeyShape, pki, before, |pki|) && Params(kind, |key|).Some? && Numbered(kind, key)
            && (pki == KeyCode(kind, key) <==> C.Clean(KeyShape, pki, before))
  {
    hide ReadData, ReadKey, Valid, Code, DataTree, KeyTree, Params, Algorithm, C.Announced, C.Clean;
    DataCanonical(epki, before);
    var data := ReadData(epki, before).value;
    edata, salt, iter := data.0, data.1, data.2;
    assert epki[..|epki|] == epki;
    pki := c.unwrap(c.pbkdf2(pwd, iter, salt), edata).value;
    KeyCanonical(kind, pki, before);
    assert pki[..|pki|] == pki;
  }

  /** What is refused: octets behind a container, a token that the protection does not release,
      and a key of the other kind. */
  lemma UnwrapRefuses(c: Cipher, kind: Kind, other: Kind, edata: seq<nat>, key: seq<nat>, rest: seq<nat>,
                      pwd: seq<nat>, salt: seq<nat>, iter: nat, before: nat)
    requires |salt| == 8 && Size(iter) <= 8 && |DataCode(edata, salt, iter) + rest| < SizeMax
    ensures rest != [] ==> Unwrap(c, kind, DataCode(edata, salt, iter) + rest, pwd, before) == Err(BadFormat)
    ensures c.unwrap(c.pbkdf2(pwd, iter, salt), edata).None? ==>
              Unwrap(c, kind, DataCode(edata, salt, iter), pwd, before) == Err(BadKeytoken)
    ensures other != kind && Params(kind, |key|).Some? && |KeyCode(kind, key)| < SizeMax
            && c.unwrap(c.pbkdf2(pwd, iter, salt), edata) == Some(KeyCode(kind, key)) ==>
              Unwrap(c, other, DataCode(edata, salt, iter), pwd, before) == Err(BadFormat)
  {
    hide ReadData, ReadKey, Valid, Code, DataTree, KeyTree, Params, Algorithm, Size;
    DataReadBehind(edata, salt, iter, rest, before);
    DataReadBehind(edata, salt, iter, [], before);
    assert DataCode(edata, salt, iter) + [] == DataCode(edata, salt, iter);
    if other != kind && Params(kind, |key|).Some? && |KeyCode(kind, key)| < SizeMax {
      OtherKind(kind, other, key, before);
    }
  }

  lemma OtherKind(kind: Kind, other: Kind, key: seq<nat>, before: nat)
    requires other != kind && Params(kind, |key|).Some? && |KeyCode(kind, key)| < SizeMax
    ensures ReadKey(other, KeyCode(kind, key), before).None?
  {
    hide Valid, Code, Normal, Read, ShapeOf, Oid.Dotted, KeyLen, Params, Oid.Fits;
    ConstantsFit();
    ParamsKeyLen(kind, |key|);
    var p := Params(kind, |key|).value;
    var t := KeyTree(Algorithm(kind), p, key);
    KeyTreeValid(Algorithm(kind), p, key);
    assert Code(t) + [] == Code(t);
    ReadBack(t, [], before);
    SameShape(Algorithm(kind), p, key);
    if Oid.Dotted(BignPubkey) == Oid.Dotted(BelsShare) {
      OidInjective(BignPubkey, BelsShare);
    }
  }

  /** What was wrapped is unwrapped under the same password. */
  lemma WrapThenUnwrap(c: Cipher, kind: Kind, key: seq<nat>, pwd: seq<nat>, salt: seq<nat>, iter: nat, before: nat)
    requires Sound(c) && |salt| == 8 && Size(iter) <= 8 && Refusal(kind, key, iter).None?
    requires |DataCode(Encrypted(c, kind, key, pwd, salt, iter), salt, iter)| < SizeMax
    ensures Unwrap(c, kind, DataCode(Encrypted(c, kind, key, pwd, salt, iter), salt, iter), pwd, before) == Ok(key)
  {
    hide KeyTree, DataTree, AlgTree, Valid, Code, Size, Params, Algorithm, ReadData, ReadKey, TagCode, LenCode;
    var k := c.pbkdf2(pwd, iter, salt);
    var edata := Encrypted(c, kind, key, pwd, salt, iter);
    WrapSize(c, k, KeyCode(kind, key));
    DataReadBack(edata, salt, iter, before);
    KeyReadBack(kind, key, before);
    DataParts(edata, salt, iter);
  }
}
