/**
 Messages as a writer may legally emit them: at every level the parts come in any order and number,
 interleaved with fields the reader does not know.  Decoding gives the meaning of the parts.
 */
module ManifestEncoding {
  import opened Wrappers
  import opened Wire
  import opened Manifest

  datatype PrimPart =
    | PrimBool(flag: bool)
    | PrimInt(number: nat, n: nat)
    | PrimOther(field: WireField)

  datatype ItemPart =
    | ItemStr(number: nat, text: Bytes, more: seq<WireField>)
    | ItemNoStr
    | ItemRaw(text: Bytes)
    | ItemPrim(prims: seq<PrimPart>)
    | ItemOther(field: WireField)

  datatype AttrPart =
    | AttrName(text: Bytes)
    | AttrRaw(text: Bytes)
    | AttrItem(items: seq<ItemPart>)
    | AttrOther(field: WireField)

  datatype ElemPart =
    | ElemName(text: Bytes)
    | ElemAttr(attr: seq<AttrPart>)
    | ElemChild(child: seq<NodePart>)
    | ElemOther(field: WireField)

  datatype NodePart =
    | NodeElement(elem: seq<ElemPart>)
    | NodeOther(field: WireField)

  // ---------- the bytes ----------

  function PrimWire(ps: seq<PrimPart>): seq<WireField> {
    if ps == [] then [] else
    [match ps[0]
     case PrimBool(flag) => VarintField(8, if flag then 1 else 0)
     case PrimInt(k, n) => VarintField(k, n)
     case PrimOther(f) => f] + PrimWire(ps[1..])
  }

  function ItemPartWire(p: ItemPart): WireField {
    match p
    case ItemStr(k, text, more) => LenField(2, EncodeFields([LenField(k, text)] + more))
    case ItemNoStr => LenField(2, [])
    case ItemRaw(text) => LenField(3, text)
    case ItemPrim(prims) => LenField(7, EncodeFields(PrimWire(prims)))
    case ItemOther(f) => f
  }

  function ItemWire(ps: seq<ItemPart>): seq<WireField> {
    if ps == [] then [] else [ItemPartWire(ps[0])] + ItemWire(ps[1..])
  }

  function AttrWire(ps: seq<AttrPart>): seq<WireField> {
    if ps == [] then [] else
    [match ps[0]
     case AttrName(text) => LenField(2, text)
     case AttrRaw(text) => LenField(3, text)
     case AttrItem(items) => LenField(6, EncodeFields(ItemWire(items)))
     case AttrOther(f) => f] + AttrWire(ps[1..])
  }

  function ElemField(p: ElemPart): WireField
    decreases p, 1
  {
    match p
    case ElemName(text) => LenField(3, text)
    case ElemAttr(attr) => LenField(4, EncodeFields(AttrWire(attr)))
    case ElemChild(child) => LenField(5, EncodeNode(child))
    case ElemOther(f) => f
  }

  function ElemWire(ps: seq<ElemPart>): seq<WireField>
    decreases ps, 0
  {
    if ps == [] then [] else [ElemField(ps[0])] + ElemWire(ps[1..])
  }

  function NodeWire(ps: seq<NodePart>): seq<WireField>
    decreases ps, 0
  {
    if ps == [] then [] else
    [match ps[0]
     case NodeElement(elem) => LenField(1, EncodeFields(ElemWire(elem)))
     case NodeOther(f) => f] + NodeWire(ps[1..])
  }

  function EncodeNode(ps: seq<NodePart>): Bytes
    decreases ps, 1
  {
    EncodeFields(NodeWire(ps))
  }

  // ---------- what a writer must respect ----------

  ghost predicate AllWritable(fs: seq<WireField>) {
    forall i :: 0 <= i < |fs| ==> Writable(fs[i])
  }

  ghost predicate ValidPrims(ps: seq<PrimPart>) {
    AllWritable(PrimWire(ps)) &&
    forall i :: 0 <= i < |ps| ==>
      (ps[i].PrimInt? ==> ps[i].number == 6 || ps[i].number == 7) &&
      (ps[i].PrimOther? ==> ps[i].field.number !in {6, 7, 8})
  }

  ghost predicate ValidItem(p: ItemPart) {
    match p
    case ItemStr(k, text, more) => AllWritable([LenField(k, text)] + more)
    case ItemPrim(prims) => ValidPrims(prims)
    case ItemOther(f) => f.number !in {2, 3, 7}
    case _ => true
  }

  ghost predicate ValidItems(ps: seq<ItemPart>) {
    AllWritable(ItemWire(ps)) && forall i :: 0 <= i < |ps| ==> ValidItem(ps[i])
  }

  ghost predicate ValidAttr(ps: seq<AttrPart>) {
    AllWritable(AttrWire(ps)) &&
    forall i :: 0 <= i < |ps| ==>
      (ps[i].AttrItem? ==> ValidItems(ps[i].items)) &&
      (ps[i].AttrOther? ==> ps[i].field.number !in {2, 3, 6})
  }

  ghost predicate ValidElemPart(p: ElemPart) {
    Writable(ElemField(p)) &&
    match p
    case ElemName(_) => true
    case ElemAttr(attr) => ValidAttr(attr)
    case ElemChild(child) => ValidNode(child)
    case ElemOther(f) => f.number !in {3, 4, 5}
  }

  ghost predicate ValidElem(ps: seq<ElemPart>) {
    if ps == [] then true else ValidElemPart(ps[0]) && ValidElem(ps[1..])
  }

  ghost predicate ValidNode(ps: seq<NodePart>) {
    if ps == [] then true else
    (match ps[0]
     case NodeElement(elem) => |EncodeFields(ElemWire(elem))| < EXACT && ValidElem(elem)
     case NodeOther(f) => Writable(f) && f.number != 1) && ValidNode(ps[1..])
  }

  // ---------- what the parts mean ----------

  function LaterOf<T>(a: Option<T>, b: Option<T>): Option<T> {
    if b.Some? then b else a
  }

  function JoinItems(a: Item, b: Item): Item {
    Item(LaterOf(a.str, b.str), LaterOf(a.flag, b.flag), LaterOf(a.num, b.num))
  }

  function PrimMeaning(ps: seq<PrimPart>): Item {
    if ps == [] then NO_ITEM else
    JoinItems(match ps[0]
              case PrimBool(flag) => NO_ITEM.(flag := Some(flag))
              case PrimInt(_, n) => NO_ITEM.(num := Some(Number(Fin(n))))
              case PrimOther(_) => NO_ITEM,
              PrimMeaning(ps[1..]))
  }

  function ItemPartMeaning(p: ItemPart): Item {
    match p
    case ItemStr(_, text, _) => NO_ITEM.(str := Some(text))
    case ItemNoStr => NO_ITEM.(str := Some([]))
    case ItemRaw(text) => NO_ITEM.(str := Some(text))
    case ItemPrim(prims) => PrimMeaning(prims)
    case ItemOther(_) => NO_ITEM
  }

  function ItemMeaning(ps: seq<ItemPart>): Item {
    if ps == [] then NO_ITEM else JoinItems(ItemPartMeaning(ps[0]), ItemMeaning(ps[1..]))
  }

  function JoinAttrs(a: Attr, b: Attr): Attr {
    Attr(LaterOf(a.name, b.name), LaterOf(a.raw, b.raw), LaterOf(a.item, b.item))
  }

  function AttrMeaning(ps: seq<AttrPart>): Attr {
    if ps == [] then NO_ATTR else
    JoinAttrs(match ps[0]
              case AttrName(text) => NO_ATTR.(name := Some(text))
              case AttrRaw(text) => NO_ATTR.(raw := Some(text))
              case AttrItem(items) => NO_ATTR.(item := Some(ItemMeaning(items)))
              case AttrOther(_) => NO_ATTR,
              AttrMeaning(ps[1..]))
  }

  function ElemPartMeaning(p: ElemPart): Node {
    match p
    case ElemName(text) => EMPTY.(name := Some(text))
    case ElemAttr(attr) => EMPTY.(attrs := Store(map[], AttrMeaning(attr)))
    case ElemChild(child) => EMPTY.(children := [NodeMeaning(child)])
    case ElemOther(_) => EMPTY
  }

  function ElemMeaning(ps: seq<ElemPart>): Node {
    if ps == [] then EMPTY else Merge(ElemPartMeaning(ps[0]), ElemMeaning(ps[1..]))
  }

  function NodeMeaning(ps: seq<NodePart>): Node {
    if ps == [] then EMPTY else
    Merge(match ps[0]
          case NodeElement(elem) => ElemMeaning(elem)
          case NodeOther(_) => EMPTY,
          NodeMeaning(ps[1..]))
  }

  /** An element with one attribute that has a raw value and no name. */
  lemma UnnamedMeaning(element: Bytes, text: Bytes)
    ensures NodeMeaning([NodeElement([ElemName(element), ElemAttr([AttrRaw(text)])])]) ==
            Node(Some(element), map[UNDEFINED_NAME := Text(text)], [])
  {
    var attr := [AttrRaw(text)];
    var elem := [ElemName(element), ElemAttr(attr)];
    var ps := [NodeElement(elem)];
    assert attr[1..] == [] && ps[1..] == [] && elem[1..] == [ElemAttr(attr)] && [ElemAttr(attr)][1..] == [];
    assert AttrMeaning(attr) == NO_ATTR.(raw := Some(text));
    assert UNDEFINED_NAME[0] != PROTO[0];
    var stored := EMPTY.(attrs := map[UNDEFINED_NAME := Text(text)]);
    assert ElemPartMeaning(ElemAttr(attr)) == stored;
    MergeUnit(stored);
    assert ElemMeaning([ElemAttr(attr)]) == stored;
    assert ElemMeaning(elem) == Node(Some(element), map[UNDEFINED_NAME := Text(text)], []);
    MergeUnit(ElemMeaning(elem));
  }

  // ---------- decoding the bytes gives the meaning ----------

  lemma {:induction false} PrimsDecode(ps: seq<PrimPart>, item: Item)
    requires ValidPrims(ps)
    ensures PrimFields(AsFields(PrimWire(ps)), item) == JoinItems(item, PrimMeaning(ps))
  {
    if ps != [] {
      var fs := PrimWire(ps);
      assert fs[1..] == PrimWire(ps[1..]);
      assert AsFields(fs)[1..] == AsFields(fs[1..]);
      PrimsDecode(ps[1..], PrimField(AsField(fs[0]), item));
    }
  }

  lemma ItemPartDecodes(p: ItemPart, item: Item)
    requires ValidItem(p)
    ensures ItemField(AsField(ItemPartWire(p)), item) == Ok(JoinItems(item, ItemPartMeaning(p)))
  {
    hide FieldsFrom, EncodeField;
    match p
    case ItemStr(k, text, more) =>
      var fs := [LenField(k, text)] + more;
      FieldsRoundTrip(fs);
      assert AsFields(fs)[0] == Field(k, Buffer(text));
    case ItemNoStr => FieldsRoundTrip([]);
    case ItemRaw(_) =>
    case ItemPrim(prims) =>
      FieldsRoundTrip(PrimWire(prims));
      PrimsDecode(prims, item);
    case ItemOther(_) =>
  }

  lemma {:induction false} ItemsDecode(ps: seq<ItemPart>, item: Item)
    requires ValidItems(ps)
    ensures ItemFields(AsFields(ItemWire(ps)), item) == Ok(JoinItems(item, ItemMeaning(ps)))
  {
    if ps != [] {
      hide ItemField, ItemPartMeaning, ItemPartWire;
      var fs := ItemWire(ps);
      assert fs[1..] == ItemWire(ps[1..]);
      assert AsFields(fs)[1..] == AsFields(fs[1..]);
      ItemPartDecodes(ps[0], item);
      ItemsDecode(ps[1..], JoinItems(item, ItemPartMeaning(ps[0])));
    }
  }

  lemma AttrItemDecodes(items: seq<ItemPart>, attr: Attr)
    requires ValidItems(items)
    ensures AttrField(Field(6, Buffer(EncodeFields(ItemWire(items)))), attr) ==
            Ok(attr.(item := Some(ItemMeaning(items))))
  {
    FieldsRoundTrip(ItemWire(items));
    ItemsDecode(items, NO_ITEM);
    hide FieldsOf, EncodeFields, ItemFields, ItemMeaning, ItemWire, ValidItems;
  }

  lemma {:induction false} AttrDecodes(ps: seq<AttrPart>, attr: Attr)
    requires ValidAttr(ps)
    ensures AttrFields(AsFields(AttrWire(ps)), attr) == Ok(JoinAttrs(attr, AttrMeaning(ps)))
  {
    if ps != [] {
      hide EncodeFields, ItemOf, ItemMeaning, ItemWire, ValidItems;
      var fs := AttrWire(ps);
      assert fs[1..] == AttrWire(ps[1..]);
      assert AsFields(fs)[1..] == AsFields(fs[1..]);
      if ps[0].AttrItem? { AttrItemDecodes(ps[0].items, attr); }
      AttrDecodes(ps[1..], AttrField(AsField(fs[0]), attr).value);
    }
  }

  lemma {:induction false} ElemPartDecodes(p: ElemPart)
    requires ValidElemPart(p)
    ensures ElementField(AsField(ElemField(p)), EMPTY) == Ok(ElemPartMeaning(p))
    decreases p, 1
  {
    hide FieldsFrom, EncodeField;
    match p
    case ElemName(_) =>
    case ElemAttr(attr) =>
      FieldsRoundTrip(AttrWire(attr));
      AttrDecodes(attr, NO_ATTR);
    case ElemChild(child) =>
      NodeDecodes(child);
      assert [] + [NodeMeaning(child)] == [NodeMeaning(child)];
    case ElemOther(_) =>
  }

  lemma {:induction false} ElemDecodes(ps: seq<ElemPart>)
    requires ValidElem(ps)
    ensures AllWritable(ElemWire(ps))
    ensures ElementFields(AsFields(ElemWire(ps)), EMPTY) == Ok(ElemMeaning(ps))
    decreases ps, 0
  {
    if ps != [] {
      hide ElementField;
      var fs := ElemWire(ps);
      assert fs[1..] == ElemWire(ps[1..]);
      assert AsFields(fs)[1..] == AsFields(fs[1..]);
      ElemPartDecodes(ps[0]);
      ElemDecodes(ps[1..]);
      ElementFieldsMerge(AsFields(fs[1..]), ElemPartMeaning(ps[0]));
    }
  }

  /** Main result: whatever parts a message is written from, in whatever order, depth and width,
      the reader returns their meaning. */
  lemma {:induction false} NodeDecodes(ps: seq<NodePart>)
    requires ValidNode(ps)
    ensures AllWritable(NodeWire(ps))
    ensures NodeFields(AsFields(NodeWire(ps)), EMPTY) == Ok(NodeMeaning(ps))
    ensures NodeOf(Buffer(EncodeNode(ps))) == Ok(NodeMeaning(ps))
    decreases ps, 0
  {
    hide FieldsFrom, EncodeField, ElementFields;
    var fs := NodeWire(ps);
    if ps != [] {
      assert fs[1..] == NodeWire(ps[1..]);
      assert AsFields(fs)[1..] == AsFields(fs[1..]);
      if ps[0].NodeElement? {
        ElemDecodes(ps[0].elem);
        FieldsRoundTrip(ElemWire(ps[0].elem));
      } else {
        MergeUnit(NodeMeaning(ps[1..]));
      }
      NodeDecodes(ps[1..]);
      NodeFieldsMerge(AsFields(fs[1..]), NodeField(AsField(fs[0]), EMPTY).value);
    }
    FieldsRoundTrip(fs);
  }

  // ---------- unknown fields ----------

  function Known(ps: seq<NodePart>): seq<NodePart> {
    if ps == [] then []
    else if ps[0].NodeOther? then Known(ps[1..])
    else [NodeElement(KnownElem(ps[0].elem))] + Known(ps[1..])
  }

  function KnownAttr(ps: seq<AttrPart>): seq<AttrPart> {
    if ps == [] then []
    else if ps[0].AttrOther? then KnownAttr(ps[1..])
    else [ps[0]] + KnownAttr(ps[1..])
  }

  function KnownElem(ps: seq<ElemPart>): seq<ElemPart> {
    if ps == [] then []
    else match ps[0]
      case ElemOther(_) => KnownElem(ps[1..])
      case ElemChild(child) => [ElemChild(Known(child))] + KnownElem(ps[1..])
      case ElemAttr(attr) => [ElemAttr(KnownAttr(attr))] + KnownElem(ps[1..])
      case ElemName(_) => [ps[0]] + KnownElem(ps[1..])
  }

  lemma {:induction false} KnownAttrMeaning(ps: seq<AttrPart>)
    ensures AttrMeaning(KnownAttr(ps)) == AttrMeaning(ps)
  {
    if ps != [] { KnownAttrMeaning(ps[1..]); }
  }

  lemma {:induction false} KnownElemMeaning(ps: seq<ElemPart>)
    ensures ElemMeaning(KnownElem(ps)) == ElemMeaning(ps)
  {
    if ps != [] {
      KnownElemMeaning(ps[1..]);
      match ps[0]
      case ElemOther(_) => MergeUnit(ElemMeaning(ps[1..]));
      case ElemChild(child) => KnownMeaning(child);
      case ElemAttr(attr) => KnownAttrMeaning(attr);
      case ElemName(_) =>
    }
  }

  lemma {:induction false} KnownMeaning(ps: seq<NodePart>)
    ensures NodeMeaning(Known(ps)) == NodeMeaning(ps)
  {
    if ps != [] {
      KnownMeaning(ps[1..]);
      if ps[0].NodeOther? { MergeUnit(NodeMeaning(ps[1..])); } else { KnownElemMeaning(ps[0].elem); }
    }
  }

  lemma {:induction false} VarintLength(a: nat, b: nat)
    requires a <= b
    ensures |EncodeVarint(a)| <= |EncodeVarint(b)|
    decreases b
  {
    if a >= 128 { VarintLength(a / 128, b / 128); }
  }

  lemma LenFieldLength(k: nat, a: Bytes, b: Bytes)
    requires |a| <= |b|
    ensures |EncodeField(LenField(k, a))| <= |EncodeField(LenField(k, b))|
    ensures Writable(LenField(k, b)) ==> Writable(LenField(k, a))
  {
    VarintLength(|a|, |b|);
  }

  /** A list of parts is valid exactly when its first part and the others are. */
  lemma ValidAttrSplit(ps: seq<AttrPart>)
    requires ps != []
    ensures ValidAttr(ps) <==> ValidAttr([ps[0]]) && ValidAttr(ps[1..])
  {
    var first := AttrWire([ps[0]]);
    assert [ps[0]][1..] == [] && AttrWire([]) == [];
    assert AttrWire(ps) == first + AttrWire(ps[1..]);
    assert |AttrWire(ps)| == 1 + |AttrWire(ps[1..])|;
    if ValidAttr(ps) {
      assert forall i :: 0 <= i < |ps[1..]| ==> ps[1..][i] == ps[i + 1];
      assert forall i :: 0 <= i < |AttrWire(ps[1..])| ==> AttrWire(ps[1..])[i] == AttrWire(ps)[i + 1];
      assert first[0] == AttrWire(ps)[0];
    }
  }

  lemma {:induction false} KnownAttrValid(ps: seq<AttrPart>)
    requires ValidAttr(ps)
    ensures ValidAttr(KnownAttr(ps))
    ensures |EncodeFields(AttrWire(KnownAttr(ps)))| <= |EncodeFields(AttrWire(ps))|
  {
    if ps != [] {
      hide EncodeField, ValidAttr;
      ValidAttrSplit(ps);
      KnownAttrValid(ps[1..]);
      assert AttrWire(ps)[1..] == AttrWire(ps[1..]);
      if !ps[0].AttrOther? {
        var ks := KnownAttr(ps);
        assert ks[1..] == KnownAttr(ps[1..]) && ks[0] == ps[0];
        assert AttrWire(ks)[1..] == AttrWire(ks[1..]) && AttrWire(ks)[0] == AttrWire(ps)[0];
        ValidAttrSplit(ks);
      }
    }
  }

  lemma {:induction false} KnownElemValid(ps: seq<ElemPart>)
    requires ValidElem(ps)
    ensures ValidElem(KnownElem(ps))
    ensures |EncodeFields(ElemWire(KnownElem(ps)))| <= |EncodeFields(ElemWire(ps))|
  {
    if ps != [] {
      hide EncodeField, ValidAttr;
      KnownElemValid(ps[1..]);
      assert ElemWire(ps)[1..] == ElemWire(ps[1..]);
      var ks := KnownElem(ps);
      if !ps[0].ElemOther? {
        assert ks[1..] == KnownElem(ps[1..]);
        assert ElemWire(ks)[1..] == ElemWire(ks[1..]);
      }
      match ps[0]
      case ElemOther(_) =>
      case ElemChild(child) =>
        KnownValid(child);
        LenFieldLength(5, EncodeNode(Known(child)), EncodeNode(child));
      case ElemAttr(attr) =>
        KnownAttrValid(attr);
        LenFieldLength(4, EncodeFields(AttrWire(KnownAttr(attr))), EncodeFields(AttrWire(attr)));
      case ElemName(_) =>
    }
  }

  lemma {:induction false} KnownValid(ps: seq<NodePart>)
    requires ValidNode(ps)
    ensures ValidNode(Known(ps))
    ensures |EncodeNode(Known(ps))| <= |EncodeNode(ps)|
  {
    if ps != [] {
      hide EncodeField, ValidElem;
      KnownValid(ps[1..]);
      assert NodeWire(ps)[1..] == NodeWire(ps[1..]);
      if ps[0].NodeElement? {
        var ks := Known(ps);
        assert ks[1..] == Known(ps[1..]);
        assert NodeWire(ks)[1..] == NodeWire(ks[1..]);
        KnownElemValid(ps[0].elem);
        LenFieldLength(1, EncodeFields(ElemWire(KnownElem(ps[0].elem))), EncodeFields(ElemWire(ps[0].elem)));
      }
    }
  }

  /** Dropping every unknown field, at node, element and attribute level and at any depth, does not
      change what the reader returns. */
  lemma UnknownFieldsIgnored(ps: seq<NodePart>)
    requires ValidNode(ps)
    ensures NodeOf(Buffer(EncodeNode(ps))) == NodeOf(Buffer(EncodeNode(Known(ps))))
  {
    KnownMeaning(ps);
    KnownValid(ps);
    NodeDecodes(ps);
    NodeDecodes(Known(ps));
  }

  // ---------- element trees ----------

  /** The last is a resource reference or another value that the reader does not know. */
  datatype Compiled =
    | CompiledString(text: Bytes)
    | CompiledBool(flag: bool)
    | CompiledInt(n: nat)
    | CompiledOther(field: WireField)

  datatype Attribute = Attribute(name: Bytes, raw: Option<Bytes>, compiled: Option<Compiled>)

  datatype Element = Element(name: Bytes, attributes: seq<Attribute>, children: seq<Element>)

  function CompiledParts(c: Compiled): seq<ItemPart> {
    match c
    case CompiledString(text) => [ItemStr(1, text, [])]
    case CompiledBool(flag) => [ItemPrim([PrimBool(flag)])]
    case CompiledInt(n) => [ItemPrim([PrimInt(6, n)])]
    case CompiledOther(f) => [ItemOther(f)]
  }

  function AttributeParts(a: Attribute): seq<AttrPart> {
    [AttrName(a.name)] +
    (if a.raw.Some? then [AttrRaw(a.raw.value)] else []) +
    (if a.compiled.Some? then [AttrItem(CompiledParts(a.compiled.value))] else [])
  }

  function AttributesParts(attrs: seq<Attribute>): seq<ElemPart> {
    if attrs == [] then [] else [ElemAttr(AttributeParts(attrs[0]))] + AttributesParts(attrs[1..])
  }

  function ChildrenParts(es: seq<Element>): seq<ElemPart> {
    if es == [] then [] else [ElemChild(TreeParts(es[0]))] + ChildrenParts(es[1..])
  }

  /** The message aapt2 writes for an element: name, attributes, children. */
  function TreeParts(e: Element): seq<NodePart> {
    [NodeElement([ElemName(e.name)] + AttributesParts(e.attributes) + ChildrenParts(e.children))]
  }

  /** A non-empty raw value wins, else the compiled one, which may be unknown, else whatever raw is. */
  function AttributeValue(a: Attribute): AttrValue {
    if a.raw.Some? && (a.raw.value != [] || a.compiled.None?) then Text(a.raw.value)
    else match a.compiled
      case Some(CompiledString(text)) => Text(text)
      case Some(CompiledBool(flag)) => Flag(flag)
      case Some(CompiledInt(n)) => Int(Fin(n))
      case Some(CompiledOther(_)) => Undefined
      case None => Undefined
  }

  /** The last attribute of each name, save the one name a plain object cannot hold. */
  function AttributeMap(attrs: seq<Attribute>): map<Bytes, AttrValue> {
    if attrs == [] then map[] else
    var last := attrs[|attrs| - 1];
    var rest := AttributeMap(attrs[..|attrs| - 1]);
    if last.name == PROTO then rest else rest[last.name := AttributeValue(last)]
  }

  function TreeNode(e: Element): Node {
    Node(Some(e.name), AttributeMap(e.attributes), TreeNodes(e.children))
  }

  function TreeNodes(es: seq<Element>): (ns: seq<Node>)
    ensures |ns| == |es|
  {
    if es == [] then [] else [TreeNode(es[0])] + TreeNodes(es[1..])
  }

  lemma CompiledMeaning(c: Compiled)
    ensures ItemMeaning(CompiledParts(c)) ==
            match c
            case CompiledString(text) => NO_ITEM.(str := Some(text))
            case CompiledBool(flag) => NO_ITEM.(flag := Some(flag))
            case CompiledInt(n) => NO_ITEM.(num := Some(Number(Fin(n))))
            case CompiledOther(_) => NO_ITEM
  {
    var ps := CompiledParts(c);
    assert ps[1..] == [];
    assert ItemMeaning(ps) == JoinItems(ItemPartMeaning(ps[0]), NO_ITEM);
    if ps[0].ItemPrim? {
      var prims := ps[0].prims;
      assert prims[1..] == [];
      assert PrimMeaning(prims[1..]) == NO_ITEM;
    }
  }

  lemma AttributePartsMeaning(a: Attribute)
    ensures var attr := AttrMeaning(AttributeParts(a));
            attr.name == Some(a.name) && Resolve(attr) == AttributeValue(a)
  {
    var raw := if a.raw.Some? then [AttrRaw(a.raw.value)] else [];
    var item := if a.compiled.Some? then [AttrItem(CompiledParts(a.compiled.value))] else [];
    assert AttributeParts(a)[1..] == raw + item;
    assert (raw + item)[|raw|..] == item;
    var meant := if a.compiled.Some? then Some(ItemMeaning(CompiledParts(a.compiled.value))) else None;
    assert AttrMeaning(item) == NO_ATTR.(item := meant) by {
      if a.compiled.Some? { assert item[1..] == []; }
    }
    assert AttrMeaning(raw + item) == AttrMeaning(item).(raw := a.raw) by {
      if a.raw.Some? { assert (raw + item)[1..] == item; } else { assert raw + item == item; }
    }
    if a.compiled.Some? { CompiledMeaning(a.compiled.value); }
  }

  lemma {:induction false} ElemMeaningAppend(a: seq<ElemPart>, b: seq<ElemPart>)
    ensures ElemMeaning(a + b) == Merge(ElemMeaning(a), ElemMeaning(b))
  {
    if a == [] {
      assert [] + b == b;
      MergeUnit(ElemMeaning(b));
    } else {
      assert (a + b)[1..] == a[1..] + b;
      ElemMeaningAppend(a[1..], b);
      MergeAssociative(ElemPartMeaning(a[0]), ElemMeaning(a[1..]), ElemMeaning(b));
    }
  }

  lemma {:induction false} AttributesPartsAppend(a: seq<Attribute>, b: seq<Attribute>)
    ensures AttributesParts(a + b) == AttributesParts(a) + AttributesParts(b)
  {
    if a == [] {
      assert [] + b == b;
    } else {
      assert (a + b)[1..] == a[1..] + b;
      AttributesPartsAppend(a[1..], b);
    }
  }

  lemma AttributeMeaning(a: Attribute)
    ensures ElemMeaning(AttributesParts([a])) ==
            EMPTY.(attrs := if a.name == PROTO then map[] else map[a.name := AttributeValue(a)])
  {
    hide AttributeParts, AttrMeaning, Resolve, AttributeValue;
    AttributePartsMeaning(a);
    var part := ElemAttr(AttributeParts(a));
    assert AttributesParts([a]) == [part] by { assert [a][1..] == []; }
    assert [part][1..] == [];
    MergeUnit(ElemPartMeaning(part));
  }

  lemma MergeAttributes(m: map<Bytes, AttrValue>, n: map<Bytes, AttrValue>)
    ensures Merge(EMPTY.(attrs := m), EMPTY.(attrs := n)) == EMPTY.(attrs := m + n)
  {
  }

  lemma {:induction false} AttributesMeaning(attrs: seq<Attribute>)
    ensures ElemMeaning(AttributesParts(attrs)) == EMPTY.(attrs := AttributeMap(attrs))
  {
    if attrs != [] {
      hide AttributeValue, AttributesParts, ElemMeaning;
      var init, last := attrs[..|attrs| - 1], attrs[|attrs| - 1];
      var one := if last.name == PROTO then map[] else map[last.name := AttributeValue(last)];
      assert AttributeMap(attrs) == AttributeMap(init) + one;
      assert attrs == init + [last];
      hide AttributeMap, Merge;
      AttributesPartsAppend(init, [last]);
      ElemMeaningAppend(AttributesParts(init), AttributesParts([last]));
      AttributesMeaning(init);
      AttributeMeaning(last);
      MergeAttributes(AttributeMap(init), one);
    }
  }

  lemma {:induction false} ChildrenMeaning(es: seq<Element>)
    ensures ElemMeaning(ChildrenParts(es)) == EMPTY.(children := TreeNodes(es))
    decreases es, 0
  {
    if es != [] {
      ChildrenMeaning(es[1..]);
      TreeMeaning(es[0]);
      var ps := ChildrenParts(es);
      assert ps[1..] == ChildrenParts(es[1..]);
    }
  }

  lemma {:induction false} TreeMeaning(e: Element)
    ensures NodeMeaning(TreeParts(e)) == TreeNode(e)
    decreases e, 1
  {
    var name, attrs, children := [ElemName(e.name)], AttributesParts(e.attributes), ChildrenParts(e.children);
    ElemMeaningAppend(name + attrs, children);
    ElemMeaningAppend(name, attrs);
    AttributesMeaning(e.attributes);
    ChildrenMeaning(e.children);
    assert name[1..] == [];
    MergeUnit(ElemPartMeaning(name[0]));
    MergeUnit(ElemMeaning(name + attrs + children));
    assert TreeParts(e)[1..] == [];
    assert map[] + AttributeMap(e.attributes) + map[] == AttributeMap(e.attributes);
    assert [] + [] + TreeNodes(e.children) == TreeNodes(e.children);
  }

  /** Reading undoes writing, for every finite element tree: name, last value of every attribute and
      children in order. */
  lemma TreeRoundTrip(e: Element)
    requires ValidNode(TreeParts(e))
    ensures NodeOf(Buffer(EncodeNode(TreeParts(e)))) == Ok(TreeNode(e))
  {
    NodeDecodes(TreeParts(e));
    TreeMeaning(e);
  }

  /** An attribute not overridden by a later one of the same name is found with its own value. */
  lemma {:induction false} LastAttributeWins(attrs: seq<Attribute>, i: nat)
    requires i < |attrs| && attrs[i].name != PROTO
    requires forall j :: i < j < |attrs| ==> attrs[j].name != attrs[i].name
    ensures attrs[i].name in AttributeMap(attrs)
    ensures AttributeMap(attrs)[attrs[i].name] == AttributeValue(attrs[i])
  {
    if i < |attrs| - 1 { LastAttributeWins(attrs[..|attrs| - 1], i); }
  }
}
