/**
 Messages that put a number where the manifest's reader expects text: after whatever parts and at
 whatever depth it stands, the reader fails and says so.
 */
module ManifestFlaws {
  import opened Wrappers
  import opened Wire
  import opened Manifest
  import opened ManifestEncoding

  /** An item's text field that is a number, or wraps one first. */
  datatype ItemText = Raw(n: nat) | Wrapped(number: nat, n: nat, more: seq<WireField>)

  /** An element field that holds the number, itself or further down, behind valid parts and before any
      others. */
  datatype Flaw =
    | InName(n: nat)
    | InAttribute(attrs: seq<AttrPart>, number: nat, n: nat, later: seq<WireField>)
    | InItem(
        attrs: seq<AttrPart>, items: seq<ItemPart>, text: ItemText, laterItems: seq<WireField>, later: seq<WireField>)
    | InChild(nodes: seq<NodePart>, parts: seq<ElemPart>, flaw: Flaw, laterParts: seq<WireField>, later: seq<WireField>)

  // ---------- the bytes ----------

  function ItemTextField(t: ItemText): WireField {
    match t
    case Raw(n) => VarintField(3, n)
    case Wrapped(k, n, more) => LenField(2, EncodeFields([VarintField(k, n)] + more))
  }

  function ItemFlaw(f: Flaw): seq<WireField>
    requires f.InItem?
  {
    ItemWire(f.items) + [ItemTextField(f.text)] + f.laterItems
  }

  function AttrFlaw(f: Flaw): seq<WireField>
    requires f.InAttribute? || f.InItem?
  {
    AttrWire(f.attrs) +
    [if f.InAttribute? then VarintField(f.number, f.n) else LenField(6, EncodeFields(ItemFlaw(f)))] + f.later
  }

  function FlawField(f: Flaw): WireField
    decreases f, 0
  {
    match f
    case InName(n) => VarintField(3, n)
    case InChild(nodes, parts, flaw, laterParts, later) =>
      LenField(5, EncodeFields(NodeFlaw(nodes, parts, flaw, laterParts, later)))
    case _ => LenField(4, EncodeFields(AttrFlaw(f)))
  }

  function ElemFlaw(parts: seq<ElemPart>, f: Flaw, later: seq<WireField>): seq<WireField>
    decreases f, 1
  {
    ElemWire(parts) + [FlawField(f)] + later
  }

  function NodeFlaw(
    nodes: seq<NodePart>, parts: seq<ElemPart>, f: Flaw, laterParts: seq<WireField>, later: seq<WireField>)
    : seq<WireField>
    decreases f, 2
  {
    NodeWire(nodes) + [LenField(1, EncodeFields(ElemFlaw(parts, f, laterParts)))] + later
  }

  // ---------- what a writer must respect ----------

  ghost predicate ValidFlaw(f: Flaw)
    decreases f, 0
  {
    match f
    case InName(n) => true
    case InAttribute(attrs, number, _, _) =>
      ValidAttr(attrs) && (number == 2 || number == 3) && AllWritable(AttrFlaw(f))
    case InItem(attrs, items, _, _, _) =>
      ValidAttr(attrs) && ValidItems(items) && AllWritable(ItemFlaw(f)) && AllWritable(AttrFlaw(f)) &&
      (f.text.Wrapped? ==> AllWritable([VarintField(f.text.number, f.text.n)] + f.text.more))
    case InChild(nodes, parts, flaw, laterParts, later) => ValidFlawed(nodes, parts, flaw, laterParts, later)
  }

  ghost predicate ValidFlawed(
    nodes: seq<NodePart>, parts: seq<ElemPart>, f: Flaw, laterParts: seq<WireField>, later: seq<WireField>)
    decreases f, 1
  {
    ValidNode(nodes) && ValidElem(parts) && ValidFlaw(f) &&
    AllWritable(ElemFlaw(parts, f, laterParts)) && AllWritable(NodeFlaw(nodes, parts, f, laterParts, later))
  }

  // ---------- the reader stops there ----------

  lemma {:induction false} ItemsStop(fs: seq<Field>, bad: Field, later: seq<Field>, item: Item, e: DecodeError)
    requires ItemFields(fs, item).Ok? && forall i :: ItemField(bad, i) == Err(e)
    ensures ItemFields(fs + [bad] + later, item) == Err(e)
  {
    var all := fs + [bad] + later;
    if fs != [] {
      assert all[0] == fs[0] && all[1..] == fs[1..] + [bad] + later;
      ItemsStop(fs[1..], bad, later, ItemField(fs[0], item).value, e);
    }
  }

  lemma {:induction false} AttrStops(fs: seq<Field>, bad: Field, later: seq<Field>, attr: Attr, e: DecodeError)
    requires AttrFields(fs, attr).Ok? && forall a :: AttrField(bad, a) == Err(e)
    ensures AttrFields(fs + [bad] + later, attr) == Err(e)
  {
    var all := fs + [bad] + later;
    if fs != [] {
      assert all[0] == fs[0] && all[1..] == fs[1..] + [bad] + later;
      AttrStops(fs[1..], bad, later, AttrField(fs[0], attr).value, e);
    }
  }

  lemma {:induction false} ElementStops(fs: seq<Field>, bad: Field, later: seq<Field>, node: Node, e: DecodeError)
    requires ElementFields(fs, node).Ok? && forall n :: ElementField(bad, n) == Err(e)
    ensures ElementFields(fs + [bad] + later, node) == Err(e)
  {
    hide ElementField;
    var all := fs + [bad] + later;
    if fs != [] {
      assert all[0] == fs[0] && all[1..] == fs[1..] + [bad] + later;
      ElementStops(fs[1..], bad, later, ElementField(fs[0], node).value, e);
    }
  }

  lemma {:induction false} NodeStops(fs: seq<Field>, bad: Field, later: seq<Field>, node: Node, e: DecodeError)
    requires NodeFields(fs, node).Ok? && forall n :: NodeField(bad, n) == Err(e)
    ensures NodeFields(fs + [bad] + later, node) == Err(e)
  {
    hide NodeField;
    var all := fs + [bad] + later;
    if fs != [] {
      assert all[0] == fs[0] && all[1..] == fs[1..] + [bad] + later;
      NodeStops(fs[1..], bad, later, NodeField(fs[0], node).value, e);
    }
  }

  lemma {:induction false} AsFieldsOfThree(a: seq<WireField>, f: WireField, b: seq<WireField>)
    ensures AsFields(a + [f] + b) == AsFields(a) + [AsField(f)] + AsFields(b)
  {
    var all := a + [f] + b;
    if a == [] {
      assert all[1..] == b;
    } else {
      assert all[1..] == a[1..] + [f] + b;
      AsFieldsOfThree(a[1..], f, b);
    }
  }

  lemma ItemTextFails(t: ItemText)
    requires t.Wrapped? ==> AllWritable([VarintField(t.number, t.n)] + t.more)
    ensures forall item :: ItemField(AsField(ItemTextField(t)), item) == Err(RadixOutOfRange)
  {
    hide FieldsFrom, EncodeField, EncodeFields;
    if t.Wrapped? {
      var fs := [VarintField(t.number, t.n)] + t.more;
      FieldsRoundTrip(fs);
      assert AsFields(fs)[0] == Field(t.number, Number(Fin(t.n)));
    }
  }

  lemma ItemFails(f: Flaw)
    requires f.InItem? && ValidFlaw(f)
    ensures ItemOf(Buffer(EncodeFields(ItemFlaw(f)))) == Err(RadixOutOfRange)
  {
    hide FieldsFrom, EncodeField, EncodeFields, ItemWire, AttrFlaw, ValidAttr, ItemMeaning, ItemPartWire, ItemField;
    FieldsRoundTrip(ItemFlaw(f));
    ItemsDecode(f.items, NO_ITEM);
    ItemTextFails(f.text);
    var bad := ItemTextField(f.text);
    AsFieldsOfThree(ItemWire(f.items), bad, f.laterItems);
    ItemsStop(AsFields(ItemWire(f.items)), AsField(bad), AsFields(f.laterItems), NO_ITEM, RadixOutOfRange);
  }

  lemma AttrFails(f: Flaw)
    requires (f.InAttribute? || f.InItem?) && ValidFlaw(f)
    ensures FieldsOf(Buffer(EncodeFields(AttrFlaw(f)))).Ok?
    ensures AttrFields(FieldsOf(Buffer(EncodeFields(AttrFlaw(f)))).value, NO_ATTR) == Err(RadixOutOfRange)
  {
    hide FieldsFrom, EncodeField, EncodeFields, ItemFlaw, AttrWire, ItemOf;
    FieldsRoundTrip(AttrFlaw(f));
    AttrDecodes(f.attrs, NO_ATTR);
    if f.InItem? { ItemFails(f); }
    var bad := if f.InAttribute? then VarintField(f.number, f.n) else LenField(6, EncodeFields(ItemFlaw(f)));
    AsFieldsOfThree(AttrWire(f.attrs), bad, f.later);
    AttrStops(AsFields(AttrWire(f.attrs)), AsField(bad), AsFields(f.later), NO_ATTR, RadixOutOfRange);
  }

  lemma {:induction false} ElementFails(f: Flaw)
    requires ValidFlaw(f)
    ensures forall node :: ElementField(AsField(FlawField(f)), node) == Err(RadixOutOfRange)
    decreases f, 0
  {
    hide FieldsOf, EncodeFields, AttrFlaw, NodeFlaw, NodeOf;
    match f
    case InName(_) =>
    case InChild(nodes, parts, flaw, laterParts, later) => NumberForTextFails(nodes, parts, flaw, laterParts, later);
    case _ => AttrFails(f);
  }

  lemma {:induction false} PartsFail(parts: seq<ElemPart>, f: Flaw, later: seq<WireField>, node: Node)
    requires ValidElem(parts) && ValidFlaw(f) && AllWritable(ElemFlaw(parts, f, later))
    ensures NodeField(Field(1, Buffer(EncodeFields(ElemFlaw(parts, f, later)))), node) == Err(RadixOutOfRange)
    decreases f, 1
  {
    hide FieldsFrom, EncodeField, EncodeFields, ElementField, ElemWire, FlawField, ElemMeaning, Merge;
    ElementFails(f);
    ElemDecodes(parts);
    FieldsRoundTrip(ElemFlaw(parts, f, later));
    AsFieldsOfThree(ElemWire(parts), FlawField(f), later);
    ElementFieldsMerge(AsFields(ElemWire(parts)), node);
    ElementStops(AsFields(ElemWire(parts)), AsField(FlawField(f)), AsFields(later), node, RadixOutOfRange);
  }

  /** Main result: a number where a name, an attribute's name or raw value, or an item's text belongs makes the
      whole message unreadable, however deep it stands and whatever is around it. */
  lemma {:induction false} NumberForTextFails(
    nodes: seq<NodePart>, parts: seq<ElemPart>, f: Flaw, laterParts: seq<WireField>, later: seq<WireField>)
    requires ValidFlawed(nodes, parts, f, laterParts, later)
    ensures NodeOf(Buffer(EncodeFields(NodeFlaw(nodes, parts, f, laterParts, later)))) == Err(RadixOutOfRange)
    decreases f, 2
  {
    hide FieldsFrom, EncodeField, EncodeFields, ElemFlaw, NodeWire, NodeField, ElemMeaning, NodeMeaning;
    var bad := LenField(1, EncodeFields(ElemFlaw(parts, f, laterParts)));
    forall node ensures NodeField(AsField(bad), node) == Err(RadixOutOfRange) { PartsFail(parts, f, laterParts, node); }
    NodeDecodes(nodes);
    FieldsRoundTrip(NodeFlaw(nodes, parts, f, laterParts, later));
    AsFieldsOfThree(NodeWire(nodes), bad, later);
    NodeStops(AsFields(NodeWire(nodes)), AsField(bad), AsFields(later), EMPTY, RadixOutOfRange);
  }
}
