/**
 The decoder of aapt2's XmlNode message.  The functions below say what each message level means as
 a fold over its fields; the methods are the program's loops.  Text is kept as its UTF-8 bytes.
 */
module Manifest {
  import opened Wrappers
  import opened Wire

  datatype AttrValue =
    | Text(text: Bytes)
    | Flag(flag: bool)
    | Int(num: Num)
    | Blob(bytes: Bytes)
    | Undefined

  /** A compiled item, each property set at most by the last field that sets it. */
  datatype Item = Item(str: Option<Bytes>, flag: Option<bool>, num: Option<Value>)

  datatype Attr = Attr(name: Option<Bytes>, raw: Option<Bytes>, item: Option<Item>)

  datatype Node = Node(name: Option<Bytes>, attrs: map<Bytes, AttrValue>, children: seq<Node>)

  const NO_ITEM := Item(None, None, None)
  const NO_ATTR := Attr(None, None, None)
  const EMPTY := Node(None, map[], [])

  /** The property name an attribute without a name is stored under: "undefined". */
  const UNDEFINED_NAME: Bytes := [117, 110, 100, 101, 102, 105, 110, 101, 100]

  /** "__proto__": assigning a string, boolean or number to it leaves an object unchanged. */
  const PROTO: Bytes := [95, 95, 112, 114, 111, 116, 111, 95, 95]

  // ---------- meaning of one field at each level ----------

  /** value.toString('utf8'): for a number the argument is taken as a radix, which is out of range. */
  function TextOf(v: Value): Result<Bytes, DecodeError> {
    match v
    case Number(_) => Err(RadixOutOfRange)
    case Buffer(b) => Ok(b)
  }

  function PrimField(f: Field, item: Item): Item {
    if f.number == 8 then item.(flag := Some(f.value != Number(Fin(0))))
    else if f.number == 6 || f.number == 7 then item.(num := Some(f.value))
    else item
  }

  function PrimFields(fs: seq<Field>, item: Item): Item {
    if fs == [] then item else PrimFields(fs[1..], PrimField(fs[0], item))
  }

  function ItemField(f: Field, item: Item): Result<Item, DecodeError> {
    if f.number == 2 then
      var inner :- FieldsOf(f.value);
      if inner == [] then Ok(item.(str := Some([]))) else
      var text :- TextOf(inner[0].value);
      Ok(item.(str := Some(text)))
    else if f.number == 3 then
      var text :- TextOf(f.value);
      Ok(item.(str := Some(text)))
    else if f.number == 7 then
      var prims :- FieldsOf(f.value);
      Ok(PrimFields(prims, item))
    else Ok(item)
  }

  function ItemFields(fs: seq<Field>, item: Item): Result<Item, DecodeError> {
    if fs == [] then Ok(item) else
    var next :- ItemField(fs[0], item);
    ItemFields(fs[1..], next)
  }

  function ItemOf(v: Value): Result<Item, DecodeError> {
    var fs :- FieldsOf(v);
    ItemFields(fs, NO_ITEM)
  }

  function AttrField(f: Field, attr: Attr): Result<Attr, DecodeError> {
    if f.number == 2 then
      var text :- TextOf(f.value);
      Ok(attr.(name := Some(text)))
    else if f.number == 3 then
      var text :- TextOf(f.value);
      Ok(attr.(raw := Some(text)))
    else if f.number == 6 then
      var item :- ItemOf(f.value);
      Ok(attr.(item := Some(item)))
    else Ok(attr)
  }

  function AttrFields(fs: seq<Field>, attr: Attr): Result<Attr, DecodeError> {
    if fs == [] then Ok(attr) else
    var next :- AttrField(fs[0], attr);
    AttrFields(fs[1..], next)
  }

  /** The raw value unless it is missing or empty and a compiled item is present. */
  function Resolve(attr: Attr): AttrValue {
    if attr.item.Some? && (attr.raw.None? || attr.raw.value == []) then
      var item := attr.item.value;
      if item.str.Some? then Text(item.str.value)
      else if item.flag.Some? then Flag(item.flag.value)
      else match item.num
           case None => Undefined
           case Some(Number(n)) => Int(n)
           case Some(Buffer(b)) => Blob(b)
    else if attr.raw.Some? then Text(attr.raw.value)
    else Undefined
  }

  function Store(attrs: map<Bytes, AttrValue>, attr: Attr): map<Bytes, AttrValue> {
    var name := if attr.name.Some? then attr.name.value else UNDEFINED_NAME;
    if name == PROTO then attrs else attrs[name := Resolve(attr)]
  }

  function ElementField(f: Field, node: Node): Result<Node, DecodeError>
    decreases Size(f.value), 2
  {
    if f.number == 3 then
      var text :- TextOf(f.value);
      Ok(node.(name := Some(text)))
    else if f.number == 4 then
      var fs :- FieldsOf(f.value);
      var attr :- AttrFields(fs, NO_ATTR);
      Ok(node.(attrs := Store(node.attrs, attr)))
    else if f.number == 5 then
      var child :- NodeOf(f.value);
      Ok(node.(children := node.children + [child]))
    else Ok(node)
  }

  function ElementFields(fs: seq<Field>, node: Node): Result<Node, DecodeError>
    decreases Total(fs), 0
  {
    if fs == [] then Ok(node) else
    var next :- ElementField(fs[0], node);
    ElementFields(fs[1..], next)
  }

  function NodeField(f: Field, node: Node): Result<Node, DecodeError>
    decreases Size(f.value), 1
  {
    if f.number != 1 then Ok(node) else
    var fs :- FieldsOf(f.value);
    ElementFields(fs, node)
  }

  function NodeFields(fs: seq<Field>, node: Node): Result<Node, DecodeError>
    decreases Total(fs), 0
  {
    if fs == [] then Ok(node) else
    var next :- NodeField(fs[0], node);
    NodeFields(fs[1..], next)
  }

  /** What readXmlNode returns for a field's value; every level only looks at strictly shorter
      slices, so this is defined on all bytes whatsoever. */
  function NodeOf(v: Value): Result<Node, DecodeError>
    decreases Size(v), 1
  {
    var fs :- FieldsOf(v);
    NodeFields(fs, EMPTY)
  }

  /** The loop over a primitive's fields. */
  method ReadPrimitive(prims: seq<Field>, start: Item) returns (item: Item)
    ensures item == PrimFields(prims, start)
  {
    item := start;
    var i := 0;
    while i < |prims|
      invariant 0 <= i <= |prims|
      invariant PrimFields(prims, start) == PrimFields(prims[i..], item)
    {
      assert prims[i..][1..] == prims[i + 1..];
      var f := prims[i];
      if f.number == 8 {
        item := item.(flag := Some(f.value != Number(Fin(0))));
      } else if f.number == 6 || f.number == 7 {
        item := item.(num := Some(f.value));
      }
      i := i + 1;
    }
  }

  // ---------- the program ----------

  method ReadCompiledItem(value: Value) returns (r: Result<Item, DecodeError>)
    ensures r == ItemOf(value)
  {
    var item := NO_ITEM;
    var fields :- ReadFields(value);
    var i := 0;
    while i < |fields|
      invariant 0 <= i <= |fields|
      invariant ItemOf(value) == ItemFields(fields[i..], item)
    {
      var f := fields[i];
      assert fields[i..][1..] == fields[i + 1..];
      if f.number == 2 {
        var inner :- ReadFields(f.value);
        if |inner| > 0 {
          var text :- TextOf(inner[0].value);
          item := item.(str := Some(text));
        } else {
          item := item.(str := Some([]));
        }
      } else if f.number == 3 {
        var text :- TextOf(f.value);
        item := item.(str := Some(text));
      } else if f.number == 7 {
        var prims :- ReadFields(f.value);
        item := ReadPrimitive(prims, item);
      }
      i := i + 1;
    }
    return Ok(item);
  }

  /** The loop over an attribute's fields. */
  method ReadAttribute(value: Value) returns (r: Result<Attr, DecodeError>)
    ensures r == match FieldsOf(value) case Ok(fs) => AttrFields(fs, NO_ATTR) case Err(e) => Err(e)
  {
    var attr := NO_ATTR;
    var fields :- ReadFields(value);
    var i := 0;
    while i < |fields|
      invariant 0 <= i <= |fields|
      invariant AttrFields(fields, NO_ATTR) == AttrFields(fields[i..], attr)
    {
      var f := fields[i];
      assert fields[i..][1..] == fields[i + 1..];
      if f.number == 2 {
        var text :- TextOf(f.value);
        attr := attr.(name := Some(text));
      } else if f.number == 3 {
        var text :- TextOf(f.value);
        attr := attr.(raw := Some(text));
      } else if f.number == 6 {
        var item :- ReadCompiledItem(f.value);
        attr := attr.(item := Some(item));
      }
      i := i + 1;
    }
    return Ok(attr);
  }

  lemma {:induction false} SmallerThanTotal(fs: seq<Field>, i: nat)
    requires i < |fs|
    ensures Size(fs[i].value) < Total(fs)
  {
    if i > 0 { SmallerThanTotal(fs[1..], i - 1); }
  }

  method ReadXmlNode(value: Value) returns (r: Result<Node, DecodeError>)
    ensures r == NodeOf(value)
    decreases Size(value), 1
  {
    var node := EMPTY;
    var fields :- ReadFields(value);
    var i := 0;
    while i < |fields|
      invariant 0 <= i <= |fields|
      invariant NodeOf(value) == NodeFields(fields[i..], node)
    {
      assert fields[i..][1..] == fields[i + 1..];
      if fields[i].number == 1 {
        SmallerThanTotal(fields, i);
        node :- ReadElement(fields[i].value, node);
      }
      i := i + 1;
    }
    return Ok(node);
  }

  /** The loop over an element's fields; node is filled in place. */
  method ReadElement(value: Value, start: Node) returns (r: Result<Node, DecodeError>)
    ensures r == NodeField(Field(1, value), start)
    decreases Size(value), 0
  {
    var node := start;
    var fields :- ReadFields(value);
    var i := 0;
    while i < |fields|
      invariant 0 <= i <= |fields|
      invariant ElementFields(fields, start) == ElementFields(fields[i..], node)
    {
      var f := fields[i];
      SmallerThanTotal(fields, i);
      assert fields[i..][1..] == fields[i + 1..];
      if f.number == 3 {
        var text :- TextOf(f.value);
        node := node.(name := Some(text));
      } else if f.number == 4 {
        var attr :- ReadAttribute(f.value);
        node := node.(attrs := Store(node.attrs, attr));
      } else if f.number == 5 {
        var child :- ReadXmlNode(f.value);
        node := node.(children := node.children + [child]);
      }
      i := i + 1;
    }
    return Ok(node);
  }

  // ---------- merging ----------

  /** Later name wins, later attributes override, children are appended. */
  function Merge(m: Node, n: Node): Node {
    Node(if n.name.Some? then n.name else m.name, m.attrs + n.attrs, m.children + n.children)
  }

  lemma MergeAssociative(a: Node, b: Node, c: Node)
    ensures Merge(Merge(a, b), c) == Merge(a, Merge(b, c))
  {
    assert a.attrs + b.attrs + c.attrs == a.attrs + (b.attrs + c.attrs);
    assert a.children + b.children + c.children == a.children + (b.children + c.children);
  }

  lemma MergeUnit(a: Node)
    ensures Merge(EMPTY, a) == a && Merge(a, EMPTY) == a
  {
    assert map[] + a.attrs == a.attrs == a.attrs + map[];
    assert [] + a.children == a.children == a.children + [];
  }

  function MergeResult(m: Node, r: Result<Node, DecodeError>): Result<Node, DecodeError> {
    match r
    case Ok(n) => Ok(Merge(m, n))
    case Err(e) => Err(e)
  }

  lemma ElementFieldMerges(f: Field, node: Node)
    ensures ElementField(f, node) == MergeResult(node, ElementField(f, EMPTY))
  {
    MergeUnit(node);
    if f.number == 4 && ElementField(f, EMPTY).Ok? {
      var attr := AttrFields(FieldsOf(f.value).value, NO_ATTR).value;
      assert node.attrs + Store(map[], attr) == Store(node.attrs, attr);
      assert node.children + [] == node.children;
    } else if f.number == 3 && ElementField(f, EMPTY).Ok? {
      assert node.attrs + map[] == node.attrs && node.children + [] == node.children;
    } else if f.number == 5 && ElementField(f, EMPTY).Ok? {
      var child := NodeOf(f.value).value;
      assert [] + [child] == [child] && node.attrs + map[] == node.attrs;
    }
  }

  lemma {:induction false} ElementFieldsMerge(fs: seq<Field>, node: Node)
    ensures ElementFields(fs, node) == MergeResult(node, ElementFields(fs, EMPTY))
  {
    MergeUnit(node);
    if fs != [] {
      hide ElementField;
      ElementFieldMerges(fs[0], node);
      var first := ElementField(fs[0], EMPTY);
      if first.Ok? {
        ElementFieldsMerge(fs[1..], Merge(node, first.value));
        ElementFieldsMerge(fs[1..], first.value);
        var rest := ElementFields(fs[1..], EMPTY);
        if rest.Ok? { MergeAssociative(node, first.value, rest.value); }
      }
    }
  }

  lemma {:induction false} NodeFieldsMerge(fs: seq<Field>, node: Node)
    ensures NodeFields(fs, node) == MergeResult(node, NodeFields(fs, EMPTY))
  {
    MergeUnit(node);
    if fs != [] {
      hide ElementFields;
      if fs[0].number == 1 && FieldsOf(fs[0].value).Ok? {
        ElementFieldsMerge(FieldsOf(fs[0].value).value, node);
      }
      var first := NodeField(fs[0], EMPTY);
      assert NodeField(fs[0], node) == MergeResult(node, first);
      if first.Ok? {
        NodeFieldsMerge(fs[1..], Merge(node, first.value));
        NodeFieldsMerge(fs[1..], first.value);
        var rest := NodeFields(fs[1..], EMPTY);
        if rest.Ok? { MergeAssociative(node, first.value, rest.value); }
      }
    }
  }

  lemma {:induction false} NodeFieldsAppend(fs: seq<Field>, gs: seq<Field>, node: Node)
    ensures NodeFields(fs + gs, node) ==
            match NodeFields(fs, node) case Ok(n) => NodeFields(gs, n) case Err(e) => Err(e)
  {
    if fs == [] {
      assert [] + gs == gs;
    } else {
      hide NodeField;
      assert (fs + gs)[1..] == fs[1..] + gs;
      var first := NodeField(fs[0], node);
      if first.Ok? { NodeFieldsAppend(fs[1..], gs, first.value); }
    }
  }

  /** Decoding the concatenation of two messages is merging their decodings, for every first message
      whose fields end exactly at its end and any second message at all: it succeeds exactly when
      both decode. */
  lemma ConcatenationMerges(a: Bytes, b: Bytes)
    requires ExactFrom(a, 0)
    ensures NodeOf(Buffer(a + b)).Ok? <==> NodeOf(Buffer(a)).Ok? && NodeOf(Buffer(b)).Ok?
    ensures NodeOf(Buffer(a + b)).Ok? ==>
              NodeOf(Buffer(a + b)).value == Merge(NodeOf(Buffer(a)).value, NodeOf(Buffer(b)).value)
  {
    hide FieldsFrom, NodeFields;
    FieldsConcat(a, b);
    var fa, fb := FieldsOf(Buffer(a)).value, FieldsOf(Buffer(b));
    if fb.Ok? {
      NodeFieldsAppend(fa, fb.value, EMPTY);
      var na := NodeFields(fa, EMPTY);
      if na.Ok? { NodeFieldsMerge(fb.value, na.value); }
    }
  }
}
