/**
  Element trees of mxml/mxml.c and the text that the printer gives them.
*/
module XmlTree {
  import opened Options
  import opened XmlText

  datatype Kind = Element | Instruction | Comment | Document

  datatype Attribute = Attribute(name: string, value: string)

  // A value may be absent, and that is not the same as an empty one.
  datatype Node = Node(name: string, kind: Kind, value: Option<string>, attributes: seq<Attribute>, children: seq<Node>)

  // Sizes of the buffers that limit what is kept of a text.
  const NAME_LENGTH: nat := 64
  const LINE_SIZE: nat := 1000
  const ATTRIBUTE_SIZE: nat := 4096
  const DATA_SIZE: nat := 1000

  function Indent(level: nat): (s: string)
    ensures |s| == 2 * level && forall c <- s :: c == ' '
  {
    if level == 0 then "" else Indent(level - 1) + "  "
  }

  function AttributeText(a: Attribute, translate: bool): string {
    " " + Encoding(a.name, translate) + "=\"" + Encoding(a.value, translate) + "\""
  }

  function AttributesText(attributes: seq<Attribute>, translate: bool): string {
    if attributes == [] then ""
    else AttributeText(attributes[0], translate) + AttributesText(attributes[1..], translate)
  }

  function ClosingTag(name: string, translate: bool): string {
    "</" + Encoding(name, translate) + ">\n"
  }

  /** What stands in front of a tag. */
  function Lead(level: nat, indent: bool): string {
    if indent then Indent(level) else ""
  }

  /** What follows the attributes of an element. */
  function Body(t: Node, level: nat, translate: bool): string
    decreases t, 1
  {
    if t.children == [] then
      match t.value
      case None => "/>\n"
      case Some(v) => ">" + Encoding(v, translate) + ClosingTag(t.name, translate)
    else
      var head := if t.value.None? then ">\n" else ">" + Encoding(t.value.value, translate);
      head + Forest(t.children, level + 1, t.value.None?, translate) + Indent(level) + ClosingTag(t.name, translate)
  }

  /** The text of an element at a nesting level; a first child right after a value is not indented. */
  function Print(t: Node, level: nat, indent: bool, translate: bool): string
    decreases t, 2
  {
    Lead(level, indent) + "<" + Encoding(t.name, translate)
    + AttributesText(t.attributes, translate) + Body(t, level, translate)
  }

  function Forest(ts: seq<Node>, level: nat, indent: bool, translate: bool): string
    decreases ts, 0
  {
    if ts == [] then "" else Print(ts[0], level, indent, translate) + Forest(ts[1..], level, true, translate)
  }

  // ----- The buffer that values are encoded in -----

  // It is kept from one value to the next, over all documents; its size is zero before the first value of all.

  /** The size once a value has been encoded: 1000 for the first value of all, later enough for each value. */
  function GrownTo(size: nat, v: string): nat {
    if size == 0 then DATA_SIZE
    else if size < 2 * |v| + 1000 then 2 * |v| + 1000
    else size
  }

  function SizeAfterValue(value: Option<string>, size: nat): nat {
    match value
    case None => size
    case Some(v) => GrownTo(size, v)
  }

  /** Values are written in document order: an element's own before those of its children. */
  function SizeAfter(t: Node, size: nat): nat
    decreases t, 1
  {
    SizeAfterAll(t.children, SizeAfterValue(t.value, size))
  }

  function SizeAfterAll(ts: seq<Node>, size: nat): nat
    decreases ts, 0
  {
    if ts == [] then size else SizeAfterAll(ts[1..], SizeAfter(ts[0], size))
  }

  predicate AttributeFits(a: Attribute, translate: bool) {
    && |a.name| < ATTRIBUTE_SIZE && Fits(a.name, ATTRIBUTE_SIZE, translate)
    && |a.value| < ATTRIBUTE_SIZE && Fits(a.value, ATTRIBUTE_SIZE, translate)
  }

  /** No buffer cuts anything off while the tree is printed, from a size of the data buffer on. */
  predicate Printable(t: Node, level: nat, size: nat, translate: bool)
    decreases t, 1
  {
    && |t.name| < LINE_SIZE && Fits(t.name, LINE_SIZE, translate)
    && 2 * level + |Encoding(t.name, translate)| + 4 < LINE_SIZE
    && (forall a <- t.attributes :: AttributeFits(a, translate))
    && (t.value.Some? ==> Fits(t.value.value, GrownTo(size, t.value.value), translate))
    && PrintableAll(t.children, level + 1, SizeAfterValue(t.value, size), translate)
  }

  predicate PrintableAll(ts: seq<Node>, level: nat, size: nat, translate: bool)
    decreases ts, 0
  {
    ts != [] ==>
      && Printable(ts[0], level, size, translate)
      && PrintableAll(ts[1..], level, SizeAfter(ts[0], size), translate)
  }

  predicate AttributeStorable(a: Attribute) {
    |a.name| < ATTRIBUTE_SIZE && |a.value| < ATTRIBUTE_SIZE
  }

  /** What the caller must see to: texts are copied into the attribute buffers and the data buffer unchecked. */
  predicate Storable(t: Node, size: nat)
    decreases t, 1
  {
    && (forall a <- t.attributes :: AttributeStorable(a))
    && (t.value.Some? && size == 0 ==> |t.value.value| < DATA_SIZE)
    && StorableAll(t.children, SizeAfterValue(t.value, size))
  }

  predicate StorableAll(ts: seq<Node>, size: nat)
    decreases ts, 0
  {
    ts != [] ==> Storable(ts[0], size) && StorableAll(ts[1..], SizeAfter(ts[0], size))
  }

  predicate AttributesStorable(t: Node)
    decreases t
  {
    (forall a <- t.attributes :: AttributeStorable(a)) && forall c <- t.children :: AttributesStorable(c)
  }

  /** The first value in document order. */
  function FirstValue(t: Node): Option<string>
    decreases t, 1
  {
    if t.value.Some? then t.value else FirstOfAll(t.children)
  }

  function FirstOfAll(ts: seq<Node>): Option<string>
    decreases ts, 0
  {
    if ts == [] then None
    else if FirstValue(ts[0]).Some? then FirstValue(ts[0])
    else FirstOfAll(ts[1..])
  }

  predicate FirstFits(value: Option<string>, size: nat) {
    size == 0 && value.Some? ==> |value.value| < DATA_SIZE
  }

  /** Of all values only the very first one has to be short, and only while no value has been written before. */
  lemma {:induction false} StorableIff(t: Node, size: nat)
    ensures Storable(t, size) <==> AttributesStorable(t) && FirstFits(FirstValue(t), size)
    ensures SizeAfter(t, size) == 0 <==> size == 0 && FirstValue(t).None?
    decreases t, 1
  {
    StorableAllIff(t.children, SizeAfterValue(t.value, size));
  }

  lemma {:induction false} StorableAllIff(ts: seq<Node>, size: nat)
    ensures StorableAll(ts, size) <==> (forall t <- ts :: AttributesStorable(t)) && FirstFits(FirstOfAll(ts), size)
    ensures SizeAfterAll(ts, size) == 0 <==> size == 0 && FirstOfAll(ts).None?
    decreases ts, 0
  {
    if ts != [] {
      StorableIff(ts[0], size);
      StorableAllIff(ts[1..], SizeAfter(ts[0], size));
      assert forall t :: t in ts <==> t == ts[0] || t in ts[1..];
    }
  }

  const DECLARATION: string := "xml version=\"1.0\" encoding=\"ISO-8859-1\""
  const CREATED: string := "created by MXML on "

  /** The first lines of a document; the second one, with the date, can be suppressed. */
  function Header(date: Option<string>): string {
    "<?" + (DECLARATION + ("?>\n" +
      match date
      case None => ""
      case Some(d) => "<!-- " + ((CREATED + d + " ") + "-->\n")))
  }

  function DocumentText(ts: seq<Node>, date: Option<string>, translate: bool): string {
    Header(date) + Forest(ts, 0, true, translate)
  }

  function Elements(ts: seq<Node>): seq<Node> {
    if ts == [] then [] else (if ts[0].kind == Element then [ts[0]] else []) + Elements(ts[1..])
  }
}
