/**
  The stateful printer of mxml/mxml.c: start tags are left open until it is known what follows them.
*/
module XmlWriter {
  import opened Options
  import opened XmlText
  import opened XmlTree

  /** The line of a start tag, as it is assembled in its buffer. */
  function StartLine(name: string, level: nat, indent: bool, translate: bool): string {
    Cut(Lead(level, indent) + "<" + TagName(name, translate), LINE_SIZE)
  }

  /** The encoded name that is kept on the stack for the end tag. */
  function TagName(name: string, translate: bool): string {
    Encoded(Cut(name, LINE_SIZE), LINE_SIZE, translate)
  }

  function EndLine(tag: string, level: nat, indent: bool): string {
    Cut(Lead(level, indent) + "</" + tag + ">\n", LINE_SIZE)
  }

  function AttributeLine(a: Attribute, translate: bool): string {
    " " + Encoded(a.name, ATTRIBUTE_SIZE, translate) + "=\"" + Encoded(a.value, ATTRIBUTE_SIZE, translate) + "\""
  }

  lemma CutAppend(a: string, b: string)
    ensures Cut(Cut(a, LINE_SIZE) + b, LINE_SIZE) == Cut(a + b, LINE_SIZE)
  {
  }

  lemma ForestStep(ts: seq<Node>, i: nat, level: nat, indent: bool, translate: bool)
    requires i < |ts|
    ensures Forest(ts[i..], level, indent, translate) ==
            Print(ts[i], level, indent, translate) + Forest(ts[i + 1..], level, true, translate)
  {
    hide Print;
    assert ts[i..][1..] == ts[i + 1..];
  }

  lemma ForestEmpty(level: nat, translate: bool)
    ensures Forest([], level, true, translate) == ""
  {
  }

  /** The buffer's size over the rest of a forest. */
  lemma SizesStep(ts: seq<Node>, i: nat, size: nat)
    requires i < |ts|
    ensures SizeAfterAll(ts[i..], size) == SizeAfterAll(ts[i + 1..], SizeAfter(ts[i], size))
    ensures StorableAll(ts[i..], size) ==> Storable(ts[i], size) && StorableAll(ts[i + 1..], SizeAfter(ts[i], size))
  {
    hide Storable, SizeAfter;
    assert ts[i..][1..] == ts[i + 1..];
  }

  lemma PrintableStep(ts: seq<Node>, i: nat, level: nat, size: nat, translate: bool)
    requires i < |ts| && PrintableAll(ts[i..], level, size, translate)
    ensures Printable(ts[i], level, size, translate)
    ensures PrintableAll(ts[i + 1..], level, SizeAfter(ts[i], size), translate)
  {
    hide Printable, SizeAfter;
    assert ts[i..][1..] == ts[i + 1..];
  }

  lemma SizesEnd(size: nat)
    ensures SizeAfterAll([], size) == size
  {
  }

  lemma PrintableTags(t: Node, level: nat, indent: bool, size: nat, translate: bool)
    requires Printable(t, level, size, translate)
    ensures TagName(t.name, translate) == Encoding(t.name, translate)
    ensures StartLine(t.name, level, indent, translate) == StartText(t, level, indent, translate)
    ensures EndLine(TagName(t.name, translate), level, indent) == Lead(level, indent) + ClosingTag(t.name, translate)
  {
    hide Encoding, Fits, Encoded;
    EncodedWithinSize(t.name, LINE_SIZE, translate);
    var lead := Lead(level, indent);
    assert lead + "</" + Encoding(t.name, translate) + ">\n" == lead + ClosingTag(t.name, translate);
  }

  function StartText(t: Node, level: nat, indent: bool, translate: bool): string {
    Lead(level, indent) + "<" + Encoding(t.name, translate)
  }

  function ValueText(t: Node, translate: bool): string {
    match t.value
    case None => ""
    case Some(v) => ">" + Encoding(v, translate)
  }

  /** An element's text up to its value, behind some other text. */
  function Opened(base: string, t: Node, level: nat, indent: bool, translate: bool): string {
    base + StartText(t, level, indent, translate) + AttributesText(t.attributes, translate) + ValueText(t, translate)
  }

  lemma JoinLeaf(base: string, start: string, attributes: string, value: string, end: string)
    ensures base + start + attributes + value + end == base + (start + attributes + (value + end))
  {
  }

  lemma JoinParent(base: string, start: string, attributes: string, value: string, open: string, kids: string,
                   lead: string, end: string)
    ensures base + start + attributes + value + (open + kids) + (lead + end) ==
            base + (start + attributes + (value + open + kids + lead + end))
  {
    JoinLeaf(base, start, attributes, value, open + kids + (lead + end));
    assert base + start + attributes + value + (open + kids) + (lead + end) ==
           base + start + attributes + value + (open + kids + (lead + end));
    assert value + open + kids + lead + end == value + (open + kids + (lead + end));
  }

  lemma OpenedParts(base: string, t: Node, level: nat, indent: bool, translate: bool)
    ensures var front := base + StartText(t, level, indent, translate) + AttributesText(t.attributes, translate);
            Opened(base, t, level, indent, translate) ==
            match t.value
            case None => front
            case Some(v) => front + ">" + Encoding(v, translate)
  {
    hide StartText, Encoding, AttributesText;
    var front := base + StartText(t, level, indent, translate) + AttributesText(t.attributes, translate);
    assert front + "" == front;
    if t.value.Some? {
      var text := Encoding(t.value.value, translate);
      assert front + (">" + text) == front + ">" + text;
    }
  }

  /** The bracket that is held back until the first child comes. */
  function Bracket(t: Node): string {
    if t.value.None? then ">\n" else ""
  }

  /** The children of an element, after the bracket that was held back for them. */
  function Kids(t: Node, level: nat, translate: bool): string {
    if t.children == [] then "" else Bracket(t) + Forest(t.children, level + 1, t.value.None?, translate)
  }

  /** What ends an element. */
  function End(t: Node, level: nat, translate: bool): string {
    if t.children != [] then Indent(level) + ClosingTag(t.name, translate)
    else if t.value.None? then "/>\n"
    else ClosingTag(t.name, translate)
  }

  /** What closes an opened element makes it print in full. */
  lemma OpenedThenClosed(base: string, t: Node, level: nat, indent: bool, translate: bool)
    ensures Opened(base, t, level, indent, translate) + Kids(t, level, translate) + End(t, level, translate) ==
            base + Print(t, level, indent, translate)
  {
    hide Encoding, AttributesText, Forest, ClosingTag, Indent, Body, Lead;
    var start := StartText(t, level, indent, translate);
    var attributes, closing := AttributesText(t.attributes, translate), ClosingTag(t.name, translate);
    var value := ValueText(t, translate);
    BodyParts(t, level, translate);
    if t.children == [] {
      JoinLeaf(base, start, attributes, value, End(t, level, translate));
      var front := Opened(base, t, level, indent, translate);
      assert front + "" == front == base + start + attributes + value;
    } else {
      var forest := Forest(t.children, level + 1, t.value.None?, translate);
      JoinParent(base, start, attributes, value, Bracket(t), forest, Indent(level), closing);
    }
  }

  lemma BodyParts(t: Node, level: nat, translate: bool)
    ensures var value := ValueText(t, translate);
            Body(t, level, translate) ==
            if t.children == [] then value + End(t, level, translate)
            else value + Bracket(t) + Forest(t.children, level + 1, t.value.None?, translate) + Indent(level)
                 + ClosingTag(t.name, translate)
  {
    hide Encoding, Forest, ClosingTag, Indent;
  }

  lemma NoAttributes(translate: bool)
    ensures AttributesText([], translate) == ""
  {
  }

  lemma AttributesStep(before: string, attributes: seq<Attribute>, i: nat, translate: bool)
    requires i < |attributes| && AttributeFits(attributes[i], translate)
    ensures before + AttributesText(attributes[i..], translate) ==
            before + AttributeLine(attributes[i], translate) + AttributesText(attributes[i + 1..], translate)
  {
    hide Encoded, Encoding, Fits;
    var a, rest := attributes[i], AttributesText(attributes[i + 1..], translate);
    assert attributes[i..][1..] == attributes[i + 1..];
    assert before + (AttributeText(a, translate) + rest) == before + AttributeText(a, translate) + rest;
    EncodedWithinSize(a.name, ATTRIBUTE_SIZE, translate);
    EncodedWithinSize(a.value, ATTRIBUTE_SIZE, translate);
  }

  // ----- The memory of a writer that was opened on a buffer -----

  const BUFFER_STEP: nat := 10000

  /** The length of the text so far and the size of the memory for it and its NUL. */
  datatype Memory = Memory(length: nat, size: nat)
  {
    predicate Holds() { length < size }

    /** A line makes the memory grow by one step at most. */
    function Line(n: nat): Memory {
      Memory(length + n, if length + n >= size then size + BUFFER_STEP else size)
    }

    function Lines(ns: seq<nat>): Memory
      decreases |ns|
    {
      if ns == [] then this else Line(ns[0]).Lines(ns[1..])
    }
  }

  lemma LineOverrunsIff(m: Memory, n: nat)
    requires m.Holds()
    ensures !m.Line(n).Holds() <==> m.length + n >= m.size + BUFFER_STEP
  {
  }

  /** A line of this length never overruns the memory, however full it is, exactly up to 10000 characters. */
  lemma SafeLineIff(n: nat)
    ensures (forall m: Memory :: m.Holds() ==> m.Line(n).Holds()) <==> n <= BUFFER_STEP
  {
    if n > BUFFER_STEP {
      var full := Memory(BUFFER_STEP - 1, BUFFER_STEP);
      assert full.Holds() && !full.Line(n).Holds();
    }
  }

  lemma {:induction false} SafeLines(m: Memory, ns: seq<nat>)
    requires m.Holds() && forall n <- ns :: n <= BUFFER_STEP
    ensures m.Lines(ns).Holds()
    decreases |ns|
  {
    if ns != [] {
      assert ns[0] in ns && forall n <- ns[1..] :: n in ns;
      SafeLines(m.Line(ns[0]), ns[1..]);
    }
  }

  class Writer {
    var level: nat
    var elementIsOpen: bool
    var dataWasWritten: bool
    var stack: seq<string>
    var translate: bool
    var buffer: string
    // The size of the buffer that values are encoded in, zero before the first value.
    var dataSize: nat

    ghost predicate Valid()
      reads this
    {
      |stack| == level && (dataSize > 0 ==> dataSize >= DATA_SIZE)
    }

    /** What the next start tag writes first. */
    function Pending(): string
      reads this
    {
      if elementIsOpen then ">\n" else ""
    }

    /** A new writer takes over the data buffer that earlier ones have left. */
    constructor (date: Option<string>, dataSize: nat)
      requires dataSize > 0 ==> dataSize >= DATA_SIZE
      ensures Valid() && buffer == Header(date) && level == 0 && !elementIsOpen && translate
      ensures this.dataSize == dataSize
    {
      level, elementIsOpen, dataWasWritten, stack, translate := 0, false, false, [], true;
      buffer, this.dataSize := Header(date), dataSize;
    }

    method WriteLine(line: string)
      modifies this`buffer
      ensures buffer == old(buffer) + line
    {
      buffer := buffer + line;
    }

    method IndentLine() returns (line: string)
      ensures line == Cut(Indent(level), LINE_SIZE)
    {
      line := "";
      for i := 0 to level
        invariant line == Cut(Indent(i), LINE_SIZE)
      {
        CutAppend(Indent(i), "  ");
        line := Cut(line + "  ", LINE_SIZE);
      }
    }

    method StartElement(name: string, indent: bool)
      requires Valid()
      modifies this`level, this`elementIsOpen, this`dataWasWritten, this`stack, this`buffer
      ensures Valid() && level == old(level) + 1 && elementIsOpen && !dataWasWritten
      ensures stack == old(stack) + [TagName(name, translate)]
      ensures buffer == old(buffer) + old(Pending()) + StartLine(name, old(level), indent, translate)
    {
      hide Encoded;
      if elementIsOpen {
        WriteLine(">\n");
        elementIsOpen := false;
      }
      var line := "";
      if indent {
        line := IndentLine();
      }
      ghost var lead := Lead(level, indent);
      CutAppend(lead, "<");
      line := Cut(line + "<", LINE_SIZE);
      var nameEnc := Encode(Cut(name, LINE_SIZE), LINE_SIZE, translate);
      CutAppend(lead + "<", nameEnc);
      line := Cut(line + nameEnc, LINE_SIZE);
      stack := stack + [nameEnc];
      level := level + 1;
      elementIsOpen := true;
      dataWasWritten := false;
      WriteLine(line);
    }

    method EndElement() returns (ok: bool)
      requires Valid()
      modifies this`level, this`elementIsOpen, this`dataWasWritten, this`stack, this`buffer
      ensures Valid() && ok == (old(level) > 0)
      ensures !ok ==> unchanged(this)
      ensures ok ==> level == old(level) - 1 && stack == old(stack)[..level] && !elementIsOpen
      ensures ok && old(elementIsOpen) ==> buffer == old(buffer) + "/>\n"
      ensures ok && !old(elementIsOpen) ==>
        buffer == old(buffer) + EndLine(old(stack[level - 1]), level, !old(dataWasWritten))
      ensures ok ==> dataWasWritten == (old(dataWasWritten) && old(elementIsOpen))
    {
      if level == 0 {
        return false;
      }
      level := level - 1;
      var tag := stack[level];
      stack := stack[..level];
      if elementIsOpen {
        elementIsOpen := false;
        WriteLine("/>\n");
        return true;
      }
      var line := "";
      if !dataWasWritten {
        line := IndentLine();
      }
      ghost var lead := Lead(level, !dataWasWritten);
      CutAppend(lead, "</");
      line := Cut(line + "</", LINE_SIZE);
      CutAppend(lead + "</", tag);
      line := Cut(line + tag, LINE_SIZE);
      CutAppend(lead + "</" + tag, ">\n");
      line := Cut(line + ">\n", LINE_SIZE);
      dataWasWritten := false;
      WriteLine(line);
      return true;
    }

    method WriteAttribute(a: Attribute) returns (ok: bool)
      requires Valid() && |a.name| < ATTRIBUTE_SIZE && |a.value| < ATTRIBUTE_SIZE
      modifies this`buffer
      ensures ok == elementIsOpen
      ensures buffer == old(buffer) + if ok then AttributeLine(a, translate) else ""
    {
      hide Encoded;
      if !elementIsOpen {
        return false;
      }
      var nameEnc := Encode(a.name, ATTRIBUTE_SIZE, translate);
      var valEnc := Encode(a.value, ATTRIBUTE_SIZE, translate);
      WriteLine(" " + nameEnc + "=\"" + valEnc + "\"");
      return true;
    }

    method WriteValue(data: string) returns (ok: bool)
      requires Valid() && (dataSize == 0 ==> |data| < DATA_SIZE)
      modifies this`elementIsOpen, this`dataWasWritten, this`buffer, this`dataSize
      ensures Valid() && ok == old(elementIsOpen)
      ensures !ok ==> unchanged(this)
      ensures ok ==> !elementIsOpen && dataWasWritten && dataSize > |data|
      ensures ok ==> dataSize == GrownTo(old(dataSize), data)
      ensures ok ==> buffer == old(buffer) + ">" + Encoded(data, dataSize, translate)
    {
      hide Encoded;
      if !elementIsOpen {
        return false;
      }
      WriteLine(">");
      elementIsOpen := false;
      dataWasWritten := true;
      if dataSize == 0 {
        dataSize := DATA_SIZE;
      } else if |data| * 2 + 1000 > dataSize {
        dataSize := 1000 + |data| * 2;
      }
      var dataEnc := Encode(data, dataSize, translate);
      WriteLine(dataEnc);
      return true;
    }

    method WriteAttributes(attributes: seq<Attribute>)
      requires Valid() && elementIsOpen && forall a <- attributes :: AttributeStorable(a)
      modifies this`buffer
      ensures (forall a <- attributes :: AttributeFits(a, translate)) ==>
        buffer == old(buffer) + AttributesText(attributes, translate)
    {
      hide Encoded, Encoding, Fits, AttributeLine, AttributesText, AttributeFits;
      ghost var fits := forall a <- attributes :: AttributeFits(a, translate);
      assert attributes[0..] == attributes && attributes[|attributes|..] == [];
      NoAttributes(translate);
      for i := 0 to |attributes|
        invariant fits ==>
          buffer + AttributesText(attributes[i..], translate) == old(buffer) + AttributesText(attributes, translate)
      {
        var a := attributes[i];
        assert a in attributes;
        if fits {
          AttributesStep(buffer, attributes, i, translate);
        }
        var _ := WriteAttribute(a);
      }
    }

    /** Writes the value of an element, if it has one; a value that fits is written whole. */
    method WriteContent(value: Option<string>)
      requires Valid() && elementIsOpen && !dataWasWritten
      requires value.Some? && dataSize == 0 ==> |value.value| < DATA_SIZE
      modifies this`elementIsOpen, this`dataWasWritten, this`buffer, this`dataSize
      ensures Valid() && elementIsOpen == value.None? && dataWasWritten == value.Some?
      ensures dataSize == SizeAfterValue(value, old(dataSize))
      ensures value.None? ==> buffer == old(buffer)
      ensures value.Some? && Fits(value.value, dataSize, translate) ==>
        buffer == old(buffer) + ">" + Encoding(value.value, translate)
    {
      hide Encoded, Encoding;
      if value.Some? {
        var _ := WriteValue(value.value);
        EncodedWithinSize(value.value, dataSize, translate);
      }
    }

    /** The start tag with its attributes, and the value if there is one. */
    method OpenElement(tree: Node, indent: bool)
      requires Valid() && Storable(tree, dataSize)
      modifies this
      ensures Valid() && level == old(level) + 1 && translate == old(translate)
      ensures stack == old(stack) + [TagName(tree.name, translate)]
      ensures elementIsOpen == tree.value.None? && dataWasWritten == tree.value.Some?
      ensures dataSize == SizeAfterValue(tree.value, old(dataSize))
      ensures old(Printable(tree, level, dataSize, translate)) ==>
        buffer == Opened(old(buffer) + old(Pending()), tree, old(level), indent, translate)
    {
      hide Encoded, Encoding, Fits, StartLine, StartText, TagName, AttributesText, AttributeFits, Opened;
      if Printable(tree, level, dataSize, translate) {
        PrintableTags(tree, level, indent, dataSize, translate);
      }
      OpenedParts(buffer + Pending(), tree, level, indent, translate);
      StartElement(tree.name, indent);
      WriteAttributes(tree.attributes);
      WriteContent(tree.value);
    }

    /** Everything of an element but its end. */
    method WriteInside(tree: Node, indent: bool)
      requires Valid() && Storable(tree, dataSize)
      modifies this
      ensures Valid() && level == old(level) + 1 && translate == old(translate)
      ensures stack == old(stack) + [TagName(tree.name, translate)]
      ensures elementIsOpen == (tree.children == [] && tree.value.None?)
      ensures dataWasWritten == (tree.children == [] && tree.value.Some?)
      ensures dataSize == SizeAfter(tree, old(dataSize))
      ensures old(Printable(tree, level, dataSize, translate)) ==>
        buffer == Opened(old(buffer) + old(Pending()), tree, old(level), indent, translate)
                  + Kids(tree, old(level), translate)
      decreases tree, 1
    {
      hide Encoded, Encoding, Fits, AttributesText, Forest, Print, AttributeFits, Opened, TagName;
      OpenElement(tree, indent);
      ghost var front := buffer;
      WriteChildren(tree.children, tree.value.None?);
      assert front + "" == front;
      if tree.value.None? && tree.children != [] {
        var kids := Forest(tree.children, level, true, translate);
        assert front + ">\n" + kids == front + (">\n" + kids);
      }
    }

    /** Writes a whole element. Where no buffer is too small, the text is exactly what the tree prints as. */
    method WriteSubtree(tree: Node, indent: bool) returns (ok: bool)
      requires Valid() && Storable(tree, dataSize)
      modifies this
      ensures Valid() && ok && level == old(level) && stack == old(stack) && translate == old(translate)
      ensures !elementIsOpen && !dataWasWritten && dataSize == SizeAfter(tree, old(dataSize))
      ensures old(Printable(tree, level, dataSize, translate)) ==>
        buffer == old(buffer) + old(Pending()) + Print(tree, level, indent, translate)
      decreases tree, 2
    {
      hide Encoded, Encoding, Fits, StartLine, EndLine, TagName, Kids, Print, Opened, Storable, ClosingTag, Indent;
      hide Printable, SizeAfter;
      if Printable(tree, level, dataSize, translate) {
        PrintableTags(tree, level, tree.children != [], dataSize, translate);
      }
      OpenedThenClosed(buffer + Pending(), tree, level, indent, translate);
      WriteInside(tree, indent);
      ok := EndElement();
      assert stack == old(stack);
    }

    method WriteChildren(children: seq<Node>, indent: bool)
      requires Valid() && level > 0 && elementIsOpen == indent && dataWasWritten == !indent
      requires StorableAll(children, dataSize)
      modifies this
      ensures Valid() && level == old(level) && stack == old(stack) && translate == old(translate)
      ensures dataSize == SizeAfterAll(children, old(dataSize))
      ensures children == [] ==> unchanged(this)
      ensures children != [] ==> !elementIsOpen && !dataWasWritten
      ensures children != [] && old(PrintableAll(children, level, dataSize, translate)) ==>
        buffer == old(buffer) + old(Pending()) + Forest(children, level, indent, translate)
      decreases children, 0
    {
      hide Encoded, Encoding, Fits, Printable, Storable, Print, Forest, SizeAfter, StorableAll, PrintableAll;
      hide SizeAfterAll;
      ghost var fits := PrintableAll(children, level, dataSize, translate);
      ghost var goal := old(buffer) + old(Pending()) + Forest(children, level, indent, translate);
      assert children[0..] == children;
      for i := 0 to |children|
        invariant Valid() && level == old(level) && stack == old(stack) && translate == old(translate)
        invariant StorableAll(children[i..], dataSize)
        invariant SizeAfterAll(children[i..], dataSize) == SizeAfterAll(children, old(dataSize))
        invariant i == 0 ==> unchanged(this)
        invariant i > 0 ==> !elementIsOpen && !dataWasWritten
        invariant fits ==> PrintableAll(children[i..], level, dataSize, translate)
        invariant fits ==> buffer + Pending() + Forest(children[i..], level, indent || i > 0, translate) == goal
      {
        var c, first := children[i], i == 0;
        SizesStep(children, i, dataSize);
        if fits {
          PrintableStep(children, i, level, dataSize, translate);
        }
        ForestStep(children, i, level, indent || !first, translate);
        ghost var text, before := Print(c, level, indent || !first, translate), buffer + Pending();
        ghost var rest := Forest(children[i + 1..], level, true, translate);
        assert before + (text + rest) == before + text + rest;
        var _ := WriteSubtree(c, indent || !first);
      }
      assert children[|children|..] == [];
      ForestEmpty(level, translate);
      SizesEnd(dataSize);
    }
  }

  lemma ForestFirst(before: string, t: Node, ts: seq<Node>, translate: bool)
    ensures before + Forest([t] + ts, 0, true, translate) ==
            before + Print(t, 0, true, translate) + Forest(ts, 0, true, translate)
  {
    hide Print;
    assert ([t] + ts)[1..] == ts;
  }

  lemma ElementsStep(ts: seq<Node>, i: nat)
    requires i < |ts|
    ensures Elements(ts[i..]) ==
            if ts[i].kind == Element then [ts[i]] + Elements(ts[i + 1..]) else Elements(ts[i + 1..])
  {
    assert ts[i..][1..] == ts[i + 1..];
  }

  lemma SizesFirst(t: Node, ts: seq<Node>, size: nat, translate: bool)
    requires StorableAll([t] + ts, size)
    ensures Storable(t, size) && StorableAll(ts, SizeAfter(t, size))
    ensures PrintableAll([t] + ts, 0, size, translate) ==>
      Printable(t, 0, size, translate) && PrintableAll(ts, 0, SizeAfter(t, size), translate)
    ensures SizeAfterAll([t] + ts, size) == SizeAfterAll(ts, SizeAfter(t, size))
  {
    hide Storable, Printable, SizeAfter;
    assert ([t] + ts)[1..] == ts;
  }

  /** Writes the elements below the root as a document; instructions and comments are left out. */
  method WriteTree(tree: Node, date: Option<string>, dataSize: nat) returns (text: string, sizeLeft: nat)
    requires dataSize > 0 ==> dataSize >= DATA_SIZE
    requires StorableAll(Elements(tree.children), dataSize)
    ensures sizeLeft == SizeAfterAll(Elements(tree.children), dataSize) && (sizeLeft > 0 ==> sizeLeft >= DATA_SIZE)
    ensures PrintableAll(Elements(tree.children), 0, dataSize, true) ==>
      text == DocumentText(Elements(tree.children), date, true)
  {
    hide Printable, Storable, Print, Header, Forest, SizeAfter, SizeAfterAll, StorableAll, PrintableAll, Elements;
    var writer := new Writer(date, dataSize);
    ghost var fits := PrintableAll(Elements(tree.children), 0, dataSize, true);
    assert tree.children[0..] == tree.children;
    for i := 0 to |tree.children|
      invariant writer.Valid() && writer.level == 0 && !writer.elementIsOpen && writer.translate && fresh(writer)
      invariant StorableAll(Elements(tree.children[i..]), writer.dataSize)
      invariant SizeAfterAll(Elements(tree.children[i..]), writer.dataSize) ==
                SizeAfterAll(Elements(tree.children), dataSize)
      invariant fits ==> PrintableAll(Elements(tree.children[i..]), 0, writer.dataSize, true)
      invariant fits ==> writer.buffer + Forest(Elements(tree.children[i..]), 0, true, true) ==
                         DocumentText(Elements(tree.children), date, true)
    {
      var c := tree.children[i];
      ElementsStep(tree.children, i);
      if c.kind == Element {
        ghost var rest := Elements(tree.children[i + 1..]);
        SizesFirst(c, rest, writer.dataSize, true);
        ForestFirst(writer.buffer, c, rest, true);
        assert writer.buffer + writer.Pending() == writer.buffer;
        var _ := writer.WriteSubtree(c, true);
      }
    }
    assert tree.children[|tree.children|..] == [];
    NoElements();
    ForestEmpty(0, true);
    SizesEnd(writer.dataSize);
    assert writer.buffer + "" == writer.buffer;
    text, sizeLeft := writer.buffer, writer.dataSize;
  }

  lemma NoElements()
    ensures Elements([]) == []
  {
  }
}
