/**
  Printing and then parsing gives the tree back.
*/
module XmlRoundTrip {
  import opened Options
  import opened XmlText
  import opened XmlTree
  import opened XmlParser

  predicate PlainChar(c: char) { !IsSpace(c) && c != '/' && c != '>' && c != '=' }

  predicate OrdinaryName(n: string) {
    0 < |n| < NAME_LENGTH && n[0] != '!' && n[0] != '?' && forall i :: 0 <= i < |n| ==> PlainChar(n[i])
  }

  /** Short enough for the parser's buffers; a quote in a value must have been translated. */
  predicate OrdinaryAttribute(a: Attribute, translate: bool) {
    && OrdinaryName(a.name) && |Encoding(a.name, translate)| < ATTRIBUTE_NAME_SIZE
    && |Encoding(a.value, translate)| < ATTRIBUTE_VALUE_SIZE && (translate || '"' !in a.value)
  }

  /** A tree of elements only, with names and attributes that the parser reads whole. */
  predicate Ordinary(t: Node, translate: bool)
    decreases t
  {
    && t.kind == Element && OrdinaryName(t.name)
    && (forall i :: 0 <= i < |t.attributes| ==> OrdinaryAttribute(t.attributes[i], translate))
    && forall c <- t.children :: Ordinary(c, translate)
  }

  /** The tree without the values that are nothing but space in front of a child. */
  function Normal(t: Node): Node
    decreases t, 1
  {
    var lost := t.value.Some? && t.children != [] && AllSpace(t.value.value);
    t.(value := if lost then None else t.value, children := NormalAll(t.children))
  }

  function NormalAll(ts: seq<Node>): (r: seq<Node>)
    ensures |r| == |ts| && forall i :: 0 <= i < |ts| ==> r[i] == Normal(ts[i])
    decreases ts, 0
  {
    if ts == [] then [] else [Normal(ts[0])] + NormalAll(ts[1..])
  }

  /** No element has a blank value in front of its children. */
  predicate NoBlankValue(t: Node)
    decreases t
  {
    && (t.value.Some? && t.children != [] ==> !AllSpace(t.value.value))
    && forall c <- t.children :: NoBlankValue(c)
  }

  lemma {:induction false} NormalIff(t: Node)
    ensures Normal(t) == t <==> NoBlankValue(t)
    decreases t
  {
    forall c <- t.children
      ensures Normal(c) == c <==> NoBlankValue(c)
    {
      NormalIff(c);
    }
    if Normal(t) == t {
      forall c <- t.children
        ensures NoBlankValue(c)
      {
        var i :| 0 <= i < |t.children| && t.children[i] == c;
        assert NormalAll(t.children)[i] == Normal(c);
      }
    }
    if NoBlankValue(t) {
      assert NormalAll(t.children) == t.children;
    }
  }

  lemma EntityChars(c: char, translate: bool)
    ensures var e := Entity(c, translate);
            && e != "" && (e == [c] || (e[0] == '&' && !IsSpace(c)))
            && forall i :: 0 <= i < |e| ==> e[i] != '<' && (e[i] == c || (PlainChar(e[i]) && e[i] != '"'))
    ensures translate && c == '"' ==> '"' !in Entity(c, translate)
  {
  }

  lemma {:induction false} NameEncoding(n: string, translate: bool)
    requires forall i :: 0 <= i < |n| ==> PlainChar(n[i])
    ensures var e := Encoding(n, translate); forall i :: 0 <= i < |e| ==> PlainChar(e[i]) && e[i] != '<'
    ensures n != "" ==> var e := Encoding(n, translate); e != "" && (e[0] == n[0] || e[0] == '&')
  {
    hide Entity, PlainChar;
    if n != "" {
      EntityChars(n[0], translate);
      NameEncoding(n[1..], translate);
    }
  }

  lemma {:induction false} ValueEncoding(v: string, translate: bool)
    ensures var e := Encoding(v, translate);
            forall i :: 0 <= i < |e| ==> e[i] != '<' && (translate || '"' !in v ==> e[i] != '"')
    ensures AllSpace(Encoding(v, translate)) ==> AllSpace(v)
  {
    hide Entity, PlainChar;
    if v != "" {
      EntityChars(v[0], translate);
      ValueEncoding(v[1..], translate);
      var e, first := Encoding(v, translate), Entity(v[0], translate);
      assert e[0] == first[0] && e[|first|..] == Encoding(v[1..], translate);
      assert '"' !in v ==> '"' !in v[1..];
      forall i | 0 <= i < |e|
        ensures e[i] != '<' && (translate || '"' !in v ==> e[i] != '"')
      {
        assert e[i] == if i < |first| then first[i] else Encoding(v[1..], translate)[i - |first|];
      }
      if AllSpace(e) {
        assert first == [v[0]] by { assert IsSpace(e[0]); }
        forall i | 0 <= i < |v|
          ensures IsSpace(v[i])
        {
          assert i > 0 ==> IsSpace(v[1..][i - 1]);
        }
      }
    }
  }

  lemma DecodesBack(s: string, translate: bool)
    ensures Decoding(Encoding(s, translate)) == s
  {
    EncodeRoundTrip(s, translate, "");
    assert Encoding(s, translate) + "" == Encoding(s, translate) && s + Decoding("") == s;
  }

  lemma ResumeSkips(st: State, a: string, b: string)
    requires st.Valid() && '<' !in a
    ensures Resume(st, a + b) == Resume(st, b)
  {
    hide Span, Parse, State.Valid, State.Root;
    var k := Span(b, Outside);
    assert b == b[..k] + b[k..];
    assert a + b == (a + b[..k]) + b[k..];
    SpanStops(a + b[..k], b[k..], Outside);
  }

  /** A quoted value is read back whole. */
  lemma ValueRead(node: Node, name: string, v: string, translate: bool, rest: string)
    requires |Encoding(v, translate)| < ATTRIBUTE_VALUE_SIZE && (translate || '"' !in v)
    requires SkipSpace(rest) != ""
    ensures ReadValue(node, name, "\"" + Encoding(v, translate) + "\"" + rest)
         == Read(node.(attributes := node.attributes + [Attribute(Cut(name, NAME_LENGTH), v)]), SkipSpace(rest))
  {
    hide Encoding, Decoding, SkipSpace, Span;
    var e := Encoding(v, translate);
    var s := "\"" + e + "\"" + rest;
    NoSpace(s);
    var s2 := s[1..];
    assert s2 == e + ("\"" + rest);
    ValueEncoding(v, translate);
    SpanStops(e, "\"" + rest, Not('"'));
    assert s2[|e| + 1..] == rest;
    DecodesBack(v, translate);
  }

  lemma OrdinaryParts(a: Attribute, translate: bool)
    requires OrdinaryAttribute(a, translate)
    ensures OrdinaryName(a.name)
  {
  }

  /** The text of an attribute from its name on. */
  function FromName(a: Attribute, translate: bool, rest: string): string {
    Encoding(a.name, translate) + ("=" + ("\"" + Encoding(a.value, translate) + "\"" + rest))
  }

  lemma NameReached(a: Attribute, translate: bool, rest: string)
    requires OrdinaryName(a.name)
    ensures SkipSpace(AttributeText(a, translate) + rest) == FromName(a, translate, rest)
    ensures FromName(a, translate, rest) != "" && !EndsTag(FromName(a, translate, rest)[0])
  {
    hide Encoding, Span;
    NameEncoding(a.name, translate);
    var s := FromName(a, translate, rest);
    assert AttributeText(a, translate) + rest == " " + s;
    assert s[0] == Encoding(a.name, translate)[0];
    SpanStops(" ", s, IsSpace);
  }

  lemma AttributeRead(node: Node, a: Attribute, inside: string, translate: bool, rest: string)
    requires OrdinaryAttribute(a, translate) && SkipSpace(rest) != ""
    requires var s := FromName(a, translate, rest); s != "" && !EndsTag(s[0])
    ensures ReadAttribute(node, FromName(a, translate, rest), inside) ==
            Read(node.(attributes := node.attributes + [a]), SkipSpace(rest))
  {
    hide Encoding, Decoding, Span, ReadValue, SkipSpace;
    var n, v := Encoding(a.name, translate), "\"" + Encoding(a.value, translate) + "\"" + rest;
    NameEncoding(a.name, translate);
    SpanStops(n, "=" + v, AttributeChar);
    NoSpace("=" + v);
    assert ("=" + v)[1..] == v;
    DecodesBack(a.name, translate);
    ValueRead(node, a.name, a.value, translate, rest);
  }

  lemma {:induction false} AttributesRead(node: Node, attributes: seq<Attribute>, inside: string, translate: bool,
                                          rest: string)
    requires forall i :: 0 <= i < |attributes| ==> OrdinaryAttribute(attributes[i], translate)
    requires rest != "" && EndsTag(rest[0])
    ensures SkipSpace(AttributesText(attributes, translate) + rest) != ""
    ensures ReadAttributes(node, SkipSpace(AttributesText(attributes, translate) + rest), inside)
         == Read(node.(attributes := node.attributes + attributes), rest)
    decreases |attributes|
  {
    hide SkipSpace, AttributeText, ReadAttribute, FromName, OrdinaryAttribute;
    if attributes == [] {
      assert AttributesText(attributes, translate) + rest == rest && node.attributes + attributes == node.attributes;
      NoSpace(rest);
    } else {
      var a, others := attributes[0], attributes[1..];
      var node' := node.(attributes := node.attributes + [a]);
      var tail := AttributesText(others, translate) + rest;
      AttributesRead(node', others, inside, translate, rest);
      assert AttributesText(attributes, translate) + rest == AttributeText(a, translate) + tail;
      assert OrdinaryName(a.name) by { OrdinaryParts(a, translate); }
      NameReached(a, translate, tail);
      AttributeRead(node, a, inside, translate, tail);
      assert node.attributes + [a] + others == node.attributes + attributes;
    }
  }

  /** A start tag is read up to its end. */
  lemma TagRead(st: State, name: string, attributes: seq<Attribute>, translate: bool, rest: string)
    requires st.open != [] && OrdinaryName(name) && rest != "" && EndsTag(rest[0])
    requires forall i :: 0 <= i < |attributes| ==> OrdinaryAttribute(attributes[i], translate)
    ensures ReadMarkup(st, Encoding(name, translate) + (AttributesText(attributes, translate) + rest))
         == ReadTail(st, Node(name, Element, None, attributes, []), rest)
  {
    hide Encoding, Decoding, Span, SkipSpace, ReadTail, ReadAttributes, AttributesText, OrdinaryAttribute;
    var e, tail := Encoding(name, translate), AttributesText(attributes, translate) + rest;
    var s := e + tail;
    NameEncoding(name, translate);
    assert s[0] == e[0];
    NoSpace(s);
    TailStarts(attributes, translate, rest);
    SpanStops(e, tail, NameChar);
    DecodesBack(name, translate);
    AttributesRead(Node(name, Element, None, [], []), attributes, name, translate, rest);
    assert [] + attributes == attributes;
    assert ReadMarkup(st, s) == ReadOpen(st, s);
  }

  lemma TailStarts(attributes: seq<Attribute>, translate: bool, rest: string)
    requires rest != "" && EndsTag(rest[0])
    ensures var tail := AttributesText(attributes, translate) + rest; tail != "" && tail[0] != '<' && !NameChar(tail[0])
  {
    hide Encoding;
    if attributes != [] {
      assert AttributeText(attributes[0], translate)[0] == ' ';
    }
  }

  /** An empty element is added to the node it is in. */
  lemma EmptyRead(st: State, node: Node, rest: string)
    requires st.open != []
    ensures ReadTail(st, node, "/>\n" + rest) == Go(st.Add(node), "\n" + rest)
  {
    hide State.Add;
    var s := "/>\n" + rest;
    assert s[1..] == ">\n" + rest && (">\n" + rest)[1..] == "\n" + rest;
    NoSpace(">\n" + rest);
  }

  /** The space at the start of an encoded value ends before the next tag, or the value is all space. */
  lemma ValueSpace(v: string, translate: bool, rest: string)
    requires rest != "" && rest[0] == '<'
    ensures var e := Encoding(v, translate); var k := Span(e + rest, IsSpace);
            k <= |e| && (e + rest)[k..] == e[k..] + rest && (k < |e| ==> e[k] != '<') && (k == |e| ==> AllSpace(v))
  {
    hide Encoding;
    var e := Encoding(v, translate);
    var s := e + rest;
    var k := Span(s, IsSpace);
    ValueEncoding(v, translate);
    assert k > |e| ==> IsSpace(s[|e|]);
    if k == |e| {
      forall i | 0 <= i < |e|
        ensures IsSpace(e[i])
      {
        assert s[i] == e[i];
      }
    }
  }

  /** Past its leading space the value is read up to the bracket behind it. */
  lemma RestOfValueRead(st: State, node: Node, v: string, translate: bool, rest: string)
    requires "<" <= rest
    ensures var s := Encoding(v, translate) + rest;
            ReadText(st, node, s, Span(s, IsSpace)) == Go(st.Enter(node.(value := Some(v))), rest)
  {
    hide Encoding, Decoding, AllSpace, State.Enter;
    var e := Encoding(v, translate);
    var s := e + rest;
    var k := Span(s, IsSpace);
    ValueSpace(v, translate, rest);
    ValueEncoding(v, translate);
    DecodesBack(v, translate);
    SpanStops(e[k..], rest, Outside);
    assert s[..|e|] == e && s[|e|..] == rest;
  }

  /** A value before a tag is read back whole. */
  lemma TextRead(st: State, node: Node, v: string, translate: bool, rest: string)
    requires "<" <= rest && (AllSpace(v) ==> "</" <= rest)
    ensures ReadContent(st, node, Encoding(v, translate) + rest) == Go(st.Enter(node.(value := Some(v))), rest)
  {
    hide Encoding, Decoding, Span, AllSpace, State.Enter, ReadText;
    var e := Encoding(v, translate);
    var s := e + rest;
    var k := Span(s, IsSpace);
    RestOfValueRead(st, node, v, translate, rest);
    ValueSpace(v, translate, rest);
    if k == |e| {
      assert s[k..] == rest && s[k + 1..] == rest[1..] && rest[1] == '/';
    } else {
      assert s[k] == e[k] && s[k..] != "";
    }
  }

  /** Children right after a start tag leave the element without a value. */
  lemma NoTextRead(st: State, node: Node, space: string, rest: string)
    requires AllSpace(space) && "<" <= rest && !("</" <= rest)
    ensures ReadContent(st, node, space + rest) == Go(st.Enter(node), rest)
  {
    SpanStops(space, rest, IsSpace);
    assert (space + rest)[|space| + 1..] == rest[1..];
  }

  lemma CloseTagRead(st: State, name: string, translate: bool, rest: string)
    requires st.open != [] && OrdinaryName(name) && st.Innermost().name == name
    ensures ReadClose(st, Encoding(name, translate) + (">\n" + rest)) == Go(st.Leave(), ">\n" + rest)
  {
    hide Encoding, Decoding, Span, SkipSpace, State.Leave;
    var e, tail := Encoding(name, translate), ">\n" + rest;
    NameEncoding(name, translate);
    assert (e + tail)[0] == e[0];
    NoSpace(e + tail);
    SpanStops(e, tail, NameChar);
    DecodesBack(name, translate);
  }

  lemma SlashRead(st: State, s: string)
    requires st.Valid()
    ensures ReadMarkup(st, "/" + s) == ReadClose(st, s)
  {
    hide ReadClose, SkipSpace;
    NoSpace("/" + s);
    assert ("/" + s)[1..] == s;
  }

  /** An end tag closes the innermost open node. */
  lemma CloseRead(st: State, name: string, translate: bool, rest: string)
    requires st.open != [] && OrdinaryName(name) && st.Innermost().name == name
    ensures Resume(st, ClosingTag(name, translate) + rest) == Resume(st.Leave(), rest)
  {
    hide Encoding, ReadMarkup, ReadClose, State.Leave, Parse, Resume, OrdinaryName;
    var s := Encoding(name, translate) + (">\n" + rest);
    assert ClosingTag(name, translate) + rest == "<" + ("/" + s);
    ResumeAtTag(st, "/" + s);
    SlashRead(st, s);
    CloseTagRead(st, name, translate, rest);
    ResumeSkips(st.Leave(), ">\n", rest);
  }

  lemma ResumeAtTag(st: State, s: string)
    requires st.Valid()
    ensures Resume(st, "<" + s) ==
            match ReadMarkup(st, s)
            case Stop(e) => Failure(e)
            case Go(st', rest) => Resume(st', rest)
  {
    hide ReadMarkup;
    assert ("<" + s)[1..] == s;
    SpanStops("", "<" + s, Outside);
    assert "" + ("<" + s) == "<" + s;
  }

  /** Nodes added one after the other. */
  function AddAll(st: State, ts: seq<Node>): (s: State)
    requires st.open != []
    ensures s.Valid() && |s.open| == |st.open|
    decreases |ts|
  {
    if ts == [] then st else AddAll(st.Add(ts[0]), ts[1..])
  }

  lemma {:induction false} AddAllToInnermost(st: State, node: Node, ts: seq<Node>)
    ensures AddAll(st.Enter(node), ts) == st.Enter(node.(children := node.children + ts))
    decreases |ts|
  {
    if ts == [] {
      assert node.children + ts == node.children;
    } else {
      AddAllToInnermost(st, node.(children := node.children + [ts[0]]), ts[1..]);
      assert node.children + [ts[0]] + ts[1..] == node.children + ts;
    }
  }

  lemma EnterThenLeave(st: State, node: Node)
    requires st.open != []
    ensures st.Enter(node).Leave() == st.Add(node)
  {
    assert st.Enter(node).open[..|st.open|] == st.open;
  }

  lemma IndentPlain(level: nat)
    ensures '<' !in Indent(level) && AllSpace(Indent(level)) && AllSpace("")
  {
  }

  /** The end of an element behind its children, and what follows it. */
  function CloseText(name: string, level: nat, translate: bool, rest: string): string {
    Indent(level) + (ClosingTag(name, translate) + rest)
  }

  /** The children of an element, its end, and what follows it. */
  function KidsText(t: Node, level: nat, translate: bool, rest: string): string {
    Forest(t.children, level + 1, t.value.None?, translate) + CloseText(t.name, level, translate, rest)
  }

  /** What stands between the bracket of a start tag and the first child. */
  function HeadText(value: Option<string>, translate: bool): string {
    match value
    case None => "\n"
    case Some(v) => Encoding(v, translate)
  }

  /** A start tag has been read. */
  function Begun(t: Node): Node {
    Node(t.name, Element, None, t.attributes, [])
  }

  /** The children of an entered node, its end tag, and what follows. */
  lemma ChildrenRead(st: State, node: Node, ts: seq<Node>, level: nat, indent: bool, translate: bool, rest: string)
    requires st.open != [] && OrdinaryName(node.name) && node.children == []
    requires forall t <- ts :: Ordinary(t, translate)
    ensures var text := Forest(ts, level + 1, indent, translate) + CloseText(node.name, level, translate, rest);
            Resume(st.Enter(node), text) == Resume(st.Add(node.(children := NormalAll(ts))), rest)
    decreases ts, 1
  {
    hide Encoding, Resume, Forest, Indent, ClosingTag, State.Add, State.Leave;
    hide OrdinaryName, Ordinary, AddAll, NormalAll;
    var close := ClosingTag(node.name, translate) + rest;
    ForestRead(st.Enter(node), ts, level + 1, indent, translate, Indent(level) + close);
    var done := NormalAll(ts);
    AddAllToInnermost(st, node, done);
    var full := node.(children := done);
    assert node.children + done == done;
    IndentPlain(level);
    ResumeSkips(st.Enter(full), Indent(level), close);
    assert st.Enter(full).Innermost() == full;
    CloseRead(st.Enter(full), node.name, translate, rest);
    EnterThenLeave(st, full);
  }

  lemma ForestRead(st: State, ts: seq<Node>, level: nat, indent: bool, translate: bool, rest: string)
    requires st.open != [] && forall t <- ts :: Ordinary(t, translate)
    ensures Resume(st, Forest(ts, level, indent, translate) + rest) == Resume(AddAll(st, NormalAll(ts)), rest)
    decreases ts, 0
  {
    hide Resume, Print, State.Add, Ordinary, Forest, Normal;
    if ts == [] {
      assert Forest(ts, level, indent, translate) == "" by { ForestSplit(ts, level, indent, translate, rest); }
      assert "" + rest == rest;
    } else {
      ForestSplit(ts, level, indent, translate, rest);
      ElementRead(st, ts[0], level, indent, translate, Forest(ts[1..], level, true, translate) + rest);
      ForestRead(st.Add(Normal(ts[0])), ts[1..], level, true, translate, rest);
      assert NormalAll(ts)[1..] == NormalAll(ts[1..]);
    }
  }

  lemma ForestSplit(ts: seq<Node>, level: nat, indent: bool, translate: bool, rest: string)
    ensures ts == [] ==> Forest(ts, level, indent, translate) == ""
    ensures ts != [] ==>
      Forest(ts, level, indent, translate) + rest ==
      Print(ts[0], level, indent, translate) + (Forest(ts[1..], level, true, translate) + rest)
  {
    hide Print;
  }

  /**
    Reading the text of an element, wherever it stands, adds that element, less blank values, to the innermost open
    node.
  */
  lemma ElementRead(st: State, t: Node, level: nat, indent: bool, translate: bool, rest: string)
    requires st.open != [] && Ordinary(t, translate)
    ensures Resume(st, Print(t, level, indent, translate) + rest) == Resume(st.Add(Normal(t)), rest)
    decreases t, 2
  {
    hide Encoding, Resume, Indent, AttributesText, Body, State.Add, OrdinaryName, OrdinaryAttribute;
    hide ReadMarkup, ReadTail, AllSpace;
    var lead := Lead(level, indent);
    var body := Body(t, level, translate) + rest;
    var s := Encoding(t.name, translate) + (AttributesText(t.attributes, translate) + body);
    assert Print(t, level, indent, translate) + rest == lead + ("<" + s);
    IndentPlain(level);
    ResumeSkips(st, lead, "<" + s);
    ResumeAtTag(st, s);
    BodyStarts(t, level, translate, rest);
    TagRead(st, t.name, t.attributes, translate, body);
    BodyRead(st, t, level, translate, rest);
  }

  lemma BodyStarts(t: Node, level: nat, translate: bool, rest: string)
    ensures var body := Body(t, level, translate) + rest; body != "" && EndsTag(body[0])
  {
    hide Encoding, Forest, Indent, ClosingTag;
  }

  lemma BodyRead(st: State, t: Node, level: nat, translate: bool, rest: string)
    requires st.open != [] && Ordinary(t, translate)
    requires var body := Body(t, level, translate) + rest; body != "" && EndsTag(body[0])
    ensures var step := ReadTail(st, Begun(t), Body(t, level, translate) + rest);
            step.Go? && step.state.Valid() && Resume(step.state, step.rest) == Resume(st.Add(Normal(t)), rest)
    decreases t, 1
  {
    hide Encoding, Resume, Forest, Indent, ClosingTag, State.Add, State.Enter, OrdinaryName, OrdinaryAttribute;
    hide AllSpace, ReadContent, Body, ReadTail;
    if t.children == [] && t.value.None? {
      assert Body(t, level, translate) == "/>\n" by { EmptyBody(t, level, translate); }
      assert Normal(t) == t;
      EmptyRead(st, t, rest);
      ResumeSkips(st.Add(t), "\n", rest);
    } else {
      ContentText(t, level, translate, rest);
      if t.children == [] {
        ValueLeafRead(st, t, translate, rest);
      } else if t.value.Some? && !AllSpace(t.value.value) {
        ValueParentRead(st, t, level, translate, rest);
      } else {
        ParentRead(st, t, level, translate, rest);
      }
    }
  }

  lemma EmptyBody(t: Node, level: nat, translate: bool)
    requires t.children == [] && t.value.None?
    ensures Body(t, level, translate) == "/>\n"
  {
  }

  lemma BracketRead(st: State, node: Node, content: string)
    requires st.open != []
    ensures ReadTail(st, node, ">" + content) == ReadContent(st, node, content)
  {
    hide ReadContent;
    assert (">" + content)[1..] == content;
  }

  /** What follows the bracket of a start tag leads on as if the whole element had been added. */
  ghost predicate Completes(st: State, t: Node, content: string, rest: string)
    requires st.open != []
  {
    var step := ReadTail(st, Begun(t), ">" + content);
    step.Go? && step.state.Valid() && Resume(step.state, step.rest) == Resume(st.Add(Normal(t)), rest)
  }

  /** Space between a start tag and the first child is dropped. */
  lemma FirstChildRead(st: State, node: Node, head: string, lead: string, tag: string)
    requires st.open != [] && AllSpace(head + lead) && AllSpace(lead) && !("</" <= "<" + tag)
    ensures ReadTail(st, node, ">" + (head + (lead + ("<" + tag)))) == Go(st.Enter(node), "<" + tag)
    ensures Resume(st.Enter(node), lead + ("<" + tag)) == Resume(st.Enter(node), "<" + tag)
  {
    hide Resume, ReadContent, ReadTail, State.Enter;
    assert head + (lead + ("<" + tag)) == (head + lead) + ("<" + tag);
    BracketRead(st, node, head + (lead + ("<" + tag)));
    NoTextRead(st, node, head + lead, "<" + tag);
    ResumeSkips(st.Enter(node), lead, "<" + tag);
  }

  /** Without a value, or with a blank one, only space stands before the first child. */
  lemma ParentRead(st: State, t: Node, level: nat, translate: bool, rest: string)
    requires st.open != [] && Ordinary(t, translate) && t.children != [] && (t.value.Some? ==> AllSpace(t.value.value))
    ensures Completes(st, t, HeadText(t.value, translate) + KidsText(t, level, translate, rest), rest)
    decreases t, 0, 1
  {
    hide Encoding, Resume, Forest, CloseText, State.Add, State.Enter, OrdinaryName, OrdinaryAttribute, ReadContent;
    hide ReadTail, TagText, Normal, AllSpace, HeadText, Lead;
    NormalParent(t);
    var close, lead := CloseText(t.name, level, translate, rest), Lead(level + 1, t.value.None?);
    assert Ordinary(t.children[0], translate) by { assert t.children[0] in t.children; }
    FirstTag(t.children, level + 1, t.value.None?, translate, close);
    LeadingSpace(t.value, level + 1, translate);
    FirstChildRead(st, Begun(t), HeadText(t.value, translate), lead, TagText(t.children, level + 1, translate, close));
    ChildrenRead(st, Begun(t), t.children, level, t.value.None?, translate, rest);
  }

  lemma NormalParent(t: Node)
    requires t.kind == Element && t.children != [] && (t.value.Some? ==> AllSpace(t.value.value))
    ensures Normal(t) == Node(t.name, Element, None, t.attributes, NormalAll(t.children))
  {
  }

  lemma LeadingSpace(value: Option<string>, level: nat, translate: bool)
    requires value.Some? ==> AllSpace(value.value)
    ensures AllSpace(HeadText(value, translate) + Lead(level, value.None?)) && AllSpace(Lead(level, value.None?))
  {
    hide Encoding;
    IndentPlain(level);
    if value.Some? {
      SpaceEncoding(value.value, translate);
    }
  }

  lemma {:induction false} SpaceEncoding(v: string, translate: bool)
    requires AllSpace(v)
    ensures Encoding(v, translate) == v
  {
    if v != "" {
      assert IsSpace(v[0]);
      forall i | 0 <= i < |v[1..]|
        ensures IsSpace(v[1..][i])
      {
        assert IsSpace(v[i + 1]);
      }
      SpaceEncoding(v[1..], translate);
    }
  }

  lemma ValueLeafRead(st: State, t: Node, translate: bool, rest: string)
    requires st.open != [] && Ordinary(t, translate) && t.children == [] && t.value.Some?
    ensures Completes(st, t, Encoding(t.value.value, translate) + (ClosingTag(t.name, translate) + rest), rest)
  {
    hide Encoding, Resume, State.Add, State.Leave, OrdinaryName, OrdinaryAttribute, AllSpace, ReadContent, ReadTail;
    var node := Begun(t);
    var close := ClosingTag(t.name, translate) + rest;
    BracketRead(st, node, Encoding(t.value.value, translate) + close);
    assert Normal(t) == t;
    TextRead(st, node, t.value.value, translate, close);
    CloseRead(st.Enter(t), t.name, translate, rest);
    EnterThenLeave(st, t);
  }

  lemma ValueParentRead(st: State, t: Node, level: nat, translate: bool, rest: string)
    requires st.open != [] && Ordinary(t, translate) && t.children != [] && t.value.Some? && !AllSpace(t.value.value)
    ensures Completes(st, t, HeadText(t.value, translate) + KidsText(t, level, translate, rest), rest)
    decreases t, 0, 1
  {
    hide Encoding, Resume, Forest, CloseText, State.Add, OrdinaryName, OrdinaryAttribute, AllSpace;
    hide ReadContent, ReadTail, TagText, NormalAll;
    var node := Begun(t);
    var close := CloseText(t.name, level, translate, rest);
    var kids := KidsText(t, level, translate, rest);
    assert Ordinary(t.children[0], translate) by { assert t.children[0] in t.children; }
    FirstTag(t.children, level + 1, false, translate, close);
    assert "<" <= kids;
    BracketRead(st, node, Encoding(t.value.value, translate) + kids);
    TextRead(st, node, t.value.value, translate, kids);
    ChildrenRead(st, node.(value := t.value), t.children, level, false, translate, rest);
  }

  /** What follows the first bracket of a forest. */
  function TagText(ts: seq<Node>, level: nat, translate: bool, rest: string): string
    requires ts != []
  {
    Encoding(ts[0].name, translate) + (AttributesText(ts[0].attributes, translate)
      + (Body(ts[0], level, translate) + (Forest(ts[1..], level, true, translate) + rest)))
  }

  lemma FirstTag(ts: seq<Node>, level: nat, indent: bool, translate: bool, rest: string)
    requires ts != [] && OrdinaryName(ts[0].name)
    ensures var tag := TagText(ts, level, translate, rest);
            && Forest(ts, level, indent, translate) + rest == Lead(level, indent) + ("<" + tag)
            && "<" <= "<" + tag && !("</" <= "<" + tag)
  {
    hide Encoding, AttributesText, Body, Indent, Forest;
    var tag := TagText(ts, level, translate, rest);
    var e, lead := Encoding(ts[0].name, translate), Lead(level, indent);
    var attributes, body := AttributesText(ts[0].attributes, translate), Body(ts[0], level, translate);
    var others := Forest(ts[1..], level, true, translate) + rest;
    NameEncoding(ts[0].name, translate);
    assert tag[0] == e[0];
    assert ("<" + tag)[1] == tag[0];
    ForestSplit(ts, level, indent, translate, rest);
    JoinTag(lead, e, attributes, body, others);
  }

  lemma JoinTag(lead: string, name: string, attributes: string, body: string, rest: string)
    ensures lead + "<" + name + attributes + body + rest == lead + ("<" + (name + (attributes + (body + rest))))
  {
    assert lead + "<" + name + attributes + body + rest == lead + "<" + name + (attributes + (body + rest));
  }

  lemma ContentText(t: Node, level: nat, translate: bool, rest: string)
    requires t.children != [] || t.value.Some?
    ensures Body(t, level, translate) + rest ==
            ">" + (HeadText(t.value, translate)
              + if t.children == [] then ClosingTag(t.name, translate) + rest else KidsText(t, level, translate, rest))
  {
    hide Encoding, Forest, Indent, ClosingTag;
  }

  lemma {:induction false} SeekFinds(a: string, pattern: string, b: string)
    requires pattern != "" && pattern[0] !in a
    ensures Seek(a + (pattern + b), pattern) == |a| && (a + (pattern + b))[|a|..] == pattern + b
  {
    if a == "" {
      assert a + (pattern + b) == pattern + b;
    } else {
      var s := a + (pattern + b);
      assert s[0] == a[0] && s[1..] == a[1..] + (pattern + b);
      SeekFinds(a[1..], pattern, b);
    }
  }

  function InstructionNode(text: string): Node {
    Node("PI", Instruction, Some(text), [], [])
  }

  function CommentNode(text: string): Node {
    Node("Comment", Comment, Some(text), [], [])
  }

  lemma InstructionRead(st: State, text: string, rest: string)
    requires st.open != [] && '?' !in text && '&' !in text
    ensures Resume(st, "<?" + (text + ("?>\n" + rest))) == Resume(st.Add(InstructionNode(text)), rest)
  {
    hide Resume, State.Add, SkipSpace, Decoding, Seek;
    var body := text + ("?>" + ("\n" + rest));
    assert "<?" + (text + ("?>\n" + rest)) == "<" + ("?" + body);
    ResumeAtTag(st, "?" + body);
    NoSpace("?" + body);
    assert ("?" + body)[1..] == body;
    SeekFinds(text, "?>", "\n" + rest);
    assert body[..|text|] == text && body[|text| + 2..] == "\n" + rest;
    DecodesPlain(text);
    var added := st.Add(InstructionNode(text));
    assert ReadInstruction(st, "?" + body) == Go(added, "\n" + rest);
    ResumeSkips(added, "\n", rest);
  }

  lemma CommentRead(st: State, text: string, rest: string)
    requires st.open != [] && '-' !in text && '&' !in text && text != "" && text[0] != ' '
    ensures Resume(st, "<!-- " + (text + ("-->\n" + rest))) == Resume(st.Add(CommentNode(text)), rest)
  {
    hide Resume, State.Add, SkipSpace, ReadComment;
    var body := " " + (text + ("-->" + ("\n" + rest)));
    assert "<!-- " + (text + ("-->\n" + rest)) == "<" + ("!--" + body);
    ResumeAtTag(st, "!--" + body);
    NoSpace("!--" + body);
    CommentBody(st, text, "\n" + rest);
    ResumeSkips(st.Add(CommentNode(text)), "\n", rest);
  }

  lemma CommentBody(st: State, text: string, rest: string)
    requires st.open != [] && '-' !in text && '&' !in text && text != "" && text[0] != ' '
    ensures ReadComment(st, "!--" + (" " + (text + ("-->" + rest)))) == Go(st.Add(CommentNode(text)), rest)
  {
    hide State.Add, Decoding, Seek, Span;
    var body := " " + (text + ("-->" + rest));
    assert ("!--" + body)[3..] == body;
    SeekFinds(" " + text, "-->", rest);
    assert body == (" " + text) + ("-->" + rest);
    SpanStops(" ", text + ("-->" + rest), Blank);
    assert body[1..|text| + 1] == text && body[|text| + 4..] == rest;
    DecodesPlain(text);
    assert ReadCommentBody(st, body) == Go(st.Add(CommentNode(text)), rest);
  }

  lemma DecodesPlain(s: string)
    requires '&' !in s
    ensures Decoding(s) == s
  {
    DecodingSkips(s, "");
    assert s + "" == s && s + Decoding("") == s;
  }

  function HeaderNodes(date: Option<string>): seq<Node> {
    [InstructionNode(DECLARATION)] + match date case None => [] case Some(d) => [CommentNode(CREATED + d + " ")]
  }

  /** What the parser gives for a document with these elements. */
  function ReadBack(date: Option<string>, elements: seq<Node>): Result {
    Tree(RootNode().(children := HeaderNodes(date) + elements))
  }

  lemma DeclarationPlain()
    ensures '?' !in DECLARATION && '&' !in DECLARATION
  {
  }

  lemma CreatedPlain()
    ensures '-' !in CREATED && '&' !in CREATED && CREATED != "" && CREATED[0] != ' '
  {
  }

  lemma HeaderRead(date: Option<string>, rest: string)
    requires date.Some? ==> '-' !in date.value && '&' !in date.value
    ensures Resume(Start(), Header(date) + rest) == Resume(AddAll(Start(), HeaderNodes(date)), rest)
  {
    hide Resume, State.Add;
    DeclarationPlain();
    CreatedPlain();
    hide DECLARATION, CREATED;
    var added := Start().Add(InstructionNode(DECLARATION));
    match date
    case None =>
      assert Header(date) + rest == "<?" + (DECLARATION + ("?>\n" + rest));
      assert HeaderNodes(date)[1..] == [];
      assert AddAll(added, []) == added;
      InstructionRead(Start(), DECLARATION, rest);
    case Some(d) =>
      var text := CREATED + d + " ";
      var comment := "<!-- " + (text + ("-->\n" + rest));
      assert Header(date) + rest == "<?" + (DECLARATION + ("?>\n" + comment));
      InstructionRead(Start(), DECLARATION, comment);
      assert text[0] == CREATED[0];
      assert HeaderNodes(date)[1..] == [CommentNode(text)];
      var node := CommentNode(text);
      assert AddAll(added, [node]) == added.Add(node) by { assert [node][1..] == []; }
      CommentRead(added, text, rest);
  }

  /** A written document parses into its header and its elements, less the values lost in front of children. */
  lemma DocumentRead(ts: seq<Node>, date: Option<string>, translate: bool)
    requires forall t <- ts :: Ordinary(t, translate)
    requires date.Some? ==> '-' !in date.value && '&' !in date.value
    ensures Parse(Start(), DocumentText(ts, date, translate)) == ReadBack(date, NormalAll(ts))
  {
    hide Header, Ordinary, Forest, NormalAll, HeaderNodes, AddAll, Resume, Parse, State.Root;
    var forest, head, body := Forest(ts, 0, true, translate), HeaderNodes(date), NormalAll(ts);
    var none := State([], None);
    var st := none.Enter(RootNode().(children := head));
    assert Start() == none.Enter(RootNode()) && RootNode().children + head == head;
    AddAllToInnermost(none, RootNode(), head);
    AddAllToInnermost(none, RootNode().(children := head), body);
    HeaderStarts(date);
    ParseIsResume(Start(), DocumentText(ts, date, translate));
    HeaderRead(date, forest);
    assert forest + "" == forest;
    ForestRead(st, ts, 0, true, translate, "");
    ResumeEnds(none.Enter(RootNode().(children := head + body)));
  }

  lemma ParseIsResume(st: State, text: string)
    requires st.Valid() && text != "" && text[0] == '<'
    ensures Parse(st, text) == Resume(st, text)
  {
    hide ReadMarkup;
    ResumeAtTag(st, text[1..]);
    assert text == "<" + text[1..];
  }

  lemma ResumeEnds(st: State)
    requires st.Valid() && st.closed == None && |st.open| == 1
    ensures Resume(st, "") == Tree(st.open[0])
  {
    var done := State([], Some(st.open[0]));
    assert st.Leave() == done && done.Root() == st.open[0];
  }

  lemma HeaderStarts(date: Option<string>)
    ensures Header(date) != "" && Header(date)[0] == '<'
  {
  }

  /** The elements come back as they were exactly when none has a blank value in front of its children. */
  lemma DocumentRoundTrip(ts: seq<Node>, date: Option<string>, translate: bool)
    requires forall t <- ts :: Ordinary(t, translate)
    requires date.Some? ==> '-' !in date.value && '&' !in date.value
    ensures Parse(Start(), DocumentText(ts, date, translate)) == ReadBack(date, ts) <==>
            forall t <- ts :: NoBlankValue(t)
  {
    DocumentRead(ts, date, translate);
    forall t <- ts
      ensures Normal(t) == t <==> NoBlankValue(t)
    {
      NormalIff(t);
    }
    var head := HeaderNodes(date);
    assert (head + ts)[|head|..] == ts && (head + NormalAll(ts))[|head|..] == NormalAll(ts);
    if NormalAll(ts) == ts {
      forall t <- ts
        ensures NoBlankValue(t)
      {
        var i :| 0 <= i < |ts| && ts[i] == t;
      }
    }
  }
}
