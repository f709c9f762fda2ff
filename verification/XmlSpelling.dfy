/**
  Every spelling of a text that the parser of mxml/mxml.c takes: a grammar of its marks, and what they stand for. The
  parser gives a tree for exactly the texts of the grammar whose end tags match.
*/
module XmlSpelling {
  import opened Options
  import opened XmlText
  import opened XmlTree
  import opened XmlParser
  import opened XmlRoundTrip

  // An attribute as it is written: the space in front of its parts, and the quotes around its value.
  datatype Written = Written(before: string, name: string, behindName: string, beforeValue: string, quote: char,
                             value: string)

  // A tag up to its end, with the space behind its bracket and in front of its end.
  datatype Tag = Tag(lead: string, name: string, attributes: seq<Written>, space: string)

  // What stands between brackets. A start tag may also end in a slash, space and two brackets.
  datatype Mark =
    | CommentMark(lead: string, blanks: string, text: string)
    | InstructionMark(lead: string, text: string)
    | DoctypeMark(lead: string, text: string)
    | OpenMark(tag: Tag, slash: Option<string>)
    | EmptyMark(tag: Tag, slashSpace: string)
    | CloseMark(lead: string, space: string, name: string)

  // A mark and the text behind it, up to the next one.
  datatype Piece = Piece(mark: Mark, behind: string)

  // ----- The texts, each followed by the rest -----

  function ValueText(a: Written, rest: string): string {
    a.beforeValue + ([a.quote] + (a.value + ([a.quote] + rest)))
  }

  function NamedText(a: Written, rest: string): string {
    a.name + (a.behindName + ("=" + ValueText(a, rest)))
  }

  function WrittenText(attributes: seq<Written>, rest: string): string {
    if attributes == [] then rest
    else attributes[0].before + NamedText(attributes[0], WrittenText(attributes[1..], rest))
  }

  function SpelledTag(tag: Tag, rest: string): string {
    tag.name + WrittenText(tag.attributes, tag.space + rest)
  }

  function EndText(slash: Option<string>, rest: string): string {
    match slash
    case None => ">" + rest
    case Some(space) => "/" + (space + (">" + (">" + rest)))
  }

  function MarkLead(m: Mark): string {
    if m.OpenMark? || m.EmptyMark? then m.tag.lead else m.lead
  }

  /** The text of a mark behind its bracket and the space there. */
  function MarkBody(m: Mark, rest: string): string {
    match m
    case CommentMark(_, blanks, text) => "!--" + (blanks + (text + ("-->" + rest)))
    case InstructionMark(_, text) => "?" + (text + ("?>" + rest))
    case DoctypeMark(_, text) => "!DOCTYPE" + (text + (">" + rest))
    case OpenMark(tag, slash) => SpelledTag(tag, EndText(slash, rest))
    case EmptyMark(tag, space) => SpelledTag(tag, "/" + (space + (">" + rest)))
    case CloseMark(_, space, name) => "/" + (space + (name + rest))
  }

  function MarkText(m: Mark, rest: string): string {
    "<" + (MarkLead(m) + MarkBody(m, rest))
  }

  function Spelled(pieces: seq<Piece>): string {
    if pieces == [] then "" else MarkText(pieces[0].mark, pieces[0].behind + Spelled(pieces[1..]))
  }

  // ----- What is well-formed -----

  predicate AllOf(s: string, p: char -> bool) { forall i :: 0 <= i < |s| ==> p(s[i]) }

  predicate WfWritten(a: Written) {
    && AllSpace(a.before) && AllSpace(a.behindName) && AllSpace(a.beforeValue)
    && AllOf(a.name, AttributeChar) && (a.name == "" ==> a.behindName == "") && (a.name != "" ==> !EndsTag(a.name[0]))
    && (a.quote == '"' || a.quote == '\'') && a.quote !in a.value
  }

  /** Space parts the name from the attributes; it must not make a comment, instruction or document type of the tag. */
  predicate WfTag(tag: Tag) {
    && AllSpace(tag.lead) && AllSpace(tag.space) && AllOf(tag.name, NameChar)
    && !("!--" <= tag.name) && !("!DOCTYPE" <= tag.name) && !("?" <= tag.name)
    && (tag.name == "" ==> tag.attributes == [] && tag.space == "")
    && (tag.attributes != [] ==> tag.attributes[0].before != "")
    && forall a <- tag.attributes :: WfWritten(a)
  }

  /** The pattern does not begin in this text when it stands behind it. */
  predicate NoneEarlier(text: string, pattern: string) {
    forall k :: 0 <= k < |text| ==> !(pattern <= (text + pattern)[k..])
  }

  /** The brackets inside match. */
  predicate Matching(text: string, depth: nat) {
    if text == "" then depth == 0
    else if text[0] == '<' then Matching(text[1..], depth + 1)
    else if text[0] == '>' then depth > 0 && Matching(text[1..], depth - 1)
    else Matching(text[1..], depth)
  }

  predicate WfMark(m: Mark) {
    match m
    case CommentMark(lead, blanks, text) =>
      AllSpace(lead) && AllOf(blanks, Blank) && (text == "" || text[0] != ' ') && NoneEarlier(blanks + text, "-->")
    case InstructionMark(lead, text) => AllSpace(lead) && NoneEarlier(text, "?>")
    case DoctypeMark(lead, text) => AllSpace(lead) && Matching(text, 0)
    case OpenMark(tag, slash) => WfTag(tag) && (slash.Some? ==> AllSpace(slash.value) && tag.name != "")
    case EmptyMark(tag, space) => WfTag(tag) && AllSpace(space) && tag.name != ""
    case CloseMark(lead, space, name) => AllSpace(lead) && AllSpace(space) && AllOf(name, NameChar)
  }

  /** An end tag needs something behind its name that ends it; a bracket behind an empty element is part of the tag. */
  predicate WfPiece(p: Piece) {
    && WfMark(p.mark) && '<' !in p.behind
    && (p.mark.EmptyMark? ==> !(">" <= p.behind))
    && (p.mark.CloseMark? ==>
          p.behind != "" && !NameChar(p.behind[0]) && (p.mark.name == "" ==> !IsSpace(p.behind[0])))
  }

  /** A start tag is followed by another mark. */
  predicate WfPieces(pieces: seq<Piece>) {
    pieces != [] ==>
      && WfPiece(pieces[0]) && (pieces[0].mark.OpenMark? ==> pieces[1..] != []) && WfPieces(pieces[1..])
  }

  // ----- What the marks stand for -----

  function AttributeOf(a: Written): Attribute {
    Attribute(Cut(Decoding(Cut(a.name, ATTRIBUTE_NAME_SIZE)), NAME_LENGTH),
              Decoding(Cut(a.value, ATTRIBUTE_VALUE_SIZE)))
  }

  function AttributesOf(attributes: seq<Written>): seq<Attribute> {
    if attributes == [] then [] else [AttributeOf(attributes[0])] + AttributesOf(attributes[1..])
  }

  function ElementOf(tag: Tag): Node {
    Node(Cut(Decoding(tag.name), NAME_LENGTH), Element, None, AttributesOf(tag.attributes), [])
  }

  /** The text behind a start tag, unless it is blank and no end tag follows. */
  function ValueOf(behind: string, closes: bool): Option<string> {
    if AllSpace(behind) && !closes then None else Some(Decoding(behind))
  }

  /** One mark opens, closes or adds a node, if it may stand there. */
  function Act(st: State, p: Piece, closes: bool): Option<State> {
    match p.mark
    case DoctypeMark(_, _) => Some(st)
    case CloseMark(_, _, name) =>
      if st.open != [] && st.Innermost().name == Decoding(name) then Some(st.Leave()) else None
    case CommentMark(_, _, text) => if st.open == [] then None else Some(st.Add(CommentNode(Decoding(text))))
    case InstructionMark(_, text) => if st.open == [] then None else Some(st.Add(InstructionNode(Decoding(text))))
    case EmptyMark(tag, _) => if st.open == [] then None else Some(st.Add(ElementOf(tag)))
    case OpenMark(tag, _) =>
      if st.open == [] then None else Some(st.Enter(ElementOf(tag).(value := ValueOf(p.behind, closes))))
  }

  /** An end tag whose slash is right behind its bracket comes first. */
  predicate Closes(pieces: seq<Piece>) {
    pieces != [] && pieces[0].mark.CloseMark? && pieces[0].mark.lead == ""
  }

  function Run(st: State, pieces: seq<Piece>): Option<State>
    decreases |pieces|
  {
    if pieces == [] then Some(st)
    else
      match Act(st, pieces[0], Closes(pieces[1..]))
      case None => None
      case Some(st') => Run(st', pieces[1..])
  }

  lemma ActValid(st: State, p: Piece, closes: bool)
    requires st.Valid() && Act(st, p, closes).Some?
    ensures Act(st, p, closes).value.Valid()
  {
  }

  // ----- Attributes and tags are read -----

  lemma SkipTo(space: string, rest: string)
    requires AllSpace(space) && (rest == "" || !IsSpace(rest[0]))
    ensures SkipSpace(space + rest) == rest
  {
    SpanStops(space, rest, IsSpace);
  }

  lemma ValueReads(node: Node, name: string, a: Written, rest: string)
    requires WfWritten(a) && SkipSpace(rest) != ""
    ensures ReadValue(node, name, ValueText(a, rest)) ==
            Read(node.(attributes := node.attributes
                   + [Attribute(Cut(name, NAME_LENGTH), Decoding(Cut(a.value, ATTRIBUTE_VALUE_SIZE)))]),
                 SkipSpace(rest))
  {
    hide Span, SkipSpace, Decoding;
    var s2 := a.value + ([a.quote] + rest);
    var s1 := [a.quote] + s2;
    SkipTo(a.beforeValue, s1);
    assert s1[1..] == s2;
    SpanStops(a.value, [a.quote] + rest, Not(a.quote));
    assert s2[|a.value| + 1..] == rest;
  }

  lemma AttributeReads(node: Node, a: Written, inside: string, rest: string)
    requires WfWritten(a) && SkipSpace(rest) != ""
    ensures NamedText(a, rest) != "" && !EndsTag(NamedText(a, rest)[0]) && !IsSpace(NamedText(a, rest)[0])
    ensures ReadAttribute(node, NamedText(a, rest), inside) ==
            Read(node.(attributes := node.attributes + [AttributeOf(a)]), SkipSpace(rest))
  {
    hide Span, SkipSpace, Decoding, ReadValue;
    var value := ValueText(a, rest);
    var tail := a.behindName + ("=" + value);
    var s := NamedText(a, rest);
    assert a.name != "" ==> s[0] == a.name[0];
    SpanStops(a.name, tail, AttributeChar);
    SkipTo(a.behindName, "=" + value);
    assert ("=" + value)[1..] == value;
    ValueReads(node, Decoding(Cut(a.name, ATTRIBUTE_NAME_SIZE)), a, rest);
  }

  lemma OneWritten(node: Node, a: Written, inside: string, tail: string)
    requires WfWritten(a) && SkipSpace(tail) != ""
    ensures var s := SkipSpace(a.before + NamedText(a, tail));
            var node' := node.(attributes := node.attributes + [AttributeOf(a)]);
            s != "" && ReadAttributes(node, s, inside) == ReadAttributes(node', SkipSpace(tail), inside)
  {
    hide SkipSpace, WfWritten, AttributeOf, ReadAttribute, NamedText;
    AttributeReads(node, a, inside, tail);
    BeforeIsSpace(a);
    SkipTo(a.before, NamedText(a, tail));
  }

  lemma {:induction false} WrittenReads(node: Node, attributes: seq<Written>, space: string, inside: string,
                                        rest: string)
    requires (forall a <- attributes :: WfWritten(a)) && AllSpace(space) && rest != "" && EndsTag(rest[0])
    ensures var s := SkipSpace(WrittenText(attributes, space + rest));
            s != "" && ReadAttributes(node, s, inside)
                    == Read(node.(attributes := node.attributes + AttributesOf(attributes)), rest)
    decreases |attributes|
  {
    hide SkipSpace, WfWritten, AttributeOf, ReadAttribute, NamedText;
    if attributes == [] {
      SkipTo(space, rest);
      assert node.attributes + [] == node.attributes;
    } else {
      var a, tail := attributes[0], WrittenText(attributes[1..], space + rest);
      var node' := node.(attributes := node.attributes + [AttributeOf(a)]);
      WrittenReads(node', attributes[1..], space, inside, rest);
      OneWritten(node, a, inside, tail);
      assert node.attributes + [AttributeOf(a)] + AttributesOf(attributes[1..])
          == node.attributes + AttributesOf(attributes);
    }
  }

  lemma BeforeIsSpace(a: Written)
    requires WfWritten(a)
    ensures AllSpace(a.before)
  {
  }

  /** The name of a tag ends where its attributes, space or end begin. */
  lemma TagNameEnds(tag: Tag, rest: string)
    requires WfTag(tag) && rest != "" && EndsTag(rest[0])
    ensures var tail := WrittenText(tag.attributes, tag.space + rest);
            tail != "" && !NameChar(tail[0]) && tail[0] != '<' && (tag.name == "" ==> tail == rest)
  {
    if tag.attributes != [] {
      assert WfWritten(tag.attributes[0]);
      assert WrittenText(tag.attributes, tag.space + rest)[0] == tag.attributes[0].before[0];
    } else if tag.space != "" {
      assert (tag.space + rest)[0] == tag.space[0];
    } else {
      assert "" + rest == rest;
    }
  }

  /** A pattern of name characters that a tag begins with is in its name. */
  lemma PrefixInName(name: string, tail: string, pattern: string)
    requires (tail == "" || !NameChar(tail[0])) && AllOf(pattern, NameChar) && pattern <= name + tail
    ensures pattern <= name
  {
    assert forall i :: 0 <= i < |pattern| ==> pattern[i] == (name + tail)[i];
    assert tail != "" ==> (name + tail)[|name|] == tail[0];
  }

  lemma TagReads(st: State, tag: Tag, rest: string)
    requires st.Valid() && WfTag(tag) && rest != "" && EndsTag(rest[0]) && (tag.name == "" ==> rest[0] == '>')
    ensures var s := SpelledTag(tag, rest);
            && s != "" && !IsSpace(s[0])
            && ReadMarkup(st, s) == if st.open == [] then Stop(SecondTopLevel) else ReadTail(st, ElementOf(tag), rest)
  {
    hide Span, SkipSpace, Decoding, ReadTail, ReadAttributes, WrittenText, AttributesOf, WfWritten;
    var tail := WrittenText(tag.attributes, tag.space + rest);
    var s := SpelledTag(tag, rest);
    TagNameEnds(tag, rest);
    assert s[0] == if tag.name == "" then rest[0] else tag.name[0];
    NoSpace(s);
    assert !("!--" <= s) by { if "!--" <= s { PrefixInName(tag.name, tail, "!--"); } }
    assert !("!DOCTYPE" <= s) by { if "!DOCTYPE" <= s { PrefixInName(tag.name, tail, "!DOCTYPE"); } }
    SpanStops(tag.name, tail, NameChar);
    var node := Node(Cut(Decoding(tag.name), NAME_LENGTH), Element, None, [], []);
    WrittenReads(node, tag.attributes, tag.space, Decoding(tag.name), rest);
    assert [] + AttributesOf(tag.attributes) == AttributesOf(tag.attributes);
    assert ReadMarkup(st, s) == ReadOpen(st, s);
  }

  // ----- The end of a tag and the text behind it -----

  lemma BlankReads(st: State, node: Node, behind: string, rest: string)
    requires AllSpace(behind) && "<" <= rest && node.value == None
    ensures ReadContent(st, node, behind + rest) ==
            Go(st.Enter(node.(value := ValueOf(behind, "</" <= rest))), rest)
  {
    hide Span, Decoding, State.Enter;
    var s := behind + rest;
    SpanStops(behind, rest, IsSpace);
    assert s[|behind| + 1..] == rest[1..];
    assert "/" <= rest[1..] <==> "</" <= rest;
    SpanStops("", rest, Outside);
    assert "" + rest == rest;
  }

  lemma Joined(a: string, b: string, k: nat)
    requires k <= |a|
    ensures (a + b)[k..] == a[k..] + b && (a + b)[..|a|] == a && (a + b)[|a|..] == b
  {
  }

  lemma Middle(a: string, text: string, pattern: string, rest: string)
    ensures var s := a + (text + (pattern + rest));
            && s[|a|..|a| + |text|] == text && s[|a| + |text| + |pattern|..] == rest
            && s == (a + text) + (pattern + rest)
  {
    var behind := text + (pattern + rest);
    var s := a + behind;
    assert s[|a|..] == behind;
    assert s[|a|..|a| + |text|] == behind[..|text|] && s[|a| + |text| + |pattern|..] == behind[|text| + |pattern|..];
  }

  lemma RestReads(st: State, node: Node, behind: string, rest: string, k: nat)
    requires k <= |behind| && '<' !in behind && "<" <= rest
    ensures ReadText(st, node, behind + rest, k) == Go(st.Enter(node.(value := Some(Decoding(behind)))), rest)
  {
    hide Span, Decoding, State.Enter;
    var s := behind + rest;
    var text := behind[k..];
    Joined(behind, rest, k);
    assert forall i :: 0 <= i < |text| ==> text[i] == behind[k + i];
    SpanStops(text, rest, Outside);
    assert k + |text| == |behind|;
  }

  lemma TextReads(st: State, node: Node, behind: string, rest: string)
    requires !AllSpace(behind) && '<' !in behind && "<" <= rest
    ensures ReadContent(st, node, behind + rest) == Go(st.Enter(node.(value := Some(Decoding(behind)))), rest)
  {
    hide Span, Decoding, State.Enter, ReadText;
    var s := behind + rest;
    var k := Span(s, IsSpace);
    var i :| 0 <= i < |behind| && !IsSpace(behind[i]);
    assert s[i] == behind[i] && k <= i;
    assert s[k] == behind[k];
    RestReads(st, node, behind, rest, k);
  }

  /** The text between a start tag and the next mark. */
  lemma ContentReads(st: State, node: Node, behind: string, rest: string)
    requires '<' !in behind && "<" <= rest && node.value == None
    ensures ReadContent(st, node, behind + rest) ==
            Go(st.Enter(node.(value := ValueOf(behind, "</" <= rest))), rest)
  {
    hide ReadContent, Decoding, State.Enter, AllSpace;
    if AllSpace(behind) {
      BlankReads(st, node, behind, rest);
    } else {
      TextReads(st, node, behind, rest);
    }
  }

  lemma OpenEnds(st: State, node: Node, slash: Option<string>, behind: string, rest: string)
    requires st.open != [] && node.value == None && (slash.Some? ==> AllSpace(slash.value))
    requires '<' !in behind && "<" <= rest
    ensures ReadTail(st, node, EndText(slash, behind + rest)) ==
            Go(st.Enter(node.(value := ValueOf(behind, "</" <= rest))), rest)
  {
    hide SkipSpace, ReadContent, State.Enter, ValueOf;
    var text := behind + rest;
    ContentReads(st, node, behind, rest);
    match slash
    case None =>
      assert (">" + text)[1..] == text;
    case Some(space) =>
      var s := "/" + (space + (">" + (">" + text)));
      SkipTo(space, ">" + (">" + text));
      assert s[1..] == space + (">" + (">" + text));
      assert (">" + (">" + text))[1..] == ">" + text && (">" + (">" + text))[2..] == text;
  }

  lemma EmptyEnds(st: State, node: Node, space: string, text: string)
    requires st.open != [] && AllSpace(space) && !(">" <= text)
    ensures ReadTail(st, node, "/" + (space + (">" + text))) == Go(st.Add(node), text)
  {
    hide SkipSpace, ReadContent, State.Add;
    var s := "/" + (space + (">" + text));
    SkipTo(space, ">" + text);
    assert s[1..] == space + (">" + text) && (">" + text)[1..] == text;
  }

  // ----- Comments, instructions and document types -----

  lemma {:induction false} SeekReaches(text: string, pattern: string, rest: string)
    requires pattern != "" && NoneEarlier(text, pattern)
    ensures Seek(text + (pattern + rest), pattern) == |text| && (text + (pattern + rest))[|text|..] == pattern + rest
    decreases |text|
  {
    var s := text + (pattern + rest);
    if text == "" {
      assert s == pattern + rest;
    } else {
      var more := text[1..];
      assert s[1..] == more + (pattern + rest);
      assert !(pattern <= (text + pattern)[0..]);
      assert s[..|pattern|] == (text + pattern)[..|pattern|];
      forall k | 0 <= k < |more|
        ensures !(pattern <= (more + pattern)[k..])
      {
        assert (more + pattern)[k..] == (text + pattern)[k + 1..];
      }
      SeekReaches(more, pattern, rest);
    }
  }

  lemma {:induction false} DoctypeReaches(text: string, depth: nat, rest: string)
    requires Matching(text, depth)
    ensures SeekDoctype(text + (">" + rest), depth) == |text|
    decreases |text|
  {
    var s := text + (">" + rest);
    if text != "" {
      assert s[0] == text[0] && s[1..] == text[1..] + (">" + rest);
      DoctypeReaches(text[1..],
                     if text[0] == '<' then depth + 1 else if text[0] == '>' then depth - 1 else depth, rest);
    }
  }

  lemma CommentBodyReads(st: State, blanks: string, text: string, rest: string)
    requires st.open != [] && AllOf(blanks, Blank) && (text == "" || text[0] != ' ')
    requires NoneEarlier(blanks + text, "-->")
    ensures ReadCommentBody(st, blanks + (text + ("-->" + rest))) == Go(st.Add(CommentNode(Decoding(text))), rest)
  {
    hide State.Add, Decoding, Seek, Span, NoneEarlier;
    var body := blanks + (text + ("-->" + rest));
    Middle(blanks, text, "-->", rest);
    SeekReaches(blanks + text, "-->", rest);
    var behind := text + ("-->" + rest);
    assert behind[0] == if text == "" then '-' else text[0];
    SpanStops(blanks, behind, Blank);
  }

  lemma CommentReads(st: State, blanks: string, text: string, rest: string)
    requires st.Valid() && AllOf(blanks, Blank) && (text == "" || text[0] != ' ') && NoneEarlier(blanks + text, "-->")
    ensures ReadMarkup(st, "!--" + (blanks + (text + ("-->" + rest)))) ==
            if st.open == [] then Stop(NoParent) else Go(st.Add(CommentNode(Decoding(text))), rest)
  {
    hide State.Add, Decoding, SkipSpace, ReadCommentBody, NoneEarlier;
    var body := blanks + (text + ("-->" + rest));
    NoSpace("!--" + body);
    assert ("!--" + body)[3..] == body;
    if st.open != [] {
      CommentBodyReads(st, blanks, text, rest);
    }
  }

  lemma InstructionReads(st: State, text: string, rest: string)
    requires st.Valid() && NoneEarlier(text, "?>")
    ensures ReadMarkup(st, "?" + (text + ("?>" + rest))) ==
            if st.open == [] then Stop(NoParent) else Go(st.Add(InstructionNode(Decoding(text))), rest)
  {
    hide State.Add, Decoding, Seek, SkipSpace;
    var body := text + ("?>" + rest);
    NoSpace("?" + body);
    assert ("?" + body)[1..] == body;
    SeekReaches(text, "?>", rest);
    assert body[..|text|] == text && body[|text| + 2..] == rest;
  }

  lemma {:induction false} SeekOccurs(a: string, c: char, rest: string)
    ensures [c] <= (a + ([c] + rest))[Seek(a + ([c] + rest), [c])..]
    decreases |a|
  {
    var s := a + ([c] + rest);
    if a == "" {
      assert s == [c] + rest;
    } else if s[0] != c {
      assert s[1..] == a[1..] + ([c] + rest);
      SeekOccurs(a[1..], c, rest);
    }
  }

  lemma DoctypeReads(st: State, text: string, rest: string)
    requires st.Valid() && Matching(text, 0)
    ensures ReadMarkup(st, "!DOCTYPE" + (text + (">" + rest))) == Go(st, rest)
  {
    hide Seek, SeekDoctype, SkipSpace;
    var body := text + (">" + rest);
    var s := "!DOCTYPE" + body;
    NoSpace(s);
    assert s[8..] == body && s[1] == 'D';
    DoctypeReaches(text, 0, rest);
    SeekOccurs(text, '>', rest);
    assert body[|text| + 1..] == rest;
  }

  lemma CloseReads(st: State, space: string, name: string, text: string)
    requires st.Valid() && AllSpace(space) && AllOf(name, NameChar)
    requires text != "" && !NameChar(text[0]) && text[0] != '<' && (name == "" ==> !IsSpace(text[0]))
    ensures ReadMarkup(st, "/" + (space + (name + text))) ==
            if st.open == [] then Stop(UnexpectedClose(Decoding(name)))
            else if st.Innermost().name != Decoding(name) then Stop(Mismatch(Decoding(name), st.Innermost().name))
            else Go(st.Leave(), text)
  {
    hide Decoding, Span, SkipSpace, State.Leave;
    var s := name + text;
    assert s[0] == if name == "" then text[0] else name[0];
    SlashRead(st, space + s);
    SkipTo(space, s);
    SpanStops(name, text, NameChar);
  }

  // ----- Whole texts are read -----

  lemma LeadSkipped(st: State, lead: string, s: string)
    requires st.Valid() && AllSpace(lead) && s != "" && !IsSpace(s[0])
    ensures ReadMarkup(st, lead + s) == ReadMarkup(st, s)
  {
    hide ReadComment, ReadInstruction, ReadDoctype, ReadClose, ReadOpen, SkipSpace;
    SkipTo(lead, s);
    NoSpace(s);
  }

  lemma BodyStarts(m: Mark, rest: string)
    requires WfMark(m)
    ensures MarkBody(m, rest) != "" && !IsSpace(MarkBody(m, rest)[0])
  {
    hide WrittenText;
    if m.OpenMark? || m.EmptyMark? {
      var end := if m.OpenMark? then EndText(m.slash, rest) else "/" + (m.slashSpace + (">" + rest));
      TagNameEnds(m.tag, end);
      assert MarkBody(m, rest)[0] == if m.tag.name == "" then end[0] else m.tag.name[0];
    }
  }

  /** What is read of a mark is what it stands for, and a mark that may not stand there is an error. */
  lemma MarkReads(st: State, p: Piece, rest: string)
    requires st.Valid() && WfPiece(p) && (rest == "" || "<" <= rest) && (p.mark.OpenMark? ==> rest != "")
    ensures ReadMarkup(st, MarkBody(p.mark, p.behind + rest)).Go? <==> Act(st, p, "</" <= rest).Some?
    ensures var act := Act(st, p, "</" <= rest);
            var left := if p.mark.OpenMark? then rest else p.behind + rest;
            act.Some? ==> act.value.Valid() && ReadMarkup(st, MarkBody(p.mark, p.behind + rest)) == Go(act.value, left)
  {
    hide ReadMarkup, State.Add, State.Enter, State.Leave, Decoding, ValueOf, ElementOf, SpelledTag, ReadTail;
    hide NoneEarlier, Matching, WfTag;
    var text := p.behind + rest;
    assert p.behind != "" ==> text[0] == p.behind[0];
    match p.mark
    case CommentMark(_, blanks, t) =>
      CommentReads(st, blanks, t, text);
    case InstructionMark(_, t) =>
      InstructionReads(st, t, text);
    case DoctypeMark(_, t) =>
      DoctypeReads(st, t, text);
    case CloseMark(_, space, name) =>
      CloseReads(st, space, name, text);
    case EmptyMark(tag, space) =>
      TagReads(st, tag, "/" + (space + (">" + text)));
      if st.open != [] {
        NoBracket(p.behind, rest);
        EmptyEnds(st, ElementOf(tag), space, text);
      }
    case OpenMark(tag, slash) =>
      TagReads(st, tag, EndText(slash, text));
      if st.open != [] {
        ElementHasNoValue(tag);
        OpenEnds(st, ElementOf(tag), slash, p.behind, rest);
      }
  }

  lemma NoBracket(behind: string, rest: string)
    requires !(">" <= behind) && (rest == "" || "<" <= rest)
    ensures !(">" <= behind + rest)
  {
    if behind == "" {
      assert behind + rest == rest;
      assert rest != "" ==> rest[0] == "<"[0];
    } else {
      assert (behind + rest)[0] == behind[0] && behind[0] != '>' by {
        assert behind[0] == '>' ==> ">" <= behind;
      }
    }
  }

  lemma ElementHasNoValue(tag: Tag)
    ensures ElementOf(tag).value == None
  {
  }

  lemma SpelledStarts(pieces: seq<Piece>)
    requires WfPieces(pieces)
    ensures pieces == [] ==> Spelled(pieces) == ""
    ensures pieces != [] ==> "<" <= Spelled(pieces)
    ensures "</" <= Spelled(pieces) <==> Closes(pieces)
  {
    hide MarkBody;
    if pieces != [] {
      var m, rest := pieces[0].mark, pieces[0].behind + Spelled(pieces[1..]);
      BodyStarts(m, rest);
      var s := MarkText(m, rest);
      assert s[1] == if MarkLead(m) == "" then MarkBody(m, rest)[0] else MarkLead(m)[0];
      SlashIsClose(m, rest);
    }
  }

  lemma SlashIsClose(m: Mark, rest: string)
    requires WfMark(m) && MarkBody(m, rest) != ""
    ensures MarkBody(m, rest)[0] == '/' <==> m.CloseMark?
    ensures MarkLead(m) != "" ==> MarkLead(m)[0] != '/'
  {
    hide WrittenText;
    if m.OpenMark? || m.EmptyMark? {
      var end := if m.OpenMark? then EndText(m.slash, rest) else "/" + (m.slashSpace + (">" + rest));
      TagNameEnds(m.tag, end);
      assert MarkBody(m, rest)[0] == if m.tag.name == "" then end[0] else m.tag.name[0];
    }
  }

  /**
    The parser reads a spelled text as its marks say: it gives the tree that they build up, or an error when one of them
    may not stand where it does.
  */
  lemma {:induction false} SpelledReads(st: State, pieces: seq<Piece>)
    requires st.Valid() && WfPieces(pieces)
    ensures Run(st, pieces).Some? <==> Resume(st, Spelled(pieces)).Tree?
    ensures Run(st, pieces).Some? ==>
      Run(st, pieces).value.Valid() && Resume(st, Spelled(pieces)) == Tree(Run(st, pieces).value.Root())
    decreases |pieces|
  {
    hide ReadMarkup, Act, State.Root, MarkBody, WfPiece, Span;
    SpelledStarts(pieces);
    if pieces == [] {
      SpanStops("", "", Outside);
    } else {
      var p, rest := pieces[0], Spelled(pieces[1..]);
      var body := MarkBody(p.mark, p.behind + rest);
      SpelledStarts(pieces[1..]);
      assert WfMark(p.mark) && '<' !in p.behind && AllSpace(MarkLead(p.mark)) by { PieceParts(p); }
      BodyStarts(p.mark, p.behind + rest);
      LeadSkipped(st, MarkLead(p.mark), body);
      MarkReads(st, p, rest);
      hide Resume;
      ResumeAtTag(st, MarkLead(p.mark) + body);
      var act := Act(st, p, Closes(pieces[1..]));
      if act.Some? {
        ResumeSkips(act.value, p.behind, rest);
        SpelledReads(act.value, pieces[1..]);
      }
    }
  }

  lemma PieceParts(p: Piece)
    requires WfPiece(p)
    ensures WfMark(p.mark) && '<' !in p.behind && AllSpace(MarkLead(p.mark))
  {
  }
}
