/**
  The hand-written parser of mxml/mxml.c. The functions say what is read from a text; the methods move an index over
  the buffer. The tags are those of section 3.1 of XML 1.0.
*/
module XmlParser {
  import opened Options
  import opened XmlText
  import opened XmlTree

  const ATTRIBUTE_NAME_SIZE: nat := 256
  const ATTRIBUTE_VALUE_SIZE: nat := 1000

  datatype Error =
    | UnexpectedEnd
    | UnterminatedComment
    | UnterminatedInstruction
    | UnterminatedDoctype
    | UnexpectedBracket(bracket: char, inside: string)
    | UnexpectedClose(found: string)
    | Mismatch(found: string, expected: string)
    | SecondTopLevel
    | ExpectedEquals
    | ExpectedQuote
    | ExpectedBracketAfterSlash
    | NoParent // an assertion of the source

  datatype Result = Tree(root: Node) | Failure(error: Error)

  // The nodes still open, from the root inwards, each without the open one below it; the root once it was closed.
  datatype State = State(open: seq<Node>, closed: Option<Node>) {
    predicate Valid() { open != [] || closed.Some? }

    function Innermost(): Node
      requires open != []
    {
      open[|open| - 1]
    }

    function Add(n: Node): (s: State)
      requires open != []
      ensures s.Valid() && |s.open| == |open|
    {
      var parent := Innermost();
      State(open[..|open| - 1] + [parent.(children := parent.children + [n])], closed)
    }

    function Enter(n: Node): (s: State)
      ensures s.Valid()
    {
      State(open + [n], closed)
    }

    function Leave(): (s: State)
      requires open != []
      ensures s.Valid() && |s.open| == |open| - 1
    {
      if |open| == 1 then State([], Some(open[0])) else State(open[..|open| - 1], closed).Add(Innermost())
    }

    /** Elements that were never closed still count, with what they hold. */
    function Root(): Node
      requires Valid()
      decreases |open|
    {
      if open == [] then closed.value else Leave().Root()
    }
  }

  function RootNode(): Node { Node("root", Document, None, [], []) }

  datatype Step = Go(state: State, rest: string) | Stop(error: Error)

  datatype AttributeStep = Read(node: Node, text: string) | Bad(reason: Error)

  predicate NameChar(c: char) { !IsSpace(c) && c != '/' && c != '>' && c != '<' }
  predicate AttributeChar(c: char) { !IsSpace(c) && c != '=' && c != '<' && c != '>' }
  predicate EndsTag(c: char) { c == '>' || c == '/' }
  predicate Outside(c: char) { c != '<' }
  predicate Blank(c: char) { c == ' ' }
  function Not(quote: char): char -> bool { c => c != quote }

  function SkipSpace(s: string): string { s[Span(s, IsSpace)..] }

  predicate AllSpace(s: string) { forall i :: 0 <= i < |s| ==> IsSpace(s[i]) }

  lemma NoSpace(s: string)
    requires s != "" && !IsSpace(s[0])
    ensures SkipSpace(s) == s
  {
    SpanStops("", s, IsSpace);
    assert "" + s == s;
  }

  /** Where a pattern first occurs, or the end of the text. */
  function Seek(s: string, pattern: string): (k: nat)
    ensures k <= |s|
  {
    if s == "" || pattern <= s then 0 else 1 + Seek(s[1..], pattern)
  }

  /** The end of a document type: the first closing bracket that no opening one inside matches. */
  function SeekDoctype(s: string, depth: nat): (k: nat)
    ensures k <= |s|
  {
    if s == "" || (s[0] == '>' && depth == 0) then 0
    else 1 + SeekDoctype(s[1..], if s[0] == '<' then depth + 1 else if s[0] == '>' then depth - 1 else depth)
  }

  ghost predicate Shorter(step: Step, s: string) {
    step.Go? ==> step.state.Valid() && |step.rest| <= |s|
  }

  lemma BlanksBefore(s: string, pattern: string)
    requires pattern != "" && pattern[0] != ' ' && pattern <= s[Seek(s, pattern)..]
    ensures Span(s, Blank) <= Seek(s, pattern)
  {
    var k := Seek(s, pattern);
    assert s[k] == pattern[0];
  }

  function ReadComment(st: State, s: string): (step: Step)
    requires "!--" <= s
    ensures Shorter(step, s)
  {
    if st.open == [] then Stop(NoParent) else ReadCommentBody(st, s[3..])
  }

  /** The text of a comment, without the spaces in front of it, up to its end. */
  function ReadCommentBody(st: State, body: string): (step: Step)
    requires st.open != []
    ensures Shorter(step, body)
  {
    var end := Seek(body, "-->");
    if !("-->" <= body[end..]) then Stop(UnterminatedComment)
    else
      BlanksBefore(body, "-->");
      Go(st.Add(Node("Comment", Comment, Some(Decoding(body[Span(body, Blank)..end])), [], [])), body[end + 3..])
  }

  function ReadInstruction(st: State, s: string): (step: Step)
    requires s != ""
    ensures Shorter(step, s)
  {
    var body := s[1..];
    var end := Seek(body, "?>");
    if st.open == [] then Stop(NoParent)
    else if !("?>" <= body[end..]) then Stop(UnterminatedInstruction)
    else Go(st.Add(Node("PI", Instruction, Some(Decoding(body[..end])), [], [])), body[end + 2..])
  }

  function ReadDoctype(st: State, s: string): (step: Step)
    requires st.Valid() && "!DOCTYPE" <= s
    ensures Shorter(step, s)
  {
    var body := s[8..];
    var end := SeekDoctype(body, 0);
    if !(">" <= body[Seek(body, ">")..]) then Stop(UnterminatedDoctype)
    else if end == |body| then Stop(UnexpectedEnd)
    else Go(st, body[end + 1..])
  }

  function ReadClose(st: State, s: string): (step: Step)
    ensures Shorter(step, s)
  {
    var s1 := SkipSpace(s);
    var k := Span(s1, NameChar);
    var name := Decoding(s1[..k]);
    if s1[k..] == "" then Stop(UnexpectedEnd)
    else if s1[k] == '<' then Stop(UnexpectedBracket('<', s1[..k]))
    else if st.open == [] then Stop(UnexpectedClose(name))
    else if st.Innermost().name != name then Stop(Mismatch(name, st.Innermost().name))
    else Go(st.Leave(), s1[k..])
  }

  /** A quoted attribute value after the equals sign. */
  function ReadValue(node: Node, name: string, s: string): (step: AttributeStep)
    ensures step.Read? ==> step.text != "" && |step.text| < |s|
  {
    var s1 := SkipSpace(s);
    if s1 == "" then Bad(UnexpectedEnd)
    else if s1[0] != '"' && s1[0] != '\'' then Bad(ExpectedQuote)
    else
      var s2 := s1[1..];
      var k := Span(s2, Not(s1[0]));
      if s2[k..] == "" then Bad(UnexpectedEnd)
      else
        var value := Decoding(Cut(s2[..k], ATTRIBUTE_VALUE_SIZE));
        var s3 := SkipSpace(s2[k + 1..]);
        if s3 == "" then Bad(UnexpectedEnd)
        else Read(node.(attributes := node.attributes + [Attribute(Cut(name, NAME_LENGTH), value)]), s3)
  }

  /** One attribute of the element whose name is given for messages. */
  function ReadAttribute(node: Node, s: string, inside: string): (step: AttributeStep)
    requires s != "" && s[0] != '>'
    ensures step.Read? ==> step.text != "" && |step.text| < |s|
  {
    var k := Span(s, AttributeChar);
    var s1 := SkipSpace(s[k..]);
    if s[k..] == "" then Bad(UnexpectedEnd)
    else if s[k] == '<' || s[k] == '>' then Bad(UnexpectedBracket(s[k], inside))
    else if s1 == "" then Bad(UnexpectedEnd)
    else if s1[0] != '=' then Bad(ExpectedEquals)
    else ReadValue(node, Decoding(Cut(s[..k], ATTRIBUTE_NAME_SIZE)), s1[1..])
  }

  function ReadAttributes(node: Node, s: string, inside: string): (step: AttributeStep)
    requires s != ""
    ensures step.Read? ==> step.text != "" && EndsTag(step.text[0]) && |step.text| <= |s|
    decreases |s|
  {
    if EndsTag(s[0]) then Read(node, s)
    else
      match ReadAttribute(node, s, inside)
      case Bad(e) => Bad(e)
      case Read(node', rest) => ReadAttributes(node', rest, inside)
  }

  /** What follows the bracket of a start tag: a value, even an empty one before an end tag, or another tag. */
  function ReadContent(st: State, node: Node, s: string): (step: Step)
    ensures Shorter(step, s)
  {
    var k := Span(s, IsSpace);
    if s[k..] == "" then Stop(UnexpectedEnd)
    else if s[k] == '<' && !("/" <= s[k + 1..]) then Go(st.Enter(node), s[k..])
    else ReadText(st, node, s, k)
  }

  /** A value up to the next tag, with the space that it starts with. */
  function ReadText(st: State, node: Node, s: string, space: nat): (step: Step)
    requires space <= |s|
    ensures Shorter(step, s)
  {
    var k := space + Span(s[space..], Outside);
    if s[k..] == "" then Stop(UnexpectedEnd)
    else Go(st.Enter(node.(value := Some(Decoding(s[..k])))), s[k..])
  }

  /** The end of a start tag. After the bracket of an empty element, a second one is taken for that of a start tag. */
  function ReadTail(st: State, node: Node, s: string): (step: Step)
    requires st.open != [] && s != "" && EndsTag(s[0])
    ensures Shorter(step, s)
  {
    if s[0] == '>' then ReadContent(st, node, s[1..])
    else
      var s1 := SkipSpace(s[1..]);
      if s1 == "" then Stop(UnexpectedEnd)
      else if s1[0] != '>' then Stop(ExpectedBracketAfterSlash)
      else if ">" <= s1[1..] then ReadContent(st, node, s1[2..])
      else Go(st.Add(node), s1[1..])
  }

  function ReadOpen(st: State, s: string): (step: Step)
    ensures Shorter(step, s)
  {
    var k := Span(s, NameChar);
    var name := Decoding(s[..k]);
    if s[k..] == "" then Stop(UnexpectedEnd)
    else if s[k] == '<' then Stop(UnexpectedBracket('<', s[..k]))
    else if st.open == [] then Stop(SecondTopLevel)
    else
      var s1 := SkipSpace(s[k..]);
      if s1 == "" then Stop(UnexpectedEnd)
      else
        match ReadAttributes(Node(Cut(name, NAME_LENGTH), Element, None, [], []), s1, name)
        case Bad(e) => Stop(e)
        case Read(node, s2) => ReadTail(st, node, s2)
  }

  function ReadMarkup(st: State, s: string): (step: Step)
    requires st.Valid()
    ensures Shorter(step, s)
  {
    var s1 := SkipSpace(s);
    if s1 == "" then Stop(UnexpectedEnd)
    else if "!--" <= s1 then ReadComment(st, s1)
    else if s1[0] == '?' then ReadInstruction(st, s1)
    else if "!DOCTYPE" <= s1 then ReadDoctype(st, s1)
    else if s1[0] == '/' then ReadClose(st, s1[1..])
    else ReadOpen(st, s1)
  }

  /** The tree of a text, read from a state. */
  function Parse(st: State, s: string): Result
    requires st.Valid()
    decreases |s|, if "<" <= s then 0 else 2
  {
    if "<" <= s then
      match ReadMarkup(st, s[1..])
      case Stop(e) => Failure(e)
      case Go(st', rest) => Resume(st', rest)
    else Resume(st, s)
  }

  /** Text between tags is passed over. */
  function Resume(st: State, s: string): Result
    requires st.Valid()
    decreases |s|, 1
  {
    var rest := s[Span(s, Outside)..];
    if rest == "" then Tree(st.Root()) else Parse(st, rest)
  }

  function Start(): State { State([RootNode()], None) }
}
