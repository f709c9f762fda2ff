/**
  The parser of mxml/mxml.c as a walk of an index over the buffer.
*/
module XmlReader {
  import opened Options
  import opened XmlText
  import opened XmlTree
  import opened XmlParser

  /** The walk has come to what the step says: an error, or a state and the place of the rest of the text. */
  ghost predicate At(step: Step, error: Option<Error>, st: State, buf: string, p: nat) {
    match step
    case Stop(e) => error == Some(e)
    case Go(s, rest) => error == None && st == s && p <= |buf| && buf[p..] == rest
  }

  ghost predicate AttributeAt(step: AttributeStep, error: Option<Error>, node: Node, buf: string, p: nat) {
    match step
    case Bad(e) => error == Some(e)
    case Read(n, rest) => error == None && node == n && p <= |buf| && buf[p..] == rest
  }

  lemma Suffix(buf: string, p: nat, k: nat)
    requires p + k <= |buf|
    ensures buf[p..][k..] == buf[p + k..] && buf[p..][..k] == buf[p..p + k]
  {
  }

  method SkipSpaces(buf: string, start: nat) returns (p: nat)
    requires start <= |buf|
    ensures start <= p <= |buf| && buf[p..] == SkipSpace(buf[start..])
  {
    p := ScanWhile(buf, start, IsSpace);
    Suffix(buf, start, p - start);
  }

  method ScanTo(buf: string, start: nat, pattern: string) returns (p: nat)
    requires start <= |buf|
    ensures start <= p <= |buf| && p - start == Seek(buf[start..], pattern)
  {
    p := start;
    while p < |buf| && !(pattern <= buf[p..])
      invariant start <= p <= |buf| && p - start + Seek(buf[p..], pattern) == Seek(buf[start..], pattern)
    {
      Suffix(buf, p, 1);
      p := p + 1;
    }
  }

  method ScanDoctype(buf: string, start: nat) returns (p: nat)
    requires start <= |buf|
    ensures start <= p <= |buf| && p - start == SeekDoctype(buf[start..], 0)
  {
    p := start;
    var depth := 0;
    while p < |buf| && (buf[p] != '>' || depth > 0)
      invariant start <= p <= |buf| && depth >= 0
      invariant p - start + SeekDoctype(buf[p..], depth) == SeekDoctype(buf[start..], 0)
    {
      Suffix(buf, p, 1);
      if buf[p] == '<' {
        depth := depth + 1;
      } else if buf[p] == '>' {
        depth := depth - 1;
      }
      p := p + 1;
    }
  }

  method CommentAt(buf: string, start: nat, st0: State) returns (error: Option<Error>, st: State, p: nat)
    requires start <= |buf| && "!--" <= buf[start..]
    ensures At(ReadComment(st0, buf[start..]), error, st, buf, p)
  {
    hide ReadCommentBody;
    if st0.open == [] {
      return Some(NoParent), st0, start;
    }
    Suffix(buf, start, 3);
    error, st, p := CommentBodyAt(buf, start + 3, st0);
  }

  method CommentBodyAt(buf: string, start: nat, st0: State) returns (error: Option<Error>, st: State, p: nat)
    requires start <= |buf| && st0.open != []
    ensures At(ReadCommentBody(st0, buf[start..]), error, st, buf, p)
  {
    hide Decoding, Seek, Span, State.Add;
    var pv := ScanWhile(buf, start, Blank);
    p := ScanTo(buf, start, "-->");
    Suffix(buf, start, p - start);
    if !("-->" <= buf[p..]) {
      return Some(UnterminatedComment), st0, p;
    }
    BlanksBefore(buf[start..], "-->");
    assert buf[start..][pv - start..p - start] == buf[pv..p];
    Suffix(buf, start, p + 3 - start);
    var value := Decode(buf[pv..p]);
    return None, st0.Add(Node("Comment", Comment, Some(value), [], [])), p + 3;
  }

  method InstructionAt(buf: string, start: nat, st0: State) returns (error: Option<Error>, st: State, p: nat)
    requires start < |buf|
    ensures At(ReadInstruction(st0, buf[start..]), error, st, buf, p)
  {
    hide Decoding, Seek;
    if st0.open == [] {
      return Some(NoParent), st0, start;
    }
    Suffix(buf, start, 1);
    p := ScanTo(buf, start + 1, "?>");
    Suffix(buf, start + 1, p - start - 1);
    if !("?>" <= buf[p..]) {
      return Some(UnterminatedInstruction), st0, p;
    }
    assert buf[start + 1..][p - start + 1..] == buf[p + 2..];
    var value := Decode(buf[start + 1..p]);
    return None, st0.Add(Node("PI", Instruction, Some(value), [], [])), p + 2;
  }

  method DoctypeAt(buf: string, start: nat, st0: State) returns (error: Option<Error>, st: State, p: nat)
    requires st0.Valid() && start <= |buf| && "!DOCTYPE" <= buf[start..]
    ensures At(ReadDoctype(st0, buf[start..]), error, st, buf, p)
  {
    hide Seek, SeekDoctype;
    Suffix(buf, start, 8);
    var first := ScanTo(buf, start + 8, ">");
    Suffix(buf, start + 8, first - start - 8);
    if !(">" <= buf[first..]) {
      return Some(UnterminatedDoctype), st0, start;
    }
    p := ScanDoctype(buf, start + 8);
    if p == |buf| {
      return Some(UnexpectedEnd), st0, p;
    }
    Suffix(buf, start + 8, p - start - 7);
    return None, st0, p + 1;
  }

  /** A node name, decoded, unless an error comes right after it. */
  method NameAt(buf: string, start: nat) returns (error: Option<Error>, name: string, p: nat)
    requires start <= |buf|
    ensures start <= p <= |buf| && p - start == Span(buf[start..], NameChar) && name == Decoding(buf[start..p])
    ensures error ==
            if p == |buf| then Some(UnexpectedEnd)
            else if buf[p] == '<' then Some(UnexpectedBracket('<', buf[start..p]))
            else None
  {
    p := ScanWhile(buf, start, NameChar);
    name := Decode(buf[start..p]);
    if p == |buf| {
      return Some(UnexpectedEnd), name, p;
    }
    if buf[p] == '<' {
      return Some(UnexpectedBracket('<', buf[start..p])), name, p;
    }
    return None, name, p;
  }

  method CloseAt(buf: string, start: nat, st0: State) returns (error: Option<Error>, st: State, p: nat)
    requires start <= |buf|
    ensures At(ReadClose(st0, buf[start..]), error, st, buf, p)
  {
    hide Decoding, Span, SkipSpace, State.Leave;
    var s := SkipSpaces(buf, start);
    var name;
    error, name, p := NameAt(buf, s);
    Suffix(buf, s, p - s);
    if error.Some? {
      return error, st0, p;
    }
    if st0.open == [] {
      return Some(UnexpectedClose(name)), st0, p;
    }
    if st0.Innermost().name != name {
      return Some(Mismatch(name, st0.Innermost().name)), st0, p;
    }
    return None, st0.Leave(), p;
  }

  method ValueAt(buf: string, start: nat, node0: Node, name: string) returns (error: Option<Error>, node: Node, p: nat)
    requires start <= |buf|
    ensures AttributeAt(ReadValue(node0, name, buf[start..]), error, node, buf, p)
  {
    hide Decoding, Span, Not, SkipSpace, Cut;
    node := node0;
    p := SkipSpaces(buf, start);
    if p == |buf| {
      return Some(UnexpectedEnd), node0, p;
    }
    if buf[p] != '"' && buf[p] != '\'' {
      return Some(ExpectedQuote), node0, p;
    }
    var quote := buf[p];
    Suffix(buf, p, 1);
    p := p + 1;
    var pv := ScanWhile(buf, p, Not(quote));
    Suffix(buf, p, pv - p);
    if pv == |buf| {
      return Some(UnexpectedEnd), node0, p;
    }
    var value := Decode(Cut(buf[p..pv], ATTRIBUTE_VALUE_SIZE));
    node := node0.(attributes := node0.attributes + [Attribute(Cut(name, NAME_LENGTH), value)]);
    Suffix(buf, p, pv + 1 - p);
    p := SkipSpaces(buf, pv + 1);
    if p == |buf| {
      return Some(UnexpectedEnd), node, p;
    }
    error := None;
  }

  method OneAttributeAt(buf: string, start: nat, node0: Node, inside: string)
    returns (error: Option<Error>, node: Node, p: nat)
    requires start < |buf| && buf[start] != '>'
    ensures AttributeAt(ReadAttribute(node0, buf[start..], inside), error, node, buf, p)
  {
    hide Decoding, Span, ReadValue, SkipSpace, Cut;
    var pv := ScanWhile(buf, start, AttributeChar);
    Suffix(buf, start, pv - start);
    if pv == |buf| {
      return Some(UnexpectedEnd), node0, pv;
    }
    if buf[pv] == '<' || buf[pv] == '>' {
      return Some(UnexpectedBracket(buf[pv], inside)), node0, pv;
    }
    var name := Decode(Cut(buf[start..pv], ATTRIBUTE_NAME_SIZE));
    p := SkipSpaces(buf, pv);
    if p == |buf| {
      return Some(UnexpectedEnd), node0, p;
    }
    if buf[p] != '=' {
      return Some(ExpectedEquals), node0, p;
    }
    Suffix(buf, p, 1);
    error, node, p := ValueAt(buf, p + 1, node0, name);
  }

  method ContentAt(buf: string, start: nat, st0: State, node: Node) returns (error: Option<Error>, st: State, p: nat)
    requires start <= |buf|
    ensures At(ReadContent(st0, node, buf[start..]), error, st, buf, p)
  {
    hide Span, ReadText;
    var pv := ScanWhile(buf, start, IsSpace);
    Suffix(buf, start, pv - start);
    if pv == |buf| {
      return Some(UnexpectedEnd), st0, pv;
    }
    Suffix(buf, start, pv + 1 - start);
    if buf[pv] == '<' && !("/" <= buf[pv + 1..]) {
      return None, st0.Enter(node), pv;
    }
    error, st, p := TextAt(buf, start, pv, st0, node);
  }

  method TextAt(buf: string, start: nat, pv: nat, st0: State, node: Node)
    returns (error: Option<Error>, st: State, p: nat)
    requires start <= pv <= |buf|
    ensures At(ReadText(st0, node, buf[start..], pv - start), error, st, buf, p)
  {
    hide Decoding, Span;
    Suffix(buf, start, pv - start);
    p := ScanWhile(buf, pv, Outside);
    Suffix(buf, start, p - start);
    if p == |buf| {
      return Some(UnexpectedEnd), st0, p;
    }
    var value := Decode(buf[start..p]);
    return None, st0.Enter(node.(value := Some(value))), p;
  }

  method TailAt(buf: string, start: nat, st0: State, node: Node) returns (error: Option<Error>, st: State, p: nat)
    requires st0.open != [] && start < |buf| && EndsTag(buf[start])
    ensures At(ReadTail(st0, node, buf[start..]), error, st, buf, p)
  {
    hide ReadContent, Span, SkipSpace;
    p := start;
    Suffix(buf, p, 1);
    if buf[p] == '/' {
      p := SkipSpaces(buf, p + 1);
      if p == |buf| {
        return Some(UnexpectedEnd), st0, p;
      }
      if buf[p] != '>' {
        return Some(ExpectedBracketAfterSlash), st0, p;
      }
      Suffix(buf, p, 1);
      p := p + 1;
    }
    if p < |buf| && buf[p] == '>' {
      Suffix(buf, p, 1);
      ghost var q := p;
      error, st, p := ContentAt(buf, p + 1, st0, node);
      if buf[start] == '/' {
        assert buf[q - 1..][2..] == buf[q + 1..];
      }
      return error, st, p;
    }
    return None, st0.Add(node), p;
  }

  method OpenAt(buf: string, start: nat, st0: State) returns (error: Option<Error>, st: State, p: nat)
    requires start <= |buf|
    ensures At(ReadOpen(st0, buf[start..]), error, st, buf, p)
  {
    hide Decoding, Span, ReadTail, ReadAttribute, SkipSpace, Cut;
    var name;
    error, name, p := NameAt(buf, start);
    Suffix(buf, start, p - start);
    if error.Some? {
      return error, st0, p;
    }
    if st0.open == [] {
      return Some(SecondTopLevel), st0, p;
    }
    var node := Node(Cut(name, NAME_LENGTH), Element, None, [], []);
    p := SkipSpaces(buf, p);
    if p == |buf| {
      return Some(UnexpectedEnd), st0, p;
    }
    ghost var first, text := node, buf[p..];
    while buf[p] != '>' && buf[p] != '/'
      invariant p < |buf| && ReadAttributes(first, text, name) == ReadAttributes(node, buf[p..], name)
      decreases |buf| - p
    {
      error, node, p := OneAttributeAt(buf, p, node, name);
      if error.Some? {
        return error, st0, p;
      }
    }
    error, st, p := TailAt(buf, p, st0, node);
  }

  method MarkupAt(buf: string, start: nat, st0: State) returns (error: Option<Error>, st: State, p: nat)
    requires st0.Valid() && start <= |buf|
    ensures At(ReadMarkup(st0, buf[start..]), error, st, buf, p)
  {
    hide ReadComment, ReadInstruction, ReadDoctype, ReadClose, ReadOpen, Span;
    p := SkipSpaces(buf, start);
    if p == |buf| {
      return Some(UnexpectedEnd), st0, p;
    }
    if "!--" <= buf[p..] {
      error, st, p := CommentAt(buf, p, st0);
    } else if buf[p] == '?' {
      error, st, p := InstructionAt(buf, p, st0);
    } else if "!DOCTYPE" <= buf[p..] {
      error, st, p := DoctypeAt(buf, p, st0);
    } else if buf[p] == '/' {
      Suffix(buf, p, 1);
      error, st, p := CloseAt(buf, p + 1, st0);
    } else {
      error, st, p := OpenAt(buf, p, st0);
    }
  }

  /** Reads a whole buffer into a tree, or says what is wrong with it. */
  method ParseBuffer(buf: string) returns (r: Result)
    ensures r == Parse(Start(), buf)
  {
    hide ReadMarkup, Span;
    var p, st := 0, Start();
    assert buf[0..] == buf;
    while true
      invariant st.Valid() && p <= |buf| && Parse(st, buf[p..]) == Parse(Start(), buf)
      invariant p > 0 ==> "<" <= buf[p..]
      decreases |buf| - p, p == 0
    {
      if p < |buf| && buf[p] == '<' {
        Suffix(buf, p, 1);
        var error;
        error, st, p := MarkupAt(buf, p + 1, st);
        if error.Some? {
          return Failure(error.value);
        }
      }
      var q := ScanWhile(buf, p, Outside);
      Suffix(buf, p, q - p);
      p := q;
      if p == |buf| {
        return Tree(st.Root());
      }
    }
  }
}
