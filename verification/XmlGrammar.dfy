/**
  The texts that the parser of mxml/mxml.c takes are exactly the spelled ones whose end tags match, and nested elements
  are read as the trees they are.
*/
module XmlGrammar {
  import opened Options
  import opened XmlText
  import opened XmlTree
  import opened XmlParser
  import opened XmlRoundTrip
  import opened XmlSpelling

  // ----- The spelling of what has been read -----

  lemma SplitSpace(s: string) returns (space: string, rest: string)
    ensures s == space + rest && AllSpace(space) && rest == SkipSpace(s) && (rest == "" || !IsSpace(rest[0]))
  {
    var k := Span(s, IsSpace);
    space, rest := s[..k], s[k..];
  }

  lemma SplitAt(s: string, k: nat)
    requires k < |s|
    ensures s == s[..k] + ([s[k]] + s[k + 1..])
  {
  }

  lemma SplitTwice(s: string, front: string, k: nat, rest: string)
    requires k <= |front| && s == front + rest
    ensures s == front[..k] + (front[k..] + rest)
  {
  }

  lemma ValueFound(node: Node, name: string, s: string)
    returns (beforeValue: string, quote: char, value: string, tail: string)
    requires ReadValue(node, name, s).Read?
    ensures s == beforeValue + ([quote] + (value + ([quote] + tail)))
    ensures SkipSpace(tail) == ReadValue(node, name, s).text
    ensures AllSpace(beforeValue) && (quote == '"' || quote == '\'') && quote !in value
  {
    hide Decoding, SkipSpace;
    var s1;
    beforeValue, s1 := SplitSpace(s);
    quote := s1[0];
    var s2 := s1[1..];
    var k := Span(s2, Not(quote));
    value, tail := s2[..k], s2[k + 1..];
    assert s2[k..][0] == s2[k];
    SplitAt(s2, k);
    assert s1 == [quote] + s2;
  }

  lemma Headed(s: string, c: char)
    requires s != "" && s[0] == c
    ensures s == [c] + s[1..]
  {
  }

  lemma Halved(s: string, k: nat)
    requires k <= |s|
    ensures s == s[..k] + s[k..]
  {
  }

  lemma AttributeFound(node: Node, s: string, inside: string) returns (a: Written, tail: string)
    requires s != "" && !IsSpace(s[0]) && !EndsTag(s[0]) && ReadAttribute(node, s, inside).Read?
    ensures WfWritten(a) && a.before == "" && s == NamedText(a, tail) && |tail| < |s|
    ensures SkipSpace(tail) == ReadAttribute(node, s, inside).text
  {
    hide Decoding, ReadValue, SkipSpace, Span;
    var k := Span(s, AttributeChar);
    var behindName, s1 := SplitSpace(s[k..]);
    var decoded := Decoding(Cut(s[..k], ATTRIBUTE_NAME_SIZE));
    var beforeValue, quote, value, t := ValueFound(node, decoded, s1[1..]);
    tail := t;
    a := Written("", s[..k], behindName, beforeValue, quote, value);
    assert s[k..][0] == s[k];
    Headed(s1, '=');
    Halved(s, k);
  }

  lemma {:induction false} WrittenFound(node: Node, s: string, inside: string)
    returns (attributes: seq<Written>, space: string)
    requires SkipSpace(s) != "" && ReadAttributes(node, SkipSpace(s), inside).Read?
    ensures (forall a <- attributes :: WfWritten(a)) && AllSpace(space)
    ensures s == WrittenText(attributes, space + ReadAttributes(node, SkipSpace(s), inside).text)
    ensures attributes != [] && attributes[0].before == "" ==> s != "" && !IsSpace(s[0]) && !EndsTag(s[0])
    decreases |s|
  {
    hide SkipSpace, ReadAttribute, WfWritten, NamedText;
    var before, rest := SplitSpace(s);
    if EndsTag(rest[0]) {
      attributes, space := [], before;
    } else {
      var a, tail := AttributeFound(node, rest, inside);
      var others;
      var step := ReadAttribute(node, rest, inside);
      others, space := WrittenFound(step.node, tail, inside);
      attributes := [a.(before := before)] + others;
      BeforeSet(a, before);
      SameNamed(a, before, tail);
      assert attributes[1..] == others;
      assert before == "" ==> s == rest;
    }
  }

  lemma BeforeSet(a: Written, before: string)
    requires WfWritten(a) && AllSpace(before)
    ensures WfWritten(a.(before := before))
  {
  }

  lemma SameNamed(a: Written, before: string, tail: string)
    ensures NamedText(a.(before := before), tail) == NamedText(a, tail)
  {
  }

  lemma TagFound(st: State, s: string) returns (tag: Tag, rest: string)
    requires st.Valid() && s != "" && !IsSpace(s[0]) && ReadOpen(st, s).Go?
    requires !("!--" <= s) && s[0] != '?' && !("!DOCTYPE" <= s) && s[0] != '/'
    ensures WfTag(tag) && tag.lead == "" && s == SpelledTag(tag, rest) && rest != "" && EndsTag(rest[0])
    ensures st.open != [] && ReadOpen(st, s) == ReadTail(st, ElementOf(tag), rest)
    ensures tag.name == "" ==> rest[0] == '>'
  {
    hide Decoding, SkipSpace, ReadAttributes, ReadTail, SpelledTag, WfTag;
    tag, rest := TagTextFound(st, s);
    TagReads(st, tag, rest);
    NoSpace(s);
    assert ReadMarkup(st, s) == ReadOpen(st, s);
  }

  lemma OpenParts(st: State, s: string) returns (node: Node, name: string, tail: string)
    requires ReadOpen(st, s).Go?
    ensures s == name + tail && AllOf(name, NameChar) && name == s[..|name|] && tail == s[|name|..]
    ensures st.open != [] && tail != "" && tail[0] != '<' && !NameChar(tail[0]) && SkipSpace(tail) != ""
    ensures ReadAttributes(node, SkipSpace(tail), Decoding(name)).Read?
  {
    hide Decoding, SkipSpace, ReadAttributes, ReadTail;
    var k := Span(s, NameChar);
    name, tail := s[..k], s[k..];
    node := Node(Cut(Decoding(name), NAME_LENGTH), Element, None, [], []);
    assert tail != "" ==> tail[0] == s[k];
  }

  lemma TagTextFound(st: State, s: string) returns (tag: Tag, rest: string)
    requires s != "" && !IsSpace(s[0]) && ReadOpen(st, s).Go?
    requires !("!--" <= s) && s[0] != '?' && !("!DOCTYPE" <= s) && s[0] != '/'
    ensures WfTag(tag) && tag.lead == "" && s == SpelledTag(tag, rest) && rest != "" && EndsTag(rest[0])
    ensures st.open != [] && (tag.name == "" ==> rest[0] == '>')
  {
    hide Decoding, SkipSpace, ReadAttributes, ReadOpen, WrittenText, WfWritten;
    var node, name, tail := OpenParts(st, s);
    var attributes, space := WrittenFound(node, tail, Decoding(name));
    rest := ReadAttributes(node, SkipSpace(tail), Decoding(name)).text;
    tag := Tag("", name, attributes, space);
    NamePrefix(s, |name|, "!--");
    NamePrefix(s, |name|, "!DOCTYPE");
    NamePrefix(s, |name|, "?");
    assert attributes != [] ==> attributes[0].before != "";
    if name == "" {
      NothingWritten(attributes, space, rest, tail);
    }
  }

  lemma NamePrefix(s: string, k: nat, pattern: string)
    requires k <= |s| && !(pattern <= s)
    ensures !(pattern <= s[..k])
  {
    assert |pattern| <= k ==> s[..k][..|pattern|] == s[..|pattern|];
  }

  lemma WrittenStarts(attributes: seq<Written>, rest: string)
    requires forall a <- attributes :: WfWritten(a)
    requires attributes != [] ==> attributes[0].before != ""
    ensures var s := WrittenText(attributes, rest);
            if attributes == [] then s == rest else s != "" && IsSpace(s[0])
  {
    if attributes != [] {
      assert WfWritten(attributes[0]) && WrittenText(attributes, rest)[0] == attributes[0].before[0];
    }
  }

  lemma SpaceStarts(space: string, rest: string)
    requires AllSpace(space)
    ensures if space == "" then space + rest == rest else space + rest != "" && IsSpace((space + rest)[0])
  {
  }

  /** A bracket right behind that of a tag leaves no room for attributes or space. */
  lemma NothingWritten(attributes: seq<Written>, space: string, rest: string, s: string)
    requires s != "" && s[0] == '>' && s == WrittenText(attributes, space + rest) && AllSpace(space)
    requires forall a <- attributes :: WfWritten(a)
    requires attributes != [] ==> attributes[0].before != ""
    ensures attributes == [] && space == "" && rest == s
  {
    hide WrittenText, WfWritten;
    WrittenStarts(attributes, space + rest);
    SpaceStarts(space, rest);
  }

  lemma RestFound(st: State, node: Node, s: string, k: nat) returns (behind: string)
    requires k <= |s| && '<' !in s[..k] && ReadText(st, node, s, k).Go?
    ensures s == behind + ReadText(st, node, s, k).rest && '<' !in behind && "<" <= ReadText(st, node, s, k).rest
  {
    hide Decoding, State.Enter;
    var tail := s[k..];
    var j := Span(tail, Outside);
    behind := s[..k] + tail[..j];
    Resliced(s, k, j);
  }

  lemma Resliced(s: string, k: nat, j: nat)
    requires k <= |s| && j <= |s[k..]|
    ensures s == (s[..k] + s[k..][..j]) + s[k + j..] && s[k + j..] == s[k..][j..]
  {
  }

  lemma ContentFound(st: State, node: Node, s: string) returns (behind: string)
    requires ReadContent(st, node, s).Go?
    ensures s == behind + ReadContent(st, node, s).rest && '<' !in behind && "<" <= ReadContent(st, node, s).rest
  {
    hide ReadText, State.Enter;
    var k := Span(s, IsSpace);
    assert forall i :: 0 <= i < k ==> IsSpace(s[..k][i]);
    if s[k] == '<' && !("/" <= s[k + 1..]) {
      behind := s[..k];
    } else {
      behind := RestFound(st, node, s, k);
    }
  }

  /** Either the end of an empty element, or that of a start tag with the text behind it. */
  datatype Ending = EmptyEnd(space: string) | OpenEnd(slash: Option<string>, behind: string)

  predicate WfEnding(end: Ending, left: string) {
    match end
    case EmptyEnd(space) => AllSpace(space) && !(">" <= left)
    case OpenEnd(slash, behind) => (slash.Some? ==> AllSpace(slash.value)) && '<' !in behind && "<" <= left
  }

  function EndingText(end: Ending, left: string): string {
    match end
    case EmptyEnd(space) => "/" + (space + (">" + left))
    case OpenEnd(slash, behind) => EndText(slash, behind + left)
  }

  lemma TailFound(st: State, node: Node, s: string) returns (end: Ending)
    requires st.open != [] && s != "" && EndsTag(s[0]) && ReadTail(st, node, s).Go?
    ensures var left := ReadTail(st, node, s).rest; WfEnding(end, left) && s == EndingText(end, left)
    ensures s[0] == '>' ==> end.OpenEnd? && end.slash == None
  {
    hide ReadContent, SkipSpace, State.Add;
    var left := ReadTail(st, node, s).rest;
    if s[0] == '>' {
      var behind := ContentFound(st, node, s[1..]);
      end := OpenEnd(None, behind);
      assert s == ">" + s[1..];
    } else {
      var space, s1 := SplitSpace(s[1..]);
      assert s == "/" + s[1..] && s1 == ">" + s1[1..];
      if ">" <= s1[1..] {
        var behind := ContentFound(st, node, s1[2..]);
        end := OpenEnd(Some(space), behind);
        assert s1[1..] == ">" + s1[2..];
      } else {
        end := EmptyEnd(space);
      }
    }
  }

  lemma {:induction false} SeekIsFirst(s: string, pattern: string)
    ensures forall k :: 0 <= k < Seek(s, pattern) ==> !(pattern <= s[k..])
    decreases |s|
  {
    if s != "" && !(pattern <= s) {
      SeekIsFirst(s[1..], pattern);
      forall k | 0 <= k < Seek(s, pattern)
        ensures !(pattern <= s[k..])
      {
        if k == 0 {
          assert s[0..] == s;
        } else {
          assert s[1..][k - 1..] == s[k..];
        }
      }
    }
  }

  /** What stands in front of the first occurrence of a pattern. */
  lemma FrontFound(s: string, pattern: string) returns (text: string, rest: string)
    requires pattern <= s[Seek(s, pattern)..]
    ensures s == text + (pattern + rest) && NoneEarlier(text, pattern)
    ensures text == s[..Seek(s, pattern)] && rest == s[Seek(s, pattern) + |pattern|..]
  {
    var end := Seek(s, pattern);
    text, rest := s[..end], s[end + |pattern|..];
    assert s[end..] == pattern + rest;
    SeekIsFirst(s, pattern);
    forall k | 0 <= k < |text|
      ensures !(pattern <= (text + pattern)[k..])
    {
      assert (text + pattern)[k..] == s[k..][..|text| - k + |pattern|];
      assert !(pattern <= s[k..]);
    }
  }

  lemma CommentBodyFound(st: State, body: string) returns (blanks: string, text: string)
    requires st.open != [] && ReadCommentBody(st, body).Go?
    ensures AllOf(blanks, Blank) && (text == "" || text[0] != ' ') && NoneEarlier(blanks + text, "-->")
    ensures body == blanks + (text + ("-->" + ReadCommentBody(st, body).rest))
  {
    hide Decoding, State.Add, Seek, NoneEarlier, Span;
    var front, rest := FrontFound(body, "-->");
    BlanksBefore(body, "-->");
    var k := Span(body, Blank);
    blanks, text := front[..k], front[k..];
    Halved(front, k);
    SplitTwice(body, front, k, "-->" + rest);
    assert k < |front| ==> front[k] == body[k];
  }

  lemma CommentFound(st: State, s: string) returns (m: Mark)
    requires "!--" <= s && ReadComment(st, s).Go?
    ensures m.CommentMark? && WfMark(m) && m.lead == "" && s == MarkBody(m, ReadComment(st, s).rest)
  {
    hide ReadCommentBody, NoneEarlier;
    var blanks, text := CommentBodyFound(st, s[3..]);
    m := CommentMark("", blanks, text);
    assert s == "!--" + s[3..];
  }

  lemma InstructionFound(st: State, s: string) returns (m: Mark)
    requires s != "" && s[0] == '?' && ReadInstruction(st, s).Go?
    ensures m.InstructionMark? && WfMark(m) && m.lead == "" && s == MarkBody(m, ReadInstruction(st, s).rest)
  {
    hide Decoding, State.Add, Seek, NoneEarlier;
    var text, rest := FrontFound(s[1..], "?>");
    m := InstructionMark("", text);
    assert s == "?" + s[1..];
  }

  lemma {:induction false} DoctypeFront(s: string, depth: nat)
    requires SeekDoctype(s, depth) < |s|
    ensures Matching(s[..SeekDoctype(s, depth)], depth) && s[SeekDoctype(s, depth)] == '>'
    decreases |s|
  {
    var k := SeekDoctype(s, depth);
    if k > 0 {
      assert s[..k][1..] == s[1..][..k - 1] && s[..k][0] == s[0];
      DoctypeFront(s[1..], if s[0] == '<' then depth + 1 else if s[0] == '>' then depth - 1 else depth);
    }
  }

  lemma DoctypeText(s: string, end: nat)
    requires "!DOCTYPE" <= s && end < |s| - 8 && s[8..][end] == '>'
    ensures var body := s[8..]; s == "!DOCTYPE" + (body[..end] + (">" + body[end + 1..]))
  {
    var body := s[8..];
    assert s == "!DOCTYPE" + body;
    assert body == body[..end] + (">" + body[end + 1..]);
  }

  lemma DoctypeFound(st: State, s: string) returns (m: Mark)
    requires st.Valid() && "!DOCTYPE" <= s && ReadDoctype(st, s).Go?
    ensures m.DoctypeMark? && WfMark(m) && m.lead == "" && s == MarkBody(m, ReadDoctype(st, s).rest)
  {
    hide Seek, SeekDoctype, Matching;
    var body := s[8..];
    var end := SeekDoctype(body, 0);
    DoctypeFront(body, 0);
    m := DoctypeMark("", body[..end]);
    DoctypeText(s, end);
  }

  lemma SlashText(space: string, s: string, k: nat)
    requires k <= |s|
    ensures "/" + (space + s) == "/" + (space + (s[..k] + s[k..]))
  {
    assert s == s[..k] + s[k..];
  }

  lemma CloseFound(st: State, s: string) returns (m: Mark)
    requires ReadClose(st, s).Go?
    ensures m.CloseMark? && WfMark(m) && m.lead == "" && "/" + s == MarkBody(m, ReadClose(st, s).rest)
    ensures var left := ReadClose(st, s).rest;
            left != "" && !NameChar(left[0]) && left[0] != '<' && (m.name == "" ==> !IsSpace(left[0]))
  {
    hide Decoding, SkipSpace, State.Leave;
    var space, s1 := SplitSpace(s);
    var k := Span(s1, NameChar);
    m := CloseMark("", space, s1[..k]);
    SlashText(space, s1, k);
    assert s1[k..][0] == s1[k];
  }

  /** A tag that was read, with its end and, for a start tag, the text behind it. */
  lemma ElementFound(st: State, s: string) returns (m: Mark, gap: string)
    requires st.Valid() && s != "" && !IsSpace(s[0]) && ReadOpen(st, s).Go?
    requires !("!--" <= s) && s[0] != '?' && !("!DOCTYPE" <= s) && s[0] != '/'
    ensures m.OpenMark? || m.EmptyMark?
    ensures WfMark(m) && MarkLead(m) == "" && '<' !in gap
    ensures var left := ReadOpen(st, s).rest;
            && s == MarkBody(m, gap + left)
            && (if m.OpenMark? then "<" <= left else gap == "" && !(">" <= left))
  {
    hide ReadOpen, ReadTail, SpelledTag, WfTag, ElementOf;
    var tag, rest := TagFound(st, s);
    var end := TailFound(st, ElementOf(tag), rest);
    var left := ReadOpen(st, s).rest;
    match end
    case EmptyEnd(space) =>
      m, gap := EmptyMark(tag, space), "";
      assert gap + left == left;
    case OpenEnd(slash, behind) =>
      m, gap := OpenMark(tag, slash), behind;
  }

  /** What may follow a mark. */
  predicate Followed(m: Mark, gap: string, left: string) {
    && '<' !in gap
    && (if m.OpenMark? then "<" <= left else gap == "")
    && (m.EmptyMark? ==> !(">" <= left))
    && (m.CloseMark? ==>
          left != "" && !NameChar(left[0]) && left[0] != '<' && (m.name == "" ==> !IsSpace(left[0])))
  }

  function WithLead(m: Mark, lead: string): Mark {
    if m.OpenMark? || m.EmptyMark? then m.(tag := m.tag.(lead := lead)) else m.(lead := lead)
  }

  lemma LeadSet(m: Mark, lead: string, gap: string, left: string)
    requires WfMark(m) && AllSpace(lead) && Followed(m, gap, left)
    ensures var m' := WithLead(m, lead);
            WfMark(m') && Followed(m', gap, left) && MarkLead(m') == lead && m'.OpenMark? == m.OpenMark?
    ensures forall rest :: MarkBody(WithLead(m, lead), rest) == MarkBody(m, rest)
  {
    hide WrittenText, NoneEarlier, Matching;
    if m.OpenMark? || m.EmptyMark? {
      forall rest
        ensures SpelledTag(m.tag.(lead := lead), rest) == SpelledTag(m.tag, rest)
      {
      }
    }
  }

  lemma MarkFound(st: State, s: string) returns (m: Mark, gap: string)
    requires st.Valid() && ReadMarkup(st, s).Go?
    ensures WfMark(m) && Followed(m, gap, ReadMarkup(st, s).rest)
    ensures s == MarkLead(m) + MarkBody(m, gap + ReadMarkup(st, s).rest)
  {
    hide ReadComment, ReadInstruction, ReadDoctype, ReadClose, ReadOpen, WfMark, MarkBody, SkipSpace;
    var lead, s1 := SplitSpace(s);
    var left := ReadMarkup(st, s).rest;
    gap := "";
    assert "" + left == left;
    if "!--" <= s1 {
      m := CommentFound(st, s1);
    } else if s1[0] == '?' {
      m := InstructionFound(st, s1);
    } else if "!DOCTYPE" <= s1 {
      m := DoctypeFound(st, s1);
    } else if s1[0] == '/' {
      m := CloseFound(st, s1[1..]);
      assert s1 == "/" + s1[1..];
    } else {
      m, gap := ElementFound(st, s1);
    }
    LeadSet(m, lead, gap, left);
    m := WithLead(m, lead);
  }

  lemma MarkupRead(st: State, s: string)
    requires st.Valid() && Resume(st, "<" + s).Tree?
    ensures var step := ReadMarkup(st, s);
            step.Go? && step.state.Valid() && |step.rest| <= |s| && Resume(step.state, step.rest).Tree?
  {
    hide ReadMarkup, Resume, Parse;
    ResumeAtTag(st, s);
  }

  lemma NextMark(s: string) returns (between: string, left: string)
    ensures s == between + left && '<' !in between && (left == "" || "<" <= left)
  {
    var k := Span(s, Outside);
    between, left := s[..k], s[k..];
    assert left != "" ==> left[0] == s[k];
  }

  /** A text from which the parser makes a tree is spelled. */
  lemma {:induction false} PiecesFound(st: State, s: string) returns (pieces: seq<Piece>)
    requires st.Valid() && (s == "" || "<" <= s) && Resume(st, s).Tree?
    ensures WfPieces(pieces) && s == Spelled(pieces)
    decreases |s|
  {
    hide ReadMarkup, WfMark, MarkBody, Resume, Parse;
    if s == "" {
      return [];
    }
    assert s == "<" + s[1..];
    MarkupRead(st, s[1..]);
    var m, gap := MarkFound(st, s[1..]);
    var step := ReadMarkup(st, s[1..]);
    var between, left := NextMark(step.rest);
    ResumeSkips(step.state, between, left);
    var others := PiecesFound(step.state, left);
    var p := Piece(m, gap + between);
    pieces := [p] + others;
    assert pieces[1..] == others;
    assert gap + step.rest == p.behind + left;
    BehindFine(m, gap, between, left);
  }

  lemma BehindFine(m: Mark, gap: string, between: string, left: string)
    requires WfMark(m) && Followed(m, gap, between + left) && '<' !in between && (left == "" || "<" <= left)
    ensures WfPiece(Piece(m, gap + between)) && (m.OpenMark? ==> left != "")
  {
    hide WfMark;
    var all := between + left;
    assert gap == "" ==> gap + between == between;
    assert between != "" ==> all[0] == between[0];
    assert between == "" ==> all == left;
  }

  // ----- End tags match -----

  /** The names of the open elements after a mark, if it may stand there: an end tag names the innermost one. */
  function NamesAfter(names: seq<string>, m: Mark): Option<seq<string>> {
    match m
    case DoctypeMark(_, _) => Some(names)
    case CloseMark(_, _, name) =>
      if names != [] && names[|names| - 1] == Decoding(name) then Some(names[..|names| - 1]) else None
    case OpenMark(tag, _) =>
      if names == [] then None else Some(names + [Cut(Decoding(tag.name), NAME_LENGTH)])
    case _ => if names == [] then None else Some(names)
  }

  predicate Matched(names: seq<string>, pieces: seq<Piece>)
    decreases |pieces|
  {
    pieces != [] ==>
      var after := NamesAfter(names, pieces[0].mark);
      after.Some? && Matched(after.value, pieces[1..])
  }

  function Names(open: seq<Node>): seq<string> {
    seq(|open|, i requires 0 <= i < |open| => open[i].name)
  }

  lemma ActNames(st: State, p: Piece, closes: bool)
    ensures Act(st, p, closes).Some? <==> NamesAfter(Names(st.open), p.mark).Some?
    ensures Act(st, p, closes).Some? ==>
      Names(Act(st, p, closes).value.open) == NamesAfter(Names(st.open), p.mark).value
  {
    hide Decoding, ValueOf, AttributesOf;
    assert st.open != [] ==> Names(st.open) != [] && Names(st.open)[|st.open| - 1] == st.Innermost().name;
    if p.mark.CloseMark? && Act(st, p, closes).Some? {
      LeaveNames(st);
    } else if Act(st, p, closes).Some? && (p.mark.EmptyMark? || p.mark.CommentMark? || p.mark.InstructionMark?) {
      var node := if p.mark.EmptyMark? then ElementOf(p.mark.tag)
                  else if p.mark.CommentMark? then CommentNode(Decoding(p.mark.text))
                  else InstructionNode(Decoding(p.mark.text));
      AddNames(st, node);
    }
  }

  lemma AddNames(st: State, n: Node)
    requires st.open != []
    ensures Names(st.Add(n).open) == Names(st.open)
  {
  }

  lemma LeaveNames(st: State)
    requires st.open != []
    ensures Names(st.Leave().open) == Names(st.open)[..|st.open| - 1]
  {
  }

  lemma {:induction false} RunIffMatched(st: State, pieces: seq<Piece>)
    ensures Run(st, pieces).Some? <==> Matched(Names(st.open), pieces)
    decreases |pieces|
  {
    hide Act, NamesAfter, Closes;
    if pieces != [] {
      var act := Act(st, pieces[0], Closes(pieces[1..]));
      ActNames(st, pieces[0], Closes(pieces[1..]));
      if act.Some? {
        RunIffMatched(act.value, pieces[1..]);
      }
    }
  }

  // ----- The texts that are taken -----

  /** A text is these pieces behind some text that is passed over. */
  predicate SpelledBy(s: string, front: string, pieces: seq<Piece>) {
    '<' !in front && WfPieces(pieces) && s == front + Spelled(pieces)
  }

  lemma ParseSkips(front: string, s: string)
    requires '<' !in front && (s == "" || "<" <= s)
    ensures Parse(Start(), front + s) == Resume(Start(), s)
  {
    hide ReadMarkup, State.Root, Span;
    var text := front + s;
    if front == "" {
      assert text == s;
      if s != "" {
        ParseIsResume(Start(), s);
      }
    } else {
      assert text[0] == front[0];
      ResumeSkips(Start(), front, s);
    }
  }

  lemma StartNames()
    ensures Names(Start().open) == ["root"]
  {
  }

  /** A spelled text is read as its pieces say, and is taken exactly when its end tags match. */
  lemma SpelledTextRead(s: string, front: string, pieces: seq<Piece>)
    requires SpelledBy(s, front, pieces)
    ensures Parse(Start(), s).Tree? <==> Matched(["root"], pieces)
    ensures Matched(["root"], pieces) ==>
      var end := Run(Start(), pieces);
      end.Some? && end.value.Valid() && Parse(Start(), s) == Tree(end.value.Root())
  {
    hide Parse, Resume, Run, Matched, WfPieces, State.Root, Spelled;
    SpelledStarts(pieces);
    ParseSkips(front, Spelled(pieces));
    SpelledReads(Start(), pieces);
    StartNames();
    RunIffMatched(Start(), pieces);
  }

  /** The parser makes a tree of a text if and only if it is spelled by pieces whose end tags match. */
  lemma TakenIff(s: string)
    ensures Parse(Start(), s).Tree? <==>
            exists front: string, pieces: seq<Piece> :: SpelledBy(s, front, pieces) && Matched(["root"], pieces)
  {
    hide Parse, Resume, Run, Matched, WfPieces, State.Root, Spelled, Span;
    if Parse(Start(), s).Tree? {
      var k := Span(s, Outside);
      var front, rest := s[..k], s[k..];
      assert s == front + rest && '<' !in front;
      ParseSkips(front, rest);
      var pieces := PiecesFound(Start(), rest);
      assert SpelledBy(s, front, pieces);
      SpelledTextRead(s, front, pieces);
    }
    if front: string, pieces: seq<Piece> :| SpelledBy(s, front, pieces) && Matched(["root"], pieces) {
      SpelledTextRead(s, front, pieces);
    }
  }

  /** An end tag with another name than the innermost open element makes the whole text an error. */
  lemma WrongEndFails(s: string, front: string, before: seq<Piece>, end: Piece, behind: seq<Piece>, names: seq<string>)
    requires SpelledBy(s, front, before + [end] + behind) && end.mark.CloseMark?
    requires NamesAfterAll(["root"], before) == Some(names)
    requires names == [] || names[|names| - 1] != Decoding(end.mark.name)
    ensures Parse(Start(), s).Failure?
  {
    hide Parse, WfPieces, Spelled, Decoding;
    NotMatched(["root"], before, end, behind);
    SpelledTextRead(s, front, before + [end] + behind);
  }

  /** An element with nothing in it, between tags of the same spelling. */
  function OwnTags(name: string): seq<Piece> {
    [Piece(OpenMark(Tag("", name, [], ""), None), ""), Piece(CloseMark("", "", name), ">")]
  }

  /** Node names are cut to 63 characters and end tags are not, so that a longer name does not even close itself. */
  lemma OwnNameClosesIff(name: string)
    requires name != "" && AllOf(name, NameChar) && name[0] != '!' && name[0] != '?'
    ensures Parse(Start(), Spelled(OwnTags(name))).Tree? <==> |Decoding(name)| < NAME_LENGTH
  {
    hide Parse, Decoding, Spelled;
    var pieces := OwnTags(name);
    assert pieces[1..] == [pieces[1]] && pieces[1..][1..] == [];
    assert !("!--" <= name) && !("!DOCTYPE" <= name) && !("?" <= name) by {
      assert "!--"[0] == '!' && "!DOCTYPE"[0] == '!' && "?"[0] == '?';
    }
    assert WfPiece(pieces[0]) && WfPiece(pieces[1]);
    assert WfPieces(pieces[1..][1..]) && WfPieces(pieces[1..]);
    assert "" + Spelled(pieces) == Spelled(pieces);
    SpelledTextRead(Spelled(pieces), "", pieces);
    var names := ["root"] + [Cut(Decoding(name), NAME_LENGTH)];
    assert Matched(["root"], pieces) <==> Matched(names, pieces[1..]);
    assert names[..1] == ["root"];
    assert Matched(names, pieces[1..]) <==> Cut(Decoding(name), NAME_LENGTH) == Decoding(name);
  }

  function NamesAfterAll(names: seq<string>, pieces: seq<Piece>): Option<seq<string>>
    decreases |pieces|
  {
    if pieces == [] then Some(names)
    else
      match NamesAfter(names, pieces[0].mark)
      case None => None
      case Some(after) => NamesAfterAll(after, pieces[1..])
  }

  lemma {:induction false} NotMatched(names: seq<string>, before: seq<Piece>, end: Piece, behind: seq<Piece>)
    requires NamesAfterAll(names, before).Some?
    requires NamesAfter(NamesAfterAll(names, before).value, end.mark) == None
    ensures !Matched(names, before + [end] + behind)
    decreases |before|
  {
    hide NamesAfter;
    var all := before + [end] + behind;
    if before != [] {
      assert all[0] == before[0] && all[1..] == before[1..] + [end] + behind;
      NotMatched(NamesAfter(names, before[0].mark).value, before[1..], end, behind);
    }
  }

  // ----- Nested elements -----

  /** A mark without inner ones, or an element with what stands between its tags. */
  datatype Part = Single(piece: Piece) | Whole(start: Piece, parts: seq<Part>, end: Piece)

  function PiecesOf(part: Part): seq<Piece>
    decreases part, 1
  {
    match part
    case Single(p) => [p]
    case Whole(start, parts, end) => [start] + (PiecesOfAll(parts) + [end])
  }

  function PiecesOfAll(parts: seq<Part>): seq<Piece>
    decreases parts, 0
  {
    if parts == [] then [] else PiecesOf(parts[0]) + PiecesOfAll(parts[1..])
  }

  /** The end tag of an element has its name, as far as that is kept. */
  predicate WfPart(part: Part)
    decreases part
  {
    match part
    case Single(p) => !p.mark.OpenMark? && !p.mark.CloseMark?
    case Whole(start, parts, end) =>
      && start.mark.OpenMark? && end.mark.CloseMark?
      && Decoding(end.mark.name) == Cut(Decoding(start.mark.tag.name), NAME_LENGTH)
      && forall c <- parts :: WfPart(c)
  }

  /** The nodes that a part stands for: none for a document type, and else one. */
  function NodesOf(part: Part): seq<Node>
    decreases part, 1
  {
    match part
    case Single(p) =>
      (match p.mark
       case CommentMark(_, _, text) => [CommentNode(Decoding(text))]
       case InstructionMark(_, text) => [InstructionNode(Decoding(text))]
       case EmptyMark(tag, _) => [ElementOf(tag)]
       case _ => [])
    case Whole(start, parts, end) =>
      if start.mark.OpenMark? then
        var closes := parts == [] && Closes([end]);
        [ElementOf(start.mark.tag).(value := ValueOf(start.behind, closes), children := NodesOfAll(parts))]
      else []
  }

  function NodesOfAll(parts: seq<Part>): seq<Node>
    decreases parts, 0
  {
    if parts == [] then [] else NodesOf(parts[0]) + NodesOfAll(parts[1..])
  }

  lemma {:induction false} AddAllAppend(st: State, a: seq<Node>, b: seq<Node>)
    requires st.open != []
    ensures AddAll(st, a + b) == AddAll(AddAll(st, a), b)
    decreases |a|
  {
    hide State.Add;
    if a == [] {
      assert a + b == b;
    } else {
      assert (a + b)[1..] == a[1..] + b;
      AddAllAppend(st.Add(a[0]), a[1..], b);
    }
  }

  lemma RunFirst(st: State, p: Piece, more: seq<Piece>)
    ensures Run(st, [p] + more) ==
            match Act(st, p, Closes(more))
            case None => None
            case Some(st') => Run(st', more)
  {
    assert ([p] + more)[1..] == more;
  }

  /** No part begins with an end tag. */
  lemma FirstNotClose(part: Part, more: seq<Piece>)
    requires WfPart(part)
    ensures !Closes(PiecesOf(part) + more)
  {
  }

  /** A part adds its nodes to the innermost open element. */
  lemma {:induction false} PartRuns(st: State, part: Part, more: seq<Piece>)
    requires st.open != [] && WfPart(part)
    ensures Run(st, PiecesOf(part) + more) == Run(AddAll(st, NodesOf(part)), more)
    decreases part, 1
  {
    hide Decoding, State.Add, ElementOf, ValueOf;
    match part
    case Single(p) =>
      RunFirst(st, p, more);
      if NodesOf(part) != [] {
        assert NodesOf(part)[1..] == [];
      }
    case Whole(start, parts, end) =>
      WholeRuns(st, start, parts, end, more);
  }

  lemma {:induction false} WholeRuns(st: State, start: Piece, parts: seq<Part>, end: Piece, more: seq<Piece>)
    requires st.open != [] && WfPart(Whole(start, parts, end))
    ensures Run(st, PiecesOf(Whole(start, parts, end)) + more) ==
            Run(AddAll(st, NodesOf(Whole(start, parts, end))), more)
    decreases parts, 1
  {
    hide Decoding, State.Add, ValueOf, State.Leave, Run, AddAll, NodesOfAll, AttributesOf;
    var inner, last := PiecesOfAll(parts), [end] + more;
    assert PiecesOf(Whole(start, parts, end)) + more == [start] + (inner + last);
    ClosesInside(parts, end, more);
    RunFirst(st, start, inner + last);
    var closes := parts == [] && Closes([end]);
    var node := ElementOf(start.mark.tag).(value := ValueOf(start.behind, closes));
    var children := NodesOfAll(parts);
    PartsRun(st.Enter(node), parts, last);
    AddAllToInnermost(st, node, children);
    var full := node.(children := children);
    assert [] + children == children;
    RunFirst(st.Enter(full), end, more);
    assert st.Enter(full).Innermost() == full;
    EnterThenLeave(st, full);
    AddOne(st, full);
  }

  lemma AddOne(st: State, n: Node)
    requires st.open != []
    ensures AddAll(st, [n]) == st.Add(n)
  {
    assert [n][1..] == [];
  }

  lemma ClosesInside(parts: seq<Part>, end: Piece, more: seq<Piece>)
    requires forall c <- parts :: WfPart(c)
    ensures Closes(PiecesOfAll(parts) + ([end] + more)) <==> parts == [] && Closes([end])
  {
    hide PiecesOf, WfPart;
    var last := [end] + more;
    if parts == [] {
      assert PiecesOfAll(parts) + last == last;
    } else {
      FirstNotClose(parts[0], PiecesOfAll(parts[1..]) + last);
      assert PiecesOfAll(parts) + last == PiecesOf(parts[0]) + (PiecesOfAll(parts[1..]) + last);
    }
  }

  lemma {:induction false} PartsRun(st: State, parts: seq<Part>, more: seq<Piece>)
    requires st.open != [] && forall c <- parts :: WfPart(c)
    ensures Run(st, PiecesOfAll(parts) + more) == Run(AddAll(st, NodesOfAll(parts)), more)
    decreases parts, 0
  {
    hide PiecesOf, NodesOf, WfPart, Run, AddAll;
    if parts == [] {
      assert PiecesOfAll(parts) + more == more;
      AddNothing(st);
    } else {
      assert PiecesOfAll(parts) + more == PiecesOf(parts[0]) + (PiecesOfAll(parts[1..]) + more);
      PartRuns(st, parts[0], PiecesOfAll(parts[1..]) + more);
      AddAllAppend(st, NodesOf(parts[0]), NodesOfAll(parts[1..]));
      PartsRun(AddAll(st, NodesOf(parts[0])), parts[1..], more);
    }
  }

  lemma AddNothing(st: State)
    requires st.open != []
    ensures AddAll(st, []) == st
  {
  }

  /**
    Nested elements in any spelling, with comments, instructions and document types between their tags, are read as the
    tree they are.
  */
  lemma NestedRead(s: string, front: string, parts: seq<Part>)
    requires SpelledBy(s, front, PiecesOfAll(parts)) && forall c <- parts :: WfPart(c)
    ensures Parse(Start(), s) == Tree(RootNode().(children := NodesOfAll(parts)))
  {
    hide Parse, PiecesOfAll, NodesOfAll, WfPart, WfPieces, Spelled, State.Root, Matched, AddAll;
    var pieces, nodes := PiecesOfAll(parts), NodesOfAll(parts);
    var none := State([], None);
    assert Start() == none.Enter(RootNode());
    PartsRun(Start(), parts, []);
    assert pieces + [] == pieces;
    AddAllToInnermost(none, RootNode(), nodes);
    assert [] + nodes == nodes;
    StartNames();
    RunIffMatched(Start(), pieces);
    SpelledTextRead(s, front, pieces);
    RootOf(RootNode().(children := nodes));
  }

  lemma RootOf(root: Node)
    ensures State([], None).Enter(root).Root() == root
  {
    var st := State([], None).Enter(root);
    assert st.open == [root] && st.Leave() == State([], Some(root));
    assert st.Leave().Root() == root;
  }
}
