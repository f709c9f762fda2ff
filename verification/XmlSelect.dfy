/**
  What the well-formed paths of mxml/mxml.c select: names, ranks and attribute conditions.
*/
module XmlSelect {
  import opened Options
  import opened XmlText
  import opened XmlTree
  import opened XmlParser
  import opened XmlPath

  // How many conditions of one step the source has room for.
  const MAX_CONDITION: nat := 10

  // The spaces that may stand inside the brackets of an attribute condition, and the quotes around its value.
  datatype Spacing = Spacing(front: string, behindName: string, beforeValue: string, quote: string, behind: string)

  datatype Filter = Rank(digits: string) | HasAttribute(name: string, value: string, spacing: Spacing)

  datatype Step = Step(name: string, filters: seq<Filter>)

  function FilterText(f: Filter): string {
    match f
    case Rank(digits) => "[" + (digits + "]")
    case HasAttribute(name, value, s) => "[" + (s.front + (AttributeText(name, value, s) + "]"))
  }

  /** What stands in the brackets, behind the first spaces. */
  function AttributeText(name: string, value: string, s: Spacing): string {
    ("@" + (name + s.behindName)) + ("=" + (s.beforeValue + ValueText(value, s)))
  }

  function ValueText(value: string, s: Spacing): string {
    s.quote + (value + (s.quote + s.behind))
  }

  function FiltersText(filters: seq<Filter>): string {
    if filters == [] then "" else FilterText(filters[0]) + FiltersText(filters[1..])
  }

  function PathText(steps: seq<Step>): string {
    if steps == [] then ""
    else steps[0].name + (FiltersText(steps[0].filters) + if |steps| == 1 then "" else "/" + PathText(steps[1..]))
  }

  function ConditionOf(f: Filter): seq<Condition> {
    if f.HasAttribute? then [Condition(true, f.name, f.value)] else []
  }

  function ConditionsOf(filters: seq<Filter>): seq<Condition> {
    if filters == [] then [] else ConditionOf(filters[0]) + ConditionsOf(filters[1..])
  }

  // A larger rank does not fit the source's integer.
  const MAX_RANK: nat := 0x7fff_ffff

  predicate EndsPlain(s: string) { s == "" || !IsSpace(s[|s| - 1]) }

  /** A value without quotes is read from its first character that is no space to its last. */
  predicate PlainValue(value: string) {
    value != "" ==> !IsSpace(value[0]) && EndsPlain(value) && value[0] != '"' && value[0] != '\''
  }

  predicate WellSpaced(s: Spacing) {
    && AllSpace(s.front) && AllSpace(s.behindName) && AllSpace(s.beforeValue) && AllSpace(s.behind)
    && (s.quote == "" || s.quote == "\"" || s.quote == "'")
  }

  predicate WellFormedFilter(f: Filter) {
    match f
    case Rank(digits) =>
      digits != "" && (forall i :: 0 <= i < |digits| ==> IsDigit(digits[i])) && Number(digits, 0) <= MAX_RANK
    case HasAttribute(name, value, s) =>
      && WellSpaced(s) && |AttributeText(name, value, s)| < FIELD_SIZE - 1
      && '=' !in name && ']' !in name && EndsPlain(name)
      && ']' !in value && (s.quote == "" ==> PlainValue(value))
  }

  /** Every filter, also a rank, prepares a place in the table of conditions behind those before it. */
  predicate TableSuffices(filters: seq<Filter>) {
    filters != [] ==> |ConditionsOf(filters[..|filters| - 1])| < MAX_CONDITION
  }

  predicate WellFormed(step: Step) {
    && 0 < |step.name| < FIELD_SIZE && (forall i :: 0 <= i < |step.name| ==> StepChar(step.name[i]))
    && TableSuffices(step.filters) && forall f <- step.filters :: WellFormedFilter(f)
  }

  /** A child has the name of the step and every attribute that its filters ask for. */
  predicate Meets(c: Node, step: Step) {
    c.name == step.name && forall f <- step.filters :: f.HasAttribute? ==> AttributeOf(c, f.name) == Some(f.value)
  }

  /** The rank in the last rank filter, 0 without one. */
  function Wanted(filters: seq<Filter>): nat {
    if filters == [] then 0
    else
      match filters[|filters| - 1]
      case Rank(digits) => Number(digits, 0)
      case HasAttribute(_, _, _) => Wanted(filters[..|filters| - 1])
  }

  /** The child at an index meets the step, and as many children up to it as the rank says. */
  ghost predicate Chosen(ts: seq<Node>, i: nat, step: Step)
    requires i < |ts|
  {
    && Meets(ts[i], step)
    && (Wanted(step.filters) == 0 || |set j: nat | j <= i && Meets(ts[j], step)| == Wanted(step.filters))
  }

  /** An address follows the steps. */
  ghost predicate Selected(tree: Node, steps: seq<Step>, at: Address) {
    && |at| == |steps|
    && (steps != [] ==>
          && at[0] < |tree.children| && Chosen(tree.children, at[0], steps[0])
          && Selected(tree.children[at[0]], steps[1..], at[1..]))
  }

  /** Document order of addresses of the same length. */
  predicate Before(a: Address, b: Address)
    requires |a| == |b|
  {
    a != [] && (a[0] < b[0] || (a[0] == b[0] && Before(a[1..], b[1..])))
  }

  function Apply(q: Query, filters: seq<Filter>): Query
    decreases |filters|
  {
    if filters == [] then q
    else
      match filters[0]
      case Rank(digits) => Apply(q.(rank := Number(digits, 0)), filters[1..])
      case HasAttribute(name, value, _) => Apply(q.With(Condition(true, name, value)), filters[1..])
  }

  function QueryOf(step: Step): Query { Apply(Query(step.name, 0, []), step.filters) }

  // Reading the text of a step

  lemma {:induction false} NumberStops(digits: string, before: nat, rest: string)
    requires (forall i :: 0 <= i < |digits| ==> IsDigit(digits[i])) && (rest == "" || !IsDigit(rest[0]))
    ensures Number(digits + rest, before) == Number(digits, before)
  {
    if digits == "" {
      assert digits + rest == rest;
    } else {
      assert (digits + rest)[1..] == digits[1..] + rest;
      NumberStops(digits[1..], 10 * before + (digits[0] as nat - '0' as nat), rest);
    }
  }

  lemma {:induction false} SeekChar(a: string, c: char, b: string)
    requires c !in a
    ensures Seek(a + ([c] + b), [c]) == |a| && (a + ([c] + b))[|a| + 1..] == b && (a + ([c] + b))[..|a|] == a
  {
    if a == "" {
      assert a + ([c] + b) == [c] + b;
    } else {
      var s := a + ([c] + b);
      assert s[0] == a[0] && s[1..] == a[1..] + ([c] + b);
      SeekChar(a[1..], c, b);
    }
  }

  lemma {:induction false} TrimmedBack(s: string, space: string)
    requires EndsPlain(s) && AllSpace(space)
    ensures TrimRight(s + space) == s
    decreases |space|
  {
    if space == "" {
      assert s + space == s;
    } else {
      var front := space[..|space| - 1];
      assert (s + space)[..|s + space| - 1] == s + front;
      TrimmedBack(s, front);
    }
  }

  lemma SpaceSkipped(space: string, s: string)
    requires AllSpace(space) && (s == "" || !IsSpace(s[0]))
    ensures SkipSpace(space + s) == s
  {
    SpanStops(space, s, IsSpace);
  }

  lemma QuotedValue(value: string, s: Spacing)
    requires WellSpaced(s) && s.quote != ""
    ensures var v := SkipSpace(s.beforeValue + ValueText(value, s));
            v != "" && v[0] == s.quote[0] && TrimRight(v[1..]) == value + s.quote
  {
    hide SkipSpace, TrimRight, AllSpace;
    var rest := (value + s.quote) + s.behind;
    assert ValueText(value, s) == s.quote + rest;
    SpaceSkipped(s.beforeValue, s.quote + rest);
    assert (s.quote + rest)[1..] == rest;
    TrimmedBack(value + s.quote, s.behind);
  }

  lemma OnlySpace(a: string, b: string)
    requires AllSpace(a) && AllSpace(b)
    ensures SkipSpace(a + b) == "" && TrimRight("") == ""
  {
    assert (a + b) + "" == a + b;
    SpaceSkipped(a + b, "");
  }

  lemma UnquotedValue(value: string, s: Spacing)
    requires WellSpaced(s) && s.quote == "" && PlainValue(value)
    ensures var v := SkipSpace(s.beforeValue + ValueText(value, s));
            (v == "" || (v[0] != '"' && v[0] != '\'')) && TrimRight(v) == value
  {
    hide SkipSpace, TrimRight, AllSpace;
    assert ValueText(value, s) == value + s.behind;
    if value == "" {
      assert s.beforeValue + ValueText(value, s) == s.beforeValue + s.behind;
      OnlySpace(s.beforeValue, s.behind);
    } else {
      SpaceSkipped(s.beforeValue, value + s.behind);
      TrimmedBack(value, s.behind);
    }
  }

  lemma ConditionRead(name: string, value: string, s: Spacing)
    requires WellFormedFilter(HasAttribute(name, value, s))
    ensures ReadCondition(AttributeText(name, value, s)) == Some(Condition(true, name, value))
  {
    hide SkipSpace, TrimRight, ValueText, EndsPlain, PlainValue;
    var text, front := AttributeText(name, value, s), "@" + (name + s.behindName);
    var rest := s.beforeValue + ValueText(value, s);
    assert text == front + (['='] + rest);
    assert '=' !in s.behindName;
    SeekChar(front, '=', rest);
    assert text[1..|front|] == name + s.behindName;
    TrimmedBack(name, s.behindName);
    if s.quote == "" {
      UnquotedValue(value, s);
    } else {
      QuotedValue(value, s);
      assert (value + s.quote)[..|value|] == value;
    }
  }

  lemma {:induction false} FiltersRead(filters: seq<Filter>, q: Query, rest: string)
    requires forall f <- filters :: WellFormedFilter(f)
    requires rest == "" || rest[0] == '/'
    ensures ReadFilters(FiltersText(filters) + rest, q) == Some((Apply(q, filters), rest))
    decreases |filters|
  {
    if filters == [] {
      assert FiltersText(filters) + rest == rest;
    } else {
      var tail := FiltersText(filters[1..]) + rest;
      assert FiltersText(filters) + rest == FilterText(filters[0]) + tail;
      assert filters[0] in filters;
      match filters[0]
      case Rank(digits) =>
        RankRead(digits, q, tail);
        FiltersRead(filters[1..], q.(rank := Number(digits, 0)), rest);
      case HasAttribute(name, value, s) =>
        AttributeRead(name, value, s, q, tail);
        FiltersRead(filters[1..], q.With(Condition(true, name, value)), rest);
    }
  }

  lemma RankRead(digits: string, q: Query, tail: string)
    requires WellFormedFilter(Rank(digits))
    ensures ReadFilters(FilterText(Rank(digits)) + tail, q) == ReadFilters(tail, q.(rank := Number(digits, 0)))
  {
    var s1 := digits + ([']'] + tail);
    assert FilterText(Rank(digits)) + tail == "[" + s1;
    assert ("[" + s1)[1..] == s1 && IsDigit(s1[0]);
    SeekChar(digits, ']', tail);
    NumberStops(digits, 0, [']'] + tail);
  }

  lemma AttributeRead(name: string, value: string, s: Spacing, q: Query, tail: string)
    requires WellFormedFilter(HasAttribute(name, value, s))
    ensures ReadFilters(FilterText(HasAttribute(name, value, s)) + tail, q) ==
            ReadFilters(tail, q.With(Condition(true, name, value)))
  {
    hide SkipSpace, ReadCondition, Number, AttributeText, ValueText;
    var text := AttributeText(name, value, s);
    var s1 := s.front + (text + ([']'] + tail));
    assert FilterText(HasAttribute(name, value, s)) + tail == "[" + s1;
    TextStarts(name, value, s);
    assert ("[" + s1)[1..] == s1 && !IsDigit(s1[0]);
    SpaceSkipped(s.front, text + ([']'] + tail));
    SeekChar(text, ']', tail);
    ConditionRead(name, value, s);
  }

  lemma TextStarts(name: string, value: string, s: Spacing)
    requires WellFormedFilter(HasAttribute(name, value, s))
    ensures "@" <= AttributeText(name, value, s) && ']' !in AttributeText(name, value, s)
  {
    assert ']' !in s.behindName && ']' !in s.beforeValue && ']' !in s.behind && ']' !in s.quote;
  }

  lemma StepRead(step: Step, rest: string)
    requires WellFormed(step) && (rest == "" || rest[0] == '/')
    ensures ReadStep(step.name + (FiltersText(step.filters) + rest)) == Some((QueryOf(step), rest))
  {
    hide ReadFilters, Span;
    var tail := FiltersText(step.filters) + rest;
    assert tail == "" || !StepChar(tail[0]) by {
      if step.filters != [] {
        assert FilterText(step.filters[0])[0] == '[';
      }
    }
    SpanStops(step.name, tail, StepChar);
    FiltersRead(step.filters, Query(step.name, 0, []), rest);
  }

  // The query read from a step means what the step says

  lemma {:induction false} ConditionsMeet(c: Node, filters: seq<Filter>)
    ensures forall k <- ConditionsOf(filters) :: k.onAttribute
    ensures (forall k <- ConditionsOf(filters) :: AttributeOf(c, k.name) == Some(k.value)) <==>
            (forall f <- filters :: f.HasAttribute? ==> AttributeOf(c, f.name) == Some(f.value))
  {
    if filters != [] {
      ConditionsMeet(c, filters[1..]);
      assert filters == [filters[0]] + filters[1..];
      var k := ConditionOf(filters[0]);
      assert ConditionsOf(filters) == k + ConditionsOf(filters[1..]);
      assert forall x :: x in ConditionsOf(filters) <==> x in k || x in ConditionsOf(filters[1..]);
      assert forall x :: x in filters <==> x == filters[0] || x in filters[1..];
    }
  }

  lemma {:induction false} ApplyConditions(q: Query, filters: seq<Filter>)
    ensures Apply(q, filters).name == q.name && Apply(q, filters).conditions == q.conditions + ConditionsOf(filters)
    decreases |filters|
  {
    if filters != [] {
      match filters[0]
      case Rank(digits) => ApplyConditions(q.(rank := Number(digits, 0)), filters[1..]);
      case HasAttribute(name, value, _) => ApplyConditions(q.With(Condition(true, name, value)), filters[1..]);
    }
  }

  lemma {:induction false} ApplyLast(q: Query, filters: seq<Filter>, f: Filter)
    ensures Apply(q, filters + [f]) == Apply(Apply(q, filters), [f])
    decreases |filters|
  {
    if filters != [] {
      assert (filters + [f])[1..] == filters[1..] + [f];
      match filters[0]
      case Rank(digits) => ApplyLast(q.(rank := Number(digits, 0)), filters[1..], f);
      case HasAttribute(name, value, _) => ApplyLast(q.With(Condition(true, name, value)), filters[1..], f);
    } else {
      assert filters + [f] == [f];
    }
  }

  lemma {:induction false} ApplyRank(q: Query, filters: seq<Filter>)
    requires q.rank == 0
    ensures Apply(q, filters).rank == Wanted(filters)
    decreases |filters|
  {
    if filters != [] {
      var front, last := filters[..|filters| - 1], filters[|filters| - 1];
      assert filters == front + [last];
      ApplyLast(q, front, last);
      ApplyRank(q, front);
      assert [last][1..] == [];
    }
  }

  lemma {:induction false} TotalMetAll(c: Node, name: string, conditions: seq<Condition>)
    requires forall k <- conditions :: k.onAttribute
    ensures TotalMet(c, name, conditions) <= |conditions|
    ensures TotalMet(c, name, conditions) == |conditions| <==>
            forall k <- conditions :: c.name == name && AttributeOf(c, k.name) == Some(k.value)
    decreases |conditions|
  {
    if conditions != [] {
      var front, last := conditions[..|conditions| - 1], conditions[|conditions| - 1];
      TotalMetAll(c, name, front);
      assert conditions == front + [last];
      assert forall x :: x in conditions <==> x == last || x in front;
    }
  }

  lemma SatisfiesIff(c: Node, step: Step)
    ensures Satisfies(c, QueryOf(step)) <==> Meets(c, step)
  {
    hide AttributeOf;
    var conditions := ConditionsOf(step.filters);
    ApplyConditions(Query(step.name, 0, []), step.filters);
    assert QueryOf(step).conditions == conditions;
    ConditionsMeet(c, step.filters);
    TotalMetAll(c, step.name, conditions);
    assert conditions != [] ==> conditions[0] in conditions;
  }

  lemma {:induction false} CountIsSize(ts: seq<Node>, n: nat, step: Step)
    requires n <= |ts|
    ensures CountSatisfying(ts[..n], QueryOf(step)) == |set j: nat | j < n && Meets(ts[j], step)|
  {
    hide Satisfies, Meets, QueryOf;
    var all := set j: nat | j < n && Meets(ts[j], step);
    if n == 0 {
      assert all == {};
    } else {
      CountIsSize(ts, n - 1, step);
      assert ts[..n][..n - 1] == ts[..n - 1];
      SatisfiesIff(ts[n - 1], step);
      var before := set j: nat | j < n - 1 && Meets(ts[j], step);
      assert all == if Meets(ts[n - 1], step) then before + {n - 1} else before;
    }
  }

  lemma PickedIff(ts: seq<Node>, i: nat, step: Step)
    requires i < |ts|
    ensures Picked(ts, i, QueryOf(step)) <==> Chosen(ts, i, step)
  {
    hide Satisfies, Meets;
    SatisfiesIff(ts[i], step);
    CountIsSize(ts, i + 1, step);
    assert (set j: nat | j < i + 1 && Meets(ts[j], step)) == set j: nat | j <= i && Meets(ts[j], step);
    ApplyRank(Query(step.name, 0, []), step.filters);
  }

  // The search finds what is selected

  /** The list holds the selected addresses and no others, in document order and each once. */
  ghost predicate Exactly(list: seq<Address>, tree: Node, steps: seq<Step>) {
    && (forall a :: a in list <==> Selected(tree, steps, a))
    && (forall j, k :: 0 <= j < k < |list| ==> |list[j]| == |list[k]| && Before(list[j], list[k]))
  }

  /** The same, for the children from an index on. */
  ghost predicate ExactlyFrom(list: seq<Address>, tree: Node, i: nat, steps: seq<Step>) {
    && steps != []
    && (forall a :: a in list <==> Selected(tree, steps, a) && a[0] >= i)
    && (forall j, k :: 0 <= j < k < |list| ==> |list[j]| == |list[k]| && Before(list[j], list[k]))
  }

  lemma ChildSelected(found: seq<Address>, more: seq<Address>, tree: Node, i: nat, steps: seq<Step>)
    requires steps != [] && i < |tree.children| && Chosen(tree.children, i, steps[0])
    requires Exactly(found, tree.children[i], steps[1..]) && ExactlyFrom(more, tree, i + 1, steps)
    ensures ExactlyFrom(Below(i, found) + more, tree, i, steps)
  {
    hide Chosen, Below;
    var list := Below(i, found) + more;
    forall a
      ensures a in list <==> Selected(tree, steps, a) && a[0] >= i
    {
      if a in Below(i, found) {
        var k :| 0 <= k < |Below(i, found)| && Below(i, found)[k] == a;
        assert a[1..] == found[k] && found[k] in found;
      }
      if Selected(tree, steps, a) && a[0] == i {
        assert a[1..] in found;
        var k :| 0 <= k < |found| && found[k] == a[1..];
        assert Below(i, found)[k] == [i] + a[1..] == a;
      }
    }
    forall j, k | 0 <= j < k < |list|
      ensures |list[j]| == |list[k]| && Before(list[j], list[k])
    {
      assert list[j] in list && list[k] in list;
      if k < |found| {
        assert list[j][1..] == found[j] && list[k][1..] == found[k];
      } else {
        assert list[k] in more;
        assert j < |found| ==> list[j] == [i] + found[j];
        assert j >= |found| ==> list[j] == more[j - |found|] && list[k] == more[k - |found|];
      }
    }
  }

  lemma ChildNotSelected(more: seq<Address>, tree: Node, i: nat, steps: seq<Step>)
    requires steps != [] && i < |tree.children| && !Chosen(tree.children, i, steps[0])
    requires ExactlyFrom(more, tree, i + 1, steps)
    ensures ExactlyFrom(more, tree, i, steps)
  {
    hide Chosen;
  }

  /** The rest of the path text after the first step. */
  function RestText(steps: seq<Step>): string
    requires steps != []
  {
    if |steps| == 1 then "" else "/" + PathText(steps[1..])
  }

  lemma ChildrenSearched(tree: Node, i: nat, steps: seq<Step>, bound: nat)
    requires steps != [] && i <= |tree.children| && |RestText(steps)| <= bound && forall s <- steps :: WellFormed(s)
    ensures var r := SearchChildren(tree.children, i, QueryOf(steps[0]), RestText(steps), bound);
            r.Some? && ExactlyFrom(r.value, tree, i, steps)
    decreases |steps|, 0, |tree.children| - i
  {
    hide Picked, Chosen, QueryOf, Below, WellFormed, PathText, Search;
    if i < |tree.children| {
      ChildrenSearched(tree, i + 1, steps, bound);
      PickedIff(tree.children, i, steps[0]);
      var more := SearchChildren(tree.children, i + 1, QueryOf(steps[0]), RestText(steps), bound).value;
      if Chosen(tree.children, i, steps[0]) {
        var c := tree.children[i];
        if |steps| == 1 {
          assert Exactly([[]], c, steps[1..]);
          ChildSelected([[]], more, tree, i, steps);
        } else {
          assert RestText(steps)[1..] == PathText(steps[1..]);
          SearchSelects(c, steps[1..]);
          ChildSelected(Search(c, PathText(steps[1..])).value, more, tree, i, steps);
        }
      } else {
        ChildNotSelected(more, tree, i, steps);
      }
    }
  }

  /** The search of a well-formed path finds exactly the selected nodes, in document order and each once. */
  lemma SearchSelects(tree: Node, steps: seq<Step>)
    requires steps != [] && forall s <- steps :: WellFormed(s)
    ensures Search(tree, PathText(steps)).Some? && Exactly(Search(tree, PathText(steps)).value, tree, steps)
    ensures Search(tree, "/" + PathText(steps)) == Search(tree, PathText(steps))
    decreases |steps|, 1
  {
    hide QueryOf, FiltersText, SearchChildren, ReadStep;
    var path, step := PathText(steps), steps[0];
    assert step in steps;
    assert path == step.name + (FiltersText(step.filters) + RestText(steps));
    assert path[0] == step.name[0];
    assert ("/" + path)[1..] == path;
    StepRead(step, RestText(steps));
    ChildrenSearched(tree, 0, steps, |path|);
    ChildrenSearched(tree, 0, steps, |path| + 1);
    SameBound(tree.children, 0, QueryOf(step), RestText(steps), |path|, |path| + 1);
  }

  lemma SameBound(ts: seq<Node>, i: nat, q: Query, rest: string, b: nat, c: nat)
    requires i <= |ts| && |rest| <= b && |rest| <= c
    ensures SearchChildren(ts, i, q, rest, b) == SearchChildren(ts, i, q, rest, c)
    decreases |ts| - i
  {
    if i < |ts| {
      SameBound(ts, i + 1, q, rest, b, c);
    }
  }
}
