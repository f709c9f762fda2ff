/**
  The path query of mxml/mxml.c. A node found is given by its address: the child indices that lead to it.
*/
module XmlPath {
  import opened Options
  import opened XmlText
  import opened XmlTree
  import opened XmlParser

  const FIELD_SIZE: nat := 256

  datatype Condition = Condition(onAttribute: bool, name: string, value: string)

  // One step of a path: a name, a rank (0 for any) and conditions.
  datatype Query = Query(name: string, rank: nat, conditions: seq<Condition>)
  {
    function With(c: Condition): Query {
      this.(conditions := conditions + [c])
    }
  }

  predicate IsDigit(c: char) { '0' <= c <= '9' }
  predicate StepChar(c: char) { c != '/' && c != '[' }

  /** The number that the leading digits of a text make, behind some digits already read. */
  function Number(s: string, before: nat): nat {
    if s == "" || !IsDigit(s[0]) then before else Number(s[1..], 10 * before + (s[0] as nat - '0' as nat))
  }

  function TrimRight(s: string): (r: string)
    ensures r <= s
  {
    if s != "" && IsSpace(s[|s| - 1]) then TrimRight(s[..|s| - 1]) else s
  }

  /** The text before the closing bracket as a condition; without an equals sign it is none. */
  function ReadCondition(text: string): Option<Condition> {
    var e := Seek(text, "=");
    if e == |text| then None
    else
      var onAttribute := text[0] == '@';
      var v := SkipSpace(text[e + 1..]);
      var quoted := v != "" && (v[0] == '"' || v[0] == '\'');
      var trimmed := TrimRight(if quoted then v[1..] else v);
      var closed := quoted && trimmed != "" && trimmed[|trimmed| - 1] == v[0];
      var value := if closed then trimmed[..|trimmed| - 1] else trimmed;
      Some(Condition(onAttribute, TrimRight(if onAttribute && e > 0 then text[1..e] else text[..e]), value))
  }

  /** The bracketed parts of a step from here on, and the rest of the path. */
  function ReadFilters(s: string, q: Query): (r: Option<(Query, string)>)
    ensures r.Some? ==> |r.value.1| <= |s|
    decreases |s|
  {
    if !("[" <= s) then Some((q, s))
    else
      var s1 := s[1..];
      if s1 != "" && IsDigit(s1[0]) then
        var e := Seek(s1, "]");
        if e == |s1| then None else ReadFilters(s1[e + 1..], q.(rank := Number(s1, 0)))
      else
        var s2 := SkipSpace(s1);
        var e := Seek(s2, "]");
        if e == |s2| || e >= FIELD_SIZE - 1 then None
        else
          match ReadCondition(s2[..e])
          case None => ReadFilters(s2[e + 1..], q)
          case Some(c) => ReadFilters(s2[e + 1..], q.With(c))
  }

  function ReadStep(s: string): (r: Option<(Query, string)>)
    ensures r.Some? ==> |r.value.1| <= |s|
  {
    var k := Span(s, StepChar);
    if k >= FIELD_SIZE then None else ReadFilters(s[k..], Query(s[..k], 0, []))
  }

  /** How often a child meets a condition. */
  function Met(c: Node, name: string, condition: Condition): nat {
    if condition.onAttribute then
      if c.name == name && AttributeOf(c, condition.name) == Some(condition.value) then 1 else 0
    else CountSubnodes(c.children, condition)
  }

  function CountSubnodes(ts: seq<Node>, condition: Condition): nat {
    if ts == [] then 0
    else
      var met := ts[0].name == condition.name && ts[0].value == Some(condition.value);
      (if met then 1 else 0) + CountSubnodes(ts[1..], condition)
  }

  function AttributeOf(n: Node, name: string): Option<string> {
    FirstAttribute(n.attributes, name)
  }

  function FirstAttribute(attributes: seq<Attribute>, name: string): Option<string> {
    if attributes == [] then None
    else if attributes[0].name == name then Some(attributes[0].value)
    else FirstAttribute(attributes[1..], name)
  }

  function TotalMet(c: Node, name: string, conditions: seq<Condition>): nat {
    if conditions == [] then 0
    else TotalMet(c, name, conditions[..|conditions| - 1]) + Met(c, name, conditions[|conditions| - 1])
  }

  predicate Satisfies(c: Node, q: Query) {
    if q.conditions == [] then c.name == q.name else TotalMet(c, q.name, q.conditions) == |q.conditions|
  }

  function CountSatisfying(ts: seq<Node>, q: Query): nat {
    if ts == [] then 0
    else CountSatisfying(ts[..|ts| - 1], q) + if Satisfies(ts[|ts| - 1], q) then 1 else 0
  }

  /** The child at an index is selected: it satisfies the step and has the rank asked for among those that do. */
  predicate Picked(ts: seq<Node>, i: nat, q: Query)
    requires i < |ts|
  {
    Satisfies(ts[i], q) && (q.rank == 0 || CountSatisfying(ts[..i + 1], q) == q.rank)
  }

  type Address = seq<nat>

  function Below(i: nat, found: seq<Address>): (r: seq<Address>)
    ensures |r| == |found| && forall k :: 0 <= k < |r| ==> r[k] == [i] + found[k]
  {
    if found == [] then [] else [[i] + found[0]] + Below(i, found[1..])
  }

  /** The addresses that a path text leads to from a node, or none at all for a malformed path that was reached. */
  function Search(tree: Node, path: string): Option<seq<Address>>
    decreases |path|, 2, 0
  {
    match ReadStep(if "/" <= path then path[1..] else path)
    case None => None
    case Some((q, rest)) => SearchChildren(tree.children, 0, q, rest, |path|)
  }

  /** What is found at a picked child: itself at the end of the path, and otherwise what is found below it. */
  function Beyond(c: Node, path: string): Option<seq<Address>>
    decreases |path|, 0, 0
  {
    if path == "" then Some([[]]) else Search(c, path[1..])
  }

  function SearchChildren(ts: seq<Node>, i: nat, q: Query, rest: string, bound: nat): Option<seq<Address>>
    requires i <= |ts| && |rest| <= bound
    decreases bound, 1, |ts| - i
  {
    if i == |ts| then Some([])
    else if !Picked(ts, i, q) then SearchChildren(ts, i + 1, q, rest, bound)
    else
      match Beyond(ts[i], rest)
      case None => None
      case Some(found) =>
        match SearchChildren(ts, i + 1, q, rest, bound)
        case None => None
        case Some(more) => Some(Below(i, found) + more)
  }

  class Found {
    var nodes: seq<Address>

    constructor ()
      ensures nodes == []
    {
      nodes := [];
    }
  }

  lemma BelowPrefix(at: Address, i: nat, found: seq<Address>)
    ensures Prefixed(at, Below(i, found)) == Prefixed(at + [i], found)
  {
    forall k | 0 <= k < |found|
      ensures Prefixed(at, Below(i, found))[k] == Prefixed(at + [i], found)[k]
    {
      assert at + ([i] + found[k]) == at + [i] + found[k];
    }
  }

  function Prefixed(at: Address, found: seq<Address>): (r: seq<Address>)
    ensures |r| == |found| && forall k :: 0 <= k < |r| ==> r[k] == at + found[k]
  {
    seq(|found|, k requires 0 <= k < |found| => at + found[k])
  }

  lemma SearchStarts(tree: Node, path: string)
    ensures var step := ReadStep(if "/" <= path then path[1..] else path);
            Search(tree, path) ==
            match step
            case None => None
            case Some((q, rest)) => SearchChildren(tree.children, 0, q, rest, |path|)
  {
  }

  lemma PrefixedEmpty(at: Address)
    ensures Prefixed(at, []) == []
  {
  }

  lemma PrefixedByNothing(found: seq<Address>)
    ensures Prefixed([], found) == found
  {
    forall k | 0 <= k < |found|
      ensures Prefixed([], found)[k] == found[k]
    {
      assert [] + found[k] == found[k];
    }
  }

  lemma PrefixedAppend(at: Address, a: seq<Address>, b: seq<Address>)
    ensures Prefixed(at, a + b) == Prefixed(at, a) + Prefixed(at, b)
  {
  }

  lemma Regroup(a: seq<Address>, b: seq<Address>, c: seq<Address>)
    ensures a + (b + c) == a + b + c
  {
  }

  lemma PrefixedGrows(base: seq<Address>, at: Address, before: seq<Address>, i: nat, found: seq<Address>,
                      more: seq<Address>)
    ensures base + Prefixed(at, before) + Prefixed(at + [i], found) == base + Prefixed(at, before + Below(i, found))
    ensures before + (Below(i, found) + more) == before + Below(i, found) + more
  {
    hide Prefixed, Below;
    BelowPrefix(at, i, found);
    PrefixedAppend(at, before, Below(i, found));
    Regroup(base, Prefixed(at, before), Prefixed(at, Below(i, found)));
    Regroup(before, Below(i, found), more);
  }

  method CountMet(c: Node, q: Query) returns (n: nat)
    ensures n == TotalMet(c, q.name, q.conditions)
  {
    n := 0;
    for k := 0 to |q.conditions|
      invariant n == TotalMet(c, q.name, q.conditions[..k])
    {
      assert q.conditions[..k + 1][..k] == q.conditions[..k];
      n := n + Met(c, q.name, q.conditions[k]);
    }
    assert q.conditions[..|q.conditions|] == q.conditions;
  }

  /** A node picked by the last step is recorded; before that the search goes on below it. */
  method AddResultNode(node: Node, at: Address, path: string, list: Found) returns (ok: bool)
    modifies list
    ensures ok == Beyond(node, path).Some?
    ensures ok ==> list.nodes == old(list.nodes) + Prefixed(at, Beyond(node, path).value)
    decreases |path|, 0
  {
    if path == "" {
      list.nodes := list.nodes + [at];
      assert Prefixed(at, [[]]) == [at] by { assert at + [] == at; }
      return true;
    }
    ok := FindNodes1(node, at, path[1..], list);
  }

  method FindNodes1(tree: Node, at: Address, path: string, list: Found) returns (ok: bool)
    modifies list
    ensures ok == Search(tree, path).Some?
    ensures ok ==> list.nodes == old(list.nodes) + Prefixed(at, Search(tree, path).value)
    decreases |path|, 1
  {
    hide ReadStep, Prefixed, TotalMet, Search, Beyond, Below;
    var p1 := if "/" <= path then path[1..] else path;
    var step := ReadStep(p1);
    if step.None? {
      SearchStarts(tree, path);
      return false;
    }
    var (q, p2) := step.value;
    var index := 0;
    ghost var all := SearchChildren(tree.children, 0, q, p2, |path|);
    ghost var before: seq<Address> := [];
    assert Search(tree, path) == all by { SearchStarts(tree, path); }
    assert Prefixed(at, before) == [] by { PrefixedEmpty(at); }
    assert all.Some? ==> before + all.value == all.value;
    for i := 0 to |tree.children|
      invariant index == CountSatisfying(tree.children[..i], q)
      invariant var rest := SearchChildren(tree.children, i, q, p2, |path|);
        all == match rest case None => None case Some(more) => Some(before + more)
      invariant list.nodes == old(list.nodes) + Prefixed(at, before)
    {
      var c := tree.children[i];
      assert tree.children[..i + 1][..i] == tree.children[..i];
      var satisfied;
      if q.conditions != [] {
        var n := CountMet(c, q);
        satisfied := n == |q.conditions|;
      } else {
        satisfied := c.name == q.name;
      }
      if satisfied {
        index := index + 1;
        if q.rank == 0 || index == q.rank {
          assert Picked(tree.children, i, q);
          var added := AddResultNode(c, at + [i], p2, list);
          if !added {
            return false;
          }
          ghost var found := Beyond(c, p2);
          ghost var more := SearchChildren(tree.children, i + 1, q, p2, |path|);
          PrefixedGrows(old(list.nodes), at, before, i, found.value, if more.Some? then more.value else []);
          before := before + Below(i, found.value);
        }
      }
    }
    assert tree.children[..|tree.children|] == tree.children;
    assert before + [] == before;
    return true;
  }

  method FindNodes(tree: Node, path: string) returns (count: int, nodes: seq<Address>)
    ensures count == match Search(tree, path) case None => -1 case Some(found) => |found|
    ensures count >= 0 ==> Search(tree, path) == Some(nodes)
  {
    var list := new Found();
    var ok := FindNodes1(tree, [], path, list);
    if !ok {
      return -1, list.nodes;
    }
    PrefixedByNothing(Search(tree, path).value);
    assert list.nodes == [] + Search(tree, path).value == Search(tree, path).value;
    return |list.nodes|, list.nodes;
  }
}
