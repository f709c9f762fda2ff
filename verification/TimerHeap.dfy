/**
  The timer heap of ser2net/selector.c: a priority queue kept as a linked complete binary tree.
  The ghost sequence `heap` lists the nodes in level order; every link is fixed by a position in it.
*/
module TimerHeap {
  import opened TimeVals

  class Timer {
    var timeout: TimeVal
    var inHeap: bool
    var left: Timer?
    var right: Timer?
    var up: Timer?

    constructor ()
      ensures !inHeap
    {
      inHeap := false;
    }
  }

  // ----- Level-order shape -----

  function Parent(k: int): int { (k - 1) / 2 }

  ghost function Slot(h: seq<Timer>, k: int): Timer? {
    if 0 <= k < |h| then h[k] else null
  }

  ghost predicate Distinct(h: seq<Timer>) {
    forall i, j :: 0 <= i < j < |h| ==> h[i] != h[j]
  }

  /** The links between position k and its two children, in both directions. */
  ghost predicate LinkedAt(h: seq<Timer>, k: int)
    requires 0 <= k < |h|
    reads h
  {
    && h[k].left == Slot(h, 2 * k + 1)
    && h[k].right == Slot(h, 2 * k + 2)
    && (2 * k + 1 < |h| ==> h[2 * k + 1].up == h[k])
    && (2 * k + 2 < |h| ==> h[2 * k + 2].up == h[k])
  }

  ghost predicate Linked(h: seq<Timer>)
    reads h
  {
    && (|h| > 0 ==> h[0].up == null)
    && forall k :: 0 <= k < |h| ==> LinkedAt(h, k)
  }

  // ----- Heap order, on the timeouts in level order -----

  ghost function Keys(h: seq<Timer>): (ks: seq<TimeVal>)
    reads h
    ensures |ks| == |h| && forall i :: 0 <= i < |h| ==> ks[i] == h[i].timeout
  {
    seq(|h|, i requires 0 <= i < |h| reads h => h[i].timeout)
  }

  /** The edge from position k up to its parent is in timeout order. */
  ghost predicate EdgeOk(ks: seq<TimeVal>, k: int)
    requires 1 <= k < |ks|
  {
    !Earlier(ks[k], ks[Parent(k)])
  }

  ghost predicate Ordered(ks: seq<TimeVal>) {
    forall k :: 1 <= k < |ks| ==> EdgeOk(ks, k)
  }

  /** Position k is not earlier than the parent of position c. */
  ghost predicate FitsAbove(ks: seq<TimeVal>, k: int, c: int)
    requires 0 <= k < |ks| && 1 <= c < |ks|
  {
    !Earlier(ks[k], ks[Parent(c)])
  }

  /** Every edge but the one above position c is ordered, and the children of c already fit below c's parent. */
  ghost predicate OrderedAbove(ks: seq<TimeVal>, c: int) {
    && (forall k :: 1 <= k < |ks| && k != c ==> EdgeOk(ks, k))
    && (forall k :: 1 <= k < |ks| && Parent(k) == c && 1 <= c ==> FitsAbove(ks, k, c))
  }

  /** Every edge but those below position c is ordered, and the children of c already fit below c's parent. */
  ghost predicate OrderedBelow(ks: seq<TimeVal>, c: int) {
    && (forall k :: 1 <= k < |ks| && Parent(k) != c ==> EdgeOk(ks, k))
    && (forall k :: 1 <= k < |ks| && Parent(k) == c && 1 <= c ==> FitsAbove(ks, k, c))
  }

  ghost function Exchange<T>(h: seq<T>, p: int, c: int): seq<T>
    requires 0 <= p < |h| && 0 <= c < |h|
  {
    h[p := h[c]][c := h[p]]
  }

  ghost function Members(h: seq<Timer>): set<Timer> {
    set t | t in h
  }

  class Selector {
    var timerTop: Timer?
    var timerLast: Timer?
    ghost var heap: seq<Timer>
    ghost var timers: set<Timer>

    ghost predicate Shape()
      reads this, timers, heap
    {
      && (forall t :: t in heap ==> t in timers)
      && Distinct(heap)
      && Linked(heap)
      && timerTop == Slot(heap, 0)
      && timerLast == Slot(heap, |heap| - 1)
    }

    /** The nodes around one parent-child edge, named before an exchange; absent neighbours are null. */
    ghost predicate Around(child: Timer, parent: Timer, gp: Timer?, sib: Timer?, l: Timer?, r: Timer?)
      reads child, parent, gp
    {
      && child.up == parent && parent.up == gp && child.left == l && child.right == r
      && ((parent.left == child && parent.right == sib) || (parent.left == sib && parent.right == child))
      && child != parent && sib != child && sib != parent
      && l != child && l != parent && r != child && r != parent
      && (l != null ==> l != r && l != sib)
      && (r != null ==> r != sib)
      && (gp != null ==>
            && gp != child && gp != parent && gp != sib && gp != l && gp != r
            && (gp.left == parent <==> gp.right != parent))
    }

    /** What an exchange leaves: child in the place of parent, parent in the place of child. */
    twostate predicate Exchanged(child: Timer, parent: Timer, gp: Timer?, sib: Timer?, l: Timer?, r: Timer?)
      reads this, child, parent, gp, sib, l, r
    {
      && child.left == (if old(parent.left) == child then parent else sib)
      && child.right == (if old(parent.left) == child then sib else parent)
      && child.up == gp && parent.up == child && parent.left == l && parent.right == r
      && (sib != null ==> sib.up == child)
      && (l != null ==> l.up == parent)
      && (r != null ==> r.up == parent)
      && (gp != null ==> gp.left == if old(gp.left) == parent then child else old(gp.left))
      && (gp != null ==> gp.right == if old(gp.left) == parent then old(gp.right) else child)
      && timerTop == (if gp == null then child else old(timerTop))
      && timerLast == (if old(timerLast) == child then parent else old(timerLast))
    }

    /** First half of a send_up exchange (ser2net/selector.c:432-455): elem takes over the place of parent. */
    method TakePlaceOf(elem: Timer, parent: Timer, ghost gp: Timer?, ghost sib: Timer?)
      requires Around(elem, parent, gp, sib, elem.left, elem.right)
      modifies this`timerTop, elem`left, elem`right, elem`up
      modifies (if gp == null then {} else {gp})`left, (if gp == null then {} else {gp})`right
      modifies (if sib == null then {} else {sib})`up
      ensures elem.left == if old(parent.left) == elem then parent else sib
      ensures elem.right == if old(parent.left) == elem then sib else parent
      ensures elem.up == gp
      ensures sib != null ==> sib.up == elem
      ensures gp != null ==> gp.left == if old(gp.left) == parent then elem else old(gp.left)
      ensures gp != null ==> gp.right == if old(gp.left) == parent then old(gp.right) else elem
      ensures timerTop == if gp == null then elem else old(timerTop)
    {
      if parent.left == elem {
        elem.left := parent;
        elem.right := parent.right;
        if elem.right != null { elem.right.up := elem; }
      } else {
        elem.right := parent;
        elem.left := parent.left;
        if elem.left != null { elem.left.up := elem; }
      }
      elem.up := parent.up;
      if parent.up != null {
        if parent.up.left == parent {
          parent.up.left := elem;
        } else {
          parent.up.right := elem;
        }
      } else {
        timerTop := elem;
      }
    }

    /** The pointer surgery of one send_up exchange (ser2net/selector.c:432-466). */
    method LiftLinks(elem: Timer, parent: Timer, ghost gp: Timer?, ghost sib: Timer?, ghost l: Timer?, ghost r: Timer?)
      requires Around(elem, parent, gp, sib, l, r)
      modifies this`timerTop, this`timerLast, elem`left, elem`right, elem`up, parent`left, parent`right, parent`up
      modifies (if gp == null then {} else {gp})`left, (if gp == null then {} else {gp})`right
      modifies (if sib == null then {} else {sib})`up
      modifies (if l == null then {} else {l})`up, (if r == null then {} else {r})`up
      ensures Exchanged(elem, parent, gp, sib, l, r)
    {
      var tmp1, tmp2 := elem.left, elem.right;
      TakePlaceOf(elem, parent, gp, sib);
      parent.up := elem;
      parent.left := tmp1;
      if parent.left != null { parent.left.up := parent; }
      parent.right := tmp2;
      if parent.right != null { parent.right.up := parent; }
      if timerLast == elem {
        timerLast := parent;
      }
    }

    ghost predicate Edge(p: int, c: int)
      reads this
    {
      0 <= p && (c == 2 * p + 1 || c == 2 * p + 2) && c < |heap|
    }

    ghost function Sibling(p: int, c: int): int {
      if c == 2 * p + 1 then c + 1 else c - 1
    }

    ghost function Above(p: int): int {
      if p <= 0 then -1 else Parent(p)
    }

    lemma AroundEdge(p: int, c: int)
      requires Shape() && Edge(p, c)
      ensures Around(heap[c], heap[p], Slot(heap, Above(p)), Slot(heap, Sibling(p, c)),
                     Slot(heap, 2 * c + 1), Slot(heap, 2 * c + 2))
    {
      var g := Above(p);
      assert LinkedAt(heap, c) && LinkedAt(heap, p);
      if p >= 1 {
        assert LinkedAt(heap, g) && (p == 2 * g + 1 || p == 2 * g + 2);
      }
    }

    /** Every link is matched by the link back. */
    ghost predicate Mutual(t: Timer)
      reads t, t.left, t.right, t.up
    {
      && (t.left != null ==> t.left.up == t)
      && (t.right != null ==> t.right.up == t)
      && (t.up != null ==> t.up.left == t || t.up.right == t)
    }

    lemma MutualLinks(k: int)
      requires Shape() && 0 <= k < |heap|
      ensures Mutual(heap[k])
      ensures k >= 1 ==> heap[k].up == heap[Parent(k)]
    {
      assert LinkedAt(heap, k);
      if k >= 1 {
        assert LinkedAt(heap, Parent(k)) && (k == 2 * Parent(k) + 1 || k == 2 * Parent(k) + 2);
      }
    }

    /** Both nodes of an exchange, their old links read through the transposition of the two. */
    twostate predicate Transposed(t: Timer, a: Timer, b: Timer)
      reads t, a, b
    {
      var t' := if t == a then b else if t == b then a else t;
      && t'.left == Other(old(t.left), a, b)
      && t'.right == Other(old(t.right), a, b)
      && t'.up == Other(old(t.up), a, b)
    }

    /** The node-level effect of one send_up exchange: all links are transposed, nothing else moves. */
    method TransposeUp(elem: Timer, parent: Timer, ghost p: int, ghost c: int)
      requires Shape() && Edge(p, c) && heap[c] == elem && heap[p] == parent
      modifies this`timerTop, this`timerLast, timers`left, timers`right, timers`up
      ensures forall k :: 0 <= k < |heap| ==> Transposed(heap[k], elem, parent)
      ensures timerTop == Other(old(timerTop), elem, parent) && timerLast == Other(old(timerLast), elem, parent)
    {
      hide Linked, LinkedAt;
      ghost var h := heap;
      AroundEdge(p, c);
      forall k | 0 <= k < |heap| ensures Mutual(heap[k]) { MutualLinks(k); }
      LiftLinks(elem, parent, Slot(h, Above(p)), Slot(h, Sibling(p, c)), Slot(h, 2 * c + 1), Slot(h, 2 * c + 2));
      forall k | 0 <= k < |h|
        ensures Transposed(h[k], elem, parent)
      {
        assert old(Mutual(h[k]));
      }
    }

    /** Once all links are transposed, the level order with the two nodes exchanged is the tree's. */
    ghost method Reorder(p: int, c: int)
      requires Edge(p, c) && Distinct(heap) && forall t :: t in heap ==> t in timers
      requires forall k :: 0 <= k < |heap| ==> LinkedThrough(heap, k, heap[c], heap[p])
      requires Swapped(heap[0], heap[c], heap[p]).up == null
      requires timerTop == Other(Slot(heap, 0), heap[c], heap[p])
      requires timerLast == Other(Slot(heap, |heap| - 1), heap[c], heap[p])
      modifies this`heap
      ensures heap == Exchange(old(heap), p, c) && Members(heap) == Members(old(heap))
      ensures Keys(heap) == Exchange(old(Keys(heap)), p, c)
      ensures Shape()
    {
      LinkedThroughExchange(heap, p, c);
      ExchangedEnds(heap, p, c);
      hide Distinct, Linked, LinkedThrough, Members;
      heap := Exchange(heap, p, c);
    }

    /** One exchange in send_up, seen from the level order: positions c and p trade their nodes. */
    method SwapWithParent(elem: Timer, parent: Timer, ghost p: int, ghost c: int)
      requires Shape() && Edge(p, c) && heap[c] == elem && heap[p] == parent
      modifies this, timers`left, timers`right, timers`up
      ensures timers == old(timers) && heap == Exchange(old(heap), p, c)
      ensures Members(heap) == Members(old(heap)) && Keys(heap) == Exchange(old(Keys(heap)), p, c)
      ensures Shape()
    {
      hide Distinct, Linked, LinkedThrough, Members;
      RelinkUp(elem, parent, p, c);
      Reorder(p, c);
    }

    /** After send_up's relinking every node is linked as LinkedAt asks, read through the transposition. */
    method RelinkUp(elem: Timer, parent: Timer, ghost p: int, ghost c: int)
      requires Shape() && Edge(p, c) && heap[c] == elem && heap[p] == parent
      modifies this`timerTop, this`timerLast, timers`left, timers`right, timers`up
      ensures forall k :: 0 <= k < |heap| ==> LinkedThrough(heap, k, elem, parent)
      ensures Swapped(heap[0], elem, parent).up == null
      ensures timerTop == Other(Slot(heap, 0), elem, parent) && timerLast == Other(Slot(heap, |heap| - 1), elem, parent)
    {
      ghost var h := heap;
      TransposeUp(elem, parent, p, c);
      assert heap == h;
      forall k | 0 <= k < |h|
        ensures LinkedThrough(h, k, elem, parent)
      {
        assert old(LinkedAt(h, k));
        assert Transposed(h[k], elem, parent);
        assert 2 * k + 1 < |h| ==> Transposed(h[2 * k + 1], elem, parent);
        assert 2 * k + 2 < |h| ==> Transposed(h[2 * k + 2], elem, parent);
      }
      assert Transposed(h[0], elem, parent);
    }

    // ----- Walking to the next and the previous slot -----

    lemma LinksDown(k: int)
      requires Shape() && 0 <= k < |heap|
      ensures heap[k].left == Slot(heap, 2 * k + 1) && heap[k].right == Slot(heap, 2 * k + 2)
      ensures k == 0 ==> heap[k].up == null
    {
      assert LinkedAt(heap, k);
    }

    lemma LinksUp(k: int) returns (j: int)
      requires Shape() && 1 <= k < |heap|
      ensures 0 <= j < k && (k == 2 * j + 1 || k == 2 * j + 2)
      ensures heap[k].up == heap[j]
      ensures heap[j].left == heap[k] <==> k == 2 * j + 1
      ensures heap[j].right == heap[k] <==> k == 2 * j + 2
    {
      j := Parent(k);
      assert LinkedAt(heap, j);
    }

    // Places in level order are counted from one here: place i holds heap[i - 1].

    method ClimbWhileRight(start: Timer, ghost place: int) returns (curr: Timer, upcount: nat, ghost i: int)
      requires Shape() && 1 <= place <= |heap| && start == heap[place - 1]
      ensures 1 <= i <= place && curr == heap[i - 1] && place == Rightmost(i, upcount)
      ensures curr.up == null || curr.up.right != curr
      ensures upcount == 0 ==> curr == start
    {
      curr, upcount, i := start, 0, place;
      while curr.up != null && curr.up.right == curr
        invariant 1 <= i <= place && curr == heap[i - 1] && place == Rightmost(i, upcount)
        invariant upcount == 0 ==> curr == start
        decreases i
      {
        LinksDown(i - 1);
        ghost var j := LinksUp(i - 1);
        upcount := upcount + 1;
        curr := curr.up;
        i := j + 1;
      }
    }

    method ClimbWhileLeft(start: Timer, ghost place: int) returns (curr: Timer, upcount: nat, ghost i: int)
      requires Shape() && 1 <= place <= |heap| && start == heap[place - 1]
      ensures 1 <= i <= place && curr == heap[i - 1] && place == Leftmost(i, upcount)
      ensures curr.up == null || curr.up.left != curr
      ensures upcount == 0 ==> curr == start
    {
      curr, upcount, i := start, 0, place;
      while curr.up != null && curr.up.left == curr
        invariant 1 <= i <= place && curr == heap[i - 1] && place == Leftmost(i, upcount)
        invariant upcount == 0 ==> curr == start
        decreases i
      {
        LinksDown(i - 1);
        ghost var j := LinksUp(i - 1);
        upcount := upcount + 1;
        curr := curr.up;
        i := j + 1;
      }
    }

    method DescendLeft(start: Timer, count: nat, ghost place: int) returns (curr: Timer, ghost i: int)
      requires Shape() && 1 <= place <= |heap| && start == heap[place - 1]
      requires Leftmost(2 * place, count) <= |heap| + 1
      ensures 1 <= i <= |heap| && curr == heap[i - 1] && 2 * i == Leftmost(2 * place, count)
    {
      var upcount := count;
      curr, i := start, place;
      while upcount != 0
        invariant upcount >= 0 && 1 <= i <= |heap| && curr == heap[i - 1]
        invariant Leftmost(2 * i, upcount) == Leftmost(2 * place, count)
        decreases upcount
      {
        LinksDown(i - 1);
        LeftmostGrows(4 * i, upcount - 1);
        curr := curr.left;
        upcount := upcount - 1;
        i := 2 * i;
      }
    }

    method DescendRight(start: Timer, count: nat, ghost place: int) returns (curr: Timer, ghost i: int)
      requires Shape() && 1 <= place <= |heap| && start == heap[place - 1]
      requires Rightmost(place, count) <= |heap|
      ensures 1 <= i <= |heap| && curr == heap[i - 1] && i == Rightmost(place, count)
    {
      var upcount := count;
      curr, i := start, place;
      while upcount != 0
        invariant upcount >= 0 && 1 <= i <= |heap| && curr == heap[i - 1]
        invariant Rightmost(i, upcount) == Rightmost(place, count)
        decreases upcount
      {
        LinksDown(i - 1);
        RightmostGrows(2 * i + 1, upcount - 1);
        curr := curr.right;
        upcount := upcount - 1;
        i := 2 * i + 1;
      }
    }

    /** The empty slot at level-order position |heap|, named by its parent and side. */
    method FindNextPos(last: Timer) returns (parent: Timer, asLeft: bool, ghost j: int)
      requires Shape() && |heap| > 0 && last == timerLast
      ensures 0 <= j < |heap| && parent == heap[j]
      ensures |heap| == if asLeft then 2 * j + 1 else 2 * j + 2
    {
      ghost var n := |heap|;
      LinksDown(n - 1);
      if n > 1 {
        j := LinksUp(n - 1);
      }
      if last.up != null && last.up.left == last {
        return last.up, false, j;
      }
      var curr, upcount, i := ClimbWhileRight(last, n);
      NextLeftmost(i, upcount);
      LinksDown(i - 1);
      if i > 1 {
        j := LinksUp(i - 1);
        LinksDown(j);
        LeftmostGrows(i + 1, upcount);
      }
      if curr.up != null {
        curr := curr.up.right;
        upcount := upcount - 1;
        i := i + 1;
      }
      curr, i := DescendLeft(curr, upcount, i);
      return curr, true, i - 1;
    }

    /** The node just before the last one in level order. */
    method FindPrevElem(last: Timer) returns (prev: Timer)
      requires Shape() && |heap| > 1 && last == timerLast
      ensures prev == heap[|heap| - 2]
    {
      ghost var n := |heap|;
      ghost var j := LinksUp(n - 1);
      LinksDown(j);
      if last.up != null && last.up.right == last {
        return last.up.left;
      }
      var curr, upcount, i := ClimbWhileLeft(last, n);
      LinksDown(i - 1);
      if i > 1 {
        j := LinksUp(i - 1);
        LinksDown(j);
        NextLeftmost(i - 1, upcount);
      } else {
        NextLeftmost(1, upcount - 1);
      }
      if curr.up != null {
        curr := curr.up.left;
        i := i - 1;
      } else {
        upcount := upcount - 1;
      }
      prev, i := DescendRight(curr, upcount, i);
    }

    // ----- send_down -----

    /** The pointer surgery that moves elem below its right child (ser2net/selector.c:484-511). */
    method SinkRight(elem: Timer, right: Timer, ghost gp: Timer?, ghost l: Timer?, ghost r: Timer?)
      requires elem.right == right && Around(right, elem, gp, elem.left, l, r)
      modifies this`timerTop, this`timerLast, elem`left, elem`right, elem`up, right`left, right`right, right`up
      modifies (if gp == null then {} else {gp})`left, (if gp == null then {} else {gp})`right
      modifies (if elem.left == null then {} else {elem.left})`up
      modifies (if l == null then {} else {l})`up, (if r == null then {} else {r})`up
      ensures Exchanged(right, elem, gp, old(elem.left), l, r)
    {
      var tmp1, tmp2 := right.left, right.right;
      if elem.up != null {
        if elem.up.left == elem {
          elem.up.left := right;
        } else {
          elem.up.right := right;
        }
      } else {
        timerTop := right;
      }
      right.up := elem.up;
      elem.up := right;
      right.left := elem.left;
      right.right := elem;
      elem.left := tmp1;
      elem.right := tmp2;
      if right.left != null { right.left.up := right; }
      if elem.left != null { elem.left.up := elem; }
      if elem.right != null { elem.right.up := elem; }
      if timerLast == right {
        timerLast := elem;
      }
    }

    /** The pointer surgery that moves elem below its left child (ser2net/selector.c:517-544). */
    method SinkLeft(elem: Timer, left: Timer, ghost gp: Timer?, ghost l: Timer?, ghost r: Timer?)
      requires Around(left, elem, gp, elem.right, l, r) && elem.left == left
      modifies this`timerTop, this`timerLast, elem`left, elem`right, elem`up, left`left, left`right, left`up
      modifies (if gp == null then {} else {gp})`left, (if gp == null then {} else {gp})`right
      modifies (if elem.right == null then {} else {elem.right})`up
      modifies (if l == null then {} else {l})`up, (if r == null then {} else {r})`up
      ensures Exchanged(left, elem, gp, old(elem.right), l, r)
    {
      var tmp1, tmp2 := left.left, left.right;
      if elem.up != null {
        if elem.up.left == elem {
          elem.up.left := left;
        } else {
          elem.up.right := left;
        }
      } else {
        timerTop := left;
      }
      left.up := elem.up;
      elem.up := left;
      left.left := elem;
      left.right := elem.right;
      elem.left := tmp1;
      elem.right := tmp2;
      if left.right != null { left.right.up := left; }
      if elem.left != null { elem.left.up := elem; }
      if elem.right != null { elem.right.up := elem; }
      if timerLast == left {
        timerLast := elem;
      }
    }

    /** Either surgery exchanges the two nodes. */
    method SinkLinks(elem: Timer, child: Timer, toRight: bool, ghost gp: Timer?, ghost sib: Timer?,
                     ghost l: Timer?, ghost r: Timer?)
      requires Around(child, elem, gp, sib, l, r)
      requires if toRight then elem.right == child && elem.left == sib else elem.left == child && elem.right == sib
      modifies this`timerTop, this`timerLast, elem`left, elem`right, elem`up, child`left, child`right, child`up
      modifies (if gp == null then {} else {gp})`left, (if gp == null then {} else {gp})`right
      modifies (if sib == null then {} else {sib})`up
      modifies (if l == null then {} else {l})`up, (if r == null then {} else {r})`up
      ensures Exchanged(child, elem, gp, sib, l, r)
    {
      if toRight {
        SinkRight(elem, child, gp, l, r);
      } else {
        SinkLeft(elem, child, gp, l, r);
      }
    }

    /** The node-level effect of one send_down exchange. */
    method TransposeDown(elem: Timer, child: Timer, toRight: bool, ghost p: int, ghost c: int)
      requires Shape() && Edge(p, c) && heap[c] == child && heap[p] == elem
      requires toRight <==> c == 2 * p + 2
      modifies this`timerTop, this`timerLast, timers`left, timers`right, timers`up
      ensures forall k :: 0 <= k < |heap| ==> Transposed(heap[k], child, elem)
      ensures timerTop == Other(old(timerTop), child, elem) && timerLast == Other(old(timerLast), child, elem)
    {
      hide Linked, LinkedAt;
      ghost var h := heap;
      AroundEdge(p, c);
      forall k | 0 <= k < |heap| ensures Mutual(heap[k]) { MutualLinks(k); }
      LinksDown(p);
      SinkLinks(elem, child, toRight, Slot(h, Above(p)), Slot(h, Sibling(p, c)), Slot(h, 2 * c + 1),
                Slot(h, 2 * c + 2));
      forall k | 0 <= k < |h|
        ensures Transposed(h[k], child, elem)
      {
        assert old(Mutual(h[k]));
      }
    }

    /** One exchange in send_down, seen from the level order. */
    method SwapWithChild(elem: Timer, child: Timer, toRight: bool, ghost p: int, ghost c: int)
      requires Shape() && Edge(p, c) && heap[c] == child && heap[p] == elem
      requires toRight <==> c == 2 * p + 2
      modifies this, timers`left, timers`right, timers`up
      ensures timers == old(timers) && heap == Exchange(old(heap), p, c)
      ensures Members(heap) == Members(old(heap)) && Keys(heap) == Exchange(old(Keys(heap)), p, c)
      ensures Shape()
    {
      hide Distinct, Linked, LinkedThrough, Members;
      RelinkDown(elem, child, toRight, p, c);
      Reorder(p, c);
    }

    method RelinkDown(elem: Timer, child: Timer, toRight: bool, ghost p: int, ghost c: int)
      requires Shape() && Edge(p, c) && heap[c] == child && heap[p] == elem
      requires toRight <==> c == 2 * p + 2
      modifies this`timerTop, this`timerLast, timers`left, timers`right, timers`up
      ensures forall k :: 0 <= k < |heap| ==> LinkedThrough(heap, k, child, elem)
      ensures Swapped(heap[0], child, elem).up == null
      ensures timerTop == Other(Slot(heap, 0), child, elem) && timerLast == Other(Slot(heap, |heap| - 1), child, elem)
    {
      ghost var h := heap;
      TransposeDown(elem, child, toRight, p, c);
      assert heap == h;
      forall k | 0 <= k < |h|
        ensures LinkedThrough(h, k, child, elem)
      {
        assert old(LinkedAt(h, k));
        assert Transposed(h[k], child, elem);
        assert 2 * k + 1 < |h| ==> Transposed(h[2 * k + 1], child, elem);
        assert 2 * k + 2 < |h| ==> Transposed(h[2 * k + 2], child, elem);
      }
      assert Transposed(h[0], child, elem);
    }

    method SendUp(elem: Timer, ghost start: int)
      requires Shape() && 0 <= start < |heap| && heap[start] == elem && OrderedAbove(Keys(heap), start)
      modifies this, timers`left, timers`right, timers`up
      ensures timers == old(timers) && |heap| == |old(heap)| && Members(heap) == Members(old(heap))
      ensures Shape() && Ordered(Keys(heap))
    {
      hide Selector.Shape, Members;
      ghost var c := start;
      var parent := elem.up;
      while parent != null && Compare(elem.timeout, parent.timeout) < 0
        invariant timers == old(timers) && |heap| == |old(heap)| && Members(heap) == Members(old(heap))
        invariant Shape() && 0 <= c < |heap| && heap[c] == elem && parent == elem.up
        invariant OrderedAbove(Keys(heap), c)
        decreases c
      {
        LinksDown(c);
        ghost var p := LinksUp(c);
        ExchangeUpOrder(Keys(heap), p, c);
        SwapWithParent(elem, parent, p, c);
        c := p;
        parent := elem.up;
      }
      LinksDown(c);
      if c > 0 {
        ghost var p := LinksUp(c);
        assert EdgeOk(Keys(heap), c);
      }
    }

    /** elem trades places with its earlier child, which is earlier than elem itself. */
    method StepDown(elem: Timer, child: Timer, toRight: bool, ghost p: int, ghost c: int)
      requires Shape() && Edge(p, c) && heap[c] == child && heap[p] == elem
      requires toRight <==> c == 2 * p + 2
      requires OrderedBelow(Keys(heap), p) && Compare(elem.timeout, child.timeout) > 0
      requires 2 * p + 1 < |heap| ==> !Earlier(heap[2 * p + 1].timeout, child.timeout)
      requires 2 * p + 2 < |heap| ==> !Earlier(heap[2 * p + 2].timeout, child.timeout)
      modifies this, timers`left, timers`right, timers`up
      ensures timers == old(timers) && |heap| == |old(heap)| && Members(heap) == Members(old(heap))
      ensures Shape() && heap[c] == elem && OrderedBelow(Keys(heap), c)
    {
      ExchangeDownOrder(Keys(heap), p, c);
      SwapWithChild(elem, child, toRight, p, c);
    }

    method SendDown(elem: Timer, ghost start: int)
      requires Shape() && 0 <= start < |heap| && heap[start] == elem && OrderedBelow(Keys(heap), start)
      modifies this, timers`left, timers`right, timers`up
      ensures timers == old(timers) && |heap| == |old(heap)| && Members(heap) == Members(old(heap))
      ensures Shape() && Ordered(Keys(heap))
    {
      hide Selector.Shape, Members, OrderedBelow, Ordered;
      ghost var p := start;
      var left := elem.left;
      while left != null
        invariant timers == old(timers) && |heap| == |old(heap)| && Members(heap) == Members(old(heap))
        invariant Shape() && 0 <= p < |heap| && heap[p] == elem && left == elem.left
        invariant OrderedBelow(Keys(heap), p)
        decreases |heap| - p
      {
        LinksDown(p);
        var right := elem.right;
        if right != null && Compare(left.timeout, right.timeout) > 0 {
          if Compare(elem.timeout, right.timeout) > 0 {
            StepDown(elem, right, true, p, 2 * p + 2);
            p := 2 * p + 2;
          } else {
            break;
          }
        } else {
          if Compare(elem.timeout, left.timeout) > 0 {
            StepDown(elem, left, false, p, 2 * p + 1);
            p := 2 * p + 1;
          } else {
            break;
          }
        }
        left := elem.left;
      }
      LinksDown(p);
      SettledBelow(Keys(heap), p);
    }

    // ----- add_to_heap and remove_from_heap -----

    /** A new element starts without links. */
    method ClearLinks(elem: Timer)
      requires Shape() && elem in timers && elem !in heap
      modifies elem`left, elem`right, elem`up
      ensures elem.left == null && elem.right == null && elem.up == null
      ensures Shape() && Keys(heap) == old(Keys(heap))
    {
      elem.left := null;
      elem.right := null;
      elem.up := null;
      forall k | 0 <= k < |heap|
        ensures LinkedAt(heap, k)
      {
        assert old(LinkedAt(heap, k));
      }
    }

    /** A new leaf hung into the empty slot found by FindNextPos. */
    method AppendLeaf(elem: Timer, parent: Timer, asLeft: bool, ghost j: int)
      requires Shape() && elem in timers && elem !in heap
      requires elem.left == elem.right == null
      requires 0 <= j < |heap| && parent == heap[j] && |heap| == if asLeft then 2 * j + 1 else 2 * j + 2
      modifies this`timerLast, this`heap, timers`left, timers`right, timers`up
      ensures heap == old(heap) + [elem] && Members(heap) == Members(old(heap)) + {elem}
      ensures Keys(heap) == old(Keys(heap)) + [elem.timeout]
      ensures Shape()
    {
      ghost var h := heap;
      if asLeft {
        parent.left := elem;
      } else {
        parent.right := elem;
      }
      elem.up := parent;
      timerLast := elem;
      heap := h + [elem];
      forall k | 0 <= k < |heap|
        ensures LinkedAt(heap, k)
      {
        if k < |h| {
          assert old(LinkedAt(h, k));
          assert heap[k] == h[k] && heap[k] != elem;
        }
      }
      assert h[0] != elem && old(LinkedAt(h, 0));
    }

    method AddToHeap(elem: Timer)
      requires Shape() && Ordered(Keys(heap)) && elem in timers && elem !in heap
      modifies this, timers`left, timers`right, timers`up
      ensures timers == old(timers) && |heap| == |old(heap)| + 1
      ensures Members(heap) == Members(old(heap)) + {elem}
      ensures Shape() && Ordered(Keys(heap))
    {
      ClearLinks(elem);
      if timerTop == null {
        timerTop := elem;
        timerLast := elem;
        heap := [elem];
        return;
      }
      var parent, asLeft, j := FindNextPos(timerLast);
      AppendOrder(Keys(heap), j, elem.timeout);
      AppendLeaf(elem, parent, asLeft, j);
      if Compare(elem.timeout, parent.timeout) < 0 {
        SendUp(elem, |heap| - 1);
      }
    }

    /** The last leaf cut off its parent (ser2net/selector.c:607-622); the node before it becomes the last. */
    method CutLast() returns (leaf: Timer)
      requires Shape() && |heap| > 1
      modifies this`timerLast, timers`left, timers`right
      ensures leaf == heap[|heap| - 1] && timerLast == heap[|heap| - 2]
      ensures Linked(heap[..|heap| - 1])
    {
      ghost var h := heap;
      ghost var n := |h|;
      leaf := timerLast;
      ghost var j := LinksUp(n - 1);
      var prev := FindPrevElem(leaf);
      timerLast := prev;
      if leaf.up.left == leaf {
        leaf.up.left := null;
      } else {
        leaf.up.right := null;
      }
      ghost var kept := h[..n - 1];
      forall k | 0 <= k < |kept|
        ensures LinkedAt(kept, k)
      {
        assert old(LinkedAt(h, k));
      }
    }

    method DetachLast() returns (leaf: Timer)
      requires Shape() && |heap| > 1
      modifies this`timerLast, this`heap, timers`left, timers`right
      ensures leaf == old(heap)[|old(heap)| - 1] && heap == old(heap)[..|old(heap)| - 1] && leaf !in heap
      ensures Members(heap) == Members(old(heap)) - {leaf} && Keys(heap) == old(Keys(heap))[..|old(heap)| - 1]
      ensures Shape()
    {
      ghost var h := heap;
      leaf := CutLast();
      heap := heap[..|heap| - 1];
      assert h == heap + [leaf];
    }

    /** The pointer surgery that puts leaf into the place of elem (ser2net/selector.c:631-650). */
    method TakeOver(elem: Timer, leaf: Timer, ghost i: int)
      requires Shape() && 0 <= i < |heap| && heap[i] == elem && leaf in timers && leaf !in heap
      modifies this`timerTop, this`timerLast, timers`left, timers`right, timers`up
      ensures leaf.up == old(elem.up) && leaf.left == old(elem.left) && leaf.right == old(elem.right)
      ensures timerTop == Over(old(timerTop), elem, leaf) && timerLast == Over(old(timerLast), elem, leaf)
      ensures forall k :: 0 <= k < |heap| && k != i ==>
        && heap[k].left == Over(old(heap[k].left), elem, leaf)
        && heap[k].right == Over(old(heap[k].right), elem, leaf)
        && heap[k].up == Over(old(heap[k].up), elem, leaf)
    {
      hide Linked, LinkedAt;
      LinksDown(i);
      if i > 0 {
        ghost var j := LinksUp(i);
      }
      forall k | 0 <= k < |heap| ensures Mutual(heap[k]) { MutualLinks(k); }
      if elem.up != null {
        if elem.up.left == elem {
          elem.up.left := leaf;
        } else {
          elem.up.right := leaf;
        }
      } else {
        timerTop := leaf;
      }
      leaf.up := elem.up;
      if elem.left != null { elem.left.up := leaf; }
      if elem.right != null { elem.right.up := leaf; }
      leaf.left := elem.left;
      leaf.right := elem.right;
      if timerLast == elem {
        timerLast := leaf;
      }
      forall k | 0 <= k < |heap| && k != i
        ensures heap[k].left == Over(old(heap[k].left), elem, leaf)
        ensures heap[k].right == Over(old(heap[k].right), elem, leaf)
        ensures heap[k].up == Over(old(heap[k].up), elem, leaf)
      {
        assert old(Mutual(heap[k]));
      }
    }

    method ReplaceNode(elem: Timer, leaf: Timer, ghost i: int)
      requires Shape() && 0 <= i < |heap| && heap[i] == elem && leaf in timers && leaf !in heap
      modifies this, timers`left, timers`right, timers`up
      ensures heap == old(heap)[i := leaf] && timers == old(timers)
      ensures Members(heap) == Members(old(heap)) - {elem} + {leaf} && Keys(heap) == old(Keys(heap))[i := leaf.timeout]
      ensures Shape()
    {
      ghost var h := heap;
      TakeOver(elem, leaf, i);
      assert heap == h;
      ReplaceMembers(h, i, leaf);
      heap := h[i := leaf];
      forall k | 0 <= k < |heap|
        ensures LinkedAt(heap, k)
      {
        assert old(LinkedAt(h, k));
      }
    }

    method RemoveFromHeap(elem: Timer, ghost i: int)
      requires Shape() && Ordered(Keys(heap)) && 0 <= i < |heap| && heap[i] == elem
      modifies this, timers`left, timers`right, timers`up
      ensures timers == old(timers) && |heap| == |old(heap)| - 1
      ensures Members(heap) == Members(old(heap)) - {elem}
      ensures Shape() && Ordered(Keys(heap))
    {
      RootIsFirst(|heap| - 1);
      if timerLast.up == null {
        timerTop := null;
        timerLast := null;
        heap := [];
        return;
      }
      PrefixOrder(Keys(heap), |heap| - 1);
      var toInsert := DetachLast();
      if elem != toInsert {
        Substitute(elem, toInsert, i);
      }
    }

    /** leaf takes the place of elem and settles (ser2net/selector.c:629-659). */
    method Substitute(elem: Timer, leaf: Timer, ghost i: int)
      requires Shape() && Ordered(Keys(heap)) && 0 <= i < |heap| && heap[i] == elem && leaf in timers && leaf !in heap
      modifies this, timers`left, timers`right, timers`up
      ensures timers == old(timers) && |heap| == |old(heap)|
      ensures Members(heap) == Members(old(heap)) - {elem} + {leaf}
      ensures Shape() && Ordered(Keys(heap))
    {
      ReplaceOrder(Keys(heap), i, leaf.timeout);
      ReplaceNode(elem, leaf, i);
      Resettle(leaf, i);
    }

    lemma RootIsFirst(k: int)
      requires Shape() && 0 <= k < |heap|
      ensures heap[k].up == null <==> k == 0
    {
      if k > 0 {
        var j := LinksUp(k);
      }
    }

    /** The node put into position i moves up or down to its right place. */
    method Resettle(elem: Timer, ghost i: int)
      requires Shape() && 0 <= i < |heap| && heap[i] == elem
      requires i > 0 && Earlier(elem.timeout, heap[Parent(i)].timeout) ==> OrderedAbove(Keys(heap), i)
      requires i == 0 || !Earlier(elem.timeout, heap[Parent(i)].timeout) ==> OrderedBelow(Keys(heap), i)
      modifies this, timers`left, timers`right, timers`up
      ensures timers == old(timers) && |heap| == |old(heap)| && Members(heap) == Members(old(heap))
      ensures Shape() && Ordered(Keys(heap))
    {
      LinksDown(i);
      if i > 0 {
        ghost var j := LinksUp(i);
        assert j == Parent(i);
      }
      if elem.up != null && Compare(elem.timeout, elem.up.timeout) < 0 {
        SendUp(elem, i);
      } else {
        SendDown(elem, i);
      }
    }

    // ----- The tree from timerTop -----

    /** The node reached from timerTop by a string of turns, false for left and true for right. */
    ghost function Walk(turns: seq<bool>): Timer?
      reads this, timers
    {
      if turns == [] then
        timerTop
      else
        var above := Walk(turns[..|turns| - 1]);
        if above == null || above !in timers then null
        else if turns[|turns| - 1] then above.right
        else above.left
    }

    /** Complete binary tree: a string of turns leads to a node exactly when its level-order number is taken. */
    lemma {:induction false} WalkIsSlot(turns: seq<bool>)
      requires Shape()
      ensures Walk(turns) == Slot(heap, Number(turns))
    {
      if turns != [] {
        var init := turns[..|turns| - 1];
        WalkIsSlot(init);
        if Number(init) < |heap| {
          LinksDown(Number(init));
        }
      }
    }

    /** A timer is in the heap exactly when the links from timerTop lead to it. */
    lemma ReachableIffMember(t: Timer)
      requires Shape()
      ensures t in heap <==> exists turns :: Walk(turns) == t
    {
      if t in heap {
        var k :| 0 <= k < |heap| && heap[k] == t;
        NumberOfTurns(k);
        WalkIsSlot(Turns(k));
      }
      forall turns | Walk(turns) == t
        ensures t in heap
      {
        WalkIsSlot(turns);
      }
    }

    // ----- The public timer operations -----

    ghost predicate Valid()
      reads this, timers, heap
    {
      && Shape()
      && Ordered(Keys(heap))
      && forall t :: t in timers ==> (t.inHeap <==> t in heap)
    }

    constructor ()
      ensures Valid() && timers == {} && heap == []
    {
      timerTop, timerLast := null, null;
      heap, timers := [], {};
    }

    method AllocTimer() returns (t: Timer)
      requires Valid()
      modifies this
      ensures Valid() && fresh(t) && timers == old(timers) + {t} && heap == old(heap)
    {
      t := new Timer();
      timers := timers + {t};
      forall k | 0 <= k < |heap|
        ensures LinkedAt(heap, k)
      {
        assert old(LinkedAt(heap, k));
      }
    }

    method SetTimeout(t: Timer, timeout: TimeVal)
      requires Shape() && t !in heap
      modifies t`timeout
      ensures Shape() && Keys(heap) == old(Keys(heap)) && t.timeout == timeout
    {
      t.timeout := timeout;
      forall k | 0 <= k < |heap|
        ensures LinkedAt(heap, k)
      {
        assert old(LinkedAt(heap, k));
      }
    }

    method SetInHeap(t: Timer, flag: bool)
      requires Shape()
      modifies t`inHeap
      ensures Shape() && Keys(heap) == old(Keys(heap)) && t.inHeap == flag
    {
      t.inHeap := flag;
      forall k | 0 <= k < |heap|
        ensures LinkedAt(heap, k)
      {
        assert old(LinkedAt(heap, k));
      }
    }

    /** False, and no change, when the timer is already running (EBUSY). */
    method StartTimer(t: Timer, timeout: TimeVal) returns (ok: bool)
      requires Valid() && t in timers
      modifies this, timers
      ensures Valid() && timers == old(timers)
      ensures ok <==> t !in old(heap)
      ensures Members(heap) == Members(old(heap)) + {t} && |heap| == |old(heap)| + (if ok then 1 else 0)
      ensures forall u :: u in timers ==> u.timeout == if u == t && ok then timeout else old(u.timeout)
    {
      if t.inHeap {
        return false;
      }
      SetTimeout(t, timeout);
      AddToHeap(t);
      SetInHeap(t, true);
      forall u | u in timers
        ensures u.inHeap <==> u in heap
      {
        assert u in Members(heap) <==> u in Members(old(heap)) + {t};
      }
      return true;
    }

    /** False, and no change, when the timer is not running (ETIMEDOUT). */
    method StopTimer(t: Timer) returns (ok: bool)
      requires Valid() && t in timers
      modifies this, timers
      ensures Valid() && timers == old(timers)
      ensures ok <==> t in old(heap)
      ensures Members(heap) == Members(old(heap)) - {t} && |heap| == |old(heap)| - (if ok then 1 else 0)
      ensures forall u :: u in timers ==> u.timeout == old(u.timeout)
    {
      if !t.inHeap {
        return false;
      }
      ghost var i :| 0 <= i < |heap| && heap[i] == t;
      RemoveFromHeap(t, i);
      SetInHeap(t, false);
      forall u | u in timers
        ensures u.inHeap <==> u in heap
      {
        assert u in Members(heap) <==> u in Members(old(heap)) - {t};
      }
      return true;
    }

    lemma TopIsEarliest(k: int)
      requires Valid() && 0 <= k < |heap|
      ensures timerTop != null && timerTop == heap[0] && !Earlier(heap[k].timeout, timerTop.timeout)
    {
      RootEarliest(Keys(heap), k);
    }
  }

  /** The transposition of a and b. */
  ghost function Other(t: Timer?, a: Timer, b: Timer): Timer? {
    if t == a then b else if t == b then a else t
  }

  ghost function Swapped(t: Timer, a: Timer, b: Timer): Timer {
    if t == a then b else if t == b then a else t
  }

  /** LinkedAt with every node read through the transposition of a and b. */
  ghost predicate LinkedThrough(h: seq<Timer>, k: int, a: Timer, b: Timer)
    requires 0 <= k < |h|
    reads h, a, b
  {
    var t := Swapped(h[k], a, b);
    && t.left == Other(Slot(h, 2 * k + 1), a, b)
    && t.right == Other(Slot(h, 2 * k + 2), a, b)
    && (2 * k + 1 < |h| ==> Swapped(h[2 * k + 1], a, b).up == t)
    && (2 * k + 2 < |h| ==> Swapped(h[2 * k + 2], a, b).up == t)
  }

  lemma LinkedThroughExchange(h: seq<Timer>, p: int, c: int)
    requires 0 <= p < c < |h| && Distinct(h)
    requires forall k :: 0 <= k < |h| ==> LinkedThrough(h, k, h[c], h[p])
    requires Swapped(h[0], h[c], h[p]).up == null
    ensures var h' := Exchange(h, p, c); Distinct(h') && Linked(h') && Members(h') == Members(h)
  {
    var h' := Exchange(h, p, c);
    assert forall k :: 0 <= k < |h| ==> h'[k] == Swapped(h[k], h[c], h[p]);
    forall k | 0 <= k < |h'|
      ensures LinkedAt(h', k)
    {
      assert LinkedThrough(h, k, h[c], h[p]);
    }
    assert h'[p] == h[c] && h'[c] == h[p];
    assert forall k :: 0 <= k < |h| && k != p && k != c ==> h'[k] == h[k];
    forall t | t in Members(h)
      ensures t in Members(h')
    {
      var k :| 0 <= k < |h| && h[k] == t;
      assert h'[if k == p then c else if k == c then p else k] == t;
    }
  }

  lemma ExchangedEnds(h: seq<Timer>, p: int, c: int)
    requires 0 <= p < c < |h| && Distinct(h)
    ensures var h' := Exchange(h, p, c);
      && Slot(h', 0) == Other(Slot(h, 0), h[c], h[p])
      && Slot(h', |h'| - 1) == Other(Slot(h, |h| - 1), h[c], h[p])
  {
  }

  /** Exchanging position c with its later parent moves the only unordered edge one level up. */
  lemma ExchangeUpOrder(ks: seq<TimeVal>, p: int, c: int)
    requires 0 <= p && (c == 2 * p + 1 || c == 2 * p + 2) && c < |ks|
    requires OrderedAbove(ks, c) && Earlier(ks[c], ks[p])
    ensures OrderedAbove(Exchange(ks, p, c), p)
  {
    var ks' := Exchange(ks, p, c);
    forall k | 1 <= k < |ks'|
      ensures k != p ==> EdgeOk(ks', k)
      ensures Parent(k) == p && 1 <= p ==> FitsAbove(ks', k, p)
    {
      assert k != c ==> EdgeOk(ks, k);
      assert p >= 1 ==> EdgeOk(ks, p);
      assert Parent(k) == c ==> FitsAbove(ks, k, c);
    }
  }

  /** Exchanging position p with the earlier of its children moves the unordered edges one level down. */
  lemma ExchangeDownOrder(ks: seq<TimeVal>, p: int, c: int)
    requires 0 <= p && (c == 2 * p + 1 || c == 2 * p + 2) && c < |ks|
    requires OrderedBelow(ks, p) && Earlier(ks[c], ks[p])
    requires 2 * p + 1 < |ks| ==> !Earlier(ks[2 * p + 1], ks[c])
    requires 2 * p + 2 < |ks| ==> !Earlier(ks[2 * p + 2], ks[c])
    ensures OrderedBelow(Exchange(ks, p, c), c)
  {
    var ks' := Exchange(ks, p, c);
    forall k | 1 <= k < |ks'|
      ensures Parent(k) != c ==> EdgeOk(ks', k)
      ensures Parent(k) == c ==> FitsAbove(ks', k, c)
    {
      if Parent(k) == p {
        assert k == 2 * p + 1 || k == 2 * p + 2;
        assert 1 <= p ==> FitsAbove(ks, k, p);
      } else {
        assert EdgeOk(ks, k);
      }
      assert 1 <= p ==> FitsAbove(ks, c, p);
    }
  }

  lemma SettledBelow(ks: seq<TimeVal>, p: int)
    requires 0 <= p < |ks| && OrderedBelow(ks, p)
    requires 2 * p + 1 < |ks| ==> !Earlier(ks[2 * p + 1], ks[p])
    requires 2 * p + 2 < |ks| ==> !Earlier(ks[2 * p + 2], ks[p])
    ensures Ordered(ks)
  {
    forall k | 1 <= k < |ks|
      ensures EdgeOk(ks, k)
    {
      assert Parent(k) == p ==> k == 2 * p + 1 || k == 2 * p + 2;
    }
  }

  lemma AppendOrder(ks: seq<TimeVal>, j: int, key: TimeVal)
    requires Ordered(ks) && 0 <= j < |ks| && (|ks| == 2 * j + 1 || |ks| == 2 * j + 2)
    ensures OrderedAbove(ks + [key], |ks|)
    ensures !Earlier(key, ks[j]) ==> Ordered(ks + [key])
  {
    assert Parent(|ks|) == j;
    forall k | 1 <= k < |ks| + 1 && k != |ks|
      ensures EdgeOk(ks + [key], k)
    {
      assert EdgeOk(ks, k);
    }
  }

  lemma PrefixOrder(ks: seq<TimeVal>, n: int)
    requires 0 <= n <= |ks| && Ordered(ks)
    ensures Ordered(ks[..n])
  {
    forall k | 1 <= k < n
      ensures EdgeOk(ks[..n], k)
    {
      assert EdgeOk(ks, k);
    }
  }

  /** A new key at position i leaves it misplaced in one direction only. */
  lemma ReplaceOrder(ks: seq<TimeVal>, i: int, key: TimeVal)
    requires 0 <= i < |ks| && Ordered(ks)
    ensures i > 0 && Earlier(key, ks[Parent(i)]) ==> OrderedAbove(ks[i := key], i)
    ensures i == 0 || !Earlier(key, ks[Parent(i)]) ==> OrderedBelow(ks[i := key], i)
  {
    var ks' := ks[i := key];
    forall k | 1 <= k < |ks|
      ensures k != i && Parent(k) != i ==> EdgeOk(ks', k)
      ensures Parent(k) == i && i > 0 ==> FitsAbove(ks', k, i)
      ensures Parent(k) == i && i > 0 && Earlier(key, ks[Parent(i)]) ==> EdgeOk(ks', k)
    {
      assert EdgeOk(ks, k);
      assert i > 0 ==> EdgeOk(ks, i);
    }
    assert i > 0 && !Earlier(key, ks[Parent(i)]) ==> EdgeOk(ks', i);
  }

  /** The substitution of b for a. */
  ghost function Over(t: Timer?, a: Timer, b: Timer): Timer? {
    if t == a then b else t
  }

  lemma ReplaceMembers(h: seq<Timer>, i: int, t: Timer)
    requires 0 <= i < |h| && Distinct(h) && t !in h
    ensures Members(h[i := t]) == Members(h) - {h[i]} + {t}
  {
    forall x | x in Members(h) - {h[i]} + {t}
      ensures x in h[i := t]
    {
      if x == t {
        assert h[i := t][i] == t;
      } else {
        var k :| 0 <= k < |h| && h[k] == x;
        assert h[i := t][k] == x;
      }
    }
  }

  lemma {:induction false} RootEarliest(ks: seq<TimeVal>, k: int)
    requires Ordered(ks) && 0 <= k < |ks|
    ensures !Earlier(ks[k], ks[0])
    decreases k
  {
    if k > 0 {
      RootEarliest(ks, Parent(k));
      assert EdgeOk(ks, k);
    }
  }

  // ----- Level-order numbers -----

  /** The level-order number of the place a string of turns leads to. */
  ghost function Number(turns: seq<bool>): (n: nat) {
    if turns == [] then 0
    else 2 * Number(turns[..|turns| - 1]) + if turns[|turns| - 1] then 2 else 1
  }

  ghost function Turns(k: nat): seq<bool> {
    if k == 0 then [] else Turns(Parent(k)) + [k % 2 == 0]
  }

  lemma {:induction false} NumberOfTurns(k: nat)
    ensures Number(Turns(k)) == k
  {
    if k > 0 {
      var p: nat := Parent(k);
      var turns, right := Turns(p), k % 2 == 0;
      assert k == 2 * p + if right then 2 else 1;
      NumberOfTurns(p);
      assert Turns(k) == turns + [right] && (turns + [right])[..|turns|] == turns;
    }
  }

  // Level-order places, counted from one, reached from place i by going down u levels along one edge of the tree.

  ghost function Leftmost(i: nat, u: nat): nat
    decreases u
  {
    if u == 0 then i else Leftmost(2 * i, u - 1)
  }

  ghost function Rightmost(i: nat, u: nat): nat
    decreases u
  {
    if u == 0 then i else Rightmost(2 * i + 1, u - 1)
  }

  /** The right edge below place i is followed, in level order, by the left edge below place i + 1. */
  lemma {:induction false} NextLeftmost(i: nat, u: nat)
    ensures Leftmost(i + 1, u) == Rightmost(i, u) + 1
    decreases u
  {
    if u > 0 {
      NextLeftmost(2 * i + 1, u - 1);
    }
  }

  lemma {:induction false} LeftmostGrows(i: nat, u: nat)
    ensures i <= Leftmost(i, u)
    decreases u
  {
    if u > 0 {
      LeftmostGrows(2 * i, u - 1);
    }
  }

  lemma {:induction false} RightmostGrows(i: nat, u: nat)
    ensures i <= Rightmost(i, u)
    decreases u
  {
    if u > 0 {
      RightmostGrows(2 * i + 1, u - 1);
    }
  }
}
