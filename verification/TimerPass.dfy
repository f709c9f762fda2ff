/**
  The timer part of one pass of sel_select_loop (ser2net/selector.c:742-769): due timers are removed and
  their handlers called until the earliest timer left is in the future.
*/
module TimerPass {
  import opened TimeVals
  import opened TimerHeap

  /** What a handler asks of the selector while it runs. */
  datatype Request = Start(timer: Timer, timeout: TimeVal) | Stop(timer: Timer)

  datatype Wait = Forever | For(time: TimeVal)

  type Timeouts = map<Timer, TimeVal>

  /** All running timers with their timeouts. */
  ghost function Running(sel: Selector): Timeouts
    reads sel, sel.heap
  {
    map t | t in sel.heap :: t.timeout
  }

  /** A running timer is not started again, and a stopped one does not run. */
  ghost function Served(m: Timeouts, r: Request): Timeouts {
    match r
    case Start(t, timeout) => if t in m then m else m[t := timeout]
    case Stop(t) => m - {t}
  }

  ghost function ServedAll(m: Timeouts, requests: seq<Request>): Timeouts
    decreases |requests|
  {
    if requests == [] then m else Served(ServedAll(m, requests[..|requests| - 1]), requests[|requests| - 1])
  }

  /** The running timers after these have fired one by one, each with the requests of its handler behind it. */
  ghost function Played(m: Timeouts, fired: seq<Timer>, handler: nat -> seq<Request>): Timeouts
    decreases |fired|
  {
    if fired == [] then m
    else
      var n := |fired| - 1;
      ServedAll(Played(m, fired[..n], handler) - {fired[n]}, handler(n))
  }

  lemma PlayedOneMore(m: Timeouts, fired: seq<Timer>, handler: nat -> seq<Request>, timer: Timer)
    ensures Played(m, fired + [timer], handler) == ServedAll(Played(m, fired, handler) - {timer}, handler(|fired|))
  {
    assert (fired + [timer])[..|fired|] == fired;
  }

  /** The timers that are due by a time, with their timeouts. */
  ghost function Pending(m: Timeouts, horizon: TimeVal): Timeouts {
    map t | t in m && !Earlier(horizon, m[t]) :: m[t]
  }

  /** Handlers know only this selector's timers and restart them strictly after the horizon. */
  ghost predicate LaterOnly(sel: Selector, requests: seq<Request>, horizon: TimeVal)
    reads sel
  {
    Known(sel, requests) && StartsLater(requests, horizon)
  }

  ghost predicate Known(sel: Selector, requests: seq<Request>)
    reads sel
  {
    forall r <- requests :: r.timer in sel.timers
  }

  ghost predicate StartsLater(requests: seq<Request>, horizon: TimeVal) {
    forall r <- requests :: r.Start? ==> Earlier(horizon, r.timeout)
  }

  ghost function Stopped(requests: seq<Request>): set<Timer> {
    set r | r in requests && r.Stop? :: r.timer
  }

  lemma PendingServedOne(m: Timeouts, r: Request, horizon: TimeVal)
    requires r.Start? ==> Earlier(horizon, r.timeout)
    ensures Pending(Served(m, r), horizon) == Pending(m, horizon) - if r.Stop? then {r.timer} else {}
  {
  }

  /** Of the timers due by the horizon exactly the stopped leave. */
  lemma {:induction false} PendingServed(m: Timeouts, requests: seq<Request>, horizon: TimeVal)
    requires StartsLater(requests, horizon)
    ensures Pending(ServedAll(m, requests), horizon) == Pending(m, horizon) - Stopped(requests)
    decreases |requests|
  {
    if requests == [] {
      assert Stopped(requests) == {};
    } else {
      var front, last := requests[..|requests| - 1], requests[|requests| - 1];
      assert requests == front + [last] && last in requests;
      PendingServed(m, front, horizon);
      PendingServedOne(ServedAll(m, front), last, horizon);
      assert Stopped(requests) == Stopped(front) + if last.Stop? then {last.timer} else {};
    }
  }

  // ----- What the requests make of one timer -----

  /** No request from index i on is about the timer. */
  ghost predicate Untouched(requests: seq<Request>, i: nat, t: Timer) {
    forall j :: i <= j < |requests| ==> requests[j].timer != t
  }

  /** Requests about other timers leave a timer as it is. */
  lemma {:induction false} ServedOthers(m: Timeouts, requests: seq<Request>, i: nat, t: Timer)
    requires i <= |requests| && Untouched(requests, i, t)
    ensures var before, after := ServedAll(m, requests[..i]), ServedAll(m, requests);
            (t in after <==> t in before) && (t in after ==> after[t] == before[t])
    decreases |requests|
  {
    if i == |requests| {
      assert requests[..i] == requests;
    } else {
      var front := requests[..|requests| - 1];
      assert front[..i] == requests[..i];
      ServedOthers(m, front, i, t);
    }
  }

  /**
    The last request about a timer decides: it runs exactly if that is a start, with the timeout of that start unless it
    was running before it.
  */
  lemma LastDecides(m: Timeouts, requests: seq<Request>, i: nat)
    requires i < |requests| && Untouched(requests, i + 1, requests[i].timer)
    ensures var t := requests[i].timer;
            var before, after := ServedAll(m, requests[..i]), ServedAll(m, requests);
            && (t in after <==> requests[i].Start?)
            && (t in after ==> after[t] == if t in before then before[t] else requests[i].timeout)
  {
    assert requests[..i + 1][..i] == requests[..i];
    ServedOthers(m, requests, i + 1, requests[i].timer);
  }

  /** The running timers right before request i of the k-th handler call. */
  ghost function BeforeRequest(m: Timeouts, fired: seq<Timer>, handler: nat -> seq<Request>, k: nat, i: nat): Timeouts
    requires k < |fired| && i <= |handler(k)|
  {
    ServedAll(Played(m, fired[..k], handler) - {fired[k]}, handler(k)[..i])
  }

  /** A start of a timer that does not run then, and that no later request is about. */
  ghost predicate LastStart(m: Timeouts, fired: seq<Timer>, handler: nat -> seq<Request>, k: nat, i: nat) {
    && k < |fired| && i < |handler(k)| && handler(k)[i].Start?
    && handler(k)[i].timer !in BeforeRequest(m, fired, handler, k, i)
    && Untouched(handler(k), i + 1, handler(k)[i].timer)
    && forall h: nat :: k < h < |fired| ==> Untouched(handler(h), 0, handler(k)[i].timer)
  }

  /** A timer that is not fired and of which no handler asks anything stays as it is. */
  lemma {:induction false} OthersKept(m: Timeouts, fired: seq<Timer>, handler: nat -> seq<Request>, t: Timer)
    requires t !in fired && forall h: nat :: h < |fired| ==> Untouched(handler(h), 0, t)
    ensures t in Played(m, fired, handler) <==> t in m
    ensures t in m ==> Played(m, fired, handler)[t] == m[t]
    decreases |fired|
  {
    if fired != [] {
      var n := |fired| - 1;
      OthersKept(m, fired[..n], handler, t);
      ServedOthers(Played(m, fired[..n], handler) - {fired[n]}, handler(n), 0, t);
    }
  }

  // ----- The loop -----

  method ServeOne(sel: Selector, r: Request)
    requires sel.Valid() && r.timer in sel.timers
    modifies sel, sel.timers
    ensures sel.Valid() && sel.timers == old(sel.timers)
    ensures Running(sel) == Served(old(Running(sel)), r)
  {
    hide Linked, Distinct, Ordered;
    match r {
      case Start(t, timeout) =>
        var ok := sel.StartTimer(t, timeout);
        forall u | u in sel.timers
          ensures u in sel.heap <==> u in old(sel.heap) || u == t
        {
          assert u in Members(sel.heap) <==> u in Members(old(sel.heap)) || u == t;
        }
      case Stop(t) =>
        var ok := sel.StopTimer(t);
        forall u | u in sel.timers
          ensures u in sel.heap <==> u in old(sel.heap) && u != t
        {
          assert u in Members(sel.heap) <==> u in Members(old(sel.heap)) && u != t;
        }
    }
  }

  /** One handler call: all its requests, in order. */
  method Serve(sel: Selector, requests: seq<Request>)
    requires sel.Valid() && Known(sel, requests)
    modifies sel, sel.timers
    ensures sel.Valid() && sel.timers == old(sel.timers)
    ensures Running(sel) == ServedAll(old(Running(sel)), requests)
  {
    var i := 0;
    while i < |requests|
      invariant 0 <= i <= |requests|
      invariant sel.Valid() && sel.timers == old(sel.timers)
      invariant Running(sel) == ServedAll(old(Running(sel)), requests[..i])
    {
      assert requests[..i + 1][..i] == requests[..i] && requests[i] in requests;
      ServeOne(sel, requests[i]);
      i := i + 1;
    }
    assert requests[..i] == requests;
  }

  /** One turn of the loop: the earliest timer leaves the heap, then its handler runs. */
  method FireTop(sel: Selector, requests: seq<Request>) returns (timer: Timer)
    requires sel.Valid() && sel.heap != [] && Known(sel, requests)
    modifies sel, sel.timers
    ensures sel.Valid() && sel.timers == old(sel.timers)
    ensures timer == old(sel.timerTop) && timer in old(Running(sel))
    ensures forall t :: t in old(Running(sel)) ==> !Earlier(old(Running(sel))[t], old(timer.timeout))
    ensures Running(sel) == ServedAll(old(Running(sel)) - {timer}, requests)
  {
    hide Linked, Distinct, Ordered;
    sel.TopIsEarliest(0);
    timer := sel.timerTop;
    forall t | t in sel.heap
      ensures !Earlier(t.timeout, timer.timeout)
    {
      var k :| 0 <= k < |sel.heap| && sel.heap[k] == t;
      sel.TopIsEarliest(k);
    }
    var ok := sel.StopTimer(timer);
    forall u | u in sel.timers
      ensures u in sel.heap <==> u in old(sel.heap) && u != timer
    {
      assert u in Members(sel.heap) <==> u in Members(old(sel.heap)) && u != timer;
    }
    assert Running(sel) == old(Running(sel)) - {timer};
    Serve(sel, requests);
  }

  lemma TopIsFirst(sel: Selector)
    requires sel.Valid()
    ensures sel.timerTop == null <==> sel.heap == []
    ensures forall t :: t in sel.heap ==> sel.timerTop in sel.heap && !Earlier(t.timeout, sel.timerTop.timeout)
  {
    forall t | t in sel.heap
      ensures sel.timerTop in sel.heap && !Earlier(t.timeout, sel.timerTop.timeout)
    {
      var k :| 0 <= k < |sel.heap| && sel.heap[k] == t;
      sel.TopIsEarliest(k);
    }
  }

  // ----- What a pass keeps -----

  /** Some handler call below number n asked for the timer to be stopped. */
  ghost predicate StoppedBy(handler: nat -> seq<Request>, n: nat, t: Timer) {
    exists k: nat :: k < n && t in Stopped(handler(k))
  }

  /** What was pending is fired, once, or was stopped, or is still pending. */
  ghost predicate Conserved(start: Timeouts, now: Timeouts, fired: seq<Timer>,
                            handler: nat -> seq<Request>) {
    && (forall t :: t in now ==> t in start && now[t] == start[t] && t !in fired)
    && (forall t :: t in start ==> t in now || t in fired || StoppedBy(handler, |fired|, t))
    && Distinct(fired)
  }

  /** What is fired was pending, and due by its own clock reading. */
  ghost predicate FiredDue(start: Timeouts, fired: seq<Timer>, clock: nat -> TimeVal) {
    forall k :: 0 <= k < |fired| ==> fired[k] in start && !Earlier(clock(k), start[fired[k]])
  }

  /** Timers fire in timeout order, and before those still pending. */
  ghost predicate InOrder(start: Timeouts, now: Timeouts, fired: seq<Timer>)
    requires now.Keys <= start.Keys && forall k :: 0 <= k < |fired| ==> fired[k] in start
  {
    && (forall i, j :: 0 <= i < j < |fired| ==> !Earlier(start[fired[j]], start[fired[i]]))
    && (forall i, t :: 0 <= i < |fired| && t in now ==> !Earlier(start[t], start[fired[i]]))
  }

  /** How far a pass has come. */
  ghost predicate Progress(start: Timeouts, now: Timeouts, fired: seq<Timer>,
                           clock: nat -> TimeVal, handler: nat -> seq<Request>) {
    && Conserved(start, now, fired, handler)
    && FiredDue(start, fired, clock)
    && InOrder(start, now, fired)
  }

  lemma ConservedStep(start: Timeouts, now: Timeouts, fired: seq<Timer>,
                      handler: nat -> seq<Request>, timer: Timer)
    requires Conserved(start, now, fired, handler) && timer in now
    ensures Conserved(start, now - {timer} - Stopped(handler(|fired|)), fired + [timer], handler)
  {
    var n := |fired|;
    var left, more := now - {timer} - Stopped(handler(n)), fired + [timer];
    forall t | t in start
      ensures t in left || t in more || StoppedBy(handler, n + 1, t)
    {
      if StoppedBy(handler, n, t) {
        var k: nat :| k < n && t in Stopped(handler(k));
      } else if t in Stopped(handler(n)) {
        assert StoppedBy(handler, n + 1, t);
      }
    }
  }

  lemma InOrderStep(start: Timeouts, now: Timeouts, fired: seq<Timer>, timer: Timer, stopped: set<Timer>)
    requires (forall t :: t in now ==> t in start && now[t] == start[t]) && now.Keys <= start.Keys
    requires (forall k :: 0 <= k < |fired| ==> fired[k] in start) && InOrder(start, now, fired)
    requires timer in now && forall t :: t in now ==> !Earlier(now[t], now[timer])
    ensures InOrder(start, now - {timer} - stopped, fired + [timer])
  {
  }

  /** Firing the earliest pending timer when it is due, and losing the ones its handler stops, is progress. */
  lemma ProgressStep(start: Timeouts, now: Timeouts, fired: seq<Timer>,
                     clock: nat -> TimeVal, handler: nat -> seq<Request>, timer: Timer)
    requires Progress(start, now, fired, clock, handler) && timer in now
    requires forall t :: t in now ==> !Earlier(now[t], now[timer])
    requires !Earlier(clock(|fired|), now[timer])
    ensures Progress(start, now - {timer} - Stopped(handler(|fired|)), fired + [timer], clock, handler)
  {
    hide Stopped, StoppedBy, Distinct, InOrder;
    ConservedStep(start, now, fired, handler, timer);
    InOrderStep(start, now, fired, timer, Stopped(handler(|fired|)));
  }

  /** Each timer was running when it fired, due by the clock reading before it, and none was earlier. */
  ghost predicate FiredInTurn(m: Timeouts, fired: seq<Timer>, clock: nat -> TimeVal, handler: nat -> seq<Request>) {
    forall k :: 0 <= k < |fired| ==> InTurn(Played(m, fired[..k], handler), fired[k], clock(k))
  }

  ghost predicate InTurn(m: Timeouts, t: Timer, now: TimeVal) {
    t in m && !Earlier(now, m[t]) && forall u :: u in m ==> !Earlier(m[u], m[t])
  }

  lemma InTurnOneMore(m: Timeouts, fired: seq<Timer>, clock: nat -> TimeVal, handler: nat -> seq<Request>, t: Timer)
    requires FiredInTurn(m, fired, clock, handler) && InTurn(Played(m, fired, handler), t, clock(|fired|))
    ensures FiredInTurn(m, fired + [t], clock, handler)
  {
    var more := fired + [t];
    forall k | 0 <= k < |more|
      ensures InTurn(Played(m, more[..k], handler), more[k], clock(k))
    {
      assert more[..k] == fired[..k];
      assert k == |fired| ==> fired[..k] == fired;
    }
  }

  /** The loop itself: it ends with no timers, or with the earliest one later than the last clock reading. */
  method FireAllDue(sel: Selector, clock: nat -> TimeVal, handler: nat -> seq<Request>, ghost horizon: TimeVal)
    returns (fired: seq<Timer>)
    requires sel.Valid()
    requires forall k: nat :: !Earlier(horizon, clock(k)) && LaterOnly(sel, handler(k), horizon)
    modifies sel, sel.timers
    ensures sel.Valid() && sel.timers == old(sel.timers)
    ensures Running(sel) == Played(old(Running(sel)), fired, handler)
    ensures FiredInTurn(old(Running(sel)), fired, clock, handler)
    ensures Progress(Pending(old(Running(sel)), horizon), Pending(Running(sel), horizon), fired, clock, handler)
    ensures sel.timerTop != null ==> Earlier(clock(|fired|), sel.timerTop.timeout)
  {
    hide InTurn, Conserved, FiredDue, InOrder;
    fired := [];
    ghost var start := Running(sel);
    ProgressStart(Pending(start, horizon), clock, handler);
    while sel.timerTop != null && Compare(clock(|fired|), sel.timerTop.timeout) >= 0
      invariant sel.Valid() && sel.timers == old(sel.timers)
      invariant Running(sel) == Played(start, fired, handler) && FiredInTurn(start, fired, clock, handler)
      invariant Progress(Pending(start, horizon), Pending(Running(sel), horizon), fired, clock, handler)
      decreases Pending(Running(sel), horizon).Keys
    {
      ghost var running, now := Running(sel), clock(|fired|);
      var timer := FireTop(sel, handler(|fired|));
      FiredIsProgress(start, running, fired, clock, handler, timer, horizon);
      fired := fired + [timer];
    }
  }

  lemma ProgressStart(start: Timeouts, clock: nat -> TimeVal, handler: nat -> seq<Request>)
    ensures Progress(start, start, [], clock, handler)
  {
  }

  /** One turn of the loop, on the running timers. */
  lemma FiredIsProgress(m: Timeouts, running: Timeouts, fired: seq<Timer>, clock: nat -> TimeVal,
                        handler: nat -> seq<Request>, timer: Timer, horizon: TimeVal)
    requires running == Played(m, fired, handler) && FiredInTurn(m, fired, clock, handler)
    requires Progress(Pending(m, horizon), Pending(running, horizon), fired, clock, handler)
    requires timer in running && !Earlier(clock(|fired|), running[timer]) && !Earlier(horizon, clock(|fired|))
    requires forall t :: t in running ==> !Earlier(running[t], running[timer])
    requires StartsLater(handler(|fired|), horizon)
    ensures var after, more := ServedAll(running - {timer}, handler(|fired|)), fired + [timer];
            && after == Played(m, more, handler) && FiredInTurn(m, more, clock, handler)
            && Progress(Pending(m, horizon), Pending(after, horizon), more, clock, handler)
            && Pending(after, horizon).Keys < Pending(running, horizon).Keys
  {
    hide Progress, Played, FiredInTurn;
    PlayedOneMore(m, fired, handler, timer);
    InTurnOneMore(m, fired, clock, handler, timer);
    PendingServed(running - {timer}, handler(|fired|), horizon);
    ProgressStep(Pending(m, horizon), Pending(running, horizon), fired, clock, handler, timer);
    assert Pending(running - {timer}, horizon) == Pending(running, horizon) - {timer};
  }

  /**
    A timer whose last request is a start that takes effect runs at the end, with the timeout of that start: it is later
    than what fires in the pass.
  */
  lemma {:induction false} StartedRuns(m: Timeouts, fired: seq<Timer>, clock: nat -> TimeVal,
                                       handler: nat -> seq<Request>, horizon: TimeVal, k: nat, i: nat)
    requires forall h: nat :: !Earlier(horizon, clock(h)) && StartsLater(handler(h), horizon)
    requires FiredInTurn(m, fired, clock, handler) && LastStart(m, fired, handler, k, i)
    ensures var r := handler(k)[i];
            r.timer in Played(m, fired, handler) && Played(m, fired, handler)[r.timer] == r.timeout
    decreases |fired|
  {
    hide ServedAll, FiredInTurn, Earlier;
    var n, r := |fired| - 1, handler(k)[i];
    var front := fired[..n];
    if k == n {
      LastDecides(Played(m, front, handler) - {fired[n]}, handler(n), i);
    } else {
      FrontInTurn(m, fired, clock, handler);
      assert front[..k] == fired[..k] && front[k] == fired[k];
      StartedRuns(m, front, clock, handler, horizon, k, i);
      assert Untouched(handler(n), 0, r.timer) && r in handler(k);
      NotDue(horizon, clock(n), r.timeout);
      ServedNone(Played(m, front, handler) - {fired[n]}, handler(n));
      ServedOthers(Played(m, front, handler) - {fired[n]}, handler(n), 0, r.timer);
    }
  }

  lemma ServedNone(m: Timeouts, requests: seq<Request>)
    ensures ServedAll(m, requests[..0]) == m
  {
  }

  lemma NotDue(horizon: TimeVal, now: TimeVal, timeout: TimeVal)
    requires Earlier(horizon, timeout) && !Earlier(horizon, now)
    ensures Earlier(now, timeout)
  {
  }

  lemma FrontInTurn(m: Timeouts, fired: seq<Timer>, clock: nat -> TimeVal, handler: nat -> seq<Request>)
    requires FiredInTurn(m, fired, clock, handler) && fired != []
    ensures var n := |fired| - 1;
            FiredInTurn(m, fired[..n], clock, handler) && InTurn(Played(m, fired[..n], handler), fired[n], clock(n))
  {
    var n := |fired| - 1;
    forall k | 0 <= k < n
      ensures InTurn(Played(m, fired[..n][..k], handler), fired[..n][k], clock(k))
    {
      assert fired[..n][..k] == fired[..k];
    }
  }

  /** What a pass keeps, told of all running timers. */
  lemma PassEnds(start: Timeouts, now: Timeouts, fired: seq<Timer>, clock: nat -> TimeVal,
                 handler: nat -> seq<Request>, horizon: TimeVal)
    requires forall k: nat :: !Earlier(horizon, clock(k))
    requires Progress(Pending(start, horizon), Pending(now, horizon), fired, clock, handler)
    requires forall t :: t in now ==> Earlier(clock(|fired|), now[t])
    ensures Distinct(fired)
    ensures forall k :: 0 <= k < |fired| ==> fired[k] in start && !Earlier(clock(k), start[fired[k]])
    ensures forall i, j :: 0 <= i < j < |fired| ==> !Earlier(start[fired[j]], start[fired[i]])
    ensures forall t :: t in start && !Earlier(clock(|fired|), start[t]) ==>
      t in fired || StoppedBy(handler, |fired|, t)
  {
    hide Distinct, StoppedBy;
    forall t | t in start && !Earlier(clock(|fired|), start[t])
      ensures t in fired || StoppedBy(handler, |fired|, t)
    {
      assert t in Pending(start, horizon) && t !in Pending(now, horizon);
    }
  }

  /**
    One pass over the timers. clock(k) is the k-th reading of the clock, handler(k) what the k-th handler call does.
    No reading is later than the horizon and no handler restarts a timer at or before it.
  */
  method RunDueTimers(sel: Selector, clock: nat -> TimeVal, handler: nat -> seq<Request>, ghost horizon: TimeVal)
    returns (fired: seq<Timer>, wait: Wait)
    requires sel.Valid()
    requires forall k: nat :: !Earlier(horizon, clock(k)) && LaterOnly(sel, handler(k), horizon)
    modifies sel, sel.timers
    ensures sel.Valid() && sel.timers == old(sel.timers)
    // Each fired timer was running, fires once, and was due by its own clock reading; timers fire in timeout order.
    ensures Distinct(fired)
    ensures var start := old(Running(sel));
            && (forall k :: 0 <= k < |fired| ==> fired[k] in start && !Earlier(clock(k), start[fired[k]]))
            && (forall i, j :: 0 <= i < j < |fired| ==> !Earlier(start[fired[j]], start[fired[i]]))
            // Every timer due at the last clock reading has fired unless a handler stopped it.
            && forall t :: t in start && !Earlier(clock(|fired|), start[t]) ==>
                 t in fired || StoppedBy(handler, |fired|, t)
    // The timers that run at the end are those at the start, less the fired, with all requests served in their order.
    ensures FiredInTurn(old(Running(sel)), fired, clock, handler)
    ensures Running(sel) == Played(old(Running(sel)), fired, handler)
    // A timer whose last request is a start that takes effect is in the heap with the timeout of that start.
    ensures forall k: nat, i: nat :: LastStart(old(Running(sel)), fired, handler, k, i) ==>
      handler(k)[i].timer in sel.heap && handler(k)[i].timer.timeout == handler(k)[i].timeout
    // What is left is in the future, and the wait leads to the earliest of it.
    ensures wait.Forever? <==> sel.heap == []
    ensures forall t :: t in sel.heap ==>
      && Earlier(clock(|fired|), t.timeout)
      && sel.timerTop in sel.heap && !Earlier(t.timeout, sel.timerTop.timeout)
    ensures wait.For? ==>
      && sel.timerTop != null
      && wait.time.Micros() == sel.timerTop.timeout.Micros() - clock(|fired|).Micros()
  {
    hide Played, FiredInTurn, Progress, Linked, Ordered, Distinct, StoppedBy, Pending, Untouched, BeforeRequest;
    ghost var start := Running(sel);
    fired := FireAllDue(sel, clock, handler, horizon);
    TopIsFirst(sel);
    ghost var now := Running(sel);
    assert forall t :: t in now ==> Earlier(clock(|fired|), now[t]);
    PassEnds(start, now, fired, clock, handler, horizon);
    forall k: nat, i: nat | LastStart(start, fired, handler, k, i)
      ensures handler(k)[i].timer in now && now[handler(k)[i].timer] == handler(k)[i].timeout
    {
      StartedRuns(start, fired, clock, handler, horizon, k, i);
    }
    if sel.timerTop == null {
      assert sel.heap == [];
      wait := Forever;
    } else {
      var time := Difference(sel.timerTop.timeout, clock(|fired|));
      wait := For(time);
    }
  }
}
