/**
  The coincidence-window event queue of vme/UnpackVF48A.cxx. Each frame of a group is put into the module record of
  the first buffered event near enough in time, or of a new event. Events leave from the front, in order, when they
  or a later one are complete, on a flush, or when too many incomplete ones are waiting.
*/
module Vf48Events {

  const MAX_MODULES: nat := 22

  function Distance(x: real, y: real): real { if x < y then y - x else x - y }

  // What decides whether a module is complete: the groups that have delivered a channel.
  datatype Module = Module(completeGroups: set<nat>, complete: bool)

  class Event {
    const eventNo: nat
    const timestamp: real
    var complete: bool
    var modulesMask: set<nat>
    var modules: map<nat, Module>

    constructor (eventNo: nat, timestamp: real)
      ensures this.eventNo == eventNo && this.timestamp == timestamp
      ensures !complete && modulesMask == {} && modules == map[]
    {
      this.eventNo, this.timestamp := eventNo, timestamp;
      complete, modulesMask, modules := false, {}, map[];
    }

    ghost predicate Finished(unit: nat)
      reads this
    {
      unit in modules && modules[unit].complete
    }
  }

  ghost predicate Consecutive(buffer: seq<Event>, delivered: nat) {
    forall i :: 0 <= i < |buffer| ==> buffer[i].eventNo == delivered + 1 + i
  }

  /** Timestamps are pairwise at least the coincidence time apart. */
  ghost predicate Separated(buffer: seq<Event>, coinc: real) {
    forall i, j :: 0 <= i < j < |buffer| ==> Distance(buffer[i].timestamp, buffer[j].timestamp) >= coinc
  }

  /** No buffered event lies within the coincidence time of this timestamp. */
  ghost predicate Lonely(buffer: seq<Event>, timestamp: real, coinc: real) {
    forall i :: 0 <= i < |buffer| ==> Distance(buffer[i].timestamp, timestamp) >= coinc
  }

  /** A frame of one module with the groups of its channel headers, or a request for an event. */
  datatype Operation =
    | Frame(unit: nat, groups: seq<nat>, timestamp: real, trailer: bool)
    | Get(flush: bool)
  {
    predicate Fits() { Frame? ==> unit < MAX_MODULES }

    /** Without a channel header a frame is not looked at any further. */
    predicate Carries() { Frame? && groups != [] }
  }

  // ----- What the events hold -----

  type Record = map<nat, Module>

  ghost function Contents(es: seq<Event>): (cs: seq<Record>)
    reads es
    ensures |cs| == |es| && forall i :: 0 <= i < |es| ==> cs[i] == es[i].modules
  {
    seq(|es|, i requires 0 <= i < |es| reads es => es[i].modules)
  }

  function Times(es: seq<Event>): (ts: seq<real>)
    ensures |ts| == |es| && forall i :: 0 <= i < |es| ==> ts[i] == es[i].timestamp
  {
    seq(|es|, i requires 0 <= i < |es| => es[i].timestamp)
  }

  function RecordOf(r: Record, unit: nat): Module {
    if unit in r then r[unit] else Module({}, false)
  }

  function GroupSet(groups: seq<nat>): set<nat> {
    set g | g in groups
  }

  /** A module is complete when a trailer finds all its enabled groups there. */
  function WithGroups(m: Module, groups: seq<nat>, trailer: bool, enabled: set<nat>): Module {
    var all := m.completeGroups + GroupSet(groups);
    Module(all, m.complete || (trailer && all == enabled))
  }

  /** The records after a frame whose module is in the event at a place, a new one at the end. */
  function Received(cs: seq<Record>, at: nat, op: Operation, enabled: set<nat>): (r: seq<Record>)
    requires at <= |cs| && op.Frame?
    ensures |r| == if at < |cs| then |cs| else |cs| + 1
  {
    var grown := if at < |cs| then cs else cs + [map[]];
    grown[at := grown[at][op.unit := WithGroups(RecordOf(grown[at], op.unit), op.groups, op.trailer, enabled)]]
  }

  /** An event's record has the groups of a frame, and the event is of its time. */
  ghost predicate Has(r: Record, time: real, op: Operation, coinc: real)
    requires op.Frame?
  {
    && op.unit in r && (forall g <- op.groups :: g in r[op.unit].completeGroups)
    && (time == op.timestamp || Distance(time, op.timestamp) < coinc)
  }

  /** The place of every operation: for a frame, that of the one event its groups are in. */
  ghost predicate Placed(cs: seq<Record>, times: seq<real>, coinc: real, ops: seq<Operation>, places: seq<int>) {
    && |places| == |ops| && |times| == |cs|
    && forall k :: 0 <= k < |ops| ==>
         if ops[k].Carries() then 0 <= places[k] < |cs| && Has(cs[places[k]], times[places[k]], ops[k], coinc)
         else places[k] == -1
  }

  /** A group of a module came with a frame that has this place. */
  ghost predicate Brought(ops: seq<Operation>, places: seq<int>, i: nat, unit: nat, group: nat)
    requires |places| == |ops|
  {
    exists k :: 0 <= k < |ops| && places[k] == i && ops[k].Frame? && ops[k].unit == unit && group in ops[k].groups
  }

  ghost predicate Had(start: seq<Record>, i: nat, unit: nat, group: nat) {
    i < |start| && unit in start[i] && group in start[i][unit].completeGroups
  }

  /** No record has a group that was not there at the start and did not come with a frame placed there. */
  ghost predicate NothingElse(start: seq<Record>, cs: seq<Record>, ops: seq<Operation>, places: seq<int>)
    requires |places| == |ops|
  {
    forall i, unit, group :: 0 <= i < |cs| && unit in cs[i] && group in cs[i][unit].completeGroups ==>
      Had(start, i, unit, group) || Brought(ops, places, i, unit, group)
  }

  lemma FrameReceived(start: seq<Record>, cs: seq<Record>, times: seq<real>, coinc: real, ops: seq<Operation>,
                      places: seq<int>, op: Operation, at: nat, time: real, enabled: set<nat>)
    requires Placed(cs, times, coinc, ops, places) && NothingElse(start, cs, ops, places)
    requires op.Carries() && at <= |cs| && (time == op.timestamp || Distance(time, op.timestamp) < coinc)
    requires at < |cs| ==> times[at] == time
    ensures var after := if at < |cs| then times else times + [time];
      && Placed(Received(cs, at, op, enabled), after, coinc, ops + [op], places + [at])
      && NothingElse(start, Received(cs, at, op, enabled), ops + [op], places + [at])
  {
    var cs', ops', places' := Received(cs, at, op, enabled), ops + [op], places + [at];
    forall k | 0 <= k < |ops| && ops[k].Carries()
      ensures Has(cs'[places[k]], times[places[k]], ops[k], coinc)
    {
    }
    forall i, unit, group | 0 <= i < |cs'| && unit in cs'[i] && group in cs'[i][unit].completeGroups
      ensures Had(start, i, unit, group) || Brought(ops', places', i, unit, group)
    {
      if i == at && unit == op.unit && group in op.groups {
        assert ops'[|ops|] == op && places'[|ops|] == i;
      } else {
        assert i < |cs| && unit in cs[i] && group in cs[i][unit].completeGroups;
        if Brought(ops, places, i, unit, group) {
          var k :| 0 <= k < |ops| && places[k] == i && ops[k].Frame? && ops[k].unit == unit && group in ops[k].groups;
          assert ops'[k] == ops[k] && places'[k] == places[k];
        }
      }
    }
  }

  lemma NothingReceived(start: seq<Record>, cs: seq<Record>, times: seq<real>, coinc: real, ops: seq<Operation>,
                        places: seq<int>, op: Operation)
    requires Placed(cs, times, coinc, ops, places) && NothingElse(start, cs, ops, places) && !op.Carries()
    ensures Placed(cs, times, coinc, ops + [op], places + [-1]) && NothingElse(start, cs, ops + [op], places + [-1])
  {
    var ops', places' := ops + [op], places + [-1];
    forall i, unit, group | 0 <= i < |cs| && unit in cs[i] && group in cs[i][unit].completeGroups
      ensures Had(start, i, unit, group) || Brought(ops', places', i, unit, group)
    {
      if Brought(ops, places, i, unit, group) {
        var k :| 0 <= k < |ops| && places[k] == i && ops[k].Frame? && ops[k].unit == unit && group in ops[k].groups;
        assert ops'[k] == ops[k] && places'[k] == places[k];
      }
    }
  }

  // ----- What each operation does to the buffer -----

  // An event as it can be seen in the buffer.
  datatype View = View(time: real, record: Record, complete: bool)

  ghost function ViewsOf(es: seq<Event>): (v: seq<View>)
    reads es
    ensures |v| == |es|
    ensures forall i :: 0 <= i < |es| ==> v[i] == View(es[i].timestamp, es[i].modules, es[i].complete)
  {
    seq(|es|, i requires 0 <= i < |es| reads es => View(es[i].timestamp, es[i].modules, es[i].complete))
  }

  /** What does not change while a queue runs. */
  datatype Setting = Setting(coinc: real, numModules: nat, mask: set<nat>, enabled: nat -> set<nat>, threshold: nat)

  /** It was found complete before, or just the expected modules have finished. */
  ghost predicate IsReady(c: Setting, e: View) {
    || e.complete || c.mask == {}
    || (set i | 0 <= i < c.numModules && i in e.record && e.record[i].complete) == c.mask
  }

  /** The frame's module is found in the first event near enough, or a new one at the end; no flag changes. */
  ghost predicate FrameDone(c: Setting, v: seq<View>, op: Operation, w: seq<View>, at: nat)
    requires op.Frame?
  {
    && at <= |v| && |w| == (if at < |v| then |v| else |v| + 1)
    && (forall i :: 0 <= i < at ==> Distance(v[i].time, op.timestamp) >= c.coinc)
    && (at < |v| ==> Distance(v[at].time, op.timestamp) < c.coinc)
    && (forall i :: 0 <= i < |v| ==> w[i].time == v[i].time && w[i].complete == v[i].complete)
    && (forall i :: 0 <= i < |v| && i != at ==> w[i].record == v[i].record)
    && (at == |v| ==> w[at].time == op.timestamp && !w[at].complete)
    && var was := if at < |v| then v[at].record else map[];
       w[at].record == was[op.unit := WithGroups(RecordOf(was, op.unit), op.groups, op.trailer, c.enabled(op.unit))]
  }

  ghost predicate SomeReady(c: Setting, v: seq<View>) {
    exists i :: 0 <= i < |v| && IsReady(c, v[i])
  }

  /** An event that stays, which may have been found complete. */
  ghost predicate StillSeen(c: Setting, e: View, f: View) {
    && f.time == e.time && f.record == e.record
    && (f.complete ==> IsReady(c, e)) && (e.complete ==> f.complete)
  }

  /** The front event leaves on a flush, above the threshold, or when some event is ready; else none is. */
  ghost predicate GetDone(c: Setting, v: seq<View>, flush: bool, w: seq<View>) {
    var leaves := v != [] && (flush || |v| > c.threshold || SomeReady(c, v));
    var left := if leaves then v[1..] else v;
    && |w| == |left|
    && (forall i :: 0 <= i < |w| ==> StillSeen(c, left[i], w[i]))
    && (!leaves ==> forall i :: 0 <= i < |w| ==> !w[i].complete)
  }

  lemma GetIs(c: Setting, v: seq<View>, flush: bool, w: seq<View>, gone: nat)
    requires gone == if v != [] && (flush || |v| > c.threshold || SomeReady(c, v)) then 1 else 0
    requires |w| + gone == |v| && forall i :: 0 <= i < |w| ==> StillSeen(c, v[i + gone], w[i])
    requires gone == 0 ==> forall i :: 0 <= i < |w| ==> !w[i].complete
    ensures GetDone(c, v, flush, w)
  {
    hide StillSeen, SomeReady;
  }

  ghost predicate OperationDone(c: Setting, v: seq<View>, op: Operation, w: seq<View>) {
    if op.Carries() then exists at: nat :: FrameDone(c, v, op, w, at)
    else if op.Get? then GetDone(c, v, op.flush, w)
    else w == v
  }

  lemma NothingDone(c: Setting, v: seq<View>, op: Operation)
    requires !op.Carries() && !op.Get?
    ensures OperationDone(c, v, op, v)
  {
  }

  ghost predicate Traced(c: Setting, views: seq<seq<View>>, ops: seq<Operation>) {
    |views| == |ops| + 1 && forall k :: 0 <= k < |ops| ==> OperationDone(c, views[k], ops[k], views[k + 1])
  }

  lemma TracedFurther(c: Setting, views: seq<seq<View>>, ops: seq<Operation>, op: Operation, w: seq<View>)
    requires Traced(c, views, ops) && OperationDone(c, views[|ops|], op, w)
    ensures Traced(c, views + [w], ops + [op])
  {
    hide OperationDone;
    var views', ops' := views + [w], ops + [op];
    forall k | 0 <= k < |ops'|
      ensures OperationDone(c, views'[k], ops'[k], views'[k + 1])
    {
      assert k < |ops| ==> views'[k] == views[k] && ops'[k] == ops[k] && views'[k + 1] == views[k + 1];
    }
  }

  // ----- When a module is complete -----

  function RecordAt(cs: seq<Record>, i: nat, unit: nat): Module {
    if i < |cs| then RecordOf(cs[i], unit) else Module({}, false)
  }

  /** The operation is a frame of the module that has this place. */
  predicate Joined(ops: seq<Operation>, places: seq<int>, k: nat, i: nat, unit: nat)
    requires k < |ops| == |places|
  {
    ops[k].Carries() && places[k] == i && ops[k].unit == unit
  }

  /** The groups of a module in the event at a place after the first n operations. */
  ghost function GroupsAt(start: seq<Record>, ops: seq<Operation>, places: seq<int>, n: nat, i: nat, unit: nat)
    : set<nat>
    requires n <= |ops| == |places|
  {
    if n == 0 then RecordAt(start, i, unit).completeGroups
    else
      GroupsAt(start, ops, places, n - 1, i, unit)
      + if Joined(ops, places, n - 1, i, unit) then GroupSet(ops[n - 1].groups) else {}
  }

  /** A frame with a trailer behind which the groups so far are exactly the enabled ones. */
  ghost predicate FinishedAt(start: seq<Record>, ops: seq<Operation>, places: seq<int>, enabled: nat -> set<nat>,
                             k: nat, i: nat, unit: nat)
    requires k < |ops| == |places|
  {
    && Joined(ops, places, k, i, unit) && ops[k].trailer
    && GroupsAt(start, ops, places, k + 1, i, unit) == enabled(unit)
  }

  ghost predicate FinishedIn(start: seq<Record>, ops: seq<Operation>, places: seq<int>, enabled: nat -> set<nat>,
                             n: nat, i: nat, unit: nat)
    requires n <= |ops| == |places|
  {
    exists k: nat :: k < n && FinishedAt(start, ops, places, enabled, k, i, unit)
  }

  /** Every module has the groups of its frames, and is complete exactly if it was, or if one of them finished it. */
  ghost predicate Finishing(start: seq<Record>, cs: seq<Record>, ops: seq<Operation>, places: seq<int>,
                            enabled: nat -> set<nat>)
    requires |places| == |ops|
  {
    forall i: nat, unit: nat ::
      && RecordAt(cs, i, unit).completeGroups == GroupsAt(start, ops, places, |ops|, i, unit)
      && (RecordAt(cs, i, unit).complete <==>
            RecordAt(start, i, unit).complete || FinishedIn(start, ops, places, enabled, |ops|, i, unit))
  }

  lemma {:induction false} GroupsKept(start: seq<Record>, ops: seq<Operation>, places: seq<int>, op: Operation,
                                      place: int, n: nat, i: nat, unit: nat)
    requires n <= |ops| == |places|
    ensures GroupsAt(start, ops + [op], places + [place], n, i, unit) == GroupsAt(start, ops, places, n, i, unit)
    decreases n
  {
    if n > 0 {
      GroupsKept(start, ops, places, op, place, n - 1, i, unit);
    }
  }

  lemma FinishedKept(start: seq<Record>, ops: seq<Operation>, places: seq<int>, enabled: nat -> set<nat>,
                     op: Operation, place: int, i: nat, unit: nat)
    requires |places| == |ops|
    ensures var ops', places' := ops + [op], places + [place];
            FinishedIn(start, ops', places', enabled, |ops'|, i, unit) <==>
              || FinishedIn(start, ops, places, enabled, |ops|, i, unit)
              || FinishedAt(start, ops', places', enabled, |ops|, i, unit)
  {
    hide GroupsAt;
    var ops', places' := ops + [op], places + [place];
    forall k: nat | k < |ops|
      ensures FinishedAt(start, ops', places', enabled, k, i, unit) <==>
              FinishedAt(start, ops, places, enabled, k, i, unit)
    {
      GroupsKept(start, ops, places, op, place, k + 1, i, unit);
    }
  }

  lemma FrameFinishes(start: seq<Record>, cs: seq<Record>, ops: seq<Operation>, places: seq<int>,
                      enabled: nat -> set<nat>, op: Operation, at: nat)
    requires |places| == |ops| && Finishing(start, cs, ops, places, enabled) && op.Carries() && at <= |cs|
    ensures Finishing(start, Received(cs, at, op, enabled(op.unit)), ops + [op], places + [at], enabled)
  {
    hide FinishedIn;
    var cs', ops', places' := Received(cs, at, op, enabled(op.unit)), ops + [op], places + [at];
    forall i: nat, unit: nat
      ensures RecordAt(cs', i, unit).completeGroups == GroupsAt(start, ops', places', |ops'|, i, unit)
      ensures RecordAt(cs', i, unit).complete <==>
              RecordAt(start, i, unit).complete || FinishedIn(start, ops', places', enabled, |ops'|, i, unit)
    {
      GroupsKept(start, ops, places, op, at, |ops|, i, unit);
      FinishedKept(start, ops, places, enabled, op, at, i, unit);
      ReceivedAt(cs, at, op, enabled(op.unit), i, unit);
    }
  }

  lemma ReceivedAt(cs: seq<Record>, at: nat, op: Operation, enabled: set<nat>, i: nat, unit: nat)
    requires op.Frame? && at <= |cs|
    ensures RecordAt(Received(cs, at, op, enabled), i, unit) ==
            if i == at && unit == op.unit then WithGroups(RecordAt(cs, i, unit), op.groups, op.trailer, enabled)
            else RecordAt(cs, i, unit)
  {
  }

  lemma NothingFinishes(start: seq<Record>, cs: seq<Record>, ops: seq<Operation>, places: seq<int>,
                        enabled: nat -> set<nat>, op: Operation)
    requires |places| == |ops| && Finishing(start, cs, ops, places, enabled) && !op.Carries()
    ensures Finishing(start, cs, ops + [op], places + [-1], enabled)
  {
    hide FinishedIn;
    forall i: nat, unit: nat
      ensures GroupsAt(start, ops + [op], places + [-1], |ops| + 1, i, unit) ==
              GroupsAt(start, ops, places, |ops|, i, unit)
      ensures FinishedIn(start, ops + [op], places + [-1], enabled, |ops| + 1, i, unit) <==>
              FinishedIn(start, ops, places, enabled, |ops|, i, unit)
    {
      GroupsKept(start, ops, places, op, -1, |ops|, i, unit);
      FinishedKept(start, ops, places, enabled, op, -1, i, unit);
    }
  }

  lemma FinishingStarts(start: seq<Record>, enabled: nat -> set<nat>)
    ensures Finishing(start, start, [], [], enabled)
  {
  }

  lemma GrownTimes(front: seq<Event>, was: seq<Event>, now: seq<Event>)
    requires was <= now && |now| <= |was| + 1
    ensures Times(front + now) ==
            if |now| == |was| then Times(front + was) else Times(front + was) + [now[|was|].timestamp]
  {
    assert now == if |now| == |was| then was else was + [now[|was|]];
    assert front + (was + now[|was|..]) == (front + was) + now[|was|..];
  }

  lemma ReceivedBehind(front: seq<Record>, cs: seq<Record>, at: nat, op: Operation, enabled: set<nat>)
    requires at <= |cs| && op.Frame?
    ensures front + Received(cs, at, op, enabled) == Received(front + cs, |front| + at, op, enabled)
  {
  }

  class EventQueue {
    var buffer: seq<Event>
    var eventNo: nat
    const coinc: real
    const numModules: nat
    const modulesMask: set<nat>
    const groupEnabled: nat -> set<nat>
    const flushThreshold: nat
    ghost var delivered: nat

    /** Event numbers run on without a gap from the delivered ones through the buffer. */
    ghost predicate Numbered()
      reads this
    {
      eventNo == delivered + |buffer| && Consecutive(buffer, delivered)
    }

    /** The mask of an event names only finished modules, and a complete event has all the expected ones. */
    ghost predicate Honest(e: Event)
      reads e
    {
      && (forall i :: i in e.modulesMask ==> i < numModules && e.Finished(i))
      && (e.complete ==> forall i :: i in modulesMask ==> e.Finished(i))
    }

    ghost predicate Valid()
      reads this, buffer
    {
      Numbered() && Separated(buffer, coinc) && forall i :: 0 <= i < |buffer| ==> Honest(buffer[i])
    }

    /** The modules that have finished are exactly those expected, or it was complete before. */
    ghost predicate Ready(e: Event)
      reads e
    {
      e.complete || modulesMask == {} || (set i | 0 <= i < numModules && e.Finished(i)) == modulesMask
    }

    constructor (coinc: real, numModules: nat, modulesMask: set<nat>, groupEnabled: nat -> set<nat>,
                 flushThreshold: nat)
      ensures Valid() && buffer == [] && delivered == 0
    {
      this.coinc, this.numModules, this.modulesMask := coinc, numModules, modulesMask;
      this.groupEnabled, this.flushThreshold := groupEnabled, flushThreshold;
      buffer, eventNo, delivered := [], 0, 0;
    }

    /** A buffered event this module's data may join: close enough in time, and without the module unless dup. */
    ghost predicate Joins(e: Event, unit: nat, timestamp: real, dup: bool)
      reads e
    {
      Distance(e.timestamp, timestamp) < coinc && (unit !in e.modules || dup)
    }

    /**
      The first event the data may join, or a new one at the end of the buffer. The buffer stays separated unless
      duplicates were refused (the default argument) while some event was close.
    */
    method FindEvent(unit: nat, timestamp: real, dup: bool) returns (e: Event, ghost at: nat)
      requires Valid()
      modifies this`buffer, this`eventNo
      ensures Numbered() && at <= |old(buffer)| && at < |buffer| && buffer[at] == e
      ensures forall i :: 0 <= i < at ==> !Joins(old(buffer)[i], unit, timestamp, dup)
      ensures at < |old(buffer)| ==> buffer == old(buffer) && Joins(e, unit, timestamp, dup)
      ensures at == |old(buffer)| ==> buffer == old(buffer) + [e] && fresh(e) && e.timestamp == timestamp
      ensures at == |old(buffer)| ==> e.modules == map[] && e.modulesMask == {} && !e.complete
      ensures Separated(buffer, coinc) <==> at < |old(buffer)| || Lonely(old(buffer), timestamp, coinc)
      ensures forall i :: 0 <= i < |buffer| ==> Honest(buffer[i])
    {
      for i := 0 to |buffer|
        invariant forall k :: 0 <= k < i ==> !Joins(buffer[k], unit, timestamp, dup)
      {
        e := buffer[i];
        if Distance(e.timestamp, timestamp) < coinc {
          if unit !in e.modules || dup {
            return e, i;
          }
        }
      }
      eventNo := eventNo + 1;
      e := new Event(eventNo, timestamp);
      at := |buffer|;
      assert Separated(buffer + [e], coinc) ==> Lonely(buffer, timestamp, coinc) by {
        ghost var grown := buffer + [e];
        forall i | 0 <= i < |buffer| && Separated(grown, coinc)
          ensures Distance(buffer[i].timestamp, timestamp) >= coinc
        {
          assert grown[i] == buffer[i] && grown[at] == e;
        }
      }
      buffer := buffer + [e];
    }

    /** The event holding the module's record for this time; the record is made if it was missing. */
    method FindModule(unit: nat, timestamp: real) returns (e: Event, ghost at: nat)
      requires Valid() && unit < MAX_MODULES
      modifies this`buffer, this`eventNo, buffer`modules
      ensures Valid() && at <= |old(buffer)| && at < |buffer| && buffer[at] == e
      ensures at < |old(buffer)| ==> buffer == old(buffer) && Distance(e.timestamp, timestamp) < coinc
      ensures at == |old(buffer)| ==> buffer == old(buffer) + [e] && fresh(e) && e.timestamp == timestamp
      ensures at == |old(buffer)| ==> e.modules == map[unit := Module({}, false)] && !e.complete
      ensures Lonely(old(buffer)[..at], timestamp, coinc)
      ensures at < |old(buffer)| && unit in old(e.modules) ==> e.modules == old(e.modules)
      ensures at < |old(buffer)| && unit !in old(e.modules) ==> e.modules == old(e.modules)[unit := Module({}, false)]
      ensures forall i :: 0 <= i < |old(buffer)| && i != at ==> old(buffer)[i].modules == old(buffer[i].modules)
    {
      hide Separated;
      e, at := FindEvent(unit, timestamp, true);
      assert Lonely(old(buffer)[..at], timestamp, coinc);
      if unit !in e.modules {
        e.modules := e.modules[unit := Module({}, false)];
      }
    }

    /**
      The channel headers of a frame put their groups into the module's record; a trailer finds it complete once every
      enabled group has come.
    */
    method ReceiveFrame(op: Operation) returns (ghost at: nat)
      requires Valid() && op.Carries() && op.Fits()
      modifies this`buffer, this`eventNo, buffer`modules
      ensures Valid() && at <= |old(buffer)| && old(buffer) <= buffer
      ensures |buffer| == (if at < |old(buffer)| then |old(buffer)| else |old(buffer)| + 1)
      ensures at == |old(buffer)| ==>
        fresh(buffer[at]) && buffer[at].timestamp == op.timestamp && !buffer[at].complete
      ensures at < |old(buffer)| ==> Distance(buffer[at].timestamp, op.timestamp) < coinc
      ensures Lonely(old(buffer)[..at], op.timestamp, coinc)
      ensures Contents(buffer) == Received(old(Contents(buffer)), at, op, groupEnabled(op.unit))
    {
      hide Separated, Lonely;
      var e;
      e, at := FindModule(op.unit, op.timestamp);
      AddGroups(e, op);
      ghost var cs := old(Contents(buffer));
      ghost var grown: seq<Record> := if at < |cs| then cs else cs + [map[]];
      ghost var m := WithGroups(RecordOf(grown[at], op.unit), op.groups, op.trailer, groupEnabled(op.unit));
      assert e.modules == grown[at][op.unit := m];
      forall i | 0 <= i < |buffer| && i != at
        ensures buffer[i].modules == grown[i]
      {
        assert buffer[i].eventNo != e.eventNo;
      }
    }

    /** The record of the module in its event takes the groups one after the other, and then the trailer. */
    method AddGroups(e: Event, op: Operation)
      requires op.Frame? && op.unit in e.modules && Honest(e)
      modifies e`modules
      ensures Honest(e)
      ensures e.modules ==
        old(e.modules)[op.unit := WithGroups(old(e.modules[op.unit]), op.groups, op.trailer, groupEnabled(op.unit))]
    {
      var m := e.modules[op.unit];
      for i := 0 to |op.groups|
        invariant m == Module(old(e.modules[op.unit]).completeGroups + (set g | g in op.groups[..i]),
                              old(e.modules[op.unit]).complete)
      {
        assert op.groups[..i + 1] == op.groups[..i] + [op.groups[i]];
        m := m.(completeGroups := m.completeGroups + {op.groups[i]});
      }
      assert op.groups[..|op.groups|] == op.groups;
      if op.trailer && m.completeGroups == groupEnabled(op.unit) {
        m := m.(complete := true);
      }
      e.modules := e.modules[op.unit := m];
    }

    /** Marks the event complete exactly when it is ready. */
    method CompleteEvent(e: Event)
      requires Honest(e)
      modifies e`complete, e`modulesMask
      ensures Honest(e) && e.complete == old(Ready(e))
      ensures Ready(e) == old(Ready(e))
    {
      if modulesMask == {} {
        e.complete := true;
        return;
      }
      ghost var was := e.modulesMask;
      for i := 0 to numModules
        invariant e.modulesMask == was + set k | 0 <= k < i && e.Finished(k)
        invariant e.complete == old(e.complete)
      {
        if i in e.modules && e.modules[i].complete {
          e.modulesMask := e.modulesMask + {i};
        }
      }
      assert e.modulesMask == set k | 0 <= k < numModules && e.Finished(k);
      if e.modulesMask == modulesMask {
        e.complete := true;
      }
    }

    /** Looks for a ready event from the front; without one, every event stays incomplete. */
    method AnyComplete() returns (found: bool)
      requires Valid()
      modifies buffer
      ensures Valid() && forall e <- buffer :: e.modules == old(e.modules)
      ensures forall e <- buffer :: Ready(e) == old(Ready(e)) && e.complete in {old(e.complete), old(Ready(e))}
      ensures found <==> exists i :: 0 <= i < |buffer| && old(Ready(buffer[i]))
      ensures !found ==> forall i :: 0 <= i < |buffer| ==> !buffer[i].complete
    {
      hide Separated, Event.Finished;
      for i := 0 to |buffer|
        invariant Valid() && forall e <- buffer :: e.modules == old(e.modules)
        invariant forall e <- buffer :: Ready(e) == old(Ready(e)) && e.complete in {old(e.complete), old(Ready(e))}
        invariant forall k :: 0 <= k < i ==> !buffer[k].complete && !old(Ready(buffer[k]))
      {
        var ee := buffer[i];
        if !ee.complete {
          CompleteEvent(ee);
        }
        if ee.complete {
          assert old(Ready(buffer[i]));
          return true;
        }
      }
      return false;
    }

    /** Whether the front event is to leave, which also marks events that are ready. */
    method FrontLeaves(flush: bool) returns (leaves: bool)
      requires Valid() && buffer != []
      modifies buffer
      ensures Valid() && forall e <- buffer :: e.modules == old(e.modules)
      ensures leaves <==>
        flush || |buffer| > flushThreshold || exists i :: 0 <= i < |buffer| && old(Ready(buffer[i]))
      ensures buffer[0].complete == old(Ready(buffer[0]))
      ensures !leaves ==> forall i :: 0 <= i < |buffer| ==> !buffer[i].complete && !Ready(buffer[i])
      ensures forall e <- buffer :: e.complete in {old(e.complete), old(Ready(e))}
    {
      hide Separated, Event.Finished;
      var e := buffer[0];
      if !e.complete {
        CompleteEvent(e);
      }
      if e.complete || flush {
        return true;
      }
      var found := AnyComplete();
      return found || |buffer| > flushThreshold;
    }

    /**
      Delivers the front event, numbered one more than the last, exactly when the buffer holds any event and either
      the caller flushes, some event is ready, or more than the threshold are waiting. Otherwise nothing leaves, and
      no buffered event is complete.
    */
    method GetEvent(flush: bool) returns (r: Event?)
      requires Valid()
      modifies this`buffer, this`delivered, buffer
      ensures Valid()
      ensures r != null <==>
        old(buffer != [] && (flush || |buffer| > flushThreshold || exists i :: 0 <= i < |buffer| && Ready(buffer[i])))
      ensures r != null ==> old(buffer) == [r] + buffer && r.eventNo == delivered == old(delivered) + 1
      ensures r != null ==> r.complete == old(Ready(buffer[0])) && Honest(r)
      ensures r == null ==> buffer == old(buffer) && delivered == old(delivered) && |buffer| <= flushThreshold
      ensures r == null ==> forall i :: 0 <= i < |buffer| ==> !buffer[i].complete && !Ready(buffer[i])
      ensures forall e <- old(buffer) :: e.modules == old(e.modules)
      ensures forall e <- old(buffer) :: e.complete in {old(e.complete), old(Ready(e))}
    {
      hide Separated, Event.Finished, EventQueue.Ready;
      if |buffer| < 1 {
        return null;
      }
      var e := buffer[0];
      var leaves := FrontLeaves(flush);
      if !leaves {
        return null;
      }
      PopFront();
      return e;
    }

    method PopFront()
      requires Valid() && |buffer| > 0
      modifies this`buffer, this`delivered
      ensures Valid() && buffer == old(buffer)[1..] && delivered == old(delivered) + 1
    {
      buffer := buffer[1..];
      delivered := delivered + 1;
    }

    /** What decides over the events of this queue. */
    ghost function Settings(): Setting {
      Setting(coinc, numModules, modulesMask, groupEnabled, flushThreshold)
    }

    lemma ReadySeen(e: Event)
      ensures Ready(e) <==> IsReady(Settings(), View(e.timestamp, e.modules, e.complete))
      ensures e.complete ==> Ready(e)
    {
      assert (set i | 0 <= i < numModules && e.Finished(i))
          == (set i | 0 <= i < numModules && i in e.modules && e.modules[i].complete);
    }

    lemma AllReadySeen()
      ensures forall i :: 0 <= i < |buffer| ==> (Ready(buffer[i]) <==> IsReady(Settings(), ViewsOf(buffer)[i]))
      ensures forall i :: 0 <= i < |buffer| && buffer[i].complete ==> Ready(buffer[i])
      ensures SomeReady(Settings(), ViewsOf(buffer)) <==> exists i :: 0 <= i < |buffer| && Ready(buffer[i])
    {
      hide EventQueue.Ready, IsReady;
      forall i | 0 <= i < |buffer|
        ensures Ready(buffer[i]) <==> IsReady(Settings(), ViewsOf(buffer)[i])
        ensures buffer[i].complete ==> Ready(buffer[i])
      {
        ReadySeen(buffer[i]);
      }
    }

    /** A frame, with what can be seen of it in the buffer. */
    method ReceiveSeen(op: Operation) returns (ghost at: nat)
      requires Valid() && op.Carries() && op.Fits()
      modifies this`buffer, this`eventNo, buffer`modules
      ensures Valid() && at <= |old(buffer)| && old(buffer) <= buffer
      ensures |buffer| == (if at < |old(buffer)| then |old(buffer)| else |old(buffer)| + 1)
      ensures at == |old(buffer)| ==> fresh(buffer[at]) && buffer[at].timestamp == op.timestamp
      ensures at < |old(buffer)| ==> Distance(buffer[at].timestamp, op.timestamp) < coinc
      ensures Contents(buffer) == Received(old(Contents(buffer)), at, op, groupEnabled(op.unit))
      ensures FrameDone(Settings(), old(ViewsOf(buffer)), op, ViewsOf(buffer), at)
    {
      hide EventQueue.Valid, WithGroups;
      at := ReceiveFrame(op);
      assert forall i :: 0 <= i < |buffer| ==> Contents(buffer)[i] == buffer[i].modules;
    }

    /** A request, with what can be seen of it in the buffer. */
    method GetSeen(flush: bool) returns (r: Event?)
      requires Valid()
      modifies this`buffer, this`delivered, buffer
      ensures Valid()
      ensures r != null ==> old(buffer) == [r] + buffer && r.eventNo == delivered == old(delivered) + 1 && Honest(r)
      ensures r == null ==> buffer == old(buffer) && delivered == old(delivered)
      ensures forall e <- old(buffer) :: e.modules == old(e.modules)
      ensures GetDone(Settings(), old(ViewsOf(buffer)), flush, ViewsOf(buffer))
    {
      hide EventQueue.Valid, EventQueue.Ready, IsReady, EventQueue.Honest, SomeReady, ViewsOf, GetDone;
      ghost var was, v := buffer, ViewsOf(buffer);
      AllReadySeen();
      r := GetEvent(flush);
      ghost var gone := if r != null then 1 else 0;
      forall i | 0 <= i < |buffer|
        ensures StillSeen(Settings(), v[i + gone], ViewsOf(buffer)[i])
      {
        assert buffer[i] == was[i + gone] && was[i + gone] in was;
      }
      GetIs(Settings(), v, flush, ViewsOf(buffer), gone);
    }

    /** So far, these events have been delivered and the operations have these places. */
    ghost predicate Performed(out: seq<Event>, start: seq<Record>, ops: seq<Operation>, places: seq<int>)
      reads this, buffer, out
    {
      && Valid() && |out| <= delivered && Consecutive(out, delivered - |out|) && (forall e <- out :: Honest(e))
      && |places| == |ops| && Placed(Contents(out + buffer), Times(out + buffer), coinc, ops, places)
      && NothingElse(start, Contents(out + buffer), ops, places)
      && Finishing(start, Contents(out + buffer), ops, places, groupEnabled)
    }

    /** Delivered events are not in the buffer any more. */
    lemma OutApart(out: seq<Event>)
      requires Valid() && |out| <= delivered && Consecutive(out, delivered - |out|)
      ensures forall i, j :: 0 <= i < |out| && 0 <= j < |buffer| ==> out[i] != buffer[j]
    {
      hide Separated, EventQueue.Honest;
    }

    /** A frame that carries groups; the records of delivered events stay as they are. */
    method PerformFrame(op: Operation, ghost out: seq<Event>, ghost start: seq<Record>, ghost ops: seq<Operation>,
                        ghost places: seq<int>) returns (ghost at: nat)
      requires Performed(out, start, ops, places) && op.Carries() && op.Fits()
      modifies this`buffer, this`eventNo, buffer
      ensures old(buffer) <= buffer && forall i :: |old(buffer)| <= i < |buffer| ==> fresh(buffer[i])
      ensures OperationDone(Settings(), old(ViewsOf(buffer)), op, ViewsOf(buffer))
      ensures Performed(out, start, ops + [op], places + [|out| + at])
    {
      hide EventQueue.Valid, EventQueue.Honest, Consecutive, Placed, NothingElse, Finishing, Received, Lonely;
      hide FrameDone;
      ghost var was, before := buffer, Contents(buffer);
      ghost var cs, times := Contents(out + buffer), Times(out + buffer);
      OutApart(out);
      assert cs == Contents(out) + before;
      at := ReceiveSeen(op);
      ghost var time := buffer[at].timestamp;
      assert Contents(out) == old(Contents(out));
      assert Contents(out + buffer) == old(Contents(out)) + Contents(buffer);
      ReceivedBehind(old(Contents(out)), before, at, op, groupEnabled(op.unit));
      GrownTimes(out, was, buffer);
      FrameReceived(start, cs, times, coinc, ops, places, op, |out| + at, time, groupEnabled(op.unit));
      FrameFinishes(start, cs, ops, places, groupEnabled, op, |out| + at);
    }

    /** A request; a delivered event keeps its record. */
    method PerformGet(flush: bool, out0: seq<Event>, ghost start: seq<Record>, ghost ops: seq<Operation>,
                      ghost places: seq<int>) returns (out: seq<Event>)
      requires Performed(out0, start, ops, places)
      modifies this`buffer, this`delivered, buffer
      ensures old(out0 + buffer) == out + buffer && |out| - |out0| == delivered - old(delivered)
      ensures |buffer| <= |old(buffer)| && buffer == old(buffer)[|old(buffer)| - |buffer|..]
      ensures Performed(out, start, ops + [Get(flush)], places + [-1])
      ensures OperationDone(Settings(), old(ViewsOf(buffer)), Get(flush), ViewsOf(buffer))
    {
      hide EventQueue.Valid, EventQueue.Honest, EventQueue.Ready, Placed, NothingElse, Finishing;
      ghost var all := out0 + buffer;
      ghost var cs := Contents(all);
      NothingReceived(start, cs, Times(all), coinc, ops, places, Get(flush));
      NothingFinishes(start, cs, ops, places, groupEnabled, Get(flush));
      OutApart(out0);
      out := out0;
      var r := GetSeen(flush);
      if r != null {
        out := out + [r];
      }
      assert out + buffer == all;
      assert Contents(all) == cs;
    }

    lemma RunStarts()
      requires Valid()
      ensures Performed([], Contents(buffer), [], [])
    {
      hide Separated, Finishing;
      assert [] + buffer == buffer;
      FinishingStarts(Contents(buffer), groupEnabled);
    }

    /** A frame without a channel header. */
    lemma RunSkips(op: Operation, out: seq<Event>, start: seq<Record>, ops: seq<Operation>, places: seq<int>)
      requires Performed(out, start, ops, places) && !op.Carries()
      ensures Performed(out, start, ops + [op], places + [-1])
    {
      hide Separated, Placed, NothingElse, Finishing;
      NothingReceived(start, Contents(out + buffer), Times(out + buffer), coinc, ops, places, op);
      NothingFinishes(start, Contents(out + buffer), ops, places, groupEnabled, op);
    }

    lemma RunEnds(out: seq<Event>, start: seq<Record>, ops: seq<Operation>, places: seq<int>)
      requires Performed(out, start, ops, places)
      ensures Valid() && |out| <= delivered && Consecutive(out + buffer, delivered - |out|)
      ensures forall i :: 0 <= i < |out| ==> Honest(out[i])
      ensures |places| == |ops| && Placed(Contents(out + buffer), Times(out + buffer), coinc, ops, places)
      ensures NothingElse(start, Contents(out + buffer), ops, places)
      ensures Finishing(start, Contents(out + buffer), ops, places, groupEnabled)
    {
      hide Separated, Placed, NothingElse, Finishing;
    }

    /**
      However frames and requests alternate, the delivered events are numbered without a gap or a repeat. Every frame's
      groups are in the record of exactly one event, delivered or waiting, that is of the frame's time, and nothing
      else is in any record but what was there before. A module is complete exactly when it was, or when a frame of it
      with a trailer found just its enabled groups there.
    */
    method Run(operations: seq<Operation>)
      returns (out: seq<Event>, ghost places: seq<int>, ghost views: seq<seq<View>>)
      requires Valid() && forall o <- operations :: o.Fits()
      modifies this, buffer
      ensures Valid() && delivered == old(delivered) + |out|
      ensures Consecutive(out + buffer, old(delivered)) && old(buffer) <= out + buffer
      ensures forall i :: 0 <= i < |out| ==> Honest(out[i])
      ensures Placed(Contents(out + buffer), Times(out + buffer), coinc, operations, places)
      ensures NothingElse(old(Contents(buffer)), Contents(out + buffer), operations, places)
      ensures Finishing(old(Contents(buffer)), Contents(out + buffer), operations, places, groupEnabled)
      // The buffer is at every time what the operations so far make of it.
      ensures Traced(Settings(), views, operations)
      ensures views[0] == old(ViewsOf(buffer)) && views[|operations|] == ViewsOf(buffer)
    {
      hide EventQueue.Valid, EventQueue.Performed, Placed, NothingElse, Finishing, OperationDone;
      ghost var start := Contents(buffer);
      out, places, views := [], [], [ViewsOf(buffer)];
      assert out + buffer == buffer;
      RunStarts();
      for k := 0 to |operations|
        invariant delivered == old(delivered) + |out| && old(buffer) <= out + buffer
        invariant forall i :: 0 <= i < |buffer| ==> buffer[i] in old(buffer) || fresh(buffer[i])
        invariant Performed(out, start, operations[..k], places)
        invariant Traced(Settings(), views, operations[..k]) && views[0] == old(ViewsOf(buffer))
        invariant views[k] == ViewsOf(buffer)
      {
        var op := operations[k];
        assert op.Fits();
        assert operations[..k + 1] == operations[..k] + [op];
        if op.Carries() {
          ghost var at := PerformFrame(op, out, start, operations[..k], places);
          places := places + [|out| + at];
        } else if op.Get? {
          out := PerformGet(op.flush, out, start, operations[..k], places);
          places := places + [-1];
        } else {
          RunSkips(op, out, start, operations[..k], places);
          places := places + [-1];
          NothingDone(Settings(), views[k], op);
        }
        TracedFurther(Settings(), views, operations[..k], op, ViewsOf(buffer));
        views := views + [ViewsOf(buffer)];
      }
      assert operations[..|operations|] == operations;
      RunEnds(out, start, operations, places);
    }
  }
}
