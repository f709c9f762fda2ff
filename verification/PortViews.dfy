/**
  What the events of ser2net/dataxfer.c make of the list of ports, told of what can be seen of each port.
*/
module PortViews {
  import opened Options

  datatype Mode = Disabled | Raw | RawLp | Telnet

  // What a line of the configuration file sets up; config files with an error in the line give none.
  datatype Settings = Settings(name: string, device: string, zeroPort: bool, mode: Mode)

  datatype Event =
    | Accept(name: string, accepted: bool, setUp: bool)
    | Close(name: string)
    | Configure(settings: Option<Settings>, configNum: int, ok: bool)
    | Clear(clearedNum: int)
    | SetEnable(name: string, mode: Mode, ok: bool)
  {
    predicate Wf() { Configure? ==> configNum >= 0 }
  }

  datatype Outcome = Done | Failed | Exited

  // A port and the configuration that waits for the end of its connection.
  datatype View = View(name: string, device: string, zeroPort: bool, mode: Mode, connected: bool, configNum: int,
                       waiting: Option<View>)

  predicate Named(v: seq<View>, name: string, at: nat) { at < |v| && v[at].name == name }

  predicate Missing(v: seq<View>, name: string) {
    forall i :: 0 <= i < |v| ==> v[i].name != name
  }

  /** A port other than the one at this place is connected to the device. */
  predicate Taken(v: seq<View>, at: nat, device: string) {
    exists i :: 0 <= i < |v| && i != at && v[i].connected && v[i].device == device
  }

  function Configured(s: Settings, configNum: int): View {
    View(s.name, s.device, s.zeroPort, s.mode, false, configNum, None)
  }

  /** A connection is taken unless the port or its device is in use, and if its set-up works. */
  predicate Accepted(v: seq<View>, at: nat, works: bool, w: seq<View>)
    requires at < |v|
  {
    var free := !v[at].connected && !Taken(v, at, v[at].device);
    w == if free && works then v[at := v[at].(connected := true)] else v
  }

  function AfterClose(v: seq<View>, at: nat): seq<View>
    requires at < |v|
  {
    if !v[at].connected then v
    else if v[at].configNum == -1 then v[..at] + v[at + 1..]
    else if v[at].waiting.Some? then v[at := v[at].waiting.value]
    else v[at := v[at].(connected := false)]
  }

  /** The end of a connection: the port goes if it is marked, or what waits takes its place, or it is idle. */
  predicate Closed(v: seq<View>, at: nat, r: Outcome, w: seq<View>)
    requires at < |v|
  {
    && r == (if v[at].connected && v[at].zeroPort then Exited else Done)
    && (r == Done ==> w == AfterClose(v, at))
  }

  /** A port that was disabled is enabled. */
  predicate Starts(was: Mode, mode: Mode) { was == Disabled && mode != Disabled }

  /** Setting up a port on standard input connects it, or ends the process; that of another may fail. */
  predicate SetUp(starts: bool, zeroPort: bool, busy: bool, ok: bool, r: Outcome) {
    && (r == Exited <==> starts && zeroPort && (busy || !ok))
    && (r == Failed <==> starts && !zeroPort && !ok)
  }

  predicate Enabled(v: seq<View>, at: nat, mode: Mode, ok: bool, r: Outcome, w: seq<View>)
    requires at < |v|
  {
    var starts, zeroPort := Starts(v[at].mode, mode), v[at].zeroPort;
    && SetUp(starts, zeroPort, Taken(v, at, v[at].device), ok, r)
    && (r != Exited ==>
          w == v[at := v[at].(mode := mode, connected := v[at].connected || (starts && zeroPort))])
  }

  /** A new port goes last. */
  predicate Added(v: seq<View>, s: Settings, configNum: int, ok: bool, r: Outcome, w: seq<View>) {
    var starts := s.mode != Disabled;
    && SetUp(starts, s.zeroPort, Taken(v, |v|, s.device), ok, r)
    && (r == Failed ==> w == v)
    && (r == Done ==> w == v + [Configured(s, configNum).(connected := starts && s.zeroPort)])
  }

  /** A connected port notes its configuration, and is disabled if another one was waiting. */
  predicate Noted(v: seq<View>, at: nat, s: Settings, configNum: int, r: Outcome, w: seq<View>)
    requires at < |v|
  {
    var mode := if v[at].waiting.Some? then Disabled else v[at].mode;
    r == Done && w == v[at := v[at].(mode := mode, configNum := configNum, waiting := Some(Configured(s, configNum)))]
  }

  /** Another port takes the place of one; a set-up that fails is not told of. */
  predicate Replaced(v: seq<View>, at: nat, s: Settings, configNum: int, ok: bool, r: Outcome, w: seq<View>)
    requires at < |v|
  {
    var starts := Starts(v[at].mode, s.mode);
    && (r == Exited <==> starts && s.zeroPort && (Taken(v, at, s.device) || !ok))
    && (r != Exited ==>
          r == Done && w == v[at := Configured(s, configNum).(connected := starts && s.zeroPort)])
  }

  function Renumbered(n: int, config: int): int { if n == config then config else -1 }

  /** The ports of a configuration and the connected ones, which are marked if they are not of it. */
  function Cleared(v: seq<View>, config: int): seq<View> {
    if v == [] then []
    else
      var last := v[|v| - 1];
      Cleared(v[..|v| - 1], config)
      + if last.configNum == config || last.connected then [last.(configNum := Renumbered(last.configNum, config))]
        else []
  }

  /** What an event makes of the list, and its outcome; when the process ends the list does not matter. */
  ghost predicate Did(v: seq<View>, e: Event, r: Outcome, w: seq<View>) {
    match e
    case Accept(name, accepted, setUp) =>
      && r == Done && (Missing(v, name) ==> w == v)
      && forall at: nat :: Named(v, name, at) ==> Accepted(v, at, accepted && setUp, w)
    case Close(name) =>
      && (Missing(v, name) ==> r == Done && w == v)
      && forall at: nat :: Named(v, name, at) ==> Closed(v, at, r, w)
    case Configure(None, _, _) => r == Failed && w == v
    case Configure(Some(s), configNum, ok) =>
      && (Missing(v, s.name) ==> Added(v, s, configNum, ok, r, w))
      && forall at: nat :: Named(v, s.name, at) ==>
           if v[at].connected then Noted(v, at, s, configNum, r, w) else Replaced(v, at, s, configNum, ok, r, w)
    case Clear(num) => r == Done && w == Cleared(v, num)
    case SetEnable(name, mode, ok) =>
      && (Missing(v, name) ==> r == Done && w == v)
      && forall at: nat :: Named(v, name, at) ==> Enabled(v, at, mode, ok, r, w)
  }

  // ----- What every event keeps -----

  /** A waiting configuration is that of an idle port of the same name. */
  predicate SoundView(p: View) {
    && (p.waiting.Some? || p.configNum == -1 ==> p.connected)
    && (p.waiting.Some? ==>
          var q := p.waiting.value;
          q.name == p.name && !q.connected && q.waiting.None? && q.configNum != -1)
  }

  predicate Compatible(p: View, q: View) {
    p.name != q.name && (p.connected && q.connected ==> p.device != q.device)
  }

  /** Names are distinct, devices exclusive, and only connected ports are marked or have a configuration waiting. */
  predicate Sound(v: seq<View>) {
    && (forall i :: 0 <= i < |v| ==> SoundView(v[i]))
    && forall i, j :: 0 <= i < j < |v| ==> Compatible(v[i], v[j])
  }

  /** One place at most has a name. */
  lemma NamedOnce(v: seq<View>, name: string, at: nat)
    requires Sound(v) && Named(v, name, at)
    ensures !Missing(v, name) && forall i: nat :: Named(v, name, i) ==> i == at
  {
    forall i: nat | Named(v, name, i)
      ensures i == at
    {
      assert i < at ==> Compatible(v[i], v[at]);
      assert at < i ==> Compatible(v[at], v[i]);
    }
  }

  // What an event does to the one port of a name is what it does.

  lemma DidAccept(v: seq<View>, name: string, accepted: bool, setUp: bool, at: nat, w: seq<View>)
    requires Sound(v) && (if at < |v| then Named(v, name, at) else Missing(v, name))
    requires if at < |v| then Accepted(v, at, accepted && setUp, w) else w == v
    ensures Did(v, Accept(name, accepted, setUp), Done, w)
  {
    hide Sound;
    if at < |v| {
      NamedOnce(v, name, at);
    }
  }

  lemma DidClose(v: seq<View>, name: string, at: nat, r: Outcome, w: seq<View>)
    requires Sound(v) && (if at < |v| then Named(v, name, at) else Missing(v, name))
    requires if at < |v| then Closed(v, at, r, w) else r == Done && w == v
    ensures Did(v, Close(name), r, w)
  {
    hide Sound;
    if at < |v| {
      NamedOnce(v, name, at);
    }
  }

  lemma DidNothing(v: seq<View>, configNum: int, ok: bool)
    ensures Did(v, Configure(None, configNum, ok), Failed, v)
  {
  }

  lemma DidConfigure(v: seq<View>, s: Settings, configNum: int, ok: bool, at: nat, r: Outcome, w: seq<View>)
    requires Sound(v) && (if at < |v| then Named(v, s.name, at) else Missing(v, s.name))
    requires at >= |v| ==> Added(v, s, configNum, ok, r, w)
    requires at < |v| ==>
      if v[at].connected then Noted(v, at, s, configNum, r, w) else Replaced(v, at, s, configNum, ok, r, w)
    ensures Did(v, Configure(Some(s), configNum, ok), r, w)
  {
    hide Sound, Added, Noted, Replaced;
    if at < |v| {
      NamedOnce(v, s.name, at);
    }
  }

  lemma DidSetEnable(v: seq<View>, name: string, mode: Mode, ok: bool, at: nat, r: Outcome, w: seq<View>)
    requires Sound(v) && (if at < |v| then Named(v, name, at) else Missing(v, name))
    requires if at < |v| then Enabled(v, at, mode, ok, r, w) else r == Done && w == v
    ensures Did(v, SetEnable(name, mode, ok), r, w)
  {
    hide Sound, Enabled;
    if at < |v| {
      NamedOnce(v, name, at);
    }
  }

  lemma FoundOrMissing(v: seq<View>, name: string) returns (at: nat)
    ensures Missing(v, name) <==> at == |v|
    ensures at < |v| ==> Named(v, name, at)
    ensures at <= |v|
  {
    if i: nat :| Named(v, name, i) {
      at := i;
    } else {
      at := |v|;
      forall i | 0 <= i < |v|
        ensures v[i].name != name
      {
        assert !Named(v, name, i);
      }
    }
  }

  lemma OneChanged(v: seq<View>, at: nat, p: View)
    requires Sound(v) && at < |v| && SoundView(p) && p.name == v[at].name
    requires p.connected ==> (v[at].connected && p.device == v[at].device) || !Taken(v, at, p.device)
    ensures Sound(v[at := p])
  {
    var w := v[at := p];
    forall i, j | 0 <= i < j < |w|
      ensures Compatible(w[i], w[j])
    {
      assert Compatible(v[i], v[j]);
    }
  }

  lemma OneGone(v: seq<View>, at: nat)
    requires Sound(v) && at < |v|
    ensures Sound(v[..at] + v[at + 1..])
  {
    var w := v[..at] + v[at + 1..];
    assert forall i :: 0 <= i < |w| ==> w[i] == v[if i < at then i else i + 1];
  }

  lemma OneAdded(v: seq<View>, p: View)
    requires Sound(v) && SoundView(p) && Missing(v, p.name) && (p.connected ==> !Taken(v, |v|, p.device))
    ensures Sound(v + [p])
  {
  }

  /** The ports left are exactly those of the configuration and the connected ones. */
  lemma {:induction false} ClearedAre(v: seq<View>, config: int)
    ensures forall q :: q in Cleared(v, config) <==>
              exists p :: p in v && (p.configNum == config || p.connected)
                && q == p.(configNum := Renumbered(p.configNum, config))
    ensures Sound(v) ==> Sound(Cleared(v, config))
    decreases |v|
  {
    hide SoundView, Renumbered;
    if v != [] {
      var front, last := v[..|v| - 1], v[|v| - 1];
      ClearedAre(front, config);
      assert v == front + [last];
      var kept := Cleared(front, config);
      if Sound(v) && (last.configNum == config || last.connected) {
        var q := last.(configNum := Renumbered(last.configNum, config));
        assert SoundView(q) by { StillSound(last, config); }
        forall i | 0 <= i < |kept|
          ensures Compatible(kept[i], q)
        {
          assert kept[i] in kept;
          var p :| p in front && kept[i] == p.(configNum := Renumbered(p.configNum, config));
          var j :| 0 <= j < |front| && front[j] == p;
          assert Compatible(v[j], v[|v| - 1]);
        }
      }
    }
  }

  lemma StillSound(p: View, config: int)
    requires SoundView(p) && (p.configNum == config || p.connected)
    ensures SoundView(p.(configNum := Renumbered(p.configNum, config)))
  {
  }

  /** Every event keeps the list sound. */
  lemma SoundKept(v: seq<View>, e: Event, r: Outcome, w: seq<View>)
    requires Sound(v) && e.Wf() && Did(v, e, r, w) && r != Exited
    ensures Sound(w)
  {
    match e
    case Clear(num) =>
      ClearedAre(v, num);
    case Configure(None, _, _) =>
    case Configure(Some(s), configNum, ok) =>
      var at := FoundOrMissing(v, s.name);
      if at == |v| {
        if r == Done {
          OneAdded(v, Configured(s, configNum).(connected := s.mode != Disabled && s.zeroPort));
        }
      } else {
        ConfigureKeeps(v, at, s, configNum, ok, r, w);
      }
    case Accept(name, accepted, setUp) =>
      var at := FoundOrMissing(v, name);
      if at < |v| {
        assert Accepted(v, at, accepted && setUp, w);
        OneChangedIfOther(v, at, v[at].(connected := true), w);
      }
    case Close(name) =>
      var at := FoundOrMissing(v, name);
      if at < |v| {
        CloseKeeps(v, at, r, w);
      }
    case SetEnable(name, mode, ok) =>
      var at := FoundOrMissing(v, name);
      if at < |v| {
        assert Enabled(v, at, mode, ok, r, w);
        var starts := Starts(v[at].mode, mode) && v[at].zeroPort;
        OneChanged(v, at, v[at].(mode := mode, connected := v[at].connected || starts));
      }
  }

  lemma OneChangedIfOther(v: seq<View>, at: nat, p: View, w: seq<View>)
    requires Sound(v) && at < |v| && (w == v || (w == v[at := p] && SoundView(p) && p.name == v[at].name
      && (p.connected ==> !Taken(v, at, p.device))))
    ensures Sound(w)
  {
    if w != v {
      OneChanged(v, at, p);
    }
  }

  lemma ConfigureKeeps(v: seq<View>, at: nat, s: Settings, configNum: int, ok: bool, r: Outcome, w: seq<View>)
    requires Sound(v) && Named(v, s.name, at) && configNum >= 0 && r != Exited
    requires if v[at].connected then Noted(v, at, s, configNum, r, w) else Replaced(v, at, s, configNum, ok, r, w)
    ensures Sound(w)
  {
    if v[at].connected {
      var mode := if v[at].waiting.Some? then Disabled else v[at].mode;
      OneChanged(v, at,
                 v[at].(mode := mode, configNum := configNum, waiting := Some(Configured(s, configNum))));
    } else {
      var starts := Starts(v[at].mode, s.mode) && s.zeroPort;
      OneChanged(v, at, Configured(s, configNum).(connected := starts));
    }
  }

  lemma CloseKeeps(v: seq<View>, at: nat, r: Outcome, w: seq<View>)
    requires Sound(v) && at < |v| && Closed(v, at, r, w) && r != Exited
    ensures Sound(w)
  {
    assert SoundView(v[at]);
    if v[at].connected {
      if v[at].configNum == -1 {
        OneGone(v, at);
      } else if v[at].waiting.Some? {
        OneChanged(v, at, v[at].waiting.value);
      } else {
        OneChanged(v, at, v[at].(connected := false));
      }
    }
  }

  // ----- Deferred configurations -----

  /**
    A configuration that comes while its port is connected takes the place of the port when the connection ends, and
    the list is then what it would be had the configuration come after that, but for a port on standard input.
  */
  lemma DeferredIsLater(v: seq<View>, s: Settings, num: int, ok: bool, at: nat, w: seq<View>, x: seq<View>,
                        idle: seq<View>, y: seq<View>)
    requires Sound(v) && Named(v, s.name, at) && v[at].connected && !v[at].zeroPort && num >= 0
    requires v[at].configNum != -1 && v[at].waiting.None? && !s.zeroPort
    requires Did(v, Configure(Some(s), num, ok), Done, w) && Did(w, Close(s.name), Done, x)
    requires Did(v, Close(s.name), Done, idle) && Did(idle, Configure(Some(s), num, ok), Done, y)
    ensures x == v[at := Configured(s, num)] && y == x
  {
    assert Noted(v, at, s, num, Done, w) && Named(w, s.name, at);
    assert Closed(w, at, Done, x);
    assert Closed(v, at, Done, idle) && Named(idle, s.name, at);
    assert Replaced(idle, at, s, num, ok, Done, y);
  }

  // ----- Runs -----

  /** The lists before, between and after the events, with the outcome of each. */
  ghost predicate Traced(views: seq<seq<View>>, outcomes: seq<Outcome>, events: seq<Event>) {
    && |views| == |outcomes| + 1 && |outcomes| <= |events|
    && forall i :: 0 <= i < |outcomes| ==> Did(views[i], events[i], outcomes[i], views[i + 1])
  }

  /** Only the last outcome can be the end of the process. */
  ghost predicate Going(outcomes: seq<Outcome>) {
    forall i :: 0 <= i < |outcomes| - 1 ==> outcomes[i] != Exited
  }

  /** From a sound list every list of a run is sound, but for that behind the end of the process. */
  lemma {:induction false} AllSound(views: seq<seq<View>>, outcomes: seq<Outcome>, events: seq<Event>, n: nat)
    requires Traced(views, outcomes, events) && (forall e <- events :: e.Wf()) && Sound(views[0])
    requires n <= |outcomes| && forall i :: 0 <= i < n ==> outcomes[i] != Exited
    ensures Sound(views[n])
  {
    hide Sound, Did;
    if n > 0 {
      AllSound(views, outcomes, events, n - 1);
      assert events[n - 1] in events;
      SoundKept(views[n - 1], events[n - 1], outcomes[n - 1], views[n]);
    }
  }
}
