/**
  The linked list of ports of ser2net/dataxfer.c: accepting, closing and reconfiguring connections. A port that is
  connected keeps its place; what a new configuration says of it waits until the connection ends.
*/
module PortList {
  import opened Options
  import opened PortViews

  class PortInfo {
    const name: string
    const device: string
    const zeroPort: bool // served on standard input and output
    var mode: Mode
    var connected: bool
    var configNum: int
    var next: PortInfo?
    var newConfig: PortInfo?

    constructor (s: Settings, configNum: int)
      ensures name == s.name && device == s.device && zeroPort == s.zeroPort && mode == s.mode
      ensures !connected && this.configNum == configNum && next == null && newConfig == null
    {
      name, device, zeroPort, mode := s.name, s.device, s.zeroPort, s.mode;
      connected, this.configNum, next, newConfig := false, configNum, null, null;
    }

    /** What has the port's place after its connection: the configuration that waits for that, if there is one. */
    ghost function Heir(): PortInfo
      reads this`newConfig
    {
      if newConfig != null then newConfig else this
    }
  }

  ghost function Waiter(p: PortInfo): set<PortInfo>
    reads p`newConfig
  {
    if p.newConfig == null then {} else {p.newConfig}
  }

  /** What can be seen of a port and of the configuration that waits for it. */
  ghost function ViewOf(p: PortInfo): View
    reads p`mode, p`connected, p`configNum, p`newConfig
    reads Waiter(p)`mode, Waiter(p)`connected, Waiter(p)`configNum
  {
    var q := p.newConfig;
    View(p.name, p.device, p.zeroPort, p.mode, p.connected, p.configNum,
         if q == null then None else Some(View(q.name, q.device, q.zeroPort, q.mode, q.connected, q.configNum, None)))
  }

  lemma FrontSuccessors(s: seq<PortInfo>)
    requires s != []
    ensures var front, last := s[..|s| - 1], s[|s| - 1];
            && (forall p <- front :: p in s) && last in s
            && Successors(front) <= Successors(s) && Waiter(last) <= Successors(s)
  {
  }

  ghost function ViewsOf(s: seq<PortInfo>): (v: seq<View>)
    reads s`mode, s`connected, s`configNum, s`newConfig
    reads Successors(s)`mode, Successors(s)`connected, Successors(s)`configNum
    ensures |v| == |s| && forall i :: 0 <= i < |s| ==> v[i] == ViewOf(s[i])
  {
    if s == [] then []
    else
      FrontSuccessors(s);
      ViewsOf(s[..|s| - 1]) + [ViewOf(s[|s| - 1])]
  }

  /** The port at an index, or none past the end. */
  function PortAt(s: seq<PortInfo>, i: nat): PortInfo? {
    if i < |s| then s[i] else null
  }

  /** The port before an index, or none at the start. */
  function PortBefore(s: seq<PortInfo>, i: nat): PortInfo? {
    if 0 < i <= |s| then s[i - 1] else null
  }

  ghost predicate Chained(s: seq<PortInfo>, head: PortInfo?)
    reads s`next
  {
    && head == PortAt(s, 0)
    && forall i {:trigger s[i].next} :: 0 <= i < |s| ==> s[i].next == PortAt(s, i + 1)
  }

  /** Different places hold ports of different names, and so different ports. */
  ghost predicate DistinctNames(s: seq<PortInfo>) {
    forall i, j :: 0 <= i < j < |s| ==> s[i].name != s[j].name
  }

  /** The ports before an index have been sorted out, and the rest of the list has not been touched. */
  ghost predicate Progress(s: seq<PortInfo>, was: seq<PortInfo>, i: nat, at: nat, keep: set<PortInfo>) {
    && i <= |was| && at <= |s| && s == Survivors(was[..i], keep) + was[i..] && at == |Survivors(was[..i], keep)|
    && |s| - at == |was| - i && (forall p <- s :: p in was)
  }

  lemma ProgressStarts(was: seq<PortInfo>, keep: set<PortInfo>)
    ensures Progress(was, was, 0, 0, keep)
  {
    assert was[..0] == [] && [] + was[0..] == was;
  }

  lemma WithoutParts(s: seq<PortInfo>, at: nat)
    requires at < |s|
    ensures |Without(s, at)| == |s| - 1 && (at > 0 ==> Without(s, at)[at - 1] == s[at - 1])
    ensures forall k :: 0 <= k < |Without(s, at)| ==> Without(s, at)[k] == s[if k < at then k else k + 1]
    ensures forall k: nat :: PortAt(Without(s, at), k) == PortAt(s, if k < at then k else k + 1)
    ensures Deferred(s) ==> Deferred(Without(s, at))
  {
    assert forall p <- Without(s, at) :: p in s;
  }

  lemma ProgressStep(s: seq<PortInfo>, t: seq<PortInfo>, was: seq<PortInfo>, i: nat, at: nat, keep: set<PortInfo>,
                     kept: bool)
    requires Progress(s, was, i, at, keep) && i < |was| && at < |s|
    requires kept == (s[at] in keep) && t == if kept then s else Without(s, at)
    ensures Progress(t, was, i + 1, if kept then at + 1 else at, keep) && |t| == if kept then |s| else |s| - 1
  {
    assert was[..i + 1][..i] == was[..i] && s[at] == was[i];
    var done := Survivors(was[..i], keep);
    if kept {
      assert done + was[i..] == done + [was[i]] + was[i + 1..];
    } else {
      assert Without(s, at) == done + was[i + 1..];
    }
  }

  lemma ProgressEnds(s: seq<PortInfo>, was: seq<PortInfo>, i: nat, at: nat, keep: set<PortInfo>)
    requires Progress(s, was, i, at, keep) && at >= |s|
    ensures s == Survivors(was, keep) && s[..at] == s
  {
    assert was[..i] == was && was[i..] == [];
  }

  lemma Apart(s: seq<PortInfo>)
    requires DistinctNames(s)
    ensures forall i, j :: 0 <= i < j < |s| ==> s[i] != s[j]
  {
    forall i, j | 0 <= i < j < |s|
      ensures s[i] != s[j]
    {
      assert s[i].name != s[j].name;
    }
  }

  function Without<T>(s: seq<T>, at: nat): (r: seq<T>)
    requires at < |s|
    ensures |r| == |s| - 1 && forall i :: 0 <= i < |r| ==> r[i] == if i < at then s[i] else s[i + 1]
  {
    s[..at] + s[at + 1..]
  }

  /** A port other than this one is connected to the device. */
  ghost predicate Busy(s: seq<PortInfo>, port: PortInfo, device: string)
    reads s`connected
  {
    exists q :: q in s && q != port && q.device == device && q.connected
  }

  /** No two connected ports use the same device. */
  ghost predicate ExclusiveDevices(s: seq<PortInfo>)
    reads s`connected
  {
    forall p, q :: p in s && q in s && p != q && p.connected && q.connected ==> p.device != q.device
  }

  /** The waiting configurations are of ports of the same name that are not in use. */
  ghost predicate Waiting(s: seq<PortInfo>)
    reads s`newConfig, Successors(s)`newConfig, Successors(s)`connected, Successors(s)`configNum
  {
    forall p :: p in s && p.newConfig != null ==>
      && p.newConfig !in s && p.newConfig.name == p.name && !p.newConfig.connected
      && p.newConfig.newConfig == null && p.newConfig.configNum != -1
  }

  ghost function Successors(s: seq<PortInfo>): set<PortInfo>
    reads s`newConfig
  {
    set p | p in s && p.newConfig != null :: p.newConfig
  }

  /** A port is marked for removal, or has a configuration waiting, only while it is connected. */
  ghost predicate Deferred(s: seq<PortInfo>)
    reads s`newConfig, s`configNum, s`connected
  {
    forall p :: p in s && (p.newConfig != null || p.configNum == -1) ==> p.connected
  }

  /** The ports that a new configuration keeps: those in it, and those still connected. */
  ghost function Kept(s: seq<PortInfo>, config: int): set<PortInfo>
    reads s`configNum, s`connected
  {
    set p | p in s && (p.configNum == config || p.connected)
  }

  /** The ports of a list that are in a set, in the order of the list. */
  ghost function Survivors(s: seq<PortInfo>, keep: set<PortInfo>): (r: seq<PortInfo>)
    ensures forall i :: 0 <= i < |r| ==> r[i] in s && r[i] in keep
  {
    if s == [] then []
    else Survivors(s[..|s| - 1], keep) + if s[|s| - 1] in keep then [s[|s| - 1]] else []
  }

  lemma {:induction false} SurvivorsAre(s: seq<PortInfo>, keep: set<PortInfo>)
    ensures forall p :: p in Survivors(s, keep) <==> p in s && p in keep
    ensures DistinctNames(s) ==> DistinctNames(Survivors(s, keep))
  {
    if s != [] {
      var front, last := s[..|s| - 1], s[|s| - 1];
      SurvivorsAre(front, keep);
      assert s == front + [last];
      if DistinctNames(s) {
        var r := Survivors(front, keep);
        assert DistinctNames(front);
        forall i | 0 <= i < |r|
          ensures r[i].name != last.name
        {
          assert r[i] in r;
          assert r[i] in front;
          var j :| 0 <= j < |front| && front[j] == r[i];
          assert s[j].name != s[|s| - 1].name;
        }
      }
    }
  }

  lemma WithoutOne(s: seq<PortInfo>, at: nat)
    requires at < |s| && DistinctNames(s) && ExclusiveDevices(s) && Waiting(s)
    ensures var r := Without(s, at); DistinctNames(r) && ExclusiveDevices(r) && Waiting(r)
  {
    var r := Without(s, at);
    assert forall p :: p in r ==> p in s;
  }

  /** Without one port, only the link of the port before it is another. */
  lemma ChainWithout(s: seq<PortInfo>, head: PortInfo?, at: nat)
    requires at < |s| && Chained(s, head) && DistinctNames(s)
    ensures var r, prev := Without(s, at), PortBefore(s, at);
            && s[at].next == PortAt(r, at) && (prev == null <==> at == 0) && (at > 0 ==> head == PortAt(r, 0))
            && (at > 0 ==> prev == r[at - 1] && prev in s)
            && forall k {:trigger r[k]} :: 0 <= k < |r| && k + 1 != at ==>
                 r[k] != prev && r[k] in s && r[k].next == PortAt(r, k + 1)
  {
    Apart(s);
    WithoutParts(s, at);
    forall k | 0 <= k < |s| - 1 && k + 1 != at
      ensures var r := Without(s, at); r[k] != PortBefore(s, at) && r[k] in s && r[k].next == PortAt(r, k + 1)
    {
      assert s[k].next == PortAt(s, k + 1) && s[k + 1].next == PortAt(s, k + 2);
    }
  }

  lemma WithAnother(s: seq<PortInfo>, at: nat, port: PortInfo)
    requires at < |s| && DistinctNames(s) && ExclusiveDevices(s) && Waiting(s)
    requires port !in s && port.name == s[at].name && !port.connected && port.newConfig == null
    requires forall p :: p in s && p != s[at] ==> p.newConfig != port
    ensures var r := s[at := port]; DistinctNames(r) && ExclusiveDevices(r) && Waiting(r)
  {
    var r := s[at := port];
    Apart(s);
    assert forall p :: p in r ==> p == port || (p in s && p != s[at]);
  }

  lemma SuccessorsAre(s: seq<PortInfo>)
    ensures forall p :: p in s && p.newConfig != null ==> p.newConfig in Successors(s)
    ensures forall q :: q in Successors(s) ==> exists p :: p in s && p.newConfig == q
  {
  }

  lemma WaitingConfig(s: seq<PortInfo>, port: PortInfo)
    requires Waiting(s) && port in s && port.newConfig != null
    ensures port.newConfig !in s && port.newConfig in Successors(s)
    ensures port.newConfig.newConfig == null && port.newConfig.configNum != -1
  {
  }

  lemma OneMore(s: seq<PortInfo>, port: PortInfo)
    requires DistinctNames(s) && ExclusiveDevices(s) && Waiting(s)
    requires port !in s && port.newConfig == null && forall p <- s :: p.name != port.name && p.newConfig != port
    requires port.connected ==> forall p <- s :: p.connected ==> p.device != port.device
    ensures var r := s + [port]; DistinctNames(r) && ExclusiveDevices(r) && Waiting(r)
  {
    var r := s + [port];
    assert forall p :: p in r ==> p == port || p in s;
  }

  class Registry {
    var ports: PortInfo?
    ghost var list: seq<PortInfo>

    ghost predicate Linked()
      reads this, list, Successors(list)
    {
      Chained(list, ports) && DistinctNames(list) && ExclusiveDevices(list) && Waiting(list)
    }

    ghost predicate Valid()
      reads this, list, Successors(list)
    {
      Linked() && Deferred(list)
    }

    ghost function Views(): (v: seq<View>)
      reads this, list, Successors(list)
      ensures |v| == |list|
    {
      ViewsOf(list)
    }

    lemma ViewsSound()
      requires Valid()
      ensures Sound(Views())
    {
      var v := Views();
      forall i | 0 <= i < |v|
        ensures SoundView(v[i])
      {
        assert list[i] in list;
      }
      forall i, j | 0 <= i < j < |v|
        ensures Compatible(v[i], v[j])
      {
        assert list[i] in list && list[j] in list && list[i].name != list[j].name;
      }
    }

    constructor ()
      ensures Valid() && list == []
    {
      ports, list := null, [];
    }

    ghost predicate InUse(port: PortInfo)
      reads this, list
    {
      Busy(list, port, port.device)
    }

    /** The index is that of the port, or past the end for a port that is not in the list. */
    lemma InUseIsTaken(port: PortInfo, at: nat)
      requires DistinctNames(list) && at <= |list|
      requires if at < |list| then list[at] == port else port !in list
      ensures InUse(port) <==> Taken(Views(), at, port.device)
    {
      Apart(list);
      if InUse(port) {
        var q :| q in list && q != port && q.device == port.device && q.connected;
        var i :| 0 <= i < |list| && list[i] == q;
        assert Views()[i].connected;
      }
      if Taken(Views(), at, port.device) {
        var i :| 0 <= i < |list| && i != at && Views()[i].connected && Views()[i].device == port.device;
        assert list[i] in list && list[i] != port;
      }
    }

    method IsDeviceAlreadyInUse(port: PortInfo) returns (r: bool)
      requires Chained(list, ports)
      ensures r == InUse(port)
    {
      var curr := ports;
      ghost var i := 0;
      while curr != null
        invariant i <= |list| && curr == PortAt(list, i)
        invariant forall k :: 0 <= k < i ==> !(list[k] != port && list[k].device == port.device && list[k].connected)
        decreases |list| - i
      {
        if curr != port {
          if curr.device == port.device && curr.connected {
            return true;
          }
        }
        curr := curr.next;
        i := i + 1;
      }
      return false;
    }

    /** A connection is accepted only while neither the port nor its device is in use. */
    method HandleAccept(port: PortInfo, accepted: bool, setUp: bool) returns (refused: bool)
      requires Valid() && port in list
      modifies port`connected
      ensures Valid() && refused == old(port.connected || InUse(port))
      ensures port.connected == (old(port.connected) || (!refused && accepted && setUp))
    {
      if port.connected {
        return true;
      }
      var busy := IsDeviceAlreadyInUse(port);
      if busy {
        return true;
      }
      if accepted && setUp {
        port.connected := true;
      }
      return false;
    }

    /** Standard input is connected at once; the process ends when it cannot be. */
    method StartupPort(port: PortInfo, ok: bool) returns (r: Outcome)
      requires Chained(list, ports)
      modifies port`connected
      ensures port.zeroPort ==> r == if old(InUse(port)) || !ok then Exited else Done
      ensures !port.zeroPort ==> r == if ok then Done else Failed
      ensures port.connected == (old(port.connected) || (port.zeroPort && r == Done))
    {
      if port.zeroPort {
        var busy := IsDeviceAlreadyInUse(port);
        if busy || !ok {
          return Exited;
        }
        port.connected := true;
        return Done;
      }
      return if ok then Done else Failed;
    }

    /** The port before this one, if there is one. */
    method Predecessor(port: PortInfo) returns (prev: PortInfo?, ghost at: nat)
      requires Linked() && port in list
      ensures Linked() && at < |list| && list[at] == port && prev == PortBefore(list, at)
    {
      prev, at := null, 0;
      var curr := ports;
      while curr != null && curr != port
        invariant at <= |list| && curr == PortAt(list, at)
        invariant prev == PortBefore(list, at)
        invariant port in list[at..]
        decreases |list| - at
      {
        prev := curr;
        curr := curr.next;
        at := at + 1;
      }
    }

    method Unlink(prev: PortInfo?, curr: PortInfo, ghost at: nat)
      requires Linked() && at < |list| && list[at] == curr && prev == PortBefore(list, at)
      modifies this, list`next
      ensures Linked() && list == Without(old(list), at)
    {
      hide DistinctNames, ExclusiveDevices, Waiting, Successors, Deferred, Without, PortAt, PortBefore;
      WithoutOne(list, at);
      ChainWithout(list, ports, at);
      if prev == null {
        ports := curr.next;
      } else {
        prev.next := curr.next;
      }
      list := Without(list, at);
    }

    /** Another port of the same name takes the place of one. */
    method Replace(prev: PortInfo?, curr: PortInfo, port: PortInfo, ghost at: nat)
      requires Linked() && at < |list| && list[at] == curr && prev == PortBefore(list, at)
      requires port !in list && port.name == curr.name && !port.connected && port.newConfig == null
      requires forall p :: p in list && p != curr ==> p.newConfig != port
      modifies this, port`next, list`next
      ensures Linked() && list == old(list[at := port])
    {
      hide DistinctNames, ExclusiveDevices, Waiting, Successors;
      Apart(list);
      WithAnother(list, at, port);
      port.next := curr.next;
      if prev == null {
        ports := port;
      } else {
        prev.next := port;
      }
      list := list[at := port];
    }

    /** The objects that a run may touch: those there at the start, and new ones. */
    twostate predicate Within()
      reads this, list`newConfig
    {
      && (forall p <- list :: p in old(list) || p in old(Successors(list)) || fresh(p))
      && (forall p <- Successors(list) :: p in old(list) || p in old(Successors(list)) || fresh(p))
    }

    /** The end of a connection: the port goes if it was marked, and gives way to a configuration that waits. */
    method ShutdownPort(port: PortInfo) returns (r: Outcome, ghost at: nat)
      requires Valid() && port in list
      modifies this, list`next, port`connected, port`mode, port`newConfig, Successors(list)`next
      ensures at < |old(list)| && old(list)[at] == port && !port.connected
      ensures r == if port.zeroPort then Exited else Done
      ensures r == Exited ==> list == old(list)
      ensures r == Done ==> Valid()
      ensures r == Done && old(port.configNum) == -1 ==> list == Without(old(list), at)
      ensures r == Done && old(port.configNum) != -1 ==> list == old(list)[at := old(port.Heir())]
      ensures r == Done && old(port.configNum) != -1 ==> port.newConfig == null && old(port.Heir()).newConfig == null
      ensures old(port.newConfig) == null ==> unchanged(port`mode)
      ensures Within()
    {
      hide Chained, DistinctNames, ExclusiveDevices, Waiting, Successors;
      SuccessorsAre(list);
      Disconnect(port);
      var prev;
      prev, at := Predecessor(port);
      if port.zeroPort {
        return Exited, at;
      }
      Apart(list);
      Settle(prev, port, at);
      SuccessorsAre(list);
      return Done, at;
    }

    /** What becomes of a port whose connection has ended. */
    method Settle(prev: PortInfo?, port: PortInfo, ghost at: nat)
      requires Linked() && at < |list| && list[at] == port && prev == PortBefore(list, at)
      requires !port.connected
      requires forall p <- list :: p != port && (p.newConfig != null || p.configNum == -1) ==> p.connected
      modifies this, list`next, port`mode, port`newConfig, Successors(list)`next
      ensures Valid() && (old(port.configNum) == -1 ==> list == Without(old(list), at))
      ensures old(port.configNum) != -1 ==>
        list == old(list)[at := old(port.Heir())] && port.newConfig == null && old(port.Heir()).newConfig == null
      ensures old(port.newConfig) == null ==> unchanged(port`mode)
    {
      hide Chained, DistinctNames, ExclusiveDevices, Waiting, Successors;
      SuccessorsAre(list);
      Apart(list);
      ghost var was := list;
      if port.configNum == -1 {
        Unlink(prev, port, at);
      } else if port.newConfig != null {
        WaitingConfig(list, port);
        GiveWay(prev, port, at);
      }
      assert forall k :: 0 <= k < |list| ==> list[k] in was || list[k] == old(port.newConfig);
    }

    method Disconnect(port: PortInfo)
      requires Linked() && port in list
      modifies port`connected
      ensures Linked() && !port.connected
    {
      hide Chained, DistinctNames;
      port.connected := false;
    }

    method GiveWay(prev: PortInfo?, port: PortInfo, ghost at: nat)
      requires Linked() && at < |list| && list[at] == port && prev == PortBefore(list, at)
      requires port.newConfig != null && !port.connected
      modifies this, list`next, port`mode, port`newConfig, port.newConfig`next
      ensures Linked() && list == old(list[at := port.newConfig]) && port.newConfig == null
    {
      Apart(list);
      Replace(prev, port, port.newConfig, at);
      port.mode := Disabled;
      port.newConfig := null;
    }

    /** The port of a name, with the one before it. */
    method FindByName(name: string) returns (prev: PortInfo?, curr: PortInfo?, ghost at: nat)
      requires Chained(list, ports)
      ensures at <= |list| && curr == PortAt(list, at) && prev == PortBefore(list, at)
      ensures curr != null ==> curr.name == name
      ensures forall k :: 0 <= k < at ==> list[k].name != name
    {
      prev, curr, at := null, ports, 0;
      while curr != null && curr.name != name
        invariant at <= |list| && curr == PortAt(list, at)
        invariant prev == PortBefore(list, at)
        invariant forall k :: 0 <= k < at ==> list[k].name != name
        decreases |list| - at
      {
        prev := curr;
        curr := curr.next;
        at := at + 1;
      }
    }

    method Append(prev: PortInfo?, port: PortInfo)
      requires Linked() && prev == (if list == [] then null else list[|list| - 1])
      requires port.next == null && port !in list && port.newConfig == null
      requires forall p <- list :: p.name != port.name && p.newConfig != port
      requires port.connected ==> forall p <- list :: p.connected ==> p.device != port.device
      modifies this, list`next
      ensures Linked() && list == old(list) + [port]
    {
      hide DistinctNames, ExclusiveDevices, Waiting, Successors;
      Apart(list);
      OneMore(list, port);
      if prev == null {
        ports := port;
      } else {
        prev.next := port;
      }
      list := list + [port];
    }

    /** The ports before an index have been sorted out under a new configuration; the others are as they were. */
    ghost predicate Sorting(was: seq<PortInfo>, keep: set<PortInfo>, nums: map<PortInfo, int>, config: int,
                            i: nat, at: nat)
      reads this, list, was`connected, Successors(list)
    {
      && Valid() && Progress(list, was, i, at, keep) && at <= |list|
      && (forall k :: 0 <= k < |was| ==>
            was[k] in nums && (was[k] in keep <==> nums[was[k]] == config || was[k].connected))
      && (forall k :: 0 <= k < |list| ==>
            && list[k] in nums
            && list[k].configNum == if k < at then Renumbered(nums[list[k]], config) else nums[list[k]])
    }

    lemma FirstIsHead()
      requires Valid()
      ensures ports == PortAt(list, 0)
    {
    }

    lemma SortingStarts(nums: map<PortInfo, int>, config: int)
      requires Valid() && nums == map p | p in list :: p.configNum
      ensures Sorting(list, Kept(list, config), nums, config, 0, 0)
    {
      hide Registry.Valid, Progress;
      ProgressStarts(list, Kept(list, config));
      forall k | 0 <= k < |list|
        ensures list[k] in nums && nums[list[k]] == list[k].configNum
        ensures list[k] in Kept(list, config) <==> list[k].configNum == config || list[k].connected
      {
        assert list[k] in list;
      }
      hide Kept;
    }

    lemma SortingEnds(was: seq<PortInfo>, keep: set<PortInfo>, nums: map<PortInfo, int>, config: int, i: nat, at: nat)
      requires Sorting(was, keep, nums, config, i, at) && at >= |list|
      ensures Valid() && list == Survivors(was, keep)
      ensures forall p <- list ::
        p in nums && p.configNum == Renumbered(nums[p], config) && (nums[p] == config || p.connected)
    {
      hide Chained, ExclusiveDevices, Waiting, DistinctNames;
      ProgressEnds(list, was, i, at, keep);
      SurvivorsAre(was, keep);
    }

    /** A port that is kept is renumbered: marked for removal unless the configuration is its own. */
    method KeepOne(curr: PortInfo, config: int, ghost was: seq<PortInfo>, ghost keep: set<PortInfo>,
                   ghost nums: map<PortInfo, int>, ghost i: nat, ghost at: nat)
      returns (next: PortInfo?)
      requires Sorting(was, keep, nums, config, i, at) && at < |list| && list[at] == curr
      requires curr.configNum == config || curr.connected
      modifies curr`configNum
      ensures Sorting(was, keep, nums, config, i + 1, at + 1) && next == PortAt(list, at + 1)
    {
      hide ExclusiveDevices, DistinctNames;
      Apart(list);
      SortingStep(was, keep, nums, config, i, at);
      hide Progress;
      if curr.configNum != config {
        curr.configNum := -1;
      }
      next := curr.next;
    }

    /** A port of an older configuration without a connection is removed. */
    method DropOne(prev: PortInfo?, curr: PortInfo, config: int, ghost was: seq<PortInfo>, ghost keep: set<PortInfo>,
                   ghost nums: map<PortInfo, int>, ghost i: nat, ghost at: nat)
      returns (next: PortInfo?)
      requires Sorting(was, keep, nums, config, i, at)
      requires at < |list| && list[at] == curr && prev == PortBefore(list, at)
      requires curr.configNum != config && !curr.connected
      modifies this, list`next
      ensures Sorting(was, keep, nums, config, i + 1, at) && list == Without(old(list), at) && next == PortAt(list, at)
    {
      hide ExclusiveDevices, Waiting, DistinctNames, Progress, Deferred, Without;
      SortingStep(was, keep, nums, config, i, at);
      WithoutParts(list, at);
      next := curr.next;
      Unlink(prev, curr, at);
    }

    lemma SortingStep(was: seq<PortInfo>, keep: set<PortInfo>, nums: map<PortInfo, int>, config: int, i: nat, at: nat)
      requires Sorting(was, keep, nums, config, i, at) && at < |list|
      ensures i < |was| && (list[at] in keep <==> list[at].configNum == config || list[at].connected)
      ensures list[at] in keep ==> Progress(list, was, i + 1, at + 1, keep)
      ensures list[at] !in keep ==> Progress(Without(list, at), was, i + 1, at, keep)
    {
      hide Chained, ExclusiveDevices, Waiting, DistinctNames;
      assert list[at] == was[i];
      ProgressStep(list, if list[at] in keep then list else Without(list, at), was, i, at, keep, list[at] in keep);
    }

    /** Makes all ports that the configuration did not mention go, at once or when their connection ends. */
    method ClearOldPortConfig(config: int)
      requires Valid()
      modifies this, list`next, list`configNum
      ensures Valid() && list == Survivors(old(list), old(Kept(list, config)))
      ensures Within()
      ensures forall p :: p in list ==> p.configNum == config || (p.configNum == -1 && p.connected)
      ensures forall p :: p in old(list) && p in list ==> p.configNum == Renumbered(old(p.configNum), config)
    {
      hide Sorting, Registry.Valid, Survivors, Without;
      ghost var was, keep, nums := list, Kept(list, config), map p | p in list :: p.configNum;
      SortingStarts(nums, config);
      FirstIsHead();
      var curr, prev: PortInfo? := ports, null;
      ghost var i, at := 0, 0;
      while curr != null
        invariant i <= |was| && at <= |list| && |list| - at == |was| - i
        invariant Sorting(was, keep, nums, config, i, at)
        invariant curr == PortAt(list, at) && prev == PortBefore(list, at)
        invariant forall k :: 0 <= k < |list| ==> list[k] in was
        decreases |was| - i
      {
        if curr.configNum != config && !curr.connected {
          ghost var before := list;
          curr := DropOne(prev, curr, config, was, keep, nums, i, at);
          WithoutParts(before, at);
        } else {
          prev := curr;
          curr := KeepOne(curr, config, was, keep, nums, i, at);
          at := at + 1;
        }
        i := i + 1;
      }
      SortingEnds(was, keep, nums, config, i, at);
    }

    /**
      A port that is enabled again is set up; one on standard input is then connected, if its device is free. A port
      that is connected stays so whatever its state.
    */
    method ChangePortState(port: PortInfo, state: Mode, ok: bool) returns (r: Outcome)
      requires Linked() && port in list
      modifies port`mode, port`connected
      ensures r != Exited ==> Linked() && (old(Deferred(list)) ==> Deferred(list))
      ensures var starts := old(port.mode) == Disabled && state != Disabled;
        && (r == Exited <==> starts && port.zeroPort && (old(InUse(port)) || !ok))
        && (r == Failed <==> starts && !port.zeroPort && !ok)
        && port.connected == (old(port.connected) || (starts && port.zeroPort && r == Done))
      ensures r != Exited ==> port.mode == state
    {
      if port.mode == state {
        return Done;
      }
      r := Done;
      if state == Disabled {
      } else if port.mode == Disabled {
        r := StartupPort(port, ok);
        if r == Exited {
          return;
        }
      }
      port.mode := state;
    }

    /**
      One line of a configuration. A port of that name without a connection is replaced at its place; one with a
      connection only notes the new configuration, for when the connection ends; any other port is new, and last.
    */
    method PortConfig(settings: Option<Settings>, configNum: int, ok: bool)
      returns (r: Outcome, ghost at: nat, ghost port: PortInfo?)
      requires Valid() && configNum >= 0
      modifies this, list
      ensures r != Exited ==> Valid()
      ensures Within()
      ensures settings.None? ==> r == Failed && unchanged(this)
      ensures settings.Some? ==> port != null && Placed(settings.value, configNum, r, at, port)
      ensures settings.Some? && at < |old(list)| && old(list[at].connected) ==>
        r == Done && var q := old(list)[at]; q.connected && q.newConfig == port && q.configNum == configNum
      ensures forall k :: 0 <= k < |old(list)| && (settings.None? || k != at) ==>
        var q: PortInfo := old(list)[k]; unchanged(q`connected, q`configNum, q`newConfig)
      ensures Did(old(Views()), Configure(settings, configNum, ok), r, Views())
    {
      hide Registry.Valid, Did, Registry.Placed, ViewsOf;
      at, port := 0, null;
      if settings.None? {
        DidNothing(Views(), configNum, ok);
        WithinNow();
        return Failed, at, port;
      }
      r, at, port := PlaceConfig(settings.value, configNum, ok);
    }

    twostate lemma WithinNow()
      requires list == old(list) && forall p <- list :: p.newConfig == old(p.newConfig)
      ensures Within()
    {
    }

    /** Where a configuration goes, and what of it and of the port it is for can be seen. */
    twostate predicate Placed(s: Settings, configNum: int, r: Outcome, at: nat, new port: PortInfo)
      reads this, port
    {
      && at <= |old(list)| && (forall k :: 0 <= k < at ==> old(list)[k].name != s.name)
      && (at < |old(list)| ==> old(list)[at].name == s.name)
      && fresh(port) && port.name == s.name && port.device == s.device && port.configNum == configNum
      && (r == Done ==>
            && port.mode == s.mode && (port.connected ==> s.zeroPort && port.mode != Disabled)
            && list == if at == |old(list)| then old(list) + [port]
                       else if old(list[at].connected) then old(list)
                       else old(list)[at := port])
      && (r == Failed ==> unchanged(this) && at == |old(list)|)
    }

    /** One port more may be touched. */
    twostate lemma WithinPlaced(new port: PortInfo)
      requires fresh(port) && forall p <- list :: p in old(list) || p == port
      requires forall p <- list ::
        p.newConfig == null || p.newConfig == port || (p in old(list) && p.newConfig == old(p.newConfig))
      ensures Within()
    {
    }

    method PlaceConfig(s: Settings, configNum: int, ok: bool)
      returns (r: Outcome, ghost at: nat, ghost port: PortInfo)
      requires Valid() && configNum >= 0
      modifies this, list
      ensures r != Exited ==> Valid()
      ensures Within()
      ensures Placed(s, configNum, r, at, port)
      ensures at < |old(list)| && old(list[at].connected) ==>
        r == Done && var q := old(list)[at]; q.connected && q.newConfig == port && q.configNum == configNum
      ensures forall k :: 0 <= k < |old(list)| && k != at ==>
        var q: PortInfo := old(list)[k]; unchanged(q`connected, q`configNum, q`newConfig)
      ensures Did(old(Views()), Configure(Some(s), configNum, ok), r, Views())
    {
      hide Chained, DistinctNames, ExclusiveDevices, Deferred, Sound, Did, Added, Noted, Replaced, Named;
      hide Missing, ViewsOf, Registry.Within;
      ghost var v := Views();
      var p := new PortInfo(s, configNum);
      port := p;
      var prev, curr;
      prev, curr, at := FindByName(s.name);
      assert Views() == v;
      FoundView(s.name, curr, at);
      r := Settled(prev, curr, p, s, configNum, ok, at);
      WithinPlaced(p);
      DidConfigure(v, s, configNum, ok, at, r, Views());
    }

    /** The new port is added, takes the place of an idle one, or waits for a connected one. */
    method Settled(prev: PortInfo?, curr: PortInfo?, port: PortInfo, ghost s: Settings, configNum: int, ok: bool,
                   ghost at: nat) returns (r: Outcome)
      requires Valid() && at <= |list| && curr == PortAt(list, at) && prev == PortBefore(list, at)
      requires (forall k :: 0 <= k < at ==> list[k].name != s.name) && (curr != null ==> curr.name == s.name)
      requires port !in list && port !in Successors(list) && ViewOf(port) == Configured(s, configNum)
      requires port.next == null && configNum >= 0
      modifies this, list, port`next, port`mode, port`connected
      ensures r != Exited ==> Valid()
      ensures forall p <- list :: p in old(list) || p == port
      ensures forall p <- list ::
        p.newConfig == null || p.newConfig == port || (p in old(list) && p.newConfig == old(p.newConfig))
      ensures port.configNum == configNum
      ensures r == Done ==> port.mode == s.mode && (port.connected ==> s.zeroPort && s.mode != Disabled)
      ensures r == Done ==>
        list == if at == |old(list)| then old(list) + [port]
                else if old(list[at].connected) then old(list)
                else old(list)[at := port]
      ensures r == Failed ==> unchanged(this) && at == |old(list)|
      ensures curr != null && old(curr.connected) ==>
        r == Done && curr.connected && curr.newConfig == port && curr.configNum == configNum
      ensures forall k :: 0 <= k < |old(list)| && k != at ==>
        var q: PortInfo := old(list)[k]; unchanged(q`connected, q`configNum, q`newConfig)
      ensures at == |old(list)| ==> Added(old(Views()), s, configNum, ok, r, Views())
      ensures at < |old(list)| ==>
        if old(Views())[at].connected then Noted(old(Views()), at, s, configNum, r, Views())
        else Replaced(old(Views()), at, s, configNum, ok, r, Views())
    {
      hide Chained, ExclusiveDevices, Deferred, Added, Noted, Replaced, ViewsOf;
      Distinct();
      if curr == null {
        r := AddNew(prev, port, s, configNum, ok);
      } else if !curr.connected {
        assert Views()[at] == ViewOf(curr);
        r := ReplaceAt(prev, curr, port, s, configNum, ok, at);
      } else {
        assert Views()[at] == ViewOf(curr);
        DeferAt(curr, port, s, configNum, at);
        r := Done;
      }
    }

    /** A port whose name is not in the list yet. */
    method StartNew(prev: PortInfo?, port: PortInfo, ok: bool) returns (r: Outcome)
      requires Valid() && prev == (if list == [] then null else list[|list| - 1])
      requires port !in list && port !in Successors(list)
      requires port.next == null && port.newConfig == null && port.configNum != -1 && !port.connected
      requires forall p <- list :: p.name != port.name
      modifies this, list`next, port`connected
      ensures r != Exited ==> Valid()
      ensures list == if r == Done then old(list) + [port] else old(list)
      ensures SetUp(port.mode != Disabled, port.zeroPort, old(InUse(port)), ok, r)
      ensures r == Done ==> port.connected == (port.zeroPort && port.mode != Disabled)
      ensures r == Failed ==> unchanged(this) && !port.connected
    {
      if port.mode != Disabled {
        r := StartupPort(port, ok);
        if r != Done {
          return;
        }
      }
      Append(prev, port);
      r := Done;
    }

    /** A connected port notes its new configuration, in place of one that it may have noted before. */
    method Defer(curr: PortInfo, port: PortInfo, configNum: int)
      requires Valid() && curr in list && curr.connected && configNum != -1
      requires port !in list && port.name == curr.name && port.configNum == configNum
      requires !port.connected && port.newConfig == null
      modifies curr`mode, curr`configNum, curr`newConfig
      ensures Valid() && curr.newConfig == port && curr.configNum == configNum
      ensures curr.mode == if old(curr.newConfig) != null then Disabled else old(curr.mode)
    {
      hide Chained, DistinctNames, ExclusiveDevices;
      if curr.newConfig != null {
        curr.mode := Disabled;
      }
      curr.configNum := configNum;
      curr.newConfig := port;
    }

    lemma InUseReplaced(was: seq<PortInfo>, at: nat, port: PortInfo)
      requires at < |was| && list == was[at := port] && port !in was
      requires forall i, j :: 0 <= i < j < |was| ==> was[i] != was[j]
      ensures InUse(port) <==> Busy(was, was[at], port.device)
    {
      if InUse(port) {
        var q :| q in list && q != port && q.device == port.device && q.connected;
        var i :| 0 <= i < |list| && list[i] == q;
        assert was[i] == q && q in was && q != was[at];
      }
      if Busy(was, was[at], port.device) {
        var q :| q in was && q != was[at] && q.device == port.device && q.connected;
        var i :| 0 <= i < |was| && was[i] == q;
        assert list[i] == q && q in list;
      }
    }

    method ReplaceBy(prev: PortInfo?, curr: PortInfo, port: PortInfo, ok: bool, ghost at: nat) returns (r: Outcome)
      requires Valid() && at < |list| && list[at] == curr && prev == PortBefore(list, at)
      requires !curr.connected && port !in list && port !in Successors(list) && port.name == curr.name
      requires !port.connected && port.newConfig == null && port.configNum != -1
      modifies this, list`next, curr`mode, port`next, port`mode, port`connected
      ensures r != Exited ==> Valid() && r == Done && port.mode == old(port.mode)
      ensures r == Exited <==>
        Starts(old(curr.mode), old(port.mode)) && port.zeroPort && (old(Busy(list, curr, port.device)) || !ok)
      ensures r == Done ==> port.connected == (Starts(old(curr.mode), old(port.mode)) && port.zeroPort)
      ensures list == old(list)[at := port] && port.configNum == old(port.configNum)
    {
      Apart(list);
      var newState := port.mode;
      port.mode := curr.mode;
      curr.mode := Disabled;
      ghost var was := list;
      Replace(prev, curr, port, at);
      InUseReplaced(was, at, port);
      assert list[at] == port;
      r := ChangePortState(port, newState, ok);
      if r == Failed {
        r := Done;
      }
    }

    // ----- Events -----

    /** The port that has been found by its name, in the view of the list. */
    lemma FoundView(name: string, port: PortInfo?, at: nat)
      requires Valid() && at <= |list| && port == PortAt(list, at) && (port != null ==> port.name == name)
      requires forall k :: 0 <= k < at ==> list[k].name != name
      ensures Sound(Views())
      ensures if port != null then Named(Views(), name, at) else Missing(Views(), name) && at == |list|
    {
      ViewsSound();
    }

    lemma Distinct()
      requires Valid()
      ensures DistinctNames(list) && (forall i, j :: 0 <= i < j < |list| ==> list[i] != list[j])
      ensures forall p <- list :: p.newConfig == null || p.newConfig !in list
    {
      Apart(list);
    }

    /** Only the port at this place looks different. */
    twostate lemma OthersSame(at: nat)
      requires at < |list| && list == old(list)
      requires forall k :: 0 <= k < |list| && k != at ==> ViewOf(list[k]) == old(ViewOf(list[k]))
      ensures Views() == old(Views())[at := ViewOf(list[at])]
    {
    }

    method AcceptAt(port: PortInfo, accepted: bool, setUp: bool, ghost at: nat)
      requires Valid() && at < |list| && list[at] == port
      modifies port`connected
      ensures Valid() && Accepted(old(Views()), at, accepted && setUp, Views())
    {
      hide Chained, DistinctNames, ExclusiveDevices, Deferred, Taken;
      Distinct();
      InUseIsTaken(port, at);
      ghost var v := Views();
      assert v[at] == ViewOf(port);
      var refused := HandleAccept(port, accepted, setUp);
      assert refused == (v[at].connected || Taken(v, at, v[at].device));
      OthersSame(at);
      assert ViewOf(port) == v[at].(connected := port.connected);
      assert v[at := v[at]] == v;
      assert Views() == v[at := v[at].(connected := port.connected)];
    }

    method OnAccept(name: string, accepted: bool, setUp: bool)
      requires Valid()
      modifies list`connected
      ensures Valid() && Did(old(Views()), Accept(name, accepted, setUp), Done, Views())
    {
      hide Chained, DistinctNames, ExclusiveDevices, Deferred, Sound, Did, Accepted, Named, Missing;
      ghost var v := Views();
      var _, port, at := FindByName(name);
      assert Views() == v;
      FoundView(name, port, at);
      if port != null {
        AcceptAt(port, accepted, setUp, at);
      }
      DidAccept(v, name, accepted, setUp, at, Views());
    }

    // The views of a list that has changed, from those of the ports as they were.

    lemma ViewsMoved(v: seq<View>, s: seq<PortInfo>, at: nat)
      requires at < |s| == |v| && list == Without(s, at)
      requires forall k :: 0 <= k < |s| && k != at ==> ViewOf(s[k]) == v[k]
      ensures Views() == Without(v, at)
    {
      hide ViewsOf, ViewOf;
      forall k | 0 <= k < |list|
        ensures Views()[k] == Without(v, at)[k]
      {
        assert list[k] == s[if k < at then k else k + 1];
      }
    }

    lemma ViewsReplaced(v: seq<View>, s: seq<PortInfo>, at: nat, port: PortInfo)
      requires at < |s| == |v| && list == s[at := port]
      requires forall k :: 0 <= k < |s| && k != at ==> ViewOf(s[k]) == v[k]
      ensures Views() == v[at := ViewOf(port)]
    {
    }

    lemma ViewsGrown(v: seq<View>, s: seq<PortInfo>, port: PortInfo)
      requires |s| == |v| && list == s + [port]
      requires forall k :: 0 <= k < |s| ==> ViewOf(s[k]) == v[k]
      ensures Views() == v + [ViewOf(port)]
    {
      hide ViewsOf, ViewOf;
    }

    /** What the list looks like once a port has gone, given way or become idle. */
    lemma ClosedViews(v: seq<View>, was: seq<PortInfo>, at: nat, heir: PortInfo)
      requires at < |was| == |v| && v[at].connected && !v[at].zeroPort
      requires forall k :: 0 <= k < |was| && k != at ==> ViewOf(was[k]) == v[k]
      requires v[at].configNum == -1 ==> list == Without(was, at)
      requires v[at].configNum != -1 ==> list == was[at := heir]
      requires v[at].configNum != -1 ==>
        ViewOf(heir) == if v[at].waiting.Some? then v[at].waiting.value else v[at].(connected := false)
      ensures Closed(v, at, Done, Views())
    {
      hide ViewsOf, ViewOf;
      if v[at].configNum == -1 {
        ViewsMoved(v, was, at);
      } else {
        ViewsReplaced(v, was, at, heir);
      }
    }

    /** The end of the connection of the port at a place. */
    method CloseAt(port: PortInfo, ghost at: nat) returns (r: Outcome)
      requires Valid() && at < |list| && list[at] == port && port.connected
      modifies this, list`next, port`connected, port`mode, port`newConfig, Successors(list)`next
      ensures r != Exited ==> Valid()
      ensures Within()
      ensures Closed(old(Views()), at, r, Views())
    {
      hide Chained, DistinctNames, ExclusiveDevices, Deferred, Waiting, ViewsOf, Without, Registry.Within;
      Distinct();
      ghost var v, was, heir := Views(), list, port.Heir();
      assert v[at] == ViewOf(port);
      WaitingKept();
      ghost var place;
      r, place := ShutdownPort(port);
      assert place == at;
      if r == Done {
        forall k | 0 <= k < |was| && k != at
          ensures ViewOf(was[k]) == v[k]
        {
          assert was[k] in was && was[k] != port;
        }
        ClosedViews(v, was, at, heir);
      }
    }

    /** The waiting configurations are apart from the list. */
    lemma WaitingKept()
      requires Valid()
      ensures forall p <- list :: p.newConfig != null ==> p.newConfig in Successors(list) && p.newConfig !in list
    {
    }

    lemma IdleCloses(v: seq<View>, at: nat)
      requires v == Views() && at < |list| && !list[at].connected
      ensures Closed(v, at, Done, v)
    {
    }

    method OnClose(name: string) returns (r: Outcome)
      requires Valid()
      modifies this, list`next, list`connected, list`mode, list`newConfig, Successors(list)`next
      ensures (r != Exited ==> Valid()) && Within() && Did(old(Views()), Close(name), r, Views())
    {
      hide Chained, DistinctNames, ExclusiveDevices, Deferred, Sound, Did, Closed, Named, Missing;
      r := Done;
      ghost var v := Views();
      var _, port, at := FindByName(name);
      assert Views() == v;
      FoundView(name, port, at);
      if port != null && port.connected {
        r := CloseAt(port, at);
      } else if port != null {
        IdleCloses(v, at);
      }
      DidClose(v, name, at, r, Views());
    }

    // ----- Configuration lines -----

    method AddNew(prev: PortInfo?, port: PortInfo, ghost s: Settings, ghost num: int, ok: bool) returns (r: Outcome)
      requires Valid() && prev == (if list == [] then null else list[|list| - 1])
      requires port !in list && port !in Successors(list) && ViewOf(port) == Configured(s, num)
      requires port.next == null && port.configNum != -1 && forall p <- list :: p.name != port.name
      modifies this, list`next, port`connected
      ensures r != Exited ==> Valid()
      ensures list == if r == Done then old(list) + [port] else old(list)
      ensures r == Failed ==> unchanged(this)
      ensures r == Done ==> port.mode == s.mode && (port.connected ==> s.zeroPort && s.mode != Disabled)
      ensures Added(old(Views()), s, num, ok, r, Views())
    {
      hide Chained, ExclusiveDevices, Deferred, Waiting, Taken, Busy;
      ghost var v, was := Views(), list;
      assert forall k :: 0 <= k < |was| ==> v[k] == ViewOf(was[k]);
      WaitingKept();
      Distinct();
      InUseIsTaken(port, |list|);
      r := StartNew(prev, port, ok);
      forall k | 0 <= k < |was|
        ensures ViewOf(was[k]) == v[k]
      {
        assert was[k] != port && was[k].newConfig != port;
      }
      if r == Done {
        ViewsGrown(v, was, port);
        assert ViewOf(port) == Configured(s, num).(connected := s.mode != Disabled && s.zeroPort);
      } else if r == Failed {
        ViewsSame(v, was);
      }
    }

    lemma ViewsSame(v: seq<View>, s: seq<PortInfo>)
      requires |s| == |v| && list == s
      requires forall k :: 0 <= k < |s| ==> ViewOf(s[k]) == v[k]
      ensures Views() == v
    {
    }

    method DeferAt(curr: PortInfo, port: PortInfo, ghost s: Settings, configNum: int, ghost at: nat)
      requires Valid() && at < |list| && list[at] == curr && curr.connected && configNum != -1
      requires port !in list && port.name == curr.name && ViewOf(port) == Configured(s, configNum)
      modifies curr`mode, curr`configNum, curr`newConfig
      ensures Valid() && curr.newConfig == port && curr.configNum == configNum
      ensures Noted(old(Views()), at, s, configNum, Done, Views())
    {
      hide Chained, DistinctNames, ExclusiveDevices, Deferred, Waiting;
      ghost var v, was := Views(), list;
      assert forall k :: 0 <= k < |was| ==> v[k] == ViewOf(was[k]);
      WaitingKept();
      Distinct();
      Defer(curr, port, configNum);
      forall k | 0 <= k < |was| && k != at
        ensures ViewOf(was[k]) == v[k]
      {
        assert was[k] in was && was[k] != curr;
      }
      assert was[at := curr] == list;
      ViewsReplaced(v, was, at, curr);
    }

    lemma BusyIsTaken(at: nat, device: string)
      requires DistinctNames(list) && at < |list|
      ensures Busy(list, list[at], device) <==> Taken(Views(), at, device)
    {
      Apart(list);
      if Busy(list, list[at], device) {
        var q :| q in list && q != list[at] && q.device == device && q.connected;
        var i :| 0 <= i < |list| && list[i] == q;
        assert Views()[i].connected;
      }
      if Taken(Views(), at, device) {
        var i :| 0 <= i < |list| && i != at && Views()[i].connected && Views()[i].device == device;
        assert list[i] in list && list[i] != list[at];
      }
    }

    method ReplaceAt(prev: PortInfo?, curr: PortInfo, port: PortInfo, ghost s: Settings, ghost num: int, ok: bool,
                     ghost at: nat) returns (r: Outcome)
      requires Valid() && at < |list| && list[at] == curr && prev == PortBefore(list, at)
      requires !curr.connected && port !in list && port !in Successors(list) && port.name == curr.name
      requires ViewOf(port) == Configured(s, num) && port.configNum != -1
      modifies this, list`next, curr`mode, port`next, port`mode, port`connected
      ensures r != Exited ==> Valid() && r == Done
      ensures list == old(list)[at := port] && port.configNum == old(port.configNum)
      ensures r == Done ==> port.mode == s.mode && (port.connected ==> s.zeroPort && s.mode != Disabled)
      ensures Replaced(old(Views()), at, s, num, ok, r, Views())
    {
      hide Chained, DistinctNames, ExclusiveDevices, Deferred, Waiting, Taken, Busy;
      ghost var v, was := Views(), list;
      assert forall k :: 0 <= k < |was| ==> v[k] == ViewOf(was[k]);
      WaitingKept();
      Distinct();
      BusyIsTaken(at, port.device);
      r := ReplaceBy(prev, curr, port, ok, at);
      if r == Done {
        forall k | 0 <= k < |was| && k != at
          ensures ViewOf(was[k]) == v[k]
        {
          assert was[k] in was && was[k] != curr && was[k] != port;
        }
        ViewsReplaced(v, was, at, port);
      }
    }

    // ----- Configuration lines, clean-up and changes of state -----

    method EnableAt(port: PortInfo, mode: Mode, ok: bool, ghost at: nat) returns (r: Outcome)
      requires Valid() && at < |list| && list[at] == port
      modifies port`mode, port`connected
      ensures r != Exited ==> Valid()
      ensures Enabled(old(Views()), at, mode, ok, r, Views())
    {
      hide Chained, DistinctNames, ExclusiveDevices, Deferred, Taken, Waiting;
      Distinct();
      InUseIsTaken(port, at);
      ghost var v, was := Views(), list;
      assert v[at] == ViewOf(port);
      WaitingKept();
      r := ChangePortState(port, mode, ok);
      forall k | 0 <= k < |was| && k != at
        ensures ViewOf(was[k]) == v[k]
      {
        assert was[k] in was && was[k] != port;
      }
      assert was[at := port] == list;
      ViewsReplaced(v, was, at, port);
    }

    method OnSetEnable(name: string, mode: Mode, ok: bool) returns (r: Outcome)
      requires Valid()
      modifies list`mode, list`connected
      ensures r != Exited ==> Valid()
      ensures Did(old(Views()), SetEnable(name, mode, ok), r, Views())
    {
      hide Chained, DistinctNames, ExclusiveDevices, Deferred, Sound, Did, Enabled, Named, Missing;
      r := Done;
      ghost var v := Views();
      var _, port, at := FindByName(name);
      assert Views() == v;
      FoundView(name, port, at);
      if port != null {
        r := EnableAt(port, mode, ok, at);
      }
      DidSetEnable(v, name, mode, ok, at, r, Views());
    }

    /** The survivors look as the ports of the old list that are kept, renumbered. */
    lemma {:induction false} SurvivorViews(v: seq<View>, was: seq<PortInfo>, keep: set<PortInfo>, config: int)
      requires |v| == |was|
      requires forall k :: 0 <= k < |was| ==> (was[k] in keep <==> v[k].configNum == config || v[k].connected)
      requires forall k :: 0 <= k < |was| && was[k] in keep ==>
        ViewOf(was[k]) == v[k].(configNum := Renumbered(v[k].configNum, config))
      ensures ViewsOf(Survivors(was, keep)) == Cleared(v, config)
      decreases |was|
    {
      hide ViewOf, Renumbered, ViewsOf;
      if was == [] {
        ViewsOfNone();
      } else {
        var n := |was| - 1;
        SurvivorViews(v[..n], was[..n], keep, config);
        ViewsAppend(Survivors(was[..n], keep), was[n]);
      }
    }

    lemma ViewsOfNone()
      ensures ViewsOf([]) == []
    {
    }

    lemma ViewsAppend(s: seq<PortInfo>, p: PortInfo)
      ensures ViewsOf(s + [p]) == ViewsOf(s) + [ViewOf(p)] && ViewsOf(s + []) == ViewsOf(s)
    {
      assert (s + [p])[..|s|] == s && s + [] == s;
    }

    method OnClear(config: int)
      requires Valid()
      modifies this, list`next, list`configNum
      ensures Valid() && Within() && Did(old(Views()), Clear(config), Done, Views())
    {
      hide Chained, DistinctNames, ExclusiveDevices, Deferred, Waiting, Survivors, ViewsOf;
      ghost var v, was, keep := Views(), list, Kept(list, config);
      assert forall k :: 0 <= k < |was| ==> v[k] == ViewOf(was[k]) && was[k] in was;
      assert forall k :: 0 <= k < |was| ==> (was[k] in keep <==> v[k].configNum == config || v[k].connected);
      WaitingKept();
      ClearOldPortConfig(config);
      SurvivorsAre(was, keep);
      forall k | 0 <= k < |was| && was[k] in keep
        ensures ViewOf(was[k]) == v[k].(configNum := Renumbered(v[k].configNum, config))
      {
        assert was[k] in was && was[k] in list;
      }
      SurvivorViews(v, was, keep, config);
    }

    /** One event, which has its effect on the port of its name, and its outcome. */
    method Handle(e: Event) returns (r: Outcome)
      requires Valid() && e.Wf()
      modifies this, list, Successors(list)
      ensures (r != Exited ==> Valid()) && Within()
      ensures Did(old(Views()), e, r, Views())
    {
      hide Registry.Valid, Did, Registry.Views, Registry.Within;
      WithinNow();
      r := Done;
      match e
      case Accept(name, accepted, setUp) =>
        OnAccept(name, accepted, setUp);
        WithinNow();
      case Close(name) =>
        r := OnClose(name);
      case Configure(settings, configNum, ok) =>
        var c, _, _ := PortConfig(settings, configNum, ok);
        r := c;
      case Clear(clearedNum) =>
        OnClear(clearedNum);
      case SetEnable(name, mode, ok) =>
        r := OnSetEnable(name, mode, ok);
        WithinNow();
    }

    /**
      However connections come and go while the ports are reconfigured: the list is at every time what the events so far
      make of it, with distinct names and exclusive devices.
    */
    method Run(events: seq<Event>) returns (exited: bool, ghost views: seq<seq<View>>, ghost outcomes: seq<Outcome>)
      requires Valid() && forall e <- events :: e.Wf()
      modifies this, list, Successors(list)
      ensures !exited ==> Valid()
      ensures Traced(views, outcomes, events) && views[0] == old(Views()) && views[|outcomes|] == Views()
      ensures forall i :: 0 <= i < |outcomes| ==> (outcomes[i] == Exited <==> exited && i == |outcomes| - 1)
      ensures if exited then outcomes != [] else |outcomes| == |events|
      ensures forall i :: 0 <= i < |views| && !(exited && i == |outcomes|) ==> Sound(views[i])
    {
      hide Registry.Valid, Did, Registry.Views, Sound;
      ViewsSound();
      WithinNow();
      views, outcomes, exited := [Views()], [], false;
      for n := 0 to |events|
        invariant Valid() && Within() && |outcomes| == n
        invariant Traced(views, outcomes, events) && views[0] == old(Views()) && views[n] == Views()
        invariant forall i :: 0 <= i < |outcomes| ==> outcomes[i] != Exited
        invariant forall i :: 0 <= i < |views| ==> Sound(views[i])
      {
        assert events[n] in events;
        var r := Handle(events[n]);
        views, outcomes := views + [Views()], outcomes + [r];
        if r == Exited {
          exited := true;
          return;
        }
        ViewsSound();
      }
    }
  }
}
