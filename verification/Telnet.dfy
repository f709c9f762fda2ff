/**
  The telnet stream automaton of ser2net/telnet.c: commands are taken out of the data in place, and the
  parser keeps its state from one read to the next.
*/
module Telnet {
  import opened Bytes

  const MAX_CMD: nat := 31
  const MAX_XMIT: nat := 256

  const SE: byte := 240
  const SB: byte := 250
  const WILL: byte := 251
  const WONT: byte := 252
  const DO: byte := 253
  const DONT: byte := 254

  /** One row of the option table; the row with option 255 ends the table. */
  datatype Cmd = Cmd(option: byte, iWill: bool, iDo: bool, sentWill: bool, sentDo: bool, remWill: bool, remDo: bool,
                     hasOptionHandler: bool, hasWillHandler: bool)

  /**
    The callbacks made so far: one-byte commands, suboptions, WILL queries, and calls through the null handler of
    a known option, after which the source does not go on.
  */
  datatype Event =
    | Command(command: byte)
    | Suboption(payload: seq<byte>)
    | WillQuery(option: byte)
    | NullCall(code: byte)

  /** What the user of the parser answers; the first argument counts the callbacks made before. */
  datatype Callbacks = Callbacks(reply: (nat, seq<byte>) -> seq<seq<byte>>, agree: nat -> bool,
                                 onWill: nat -> seq<seq<byte>>)

  datatype State = State(cmd: seq<byte>, pos: nat, iac: bool, out: seq<byte>, error: bool, cmds: seq<Cmd>,
                         events: seq<Event>, ready: nat)
  {
    ghost predicate Valid() {
      && |cmd| == MAX_CMD + 1
      && pos <= MAX_CMD + 1
      && (iac && pos != 0 ==> pos >= 4)
      && |out| <= MAX_XMIT
      && Terminated(cmds)
    }
  }

  // ----- The option table -----

  predicate Terminated(cmds: seq<Cmd>) {
    exists i :: 0 <= i < |cmds| && cmds[i].option == 255
  }

  /** The first row for the option before the end of the table, or -1. */
  function FindFrom(cmds: seq<Cmd>, option: byte, i: nat): (r: int)
    requires i <= |cmds|
    ensures r == -1 || (i <= r < |cmds| && cmds[r].option == option && option != 255)
    decreases |cmds| - i
  {
    if i == |cmds| || cmds[i].option == 255 then -1
    else if cmds[i].option == option then i
    else FindFrom(cmds, option, i + 1)
  }

  function Find(cmds: seq<Cmd>, option: byte): int {
    FindFrom(cmds, option, 0)
  }

  // ----- Queued output -----

  /** Handling commands leaves the parser itself alone, only adds to the reply queue and stays within it. */
  ghost predicate Keeps(s: State, t: State) {
    && t.cmd == s.cmd && t.pos == s.pos && t.iac == s.iac
    && (|s.out| <= MAX_XMIT ==> |t.out| <= MAX_XMIT)
    && (Terminated(s.cmds) ==> Terminated(t.cmds))
    && s.out <= t.out && s.ready <= t.ready && (s.ready == t.ready ==> s.out == t.out)
  }

  ghost predicate SameHandler(a: Cmd, b: Cmd) {
    a.option == b.option && a.hasOptionHandler == b.hasOptionHandler
  }

  ghost predicate SameHandlers(a: seq<Cmd>, b: seq<Cmd>) {
    |a| == |b| && forall i :: 0 <= i < |a| ==> SameHandler(a[i], b[i])
  }

  /** Negotiation changes flags only, and calls back at most the WILL handler. */
  ghost predicate Negotiated(s: State, t: State) {
    SameHandlers(s.cmds, t.cmds) && (t.events == s.events || exists o :: t.events == s.events + [WillQuery(o)])
  }

  function CmdSend(s: State, bs: seq<byte>): (t: State)
    ensures Keeps(s, t) && t.cmds == s.cmds && t.events == s.events
  {
    if |bs| > MAX_XMIT - |s.out| then s.(error := true)
    else s.(out := s.out + bs, ready := s.ready + 1)
  }

  function OptionBytes(option: seq<byte>): seq<byte> {
    [IAC, SB] + Doubled(option) + [IAC, SE]
  }

  function SendOptions(s: State, options: seq<seq<byte>>): (t: State)
    ensures Keeps(s, t) && t.cmds == s.cmds && t.events == s.events
    decreases |options|
  {
    if options == [] then s
    else SendOptions(CmdSend(s, OptionBytes(options[0])), options[1..])
  }

  // ----- Commands -----

  function SetRow(s: State, i: nat, row: Cmd): (t: State)
    requires i < |s.cmds| && row.option == s.cmds[i].option && row.hasOptionHandler == s.cmds[i].hasOptionHandler
    ensures Keeps(s, t) && SameHandlers(s.cmds, t.cmds) && t.events == s.events
  {
    var t := s.(cmds := s.cmds[i := row]);
    assert Terminated(s.cmds) ==> Terminated(t.cmds) by {
      if j :| 0 <= j < |s.cmds| && s.cmds[j].option == 255 {
        assert t.cmds[j].option == 255;
      }
    }
    t
  }

  function HandleSuboption(cb: Callbacks, s: State, code: byte, payload: seq<byte>): (t: State)
    ensures Keeps(s, t)
  {
    var i := Find(s.cmds, code);
    if i < 0 then s
    else if !s.cmds[i].hasOptionHandler then s.(events := s.events + [NullCall(code)])
    else SendOptions(s.(events := s.events + [Suboption(payload)]), cb.reply(|s.events|, payload))
  }

  /** The answer to a WILL the other side started: refuse, agree, or ask the will handler. */
  function AnswerWill(cb: Callbacks, s: State, row: Cmd, option: byte): (t: State)
    ensures Keeps(s, t) && t.cmds == s.cmds
    ensures t.events == s.events || t.events == s.events + [WillQuery(option)]
  {
    if !row.iWill then CmdSend(s, [IAC, DONT, option])
    else if !row.hasWillHandler then CmdSend(s, [IAC, DO, option])
    else
      var asked := SendOptions(s.(events := s.events + [WillQuery(option)]), cb.onWill(|s.events|));
      CmdSend(asked, [IAC, if cb.agree(|s.events|) then DO else DONT, option])
  }

  function HandleWill(cb: Callbacks, s: State, option: byte): (t: State)
    ensures Keeps(s, t) && Negotiated(s, t)
  {
    var i := Find(s.cmds, option);
    if i < 0 then CmdSend(s, [IAC, DONT, option])
    else
      var row := s.cmds[i];
      if row.sentDo then SetRow(s, i, row.(sentDo := false, remWill := true))
      else SetRow(AnswerWill(cb, s, row, option), i, row.(remWill := true))
  }

  function HandleWont(s: State, option: byte): (t: State)
    ensures Keeps(s, t) && Negotiated(s, t)
  {
    var i := Find(s.cmds, option);
    if i < 0 then CmdSend(s, [IAC, DONT, option])
    else
      var row := s.cmds[i];
      if row.sentDo then SetRow(s, i, row.(sentDo := false, remWill := false))
      else SetRow(CmdSend(s, [IAC, DONT, option]), i, row.(remWill := false))
  }

  function HandleDo(s: State, option: byte): (t: State)
    ensures Keeps(s, t) && Negotiated(s, t)
  {
    var i := Find(s.cmds, option);
    if i < 0 then CmdSend(s, [IAC, WONT, option])
    else
      var row := s.cmds[i];
      if row.sentWill then SetRow(s, i, row.(sentWill := false, remDo := true))
      else SetRow(CmdSend(s, [IAC, if row.iDo then WILL else WONT, option]), i, row.(remDo := true))
  }

  function HandleDont(s: State, option: byte): (t: State)
    ensures Keeps(s, t) && Negotiated(s, t)
  {
    var i := Find(s.cmds, option);
    if i < 0 then CmdSend(s, [IAC, WONT, option])
    else
      var row := s.cmds[i];
      if row.sentWill then SetRow(s, i, row.(sentWill := false, remDo := false))
      else SetRow(CmdSend(s, [IAC, WONT, option]), i, row.(remDo := false))
  }

  function Negotiate(cb: Callbacks, s: State, verb: byte, option: byte): (t: State)
    ensures Keeps(s, t) && Negotiated(s, t)
  {
    if verb == WILL then HandleWill(cb, s, option)
    else if verb == WONT then HandleWont(s, option)
    else if verb == DO then HandleDo(s, option)
    else if verb == DONT then HandleDont(s, option)
    else s
  }

  function HandleCmd(cb: Callbacks, s: State): (t: State)
    requires |s.cmd| == MAX_CMD + 1 && s.pos <= MAX_CMD + 1
    ensures Keeps(s, t)
  {
    if s.pos < 2 then s
    else if s.cmd[1] < 250 then s.(events := s.events + [Command(s.cmd[1])])
    else if s.cmd[1] == SB then HandleSuboption(cb, s, s.cmd[2], s.cmd[2..s.pos])
    else Negotiate(cb, s, s.cmd[1], s.cmd[2])
  }

  // ----- The automaton, one byte at a time -----

  function Store(s: State, at: nat, b: byte): State
    requires at < |s.cmd|
  {
    s.(cmd := s.cmd[at := b], pos := at + 1)
  }

  /** Every byte keeps the position within the 32-byte command array and the queue within its 256 bytes. */
  function Step(cb: Callbacks, s: State, b: byte): (r: (State, seq<byte>))
    requires s.Valid()
    ensures r.0.Valid()
    ensures r.1 == [] || r.1 == [b]
  {
    if s.pos == 0 then
      if b == IAC then (Store(s, 0, b).(iac := false), []) else (s, [b])
    else if s.pos == 1 && b == IAC then
      (s.(pos := 0), [b])
    else if s.pos == 1 then
      var s1 := Store(s, 1, b);
      (if b < 250 then HandleCmd(cb, s1).(pos := 0) else s1, [])
    else if s.pos == 2 then
      var s1 := Store(s, 2, b);
      (if s1.cmd[1] != SB then HandleCmd(cb, s1).(pos := 0) else s1, [])
    else if s.iac then
      (if b == SE then HandleCmd(cb, s.(pos := s.pos - 1)).(pos := 0, iac := false)
       else if b == IAC then s.(iac := false)
       else s.(pos := s.pos - 1, iac := false), [])
    else
      var s1 := Store(s, if s.pos > MAX_CMD then MAX_CMD else s.pos, b);
      (if b == IAC then s1.(iac := true) else s1, [])
  }

  // ----- Feeding a stream -----

  function Feed(cb: Callbacks, s: State, bs: seq<byte>): (r: (State, seq<byte>))
    requires s.Valid()
    ensures r.0.Valid()
    decreases |bs|
  {
    if bs == [] then (s, [])
    else
      var (s1, kept) := Step(cb, s, bs[0]);
      var (s2, rest) := Feed(cb, s1, bs[1..]);
      (s2, kept + rest)
  }

  lemma FeedNothing(cb: Callbacks, s: State)
    requires s.Valid()
    ensures Feed(cb, s, []) == (s, [])
  {
  }

  /** Read boundaries do not matter: one read of a + b does what a read of a and then of b does. */
  lemma {:induction false} FeedAppend(cb: Callbacks, s: State, a: seq<byte>, b: seq<byte>)
    requires s.Valid()
    ensures var (s1, x) := Feed(cb, s, a);
            var (s2, y) := Feed(cb, s1, b);
            Feed(cb, s, a + b) == (s2, x + y)
    decreases |a|
  {
    if a == [] {
      assert a + b == b;
      assert Feed(cb, s, b).1 == [] + Feed(cb, s, b).1;
    } else {
      assert (a + b)[1..] == a[1..] + b;
      var (s0, w) := Step(cb, s, a[0]);
      FeedAppend(cb, s0, a[1..], b);
      var (s1, x) := Feed(cb, s0, a[1..]);
      var y := Feed(cb, s1, b).1;
      assert (w + x) + y == w + (x + y);
    }
  }

  /** Equal parser positions; the reply queue, the option table and the callbacks may differ. */
  ghost predicate SameParser(s: State, t: State) {
    s.cmd == t.cmd && s.pos == t.pos && s.iac == t.iac
  }

  lemma StepSameParser(cb: Callbacks, s: State, t: State, b: byte)
    requires s.Valid() && t.Valid() && SameParser(s, t)
    ensures SameParser(Step(cb, s, b).0, Step(cb, t, b).0) && Step(cb, s, b).1 == Step(cb, t, b).1
  {
    hide HandleCmd, Find, Terminated;
  }

  /** Which data bytes come through depends on the parser position alone. */
  lemma {:induction false} FeedSameParser(cb: Callbacks, s: State, t: State, bs: seq<byte>)
    requires s.Valid() && t.Valid() && SameParser(s, t)
    ensures SameParser(Feed(cb, s, bs).0, Feed(cb, t, bs).0) && Feed(cb, s, bs).1 == Feed(cb, t, bs).1
    decreases |bs|
  {
    if bs != [] {
      StepSameParser(cb, s, t, bs[0]);
      FeedSameParser(cb, Step(cb, s, bs[0]).0, Step(cb, t, bs[0]).0, bs[1..]);
    }
  }

  ghost predicate Queues(s: State, t: State) {
    s.out <= t.out && s.ready <= t.ready && (s.ready == t.ready ==> s.out == t.out)
  }

  lemma StepAnnounces(cb: Callbacks, s: State, b: byte)
    requires s.Valid()
    ensures Queues(s, Step(cb, s, b).0)
  {
    hide HandleCmd, Find, Terminated;
  }

  /** Replies queued while reading join the queue at its end, and have been announced through output_ready. */
  lemma {:induction false} FeedAnnounces(cb: Callbacks, s: State, bs: seq<byte>)
    requires s.Valid()
    ensures Queues(s, Feed(cb, s, bs).0)
    decreases |bs|
  {
    hide Step;
    if bs != [] {
      StepAnnounces(cb, s, bs[0]);
      FeedAnnounces(cb, Step(cb, s, bs[0]).0, bs[1..]);
    }
  }

  // ----- What a well-formed stream means -----

  /** The units of a telnet stream (RFC 854, section "TELNET COMMAND STRUCTURE"). */
  datatype Item =
    | Data(b: byte)
    | Escaped
    | Short(command: byte)
    | Negotiation(verb: byte, option: byte)
    | Sub(payload: seq<byte>)
  {
    predicate Wf() {
      match this
      case Data(b) => b != IAC
      case Escaped => true
      case Short(c) => c < 250
      case Negotiation(v, _) => v == WILL || v == WONT || v == DO || v == DONT
      case Sub(p) => p != [] && p[0] != IAC
    }

    function Encode(): seq<byte> {
      match this
      case Data(b) => [b]
      case Escaped => [IAC, IAC]
      case Short(c) => [IAC, c]
      case Negotiation(v, o) => [IAC, v, o]
      case Sub(p) => OptionBytes(p)
    }
  }

  /** A suboption reaches its handler clipped to the room the command array leaves it. */
  function Clip(payload: seq<byte>): seq<byte> {
    if |payload| > MAX_CMD - 2 then payload[..MAX_CMD - 2] else payload
  }

  /** What one unit does to the connection, and the data byte it delivers. */
  function Effect(cb: Callbacks, s: State, item: Item): (State, seq<byte>)
    requires item.Wf()
  {
    match item
    case Data(b) => (s, [b])
    case Escaped => (s, [IAC])
    case Short(c) => (s.(events := s.events + [Command(c)]), [])
    case Negotiation(v, o) => (Negotiate(cb, s, v, o), [])
    case Sub(p) => (HandleSuboption(cb, s, p[0], Clip(p)), [])
  }

  function EncodeAll(items: seq<Item>): seq<byte> {
    if items == [] then [] else items[0].Encode() + EncodeAll(items[1..])
  }

  function EffectAll(cb: Callbacks, s: State, items: seq<Item>): (State, seq<byte>)
    requires forall item :: item in items ==> item.Wf()
    decreases |items|
  {
    if items == [] then (s, [])
    else
      var (s1, x) := Effect(cb, s, items[0]);
      var (s2, y) := EffectAll(cb, s1, items[1..]);
      (s2, x + y)
  }

  /** The connection as its user sees it: the parser's scratch fields are blanked. */
  function Clean(s: State): State {
    s.(cmd := [], pos := 0, iac := false)
  }

  lemma {:induction false} SendOptionsClean(s: State, options: seq<seq<byte>>)
    ensures Clean(SendOptions(s, options)) == SendOptions(Clean(s), options)
    decreases |options|
  {
    if options != [] {
      SendOptionsClean(CmdSend(s, OptionBytes(options[0])), options[1..]);
    }
  }

  lemma SuboptionClean(cb: Callbacks, s: State, code: byte, payload: seq<byte>)
    ensures Clean(HandleSuboption(cb, s, code, payload)) == HandleSuboption(cb, Clean(s), code, payload)
  {
    SendOptionsClean(s.(events := s.events + [Suboption(payload)]), cb.reply(|s.events|, payload));
  }

  lemma CmdSendClean(s: State, bs: seq<byte>)
    ensures Clean(CmdSend(s, bs)) == CmdSend(Clean(s), bs)
  {
  }

  lemma AnswerWillClean(cb: Callbacks, s: State, row: Cmd, option: byte)
    ensures Clean(AnswerWill(cb, s, row, option)) == AnswerWill(cb, Clean(s), row, option)
  {
    hide CmdSend, SendOptions;
    var asking := s.(events := s.events + [WillQuery(option)]);
    SendOptionsClean(asking, cb.onWill(|s.events|));
    var asked := SendOptions(asking, cb.onWill(|s.events|));
    CmdSendClean(asked, [IAC, if cb.agree(|s.events|) then DO else DONT, option]);
    CmdSendClean(s, [IAC, DO, option]);
    CmdSendClean(s, [IAC, DONT, option]);
  }

  lemma HandleWillClean(cb: Callbacks, s: State, option: byte)
    ensures Clean(HandleWill(cb, s, option)) == HandleWill(cb, Clean(s), option)
  {
    var i := Find(s.cmds, option);
    if i >= 0 {
      AnswerWillClean(cb, s, s.cmds[i], option);
    }
  }

  lemma HandleDoClean(s: State, option: byte)
    ensures Clean(HandleDo(s, option)) == HandleDo(Clean(s), option)
  {
    hide Find, Terminated;
  }

  lemma HandleWontClean(s: State, option: byte)
    ensures Clean(HandleWont(s, option)) == HandleWont(Clean(s), option)
  {
    hide Find, Terminated;
  }

  lemma HandleDontClean(s: State, option: byte)
    ensures Clean(HandleDont(s, option)) == HandleDont(Clean(s), option)
  {
    hide Find, Terminated;
  }

  lemma NegotiateClean(cb: Callbacks, s: State, verb: byte, option: byte)
    ensures Clean(Negotiate(cb, s, verb, option)) == Negotiate(cb, Clean(s), verb, option)
  {
    hide HandleWill, HandleWont, HandleDo, HandleDont;
    HandleWillClean(cb, s, option);
    HandleDoClean(s, option);
    HandleWontClean(s, option);
    HandleDontClean(s, option);
  }

  /** A byte that delivers nothing only changes the state the rest is read in. */
  lemma FeedQuiet(cb: Callbacks, s: State, b: byte, rest: seq<byte>)
    requires s.Valid() && Step(cb, s, b).1 == []
    ensures Feed(cb, s, [b] + rest) == Feed(cb, Step(cb, s, b).0, rest)
  {
    assert ([b] + rest)[1..] == rest;
    var (t, kept) := Feed(cb, Step(cb, s, b).0, rest);
    assert [] + kept == kept;
  }

  lemma FeedLast(cb: Callbacks, s: State, b: byte)
    requires s.Valid()
    ensures Feed(cb, s, [b]) == Step(cb, s, b)
  {
    var (t, kept) := Step(cb, s, b);
    assert Feed(cb, t, []) == (t, []);
    assert kept + [] == kept;
  }

  /** In a suboption of which p has arrived so far, at the end of a (possibly doubled) byte. */
  ghost predicate InSub(s: State, p: seq<byte>) {
    && s.Valid() && !s.iac && p != []
    && s.cmd[1] == SB
    && s.pos == (if 2 + |p| > MAX_CMD + 1 then MAX_CMD + 1 else 2 + |p|)
    && forall j :: 0 <= j < |p| && j < MAX_CMD - 2 ==> s.cmd[2 + j] == p[j]
  }

  lemma SubByte(cb: Callbacks, s: State, p: seq<byte>, b: byte)
    requires InSub(s, p)
    ensures var s1 := Step(cb, s, b).0;
      var s2 := if b == IAC then Step(cb, s1, IAC).0 else s1;
      InSub(s2, p + [b]) && Clean(s2) == Clean(s)
    ensures Step(cb, s, b).1 == [] && (b == IAC ==> Step(cb, Step(cb, s, b).0, IAC).1 == [])
  {
  }

  lemma {:induction false} SubBody(cb: Callbacks, s: State, p: seq<byte>, rest: seq<byte>)
    requires InSub(s, p)
    ensures var (t, kept) := Feed(cb, s, Doubled(rest)); InSub(t, p + rest) && Clean(t) == Clean(s) && kept == []
    decreases |rest|
  {
    if rest == [] {
      assert p + rest == p;
    } else {
      var b, tail := rest[0], Doubled(rest[1..]);
      var s1 := Step(cb, s, b).0;
      SubByte(cb, s, p, b);
      assert p + [b] + rest[1..] == p + rest;
      if b == IAC {
        var s2 := Step(cb, s1, IAC).0;
        assert Doubled(rest) == [b] + ([IAC] + tail);
        FeedQuiet(cb, s, b, [IAC] + tail);
        FeedQuiet(cb, s1, IAC, tail);
        SubBody(cb, s2, p + [b], rest[1..]);
      } else {
        FeedQuiet(cb, s, b, tail);
        SubBody(cb, s1, p + [b], rest[1..]);
      }
    }
  }

  lemma SubStart(cb: Callbacks, s: State, b: byte, rest: seq<byte>) returns (t: State)
    requires s.Valid() && s.pos == 0 && b != IAC
    ensures InSub(t, [b]) && Clean(t) == Clean(s)
    ensures Feed(cb, s, [IAC, SB, b] + rest) == Feed(cb, t, rest)
  {
    var s1 := Step(cb, s, IAC).0;
    var s2 := Step(cb, s1, SB).0;
    t := Step(cb, s2, b).0;
    assert [IAC, SB, b] + rest == [IAC] + ([SB] + ([b] + rest));
    FeedQuiet(cb, s, IAC, [SB] + ([b] + rest));
    FeedQuiet(cb, s1, SB, [b] + rest);
    FeedQuiet(cb, s2, b, rest);
  }

  lemma SubParsed(cb: Callbacks, s: State, p: seq<byte>)
    requires s.Valid() && s.pos == 0 && p != [] && p[0] != IAC
    ensures var (t, kept) := Feed(cb, s, OptionBytes(p));
      t.pos == 0 && kept == [] && Clean(t) == HandleSuboption(cb, Clean(s), p[0], Clip(p))
  {
    var body := Doubled(p[1..]);
    assert OptionBytes(p) == [IAC, SB, p[0]] + (body + [IAC, SE]);
    var s1 := SubStart(cb, s, p[0], body + [IAC, SE]);
    FeedAppend(cb, s1, body, [IAC, SE]);
    SubBody(cb, s1, [p[0]], p[1..]);
    assert [p[0]] + p[1..] == p;
    SubEnd(cb, Feed(cb, s1, body).0, p);
  }

  lemma SubEnd(cb: Callbacks, s: State, p: seq<byte>)
    requires InSub(s, p)
    ensures var (t, kept) := Feed(cb, s, [IAC, SE]);
      t.pos == 0 && kept == [] && Clean(t) == HandleSuboption(cb, Clean(s), p[0], Clip(p))
  {
    var s1 := Step(cb, s, IAC).0;
    assert [IAC, SE] == [IAC] + [SE];
    FeedQuiet(cb, s, IAC, [SE]);
    FeedLast(cb, s1, SE);
    assert s1.cmd[2..s1.pos - 1] == Clip(p);
    SuboptionClean(cb, s1.(pos := s1.pos - 1), p[0], Clip(p));
  }

  /** A 255 and a byte that means nothing behind it leave a suboption as it is, but for what is clipped anyway. */
  lemma SubJunk(cb: Callbacks, s: State, p: seq<byte>, junk: byte)
    requires InSub(s, p) && junk != IAC && junk != SE
    ensures var s1 := Step(cb, s, IAC).0;
            var s2 := Step(cb, s1, junk).0;
            && InSub(s2, Clip(p)) && Clean(s2) == Clean(s)
            && Step(cb, s, IAC).1 == [] && Step(cb, s1, junk).1 == []
  {
  }

  lemma ClipTwice(a: seq<byte>, b: seq<byte>)
    ensures Clip(Clip(a) + b) == Clip(a + b)
    ensures a != [] ==> Clip(a) != [] && Clip(a)[0] == a[0]
  {
    var n := MAX_CMD - 2;
    if |a| > n {
      assert (a[..n] + b)[..n] == a[..n] == (a + b)[..n];
      assert b == [] ==> a[..n] + b == a[..n];
    }
  }

  lemma JunkText(first: byte, body: seq<byte>, junk: byte, behind: seq<byte>)
    ensures [IAC, SB] + (([first] + body) + ([IAC, junk] + behind))
         == [IAC, SB, first] + (body + ([IAC] + ([junk] + behind)))
  {
    var tail := [IAC, junk] + behind;
    assert tail == [IAC] + ([junk] + behind);
    assert ([first] + body) + tail == [first] + (body + tail);
  }

  /** A suboption with such a pair somewhere behind its code is read as if the pair were not there. */
  lemma BrokenParsed(cb: Callbacks, s: State, front: seq<byte>, junk: byte, rest: seq<byte>)
    requires s.Valid() && s.pos == 0 && front != [] && front[0] != IAC && junk != IAC && junk != SE
    ensures var broken := [IAC, SB] + (Doubled(front) + ([IAC, junk] + (Doubled(rest) + [IAC, SE])));
            var (t, kept) := Feed(cb, s, broken);
            && t.pos == 0 && kept == []
            && Clean(t) == HandleSuboption(cb, Clean(s), front[0], Clip(front + rest))
  {
    hide Feed, Step, Clip, InSub;
    var body, behind := Doubled(front[1..]), Doubled(rest) + [IAC, SE];
    JunkText(front[0], body, junk, behind);
    assert Doubled(front) == [front[0]] + body;
    var s0 := SubStart(cb, s, front[0], body + ([IAC] + ([junk] + behind)));
    FeedAppend(cb, s0, body, [IAC] + ([junk] + behind));
    SubBody(cb, s0, [front[0]], front[1..]);
    assert [front[0]] + front[1..] == front;
    var s1 := Feed(cb, s0, body).0;
    SubJunk(cb, s1, front, junk);
    var s2 := Step(cb, s1, IAC).0;
    FeedQuiet(cb, s1, IAC, [junk] + behind);
    FeedQuiet(cb, s2, junk, behind);
    var s3 := Step(cb, s2, junk).0;
    FeedAppend(cb, s3, Doubled(rest), [IAC, SE]);
    SubBody(cb, s3, Clip(front), rest);
    SubEnd(cb, Feed(cb, s3, Doubled(rest)).0, Clip(front) + rest);
    ClipTwice(front, rest);
  }

  lemma NegotiationParsed(cb: Callbacks, s: State, verb: byte, option: byte)
    requires s.Valid() && s.pos == 0 && (verb == WILL || verb == WONT || verb == DO || verb == DONT)
    ensures var (t, kept) := Feed(cb, s, [IAC, verb, option]);
      t.pos == 0 && kept == [] && Clean(t) == Negotiate(cb, Clean(s), verb, option)
  {
    var s1 := Step(cb, s, IAC).0;
    var s2 := Step(cb, s1, verb).0;
    assert [IAC, verb, option] == [IAC] + ([verb] + [option]);
    FeedQuiet(cb, s, IAC, [verb] + [option]);
    FeedQuiet(cb, s1, verb, [option]);
    FeedLast(cb, s2, option);
    NegotiateClean(cb, Store(s2, 2, option), verb, option);
  }

  /** One well-formed unit, read from the idle state, has its effect and leaves the parser idle. */
  lemma ItemParsed(cb: Callbacks, s: State, item: Item)
    requires s.Valid() && s.pos == 0 && item.Wf()
    ensures var (t, kept) := Feed(cb, s, item.Encode());
      t.pos == 0 && (Clean(t), kept) == Effect(cb, Clean(s), item)
  {
    match item {
      case Data(b) =>
        FeedLast(cb, s, b);
      case Escaped =>
        assert item.Encode() == [IAC] + [IAC];
        FeedQuiet(cb, s, IAC, [IAC]);
        FeedLast(cb, Step(cb, s, IAC).0, IAC);
      case Short(c) =>
        assert item.Encode() == [IAC] + [c];
        FeedQuiet(cb, s, IAC, [c]);
        FeedLast(cb, Step(cb, s, IAC).0, c);
      case Negotiation(v, o) =>
        NegotiationParsed(cb, s, v, o);
      case Sub(p) =>
        SubParsed(cb, s, p);
    }
  }

  /** The parser inverts the encoding of every well-formed stream, whatever follows whatever. */
  lemma {:induction false} StreamParsed(cb: Callbacks, s: State, items: seq<Item>)
    requires s.Valid() && s.pos == 0 && forall item :: item in items ==> item.Wf()
    ensures var (t, kept) := Feed(cb, s, EncodeAll(items));
      t.pos == 0 && (Clean(t), kept) == EffectAll(cb, Clean(s), items)
    decreases |items|
  {
    if items != [] {
      FeedAppend(cb, s, items[0].Encode(), EncodeAll(items[1..]));
      ItemParsed(cb, s, items[0]);
      StreamParsed(cb, Feed(cb, s, items[0].Encode()).0, items[1..]);
    }
  }

  // ----- Round trips -----

  /** The option table has a handler for suboptions that begin like the payload. */
  predicate Answered(cmds: seq<Cmd>, payload: seq<byte>) {
    payload != [] && Find(cmds, payload[0]) >= 0 && cmds[Find(cmds, payload[0])].hasOptionHandler
  }

  lemma {:induction false} FindSame(a: seq<Cmd>, b: seq<Cmd>, option: byte, i: nat)
    requires SameHandlers(a, b) && i <= |a|
    ensures FindFrom(a, option, i) == FindFrom(b, option, i)
    decreases |a| - i
  {
    if i < |a| {
      FindSame(a, b, option, i + 1);
    }
  }

  /** The option table knows the code but has no handler for it. */
  predicate Unhandled(cmds: seq<Cmd>, code: byte) {
    Find(cmds, code) >= 0 && !cmds[Find(cmds, code)].hasOptionHandler
  }

  predicate Permitted(cmds: seq<Cmd>, e: Event) {
    match e
    case Suboption(payload) => Answered(cmds, payload)
    case NullCall(code) => Unhandled(cmds, code)
    case _ => true
  }

  /** Only suboptions the table answers reach a handler, and a null one is called only for known options without. */
  ghost predicate OnlyPermitted(s: State, t: State) {
    && SameHandlers(s.cmds, t.cmds) && s.events <= t.events
    && forall k :: |s.events| <= k < |t.events| ==> Permitted(s.cmds, t.events[k])
  }

  lemma HandleCmdEvents(cb: Callbacks, s: State)
    requires |s.cmd| == MAX_CMD + 1 && s.pos <= MAX_CMD + 1 && (s.cmd[1] == SB ==> s.pos > 2)
    ensures OnlyPermitted(s, HandleCmd(cb, s))
  {
    hide Find, Terminated, Negotiate;
    if s.cmd[1] == SB {
      assert s.cmd[2..s.pos][0] == s.cmd[2];
    }
  }

  lemma StepEvents(cb: Callbacks, s: State, b: byte)
    requires s.Valid()
    ensures OnlyPermitted(s, Step(cb, s, b).0)
  {
    hide HandleCmd, Permitted, Terminated;
    if s.pos == 1 && b < 250 {
      HandleCmdEvents(cb, Store(s, 1, b));
    } else if s.pos == 2 {
      HandleCmdEvents(cb, Store(s, 2, b));
    } else if s.pos > 2 && s.iac && b == SE {
      HandleCmdEvents(cb, s.(pos := s.pos - 1));
    }
  }

  lemma {:induction false} FeedEvents(cb: Callbacks, s: State, bs: seq<byte>)
    requires s.Valid()
    ensures OnlyPermitted(s, Feed(cb, s, bs).0)
    decreases |bs|
  {
    if bs != [] {
      var s1 := Step(cb, s, bs[0]).0;
      StepEvents(cb, s, bs[0]);
      FeedEvents(cb, s1, bs[1..]);
      var t := Feed(cb, s, bs).0;
      assert t == Feed(cb, s1, bs[1..]).0;
      forall k | |s.events| <= k < |t.events|
        ensures Permitted(s.cmds, t.events[k])
      {
        if k < |s1.events| {
          assert t.events[k] == s1.events[k];
        } else {
          PermittedSame(s.cmds, s1.cmds, t.events[k]);
        }
      }
    }
  }

  lemma PermittedSame(a: seq<Cmd>, b: seq<Cmd>, e: Event)
    requires SameHandlers(a, b) && Permitted(b, e)
    ensures Permitted(a, e)
  {
    if e.Suboption? {
      FindSame(a, b, e.payload[0], 0);
    } else if e.NullCall? {
      FindSame(a, b, e.code, 0);
    }
  }

  ghost predicate CallsNull(cb: Callbacks, s: State, bs: seq<byte>)
    requires s.Valid()
  {
    var t := Feed(cb, s, bs).0;
    exists k :: |s.events| <= k < |t.events| && t.events[k].NullCall?
  }

  /**
    Some input makes the parser call through a null option handler if and only if the option table knows an option
    without a handler; the suboption of that option, with nothing in it, is such an input.
  */
  lemma NullCallIff(cb: Callbacks, s: State)
    requires s.Valid() && s.pos == 0
    ensures (exists bs :: CallsNull(cb, s, bs)) <==> (exists code :: Unhandled(s.cmds, code))
  {
    if bs :| CallsNull(cb, s, bs) {
      FeedEvents(cb, s, bs);
      var t := Feed(cb, s, bs).0;
      var k :| |s.events| <= k < |t.events| && t.events[k].NullCall?;
      assert Permitted(s.cmds, t.events[k]);
    }
    if code :| Unhandled(s.cmds, code) {
      SubParsed(cb, s, [code]);
      var t := Feed(cb, s, OptionBytes([code])).0;
      assert Clean(t).events == s.events + [NullCall(code)];
      assert t.events[|s.events|].NullCall?;
      assert CallsNull(cb, s, OptionBytes([code]));
    }
  }

  /**
    Exactly when a sent option survives the trip: the bytes queued by telnet_send_option call the option handler
    once, with the option clipped to 29 bytes, deliver no data and leave the parser idle, if and only if the
    option is not empty and its first byte is a known option code with a handler (255 never is).
  */
  lemma OptionRoundTrip(cb: Callbacks, s: State, option: seq<byte>)
    requires s.Valid() && s.pos == 0
    ensures var (t, kept) := Feed(cb, s, OptionBytes(option));
      (t.events == s.events + [Suboption(Clip(option))] && t.pos == 0 && kept == []) <==> Answered(s.cmds, option)
  {
    var (t, kept) := Feed(cb, s, OptionBytes(option));
    if Answered(s.cmds, option) {
      SubParsed(cb, s, option);
      assert t.events == HandleSuboption(cb, Clean(s), option[0], Clip(option)).events;
      assert t.events == s.events + [Suboption(Clip(option))] && t.pos == 0 && kept == [];
    }
    if t.events == s.events + [Suboption(Clip(option))] {
      FeedEvents(cb, s, OptionBytes(option));
      assert t.events[|s.events|] == Suboption(Clip(option));
    }
  }

  function DataItems(bs: seq<byte>): (items: seq<Item>)
    ensures forall item :: item in items ==> item.Wf()
  {
    if bs == [] then []
    else [if bs[0] == IAC then Escaped else Data(bs[0])] + DataItems(bs[1..])
  }

  lemma {:induction false} DataItemsMeaning(cb: Callbacks, s: State, bs: seq<byte>)
    ensures EncodeAll(DataItems(bs)) == Doubled(bs) && EffectAll(cb, s, DataItems(bs)) == (s, bs)
    decreases |bs|
  {
    if bs != [] {
      DataItemsMeaning(cb, s, bs[1..]);
      assert DataItems(bs)[1..] == DataItems(bs[1..]);
      assert [bs[0]] + bs[1..] == bs;
    }
  }

  /** Doubling the 255s of a block and parsing it gives the block back and does nothing else. */
  lemma EscapeRoundTrip(cb: Callbacks, s: State, bs: seq<byte>)
    requires s.Valid() && s.pos == 0
    ensures var (t, kept) := Feed(cb, s, Doubled(bs));
      kept == bs && t.pos == 0 && Clean(t) == Clean(s)
  {
    DataItemsMeaning(cb, Clean(s), bs);
    StreamParsed(cb, s, DataItems(bs));
  }
}
