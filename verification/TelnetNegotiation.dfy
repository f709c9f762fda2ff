/**
  How the parser of ser2net/telnet.c answers the negotiation of options (RFC 854, section "THE TELNET COMMAND
  STRUCTURE"): told by the bytes that join the reply queue and by the flags of the option table.
*/
module TelnetNegotiation {
  import opened Bytes
  import opened Telnet

  predicate IsVerb(verb: byte) { verb == WILL || verb == WONT || verb == DO || verb == DONT }

  /** WILL and WONT are about the other side's option, DO and DONT about one's own. */
  predicate AboutPeer(verb: byte) { verb == WILL || verb == WONT }

  /** The first row for the option, in front of the end of the table. */
  ghost predicate IsRow(cmds: seq<Cmd>, option: byte, i: nat) {
    && i < |cmds| && cmds[i].option == option
    && (forall j :: 0 <= j <= i ==> cmds[j].option != 255)
    && (forall j :: 0 <= j < i ==> cmds[j].option != option)
  }

  ghost predicate Known(cmds: seq<Cmd>, option: byte) {
    exists i: nat :: IsRow(cmds, option, i)
  }

  lemma {:induction false} RowFrom(cmds: seq<Cmd>, option: byte, from: nat)
    requires from <= |cmds| && forall j :: 0 <= j < from ==> cmds[j].option != 255 && cmds[j].option != option
    ensures forall i: nat :: IsRow(cmds, option, i) <==> FindFrom(cmds, option, from) == i
    decreases |cmds| - from
  {
    if from < |cmds| && cmds[from].option != 255 && cmds[from].option != option {
      RowFrom(cmds, option, from + 1);
    } else {
      assert forall i: nat :: IsRow(cmds, option, i) ==> i >= from;
    }
  }

  /** The search of the table finds the first row for an option, if it has one. */
  lemma RowFound(cmds: seq<Cmd>, option: byte)
    ensures forall i: nat :: IsRow(cmds, option, i) <==> Find(cmds, option) == i
    ensures Known(cmds, option) <==> Find(cmds, option) >= 0
  {
    RowFrom(cmds, option, 0);
    if Find(cmds, option) >= 0 {
      assert IsRow(cmds, option, Find(cmds, option));
    }
  }

  // ----- What is said -----

  /** The request is the answer to one that was sent. */
  predicate Awaited(row: Cmd, verb: byte) {
    if AboutPeer(verb) then row.sentDo else row.sentWill
  }

  /** The will handler is asked about options that the other side starts and that may be used. */
  predicate AsksHandler(row: Cmd, verb: byte) {
    verb == WILL && row.iWill && row.hasWillHandler && !row.sentDo
  }

  predicate Accepts(row: Cmd, verb: byte, agreed: bool) {
    (verb == WILL && row.iWill && (row.hasWillHandler ==> agreed)) || (verb == DO && row.iDo)
  }

  function Agreement(verb: byte): byte { if AboutPeer(verb) then DO else WILL }

  function Refusal(verb: byte): byte { if AboutPeer(verb) then DONT else WONT }

  function Said(options: seq<seq<byte>>): seq<byte> {
    if options == [] then [] else OptionBytes(options[0]) + Said(options[1..])
  }

  lemma {:induction false} OptionsSaid(s: State, options: seq<seq<byte>>)
    requires |s.out| + |Said(options)| <= MAX_XMIT
    ensures var t := SendOptions(s, options);
            t.out == s.out + Said(options) && t.error == s.error && t.ready == s.ready + |options|
    decreases |options|
  {
    hide OptionBytes;
    if options != [] {
      var t := CmdSend(s, OptionBytes(options[0]));
      OptionsSaid(t, options[1..]);
      assert (s.out + OptionBytes(options[0])) + Said(options[1..]) == s.out + Said(options);
    }
  }

  /** What the will handler says while it is asked. */
  function HandlerSays(cb: Callbacks, s: State, row: Cmd, verb: byte): seq<byte> {
    if AsksHandler(row, verb) then Said(cb.onWill(|s.events|)) else []
  }

  /** What the handler of a suboption answers joins the queue, if there is room for it. */
  lemma SuboptionReplied(cb: Callbacks, s: State, option: seq<byte>)
    requires s.Valid() && s.pos == 0 && Answered(s.cmds, option)
    requires |s.out| + |Said(cb.reply(|s.events|, Clip(option)))| <= MAX_XMIT
    ensures var t := Feed(cb, s, OptionBytes(option)).0;
            t.out == s.out + Said(cb.reply(|s.events|, Clip(option))) && t.cmds == s.cmds && t.error == s.error
  {
    hide Feed, Said, SendOptions, OptionBytes;
    RowFound(s.cmds, option[0]);
    SubParsed(cb, s, option);
    OptionsSaid(Clean(s).(events := s.events + [Suboption(Clip(option))]), cb.reply(|s.events|, Clip(option)));
  }

  /** What the will handler says stands before the three bytes of the answer. */
  lemma HandlerAsked(cb: Callbacks, s: State, option: byte)
    requires |s.out| + |Said(cb.onWill(|s.events|))| + 3 <= MAX_XMIT
    ensures var asking := Clean(s).(events := s.events + [WillQuery(option)]);
            var t := SendOptions(asking, cb.onWill(|s.events|));
            && t.out == s.out + Said(cb.onWill(|s.events|)) && t.error == s.error
            && forall answer: seq<byte> :: t.out + answer == s.out + (Said(cb.onWill(|s.events|)) + answer)
  {
    hide Said, SendOptions, OptionBytes;
    OptionsSaid(Clean(s).(events := s.events + [WillQuery(option)]), cb.onWill(|s.events|));
  }

  // ----- An option that the table does not have -----

  /** It is refused, and nothing else happens. */
  lemma UnknownRefused(cb: Callbacks, s: State, verb: byte, option: byte)
    requires s.Valid() && s.pos == 0 && IsVerb(verb) && !Known(s.cmds, option)
    ensures var (t, kept) := Feed(cb, s, [IAC, verb, option]);
            && t.pos == 0 && kept == [] && t.cmds == s.cmds && t.events == s.events
            && (if |s.out| + 3 <= MAX_XMIT then t.out == s.out + [IAC, Refusal(verb), option] && t.error == s.error
                else t.out == s.out && t.error)
  {
    hide Feed;
    NegotiationParsed(cb, s, verb, option);
    RowFound(s.cmds, option);
  }

  // ----- An option of the table -----

  /**
    A request that answers one's own is not answered again. Any other is, with agreement exactly when the row allows the
    option and a will handler, if there is one to ask, agrees; what that handler says goes in front.
  */
  lemma Replied(cb: Callbacks, s: State, verb: byte, option: byte, i: nat)
    requires s.Valid() && s.pos == 0 && IsVerb(verb) && IsRow(s.cmds, option, i)
    requires |s.out| + |HandlerSays(cb, s, s.cmds[i], verb)| + 3 <= MAX_XMIT
    ensures var row := s.cmds[i];
            var (t, kept) := Feed(cb, s, [IAC, verb, option]);
            var verdict := if Accepts(row, verb, cb.agree(|s.events|)) then Agreement(verb) else Refusal(verb);
            && t.pos == 0 && kept == [] && t.error == s.error
            && t.out == s.out + (if Awaited(row, verb) then []
                                 else HandlerSays(cb, s, row, verb) + [IAC, verdict, option])
            && t.events == s.events + (if AsksHandler(row, verb) then [WillQuery(option)] else [])
  {
    hide Feed, Said, SendOptions, OptionBytes, Terminated;
    NegotiationParsed(cb, s, verb, option);
    RowFound(s.cmds, option);
    if AsksHandler(s.cmds[i], verb) {
      HandlerAsked(cb, s, option);
    }
  }

  /** A queue without room for the three bytes of an answer stays as it is, and the error is set. */
  lemma NoRoomNoReply(cb: Callbacks, s: State, verb: byte, option: byte, i: nat)
    requires s.Valid() && s.pos == 0 && IsVerb(verb) && IsRow(s.cmds, option, i)
    requires |s.out| + 3 > MAX_XMIT && !Awaited(s.cmds[i], verb) && !AsksHandler(s.cmds[i], verb)
    ensures var t := Feed(cb, s, [IAC, verb, option]).0; t.error && t.out == s.out
  {
    hide Feed, SendOptions;
    NegotiationParsed(cb, s, verb, option);
    RowFound(s.cmds, option);
  }

  /**
    Of the table exactly the flags of that row change that tell of the side the request is about: it is noted as on or
    off, and no answer is awaited any more.
  */
  lemma FlagsChanged(cb: Callbacks, s: State, verb: byte, option: byte, i: nat)
    requires s.Valid() && s.pos == 0 && IsVerb(verb) && IsRow(s.cmds, option, i)
    ensures var cmds := Feed(cb, s, [IAC, verb, option]).0.cmds;
            && |cmds| == |s.cmds| && (forall j :: 0 <= j < |cmds| && j != i ==> cmds[j] == s.cmds[j])
            && cmds[i] == if AboutPeer(verb) then s.cmds[i].(sentDo := false, remWill := verb == WILL)
                          else s.cmds[i].(sentWill := false, remDo := verb == DO)
  {
    hide Feed, SendOptions;
    NegotiationParsed(cb, s, verb, option);
    RowFound(s.cmds, option);
  }

  // ----- Two sides -----

  /**
    A request of one's own is settled by one answer: the other side, if it has not asked for the same itself, answers
    it, agreeing exactly when its row says so; that answer is not answered, and both sides note the same.
  */
  lemma Settled(cb: Callbacks, s: State, i: nat, peerCb: Callbacks, peer: State, j: nat, option: byte)
    requires s.Valid() && s.pos == 0 && IsRow(s.cmds, option, i) && s.cmds[i].sentDo && |s.out| + 3 <= MAX_XMIT
    requires peer.Valid() && peer.pos == 0 && peer.out == []
    requires IsRow(peer.cmds, option, j) && !peer.cmds[j].sentWill
    ensures var asked := Feed(peerCb, peer, [IAC, DO, option]).0;
            var (t, kept) := Feed(cb, s, asked.out);
            && |asked.cmds| == |peer.cmds| && |t.cmds| == |s.cmds|
            && asked.out == [IAC, if peer.cmds[j].iDo then WILL else WONT, option] && asked.cmds[j].remDo
            && t.out == s.out && kept == [] && !t.cmds[i].sentDo && t.cmds[i].remWill == peer.cmds[j].iDo
  {
    hide Feed;
    Replied(peerCb, peer, DO, option, j);
    FlagsChanged(peerCb, peer, DO, option, j);
    var verb := if peer.cmds[j].iDo then WILL else WONT;
    assert Feed(peerCb, peer, [IAC, DO, option]).0.out == [IAC, verb, option];
    Replied(cb, s, verb, option, i);
    FlagsChanged(cb, s, verb, option, i);
  }

  /** The same for an offer. */
  lemma OfferSettled(cb: Callbacks, s: State, i: nat, peerCb: Callbacks, peer: State, j: nat, option: byte)
    requires s.Valid() && s.pos == 0 && IsRow(s.cmds, option, i) && s.cmds[i].sentWill && |s.out| + 3 <= MAX_XMIT
    requires peer.Valid() && peer.pos == 0 && peer.out == []
    requires IsRow(peer.cmds, option, j) && !peer.cmds[j].sentDo && !AsksHandler(peer.cmds[j], WILL)
    ensures var asked := Feed(peerCb, peer, [IAC, WILL, option]).0;
            var (t, kept) := Feed(cb, s, asked.out);
            && |asked.cmds| == |peer.cmds| && |t.cmds| == |s.cmds|
            && asked.out == [IAC, if peer.cmds[j].iWill then DO else DONT, option] && asked.cmds[j].remWill
            && t.out == s.out && kept == [] && !t.cmds[i].sentWill && t.cmds[i].remDo == peer.cmds[j].iWill
  {
    hide Feed;
    Replied(peerCb, peer, WILL, option, j);
    FlagsChanged(peerCb, peer, WILL, option, j);
    var verb := if peer.cmds[j].iWill then DO else DONT;
    assert Feed(peerCb, peer, [IAC, WILL, option]).0.out == [IAC, verb, option];
    Replied(cb, s, verb, option, i);
    FlagsChanged(cb, s, verb, option, i);
  }
}
