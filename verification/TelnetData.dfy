/** The telnet connection record of ser2net/telnet.h and the routines of ser2net/telnet.c that update it in place. */
module TelnetConnection {
  import opened Bytes
  import opened Telnet

  class TelnetData {
    const telnetCmd: array<byte>
    var telnetCmdPos: nat
    var suboptionIac: bool
    const outTelnetCmd: array<byte>
    var outTelnetCmdSize: nat
    var error: bool
    const cmds: array<Cmd>
    // The callbacks made (cmd_handler, option and will handlers) and the calls of output_ready.
    var events: seq<Event>
    var ready: nat

    /** Every index the routines use stays inside its array. */
    ghost predicate Safe()
      reads this, cmds
    {
      && telnetCmd.Length == MAX_CMD + 1 && outTelnetCmd.Length == MAX_XMIT && telnetCmd != outTelnetCmd
      && telnetCmdPos <= MAX_CMD + 1 && outTelnetCmdSize <= MAX_XMIT
      && Terminated(cmds[..])
    }

    ghost predicate Valid()
      reads this, telnetCmd, outTelnetCmd, cmds
    {
      Safe() && Value().Valid()
    }

    /** The bytes waiting to be sent. */
    ghost function Replies(): (bs: seq<byte>)
      reads this`outTelnetCmdSize, outTelnetCmd
      ensures outTelnetCmdSize <= outTelnetCmd.Length ==> |bs| == outTelnetCmdSize
    {
      if outTelnetCmdSize <= outTelnetCmd.Length then outTelnetCmd[..outTelnetCmdSize] else []
    }

    ghost function Value(): State
      reads this, telnetCmd, outTelnetCmd, cmds
    {
      State(telnetCmd[..], telnetCmdPos, suboptionIac, Replies(), error, cmds[..], events, ready)
    }

    lemma Parts()
      requires Valid()
      ensures Value().Valid() && Value().out == Replies() && |Replies()| == outTelnetCmdSize
      ensures Value().ready == ready && Value().events == events && Value().error == error
    {
    }

    /** telnet_init: an idle parser with the initial negotiation queued. */
    constructor (table: array<Cmd>, initSeq: seq<byte>)
      requires Terminated(table[..]) && |initSeq| <= MAX_XMIT
      ensures Valid() && cmds == table && fresh(telnetCmd) && fresh(outTelnetCmd)
      ensures Value().Valid() && Value().pos == 0 && Replies() == initSeq && outTelnetCmdSize == |initSeq|
      ensures !error && events == [] && ready == 1
    {
      telnetCmd := new byte[MAX_CMD + 1];
      var out := new byte[MAX_XMIT];
      outTelnetCmd := out;
      telnetCmdPos, suboptionIac, error := 0, false, false;
      outTelnetCmdSize := |initSeq|;
      cmds := table;
      events, ready := [], 1;
      new;
      for i := 0 to |initSeq|
        modifies outTelnetCmd
        invariant outTelnetCmd[..i] == initSeq[..i]
      {
        Put(i, initSeq[i]);
      }
    }

    /** One byte stored into the reply queue's buffer. */
    method Put(pos: nat, b: byte)
      requires pos < outTelnetCmd.Length
      modifies outTelnetCmd
      ensures outTelnetCmd[..pos + 1] == old(outTelnetCmd[..pos]) + [b]
    {
      outTelnetCmd[pos] := b;
    }

    method FindCmd(option: byte) returns (i: int)
      requires Terminated(cmds[..])
      ensures i == Find(cmds[..], option)
    {
      ghost var end :| 0 <= end < cmds.Length && cmds[..][end].option == 255;
      i := 0;
      while cmds[i].option != 255
        invariant 0 <= i <= end
        invariant FindFrom(cmds[..], option, i) == Find(cmds[..], option)
        decreases end - i
      {
        if cmds[i].option == option {
          return i;
        }
        i := i + 1;
      }
      i := -1;
    }

    method TelnetCmdSend(bs: seq<byte>)
      requires Safe()
      modifies this`outTelnetCmdSize, this`error, this`ready, outTelnetCmd
      ensures Safe() && Value() == CmdSend(old(Value()), bs)
    {
      var pos := outTelnetCmdSize;
      var left := MAX_XMIT - pos;
      if |bs| > left {
        error := true;
        return;
      }
      for i := 0 to |bs|
        modifies outTelnetCmd
        invariant outTelnetCmd[..pos + i] == old(outTelnetCmd[..pos]) + bs[..i]
      {
        Put(pos + i, bs[i]);
      }
      outTelnetCmdSize := pos + |bs|;
      ready := ready + 1;
    }

    /** The room an option takes in the queue: its bytes, its 255s once more, and the markers. */
    static method OptionLength(option: seq<byte>) returns (realLen: nat)
      ensures realLen == |OptionBytes(option)|
    {
      realLen := 0;
      for i := 0 to |option|
        invariant realLen + |Doubled(option[i..])| == |Doubled(option)|
      {
        assert option[i..][1..] == option[i + 1..];
        if option[i] == IAC {
          realLen := realLen + 1;
        }
        realLen := realLen + 1;
      }
      realLen := realLen + 4;
    }

    /** The option's bytes from position start on, every 255 stored twice. */
    method PutDoubled(start: nat, option: seq<byte>) returns (pos: nat)
      requires start + |Doubled(option)| <= outTelnetCmd.Length
      modifies outTelnetCmd
      ensures pos == start + |Doubled(option)|
      ensures outTelnetCmd[..pos] == old(outTelnetCmd[..start]) + Doubled(option)
    {
      pos := start;
      for i := 0 to |option|
        invariant pos == start + |Doubled(option[..i])| && pos <= outTelnetCmd.Length
        invariant outTelnetCmd[..pos] == old(outTelnetCmd[..start]) + Doubled(option[..i])
      {
        DoubledPrefix(option, i);
        Put(pos, option[i]);
        pos := pos + 1;
        if option[i] == IAC {
          Put(pos, option[i]);
          pos := pos + 1;
        }
      }
      assert option[..|option|] == option;
    }

    method PutOption(start: nat, option: seq<byte>) returns (pos: nat)
      requires start + |OptionBytes(option)| <= outTelnetCmd.Length
      modifies outTelnetCmd
      ensures pos == start + |OptionBytes(option)|
      ensures outTelnetCmd[..pos] == old(outTelnetCmd[..start]) + OptionBytes(option)
    {
      Put(start, IAC);
      Put(start + 1, SB);
      pos := PutDoubled(start + 2, option);
      Put(pos, IAC);
      Put(pos + 1, SE);
      pos := pos + 2;
      assert outTelnetCmd[..pos] == old(outTelnetCmd[..start]) + OptionBytes(option);
    }

    /** telnet_send_option: the option between its markers, its 255s doubled, if the queue has room for it. */
    method TelnetSendOption(option: seq<byte>)
      requires Safe()
      modifies this`outTelnetCmdSize, this`error, this`ready, outTelnetCmd
      ensures Safe() && Value() == CmdSend(old(Value()), OptionBytes(option))
    {
      var pos := outTelnetCmdSize;
      var left := MAX_XMIT - pos;
      var realLen := OptionLength(option);
      if realLen > left {
        error := true;
        return;
      }
      pos := PutOption(pos, option);
      outTelnetCmdSize := pos;
      ready := ready + 1;
    }

    /** An option sent outside of any read; the result tells whether output_ready was called. */
    method Notify(option: seq<byte>) returns (announced: bool)
      requires Valid()
      modifies this`outTelnetCmdSize, this`error, this`ready, outTelnetCmd
      ensures Valid() && Value() == CmdSend(old(Value()), OptionBytes(option)) && old(Replies()) <= Replies()
      ensures announced == (ready > old(ready)) && (!announced ==> outTelnetCmdSize == old(outTelnetCmdSize))
      ensures old(outTelnetCmdSize) + |OptionBytes(option)| <= MAX_XMIT ==>
        outTelnetCmdSize == old(outTelnetCmdSize) + |OptionBytes(option)|
    {
      var calls := ready;
      TelnetSendOption(option);
      assert Value() == CmdSend(old(Value()), OptionBytes(option));
      assert ready == calls ==> |Value().out| == |old(Value()).out|;
      assert |Value().out| == outTelnetCmdSize && |old(Value()).out| == old(outTelnetCmdSize);
      announced := ready > calls;
    }

    /** The replies a callback sends. */
    method SendReplies(options: seq<seq<byte>>)
      requires Safe()
      modifies this`outTelnetCmdSize, this`error, this`ready, outTelnetCmd
      ensures Safe() && Value() == SendOptions(old(Value()), options)
    {
      for i := 0 to |options|
        invariant Safe() && SendOptions(Value(), options[i..]) == SendOptions(old(Value()), options)
      {
        assert options[i..][1..] == options[i + 1..];
        TelnetSendOption(options[i]);
      }
    }

    /** handle_telnet_cmd for a suboption: a known option's handler is called, also when there is none. */
    method HandleOption(cb: Callbacks, code: byte, payload: seq<byte>)
      requires Safe()
      modifies this`outTelnetCmdSize, this`error, this`ready, this`events, outTelnetCmd
      ensures Safe() && Value() == HandleSuboption(cb, old(Value()), code, payload)
    {
      var i := FindCmd(code);
      if i < 0 {
        return;
      }
      if !cmds[i].hasOptionHandler {
        events := events + [NullCall(code)];
        return;
      }
      var n := |events|;
      events := events + [Suboption(payload)];
      SendReplies(cb.reply(n, payload));
    }

    method SendI(verb: byte, option: byte)
      requires Safe()
      modifies this`outTelnetCmdSize, this`error, this`ready, outTelnetCmd
      ensures Safe() && Value() == CmdSend(old(Value()), [IAC, verb, option])
    {
      TelnetCmdSend([IAC, verb, option]);
    }

    method UpdateRow(i: nat, row: Cmd)
      requires Safe() && i < cmds.Length && SameHandler(row, cmds[i])
      modifies cmds
      ensures Safe() && Value() == SetRow(old(Value()), i, row)
    {
      cmds[i] := row;
      assert cmds[..] == old(cmds[..])[i := row];
      assert Value() == SetRow(old(Value()), i, row);
    }

    /** The answer to a WILL the other side started. */
    method Answer(cb: Callbacks, row: Cmd, option: byte)
      requires Safe()
      modifies this`outTelnetCmdSize, this`error, this`ready, this`events, outTelnetCmd
      ensures Safe() && Value() == AnswerWill(cb, old(Value()), row, option)
    {
      hide Terminated;
      if !row.iWill {
        SendI(DONT, option);
      } else {
        var agreed := true;
        if row.hasWillHandler {
          var n := |events|;
          events := events + [WillQuery(option)];
          SendReplies(cb.onWill(n));
          agreed := cb.agree(n);
        }
        if agreed {
          SendI(DO, option);
        } else {
          SendI(DONT, option);
        }
      }
    }

    method Will(cb: Callbacks, option: byte)
      requires Safe()
      modifies this`outTelnetCmdSize, this`error, this`ready, this`events, outTelnetCmd, cmds
      ensures Safe() && Value() == HandleWill(cb, old(Value()), option)
    {
      var i := FindCmd(option);
      hide Find, AnswerWill;
      if i < 0 || !cmds[i].sentDo {
        if i < 0 {
          SendI(DONT, option);
        } else {
          Answer(cb, cmds[i], option);
          UpdateRow(i, cmds[i].(remWill := true));
        }
      } else {
        UpdateRow(i, cmds[i].(sentDo := false, remWill := true));
      }
    }

    method Wont(option: byte)
      requires Safe()
      modifies this`outTelnetCmdSize, this`error, this`ready, outTelnetCmd, cmds
      ensures Safe() && Value() == HandleWont(old(Value()), option)
    {
      var i := FindCmd(option);
      if i < 0 || !cmds[i].sentDo {
        SendI(DONT, option);
        if i >= 0 {
          UpdateRow(i, cmds[i].(remWill := false));
        }
      } else {
        UpdateRow(i, cmds[i].(sentDo := false, remWill := false));
      }
    }

    method Do(option: byte)
      requires Safe()
      modifies this`outTelnetCmdSize, this`error, this`ready, outTelnetCmd, cmds
      ensures Safe() && Value() == HandleDo(old(Value()), option)
    {
      var i := FindCmd(option);
      if i < 0 || !cmds[i].sentWill {
        if i < 0 || !cmds[i].iDo {
          SendI(WONT, option);
        } else {
          SendI(WILL, option);
        }
        if i >= 0 {
          UpdateRow(i, cmds[i].(remDo := true));
        }
      } else {
        UpdateRow(i, cmds[i].(sentWill := false, remDo := true));
      }
    }

    method Dont(option: byte)
      requires Safe()
      modifies this`outTelnetCmdSize, this`error, this`ready, outTelnetCmd, cmds
      ensures Safe() && Value() == HandleDont(old(Value()), option)
    {
      var i := FindCmd(option);
      if i < 0 || !cmds[i].sentWill {
        SendI(WONT, option);
        if i >= 0 {
          UpdateRow(i, cmds[i].(remDo := false));
        }
      } else {
        UpdateRow(i, cmds[i].(sentWill := false, remDo := false));
      }
    }

    method HandleTelnetCmd(cb: Callbacks)
      requires Safe()
      modifies this`outTelnetCmdSize, this`error, this`ready, this`events, outTelnetCmd, cmds
      ensures Safe() && Value() == HandleCmd(cb, old(Value()))
    {
      var size := telnetCmdPos;
      if size < 2 {
        return;
      }
      if telnetCmd[1] < 250 {
        events := events + [Command(telnetCmd[1])];
      } else if telnetCmd[1] == SB {
        HandleOption(cb, telnetCmd[2], telnetCmd[2..size]);
      } else if telnetCmd[1] == WILL {
        Will(cb, telnetCmd[2]);
      } else if telnetCmd[1] == WONT {
        Wont(telnetCmd[2]);
      } else if telnetCmd[1] == DO {
        Do(telnetCmd[2]);
      } else if telnetCmd[1] == DONT {
        Dont(telnetCmd[2]);
      }
    }

    /** The head of the reply queue has been written; the rest moves to the front. */
    method DropSent(n: nat)
      requires Safe() && n <= outTelnetCmdSize
      modifies this`outTelnetCmdSize, outTelnetCmd
      ensures Safe() && Value() == old(Value()).(out := old(Value()).out[n..])
    {
      ghost var was := outTelnetCmd[..];
      var i, j := n, 0;
      while i < outTelnetCmdSize
        modifies outTelnetCmd
        invariant n <= i <= outTelnetCmdSize && j == i - n
        invariant outTelnetCmd[..j] == was[n..i] && (n > 0 ==> outTelnetCmd[i..] == was[i..])
        invariant n == 0 ==> outTelnetCmd[..] == was
      {
        outTelnetCmd[j] := outTelnetCmd[i];
        i, j := i + 1, j + 1;
      }
      outTelnetCmdSize := outTelnetCmdSize - n;
      assert outTelnetCmd[..outTelnetCmdSize] == was[..old(outTelnetCmdSize)][n..];
    }

    // ----- The data path -----

    /** The bytes after position pos move down by one. */
    static method DeleteChar(data: array<byte>, base: nat, pos: nat, len: nat) returns (left: nat)
      requires pos < len && base + len <= data.Length
      modifies data
      ensures left == len - 1
      ensures data[base + pos..base + left] == old(data[base + pos + 1..base + len])
      ensures forall k :: 0 <= k < data.Length && (k < base + pos || base + len <= k) ==> data[k] == old(data[k])
    {
      for i := pos to len - 1
        invariant data[base + pos..base + i] == old(data[base + pos + 1..base + i + 1])
        invariant forall k :: 0 <= k < data.Length && (k < base + pos || base + i <= k) ==> data[k] == old(data[k])
      {
        data[base + i] := data[base + i + 1];
      }
      left := len - 1;
    }

    method StoreByte(at: nat, b: byte)
      requires Safe() && at < telnetCmd.Length
      modifies this`telnetCmdPos, telnetCmd
      ensures Safe() && Value() == Store(old(Value()), at, b)
    {
      telnetCmd[at] := b;
      telnetCmdPos := at + 1;
      assert telnetCmd[..] == old(telnetCmd[..])[at := b];
    }

    /** A byte inside a suboption: the end of it, one half of a doubled 255, or data. */
    method TakeSuboptionByte(cb: Callbacks, b: byte)
      requires Valid() && telnetCmdPos > 2
      modifies this, telnetCmd, outTelnetCmd, cmds
      ensures Valid() && Step(cb, old(Value()), b) == (Value(), [])
    {
      if suboptionIac {
        if b == SE {
          telnetCmdPos := telnetCmdPos - 1;
          HandleTelnetCmd(cb);
          telnetCmdPos := 0;
        } else if b == IAC {
        } else {
          telnetCmdPos := telnetCmdPos - 1;
        }
        suboptionIac := false;
      } else {
        if telnetCmdPos > MAX_CMD {
          telnetCmdPos := MAX_CMD;
        }
        StoreByte(telnetCmdPos, b);
        if b == IAC {
          suboptionIac := true;
        }
      }
    }

    /** The part of process_telnet_data that handles one command byte already taken out of the data. */
    method TakeCommandByte(cb: Callbacks, b: byte)
      requires Valid() && telnetCmdPos != 0 && !(telnetCmdPos == 1 && b == IAC)
      modifies this, telnetCmd, outTelnetCmd, cmds
      ensures Valid() && Step(cb, old(Value()), b) == (Value(), [])
    {
      if telnetCmdPos == 1 {
        StoreByte(telnetCmdPos, b);
        if b < 250 {
          HandleTelnetCmd(cb);
          telnetCmdPos := 0;
        }
      } else if telnetCmdPos == 2 {
        StoreByte(telnetCmdPos, b);
        if telnetCmd[1] != SB {
          HandleTelnetCmd(cb);
          telnetCmdPos := 0;
        }
      } else {
        TakeSuboptionByte(cb, b);
      }
    }

    /** The second 255 of two in a row is data, and the parser is idle again. */
    method EndEscape(cb: Callbacks)
      requires Valid() && telnetCmdPos == 1
      modifies this`telnetCmdPos
      ensures Valid() && Step(cb, old(Value()), IAC) == (Value(), [IAC])
    {
      hide HandleCmd, Find, Terminated, TelnetData.Replies;
      telnetCmdPos := 0;
    }

    /** A 255 begins a command. */
    method StartCommand(cb: Callbacks)
      requires Valid() && telnetCmdPos == 0
      modifies this`telnetCmdPos, this`suboptionIac, telnetCmd
      ensures Valid() && Step(cb, old(Value()), IAC) == (Value(), [])
    {
      hide HandleCmd, Find, Terminated;
      StoreByte(telnetCmdPos, IAC);
      suboptionIac := false;
    }

    /** Any other byte is data for an idle parser. */
    lemma IdleStep(cb: Callbacks, b: byte)
      requires Valid() && telnetCmdPos == 0 && b != IAC
      ensures Step(cb, Value(), b) == (Value(), [b])
    {
    }

    /** One turn of the loop of process_telnet_data, on the byte at position i. */
    method ProcessByte(cb: Callbacks, data: array<byte>, base: nat, i: nat, len: nat) returns (i': nat, len': nat)
      requires Valid() && i < len && base + len <= data.Length && data != telnetCmd && data != outTelnetCmd
      modifies this, telnetCmd, outTelnetCmd, cmds, data
      ensures Valid() && i' <= len' && len' - i' == len - i - 1 && len' <= len
      ensures var (t, kept) := Step(cb, old(Value()), old(data[base + i]));
        Value() == t && data[base..base + i'] == old(data[base..base + i]) + kept
      ensures data[base + i'..base + len'] == old(data[base + i + 1..base + len])
      ensures forall k :: 0 <= k < data.Length && (k < base || base + len <= k) ==> data[k] == old(data[k])
    {
      hide Step, TelnetData.Valid, TelnetData.Value;
      Parts();
      i', len' := i, len;
      var b := data[base + i];
      ghost var front := data[base..base + i];
      assert data[base..base + i + 1] == front + [b] && front + [] == front;
      if telnetCmdPos != 0 {
        if telnetCmdPos == 1 && b == IAC {
          i' := i + 1;
          EndEscape(cb);
          return;
        }
        len' := DeleteChar(data, base, i, len);
        assert data[base..base + i] == front;
        TakeCommandByte(cb, b);
      } else if b == IAC {
        len' := DeleteChar(data, base, i, len);
        assert data[base..base + i] == front;
        StartCommand(cb);
      } else {
        i' := i + 1;
        IdleStep(cb, b);
      }
    }

    /** process_telnet_data: commands leave the first len0 bytes from base on, the data bytes close up. */
    method ProcessTelnetData(cb: Callbacks, data: array<byte>, base: nat, len0: nat) returns (len: nat)
      requires Valid() && base + len0 <= data.Length && data != telnetCmd && data != outTelnetCmd
      modifies this, telnetCmd, outTelnetCmd, cmds, data
      ensures Valid() && len <= len0
      ensures Feed(cb, old(Value()), old(data[base..base + len0])) == (Value(), data[base..base + len])
      ensures forall k :: 0 <= k < data.Length && (k < base || base + len0 <= k) ==> data[k] == old(data[k])
    {
      hide Step, HandleCmd, Find, Terminated;
      ghost var input := data[base..base + len0];
      len := len0;
      var i: nat := 0;
      FeedingStarts(cb, Value(), input);
      assert data[base..base + i] == [];
      while i < len
        invariant Valid() && i <= len <= len0
        invariant Feeding(cb, old(Value()), input, Value(), data[base..base + i], data[base + i..base + len])
        invariant forall k :: 0 <= k < data.Length && (k < base || base + len0 <= k) ==> data[k] == old(data[k])
        decreases len - i
      {
        ghost var s, done, rest := Value(), data[base..base + i], data[base + i..base + len];
        i, len := ProcessByte(cb, data, base, i, len);
        assert data[base + i..base + len] == rest[1..];
        FeedingMoves(cb, old(Value()), input, s, done, rest);
      }
      assert data[base + i..base + len] == [];
      FeedingEnds(cb, old(Value()), input, Value(), data[base..base + len]);
    }
  }

  /** The input has been read up to `rest`; `done` has been delivered and the parser is in state s. */
  ghost predicate Feeding(cb: Callbacks, s0: State, input: seq<byte>, s: State, done: seq<byte>, rest: seq<byte>)
    requires s0.Valid() && s.Valid()
  {
    Feed(cb, s0, input) == (Feed(cb, s, rest).0, done + Feed(cb, s, rest).1)
  }

  lemma FeedingStarts(cb: Callbacks, s: State, input: seq<byte>)
    requires s.Valid()
    ensures Feeding(cb, s, input, s, [], input)
  {
    assert [] + Feed(cb, s, input).1 == Feed(cb, s, input).1;
  }

  lemma FeedingMoves(cb: Callbacks, s0: State, input: seq<byte>, s: State, done: seq<byte>, rest: seq<byte>)
    requires s0.Valid() && s.Valid() && rest != [] && Feeding(cb, s0, input, s, done, rest)
    ensures var (t, kept) := Step(cb, s, rest[0]); Feeding(cb, s0, input, t, done + kept, rest[1..])
  {
    var (t, kept) := Step(cb, s, rest[0]);
    assert done + (kept + Feed(cb, t, rest[1..]).1) == (done + kept) + Feed(cb, t, rest[1..]).1;
  }

  lemma FeedingEnds(cb: Callbacks, s0: State, input: seq<byte>, s: State, done: seq<byte>)
    requires s0.Valid() && s.Valid() && Feeding(cb, s0, input, s, done, [])
    ensures Feed(cb, s0, input) == (s, done)
  {
    assert done + [] == done;
  }
}
