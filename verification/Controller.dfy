/**
  The control connection of ser2net/controller.c: a line editor that works in its input buffer, and a growing
  output buffer.
*/
module Controllers {
  import opened Bytes
  import opened Telnet
  import opened TelnetConnection

  const INBUF_SIZE: nat := 255

  const ERASE: seq<byte> := [8, 32, 8]
  const NEWLINE: seq<byte> := [10, 13]
  const PROMPT: seq<byte> := [45, 62, 32]

  // "Input line too long", a newline and a carriage return.
  const TOO_LONG: seq<byte> :=
    [73, 110, 112, 117, 116, 32, 108, 105, 110, 101, 32, 116, 111, 111, 32, 108, 111, 110, 103, 10, 13]

  datatype ReadResult = Bytes(data: seq<byte>) | End | Unread | ReadError

  datatype WriteResult = Wrote(n: nat) | Again | Interrupted | Broken

  // What processing a line leads to: the session ends, or some text is put out.
  datatype Reply = Closes | Answer(text: seq<byte>)

  // What a user of the connection sees: the line being typed, the lines passed on, and the output.
  datatype Session = Session(pending: seq<byte>, lines: seq<seq<byte>>, output: seq<byte>, closed: bool)

  type Respond = (nat, seq<byte>) -> Reply

  /** A simple editor that takes one byte at a time. */
  function EditByte(respond: Respond, s: Session, b: byte): Session {
    if s.closed || b == 0 || b == 10 then s
    else if b == 8 || b == 127 then
      if s.pending == [] then s
      else s.(pending := s.pending[..|s.pending| - 1], output := s.output + ERASE)
    else if b == 13 then
      var t := s.(pending := [], lines := s.lines + [s.pending], output := s.output + NEWLINE);
      match respond(|s.lines|, s.pending)
      case Closes => t.(closed := true)
      case Answer(text) => t.(output := t.output + text + PROMPT)
    else s.(pending := s.pending + [b], output := s.output + [b])
  }

  lemma Backspaced(respond: Respond, s: Session, b: byte)
    requires !s.closed && (b == 8 || b == 127)
    ensures EditByte(respond, s, b) ==
            if s.pending == [] then s
            else s.(pending := s.pending[..|s.pending| - 1], output := s.output + ERASE)
  {
  }

  function Edit(respond: Respond, s: Session, bs: seq<byte>): Session
    decreases |bs|
  {
    if bs == [] then s else Edit(respond, EditByte(respond, s, bs[0]), bs[1..])
  }

  lemma {:induction false} EditAppend(respond: Respond, s: Session, a: seq<byte>, b: seq<byte>)
    ensures Edit(respond, s, a + b) == Edit(respond, Edit(respond, s, a), b)
    decreases |a|
  {
    if a == [] {
      assert a + b == b;
    } else {
      EditAppend(respond, EditByte(respond, s, a[0]), a[1..], b);
      assert (a + b)[1..] == a[1..] + b;
    }
  }

  /** A session that has ended takes no more input. */
  lemma {:induction false} ClosedStays(respond: Respond, s: Session, bs: seq<byte>)
    requires s.closed
    ensures Edit(respond, s, bs) == s
    decreases |bs|
  {
    if bs != [] {
      ClosedStays(respond, s, bs[1..]);
    }
  }

  lemma {:induction false} LinesGrow(respond: Respond, s: Session, bs: seq<byte>)
    ensures s.lines <= Edit(respond, s, bs).lines
    decreases |bs|
  {
    if bs != [] {
      LinesGrow(respond, EditByte(respond, s, bs[0]), bs[1..]);
    }
  }

  /** A byte that is put into the line as it is: no NUL, backspace, newline, carriage return or delete. */
  predicate Plain(b: byte) { b != 0 && b != 8 && b != 10 && b != 13 && b != 127 }

  /** Which bytes end a line, join it, leave it and are passed over. */
  lemma ByteDecides(respond: Respond, s: Session, b: byte)
    requires !s.closed
    ensures var t := EditByte(respond, s, b);
            && (t.lines != s.lines <==> b == 13) && (|t.pending| > |s.pending| <==> Plain(b))
            && (b != 13 && |t.pending| < |s.pending| <==> (b == 8 || b == 127) && s.pending != [])
            && (t.closed <==> b == 13 && respond(|s.lines|, s.pending).Closes?)
            && (b == 0 || b == 10 ==> t == s)
  {
    assert |s.lines + [s.pending]| == |s.lines| + 1;
  }

  lemma {:induction false} PlainTyped(respond: Respond, s: Session, bs: seq<byte>)
    requires !s.closed && forall b <- bs :: Plain(b)
    ensures Edit(respond, s, bs) == s.(pending := s.pending + bs, output := s.output + bs)
    decreases |bs|
  {
    if bs == [] {
      assert s.pending + bs == s.pending && s.output + bs == s.output;
    } else {
      assert Plain(bs[0]) && forall b <- bs[1..] :: b in bs;
      var t := EditByte(respond, s, bs[0]);
      PlainTyped(respond, t, bs[1..]);
      assert [bs[0]] + bs[1..] == bs;
      Regroup(s.pending, [bs[0]], bs[1..]);
      Regroup(s.output, [bs[0]], bs[1..]);
    }
  }

  /** A line that is typed and ended is passed on and echoed; the answer and a prompt follow, or the session ends. */
  lemma LineEntered(respond: Respond, s: Session, bs: seq<byte>)
    requires !s.closed && s.pending == [] && forall b <- bs :: Plain(b)
    ensures var t, reply := Edit(respond, s, bs + [13]), respond(|s.lines|, bs);
            && t.lines == s.lines + [bs] && t.pending == [] && t.closed == reply.Closes?
            && t.output == s.output + bs + NEWLINE + match reply case Closes => [] case Answer(text) => text + PROMPT
  {
    EditAppend(respond, s, bs, [13]);
    PlainTyped(respond, s, bs);
    assert [] + bs == bs;
    var typed := Edit(respond, s, bs);
    assert Edit(respond, typed, [13]) == EditByte(respond, typed, 13) by { assert [13][1..] == []; }
    match respond(|s.lines|, bs)
    case Closes =>
    case Answer(text) =>
      Regroup(s.output + bs + NEWLINE, text, PROMPT);
  }

  /** A backspace or delete takes back what was typed before it, but for the echo. */
  lemma TakenBack(respond: Respond, s: Session, b: byte, back: byte)
    requires !s.closed && Plain(b) && (back == 8 || back == 127)
    ensures Edit(respond, s, [b, back]) == s.(output := s.output + ([b] + ERASE))
  {
    EditAppend(respond, s, [b], [back]);
    PlainTyped(respond, s, [b]);
    assert [b] + [back] == [b, back];
    var t := Edit(respond, s, [b]);
    assert Edit(respond, t, [back]) == EditByte(respond, t, back) by { assert [back][1..] == []; }
    assert t.pending[..|t.pending| - 1] == s.pending;
    Regroup(s.output, [b], ERASE);
  }

  // ----- What a session makes of the events of its connection -----

  /** The connection has something to read, or can be written. */
  datatype Turn = Read(result: ReadResult) | Write(replies: WriteResult, data: WriteResult)

  /** A read of at most some bytes; a read of none is the end of the input. */
  function Limit(result: ReadResult, room: nat): ReadResult
    requires room > 0
  {
    if !result.Bytes? then result
    else if result.data == [] then End
    else if |result.data| <= room then result
    else Bytes(result.data[..room])
  }

  function LimitWrite(result: WriteResult, most: nat): WriteResult {
    if result.Wrote? && result.n > most then Wrote(most) else result
  }

  /**
    What one event does to the parser and the session: a line that fills the buffer is dropped, bytes go through the
    parser and the editor, and writes change neither.
  */
  function TurnTaken(respond: Respond, cb: Callbacks, t: State, s: Session, turn: Turn): (r: (State, Session))
    requires t.Valid()
    ensures r.0.Valid()
  {
    if s.closed || turn.Write? then (t, s)
    else if |s.pending| >= INBUF_SIZE then (t, s.(pending := [], output := s.output + TOO_LONG))
    else
      match Limit(turn.result, INBUF_SIZE - |s.pending|)
      case Bytes(data) => var (t', kept) := Feed(cb, t, data); (t', Edit(respond, s, kept))
      case Unread => (t, s)
      case _ => (t, s.(closed := true))
  }

  function Follow(respond: Respond, cb: Callbacks, t: State, s: Session, turns: seq<Turn>): (r: (State, Session))
    requires t.Valid()
    ensures r.0.Valid()
    decreases |turns|
  {
    if turns == [] then (t, s)
    else
      var (t1, s1) := Follow(respond, cb, t, s, turns[..|turns| - 1]);
      TurnTaken(respond, cb, t1, s1, turns[|turns| - 1])
  }

  /** Every read so far has brought bytes, to an open session with room for them. */
  predicate AllTaken(respond: Respond, cb: Callbacks, t: State, s: Session, turns: seq<Turn>)
    requires t.Valid()
    decreases |turns|
  {
    turns != [] ==>
      var front, last := turns[..|turns| - 1], turns[|turns| - 1];
      var before := Follow(respond, cb, t, s, front).1;
      && AllTaken(respond, cb, t, s, front) && !before.closed
      && (last.Read? ==> last.result.Bytes? && 0 < |last.result.data| <= INBUF_SIZE - |before.pending|)
  }

  /** All bytes that the reads bring. */
  function Input(turns: seq<Turn>): seq<byte> {
    if turns == [] then []
    else
      var last := turns[|turns| - 1];
      Input(turns[..|turns| - 1]) + if last.Read? && last.result.Bytes? then last.result.data else []
  }

  /**
    However the input is cut into reads and whatever writes stand between them, it goes through one parser and one
    editor.
  */
  lemma {:induction false} FollowIsOne(respond: Respond, cb: Callbacks, t: State, s: Session, turns: seq<Turn>)
    requires t.Valid() && AllTaken(respond, cb, t, s, turns)
    ensures var (t', kept) := Feed(cb, t, Input(turns));
            Follow(respond, cb, t, s, turns) == (t', Edit(respond, s, kept))
    decreases |turns|
  {
    hide Feed, Edit;
    if turns == [] {
      FollowNothing(respond, cb, t, s);
    } else {
      var front, last := turns[..|turns| - 1], turns[|turns| - 1];
      FollowIsOne(respond, cb, t, s, front);
      if last.Read? {
        var (t1, kept) := Feed(cb, t, Input(front));
        FeedAppend(cb, t, Input(front), last.result.data);
        EditAppend(respond, s, kept, Feed(cb, t1, last.result.data).1);
      } else {
        assert Input(front) + [] == Input(front);
      }
    }
  }

  lemma FollowNothing(respond: Respond, cb: Callbacks, t: State, s: Session)
    requires t.Valid()
    ensures Feed(cb, t, []) == (t, []) && Edit(respond, s, []) == s
  {
  }

  // What waits for the connection and what has been written to it: replies of the parser, and data.
  datatype View = View(replies: seq<byte>, waiting: seq<byte>, wire: seq<byte>, closed: bool)

  /** What an event does to them: only writes take anything away, and a session that has ended is left alone. */
  predicate TurnDone(v: View, turn: Turn, w: View) {
    if v.closed then w == v
    else if turn.Read? then w.wire == v.wire
    else WriteDone(v, LimitWrite(turn.replies, |v.replies|), LimitWrite(turn.data, |v.waiting|), w)
  }

  /**
    Replies go first. Data follow when none was left or they were refused for now; an interrupted or failed write of
    data ends the session, and so does a failed write of replies.
  */
  predicate WriteDone(v: View, replies: WriteResult, data: WriteResult, w: View) {
    var sent := if v.replies != [] && replies.Wrote? then replies.n else 0;
    var stops := v.replies != [] && (replies.Interrupted? || (replies.Wrote? && replies.n < |v.replies|));
    var taken := if !stops && data.Wrote? then data.n else 0;
    && (w.closed <==> (v.replies != [] && replies.Broken?) || (!stops && (data.Broken? || data.Interrupted?)))
    && (!w.closed && 0 <= sent <= |v.replies| && 0 <= taken <= |v.waiting| ==>
          && w.replies == v.replies[sent..]
          && w.waiting == v.waiting[taken..] && w.wire == v.wire + v.waiting[..taken])
  }

  ghost predicate Traced(views: seq<View>, turns: seq<Turn>) {
    |views| == |turns| + 1 && forall k :: 0 <= k < |turns| ==> TurnDone(views[k], turns[k], views[k + 1])
  }

  lemma TracedFurther(views: seq<View>, turns: seq<Turn>, turn: Turn, w: View)
    requires Traced(views, turns) && TurnDone(views[|turns|], turn, w)
    ensures Traced(views + [w], turns + [turn])
  {
    hide TurnDone;
    var views', turns' := views + [w], turns + [turn];
    forall k | 0 <= k < |turns'|
      ensures TurnDone(views'[k], turns'[k], views'[k + 1])
    {
      assert k < |turns| ==> views'[k] == views[k] && turns'[k] == turns[k] && views'[k + 1] == views[k + 1];
    }
  }

  lemma SplitQueue(wire: seq<byte>, queue: seq<byte>, left: seq<byte>, taken: nat)
    requires taken <= |queue| && (wire + queue[..taken]) + left == wire + queue
    ensures left == queue[taken..]
  {
    var all := wire + queue;
    assert left == all[|wire| + taken..];
    assert all[|wire| + taken..] == queue[taken..];
  }

  lemma Regroup(a: seq<byte>, b: seq<byte>, c: seq<byte>)
    ensures a + (b + c) == (a + b) + c
  {
  }

  class Controller {
    const inbuf: array<byte>
    var inbufCount: nat
    var outbuf: array?<byte>
    var outbufPos: nat
    var outbufCount: nat
    const td: TelnetData
    var closed: bool
    var lines: seq<seq<byte>>
    // All data put out so far, and what of it has been written to the connection.
    ghost var output: seq<byte>
    ghost var wire: seq<byte>

    ghost predicate Valid()
      reads this, outbuf, td, td.telnetCmd, td.outTelnetCmd, td.cmds
    {
      && QueueValid() && td.Valid() && inbuf.Length == INBUF_SIZE + 1 && inbufCount <= INBUF_SIZE
      && inbuf != td.telnetCmd && inbuf != td.outTelnetCmd
      && outbuf != inbuf && outbuf != td.telnetCmd && outbuf != td.outTelnetCmd
    }

    /** The session, when the line being typed ends at an index. */
    ghost function Now(end: nat): Session
      reads this, inbuf
      requires end <= inbuf.Length
    {
      Session(inbuf[..end], lines, output, closed)
    }

    constructor (td: TelnetData)
      requires td.Valid()
      ensures Valid() && Now(inbufCount) == Session([], [], [], false) && wire == [] && this.td == td
    {
      inbuf := new byte[INBUF_SIZE + 1](_ => 0);
      inbufCount, outbuf, outbufPos, outbufCount := 0, null, 0, 0;
      this.td, closed := td, false;
      lines, output, wire := [], [], [];
    }

    ghost function Queue(): seq<byte>
      reads this`outbuf, this`outbufPos, this`outbufCount, outbuf
      requires outbuf != null ==> outbufPos + outbufCount <= outbuf.Length
    {
      if outbuf == null then [] else outbuf[outbufPos..outbufPos + outbufCount]
    }

    /** The buffer refines a queue: what was written and what waits make up what was put out. */
    ghost predicate QueueValid()
      reads this`outbuf, this`outbufPos, this`outbufCount, this`output, this`wire, outbuf
    {
      && (outbuf == null ==> outbufCount == 0)
      && (outbuf != null ==> outbufPos + outbufCount <= outbuf.Length)
      && wire + Queue() == output
    }

    /** Puts out more data; it is dropped when there is no memory for a larger buffer. */
    method Output(data: seq<byte>, memory: bool) returns (done: bool)
      requires QueueValid()
      modifies this`outbuf, this`outbufPos, this`outbufCount, this`output, outbuf
      ensures QueueValid() && (outbuf == old(outbuf) || fresh(outbuf))
      ensures output == old(output) + if done then data else []
      ensures memory ==> done
      ensures !done ==> unchanged(this)
    {
      if outbuf != null {
        var newSize := outbufCount + |data|;
        if newSize <= outbuf.Length {
          Append(data);
        } else {
          if !memory {
            return false;
          }
          newSize := newSize / 1024 * 1024 + 1024;
          Regrow(newSize, data);
        }
      } else {
        if !memory {
          return false;
        }
        Begin(|data| / 1024 * 1024 + 1024, data);
      }
      return true;
    }

    method Append(data: seq<byte>)
      requires QueueValid() && outbuf != null && outbufCount + |data| <= outbuf.Length
      modifies this`outbufPos, this`outbufCount, this`output, outbuf
      ensures QueueValid() && output == old(output) + data
    {
      ghost var queue := Queue();
      if outbufPos > 0 {
        ShiftOutput();
      }
      assert outbuf[..outbufCount] == queue;
      CopyIn(outbuf, outbufCount, data);
      outbufPos := 0;
      outbufCount := outbufCount + |data|;
      output := output + data;
      Regroup(wire, queue, data);
    }

    method Regrow(newSize: nat, data: seq<byte>)
      requires QueueValid() && outbuf != null && outbufCount + |data| <= newSize
      modifies this`outbuf, this`outbufPos, this`outbufCount, this`output
      ensures QueueValid() && fresh(outbuf) && output == old(output) + data
    {
      ghost var queue := Queue();
      var newbuf := new byte[newSize](_ => 0);
      CopyIn(newbuf, 0, outbuf[outbufPos..outbufPos + outbufCount]);
      assert newbuf[..outbufCount] == queue;
      CopyIn(newbuf, outbufCount, data);
      outbuf, outbufPos, outbufCount := newbuf, 0, outbufCount + |data|;
      output := output + data;
      assert Queue() == queue + data;
      Regroup(wire, queue, data);
    }

    method Begin(newSize: nat, data: seq<byte>)
      requires QueueValid() && outbuf == null && |data| <= newSize
      modifies this`outbuf, this`outbufPos, this`outbufCount, this`output
      ensures QueueValid() && fresh(outbuf) && output == old(output) + data
    {
      var newbuf := new byte[newSize](_ => 0);
      CopyIn(newbuf, 0, data);
      outbuf, outbufPos, outbufCount := newbuf, 0, |data|;
      output := output + data;
      assert Queue() == data && wire + [] == wire;
    }

    /** Moves the waiting bytes to the start of the buffer. */
    method ShiftOutput()
      requires outbuf != null && outbufPos + outbufCount <= outbuf.Length
      modifies outbuf
      ensures outbuf[..outbufCount] == old(outbuf[outbufPos..outbufPos + outbufCount])
    {
      for i := 0 to outbufCount
        invariant forall k :: 0 <= k < i ==> outbuf[k] == old(outbuf[outbufPos + k])
        invariant forall k :: i <= k < outbuf.Length ==> outbuf[k] == old(outbuf[k])
        modifies outbuf
      {
        outbuf[i] := outbuf[outbufPos + i];
      }
    }

    static method CopyIn(a: array<byte>, at: nat, data: seq<byte>)
      requires at + |data| <= a.Length
      modifies a
      ensures a[..at + |data|] == old(a[..at]) + data
    {
      for i := 0 to |data|
        invariant a[..at] == old(a[..at]) && a[at..at + i] == data[..i]
      {
        a[at + i] := data[i];
      }
    }

    /** Output with memory enough. */
    method Put(data: seq<byte>)
      requires Valid()
      modifies this`outbuf, this`outbufPos, this`outbufCount, this`output, outbuf
      ensures Valid() && (outbuf == old(outbuf) || fresh(outbuf)) && output == old(output) + data
    {
      hide QueueValid, TelnetData.Valid;
      var _ := Output(data, true);
    }

    // ----- The line editor -----

    /** Removes characters from the one at an index backwards; the index moves back by as many. */
    method RemoveChars(pos: nat, count: nat) returns (p: int)
      requires count <= pos + 1 && pos < inbufCount <= inbuf.Length
      modifies this`inbufCount, inbuf
      ensures inbufCount == old(inbufCount) - count && p == pos - count
      ensures inbuf[..p + 1] == old(inbuf[..p + 1]) && inbuf[p + 1..inbufCount] == old(inbuf[pos + 1..inbufCount])
    {
      ghost var was, start := inbuf[..], pos - count + 1;
      var j := pos - count + 1;
      while j < inbufCount - count
        invariant start <= j <= inbufCount - count || j == start
        invariant forall k :: 0 <= k < start || j <= k < inbuf.Length ==> inbuf[k] == was[k]
        invariant inbuf[start..j] == was[start + count..j + count]
        modifies inbuf
      {
        inbuf[j] := inbuf[j + count];
        j := j + 1;
      }
      inbufCount := inbufCount - count;
      p := pos - count;
    }

    /** A line is carried out: the session ends, or the answer and a new prompt are put out. */
    method ProcessLine(respond: Respond, line: seq<byte>)
      requires Valid() && !closed
      modifies this`lines, this`closed, this`outbuf, this`outbufPos, this`outbufCount, this`output, outbuf
      ensures Valid() && (outbuf == old(outbuf) || fresh(outbuf)) && lines == old(lines) + [line]
      ensures var reply := respond(|old(lines)|, line);
        closed == reply.Closes? && output == if reply.Closes? then old(output) else old(output) + reply.text + PROMPT
    {
      hide QueueValid, TelnetData.Valid, PROMPT;
      var reply := respond(|lines|, line);
      lines := lines + [line];
      match reply {
        case Closes => closed := true;
        case Answer(text) =>
          Put(text);
          Put(PROMPT);
      }
    }

    /** The line up to an index is passed on, and the rest of the buffer moves to its start. */
    method EndLine(respond: Respond, end: nat)
      requires Valid() && !closed && end < inbufCount
      modifies this`inbufCount, this`lines, this`closed, inbuf
      modifies this`outbuf, this`outbufPos, this`outbufCount, this`output, outbuf
      ensures Valid() && (outbuf == old(outbuf) || fresh(outbuf))
      ensures Now(0) == EditByte(respond, old(Now(end)), 13)
      ensures inbuf[..inbufCount] == old(inbuf[end + 1..inbufCount])
    {
      hide QueueValid, TelnetData.Valid, NEWLINE, PROMPT;
      Put(NEWLINE);
      var line := inbuf[..end];
      inbuf[end] := 0;
      ProcessLine(respond, line);
      MoveUp(end + 1);
    }

    /** The characters from an index on move to the start of the buffer. */
    method MoveUp(start: nat)
      requires start <= inbufCount <= inbuf.Length
      modifies this`inbufCount, inbuf
      ensures inbufCount == old(inbufCount) - start && inbuf[..inbufCount] == old(inbuf[start..inbufCount])
    {
      ghost var was := inbuf[..];
      var i := start;
      inbufCount := inbufCount - i;
      for j := 0 to inbufCount
        invariant i == start + j
        invariant inbuf[..j] == was[start..i]
        invariant if start == 0 then inbuf[..] == was else inbuf[i..] == was[i..]
        modifies inbuf
      {
        inbuf[j] := inbuf[i];
        i := i + 1;
      }
    }

    /** A backspace removes itself and the character before it; at the start of a line only itself. */
    method Erase(respond: Respond, at: nat) returns (p: int)
      requires Valid() && !closed && at < inbufCount && (inbuf[at] == 8 || inbuf[at] == 127)
      modifies this`inbufCount, this`outbuf, this`outbufPos, this`outbufCount, this`output, inbuf, outbuf
      ensures Valid() && (outbuf == old(outbuf) || fresh(outbuf)) && -1 <= p < inbufCount
      ensures Now(p + 1) == EditByte(respond, old(Now(at)), old(inbuf[at]))
      ensures inbuf[p + 1..inbufCount] == old(inbuf[at + 1..inbufCount])
    {
      hide QueueValid, TelnetData.Valid, EditByte, ERASE;
      Backspaced(respond, Now(at), inbuf[at]);
      if at == 0 {
        p := RemoveChars(at, 1);
      } else {
        p := at - 2;
        EraseLast(at);
        assert inbuf[..p + 1] == old(inbuf[..at])[..at - 1];
      }
    }

    /** The character before a backspace goes with it, from the buffer and from the user's screen. */
    method EraseLast(at: nat)
      requires Valid() && 0 < at < inbufCount
      modifies this`inbufCount, this`outbuf, this`outbufPos, this`outbufCount, this`output, inbuf, outbuf
      ensures Valid() && (outbuf == old(outbuf) || fresh(outbuf)) && inbufCount == old(inbufCount) - 2
      ensures output == old(output) + ERASE
      ensures inbuf[..at - 1] == old(inbuf[..at - 1]) && inbuf[at - 1..inbufCount] == old(inbuf[at + 1..inbufCount])
    {
      hide QueueValid, TelnetData.Valid, ERASE;
      var p := RemoveChars(at, 2);
      Put(ERASE);
    }

    /** What one character does to the line; the next one is then at the new index. */
    method TakeChar(respond: Respond, at: nat) returns (next: nat)
      requires Valid() && !closed && at < inbufCount
      modifies this`inbufCount, this`lines, this`closed, inbuf
      modifies this`outbuf, this`outbufPos, this`outbufCount, this`output, outbuf
      ensures Valid() && (outbuf == old(outbuf) || fresh(outbuf)) && next <= inbufCount && (closed ==> next == 0)
      ensures Now(next) == EditByte(respond, old(Now(at)), old(inbuf[at]))
      ensures inbuf[next..inbufCount] == old(inbuf[at + 1..inbufCount])
    {
      hide QueueValid, TelnetData.Valid, ERASE, NEWLINE, PROMPT;
      var i: int := at;
      ghost var was := inbuf[..];
      if inbuf[i] == 0 {
        i := RemoveChars(i, 1);
      } else if inbuf[i] == 10 {
        i := RemoveChars(i, 1);
      } else if inbuf[i] == 8 || inbuf[i] == 127 {
        i := Erase(respond, i);
      } else if inbuf[i] == 13 {
        EndLine(respond, i);
        i := -1;
      } else {
        Put([inbuf[i]]);
        assert inbuf[..at + 1] == was[..at] + [was[at]];
      }
      next := i + 1;
    }

    /** Takes the characters read in, from an index on, unless one of them ends the session. */
    method TakeAll(respond: Respond, start: nat)
      requires Valid() && !closed && start <= inbufCount
      modifies this`inbufCount, this`lines, this`closed, inbuf
      modifies this`outbuf, this`outbufPos, this`outbufCount, this`output, outbuf
      ensures Valid() && (outbuf == old(outbuf) || fresh(outbuf))
      ensures var s := Edit(respond, old(Now(start)), old(inbuf[start..inbufCount]));
              s == Now(if closed then 0 else inbufCount)
    {
      hide QueueValid, TelnetData.Valid, EditByte;
      var i: nat := start;
      while i < inbufCount && !closed
        invariant Valid() && (outbuf == old(outbuf) || fresh(outbuf)) && i <= inbufCount
        invariant closed ==> i == 0
        invariant Edit(respond, old(Now(start)), old(inbuf[start..inbufCount])) ==
                  Edit(respond, Now(i), inbuf[i..inbufCount])
        decreases inbufCount - i, !closed
      {
        ghost var rest := inbuf[i..inbufCount];
        assert rest[0] == inbuf[i] && rest[1..] == inbuf[i + 1..inbufCount];
        i := TakeChar(respond, i);
      }
      if closed {
        ClosedStays(respond, Now(i), inbuf[i..inbufCount]);
      }
    }

    // ----- The connection -----

    /** The session ends; what was not written is lost. */
    method Shutdown()
      requires Valid()
      modifies this`closed, this`outbuf, this`outbufCount, this`output
      ensures Valid() && closed && outbuf == null && output == wire
    {
      hide TelnetData.Valid;
      closed, outbuf, outbufCount, output := true, null, 0, wire;
      assert wire + [] == wire;
    }

    method Store(data: seq<byte>)
      requires Valid() && inbufCount + |data| <= INBUF_SIZE
      modifies inbuf
      ensures Valid() && inbuf[..inbufCount] == old(inbuf[..inbufCount])
      ensures inbuf[inbufCount..inbufCount + |data|] == data
    {
      hide QueueValid, TelnetData.Valid;
      CopyIn(inbuf, inbufCount, data);
      assert inbuf[..inbufCount + |data|][..inbufCount] == inbuf[..inbufCount];
    }

    /** Telnet commands leave the bytes just read, and the rest goes through the editor. */
    method TakeInput(respond: Respond, cb: Callbacks, data: seq<byte>)
      requires Valid() && !closed && inbufCount + |data| <= INBUF_SIZE
      modifies this`inbufCount, this`lines, this`closed, inbuf
      modifies this`outbuf, this`outbufPos, this`outbufCount, this`output, outbuf
      modifies td, td.telnetCmd, td.outTelnetCmd, td.cmds
      ensures Valid() && (outbuf == null || outbuf == old(outbuf) || fresh(outbuf))
      ensures var (t, kept) := Feed(cb, old(td.Value()), data);
              var s := Edit(respond, old(Now(inbufCount)), kept);
              && td.Value() == t
              && if t.error then closed && lines == old(lines) else s == Now(if closed then 0 else inbufCount)
    {
      hide QueueValid, TelnetData.Valid, Feed, Edit;
      Store(data);
      ghost var before := inbuf[..inbufCount];
      var len := td.ProcessTelnetData(cb, inbuf, inbufCount, |data|);
      assert inbuf[..inbufCount] == before;
      if td.error {
        Shutdown();
        return;
      }
      var start := inbufCount;
      inbufCount := inbufCount + len;
      TakeAll(respond, start);
    }

    /** Input is ready: it is taken, unless the line being typed fills the buffer. */
    method HandleRead(respond: Respond, cb: Callbacks, result: ReadResult)
      requires Valid() && !closed
      requires result.Bytes? ==> 0 < |result.data| <= INBUF_SIZE - inbufCount || inbufCount == INBUF_SIZE
      modifies this`inbufCount, this`lines, this`closed, inbuf
      modifies this`outbuf, this`outbufPos, this`outbufCount, this`output, outbuf
      modifies td, td.telnetCmd, td.outTelnetCmd, td.cmds
      ensures Valid() && (outbuf == null || outbuf == old(outbuf) || fresh(outbuf))
      ensures old(inbufCount) == INBUF_SIZE ==>
        !closed && inbufCount == 0 && lines == old(lines) && output == old(output) + TOO_LONG
      ensures old(inbufCount) < INBUF_SIZE && (result.End? || result.ReadError?) ==> closed && lines == old(lines)
      ensures old(inbufCount) < INBUF_SIZE && result.Unread? ==> Now(inbufCount) == old(Now(inbufCount))
      ensures old(inbufCount) == INBUF_SIZE || !result.Bytes? ==> td.Value() == old(td.Value())
      ensures old(inbufCount) < INBUF_SIZE && result.Bytes? ==>
        var (t, kept) := Feed(cb, old(td.Value()), result.data);
        var s := Edit(respond, old(Now(inbufCount)), kept);
        && td.Value() == t
        && if t.error then closed && lines == old(lines) else s == Now(if closed then 0 else inbufCount)
    {
      hide QueueValid, TelnetData.Valid, Feed, Edit, TOO_LONG;
      if inbufCount == INBUF_SIZE {
        Put(TOO_LONG);
        inbufCount := 0;
        return;
      }
      match result
      case Unread =>
      case End => Shutdown();
      case ReadError => Shutdown();
      case Bytes(data) => TakeInput(respond, cb, data);
    }

    /** The connection can be written: replies of the telnet parser first, then data while no reply is left. */
    method HandleWrite(replies: WriteResult, data: WriteResult)
      requires Valid() && !closed
      requires (replies.Wrote? ==> replies.n <= td.outTelnetCmdSize) && (data.Wrote? ==> data.n <= outbufCount)
      modifies this`closed, this`outbuf, this`outbufPos, this`outbufCount, this`output, this`wire
      modifies td`outTelnetCmdSize, td.outTelnetCmd
      ensures Valid() && (outbuf == null || outbuf == old(outbuf))
      ensures td.Value() == old(td.Value()).(out := td.Replies())
      ensures var some := old(td.outTelnetCmdSize) > 0;
              var first := some && (replies.Interrupted? || (replies.Wrote? && replies.n < old(td.outTelnetCmdSize)));
              && (closed <==> (some && replies.Broken?) || (!first && (data.Broken? || data.Interrupted?)))
              && (!closed ==> wire == old(wire) + if !first && data.Wrote? then old(Queue())[..data.n] else [])
              && (!closed ==>
                    && output == old(output)
                    && td.Replies() == old(td.Replies())[if some && replies.Wrote? then replies.n else 0..])
    {
      hide State.Valid, Terminated;
      assert wire + [] == wire;
      ghost var before := td.Replies();
      if td.outTelnetCmdSize > 0 {
        match replies {
          case Interrupted => return;
          case Again =>
          case Broken =>
            Shutdown();
            return;
          case Wrote(n) =>
            DropReplies(n);
            assert |td.Replies()| == |before| - n;
            if td.outTelnetCmdSize != 0 {
              return;
            }
        }
      }
      match data
      case Again =>
      case Interrupted => Shutdown();
      case Broken => Shutdown();
      case Wrote(n) => Written(n);
    }

    method DropReplies(n: nat)
      requires Valid() && n <= td.outTelnetCmdSize
      modifies td`outTelnetCmdSize, td.outTelnetCmd
      ensures Valid() && td.Replies() == old(td.Replies())[n..]
      ensures td.Value() == old(td.Value()).(out := td.Replies())
    {
      hide QueueValid;
      td.DropSent(n);
      assert td.Value().out == old(td.Value()).out[n..];
    }

    /** The head of the queue has been written; an empty buffer is freed. */
    method Written(n: nat)
      requires Valid() && n <= outbufCount
      modifies this`outbuf, this`outbufPos, this`outbufCount, this`wire
      ensures Valid() && wire == old(wire) + old(Queue())[..n] && (outbuf == null || outbuf == old(outbuf))
    {
      hide TelnetData.Valid;
      ghost var queue := Queue();
      assert wire + queue == wire + queue[..n] + queue[n..];
      wire := wire + queue[..n];
      outbufCount := outbufCount - n;
      if outbufCount != 0 {
        outbufPos := outbufPos + n;
      } else {
        outbuf := null;
      }
      assert Queue() == queue[n..];
    }

    // ----- Runs -----

    /** The parser and, while the session is open, what its user sees are those of the events so far. */
    ghost predicate Follows(t: State, s: Session)
      reads this, inbuf, td, td.telnetCmd, td.outTelnetCmd, td.cmds
    {
      && inbufCount <= inbuf.Length && lines <= s.lines
      && (!closed ==> !td.error && SameParser(td.Value(), t) && Now(inbufCount) == s)
    }

    /** Both queues and what has been written. */
    ghost function See(): View
      requires QueueValid()
      reads this, outbuf, td`outTelnetCmdSize, td.outTelnetCmd
    {
      View(td.Replies(), Queue(), wire, closed)
    }

    /** A write, with what it leaves of the queues. */
    method WriteTurn(replies: WriteResult, data: WriteResult)
      requires Valid() && !closed
      modifies this`closed, this`outbuf, this`outbufPos, this`outbufCount, this`output, this`wire
      modifies td`outTelnetCmdSize, td.outTelnetCmd
      ensures Valid() && (outbuf == null || outbuf == old(outbuf))
      ensures td.Value() == old(td.Value()).(out := td.Replies()) && (!closed ==> output == old(output))
      ensures TurnDone(old(See()), Write(replies, data), See())
    {
      hide TelnetData.Valid, TelnetData.Value;
      ghost var v := See();
      assert |v.replies| == td.outTelnetCmdSize && |v.waiting| == outbufCount by { Sizes(); }
      var r, d := LimitWrite(replies, td.outTelnetCmdSize), LimitWrite(data, outbufCount);
      QueueIs();
      HandleWrite(r, d);
      QueueIs();
      ghost var stops := v.replies != [] && (r.Interrupted? || (r.Wrote? && r.n < |v.replies|));
      if !closed {
        SplitQueue(v.wire, v.waiting, Queue(), if !stops && d.Wrote? then d.n else 0);
      }
    }

    lemma Sizes()
      requires Valid()
      ensures |td.Replies()| == td.outTelnetCmdSize && |Queue()| == outbufCount
    {
    }

    /** One event; a session that has ended takes no more of them. */
    method Handle(respond: Respond, cb: Callbacks, turn: Turn, ghost t: State, ghost s: Session)
      requires Valid() && t.Valid() && Follows(t, s)
      modifies this`inbufCount, this`lines, this`closed, inbuf
      modifies this`outbuf, this`outbufPos, this`outbufCount, this`output, this`wire, outbuf
      modifies td, td.telnetCmd, td.outTelnetCmd, td.cmds
      ensures Valid() && (outbuf == null || outbuf == old(outbuf) || fresh(outbuf))
      ensures var (t', s') := TurnTaken(respond, cb, t, s, turn); Follows(t', s')
      ensures TurnDone(old(See()), turn, See())
    {
      hide QueueValid, TelnetData.Valid, Feed, Edit, TOO_LONG, WriteDone;
      if closed {
        TurnLines(respond, cb, t, s, turn);
        return;
      }
      match turn
      case Write(replies, data) =>
        WriteTurn(replies, data);
      case Read(result) =>
        if inbufCount == INBUF_SIZE {
          HandleRead(respond, cb, result);
        } else {
          TakeRead(respond, cb, Limit(result, INBUF_SIZE - inbufCount), t, s);
        }
    }

    method TakeRead(respond: Respond, cb: Callbacks, result: ReadResult, ghost t: State, ghost s: Session)
      requires Valid() && !closed && t.Valid() && Follows(t, s)
      requires inbufCount < INBUF_SIZE && (result.Bytes? ==> 0 < |result.data| <= INBUF_SIZE - inbufCount)
      modifies this`inbufCount, this`lines, this`closed, inbuf
      modifies this`outbuf, this`outbufPos, this`outbufCount, this`output, outbuf
      modifies td, td.telnetCmd, td.outTelnetCmd, td.cmds
      ensures Valid() && (outbuf == null || outbuf == old(outbuf) || fresh(outbuf))
      ensures !result.Bytes? ==> Follows(t, if result.Unread? then s else s.(closed := true))
      ensures result.Bytes? ==> var (t', kept) := Feed(cb, t, result.data); Follows(t', Edit(respond, s, kept))
    {
      hide QueueValid, Feed, Edit;
      assert td.Value().Valid();
      hide TelnetData.Valid;
      if result.Bytes? {
        FeedSameParser(cb, td.Value(), t, result.data);
        LinesGrow(respond, s, Feed(cb, t, result.data).1);
      }
      HandleRead(respond, cb, result);
    }

    /**
      Any run of reads and writes: while the session is open, the parser, the lines and the line being typed are
      those of the input alone, and what was written and what waits make up what was put out.
    */
    method Run(respond: Respond, cb: Callbacks, turns: seq<Turn>) returns (ghost views: seq<View>)
      requires Valid() && !closed && !td.error
      modifies this`inbufCount, this`lines, this`closed, inbuf
      modifies this`outbuf, this`outbufPos, this`outbufCount, this`output, this`wire, outbuf
      modifies td, td.telnetCmd, td.outTelnetCmd, td.cmds
      ensures Valid()
      ensures var (t, s) := Follow(respond, cb, old(td.Value()), old(Now(inbufCount)), turns); Follows(t, s)
      ensures outbuf != null ==> outbufPos + outbufCount <= outbuf.Length
      ensures wire + Queue() == output
      ensures Traced(views, turns) && views[0] == old(See()) && views[|turns|] == See()
    {
      hide QueueValid, TelnetData.Valid, TurnTaken, Controller.Follows, TurnDone, Controller.See;
      ghost var t, s := td.Value(), Now(inbufCount);
      FollowsNow();
      assert turns[..0] == [];
      views := [See()];
      for n := 0 to |turns|
        invariant Valid() && (outbuf == null || outbuf == old(outbuf) || fresh(outbuf))
        invariant var (t', s') := Follow(respond, cb, t, s, turns[..n]); Follows(t', s')
        invariant Traced(views, turns[..n]) && views[0] == old(See()) && views[n] == See()
      {
        assert turns[..n + 1][..n] == turns[..n];
        ghost var (t', s') := Follow(respond, cb, t, s, turns[..n]);
        Handle(respond, cb, turns[n], t', s');
        assert turns[..n] + [turns[n]] == turns[..n + 1];
        TracedFurther(views, turns[..n], turns[n], See());
        views := views + [See()];
      }
      assert turns[..|turns|] == turns;
      QueueIs();
    }

    lemma FollowsNow()
      requires Valid() && !closed && !td.error
      ensures td.Value().Valid() && Follows(td.Value(), Now(inbufCount))
    {
    }

    lemma QueueIs()
      requires QueueValid()
      ensures outbuf != null ==> outbufPos + outbufCount <= outbuf.Length
      ensures wire + Queue() == output
    {
    }
  }

  lemma TurnLines(respond: Respond, cb: Callbacks, t: State, s: Session, turn: Turn)
    requires t.Valid()
    ensures s.lines <= TurnTaken(respond, cb, t, s, turn).1.lines
  {
    hide Feed, Edit;
    if !s.closed && turn.Read? && |s.pending| < INBUF_SIZE {
      var result := Limit(turn.result, INBUF_SIZE - |s.pending|);
      if result.Bytes? {
        LinesGrow(respond, s, Feed(cb, t, result.data).1);
      }
    }
  }
}
