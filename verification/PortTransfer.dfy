/**
  The data path of one connected port of ser2net/dataxfer.c: two directions between the device and the TCP
  connection, each with one buffer, partial writes, and readers and writers switched in the selector.
*/
module PortTransfer {
  import opened Bytes
  import opened Telnet
  import opened TelnetConnection
  import opened PortBlocks

  const PORT_BUFSIZE: nat := 1024

  /** What a port is enabled as; switching it off does not end its connection. */
  datatype Mode = Off | Raw | RawLp | TelnetMode

  datatype XferState = Unconnected | WaitingInput | WaitingOutputClear

  /** What a read or write of the environment brings; an interrupted first write is retried until another result. */
  datatype ReadResult = Got(bytes: seq<byte>) | EndOfFile | ReadError
  datatype WriteResult = Wrote(count: nat) | Again | WriteError

  /** A write by a write handler, which gives up for this pass when it is interrupted. */
  datatype Attempt = Interrupted | Done(result: WriteResult)

  /** A read of at most limit bytes; a read of none is the end of the file. */
  function Limit(r: ReadResult, limit: nat): ReadResult {
    if !r.Got? then r
    else if r.bytes == [] || limit == 0 then EndOfFile
    else if |r.bytes| <= limit then r
    else Got(r.bytes[..limit])
  }

  /** A write of at most n bytes. */
  function Upto(w: WriteResult, n: nat): WriteResult {
    if w.Wrote? && w.count > n then Wrote(n) else w
  }

  /** What is left of a queue whose head was taken off. */
  predicate IsTail(left: seq<byte>, all: seq<byte>) {
    |left| <= |all| && left == all[|all| - |left|..]
  }

  /** How many of the waiting bytes a write takes. */
  function Taken(w: WriteResult, waiting: int): int {
    if !w.Wrote? then 0 else if w.count > waiting then waiting else w.count
  }

  /** The bytes that a write takes of those that wait. */
  function Head(w: WriteResult, waiting: seq<byte>): (r: seq<byte>)
    ensures |r| == Taken(w, |waiting|)
  {
    waiting[..Taken(w, |waiting|)]
  }

  lemma Regroup(a: seq<byte>, b: seq<byte>, c: seq<byte>)
    ensures a + (b + c) == (a + b) + c
  {
  }

  lemma SplitAt(front: seq<byte>, s: seq<byte>, n: nat)
    requires n <= |s|
    ensures front + s[..n] + s[n..] == front + s
  {
    assert s[..n] + s[n..] == s;
  }

  /** What the first byte of a block is doubled to. */
  function One(b: byte): seq<byte> {
    if b == IAC then [IAC, IAC] else [b]
  }

  lemma DoublingStep(done: seq<byte>, rest: seq<byte>)
    requires rest != []
    ensures done + Doubled(rest) == (done + One(rest[0])) + Doubled(rest[1..])
    ensures done + rest == (done + [rest[0]]) + rest[1..]
    ensures |One(rest[0])| + |rest| - 1 <= |Doubled(rest)|
  {
    DoubledLength(rest[1..]);
    assert Doubled(rest) == One(rest[0]) + Doubled(rest[1..]);
    Regroup(done, One(rest[0]), Doubled(rest[1..]));
    Regroup(done, [rest[0]], rest[1..]);
    assert rest == [rest[0]] + rest[1..];
  }

  /**
    The IAC doubling of handle_dev_fd_read, in place. The shift takes the byte behind the block along, so that it
    needs one slot behind the doubled block.
  */
  method DoubleIacs(buf: array<byte>, count0: nat) returns (count: nat)
    requires count0 < buf.Length && |Doubled(buf[..count0])| < buf.Length
    modifies buf
    ensures count == |Doubled(old(buf[..count0]))| && count < buf.Length
    ensures buf[..count] == Doubled(old(buf[..count0]))
    ensures buf[count] == old(buf[count0]) && forall k :: count < k < buf.Length ==> buf[k] == old(buf[k])
  {
    ghost var all := Doubled(buf[..count0]);
    count := count0;
    var i := 0;
    ghost var done, rest: seq<byte> := [], buf[..count0];
    DoubledLength(rest);
    assert Doubled([]) == [];
    hide Doubled;
    while i < count
      invariant i == |done| && count == |done| + |rest| && count < buf.Length
      invariant buf[..count] == done + rest && all == done + Doubled(rest)
      invariant buf[count] == old(buf[count0]) && forall k :: count < k < buf.Length ==> buf[k] == old(buf[k])
      decreases |rest|
    {
      DoublingStep(done, rest);
      assert buf[..count][i] == rest[0];
      assert buf[..i] == buf[..count][..i] == done && buf[i + 1..count] == buf[..count][i + 1..] == rest[1..];
      done, rest := done + One(rest[0]), rest[1..];
      i, count := DoubleNext(buf, i, count);
    }
    assert rest == [] && done + [] == done;
  }

  /** One turn of the loop: the byte at position i stays as it is or is doubled. */
  method DoubleNext(buf: array<byte>, i: nat, count: nat) returns (next: nat, left: nat)
    requires i < count < buf.Length && count + |One(buf[i])| - 1 < buf.Length
    modifies buf
    ensures next == i + |One(old(buf[i]))| && left == count + |One(old(buf[i]))| - 1
    ensures buf[..left] == old(buf[..i]) + One(old(buf[i])) + old(buf[i + 1..count])
    ensures buf[left] == old(buf[count]) && forall k :: left < k < buf.Length ==> buf[k] == old(buf[k])
  {
    next, left := i, count;
    if buf[i] == IAC {
      DoubleAt(buf, i, count);
      left := left + 1;
      next := next + 1;
    }
    next := next + 1;
  }

  /** The byte at position i, a 255, is written once more behind itself; what follows moves up by one, and one more. */
  method DoubleAt(buf: array<byte>, i: nat, count: nat)
    requires i < count && count + 1 < buf.Length && buf[i] == IAC
    modifies buf
    ensures buf[..count + 1] == old(buf[..i]) + [IAC, IAC] + old(buf[i + 1..count])
    ensures buf[count + 1] == old(buf[count]) && forall k :: count + 1 < k < buf.Length ==> buf[k] == old(buf[k])
  {
    var j := count;
    while j > i
      invariant i <= j <= count
      invariant forall k :: 0 <= k <= j || count + 1 < k < buf.Length ==> buf[k] == old(buf[k])
      invariant forall k :: j + 1 < k <= count + 1 ==> buf[k] == old(buf[k - 1])
    {
      buf[j + 1] := buf[j];
      j := j - 1;
    }
    buf[i + 1] := IAC;
  }

  /** The shift of a block that has a 255 writes behind an array of PORT_BUFSIZE bytes. */
  predicate ShiftLeavesArray(block: seq<byte>) {
    IAC in block && |Doubled(block)| >= PORT_BUFSIZE
  }

  predicate AllIac(block: seq<byte>) {
    forall k :: 0 <= k < |block| ==> block[k] == IAC
  }

  lemma {:induction false} TwiceAsLongIff(block: seq<byte>)
    ensures |Doubled(block)| == 2 * |block| <==> AllIac(block)
  {
    if block != [] {
      DoubledLength(block[1..]);
      TwiceAsLongIff(block[1..]);
      assert AllIac(block) <==> block[0] == IAC && AllIac(block[1..]) by {
        assert forall k :: 1 <= k < |block| ==> block[k] == block[1..][k - 1];
      }
    }
  }

  /**
    Of the blocks that are read for a telnet port, half a buffer at most, exactly one is shifted out of the buffer
    the source has for it: the half buffer that holds nothing but 255s.
  */
  lemma ShiftLeavesArrayIff(block: seq<byte>)
    requires |block| <= PORT_BUFSIZE / 2
    ensures ShiftLeavesArray(block) <==> |block| == PORT_BUFSIZE / 2 && AllIac(block)
  {
    DoubledLength(block);
    TwiceAsLongIff(block);
    if |block| == PORT_BUFSIZE / 2 && AllIac(block) {
      assert block[0] == IAC;
    }
  }

  /**
    One direction of a port: its buffer, its state, the selector masks of its source's reader and its destination's
    writer, and what this pass's readiness snapshot still holds for the two.
  */
  class Direction {
    const buf: array<byte>
    const size: nat
    // The source never delivers: the device side of a port opened for output only.
    const silent: bool
    var start: nat
    var count: nat
    var state: XferState
    var srcRead: bool
    var dstWrite: bool
    var readyRead: bool
    var readyWrite: bool
    // All blocks read from the source, all bytes accepted in the form they are to be written, and all bytes written.
    ghost var blocks: seq<Block>
    ghost var input: seq<byte>
    ghost var output: seq<byte>

    /** Nothing is waiting to be written. */
    ghost predicate Drained()
      reads this
    {
      && size <= buf.Length && state == WaitingInput && output == input
      && (readyWrite ==> dstWrite)
      && (srcRead || dstWrite || silent)
    }

    ghost function Pending(): (bs: seq<byte>)
      requires start + count <= buf.Length
      reads this`start, this`count, buf
      ensures |bs| == count
    {
      buf[start..start + count]
    }

    /**
      FIFO: written plus pending is everything accepted. Pending data means that the source is not read, now or
      later in this pass, and that the destination is watched; otherwise the direction is not stuck.
    */
    ghost predicate Flowing()
      reads this, buf
    {
      && start + count <= size <= buf.Length
      && state == (if count > 0 then WaitingOutputClear else WaitingInput)
      && output + Pending() == input
      && (count > 0 ==> !srcRead && !readyRead && dstWrite)
      && (readyWrite ==> dstWrite)
      && (srcRead || dstWrite || silent)
    }

    ghost predicate Valid()
      reads this, buf
    {
      if state == Unconnected then
        output <= input && size <= buf.Length && start == count == 0 && !readyRead && !readyWrite
      else
        Flowing()
    }

    constructor (size: nat, spare: nat, srcRead: bool, dstWrite: bool, silent: bool)
      requires srcRead || dstWrite || silent
      ensures Valid() && state == WaitingInput && blocks == [] && input == output == [] && fresh(buf)
      ensures this.size == size && buf.Length == size + spare && this.silent == silent
      ensures this.srcRead == srcRead && this.dstWrite == dstWrite && count == 0 && !readyRead && !readyWrite
    {
      buf := new byte[size + spare];
      this.size, this.silent := size, silent;
      start, count, state := 0, 0, WaitingInput;
      this.srcRead, this.dstWrite, readyRead, readyWrite := srcRead, dstWrite, false, false;
      blocks, input, output := [], [], [];
    }

    /** No byte was read or written. */
    twostate predicate SameBytes()
      reads this
    {
      blocks == old(blocks) && output == old(output)
    }

    /** At most the snapshot of the pass is another. */
    twostate predicate OnlyReady()
      reads this
    {
      && SameBytes() && unchanged(`input)
      && unchanged(`start, `count, `state, `srcRead, `dstWrite)
    }

    /** The selector's snapshot of a pass: ready only where the mask is on. */
    method Snapshot(canRead: bool, canWrite: bool)
      requires Valid()
      modifies this`readyRead, this`readyWrite
      ensures Valid() && readyRead == (state != Unconnected && srcRead && canRead)
      ensures readyWrite == (state != Unconnected && dstWrite && canWrite)
    {
      readyRead := state != Unconnected && srcRead && canRead;
      readyWrite := state != Unconnected && dstWrite && canWrite;
    }

    /** A read fills the buffer from its beginning. */
    method Load(bytes: seq<byte>)
      requires Valid() && readyRead && |bytes| <= size
      modifies this`start, this`count, this`readyRead, buf
      ensures Drained() && !readyRead && start == 0 && count == |bytes| && buf[..count] == bytes
    {
      readyRead := false;
      start, count := 0, |bytes|;
      for i := 0 to |bytes|
        modifies buf
        invariant buf[..i] == bytes[..i]
      {
        buf[i] := bytes[i];
      }
    }

    /** Nothing of what was read is left after translation. */
    method Discard()
      requires Drained() && start == 0
      modifies this`count
      ensures Valid() && count == 0 && state == WaitingInput
    {
      count := 0;
    }

    /** shutdown_port's part: the pending bytes are dropped and the selector forgets both descriptors. */
    method Shutdown()
      requires size <= buf.Length && output <= input
      modifies this`start, this`count, this`state, this`srcRead, this`dstWrite, this`readyRead, this`readyWrite
      ensures Valid() && state == Unconnected
    {
      srcRead, dstWrite, readyRead, readyWrite := false, false, false, false;
      start, count, state := 0, 0, Unconnected;
    }

    /** The first write of a freshly read block, and the switch to the writer if it is incomplete. */
    method FirstWrite(write: WriteResult)
      requires Drained() && !readyRead && start == 0 && 0 < count <= size && !write.WriteError?
      modifies this`start, this`count, this`state, this`srcRead, this`dstWrite, this`input, this`output
      ensures Valid() && state != Unconnected && input == old(input) + old(buf[..count])
      ensures output == old(output) + Head(write, old(buf[..count]))
      ensures (old(dstWrite) ==> dstWrite) && (count == 0 ==> srcRead == old(srcRead) && dstWrite == old(dstWrite))
    {
      ghost var block := buf[..count];
      input := input + block;
      var left := count;
      match Upto(write, count) {
        case Wrote(n) =>
          output := output + block[..n];
          left := count - n;
          if left != 0 {
            start := start + n;
          }
        case _ =>
      }
      count := left;
      if count != 0 {
        srcRead := false;
        dstWrite := true;
        state := WaitingOutputClear;
      }
    }

    /** A later write of the pending bytes; once they are out the source is read again. */
    method NextWrite(write: WriteResult)
      requires Valid() && state != Unconnected && !write.WriteError?
      modifies this`start, this`count, this`state, this`srcRead, this`dstWrite, this`readyWrite, this`output
      ensures Valid() && state != Unconnected && !readyWrite
      ensures output == old(output) + Head(write, old(Pending())) && count == old(count) - Taken(write, old(count))
      ensures |output| == |old(output)| + Taken(write, old(count))
      ensures write.Wrote? && write.count >= old(count) ==> count == 0 && srcRead && !dstWrite
      ensures !(write.Wrote? && write.count >= old(count)) ==> srcRead == old(srcRead) && dstWrite == old(dstWrite)
    {
      hide Direction.Pending;
      readyWrite := false;
      match Upto(write, count) {
        case Wrote(n) =>
          Consume(n);
          if count == 0 {
            srcRead := true;
            dstWrite := false;
            state := WaitingInput;
          }
        case _ =>
      }
    }

    /** n bytes have been written; the start moves only when some are left. */
    method Consume(n: nat)
      requires start + count <= size <= buf.Length && n <= count
      modifies this`start, this`count, this`output
      ensures start + count <= size && count == old(count) - n
      ensures output == old(output) + old(Pending())[..n] && output + Pending() == old(output + Pending())
    {
      ghost var written, pending := output, Pending();
      output := written + pending[..n];
      count := count - n;
      if count != 0 {
        start := start + n;
      }
      assert Pending() == pending[n..];
      Regroup(written, pending[..n], pending[n..]);
      assert pending[..n] + pending[n..] == pending;
    }

    /** The write handler gives up for this pass. */
    method SkipWrite()
      requires Valid()
      modifies this`readyWrite
      ensures Valid() && !readyWrite
    {
      readyWrite := false;
    }

    lemma Basics()
      requires Valid()
      ensures output <= input
      ensures readyWrite ==> state != Unconnected && dstWrite
      ensures readyRead ==> state != Unconnected && count == 0
    {
    }

    /** telnet_output_ready's part: the writer is watched and the source is not read until it has drained. */
    method OutputReady()
      requires Valid() && state != Unconnected
      modifies this`srcRead, this`dstWrite
      ensures Valid() && !srcRead && dstWrite
    {
      srcRead := false;
      dstWrite := true;
    }
  }

  // ----- The two-queue writer of the TCP side -----

  /** Sizes and masks after one call of handle_tcp_fd_write. */
  datatype Outcome = Closed | Open(queued: nat, pending: nat, watched: bool)

  function DataOutcome(queued: nat, pending: nat, data: Attempt): Outcome {
    match data
    case Interrupted => Open(queued, pending, true)
    case Done(Again) => Open(queued, pending, true)
    case Done(WriteError) => Closed
    case Done(Wrote(n)) => if n >= pending then Open(queued, 0, false) else Open(queued, pending - n, true)
  }

  /** Replies go first; data is written once they are all out, or when they were refused for now. */
  function WriterOutcome(queued: nat, pending: nat, replies: Attempt, data: Attempt): Outcome {
    if queued == 0 then DataOutcome(0, pending, data)
    else
      match replies
      case Interrupted => Open(queued, pending, true)
      case Done(WriteError) => Closed
      case Done(Again) => DataOutcome(queued, pending, data)
      case Done(Wrote(n)) => if n < queued then Open(queued - n, pending, true) else DataOutcome(0, pending, data)
  }

  /** How many data bytes a call of handle_tcp_fd_write puts out. */
  function DataTaken(queued: nat, pending: nat, replies: Attempt, data: Attempt): int {
    var goOn := queued == 0 || (replies.Done? && Taken(replies.result, queued) == queued) || replies == Done(Again);
    if goOn && data.Done? then Taken(data.result, pending) else 0
  }

  datatype Event =
    | Select(devRead: bool, devWrite: bool, tcpRead: bool, tcpWrite: bool)
    | DevReadable(read: ReadResult, write: WriteResult)
    | DevWritable(attempt: Attempt)
    | TcpReadable(read: ReadResult, write: WriteResult)
    | TcpWritable(replies: Attempt, data: Attempt)
    | Notify(option: seq<byte>)
    | SetMode(mode: Mode)
    | Hangup

  /**
    What decides whether queued replies will go out: their number, the data behind them, and the TCP side's writer.
    Also what the port is enabled as, whether the two sides are about to be read, and whether the peer has agreed to
    RFC 2217. Last what waits for the device, whether it can be written, and how much was written to the two sides.
  */
  datatype View = View(connected: bool, queued: nat, pending: nat, watched: bool, ready: bool, mode: Mode,
                       devReady: bool, tcpReady: bool, is2217: bool, devPending: nat, devWritable: bool,
                       toTcp: nat, toDev: nat)
  {
    /** The block, if any, that an event brings from the device; for telnet only half the buffer is read into. */
    function DevBlock(e: Event): seq<Block> {
      if e.DevReadable? && devReady then BlockOf(Limit(e.read, DevRoom(mode)), mode) else []
    }

    function TcpBlock(e: Event): seq<Block> {
      if e.TcpReadable? && tcpReady then BlockOf(Limit(e.read, PORT_BUFSIZE), mode) else []
    }

    /** No reply can join the queue. */
    predicate Quiet(e: Event) {
      (forall b <- TcpBlock(e) :: !b.telnet) && !(e.Notify? && is2217)
    }

    lemma QuietRead(e: Event)
      requires e.TcpReadable? && tcpReady
      ensures Quiet(e) <==> mode != TelnetMode || !Limit(e.read, PORT_BUFSIZE).Got?
    {
      assert forall r :: r == Limit(e.read, PORT_BUFSIZE) && r.Got? ==> TcpBlock(e)[0] in TcpBlock(e);
    }

    /** Replies are queued but nothing watches the TCP side for room to send them. */
    predicate Stranded() {
      connected && queued > 0 && !watched
    }

    /** The writer is called, the replies are refused for now, and the data write that follows leaves no data. */
    predicate Strands(e: Event) {
      && e.TcpWritable? && ready && queued > 0
      && e.replies == Done(Again) && e.data.Done? && e.data.result.Wrote? && e.data.result.count >= pending
    }

    predicate Matches(o: Outcome) {
      match o
      case Closed => !connected
      case Open(q, p, w) => connected && queued == q && pending == p && watched == w
    }

    /** What an event may make of it. */
    predicate Becomes(e: Event, next: View) {
      && next.mode == (if e.SetMode? then e.mode else mode)
      && (next.is2217 == is2217 || !Quiet(e))
      && match e
         case Select(_, _, _, tcpWrite) =>
           next == this.(ready := connected && watched && tcpWrite,
                         devReady := next.devReady, tcpReady := next.tcpReady, devWritable := next.devWritable)
         case TcpWritable(replies, data) =>
           if ready then
             && next.Matches(WriterOutcome(queued, pending, replies, data))
             && next.toTcp == toTcp + DataTaken(queued, pending, replies, data) && next.toDev == toDev
           else
             next == this
         case DevWritable(attempt) =>
           if devWritable then
             && (next.connected <==> attempt != Done(WriteError)) && next.toTcp == toTcp
             && next.toDev == toDev + (if attempt.Done? then Taken(attempt.result, devPending) else 0)
             && (next.Stranded() ==> Stranded())
           else
             next == this
         case SetMode(m) => next == this.(mode := m)
         case Notify(option) =>
           && (next.Stranded() ==> Stranded())
           && (connected && is2217 && queued + |OptionBytes(option)| <= MAX_XMIT ==>
                 next.queued == queued + |OptionBytes(option)|)
         case Hangup => !next.connected && next.toTcp == toTcp && next.toDev == toDev
         case _ => (next.Stranded() ==> Stranded())
    }
  }

  function DevRoom(mode: Mode): nat {
    if mode == TelnetMode then PORT_BUFSIZE / 2 else PORT_BUFSIZE
  }

  function BlockOf(r: ReadResult, mode: Mode): seq<Block> {
    if r.Got? then [Block(r.bytes, mode == TelnetMode)] else []
  }

  /**
    Queued replies do not always keep the TCP writer watched: they become stranded exactly when their own write was
    refused for now and the data write that follows it anyway leaves no data. More room does not help them then.
  */
  lemma RepliesLeftBehindIff(v: View, e: Event, next: View)
    requires v.Becomes(e, next) && (v.ready ==> v.connected && v.watched)
    ensures !v.Stranded() ==> (next.Stranded() <==> v.Strands(e))
    ensures v.Stranded() && (e.Select? || e.TcpWritable?) ==> next.Stranded()
  {
  }

  ghost predicate Step(views: seq<View>, events: seq<Event>, i: nat)
    requires i < |events| && |views| == |events| + 1
  {
    views[i].Becomes(events[i], views[i + 1]) && (views[i].ready ==> views[i].connected && views[i].watched)
  }

  /** The views of a port before, between and after the events of a run. */
  ghost predicate Traced(views: seq<View>, events: seq<Event>) {
    |views| == |events| + 1 && forall i :: 0 <= i < |events| ==> Step(views, events, i)
  }

  /** One of the first n events strands replies. */
  ghost predicate StrandedBy(views: seq<View>, events: seq<Event>, n: nat)
    requires n <= |events| <= |views|
  {
    exists i :: 0 <= i < n && views[i].Strands(events[i])
  }

  lemma TracedFurther(views: seq<View>, events: seq<Event>, n: nat, next: View)
    requires n < |events| && Traced(views, events[..n])
    requires views[n].Becomes(events[n], next) && (views[n].ready ==> views[n].connected && views[n].watched)
    ensures Traced(views + [next], events[..n + 1])
  {
    var before, longer, more := events[..n], events[..n + 1], views + [next];
    forall i | 0 <= i < |longer|
      ensures Step(more, longer, i)
    {
      if i < n {
        assert Step(views, before, i);
      }
    }
  }

  /** The blocks that the first n events of a run bring from the device, and those from the TCP side. */
  function DevBlocks(views: seq<View>, events: seq<Event>, n: nat): seq<Block>
    requires n <= |events| && n <= |views|
  {
    if n == 0 then [] else DevBlocks(views, events, n - 1) + views[n - 1].DevBlock(events[n - 1])
  }

  function TcpBlocks(views: seq<View>, events: seq<Event>, n: nat): seq<Block>
    requires n <= |events| && n <= |views|
  {
    if n == 0 then [] else TcpBlocks(views, events, n - 1) + views[n - 1].TcpBlock(events[n - 1])
  }

  lemma {:induction false} BlocksFurther(views: seq<View>, events: seq<Event>, n: nat, next: View)
    requires n <= |events| && n <= |views|
    ensures DevBlocks(views + [next], events, n) == DevBlocks(views, events, n)
    ensures TcpBlocks(views + [next], events, n) == TcpBlocks(views, events, n)
    decreases n
  {
    if n > 0 {
      BlocksFurther(views, events, n - 1, next);
    }
  }

  /** The port is enabled as telnet after the first n events, or is not, like before them. */
  ghost predicate SameKind(events: seq<Event>, telnet: bool) {
    forall e <- events :: e.SetMode? ==> (e.mode == TelnetMode) == telnet
  }

  /** A port that is not switched to telnet, or away from it, reads all its blocks in the one way. */
  lemma {:induction false} BlocksOfOneKind(views: seq<View>, events: seq<Event>, n: nat, telnet: bool)
    requires Traced(views, events) && n <= |events| && SameKind(events, telnet)
    requires (views[0].mode == TelnetMode) == telnet
    ensures (views[n].mode == TelnetMode) == telnet
    ensures forall b <- DevBlocks(views, events, n) + TcpBlocks(views, events, n) :: b.telnet == telnet
  {
    if n > 0 {
      BlocksOfOneKind(views, events, n - 1, telnet);
      assert Step(views, events, n - 1);
      assert events[n - 1] in events;
    }
  }

  /** While no block is read as telnet and the peer has not agreed to RFC 2217, no step lets a reply join. */
  lemma QuietStep(views: seq<View>, events: seq<Event>, n: nat, next: View)
    requires n < |events| && |views| == n + 1 && views[n].Becomes(events[n], next)
    requires forall b <- TcpBlocks(views + [next], events, n + 1) :: !b.telnet
    ensures forall b <- TcpBlocks(views, events, n) :: !b.telnet
    ensures !views[n].is2217 ==> views[n].Quiet(events[n]) && !next.is2217
  {
    BlocksFurther(views, events, n, next);
    assert TcpBlocks(views + [next], events, n + 1) == TcpBlocks(views, events, n) + views[n].TcpBlock(events[n]);
  }

  /** Replies that are stranded at some time of a run became so by such a call of the writer, and every one strands. */
  lemma {:induction false} StrandedIff(views: seq<View>, events: seq<Event>, n: nat)
    requires Traced(views, events) && n <= |events| && !views[0].Stranded()
    ensures (exists i :: 0 <= i <= n && views[i].Stranded()) <==> StrandedBy(views, events, n)
  {
    if n > 0 {
      StrandedIff(views, events, n - 1);
      assert Step(views, events, n - 1);
      RepliesLeftBehindIff(views[n - 1], events[n - 1], views[n]);
      assert StrandedBy(views, events, n - 1) ==> StrandedBy(views, events, n);
      if views[n - 1].Strands(events[n - 1]) {
        assert StrandedBy(views, events, n);
      }
    }
  }

  /** What the views of a whole run tell of the blocks and of the replies. */
  lemma RunEnds(views: seq<View>, events: seq<Event>)
    requires Traced(views, events)
    ensures forall telnet: bool :: SameKind(events, telnet) && (views[0].mode == TelnetMode) == telnet ==>
      forall b <- DevBlocks(views, events, |events|) + TcpBlocks(views, events, |events|) :: b.telnet == telnet
    ensures !views[0].Stranded() ==>
      ((exists i :: 0 <= i <= |events| && views[i].Stranded()) <==> StrandedBy(views, events, |events|))
  {
    hide View.Stranded, Step;
    forall telnet: bool | SameKind(events, telnet) && (views[0].mode == TelnetMode) == telnet
      ensures forall b <- DevBlocks(views, events, |events|) + TcpBlocks(views, events, |events|) :: b.telnet == telnet
    {
      BlocksOfOneKind(views, events, |events|, telnet);
    }
    if !views[0].Stranded() {
      StrandedIff(views, events, |events|);
    }
  }

  // ----- A connected port -----

  class Port {
    // What the port was enabled as when the connection was set up, and what it is enabled as now.
    const setUp: Mode
    var mode: Mode
    const cb: Callbacks
    const tn: TelnetData
    const devToTcp: Direction
    const tcpToDev: Direction
    // The parser's state when the connection was set up.
    ghost const parser0: State
    // The peer has been asked about RFC 2217 and agreed, so that it is notified of modem states.
    var is2217: bool
    // All reply bytes that joined their queue, and all of them that were written to the TCP side.
    ghost var replies: seq<byte>
    ghost var repliesSent: seq<byte>

    /** The bytes the device must see for what the TCP side sent. */
    ghost function Stripped(blocks: seq<Block>): seq<byte>
      requires parser0.Valid()
    {
      ThroughAll(cb, parser0, blocks).1
    }

    ghost predicate Layout() {
      && devToTcp != tcpToDev && devToTcp.buf != tcpToDev.buf
      && devToTcp.buf != tn.telnetCmd && devToTcp.buf != tn.outTelnetCmd
      && tcpToDev.buf != tn.telnetCmd && tcpToDev.buf != tn.outTelnetCmd
      && devToTcp.size == tcpToDev.size == PORT_BUFSIZE
      && devToTcp.buf.Length == PORT_BUFSIZE + 1 && tcpToDev.buf.Length == PORT_BUFSIZE
      && (devToTcp.silent <==> setUp == RawLp) && !tcpToDev.silent
      && parser0.Valid()
    }

    /** From the device to TCP: what was accepted is the wire form of what was read. */
    ghost predicate DevSide()
      reads devToTcp, devToTcp.buf
    {
      && devToTcp.Valid()
      && devToTcp.input <= WireOf(devToTcp.blocks)
      && (devToTcp.state != Unconnected ==> devToTcp.input == WireOf(devToTcp.blocks))
    }

    /** From TCP to the device: what was accepted is the data in what was read, and the parser is where that left it. */
    ghost predicate TcpSide()
      requires parser0.Valid()
      reads tcpToDev, tcpToDev.buf, tn, tn.telnetCmd, tn.outTelnetCmd, tn.cmds
    {
      && tn.Valid() && tcpToDev.Valid()
      && tcpToDev.input <= Stripped(tcpToDev.blocks)
      && (tcpToDev.state != Unconnected ==>
            && tcpToDev.input == Stripped(tcpToDev.blocks)
            && SameParser(tn.Value(), ThroughAll(cb, parser0, tcpToDev.blocks).0))
    }

    /** The replies are a queue: those sent and those waiting are all that joined it. */
    ghost predicate RepliesKept()
      reads this`replies, this`repliesSent, tn`outTelnetCmdSize, tn.outTelnetCmd
    {
      repliesSent + tn.Replies() == replies
    }

    ghost predicate Connected()
      reads devToTcp
    {
      devToTcp.state != Unconnected
    }

    ghost function Now(): View
      reads this`mode, this`is2217, devToTcp, tcpToDev, tn
    {
      View(Connected(), tn.outTelnetCmdSize, devToTcp.count, devToTcp.dstWrite, devToTcp.readyWrite, mode,
           devToTcp.readyRead && !devToTcp.silent, tcpToDev.readyRead, is2217, tcpToDev.count, tcpToDev.readyWrite,
           |devToTcp.output|, |tcpToDev.output|)
    }

    ghost predicate Stranded()
      reads this`mode, this`is2217, devToTcp, tcpToDev, tn
    {
      Now().Stranded()
    }

    ghost predicate Valid()
      reads this, devToTcp, devToTcp.buf, tcpToDev, tcpToDev.buf, tn, tn.telnetCmd, tn.outTelnetCmd, tn.cmds
    {
      Layout() && DevSide() && TcpSide() && RepliesKept() && (Connected() <==> tcpToDev.state != Unconnected)
    }

    /** Only a telnet port's record is set up for the connection. */
    static method RecordFor(mode: Mode, table: array<Cmd>, initSeq: seq<byte>, leftover: TelnetData)
      returns (td: TelnetData)
      requires Terminated(table[..]) && |initSeq| <= MAX_XMIT && leftover.Valid()
      ensures td.Valid() && td.Value().Valid() && |td.Replies()| == td.outTelnetCmdSize
      ensures SameParser(td.Value(), td.Value())
      ensures mode != TelnetMode ==> td == leftover
      ensures mode == TelnetMode ==> fresh(td) && fresh(td.telnetCmd) && fresh(td.outTelnetCmd) && td.cmds == table
      ensures mode == TelnetMode ==> td.Replies() == initSeq && td.Value().pos == 0 && td.events == [] && !td.error
    {
      td := leftover;
      if mode == TelnetMode {
        td := new TelnetData(table, initSeq);
      }
    }

    /**
      The record right after setup_tcp_port, without a connection banner. A telnet port has its initial negotiation to
      send and reads nothing from the device before it is out; any other port keeps the telnet record as an earlier
      connection has left it.
    */
    constructor (mode: Mode, cb: Callbacks, table: array<Cmd>, initSeq: seq<byte>, leftover: TelnetData)
      requires Terminated(table[..]) && |initSeq| <= MAX_XMIT && leftover.Valid()
      ensures Valid() && setUp == this.mode == mode && this.cb == cb && !is2217
      ensures fresh(devToTcp) && fresh(devToTcp.buf) && fresh(tcpToDev) && fresh(tcpToDev.buf)
      ensures devToTcp.blocks == tcpToDev.blocks == [] && devToTcp.output == tcpToDev.output == []
      ensures mode == TelnetMode ==>
        && fresh(tn) && fresh(tn.telnetCmd) && fresh(tn.outTelnetCmd) && tn.cmds == table
        && tn.Replies() == initSeq && parser0.pos == 0 && tn.events == [] && !tn.error
      ensures mode != TelnetMode ==> tn == leftover
      ensures parser0 == tn.Value() && replies == tn.Replies() && repliesSent == []
      ensures Now() == View(true, |replies|, 0, mode == TelnetMode, false, mode, false, false, false, 0, false, 0, 0)
      ensures Stranded() <==> mode != TelnetMode && replies != []
      ensures devToTcp.srcRead == (mode != TelnetMode) && devToTcp.silent == (mode == RawLp)
      ensures tcpToDev.srcRead && !tcpToDev.dstWrite && tcpToDev.count == 0
    {
      hide Direction.Valid, TelnetData.Valid, TelnetData.Value, TelnetData.Replies, State.Valid, Terminated;
      hide SameParser;
      this.setUp, this.mode, this.cb, is2217 := mode, mode, cb, false;
      var td := RecordFor(mode, table, initSeq, leftover);
      tn := td;
      devToTcp := new Direction(PORT_BUFSIZE, 1, mode != TelnetMode, mode == TelnetMode, mode == RawLp);
      tcpToDev := new Direction(PORT_BUFSIZE, 0, true, false, false);
      parser0 := td.Value();
      replies, repliesSent := td.Replies(), [];
    }

    /**
      While a connection is telnet it is transparent: the other side's parser gets the device's bytes back from their
      wire form, and bytes with their 255s doubled reach the device as they were.
    */
    lemma Transparent(blocks: seq<Block>, peer: State, bs: seq<byte>)
      requires parser0.Valid() && parser0.pos == 0 && peer.Valid() && peer.pos == 0
      requires forall b <- blocks :: b.telnet
      ensures Feed(cb, peer, WireOf(blocks)).1 == Joined(blocks)
      ensures Joined(blocks) == Doubled(bs) ==> Stripped(blocks) == bs
    {
      AllTelnet(cb, parser0, blocks);
      EscapeRoundTrip(cb, peer, Joined(blocks));
      EscapeRoundTrip(cb, parser0, bs);
    }

    /** shutdown_port: both directions are dropped. */
    method ShutdownPort()
      requires Layout() && tn.Valid() && RepliesKept()
      requires devToTcp.output <= devToTcp.input <= WireOf(devToTcp.blocks)
      requires tcpToDev.output <= tcpToDev.input <= Stripped(tcpToDev.blocks)
      modifies devToTcp, tcpToDev
      ensures Valid() && Dropped()
    {
      devToTcp.Shutdown();
      tcpToDev.Shutdown();
    }

    lemma ReadyIsWatched()
      requires Valid()
      ensures parser0.Valid()
      ensures Now().ready ==> Now().connected && Now().watched
    {
      devToTcp.Basics();
    }

    lemma PendingIsWatched()
      requires Valid()
      ensures Connected() && devToTcp.count > 0 ==> devToTcp.dstWrite
      ensures Connected() && |WireOf(devToTcp.blocks)| > |devToTcp.output| ==> devToTcp.count > 0
    {
      hide WireOf, ThroughAll, SameParser;
    }

    // ----- What each event does -----

    twostate predicate TelnetKept()
      reads tn, tn.telnetCmd, tn.outTelnetCmd, tn.cmds
    {
      unchanged(tn, tn.telnetCmd, tn.outTelnetCmd, tn.cmds)
    }

    /** Nothing at all: the event was not awaited. */
    twostate predicate Idle()
      reads devToTcp, devToTcp.buf, tcpToDev, tcpToDev.buf, tn, tn.telnetCmd, tn.outTelnetCmd, tn.cmds
    {
      TelnetKept() && unchanged(devToTcp, devToTcp.buf, tcpToDev, tcpToDev.buf)
    }

    /** The connection is closed, what was read and written stays. */
    twostate predicate Dropped()
      reads devToTcp, tcpToDev
    {
      !Connected() && devToTcp.SameBytes() && tcpToDev.SameBytes()
    }

    /** A block of the device is accepted, as much of it written as the write took; all else closes. */
    twostate predicate DevReadDone(read: ReadResult, write: WriteResult)
      reads this`mode, devToTcp, tcpToDev, tn, tn.telnetCmd, tn.outTelnetCmd, tn.cmds
    {
      var r := Limit(read, DevRoom(mode));
      && TelnetKept() && tcpToDev.SameBytes()
      && devToTcp.blocks == old(devToTcp.blocks) + BlockOf(r, mode)
      && (Connected() <==> r.Got? && !write.WriteError?)
      && |devToTcp.output| == |old(devToTcp.output)| +
          if Connected() then Taken(write, |WireOf(devToTcp.blocks)| - |old(devToTcp.output)|) else 0
    }

    /** The selector switches off a reader without a handler. */
    twostate predicate DevReadIgnored()
      reads devToTcp, tcpToDev, tn, tn.telnetCmd, tn.outTelnetCmd, tn.cmds
    {
      && TelnetKept() && unchanged(tcpToDev) && devToTcp.SameBytes() && !devToTcp.srcRead
      && unchanged(devToTcp`start, devToTcp`count, devToTcp`state, devToTcp`dstWrite, devToTcp`readyWrite)
    }

    /** As many bytes waiting for the device leave as the write took. */
    twostate predicate DevWriteDone(attempt: Attempt)
      reads devToTcp, tcpToDev, tn, tn.telnetCmd, tn.outTelnetCmd, tn.cmds
    {
      && TelnetKept() && devToTcp.SameBytes() && tcpToDev.blocks == old(tcpToDev.blocks)
      && (Connected() <==> attempt != Done(WriteError))
      && |tcpToDev.output| == |old(tcpToDev.output)| +
          if attempt.Done? then Taken(attempt.result, old(tcpToDev.count)) else 0
    }

    ghost function Parsed(s: State, bytes: seq<byte>): State
      reads this`mode
    {
      if s.Valid() then Block(bytes, mode == TelnetMode).Through(cb, s).0 else s
    }

    /** The telnet error is set, or writing the data of the block failed, if it had any. */
    twostate predicate TcpReadFailed(write: WriteResult)
      requires parser0.Valid()
      reads this`mode, tcpToDev, tn
    {
      || (mode == TelnetMode && tn.error)
      || (write.WriteError? && |Stripped(tcpToDev.blocks)| > |old(tcpToDev.output)|)
    }

    /** The peer was asked about an option and agreed, in one of the callbacks from a number on. */
    static predicate Agreed(cb: Callbacks, events: seq<Telnet.Event>, from: nat) {
      exists k: nat :: from <= k < |events| && events[k].WillQuery? && cb.agree(k)
    }

    /** A block of the TCP side goes through the parser, and as much of its data is written as the write took. */
    twostate predicate TcpReadDone(read: ReadResult, write: WriteResult)
      requires parser0.Valid()
      reads this`mode, this`is2217, devToTcp, tcpToDev, tn, tn.telnetCmd, tn.outTelnetCmd, tn.cmds
    {
      var r := Limit(read, PORT_BUFSIZE);
      && devToTcp.SameBytes()
      && tcpToDev.blocks == old(tcpToDev.blocks) + BlockOf(r, mode)
      && tn.Value() == (if r.Got? then Parsed(old(tn.Value()), r.bytes) else old(tn.Value()))
      && is2217 == (old(is2217) || Agreed(cb, tn.events, |old(tn.events)|))
      && (Connected() <==> r.Got? && !TcpReadFailed(write))
      && |tcpToDev.output| == |old(tcpToDev.output)| +
          if Connected() then Taken(write, |Stripped(tcpToDev.blocks)| - |old(tcpToDev.output)|) else 0
    }

    /** Replies leave from the head of their queue, then data, as the two writes say. */
    twostate predicate TcpWriteDone(replies: Attempt, data: Attempt)
      reads this`mode, this`is2217, devToTcp, tcpToDev, tn, tn.outTelnetCmd
    {
      && devToTcp.blocks == old(devToTcp.blocks) && tcpToDev.SameBytes()
      && Now().Matches(WriterOutcome(old(tn.outTelnetCmdSize), old(devToTcp.count), replies, data))
      && IsTail(tn.Replies(), old(tn.Replies()))
      && |devToTcp.output| ==
          |old(devToTcp.output)| + DataTaken(old(tn.outTelnetCmdSize), old(devToTcp.count), replies, data)
    }

    /** An option joins the reply queue if there is room, and then the writer is watched. */
    twostate predicate NotifyDone(option: seq<byte>)
      reads devToTcp, tcpToDev, tn, tn.telnetCmd, tn.outTelnetCmd, tn.cmds
    {
      && devToTcp.SameBytes() && unchanged(tcpToDev) && unchanged(devToTcp`start, devToTcp`count, devToTcp`state)
      && tn.Value() == CmdSend(old(tn.Value()), OptionBytes(option))
      && devToTcp.dstWrite == (old(devToTcp.dstWrite) || tn.ready > old(tn.ready))
    }

    /** The selector's snapshot of a pass, taken by the masks. */
    twostate predicate SelectDone(devRead: bool, devWrite: bool, tcpRead: bool, tcpWrite: bool)
      reads devToTcp, tcpToDev, tn, tn.telnetCmd, tn.outTelnetCmd, tn.cmds
    {
      && TelnetKept() && devToTcp.OnlyReady() && tcpToDev.OnlyReady()
      && devToTcp.readyRead == (Connected() && devToTcp.srcRead && devRead)
      && devToTcp.readyWrite == (Connected() && devToTcp.dstWrite && tcpWrite)
      && tcpToDev.readyRead == (Connected() && tcpToDev.srcRead && tcpRead)
      && tcpToDev.readyWrite == (Connected() && tcpToDev.dstWrite && devWrite)
    }

    /** Readable and writable events count only while this pass's snapshot holds them. */
    twostate predicate Did(e: Event)
      requires parser0.Valid()
      reads this`mode, this`is2217, devToTcp, devToTcp.buf, tcpToDev, tcpToDev.buf
      reads tn, tn.telnetCmd, tn.outTelnetCmd, tn.cmds
    {
      match e
      case Select(devRead, devWrite, tcpRead, tcpWrite) => SelectDone(devRead, devWrite, tcpRead, tcpWrite)
      case DevReadable(read, write) =>
        if !old(devToTcp.readyRead) then Idle()
        else if devToTcp.silent then DevReadIgnored()
        else DevReadDone(read, write)
      case DevWritable(attempt) => if old(tcpToDev.readyWrite) then DevWriteDone(attempt) else Idle()
      case TcpReadable(read, write) => if old(tcpToDev.readyRead) then TcpReadDone(read, write) else Idle()
      case TcpWritable(replies, data) => if old(devToTcp.readyWrite) then TcpWriteDone(replies, data) else Idle()
      case Notify(option) => if old(Connected()) && old(is2217) then NotifyDone(option) else Idle()
      case SetMode(m) => Idle() && mode == m
      case Hangup => TelnetKept() && Dropped()
    }

    // ----- From the device to TCP -----

    /** A block read from the device, in the buffer in its wire form. */
    method LoadFromDevice(bytes: seq<byte>)
      requires Layout() && DevSide() && devToTcp.readyRead && 0 < |bytes| <= DevRoom(mode)
      modifies devToTcp`start, devToTcp`count, devToTcp`readyRead, devToTcp`blocks, devToTcp.buf
      ensures devToTcp.Drained() && !devToTcp.readyRead && devToTcp.start == 0 && 0 < devToTcp.count <= PORT_BUFSIZE
      ensures devToTcp.blocks == old(devToTcp.blocks) + [Block(bytes, mode == TelnetMode)]
      ensures devToTcp.input + devToTcp.buf[..devToTcp.count] == WireOf(devToTcp.blocks)
    {
      hide Doubled, WireOf, ThroughAll, SameParser, State.Valid, Block.Through, Direction.Flowing;
      devToTcp.Basics();
      devToTcp.Load(bytes);
      DoubledLength(bytes);
      if mode == TelnetMode {
        devToTcp.count := DoubleIacs(devToTcp.buf, devToTcp.count);
      }
      ghost var block := Block(bytes, mode == TelnetMode);
      OneMore(cb, parser0, devToTcp.blocks, block);
      devToTcp.blocks := devToTcp.blocks + [block];
    }

    /** A block on its way from the device; the result tells whether writing it failed for good. */
    method PassFromDevice(bytes: seq<byte>, write: WriteResult) returns (failed: bool)
      requires Layout() && DevSide() && devToTcp.readyRead && 0 < |bytes| <= DevRoom(mode)
      modifies devToTcp, devToTcp.buf
      ensures failed <==> write.WriteError?
      ensures devToTcp.blocks == old(devToTcp.blocks) + [Block(bytes, mode == TelnetMode)]
      ensures |devToTcp.output| == |old(devToTcp.output)| +
        if failed then 0 else Taken(write, |WireOf(devToTcp.blocks)| - |old(devToTcp.output)|)
      ensures devToTcp.output <= devToTcp.input <= WireOf(devToTcp.blocks)
      ensures !failed ==> DevSide() && devToTcp.state != Unconnected
      ensures old(devToTcp.dstWrite) ==> devToTcp.dstWrite
    {
      hide WireOf, ThroughAll, SameParser, State.Valid, Direction.Flowing;
      devToTcp.Basics();
      LoadFromDevice(bytes);
      if write.WriteError? {
        return true;
      }
      devToTcp.FirstWrite(write);
      return false;
    }

    method HandleDevFdRead(read: ReadResult, write: WriteResult)
      requires Valid() && devToTcp.readyRead && !devToTcp.silent
      modifies devToTcp, devToTcp.buf, tcpToDev
      ensures Valid() && DevReadDone(read, write)
      ensures Stranded() ==> old(Stranded())
    {
      hide Taken, WireOf, ThroughAll, SameParser, State.Valid;
      hide TelnetData.Valid, TelnetData.Safe, TelnetData.Value, Feed, Doubled, Direction.Valid, Port.RepliesKept;
      devToTcp.Basics();
      tcpToDev.Basics();
      var r := Limit(read, DevRoom(mode));
      var failed := true;
      if r.Got? {
        failed := PassFromDevice(r.bytes, write);
      }
      if failed {
        ShutdownPort();
      }
    }

    /** No handler is installed for a port opened for output only: the selector switches the reader off. */
    method IgnoreDevRead()
      requires Valid() && devToTcp.readyRead && devToTcp.silent
      modifies devToTcp`srcRead, devToTcp`readyRead
      ensures Valid() && DevReadIgnored()
    {
      hide TelnetData.Valid, TelnetData.Value, TelnetData.Replies, Feed, Doubled, Port.TcpSide, Port.RepliesKept;
      devToTcp.readyRead := false;
      devToTcp.srcRead := false;
    }

    /** handle_tcp_fd_write's flush of the reply queue; the result tells whether to go on with data. */
    method FlushReplies(attempt: Attempt, ghost pending: nat, ghost data: Attempt) returns (goOn: bool, failed: bool)
      requires Layout() && TcpSide() && RepliesKept()
      modifies this`repliesSent, tn`outTelnetCmdSize, tn.outTelnetCmd
      ensures TcpSide() && RepliesKept() && !(goOn && failed)
      ensures IsTail(tn.Replies(), old(tn.Replies())) && old(repliesSent) <= repliesSent
      ensures WriterOutcome(old(tn.outTelnetCmdSize), pending, attempt, data) ==
        if failed then Closed
        else if goOn then DataOutcome(tn.outTelnetCmdSize, pending, data)
        else Open(tn.outTelnetCmdSize, pending, true)
      ensures DataTaken(old(tn.outTelnetCmdSize), pending, attempt, data) ==
        if goOn && data.Done? then Taken(data.result, pending) else 0
    {
      assert tn.outTelnetCmdSize <= tn.outTelnetCmd.Length;
      hide TelnetData.Valid, TelnetData.Value, TelnetData.Replies, Port.RepliesKept, Port.TcpSide;
      if tn.outTelnetCmdSize == 0 {
        return true, false;
      }
      match attempt {
        case Interrupted =>
          return false, false;
        case Done(WriteError) =>
          return false, true;
        case Done(Again) =>
          return true, false;
        case Done(Wrote(_)) =>
          SendReplies(Upto(attempt.result, tn.outTelnetCmdSize).count);
          return tn.outTelnetCmdSize == 0, false;
      }
    }

    /** The first n replies have been written. */
    method SendReplies(n: nat)
      requires Layout() && TcpSide() && RepliesKept() && n <= tn.outTelnetCmdSize
      modifies this`repliesSent, tn`outTelnetCmdSize, tn.outTelnetCmd
      ensures TcpSide() && RepliesKept() && tn.outTelnetCmdSize == old(tn.outTelnetCmdSize) - n
      ensures tn.Replies() == old(tn.Replies())[n..] && repliesSent == old(repliesSent) + old(tn.Replies())[..n]
    {
      hide ThroughAll, Stripped, Direction.Valid, Terminated;
      ghost var sent, queue := repliesSent, tn.Replies();
      SplitAt(sent, queue, n);
      tn.DropSent(n);
      assert tn.Value().out == queue[n..];
      repliesSent := sent + queue[..n];
    }

    /** The data half of handle_tcp_fd_write, unless it failed for good. */
    method WriteDataToTcp(data: Attempt, ghost queued: nat)
      requires Layout() && DevSide() && devToTcp.readyWrite && data != Done(WriteError)
      modifies devToTcp
      ensures DevSide() && devToTcp.blocks == old(devToTcp.blocks) && Connected()
      ensures DataOutcome(queued, old(devToTcp.count), data) == Open(queued, devToTcp.count, devToTcp.dstWrite)
      ensures |devToTcp.output| ==
        |old(devToTcp.output)| + if data.Done? then Taken(data.result, old(devToTcp.count)) else 0
    {
      if data.Done? {
        devToTcp.NextWrite(data.result);
      } else {
        devToTcp.SkipWrite();
      }
    }

    method HandleTcpFdWrite(attempt: Attempt, data: Attempt)
      requires Valid() && devToTcp.readyWrite
      modifies this`repliesSent, devToTcp, tcpToDev, tn`outTelnetCmdSize, tn.outTelnetCmd
      ensures Valid() && TcpWriteDone(attempt, data) && old(repliesSent) <= repliesSent
      ensures old(Now()).Becomes(TcpWritable(attempt, data), Now())
      ensures Stranded() <==> old(Now()).Strands(TcpWritable(attempt, data))
    {
      hide TelnetData.Valid, TelnetData.Safe, TelnetData.Value, Feed, Doubled, Direction.Valid, IsTail;
      hide WriterOutcome, DataOutcome, DataTaken, Port.DevSide, Port.TcpSide, Port.RepliesKept;
      ghost var was := Now();
      ReadyIsWatched();
      var goOn, failed := FlushReplies(attempt, devToTcp.count, data);
      FinishTcpWrite(goOn, failed, data);
      RepliesLeftBehindIff(was, TcpWritable(attempt, data), Now());
    }

    /** The rest of handle_tcp_fd_write once the replies have been seen to. */
    method FinishTcpWrite(goOn: bool, failed: bool, data: Attempt)
      requires Valid() && devToTcp.readyWrite && !(goOn && failed)
      modifies devToTcp, tcpToDev
      ensures Valid() && devToTcp.blocks == old(devToTcp.blocks) && tcpToDev.SameBytes()
      ensures Now().Matches(
                if failed then Closed
                else if goOn then DataOutcome(tn.outTelnetCmdSize, old(devToTcp.count), data)
                else Open(tn.outTelnetCmdSize, old(devToTcp.count), true))
      ensures |devToTcp.output| ==
        |old(devToTcp.output)| + if goOn && data.Done? then Taken(data.result, old(devToTcp.count)) else 0
    {
      hide TelnetData.Valid, TelnetData.Safe, TelnetData.Value, Feed, Doubled, Direction.Valid, Port.RepliesKept;
      devToTcp.Basics();
      tcpToDev.Basics();
      if failed || (goOn && data == Done(WriteError)) {
        ShutdownPort();
      } else if goOn {
        WriteDataToTcp(data, tn.outTelnetCmdSize);
      } else {
        devToTcp.SkipWrite();
      }
    }

    // ----- From TCP to the device -----

    method HandleDevFdWrite(attempt: Attempt)
      requires Valid() && tcpToDev.readyWrite
      modifies devToTcp, tcpToDev
      ensures Valid() && DevWriteDone(attempt)
      ensures old(Now()).Becomes(DevWritable(attempt), Now())
    {
      hide WireOf, ThroughAll, SameParser, State.Valid;
      hide TelnetData.Valid, TelnetData.Safe, TelnetData.Value, Feed, Doubled, Direction.Valid, Port.RepliesKept;
      devToTcp.Basics();
      tcpToDev.Basics();
      if attempt == Done(WriteError) {
        ShutdownPort();
      } else if attempt.Done? {
        tcpToDev.NextWrite(attempt.result);
      } else {
        tcpToDev.SkipWrite();
      }
    }

    /** A loaded block goes through the parser if the port is enabled as telnet. */
    method Translate(bytes: seq<byte>)
      requires Layout() && tn.Valid() && tcpToDev.start == 0 && tcpToDev.count == |bytes| <= PORT_BUFSIZE
      requires tcpToDev.buf[..tcpToDev.count] == bytes
      modifies tcpToDev`count, tcpToDev.buf, tn, tn.telnetCmd, tn.outTelnetCmd, tn.cmds
      ensures tn.Valid() && tcpToDev.count <= PORT_BUFSIZE
      ensures (tn.Value(), tcpToDev.buf[..tcpToDev.count]) ==
              Block(bytes, mode == TelnetMode).Through(cb, old(tn.Value()))
    {
      hide Feed;
      if mode == TelnetMode {
        tcpToDev.count := tn.ProcessTelnetData(cb, tcpToDev.buf, 0, tcpToDev.count);
      }
    }

    /** A block read from TCP, in the buffer with its telnet commands taken out. */
    method LoadFromTcp(bytes: seq<byte>)
      requires Layout() && TcpSide() && tcpToDev.readyRead && |bytes| <= PORT_BUFSIZE
      modifies tcpToDev`start, tcpToDev`count, tcpToDev`readyRead, tcpToDev`blocks, tcpToDev.buf
      modifies tn, tn.telnetCmd, tn.outTelnetCmd, tn.cmds
      ensures tn.Valid() && tn.Value() == Parsed(old(tn.Value()), bytes)
      ensures tcpToDev.Drained() && !tcpToDev.readyRead && tcpToDev.start == 0 && tcpToDev.count <= PORT_BUFSIZE
      ensures tcpToDev.blocks == old(tcpToDev.blocks) + [Block(bytes, mode == TelnetMode)]
      ensures tcpToDev.input + tcpToDev.buf[..tcpToDev.count] == Stripped(tcpToDev.blocks)
      ensures SameParser(tn.Value(), ThroughAll(cb, parser0, tcpToDev.blocks).0)
    {
      hide Feed, Doubled, WireOf, ThroughAll, SameParser, TelnetData.Valid, TelnetData.Value, TelnetData.Replies;
      hide State.Valid, Block.Through, Direction.Valid;
      ghost var s, t := tn.Value(), ThroughAll(cb, parser0, tcpToDev.blocks).0;
      ghost var block := Block(bytes, mode == TelnetMode);
      tn.Parts();
      tcpToDev.Basics();
      tcpToDev.Load(bytes);
      Translate(bytes);
      SameThrough(cb, s, t, block);
      OneMore(cb, parser0, tcpToDev.blocks, block);
      tcpToDev.blocks := tcpToDev.blocks + [block];
    }

    /** A block of the TCP side has been seen to as TcpReadDone says, but for closing the connection if that failed. */
    twostate predicate BlockPassed(bytes: seq<byte>, write: WriteResult, failed: bool)
      requires parser0.Valid()
      reads this`mode, tcpToDev, tn, tn.telnetCmd, tn.outTelnetCmd, tn.cmds
    {
      && tn.Value() == Parsed(old(tn.Value()), bytes)
      && tcpToDev.blocks == old(tcpToDev.blocks) + [Block(bytes, mode == TelnetMode)]
      && tcpToDev.output <= tcpToDev.input <= Stripped(tcpToDev.blocks)
      && (failed <==> TcpReadFailed(write))
      && |tcpToDev.output| == |old(tcpToDev.output)| +
          if failed then 0 else Taken(write, |Stripped(tcpToDev.blocks)| - |old(tcpToDev.output)|)
    }

    /** What was loaded from TCP goes on to the device; the result tells whether the connection failed. */
    method PassFromTcp(bytes: seq<byte>, write: WriteResult) returns (failed: bool)
      requires Layout() && TcpSide() && tcpToDev.readyRead && |bytes| <= PORT_BUFSIZE
      modifies tcpToDev, tcpToDev.buf, tn, tn.telnetCmd, tn.outTelnetCmd, tn.cmds
      ensures tn.Valid() && BlockPassed(bytes, write, failed)
      ensures !failed ==> TcpSide() && tcpToDev.state != Unconnected
    {
      hide TelnetData.Valid, TelnetData.Safe, TelnetData.Value, TelnetData.Replies, Feed, Doubled, SameParser;
      hide Port.Parsed, WireOf, ThroughAll, State.Valid, Direction.Flowing, Direction.Pending;
      tcpToDev.Basics();
      LoadFromTcp(bytes);
      if mode == TelnetMode && tn.error {
        return true;
      }
      if tcpToDev.count == 0 {
        // Only commands: there is nothing to write.
        assert tcpToDev.buf[..0] == [];
        tcpToDev.Discard();
        return false;
      }
      if write.WriteError? {
        return true;
      }
      tcpToDev.FirstWrite(write);
      return false;
    }

    /** The replies that have joined the queue are noted. */
    ghost method NoteReplies(queue: seq<byte>)
      requires queue <= tn.Replies() && repliesSent + queue == replies
      modifies this`replies
      ensures RepliesKept() && replies == old(replies) + tn.Replies()[|queue|..]
    {
      var more := tn.Replies()[|queue|..];
      replies := replies + more;
      assert tn.Replies() == queue + more;
      Regroup(repliesSent, queue, more);
    }

    /** What the callbacks of a block have done: replies have joined the queue, and the peer may have agreed. */
    method NoteCallbacks(ghost s: State, bytes: seq<byte>, calls: nat, noted: nat)
      requires s.Valid() && calls == s.ready && noted == |s.events| && tn.Valid() && tn.Value() == Parsed(s, bytes)
      requires DevSide() && Connected() && repliesSent + s.out == replies
      modifies this`replies, this`is2217, devToTcp`srcRead, devToTcp`dstWrite
      ensures DevSide() && RepliesKept() && old(replies) <= replies
      ensures is2217 == (old(is2217) || Agreed(cb, tn.events, noted))
      ensures mode != TelnetMode ==> replies == old(replies) && is2217 == old(is2217)
      ensures devToTcp.dstWrite == (old(devToTcp.dstWrite) || tn.ready > calls)
      ensures tn.ready > calls || tn.outTelnetCmdSize == |s.out|
    {
      hide TelnetData.Valid, TelnetData.Value, TelnetData.Replies, Direction.Valid, Feed, State.Valid, WireOf;
      tn.Parts();
      FeedAnnounces(cb, s, bytes);
      is2217 := is2217 || Agreed(cb, tn.events, noted);
      NoteReplies(s.out);
      if tn.ready > calls {
        devToTcp.OutputReady();
      }
    }

    /** A block of the TCP side, its data and its replies; the result tells whether the connection failed. */
    method TakeFromTcp(bytes: seq<byte>, write: WriteResult) returns (failed: bool)
      requires Valid() && tcpToDev.readyRead && |bytes| <= PORT_BUFSIZE
      modifies this`replies, this`is2217, devToTcp`srcRead, devToTcp`dstWrite, tcpToDev, tcpToDev.buf
      modifies tn, tn.telnetCmd, tn.outTelnetCmd, tn.cmds
      ensures DevSide() && Connected() && tn.Valid() && RepliesKept() && old(replies) <= replies
      ensures !failed ==> Valid()
      ensures BlockPassed(bytes, write, failed)
      ensures is2217 == (old(is2217) || Agreed(cb, tn.events, |old(tn.events)|))
      ensures mode != TelnetMode ==> replies == old(replies) && is2217 == old(is2217)
      ensures Stranded() ==> old(Stranded())
    {
      hide TelnetData.Valid, TelnetData.Safe, TelnetData.Value, TelnetData.Replies, Feed, Doubled, Direction.Valid;
      hide Taken, Port.Parsed, Port.Stripped, Port.TcpReadFailed, WireOf, ThroughAll, SameParser, State.Valid, Agreed;
      ghost var s := tn.Value();
      tn.Parts();
      var calls, noted := tn.ready, |tn.events|;
      devToTcp.Basics();
      tcpToDev.Basics();
      failed := PassFromTcp(bytes, write);
      NoteCallbacks(s, bytes, calls, noted);
    }

    method HandleTcpFdRead(read: ReadResult, write: WriteResult)
      requires Valid() && tcpToDev.readyRead
      modifies this`replies, this`is2217, devToTcp, tcpToDev, tcpToDev.buf
      modifies tn, tn.telnetCmd, tn.outTelnetCmd, tn.cmds
      ensures Valid() && TcpReadDone(read, write) && old(replies) <= replies
      ensures mode != TelnetMode || !Limit(read, PORT_BUFSIZE).Got? ==>
        replies == old(replies) && is2217 == old(is2217)
      ensures Stranded() ==> old(Stranded())
    {
      hide TelnetData.Valid, TelnetData.Safe, TelnetData.Value, Feed, Doubled, Direction.Valid, Port.RepliesKept;
      hide Taken, Port.Parsed, Port.Stripped, WireOf, ThroughAll, SameParser, State.Valid;
      var r := Limit(read, PORT_BUFSIZE);
      var failed := true;
      devToTcp.Basics();
      tcpToDev.Basics();
      if r.Got? {
        failed := TakeFromTcp(r.bytes, write);
        devToTcp.Basics();
      }
      if failed {
        ShutdownPort();
      }
    }

    // ----- Other events and whole runs -----

    /** A modem-state notification queued by the port's timer. */
    method NotifyOption(option: seq<byte>)
      requires Valid() && Connected()
      modifies this`replies, devToTcp, tn`outTelnetCmdSize, tn`error, tn`ready, tn.outTelnetCmd
      ensures Valid() && NotifyDone(option) && old(replies) <= replies
      ensures old(tn.outTelnetCmdSize) + |OptionBytes(option)| <= MAX_XMIT ==>
        tn.outTelnetCmdSize == old(tn.outTelnetCmdSize) + |OptionBytes(option)|
      ensures Stranded() ==> old(Stranded())
    {
      hide WireOf, ThroughAll, State.Valid;
      hide TelnetData.Valid, TelnetData.Safe, TelnetData.Value, TelnetData.Replies, Feed, Doubled, Direction.Valid;
      hide CmdSend, OptionBytes;
      ghost var queue := tn.Replies();
      var announced := tn.Notify(option);
      NoteReplies(queue);
      if announced {
        devToTcp.OutputReady();
      }
    }

    method TakeSnapshot(devRead: bool, devWrite: bool, tcpRead: bool, tcpWrite: bool)
      requires Valid()
      modifies devToTcp`readyRead, devToTcp`readyWrite, tcpToDev`readyRead, tcpToDev`readyWrite
      ensures Valid() && SelectDone(devRead, devWrite, tcpRead, tcpWrite)
      ensures old(Now()).Becomes(Select(devRead, devWrite, tcpRead, tcpWrite), Now())
    {
      hide WireOf, ThroughAll, SameParser, State.Valid;
      hide TelnetData.Valid, TelnetData.Safe, TelnetData.Value, Feed, Doubled, Direction.Valid, Port.RepliesKept;
      devToTcp.Snapshot(devRead, tcpWrite);
      tcpToDev.Snapshot(tcpRead, devWrite);
    }

    method HangUp()
      requires Valid()
      modifies devToTcp, tcpToDev
      ensures Valid() && Dropped()
    {
      hide WireOf, ThroughAll, SameParser, State.Valid;
      hide TelnetData.Valid, TelnetData.Safe, TelnetData.Value, Feed, Doubled, Direction.Valid, Port.RepliesKept;
      devToTcp.Basics();
      tcpToDev.Basics();
      ShutdownPort();
    }

    /** change_port_state for a port whose connection stays. */
    method Enable(m: Mode)
      requires Valid()
      modifies this`mode
      ensures Valid() && Idle() && mode == m && Now() == old(Now()).(mode := m)
    {
      hide Direction.Valid, TelnetData.Valid, TelnetData.Value, TelnetData.Replies, WireOf, ThroughAll, SameParser;
      mode := m;
    }

    /** One of the events of the device. */
    method HandleDev(e: Event)
      requires Valid() && (e.DevReadable? || e.DevWritable?)
      modifies devToTcp, devToTcp.buf, tcpToDev, tcpToDev.buf
      ensures Valid() && Did(e) && old(Now()).Becomes(e, Now())
    {
      hide Port.Valid, State.Valid, WriterOutcome, Port.DevReadDone, Port.DevReadIgnored, Port.DevWriteDone;
      hide Port.TcpReadDone, Port.TcpWriteDone, Port.NotifyDone, Port.SelectDone;
      ReadyIsWatched();
      if e.DevReadable? && devToTcp.readyRead {
        if devToTcp.silent {
          IgnoreDevRead();
        } else {
          HandleDevFdRead(e.read, e.write);
        }
      } else if e.DevWritable? && tcpToDev.readyWrite {
        HandleDevFdWrite(e.attempt);
      }
    }

    /** One of the events of the TCP side. */
    method HandleTcp(e: Event)
      requires Valid() && (e.TcpReadable? || e.TcpWritable?)
      modifies this`replies, this`repliesSent, this`is2217, devToTcp, devToTcp.buf, tcpToDev, tcpToDev.buf
      modifies tn, tn.telnetCmd, tn.outTelnetCmd, tn.cmds
      ensures Valid() && Did(e) && old(Now()).Becomes(e, Now())
      ensures old(replies) <= replies && old(repliesSent) <= repliesSent
      ensures old(Now()).Quiet(e) ==> replies == old(replies)
    {
      hide Port.Valid, State.Valid, WriterOutcome, Port.DevReadDone, Port.DevReadIgnored, Port.DevWriteDone;
      hide Port.TcpReadDone, Port.TcpWriteDone, Port.NotifyDone, Port.SelectDone;
      ReadyIsWatched();
      if e.TcpReadable? && tcpToDev.readyRead {
        Now().QuietRead(e);
        HandleTcpFdRead(e.read, e.write);
      } else if e.TcpWritable? && devToTcp.readyWrite {
        HandleTcpFdWrite(e.replies, e.data);
      }
    }

    /** The selector's snapshot, or an event that it does not bring. */
    method HandleOther(e: Event)
      requires Valid() && (e.Select? || e.Notify? || e.SetMode? || e.Hangup?)
      modifies this`replies, this`mode, devToTcp, tcpToDev
      modifies tn`outTelnetCmdSize, tn`error, tn`ready, tn.outTelnetCmd
      ensures Valid() && Did(e) && old(Now()).Becomes(e, Now()) && old(replies) <= replies
      ensures old(Now()).Quiet(e) ==> replies == old(replies)
    {
      hide Port.Valid, State.Valid, Port.NotifyDone, Port.SelectDone;
      ReadyIsWatched();
      match e {
        case Select(devRead, devWrite, tcpRead, tcpWrite) =>
          TakeSnapshot(devRead, devWrite, tcpRead, tcpWrite);
        case Notify(option) =>
          if devToTcp.state != Unconnected && is2217 {
            NotifyOption(option);
          }
        case SetMode(m) =>
          Enable(m);
        case Hangup =>
          HangUp();
      }
    }

    /** What was read is what the event brought, in the state it came in. */
    twostate lemma BlocksRead(e: Event)
      requires parser0.Valid() && Did(e) && old(Now()).Becomes(e, Now())
      ensures devToTcp.blocks == old(devToTcp.blocks) + old(Now()).DevBlock(e)
      ensures tcpToDev.blocks == old(tcpToDev.blocks) + old(Now()).TcpBlock(e)
    {
      hide WriterOutcome, Feed, Doubled, ThroughAll, State.Valid, TelnetData.Value, TelnetData.Replies;
    }

    /** What a port has read is what it has written, in its translation, and what it is going to write. */
    lemma Delivered()
      requires Valid()
      ensures devToTcp.output <= WireOf(devToTcp.blocks) && tcpToDev.output <= Stripped(tcpToDev.blocks)
      ensures Connected() ==> devToTcp.output + devToTcp.Pending() == WireOf(devToTcp.blocks)
      ensures Connected() ==> tcpToDev.output + tcpToDev.Pending() == Stripped(tcpToDev.blocks)
      ensures repliesSent + tn.Replies() == replies
    {
      hide ThroughAll, WireOf, SameParser;
      devToTcp.Basics();
      tcpToDev.Basics();
    }

    /** One event. */
    method Handle(e: Event)
      requires Valid()
      modifies this`replies, this`repliesSent, this`mode, this`is2217, devToTcp, devToTcp.buf, tcpToDev, tcpToDev.buf
      modifies tn, tn.telnetCmd, tn.outTelnetCmd, tn.cmds
      ensures Valid() && Did(e) && old(Now()).Becomes(e, Now())
      ensures devToTcp.blocks == old(devToTcp.blocks) + old(Now()).DevBlock(e)
      ensures tcpToDev.blocks == old(tcpToDev.blocks) + old(Now()).TcpBlock(e)
      ensures old(Now()).Quiet(e) ==> replies == old(replies)
      ensures !old(Stranded()) ==> (Stranded() <==> old(Now()).Strands(e))
      ensures old(replies) <= replies && old(repliesSent) <= repliesSent
    {
      hide Port.Valid, Port.Did, State.Valid, View.Becomes, View.Strands;
      ReadyIsWatched();
      ghost var was := Now();
      if e.DevReadable? || e.DevWritable? {
        HandleDev(e);
      } else if e.TcpReadable? || e.TcpWritable? {
        HandleTcp(e);
      } else {
        HandleOther(e);
      }
      BlocksRead(e);
      RepliesLeftBehindIff(was, e, Now());
    }

    /**
      Any run of events, with changes of what the port is enabled as: what has been written to either side is always a
      prefix of the translation of the blocks read from the other, and the whole of it but for the pending bytes while
      the connection lasts. The replies are a queue as well, and they are stranded at some time of the run exactly
      when one of its events strands them.
    */
    method Run(events: seq<Event>) returns (ghost views: seq<View>)
      requires Valid()
      modifies this`replies, this`repliesSent, this`mode, this`is2217, devToTcp, devToTcp.buf, tcpToDev, tcpToDev.buf
      modifies tn, tn.telnetCmd, tn.outTelnetCmd, tn.cmds
      ensures Valid()
      ensures devToTcp.output <= WireOf(devToTcp.blocks) && tcpToDev.output <= Stripped(tcpToDev.blocks)
      ensures Connected() ==> devToTcp.output + devToTcp.Pending() == WireOf(devToTcp.blocks)
      ensures Connected() ==> tcpToDev.output + tcpToDev.Pending() == Stripped(tcpToDev.blocks)
      ensures repliesSent + tn.Replies() == replies && old(replies) <= replies && old(repliesSent) <= repliesSent
      ensures Traced(views, events) && views[0] == old(Now()) && views[|events|] == Now()
      // The blocks are those that the events brought, each in the state it was read in.
      ensures devToTcp.blocks == old(devToTcp.blocks) + DevBlocks(views, events, |events|)
      ensures tcpToDev.blocks == old(tcpToDev.blocks) + TcpBlocks(views, events, |events|)
      ensures forall telnet: bool :: SameKind(events, telnet) && (old(mode) == TelnetMode) == telnet ==>
        forall b <- DevBlocks(views, events, |events|) + TcpBlocks(views, events, |events|) :: b.telnet == telnet
      // Without a block read as telnet no reply joins the queue.
      ensures !old(is2217) && (forall b <- TcpBlocks(views, events, |events|) :: !b.telnet) ==> replies == old(replies)
      ensures !old(Stranded()) ==>
        ((exists i :: 0 <= i <= |events| && views[i].Stranded()) <==> StrandedBy(views, events, |events|))
    {
      hide Port.Valid, Port.Did, View.Becomes, View.Quiet, View.DevBlock, View.TcpBlock;
      views := [Now()];
      for n := 0 to |events|
        invariant Valid() && old(replies) <= replies && old(repliesSent) <= repliesSent
        invariant Traced(views, events[..n]) && views[0] == old(Now()) && views[n] == Now()
        invariant devToTcp.blocks == old(devToTcp.blocks) + DevBlocks(views, events, n)
        invariant tcpToDev.blocks == old(tcpToDev.blocks) + TcpBlocks(views, events, n)
        invariant !old(is2217) && (forall b <- TcpBlocks(views, events, n) :: !b.telnet) ==>
          replies == old(replies) && !is2217
      {
        ReadyIsWatched();
        Handle(events[n]);
        TracedFurther(views, events, n, Now());
        BlocksFurther(views, events, n, Now());
        if forall b <- TcpBlocks(views + [Now()], events, n + 1) :: !b.telnet {
          QuietStep(views, events, n, Now());
        }
        views := views + [Now()];
      }
      assert events[..|events|] == events;
      RunEnds(views, events);
      Delivered();
    }

    /** The TCP side is ready for the queued replies but takes none of them, and there is no data behind them. */
    method RefuseReplies()
      requires Valid() && Connected() && devToTcp.dstWrite && devToTcp.count == 0 && tn.outTelnetCmdSize > 0
      modifies this`replies, this`repliesSent, this`mode, this`is2217, devToTcp, devToTcp.buf, tcpToDev, tcpToDev.buf
      modifies tn, tn.telnetCmd, tn.outTelnetCmd, tn.cmds
      ensures Valid() && Stranded() && mode == old(mode) && tn.outTelnetCmdSize == old(tn.outTelnetCmdSize)
    {
      hide Port.Valid, Port.Did, State.Valid;
      ReadyIsWatched();
      Handle(Select(false, false, false, true));
      Handle(TcpWritable(Done(Again), Done(Wrote(0))));
    }

    /** The first byte of the device is read while the TCP side takes nothing. */
    method ReadRefused(b: byte)
      requires Valid() && Connected() && mode != TelnetMode && devToTcp.srcRead && !devToTcp.silent
      requires devToTcp.blocks == [] && devToTcp.output == []
      modifies this`replies, this`repliesSent, this`mode, this`is2217, devToTcp, devToTcp.buf, tcpToDev, tcpToDev.buf
      modifies tn, tn.telnetCmd, tn.outTelnetCmd, tn.cmds
      ensures Valid() && Connected() && devToTcp.dstWrite && devToTcp.blocks == [Block([b], false)]
      ensures tcpToDev.blocks == old(tcpToDev.blocks) && replies == old(replies)
    {
      hide Port.Valid, State.Valid, TelnetData.Value, TelnetData.Replies, View.Strands, WriterOutcome;
      hide Port.TcpReadDone, Port.TcpWriteDone, Port.NotifyDone, Port.DevWriteDone;
      ReadyIsWatched();
      Handle(Select(true, false, false, false));
      Handle(DevReadable(Got([b]), Again));
      PendingIsWatched();
    }

    /** The TCP side takes all replies that are queued. */
    method SendAllReplies()
      requires Valid() && Connected() && devToTcp.dstWrite
      modifies this`replies, this`repliesSent, this`mode, this`is2217, devToTcp, devToTcp.buf, tcpToDev, tcpToDev.buf
      modifies tn, tn.telnetCmd, tn.outTelnetCmd, tn.cmds
      ensures Valid() && repliesSent == replies == old(replies)
      ensures devToTcp.blocks == old(devToTcp.blocks) && tcpToDev.blocks == old(tcpToDev.blocks)
    {
      hide Port.Valid, State.Valid, TelnetData.Value, TelnetData.Replies, View.Becomes, View.Strands;
      hide Port.TcpReadDone, Port.NotifyDone, Port.DevReadDone, Port.DevWriteDone;
      ReadyIsWatched();
      Handle(Select(false, false, false, true));
      QueueFits();
      Handle(TcpWritable(Done(Wrote(MAX_XMIT)), Interrupted));
      QueueFits();
      Delivered();
    }

    /** A port that becomes telnet while it is connected reads a block of the TCP side. */
    method ReadSwitched(bytes: seq<byte>)
      requires Valid() && Connected() && tcpToDev.srcRead && tcpToDev.blocks == [] && 0 < |bytes| <= PORT_BUFSIZE
      modifies this`replies, this`repliesSent, this`mode, this`is2217, devToTcp, devToTcp.buf, tcpToDev, tcpToDev.buf
      modifies tn, tn.telnetCmd, tn.outTelnetCmd, tn.cmds
      ensures Valid() && tcpToDev.blocks == [Block(bytes, true)] && tn.Value() == Parsed(old(tn.Value()), bytes)
      ensures mode == TelnetMode && (Connected() <==> !tn.error)
    {
      hide Port.Valid, State.Valid, TelnetData.Value, TelnetData.Replies, View.Strands, WriterOutcome;
      hide Port.TcpWriteDone, Port.NotifyDone, Port.DevReadDone, Port.DevWriteDone, Block.Through;
      ReadyIsWatched();
      Handle(SetMode(TelnetMode));
      Handle(Select(false, false, true, false));
      Handle(TcpReadable(Got(bytes), Wrote(|bytes|)));
    }

    lemma QueueFits()
      requires Valid()
      ensures tn.outTelnetCmdSize <= MAX_XMIT && |tn.Replies()| == tn.outTelnetCmdSize
      ensures tn.error == tn.Value().error
    {
    }
  }

  /**
    Stranded replies are reached: a new telnet port is told at once that there is room for its initial negotiation,
    which is refused all the same, while there is no data yet to write behind it.
  */
  method RefuseFirstReplies(cb: Callbacks, table: array<Cmd>, initSeq: seq<byte>) returns (port: Port)
    requires Terminated(table[..]) && 0 < |initSeq| <= MAX_XMIT
    modifies table
    ensures fresh(port) && port.Valid() && port.mode == TelnetMode
    ensures port.Stranded() && port.tn.outTelnetCmdSize == |initSeq|
  {
    hide Port.Valid, Terminated, TelnetData.Replies, TelnetData.Valid;
    var unused := new TelnetData(table, []);
    port := new Port(TelnetMode, cb, table, initSeq, unused);
    port.RefuseReplies();
  }

  /**
    A port that is not telnet writes the replies which an earlier connection left in its record, ahead of data that
    was refused once. These bytes, which come from no device, are none exactly when that queue was empty.
  */
  method SendLeftovers(cb: Callbacks, table: array<Cmd>, leftover: TelnetData, b: byte) returns (port: Port)
    requires Terminated(table[..]) && leftover.Valid()
    modifies leftover, leftover.telnetCmd, leftover.outTelnetCmd, leftover.cmds
    ensures fresh(port) && port.Valid() && port.devToTcp.blocks == [Block([b], false)] && port.tcpToDev.blocks == []
    ensures port.repliesSent == old(leftover.Replies())
    ensures port.repliesSent == [] <==> old(leftover.outTelnetCmdSize) == 0
  {
    hide Port.Valid, Terminated, TelnetData.Replies, TelnetData.Valid, WireOf;
    leftover.Parts();
    port := new Port(Raw, cb, table, [], leftover);
    port.ReadRefused(b);
    port.SendAllReplies();
  }

  /**
    A port that becomes telnet while it is connected parses with the record of an earlier connection: if that ended
    inside a suboption, nothing of what the peer sends reaches the device.
  */
  method SwallowAfterSwitch(cb: Callbacks, table: array<Cmd>, leftover: TelnetData, n: nat) returns (port: Port)
    requires Terminated(table[..]) && leftover.Valid() && 0 < n <= PORT_BUFSIZE
    requires leftover.telnetCmdPos > 2 && !leftover.suboptionIac && !leftover.error
    modifies leftover, leftover.telnetCmd, leftover.outTelnetCmd, leftover.cmds
    ensures fresh(port) && port.Valid() && port.Connected() && port.tcpToDev.blocks == [Block(Zeros(n), true)]
    ensures port.tcpToDev.output == port.tcpToDev.Pending() == []
  {
    hide Port.Valid, Terminated, TelnetData.Replies, TelnetData.Valid, State.Valid, Feed;
    leftover.Parts();
    assert Swallows(leftover.Value());
    FeedZeros(cb, leftover.Value(), n);
    port := new Port(Raw, cb, table, [], leftover);
    port.ReadSwitched(Zeros(n));
    OneMore(cb, port.parser0, [], Block(Zeros(n), true));
    port.QueueFits();
    port.Delivered();
  }
}
