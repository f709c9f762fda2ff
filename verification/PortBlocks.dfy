/**
  The blocks that a connection of ser2net/dataxfer.c reads, and what they are turned into. A port's state can change
  while it is connected, so that each block is translated, or not, by the state it is read in.
*/
module PortBlocks {
  import opened Bytes
  import opened Telnet

  datatype Block = Block(bytes: seq<byte>, telnet: bool)
  {
    /** The bytes that the TCP side must see for a block of the device. */
    function Wire(): seq<byte> {
      if telnet then Doubled(bytes) else bytes
    }

    /** What a block of the TCP side does to the parser, and the bytes that the device must see for it. */
    function Through(cb: Callbacks, s: State): (r: (State, seq<byte>))
      requires s.Valid()
      ensures r.0.Valid()
    {
      if telnet then Feed(cb, s, bytes) else (s, bytes)
    }
  }

  function Joined(blocks: seq<Block>): seq<byte> {
    if blocks == [] then [] else Joined(blocks[..|blocks| - 1]) + blocks[|blocks| - 1].bytes
  }

  function WireOf(blocks: seq<Block>): seq<byte> {
    if blocks == [] then [] else WireOf(blocks[..|blocks| - 1]) + blocks[|blocks| - 1].Wire()
  }

  /** All blocks go through one parser, which those that are not telnet leave alone. */
  function ThroughAll(cb: Callbacks, s: State, blocks: seq<Block>): (r: (State, seq<byte>))
    requires s.Valid()
    ensures r.0.Valid()
    decreases |blocks|
  {
    if blocks == [] then (s, [])
    else
      var (s1, x) := ThroughAll(cb, s, blocks[..|blocks| - 1]);
      var (s2, y) := blocks[|blocks| - 1].Through(cb, s1);
      (s2, x + y)
  }

  lemma OneMore(cb: Callbacks, s: State, blocks: seq<Block>, b: Block)
    requires s.Valid()
    ensures WireOf(blocks + [b]) == WireOf(blocks) + b.Wire()
    ensures var (s1, x) := ThroughAll(cb, s, blocks);
            var (s2, y) := b.Through(cb, s1);
            ThroughAll(cb, s, blocks + [b]) == (s2, x + y)
  {
    hide Feed, Doubled;
    assert (blocks + [b])[..|blocks|] == blocks;
  }

  lemma SameThrough(cb: Callbacks, s: State, t: State, b: Block)
    requires s.Valid() && t.Valid() && SameParser(s, t)
    ensures SameParser(b.Through(cb, s).0, b.Through(cb, t).0) && b.Through(cb, s).1 == b.Through(cb, t).1
  {
    FeedSameParser(cb, s, t, b.bytes);
  }

  /** While the port is a telnet port all the time, its blocks are one stream. */
  lemma {:induction false} AllTelnet(cb: Callbacks, s: State, blocks: seq<Block>)
    requires s.Valid() && forall b <- blocks :: b.telnet
    ensures WireOf(blocks) == Doubled(Joined(blocks)) && ThroughAll(cb, s, blocks) == Feed(cb, s, Joined(blocks))
    decreases |blocks|
  {
    hide Feed, Doubled;
    if blocks == [] {
      FeedNothing(cb, s);
      assert Doubled([]) == [] by { DoubledLength([]); }
    } else {
      var front, last := blocks[..|blocks| - 1], blocks[|blocks| - 1];
      AllTelnet(cb, s, front);
      DoubledAppend(Joined(front), last.bytes);
      FeedAppend(cb, s, Joined(front), last.bytes);
    }
  }

  /** While it is never one, its blocks pass through. */
  lemma {:induction false} NoneTelnet(cb: Callbacks, s: State, blocks: seq<Block>)
    requires s.Valid() && forall b <- blocks :: b.telnet ==> b.bytes == []
    ensures WireOf(blocks) == Joined(blocks) && ThroughAll(cb, s, blocks) == (s, Joined(blocks))
    decreases |blocks|
  {
    if blocks != [] {
      var front, last := blocks[..|blocks| - 1], blocks[|blocks| - 1];
      NoneTelnet(cb, s, front);
      FeedNothing(cb, ThroughAll(cb, s, front).0);
    }
  }

  // ----- What switching the port while it is connected does to the wire form -----

  lemma {:induction false} SingleIff(bs: seq<byte>)
    ensures |Doubled(bs)| == |bs| <==> IAC !in bs
    ensures IAC !in bs ==> Doubled(bs) == bs
  {
    if bs != [] {
      DoubledLength(bs[1..]);
      SingleIff(bs[1..]);
      assert bs == [bs[0]] + bs[1..];
    }
  }

  lemma {:induction false} RawWireLength(blocks: seq<Block>)
    ensures |Joined(blocks)| <= |WireOf(blocks)|
    ensures |Joined(blocks)| == |WireOf(blocks)| <==> forall b <- blocks :: b.telnet ==> IAC !in b.bytes
    ensures (forall b <- blocks :: b.telnet ==> IAC !in b.bytes) ==> WireOf(blocks) == Joined(blocks)
    decreases |blocks|
  {
    hide Doubled;
    if blocks != [] {
      var front, last := blocks[..|blocks| - 1], blocks[|blocks| - 1];
      RawWireLength(front);
      DoubledLength(last.bytes);
      SingleIff(last.bytes);
      assert blocks == front + [last];
    }
  }

  lemma {:induction false} TelnetWireLength(blocks: seq<Block>)
    ensures |WireOf(blocks)| <= |Doubled(Joined(blocks))|
    ensures |WireOf(blocks)| == |Doubled(Joined(blocks))| <==> forall b <- blocks :: !b.telnet ==> IAC !in b.bytes
    ensures (forall b <- blocks :: !b.telnet ==> IAC !in b.bytes) ==> WireOf(blocks) == Doubled(Joined(blocks))
    decreases |blocks|
  {
    hide Doubled;
    if blocks == [] {
      DoubledLength([]);
    } else {
      var front, last := blocks[..|blocks| - 1], blocks[|blocks| - 1];
      TelnetWireLength(front);
      DoubledAppend(Joined(front), last.bytes);
      DoubledLength(last.bytes);
      SingleIff(last.bytes);
      assert blocks == front + [last];
    }
  }

  /**
    What is written for blocks of both kinds is the wire form of a raw port, or that of a telnet port, exactly when
    no block read in the other way holds a 255.
  */
  lemma MixedWireIff(blocks: seq<Block>)
    ensures WireOf(blocks) == Joined(blocks) <==> forall b <- blocks :: b.telnet ==> IAC !in b.bytes
    ensures WireOf(blocks) == Doubled(Joined(blocks)) <==> forall b <- blocks :: !b.telnet ==> IAC !in b.bytes
  {
    hide WireOf, Joined, Doubled;
    RawWireLength(blocks);
    TelnetWireLength(blocks);
  }

  // ----- What the parser's first state matters for -----

  /** The same sizes, read in the same states. */
  predicate SameShape(a: seq<Block>, b: seq<Block>) {
    |a| == |b| && forall k :: 0 <= k < |a| ==> |a[k].bytes| == |b[k].bytes| && a[k].telnet == b[k].telnet
  }

  /** For some blocks of this shape the bytes for the device depend on the state that the parser starts in. */
  ghost predicate StartMatters(cb: Callbacks, shape: seq<Block>) {
    exists blocks: seq<Block>, s: State, t: State ::
      SameShape(blocks, shape) && s.Valid() && t.Valid() && ThroughAll(cb, s, blocks).1 != ThroughAll(cb, t, blocks).1
  }

  predicate ReadAsTelnet(b: Block) { b.telnet && b.bytes != [] }

  /** How many bytes are read as telnet. */
  function TelnetSize(blocks: seq<Block>): nat {
    if blocks == [] then 0
    else
      var last := blocks[|blocks| - 1];
      TelnetSize(blocks[..|blocks| - 1]) + if last.telnet then |last.bytes| else 0
  }

  function Zeros(n: nat): (bs: seq<byte>)
    ensures |bs| == n
  {
    if n == 0 then [] else [0] + Zeros(n - 1)
  }

  /** Inside a suboption, past its code. */
  predicate Swallows(s: State) { s.pos > 2 && !s.iac }

  lemma {:induction false} FeedZeros(cb: Callbacks, s: State, n: nat)
    requires s.Valid() && (s.pos == 0 || Swallows(s))
    ensures var (t, kept) := Feed(cb, s, Zeros(n));
            t.error == s.error && if s.pos == 0 then t == s && kept == Zeros(n) else Swallows(t) && kept == []
    decreases n
  {
    if n > 0 {
      assert Zeros(n)[1..] == Zeros(n - 1) && Zeros(n)[0] == 0;
      FeedZeros(cb, Step(cb, s, 0).0, n - 1);
    }
  }

  function Zeroed(blocks: seq<Block>): (r: seq<Block>)
    ensures |r| == |blocks|
  {
    if blocks == [] then []
    else
      var last := blocks[|blocks| - 1];
      Zeroed(blocks[..|blocks| - 1]) + [Block(Zeros(|last.bytes|), last.telnet)]
  }

  lemma {:induction false} ZeroedShape(blocks: seq<Block>)
    ensures SameShape(Zeroed(blocks), blocks)
  {
    if blocks != [] {
      ZeroedShape(blocks[..|blocks| - 1]);
    }
  }

  /** An idle parser delivers all zeros, one inside a suboption none of those read as telnet. */
  lemma {:induction false} ZerosThrough(cb: Callbacks, s: State, t: State, blocks: seq<Block>)
    requires s.Valid() && t.Valid() && s.pos == 0 && Swallows(t)
    ensures var (s', x) := ThroughAll(cb, s, Zeroed(blocks));
            var (t', y) := ThroughAll(cb, t, Zeroed(blocks));
            s'.pos == 0 && Swallows(t') && |x| == |y| + TelnetSize(blocks)
    decreases |blocks|
  {
    hide Feed;
    if blocks != [] {
      var front, last := blocks[..|blocks| - 1], blocks[|blocks| - 1];
      var b := Block(Zeros(|last.bytes|), last.telnet);
      ZerosThrough(cb, s, t, front);
      assert Zeroed(blocks) == Zeroed(front) + [b];
      OneMore(cb, s, Zeroed(front), b);
      OneMore(cb, t, Zeroed(front), b);
      FeedZeros(cb, ThroughAll(cb, s, Zeroed(front)).0, |last.bytes|);
      FeedZeros(cb, ThroughAll(cb, t, Zeroed(front)).0, |last.bytes|);
    }
  }

  lemma {:induction false} TelnetSizeIff(blocks: seq<Block>)
    ensures TelnetSize(blocks) > 0 <==> exists k :: 0 <= k < |blocks| && ReadAsTelnet(blocks[k])
  {
    if blocks != [] {
      var n := |blocks| - 1;
      TelnetSizeIff(blocks[..n]);
      assert forall k :: 0 <= k < n ==> blocks[..n][k] == blocks[k];
    }
  }

  const ENDED: seq<Cmd> := [Cmd(255, false, false, false, false, false, false, false, false)]

  function Fresh(pos: nat): State {
    State(Zeros(MAX_CMD + 1), pos, false, [], false, ENDED, [], 0)
  }

  /**
    A record that was not set up for this connection matters for its data if and only if some byte of it is read as
    telnet.
  */
  lemma StartMattersIff(cb: Callbacks, shape: seq<Block>)
    ensures StartMatters(cb, shape) <==> exists k :: 0 <= k < |shape| && ReadAsTelnet(shape[k])
  {
    TelnetSizeIff(shape);
    if TelnetSize(shape) > 0 {
      assert ENDED[0].option == 255;
      ZeroedShape(shape);
      ZerosThrough(cb, Fresh(0), Fresh(3), shape);
    } else if blocks: seq<Block>, s: State, t: State :|
      SameShape(blocks, shape) && s.Valid() && t.Valid() && ThroughAll(cb, s, blocks).1 != ThroughAll(cb, t, blocks).1
    {
      forall b: Block | b in blocks
        ensures b.telnet ==> b.bytes == []
      {
        var k :| 0 <= k < |blocks| && blocks[k] == b;
        assert !ReadAsTelnet(shape[k]);
      }
      NoneTelnet(cb, s, blocks);
      NoneTelnet(cb, t, blocks);
    }
  }
}
