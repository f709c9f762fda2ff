/**
  The word-stream demultiplexer of vme/UnpackVF48A.cxx: words of up to six groups arrive interleaved, group
  markers switch between them, and each group's words are cut into frames for the event unpacker.
*/
module Vf48Stream {

  type word = x: int | 0 <= x < 0x1_0000_0000

  const MAX_GROUPS: nat := 6
  // Words per group buffer: the source allocates this number of bytes divided by the four bytes of a word.
  const CAPACITY: nat := (1100 * 2 * 48 + 1024) / 4

  function Kind(w: word): int { w / 0x1000_0000 }
  predicate IsMarker(w: word) { Kind(w) == 0xF }
  predicate IsHeader(w: word) { Kind(w) == 0x8 }
  predicate IsTrailer(w: word) { Kind(w) == 0xE }
  function MarkedGroup(w: word): nat { w % 8 }

  type Words = seq<word>

  // ----- One group -----

  datatype Group = Group(buf: Words, acc: bool)

  /** One word of a group: the new buffer, and the frame it completes, if any. */
  function GroupStep(g: Group, w: word): (Group, seq<Words>) {
    if IsHeader(w) then
      if |g.buf| > 1 then (Group([w], true), [g.buf]) else (Group(g.buf + [w], true), [])
    else if IsTrailer(w) then (Group([], false), [g.buf + [w]])
    else if g.acc then (Group(g.buf + [w], true), [])
    else (g, [])
  }

  function GroupRun(g: Group, ws: Words): (Group, seq<Words>)
    decreases |ws|
  {
    if ws == [] then (g, [])
    else
      var (g1, f1) := GroupStep(g, ws[0]);
      var (g2, f2) := GroupRun(g1, ws[1..]);
      (g2, f1 + f2)
  }

  /** Every store of the run stays inside the group's buffer. */
  ghost predicate GroupFits(g: Group, ws: Words)
    decreases |ws|
  {
    ws == [] || (StepFits(g, ws[0]) && GroupFits(GroupStep(g, ws[0]).0, ws[1..]))
  }

  /** A header finds at most one word in the buffer or empties it, a skipped word is not stored. */
  ghost predicate StepFits(g: Group, w: word) {
    IsHeader(w) || (!IsTrailer(w) && !g.acc) || |g.buf| < CAPACITY
  }

  // ----- One unit -----

  datatype Frame = Frame(group: nat, words: Words)

  datatype Unit = Unit(grp: nat, groups: seq<Group>, frames: seq<Frame>) {
    predicate Valid() {
      grp < MAX_GROUPS && |groups| == MAX_GROUPS
    }
  }

  predicate ValidMarkers(ws: Words) {
    forall w :: w in ws && IsMarker(w) ==> MarkedGroup(w) < MAX_GROUPS
  }

  function Tagged(group: nat, frames: seq<Words>): (r: seq<Frame>)
    ensures |r| == |frames|
    ensures forall k :: 0 <= k < |r| ==> r[k] == Frame(group, frames[k])
  {
    if frames == [] then [] else [Frame(group, frames[0])] + Tagged(group, frames[1..])
  }

  function UnitStep(u: Unit, w: word): (r: Unit)
    requires u.Valid() && (IsMarker(w) ==> MarkedGroup(w) < MAX_GROUPS)
    ensures r.Valid()
  {
    if IsMarker(w) then u.(grp := MarkedGroup(w))
    else
      var (g, fs) := GroupStep(u.groups[u.grp], w);
      u.(groups := u.groups[u.grp := g], frames := u.frames + Tagged(u.grp, fs))
  }

  function UnitRun(u: Unit, ws: Words): (r: Unit)
    requires u.Valid() && ValidMarkers(ws)
    ensures r.Valid()
    decreases |ws|
  {
    if ws == [] then u else UnitRun(UnitStep(u, ws[0]), ws[1..])
  }

  ghost predicate UnitFits(u: Unit, ws: Words)
    requires u.Valid() && ValidMarkers(ws)
    decreases |ws|
  {
    ws == [] || ((IsMarker(ws[0]) || StepFits(u.groups[u.grp], ws[0])) && UnitFits(UnitStep(u, ws[0]), ws[1..]))
  }

  /** How a stream is cut over calls does not matter. */
  lemma {:induction false} RunAppend(u: Unit, a: Words, b: Words)
    requires u.Valid() && ValidMarkers(a) && ValidMarkers(b)
    ensures ValidMarkers(a + b) && UnitRun(u, a + b) == UnitRun(UnitRun(u, a), b)
    decreases |a|
  {
    if a == [] {
      assert a + b == b;
    } else {
      assert (a + b)[1..] == a[1..] + b;
      RunAppend(UnitStep(u, a[0]), a[1..], b);
    }
  }

  function Joined(calls: seq<Words>): Words {
    if calls == [] then [] else calls[0] + Joined(calls[1..])
  }

  ghost function RunCalls(u: Unit, calls: seq<Words>): Unit
    requires u.Valid() && forall c :: c in calls ==> ValidMarkers(c)
    decreases |calls|
  {
    if calls == [] then u else RunCalls(UnitRun(u, calls[0]), calls[1..])
  }

  /** Any number of calls do what one call with all their words does. */
  lemma {:induction false} CallsJoin(u: Unit, calls: seq<Words>)
    requires u.Valid() && forall c :: c in calls ==> ValidMarkers(c)
    ensures ValidMarkers(Joined(calls)) && RunCalls(u, calls) == UnitRun(u, Joined(calls))
    decreases |calls|
  {
    if calls != [] {
      CallsJoin(UnitRun(u, calls[0]), calls[1..]);
      RunAppend(u, calls[0], Joined(calls[1..]));
    }
  }

  // ----- Interleaving does not matter -----

  /** The words of one group in a stream that starts in group grp. */
  function OwnWords(grp: nat, ws: Words, g: nat): Words
    decreases |ws|
  {
    if ws == [] then []
    else if IsMarker(ws[0]) then OwnWords(MarkedGroup(ws[0]), ws[1..], g)
    else if grp == g then [ws[0]] + OwnWords(grp, ws[1..], g)
    else OwnWords(grp, ws[1..], g)
  }

  /** The frames handed on for one group, in order. */
  function FramesOf(frames: seq<Frame>, g: nat): seq<Words>
    decreases |frames|
  {
    if frames == [] then []
    else (if frames[0].group == g then [frames[0].words] else []) + FramesOf(frames[1..], g)
  }

  lemma {:induction false} FramesOfAppend(a: seq<Frame>, b: seq<Frame>, g: nat)
    ensures FramesOf(a + b, g) == FramesOf(a, g) + FramesOf(b, g)
    decreases |a|
  {
    if a == [] {
      assert a + b == b;
    } else {
      assert (a + b)[1..] == a[1..] + b;
      FramesOfAppend(a[1..], b, g);
    }
  }

  lemma {:induction false} FramesOfTagged(frames: seq<Words>, h: nat, g: nat)
    ensures FramesOf(Tagged(h, frames), g) == if h == g then frames else []
    decreases |frames|
  {
    if frames != [] {
      FramesOfTagged(frames[1..], h, g);
      assert Tagged(h, frames)[1..] == Tagged(h, frames[1..]);
    }
  }

  lemma StepForGroup(u: Unit, w: word, g: nat)
    requires u.Valid() && !IsMarker(w) && g < MAX_GROUPS
    ensures var (g1, fs) := GroupStep(u.groups[u.grp], w);
            var r := UnitStep(u, w);
            && r.groups[g] == (if u.grp == g then g1 else u.groups[g])
            && FramesOf(r.frames, g) == FramesOf(u.frames, g) + (if u.grp == g then fs else [])
  {
    var (g1, fs) := GroupStep(u.groups[u.grp], w);
    FramesOfAppend(u.frames, Tagged(u.grp, fs), g);
    FramesOfTagged(fs, u.grp, g);
  }

  lemma Regroup<T>(a: seq<T>, b: seq<T>, c: seq<T>)
    ensures a + (b + c) == (a + b) + c && a + [] == a
  {
  }

  /** What a stream does to one group is what the group's own words do to it alone. */
  lemma {:induction false} OnlyOwnWordsMatter(u: Unit, ws: Words, g: nat)
    requires u.Valid() && ValidMarkers(ws) && g < MAX_GROUPS
    ensures var r := UnitRun(u, ws);
            var (own, frames) := GroupRun(u.groups[g], OwnWords(u.grp, ws, g));
            r.groups[g] == own && FramesOf(r.frames, g) == FramesOf(u.frames, g) + frames
    decreases |ws|
  {
    hide GroupStep, FramesOf, Tagged;
    Regroup(FramesOf(u.frames, g), [], []);
    if ws != [] {
      var w := ws[0];
      OnlyOwnWordsMatter(UnitStep(u, w), ws[1..], g);
      if !IsMarker(w) {
        StepForGroup(u, w, g);
        if u.grp == g {
          var own := OwnWords(g, ws[1..], g);
          var (g1, fs) := GroupStep(u.groups[g], w);
          assert ([w] + own)[1..] == own;
          Regroup(FramesOf(u.frames, g), fs, GroupRun(g1, own).1);
        }
      }
    }
  }

  /** Whether the buffers suffice depends on each group's own words alone. */
  lemma {:induction false} FitsByGroup(u: Unit, ws: Words)
    requires u.Valid() && ValidMarkers(ws)
    ensures UnitFits(u, ws) <==> forall g: nat :: g < MAX_GROUPS ==> GroupFits(u.groups[g], OwnWords(u.grp, ws, g))
    decreases |ws|
  {
    if ws != [] {
      var w := ws[0];
      var u1 := UnitStep(u, w);
      FitsByGroup(u1, ws[1..]);
      if !IsMarker(w) {
        forall g: nat | g < MAX_GROUPS
          ensures GroupFits(u.groups[g], OwnWords(u.grp, ws, g)) <==>
            (g == u.grp ==> StepFits(u.groups[g], w)) && GroupFits(u1.groups[g], OwnWords(u1.grp, ws[1..], g))
        {
          if g == u.grp {
            assert ([w] + OwnWords(u.grp, ws[1..], g))[1..] == OwnWords(u.grp, ws[1..], g);
          }
        }
        if UnitFits(u1, ws[1..]) && !StepFits(u.groups[u.grp], w) {
          assert !GroupFits(u.groups[u.grp], OwnWords(u.grp, ws, u.grp));
        }
      }
    }
  }

  /** Two interleavings of the same words per group, cut over calls in any way, hand on the same frames per group. */
  lemma SameWordsSameFrames(u: Unit, v: Unit, a: Words, b: Words, g: nat)
    requires u.Valid() && v.Valid() && ValidMarkers(a) && ValidMarkers(b) && g < MAX_GROUPS
    requires u.groups[g] == v.groups[g] && FramesOf(u.frames, g) == FramesOf(v.frames, g)
    requires OwnWords(u.grp, a, g) == OwnWords(v.grp, b, g)
    ensures FramesOf(UnitRun(u, a).frames, g) == FramesOf(UnitRun(v, b).frames, g)
    ensures UnitRun(u, a).groups[g] == UnitRun(v, b).groups[g]
  {
    OnlyOwnWordsMatter(u, a, g);
    OnlyOwnWordsMatter(v, b, g);
  }

  // ----- What the frames are -----

  /** A word before position i opened a frame that no trailer has closed since. */
  ghost predicate InFrame(ws: Words, i: nat)
    requires i <= |ws|
  {
    exists h :: 0 <= h < i && IsHeader(ws[h]) && forall k :: h < k < i ==> !IsTrailer(ws[k])
  }

  /** The words of a group that are not skipped: headers, trailers, and everything in an open frame. */
  ghost function Kept(ws: Words, n: nat): Words
    requires n <= |ws|
  {
    if n == 0 then []
    else Kept(ws, n - 1) + if IsHeader(ws[n - 1]) || IsTrailer(ws[n - 1]) || InFrame(ws, n - 1) then [ws[n - 1]] else []
  }

  function Flatten(frames: seq<Words>): Words {
    if frames == [] then [] else Flatten(frames[..|frames| - 1]) + frames[|frames| - 1]
  }

  /**
    A frame starts with a header, or is a lone trailer. Past its first two words it has no other header, and a
    trailer only at its end.
  */
  ghost predicate FrameShape(f: Words) {
    && f != []
    && (|f| == 1 ==> IsTrailer(f[0]))
    && (|f| > 1 ==> OpenShape(f[..|f| - 1]) && !(IsHeader(f[|f| - 1]) && |f| > 2))
  }

  /** The buffer of an open frame. */
  ghost predicate OpenShape(f: Words) {
    && f != [] && IsHeader(f[0])
    && forall k :: 1 <= k < |f| ==> !IsTrailer(f[k]) && (IsHeader(f[k]) ==> k == 1)
  }

  const EMPTY := Group([], false)

  lemma GroupRunSnoc(g: Group, ws: Words, w: word)
    ensures var (g1, f1) := GroupRun(g, ws);
            var (g2, f2) := GroupStep(g1, w);
            GroupRun(g, ws + [w]) == (g2, f1 + f2)
    decreases |ws|
  {
    if ws == [] {
      assert ws + [w] == [w];
      var (g2, f2) := GroupStep(g, w);
      assert GroupRun(g2, [w][1..]) == (g2, []);
      assert f2 + [] == f2 == [] + f2;
    } else {
      var (g0, f0) := GroupStep(g, ws[0]);
      assert (ws + [w])[1..] == ws[1..] + [w];
      GroupRunSnoc(g0, ws[1..], w);
      var (g1, f1) := GroupRun(g0, ws[1..]);
      var (g2, f2) := GroupStep(g1, w);
      assert f0 + (f1 + f2) == (f0 + f1) + f2;
    }
  }

  /** The frames and the buffer so far, against the words kept so far. */
  ghost predicate Partition(kept: Words, inFrame: bool, g: Group, frames: seq<Words>) {
    && Flatten(frames) + g.buf == kept
    && (g.acc <==> inFrame)
    && (if g.acc then OpenShape(g.buf) else g.buf == [])
    && forall f :: f in frames ==> FrameShape(f)
  }

  lemma PartitionStep(kept: Words, inFrame: bool, g: Group, frames: seq<Words>, w: word)
    requires Partition(kept, inFrame, g, frames)
    ensures var (g2, f2) := GroupStep(g, w);
            Partition(kept + (if IsHeader(w) || IsTrailer(w) || inFrame then [w] else []),
                      IsHeader(w) || (inFrame && !IsTrailer(w)), g2, frames + f2)
  {
    var (g2, f2) := GroupStep(g, w);
    Regroup(Flatten(frames), g.buf, [w]);
    Regroup(frames, [], []);
    if f2 != [] {
      assert (frames + f2)[..|frames|] == frames;
      assert Flatten(frames + f2) == Flatten(frames) + f2[0];
      FrameClosed(g, w);
    }
    Regroup(kept, [], []);
  }

  /** A frame handed on has the shape of a frame. */
  lemma FrameClosed(g: Group, w: word)
    requires if g.acc then OpenShape(g.buf) else g.buf == []
    ensures forall f :: f in GroupStep(g, w).1 ==> FrameShape(f)
  {
    if IsTrailer(w) {
      var f := g.buf + [w];
      assert f[..|f| - 1] == g.buf;
    } else if IsHeader(w) && |g.buf| > 1 {
      var open := g.buf[..|g.buf| - 1];
      assert OpenShape(open);
    }
  }

  lemma PartitionStarts(ws: Words)
    ensures var (g, frames) := GroupRun(EMPTY, ws[..0]); Partition(Kept(ws, 0), InFrame(ws, 0), g, frames)
  {
    assert ws[..0] == [];
    assert GroupRun(EMPTY, []) == (EMPTY, []);
  }

  /**
    From an empty group every kept word is in exactly one frame or the buffer, in order; frames have the shape
    above; and words accumulate exactly inside an open frame.
  */
  lemma {:induction false} FramesPartition(ws: Words, n: nat)
    requires n <= |ws|
    ensures var (g, frames) := GroupRun(EMPTY, ws[..n]); Partition(Kept(ws, n), InFrame(ws, n), g, frames)
  {
    hide Flatten, FrameShape, OpenShape, InFrame, GroupStep, GroupRun, Partition;
    if n == 0 {
      PartitionStarts(ws);
    } else {
      var w := ws[n - 1];
      FramesPartition(ws, n - 1);
      assert ws[..n] == ws[..n - 1] + [w];
      GroupRunSnoc(EMPTY, ws[..n - 1], w);
      var (g1, f1) := GroupRun(EMPTY, ws[..n - 1]);
      InFrameStep(ws, n - 1);
      PartitionStep(Kept(ws, n - 1), InFrame(ws, n - 1), g1, f1, w);
    }
  }

  lemma InFrameStep(ws: Words, n: nat)
    requires n < |ws|
    ensures InFrame(ws, n + 1) <==> IsHeader(ws[n]) || (InFrame(ws, n) && !IsTrailer(ws[n]))
  {
    if InFrame(ws, n) && !IsTrailer(ws[n]) {
      var h :| 0 <= h < n && IsHeader(ws[h]) && forall k :: h < k < n ==> !IsTrailer(ws[k]);
      assert forall k :: h < k < n + 1 ==> !IsTrailer(ws[k]);
    }
  }

  // ----- Where the frames end -----

  /**
    The cuts among the kept words: behind every trailer, and in front of every header but one right behind the word
    that follows a cut.
  */
  predicate CutAt(kept: Words, p: nat)
    requires p <= |kept|
    decreases p
  {
    p == 0 || IsTrailer(kept[p - 1]) || (p < |kept| && IsHeader(kept[p]) && !CutAt(kept, p - 1))
  }

  /** That many words are in the first frames. */
  ghost predicate EndsAt(frames: seq<Words>, p: nat) {
    exists j :: 0 <= j <= |frames| && |Flatten(frames[..j])| == p
  }

  ghost predicate CutsAreEnds(kept: Words, frames: seq<Words>) {
    forall p: nat :: p <= |kept| ==> (CutAt(kept, p) <==> EndsAt(frames, p))
  }

  lemma {:induction false} CutKept(kept: Words, w: word, p: nat)
    requires p < |kept|
    ensures CutAt(kept + [w], p) <==> CutAt(kept, p)
    decreases p
  {
    var more := kept + [w];
    assert forall k :: 0 <= k < |kept| ==> more[k] == kept[k];
    if p > 0 {
      CutKept(kept, w, p - 1);
    }
  }

  lemma CutAtEnd(kept: Words, w: word)
    ensures var more := kept + [w];
            && (CutAt(more, |more|) <==> IsTrailer(w))
            && (CutAt(more, |kept|) <==> CutAt(kept, |kept|) || (IsHeader(w) && !CutAt(kept, |kept| - 1)))
  {
    var more := kept + [w];
    assert forall k :: 0 <= k < |kept| ==> more[k] == kept[k];
    if kept != [] {
      CutKept(kept, w, |kept| - 1);
    }
  }

  lemma {:induction false} FlattenGrows(frames: seq<Words>, j: nat)
    requires j <= |frames|
    ensures |Flatten(frames[..j])| <= |Flatten(frames)|
    decreases |frames|
  {
    if j < |frames| {
      assert frames[..|frames| - 1][..j] == frames[..j];
      FlattenGrows(frames[..|frames| - 1], j);
    } else {
      assert frames[..j] == frames;
    }
  }

  lemma EndsFront(frames: seq<Words>, f: Words, j: nat)
    requires j <= |frames|
    ensures (frames + [f])[..j] == frames[..j]
    ensures |Flatten((frames + [f])[..|frames| + 1])| == |Flatten(frames)| + |f|
  {
    var more := frames + [f];
    assert more[..|more|] == more && more[..|frames|] == frames;
  }

  lemma EndsOneMore(frames: seq<Words>, f: Words, p: nat)
    ensures EndsAt(frames + [f], p) <==> EndsAt(frames, p) || p == |Flatten(frames)| + |f|
    ensures EndsAt(frames, |Flatten(frames)|) && (EndsAt(frames, p) ==> p <= |Flatten(frames)|)
  {
    hide Flatten;
    var more := frames + [f];
    assert frames[..|frames|] == frames;
    if EndsAt(frames, p) {
      var j :| 0 <= j <= |frames| && |Flatten(frames[..j])| == p;
      FlattenGrows(frames, j);
      EndsFront(frames, f, j);
      assert |Flatten(more[..j])| == p;
    }
    if EndsAt(more, p) {
      var j :| 0 <= j <= |more| && |Flatten(more[..j])| == p;
      EndsFront(frames, f, if j <= |frames| then j else 0);
    }
    EndsFront(frames, f, 0);
    assert |Flatten(more[..|frames| + 1])| == |Flatten(frames)| + |f|;
  }

  /** A kept word that is no trailer and hands on no frame. */
  lemma CutsStayed(kept: Words, frames: seq<Words>, buf: Words, w: word)
    requires Flatten(frames) + buf == kept && CutsAreEnds(kept, frames)
    requires !IsTrailer(w) && (IsHeader(w) ==> |buf| <= 1)
    ensures CutsAreEnds(kept + [w], frames)
  {
    var more := kept + [w];
    CutAtEnd(kept, w);
    forall p: nat | p <= |more|
      ensures CutAt(more, p) <==> EndsAt(frames, p)
    {
      EndsOneMore(frames, [], p);
      if p < |kept| {
        CutKept(kept, w, p);
      } else if p == |kept| && |buf| == 1 {
        assert EndsAt(frames, |kept| - 1);
      }
    }
  }

  /** A header that ends the frame in front of it. */
  lemma CutsAtHeader(kept: Words, frames: seq<Words>, buf: Words, w: word)
    requires Flatten(frames) + buf == kept && CutsAreEnds(kept, frames)
    requires IsHeader(w) && |buf| > 1
    ensures CutsAreEnds(kept + [w], frames + [buf])
  {
    var more := kept + [w];
    CutAtEnd(kept, w);
    EndsOneMore(frames, buf, |kept| - 1);
    assert !CutAt(kept, |kept| - 1);
    forall p: nat | p <= |more|
      ensures CutAt(more, p) <==> EndsAt(frames + [buf], p)
    {
      EndsOneMore(frames, buf, p);
      if p < |kept| {
        CutKept(kept, w, p);
      }
    }
  }

  /** A trailer, which ends its own frame. */
  lemma CutsAtTrailer(kept: Words, frames: seq<Words>, buf: Words, w: word)
    requires Flatten(frames) + buf == kept && CutsAreEnds(kept, frames) && IsTrailer(w)
    ensures CutsAreEnds(kept + [w], frames + [buf + [w]])
  {
    var more := kept + [w];
    CutAtEnd(kept, w);
    forall p: nat | p <= |more|
      ensures CutAt(more, p) <==> EndsAt(frames + [buf + [w]], p)
    {
      EndsOneMore(frames, buf + [w], p);
      if p < |kept| {
        CutKept(kept, w, p);
      }
    }
  }

  lemma CutsStep(kept: Words, inFrame: bool, g: Group, frames: seq<Words>, w: word)
    requires Partition(kept, inFrame, g, frames) && CutsAreEnds(kept, frames)
    ensures CutsAreEnds(kept + (if IsHeader(w) || IsTrailer(w) || inFrame then [w] else []),
                        frames + GroupStep(g, w).1)
  {
    hide CutsAreEnds, FrameShape, OpenShape;
    Regroup(kept, [], []);
    Regroup(frames, [], []);
    if IsTrailer(w) {
      CutsAtTrailer(kept, frames, g.buf, w);
    } else if IsHeader(w) && |g.buf| > 1 {
      CutsAtHeader(kept, frames, g.buf, w);
    } else if IsHeader(w) || inFrame {
      CutsStayed(kept, frames, g.buf, w);
    }
  }

  lemma CutsStart()
    ensures CutsAreEnds([], [])
  {
    assert Flatten([][..0]) == [];
  }

  /** The frames of a group are its kept words, cut at exactly the places that the words alone tell. */
  lemma {:induction false} FramesCut(ws: Words, n: nat)
    requires n <= |ws|
    ensures CutsAreEnds(Kept(ws, n), GroupRun(EMPTY, ws[..n]).1)
    decreases n
  {
    hide Flatten, FrameShape, OpenShape, InFrame, GroupStep, GroupRun, Partition, CutsAreEnds;
    if n == 0 {
      RunNothing(ws);
      CutsStart();
    } else {
      var w := ws[n - 1];
      FramesCut(ws, n - 1);
      FramesPartition(ws, n - 1);
      assert ws[..n] == ws[..n - 1] + [w];
      GroupRunSnoc(EMPTY, ws[..n - 1], w);
      var (g1, f1) := GroupRun(EMPTY, ws[..n - 1]);
      CutsStep(Kept(ws, n - 1), InFrame(ws, n - 1), g1, f1, w);
    }
  }

  lemma RunNothing(ws: Words)
    ensures GroupRun(EMPTY, ws[..0]) == (EMPTY, [])
  {
  }

  /**
    So a frame ends in a trailer or is followed by a header, has no trailer before its end, and is a lone trailer only
    when no word was waiting: at the start, or right behind another trailer.
  */
  lemma FrameEnds(ws: Words, j: nat)
    requires j < |GroupRun(EMPTY, ws).1|
    ensures var kept, frames := Kept(ws, |ws|), GroupRun(EMPTY, ws).1;
            var start := |Flatten(frames[..j])|;
            var f := frames[j];
            && f != [] && start + |f| <= |kept| && f == kept[start..start + |f|]
            && (IsTrailer(f[|f| - 1]) || (start + |f| < |kept| && IsHeader(kept[start + |f|])))
            && (forall k :: 0 <= k < |f| - 1 ==> !IsTrailer(f[k]))
            && (|f| == 1 ==> IsTrailer(f[0]) && (start == 0 || IsTrailer(kept[start - 1])))
  {
    hide Kept, GroupRun, InFrame, Flatten;
    assert ws[..|ws|] == ws;
    FramesPartition(ws, |ws|);
    FramesCut(ws, |ws|);
    var kept := Kept(ws, |ws|);
    var (g, frames) := GroupRun(EMPTY, ws);
    var f, start := frames[j], |Flatten(frames[..j])|;
    FrameIsSlice(frames, j);
    assert frames[..j + 1][..j] == frames[..j];
    assert EndsAt(frames, start) && EndsAt(frames, start + |f|);
    assert CutAt(kept, start) && CutAt(kept, start + |f|);
    assert f in frames && FrameShape(f);
    if |f| > 1 {
      assert forall k :: 0 <= k < |f| - 1 ==> f[k] == f[..|f| - 1][k];
      assert !IsTrailer(f[0]);
    }
  }

  lemma {:induction false} FrameIsSlice(frames: seq<Words>, j: nat)
    requires j < |frames|
    ensures var start, f := |Flatten(frames[..j])|, frames[j];
            start + |f| <= |Flatten(frames)| && Flatten(frames)[start..start + |f|] == f
            && |Flatten(frames[..j + 1])| == start + |f|
    decreases |frames|
  {
    var front := frames[..|frames| - 1];
    if j == |front| {
      assert frames[..j] == front && frames[..j + 1] == frames;
    } else {
      FrameIsSlice(front, j);
      assert front[..j] == frames[..j] && front[..j + 1] == frames[..j + 1];
    }
  }

  // ----- The buffers themselves -----

  /** One group's word buffer: wbuf, wptr and wacc for one unit and group. */
  class GroupBuffer {
    const wbuf: array<word>
    var wptr: nat
    var wacc: bool

    ghost predicate Valid()
      reads this
    {
      wbuf.Length == CAPACITY && wptr <= CAPACITY
    }

    ghost function Value(): Group
      requires Valid()
      reads this, wbuf
    {
      Group(wbuf[..wptr], wacc)
    }

    constructor ()
      ensures Valid() && Value() == EMPTY && fresh(wbuf)
    {
      wbuf := new word[CAPACITY];
      wptr, wacc := 0, false;
    }

    method Push(w: word)
      requires Valid() && wptr < CAPACITY
      modifies this`wptr, wbuf
      ensures Valid() && wptr == old(wptr) + 1 && wbuf[..wptr] == old(wbuf[..wptr]) + [w]
    {
      wbuf[wptr] := w;
      wptr := wptr + 1;
    }

    /** The body of the loop of UnpackStream for one word that is no group marker. */
    method Accept(w: word) returns (frames: seq<Words>)
      requires Valid() && StepFits(Value(), w)
      modifies this, wbuf
      ensures Valid() && (Value(), frames) == GroupStep(old(Value()), w)
    {
      frames := [];
      if IsHeader(w) {
        if wptr > 1 {
          frames := [wbuf[..wptr]];
          wptr := 0;
          assert wbuf[..wptr] == [];
        }
        wacc := true;
        Push(w);
      } else if IsTrailer(w) {
        Push(w);
        frames := [wbuf[..wptr]];
        wptr := 0;
        wacc := false;
        assert wbuf[..wptr] == [];
      } else if wacc {
        Push(w);
      }
      assert Value() == GroupStep(old(Value()), w).0;
      assert frames == GroupStep(old(Value()), w).1;
    }
  }

  /** The stream state of one unit, and the frames handed to UnpackEvent so far. */
  class UnitStream {
    var wgrp: nat
    const groups: seq<GroupBuffer>
    var frames: seq<Frame>

    ghost predicate Separate() {
      && |groups| == MAX_GROUPS
      && forall i, j :: 0 <= i < j < |groups| ==> groups[i] != groups[j] && groups[i].wbuf != groups[j].wbuf
    }

    ghost function Buffers(): set<object> {
      set g | g in groups :: g.wbuf
    }

    ghost predicate Valid()
      reads this, groups
    {
      Separate() && wgrp < MAX_GROUPS && forall i :: 0 <= i < |groups| ==> groups[i].Valid()
    }

    ghost function Value(): (u: Unit)
      requires Valid()
      reads this, groups, Buffers()
      ensures u.Valid()
    {
      var values := seq(MAX_GROUPS,
                        i requires 0 <= i < MAX_GROUPS && Valid() reads this, groups, Buffers() => groups[i].Value());
      Unit(wgrp, values, frames)
    }

    constructor ()
      ensures Valid() && Value() == Unit(0, seq(MAX_GROUPS, _ => EMPTY), [])
    {
      var gs: seq<GroupBuffer> := [];
      while |gs| < MAX_GROUPS
        invariant |gs| <= MAX_GROUPS
        invariant forall i :: 0 <= i < |gs| ==>
          fresh(gs[i]) && fresh(gs[i].wbuf) && gs[i].Valid() && gs[i].Value() == EMPTY
        invariant forall i, j :: 0 <= i < j < |gs| ==> gs[i] != gs[j] && gs[i].wbuf != gs[j].wbuf
      {
        var g := new GroupBuffer();
        gs := gs + [g];
      }
      groups := gs;
      wgrp, frames := 0, [];
    }

    /** UnpackStream for one unit: the words go to the marked groups, completed frames to UnpackEvent. */
    method UnpackStream(data: Words)
      requires Valid() && ValidMarkers(data) && UnitFits(Value(), data)
      modifies this, groups, Buffers()
      ensures Valid() && Value() == UnitRun(old(Value()), data)
    {
      assert data[0..] == data;
      for i := 0 to |data|
        invariant Valid() && UnitFits(Value(), data[i..])
        invariant UnitRun(Value(), data[i..]) == UnitRun(old(Value()), data)
      {
        assert data[i..][0] == data[i] && data[i..][1..] == data[i + 1..];
        ProcessWord(data[i]);
      }
    }

    method ProcessWord(w: word)
      requires Valid() && (IsMarker(w) ==> MarkedGroup(w) < MAX_GROUPS)
      requires !IsMarker(w) ==> StepFits(Value().groups[wgrp], w)
      modifies this, groups, Buffers()
      ensures Valid() && Value() == UnitStep(old(Value()), w)
    {
      if IsMarker(w) {
        wgrp := MarkedGroup(w);
      } else {
        var fs := groups[wgrp].Accept(w);
        frames := frames + Tagged(wgrp, fs);
        assert forall i :: 0 <= i < MAX_GROUPS && i != wgrp ==> groups[i].Value() == old(groups[i].Value());
      }
    }
  }
}
