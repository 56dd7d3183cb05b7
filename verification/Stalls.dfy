/** Streams that stop delivering (streams.go:102-117): when the first recorded gap is a leftover at the read
    offset, every byte after it may arrive and none is submitted. */
module Stalls {
  import opened ByteIntervals
  import opened Leftovers
  import opened Reassembly
  import opened SegmentedStreams

  /** The first recorded gap is a leftover that stands at the read offset, below the high-water mark. */
  predicate Stuck(s: ReadState) {
    s.gaps != [] && Leftover(s.gaps[0]) && s.gaps[0].start == s.readOffset < s.maxReceived
  }

  /** t is still stuck where s was, and has submitted nothing more. */
  predicate StuckAs(s: ReadState, t: ReadState) {
    Stuck(t) && t.readOffset == s.readOffset && t.submitted == s.submitted
  }

  lemma StuckFill(s: ReadState, f: StreamFrame)
    requires WellFormed(s) && Stuck(s) && FillsGaps(s, f)
    ensures var t := AddToRead(s, f);
      if f.End() == s.gaps[0].end then t.readOffset > s.readOffset
      else StuckAs(s, t) && t.maxReceived == s.maxReceived &&
           t.gaps[0].end == if Shrunk(s.gaps[0], f.Interval()) then f.offset else s.gaps[0].end
  {
    hide Fill;
    FrontLeftover(s.gaps, f.Interval());
    FillBounded(s.gaps, f.Interval(), s.maxReceived);
  }

  lemma {:induction false} AddKeepsFront(l: seq<ByteInterval>, b: ByteInterval)
    requires Settled(l) && l != [] && Leftover(l[0]) && b.start < b.end && l[0].start < b.start
    requires forall i :: 0 <= i < |l| ==> l[i].start <= b.start && l[i].end <= b.start
    ensures Add(l, b) != [] && Add(l, b)[0] == l[0]
  {
    var k := InsertAt(l, b);
    assert k == |l| && l[..k] == l && l[k..] == [];
    var m := Inserted(l, b);
    assert m == l + [b];
    forall i | 0 < i < |m| ensures l[0].start < m[i].start && l[0].end <= m[i].end {
      assert i < |l| ==> m[i] == l[i];
    }
    assert m[0] == l[0] && forall i :: 0 <= i < |m[1..]| ==> m[1..][i] == m[i + 1];
    HeadStays(m[0], m[1..]);
  }

  lemma StuckExtend(s: ReadState, f: StreamFrame)
    requires WellFormed(s) && Stuck(s) && f.End() > s.maxReceived
    ensures var t := AddToRead(s, f);
      StuckAs(s, t) && t.maxReceived == f.End() && t.gaps[0].end == s.gaps[0].end
  {
    hide Add;
    if s.maxReceived < f.offset {
      AddKeepsFront(s.gaps, ByteInterval(s.maxReceived, f.offset));
    }
  }

  /** One frame, an empty one included: a stuck stream goes on exactly when the frame ends where the leftover
      ends, which is at or below the read offset; whatever else arrives, it submits nothing and stays stuck. */
  lemma StuckStepIff(s: ReadState, f: StreamFrame)
    requires WellFormed(s) && Stuck(s)
    ensures var t := AddToRead(s, f);
      && (t.readOffset > s.readOffset <==> f.End() == s.gaps[0].end)
      && (f.End() != s.gaps[0].end ==> StuckAs(s, t) && TraceOf(t) == TraceOf(s).Next(s.readOffset, f))
      && s.gaps[0].end <= s.readOffset
  {
    if f.End() > s.maxReceived {
      StuckExtend(s, f);
    } else {
      StuckFill(s, f);
    }
  }

  /** Where the leftover in front ends, and the high-water mark, as frames arrive: a frame below the mark that
      starts no later than the leftover and ends behind its end moves that end to its own offset. */
  datatype Trace = Trace(end: nat, max: nat) {
    function Next(start: nat, f: StreamFrame): Trace {
      if f.End() > max then Trace(end, f.End())
      else if f.offset <= start && end < f.End() then Trace(f.offset, max)
      else this
    }

    function After(start: nat, more: seq<StreamFrame>): Trace {
      if more == [] then this else After(start, more[..|more| - 1]).Next(start, more[|more| - 1])
    }

    /** No frame ends where the leftover ends when it arrives. */
    ghost predicate Holds(start: nat, more: seq<StreamFrame>)
      decreases |more|
    {
      more == [] ||
      (Holds(start, more[..|more| - 1]) && more[|more| - 1].End() != After(start, more[..|more| - 1]).end)
    }
  }

  ghost function TraceOf(s: ReadState): Trace
    requires Stuck(s)
  {
    Trace(s.gaps[0].end, s.maxReceived)
  }

  lemma RunMore(frames: seq<StreamFrame>, more: seq<StreamFrame>)
    requires more != []
    ensures var n := |more| - 1; Run(frames + more) == AddToRead(Run(frames + more[..n]), more[n])
  {
    hide AddToRead, Run;
    var n := |more| - 1;
    var before := frames + more[..n];
    assert before + [more[n]] == frames + more;
    RunStep(before, more[n]);
  }

  /** Every continuation of a stuck run: nothing more is submitted if and only if no frame of it ends where the
      leftover ends when it arrives, which is worked out from the frames alone. */
  lemma {:induction false} StuckIff(frames: seq<StreamFrame>, more: seq<StreamFrame>)
    requires Stuck(Run(frames))
    ensures var s, t := Run(frames), Run(frames + more);
      && s.readOffset <= t.readOffset
      && (t.readOffset == s.readOffset <==> TraceOf(s).Holds(s.readOffset, more))
      && (TraceOf(s).Holds(s.readOffset, more) ==> StuckAs(s, t) && TraceOf(t) == TraceOf(s).After(s.readOffset, more))
    decreases |more|
  {
    hide AddToRead, Run;
    if more == [] {
      assert frames + more == frames;
    } else {
      var n := |more| - 1;
      StuckIff(frames, more[..n]);
      RunMore(frames, more);
      var s, r := Run(frames), Run(frames + more[..n]);
      AddToReadKeepsWellFormed(r, more[n]);
      if TraceOf(s).Holds(s.readOffset, more[..n]) {
        StuckStepIff(r, more[n]);
      }
    }
  }

  /** Every frame reaches past the read offset: it brings, or brings again, a byte not yet submitted, or
      announces the end of the stream behind it. */
  ghost predicate AllReachPast(frames: seq<StreamFrame>, offset: nat) {
    forall i :: 0 <= i < |frames| ==> frames[i].End() > offset
  }

  lemma {:induction false} PastHolds(t: Trace, start: nat, more: seq<StreamFrame>)
    requires t.end <= start && AllReachPast(more, start)
    ensures t.Holds(start, more) && t.After(start, more).end <= start
    decreases |more|
  {
    if more != [] {
      PastHolds(t, start, more[..|more| - 1]);
    }
  }

  /** A stuck stream submits nothing more, whatever frames follow, as long as each reaches past the read
      offset: no new byte and no retransmission of a byte not yet submitted helps. */
  lemma StuckForGood(frames: seq<StreamFrame>, more: seq<StreamFrame>)
    requires Stuck(Run(frames)) && AllReachPast(more, Run(frames).readOffset)
    ensures StuckAs(Run(frames), Run(frames + more))
  {
    hide Run;
    var s := Run(frames);
    PastHolds(TraceOf(s), s.readOffset, more);
    StuckIff(frames, more);
  }

  // ----- How a stream gets stuck

  /** From an exact list whose first gap is at the read offset, a fill makes the stream stuck if and only if it
      covers that gap and runs past it, or cuts it right behind its first byte. */
  lemma GetsStuckIff(s: ReadState, f: StreamFrame)
    requires WellFormed(s) && Canonical(s.gaps) && s.gaps != [] && s.gaps[0].start == s.readOffset < s.maxReceived
    requires FillsGaps(s, f)
    ensures var g, o := s.gaps[0], f.Interval();
      Stuck(AddToRead(s, f)) <==> Shrunk(g, o) || (o.start == g.start + 1 && o.end < g.end)
  {
    hide Fill;
    FirstGapAfterFill(s.gaps, f.Interval());
    FillBounded(s.gaps, f.Interval(), s.maxReceived);
  }

  /** The fill cuts the interval in two. */
  lemma SplitFill(l: seq<ByteInterval>, o: ByteInterval)
    requires l != [] && l[0].start < o.start <= o.end < l[0].end
    ensures Fill(l, o) != [] && Fill(l, o)[0] == ByteInterval(l[0].start, o.start - 1)
  {
    var p, n := ByteInterval(l[0].start, o.start - 1), ByteInterval(o.end + 1, l[0].end);
    assert Piece(l[0], o) == [p, n];
    var m := Pieces(l, o);
    assert m[0] == p && m[1] == n && !p.Overlap(n);
  }

  lemma CutBack(l: seq<ByteInterval>, o: ByteInterval)
    requires Canonical(l) && l != [] && o.start <= o.end && Absorbs(l[0], o)
    ensures Fill(l, o) != [] && Fill(l, o)[0] == ByteInterval(l[0].start, o.start)
  {
    hide MergeFrom, Pieces, Fill;
    var g, rest := l[0], l[1..];
    assert forall i :: 0 <= i < |rest| ==> rest[i] == l[i + 1];
    var p := ByteInterval(g.start, o.start);
    ShrunkPiece(g, o);
    FillHead(l, o, p);
    SwallowsShrunk(p, rest, o);
  }

  lemma RemovedGap(l: seq<ByteInterval>, o: ByteInterval)
    requires Canonical(l) && l != [] && o.start <= o.end && o.end == l[0].end
    ensures AllProper(Fill(l, o))
  {
    hide Fill;
    var rest := l[1..];
    assert Piece(l[0], o) == [] && Fill(l, o) == Fill(rest, o) by {
      DroppedFirst(l, o);
    }
    assert forall i :: 0 <= i < |rest| ==> rest[i] == l[i + 1];
    FillBehind(rest, o);
  }

  lemma DroppedFirst(l: seq<ByteInterval>, o: ByteInterval)
    requires l != [] && l[0].start < l[0].end && o.start <= o.end && o.end == l[0].end
    ensures Piece(l[0], o) == [] && Fill(l, o) == Fill(l[1..], o)
  {
    assert [] + Pieces(l[1..], o) == Pieces(l[1..], o);
  }

  /** What is first in a canonical list after a fill. */
  lemma FirstGapAfterFill(l: seq<ByteInterval>, o: ByteInterval)
    requires Canonical(l) && l != [] && o.start <= o.end
    ensures var g, r := l[0], Fill(l, o);
      if Shrunk(g, o) then r != [] && r[0] == ByteInterval(g.start, o.start)
      else if o.start == g.start + 1 && o.end < g.end then r != [] && r[0] == ByteInterval(g.start, g.start)
      else r == [] || r[0].start < r[0].end
  {
    hide Fill;
    var g := l[0];
    if Shrunk(g, o) {
      CoveredFront(l, o);
    } else if o.end == g.end {
      RemovedGap(l, o);
    } else if o.start <= g.start {
      AllBehind(l, o);
      FillBehind(l, o);
    } else if g.end < o.start {
      BeforeFill(l, o);
    } else if g.end < o.end {
      CutBack(l, o);
    } else {
      SplitFill(l, o);
    }
  }

  // ----- The two frames of a four-byte stream

  lemma {:induction false} EndStaysZero(t: Trace, more: seq<StreamFrame>)
    requires t.end == 0
    ensures t.After(0, more).end == 0
    ensures t.Holds(0, more) <==> forall i :: 0 <= i < |more| ==> more[i].End() != 0
    decreases |more|
  {
    if more != [] {
      var n := |more| - 1;
      EndStaysZero(t, more[..n]);
      assert forall i :: 0 <= i < n ==> more[..n][i] == more[i];
    }
  }

  /** A fill that runs past a gap it covers leaves an empty interval behind: every byte below 4 has arrived and
      none is submitted.  In every continuation nothing is submitted if and only if no frame is an empty one at
      offset 0; no frame with data ever helps. */
  lemma CoveringFillStallsIff(f0: StreamFrame, f1: StreamFrame, more: seq<StreamFrame>)
    requires f0 == StreamFrame(2, [3, 4], false) && f1 == StreamFrame(0, [1, 2, 3], false)
    ensures forall x :: 0 <= x < 4 ==> Received([f0, f1], x)
    ensures var t := Run([f0, f1] + more);
      && (t.readOffset == 0 <==> forall i :: 0 <= i < |more| ==> more[i].End() != 0)
      && (t.readOffset == 0 ==> t.submitted == [])
  {
    hide Run, Stuck, Received;
    TwoFrames(f0, f1);
    EndStaysZero(TraceOf(Run([f0, f1])), more);
    StuckIff([f0, f1], more);
  }

  /** An empty frame at offset 0 removes the leftover and releases the whole stream. */
  lemma EmptyFrameReleases(f0: StreamFrame, f1: StreamFrame, f2: StreamFrame)
    requires f0 == StreamFrame(2, [3, 4], false) && f1 == StreamFrame(0, [1, 2, 3], false)
    requires f2 == StreamFrame(0, [], false)
    ensures Run([f0, f1, f2]).readOffset == 4 && Run([f0, f1, f2]).submitted == [[1, 2, 3, 4]]
  {
    hide AddToRead, Run;
    RunOfTwo(f0, f1);
    GapCovered(f0, f1);
    RunStep([f0, f1], f2);
    assert [f0, f1] + [f2] == [f0, f1, f2];
    Released(Run([f0, f1]), f2);
  }

  lemma Released(s: ReadState, f: StreamFrame)
    requires WellFormed(s) && f == StreamFrame(0, [], false)
    requires s.readOffset == 0 && s.submitted == [] && s.readData == [1, 2, 3, 4] && s.gaps == [ByteInterval(0, 0)]
    ensures AddToRead(s, f).readOffset == 4 && AddToRead(s, f).submitted == [[1, 2, 3, 4]]
  {
    assert Pieces(s.gaps, ByteInterval(0, 0)) == [];
    assert Copied(s.readData, 0, []) == s.readData;
    assert s.readData[0..4] == s.readData;
  }

  lemma TwoFrames(f0: StreamFrame, f1: StreamFrame)
    requires f0 == StreamFrame(2, [3, 4], false) && f1 == StreamFrame(0, [1, 2, 3], false)
    ensures forall x :: 0 <= x < 4 ==> Received([f0, f1], x)
    ensures var s := Run([f0, f1]); Stuck(s) && s.readOffset == 0 && s.submitted == [] && TraceOf(s).end == 0
  {
    hide AddToRead, Run;
    RunOfTwo(f0, f1);
    GapCovered(f0, f1);
    var frames := [f0, f1];
    forall x | 0 <= x < 4 ensures Received(frames, x) {
      assert frames[0].Interval().Has(x) || frames[1].Interval().Has(x);
    }
  }

  lemma GapCovered(f0: StreamFrame, f1: StreamFrame)
    requires f0 == StreamFrame(2, [3, 4], false) && f1 == StreamFrame(0, [1, 2, 3], false)
    requires WellFormed(AddToRead(INITIAL, f0))
    ensures var t := AddToRead(AddToRead(INITIAL, f0), f1);
      Stuck(t) && t.readOffset == 0 && t.submitted == [] && t.readData == [1, 2, 3, 4] && t.gaps == [ByteInterval(0, 0)]
  {
    var s := AddToRead(INITIAL, f0);
    assert s.gaps == [ByteInterval(0, 2)];
    assert s.readData == [0, 0, 3, 4];
    assert Pieces(s.gaps, ByteInterval(0, 3)) == [ByteInterval(0, 0)];
    assert Copied(s.readData, 0, [1, 2, 3]) == [1, 2, 3, 4];
  }
}
