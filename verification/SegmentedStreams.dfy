/** Streams cut into consecutive segments, as NewStreamFrame cuts them (frames.go), and the exact
    state addToRead reaches whatever the order in which the segments arrive. */
module SegmentedStreams {
  import opened Bytes
  import opened Wrappers
  import Frames
  import VarInts
  import opened ByteIntervals
  import opened Reassembly

  // ----- The segments of a stream

  ghost predicate NonEmptyParts(parts: seq<seq<byte>>) {
    forall i :: 0 <= i < |parts| ==> parts[i] != []
  }

  /** The offset at which the i-th segment starts. */
  function Cut(parts: seq<seq<byte>>, i: nat): nat
    requires i <= |parts|
  {
    |Concat(parts[..i])|
  }

  /** The i-th segment; the last one carries FIN. */
  function Segment(parts: seq<seq<byte>>, i: nat): StreamFrame
    requires i < |parts|
  {
    StreamFrame(Cut(parts, i), parts[i], i == |parts| - 1)
  }

  ghost predicate ValidOrder(parts: seq<seq<byte>>, order: seq<nat>) {
    forall j :: 0 <= j < |order| ==> order[j] < |parts|
  }

  /** The segments in order of arrival, repetitions included. */
  function Arrivals(parts: seq<seq<byte>>, order: seq<nat>): (f: seq<StreamFrame>)
    requires forall j :: 0 <= j < |order| ==> order[j] < |parts|
    ensures |f| == |order|
  {
    seq(|order|, j requires 0 <= j < |order| => Segment(parts, order[j]))
  }

  lemma PrefixSnoc(parts: seq<seq<byte>>, i: nat)
    requires i < |parts|
    ensures Concat(parts[..i + 1]) == Concat(parts[..i]) + parts[i]
  {
    assert parts[..i + 1] == parts[..i] + [parts[i]];
    ConcatSnoc(parts[..i], parts[i]);
  }

  lemma CutNext(parts: seq<seq<byte>>, i: nat)
    requires i < |parts|
    ensures Cut(parts, i + 1) == Cut(parts, i) + |parts[i]|
    ensures Segment(parts, i).End() == Cut(parts, i + 1)
  {
    PrefixSnoc(parts, i);
  }

  lemma {:induction false} CutMonotone(parts: seq<seq<byte>>, i: nat, j: nat)
    requires i <= j <= |parts| && NonEmptyParts(parts)
    ensures Cut(parts, i) <= Cut(parts, j)
    ensures i < j ==> Cut(parts, i) < Cut(parts, j)
    decreases j - i
  {
    if i < j {
      CutMonotone(parts, i, j - 1);
      CutNext(parts, j - 1);
    }
  }

  lemma CutEnds(parts: seq<seq<byte>>)
    ensures Cut(parts, 0) == 0 && Cut(parts, |parts|) == |Concat(parts)|
  {
    assert parts[..0] == [] && parts[..|parts|] == parts;
  }

  lemma SegmentIsCut(parts: seq<seq<byte>>, i: nat)
    requires i < |parts|
    ensures CutFrom(Segment(parts, i), Concat(parts))
  {
    ConcatAround(parts, i);
    Slice(Concat(parts), Concat(parts[..i]), parts[i], Concat(parts[i + 1..]));
  }

  lemma ConcatAround(parts: seq<seq<byte>>, i: nat)
    requires i < |parts|
    ensures Concat(parts) == (Concat(parts[..i]) + parts[i]) + Concat(parts[i + 1..])
  {
    assert parts == parts[..i] + parts[i..];
    ConcatAppend(parts[..i], parts[i..]);
    assert parts[i..][1..] == parts[i + 1..];
    Associate(Concat(parts[..i]), parts[i], Concat(parts[i + 1..]));
  }

  lemma Slice(s: seq<byte>, a: seq<byte>, b: seq<byte>, c: seq<byte>)
    requires s == (a + b) + c
    ensures |a| + |b| <= |s| && s[|a|..|a| + |b|] == b
  {
  }

  /** Byte x of the k-th segment has arrived exactly when the k-th segment has. */
  lemma ArrivedIff(parts: seq<seq<byte>>, order: seq<nat>, k: nat, x: int)
    requires NonEmptyParts(parts) && ValidOrder(parts, order) && k < |parts|
    requires Segment(parts, k).Interval().Has(x)
    ensures Received(Arrivals(parts, order), x) <==> k in order
  {
    var frames := Arrivals(parts, order);
    CutNext(parts, k);
    if j :| 0 <= j < |frames| && frames[j].Interval().Has(x) {
      var i := order[j];
      CutNext(parts, i);
      if i < k {
        CutMonotone(parts, i + 1, k);
      } else if k < i {
        CutMonotone(parts, k + 1, i);
      }
    }
    if k in order {
      var j :| 0 <= j < |order| && order[j] == k;
      assert frames[j].Interval().Has(x);
    }
  }

  /** Every byte of the stream lies in some segment. */
  lemma {:induction false} SegmentOf(parts: seq<seq<byte>>, n: nat, x: nat) returns (k: nat)
    requires n <= |parts| && x < Cut(parts, n)
    ensures k < n && Segment(parts, k).Interval().Has(x)
    decreases n
  {
    CutEnds(parts);
    CutNext(parts, n - 1);
    if x >= Cut(parts, n - 1) {
      k := n - 1;
    } else {
      k := SegmentOf(parts, n - 1, x);
    }
  }

  // ----- The exact state

  /** One past the last segment seen. */
  function Top(order: seq<nat>): (t: nat)
    ensures forall j :: 0 <= j < |order| ==> order[j] < t
    ensures t > 0 ==> (t - 1) in order
  {
    if order == [] then 0
    else
      var t := Top(order[..|order| - 1]);
      var k := order[|order| - 1];
      if k < t then
        assert (t - 1) in order[..|order| - 1];
        t
      else k + 1
  }

  /** The high-water mark, the gaps and the read offset are exactly what has arrived and what has not. */
  ghost predicate Exact(s: ReadState, parts: seq<seq<byte>>, order: seq<nat>)
    requires ValidOrder(parts, order)
  {
    var frames := Arrivals(parts, order);
    && Top(order) <= |parts|
    && s.maxReceived == Cut(parts, Top(order))
    && Canonical(s.gaps)
    && (forall x :: Covers(s.gaps, x) <==> 0 <= x < s.maxReceived && !Received(frames, x))
    && (forall x :: 0 <= x < s.readOffset ==> Received(frames, x))
    && !Received(frames, s.readOffset)
  }

  /** No recorded gap is cut by the frame other than at its front. */
  ghost predicate Fits(gaps: seq<ByteInterval>, o: ByteInterval) {
    forall i :: 0 <= i < |gaps| ==>
      o.end <= gaps[i].start || gaps[i].end <= o.start || (gaps[i].start == o.start && o.end <= gaps[i].end)
  }

  lemma {:induction false} FittingPieces(gaps: seq<ByteInterval>, o: ByteInterval)
    requires AllProper(gaps) && o.start < o.end && Fits(gaps, o)
    ensures AllProper(Pieces(gaps, o))
  {
    if gaps != [] {
      FittingPieces(gaps[1..], o);
      assert AllProper(Piece(gaps[0], o));
    }
  }

  /** A fitting fill is exact and leaves a canonical list. */
  lemma FittingFill(gaps: seq<ByteInterval>, o: ByteInterval)
    requires Canonical(gaps) && o.start < o.end && Fits(gaps, o)
    ensures Canonical(Fill(gaps, o))
    ensures FillExact(gaps, o)
  {
    FittingPieces(gaps, o);
    PiecesSorted(gaps, o);
    MergePassIsCanonicalForm(Pieces(gaps, o), []);
    FillExactIff(gaps, o);
  }

  /** A gap that shares a byte with a fully missing run of bytes contains the run. */
  lemma RunInsideGap(gaps: seq<ByteInterval>, i: nat, o: ByteInterval, x: int)
    requires Canonical(gaps) && i < |gaps| && gaps[i].Has(x) && o.Has(x)
    requires forall y :: o.Has(y) ==> Covers(gaps, y)
    ensures gaps[i].start <= o.start && o.end <= gaps[i].end
  {
    assert !Covers(gaps, gaps[i].end);
    assert !Covers(gaps, gaps[i].start - 1);
    assert !o.Has(gaps[i].end) && !o.Has(gaps[i].start - 1);
  }

  /** In an exact state, a segment that Fill does not mishandle fits. */
  lemma SegmentFits(s: ReadState, parts: seq<seq<byte>>, order: seq<nat>, k: nat)
    requires NonEmptyParts(parts) && ValidOrder(parts, order) && k < |parts|
    requires Exact(s, parts, order) && Segment(parts, k).End() <= s.maxReceived
    requires forall i :: 0 <= i < |s.gaps| ==> !Mishandled(s.gaps[i], Segment(parts, k).Interval())
    ensures Fits(s.gaps, Segment(parts, k).Interval())
  {
    var o := Segment(parts, k).Interval();
    forall i | 0 <= i < |s.gaps|
      ensures o.end <= s.gaps[i].start || s.gaps[i].end <= o.start ||
              (s.gaps[i].start == o.start && o.end <= s.gaps[i].end)
    {
      var g := s.gaps[i];
      if o.start < g.end && g.start < o.end {
        var x := if o.start < g.start then g.start else o.start;
        assert g.Has(x) && o.Has(x);
        assert Covers(s.gaps, x);
        forall y | o.Has(y) ensures Covers(s.gaps, y) {
          ArrivedIff(parts, order, k, x);
          ArrivedIff(parts, order, k, y);
        }
        RunInsideGap(s.gaps, i, o, x);
      }
    }
  }

  lemma ArrivalsStep(parts: seq<seq<byte>>, order: seq<nat>, k: nat)
    requires ValidOrder(parts, order) && k < |parts|
    ensures ValidOrder(parts, order + [k])
    ensures Arrivals(parts, order + [k]) == Arrivals(parts, order) + [Segment(parts, k)]
    ensures Top(order + [k]) == if k < Top(order) then Top(order) else k + 1
  {
    assert (order + [k])[..|order|] == order;
  }

  /** Nothing at or past the high-water mark has arrived. */
  lemma NothingPastTop(parts: seq<seq<byte>>, order: seq<nat>, x: int)
    requires NonEmptyParts(parts) && ValidOrder(parts, order) && Top(order) <= |parts|
    requires x >= Cut(parts, Top(order))
    ensures !Received(Arrivals(parts, order), x)
  {
    var frames := Arrivals(parts, order);
    forall j | 0 <= j < |frames| ensures !frames[j].Interval().Has(x) {
      CutNext(parts, order[j]);
      CutMonotone(parts, order[j] + 1, Top(order));
    }
  }

  // ----- One step from an exact state

  lemma AppendExact(s: ReadState, parts: seq<seq<byte>>, order: seq<nat>, k: nat)
    requires NonEmptyParts(parts) && ValidOrder(parts, order) && k < |parts|
    requires WellFormed(s) && Exact(s, parts, order)
    requires var f := Segment(parts, k); f.offset == s.readOffset && f.offset == s.maxReceived
    ensures ValidOrder(parts, order + [k]) && Exact(Absorb(s, Segment(parts, k)), parts, order + [k])
  {
    var f := Segment(parts, k);
    var t := Absorb(s, f);
    var frames := Arrivals(parts, order);
    ArrivalsStep(parts, order, k);
    CutNext(parts, k);
    SameCut(parts, Top(order), k);
    assert s.gaps == [] by {
      if s.gaps != [] {
        assert s.gaps[0].Has(s.gaps[0].start);
        assert Covers(s.gaps, s.gaps[0].start);
      }
    }
    forall x ensures Received(frames + [f], x) <==> Received(frames, x) || f.Interval().Has(x) {
      ReceivedStep(frames, f, x);
    }
    NothingPastTop(parts, order, t.readOffset);
  }

  lemma SameCut(parts: seq<seq<byte>>, i: nat, j: nat)
    requires NonEmptyParts(parts) && i <= |parts| && j <= |parts| && Cut(parts, i) == Cut(parts, j)
    ensures i == j
  {
    if i < j {
      CutMonotone(parts, i, j);
    } else {
      CutMonotone(parts, j, i);
    }
  }

  lemma ExtendExact(s: ReadState, parts: seq<seq<byte>>, order: seq<nat>, k: nat)
    requires NonEmptyParts(parts) && ValidOrder(parts, order) && k < |parts|
    requires WellFormed(s) && Exact(s, parts, order)
    requires var f := Segment(parts, k);
             !(f.offset == s.readOffset && f.offset == s.maxReceived) && f.End() > s.maxReceived
    ensures ValidOrder(parts, order + [k]) && Exact(Absorb(s, Segment(parts, k)), parts, order + [k])
  {
    var f := Segment(parts, k);
    var t := Absorb(s, f);
    var frames := Arrivals(parts, order);
    ArrivalsStep(parts, order, k);
    CutNext(parts, k);
    assert k >= Top(order) by {
      if k < Top(order) {
        CutMonotone(parts, k + 1, Top(order));
      }
    }
    CutMonotone(parts, Top(order), k);
    if s.maxReceived < f.offset {
      var b := ByteInterval(s.maxReceived, f.offset);
      AddAtEnd(s.gaps, b);
      AddIsUnion(s.gaps, b);
    }
    forall x ensures Received(frames + [f], x) <==> Received(frames, x) || f.Interval().Has(x) {
      ReceivedStep(frames, f, x);
    }
    forall x | x >= s.maxReceived ensures !Received(frames, x) {
      NothingPastTop(parts, order, x);
    }
  }

  lemma FillExactStep(s: ReadState, parts: seq<seq<byte>>, order: seq<nat>, k: nat)
    requires NonEmptyParts(parts) && ValidOrder(parts, order) && k < |parts|
    requires WellFormed(s) && Exact(s, parts, order)
    requires FillsGaps(s, Segment(parts, k)) && GapSafe(s, Segment(parts, k))
    ensures ValidOrder(parts, order + [k]) && Exact(Absorb(s, Segment(parts, k)), parts, order + [k])
  {
    hide Fill, Cut, Concat, Received, Covers, Top;
    var f := Segment(parts, k);
    var frames := Arrivals(parts, order);
    ArrivalsStep(parts, order, k);
    CutNext(parts, k);
    assert k < Top(order) by {
      if k >= Top(order) {
        CutMonotone(parts, Top(order), k + 1);
      }
    }
    SegmentFits(s, parts, order, k);
    FittingFill(s.gaps, f.Interval());
    var gaps := Fill(s.gaps, f.Interval());
    FillBounded(s.gaps, f.Interval(), s.maxReceived);
    forall x ensures Received(frames + [f], x) <==> Received(frames, x) || f.Interval().Has(x) {
      ReceivedStep(frames, f, x);
    }
    forall x | x >= s.maxReceived ensures !Received(frames + [f], x) {
      NothingPastTop(parts, order, x);
    }
    DeliveredUpTo(gaps, s.maxReceived, frames + [f], s.readOffset);
  }

  /** With an exact gap list, the first recorded gap is the first byte that has not arrived. */
  lemma DeliveredUpTo(gaps: seq<ByteInterval>, max: nat, frames: seq<StreamFrame>, readOffset: nat)
    requires Canonical(gaps) && Bounded(gaps, max)
    requires forall x :: Covers(gaps, x) <==> 0 <= x < max && !Received(frames, x)
    requires forall x :: x >= max ==> !Received(frames, x)
    requires forall x :: 0 <= x < readOffset ==> Received(frames, x)
    ensures var first := FirstGap(gaps, max);
            !Received(frames, first) && readOffset <= first && forall x :: 0 <= x < first ==> Received(frames, x)
  {
    var first := FirstGap(gaps, max);
    if gaps != [] {
      assert gaps[0].Has(first);
      assert Covers(gaps, first);
    }
    forall x | 0 <= x < first ensures Received(frames, x) {
      assert !Covers(gaps, x) by {
        forall i | 0 <= i < |gaps| ensures !gaps[i].Has(x) {
          assert i > 0 ==> gaps[0].start < gaps[i].start;
        }
      }
    }
  }

  lemma ExactStep(s: ReadState, parts: seq<seq<byte>>, order: seq<nat>, k: nat)
    requires NonEmptyParts(parts) && ValidOrder(parts, order) && k < |parts|
    requires WellFormed(s) && Exact(s, parts, order) && GapSafe(s, Segment(parts, k))
    ensures ValidOrder(parts, order + [k]) && Exact(AddToRead(s, Segment(parts, k)), parts, order + [k])
  {
    var f := Segment(parts, k);
    if f.offset == s.readOffset && f.offset == s.maxReceived {
      AppendExact(s, parts, order, k);
    } else if f.End() > s.maxReceived {
      ExtendExact(s, parts, order, k);
    } else {
      FillExactStep(s, parts, order, k);
    }
  }

  // ----- Closing

  /** The FIN offset is known once the last segment has arrived, and the stream is closed once the
      read offset has reached it. */
  ghost predicate ClosedExactly(s: ReadState, parts: seq<seq<byte>>, order: seq<nat>) {
    && parts != []
    && s.closeOffset == (if (|parts| - 1) in order then Some(|Concat(parts)|) else None)
    && (s.closed <==> s.readOffset == |Concat(parts)|)
  }

  lemma ClosedStep(s: ReadState, parts: seq<seq<byte>>, order: seq<nat>, k: nat)
    requires NonEmptyParts(parts) && ValidOrder(parts, order) && k < |parts|
    requires WellFormed(s) && Exact(s, parts, order) && GapSafe(s, Segment(parts, k)) && ClosedExactly(s, parts, order)
    ensures ClosedExactly(AddToRead(s, Segment(parts, k)), parts, order + [k])
  {
    var f := Segment(parts, k);
    var t := AddToRead(s, f);
    var last := |parts| - 1;
    CutEnds(parts);
    CutNext(parts, k);
    AddToReadKeepsWellFormed(s, f);
    ExactStep(s, parts, order, k);
    assert t.readOffset <= |Concat(parts)| by {
      CutMonotone(parts, Top(order + [k]), |parts|);
    }
    if t.readOffset == |Concat(parts)| {
      AllArrivedIff(t, parts, order + [k]);
      assert last in order + [k];
    }
  }

  /** In an exact state the read offset is the stream's length exactly when every segment has arrived. */
  lemma AllArrivedIff(s: ReadState, parts: seq<seq<byte>>, order: seq<nat>)
    requires NonEmptyParts(parts) && ValidOrder(parts, order) && WellFormed(s) && Exact(s, parts, order)
    ensures s.readOffset == |Concat(parts)| <==> forall i :: 0 <= i < |parts| ==> i in order
  {
    CutEnds(parts);
    CutMonotone(parts, Top(order), |parts|);
    if s.readOffset == |Concat(parts)| {
      forall i | 0 <= i < |parts| ensures i in order {
        CutNext(parts, i);
        CutMonotone(parts, i + 1, |parts|);
        ArrivedIff(parts, order, i, Cut(parts, i));
      }
    } else {
      var k := SegmentOf(parts, |parts|, s.readOffset);
      ArrivedIff(parts, order, k, s.readOffset);
    }
  }

  // ----- Whole runs

  lemma NothingArrived(parts: seq<seq<byte>>)
    requires NonEmptyParts(parts) && parts != []
    ensures Exact(Run(Arrivals(parts, [])), parts, []) && ClosedExactly(Run(Arrivals(parts, [])), parts, [])
  {
    CutEnds(parts);
    CutMonotone(parts, 0, |parts|);
  }

  lemma {:induction false} ExactRun(parts: seq<seq<byte>>, order: seq<nat>)
    requires NonEmptyParts(parts) && parts != [] && ValidOrder(parts, order)
    requires GapSafeRun(Arrivals(parts, order))
    ensures Exact(Run(Arrivals(parts, order)), parts, order)
    ensures ClosedExactly(Run(Arrivals(parts, order)), parts, order)
    decreases |order|
  {
    hide Run, AddToRead, Exact, ClosedExactly, GapSafe, Segment;
    if order == [] {
      NothingArrived(parts);
    } else {
      var n := |order| - 1;
      var init, k := order[..n], order[n];
      assert order == init + [k];
      ArrivalsStep(parts, init, k);
      var frames := Arrivals(parts, init);
      assert Arrivals(parts, order)[..n] == frames;
      RunStep(frames, Segment(parts, k));
      ExactRun(parts, init);
      ExactStep(Run(frames), parts, init, k);
      ClosedStep(Run(frames), parts, init, k);
    }
  }

  /** Reassembly exactness: whatever the order and the repetitions in which the segments of a stream
      arrive, if each one that lands in a gap follows one that has arrived, then the read offset is the first
      byte that has not arrived, everything before it has been submitted, the buffer reaches exactly
      to the last segment seen, and the stream is closed if and only if every segment has arrived. */
  lemma ReassemblyIsExact(parts: seq<seq<byte>>, order: seq<nat>)
    requires NonEmptyParts(parts) && parts != [] && ValidOrder(parts, order)
    requires InPlaceThroughout(order)
    ensures var s := Run(Arrivals(parts, order));
            && !Received(Arrivals(parts, order), s.readOffset)
            && (forall x :: 0 <= x < s.readOffset ==> Received(Arrivals(parts, order), x))
            && s.readOffset <= |Concat(parts)| && Concat(s.submitted) == Concat(parts)[..s.readOffset]
            && Top(order) <= |parts| && |s.readData| == s.maxReceived == Cut(parts, Top(order))
            && (s.closed <==> forall i :: 0 <= i < |parts| ==> i in order)
  {
    var frames := Arrivals(parts, order);
    ExactThroughoutIffInPlace(parts, order);
    ExactRun(parts, order);
    AllArrivedIff(Run(frames), parts, order);
    forall i | 0 <= i < |frames| ensures CutFrom(frames[i], Concat(parts)) {
      SegmentIsCut(parts, order[i]);
    }
    SafeRunIsCareful(frames);
    ReassemblyIsSafe(frames, Concat(parts));
  }

  // ----- When the gap list stays exact

  /** The recorded gaps are exactly the bytes below the high-water mark that have not arrived. */
  ghost predicate GapsExact(s: ReadState, frames: seq<StreamFrame>) {
    forall x :: Covers(s.gaps, x) <==> 0 <= x < s.maxReceived && !Received(frames, x)
  }

  lemma UnsafeStepIsInexact(s: ReadState, parts: seq<seq<byte>>, order: seq<nat>, k: nat)
    requires NonEmptyParts(parts) && ValidOrder(parts, order) && k < |parts|
    requires WellFormed(s) && Exact(s, parts, order) && !GapSafe(s, Segment(parts, k))
    ensures !GapsExact(AddToRead(s, Segment(parts, k)), Arrivals(parts, order) + [Segment(parts, k)])
  {
    var f := Segment(parts, k);
    var o := f.Interval();
    var i :| 0 <= i < |s.gaps| && Mishandled(s.gaps[i], o);
    FillLoses(s.gaps, o, i);
    FillBounded(s.gaps, o, s.maxReceived);
    ReceivedStep(Arrivals(parts, order), f, o.start - 1);
    assert !Covers(AddToRead(s, f).gaps, o.start - 1);
  }

  /** The gap list is exact after every step of the run. */
  ghost predicate ExactThroughout(parts: seq<seq<byte>>, order: seq<nat>)
    requires ValidOrder(parts, order)
    decreases |order|
  {
    order == [] ||
    (ExactThroughout(parts, order[..|order| - 1]) && GapsExact(Run(Arrivals(parts, order)), Arrivals(parts, order)))
  }

  /** Over every run of segments, the gap list is exact after every step if and only if every segment
      that Fill handles is, in the gap it lands in, the first one. */
  lemma {:induction false} ExactThroughoutIff(parts: seq<seq<byte>>, order: seq<nat>)
    requires NonEmptyParts(parts) && parts != [] && ValidOrder(parts, order)
    ensures ExactThroughout(parts, order) <==> GapSafeRun(Arrivals(parts, order))
    decreases |order|
  {
    if order != [] {
      var n := |order| - 1;
      var init, k := order[..n], order[n];
      assert order == init + [k];
      ArrivalsStep(parts, init, k);
      var frames, f := Arrivals(parts, init), Segment(parts, k);
      assert Arrivals(parts, order)[..n] == frames;
      RunStep(frames, f);
      ExactThroughoutIff(parts, init);
      if GapSafeRun(frames) {
        ExactRun(parts, init);
        StepExactIff(Run(frames), parts, init, k);
      }
    }
  }

  lemma StepExactIff(s: ReadState, parts: seq<seq<byte>>, order: seq<nat>, k: nat)
    requires NonEmptyParts(parts) && ValidOrder(parts, order) && k < |parts|
    requires WellFormed(s) && Exact(s, parts, order)
    ensures GapsExact(AddToRead(s, Segment(parts, k)), Arrivals(parts, order) + [Segment(parts, k)])
            <==> GapSafe(s, Segment(parts, k))
  {
    ArrivalsStep(parts, order, k);
    if GapSafe(s, Segment(parts, k)) {
      ExactStep(s, parts, order, k);
    } else {
      UnsafeStepIsInexact(s, parts, order, k);
    }
  }

  // ----- The same condition, on the arrivals alone

  /** The k-th segment can arrive after these: it has come before, or lies at or above all of them, or is the
      first of the stream, or follows one that has arrived. */
  predicate InPlace(order: seq<nat>, k: nat) {
    k in order || k >= Top(order) || k == 0 || (k - 1) in order
  }

  ghost predicate InPlaceThroughout(order: seq<nat>)
    decreases |order|
  {
    order == [] || (InPlaceThroughout(order[..|order| - 1]) && InPlace(order[..|order| - 1], order[|order| - 1]))
  }

  lemma FillsBelowTop(s: ReadState, parts: seq<seq<byte>>, order: seq<nat>, k: nat)
    requires NonEmptyParts(parts) && ValidOrder(parts, order) && k < |parts| && Exact(s, parts, order)
    ensures FillsGaps(s, Segment(parts, k)) <==> k < Top(order)
  {
    CutNext(parts, k);
    if k < Top(order) {
      CutMonotone(parts, k + 1, Top(order));
      CutMonotone(parts, k, k + 1);
    } else {
      CutMonotone(parts, Top(order), k + 1);
    }
  }

  /** Bytes of one segment, below the high-water mark, are all recorded as missing or none is. */
  lemma SegmentRecorded(s: ReadState, parts: seq<seq<byte>>, order: seq<nat>, k: nat, x: int)
    requires NonEmptyParts(parts) && ValidOrder(parts, order) && k < Top(order) && k < |parts| && Exact(s, parts, order)
    requires Segment(parts, k).Interval().Has(x)
    ensures Covers(s.gaps, x) <==> k !in order
  {
    ArrivedIff(parts, order, k, x);
    CutNext(parts, k);
    CutMonotone(parts, k + 1, Top(order));
  }

  lemma ArrivedIsSafe(s: ReadState, parts: seq<seq<byte>>, order: seq<nat>, k: nat)
    requires NonEmptyParts(parts) && ValidOrder(parts, order) && k < Top(order) && k < |parts| && Exact(s, parts, order)
    requires k in order
    ensures GapSafe(s, Segment(parts, k))
  {
    var o := Segment(parts, k).Interval();
    CutNext(parts, k);
    CutMonotone(parts, k, k + 1);
    SegmentRecorded(s, parts, order, k, o.start);
    forall i | 0 <= i < |s.gaps| ensures !Mishandled(s.gaps[i], o) {
      assert !s.gaps[i].Has(o.start);
    }
  }

  lemma FrontIsSafe(s: ReadState, parts: seq<seq<byte>>, order: seq<nat>, k: nat)
    requires NonEmptyParts(parts) && ValidOrder(parts, order) && k < Top(order) && k < |parts| && Exact(s, parts, order)
    requires k == 0 || (k - 1) in order
    ensures GapSafe(s, Segment(parts, k))
  {
    var o := Segment(parts, k).Interval();
    CutEnds(parts);
    if k > 0 {
      CutNext(parts, k - 1);
      CutMonotone(parts, k - 1, k);
      SegmentRecorded(s, parts, order, k - 1, o.start - 1);
    }
    CutNext(parts, k);
    CutMonotone(parts, k, k + 1);
    forall i | 0 <= i < |s.gaps| ensures !Mishandled(s.gaps[i], o) {
      assert k > 0 ==> !s.gaps[i].Has(o.start - 1);
    }
  }

  lemma InsideIsUnsafe(s: ReadState, parts: seq<seq<byte>>, order: seq<nat>, k: nat)
    requires NonEmptyParts(parts) && ValidOrder(parts, order) && k < Top(order) && k < |parts| && Exact(s, parts, order)
    requires k !in order && k > 0 && (k - 1) !in order
    ensures !GapSafe(s, Segment(parts, k))
  {
    var o := Segment(parts, k).Interval();
    CutNext(parts, k - 1);
    CutMonotone(parts, k - 1, k);
    CutNext(parts, k);
    CutMonotone(parts, k, k + 1);
    var wider := ByteInterval(o.start - 1, o.end);
    forall y | wider.Has(y) ensures Covers(s.gaps, y) {
      if y < o.start {
        SegmentRecorded(s, parts, order, k - 1, y);
      } else {
        SegmentRecorded(s, parts, order, k, y);
      }
    }
    assert Covers(s.gaps, o.start);
    var i :| 0 <= i < |s.gaps| && s.gaps[i].Has(o.start);
    RunInsideGap(s.gaps, i, wider, o.start);
    FillsBelowTop(s, parts, order, k);
    assert Mishandled(s.gaps[i], o);
  }

  lemma SafeIffInPlace(s: ReadState, parts: seq<seq<byte>>, order: seq<nat>, k: nat)
    requires NonEmptyParts(parts) && ValidOrder(parts, order) && k < |parts| && Exact(s, parts, order)
    ensures GapSafe(s, Segment(parts, k)) <==> InPlace(order, k)
  {
    hide Exact, GapSafe, Segment;
    FillsBelowTop(s, parts, order, k);
    if k >= Top(order) {
      NotFilling(s, Segment(parts, k));
    } else if k in order {
      ArrivedIsSafe(s, parts, order, k);
    } else if k == 0 || (k - 1) in order {
      FrontIsSafe(s, parts, order, k);
    } else {
      InsideIsUnsafe(s, parts, order, k);
    }
  }

  lemma NotFilling(s: ReadState, f: StreamFrame)
    requires !FillsGaps(s, f)
    ensures GapSafe(s, f)
  {
  }

  /** Over every run of segments, the gap list is exact after every step if and only if each segment, when it
      arrives, has come before, lies at or above everything seen, is the first, or follows one that has come. */
  lemma {:induction false} ExactThroughoutIffInPlace(parts: seq<seq<byte>>, order: seq<nat>)
    requires NonEmptyParts(parts) && parts != [] && ValidOrder(parts, order)
    ensures GapSafeRun(Arrivals(parts, order)) <==> InPlaceThroughout(order)
    ensures ExactThroughout(parts, order) <==> InPlaceThroughout(order)
    decreases |order|
  {
    hide Exact, GapSafe, Segment, Run, ExactThroughout, InPlace, ClosedExactly;
    ExactThroughoutIff(parts, order);
    if order != [] {
      var n := |order| - 1;
      var init, k := order[..n], order[n];
      assert order == init + [k];
      ArrivalsStep(parts, init, k);
      var frames := Arrivals(parts, init);
      assert Arrivals(parts, order)[..n] == frames && Arrivals(parts, order)[n] == Segment(parts, k);
      ExactThroughoutIffInPlace(parts, init);
      if GapSafeRun(frames) {
        ExactRun(parts, init);
        SafeIffInPlace(Run(frames), parts, init, k);
      }
    }
  }

  // ----- The sending half

  datatype WriteState = WriteState(writeOffset: nat, writeData: seq<byte>, closed: bool)

  /** NewStreamFrame: the frame that carries data, and the stream's sending half after it. */
  function NewStreamFrame(w: WriteState, streamId: nat, data: seq<byte>, fin: bool): (Frames.Frame, WriteState) {
    (Frames.Stream(fin, true, w.writeOffset > 0, streamId, w.writeOffset, |data|, data),
     WriteState(w.writeOffset + |data|, w.writeData + data, fin))
  }

  /** The STREAM frame for a part of a stream: its length is given, and its offset unless it is 0. */
  function Carrying(streamId: nat, part: StreamFrame): Frames.Frame {
    Frames.Stream(part.fin, true, part.offset > 0, streamId, part.offset, |part.data|, part.data)
  }

  /** The frames of a stream written part by part with FIN on the last, and the final sending half. */
  function Written(streamId: nat, parts: seq<seq<byte>>, n: nat): (seq<Frames.Frame>, WriteState)
    requires n <= |parts|
  {
    if n == 0 then ([], WriteState(0, [], false))
    else
      var (frames, w) := Written(streamId, parts, n - 1);
      var (f, w') := NewStreamFrame(w, streamId, parts[n - 1], n == |parts|);
      (frames + [f], w')
  }

  /** Writing a stream part by part sends exactly its segments, so any arrivals of what was written are
      arrivals of segments; the sending half keeps the whole stream and closes with its last part. */
  lemma {:induction false} WritingCutsSegments(streamId: nat, parts: seq<seq<byte>>, n: nat)
    requires n <= |parts|
    ensures var (frames, w) := Written(streamId, parts, n);
            && |frames| == n
            && (forall i :: 0 <= i < n ==> frames[i] == Carrying(streamId, Segment(parts, i)))
            && w.writeOffset == Cut(parts, n) && w.writeData == Concat(parts[..n])
            && w.closed == (0 < n == |parts|)
  {
    if n == 0 {
      assert parts[..0] == [];
    } else {
      WritingCutsSegments(streamId, parts, n - 1);
      CutNext(parts, n - 1);
      PrefixSnoc(parts, n - 1);
    }
  }

  /** Every frame of a written stream is read back from the wire as it was written, whatever follows it, so a
      receiver gets exactly the segment. */
  lemma WrittenFramesReadBack(streamId: nat, parts: seq<seq<byte>>, i: nat, x: seq<byte>)
    requires i < |parts| && VarInts.IsVarInt(streamId) && VarInts.IsVarInt(|Concat(parts)|)
    ensures |Written(streamId, parts, |parts|).0| == |parts|
    ensures var f := Written(streamId, parts, |parts|).0[i];
      f == Carrying(streamId, Segment(parts, i)) && Frames.Encodable(f) && Frames.ReadsBack(f, x)
  {
    hide Frames.ReadsBack, Written;
    WritingCutsSegments(streamId, parts, |parts|);
    SegmentIsCut(parts, i);
    var f := Written(streamId, parts, |parts|).0[i];
    Frames.FrameRoundTripIff(f, x);
  }

  // ----- What a mishandled fill does

  /** Three frames of a six-byte stream of ones: the second starts inside the gap left by the first,
      Fill forgets the two bytes beside it, and the third makes addToRead submit bytes nobody sent. */
  lemma MishandledFillCorrupts(f0: StreamFrame, f1: StreamFrame, f2: StreamFrame)
    requires f0 == StreamFrame(5, [1], false) && f1 == StreamFrame(2, [1], false) && f2 == StreamFrame(0, [1], false)
    ensures CutFrom(f0, [1, 1, 1, 1, 1, 1]) && CutFrom(f1, [1, 1, 1, 1, 1, 1]) && CutFrom(f2, [1, 1, 1, 1, 1, 1])
    ensures Run([f0, f1, f2]).submitted == [[1, 0, 1, 0]]
  {
    hide Run;
    CorruptPrefix(f0, f1);
    RunStep([f0, f1], f2);
    assert [f0, f1] + [f2] == [f0, f1, f2];
    HoleForgotten(f2);
  }

  lemma CorruptPrefix(f0: StreamFrame, f1: StreamFrame)
    requires f0 == StreamFrame(5, [1], false) && f1 == StreamFrame(2, [1], false)
    ensures Run([f0, f1]) == AfterSecond
  {
    RunOfTwo(f0, f1);
    HoleAtFront(f0);
    HoleSplit(f1);
  }

  lemma RunOfTwo(f0: StreamFrame, f1: StreamFrame)
    ensures WellFormed(AddToRead(INITIAL, f0)) && Run([f0, f1]) == AddToRead(AddToRead(INITIAL, f0), f1)
  {
    AddToReadKeepsWellFormed(INITIAL, f0);
    RunStep([], f0);
    RunStep([f0], f1);
    assert [] + [f0] == [f0] && [f0] + [f1] == [f0, f1];
  }

  const AfterFirst := ReadState(0, [0, 0, 0, 0, 0, 1], [], 6, [ByteInterval(0, 5)], false, None)
  const AfterSecond := ReadState(0, [0, 0, 1, 0, 0, 1], [], 6, [ByteInterval(0, 1), ByteInterval(4, 5)], false, None)

  lemma HoleAtFront(f: StreamFrame)
    requires f == StreamFrame(5, [1], false)
    ensures AddToRead(INITIAL, f) == AfterFirst
  {
    assert Grown([], 6) == [0, 0, 0, 0, 0, 0];
  }

  lemma HoleSplit(f: StreamFrame)
    requires f == StreamFrame(2, [1], false)
    ensures WellFormed(AfterFirst) && AddToRead(AfterFirst, f) == AfterSecond
  {
    assert Pieces(AfterFirst.gaps, ByteInterval(2, 3)) == [ByteInterval(0, 1), ByteInterval(4, 5)];
  }

  lemma HoleForgotten(f: StreamFrame)
    requires f == StreamFrame(0, [1], false)
    ensures WellFormed(AfterSecond) && AddToRead(AfterSecond, f).submitted == [[1, 0, 1, 0]]
  {
    assert Piece(ByteInterval(0, 1), ByteInterval(0, 1)) == [];
    assert Pieces(AfterSecond.gaps, ByteInterval(0, 1)) == [ByteInterval(4, 5)];
    assert Copied(AfterSecond.readData, 0, [1])[0..4] == [1, 0, 1, 0];
  }
}
