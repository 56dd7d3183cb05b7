/** Stream reassembly (streams.go, addToRead) on values, and what whole runs of it deliver. */
module Reassembly {
  import opened Bytes
  import opened ByteIntervals
  import opened Wrappers

  /** The part of a STREAM or CRYPTO frame that reassembly looks at. */
  datatype StreamFrame = StreamFrame(offset: nat, data: seq<byte>, fin: bool) {
    function End(): nat {
      offset + |data|
    }

    function Interval(): ByteInterval {
      ByteInterval(offset, End())
    }
  }

  /** The reading half of a Stream.  `submitted` lists what went to ReadChan; closeOffset is None
      while it holds its initial maximal value. */
  datatype ReadState = ReadState(
    readOffset: nat,
    readData: seq<byte>,
    submitted: seq<seq<byte>>,
    maxReceived: nat,
    gaps: seq<ByteInterval>,
    closed: bool,
    closeOffset: Option<nat>)

  const INITIAL := ReadState(0, [], [], 0, [], false, None)

  /** What addToRead relies on and keeps, whatever frames arrive. */
  ghost predicate WellFormed(s: ReadState) {
    && |s.readData| == s.maxReceived
    && s.readOffset <= s.maxReceived
    && Settled(s.gaps)
    && Bounded(s.gaps, s.maxReceived)
  }

  ghost predicate Bounded(l: seq<ByteInterval>, max: nat) {
    forall i :: 0 <= i < |l| ==> l[i].start <= max && l[i].end <= max
  }

  /** Go's copy(buf[off:], data). */
  function Copied(buf: seq<byte>, off: nat, data: seq<byte>): (r: seq<byte>)
    requires off + |data| <= |buf|
    ensures |r| == |buf|
    ensures forall x :: 0 <= x < |buf| ==> r[x] == if off <= x < off + |data| then data[x - off] else buf[x]
  {
    buf[..off] + data + buf[off + |data|..]
  }

  /** A zeroed slice of the given length holding buf from its start. */
  function Grown(buf: seq<byte>, length: nat): (r: seq<byte>)
    requires |buf| <= length
    ensures |r| == length
  {
    buf + seq(length - |buf|, _ => 0)
  }

  function CloseOffset(s: ReadState, f: StreamFrame): Option<nat> {
    if f.fin && (s.closeOffset.None? || s.closeOffset.value == f.End()) then Some(f.End()) else s.closeOffset
  }

  /** The frame is handled by Fill: it brings no byte past the high-water mark. */
  predicate FillsGaps(s: ReadState, f: StreamFrame) {
    !(f.offset == s.readOffset && f.offset == s.maxReceived) && f.End() <= s.maxReceived
  }

  function FirstGap(gaps: seq<ByteInterval>, length: nat): nat {
    if gaps != [] then gaps[0].start else length
  }

  /** The effect of the frame on everything but the closing fields. */
  function Absorb(s: ReadState, f: StreamFrame): ReadState
    requires WellFormed(s)
  {
    if f.offset == s.readOffset && f.offset == s.maxReceived then
      s.(readOffset := f.End(), maxReceived := f.End(), readData := s.readData + f.data,
         submitted := s.submitted + [f.data])
    else if f.End() > s.maxReceived then
      s.(gaps := if s.maxReceived < f.offset then Add(s.gaps, ByteInterval(s.maxReceived, f.offset)) else s.gaps,
         maxReceived := f.End(),
         readData := Copied(Grown(s.readData, f.End()), f.offset, f.data))
    else
      FillBounded(s.gaps, f.Interval(), s.maxReceived);
      Deliver(s.(gaps := Fill(s.gaps, f.Interval()), readData := Copied(s.readData, f.offset, f.data)))
  }

  /** Submits everything before the first recorded gap. */
  function Deliver(s: ReadState): ReadState
    requires FirstGap(s.gaps, |s.readData|) <= |s.readData|
  {
    var firstGap := FirstGap(s.gaps, |s.readData|);
    if s.readOffset < firstGap then
      s.(submitted := s.submitted + [s.readData[s.readOffset..firstGap]], readOffset := firstGap)
    else
      s
  }

  function AddToRead(s: ReadState, f: StreamFrame): ReadState
    requires WellFormed(s)
  {
    var t := Absorb(s, f).(closeOffset := CloseOffset(s, f));
    t.(closed := t.closed || t.closeOffset == Some(t.readOffset))
  }

  // ----- Well-formedness

  lemma {:induction false} MergeFromBounded(p: ByteInterval, rest: seq<ByteInterval>, max: nat)
    requires p.start <= max && p.end <= max && Bounded(rest, max)
    ensures Bounded(MergeFrom(p, rest), max)
    decreases |rest|
  {
    if rest != [] {
      assert Bounded(rest[1..], max);
      MergeFromBounded(if p.Overlap(rest[0]) then p.Merge(rest[0]) else rest[0], rest[1..], max);
    }
  }

  lemma MergePassBounded(l: seq<ByteInterval>, max: nat)
    requires Bounded(l, max)
    ensures Bounded(MergePass(l), max)
  {
    if l != [] {
      MergeFromBounded(l[0], l[1..], max);
    }
  }

  lemma {:induction false} PiecesBounded(l: seq<ByteInterval>, o: ByteInterval, max: nat)
    requires Bounded(l, max) && o.start <= o.end <= max
    ensures Bounded(Pieces(l, o), max)
  {
    if l != [] {
      PiecesBounded(l[1..], o, max);
      assert Bounded(Piece(l[0], o), max);
    }
  }

  lemma FillBounded(l: seq<ByteInterval>, o: ByteInterval, max: nat)
    requires Bounded(l, max) && o.start <= o.end <= max
    ensures Bounded(Fill(l, o), max)
  {
    PiecesBounded(l, o, max);
    MergePassBounded(Pieces(l, o), max);
  }

  lemma AddBounded(l: seq<ByteInterval>, b: ByteInterval)
    requires Bounded(l, b.start) && b.start < b.end
    ensures Bounded(Add(l, b), b.end)
  {
    MergePassBounded(Inserted(l, b), b.end);
  }

  /** addToRead never indexes outside its buffer: every frame whatsoever keeps the state well formed. */
  lemma AddToReadKeepsWellFormed(s: ReadState, f: StreamFrame)
    requires WellFormed(s)
    ensures WellFormed(AddToRead(s, f))
    ensures s.readOffset <= AddToRead(s, f).readOffset
  {
    if FillsGaps(s, f) {
      FillSound(s.gaps, f.Interval());
      FillBounded(s.gaps, f.Interval(), s.maxReceived);
    } else if s.maxReceived < f.offset {
      var b := ByteInterval(s.maxReceived, f.offset);
      AddAtEnd(s.gaps, b);
      AddBounded(s.gaps, b);
    }
  }

  // ----- Runs

  /** The state after a sequence of frames. */
  function Run(frames: seq<StreamFrame>): (s: ReadState)
    ensures WellFormed(s)
  {
    if frames == [] then INITIAL
    else
      var s := Run(frames[..|frames| - 1]);
      AddToReadKeepsWellFormed(s, frames[|frames| - 1]);
      AddToRead(s, frames[|frames| - 1])
  }

  lemma RunStep(frames: seq<StreamFrame>, f: StreamFrame)
    ensures Run(frames + [f]) == AddToRead(Run(frames), f)
  {
    assert (frames + [f])[..|frames|] == frames;
  }

  /** Byte x was in one of the frames. */
  ghost predicate Received(frames: seq<StreamFrame>, x: int) {
    exists i :: 0 <= i < |frames| && frames[i].Interval().Has(x)
  }

  lemma ReceivedStep(frames: seq<StreamFrame>, f: StreamFrame, x: int)
    ensures Received(frames + [f], x) <==> Received(frames, x) || f.Interval().Has(x)
  {
    var g := frames + [f];
    if i :| 0 <= i < |frames| && frames[i].Interval().Has(x) {
      assert g[i].Interval().Has(x);
    }
    if f.Interval().Has(x) {
      assert g[|frames|].Interval().Has(x);
    }
  }

  predicate CutFrom(f: StreamFrame, source: seq<byte>) {
    f.End() <= |source| && f.data == source[f.offset..f.End()]
  }

  /** Fill handles the frame correctly: it does not start strictly inside a recorded gap that it
      ends no later than. */
  ghost predicate GapSafe(s: ReadState, f: StreamFrame) {
    FillsGaps(s, f) ==> forall i :: 0 <= i < |s.gaps| ==> !Mishandled(s.gaps[i], f.Interval())
  }

  /** Every frame of the run is handled correctly in the state it meets. */
  ghost predicate GapSafeRun(frames: seq<StreamFrame>) {
    frames == [] ||
    (GapSafeRun(frames[..|frames| - 1]) && GapSafe(Run(frames[..|frames| - 1]), frames[|frames| - 1]))
  }

  // ----- What the gap list must not forget

  /** Every byte below the high-water mark has been received or is recorded as missing. */
  ghost predicate Recorded(s: ReadState, frames: seq<StreamFrame>) {
    forall x :: 0 <= x < s.maxReceived ==> Received(frames, x) || Covers(s.gaps, x)
  }

  /** Whatever Fill forgets of its gaps for this frame has been received already. */
  ghost predicate Careful(s: ReadState, frames: seq<StreamFrame>, f: StreamFrame) {
    FillsGaps(s, f) ==> forall x :: Received(frames, x) || NoneForgets(s.gaps, f.Interval(), x)
  }

  lemma FillRecordedIff(s: ReadState, frames: seq<StreamFrame>, f: StreamFrame)
    requires WellFormed(s) && Recorded(s, frames) && FillsGaps(s, f)
    ensures Recorded(AddToRead(s, f), frames + [f]) <==> Careful(s, frames, f)
  {
    hide Fill, Received, Covers, NoneForgets;
    var o, t := f.Interval(), AddToRead(s, f);
    FillBounded(s.gaps, o, s.maxReceived);
    forall x
      ensures Received(frames + [f], x) <==> Received(frames, x) || o.Has(x)
      ensures Covers(t.gaps, x) <==> Covers(s.gaps, x) && !o.Has(x) && NoneForgets(s.gaps, o, x)
      ensures !NoneForgets(s.gaps, o, x) ==> 0 <= x < s.maxReceived && !o.Has(x)
    {
      ReceivedStep(frames, f, x);
      FillDenotes(s.gaps, o, x);
      ForgottenBelow(s.gaps, o, x, s.maxReceived);
    }
  }

  lemma ForgottenBelow(l: seq<ByteInterval>, o: ByteInterval, x: int, max: nat)
    requires Bounded(l, max) && o.start <= o.end
    ensures !NoneForgets(l, o, x) ==> 0 <= x < max && !o.Has(x)
  {
    if i :| 0 <= i < |l| && Forgets(l[i], o, x) {
      ForgottenWasThere(l[i], o, x);
    }
  }

  lemma OtherwiseRecorded(s: ReadState, frames: seq<StreamFrame>, f: StreamFrame)
    requires WellFormed(s) && Recorded(s, frames) && !FillsGaps(s, f)
    ensures Recorded(AddToRead(s, f), frames + [f])
  {
    hide Add;
    forall x ensures Received(frames + [f], x) <==> Received(frames, x) || f.Interval().Has(x) {
      ReceivedStep(frames, f, x);
    }
    if s.maxReceived < f.offset && f.End() > s.maxReceived {
      AddAtEnd(s.gaps, ByteInterval(s.maxReceived, f.offset));
    }
  }

  /** One frame, any frame: afterwards every byte is still received or recorded if and only if everything that
      Fill forgets had been received. */
  lemma StepRecordedIff(s: ReadState, frames: seq<StreamFrame>, f: StreamFrame)
    requires WellFormed(s) && Recorded(s, frames)
    ensures Recorded(AddToRead(s, f), frames + [f]) <==> Careful(s, frames, f)
  {
    hide AddToRead, Recorded;
    if FillsGaps(s, f) {
      FillRecordedIff(s, frames, f);
    } else {
      OtherwiseRecorded(s, frames, f);
    }
  }

  /** Every byte is received or recorded after each step of the run. */
  ghost predicate RecordedThroughout(frames: seq<StreamFrame>) {
    frames == [] || (RecordedThroughout(frames[..|frames| - 1]) && Recorded(Run(frames), frames))
  }

  /** Each frame of the run makes Fill forget received bytes only. */
  ghost predicate CarefulRun(frames: seq<StreamFrame>) {
    frames == [] ||
    (var n := |frames| - 1; CarefulRun(frames[..n]) && Careful(Run(frames[..n]), frames[..n], frames[n]))
  }

  /** Over every run of any frames, each byte is received or recorded after every step if and only if every
      step forgets received bytes only. */
  lemma {:induction false} RecordedThroughoutIff(frames: seq<StreamFrame>)
    ensures RecordedThroughout(frames) <==> CarefulRun(frames)
    ensures RecordedThroughout(frames) ==> Recorded(Run(frames), frames)
    decreases |frames|
  {
    hide Recorded, Careful, AddToRead, Run;
    if frames == [] {
      StartRecorded();
    } else {
      var n := |frames| - 1;
      RecordedThroughoutIff(frames[..n]);
      assert frames == frames[..n] + [frames[n]];
      RunStep(frames[..n], frames[n]);
      if RecordedThroughout(frames[..n]) {
        StepRecordedIff(Run(frames[..n]), frames[..n], frames[n]);
      }
    }
  }

  lemma StartRecorded()
    ensures Recorded(Run([]), [])
  {
  }

  /** A frame Fill handles correctly makes it forget nothing. */
  lemma SafeIsCareful(s: ReadState, frames: seq<StreamFrame>, f: StreamFrame)
    requires GapSafe(s, f)
    ensures Careful(s, frames, f)
  {
  }

  lemma {:induction false} SafeRunIsCareful(frames: seq<StreamFrame>)
    requires GapSafeRun(frames)
    ensures CarefulRun(frames)
    decreases |frames|
  {
    hide GapSafe, Careful, Run;
    if frames != [] {
      var n := |frames| - 1;
      SafeRunIsCareful(frames[..n]);
      SafeIsCareful(Run(frames[..n]), frames[..n], frames[n]);
    }
  }

  // ----- Safety: what is submitted is the stream

  /** Below the high-water mark each byte is received or recorded as missing, received bytes are
      in the buffer, and what was submitted is the stream up to the read offset. */
  ghost predicate Faithful(s: ReadState, frames: seq<StreamFrame>, source: seq<byte>) {
    && s.maxReceived <= |source|
    && |s.readData| == s.maxReceived
    && (forall x :: Received(frames, x) ==> 0 <= x < s.maxReceived && s.readData[x] == source[x])
    && Recorded(s, frames)
    && s.readOffset <= s.maxReceived
    && Concat(s.submitted) == source[..s.readOffset]
  }

  lemma AppendFaithful(s: ReadState, frames: seq<StreamFrame>, f: StreamFrame, source: seq<byte>)
    requires WellFormed(s) && Faithful(s, frames, source) && CutFrom(f, source)
    requires f.offset == s.readOffset && f.offset == s.maxReceived
    ensures Faithful(Absorb(s, f), frames + [f], source)
  {
    hide Received, Covers, Concat;
    var t := Absorb(s, f);
    forall x ensures Received(frames + [f], x) <==> Received(frames, x) || f.Interval().Has(x) {
      ReceivedStep(frames, f, x);
    }
    ConcatSnoc(s.submitted, f.data);
    assert source[..f.End()] == source[..f.offset] + source[f.offset..f.End()];
  }

  /** Writing a frame cut from the source into a buffer that agrees with it on the bytes received
      so far gives one that also agrees on the frame's. */
  lemma CopiedAgrees(buf: seq<byte>, frames: seq<StreamFrame>, f: StreamFrame, source: seq<byte>, x: int)
    requires CutFrom(f, source) && f.End() <= |buf| <= |source|
    requires Received(frames, x) ==> 0 <= x < |buf| && buf[x] == source[x]
    ensures Received(frames + [f], x) ==> 0 <= x < |buf| && Copied(buf, f.offset, f.data)[x] == source[x]
  {
    ReceivedStep(frames, f, x);
  }

  lemma ExtendFaithful(s: ReadState, frames: seq<StreamFrame>, f: StreamFrame, source: seq<byte>)
    requires WellFormed(s) && Faithful(s, frames, source) && CutFrom(f, source)
    requires !(f.offset == s.readOffset && f.offset == s.maxReceived) && f.End() > s.maxReceived
    ensures Faithful(Absorb(s, f), frames + [f], source)
  {
    var t := Absorb(s, f);
    forall x | Received(frames + [f], x) ensures 0 <= x < t.maxReceived && t.readData[x] == source[x] {
      CopiedAgrees(Grown(s.readData, f.End()), frames, f, source, x);
    }
    if s.maxReceived < f.offset {
      AddAtEnd(s.gaps, ByteInterval(s.maxReceived, f.offset));
    }
    forall x | 0 <= x < t.maxReceived ensures Received(frames + [f], x) || Covers(t.gaps, x) {
      ReceivedStep(frames, f, x);
    }
  }

  /** Filling a gap list that records every missing byte leaves one that does, if the fill is careful. */
  lemma FillFaithful(s: ReadState, frames: seq<StreamFrame>, f: StreamFrame, source: seq<byte>)
    requires WellFormed(s) && Faithful(s, frames, source) && CutFrom(f, source)
    requires FillsGaps(s, f) && Careful(s, frames, f)
    ensures var t := s.(gaps := Fill(s.gaps, f.Interval()), readData := Copied(s.readData, f.offset, f.data));
            Faithful(t, frames + [f], source)
  {
    var t := s.(gaps := Fill(s.gaps, f.Interval()), readData := Copied(s.readData, f.offset, f.data));
    forall x | Received(frames + [f], x) ensures 0 <= x < t.maxReceived && t.readData[x] == source[x] {
      CopiedAgrees(s.readData, frames, f, source, x);
    }
    forall x | 0 <= x < t.maxReceived ensures Received(frames + [f], x) || Covers(t.gaps, x) {
      ReceivedStep(frames, f, x);
      FillDenotes(s.gaps, f.Interval(), x);
    }
  }

  /** Delivery reads only received bytes: none lies at or past the start of the first recorded gap. */
  lemma DeliverFaithful(s: ReadState, frames: seq<StreamFrame>, source: seq<byte>)
    requires WellFormed(s) && Faithful(s, frames, source)
    ensures Faithful(Deliver(s), frames, source)
  {
    var firstGap := FirstGap(s.gaps, |s.readData|);
    if s.readOffset < firstGap {
      var chunk := s.readData[s.readOffset..firstGap];
      forall x | s.readOffset <= x < firstGap ensures s.readData[x] == source[x] {
        assert !Covers(s.gaps, x) by {
          forall i | 0 <= i < |s.gaps| ensures !s.gaps[i].Has(x) {
            assert i > 0 ==> s.gaps[0].start < s.gaps[i].start;
          }
        }
      }
      assert chunk == source[s.readOffset..firstGap];
      ConcatSnoc(s.submitted, chunk);
      assert source[..firstGap] == source[..s.readOffset] + source[s.readOffset..firstGap];
    }
  }

  lemma AddToReadFaithful(s: ReadState, frames: seq<StreamFrame>, f: StreamFrame, source: seq<byte>)
    requires WellFormed(s) && Faithful(s, frames, source) && CutFrom(f, source) && Careful(s, frames, f)
    ensures Faithful(AddToRead(s, f), frames + [f], source)
  {
    if f.offset == s.readOffset && f.offset == s.maxReceived {
      AppendFaithful(s, frames, f, source);
    } else if f.End() > s.maxReceived {
      ExtendFaithful(s, frames, f, source);
    } else {
      var t := s.(gaps := Fill(s.gaps, f.Interval()), readData := Copied(s.readData, f.offset, f.data));
      FillFaithful(s, frames, f, source);
      FillSound(s.gaps, f.Interval());
      FillBounded(s.gaps, f.Interval(), s.maxReceived);
      DeliverFaithful(t, frames + [f], source);
    }
  }

  lemma RunFaithful(init: seq<StreamFrame>, f: StreamFrame, source: seq<byte>)
    requires Faithful(Run(init), init, source) && CutFrom(f, source) && Careful(Run(init), init, f)
    ensures Faithful(Run(init + [f]), init + [f], source)
  {
    RunStep(init, f);
    AddToReadFaithful(Run(init), init, f, source);
  }

  lemma {:induction false} EveryRunFaithful(frames: seq<StreamFrame>, source: seq<byte>)
    requires forall i :: 0 <= i < |frames| ==> CutFrom(frames[i], source)
    requires CarefulRun(frames)
    ensures Faithful(Run(frames), frames, source)
    decreases |frames|
  {
    if frames == [] {
      assert source[..0] == [];
    } else {
      var n := |frames| - 1;
      assert frames == frames[..n] + [frames[n]];
      EveryRunFaithful(frames[..n], source);
      RunFaithful(frames[..n], frames[n], source);
    }
  }

  /** Reassembly safety: over every run of frames cut from one source, in any order, overlapping or
      repeated, the chunks submitted concatenate to exactly the source up to the read offset, as
      long as every fill forgets received bytes only.  Empty and inverted leftovers cannot corrupt
      delivery. */
  lemma ReassemblyIsSafe(frames: seq<StreamFrame>, source: seq<byte>)
    requires forall i :: 0 <= i < |frames| ==> CutFrom(frames[i], source)
    requires CarefulRun(frames)
    ensures var s := Run(frames); s.readOffset <= |source| && Concat(s.submitted) == source[..s.readOffset]
  {
    EveryRunFaithful(frames, source);
  }

  // ----- What is submitted in every run, careful or not

  /** Byte x had arrived when it was submitted, or has arrived if it was not submitted yet. */
  ghost predicate OnTime(frames: seq<StreamFrame>, x: int) {
    if frames == [] then false
    else
      var n := |frames| - 1;
      if x < Run(frames[..n]).readOffset then OnTime(frames[..n], x) else Received(frames, x)
  }

  /** The buffer holds the source where it has arrived, and zeros elsewhere. */
  ghost predicate Buffered(data: seq<byte>, frames: seq<StreamFrame>, source: seq<byte>) {
    |data| <= |source| && forall x :: 0 <= x < |data| ==> data[x] == if Received(frames, x) then source[x] else 0
  }

  lemma BufferedCopy(data: seq<byte>, frames: seq<StreamFrame>, f: StreamFrame, source: seq<byte>)
    requires Buffered(data, frames, source) && CutFrom(f, source) && f.End() <= |data|
    ensures Buffered(Copied(data, f.offset, f.data), frames + [f], source)
  {
    forall x | 0 <= x < |data|
      ensures Copied(data, f.offset, f.data)[x] == if Received(frames + [f], x) then source[x] else 0
    {
      ReceivedStep(frames, f, x);
    }
  }

  /** Nothing has been received at or past the high-water mark. */
  ghost predicate NothingPast(max: nat, frames: seq<StreamFrame>) {
    forall x :: Received(frames, x) ==> 0 <= x < max
  }

  lemma BufferedGrown(data: seq<byte>, length: nat, frames: seq<StreamFrame>, source: seq<byte>)
    requires Buffered(data, frames, source) && NothingPast(|data|, frames) && |data| <= length <= |source|
    ensures Buffered(Grown(data, length), frames, source)
  {
    hide Received;
  }

  /** The buffer after any frame. */
  lemma StepBuffered(s: ReadState, frames: seq<StreamFrame>, f: StreamFrame, source: seq<byte>)
    requires WellFormed(s) && CutFrom(f, source) && Buffered(s.readData, frames, source) && NothingPast(s.maxReceived, frames)
    ensures Buffered(AddToRead(s, f).readData, frames + [f], source)
    ensures NothingPast(AddToRead(s, f).maxReceived, frames + [f])
  {
    hide Fill, Add, Received;
    forall x ensures Received(frames + [f], x) <==> Received(frames, x) || f.Interval().Has(x) {
      ReceivedStep(frames, f, x);
    }
    if FillsGaps(s, f) {
      BufferedCopy(s.readData, frames, f, source);
      FillBounded(s.gaps, f.Interval(), s.maxReceived);
    } else {
      BufferedGrown(s.readData, f.End(), frames, source);
      BufferedCopy(Grown(s.readData, f.End()), frames, f, source);
      assert f.offset == s.maxReceived ==> Copied(Grown(s.readData, f.End()), f.offset, f.data) == s.readData + f.data;
    }
  }

  /** What a step submits is what its buffer holds from the old read offset to the new one. */
  lemma StepSubmits(s: ReadState, f: StreamFrame)
    requires WellFormed(s)
    ensures var t := AddToRead(s, f);
      && WellFormed(t) && s.readOffset <= t.readOffset
      && Concat(t.submitted) == Concat(s.submitted) + t.readData[s.readOffset..t.readOffset]
  {
    hide Fill, Add, Concat;
    AddToReadKeepsWellFormed(s, f);
    var t := AddToRead(s, f);
    if FillsGaps(s, f) {
      FillBounded(s.gaps, f.Interval(), s.maxReceived);
      ConcatSnoc(s.submitted, t.readData[s.readOffset..t.readOffset]);
    } else if f.offset == s.readOffset && f.offset == s.maxReceived {
      ConcatSnoc(s.submitted, f.data);
      assert t.readData[s.readOffset..t.readOffset] == f.data;
    }
    assert t.readOffset == s.readOffset ==> t.readData[s.readOffset..t.readOffset] == [];
  }

  /** Submitted byte by submitted byte: the source where it had arrived in time, zero where it had not. */
  ghost predicate SubmittedInTime(frames: seq<StreamFrame>, source: seq<byte>) {
    var s := Run(frames);
    && s.readOffset <= |source| && |Concat(s.submitted)| == s.readOffset
    && forall x :: 0 <= x < s.readOffset ==> Concat(s.submitted)[x] == if OnTime(frames, x) then source[x] else 0
  }

  lemma StepInTime(init: seq<StreamFrame>, f: StreamFrame, source: seq<byte>)
    requires SubmittedInTime(init, source) && Buffered(Run(init + [f]).readData, init + [f], source)
    ensures SubmittedInTime(init + [f], source)
  {
    hide AddToRead, Run, Received, Concat;
    var frames := init + [f];
    assert frames[..|frames| - 1] == init;
    RunStep(init, f);
    StepSubmits(Run(init), f);
  }

  /** Over every run of frames cut from one source, whatever Fill forgets: each submitted byte is the source's
      if it had arrived by then, and zero if it had not. */
  lemma {:induction false} WhatIsSubmitted(frames: seq<StreamFrame>, source: seq<byte>)
    requires forall i :: 0 <= i < |frames| ==> CutFrom(frames[i], source)
    ensures SubmittedInTime(frames, source)
    ensures Buffered(Run(frames).readData, frames, source) && NothingPast(Run(frames).maxReceived, frames)
    decreases |frames|
  {
    hide AddToRead, SubmittedInTime, Buffered, NothingPast, Run;
    if frames == [] {
      NothingSubmitted(source);
    } else {
      var n := |frames| - 1;
      assert frames == frames[..n] + [frames[n]];
      WhatIsSubmitted(frames[..n], source);
      RunStep(frames[..n], frames[n]);
      StepBuffered(Run(frames[..n]), frames[..n], frames[n], source);
      StepInTime(frames[..n], frames[n], source);
    }
  }

  lemma NothingSubmitted(source: seq<byte>)
    ensures SubmittedInTime([], source) && Buffered(Run([]).readData, [], source) && NothingPast(Run([]).maxReceived, [])
  {
  }

  /** Reassembly safety, exactly: over every run of frames cut from one source, the submitted chunks concatenate
      to the source up to the read offset if and only if every non-zero byte had arrived when it was submitted. */
  lemma SafeIff(frames: seq<StreamFrame>, source: seq<byte>)
    requires forall i :: 0 <= i < |frames| ==> CutFrom(frames[i], source)
    ensures var s := Run(frames);
      && s.readOffset <= |source|
      && (Concat(s.submitted) == source[..s.readOffset] <==>
          forall x :: 0 <= x < s.readOffset ==> OnTime(frames, x) || source[x] == 0)
  {
    hide Run, OnTime, Concat;
    WhatIsSubmitted(frames, source);
    var c, p := Concat(Run(frames).submitted), source[..Run(frames).readOffset];
    assert c == p <==> forall x :: 0 <= x < |p| ==> c[x] == p[x];
  }
}
