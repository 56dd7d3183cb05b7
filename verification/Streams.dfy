/** The Stream object (streams.go, and its constructors of frames in frames.go): fields that
    addToRead and NewStreamFrame update in place, proved against the functions on values. */
module Streams {
  import opened Bytes
  import opened Wrappers
  import opened ByteIntervals
  import opened IntervalRing
  import opened Reassembly
  import SegmentedStreams
  import Frames

  class Stream {
    var readOffset: nat
    var readData: seq<byte>
    /** What has been submitted to ReadChan. */
    var submitted: seq<seq<byte>>
    var maxReadReceived: nat
    const gaps: IntervalList
    var readClosed: bool
    /** None stands for the initial maximal value. */
    var readCloseOffset: Option<nat>

    var writeOffset: nat
    var writeData: seq<byte>
    var writeClosed: bool

    ghost function ReadSide(): ReadState
      reads this, gaps
    {
      ReadState(readOffset, readData, submitted, maxReadReceived, Values(gaps.nodes), readClosed, readCloseOffset)
    }

    ghost function WriteSide(): SegmentedStreams.WriteState
      reads this
    {
      SegmentedStreams.WriteState(writeOffset, writeData, writeClosed)
    }

    ghost predicate Valid()
      reads this, gaps, gaps.Repr
    {
      this !in gaps.Repr && gaps.Valid() && WellFormed(ReadSide())
    }

    constructor ()
      ensures Valid() && fresh(gaps) && fresh(gaps.Repr)
      ensures ReadSide() == INITIAL
      ensures WriteSide() == SegmentedStreams.WriteState(0, [], false)
    {
      gaps := new IntervalList();
      readOffset, readData, submitted, maxReadReceived := 0, [], [], 0;
      readClosed, readCloseOffset := false, None;
      writeOffset, writeData, writeClosed := 0, [], false;
    }

    /** Sets the closing offset unless another one is known. */
    method NoteFin(f: StreamFrame)
      modifies this`readCloseOffset
      ensures readCloseOffset == CloseOffset(old(ReadSide()), f)
    {
      if f.fin {
        if readCloseOffset.Some? && readCloseOffset.value != f.End() {
          // a second, different FIN offset is ignored
        } else {
          readCloseOffset := Some(f.End());
        }
      }
    }

    /** Submits what lies before the first recorded gap. */
    method SubmitUpToGap()
      requires gaps.Valid() && this !in gaps.Repr && FirstGap(Values(gaps.nodes), |readData|) <= |readData|
      modifies this`submitted, this`readOffset
      ensures gaps.Valid() && ReadSide() == Deliver(old(ReadSide()))
    {
      var firstGap: nat;
      if gaps.len > 0 {
        var front := gaps.Front();
        firstGap := front.value.start;
      } else {
        firstGap := |readData|;
      }
      if readOffset < firstGap {
        submitted := submitted + [readData[readOffset..firstGap]];
        readOffset := firstGap;
      }
    }

    /** The last branch of addToRead: the frame lies below the high-water mark. */
    method FillAndDeliver(f: StreamFrame)
      requires Valid() && FillsGaps(ReadSide(), f)
      modifies this`readData, this`submitted, this`readOffset, gaps.Repr
      ensures gaps.Valid() && this !in gaps.Repr && fresh(gaps.Repr - old(gaps.Repr))
      ensures ReadSide() == Absorb(old(ReadSide()), f)
    {
      hide Fill;
      FillBounded(Values(gaps.nodes), f.Interval(), maxReadReceived);
      gaps.Fill(ByteInterval(f.offset, f.offset + |f.data|));
      readData := Copied(readData, f.offset, f.data);
      SubmitUpToGap();
    }

    /** The middle branch: the frame reaches past the high-water mark but is not next to be read. */
    method Extend(f: StreamFrame)
      requires Valid() && !(f.offset == readOffset && f.offset == maxReadReceived) && f.End() > maxReadReceived
      modifies this`readData, this`maxReadReceived, gaps.Repr
      ensures gaps.Valid() && this !in gaps.Repr && fresh(gaps.Repr - old(gaps.Repr))
      ensures ReadSide() == Absorb(old(ReadSide()), f)
    {
      if maxReadReceived < f.offset {
        gaps.Add(ByteInterval(maxReadReceived, f.offset));
      }
      maxReadReceived := f.offset + |f.data|;
      readData := Copied(Grown(readData, f.End()), f.offset, f.data);
    }

    /** addToRead, in place, computes AddToRead. */
    method Receive(f: StreamFrame)
      requires Valid()
      modifies this, gaps.Repr
      ensures Valid() && fresh(gaps.Repr - old(gaps.Repr))
      ensures ReadSide() == AddToRead(old(ReadSide()), f)
      ensures WriteSide() == old(WriteSide())
    {
      hide Absorb;
      AddToReadKeepsWellFormed(ReadSide(), f);
      NoteFin(f);
      AbsorbIgnoresClosing(old(ReadSide()), ReadSide(), f);
      Accept(f);
      if readCloseOffset == Some(readOffset) {
        readClosed := true;
      }
    }

    /** The three branches of addToRead. */
    method Accept(f: StreamFrame)
      requires Valid()
      modifies this`readData, this`submitted, this`readOffset, this`maxReadReceived, gaps.Repr
      ensures gaps.Valid() && this !in gaps.Repr && fresh(gaps.Repr - old(gaps.Repr))
      ensures ReadSide() == Absorb(old(ReadSide()), f)
    {
      if f.offset == readOffset && f.offset == maxReadReceived {
        readOffset := readOffset + |f.data|;
        maxReadReceived := readOffset;
        readData := readData + f.data;
        submitted := submitted + [f.data];
      } else if f.offset + |f.data| > maxReadReceived {
        Extend(f);
      } else {
        FillAndDeliver(f);
      }
    }

    /** NewStreamFrame: the frame for the next bytes of the stream. */
    method NewStreamFrame(streamId: nat, data: seq<byte>, fin: bool) returns (f: Frames.Frame)
      requires Valid()
      modifies this`writeOffset, this`writeData, this`writeClosed
      ensures Valid() && ReadSide() == old(ReadSide())
      ensures (f, WriteSide()) == SegmentedStreams.NewStreamFrame(old(WriteSide()), streamId, data, fin)
    {
      f := Frames.Stream(fin, true, writeOffset > 0, streamId, writeOffset, |data|, data);
      writeOffset := writeOffset + |data|;
      writeData := writeData + data;
      writeClosed := fin;
    }
  }

  /** The branches of addToRead do not look at the closing offset. */
  lemma AbsorbIgnoresClosing(s: ReadState, t: ReadState, f: StreamFrame)
    requires WellFormed(s) && t == s.(closeOffset := t.closeOffset)
    ensures WellFormed(t) && Absorb(t, f) == Absorb(s, f).(closeOffset := t.closeOffset)
  {
    if FillsGaps(s, f) {
      FillBounded(s.gaps, f.Interval(), s.maxReceived);
    }
  }

  lemma RunNothing(frames: seq<StreamFrame>)
    ensures Run(frames[..0]) == INITIAL
  {
    assert frames[..0] == [];
  }

  lemma RunOneMore(frames: seq<StreamFrame>, n: nat)
    requires n < |frames|
    ensures Run(frames[..n + 1]) == AddToRead(Run(frames[..n]), frames[n])
  {
    hide AddToRead;
    RunStep(frames[..n], frames[n]);
    assert frames[..n + 1] == frames[..n] + [frames[n]];
  }

  /** Feeding a whole run of frames to a fresh stream: the object ends in the state Run describes, so
      the theorems about runs are theorems about the object. */
  method ReceiveAll(frames: seq<StreamFrame>) returns (s: Stream)
    ensures s.Valid() && s.ReadSide() == Run(frames)
  {
    hide Run, AddToRead, WellFormed;
    s := new Stream();
    RunNothing(frames);
    for n := 0 to |frames|
      invariant s.Valid() && fresh(s) && fresh(s.gaps.Repr)
      invariant s.ReadSide() == Run(frames[..n])
    {
      RunOneMore(frames, n);
      s.Receive(frames[n]);
    }
    assert frames[..|frames|] == frames;
  }
}
