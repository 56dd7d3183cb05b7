/** What one packet can hold against the MTU, in runs of frames submitted at real levels
    (agents/send_agent.go:83-123). */
module MtuBounds {
  import opened Wrappers
  import opened VarInts
  import opened Frames
  import opened Acks
  import opened MergedAcks
  import opened SendingAgents
  import opened SendingRuns
  import opened PacketSizes

  // ----- The bound on a packet

  /** The packet was made of buffered frames that take no more than this. */
  ghost predicate MadeOf(p: Packet, most: nat) {
    exists items :: p.items == Filled(items, p.level) && Lengths(items) <= most
  }

  ghost predicate Small(packets: seq<Packet>, mtu: nat, longest: nat) {
    forall i :: 0 <= i < |packets| ==> MadeOf(packets[i], mtu + longest)
  }

  /** The counted length is within the MTU, and misses at most one frame of length at most `longest`. */
  ghost predicate Counted(items: seq<Item>, length: nat, mtu: nat, longest: nat) {
    length <= mtu && Lengths(items) <= length + longest
  }

  ghost predicate Sized(s: State, mtu: nat, longest: nat)
    requires Total(s)
  {
    && (forall l :: Counted(s.frameBuffer[l], s.frameBufferLength[l], mtu, longest))
    && (forall l :: !Real(l) ==> !s.timers[l])
    && (forall l :: Small(s.packetBuffer[l], mtu, longest))
    && Small(s.sent, mtu, longest)
  }

  /** Frames are submitted at real levels only, none longer than `longest`. */
  ghost predicate Modest(e: Event, longest: nat) {
    e.FrameQueued? ==> Real(e.item.origin) && e.item.length <= longest
  }

  ghost predicate AllModest(events: seq<Event>, longest: nat) {
    forall i :: 0 <= i < |events| ==> Modest(events[i], longest)
  }

  lemma SmallAppend(a: seq<Packet>, b: seq<Packet>, mtu: nat, longest: nat)
    requires Small(a, mtu, longest) && Small(b, mtu, longest)
    ensures Small(a + b, mtu, longest)
  {
    hide MadeOf;
  }

  lemma FlushSized(s: State, mtu: nat, longest: nat, l: Level, left: seq<Item>, p: Packet)
    requires Total(s) && Total(Flushed(s, l, left, p)) && Sized(s, mtu, longest)
    requires Counted(left, 0, mtu, longest) && Small([p], mtu, longest)
    ensures Sized(Flushed(s, l, left, p), mtu, longest)
  {
    hide Small, Counted;
    SmallAppend(s.sent, [p], mtu, longest);
    SmallAppend(s.packetBuffer[l], [p], mtu, longest);
  }

  lemma SmallOne(p: Packet, items: seq<Item>, mtu: nat, longest: nat)
    requires p.items == Filled(items, p.level) && Lengths(items) <= mtu + longest
    ensures Small([p], mtu, longest)
  {
    hide Filled, Lengths;
  }

  lemma FilledAlone(item: Item, l: Level)
    ensures Filled([item], l) == [item]
  {
    hide Merged, FrameLength;
    assert [item][1..] == [];
    assert NonAcks([item]) + AckItems([item]) == [item];
  }

  lemma CountedAppend(items: seq<Item>, length: nat, mtu: nat, longest: nat, item: Item)
    requires Counted(items, length, mtu, longest) && length + item.length <= mtu
    ensures Counted(items + [item], length + item.length, mtu, longest)
  {
    LengthsOne(item);
    LengthsAppend(items, [item]);
  }

  lemma OverflowSized(s: State, mtu: nat, longest: nat, item: Item)
    requires Total(s) && Routed(s) && Sized(s, mtu, longest)
    requires Wellformed(item) && Real(item.origin) && item.length <= longest
    ensures Total(Overflow(s, item)) && Sized(Overflow(s, item), mtu, longest)
  {
    hide Routed, Wellformed, Filled, Flushed, Lengths, Small;
    OverflowRouted(s, item);
    var l := item.origin;
    assert Target(s.available, l) == l;
    assert Counted(s.frameBuffer[l], s.frameBufferLength[l], mtu, longest);
    LengthsOne(item);
    FilledEmptyIff(s.frameBuffer[l], l);
    if s.frameBuffer[l] == [] {
      FilledAlone(item, l);
      SmallOne(Packet(l, [item]), [item], mtu, longest);
      FlushSized(s, mtu, longest, l, [], Packet(l, [item]));
    } else {
      SmallOne(Packet(l, Filled(s.frameBuffer[l], l)), s.frameBuffer[l], mtu, longest);
      FlushSized(s, mtu, longest, l, [item], Packet(l, Filled(s.frameBuffer[l], l)));
    }
  }

  lemma CountedWithin(items: seq<Item>, length: nat, mtu: nat, longest: nat)
    requires Counted(items, length, mtu, longest)
    ensures length <= mtu
  {
  }

  lemma OnFrameSized(s: State, mtu: nat, longest: nat, item: Item)
    requires Total(s) && Routed(s) && Sized(s, mtu, longest) && mtu + longest < UINT16
    requires Wellformed(item) && Real(item.origin) && item.length <= longest
    ensures Total(OnFrame(s, mtu, item)) && Sized(OnFrame(s, mtu, item), mtu, longest)
  {
    hide Routed, Wellformed, Overflow, Counted, Small, Wrap;
    var l := item.origin;
    OverflowSized(s, mtu, longest, item);
    assert s.frameBufferLength[l] <= mtu by {
      CountedWithin(s.frameBuffer[l], s.frameBufferLength[l], mtu, longest);
    }
    WrapSmall(s.frameBufferLength[l] + item.length);
    if s.frameBufferLength[l] + item.length <= mtu {
      CountedAppend(s.frameBuffer[l], s.frameBufferLength[l], mtu, longest, item);
    }
  }

  lemma OnRealTimerSized(s: State, mtu: nat, longest: nat, l: Level)
    requires Total(s) && Routed(s) && Sized(s, mtu, longest) && Real(l)
    ensures Total(OnRealTimer(s, l)) && Sized(OnRealTimer(s, l), mtu, longest)
  {
    hide Routed, Filled, Flushed, Lengths, Small;
    OnRealTimerRouted(s, l);
    assert Counted(s.frameBuffer[l], s.frameBufferLength[l], mtu, longest);
    var t := s.(timers := s.timers[l := false]);
    if s.frameBuffer[l] != [] && l in s.available {
      var p := Packet(l, Filled(s.frameBuffer[l], l));
      LengthsOne(s.frameBuffer[l][0]);
      SmallOne(p, s.frameBuffer[l], mtu, longest);
      FlushSized(t, mtu, longest, l, [], p);
    }
  }

  lemma OnAvailableSized(s: State, mtu: nat, longest: nat, l: Level)
    requires Total(s) && Sized(s, mtu, longest) && Real(l)
    ensures Total(OnAvailable(s, l)) && Sized(OnAvailable(s, l), mtu, longest)
  {
    hide Lengths, Small, Counted;
    SmallAppend(s.sent, s.packetBuffer[l], mtu, longest);
    assert Small([], mtu, longest) by {
      SmallNone(mtu, longest);
    }
  }

  lemma SmallNone(mtu: nat, longest: nat)
    ensures Small([], mtu, longest)
  {
  }

  lemma StepSized(s: State, mtu: nat, longest: nat, e: Event)
    requires Total(s) && Routed(s) && Sized(s, mtu, longest) && mtu + longest < UINT16
    requires Enabled(s, e) && Modest(e, longest)
    ensures Total(Step(s, mtu, e)) && Sized(Step(s, mtu, e), mtu, longest)
  {
    hide Routed, OnFrame, OnRealTimer, OnAvailable, Lengths, Small;
    match e
    case FrameQueued(item) => OnFrameSized(s, mtu, longest, item);
    case TimerFired(l) => OnRealTimerSized(s, mtu, longest, l);
    case LevelAvailable(l, _) => OnAvailableSized(s, mtu, longest, l);
  }

  lemma StartSized(mtu: nat, longest: nat)
    ensures Total(START) && Sized(START, mtu, longest)
  {
    hide Sound, Routed;
    StartSound();
    SoundRouted(START, []);
    forall l ensures Counted(START.frameBuffer[l], START.frameBufferLength[l], mtu, longest) && !START.timers[l] {
      EveryLevel(l);
    }
  }

  /** While frames of at most `longest` bytes are submitted at real levels, every packet is made of buffered
      frames that take no more than the MTU and one further frame; merging their ACK frames may change that. */
  lemma {:induction false} PacketsExceedByOneFrame(mtu: nat, longest: nat, events: seq<Event>, s: State)
    requires Reaches(mtu, events, s) && AllModest(events, longest) && mtu + longest < UINT16
    ensures Total(s) && Routed(s) && Sized(s, mtu, longest)
    decreases |events|
  {
    hide Step, Enabled, Total, Routed, Sized, Sound;
    if events == [] {
      StartSized(mtu, longest);
      StartSound();
      SoundRouted(START, []);
    } else {
      var n := |events| - 1;
      var r :| Reaches(mtu, events[..n], r) && Total(r) && Enabled(r, events[n]) && s == Step(r, mtu, events[n]);
      PacketsExceedByOneFrame(mtu, longest, events[..n], r);
      assert Modest(events[n], longest);
      StepRouted(r, mtu, events[n]);
      StepSized(r, mtu, longest, events[n]);
    }
  }

  lemma ReachesNext(mtu: nat, events: seq<Event>, r: State, e: Event)
    requires Reaches(mtu, events, r) && Total(r) && Routed(r) && Enabled(r, e)
    ensures var s := Step(r, mtu, e); Reaches(mtu, events + [e], s) && Total(s) && Routed(s)
  {
    hide Step, Enabled, Total, Routed;
    StepRouted(r, mtu, e);
    var n := |events|;
    assert (events + [e])[..n] == events && (events + [e])[n] == e;
  }

  /** The events lead to a state where the Initial level holds these frames, counted as `length`, and these
      packets were sent. */
  ghost predicate Looks(mtu: nat, events: seq<Event>, s: State, items: seq<Item>, length: nat, sent: seq<Packet>) {
    && Total(s) && Routed(s) && Reaches(mtu, events, s)
    && s.frameBuffer[Initial] == items && s.frameBufferLength[Initial] == length
    && s.sent == sent && (items != [] ==> s.timers[Initial])
  }

  lemma {:induction false} NoAcksFiltered(items: seq<Item>)
    requires forall i :: 0 <= i < |items| ==> !items[i].frame.Ack?
    ensures NonAcks(items) == items && AckFrames(items) == []
    decreases |items|
  {
    if items != [] {
      NoAcksFiltered(items[1..]);
    }
  }

  lemma FillsWith(items: seq<Item>)
    requires forall i :: 0 <= i < |items| ==> !items[i].frame.Ack?
    ensures Filled(items, Initial) == items
  {
    NoAcksFiltered(items);
    assert items + [] == items;
  }

  lemma StartLooks(mtu: nat)
    ensures Looks(mtu, [], START, [], 0, [])
  {
    StartSound();
    SoundRouted(START, []);
  }

  lemma Fits(mtu: nat, events: seq<Event>, s: State, item: Item, items: seq<Item>, length: nat, sent: seq<Packet>)
    requires Looks(mtu, events, s, items, length, sent) && length + item.length <= mtu < UINT16
    requires Wellformed(item) && item.origin == Initial
    ensures Looks(mtu, events + [FrameQueued(item)], OnFrame(s, mtu, item), items + [item], length + item.length, sent)
  {
    hide Wellformed, Overflow, Routed, Reaches, Total, Wrap;
    TotalAt(s, Initial);
    InitialAvailable(s);
    WrapSmall(length + item.length);
    ReachesNext(mtu, events, s, FrameQueued(item));
  }

  lemma InitialAvailable(s: State)
    requires Total(s) && Routed(s)
    ensures Initial in s.available
  {
  }

  lemma Overflows(mtu: nat, events: seq<Event>, s: State, item: Item, items: seq<Item>, length: nat, sent: seq<Packet>)
    requires Looks(mtu, events, s, items, length, sent) && mtu < length + item.length < UINT16
    requires Wellformed(item) && item.origin == Initial
    requires items != [] && Filled(items, Initial) == items
    ensures Looks(mtu, events + [FrameQueued(item)], OnFrame(s, mtu, item), [item], 0, sent + [Packet(Initial, items)])
  {
    hide Wellformed, Filled, Waiting, HeldBack, SentRight, Reaches;
    ReachesNext(mtu, events, s, FrameQueued(item));
  }

  lemma TimerSends(mtu: nat, events: seq<Event>, s: State, items: seq<Item>, length: nat, sent: seq<Packet>)
    requires Looks(mtu, events, s, items, length, sent) && items != [] && Filled(items, Initial) == items
    ensures Looks(mtu, events + [TimerFired(Initial)], OnRealTimer(s, Initial), [], 0, sent + [Packet(Initial, items)])
  {
    hide Filled, Waiting, HeldBack, SentRight, Reaches;
    ReachesNext(mtu, events, s, TimerFired(Initial));
  }

  const PAD := Item(Padding, 1, Initial)

  function Pads(n: nat): seq<Item> {
    seq(n, _ => PAD)
  }

  function PadEvents(n: nat): seq<Event> {
    seq(n, _ => FrameQueued(PAD))
  }

  /** n padding frames that fit are buffered and counted. */
  lemma {:induction false} FillUp(mtu: nat, events: seq<Event>, s: State, items: seq<Item>, length: nat, sent: seq<Packet>, n: nat)
    returns (t: State)
    requires Looks(mtu, events, s, items, length, sent) && length + n <= mtu < UINT16
    ensures Looks(mtu, events + PadEvents(n), t, items + Pads(n), length + n, sent)
    decreases n
  {
    hide OnFrame, Reaches, Total, Routed;
    if n == 0 {
      assert events + PadEvents(0) == events && items + Pads(0) == items;
      t := s;
    } else {
      var r := FillUp(mtu, events, s, items, length, sent, n - 1);
      Fits(mtu, events + PadEvents(n - 1), r, PAD, items + Pads(n - 1), length + (n - 1), sent);
      assert events + PadEvents(n - 1) + [FrameQueued(PAD)] == events + PadEvents(n);
      assert items + Pads(n - 1) + [PAD] == items + Pads(n);
      t := OnFrame(r, mtu, PAD);
    }
  }

  lemma {:induction false} PadsLength(n: nat)
    ensures Lengths(Pads(n)) == n
    decreases n
  {
    if n > 0 {
      assert Pads(n)[1..] == Pads(n - 1);
      PadsLength(n - 1);
    }
  }

  /** A frame of every length: padding, or a STREAM frame without length and offset. */
  lemma FrameOfLength(n: nat) returns (item: Item)
    requires 1 <= n < UINT16
    ensures Wellformed(item) && item.length == n && item.origin == Initial && !item.frame.Ack?
  {
    if n == 1 {
      item := PAD;
    } else {
      item := Item(Stream(false, false, false, 0, 0, n - 2, seq(n - 2, _ => 0)), n, Initial);
    }
  }

  /** The bound is met: for every MTU and every `longest`, a run of frames no longer than that sends a packet
      that holds the MTU and a further frame of length `longest`. */
  lemma BoundIsReached(mtu: nat, longest: nat) returns (events: seq<Event>, s: State)
    requires 1 <= mtu && 1 <= longest && mtu + longest < UINT16
    ensures Reaches(mtu, events, s) && AllModest(events, longest)
    ensures |s.sent| == 2 && Lengths(s.sent[1].items) == mtu + longest
  {
    hide OnFrame, OnRealTimer, Filled, Lengths, Reaches, Total, Routed;
    var item := FrameOfLength(longest);
    StartLooks(mtu);
    var s1 := FillUp(mtu, [], START, [], 0, [], mtu);
    var first, second := [] + Pads(mtu), [item] + Pads(mtu);
    FillsWith(first);
    Overflows(mtu, [] + PadEvents(mtu), s1, item, first, mtu, []);
    var sent := [] + [Packet(Initial, first)];
    var s2 := OnFrame(s1, mtu, item);
    var s3 := FillUp(mtu, [] + PadEvents(mtu) + [FrameQueued(item)], s2, [item], 0, sent, mtu);
    FillsWith(second);
    events := [] + PadEvents(mtu) + [FrameQueued(item)] + PadEvents(mtu);
    TimerSends(mtu, events, s3, second, mtu, sent);
    events := events + [TimerFired(Initial)];
    s := OnRealTimer(s3, Initial);
    LooksReached(mtu, events, s, [], 0, sent + [Packet(Initial, second)]);
    LengthsOne(item);
    PadsLength(mtu);
    LengthsAppend([item], Pads(mtu));
    assert AllModest(events, longest);
  }

  lemma LooksReached(mtu: nat, events: seq<Event>, s: State, items: seq<Item>, length: nat, sent: seq<Packet>)
    requires Looks(mtu, events, s, items, length, sent)
    ensures Reaches(mtu, events, s) && s.sent == sent
  {
  }

  // ----- Frames moved from a Best buffer are not checked against the MTU

  /** The Initial level is the only one with keys; it and Best hold these frames, and nothing was left behind. */
  ghost predicate Holds(mtu: nat, events: seq<Event>, s: State, initial: seq<Item>, best: seq<Item>) {
    && Total(s) && Routed(s) && Marks(mtu, events, s, {}) && s.available == {Initial}
    && s.frameBuffer[Initial] == initial && s.frameBufferLength[Initial] == Wrap(Lengths(initial))
    && s.frameBuffer[Best] == best && s.frameBufferLength[Best] == Wrap(Lengths(best))
    && (initial != [] ==> s.timers[Initial]) && (best != [] ==> s.timers[Best])
  }

  lemma StartHolds(mtu: nat)
    ensures Holds(mtu, [], START, [], [])
  {
    StartSound();
    SoundRouted(START, []);
  }

  lemma MarksNext(mtu: nat, events: seq<Event>, r: State, b: set<Level>, e: Event)
    requires Marks(mtu, events, r, b) && Total(r) && Routed(r) && Enabled(r, e)
    ensures var s := Step(r, mtu, e); Marks(mtu, events + [e], s, Behind(r, mtu, e, b)) && Total(s) && Routed(s)
  {
    hide Step, Enabled, Total, Routed, Behind;
    StepRouted(r, mtu, e);
    var n := |events|;
    assert (events + [e])[..n] == events && (events + [e])[n] == e;
  }

  /** The first frame at a level fits when it is no longer than the MTU. */
  lemma FirstFits(mtu: nat, events: seq<Event>, s: State, initial: seq<Item>, item: Item)
    requires Holds(mtu, events, s, initial, []) && Wellformed(item) && item.length <= mtu
    requires item.origin == Best || (item.origin == Initial && initial == [])
    ensures var t := OnFrame(s, mtu, item);
      if item.origin == Best then Holds(mtu, events + [FrameQueued(item)], t, initial, [item])
      else Holds(mtu, events + [FrameQueued(item)], t, [item], [])
  {
    hide Wellformed, Overflow, Routed, Marks, Lengths, Wrap, Total;
    TotalAt(s, item.origin);
    TotalAt(s, Initial);
    LengthsOne(item);
    NothingWraps();
    assert [] + [item] == [item] && 0 + item.length == item.length;
    assert s.frameBufferLength[item.origin] == 0;
    WrapAtMost(item.length);
    MarksNext(mtu, events, s, {}, FrameQueued(item));
  }

  lemma WrapAtMost(n: nat)
    ensures Wrap(n) <= n
  {
  }

  lemma BestMoves(mtu: nat, events: seq<Event>, s: State, initial: seq<Item>, best: seq<Item>)
    requires Holds(mtu, events, s, initial, best) && best != []
    ensures Holds(mtu, events + [TimerFired(Best)], OnBestTimer(s, Best), initial + best, [])
  {
    hide Routed, Marks, Lengths, Wrap, Total;
    TotalAt(s, Initial);
    TotalAt(s, Best);
    LengthsAppend(initial, best);
    WrapTwice(Lengths(initial), Lengths(best));
    NothingWraps();
    MarksNext(mtu, events, s, {}, TimerFired(Best));
  }

  lemma NothingWraps()
    ensures Wrap(Lengths([])) == 0
  {
  }

  /** Nothing need be left behind for a packet to exceed the MTU: for any two frames no longer than the MTU, one
      submitted at the Initial level and one at Best, the Initial timer forms a packet of both. */
  lemma MovedFramesExceed(mtu: nat, a: Item, b: Item) returns (events: seq<Event>, s: State)
    requires Wellformed(a) && Wellformed(b) && a.length <= mtu && b.length <= mtu
    requires a.origin == Initial && b.origin == Best && !a.frame.Ack? && !b.frame.Ack?
    ensures Marks(mtu, events, s, {}) && Total(s) && Enabled(s, TimerFired(Initial))
    ensures Formed(s, mtu, TimerFired(Initial)) == Some(Packet(Initial, [a, b]))
    ensures Lengths([a, b]) == a.length + b.length
  {
    hide OnFrame, OnBestTimer, Filled, Lengths, Wellformed, Marks, Total, Routed, Wrap;
    StartHolds(mtu);
    events := [] + [FrameQueued(a)];
    FirstFits(mtu, [], START, [], a);
    s := OnFrame(START, mtu, a);
    FirstFits(mtu, events, s, [a], b);
    events, s := events + [FrameQueued(b)], OnFrame(s, mtu, b);
    BestMoves(mtu, events, s, [a], [b]);
    events, s := events + [TimerFired(Best)], OnBestTimer(s, Best);
    assert [a] + [b] == [a, b];
    FillsWith([a, b]);
    HoldsForms(mtu, events, s, [a, b]);
    LengthsTwo(a, b);
  }

  lemma HoldsForms(mtu: nat, events: seq<Event>, s: State, items: seq<Item>)
    requires Holds(mtu, events, s, items, []) && items != []
    ensures Marks(mtu, events, s, {}) && Total(s) && Enabled(s, TimerFired(Initial))
    ensures Formed(s, mtu, TimerFired(Initial)) == Some(Packet(Initial, Filled(items, Initial)))
  {
    hide Marks, Routed, Filled;
  }

  // ----- Merging can make a packet longer

  lemma TwoAcks(i: Item, j: Item)
    requires i.frame.Ack? && j.frame.Ack?
    ensures AckFrames([i, j]) == [i.frame.ack, j.frame.ack] && AckItems([i, j]) == [i, j]
  {
    assert [i, j][1..] == [j] && [j][1..] == [];
    assert AckFrames([j]) == [j.frame.ack] && AckItems([j]) == [j];
  }

  lemma LengthsTwo(i: Item, j: Item)
    ensures Lengths([i, j]) == i.length + j.length
  {
    hide Lengths;
    LengthsOne(i);
    LengthsOne(j);
    LengthsAppend([i], [j]);
    assert [i] + [j] == [i, j];
  }

  /** The length of an ACK frame for one number. */
  lemma OneNumberLength(a: AckFrame)
    requires a.ackBlocks == [AckBlock(0, 0)] && a.ackDelay == 0 && a.ackBlockCount == 0 && EncodableAck(a)
    ensures FrameLength(Ack(a)) == 4 + VarIntLen(a.largestAcknowledged)
  {
    assert a.ackBlocks[1..] == [];
    assert BlocksLength(a.ackBlocks, true) == 1 + BlocksLength([], false);
  }

  /** Two ACK frames of together 17 bytes are merged into one of 21. */
  lemma MergingCanGrow(i: Item, j: Item)
    requires i.frame == Ack(AckFrame(0x100_0000_0000, 0, 0, [AckBlock(0, 0)]))
    requires j.frame == Ack(AckFrame(0, 0, 0, [AckBlock(0, 0)]))
    requires Wellformed(i) && Wellformed(j)
    ensures Lengths([i, j]) == 17 && MergeGrowth([i, j]) == 4
  {
    hide Merged, Lengths, AckFrames, AckItems, FrameLength;
    TwoAcks(i, j);
    LengthsTwo(i, j);
    OneNumberLength(i.frame.ack);
    OneNumberLength(j.frame.ack);
    FarApart(i.frame.ack, j.frame.ack);
  }

  lemma FarApart(f: AckFrame, g: AckFrame)
    requires f == AckFrame(0x100_0000_0000, 0, 0, [AckBlock(0, 0)]) && g == AckFrame(0, 0, 0, [AckBlock(0, 0)])
    ensures Merged([f, g]) == AckFrame(0x100_0000_0000, 0, 1, [AckBlock(0, 0), AckBlock(0xFF_FFFF_FFFF, 0)])
    ensures EncodableAck(Merged([f, g])) && FrameLength(Ack(Merged([f, g]))) == 21
  {
    hide Merged, Listed, Own, CollectedFrom;
    OnlyLargest(f);
    OnlyLargest(g);
    TwoCollected(f, g);
    var l := [f.largestAcknowledged, 0];
    assert ListsCollected([f, g], l);
    MergedIs([f, g], l);
    TwoLargest(f, g);
    assert l[1..] == [0] && [0][1..] == [];
    var start := AckBlock(0xFF_FFFF_FFFF, 0);
    assert Blocks(0, start, [], 1) == [start];
    assert Blocks(f.largestAcknowledged, AckBlock(0, 0), [0], 1) == [AckBlock(0, 0)] + [start];
    var blocks := [AckBlock(0, 0), start];
    assert Merged([f, g]).ackBlocks == blocks;
    assert blocks[1..] == [start] && [start][1..] == [];
    assert BlocksLength([start], false) == 9 + BlocksLength([], false);
  }

  lemma TwoLargest(f: AckFrame, g: AckFrame)
    requires f.largestAcknowledged >= g.largestAcknowledged
    ensures MaxLargest([f, g]) == f.largestAcknowledged
  {
    assert [f, g][..1] == [f] && [f][..0] == [];
    assert MaxLargest([f]) == f.largestAcknowledged;
  }
}
