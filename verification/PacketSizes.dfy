/** How much the sending agent counts, and how much it puts into one packet (agents/send_agent.go:44-123). */
module PacketSizes {
  import opened Frames
  import opened Wrappers
  import opened MergedAcks
  import opened SendingAgents
  import opened SendingRuns

  lemma {:induction false} LengthsAppend(a: seq<Item>, b: seq<Item>)
    ensures Lengths(a + b) == Lengths(a) + Lengths(b)
    decreases |a|
  {
    if a == [] {
      assert a + b == b;
    } else {
      assert (a + b)[1..] == a[1..] + b;
      LengthsAppend(a[1..], b);
    }
  }

  lemma LengthsOne(item: Item)
    ensures Lengths([item]) == item.length && Lengths([]) == 0
  {
    assert Lengths([item][1..]) == 0;
  }

  // ----- The size of a packet against its buffer

  lemma {:induction false} LengthsSplit(items: seq<Item>)
    ensures Lengths(items) == Lengths(NonAcks(items)) + Lengths(AckItems(items))
    decreases |items|
  {
    if items != [] {
      LengthsSplit(items[1..]);
      if items[0].frame.Ack? {
        assert AckItems(items)[1..] == AckItems(items[1..]);
      } else {
        assert NonAcks(items)[1..] == NonAcks(items[1..]);
      }
    }
  }

  /** By how much merging its ACK frames makes a packet longer, or shorter, than the frames buffered. */
  ghost function MergeGrowth(items: seq<Item>): int {
    if |AckFrames(items)| <= 1 then 0
    else MergedItem(Merged(AckFrames(items)), Initial).length - Lengths(AckItems(items))
  }

  lemma FilledSize(items: seq<Item>, l: Level)
    ensures Lengths(Filled(items, l)) == Lengths(items) + MergeGrowth(items)
  {
    hide Merged, FrameLength, Lengths;
    LengthsSplit(items);
    if |AckFrames(items)| <= 1 {
      LengthsAppend(NonAcks(items), AckItems(items));
    } else {
      var ack := MergedItem(Merged(AckFrames(items)), l);
      LengthsAppend(NonAcks(items), [ack]);
      LengthsOne(ack);
    }
  }

  // ----- The counted length

  /** `left` says that the oldest frame was left in the buffer by an overflow; it is the only one that is not
      counted, in 16-bit arithmetic. */
  ghost predicate Measured(items: seq<Item>, length: nat, left: bool) {
    (left ==> items != []) && length == Wrap(Lengths(CountedItems(items, left)))
  }

  function CountedItems(items: seq<Item>, left: bool): seq<Item> {
    if left && items != [] then items[1..] else items
  }

  /** The levels whose oldest frame was left behind, after an event. */
  ghost function Behind(s: State, mtu: nat, e: Event, behind: set<Level>): set<Level>
    requires Total(s) && Enabled(s, e)
  {
    match e
    case FrameQueued(item) =>
      var l := Target(s.available, item.origin);
      if Wrap(s.frameBufferLength[item.origin] + item.length) <= mtu then behind
      else if s.frameBuffer[l] == [] then behind - {l}
      else behind + {l}
    case TimerFired(l) => if Real(l) && s.frameBuffer[l] != [] && l in s.available then behind - {l} else behind
    case LevelAvailable(_, _) => behind
  }

  /** s is reached through the events, and these levels have left a frame behind. */
  ghost predicate Marks(mtu: nat, events: seq<Event>, s: State, behind: set<Level>)
    decreases |events|
  {
    if events == [] then s == START && behind == {}
    else
      var n := |events| - 1;
      exists r, b :: Marks(mtu, events[..n], r, b) && Total(r) && Enabled(r, events[n]) &&
        s == Step(r, mtu, events[n]) && behind == Behind(r, mtu, events[n], b)
  }

  /** Every reachable state has its marks. */
  lemma {:induction false} ReachedWithMarks(mtu: nat, events: seq<Event>, s: State) returns (behind: set<Level>)
    requires Reaches(mtu, events, s)
    ensures Marks(mtu, events, s, behind)
    decreases |events|
  {
    hide Step, Enabled, Total, Behind;
    if events == [] {
      behind := {};
    } else {
      var n := |events| - 1;
      var r :| Reaches(mtu, events[..n], r) && Total(r) && Enabled(r, events[n]) && s == Step(r, mtu, events[n]);
      var b := ReachedWithMarks(mtu, events[..n], r);
      behind := Behind(r, mtu, events[n], b);
    }
  }

  ghost predicate AllMeasured(s: State, behind: set<Level>)
    requires Total(s)
  {
    (forall l :: Measured(s.frameBuffer[l], s.frameBufferLength[l], l in behind)) && (forall l :: l in behind ==> Real(l))
  }

  lemma WrapTwice(x: nat, y: nat)
    ensures Wrap(Wrap(x) + y) == Wrap(x + y)
  {
  }

  lemma WrapAppend(items: seq<Item>, more: seq<Item>)
    ensures Wrap(Wrap(Lengths(items)) + Lengths(more)) == Wrap(Lengths(items + more))
  {
    hide Wrap, Lengths;
    LengthsAppend(items, more);
    WrapTwice(Lengths(items), Lengths(more));
  }

  lemma CountedAppend(items: seq<Item>, left: bool, more: seq<Item>)
    requires left ==> items != []
    ensures CountedItems(items + more, left) == CountedItems(items, left) + more
  {
  }

  lemma MeasuredAppend(items: seq<Item>, length: nat, left: bool, more: seq<Item>)
    requires Measured(items, length, left)
    ensures Measured(items + more, Wrap(length + Lengths(more)), left)
  {
    hide Wrap, Lengths, CountedItems;
    CountedAppend(items, left, more);
    WrapAppend(CountedItems(items, left), more);
  }

  lemma MeasuredLeft(item: Item)
    ensures Measured([], 0, false) && Measured([item], 0, true)
  {
    assert [item][1..] == [];
  }

  lemma FlushMeasured(s: State, l: Level, left: seq<Item>, p: Packet, behind: set<Level>, after: set<Level>)
    requires Total(s) && Total(Flushed(s, l, left, p)) && AllMeasured(s, behind) && Real(l)
    requires Measured(left, 0, l in after) && forall k :: k != l ==> (k in after <==> k in behind)
    ensures AllMeasured(Flushed(s, l, left, p), after)
  {
    hide Measured, Flushed;
    FlushedFields(s, l, left, p);
  }

  lemma OverflowMeasured(s: State, item: Item, behind: set<Level>)
    requires Total(s) && Routed(s) && AllMeasured(s, behind) && Wellformed(item)
    ensures var l := Target(s.available, item.origin);
      && Total(Overflow(s, item))
      && AllMeasured(Overflow(s, item), if s.frameBuffer[l] == [] then behind - {l} else behind + {l})
  {
    hide Filled, Flushed, Routed, Wellformed, Target, Measured, AllMeasured;
    OverflowRouted(s, item);
    var l := Target(s.available, item.origin);
    assert Real(l) by {
      TargetReal(s, item.origin);
    }
    MeasuredLeft(item);
    FilledEmptyIff(s.frameBuffer[l], l);
    if s.frameBuffer[l] == [] {
      FlushMeasured(s, l, [], Packet(l, [item]), behind, behind - {l});
    } else {
      FlushMeasured(s, l, [item], Packet(l, Filled(s.frameBuffer[l], l)), behind, behind + {l});
    }
  }

  lemma TargetReal(s: State, origin: Level)
    requires Total(s) && Routed(s)
    ensures Real(Target(s.available, origin))
  {
  }

  lemma AppendMeasured(s: State, mtu: nat, item: Item, behind: set<Level>)
    requires Total(s) && AllMeasured(s, behind) && Wrap(s.frameBufferLength[item.origin] + item.length) <= mtu
    ensures Total(OnFrame(s, mtu, item)) && AllMeasured(OnFrame(s, mtu, item), behind)
  {
    hide Overflow, Measured, Lengths, Wrap;
    var l := item.origin;
    LengthsOne(item);
    MeasuredAppend(s.frameBuffer[l], s.frameBufferLength[l], l in behind, [item]);
  }

  lemma OnFrameMeasured(s: State, mtu: nat, item: Item, behind: set<Level>)
    requires Total(s) && Routed(s) && AllMeasured(s, behind) && Wellformed(item)
    ensures Total(OnFrame(s, mtu, item)) && AllMeasured(OnFrame(s, mtu, item), Behind(s, mtu, FrameQueued(item), behind))
  {
    hide Overflow, Routed, Wellformed, AllMeasured, Wrap, Target;
    if Wrap(s.frameBufferLength[item.origin] + item.length) <= mtu {
      AppendMeasured(s, mtu, item, behind);
    } else {
      OverflowMeasured(s, item, behind);
    }
  }

  lemma OnRealTimerMeasured(s: State, l: Level, behind: set<Level>)
    requires Total(s) && Routed(s) && AllMeasured(s, behind) && Real(l)
    ensures Total(OnRealTimer(s, l))
    ensures AllMeasured(OnRealTimer(s, l), if s.frameBuffer[l] != [] && l in s.available then behind - {l} else behind)
  {
    hide Filled, Flushed, Routed, Measured;
    OnRealTimerRouted(s, l);
    var t := s.(timers := s.timers[l := false]);
    if s.frameBuffer[l] != [] && l in s.available {
      MeasuredLeft(s.frameBuffer[l][0]);
      FlushMeasured(t, l, [], Packet(l, Filled(s.frameBuffer[l], l)), behind, behind - {l});
    }
  }

  lemma OnBestTimerMeasured(s: State, l: Level, behind: set<Level>)
    requires Total(s) && Routed(s) && AllMeasured(s, behind) && !Real(l)
    ensures Total(OnBestTimer(s, l)) && AllMeasured(OnBestTimer(s, l), behind)
  {
    hide Routed, ChooseBest, Lengths, Measured, Wrap;
    OnBestTimerRouted(s, l);
    var e := ChooseBest(s.available, l == BestAppData);
    MeasuredAppend(s.frameBuffer[e], s.frameBufferLength[e], e in behind, s.frameBuffer[l]);
    MeasuredLeft(Item(Padding, 1, l));
  }

  lemma StepMeasured(s: State, mtu: nat, e: Event, behind: set<Level>)
    requires Total(s) && Routed(s) && AllMeasured(s, behind) && Enabled(s, e)
    ensures Total(Step(s, mtu, e)) && AllMeasured(Step(s, mtu, e), Behind(s, mtu, e, behind))
  {
    hide Routed, Total, Measured, OnFrame, OnRealTimer, OnBestTimer, Wrap;
    StepRouted(s, mtu, e);
    match e
    case FrameQueued(item) => OnFrameMeasured(s, mtu, item, behind);
    case TimerFired(l) => if Real(l) { OnRealTimerMeasured(s, l, behind); } else { OnBestTimerMeasured(s, l, behind); }
    case LevelAvailable(l, _) => {}
  }

  lemma StartMeasured()
    ensures Total(START) && Routed(START) && AllMeasured(START, {})
  {
    hide Sound, Routed;
    StartSound();
    SoundRouted(START, []);
    forall l ensures Measured(START.frameBuffer[l], START.frameBufferLength[l], l in {}) {
      EveryLevel(l);
      MeasuredLeft(Item(Padding, 1, l));
    }
  }

  /** In every run the counted length of a buffer is its true length, less exactly the frame an overflow has
      left behind in it, in 16-bit arithmetic. */
  lemma {:induction false} OnlyTheLeftBehindIsMissed(mtu: nat, events: seq<Event>, s: State, behind: set<Level>)
    requires Marks(mtu, events, s, behind)
    ensures Total(s) && Routed(s) && AllMeasured(s, behind)
    decreases |events|
  {
    hide Step, Enabled, Total, Routed, AllMeasured, Behind;
    if events == [] {
      StartMeasured();
    } else {
      var n := |events| - 1;
      var r, b :| Marks(mtu, events[..n], r, b) && Total(r) && Enabled(r, events[n]) &&
        s == Step(r, mtu, events[n]) && behind == Behind(r, mtu, events[n], b);
      OnlyTheLeftBehindIsMissed(mtu, events[..n], r, b);
      StepRouted(r, mtu, events[n]);
      StepMeasured(r, mtu, events[n], b);
    }
  }

  // ----- The packet an event forms

  /** The packet formed by an event, if any. */
  ghost function Formed(s: State, mtu: nat, e: Event): Option<Packet>
    requires Total(s) && Enabled(s, e)
  {
    match e
    case FrameQueued(item) =>
      var l := Target(s.available, item.origin);
      if Wrap(s.frameBufferLength[item.origin] + item.length) <= mtu then None
      else Some(Packet(l, if s.frameBuffer[l] == [] then [item] else Filled(s.frameBuffer[l], l)))
    case TimerFired(l) =>
      if Real(l) && s.frameBuffer[l] != [] && l in s.available then Some(Packet(l, Filled(s.frameBuffer[l], l))) else None
    case LevelAvailable(_, _) => None
  }

  /** The packet formed is what the event sends or holds back. */
  lemma FormedLeaves(s: State, mtu: nat, e: Event)
    requires Total(s) && Routed(s) && Enabled(s, e) && Formed(s, mtu, e).Some?
    ensures var p, t := Formed(s, mtu, e).value, Step(s, mtu, e);
      if p.level in s.available then t.sent == s.sent + [p] && t.packetBuffer == s.packetBuffer
      else t.sent == s.sent && t.packetBuffer == s.packetBuffer[p.level := s.packetBuffer[p.level] + [p]]
  {
    hide Filled, Routed, Wrap, Target;
    if e.FrameQueued? {
      var l := Target(s.available, e.item.origin);
      FilledEmptyIff(s.frameBuffer[l], l);
    }
  }

  /** What is missing from the counted length of a level's buffer. */
  function Uncounted(s: State, behind: set<Level>, l: Level): nat
    requires l in s.frameBuffer
  {
    if l in behind && s.frameBuffer[l] != [] then s.frameBuffer[l][0].length else 0
  }

  /** In every run, for every packet that is formed.  From a buffer: its size is that of the buffered frames
      plus what merging ACK frames adds, and the agent has counted those frames, modulo 2^16, less the one left
      behind; below 2^16 bytes it exceeds the MTU exactly when the counted length, the frame left behind and the
      growth by merging do.  From an empty buffer: it is the frame that does not fit. */
  lemma PacketExceedsIff(mtu: nat, events: seq<Event>, s: State, behind: set<Level>, e: Event)
    requires Marks(mtu, events, s, behind) && Total(s) && Enabled(s, e) && Formed(s, mtu, e).Some?
    ensures var p := Formed(s, mtu, e).value;
      var l := p.level;
      var items := s.frameBuffer[l];
      && (items != [] ==>
            && Uncounted(s, behind, l) <= Lengths(items)
            && s.frameBufferLength[l] == Wrap(Lengths(items) - Uncounted(s, behind, l))
            && Lengths(p.items) == Lengths(items) + MergeGrowth(items))
      && (items != [] && Lengths(items) < UINT16 ==>
            (Lengths(p.items) > mtu <==>
             s.frameBufferLength[l] + Uncounted(s, behind, l) + MergeGrowth(items) > mtu))
      && (items == [] ==> e.FrameQueued? && p.items == [e.item] && (Real(e.item.origin) ==> e.item.length > mtu))
  {
    hide Marks, Filled, MergeGrowth, AckFrames, Routed, Target, Wrap;
    OnlyTheLeftBehindIsMissed(mtu, events, s, behind);
    var l := Formed(s, mtu, e).value.level;
    var items := s.frameBuffer[l];
    FilledSize(items, l);
    assert Measured(items, s.frameBufferLength[l], l in behind);
    if items != [] {
      assert Lengths(items) == items[0].length + Lengths(items[1..]);
      WrapSmall(Lengths(items) - Uncounted(s, behind, l));
    } else {
      TargetOwn(s.available, e.item.origin);
      WrapSmall(Lengths(items));
      WrapSmall(e.item.length);
    }
  }

  /** Where the counted length is within the MTU and at most one ACK frame is buffered, only a frame that was
      left behind makes a packet too long. */
  lemma OnlyTheLeftBehindExceeds(mtu: nat, events: seq<Event>, s: State, behind: set<Level>, e: Event)
    requires Marks(mtu, events, s, behind) && Total(s) && Enabled(s, e) && Formed(s, mtu, e).Some?
    requires var l := Formed(s, mtu, e).value.level;
      && s.frameBuffer[l] != [] && Lengths(s.frameBuffer[l]) < UINT16
      && |AckFrames(s.frameBuffer[l])| <= 1 && s.frameBufferLength[l] <= mtu
    ensures var p := Formed(s, mtu, e).value;
      Lengths(p.items) > mtu <==>
      p.level in behind && s.frameBufferLength[p.level] + s.frameBuffer[p.level][0].length > mtu
  {
    hide Marks, Filled, MergeGrowth, AckFrames, Formed, Lengths, Enabled;
    PacketExceedsIff(mtu, events, s, behind, e);
    NoGrowth(s.frameBuffer[Formed(s, mtu, e).value.level]);
  }

  lemma TargetOwn(available: set<Level>, origin: Level)
    ensures Real(origin) ==> Target(available, origin) == origin
  {
  }

  lemma WrapSmall(n: nat)
    ensures n < UINT16 ==> Wrap(n) == n
  {
  }

  lemma NoGrowth(items: seq<Item>)
    ensures |AckFrames(items)| <= 1 ==> MergeGrowth(items) == 0
  {
  }
}
