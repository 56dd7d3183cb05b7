/** Whole runs of the sending agent: order, conservation, and what has been sent once its timers are silent. */
module SendingRuns {
  import opened SendingAgents

  // ----- Order: the frames of one real level

  lemma {:induction false} PickNothing(items: seq<Item>, o: Level)
    requires forall i :: 0 <= i < |items| ==> items[i].origin != o
    ensures Pick(items, o) == []
    decreases |items|
  {
    if items != [] {
      PickNothing(items[1..], o);
    }
  }

  lemma WaitElsewhere(items: seq<Item>, l: Level, available: set<Level>, o: Level)
    requires Waiting(items, l, available) && !MayWait(o, l, available)
    ensures Pick(items, o) == []
  {
    PickNothing(items, o);
  }

  lemma {:induction false} HeldElsewhere(packets: seq<Packet>, l: Level, o: Level)
    requires HeldBack(packets, l) && !MayHold(o, l)
    ensures Pick(Flat(packets), o) == []
    decreases |packets|
  {
    if packets != [] {
      HeldElsewhere(packets[1..], l, o);
      assert Holding(packets[0].items, l);
      PickNothing(packets[0].items, o);
      PickAppend(packets[0].items, Flat(packets[1..]), o);
    }
  }

  /** The non-ACK frames submitted at level o: sent, then held back, then waiting. */
  ghost function Line(s: State, o: Level): seq<Item>
    requires Total(s)
  {
    Pick(Flat(s.sent), o) + Pick(Flat(s.packetBuffer[o]), o) + Pick(s.frameBuffer[o], o)
  }

  lemma PickFlatSnoc(packets: seq<Packet>, p: Packet, o: Level)
    ensures Pick(Flat(packets + [p]), o) == Pick(Flat(packets), o) + Pick(p.items, o)
  {
    FlatSnoc(packets, p);
    PickAppend(Flat(packets), p.items, o);
  }

  lemma LineShift(a: seq<Item>, b: seq<Item>, c: seq<Item>, d: seq<Item>)
    ensures a + (b + c) + d == a + b + c + d
    ensures b == [] ==> (a + c) + b + d == a + b + c + d
  {
    assert a + (b + c) == a + b + c;
  }

  /** Where a flush puts the packet. */
  lemma FlushedPackets(s: State, l: Level, left: seq<Item>, p: Packet)
    requires Total(s)
    ensures var t := Flushed(s, l, left, p);
      if l in s.available then t.sent == s.sent + [p] && t.packetBuffer == s.packetBuffer
      else t.sent == s.sent && t.packetBuffer == s.packetBuffer[l := s.packetBuffer[l] + [p]]
  {
    hide Total;
  }

  lemma FlushedLine(s: State, l: Level, left: seq<Item>, p: Packet, o: Level)
    requires Total(s) && Total(Flushed(s, l, left, p))
    requires l in s.available ==> s.packetBuffer[l] == []
    requires l != o ==> Pick(p.items, o) == []
    ensures l != o ==> Line(Flushed(s, l, left, p), o) == Line(s, o)
    ensures l == o ==>
      Line(Flushed(s, l, left, p), o) ==
      Pick(Flat(s.sent), o) + Pick(Flat(s.packetBuffer[o]), o) + Pick(p.items, o) + Pick(left, o)
  {
    hide Pick, Flat, Flushed;
    FlushedFields(s, l, left, p);
    FlushedPackets(s, l, left, p);
    LineShift(Pick(Flat(s.sent), o), Pick(Flat(s.packetBuffer[o]), o), Pick(p.items, o), Pick(left, o));
    if l in s.available {
      FlatNothing();
      PickNothing([], o);
      PickFlatSnoc(s.sent, p, o);
      assert Pick(Flat(s.sent), o) + [] == Pick(Flat(s.sent), o);
    } else {
      PickFlatSnoc(s.packetBuffer[l], p, o);
    }
  }

  lemma PickOne(item: Item, o: Level)
    ensures Pick([item], o) == if !item.frame.Ack? && item.origin == o then [item] else []
  {
    assert Pick([item][1..], o) == [];
  }

  /** The packet and what stays behind, for the frame's own level and for the others. */
  lemma FlushedWith(s: State, l: Level, left: seq<Item>, p: Packet, o: Level, more: seq<Item>)
    requires Total(s) && Total(Flushed(s, l, left, p))
    requires l in s.available ==> s.packetBuffer[l] == []
    requires l != o ==> Pick(p.items, o) == [] && more == []
    requires l == o ==> Pick(p.items, o) + Pick(left, o) == Pick(s.frameBuffer[o], o) + more
    ensures Line(Flushed(s, l, left, p), o) == Line(s, o) + more
  {
    hide Pick, Flat, Flushed;
    FlushedLine(s, l, left, p, o);
    if l == o {
      var x := Pick(Flat(s.sent), o) + Pick(Flat(s.packetBuffer[o]), o);
      assert x + Pick(p.items, o) + Pick(left, o) == x + (Pick(p.items, o) + Pick(left, o));
      assert x + (Pick(s.frameBuffer[o], o) + more) == x + Pick(s.frameBuffer[o], o) + more;
    } else {
      assert Line(s, o) + [] == Line(s, o);
    }
  }

  lemma OverflowLine(s: State, item: Item, o: Level)
    requires Total(s) && Routed(s) && Wellformed(item) && Real(o)
    ensures Total(Overflow(s, item)) && Line(Overflow(s, item), o) == Line(s, o) + Pick([item], o)
  {
    hide Filled, Flushed, Waiting, HeldBack, SentRight, Wellformed, Pick, Flat, ChooseBest, Line;
    OverflowRouted(s, item);
    var l := Target(s.available, item.origin);
    var items := s.frameBuffer[l];
    FilledKeeps(items, l, o);
    FilledEmptyIff(items, l);
    PickNothing([], o);
    PickOne(item, o);
    if l != o {
      WaitElsewhere(items, l, s.available, o);
    }
    if items == [] {
      assert [] + Pick([item], o) == Pick([item], o) + [];
      FlushedWith(s, l, [], Packet(l, [item]), o, Pick([item], o));
    } else {
      FlushedWith(s, l, [item], Packet(l, Filled(items, l)), o, Pick([item], o));
    }
  }

  lemma OnFrameLine(s: State, mtu: nat, item: Item, o: Level)
    requires Total(s) && Routed(s) && Wellformed(item) && Real(o)
    ensures Total(OnFrame(s, mtu, item)) && Line(OnFrame(s, mtu, item), o) == Line(s, o) + Pick([item], o)
  {
    hide Overflow, Routed, Wellformed, Pick, Flat;
    OverflowLine(s, item, o);
    PickAppend(s.frameBuffer[item.origin], [item], o);
    PickOne(item, o);
  }

  lemma FlatNothing()
    ensures Flat([]) == []
  {
  }

  lemma OnRealTimerLine(s: State, l: Level, o: Level)
    requires Total(s) && Routed(s) && Real(l) && Real(o)
    ensures Total(OnRealTimer(s, l)) && Line(OnRealTimer(s, l), o) == Line(s, o)
  {
    hide Filled, Flushed, Waiting, HeldBack, SentRight, Pick, Flat;
    OnRealTimerRouted(s, l);
    var items := s.frameBuffer[l];
    if items != [] && l in s.available {
      FilledKeeps(items, l, o);
      PickNothing([], o);
      if l != o {
        WaitElsewhere(items, l, s.available, o);
      }
      FlushedWith(s.(timers := s.timers[l := false]), l, [], Packet(l, Filled(items, l)), o, []);
      assert Line(s, o) + [] == Line(s, o);
    }
  }

  lemma OnBestTimerLine(s: State, l: Level, o: Level)
    requires Total(s) && Routed(s) && !Real(l) && Real(o)
    ensures Total(OnBestTimer(s, l)) && Line(OnBestTimer(s, l), o) == Line(s, o)
  {
    hide Lengths, Waiting, HeldBack, SentRight, Pick, Flat, ChooseBest, Wrap;
    OnBestTimerRouted(s, l);
    var e := ChooseBest(s.available, l == BestAppData);
    var t := OnBestTimer(s, l);
    WaitElsewhere(s.frameBuffer[l], l, s.available, o);
    PickAppend(s.frameBuffer[e], s.frameBuffer[l], o);
    assert Pick(s.frameBuffer[e], o) + [] == Pick(s.frameBuffer[e], o);
    assert Pick(t.frameBuffer[o], o) == Pick(s.frameBuffer[o], o);
  }

  lemma OnAvailableLine(s: State, l: Level, o: Level)
    requires Total(s) && Routed(s) && Real(l) && Real(o)
    ensures Total(OnAvailable(s, l)) && Line(OnAvailable(s, l), o) == Line(s, o)
  {
    hide Waiting, HeldBack, SentRight, Pick, Flat, Total;
    OnAvailableRouted(s, l);
    TotalAt(s, l);
    TotalAt(s, o);
    var x, h := Pick(Flat(s.sent), o), Pick(Flat(s.packetBuffer[l]), o);
    assert Pick(Flat(s.sent + s.packetBuffer[l]), o) == x + h by {
      FlatAppend(s.sent, s.packetBuffer[l]);
      PickAppend(Flat(s.sent), Flat(s.packetBuffer[l]), o);
    }
    assert Pick(Flat([]), o) == [] by {
      FlatNothing();
      PickNothing([], o);
    }
    if l != o {
      HeldElsewhere(s.packetBuffer[l], l, o);
      assert x + [] == x;
    } else {
      assert x + h + [] == x + h;
    }
  }

  /** One step keeps the frames of a real level in order and adds what is submitted at the end. */
  lemma StepLine(s: State, mtu: nat, e: Event, o: Level)
    requires Total(s) && Routed(s) && Enabled(s, e) && Real(o)
    ensures Total(Step(s, mtu, e))
    ensures Line(Step(s, mtu, e), o) == Line(s, o) + (if e.FrameQueued? then Pick([e.item], o) else [])
  {
    hide Routed, Total, Line, OnFrame, OnRealTimer, OnBestTimer, OnAvailable;
    match e
    case FrameQueued(item) => OnFrameLine(s, mtu, item, o);
    case TimerFired(l) => if Real(l) { OnRealTimerLine(s, l, o); } else { OnBestTimerLine(s, l, o); }
    case LevelAvailable(l, _) => OnAvailableLine(s, l, o);
  }

  // ----- Conservation: frames of any level

  /** How often x is in items. */
  ghost function Count(items: seq<Item>, x: Item): nat {
    multiset(items)[x]
  }

  ghost function WaitingCount(b: map<Level, seq<Item>>, x: Item): nat
    requires forall l: Level :: l in b
  {
    Count(b[Initial], x) + Count(b[ZeroRtt], x) + Count(b[Handshake], x) + Count(b[OneRtt], x) + Count(b[Best], x) +
    Count(b[BestAppData], x)
  }

  ghost function HeldCount(b: map<Level, seq<Packet>>, x: Item): nat
    requires forall l: Level :: l in b
  {
    Count(Flat(b[Initial]), x) + Count(Flat(b[ZeroRtt]), x) + Count(Flat(b[Handshake]), x) + Count(Flat(b[OneRtt]), x) +
    Count(Flat(b[Best]), x) + Count(Flat(b[BestAppData]), x)
  }

  /** How often the agent has sent x, holds it back or keeps it waiting. */
  ghost function Everywhere(s: State, x: Item): nat
    requires Total(s)
  {
    Count(Flat(s.sent), x) + HeldCount(s.packetBuffer, x) + WaitingCount(s.frameBuffer, x)
  }

  lemma WaitingCountUpdate(b: map<Level, seq<Item>>, l: Level, items: seq<Item>, x: Item)
    requires forall k: Level :: k in b
    ensures WaitingCount(b[l := items], x) + Count(b[l], x) == WaitingCount(b, x) + Count(items, x)
  {
    hide Count;
    match l {
      case Initial =>
      case ZeroRtt =>
      case Handshake =>
      case OneRtt =>
      case Best =>
      case BestAppData =>
    }
  }

  lemma HeldCountUpdate(b: map<Level, seq<Packet>>, l: Level, packets: seq<Packet>, x: Item)
    requires forall k: Level :: k in b
    ensures HeldCount(b[l := packets], x) + Count(Flat(b[l]), x) == HeldCount(b, x) + Count(Flat(packets), x)
  {
    hide Count, Flat;
    match l {
      case Initial =>
      case ZeroRtt =>
      case Handshake =>
      case OneRtt =>
      case Best =>
      case BestAppData =>
    }
  }

  lemma CountAppend(a: seq<Item>, b: seq<Item>, x: Item)
    ensures Count(a + b, x) == Count(a, x) + Count(b, x)
  {
  }

  lemma CountFlatAppend(a: seq<Packet>, b: seq<Packet>, x: Item)
    ensures Count(Flat(a + b), x) == Count(Flat(a), x) + Count(Flat(b), x)
  {
    FlatAppend(a, b);
    CountAppend(Flat(a), Flat(b), x);
  }

  lemma CountNothing(x: Item)
    ensures Count([], x) == 0 && Count(Flat([]), x) == 0
  {
  }

  lemma FlatOne(p: Packet)
    ensures Flat([p]) == p.items
  {
    assert Flat([p]) == p.items + Flat([p][1..]);
  }

  /** What leaves the frame buffer is in the packet: a flush moves frames and loses none. */
  lemma FlushedEverywhere(s: State, l: Level, left: seq<Item>, p: Packet, x: Item)
    requires Total(s) && Total(Flushed(s, l, left, p))
    ensures Everywhere(Flushed(s, l, left, p), x) + Count(s.frameBuffer[l], x) ==
            Everywhere(s, x) + Count(p.items, x) + Count(left, x)
  {
    hide Count, Flat, WaitingCount, HeldCount;
    WaitingCountUpdate(s.frameBuffer, l, left, x);
    FlatOne(p);
    CountFlatAppend(s.sent, [p], x);
    HeldCountUpdate(s.packetBuffer, l, s.packetBuffer[l] + [p], x);
    CountFlatAppend(s.packetBuffer[l], [p], x);
  }

  lemma OverflowEverywhere(s: State, item: Item, x: Item)
    requires Total(s) && Routed(s) && Wellformed(item) && !x.frame.Ack?
    ensures Total(Overflow(s, item)) && Everywhere(Overflow(s, item), x) == Everywhere(s, x) + Count([item], x)
  {
    hide Filled, Flushed, Routed, Wellformed, Count, Everywhere;
    OverflowRouted(s, item);
    var l := Target(s.available, item.origin);
    var items := s.frameBuffer[l];
    assert Count(Filled(items, l), x) == Count(items, x) by {
      FilledCount(items, l, x);
    }
    FilledEmptyIff(items, l);
    CountNothing(x);
    if items == [] {
      FlushedEverywhere(s, l, [], Packet(l, [item]), x);
    } else {
      FlushedEverywhere(s, l, [item], Packet(l, Filled(items, l)), x);
    }
  }

  lemma {:induction false} NonAcksCount(items: seq<Item>, x: Item)
    requires !x.frame.Ack?
    ensures Count(NonAcks(items), x) == Count(items, x)
    decreases |items|
  {
    if items != [] {
      assert items == [items[0]] + items[1..];
      NonAcksCount(items[1..], x);
    }
  }

  lemma FilledCount(items: seq<Item>, l: Level, x: Item)
    requires !x.frame.Ack?
    ensures Count(Filled(items, l), x) == Count(items, x)
  {
    hide MergedItem;
    var ack := Filled(items, l)[|NonAcks(items)|..];
    assert Filled(items, l) == NonAcks(items) + ack;
    CountAppend(NonAcks(items), ack, x);
    assert x !in ack by {
      FilledAckIsAck(items, l);
    }
    NonAcksCount(items, x);
    assert Count(ack, x) == 0;
  }

  lemma OnFrameEverywhere(s: State, mtu: nat, item: Item, x: Item)
    requires Total(s) && Routed(s) && Wellformed(item) && !x.frame.Ack?
    ensures Total(OnFrame(s, mtu, item)) && Everywhere(OnFrame(s, mtu, item), x) == Everywhere(s, x) + Count([item], x)
  {
    hide Overflow, Routed, Wellformed, Count, Flat, WaitingCount, HeldCount;
    OverflowEverywhere(s, item, x);
    var l := item.origin;
    WaitingCountUpdate(s.frameBuffer, l, s.frameBuffer[l] + [item], x);
    CountAppend(s.frameBuffer[l], [item], x);
  }

  lemma OnRealTimerEverywhere(s: State, l: Level, x: Item)
    requires Total(s) && Routed(s) && Real(l) && !x.frame.Ack?
    ensures Total(OnRealTimer(s, l)) && Everywhere(OnRealTimer(s, l), x) == Everywhere(s, x)
  {
    hide Filled, Flushed, Routed, Count, Flat, WaitingCount, HeldCount;
    OnRealTimerRouted(s, l);
    if s.frameBuffer[l] != [] && l in s.available {
      FilledCount(s.frameBuffer[l], l, x);
      CountNothing(x);
      FlushedEverywhere(s.(timers := s.timers[l := false]), l, [], Packet(l, Filled(s.frameBuffer[l], l)), x);
    }
  }

  lemma OnBestTimerEverywhere(s: State, l: Level, x: Item)
    requires Total(s) && Routed(s) && !Real(l) && !x.frame.Ack?
    ensures Total(OnBestTimer(s, l)) && Everywhere(OnBestTimer(s, l), x) == Everywhere(s, x)
  {
    hide Lengths, Waiting, HeldBack, SentRight, Count, Flat, WaitingCount, HeldCount;
    var e := ChooseBest(s.available, l == BestAppData);
    var items := s.frameBuffer[e] + s.frameBuffer[l];
    WaitingCountUpdate(s.frameBuffer, e, items, x);
    WaitingCountUpdate(s.frameBuffer[e := items], l, [], x);
    CountAppend(s.frameBuffer[e], s.frameBuffer[l], x);
    CountNothing(x);
  }

  lemma OnAvailableEverywhere(s: State, l: Level, x: Item)
    requires Total(s) && Routed(s) && Real(l) && !x.frame.Ack?
    ensures Total(OnAvailable(s, l)) && Everywhere(OnAvailable(s, l), x) == Everywhere(s, x)
  {
    hide Routed, Count, Flat, WaitingCount, HeldCount;
    CountFlatAppend(s.sent, s.packetBuffer[l], x);
    HeldCountUpdate(s.packetBuffer, l, [], x);
    CountNothing(x);
  }

  /** One step keeps every frame, at exactly one place, and adds what is submitted. */
  lemma StepEverywhere(s: State, mtu: nat, e: Event, x: Item)
    requires Total(s) && Routed(s) && Enabled(s, e) && !x.frame.Ack?
    ensures Total(Step(s, mtu, e))
    ensures Everywhere(Step(s, mtu, e), x) ==
            Everywhere(s, x) + (if e.FrameQueued? then Count([e.item], x) else 0)
  {
    hide Routed, Total, Everywhere, Count, OnFrame, OnRealTimer, OnBestTimer, OnAvailable;
    match e
    case FrameQueued(item) => OnFrameEverywhere(s, mtu, item, x);
    case TimerFired(l) => if Real(l) { OnRealTimerEverywhere(s, l, x); } else { OnBestTimerEverywhere(s, l, x); }
    case LevelAvailable(l, _) => OnAvailableEverywhere(s, l, x);
  }

  // ----- Timers: nothing that could be sent is left without one

  /** A frame that waits at an available level, or for the agent to choose its level, has an armed timer. */
  ghost predicate NothingStranded(s: State)
    requires Total(s)
  {
    forall l :: s.frameBuffer[l] != [] && (l in s.available || !Real(l)) ==> s.timers[l]
  }

  /** What a flush leaves of the buffers and the timers. */
  lemma FlushedFields(s: State, l: Level, left: seq<Item>, p: Packet)
    requires Total(s)
    ensures var t := Flushed(s, l, left, p);
      && t.frameBuffer == s.frameBuffer[l := left] && t.frameBufferLength == s.frameBufferLength[l := 0]
      && t.timers == s.timers && t.available == s.available
  {
    hide Total;
  }

  lemma FlushNotStranded(s: State, l: Level, left: seq<Item>, p: Packet)
    requires Total(s) && Total(Flushed(s, l, left, p))
    requires forall k :: k != l && s.frameBuffer[k] != [] && (k in s.available || !Real(k)) ==> s.timers[k]
    requires left != [] && (l in s.available || !Real(l)) ==> s.timers[l]
    ensures NothingStranded(Flushed(s, l, left, p))
  {
    hide Flushed;
    FlushedFields(s, l, left, p);
  }

  lemma OverflowNotStranded(s: State, item: Item)
    requires Total(s) && Routed(s) && NothingStranded(s) && Wellformed(item)
    ensures Total(Overflow(s, item)) && NothingStranded(Overflow(s, item))
  {
    hide Filled, Flushed, Routed, Wellformed, Target;
    OverflowRouted(s, item);
    var l := Target(s.available, item.origin);
    FilledEmptyIff(s.frameBuffer[l], l);
    if s.frameBuffer[l] == [] {
      FlushNotStranded(s, l, [], Packet(l, [item]));
    } else {
      FlushNotStranded(s, l, [item], Packet(l, Filled(s.frameBuffer[l], l)));
    }
  }

  lemma OnRealTimerNotStranded(s: State, l: Level)
    requires Total(s) && Routed(s) && NothingStranded(s) && Real(l)
    ensures Total(OnRealTimer(s, l)) && NothingStranded(OnRealTimer(s, l))
  {
    hide Filled, Flushed, Routed;
    OnRealTimerRouted(s, l);
    if s.frameBuffer[l] != [] && l in s.available {
      FlushNotStranded(s.(timers := s.timers[l := false]), l, [], Packet(l, Filled(s.frameBuffer[l], l)));
    }
  }

  lemma OnBestTimerNotStranded(s: State, l: Level)
    requires Total(s) && Routed(s) && NothingStranded(s) && !Real(l)
    ensures Total(OnBestTimer(s, l)) && NothingStranded(OnBestTimer(s, l))
  {
    hide Lengths, Routed, ChooseBest;
    OnBestTimerRouted(s, l);
  }

  lemma OnFrameNotStranded(s: State, mtu: nat, item: Item)
    requires Total(s) && Routed(s) && NothingStranded(s) && Wellformed(item)
    ensures Total(OnFrame(s, mtu, item)) && NothingStranded(OnFrame(s, mtu, item))
  {
    hide Overflow, Routed, Wellformed;
    OverflowNotStranded(s, item);
  }

  lemma OnAvailableNotStranded(s: State, l: Level)
    requires Total(s) && NothingStranded(s)
    ensures Total(OnAvailable(s, l)) && NothingStranded(OnAvailable(s, l))
  {
  }

  lemma StepNotStranded(s: State, mtu: nat, e: Event)
    requires Total(s) && Routed(s) && NothingStranded(s) && Enabled(s, e)
    ensures Total(Step(s, mtu, e)) && NothingStranded(Step(s, mtu, e))
  {
    hide Routed, Total, NothingStranded, OnFrame, OnRealTimer, OnBestTimer, OnAvailable;
    match e
    case FrameQueued(item) => OnFrameNotStranded(s, mtu, item);
    case TimerFired(l) => if Real(l) { OnRealTimerNotStranded(s, l); } else { OnBestTimerNotStranded(s, l); }
    case LevelAvailable(l, _) => OnAvailableNotStranded(s, l);
  }

  /** How many firings the armed timers can still cause at most: a Best timer arms one real timer. */
  ghost function Pending(timers: map<Level, bool>): nat
    requires forall l: Level :: l in timers
  {
    (if timers[Initial] then 1 else 0) + (if timers[ZeroRtt] then 1 else 0) + (if timers[Handshake] then 1 else 0) +
    (if timers[OneRtt] then 1 else 0) + (if timers[Best] then 2 else 0) + (if timers[BestAppData] then 2 else 0)
  }

  /** The events are firings of armed timers that lead from s to t. */
  ghost predicate Fires(s: State, mtu: nat, events: seq<Event>, t: State)
    requires Total(s)
    decreases |events|
  {
    if events == [] then s == t
    else
      && events[0].TimerFired? && Enabled(s, events[0])
      && var r := Step(s, mtu, events[0]);
      Total(r) && Fires(r, mtu, events[1..], t)
  }

  lemma PendingDrops(timers: map<Level, bool>, l: Level)
    requires (forall k: Level :: k in timers) && timers[l]
    ensures Pending(timers[l := false]) + (if Real(l) then 1 else 2) == Pending(timers)
  {
    match l {
      case Initial =>
      case ZeroRtt =>
      case Handshake =>
      case OneRtt =>
      case Best =>
      case BestAppData =>
    }
  }

  lemma PendingGrows(timers: map<Level, bool>, l: Level)
    requires (forall k: Level :: k in timers) && Real(l)
    ensures Pending(timers[l := true]) <= Pending(timers) + 1
  {
    match l {
      case Initial =>
      case ZeroRtt =>
      case Handshake =>
      case OneRtt =>
    }
  }

  lemma FiringDecreases(s: State, mtu: nat, l: Level)
    requires Total(s) && s.timers[l] && Total(Step(s, mtu, TimerFired(l)))
    ensures Pending(Step(s, mtu, TimerFired(l)).timers) < Pending(s.timers)
  {
    hide Filled, Lengths, Pending;
    PendingDrops(s.timers, l);
    if !Real(l) {
      PendingGrows(s.timers[l := false], ChooseBest(s.available, l == BestAppData));
    }
  }

  /** Left alone, the agent's timers fall silent after at most eight firings. */
  lemma {:induction false} TimersRunOut(s: State, mtu: nat, events: seq<Event>, t: State)
    requires Total(s) && Fires(s, mtu, events, t)
    ensures |events| <= Pending(s.timers) <= 8
    decreases |events|
  {
    hide Step, Pending;
    assert Pending(s.timers) <= 8 by {
      PendingBound(s.timers);
    }
    if events != [] {
      FiringDecreases(s, mtu, events[0].level);
      TimersRunOut(Step(s, mtu, events[0]), mtu, events[1..], t);
    }
  }

  lemma PendingBound(timers: map<Level, bool>)
    requires forall l: Level :: l in timers
    ensures Pending(timers) <= 8
  {
  }

  // ----- Runs

  /** s is reached from the start through enabled events. */
  ghost predicate Reaches(mtu: nat, events: seq<Event>, s: State)
    decreases |events|
  {
    if events == [] then s == START
    else
      var n := |events| - 1;
      exists r :: Reaches(mtu, events[..n], r) && Total(r) && Enabled(r, events[n]) && s == Step(r, mtu, events[n])
  }

  /** The frames submitted in a run, in order. */
  function Submitted(events: seq<Event>): seq<Item> {
    if events == [] then []
    else
      var n := |events| - 1;
      Submitted(events[..n]) + (if events[n].FrameQueued? then [events[n].item] else [])
  }

  /** What holds after every run in which these frames were submitted. */
  ghost predicate Sound(s: State, log: seq<Item>) {
    && Total(s) && Routed(s) && NothingStranded(s)
    && (forall o :: Real(o) ==> Line(s, o) == Pick(log, o))
    && (forall x: Item :: !x.frame.Ack? ==> Everywhere(s, x) == Count(log, x))
  }

  lemma SoundRouted(s: State, log: seq<Item>)
    requires Sound(s, log)
    ensures Total(s) && Routed(s)
  {
  }

  lemma StartSound()
    ensures Sound(START, [])
  {
    hide Wellformed;
    assert Total(START) by {
      forall l: Level ensures l in LEVELS {
        EveryLevel(l);
      }
    }
  }

  lemma EveryLevel(l: Level)
    ensures l in LEVELS
  {
    match l {
      case Initial =>
      case ZeroRtt =>
      case Handshake =>
      case OneRtt =>
      case Best =>
      case BestAppData =>
    }
  }

  lemma StepSound(s: State, mtu: nat, e: Event, log: seq<Item>)
    requires Sound(s, log) && Enabled(s, e)
    ensures Sound(Step(s, mtu, e), log + (if e.FrameQueued? then [e.item] else []))
  {
    hide Total, Routed, NothingStranded, Step, Enabled, Line, Everywhere, Pick, Count;
    StepRouted(s, mtu, e);
    StepNotStranded(s, mtu, e);
    var more := if e.FrameQueued? then [e.item] else [];
    forall o | Real(o) ensures Line(Step(s, mtu, e), o) == Pick(log + more, o) {
      StepLine(s, mtu, e, o);
      PickAppend(log, more, o);
      PickNothing([], o);
    }
    forall x: Item | !x.frame.Ack? ensures Everywhere(Step(s, mtu, e), x) == Count(log + more, x) {
      StepEverywhere(s, mtu, e, x);
      CountAppend(log, more, x);
      CountNothing(x);
    }
  }

  /** In every run, whatever the frames, the timers and the order in which keys become available: frames
      travel only at levels that may carry them and only once those are available; a frame that can be sent
      has an armed timer; the frames of each real level stay in order; and no frame is lost or repeated. */
  lemma {:induction false} EveryRunIsSound(mtu: nat, events: seq<Event>, s: State)
    requires Reaches(mtu, events, s)
    ensures Sound(s, Submitted(events))
    decreases |events|
  {
    hide Sound, Step, Enabled, Total;
    if events == [] {
      StartSound();
    } else {
      var n := |events| - 1;
      var r :| Reaches(mtu, events[..n], r) && Total(r) && Enabled(r, events[n]) && s == Step(r, mtu, events[n]);
      EveryRunIsSound(mtu, events[..n], r);
      StepSound(r, mtu, events[n], Submitted(events[..n]));
    }
  }

  lemma AbsentWaiting(items: seq<Item>, l: Level, available: set<Level>, x: Item)
    requires Waiting(items, l, available) && !MayWait(x.origin, l, available)
    ensures Count(items, x) == 0
  {
    assert x !in items;
  }

  lemma {:induction false} AbsentHeld(packets: seq<Packet>, l: Level, x: Item)
    requires HeldBack(packets, l) && !MayHold(x.origin, l)
    ensures Count(Flat(packets), x) == 0
    decreases |packets|
  {
    if packets != [] {
      AbsentHeld(packets[1..], l, x);
      assert Holding(packets[0].items, l);
      assert x !in packets[0].items;
    }
  }

  ghost predicate Quiet(s: State)
    requires Total(s)
  {
    forall l :: !s.timers[l]
  }

  lemma NotWaiting(s: State, x: Item, l: Level)
    requires Total(s) && Routed(s) && NothingStranded(s) && Quiet(s)
    requires x.origin == Best || (x.origin == BestAppData && OneRtt in s.available)
    ensures Count(s.frameBuffer[l], x) == 0 && Count(Flat(s.packetBuffer[l]), x) == 0
  {
    hide Waiting, HeldBack, SentRight, Count, Flat;
    CountNothing(x);
    if Real(l) && l !in s.available {
      AbsentWaiting(s.frameBuffer[l], l, s.available, x);
      AbsentHeld(s.packetBuffer[l], l, x);
    }
  }

  /** Once its timers are silent, the agent has sent, exactly once, every frame it was given for a level
      that is available, in order, and every frame whose level it was to choose itself; application data of
      the latter kind needs the 1-RTT level to be available. */
  lemma QuietMeansSent(mtu: nat, events: seq<Event>, s: State)
    requires Reaches(mtu, events, s) && Total(s) && Quiet(s)
    ensures forall o :: o in s.available ==> Pick(Flat(s.sent), o) == Pick(Submitted(events), o)
    ensures forall x: Item :: !x.frame.Ack? && (x.origin == Best || (x.origin == BestAppData && OneRtt in s.available)) ==>
      Count(Flat(s.sent), x) == Count(Submitted(events), x)
  {
    hide Reaches, Waiting, HeldBack, SentRight, Pick, Count, Flat;
    EveryRunIsSound(mtu, events, s);
    FlatNothing();
    forall o | o in s.available ensures Pick(Flat(s.sent), o) == Pick(Submitted(events), o) {
      PickNothing([], o);
      assert Line(s, o) == Pick(Flat(s.sent), o) + [] + [];
    }
    forall x: Item | !x.frame.Ack? && (x.origin == Best || (x.origin == BestAppData && OneRtt in s.available))
      ensures Count(Flat(s.sent), x) == Count(Submitted(events), x)
    {
      forall l ensures Count(s.frameBuffer[l], x) == 0 && Count(Flat(s.packetBuffer[l]), x) == 0 {
        NotWaiting(s, x, l);
      }
    }
  }
}
