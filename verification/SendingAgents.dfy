/** The sending agent (agents/send_agent.go): frames wait in a buffer per encryption level, are bundled
    into packets, and packets wait for their level's keys.  Each event of the agent's loop is one step. */
module SendingAgents {
  import opened Frames
  import opened MergedAcks

  datatype Level = Initial | ZeroRtt | Handshake | OneRtt | Best | BestAppData

  predicate Real(l: Level) {
    l != Best && l != BestAppData
  }

  /** A frame in the agent, with what FrameLength returns for it and the level it was submitted at.  The
      agent itself forgets that level; it is kept here to state where frames may go. */
  datatype Item = Item(frame: Frame, length: nat, origin: Level)

  datatype Packet = Packet(level: Level, items: seq<Item>)

  const UINT16 := 0x1_0000

  type uint16 = n: int | 0 <= n < UINT16

  /** 16-bit addition wraps around. */
  function Wrap(n: nat): uint16 {
    n % UINT16
  }

  /** A timer is armed or not; when it fires is not modelled. */
  datatype State = State(
    frameBuffer: map<Level, seq<Item>>,
    frameBufferLength: map<Level, uint16>,
    packetBuffer: map<Level, seq<Packet>>,
    timers: map<Level, bool>,
    available: set<Level>,
    sent: seq<Packet>)

  ghost predicate Total(s: State) {
    forall l: Level :: l in s.frameBuffer && l in s.frameBufferLength && l in s.packetBuffer && l in s.timers
  }

  lemma TotalAt(s: State, l: Level)
    requires Total(s)
    ensures l in s.frameBuffer && l in s.frameBufferLength && l in s.packetBuffer && l in s.timers
  {
  }

  const LEVELS := {Initial, ZeroRtt, Handshake, OneRtt, Best, BestAppData}

  const START := State(
    map l | l in LEVELS :: [], map l | l in LEVELS :: 0, map l | l in LEVELS :: [], map l | l in LEVELS :: false,
    {Initial}, [])

  /** The length is what FrameLength returns; it panics on a frame that cannot be written. */
  predicate Wellformed(i: Item) {
    Encodable(i.frame) && i.length == FrameLength(i.frame)
  }

  // ----- Filling a packet

  function NonAcks(items: seq<Item>): seq<Item> {
    if items == [] then []
    else if items[0].frame.Ack? then NonAcks(items[1..])
    else [items[0]] + NonAcks(items[1..])
  }

  function AckFrames(items: seq<Item>): seq<AckFrame> {
    if items == [] then []
    else if items[0].frame.Ack? then [items[0].frame.ack] + AckFrames(items[1..])
    else AckFrames(items[1..])
  }

  function AckItems(items: seq<Item>): (acks: seq<Item>)
    ensures |acks| == |AckFrames(items)|
    ensures forall i :: 0 <= i < |acks| ==> acks[i] in items && acks[i].frame == Ack(AckFrames(items)[i])
  {
    if items == [] then []
    else if items[0].frame.Ack? then [items[0]] + AckItems(items[1..])
    else AckItems(items[1..])
  }

  /** The ACK frame made by merging; one that could not be written has no length. */
  function MergedItem(ack: AckFrame, level: Level): Item {
    Item(Ack(ack), if EncodableAck(ack) then FrameLength(Ack(ack)) else 0, level)
  }

  /** What fillWithLevel puts into a packet for these buffered frames: the others in order, then the only ACK
      frame or the merged ones. */
  ghost function Filled(items: seq<Item>, level: Level): seq<Item> {
    NonAcks(items) +
    (if |AckFrames(items)| <= 1 then AckItems(items) else [MergedItem(Merged(AckFrames(items)), level)])
  }

  // ----- The steps

  /** The best real level for a frame that leaves the choice to the agent. */
  function ChooseBest(available: set<Level>, restrictAppData: bool): Level {
    if OneRtt in available then OneRtt
    else if ZeroRtt in available then ZeroRtt
    else if restrictAppData then OneRtt
    else if Handshake in available then Handshake
    else Initial
  }

  function Rank(l: Level): nat {
    match l
    case OneRtt => 4
    case ZeroRtt => 3
    case Handshake => 2
    case Initial => 1
    case _ => 0
  }

  predicate Eligible(l: Level, restrictAppData: bool) {
    Real(l) && (restrictAppData ==> l == ZeroRtt || l == OneRtt)
  }

  /** The level chosen may carry the frame and no better one is available; it is itself available, unless
      application data has to wait for 1-RTT. */
  lemma ChosenIsBest(available: set<Level>, restrictAppData: bool)
    requires Initial in available
    ensures var l := ChooseBest(available, restrictAppData);
      && Eligible(l, restrictAppData)
      && (forall k :: k in available && Eligible(k, restrictAppData) ==> Rank(k) <= Rank(l))
      && (l in available <==> !restrictAppData || ZeroRtt in available || OneRtt in available)
  {
  }

  /** The level at which a frame leaves that does not fit. */
  function Target(available: set<Level>, origin: Level): Level {
    if Real(origin) then origin else ChooseBest(available, origin == BestAppData)
  }

  function Lengths(items: seq<Item>): nat
  {
    if items == [] then 0 else items[0].length + Lengths(items[1..])
  }

  /** The packet leaves, or waits for its keys; `left` stays in the frame buffer, and is not counted. */
  ghost function Flushed(s: State, l: Level, left: seq<Item>, packet: Packet): State
    requires Total(s)
  {
    var t := s.(frameBuffer := s.frameBuffer[l := left], frameBufferLength := s.frameBufferLength[l := 0]);
    if l in s.available then t.(sent := s.sent + [packet])
    else t.(packetBuffer := s.packetBuffer[l := s.packetBuffer[l] + [packet]])
  }

  /** A frame arrives whose length does not fit: what is buffered leaves, and the frame takes its place, or
      leaves alone if nothing was buffered. */
  ghost function Overflow(s: State, item: Item): State
    requires Total(s)
  {
    var l := Target(s.available, item.origin);
    var filled := Filled(s.frameBuffer[l], l);
    if filled == [] then Flushed(s, l, [], Packet(l, [item])) else Flushed(s, l, [item], Packet(l, filled))
  }

  ghost function OnFrame(s: State, mtu: nat, item: Item): State
    requires Total(s)
  {
    var l := item.origin;
    var length := Wrap(s.frameBufferLength[l] + item.length);
    if length > mtu then Overflow(s, item)
    else
      s.(frameBuffer := s.frameBuffer[l := s.frameBuffer[l] + [item]],
         frameBufferLength := s.frameBufferLength[l := length],
         timers := if l in s.available || !Real(l) then s.timers[l := true] else s.timers)
  }

  ghost function OnRealTimer(s: State, l: Level): State
    requires Total(s)
  {
    var t := s.(timers := s.timers[l := false]);
    if s.frameBuffer[l] != [] && l in s.available then Flushed(t, l, [], Packet(l, Filled(s.frameBuffer[l], l)))
    else t
  }

  ghost function OnBestTimer(s: State, l: Level): State
    requires Total(s) && !Real(l)
  {
    var e := ChooseBest(s.available, l == BestAppData);
    s.(frameBuffer := s.frameBuffer[e := s.frameBuffer[e] + s.frameBuffer[l]][l := []],
       frameBufferLength := s.frameBufferLength[e := Wrap(s.frameBufferLength[e] + Lengths(s.frameBuffer[l]))][l := 0],
       timers := s.timers[l := false][e := true])
  }

  ghost function OnAvailable(s: State, l: Level): State
    requires Total(s)
  {
    s.(available := s.available + {l},
       sent := s.sent + s.packetBuffer[l],
       packetBuffer := s.packetBuffer[l := []],
       timers := s.timers[l := true])
  }

  datatype Event =
    | FrameQueued(item: Item)
    | TimerFired(level: Level)
    | LevelAvailable(level: Level, read: bool)

  /** Timers fire only when armed; only real levels become available. */
  ghost predicate Enabled(s: State, e: Event)
    requires Total(s)
  {
    match e
    case FrameQueued(item) => Wellformed(item)
    case TimerFired(l) => s.timers[l]
    case LevelAvailable(l, _) => Real(l)
  }

  ghost function Step(s: State, mtu: nat, e: Event): State
    requires Total(s) && Enabled(s, e)
  {
    match e
    case FrameQueued(item) => OnFrame(s, mtu, item)
    case TimerFired(l) => if Real(l) then OnRealTimer(s, l) else OnBestTimer(s, l)
    case LevelAvailable(l, read) => if read then s else OnAvailable(s, l)
  }

  // ----- Filters

  /** The non-ACK frames submitted at level o. */
  function Pick(items: seq<Item>, o: Level): seq<Item> {
    if items == [] then []
    else if !items[0].frame.Ack? && items[0].origin == o then [items[0]] + Pick(items[1..], o)
    else Pick(items[1..], o)
  }

  /** The frames of a list of packets, in order. */
  function Flat(packets: seq<Packet>): seq<Item> {
    if packets == [] then [] else packets[0].items + Flat(packets[1..])
  }

  lemma {:induction false} PickAppend(a: seq<Item>, b: seq<Item>, o: Level)
    ensures Pick(a + b, o) == Pick(a, o) + Pick(b, o)
    decreases |a|
  {
    if a == [] {
      assert a + b == b;
    } else {
      assert (a + b)[1..] == a[1..] + b;
      PickAppend(a[1..], b, o);
    }
  }

  lemma {:induction false} FlatAppend(a: seq<Packet>, b: seq<Packet>)
    ensures Flat(a + b) == Flat(a) + Flat(b)
    decreases |a|
  {
    if a == [] {
      assert a + b == b;
    } else {
      assert (a + b)[1..] == a[1..] + b;
      FlatAppend(a[1..], b);
    }
  }

  lemma FlatSnoc(a: seq<Packet>, p: Packet)
    ensures Flat(a + [p]) == Flat(a) + p.items
  {
    FlatAppend(a, [p]);
    assert Flat([p]) == p.items + Flat([p][1..]);
  }

  lemma {:induction false} PickNonAcks(items: seq<Item>, o: Level)
    ensures Pick(NonAcks(items), o) == Pick(items, o)
    decreases |items|
  {
    if items != [] {
      PickNonAcks(items[1..], o);
      if !items[0].frame.Ack? {
        assert NonAcks(items)[1..] == NonAcks(items[1..]);
      }
    }
  }

  /** What stands behind the other frames of a packet is at most one ACK frame. */
  lemma FilledAckIsAck(items: seq<Item>, l: Level)
    ensures var ack := Filled(items, l)[|NonAcks(items)|..]; |ack| <= 1 && (|ack| == 1 ==> ack[0].frame.Ack?)
  {
    hide Merged, FrameLength;
    var ack := Filled(items, l)[|NonAcks(items)|..];
    assert Filled(items, l) == NonAcks(items) + ack;
  }

  /** Filling a packet neither loses nor reorders nor invents a non-ACK frame. */
  lemma FilledKeeps(items: seq<Item>, l: Level, o: Level)
    ensures Pick(Filled(items, l), o) == Pick(items, o)
  {
    hide Merged, FrameLength;
    var ack := Filled(items, l)[|NonAcks(items)|..];
    assert Filled(items, l) == NonAcks(items) + ack;
    PickAppend(NonAcks(items), ack, o);
    PickNonAcks(items, o);
    FilledAckIsAck(items, l);
    assert |ack| == 1 ==> ack[1..] == [];
    assert Pick(ack, o) == [];
  }

  lemma {:induction false} NoAcksLeft(items: seq<Item>)
    ensures AckFrames(NonAcks(items)) == []
    decreases |items|
  {
    if items != [] {
      NoAcksLeft(items[1..]);
      if !items[0].frame.Ack? {
        assert NonAcks(items)[1..] == NonAcks(items[1..]);
      }
    }
  }

  lemma {:induction false} AckFramesAppend(a: seq<Item>, b: seq<Item>)
    ensures AckFrames(a + b) == AckFrames(a) + AckFrames(b)
    decreases |a|
  {
    if a == [] {
      assert a + b == b;
    } else {
      assert (a + b)[1..] == a[1..] + b;
      AckFramesAppend(a[1..], b);
    }
  }

  /** A packet carries one ACK frame if any was buffered: the one buffered, or one that lists everything
      collected from the several and starts at the largest number of them all. */
  lemma FilledAcks(items: seq<Item>, l: Level)
    ensures var acks, filled := AckFrames(items), AckFrames(Filled(items, l));
      && |filled| == (if acks == [] then 0 else 1)
      && (|acks| == 1 ==> filled == acks)
      && (acks != [] ==> filled[0].largestAcknowledged == MaxLargest(acks))
  {
    hide Merged, MergedItem, NonAcks, AckFrames, AckItems, MaxLargest;
    var acks := AckFrames(items);
    var ack := if |acks| <= 1 then AckItems(items) else [MergedItem(Merged(acks), l)];
    AckFramesAppend(NonAcks(items), ack);
    NoAcksLeft(items);
    assert [] + AckFrames(ack) == AckFrames(ack);
    if acks != [] {
      MergedItemIs(Merged(acks), l);
      assert ack == [ack[0]];
      OneAckFrame(ack[0]);
      if |acks| == 1 {
        assert acks == [acks[0]];
        OnlyOneLargest(acks[0]);
      }
    } else {
      assert ack == [];
      NothingBuffered([]);
    }
  }

  lemma MergedItemIs(ack: AckFrame, l: Level)
    ensures MergedItem(ack, l).frame == Ack(ack)
  {
  }

  lemma OneAckFrame(i: Item)
    requires i.frame.Ack?
    ensures AckFrames([i]) == [i.frame.ack]
  {
    assert AckFrames([i][1..]) == [];
  }

  lemma OnlyOneLargest(a: AckFrame)
    ensures MaxLargest([a]) == a.largestAcknowledged
  {
    assert [a][..0] == [];
  }

  lemma {:induction false} NothingBuffered(items: seq<Item>)
    ensures NonAcks(items) == [] && AckFrames(items) == [] <==> items == []
    decreases |items|
  {
    if items != [] {
      NothingBuffered(items[1..]);
    }
  }

  lemma FilledEmptyIff(items: seq<Item>, l: Level)
    ensures Filled(items, l) == [] <==> items == []
  {
    hide Merged, FrameLength;
    NothingBuffered(items);
  }

  lemma {:induction false} NonAcksAmong(items: seq<Item>, i: int)
    requires 0 <= i < |NonAcks(items)|
    ensures NonAcks(items)[i] in items
    decreases |items|
  {
    if items[0].frame.Ack? {
      NonAcksAmong(items[1..], i);
      assert NonAcks(items)[i] in items[1..];
    } else if i > 0 {
      NonAcksAmong(items[1..], i - 1);
      assert NonAcks(items)[i] in items[1..];
    }
  }

  // ----- Where frames may be

  /** A frame submitted at origin may wait in the frame buffer of level l. */
  predicate MayWait(origin: Level, l: Level, available: set<Level>) {
    || origin == l
    || (origin == Best && l in available)
    || (origin == BestAppData && (l == OneRtt || (l == ZeroRtt && l in available)))
  }

  /** A frame submitted at origin may be in a packet that waits for the keys of level l. */
  predicate MayHold(origin: Level, l: Level) {
    origin == l || (origin == BestAppData && l == OneRtt)
  }

  /** A frame submitted at origin may be sent in a packet of level l. */
  predicate MayTravel(origin: Level, l: Level) {
    origin == l || origin == Best || (origin == BestAppData && (l == ZeroRtt || l == OneRtt))
  }

  ghost predicate Waiting(items: seq<Item>, l: Level, available: set<Level>) {
    forall i :: 0 <= i < |items| ==> MayWait(items[i].origin, l, available) && Wellformed(items[i])
  }

  ghost predicate Holding(items: seq<Item>, l: Level) {
    forall i :: 0 <= i < |items| ==> MayHold(items[i].origin, l)
  }

  ghost predicate Travelling(items: seq<Item>, l: Level) {
    forall i :: 0 <= i < |items| ==> MayTravel(items[i].origin, l)
  }

  ghost predicate HeldBack(packets: seq<Packet>, l: Level) {
    forall i :: 0 <= i < |packets| ==> packets[i].level == l && packets[i].items != [] && Holding(packets[i].items, l)
  }

  ghost predicate SentRight(packets: seq<Packet>, available: set<Level>) {
    forall i :: 0 <= i < |packets| ==>
      packets[i].level in available && packets[i].items != [] && Travelling(packets[i].items, packets[i].level)
  }

  /** Every frame is where its level allows, no packet is empty, only available levels have been sent at, and
      packets are held back only at levels that are not available. */
  ghost predicate Routed(s: State)
    requires Total(s)
  {
    && Initial in s.available
    && (forall l :: l in s.available ==> Real(l))
    && (forall l :: Waiting(s.frameBuffer[l], l, s.available))
    && (forall l :: HeldBack(s.packetBuffer[l], l))
    && (forall l :: s.packetBuffer[l] != [] ==> Real(l) && l !in s.available)
    && SentRight(s.sent, s.available)
  }

  lemma FilledFrom(items: seq<Item>, l: Level, i: int)
    requires 0 <= i < |Filled(items, l)|
    ensures Filled(items, l)[i] in items || Filled(items, l)[i].origin == l
  {
    hide Merged, FrameLength;
    if i < |NonAcks(items)| {
      NonAcksAmong(items, i);
    }
  }

  lemma FilledTravels(items: seq<Item>, l: Level, available: set<Level>)
    requires Waiting(items, l, available) && Real(l)
    ensures l in available ==> Travelling(Filled(items, l), l)
    ensures l !in available ==> Holding(Filled(items, l), l)
  {
    forall i | 0 <= i < |Filled(items, l)|
      ensures MayWait(Filled(items, l)[i].origin, l, available)
    {
      FilledFrom(items, l, i);
    }
  }

  lemma WaitingAppend(a: seq<Item>, b: seq<Item>, l: Level, available: set<Level>)
    requires Waiting(a, l, available) && Waiting(b, l, available)
    ensures Waiting(a + b, l, available)
  {
    hide MayWait, Wellformed;
  }

  lemma WaitingOne(item: Item, l: Level, available: set<Level>)
    requires MayWait(item.origin, l, available) && Wellformed(item)
    ensures Waiting([item], l, available)
  {
  }

  lemma HeldSnoc(packets: seq<Packet>, p: Packet)
    requires HeldBack(packets, p.level) && p.items != [] && Holding(p.items, p.level)
    ensures HeldBack(packets + [p], p.level)
  {
    hide Holding;
  }

  lemma SentSnoc(packets: seq<Packet>, available: set<Level>, p: Packet)
    requires SentRight(packets, available)
    requires p.level in available && p.items != [] && Travelling(p.items, p.level)
    ensures SentRight(packets + [p], available)
  {
    hide Travelling;
  }

  /** The packet that overflowing or a timer makes of a level's frame buffer. */
  lemma Departs(s: State, l: Level)
    requires Total(s) && Routed(s) && Real(l) && s.frameBuffer[l] != []
    ensures Filled(s.frameBuffer[l], l) != []
    ensures l in s.available ==> SentRight(s.sent + [Packet(l, Filled(s.frameBuffer[l], l))], s.available)
    ensures l !in s.available ==> HeldBack(s.packetBuffer[l] + [Packet(l, Filled(s.frameBuffer[l], l))], l)
  {
    hide Filled, Waiting, Holding, Travelling, SentRight, HeldBack;
    FilledEmptyIff(s.frameBuffer[l], l);
    FilledTravels(s.frameBuffer[l], l, s.available);
    if l in s.available {
      SentSnoc(s.sent, s.available, Packet(l, Filled(s.frameBuffer[l], l)));
    } else {
      HeldSnoc(s.packetBuffer[l], Packet(l, Filled(s.frameBuffer[l], l)));
    }
  }

  /** The packet made of one frame that does not fit. */
  lemma DepartsAlone(s: State, l: Level, item: Item)
    requires Total(s) && Routed(s) && Real(l) && MayWait(item.origin, l, s.available)
    ensures l in s.available ==> SentRight(s.sent + [Packet(l, [item])], s.available)
    ensures l !in s.available ==> HeldBack(s.packetBuffer[l] + [Packet(l, [item])], l)
  {
    hide Waiting, SentRight, HeldBack;
    if l in s.available {
      SentSnoc(s.sent, s.available, Packet(l, [item]));
    } else {
      HeldSnoc(s.packetBuffer[l], Packet(l, [item]));
    }
  }

  lemma ChosenLevel(origin: Level, available: set<Level>)
    requires Initial in available
    ensures Real(Target(available, origin)) && MayWait(origin, Target(available, origin), available)
  {
  }

  /** Replacing the frame buffer of a level and letting a packet go keeps frames where they may be. */
  lemma FlushRouted(s: State, l: Level, left: seq<Item>, p: Packet)
    requires Total(s) && Routed(s) && Real(l) && Waiting(left, l, s.available)
    requires l in s.available ==> SentRight(s.sent + [p], s.available)
    requires l !in s.available ==> HeldBack(s.packetBuffer[l] + [p], l)
    ensures Total(Flushed(s, l, left, p)) && Routed(Flushed(s, l, left, p))
  {
    hide Wellformed, MayWait, Waiting, HeldBack, SentRight, Real;
    var t := Flushed(s, l, left, p);
    assert t.available == s.available;
    forall k ensures Waiting(t.frameBuffer[k], k, t.available) {
      assert Waiting(s.frameBuffer[k], k, s.available);
    }
    forall k ensures HeldBack(t.packetBuffer[k], k) && (t.packetBuffer[k] != [] ==> Real(k) && k !in t.available) {
      assert HeldBack(s.packetBuffer[k], k);
    }
  }

  lemma OverflowRouted(s: State, item: Item)
    requires Total(s) && Routed(s) && Wellformed(item)
    ensures Total(Overflow(s, item)) && Routed(Overflow(s, item))
  {
    hide Filled, Flushed, Target, Wellformed, MayWait, Waiting, HeldBack, SentRight;
    var l := Target(s.available, item.origin);
    ChosenLevel(item.origin, s.available);
    WaitingOne(item, l, s.available);
    WaitingNone(l, s.available);
    FilledEmptyIff(s.frameBuffer[l], l);
    if s.frameBuffer[l] == [] {
      DepartsAlone(s, l, item);
      FlushRouted(s, l, [], Packet(l, [item]));
    } else {
      Departs(s, l);
      FlushRouted(s, l, [item], Packet(l, Filled(s.frameBuffer[l], l)));
    }
  }

  lemma MayWaitOwn(l: Level, available: set<Level>)
    ensures MayWait(l, l, available)
  {
  }

  lemma WaitingNone(l: Level, available: set<Level>)
    ensures Waiting([], l, available) && HeldBack([], l)
  {
  }

  lemma OnFrameRouted(s: State, mtu: nat, item: Item)
    requires Total(s) && Routed(s) && Wellformed(item)
    ensures Total(OnFrame(s, mtu, item)) && Routed(OnFrame(s, mtu, item))
  {
    hide Overflow, Wellformed, MayWait, Waiting, HeldBack, SentRight;
    OverflowRouted(s, item);
    var l := item.origin;
    MayWaitOwn(l, s.available);
    WaitingOne(item, l, s.available);
    WaitingAppend(s.frameBuffer[l], [item], l, s.available);
  }

  lemma OnRealTimerRouted(s: State, l: Level)
    requires Total(s) && Routed(s) && Real(l)
    ensures Total(OnRealTimer(s, l)) && Routed(OnRealTimer(s, l))
  {
    hide Filled, Flushed, Waiting, HeldBack, SentRight;
    WaitingNone(l, s.available);
    var t := s.(timers := s.timers[l := false]);
    if s.frameBuffer[l] != [] {
      Departs(t, l);
      FlushRouted(t, l, [], Packet(l, Filled(s.frameBuffer[l], l)));
    }
  }

  lemma WaitingMoves(items: seq<Item>, l: Level, available: set<Level>)
    requires Waiting(items, l, available) && !Real(l) && Initial in available && l !in available
    ensures Waiting(items, ChooseBest(available, l == BestAppData), available)
  {
    hide Wellformed;
  }

  lemma OnBestTimerRouted(s: State, l: Level)
    requires Total(s) && Routed(s) && !Real(l)
    ensures Total(OnBestTimer(s, l)) && Routed(OnBestTimer(s, l))
  {
    hide Lengths, Waiting, HeldBack, SentRight, ChooseBest;
    var e := ChooseBest(s.available, l == BestAppData);
    WaitingMoves(s.frameBuffer[l], l, s.available);
    WaitingAppend(s.frameBuffer[e], s.frameBuffer[l], e, s.available);
    WaitingNone(l, s.available);
  }

  lemma WaitingGrows(items: seq<Item>, l: Level, before: set<Level>, after: set<Level>)
    requires Waiting(items, l, before) && before <= after
    ensures Waiting(items, l, after)
  {
    hide Wellformed;
  }

  lemma Released(sent: seq<Packet>, held: seq<Packet>, l: Level, available: set<Level>)
    requires SentRight(sent, available) && HeldBack(held, l)
    ensures SentRight(sent + held, available + {l})
  {
    forall i | 0 <= i < |held| ensures Travelling(held[i].items, l) {
      assert Holding(held[i].items, l);
    }
  }

  lemma OnAvailableRouted(s: State, l: Level)
    requires Total(s) && Routed(s) && Real(l)
    ensures Total(OnAvailable(s, l)) && Routed(OnAvailable(s, l))
  {
    hide Waiting, HeldBack, SentRight, Real;
    var t := OnAvailable(s, l);
    Released(s.sent, s.packetBuffer[l], l, s.available);
    WaitingNone(l, t.available);
    forall k ensures Waiting(t.frameBuffer[k], k, t.available) {
      WaitingGrows(s.frameBuffer[k], k, s.available, t.available);
    }
    forall k ensures HeldBack(t.packetBuffer[k], k) && (t.packetBuffer[k] != [] ==> Real(k) && k !in t.available) {
      assert HeldBack(s.packetBuffer[k], k);
    }
  }

  lemma StepRouted(s: State, mtu: nat, e: Event)
    requires Total(s) && Routed(s) && Enabled(s, e)
    ensures Total(Step(s, mtu, e)) && Routed(Step(s, mtu, e))
  {
    hide Routed, Total, OnFrame, OnRealTimer, OnBestTimer, OnAvailable;
    match e
    case FrameQueued(item) => OnFrameRouted(s, mtu, item);
    case TimerFired(l) => if Real(l) { OnRealTimerRouted(s, l); } else { OnBestTimerRouted(s, l); }
    case LevelAvailable(l, _) => OnAvailableRouted(s, l);
  }
}
