/** The agents that produce and consume ACK frames (agents/ack_agent.go, connection.go GetAckFrame,
    frames.go GetAckedPackets, agents/recovery_agent.go ProcessAck, agents/send_agent.go mergeAckFrames). */
module AckAgents {
  import opened Bytes
  import opened VarInts
  import opened Frames
  import opened Acks
  import opened PacketNumbers
  import opened Wrappers

  // ----- Runs of the ACK agent

  /** A packet received in a space; `elicits` when it should be acknowledged and ACKs are not disabled. */
  datatype Arrival = Arrival(space: Space, number: nat, elicits: bool)

  /** Connection.AckQueue. */
  datatype Queues = Queues(initial: seq<nat>, handshake: seq<nat>, appData: seq<nat>) {
    function Of(s: Space): seq<nat> {
      match s
      case InitialSpace => initial
      case HandshakeSpace => handshake
      case AppDataSpace => appData
    }

    function Set(s: Space, q: seq<nat>): Queues {
      match s
      case InitialSpace => this.(initial := q)
      case HandshakeSpace => this.(handshake := q)
      case AppDataSpace => this.(appData := q)
    }
  }

  /** The queue grows by every number; making a frame leaves it sorted. */
  function Grow(q: Queues, a: Arrival): Queues {
    var queue := q.Of(a.space) + [a.number];
    q.Set(a.space, if a.elicits then Sorted(queue) else queue)
  }

  function QueuesAfter(arrivals: seq<Arrival>): Queues {
    if arrivals == [] then Queues([], [], [])
    else Grow(QueuesAfter(arrivals[..|arrivals| - 1]), arrivals[|arrivals| - 1])
  }

  /** The numbers that arrived in a space, in order of arrival. */
  function Numbers(arrivals: seq<Arrival>, s: Space): seq<nat> {
    if arrivals == [] then []
    else
      var n := |arrivals| - 1;
      var init := Numbers(arrivals[..n], s);
      if arrivals[n].space == s then init + [arrivals[n].number] else init
  }

  /** However often it was sorted, the queue holds what arrived. */
  lemma {:induction false} QueueHoldsArrivals(arrivals: seq<Arrival>, s: Space)
    ensures multiset(QueuesAfter(arrivals).Of(s)) == multiset(Numbers(arrivals, s))
    decreases |arrivals|
  {
    if arrivals != [] {
      var n := |arrivals| - 1;
      var a := arrivals[n];
      QueueHoldsArrivals(arrivals[..n], s);
      SortedSorts(QueuesAfter(arrivals[..n]).Of(a.space) + [a.number]);
    }
  }

  /** The frame the agent submits when packet a arrives after the others. */
  function Submitted(arrivals: seq<Arrival>, a: Arrival): AckFrame {
    AckFrameOf(QueuesAfter(arrivals).Of(a.space) + [a.number])
  }

  lemma SameNumbers(q: seq<nat>, m: seq<nat>)
    requires multiset(q) == multiset(m)
    ensures NoDuplicates(q) <==> NoDuplicates(m)
    ensures forall x :: x in q <==> x in m
  {
    hide NoDuplicates;
    NoDuplicatesByCount(q);
    NoDuplicatesByCount(m);
    forall x ensures x in q <==> x in m {
      assert x in multiset(q) <==> x in multiset(m);
    }
  }

  /** Over every run of arrivals in all spaces, the frame submitted can be written if and only if no
      number has arrived twice in its space; and then it acknowledges exactly the numbers received so far
      in that space, with one block per maximal run, also after it has been written and read. */
  lemma SubmittedAcksAreExact(arrivals: seq<Arrival>, a: Arrival, rest: seq<byte>)
    requires AllVarInts(Numbers(arrivals + [a], a.space))
    ensures var f, numbers := Submitted(arrivals, a), Numbers(arrivals + [a], a.space);
            && (EncodableAck(f) <==> NoDuplicates(numbers))
            && (EncodableAck(f) ==>
                  && f.ackBlocks != []
                  && (forall x: nat :: (x as int) in Acknowledged(f) <==> x in numbers)
                  && |f.ackBlocks| == 1 + Breaks(Sorted(numbers))
                  && NewFrame(WriteAck(f, rest)) == Parsed(Ack(f), rest))
  {
    hide Sorted, NoDuplicates, Breaks, WriteAck, NewFrame, Blocks, Listed;
    var queue := QueuesAfter(arrivals).Of(a.space) + [a.number];
    var all := arrivals + [a];
    var numbers := Numbers(all, a.space);
    assert all[..|arrivals|] == arrivals;
    QueueHoldsArrivals(arrivals, a.space);
    assert multiset(queue) == multiset(numbers);
    SameNumbers(queue, numbers);
    SameSorted(queue, numbers);
    assert AllVarInts(queue) by {
      forall i | 0 <= i < |queue| ensures IsVarInt(queue[i]) {
        assert queue[i] in numbers;
      }
    }
    WritableIff(queue);
    if NoDuplicates(queue) {
      AckFrameIsExact(queue);
      AckReadsBack(AckFrameOf(queue), rest);
    }
  }

  lemma SameSorted(q: seq<nat>, m: seq<nat>)
    requires multiset(q) == multiset(m)
    ensures Sorted(q) == Sorted(m)
  {
    hide Sorted;
    SortedSorts(q);
    SortedSorts(m);
    DescendingUnique(Sorted(q), Sorted(m));
  }

  // ----- The agent itself

  class AckAgent {
    var ackQueue: Queues
    /** The ACK frames submitted to the frame queue. */
    var submitted: seq<AckFrame>

    constructor ()
      ensures ackQueue == QueuesAfter([]) && submitted == []
    {
      ackQueue, submitted := Queues([], [], []), [];
    }

    /** GetAckFrame: sorts the queue in place and builds the frame; nil for an empty queue. */
    method GetAckFrame(space: Space) returns (f: Option<AckFrame>)
      modifies this`ackQueue
      ensures ackQueue == old(ackQueue).Set(space, Sorted(old(ackQueue).Of(space)))
      ensures f == if old(ackQueue).Of(space) == [] then None else Some(AckFrameOf(old(ackQueue).Of(space)))
    {
      SortedMembers(ackQueue.Of(space));
      ackQueue := ackQueue.Set(space, Sorted(ackQueue.Of(space)));
      var numbers := ackQueue.Of(space);
      if numbers == [] {
        return None;
      }
      var blocks := BuildBlocks(numbers[0], numbers[1..], 2);
      f := Some(AckFrame(numbers[0], 0, |blocks| - 1, blocks));
    }

    /** What the agent does with a received packet that has a packet number. */
    method OnPacket(a: Arrival, ghost arrivals: seq<Arrival>)
      requires ackQueue == QueuesAfter(arrivals)
      modifies this
      ensures ackQueue == QueuesAfter(arrivals + [a])
      ensures submitted == old(submitted) + (if a.elicits then [Submitted(arrivals, a)] else [])
    {
      assert (arrivals + [a])[..|arrivals|] == arrivals;
      ackQueue := ackQueue.Set(a.space, ackQueue.Of(a.space) + [a.number]);
      if a.elicits {
        var f := GetAckFrame(a.space);
        submitted := submitted + [f.value];
      }
    }
  }

  // ----- GetAckedPackets

  /** How far GetAckedPackets walks down over the blocks after the first: gap plus one, then block. */
  function WalkRest(blocks: seq<AckBlock>): nat {
    if blocks == [] then 0 else blocks[0].gap + 1 + blocks[0].block + WalkRest(blocks[1..])
  }

  function Walk(blocks: seq<AckBlock>): nat
    requires blocks != []
  {
    blocks[0].block + WalkRest(blocks[1..])
  }

  /** The n + 1 numbers from top down, in 64-bit arithmetic. */
  function Down(top: nat, n: nat): (l: seq<nat>)
    ensures |l| == n + 1
  {
    seq(n + 1, i => Minus(top, i))
  }

  lemma DownSnoc(top: nat, k: nat)
    ensures Minus(Minus(top, k), 1) == Minus(top, k + 1)
    ensures Down(top, k + 1) == Down(top, k) + [Minus(top, k + 1)]
  {
  }

  /** One of the counting loops: appends n more numbers, each one below the one before. */
  method Descend(packets: seq<nat>, current: nat, n: nat, ghost top: nat, ghost k: nat) returns (p: seq<nat>, c: nat)
    requires packets == Down(top, k) && current == Minus(top, k)
    ensures p == Down(top, k + n) && c == Minus(top, k + n)
  {
    hide Down, Minus;
    p, c := packets, current;
    for i := 0 to n
      invariant p == Down(top, k + i) && c == Minus(top, k + i)
    {
      DownSnoc(top, k + i);
      c := Minus(c, 1);
      p := p + [c];
    }
  }

  /** GetAckedPackets lists one contiguous run of numbers, gaps included. */
  method GetAckedPackets(f: AckFrame) returns (packets: seq<nat>)
    requires f.ackBlocks != [] && f.largestAcknowledged < UINT64
    ensures packets == Down(f.largestAcknowledged, Walk(f.ackBlocks))
  {
    hide Down;
    var top := f.largestAcknowledged;
    assert Minus(top, 0) == top;
    var current := top;
    packets := [current];
    assert packets == Down(top, 0) by {
      SingleDown(top);
    }
    packets, current := Descend(packets, current, f.ackBlocks[0].block, top, 0);
    ghost var k: nat := f.ackBlocks[0].block;
    for j := 1 to |f.ackBlocks|
      invariant packets == Down(top, k) && current == Minus(top, k)
      invariant k + WalkRest(f.ackBlocks[j..]) == Walk(f.ackBlocks)
    {
      var b := f.ackBlocks[j];
      assert f.ackBlocks[j..][1..] == f.ackBlocks[j + 1..];
      packets, current := Descend(packets, current, b.gap + 1, top, k);
      packets, current := Descend(packets, current, b.block, top, k + (b.gap + 1));
      k := k + (b.gap + 1) + b.block;
    }
    assert f.ackBlocks[|f.ackBlocks|..] == [];
  }

  lemma SingleDown(top: nat)
    requires top < UINT64
    ensures Down(top, 0) == [top]
  {
  }

  /** The smallest number a list of blocks acknowledges, against the walk: each block after the first
      takes the reading bias - 1 further down than the walk goes. */
  lemma {:induction false} SmallestListed(top: int, blocks: seq<AckBlock>, bias: nat)
    requires blocks != [] && bias >= 1
    ensures var l := Listed(top, blocks, bias);
            l != [] && l[|l| - 1] == top - Walk(blocks) - (bias - 1) * (|blocks| - 1)
    decreases |blocks|
  {
    if |blocks| > 1 {
      var next := top - blocks[0].block - blocks[1].gap - bias;
      SmallestListed(next, blocks[1..], bias);
      assert blocks[1..][1..] == blocks[2..];
      assert (bias - 1) * (|blocks| - 1) == (bias - 1) * (|blocks| - 2) + (bias - 1);
    }
  }

  /** On the encoding of a strictly descending list with k blocks after the first, GetAckedPackets ends
      exactly at the smallest number when gaps are biased by 1, and k above it with the standard's 2. */
  lemma WalkEndsAt(l: seq<nat>, bias: nat)
    requires l != [] && StrictlyDescending(l) && l[0] < UINT64 && 1 <= bias <= 2
    ensures var blocks := BlocksOf(l, bias);
            l[0] - Walk(blocks) == l[|l| - 1] + (bias - 1) * (|blocks| - 1)
  {
    hide BlocksOf, Listed;
    RunsRoundTrip(l, bias);
    SmallestListed(l[0], BlocksOf(l, bias), bias);
  }

  /** The smallest number of a frame that follows section 19.3.1 of RFC 9000 is not negative. */
  predicate ValidAck(f: AckFrame) {
    && f.ackBlocks != [] && f.largestAcknowledged < UINT64
    && Walk(f.ackBlocks) + |f.ackBlocks| - 1 <= f.largestAcknowledged
  }

  /** On every valid frame, a received one included, GetAckedPackets lists exactly the numbers the frame
      acknowledges if and only if the frame has a single block: any gap is listed as acknowledged, and the
      smallest numbers are not listed. */
  lemma AckedPacketsExactIff(f: AckFrame)
    requires ValidAck(f)
    ensures var listed := Down(f.largestAcknowledged, Walk(f.ackBlocks));
      && ((forall x: nat :: x in listed <==> (x as int) in Acknowledged(f)) <==> |f.ackBlocks| == 1)
      && (|f.ackBlocks| == 1 ==> AsInts(listed) == Acknowledged(f))
  {
    hide Listed;
    var top, n := f.largestAcknowledged, Walk(f.ackBlocks);
    var listed := Down(top, n);
    if |f.ackBlocks| == 1 {
      SingleBlock(f);
      assert AsInts(listed) == CountDown(top, n);
      SameMembers(listed);
    } else {
      SmallestListed(top, f.ackBlocks, 2);
      var l := Acknowledged(f);
      var low: nat := top - n - (|f.ackBlocks| - 1);
      assert l[|l| - 1] == low;
      assert low !in listed;
    }
  }

  lemma SameMembers(l: seq<nat>)
    ensures forall x: nat :: (x as int) in AsInts(l) <==> x in l
  {
    forall x: nat | x in l ensures (x as int) in AsInts(l) {
      var i :| 0 <= i < |l| && l[i] == x;
      assert AsInts(l)[i] == x;
    }
  }

  lemma SingleBlock(f: AckFrame)
    requires |f.ackBlocks| == 1
    ensures Acknowledged(f) == CountDown(f.largestAcknowledged, f.ackBlocks[0].block)
    ensures Walk(f.ackBlocks) == f.ackBlocks[0].block
  {
  }

  // ----- ProcessAck

  const THRESHOLD := 1000

  function Capped(n: nat): nat {
    if n < THRESHOLD then n else THRESHOLD
  }

  /** ProcessAck's walk: every counting loop stops after THRESHOLD turns. */
  function CappedWalkRest(blocks: seq<AckBlock>): nat {
    if blocks == [] then 0 else Capped(blocks[0].gap + 1) + Capped(blocks[0].block) + CappedWalkRest(blocks[1..])
  }

  function CappedWalk(blocks: seq<AckBlock>): nat
    requires blocks != []
  {
    Capped(blocks[0].block) + CappedWalkRest(blocks[1..])
  }

  /** The first k + 1 numbers from top down. */
  function Passed(top: nat, k: nat): set<nat> {
    set j | 0 <= j <= k :: Minus(top, j)
  }

  lemma PassedNext(top: nat, k: nat)
    ensures Passed(top, k + 1) == Passed(top, k) + {Minus(top, k + 1)}
    ensures Minus(Minus(top, k), 1) == Minus(top, k + 1)
    ensures Minus(top, k) in Passed(top, k)
  {
    hide Minus;
    PassedStep(top, k);
    assert Minus(Minus(top, k), 1) == Minus(top, k + 1) by {
      DownSnoc(top, k);
    }
  }

  lemma PassedStep(top: nat, k: nat)
    ensures Passed(top, k + 1) == Passed(top, k) + {Minus(top, k + 1)}
  {
    hide Minus;
    var s, t := Passed(top, k + 1), Passed(top, k) + {Minus(top, k + 1)};
    forall x | x in s ensures x in t {
      var j :| 0 <= j <= k + 1 && Minus(top, j) == x;
      if j <= k {
        assert x in Passed(top, k);
      }
    }
    assert Minus(top, k + 1) in s;
    assert t <= s;
  }

  /** The entry for a number, if there is one. */
  function Lookup<T>(buffer: map<nat, T>, number: nat): seq<T> {
    if number in buffer then [buffer[number]] else []
  }

  class RecoveryAgent<T> {
    var retransmissionBuffer: map<Space, map<nat, T>>

    constructor ()
      ensures retransmissionBuffer == map[InitialSpace := map[], HandshakeSpace := map[], AppDataSpace := map[]]
    {
      retransmissionBuffer := map[InitialSpace := map[], HandshakeSpace := map[], AppDataSpace := map[]];
    }

    /** ProcessAck.  Its lookups are meant to find the packets lying in gaps, but each one follows the
        deletion of the number it looks up: for every frame and every buffer nothing is returned, and
        exactly the numbers of the capped walk are removed. */
    method ProcessAck(ack: AckFrame, space: Space) returns (batch: seq<T>)
      requires space in retransmissionBuffer && ack.ackBlocks != [] && ack.largestAcknowledged < UINT64
      modifies this
      ensures batch == []
      ensures retransmissionBuffer == old(retransmissionBuffer)[space :=
                old(retransmissionBuffer)[space] - Passed(ack.largestAcknowledged, CappedWalk(ack.ackBlocks))]
      ensures WithinThreshold(ack.ackBlocks) ==> forall x ::
        x in retransmissionBuffer[space] <==>
        x in old(retransmissionBuffer)[space] && x !in Down(ack.largestAcknowledged, Walk(ack.ackBlocks))
    {
      hide Passed, WithinThreshold, Down;
      CappedWalkIff(ack.ackBlocks);
      PassedIsListed(ack.largestAcknowledged, CappedWalk(ack.ackBlocks));
      ghost var top := ack.largestAcknowledged;
      ghost var was := retransmissionBuffer[space];
      var buffer := retransmissionBuffer[space];
      var current := ack.largestAcknowledged;
      batch := [];
      buffer := buffer - {current};
      PassedFirst(top);
      buffer, current := Forget(buffer, current, ack.ackBlocks[0].block, top, 0, was);
      ghost var k: nat := Capped(ack.ackBlocks[0].block);
      for j := 1 to |ack.ackBlocks|
        invariant buffer == was - Passed(top, k) && current == Minus(top, k)
        invariant k + CappedWalkRest(ack.ackBlocks[j..]) == CappedWalk(ack.ackBlocks)
        invariant batch == [] && retransmissionBuffer == old(retransmissionBuffer)
      {
        var b := ack.ackBlocks[j];
        assert ack.ackBlocks[j..][1..] == ack.ackBlocks[j + 1..];
        buffer, current, batch := ForgetGap(buffer, current, b.gap, top, k, was);
        buffer, current := Forget(buffer, current, b.block, top, k + Capped(b.gap + 1), was);
        k := k + Capped(b.gap + 1) + Capped(b.block);
      }
      assert ack.ackBlocks[|ack.ackBlocks|..] == [];
      retransmissionBuffer := retransmissionBuffer[space := buffer];
    }

    /** A loop over a block. */
    static method Forget(buffer0: map<nat, T>, current0: nat, n: nat, ghost top: nat, ghost k: nat, ghost was: map<nat, T>)
      returns (buffer: map<nat, T>, current: nat)
      requires buffer0 == was - Passed(top, k) && current0 == Minus(top, k)
      ensures buffer == was - Passed(top, k + Capped(n)) && current == Minus(top, k + Capped(n))
    {
      hide Passed, Minus;
      buffer, current := buffer0, current0;
      var i := 0;
      while i < n && i < THRESHOLD
        invariant 0 <= i <= Capped(n)
        invariant buffer == was - Passed(top, k + i) && current == Minus(top, k + i)
      {
        PassedNext(top, k + i);
        current := Minus(current, 1);
        buffer := buffer - {current};
        i := i + 1;
      }
    }

    /** A loop over a gap, with its lookups. */
    static method ForgetGap(buffer0: map<nat, T>, current0: nat, gap: nat, ghost top: nat, ghost k: nat, ghost was: map<nat, T>)
      returns (buffer: map<nat, T>, current: nat, found: seq<T>)
      requires buffer0 == was - Passed(top, k) && current0 == Minus(top, k)
      ensures buffer == was - Passed(top, k + Capped(gap + 1)) && current == Minus(top, k + Capped(gap + 1))
      ensures found == []
    {
      hide Passed, Minus;
      buffer, current, found := buffer0, current0, [];
      var i := 0;
      while i <= gap && i < THRESHOLD
        invariant 0 <= i <= Capped(gap + 1)
        invariant buffer == was - Passed(top, k + i) && current == Minus(top, k + i)
        invariant found == []
      {
        PassedNext(top, k + i);
        found := found + Lookup(buffer, current);
        current := Minus(current, 1);
        buffer := buffer - {current};
        i := i + 1;
      }
    }
  }

  lemma PassedFirst(top: nat)
    requires top < UINT64
    ensures Passed(top, 0) == {top} && Minus(top, 0) == top
  {
    assert Minus(top, 0) == top;
    assert top in Passed(top, 0);
    forall x | x in Passed(top, 0) ensures x == top {
      var j :| 0 <= j <= 0 && Minus(top, j) == x;
    }
  }

  /** No block is longer than 1000 and no gap longer than 999. */
  ghost predicate WithinThreshold(blocks: seq<AckBlock>)
    requires blocks != []
  {
    && blocks[0].block <= THRESHOLD
    && forall i :: 1 <= i < |blocks| ==> blocks[i].gap <= THRESHOLD - 1 && blocks[i].block <= THRESHOLD
  }

  lemma CappedWalkIff(blocks: seq<AckBlock>)
    requires blocks != []
    ensures CappedWalk(blocks) <= Walk(blocks)
    ensures CappedWalk(blocks) == Walk(blocks) <==> WithinThreshold(blocks)
  {
    CappedWalkRestIff(blocks[1..]);
    assert forall i :: 1 <= i < |blocks| ==> blocks[i] == blocks[1..][i - 1];
    assert forall i :: 0 <= i < |blocks| - 1 ==> blocks[1..][i] == blocks[i + 1];
  }

  /** The numbers ProcessAck removes are the ones GetAckedPackets lists if and only if no block is longer than
      1000 and no gap longer than 999. */
  lemma RemovedIsListedIff(f: AckFrame)
    requires ValidAck(f)
    ensures (forall x :: x in Passed(f.largestAcknowledged, CappedWalk(f.ackBlocks)) <==>
                         x in Down(f.largestAcknowledged, Walk(f.ackBlocks))) <==> WithinThreshold(f.ackBlocks)
  {
    hide WithinThreshold, CappedWalk, Walk;
    var top, k, n := f.largestAcknowledged, CappedWalk(f.ackBlocks), Walk(f.ackBlocks);
    CappedWalkIff(f.ackBlocks);
    if k == n {
      PassedIsListed(top, n);
    } else {
      assert n <= top by {
        WalkWithin(f);
      }
      assert Down(top, n)[n] == top - n;
      assert top - n !in Passed(top, k);
    }
  }

  lemma WalkWithin(f: AckFrame)
    requires ValidAck(f)
    ensures Walk(f.ackBlocks) <= f.largestAcknowledged
  {
  }

  lemma {:induction false} CappedWalkRestIff(blocks: seq<AckBlock>)
    ensures CappedWalkRest(blocks) <= WalkRest(blocks)
    ensures CappedWalkRest(blocks) == WalkRest(blocks) <==>
            forall i :: 0 <= i < |blocks| ==> blocks[i].gap <= THRESHOLD - 1 && blocks[i].block <= THRESHOLD
    decreases |blocks|
  {
    if blocks != [] {
      CappedWalkRestIff(blocks[1..]);
      assert forall i :: 0 <= i < |blocks| - 1 ==> blocks[1..][i] == blocks[i + 1];
      assert forall i :: 1 <= i < |blocks| ==> blocks[i] == blocks[1..][i - 1];
    }
  }

  /** What ProcessAck removes, in terms of what GetAckedPackets lists. */
  lemma PassedIsListed(top: nat, k: nat)
    ensures forall x :: x in Passed(top, k) <==> x in Down(top, k)
  {
    forall x ensures x in Passed(top, k) <==> x in Down(top, k) {
      if x in Passed(top, k) {
        var j :| 0 <= j <= k && Minus(top, j) == x;
        assert Down(top, k)[j] == x;
      }
    }
  }
}
