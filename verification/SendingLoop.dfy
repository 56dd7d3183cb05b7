/** The sending agent as it runs (agents/send_agent.go:18-197): its buffers are updated in place, and every
    event's handler is shown to take the step the state machine prescribes. */
module SendingLoop {
  import opened Frames
  import opened MergedAcks
  import opened SendingAgents
  import opened PacketSizes
  import SendingRuns

  lemma {:induction false} NonAcksSnoc(items: seq<Item>, x: Item)
    ensures NonAcks(items + [x]) == NonAcks(items) + (if x.frame.Ack? then [] else [x])
    decreases |items|
  {
    if items == [] {
      assert items + [x] == [x] && [x][1..] == [];
    } else {
      assert (items + [x])[1..] == items[1..] + [x];
      NonAcksSnoc(items[1..], x);
    }
  }

  lemma {:induction false} AckFramesSnoc(items: seq<Item>, x: Item)
    ensures AckFrames(items + [x]) == AckFrames(items) + (if x.frame.Ack? then [x.frame.ack] else [])
    decreases |items|
  {
    if items == [] {
      assert items + [x] == [x] && [x][1..] == [];
    } else {
      assert (items + [x])[1..] == items[1..] + [x];
      AckFramesSnoc(items[1..], x);
    }
  }

  lemma {:induction false} AckItemsSnoc(items: seq<Item>, x: Item)
    ensures AckItems(items + [x]) == AckItems(items) + (if x.frame.Ack? then [x] else [])
    decreases |items|
  {
    hide AckFrames;
    if items == [] {
      assert items + [x] == [x] && [x][1..] == [];
    } else {
      assert (items + [x])[1..] == items[1..] + [x];
      AckItemsSnoc(items[1..], x);
    }
  }

  lemma NothingAdded(n: uint16)
    ensures Wrap(n + Lengths([])) == n
  {
  }

  /** Looks for the best available level in the agent's order of preference. */
  method ChooseBestEncryptionLevel(available: set<Level>, restrictAppData: bool) returns (l: Level)
    ensures l == ChooseBest(available, restrictAppData)
  {
    var order := [OneRtt, ZeroRtt, Handshake, Initial];
    if restrictAppData {
      order := [OneRtt, ZeroRtt];
    }
    for i := 0 to |order|
      invariant forall j :: 0 <= j < i ==> order[j] !in available
    {
      if order[i] in available {
        assert i > 0 ==> order[0] == OneRtt && order[0] !in available;
        assert i > 1 ==> order[1] == ZeroRtt && order[1] !in available;
        assert i > 2 ==> order[2] == Handshake && order[2] !in available;
        return order[i];
      }
    }
    assert order[0] == OneRtt && order[1] == ZeroRtt;
    if restrictAppData {
      return OneRtt;
    }
    assert order[2] == Handshake;
    l := order[|order| - 1];
  }

  /** Splits buffered frames into the packet's frames and one ACK frame. */
  method Fill(buffered: seq<Item>, level: Level) returns (items: seq<Item>)
    ensures items == Filled(buffered, level)
  {
    hide Merged, MergedItem;
    var acks: seq<AckFrame>, ackItems: seq<Item> := [], [];
    items := [];
    for i := 0 to |buffered|
      invariant items == NonAcks(buffered[..i]) && acks == AckFrames(buffered[..i]) && ackItems == AckItems(buffered[..i])
    {
      assert buffered[..i + 1] == buffered[..i] + [buffered[i]];
      NonAcksSnoc(buffered[..i], buffered[i]);
      AckFramesSnoc(buffered[..i], buffered[i]);
      AckItemsSnoc(buffered[..i], buffered[i]);
      match buffered[i].frame {
        case Ack(ack) => acks, ackItems := acks + [ack], ackItems + [buffered[i]];
        case _ => items := items + [buffered[i]];
      }
    }
    assert buffered[..|buffered|] == buffered;
    if |acks| > 1 {
      var ack := MergeAckFrames(acks);
      items := items + [MergedItem(ack, level)];
    } else if |acks| == 1 {
      items := items + [ackItems[0]];
      assert ackItems == [ackItems[0]];
    }
  }

  class SendingAgent {
    const mtu: nat
    var frameBuffer: map<Level, seq<Item>>
    var frameBufferLength: map<Level, uint16>
    var packetBuffer: map<Level, seq<Packet>>
    var timers: map<Level, bool>
    var available: set<Level>
    var sent: seq<Packet>

    ghost function Current(): State
      reads this
    {
      State(frameBuffer, frameBufferLength, packetBuffer, timers, available, sent)
    }

    ghost predicate Valid()
      reads this
    {
      Total(Current()) && Routed(Current())
    }

    constructor (mtu: nat)
      ensures Valid() && Current() == START && this.mtu == mtu
    {
      this.mtu := mtu;
      frameBuffer := map l | l in LEVELS :: [];
      frameBufferLength := map l | l in LEVELS :: 0;
      packetBuffer := map l | l in LEVELS :: [];
      timers := map l | l in LEVELS :: false;
      available := {Initial};
      sent := [];
      new;
      SendingRuns.StartSound();
      SendingRuns.SoundRouted(START, []);
    }

    method FillWithLevel(l: Level) returns (items: seq<Item>)
      requires l in frameBuffer
      modifies `frameBuffer, `frameBufferLength
      ensures items == Filled(old(frameBuffer[l]), l)
      ensures frameBuffer == old(frameBuffer)[l := []] && frameBufferLength == old(frameBufferLength)[l := 0]
    {
      items := Fill(frameBuffer[l], l);
      frameBuffer := frameBuffer[l := []];
      frameBufferLength := frameBufferLength[l := 0];
    }

    method OnQueuedFrame(item: Item)
      requires Valid() && Wellformed(item)
      modifies this
      ensures Valid() && Current() == OnFrame(old(Current()), mtu, item)
    {
      hide Total, Routed, Overflow, Wellformed;
      OnFrameRouted(Current(), mtu, item);
      var l := item.origin;
      TotalAt(Current(), l);
      var length := Wrap(frameBufferLength[l] + item.length);
      if length > mtu {
        OnOverflow(item);
      } else {
        frameBuffer := frameBuffer[l := frameBuffer[l] + [item]];
        frameBufferLength := frameBufferLength[l := length];
        if l in available || l == Best || l == BestAppData {
          timers := timers[l := true];
        }
      }
    }

    method OnOverflow(item: Item)
      requires Valid() && Wellformed(item)
      modifies this
      ensures Current() == Overflow(old(Current()), item)
    {
      hide Total, Routed, Filled, Wellformed, ChooseBest;
      var l := item.origin;
      if l == Best || l == BestAppData {
        l := ChooseBestEncryptionLevel(available, l == BestAppData);
      }
      TotalAt(Current(), l);
      var items := FillWithLevel(l);
      if |items| == 0 {
        items := [item];
      } else {
        frameBuffer := frameBuffer[l := frameBuffer[l] + [item]];
        assert [] + [item] == [item];
        assert frameBuffer == old(frameBuffer)[l := [item]];
      }
      SendOrHold(Packet(l, items));
    }

    method SendOrHold(packet: Packet)
      requires packet.level in packetBuffer
      modifies `packetBuffer, `sent
      ensures packet.level in available ==> sent == old(sent) + [packet] && packetBuffer == old(packetBuffer)
      ensures packet.level !in available ==>
        sent == old(sent) && packetBuffer == old(packetBuffer)[packet.level := old(packetBuffer[packet.level]) + [packet]]
    {
      var l := packet.level;
      if l !in available {
        packetBuffer := packetBuffer[l := packetBuffer[l] + [packet]];
      } else {
        sent := sent + [packet];
      }
    }

    method FillAndSendPacket(l: Level)
      requires Valid() && Real(l)
      modifies this
      ensures Valid() && Current() == OnRealTimer(old(Current()), l)
    {
      hide Total, Routed, Filled;
      OnRealTimerRouted(Current(), l);
      TotalAt(Current(), l);
      timers := timers[l := false];
      if |frameBuffer[l]| > 0 && l in available {
        var items := FillWithLevel(l);
        sent := sent + [Packet(l, items)];
      }
    }

    method OnBestTimerFired(l: Level)
      requires Valid() && !Real(l)
      modifies this
      ensures Valid() && Current() == OnBestTimer(old(Current()), l)
    {
      hide Total, Routed, ChooseBest, Lengths;
      OnBestTimerRouted(Current(), l);
      var e := ChooseBestEncryptionLevel(available, l == BestAppData);
      TotalAt(Current(), l);
      TotalAt(Current(), e);
      timers := timers[l := false];
      var moved := frameBuffer[l];
      MoveFrames(e, moved);
      frameBuffer := frameBuffer[l := []];
      frameBufferLength := frameBufferLength[l := 0];
      timers := timers[e := true];
    }

    /** Appends the frames one by one, counting each. */
    method MoveFrames(e: Level, moved: seq<Item>)
      requires e in frameBuffer && e in frameBufferLength
      modifies `frameBuffer, `frameBufferLength
      ensures frameBuffer == old(frameBuffer)[e := old(frameBuffer[e]) + moved]
      ensures frameBufferLength == old(frameBufferLength)[e := Wrap(old(frameBufferLength[e]) + Lengths(moved))]
    {
      hide Lengths, Wrap;
      assert frameBuffer[e] + moved[..0] == frameBuffer[e];
      assert Wrap(frameBufferLength[e] + Lengths(moved[..0])) == frameBufferLength[e] by {
        NothingAdded(frameBufferLength[e]);
        assert moved[..0] == [];
      }
      for i := 0 to |moved|
        invariant frameBuffer == old(frameBuffer)[e := old(frameBuffer[e]) + moved[..i]]
        invariant frameBufferLength ==
          old(frameBufferLength)[e := Wrap(old(frameBufferLength[e]) + Lengths(moved[..i]))]
      {
        assert moved[..i + 1] == moved[..i] + [moved[i]];
        assert old(frameBuffer[e]) + moved[..i] + [moved[i]] == old(frameBuffer[e]) + moved[..i + 1];
        LengthsOne(moved[i]);
        LengthsAppend(moved[..i], [moved[i]]);
        WrapTwice(old(frameBufferLength[e]) + Lengths(moved[..i]), moved[i].length);
        frameBuffer := frameBuffer[e := frameBuffer[e] + [moved[i]]];
        frameBufferLength := frameBufferLength[e := Wrap(frameBufferLength[e] + moved[i].length)];
      }
      assert moved[..|moved|] == moved;
    }

    method OnLevelAvailable(l: Level, read: bool)
      requires Valid() && Real(l)
      modifies this
      ensures Valid() && Current() == Step(old(Current()), mtu, LevelAvailable(l, read))
    {
      hide Total, Routed;
      OnAvailableRouted(Current(), l);
      TotalAt(Current(), l);
      if read {
        return;
      }
      available := available + {l};
      var packets := packetBuffer[l];
      for i := 0 to |packets|
        invariant sent == old(sent) + packets[..i]
        invariant frameBuffer == old(frameBuffer) && frameBufferLength == old(frameBufferLength)
        invariant packetBuffer == old(packetBuffer) && timers == old(timers) && available == old(available) + {l}
      {
        sent := sent + [packets[i]];
      }
      assert packets[..|packets|] == packets;
      packetBuffer := packetBuffer[l := []];
      timers := timers[l := true];
    }
  }
}
