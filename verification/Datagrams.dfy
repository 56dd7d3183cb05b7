/** Coalesced packets: what SendPacket seals and masks, concatenated into one datagram, is what the
    parsing loop recovers (connection.go, agents/parse_agent.go). */
module Datagrams {
  import opened Bytes
  import opened Wrappers
  import opened VarInts
  import opened PacketNumbers
  import opened Headers
  import opened Protection
  import Frames

  // ----- Shape of the written bytes

  lemma TokenAppends(h: LongHeader, r: seq<byte>, t: seq<byte>)
    requires IsVarInt(h.tokenLength.value)
    ensures WriteToken(h, r + t) == WriteToken(h, r) + t
  {
    hide EncodeVarInt;
    if h.packetType == INITIAL {
      Associate(h.token, r, t);
      Associate(EncodeVarInt(h.tokenLength.value), h.token + r, t);
    }
  }

  lemma MiddleAppends(h: LongHeader, t: seq<byte>)
    requires TruthfulLong(h)
    ensures WriteMiddle(h, t) == WriteMiddle(h, []) + t
    ensures |WriteMiddle(h, [])| + 1 == PnOffset(Long(h))
  {
    hide EncodeVarInt, WriteToken, BigEndian;
    MiddleSize(h);
    var len := EncodeVarInt(h.length.value);
    var lengths := [(0x10 * Cidl(h.destinationCid) + Cidl(h.sourceCid)) as byte];
    Associate(len, [], t);
    assert [] + t == t;
    TokenAppends(h, len + [], t);
    var r := WriteToken(h, len + []);
    Associate(h.sourceCid, r, t);
    Associate(h.destinationCid, h.sourceCid + r, t);
    Associate(lengths, h.destinationCid + (h.sourceCid + r), t);
    Associate(BigEndian(h.version, 4), lengths + (h.destinationCid + (h.sourceCid + r)), t);
  }

  lemma MiddleSize(h: LongHeader)
    requires TruthfulLong(h)
    ensures |WriteMiddle(h, [])| + 1 == PnOffset(Long(h))
  {
    hide Tagged, BigEndian;
  }

  lemma HeaderAppends(h: Header, t: seq<byte>)
    requires Truthful(h)
    ensures WriteHeader(h, t) == WriteHeader(h, []) + t
    ensures |WriteHeader(h, [])| == HeaderLength(h)
  {
    hide EncodeTruncated, WriteMiddle;
    HeaderSize(h, []);
    assert [] + t == t;
    match h
    case Long(l) =>
      var pn := EncodeTruncated(l.truncatedPn);
      var first := [(0xC0 + 0x10 * l.packetType + l.truncatedPn.length - 1) as byte];
      Associate(pn, [], t);
      MiddleAppends(l, pn + t);
      MiddleAppends(l, pn + []);
      Associate(WriteMiddle(l, []), pn + [], t);
      Associate(first, WriteMiddle(l, pn + []), t);
    case Short(s) =>
      var pn := EncodeTruncated(s.truncatedPn);
      var first := [(0x40 + (if s.keyPhase then 0x04 else 0) + s.truncatedPn.length - 1) as byte];
      Associate(pn, [], t);
      Associate(s.destinationCid, pn + [], t);
      Associate(first, s.destinationCid + (pn + []), t);
  }

  /** The first byte says which form the header has and how long the packet number is. */
  lemma FirstByteOf(h: Header, t: seq<byte>)
    requires Truthful(h)
    ensures var b := WriteHeader(h, t);
            && b != [] && b[0] % 4 + 1 == PnLength(h)
            && (h.Long? ==> b[0] >= 0x80 && TypeBits(b[0]) == h.long.packetType)
            && (h.Short? ==> b[0] < 0x80)
  {
    hide EncodeTruncated, WriteMiddle, TypeBits, Pow256;
    match h
    case Long(l) => TypeByte(l.packetType, l.truncatedPn.length);
    case Short(s) => ShortTypeByte(s.keyPhase, s.truncatedPn.length);
  }

  lemma ShortTypeByte(keyPhase: bool, n: nat)
    requires 1 <= n <= 4
    ensures var first := 0x40 + (if keyPhase then 0x04 else 0) + n - 1; first % 4 + 1 == n && first < 0x80
  {
  }

  lemma TypeBitsHigh(first: byte)
    ensures TypeBits(first) == (first / 16 + 4) % 16
  {
    var q: int, r: int := first / 16, first % 16;
    assert first == 16 * q + r;
    if q < 12 {
      assert (first + 0x40) % 256 == 16 * (q + 4) + r;
    } else {
      assert (first + 0x40) % 256 == 16 * (q - 12) + r;
    }
  }

  /** Masking leaves the header form and a long header's type alone. */
  lemma MaskedFirstByte(b: byte, m: byte, h: Header)
    ensures var x := XorByte(b, LowBits(m, MaskedBits(h)));
            && (h.Long? ==> x / 16 == b / 16)
            && (x >= 0x80 <==> b >= 0x80)
  {
    hide Xor, Pow2;
    var k := MaskedBits(h);
    Powers16And32();
    XorKeepsHigh(b, LowBits(m, k), k);
    SameHigh(XorByte(b, LowBits(m, k)), b, Pow2(k));
  }

  lemma Powers16And32()
    ensures Pow2(4) == 16 && Pow2(5) == 32
  {
    assert Pow2(1) == 2 && Pow2(2) == 4 && Pow2(3) == 8;
  }

  lemma SameHigh(x: byte, b: byte, p: nat)
    requires (p == 16 || p == 32) && x / p == b / p
    ensures x >= 0x80 <==> b >= 0x80
  {
  }

  // ----- One packet

  /** The payload's frames and header fit together as SendPacket makes them. */
  ghost predicate Sendable(k: Keys, h: Header, frames: seq<Frames.Frame>) {
    && Lawful(k) && Truthful(h) && Frames.AllTruthful(frames)
    && (h.Long? ==> h.long.length.value == h.long.truncatedPn.length + |Frames.EncodePayload(frames)| + k.overhead)
  }

  function SealedPayload(k: Keys, h: Header, payload: seq<byte>): seq<byte>
    requires Truthful(h)
  {
    k.seal(PacketNumber(h), WriteHeader(h, []), payload)
  }

  /** A reader of the masked bytes sees the fields before the packet number as they are. */
  lemma MaskedLongHeader(k: Keys, l: LongHeader, payload: seq<byte>, x: seq<byte>)
    requires Lawful(k) && TruthfulLong(l) && l.destinationCid != [] && l.sourceCid != []
    ensures var b := Protect(k, Long(l), payload) + x;
            && b[0] >= 0x80
            && ReadLongPrefix(b).0 == l.(packetNumber := 0, truncatedPn := TruncatedPN(0, 0))
  {
    hide WriteMiddle, ReadLongPrefix, Sample, EncodeTruncated, Pow256, XorByte;
    var h := Long(l);
    var plain := Sealed(k, h, payload);
    var m := Protect(k, h, payload);
    var off := PnOffset(h);
    var pn := EncodeTruncated(l.truncatedPn) + SealedPayload(k, h, payload);
    FirstByteOf(h, SealedPayload(k, h, payload));
    MaskedFirstByte(plain[0], k.mask(Sample(plain, off))[0], h);
    TypeBitsHigh(m[0]);
    TypeBitsHigh(plain[0]);
    MiddleAppends(l, pn);
    assert plain == [plain[0]] + (WriteMiddle(l, []) + pn);
    MaskedMiddle(plain, m, WriteMiddle(l, []), off);
    MiddleAppends(l, m[off..] + x);
    assert m + x == [m[0]] + (WriteMiddle(l, []) + (m[off..] + x));
    LongPrefixRoundTrip(l, m[0], m[off..] + x);
  }

  lemma MaskedMiddle(plain: seq<byte>, m: seq<byte>, mid: seq<byte>, off: nat)
    requires |m| == |plain| && off == 1 + |mid| <= |m|
    requires plain[1..off] == mid
    requires forall i :: 1 <= i < off ==> m[i] == plain[i]
    ensures m == [m[0]] + (mid + m[off..])
  {
    assert m == [m[0]] + m[1..off] + m[off..];
    assert m[1..off] == mid;
  }

  /** The masked header has the real one's form, type, version and packet number offset. */
  ghost predicate LooksLike(h0: Header, h: Header) {
    && PnOffset(h0) == PnOffset(h)
    && (match (h0, h)
        case (Long(l0), Long(l)) => l0.packetType == l.packetType && l0.version == l.version
        case (Short(_), Short(_)) => true
        case _ => false)
  }

  ghost predicate Addressed(h: Header, cidLength: nat) {
    match h
    case Long(l) => l.destinationCid != [] && l.sourceCid != []
    case Short(s) => |s.destinationCid| == cidLength
  }

  lemma ProtectSize(k: Keys, h: Header, payload: seq<byte>)
    requires Lawful(k) && Truthful(h)
    ensures |Protect(k, h, payload)| == |Sealed(k, h, payload)| == HeaderLength(h) + |payload| + k.overhead
  {
    hide WriteHeader;
    HeaderSize(h, SealedPayload(k, h, payload));
  }

  lemma MaskedHeader(k: Keys, h: Header, payload: seq<byte>, x: seq<byte>, cidLength: nat, largest: Largest)
    requires Lawful(k) && Truthful(h) && Addressed(h, cidLength)
    ensures Protect(k, h, payload) != []
    ensures LooksLike(ReadHeader(Protect(k, h, payload) + x, cidLength, largest), h)
  {
    hide ReadLongPrefix, Sample, WriteHeader, Xor, Join, ReadTruncated;
    ProtectSize(k, h, payload);
    match h
    case Long(l) =>
      hide Protect;
      MaskedLongHeader(k, l, payload, x);
    case Short(s) =>
      var plain := Sealed(k, h, payload);
      FirstByteOf(h, SealedPayload(k, h, payload));
      MaskedFirstByte(plain[0], k.mask(Sample(plain, PnOffset(h)))[0], h);
  }

  /** Unmasking recovers the sealed bytes, whatever follows them. */
  lemma UnmaskRecovers(k: Keys, h: Header, payload: seq<byte>, x: seq<byte>, h0: Header)
    requires Lawful(k) && Truthful(h) && LooksLike(h0, h)
    requires |Sealed(k, h, payload)| >= PnOffset(h) + 4 + SAMPLE_LENGTH || x == []
    ensures Protect(k, h, payload) != []
    ensures Unmask(k, h0, Protect(k, h, payload) + x) == Ok(Sealed(k, h, payload) + x)
  {
    hide Sample, WriteHeader, Xor, ApplyMask;
    var plain := Sealed(k, h, payload);
    var m := Protect(k, h, payload);
    var off, len, bits := PnOffset(h), PnLength(h), MaskedBits(h);
    var mask := k.mask(Sample(plain, off));
    HeaderSize(h, SealedPayload(k, h, payload));
    FirstByteOf(h, SealedPayload(k, h, payload));
    SampleUnmasked(plain, x, mask, bits, off, len);
    XorInvolution(plain[0], LowBits(mask[0], bits));
    ApplyMaskAppend(m, x, mask, bits, off, len);
    ApplyMaskTwice(plain, mask, bits, off, len);
  }

  /** The header readers recover the header and stop at its end. */
  lemma HeaderReadsBack(h: Header, t: seq<byte>, cidLength: nat, largest: Largest)
    requires Truthful(h) && Addressed(h, cidLength) && Recoverable(h, largest)
    ensures ReadHeader(WriteHeader(h, t), cidLength, largest) == h
    ensures AfterHeader(WriteHeader(h, t), cidLength) == t
  {
    hide ReadLongPrefix, WriteMiddle, Join, ReadTruncated, EncodeTruncated;
    FirstByteOf(h, t);
    match h
    case Long(l) =>
      LongHeaderRoundTripIff(l, t, largest);
      LongPrefixRoundTrip(l, WriteHeader(h, t)[0], EncodeTruncated(l.truncatedPn) + t);
      TruncatedReadsBack(l.truncatedPn, t);
    case Short(s) =>
      ShortHeaderRoundTripIff(s, t, cidLength, largest);
      ShortRest(s, t);
      TruncatedReadsBack(s.truncatedPn, t);
  }

  lemma ShortRest(s: ShortHeader, t: seq<byte>)
    requires TruthfulShort(s)
    ensures Frames.Take(Frames.Tail(WriteShort(s, t)), |s.destinationCid|).1 == EncodeTruncated(s.truncatedPn) + t
  {
    hide EncodeTruncated;
    var r := EncodeTruncated(s.truncatedPn) + t;
    assert Frames.Tail(WriteShort(s, t)) == s.destinationCid + r;
    Frames.TakeRoundTrip(s.destinationCid, r);
  }

  /** Joining with the largest number received recovers the packet number. */
  predicate Recoverable(h: Header, largest: Largest) {
    match h
    case Long(l) => Join(l.truncatedPn, largest.Of(l.packetType)) == l.packetNumber
    case Short(s) => Join(s.truncatedPn, largest.appData) == s.packetNumber
  }

  lemma DecryptRecovers(k: Keys, h: Header, frames: seq<Frames.Frame>, rest: seq<byte>, cidLength: nat, largest: Largest)
    requires Lawful(k) && Truthful(h) && Addressed(h, cidLength) && Recoverable(h, largest)
    requires Frames.AllTruthful(frames) && Frames.AllSurvive(frames)
    ensures Decrypted(k, h, WriteHeader(h, []), SealedPayload(k, h, Frames.EncodePayload(frames)), rest, cidLength, largest)
            == Next(Framed(h, frames), rest)
  {
    hide WriteHeader, ReadHeader, AfterHeader, Frames.ParsePayload, Frames.EncodePayload;
    var payload := Frames.EncodePayload(frames);
    HeaderAppends(h, payload);
    HeaderReadsBack(h, payload, cidLength, largest);
    Frames.FrameListRoundTripIff(frames);
  }

  /** The fields of a packet that make it one the parsing loop opens. */
  ghost predicate Acceptable(k: Keys, h: Header, frames: seq<Frames.Frame>, cidLength: nat) {
    && Sendable(k, h, frames) && Frames.AllSurvive(frames) && Addressed(h, cidLength)
    && (h.Long? ==> h.long.packetType in {INITIAL, HANDSHAKE} && h.long.version != 0)
  }

  lemma OpenRecovers(k: Keys, h: Header, frames: seq<Frames.Frame>, x: seq<byte>, cidLength: nat, largest: Largest)
    requires Acceptable(k, h, frames, cidLength) && Recoverable(h, largest) && (h.Short? ==> x == [])
    ensures Sealed(k, h, Frames.EncodePayload(frames)) + x != []
    ensures OpenPacket(k, Sealed(k, h, Frames.EncodePayload(frames)) + x, cidLength, largest) == Next(Framed(h, frames), x)
  {
    hide WriteHeader, ReadHeader, Decrypted, Frames.EncodePayload, Frames.Encodable;
    var payload := Frames.EncodePayload(frames);
    var s := SealedPayload(k, h, payload);
    var header := WriteHeader(h, []);
    var u := Sealed(k, h, payload) + x;
    HeaderAppends(h, s);
    HeaderAppends(h, s + x);
    Associate(header, s, x);
    assert u == WriteHeader(h, s + x) == header + (s + x);
    HeaderReadsBack(h, s + x, cidLength, largest);
    Cuts(header, s, x);
    DecryptRecovers(k, h, frames, x, cidLength, largest);
    assert x == [] ==> s + x == s;
  }

  lemma Cuts(a: seq<byte>, b: seq<byte>, c: seq<byte>)
    ensures var u := a + (b + c);
            && u[..|a|] == a && u[|a|..] == b + c
            && u[|a|..|a| + |b|] == b && u[|a| + |b|..] == c
  {
  }

  /** One turn of the loop recovers the packet at the head of a datagram and leaves the rest, provided
      sixteen sample bytes belong to it or nothing follows. */
  lemma TurnRecovers(ring: KeyRing, k: Keys, h: Header, frames: seq<Frames.Frame>, x: seq<byte>, cidLength: nat, largest: Largest)
    requires LawfulRing(ring) && ring.For(h) == Some(k)
    requires Acceptable(k, h, frames, cidLength) && Recoverable(h, largest) && (h.Short? ==> x == [])
    requires PnLength(h) + |Frames.EncodePayload(frames)| + k.overhead >= 20 || x == []
    ensures Protect(k, h, Frames.EncodePayload(frames)) + x != []
    ensures ParseNext(ring, Protect(k, h, Frames.EncodePayload(frames)) + x, cidLength, largest) == Next(Framed(h, frames), x)
  {
    hide WriteHeader, ReadHeader, Protect, Sealed, OpenPacket, Unmask, Frames.EncodePayload, Frames.Encodable;
    var payload := Frames.EncodePayload(frames);
    var b := Protect(k, h, payload) + x;
    ProtectSize(k, h, payload);
    MaskedHeader(k, h, payload, x, cidLength, largest);
    UnmaskRecovers(k, h, payload, x, ReadHeader(b, cidLength, largest));
    OpenRecovers(k, h, frames, x, cidLength, largest);
  }

  // ----- Whole datagrams

  /** Packets that can share a datagram: each is sendable with the keys of its level, its number is the
      one the receiver will recover after the packets before it, and every packet but the last has a
      long header and at least 20 bytes from its packet number on. */
  ghost predicate Coalescible(ring: KeyRing, packets: seq<Packet>, cidLength: nat, largest: Largest)
    decreases |packets|
  {
    packets == [] ||
    (var p := packets[0];
     && p.Framed? && ring.For(p.header).Some?
     && Acceptable(ring.For(p.header).value, p.header, p.frames, cidLength)
     && Recoverable(p.header, largest)
     && (|packets| > 1 ==> p.header.Long?)
     && (|packets| > 1 ==> PnLength(p.header) + |Frames.EncodePayload(p.frames)| + ring.For(p.header).value.overhead >= 20)
     && Coalescible(ring, packets[1..], cidLength, Noted(largest, p)))
  }

  /** The packets, sealed and masked as SendPacket does it, one after the other. */
  ghost function Datagram(ring: KeyRing, packets: seq<Packet>, cidLength: nat, largest: Largest): seq<byte>
    requires Coalescible(ring, packets, cidLength, largest)
    decreases |packets|
  {
    if packets == [] then []
    else
      var p := packets[0];
      Protect(ring.For(p.header).value, p.header, Frames.EncodePayload(p.frames)) +
      Datagram(ring, packets[1..], cidLength, Noted(largest, p))
  }

  function NotedAll(largest: Largest, packets: seq<Packet>): Largest
    decreases |packets|
  {
    if packets == [] then largest else NotedAll(Noted(largest, packets[0]), packets[1..])
  }

  /** Protect, coalesce and parse round trip: the parsing loop recovers exactly the packets that were
      sealed, masked and concatenated, in order, consumes the whole datagram, and ends with the largest
      numbers among them, for every mask function and every AEAD that opens what it seals. */
  lemma {:induction false} DatagramRoundTrip(ring: KeyRing, packets: seq<Packet>, cidLength: nat, largest: Largest)
    requires LawfulRing(ring) && Coalescible(ring, packets, cidLength, largest)
    ensures ParseDatagram(ring, Datagram(ring, packets, cidLength, largest), cidLength, largest) ==
            Result(packets, NotedAll(largest, packets), Finished)
    decreases |packets|
  {
    hide Protect, ParseNext, Acceptable, Recoverable, LawfulRing, Noted;
    if packets != [] {
      var p, rest := packets[0], packets[1..];
      var k := ring.For(p.header).value;
      var x := Datagram(ring, rest, cidLength, Noted(largest, p));
      TurnRecovers(ring, k, p.header, p.frames, x, cidLength, largest);
      DatagramRoundTrip(ring, rest, cidLength, Noted(largest, p));
      assert packets == [p] + rest;
    }
  }

  // ----- The loop, unmasking in place

  /** Unmasks the packet that starts at off, in place; false when the packet number does not fit. */
  method UnmaskInPlace(k: Keys, h: Header, udp: array<byte>, off: nat) returns (ok: bool)
    requires Lawful(k) && off < udp.Length
    modifies udp
    ensures udp[..off] == old(udp[..off])
    ensures ok <==> Unmask(k, h, old(udp[off..])).Ok?
    ensures ok ==> udp[off..] == Unmask(k, h, old(udp[off..])).value
  {
    hide Sample, XorByte;
    ghost var b := udp[off..];
    var mask := k.mask(Sample(udp[off..], PnOffset(h)));
    var bits, pnOffset := MaskedBits(h), off + PnOffset(h);
    udp[off] := XorByte(udp[off], LowBits(mask[0], bits));
    var pnLength: nat := udp[off] % 4 + 1;
    if pnOffset + pnLength > udp.Length {
      return false;
    }
    ghost var u := ApplyMask(b, mask, bits, PnOffset(h), pnLength);
    hide ApplyMask, LowBits, MaskedBits;
    FlipBytes(udp, pnOffset, pnLength, mask);
    assert udp[off..] == u;
    ok := true;
  }

  /** The loop over the packet number: n bytes from at on are flipped, no others. */
  method FlipBytes(udp: array<byte>, at: nat, n: nat, mask: seq<byte>)
    requires at + n <= udp.Length && n < |mask|
    modifies udp
    ensures forall j :: at <= j < at + n ==> udp[j] == XorByte(old(udp[j]), mask[1 + j - at])
    ensures forall j :: 0 <= j < udp.Length && !(at <= j < at + n) ==> udp[j] == old(udp[j])
  {
    hide XorByte;
    for i := 0 to n
      invariant forall j :: at <= j < at + i ==> udp[j] == XorByte(old(udp[j]), mask[1 + j - at])
      invariant forall j :: 0 <= j < udp.Length && !(at <= j < at + i) ==> udp[j] == old(udp[j])
    {
      udp[at + i] := XorByte(udp[at + i], mask[1 + i]);
    }
  }

  /** The parsing loop of the agent on one datagram computes ParseDatagram. */
  method ParseInPlace(ring: KeyRing, udp: array<byte>, cidLength: nat, largest0: Largest)
    returns (packets: seq<Packet>, largest: Largest, ending: Ending)
    requires LawfulRing(ring)
    modifies udp
    ensures Result(packets, largest, ending) == ParseDatagram(ring, old(udp[..]), cidLength, largest0)
  {
    hide ReadHeader, OpenPacket, Unmask;
    packets, largest, ending := [], largest0, Finished;
    var off := 0;
    ghost var whole := ParseDatagram(ring, udp[..], cidLength, largest0);
    while off < udp.Length
      invariant 0 <= off <= udp.Length && ending == Finished
      invariant var left := ParseDatagram(ring, udp[off..], cidLength, largest);
                whole == Result(packets + left.packets, left.largest, left.ending)
      decreases udp.Length - off
    {
      ghost var b := udp[off..];
      var turn := TakeTurn(ring, udp, off, cidLength, largest);
      match turn {
        case Stop(ps, e) =>
          packets, ending := packets + ps, e;
          return;
        case Next(p, rest) =>
          ghost var more := ParseDatagram(ring, rest, cidLength, Noted(largest, p));
          assert packets + ([p] + more.packets) == (packets + [p]) + more.packets;
          packets, largest := packets + [p], Noted(largest, p);
          off := udp.Length - |rest|;
      }
    }
    assert udp[off..] == [];
  }

  /** One turn of the loop at offset off; what it leaves to parse is still there, untouched. */
  method TakeTurn(ring: KeyRing, udp: array<byte>, off: nat, cidLength: nat, largest: Largest) returns (turn: Turn)
    requires LawfulRing(ring) && off < udp.Length
    modifies udp
    ensures turn == ParseNext(ring, old(udp[off..]), cidLength, largest)
    ensures turn.Next? ==> |turn.rest| < udp.Length - off && udp[udp.Length - |turn.rest|..] == turn.rest
  {
    hide ReadHeader, OpenPacket, Unmask;
    var h := ReadHeader(udp[off..], cidLength, largest);
    if h.Long? && h.long.version == 0 {
      return Stop([NegotiationReceived(udp[off..])], Negotiation);
    }
    if h.Long? && h.long.packetType == RETRY {
      return Stop([RetryReceived(udp[off..])], Finished);
    }
    if h.Long? && h.long.packetType !in {INITIAL, ZERO_RTT, HANDSHAKE} {
      return Stop([], UnknownPacketType);
    }
    var keys := ring.For(h);
    if keys.None? {
      return Stop([], NoKeys);
    }
    var ok := UnmaskInPlace(keys.value, h, udp, off);
    if !ok {
      return Stop([], Panicked);
    }
    turn := OpenPacket(keys.value, udp[off..], cidLength, largest);
    OpenLeavesSuffix(keys.value, udp[off..], cidLength, largest);
  }

  lemma OpenLeavesSuffix(k: Keys, u: seq<byte>, cidLength: nat, largest: Largest)
    requires u != []
    ensures var t := OpenPacket(k, u, cidLength, largest); t.Next? ==> |t.rest| < |u| && u[|u| - |t.rest|..] == t.rest
  {
    hide ReadHeader, ReadPacket;
  }
}
