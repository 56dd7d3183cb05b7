/** Packet protection and the datagram parsing loop (connection.go SendPacket, crypto.go
    GetPacketSample, agents/parse_agent.go).  The AEAD and the header cipher are parameters. */
module Protection {
  import opened Bytes
  import opened VarInts
  import opened PacketNumbers
  import opened Headers
  import Frames
  import opened Wrappers

  // ----- Bitwise exclusive or

  function Xor(a: nat, b: nat): nat
    decreases a + b
  {
    if a == 0 && b == 0 then 0 else 2 * Xor(a / 2, b / 2) + (if a % 2 != b % 2 then 1 else 0)
  }

  lemma {:induction false} XorInvolution(a: nat, b: nat)
    ensures Xor(Xor(a, b), b) == a
    decreases a + b
  {
    if a != 0 || b != 0 {
      XorInvolution(a / 2, b / 2);
      var x := Xor(a, b);
      assert x / 2 == Xor(a / 2, b / 2) && x % 2 == (if a % 2 != b % 2 then 1 else 0);
    }
  }

  lemma XorHalves(a: nat, b: nat)
    ensures Xor(a, b) / 2 == Xor(a / 2, b / 2)
  {
  }

  lemma {:induction false} XorBound(a: nat, b: nat, n: nat)
    requires a < Pow2(n) && b < Pow2(n)
    ensures Xor(a, b) < Pow2(n)
    decreases n
  {
    if n > 0 {
      XorBound(a / 2, b / 2, n - 1);
    }
  }

  /** A mask of k bits changes nothing above them. */
  lemma {:induction false} XorKeepsHigh(a: nat, b: nat, k: nat)
    requires b < Pow2(k)
    ensures Xor(a, b) / Pow2(k) == a / Pow2(k)
    decreases k
  {
    if k == 0 {
      XorZero(a);
    } else {
      XorKeepsHigh(a / 2, b / 2, k - 1);
      XorHalves(a, b);
      HalfDiv(Xor(a, b), Pow2(k - 1));
      HalfDiv(a, Pow2(k - 1));
    }
  }

  lemma {:induction false} XorZero(a: nat)
    ensures Xor(a, 0) == a
  {
    if a > 0 {
      XorZero(a / 2);
    }
  }

  lemma HalfDiv(x: nat, p: nat)
    requires p > 0
    ensures x / (2 * p) == (x / 2) / p
  {
    var q, r := x / 2, x % 2;
    var a, b := q / p, q % p;
    DivMod(q, p);
    assert x == (2 * p) * a + (2 * b + r) by {
      assert 2 * (p * a) == (2 * p) * a;
    }
    ModUnique(x, 2 * p, a, 2 * b + r);
  }

  function XorByte(a: byte, b: byte): byte {
    XorBound8(a, b);
    Xor(a, b)
  }

  lemma XorBound8(a: byte, b: byte)
    ensures Xor(a, b) < 256
  {
    assert Pow2(8) == 256 by {
      assert Pow2(1) == 2 && Pow2(2) == 4 && Pow2(3) == 8 && Pow2(4) == 16 && Pow2(5) == 32 && Pow2(6) == 64 && Pow2(7) == 128;
    }
    XorBound(a, b, 8);
  }

  // ----- Header protection

  /** AEAD and header cipher of one encryption level. */
  datatype Keys = Keys(
    overhead: nat,
    seal: (nat, seq<byte>, seq<byte>) -> seq<byte>,
    open: (nat, seq<byte>, seq<byte>) -> Option<seq<byte>>,
    mask: seq<byte> -> seq<byte>)

  /** What is asked of a cipher: opening undoes sealing, and masks have five bytes. */
  ghost predicate Lawful(k: Keys) {
    && (forall pn: nat, header: seq<byte>, payload: seq<byte> ::
          |k.seal(pn, header, payload)| == |payload| + k.overhead)
    && (forall pn: nat, header: seq<byte>, payload: seq<byte> ::
          k.open(pn, header, k.seal(pn, header, payload)) == Some(payload))
    && (forall sample: seq<byte> :: |k.mask(sample)| == 5)
  }

  const SAMPLE_LENGTH := 16

  /** GetPacketSample: sixteen bytes from four past the packet number's offset, zeros past the end. */
  function Sample(b: seq<byte>, pnOffset: nat): seq<byte> {
    var end := pnOffset + 4 + SAMPLE_LENGTH;
    var padded := if end > |b| then b + Frames.Zeros(end - |b|) else b;
    padded[pnOffset + 4..end]
  }

  /** The first-byte mask: the low four bits of a long header, the low five of a short one. */
  function MaskedBits(h: Header): nat {
    if h.Long? then 4 else 5
  }

  function LowBits(m: byte, bits: nat): byte {
    DivMod(m, Pow2(bits));
    m % Pow2(bits)
  }

  /** Changes the masked bits of the first byte and the packet number's bytes. */
  function ApplyMask(b: seq<byte>, mask: seq<byte>, bits: nat, pnOffset: nat, pnLength: nat): (r: seq<byte>)
    requires |mask| == 5 && pnLength <= 4 && 1 <= pnOffset && pnOffset + pnLength <= |b|
    ensures |r| == |b|
    ensures r[0] == XorByte(b[0], LowBits(mask[0], bits))
    ensures forall i :: pnOffset <= i < pnOffset + pnLength ==> r[i] == XorByte(b[i], mask[1 + i - pnOffset])
    ensures forall i :: 1 <= i < |b| && !(pnOffset <= i < pnOffset + pnLength) ==> r[i] == b[i]
  {
    seq(|b|, i requires 0 <= i < |b| =>
      if i == 0 then XorByte(b[0], LowBits(mask[0], bits))
      else if pnOffset <= i < pnOffset + pnLength then XorByte(b[i], mask[1 + i - pnOffset])
      else b[i])
  }

  lemma ApplyMaskTwice(b: seq<byte>, mask: seq<byte>, bits: nat, pnOffset: nat, pnLength: nat)
    requires |mask| == 5 && pnLength <= 4 && 1 <= pnOffset && pnOffset + pnLength <= |b|
    ensures ApplyMask(ApplyMask(b, mask, bits, pnOffset, pnLength), mask, bits, pnOffset, pnLength) == b
  {
    var r := ApplyMask(b, mask, bits, pnOffset, pnLength);
    var s := ApplyMask(r, mask, bits, pnOffset, pnLength);
    forall i | 0 <= i < |b| ensures s[i] == b[i] {
      if i == 0 {
        XorInvolution(b[0], LowBits(mask[0], bits));
      } else if pnOffset <= i < pnOffset + pnLength {
        XorInvolution(b[i], mask[1 + i - pnOffset]);
      }
    }
  }

  lemma ApplyMaskAppend(b: seq<byte>, x: seq<byte>, mask: seq<byte>, bits: nat, pnOffset: nat, pnLength: nat)
    requires |mask| == 5 && pnLength <= 4 && 1 <= pnOffset && pnOffset + pnLength <= |b|
    ensures ApplyMask(b + x, mask, bits, pnOffset, pnLength) == ApplyMask(b, mask, bits, pnOffset, pnLength) + x
  {
  }

  /** The sample does not depend on the masked bytes, nor on the packet number's length. */
  lemma SampleUnmasked(b: seq<byte>, x: seq<byte>, mask: seq<byte>, bits: nat, pnOffset: nat, pnLength: nat)
    requires |mask| == 5 && pnLength <= 4 && 1 <= pnOffset && pnOffset + pnLength <= |b|
    requires |b| >= pnOffset + 4 + SAMPLE_LENGTH || x == []
    ensures Sample(ApplyMask(b, mask, bits, pnOffset, pnLength) + x, pnOffset) == Sample(b, pnOffset)
  {
    var m := ApplyMask(b, mask, bits, pnOffset, pnLength);
    var s, t := Sample(m + x, pnOffset), Sample(b, pnOffset);
    assert |s| == |t| == SAMPLE_LENGTH;
    forall i | 0 <= i < SAMPLE_LENGTH ensures s[i] == t[i] {
    }
  }

  // ----- Sending

  /** The header as SendPacket encodes it: a long header gets the length of what follows it. */
  function WithLength(h: Header, payloadLength: nat): Header
    requires h.Long? ==> IsVarInt(h.long.truncatedPn.length + payloadLength)
  {
    match h
    case Long(l) => Long(l.(length := NewVarInt(l.truncatedPn.length + payloadLength)))
    case Short(_) => h
  }

  /** The bytes before masking. */
  function Sealed(k: Keys, h: Header, payload: seq<byte>): seq<byte>
    requires Truthful(h)
  {
    WriteHeader(h, k.seal(PacketNumber(h), WriteHeader(h, []), payload))
  }

  /** The bytes SendPacket puts on the wire for a header whose length is set. */
  function Protect(k: Keys, h: Header, payload: seq<byte>): seq<byte>
    requires Truthful(h) && Lawful(k)
  {
    var b := Sealed(k, h, payload);
    HeaderSize(h, k.seal(PacketNumber(h), WriteHeader(h, []), payload));
    ApplyMask(b, k.mask(Sample(b, PnOffset(h))), MaskedBits(h), PnOffset(h), PnLength(h))
  }

  // ----- Receiving

  /** Undoes the mask in place, given the header read from the masked bytes.  Bytes too short to hold the
      packet number make the code panic. */
  function Unmask(k: Keys, h: Header, b: seq<byte>): (u: Outcome<seq<byte>>)
    requires Lawful(k) && b != []
    ensures u.Ok? ==> |u.value| == |b|
  {
    var mask := k.mask(Sample(b, PnOffset(h)));
    var pnLength := XorByte(b[0], LowBits(mask[0], MaskedBits(h))) % 4 + 1;
    if PnOffset(h) + pnLength > |b| then Panic
    else Ok(ApplyMask(b, mask, MaskedBits(h), PnOffset(h), pnLength))
  }

  /** Which keys are there: nothing, or both the AEAD and the header cipher for reading. */
  datatype KeyRing = KeyRing(initial: Option<Keys>, zeroRtt: Option<Keys>, handshake: Option<Keys>, oneRtt: Option<Keys>) {
    function For(h: Header): Option<Keys> {
      match h
      case Short(_) => oneRtt
      case Long(l) =>
        if l.packetType == INITIAL then initial else if l.packetType == HANDSHAKE then handshake
        else if l.packetType == ZERO_RTT then zeroRtt else None
    }
  }

  ghost predicate LawfulRing(ring: KeyRing) {
    && (ring.initial.Some? ==> Lawful(ring.initial.value))
    && (ring.zeroRtt.Some? ==> Lawful(ring.zeroRtt.value))
    && (ring.handshake.Some? ==> Lawful(ring.handshake.value))
    && (ring.oneRtt.Some? ==> Lawful(ring.oneRtt.value))
  }

  datatype Packet =
    | Framed(header: Header, frames: seq<Frames.Frame>)
    | RetryReceived(bytes: seq<byte>)
    | NegotiationReceived(bytes: seq<byte>)

  /** Why the loop over a datagram ends. */
  datatype Ending = Finished | Negotiation | NoKeys | PastEnd | NotDecrypted | UnknownPacketType | Panicked

  /** One turn of the loop: a packet and what follows it, or the end. */
  datatype Turn = Next(packet: Packet, rest: seq<byte>) | Stop(packets: seq<Packet>, ending: Ending)

  /** ReadInitialPacket, ReadHandshakePacket and ReadProtectedPacket on a cleartext packet. */
  function ReadPacket(clear: seq<byte>, cidLength: nat, largest: Largest): (Header, Frames.Payload) {
    var h := ReadHeader(clear, cidLength, largest);
    (h, Frames.ParsePayload(AfterHeader(clear, cidLength)))
  }

  /** The bytes after the header, as the header readers leave them. */
  function AfterHeader(b: seq<byte>, cidLength: nat): seq<byte> {
    var pnLength := FirstByte(b) % 4 + 1;
    if FirstByte(b) >= 0x80 then ReadTruncated(ReadLongPrefix(b).1, pnLength).1
    else ReadTruncated(Frames.Take(Frames.Tail(b), cidLength).1, pnLength).1
  }

  /** Opens the unmasked packet at the head of u. */
  function OpenPacket(k: Keys, u: seq<byte>, cidLength: nat, largest: Largest): (t: Turn)
    requires u != []
    ensures t.Next? ==> |t.rest| < |u|
  {
    var h := ReadHeader(u, cidLength, largest);
    var hLen := HeaderLength(h);
    match h
    case Long(l) =>
      if l.packetType != INITIAL && l.packetType != HANDSHAKE then Stop([], UnknownPacketType)
      else
        var pLen := l.length.value - l.truncatedPn.length;
        if hLen + pLen > |u| then Stop([], PastEnd)
        else if pLen < 0 then Stop([], Panicked)
        else Decrypted(k, h, u[..hLen], u[hLen..hLen + pLen], u[hLen + pLen..], cidLength, largest)
    case Short(_) =>
      if hLen > |u| then Stop([], Panicked)
      else Decrypted(k, h, u[..hLen], u[hLen..], [], cidLength, largest)
  }

  function Decrypted(k: Keys, h: Header, header: seq<byte>, sealed: seq<byte>, rest: seq<byte>, cidLength: nat, largest: Largest): (t: Turn)
    ensures t.Next? ==> t.rest == rest
  {
    match k.open(PacketNumber(h), header, sealed)
    case None => Stop([], NotDecrypted)
    case Some(payload) =>
      var (h', p) := ReadPacket(header + payload, cidLength, largest);
      if p.unknown then Stop([], Panicked) else Next(Framed(h', p.frames), rest)
  }

  /** One turn of the parsing loop on the bytes that are left. */
  function ParseNext(ring: KeyRing, b: seq<byte>, cidLength: nat, largest: Largest): (t: Turn)
    requires LawfulRing(ring) && b != []
    ensures t.Next? ==> |t.rest| < |b|
  {
    var h := ReadHeader(b, cidLength, largest);
    if h.Long? && h.long.version == 0 then Stop([NegotiationReceived(b)], Negotiation)
    else if h.Long? && h.long.packetType == RETRY then Stop([RetryReceived(b)], Finished)
    else if h.Long? && h.long.packetType !in {INITIAL, ZERO_RTT, HANDSHAKE} then Stop([], UnknownPacketType)
    else
      match ring.For(h)
      case None => Stop([], NoKeys)
      case Some(k) =>
        match Unmask(k, h, b)
        case Panic => Stop([], Panicked)
        case Ok(u) => OpenPacket(k, u, cidLength, largest)
  }

  /** The largest numbers received, after a packet has been submitted. */
  function Noted(largest: Largest, p: Packet): Largest {
    match p
    case Framed(Short(s), _) =>
      if s.packetNumber > largest.appData then largest.(appData := s.packetNumber) else largest
    case Framed(Long(l), _) =>
      if l.packetType == INITIAL && l.packetNumber > largest.initial then largest.(initial := l.packetNumber)
      else if l.packetType == HANDSHAKE && l.packetNumber > largest.handshake then largest.(handshake := l.packetNumber)
      else largest
    case _ => largest
  }

  /** What a datagram gives: the packets submitted, in order, the largest numbers after them, and why
      the loop ended. */
  datatype Result = Result(packets: seq<Packet>, largest: Largest, ending: Ending)

  function ParseDatagram(ring: KeyRing, b: seq<byte>, cidLength: nat, largest: Largest): Result
    requires LawfulRing(ring)
    decreases |b|
  {
    if b == [] then Result([], largest, Finished)
    else
      match ParseNext(ring, b, cidLength, largest)
      case Stop(packets, ending) => Result(packets, largest, ending)
      case Next(p, rest) =>
        var more := ParseDatagram(ring, rest, cidLength, Noted(largest, p));
        Result([p] + more.packets, more.largest, more.ending)
  }
}
