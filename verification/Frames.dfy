/** QUIC frames on the wire (frames.go): writeTo, FrameLength and the readers behind NewFrame. */
module Frames {
  import opened Bytes
  import opened VarInts

  datatype AckBlock = AckBlock(gap: nat, block: nat)

  datatype AckFrame = AckFrame(largestAcknowledged: nat, ackDelay: nat, ackBlockCount: nat, ackBlocks: seq<AckBlock>)

  datatype Frame =
    | Padding
    | Ping
    | Ack(ack: AckFrame)
    | AckEcn(ack: AckFrame, ect0: nat, ect1: nat, ectCe: nat)
    | ResetStream(streamId: nat, errorCode: nat, finalOffset: nat)
    | StopSending(streamId: nat, errorCode: nat)
    | Crypto(offset: nat, length: nat, data: seq<byte>)
    | NewToken(token: seq<byte>)
    | Stream(fin: bool, lenBit: bool, offBit: bool, streamId: nat, offset: nat, length: nat, data: seq<byte>)
    | MaxData(maximum: nat)
    | MaxStreamData(streamId: nat, maximum: nat)
    | MaxStreams(uni: bool, maximum: nat)
    | DataBlocked(limit: nat)
    | StreamDataBlocked(streamId: nat, limit: nat)
    | StreamsBlocked(uni: bool, limit: nat)
    | NewConnectionId(sequence: nat, cidLength: nat, connectionId: seq<byte>, resetToken: seq<byte>)
    | RetireConnectionId(sequence: nat)
    | PathChallenge(data: seq<byte>)
    | PathResponse(data: seq<byte>)
    | ConnectionClose(errorCode: nat, errorFrameType: nat, reasonLength: nat, reason: seq<byte>)
    | ApplicationClose(errorCode: nat, reasonLength: nat, reason: seq<byte>)

  // ----- Which frames can be written, and which describe themselves truthfully

  predicate IsUint16(i: int) {
    0 <= i < 0x1_0000
  }

  predicate EncodableAck(a: AckFrame) {
    && IsVarInt(a.largestAcknowledged) && IsVarInt(a.ackDelay) && IsVarInt(a.ackBlockCount)
    && (forall i :: 0 <= i < |a.ackBlocks| ==> IsVarInt(a.ackBlocks[i].gap) && IsVarInt(a.ackBlocks[i].block))
  }

  /** The frame's fields are in range for their Go types and for WriteVarInt, which panics otherwise. */
  predicate Encodable(f: Frame) {
    match f
    case Padding => true
    case Ping => true
    case Ack(a) => EncodableAck(a)
    case AckEcn(a, e0, e1, ce) => EncodableAck(a) && IsVarInt(e0) && IsVarInt(e1) && IsVarInt(ce)
    case ResetStream(id, err, off) => IsVarInt(id) && IsUint16(err) && IsVarInt(off)
    case StopSending(id, err) => IsVarInt(id) && IsUint16(err)
    case Crypto(off, len, _) => IsVarInt(off) && IsVarInt(len)
    case NewToken(token) => IsVarInt(|token|)
    case Stream(_, _, _, id, off, len, _) => IsVarInt(id) && IsVarInt(off) && IsVarInt(len)
    case MaxData(m) => IsVarInt(m)
    case MaxStreamData(id, m) => IsVarInt(id) && IsVarInt(m)
    case MaxStreams(_, m) => IsVarInt(m)
    case DataBlocked(l) => IsVarInt(l)
    case StreamDataBlocked(id, l) => IsVarInt(id) && IsVarInt(l)
    case StreamsBlocked(_, l) => IsVarInt(l)
    case NewConnectionId(n, len, _, token) => IsVarInt(n) && len < 256 && |token| == 16
    case RetireConnectionId(n) => IsVarInt(n)
    case PathChallenge(d) => |d| == 8
    case PathResponse(d) => |d| == 8
    case ConnectionClose(err, t, len, _) => IsUint16(err) && IsVarInt(t) && IsVarInt(len)
    case ApplicationClose(err, len, _) => IsUint16(err) && IsVarInt(len)
  }

  predicate TruthfulAck(a: AckFrame) {
    |a.ackBlocks| == a.ackBlockCount + 1 && a.ackBlocks[0].gap == 0
  }

  /** Declared counts and lengths are the actual ones. */
  predicate Truthful(f: Frame) {
    match f
    case Ack(a) => TruthfulAck(a)
    case AckEcn(a, _, _, _) => TruthfulAck(a)
    case Crypto(_, len, d) => len == |d|
    case Stream(_, _, _, _, _, len, d) => len == |d|
    case NewConnectionId(_, len, cid, _) => len == |cid|
    case ConnectionClose(_, _, len, reason) => len == |reason|
    case ApplicationClose(_, len, reason) => len == |reason|
    case _ => true
  }

  // ----- Writing.  Each writer takes the bytes that will follow.

  function WriteVarInt(i: nat, rest: seq<byte>): seq<byte>
    requires IsVarInt(i)
  {
    EncodeVarInt(i) + rest
  }

  function WriteUint16(i: nat, rest: seq<byte>): seq<byte> {
    BigEndian(i, 2) + rest
  }

  function WriteBlocks(blocks: seq<AckBlock>, first: bool, rest: seq<byte>): seq<byte>
    requires forall i :: 0 <= i < |blocks| ==> IsVarInt(blocks[i].gap) && IsVarInt(blocks[i].block)
  {
    if blocks == [] then rest
    else
      var more := WriteVarInt(blocks[0].block, WriteBlocks(blocks[1..], false, rest));
      if first then more else WriteVarInt(blocks[0].gap, more)
  }

  function WriteAck(a: AckFrame, rest: seq<byte>): seq<byte>
    requires EncodableAck(a)
  {
    WriteVarInt(0x02, WriteVarInt(a.largestAcknowledged, WriteVarInt(a.ackDelay,
      WriteVarInt(a.ackBlockCount, WriteBlocks(a.ackBlocks, true, rest)))))
  }

  function StreamType(fin: bool, lenBit: bool, offBit: bool): nat {
    0x08 + (if fin then 1 else 0) + (if lenBit then 2 else 0) + (if offBit then 4 else 0)
  }

  /** The bytes writeTo appends for f, followed by rest. */
  function WriteFrame(f: Frame, rest: seq<byte>): seq<byte>
    requires Encodable(f)
  {
    match f
    case Padding => WriteVarInt(0x00, rest)
    case Ping => WriteVarInt(0x01, rest)
    case Ack(a) => WriteAck(a, rest)
    case AckEcn(a, e0, e1, ce) => WriteAck(a, WriteVarInt(e0, WriteVarInt(e1, WriteVarInt(ce, rest))))
    case ResetStream(id, err, off) => WriteVarInt(0x04, WriteVarInt(id, WriteUint16(err, WriteVarInt(off, rest))))
    case StopSending(id, err) => WriteVarInt(0x05, WriteVarInt(id, WriteUint16(err, rest)))
    case Crypto(off, len, d) => WriteVarInt(0x06, WriteVarInt(off, WriteVarInt(len, d + rest)))
    case NewToken(token) => WriteVarInt(0x07, WriteVarInt(|token|, token + rest))
    case Stream(fin, lenBit, offBit, id, off, len, d) =>
      var body := if lenBit then WriteVarInt(len, d + rest) else d + rest;
      WriteVarInt(StreamType(fin, lenBit, offBit), WriteVarInt(id, if offBit then WriteVarInt(off, body) else body))
    case MaxData(m) => WriteVarInt(0x10, WriteVarInt(m, rest))
    case MaxStreamData(id, m) => WriteVarInt(0x11, WriteVarInt(id, WriteVarInt(m, rest)))
    case MaxStreams(uni, m) => WriteVarInt(if uni then 0x13 else 0x12, WriteVarInt(m, rest))
    case DataBlocked(l) => WriteVarInt(0x14, WriteVarInt(l, rest))
    case StreamDataBlocked(id, l) => WriteVarInt(0x15, WriteVarInt(id, WriteVarInt(l, rest)))
    case StreamsBlocked(uni, l) => WriteVarInt(if uni then 0x17 else 0x16, WriteVarInt(l, rest))
    case NewConnectionId(n, len, cid, token) => WriteVarInt(0x18, WriteVarInt(n, [len as byte] + (cid + (token + rest))))
    case RetireConnectionId(n) => WriteVarInt(0x19, WriteVarInt(n, rest))
    case PathChallenge(d) => WriteVarInt(0x1a, d + rest)
    case PathResponse(d) => WriteVarInt(0x1b, d + rest)
    case ConnectionClose(err, t, len, reason) =>
      WriteVarInt(0x1c, WriteUint16(err, WriteVarInt(t, WriteVarInt(len, if len > 0 then reason + rest else rest))))
    case ApplicationClose(err, len, reason) =>
      WriteVarInt(0x1d, WriteUint16(err, WriteVarInt(len, if len > 0 then reason + rest else rest)))
  }

  /** EncodePayload. */
  function EncodePayload(frames: seq<Frame>): seq<byte>
    requires forall i :: 0 <= i < |frames| ==> Encodable(frames[i])
  {
    if frames == [] then [] else WriteFrame(frames[0], EncodePayload(frames[1..]))
  }

  // ----- Reading, on any bytes at all

  function Zeros(n: nat): (z: seq<byte>)
    ensures |z| == n
  {
    seq(n, _ => 0)
  }

  /** The bytes left after reading one, at the end of the input none. */
  function Tail(b: seq<byte>): seq<byte> {
    if b == [] then [] else b[1..]
  }

  /** Reader.Read into n zeroed bytes: takes what there is. */
  function Take(b: seq<byte>, n: nat): (r: (seq<byte>, seq<byte>))
    ensures |r.0| == n && |r.1| <= |b|
  {
    if |b| >= n then (b[..n], b[n..]) else (b + Zeros(n - |b|), [])
  }

  /** binary.Read into n zeroed bytes: all or nothing, the input being consumed either way. */
  function TakeFull(b: seq<byte>, n: nat): (r: (seq<byte>, seq<byte>))
    ensures |r.0| == n && |r.1| <= |b|
  {
    if |b| >= n then (b[..n], b[n..]) else (Zeros(n), [])
  }

  function ReadUint16(b: seq<byte>): (r: (nat, seq<byte>))
    ensures |r.1| <= |b|
  {
    var (v, rest) := TakeFull(b, 2);
    (FromBigEndian(v), rest)
  }

  function ReadBlocks(b: seq<byte>, n: nat): (r: (seq<AckBlock>, seq<byte>))
    ensures |r.1| <= |b|
    decreases n
  {
    if n == 0 then ([], b)
    else
      var gap := ReadVarInt(b);
      var block := ReadVarInt(gap.rest);
      var (more, rest) := ReadBlocks(block.rest, n - 1);
      ([AckBlock(gap.value, block.value)] + more, rest)
  }

  /** b starts after the type byte. */
  function ReadAck(b: seq<byte>): (r: (AckFrame, seq<byte>))
    ensures |r.1| <= |b|
  {
    var largest := ReadVarInt(b);
    var delay := ReadVarInt(largest.rest);
    var count := ReadVarInt(delay.rest);
    var first := ReadVarInt(count.rest);
    var (more, rest) := ReadBlocks(first.rest, count.value);
    (AckFrame(largest.value, delay.value, count.value, [AckBlock(0, first.value)] + more), rest)
  }

  function ReadStream(t: byte, b: seq<byte>): (r: (Frame, seq<byte>))
    ensures |r.1| <= |b|
  {
    var fin, lenBit, offBit := t % 2 == 1, t / 2 % 2 == 1, t / 4 % 2 == 1;
    var id := ReadVarInt(b);
    var off := if offBit then ReadVarInt(id.rest) else Read(0, true, id.rest);
    var len := if lenBit then ReadVarInt(off.rest) else Read(|off.rest|, true, off.rest);
    var (data, rest) := Take(len.rest, len.value);
    (Stream(fin, lenBit, offBit, id.value, off.value, len.value, data), rest)
  }

  function ReadReason(b: seq<byte>, n: nat): (r: (seq<byte>, seq<byte>))
    ensures |r.1| <= |b|
  {
    if n > 0 then TakeFull(b, n) else ([], b)
  }

  datatype Parsed = EndOfInput | UnknownType(t: byte) | Parsed(frame: Frame, rest: seq<byte>)

  /** The reader NewFrame dispatches to for type byte t, on the bytes after it. */
  function ReadBody(t: byte, b: seq<byte>): (p: Parsed)
    ensures p.Parsed? ==> |p.rest| <= |b|
  {
    if t == 0x00 then Parsed(Padding, b)
    else if t == 0x01 then Parsed(Ping, b)
    else if t == 0x02 then
      var (a, rest) := ReadAck(b);
      Parsed(Ack(a), rest)
    else if t == 0x03 then
      var (a, r0) := ReadAck(b);
      var e0 := ReadVarInt(r0);
      var e1 := ReadVarInt(e0.rest);
      var ce := ReadVarInt(e1.rest);
      Parsed(AckEcn(a, e0.value, e1.value, ce.value), ce.rest)
    else if t == 0x04 then
      var id := ReadVarInt(b);
      var (err, r) := ReadUint16(id.rest);
      var off := ReadVarInt(r);
      Parsed(ResetStream(id.value, err, off.value), off.rest)
    else if t == 0x05 then
      var id := ReadVarInt(b);
      var (err, rest) := ReadUint16(id.rest);
      Parsed(StopSending(id.value, err), rest)
    else if t == 0x06 then
      var off := ReadVarInt(b);
      var len := ReadVarInt(off.rest);
      var (data, rest) := Take(len.rest, len.value);
      Parsed(Crypto(off.value, len.value, data), rest)
    else if t == 0x07 then
      var len := ReadVarInt(b);
      var (token, rest) := Take(len.rest, len.value);
      Parsed(NewToken(token), rest)
    else if 0x08 <= t <= 0x0f then
      var (f, rest) := ReadStream(t, b);
      Parsed(f, rest)
    else ReadLimits(t, b)
  }

  function ReadLimits(t: byte, b: seq<byte>): (p: Parsed)
    ensures p.Parsed? ==> |p.rest| <= |b|
  {
    if t == 0x10 then
      var m := ReadVarInt(b);
      Parsed(MaxData(m.value), m.rest)
    else if t == 0x11 then
      var id := ReadVarInt(b);
      var m := ReadVarInt(id.rest);
      Parsed(MaxStreamData(id.value, m.value), m.rest)
    else if t == 0x12 || t == 0x13 then
      var m := ReadVarInt(b);
      Parsed(MaxStreams(false, m.value), m.rest)
    else if t == 0x14 then
      var l := ReadVarInt(b);
      Parsed(DataBlocked(l.value), l.rest)
    else if t == 0x15 then
      var id := ReadVarInt(b);
      var l := ReadVarInt(id.rest);
      Parsed(StreamDataBlocked(id.value, l.value), l.rest)
    else if t == 0x16 || t == 0x17 then
      var l := ReadVarInt(b);
      Parsed(StreamsBlocked(false, l.value), l.rest)
    else ReadOthers(t, b)
  }

  function ReadOthers(t: byte, b: seq<byte>): (p: Parsed)
    ensures p.Parsed? ==> |p.rest| <= |b|
  {
    if t == 0x18 then
      var n := ReadVarInt(b);
      var len := if n.rest == [] then 0 else n.rest[0];
      var (cid, r) := Take(Tail(n.rest), len);
      var (token, rest) := TakeFull(r, 16);
      Parsed(NewConnectionId(n.value, len, cid, token), rest)
    else if t == 0x19 then
      var n := ReadVarInt(b);
      Parsed(RetireConnectionId(n.value), n.rest)
    else if t == 0x1a then
      var (d, rest) := Take(b, 8);
      Parsed(PathChallenge(d), rest)
    else if t == 0x1b then
      var (d, rest) := Take(b, 8);
      Parsed(PathResponse(d), rest)
    else if t == 0x1c then
      var (err, r) := ReadUint16(b);
      var ft := ReadVarInt(r);
      var len := ReadVarInt(ft.rest);
      var (reason, rest) := ReadReason(len.rest, len.value);
      Parsed(ConnectionClose(err, ft.value, len.value, reason), rest)
    else if t == 0x1d then
      var (err, r) := ReadUint16(b);
      var len := ReadVarInt(r);
      var (reason, rest) := ReadReason(len.rest, len.value);
      Parsed(ApplicationClose(err, len.value, reason), rest)
    else UnknownType(t)
  }

  function NewFrame(b: seq<byte>): (p: Parsed)
    ensures p.EndOfInput? <==> b == []
    ensures p.Parsed? ==> |p.rest| < |b|
  {
    if b == [] then EndOfInput else ReadBody(b[0], b[1..])
  }

  // ----- Reading back what was written

  lemma TypeByte(t: byte, x: seq<byte>)
    requires t < 64
    ensures WriteVarInt(t, x) == [t] + x
    ensures NewFrame(WriteVarInt(t, x)) == ReadBody(t, x)
  {
    assert BigEndian(t, 1) == BigEndian(t / 256, 0) + [t];
    assert EncodeVarInt(t) == [t];
    assert ([t] + x)[1..] == x;
  }

  lemma LimitType(t: byte, x: seq<byte>)
    requires 0x10 <= t < 0x18
    ensures NewFrame(WriteVarInt(t, x)) == ReadLimits(t, x)
  {
    hide ReadLimits;
    TypeByte(t, x);
  }

  lemma OtherType(t: byte, x: seq<byte>)
    requires 0x18 <= t <= 0x1d
    ensures NewFrame(WriteVarInt(t, x)) == ReadOthers(t, x)
  {
    hide ReadOthers;
    TypeByte(t, x);
  }

  lemma ReasonRoundTrip(reason: seq<byte>, x: seq<byte>)
    ensures ReadReason(if |reason| > 0 then reason + x else x, |reason|) == (reason, x)
  {
    TakeRoundTrip(reason, x);
  }

  lemma Uint16RoundTrip(i: nat, x: seq<byte>)
    requires IsUint16(i)
    ensures ReadUint16(WriteUint16(i, x)) == (i, x)
  {
    var s := BigEndian(i, 2);
    assert (s + x)[..2] == s && (s + x)[2..] == x;
    BigEndianRoundTrip(i, 2);
    assert Pow256(1) == 256 && Pow256(2) == 65536;
  }

  lemma TakeRoundTrip(d: seq<byte>, x: seq<byte>)
    ensures Take(d + x, |d|) == (d, x) && TakeFull(d + x, |d|) == (d, x)
  {
    assert (d + x)[..|d|] == d && (d + x)[|d|..] == x;
  }

  lemma {:induction false} BlocksRoundTrip(blocks: seq<AckBlock>, x: seq<byte>)
    requires forall i :: 0 <= i < |blocks| ==> IsVarInt(blocks[i].gap) && IsVarInt(blocks[i].block)
    ensures ReadBlocks(WriteBlocks(blocks, false, x), |blocks|) == (blocks, x)
    decreases |blocks|
  {
    hide EncodeVarInt, ReadVarInt;
    if blocks != [] {
      var tail := WriteBlocks(blocks[1..], false, x);
      VarIntRoundTrip(blocks[0].gap, WriteVarInt(blocks[0].block, tail));
      VarIntRoundTrip(blocks[0].block, tail);
      BlocksRoundTrip(blocks[1..], x);
      assert blocks == [blocks[0]] + blocks[1..];
    }
  }

  /** The body of an ACK frame after its type. */
  function WriteAckBody(a: AckFrame, x: seq<byte>): seq<byte>
    requires EncodableAck(a)
  {
    WriteVarInt(a.largestAcknowledged, WriteVarInt(a.ackDelay,
      WriteVarInt(a.ackBlockCount, WriteBlocks(a.ackBlocks, true, x))))
  }

  lemma AckRoundTrip(a: AckFrame, x: seq<byte>)
    requires EncodableAck(a) && TruthfulAck(a)
    ensures ReadAck(WriteAckBody(a, x)) == (a, x)
  {
    hide EncodeVarInt, ReadVarInt;
    var tail := WriteBlocks(a.ackBlocks[1..], false, x);
    var b3 := WriteVarInt(a.ackBlocks[0].block, tail);
    var b2 := WriteVarInt(a.ackBlockCount, b3);
    var b1 := WriteVarInt(a.ackDelay, b2);
    VarIntRoundTrip(a.largestAcknowledged, b1);
    VarIntRoundTrip(a.ackDelay, b2);
    VarIntRoundTrip(a.ackBlockCount, b3);
    VarIntRoundTrip(a.ackBlocks[0].block, tail);
    BlocksRoundTrip(a.ackBlocks[1..], x);
    assert a.ackBlocks == [AckBlock(0, a.ackBlocks[0].block)] + a.ackBlocks[1..];
  }

  /** The frames a reader can recover when x follows: no ACK_ECN, no unidirectional MAX_STREAMS or
      STREAMS_BLOCKED, no STREAM frame that drops a non-zero offset, and no STREAM frame without a
      length unless it is last. */
  predicate Survives(f: Frame, x: seq<byte>) {
    match f
    case AckEcn(_, _, _, _) => false
    case MaxStreams(uni, _) => !uni
    case StreamsBlocked(uni, _) => !uni
    case Stream(_, lenBit, offBit, _, off, _, _) => (lenBit || x == []) && (offBit || off == 0)
    case _ => true
  }

  ghost predicate ReadsBack(f: Frame, x: seq<byte>)
    requires Encodable(f)
  {
    NewFrame(WriteFrame(f, x)) == Parsed(f, x)
  }

  lemma AckReadsBack(a: AckFrame, x: seq<byte>)
    requires EncodableAck(a) && TruthfulAck(a)
    ensures NewFrame(WriteAck(a, x)) == Parsed(Ack(a), x)
  {
    hide EncodeVarInt, ReadVarInt;
    TypeByte(0x02, WriteAckBody(a, x));
    AckRoundTrip(a, x);
  }

  lemma TwoVarInts(i: nat, j: nat, x: seq<byte>)
    requires IsVarInt(i) && IsVarInt(j)
    ensures var r := ReadVarInt(WriteVarInt(i, WriteVarInt(j, x)));
            r == Read(i, true, WriteVarInt(j, x)) && ReadVarInt(r.rest) == Read(j, true, x)
  {
    hide EncodeVarInt, ReadVarInt;
    VarIntRoundTrip(i, WriteVarInt(j, x));
    VarIntRoundTrip(j, x);
  }

  lemma ResetStreamReadsBack(id: nat, err: nat, off: nat, x: seq<byte>)
    requires IsVarInt(id) && IsUint16(err) && IsVarInt(off)
    ensures ReadsBack(ResetStream(id, err, off), x)
  {
    hide EncodeVarInt, ReadVarInt;
    var b2 := WriteVarInt(off, x);
    var b1 := WriteUint16(err, b2);
    TypeByte(0x04, WriteVarInt(id, b1));
    VarIntRoundTrip(id, b1);
    Uint16RoundTrip(err, b2);
    VarIntRoundTrip(off, x);
  }

  lemma StopSendingReadsBack(id: nat, err: nat, x: seq<byte>)
    requires IsVarInt(id) && IsUint16(err)
    ensures ReadsBack(StopSending(id, err), x)
  {
    hide EncodeVarInt, ReadVarInt;
    var b1 := WriteUint16(err, x);
    TypeByte(0x05, WriteVarInt(id, b1));
    VarIntRoundTrip(id, b1);
    Uint16RoundTrip(err, x);
  }

  lemma CryptoReadsBack(off: nat, d: seq<byte>, x: seq<byte>)
    requires IsVarInt(off) && IsVarInt(|d|)
    ensures ReadsBack(Crypto(off, |d|, d), x)
  {
    hide EncodeVarInt, ReadVarInt;
    TypeByte(0x06, WriteVarInt(off, WriteVarInt(|d|, d + x)));
    TwoVarInts(off, |d|, d + x);
    TakeRoundTrip(d, x);
  }

  lemma NewTokenReadsBack(token: seq<byte>, x: seq<byte>)
    requires IsVarInt(|token|)
    ensures ReadsBack(NewToken(token), x)
  {
    hide EncodeVarInt, ReadVarInt;
    TypeByte(0x07, WriteVarInt(|token|, token + x));
    VarIntRoundTrip(|token|, token + x);
    TakeRoundTrip(token, x);
  }

  lemma NewConnectionIdReadsBack(n: nat, cid: seq<byte>, token: seq<byte>, x: seq<byte>)
    requires IsVarInt(n) && |cid| < 256 && |token| == 16
    ensures ReadsBack(NewConnectionId(n, |cid|, cid, token), x)
  {
    hide EncodeVarInt, ReadVarInt, NewFrame, Take, TakeFull;
    var b1 := [|cid| as byte] + (cid + (token + x));
    OtherType(0x18, WriteVarInt(n, b1));
    VarIntRoundTrip(n, b1);
    assert Tail(b1) == cid + (token + x);
    TakeRoundTrip(cid, token + x);
    TakeRoundTrip(token, x);
  }

  lemma PathChallengeReadsBack(d: seq<byte>, x: seq<byte>)
    requires |d| == 8
    ensures ReadsBack(PathChallenge(d), x)
  {
    hide EncodeVarInt, ReadVarInt, NewFrame, Take;
    OtherType(0x1a, d + x);
    TakeRoundTrip(d, x);
  }

  lemma PathResponseReadsBack(d: seq<byte>, x: seq<byte>)
    requires |d| == 8
    ensures ReadsBack(PathResponse(d), x)
  {
    hide EncodeVarInt, ReadVarInt, NewFrame, Take;
    OtherType(0x1b, d + x);
    TakeRoundTrip(d, x);
  }

  lemma RetireReadsBack(n: nat, x: seq<byte>)
    requires IsVarInt(n)
    ensures ReadsBack(RetireConnectionId(n), x)
  {
    hide EncodeVarInt, ReadVarInt, NewFrame;
    OtherType(0x19, WriteVarInt(n, x));
    VarIntRoundTrip(n, x);
  }

  lemma ConnectionCloseReadsBack(err: nat, t: nat, reason: seq<byte>, x: seq<byte>)
    requires IsUint16(err) && IsVarInt(t) && IsVarInt(|reason|)
    ensures ReadsBack(ConnectionClose(err, t, |reason|, reason), x)
  {
    hide EncodeVarInt, ReadVarInt, NewFrame, ReadReason, ReadUint16, WriteUint16;
    var b := if |reason| > 0 then reason + x else x;
    var b1 := WriteVarInt(t, WriteVarInt(|reason|, b));
    OtherType(0x1c, WriteUint16(err, b1));
    Uint16RoundTrip(err, b1);
    TwoVarInts(t, |reason|, b);
    ReasonRoundTrip(reason, x);
  }

  lemma ApplicationCloseReadsBack(err: nat, reason: seq<byte>, x: seq<byte>)
    requires IsUint16(err) && IsVarInt(|reason|)
    ensures ReadsBack(ApplicationClose(err, |reason|, reason), x)
  {
    hide EncodeVarInt, ReadVarInt, NewFrame, ReadReason, ReadUint16, WriteUint16;
    var b := if |reason| > 0 then reason + x else x;
    var b1 := WriteVarInt(|reason|, b);
    OtherType(0x1d, WriteUint16(err, b1));
    Uint16RoundTrip(err, b1);
    VarIntRoundTrip(|reason|, b);
    ReasonRoundTrip(reason, x);
  }

  lemma StreamBody(fin: bool, lenBit: bool, offBit: bool, id: nat, off: nat, d: seq<byte>, x: seq<byte>)
    requires IsVarInt(id) && IsVarInt(off) && IsVarInt(|d|)
    ensures var body := if lenBit then WriteVarInt(|d|, d + x) else d + x;
            var rest := if offBit then WriteVarInt(off, body) else body;
            ReadStream(StreamType(fin, lenBit, offBit), WriteVarInt(id, rest)) ==
            (var o := if offBit then off else 0;
             if lenBit then (Stream(fin, lenBit, offBit, id, o, |d|, d), x)
             else (Stream(fin, lenBit, offBit, id, o, |d + x|, d + x), []))
  {
    hide EncodeVarInt, ReadVarInt;
    var body := if lenBit then WriteVarInt(|d|, d + x) else d + x;
    var rest := if offBit then WriteVarInt(off, body) else body;
    VarIntRoundTrip(id, rest);
    VarIntRoundTrip(off, body);
    VarIntRoundTrip(|d|, d + x);
    TakeRoundTrip(d, x);
    assert (d + x)[..|d + x|] == d + x;
  }

  /** What a STREAM frame is read back as: without an offset bit the offset is 0, and without a length
      bit the data runs to the end of the input. */
  lemma StreamReadsBackAs(f: Frame, x: seq<byte>)
    requires f.Stream? && Encodable(f) && Truthful(f)
    ensures NewFrame(WriteFrame(f, x)) ==
            (var off := if f.offBit then f.offset else 0;
             if f.lenBit then Parsed(f.(offset := off), x)
             else Parsed(f.(offset := off, length := |f.data + x|, data := f.data + x), []))
  {
    hide EncodeVarInt, ReadVarInt, ReadStream;
    var body := if f.lenBit then WriteVarInt(f.length, f.data + x) else f.data + x;
    var rest := if f.offBit then WriteVarInt(f.offset, body) else body;
    TypeByte(StreamType(f.fin, f.lenBit, f.offBit), WriteVarInt(f.streamId, rest));
    StreamBody(f.fin, f.lenBit, f.offBit, f.streamId, f.offset, f.data, x);
  }

  ghost predicate RoundTrips(f: Frame, x: seq<byte>)
    requires Encodable(f)
  {
    var p := NewFrame(WriteFrame(f, x));
    && p.Parsed?
    && (p.frame == f <==> Survives(f, x))
    && (Survives(f, x) ==> p.rest == x)
  }

  lemma LimitFrames(f: Frame, x: seq<byte>)
    requires Encodable(f)
    requires f.MaxData? || f.MaxStreamData? || f.MaxStreams? || f.DataBlocked? || f.StreamDataBlocked? || f.StreamsBlocked?
    ensures RoundTrips(f, x)
  {
    hide EncodeVarInt, ReadVarInt, ReadOthers, NewFrame;
    match f
    case MaxData(m) => LimitType(0x10, WriteVarInt(m, x)); VarIntRoundTrip(m, x);
    case MaxStreamData(id, m) => LimitType(0x11, WriteVarInt(id, WriteVarInt(m, x))); TwoVarInts(id, m, x);
    case MaxStreams(uni, m) => LimitType(if uni then 0x13 else 0x12, WriteVarInt(m, x)); VarIntRoundTrip(m, x);
    case DataBlocked(l) => LimitType(0x14, WriteVarInt(l, x)); VarIntRoundTrip(l, x);
    case StreamDataBlocked(id, l) => LimitType(0x15, WriteVarInt(id, WriteVarInt(l, x))); TwoVarInts(id, l, x);
    case StreamsBlocked(uni, l) => LimitType(if uni then 0x17 else 0x16, WriteVarInt(l, x)); VarIntRoundTrip(l, x);
  }

  /** A frame that survives and is read back makes the round trip. */
  lemma Survivor(f: Frame, x: seq<byte>)
    requires Encodable(f) && Survives(f, x) && ReadsBack(f, x)
    ensures RoundTrips(f, x)
  {
    hide NewFrame, WriteFrame, Survives;
  }

  lemma ControlFrames(f: Frame, x: seq<byte>)
    requires Encodable(f) && Truthful(f)
    requires f.NewConnectionId? || f.RetireConnectionId? || f.PathChallenge? || f.PathResponse? || f.ConnectionClose? || f.ApplicationClose?
    ensures RoundTrips(f, x)
  {
    hide ReadsBack, RoundTrips;
    match f {
      case NewConnectionId(n, _, cid, token) => NewConnectionIdReadsBack(n, cid, token, x);
      case RetireConnectionId(n) => RetireReadsBack(n, x);
      case PathChallenge(d) => PathChallengeReadsBack(d, x);
      case PathResponse(d) => PathResponseReadsBack(d, x);
      case ConnectionClose(err, t, _, reason) => ConnectionCloseReadsBack(err, t, reason, x);
      case ApplicationClose(err, _, reason) => ApplicationCloseReadsBack(err, reason, x);
    }
    Survivor(f, x);
  }

  lemma BasicFrames(f: Frame, x: seq<byte>)
    requires Encodable(f) && Truthful(f)
    requires f.Padding? || f.Ping? || f.Ack? || f.AckEcn? || f.ResetStream? || f.StopSending? || f.Crypto? || f.NewToken?
    ensures RoundTrips(f, x)
  {
    hide EncodeVarInt, ReadVarInt, ReadAck, WriteAck, ReadStream, ReadLimits, ReadUint16, Take, TakeFull;
    match f
    case Padding => TypeByte(0x00, x);
    case Ping => TypeByte(0x01, x);
    case Ack(a) => AckReadsBack(a, x);
    case AckEcn(a, e0, e1, ce) => AckReadsBack(a, WriteVarInt(e0, WriteVarInt(e1, WriteVarInt(ce, x))));
    case ResetStream(id, err, off) => ResetStreamReadsBack(id, err, off, x);
    case StopSending(id, err) => StopSendingReadsBack(id, err, x);
    case Crypto(off, _, d) => CryptoReadsBack(off, d, x);
    case NewToken(token) => NewTokenReadsBack(token, x);
  }

  lemma StreamRoundTrips(f: Frame, x: seq<byte>)
    requires f.Stream? && Encodable(f) && Truthful(f)
    ensures RoundTrips(f, x)
  {
    hide WriteFrame, NewFrame;
    StreamReadsBackAs(f, x);
    if !f.lenBit {
      assert |f.data + x| == |f.data| + |x|;
      assert x == [] ==> f.data + x == f.data;
    }
  }

  /** A truthful frame is read back as itself, whatever follows, if and only if it Survives; otherwise
      a different frame is read. */
  lemma FrameRoundTripIff(f: Frame, x: seq<byte>)
    requires Encodable(f) && Truthful(f)
    ensures ReadsBack(f, x) <==> Survives(f, x)
    ensures var p := NewFrame(WriteFrame(f, x)); p.Parsed? && (p.frame == f <==> Survives(f, x))
  {
    hide WriteFrame, NewFrame;
    if f.Stream? {
      StreamRoundTrips(f, x);
    } else if f.Padding? || f.Ping? || f.Ack? || f.AckEcn? || f.ResetStream? || f.StopSending? || f.Crypto? || f.NewToken? {
      BasicFrames(f, x);
    } else if f.NewConnectionId? || f.RetireConnectionId? || f.PathChallenge? || f.PathResponse? || f.ConnectionClose? || f.ApplicationClose? {
      ControlFrames(f, x);
    } else {
      LimitFrames(f, x);
    }
  }

  // ----- Frame lists

  /** What the frame-parsing loop of a packet reader ends with: the frames, or the panic on a type it
      does not know, after the frames before it. */
  datatype Payload = Payload(frames: seq<Frame>, unknown: bool)

  function ParsePayload(b: seq<byte>): Payload
    decreases |b|
  {
    match NewFrame(b)
    case EndOfInput => Payload([], false)
    case UnknownType(_) => Payload([], true)
    case Parsed(f, rest) =>
      var more := ParsePayload(rest);
      Payload([f] + more.frames, more.unknown)
  }

  /** The parsing loop of ReadInitialPacket, ReadHandshakePacket and ReadProtectedPacket. */
  method ParseFrames(b: seq<byte>) returns (frames: seq<Frame>, unknown: bool)
    ensures Payload(frames, unknown) == ParsePayload(b)
  {
    frames, unknown := [], false;
    var rest := b;
    while true
      invariant !unknown
      invariant ParsePayload(b) == Payload(frames + ParsePayload(rest).frames, ParsePayload(rest).unknown)
      decreases |rest|
    {
      var p := NewFrame(rest);
      match p {
        case EndOfInput =>
          return;
        case UnknownType(_) =>
          unknown := true;
          return;
        case Parsed(f, r) =>
          assert frames + ([f] + ParsePayload(r).frames) == (frames + [f]) + ParsePayload(r).frames;
          frames := frames + [f];
          rest := r;
      }
    }
  }

  ghost predicate AllTruthful(frames: seq<Frame>) {
    forall i :: 0 <= i < |frames| ==> Encodable(frames[i]) && Truthful(frames[i])
  }

  /** Every frame can be recovered where it stands; only the last may be a STREAM frame without length. */
  ghost predicate AllSurvive(frames: seq<Frame>) {
    forall i :: 0 <= i < |frames| ==> Survives(frames[i], if i == |frames| - 1 then [] else [0])
  }

  lemma WrittenNotEmpty(f: Frame, x: seq<byte>)
    requires Encodable(f)
    ensures WriteFrame(f, x) != []
  {
  }

  /** Frame list round trip: parsing the encoding of truthful frames gives those frames back if and
      only if every one of them can be recovered where it stands. */
  lemma {:induction false} FrameListRoundTripIff(frames: seq<Frame>)
    requires AllTruthful(frames)
    ensures ParsePayload(EncodePayload(frames)) == Payload(frames, false) <==> AllSurvive(frames)
    decreases |frames|
  {
    if frames != [] {
      var f, tail := frames[0], frames[1..];
      var x := EncodePayload(tail);
      assert x == [] <==> tail == [] by {
        if tail != [] {
          WrittenNotEmpty(tail[0], EncodePayload(tail[1..]));
        }
      }
      FrameRoundTripIff(f, x);
      FrameListRoundTripIff(tail);
      TailSurvives(frames);
      FirstDecides(frames, x);
    }
  }

  lemma TailSurvives(frames: seq<Frame>)
    requires frames != []
    ensures AllSurvive(frames) <==>
            Survives(frames[0], if |frames| == 1 then [] else [0]) && AllSurvive(frames[1..])
  {
    var tail := frames[1..];
    if AllSurvive(tail) && Survives(frames[0], if |frames| == 1 then [] else [0]) {
      forall i | 0 <= i < |frames| ensures Survives(frames[i], if i == |frames| - 1 then [] else [0]) {
        if i > 0 {
          assert frames[i] == tail[i - 1];
        }
      }
    }
    if AllSurvive(frames) {
      forall i | 0 <= i < |tail| ensures Survives(tail[i], if i == |tail| - 1 then [] else [0]) {
        assert tail[i] == frames[i + 1];
      }
    }
  }

  /** The list reads back exactly when its first frame does and then the rest does. */
  lemma FirstDecides(frames: seq<Frame>, x: seq<byte>)
    requires AllTruthful(frames) && frames != [] && x == EncodePayload(frames[1..])
    ensures ParsePayload(EncodePayload(frames)) == Payload(frames, false) <==>
            ReadsBack(frames[0], x) && ParsePayload(x) == Payload(frames[1..], false)
  {
    hide WriteFrame, NewFrame;
    FrameRoundTripIff(frames[0], x);
    var p := NewFrame(WriteFrame(frames[0], x));
    var more := ParsePayload(p.rest);
    assert ParsePayload(EncodePayload(frames)) == Payload([p.frame] + more.frames, more.unknown);
    assert ([p.frame] + more.frames)[0] == p.frame && ([p.frame] + more.frames)[1..] == more.frames;
    assert frames == [frames[0]] + frames[1..];
  }

  // ----- Sizes

  function BlocksLength(blocks: seq<AckBlock>, first: bool): nat
    requires forall i :: 0 <= i < |blocks| ==> IsVarInt(blocks[i].gap) && IsVarInt(blocks[i].block)
  {
    if blocks == [] then 0
    else (if first then 0 else VarIntLen(blocks[0].gap)) + VarIntLen(blocks[0].block) + BlocksLength(blocks[1..], false)
  }

  function AckLength(a: AckFrame): nat
    requires EncodableAck(a)
  {
    1 + VarIntLen(a.largestAcknowledged) + VarIntLen(a.ackDelay) + VarIntLen(a.ackBlockCount) + BlocksLength(a.ackBlocks, true)
  }

  /** The sum FrameLength forms, before its truncation to 16 bits. */
  function UntruncatedLength(f: Frame): nat
    requires Encodable(f)
  {
    match f
    case Padding => 1
    case Ping => 1
    case Ack(a) => AckLength(a)
    case AckEcn(a, e0, e1, ce) => AckLength(a) + VarIntLen(e0) + VarIntLen(e1) + VarIntLen(ce)
    case ResetStream(id, _, off) => 1 + VarIntLen(id) + 2 + VarIntLen(off)
    case StopSending(id, _) => 1 + VarIntLen(id) + 2
    case Crypto(off, len, d) => 1 + VarIntLen(off) + VarIntLen(len) + |d|
    case NewToken(token) => 1 + VarIntLen(|token|) + |token|
    case Stream(_, lenBit, offBit, id, off, len, d) =>
      1 + VarIntLen(id) + (if offBit then VarIntLen(off) else 0) + (if lenBit then VarIntLen(len) else 0) + |d|
    case MaxData(m) => 1 + VarIntLen(m)
    case MaxStreamData(id, m) => 1 + VarIntLen(id) + VarIntLen(m)
    case MaxStreams(_, m) => 1 + VarIntLen(m)
    case DataBlocked(l) => 1 + VarIntLen(l)
    case StreamDataBlocked(id, l) => 1 + VarIntLen(id) + VarIntLen(l)
    case StreamsBlocked(_, l) => 1 + VarIntLen(l)
    case NewConnectionId(n, _, cid, _) => 1 + VarIntLen(n) + 1 + |cid| + 16
    case RetireConnectionId(n) => 1 + VarIntLen(n)
    case PathChallenge(_) => 1 + 8
    case PathResponse(_) => 1 + 8
    case ConnectionClose(_, t, len, _) => 1 + 2 + VarIntLen(t) + VarIntLen(len) + len
    case ApplicationClose(_, len, _) => 1 + 2 + VarIntLen(len) + len
  }

  /** FrameLength, which adds 16-bit integers. */
  function FrameLength(f: Frame): (n: nat)
    requires Encodable(f)
  {
    UntruncatedLength(f) % 0x1_0000
  }

  function PayloadLength(frames: seq<Frame>): nat
    requires forall i :: 0 <= i < |frames| ==> Encodable(frames[i])
  {
    if frames == [] then 0 else UntruncatedLength(frames[0]) + PayloadLength(frames[1..])
  }

  lemma {:induction false} BlocksSize(blocks: seq<AckBlock>, first: bool, x: seq<byte>)
    requires forall i :: 0 <= i < |blocks| ==> IsVarInt(blocks[i].gap) && IsVarInt(blocks[i].block)
    ensures |WriteBlocks(blocks, first, x)| == BlocksLength(blocks, first) + |x|
    decreases |blocks|
  {
    hide Tagged;
    if blocks != [] {
      BlocksSize(blocks[1..], false, x);
    }
  }

  lemma AckSize(a: AckFrame, x: seq<byte>)
    requires EncodableAck(a)
    ensures |WriteAck(a, x)| == AckLength(a) + |x|
  {
    hide Tagged, VarIntLen;
    OneByteType(0x02);
    BlocksSize(a.ackBlocks, true, x);
  }

  lemma OneByteType(t: nat)
    requires t < 64
    ensures VarIntLen(t) == 1
  {
  }

  /** The sum behind FrameLength is the number of bytes written. */
  lemma FrameSize(f: Frame, x: seq<byte>)
    requires Encodable(f) && Truthful(f)
    ensures |WriteFrame(f, x)| == UntruncatedLength(f) + |x|
  {
    hide Tagged, VarIntLen, WriteAck, AckLength, BigEndian;
    var t := match f
      case Stream(fin, lenBit, offBit, _, _, _, _) => StreamType(fin, lenBit, offBit)
      case Padding => 0x00 case Ping => 0x01 case Ack(_) => 0x02 case AckEcn(_, _, _, _) => 0x02
      case ResetStream(_, _, _) => 0x04 case StopSending(_, _) => 0x05 case Crypto(_, _, _) => 0x06
      case NewToken(_) => 0x07 case MaxData(_) => 0x10 case MaxStreamData(_, _) => 0x11
      case MaxStreams(uni, _) => if uni then 0x13 else 0x12
      case DataBlocked(_) => 0x14 case StreamDataBlocked(_, _) => 0x15
      case StreamsBlocked(uni, _) => if uni then 0x17 else 0x16
      case NewConnectionId(_, _, _, _) => 0x18 case RetireConnectionId(_) => 0x19
      case PathChallenge(_) => 0x1a case PathResponse(_) => 0x1b
      case ConnectionClose(_, _, _, _) => 0x1c case ApplicationClose(_, _, _) => 0x1d;
    OneByteType(t);
    if f.Ack? {
      AckSize(f.ack, x);
    } else if f.AckEcn? {
      AckSize(f.ack, WriteVarInt(f.ect0, WriteVarInt(f.ect1, WriteVarInt(f.ectCe, x))));
    }
  }

  /** The encoded size of a payload is the sum of its frames' lengths, and FrameLength is exact for
      every frame of fewer than 2^16 bytes. */
  lemma {:induction false} PayloadSize(frames: seq<Frame>)
    requires AllTruthful(frames)
    ensures |EncodePayload(frames)| == PayloadLength(frames)
    ensures forall i :: 0 <= i < |frames| ==>
              FrameLength(frames[i]) == |WriteFrame(frames[i], [])| % 0x1_0000
    decreases |frames|
  {
    hide WriteFrame, UntruncatedLength;
    if frames != [] {
      FrameSize(frames[0], EncodePayload(frames[1..]));
      FrameSize(frames[0], []);
      PayloadSize(frames[1..]);
      forall i | 0 <= i < |frames| ensures FrameLength(frames[i]) == |WriteFrame(frames[i], [])| % 0x1_0000 {
        if i > 0 {
          assert frames[i] == frames[1..][i - 1];
        }
      }
    }
  }

  // ----- Writing is appending

  lemma VarIntAppends(x: seq<byte>)
    ensures forall i: nat, r: seq<byte> {:trigger WriteVarInt(i, r) + x} ::
              IsVarInt(i) ==> WriteVarInt(i, r) + x == WriteVarInt(i, r + x)
  {
    forall i: nat, r: seq<byte> | IsVarInt(i) ensures WriteVarInt(i, r) + x == WriteVarInt(i, r + x) {
      assert (EncodeVarInt(i) + r) + x == EncodeVarInt(i) + (r + x);
    }
  }

  lemma BytesAppend(x: seq<byte>)
    ensures forall d: seq<byte>, r: seq<byte> {:trigger (d + r) + x} :: (d + r) + x == d + (r + x)
  {
  }

  lemma {:induction false} BlocksAppend(blocks: seq<AckBlock>, first: bool, r: seq<byte>, x: seq<byte>)
    requires forall i :: 0 <= i < |blocks| ==> IsVarInt(blocks[i].gap) && IsVarInt(blocks[i].block)
    ensures WriteBlocks(blocks, first, r) + x == WriteBlocks(blocks, first, r + x)
    decreases |blocks|
  {
    hide WriteVarInt;
    if blocks != [] {
      VarIntAppends(x);
      BlocksAppend(blocks[1..], false, r, x);
    }
  }

  /** WriteFrame(f, x) is the bytes of f alone followed by x, so EncodePayload is what successive writeTo
      calls leave in one buffer. */
  lemma WriteAppends(f: Frame, x: seq<byte>)
    requires Encodable(f)
    ensures WriteFrame(f, []) + x == WriteFrame(f, x)
  {
    hide WriteVarInt, WriteBlocks, BigEndian;
    VarIntAppends(x);
    BytesAppend(x);
    assert [] + x == x;
    if f.Ack? {
      BlocksAppend(f.ack.ackBlocks, true, [], x);
    } else if f.AckEcn? {
      BlocksAppend(f.ack.ackBlocks, true, WriteVarInt(f.ect0, WriteVarInt(f.ect1, WriteVarInt(f.ectCe, []))), x);
    }
  }

  /** EncodePayload, as the loop that appends frame after frame to one buffer. */
  method WritePayload(frames: seq<Frame>) returns (buffer: seq<byte>)
    requires forall i :: 0 <= i < |frames| ==> Encodable(frames[i])
    ensures buffer == EncodePayload(frames)
  {
    hide WriteFrame;
    buffer := [];
    for i := 0 to |frames|
      invariant buffer + EncodePayload(frames[i..]) == EncodePayload(frames)
    {
      WriteAppends(frames[i], EncodePayload(frames[i + 1..]));
      assert frames[i..][1..] == frames[i + 1..];
      buffer := buffer + WriteFrame(frames[i], []);
    }
    assert frames[|frames|..] == [];
  }
}
