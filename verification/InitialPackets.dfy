/** The client's first packet is padded to a fixed size (connection.go:129-144) before its length field is
    rewritten by SendPacket (connection.go:76-83). */
module InitialPackets {
  import opened Bytes
  import opened VarInts
  import opened PacketNumbers
  import opened Headers
  import opened Protection
  import Frames

  const MINIMUM_INITIAL_LENGTH := 1252
  const MINIMUM_INITIAL_LENGTH_V6 := 1232

  ghost predicate AllEncodable(frames: seq<Frames.Frame>) {
    forall i :: 0 <= i < |frames| ==> Frames.Encodable(frames[i])
  }

  lemma {:induction false} EncodePayloadAppend(a: seq<Frames.Frame>, b: seq<Frames.Frame>)
    requires AllEncodable(a) && AllEncodable(b)
    ensures AllEncodable(a + b) && Frames.EncodePayload(a + b) == Frames.EncodePayload(a) + Frames.EncodePayload(b)
    decreases |a|
  {
    hide Frames.WriteFrame, Frames.Encodable;
    if a == [] {
      assert a + b == b;
    } else {
      assert (a + b)[1..] == a[1..] + b;
      EncodePayloadAppend(a[1..], b);
      Frames.WriteAppends(a[0], Frames.EncodePayload(a[1..]));
      Frames.WriteAppends(a[0], Frames.EncodePayload(a[1..] + b));
    }
  }

  lemma PaddingByte()
    ensures |Frames.EncodePayload([Frames.Padding])| == 1
  {
    assert [Frames.Padding][1..] == [];
  }

  /** A header before SendPacket: everything but the length field is in place, and that one is zero. */
  predicate Fresh(h: LongHeader) {
    h.packetType == INITIAL && h.length == VarInt(0, 0) && TruthfulLong(h.(length := NewVarInt(0)))
  }

  /** What GetInitialPacket subtracts from the target: a zero length field counts as one byte already. */
  function Occupied(h: LongHeader, payloadLength: nat, overhead: nat): nat
    requires Fresh(h) && IsVarInt(payloadLength)
  {
    |WriteLong(h, [])| + VarIntLen(payloadLength) + payloadLength + overhead
  }

  /** The padding loop of GetInitialPacket. */
  method Pad(h: LongHeader, frames: seq<Frames.Frame>, overhead: nat, target: nat) returns (padded: seq<Frames.Frame>)
    requires Fresh(h) && AllEncodable(frames) && IsVarInt(|Frames.EncodePayload(frames)|)
    ensures AllEncodable(padded) && frames <= padded
    ensures forall i :: |frames| <= i < |padded| ==> padded[i] == Frames.Padding
    ensures var occupied := Occupied(h, |Frames.EncodePayload(frames)|, overhead);
      var n := if occupied < target then target - occupied else 0;
      |padded| == |frames| + n && |Frames.EncodePayload(padded)| == |Frames.EncodePayload(frames)| + n
  {
    hide WriteLong, Fresh, Frames.EncodePayload;
    padded := frames;
    var payloadLength := |Frames.EncodePayload(frames)|;
    var paddingLength := target - Occupied(h, payloadLength, overhead);
    var i := 0;
    while i < paddingLength
      invariant 0 <= i && (paddingLength >= 0 ==> i <= paddingLength) && (paddingLength < 0 ==> i == 0)
      invariant |padded| == |frames| + i && frames <= padded && AllEncodable(padded)
      invariant forall j :: |frames| <= j < |padded| ==> padded[j] == Frames.Padding
      invariant |Frames.EncodePayload(padded)| == payloadLength + i
    {
      EncodePayloadAppend(padded, [Frames.Padding]);
      PaddingByte();
      padded := padded + [Frames.Padding];
      i := i + 1;
    }
  }

  /** How long the packet is once SendPacket has set the length field and sealed it. */
  lemma SealedSize(k: Keys, h: LongHeader, payload: seq<byte>)
    requires Lawful(k) && Fresh(h) && IsVarInt(h.truncatedPn.length + |payload| + k.overhead)
    ensures
      var sent := WithLength(Long(h), |payload| + k.overhead);
      && Headers.Truthful(sent)
      && |Protect(k, sent, payload)| ==
         |WriteLong(h, [])| - 1 + VarIntLen(h.truncatedPn.length + |payload| + k.overhead) + |payload| + k.overhead
  {
    hide Lawful, ApplyMask, WriteMiddle, Pow256;
    var sent := WithLength(Long(h), |payload| + k.overhead);
    var zero := h.(length := NewVarInt(0));
    HeaderSize(Long(zero), []);
    assert WriteLong(zero, []) == WriteLong(h, []) by {
      SameBytes(h);
    }
    SealLength(k, PacketNumber(sent), WriteHeader(sent, []), payload);
    HeaderSize(sent, k.seal(PacketNumber(sent), WriteHeader(sent, []), payload));
    ProtectLength(k, sent, payload);
  }

  lemma SameBytes(h: LongHeader)
    requires Fresh(h)
    ensures WriteLong(h.(length := NewVarInt(0)), []) == WriteLong(h, [])
  {
    hide EncodeVarInt, BigEndian, EncodeTruncated, Pow256;
    var tail := EncodeTruncated(h.truncatedPn) + [];
    assert WriteMiddle(h.(length := NewVarInt(0)), tail) == WriteMiddle(h, tail);
  }

  lemma SealLength(k: Keys, pn: nat, header: seq<byte>, payload: seq<byte>)
    requires Lawful(k)
    ensures |k.seal(pn, header, payload)| == |payload| + k.overhead
  {
  }

  lemma ProtectLength(k: Keys, h: Header, payload: seq<byte>)
    requires Headers.Truthful(h) && Lawful(k)
    ensures |Protect(k, h, payload)| == |Sealed(k, h, payload)|
  {
    hide Lawful, Sealed, WriteHeader;
  }

  /** Whatever the ClientHello, the token and the connection IDs, the datagram is at most one byte short of
      the target; a padded one is never longer, and is exact only when padding and overhead lengthened the
      length field. */
  lemma InitialSize(k: Keys, h: LongHeader, payload: seq<byte>, padded: seq<byte>, target: nat)
    requires Lawful(k) && Fresh(h) && target in {MINIMUM_INITIAL_LENGTH, MINIMUM_INITIAL_LENGTH_V6}
    requires IsVarInt(|payload|) && IsVarInt(h.truncatedPn.length + |padded| + k.overhead)
    requires var occupied := Occupied(h, |payload|, k.overhead);
      |padded| == |payload| + if occupied < target then target - occupied else 0
    ensures Headers.Truthful(WithLength(Long(h), |padded| + k.overhead))
    ensures
      var size := |Protect(k, WithLength(Long(h), |padded| + k.overhead), padded)|;
      && size >= target - 1 && size >= 1200
      && (|padded| > |payload| ==>
            size <= target && (size == target <==> VarIntLen(|payload|) < VarIntLen(h.truncatedPn.length + |padded| + k.overhead)))
  {
    hide Lawful, Protect, WriteLong, Fresh;
    SealedSize(k, h, padded);
    VarIntLenMonotone(|payload|, h.truncatedPn.length + |padded| + k.overhead);
    ShortPn(h);
  }

  lemma ShortPn(h: LongHeader)
    requires Fresh(h)
    ensures h.truncatedPn.length <= 4 && |WriteLong(h, [])| >= 4 + h.truncatedPn.length
  {
    hide Tagged, BigEndian;
  }
}
