/** Packet headers on the wire (headers.go). */
module Headers {
  import opened Bytes
  import opened VarInts
  import opened PacketNumbers
  import Frames

  const INITIAL := 0x0
  const ZERO_RTT := 0x1
  const HANDSHAKE := 0x2
  const RETRY := 0x3

  /** A VarInt as the code keeps it: the value and the number of bytes it takes. */
  datatype VarInt = VarInt(value: nat, length: nat)

  function NewVarInt(v: nat): VarInt
    requires IsVarInt(v)
  {
    VarInt(v, VarIntLen(v))
  }

  /** The long header form.  tokenLength and token are used by Initial packets only; for the others they
      are the zero value here. */
  datatype LongHeader = LongHeader(
    packetType: nat,
    version: nat,
    destinationCid: seq<byte>,
    sourceCid: seq<byte>,
    tokenLength: VarInt,
    token: seq<byte>,
    length: VarInt,
    packetNumber: nat,
    truncatedPn: TruncatedPN)

  datatype ShortHeader = ShortHeader(keyPhase: bool, destinationCid: seq<byte>, truncatedPn: TruncatedPN, packetNumber: nat)

  datatype Header = Long(long: LongHeader) | Short(short: ShortHeader)

  // ----- Writing

  /** The four bits that stand for a connection ID's length. */
  function Cidl(cid: seq<byte>): nat
    requires EncodableCid(cid)
  {
    if cid == [] then 0 else |cid| - 3
  }

  predicate EncodableCid(cid: seq<byte>) {
    cid == [] || 3 <= |cid| <= 18
  }

  predicate EncodableLong(h: LongHeader) {
    && h.packetType in {INITIAL, ZERO_RTT, HANDSHAKE}
    && h.version < 0x1_0000_0000
    && EncodableCid(h.destinationCid) && EncodableCid(h.sourceCid)
    && IsVarInt(h.tokenLength.value) && IsVarInt(h.length.value)
    && 1 <= h.truncatedPn.length <= 4
  }

  /** The bytes of a long header, followed by rest.  Retry headers are not written by a client. */
  function WriteLong(h: LongHeader, rest: seq<byte>): seq<byte>
    requires EncodableLong(h)
  {
    [(0xC0 + 0x10 * h.packetType + h.truncatedPn.length - 1) as byte] +
    WriteMiddle(h, EncodeTruncated(h.truncatedPn) + rest)
  }

  /** What stands between the first byte and the packet number, followed by tail. */
  function WriteMiddle(h: LongHeader, tail: seq<byte>): seq<byte>
    requires EncodableLong(h)
  {
    BigEndian(h.version, 4) +
    ([(0x10 * Cidl(h.destinationCid) + Cidl(h.sourceCid)) as byte] +
     (h.destinationCid + (h.sourceCid + WriteToken(h, EncodeVarInt(h.length.value) + tail))))
  }

  function WriteToken(h: LongHeader, rest: seq<byte>): seq<byte>
    requires IsVarInt(h.tokenLength.value)
  {
    if h.packetType == INITIAL then EncodeVarInt(h.tokenLength.value) + (h.token + rest) else rest
  }

  predicate EncodableShort(h: ShortHeader) {
    1 <= h.truncatedPn.length <= 4
  }

  function WriteShort(h: ShortHeader, rest: seq<byte>): seq<byte>
    requires EncodableShort(h)
  {
    [(0x40 + (if h.keyPhase then 0x04 else 0) + h.truncatedPn.length - 1) as byte] +
    (h.destinationCid + (EncodeTruncated(h.truncatedPn) + rest))
  }

  // ----- Reading, on any bytes at all

  /** ReadVarInt of common.go: also how many bytes it took; the zero value on a failure. */
  function ReadSizedVarInt(b: seq<byte>): (r: (VarInt, seq<byte>))
    ensures |r.1| <= |b|
  {
    var v := ReadVarInt(b);
    (if v.ok then VarInt(v.value, |b| - |v.rest|) else VarInt(0, 0), v.rest)
  }

  function ReadTruncated(b: seq<byte>, length: nat): (r: (TruncatedPN, seq<byte>))
    ensures |r.1| <= |b|
  {
    var (v, rest) := Frames.Take(b, length);
    (TruncatedPN(FromBigEndian(v), length), rest)
  }

  function FirstByte(b: seq<byte>): byte {
    if b == [] then 0 else b[0]
  }

  /** The type bits of a long header's first byte, as the 8-bit subtraction and shift compute them. */
  function TypeBits(first: byte): nat {
    (first + 0x40) % 256 / 16
  }

  /** The largest packet numbers received, per space. */
  datatype Largest = Largest(initial: nat, handshake: nat, appData: nat) {
    /** A Retry packet has no space; a type the table does not know is looked up as an Initial one. */
    function Of(packetType: nat): nat {
      if packetType == HANDSHAKE then handshake
      else if packetType == ZERO_RTT then appData
      else if packetType == RETRY then 0
      else initial
    }
  }

  /** Everything in a long header but the packet number, and the bytes from there on. */
  function ReadLongPrefix(b: seq<byte>): (LongHeader, seq<byte>) {
    var first := FirstByte(b);
    var packetType := TypeBits(first);
    var (version, b1) := Frames.TakeFull(Frames.Tail(b), 4);
    var lengths := FirstByte(b1);
    var (dcid, b2) := Frames.TakeFull(Frames.Tail(b1), 3 + lengths / 16);
    var (scid, b3) := Frames.TakeFull(b2, 3 + lengths % 16);
    var (tokenLength, b4) := if packetType == INITIAL then ReadSizedVarInt(b3) else (VarInt(0, 0), b3);
    var (token, b5) := if packetType == INITIAL then Frames.Take(b4, tokenLength.value) else ([], b4);
    var (length, b6) := if packetType != RETRY then ReadSizedVarInt(b5) else (VarInt(0, 0), b5);
    (LongHeader(packetType, FromBigEndian(version), dcid, scid, tokenLength, token, length, 0, TruncatedPN(0, 0)), b6)
  }

  function ReadLong(b: seq<byte>, largest: Largest): LongHeader {
    var (h, rest) := ReadLongPrefix(b);
    if h.packetType == RETRY then h
    else
      var (pn, _) := ReadTruncated(rest, FirstByte(b) % 4 + 1);
      h.(truncatedPn := pn, packetNumber := Join(pn, largest.Of(h.packetType)))
  }

  function ReadShort(b: seq<byte>, cidLength: nat, largest: Largest): ShortHeader {
    var first := FirstByte(b);
    var (dcid, b1) := Frames.Take(Frames.Tail(b), cidLength);
    var (pn, _) := ReadTruncated(b1, first % 4 + 1);
    ShortHeader(first / 4 % 2 == 1, dcid, pn, Join(pn, largest.appData))
  }

  function ReadHeader(b: seq<byte>, cidLength: nat, largest: Largest): Header {
    if FirstByte(b) >= 0x80 then Long(ReadLong(b, largest)) else Short(ReadShort(b, cidLength, largest))
  }

  // ----- Lengths

  /** Where the packet number starts: HeaderLength minus the packet number's length. */
  function PnOffset(h: Header): (n: nat)
    ensures n >= 1
  {
    match h
    case Long(l) => 6 + |l.destinationCid| + |l.sourceCid| + l.length.length +
                    (if l.packetType == INITIAL then l.tokenLength.length + |l.token| else 0)
    case Short(s) => 1 + |s.destinationCid|
  }

  function PnLength(h: Header): nat {
    match h
    case Long(l) => l.truncatedPn.length
    case Short(s) => s.truncatedPn.length
  }

  function HeaderLength(h: Header): nat {
    PnOffset(h) + PnLength(h)
  }

  function PacketNumber(h: Header): nat {
    match h
    case Long(l) => l.packetNumber
    case Short(s) => s.packetNumber
  }

  // ----- Headers that describe themselves truthfully

  /** The sizes are those of the fields, and the packet number's low bytes are the truncated number's. */
  predicate TruthfulLong(h: LongHeader) {
    && EncodableLong(h)
    && h.length == NewVarInt(h.length.value)
    && (if h.packetType == INITIAL then IsVarInt(|h.token|) && h.tokenLength == NewVarInt(|h.token|)
        else h.tokenLength == VarInt(0, 0) && h.token == [])
    && h.truncatedPn.value < Pow256(h.truncatedPn.length)
  }

  predicate TruthfulShort(h: ShortHeader) {
    EncodableShort(h) && h.truncatedPn.value < Pow256(h.truncatedPn.length)
  }

  predicate Truthful(h: Header) {
    match h
    case Long(l) => TruthfulLong(l)
    case Short(s) => TruthfulShort(s)
  }

  function WriteHeader(h: Header, rest: seq<byte>): seq<byte>
    requires Truthful(h)
  {
    match h
    case Long(l) => WriteLong(l, rest)
    case Short(s) => WriteShort(s, rest)
  }

  /** HeaderLength is the number of bytes Encode writes. */
  lemma HeaderSize(h: Header, rest: seq<byte>)
    requires Truthful(h)
    ensures |WriteHeader(h, rest)| == HeaderLength(h) + |rest|
  {
    hide Tagged, BigEndian;
  }

  lemma SizedVarIntRoundTrip(i: nat, x: seq<byte>)
    requires IsVarInt(i)
    ensures ReadSizedVarInt(EncodeVarInt(i) + x) == (NewVarInt(i), x)
  {
    hide Tagged, ReadVarInt;
    VarIntRoundTrip(i, x);
  }

  // ----- Reading back what was written

  /** A reader sees everything before the packet number whatever the low bits of the first byte and
      whatever follows, as long as both connection IDs are there. */
  lemma LongPrefixRoundTrip(h: LongHeader, first: byte, tail: seq<byte>)
    requires TruthfulLong(h) && TypeBits(first) == h.packetType
    requires h.destinationCid != [] && h.sourceCid != []
    ensures ReadLongPrefix([first] + WriteMiddle(h, tail)) ==
            (h.(packetNumber := 0, truncatedPn := TruncatedPN(0, 0)), tail)
  {
    hide EncodeVarInt, ReadVarInt, ReadSizedVarInt, BigEndian, FromBigEndian, Pow256, Frames.Take, Frames.TakeFull;
    var lengths := (0x10 * Cidl(h.destinationCid) + Cidl(h.sourceCid)) as byte;
    var b5 := EncodeVarInt(h.length.value) + tail;
    var b3 := WriteToken(h, b5);
    var b2 := h.sourceCid + b3;
    var b1 := h.destinationCid + b2;
    var v := BigEndian(h.version, 4);
    var b0 := [lengths] + b1;
    assert Frames.Tail([first] + (v + b0)) == v + b0;
    assert Frames.Tail(b0) == b1;
    Frames.TakeRoundTrip(v, b0);
    BigEndianRoundTrip(h.version, 4);
    VersionBound(h.version);
    Frames.TakeRoundTrip(h.destinationCid, b2);
    Frames.TakeRoundTrip(h.sourceCid, b3);
    if h.packetType == INITIAL {
      SizedVarIntRoundTrip(|h.token|, h.token + b5);
      Frames.TakeRoundTrip(h.token, b5);
    }
    SizedVarIntRoundTrip(h.length.value, tail);
  }

  lemma VersionBound(v: nat)
    requires v < 0x1_0000_0000
    ensures v % Pow256(4) == v
  {
    assert Pow256(1) == 256 && Pow256(2) == 65536 && Pow256(3) == 16777216 && Pow256(4) == 0x1_0000_0000;
  }

  lemma TruncatedReadsBack(t: TruncatedPN, rest: seq<byte>)
    requires t.value < Pow256(t.length)
    ensures ReadTruncated(EncodeTruncated(t) + rest, t.length) == (t, rest)
  {
    hide BigEndian, FromBigEndian, Frames.Take;
    Frames.TakeRoundTrip(EncodeTruncated(t), rest);
    TruncatedRoundTrip(t);
  }

  lemma TypeByte(packetType: nat, n: nat)
    requires packetType in {INITIAL, ZERO_RTT, HANDSHAKE} && 1 <= n <= 4
    ensures var first := 0xC0 + 0x10 * packetType + n - 1; TypeBits(first) == packetType && first % 4 + 1 == n
  {
  }

  /** A long header is read back if and only if both connection IDs are non-empty and the packet number
      is the one that joining recovers. */
  lemma LongHeaderRoundTripIff(h: LongHeader, rest: seq<byte>, largest: Largest)
    requires TruthfulLong(h)
    ensures ReadLong(WriteLong(h, rest), largest) == h <==>
            && h.destinationCid != [] && h.sourceCid != []
            && Join(h.truncatedPn, largest.Of(h.packetType)) == h.packetNumber
  {
    hide ReadLongPrefix, WriteMiddle, Join, ReadTruncated, EncodeTruncated, Pow256, NewVarInt;
    var b := WriteLong(h, rest);
    TypeByte(h.packetType, h.truncatedPn.length);
    if h.destinationCid != [] && h.sourceCid != [] {
      LongPrefixRoundTrip(h, b[0], EncodeTruncated(h.truncatedPn) + rest);
      TruncatedReadsBack(h.truncatedPn, rest);
    } else {
      CidsNeverEmpty(b);
    }
  }

  /** A long header is never read with an empty connection ID. */
  lemma CidsNeverEmpty(b: seq<byte>)
    ensures ReadLongPrefix(b).0.destinationCid != [] && ReadLongPrefix(b).0.sourceCid != []
  {
    hide ReadSizedVarInt, FromBigEndian;
  }

  /** A short header is read back if and only if its connection ID has the length the reader expects and
      the packet number is the one that joining recovers. */
  lemma ShortHeaderRoundTripIff(h: ShortHeader, rest: seq<byte>, cidLength: nat, largest: Largest)
    requires TruthfulShort(h)
    ensures ReadShort(WriteShort(h, rest), cidLength, largest) == h <==>
            |h.destinationCid| == cidLength && Join(h.truncatedPn, largest.appData) == h.packetNumber
  {
    hide ReadTruncated, Join;
    var b := WriteShort(h, rest);
    if |h.destinationCid| == cidLength {
      assert Frames.Tail(b) == h.destinationCid + (EncodeTruncated(h.truncatedPn) + rest);
      Frames.TakeRoundTrip(h.destinationCid, EncodeTruncated(h.truncatedPn) + rest);
      TruncatedReadsBack(h.truncatedPn, rest);
    }
  }
}
