/** HTTP/3 frames on the wire (http3/http3.go): a length, a type byte, a body. */
module Http3Frames {
  import opened Bytes
  import opened VarInts
  import opened Wrappers
  import opened Headers
  import Frames

  datatype FrameHeader = FrameHeader(length: VarInt, frameType: byte)

  datatype Setting = Setting(identifier: nat, value: VarInt)

  datatype HttpFrame =
    | Data(header: FrameHeader, payload: seq<byte>)
    | HeaderBlock(header: FrameHeader, block: seq<byte>)
    | Priority(header: FrameHeader, prioritizedType: byte, dependencyType: byte, empty: byte, exclusive: bool,
               prioritizedId: VarInt, dependencyId: VarInt, weight: byte)
    | CancelPush(header: FrameHeader, pushId: VarInt)
    | Settings(header: FrameHeader, settings: seq<Setting>)
    | PushPromise(header: FrameHeader, pushId: VarInt, block: seq<byte>)
    | GoAway(header: FrameHeader, streamId: VarInt)
    | MaxPushId(header: FrameHeader, pushId: VarInt)
    | Unknown(header: FrameHeader, payload: seq<byte>)

  const DATA := 0x0
  const HEADERS := 0x1
  const PRIORITY := 0x2
  const CANCEL_PUSH := 0x3
  const SETTINGS := 0x4
  const PUSH_PROMISE := 0x5
  const GOAWAY := 0x7
  const MAX_PUSH_ID := 0xd

  // ----- Writing

  function Or2(x: nat, y: nat): nat
    requires x < 4 && y < 4
  {
    (if x >= 2 || y >= 2 then 2 else 0) + (if x % 2 == 1 || y % 2 == 1 then 1 else 0)
  }

  /** The first byte of a PRIORITY body: 8-bit shifts and ors. */
  function PriorityByte(p: byte, d: byte, e: byte, exclusive: bool): byte {
    64 * Or2(Or2(p % 4, d / 4 % 4), e / 32 % 4) + 16 * Or2(d % 4, e / 8 % 4) + 2 * (e % 8) + (if exclusive then 1 else 0)
  }

  predicate Encodable(f: HttpFrame) {
    IsVarInt(f.header.length.value) &&
    match f
    case Priority(_, _, _, _, _, p, d, _) => IsVarInt(p.value) && IsVarInt(d.value)
    case CancelPush(_, id) => IsVarInt(id.value)
    case Settings(_, settings) => EncodableSettings(settings)
    case PushPromise(_, id, _) => IsVarInt(id.value)
    case GoAway(_, id) => IsVarInt(id.value)
    case MaxPushId(_, id) => IsVarInt(id.value)
    case _ => true
  }

  predicate EncodableSettings(settings: seq<Setting>) {
    forall i :: 0 <= i < |settings| ==> IsVarInt(settings[i].value.value) && settings[i].identifier < 0x1_0000
  }

  function WriteSettings(settings: seq<Setting>): seq<byte>
    requires EncodableSettings(settings)
  {
    if settings == [] then []
    else BigEndian(settings[0].identifier, 2) + (EncodeVarInt(settings[0].value.value) + WriteSettings(settings[1..]))
  }

  function Body(f: HttpFrame): seq<byte>
    requires Encodable(f)
  {
    match f
    case Data(_, payload) => payload
    case HeaderBlock(_, block) => block
    case Priority(_, p, d, e, x, pid, did, w) =>
      [PriorityByte(p, d, e, x)] + (EncodeVarInt(pid.value) + (EncodeVarInt(did.value) + [w]))
    case CancelPush(_, id) => EncodeVarInt(id.value)
    case Settings(_, settings) => WriteSettings(settings)
    case PushPromise(_, id, block) => EncodeVarInt(id.value) + block
    case GoAway(_, id) => EncodeVarInt(id.value)
    case MaxPushId(_, id) => EncodeVarInt(id.value)
    case Unknown(_, payload) => payload
  }

  /** WriteTo. */
  function WriteHttp(f: HttpFrame): seq<byte>
    requires Encodable(f)
  {
    EncodeVarInt(f.header.length.value) + ([f.header.frameType] + Body(f))
  }

  function WireLength(f: HttpFrame): nat {
    f.header.length.length + 1 + f.header.length.value
  }

  // ----- Reading

  /** Where the reader stands after ReadHTTPFrame has looked at the type: it seeks back by the length of the
      varint and one; a seek before the start fails and leaves it at the end. */
  function Rewound(b: seq<byte>): seq<byte> {
    var l := ReadVarInt(b);
    if !l.ok then (if b == [] then [] else b[|b| - 1..])
    else if l.rest == [] then []
    else b
  }

  function FirstOrZero(b: seq<byte>): byte {
    if b == [] then 0 else b[0]
  }

  function ReadFrameHeader(b: seq<byte>): (r: (FrameHeader, seq<byte>))
    ensures |r.1| <= |b|
  {
    var (length, rest) := ReadSizedVarInt(b);
    (FrameHeader(length, FirstOrZero(rest)), Frames.Tail(rest))
  }

  function ReadSetting(b: seq<byte>): (r: (Setting, seq<byte>))
    ensures b != [] ==> |r.1| < |b|
  {
    var (identifier, b1) := Frames.ReadUint16(b);
    var (value, b2) := ReadSizedVarInt(b1);
    (Setting(identifier, value), b2)
  }

  function ReadSettings(b: seq<byte>): seq<Setting>
    decreases |b|
  {
    if b == [] then []
    else
      var (s, rest) := ReadSetting(b);
      [s] + ReadSettings(rest)
  }

  function ReadPriority(h: FrameHeader, b: seq<byte>): HttpFrame {
    var first := FirstOrZero(b);
    var (p, b1) := ReadSizedVarInt(Frames.Tail(b));
    var (d, b2) := ReadSizedVarInt(b1);
    Priority(h, first / 64, first / 16 % 4, first / 2 % 8, first % 2 == 1, p, d, FirstOrZero(b2))
  }

  /** ReadHTTPFrame.  ReadPUSH_PROMISE makes room for the header block but never reads it; it panics when the
      push ID is longer than the frame. */
  function ReadHttpFrame(b: seq<byte>): Outcome<HttpFrame> {
    var t := FirstOrZero(ReadSizedVarInt(b).1);
    var (h, body) := ReadFrameHeader(Rewound(b));
    if t == DATA then Ok(Data(h, Frames.Take(body, h.length.value).0))
    else if t == HEADERS then Ok(HeaderBlock(h, Frames.Take(body, h.length.value).0))
    else if t == PRIORITY then Ok(ReadPriority(h, body))
    else if t == CANCEL_PUSH then Ok(CancelPush(h, ReadSizedVarInt(body).0))
    else if t == SETTINGS then Ok(Settings(h, ReadSettings(Frames.Take(body, h.length.value).0)))
    else if t == PUSH_PROMISE then
      var id := ReadSizedVarInt(body).0;
      if id.length > h.length.value then Panic
      else Ok(PushPromise(h, id, Frames.Zeros(h.length.value - id.length)))
    else if t == GOAWAY then Ok(GoAway(h, ReadSizedVarInt(body).0))
    else if t == MAX_PUSH_ID then Ok(MaxPushId(h, ReadSizedVarInt(body).0))
    else Ok(Unknown(h, Frames.Take(body, h.length.value).0))
  }

  /** The loop of ReadSETTINGS. */
  method ParseSettings(b: seq<byte>) returns (settings: seq<Setting>)
    ensures settings == ReadSettings(b)
  {
    hide ReadSetting;
    settings := [];
    var rest := b;
    while rest != []
      invariant settings + ReadSettings(rest) == ReadSettings(b)
      decreases |rest|
    {
      var (s, more) := ReadSetting(rest);
      assert settings + [s] + ReadSettings(more) == settings + ReadSettings(rest);
      settings, rest := settings + [s], more;
    }
  }

  // ----- Round trips

  predicate Minimal(v: VarInt) {
    IsVarInt(v.value) && v == NewVarInt(v.value)
  }

  predicate TypeMatches(f: HttpFrame) {
    var t := f.header.frameType;
    match f
    case Data(_, _) => t == DATA
    case HeaderBlock(_, _) => t == HEADERS
    case Priority(_, _, _, _, _, _, _, _) => t == PRIORITY
    case CancelPush(_, _) => t == CANCEL_PUSH
    case Settings(_, _) => t == SETTINGS
    case PushPromise(_, _, _) => t == PUSH_PROMISE
    case GoAway(_, _) => t == GOAWAY
    case MaxPushId(_, _) => t == MAX_PUSH_ID
    case Unknown(_, _) => t !in {DATA, HEADERS, PRIORITY, CANCEL_PUSH, SETTINGS, PUSH_PROMISE, GOAWAY, MAX_PUSH_ID}
  }

  predicate MinimalIds(f: HttpFrame) {
    match f
    case Priority(_, _, _, _, _, p, d, _) => Minimal(p) && Minimal(d)
    case CancelPush(_, id) => Minimal(id)
    case Settings(_, settings) => forall i :: 0 <= i < |settings| ==> Minimal(settings[i].value)
    case PushPromise(_, id, _) => Minimal(id)
    case GoAway(_, id) => Minimal(id)
    case MaxPushId(_, id) => Minimal(id)
    case _ => true
  }

  /** The header announces the frame's kind and the length of its body, as the constructors arrange. */
  predicate Truthful(f: HttpFrame) {
    Encodable(f) && TypeMatches(f) && MinimalIds(f) && Minimal(f.header.length) && f.header.length.value == |Body(f)|
  }

  /** Which frames the reader gives back: the header block of a PUSH_PROMISE is not read, and the first byte
      of a PRIORITY has room for two, two and three bits. */
  predicate Survives(f: HttpFrame) {
    match f
    case Priority(_, p, d, e, _, _, _, _) => p < 4 && d < 4 && e < 8
    case PushPromise(_, _, block) => block == Frames.Zeros(|block|)
    case _ => true
  }

  lemma TakeAll(b: seq<byte>)
    ensures Frames.Take(b, |b|) == (b, [])
  {
    assert b[..|b|] == b && b[|b|..] == [];
  }

  lemma HeaderReadsBack(f: HttpFrame)
    requires Truthful(f)
    ensures var b := WriteHttp(f);
            && Rewound(b) == b && ReadFrameHeader(b) == (f.header, Body(f))
            && FirstOrZero(ReadSizedVarInt(b).1) == f.header.frameType
  {
    hide Body, EncodeVarInt, ReadVarInt;
    SizedVarIntRoundTrip(f.header.length.value, [f.header.frameType] + Body(f));
    VarIntRoundTrip(f.header.length.value, [f.header.frameType] + Body(f));
  }

  lemma LoneVarInt(v: VarInt, x: seq<byte>)
    requires Minimal(v)
    ensures ReadSizedVarInt(EncodeVarInt(v.value) + x) == (v, x)
    ensures ReadSizedVarInt(EncodeVarInt(v.value)) == (v, [])
  {
    hide EncodeVarInt, ReadVarInt;
    SizedVarIntRoundTrip(v.value, x);
    SizedVarIntRoundTrip(v.value, []);
    assert EncodeVarInt(v.value) + [] == EncodeVarInt(v.value);
  }

  lemma {:induction false} SettingsReadBack(settings: seq<Setting>)
    requires EncodableSettings(settings) && forall i :: 0 <= i < |settings| ==> Minimal(settings[i].value)
    ensures ReadSettings(WriteSettings(settings)) == settings
    decreases |settings|
  {
    hide EncodeVarInt, ReadVarInt, BigEndian, Frames.ReadUint16, ReadSizedVarInt;
    if settings != [] {
      var s, more := settings[0], WriteSettings(settings[1..]);
      Frames.Uint16RoundTrip(s.identifier, EncodeVarInt(s.value.value) + more);
      LoneVarInt(s.value, more);
      SettingsReadBack(settings[1..]);
    }
  }

  lemma PriorityDigits(a: nat, b: nat, c: nat, x: nat)
    requires a < 4 && b < 4 && c < 8 && x < 2
    ensures var n := 64 * a + 16 * b + 2 * c + x; n / 64 == a && n / 16 % 4 == b && n / 2 % 8 == c && n % 2 == x
  {
    var n := 64 * a + 16 * b + 2 * c + x;
    assert n / 16 == 4 * a + b && n / 2 == 32 * a + 8 * b + c;
  }

  lemma Or2Bound(x: nat, y: nat)
    requires x < 4 && y < 4
    ensures Or2(x, y) < 4 && Or2(x, 0) == x
  {
  }

  lemma PriorityByteIff(p: byte, d: byte, e: byte, x: bool)
    ensures var b := PriorityByte(p, d, e, x);
      b / 64 == p && b / 16 % 4 == d && b / 2 % 8 == e && (b % 2 == 1) == x <==> p < 4 && d < 4 && e < 8
  {
    hide Or2;
    Or2Bound(p % 4, d / 4 % 4);
    Or2Bound(Or2(p % 4, d / 4 % 4), e / 32 % 4);
    Or2Bound(d % 4, e / 8 % 4);
    PriorityDigits(Or2(Or2(p % 4, d / 4 % 4), e / 32 % 4), Or2(d % 4, e / 8 % 4), e % 8, if x then 1 else 0);
  }

  lemma PriorityReadsBack(f: HttpFrame)
    requires Truthful(f) && f.Priority?
    ensures ReadPriority(f.header, Body(f)) == f <==> Survives(f)
  {
    hide EncodeVarInt, ReadVarInt, PriorityByte, ReadSizedVarInt;
    PriorityByteIff(f.prioritizedType, f.dependencyType, f.empty, f.exclusive);
    LoneVarInt(f.prioritizedId, EncodeVarInt(f.dependencyId.value) + [f.weight]);
    LoneVarInt(f.dependencyId, [f.weight]);
  }

  /** A frame the constructors make is read back as it was written exactly when it survives. */
  lemma HttpFrameRoundTripIff(f: HttpFrame)
    requires Truthful(f)
    ensures ReadHttpFrame(WriteHttp(f)) == Ok(f) <==> Survives(f)
  {
    hide WriteHttp, ReadFrameHeader, ReadSizedVarInt, Rewound, ReadPriority, ReadSettings, EncodeVarInt, Frames.Take,
      PriorityByte;
    HeaderReadsBack(f);
    TakeAll(Body(f));
    match f
    case Priority(_, _, _, _, _, _, _, _) => PriorityReadsBack(f);
    case Settings(_, settings) => SettingsReadBack(settings);
    case CancelPush(_, id) => LoneVarInt(id, []);
    case PushPromise(_, id, block) => LoneVarInt(id, block);
    case GoAway(_, id) => LoneVarInt(id, []);
    case MaxPushId(_, id) => LoneVarInt(id, []);
    case _ =>
  }

  /** WireLength is the number of bytes written. */
  lemma WireLengthIsSize(f: HttpFrame)
    requires Truthful(f)
    ensures WireLength(f) == |WriteHttp(f)|
  {
    hide Body;
  }
}
