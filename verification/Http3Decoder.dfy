/** The incremental HTTP/3 frame decoder (agents/http_agent.go:193-204, 263-268). */
module Http3Decoder {
  import opened Bytes
  import opened VarInts
  import opened Wrappers
  import Headers
  import opened Http3Frames

  // ----- Peeking at the length

  /** What the buffer's array holds behind the bytes of the buffer. */
  datatype Stale = Stale(a: byte, b: byte, c: byte)

  /** peekVarInt reads from a window of four bytes, whatever the buffer's length. */
  function Peek(b: seq<byte>, stale: Stale): Option<Headers.VarInt> {
    if b == [] then None
    else
      var window := (b + [stale.a, stale.b, stale.c])[..4];
      var l := ReadVarInt(window);
      if l.ok then Some(Headers.VarInt(l.value, 4 - |l.rest|)) else None
  }

  /** The size of the frame at the front of b, if it is all there.  A length of eight bytes is never seen. */
  function WholeFrame(b: seq<byte>): (n: Option<nat>)
    ensures n.Some? ==> 0 < n.value <= |b|
  {
    if b == [] || AnnouncedLength(b[0]) == 8 || |b| < AnnouncedLength(b[0]) then None
    else
      var n := AnnouncedLength(b[0]) + 1 + ReadVarInt(b).value;
      if |b| < n then None else Some(n)
  }

  lemma SameVarInt(b: seq<byte>, c: seq<byte>)
    requires b != [] && AnnouncedLength(b[0]) <= |b| && AnnouncedLength(b[0]) <= |c|
    requires b[..AnnouncedLength(b[0])] == c[..AnnouncedLength(b[0])]
    ensures c[0] == b[0] && ReadVarInt(b).ok && ReadVarInt(c).ok && ReadVarInt(b).value == ReadVarInt(c).value
    ensures ReadVarInt(b).rest == b[AnnouncedLength(b[0])..] && ReadVarInt(c).rest == c[AnnouncedLength(b[0])..]
  {
    var n := AnnouncedLength(b[0]);
    assert b[..n][0] == b[0] && c[..n][0] == c[0];
    assert b[1..n] == b[..n][1..] && c[1..n] == c[..n][1..];
  }

  /** The loop's guard holds exactly when a whole frame is there, whatever is behind the buffer. */
  lemma PeekIgnoresStale(b: seq<byte>, stale: Stale)
    ensures var l := Peek(b, stale);
      && (l.Some? && |b| >= l.value.length + 1 + l.value.value <==> WholeFrame(b).Some?)
      && (WholeFrame(b).Some? ==> WholeFrame(b).value == l.value.length + 1 + l.value.value)
  {
    if b != [] {
      var n := AnnouncedLength(b[0]);
      var window := (b + [stale.a, stale.b, stale.c])[..4];
      assert window[0] == b[0];
      if n <= 4 && n <= |b| {
        assert b[..n] == window[..n];
        SameVarInt(b, window);
      }
    }
  }

  // ----- Cutting frames off a byte string

  /** A whole frame can be read, and its wire length is its size. */
  lemma WholeFrameReads(b: seq<byte>)
    requires WholeFrame(b).Some?
    ensures var f := ReadHttpFrame(b[..WholeFrame(b).value]); f.Ok? && WireLength(f.value) == WholeFrame(b).value
  {
    hide ReadSettings;
    var k, n := AnnouncedLength(b[0]), WholeFrame(b).value;
    var chunk := b[..n];
    assert b[..k] == chunk[..k];
    SameVarInt(b, chunk);
    assert ReadVarInt(chunk).rest == chunk[k..];
    WholeFrameHeader(chunk);
  }

  lemma WholeFrameHeader(b: seq<byte>)
    requires ReadVarInt(b).ok && b != [] && |b| == AnnouncedLength(b[0]) + 1 + ReadVarInt(b).value
    requires ReadVarInt(b).rest == b[AnnouncedLength(b[0])..]
    ensures ReadHttpFrame(b).Ok? && WireLength(ReadHttpFrame(b).value) == |b|
  {
    hide ReadSettings, ReadVarInt;
    var k := AnnouncedLength(b[0]);
    assert Rewound(b) == b;
    var (h, body) := ReadFrameHeader(b);
    assert h.length == Headers.VarInt(ReadVarInt(b).value, k) && |body| == h.length.value;
  }

  datatype Decoding = Decoding(frames: seq<HttpFrame>, rest: seq<byte>)

  /** The frames of a byte string in one go, and what is left. */
  function Decode(b: seq<byte>): Decoding
    decreases |b|
  {
    var n := WholeFrame(b);
    if n.None? then Decoding([], b)
    else
      WholeFrameReads(b);
      var d := Decode(b[n.value..]);
      Decoding([ReadHttpFrame(b[..n.value]).value] + d.frames, d.rest)
  }

  function TotalWireLength(frames: seq<HttpFrame>): nat {
    if frames == [] then 0 else WireLength(frames[0]) + TotalWireLength(frames[1..])
  }

  /** Every byte is in an emitted frame or left over. */
  lemma {:induction false} BytesConserved(b: seq<byte>)
    ensures TotalWireLength(Decode(b).frames) + |Decode(b).rest| == |b|
    decreases |b|
  {
    hide ReadHttpFrame, WholeFrame;
    if WholeFrame(b).Some? {
      WholeFrameReads(b);
      BytesConserved(b[WholeFrame(b).value..]);
    }
  }

  // ----- Chunks

  lemma WholeFrameStays(b: seq<byte>, x: seq<byte>)
    requires WholeFrame(b).Some?
    ensures WholeFrame(b + x) == WholeFrame(b)
  {
    var k := AnnouncedLength(b[0]);
    assert (b + x)[0] == b[0] && (b + x)[..k] == b[..k];
    SameVarInt(b, b + x);
  }

  /** Decoding what is there and going on when more arrives is the same as waiting for all of it. */
  lemma {:induction false} DecodeInTwoParts(b: seq<byte>, x: seq<byte>)
    ensures var d := Decode(b); var e := Decode(d.rest + x); Decode(b + x) == Decoding(d.frames + e.frames, e.rest)
    decreases |b|
  {
    hide ReadHttpFrame, WholeFrame;
    if WholeFrame(b).Some? {
      var n := WholeFrame(b).value;
      WholeFrameStays(b, x);
      assert (b + x)[..n] == b[..n] && (b + x)[n..] == b[n..] + x;
      DecodeInTwoParts(b[n..], x);
    }
  }

  /** A chunk arrives: it is appended, and what can be decoded is emitted. */
  function Feed(d: Decoding, chunk: seq<byte>): Decoding {
    var e := Decode(d.rest + chunk);
    Decoding(d.frames + e.frames, e.rest)
  }

  function FeedAll(chunks: seq<seq<byte>>): Decoding {
    if chunks == [] then Decoding([], [])
    else Feed(FeedAll(chunks[..|chunks| - 1]), chunks[|chunks| - 1])
  }

  /** However a byte string is cut into chunks, the decoder emits what it emits for the whole. */
  lemma {:induction false} ChunkingDoesNotMatter(chunks: seq<seq<byte>>)
    ensures FeedAll(chunks) == Decode(Concat(chunks))
    decreases |chunks|
  {
    hide WholeFrame, ReadHttpFrame;
    if chunks == [] {
      NothingDecoded();
    } else {
      var n := |chunks| - 1;
      assert chunks == chunks[..n] + [chunks[n]];
      ConcatSnoc(chunks[..n], chunks[n]);
      ChunkingDoesNotMatter(chunks[..n]);
      DecodeInTwoParts(Concat(chunks[..n]), chunks[n]);
    }
  }

  lemma NothingDecoded()
    ensures Decode([]) == Decoding([], [])
  {
  }

  // ----- Streams of frames

  ghost predicate AllTruthful(fs: seq<HttpFrame>) {
    forall i :: 0 <= i < |fs| ==> Truthful(fs[i])
  }

  function WriteAll(fs: seq<HttpFrame>): seq<byte>
    requires AllTruthful(fs)
  {
    if fs == [] then [] else WriteHttp(fs[0]) + WriteAll(fs[1..])
  }

  /** The length field takes at most four bytes. */
  predicate Short(f: HttpFrame) {
    f.header.length.value <= MAX_VARINT_4
  }

  lemma WrittenFrameIsWholeIff(f: HttpFrame, x: seq<byte>)
    requires Truthful(f)
    ensures WholeFrame(WriteHttp(f) + x) == if Short(f) then Some(|WriteHttp(f)|) else None
  {
    hide EncodeVarInt, ReadVarInt, Body;
    var v := f.header.length.value;
    var more := [f.header.frameType] + Body(f) + x;
    var b := WriteHttp(f) + x;
    assert b == EncodeVarInt(v) + more;
    VarIntRoundTrip(v, more);
    ReadVarIntBound(b);
  }

  /** Every frame of a stream is emitted as it was written exactly when all of them survive the codec and none
      is longer than a four-byte length can say. */
  lemma {:induction false} StreamDecodesIff(fs: seq<HttpFrame>)
    requires AllTruthful(fs)
    ensures Decode(WriteAll(fs)) == Decoding(fs, []) <==> forall i :: 0 <= i < |fs| ==> Short(fs[i]) && Survives(fs[i])
    decreases |fs|
  {
    hide WholeFrame, ReadHttpFrame, WriteHttp, Survives, Short, Body;
    if fs == [] {
      NothingDecoded();
    } else {
      assert Truthful(fs[0]);
      var b, x := WriteHttp(fs[0]), WriteAll(fs[1..]);
      WrittenFrameIsWholeIff(fs[0], x);
      HttpFrameRoundTripIff(fs[0]);
      StreamDecodesIff(fs[1..]);
      if Short(fs[0]) {
        assert (b + x)[..|b|] == b && (b + x)[|b|..] == x;
        WholeFrameReads(b + x);
        var d := Decode(x);
        assert Decode(b + x) == Decoding([ReadHttpFrame(b).value] + d.frames, d.rest);
        HeadTail(ReadHttpFrame(b).value, d.frames, fs);
      }
    }
  }

  lemma HeadTail(f: HttpFrame, frames: seq<HttpFrame>, fs: seq<HttpFrame>)
    requires fs != []
    ensures [f] + frames == fs <==> f == fs[0] && frames == fs[1..]
  {
    assert fs == [fs[0]] + fs[1..];
    assert ([f] + frames)[0] == f && ([f] + frames)[1..] == frames;
  }

  /** A frame whose length field takes eight bytes blocks the stream for good: nothing after it is emitted. */
  lemma LongFrameBlocks(b: seq<byte>, x: seq<byte>)
    requires b != [] && AnnouncedLength(b[0]) == 8
    ensures Decode(b + x) == Decoding([], b + x)
  {
    assert (b + x)[0] == b[0];
  }

  // ----- The decoder as it runs

  class StreamBuffer {
    var buffer: seq<byte>
    var submitted: seq<HttpFrame>

    ghost function Current(): Decoding
      reads this
    {
      Decoding(submitted, buffer)
    }

    constructor ()
      ensures Current() == FeedAll([])
    {
      buffer := [];
      submitted := [];
    }

    /** attemptDecoding; stale(i) is behind the buffer when the loop peeks for the i-th time. */
    method AttemptDecoding(stale: nat -> Stale)
      modifies this
      ensures var d := Decode(old(buffer)); Current() == Decoding(old(submitted) + d.frames, d.rest)
    {
      hide WholeFrame, ReadHttpFrame, Peek;
      var i := 0;
      var l := Peek(buffer, stale(i));
      PeekIgnoresStale(buffer, stale(i));
      while l.Some? && |buffer| >= l.value.length + 1 + l.value.value
        invariant l == Peek(buffer, stale(i))
        invariant old(submitted) + Decode(old(buffer)).frames == submitted + Decode(buffer).frames
        invariant Decode(old(buffer)).rest == Decode(buffer).rest
        decreases |buffer|
      {
        PeekIgnoresStale(buffer, stale(i));
        ghost var before := submitted;
        TakeFrame(l.value.length + 1 + l.value.value);
        assert before + ([submitted[|before|]] + Decode(buffer).frames) == submitted + Decode(buffer).frames;
        i := i + 1;
        l := Peek(buffer, stale(i));
      }
      PeekIgnoresStale(buffer, stale(i));
    }

    method TakeFrame(n: nat)
      requires WholeFrame(buffer) == Some(n)
      modifies this
      ensures |buffer| < |old(buffer)| && |submitted| == |old(submitted)| + 1 && old(submitted) <= submitted
      ensures var e := Decode(buffer);
        Decode(old(buffer)) == Decoding([submitted[|submitted| - 1]] + e.frames, e.rest)
    {
      hide ReadHttpFrame;
      WholeFrameReads(buffer);
      var frame := ReadHttpFrame(buffer[..n]);
      submitted := submitted + [frame.value];
      buffer := buffer[n..];
    }

    /** Data arrives on the stream. */
    method Receive(chunk: seq<byte>, stale: nat -> Stale)
      modifies this
      ensures Current() == Feed(old(Current()), chunk)
    {
      buffer := buffer + chunk;
      AttemptDecoding(stale);
    }
  }
}
