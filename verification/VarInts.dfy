/** Big-endian integers and QUIC variable-length integers (lib/varint.go, common.go). */
module VarInts {
  import opened Bytes

  // ----- Big-endian integers of fixed width

  function Pow256(n: nat): (p: nat)
    ensures p > 0
  {
    if n == 0 then 1 else 256 * Pow256(n - 1)
  }

  /** The n low bytes of i, most significant first. */
  function BigEndian(i: nat, n: nat): (s: seq<byte>)
    ensures |s| == n
  {
    if n == 0 then [] else BigEndian(i / 256, n - 1) + [i % 256]
  }

  function FromBigEndian(s: seq<byte>): nat {
    if s == [] then 0 else 256 * FromBigEndian(s[..|s| - 1]) + s[|s| - 1]
  }

  lemma {:induction false} BigEndianRoundTrip(i: nat, n: nat)
    ensures FromBigEndian(BigEndian(i, n)) == i % Pow256(n)
    decreases n
  {
    if n > 0 {
      BigEndianRoundTrip(i / 256, n - 1);
      var s := BigEndian(i, n);
      assert s[..n - 1] == BigEndian(i / 256, n - 1);
      SplitMod(i, Pow256(n - 1));
    }
  }

  lemma SplitMod(i: nat, p: nat)
    requires p > 0
    ensures i % (256 * p) == 256 * ((i / 256) % p) + i % 256
  {
    var q: nat, r: nat := i / 256, i % 256;
    var a: nat, b: nat := q / p, q % p;
    assert q == p * a + b;
    Regroup(p, a, b, r);
    ModUnique(i, 256 * p, a, 256 * b + r);
  }

  lemma Regroup(p: nat, a: nat, b: nat, r: nat)
    requires b < p && r < 256
    ensures 256 * (p * a + b) + r == (256 * p) * a + (256 * b + r) && 256 * b + r < 256 * p
  {
    assert 256 * (p * a) == (256 * p) * a;
  }

  lemma ModUnique(i: nat, m: nat, a: nat, r: nat)
    requires m > 0 && i == m * a + r && r < m
    ensures i % m == r && i / m == a
  {
    var q: nat, s: nat := i / m, i % m;
    assert m * q + s == m * a + r;
    if q < a {
      MulLe(m, q + 1, a);
    } else if a < q {
      MulLe(m, a + 1, q);
    }
  }

  lemma MulLe(m: nat, x: nat, y: nat)
    requires x <= y
    ensures m * x <= m * y
  {
  }

  /** The first of n bytes of a number is its most significant base-256 digit. */
  lemma {:induction false} TopDigit(i: nat, n: nat)
    requires n > 0
    ensures BigEndian(i, n)[0] == (i / Pow256(n - 1)) % 256
    decreases n
  {
    if n > 1 {
      TopDigit(i / 256, n - 1);
      DivDiv(i, Pow256(n - 2));
    }
  }

  lemma DivDiv(i: nat, p: nat)
    requires p > 0
    ensures (i / 256) / p == i / (256 * p)
  {
    var q, r := i / 256, i % 256;
    var a, b := q / p, q % p;
    assert i == 256 * q + r && q == p * a + b;
    assert i == (256 * p) * a + (256 * b + r) by {
      assert 256 * (p * a) == (256 * p) * a;
    }
    ModUnique(i, 256 * p, a, 256 * b + r);
  }

  // ----- Variable-length integers

  const MAX_VARINT_1 := 63
  const MAX_VARINT_2 := 16383
  const MAX_VARINT_4 := 1073741823
  const MAX_VARINT_8 := 4611686018427387903

  /** EncodeVarInt and VarIntLen panic on anything larger. */
  predicate IsVarInt(i: int) {
    0 <= i <= MAX_VARINT_8
  }

  function VarIntLen(i: nat): nat
    requires IsVarInt(i)
  {
    if i <= MAX_VARINT_1 then 1 else if i <= MAX_VARINT_2 then 2 else if i <= MAX_VARINT_4 then 4 else 8
  }

  /** The two top bits of the first byte for an encoding of n bytes. */
  function LengthTag(n: nat): byte {
    if n == 1 then 0 else if n == 2 then 0x40 else if n == 4 then 0x80 else 0xc0
  }

  /** i in n bytes, the two top bits of the first replaced by the length tag. */
  function Tagged(i: nat, n: nat): (s: seq<byte>)
    requires n > 0
    ensures |s| == n
  {
    var s := BigEndian(i, n);
    s[0 := s[0] % 64 + LengthTag(n)]
  }

  function EncodeVarInt(i: nat): (s: seq<byte>)
    requires IsVarInt(i)
    ensures |s| == VarIntLen(i)
  {
    Tagged(i, VarIntLen(i))
  }

  /** A value read, whether it could be read, and the bytes left.  On a failure the value is 0 and
      the reader has been read to its end. */
  datatype Read = Read(value: nat, ok: bool, rest: seq<byte>)

  /** The length announced by the two top bits of the first byte. */
  function AnnouncedLength(first: byte): nat {
    if first < 0x40 then 1 else if first < 0x80 then 2 else if first < 0xc0 then 4 else 8
  }

  function ReadVarInt(b: seq<byte>): (r: Read)
    ensures |r.rest| <= |b|
  {
    if b == [] then Read(0, false, [])
    else
      var n := AnnouncedLength(b[0]);
      if |b| < n then Read(0, false, [])
      else Read(FromBigEndian([b[0] % 64] + b[1..n]), true, b[n..])
  }

  lemma Powers()
    ensures Pow256(0) == 1 && Pow256(1) == 256 && Pow256(3) == 16777216 && Pow256(7) == 72057594037927936
  {
    assert Pow256(2) == 65536 && Pow256(3) == 16777216;
    assert Pow256(4) == 4294967296 && Pow256(5) == 1099511627776 && Pow256(6) == 281474976710656;
  }

  /** A varint leaves the two top bits of its first byte free for the tag. */
  lemma RoomForTag(i: nat)
    requires IsVarInt(i)
    ensures BigEndian(i, VarIntLen(i))[0] < 64
    ensures i < Pow256(VarIntLen(i))
  {
    var n := VarIntLen(i);
    Powers();
    TopDigit(i, n);
    DivBound(i, Pow256(n - 1));
  }

  lemma DivBound(i: nat, p: nat)
    requires p > 0 && i < 64 * p
    ensures i / p < 64
  {
    var q, r := i / p, i % p;
    assert i == p * q + r;
    if q >= 64 {
      MulLe(p, 64, q);
    }
  }

  /** Encoding is invertible whatever follows it, and has the announced length. */
  lemma VarIntRoundTrip(i: nat, rest: seq<byte>)
    requires IsVarInt(i)
    ensures ReadVarInt(EncodeVarInt(i) + rest) == Read(i, true, rest)
  {
    hide BigEndian, FromBigEndian, Pow256, ReadVarInt, LengthTag;
    var n := VarIntLen(i);
    RoomForTag(i);
    ReadTagged(BigEndian(i, n), rest);
    BigEndianRoundTrip(i, n);
    SmallMod(i, Pow256(n));
  }

  lemma AnnouncesLength(first: byte, n: nat)
    requires first < 64 && (n == 1 || n == 2 || n == 4 || n == 8)
    ensures LengthTag(n) in {0, 0x40, 0x80, 0xc0} && AnnouncedLength(first + LengthTag(n)) == n
  {
  }

  lemma ReadsAs(b: seq<byte>, s: seq<byte>, rest: seq<byte>)
    requires b != [] && AnnouncedLength(b[0]) == |s| <= |b|
    requires [b[0] % 64] + b[1..|s|] == s && b[|s|..] == rest
    ensures ReadVarInt(b) == Read(FromBigEndian(s), true, rest)
  {
  }

  lemma ReadTagged(s: seq<byte>, rest: seq<byte>)
    requires (|s| == 1 || |s| == 2 || |s| == 4 || |s| == 8) && s[0] < 64
    ensures ReadVarInt(s[0 := s[0] + LengthTag(|s|)] + rest) == Read(FromBigEndian(s), true, rest)
  {
    hide FromBigEndian, AnnouncedLength, ReadVarInt, LengthTag;
    var tag := LengthTag(|s|);
    AnnouncesLength(s[0], |s|);
    Untag(s, tag, rest);
    ReadsAs(s[0 := s[0] + tag] + rest, s, rest);
  }

  lemma Untag(s: seq<byte>, tag: byte, rest: seq<byte>)
    requires s != [] && s[0] < 64 && tag in {0, 0x40, 0x80, 0xc0}
    ensures var b := s[0 := s[0] + tag] + rest;
            b[0] == s[0] + tag && b[0] % 64 == s[0] && [b[0] % 64] + b[1..|s|] == s && b[|s|..] == rest
  {
    var b := s[0 := s[0] + tag] + rest;
    var t := [b[0] % 64] + b[1..|s|];
    forall i | 0 <= i < |s| ensures t[i] == s[i] {
    }
  }

  lemma SmallMod(i: nat, m: nat)
    requires i < m
    ensures i % m == i
  {
    ModUnique(i, m, 0, i);
  }

  /** No encoding is a prefix of another one's, whatever follows. */
  lemma VarIntPrefixFree(i: nat, j: nat, x: seq<byte>, y: seq<byte>)
    requires IsVarInt(i) && IsVarInt(j)
    requires EncodeVarInt(i) + x == EncodeVarInt(j) + y
    ensures i == j && x == y
  {
    VarIntRoundTrip(i, x);
    VarIntRoundTrip(j, y);
  }

  /** Whatever a read accepts is a varint, and it consumed the announced number of bytes. */
  lemma ReadVarIntBound(b: seq<byte>)
    requires ReadVarInt(b).ok
    ensures IsVarInt(ReadVarInt(b).value)
    ensures b != [] && |b| == AnnouncedLength(b[0]) + |ReadVarInt(b).rest|
    ensures VarIntLen(ReadVarInt(b).value) <= AnnouncedLength(b[0])
  {
    var n := AnnouncedLength(b[0]);
    var s := [b[0] % 64] + b[1..n];
    Powers();
    LeadingBound(s);
  }

  lemma {:induction false} LeadingBound(s: seq<byte>)
    requires s != [] && s[0] < 64
    ensures FromBigEndian(s) < 64 * Pow256(|s| - 1)
    decreases |s|
  {
    if |s| > 1 {
      LeadingBound(s[..|s| - 1]);
    } else {
      assert s[..0] == [];
    }
  }

  lemma VarIntLenMonotone(i: nat, j: nat)
    requires i <= j && IsVarInt(j)
    ensures VarIntLen(i) <= VarIntLen(j)
  {
  }
}
