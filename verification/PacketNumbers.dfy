/** Packet numbers (common.go, connection.go, headers.go): truncation against the largest acknowledged
    number, recovery from the largest received one, and the numbers a connection hands out. */
module PacketNumbers {
  import opened Bytes
  import opened VarInts
  import opened Wrappers

  datatype TruncatedPN = TruncatedPN(value: nat, length: nat)

  function Log2(x: nat): nat
    requires x > 0
  {
    if x == 1 then 0 else 1 + Log2(x / 2)
  }

  function TruncatedLength(x: nat): nat
    requires x > 0
  {
    Log2(x) / 8 + 1
  }

  function Truncate(p: nat, largestAcknowledged: nat): Outcome<TruncatedPN> {
    if p < largestAcknowledged then Panic
    else
      var length := TruncatedLength(p - largestAcknowledged + 1);
      if length > 4 then Panic else Ok(TruncatedPN(p % Pow256(length), length))
  }

  lemma DivMod(x: nat, m: nat)
    requires m > 0
    ensures x == m * (x / m) + x % m && x % m <= x
  {
    MulLe(m, 0, x / m);
  }

  /** x with everything below m cleared. */
  function ClearLow(x: nat, m: nat): (r: nat)
    requires m > 0
    ensures r == m * (x / m)
  {
    DivMod(x, m);
    x - x % m
  }

  /** Clears the low bytes of the base and puts the truncated number there. */
  function Join(t: TruncatedPN, base: nat): nat {
    ClearLow(base, Pow256(t.length)) + t.value
  }

  function Pow2(n: nat): (p: nat)
    ensures p > 0
  {
    if n == 0 then 1 else 2 * Pow2(n - 1)
  }

  lemma {:induction false} Log2Bounds(x: nat)
    requires x > 0
    ensures Pow2(Log2(x)) <= x < Pow2(Log2(x) + 1)
    decreases x
  {
    if x > 1 {
      Log2Bounds(x / 2);
    }
  }

  lemma {:induction false} Pow2Monotone(a: nat, b: nat)
    requires a <= b
    ensures Pow2(a) <= Pow2(b)
    decreases b
  {
    if a < b {
      Pow2Monotone(a, b - 1);
    }
  }

  lemma {:induction false} Pow2Of8(n: nat)
    ensures Pow2(8 * n) == Pow256(n)
  {
    if n > 0 {
      Pow2Of8(n - 1);
      var m := 8 * n - 8;
      assert Pow2(m + 8) == 2 * Pow2(m + 7) && Pow2(m + 7) == 2 * Pow2(m + 6) && Pow2(m + 6) == 2 * Pow2(m + 5)
          && Pow2(m + 5) == 2 * Pow2(m + 4) && Pow2(m + 4) == 2 * Pow2(m + 3) && Pow2(m + 3) == 2 * Pow2(m + 2)
          && Pow2(m + 2) == 2 * Pow2(m + 1) && Pow2(m + 1) == 2 * Pow2(m);
    }
  }

  /** The length chosen is the least n > 0 with x < 256^n. */
  lemma TruncatedLengthIsLeast(x: nat)
    requires x > 0
    ensures var n := TruncatedLength(x); x < Pow256(n) && (n > 1 ==> Pow256(n - 1) <= x)
  {
    var l, n := Log2(x), TruncatedLength(x);
    Log2Bounds(x);
    Pow2Of8(n);
    Pow2Of8(n - 1);
    Pow2Monotone(l + 1, 8 * n);
    Pow2Monotone(8 * (n - 1), l);
  }

  lemma {:induction false} Pow256Monotone(a: nat, b: nat)
    requires a <= b
    ensures Pow256(a) <= Pow256(b)
    decreases b
  {
    if a < b {
      Pow256Monotone(a, b - 1);
    }
  }

  /** Truncate panics exactly when the number is below the largest acknowledged one, or 2^32 - 1 or
      more numbers are outstanding. */
  lemma TruncatePanicsIff(p: nat, largestAcknowledged: nat)
    ensures Truncate(p, largestAcknowledged).Panic? <==>
            p < largestAcknowledged || p - largestAcknowledged + 1 >= 0x1_0000_0000
  {
    if p >= largestAcknowledged {
      var x := p - largestAcknowledged + 1;
      TruncatedLengthIsLeast(x);
      assert Pow256(4) == 0x1_0000_0000 by {
        assert Pow256(1) == 256 && Pow256(2) == 65536 && Pow256(3) == 16777216;
      }
      if TruncatedLength(x) > 4 {
        Pow256Monotone(4, TruncatedLength(x) - 1);
      } else {
        Pow256Monotone(TruncatedLength(x), 4);
      }
    }
  }

  /** Joining a truncated number with a base gives the number back if and only if the two agree above
      the bytes that were kept. */
  lemma JoinRecoversIff(p: nat, n: nat, base: nat)
    ensures Join(TruncatedPN(p % Pow256(n), n), base) == p <==> p / Pow256(n) == base / Pow256(n)
  {
    JoinIff(p, Pow256(n), base);
  }

  lemma JoinIff(p: nat, m: nat, base: nat)
    requires m > 0
    ensures ClearLow(base, m) + p % m == p <==> p / m == base / m
  {
    DivMod(p, m);
    if p / m != base / m {
      DifferentMultiples(m, base / m, p / m);
    }
  }

  lemma DifferentMultiples(m: nat, x: nat, y: nat)
    requires m > 0 && x != y
    ensures m * x != m * y
  {
    if x < y {
      MulLe(m, x + 1, y);
    } else {
      MulLe(m, y + 1, x);
    }
  }

  /** Recovery fails across a byte boundary although the sender's number is the very next one. */
  lemma NextNumberCanBeMisread()
    ensures Truncate(256, 255) == Ok(TruncatedPN(0, 1))
    ensures Join(TruncatedPN(0, 1), 255) == 0
  {
    assert Log2(2) == 1 && Pow256(1) == 256;
  }

  function EncodeTruncated(t: TruncatedPN): (s: seq<byte>)
    ensures |s| == t.length
  {
    BigEndian(t.value, t.length)
  }

  lemma TruncatedRoundTrip(t: TruncatedPN)
    requires t.value < Pow256(t.length)
    ensures FromBigEndian(EncodeTruncated(t)) == t.value
  {
    BigEndianRoundTrip(t.value, t.length);
    SmallMod(t.value, Pow256(t.length));
  }

  // ----- The numbers a connection hands out

  datatype Space = InitialSpace | HandshakeSpace | AppDataSpace

  /** One packet number space: the next number, the largest acknowledged one, and the numbers handed
      out since the last reset. */
  datatype Counter = Counter(next: nat, largestAcked: nat, used: seq<nat>)

  datatype Numbering = Numbering(initial: Counter, handshake: Counter, appData: Counter) {
    function Of(s: Space): Counter {
      match s
      case InitialSpace => initial
      case HandshakeSpace => handshake
      case AppDataSpace => appData
    }

    function Set(s: Space, c: Counter): Numbering {
      match s
      case InitialSpace => this.(initial := c)
      case HandshakeSpace => this.(handshake := c)
      case AppDataSpace => this.(appData := c)
    }
  }

  const ZERO := Counter(0, 0, [])

  datatype Event =
    | NewHeader(space: Space)                    // NewLongHeader, NewShortHeader
    | AckReceived(space: Space, largest: nat)    // the recovery agent's update
    | Reset                                      // TransitionTo

  /** What truncating the next number of the space gives. */
  function NextTruncated(c: Counter): Outcome<TruncatedPN> {
    Truncate(c.next, c.largestAcked)
  }

  function Step(n: Numbering, e: Event): Numbering {
    match e
    case NewHeader(s) =>
      var c := n.Of(s);
      n.Set(s, c.(next := c.next + 1, used := c.used + [c.next]))
    case AckReceived(s, largest) =>
      var c := n.Of(s);
      if largest > c.largestAcked then n.Set(s, c.(largestAcked := largest)) else n
    case Reset => Numbering(ZERO, ZERO, ZERO)
  }

  function Run(events: seq<Event>): Numbering {
    if events == [] then Numbering(ZERO, ZERO, ZERO)
    else Step(Run(events[..|events| - 1]), events[|events| - 1])
  }

  /** The peer acknowledges only numbers that have been handed out. */
  predicate HonestPeer(n: Numbering, e: Event) {
    e.AckReceived? ==> e.largest < n.Of(e.space).next
  }

  predicate HonestRun(events: seq<Event>) {
    events == [] ||
    (HonestRun(events[..|events| - 1]) && HonestPeer(Run(events[..|events| - 1]), events[|events| - 1]))
  }

  /** The numbers handed out in a space are 0, 1, 2, ... in order, and none acknowledged is yet to come. */
  ghost predicate OrderlyCounter(c: Counter) {
    && |c.used| == c.next
    && (forall i :: 0 <= i < |c.used| ==> c.used[i] == i)
    && c.largestAcked <= c.next
  }

  ghost predicate Orderly(n: Numbering) {
    OrderlyCounter(n.initial) && OrderlyCounter(n.handshake) && OrderlyCounter(n.appData)
  }

  lemma StepOrderly(n: Numbering, e: Event)
    requires Orderly(n) && HonestPeer(n, e)
    ensures Orderly(Step(n, e))
  {
  }

  lemma {:induction false} EveryRunOrderly(events: seq<Event>)
    requires HonestRun(events)
    ensures Orderly(Run(events))
    decreases |events|
  {
    if events != [] {
      EveryRunOrderly(events[..|events| - 1]);
      StepOrderly(Run(events[..|events| - 1]), events[|events| - 1]);
    }
  }

  /** Over every run in which the peer acknowledges only numbers handed out, no number is handed out
      twice between resets, and making the next header panics if and only if 2^32 - 1 or more numbers
      are outstanding; the first panic, on a number below the largest acknowledged, is unreachable. */
  lemma NumbersNeverReusedAndPanicIff(events: seq<Event>, s: Space)
    requires HonestRun(events)
    ensures var c := Run(events).Of(s);
            && (forall i, j :: 0 <= i < j < |c.used| ==> c.used[i] != c.used[j])
            && c.next !in c.used
            && c.largestAcked <= c.next
            && (NextTruncated(c).Panic? <==> c.next - c.largestAcked + 1 >= 0x1_0000_0000)
  {
    EveryRunOrderly(events);
    var c := Run(events).Of(s);
    assert OrderlyCounter(c);
    TruncatePanicsIff(c.next, c.largestAcked);
  }
}
