/** ACK ranges (connection.go GetAckFrame, frames.go GetAckedPackets, agents/ack_agent.go). */
module Acks {
  import opened VarInts
  import opened Frames

  // ----- Descending lists

  ghost predicate Descending(l: seq<nat>) {
    forall i, j :: 0 <= i < j < |l| ==> l[i] >= l[j]
  }

  ghost predicate StrictlyDescending(l: seq<nat>) {
    forall i, j :: 0 <= i < j < |l| ==> l[i] > l[j]
  }

  ghost predicate NoDuplicates(l: seq<nat>) {
    forall i, j :: 0 <= i < j < |l| ==> l[i] != l[j]
  }

  function Insert(x: nat, l: seq<nat>): seq<nat> {
    if l == [] || x >= l[0] then [x] + l else [l[0]] + Insert(x, l[1..])
  }

  /** sort.Sort on a PacketNumberQueue: largest first. */
  function Sorted(l: seq<nat>): seq<nat> {
    if l == [] then [] else Insert(l[0], Sorted(l[1..]))
  }

  lemma {:induction false} InsertPermutes(x: nat, l: seq<nat>)
    ensures multiset(Insert(x, l)) == multiset(l) + multiset{x}
    decreases |l|
  {
    if l != [] && x < l[0] {
      InsertPermutes(x, l[1..]);
      assert l == [l[0]] + l[1..];
    }
  }

  lemma {:induction false} InsertSorts(x: nat, l: seq<nat>)
    requires Descending(l)
    ensures Descending(Insert(x, l))
    decreases |l|
  {
    if l != [] && x < l[0] {
      var r := Insert(x, l[1..]);
      InsertSorts(x, l[1..]);
      InsertBelow(x, l[1..], l[0]);
      assert forall i :: 0 < i < |r| + 1 ==> ([l[0]] + r)[i] == r[i - 1];
    }
  }

  lemma {:induction false} InsertBelow(x: nat, l: seq<nat>, top: nat)
    requires x <= top && forall i :: 0 <= i < |l| ==> l[i] <= top
    ensures forall i :: 0 <= i < |Insert(x, l)| ==> Insert(x, l)[i] <= top
    decreases |l|
  {
    if l != [] && x < l[0] {
      InsertBelow(x, l[1..], top);
    }
  }

  /** Sorting gives a descending permutation, and there is only one: whatever algorithm sort.Sort uses,
      this is what it returns. */
  lemma {:induction false} SortedSorts(l: seq<nat>)
    ensures Descending(Sorted(l)) && multiset(Sorted(l)) == multiset(l)
    decreases |l|
  {
    if l != [] {
      SortedSorts(l[1..]);
      InsertSorts(l[0], Sorted(l[1..]));
      InsertPermutes(l[0], Sorted(l[1..]));
      assert l == [l[0]] + l[1..];
    }
  }

  lemma {:induction false} DescendingUnique(l: seq<nat>, m: seq<nat>)
    requires Descending(l) && Descending(m) && multiset(l) == multiset(m)
    ensures l == m
    decreases |l|
  {
    if l == [] || m == [] {
      assert |multiset(l)| == |l| && |multiset(m)| == |m|;
    } else {
      SameHead(l, m);
      SameHead(m, l);
      TailMultiset(l);
      TailMultiset(m);
      DescendingUnique(l[1..], m[1..]);
    }
  }

  lemma SameHead(l: seq<nat>, m: seq<nat>)
    requires l != [] && m != [] && Descending(m) && multiset(l) == multiset(m)
    ensures l[0] <= m[0]
  {
    assert l[0] in multiset(l);
    assert l[0] in m;
  }

  lemma TailMultiset(l: seq<nat>)
    requires l != []
    ensures multiset(l[1..]) == multiset(l) - multiset{l[0]}
  {
    assert l == [l[0]] + l[1..];
  }

  lemma SortedMembers(l: seq<nat>)
    ensures |Sorted(l)| == |l|
    ensures forall x :: x in Sorted(l) <==> x in l
  {
    SortedSorts(l);
    assert |multiset(Sorted(l))| == |Sorted(l)| && |multiset(l)| == |l|;
    forall x ensures x in Sorted(l) <==> x in l {
      assert x in multiset(Sorted(l)) <==> x in multiset(l);
    }
  }

  /** The sorted queue is strictly descending exactly when the queue has no duplicates. */
  lemma StrictIff(l: seq<nat>)
    ensures StrictlyDescending(Sorted(l)) <==> NoDuplicates(l)
  {
    SortedSorts(l);
    NoDuplicatesByCount(l);
    NoDuplicatesByCount(Sorted(l));
    var s := Sorted(l);
    assert StrictlyDescending(s) <==> NoDuplicates(s);
  }

  ghost predicate CountedOnce(l: seq<nat>) {
    forall x :: x in multiset(l) ==> multiset(l)[x] == 1
  }

  lemma NoDuplicatesCons(x: nat, t: seq<nat>)
    ensures NoDuplicates([x] + t) <==> x !in t && NoDuplicates(t)
  {
    var l := [x] + t;
    assert l[0] == x && forall i :: 0 <= i < |t| ==> l[i + 1] == t[i];
    assert forall i :: 1 <= i < |l| ==> l[i] == t[i - 1];
  }

  lemma CountedOnceCons(x: nat, t: seq<nat>)
    ensures CountedOnce([x] + t) <==> x !in t && CountedOnce(t)
  {
    var m := multiset([x] + t);
    assert m == multiset{x} + multiset(t);
    assert x in m;
    forall y | y in multiset(t) ensures y in m && m[y] == multiset(t)[y] + (if y == x then 1 else 0) {
    }
  }

  lemma {:induction false} NoDuplicatesByCount(l: seq<nat>)
    ensures NoDuplicates(l) <==> CountedOnce(l)
    decreases |l|
  {
    hide NoDuplicates, CountedOnce;
    if l == [] {
      NothingTwice();
    } else {
      assert l == [l[0]] + l[1..];
      NoDuplicatesCons(l[0], l[1..]);
      CountedOnceCons(l[0], l[1..]);
      NoDuplicatesByCount(l[1..]);
    }
  }

  lemma NothingTwice()
    ensures NoDuplicates([]) && CountedOnce([])
  {
  }

  // ----- Blocks: encoding a descending list, and the standard's reading of them

  const UINT64 := 0x1_0000_0000_0000_0000

  /** 64-bit subtraction. */
  function Minus(a: int, b: int): nat {
    (a - b) % UINT64
  }

  /** The loop shared by GetAckFrame and mergeAckFrames, from the number before rest and the block being
      filled.  They differ only in what they subtract from a distance to get a gap: 2 and 1. */
  function Blocks(previous: nat, current: AckBlock, rest: seq<nat>, bias: nat): (b: seq<AckBlock>)
    ensures |b| >= 1
    decreases |rest|
  {
    if rest == [] then [current]
    else if Minus(previous, rest[0]) == 1 then Blocks(rest[0], current.(block := current.block + 1), rest[1..], bias)
    else [current] + Blocks(rest[0], AckBlock(Minus(Minus(previous, rest[0]), bias), 0), rest[1..], bias)
  }

  function BlocksOf(l: seq<nat>, bias: nat): (b: seq<AckBlock>)
    requires l != []
    ensures |b| >= 1
  {
    Blocks(l[0], AckBlock(0, 0), l[1..], bias)
  }

  /** top, top - 1, ..., n + 1 numbers. */
  function CountDown(top: int, n: nat): (l: seq<int>)
    ensures |l| == n + 1
    ensures forall i :: 0 <= i <= n ==> l[i] == top - i
  {
    seq(n + 1, i => top - i)
  }

  /** The numbers a list of blocks acknowledges, largest first.  Section 19.3.1 of RFC 9000: a block
      covers its length plus one numbers, and the next one starts at the previous smallest minus its gap
      minus 2; with bias 1 in place of 2 it is the reading mergeAckFrames writes for. */
  function Listed(top: int, blocks: seq<AckBlock>, bias: nat): seq<int>
    requires blocks != []
    decreases |blocks|
  {
    var first := CountDown(top, blocks[0].block);
    if |blocks| == 1 then first
    else first + Listed(top - blocks[0].block - blocks[1].gap - bias, blocks[1..], bias)
  }

  /** The numbers as integers. */
  function AsInts(l: seq<nat>): (m: seq<int>)
    ensures |m| == |l| && forall i :: 0 <= i < |l| ==> m[i] == l[i]
  {
    seq(|l|, i requires 0 <= i < |l| => l[i])
  }

  /** Encoding a strictly descending list and reading it back gives the list, in the middle of the loop:
      the block being filled ends at `previous`. */
  lemma {:induction false} BlocksInverse(previous: nat, current: AckBlock, rest: seq<nat>, bias: nat)
    requires StrictlyDescending([previous] + rest) && previous < UINT64 && bias <= 2
    ensures Listed(previous + current.block, Blocks(previous, current, rest, bias), bias)
         == CountDown(previous + current.block, current.block) + AsInts(rest)
    ensures Blocks(previous, current, rest, bias)[0].gap == current.gap
    ensures Blocks(previous, current, rest, bias)[0].block >= current.block
    decreases |rest|
  {
    hide CountDown, AsInts;
    var top := previous + current.block;
    if rest == [] {
      assert AsInts(rest) == [];
      assert CountDown(top, current.block) + [] == CountDown(top, current.block);
    } else {
      var next, tail := rest[0], rest[1..];
      StepDown(previous, rest);
      if previous - next == 1 {
        BlocksInverse(next, current.(block := current.block + 1), tail, bias);
        LongerRun(top, current.block, rest);
      } else {
        var start := AckBlock(previous - next - bias, 0);
        assert Minus(previous - next, bias) == previous - next - bias;
        BlocksInverse(next, start, tail, bias);
        NextRun(top, current, Blocks(next, start, tail, bias), next, bias);
        assert CountDown(next, 0) == [next as int];
        SplitInts(rest);
      }
    }
  }

  lemma StepDown(previous: nat, rest: seq<nat>)
    requires StrictlyDescending([previous] + rest) && previous < UINT64 && rest != []
    ensures previous > rest[0] && Minus(previous, rest[0]) == previous - rest[0]
    ensures StrictlyDescending([rest[0]] + rest[1..])
  {
    var l := [previous] + rest;
    assert l[0] == previous && l[1] == rest[0];
    assert [rest[0]] + rest[1..] == rest;
    assert forall i :: 0 <= i < |rest| ==> rest[i] == l[i + 1];
  }

  lemma LongerRun(top: int, n: nat, rest: seq<nat>)
    requires rest != [] && rest[0] == top - n - 1
    ensures CountDown(top, n + 1) + AsInts(rest[1..]) == CountDown(top, n) + AsInts(rest)
  {
    hide CountDown, AsInts;
    CountDownSnoc(top, n);
    SplitInts(rest);
    AssociateInts(CountDown(top, n), [rest[0] as int], AsInts(rest[1..]));
  }

  lemma CountDownSnoc(top: int, n: nat)
    ensures CountDown(top, n + 1) == CountDown(top, n) + [top - n - 1]
  {
  }

  lemma AssociateInts(a: seq<int>, b: seq<int>, c: seq<int>)
    ensures (a + b) + c == a + (b + c)
  {
  }

  lemma NextRun(top: int, current: AckBlock, more: seq<AckBlock>, next: int, bias: nat)
    requires more != [] && next == top - current.block - more[0].gap - bias
    ensures Listed(top, [current] + more, bias) == CountDown(top, current.block) + Listed(next, more, bias)
  {
    assert ([current] + more)[1..] == more;
  }

  lemma SplitInts(l: seq<nat>)
    requires l != []
    ensures AsInts(l) == [l[0] as int] + AsInts(l[1..])
  {
  }

  /** The run-encoding loop is inverted by the reading with the same bias, on every strictly descending
      list of 64-bit numbers. */
  lemma RunsRoundTrip(l: seq<nat>, bias: nat)
    requires l != [] && StrictlyDescending(l) && l[0] < UINT64 && bias <= 2
    ensures Listed(l[0], BlocksOf(l, bias), bias) == AsInts(l)
  {
    assert [l[0]] + l[1..] == l;
    BlocksInverse(l[0], AckBlock(0, 0), l[1..], bias);
    assert CountDown(l[0], 0) == [l[0] as int];
    SplitInts(l);
  }

  /** Places where consecutive numbers are not adjacent. */
  function Breaks(l: seq<nat>): nat {
    if |l| <= 1 then 0 else (if l[0] == l[1] + 1 then 0 else 1) + Breaks(l[1..])
  }

  /** There is one block per maximal run. */
  lemma BreaksStep(previous: nat, rest: seq<nat>)
    requires rest != []
    ensures Breaks([previous] + rest) == (if previous == rest[0] + 1 then 0 else 1) + Breaks([rest[0]] + rest[1..])
  {
    var l := [previous] + rest;
    assert l[0] == previous && l[1] == rest[0] && l[1..] == rest && [rest[0]] + rest[1..] == rest;
  }

  lemma {:induction false} OneBlockPerRun(previous: nat, current: AckBlock, rest: seq<nat>, bias: nat)
    requires StrictlyDescending([previous] + rest) && previous < UINT64
    ensures |Blocks(previous, current, rest, bias)| == 1 + Breaks([previous] + rest)
    decreases |rest|
  {
    hide StrictlyDescending, Minus;
    if rest != [] {
      StepDown(previous, rest);
      BreaksStep(previous, rest);
      hide Breaks;
      if previous - rest[0] == 1 {
        OneBlockPerRun(rest[0], current.(block := current.block + 1), rest[1..], bias);
      } else {
        OneBlockPerRun(rest[0], AckBlock(Minus(Minus(previous, rest[0]), bias), 0), rest[1..], bias);
      }
    }
  }

  /** The loop itself, from the largest number on. */
  method BuildBlocks(top: nat, rest: seq<nat>, bias: nat) returns (blocks: seq<AckBlock>)
    ensures blocks == Blocks(top, AckBlock(0, 0), rest, bias)
  {
    blocks := [];
    var previous, current := top, AckBlock(0, 0);
    for i := 0 to |rest|
      invariant Blocks(top, AckBlock(0, 0), rest, bias) == blocks + Blocks(previous, current, rest[i..], bias)
    {
      var number := rest[i];
      assert rest[i..][1..] == rest[i + 1..];
      if Minus(previous, number) == 1 {
        current := current.(block := current.block + 1);
      } else {
        ghost var was := blocks;
        var start := AckBlock(Minus(Minus(previous, number), bias), 0);
        blocks := blocks + [current];
        assert was + ([current] + Blocks(number, start, rest[i + 1..], bias)) ==
               blocks + Blocks(number, start, rest[i + 1..], bias);
        current := start;
      }
      previous := number;
    }
    assert rest[|rest|..] == [];
    blocks := blocks + [current];
  }

  // ----- GetAckFrame

  /** GetAckFrame on a non-empty queue. */
  function AckFrameOf(queue: seq<nat>): AckFrame
    requires queue != []
  {
    SortedMembers(queue);
    var l := Sorted(queue);
    var blocks := BlocksOf(l, 2);
    AckFrame(l[0], 0, |blocks| - 1, blocks)
  }

  /** The numbers an ACK frame acknowledges according to section 19.3.1 of RFC 9000. */
  function Acknowledged(f: AckFrame): seq<int>
    requires f.ackBlocks != []
  {
    Listed(f.largestAcknowledged, f.ackBlocks, 2)
  }

  ghost predicate AllVarInts(queue: seq<nat>) {
    forall i :: 0 <= i < |queue| ==> IsVarInt(queue[i])
  }

  /** Without duplicates the frame acknowledges exactly the queue, with one block per maximal run. */
  lemma AckFrameIsExact(queue: seq<nat>)
    requires queue != [] && AllVarInts(queue) && NoDuplicates(queue)
    ensures var f := AckFrameOf(queue);
            && TruthfulAck(f)
            && Acknowledged(f) == AsInts(Sorted(queue))
            && |f.ackBlocks| == 1 + Breaks(Sorted(queue))
            && (forall x: nat :: (x as int) in Acknowledged(f) <==> x in queue)
  {
    hide Sorted, Listed;
    var l := Sorted(queue);
    SortedMembers(queue);
    StrictIff(queue);
    assert l[0] in queue;
    RunsRoundTrip(l, 2);
    assert [l[0]] + l[1..] == l;
    OneBlockPerRun(l[0], AckBlock(0, 0), l[1..], 2);
    BlocksInverse(l[0], AckBlock(0, 0), l[1..], 2);
    forall x: nat ensures (x as int) in AsInts(l) <==> x in l {
      if x in l {
        var i :| 0 <= i < |l| && l[i] == x;
        assert AsInts(l)[i] == x;
      }
    }
  }

  // ----- Which frames can be written

  /** Each block's numbers and gap stay within the list. */
  lemma {:induction false} BlocksBounded(previous: nat, current: AckBlock, rest: seq<nat>, top: nat, bias: nat)
    requires StrictlyDescending([previous] + rest) && previous + current.block <= top && current.gap <= top
    requires IsVarInt(top) && bias <= 2
    ensures var b := Blocks(previous, current, rest, bias);
            && |b| <= 1 + |rest|
            && forall i :: 0 <= i < |b| ==> b[i].gap <= top && b[i].block <= top
    decreases |rest|
  {
    if rest != [] {
      StepDown(previous, rest);
      var d := previous - rest[0];
      if d == 1 {
        BlocksBounded(rest[0], current.(block := current.block + 1), rest[1..], top, bias);
      } else {
        assert Minus(d, bias) == d - bias;
        BlocksBounded(rest[0], AckBlock(d - bias, 0), rest[1..], top, bias);
      }
    }
  }

  ghost predicate HasWrappedGap(b: seq<AckBlock>) {
    exists i :: 0 <= i < |b| && b[i].gap == UINT64 - 2
  }

  lemma WrappedGapCons(c: AckBlock, b: seq<AckBlock>)
    requires HasWrappedGap(b)
    ensures HasWrappedGap([c] + b)
  {
    var i :| 0 <= i < |b| && b[i].gap == UINT64 - 2;
    assert ([c] + b)[i + 1] == b[i];
  }

  /** A repeated number makes the distance 0 and the gap wrap around. */
  lemma {:induction false} RepeatedNumberWraps(previous: nat, current: AckBlock, rest: seq<nat>)
    requires Descending([previous] + rest) && !StrictlyDescending([previous] + rest)
    ensures HasWrappedGap(Blocks(previous, current, rest, 2))
    decreases |rest|
  {
    hide HasWrappedGap, Descending, StrictlyDescending;
    NonStrictIsLonger(previous, rest);
    if rest != [] {
      var start := AckBlock(Minus(Minus(previous, rest[0]), 2), 0);
      if previous == rest[0] {
        FirstWraps(rest[0], start, rest[1..]);
        WrappedGapCons(current, Blocks(rest[0], start, rest[1..], 2));
      } else {
        RepeatIsLater(previous, rest);
        if Minus(previous, rest[0]) == 1 {
          RepeatedNumberWraps(rest[0], current.(block := current.block + 1), rest[1..]);
        } else {
          RepeatedNumberWraps(rest[0], start, rest[1..]);
          WrappedGapCons(current, Blocks(rest[0], start, rest[1..], 2));
        }
      }
    }
  }

  lemma NonStrictIsLonger(x: nat, l: seq<nat>)
    requires !StrictlyDescending([x] + l)
    ensures l != []
  {
  }

  lemma FirstWraps(previous: nat, current: AckBlock, rest: seq<nat>)
    requires current.gap == UINT64 - 2
    ensures HasWrappedGap(Blocks(previous, current, rest, 2))
  {
    FirstGap(previous, current, rest);
  }

  lemma DescendingTail(x: nat, l: seq<nat>)
    requires Descending([x] + l)
    ensures Descending(l) && (l != [] ==> x >= l[0])
  {
    var m := [x] + l;
    forall i, j | 0 <= i < j < |l| ensures l[i] >= l[j] {
      assert m[i + 1] == l[i] && m[j + 1] == l[j];
    }
    if l != [] {
      assert m[0] == x && m[1] == l[0];
    }
  }

  lemma RepeatIsLater(x: nat, l: seq<nat>)
    requires Descending([x] + l) && !StrictlyDescending([x] + l) && l != [] && x != l[0]
    ensures [l[0]] + l[1..] == l && Descending(l) && !StrictlyDescending(l)
  {
    hide Descending, StrictlyDescending;
    DescendingTail(x, l);
    if StrictlyDescending(l) {
      StrictCons(x, l);
    }
  }

  lemma StrictCons(x: nat, l: seq<nat>)
    requires StrictlyDescending(l) && l != [] && x > l[0]
    ensures StrictlyDescending([x] + l)
  {
  }

  lemma {:induction false} FirstGap(previous: nat, current: AckBlock, rest: seq<nat>)
    ensures Blocks(previous, current, rest, 2)[0].gap == current.gap
    decreases |rest|
  {
    if rest != [] && Minus(previous, rest[0]) == 1 {
      FirstGap(rest[0], current.(block := current.block + 1), rest[1..]);
    }
  }

  /** The frame can be written if and only if the queue has no duplicates: with one, a gap wraps around
      to 2^64 - 2 and WriteVarInt panics. */
  lemma WritableIff(queue: seq<nat>)
    requires queue != [] && AllVarInts(queue)
    ensures EncodableAck(AckFrameOf(queue)) <==> NoDuplicates(queue)
  {
    hide Sorted, Blocks;
    var l := Sorted(queue);
    SortedSorts(queue);
    SortedMembers(queue);
    StrictIff(queue);
    assert l[0] in queue;
    assert [l[0]] + l[1..] == l;
    if NoDuplicates(queue) {
      BlocksBounded(l[0], AckBlock(0, 0), l[1..], l[0], 2);
      ShortList(l);
    } else {
      RepeatedNumberWraps(l[0], AckBlock(0, 0), l[1..]);
    }
  }

  lemma {:induction false} ShortList(l: seq<nat>)
    requires StrictlyDescending(l) && l != []
    ensures |l| <= l[0] + 1
    decreases |l|
  {
    if |l| > 1 {
      assert forall i :: 0 <= i < |l| - 1 ==> l[1..][i] == l[i + 1];
      ShortList(l[1..]);
    }
  }
}
