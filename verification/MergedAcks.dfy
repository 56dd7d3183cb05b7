/** mergeAckFrames (agents/send_agent.go): which numbers it collects from the frames it merges, and what
    a receiver makes of the frame it builds. */
module MergedAcks {
  import opened VarInts
  import opened Frames
  import opened Acks
  import opened AckAgents

  /** Every frame the ACK agent submits without duplicates is valid. */
  lemma OwnAcksAreValid(queue: seq<nat>)
    requires queue != [] && AllVarInts(queue) && NoDuplicates(queue)
    ensures ValidAck(AckFrameOf(queue))
  {
    hide Sorted, Listed, Blocks;
    var l := Sorted(queue);
    SortedMembers(queue);
    StrictIff(queue);
    assert l[0] in queue;
    RunsRoundTrip(l, 2);
    WalkEndsAt(l, 2);
    AckFrameIsExact(queue);
  }

  /** The n numbers from offset below top downwards. */
  function Own(top: nat, n: nat, offset: nat): set<nat> {
    if n == 0 then {} else Own(top, n - 1, offset) + {Minus(top, n - 1 + offset)}
  }

  lemma {:induction false} OwnElement(top: nat, n: nat, offset: nat, x: nat) returns (i: nat)
    requires x in Own(top, n, offset)
    ensures i < n && x == Minus(top, i + offset)
    decreases n
  {
    if x == Minus(top, n - 1 + offset) {
      i := n - 1;
    } else {
      i := OwnElement(top, n - 1, offset, x);
    }
  }

  /** The numbers collected from the blocks, at a given offset below the largest: a block gives its length
      (not one more), and the offset grows by a block's own gap plus one only after that block, and never
      for the first. */
  function CollectedFrom(top: nat, blocks: seq<AckBlock>, offset: nat, first: bool): set<nat>
    decreases |blocks|
  {
    if blocks == [] then {}
    else
      Own(top, blocks[0].block, offset) +
      CollectedFrom(top, blocks[1..], if first then offset else offset + blocks[0].gap + 1, false)
  }

  function Collected(f: AckFrame): set<nat> {
    {f.largestAcknowledged} + CollectedFrom(f.largestAcknowledged, f.ackBlocks, 0, true)
  }

  function CollectedAll(frames: seq<AckFrame>): set<nat> {
    if frames == [] then {} else CollectedAll(frames[..|frames| - 1]) + Collected(frames[|frames| - 1])
  }

  function MaxLargest(frames: seq<AckFrame>): nat {
    if frames == [] then 0
    else
      var m, f := MaxLargest(frames[..|frames| - 1]), frames[|frames| - 1];
      if f.largestAcknowledged > m then f.largestAcknowledged else m
  }

  // ----- What is collected

  /** Everything collected lies strictly above the frame's smallest number. */
  lemma {:induction false} CollectedAbove(top: nat, blocks: seq<AckBlock>, offset: nat, first: bool, low: int, x: nat)
    requires x in CollectedFrom(top, blocks, offset, first) && top < UINT64
    requires 0 <= low <= top - offset - (if first && blocks != [] then Walk(blocks) else WalkRest(blocks))
    ensures low < x <= top
    decreases |blocks|
  {
    if x in Own(top, blocks[0].block, offset) {
      var i := OwnElement(top, blocks[0].block, offset, x);
      assert low < top - (i + offset) <= top;
    } else {
      var next := if first then offset else offset + blocks[0].gap + 1;
      assert x in CollectedFrom(top, blocks[1..], next, false);
      CollectedAbove(top, blocks[1..], next, false, low, x);
    }
  }

  /** A frame's collected numbers are the ones it acknowledges if and only if it acknowledges one only. */
  lemma CollectedExactIff(f: AckFrame)
    requires ValidAck(f)
    ensures (forall x: nat :: x in Collected(f) <==> (x as int) in Acknowledged(f)) <==>
            |f.ackBlocks| == 1 && f.ackBlocks[0].block == 0
  {
    hide Listed, CollectedFrom;
    var top, blocks := f.largestAcknowledged, f.ackBlocks;
    var low := top - Walk(blocks) - (|blocks| - 1);
    SmallestListed(top, blocks, 2);
    var l := Acknowledged(f);
    assert l[|l| - 1] == low;
    if |blocks| == 1 && blocks[0].block == 0 {
      OnlyLargest(f);
    } else {
      WalkPositive(blocks);
      assert low in l && low < top;
      if low in CollectedFrom(top, blocks, 0, true) {
        CollectedAbove(top, blocks, 0, true, low, low);
      }
      assert low !in Collected(f);
    }
  }

  lemma WalkPositive(blocks: seq<AckBlock>)
    requires blocks != [] && !(|blocks| == 1 && blocks[0].block == 0)
    ensures Walk(blocks) + |blocks| - 1 > 0
  {
  }

  lemma OnlyLargest(f: AckFrame)
    requires |f.ackBlocks| == 1 && f.ackBlocks[0].block == 0
    ensures Collected(f) == {f.largestAcknowledged}
    ensures Acknowledged(f) == [f.largestAcknowledged as int]
  {
    var top := f.largestAcknowledged;
    assert f.ackBlocks[1..] == [];
    assert CollectedFrom(top, f.ackBlocks, 0, true) == Own(top, 0, 0) + CollectedFrom(top, [], 0, false);
  }

  lemma {:induction false} CollectedAllBounded(frames: seq<AckFrame>)
    requires forall i :: 0 <= i < |frames| ==> ValidAck(frames[i])
    ensures forall x :: x in CollectedAll(frames) ==> x <= MaxLargest(frames)
    ensures frames != [] ==> MaxLargest(frames) in CollectedAll(frames) && MaxLargest(frames) < UINT64
    decreases |frames|
  {
    if frames != [] {
      var n := |frames| - 1;
      var f := frames[n];
      CollectedAllBounded(frames[..n]);
      forall x | x in Collected(f) ensures x <= f.largestAcknowledged {
        if x in CollectedFrom(f.largestAcknowledged, f.ackBlocks, 0, true) {
          CollectedAbove(f.largestAcknowledged, f.ackBlocks, 0, true,
            f.largestAcknowledged - Walk(f.ackBlocks), x);
        }
      }
      if n == 0 {
        assert frames[..n] == [];
      }
    }
  }

  // ----- The merged frame

  /** l lists what mergeAckFrames collects from the frames, largest first. */
  ghost predicate ListsCollected(frames: seq<AckFrame>, l: seq<nat>) {
    l != [] && StrictlyDescending(l) && (forall x :: x in l <==> x in CollectedAll(frames))
  }

  /** The frame made of the sorted numbers: the first of them is taken to be the largest one. */
  function RunsFrame(largest: nat, l: seq<nat>): AckFrame
    requires l != []
  {
    var blocks := Blocks(largest, AckBlock(0, 0), l[1..], 1);
    AckFrame(largest, 0, |blocks| - 1, blocks)
  }

  lemma {:induction false} ListOf(s: set<nat>) returns (l: seq<nat>)
    ensures NoDuplicates(l) && forall x :: x in l <==> x in s
    decreases s
  {
    if s == {} {
      l := [];
    } else {
      var x :| x in s;
      var rest := ListOf(s - {x});
      l := rest + [x];
    }
  }

  lemma CollectedListExists(frames: seq<AckFrame>)
    requires frames != []
    ensures exists l :: ListsCollected(frames, l)
  {
    hide Sorted, NoDuplicates, StrictlyDescending;
    var l := ListOf(CollectedAll(frames));
    SortedMembers(l);
    StrictIff(l);
    var f := frames[|frames| - 1];
    assert f.largestAcknowledged in CollectedAll(frames);
    assert ListsCollected(frames, Sorted(l));
  }

  /** The frame mergeAckFrames returns. */
  ghost function Merged(frames: seq<AckFrame>): (r: AckFrame)
    requires frames != []
    ensures r.ackBlocks != [] && r.largestAcknowledged == MaxLargest(frames)
  {
    CollectedListExists(frames);
    var l :| ListsCollected(frames, l);
    RunsFrame(MaxLargest(frames), l)
  }

  lemma {:induction false} StrictUnique(l: seq<nat>, m: seq<nat>)
    requires StrictlyDescending(l) && StrictlyDescending(m) && forall x :: x in l <==> x in m
    ensures l == m
    decreases |l|
  {
    HeadIn(l);
    HeadIn(m);
    if l != [] {
      forall x ensures x in l[1..] <==> x in m[1..] {
        TailElements(l, x);
        TailElements(m, x);
      }
      StrictUnique(l[1..], m[1..]);
    }
  }

  lemma HeadIn(l: seq<nat>)
    ensures l != [] ==> l[0] in l
  {
  }

  lemma TailElements(l: seq<nat>, x: nat)
    requires l != [] && StrictlyDescending(l)
    ensures x in l[1..] <==> x in l && x != l[0]
  {
    assert l == [l[0]] + l[1..];
  }

  /** Merged is what the function computes. */
  lemma MergedIs(frames: seq<AckFrame>, l: seq<nat>)
    requires frames != [] && ListsCollected(frames, l)
    ensures Merged(frames) == RunsFrame(MaxLargest(frames), l)
  {
    CollectedListExists(frames);
    var m :| ListsCollected(frames, m) && Merged(frames) == RunsFrame(MaxLargest(frames), m);
    StrictUnique(l, m);
  }

  // ----- What the merged frame says

  /** A receiver reads the blocks of a merged frame as the numbers they were made from if and only if
      those are one contiguous run; otherwise it takes a number that was never collected, below all of
      them, for acknowledged. */
  lemma MergedReadsRightIff(l: seq<nat>)
    requires l != [] && StrictlyDescending(l) && l[0] < UINT64
    ensures var read := Listed(l[0], BlocksOf(l, 1), 2);
            && read != []
            && (read == AsInts(l) <==> Breaks(l) == 0)
            && (Breaks(l) > 0 ==> read[|read| - 1] < l[|l| - 1])
  {
    hide BlocksOf, Breaks, Listed;
    var blocks := BlocksOf(l, 1);
    BlocksPerRun(l);
    RunsRoundTrip(l, 1);
    SmallestListed(l[0], blocks, 1);
    SmallestListed(l[0], blocks, 2);
    var read := Listed(l[0], blocks, 2);
    if |blocks| == 1 {
      OneBlockAnyBias(l[0], blocks);
    } else {
      assert read[|read| - 1] < l[|l| - 1];
      assert AsInts(l)[|l| - 1] == l[|l| - 1];
    }
  }

  lemma BlocksPerRun(l: seq<nat>)
    requires l != [] && StrictlyDescending(l) && l[0] < UINT64
    ensures |BlocksOf(l, 1)| == 1 + Breaks(l)
  {
    assert [l[0]] + l[1..] == l;
    OneBlockPerRun(l[0], AckBlock(0, 0), l[1..], 1);
  }

  lemma OneBlockAnyBias(top: int, blocks: seq<AckBlock>)
    requires |blocks| == 1
    ensures Listed(top, blocks, 1) == Listed(top, blocks, 2)
  {
  }

  // ----- Merging, from the frames to what a receiver reads

  ghost predicate AllValid(frames: seq<AckFrame>) {
    forall i :: 0 <= i < |frames| ==> ValidAck(frames[i])
  }

  /** One of the frames acknowledges x. */
  ghost predicate AcknowledgedByAny(frames: seq<AckFrame>, x: int)
    requires AllValid(frames)
  {
    exists i :: 0 <= i < |frames| && x in Acknowledged(frames[i])
  }

  /** Nothing is collected that no frame acknowledges. */
  ghost predicate CollectsWithin(frames: seq<AckFrame>)
    requires AllValid(frames)
  {
    forall x :: x in CollectedAll(frames) ==> AcknowledgedByAny(frames, x)
  }

  ghost predicate CollectsAll(frames: seq<AckFrame>)
    requires AllValid(frames)
  {
    forall x :: AcknowledgedByAny(frames, x) ==> x >= 0 && x in CollectedAll(frames)
  }

  /** The numbers the frames acknowledge are one run. */
  ghost predicate Contiguous(frames: seq<AckFrame>)
    requires AllValid(frames)
  {
    forall x, y, z :: AcknowledgedByAny(frames, x) && AcknowledgedByAny(frames, z) && Between(x, y, z) ==>
      AcknowledgedByAny(frames, y)
  }

  predicate Between(x: int, y: int, z: int) {
    x <= y <= z
  }

  /** What a receiver reads from a merged frame is what the merged frames acknowledged. */
  ghost predicate MergesExactly(frames: seq<AckFrame>)
    requires frames != [] && AllValid(frames)
  {
    forall x :: x in Acknowledged(Merged(frames)) <==> AcknowledgedByAny(frames, x)
  }

  lemma {:induction false} ListedAtMost(top: int, blocks: seq<AckBlock>, bias: nat, x: int)
    requires blocks != [] && x in Listed(top, blocks, bias)
    ensures x <= top
    decreases |blocks|
  {
    if x !in CountDown(top, blocks[0].block) {
      ListedAtMost(top - blocks[0].block - blocks[1].gap - bias, blocks[1..], bias, x);
    }
  }

  /** With bias 1 written and 2 read, the first number after a break is not read. */
  lemma {:induction false} AfterBreakMissed(previous: nat, current: AckBlock, rest: seq<nat>) returns (k: nat)
    requires StrictlyDescending([previous] + rest) && previous < UINT64 && Breaks([previous] + rest) > 0
    ensures k < |rest| && (rest[k] as int) !in Listed(previous + current.block, Blocks(previous, current, rest, 1), 2)
    decreases |rest|
  {
    hide Listed;
    var l, top := [previous] + rest, previous + current.block;
    assert rest != [] by {
      assert |l| > 1;
    }
    var next, tail := rest[0], rest[1..];
    StepDown(previous, rest);
    assert l[1..] == rest && l[1] == next && [next] + tail == rest;
    if previous - next == 1 {
      k := AfterBreakMissed(next, current.(block := current.block + 1), tail);
      k := k + 1;
    } else {
      var start := AckBlock(previous - next - 1, 0);
      assert Minus(previous - next, 1) == previous - next - 1;
      var b := Blocks(next, start, tail, 1);
      BlocksInverse(next, start, tail, 1);
      k := 0;
      BreakRead(top, current, b, next, previous);
    }
  }

  lemma BreakRead(top: int, current: AckBlock, b: seq<AckBlock>, next: nat, previous: nat)
    requires b != [] && b[0].gap == previous - next - 1 && previous == top - current.block && next < previous
    ensures (next as int) !in Listed(top, [current] + b, 2)
  {
    var blocks := [current] + b;
    assert blocks[1..] == b && blocks[1] == b[0];
    var after := Listed(next - 1, b, 2);
    assert Listed(top, blocks, 2) == CountDown(top, current.block) + after;
    if (next as int) in after {
      ListedAtMost(next - 1, b, 2, next);
    }
  }

  lemma {:induction false} NoBreaks(l: seq<nat>, i: nat)
    requires i < |l| && Breaks(l) == 0
    ensures l[i] == l[0] - i
    decreases |l|
  {
    if i > 0 {
      NoBreaks(l[1..], i - 1);
    }
  }

  /** Where there is a break, a number between two of the list is missing from it. */
  lemma {:induction false} BreakSkips(l: seq<nat>) returns (i: nat)
    requires Breaks(l) > 0
    ensures i + 1 < |l| && l[i] != l[i + 1] + 1
    decreases |l|
  {
    if l[0] != l[1] + 1 {
      i := 0;
    } else {
      i := BreakSkips(l[1..]);
      i := i + 1;
    }
  }

  lemma SkippedNotListed(l: seq<nat>, i: nat)
    requires StrictlyDescending(l) && i + 1 < |l| && l[i] != l[i + 1] + 1
    ensures l[i + 1] < l[i] - 1 && l[i] - 1 !in l
  {
    assert l[i] > l[i + 1];
    forall j | 0 <= j < |l| ensures l[j] != l[i] - 1 {
      assert j <= i ==> l[j] >= l[i];
      assert j > i ==> l[j] <= l[i + 1];
    }
  }

  /** The merged frame is read from the list of what was collected. */
  lemma MergedIsRead(frames: seq<AckFrame>) returns (l: seq<nat>)
    requires frames != [] && AllValid(frames)
    ensures ListsCollected(frames, l) && l[0] == MaxLargest(frames) < UINT64
    ensures Acknowledged(Merged(frames)) == Listed(l[0], BlocksOf(l, 1), 2)
  {
    hide CollectedAll, MaxLargest, Listed, Blocks, ValidAck;
    CollectedListExists(frames);
    l :| ListsCollected(frames, l);
    MergedIs(frames, l);
    CollectedAllBounded(frames);
    HeadIsLargest(l, MaxLargest(frames));
  }

  lemma HeadIsLargest(l: seq<nat>, top: nat)
    requires StrictlyDescending(l) && top in l && forall x :: x in l ==> x <= top
    ensures l[0] == top
  {
    var i :| 0 <= i < |l| && l[i] == top;
    assert l[0] in l;
  }

  lemma OneRunReads(frames: seq<AckFrame>, l: seq<nat>)
    requires frames != [] && AllValid(frames) && CollectsWithin(frames)
    requires ListsCollected(frames, l) && Breaks(l) == 0
    requires Acknowledged(Merged(frames)) == AsInts(l)
    ensures MergesExactly(frames) <==> CollectsAll(frames) && Contiguous(frames)
  {
    hide CollectedAll, Acknowledged, Merged, StrictlyDescending, ValidAck;
    SameMembers(l);
    if CollectsAll(frames) {
      forall x, y, z | AcknowledgedByAny(frames, x) && AcknowledgedByAny(frames, z) && Between(x, y, z)
        ensures AcknowledgedByAny(frames, y)
      {
        assert x in l && z in l;
        var i, j :| 0 <= i < |l| && 0 <= j < |l| && l[i] == x && l[j] == z;
        NoBreaks(l, i);
        NoBreaks(l, j);
        NoBreaks(l, l[0] - y);
        assert y in CollectedAll(frames);
      }
    }
  }

  lemma BrokenRunMisread(frames: seq<AckFrame>, l: seq<nat>)
    requires frames != [] && AllValid(frames) && CollectsWithin(frames)
    requires ListsCollected(frames, l) && l[0] < UINT64 && Breaks(l) > 0
    requires Acknowledged(Merged(frames)) == Listed(l[0], BlocksOf(l, 1), 2)
    ensures !MergesExactly(frames)
  {
    hide CollectedAll, Acknowledged, Merged, Listed, Blocks, ValidAck, AcknowledgedByAny, Breaks;
    assert [l[0]] + l[1..] == l;
    var k := AfterBreakMissed(l[0], AckBlock(0, 0), l[1..]);
    var c := l[1..][k];
    assert c in l;
    assert AcknowledgedByAny(frames, c) && (c as int) !in Acknowledged(Merged(frames));
  }

  lemma BrokenRunNotContiguous(frames: seq<AckFrame>, l: seq<nat>)
    requires frames != [] && AllValid(frames) && CollectsWithin(frames)
    requires ListsCollected(frames, l) && Breaks(l) > 0
    ensures !(CollectsAll(frames) && Contiguous(frames))
  {
    hide CollectedAll, ValidAck, AcknowledgedByAny, Breaks;
    var i := BreakSkips(l);
    SkippedNotListed(l, i);
    assert l[i] in l && l[i + 1] in l;
    assert Between(l[i + 1], l[i] - 1, l[i]);
  }

  lemma {:induction false} ListedShift(top: int, blocks: seq<AckBlock>, bias: nat)
    requires blocks != []
    ensures var l, m := Listed(top, blocks, bias), Listed(top - 1, blocks, bias);
      |l| == |m| && forall i :: 0 <= i < |l| ==> m[i] == l[i] - 1
    decreases |blocks|
  {
    if |blocks| > 1 {
      ListedShift(top - blocks[0].block - blocks[1].gap - bias, blocks[1..], bias);
    }
  }

  lemma BreaksCons(x: nat, l: seq<nat>)
    requires l != []
    ensures Breaks([x] + l) == (if x == l[0] + 1 then 0 else 1) + Breaks(l)
  {
    assert ([x] + l)[1..] == l && ([x] + l)[1] == l[0];
  }

  /** What is written with bias 1 and read with 2: each number is read lower by the breaks before it. */
  ghost predicate ReadLower(read: seq<int>, top: int, n: nat, previous: nat, rest: seq<nat>) {
    && |read| == n + 1 + |rest|
    && (forall i :: 0 <= i <= n ==> read[i] == top - i)
    && (forall j :: 0 <= j < |rest| ==> read[n + 1 + j] == rest[j] - Breaks([previous] + rest[..j + 1]))
  }

  lemma {:induction false} ReadsLower(previous: nat, current: AckBlock, rest: seq<nat>)
    requires StrictlyDescending([previous] + rest) && previous < UINT64
    ensures ReadLower(Listed(previous + current.block, Blocks(previous, current, rest, 1), 2),
                      previous + current.block, current.block, previous, rest)
    decreases |rest|
  {
    hide ReadLower, Listed;
    if rest != [] {
      var next, tail := rest[0], rest[1..];
      StepDown(previous, rest);
      if previous - next == 1 {
        ReadsLower(next, current.(block := current.block + 1), tail);
        LowerInRun(Listed(previous + current.block, Blocks(previous, current, rest, 1), 2),
          previous + current.block, current.block, previous, rest);
      } else {
        var start := AckBlock(previous - next - 1, 0);
        assert Minus(previous - next, 1) == previous - next - 1;
        ReadsLower(next, start, tail);
        BlocksInverse(next, start, tail, 1);
        LowerPastBreak(previous, current, rest, Blocks(next, start, tail, 1));
      }
    } else {
      ReadNone(previous, current);
    }
  }

  lemma ReadNone(previous: nat, current: AckBlock)
    ensures ReadLower(Listed(previous + current.block, [current], 2), previous + current.block, current.block, previous, [])
  {
  }

  lemma LowerPastBreak(previous: nat, current: AckBlock, rest: seq<nat>, b: seq<AckBlock>)
    requires rest != [] && b != [] && rest[0] < previous - 1 && b[0].gap == previous - rest[0] - 1
    requires ReadLower(Listed(rest[0], b, 2), rest[0], 0, rest[0], rest[1..])
    ensures ReadLower(Listed(previous + current.block, [current] + b, 2), previous + current.block, current.block, previous, rest)
  {
    hide ReadLower, CountDown;
    var next: int := rest[0];
    var below, top := next - 1, previous + current.block;
    ListedShift(rest[0], b, 2);
    var blocks := [current] + b;
    assert blocks[1..] == b && blocks[1] == b[0];
    assert Listed(top, blocks, 2) == CountDown(top, current.block) + Listed(below, b, 2);
    LowerAfterBreak(Listed(rest[0], b, 2), Listed(below, b, 2), top, current.block, previous, rest);
  }

  lemma PrefixCons(previous: nat, rest: seq<nat>, j: nat)
    requires j < |rest|
    ensures Breaks([previous] + rest[..j + 1]) ==
      (if previous == rest[0] + 1 then 0 else 1) + Breaks([rest[0]] + rest[1..][..j])
  {
    assert rest[..j + 1] == [rest[0]] + rest[1..][..j];
    BreaksCons(previous, rest[..j + 1]);
  }

  lemma LowerInRun(read: seq<int>, top: int, n: nat, previous: nat, rest: seq<nat>)
    requires rest != [] && previous == top - n && rest[0] == previous - 1
    requires ReadLower(read, top, n + 1, rest[0], rest[1..])
    ensures ReadLower(read, top, n, previous, rest)
  {
    hide Breaks;
    forall j | 0 <= j < |rest| ensures read[n + 1 + j] == rest[j] - Breaks([previous] + rest[..j + 1]) {
      PrefixCons(previous, rest, j);
      if j == 0 {
        NoBreakInOne(rest[0], rest[1..]);
      } else {
        assert read[n + 2 + (j - 1)] == rest[1..][j - 1] - Breaks([rest[0]] + rest[1..][..j]);
      }
    }
  }

  lemma NoBreakInOne(x: nat, tail: seq<nat>)
    ensures Breaks([x] + tail[..0]) == 0
  {
  }

  lemma LowerAfterBreak(read: seq<int>, lower: seq<int>, top: int, n: nat, previous: nat, rest: seq<nat>)
    requires rest != [] && previous == top - n && rest[0] < previous - 1
    requires ReadLower(read, rest[0], 0, rest[0], rest[1..])
    requires |lower| == |read| && forall i :: 0 <= i < |read| ==> lower[i] == read[i] - 1
    ensures ReadLower(CountDown(top, n) + lower, top, n, previous, rest)
  {
    hide Breaks;
    var all := CountDown(top, n) + lower;
    forall j | 0 <= j < |rest| ensures all[n + 1 + j] == rest[j] - Breaks([previous] + rest[..j + 1]) {
      PrefixCons(previous, rest, j);
      assert all[n + 1 + j] == lower[j];
      if j == 0 {
        NoBreakInOne(rest[0], rest[1..]);
      } else {
        assert read[1 + (j - 1)] == rest[1..][j - 1] - Breaks([rest[0]] + rest[1..][..j]);
      }
    }
  }

  /** What a receiver reads from the merged frame, for all valid frames: every collected number, lowered by the
      number of breaks above it. */
  lemma MergedReadsLowered(frames: seq<AckFrame>) returns (l: seq<nat>)
    requires frames != [] && AllValid(frames)
    ensures ListsCollected(frames, l) && |Acknowledged(Merged(frames))| == |l|
    ensures forall i :: 0 <= i < |l| ==> Acknowledged(Merged(frames))[i] == l[i] - Breaks(l[..i + 1])
  {
    hide Listed, Merged, CollectedAll, Blocks, Breaks;
    l := MergedIsRead(frames);
    assert [l[0]] + l[1..] == l;
    ReadsLower(l[0], AckBlock(0, 0), l[1..]);
    forall i | 0 <= i < |l| ensures Acknowledged(Merged(frames))[i] == l[i] - Breaks(l[..i + 1]) {
      if i == 0 {
        NoBreakInOne(l[0], l[1..]);
        assert [l[0]] + l[1..][..0] == l[..1];
      } else {
        assert [l[0]] + l[1..][..i] == l[..i + 1];
        assert l[1..][i - 1] == l[i];
      }
    }
  }

  /** Where everything collected is acknowledged, a receiver of the merged frame reads exactly what the frames
      acknowledged if and only if all of that was collected and is one run. */
  lemma MergesExactlyIff(frames: seq<AckFrame>)
    requires frames != [] && AllValid(frames) && CollectsWithin(frames)
    ensures MergesExactly(frames) <==> CollectsAll(frames) && Contiguous(frames)
  {
    hide MergesExactly, CollectsAll, Contiguous, CollectsWithin, CollectedAll, Listed, Merged, Blocks;
    var l := MergedIsRead(frames);
    MergedReadsRightIff(l);
    if Breaks(l) == 0 {
      OneRunReads(frames, l);
    } else {
      BrokenRunMisread(frames, l);
      BrokenRunNotContiguous(frames, l);
    }
  }

  lemma {:induction false} CollectedBySome(frames: seq<AckFrame>, x: nat)
    ensures x in CollectedAll(frames) <==> exists i :: 0 <= i < |frames| && x in Collected(frames[i])
    decreases |frames|
  {
    hide Collected;
    if frames != [] {
      var n := |frames| - 1;
      CollectedBySome(frames[..n], x);
      if i :| 0 <= i < |frames| && x in Collected(frames[i]) {
        assert i < n ==> frames[..n][i] == frames[i];
      }
    }
  }

  lemma SingleBlockCollects(f: AckFrame)
    requires |f.ackBlocks| == 1
    ensures Collected(f) == {f.largestAcknowledged} + Own(f.largestAcknowledged, f.ackBlocks[0].block, 0)
  {
    assert f.ackBlocks[1..] == [];
    assert CollectedFrom(f.largestAcknowledged, [], 0, false) == {};
  }

  /** From a frame of one block nothing is collected that it does not acknowledge. */
  lemma SingleBlockWithin(f: AckFrame, x: nat)
    requires ValidAck(f) && |f.ackBlocks| == 1 && x in Collected(f)
    ensures (x as int) in Acknowledged(f)
  {
    var top, n := f.largestAcknowledged, f.ackBlocks[0].block;
    SingleBlockCollects(f);
    SingleBlock(f);
    var i: nat := 0;
    if x != top {
      i := OwnElement(top, n, 0, x);
    }
    assert CountDown(top, n)[i] == x;
  }

  /** The smallest number of a frame of one block. */
  function Lowest(f: AckFrame): int
    requires |f.ackBlocks| == 1
  {
    f.largestAcknowledged - f.ackBlocks[0].block
  }

  /** x is collected from a frame of one block: it is the largest number, or another one above the smallest. */
  predicate Takes(f: AckFrame, x: int)
    requires |f.ackBlocks| == 1
  {
    x == f.largestAcknowledged || Lowest(f) < x <= f.largestAcknowledged
  }

  ghost predicate SingleBlocks(frames: seq<AckFrame>) {
    AllValid(frames) && forall i :: 0 <= i < |frames| ==> |frames[i].ackBlocks| == 1
  }

  ghost predicate TakenBySome(frames: seq<AckFrame>, x: int)
    requires SingleBlocks(frames)
  {
    exists j :: 0 <= j < |frames| && Takes(frames[j], x)
  }

  /** Each frame's smallest number is its only one, or another frame's largest, or above another's smallest. */
  ghost predicate LowestTaken(frames: seq<AckFrame>)
    requires SingleBlocks(frames)
  {
    forall i :: 0 <= i < |frames| ==> TakenBySome(frames, Lowest(frames[i]))
  }

  lemma {:induction false} OwnHas(top: nat, n: nat, i: nat)
    requires i < n
    ensures Minus(top, i) in Own(top, n, 0)
    decreases n
  {
    if i < n - 1 {
      OwnHas(top, n - 1, i);
    }
  }

  lemma TakesIff(f: AckFrame, x: nat)
    requires ValidAck(f) && |f.ackBlocks| == 1
    ensures x in Collected(f) <==> Takes(f, x)
  {
    var top, n := f.largestAcknowledged, f.ackBlocks[0].block;
    SingleBlockCollects(f);
    SingleBlock(f);
    if x != top {
      if x in Own(top, n, 0) {
        var i := OwnElement(top, n, 0, x);
      } else if Takes(f, x) {
        OwnHas(top, n, top - x);
      }
    }
  }

  lemma AcknowledgedSingle(f: AckFrame, x: int)
    requires ValidAck(f) && |f.ackBlocks| == 1
    ensures x in Acknowledged(f) <==> Lowest(f) <= x <= f.largestAcknowledged
    ensures 0 <= Lowest(f)
  {
    var top, n := f.largestAcknowledged, f.ackBlocks[0].block;
    SingleBlock(f);
    if Lowest(f) <= x <= top {
      assert CountDown(top, n)[top - x] == x;
    }
  }

  lemma TakenIff(frames: seq<AckFrame>, x: nat)
    requires SingleBlocks(frames)
    ensures x in CollectedAll(frames) <==> TakenBySome(frames, x)
  {
    hide Collected, CollectedAll, Takes;
    CollectedBySome(frames, x);
    forall j | 0 <= j < |frames| ensures x in Collected(frames[j]) <==> Takes(frames[j], x) {
      TakesIff(frames[j], x);
    }
  }

  lemma LowestAcknowledged(frames: seq<AckFrame>, i: nat)
    requires SingleBlocks(frames) && i < |frames|
    ensures 0 <= Lowest(frames[i]) && AcknowledgedByAny(frames, Lowest(frames[i]))
  {
    hide Acknowledged;
    AcknowledgedSingle(frames[i], Lowest(frames[i]));
    assert Lowest(frames[i]) in Acknowledged(frames[i]);
  }

  lemma LowestMustBeTaken(frames: seq<AckFrame>)
    requires SingleBlocks(frames) && CollectsAll(frames)
    ensures LowestTaken(frames)
  {
    hide CollectedAll, AcknowledgedByAny, TakenBySome, ValidAck;
    forall i | 0 <= i < |frames| ensures TakenBySome(frames, Lowest(frames[i])) {
      LowestAcknowledged(frames, i);
      TakenIff(frames, Lowest(frames[i]));
    }
  }

  lemma TakenSuffices(frames: seq<AckFrame>, x: int)
    requires SingleBlocks(frames) && LowestTaken(frames) && AcknowledgedByAny(frames, x)
    ensures x >= 0 && x in CollectedAll(frames)
  {
    hide CollectedAll, Acknowledged, ValidAck, TakenBySome;
    var i :| 0 <= i < |frames| && x in Acknowledged(frames[i]);
    AcknowledgedSingle(frames[i], x);
    TakenIff(frames, x);
    if x != Lowest(frames[i]) {
      TakenHere(frames, i, x);
    }
  }

  lemma TakenHere(frames: seq<AckFrame>, i: nat, x: int)
    requires SingleBlocks(frames) && i < |frames| && Lowest(frames[i]) < x <= frames[i].largestAcknowledged
    ensures TakenBySome(frames, x)
  {
    assert Takes(frames[i], x);
  }

  lemma CollectsAllIff(frames: seq<AckFrame>)
    requires SingleBlocks(frames)
    ensures CollectsAll(frames) <==> LowestTaken(frames)
  {
    hide LowestTaken, CollectedAll, AcknowledgedByAny, ValidAck;
    if CollectsAll(frames) {
      LowestMustBeTaken(frames);
    }
    if LowestTaken(frames) {
      forall x | AcknowledgedByAny(frames, x) ensures x >= 0 && x in CollectedAll(frames) {
        TakenSuffices(frames, x);
      }
    }
  }

  /** Frames of one block each, for example of the client's own runs: the merge is exact if and only if their
      numbers are one run and each one's smallest number is its only one or is taken from another. */
  lemma SingleBlocksMergeIff(frames: seq<AckFrame>)
    requires frames != [] && SingleBlocks(frames)
    ensures MergesExactly(frames) <==> LowestTaken(frames) && Contiguous(frames)
  {
    hide Collected, Acknowledged, CollectedAll, MergesExactly, CollectsAll, Contiguous, LowestTaken;
    forall x | x in CollectedAll(frames) ensures AcknowledgedByAny(frames, x) {
      CollectedBySome(frames, x);
      var i :| 0 <= i < |frames| && x in Collected(frames[i]);
      SingleBlockWithin(frames[i], x);
    }
    MergesExactlyIff(frames);
    CollectsAllIff(frames);
  }

  // ----- The exact condition for all valid frames

  ghost predicate DescendingInts(l: seq<int>) {
    forall i, j :: 0 <= i < j < |l| ==> l[i] > l[j]
  }

  lemma {:induction false} IntsUnique(l: seq<int>, m: seq<int>)
    requires DescendingInts(l) && DescendingInts(m) && forall x :: x in l <==> x in m
    ensures l == m
    decreases |l|
  {
    FirstInt(l);
    FirstInt(m);
    if l != [] {
      IntsHead(l, m[0]);
      IntsHead(m, l[0]);
      forall x ensures x in l[1..] <==> x in m[1..] {
        IntsTail(l, x);
        IntsTail(m, x);
      }
      IntsUnique(l[1..], m[1..]);
    }
  }

  lemma FirstInt(l: seq<int>)
    ensures l != [] ==> l[0] in l
  {
  }

  lemma IntsHead(l: seq<int>, x: int)
    requires DescendingInts(l) && x in l
    ensures l != [] && x <= l[0]
  {
  }

  lemma IntsTail(l: seq<int>, x: int)
    requires DescendingInts(l) && l != []
    ensures x in l[1..] <==> x in l && x != l[0]
  {
    assert l == [l[0]] + l[1..];
  }

  lemma {:induction false} BreaksGrow(l: seq<nat>, i: nat, j: nat)
    requires i <= j < |l|
    ensures Breaks(l[..i + 1]) <= Breaks(l[..j + 1])
    decreases |l|
  {
    if i == 0 {
      assert l[..1] == [l[0]];
    } else {
      var t := l[1..];
      assert l[..i + 1] == [l[0]] + t[..i] && l[..j + 1] == [l[0]] + t[..j];
      BreaksCons(l[0], t[..i]);
      BreaksCons(l[0], t[..j]);
      BreaksGrow(t, i - 1, j - 1);
    }
  }

  /** u lists what the frames acknowledge, largest first. */
  ghost predicate ListsAcknowledged(frames: seq<AckFrame>, u: seq<int>)
    requires AllValid(frames)
  {
    DescendingInts(u) && forall x :: x in u <==> AcknowledgedByAny(frames, x)
  }

  /** Each acknowledged number is the collected one at its place, lowered by the breaks above it. */
  ghost predicate Lowered(u: seq<int>, l: seq<nat>) {
    |u| == |l| && forall i :: 0 <= i < |l| ==> u[i] == l[i] - Breaks(l[..i + 1])
  }

  lemma LoweredDescends(u: seq<int>, l: seq<nat>)
    requires Lowered(u, l) && StrictlyDescending(l)
    ensures DescendingInts(u)
  {
    hide Breaks;
    forall i, j | 0 <= i < j < |u| ensures u[i] > u[j] {
      BreaksGrow(l, i, j);
    }
  }

  lemma LoweredOnce(u: seq<int>, v: seq<int>, l: seq<nat>)
    requires Lowered(u, l) && Lowered(v, l)
    ensures u == v
  {
    hide Breaks;
  }

  /** For all valid frames, whatever is collected: the merge is exact if and only if lowering the collected list
      by its breaks gives the list of what the frames acknowledge. */
  lemma MergesExactlyIffLowered(frames: seq<AckFrame>, l: seq<nat>, u: seq<int>)
    requires frames != [] && AllValid(frames) && ListsCollected(frames, l) && ListsAcknowledged(frames, u)
    ensures MergesExactly(frames) <==> Lowered(u, l)
  {
    hide Merged, Acknowledged, CollectedAll, AcknowledgedByAny, Breaks;
    var m := MergedReadsLowered(frames);
    StrictUnique(l, m);
    var read := Acknowledged(Merged(frames));
    assert Lowered(read, l);
    LoweredDescends(read, l);
    if MergesExactly(frames) {
      IntsUnique(u, read);
    }
    if Lowered(u, l) {
      LoweredOnce(u, read, l);
    }
  }

  /** Errors can cancel: from acknowledgements of 6, 3, 1, 0 and of 3, 2, 1, 0 the number 4 is collected, which
      nobody acknowledged, and yet a receiver reads the merged frame as exactly what they acknowledged. */
  lemma ErrorsCanCancel(f: AckFrame, g: AckFrame)
    requires f == AckFrame(6, 0, 2, [AckBlock(0, 0), AckBlock(1, 0), AckBlock(0, 1)])
    requires g == AckFrame(3, 0, 0, [AckBlock(0, 3)])
    ensures AllValid([f, g]) && 4 in CollectedAll([f, g]) && !AcknowledgedByAny([f, g], 4) && MergesExactly([f, g])
  {
    hide Listed, CollectedFrom, Own, CollectedAll, MergesExactly, Breaks, Walk;
    CancelFirst(f);
    CancelSecond(g);
    var frames := [f, g];
    TwoCollected(f, g);
    forall x ensures AcknowledgedByAny(frames, x) <==> x in [6, 3, 2, 1, 0] {
      assert frames[0] == f && frames[1] == g;
    }
    CancelBreaks();
    MergesExactlyIffLowered(frames, [6, 4, 3, 2, 1], [6, 3, 2, 1, 0]);
  }

  lemma CancelFirst(f: AckFrame)
    requires f == AckFrame(6, 0, 2, [AckBlock(0, 0), AckBlock(1, 0), AckBlock(0, 1)])
    ensures ValidAck(f) && Acknowledged(f) == [6, 3, 1, 0] && Collected(f) == {6, 4}
  {
    var b := f.ackBlocks;
    assert b[1..] == [AckBlock(1, 0), AckBlock(0, 1)] && b[1..][1..] == [AckBlock(0, 1)] && b[1..][1..][1..] == [];
    assert WalkRest(b[1..][1..]) == 2 && WalkRest(b[1..]) == 4;
    assert Listed(1, b[1..][1..], 2) == CountDown(1, 1);
    assert Listed(3, b[1..], 2) == CountDown(3, 0) + Listed(1, b[1..][1..], 2);
    assert Listed(6, b, 2) == CountDown(6, 0) + Listed(3, b[1..], 2);
    assert Own(6, 1, 2) == Own(6, 0, 2) + {4};
    assert CollectedFrom(6, b[1..][1..], 2, false) == Own(6, 1, 2) + CollectedFrom(6, [], 3, false);
    assert CollectedFrom(6, b[1..], 0, false) == Own(6, 0, 0) + CollectedFrom(6, b[1..][1..], 2, false);
    assert CollectedFrom(6, b, 0, true) == Own(6, 0, 0) + CollectedFrom(6, b[1..], 0, false);
  }

  lemma CancelSecond(g: AckFrame)
    requires g == AckFrame(3, 0, 0, [AckBlock(0, 3)])
    ensures ValidAck(g) && Acknowledged(g) == [3, 2, 1, 0] && Collected(g) == {3, 2, 1}
  {
    assert g.ackBlocks[1..] == [];
    SingleBlock(g);
    SingleBlockCollects(g);
    assert Own(3, 1, 0) == Own(3, 0, 0) + {3};
    assert Own(3, 2, 0) == Own(3, 1, 0) + {2};
    assert Own(3, 3, 0) == Own(3, 2, 0) + {1};
    assert CountDown(3, 3) == [3, 2, 1, 0];
  }

  lemma CancelBreaks()
    ensures Lowered([6, 3, 2, 1, 0], [6, 4, 3, 2, 1])
  {
    var l: seq<nat> := [6, 4, 3, 2, 1];
    assert l[..1] == [6] && l[..2] == [6] + [4] && l[..3] == [6] + [4, 3] && l[..4] == [6] + [4, 3, 2];
    assert l[..5] == [6] + [4, 3, 2, 1];
    BreaksCons(6, [4]);
    BreaksCons(6, [4, 3]);
    BreaksCons(6, [4, 3, 2]);
    BreaksCons(6, [4, 3, 2, 1]);
    RunHasNoBreaks();
  }

  lemma RunHasNoBreaks()
    ensures Breaks([6]) == 0 && Breaks([4]) == 0 && Breaks([4, 3]) == 0 && Breaks([4, 3, 2]) == 0
    ensures Breaks([4, 3, 2, 1]) == 0
  {
    assert [4, 3] == [4] + [3] && [4, 3, 2] == [4] + [3, 2] && [4, 3, 2, 1] == [4] + [3, 2, 1];
    assert [3, 2] == [3] + [2] && [3, 2, 1] == [3] + [2, 1] && [2, 1] == [2] + [1];
    BreaksCons(2, [1]);
    BreaksCons(3, [2]);
    BreaksCons(3, [2, 1]);
    BreaksCons(4, [3]);
    BreaksCons(4, [3, 2]);
    BreaksCons(4, [3, 2, 1]);
  }

  /** Merging the acknowledgements of 1 and 0 and of 2, 1 and 0 loses 0. */
  lemma MergingLosesZero(f: AckFrame, g: AckFrame)
    requires f == AckFrame(1, 0, 0, [AckBlock(0, 1)]) && g == AckFrame(2, 0, 0, [AckBlock(0, 2)])
    ensures 0 in Acknowledged(f) && 0 in Acknowledged(g) && 0 !in Acknowledged(Merged([f, g]))
  {
    hide Merged, Listed, Own;
    var frames := [f, g];
    SingleBlock(f);
    SingleBlock(g);
    assert CountDown(1, 1)[1] == 0 && CountDown(2, 2)[2] == 0;
    SmallCollections(f, g);
    TwoCollected(f, g);
    var l := MergedIsRead(frames);
    assert 1 in l && 2 in l && 0 !in l;
    CollectedOneTwo(l);
    MergedReadsRightIff(l);
  }

  lemma SmallCollections(f: AckFrame, g: AckFrame)
    requires f == AckFrame(1, 0, 0, [AckBlock(0, 1)]) && g == AckFrame(2, 0, 0, [AckBlock(0, 2)])
    ensures Collected(f) == {1} && Collected(g) == {2, 1}
  {
    SingleBlockCollects(f);
    SingleBlockCollects(g);
    assert Own(1, 1, 0) == Own(1, 0, 0) + {1};
    assert Own(2, 2, 0) == Own(2, 1, 0) + {1} && Own(2, 1, 0) == Own(2, 0, 0) + {2};
  }

  lemma TwoCollected(f: AckFrame, g: AckFrame)
    ensures CollectedAll([f, g]) == Collected(f) + Collected(g)
  {
    hide Collected;
    assert [f, g][..1] == [f] && [f][..0] == [];
    assert CollectedAll([f]) == CollectedAll([]) + Collected(f);
    assert CollectedAll([f, g]) == CollectedAll([f]) + Collected(g);
  }

  lemma CollectedOneTwo(l: seq<nat>)
    requires StrictlyDescending(l) && forall x :: x in l <==> x == 1 || x == 2
    ensures l == [2, 1] && Breaks(l) == 0
  {
    assert 1 in l && 2 in l;
    StrictUnique(l, [2, 1]);
    assert Breaks([2, 1][1..]) == 0;
  }

  /** 9 is collected from a frame that acknowledges 10, 5, 4 and 3: its second block is counted from the
      largest number. */
  lemma GapNumberCollected(f: AckFrame)
    requires f == AckFrame(10, 0, 1, [AckBlock(0, 0), AckBlock(3, 2)])
    ensures ValidAck(f) && Acknowledged(f) == [10, 5, 4, 3] && Collected(f) == {10, 9}
  {
    var blocks := f.ackBlocks;
    assert blocks[1..] == [AckBlock(3, 2)] && blocks[1..][1..] == [];
    assert Listed(10, blocks, 2) == CountDown(10, 0) + Listed(5, blocks[1..], 2);
    assert CollectedFrom(10, blocks, 0, true) == Own(10, 0, 0) + CollectedFrom(10, blocks[1..], 0, false);
    assert CollectedFrom(10, blocks[1..], 0, false) == Own(10, 2, 0) + CollectedFrom(10, [], 4, false);
    assert Own(10, 2, 0) == Own(10, 1, 0) + {9} && Own(10, 1, 0) == Own(10, 0, 0) + {10};
    assert WalkRest(blocks[1..]) == 3 + 1 + 2 + WalkRest([]);
  }

  /** Merged with an acknowledgement of 11, that frame makes a receiver take 9 for acknowledged. */
  lemma MergingInventsNine(f: AckFrame, g: AckFrame)
    requires f == AckFrame(10, 0, 1, [AckBlock(0, 0), AckBlock(3, 2)]) && g == AckFrame(11, 0, 0, [AckBlock(0, 0)])
    ensures ValidAck(f) && ValidAck(g)
    ensures 9 in Acknowledged(Merged([f, g])) && !AcknowledgedByAny([f, g], 9)
  {
    hide Merged, Listed, Own, CollectedFrom;
    GapNumberCollected(f);
    assert g.ackBlocks[1..] == [];
    SingleBlock(g);
    OnlyLargest(g);
    TwoCollected(f, g);
    var l := MergedIsRead([f, g]);
    NineToEleven(l);
    MergedReadsRightIff(l);
    assert AsInts(l)[2] == 9;
  }

  lemma NineToEleven(l: seq<nat>)
    requires StrictlyDescending(l) && forall x :: x in l <==> x in {11, 10, 9}
    ensures l == [11, 10, 9] && Breaks(l) == 0
  {
    assert 9 in l && 10 in l && 11 in l;
    StrictUnique(l, [11, 10, 9]);
    assert [11, 10, 9][1..] == [10, 9] && [10, 9][1..] == [9];
    assert Breaks([9]) == 0 && Breaks([10, 9]) == 0;
  }

  /** Merging valid frames that can be written gives one that can be written. */
  lemma MergedEncodable(frames: seq<AckFrame>)
    requires frames != [] && AllValid(frames) && forall i :: 0 <= i < |frames| ==> IsVarInt(frames[i].largestAcknowledged)
    ensures EncodableAck(Merged(frames))
  {
    hide CollectedAll, Listed, ValidAck, Blocks;
    CollectedListExists(frames);
    var l :| ListsCollected(frames, l);
    MergedIs(frames, l);
    CollectedAllBounded(frames);
    HeadIsLargest(l, MaxLargest(frames));
    LargestIsVarInt(frames);
    assert [l[0]] + l[1..] == l;
    BlocksBounded(l[0], AckBlock(0, 0), l[1..], l[0], 1);
    ShortList(l);
  }

  lemma {:induction false} LargestIsVarInt(frames: seq<AckFrame>)
    requires forall i :: 0 <= i < |frames| ==> IsVarInt(frames[i].largestAcknowledged)
    ensures IsVarInt(MaxLargest(frames))
    decreases |frames|
  {
    if frames != [] {
      LargestIsVarInt(frames[..|frames| - 1]);
    }
  }

  // ----- The function itself

  /** The numbers of one frame, as the nested loops collect them. */
  method Collect(f: AckFrame) returns (numbers: set<nat>)
    ensures numbers == Collected(f)
  {
    numbers := {f.largestAcknowledged};
    var offset := 0;
    for j := 0 to |f.ackBlocks|
      invariant offset >= 0
      invariant numbers + CollectedFrom(f.largestAcknowledged, f.ackBlocks[j..], offset, j == 0) == Collected(f)
    {
      var b := f.ackBlocks[j];
      ghost var rest := f.ackBlocks[j..];
      assert rest[0] == b && rest[1..] == f.ackBlocks[j + 1..];
      ghost var was := numbers;
      ghost var own := Own(f.largestAcknowledged, b.block, offset);
      numbers := CollectBlock(numbers, f.largestAcknowledged, b.block, offset);
      assert numbers == was + own;
      if j > 0 {
        offset := offset + b.gap + 1;
      }
    }
    assert f.ackBlocks[|f.ackBlocks|..] == [];
  }

  method CollectBlock(numbers0: set<nat>, top: nat, n: nat, offset: nat) returns (numbers: set<nat>)
    ensures numbers == numbers0 + Own(top, n, offset)
  {
    hide Minus;
    numbers := numbers0;
    for k := 0 to n
      invariant numbers == numbers0 + Own(top, k, offset)
    {
      numbers := numbers + {Minus(top, k + offset)};
    }
  }

  /** The elements of a set in any order. */
  method Elements(s: set<nat>) returns (l: seq<nat>)
    ensures NoDuplicates(l) && forall x :: x in l <==> x in s
  {
    l := [];
    var rest := s;
    while rest != {}
      invariant rest <= s && NoDuplicates(l)
      invariant forall x :: x in l <==> x in s && x !in rest
      decreases |rest|
    {
      var x :| x in rest;
      l := l + [x];
      rest := rest - {x};
    }
  }

  method Largest(frames: seq<AckFrame>) returns (largest: nat)
    ensures largest == MaxLargest(frames)
  {
    largest := 0;
    for i := 0 to |frames|
      invariant largest == MaxLargest(frames[..i])
    {
      assert frames[..i + 1][..i] == frames[..i];
      if frames[i].largestAcknowledged > largest {
        largest := frames[i].largestAcknowledged;
      }
    }
    assert frames[..|frames|] == frames;
  }

  method CollectFrames(frames: seq<AckFrame>) returns (numbers: set<nat>)
    ensures numbers == CollectedAll(frames)
  {
    numbers := {};
    for i := 0 to |frames|
      invariant numbers == CollectedAll(frames[..i])
    {
      assert frames[..i + 1][..i] == frames[..i];
      var some := Collect(frames[i]);
      numbers := numbers + some;
    }
    assert frames[..|frames|] == frames;
  }

  lemma SortedSet(unsorted: seq<nat>, numbers: set<nat>)
    requires NoDuplicates(unsorted) && (forall x :: x in unsorted <==> x in numbers)
    ensures var l := Sorted(unsorted); StrictlyDescending(l) && (forall x :: x in l <==> x in numbers)
  {
    hide Sorted;
    SortedSorts(unsorted);
    SortedMembers(unsorted);
    StrictIff(unsorted);
  }

  lemma {:induction false} LargestCollected(frames: seq<AckFrame>)
    requires frames != []
    ensures MaxLargest(frames) in CollectedAll(frames)
    decreases |frames|
  {
    hide Collected;
    var n := |frames| - 1;
    HasLargest(frames[n]);
    if n > 0 {
      LargestCollected(frames[..n]);
    } else {
      assert frames[..n] == [];
    }
  }

  lemma HasLargest(f: AckFrame)
    ensures f.largestAcknowledged in Collected(f)
  {
  }

  /** mergeAckFrames, on any frames: the blocks are the runs, with gaps biased by 1, of everything collected
      except its largest element, from the largest of the frames' largest numbers on. */
  method MergeAckFrames(frames: seq<AckFrame>) returns (r: AckFrame)
    requires frames != []
    ensures r == Merged(frames)
    ensures r.largestAcknowledged == MaxLargest(frames) && r.ackBlockCount == |r.ackBlocks| - 1
  {
    hide Sorted, CollectedAll, MaxLargest, Blocks;
    var largest := Largest(frames);
    var numbers := CollectFrames(frames);
    var unsorted := Elements(numbers);
    var packetNumbers := Sorted(unsorted);
    SortedSet(unsorted, numbers);
    LargestCollected(frames);
    assert ListsCollected(frames, packetNumbers);
    MergedIs(frames, packetNumbers);
    var blocks := BuildBlocks(largest, packetNumbers[1..], 1);
    r := AckFrame(largest, 0, |blocks| - 1, blocks);
  }
}
