/** The interval algebra behind stream reassembly (streams.go).

    An interval {start, end} records that the bytes start, ..., end-1 are missing, but
    Overlap compares intervals as if both bounds belonged to them, and Exclude mixes the
    two readings.  All functions below follow the code; the lemmas say which sets of bytes
    the lists denote.  Empty (start == end) and inverted (end < start) intervals are
    admitted everywhere because Exclude produces them.
 */
module ByteIntervals {

  datatype ByteInterval = ByteInterval(start: nat, end: nat) {

    predicate In(offset: int) {
      start <= offset <= end
    }

    predicate IsBefore(o: ByteInterval) {
      end <= o.start
    }

    predicate Overlap(o: ByteInterval) {
      || (o.start <= end && o.end >= end)
      || (start <= o.end && end >= o.end)
      || (start <= o.start && end >= o.end)
      || (o.start <= start && o.end >= end)
    }

    function Merge(o: ByteInterval): ByteInterval {
      ByteInterval(if start < o.start then start else o.start, if end > o.end then end else o.end)
    }

    function Exclude(o: ByteInterval): seq<ByteInterval> {
      if o.start > start && o.end < end then
        [ByteInterval(start, o.start - 1), ByteInterval(o.end + 1, end)]
      else if o.start <= start && o.end < end then
        [ByteInterval(o.end, end)]
      else if o.end > end then
        [ByteInterval(start, o.start)]
      else
        []
    }

    /** The bytes an interval stands for. */
    predicate Has(x: int) {
      start <= x < end
    }
  }

  // ----- What lists of intervals denote, and their shapes

  /** x is one of the missing bytes recorded by the list. */
  ghost predicate Covers(l: seq<ByteInterval>, x: int) {
    exists i :: 0 <= i < |l| && l[i].Has(x)
  }

  ghost predicate SameBytes(l: seq<ByteInterval>, m: seq<ByteInterval>) {
    forall x :: Covers(l, x) <==> Covers(m, x)
  }

  ghost predicate AllProper(l: seq<ByteInterval>) {
    forall i :: 0 <= i < |l| ==> l[i].start < l[i].end
  }

  ghost predicate StartSorted(l: seq<ByteInterval>) {
    forall i, j :: 0 <= i < j < |l| ==> l[i].start <= l[j].start
  }

  /** The normal form reached by a merge pass: no interval touches a later one. */
  ghost predicate Settled(l: seq<ByteInterval>) {
    forall i, j :: 0 <= i < j < |l| ==>
      l[i].start < l[j].start && l[i].end < l[j].start && l[i].end < l[j].end
  }

  /** Sorted, non-empty, pairwise non-touching: the normal form of a set of bytes. */
  ghost predicate Canonical(l: seq<ByteInterval>) {
    AllProper(l) && Settled(l)
  }

  // ----- The list operations, on values

  function MergeFrom(p: ByteInterval, rest: seq<ByteInterval>): seq<ByteInterval>
    decreases |rest|
  {
    if rest == [] then [p]
    else if p.Overlap(rest[0]) then MergeFrom(p.Merge(rest[0]), rest[1..])
    else [p] + MergeFrom(rest[0], rest[1..])
  }

  /** ensureConsistency: one left-to-right pass that merges each overlapping neighbour. */
  function MergePass(l: seq<ByteInterval>): seq<ByteInterval> {
    if l == [] then [] else MergeFrom(l[0], l[1..])
  }

  /** Where Add inserts b: before the first interval that b lies entirely before. */
  function InsertAt(l: seq<ByteInterval>, b: ByteInterval): (k: nat)
    ensures k <= |l|
    ensures forall i :: 0 <= i < k ==> !b.IsBefore(l[i])
    ensures k < |l| ==> b.IsBefore(l[k])
  {
    if l == [] || b.IsBefore(l[0]) then 0 else 1 + InsertAt(l[1..], b)
  }

  function Inserted(l: seq<ByteInterval>, b: ByteInterval): seq<ByteInterval> {
    var k := InsertAt(l, b);
    l[..k] + [b] + l[k..]
  }

  function Add(l: seq<ByteInterval>, b: ByteInterval): seq<ByteInterval> {
    MergePass(Inserted(l, b))
  }

  /** What is left of one interval after a fill. */
  function Piece(g: ByteInterval, o: ByteInterval): seq<ByteInterval> {
    if o.Overlap(g) then g.Exclude(o) else [g]
  }

  function Pieces(l: seq<ByteInterval>, o: ByteInterval): seq<ByteInterval> {
    if l == [] then [] else Piece(l[0], o) + Pieces(l[1..], o)
  }

  function Fill(l: seq<ByteInterval>, o: ByteInterval): seq<ByteInterval> {
    MergePass(Pieces(l, o))
  }

  // ----- Denotation of concatenations

  lemma CoversAppend(l: seq<ByteInterval>, m: seq<ByteInterval>, x: int)
    ensures Covers(l + m, x) <==> Covers(l, x) || Covers(m, x)
  {
    if Covers(l, x) {
      var i :| 0 <= i < |l| && l[i].Has(x);
      assert (l + m)[i].Has(x);
    }
    if Covers(m, x) {
      var i :| 0 <= i < |m| && m[i].Has(x);
      assert (l + m)[|l| + i].Has(x);
    }
  }

  lemma CoversHead(l: seq<ByteInterval>, x: int)
    requires l != []
    ensures Covers(l, x) <==> l[0].Has(x) || Covers(l[1..], x)
  {
    assert l == [l[0]] + l[1..];
    CoversAppend([l[0]], l[1..], x);
    CoversOne(l[0], x);
  }

  lemma CoversOne(g: ByteInterval, x: int)
    ensures Covers([g], x) <==> g.Has(x)
  {
    if g.Has(x) {
      assert [g][0].Has(x);
    }
  }

  // ----- Overlap and Merge

  /** For intervals that are not inverted, Overlap is intersection of the closed intervals,
      so two intervals that merely touch count as overlapping. */
  lemma OverlapIsClosedIntersection(a: ByteInterval, b: ByteInterval)
    requires a.start <= a.end && b.start <= b.end
    ensures a.Overlap(b) <==> exists x :: a.In(x) && b.In(x)
  {
    if a.Overlap(b) {
      var x := if a.start < b.start then b.start else a.start;
      assert a.In(x) && b.In(x);
    }
  }

  /** Merging overlapping intervals is exact when the first starts no later, or when both are
      proper: no byte is gained, even from an empty or inverted operand, and none is lost. */
  lemma MergeIsUnion(p: ByteInterval, n: ByteInterval)
    requires p.Overlap(n)
    requires p.start <= n.start || (p.start < p.end && n.start < n.end)
    ensures forall x :: p.Merge(n).Has(x) <==> p.Has(x) || n.Has(x)
  {
  }

  // ----- The merge pass

  ghost predicate Mergeable(l: seq<ByteInterval>) {
    StartSorted(l) || AllProper(l)
  }

  lemma SortedCons(p: ByteInterval, l: seq<ByteInterval>)
    ensures StartSorted([p] + l) <==> StartSorted(l) && forall i :: 0 <= i < |l| ==> p.start <= l[i].start
  {
    var m := [p] + l;
    assert m[0] == p && forall i :: 0 <= i < |l| ==> m[i + 1] == l[i];
    assert forall i :: 1 <= i < |m| ==> m[i] == l[i - 1];
  }

  lemma SortedStep(p: ByteInterval, n: ByteInterval, tail: seq<ByteInterval>)
    requires StartSorted([p] + ([n] + tail))
    ensures StartSorted([n] + tail) && StartSorted([p.Merge(n)] + tail) && p.start <= n.start
  {
    hide StartSorted;
    SortedCons(p, [n] + tail);
    SortedCons(n, tail);
    assert ([n] + tail)[0] == n;
    SortedCons(p.Merge(n), tail);
  }

  lemma ProperStep(p: ByteInterval, n: ByteInterval, tail: seq<ByteInterval>)
    requires AllProper([p] + ([n] + tail))
    ensures AllProper([n] + tail) && AllProper([p.Merge(n)] + tail) && p.start < p.end && n.start < n.end
  {
    var l := [p] + ([n] + tail);
    assert l[0] == p && l[1] == n;
    assert forall i :: 0 <= i < |tail| ==> tail[i] == l[i + 2];
  }

  lemma MergeableStep(p: ByteInterval, n: ByteInterval, tail: seq<ByteInterval>)
    requires Mergeable([p] + ([n] + tail))
    ensures Mergeable([n] + tail)
    ensures p.Overlap(n) ==> Mergeable([p.Merge(n)] + tail)
    ensures p.start <= n.start || (p.start < p.end && n.start < n.end)
  {
    hide StartSorted, AllProper;
    if StartSorted([p] + ([n] + tail)) {
      SortedStep(p, n, tail);
    } else {
      ProperStep(p, n, tail);
    }
  }

  /** The pass keeps the bytes of a start-sorted list, whatever intervals it holds, and of a
      list of proper intervals, whatever their order. */
  lemma {:induction false} MergeFromBytes(p: ByteInterval, rest: seq<ByteInterval>, x: int)
    requires Mergeable([p] + rest)
    ensures Covers(MergeFrom(p, rest), x) <==> Covers([p] + rest, x)
    decreases |rest|
  {
    if rest == [] {
      assert [p] + rest == [p];
    } else {
      var n, tail := rest[0], rest[1..];
      assert rest == [n] + tail;
      MergeableStep(p, n, tail);
      if p.Overlap(n) {
        MergeIsUnion(p, n);
        MergeFromBytes(p.Merge(n), tail, x);
        MergedHead(p, n, tail, x);
      } else {
        MergeFromBytes(n, tail, x);
        CoversAppend([p], MergeFrom(n, tail), x);
        CoversAppend([p], rest, x);
      }
    }
  }

  lemma {:induction false} MergeFromSettles(p: ByteInterval, rest: seq<ByteInterval>)
    requires StartSorted([p] + rest)
    ensures var r := MergeFrom(p, rest); r != [] && Settled(r) && r[0].start == p.start
    decreases |rest|
  {
    if rest != [] {
      var n, tail := rest[0], rest[1..];
      var l := [p] + rest;
      assert l[0] == p && l[1] == n;
      assert forall i :: 0 <= i < |tail| ==> tail[i] == l[i + 2];
      if p.Overlap(n) {
        MergeFromSettles(p.Merge(n), tail);
      } else {
        MergeFromSettles(n, tail);
        SettledCons(p, MergeFrom(n, tail), n, tail);
      }
    }
  }

  lemma MergedHead(p: ByteInterval, n: ByteInterval, tail: seq<ByteInterval>, x: int)
    requires p.Merge(n).Has(x) <==> p.Has(x) || n.Has(x)
    ensures Covers([p.Merge(n)] + tail, x) <==> Covers([p] + ([n] + tail), x)
  {
    CoversAppend([p.Merge(n)], tail, x);
    CoversAppend([p], [n] + tail, x);
    CoversAppend([n], tail, x);
    CoversOne(p, x);
    CoversOne(n, x);
    CoversOne(p.Merge(n), x);
  }

  /** The first element of a pass ends no earlier than the first element of its input. */
  lemma {:induction false} MergeFromHeadEnd(p: ByteInterval, rest: seq<ByteInterval>)
    ensures var r := MergeFrom(p, rest); r != [] && r[0].end >= p.end
    decreases |rest|
  {
    if rest != [] && p.Overlap(rest[0]) {
      MergeFromHeadEnd(p.Merge(rest[0]), rest[1..]);
    }
  }

  lemma SettledCons(p: ByteInterval, r: seq<ByteInterval>, n: ByteInterval, tail: seq<ByteInterval>)
    requires r == MergeFrom(n, tail) && r != [] && Settled(r) && r[0].start == n.start
    requires p.start <= n.start && !p.Overlap(n)
    ensures Settled([p] + r)
  {
    MergeFromHeadEnd(n, tail);
    var s := [p] + r;
    forall i, j | 0 <= i < j < |s|
      ensures s[i].start < s[j].start && s[i].end < s[j].start && s[i].end < s[j].end
    {
      assert s[j] == r[j - 1];
      if i == 0 {
        assert p.end < n.start && p.end < n.end && p.start < n.start;
        if j > 1 {
          assert r[0].start < r[j - 1].start && r[0].end < r[j - 1].end;
        }
      } else {
        assert s[i] == r[i - 1];
      }
    }
  }

  /** On every start-sorted list, whatever empty or inverted intervals it holds, the pass ends
      in the settled form and denotes the same bytes. */
  lemma MergePassSettles(l: seq<ByteInterval>)
    requires StartSorted(l)
    ensures Settled(MergePass(l))
    ensures SameBytes(MergePass(l), l)
  {
    if l != [] {
      assert l == [l[0]] + l[1..];
      MergeFromSettles(l[0], l[1..]);
      forall x ensures Covers(MergePass(l), x) <==> Covers(l, x) { MergeFromBytes(l[0], l[1..], x); }
    }
  }

  lemma {:induction false} MergeFromProper(p: ByteInterval, rest: seq<ByteInterval>)
    requires AllProper([p] + rest)
    ensures AllProper(MergeFrom(p, rest))
    decreases |rest|
  {
    if rest == [] {
      assert [p] + rest == [p];
    } else {
      var n, tail := rest[0], rest[1..];
      var l := [p] + rest;
      assert l[0] == p && l[1] == n;
      assert forall i :: 0 <= i < |tail| ==> tail[i] == l[i + 2];
      if p.Overlap(n) {
        MergeFromProper(p.Merge(n), tail);
      } else {
        MergeFromProper(n, tail);
      }
    }
  }

  /** On proper intervals in any order at all, the pass keeps the bytes and the properness. */
  lemma MergePassProper(l: seq<ByteInterval>)
    requires AllProper(l)
    ensures AllProper(MergePass(l))
    ensures SameBytes(MergePass(l), l)
  {
    if l != [] {
      assert l == [l[0]] + l[1..];
      MergeFromProper(l[0], l[1..]);
      forall x ensures Covers(MergePass(l), x) <==> Covers(l, x) { MergeFromBytes(l[0], l[1..], x); }
    }
  }

  /** A canonical list is determined by its bytes. */
  lemma {:induction false} CanonicalIsUnique(l: seq<ByteInterval>, m: seq<ByteInterval>)
    requires Canonical(l) && Canonical(m)
    requires SameBytes(l, m)
    ensures l == m
    decreases |l|
  {
    if l == [] || m == [] {
      if l != [] {
        assert Covers(l, l[0].start) by { assert l[0].Has(l[0].start); }
      }
      if m != [] {
        assert Covers(m, m[0].start) by { assert m[0].Has(m[0].start); }
      }
    } else {
      HeadStart(l, m);
      HeadStart(m, l);
      HeadEnd(l, m);
      HeadEnd(m, l);
      forall x ensures Covers(l[1..], x) <==> Covers(m[1..], x) {
        TailBytes(l, x);
        TailBytes(m, x);
      }
      CanonicalIsUnique(l[1..], m[1..]);
    }
  }

  lemma HeadStart(l: seq<ByteInterval>, m: seq<ByteInterval>)
    requires Canonical(l) && Canonical(m) && SameBytes(l, m) && l != [] && m != []
    ensures m[0].start <= l[0].start
  {
    assert Covers(l, l[0].start) by { assert l[0].Has(l[0].start); }
    var i :| 0 <= i < |m| && m[i].Has(l[0].start);
  }

  lemma HeadEnd(l: seq<ByteInterval>, m: seq<ByteInterval>)
    requires Canonical(l) && Canonical(m) && SameBytes(l, m) && l != [] && m != []
    requires l[0].start == m[0].start
    ensures l[0].end <= m[0].end
  {
    assert !Covers(m, m[0].end);
    assert !l[0].Has(m[0].end);
  }

  lemma TailBytes(l: seq<ByteInterval>, x: int)
    requires Canonical(l) && l != []
    ensures Covers(l[1..], x) <==> Covers(l, x) && x >= l[0].end
  {
    CoversHead(l, x);
    if Covers(l[1..], x) {
      var i :| 0 <= i < |l[1..]| && l[1..][i].Has(x);
      assert l[i + 1].Has(x);
    }
  }

  /** ensureConsistency computes THE canonical list of the bytes of any start-sorted proper list. */
  lemma MergePassIsCanonicalForm(l: seq<ByteInterval>, m: seq<ByteInterval>)
    requires AllProper(l) && StartSorted(l)
    ensures Canonical(MergePass(l)) && SameBytes(MergePass(l), l)
    ensures Canonical(m) && SameBytes(m, l) ==> m == MergePass(l)
  {
    MergePassSettles(l);
    MergePassProper(l);
    if Canonical(m) && SameBytes(m, l) {
      CanonicalIsUnique(m, MergePass(l));
    }
  }

  // ----- Fill

  /** The fills that Exclude gets wrong: b starts strictly inside g and ends no later than g. */
  predicate Mishandled(g: ByteInterval, o: ByteInterval) {
    g.start < o.start && o.end <= g.end
  }

  /** One gap: what is left never has a byte that was not missing or that was filled. */
  lemma PieceSound(g: ByteInterval, o: ByteInterval, x: int)
    requires o.start <= o.end
    ensures Covers(Piece(g, o), x) ==> g.Has(x) && !o.Has(x)
  {
    if Covers(Piece(g, o), x) {
      var i :| 0 <= i < |Piece(g, o)| && Piece(g, o)[i].Has(x);
    }
  }

  /** One gap: outside the mishandled fills nothing else is lost. */
  lemma PieceComplete(g: ByteInterval, o: ByteInterval, x: int)
    requires o.start <= o.end && !Mishandled(g, o)
    requires g.Has(x) && !o.Has(x)
    ensures Covers(Piece(g, o), x)
  {
    assert |Piece(g, o)| == 1 && Piece(g, o)[0].Has(x);
  }

  /** One gap: a mishandled fill always loses the byte just before it. */
  lemma PieceLoses(g: ByteInterval, o: ByteInterval)
    requires o.start <= o.end && Mishandled(g, o)
    ensures g.Has(o.start - 1) && !Covers(Piece(g, o), o.start - 1)
  {
  }

  lemma {:induction false} PiecesCover(l: seq<ByteInterval>, o: ByteInterval, x: int)
    ensures Covers(Pieces(l, o), x) <==> exists i :: 0 <= i < |l| && Covers(Piece(l[i], o), x)
  {
    if l != [] {
      CoversAppend(Piece(l[0], o), Pieces(l[1..], o), x);
      PiecesCover(l[1..], o, x);
      if i :| 0 <= i < |l| && Covers(Piece(l[i], o), x) {
        assert i > 0 ==> l[i] == l[1..][i - 1];
      }
      if i :| 0 <= i < |l[1..]| && Covers(Piece(l[1..][i], o), x) {
        assert l[i + 1] == l[1..][i];
      }
    }
  }

  /** Pieces of one interval stay between its start and the next interval's start. */
  lemma PieceBounds(g: ByteInterval, o: ByteInterval, i: int)
    requires o.start <= o.end && 0 <= i < |Piece(g, o)|
    ensures g.start <= Piece(g, o)[i].start
    ensures Piece(g, o)[i].start <= (if g.start < g.end then g.end else g.start)
    ensures i > 0 ==> Piece(g, o)[0].start <= Piece(g, o)[i].start
  {
  }

  lemma {:induction false} PiecesSorted(l: seq<ByteInterval>, o: ByteInterval)
    requires Settled(l) && o.start <= o.end
    ensures StartSorted(Pieces(l, o))
    ensures forall i :: 0 <= i < |Pieces(l, o)| ==> l != [] && l[0].start <= Pieces(l, o)[i].start
  {
    hide Piece;
    if l != [] {
      var head, tail := Piece(l[0], o), Pieces(l[1..], o);
      PiecesSorted(l[1..], o);
      PieceSorted(l[0], o);
      forall i | 0 <= i < |head|
        ensures l[0].start <= head[i].start
        ensures forall j :: 0 <= j < |tail| ==> head[i].start <= tail[j].start
      {
        PieceBounds(l[0], o, i);
        if l[1..] != [] {
          assert l[1..][0] == l[1];
        }
      }
      SortedJoin(head, tail);
    }
  }

  lemma PieceSorted(g: ByteInterval, o: ByteInterval)
    requires o.start <= o.end
    ensures StartSorted(Piece(g, o))
  {
  }

  lemma SortedJoin(a: seq<ByteInterval>, b: seq<ByteInterval>)
    requires StartSorted(a) && StartSorted(b)
    requires forall i, j :: 0 <= i < |a| && 0 <= j < |b| ==> a[i].start <= b[j].start
    ensures StartSorted(a + b)
  {
  }

  /** Fill keeps the list settled and never records a byte that was not missing or was filled. */
  lemma FillSound(l: seq<ByteInterval>, o: ByteInterval)
    requires Settled(l) && o.start <= o.end
    ensures Settled(Fill(l, o))
    ensures forall x :: Covers(Fill(l, o), x) ==> Covers(l, x) && !o.Has(x)
  {
    PiecesSorted(l, o);
    MergePassSettles(Pieces(l, o));
    forall x | Covers(Fill(l, o), x)
      ensures Covers(l, x) && !o.Has(x)
    {
      PiecesCover(l, o, x);
      var i :| 0 <= i < |l| && Covers(Piece(l[i], o), x);
      PieceSound(l[i], o, x);
    }
  }

  ghost predicate FillExact(l: seq<ByteInterval>, o: ByteInterval) {
    forall x :: Covers(Fill(l, o), x) <==> Covers(l, x) && !o.Has(x)
  }

  /** Fill removes exactly the filled bytes if and only if no recorded gap is mishandled. */
  lemma FillExactIff(l: seq<ByteInterval>, o: ByteInterval)
    requires Settled(l) && o.start <= o.end
    ensures FillExact(l, o) <==> forall i :: 0 <= i < |l| ==> !Mishandled(l[i], o)
  {
    FillSound(l, o);
    if k :| 0 <= k < |l| && Mishandled(l[k], o) {
      FillLoses(l, o, k);
    } else {
      FillComplete(l, o);
    }
  }

  /** The bytes a mishandled gap loses besides the filled ones: one on each side of a fill inside the gap, and
      the whole front of the gap when the fill ends with it. */
  predicate Forgets(g: ByteInterval, o: ByteInterval, x: int) {
    Mishandled(g, o) && if o.end < g.end then x == o.start - 1 || x == o.end else g.start <= x < o.start
  }

  lemma PieceDenotes(g: ByteInterval, o: ByteInterval, x: int)
    requires o.start <= o.end
    ensures Covers(Piece(g, o), x) <==> g.Has(x) && !o.Has(x) && !Forgets(g, o, x)
  {
    if !Mishandled(g, o) {
      PieceSound(g, o, x);
      if g.Has(x) && !o.Has(x) {
        PieceComplete(g, o, x);
      }
    } else if o.end < g.end {
      var p, n := ByteInterval(g.start, o.start - 1), ByteInterval(o.end + 1, g.end);
      assert Piece(g, o) == [p] + [n];
      CoversAppend([p], [n], x);
      CoversOne(p, x);
      CoversOne(n, x);
    } else {
      assert Piece(g, o) == [];
    }
  }

  lemma AtMostOneHas(l: seq<ByteInterval>, i: nat, j: nat, x: int)
    requires Settled(l) && i < |l| && j < |l| && l[i].Has(x) && l[j].Has(x)
    ensures i == j
  {
  }

  ghost predicate NoneForgets(l: seq<ByteInterval>, o: ByteInterval, x: int) {
    forall i :: 0 <= i < |l| ==> !Forgets(l[i], o, x)
  }

  /** Exactly what a list records after any fill: what it recorded, without the filled and the forgotten. */
  lemma FillDenotes(l: seq<ByteInterval>, o: ByteInterval, x: int)
    requires Settled(l) && o.start <= o.end
    ensures Covers(Fill(l, o), x) <==> Covers(l, x) && !o.Has(x) && NoneForgets(l, o, x)
  {
    hide Piece, Forgets;
    PiecesSorted(l, o);
    MergePassSettles(Pieces(l, o));
    PiecesCover(l, o, x);
    forall i | 0 <= i < |l| ensures Covers(Piece(l[i], o), x) <==> l[i].Has(x) && !o.Has(x) && !Forgets(l[i], o, x) {
      PieceDenotes(l[i], o, x);
    }
    if i :| 0 <= i < |l| && Covers(Piece(l[i], o), x) {
      forall j | 0 <= j < |l| ensures !Forgets(l[j], o, x) {
        ForgottenWasThere(l[j], o, x);
        if l[j].Has(x) {
          AtMostOneHas(l, i, j, x);
        }
      }
    }
  }

  lemma ForgottenWasThere(g: ByteInterval, o: ByteInterval, x: int)
    requires o.start <= o.end
    ensures Forgets(g, o, x) ==> g.Has(x) && !o.Has(x)
  {
  }

  lemma FillLoses(l: seq<ByteInterval>, o: ByteInterval, k: nat)
    requires Settled(l) && o.start <= o.end && k < |l| && Mishandled(l[k], o)
    ensures Covers(l, o.start - 1) && !Covers(Fill(l, o), o.start - 1)
  {
    var x := o.start - 1;
    PieceLoses(l[k], o);
    PiecesSorted(l, o);
    MergePassSettles(Pieces(l, o));
    PiecesCover(l, o, x);
    forall i | 0 <= i < |l| ensures !Covers(Piece(l[i], o), x) {
      PieceSound(l[i], o, x);
    }
  }

  lemma FillComplete(l: seq<ByteInterval>, o: ByteInterval)
    requires Settled(l) && o.start <= o.end && forall i :: 0 <= i < |l| ==> !Mishandled(l[i], o)
    ensures forall x :: Covers(l, x) && !o.Has(x) ==> Covers(Fill(l, o), x)
  {
    PiecesSorted(l, o);
    MergePassSettles(Pieces(l, o));
    forall x | Covers(l, x) && !o.Has(x)
      ensures Covers(Fill(l, o), x)
    {
      var i :| 0 <= i < |l| && l[i].Has(x);
      PieceComplete(l[i], o, x);
      PiecesCover(l, o, x);
    }
  }

  // ----- Add

  lemma InsertedCovers(l: seq<ByteInterval>, b: ByteInterval, x: int)
    ensures Covers(Inserted(l, b), x) <==> Covers(l, x) || b.Has(x)
  {
    var k := InsertAt(l, b);
    CoversAppend(l[..k] + [b], l[k..], x);
    CoversAppend(l[..k], [b], x);
    CoversOne(b, x);
    assert l == l[..k] + l[k..];
    CoversAppend(l[..k], l[k..], x);
  }

  /** Adding a proper interval to proper intervals always records the union. */
  lemma AddIsUnion(l: seq<ByteInterval>, b: ByteInterval)
    requires AllProper(l) && b.start < b.end
    ensures AllProper(Add(l, b))
    ensures forall x :: Covers(Add(l, b), x) <==> Covers(l, x) || b.Has(x)
  {
    MergePassProper(Inserted(l, b));
    forall x ensures Covers(Add(l, b), x) <==> Covers(l, x) || b.Has(x) {
      InsertedCovers(l, b, x);
    }
  }

  /** Adding past the end, as addToRead does, keeps any settled list settled and records the union. */
  lemma AddAtEnd(l: seq<ByteInterval>, b: ByteInterval)
    requires Settled(l) && b.start < b.end
    requires forall i :: 0 <= i < |l| ==> l[i].start <= b.start && l[i].end <= b.start
    ensures Settled(Add(l, b))
    ensures forall x :: Covers(Add(l, b), x) <==> Covers(l, x) || b.Has(x)
  {
    var k := InsertAt(l, b);
    assert k == |l|;
    assert l[..k] == l && l[k..] == [];
    MergePassSettles(Inserted(l, b));
    forall x ensures Covers(Add(l, b), x) <==> Covers(l, x) || b.Has(x) {
      InsertedCovers(l, b, x);
    }
  }

  /** The i-th recorded interval starts before b ends and reaches b's start. */
  predicate Reaches(g: ByteInterval, b: ByteInterval) {
    g.start < b.end && g.end >= b.start
  }

  /** A pass leaves a settled prefix alone and goes on from its last element. */
  lemma {:induction false} MergePassPrefix(a: seq<ByteInterval>, p: ByteInterval, rest: seq<ByteInterval>)
    requires Settled(a + [p])
    ensures MergePass(a + ([p] + rest)) == a + MergeFrom(p, rest)
    decreases |a|
  {
    var l := a + ([p] + rest);
    if a == [] {
      assert l == [p] + rest;
      assert ([p] + rest)[1..] == rest;
    } else {
      var c := a + [p];
      var n := c[1];
      assert c[0] == a[0] && a[0].end < n.start;
      assert a[1..] + [p] == c[1..];
      MergePassPrefix(a[1..], p, rest);
      var m := a[1..] + ([p] + rest);
      assert l[0] == a[0] && l[1..] == m && m[0] == n;
      assert MergePass(l) == [a[0]] + MergePass(m);
      assert [a[0]] + (a[1..] + MergeFrom(p, rest)) == a + MergeFrom(p, rest);
    }
  }

  ghost predicate AtMostOneReaches(l: seq<ByteInterval>, b: ByteInterval) {
    forall i, j :: 0 <= i < j < |l| ==> !(Reaches(l[i], b) && Reaches(l[j], b))
  }

  /** Adding a proper interval to a canonical list leaves a canonical list if and only if at most
      one recorded interval reaches the new one from before its end. */
  lemma AddCanonicalIff(l: seq<ByteInterval>, b: ByteInterval)
    requires Canonical(l) && b.start < b.end
    ensures Canonical(Add(l, b)) <==> AtMostOneReaches(l, b)
  {
    AddIsUnion(l, b);
    var k := InsertAt(l, b);
    if k == 0 || l[k - 1].start <= b.start {
      InsertedInOrder(l, b);
      MergePassSettles(Inserted(l, b));
      if k > 0 {
        OnlyLastReaches(l, b, k);
      } else {
        NoneReaches(l, b);
      }
    } else {
      AddOutOfOrder(l, b);
      AddOutOfOrderIff(l, b, k, MergeFrom(l[k - 1].Merge(b), l[k..]));
    }
  }

  /** An interval that covers two others swallows only the second: the list is out of order. */
  lemma AddCoveringTwo(a: ByteInterval, c: ByteInterval, b: ByteInterval)
    requires a == ByteInterval(1, 2) && c == ByteInterval(4, 5) && b == ByteInterval(0, 6)
    ensures Add([a, c], b) == [a, b]
  {
    var l := [a, c];
    assert InsertAt(l[1..][1..], b) == 0 && InsertAt(l[1..], b) == 1 && InsertAt(l, b) == 2;
    var m := Inserted(l, b);
    assert m == [a, c, b];
    assert m[1..] == [c, b] && [c, b][1..] == [b] && [b][1..] == [];
    assert MergeFrom(c, [b]) == MergeFrom(b, []);
  }

  lemma NoneReaches(l: seq<ByteInterval>, b: ByteInterval)
    requires Canonical(l) && (l != [] ==> b.end <= l[0].start)
    ensures AtMostOneReaches(l, b)
  {
    forall i | 0 <= i < |l| ensures !Reaches(l[i], b) {
      assert i > 0 ==> l[0].start < l[i].start;
    }
  }

  lemma AddOutOfOrderIff(l: seq<ByteInterval>, b: ByteInterval, k: nat, r: seq<ByteInterval>)
    requires Canonical(l) && b.start < b.end && 0 < k <= |l|
    requires l[k - 1].start < b.end && (k < |l| ==> b.end <= l[k].start)
    requires r == MergeFrom(l[k - 1].Merge(b), l[k..]) && r != [] && Settled(r) && r[0].start == b.start < l[k - 1].start
    ensures Settled(l[..k - 1] + r) <==> AtMostOneReaches(l, b)
  {
    if k > 1 && l[k - 2].end >= b.start {
      AddOverTwo(l[..k - 1], r, b);
      assert l[k - 2].start < l[k - 1].start;
      assert Reaches(l[k - 2], b) && Reaches(l[k - 1], b);
    } else {
      MergeFromHeadEnd(l[k - 1].Merge(b), l[k..]);
      PrefixSettles(l[..k - 1], r, b);
      OnlyLastReaches(l, b, k);
    }
  }

  lemma SortedAppend(l: seq<ByteInterval>, m: seq<ByteInterval>)
    requires StartSorted(l) && StartSorted(m)
    requires forall i, j :: 0 <= i < |l| && 0 <= j < |m| ==> l[i].start <= m[j].start
    ensures StartSorted(l + m)
  {
  }

  lemma InsertedInOrder(l: seq<ByteInterval>, b: ByteInterval)
    requires Settled(l) && b.start < b.end
    requires InsertAt(l, b) == 0 || l[InsertAt(l, b) - 1].start <= b.start
    ensures StartSorted(Inserted(l, b))
  {
    SortedInsert(l, b, InsertAt(l, b));
  }

  lemma SortedInsert(l: seq<ByteInterval>, b: ByteInterval, k: nat)
    requires Settled(l) && k <= |l|
    requires (k > 0 ==> l[k - 1].start <= b.start) && (k < |l| ==> b.start <= l[k].start)
    ensures StartSorted(l[..k] + [b] + l[k..])
  {
    forall i | 0 <= i < k ensures l[i].start <= b.start {
      assert i < k - 1 ==> l[i].start < l[k - 1].start;
    }
    forall i | k <= i < |l| ensures b.start <= l[i].start {
      assert k < i ==> l[k].start < l[i].start;
    }
    SortedAppend(l[..k], [b]);
    SortedAppend(l[..k] + [b], l[k..]);
  }

  lemma AddOutOfOrder(l: seq<ByteInterval>, b: ByteInterval)
    requires Canonical(l) && b.start < b.end
    requires InsertAt(l, b) > 0 && l[InsertAt(l, b) - 1].start > b.start
    ensures var k := InsertAt(l, b);
            var r := MergeFrom(l[k - 1].Merge(b), l[k..]);
            Add(l, b) == l[..k - 1] + r && r != [] && Settled(r) && r[0].start == b.start
  {
    var k := InsertAt(l, b);
    MergedSorted(l, b, k);
    MergeFromSettles(l[k - 1].Merge(b), l[k..]);
    InsertedOutOfOrder(l, b, k);
    PassOver(l[..k - 1], l[k - 1], b, l[k..]);
  }

  lemma MergedSorted(l: seq<ByteInterval>, b: ByteInterval, k: nat)
    requires Settled(l) && 0 < k <= |l| && b.start < l[k - 1].start
    ensures StartSorted([l[k - 1].Merge(b)] + l[k..])
  {
    var s := [l[k - 1].Merge(b)] + l[k..];
    forall i, j | 0 <= i < j < |s| ensures s[i].start <= s[j].start {
      assert s[j] == l[k + j - 1];
      assert i > 0 ==> s[i] == l[k + i - 1];
      assert l[k - 1].start < l[k + j - 1].start;
    }
  }

  lemma InsertedOutOfOrder(l: seq<ByteInterval>, b: ByteInterval, k: nat)
    requires 0 < k == InsertAt(l, b) && Canonical(l)
    ensures Inserted(l, b) == l[..k - 1] + ([l[k - 1]] + ([b] + l[k..]))
    ensures Canonical(l[..k - 1] + [l[k - 1]])
  {
    assert l[..k - 1] + [l[k - 1]] == l[..k];
  }

  lemma PassOver(a: seq<ByteInterval>, p: ByteInterval, b: ByteInterval, rest: seq<ByteInterval>)
    requires Canonical(a + [p]) && p.Overlap(b)
    ensures MergePass(a + ([p] + ([b] + rest))) == a + MergeFrom(p.Merge(b), rest)
  {
    MergePassPrefix(a, p, [b] + rest);
    assert ([b] + rest)[1..] == rest;
  }

  lemma AddOverTwo(a: seq<ByteInterval>, r: seq<ByteInterval>, b: ByteInterval)
    requires a != [] && r != [] && r[0].start == b.start && a[|a| - 1].end >= b.start
    ensures !Settled(a + r)
  {
    var i := |a| - 1;
    assert (a + r)[i] == a[i] && (a + r)[i + 1] == r[0];
  }

  lemma OnlyLastReaches(l: seq<ByteInterval>, b: ByteInterval, k: nat)
    requires Canonical(l) && 0 < k <= |l|
    requires k < |l| ==> b.end <= l[k].start
    requires k > 1 ==> l[k - 2].end < b.start
    ensures AtMostOneReaches(l, b)
  {
    forall i, j | 0 <= i < j < |l|
      ensures !(Reaches(l[i], b) && Reaches(l[j], b))
    {
      assert k < j ==> l[k].start < l[j].start;
      assert i < k - 2 ==> l[i].end < l[k - 2].end;
    }
  }

  lemma PrefixSettles(a: seq<ByteInterval>, r: seq<ByteInterval>, b: ByteInterval)
    requires Canonical(a) && Settled(r) && r != []
    requires a != [] ==> a[|a| - 1].end < b.start
    requires b.start <= r[0].start && r[0].start < r[0].end
    ensures Settled(a + r)
  {
    forall i, j | 0 <= i < |a| && 0 <= j < |r|
      ensures a[i].start < r[j].start && a[i].end < r[j].start && a[i].end < r[j].end
    {
      assert a[i].end <= a[|a| - 1].end;
      assert r[0].start <= r[j].start && r[0].end <= r[j].end;
    }
  }
}
