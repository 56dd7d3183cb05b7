/** What a fill leaves of a gap it covers and runs past (streams.go:181-196, 411-420): an empty or inverted
    interval that stands for no byte but stays in the list. */
module Leftovers {
  import opened ByteIntervals

  predicate Leftover(g: ByteInterval) {
    g.end <= g.start
  }

  /** The fill covers the interval from its start on and runs past its end. */
  predicate Shrunk(g: ByteInterval, o: ByteInterval) {
    o.start <= g.start && g.end < o.end
  }

  /** The fill covers the back of the interval and runs past its end. */
  predicate Absorbs(g: ByteInterval, o: ByteInterval) {
    g.start < o.start <= g.end < o.end
  }

  // ----- One interval

  /** A fill removes a leftover exactly when it ends where the leftover ends; otherwise it leaves one that
      starts at the same byte. */
  lemma LeftoverRemovedIff(g: ByteInterval, o: ByteInterval)
    requires Leftover(g) && o.start <= o.end
    ensures Piece(g, o) == [] <==> o.end == g.end
    ensures o.end != g.end ==> Piece(g, o) == [ByteInterval(g.start, if Shrunk(g, o) then o.start else g.end)] &&
                               Leftover(Piece(g, o)[0])
  {
  }

  /** What becomes of any interval the fill covers and runs past. */
  lemma ShrunkPiece(g: ByteInterval, o: ByteInterval)
    requires o.start <= o.end && (Shrunk(g, o) || Absorbs(g, o))
    ensures Piece(g, o) == [ByteInterval(g.start, o.start)]
  {
  }

  lemma ExactlyFilled(g: ByteInterval, o: ByteInterval)
    requires o.start <= o.end && o.start <= g.start && g.end == o.end
    ensures Piece(g, o) == []
  {
  }

  lemma {:induction false} MergePassSettled(l: seq<ByteInterval>)
    requires Settled(l)
    ensures MergePass(l) == l
    decreases |l|
  {
    if |l| > 1 {
      assert l[0].start < l[1].start && l[0].end < l[1].start && l[0].end < l[1].end;
      MergePassSettled(l[1..]);
      assert l == [l[0]] + l[1..];
    }
  }

  // ----- A whole list

  /** All of the list ends behind the fill and starts no earlier than it. */
  ghost predicate Behind(l: seq<ByteInterval>, o: ByteInterval) {
    forall i :: 0 <= i < |l| ==> o.start <= l[i].start && o.end < l[i].end
  }

  ghost predicate NoLeftover(l: seq<ByteInterval>) {
    forall i :: 0 <= i < |l| ==> !Leftover(l[i])
  }

  function BehindPiece(g: ByteInterval, o: ByteInterval): ByteInterval {
    if g.start <= o.end then ByteInterval(o.end, g.end) else g
  }

  lemma {:induction false} PiecesBehind(l: seq<ByteInterval>, o: ByteInterval)
    requires Settled(l) && o.start <= o.end && Behind(l, o)
    ensures |Pieces(l, o)| == |l| && forall i :: 0 <= i < |l| ==> Pieces(l, o)[i] == BehindPiece(l[i], o)
    decreases |l|
  {
    if l != [] {
      PiecesBehind(l[1..], o);
      assert Piece(l[0], o) == [BehindPiece(l[0], o)];
    }
  }

  lemma FillBehind(l: seq<ByteInterval>, o: ByteInterval)
    requires Settled(l) && o.start <= o.end && Behind(l, o)
    ensures Fill(l, o) == Pieces(l, o)
    ensures AllProper(Fill(l, o)) <==> NoLeftover(l)
    ensures l != [] ==> Pieces(l, o) != [] && Pieces(l, o)[0] == BehindPiece(l[0], o)
  {
    PiecesBehind(l, o);
    var r := Pieces(l, o);
    assert Settled(r) by {
      forall i, j | 0 <= i < j < |r| ensures r[i].start < r[j].start && r[i].end < r[j].start && r[i].end < r[j].end {
        assert l[i].start < l[j].start && l[i].end < l[j].start && l[i].end < l[j].end;
      }
    }
    MergePassSettled(r);
  }

  /** Leftovers in the list that end behind the fill. */
  ghost predicate NoneBehind(l: seq<ByteInterval>, o: ByteInterval) {
    forall i :: 0 <= i < |l| ==> !(Leftover(l[i]) && o.end < l[i].end)
  }

  /** From an interval that ends where the fill starts, the pass swallows every shrunk one that follows. */
  lemma {:induction false} SwallowsShrunk(p: ByteInterval, l: seq<ByteInterval>, o: ByteInterval)
    requires Settled(l) && o.start < o.end && p.end == o.start
    requires forall i :: 0 <= i < |l| ==> o.start <= l[i].start && p.start < l[i].start
    ensures var r := MergeFrom(p, Pieces(l, o)); r != [] && r[0] == p && (AllProper(r[1..]) <==> NoneBehind(l, o))
    decreases |l|
  {
    hide Piece, Fill;
    if l != [] {
      var g, rest := l[0], l[1..];
      assert l == [g] + rest;
      if g.end <= o.end {
        SwallowsShrunk(p, rest, o);
        if g.end < o.end {
          ShrunkPiece(g, o);
          SwallowOne(p, ByteInterval(g.start, o.start), Pieces(rest, o));
        } else {
          ExactlyFilled(g, o);
          assert [] + Pieces(rest, o) == Pieces(rest, o);
        }
      } else {
        SwallowsNone(p, l, o);
      }
    }
  }

  lemma SwallowsNone(p: ByteInterval, l: seq<ByteInterval>, o: ByteInterval)
    requires Settled(l) && l != [] && o.start < o.end && p.end == o.start
    requires o.start <= l[0].start && p.start < l[0].start && o.end < l[0].end
    ensures var r := MergeFrom(p, Pieces(l, o)); r != [] && r[0] == p && (AllProper(r[1..]) <==> NoneBehind(l, o))
  {
    hide Pieces;
    AllBehind(l, o);
    FillBehind(l, o);
    assert !p.Overlap(Pieces(l, o)[0]);
    assert MergeFrom(p, Pieces(l, o)) == [p] + Fill(l, o);
    assert ([p] + Fill(l, o))[1..] == Fill(l, o);
  }

  lemma AllBehind(l: seq<ByteInterval>, o: ByteInterval)
    requires Settled(l) && l != [] && o.start <= l[0].start && o.end < l[0].end
    ensures Behind(l, o) && (NoLeftover(l) <==> NoneBehind(l, o))
  {
    forall i | 0 <= i < |l| ensures o.start <= l[i].start && o.end < l[i].end {
      assert i > 0 ==> l[0].start < l[i].start && l[0].end < l[i].end;
    }
  }

  lemma SwallowOne(p: ByteInterval, n: ByteInterval, rest: seq<ByteInterval>)
    requires p.end == n.end && p.start < n.start
    ensures MergeFrom(p, [n] + rest) == MergeFrom(p, rest)
  {
    assert ([n] + rest)[1..] == rest;
    assert p.Overlap(n) && p.Merge(n) == p;
  }

  /** A leftover the fill neither removes nor reaches. */
  predicate Stays(g: ByteInterval, o: ByteInterval) {
    Leftover(g) && g.end != o.end && !Shrunk(g, o)
  }

  ghost predicate NoneStays(l: seq<ByteInterval>, o: ByteInterval) {
    forall i :: 0 <= i < |l| ==> !Stays(l[i], o)
  }

  ghost predicate NoneShrunk(l: seq<ByteInterval>, o: ByteInterval) {
    forall i :: 0 <= i < |l| ==> !Shrunk(l[i], o)
  }

  ghost predicate OneAbsorbs(l: seq<ByteInterval>, o: ByteInterval) {
    exists i :: 0 <= i < |l| && Absorbs(l[i], o)
  }

  /** No leftover stays, and what is shrunk, if anything is, joins an interval whose back is covered. */
  ghost predicate CleanFill(l: seq<ByteInterval>, o: ByteInterval) {
    NoneStays(l, o) && (NoneShrunk(l, o) || OneAbsorbs(l, o))
  }

  ghost predicate NoneMishandled(l: seq<ByteInterval>, o: ByteInterval) {
    forall i :: 0 <= i < |l| ==> !Mishandled(l[i], o)
  }

  /** A leading interval that lies before the fill. */
  lemma BeforeFill(l: seq<ByteInterval>, o: ByteInterval)
    requires Settled(l) && l != [] && o.start <= o.end && l[0].start < o.start && l[0].end < o.start
    ensures Fill(l, o) == [l[0]] + Fill(l[1..], o)
    ensures CleanFill(l, o) <==> l[0].start < l[0].end && CleanFill(l[1..], o)
  {
    hide CleanFill;
    var g, rest := l[0], l[1..];
    assert l == [g] + rest;
    assert Piece(g, o) == [g];
    var pieces := Pieces(rest, o);
    assert ([g] + pieces)[1..] == pieces;
    assert AllAfter(g, rest) by {
      assert forall i :: 0 <= i < |rest| ==> rest[i] == l[i + 1];
    }
    if pieces != [] {
      FirstPieceAfter(g, rest, o);
    }
    CleanCons(g, rest, o);
  }

  lemma CleanCons(g: ByteInterval, rest: seq<ByteInterval>, o: ByteInterval)
    requires o.start <= o.end && g.start < o.start && g.end < o.start
    ensures CleanFill([g] + rest, o) <==> g.start < g.end && CleanFill(rest, o)
  {
    var l := [g] + rest;
    assert forall i :: 0 <= i < |rest| ==> l[i + 1] == rest[i];
    assert l[0] == g && forall i :: 1 <= i < |l| ==> l[i] == rest[i - 1];
  }

  ghost predicate AllAfter(g: ByteInterval, l: seq<ByteInterval>) {
    forall i :: 0 <= i < |l| ==> g.start < l[i].start && g.end < l[i].start && g.end < l[i].end
  }

  lemma PieceAfter(g: ByteInterval, h: ByteInterval, o: ByteInterval)
    requires g.start < h.start && g.end < h.start && g.end < h.end && o.start <= o.end && g.end < o.start
    requires Piece(h, o) != []
    ensures !g.Overlap(Piece(h, o)[0])
  {
  }

  lemma {:induction false} FirstPieceAfter(g: ByteInterval, rest: seq<ByteInterval>, o: ByteInterval)
    requires AllAfter(g, rest) && o.start <= o.end && g.end < o.start && Pieces(rest, o) != []
    ensures !g.Overlap(Pieces(rest, o)[0])
    decreases |rest|
  {
    if Piece(rest[0], o) == [] {
      assert [] + Pieces(rest[1..], o) == Pieces(rest[1..], o);
      FirstPieceAfter(g, rest[1..], o);
    } else {
      PieceAfter(g, rest[0], o);
    }
  }

  /** Fill leaves a canonical list, on every settled list and for every fill, empty ones included, that mishandles no gap, if
      and only if no leftover stays and either nothing is shrunk or it joins an interval before it. */
  lemma {:induction false} FillCanonicalIff(l: seq<ByteInterval>, o: ByteInterval)
    requires Settled(l) && o.start <= o.end && NoneMishandled(l, o)
    ensures Canonical(Fill(l, o)) <==> CleanFill(l, o)
    decreases |l|
  {
    hide CleanFill, Fill;
    FillSound(l, o);
    if l != [] {
      var g, rest := l[0], l[1..];
      assert l == [g] + rest;
      assert forall i :: 0 <= i < |rest| ==> rest[i] == l[i + 1];
      if g.start < o.start && g.end < o.start {
        BeforeFill(l, o);
        FillCanonicalIff(rest, o);
        FillSound(rest, o);
        ProperCons(g, Fill(rest, o));
      } else if g.start < o.start {
        AbsorbingFill(l, o);
      } else {
        FillFromFront(l, o);
      }
    } else {
      EmptyFill(o);
    }
  }

  lemma EmptyFill(o: ByteInterval)
    ensures Fill([], o) == [] && CleanFill([], o)
  {
  }

  lemma ProperCons(g: ByteInterval, l: seq<ByteInterval>)
    ensures AllProper([g] + l) <==> g.start < g.end && AllProper(l)
  {
    assert forall i :: 0 <= i < |l| ==> ([g] + l)[i + 1] == l[i];
    assert ([g] + l)[0] == g;
  }

  /** Once an interval reaches the fill's start, only leftovers behind the fill stay. */
  lemma StaysBehind(g: ByteInterval, rest: seq<ByteInterval>, o: ByteInterval)
    requires !Leftover(g) && forall i :: 0 <= i < |rest| ==> o.start <= rest[i].start
    ensures NoneStays([g] + rest, o) <==> NoneBehind(rest, o)
  {
    var l := [g] + rest;
    assert forall i :: 0 <= i < |rest| ==> (Stays(rest[i], o) <==> Leftover(rest[i]) && o.end < rest[i].end);
    assert l[0] == g && (forall i :: 1 <= i < |l| ==> l[i] == rest[i - 1]);
    assert forall i :: 0 <= i < |rest| ==> rest[i] == l[i + 1];
  }

  lemma AbsorbingFill(l: seq<ByteInterval>, o: ByteInterval)
    requires Settled(l) && l != [] && o.start <= o.end && NoneMishandled(l, o) && l[0].start < o.start <= l[0].end
    ensures AllProper(Fill(l, o)) <==> CleanFill(l, o)
  {
    hide MergeFrom, NoneStays, NoneShrunk, NoneBehind, AllProper;
    var g, rest := l[0], l[1..];
    assert l == [g] + rest;
    assert !Mishandled(g, o) && Absorbs(l[0], o);
    assert forall i :: 0 <= i < |rest| ==> rest[i] == l[i + 1];
    var p := ByteInterval(g.start, o.start);
    ShrunkPiece(g, o);
    SwallowsShrunk(p, rest, o);
    FillHead(l, o, p);
    var r := Fill(l, o);
    assert r == [r[0]] + r[1..];
    ProperCons(p, r[1..]);
    StaysBehind(g, rest, o);
  }

  lemma FillHead(l: seq<ByteInterval>, o: ByteInterval, p: ByteInterval)
    requires l != [] && Piece(l[0], o) == [p]
    ensures Fill(l, o) == MergeFrom(p, Pieces(l[1..], o))
  {
    assert ([p] + Pieces(l[1..], o))[1..] == Pieces(l[1..], o);
  }

  lemma NoneAbsorbs(l: seq<ByteInterval>, o: ByteInterval)
    requires Settled(l) && l != [] && o.start <= l[0].start
    ensures !OneAbsorbs(l, o) && forall i :: 0 <= i < |l| ==> o.start <= l[i].start
  {
    forall i | 0 <= i < |l| ensures o.start <= l[i].start && !Absorbs(l[i], o) {
      assert i > 0 ==> l[0].start < l[i].start;
    }
  }

  /** An interval that is covered and run past stays in front as a leftover, whatever follows it. */
  lemma CoveredFront(l: seq<ByteInterval>, o: ByteInterval)
    requires Settled(l) && l != [] && o.start <= o.end && Shrunk(l[0], o)
    ensures Fill(l, o) != [] && Fill(l, o)[0] == ByteInterval(l[0].start, o.start)
  {
    hide MergeFrom, Pieces, Fill;
    var g, rest := l[0], l[1..];
    if o.start < o.end {
      assert forall i :: 0 <= i < |rest| ==> rest[i] == l[i + 1];
      var p := ByteInterval(g.start, o.start);
      ShrunkPiece(g, o);
      FillHead(l, o, p);
      SwallowsShrunk(p, rest, o);
    } else {
      FrontLeftover(l, o);
    }
  }

  lemma FillFromFront(l: seq<ByteInterval>, o: ByteInterval)
    requires Settled(l) && l != [] && o.start <= o.end && o.start <= l[0].start
    ensures AllProper(Fill(l, o)) <==> CleanFill(l, o)
  {
    hide MergeFrom, NoneStays, NoneBehind, OneAbsorbs, Fill;
    var g, rest := l[0], l[1..];
    NoneAbsorbs(l, o);
    if g.end < o.end {
      assert Shrunk(l[0], o);
      CoveredFront(l, o);
    } else {
      BehindClean(l, o);
    }
  }

  lemma StaysIfBehind(l: seq<ByteInterval>, o: ByteInterval)
    requires Behind(l, o)
    ensures (NoneStays(l, o) <==> NoLeftover(l)) && NoneShrunk(l, o)
  {
  }

  lemma BehindClean(l: seq<ByteInterval>, o: ByteInterval)
    requires Settled(l) && l != [] && o.start <= o.end && o.start <= l[0].start && o.end <= l[0].end
    ensures AllProper(Fill(l, o)) <==> CleanFill(l, o)
  {
    hide Fill, AllProper, OneAbsorbs, NoLeftover;
    var g, rest := l[0], l[1..];
    if g.end == o.end {
      RestBehind(l, o);
      RemovedFirst(l, o);
      FillBehind(rest, o);
      StaysIfBehind(rest, o);
    } else {
      AllBehind(l, o);
      FillBehind(l, o);
      StaysIfBehind(l, o);
    }
  }

  lemma RestBehind(l: seq<ByteInterval>, o: ByteInterval)
    requires Settled(l) && l != [] && o.start <= l[0].start && o.end == l[0].end
    ensures Behind(l[1..], o) && (NoneStays(l, o) <==> NoneStays(l[1..], o)) && (NoneShrunk(l, o) <==> NoneShrunk(l[1..], o))
  {
    var rest := l[1..];
    forall i | 0 < i < |l| ensures o.start <= l[i].start && o.end < l[i].end && l[i] == rest[i - 1] {
      assert l[0].start < l[i].start && l[0].end < l[i].end;
    }
    assert forall i :: 0 <= i < |rest| ==> rest[i] == l[i + 1];
  }

  lemma RemovedFirst(l: seq<ByteInterval>, o: ByteInterval)
    requires l != [] && o.start <= o.end && o.start <= l[0].start && o.end == l[0].end
    ensures Fill(l, o) == Fill(l[1..], o)
  {
    assert Piece(l[0], o) == [];
    assert [] + Pieces(l[1..], o) == Pieces(l[1..], o);
  }

  /** A canonical list stays canonical under a fill that mishandles no gap if and only if no gap is
      covered and run past, or some gap has its back covered. */
  lemma FillKeepsCanonicalIff(l: seq<ByteInterval>, o: ByteInterval)
    requires Canonical(l) && o.start <= o.end && NoneMishandled(l, o)
    ensures Canonical(Fill(l, o)) <==> NoneShrunk(l, o) || OneAbsorbs(l, o)
  {
    FillCanonicalIff(l, o);
  }

  // ----- A leftover at the front

  lemma {:induction false} HeadStays(p: ByteInterval, rest: seq<ByteInterval>)
    requires Leftover(p) && forall i :: 0 <= i < |rest| ==> p.start < rest[i].start && p.end <= rest[i].end
    ensures MergeFrom(p, rest) != [] && MergeFrom(p, rest)[0] == p
    decreases |rest|
  {
    if rest != [] && p.Overlap(rest[0]) {
      assert p.Merge(rest[0]) == p;
      HeadStays(p, rest[1..]);
    }
  }

  /** The pieces of a later interval stand behind what is left of the leftover. */
  lemma PieceBehindLeftover(g: ByteInterval, h: ByteInterval, o: ByteInterval, i: int)
    requires Leftover(g) && g.start < h.start && g.end < h.end && o.start <= o.end && o.end != g.end
    requires 0 <= i < |Piece(h, o)|
    ensures g.start < Piece(h, o)[i].start
    ensures (if Shrunk(g, o) then o.start else g.end) <= Piece(h, o)[i].end
  {
  }

  lemma {:induction false} PiecesBehindLeftover(g: ByteInterval, l: seq<ByteInterval>, o: ByteInterval)
    requires Leftover(g) && o.start <= o.end && o.end != g.end
    requires forall i :: 0 <= i < |l| ==> g.start < l[i].start && g.end < l[i].end
    ensures forall i :: 0 <= i < |Pieces(l, o)| ==>
      g.start < Pieces(l, o)[i].start && (if Shrunk(g, o) then o.start else g.end) <= Pieces(l, o)[i].end
    decreases |l|
  {
    hide Piece;
    if l != [] {
      PiecesBehindLeftover(g, l[1..], o);
      forall i | 0 <= i < |Piece(l[0], o)|
        ensures g.start < Piece(l[0], o)[i].start
        ensures (if Shrunk(g, o) then o.start else g.end) <= Piece(l[0], o)[i].end
      {
        PieceBehindLeftover(g, l[0], o, i);
      }
    }
  }

  /** Whatever the fill, mishandled gaps included, a leftover at the front of a settled list stays there unless
      the fill ends where it ends; then the list starts later, or is empty. */
  lemma FrontLeftover(l: seq<ByteInterval>, o: ByteInterval)
    requires Settled(l) && l != [] && Leftover(l[0]) && o.start <= o.end
    ensures o.end == l[0].end ==> Fill(l, o) == [] || l[0].start < Fill(l, o)[0].start
    ensures o.end != l[0].end ==>
      && Fill(l, o) != []
      && Fill(l, o)[0] == ByteInterval(l[0].start, if Shrunk(l[0], o) then o.start else l[0].end)
  {
    hide Piece, Pieces;
    var g, rest := l[0], l[1..];
    LeftoverRemovedIff(g, o);
    assert forall i :: 0 <= i < |rest| ==> rest[i] == l[i + 1];
    if o.end == g.end {
      RemovedLeftover(l, o);
    } else {
      var p := Piece(g, o)[0];
      FillHead(l, o, p);
      PiecesBehindLeftover(g, rest, o);
      HeadStays(p, Pieces(rest, o));
    }
  }

  lemma RemovedLeftover(l: seq<ByteInterval>, o: ByteInterval)
    requires Settled(l) && l != [] && Piece(l[0], o) == [] && o.start <= o.end
    ensures Fill(l, o) == [] || l[0].start < Fill(l, o)[0].start
  {
    hide Piece;
    var rest := l[1..];
    assert [] + Pieces(rest, o) == Pieces(rest, o);
    PiecesSorted(rest, o);
    if Pieces(rest, o) != [] {
      var m := Pieces(rest, o);
      assert [m[0]] + m[1..] == m;
      MergeFromSettles(m[0], m[1..]);
      assert rest[0] == l[1];
    }
  }
}
