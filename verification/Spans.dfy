/**
 Inter-stop spans (internal/physics/project.go, `splitSpan` and `ProjectStops`): stops are snapped,
 ordered by chainage, and the line between neighbours is cut into pieces of uniform track physics.
 */
module Spans {
  import opened Reals
  import opened Projection
  import opened Sorting
  import opened SpeedLimits
  import opened SpanRun

  datatype LineSegment = LineSegment(startM: real, endM: real, physics: Segment)

  datatype Stop = Stop(id: string, at: Planar)

  datatype SnappedStop = SnappedStop(id: string, point: Planar, chainageM: real, offsetM: real)

  datatype InterStopSpan = InterStopSpan(
    fromStopId: string, toStopId: string, distanceM: real, fromChainageM: real, toChainageM: real,
    segments: seq<SpanSegment>)

  datatype ProjectError = ShortLine | PhysicsMismatch | TooFewStops

  datatype ProjectResult = Projected(spans: seq<InterStopSpan>) | Refused(error: ProjectError)

  // ----- Cutting the line -----

  function Piece(seg: LineSegment, fromM: real, toM: real): seq<SpanSegment> {
    var lo, hi := Max(seg.startM, fromM), Min(seg.endM, toM);
    if hi - lo <= 0.0 then [] else [SpanSegment(hi - lo, seg.physics)]
  }

  function Split(segs: seq<LineSegment>, fromM: real, toM: real): seq<SpanSegment> {
    if segs == [] then [] else Split(segs[..|segs| - 1], fromM, toM) + Piece(segs[|segs| - 1], fromM, toM)
  }

  method SplitSpan(segs: seq<LineSegment>, fromM: real, toM: real) returns (out: seq<SpanSegment>)
    ensures out == Split(segs, fromM, toM)
  {
    out := [];
    var i := 0;
    while i < |segs|
      invariant 0 <= i <= |segs|
      invariant out == Split(segs[..i], fromM, toM)
    {
      var lo, hi := Max(segs[i].startM, fromM), Min(segs[i].endM, toM);
      assert segs[..i + 1][..i] == segs[..i];
      if hi - lo > 0.0 {
        out := out + [SpanSegment(hi - lo, segs[i].physics)];
      }
      i := i + 1;
    }
    assert segs[..i] == segs;
  }

  /** The segments follow one another along the line without gaps. */
  ghost predicate Contiguous(segs: seq<LineSegment>) {
    && (forall i :: 0 <= i < |segs| ==> segs[i].startM <= segs[i].endM)
    && (forall i :: 0 < i < |segs| ==> segs[i].startM == segs[i - 1].endM)
  }

  function SumM(pieces: seq<SpanSegment>): real {
    if pieces == [] then 0.0 else SumM(pieces[..|pieces| - 1]) + pieces[|pieces| - 1].distanceM
  }

  /** The length that [startM, endM] and [fromM, toM] share. */
  function Overlap(startM: real, endM: real, fromM: real, toM: real): real {
    Max(0.0, Min(endM, toM) - Max(startM, fromM))
  }

  lemma SumAppend(pieces: seq<SpanSegment>, piece: seq<SpanSegment>)
    requires |piece| <= 1
    ensures SumM(pieces + piece) == SumM(pieces) + (if piece == [] then 0.0 else piece[0].distanceM)
  {
    if piece == [] {
      assert pieces + piece == pieces;
    } else {
      assert (pieces + piece)[..|pieces|] == pieces;
    }
  }

  lemma SplitLast(segs: seq<LineSegment>, fromM: real, toM: real)
    requires segs != []
    ensures var n := |segs| - 1;
            SumM(Split(segs, fromM, toM))
            == SumM(Split(segs[..n], fromM, toM)) + Overlap(segs[n].startM, segs[n].endM, fromM, toM)
  {
    hide SumM, Piece, Overlap;
    var n := |segs| - 1;
    PieceLength(segs[n], fromM, toM);
    SumAppend(Split(segs[..n], fromM, toM), Piece(segs[n], fromM, toM));
  }

  /** The pieces add up to exactly what the span shares with the line. */
  lemma {:induction false} SplitSums(segs: seq<LineSegment>, fromM: real, toM: real)
    requires Contiguous(segs) && fromM <= toM && segs != []
    ensures SumM(Split(segs, fromM, toM)) == Overlap(segs[0].startM, segs[|segs| - 1].endM, fromM, toM)
  {
    hide SumM, Split, Overlap;
    var n := |segs| - 1;
    SplitLast(segs, fromM, toM);
    if n > 0 {
      SplitSums(segs[..n], fromM, toM);
      assert segs[n].startM == segs[n - 1].endM;
      StartsBeforeEnd(segs[..n]);
      OverlapAdds(segs[0].startM, segs[n].startM, segs[n].endM, fromM, toM);
    } else {
      NothingSplit(segs[..n], fromM, toM);
    }
  }

  lemma NothingSplit(segs: seq<LineSegment>, fromM: real, toM: real)
    requires segs == []
    ensures SumM(Split(segs, fromM, toM)) == 0.0
  {
  }

  lemma PieceLength(seg: LineSegment, fromM: real, toM: real)
    ensures |Piece(seg, fromM, toM)| <= 1
    ensures var piece := Piece(seg, fromM, toM);
            (if piece == [] then 0.0 else piece[0].distanceM) == Overlap(seg.startM, seg.endM, fromM, toM)
  {
  }

  lemma OverlapAdds(a: real, b: real, c: real, fromM: real, toM: real)
    requires a <= b <= c && fromM <= toM
    ensures Overlap(a, b, fromM, toM) + Overlap(b, c, fromM, toM) == Overlap(a, c, fromM, toM)
  {
  }

  lemma {:induction false} StartsBeforeEnd(segs: seq<LineSegment>)
    requires Contiguous(segs) && segs != []
    ensures segs[0].startM <= segs[|segs| - 1].endM
  {
    if |segs| > 1 {
      StartsBeforeEnd(segs[..|segs| - 1]);
    }
  }

  lemma {:induction false} SplitPositive(segs: seq<LineSegment>, fromM: real, toM: real)
    ensures forall i :: 0 <= i < |Split(segs, fromM, toM)| ==> 0.0 < Split(segs, fromM, toM)[i].distanceM
  {
    if segs != [] {
      SplitPositive(segs[..|segs| - 1], fromM, toM);
    }
  }

  /** `at` lists, in line order, the segments that share some length with [fromM, toM]: one piece for each. */
  ghost predicate PiecesOf(segs: seq<LineSegment>, fromM: real, toM: real, pieces: seq<SpanSegment>, at: seq<nat>) {
    && |at| == |pieces|
    && (forall k :: 0 <= k < |at| ==>
          && at[k] < |segs|
          && pieces[k].physics == segs[at[k]].physics
          && 0.0 < pieces[k].distanceM == Min(segs[at[k]].endM, toM) - Max(segs[at[k]].startM, fromM))
    && (forall k, l :: 0 <= k < l < |at| ==> at[k] < at[l])
    && (forall i: nat :: i < |segs| && Max(segs[i].startM, fromM) < Min(segs[i].endM, toM) ==> i in at)
  }

  lemma OnePieceMore(segs: seq<LineSegment>, fromM: real, toM: real, pieces: seq<SpanSegment>, at: seq<nat>)
    requires segs != [] && PiecesOf(segs[..|segs| - 1], fromM, toM, pieces, at)
    ensures var n := |segs| - 1;
            PiecesOf(segs, fromM, toM, pieces + Piece(segs[n], fromM, toM),
                     at + (if Piece(segs[n], fromM, toM) == [] then [] else [n]))
  {
    hide Min, Max;
    var n := |segs| - 1;
    var front, piece := segs[..n], Piece(segs[n], fromM, toM);
    var longer := at + (if piece == [] then [] else [n]);
    forall i: nat | i < |segs| && Max(segs[i].startM, fromM) < Min(segs[i].endM, toM) ensures i in longer {
      if i < n {
        assert front[i] == segs[i] && i in at;
      } else {
        assert longer[|at|] == n;
      }
    }
  }

  /** The pieces of a span are those of the line between its ends, in order, with their own track. */
  lemma {:induction false} SplitPieces(segs: seq<LineSegment>, fromM: real, toM: real) returns (at: seq<nat>)
    ensures PiecesOf(segs, fromM, toM, Split(segs, fromM, toM), at)
  {
    at := [];
    if segs != [] {
      var n := |segs| - 1;
      at := SplitPieces(segs[..n], fromM, toM);
      OnePieceMore(segs, fromM, toM, Split(segs[..n], fromM, toM), at);
      hide PiecesOf;
      at := at + (if Piece(segs[n], fromM, toM) == [] then [] else [n]);
    }
  }

  // ----- The line of a route -----

  function LineSegments(sqrt: real -> real, points: seq<Planar>, physics: seq<Segment>): seq<LineSegment>
    requires |points| == |physics| + 1
  {
    seq(|physics|, i requires 0 <= i < |physics| =>
      LineSegment(ChainageAt(sqrt, points, i), ChainageAt(sqrt, points, i + 1), physics[i]))
  }

  lemma LineContiguous(sqrt: real -> real, points: seq<Planar>, physics: seq<Segment>)
    requires IsSquareRoot(sqrt) && |points| == |physics| + 1 && physics != []
    ensures var segs := LineSegments(sqrt, points, physics);
            && segs != [] && Contiguous(segs)
            && segs[0].startM == 0.0
            && segs[|segs| - 1].endM == ChainageAt(sqrt, points, |points| - 1)
  {
    var segs := LineSegments(sqrt, points, physics);
    assert segs[0].startM == ChainageAt(sqrt, points, 0) == 0.0;
    hide ChainageAt, IsSquareRoot;
    forall i | 0 <= i < |segs| ensures segs[i].startM <= segs[i].endM {
      ChainageMonotone(sqrt, points, i, i + 1);
    }
  }

  // ----- Spans between neighbours -----

  predicate Before(a: SnappedStop, b: SnappedStop) {
    a.chainageM < b.chainageM
  }

  function SpanBetween(segs: seq<LineSegment>, a: SnappedStop, b: SnappedStop): InterStopSpan {
    InterStopSpan(a.id, b.id, b.chainageM - a.chainageM, a.chainageM, b.chainageM,
                  Split(segs, a.chainageM, b.chainageM))
  }

  function SpansOf(segs: seq<LineSegment>, stops: seq<SnappedStop>): (spans: seq<InterStopSpan>)
    requires stops != []
    ensures |spans| == |stops| - 1
  {
    seq(|stops| - 1, i requires 0 <= i < |stops| - 1 => SpanBetween(segs, stops[i], stops[i + 1]))
  }

  /** Snapped stops lie on the line and record their distance from it. */
  ghost predicate SnappedTo(sqrt: real -> real, points: seq<Planar>, stop: Stop, snapped: SnappedStop)
    requires 2 <= |points|
  {
    && snapped.id == stop.id
    && (exists i :: SnapsOn(sqrt, points, i, stop.at, snapped.chainageM, snapped.point))
    && 0.0 <= snapped.chainageM <= ChainageAt(sqrt, points, |points| - 1)
    && snapped.offsetM == PlanarDist(sqrt, stop.at, snapped.point)
  }

  /** A stop snaps to one place of the line. */
  lemma SnappedDetermined(sqrt: real -> real, points: seq<Planar>, stop: Stop, a: SnappedStop, b: SnappedStop)
    requires 2 <= |points| && SnappedTo(sqrt, points, stop, a) && SnappedTo(sqrt, points, stop, b)
    ensures a == b
  {
    hide SnapsOn, ChainageAt, PlanarDist;
    var i :| SnapsOn(sqrt, points, i, stop.at, a.chainageM, a.point);
    var i' :| SnapsOn(sqrt, points, i', stop.at, b.chainageM, b.point);
    SnapDetermined(sqrt, points, i, i', stop.at, a.chainageM, a.point, b.chainageM, b.point);
  }

  method Snap(sqrt: real -> real, points: seq<Planar>, stops: seq<Stop>) returns (out: seq<SnappedStop>)
    requires IsSquareRoot(sqrt) && 2 <= |points|
    ensures |out| == |stops|
    ensures forall i :: 0 <= i < |stops| ==> SnappedTo(sqrt, points, stops[i], out[i])
  {
    hide SnapsOn, ChainageAt, PlanarDist, IsSquareRoot;
    var chainage := Chainages(sqrt, points);
    out := [];
    var i := 0;
    while i < |stops|
      invariant 0 <= i <= |stops| && |out| == i
      invariant forall k :: 0 <= k < i ==> SnappedTo(sqrt, points, stops[k], out[k])
    {
      var c, p := SnapPoint(sqrt, points, chainage, stops[i].at);
      out := out + [SnappedStop(stops[i].id, p, c, PlanarDist(sqrt, stops[i].at, p))];
      i := i + 1;
    }
  }

  /**
   The spans between stops that are neighbours by chainage. `placed` are the snapped stops in the
   order the caller gave them.
   */
  method ProjectStops(sqrt: real -> real, points: seq<Planar>, physicsSegs: seq<Segment>, stops: seq<Stop>)
    returns (result: ProjectResult, ghost placed: seq<SnappedStop>)
    requires IsSquareRoot(sqrt)
    ensures result.Refused? <==>
            |points| < 2 || (physicsSegs != [] && |physicsSegs| != |points| - 1) || |stops| < 2
    ensures result.Projected? ==>
              && |placed| == |stops|
              && (forall i :: 0 <= i < |stops| ==> SnappedTo(sqrt, points, stops[i], placed[i]))
              && result.spans == SpansOf(LineSegments(sqrt, points, PhysicsOrLevel(physicsSegs, |points| - 1)),
                                         StableSort(placed, Before))
  {
    hide ChainageAt, IsSquareRoot, PlanarDist, SnapsOn, StableSort;
    placed := [];
    if |points| < 2 { return Refused(ShortLine), placed; }
    if |physicsSegs| > 0 && |physicsSegs| != |points| - 1 { return Refused(PhysicsMismatch), placed; }
    if |stops| < 2 { return Refused(TooFewStops), placed; }
    var physics := PhysicsOrLevel(physicsSegs, |points| - 1);
    var lineSegs := LineSegments(sqrt, points, physics);
    var projected := Snap(sqrt, points, stops);
    placed := projected;
    projected := StableSort(projected, Before);
    var spans, i := [], 0;
    while i < |projected| - 1
      invariant 0 <= i <= |projected| - 1
      invariant spans == SpansOf(lineSegs, projected)[..i]
    {
      var from, to := projected[i], projected[i + 1];
      var pieces := SplitSpan(lineSegs, from.chainageM, to.chainageM);
      spans := spans + [InterStopSpan(from.id, to.id, to.chainageM - from.chainageM, from.chainageM, to.chainageM, pieces)];
      i := i + 1;
    }
    result := Projected(spans);
  }

  /** No physics means level, straight track throughout. */
  function PhysicsOrLevel(physicsSegs: seq<Segment>, n: nat): (physics: seq<Segment>)
    ensures physicsSegs != [] ==> physics == physicsSegs
    ensures physicsSegs == [] ==> |physics| == n
  {
    if physicsSegs != [] then physicsSegs else seq(n, _ => Segment(0.0, 0.0, 0.0))
  }

  // ----- What the spans add up to -----

  ghost predicate OnLineStops(stops: seq<SnappedStop>, lengthM: real) {
    forall i :: 0 <= i < |stops| ==> 0.0 <= stops[i].chainageM <= lengthM
  }

  /** The pieces are positive and sum to exactly the length, so a positive length has pieces. */
  ghost predicate WellPieced(span: InterStopSpan) {
    && 0.0 <= span.distanceM == SumM(span.segments)
    && (forall i :: 0 <= i < |span.segments| ==> 0.0 < span.segments[i].distanceM)
    && (0.0 < span.distanceM ==> span.segments != [])
  }

  lemma SpanWellPieced(segs: seq<LineSegment>, a: SnappedStop, b: SnappedStop)
    requires segs != [] && Contiguous(segs)
    requires segs[0].startM <= a.chainageM <= b.chainageM <= segs[|segs| - 1].endM
    ensures WellPieced(SpanBetween(segs, a, b))
  {
    SplitSums(segs, a.chainageM, b.chainageM);
    SplitPositive(segs, a.chainageM, b.chainageM);
    hide Split;
  }

  /** Every span between sorted stops of the line is well pieced, so timing it never lacks segments. */
  lemma SpansWellPieced(segs: seq<LineSegment>, stops: seq<SnappedStop>, lengthM: real, i: nat)
    requires i + 1 < |stops| && Sorted(stops, Before) && OnLineStops(stops, lengthM)
    requires segs != [] && Contiguous(segs) && segs[0].startM == 0.0 && segs[|segs| - 1].endM == lengthM
    ensures WellPieced(SpansOf(segs, stops)[i])
  {
    hide WellPieced, Contiguous, Split;
    assert !Before(stops[i + 1], stops[i]);
    SpanWellPieced(segs, stops[i], stops[i + 1]);
  }

  /** Consecutive spans meet at the stop they share. */
  ghost predicate Chained(spans: seq<InterStopSpan>) {
    forall i, j :: 0 <= i < |spans| && j == i + 1 && j < |spans| ==>
      spans[j].fromStopId == spans[i].toStopId && spans[j].fromChainageM == spans[i].toChainageM
  }

  /** Spans chain end to end, and their lengths total the greatest chainage minus the least. */
  lemma SpansCoverLine(segs: seq<LineSegment>, stops: seq<SnappedStop>)
    requires stops != [] && Sorted(stops, Before)
    ensures Chained(SpansOf(segs, stops))
    ensures TotalM(SpansOf(segs, stops)) == stops[|stops| - 1].chainageM - stops[0].chainageM
    ensures forall i :: 0 <= i < |stops| ==>
              stops[0].chainageM <= stops[i].chainageM <= stops[|stops| - 1].chainageM
  {
    hide TotalM, Split;
    TotalTelescopes(segs, stops);
    forall i | 0 <= i < |stops|
      ensures stops[0].chainageM <= stops[i].chainageM <= stops[|stops| - 1].chainageM
    {
      assert 0 < i ==> !Before(stops[i], stops[0]);
      assert i < |stops| - 1 ==> !Before(stops[|stops| - 1], stops[i]);
    }
  }

  function TotalM(spans: seq<InterStopSpan>): real {
    if spans == [] then 0.0 else TotalM(spans[..|spans| - 1]) + spans[|spans| - 1].distanceM
  }

  lemma {:induction false} TotalTelescopes(segs: seq<LineSegment>, stops: seq<SnappedStop>)
    requires stops != []
    ensures TotalM(SpansOf(segs, stops)) == stops[|stops| - 1].chainageM - stops[0].chainageM
  {
    if |stops| > 1 {
      var rest := stops[..|stops| - 1];
      TotalTelescopes(segs, rest);
      assert SpansOf(segs, stops)[..|stops| - 2] == SpansOf(segs, rest);
    }
  }

  lemma BeforeIsWeakOrder()
    ensures WeakOrder(Before)
  {
  }

  lemma PlacedInRange(sqrt: real -> real, points: seq<Planar>, stops: seq<Stop>, placed: seq<SnappedStop>)
    requires 2 <= |points| && |placed| == |stops|
    requires forall i :: 0 <= i < |stops| ==> SnappedTo(sqrt, points, stops[i], placed[i])
    ensures OnLineStops(StableSort(placed, Before), ChainageAt(sqrt, points, |points| - 1))
  {
    hide ChainageAt, SnapsOn;
    var ordered := StableSort(placed, Before);
    forall i | 0 <= i < |ordered|
      ensures 0.0 <= ordered[i].chainageM <= ChainageAt(sqrt, points, |points| - 1)
    {
      SortedElements(placed, Before, ordered[i]);
      var k :| 0 <= k < |placed| && placed[k] == ordered[i];
      assert SnappedTo(sqrt, points, stops[k], placed[k]);
    }
  }

  /** The same, for what `ProjectStops` returns: timing its spans never fails for want of segments. */
  lemma ProjectedSpansTimeable(sqrt: real -> real, points: seq<Planar>, physics: seq<Segment>,
                               stops: seq<Stop>, placed: seq<SnappedStop>, i: nat)
    requires IsSquareRoot(sqrt) && 2 <= |points| == |physics| + 1 && |placed| == |stops| && i + 1 < |stops|
    requires forall k :: 0 <= k < |stops| ==> SnappedTo(sqrt, points, stops[k], placed[k])
    ensures WellPieced(SpansOf(LineSegments(sqrt, points, physics), StableSort(placed, Before))[i])
  {
    hide ChainageAt, IsSquareRoot, SnappedTo, LineSegments, SpansOf, StableSort, WellPieced, Contiguous, Sorted;
    BeforeIsWeakOrder();
    StableSortSorted(placed, Before);
    PlacedInRange(sqrt, points, stops, placed);
    LineContiguous(sqrt, points, physics);
    SpansWellPieced(LineSegments(sqrt, points, physics), StableSort(placed, Before),
                    ChainageAt(sqrt, points, |points| - 1), i);
  }
}
