/**
 What one more stop does to a service: a span of the line is split in two (internal/physics/project.go,
 `ProjectStops`), and the two parts never take less time together than the whole (internal/physics/runtime.go).
 */
module ExtraStops {
  import opened Reals
  import opened Kinematics
  import opened SpanTime
  import opened SpanRun
  import opened Spans
  import opened PhysicsCompiler

  // ----- A span split at a point of the line -----

  /** A leg cut in two: the whole is `pre`, one piece of both lengths, `post`. */
  datatype CutPiece = CutPiece(pre: seq<SpanSegment>, first: SpanSegment, second: SpanSegment, post: seq<SpanSegment>)

  ghost predicate CutAt(whole: seq<SpanSegment>, left: seq<SpanSegment>, right: seq<SpanSegment>, c: CutPiece) {
    && c.first.physics == c.second.physics
    && 0.0 < c.first.distanceM && 0.0 < c.second.distanceM
    && whole == c.pre + [SpanSegment(c.first.distanceM + c.second.distanceM, c.first.physics)] + c.post
    && left == c.pre + [c.first]
    && right == [c.second] + c.post
  }

  /** The pieces of the whole are those of the two parts, but for one piece that may be cut in two. */
  ghost predicate SplitsInto(whole: seq<SpanSegment>, left: seq<SpanSegment>, right: seq<SpanSegment>) {
    whole == left + right || exists c :: CutAt(whole, left, right, c)
  }

  lemma {:induction false} EndsAscend(segs: seq<LineSegment>, i: nat)
    requires Contiguous(segs) && i < |segs|
    ensures segs[i].endM <= segs[|segs| - 1].endM
  {
    var n := |segs| - 1;
    if i < n {
      assert segs[n].startM == segs[n - 1].endM;
      EndsAscend(segs[..n], i);
    }
  }

  /** Nothing of a line that ends before `fromM` lies past it. */
  lemma {:induction false} NothingPast(segs: seq<LineSegment>, fromM: real, toM: real)
    requires forall i :: 0 <= i < |segs| ==> segs[i].endM <= fromM
    ensures Split(segs, fromM, toM) == []
  {
    if segs != [] {
      NothingPast(segs[..|segs| - 1], fromM, toM);
    }
  }

  /** Past the end of the line it does not matter how far a span goes. */
  lemma {:induction false} SamePast(segs: seq<LineSegment>, fromM: real, b: real, c: real)
    requires b <= c && forall i :: 0 <= i < |segs| ==> segs[i].endM <= b
    ensures Split(segs, fromM, b) == Split(segs, fromM, c)
  {
    if segs != [] {
      SamePast(segs[..|segs| - 1], fromM, b, c);
    }
  }

  lemma SplitUnfold(segs: seq<LineSegment>, fromM: real, toM: real)
    requires segs != []
    ensures var n := |segs| - 1; Split(segs, fromM, toM) == Split(segs[..n], fromM, toM) + Piece(segs[n], fromM, toM)
  {
    hide Piece;
  }

  /** A segment past `b` belongs to the second part. */
  lemma PiecesPast(seg: LineSegment, a: real, b: real, c: real)
    requires a <= b <= c && b <= seg.startM
    ensures Piece(seg, a, b) == [] && Piece(seg, a, c) == Piece(seg, b, c)
  {
  }

  /** A segment that starts before `b` is cut by it, or belongs to one part. */
  lemma PiecesAround(seg: LineSegment, a: real, b: real, c: real)
    requires a <= b <= c && seg.startM < b && seg.startM <= seg.endM
    ensures var p, q, r := Piece(seg, a, b), Piece(seg, b, c), Piece(seg, a, c);
            if p == [] then r == q else if q == [] then r == p
            else
              && |p| == |q| == 1 && p[0].physics == q[0].physics
              && 0.0 < p[0].distanceM && 0.0 < q[0].distanceM
              && r == [SpanSegment(p[0].distanceM + q[0].distanceM, p[0].physics)]
  {
  }

  lemma JoinLater(whole: seq<SpanSegment>, left: seq<SpanSegment>, right: seq<SpanSegment>, p: seq<SpanSegment>)
    requires SplitsInto(whole, left, right)
    ensures SplitsInto(whole + p, left, right + p)
  {
    if whole == left + right {
      assert whole + p == left + (right + p);
    } else {
      var cut :| CutAt(whole, left, right, cut);
      var longer := cut.(post := cut.post + p);
      assert whole + p == longer.pre + [SpanSegment(cut.first.distanceM + cut.second.distanceM, cut.first.physics)] + longer.post;
      assert right + p == [longer.second] + longer.post;
      assert CutAt(whole + p, left, right + p, longer);
    }
  }

  lemma JoinAround(before: seq<SpanSegment>, p: seq<SpanSegment>, q: seq<SpanSegment>, r: seq<SpanSegment>)
    requires if p == [] then r == q else if q == [] then r == p
             else
               && |p| == |q| == 1 && p[0].physics == q[0].physics
               && 0.0 < p[0].distanceM && 0.0 < q[0].distanceM
               && r == [SpanSegment(p[0].distanceM + q[0].distanceM, p[0].physics)]
    ensures SplitsInto(before + r, before + p, q)
  {
    if p == [] || q == [] {
      assert before + r == before + p + q;
    } else {
      var cut := CutPiece(before, p[0], q[0], []);
      assert p == [cut.first] && q == [cut.second] + [];
      assert before + r == before + r + [];
      assert CutAt(before + r, before + p, q, cut);
    }
  }

  lemma LastPast(segs: seq<LineSegment>, a: real, b: real, c: real)
    requires segs != [] && a <= b <= c && b <= segs[|segs| - 1].startM
    requires SplitsInto(Split(segs[..|segs| - 1], a, c), Split(segs[..|segs| - 1], a, b), Split(segs[..|segs| - 1], b, c))
    ensures SplitsInto(Split(segs, a, c), Split(segs, a, b), Split(segs, b, c))
  {
    hide Split, Piece, SplitsInto;
    var n := |segs| - 1;
    SplitUnfold(segs, a, c);
    SplitUnfold(segs, a, b);
    SplitUnfold(segs, b, c);
    PiecesPast(segs[n], a, b, c);
    assert Split(segs[..n], a, b) + [] == Split(segs[..n], a, b);
    JoinLater(Split(segs[..n], a, c), Split(segs[..n], a, b), Split(segs[..n], b, c), Piece(segs[n], b, c));
  }

  lemma LastAround(segs: seq<LineSegment>, a: real, b: real, c: real)
    requires segs != [] && Contiguous(segs) && a <= b <= c && segs[|segs| - 1].startM < b
    ensures SplitsInto(Split(segs, a, c), Split(segs, a, b), Split(segs, b, c))
  {
    hide Split, Piece, SplitsInto;
    var n := |segs| - 1;
    var front := segs[..n];
    forall i | 0 <= i < n ensures front[i].endM <= b {
      EndsAscend(front, i);
    }
    NothingPast(front, b, c);
    SamePast(front, a, b, c);
    SplitUnfold(segs, a, c);
    SplitUnfold(segs, a, b);
    SplitUnfold(segs, b, c);
    PiecesAround(segs[n], a, b, c);
    assert [] + Piece(segs[n], b, c) == Piece(segs[n], b, c);
    JoinAround(Split(front, a, b), Piece(segs[n], a, b), Piece(segs[n], b, c), Piece(segs[n], a, c));
  }

  /** Splitting a span at any point of a line without gaps. */
  lemma {:induction false} SplitAt(segs: seq<LineSegment>, a: real, b: real, c: real)
    requires Contiguous(segs) && a <= b <= c
    ensures SplitsInto(Split(segs, a, c), Split(segs, a, b), Split(segs, b, c))
  {
    if segs == [] {
      assert Split(segs, a, c) == Split(segs, a, b) + Split(segs, b, c);
    } else if b <= segs[|segs| - 1].startM {
      SplitAt(segs[..|segs| - 1], a, b, c);
      LastPast(segs, a, b, c);
    } else {
      LastAround(segs, a, b, c);
    }
  }

  // ----- Time -----

  lemma LegsConcat(sqrt: real -> real, x: seq<SpanSegment>, y: seq<SpanSegment>, maxKMH: real)
    ensures LegsOf(sqrt, x + y, maxKMH) == LegsOf(sqrt, x, maxKMH) + LegsOf(sqrt, y, maxKMH)
  {
    hide CapMS;
  }

  ghost predicate Positive(segments: seq<SpanSegment>) {
    forall i :: 0 <= i < |segments| ==> 0.0 <= segments[i].distanceM
  }

  lemma CutNeverSaves(sqrt: real -> real, whole: seq<SpanSegment>, left: seq<SpanSegment>, right: seq<SpanSegment>,
                      c: CutPiece, maxKMH: real, r: Rates)
    requires IsSquareRoot(sqrt) && ValidRates(r) && 0.0 < maxKMH && CutAt(whole, left, right, c)
    requires Positive(c.pre) && Positive(c.post)
    requires ValidLegs(LegsOf(sqrt, whole, maxKMH)) && ValidLegs(LegsOf(sqrt, left, maxKMH)) && ValidLegs(LegsOf(sqrt, right, maxKMH))
    ensures RunSeconds(sqrt, LegsOf(sqrt, whole, maxKMH), r)
            <= RunSeconds(sqrt, LegsOf(sqrt, left, maxKMH), r) + RunSeconds(sqrt, LegsOf(sqrt, right, maxKMH), r)
  {
    hide RunSeconds, IsSquareRoot, ValidLegs, LegsOf;
    var d1, d2, cap := c.first.distanceM, c.second.distanceM, CapMS(sqrt, c.first.physics, maxKMH);
    var both := SpanSegment(d1 + d2, c.first.physics);
    var pre, post := LegsOf(sqrt, c.pre, maxKMH), LegsOf(sqrt, c.post, maxKMH);
    LegsConcat(sqrt, c.pre + [both], c.post, maxKMH);
    LegsConcat(sqrt, c.pre, [both], maxKMH);
    LegsConcat(sqrt, c.pre, [c.first], maxKMH);
    LegsConcat(sqrt, [c.second], c.post, maxKMH);
    OneLeg(sqrt, both, maxKMH);
    OneLeg(sqrt, c.first, maxKMH);
    OneLeg(sqrt, c.second, maxKMH);
    LegsValid(sqrt, c.pre, maxKMH);
    LegsValid(sqrt, c.post, maxKMH);
    CapPositive(sqrt, c.first, maxKMH);
    hide CapMS;
    assert LegsOf(sqrt, whole, maxKMH) == Uncut(pre, d1, d2, cap, post);
    StopInsideLegNeverSaves(sqrt, pre, d1, d2, cap, post, r);
  }

  lemma OneLeg(sqrt: real -> real, s: SpanSegment, maxKMH: real)
    ensures LegsOf(sqrt, [s], maxKMH) == [Leg(s.distanceM, CapMS(sqrt, s.physics, maxKMH))]
  {
    hide CapMS;
  }

  lemma CapPositive(sqrt: real -> real, s: SpanSegment, maxKMH: real)
    requires IsSquareRoot(sqrt) && 0.0 < maxKMH && 0.0 < s.distanceM
    ensures 0.0 < CapMS(sqrt, s.physics, maxKMH)
  {
    LegsValid(sqrt, [s], maxKMH);
    OneLeg(sqrt, s, maxKMH);
    hide CapMS;
    assert LegsOf(sqrt, [s], maxKMH)[0].capMS == CapMS(sqrt, s.physics, maxKMH);
  }

  /** The run time of the part of a line between two chainages. */
  function PartSeconds(sqrt: real -> real, segs: seq<LineSegment>, fromM: real, toM: real, maxKMH: real, r: Rates): real
    requires ValidRates(r) && ValidLegs(LegsOf(sqrt, Split(segs, fromM, toM), maxKMH))
  {
    RunSeconds(sqrt, LegsOf(sqrt, Split(segs, fromM, toM), maxKMH), r)
  }

  lemma PartValid(sqrt: real -> real, segs: seq<LineSegment>, fromM: real, toM: real, maxKMH: real)
    requires IsSquareRoot(sqrt) && 0.0 < maxKMH
    ensures Positive(Split(segs, fromM, toM)) && ValidLegs(LegsOf(sqrt, Split(segs, fromM, toM), maxKMH))
  {
    SplitPositive(segs, fromM, toM);
    hide Split, LegsOf;
    LegsValid(sqrt, Split(segs, fromM, toM), maxKMH);
  }

  /**
   Stopping at chainage `b` of a line, anywhere between `a` and `c`, never makes the run from `a` to `c`
   shorter.
   */
  lemma ExtraStopNeverSaves(sqrt: real -> real, segs: seq<LineSegment>, a: real, b: real, c: real, maxKMH: real, r: Rates)
    requires IsSquareRoot(sqrt) && ValidRates(r) && 0.0 < maxKMH && Contiguous(segs) && a <= b <= c
    ensures forall x, y :: ValidLegs(LegsOf(sqrt, Split(segs, x, y), maxKMH))
    ensures PartSeconds(sqrt, segs, a, c, maxKMH, r)
            <= PartSeconds(sqrt, segs, a, b, maxKMH, r) + PartSeconds(sqrt, segs, b, c, maxKMH, r)
  {
    hide Split, LegsOf, RunSeconds, IsSquareRoot, ValidLegs, Contiguous;
    forall x, y ensures Positive(Split(segs, x, y)) && ValidLegs(LegsOf(sqrt, Split(segs, x, y), maxKMH)) {
      PartValid(sqrt, segs, x, y, maxKMH);
    }
    var whole, left, right := Split(segs, a, c), Split(segs, a, b), Split(segs, b, c);
    SplitAt(segs, a, b, c);
    if whole == left + right {
      LegsConcat(sqrt, left, right, maxKMH);
      StopNeverSaves(sqrt, LegsOf(sqrt, left, maxKMH), LegsOf(sqrt, right, maxKMH), r);
    } else {
      var cut :| CutAt(whole, left, right, cut);
      PartsPositive(whole, left, right, cut);
      CutNeverSaves(sqrt, whole, left, right, cut, maxKMH, r);
    }
  }

  lemma PartsPositive(whole: seq<SpanSegment>, left: seq<SpanSegment>, right: seq<SpanSegment>, c: CutPiece)
    requires CutAt(whole, left, right, c) && Positive(left) && Positive(right)
    ensures Positive(c.pre) && Positive(c.post)
  {
    forall i | 0 <= i < |c.pre| ensures 0.0 <= c.pre[i].distanceM {
      assert left[i] == c.pre[i];
    }
    forall i | 0 <= i < |c.post| ensures 0.0 <= c.post[i].distanceM {
      assert right[i + 1] == c.post[i];
    }
  }

  lemma {:induction false} EmptySpan(segs: seq<LineSegment>, a: real)
    ensures Split(segs, a, a) == []
  {
    if segs != [] {
      EmptySpan(segs[..|segs| - 1], a);
    }
  }

  /** A span runs in the time of its part of the line, also when it is empty. */
  lemma SpanIsPart(sqrt: real -> real, segs: seq<LineSegment>, x: SnappedStop, y: SnappedStop, vehicle: VehicleLimits, secs: real)
    requires IsSquareRoot(sqrt) && ValidVehicle(vehicle) && x.chainageM <= y.chainageM
    requires RunsIn(sqrt, SpanBetween(segs, x, y), vehicle, secs)
    ensures ValidLegs(LegsOf(sqrt, Split(segs, x.chainageM, y.chainageM), vehicle.maxSpeedKMH))
    ensures secs == PartSeconds(sqrt, segs, x.chainageM, y.chainageM, vehicle.maxSpeedKMH,
                                Rates(vehicle.accelerationMS2, vehicle.decelerationMS2))
  {
    hide Split, LegsOf, IsSquareRoot, NodeSpeeds;
    PartValid(sqrt, segs, x.chainageM, y.chainageM, vehicle.maxSpeedKMH);
    if x.chainageM == y.chainageM {
      EmptySpan(segs, x.chainageM);
    }
  }

  /**
   A stop added to a service between two others never lowers the time between them: the span through takes
   at most as long as the two spans the added stop makes of it.
   */
  lemma AddedStopNeverSaves(sqrt: real -> real, segs: seq<LineSegment>, x: SnappedStop, s: SnappedStop, y: SnappedStop,
                            vehicle: VehicleLimits, through: real, first: real, second: real)
    requires IsSquareRoot(sqrt) && ValidVehicle(vehicle) && Contiguous(segs)
    requires x.chainageM <= s.chainageM <= y.chainageM
    requires RunsIn(sqrt, SpanBetween(segs, x, y), vehicle, through)
    requires RunsIn(sqrt, SpanBetween(segs, x, s), vehicle, first)
    requires RunsIn(sqrt, SpanBetween(segs, s, y), vehicle, second)
    ensures through <= first + second
  {
    hide Split, LegsOf, IsSquareRoot, RunsIn, PartSeconds, Contiguous, SpanBetween, ValidLegs;
    SpanIsPart(sqrt, segs, x, y, vehicle, through);
    SpanIsPart(sqrt, segs, x, s, vehicle, first);
    SpanIsPart(sqrt, segs, s, y, vehicle, second);
    ExtraStopNeverSaves(sqrt, segs, x.chainageM, s.chainageM, y.chainageM, vehicle.maxSpeedKMH,
                        Rates(vehicle.accelerationMS2, vehicle.decelerationMS2));
  }
}
