/**
 Snapping stops to a polyline and splitting the line into inter-stop spans
 (internal/physics/project.go). The model starts from planar points; the projection from longitude
 and latitude is not part of it.
 */
module Projection {
  import opened Reals

  datatype Planar = Planar(x: real, y: real)

  function DistSq(a: Planar, b: Planar): real {
    Sq(b.x - a.x) + Sq(b.y - a.y)
  }

  function PlanarDist(sqrt: real -> real, a: Planar, b: Planar): real {
    sqrt(DistSq(a, b))
  }

  lemma DistNonNegative(sqrt: real -> real, a: Planar, b: Planar)
    requires IsSquareRoot(sqrt)
    ensures 0.0 <= PlanarDist(sqrt, a, b) && Sq(PlanarDist(sqrt, a, b)) == DistSq(a, b)
  {
    SqNonNegative(b.x - a.x);
    SqNonNegative(b.y - a.y);
    hide Sq;
  }

  /** The point a fraction `s` of the way from `a` to `b`. */
  function Along(a: Planar, b: Planar, s: real): Planar {
    Planar(a.x + s * (b.x - a.x), a.y + s * (b.y - a.y))
  }

  // ----- Chainage -----

  function ChainageAt(sqrt: real -> real, points: seq<Planar>, i: nat): real
    requires i < |points|
  {
    if i == 0 then 0.0 else ChainageAt(sqrt, points, i - 1) + PlanarDist(sqrt, points[i - 1], points[i])
  }

  method Chainages(sqrt: real -> real, points: seq<Planar>) returns (chainage: seq<real>)
    ensures |chainage| == |points|
    ensures forall i :: 0 <= i < |points| ==> chainage[i] == ChainageAt(sqrt, points, i)
  {
    hide PlanarDist;
    if points == [] { return []; }
    chainage := [0.0];
    var i := 1;
    while i < |points|
      invariant 1 <= i <= |points| && |chainage| == i
      invariant forall k :: 0 <= k < i ==> chainage[k] == ChainageAt(sqrt, points, k)
    {
      assert chainage[i - 1] == ChainageAt(sqrt, points, i - 1);
      chainage := chainage + [chainage[i - 1] + PlanarDist(sqrt, points[i - 1], points[i])];
      i := i + 1;
    }
  }

  lemma {:induction false} ChainageMonotone(sqrt: real -> real, points: seq<Planar>, i: nat, j: nat)
    requires IsSquareRoot(sqrt) && i <= j < |points|
    ensures ChainageAt(sqrt, points, i) <= ChainageAt(sqrt, points, j)
  {
    hide PlanarDist, IsSquareRoot;
    if i < j {
      ChainageMonotone(sqrt, points, i, j - 1);
      DistNonNegative(sqrt, points[j - 1], points[j]);
    }
  }

  // ----- Nearest point -----

  function Dot(a: Planar, b: Planar, p: Planar): real {
    (p.x - a.x) * (b.x - a.x) + (p.y - a.y) * (b.y - a.y)
  }

  function Clamp(t: real): real {
    if t < 0.0 then 0.0 else if t > 1.0 then 1.0 else t
  }

  /** The fraction along the segment of its point closest to `p`. */
  function ClosestFraction(a: Planar, b: Planar, p: Planar): (t: real)
    ensures 0.0 <= t <= 1.0
  {
    if DistSq(a, b) == 0.0 then 0.0 else Clamp(Dot(a, b, p) / DistSq(a, b))
  }

  function ClosestPointOnSegment(a: Planar, b: Planar, p: Planar): Planar {
    if DistSq(a, b) == 0.0 then a else Along(a, b, ClosestFraction(a, b, p))
  }

  lemma AlongDistSq(a: Planar, b: Planar, p: Planar, s: real)
    ensures DistSq(p, Along(a, b, s)) == DistSq(a, p) - 2.0 * s * Dot(a, b, p) + Sq(s) * DistSq(a, b)
  {
    AlongExpanded(a, b, p, s);
    hide DistSq, Along, Dot, Sq;
  }

  lemma AlongExpanded(a: Planar, b: Planar, p: Planar, s: real)
    ensures DistSq(p, Along(a, b, s)) == DistSq(a, p) - Mul(2.0 * s, Dot(a, b, p)) + Mul(Sq(s), DistSq(a, b))
  {
    AlongAxes(a, b, s);
    DotAxes(a, b, p);
    hide Mul, Sq, Along, Dot;
    var q := Along(a, b, s);
    var nx, ny := Mul(p.x - a.x, b.x - a.x), Mul(p.y - a.y, b.y - a.y);
    AxisDistSq(a.x, b.x - a.x, p.x, s, q.x, nx);
    AxisDistSq(a.y, b.y - a.y, p.y, s, q.y, ny);
    TwoAxes(Sq(q.x - p.x), Sq(q.y - p.y), Sq(p.x - a.x), Sq(p.y - a.y), 2.0 * s, nx, ny, Sq(s), Sq(b.x - a.x), Sq(b.y - a.y));
  }

  lemma AlongAxes(a: Planar, b: Planar, s: real)
    ensures Along(a, b, s) == Planar(a.x + Mul(s, b.x - a.x), a.y + Mul(s, b.y - a.y))
  {
  }

  lemma DotAxes(a: Planar, b: Planar, p: Planar)
    ensures Dot(a, b, p) == Mul(p.x - a.x, b.x - a.x) + Mul(p.y - a.y, b.y - a.y)
  {
  }

  lemma TwoAxes(x: real, y: real, ex: real, ey: real, s: real, nx: real, ny: real, t: real, lx: real, ly: real)
    requires x == ex - Mul(s, nx) + Mul(t, lx) && y == ey - Mul(s, ny) + Mul(t, ly)
    ensures x + y == ex + ey - Mul(s, nx + ny) + Mul(t, lx + ly)
  {
    Spread(s, nx, ny);
    Spread(t, lx, ly);
    hide Mul;
  }

  lemma Spread(s: real, x: real, y: real)
    ensures Mul(s, x + y) == Mul(s, x) + Mul(s, y)
  {
  }

  lemma AxisDistSq(a: real, d: real, p: real, s: real, q: real, n: real)
    requires q == a + Mul(s, d) && n == Mul(p - a, d)
    ensures Sq(q - p) == Sq(p - a) - Mul(2.0 * s, n) + Mul(Sq(s), Sq(d))
  {
    var e := p - a;
    assert q - p == s * d - e;
    assert (s * d - e) * (s * d - e) == s * d * (s * d) - 2.0 * (s * d * e) + e * e;
    assert s * d * (s * d) == Sq(s) * Sq(d);
    assert 2.0 * s * (e * d) == 2.0 * (s * d * e);
  }

  /** A convex parabola restricted to [0, 1] is least at the clamped vertex. */
  lemma ClampedVertex(len: real, vertex: real, s: real)
    requires 0.0 <= len && 0.0 <= s <= 1.0
    ensures var t := Clamp(vertex);
            len * (Sq(t) - 2.0 * t * vertex) <= len * (Sq(s) - 2.0 * s * vertex)
  {
    var t := Clamp(vertex);
    assert Sq(s) - 2.0 * s * vertex - (Sq(t) - 2.0 * t * vertex) == (s - t) * (s + t - 2.0 * vertex);
    assert 0.0 <= (s - t) * (s + t - 2.0 * vertex) by {
      if vertex < 0.0 {
        MulNonNegative(s - t, s + t - 2.0 * vertex);
      } else if vertex > 1.0 {
        MulNonNegative(t - s, 2.0 * vertex - s - t);
        assert (t - s) * (2.0 * vertex - s - t) == (s - t) * (s + t - 2.0 * vertex);
      } else {
        SqNonNegative(s - t);
      }
    }
    MulOrder(Sq(t) - 2.0 * t * vertex, Sq(s) - 2.0 * s * vertex, len);
  }

  lemma NearestOnProperSegment(a: Planar, b: Planar, p: Planar, s: real)
    requires 0.0 <= s <= 1.0 && 0.0 < DistSq(a, b)
    ensures DistSq(p, Along(a, b, Clamp(Dot(a, b, p) / DistSq(a, b)))) <= DistSq(p, Along(a, b, s))
  {
    hide Sq, DistSq, Dot, Along;
    var len, dot := DistSq(a, b), Dot(a, b, p);
    var vertex := dot / len;
    var t := Clamp(vertex);
    AlongDistSq(a, b, p, s);
    AlongDistSq(a, b, p, t);
    ClampedVertex(len, vertex, s);
    assert dot == vertex * len;
    VertexForm(len, vertex, s);
    VertexForm(len, vertex, t);
  }

  /** No point of the segment is closer to `p` than the one returned. */
  lemma ClosestIsNearest(a: Planar, b: Planar, p: Planar, s: real)
    requires 0.0 <= s <= 1.0
    ensures ClosestPointOnSegment(a, b, p) == Along(a, b, ClosestFraction(a, b, p))
    ensures DistSq(p, ClosestPointOnSegment(a, b, p)) <= DistSq(p, Along(a, b, s))
  {
    SqNonNegative(b.x - a.x);
    SqNonNegative(b.y - a.y);
    if DistSq(a, b) == 0.0 {
      ZeroSquare(b.x - a.x);
      ZeroSquare(b.y - a.y);
      assert Along(a, b, s) == a && Along(a, b, 0.0) == a;
    } else {
      hide Sq, Dot, Along;
      NearestOnProperSegment(a, b, p, s);
    }
  }

  lemma VertexForm(len: real, vertex: real, s: real)
    ensures len * (Sq(s) - 2.0 * s * vertex) == Sq(s) * len - 2.0 * s * (vertex * len)
  {
  }

  lemma ZeroSquare(x: real)
    requires Sq(x) <= 0.0
    ensures x == 0.0
  {
    var y := if x < 0.0 then -x else x;
    assert Sq(y) == Sq(x) && Sq(0.0) == 0.0;
    SqOrder(y, 0.0);
  }

  // ----- Snapping -----

  /** The point a fraction `s` along line segment `j`. */
  function OnLine(points: seq<Planar>, j: nat, s: real): Planar
    requires j + 1 < |points|
  {
    Along(points[j], points[j + 1], s)
  }

  /** Fraction `t` of line segment `i` is where `snapped` lies, at the given chainage. */
  ghost predicate PlacedAt(sqrt: real -> real, points: seq<Planar>, i: nat, t: real, chainageM: real, snapped: Planar) {
    && i + 1 < |points|
    && 0.0 <= t <= 1.0
    && snapped == OnLine(points, i, t)
    && chainageM == ChainageAt(sqrt, points, i) + Mul(t, PlanarDist(sqrt, points[i], points[i + 1]))
  }

  /** No point of line segment `j` is closer to `p` than `q`. */
  ghost predicate NearestOn(points: seq<Planar>, j: nat, p: Planar, q: Planar)
    requires j + 1 < |points|
  {
    forall s :: 0.0 <= s <= 1.0 ==> DistSq(p, q) <= DistSq(p, OnLine(points, j, s))
  }

  /** No point of the first `n` line segments is closer to `p` than `q`. */
  ghost predicate NearestOfFirst(points: seq<Planar>, n: nat, p: Planar, q: Planar)
    requires n < |points|
  {
    forall j :: 0 <= j < n ==> NearestOn(points, j, p, q)
  }

  /** Every point of line segment `j` is strictly farther from `p` than `q`. */
  ghost predicate FartherOn(points: seq<Planar>, j: nat, p: Planar, q: Planar)
    requires j + 1 < |points|
  {
    forall s :: 0.0 <= s <= 1.0 ==> DistSq(p, q) < DistSq(p, OnLine(points, j, s))
  }

  ghost predicate FartherOnFirst(points: seq<Planar>, n: nat, p: Planar, q: Planar)
    requires n < |points|
  {
    forall j :: 0 <= j < n ==> FartherOn(points, j, p, q)
  }

  /** `snapped` is the nearest point of the line, on the first of its segments that comes as near. */
  ghost predicate SnapsOn(sqrt: real -> real, points: seq<Planar>, i: nat, p: Planar, chainageM: real, snapped: Planar) {
    && i + 1 < |points|
    && PlacedAt(sqrt, points, i, ClosestFraction(points[i], points[i + 1], p), chainageM, snapped)
    && NearestOfFirst(points, |points| - 1, p, snapped)
    && FartherOnFirst(points, i, p, snapped)
  }

  /**
   The nearest point of the whole polyline to `p`, and its chainage; the first such segment wins.
   A line of two points is what `SnapStops` and `ProjectStops` demand before they call this.
   */
  method SnapPoint(sqrt: real -> real, points: seq<Planar>, chainage: seq<real>, p: Planar)
    returns (chainageM: real, snapped: Planar)
    requires IsSquareRoot(sqrt) && 2 <= |points|
    requires |chainage| == |points|
    requires forall i :: 0 <= i < |points| ==> chainage[i] == ChainageAt(sqrt, points, i)
    ensures exists i :: SnapsOn(sqrt, points, i, p, chainageM, snapped)
    ensures 0.0 <= chainageM <= ChainageAt(sqrt, points, |points| - 1)
  {
    hide Along, OnLine, DistSq, ChainageAt, PlanarDist, IsSquareRoot, ClosestFraction, Mul;
    chainageM, snapped := SnapTo(sqrt, points, chainage, p, 0);
    var best := PlanarDist(sqrt, p, snapped);
    ghost var seg := 0;
    NearestOfOne(points, 0, p);
    var i := 1;
    while i < |points| - 1
      invariant 1 <= i <= |points| - 1 && seg < i
      invariant PlacedAt(sqrt, points, seg, ClosestFraction(points[seg], points[seg + 1], p), chainageM, snapped)
      invariant FartherOnFirst(points, seg, p, snapped)
      invariant best == PlanarDist(sqrt, p, snapped)
      invariant NearestOfFirst(points, i, p, snapped)
    {
      var c, closest := SnapTo(sqrt, points, chainage, p, i);
      var d := PlanarDist(sqrt, p, closest);
      CompareDist(sqrt, p, closest, snapped);
      NearestOfOne(points, i, p);
      ExtendNearest(points, i, p, closest, snapped);
      if d < best {
        CloserIsFirst(points, i, p, closest, snapped);
        best, chainageM, snapped := d, c, closest;
        seg := i;
      }
      i := i + 1;
    }
    ChainageInRange(sqrt, points, seg, ClosestFraction(points[seg], points[seg + 1], p), chainageM, snapped);
    assert SnapsOn(sqrt, points, seg, p, chainageM, snapped);
  }

  /** The body of the search loop: the closest point of one segment and its chainage. */
  method SnapTo(sqrt: real -> real, points: seq<Planar>, chainage: seq<real>, p: Planar, i: nat)
    returns (chainageM: real, closest: Planar)
    requires i + 1 < |points| && |chainage| == |points| && chainage[i] == ChainageAt(sqrt, points, i)
    ensures closest == ClosestPointOnSegment(points[i], points[i + 1], p)
    ensures PlacedAt(sqrt, points, i, ClosestFraction(points[i], points[i + 1], p), chainageM, closest)
  {
    var a, b := points[i], points[i + 1];
    var t := ClosestFraction(a, b, p);
    closest := ClosestPointOnSegment(a, b, p);
    chainageM := chainage[i] + Mul(t, PlanarDist(sqrt, a, b));
    ClosestIsNearest(a, b, p, 0.0);
  }

  lemma NearestOfOne(points: seq<Planar>, i: nat, p: Planar)
    requires i + 1 < |points|
    ensures NearestOn(points, i, p, ClosestPointOnSegment(points[i], points[i + 1], p))
  {
    hide DistSq, Along, ClosestPointOnSegment;
    var q := ClosestPointOnSegment(points[i], points[i + 1], p);
    forall s | 0.0 <= s <= 1.0 ensures DistSq(p, q) <= DistSq(p, OnLine(points, i, s)) {
      ClosestIsNearest(points[i], points[i + 1], p, s);
    }
  }

  lemma CompareDist(sqrt: real -> real, p: Planar, a: Planar, b: Planar)
    requires IsSquareRoot(sqrt)
    ensures PlanarDist(sqrt, p, a) < PlanarDist(sqrt, p, b) <==> DistSq(p, a) < DistSq(p, b)
  {
    hide DistSq, PlanarDist, Sq;
    DistNonNegative(sqrt, p, a);
    DistNonNegative(sqrt, p, b);
    SqOrder(PlanarDist(sqrt, p, b), PlanarDist(sqrt, p, a));
  }

  lemma ExtendNearest(points: seq<Planar>, n: nat, p: Planar, closest: Planar, snapped: Planar)
    requires n + 1 < |points|
    requires NearestOfFirst(points, n, p, snapped) && NearestOn(points, n, p, closest)
    ensures DistSq(p, closest) < DistSq(p, snapped) ==> NearestOfFirst(points, n + 1, p, closest)
    ensures DistSq(p, snapped) <= DistSq(p, closest) ==> NearestOfFirst(points, n + 1, p, snapped)
  {
    hide DistSq, OnLine;
    if DistSq(p, closest) < DistSq(p, snapped) {
      forall j | 0 <= j < n ensures NearestOn(points, j, p, closest) {
        assert NearestOn(points, j, p, snapped);
      }
    } else {
      assert NearestOn(points, n, p, snapped);
    }
  }

  /** A point closer than the nearest so far is closer than all points so far. */
  lemma CloserIsFirst(points: seq<Planar>, n: nat, p: Planar, closest: Planar, snapped: Planar)
    requires n < |points| && NearestOfFirst(points, n, p, snapped) && DistSq(p, closest) < DistSq(p, snapped)
    ensures FartherOnFirst(points, n, p, closest)
  {
    hide DistSq, OnLine;
    forall j | 0 <= j < n ensures FartherOn(points, j, p, closest) {
      assert NearestOn(points, j, p, snapped);
    }
  }

  lemma NoNearer(points: seq<Planar>, j: nat, t: real, p: Planar, q: Planar, other: Planar)
    requires j + 1 < |points| && NearestOn(points, j, p, q) && 0.0 <= t <= 1.0 && other == OnLine(points, j, t)
    ensures DistSq(p, q) <= DistSq(p, other)
  {
    hide DistSq, OnLine;
  }

  lemma TrulyFarther(points: seq<Planar>, j: nat, t: real, p: Planar, q: Planar, other: Planar)
    requires j + 1 < |points| && FartherOn(points, j, p, q) && 0.0 <= t <= 1.0 && other == OnLine(points, j, t)
    ensures DistSq(p, q) < DistSq(p, other)
  {
    hide DistSq, OnLine;
  }

  /** An earlier segment cannot hold a nearest point as well. */
  lemma FirstSegmentOnly(sqrt: real -> real, points: seq<Planar>, i: nat, i': nat, p: Planar,
                         chainageM: real, snapped: Planar, chainageM': real, snapped': Planar)
    requires SnapsOn(sqrt, points, i, p, chainageM, snapped) && SnapsOn(sqrt, points, i', p, chainageM', snapped')
    ensures i' <= i
  {
    hide DistSq, OnLine, ClosestFraction, ChainageAt, PlanarDist, Mul, NearestOn, FartherOn;
    if i < i' {
      NoNearer(points, i', ClosestFraction(points[i'], points[i' + 1], p), p, snapped, snapped');
      TrulyFarther(points, i, ClosestFraction(points[i], points[i + 1], p), p, snapped', snapped);
    }
  }

  /** Where a point snaps to is determined, also on a line that meets itself. */
  lemma SnapDetermined(sqrt: real -> real, points: seq<Planar>, i: nat, i': nat, p: Planar,
                       chainageM: real, snapped: Planar, chainageM': real, snapped': Planar)
    requires SnapsOn(sqrt, points, i, p, chainageM, snapped) && SnapsOn(sqrt, points, i', p, chainageM', snapped')
    ensures i == i' && chainageM == chainageM' && snapped == snapped'
  {
    FirstSegmentOnly(sqrt, points, i, i', p, chainageM, snapped, chainageM', snapped');
    FirstSegmentOnly(sqrt, points, i', i, p, chainageM', snapped', chainageM, snapped);
    hide NearestOfFirst, FartherOnFirst, OnLine, ClosestFraction, ChainageAt, PlanarDist, Mul;
  }

  lemma ChainageInRange(sqrt: real -> real, points: seq<Planar>, i: nat, t: real, chainageM: real, snapped: Planar)
    requires IsSquareRoot(sqrt)
    requires PlacedAt(sqrt, points, i, t, chainageM, snapped)
    ensures 0.0 <= chainageM <= ChainageAt(sqrt, points, |points| - 1)
  {
    var d := PlanarDist(sqrt, points[i], points[i + 1]);
    assert ChainageAt(sqrt, points, i + 1) == ChainageAt(sqrt, points, i) + d;
    assert ChainageAt(sqrt, points, 0) == 0.0;
    hide PlanarDist, IsSquareRoot, ChainageAt, OnLine, Mul, Sq;
    DistNonNegative(sqrt, points[i], points[i + 1]);
    FractionOf(t, d);
    ChainageMonotone(sqrt, points, 0, i);
    ChainageMonotone(sqrt, points, i + 1, |points| - 1);
  }

  lemma FractionOf(t: real, d: real)
    requires 0.0 <= t <= 1.0 && 0.0 <= d
    ensures 0.0 <= Mul(t, d) <= d
  {
    MulNonNegative(t, d);
    MulOrder(t, 1.0, d);
  }

  // ----- Nearness in coordinates -----

  /** In coordinates: no point of the line is closer to `p` than where it snaps. */
  lemma SnapsNearest(sqrt: real -> real, points: seq<Planar>, i: nat, p: Planar, chainageM: real, snapped: Planar, j: nat, s: real)
    requires SnapsOn(sqrt, points, i, p, chainageM, snapped) && j + 1 < |points| && 0.0 <= s <= 1.0
    ensures Sq(snapped.x - p.x) + Sq(snapped.y - p.y)
            <= Sq(points[j].x + s * (points[j + 1].x - points[j].x) - p.x)
               + Sq(points[j].y + s * (points[j + 1].y - points[j].y) - p.y)
  {
    hide Sq, FartherOnFirst, PlacedAt;
    assert NearestOn(points, j, p, snapped);
    assert DistSq(p, snapped) <= DistSq(p, OnLine(points, j, s));
  }

  /** A point of the line itself snaps to where it is. */
  lemma VertexSnaps(sqrt: real -> real, points: seq<Planar>, i: nat, p: Planar, chainageM: real, snapped: Planar, k: nat)
    requires SnapsOn(sqrt, points, i, p, chainageM, snapped) && k < |points| && p == points[k]
    ensures snapped == p
  {
    var j, s := if k + 1 < |points| then k else k - 1, if k + 1 < |points| then 0.0 else 1.0;
    assert j + 1 < |points|;
    SnapsNearest(sqrt, points, i, p, chainageM, snapped, j, s);
    hide SnapsOn;
    assert Sq(snapped.x - p.x) + Sq(snapped.y - p.y) <= Sq(0.0) + Sq(0.0);
    SqNonNegative(snapped.x - p.x);
    SqNonNegative(snapped.y - p.y);
    assert Sq(0.0) == 0.0;
    ZeroSquare(snapped.x - p.x);
    ZeroSquare(snapped.y - p.y);
  }

  /** Each vertex lies as far along the line as the one before it, plus the distance between the two. */
  lemma ChainageStep(sqrt: real -> real, points: seq<Planar>, i: nat)
    requires IsSquareRoot(sqrt) && i + 1 < |points|
    ensures ChainageAt(sqrt, points, 0) == 0.0
    ensures var d := ChainageAt(sqrt, points, i + 1) - ChainageAt(sqrt, points, i);
            0.0 <= d && Sq(d) == Sq(points[i + 1].x - points[i].x) + Sq(points[i + 1].y - points[i].y)
  {
    DistNonNegative(sqrt, points[i], points[i + 1]);
    hide Sq, IsSquareRoot, PlanarDist;
  }

  lemma Stretched(s: real, x: real)
    ensures Sq(Mul(s, x)) == Mul(Sq(s), Sq(x))
  {
    assert s * x * (s * x) == s * s * (x * x);
  }

  /** A snapped point lies as far beyond the vertex before it as its chainage says. */
  lemma SnappedChainage(sqrt: real -> real, points: seq<Planar>, i: nat, p: Planar, chainageM: real, snapped: Planar)
    requires IsSquareRoot(sqrt) && SnapsOn(sqrt, points, i, p, chainageM, snapped)
    ensures i + 1 < |points|
    ensures var d := chainageM - ChainageAt(sqrt, points, i);
            0.0 <= d && Sq(d) == Sq(snapped.x - points[i].x) + Sq(snapped.y - points[i].y)
  {
    hide NearestOfFirst, FartherOnFirst, ChainageAt;
    var a, b := points[i], points[i + 1];
    var t, len := ClosestFraction(a, b, p), PlanarDist(sqrt, points[i], points[i + 1]);
    AlongAxes(a, b, t);
    DistNonNegative(sqrt, a, b);
    assert snapped == Along(a, b, t) && chainageM - ChainageAt(sqrt, points, i) == Mul(t, len);
    hide Sq, IsSquareRoot, PlanarDist, ClosestFraction, Along, SnapsOn;
    Stretched(t, len);
    Stretched(t, b.x - a.x);
    Stretched(t, b.y - a.y);
    Spread(Sq(t), Sq(b.x - a.x), Sq(b.y - a.y));
    MulNonNegative(t, len);
    assert 0.0 <= Mul(t, len);
  }
}
