/**
 What the edges of a compiled service say (internal/transit/compile_physics.go), in terms of the service's
 own fields: which stops they join, where these lie, and in what time its vehicle can be driven between them.
 */
module CompiledEdges {
  import opened Reals
  import opened Sorting
  import opened Kinematics
  import opened Projection
  import opened Spans
  import opened SpanRun
  import opened SpeedLimits
  import opened BoardingWait
  import opened Clustering
  import opened Compilables
  import opened PhysicsCompiler
  import ExtraStops

  // ----- Times -----

  /** The edges' seconds less their dwell are this run time to the nearest second. */
  ghost predicate RoundedTo(fwd: Edge, rev: Edge, secs: real) {
    && secs - 0.5 <= (fwd.seconds - fwd.dwellS) as real <= secs + 0.5
    && rev.seconds - rev.dwellS == fwd.seconds - fwd.dwellS
  }

  lemma NoLegs(accel: real, decel: real)
    ensures LeastJourney([], accel, decel, 0.0)
  {
    var none: seq<seq<Drives.Phase>> := [];
    assert Drives.Travels(none, 0.0, [], accel, decel) && Drives.JourneySecs(none) == 0.0;
  }

  /** A span's run time is the least for its pieces, also when it has none. */
  lemma SpanRunIsLeast(sqrt: real -> real, span: InterStopSpan, vehicle: VehicleLimits, secs: real) returns (legs: seq<Leg>)
    requires IsSquareRoot(sqrt) && ValidVehicle(vehicle) && RunsIn(sqrt, span, vehicle, secs)
    requires span.distanceM <= 0.0 ==> span.segments == []
    ensures OwnLegs(span.segments, vehicle.maxSpeedKMH, legs)
    ensures LeastJourney(legs, vehicle.accelerationMS2, vehicle.decelerationMS2, secs)
  {
    hide IsSquareRoot, LeastJourney, OwnLegs, LegsOf;
    legs := LegsOf(sqrt, span.segments, vehicle.maxSpeedKMH);
    LegsOwn(sqrt, span.segments, vehicle.maxSpeedKMH);
    if span.distanceM <= 0.0 {
      NoLegs(vehicle.accelerationMS2, vehicle.decelerationMS2);
    } else {
      RunIsLeast(sqrt, legs, vehicle.accelerationMS2, vehicle.decelerationMS2);
    }
  }

  lemma RunBetweenIsLeast(sqrt: real -> real, track: seq<LineSegment>, a: SnappedStop, b: SnappedStop, vehicle: VehicleLimits, secs: real)
    returns (legs: seq<Leg>)
    requires IsSquareRoot(sqrt) && ValidVehicle(vehicle) && a.chainageM <= b.chainageM
    requires RunsIn(sqrt, SpanBetween(track, a, b), vehicle, secs)
    ensures OwnLegs(Split(track, a.chainageM, b.chainageM), vehicle.maxSpeedKMH, legs)
    ensures LeastJourney(legs, vehicle.accelerationMS2, vehicle.decelerationMS2, secs)
  {
    if b.chainageM == a.chainageM {
      ExtraStops.EmptySpan(track, a.chainageM);
    }
    hide IsSquareRoot, Split, RunsIn, OwnLegs, LeastJourney, ValidVehicle;
    legs := SpanRunIsLeast(sqrt, SpanBetween(track, a, b), vehicle, secs);
  }

  // ----- Which edges -----

  /** Stops `i` and `j` of the service are the two ends of edges `2k` and `2k + 1`. */
  ghost predicate JoinedBy(svc: CompilableService, placed: seq<SnappedStop>, i: nat, j: nat, fwd: Edge, rev: Edge) {
    && i < |svc.stops| == |placed| && j < |svc.stops|
    && placed[i].chainageM <= placed[j].chainageM
    && fwd.fromSlug == rev.toSlug == svc.stops[i].slug && fwd.toSlug == rev.fromSlug == svc.stops[j].slug
    && fwd.dwellS == svc.stops[j].dwellS && rev.dwellS == svc.stops[i].dwellS
    && fwd.routeId == rev.routeId == svc.route.id
    && fwd.fromChainageM == rev.toChainageM == placed[i].chainageM
    && fwd.toChainageM == rev.fromChainageM == placed[j].chainageM
  }

  /** No stop lies between the two. */
  ghost predicate Neighbours(placed: seq<SnappedStop>, i: nat, j: nat)
    requires i < |placed| && j < |placed|
  {
    forall m :: 0 <= m < |placed| ==> placed[m].chainageM <= placed[i].chainageM || placed[j].chainageM <= placed[m].chainageM
  }

  lemma NoneBetween(ordered: seq<SnappedStop>, k: nat, n: nat)
    requires Sorted(ordered, Before) && k + 1 < |ordered| && n < |ordered|
    ensures ordered[k].chainageM <= ordered[k + 1].chainageM
    ensures ordered[n].chainageM <= ordered[k].chainageM || ordered[k + 1].chainageM <= ordered[n].chainageM
  {
    assert !Before(ordered[k + 1], ordered[k]);
    if n < k {
      assert !Before(ordered[k], ordered[n]);
    } else if k + 1 < n {
      assert !Before(ordered[n], ordered[k + 1]);
    }
  }

  lemma PlaceOfStop(placed: seq<SnappedStop>, m: nat) returns (n: nat)
    requires m < |placed|
    ensures n < |placed| && StableSort(placed, Before)[n] == placed[m]
  {
    SortedElements(placed, Before, placed[m]);
    hide StableSort;
    assert placed[m] in placed;
    n :| 0 <= n < |placed| && StableSort(placed, Before)[n] == placed[m];
  }

  lemma NeighboursInOrder(placed: seq<SnappedStop>, k: nat, i: nat, j: nat)
    requires k + 1 < |placed| && i < |placed| && j < |placed|
    requires placed[i] == StableSort(placed, Before)[k] && placed[j] == StableSort(placed, Before)[k + 1]
    ensures placed[i].chainageM <= placed[j].chainageM && Neighbours(placed, i, j)
  {
    BeforeIsWeakOrder();
    StableSortSorted(placed, Before);
    hide StableSort, Sorted, Before, WeakOrder;
    NoneBetween(StableSort(placed, Before), k, k);
    forall m | 0 <= m < |placed|
      ensures placed[m].chainageM <= placed[i].chainageM || placed[j].chainageM <= placed[m].chainageM
    {
      var n := PlaceOfStop(placed, m);
      NoneBetween(StableSort(placed, Before), k, n);
    }
  }

  lemma PlaceInOrder(placed: seq<SnappedStop>, k: nat) returns (i: nat)
    requires k < |placed|
    ensures i < |placed| && placed[i] == StableSort(placed, Before)[k]
  {
    var ordered := StableSort(placed, Before);
    assert ordered[k] in ordered;
    SortedElements(placed, Before, ordered[k]);
    hide StableSort;
    i :| 0 <= i < |placed| && placed[i] == ordered[k];
  }

  lemma WhatNeedsNoFault(svc: CompilableService, global: Policy)
    requires Fault(svc, global).None?
    ensures 2 <= |svc.route.line| && 2 <= |svc.stops| && DistinctSlugs(svc.stops)
    ensures svc.route.segments == [] || |svc.route.segments| == |svc.route.line| - 1
    ensures ValidVehicle(VehicleOf(svc))
  {
    hide DistinctSlugs, WaitOf, ValidVehicle;
  }

  /** The stop of that slug is the one placed there. */
  lemma StopPlaced(sqrt: real -> real, project: (seq<Point>, Point) -> Planar, svc: CompilableService, placed: seq<SnappedStop>,
                   i: nat, stop: CompilableStop)
    requires 2 <= |svc.route.line| && Placed(sqrt, project, svc, placed) && DistinctSlugs(svc.stops)
    requires i < |placed| && stop in svc.stops && stop.slug == placed[i].id
    ensures i < |svc.stops| == |placed| && svc.stops[i] == stop
  {
    PlacedLength(sqrt, project, svc, placed);
    PlacedIds(sqrt, project, svc, placed);
    hide Placed, DistinctSlugs;
    OneStopOfSlug(svc.stops, svc.stops[i], stop);
  }

  lemma StopsArePlaced(sqrt: real -> real, project: (seq<Point>, Point) -> Planar, svc: CompilableService, global: Policy,
                       placed: seq<SnappedStop>, sg: ServiceGraph)
    requires Fault(svc, global).None? && CompiledFrom(sqrt, project, svc, global, placed, sg)
    ensures 2 <= |svc.route.line| && Placed(sqrt, project, svc, placed) && |placed| == |svc.stops|
    ensures |sg.edges| == 2 * (|svc.stops| - 1)
  {
    hide EdgesAt, WaitOf, SpansFrom, SnappedTo, DistinctSlugs;
  }

  /** Edges made of a run time and two stops, as the compiler makes them. */
  ghost predicate MadeOf(svc: CompilableService, a: SnappedStop, b: SnappedStop, from: CompilableStop, to: CompilableStop,
                         secs: real, fwd: Edge, rev: Edge) {
    && from in svc.stops && from.slug == a.id && to in svc.stops && to.slug == b.id
    && fwd == Edge(from.slug, to.slug, Round(secs) + to.dwellS, to.dwellS, svc.route.id, a.chainageM, b.chainageM)
    && rev == Edge(to.slug, from.slug, Round(secs) + from.dwellS, from.dwellS, svc.route.id, b.chainageM, a.chainageM)
  }

  lemma PairAt(sqrt: real -> real, project: (seq<Point>, Point) -> Planar, svc: CompilableService, global: Policy,
               placed: seq<SnappedStop>, sg: ServiceGraph, k: nat)
    returns (secs: real, from: CompilableStop, to: CompilableStop)
    requires Fault(svc, global).None? && CompiledFrom(sqrt, project, svc, global, placed, sg)
    requires k + 1 < |svc.stops| == |placed|
    ensures 2 * k + 1 < |sg.edges|
    ensures var a, b := StableSort(placed, Before)[k], StableSort(placed, Before)[k + 1];
            && RunsIn(sqrt, SpanBetween(TrackOf(sqrt, project, svc), a, b), VehicleOf(svc), secs)
            && MadeOf(svc, a, b, from, to, secs, sg.edges[2 * k], sg.edges[2 * k + 1])
  {
    WhatNeedsNoFault(svc, global);
    hide Fault, CompiledFrom, StableSort, TrackOf, RunsIn, SpanEdges, Split, ValidVehicle, Round, DistinctSlugs;
    var span := EdgesFor(sqrt, project, svc, global, placed, sg, k);
    var t, x, y := BehindEdges(sqrt, svc, span, sg.edges[2 * k], sg.edges[2 * k + 1]);
    secs, from, to := t, x, y;
  }

  lemma PairJoins(sqrt: real -> real, project: (seq<Point>, Point) -> Planar, svc: CompilableService, placed: seq<SnappedStop>,
                  i: nat, j: nat, from: CompilableStop, to: CompilableStop, secs: real, fwd: Edge, rev: Edge)
    requires 2 <= |svc.route.line| && Placed(sqrt, project, svc, placed) && DistinctSlugs(svc.stops)
    requires i < |placed| && j < |placed| && placed[i].chainageM <= placed[j].chainageM
    requires MadeOf(svc, placed[i], placed[j], from, to, secs, fwd, rev)
    ensures JoinedBy(svc, placed, i, j, fwd, rev) && RoundedTo(fwd, rev, secs)
  {
    hide Placed, DistinctSlugs;
    StopPlaced(sqrt, project, svc, placed, i, from);
    StopPlaced(sqrt, project, svc, placed, j, to);
  }

  /**
   The edges of the `k`-th span join two stops of the service between which no other lies. They carry the
   dwell of where each ends, the route, and the chainages where the two stops snap. Their seconds less the
   dwell are, to the nearest second, the least time in which the service's own vehicle, at its own
   acceleration and braking, can be driven from rest to rest over the track between the two.
   */
  lemma CompiledPair(sqrt: real -> real, project: (seq<Point>, Point) -> Planar, svc: CompilableService, global: Policy,
                     placed: seq<SnappedStop>, sg: ServiceGraph, k: nat)
    returns (i: nat, j: nat, legs: seq<Leg>, secs: real)
    requires IsSquareRoot(sqrt) && Fault(svc, global).None? && CompiledFrom(sqrt, project, svc, global, placed, sg)
    requires k + 1 < |svc.stops|
    ensures 2 * k + 1 < |sg.edges| && i < |svc.stops| == |placed| && j < |svc.stops|
    ensures var fwd, rev := sg.edges[2 * k], sg.edges[2 * k + 1];
            && fwd.fromSlug == rev.toSlug == svc.stops[i].slug && fwd.toSlug == rev.fromSlug == svc.stops[j].slug
            && fwd.dwellS == svc.stops[j].dwellS && rev.dwellS == svc.stops[i].dwellS
            && fwd.routeId == rev.routeId == svc.route.id
            && fwd.fromChainageM == rev.toChainageM == placed[i].chainageM
            && fwd.toChainageM == rev.fromChainageM == placed[j].chainageM
            && secs - 0.5 <= (fwd.seconds - fwd.dwellS) as real <= secs + 0.5
            && rev.seconds - rev.dwellS == fwd.seconds - fwd.dwellS
    ensures placed[i].chainageM <= placed[j].chainageM
    ensures forall m :: 0 <= m < |placed| ==> placed[m].chainageM <= placed[i].chainageM || placed[j].chainageM <= placed[m].chainageM
    ensures 2 <= |svc.route.line| && (svc.route.segments == [] || |svc.route.segments| == |svc.route.line| - 1)
    ensures OwnLegs(Split(TrackOf(sqrt, project, svc), placed[i].chainageM, placed[j].chainageM), svc.vehicle.maxSpeedKMH, legs)
    ensures LeastJourney(legs, svc.vehicle.accelerationMS2, svc.vehicle.decelerationMS2, secs)
  {
    hide IsSquareRoot, DistinctSlugs, TrackOf, StableSort, Split, LeastJourney, OwnLegs, RunsIn, ValidVehicle, Fault,
         CompiledFrom, Placed, MadeOf, SpanBetween;
    WhatNeedsNoFault(svc, global);
    StopsArePlaced(sqrt, project, svc, global, placed, sg);
    var t, from, to := PairAt(sqrt, project, svc, global, placed, sg, k);
    i := PlaceInOrder(placed, k);
    j := PlaceInOrder(placed, k + 1);
    NeighboursInOrder(placed, k, i, j);
    PairJoins(sqrt, project, svc, placed, i, j, from, to, t, sg.edges[2 * k], sg.edges[2 * k + 1]);
    secs := t;
    legs := RunBetweenIsLeast(sqrt, TrackOf(sqrt, project, svc), placed[i], placed[j], VehicleOf(svc), secs);
  }

  /**
   The track between two chainages, in line order: one piece for every segment of the route that shares some
   length with them, of that length, with the segment's own curve, cant and slope, or straight and level
   where the route gives none.
   */
  lemma TrackBetween(sqrt: real -> real, project: (seq<Point>, Point) -> Planar, svc: CompilableService, fromM: real, toM: real)
    returns (at: seq<nat>)
    requires 2 <= |svc.route.line| && (svc.route.segments == [] || |svc.route.segments| == |svc.route.line| - 1)
    ensures var points, pieces := LineOf(project, svc), Split(TrackOf(sqrt, project, svc), fromM, toM);
            && |at| == |pieces|
            && (forall k :: 0 <= k < |at| ==>
                  && at[k] + 1 < |points|
                  && 0.0 < pieces[k].distanceM
                     == Min(ChainageAt(sqrt, points, at[k] + 1), toM) - Max(ChainageAt(sqrt, points, at[k]), fromM)
                  && pieces[k].physics == if svc.route.segments == [] then Segment(0.0, 0.0, 0.0) else svc.route.segments[at[k]])
            && (forall k, l :: 0 <= k < l < |at| ==> at[k] < at[l])
            && (forall i: nat | i + 1 < |points|
                  && Max(ChainageAt(sqrt, points, i), fromM) < Min(ChainageAt(sqrt, points, i + 1), toM) :: i in at)
  {
    hide ChainageAt, Split, LineOf, Min, Max;
    var track := TrackOf(sqrt, project, svc);
    at := SplitPieces(track, fromM, toM);
    forall i: nat | i + 1 < |LineOf(project, svc)|
      && Max(ChainageAt(sqrt, LineOf(project, svc), i), fromM) < Min(ChainageAt(sqrt, LineOf(project, svc), i + 1), toM)
      ensures i in at
    {
      assert track[i].startM == ChainageAt(sqrt, LineOf(project, svc), i);
      assert track[i].endM == ChainageAt(sqrt, LineOf(project, svc), i + 1);
    }
  }

  /** A stop authored on a vertex of its route snaps to that vertex, with no offset. */
  lemma StopOnVertex(sqrt: real -> real, project: (seq<Point>, Point) -> Planar, svc: CompilableService, placed: seq<SnappedStop>,
                     i: nat, k: nat)
    requires IsSquareRoot(sqrt) && 2 <= |svc.route.line| && Placed(sqrt, project, svc, placed)
    requires i < |svc.stops| && k < |svc.route.line|
    requires svc.stops[i].lng == svc.route.line[k].lng && svc.stops[i].lat == svc.route.line[k].lat
    ensures i < |placed| && placed[i].point == project(svc.route.line, svc.route.line[k]) && placed[i].offsetM == 0.0
  {
    var points, call := LineOf(project, svc), CallsOf(project, svc)[i];
    assert SnappedTo(sqrt, points, call, placed[i]);
    assert Point(svc.stops[i].lng, svc.stops[i].lat) == svc.route.line[k];
    assert call.at == points[k];
    hide SnapsOn, LineOf, CallsOf, Placed;
    var s :| SnapsOn(sqrt, points, s, call.at, placed[i].chainageM, placed[i].point);
    VertexSnaps(sqrt, points, s, call.at, placed[i].chainageM, placed[i].point, k);
    DistNonNegative(sqrt, call.at, call.at);
    assert DistSq(call.at, call.at) == 0.0;
    hide DistSq;
    ZeroSquare(PlanarDist(sqrt, call.at, call.at));
  }

  /** The wait on a compiled service is the one its own override gives, or else the scenario's. */
  lemma CompiledWait(sqrt: real -> real, project: (seq<Point>, Point) -> Planar, svc: CompilableService, global: Policy,
                     placed: seq<SnappedStop>, sg: ServiceGraph)
    requires Fault(svc, global).None? && CompiledFrom(sqrt, project, svc, global, placed, sg)
    ensures sg.serviceId == svc.id
    ensures svc.boardingWait.Some? ==> WaitOfOverride(svc.boardingWait.value, svc.windows, BoardingWait.Ok((sg.waitPolicy, sg.waitSecs)))
    ensures svc.boardingWait.None? && svc.scenarioBoardingWait.Some? ==>
              WaitOfOverride(svc.scenarioBoardingWait.value, svc.windows, BoardingWait.Ok((sg.waitPolicy, sg.waitSecs)))
  {
    OwnOverrideDecides(svc.boardingWait, svc.scenarioBoardingWait, global, svc.windows);
    hide WaitOfOverride, Placed, EdgesAt, SpansFrom, DistinctSlugs, WaitFor;
  }
}
