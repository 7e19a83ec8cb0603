/**
 A service with one stop more (internal/physics/project.go, `ProjectStops`; internal/transit/compile_physics.go).
 The stop splits one span of the line, or makes a new one at an end, and the spans never take less time in
 all. Compiled seconds are rounded span by span, so those can fall, by one second at most.
 */
module AddedStops {
  import opened Reals
  import opened Sorting
  import opened Projection
  import opened Spans
  import opened SpanRun
  import opened Compilables
  import opened PhysicsCompiler
  import opened ExtraStops
  import opened BoardingWait
  import opened Clustering
  import Kinematics
  import LegTime
  import SpanTime

  function Total(secs: seq<real>): real {
    if secs == [] then 0.0 else secs[0] + Total(secs[1..])
  }

  function TotalRounded(secs: seq<real>): int {
    if secs == [] then 0 else Round(secs[0]) + TotalRounded(secs[1..])
  }

  /** The run times of the spans between neighbours. */
  ghost predicate Timed(sqrt: real -> real, segs: seq<LineSegment>, stops: seq<SnappedStop>, vehicle: VehicleLimits, secs: seq<real>)
    requires ValidVehicle(vehicle)
  {
    && |stops| == |secs| + 1
    && forall k :: 0 <= k < |secs| ==> RunsIn(sqrt, SpanBetween(segs, stops[k], stops[k + 1]), vehicle, secs[k])
  }

  lemma TimedTail(sqrt: real -> real, segs: seq<LineSegment>, stops: seq<SnappedStop>, vehicle: VehicleLimits, secs: seq<real>)
    requires ValidVehicle(vehicle) && Timed(sqrt, segs, stops, vehicle, secs) && secs != []
    ensures Timed(sqrt, segs, stops[1..], vehicle, secs[1..])
    ensures RunsIn(sqrt, SpanBetween(segs, stops[0], stops[1]), vehicle, secs[0])
  {
    hide RunsIn, SpanBetween, ValidVehicle;
    forall k | 0 <= k < |secs| - 1
      ensures RunsIn(sqrt, SpanBetween(segs, stops[1..][k], stops[1..][k + 1]), vehicle, secs[1..][k])
    {
      assert RunsIn(sqrt, SpanBetween(segs, stops[k + 1], stops[k + 2]), vehicle, secs[k + 1]);
    }
  }

  lemma TimedOnce(sqrt: real -> real, segs: seq<LineSegment>, stops: seq<SnappedStop>, vehicle: VehicleLimits, a: seq<real>, b: seq<real>)
    requires ValidVehicle(vehicle) && Timed(sqrt, segs, stops, vehicle, a) && Timed(sqrt, segs, stops, vehicle, b)
    ensures a == b
  {
    hide RunsIn, SpanBetween, ValidVehicle;
    forall k | 0 <= k < |a| ensures a[k] == b[k] {
      SameRun(sqrt, SpanBetween(segs, stops[k], stops[k + 1]), vehicle, a[k], b[k]);
    }
  }

  lemma SpanTakesTime(sqrt: real -> real, span: InterStopSpan, vehicle: VehicleLimits, secs: real)
    requires IsSquareRoot(sqrt) && ValidVehicle(vehicle) && RunsIn(sqrt, span, vehicle, secs)
    ensures 0.0 <= secs && 0 <= Round(secs)
  {
    hide IsSquareRoot, LegsOf;
    if 0.0 < span.distanceM {
      SpanTime.RunTakesTime(sqrt, LegsOf(sqrt, span.segments, vehicle.maxSpeedKMH),
                            Kinematics.Rates(vehicle.accelerationMS2, vehicle.decelerationMS2));
    }
  }

  /** Two parts that take no less than the whole round to at most one second less. */
  lemma RoundedParts(through: real, first: real, second: real)
    requires through <= first + second
    ensures Round(through) <= Round(first) + Round(second) + 1
  {
    assert (Round(through) - Round(first) - Round(second)) as real <= 1.5;
  }

  /**
   One second can fall: 604 m at up to 10 m/s with rates of 50 m/s2 take 60.6 seconds, rounded up, and each
   half takes 30.4, rounded down.
   */
  lemma RoundingCanSave(sqrt: real -> real)
    requires IsSquareRoot(sqrt)
    ensures var r := Kinematics.Rates(50.0, 50.0);
            var whole, half := [Kinematics.Leg(604.0, 10.0)], [Kinematics.Leg(302.0, 10.0)];
            && Kinematics.ValidLegs(whole) && Kinematics.ValidLegs(half)
            && Round(SpanTime.RunSeconds(sqrt, whole, r)) == Round(SpanTime.RunSeconds(sqrt, half, r)) * 2 + 1
  {
    OneLegFromRest(sqrt, 604.0);
    OneLegFromRest(sqrt, 302.0);
    hide SpanTime.RunSeconds;
  }

  lemma OneLegFromRest(sqrt: real -> real, d: real)
    requires IsSquareRoot(sqrt) && 2.0 <= d
    ensures SpanTime.RunSeconds(sqrt, [Kinematics.Leg(d, 10.0)], Kinematics.Rates(50.0, 50.0)) == 0.4 + (d - 2.0) / 10.0
  {
    var leg, r := Kinematics.Leg(d, 10.0), Kinematics.Rates(50.0, 50.0);
    Kinematics.NodeSpeedsFeasible(sqrt, [leg], r);
    var v := Kinematics.NodeSpeeds(sqrt, [leg], r);
    assert v[0] == 0.0 && v[1] == 0.0 && |v| == 2;
    hide Kinematics.NodeSpeeds, IsSquareRoot;
    assert [leg][1..] == [] && |v[1..]| == 1;
    assert SpanTime.TotalSeconds(sqrt, [leg][1..], r, v[1..]) == 0.0;
    assert SpanTime.RunSeconds(sqrt, [leg], r) == LegTime.LegSeconds(sqrt, leg, r, 0.0, 0.0);
  }

  /** The later run times total no less, and their rounded seconds at most one less. */
  ghost predicate NoneSaved(secs: seq<real>, secs': seq<real>) {
    Total(secs) <= Total(secs') && TotalRounded(secs) <= TotalRounded(secs') + 1
  }

  lemma AtStart(sqrt: real -> real, segs: seq<LineSegment>, stops: seq<SnappedStop>, s: SnappedStop, vehicle: VehicleLimits,
                secs: seq<real>, secs': seq<real>)
    requires IsSquareRoot(sqrt) && ValidVehicle(vehicle)
    requires Timed(sqrt, segs, stops, vehicle, secs) && Timed(sqrt, segs, With(stops, 0, s), vehicle, secs')
    ensures NoneSaved(secs, secs')
  {
    hide IsSquareRoot, RunsIn, SpanBetween, ValidVehicle, Round;
    TimedTail(sqrt, segs, With(stops, 0, s), vehicle, secs');
    assert With(stops, 0, s)[1..] == stops;
    TimedOnce(sqrt, segs, stops, vehicle, secs, secs'[1..]);
    SpanTakesTime(sqrt, SpanBetween(segs, With(stops, 0, s)[0], With(stops, 0, s)[1]), vehicle, secs'[0]);
  }

  lemma AfterFirst(sqrt: real -> real, segs: seq<LineSegment>, stops: seq<SnappedStop>, s: SnappedStop, vehicle: VehicleLimits,
                   secs: seq<real>, secs': seq<real>)
    requires IsSquareRoot(sqrt) && ValidVehicle(vehicle) && Contiguous(segs)
    requires 2 <= |stops| && stops[0].chainageM <= s.chainageM <= stops[1].chainageM
    requires Timed(sqrt, segs, stops, vehicle, secs) && Timed(sqrt, segs, With(stops, 1, s), vehicle, secs')
    ensures NoneSaved(secs, secs')
  {
    hide IsSquareRoot, RunsIn, SpanBetween, ValidVehicle, Round, Contiguous;
    var stops' := With(stops, 1, s);
    assert stops'[0] == stops[0] && stops'[1] == s && stops'[2] == stops[1];
    TimedTail(sqrt, segs, stops, vehicle, secs);
    TimedTail(sqrt, segs, stops', vehicle, secs');
    TimedTail(sqrt, segs, stops'[1..], vehicle, secs'[1..]);
    assert stops'[1..][1..] == stops[1..];
    TimedOnce(sqrt, segs, stops[1..], vehicle, secs[1..], secs'[1..][1..]);
    AddedStopNeverSaves(sqrt, segs, stops[0], s, stops[1], vehicle, secs[0], secs'[0], secs'[1]);
    RoundedParts(secs[0], secs'[0], secs'[1]);
    assert secs'[1..][0] == secs'[1] && secs'[1..] != [];
    assert Total(secs') == secs'[0] + (secs'[1] + Total(secs[1..]));
    assert TotalRounded(secs') == Round(secs'[0]) + (Round(secs'[1]) + TotalRounded(secs[1..]));
  }

  /** One stop more among stops in chainage order. */
  lemma {:induction false} OneStopMore(sqrt: real -> real, segs: seq<LineSegment>, stops: seq<SnappedStop>, q: nat, s: SnappedStop,
                                       vehicle: VehicleLimits, secs: seq<real>, secs': seq<real>)
    requires IsSquareRoot(sqrt) && ValidVehicle(vehicle) && Contiguous(segs)
    requires q <= |stops| && Sorted(With(stops, q, s), Before)
    requires Timed(sqrt, segs, stops, vehicle, secs) && Timed(sqrt, segs, With(stops, q, s), vehicle, secs')
    ensures NoneSaved(secs, secs')
  {
    hide IsSquareRoot, RunsIn, SpanBetween, ValidVehicle, Round, Contiguous;
    var stops' := With(stops, q, s);
    if q == 0 {
      AtStart(sqrt, segs, stops, s, vehicle, secs, secs');
    } else if |stops| == 1 {
      TimedTail(sqrt, segs, stops', vehicle, secs');
      SpanTakesTime(sqrt, SpanBetween(segs, stops'[0], stops'[1]), vehicle, secs'[0]);
      assert secs'[1..] == [];
    } else if q == 1 {
      assert stops'[0] == stops[0] && stops'[1] == s && stops'[2] == stops[1];
      assert !Before(stops'[1], stops'[0]) && !Before(stops'[2], stops'[1]);
      AfterFirst(sqrt, segs, stops, s, vehicle, secs, secs');
    } else {
      WithTail(stops, q, s);
      assert stops'[1] == stops[1];
      TimedTail(sqrt, segs, stops, vehicle, secs);
      TimedTail(sqrt, segs, stops', vehicle, secs');
      SameRun(sqrt, SpanBetween(segs, stops[0], stops[1]), vehicle, secs[0], secs'[0]);
      SortedRest(stops', Before);
      OneStopMore(sqrt, segs, stops[1..], q - 1, s, vehicle, secs[1..], secs'[1..]);
    }
  }

  // ----- A compiled service -----

  /** The same service with one stop more in its list. */
  ghost predicate OneCallMore(svc: CompilableService, p: nat, call: CompilableStop, svc': CompilableService) {
    p <= |svc.stops| && svc' == svc.(stops := With(svc.stops, p, call))
  }

  lemma WithAgrees<T>(s: seq<T>, t: seq<T>, p: nat)
    requires p <= |s| && |t| == |s| + 1
    requires forall i :: 0 <= i < p ==> s[i] == t[i]
    requires forall i :: p <= i < |s| ==> s[i] == t[i + 1]
    ensures t == With(s, p, t[p])
  {
    assert t[..p] == s[..p] && t[p + 1..] == s[p..];
    assert t == t[..p] + [t[p]] + t[p + 1..];
  }

  lemma SameCall(sqrt: real -> real, project: (seq<Point>, Point) -> Planar, svc: CompilableService, i: nat,
                 svc': CompilableService, j: nat, placed: seq<SnappedStop>, placed': seq<SnappedStop>)
    requires 2 <= |svc.route.line| && svc'.route == svc.route && i < |svc.stops| && j < |svc'.stops| && svc.stops[i] == svc'.stops[j]
    requires Placed(sqrt, project, svc, placed) && Placed(sqrt, project, svc', placed')
    ensures i < |placed| && j < |placed'| && placed[i] == placed'[j]
  {
    hide SnappedTo;
    assert CallsOf(project, svc')[j] == CallsOf(project, svc)[i];
    SnappedDetermined(sqrt, LineOf(project, svc), CallsOf(project, svc)[i], placed[i], placed'[j]);
  }

  lemma PlacedWith(sqrt: real -> real, project: (seq<Point>, Point) -> Planar, svc: CompilableService, p: nat, call: CompilableStop,
                   svc': CompilableService, placed: seq<SnappedStop>, placed': seq<SnappedStop>)
    requires 2 <= |svc.route.line| && OneCallMore(svc, p, call, svc')
    requires Placed(sqrt, project, svc, placed) && Placed(sqrt, project, svc', placed')
    ensures |placed'| == |placed| + 1 && placed' == With(placed, p, placed'[p])
  {
    hide SnappedTo;
    assert |placed'| == |placed| + 1;
    forall i | 0 <= i < p ensures placed[i] == placed'[i] {
      SameCall(sqrt, project, svc, i, svc', i, placed, placed');
    }
    forall i | p <= i < |placed| ensures placed[i] == placed'[i + 1] {
      SameCall(sqrt, project, svc, i, svc', i + 1, placed, placed');
    }
    WithAgrees(placed, placed', p);
  }

  /** Both edges of a span take its rounded run and their own dwell. */
  ghost predicate PairTakes(edges: seq<Edge>, k: nat, secs: real) {
    && 2 * k + 1 < |edges|
    && edges[2 * k].seconds - edges[2 * k].dwellS == Round(secs) == edges[2 * k + 1].seconds - edges[2 * k + 1].dwellS
  }

  /** The run times behind the edges. */
  ghost predicate RunTimes(sg: ServiceGraph, secs: seq<real>) {
    |sg.edges| == 2 * |secs| && forall k :: 0 <= k < |secs| ==> PairTakes(sg.edges, k, secs[k])
  }

  /** A run time that is the span's and stands behind its edges. */
  ghost predicate TakenAt(sqrt: real -> real, segs: seq<LineSegment>, stops: seq<SnappedStop>, vehicle: VehicleLimits,
                          edges: seq<Edge>, k: nat, secs: real)
    requires ValidVehicle(vehicle)
  {
    k + 1 < |stops| && RunsIn(sqrt, SpanBetween(segs, stops[k], stops[k + 1]), vehicle, secs) && PairTakes(edges, k, secs)
  }

  lemma TimeAt(sqrt: real -> real, project: (seq<Point>, Point) -> Planar, svc: CompilableService, global: Policy,
               placed: seq<SnappedStop>, sg: ServiceGraph, k: nat) returns (secs: real)
    requires Fault(svc, global).None? && CompiledFrom(sqrt, project, svc, global, placed, sg) && k + 1 < |svc.stops|
    ensures TakenAt(sqrt, TrackOf(sqrt, project, svc), StableSort(placed, Before), VehicleOf(svc), sg.edges, k, secs)
  {
    PlacedLength(sqrt, project, svc, placed);
    var span := EdgesFor(sqrt, project, svc, global, placed, sg, k);
    hide RunsIn, Round, StableSort, TrackOf, SpanBetween, SpanEdges, CompiledFrom, Placed, Fault, ValidVehicle;
    var t, from, to := BehindEdges(sqrt, svc, span, sg.edges[2 * k], sg.edges[2 * k + 1]);
    secs := t;
  }

  lemma {:induction false} TimesUpTo(sqrt: real -> real, project: (seq<Point>, Point) -> Planar, svc: CompilableService, global: Policy,
                                     placed: seq<SnappedStop>, sg: ServiceGraph, n: nat) returns (secs: seq<real>)
    requires Fault(svc, global).None? && CompiledFrom(sqrt, project, svc, global, placed, sg) && n + 1 <= |svc.stops|
    ensures |secs| == n
    ensures forall k :: 0 <= k < n ==>
              TakenAt(sqrt, TrackOf(sqrt, project, svc), StableSort(placed, Before), VehicleOf(svc), sg.edges, k, secs[k])
  {
    hide TakenAt, CompiledFrom, StableSort, TrackOf, Fault, ValidVehicle;
    secs := [];
    if n > 0 {
      var front := TimesUpTo(sqrt, project, svc, global, placed, sg, n - 1);
      var t := TimeAt(sqrt, project, svc, global, placed, sg, n - 1);
      secs := front + [t];
    }
  }

  lemma AllTaken(sqrt: real -> real, segs: seq<LineSegment>, stops: seq<SnappedStop>, vehicle: VehicleLimits, sg: ServiceGraph,
                 secs: seq<real>)
    requires ValidVehicle(vehicle) && |stops| == |secs| + 1 && |sg.edges| == 2 * |secs|
    requires forall k :: 0 <= k < |secs| ==> TakenAt(sqrt, segs, stops, vehicle, sg.edges, k, secs[k])
    ensures Timed(sqrt, segs, stops, vehicle, secs) && RunTimes(sg, secs)
  {
    hide RunsIn, SpanBetween, PairTakes, ValidVehicle;
  }

  lemma TimesOf(sqrt: real -> real, project: (seq<Point>, Point) -> Planar, svc: CompilableService, global: Policy,
                placed: seq<SnappedStop>, sg: ServiceGraph) returns (secs: seq<real>)
    requires Fault(svc, global).None? && CompiledFrom(sqrt, project, svc, global, placed, sg)
    ensures Timed(sqrt, TrackOf(sqrt, project, svc), StableSort(placed, Before), VehicleOf(svc), secs)
    ensures RunTimes(sg, secs)
  {
    PlacedLength(sqrt, project, svc, placed);
    secs := TimesUpTo(sqrt, project, svc, global, placed, sg, |svc.stops| - 1);
    hide TakenAt, StableSort, TrackOf, EdgesAt, Placed, WaitOf, DistinctSlugs;
    AllTaken(sqrt, TrackOf(sqrt, project, svc), StableSort(placed, Before), VehicleOf(svc), sg, secs);
  }

  /** The run seconds of the forward edges, dwell left out. */
  function RunTotal(edges: seq<Edge>): int {
    if |edges| < 2 then 0 else edges[0].seconds - edges[0].dwellS + RunTotal(edges[2..])
  }

  lemma {:induction false} RunTotalRounded(sg: ServiceGraph, secs: seq<real>)
    requires RunTimes(sg, secs)
    ensures RunTotal(sg.edges) == TotalRounded(secs)
    decreases |secs|
  {
    hide Round;
    if secs != [] {
      var rest := sg.(edges := sg.edges[2..]);
      forall k | 0 <= k < |secs| - 1 ensures PairTakes(rest.edges, k, secs[1..][k]) {
        assert PairTakes(sg.edges, k + 1, secs[k + 1]);
      }
      RunTotalRounded(rest, secs[1..]);
      assert PairTakes(sg.edges, 0, secs[0]);
    }
  }

  /**
   A service with one stop more, wherever it stands in the list: the run times behind its edges total at
   least as much as before, and the compiled seconds at most one second less.
   */
  lemma AddedStopCompiled(sqrt: real -> real, project: (seq<Point>, Point) -> Planar, global: Policy,
                          svc: CompilableService, p: nat, call: CompilableStop, svc': CompilableService,
                          placed: seq<SnappedStop>, sg: ServiceGraph, placed': seq<SnappedStop>, sg': ServiceGraph)
    returns (secs: seq<real>, secs': seq<real>)
    requires IsSquareRoot(sqrt) && OneCallMore(svc, p, call, svc')
    requires Fault(svc, global).None? && CompiledFrom(sqrt, project, svc, global, placed, sg)
    requires Fault(svc', global).None? && CompiledFrom(sqrt, project, svc', global, placed', sg')
    ensures RunTimes(sg, secs) && RunTimes(sg', secs') && Total(secs) <= Total(secs')
    ensures RunTotal(sg.edges) <= RunTotal(sg'.edges) + 1
  {
    hide RunsIn, Round, Timed, Placed, StableSort, TrackOf, EdgesAt, WaitOf, DistinctSlugs, ValidVehicle, LineOf, CallsOf, IsSquareRoot,
         Sorted, WeakOrder, Before, RunTimes, RunTotal, Total, TotalRounded, Contiguous, With;
    secs := TimesOf(sqrt, project, svc, global, placed, sg);
    secs' := TimesOf(sqrt, project, svc', global, placed', sg');
    PlacedWith(sqrt, project, svc, p, call, svc', placed, placed');
    assert p < |placed'| by { PlacedLength(sqrt, project, svc, placed); }
    BeforeIsWeakOrder();
    var q := StableSortWith(placed, p, placed'[p], Before);
    StableSortSorted(placed', Before);
    TrackContiguous(sqrt, project, svc);
    assert TrackOf(sqrt, project, svc') == TrackOf(sqrt, project, svc) by { SameTrack(sqrt, project, svc, p, call, svc'); }
    OneStopMore(sqrt, TrackOf(sqrt, project, svc), StableSort(placed, Before), q, placed'[p], VehicleOf(svc), secs, secs');
    RunTotalRounded(sg, secs);
    RunTotalRounded(sg', secs');
  }

  lemma SameTrack(sqrt: real -> real, project: (seq<Point>, Point) -> Planar, svc: CompilableService, p: nat, call: CompilableStop,
                  svc': CompilableService)
    requires OneCallMore(svc, p, call, svc') && 2 <= |svc.route.line|
    requires svc.route.segments == [] || |svc.route.segments| == |svc.route.line| - 1
    ensures TrackOf(sqrt, project, svc') == TrackOf(sqrt, project, svc)
  {
    hide With, LineSegments;
  }

  lemma TrackContiguous(sqrt: real -> real, project: (seq<Point>, Point) -> Planar, svc: CompilableService)
    requires IsSquareRoot(sqrt) && 2 <= |svc.route.line|
    requires svc.route.segments == [] || |svc.route.segments| == |svc.route.line| - 1
    ensures Contiguous(TrackOf(sqrt, project, svc))
  {
    hide IsSquareRoot, LineSegments, Contiguous, LineOf;
    LineContiguous(sqrt, LineOf(project, svc), PhysicsOrLevel(svc.route.segments, |svc.route.line| - 1));
  }
}
