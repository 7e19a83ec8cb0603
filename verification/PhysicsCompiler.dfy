/**
 `CompileServicePhysics` (internal/transit/compile_physics.go): one service on one alignment, timed span
 by span. `project` places a geographic point on the plane of a line; its trigonometry is not modelled.
 */
module PhysicsCompiler {
  import opened Collections
  import opened Reals
  import opened Projection
  import opened Sorting
  import opened Spans
  import opened BoardingWait
  import opened Compilables
  import opened Clustering
  import Kinematics
  import SpanRun
  import SpanTime

  datatype CompileError = ShortRoute | SegmentMismatch | DuplicateSlug | TooFewCalls | BadWait | BadVehicle

  datatype Compiled = Graph(graph: ServiceGraph) | Failed(error: CompileError)

  // ----- When a service compiles -----

  ghost predicate DistinctSlugs(stops: seq<CompilableStop>) {
    forall i, j :: 0 <= i < j < |stops| ==> stops[i].slug != stops[j].slug
  }

  function VehicleOf(svc: CompilableService): SpanRun.VehicleLimits {
    SpanRun.VehicleLimits(svc.vehicle.maxSpeedKMH, svc.vehicle.accelerationMS2, svc.vehicle.decelerationMS2)
  }

  function WaitOf(svc: CompilableService, global: Policy): Result<(string, int)> {
    WaitFor(svc.boardingWait, svc.scenarioBoardingWait, global, svc.windows)
  }

  /** The first check a service fails. Nothing else can fail, timing included. */
  ghost function Fault(svc: CompilableService, global: Policy): Option<CompileError> {
    var line, segs := svc.route.line, svc.route.segments;
    if |line| < 2 then Some(ShortRoute)
    else if segs != [] && |segs| != |line| - 1 then Some(SegmentMismatch)
    else if !DistinctSlugs(svc.stops) then Some(DuplicateSlug)
    else if |svc.stops| < 2 then Some(TooFewCalls)
    else if WaitOf(svc, global).Err? then Some(BadWait)
    else if !SpanRun.ValidVehicle(VehicleOf(svc)) then Some(BadVehicle)
    else None
  }

  /** The checks in order, each reached only if those before it pass. */
  lemma FaultsInOrder(svc: CompilableService, global: Policy)
    ensures var n, m, calls := |svc.route.line|, |svc.route.segments|, |svc.stops|;
            var repeats := exists i, j :: 0 <= i < j < calls && svc.stops[i].slug == svc.stops[j].slug;
            var waits := WaitFor(svc.boardingWait, svc.scenarioBoardingWait, global, svc.windows).Ok?;
            && (Fault(svc, global) == Some(ShortRoute) <==> n < 2)
            && (Fault(svc, global) == Some(SegmentMismatch) <==> 2 <= n && m != 0 && m != n - 1)
            && (Fault(svc, global) == Some(DuplicateSlug) <==> 2 <= n && (m == 0 || m == n - 1) && repeats)
            && (Fault(svc, global) == Some(TooFewCalls) <==> 2 <= n && (m == 0 || m == n - 1) && !repeats && calls < 2)
            && (Fault(svc, global) == Some(BadWait) <==> 2 <= n && (m == 0 || m == n - 1) && !repeats && 2 <= calls && !waits)
            && (Fault(svc, global) == Some(BadVehicle) <==>
                  && 2 <= n && (m == 0 || m == n - 1) && !repeats && 2 <= calls && waits
                  && (svc.vehicle.maxSpeedKMH <= 0.0 || svc.vehicle.accelerationMS2 <= 0.0 || svc.vehicle.decelerationMS2 <= 0.0))
  {
    assert DistinctSlugs(svc.stops) <==>
             !exists i, j :: 0 <= i < j < |svc.stops| && svc.stops[i].slug == svc.stops[j].slug;
    hide DistinctSlugs, WaitFor;
  }

  // ----- What it compiles to -----

  function LineOf(project: (seq<Point>, Point) -> Planar, svc: CompilableService): (line: seq<Planar>)
    ensures |line| == |svc.route.line|
  {
    Map(p => project(svc.route.line, p), svc.route.line)
  }

  function CallsOf(project: (seq<Point>, Point) -> Planar, svc: CompilableService): (calls: seq<Stop>)
    ensures |calls| == |svc.stops|
  {
    Map((s: CompilableStop) => Stop(s.slug, project(svc.route.line, Point(s.lng, s.lat))), svc.stops)
  }

  function BySlug(stops: seq<CompilableStop>): (m: map<string, CompilableStop>)
    ensures forall slug :: slug in m <==> exists s :: s in stops && s.slug == slug
    ensures forall slug :: slug in m ==> m[slug] in stops && m[slug].slug == slug
  {
    if stops == [] then map[]
    else
      var n := |stops| - 1;
      assert stops == stops[..n] + [stops[n]];
      BySlug(stops[..n])[stops[n].slug := stops[n]]
  }

  /** `math.Round`: to the nearest integer, halves away from zero. */
  function Round(x: real): (n: int)
    ensures x - 0.5 <= n as real <= x + 0.5
    ensures n as real == x + 0.5 ==> 0.0 <= x
    ensures n as real == x - 0.5 ==> x < 0.0
  {
    if x >= 0.0 then (x + 0.5).Floor else -((0.5 - x).Floor)
  }

  /** `secs` is the span's run time: zero for an empty span, else the time over its bounded node speeds. */
  ghost predicate RunsIn(sqrt: real -> real, span: InterStopSpan, vehicle: SpanRun.VehicleLimits, secs: real)
    requires SpanRun.ValidVehicle(vehicle)
  {
    var legs := SpanRun.LegsOf(sqrt, span.segments, vehicle.maxSpeedKMH);
    if span.distanceM <= 0.0 then secs == 0.0
    else Kinematics.ValidLegs(legs)
         && secs == SpanTime.RunSeconds(sqrt, legs, Kinematics.Rates(vehicle.accelerationMS2, vehicle.decelerationMS2))
  }

  /** The two edges of a span: one run time, each edge with the dwell and the chainage of where it ends. */
  ghost predicate SpanEdges(sqrt: real -> real, svc: CompilableService, span: InterStopSpan, fwd: Edge, rev: Edge)
    requires SpanRun.ValidVehicle(VehicleOf(svc))
  {
    exists secs, from, to ::
      && RunsIn(sqrt, span, VehicleOf(svc), secs)
      && from in svc.stops && from.slug == span.fromStopId
      && to in svc.stops && to.slug == span.toStopId
      && fwd == Edge(from.slug, to.slug, Round(secs) + to.dwellS, to.dwellS, svc.route.id,
                     span.fromChainageM, span.toChainageM)
      && rev == Edge(to.slug, from.slug, Round(secs) + from.dwellS, from.dwellS, svc.route.id,
                     span.toChainageM, span.fromChainageM)
  }

  ghost predicate EdgesAt(sqrt: real -> real, svc: CompilableService, spans: seq<InterStopSpan>, edges: seq<Edge>, k: nat)
    requires SpanRun.ValidVehicle(VehicleOf(svc)) && k < |spans| && 2 * k + 1 < |edges|
  {
    SpanEdges(sqrt, svc, spans[k], edges[2 * k], edges[2 * k + 1])
  }

  /** The stops of a service snapped to its line, in authored order. */
  ghost predicate Placed(sqrt: real -> real, project: (seq<Point>, Point) -> Planar, svc: CompilableService, placed: seq<SnappedStop>)
    requires 2 <= |svc.route.line|
  {
    && |placed| == |svc.stops|
    && forall i :: 0 <= i < |svc.stops| ==>
         SnappedTo(sqrt, LineOf(project, svc), CallsOf(project, svc)[i], placed[i])
  }

  function TrackOf(sqrt: real -> real, project: (seq<Point>, Point) -> Planar, svc: CompilableService): seq<LineSegment>
    requires 2 <= |svc.route.line|
    requires svc.route.segments == [] || |svc.route.segments| == |svc.route.line| - 1
  {
    LineSegments(sqrt, LineOf(project, svc), PhysicsOrLevel(svc.route.segments, |svc.route.line| - 1))
  }

  function SpansFrom(sqrt: real -> real, project: (seq<Point>, Point) -> Planar, svc: CompilableService,
                     placed: seq<SnappedStop>): (spans: seq<InterStopSpan>)
    requires 2 <= |svc.route.line| && placed != []
    requires svc.route.segments == [] || |svc.route.segments| == |svc.route.line| - 1
    ensures |spans| == |placed| - 1
  {
    SpansOf(TrackOf(sqrt, project, svc), StableSort(placed, Before))
  }

  /** The graph of a service that passes every check, given where its stops were snapped. */
  ghost predicate CompiledFrom(sqrt: real -> real, project: (seq<Point>, Point) -> Planar, svc: CompilableService,
                               global: Policy, placed: seq<SnappedStop>, sg: ServiceGraph)
    requires Fault(svc, global).None?
  {
    && Placed(sqrt, project, svc, placed)
    && sg.serviceId == svc.id
    && (sg.waitPolicy, sg.waitSecs) == WaitOf(svc, global).value
    && |sg.edges| == 2 * (|svc.stops| - 1)
    && forall k :: 0 <= k < |svc.stops| - 1 ==>
         EdgesAt(sqrt, svc, SpansFrom(sqrt, project, svc, placed), sg.edges, k)
  }

  // ----- The operation -----

  lemma NextIndexed(stops: seq<CompilableStop>, i: nat)
    requires i < |stops|
    ensures BySlug(stops[..i + 1]) == BySlug(stops[..i])[stops[i].slug := stops[i]]
  {
    assert stops[..i + 1][..i] == stops[..i];
  }

  lemma NextDistinct(stops: seq<CompilableStop>, i: nat)
    requires i < |stops| && DistinctSlugs(stops[..i])
    requires forall j :: 0 <= j < i ==> stops[j].slug != stops[i].slug
    ensures DistinctSlugs(stops[..i + 1])
  {
  }

  lemma IndexedBefore(stops: seq<CompilableStop>, i: nat)
    requires i < |stops|
    ensures stops[i].slug in BySlug(stops[..i]) <==> exists j :: 0 <= j < i && stops[j].slug == stops[i].slug
  {
    var front, slug := stops[..i], stops[i].slug;
    hide BySlug;
    if slug in BySlug(front) {
      var s :| s in front && s.slug == slug;
      var j :| 0 <= j < |front| && front[j] == s;
      assert stops[j].slug == slug;
    }
    if j :| 0 <= j < i && stops[j].slug == slug {
      assert front[j] in front;
    }
  }

  lemma NextSlugIndexed(stops: seq<CompilableStop>, i: nat)
    requires i < |stops| && DistinctSlugs(stops[..i])
    ensures BySlug(stops[..i + 1]) == BySlug(stops[..i])[stops[i].slug := stops[i]]
    ensures if stops[i].slug in BySlug(stops[..i]) then !DistinctSlugs(stops) else DistinctSlugs(stops[..i + 1])
  {
    NextIndexed(stops, i);
    IndexedBefore(stops, i);
    hide BySlug;
    if stops[i].slug !in BySlug(stops[..i]) {
      NextDistinct(stops, i);
    }
  }

  /** Indexes the stops by slug, or finds a slug used twice. */
  method IndexStops(stops: seq<CompilableStop>) returns (stopBySlug: Option<map<string, CompilableStop>>)
    ensures stopBySlug.Some? <==> DistinctSlugs(stops)
    ensures stopBySlug.Some? ==> stopBySlug.value == BySlug(stops)
  {
    var m, i := map[], 0;
    assert BySlug(stops[..0]) == map[];
    hide BySlug;
    while i < |stops|
      invariant 0 <= i <= |stops|
      invariant m == BySlug(stops[..i])
      invariant DistinctSlugs(stops[..i])
    {
      NextSlugIndexed(stops, i);
      if stops[i].slug in m { return None; }
      m := m[stops[i].slug := stops[i]];
      i := i + 1;
    }
    assert stops[..i] == stops;
    return Some(m);
  }

  lemma PlacedIds(sqrt: real -> real, project: (seq<Point>, Point) -> Planar, svc: CompilableService, placed: seq<SnappedStop>)
    requires 2 <= |svc.route.line| && Placed(sqrt, project, svc, placed)
    ensures forall i :: 0 <= i < |placed| ==> placed[i].id == svc.stops[i].slug
  {
    hide SnapsOn, ChainageAt, PlanarDist;
    forall i | 0 <= i < |placed| ensures placed[i].id == svc.stops[i].slug {
      assert SnappedTo(sqrt, LineOf(project, svc), CallsOf(project, svc)[i], placed[i]);
    }
  }

  /** Every id in chainage order is a slug of the service. */
  lemma OrderedId(sqrt: real -> real, project: (seq<Point>, Point) -> Planar, svc: CompilableService, placed: seq<SnappedStop>, i: nat)
    requires 2 <= |svc.route.line| && Placed(sqrt, project, svc, placed) && i < |placed|
    ensures exists stop :: stop in svc.stops && stop.slug == StableSort(placed, Before)[i].id
  {
    hide StableSort, SnappedTo;
    PlacedIds(sqrt, project, svc, placed);
    var ordered := StableSort(placed, Before);
    assert ordered[i] in ordered;
    SortedElements(placed, Before, ordered[i]);
    var j :| 0 <= j < |placed| && placed[j] == ordered[i];
    assert svc.stops[j] in svc.stops;
  }

  /** Every slug of the service has its place in chainage order. */
  lemma SlugOrdered(sqrt: real -> real, project: (seq<Point>, Point) -> Planar, svc: CompilableService, placed: seq<SnappedStop>, j: nat)
    returns (i: nat)
    requires 2 <= |svc.route.line| && Placed(sqrt, project, svc, placed) && j < |svc.stops|
    ensures i < |placed| && StableSort(placed, Before)[i].id == svc.stops[j].slug
  {
    hide StableSort, SnappedTo;
    PlacedIds(sqrt, project, svc, placed);
    assert placed[j] in placed;
    SortedElements(placed, Before, placed[j]);
    i :| 0 <= i < |placed| && StableSort(placed, Before)[i] == placed[j];
  }

  /** A span joins the stops at its two ends of the chainage order. */
  lemma SpanIds(sqrt: real -> real, project: (seq<Point>, Point) -> Planar, svc: CompilableService, placed: seq<SnappedStop>, k: nat)
    requires 2 <= |svc.route.line| && k + 1 < |placed|
    requires svc.route.segments == [] || |svc.route.segments| == |svc.route.line| - 1
    ensures SpansFrom(sqrt, project, svc, placed)[k].fromStopId == StableSort(placed, Before)[k].id
    ensures SpansFrom(sqrt, project, svc, placed)[k].toStopId == StableSort(placed, Before)[k + 1].id
  {
    hide TrackOf, StableSort, SpansOf;
    SpanOfStops(TrackOf(sqrt, project, svc), StableSort(placed, Before), k);
  }

  lemma SpanOfStops(segs: seq<LineSegment>, stops: seq<SnappedStop>, k: nat)
    requires k + 1 < |stops|
    ensures SpansOf(segs, stops)[k].fromStopId == stops[k].id && SpansOf(segs, stops)[k].toStopId == stops[k + 1].id
  {
    hide Split;
  }

  /** Every span has the pieces its timing needs. */
  lemma SpanHasPieces(sqrt: real -> real, project: (seq<Point>, Point) -> Planar, svc: CompilableService, placed: seq<SnappedStop>, k: nat)
    requires IsSquareRoot(sqrt) && 2 <= |svc.route.line| && k + 1 < |svc.stops|
    requires svc.route.segments == [] || |svc.route.segments| == |svc.route.line| - 1
    requires Placed(sqrt, project, svc, placed)
    ensures WellPieced(SpansFrom(sqrt, project, svc, placed)[k])
  {
    hide IsSquareRoot, LineSegments, SpansOf, StableSort, SnappedTo, WellPieced, LineOf, CallsOf, Split;
    ProjectedSpansTimeable(sqrt, LineOf(project, svc), PhysicsOrLevel(svc.route.segments, |svc.route.line| - 1),
                           CallsOf(project, svc), placed, k);
  }

  /** And it joins two stops of the service. */
  lemma SpanJoinsStops(sqrt: real -> real, project: (seq<Point>, Point) -> Planar, svc: CompilableService, placed: seq<SnappedStop>, k: nat)
    requires 2 <= |svc.route.line| && k + 1 < |svc.stops|
    requires svc.route.segments == [] || |svc.route.segments| == |svc.route.line| - 1
    requires Placed(sqrt, project, svc, placed)
    ensures var span := SpansFrom(sqrt, project, svc, placed)[k];
            && (exists stop :: stop in svc.stops && stop.slug == span.fromStopId)
            && (exists stop :: stop in svc.stops && stop.slug == span.toStopId)
  {
    hide StableSort, SpansFrom, SnappedTo, LineOf, CallsOf;
    OrderedId(sqrt, project, svc, placed, k);
    OrderedId(sqrt, project, svc, placed, k + 1);
    SpanIds(sqrt, project, svc, placed, k);
  }

  method EdgePair(sqrt: real -> real, svc: CompilableService, span: InterStopSpan, stopBySlug: map<string, CompilableStop>, secs: real)
    returns (fwd: Edge, rev: Edge)
    requires SpanRun.ValidVehicle(VehicleOf(svc)) && RunsIn(sqrt, span, VehicleOf(svc), secs)
    requires stopBySlug == BySlug(svc.stops)
    requires exists stop :: stop in svc.stops && stop.slug == span.fromStopId
    requires exists stop :: stop in svc.stops && stop.slug == span.toStopId
    ensures SpanEdges(sqrt, svc, span, fwd, rev)
  {
    hide RunsIn, SpanRun.ValidVehicle;
    var runSecs := Round(secs);
    var from, to := stopBySlug[span.fromStopId], stopBySlug[span.toStopId];
    fwd := Edge(from.slug, to.slug, runSecs + to.dwellS, to.dwellS, svc.route.id, span.fromChainageM, span.toChainageM);
    rev := Edge(to.slug, from.slug, runSecs + from.dwellS, from.dwellS, svc.route.id, span.toChainageM, span.fromChainageM);
  }

  lemma EdgesAdded(sqrt: real -> real, svc: CompilableService, spans: seq<InterStopSpan>, edges: seq<Edge>, fwd: Edge, rev: Edge, k: nat)
    requires SpanRun.ValidVehicle(VehicleOf(svc)) && k < |spans| && |edges| == 2 * k
    requires forall j :: 0 <= j < k ==> EdgesAt(sqrt, svc, spans, edges, j)
    requires SpanEdges(sqrt, svc, spans[k], fwd, rev)
    ensures forall j :: 0 <= j < k + 1 ==> EdgesAt(sqrt, svc, spans, edges + [fwd, rev], j)
  {
    hide SpanEdges, SpanRun.ValidVehicle;
    var longer := edges + [fwd, rev];
    forall j | 0 <= j < k + 1 ensures EdgesAt(sqrt, svc, spans, longer, j) {
      if j < k {
        assert EdgesAt(sqrt, svc, spans, edges, j);
        assert longer[2 * j] == edges[2 * j] && longer[2 * j + 1] == edges[2 * j + 1];
      } else {
        assert longer[2 * j] == fwd && longer[2 * j + 1] == rev;
      }
    }
  }

  /**
   Compiles a service, or names the first check it fails. The second result is where its stops were
   snapped.
   */
  method CompileServicePhysics(sqrt: real -> real, project: (seq<Point>, Point) -> Planar, svc: CompilableService, global: Policy)
    returns (result: Compiled, ghost placed: seq<SnappedStop>)
    requires IsSquareRoot(sqrt)
    ensures result.Failed? ==> Fault(svc, global) == Some(result.error)
    ensures result.Graph? ==>
              Fault(svc, global).None? && CompiledFrom(sqrt, project, svc, global, placed, result.graph)
  {
    hide IsSquareRoot, LineSegments, SpansOf, StableSort, SnappedTo, BySlug, EdgesAt, Resolve, WaitSecs, SpanRun.ValidVehicle, Split;
    placed := [];
    var line, segs := svc.route.line, svc.route.segments;
    if |line| < 2 { return Failed(ShortRoute), placed; }
    if |segs| > 0 && |segs| != |line| - 1 { return Failed(SegmentMismatch), placed; }
    var index := IndexStops(svc.stops);
    if index.None? { return Failed(DuplicateSlug), placed; }
    var projection, at := ProjectStops(sqrt, LineOf(project, svc), segs, CallsOf(project, svc));
    if projection.Refused? { return Failed(TooFewCalls), placed; }
    placed := at;
    var spans := projection.spans;
    assert spans == SpansFrom(sqrt, project, svc, placed);
    var policy := Resolve(svc.boardingWait, svc.scenarioBoardingWait, global);
    if policy.Err? { return Failed(BadWait), placed; }
    var secs := WaitSecs(policy.value, svc.windows);
    if secs.Err? { return Failed(BadWait), placed; }
    var edges, k := [], 0;
    while k < |spans|
      invariant 0 <= k <= |spans| && |edges| == 2 * k
      invariant 0 < k ==> SpanRun.ValidVehicle(VehicleOf(svc))
      invariant forall j :: 0 <= j < k ==> EdgesAt(sqrt, svc, spans, edges, j)
    {
      SpanHasPieces(sqrt, project, svc, placed, k);
      SpanJoinsStops(sqrt, project, svc, placed, k);
      var run := SpanRun.SpanRunSeconds(sqrt, spans[k].distanceM, spans[k].segments, VehicleOf(svc));
      if run.Err? { return Failed(BadVehicle), placed; }
      var fwd, rev := EdgePair(sqrt, svc, spans[k], index.value, run.seconds);
      EdgesAdded(sqrt, svc, spans, edges, fwd, rev, k);
      edges := edges + [fwd, rev];
      k := k + 1;
    }
    return Graph(ServiceGraph(svc.id, edges, secs.value, KindOrNone(policy.value))), placed;
  }

  // ----- Endpoints -----

  /** The slugs that edges run between. */
  function Endpoints(edges: seq<Edge>): set<string> {
    (set e | e in edges :: e.fromSlug) + (set e | e in edges :: e.toSlug)
  }

  function SlugsOf(stops: seq<CompilableStop>): set<string> {
    set s | s in stops :: s.slug
  }

  lemma EdgeSlugs(sqrt: real -> real, svc: CompilableService, spans: seq<InterStopSpan>, edges: seq<Edge>, k: nat)
    requires SpanRun.ValidVehicle(VehicleOf(svc)) && k < |spans| && 2 * k + 1 < |edges|
    requires EdgesAt(sqrt, svc, spans, edges, k)
    ensures edges[2 * k].fromSlug == edges[2 * k + 1].toSlug == spans[k].fromStopId
    ensures edges[2 * k].toSlug == edges[2 * k + 1].fromSlug == spans[k].toStopId
    ensures edges[2 * k].routeId == edges[2 * k + 1].routeId == svc.route.id
  {
    hide RunsIn, SpanRun.ValidVehicle, Round;
  }

  lemma EdgesStayOnSlugs(sqrt: real -> real, project: (seq<Point>, Point) -> Planar, svc: CompilableService,
                         global: Policy, placed: seq<SnappedStop>, sg: ServiceGraph, i: nat)
    requires Fault(svc, global).None? && CompiledFrom(sqrt, project, svc, global, placed, sg) && i < |sg.edges|
    ensures sg.edges[i].fromSlug in SlugsOf(svc.stops) && sg.edges[i].toSlug in SlugsOf(svc.stops)
    ensures sg.edges[i].routeId == svc.route.id
  {
    hide SnappedTo, EdgesAt, SpansFrom, WaitOf, SpanRun.ValidVehicle, LineOf, CallsOf, DistinctSlugs;
    var spans, k := SpansFrom(sqrt, project, svc, placed), i / 2;
    assert EdgesAt(sqrt, svc, spans, sg.edges, k);
    EdgeSlugs(sqrt, svc, spans, sg.edges, k);
    SpanJoinsStops(sqrt, project, svc, placed, k);
    assert i == 2 * k || i == 2 * k + 1;
  }

  lemma SlugReached(sqrt: real -> real, project: (seq<Point>, Point) -> Planar, svc: CompilableService,
                    global: Policy, placed: seq<SnappedStop>, sg: ServiceGraph, j: nat)
    requires Fault(svc, global).None? && CompiledFrom(sqrt, project, svc, global, placed, sg) && j < |svc.stops|
    ensures svc.stops[j].slug in Endpoints(sg.edges)
  {
    hide StableSort, SnappedTo, EdgesAt, SpansFrom, WaitOf, SpanRun.ValidVehicle, LineOf, CallsOf, DistinctSlugs;
    var i := SlugOrdered(sqrt, project, svc, placed, j);
    var spans, k := SpansFrom(sqrt, project, svc, placed), if i == 0 then 0 else i - 1;
    assert EdgesAt(sqrt, svc, spans, sg.edges, k);
    EdgeSlugs(sqrt, svc, spans, sg.edges, k);
    SpanIds(sqrt, project, svc, placed, k);
    assert sg.edges[2 * k] in sg.edges;
  }

  /** No stop is lost and none invented: the edges' endpoints are exactly the service's stop slugs. */
  lemma EndpointsAreSlugs(sqrt: real -> real, project: (seq<Point>, Point) -> Planar, svc: CompilableService,
                          global: Policy, placed: seq<SnappedStop>, sg: ServiceGraph)
    requires Fault(svc, global).None? && CompiledFrom(sqrt, project, svc, global, placed, sg)
    ensures Endpoints(sg.edges) == SlugsOf(svc.stops)
    ensures forall e :: e in sg.edges ==> e.routeId == svc.route.id
  {
    hide StableSort, CompiledFrom, Fault, SlugsOf;
    forall e | e in sg.edges
      ensures e.fromSlug in SlugsOf(svc.stops) && e.toSlug in SlugsOf(svc.stops) && e.routeId == svc.route.id
    {
      var i :| 0 <= i < |sg.edges| && sg.edges[i] == e;
      EdgesStayOnSlugs(sqrt, project, svc, global, placed, sg, i);
    }
    assert Endpoints(sg.edges) <= SlugsOf(svc.stops);
    hide Endpoints;
    forall j | 0 <= j < |svc.stops| ensures svc.stops[j].slug in Endpoints(sg.edges) {
      SlugReached(sqrt, project, svc, global, placed, sg, j);
    }
    SlugsInside(svc.stops, Endpoints(sg.edges));
  }

  lemma SlugsInside(stops: seq<CompilableStop>, slugs: set<string>)
    requires forall j :: 0 <= j < |stops| ==> stops[j].slug in slugs
    ensures SlugsOf(stops) <= slugs
  {
  }

  // ----- One graph only -----

  /** The run time and the two stops behind a pair of edges. */
  lemma BehindEdges(sqrt: real -> real, svc: CompilableService, span: InterStopSpan, fwd: Edge, rev: Edge)
    returns (secs: real, from: CompilableStop, to: CompilableStop)
    requires SpanRun.ValidVehicle(VehicleOf(svc)) && SpanEdges(sqrt, svc, span, fwd, rev)
    ensures RunsIn(sqrt, span, VehicleOf(svc), secs)
    ensures from in svc.stops && from.slug == span.fromStopId && to in svc.stops && to.slug == span.toStopId
    ensures fwd == Edge(from.slug, to.slug, Round(secs) + to.dwellS, to.dwellS, svc.route.id, span.fromChainageM, span.toChainageM)
    ensures rev == Edge(to.slug, from.slug, Round(secs) + from.dwellS, from.dwellS, svc.route.id, span.toChainageM, span.fromChainageM)
  {
    hide RunsIn, Round, SpanRun.ValidVehicle;
    secs, from, to :|
      && RunsIn(sqrt, span, VehicleOf(svc), secs)
      && from in svc.stops && from.slug == span.fromStopId && to in svc.stops && to.slug == span.toStopId
      && fwd == Edge(from.slug, to.slug, Round(secs) + to.dwellS, to.dwellS, svc.route.id, span.fromChainageM, span.toChainageM)
      && rev == Edge(to.slug, from.slug, Round(secs) + from.dwellS, from.dwellS, svc.route.id, span.toChainageM, span.fromChainageM);
  }

  /** With distinct slugs a span has one pair of edges. */
  lemma SpanEdgesDetermined(sqrt: real -> real, svc: CompilableService, span: InterStopSpan, fwd: Edge, rev: Edge, fwd': Edge, rev': Edge)
    requires SpanRun.ValidVehicle(VehicleOf(svc)) && DistinctSlugs(svc.stops)
    requires SpanEdges(sqrt, svc, span, fwd, rev) && SpanEdges(sqrt, svc, span, fwd', rev')
    ensures fwd == fwd' && rev == rev'
  {
    hide RunsIn, Round, SpanRun.ValidVehicle, SpanEdges, DistinctSlugs;
    var secs, from, to := BehindEdges(sqrt, svc, span, fwd, rev);
    var secs', from', to' := BehindEdges(sqrt, svc, span, fwd', rev');
    SameRun(sqrt, span, VehicleOf(svc), secs, secs');
    OneStopOfSlug(svc.stops, from, from');
    OneStopOfSlug(svc.stops, to, to');
  }

  lemma SameRun(sqrt: real -> real, span: InterStopSpan, vehicle: SpanRun.VehicleLimits, x: real, y: real)
    requires SpanRun.ValidVehicle(vehicle) && RunsIn(sqrt, span, vehicle, x) && RunsIn(sqrt, span, vehicle, y)
    ensures x == y
  {
  }

  lemma OneStopOfSlug(stops: seq<CompilableStop>, a: CompilableStop, b: CompilableStop)
    requires DistinctSlugs(stops) && a in stops && b in stops && a.slug == b.slug
    ensures a == b
  {
    var i :| 0 <= i < |stops| && stops[i] == a;
    var j :| 0 <= j < |stops| && stops[j] == b;
  }

  lemma PlacedDetermined(sqrt: real -> real, project: (seq<Point>, Point) -> Planar, svc: CompilableService,
                         placed: seq<SnappedStop>, placed': seq<SnappedStop>)
    requires 2 <= |svc.route.line| && Placed(sqrt, project, svc, placed) && Placed(sqrt, project, svc, placed')
    ensures placed == placed'
  {
    hide SnappedTo;
    forall i | 0 <= i < |placed| ensures placed[i] == placed'[i] {
      SnappedDetermined(sqrt, LineOf(project, svc), CallsOf(project, svc)[i], placed[i], placed'[i]);
    }
  }

  /** A service has one graph: nothing about where it is compiled, or when, can change it. */
  lemma GraphDetermined(sqrt: real -> real, project: (seq<Point>, Point) -> Planar, svc: CompilableService, global: Policy,
                        placed: seq<SnappedStop>, sg: ServiceGraph, placed': seq<SnappedStop>, sg': ServiceGraph)
    requires Fault(svc, global).None?
    requires CompiledFrom(sqrt, project, svc, global, placed, sg) && CompiledFrom(sqrt, project, svc, global, placed', sg')
    ensures sg == sg'
  {
    hide StableSort, SnappedTo, SpansFrom, WaitOf, LineOf, CallsOf, DistinctSlugs, SpanRun.ValidVehicle, SpanEdges;
    PlacedDetermined(sqrt, project, svc, placed, placed');
    var spans := SpansFrom(sqrt, project, svc, placed);
    forall i | 0 <= i < |sg.edges| ensures sg.edges[i] == sg'.edges[i] {
      var k := i / 2;
      assert EdgesAt(sqrt, svc, spans, sg.edges, k) && EdgesAt(sqrt, svc, spans, sg'.edges, k);
      SpanEdgesDetermined(sqrt, svc, spans[k], sg.edges[2 * k], sg.edges[2 * k + 1], sg'.edges[2 * k], sg'.edges[2 * k + 1]);
      assert i == 2 * k || i == 2 * k + 1;
    }
    assert sg.edges == sg'.edges;
  }

  // ----- The edges of a span -----

  lemma PlacedLength(sqrt: real -> real, project: (seq<Point>, Point) -> Planar, svc: CompilableService, placed: seq<SnappedStop>)
    requires 2 <= |svc.route.line| && Placed(sqrt, project, svc, placed)
    ensures |placed| == |svc.stops|
  {
    hide SnappedTo;
  }

  /** Edges `2k` and `2k + 1` belong to the span between the `k`-th stop in chainage order and the next. */
  lemma EdgesFor(sqrt: real -> real, project: (seq<Point>, Point) -> Planar, svc: CompilableService, global: Policy,
                 placed: seq<SnappedStop>, sg: ServiceGraph, k: nat) returns (span: InterStopSpan)
    requires Fault(svc, global).None? && CompiledFrom(sqrt, project, svc, global, placed, sg) && k + 1 < |svc.stops| == |placed|
    ensures span == SpanBetween(TrackOf(sqrt, project, svc), StableSort(placed, Before)[k], StableSort(placed, Before)[k + 1])
    ensures 2 * k + 1 < |sg.edges| && SpanEdges(sqrt, svc, span, sg.edges[2 * k], sg.edges[2 * k + 1])
  {
    hide Placed, StableSort, TrackOf, SpanBetween, SpanEdges, WaitOf, DistinctSlugs, SpanRun.ValidVehicle;
    span := SpansFrom(sqrt, project, svc, placed)[k];
    assert EdgesAt(sqrt, svc, SpansFrom(sqrt, project, svc, placed), sg.edges, k);
  }
}
