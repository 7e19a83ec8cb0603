/**
 `CompileServices` (internal/transit/compile_scenario.go) and `validateInterchangePairs`
 (internal/transit/interchange.go): check the declared pairs, merge co-located stops, and compile each
 service under its merged slugs. The results say when a scenario compiles and that the graph is closed.
 */
module ScenarioCompiler {
  import opened Collections
  import opened Reals
  import opened BoardingWait
  import opened Clustering
  import opened Connectivity
  import opened Folding
  import opened Compilables
  import opened Merging
  import opened MergeServices
  import opened ClusterKeys
  import opened Projection
  import opened PhysicsCompiler

  // ----- Declared pairs -----

  ghost predicate Declared(svcs: seq<CompilableService>, id: StopIdentity) {
    exists i, j :: 0 <= i < |svcs| && 0 <= j < |svcs[i].stops| && id == StopIdentity(svcs[i].id, svcs[i].stops[j].slug)
  }

  /** Two different services, both stops existing. */
  ghost predicate PairOk(svcs: seq<CompilableService>, p: InterchangePair) {
    p.a.serviceId != p.b.serviceId && Declared(svcs, p.a) && Declared(svcs, p.b)
  }

  /** In fields: two services, and a stop of each with the slug that the pair names. */
  lemma PairNames(svcs: seq<CompilableService>, p: InterchangePair)
    ensures PairOk(svcs, p) <==>
              && p.a.serviceId != p.b.serviceId
              && (exists i, j :: 0 <= i < |svcs| && 0 <= j < |svcs[i].stops|
                                 && svcs[i].id == p.a.serviceId && svcs[i].stops[j].slug == p.a.slug)
              && (exists i, j :: 0 <= i < |svcs| && 0 <= j < |svcs[i].stops|
                                 && svcs[i].id == p.b.serviceId && svcs[i].stops[j].slug == p.b.slug)
  {
  }

  method KnownStops(svcs: seq<CompilableService>) returns (known: set<StopIdentity>)
    ensures forall id :: id in known <==> Declared(svcs, id)
  {
    known := {};
    var i := 0;
    while i < |svcs|
      invariant 0 <= i <= |svcs|
      invariant forall id :: id in known <==> Declared(svcs[..i], id)
    {
      var j := 0;
      while j < |svcs[i].stops|
        invariant 0 <= j <= |svcs[i].stops|
        invariant forall id :: id in known <==>
                    Declared(svcs[..i], id) || exists k :: 0 <= k < j && id == StopIdentity(svcs[i].id, svcs[i].stops[k].slug)
      {
        known := known + {StopIdentity(svcs[i].id, svcs[i].stops[j].slug)};
        j := j + 1;
      }
      forall id ensures Declared(svcs[..i + 1], id) <==> id in known {
        DeclaredByNext(svcs, i, id);
      }
      i := i + 1;
    }
    assert svcs[..i] == svcs;
  }

  lemma DeclaredByNext(svcs: seq<CompilableService>, i: nat, id: StopIdentity)
    requires i < |svcs|
    ensures Declared(svcs[..i + 1], id) <==>
              Declared(svcs[..i], id) || exists k :: 0 <= k < |svcs[i].stops| && id == StopIdentity(svcs[i].id, svcs[i].stops[k].slug)
  {
    var longer, shorter := svcs[..i + 1], svcs[..i];
    assert longer == shorter + [svcs[i]];
    forall a | 0 <= a < i ensures longer[a] == shorter[a] {
    }
  }

  /** The first pair that is not fit to fold, if any. */
  method ValidateInterchangePairs(svcs: seq<CompilableService>, pairs: seq<InterchangePair>) returns (fault: Option<nat>)
    ensures fault.None? <==> forall k :: 0 <= k < |pairs| ==> PairOk(svcs, pairs[k])
    ensures fault.Some? ==>
              && fault.value < |pairs| && !PairOk(svcs, pairs[fault.value])
              && forall k :: 0 <= k < fault.value ==> PairOk(svcs, pairs[k])
  {
    hide Declared;
    if pairs == [] { return None; }
    var known := KnownStops(svcs);
    var i := 0;
    while i < |pairs|
      invariant 0 <= i <= |pairs|
      invariant forall k :: 0 <= k < i ==> PairOk(svcs, pairs[k])
    {
      var p := pairs[i];
      if p.a.serviceId == p.b.serviceId { return Some(i); }
      if p.a !in known { return Some(i); }
      if p.b !in known { return Some(i); }
      i := i + 1;
    }
    return None;
  }

  // ----- Compiling -----

  datatype Outcome = Compiled(graph: TransitGraph) | BadPair(index: nat) | BadService(index: nat, error: CompileError)

  ghost predicate ServiceCompiled(sqrt: real -> real, project: (seq<Point>, Point) -> Planar, svc: CompilableService,
                                  global: Policy, sg: ServiceGraph) {
    Fault(svc, global).None? && exists placed :: CompiledFrom(sqrt, project, svc, global, placed, sg)
  }

  /** The merged services compiled one by one, with the nodes and the report of the merge. */
  ghost predicate GraphOf(sqrt: real -> real, project: (seq<Point>, Point) -> Planar, merged: seq<CompilableService>,
                          m: Merge, global: Policy, graph: TransitGraph) {
    && graph.nodes == m.nodes && graph.merge == m.report
    && |graph.services| == |merged|
    && forall i :: 0 <= i < |merged| ==> ServiceCompiled(sqrt, project, merged[i], global, graph.services[i])
  }

  method CompileServices(sqrt: real -> real, project: (seq<Point>, Point) -> Planar, dist: (Point, Point) -> real,
                         svcs: seq<CompilableService>, pairs: seq<InterchangePair>, global: Policy)
    returns (out: Outcome, ghost merged: seq<CompilableService>, ghost m: Merge)
    requires IsSquareRoot(sqrt)
    ensures out.BadPair? <==> exists k :: 0 <= k < |pairs| && !PairOk(svcs, pairs[k])
    ensures out.BadPair? ==>
              && out.index < |pairs| && !PairOk(svcs, pairs[out.index])
              && forall k :: 0 <= k < out.index ==> PairOk(svcs, pairs[k])
    ensures !out.BadPair? ==> MergedAs(dist, svcs, pairs, merged, m)
    ensures out.BadService? ==>
              && out.index < |merged| && Fault(merged[out.index], global) == Some(out.error)
              && forall k :: 0 <= k < out.index ==> Fault(merged[k], global).None?
    ensures out.Compiled? ==> GraphOf(sqrt, project, merged, m, global, out.graph)
  {
    hide PairOk, MergedAs, Fault, CompiledFrom, IsSquareRoot;
    merged, m := [], Merge([], [], MergeReport([], []));
    var fault := ValidateInterchangePairs(svcs, pairs);
    if fault.Some? { return BadPair(fault.value), merged, m; }
    var rekeyed, merge := MergeColocatedStops(dist, svcs, pairs);
    merged, m := rekeyed, merge;
    var graphs, i := [], 0;
    while i < |rekeyed|
      invariant 0 <= i <= |rekeyed| && |graphs| == i
      invariant forall k :: 0 <= k < i ==> ServiceCompiled(sqrt, project, rekeyed[k], global, graphs[k])
    {
      var one, placed := CompileServicePhysics(sqrt, project, rekeyed[i], global);
      if one.Failed? { return BadService(i, one.error), merged, m; }
      graphs := graphs + [one.graph];
      i := i + 1;
    }
    return Compiled(TransitGraph(graphs, merge.report, merge.nodes)), merged, m;
  }

  // ----- Merged slugs -----

  /** Every stop carries the key of its place in the sorted list. */
  ghost predicate Keyed(svcs: seq<CompilableService>, keys: seq<string>, merged: seq<CompilableService>) {
    |keys| == |SortedStops(svcs)| && Rekeyed(svcs, SortedStops(svcs), keys, merged)
  }

  lemma MergedSlug(svcs: seq<CompilableService>, keys: seq<string>, merged: seq<CompilableService>, i: nat, j: nat) returns (p: nat)
    requires Keyed(svcs, keys, merged)
    requires i < |svcs| && j < |svcs[i].stops|
    ensures p < |SortedStops(svcs)| == |keys|
    ensures SortedStops(svcs)[p] == MergeStop(i, j, SiteOf(svcs[i].id, svcs[i].stops[j]))
    ensures i < |merged| && j < |merged[i].stops| && merged[i].stops[j].slug == keys[p]
  {
    hide SortedStops;
    p := PlaceOf(svcs, i, j);
    assert KeyWritten(svcs, SortedStops(svcs)[p], keys[p], merged);
  }

  lemma KeyOfPlace(svcs: seq<CompilableService>, keys: seq<string>, merged: seq<CompilableService>, p: nat)
    requires Keyed(svcs, keys, merged) && p < |keys|
    ensures |keys| == |SortedStops(svcs)|
    ensures var s := SortedStops(svcs)[p];
            s.svcIdx < |merged| && s.stopIdx < |merged[s.svcIdx].stops|
            && merged[s.svcIdx].stops[s.stopIdx].slug == keys[p]
  {
    hide SortedStops;
    assert KeyWritten(svcs, SortedStops(svcs)[p], keys[p], merged);
  }

  // ----- The graph is closed -----

  /** Every slug that some edge of some service runs from or to. */
  function AllEndpoints(services: seq<ServiceGraph>): set<string> {
    set i, slug | 0 <= i < |services| && slug in Endpoints(services[i].edges) :: slug
  }

  function AllSlugs(svcs: seq<CompilableService>): set<string> {
    set i, slug | 0 <= i < |svcs| && slug in SlugsOf(svcs[i].stops) :: slug
  }

  lemma ServiceEndpoints(sqrt: real -> real, project: (seq<Point>, Point) -> Planar, svc: CompilableService,
                         global: Policy, sg: ServiceGraph)
    requires ServiceCompiled(sqrt, project, svc, global, sg)
    ensures Endpoints(sg.edges) == SlugsOf(svc.stops)
    ensures forall e :: e in sg.edges ==> e.routeId == svc.route.id
  {
    hide CompiledFrom, Fault, Endpoints, SlugsOf;
    var placed :| CompiledFrom(sqrt, project, svc, global, placed, sg);
    EndpointsAreSlugs(sqrt, project, svc, global, placed, sg);
  }

  lemma SlugsWithin(svcs: seq<CompilableService>, slugs: set<string>)
    requires forall i, j :: 0 <= i < |svcs| && 0 <= j < |svcs[i].stops| ==> svcs[i].stops[j].slug in slugs
    ensures AllSlugs(svcs) <= slugs
  {
  }

  lemma SlugAmong(svcs: seq<CompilableService>, i: nat, j: nat)
    requires i < |svcs| && j < |svcs[i].stops|
    ensures svcs[i].stops[j].slug in AllSlugs(svcs)
  {
    assert svcs[i].stops[j] in svcs[i].stops;
    assert svcs[i].stops[j].slug in SlugsOf(svcs[i].stops);
  }

  lemma MergedSlugsAreKeys(svcs: seq<CompilableService>, keys: seq<string>, merged: seq<CompilableService>)
    requires Keyed(svcs, keys, merged)
    ensures AllSlugs(merged) == KeySet(keys)
  {
    assert SameExceptSlugs(svcs, merged);
    hide Keyed, SortedStops, AllSlugs;
    forall i, j | 0 <= i < |merged| && 0 <= j < |merged[i].stops| ensures merged[i].stops[j].slug in KeySet(keys) {
      var p := MergedSlug(svcs, keys, merged, i, j);
      assert keys[p] in keys;
    }
    SlugsWithin(merged, KeySet(keys));
    forall p | 0 <= p < |keys| ensures keys[p] in AllSlugs(merged) {
      KeyOfPlace(svcs, keys, merged, p);
      SlugAmong(merged, SortedStops(svcs)[p].svcIdx, SortedStops(svcs)[p].stopIdx);
    }
  }

  lemma SameEverywhere(services: seq<ServiceGraph>, svcs: seq<CompilableService>)
    requires |services| == |svcs|
    requires forall i :: 0 <= i < |svcs| ==> Endpoints(services[i].edges) == SlugsOf(svcs[i].stops)
    ensures AllEndpoints(services) == AllSlugs(svcs)
  {
    hide Endpoints, SlugsOf;
  }

  /** Edges run between nodes only, and every node has an edge: endpoints and nodes are the same set. */
  lemma GraphClosed(sqrt: real -> real, project: (seq<Point>, Point) -> Planar, dist: (Point, Point) -> real,
                    svcs: seq<CompilableService>, pairs: seq<InterchangePair>, global: Policy,
                    merged: seq<CompilableService>, m: Merge, graph: TransitGraph)
    requires MergedAs(dist, svcs, pairs, merged, m) && GraphOf(sqrt, project, merged, m, global, graph)
    ensures AllEndpoints(graph.services) == NodeSlugs(graph.nodes)
  {
    hide SortedStops, MergedSites, Rekeyed, Endpoints, SlugsOf, ServiceCompiled, KeySet, NodeSlugs, AllEndpoints, AllSlugs;
    NodesAreKeys(dist, SitesOf(SortedStops(svcs)), pairs, m);
    MergedSlugsAreKeys(svcs, m.keys, merged);
    forall i | 0 <= i < |merged| ensures Endpoints(graph.services[i].edges) == SlugsOf(merged[i].stops) {
      ServiceEndpoints(sqrt, project, merged[i], global, graph.services[i]);
    }
    SameEverywhere(graph.services, merged);
  }

  // ----- Distinct stop slugs -----

  ghost predicate DistinctStopSlugs(svcs: seq<CompilableService>) {
    forall i, j, k, l |
      && 0 <= i < |svcs| && 0 <= j < |svcs[i].stops| && 0 <= k < |svcs| && 0 <= l < |svcs[k].stops|
      && svcs[i].stops[j].slug == svcs[k].stops[l].slug
      :: i == k && j == l
  }

  lemma SitesDistinct(svcs: seq<CompilableService>)
    requires DistinctStopSlugs(svcs)
    ensures DistinctSiteSlugs(SitesOf(SortedStops(svcs)))
  {
    hide SortedStops;
    var stops := SortedStops(svcs);
    SortedStopsComplete(svcs);
    forall s, t | 0 <= s < t < |stops| ensures stops[s].site.ref.slug != stops[t].site.ref.slug {
      assert stops[s] in stops && stops[t] in stops;
      assert IsStopOf(svcs, stops[s]) && IsStopOf(svcs, stops[t]);
    }
  }

  /** With distinct stop slugs, no two nodes share a slug. */
  lemma GraphNodesDistinct(dist: (Point, Point) -> real, svcs: seq<CompilableService>, pairs: seq<InterchangePair>,
                           merged: seq<CompilableService>, m: Merge)
    requires MergedAs(dist, svcs, pairs, merged, m) && DistinctStopSlugs(svcs)
    ensures DistinctNodes(m.nodes)
  {
    hide SortedStops, MergedSites, DistinctStopSlugs, DistinctSiteSlugs, DistinctNodes, Rekeyed;
    SitesDistinct(svcs);
    NodesDistinct(dist, SitesOf(SortedStops(svcs)), pairs, m);
  }

  // ----- When a service survives the merge -----

  /** No chain of shared clusters and declared pairs joins two stops of service `i`. */
  ghost predicate KeptApart(dist: (Point, Point) -> real, svcs: seq<CompilableService>, pairs: seq<InterchangePair>, i: nat)
    requires |Greedy(dist, SitesOf(SortedStops(svcs))).clusterOf| == |SortedStops(svcs)|
  {
    var stops := SortedStops(svcs);
    var links := StopLinks(SitesOf(stops), Greedy(dist, SitesOf(stops)).clusterOf, pairs);
    forall p, q :: 0 <= p < q < |stops| && stops[p].svcIdx == i && stops[q].svcIdx == i ==> !Connected(links, p, q)
  }

  lemma FaultAfterMerge(svc: CompilableService, merged: CompilableService, global: Policy)
    requires merged == svc.(stops := merged.stops) && |merged.stops| == |svc.stops|
    requires DistinctSlugs(svc.stops)
    ensures Fault(merged, global).None? <==> Fault(svc, global).None? && DistinctSlugs(merged.stops)
  {
    hide Resolve, WaitSecs;
    assert WaitOf(merged, global) == WaitOf(svc, global);
    assert VehicleOf(merged) == VehicleOf(svc);
    hide WaitOf, DistinctSlugs, VehicleOf;
  }

  lemma ApartInMerge(dist: (Point, Point) -> real, svcs: seq<CompilableService>, pairs: seq<InterchangePair>,
                     merged: seq<CompilableService>, m: Merge, p: nat, q: nat)
    requires MergedAs(dist, svcs, pairs, merged, m) && p < |SortedStops(svcs)| && q < |SortedStops(svcs)|
    requires DistinctStopSlugs(svcs)
    ensures var sites := SitesOf(SortedStops(svcs));
            && |Greedy(dist, sites).clusterOf| == |sites| == |m.keys|
            && (m.keys[p] == m.keys[q] <==> Connected(StopLinks(sites, Greedy(dist, sites).clusterOf, pairs), p, q))
  {
    hide SortedStops, MergedSites, Rekeyed, Greedy, StopLinks, Connected, DistinctSiteSlugs, DistinctStopSlugs, Faithful;
    var sites := SitesOf(SortedStops(svcs));
    GreedyFaithful(dist, sites);
    SitesDistinct(svcs);
    SameKeyIffConnected(dist, sites, pairs, m, p, q);
  }

  lemma ApartHaveDistinctSlugs(dist: (Point, Point) -> real, svcs: seq<CompilableService>, pairs: seq<InterchangePair>,
                               merged: seq<CompilableService>, m: Merge, i: nat)
    requires MergedAs(dist, svcs, pairs, merged, m) && i < |svcs| == |merged|
    requires |merged[i].stops| == |svcs[i].stops|
    requires |Greedy(dist, SitesOf(SortedStops(svcs))).clusterOf| == |SortedStops(svcs)|
    requires DistinctStopSlugs(svcs) && KeptApart(dist, svcs, pairs, i)
    ensures DistinctSlugs(merged[i].stops)
  {
    hide MergedSites, Rekeyed, SortedStops, Greedy, StopLinks, Connected, DistinctStopSlugs;
    assert Keyed(svcs, m.keys, merged);
    hide MergedAs, Keyed;
    forall j, k | 0 <= j < k < |merged[i].stops| ensures merged[i].stops[j].slug != merged[i].stops[k].slug {
      var p := MergedSlug(svcs, m.keys, merged, i, j);
      var q := MergedSlug(svcs, m.keys, merged, i, k);
      ApartInMerge(dist, svcs, pairs, merged, m, if p < q then p else q, if p < q then q else p);
    }
  }

  lemma DifferentStops(svcs: seq<CompilableService>, p: nat, q: nat)
    requires p < q < |SortedStops(svcs)| && SortedStops(svcs)[p].svcIdx == SortedStops(svcs)[q].svcIdx
    ensures SortedStops(svcs)[p].stopIdx != SortedStops(svcs)[q].stopIdx
  {
    hide SortedStops;
    SortedStopsComplete(svcs);
    var stops := SortedStops(svcs);
    assert stops[p] in stops && stops[q] in stops;
    assert IsStopOf(svcs, stops[p]) && IsStopOf(svcs, stops[q]);
  }

  /** Connected stops get one slug, whatever the slugs were. */
  lemma ConnectedShareSlug(dist: (Point, Point) -> real, sites: seq<Site>, pairs: seq<InterchangePair>, m: Merge, p: nat, q: nat)
    requires MergedSites(dist, sites, pairs, m) && p < |sites| && q < |sites|
    requires |Greedy(dist, sites).clusterOf| == |sites| == |m.keys|
    requires Connected(StopLinks(sites, Greedy(dist, sites).clusterOf, pairs), p, q)
    ensures m.keys[p] == m.keys[q]
  {
    hide MergedSites, Greedy, StopLinks, Connected;
    SameKeyIffConnected(dist, sites, pairs, m, p, q);
  }

  /** A service whose merged slugs stay distinct has no two stops in one cluster. */
  lemma DistinctSlugsKeepApart(dist: (Point, Point) -> real, svcs: seq<CompilableService>, pairs: seq<InterchangePair>,
                               merged: seq<CompilableService>, m: Merge, i: nat)
    requires MergedAs(dist, svcs, pairs, merged, m) && i < |svcs| == |merged|
    requires |Greedy(dist, SitesOf(SortedStops(svcs))).clusterOf| == |SortedStops(svcs)|
    requires DistinctSlugs(merged[i].stops)
    ensures KeptApart(dist, svcs, pairs, i)
  {
    hide MergedSites, SortedStops, Rekeyed, Greedy, StopLinks, Connected;
    assert Keyed(svcs, m.keys, merged) && MergedSites(dist, SitesOf(SortedStops(svcs)), pairs, m);
    hide MergedAs, Keyed;
    var stops := SortedStops(svcs);
    var links := StopLinks(SitesOf(stops), Greedy(dist, SitesOf(stops)).clusterOf, pairs);
    forall p, q | 0 <= p < q < |stops| && stops[p].svcIdx == i && stops[q].svcIdx == i ensures !Connected(links, p, q) {
      if Connected(links, p, q) {
        ConnectedShareSlug(dist, SitesOf(stops), pairs, m, p, q);
        KeyOfPlace(svcs, m.keys, merged, p);
        KeyOfPlace(svcs, m.keys, merged, q);
        DifferentStops(svcs, p, q);
        assert false;
      }
    }
  }

  /**
   A service of a scenario compiles exactly when it would compile on its own and the merge puts no two
   of its stops together; in particular a compiled scenario has no cluster with two stops of one service.
   */
  lemma CompilesIffKeptApart(dist: (Point, Point) -> real, svcs: seq<CompilableService>, pairs: seq<InterchangePair>,
                             merged: seq<CompilableService>, m: Merge, global: Policy, i: nat)
    requires MergedAs(dist, svcs, pairs, merged, m) && i < |svcs| && DistinctStopSlugs(svcs)
    requires |Greedy(dist, SitesOf(SortedStops(svcs))).clusterOf| == |SortedStops(svcs)|
    ensures i < |merged|
    ensures Fault(merged[i], global).None? <==> Fault(svcs[i], global).None? && KeptApart(dist, svcs, pairs, i)
  {
    assert SameExceptSlugs(svcs, merged);
    assert DistinctSlugs(svcs[i].stops);
    hide MergedAs, Greedy, SortedStops, Fault, DistinctSlugs, KeptApart, DistinctStopSlugs;
    FaultAfterMerge(svcs[i], merged[i], global);
    if KeptApart(dist, svcs, pairs, i) {
      ApartHaveDistinctSlugs(dist, svcs, pairs, merged, m, i);
    }
    if DistinctSlugs(merged[i].stops) {
      DistinctSlugsKeepApart(dist, svcs, pairs, merged, m, i);
    }
  }

  // ----- Order independence -----

  lemma DeclaredPermuted(svcs: seq<CompilableService>, svcs': seq<CompilableService>, id: StopIdentity)
    requires multiset(svcs) == multiset(svcs') && Declared(svcs, id)
    ensures Declared(svcs', id)
  {
    var i, j :| 0 <= i < |svcs| && 0 <= j < |svcs[i].stops| && id == StopIdentity(svcs[i].id, svcs[i].stops[j].slug);
    assert svcs[i] in multiset(svcs');
    var i' :| 0 <= i' < |svcs'| && svcs'[i'] == svcs[i];
    assert id == StopIdentity(svcs'[i'].id, svcs'[i'].stops[j].slug);
  }

  lemma PairsFitPermuted(svcs: seq<CompilableService>, pairs: seq<InterchangePair>,
                         svcs': seq<CompilableService>, pairs': seq<InterchangePair>)
    requires multiset(svcs) == multiset(svcs') && SamePairs(pairs, pairs')
    requires forall k :: 0 <= k < |pairs| ==> PairOk(svcs, pairs[k])
    ensures forall k :: 0 <= k < |pairs'| ==> PairOk(svcs', pairs'[k])
  {
    hide Declared;
    forall k | 0 <= k < |pairs'| ensures PairOk(svcs', pairs'[k]) {
      var p := pairs'[k];
      assert p in pairs';
      var q := if p in pairs then p else Flip(p);
      var l :| 0 <= l < |pairs| && pairs[l] == q;
      assert PairOk(svcs, pairs[l]);
      DeclaredPermuted(svcs, svcs', q.a);
      DeclaredPermuted(svcs, svcs', q.b);
    }
  }

  lemma SamePairsBack(pairs: seq<InterchangePair>, pairs': seq<InterchangePair>)
    requires SamePairs(pairs, pairs')
    ensures SamePairs(pairs', pairs)
  {
  }

  lemma OneServiceGraph(sqrt: real -> real, project: (seq<Point>, Point) -> Planar, svc: CompilableService, global: Policy,
                        sg: ServiceGraph, sg': ServiceGraph)
    requires ServiceCompiled(sqrt, project, svc, global, sg) && ServiceCompiled(sqrt, project, svc, global, sg')
    ensures sg == sg'
  {
    hide CompiledFrom, Fault;
    var placed :| CompiledFrom(sqrt, project, svc, global, placed, sg);
    var placed' :| CompiledFrom(sqrt, project, svc, global, placed', sg');
    GraphDetermined(sqrt, project, svc, global, placed, sg, placed', sg');
  }

  /** What is left of the faults: the same service is at fault in the same way, wherever it stands. */
  lemma FaultsPermuted(svcs: seq<CompilableService>, merged: seq<CompilableService>,
                       svcs': seq<CompilableService>, merged': seq<CompilableService>, global: Policy)
    requires multiset(svcs) == multiset(svcs') && |merged| == |svcs| && |merged'| == |svcs'|
    requires forall i, i' :: 0 <= i < |svcs| && 0 <= i' < |svcs'| && svcs[i] == svcs'[i'] ==> merged[i] == merged'[i']
    requires forall i :: 0 <= i < |merged| ==> Fault(merged[i], global).None?
    ensures forall i :: 0 <= i < |merged'| ==> Fault(merged'[i], global).None?
  {
    hide Fault;
    forall i' | 0 <= i' < |merged'| ensures Fault(merged'[i'], global).None? {
      assert svcs'[i'] in multiset(svcs);
      var i :| 0 <= i < |svcs| && svcs[i] == svcs'[i'];
      assert merged[i] == merged'[i'];
    }
  }

  /** Nothing stands in the way of compiling: every pair is fit, and so is every merged service. */
  ghost predicate NoFault(svcs: seq<CompilableService>, pairs: seq<InterchangePair>, merged: seq<CompilableService>, global: Policy) {
    && (forall k :: 0 <= k < |pairs| ==> PairOk(svcs, pairs[k]))
    && (forall i :: 0 <= i < |merged| ==> Fault(merged[i], global).None?)
  }

  /**
   The order of the services, and the order, number and direction of the declared pairs, decide nothing:
   the one list compiles exactly when the other does, and then the graphs have the same nodes, the same
   report and the same edges and waits for each service.
   */
  lemma CompileOrderIndependent(sqrt: real -> real, project: (seq<Point>, Point) -> Planar, dist: (Point, Point) -> real, global: Policy,
                                svcs: seq<CompilableService>, pairs: seq<InterchangePair>, merged: seq<CompilableService>, m: Merge,
                                svcs': seq<CompilableService>, pairs': seq<InterchangePair>, merged': seq<CompilableService>, m': Merge)
    requires DistinctIdentities(svcs) && multiset(svcs) == multiset(svcs') && SamePairs(pairs, pairs')
    requires MergedAs(dist, svcs, pairs, merged, m) && MergedAs(dist, svcs', pairs', merged', m')
    ensures NoFault(svcs, pairs, merged, global) <==> NoFault(svcs', pairs', merged', global)
    ensures forall graph, graph' ::
              GraphOf(sqrt, project, merged, m, global, graph) && GraphOf(sqrt, project, merged', m', global, graph') ==>
                && graph.nodes == graph'.nodes && graph.merge == graph'.merge
                && |graph.services| == |svcs| && |graph'.services| == |svcs'|
                && forall i, i' :: 0 <= i < |svcs| && 0 <= i' < |svcs'| && svcs[i] == svcs'[i'] ==>
                     graph.services[i] == graph'.services[i']
  {
    hide MergedAs, NoFault, SamePairs, DistinctIdentities;
    MergeOrderIndependent(dist, svcs, pairs, merged, m, svcs', pairs', merged', m');
    MergedLengths(dist, svcs, pairs, merged, m);
    MergedLengths(dist, svcs', pairs', merged', m');
    SamePairsBack(pairs, pairs');
    NoFaultPermuted(svcs, pairs, merged, svcs', pairs', merged', global);
    NoFaultPermuted(svcs', pairs', merged', svcs, pairs, merged, global);
    hide GraphOf;
    forall graph, graph' | GraphOf(sqrt, project, merged, m, global, graph) && GraphOf(sqrt, project, merged', m', global, graph')
      ensures
        && graph.nodes == graph'.nodes && graph.merge == graph'.merge
        && |graph.services| == |svcs| && |graph'.services| == |svcs'|
        && forall i, i' :: 0 <= i < |svcs| && 0 <= i' < |svcs'| && svcs[i] == svcs'[i'] ==>
             graph.services[i] == graph'.services[i']
    {
      GraphsAlike(sqrt, project, global, svcs, merged, svcs', merged', m, graph, graph');
    }
  }

  lemma MergedLengths(dist: (Point, Point) -> real, svcs: seq<CompilableService>, pairs: seq<InterchangePair>,
                      merged: seq<CompilableService>, m: Merge)
    requires MergedAs(dist, svcs, pairs, merged, m)
    ensures |merged| == |svcs|
  {
    hide SortedStops, MergedSites;
    assert SameExceptSlugs(svcs, merged);
  }

  lemma GraphsAlike(sqrt: real -> real, project: (seq<Point>, Point) -> Planar, global: Policy,
                    svcs: seq<CompilableService>, merged: seq<CompilableService>,
                    svcs': seq<CompilableService>, merged': seq<CompilableService>, m: Merge,
                    graph: TransitGraph, graph': TransitGraph)
    requires |merged| == |svcs| && |merged'| == |svcs'|
    requires forall i, i' :: 0 <= i < |svcs| && 0 <= i' < |svcs'| && svcs[i] == svcs'[i'] ==> merged[i] == merged'[i']
    requires GraphOf(sqrt, project, merged, m, global, graph) && GraphOf(sqrt, project, merged', m, global, graph')
    ensures graph.nodes == graph'.nodes && graph.merge == graph'.merge
    ensures |graph.services| == |svcs| && |graph'.services| == |svcs'|
    ensures forall i, i' :: 0 <= i < |svcs| && 0 <= i' < |svcs'| && svcs[i] == svcs'[i'] ==>
              graph.services[i] == graph'.services[i']
  {
    hide ServiceCompiled;
    forall i, i' | 0 <= i < |svcs| && 0 <= i' < |svcs'| && svcs[i] == svcs'[i']
      ensures graph.services[i] == graph'.services[i']
    {
      OneServiceGraph(sqrt, project, merged[i], global, graph.services[i], graph'.services[i']);
    }
  }

  lemma NoFaultPermuted(svcs: seq<CompilableService>, pairs: seq<InterchangePair>, merged: seq<CompilableService>,
                        svcs': seq<CompilableService>, pairs': seq<InterchangePair>, merged': seq<CompilableService>, global: Policy)
    requires multiset(svcs) == multiset(svcs') && |merged| == |svcs| && |merged'| == |svcs'| && SamePairs(pairs, pairs')
    requires forall i, i' :: 0 <= i < |svcs| && 0 <= i' < |svcs'| && svcs[i] == svcs'[i'] ==> merged[i] == merged'[i']
    ensures NoFault(svcs, pairs, merged, global) ==> NoFault(svcs', pairs', merged', global)
  {
    hide PairOk, SamePairs, Fault;
    if NoFault(svcs, pairs, merged, global) {
      PairsFitPermuted(svcs, pairs, svcs', pairs');
      FaultsPermuted(svcs, merged, svcs', merged', global);
    }
  }
}
