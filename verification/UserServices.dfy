/**
 `CompilableFromUserService` (internal/transit/compilable.go): stop slugs are minted in authored order,
 the stops are then put in sequence order, and the result is what a scenario compiles. `lower` stands for
 trimming and lower-casing a name.
 */
module UserServices {
  import opened Collections
  import opened Sorting
  import opened BoardingWait
  import opened Compilables
  import opened StopSlugs
  import opened PhysicsCompiler
  import opened ScenarioCompiler
  import opened Clustering
  import opened ClusterKeys
  import opened Folding
  import opened Merging
  import opened Projection
  import opened Reals
  import MergeServices
  import SpanRun

  datatype UserStop = UserStop(name: string, lat: real, lng: real, place: int, offsetM: real)

  datatype UserService = UserService(
    id: string, slug: string, routeId: string, vehicle: VehicleDynamics, dwellS: int, stops: seq<UserStop>,
    windows: seq<Window>, boardingWait: Option<Override>)

  function TextsOf(lower: string -> string, stops: seq<UserStop>): (texts: seq<string>)
    ensures |texts| == |stops|
  {
    Map((s: UserStop) => lower(s.name), stops)
  }

  // ----- Sequence order -----

  function PlaceNumber(stops: seq<UserStop>, i: nat): int {
    if i < |stops| then stops[i].place else 0
  }

  function EarlierIn(stops: seq<UserStop>): (nat, nat) -> bool {
    (a: nat, b: nat) => PlaceNumber(stops, a) < PlaceNumber(stops, b)
  }

  function Indices(n: nat): seq<nat> {
    seq(n, i requires 0 <= i < n => i)
  }

  /** The authored positions in order of sequence number, equal numbers in authored order. */
  function Order(stops: seq<UserStop>): (order: seq<nat>)
    ensures |order| == |stops|
  {
    StableSort(Indices(|stops|), EarlierIn(stops))
  }

  /** Every authored position is taken exactly once, in ascending sequence number. */
  lemma OrderPermutes(stops: seq<UserStop>)
    ensures forall i: nat :: i in Order(stops) <==> i < |stops|
    ensures NoRepeat(Order(stops))
    ensures Sorted(Order(stops), EarlierIn(stops))
  {
    hide StableSort;
    var all := Indices(|stops|);
    forall i: nat ensures i in Order(stops) <==> i < |stops| {
      SortedElements(all, EarlierIn(stops), i);
      if i < |stops| {
        assert all[i] == i;
      }
    }
    StableSortPermutes(all, EarlierIn(stops));
    MergeServices.NoRepeatPermuted(all, Order(stops));
    StableSortSorted(all, EarlierIn(stops));
  }

  lemma {:induction false} InsertKeepsTies(stops: seq<UserStop>, x: nat, s: seq<nat>, less: (nat, nat) -> bool)
    requires less == EarlierIn(stops) && (forall i :: 0 <= i < |s| ==> x < s[i]) && TiesAscend(stops, s)
    ensures TiesAscend(stops, Insert(x, s, less))
    ensures forall i :: 0 <= i < |Insert(x, s, less)| ==> Insert(x, s, less)[i] == x || Insert(x, s, less)[i] in s
  {
    if s != [] && less(s[0], x) {
      var rest := Insert(x, s[1..], less);
      InsertKeepsTies(stops, x, s[1..], less);
      forall j | 0 <= j < |rest| && PlaceNumber(stops, rest[j]) == PlaceNumber(stops, s[0]) ensures s[0] < rest[j] {
        assert rest[j] == x || rest[j] in s[1..];
      }
    }
  }

  /** Positions with one sequence number come in authored order. */
  ghost predicate TiesAscend(stops: seq<UserStop>, s: seq<nat>) {
    forall i, j :: 0 <= i < j < |s| && PlaceNumber(stops, s[i]) == PlaceNumber(stops, s[j]) ==> s[i] < s[j]
  }

  lemma {:induction false} SortKeepsTies(stops: seq<UserStop>, s: seq<nat>, less: (nat, nat) -> bool)
    requires less == EarlierIn(stops) && forall i, j :: 0 <= i < j < |s| ==> s[i] < s[j]
    ensures TiesAscend(stops, StableSort(s, less))
  {
    if s != [] {
      var sorted := StableSort(s[1..], less);
      SortKeepsTies(stops, s[1..], less);
      forall i | 0 <= i < |sorted| ensures s[0] < sorted[i] {
        SortedElements(s[1..], less, sorted[i]);
        assert sorted[i] in sorted;
      }
      InsertKeepsTies(stops, s[0], sorted, less);
    }
  }

  // ----- The operation -----

  ghost predicate SlugsFor(isWord: char -> bool, lower: string -> string, svcSlug: string, stops: seq<UserStop>, slugs: seq<string>) {
    && |slugs| == |stops| && NoRepeat(slugs)
    && forall k :: 0 <= k < |slugs| ==> SlugAt(isWord, svcSlug, TextsOf(lower, stops), slugs, k)
  }

  function CompiledStop(svc: UserService, slugs: seq<string>, i: nat): CompilableStop
    requires i < |svc.stops| == |slugs|
  {
    var s := svc.stops[i];
    CompilableStop(slugs[i], s.name, s.lat, s.lng, svc.dwellS, s.offsetM)
  }

  ghost predicate FromUser(isWord: char -> bool, lower: string -> string, route: Route, svc: UserService,
                           slugs: seq<string>, cs: CompilableService) {
    var order := Order(svc.stops);
    && SlugsFor(isWord, lower, svc.slug, svc.stops, slugs)
    && cs == CompilableService(svc.id, route, svc.vehicle, cs.stops, svc.windows, svc.boardingWait, None)
    && |cs.stops| == |order|
    && forall k :: 0 <= k < |order| ==> order[k] < |svc.stops| && cs.stops[k] == CompiledStop(svc, slugs, order[k])
  }

  method CompilableFromUserService(isWord: char -> bool, lower: string -> string, route: Route, svc: UserService)
    returns (result: Option<CompilableService>, ghost slugs: seq<string>)
    requires !isWord('-')
    ensures result.None? <==> route.id != svc.routeId
    ensures result.Some? ==> FromUser(isWord, lower, route, svc, slugs, result.value)
  {
    hide SlugAt, StableSort;
    slugs := [];
    if route.id != svc.routeId { return None, slugs; }
    var minted := StopSlugs.StopSlugs(isWord, svc.slug, TextsOf(lower, svc.stops));
    slugs := minted;
    OrderPermutes(svc.stops);
    var order := StableSort(Indices(|svc.stops|), EarlierIn(svc.stops));
    var compiled, k := [], 0;
    while k < |order|
      invariant 0 <= k <= |order| && |compiled| == k
      invariant forall j :: 0 <= j < k ==> order[j] < |svc.stops| && compiled[j] == CompiledStop(svc, minted, order[j])
    {
      assert order[k] in Order(svc.stops);
      var stop := svc.stops[order[k]];
      compiled := compiled + [CompilableStop(minted[order[k]], stop.name, stop.lat, stop.lng, svc.dwellS, stop.offsetM)];
      k := k + 1;
    }
    return Some(CompilableService(svc.id, route, svc.vehicle, compiled, svc.windows, svc.boardingWait, None)), slugs;
  }

  /**
   The compiled stops are the authored ones in order of sequence number, equal numbers in authored order, each
   with its own name, position and offset, the slug minted for it, and the vehicle's dwell.
   */
  lemma StopsInSequence(isWord: char -> bool, lower: string -> string, route: Route, svc: UserService,
                        slugs: seq<string>, cs: CompilableService) returns (order: seq<nat>)
    requires FromUser(isWord, lower, route, svc, slugs, cs)
    ensures |order| == |cs.stops| == |svc.stops| == |slugs| && NoRepeat(order)
    ensures forall k :: 0 <= k < |order| ==>
              && order[k] < |svc.stops|
              && var from, to := svc.stops[order[k]], cs.stops[k];
                 && to.name == from.name && to.lat == from.lat && to.lng == from.lng && to.offsetM == from.offsetM
                 && to.dwellS == svc.dwellS && to.slug == slugs[order[k]]
    ensures forall j, k :: 0 <= j < k < |order| ==>
              svc.stops[order[j]].place < svc.stops[order[k]].place
              || (svc.stops[order[j]].place == svc.stops[order[k]].place && order[j] < order[k])
    ensures cs.id == svc.id && cs.route == route && cs.vehicle == svc.vehicle && cs.windows == svc.windows
    ensures cs.boardingWait == svc.boardingWait
  {
    order := Order(svc.stops);
    OrderPermutes(svc.stops);
    SortKeepsTies(svc.stops, Indices(|svc.stops|), EarlierIn(svc.stops));
    hide StableSort, SlugsFor;
    forall j, k | 0 <= j < k < |order|
      ensures svc.stops[order[j]].place < svc.stops[order[k]].place
              || (svc.stops[order[j]].place == svc.stops[order[k]].place && order[j] < order[k])
    {
      assert order[j] in order && order[k] in order;
      assert !EarlierIn(svc.stops)(order[k], order[j]);
    }
    SlugCount(isWord, lower, route, svc, slugs, cs);
  }

  lemma SlugCount(isWord: char -> bool, lower: string -> string, route: Route, svc: UserService, slugs: seq<string>, cs: CompilableService)
    requires FromUser(isWord, lower, route, svc, slugs, cs)
    ensures |slugs| == |svc.stops|
  {
    hide Order, SlugAt;
  }

  // ----- Slugs depend on authored order alone -----

  lemma FirstFreeUnique(base: string, taken: set<string>, a: string, b: string)
    requires FirstFree(base, taken, a) && FirstFree(base, taken, b)
    ensures a == b
  {
    hide Text.Suffixed;
  }

  /** The slugs are determined by the service's slug and the names, whatever the sequence numbers are. */
  lemma {:induction false} SlugsDetermined(isWord: char -> bool, lower: string -> string, svcSlug: string,
                                           stops: seq<UserStop>, slugs: seq<string>, stops': seq<UserStop>, slugs': seq<string>, n: nat)
    requires SlugsFor(isWord, lower, svcSlug, stops, slugs) && SlugsFor(isWord, lower, svcSlug, stops', slugs')
    requires TextsOf(lower, stops) == TextsOf(lower, stops') && n <= |stops| == |stops'|
    ensures slugs[..n] == slugs'[..n]
  {
    hide FirstFree, StopBase, TextsOf;
    if n > 0 {
      SlugsDetermined(isWord, lower, svcSlug, stops, slugs, stops', slugs', n - 1);
      assert SlugAt(isWord, svcSlug, TextsOf(lower, stops), slugs, n - 1);
      assert SlugAt(isWord, svcSlug, TextsOf(lower, stops'), slugs', n - 1);
      FirstFreeUnique(StopBase(isWord, svcSlug, TextsOf(lower, stops)[n - 1]), Elements(slugs[..n - 1]), slugs[n - 1], slugs'[n - 1]);
    }
  }

  // ----- Slugs never collide -----

  /** The stops of one user service have distinct slugs, so compiling it never fails for a duplicate. */
  lemma UserStopsDistinct(isWord: char -> bool, lower: string -> string, route: Route, svc: UserService,
                          slugs: seq<string>, cs: CompilableService)
    requires FromUser(isWord, lower, route, svc, slugs, cs)
    ensures DistinctSlugs(cs.stops)
  {
    hide SlugAt, Order;
    var order := Order(svc.stops);
    OrderPermutes(svc.stops);
    forall j, k | 0 <= j < k < |cs.stops| ensures cs.stops[j].slug != cs.stops[k].slug {
      assert order[j] != order[k];
    }
  }

  lemma UserSlugPrefix(isWord: char -> bool, lower: string -> string, route: Route, svc: UserService,
                       slugs: seq<string>, cs: CompilableService, k: nat)
    requires FromUser(isWord, lower, route, svc, slugs, cs) && k < |cs.stops|
    ensures svc.slug + "--" <= cs.stops[k].slug
  {
    hide FirstFree, Order, TextsOf, StopBase;
    var i := Order(svc.stops)[k];
    assert SlugAt(isWord, svc.slug, TextsOf(lower, svc.stops), slugs, i);
    StopSlugPrefix(isWord, svc.slug, TextsOf(lower, svc.stops)[i], Elements(slugs[..i]), slugs[i]);
  }

  /** A user service as a scenario compiles it: with the scenario's boarding wait, if it has one. */
  ghost predicate ForScenario(isWord: char -> bool, lower: string -> string, wait: Option<Override>, svc: UserService,
                              slugs: seq<string>, cs: CompilableService) {
    && cs.scenarioBoardingWait == wait
    && cs.route.id == svc.routeId
    && FromUser(isWord, lower, cs.route, svc, slugs, cs.(scenarioBoardingWait := None))
  }

  ghost predicate AllForScenario(isWord: char -> bool, lower: string -> string, wait: Option<Override>,
                                 users: seq<UserService>, slugs: seq<seq<string>>, svcs: seq<CompilableService>) {
    && |users| == |slugs| == |svcs|
    && forall i :: 0 <= i < |users| ==> ForScenario(isWord, lower, wait, users[i], slugs[i], svcs[i])
  }

  /** Services with different minted slugs. */
  ghost predicate DistinctlyMinted(users: seq<UserService>) {
    && (forall i, j :: 0 <= i < j < |users| ==> users[i].slug != users[j].slug)
    && (forall i :: 0 <= i < |users| ==> Shaped(users[i].slug))
  }

  /** No two stops of a scenario of user services share a slug. */
  lemma UserSlugsDistinct(isWord: char -> bool, lower: string -> string, wait: Option<Override>, users: seq<UserService>,
                          slugs: seq<seq<string>>, svcs: seq<CompilableService>)
    requires AllForScenario(isWord, lower, wait, users, slugs, svcs) && DistinctlyMinted(users)
    ensures DistinctStopSlugs(svcs)
  {
    hide FromUser, Shaped;
    forall i, j, k, l |
      && 0 <= i < |svcs| && 0 <= j < |svcs[i].stops| && 0 <= k < |svcs| && 0 <= l < |svcs[k].stops|
      && svcs[i].stops[j].slug == svcs[k].stops[l].slug
      ensures i == k && j == l
    {
      assert ForScenario(isWord, lower, wait, users[i], slugs[i], svcs[i]);
      assert ForScenario(isWord, lower, wait, users[k], slugs[k], svcs[k]);
      var here, there := svcs[i].(scenarioBoardingWait := None), svcs[k].(scenarioBoardingWait := None);
      if i == k {
        UserStopsDistinct(isWord, lower, svcs[i].route, users[i], slugs[i], here);
      } else {
        UserSlugPrefix(isWord, lower, svcs[i].route, users[i], slugs[i], here, j);
        UserSlugPrefix(isWord, lower, svcs[k].route, users[k], slugs[k], there, l);
        ServicesNeverCollide(users[i].slug, users[k].slug, svcs[i].stops[j].slug, svcs[k].stops[l].slug);
        assert false;
      }
    }
  }

  /** What a user service itself must get right: a fit route, two stops, a wait that resolves, a vehicle that moves. */
  predicate FitToCompile(svc: UserService, wait: Option<Override>, cs: CompilableService, global: Policy) {
    && 2 <= |cs.route.line| && (cs.route.segments == [] || |cs.route.segments| == |cs.route.line| - 1)
    && 2 <= |svc.stops|
    && WaitFor(svc.boardingWait, wait, global, svc.windows).Ok?
    && 0.0 < svc.vehicle.maxSpeedKMH && 0.0 < svc.vehicle.accelerationMS2 && 0.0 < svc.vehicle.decelerationMS2
  }

  /** What is left to go wrong for a user service on its own: the route, the number of stops, the policy, the vehicle. */
  lemma UserServiceCompiles(isWord: char -> bool, lower: string -> string, wait: Option<Override>, svc: UserService,
                            slugs: seq<string>, cs: CompilableService, global: Policy)
    requires ForScenario(isWord, lower, wait, svc, slugs, cs)
    ensures Fault(cs, global).None? <==> FitToCompile(svc, wait, cs, global)
  {
    var base := cs.(scenarioBoardingWait := None);
    UserStopsDistinct(isWord, lower, cs.route, svc, slugs, base);
    hide SlugsFor, Order, WaitFor;
    assert cs.stops == base.stops && |base.stops| == |svc.stops|;
    assert cs.vehicle == svc.vehicle && cs.windows == svc.windows && cs.boardingWait == svc.boardingWait;
    hide FromUser, DistinctSlugs;
  }

  // ----- Compiling a scenario of user services (internal/transit/compile_userscenario.go) -----

  /** The route of that id, the last one if the list repeats it. */
  function RoutesById(routes: seq<Route>): (m: map<string, Route>)
    ensures forall id :: id in m <==> exists r :: r in routes && r.id == id
    ensures forall id :: id in m ==> m[id] in routes && m[id].id == id
  {
    if routes == [] then map[]
    else
      var n := |routes| - 1;
      assert routes == routes[..n] + [routes[n]];
      RoutesById(routes[..n])[routes[n].id := routes[n]]
  }

  method IndexRoutes(routes: seq<Route>) returns (routesById: map<string, Route>)
    ensures routesById == RoutesById(routes)
  {
    routesById := map[];
    var i := 0;
    while i < |routes|
      invariant 0 <= i <= |routes| && routesById == RoutesById(routes[..i])
    {
      assert routes[..i + 1][..i] == routes[..i];
      routesById := routesById[routes[i].id := routes[i]];
      i := i + 1;
    }
    assert routes[..i] == routes;
  }

  datatype Collected = Collected(svcs: seq<CompilableService>) | UnknownRoute(index: nat)

  ghost predicate RouteKnown(routes: seq<Route>, user: UserService) {
    exists r :: r in routes && r.id == user.routeId
  }

  /** Each service with its route and the scenario's boarding wait, or the first without a route. */
  method GatherServices(isWord: char -> bool, lower: string -> string, routes: seq<Route>, users: seq<UserService>,
                        wait: Option<Override>)
    returns (out: Collected, ghost slugs: seq<seq<string>>)
    requires !isWord('-')
    ensures out.Collected? <==> forall i :: 0 <= i < |users| ==> RouteKnown(routes, users[i])
    ensures out.Collected? ==> AllForScenario(isWord, lower, wait, users, slugs, out.svcs)
    ensures out.UnknownRoute? ==>
              && out.index < |users| && !RouteKnown(routes, users[out.index])
              && forall i :: 0 <= i < out.index ==> RouteKnown(routes, users[i])
  {
    hide FromUser, RoutesById;
    var routesById := IndexRoutes(routes);
    var svcs, i := [], 0;
    slugs := [];
    while i < |users|
      invariant 0 <= i <= |users| && |slugs| == |svcs| == i
      invariant forall k :: 0 <= k < i ==> RouteKnown(routes, users[k])
      invariant forall k :: 0 <= k < i ==> ForScenario(isWord, lower, wait, users[k], slugs[k], svcs[k])
    {
      if users[i].routeId !in routesById { return UnknownRoute(i), slugs; }
      var made, minted := CompilableFromUserService(isWord, lower, routesById[users[i].routeId], users[i]);
      var cs := made.value;
      MadeFor(isWord, lower, routesById[users[i].routeId], users[i], minted, cs);
      assert cs.(scenarioBoardingWait := wait).(scenarioBoardingWait := None) == cs;
      svcs, slugs := svcs + [cs.(scenarioBoardingWait := wait)], slugs + [minted];
      i := i + 1;
    }
    return Collected(svcs), slugs;
  }

  lemma MadeFor(isWord: char -> bool, lower: string -> string, route: Route, svc: UserService, slugs: seq<string>, cs: CompilableService)
    requires FromUser(isWord, lower, route, svc, slugs, cs)
    ensures cs.route == route && cs.scenarioBoardingWait == None
  {
    hide SlugsFor, Order;
  }

  datatype ScenarioResult = NoRoute(index: nat) | Ran(outcome: Outcome)

  method CompileUserScenario(isWord: char -> bool, lower: string -> string, sqrt: real -> real,
                             project: (seq<Point>, Point) -> Planar, dist: (Point, Point) -> real,
                             routes: seq<Route>, users: seq<UserService>, pairs: seq<InterchangePair>,
                             wait: Option<Override>, global: Policy)
    returns (result: ScenarioResult, ghost slugs: seq<seq<string>>, ghost svcs: seq<CompilableService>,
             ghost merged: seq<CompilableService>, ghost m: Merge)
    requires IsSquareRoot(sqrt) && !isWord('-')
    ensures result.Ran? <==> forall i :: 0 <= i < |users| ==> RouteKnown(routes, users[i])
    ensures result.NoRoute? ==>
              && result.index < |users| && !RouteKnown(routes, users[result.index])
              && forall i :: 0 <= i < result.index ==> RouteKnown(routes, users[i])
    ensures result.Ran? ==>
              && AllForScenario(isWord, lower, wait, users, slugs, svcs)
              && (result.outcome.BadPair? <==> exists k :: 0 <= k < |pairs| && !PairOk(svcs, pairs[k]))
              && (result.outcome.BadPair? ==>
                    && result.outcome.index < |pairs| && !PairOk(svcs, pairs[result.outcome.index])
                    && forall k :: 0 <= k < result.outcome.index ==> PairOk(svcs, pairs[k]))
              && (!result.outcome.BadPair? ==> MergeServices.MergedAs(dist, svcs, pairs, merged, m))
              && (result.outcome.BadService? ==>
                    && result.outcome.index < |merged| && Fault(merged[result.outcome.index], global) == Some(result.outcome.error)
                    && forall k :: 0 <= k < result.outcome.index ==> Fault(merged[k], global).None?)
              && (result.outcome.Compiled? ==> GraphOf(sqrt, project, merged, m, global, result.outcome.graph))
  {
    hide AllForScenario, RouteKnown, MergeServices.MergedAs, GraphOf, IsSquareRoot, PairOk, Fault;
    svcs, merged, m := [], [], Merge([], [], MergeReport([], []));
    var gathered, minted := GatherServices(isWord, lower, routes, users, wait);
    slugs := minted;
    if gathered.UnknownRoute? { return NoRoute(gathered.index), slugs, svcs, merged, m; }
    svcs := gathered.svcs;
    var outcome, out, merge := CompileServices(sqrt, project, dist, gathered.svcs, pairs, global);
    return Ran(outcome), slugs, svcs, out, merge;
  }

  /**
   The graph of a compiled scenario of user services: nodes have distinct slugs, they are exactly the
   endpoints of the edges, and no service has two stops at one node.
   */
  lemma UserScenarioGraph(isWord: char -> bool, lower: string -> string, wait: Option<Override>,
                          users: seq<UserService>, slugs: seq<seq<string>>,
                          sqrt: real -> real, project: (seq<Point>, Point) -> Planar, dist: (Point, Point) -> real,
                          svcs: seq<CompilableService>, pairs: seq<InterchangePair>, global: Policy,
                          merged: seq<CompilableService>, m: Merge, graph: TransitGraph)
    requires AllForScenario(isWord, lower, wait, users, slugs, svcs) && DistinctlyMinted(users)
    requires MergeServices.MergedAs(dist, svcs, pairs, merged, m)
    requires GraphOf(sqrt, project, merged, m, global, graph)
    ensures DistinctNodes(graph.nodes)
    ensures AllEndpoints(graph.services) == NodeSlugs(graph.nodes)
    ensures |merged| == |svcs| && forall i :: 0 <= i < |merged| ==> DistinctSlugs(merged[i].stops)
  {
    hide MergeServices.MergedAs, AllForScenario, ServiceCompiled, DistinctStopSlugs, DistinctNodes, DistinctSlugs;
    UserSlugsDistinct(isWord, lower, wait, users, slugs, svcs);
    GraphNodesDistinct(dist, svcs, pairs, merged, m);
    GraphClosed(sqrt, project, dist, svcs, pairs, global, merged, m, graph);
    MergedLengths(dist, svcs, pairs, merged, m);
    forall i | 0 <= i < |merged| ensures DistinctSlugs(merged[i].stops) {
      CompiledDistinct(sqrt, project, merged[i], global, graph.services[i]);
    }
  }

  lemma CompiledDistinct(sqrt: real -> real, project: (seq<Point>, Point) -> Planar, svc: CompilableService,
                         global: Policy, sg: ServiceGraph)
    requires ServiceCompiled(sqrt, project, svc, global, sg)
    ensures DistinctSlugs(svc.stops)
  {
    hide CompiledFrom, WaitOf, DistinctSlugs;
  }

  /**
   When a scenario of user services compiles, service by service: each must be fit, and the merge must put
   no two of its stops together.
   */
  lemma UserScenarioCompiles(isWord: char -> bool, lower: string -> string, wait: Option<Override>,
                             users: seq<UserService>, slugs: seq<seq<string>>, dist: (Point, Point) -> real,
                             svcs: seq<CompilableService>, pairs: seq<InterchangePair>, global: Policy,
                             merged: seq<CompilableService>, m: Merge, i: nat)
    requires AllForScenario(isWord, lower, wait, users, slugs, svcs) && DistinctlyMinted(users)
    requires MergeServices.MergedAs(dist, svcs, pairs, merged, m) && i < |users|
    ensures |merged| == |svcs| == |users|
    ensures |Greedy(dist, MergeServices.SitesOf(MergeServices.SortedStops(svcs))).clusterOf| == |MergeServices.SortedStops(svcs)|
    ensures Fault(merged[i], global).None? <==> FitToCompile(users[i], wait, svcs[i], global) && KeptApart(dist, svcs, pairs, i)
  {
    hide MergeServices.MergedAs, ForScenario, DistinctStopSlugs, DistinctlyMinted, Fault, Greedy,
         MergeServices.SortedStops, KeptApart, WaitFor;
    UserSlugsDistinct(isWord, lower, wait, users, slugs, svcs);
    GreedyFaithful(dist, MergeServices.SitesOf(MergeServices.SortedStops(svcs)));
    CompilesIffKeptApart(dist, svcs, pairs, merged, m, global, i);
    MergedLengths(dist, svcs, pairs, merged, m);
    UserServiceCompiles(isWord, lower, wait, users[i], slugs[i], svcs[i], global);
  }
}
