# Railway graph compiler and service handovers, modelled in Dafny

The API compiles authored railway services into a timed graph, and manages who owns the services that
people author. This project models the parts of it that are hard to get right and proves what they promise.

- **Shared definitions** (`Collections`, `Sorting`, `Text`). Options, stable sorting, string order and decimal suffixes.
- **Train kinematics** (`Reals`, `Kinematics`, `LegTime`, `LegPhases`, `SpanTime`, `Drives`, `SpeedLimits`,
  `SpanRun`, `ExtraStops`, `AddedStops`).
  A forward and a backward pass bound the speed at every segment boundary. The profile they give is the
  greatest feasible one, and its time is the least in which any train at those rates can be driven over the
  legs. Cutting a segment changes nothing, a stop added to a service never saves run time; rounded to whole
  seconds, one second at most.
- **Projection** (`Projection`, `Spans`, `ChainageOrder`). Stops snap to the nearest point of the line, the
  first one where it meets itself, and the spans between them tile the line exactly, so timing a span never lacks segments.
- **Stop merging** (`Clustering`, `NearStops`, `Connectivity`, `UnionFind`, `Folding`, `FoldPairs`,
  `Merging`, `MergeServices`, `ClusterKeys`, `MergedNodes`). Greedy clustering, then a union-find over a mutable array. Two
  stops end together exactly when they are connected, and no input order matters.
- **Graph compilers** (`SegmentGraph`, `BreadthFirst`, `TableCompiler`, `BoardingWait`, `Compilables`,
  `StopSlugs`, `UserServices`, `PhysicsCompiler`, `CompiledEdges`, `ScenarioCompiler`). Breadth-first paths have
  fewest hops and walk back over the same segments. A compiled scenario is closed: edge endpoints and nodes are
  the same set, and the order of services and pairs decides nothing.
- **Handovers** (`HandoverTables`, `HandoverStore`, `HandoverSafety`, `HandoverExpiry`, `HandoverHistory`,
  `HandoverBelongings`, `HandoverLaws`, `LateMembership`).
  Offers, decisions, transfers and the writes around them over the tables, with a chain of accepted handovers
  that always ends at the current owner, and lazily written expiry that refines eager expiry.
- **Published index** (`Publications`, `PublicationStore`, `IndexWalk`, `Cursors`), **staleness** (`Staleness`), **isochrone
  cache** (`IsochroneCache`) and **compile runner** (`Runner`): each agrees with something simpler.

`dafny verify dfyconfig.toml` checks the whole project.

## Assumptions

- Arithmetic is over `real`, without rounding, NaN or infinity. `math.Sqrt` and `math.Hypot` are a function
  parameter of which only `IsSquareRoot` is assumed: non-negative, and its square is its argument.
- Geographic points reach the plane through a parameter `project`, and the distance between two stops in
  merging is a parameter `dist` of which nothing is assumed.
- Each database transaction is one atomic step over tables held as maps, with a clock that never goes back.
  An offer carries a sender that may be out of date, as the handler reads the owner before the insert.
- From the schema, which is not part of this model, these constraints are taken as given: at most one handover
  of a service stored as pending (`service_handovers_one_pending`); the isochrone cache key treats NULLs as
  equal (`isochrone_cache_key`); `first_published_at` is set at insert; slugs of services, routes and
  publications are unique.
- `creator` and `ledger` in the handover tables are history variables, not tables.

## Where the code and its documentation differ, or a property needs a condition

- `GraphStale` is exact about membership only when the current ids are distinct; with a repeated id a pass
  means that a compiled member is gone (`Staleness.RepeatedMemberMisjudged`). A policy that does not resolve
  counts as "none", so a graph can pass although compiling again would fail (`Staleness.UnresolvedPassesForNone`).
  The API refuses both inputs before they are stored, so either needs a row written outside it.
- A scenario write checks ownership and inserts members in separate transactions. With both as one step every
  member is owned; `LateMembership.LateInsertHarmlessIff` says exactly which runs in between are harmless, and
  `TransferBetweenCheckAndInsert` gives the shortest one that is not.
- A compile job belongs to whoever asks for it and a route only has to suit whoever saves the service, an admin
  included, so a job or a private route can be out of step with the service's owner. `HandoverBelongings` says
  exactly which writes do that and that every move puts it right.
- A stop added to a service never lowers its run time, but each span is rounded to whole seconds, so the compiled
  total can fall by one second (`AddedStops.AddedStopCompiled`, `AddedStops.RoundingCanSave`).
- Stops authored against the route come out exactly reversed only if no two share a chainage
  (`ChainageOrder.DecreasingReversesOrder`, `ChainageOrder.TiedStopsLoseNeighbours`).
- The runner's record of jobs in flight is exact as long as no job is admitted under an id that is in flight
  (`Runner.StepExact`, `Runner.SharedIdSpoils`).
- The reverse edge of the physics compiler reuses the forward run time. The proof beside it is that reversing
  a span and swapping acceleration with braking keeps the time (`SpanTime.ReverseRunSameTime`).

## Model

| member | source | states |
|---|---|---|
| Kinematics.BoundedNodeSpeeds | internal/physics/runtime.go:64-84 | both passes and their minimum, as loops over slices, give the bounded profile |
| Kinematics.NodeSpeedsFeasible | internal/physics/runtime.go:64-84 | the bounded profile starts and ends at rest, keeps every cap on both sides of each node, and no neighbour asks for more than either rate gives, also after the minimum of the passes |
| Kinematics.NodeSpeedsGreatest | internal/physics/runtime.go:64-84 | every feasible profile lies below it at every node |
| LegTime.ClampIdleIff | internal/physics/runtime.go:101-112 | the guard on the peak speed has an effect exactly when a boundary speed is not reachable from the other, so never on bounded speeds |
| LegPhases.PhasesCoverLeg | internal/physics/runtime.go:86-113 | in both branches the time is that of a run which respects cap and rates, holds speed only at the cap, and whose phase distances sum to the length |
| LegTime.FasterBoundaries | internal/physics/runtime.go:86-113 | raising either boundary speed never raises the time of a segment |
| LegTime.CutSpeedOk | internal/physics/runtime.go:86-113 | the speed a drivable segment has at an inner point is drivable on both sides of it |
| LegTime.CutSpeedGreatest | internal/physics/runtime.go:86-113 | and it is the greatest such speed |
| LegTime.CutExact | internal/physics/runtime.go:86-113 | the time of a segment is exactly the sum of the times of its two pieces at that speed |
| LegTime.Mirror | internal/physics/runtime.go:86-113 | driving a segment the other way with the rates swapped takes the same time |
| Drives.DriveNoFaster | internal/physics/runtime.go:86-113 | however a leg is driven, at steadily changing speeds within its cap and the two rates, it takes at least the leg's time between the speeds at its ends |
| Drives.FastestDrive | internal/physics/runtime.go:86-113 | and some drive takes exactly that time |
| SpanTime.LeastTime | internal/physics/runtime.go:52-113 | no feasible speed profile has a lower total than the span's run time |
| Drives.NoFasterJourney | internal/physics/runtime.go:52-113 | no journey over the legs from rest to rest, within caps and rates, is faster than the span's run time |
| Drives.FastestJourney | internal/physics/runtime.go:52-113 | and one takes exactly that time |
| SpanTime.StopNeverSaves | internal/physics/runtime.go:52-113 | stopping at a boundary never lowers the total |
| SpanTime.StopInsideLegNeverSaves | internal/physics/runtime.go:52-113 | nor does stopping in the middle of a segment |
| ExtraStops.SplitAt | internal/physics/project.go:216-227 | splitting a span at any chainage keeps its pieces, but for one that may be cut in two |
| ExtraStops.ExtraStopNeverSaves | internal/physics/runtime.go:52-113 | the run between two chainages of a line is never longer than the two runs around a stop between them |
| ExtraStops.AddedStopNeverSaves | internal/physics/project.go:79-91 | adding a stop between two others never lowers the unrounded time between them, also when a span is empty |
| AddedStops.OneStopMore | internal/physics/project.go:75-91 | one stop more among stops in chainage order, an end included: the run times of all spans total no less, their rounded seconds at most one less |
| AddedStops.AddedStopCompiled | internal/transit/compile_physics.go:63-91 | the same for the edges of a compiled service with one stop more anywhere in its list |
| AddedStops.RoundedParts | internal/transit/compile_physics.go:69 | two parts that take no less than the whole have rounded seconds at most one less |
| AddedStops.RoundingCanSave | internal/transit/compile_physics.go:69 | one second less does happen: a run of 60.6 seconds in two parts of 30.4 |
| SpanTime.CutInvariant | internal/physics/runtime.go:52-113 | cutting any segment into two positive pieces with the same physics leaves the run time exactly unchanged |
| SpanTime.ReverseRunSameTime | internal/transit/compile_physics.go:84-89 | the reversed segments with acceleration and braking swapped take the same time |
| SpeedLimits.SpeedLimit | internal/physics/speedlimit.go:23-69 | the stages of the limit in order: lateral limit on a curve, vehicle maximum, grade |
| SpeedLimits.LimitIsGreatestAllowed | internal/physics/speedlimit.go:50-69 | the limit is the greatest speed within the vehicle maximum and what the cant supports, derated for the grade |
| SpeedLimits.LimitBounds | internal/physics/speedlimit.go:23-84 | a cap is positive, at most the vehicle maximum, and on a curve within what the effective cant supports |
| SpanRun.LegsCapped | internal/physics/runtime.go:34-48 | every leg has its segment's length, and as cap what the segment's slope leaves of the greatest speed that the vehicle and the segment's curve and cant allow |
| SpanRun.OnlyFallsDerate | internal/physics/runtime.go:34-43 | on straight track a climb, the level and a fall of up to 2 % leave the vehicle's maximum; a steeper fall costs speed, and never less the steeper it is |
| SpanRun.CurvesCap | internal/physics/speedlimit.go:52-59 | unless it falls more than 2 %, a leg is capped by the greatest speed within the vehicle's maximum that the applied cant and 150 mm of deficiency carry through the curve |
| SpanRun.LegsValid | internal/physics/runtime.go:28-50 | every segment's cap is positive, so the check on it in the loop never refuses |
| SpanRun.SlopeCosts | internal/physics/speedlimit.go:76-84 | the factor is one down to a fall of 2 %, below one past it, and never rises with the fall |
| SpanRun.SpanRunSeconds | internal/physics/runtime.go:14-60 | fails exactly for a vehicle with a non-positive limit or a positive span without segments, with the first error; zero for an empty span; otherwise the sum over the bounded speeds, which is the least time in which that vehicle can be driven from rest to rest over legs capped by the segments' own curves, cants and slopes |
| SpanRun.SumLegs | internal/physics/runtime.go:54-59 | the running total is the total over all segments |
| Projection.ClosestIsNearest | internal/physics/project.go:187-206 | no point of a segment, degenerate or not, is closer than the one returned |
| Projection.Chainages | internal/physics/project.go:115-133 | chainages accumulate the lengths of the segments |
| Projection.ChainageMonotone | internal/physics/project.go:115-133 | chainage never falls along the line |
| Projection.SnapPoint | internal/physics/project.go:172-185 | a snapped stop is a nearest point of the whole line, on the first segment that comes as near: every point of an earlier one is strictly farther; its chainage is that of the point and lies in [0, line length] |
| Projection.SnapDetermined | internal/physics/project.go:172-185 | so where a stop snaps is determined, also on a line that meets itself |
| Projection.SnapsNearest | internal/physics/project.go:172-206 | in coordinates: no point of the line is closer than where a stop snaps |
| Projection.VertexSnaps | internal/physics/project.go:172-206 | a vertex of the line snaps to itself |
| Projection.ChainageStep | internal/physics/project.go:115-133 | in coordinates: a vertex lies as far beyond the one before it as the two are apart |
| Projection.SnappedChainage | internal/physics/project.go:172-185 | a snapped point's chainage exceeds that of the vertex before it by the distance between them |
| Spans.Snap | internal/physics/project.go:157-170 | every stop is snapped, in order, with its distance from the line |
| Spans.SplitSpan | internal/physics/project.go:216-227 | the pieces of a span are the non-empty overlaps with the line's segments |
| Spans.SplitSums | internal/physics/project.go:216-227 | the pieces sum to exactly what the span shares with the line |
| Spans.SplitPositive | internal/physics/project.go:216-227 | every piece has positive length |
| Spans.SplitPieces | internal/physics/project.go:216-227 | one piece, in line order, for each segment of the line that shares some length with the span, of that length and with that segment's physics |
| Spans.LineContiguous | internal/physics/project.go:208-214 | the line's segments run from 0 to its length without gaps |
| Spans.ProjectStops | internal/physics/project.go:55-94 | refused exactly for a short line, mismatched physics or fewer than two stops; otherwise the spans between neighbours by chainage, ties in given order |
| Spans.SpansWellPieced | internal/physics/project.go:79-91 | each span's pieces are positive and sum exactly to its distance |
| Spans.SpansCoverLine | internal/physics/project.go:79-91 | spans chain end to end and total the greatest chainage minus the least |
| Spans.ProjectedSpansTimeable | internal/physics/runtime.go:27-29 | for what `ProjectStops` returns, the "no segments" error is unreachable |
| ChainageOrder.FirstChainageOrderFault | internal/transit/snap.go:118-136 | no fault exactly when the chainages run one way; otherwise the first pair that breaks the direction, and which direction it broke |
| ChainageOrder.IncreasingKeepsOrder | internal/physics/project.go:75-78 | projection keeps the authored order exactly when the chainages never fall |
| ChainageOrder.DecreasingReversesOrder | internal/physics/project.go:75-78 | it reverses the order exactly when the chainages strictly fall |
| ChainageOrder.CheckedStopsKeepNeighbours | internal/physics/project.go:75-91 | a list that passes the check without ties is joined neighbour to neighbour, all in order or all reversed |
| ChainageOrder.TiedStopsLoseNeighbours | internal/transit/snap.go:118-136 | three stops, two of them level, pass the check and are joined out of order |
| Clustering.ClusterStops | internal/transit/cluster.go:84-113 | first-fit over the sorted stops: each joins the first cluster that accepts it |
| Clustering.EffectiveMergeRadius | internal/transit/cluster.go:13-19 | the radius reaches the base plus both offsets or the cap, and exceeds neither |
| Clustering.GreedyFaithful | internal/transit/cluster.go:84-113 | a cluster holds exactly the stops sent to it, at most one of each service |
| NearStops.ClusterMembersNear | internal/transit/cluster.go:94-98 | every later member of a cluster lies within 50 m and both offsets of its first member, and within 500 m; no two are of one service |
| NearStops.EarlierClusterDoesNotFit | internal/transit/cluster.go:89-100 | a stop passes over an earlier cluster only if that has a stop of its service or its first stop is farther away than that |
| NearStops.GreedyIsFirstFit | internal/transit/cluster.go:84-113 | every stop is in the first cluster that fits it, or in a new one if none does |
| NearStops.FirstFitUnique | internal/transit/cluster.go:84-113 | and no other assignment of stops to clusters is |
| UnionFind.FindCluster | internal/transit/interchange.go:120-126 | returns the root; path halving in place changes no root; ends because the rank falls along the chain |
| UnionFind.HalvingKeepsForest | internal/transit/interchange.go:120-126 | one halving step keeps every root and every descent |
| UnionFind.UnionClusters | internal/transit/interchange.go:128-133 | exactly the two trees are joined |
| UnionFind.OneMoreLink | internal/transit/interchange.go:58-68 | roots coincide with connected components after each pair |
| Folding.SameFinalIndex | internal/transit/interchange.go:74-97 | two clusters share a folded cluster exactly when a chain of pairs connects them |
| Folding.FoldDependsOnComponents | internal/transit/interchange.go:74-118 | folded clusters and positions depend only on which clusters are connected |
| FoldPairs.BuildIndex | internal/transit/interchange.go:49-52 | the index holds the last stop with each identity |
| FoldPairs.ComputeRoots | internal/transit/interchange.go:54-73 | after all pairs two clusters share a root exactly when pairs connect them; a pair with an unknown stop is skipped |
| FoldPairs.EmitFolded | internal/transit/interchange.go:75-90 | groups come out once each, in order of their least cluster |
| FoldPairs.FoldGroup | internal/transit/interchange.go:99-118 | a group is the members of its component, sorted |
| FoldPairs.NothingToFold | internal/transit/interchange.go:44-47 | when nothing is connected, folding changes nothing |
| FoldPairs.FoldDeclaredPairs | internal/transit/interchange.go:44-97 | the whole fold computes the connected closure |
| Merging.SameFoldedClusterIffConnected | internal/transit/interchange.go:44-133 | two stops end in one folded cluster exactly when the closure of "same greedy cluster" and the declared pairs connects them |
| Merging.NearMissesExact | internal/transit/cluster.go:156-174 | the near misses are those of exactly the pairs of different services and clusters within the radius, each with its distance, ordered by the first stop and then the second |
| Merging.NamesInOrder | internal/transit/cluster.go:115-126 | a cluster's names are its members' names and no others, each once, in the order in which they first appear |
| Merging.MergeSites | internal/transit/cluster.go:23-49 | clusters, fold, keys, nodes and report of a sorted stop list |
| Merging.SamePairsSameComponents | internal/transit/interchange.go:75-80 | permuting, repeating or flipping pairs leaves the components unchanged |
| MergeServices.FlattenStops | internal/transit/cluster.go:51-71 | the stops of all services in order of slug, then service |
| MergeServices.SortedStopsComplete | internal/transit/cluster.go:51-71 | every stop of every service is listed exactly once |
| MergeServices.MergeColocatedStops | internal/transit/cluster.go:23-49 | every stop gets its cluster's key and nothing else about the services changes |
| MergeServices.MergeOrderIndependent | internal/transit/cluster.go:23-71 | permuted services and permuted, repeated or flipped pairs give the same nodes, report and per-stop keys, for distinct identities |
| ClusterKeys.NodesAreKeys | internal/transit/cluster.go:128-139 | the node slugs are exactly the keys written to stops |
| ClusterKeys.NodesDistinct | internal/transit/cluster.go:78 | distinct stop slugs give distinct node slugs |
| ClusterKeys.SameKeyIffConnected | internal/transit/cluster.go:36-47 | connected stops get one key; with distinct slugs only they do |
| MergedNodes.NodeOfStops | internal/transit/cluster.go:76-82 | a node has the slug and the position of the first stop, by slug and service, of those merged into it, and exactly their names |
| MergedNodes.NodeOfService | internal/transit/cluster.go:128-139 | so it stands where some service's stop does, latitude and longitude each its own |
| MergedNodes.ClusterBrings | internal/transit/cluster.go:36-38 | stops of one greedy cluster end at one node |
| MergedNodes.PairBrings | internal/transit/interchange.go:54-73 | so do the two stops that a declared pair names, however far apart |
| MergedNodes.NothingElseBrings | internal/transit/cluster.go:23-38 | without pairs, stops of different greedy clusters do not, if slugs are distinct |
| MergedNodes.TogetherReported | internal/transit/cluster.go:141-154 | stops that end together are reported together under their key |
| MergedNodes.ReportedTogether | internal/transit/cluster.go:141-154 | and what is reported together did end together, two stops at least |
| MergedNodes.NearMissesReported | internal/transit/cluster.go:156-174 | the near misses are exactly the pairs of stops of different services, at most 250 m apart, that did not end together, each once with its distance |
| MergeServices.SiteOfStop | internal/transit/cluster.go:58-64 | what merging reads of a stop is that stop's service, slug, name, position and offset |
| MergeServices.SitesAscend | internal/transit/cluster.go:65-70 | the sorted stops ascend by slug, and under one slug by service |
| SegmentGraph.BuildSegmentAdj | internal/transit/compile.go:163-188 | refused exactly when a segment has an unknown end or a reverse override that is not positive; otherwise two entries per segment in order |
| SegmentGraph.EntryOfFirstJoin | internal/transit/compile.go:181-182 | the first entry between two stations was made by the first segment joining them, with its time in that direction |
| SegmentGraph.HopBothWays | internal/transit/compile.go:181-182 | every hop has a hop back made by the same segment |
| SegmentGraph.WalkedBack | internal/transit/compile.go:235-268 | the reversed path finds an entry for every hop and takes the same segments' times the other way |
| SegmentGraph.SameTimeBothWays | internal/transit/compile.go:235-268 | forward and reverse run times agree when no segment of the path overrides its reverse |
| SegmentGraph.PathRunSeconds | internal/transit/compile.go:235-247 | the sum over hops of the first entry's time |
| SegmentGraph.ReversePath | internal/transit/compile.go:262-268 | the path backwards |
| BreadthFirst.FoundIsShortest | internal/transit/compile.go:203-221 | when the target turns up beside the shallowest open station, no path to it is shorter |
| BreadthFirst.NothingOpen | internal/transit/compile.go:203-224 | an emptied queue means the target is unreachable |
| BreadthFirst.Rebuild | internal/transit/compile.go:225-231 | following the predecessors back and reversing in place gives the path found |
| BreadthFirst.SegmentPathSeconds | internal/transit/compile.go:190-233 | fails exactly when the target is unreachable; otherwise a fewest-hop path whose total equals its run time |
| TableCompiler.EmitEdges | internal/transit/compile.go:87-112 | fails exactly when two consecutive calls are not connected; otherwise a forward and a reverse edge per pair over one path, with one placement, its chainages swapped in the reverse edge |
| TableCompiler.EdgesFollowCalls | internal/transit/compile.go:102-103 | of each pair of edges the first runs from a call to the next and the second back |
| TableCompiler.EdgesPlaced | internal/transit/compile.go:107-110 | a placed pair carries the route and its two chainages, in order there and swapped back; an unplaced pair no route |
| TableCompiler.NextDoorTimes | internal/transit/compile.go:174-182 | between calls joined by a segment each edge takes that segment's time in its own direction, the override only against it |
| TableCompiler.HopPair | internal/transit/compile.go:98-111 | each edge has its run time plus the dwell of the calls it passes; the dwells differ by the two ends, the run times not at all unless a segment of the path overrides its reverse |
| TableCompiler.DwellBothWays | internal/transit/compile.go:249-260 | there and back a path has the same dwell but for the end that each direction leaves out |
| BoardingWait.MinHeadway | internal/transit/boarding_wait.go:113-124 | the least headway of the windows, zero for none |
| BoardingWait.OwnOverrideDecides | internal/transit/boarding_wait.go:39-92 | the service's own override gives the wait, else the scenario's, else the global policy: none, the shortest headway, half of it, or the seconds it fixes; anything else is refused |
| BoardingWait.HalfOfFull | internal/transit/boarding_wait.go:79-82 | the half-headway wait is at most the full one, and twice it at most one second less |
| BoardingWait.OnlyOwnOverride | internal/transit/boarding_wait.go:39-60 | with an override of its own a service waits the same whatever the scenario and the global policy are |
| StopSlugs.Slugify | internal/transit/userservice.go:224-245 | words joined by single dashes, cut at 80, "service" when nothing is left |
| StopSlugs.SlugKeepsWords | internal/transit/userservice.go:224-245 | a slug keeps the name's letters and digits in order: all of them when it fits, the first ones when it is cut; a name without any becomes "service" |
| StopSlugs.SlugShaped | internal/transit/userservice.go:224-245 | a slug is never empty, never starts or ends with a dash, never has two in a row, and has at most 80 characters |
| StopSlugs.MintedShaped | internal/handler/service.go:318-334 | a collision suffix keeps that shape |
| StopSlugs.NextSlug | internal/transit/compilable.go:130-135 | the first free suffix; the loop ends because each taken slug is met at most once |
| StopSlugs.StopSlugs | internal/transit/compilable.go:119-139 | a distinct slug for every stop, each the first one free |
| StopSlugs.RepeatedNames | internal/transit/compilable.go:119-139 | of stops with one name the second gets the suffix 2, the third 3 |
| StopSlugs.StopSlugPrefix | internal/transit/compilable.go:130 | every stop slug starts with its service's slug and a double dash |
| StopSlugs.ServicesNeverCollide | internal/transit/compilable.go:119-139 | stops of services with different minted slugs never share a slug |
| UserServices.OrderPermutes | internal/transit/compilable.go:86-90 | every authored stop has one place in sequence order |
| UserServices.CompilableFromUserService | internal/transit/compilable.go:74-117 | refused exactly for another route; slugs are minted in authored order, then the stops are reordered |
| UserServices.StopsInSequence | internal/transit/compilable.go:86-117 | the compiled stops are the authored ones by sequence number, equal numbers in authored order, each with its own name, position, offset and slug and the vehicle's dwell |
| UserServices.SlugsDetermined | internal/transit/compilable.go:80-85 | a stop's slug does not depend on sequence numbers |
| UserServices.UserStopsDistinct | internal/transit/compilable.go:119-139 | the stops of one user service have distinct slugs after reordering |
| UserServices.UserSlugsDistinct | internal/transit/compilable.go:119-139 | no two stops of a scenario of user services with different minted slugs share a slug, whatever its boarding wait |
| UserServices.UserServiceCompiles | internal/transit/compile_physics.go:10-92 | a user service compiles, with or without a scenario's boarding wait, exactly when its route, number of stops, policy and vehicle are fit |
| UserServices.GatherServices | internal/transit/compile_userscenario.go:5-23 | the first service whose route is not given, if any; otherwise every service with its route and the scenario's boarding wait |
| UserServices.CompileUserScenario | internal/transit/compile_userscenario.go:5-25 | fails for the first missing route, else the first bad pair, else the first service that fails under its merged slugs and with its first fault; otherwise the graph of the gathered services |
| UserServices.UserScenarioCompiles | internal/transit/compile_scenario.go:41-60 | each user service compiles in its scenario exactly when its route, number of stops, policy and vehicle are fit and the merge puts no two of its stops together |
| UserServices.UserScenarioGraph | internal/transit/compile_scenario.go:41-60 | a compiled scenario of user services, with or without a boarding wait of its own, has distinct nodes, equal to the edge endpoints, and no service has two stops at one node |
| PhysicsCompiler.IndexStops | internal/transit/compile_physics.go:34-42 | finds a slug used twice exactly when there is one |
| PhysicsCompiler.CompileServicePhysics | internal/transit/compile_physics.go:10-92 | fails exactly with the first check failed, timing never among them; otherwise two edges per span with one run time, the dwell and chainage of where each ends, the route and the wait |
| PhysicsCompiler.FaultsInOrder | internal/transit/compile_physics.go:10-62 | each check is reached only if those before it pass |
| CompiledEdges.CompiledPair | internal/transit/compile_physics.go:49-91 | each pair of edges joins two stops of the service with none between them and carries the dwell of where each ends, the route, and the chainages where the stops snap; its seconds less the dwell are, to the nearest second, the least time in which the service's vehicle, at its own acceleration and braking, can be driven from rest to rest over the track between |
| CompiledEdges.TrackBetween | internal/physics/project.go:208-227 | that track is one piece for every segment of the route between the two chainages, in order, with the segment's own curve, cant and slope |
| CompiledEdges.StopOnVertex | internal/transit/compile_physics.go:36-42 | a stop authored on a vertex of its route snaps to that vertex with no offset |
| CompiledEdges.CompiledWait | internal/transit/compile_physics.go:55-62 | the wait on a compiled service is the one its own override gives, or else the scenario's |
| PhysicsCompiler.SpanHasPieces | internal/transit/compile_physics.go:63-68 | every span handed to timing has the pieces it needs |
| PhysicsCompiler.Round | internal/transit/compile_physics.go:69 | the nearest whole second, halves away from zero |
| PhysicsCompiler.GraphDetermined | internal/transit/compile_physics.go:10-92 | a service that compiles has exactly one graph |
| PhysicsCompiler.EndpointsAreSlugs | internal/transit/compile_physics.go:63-91 | the endpoints of a service's edges are exactly its stop slugs, all on its route |
| ScenarioCompiler.ValidateInterchangePairs | internal/transit/interchange.go:18-42 | the first pair on one service or with an unknown stop, if any |
| ScenarioCompiler.PairNames | internal/transit/interchange.go:18-42 | a pair is fit exactly when it names two services and a stop of each by slug |
| ScenarioCompiler.CompileServices | internal/transit/compile_scenario.go:41-60 | the first bad pair, else the first service that fails under its merged slugs, else every service's graph with the merge's nodes and report |
| ScenarioCompiler.GraphClosed | internal/transit/compile_scenario.go:47-51 | edge endpoints and node slugs are the same set |
| ScenarioCompiler.GraphNodesDistinct | internal/transit/compile_scenario.go:47-51 | with distinct stop slugs no two nodes share one |
| ScenarioCompiler.DistinctSlugsKeepApart | internal/transit/compile_physics.go:20-33 | a service that compiles after the merge has no two stops in one cluster |
| ScenarioCompiler.CompilesIffKeptApart | internal/transit/compile_physics.go:20-42 | a service compiles in a scenario exactly when it compiles alone and no chain of clusters and pairs joins two of its stops |
| ScenarioCompiler.CompileOrderIndependent | internal/transit/compile_scenario.go:41-60 | permuted services and permuted, repeated or flipped pairs compile or fail together, and give the same nodes, report, and edges and waits for each service, for distinct identities |
| HandoverStore.Repo.OfferServiceHandover | internal/persistence/postgres/handover.go:49-79 | the statements of an offer are the transaction `Offer` |
| HandoverStore.Repo.DecideHandover | internal/persistence/postgres/handover.go:415-440 | cancelling and declining are the transaction `Decide` |
| HandoverStore.Repo.CancelServiceHandover | internal/persistence/postgres/handover.go:101-103 | the sender's decision, which leaves the offer cancelled |
| HandoverStore.Repo.DeclineServiceHandover | internal/persistence/postgres/handover.go:105-107 | the recipient's decision, which leaves it declined |
| HandoverStore.Repo.AcceptServiceHandover | internal/persistence/postgres/handover.go:109-188 | accepting is the transaction `Accept`, refusals in the source's order |
| HandoverStore.Repo.TransferUserService | internal/persistence/postgres/handover.go:190-256 | an admin transfer is the transaction `Transfer`: expire, cancel what is live, record |
| HandoverStore.Repo.MoveLockedUserService | internal/persistence/postgres/handover.go:317-351 | refused in a scenario; otherwise owner, route and jobs move together |
| HandoverStore.Repo.CopyRouteTo | internal/persistence/postgres/handover.go:379-408 | a copy under the first free suffix within the attempts, or nothing |
| HandoverStore.Repo.UserServiceIDsOwnedBy | internal/persistence/postgres/userscenario.go:152-176 | exactly the given services that the owner owns |
| HandoverStore.Repo.ValidateScenario | internal/handler/userscenario.go:234-249 | passes exactly when every member exists and belongs to the owner |
| HandoverStore.Repo.InsertUserScenarioMembership | internal/persistence/postgres/userscenario.go:222-231 | one row per member, or a refusal when one does not exist |
| HandoverStore.Repo.CreateUserScenario | internal/persistence/postgres/userscenario.go:18-42 | the create transaction, which checks no ownership; a refused member rolls it back |
| HandoverStore.Repo.UpdateUserScenario | internal/persistence/postgres/userscenario.go:44-76 | clearing and reinserting the membership is `ReplaceMembers`; a refused member rolls it back |
| HandoverStore.Repo.CreateValidated | internal/handler/userscenario.go:45-85 | the check followed at once by the write is `CreateScenario` |
| HandoverStore.Repo.UpdateValidated | internal/handler/userscenario.go:127-158 | the check followed at once by the write is `UpdateScenario` |
| HandoverSafety.MoveEffects | internal/persistence/postgres/handover.go:317-351 | a refused move changes nothing, a done one only the service, its jobs and at most one new route |
| HandoverSafety.MoveCarriesJobs | internal/persistence/postgres/handover.go:317-351 | every compile job of the service goes to the recipient, no other changes |
| HandoverSafety.MoveCarriesRoute | internal/persistence/postgres/handover.go:317-408 | the route is one the recipient may reference, with the old content; no existing route changes |
| HandoverSafety.AcceptSafe | internal/persistence/postgres/handover.go:109-188 | accepting extends the chain from the current owner, even for an out-of-date offer |
| HandoverSafety.TransferSafe | internal/persistence/postgres/handover.go:190-256 | so does an admin transfer |
| HandoverSafety.StepSafe | internal/persistence/postgres/handover.go:49-351 | every transaction keeps: accepted rows form an unbroken chain from creator to owner, one stored pending offer per service, every scenario member owned by the scenario's owner |
| HandoverSafety.ScenarioSafe | internal/persistence/postgres/userscenario.go:18-76 | scenario writes, with check and insert as one step, keep every member owned |
| HandoverSafety.ReachableSafe | internal/persistence/postgres/handover.go:109-256 | every reachable state is safe |
| HandoverBelongings.MoveRejoins | internal/persistence/postgres/handover.go:296-351 | whatever was the case before, a move leaves the service's jobs with its new owner and its route one that owner may reference |
| HandoverBelongings.StepTogetherIff | internal/persistence/postgres/handover.go:296-351 | if every job is its service's owner's and every route may be referenced by the owner, a transaction keeps that exactly when the route or job it adds fits the owner |
| HandoverBelongings.RunTogetherIff | internal/handler/usercompile.go:26-41 | a run keeps it throughout exactly when every such write in it fits |
| HandoverBelongings.ReachableTogether | internal/handler/service.go:274-294 | so it holds of every state reached by fitting writes |
| HandoverLaws.SenderCancels | internal/persistence/postgres/handover.go:101-103 | a cancel goes through exactly for a pending, unexpired offer whose sender is the caller, and leaves that row cancelled now; otherwise the reply is not found or not pending and nothing changes |
| HandoverLaws.RecipientDeclines | internal/persistence/postgres/handover.go:105-107 | a decline likewise, for the recipient |
| HandoverLaws.OfferStored | internal/persistence/postgres/handover.go:49-79 | an offer is refused while another of the service is pending and unexpired; otherwise it is stored for fourteen days |
| HandoverLaws.OfferLeavesOthers | internal/persistence/postgres/handover.go:272-278 | it marks the service's expired offers as such, as of their expiry, and touches no other row |
| HandoverLaws.MovesIff | internal/persistence/postgres/handover.go:317-408 | a service can be given away exactly when it is in no scenario and its route, or a copy under a free suffix from 2 to 100, can be the recipient's |
| HandoverLaws.RecipientAccepts | internal/persistence/postgres/handover.go:109-188 | only the recipient accepts, only a pending, unexpired offer, only from the owner and not when disabled; then the service is the recipient's and the row accepted, or nothing changes |
| HandoverLaws.AdminTransfers | internal/persistence/postgres/handover.go:190-256 | a transfer gives the service to a user who is neither its owner nor disabled, closes its pending offers, and writes the audit row |
| HandoverLaws.DecidedByParties | internal/persistence/postgres/handover.go:101-256 | over any run: a declined offer was declined by its recipient, an accepted one accepted by its recipient or made by a transfer to that user, a cancelled one cancelled by its sender or by a transfer |
| HandoverLaws.ScenarioCreated | internal/persistence/postgres/userscenario.go:18-42 | with the handler's check a scenario holds exactly the services given, all the owner's, or is not created |
| HandoverLaws.ScenarioUpdated | internal/persistence/postgres/userscenario.go:44-76 | an update replaces the services and keeps the owner |
| HandoverExpiry.StepSimulated | internal/persistence/postgres/handover.go:272-278 | each transaction replies as a machine that closes offers the instant they expire, and stays in step with it |
| HandoverExpiry.RunSimulated | internal/persistence/postgres/handover.go:16-79 | so does every run |
| HandoverExpiry.ReadsAgree | internal/persistence/postgres/handover.go:16-31 | the status a read shows is the eager one; only the decision time may lag |
| HandoverExpiry.RefusedIffLive | internal/persistence/postgres/handover.go:41-79 | an offer is refused as pending exactly when a live one exists |
| HandoverHistory.ClosedStaysClosed | internal/persistence/postgres/handover.go:415-440 | a closed visible status never changes and no decision on it succeeds |
| HandoverHistory.NeverDecidedTwice | internal/persistence/postgres/handover.go:415-440 | over a whole run a closed offer keeps its status and refuses every decision |
| HandoverHistory.SecondDecisionNeedsDelete | internal/persistence/postgres/handover.go:109-188 | in any run, two decisions on one offer both go through only if its service was deleted between them |
| HandoverHistory.AtMostOneLive | internal/persistence/postgres/handover.go:49-79 | at most one live offer per service in every reachable state |
| LateMembership.LateInsertHarmlessIff | internal/persistence/postgres/userscenario.go:222-231 | with any transactions between check and insert, the insert goes through and keeps every member owned exactly when no member was deleted and every member that changed hands came back |
| LateMembership.LateInsertByHistory | internal/persistence/postgres/userscenario.go:222-231 | whatever ran before, the insert is harmless exactly when the recorded history of every member ends with the owner |
| LateMembership.QuietInsertHarmless | internal/handler/userscenario.go:229-249 | it does so whenever nothing in between deletes, transfers or accepts an offer of a member |
| LateMembership.RunKeepsOrMoves | internal/persistence/postgres/handover.go:109-256 | over a run without deletion a service's history only grows, and its owner changes only with it |
| LateMembership.TransferBetweenCheckAndInsert | internal/persistence/postgres/userscenario.go:18-76 | a transfer between the check and a create or update breaks membership |
| Publications.ListPublishedServiceSummaries | internal/persistence/postgres/publication.go:128-190 | one page in index order after the cursor, with the next cursor exactly when a further row exists |
| IndexWalk.PageNewestFirst | internal/persistence/postgres/publication.go:158-164 | a page lists the newest services beyond its cursor, newest first, slug breaking ties, no more than its limit, and has no next cursor exactly when nothing is left out |
| PublicationStore.Repo.UpsertPublication | internal/persistence/postgres/publication.go:234-263 | a republish keeps the first publish time, anything else is inserted now |
| PublicationStore.Repo.UnpublishUserService | internal/persistence/postgres/publication.go:74-95 | the service's row goes, and nothing else |
| PublicationStore.UpsertFound | internal/persistence/postgres/publication.go:234-263 | a row that exists gets the new content and publish time and keeps its first publish time |
| PublicationStore.UpsertMissing | internal/persistence/postgres/publication.go:234-263 | otherwise a row first published now is added |
| IndexWalk.WalkListsOnceInOrder | internal/persistence/postgres/publication.go:128-190 | with any writes between pages, each service is listed at most once and in strict index order |
| IndexWalk.WalkNewestFirst | internal/persistence/postgres/publication.go:158-164 | whatever is written between the pages, of two services listed the one first published later comes first |
| IndexWalk.WalkMissesNothing | internal/persistence/postgres/publication.go:128-263 | a service published throughout a finished walk is listed exactly once |
| IndexWalk.PagesConcatenate | internal/persistence/postgres/publication.go:128-190 | on an unchanged table the pages concatenate to the unpaged list, whatever their limits |
| IndexWalk.WalkEnds | internal/persistence/postgres/publication.go:128-190 | on an unchanged table one more read than there are rows, with positive limits, always ends the walk |
| Cursors.BytesRoundTrip | internal/handler/publishedservice.go:91-99 | decoding undoes encoding, for every byte string |
| Cursors.SymbolsOfAlphabet | internal/handler/publishedservice.go:91-94 | the symbols are the URL-safe alphabet of section 5 of RFC 4648, in order |
| Cursors.EncodedDigits | internal/handler/publishedservice.go:91-94 | each group of three bytes is written as its number to the base 64, the last group in as many digits as it needs, without padding |
| Cursors.CursorRoundTrip | internal/handler/publishedservice.go:88-110 | a cursor is the time, a vertical bar and the slug, and decodes to the key it encoded, also for a slug that contains a bar |
| Staleness.MembershipStale | internal/transit/staleness.go:18-38 | the three reasons to be outdated |
| Staleness.CurrentIffSameMembers | internal/transit/staleness.go:18-38 | with distinct current ids a pass means exactly: same members, none newer |
| Staleness.RepeatedMemberMisjudged | internal/transit/staleness.go:24-31 | with a repeated id a pass means a compiled member is gone |
| Staleness.RepeatedMemberPasses | internal/transit/staleness.go:24-31 | such a pass exists |
| Staleness.BoardingWaitStale | internal/transit/staleness.go:58-75 | stale exactly when some service's recorded kind, or fixed seconds, differs from the current policy |
| Staleness.EdgeRoutesStale | internal/transit/staleness.go:77-86 | stale exactly when some edge has no route |
| Staleness.GraphStale | internal/transit/staleness.go:5-16 | stale for any of the three reasons |
| Staleness.ChangedMemberStale | internal/transit/staleness.go:18-38 | a member edited since the job, added, or gone makes the graph stale |
| Staleness.UnroutedStale | internal/transit/staleness.go:77-86 | so does an edge without a route |
| Staleness.OverrideChangedStale | internal/transit/staleness.go:58-75 | so does an override, the service's own before the scenario's, that names another policy or fixes other seconds than were compiled |
| Staleness.CompiledNeverStale | internal/transit/staleness.go:5-16 | what `CompileServices` makes of the current members is not stale |
| Staleness.NotStaleSameWaits | internal/transit/boarding_wait.go:39-124 | if the check passes, compiling again records the same policy and seconds for a service exactly when its policy resolves |
| Staleness.UnresolvedPassesForNone | internal/handler/boarding_wait.go:61-71 | a policy that does not resolve passes the check for "none" |
| IsochroneCache.Cache.PutIsochroneCache | internal/persistence/postgres/worker.go:137-184 | a batch is all or nothing; each entry goes through the guarded upsert |
| IsochroneCache.Cache.GetIsochroneCache | internal/persistence/postgres/worker.go:77-135 | exactly the wanted keys that match a row |
| IsochroneCache.SameRowIff | internal/persistence/postgres/worker.go:104-109 | keys match a row exactly when they agree, with empty date and zero budget matching only themselves |
| IsochroneCache.UsableNeverUnknown | internal/persistence/postgres/worker.go:186-198 | the usable test is never NULL and means at least one feature and a textual or absent type |
| IsochroneCache.GuardIsRank | internal/persistence/postgres/worker.go:175-184 | the guard is never NULL and replaces a row exactly when the new entry ranks above it |
| IsochroneCache.PutReplaces | internal/persistence/postgres/worker.go:175-198 | a put fills an empty row; it replaces one only with a geometry that can be served, and only if the stored one cannot, or is unstamped where the new one is stamped, or has an earlier stamp |
| IsochroneCache.HoldsFirstGreatest | internal/persistence/postgres/worker.go:137-184 | after any puts a key holds the first entry of greatest rank it has seen |
| IsochroneCache.RankNeverFalls | internal/persistence/postgres/worker.go:137-184 | rows are never dropped and rank never falls |
| IsochroneCache.RankOrderIndependent | internal/persistence/postgres/worker.go:137-184 | the final rank does not depend on the order or repetition of puts |
| IsochroneCache.PutIsServed | internal/persistence/postgres/worker.go:137-184 | after a put its key holds something at least as good |
| Runner.CompileRunner.EnqueueJob | internal/compile/runner.go:27-39 | admission is one step, refused while draining |
| Runner.CompileRunner.AbandonAtDeadline | internal/compile/runner.go:74-83 | the ids in flight, each once |
| Runner.NeverGrowsOnceDraining | internal/compile/runner.go:27-61 | once draining, no interleaving grows the WaitGroup or admits a job |
| Runner.AdmittedUnlessDraining | internal/compile/runner.go:27-39 | outside a drain every job is admitted: recorded in flight, counted and left to run |
| Runner.DrainCanReturn | internal/compile/runner.go:62-83 | once every admitted job has finished a drain can return nil, until then only give up at its deadline |
| Runner.StepSound | internal/compile/runner.go:27-83 | the counter is the number of unfinished jobs in every reachable state, so never negative |
| Runner.WaiterWakesIffAllFinished | internal/compile/runner.go:62-66 | the waiter can wake exactly when every admitted job has finished |
| Runner.NilMeansFinished | internal/compile/runner.go:68-70 | a nil result means every admitted job finished and none is admitted later |
| Runner.StepExact | internal/compile/runner.go:37-48 | the record of ids in flight stays exact as long as no id in flight is admitted again |
| Runner.SharedIdSpoils | internal/compile/runner.go:37-48 | admitting one that is makes it wrong |
| Runner.DeadlineListsUnrecorded | internal/compile/runner.go:71-83 | with distinct job ids a deadline lists exactly the admitted jobs whose completion is not recorded |

## Left out

- Trigonometry (`projectPoint`, `unprojectPoint`, great-circle distance), rounding of floating-point numbers, NaN and infinity: the model works over reals on points already in the plane.
- HTTP handlers, JSON decoding, authentication, CORS, configuration, logging, metrics and error reports: plumbing with single-branch claims.
- The AMQP publisher and the rate limiter: their behaviour lives in libraries that are not part of this model.
- SQL migrations: the constraints the proofs rely on are listed above as assumptions.
- Row locks and isolation levels: each transaction is one atomic step. A lock on a service is what the source relies on for that.
- Station lookup, nodes and dwell resolution of the table compiler, and the search for the route a path lies on: the model starts from the adjacency lists and takes the dwell of each call and the placement of a path as given.
- The rest of `SnapToRoute`: distance limits and fault messages around the order check.
- Validation of user services and their frequency windows: independent single-field checks.
- Publication reads by slug, publish decisions and handover listings: plain queries and single-branch checks.
- Retention, job status writes and routing jobs: success and failure writes have no status guard, so nothing strong holds of them.
- Reconciling seeded data: it does not settle in one pass, and its steps are field copies.
- Graph contents beyond the waits in the staleness results: `GraphStale` reads neither interchange pairs nor geometry.
- StopSlugs.Slugify: takes the name already trimmed and lower-cased and a test for letters and digits, and counts characters where the source counts bytes; Unicode is not modelled.
- IndexWalk.WalkMissesNothing: a service is identified by its slug, which a deleted service frees for another, and a publish or unpublish takes effect between pages, never inside one.
- HandoverBelongings.StepTogetherIff: an owner is taken to be an ordinary user; an admin may reference any route. Changes of roles are not modelled.
- HandoverSafety.ScenarioSafe: takes a scenario write's ownership check and its insert as one step; the lemmas of `LateMembership` cover the code's separate steps.
- HandoverLaws.ScenarioCreated: likewise with check and write as one step.
- HandoverLaws.ScenarioUpdated: likewise.
- HandoverStore.Repo.ValidateScenario: leaves out the checks of names, blank or repeated ids and pairs that come before the ownership check.
- HandoverStore.Repo.CreateValidated: nothing happens between the check and the write; `LateMembership` says what may.
- HandoverStore.Repo.UpdateValidated: likewise.
- LateMembership.LateInsertHarmlessIff: takes ids of new services to be fresh, as the code mints them, so a deleted member is not created again.
- IsochroneCache.Cache.PutIsochroneCache: which entries the schema refuses is a parameter, compile job ids are taken in canonical form, and minutes are unbounded where the lookup narrows them to 32 bits.
- PhysicsCompiler.CompileServicePhysics: error messages carry only which check failed.
