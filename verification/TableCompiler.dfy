/**
 Edge emission of the table compiler (internal/transit/compile.go, `Compile`): for every pair of
 consecutive calls a forward edge over the path found and a reverse edge over the same path walked back.
 */
module TableCompiler {
  import opened Collections
  import opened Sorting
  import opened SegmentGraph
  import opened BreadthFirst
  import opened Compilables

  /** Where a path lies on a route, if the whole of it lies on one. */
  datatype Placement = Placement(routeId: string, fromM: real, toM: real)

  /** What the edges need of the stops called at: their dwell, and the placement of a path on the routes. */
  datatype Calls = Calls(dwell: map<string, int>, place: seq<string> -> Option<Placement>)

  /** The dwell at a station; only the stops called at have one. */
  function DwellAt(dwell: map<string, int>, slug: string): int {
    if slug in dwell then dwell[slug] else 0
  }

  /** The dwell at every called stop of the path after its first. */
  function PathDwell(path: seq<string>, dwell: map<string, int>): int {
    if |path| < 2 then 0 else PathDwell(path[..|path| - 1], dwell) + DwellAt(dwell, path[|path| - 1])
  }

  method PathDwellSecs(path: seq<string>, dwell: map<string, int>) returns (secs: int)
    requires path != []
    ensures secs == PathDwell(path, dwell)
  {
    secs := 0;
    var i := 1;
    while i < |path|
      invariant 1 <= i <= |path|
      invariant secs == PathDwell(path[..i], dwell)
    {
      assert path[..i + 1][..i] == path[..i];
      if path[i] in dwell {
        secs := secs + dwell[path[i]];
      }
      i := i + 1;
    }
    assert path[..i] == path;
  }

  lemma {:induction false} DwellHead(path: seq<string>, dwell: map<string, int>)
    requires |path| >= 2
    ensures PathDwell(path, dwell) == DwellAt(dwell, path[1]) + PathDwell(path[1..], dwell)
  {
    hide DwellAt;
    if |path| > 2 {
      var n := |path| - 1;
      DwellHead(path[..n], dwell);
      assert path[..n][1..] == path[1..][..n - 1];
    } else {
      assert PathDwell(path[..1], dwell) == 0 == PathDwell(path[1..], dwell);
    }
  }

  /** There and back a path has the same dwell, but for the end each direction leaves out. */
  lemma {:induction false} DwellBothWays(path: seq<string>, dwell: map<string, int>)
    requires path != []
    ensures PathDwell(Reversed(path), dwell) + DwellAt(dwell, path[|path| - 1])
            == PathDwell(path, dwell) + DwellAt(dwell, path[0])
  {
    hide DwellAt;
    if |path| >= 2 {
      var n := |path| - 1;
      DwellBothWays(path[..n], dwell);
      DwellHead(Reversed(path), dwell);
      assert Reversed(path)[1..] == Reversed(path[..n]);
    }
  }

  /** An edge over a path, from the first of the two chainages to the second. */
  function PlacedEdge(from: string, to: string, seconds: int, dwellS: int, place: Option<Placement>): (e: Edge)
    ensures e.seconds == seconds && e.dwellS == dwellS
  {
    match place
    case None => Edge(from, to, seconds, dwellS, "", 0.0, 0.0)
    case Some(at) => Edge(from, to, seconds, dwellS, at.routeId, at.fromM, at.toM)
  }

  /** The same stretch the other way. */
  function Swapped(place: Option<Placement>): Option<Placement> {
    match place
    case None => None
    case Some(at) => Some(Placement(at.routeId, at.toM, at.fromM))
  }

  /**
   The two edges of a hop: run times over one fewest-hop path, the reverse one over the same segments
   taken the other way, each plus the dwell of the calls it passes, and one placement for both. The dwells
   differ by the two ends, the run times not at all unless a segment of the path overrides its reverse.
   */
  ghost predicate HopEdges(adj: Adj, segs: seq<SegmentTime>, calls: Calls, a: string, b: string,
                           path: seq<string>, fwd: Edge, rev: Edge) {
    && WalkBetween(adj, path, a, b)
    && (forall p :: WalkBetween(adj, p, a, b) ==> |path| <= |p|)
    && fwd == PlacedEdge(a, b, WalkSeconds(adj, path) + fwd.dwellS, PathDwell(path, calls.dwell), calls.place(path))
    && rev == PlacedEdge(b, a, BackwardSeconds(segs, path) + rev.dwellS, PathDwell(Reversed(path), calls.dwell),
                         Swapped(calls.place(path)))
    && rev.dwellS + DwellAt(calls.dwell, b) == fwd.dwellS + DwellAt(calls.dwell, a)
    && (NoOverrides(segs, path) ==> rev.seconds - rev.dwellS == fwd.seconds - fwd.dwellS)
  }

  /** Edges `2k` and `2k + 1` are the two edges of the `k`-th hop. */
  ghost predicate PairOk(adj: Adj, segs: seq<SegmentTime>, calls: Calls, slugs: seq<string>, edges: seq<Edge>, k: nat)
    requires k + 1 < |slugs| && 2 * k + 1 < |edges|
  {
    HopOk(adj, segs, calls, slugs[k], slugs[k + 1], edges[2 * k], edges[2 * k + 1])
  }

  ghost predicate HopOk(adj: Adj, segs: seq<SegmentTime>, calls: Calls, a: string, b: string, fwd: Edge, rev: Edge) {
    exists path :: HopEdges(adj, segs, calls, a, b, path, fwd, rev)
  }

  /** Fails exactly when some consecutive pair is unreachable; otherwise two edges per pair, in order. */
  method EmitEdges(adj: Adj, ghost segs: seq<SegmentTime>, slugs: seq<string>, calls: Calls)
    returns (edges: Option<seq<Edge>>)
    requires Represents(adj, segs)
    ensures edges.None? <==> exists i, j :: 0 <= i && j == i + 1 && j < |slugs| && !Reachable(adj, slugs[i], slugs[j])
    ensures edges.Some? ==>
              && |edges.value| == (if slugs == [] then 0 else 2 * (|slugs| - 1))
              && forall k :: 0 <= k < |slugs| - 1 ==> PairOk(adj, segs, calls, slugs, edges.value, k)
  {
    hide HopEdges, HopOk, Walk, WalkSeconds, Steps, Represents, PairOk, Reachable;
    var out, i := [], 0;
    while i + 1 < |slugs|
      invariant 0 <= i && (i == 0 || i < |slugs|)
      invariant |out| == 2 * i
      invariant forall k, l :: 0 <= k < i && l == k + 1 && l < |slugs| ==> Reachable(adj, slugs[k], slugs[l])
      invariant forall k :: 0 <= k < i ==> PairOk(adj, segs, calls, slugs, out, k)
    {
      var found := SegmentPathSeconds(adj, slugs[i], slugs[i + 1]);
      if found.NoPath? { return None; }
      var fwd, rev := HopPair(adj, segs, calls, slugs[i], slugs[i + 1], found.secs, found.path);
      PairAdded(adj, segs, calls, slugs, out, fwd, rev, i, found.path);
      out := out + [fwd, rev];
      i := i + 1;
    }
    return Some(out);
  }

  lemma PairAdded(adj: Adj, segs: seq<SegmentTime>, calls: Calls, slugs: seq<string>, edges: seq<Edge>,
                  fwd: Edge, rev: Edge, i: nat, path: seq<string>)
    requires i + 1 < |slugs| && |edges| == 2 * i
    requires forall k :: 0 <= k < i ==> PairOk(adj, segs, calls, slugs, edges, k)
    requires HopEdges(adj, segs, calls, slugs[i], slugs[i + 1], path, fwd, rev)
    ensures forall k :: 0 <= k < i + 1 ==> PairOk(adj, segs, calls, slugs, edges + [fwd, rev], k)
  {
    hide HopEdges;
    var longer := edges + [fwd, rev];
    forall k | 0 <= k < i + 1 ensures PairOk(adj, segs, calls, slugs, longer, k) {
      if k < i {
        assert PairOk(adj, segs, calls, slugs, edges, k);
        assert longer[2 * k] == edges[2 * k] && longer[2 * k + 1] == edges[2 * k + 1];
      } else {
        assert HopOk(adj, segs, calls, slugs[i], slugs[i + 1], fwd, rev);
        assert longer[2 * k] == fwd && longer[2 * k + 1] == rev;
      }
    }
  }

  lemma WalkEnds(adj: Adj, path: seq<string>, a: string, b: string)
    requires WalkBetween(adj, path, a, b)
    ensures Walk(adj, path) && path != [] && path[0] == a && path[|path| - 1] == b
  {
  }

  lemma HopMade(adj: Adj, segs: seq<SegmentTime>, calls: Calls, a: string, b: string, path: seq<string>, fwd: Edge, rev: Edge)
    requires Represents(adj, segs) && WalkBetween(adj, path, a, b) && Steps(path)
    requires forall p :: WalkBetween(adj, p, a, b) ==> |path| <= |p|
    requires fwd == PlacedEdge(a, b, WalkSeconds(adj, path) + fwd.dwellS, PathDwell(path, calls.dwell), calls.place(path))
    requires rev == PlacedEdge(b, a, BackwardSeconds(segs, path) + rev.dwellS, PathDwell(Reversed(path), calls.dwell),
                               Swapped(calls.place(path)))
    ensures HopEdges(adj, segs, calls, a, b, path, fwd, rev)
  {
    hide WalkSeconds, BackwardSeconds, Represents, Steps, Walk, WalkBetween, PathDwell, Reversed, NoOverrides, DwellAt,
         PlacedEdge, Swapped;
    WalkEnds(adj, path, a, b);
    DwellBothWays(path, calls.dwell);
    if NoOverrides(segs, path) {
      BackwardWithoutOverrides(adj, segs, path);
    }
  }

  /** The two edges of a path with their run times and dwells, placed where the path is. */
  method PlacedPair(calls: Calls, a: string, b: string, path: seq<string>, secs: int, fwdDwell: int, revSecs: int, revDwell: int)
    returns (fwd: Edge, rev: Edge)
    ensures fwd == PlacedEdge(a, b, secs + fwdDwell, fwdDwell, calls.place(path))
    ensures rev == PlacedEdge(b, a, revSecs + revDwell, revDwell, Swapped(calls.place(path)))
  {
    fwd := Edge(a, b, secs + fwdDwell, fwdDwell, "", 0.0, 0.0);
    rev := Edge(b, a, revSecs + revDwell, revDwell, "", 0.0, 0.0);
    var place := calls.place(path);
    if place.Some? {
      var at := place.value;
      fwd := fwd.(routeId := at.routeId, fromChainageM := at.fromM, toChainageM := at.toM);
      rev := rev.(routeId := at.routeId, fromChainageM := at.toM, toChainageM := at.fromM);
    }
  }

  method HopPair(adj: Adj, ghost segs: seq<SegmentTime>, calls: Calls, a: string, b: string, secs: int, path: seq<string>)
    returns (fwd: Edge, rev: Edge)
    requires Represents(adj, segs) && WalkBetween(adj, path, a, b) && Steps(path)
    requires secs == WalkSeconds(adj, path)
    requires forall p :: WalkBetween(adj, p, a, b) ==> |path| <= |p|
    ensures HopEdges(adj, segs, calls, a, b, path, fwd, rev)
  {
    hide WalkSeconds, BackwardSeconds, Represents, Steps, HopEdges, PathDwell, Walk, WalkBetween, PlacedEdge, Swapped,
         Reversed;
    WalkEnds(adj, path, a, b);
    WalkedBack(adj, segs, path);
    var back := ReversePath(path);
    var revSecs := PathRunSeconds(adj, back);
    var fwdDwell := PathDwellSecs(path, calls.dwell);
    var revDwell := PathDwellSecs(back, calls.dwell);
    fwd, rev := PlacedPair(calls, a, b, path, secs, fwdDwell, revSecs, revDwell);
    HopMade(adj, segs, calls, a, b, path, fwd, rev);
  }

  // ----- What the edges say -----

  /** The edges of the `k`-th pair run from the one call to the next and back. */
  lemma EdgesFollowCalls(adj: Adj, segs: seq<SegmentTime>, calls: Calls, slugs: seq<string>, edges: seq<Edge>, k: nat)
    requires k + 1 < |slugs| && 2 * k + 1 < |edges| && PairOk(adj, segs, calls, slugs, edges, k)
    ensures edges[2 * k].fromSlug == slugs[k] && edges[2 * k].toSlug == slugs[k + 1]
    ensures edges[2 * k + 1].fromSlug == slugs[k + 1] && edges[2 * k + 1].toSlug == slugs[k]
  {
    hide WalkSeconds, BackwardSeconds, PathDwell, NoOverrides, WalkBetween, Reversed;
  }

  /**
   Both edges lie on one path between the two calls. If that is placed on a route, they carry the route and the
   two chainages, in order on the way there and swapped on the way back; otherwise they carry no route.
   */
  lemma EdgesPlaced(adj: Adj, segs: seq<SegmentTime>, calls: Calls, slugs: seq<string>, edges: seq<Edge>, k: nat)
    returns (path: seq<string>)
    requires k + 1 < |slugs| && 2 * k + 1 < |edges| && PairOk(adj, segs, calls, slugs, edges, k)
    ensures WalkBetween(adj, path, slugs[k], slugs[k + 1])
    ensures match calls.place(path)
            case None => edges[2 * k].routeId == "" && edges[2 * k + 1].routeId == ""
            case Some(at) =>
              && edges[2 * k].routeId == at.routeId && edges[2 * k + 1].routeId == at.routeId
              && edges[2 * k].fromChainageM == at.fromM && edges[2 * k].toChainageM == at.toM
              && edges[2 * k + 1].fromChainageM == at.toM && edges[2 * k + 1].toChainageM == at.fromM
  {
    hide WalkSeconds, BackwardSeconds, PathDwell, NoOverrides, WalkBetween, Reversed;
    path :| HopEdges(adj, segs, calls, slugs[k], slugs[k + 1], path, edges[2 * k], edges[2 * k + 1]);
  }

  /** The first segment that joins the two stations, in whichever direction it is given. */
  ghost predicate FirstBetween(segs: seq<SegmentTime>, a: string, b: string, s: nat) {
    && s < |segs|
    && ((segs[s].fromSlug == a && segs[s].toSlug == b) || (segs[s].fromSlug == b && segs[s].toSlug == a))
    && forall t :: 0 <= t < s ==>
         !(segs[t].fromSlug == a && segs[t].toSlug == b) && !(segs[t].fromSlug == b && segs[t].toSlug == a)
  }

  lemma FirstBetweenIsFirstJoin(segs: seq<SegmentTime>, a: string, b: string, s: nat)
    requires FirstBetween(segs, a, b, s)
    ensures FirstJoin(segs, a, b) == s
  {
    var f := FirstJoin(segs, a, b);
    assert Joins(segs[s], a, b);
    assert Joins(segs[f], a, b);
  }

  /** A segment between two stations is a hop between them, either way in that direction's own time. */
  lemma SegmentIsHop(adj: Adj, segs: seq<SegmentTime>, a: string, b: string, s: nat)
    requires Represents(adj, segs) && a != b && FirstBetween(segs, a, b, s)
    ensures Hop(adj, a, b)
    ensures HopSeconds(adj, a, b) == if segs[s].fromSlug == a || segs[s].reverseRunSeconds.None? then segs[s].runSeconds
                                     else segs[s].reverseRunSeconds.value
  {
    hide Entries, FirstTo, FirstJoin;
    FirstBetweenIsFirstJoin(segs, a, b, s);
    EntryOfFirstJoin(segs, a, b);
    assert From(adj, a) == Entries(segs, a);
  }

  lemma TwoStations(adj: Adj, p: seq<string>, a: string, b: string)
    requires Hop(adj, a, b) && a != b && WalkBetween(adj, p, a, b)
    requires forall q :: WalkBetween(adj, q, a, b) ==> |p| <= |q|
    ensures p == [a, b]
  {
    hide Hop;
    assert WalkBetween(adj, [a, b], a, b);
    assert p == [p[0], p[1]];
  }

  lemma OneHop(adj: Adj, segs: seq<SegmentTime>, a: string, b: string)
    ensures WalkSeconds(adj, [a, b]) == HopSeconds(adj, a, b)
    ensures FirstJoin(segs, a, b) < |segs| ==>
              BackwardSeconds(segs, [a, b]) == SecondsFrom(segs[FirstJoin(segs, a, b)], b)
  {
    hide HopSeconds, SecondsFrom, FirstJoin;
    assert [a, b][..1] == [a];
    assert WalkSeconds(adj, [a]) == 0 && BackwardSeconds(segs, [a]) == 0;
  }

  /**
   Between calls that a segment joins, the way there takes that segment's time in its direction and the way
   back its time the other way: its own time, or the override if it is taken against its direction.
   */
  lemma NextDoorTimes(adj: Adj, segs: seq<SegmentTime>, calls: Calls, slugs: seq<string>, edges: seq<Edge>, k: nat, s: nat)
    requires k + 1 < |slugs| && 2 * k + 1 < |edges| && PairOk(adj, segs, calls, slugs, edges, k)
    requires Represents(adj, segs) && slugs[k] != slugs[k + 1] && FirstBetween(segs, slugs[k], slugs[k + 1], s)
    ensures var seg := segs[s];
            var against := if seg.reverseRunSeconds.Some? then seg.reverseRunSeconds.value else seg.runSeconds;
            && edges[2 * k].seconds - edges[2 * k].dwellS == (if seg.fromSlug == slugs[k] then seg.runSeconds else against)
            && edges[2 * k + 1].seconds - edges[2 * k + 1].dwellS == (if seg.fromSlug == slugs[k] then against else seg.runSeconds)
  {
    hide PathDwell, WalkSeconds, BackwardSeconds, NoOverrides, Reversed, WalkBetween, Represents, HopSeconds, FirstJoin, Hop;
    var a, b := slugs[k], slugs[k + 1];
    var path :| HopEdges(adj, segs, calls, a, b, path, edges[2 * k], edges[2 * k + 1]);
    SegmentIsHop(adj, segs, a, b, s);
    TwoStations(adj, path, a, b);
    FirstBetweenIsFirstJoin(segs, a, b, s);
    OneHop(adj, segs, a, b);
  }
}
