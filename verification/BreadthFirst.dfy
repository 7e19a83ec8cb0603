/**
 The breadth-first search of the table compiler (internal/transit/compile.go, `segmentPathSeconds`): it
 fails exactly when the target is unreachable, and otherwise its path has the fewest hops and its time is
 the one `pathRunSeconds` reads off the path.
 */
module BreadthFirst {
  import opened Collections
  import opened Sorting
  import opened SegmentGraph

  datatype Item = Item(slug: string, secs: int)

  /** The stations the search has reached, with the path it reached each by. */
  type Routes = map<string, seq<string>>

  /** Every recorded path is a walk from the start, one hop longer than its predecessor's. */
  ghost predicate RoutesOk(adj: Adj, from: string, routes: Routes, prev: map<string, string>) {
    && from in routes && routes[from] == [from]
    && (forall x :: x in routes ==> WalkBetween(adj, routes[x], from, x) && Steps(routes[x]))
    && (forall x :: x in routes && x != from ==>
          x in prev && prev[x] in routes && routes[x] == routes[prev[x]] + [x])
  }

  /** The queue is ordered by path length, and spans at most one length beyond `depth`. */
  ghost predicate Layered(routes: Routes, queue: seq<Item>, depth: nat) {
    && (forall i :: 0 <= i < |queue| ==> queue[i].slug in routes && depth <= |routes[queue[i].slug]| <= depth + 1)
    && (forall i, j :: 0 <= i < j < |queue| ==> |routes[queue[i].slug]| <= |routes[queue[j].slug]|)
  }

  ghost predicate Timed(adj: Adj, routes: Routes, queue: seq<Item>) {
    forall i :: 0 <= i < |queue| && queue[i].slug in routes ==> queue[i].secs == WalkSeconds(adj, routes[queue[i].slug])
  }

  ghost function Waiting(queue: seq<Item>): set<string> {
    set i | 0 <= i < |queue| :: queue[i].slug
  }

  /** Every station reached but not in `open` has passed its reach on to all its neighbours. */
  ghost predicate Expanded(adj: Adj, routes: Routes, open: set<string>) {
    forall x, y :: x in routes && x !in open && Hop(adj, x, y) ==> y in routes && |routes[y]| <= |routes[x]| + 1
  }

  /** A walk either is no shorter than the recorded path to its end, or passes an open station in time. */
  lemma {:induction false} Frontier(adj: Adj, from: string, routes: Routes, open: set<string>, p: seq<string>) returns (i: nat)
    requires from in routes && |routes[from]| == 1 && Expanded(adj, routes, open)
    requires Walk(adj, p) && p[0] == from
    ensures i < |p| && p[i] in routes && |routes[p[i]]| <= i + 1
    ensures i == |p| - 1 || p[i] in open
  {
    var n := |p| - 1;
    if n == 0 {
      i := 0;
    } else {
      assert Walk(adj, p[..n]) by {
        forall a, b | 0 <= a < n && b == a + 1 && b < n ensures Hop(adj, p[..n][a], p[..n][b]) {
          assert Hop(adj, p[a], p[b]);
        }
      }
      i := Frontier(adj, from, routes, open, p[..n]);
      assert Hop(adj, p[n - 1], p[n]);
      if i == n - 1 && p[i] !in open {
        i := n;
      }
    }
  }

  /** When a new station is found next to the shallowest open one, no walk to it is shorter. */
  lemma FoundIsShortest(adj: Adj, from: string, to: string, routes: Routes, open: set<string>, depth: nat, p: seq<string>)
    requires from in routes && |routes[from]| == 1 && Expanded(adj, routes, open)
    requires forall x :: x in open && x in routes ==> depth <= |routes[x]|
    requires to !in routes && WalkBetween(adj, p, from, to)
    ensures depth + 1 <= |p|
  {
    var i := Frontier(adj, from, routes, open, p);
  }

  /** When nothing is open, everything reachable has been reached. */
  lemma NothingOpen(adj: Adj, from: string, to: string, routes: Routes)
    requires from in routes && |routes[from]| == 1 && Expanded(adj, routes, {})
    requires to !in routes
    ensures !Reachable(adj, from, to)
  {
    if Reachable(adj, from, to) {
      var p :| WalkBetween(adj, p, from, to);
      var i := Frontier(adj, from, routes, {}, p);
    }
  }

  ghost function Targets(adj: Adj): set<string> {
    set x, i | x in adj && 0 <= i < |adj[x]| :: adj[x][i].to
  }

  /** Recording one more station keeps the paths in order. */
  lemma Extend(adj: Adj, from: string, routes: Routes, prev: map<string, string>, cur: string, next: string)
    requires RoutesOk(adj, from, routes, prev) && cur in routes && next !in routes && Hop(adj, cur, next)
    ensures RoutesOk(adj, from, routes[next := routes[cur] + [next]], prev[next := cur])
  {
    var path := routes[cur] + [next];
    assert WalkBetween(adj, routes[cur], from, cur);
    assert Walk(adj, path) by {
      forall i, j | 0 <= i < |path| && j == i + 1 && j < |path| ensures Hop(adj, path[i], path[j]) {
        if j < |routes[cur]| { assert Hop(adj, routes[cur][i], routes[cur][j]); }
      }
    }
    assert Steps(path) by {
      forall i, j | 0 <= i < |path| && j == i + 1 && j < |path| ensures path[i] != path[j] {
        if j < |routes[cur]| { assert routes[cur][i] != routes[cur][j]; }
      }
    }
  }

  lemma ExtendSeconds(adj: Adj, path: seq<string>, next: string)
    requires path != []
    ensures WalkSeconds(adj, path + [next]) == WalkSeconds(adj, path) + HopSeconds(adj, path[|path| - 1], next)
  {
    assert (path + [next])[..|path|] == path;
  }

  datatype Found = NoPath | Path(secs: int, path: seq<string>)

  /** The state of the search while the stations in `open` still have neighbours to pass on to. */
  ghost predicate SearchOk(adj: Adj, from: string, to: string, routes: Routes, prev: map<string, string>,
                           queue: seq<Item>, open: set<string>, depth: nat) {
    && RoutesOk(adj, from, routes, prev)
    && Layered(routes, queue, depth)
    && Timed(adj, routes, queue)
    && Expanded(adj, routes, open)
    && (forall x :: x in routes ==> |routes[x]| <= depth + 1)
    && to !in routes
    && routes.Keys <= Targets(adj) + {from}
  }

  lemma StartOk(adj: Adj, from: string, to: string, prev: map<string, string>)
    requires from != to
    ensures var queue := [Item(from, 0)];
            SearchOk(adj, from, to, map[from := [from]], prev, queue, Waiting(queue), 1)
  {
    var routes, queue := map[from := [from]], [Item(from, 0)];
    assert queue[0].slug in Waiting(queue);
    assert WalkBetween(adj, routes[from], from, from);
  }

  /** Taking the head off the queue leaves it open until its neighbours are recorded. */
  lemma TakeHead(adj: Adj, from: string, to: string, routes: Routes, prev: map<string, string>, queue: seq<Item>, depth: nat)
    requires queue != [] && SearchOk(adj, from, to, routes, prev, queue, Waiting(queue), depth)
    ensures queue[0].slug in routes && queue[0].secs == WalkSeconds(adj, routes[queue[0].slug])
    ensures SearchOk(adj, from, to, routes, prev, queue[1..], Waiting(queue[1..]) + {queue[0].slug}, |routes[queue[0].slug]|)
  {
    hide RoutesOk, Targets, Hop, WalkSeconds;
    var open := Waiting(queue[1..]) + {queue[0].slug};
    forall x | x in Waiting(queue) ensures x in open {
      var i :| 0 <= i < |queue| && queue[i].slug == x;
      if i > 0 {
        assert queue[1..][i - 1].slug == x;
      }
    }
  }

  /** Recording a neighbour of the open station `cur` and queueing it keeps the search in order. */
  lemma PushOk(adj: Adj, from: string, to: string, routes: Routes, prev: map<string, string>,
               queue: seq<Item>, cur: string, next: Item, depth: nat)
    requires SearchOk(adj, from, to, routes, prev, queue, Waiting(queue) + {cur}, depth)
    requires cur in routes && |routes[cur]| == depth && next.slug !in routes && next.slug != to
    requires Hop(adj, cur, next.slug) && next.secs == WalkSeconds(adj, routes[cur] + [next.slug])
    ensures SearchOk(adj, from, to, routes[next.slug := routes[cur] + [next.slug]], prev[next.slug := cur],
                     queue + [next], Waiting(queue + [next]) + {cur}, depth)
  {
    Extend(adj, from, routes, prev, cur, next.slug);
    HopTarget(adj, cur, next.slug);
    var path := routes[cur] + [next.slug];
    PushLayered(routes, queue, next, path, depth);
    PushTimed(adj, routes, queue, next, path);
    PushExpanded(adj, routes, queue, cur, next, path);
    hide RoutesOk, Layered, Timed, Expanded, Targets, Waiting, Hop;
  }

  lemma PushLayered(routes: Routes, queue: seq<Item>, next: Item, path: seq<string>, depth: nat)
    requires Layered(routes, queue, depth) && next.slug !in routes && |path| == depth + 1
    ensures Layered(routes[next.slug := path], queue + [next], depth)
  {
  }

  lemma PushTimed(adj: Adj, routes: Routes, queue: seq<Item>, next: Item, path: seq<string>)
    requires Timed(adj, routes, queue) && next.slug !in routes && next.secs == WalkSeconds(adj, path)
    requires forall i :: 0 <= i < |queue| ==> queue[i].slug in routes
    ensures Timed(adj, routes[next.slug := path], queue + [next])
  {
    hide WalkSeconds;
  }

  lemma PushExpanded(adj: Adj, routes: Routes, queue: seq<Item>, cur: string, next: Item, path: seq<string>)
    requires Expanded(adj, routes, Waiting(queue) + {cur}) && next.slug !in routes
    ensures Expanded(adj, routes[next.slug := path], Waiting(queue + [next]) + {cur})
  {
    hide Hop;
    var longer := queue + [next];
    assert longer[|queue|].slug in Waiting(longer);
    forall x | x in Waiting(queue) ensures x in Waiting(longer) {
      var i :| 0 <= i < |queue| && queue[i].slug == x;
      assert longer[i].slug == x;
    }
  }

  lemma HopTarget(adj: Adj, cur: string, next: string)
    requires Hop(adj, cur, next)
    ensures next in Targets(adj)
  {
    var k := FirstTo(From(adj, cur), next);
    assert adj[cur][k].to == next;
  }

  /** With all its neighbours recorded, the station is no longer open. */
  lemma CloseOk(adj: Adj, from: string, to: string, routes: Routes, prev: map<string, string>, queue: seq<Item>, cur: string, depth: nat)
    requires SearchOk(adj, from, to, routes, prev, queue, Waiting(queue) + {cur}, depth)
    requires cur in routes && |routes[cur]| == depth
    requires forall y :: Hop(adj, cur, y) ==> y in routes
    ensures SearchOk(adj, from, to, routes, prev, queue, Waiting(queue), depth)
  {
    hide RoutesOk, Layered, Timed, Targets, Hop;
  }

  /** One turn of the outer loop: the neighbours of the head of the queue, until the target turns up. */
  method Expand(adj: Adj, from: string, to: string, visited0: set<string>, prev0: map<string, string>,
                queue0: seq<Item>, ghost routes0: Routes, ghost depth0: nat)
    returns (hit: Option<int>, visited: set<string>, prev: map<string, string>, queue: seq<Item>, ghost routes: Routes, ghost depth: nat)
    requires queue0 != [] && visited0 == routes0.Keys
    requires SearchOk(adj, from, to, routes0, prev0, queue0, Waiting(queue0), depth0)
    ensures hit.None? ==>
              && visited == routes.Keys
              && SearchOk(adj, from, to, routes, prev, queue, Waiting(queue), depth)
              && |routes0| <= |routes| && |queue| - |routes| == |queue0| - |routes0| - 1
    ensures hit.Some? ==>
              && RoutesOk(adj, from, routes, prev) && to in routes
              && hit.value == WalkSeconds(adj, routes[to])
              && forall p :: WalkBetween(adj, p, from, to) ==> |routes[to]| <= |p|
  {
    hide RoutesOk, Layered, Timed, Expanded, Targets, Waiting, WalkSeconds, WalkBetween, HopSeconds;
    TakeHead(adj, from, to, routes0, prev0, queue0, depth0);
    hit, visited, prev, queue, routes := None, visited0, prev0, queue0[1..], routes0;
    var cur := queue0[0];
    depth := |routes[cur.slug]|;
    ghost var path := routes[cur.slug];
    PathEnds(adj, from, routes, prev, cur.slug);
    var es, i := From(adj, cur.slug), 0;
    while i < |es|
      invariant 0 <= i <= |es|
      invariant visited == routes.Keys && cur.slug in routes && routes[cur.slug] == path && depth == |path|
      invariant SearchOk(adj, from, to, routes, prev, queue, Waiting(queue) + {cur.slug}, depth)
      invariant forall j :: 0 <= j < i ==> es[j].to in visited
      invariant |routes0| <= |routes| && |queue| - |routes| == |queue0| - |routes0| - 1
    {
      var e := es[i];
      if e.to !in visited {
        assert FirstTo(es, e.to) == i;
        assert Hop(adj, cur.slug, e.to);
        ExtendSeconds(adj, path, e.to);
        assert HopSeconds(adj, cur.slug, e.to) == e.seconds by { FirstSeconds(adj, cur.slug, e.to); }
        var nextSecs := cur.secs + e.seconds;
        visited := visited + {e.to};
        ghost var before, prevBefore := routes, prev;
        prev := prev[e.to := cur.slug];
        routes := routes[e.to := path + [e.to]];
        if e.to == to {
          Extend(adj, from, before, prevBefore, cur.slug, to);
          forall p | WalkBetween(adj, p, from, to) ensures |routes[to]| <= |p| {
            OpenAreDeep(adj, from, to, before, prevBefore, queue, cur.slug, depth);
            FoundIsShortest(adj, from, to, before, Waiting(queue) + {cur.slug}, depth, p);
          }
          hit := Some(nextSecs);
          return;
        }
        PushOk(adj, from, to, before, prevBefore, queue, cur.slug, Item(e.to, nextSecs), depth);
        queue := queue + [Item(e.to, nextSecs)];
      }
      i := i + 1;
    }
    forall y | Hop(adj, cur.slug, y) ensures y in routes {
      assert es[FirstTo(es, y)].to in visited;
    }
    CloseOk(adj, from, to, routes, prev, queue, cur.slug, depth);
  }

  lemma PathEnds(adj: Adj, from: string, routes: Routes, prev: map<string, string>, x: string)
    requires RoutesOk(adj, from, routes, prev) && x in routes
    ensures routes[x] != [] && routes[x][|routes[x]| - 1] == x
  {
    assert WalkBetween(adj, routes[x], from, x);
  }

  lemma FirstSeconds(adj: Adj, a: string, b: string)
    requires Hop(adj, a, b)
    ensures HopSeconds(adj, a, b) == From(adj, a)[FirstTo(From(adj, a), b)].seconds
  {
  }

  lemma OpenAreDeep(adj: Adj, from: string, to: string, routes: Routes, prev: map<string, string>,
                    queue: seq<Item>, cur: string, depth: nat)
    requires SearchOk(adj, from, to, routes, prev, queue, Waiting(queue) + {cur}, depth)
    requires cur in routes && |routes[cur]| == depth
    ensures from in routes && |routes[from]| == 1
    ensures forall x :: x in Waiting(queue) + {cur} && x in routes ==> depth <= |routes[x]|
  {
  }

  /** Follows `prev` back from the target, then reverses the path in place. */
  method Rebuild(adj: Adj, from: string, to: string, prev: map<string, string>, ghost routes: Routes) returns (path: seq<string>)
    requires RoutesOk(adj, from, routes, prev) && to in routes
    ensures path == routes[to]
  {
    hide Walk, Steps, WalkBetween, Reversed;
    path := [to];
    var cur := to;
    PathEnds(adj, from, routes, prev, to);
    while cur != from
      invariant cur in routes && path != [] && path[|path| - 1] == cur
      invariant routes[to] == routes[cur] + Reversed(path)[1..]
      decreases |routes[cur]|
    {
      var p := prev[cur];
      OneLinkBack(routes[to], routes[p], cur, p, path);
      path := path + [p];
      cur := p;
    }
    assert routes[to] == [from] + Reversed(path)[1..] == Reversed(path);
    path := ReverseInPlace(path);
  }

  method ReverseInPlace(walked: seq<string>) returns (path: seq<string>)
    ensures path == Reversed(walked)
  {
    path := walked;
    var i, j := 0, |path| - 1;
    while i < j
      invariant 0 <= i <= j + 1 <= |path| && i + j == |path| - 1 && |path| == |walked|
      invariant forall k :: 0 <= k < |path| && (k < i || j < k) ==> path[k] == walked[|walked| - 1 - k]
      invariant forall k :: i <= k <= j ==> path[k] == walked[k]
    {
      path := path[i := path[j]][j := path[i]];
      i, j := i + 1, j - 1;
    }
  }

  /** Following one more link back moves it to the front of the part rebuilt. */
  lemma OneLinkBack(route: seq<string>, head: seq<string>, cur: string, p: string, path: seq<string>)
    requires path != [] && path[|path| - 1] == cur
    requires route == head + [cur] + Reversed(path)[1..]
    ensures route == head + Reversed(path + [p])[1..]
  {
    assert Reversed(path + [p])[1..] == Reversed(path) == [cur] + Reversed(path)[1..];
  }

  method SegmentPathSeconds(adj: Adj, from: string, to: string) returns (found: Found)
    ensures found.NoPath? <==> !Reachable(adj, from, to)
    ensures found.Path? ==>
              && WalkBetween(adj, found.path, from, to) && Steps(found.path)
              && found.secs == WalkSeconds(adj, found.path)
              && forall p :: WalkBetween(adj, p, from, to) ==> |found.path| <= |p|
  {
    if from == to {
      assert WalkBetween(adj, [from], from, to);
      return Path(0, [from]);
    }
    hide Layered, Timed, Expanded, Targets, Waiting, WalkSeconds, RoutesOk;
    var prev: map<string, string>, visited, queue := map[], {from}, [Item(from, 0)];
    ghost var routes: Routes, depth := map[from := [from]], 1;
    StartOk(adj, from, to, prev);
    while queue != []
      invariant visited == routes.Keys
      invariant SearchOk(adj, from, to, routes, prev, queue, Waiting(queue), depth)
      decreases |Targets(adj) + {from}| - |routes|, |queue|
    {
      SubsetSize(routes.Keys, Targets(adj) + {from});
      var hit: Option<int>;
      hit, visited, prev, queue, routes, depth := Expand(adj, from, to, visited, prev, queue, routes, depth);
      if hit.Some? {
        RouteIsWalk(adj, from, to, routes, prev);
        var path := Rebuild(adj, from, to, prev, routes);
        return Path(hit.value, path);
      }
      SubsetSize(routes.Keys, Targets(adj) + {from});
    }
    Exhausted(adj, from, to, routes, prev, queue, depth);
    return NoPath;
  }

  lemma RouteIsWalk(adj: Adj, from: string, to: string, routes: Routes, prev: map<string, string>)
    requires RoutesOk(adj, from, routes, prev) && to in routes
    ensures WalkBetween(adj, routes[to], from, to) && Steps(routes[to])
    ensures Reachable(adj, from, to)
  {
  }

  lemma Exhausted(adj: Adj, from: string, to: string, routes: Routes, prev: map<string, string>, queue: seq<Item>, depth: nat)
    requires queue == [] && SearchOk(adj, from, to, routes, prev, queue, Waiting(queue), depth)
    ensures !Reachable(adj, from, to)
  {
    assert Waiting(queue) == {};
    NothingOpen(adj, from, to, routes);
  }
}
