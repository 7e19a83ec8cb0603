/**
 `MergeColocatedStops` (internal/transit/cluster.go): flatten, cluster, fold, and rename every stop to
 the key of its cluster. The results say when two stops share a key, and that nothing depends on the
 order in which services or pairs are given.
 */
module Merging {
  import opened Sorting
  import opened Clustering
  import opened Connectivity
  import opened Folding
  import opened FoldPairs
  import opened Compilables

  // ----- Which stops end up together -----

  /** Two stops are linked when they share a greedy cluster or a pair declares them. */
  ghost function StopLinks(sites: seq<Site>, clusterOf: seq<nat>, pairs: seq<InterchangePair>): set<(int, int)>
    requires |clusterOf| == |sites|
  {
    (set s, t | 0 <= s < |sites| && 0 <= t < |sites| && clusterOf[s] == clusterOf[t] :: (s, t))
    + (set p | p in pairs && Known(sites, p) :: (IndexOf(sites, p.a), IndexOf(sites, p.b)))
  }

  lemma {:induction false} LiftPath(sites: seq<Site>, clusterOf: seq<nat>, pairs: seq<InterchangePair>, path: seq<int>, s: nat, t: nat)
    requires |clusterOf| == |sites| && s < |sites| && t < |sites|
    requires PathBetween(PairLinks(sites, clusterOf, pairs), path, clusterOf[s], clusterOf[t])
    ensures Connected(StopLinks(sites, clusterOf, pairs), s, t)
  {
    hide IndexOf;
    var links, stopLinks := PairLinks(sites, clusterOf, pairs), StopLinks(sites, clusterOf, pairs);
    if |path| == 1 {
      OneLink(stopLinks, s, t);
    } else {
      assert Linked(links, path[0], path[1]);
      var a, b := StopsOfLink(sites, clusterOf, pairs, path[0], path[1]);
      assert (s, a) in stopLinks;
      OneLink(stopLinks, s, a);
      OneLink(stopLinks, a, b);
      Transitive(stopLinks, s, a, b);
      assert PathBetween(links, path[1..], clusterOf[b], clusterOf[t]) by {
        forall i, j | 0 <= i < |path[1..]| && j == i + 1 && j < |path[1..]|
          ensures Linked(links, path[1..][i], path[1..][j])
        {
          assert Linked(links, path[i + 1], path[j + 1]);
        }
      }
      LiftPath(sites, clusterOf, pairs, path[1..], b, t);
      Transitive(stopLinks, s, b, t);
    }
  }

  lemma StopsOfLink(sites: seq<Site>, clusterOf: seq<nat>, pairs: seq<InterchangePair>, x: int, y: int) returns (a: nat, b: nat)
    requires |clusterOf| == |sites| && Linked(PairLinks(sites, clusterOf, pairs), x, y)
    ensures a < |sites| && b < |sites| && clusterOf[a] == x && clusterOf[b] == y
    ensures Linked(StopLinks(sites, clusterOf, pairs), a, b)
  {
    hide IndexOf;
    if (x, y) in PairLinks(sites, clusterOf, pairs) {
      var p :| p in pairs && Known(sites, p) && LinkOf(sites, clusterOf, p) == (x, y);
      a, b := IndexOf(sites, p.a), IndexOf(sites, p.b);
    } else {
      var p :| p in pairs && Known(sites, p) && LinkOf(sites, clusterOf, p) == (y, x);
      a, b := IndexOf(sites, p.b), IndexOf(sites, p.a);
    }
  }

  lemma ProjectConnection(sites: seq<Site>, clusterOf: seq<nat>, pairs: seq<InterchangePair>, s: nat, t: nat)
    requires |clusterOf| == |sites| && s < |sites| && t < |sites|
    requires Connected(StopLinks(sites, clusterOf, pairs), s, t)
    ensures Connected(PairLinks(sites, clusterOf, pairs), clusterOf[s], clusterOf[t])
  {
    hide IndexOf;
    var links, stopLinks := PairLinks(sites, clusterOf, pairs), StopLinks(sites, clusterOf, pairs);
    var tag := (x: int) => if 0 <= x < |sites| then LeaderOf(links, clusterOf[x]) else 0;
    forall x, y | (x, y) in stopLinks ensures tag(x) == tag(y) {
      if clusterOf[x] != clusterOf[y] {
        var p :| p in pairs && Known(sites, p) && (IndexOf(sites, p.a), IndexOf(sites, p.b)) == (x, y);
        assert LinkOf(sites, clusterOf, p) in links;
        OneLink(links, clusterOf[x], clusterOf[y]);
        SameLeader(links, clusterOf[x], clusterOf[y]);
      }
    }
    LabelPreserved(stopLinks, tag, s, t);
    SameLeader(links, clusterOf[s], clusterOf[t]);
  }

  /**
   Two stops end in the same folded cluster exactly when they are connected by the closure of "same
   greedy cluster" and the declared pairs.
   */
  lemma SameFoldedClusterIffConnected(sites: seq<Site>, g: Grouping, pairs: seq<InterchangePair>, h: Grouping, s: nat, t: nat)
    requires |g.clusterOf| == |sites| && FoldedBy(sites, g, pairs, h)
    requires s < |sites| && t < |sites|
    ensures h.clusterOf[s] == h.clusterOf[t] <==> Connected(StopLinks(sites, g.clusterOf, pairs), s, t)
  {
    hide FoldAll, FinalIndex, PairLinks, StopLinks;
    var links := PairLinks(sites, g.clusterOf, pairs);
    SameFinalIndex(links, g.clusterOf[s], g.clusterOf[t]);
    if Connected(links, g.clusterOf[s], g.clusterOf[t]) {
      var path :| PathBetween(links, path, g.clusterOf[s], g.clusterOf[t]);
      LiftPath(sites, g.clusterOf, pairs, path, s, t);
    }
    if Connected(StopLinks(sites, g.clusterOf, pairs), s, t) {
      ProjectConnection(sites, g.clusterOf, pairs, s, t);
    }
  }

  // ----- Nodes and report -----

  function KeyOf(c: Cluster): string {
    c.members[0].ref.slug
  }

  function Names(members: seq<Site>): (names: seq<string>)
    ensures |names| <= |members|
  {
    if members == [] then []
    else
      var rest, last := Names(members[..|members| - 1]), members[|members| - 1].ref.name;
      if last in rest then rest else rest + [last]
  }

  /** Member `i` is the first with its name. */
  predicate FirstNamed(members: seq<Site>, i: nat) {
    i < |members| && forall j :: 0 <= j < i ==> members[j].ref.name != members[i].ref.name
  }

  /** `at` lists the members that are the first with their names, in order; their names are the names. */
  ghost predicate NamedAt(members: seq<Site>, names: seq<string>, at: seq<nat>) {
    && |at| == |names|
    && (forall k :: 0 <= k < |at| ==> FirstNamed(members, at[k]) && names[k] == members[at[k]].ref.name)
    && (forall k, l :: 0 <= k < l < |at| ==> at[k] < at[l])
    && (forall i: nat :: FirstNamed(members, i) ==> i in at)
  }

  lemma {:induction false} NamesElements(members: seq<Site>, name: string)
    ensures name in Names(members) <==> exists i :: 0 <= i < |members| && members[i].ref.name == name
  {
    if members != [] {
      var n := |members| - 1;
      NamesElements(members[..n], name);
      NamesElements(members[..n], members[n].ref.name);
      if i :| 0 <= i < n && members[..n][i].ref.name == name {
        assert members[i].ref.name == name;
      }
      if i :| 0 <= i < n && members[i].ref.name == name {
        assert members[..n][i].ref.name == name;
      }
    }
  }

  lemma FirstNamedPrefix(members: seq<Site>, i: nat)
    requires i < |members| - 1
    ensures FirstNamed(members[..|members| - 1], i) <==> FirstNamed(members, i)
  {
  }

  lemma LastFirstNamed(members: seq<Site>)
    requires members != []
    ensures var n := |members| - 1; FirstNamed(members, n) <==> members[n].ref.name !in Names(members[..n])
  {
    var n := |members| - 1;
    NamesElements(members[..n], members[n].ref.name);
    hide Names;
    if FirstNamed(members, n) {
      forall i | 0 <= i < n ensures members[..n][i].ref.name != members[n].ref.name {
        assert members[..n][i] == members[i];
      }
    } else {
      var j :| 0 <= j < n && members[j].ref.name == members[n].ref.name;
      assert members[..n][j] == members[j];
    }
  }

  /** One more member adds its place exactly when it is the first with its name. */
  lemma NamedAtNext(members: seq<Site>, names: seq<string>, at: seq<nat>)
    requires members != [] && NamedAt(members[..|members| - 1], names, at)
    ensures var n := |members| - 1;
            if FirstNamed(members, n) then NamedAt(members, names + [members[n].ref.name], at + [n])
            else NamedAt(members, names, at)
  {
    var n := |members| - 1;
    forall i: nat | i < n ensures FirstNamed(members[..n], i) <==> FirstNamed(members, i) {
      FirstNamedPrefix(members, i);
    }
    forall k | 0 <= k < |at| ensures at[k] < n {
      assert FirstNamed(members[..n], at[k]);
    }
    hide FirstNamed;
    OnlyInRange(members);
    OnlyInRange(members[..n]);
  }

  lemma OnlyInRange(members: seq<Site>)
    ensures forall i: nat :: FirstNamed(members, i) ==> i < |members|
  {
  }

  /** The names of a cluster are its members' names, each once, in the order in which they first appear. */
  lemma {:induction false} NamesInOrder(members: seq<Site>) returns (at: seq<nat>)
    ensures NamedAt(members, Names(members), at)
  {
    at := [];
    if members != [] {
      var n := |members| - 1;
      at := NamesInOrder(members[..n]);
      LastFirstNamed(members);
      NamedAtNext(members, Names(members[..n]), at);
      hide NamedAt, FirstNamed;
      if FirstNamed(members, n) {
        at := at + [n];
      }
    }
  }

  function NodeOf(c: Cluster): GraphNode {
    GraphNode(KeyOf(c), c.members[0].at.lat, c.members[0].at.lng, Names(c.members))
  }

  function Realised(clusters: seq<Cluster>): seq<StopCluster> {
    if clusters == [] then []
    else
      var rest, c := Realised(clusters[..|clusters| - 1]), clusters[|clusters| - 1];
      if |c.members| < 2 then rest
      else rest + [StopCluster(KeyOf(c), Names(c.members), Map((s: Site) => s.ref, c.members))]
  }

  predicate IsNearMiss(dist: (Point, Point) -> real, sites: seq<Site>, clusterOf: seq<nat>, i: nat, j: nat)
    requires |clusterOf| == |sites| && i < |sites| && j < |sites|
  {
    && sites[i].ref.serviceId != sites[j].ref.serviceId
    && clusterOf[i] != clusterOf[j]
    && dist(sites[i].at, sites[j].at) <= NEAR_MISS_RADIUS_M
  }

  /** The near miss of two sites. */
  function MissAt(dist: (Point, Point) -> real, sites: seq<Site>, i: nat, j: nat): NearMiss
    requires i < |sites| && j < |sites|
  {
    NearMiss(sites[i].ref, sites[j].ref, dist(sites[i].at, sites[j].at))
  }

  /** The near misses of site `i` with the sites from `i + 1` up to `j`. */
  function MissesOf(dist: (Point, Point) -> real, sites: seq<Site>, clusterOf: seq<nat>, i: nat, j: nat): seq<NearMiss>
    requires |clusterOf| == |sites| && i < j <= |sites|
  {
    if j == i + 1 then []
    else MissesOf(dist, sites, clusterOf, i, j - 1)
         + (if IsNearMiss(dist, sites, clusterOf, i, j - 1)
            then [MissAt(dist, sites, i, j - 1)] else [])
  }

  function MissesUpTo(dist: (Point, Point) -> real, sites: seq<Site>, clusterOf: seq<nat>, n: nat): seq<NearMiss>
    requires |clusterOf| == |sites| && n <= |sites|
  {
    if n == 0 then []
    else MissesUpTo(dist, sites, clusterOf, n - 1) + MissesOf(dist, sites, clusterOf, n - 1, |sites|)
  }

  method NearMisses(dist: (Point, Point) -> real, sites: seq<Site>, clusterOf: seq<nat>) returns (out: seq<NearMiss>)
    requires |clusterOf| == |sites|
    ensures out == MissesUpTo(dist, sites, clusterOf, |sites|)
  {
    out := [];
    var i := 0;
    while i < |sites|
      invariant 0 <= i <= |sites|
      invariant out == MissesUpTo(dist, sites, clusterOf, i)
    {
      ghost var before := out;
      var j := i + 1;
      while j < |sites|
        invariant i < j <= |sites|
        invariant out == before + MissesOf(dist, sites, clusterOf, i, j)
      {
        if IsNearMiss(dist, sites, clusterOf, i, j) {
          out := out + [MissAt(dist, sites, i, j)];
        }
        j := j + 1;
      }
      i := i + 1;
    }
  }

  ghost predicate InOrder(pairs: seq<(nat, nat)>) {
    forall k, l :: 0 <= k < l < |pairs| ==> pairs[k].0 < pairs[l].0 || (pairs[k].0 == pairs[l].0 && pairs[k].1 < pairs[l].1)
  }

  /** The entries are the near misses of exactly these pairs of sites. */
  ghost predicate MissesAre(dist: (Point, Point) -> real, sites: seq<Site>, clusterOf: seq<nat>,
                            misses: seq<NearMiss>, pairs: seq<(nat, nat)>)
    requires |clusterOf| == |sites|
  {
    && |pairs| == |misses|
    && (forall k :: 0 <= k < |pairs| ==>
          && pairs[k].0 < pairs[k].1 < |sites|
          && IsNearMiss(dist, sites, clusterOf, pairs[k].0, pairs[k].1)
          && misses[k] == MissAt(dist, sites, pairs[k].0, pairs[k].1))
    && InOrder(pairs)
  }

  /** Two lists of near misses of which the first one's pairs all come first. */
  lemma MissesJoined(dist: (Point, Point) -> real, sites: seq<Site>, clusterOf: seq<nat>,
                     a: seq<NearMiss>, p: seq<(nat, nat)>, b: seq<NearMiss>, q: seq<(nat, nat)>)
    requires |clusterOf| == |sites| && MissesAre(dist, sites, clusterOf, a, p) && MissesAre(dist, sites, clusterOf, b, q)
    requires forall k, l :: 0 <= k < |p| && 0 <= l < |q| ==> p[k].0 < q[l].0 || (p[k].0 == q[l].0 && p[k].1 < q[l].1)
    ensures MissesAre(dist, sites, clusterOf, a + b, p + q)
  {
    hide IsNearMiss, MissAt;
  }

  lemma OneMiss(dist: (Point, Point) -> real, sites: seq<Site>, clusterOf: seq<nat>, i: nat, j: nat)
    requires |clusterOf| == |sites| && i < j < |sites| && IsNearMiss(dist, sites, clusterOf, i, j)
    ensures MissesAre(dist, sites, clusterOf, [MissAt(dist, sites, i, j)], [(i, j)])
  {
    hide IsNearMiss, MissAt;
  }

  ghost predicate PairsOfSite(dist: (Point, Point) -> real, sites: seq<Site>, clusterOf: seq<nat>, i: nat, j: nat, pairs: seq<(nat, nat)>)
    requires |clusterOf| == |sites| && j <= |sites|
  {
    forall p :: p in pairs <==> p.0 == i && i < p.1 < j && IsNearMiss(dist, sites, clusterOf, i, p.1)
  }

  lemma OnePairMore(dist: (Point, Point) -> real, sites: seq<Site>, clusterOf: seq<nat>, i: nat, j: nat, pairs: seq<(nat, nat)>)
    requires |clusterOf| == |sites| && i < j < |sites| && PairsOfSite(dist, sites, clusterOf, i, j, pairs)
    ensures if IsNearMiss(dist, sites, clusterOf, i, j) then PairsOfSite(dist, sites, clusterOf, i, j + 1, pairs + [(i, j)])
            else PairsOfSite(dist, sites, clusterOf, i, j + 1, pairs)
    ensures forall k :: 0 <= k < |pairs| ==> pairs[k].0 == i && pairs[k].1 < j
  {
    hide IsNearMiss;
    forall k | 0 <= k < |pairs| ensures pairs[k].0 == i && pairs[k].1 < j {
      assert pairs[k] in pairs;
    }
  }

  lemma MissAppended(dist: (Point, Point) -> real, sites: seq<Site>, clusterOf: seq<nat>, i: nat, j: nat,
                     misses: seq<NearMiss>, pairs: seq<(nat, nat)>)
    requires |clusterOf| == |sites| && i < j < |sites| && IsNearMiss(dist, sites, clusterOf, i, j)
    requires MissesAre(dist, sites, clusterOf, misses, pairs)
    requires forall k :: 0 <= k < |pairs| ==> pairs[k].0 == i && pairs[k].1 < j
    ensures MissesAre(dist, sites, clusterOf, misses + [MissAt(dist, sites, i, j)], pairs + [(i, j)])
  {
    hide MissesAre, IsNearMiss, MissAt;
    OneMiss(dist, sites, clusterOf, i, j);
    MissesJoined(dist, sites, clusterOf, misses, pairs, [MissAt(dist, sites, i, j)], [(i, j)]);
  }

  lemma MissesStep(dist: (Point, Point) -> real, sites: seq<Site>, clusterOf: seq<nat>, i: nat, j: nat)
    requires |clusterOf| == |sites| && i < j < |sites|
    ensures MissesOf(dist, sites, clusterOf, i, j + 1)
            == if IsNearMiss(dist, sites, clusterOf, i, j) then MissesOf(dist, sites, clusterOf, i, j) + [MissAt(dist, sites, i, j)]
               else MissesOf(dist, sites, clusterOf, i, j)
  {
    hide IsNearMiss, MissAt;
  }

  lemma NoPairYet(dist: (Point, Point) -> real, sites: seq<Site>, clusterOf: seq<nat>, i: nat)
    requires |clusterOf| == |sites| && i < |sites|
    ensures MissesAre(dist, sites, clusterOf, MissesOf(dist, sites, clusterOf, i, i + 1), [])
    ensures PairsOfSite(dist, sites, clusterOf, i, i + 1, [])
  {
    hide IsNearMiss, MissAt;
  }

  lemma {:induction false} MissesOfSite(dist: (Point, Point) -> real, sites: seq<Site>, clusterOf: seq<nat>, i: nat, j: nat)
    returns (pairs: seq<(nat, nat)>)
    requires |clusterOf| == |sites| && i < j <= |sites|
    ensures MissesAre(dist, sites, clusterOf, MissesOf(dist, sites, clusterOf, i, j), pairs)
    ensures PairsOfSite(dist, sites, clusterOf, i, j, pairs)
  {
    hide IsNearMiss, MissAt, MissesAre, MissesOf, PairsOfSite;
    pairs := [];
    if j == i + 1 {
      NoPairYet(dist, sites, clusterOf, i);
    } else {
      pairs := MissesOfSite(dist, sites, clusterOf, i, j - 1);
      OnePairMore(dist, sites, clusterOf, i, j - 1, pairs);
      MissesStep(dist, sites, clusterOf, i, j - 1);
      if IsNearMiss(dist, sites, clusterOf, i, j - 1) {
        MissAppended(dist, sites, clusterOf, i, j - 1, MissesOf(dist, sites, clusterOf, i, j - 1), pairs);
        pairs := pairs + [(i, j - 1)];
      }
    }
  }

  ghost predicate PairsUpTo(dist: (Point, Point) -> real, sites: seq<Site>, clusterOf: seq<nat>, n: nat, pairs: seq<(nat, nat)>)
    requires |clusterOf| == |sites| && n <= |sites|
  {
    forall p :: p in pairs <==> p.0 < n && p.0 < p.1 < |sites| && IsNearMiss(dist, sites, clusterOf, p.0, p.1)
  }

  lemma {:induction false} MissesOfSites(dist: (Point, Point) -> real, sites: seq<Site>, clusterOf: seq<nat>, n: nat)
    returns (pairs: seq<(nat, nat)>)
    requires |clusterOf| == |sites| && n <= |sites|
    ensures MissesAre(dist, sites, clusterOf, MissesUpTo(dist, sites, clusterOf, n), pairs)
    ensures PairsUpTo(dist, sites, clusterOf, n, pairs)
  {
    hide IsNearMiss, MissesOf;
    pairs := [];
    if n > 0 {
      var front := MissesOfSites(dist, sites, clusterOf, n - 1);
      var last := MissesOfSite(dist, sites, clusterOf, n - 1, |sites|);
      forall k | 0 <= k < |front| ensures front[k].0 < n - 1 {
        assert front[k] in front;
      }
      forall k | 0 <= k < |last| ensures last[k].0 == n - 1 {
        assert last[k] in last;
      }
      MissesJoined(dist, sites, clusterOf, MissesUpTo(dist, sites, clusterOf, n - 1), front,
                   MissesOf(dist, sites, clusterOf, n - 1, |sites|), last);
      hide MissesAre;
      pairs := front + last;
    }
  }

  /**
   The report holds one near miss for every pair of sites of different services and clusters within the
   radius, each with that pair's distance, ordered by the first site and then the second; and nothing else.
   */
  lemma NearMissesExact(dist: (Point, Point) -> real, sites: seq<Site>, clusterOf: seq<nat>) returns (pairs: seq<(nat, nat)>)
    requires |clusterOf| == |sites|
    ensures MissesAre(dist, sites, clusterOf, MissesUpTo(dist, sites, clusterOf, |sites|), pairs)
    ensures forall i, j :: 0 <= i < j < |sites| ==>
              (IsNearMiss(dist, sites, clusterOf, i, j) <==> (i, j) in pairs)
  {
    pairs := MissesOfSites(dist, sites, clusterOf, |sites|);
  }

  /** What merging a sorted list of sites yields: a key for every site, the nodes and the report. */
  datatype Merge = Merge(keys: seq<string>, nodes: seq<GraphNode>, report: MergeReport)

  ghost predicate MergedSites(dist: (Point, Point) -> real, sites: seq<Site>, pairs: seq<InterchangePair>, m: Merge) {
    var g := Greedy(dist, sites);
    GreedyFaithful(dist, sites);
    exists h :: FoldedBy(sites, g, pairs, h) && Reports(dist, sites, h, m)
  }

  ghost predicate Reports(dist: (Point, Point) -> real, sites: seq<Site>, h: Grouping, m: Merge) {
    && |h.clusterOf| == |sites| == |m.keys|
    && (forall s :: 0 <= s < |sites| ==> h.clusterOf[s] < |h.clusters| && m.keys[s] == KeyOf(h.clusters[h.clusterOf[s]]))
    && m.nodes == Map(NodeOf, h.clusters)
    && m.report == MergeReport(Realised(h.clusters), MissesUpTo(dist, sites, h.clusterOf, |sites|))
  }

  method MergeSites(dist: (Point, Point) -> real, sites: seq<Site>, pairs: seq<InterchangePair>) returns (m: Merge)
    requires Sorted(sites, SiteLess)
    ensures MergedSites(dist, sites, pairs, m)
  {
    hide Greedy, Connected, PairLinks, FoldAll, FinalIndex, Leaders, Realised, MissesUpTo, NodeOf;
    GreedyFaithful(dist, sites);
    var g := ClusterStops(dist, sites);
    var h := FoldDeclaredPairs(sites, g, pairs);
    forall s | 0 <= s < |sites| ensures h.clusterOf[s] < |h.clusters| {
      FinalIndexInRange(PairLinks(sites, g.clusterOf, pairs), g.clusterOf[s], |g.clusters|);
    }
    var keys := seq(|sites|, s requires 0 <= s < |sites| => KeyOf(h.clusters[h.clusterOf[s]]));
    var misses := NearMisses(dist, sites, h.clusterOf);
    m := Merge(keys, Map(NodeOf, h.clusters), MergeReport(Realised(h.clusters), misses));
    assert Reports(dist, sites, h, m);
  }

  /** The merge is determined by the sites and by which clusters the pairs connect. */
  lemma MergeDetermined(dist: (Point, Point) -> real, sites: seq<Site>,
                        pairs: seq<InterchangePair>, pairs': seq<InterchangePair>, m: Merge, m': Merge)
    requires MergedSites(dist, sites, pairs, m) && MergedSites(dist, sites, pairs', m')
    requires |Greedy(dist, sites).clusterOf| == |sites|
    requires SameComponents(PairLinks(sites, Greedy(dist, sites).clusterOf, pairs),
                            PairLinks(sites, Greedy(dist, sites).clusterOf, pairs'))
    ensures m == m'
  {
    hide Greedy, Connected, PairLinks, FoldAll, FinalIndex, Leaders, Realised, MissesUpTo, NodeOf, SameComponents;
    var g := Greedy(dist, sites);
    GreedyFaithful(dist, sites);
    var h :| FoldedBy(sites, g, pairs, h) && Reports(dist, sites, h, m);
    var h' :| FoldedBy(sites, g, pairs', h') && Reports(dist, sites, h', m');
    FoldDependsOnComponents(g.clusters, PairLinks(sites, g.clusterOf, pairs), PairLinks(sites, g.clusterOf, pairs'));
    assert h.clusterOf == h'.clusterOf;
    assert m.keys == m'.keys;
  }

  // ----- Pairs permuted, repeated or flipped -----

  function Flip(p: InterchangePair): InterchangePair {
    InterchangePair(p.b, p.a)
  }

  /** The same unordered pairs, whatever their order, number and direction. */
  ghost predicate SamePairs(pairs: seq<InterchangePair>, pairs': seq<InterchangePair>) {
    && (forall p :: p in pairs ==> p in pairs' || Flip(p) in pairs')
    && (forall p :: p in pairs' ==> p in pairs || Flip(p) in pairs)
  }

  lemma LinksCovered(sites: seq<Site>, clusterOf: seq<nat>, pairs: seq<InterchangePair>, pairs': seq<InterchangePair>)
    requires |clusterOf| == |sites|
    requires forall p :: p in pairs ==> p in pairs' || Flip(p) in pairs'
    ensures forall x, y :: (x, y) in PairLinks(sites, clusterOf, pairs) ==> Linked(PairLinks(sites, clusterOf, pairs'), x, y)
  {
    hide IndexOf;
    forall x, y | (x, y) in PairLinks(sites, clusterOf, pairs)
      ensures Linked(PairLinks(sites, clusterOf, pairs'), x, y)
    {
      var p :| p in pairs && Known(sites, p) && LinkOf(sites, clusterOf, p) == (x, y);
      if p !in pairs' {
        assert Known(sites, Flip(p)) && LinkOf(sites, clusterOf, Flip(p)) == (y, x);
      }
    }
  }

  lemma CoveredConnects(links: set<(int, int)>, links': set<(int, int)>, i: int, j: int)
    requires forall x, y :: (x, y) in links ==> Linked(links', x, y)
    requires Connected(links, i, j)
    ensures Connected(links', i, j)
  {
    var p :| PathBetween(links, p, i, j);
    assert PathBetween(links', p, i, j) by {
      forall a, b | 0 <= a < |p| && b == a + 1 && b < |p| ensures Linked(links', p[a], p[b]) {
        assert Linked(links, p[a], p[b]);
      }
    }
  }

  lemma SamePairsSameComponents(sites: seq<Site>, clusterOf: seq<nat>, pairs: seq<InterchangePair>, pairs': seq<InterchangePair>)
    requires |clusterOf| == |sites| && SamePairs(pairs, pairs')
    ensures SameComponents(PairLinks(sites, clusterOf, pairs), PairLinks(sites, clusterOf, pairs'))
  {
    hide Connected, PairLinks;
    var links, links' := PairLinks(sites, clusterOf, pairs), PairLinks(sites, clusterOf, pairs');
    LinksCovered(sites, clusterOf, pairs, pairs');
    LinksCovered(sites, clusterOf, pairs', pairs);
    forall i, j ensures Connected(links, i, j) <==> Connected(links', i, j) {
      if Connected(links, i, j) { CoveredConnects(links, links', i, j); }
      if Connected(links', i, j) { CoveredConnects(links', links, i, j); }
    }
  }
}
