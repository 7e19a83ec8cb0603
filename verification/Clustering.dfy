/**
 Greedy clustering of co-located stops (internal/transit/cluster.go): stops in (slug, service) order
 each join the first cluster whose anchor is near enough and that has no stop of their service.
 The distance between two points is a parameter; the geodesy behind it is not modelled.
 */
module Clustering {
  import opened Sorting
  import opened Text

  datatype Point = Point(lng: real, lat: real)

  datatype StopRef = StopRef(serviceId: string, slug: string, name: string)

  /** What merging reads of a stop: its reference, its position and how far it was snapped. */
  datatype Site = Site(ref: StopRef, at: Point, offsetM: real)

  datatype PendingCluster = PendingCluster(members: seq<Site>, services: set<string>)

  type Cluster = c: PendingCluster | c.members != []
    witness PendingCluster([Site(StopRef("", "", ""), Point(0.0, 0.0), 0.0)], {})

  /** The clusters so far, and for every placed site the index of its cluster. */
  datatype Grouping = Grouping(clusters: seq<Cluster>, clusterOf: seq<nat>)

  const MERGE_RADIUS_M := 50.0
  const MAX_MERGE_RADIUS_M := 500.0
  const NEAR_MISS_RADIUS_M := 250.0

  /** As far as the base and both offsets reach, but never beyond the cap. */
  function EffectiveMergeRadius(offsetA: real, offsetB: real): (r: real)
    ensures r <= MAX_MERGE_RADIUS_M && r - MERGE_RADIUS_M <= offsetA + offsetB
    ensures r == MAX_MERGE_RADIUS_M || r - MERGE_RADIUS_M == offsetA + offsetB
  {
    var r := MERGE_RADIUS_M + offsetA + offsetB;
    if r > MAX_MERGE_RADIUS_M then MAX_MERGE_RADIUS_M else r
  }

  predicate Accepts(dist: (Point, Point) -> real, c: Cluster, s: Site) {
    && s.ref.serviceId !in c.services
    && dist(c.members[0].at, s.at) <= EffectiveMergeRadius(c.members[0].offsetM, s.offsetM)
  }

  /** The first cluster at or after `from` that takes the site, or the number of clusters. */
  function FirstFit(dist: (Point, Point) -> real, clusters: seq<Cluster>, s: Site, from: nat): (k: nat)
    requires from <= |clusters|
    ensures from <= k <= |clusters|
    ensures k < |clusters| ==> Accepts(dist, clusters[k], s)
    ensures forall j :: from <= j < k ==> !Accepts(dist, clusters[j], s)
    decreases |clusters| - from
  {
    if from == |clusters| || Accepts(dist, clusters[from], s) then from
    else FirstFit(dist, clusters, s, from + 1)
  }

  function Join(c: Cluster, s: Site): Cluster {
    PendingCluster(c.members + [s], c.services + {s.ref.serviceId})
  }

  function Place(dist: (Point, Point) -> real, g: Grouping, s: Site): Grouping {
    var k := FirstFit(dist, g.clusters, s, 0);
    if k == |g.clusters| then
      Grouping(g.clusters + [PendingCluster([s], {s.ref.serviceId})], g.clusterOf + [k])
    else
      Grouping(g.clusters[k := Join(g.clusters[k], s)], g.clusterOf + [k])
  }

  function Greedy(dist: (Point, Point) -> real, sites: seq<Site>): Grouping {
    if sites == [] then Grouping([], [])
    else Place(dist, Greedy(dist, sites[..|sites| - 1]), sites[|sites| - 1])
  }

  method ClusterStops(dist: (Point, Point) -> real, sites: seq<Site>) returns (g: Grouping)
    ensures g == Greedy(dist, sites)
  {
    var clusters: seq<Cluster>, clusterOf: seq<nat> := [], [];
    var i := 0;
    while i < |sites|
      invariant 0 <= i <= |sites|
      invariant Grouping(clusters, clusterOf) == Greedy(dist, sites[..i])
    {
      var s, joined, ci := sites[i], -1, 0;
      while ci < |clusters|
        invariant 0 <= ci <= |clusters|
        invariant joined == -1
        invariant FirstFit(dist, clusters, s, 0) == FirstFit(dist, clusters, s, ci)
      {
        if Accepts(dist, clusters[ci], s) {
          joined := ci;
          break;
        }
        ci := ci + 1;
      }
      assert sites[..i + 1][..i] == sites[..i];
      if joined < 0 {
        clusters := clusters + [PendingCluster([s], {s.ref.serviceId})];
        clusterOf := clusterOf + [|clusters| - 1];
      } else {
        clusters := clusters[joined := Join(clusters[joined], s)];
        clusterOf := clusterOf + [joined];
      }
      i := i + 1;
    }
    assert sites[..i] == sites;
    g := Grouping(clusters, clusterOf);
  }

  // ----- What the clusters are -----

  /** The sites labelled `k`, in order. */
  function Labelled(sites: seq<Site>, labels: seq<nat>, k: nat): seq<Site>
    requires |labels| == |sites|
  {
    if sites == [] then []
    else
      var n := |sites| - 1;
      Labelled(sites[..n], labels[..n], k) + (if labels[n] == k then [sites[n]] else [])
  }

  function ServicesOf(sites: seq<Site>): set<string> {
    set s | s in sites :: s.ref.serviceId
  }

  ghost predicate OneStopPerService(members: seq<Site>) {
    forall i, j :: 0 <= i < j < |members| ==> members[i].ref.serviceId != members[j].ref.serviceId
  }

  /** A cluster holds exactly the sites sent to it, at most one of each service. */
  ghost predicate Faithful(sites: seq<Site>, g: Grouping)
    requires |g.clusterOf| == |sites|
  {
    && (forall i :: 0 <= i < |sites| ==> g.clusterOf[i] < |g.clusters|)
    && (forall k :: 0 <= k < |g.clusters| ==>
          && g.clusters[k].members == Labelled(sites, g.clusterOf, k)
          && g.clusters[k].services == ServicesOf(g.clusters[k].members)
          && OneStopPerService(g.clusters[k].members))
  }

  lemma {:induction false} UnusedLabel(sites: seq<Site>, labels: seq<nat>, k: nat)
    requires |labels| == |sites| && k !in labels
    ensures Labelled(sites, labels, k) == []
  {
    if sites != [] {
      UnusedLabel(sites[..|sites| - 1], labels[..|sites| - 1], k);
    }
  }

  lemma {:induction false} GreedyFaithful(dist: (Point, Point) -> real, sites: seq<Site>)
    ensures |Greedy(dist, sites).clusterOf| == |sites|
    ensures Faithful(sites, Greedy(dist, sites))
  {
    if sites != [] {
      var n := |sites| - 1;
      GreedyFaithful(dist, sites[..n]);
      PlaceFaithful(dist, sites[..n], Greedy(dist, sites[..n]), sites[n]);
      assert sites[..n] + [sites[n]] == sites;
    }
  }

  lemma LabelledSnoc(sites: seq<Site>, labels: seq<nat>, s: Site, last: nat, k: nat)
    requires |labels| == |sites|
    ensures Labelled(sites + [s], labels + [last], k)
            == Labelled(sites, labels, k) + (if last == k then [s] else [])
  {
    assert (sites + [s])[..|sites|] == sites && (labels + [last])[..|sites|] == labels;
  }

  lemma PlaceFaithful(dist: (Point, Point) -> real, sites: seq<Site>, g: Grouping, s: Site)
    requires |g.clusterOf| == |sites| && Faithful(sites, g)
    ensures |Place(dist, g, s).clusterOf| == |sites| + 1
    ensures Faithful(sites + [s], Place(dist, g, s))
  {
    hide FirstFit, Labelled, ServicesOf, OneStopPerService, EffectiveMergeRadius;
    var h, last := Place(dist, g, s), FirstFit(dist, g.clusters, s, 0);
    forall k | 0 <= k < |h.clusters|
      ensures h.clusters[k].members == Labelled(sites + [s], h.clusterOf, k)
      ensures h.clusters[k].services == ServicesOf(h.clusters[k].members)
      ensures OneStopPerService(h.clusters[k].members)
    {
      LabelledSnoc(sites, g.clusterOf, s, last, k);
      if k == |g.clusters| {
        UnusedLabel(sites, g.clusterOf, k);
        NewFaithful(s);
      } else if k == last {
        JoinFaithful(g.clusters[k], s);
      }
    }
  }

  lemma NewFaithful(s: Site)
    ensures ServicesOf([s]) == {s.ref.serviceId} && OneStopPerService([s])
  {
    assert s in [s];
  }

  lemma JoinFaithful(c: Cluster, s: Site)
    requires c.services == ServicesOf(c.members) && OneStopPerService(c.members)
    requires s.ref.serviceId !in c.services
    ensures Join(c, s).services == ServicesOf(Join(c, s).members)
    ensures OneStopPerService(Join(c, s).members)
  {
    var members := c.members + [s];
    forall i | 0 <= i < |c.members| ensures c.members[i].ref.serviceId in c.services {
      assert c.members[i] in c.members;
    }
    assert ServicesOf(members) == ServicesOf(c.members) + {s.ref.serviceId};
  }

  // ----- Order -----

  predicate SiteLess(a: Site, b: Site) {
    if a.ref.slug != b.ref.slug then Less(a.ref.slug, b.ref.slug) else Less(a.ref.serviceId, b.ref.serviceId)
  }

  lemma SiteLessIsWeakOrder()
    ensures WeakOrder(SiteLess)
  {
    forall a, b | SiteLess(a, b) ensures !SiteLess(b, a) {
      LessAsymmetric(a.ref.slug, b.ref.slug);
      LessAsymmetric(a.ref.serviceId, b.ref.serviceId);
    }
    forall a, b, c | !SiteLess(b, a) && !SiteLess(c, b) ensures !SiteLess(c, a) {
      NotSiteLessTransitive(a, b, c);
    }
  }

  lemma NotSiteLessTransitive(a: Site, b: Site, c: Site)
    requires !SiteLess(b, a) && !SiteLess(c, b)
    ensures !SiteLess(c, a)
  {
    hide Less;
    LessAsymmetric(a.ref.slug, a.ref.slug);
    LessAsymmetric(b.ref.slug, b.ref.slug);
    LessTotal(a.ref.slug, b.ref.slug);
    if a.ref.slug == b.ref.slug == c.ref.slug {
      NotLessTransitive(a.ref.serviceId, b.ref.serviceId, c.ref.serviceId);
    } else {
      NotLessTransitive(a.ref.slug, b.ref.slug, c.ref.slug);
    }
  }

  lemma NotLessTransitive(a: string, b: string, c: string)
    requires !Less(b, a) && !Less(c, b)
    ensures !Less(c, a)
  {
    LessTotal(a, b);
    LessTotal(b, c);
    if Less(c, a) && Less(a, b) {
      LessTransitive(c, a, b);
    }
  }

  /** Stops that differ in slug or service are told apart. */
  lemma SiteLessTotal(a: Site, b: Site)
    ensures (a.ref.slug == b.ref.slug && a.ref.serviceId == b.ref.serviceId) || SiteLess(a, b) || SiteLess(b, a)
  {
    LessTotal(a.ref.slug, b.ref.slug);
    LessTotal(a.ref.serviceId, b.ref.serviceId);
  }

  /** Picking sites by label keeps them sorted. */
  lemma {:induction false} LabelledSorted(sites: seq<Site>, labels: seq<nat>, k: nat)
    requires |labels| == |sites| && Sorted(sites, SiteLess)
    ensures Sorted(Labelled(sites, labels, k), SiteLess)
    ensures forall s :: s in Labelled(sites, labels, k) ==> s in sites
  {
    if sites != [] {
      var n := |sites| - 1;
      var rest := sites[..n];
      LabelledSorted(rest, labels[..n], k);
      forall s | s in Labelled(rest, labels[..n], k) ensures !SiteLess(sites[n], s) {
        assert s in rest;
        var i :| 0 <= i < |rest| && rest[i] == s;
        assert !SiteLess(sites[n], sites[i]);
      }
    }
  }
}
