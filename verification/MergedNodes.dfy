/**
 What a node of the merged graph says (internal/transit/cluster.go, `node` and `clusterNames`), in terms of
 the stops that ended up together: it stands where the first of them does and bears their names.
 */
module MergedNodes {
  import opened Sorting
  import opened Clustering
  import opened Connectivity
  import opened Folding
  import opened FoldPairs
  import opened Compilables
  import opened Merging
  import opened ClusterKeys
  import opened NearStops
  import opened MergeServices
  import opened Collections

  // ----- Members of a folded cluster -----

  lemma {:induction false} GatheredHolds(clusters: seq<Cluster>, links: set<(int, int)>, lead: nat, n: nat, c: nat, x: Site)
    requires c < n <= |clusters| && Connected(links, lead, c) && x in clusters[c].members
    ensures x in Gathered(clusters, links, lead, n)
  {
    hide Connected;
    if c < n - 1 {
      GatheredHolds(clusters, links, lead, n - 1, c, x);
    }
  }

  /** A stop sent to a folded cluster is one of its members. */
  lemma MemberOfFolded(sites: seq<Site>, g: Grouping, pairs: seq<InterchangePair>, h: Grouping, t: nat)
    requires |g.clusterOf| == |sites| && Faithful(sites, g) && FoldedBy(sites, g, pairs, h) && t < |sites|
    ensures h.clusterOf[t] < |h.clusters| && sites[t] in h.clusters[h.clusterOf[t]].members
  {
    hide Connected, PairLinks, StableSort, Gathered, GatheredServices, Leaders, Labelled, FinalIndex;
    var links, n, c := PairLinks(sites, g.clusterOf, pairs), |g.clusters|, g.clusterOf[t];
    FinalIndexInRange(links, c, n);
    var lead := LeaderOf(links, c);
    LabelledElements(sites, g.clusterOf, c, sites[t]);
    GatheredHolds(g.clusters, links, lead, n, c, sites[t]);
    SortedElements(Gathered(g.clusters, links, lead, n), SiteLess, sites[t]);
    assert h.clusters[h.clusterOf[t]] == FoldOne(g.clusters, links, lead);
  }

  /** And every member was sent there. */
  lemma FoldedMember(sites: seq<Site>, g: Grouping, pairs: seq<InterchangePair>, h: Grouping, k: nat, x: Site) returns (t: nat)
    requires |g.clusterOf| == |sites| && Faithful(sites, g) && FoldedBy(sites, g, pairs, h)
    requires k < |h.clusters| && x in h.clusters[k].members
    ensures t < |sites| && h.clusterOf[t] == k && sites[t] == x
  {
    hide Connected, PairLinks, StableSort, Gathered, GatheredServices, Leaders, FinalIndex, Labelled;
    var links, n := PairLinks(sites, g.clusterOf, pairs), |g.clusters|;
    var lead := Leaders(links, n)[k];
    assert h.clusters[k] == FoldOne(g.clusters, links, lead);
    SortedElements(Gathered(g.clusters, links, lead, n), SiteLess, x);
    var c := GatheredFrom(g.clusters, links, lead, n, x);
    t := LabelledFrom(sites, g.clusterOf, c, x);
    LeaderPosition(links, n, k);
    SameFinalIndex(links, lead, c);
  }

  lemma FirstMemberLeast(sites: seq<Site>, g: Grouping, pairs: seq<InterchangePair>, h: Grouping, k: nat, x: Site)
    requires |g.clusterOf| == |sites| && FoldedBy(sites, g, pairs, h)
    requires k < |h.clusters| && x in h.clusters[k].members
    ensures !SiteLess(x, h.clusters[k].members[0])
  {
    hide Connected, PairLinks, StableSort, Gathered, GatheredServices, Leaders, FinalIndex, SiteLess;
    var links, n := PairLinks(sites, g.clusterOf, pairs), |g.clusters|;
    var lead := Leaders(links, n)[k];
    assert h.clusters[k] == FoldOne(g.clusters, links, lead);
    SiteLessIsWeakOrder();
    StableSortSorted(Gathered(g.clusters, links, lead, n), SiteLess);
    HeadLeast(h.clusters[k].members, x, SiteLess);
    assert !SiteLess(x, x);
  }

  // ----- Nodes -----

  /** Stop `t` is at the node of stop `s`: a chain of shared clusters and declared pairs joins them. */
  ghost predicate Together(dist: (Point, Point) -> real, sites: seq<Site>, pairs: seq<InterchangePair>, s: nat, t: nat)
    requires |Greedy(dist, sites).clusterOf| == |sites|
  {
    Connected(StopLinks(sites, Greedy(dist, sites).clusterOf, pairs), s, t)
  }

  lemma MemberNamed(members: seq<Site>, name: string)
    ensures name in Names(members) <==> exists x :: x in members && x.ref.name == name
  {
    NamesElements(members, name);
    if i :| 0 <= i < |members| && members[i].ref.name == name {
      assert members[i] in members;
    }
  }

  /**
   Every node stands where one of the stops merged into it stands, takes its slug, and no stop merged into
   it comes before that one in the order of slug and service. Its names are those of the stops merged into it.
   */
  lemma NodeOfStops(dist: (Point, Point) -> real, sites: seq<Site>, pairs: seq<InterchangePair>, m: Merge, k: nat) returns (s: nat)
    requires MergedSites(dist, sites, pairs, m) && k < |m.nodes|
    ensures |Greedy(dist, sites).clusterOf| == |sites| == |m.keys| && s < |sites|
    ensures m.keys[s] == m.nodes[k].slug == sites[s].ref.slug
    ensures m.nodes[k].lat == sites[s].at.lat && m.nodes[k].lng == sites[s].at.lng
    ensures forall t :: 0 <= t < |sites| && Together(dist, sites, pairs, s, t) ==> !SiteLess(sites[t], sites[s])
    ensures forall name :: name in m.nodes[k].names <==>
              exists t :: 0 <= t < |sites| && Together(dist, sites, pairs, s, t) && sites[t].ref.name == name
  {
    hide Greedy, FoldedBy, Faithful, Realised, MissesUpTo, Names, SiteLess, StopLinks, Connected;
    GreedyFaithful(dist, sites);
    var g := Greedy(dist, sites);
    var h :| FoldedBy(sites, g, pairs, h) && Reports(dist, sites, h, m);
    var members := h.clusters[k].members;
    s := FoldedMember(sites, g, pairs, h, k, members[0]);
    forall t | 0 <= t < |sites|
      ensures Together(dist, sites, pairs, s, t) <==> h.clusterOf[t] == k
      ensures h.clusterOf[t] == k ==> sites[t] in members && !SiteLess(sites[t], sites[s])
    {
      SameFoldedClusterIffConnected(sites, g, pairs, h, s, t);
      MemberOfFolded(sites, g, pairs, h, t);
      if h.clusterOf[t] == k {
        FirstMemberLeast(sites, g, pairs, h, k, sites[t]);
      }
    }
    forall name
      ensures name in m.nodes[k].names <==>
                exists t :: 0 <= t < |sites| && Together(dist, sites, pairs, s, t) && sites[t].ref.name == name
    {
      MemberNamed(members, name);
      if name in m.nodes[k].names {
        var x :| x in members && x.ref.name == name;
        var t := FoldedMember(sites, g, pairs, h, k, x);
      }
    }
  }

  /** A node in terms of the services: the position and the slug are those of a stop that some service calls at. */
  lemma NodeOfService(dist: (Point, Point) -> real, svcs: seq<CompilableService>, pairs: seq<InterchangePair>,
                      merged: seq<CompilableService>, m: Merge, k: nat) returns (i: nat, j: nat)
    requires MergedAs(dist, svcs, pairs, merged, m) && k < |m.nodes|
    ensures i < |svcs| == |merged| && j < |svcs[i].stops| == |merged[i].stops|
    ensures m.nodes[k].slug == svcs[i].stops[j].slug == merged[i].stops[j].slug
    ensures m.nodes[k].lat == svcs[i].stops[j].lat && m.nodes[k].lng == svcs[i].stops[j].lng
  {
    hide MergedSites, SortedStops, Greedy;
    var stops := SortedStops(svcs);
    var s := NodeOfStops(dist, SitesOf(stops), pairs, m, k);
    assert KeyWritten(svcs, stops[s], m.keys[s], merged);
    i, j := stops[s].svcIdx, stops[s].stopIdx;
    assert SameExceptSlugs(svcs, merged);
  }

  // ----- The report -----

  lemma {:induction false} RealisedIff(clusters: seq<Cluster>, r: StopCluster)
    ensures r in Realised(clusters) <==>
              exists c :: c in clusters && 2 <= |c.members|
                          && r == StopCluster(KeyOf(c), Names(c.members), Map((x: Site) => x.ref, c.members))
  {
    hide KeyOf, Names;
    if clusters != [] {
      RealisedIff(clusters[..|clusters| - 1], r);
      assert clusters == clusters[..|clusters| - 1] + [clusters[|clusters| - 1]];
    }
  }

  lemma TwoMembers(members: seq<Site>, x: Site, y: Site)
    requires x in members && y in members && x != y
    ensures 2 <= |members|
  {
    var i :| 0 <= i < |members| && members[i] == x;
    var j :| 0 <= j < |members| && members[j] == y;
  }

  lemma RefAmong(members: seq<Site>, x: Site)
    requires x in members
    ensures x.ref in Map((y: Site) => y.ref, members)
  {
    var i :| 0 <= i < |members| && members[i] == x;
    assert Map((y: Site) => y.ref, members)[i] == x.ref;
  }

  /** Two stops that end together are reported together, under their key. */
  lemma TogetherReported(dist: (Point, Point) -> real, sites: seq<Site>, pairs: seq<InterchangePair>, m: Merge, s: nat, t: nat)
    requires MergedSites(dist, sites, pairs, m) && |Greedy(dist, sites).clusterOf| == |sites| == |m.keys|
    requires s < |sites| && t < |sites| && sites[s] != sites[t] && Together(dist, sites, pairs, s, t)
    ensures exists r :: r in m.report.clusters && r.key == m.keys[s] && sites[s].ref in r.members && sites[t].ref in r.members
  {
    hide Greedy, FoldedBy, Faithful, Realised, MissesUpTo, Names, StopLinks, Connected;
    GreedyFaithful(dist, sites);
    var g := Greedy(dist, sites);
    var h :| FoldedBy(sites, g, pairs, h) && Reports(dist, sites, h, m);
    SameFoldedClusterIffConnected(sites, g, pairs, h, s, t);
    MemberOfFolded(sites, g, pairs, h, s);
    MemberOfFolded(sites, g, pairs, h, t);
    var c := h.clusters[h.clusterOf[s]];
    TwoMembers(c.members, sites[s], sites[t]);
    RefAmong(c.members, sites[s]);
    RefAmong(c.members, sites[t]);
    var r := StopCluster(KeyOf(c), Names(c.members), Map((x: Site) => x.ref, c.members));
    RealisedIff(h.clusters, r);
  }

  /** What is reported together did end together. */
  lemma ReportedTogether(dist: (Point, Point) -> real, sites: seq<Site>, pairs: seq<InterchangePair>, m: Merge, r: StopCluster)
    requires MergedSites(dist, sites, pairs, m) && r in m.report.clusters
    ensures |m.keys| == |sites| && 2 <= |r.members|
    ensures forall ref :: ref in r.members ==> exists t :: 0 <= t < |sites| && sites[t].ref == ref && m.keys[t] == r.key
  {
    hide Greedy, FoldedBy, Faithful, Realised, MissesUpTo, Names, StopLinks, Connected, KeyOf;
    GreedyFaithful(dist, sites);
    var g := Greedy(dist, sites);
    var h :| FoldedBy(sites, g, pairs, h) && Reports(dist, sites, h, m);
    RealisedIff(h.clusters, r);
    var c :| c in h.clusters && 2 <= |c.members|
             && r == StopCluster(KeyOf(c), Names(c.members), Map((x: Site) => x.ref, c.members));
    var k :| 0 <= k < |h.clusters| && h.clusters[k] == c;
    forall ref | ref in r.members ensures exists t :: 0 <= t < |sites| && sites[t].ref == ref && m.keys[t] == r.key {
      var i :| 0 <= i < |r.members| && r.members[i] == ref;
      var t := FoldedMember(sites, g, pairs, h, k, c.members[i]);
    }
  }

  /**
   The near misses reported are exactly the pairs of stops of different services that did not end together
   although they are at most 250 m apart, each once, with that distance.
   */
  lemma NearMissesReported(dist: (Point, Point) -> real, sites: seq<Site>, pairs: seq<InterchangePair>, m: Merge)
    returns (at: seq<(nat, nat)>)
    requires MergedSites(dist, sites, pairs, m) && |Greedy(dist, sites).clusterOf| == |sites|
    ensures |at| == |m.report.nearMisses|
    ensures forall k :: 0 <= k < |at| ==>
              && at[k].0 < at[k].1 < |sites|
              && m.report.nearMisses[k] == NearMiss(sites[at[k].0].ref, sites[at[k].1].ref, dist(sites[at[k].0].at, sites[at[k].1].at))
    ensures forall i, j :: 0 <= i < j < |sites| ==>
              ((i, j) in at <==>
                 && sites[i].ref.serviceId != sites[j].ref.serviceId
                 && !Together(dist, sites, pairs, i, j)
                 && dist(sites[i].at, sites[j].at) <= 250.0)
    ensures NoRepeat(at)
  {
    hide Greedy, FoldedBy, Faithful, Realised, MissesUpTo, Names, StopLinks, Connected, KeyOf;
    GreedyFaithful(dist, sites);
    var g := Greedy(dist, sites);
    var h :| FoldedBy(sites, g, pairs, h) && Reports(dist, sites, h, m);
    at := NearMissesExact(dist, sites, h.clusterOf);
    forall i, j | 0 <= i < j < |sites|
      ensures (i, j) in at <==>
                && sites[i].ref.serviceId != sites[j].ref.serviceId
                && !Together(dist, sites, pairs, i, j)
                && dist(sites[i].at, sites[j].at) <= 250.0
    {
      SameFoldedClusterIffConnected(sites, g, pairs, h, i, j);
    }
  }

  // ----- Declared pairs -----

  /** The only stop of that service and slug. */
  ghost predicate OnlyStop(sites: seq<Site>, s: nat, id: StopIdentity) {
    && s < |sites| && sites[s].ref.serviceId == id.serviceId && sites[s].ref.slug == id.slug
    && forall t :: 0 <= t < |sites| && sites[t].ref.serviceId == id.serviceId && sites[t].ref.slug == id.slug ==> t == s
  }

  lemma OnlyIndex(sites: seq<Site>, s: nat, id: StopIdentity)
    requires OnlyStop(sites, s, id)
    ensures IndexOf(sites, id) == s
  {
    assert IdentityOf(sites[s]) == id;
    hide IndexOf;
    assert 0 <= IndexOf(sites, id);
  }

  /** A declared pair brings its two stops together, however far apart they are. */
  lemma PairBrings(dist: (Point, Point) -> real, sites: seq<Site>, pairs: seq<InterchangePair>, m: Merge, p: InterchangePair, s: nat, t: nat)
    requires MergedSites(dist, sites, pairs, m) && |Greedy(dist, sites).clusterOf| == |sites| == |m.keys|
    requires p in pairs && OnlyStop(sites, s, p.a) && OnlyStop(sites, t, p.b)
    ensures Together(dist, sites, pairs, s, t) && m.keys[s] == m.keys[t]
  {
    OnlyIndex(sites, s, p.a);
    OnlyIndex(sites, t, p.b);
    hide IndexOf, Greedy, MergedSites, OnlyStop;
    var links := StopLinks(sites, Greedy(dist, sites).clusterOf, pairs);
    assert (s, t) in links;
    OneLink(links, s, t);
    SameKeyIffConnected(dist, sites, pairs, m, s, t);
  }

  /** So does sharing a greedy cluster. */
  lemma ClusterBrings(dist: (Point, Point) -> real, sites: seq<Site>, pairs: seq<InterchangePair>, m: Merge, s: nat, t: nat)
    requires MergedSites(dist, sites, pairs, m) && |Greedy(dist, sites).clusterOf| == |sites| == |m.keys|
    requires s < |sites| && t < |sites| && Greedy(dist, sites).clusterOf[s] == Greedy(dist, sites).clusterOf[t]
    ensures Together(dist, sites, pairs, s, t) && m.keys[s] == m.keys[t]
  {
    hide IndexOf, Greedy, MergedSites;
    var links := StopLinks(sites, Greedy(dist, sites).clusterOf, pairs);
    assert (s, t) in links;
    OneLink(links, s, t);
    SameKeyIffConnected(dist, sites, pairs, m, s, t);
  }

  /** Without pairs nothing else brings stops together, when their slugs are distinct. */
  lemma NothingElseBrings(dist: (Point, Point) -> real, sites: seq<Site>, m: Merge, s: nat, t: nat)
    requires MergedSites(dist, sites, [], m) && |Greedy(dist, sites).clusterOf| == |sites| == |m.keys|
    requires forall i, j :: 0 <= i < j < |sites| ==> sites[i].ref.slug != sites[j].ref.slug
    requires s < |sites| && t < |sites| && m.keys[s] == m.keys[t]
    ensures Greedy(dist, sites).clusterOf[s] == Greedy(dist, sites).clusterOf[t]
  {
    hide Greedy, MergedSites;
    var labels := Greedy(dist, sites).clusterOf;
    SameKeyIffConnected(dist, sites, [], m, s, t);
    LabelPreserved(StopLinks(sites, labels, []), (x: int) => if 0 <= x < |sites| then labels[x] else 0, s, t);
  }
}
