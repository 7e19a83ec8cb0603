/**
 The keys that merging hands out (internal/transit/cluster.go, `key`): every key is the slug of a stop
 of its own cluster, so the nodes are exactly the keys, and distinct stop slugs give distinct nodes.
 */
module ClusterKeys {
  import opened Sorting
  import opened Clustering
  import opened Connectivity
  import opened Folding
  import opened FoldPairs
  import opened Compilables
  import opened Merging

  lemma {:induction false} LabelledFrom(sites: seq<Site>, labels: seq<nat>, k: nat, s: Site) returns (t: nat)
    requires |labels| == |sites| && s in Labelled(sites, labels, k)
    ensures t < |sites| && sites[t] == s && labels[t] == k
  {
    var n := |sites| - 1;
    if labels[n] == k && s == sites[n] {
      t := n;
    } else {
      t := LabelledFrom(sites[..n], labels[..n], k, s);
    }
  }

  lemma {:induction false} GatheredFrom(clusters: seq<Cluster>, links: set<(int, int)>, lead: nat, n: nat, s: Site) returns (c: nat)
    requires n <= |clusters| && s in Gathered(clusters, links, lead, n)
    ensures c < n && Connected(links, lead, c) && s in clusters[c].members
  {
    hide Connected;
    if Connected(links, lead, n - 1) && s in clusters[n - 1].members {
      c := n - 1;
    } else {
      c := GatheredFrom(clusters, links, lead, n - 1, s);
    }
  }

  lemma {:induction false} LeadersAscend(links: set<(int, int)>, n: nat)
    ensures forall i, j :: 0 <= i < j < |Leaders(links, n)| ==> Leaders(links, n)[i] < Leaders(links, n)[j]
  {
    hide Leads;
    if n > 0 {
      LeadersAscend(links, n - 1);
    }
  }

  /** The `k`-th leader leads the `k`-th folded cluster. */
  lemma LeaderPosition(links: set<(int, int)>, n: nat, k: nat)
    requires k < |Leaders(links, n)|
    ensures FinalIndex(links, Leaders(links, n)[k]) == k
  {
    hide Leaders, Connected;
    var lead := Leaders(links, n)[k];
    LeaderFinal(links, lead);
    LeadersGrow(links, lead, n);
    LeadersAscend(links, n);
    var p := |Leaders(links, lead)|;
    assert !(p < k) && !(k < p);
  }

  /** A folded cluster is represented by a site that was sent to it, whose slug is the cluster's key. */
  lemma KeySite(sites: seq<Site>, g: Grouping, pairs: seq<InterchangePair>, h: Grouping, k: nat) returns (s: nat)
    requires |g.clusterOf| == |sites| && Faithful(sites, g) && FoldedBy(sites, g, pairs, h)
    requires k < |h.clusters|
    ensures s < |sites| && h.clusterOf[s] == k && sites[s].ref.slug == KeyOf(h.clusters[k])
  {
    hide Connected, PairLinks, StableSort, Gathered, GatheredServices, Leaders, FinalIndex, Labelled;
    var links := PairLinks(sites, g.clusterOf, pairs);
    var n := |g.clusters|;
    var lead := Leaders(links, n)[k];
    var site := h.clusters[k].members[0];
    assert h.clusters[k] == FoldOne(g.clusters, links, lead);
    SortedElements(Gathered(g.clusters, links, lead, n), SiteLess, site);
    assert site in h.clusters[k].members;
    var c := GatheredFrom(g.clusters, links, lead, n, site);
    s := LabelledFrom(sites, g.clusterOf, c, site);
    LeaderPosition(links, n, k);
    SameFinalIndex(links, lead, c);
  }

  function NodeSlugs(nodes: seq<GraphNode>): set<string> {
    set n | n in nodes :: n.slug
  }

  function KeySet(keys: seq<string>): set<string> {
    set k | k in keys
  }

  /** Every node is somebody's key and every key is a node. */
  lemma NodesAreKeys(dist: (Point, Point) -> real, sites: seq<Site>, pairs: seq<InterchangePair>, m: Merge)
    requires MergedSites(dist, sites, pairs, m)
    ensures NodeSlugs(m.nodes) == KeySet(m.keys)
  {
    hide Greedy, FoldedBy, Faithful, KeyOf, Realised, MissesUpTo, Names;
    GreedyFaithful(dist, sites);
    var g := Greedy(dist, sites);
    var h :| FoldedBy(sites, g, pairs, h) && Reports(dist, sites, h, m);
    forall k | 0 <= k < |m.nodes| ensures m.nodes[k].slug in KeySet(m.keys) {
      var s := KeySite(sites, g, pairs, h, k);
      assert m.keys[s] in m.keys;
    }
    forall s | 0 <= s < |m.keys| ensures m.keys[s] in NodeSlugs(m.nodes) {
      assert m.nodes[h.clusterOf[s]] in m.nodes;
    }
  }

  ghost predicate DistinctSiteSlugs(sites: seq<Site>) {
    forall s, t :: 0 <= s < t < |sites| ==> sites[s].ref.slug != sites[t].ref.slug
  }

  ghost predicate DistinctNodes(nodes: seq<GraphNode>) {
    forall i, j :: 0 <= i < j < |nodes| ==> nodes[i].slug != nodes[j].slug
  }

  /** Distinct stop slugs give every cluster a key of its own. */
  lemma KeysDistinct(sites: seq<Site>, g: Grouping, pairs: seq<InterchangePair>, h: Grouping, k: nat, l: nat)
    requires |g.clusterOf| == |sites| && Faithful(sites, g) && FoldedBy(sites, g, pairs, h)
    requires DistinctSiteSlugs(sites) && k < l < |h.clusters|
    ensures KeyOf(h.clusters[k]) != KeyOf(h.clusters[l])
  {
    hide Faithful, FoldedBy, KeyOf;
    var s := KeySite(sites, g, pairs, h, k);
    var t := KeySite(sites, g, pairs, h, l);
    assert s < t || t < s;
  }

  lemma NodesDistinct(dist: (Point, Point) -> real, sites: seq<Site>, pairs: seq<InterchangePair>, m: Merge)
    requires MergedSites(dist, sites, pairs, m) && DistinctSiteSlugs(sites)
    ensures DistinctNodes(m.nodes)
  {
    hide Greedy, FoldedBy, Faithful, KeyOf, Realised, MissesUpTo, Names, DistinctSiteSlugs;
    GreedyFaithful(dist, sites);
    var g := Greedy(dist, sites);
    var h :| FoldedBy(sites, g, pairs, h) && Reports(dist, sites, h, m);
    forall k, l | 0 <= k < l < |m.nodes| ensures m.nodes[k].slug != m.nodes[l].slug {
      KeysDistinct(sites, g, pairs, h, k, l);
    }
  }

  /**
   Two sites get one key exactly when the closure of "same greedy cluster" and the declared pairs
   connects them. One way holds for any slugs, the other needs them distinct.
   */
  lemma SameKeyIffConnected(dist: (Point, Point) -> real, sites: seq<Site>, pairs: seq<InterchangePair>, m: Merge, s: nat, t: nat)
    requires MergedSites(dist, sites, pairs, m) && |m.keys| == |sites| == |Greedy(dist, sites).clusterOf|
    requires s < |sites| && t < |sites|
    ensures Connected(StopLinks(sites, Greedy(dist, sites).clusterOf, pairs), s, t) ==> m.keys[s] == m.keys[t]
    ensures DistinctSiteSlugs(sites) && m.keys[s] == m.keys[t] ==>
              Connected(StopLinks(sites, Greedy(dist, sites).clusterOf, pairs), s, t)
  {
    hide Greedy, FoldedBy, Faithful, KeyOf, Realised, MissesUpTo, Names, DistinctSiteSlugs, StopLinks, Connected;
    GreedyFaithful(dist, sites);
    var g := Greedy(dist, sites);
    var h :| FoldedBy(sites, g, pairs, h) && Reports(dist, sites, h, m);
    SameFoldedClusterIffConnected(sites, g, pairs, h, s, t);
    var k, l := h.clusterOf[s], h.clusterOf[t];
    if DistinctSiteSlugs(sites) && k != l {
      KeysDistinct(sites, g, pairs, h, if k < l then k else l, if k < l then l else k);
    }
  }
}
