/** The in-place folding algorithm (internal/transit/interchange.go), against the specification in `Folding`. */
module FoldPairs {
  import opened Sorting
  import opened Clustering
  import opened Connectivity
  import opened UnionFind
  import opened Folding

  lemma PairLinksSnoc(sites: seq<Site>, clusterOf: seq<nat>, pairs: seq<InterchangePair>, p: InterchangePair)
    requires |clusterOf| == |sites|
    ensures PairLinks(sites, clusterOf, pairs + [p])
            == PairLinks(sites, clusterOf, pairs) + (if Known(sites, p) then {LinkOf(sites, clusterOf, p)} else {})
  {
    hide IndexOf;
    var before, after := PairLinks(sites, clusterOf, pairs), PairLinks(sites, clusterOf, pairs + [p]);
    forall q | q in pairs + [p] && Known(sites, q) ensures q in pairs || q == p {
    }
    assert forall q :: q in pairs ==> q in pairs + [p];
    assert p in pairs + [p];
  }

  /** The index map: later sites overwrite earlier ones. */
  method BuildIndex(sites: seq<Site>) returns (index: map<StopIdentity, int>)
    ensures forall id :: id in index <==> 0 <= IndexOf(sites, id)
    ensures forall id :: id in index ==> index[id] == IndexOf(sites, id)
  {
    index := map[];
    var i := 0;
    while i < |sites|
      invariant 0 <= i <= |sites|
      invariant forall id :: id in index <==> 0 <= IndexOf(sites[..i], id)
      invariant forall id :: id in index ==> index[id] == IndexOf(sites[..i], id)
    {
      assert sites[..i + 1][..i] == sites[..i];
      index := index[IdentityOf(sites[i]) := i];
      i := i + 1;
    }
    assert sites[..i] == sites;
  }

  /** Unions every known pair and reads off the roots. */
  method ComputeRoots(sites: seq<Site>, clusterOf: seq<nat>, n: nat, pairs: seq<InterchangePair>)
    returns (rootOf: seq<nat>)
    requires |clusterOf| == |sites|
    requires forall i :: 0 <= i < |sites| ==> clusterOf[i] < n
    ensures |rootOf| == n
    ensures RootsAreComponents(rootOf, PairLinks(sites, clusterOf, pairs))
  {
    hide Connected, RootsAreComponents, PairLinks, Forest, IndexOf;
    var index := BuildIndex(sites);
    var parent := new nat[n](i => i);
    ghost var root, rank := parent[..], seq(n, _ => 0);
    InitialForest(parent[..], root, rank);
    NoPairs(sites, clusterOf);
    NoLinks(root);
    var k := 0;
    while k < |pairs|
      invariant 0 <= k <= |pairs|
      invariant |root| == n == parent.Length && Forest(parent[..], root, rank)
      invariant RootsAreComponents(root, PairLinks(sites, clusterOf, pairs[..k]))
    {
      var p := pairs[k];
      PairLinksSnoc(sites, clusterOf, pairs[..k], p);
      assert pairs[..k] + [p] == pairs[..k + 1];
      if p.a in index && p.b in index {
        var a, b := clusterOf[index[p.a]], clusterOf[index[p.b]];
        LinksInRange(sites, clusterOf, n, pairs[..k]);
        OneMoreLink(root, PairLinks(sites, clusterOf, pairs[..k]), a, b);
        root, rank := UnionClusters(parent, a, b, root, rank);
      } else {
        assert PairLinks(sites, clusterOf, pairs[..k + 1]) == PairLinks(sites, clusterOf, pairs[..k]);
      }
      k := k + 1;
    }
    assert pairs[..k] == pairs;
    rootOf := ReadRoots(parent, root, rank);
  }

  /** The root of every cluster. */
  method ReadRoots(parent: array<nat>, ghost root: seq<nat>, ghost rank: seq<nat>) returns (rootOf: seq<nat>)
    requires |root| == parent.Length && Forest(parent[..], root, rank)
    modifies parent
    ensures rootOf == root
  {
    hide Forest;
    rootOf := [];
    var i := 0;
    while i < parent.Length
      invariant 0 <= i <= parent.Length
      invariant Forest(parent[..], root, rank)
      invariant rootOf == root[..i]
    {
      var r := FindCluster(parent, i, root, rank);
      rootOf := rootOf + [r];
      i := i + 1;
    }
  }

  lemma InitialForest(parent: seq<nat>, root: seq<nat>, rank: seq<nat>)
    requires |root| == |parent| == |rank| && root == parent
    requires forall i :: 0 <= i < |parent| ==> parent[i] == i
    ensures Forest(parent, root, rank)
  {
  }

  lemma NoPairs(sites: seq<Site>, clusterOf: seq<nat>)
    requires |clusterOf| == |sites|
    ensures PairLinks(sites, clusterOf, []) == {}
  {
  }

  lemma LinksInRange(sites: seq<Site>, clusterOf: seq<nat>, n: nat, pairs: seq<InterchangePair>)
    requires |clusterOf| == |sites|
    requires forall i :: 0 <= i < |sites| ==> clusterOf[i] < n
    ensures forall x, y :: (x, y) in PairLinks(sites, clusterOf, pairs) ==> 0 <= x < n && 0 <= y < n
  {
    hide IndexOf;
  }

  /** The clusters of one component, concatenated in index order and sorted. */
  method FoldGroup(clusters: seq<Cluster>, rootOf: seq<nat>, lead: nat, ghost links: set<(int, int)>)
    returns (c: Cluster)
    requires |rootOf| == |clusters| && lead < |clusters| && RootsAreComponents(rootOf, links)
    ensures c == FoldOne(clusters, links, lead)
  {
    hide Connected;
    var members, services, i := [], {}, 0;
    while i < |clusters|
      invariant 0 <= i <= |clusters|
      invariant members == Gathered(clusters, links, lead, i)
      invariant services == GatheredServices(clusters, links, lead, i)
    {
      assert rootOf[lead] == rootOf[i] <==> Connected(links, lead, i);
      if rootOf[i] == rootOf[lead] {
        members, services := members + clusters[i].members, services + clusters[i].services;
      }
      i := i + 1;
    }
    GatheredNonEmpty(clusters, links, lead, |clusters|);
    c := PendingCluster(StableSort(members, SiteLess), services);
  }

  // ----- No pairs -----

  lemma ApartWithoutLinks(i: int, j: int)
    ensures Connected({}, i, j) <==> i == j
  {
    if i == j {
      Reflexive({}, i);
    } else if Connected({}, i, j) {
      LabelPreserved({}, (x: int) => x, i, j);
    }
  }

  lemma {:induction false} AllLead(links: set<(int, int)>, n: nat)
    requires forall i, j :: Connected(links, i, j) <==> i == j
    ensures |Leaders(links, n)| == n
    ensures forall k :: 0 <= k < n ==> Leaders(links, n)[k] == k
  {
    hide Connected;
    if n > 0 {
      AllLead(links, n - 1);
    }
  }

  lemma {:induction false} GatheredAlone(clusters: seq<Cluster>, links: set<(int, int)>, lead: nat, n: nat)
    requires forall i, j :: Connected(links, i, j) <==> i == j
    requires n <= |clusters| && lead < |clusters|
    ensures Gathered(clusters, links, lead, n) == if lead < n then clusters[lead].members else []
    ensures GatheredServices(clusters, links, lead, n) == if lead < n then clusters[lead].services else {}
  {
    hide Connected;
    if n > 0 {
      GatheredAlone(clusters, links, lead, n - 1);
      assert Connected(links, lead, n - 1) <==> lead == n - 1;
    }
  }

  /** When nothing is connected to anything else, folding changes nothing: a redundant pair is a no-op. */
  lemma NothingToFold(clusters: seq<Cluster>, links: set<(int, int)>)
    requires forall i, j :: Connected(links, i, j) <==> i == j
    requires forall k :: 0 <= k < |clusters| ==> Sorted(clusters[k].members, SiteLess)
    ensures FoldAll(clusters, links) == clusters
    ensures forall c: nat :: FinalIndex(links, c) == c
  {
    hide Connected, Leaders, Gathered, GatheredServices, StableSort, Sorted;
    var n := |clusters|;
    AllLead(links, n);
    forall k | 0 <= k < n ensures FoldOne(clusters, links, k) == clusters[k] {
      GatheredAlone(clusters, links, k, n);
      StableSortIdentity(clusters[k].members, SiteLess);
    }
    forall c: nat ensures FinalIndex(links, c) == c {
      AllLead(links, c);
      assert Connected(links, LeaderOf(links, c), c);
    }
  }

  // ----- The whole fold -----

  ghost predicate FoldedBy(sites: seq<Site>, g: Grouping, pairs: seq<InterchangePair>, h: Grouping)
    requires |g.clusterOf| == |sites|
  {
    var links := PairLinks(sites, g.clusterOf, pairs);
    && h.clusters == FoldAll(g.clusters, links)
    && |h.clusterOf| == |sites|
    && forall s :: 0 <= s < |sites| ==> h.clusterOf[s] == FinalIndex(links, g.clusterOf[s])
  }

  method FoldDeclaredPairs(sites: seq<Site>, g: Grouping, pairs: seq<InterchangePair>) returns (h: Grouping)
    requires Sorted(sites, SiteLess) && |g.clusterOf| == |sites| && Faithful(sites, g)
    ensures FoldedBy(sites, g, pairs, h)
  {
    hide Connected, PairLinks, FoldAll, Leaders, FinalIndex, Labelled, ServicesOf, OneStopPerService, Sorted;
    ghost var links := PairLinks(sites, g.clusterOf, pairs);
    if pairs == [] {
      NoPairs(sites, g.clusterOf);
      forall i, j ensures Connected(links, i, j) <==> i == j {
        ApartWithoutLinks(i, j);
      }
      forall k | 0 <= k < |g.clusters| ensures Sorted(g.clusters[k].members, SiteLess) {
        LabelledSorted(sites, g.clusterOf, k);
      }
      NothingToFold(g.clusters, links);
      return g;
    }
    var rootOf := ComputeRoots(sites, g.clusterOf, |g.clusters|, pairs);
    var folded, foldedIndexOf := EmitFolded(g.clusters, rootOf, links);
    var final: seq<nat>, i := [], 0;
    while i < |g.clusterOf|
      invariant 0 <= i <= |sites| && |final| == i
      invariant forall s :: 0 <= s < i ==> final[s] == FinalIndex(links, g.clusterOf[s])
    {
      final := final + [foldedIndexOf[rootOf[g.clusterOf[i]]]];
      i := i + 1;
    }
    h := Grouping(folded, final);
  }

  /** One folded cluster for each component, placed by the least of its clusters. */
  method EmitFolded(clusters: seq<Cluster>, rootOf: seq<nat>, ghost links: set<(int, int)>)
    returns (folded: seq<Cluster>, foldedIndexOf: map<nat, nat>)
    requires |rootOf| == |clusters| && RootsAreComponents(rootOf, links)
    ensures folded == FoldAll(clusters, links)
    ensures forall c :: 0 <= c < |clusters| ==> rootOf[c] in foldedIndexOf && foldedIndexOf[rootOf[c]] == FinalIndex(links, c)
  {
    hide Connected, FoldOne, FinalIndex;
    folded, foldedIndexOf := [], map[];
    var i := 0;
    while i < |clusters|
      invariant 0 <= i <= |clusters|
      invariant |folded| == |Leaders(links, i)|
      invariant forall k :: 0 <= k < |folded| ==> folded[k] == FoldOne(clusters, links, Leaders(links, i)[k])
      invariant forall r :: r in foldedIndexOf <==> exists c :: 0 <= c < i && rootOf[c] == r
      invariant forall c :: 0 <= c < i ==> rootOf[c] in foldedIndexOf && foldedIndexOf[rootOf[c]] == FinalIndex(links, c)
    {
      if rootOf[i] in foldedIndexOf {
        var c :| 0 <= c < i && rootOf[c] == rootOf[i];
        assert Connected(links, c, i);
        SameFinalIndex(links, c, i);
      } else {
        assert Leads(links, i) by {
          forall j | 0 <= j < i ensures !Connected(links, j, i) {
            assert rootOf[j] == rootOf[i] <==> Connected(links, j, i);
          }
        }
        LeaderFinal(links, i);
        foldedIndexOf := foldedIndexOf[rootOf[i] := |folded|];
        var c := FoldGroup(clusters, rootOf, i, links);
        folded := folded + [c];
      }
      i := i + 1;
    }
  }

  lemma LeaderFinal(links: set<(int, int)>, i: nat)
    requires Leads(links, i)
    ensures FinalIndex(links, i) == |Leaders(links, i)|
  {
    Reflexive(links, i);
    LeaderUnique(links, i, i);
  }
}
