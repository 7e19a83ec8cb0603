/**
 Greedy clustering said of the stops themselves (internal/transit/cluster.go, `clusterStops`): who is near
 enough in metres, and the first cluster that fits. `labels` gives every stop its cluster.
 */
module NearStops {
  import opened Clustering

  /** Stop `f` is the first of cluster `j`. */
  ghost predicate Anchors(labels: seq<nat>, j: nat, f: nat) {
    f < |labels| && labels[f] == j && forall s :: 0 <= s < f ==> labels[s] != j
  }

  /** Within 50 m and both offsets of each other, and never more than 500 m. */
  ghost predicate Near(dist: (Point, Point) -> real, a: Site, b: Site) {
    dist(a.at, b.at) <= 50.0 + a.offsetM + b.offsetM && dist(a.at, b.at) <= 500.0
  }

  /** Cluster `j` has a stop before stop `n`, its first is near, and none before is of the same service. */
  ghost predicate Fits(dist: (Point, Point) -> real, sites: seq<Site>, labels: seq<nat>, n: nat, j: nat)
    requires |labels| == |sites| && n < |sites|
  {
    && (exists f :: 0 <= f < n && Anchors(labels, j, f) && Near(dist, sites[f], sites[n]))
    && (forall s :: 0 <= s < n && labels[s] == j ==> sites[s].ref.serviceId != sites[n].ref.serviceId)
  }

  /** Stop `n` is in the first cluster that fits it, or, if none of those before it does, in a new one. */
  ghost predicate InFirstFit(dist: (Point, Point) -> real, sites: seq<Site>, labels: seq<nat>, n: nat)
    requires |labels| == |sites| && n < |sites|
  {
    && (forall j: nat :: j < labels[n] ==> j in labels[..n] && !Fits(dist, sites, labels, n, j))
    && (labels[n] in labels[..n] ==> Fits(dist, sites, labels, n, labels[n]))
  }

  // ----- Clusters by label -----

  lemma {:induction false} LabelledElements(sites: seq<Site>, labels: seq<nat>, k: nat, x: Site)
    requires |labels| == |sites|
    ensures x in Labelled(sites, labels, k) <==> exists s :: 0 <= s < |sites| && labels[s] == k && sites[s] == x
  {
    if sites != [] {
      var n := |sites| - 1;
      LabelledElements(sites[..n], labels[..n], k, x);
      if s :| 0 <= s < n && labels[s] == k && sites[s] == x {
        assert labels[..n][s] == k && sites[..n][s] == x;
      }
    }
  }

  lemma {:induction false} LabelledFirst(sites: seq<Site>, labels: seq<nat>, k: nat) returns (f: nat)
    requires |labels| == |sites| && Labelled(sites, labels, k) != []
    ensures Anchors(labels, k, f) && Labelled(sites, labels, k)[0] == sites[f]
  {
    var n := |sites| - 1;
    if Labelled(sites[..n], labels[..n], k) != [] {
      f := LabelledFirst(sites[..n], labels[..n], k);
    } else {
      f := n;
      forall s | 0 <= s < n ensures labels[s] != k {
        LabelledElements(sites[..n], labels[..n], k, sites[s]);
        assert labels[..n][s] == labels[s] && sites[..n][s] == sites[s];
      }
    }
  }

  lemma AnchorsOnce(labels: seq<nat>, j: nat, f: nat, g: nat)
    requires Anchors(labels, j, f) && Anchors(labels, j, g)
    ensures f == g
  {
    assert !(f < g) && !(g < f);
  }

  lemma NearIffWithinRadius(dist: (Point, Point) -> real, a: Site, b: Site)
    ensures dist(a.at, b.at) <= EffectiveMergeRadius(a.offsetM, b.offsetM) <==> Near(dist, a, b)
  {
  }

  lemma ServiceAmong(sites: seq<Site>, labels: seq<nat>, k: nat, id: string)
    requires |labels| == |sites|
    ensures id in ServicesOf(Labelled(sites, labels, k)) <==>
              exists s :: 0 <= s < |sites| && labels[s] == k && sites[s].ref.serviceId == id
  {
    hide Labelled;
    var members := Labelled(sites, labels, k);
    if id in ServicesOf(members) {
      var x :| x in members && x.ref.serviceId == id;
      LabelledElements(sites, labels, k, x);
    }
    if s :| 0 <= s < |sites| && labels[s] == k && sites[s].ref.serviceId == id {
      LabelledElements(sites, labels, k, sites[s]);
    }
  }

  /** What a cluster accepts, said of the labels. */
  lemma AcceptsIffFits(dist: (Point, Point) -> real, sites: seq<Site>, g: Grouping, x: Site, last: nat, j: nat)
    requires |g.clusterOf| == |sites| && Faithful(sites, g) && j < |g.clusters|
    ensures Accepts(dist, g.clusters[j], x) <==> Fits(dist, sites + [x], g.clusterOf + [last], |sites|, j)
  {
    var c, labels, all := g.clusters[j], g.clusterOf + [last], sites + [x];
    assert c.members == Labelled(sites, g.clusterOf, j) && c.services == ServicesOf(c.members);
    var f := LabelledFirst(sites, g.clusterOf, j);
    ServiceAmong(sites, g.clusterOf, j, x.ref.serviceId);
    NearIffWithinRadius(dist, c.members[0], x);
    hide Faithful, Labelled, ServicesOf, Near, EffectiveMergeRadius;
    assert Anchors(labels, j, f) && all[f] == sites[f];
    forall h | 0 <= h < |sites| && Anchors(labels, j, h) ensures h == f {
      AnchorsOnce(labels, j, h, f);
    }
    SameServiceAmong(sites, g.clusterOf, x, last, j);
  }

  lemma SameServiceAmong(sites: seq<Site>, labels: seq<nat>, x: Site, last: nat, j: nat)
    requires |labels| == |sites|
    ensures (exists s :: 0 <= s < |sites| && labels[s] == j && sites[s].ref.serviceId == x.ref.serviceId)
            <==> !forall s :: 0 <= s < |sites| && (labels + [last])[s] == j ==>
                   (sites + [x])[s].ref.serviceId != (sites + [x])[|sites|].ref.serviceId
  {
    if s :| 0 <= s < |sites| && labels[s] == j && sites[s].ref.serviceId == x.ref.serviceId {
      assert (labels + [last])[s] == j && (sites + [x])[s] == sites[s];
    }
    if s :| 0 <= s < |sites| && (labels + [last])[s] == j
            && (sites + [x])[s].ref.serviceId == (sites + [x])[|sites|].ref.serviceId {
      assert labels[s] == j && sites[s].ref.serviceId == x.ref.serviceId;
    }
  }

  lemma ClusterUsed(sites: seq<Site>, g: Grouping, j: nat)
    requires |g.clusterOf| == |sites| && Faithful(sites, g) && j < |g.clusters|
    ensures j in g.clusterOf
  {
    assert g.clusters[j].members == Labelled(sites, g.clusterOf, j);
    var f := LabelledFirst(sites, g.clusterOf, j);
  }

  lemma LastInFirstFit(dist: (Point, Point) -> real, sites: seq<Site>, g: Grouping, x: Site)
    requires |g.clusterOf| == |sites| && Faithful(sites, g)
    ensures |Place(dist, g, x).clusterOf| == |sites| + 1
    ensures InFirstFit(dist, sites + [x], Place(dist, g, x).clusterOf, |sites|)
  {
    var k := FirstFit(dist, g.clusters, x, 0);
    var labels := g.clusterOf + [k];
    assert Place(dist, g, x).clusterOf == labels && labels[..|sites|] == g.clusterOf;
    forall i | 0 <= i < |sites| ensures g.clusterOf[i] < |g.clusters| {
    }
    hide Faithful, Accepts, Fits, FirstFit, Place;
    forall j: nat | j < k ensures j in labels[..|sites|] && !Fits(dist, sites + [x], labels, |sites|, j) {
      ClusterUsed(sites, g, j);
      AcceptsIffFits(dist, sites, g, x, k, j);
    }
    if k < |g.clusters| {
      AcceptsIffFits(dist, sites, g, x, k, k);
    }
  }

  lemma SameAnchor(a: seq<nat>, b: seq<nat>, j: nat, f: nat)
    requires f < |a| && f < |b| && forall s :: 0 <= s <= f ==> a[s] == b[s]
    ensures Anchors(a, j, f) <==> Anchors(b, j, f)
  {
    if Anchors(a, j, f) {
      forall s | 0 <= s < f ensures b[s] != j {
        assert a[s] == b[s];
      }
    }
  }

  lemma FitsEarlier(dist: (Point, Point) -> real, sites: seq<Site>, labels: seq<nat>, x: Site, last: nat, n: nat, j: nat)
    requires |labels| == |sites| && n < |sites|
    ensures Fits(dist, sites + [x], labels + [last], n, j) <==> Fits(dist, sites, labels, n, j)
  {
    hide Near;
    forall f | 0 <= f < n ensures Anchors(labels + [last], j, f) <==> Anchors(labels, j, f) {
      SameAnchor(labels + [last], labels, j, f);
    }
    hide Anchors;
  }

  lemma EarlierInFirstFit(dist: (Point, Point) -> real, sites: seq<Site>, labels: seq<nat>, x: Site, last: nat, n: nat)
    requires |labels| == |sites| && n < |sites| && InFirstFit(dist, sites, labels, n)
    ensures InFirstFit(dist, sites + [x], labels + [last], n)
  {
    hide Fits;
    assert (labels + [last])[..n] == labels[..n] && (labels + [last])[n] == labels[n];
    forall j: nat ensures Fits(dist, sites + [x], labels + [last], n, j) <==> Fits(dist, sites, labels, n, j) {
      FitsEarlier(dist, sites, labels, x, last, n, j);
    }
  }

  /** Every stop is in the first cluster that fits it. */
  lemma {:induction false} GreedyIsFirstFit(dist: (Point, Point) -> real, sites: seq<Site>)
    ensures |Greedy(dist, sites).clusterOf| == |sites|
    ensures forall n :: 0 <= n < |sites| ==> InFirstFit(dist, sites, Greedy(dist, sites).clusterOf, n)
  {
    GreedyFaithful(dist, sites);
    if sites != [] {
      var n := |sites| - 1;
      var front, g, x := sites[..n], Greedy(dist, sites[..n]), sites[n];
      GreedyIsFirstFit(dist, front);
      GreedyFaithful(dist, front);
      LastInFirstFit(dist, front, g, x);
      assert sites == front + [x];
      var labels := Place(dist, g, x).clusterOf;
      assert labels == g.clusterOf + [labels[n]];
      hide InFirstFit, Place, Faithful, FirstFit;
      forall i | 0 <= i < n ensures InFirstFit(dist, sites, labels, i) {
        EarlierInFirstFit(dist, front, g.clusterOf, x, labels[n], i);
      }
    }
  }

  /** And no other labelling puts every stop there. */
  lemma {:induction false} FirstFitUnique(dist: (Point, Point) -> real, sites: seq<Site>, a: seq<nat>, b: seq<nat>, n: nat)
    requires |a| == |b| == |sites| && n <= |sites|
    requires forall i :: 0 <= i < |sites| ==> InFirstFit(dist, sites, a, i) && InFirstFit(dist, sites, b, i)
    ensures a[..n] == b[..n]
  {
    if n > 0 {
      FirstFitUnique(dist, sites, a, b, n - 1);
      var i := n - 1;
      forall j: nat ensures Fits(dist, sites, a, i, j) <==> Fits(dist, sites, b, i, j) {
        SameFits(dist, sites, a, b, i, j);
      }
      hide Fits;
      assert InFirstFit(dist, sites, a, i) && InFirstFit(dist, sites, b, i);
      assert a[i] == b[i];
      assert a[..n] == a[..i] + [a[i]] && b[..n] == b[..i] + [b[i]];
    }
  }

  lemma SameFits(dist: (Point, Point) -> real, sites: seq<Site>, a: seq<nat>, b: seq<nat>, n: nat, j: nat)
    requires |a| == |b| == |sites| && n < |sites| && a[..n] == b[..n]
    ensures Fits(dist, sites, a, n, j) <==> Fits(dist, sites, b, n, j)
  {
    hide Near;
    forall s | 0 <= s < n ensures a[s] == b[s] {
      assert a[..n][s] == b[..n][s];
    }
    forall f | 0 <= f < n ensures Anchors(a, j, f) <==> Anchors(b, j, f) {
      SameAnchor(a, b, j, f);
    }
    hide Anchors;
  }

  /**
   Every member of a greedy cluster after the first is within 50 m and both offsets of the first, and never
   more than 500 m from it. No two members are of one service.
   */
  lemma ClusterMembersNear(dist: (Point, Point) -> real, sites: seq<Site>, n: nat, s: nat) returns (f: nat)
    requires s < n < |sites|
    requires |Greedy(dist, sites).clusterOf| == |sites| && Greedy(dist, sites).clusterOf[s] == Greedy(dist, sites).clusterOf[n]
    ensures sites[s].ref.serviceId != sites[n].ref.serviceId
    ensures f < n && Greedy(dist, sites).clusterOf[f] == Greedy(dist, sites).clusterOf[n]
    ensures forall t :: 0 <= t < f ==> Greedy(dist, sites).clusterOf[t] != Greedy(dist, sites).clusterOf[n]
    ensures dist(sites[f].at, sites[n].at) <= 50.0 + sites[f].offsetM + sites[n].offsetM
    ensures dist(sites[f].at, sites[n].at) <= 500.0
  {
    GreedyIsFirstFit(dist, sites);
    hide Greedy;
    var labels := Greedy(dist, sites).clusterOf;
    assert InFirstFit(dist, sites, labels, n);
    assert labels[..n][s] == labels[n];
    f :| 0 <= f < n && Anchors(labels, labels[n], f) && Near(dist, sites[f], sites[n]);
  }

  /**
   And a stop passes over an earlier cluster only if that already has a stop of its service or if its first
   stop, `f`, is farther away than that.
   */
  lemma EarlierClusterDoesNotFit(dist: (Point, Point) -> real, sites: seq<Site>, n: nat, j: nat) returns (f: nat)
    requires n < |sites| && |Greedy(dist, sites).clusterOf| == |sites| && j < Greedy(dist, sites).clusterOf[n]
    ensures f < n && Greedy(dist, sites).clusterOf[f] == j
    ensures forall t :: 0 <= t < f ==> Greedy(dist, sites).clusterOf[t] != j
    ensures || (exists s :: 0 <= s < n && Greedy(dist, sites).clusterOf[s] == j && sites[s].ref.serviceId == sites[n].ref.serviceId)
            || 50.0 + sites[f].offsetM + sites[n].offsetM < dist(sites[f].at, sites[n].at)
            || 500.0 < dist(sites[f].at, sites[n].at)
  {
    GreedyIsFirstFit(dist, sites);
    hide Greedy;
    var labels := Greedy(dist, sites).clusterOf;
    assert InFirstFit(dist, sites, labels, n);
    assert j in labels[..n];
    var s :| 0 <= s < n && labels[..n][s] == j;
    f := FirstWith(labels, j, s);
    assert !Fits(dist, sites, labels, n, j);
    assert Anchors(labels, j, f);
  }

  lemma FirstWith(labels: seq<nat>, j: nat, s: nat) returns (f: nat)
    requires s < |labels| && labels[s] == j
    ensures f <= s && Anchors(labels, j, f)
  {
    if t :| 0 <= t < s && labels[t] == j {
      f := FirstWith(labels, j, t);
    } else {
      f := s;
    }
  }
}
