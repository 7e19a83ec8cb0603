/**
 Flattening services into sites and writing the keys back (internal/transit/cluster.go, `flattenStops`
 and `MergeColocatedStops`), and the independence of the result from the order of the services.
 */
module MergeServices {
  import opened Collections
  import opened Sorting
  import opened Clustering
  import opened Folding
  import opened Compilables
  import opened Merging
  import Text

  datatype MergeStop = MergeStop(svcIdx: nat, stopIdx: nat, site: Site)

  function SiteOf(id: string, s: CompilableStop): Site {
    Site(StopRef(id, s.slug, s.name), Point(s.lng, s.lat), s.offsetM)
  }

  /** The first `n` stops of service `i`, in order. */
  function StopsOfService(svcs: seq<CompilableService>, i: nat, n: nat): seq<MergeStop>
    requires i < |svcs| && n <= |svcs[i].stops|
  {
    if n == 0 then []
    else StopsOfService(svcs, i, n - 1) + [MergeStop(i, n - 1, SiteOf(svcs[i].id, svcs[i].stops[n - 1]))]
  }

  function Flat(svcs: seq<CompilableService>, n: nat): seq<MergeStop>
    requires n <= |svcs|
  {
    if n == 0 then [] else Flat(svcs, n - 1) + StopsOfService(svcs, n - 1, |svcs[n - 1].stops|)
  }

  predicate StopLess(a: MergeStop, b: MergeStop) {
    SiteLess(a.site, b.site)
  }

  function SortedStops(svcs: seq<CompilableService>): seq<MergeStop> {
    StableSort(Flat(svcs, |svcs|), StopLess)
  }

  function SitesOf(stops: seq<MergeStop>): seq<Site> {
    Map((s: MergeStop) => s.site, stops)
  }

  method FlattenStops(svcs: seq<CompilableService>) returns (stops: seq<MergeStop>)
    ensures stops == SortedStops(svcs)
  {
    stops := [];
    var i := 0;
    while i < |svcs|
      invariant 0 <= i <= |svcs|
      invariant stops == Flat(svcs, i)
    {
      var j := 0;
      while j < |svcs[i].stops|
        invariant 0 <= j <= |svcs[i].stops|
        invariant stops == Flat(svcs, i) + StopsOfService(svcs, i, j)
      {
        stops := stops + [MergeStop(i, j, SiteOf(svcs[i].id, svcs[i].stops[j]))];
        j := j + 1;
      }
      i := i + 1;
    }
    stops := StableSort(stops, StopLess);
  }

  // ----- Every stop is flattened exactly once -----

  /** The record is stop `stopIdx` of service `svcIdx`. */
  ghost predicate IsStopOf(svcs: seq<CompilableService>, s: MergeStop) {
    && s.svcIdx < |svcs|
    && s.stopIdx < |svcs[s.svcIdx].stops|
    && s.site == SiteOf(svcs[s.svcIdx].id, svcs[s.svcIdx].stops[s.stopIdx])
  }

  lemma {:induction false} ServiceFlattened(svcs: seq<CompilableService>, i: nat, n: nat)
    requires i < |svcs| && n <= |svcs[i].stops|
    ensures |StopsOfService(svcs, i, n)| == n
    ensures forall k :: 0 <= k < n ==>
              StopsOfService(svcs, i, n)[k] == MergeStop(i, k, SiteOf(svcs[i].id, svcs[i].stops[k]))
  {
    if n > 0 {
      ServiceFlattened(svcs, i, n - 1);
    }
  }

  lemma {:induction false} FlatComplete(svcs: seq<CompilableService>, n: nat)
    requires n <= |svcs|
    ensures forall s :: s in Flat(svcs, n) <==> IsStopOf(svcs, s) && s.svcIdx < n
    ensures NoRepeat(Flat(svcs, n))
  {
    if n > 0 {
      FlatComplete(svcs, n - 1);
      var last := StopsOfService(svcs, n - 1, |svcs[n - 1].stops|);
      ServiceFlattened(svcs, n - 1, |svcs[n - 1].stops|);
      forall s ensures s in last <==> IsStopOf(svcs, s) && s.svcIdx == n - 1 {
        if IsStopOf(svcs, s) && s.svcIdx == n - 1 {
          assert last[s.stopIdx] == s;
        }
      }
      forall i, j | 0 <= i < j < |Flat(svcs, n)| ensures Flat(svcs, n)[i] != Flat(svcs, n)[j] {
        var front := Flat(svcs, n - 1);
        if i < |front| <= j {
          assert front[i] in front && last[j - |front|] in last;
        }
      }
    }
  }

  lemma NoRepeatPermuted<T>(s: seq<T>, t: seq<T>)
    requires NoRepeat(s) && multiset(s) == multiset(t)
    ensures NoRepeat(t)
  {
    forall i, j | 0 <= i < j < |t| ensures t[i] != t[j] {
      if t[i] == t[j] {
        TwiceIn(t, i, j);
        var a, b := TwoPlaces(s, t[i]);
        assert false;
      }
    }
  }

  /** The sorted list names every stop of every service exactly once. */
  lemma SortedStopsComplete(svcs: seq<CompilableService>)
    ensures forall s :: s in SortedStops(svcs) <==> IsStopOf(svcs, s)
    ensures NoRepeat(SortedStops(svcs))
  {
    hide Flat, StableSort, IsStopOf;
    var flat := Flat(svcs, |svcs|);
    FlatComplete(svcs, |svcs|);
    forall s ensures s in SortedStops(svcs) <==> IsStopOf(svcs, s) {
      SortedElements(flat, StopLess, s);
      StopInRange(svcs, s);
    }
    StableSortPermutes(flat, StopLess);
    NoRepeatPermuted(flat, SortedStops(svcs));
  }

  /** What merging reads of a stop is the stop's own. */
  lemma SiteOfStop(svcs: seq<CompilableService>, p: nat)
    requires p < |SortedStops(svcs)|
    ensures var s := SortedStops(svcs)[p];
            && s.svcIdx < |svcs| && s.stopIdx < |svcs[s.svcIdx].stops|
            && var stop, site := svcs[s.svcIdx].stops[s.stopIdx], SitesOf(SortedStops(svcs))[p];
               && site.ref.serviceId == svcs[s.svcIdx].id && site.ref.slug == stop.slug && site.ref.name == stop.name
               && site.at.lat == stop.lat && site.at.lng == stop.lng && site.offsetM == stop.offsetM
  {
    SortedStopsComplete(svcs);
    hide SortedStops;
    assert SortedStops(svcs)[p] in SortedStops(svcs);
    assert IsStopOf(svcs, SortedStops(svcs)[p]);
  }

  /** The sites ascend by slug, and under one slug by service. */
  lemma SitesAscend(svcs: seq<CompilableService>, p: nat, q: nat)
    requires p < q < |SortedStops(svcs)|
    ensures var a, b := SitesOf(SortedStops(svcs))[p].ref, SitesOf(SortedStops(svcs))[q].ref;
            !Text.Less(b.slug, a.slug) && (a.slug == b.slug ==> !Text.Less(b.serviceId, a.serviceId))
  {
    SortedStopsSorted(svcs);
    hide SortedStops;
    var sites := SitesOf(SortedStops(svcs));
    assert !SiteLess(sites[q], sites[p]);
    Text.LessAsymmetric(sites[p].ref.slug, sites[p].ref.slug);
  }

  lemma StopInRange(svcs: seq<CompilableService>, s: MergeStop)
    ensures IsStopOf(svcs, s) ==> s.svcIdx < |svcs|
  {
  }

  lemma SortedStopsSorted(svcs: seq<CompilableService>)
    ensures Sorted(SitesOf(SortedStops(svcs)), SiteLess)
    ensures SitesOf(SortedStops(svcs)) == StableSort(SitesOf(Flat(svcs, |svcs|)), SiteLess)
  {
    hide SiteLess, Flat, StableSort;
    SiteLessIsWeakOrder();
    StableSortMap((s: MergeStop) => s.site, Flat(svcs, |svcs|), StopLess, SiteLess);
    StableSortSorted(SitesOf(Flat(svcs, |svcs|)), SiteLess);
  }

  // ----- Writing the keys back -----

  ghost predicate SameExceptSlugs(svcs: seq<CompilableService>, merged: seq<CompilableService>) {
    && |merged| == |svcs|
    && forall i :: 0 <= i < |svcs| ==>
         && |merged[i].stops| == |svcs[i].stops|
         && merged[i] == svcs[i].(stops := merged[i].stops)
  }

  /** Each listed stop carries its key; nothing else about it changed. */
  ghost predicate Rekeyed(svcs: seq<CompilableService>, stops: seq<MergeStop>, keys: seq<string>, merged: seq<CompilableService>)
    requires |keys| == |stops|
  {
    && SameExceptSlugs(svcs, merged)
    && forall p :: 0 <= p < |stops| ==> KeyWritten(svcs, stops[p], keys[p], merged)
  }

  ghost predicate KeyWritten(svcs: seq<CompilableService>, s: MergeStop, key: string, merged: seq<CompilableService>) {
    && IsStopOf(svcs, s)
    && s.svcIdx < |merged| && s.stopIdx < |merged[s.svcIdx].stops|
    && merged[s.svcIdx].stops[s.stopIdx] == svcs[s.svcIdx].stops[s.stopIdx].(slug := key)
  }

  method WriteKeys(svcs: seq<CompilableService>, stops: seq<MergeStop>, keys: seq<string>) returns (merged: seq<CompilableService>)
    requires |keys| == |stops| && NoRepeat(stops)
    requires forall p :: 0 <= p < |stops| ==> IsStopOf(svcs, stops[p])
    ensures Rekeyed(svcs, stops, keys, merged)
  {
    merged := svcs;
    var k := 0;
    while k < |stops|
      invariant 0 <= k <= |stops|
      invariant SameExceptSlugs(svcs, merged)
      invariant forall p :: 0 <= p < k ==> KeyWritten(svcs, stops[p], keys[p], merged)
      invariant forall p :: k <= p < |stops| ==>
                  merged[stops[p].svcIdx].stops[stops[p].stopIdx] == svcs[stops[p].svcIdx].stops[stops[p].stopIdx]
    {
      var s := stops[k];
      ghost var before := merged;
      var svc := merged[s.svcIdx];
      var stop := svc.stops[s.stopIdx].(slug := keys[k]);
      merged := merged[s.svcIdx := svc.(stops := svc.stops[s.stopIdx := stop])];
      forall p | 0 <= p < |stops| && p != k
        ensures merged[stops[p].svcIdx].stops[stops[p].stopIdx] == before[stops[p].svcIdx].stops[stops[p].stopIdx]
      {
        assert stops[p] != stops[k];
        assert stops[p].svcIdx != s.svcIdx || stops[p].stopIdx != s.stopIdx;
      }
      k := k + 1;
    }
  }

  /** The whole of `MergeColocatedStops`, on the services it is given. */
  ghost predicate MergedAs(dist: (Point, Point) -> real, svcs: seq<CompilableService>, pairs: seq<InterchangePair>,
                           merged: seq<CompilableService>, m: Merge) {
    var stops := SortedStops(svcs);
    && MergedSites(dist, SitesOf(stops), pairs, m)
    && |m.keys| == |stops|
    && Rekeyed(svcs, stops, m.keys, merged)
  }

  method MergeColocatedStops(dist: (Point, Point) -> real, svcs: seq<CompilableService>, pairs: seq<InterchangePair>)
    returns (merged: seq<CompilableService>, m: Merge)
    ensures MergedAs(dist, svcs, pairs, merged, m)
  {
    hide StableSort, Flat, MergedSites, IsStopOf, Sorted;
    SortedStopsSorted(svcs);
    SortedStopsComplete(svcs);
    var stops := FlattenStops(svcs);
    m := MergeSites(dist, SitesOf(stops), pairs);
    KeysMatch(dist, SitesOf(stops), pairs, m);
    merged := WriteKeys(svcs, stops, m.keys);
  }

  lemma KeysMatch(dist: (Point, Point) -> real, sites: seq<Site>, pairs: seq<InterchangePair>, m: Merge)
    requires MergedSites(dist, sites, pairs, m)
    ensures |m.keys| == |sites|
  {
  }

  // ----- Services permuted -----

  ghost predicate DistinctIdentities(svcs: seq<CompilableService>) {
    forall i, j, k, l |
      && 0 <= i < |svcs| && 0 <= j < |svcs[i].stops| && 0 <= k < |svcs| && 0 <= l < |svcs[k].stops|
      && svcs[i].id == svcs[k].id && svcs[i].stops[j].slug == svcs[k].stops[l].slug
      :: i == k && j == l
  }

  /** The sites of a list of services, service by service. */
  function AllSites(svcs: seq<CompilableService>): seq<Site> {
    if svcs == [] then [] else OwnSites(svcs[0]) + AllSites(svcs[1..])
  }

  function OwnSites(svc: CompilableService): seq<Site> {
    Map((s: CompilableStop) => SiteOf(svc.id, s), svc.stops)
  }

  lemma {:induction false} AllSitesConcat(a: seq<CompilableService>, b: seq<CompilableService>)
    ensures AllSites(a + b) == AllSites(a) + AllSites(b)
  {
    hide OwnSites;
    if a == [] {
      assert a + b == b;
    } else {
      AllSitesConcat(a[1..], b);
      assert (a + b)[1..] == a[1..] + b;
      assert AllSites(a + b) == OwnSites(a[0]) + AllSites(a[1..] + b);
    }
  }

  lemma SitesConcat(a: seq<MergeStop>, b: seq<MergeStop>)
    ensures SitesOf(a + b) == SitesOf(a) + SitesOf(b)
  {
  }

  lemma SitesOfService(svcs: seq<CompilableService>, i: nat)
    requires i < |svcs|
    ensures SitesOf(StopsOfService(svcs, i, |svcs[i].stops|)) == OwnSites(svcs[i])
  {
    ServiceFlattened(svcs, i, |svcs[i].stops|);
    hide StopsOfService;
  }

  lemma OneService(svc: CompilableService)
    ensures AllSites([svc]) == OwnSites(svc)
  {
    hide OwnSites;
    assert OwnSites(svc) + [] == OwnSites(svc);
  }

  lemma {:induction false} FlatSites(svcs: seq<CompilableService>, n: nat)
    requires n <= |svcs|
    ensures SitesOf(Flat(svcs, n)) == AllSites(svcs[..n])
  {
    if n == 0 {
      assert SitesOf([]) == [];
    } else {
      hide SitesOf, StopsOfService, OwnSites;
      FlatSites(svcs, n - 1);
      SitesOfService(svcs, n - 1);
      SitesConcat(Flat(svcs, n - 1), StopsOfService(svcs, n - 1, |svcs[n - 1].stops|));
      assert svcs[..n] == svcs[..n - 1] + [svcs[n - 1]];
      OneService(svcs[n - 1]);
      AllSitesConcat(svcs[..n - 1], [svcs[n - 1]]);
    }
  }

  lemma CancelOne<T>(x: multiset<T>, y: multiset<T>, e: T)
    requires x + multiset{e} == y + multiset{e}
    ensures x == y
  {
    assert x == (x + multiset{e}) - multiset{e};
  }

  lemma MatchHead<T>(a: seq<T>, b: seq<T>) returns (k: nat)
    requires multiset(a) == multiset(b) && a != []
    ensures k < |b| && b[k] == a[0]
    ensures multiset(a[1..]) == multiset(b[..k] + b[k + 1..])
  {
    SameElements(a, b, a[0]);
    k :| 0 <= k < |b| && b[k] == a[0];
    assert b == b[..k] + [b[k]] + b[k + 1..] && a == [a[0]] + a[1..];
    assert multiset(a[1..]) + multiset{a[0]} == multiset(a);
    assert multiset(b[..k] + b[k + 1..]) + multiset{a[0]} == multiset(b);
    CancelOne(multiset(a[1..]), multiset(b[..k] + b[k + 1..]), a[0]);
  }

  lemma AllSitesWithout(b: seq<CompilableService>, k: nat)
    requires k < |b|
    ensures multiset(AllSites(b)) == multiset(OwnSites(b[k])) + multiset(AllSites(b[..k] + b[k + 1..]))
  {
    hide OwnSites;
    assert b == b[..k] + b[k..] && b[k..][1..] == b[k + 1..];
    AllSitesConcat(b[..k], b[k..]);
    AllSitesConcat(b[..k], b[k + 1..]);
  }

  lemma {:induction false} AllSitesPermuted(a: seq<CompilableService>, b: seq<CompilableService>)
    requires multiset(a) == multiset(b)
    ensures multiset(AllSites(a)) == multiset(AllSites(b))
  {
    if a == [] {
      assert |multiset(a)| == |multiset(b)|;
    } else {
      var k := MatchHead(a, b);
      AllSitesPermuted(a[1..], b[..k] + b[k + 1..]);
      AllSitesWithout(b, k);
      hide OwnSites;
    }
  }

  lemma DistinctDiscriminated(svcs: seq<CompilableService>)
    requires DistinctIdentities(svcs)
    ensures Discriminates(SitesOf(Flat(svcs, |svcs|)), SiteLess)
  {
    var flat := Flat(svcs, |svcs|);
    var sites := SitesOf(flat);
    FlatComplete(svcs, |svcs|);
    forall i, j | 0 <= i < j < |sites| ensures SiteLess(sites[i], sites[j]) || SiteLess(sites[j], sites[i]) {
      assert flat[i] in flat && flat[j] in flat;
      assert IsStopOf(svcs, flat[i]) && IsStopOf(svcs, flat[j]);
      SiteLessTotal(sites[i], sites[j]);
    }
  }

  /** Permuting the services leaves the sorted sites, and so everything computed from them, unchanged. */
  lemma SortedSitesPermuted(svcs: seq<CompilableService>, svcs': seq<CompilableService>)
    requires DistinctIdentities(svcs) && multiset(svcs) == multiset(svcs')
    ensures SitesOf(SortedStops(svcs)) == SitesOf(SortedStops(svcs'))
    ensures Discriminates(SitesOf(SortedStops(svcs)), SiteLess)
  {
    hide SortedStops, SiteLess, Flat;
    var n, n' := |svcs|, |svcs'|;
    SiteLessIsWeakOrder();
    SortedStopsSorted(svcs);
    SortedStopsSorted(svcs');
    FlatSites(svcs, n);
    FlatSites(svcs', n');
    assert svcs[..n] == svcs && svcs'[..n'] == svcs';
    AllSitesPermuted(svcs, svcs');
    DistinctDiscriminated(svcs);
    StableSortPermuted(SitesOf(Flat(svcs, n)), SitesOf(Flat(svcs', n')), SiteLess);
    DiscriminatesSorted(SitesOf(Flat(svcs, n)), SiteLess);
  }

  /**
   Permuting the services, and permuting, repeating or flipping the pairs, gives the same nodes, the
   same report and, service by service, the same keys.
   */
  lemma MergeOrderIndependent(dist: (Point, Point) -> real,
                              svcs: seq<CompilableService>, pairs: seq<InterchangePair>, merged: seq<CompilableService>, m: Merge,
                              svcs': seq<CompilableService>, pairs': seq<InterchangePair>, merged': seq<CompilableService>, m': Merge)
    requires DistinctIdentities(svcs) && multiset(svcs) == multiset(svcs') && SamePairs(pairs, pairs')
    requires MergedAs(dist, svcs, pairs, merged, m) && MergedAs(dist, svcs', pairs', merged', m')
    ensures m == m'
    ensures forall i, i' :: 0 <= i < |svcs| && 0 <= i' < |svcs'| && svcs[i] == svcs'[i'] ==> merged[i] == merged'[i']
  {
    hide Greedy, SortedStops, SamePairs, PairLinks, SiteLess, IsStopOf, DistinctIdentities, SameComponents, Discriminates;
    SortedSitesPermuted(svcs, svcs');
    var sites := SitesOf(SortedStops(svcs));
    GreedyFaithful(dist, sites);
    SamePairsSameComponents(sites, Greedy(dist, sites).clusterOf, pairs, pairs');
    MergeDetermined(dist, sites, pairs, pairs', m, m');
    forall i, i' | 0 <= i < |svcs| && 0 <= i' < |svcs'| && svcs[i] == svcs'[i'] ensures merged[i] == merged'[i'] {
      forall j | 0 <= j < |svcs[i].stops| ensures merged[i].stops[j] == merged'[i'].stops[j] {
        SameKey(svcs, m.keys, merged, svcs', merged', i, i', j);
      }
      assert merged[i].stops == merged'[i'].stops;
    }
  }

  lemma SameKey(svcs: seq<CompilableService>, keys: seq<string>, merged: seq<CompilableService>,
                svcs': seq<CompilableService>, merged': seq<CompilableService>, i: nat, i': nat, j: nat)
    requires i < |svcs| && i' < |svcs'| && svcs[i] == svcs'[i'] && j < |svcs[i].stops|
    requires SitesOf(SortedStops(svcs)) == SitesOf(SortedStops(svcs'))
    requires Discriminates(SitesOf(SortedStops(svcs)), SiteLess)
    requires |keys| == |SortedStops(svcs)| == |SortedStops(svcs')|
    requires Rekeyed(svcs, SortedStops(svcs), keys, merged) && Rekeyed(svcs', SortedStops(svcs'), keys, merged')
    ensures merged[i].stops[j] == merged'[i'].stops[j]
  {
    hide SortedStops, SiteLess, SiteOf;
    var stops, stops' := SortedStops(svcs), SortedStops(svcs');
    var site := SiteOf(svcs[i].id, svcs[i].stops[j]);
    var p := PlaceOf(svcs, i, j);
    var p' := PlaceOf(svcs', i', j);
    assert SitesOf(stops)[p] == site && SitesOf(stops')[p'] == site;
    SamePlace(SitesOf(stops), p, p');
    assert KeyWritten(svcs, stops[p], keys[p], merged) && KeyWritten(svcs', stops'[p], keys[p], merged');
  }

  lemma PlaceOf(svcs: seq<CompilableService>, i: nat, j: nat) returns (p: nat)
    requires i < |svcs| && j < |svcs[i].stops|
    ensures p < |SortedStops(svcs)|
    ensures SortedStops(svcs)[p] == MergeStop(i, j, SiteOf(svcs[i].id, svcs[i].stops[j]))
  {
    hide SortedStops;
    var s := MergeStop(i, j, SiteOf(svcs[i].id, svcs[i].stops[j]));
    SortedStopsComplete(svcs);
    assert IsStopOf(svcs, s);
    p :| 0 <= p < |SortedStops(svcs)| && SortedStops(svcs)[p] == s;
  }

  lemma SamePlace(sites: seq<Site>, p: nat, q: nat)
    requires Discriminates(sites, SiteLess) && p < |sites| && q < |sites| && sites[p] == sites[q]
    ensures p == q
  {
    SiteLessIsWeakOrder();
    hide SiteLess;
    assert !SiteLess(sites[p], sites[q]) && !SiteLess(sites[q], sites[p]);
  }
}
