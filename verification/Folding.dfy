/**
 Folding declared interchange pairs into the clusters (internal/transit/interchange.go,
 `foldDeclaredPairs` and `foldGroup`).

 The specification is stated over connectivity alone: a folded cluster is made of the clusters that a
 chain of pairs connects, in the order in which their least indices appear. The union-find that the
 source runs is proved to compute exactly that.
 */
module Folding {
  import opened Sorting
  import opened Clustering
  import opened Connectivity

  datatype StopIdentity = StopIdentity(serviceId: string, slug: string)

  datatype InterchangePair = InterchangePair(a: StopIdentity, b: StopIdentity)

  function IdentityOf(s: Site): StopIdentity {
    StopIdentity(s.ref.serviceId, s.ref.slug)
  }

  /** The index the source's map holds for an identity: the last site with it, or -1. */
  function IndexOf(sites: seq<Site>, id: StopIdentity): (i: int)
    ensures -1 <= i < |sites|
    ensures 0 <= i ==> IdentityOf(sites[i]) == id
    ensures i < 0 ==> forall k :: 0 <= k < |sites| ==> IdentityOf(sites[k]) != id
  {
    if sites == [] then -1
    else if IdentityOf(sites[|sites| - 1]) == id then |sites| - 1
    else IndexOf(sites[..|sites| - 1], id)
  }

  /** The pair names two sites of the list. */
  predicate Known(sites: seq<Site>, p: InterchangePair) {
    0 <= IndexOf(sites, p.a) && 0 <= IndexOf(sites, p.b)
  }

  /** The two clusters a known pair joins. */
  function LinkOf(sites: seq<Site>, clusterOf: seq<nat>, p: InterchangePair): (int, int)
    requires |clusterOf| == |sites| && Known(sites, p)
  {
    (clusterOf[IndexOf(sites, p.a)], clusterOf[IndexOf(sites, p.b)])
  }

  function PairLinks(sites: seq<Site>, clusterOf: seq<nat>, pairs: seq<InterchangePair>): set<(int, int)>
    requires |clusterOf| == |sites|
  {
    set p | p in pairs && Known(sites, p) :: LinkOf(sites, clusterOf, p)
  }

  // ----- The specification -----

  /** Index `i` is the least of its component. */
  ghost predicate Leads(links: set<(int, int)>, i: nat) {
    forall j :: 0 <= j < i ==> !Connected(links, j, i)
  }

  /** The leaders below `n`, ascending. */
  ghost function Leaders(links: set<(int, int)>, n: nat): (leads: seq<nat>)
    ensures forall k :: 0 <= k < |leads| ==> leads[k] < n && Leads(links, leads[k])
  {
    if n == 0 then []
    else Leaders(links, n - 1) + (if Leads(links, n - 1) then [n - 1] else [])
  }

  /** The leader of the component of `c`. */
  ghost function LeaderOf(links: set<(int, int)>, c: nat): (l: nat)
    ensures l <= c && Connected(links, l, c) && Leads(links, l)
  {
    if Leads(links, c) then
      Reflexive(links, c);
      c
    else
      var j :| 0 <= j < c && Connected(links, j, c);
      var l := LeaderOf(links, j);
      Transitive(links, l, j, c);
      l
  }

  /** The members of the first `n` clusters that belong to the component of `lead`. */
  ghost function Gathered(clusters: seq<Cluster>, links: set<(int, int)>, lead: nat, n: nat): seq<Site>
    requires n <= |clusters|
  {
    if n == 0 then []
    else Gathered(clusters, links, lead, n - 1)
         + (if Connected(links, lead, n - 1) then clusters[n - 1].members else [])
  }

  ghost function GatheredServices(clusters: seq<Cluster>, links: set<(int, int)>, lead: nat, n: nat): set<string>
    requires n <= |clusters|
  {
    if n == 0 then {}
    else GatheredServices(clusters, links, lead, n - 1)
         + (if Connected(links, lead, n - 1) then clusters[n - 1].services else {})
  }

  lemma {:induction false} GatheredNonEmpty(clusters: seq<Cluster>, links: set<(int, int)>, lead: nat, n: nat)
    requires lead < n <= |clusters|
    ensures Gathered(clusters, links, lead, n) != []
  {
    if lead == n - 1 {
      Reflexive(links, lead);
    } else {
      GatheredNonEmpty(clusters, links, lead, n - 1);
    }
  }

  /** One folded cluster. */
  ghost function FoldOne(clusters: seq<Cluster>, links: set<(int, int)>, lead: nat): Cluster
    requires lead < |clusters|
  {
    GatheredNonEmpty(clusters, links, lead, |clusters|);
    PendingCluster(StableSort(Gathered(clusters, links, lead, |clusters|), SiteLess),
                   GatheredServices(clusters, links, lead, |clusters|))
  }

  /** The folded clusters, in the order of their leaders. */
  ghost function FoldAll(clusters: seq<Cluster>, links: set<(int, int)>): (folded: seq<Cluster>)
    ensures |folded| == |Leaders(links, |clusters|)|
  {
    var leads := Leaders(links, |clusters|);
    seq(|leads|, k requires 0 <= k < |leads| => FoldOne(clusters, links, leads[k]))
  }

  /** The position of the folded cluster that cluster `c` went into. */
  ghost function FinalIndex(links: set<(int, int)>, c: nat): nat {
    |Leaders(links, LeaderOf(links, c))|
  }

  // ----- Positions -----

  lemma {:induction false} LeadersGrow(links: set<(int, int)>, m: nat, n: nat)
    requires m <= n
    ensures Leaders(links, m) <= Leaders(links, n)
    ensures m < n && Leads(links, m) ==>
              |Leaders(links, m)| < |Leaders(links, n)| && Leaders(links, n)[|Leaders(links, m)|] == m
  {
    if m < n - 1 {
      LeadersGrow(links, m, n - 1);
    }
  }

  /** Two clusters share a leader exactly when they are connected. */
  lemma SameLeader(links: set<(int, int)>, c: nat, d: nat)
    ensures LeaderOf(links, c) == LeaderOf(links, d) <==> Connected(links, c, d)
  {
    var l, m := LeaderOf(links, c), LeaderOf(links, d);
    if l == m {
      Symmetric(links, l, c);
      Transitive(links, c, l, d);
    }
    if Connected(links, c, d) {
      Symmetric(links, m, d);
      Transitive(links, l, c, d);
      Transitive(links, l, d, m);
      Symmetric(links, l, m);
      assert !(l < m) && !(m < l);
    }
  }

  /** Two clusters end in the same folded cluster exactly when they are connected. */
  lemma SameFinalIndex(links: set<(int, int)>, c: nat, d: nat)
    ensures FinalIndex(links, c) == FinalIndex(links, d) <==> Connected(links, c, d)
  {
    hide Leaders;
    var l, m := LeaderOf(links, c), LeaderOf(links, d);
    SameLeader(links, c, d);
    if l < m {
      LeadersGrow(links, l, m);
    } else if m < l {
      LeadersGrow(links, m, l);
    }
  }

  lemma FinalIndexInRange(links: set<(int, int)>, c: nat, n: nat)
    requires c < n
    ensures FinalIndex(links, c) < |Leaders(links, n)|
    ensures Leaders(links, n)[FinalIndex(links, c)] == LeaderOf(links, c)
  {
    hide Leaders;
    LeadersGrow(links, LeaderOf(links, c), n);
  }

  // ----- Dependence on connectivity alone -----

  ghost predicate SameComponents(links: set<(int, int)>, links': set<(int, int)>) {
    forall i, j :: Connected(links, i, j) <==> Connected(links', i, j)
  }

  lemma {:induction false} LeadersDepend(links: set<(int, int)>, links': set<(int, int)>, n: nat)
    requires SameComponents(links, links')
    ensures Leaders(links, n) == Leaders(links', n)
  {
    hide Connected;
    if n > 0 {
      LeadersDepend(links, links', n - 1);
      assert Leads(links, n - 1) == Leads(links', n - 1);
    }
  }

  lemma {:induction false} GatheredDepend(clusters: seq<Cluster>, links: set<(int, int)>, links': set<(int, int)>, lead: nat, n: nat)
    requires SameComponents(links, links') && n <= |clusters|
    ensures Gathered(clusters, links, lead, n) == Gathered(clusters, links', lead, n)
    ensures GatheredServices(clusters, links, lead, n) == GatheredServices(clusters, links', lead, n)
  {
    hide Connected;
    if n > 0 {
      GatheredDepend(clusters, links, links', lead, n - 1);
      assert Connected(links, lead, n - 1) == Connected(links', lead, n - 1);
    }
  }

  /** Pairs that give the same components give the same folded clusters at the same positions. */
  lemma FoldDependsOnComponents(clusters: seq<Cluster>, links: set<(int, int)>, links': set<(int, int)>)
    requires SameComponents(links, links')
    ensures FoldAll(clusters, links) == FoldAll(clusters, links')
    ensures forall c: nat :: FinalIndex(links, c) == FinalIndex(links', c)
  {
    hide Connected, Gathered, GatheredServices, Leaders;
    LeadersDepend(links, links', |clusters|);
    forall lead | 0 <= lead < |clusters|
      ensures FoldOne(clusters, links, lead) == FoldOne(clusters, links', lead)
    {
      GatheredDepend(clusters, links, links', lead, |clusters|);
    }
    forall c: nat ensures FinalIndex(links, c) == FinalIndex(links', c) {
      var l, m := LeaderOf(links, c), LeaderOf(links', c);
      assert Connected(links, m, c) && Connected(links', l, c);
      SameLeader(links, l, c);
      SameLeader(links', m, c);
      LeaderUnique(links, l, c);
      LeaderUnique(links, m, c);
      LeadersDepend(links, links', l);
    }
  }

  lemma LeaderUnique(links: set<(int, int)>, l: nat, c: nat)
    requires Connected(links, l, c) && Leads(links, l)
    ensures l == LeaderOf(links, c)
  {
    var m := LeaderOf(links, c);
    Symmetric(links, m, c);
    Transitive(links, l, c, m);
    Symmetric(links, l, m);
    assert !(l < m) && !(m < l);
  }
}
