/**
 The disjoint-set forest over cluster indices (internal/transit/interchange.go, `findCluster` and
 `unionClusters`): parent links rewritten in place by path halving, without ranks or sizes.

 `root` labels every index with the root it reaches and `rank` falls along every parent link; the two
 describe the forest and never appear in the program state.
 */
module UnionFind {
  import opened Connectivity

  ghost predicate Forest(parent: seq<nat>, root: seq<nat>, rank: seq<nat>) {
    && |root| == |parent| == |rank|
    && (forall x :: 0 <= x < |parent| ==> parent[x] < |parent|)
    && (forall x :: 0 <= x < |parent| ==> root[x] < |parent|)
    && (forall x :: 0 <= x < |parent| ==> parent[root[x]] == root[x])
    && (forall x :: 0 <= x < |parent| ==> root[parent[x]] == root[x])
    && (forall x :: 0 <= x < |parent| && parent[x] == x ==> root[x] == x)
    && (forall x :: 0 <= x < |parent| && parent[x] != x ==> rank[parent[x]] < rank[x])
  }

  /**
   Returns the root of `x`. Path halving may shorten parent chains but leaves every root, of every
   index, as it was. The rank along the chain is what makes the walk end.
   */
  method FindCluster(parent: array<nat>, start: nat, ghost root: seq<nat>, ghost rank: seq<nat>) returns (x: nat)
    requires start < parent.Length && Forest(parent[..], root, rank)
    modifies parent
    ensures Forest(parent[..], root, rank)
    ensures x == root[start] && x < parent.Length && parent[x] == x
  {
    x := start;
    while parent[x] != x
      invariant x < parent.Length && Forest(parent[..], root, rank)
      invariant root[x] == root[start]
      decreases rank[x]
    {
      ghost var before := parent[..];
      assert before[x] == parent[x];
      var p := parent[x];
      assert before[p] == parent[p];
      parent[x] := parent[p];
      assert parent[..] == before[x := before[before[x]]];
      HalvingKeepsForest(before, root, rank, x);
      x := parent[x];
    }
    assert parent[..][x] == x;
  }

  lemma HalvingKeepsForest(parent: seq<nat>, root: seq<nat>, rank: seq<nat>, x: nat)
    requires Forest(parent, root, rank) && x < |parent| && parent[x] != x
    ensures parent[x] < |parent|
    ensures Forest(parent[x := parent[parent[x]]], root, rank)
    ensures rank[parent[parent[x]]] < rank[x] && root[parent[parent[x]]] == root[x]
  {
    var p := parent[x];
    assert root[p] == root[x] && root[parent[p]] == root[p];
    assert parent[root[x]] == root[x];
  }

  /** The labels and ranks after the root `ra` is hung under the root `rb`. */
  ghost function JoinRoots(root: seq<nat>, ra: nat, rb: nat): (r: seq<nat>)
    ensures |r| == |root|
    ensures forall x :: 0 <= x < |root| ==> r[x] == if root[x] == ra then rb else root[x]
  {
    seq(|root|, x requires 0 <= x < |root| => if root[x] == ra then rb else root[x])
  }

  ghost function JoinRanks(root: seq<nat>, rank: seq<nat>, ra: nat, rb: nat): (r: seq<nat>)
    requires |root| == |rank| && rb < |rank|
    ensures |r| == |root|
    ensures forall x :: 0 <= x < |root| ==> r[x] == if root[x] == ra then rank[x] + rank[rb] + 1 else rank[x]
  {
    seq(|root|, x requires 0 <= x < |root| => if root[x] == ra then rank[x] + rank[rb] + 1 else rank[x])
  }

  lemma LinkKeepsForest(parent: seq<nat>, root: seq<nat>, rank: seq<nat>, ra: nat, rb: nat)
    requires Forest(parent, root, rank) && ra < |parent| && rb < |parent| && ra != rb
    requires parent[ra] == ra && parent[rb] == rb
    ensures Forest(parent[ra := rb], JoinRoots(root, ra, rb), JoinRanks(root, rank, ra, rb))
  {
    assert root[ra] == ra && root[rb] == rb;
  }

  /** Joins the trees of `a` and `b`: afterwards the two, and only the two, old trees share a root. */
  method UnionClusters(parent: array<nat>, a: nat, b: nat, ghost root: seq<nat>, ghost rank: seq<nat>)
    returns (ghost root': seq<nat>, ghost rank': seq<nat>)
    requires a < parent.Length && b < parent.Length && Forest(parent[..], root, rank)
    modifies parent
    ensures Forest(parent[..], root', rank')
    ensures root' == JoinRoots(root, root[a], root[b])
  {
    var ra := FindCluster(parent, a, root, rank);
    var rb := FindCluster(parent, b, root, rank);
    root', rank' := root, rank;
    if ra != rb {
      ghost var before := parent[..];
      assert before[ra] == ra by { assert before[root[ra]] == root[ra]; }
      LinkKeepsForest(before, root, rank, ra, rb);
      parent[ra] := rb;
      assert parent[..] == before[ra := rb];
      root', rank' := JoinRoots(root, ra, rb), JoinRanks(root, rank, ra, rb);
    }
  }

  // ----- Roots against connectivity -----

  /** Two indices have the same root exactly when the links connect them. */
  ghost predicate RootsAreComponents(root: seq<nat>, links: set<(int, int)>) {
    forall i, j :: 0 <= i < |root| && 0 <= j < |root| ==> (root[i] == root[j] <==> Connected(links, i, j))
  }

  lemma NoLinks(root: seq<nat>)
    requires forall i :: 0 <= i < |root| ==> root[i] == i
    ensures RootsAreComponents(root, {})
  {
    forall i, j | 0 <= i < |root| && 0 <= j < |root| ensures root[i] == root[j] <==> Connected({}, i, j) {
      if i == j {
        Reflexive({}, i);
      } else if Connected({}, i, j) {
        LabelPreserved({}, (x: int) => x, i, j);
      }
    }
  }

  /** One more link joins exactly the two components it touches. */
  lemma OneMoreLink(root: seq<nat>, links: set<(int, int)>, a: nat, b: nat)
    requires a < |root| && b < |root|
    requires forall x, y :: (x, y) in links ==> 0 <= x < |root| && 0 <= y < |root|
    requires RootsAreComponents(root, links)
    ensures RootsAreComponents(JoinRoots(root, root[a], root[b]), links + {(a, b)})
  {
    var root', more := JoinRoots(root, root[a], root[b]), links + {(a, b)};
    forall i, j | 0 <= i < |root| && 0 <= j < |root| ensures root'[i] == root'[j] <==> Connected(more, i, j) {
      if root'[i] == root'[j] {
        JoinedAreConnected(root, links, a, b, i, j);
      }
      if Connected(more, i, j) {
        ConnectedAreJoined(root, links, a, b, i, j);
      }
    }
  }

  lemma JoinedAreConnected(root: seq<nat>, links: set<(int, int)>, a: nat, b: nat, i: nat, j: nat)
    requires a < |root| && b < |root| && i < |root| && j < |root|
    requires RootsAreComponents(root, links)
    requires JoinRoots(root, root[a], root[b])[i] == JoinRoots(root, root[a], root[b])[j]
    ensures Connected(links + {(a, b)}, i, j)
  {
    var more := links + {(a, b)};
    OneLink(more, a, b);
    Symmetric(more, a, b);
    if root[i] == root[j] {
      MoreLinks(links, more, i, j);
    } else if root[i] == root[a] {
      MoreLinks(links, more, i, a);
      MoreLinks(links, more, b, j);
      Transitive(more, i, a, b);
      Transitive(more, i, b, j);
    } else {
      MoreLinks(links, more, i, b);
      MoreLinks(links, more, a, j);
      Transitive(more, i, b, a);
      Transitive(more, i, a, j);
    }
  }

  lemma ConnectedAreJoined(root: seq<nat>, links: set<(int, int)>, a: nat, b: nat, i: nat, j: nat)
    requires a < |root| && b < |root| && i < |root| && j < |root|
    requires forall x, y :: (x, y) in links ==> 0 <= x < |root| && 0 <= y < |root|
    requires RootsAreComponents(root, links)
    requires Connected(links + {(a, b)}, i, j)
    ensures JoinRoots(root, root[a], root[b])[i] == JoinRoots(root, root[a], root[b])[j]
  {
    var more, root' := links + {(a, b)}, JoinRoots(root, root[a], root[b]);
    var tag := (x: int) => if 0 <= x < |root'| then root'[x] else 0;
    forall x, y | (x, y) in more ensures tag(x) == tag(y) {
      if (x, y) in links {
        OneLink(links, x, y);
        assert root[x] == root[y];
      }
    }
    LabelPreserved(more, tag, i, j);
  }
}
