/** Connectivity under a set of two-way links: the closure that folding is meant to compute. */
module Connectivity {

  ghost predicate Linked(links: set<(int, int)>, a: int, b: int) {
    (a, b) in links || (b, a) in links
  }

  ghost predicate Path(links: set<(int, int)>, p: seq<int>) {
    && p != []
    && forall i, j :: 0 <= i < |p| && j == i + 1 && j < |p| ==> Linked(links, p[i], p[j])
  }

  ghost predicate PathBetween(links: set<(int, int)>, p: seq<int>, a: int, b: int) {
    Path(links, p) && p[0] == a && p[|p| - 1] == b
  }

  /** Some chain of links leads from `a` to `b`. */
  ghost predicate Connected(links: set<(int, int)>, a: int, b: int) {
    exists p :: PathBetween(links, p, a, b)
  }

  lemma Reflexive(links: set<(int, int)>, a: int)
    ensures Connected(links, a, a)
  {
    assert PathBetween(links, [a], a, a);
  }

  lemma OneLink(links: set<(int, int)>, a: int, b: int)
    requires Linked(links, a, b)
    ensures Connected(links, a, b)
  {
    assert PathBetween(links, [a, b], a, b);
  }

  lemma Symmetric(links: set<(int, int)>, a: int, b: int)
    requires Connected(links, a, b)
    ensures Connected(links, b, a)
  {
    var p :| PathBetween(links, p, a, b);
    var q := seq(|p|, i requires 0 <= i < |p| => p[|p| - 1 - i]);
    forall i, j | 0 <= i < |q| && j == i + 1 && j < |q| ensures Linked(links, q[i], q[j]) {
      assert Linked(links, p[|p| - 1 - j], p[|p| - 1 - i]);
    }
    assert PathBetween(links, q, b, a);
  }

  lemma Transitive(links: set<(int, int)>, a: int, b: int, c: int)
    requires Connected(links, a, b) && Connected(links, b, c)
    ensures Connected(links, a, c)
  {
    var p :| PathBetween(links, p, a, b);
    var q :| PathBetween(links, q, b, c);
    var r := p + q[1..];
    forall i, j | 0 <= i < |r| && j == i + 1 && j < |r| ensures Linked(links, r[i], r[j]) {
      if j < |p| {
        assert Linked(links, p[i], p[j]);
      } else {
        assert Linked(links, q[i - |p| + 1], q[j - |p| + 1]);
      }
    }
    assert PathBetween(links, r, a, c);
  }

  lemma MoreLinks(links: set<(int, int)>, more: set<(int, int)>, a: int, b: int)
    requires Connected(links, a, b) && links <= more
    ensures Connected(more, a, b)
  {
    var p :| PathBetween(links, p, a, b);
    assert PathBetween(more, p, a, b) by {
      forall i, j | 0 <= i < |p| && j == i + 1 && j < |p| ensures Linked(more, p[i], p[j]) {
        assert Linked(links, p[i], p[j]);
      }
    }
  }

  /** A label that every link preserves is the same at both ends of a connection. */
  lemma LabelPreserved<L>(links: set<(int, int)>, tag: int -> L, a: int, b: int)
    requires forall x, y :: (x, y) in links ==> tag(x) == tag(y)
    requires Connected(links, a, b)
    ensures tag(a) == tag(b)
  {
    var p :| PathBetween(links, p, a, b);
    LabelAlongPath(links, tag, p);
  }

  lemma {:induction false} LabelAlongPath<L>(links: set<(int, int)>, tag: int -> L, p: seq<int>)
    requires forall x, y :: (x, y) in links ==> tag(x) == tag(y)
    requires Path(links, p)
    ensures tag(p[0]) == tag(p[|p| - 1])
  {
    if |p| > 1 {
      assert Linked(links, p[0], p[1]);
      assert Path(links, p[1..]) by {
        forall i, j | 0 <= i < |p[1..]| && j == i + 1 && j < |p[1..]| ensures Linked(links, p[1..][i], p[1..][j]) {
          assert Linked(links, p[i + 1], p[j + 1]);
        }
      }
      LabelAlongPath(links, tag, p[1..]);
    }
  }
}
