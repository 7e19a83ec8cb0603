/**
 The published index and its keyset pages (internal/persistence/postgres/publication.go). A service is
 identified by its slug, which is unique among the services there are; `rows` is the publications table
 joined to the slugs, in no particular order.
 */
module Publications {
  import opened Collections
  import opened Sorting
  import opened Text

  datatype Key = Key(at: int, slug: string)

  datatype Row = Row(slug: string, firstAt: int, publishedAt: int, content: string)

  datatype Summary = Summary(slug: string, publishedAt: int, content: string)

  datatype Page = Page(items: seq<Summary>, next: Option<Key>)

  function KeyOf(r: Row): Key {
    Key(r.firstAt, r.slug)
  }

  function SummaryOf(r: Row): Summary {
    Summary(r.slug, r.publishedAt, r.content)
  }

  /** Newest first; the slug breaks a tie. */
  predicate Before(a: Key, b: Key) {
    a.at > b.at || (a.at == b.at && Less(a.slug, b.slug))
  }

  predicate RowBefore(a: Row, b: Row) {
    Before(KeyOf(a), KeyOf(b))
  }

  predicate After(cursor: Option<Key>, r: Row) {
    cursor.None? || Before(cursor.value, KeyOf(r))
  }

  // ----- The index order -----

  lemma BeforeTransitive(a: Key, b: Key, c: Key)
    requires Before(a, b) && Before(b, c)
    ensures Before(a, c)
  {
    if a.at == b.at == c.at {
      LessTransitive(a.slug, b.slug, c.slug);
    }
  }

  lemma BeforeAsymmetric(a: Key, b: Key)
    ensures !(Before(a, b) && Before(b, a))
  {
    LessAsymmetric(a.slug, b.slug);
  }

  lemma BeforeTotal(a: Key, b: Key)
    ensures a == b || Before(a, b) || Before(b, a)
  {
    LessTotal(a.slug, b.slug);
  }

  lemma RowBeforeIsWeakOrder()
    ensures WeakOrder(RowBefore)
  {
    hide Before;
    forall a, b | RowBefore(a, b) ensures !RowBefore(b, a) {
      BeforeAsymmetric(KeyOf(a), KeyOf(b));
    }
    forall a, b, c | !RowBefore(b, a) && !RowBefore(c, b) ensures !RowBefore(c, a) {
      BeforeTotal(KeyOf(a), KeyOf(b));
      BeforeTotal(KeyOf(b), KeyOf(c));
      if RowBefore(c, a) && RowBefore(a, b) {
        BeforeTransitive(KeyOf(c), KeyOf(a), KeyOf(b));
      }
    }
  }

  // ----- The query -----

  function Filter(rows: seq<Row>, cursor: Option<Key>): seq<Row> {
    if rows == [] then []
    else Filter(rows[..|rows| - 1], cursor) + (if After(cursor, rows[|rows| - 1]) then [rows[|rows| - 1]] else [])
  }

  /** The rows after the cursor, in index order. */
  function RowsAfter(rows: seq<Row>, cursor: Option<Key>): seq<Row> {
    StableSort(Filter(rows, cursor), RowBefore)
  }

  /** The rows a page shows. A limit of zero or less shows everything. */
  function Shown(rows: seq<Row>, cursor: Option<Key>, limit: int): seq<Row> {
    var after := RowsAfter(rows, cursor);
    if limit > 0 && |after| > limit then after[..limit] else after
  }

  /** The next page's cursor: the last key shown, if a further row exists. */
  function NextCursor(rows: seq<Row>, cursor: Option<Key>, limit: int): Option<Key> {
    var after := RowsAfter(rows, cursor);
    if limit > 0 && |after| > limit then Some(KeyOf(after[limit - 1])) else None
  }

  /** Fetches up to one row beyond the limit and shows all but that one. */
  method ListPublishedServiceSummaries(rows: seq<Row>, after: Option<Key>, limit: int) returns (page: Page)
    ensures page == Page(Map(SummaryOf, Shown(rows, after, limit)), NextCursor(rows, after, limit))
    ensures forall i :: 0 <= i < |page.items| ==>
              var r := Shown(rows, after, limit)[i]; page.items[i] == Summary(r.slug, r.publishedAt, r.content)
    ensures page.next.Some? ==>
              var n := |page.items| - 1;
              0 <= n && page.next == Some(Key(Shown(rows, after, limit)[n].firstAt, page.items[n].slug))
  {
    hide RowsAfter, RowBefore;
    var all := RowsAfter(rows, after);
    var fetched := if limit > 0 && |all| > limit + 1 then all[..limit + 1] else all;
    var items, next, last, i := [], None, Key(0, ""), 0;
    while i < |fetched|
      invariant 0 <= i <= |fetched|
      invariant |items| == if limit > 0 && i > limit then limit else i
      invariant items == Map(SummaryOf, fetched[..|items|])
      invariant items != [] ==> last == KeyOf(fetched[|items| - 1])
      invariant next == if limit > 0 && i > limit then Some(last) else None
    {
      if limit > 0 && |items| == limit {
        next := Some(last);
      } else {
        items := items + [SummaryOf(fetched[i])];
        last := KeyOf(fetched[i]);
      }
      i := i + 1;
    }
    assert items == Map(SummaryOf, Shown(rows, after, limit));
    page := Page(items, next);
  }

  // ----- What a page holds -----

  ghost predicate UniqueSlugs(rows: seq<Row>) {
    forall i, j :: 0 <= i < j < |rows| ==> rows[i].slug != rows[j].slug
  }

  /** Strictly in index order. */
  ghost predicate Ordered(rows: seq<Row>) {
    forall i, j :: 0 <= i < j < |rows| ==> RowBefore(rows[i], rows[j])
  }

  lemma {:induction false} FilterElements(rows: seq<Row>, cursor: Option<Key>)
    ensures forall r :: r in Filter(rows, cursor) <==> r in rows && After(cursor, r)
  {
    hide After;
    if rows != [] {
      var n := |rows| - 1;
      FilterElements(rows[..n], cursor);
      assert rows == rows[..n] + [rows[n]];
    }
  }

  lemma {:induction false} FilterUnique(rows: seq<Row>, cursor: Option<Key>)
    requires UniqueSlugs(rows)
    ensures UniqueSlugs(Filter(rows, cursor))
  {
    hide After;
    if rows != [] {
      var n := |rows| - 1;
      var rest := Filter(rows[..n], cursor);
      FilterUnique(rows[..n], cursor);
      FilterElements(rows[..n], cursor);
      forall i | 0 <= i < |rest| ensures rest[i].slug != rows[n].slug {
        assert rest[i] in rows[..n];
      }
    }
  }

  lemma RowsAfterElements(rows: seq<Row>, cursor: Option<Key>, r: Row)
    ensures r in RowsAfter(rows, cursor) <==> r in rows && After(cursor, r)
  {
    FilterElements(rows, cursor);
    SortedElements(Filter(rows, cursor), RowBefore, r);
  }

  lemma UniqueDiscriminates(rows: seq<Row>)
    requires UniqueSlugs(rows)
    ensures Discriminates(rows, RowBefore)
  {
    forall i, j | 0 <= i < j < |rows| ensures RowBefore(rows[i], rows[j]) || RowBefore(rows[j], rows[i]) {
      BeforeTotal(KeyOf(rows[i]), KeyOf(rows[j]));
    }
  }

  lemma RowsAfterOrdered(rows: seq<Row>, cursor: Option<Key>)
    requires UniqueSlugs(rows)
    ensures Ordered(RowsAfter(rows, cursor))
  {
    hide RowBefore, Filter;
    var filtered := Filter(rows, cursor);
    FilterUnique(rows, cursor);
    RowBeforeIsWeakOrder();
    UniqueDiscriminates(filtered);
    StableSortSorted(filtered, RowBefore);
    DiscriminatesSorted(filtered, RowBefore);
  }

  /** An ordered sequence is determined by its elements. */
  lemma OrderedUnique(s: seq<Row>, t: seq<Row>)
    requires Ordered(s) && Ordered(t)
    requires forall r :: r in s <==> r in t
    ensures s == t
    decreases |s|
  {
    hide Before;
    if s == [] || t == [] {
      EmptyTogether(s, t);
    } else {
      assert s[0] in s && s[0] in t;
      assert t[0] in t && t[0] in s;
      var i :| 0 <= i < |t| && t[i] == s[0];
      var j :| 0 <= j < |s| && s[j] == t[0];
      BeforeAsymmetric(KeyOf(s[0]), KeyOf(t[0]));
      assert s[0] == t[0];
      OrderedTails(s, t);
      OrderedUnique(s[1..], t[1..]);
    }
  }

  lemma EmptyTogether(s: seq<Row>, t: seq<Row>)
    requires s == [] || t == []
    requires forall r :: r in s <==> r in t
    ensures s == t
  {
    NonEmptyIff(s);
    NonEmptyIff(t);
  }

  lemma NonEmptyIff(s: seq<Row>)
    ensures s != [] <==> exists r :: r in s
  {
    if s != [] {
      assert s[0] in s;
    }
  }

  lemma OrderedTails(s: seq<Row>, t: seq<Row>)
    requires Ordered(s) && Ordered(t) && s != [] && t != [] && s[0] == t[0]
    requires forall r :: r in s <==> r in t
    ensures forall r :: r in s[1..] <==> r in t[1..]
  {
    hide RowBefore;
    RowBeforeIsWeakOrder();
    assert s == [s[0]] + s[1..] && t == [t[0]] + t[1..];
    forall r ensures r in s[1..] <==> r in t[1..] {
      if r in s[1..] {
        NotAgain(s, r);
        assert r in t;
      }
      if r in t[1..] {
        NotAgain(t, r);
        assert r in s;
      }
    }
  }

  lemma NotAgain(s: seq<Row>, r: Row)
    requires Ordered(s) && s != [] && r in s[1..]
    ensures r != s[0]
  {
    var i :| 1 <= i < |s| && s[i] == r;
    assert RowBefore(s[0], s[i]);
    BeforeAsymmetric(KeyOf(r), KeyOf(r));
  }
}
