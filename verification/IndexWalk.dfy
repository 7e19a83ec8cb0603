/**
 Walking the published index page by page while services are published, republished and unpublished
 between the pages (internal/persistence/postgres/publication.go).
 */
module IndexWalk {
  import opened Collections
  import opened Text
  import opened Publications

  datatype State = State(now: int, rows: seq<Row>, cursor: Option<Key>, done: bool, listed: seq<Row>)

  datatype Op =
    | Tick(later: int)
    | Publish(slug: string, content: string)
    | Unpublish(slug: string)
    | Read(limit: int)

  /** Insert or update: a republish keeps `firstAt`, an insert sets it to the current time. */
  function Upsert(rows: seq<Row>, slug: string, content: string, now: int): seq<Row> {
    if rows == [] then [Row(slug, now, now, content)]
    else if rows[0].slug == slug then [Row(slug, rows[0].firstAt, now, content)] + rows[1..]
    else [rows[0]] + Upsert(rows[1..], slug, content, now)
  }

  function Remove(rows: seq<Row>, slug: string): seq<Row> {
    if rows == [] then []
    else if rows[0].slug == slug then Remove(rows[1..], slug)
    else [rows[0]] + Remove(rows[1..], slug)
  }

  /** Reading a page when the walk has ended changes nothing. */
  function Step(s: State, op: Op): State {
    match op
    case Tick(later) => if later <= s.now then s else s.(now := later)
    case Publish(slug, content) => s.(rows := Upsert(s.rows, slug, content, s.now))
    case Unpublish(slug) => s.(rows := Remove(s.rows, slug))
    case Read(limit) =>
      if s.done then s
      else
        var next := NextCursor(s.rows, s.cursor, limit);
        s.(listed := s.listed + Shown(s.rows, s.cursor, limit), cursor := next, done := next.None?)
  }

  function Run(s: State, ops: seq<Op>): State
    decreases |ops|
  {
    if ops == [] then s else Run(Step(s, ops[0]), ops[1..])
  }

  // ----- The table -----

  ghost predicate Past(rows: seq<Row>, now: int) {
    forall r :: r in rows ==> r.firstAt <= now
  }

  ghost predicate HasKey(rows: seq<Row>, key: Key) {
    exists r :: r in rows && KeyOf(r) == key
  }

  lemma {:induction false} UpsertRows(rows: seq<Row>, slug: string, content: string, now: int)
    requires UniqueSlugs(rows)
    ensures var rows' := Upsert(rows, slug, content, now);
            && UniqueSlugs(rows')
            && (forall r :: r in rows' ==> r in rows || (r.slug == slug && (r.firstAt == now || HasKey(rows, KeyOf(r)))))
            && (forall key :: HasKey(rows, key) ==> HasKey(rows', key))
            && (forall r :: r in rows' ==> r.slug == slug || r in rows)
  {
    if rows != [] {
      assert rows == [rows[0]] + rows[1..];
      var rows' := Upsert(rows, slug, content, now);
      if rows[0].slug == slug {
        assert KeyOf(rows'[0]) == KeyOf(rows[0]) && rows[0] in rows && rows'[0] in rows';
        assert rows' == [rows'[0]] + rows[1..];
      } else {
        UpsertRows(rows[1..], slug, content, now);
        var rest := Upsert(rows[1..], slug, content, now);
        assert rows' == [rows[0]] + rest;
        forall i | 0 <= i < |rest| ensures rest[i].slug != rows[0].slug {
          assert rest[i] in rest;
          assert rest[i].slug == slug || rest[i] in rows[1..];
        }
        forall key | HasKey(rows, key) ensures HasKey(rows', key) {
          var r :| r in rows && KeyOf(r) == key;
          if r != rows[0] {
            assert HasKey(rest, key) by { assert HasKey(rows[1..], key); }
          }
        }
        forall r | r in rest && HasKey(rows[1..], KeyOf(r)) ensures HasKey(rows, KeyOf(r)) {
          var q :| q in rows[1..] && KeyOf(q) == KeyOf(r);
          assert q in rows;
        }
      }
    }
  }

  lemma {:induction false} RemoveRows(rows: seq<Row>, slug: string)
    requires UniqueSlugs(rows)
    ensures var rows' := Remove(rows, slug);
            && UniqueSlugs(rows')
            && forall r :: r in rows' <==> r in rows && r.slug != slug
  {
    if rows != [] {
      assert rows == [rows[0]] + rows[1..];
      RemoveRows(rows[1..], slug);
      var rest := Remove(rows[1..], slug);
      forall i | 0 <= i < |rest| ensures rest[i].slug != rows[0].slug {
        assert rest[i] in rows[1..];
      }
    }
  }

  // ----- One page -----

  /** What a page shows: rows of the table after the cursor, strictly in order, up to the next cursor. */
  lemma PageFacts(rows: seq<Row>, cursor: Option<Key>, limit: int)
    requires UniqueSlugs(rows)
    ensures var shown, next := Shown(rows, cursor, limit), NextCursor(rows, cursor, limit);
            && Ordered(shown)
            && (forall r :: r in shown ==> r in rows && After(cursor, r))
            && (next.Some? ==> shown != [] && next.value == KeyOf(shown[|shown| - 1]))
            && (forall r :: r in rows && After(cursor, r) ==> r in shown || (next.Some? && Before(next.value, KeyOf(r))))
  {
    var after, shown, next := RowsAfter(rows, cursor), Shown(rows, cursor, limit), NextCursor(rows, cursor, limit);
    hide RowsAfter, Before, After;
    RowsAfterOrdered(rows, cursor);
    forall r | r in shown ensures r in rows && After(cursor, r) {
      assert r in after;
      RowsAfterElements(rows, cursor, r);
    }
    forall r | r in rows && After(cursor, r) ensures r in shown || (next.Some? && Before(next.value, KeyOf(r))) {
      RowsAfterElements(rows, cursor, r);
      var i :| 0 <= i < |after| && after[i] == r;
      if i < |shown| {
        assert shown[i] == r;
      } else {
        assert RowBefore(after[|shown| - 1], after[i]);
      }
    }
  }

  // ----- The walk -----

  /** The next page starts beyond everything listed. */
  ghost predicate Passed(listed: seq<Row>, cursor: Option<Key>) {
    forall r :: r in listed ==> cursor.Some? && (KeyOf(r) == cursor.value || Before(KeyOf(r), cursor.value))
  }

  /** A service that was listed is now absent, as it was listed, or published anew since. */
  ghost predicate NotOlder(rows: seq<Row>, listed: seq<Row>) {
    forall r, t :: r in listed && t in rows && t.slug == r.slug ==> r.firstAt <= t.firstAt
  }

  ghost predicate WalkOk(s: State) {
    && UniqueSlugs(s.rows) && Past(s.rows, s.now)
    && Ordered(s.listed) && UniqueSlugs(s.listed) && Past(s.listed, s.now)
    && NotOlder(s.rows, s.listed)
    && (!s.done ==> Passed(s.listed, s.cursor))
  }

  lemma ReadOk(s: State, limit: int)
    requires WalkOk(s) && !s.done
    ensures WalkOk(Step(s, Read(limit)))
  {
    hide RowBefore, Before, Shown, NextCursor;
    var shown, next, s' := Shown(s.rows, s.cursor, limit), NextCursor(s.rows, s.cursor, limit), Step(s, Read(limit));
    PageFacts(s.rows, s.cursor, limit);
    forall l, r | l in s.listed && r in shown ensures RowBefore(l, r) && l.slug != r.slug {
      ListedBeforeShown(s, l, r);
    }
    ListedGrows(s.listed, shown);
    if next.Some? {
      forall r | r in s'.listed ensures KeyOf(r) == next.value || Before(KeyOf(r), next.value) {
        UpToLast(s.listed, shown, r);
      }
    }
    forall r, t | r in s'.listed && t in s.rows && t.slug == r.slug ensures r.firstAt <= t.firstAt {
      if r in shown {
        SameSlugSameRow(s.rows, r, t);
      }
    }
  }

  lemma ListedBeforeShown(s: State, l: Row, r: Row)
    requires WalkOk(s) && !s.done && l in s.listed && r in s.rows && After(s.cursor, r)
    ensures RowBefore(l, r) && l.slug != r.slug
  {
    hide Less;
    if KeyOf(l) != s.cursor.value {
      BeforeTransitive(KeyOf(l), s.cursor.value, KeyOf(r));
    }
    if l.slug == r.slug {
      LessAsymmetric(l.slug, l.slug);
    }
  }

  lemma ListedGrows(listed: seq<Row>, shown: seq<Row>)
    requires Ordered(listed) && Ordered(shown) && UniqueSlugs(listed)
    requires forall l, r :: l in listed && r in shown ==> RowBefore(l, r) && l.slug != r.slug
    requires forall r, t :: r in shown && t in shown && r.slug == t.slug ==> r == t
    ensures Ordered(listed + shown) && UniqueSlugs(listed + shown)
  {
    hide RowBefore;
    var both, n := listed + shown, |listed|;
    forall i, j | 0 <= i < j < |both| ensures RowBefore(both[i], both[j]) && both[i].slug != both[j].slug {
      if j < n {
        assert RowBefore(listed[i], listed[j]);
      } else if i < n {
        assert listed[i] in listed && shown[j - n] in shown;
      } else {
        assert RowBefore(shown[i - n], shown[j - n]);
        assert shown[i - n] in shown && shown[j - n] in shown;
        NeverBeforeItself(shown[i - n]);
      }
    }
  }

  lemma NeverBeforeItself(r: Row)
    ensures !RowBefore(r, r)
  {
    BeforeAsymmetric(KeyOf(r), KeyOf(r));
  }

  lemma UpToLast(listed: seq<Row>, shown: seq<Row>, r: Row)
    requires Ordered(shown) && shown != [] && r in listed + shown
    requires forall l, t :: l in listed && t in shown ==> RowBefore(l, t)
    ensures var last := KeyOf(shown[|shown| - 1]); KeyOf(r) == last || Before(KeyOf(r), last)
  {
    hide Before;
    var n := |shown| - 1;
    assert shown[n] in shown;
    if r in listed {
      assert RowBefore(r, shown[n]);
    } else {
      assert r in shown;
      var i :| 0 <= i < |shown| && shown[i] == r;
      if i < n {
        assert RowBefore(shown[i], shown[n]);
      }
    }
  }

  lemma SameSlugSameRow(rows: seq<Row>, r: Row, t: Row)
    requires UniqueSlugs(rows) && r in rows && t in rows && r.slug == t.slug
    ensures r == t
  {
    var i :| 0 <= i < |rows| && rows[i] == r;
    var j :| 0 <= j < |rows| && rows[j] == t;
    assert !(i < j) && !(j < i);
  }

  lemma WriteOk(s: State, op: Op)
    requires WalkOk(s) && (op.Publish? || op.Unpublish?)
    ensures WalkOk(Step(s, op))
  {
    hide Ordered, Passed, Upsert, Remove;
    var s' := Step(s, op);
    match op
    case Publish(slug, content) =>
      UpsertRows(s.rows, slug, content, s.now);
      forall r | r in s'.rows ensures r in s.rows || (r.slug == slug && (r.firstAt == s.now || HasKey(s.rows, KeyOf(r)))) {
      }
      forall r, t | r in s'.listed && t in s'.rows && t.slug == r.slug ensures r.firstAt <= t.firstAt {
        if t !in s.rows && t.firstAt != s.now {
          var q :| q in s.rows && KeyOf(q) == KeyOf(t);
        }
      }
    case Unpublish(slug) => RemoveRows(s.rows, slug);
  }

  lemma StepOk(s: State, op: Op)
    requires WalkOk(s)
    ensures WalkOk(Step(s, op))
  {
    hide Ordered, Passed, Upsert, Remove, UniqueSlugs, NotOlder;
    match op
    case Tick(later) =>
    case Publish(slug, content) => WriteOk(s, op);
    case Unpublish(slug) => WriteOk(s, op);
    case Read(limit) => if !s.done { ReadOk(s, limit); }
  }

  function Start(rows: seq<Row>, now: int): State {
    State(now, rows, None, false, [])
  }

  lemma StartOk(rows: seq<Row>, now: int)
    requires UniqueSlugs(rows) && Past(rows, now)
    ensures WalkOk(Start(rows, now))
  {
  }

  /**
   However services are published, republished and unpublished between the pages, the pages list each
   service at most once, and strictly in index order.
   */
  lemma WalkListsOnceInOrder(rows: seq<Row>, now: int, ops: seq<Op>)
    requires UniqueSlugs(rows) && Past(rows, now)
    ensures Ordered(Run(Start(rows, now), ops).listed) && UniqueSlugs(Run(Start(rows, now), ops).listed)
  {
    RunOk(Start(rows, now), ops);
  }

  lemma {:induction false} RunOk(s: State, ops: seq<Op>)
    requires WalkOk(s)
    ensures WalkOk(Run(s, ops))
    decreases |ops|
  {
    hide WalkOk, Step;
    if ops != [] {
      StepOk(s, ops[0]);
      RunOk(Step(s, ops[0]), ops[1..]);
    }
  }

  // ----- Nothing published throughout is missed -----

  /** The entry is published, and is either listed already or still ahead of the walk. */
  ghost predicate Covered(s: State, key: Key) {
    && HasKey(s.rows, key)
    && (HasKey(s.listed, key) || (!s.done && (s.cursor.None? || Before(s.cursor.value, key))))
  }

  lemma StepCovers(s: State, key: Key, op: Op)
    requires WalkOk(s) && Covered(s, key) && op != Unpublish(key.slug)
    ensures Covered(Step(s, op), key)
  {
    hide Before, Shown, NextCursor, Ordered, Passed, NotOlder, Upsert, Remove;
    var r :| r in s.rows && KeyOf(r) == key;
    match op
    case Tick(later) =>
    case Publish(slug, content) => UpsertRows(s.rows, slug, content, s.now);
    case Unpublish(slug) =>
      RemoveRows(s.rows, slug);
      assert r in Step(s, op).rows;
    case Read(limit) =>
      if !s.done {
        PageFacts(s.rows, s.cursor, limit);
        if HasKey(s.listed, key) {
          var l :| l in s.listed && KeyOf(l) == key;
          assert l in Step(s, op).listed;
        } else if r in Shown(s.rows, s.cursor, limit) {
          assert r in Step(s, op).listed;
        }
      }
  }

  lemma {:induction false} RunCovers(s: State, key: Key, ops: seq<Op>)
    requires WalkOk(s) && Covered(s, key)
    requires forall k :: 0 <= k < |ops| ==> ops[k] != Unpublish(key.slug)
    ensures Covered(Run(s, ops), key)
    decreases |ops|
  {
    hide WalkOk, Covered, Step;
    if ops != [] {
      StepCovers(s, key, ops[0]);
      StepOk(s, ops[0]);
      RunCovers(Step(s, ops[0]), key, ops[1..]);
    }
  }

  /** A service published from the first page to the last is listed by a finished walk, exactly once. */
  lemma WalkMissesNothing(rows: seq<Row>, now: int, ops: seq<Op>, row: Row)
    requires UniqueSlugs(rows) && Past(rows, now) && row in rows
    requires forall k :: 0 <= k < |ops| ==> ops[k] != Unpublish(row.slug)
    requires Run(Start(rows, now), ops).done
    ensures var listed := Run(Start(rows, now), ops).listed;
            exists i :: 0 <= i < |listed| && KeyOf(listed[i]) == KeyOf(row)
                        && forall j :: 0 <= j < |listed| && listed[j].slug == row.slug ==> j == i
  {
    hide Run, Step, Ordered, NotOlder, Passed;
    var s, end := Start(rows, now), Run(Start(rows, now), ops);
    StartOk(rows, now);
    assert Covered(s, KeyOf(row));
    RunCovers(s, KeyOf(row), ops);
    RunOk(s, ops);
    var r :| r in end.listed && KeyOf(r) == KeyOf(row);
    var i :| 0 <= i < |end.listed| && end.listed[i] == r;
    forall j | 0 <= j < |end.listed| && end.listed[j].slug == row.slug ensures j == i {
      assert end.listed[i].slug == end.listed[j].slug;
    }
  }

  // ----- An unchanged table -----

  /** A page and everything after it are everything after the page before. */
  lemma PageThenRest(rows: seq<Row>, cursor: Option<Key>, limit: int)
    requires UniqueSlugs(rows)
    ensures var shown, next := Shown(rows, cursor, limit), NextCursor(rows, cursor, limit);
            RowsAfter(rows, cursor) == shown + (if next.None? then [] else RowsAfter(rows, next))
  {
    hide Before;
    var after, shown, next := RowsAfter(rows, cursor), Shown(rows, cursor, limit), NextCursor(rows, cursor, limit);
    if next.Some? {
      RowsAfterOrdered(rows, cursor);
      RowsAfterOrdered(rows, next);
      var rest := after[limit..];
      forall r ensures r in rest <==> r in RowsAfter(rows, next) {
        RowsAfterElements(rows, cursor, r);
        RowsAfterElements(rows, next, r);
        if r in rest {
          var i :| limit <= i < |after| && after[i] == r;
          assert RowBefore(after[limit - 1], after[i]);
        }
        if r in rows && After(next, r) {
          BeyondPage(rows, cursor, limit, r);
        }
      }
      OrderedUnique(rest, RowsAfter(rows, next));
      assert after == after[..limit] + rest;
    }
  }

  lemma BeyondPage(rows: seq<Row>, cursor: Option<Key>, limit: int, r: Row)
    requires UniqueSlugs(rows) && r in rows
    requires var next := NextCursor(rows, cursor, limit); next.Some? && After(next, r)
    ensures r in RowsAfter(rows, cursor)[limit..]
  {
    hide Less;
    var after := RowsAfter(rows, cursor);
    var last := after[limit - 1];
    RowsAfterOrdered(rows, cursor);
    assert last in after;
    RowsAfterElements(rows, cursor, last);
    if cursor.Some? {
      BeforeTransitive(cursor.value, KeyOf(last), KeyOf(r));
    }
    RowsAfterElements(rows, cursor, r);
    var i :| 0 <= i < |after| && after[i] == r;
    if i < limit - 1 {
      assert RowBefore(after[i], after[limit - 1]);
    }
    BeforeAsymmetric(KeyOf(last), KeyOf(r));
    assert limit <= i;
    assert after[limit..][i - limit] == r;
  }

  /** What is listed, and what is still to come. */
  ghost function Pending(s: State): seq<Row> {
    if s.done then [] else RowsAfter(s.rows, s.cursor)
  }

  lemma {:induction false} ReadsPartition(s: State, ops: seq<Op>)
    requires UniqueSlugs(s.rows) && forall k :: 0 <= k < |ops| ==> ops[k].Read?
    ensures Run(s, ops).listed + Pending(Run(s, ops)) == s.listed + Pending(s)
    decreases |ops|
  {
    hide RowsAfter, Shown, NextCursor;
    if ops != [] {
      PageThenRest(s.rows, s.cursor, ops[0].limit);
      assert Step(s, ops[0]).listed + Pending(Step(s, ops[0])) == s.listed + Pending(s);
      ReadsPartition(Step(s, ops[0]), ops[1..]);
    }
  }

  /** On an unchanged table the pages of a finished walk, whatever their limits, are the unpaged list. */
  lemma PagesConcatenate(rows: seq<Row>, now: int, ops: seq<Op>)
    requires UniqueSlugs(rows) && forall k :: 0 <= k < |ops| ==> ops[k].Read?
    requires Run(Start(rows, now), ops).done
    ensures Run(Start(rows, now), ops).listed == Shown(rows, None, 0)
  {
    hide Run, RowsAfter;
    ReadsPartition(Start(rows, now), ops);
    var end := Run(Start(rows, now), ops);
    assert end.listed + [] == end.listed && [] + RowsAfter(rows, None) == RowsAfter(rows, None);
  }

  // ----- Every walk of an unchanged table ends -----

  /** Every page with a next cursor lists a row and leaves one to come. */
  lemma PageAdvances(rows: seq<Row>, cursor: Option<Key>, limit: int)
    requires 0 < limit && NextCursor(rows, cursor, limit).Some?
    ensures Shown(rows, cursor, limit) != []
  {
    hide RowsAfter;
  }

  lemma {:induction false} ReadsAdvance(s: State, ops: seq<Op>)
    requires UniqueSlugs(s.rows) && forall k :: 0 <= k < |ops| ==> ops[k].Read? && 0 < ops[k].limit
    ensures Run(s, ops).done || |s.listed| + |ops| <= |Run(s, ops).listed|
    decreases |ops|
  {
    hide RowsAfter, Shown, NextCursor;
    if ops != [] {
      var t := Step(s, ops[0]);
      if !s.done && !t.done {
        PageAdvances(s.rows, s.cursor, ops[0].limit);
      }
      ReadsAdvance(t, ops[1..]);
      if t.done {
        DoneStays(t, ops[1..]);
      }
    }
  }

  lemma {:induction false} DoneStays(s: State, ops: seq<Op>)
    requires s.done && forall k :: 0 <= k < |ops| ==> ops[k].Read?
    ensures Run(s, ops) == s
    decreases |ops|
  {
    if ops != [] {
      DoneStays(s, ops[1..]);
    }
  }

  lemma {:induction false} FilterNoLonger(rows: seq<Row>, cursor: Option<Key>)
    ensures |Filter(rows, cursor)| <= |rows|
  {
    if rows != [] {
      FilterNoLonger(rows[..|rows| - 1], cursor);
    }
  }

  lemma RowsAfterNoMore(rows: seq<Row>, cursor: Option<Key>)
    ensures |RowsAfter(rows, cursor)| <= |rows|
  {
    FilterNoLonger(rows, cursor);
    hide Filter;
  }

  /**
   Each read with a positive limit lists a row or ends the walk, so one more read than there are rows is
   always enough.
   */
  lemma WalkEnds(rows: seq<Row>, now: int, ops: seq<Op>)
    requires UniqueSlugs(rows) && forall k :: 0 <= k < |ops| ==> ops[k].Read? && 0 < ops[k].limit
    requires |rows| < |ops|
    ensures Run(Start(rows, now), ops).done
  {
    hide Run, RowsAfter;
    var s, end := Start(rows, now), Run(Start(rows, now), ops);
    ReadsAdvance(s, ops);
    ReadsPartition(s, ops);
    RowsAfterNoMore(rows, None);
    assert |end.listed| <= |end.listed + Pending(end)| == |RowsAfter(rows, None)|;
  }

  // ----- Newest first -----

  /** Later first publishes come first; of two first published at once the lesser slug does. */
  ghost predicate NewestFirst(listed: seq<Row>) {
    forall i, j :: 0 <= i < j < |listed| ==>
      listed[j].firstAt < listed[i].firstAt || (listed[j].firstAt == listed[i].firstAt && Less(listed[i].slug, listed[j].slug))
  }

  lemma OrderedNewestFirst(listed: seq<Row>)
    requires Ordered(listed)
    ensures NewestFirst(listed)
  {
    forall i, j | 0 <= i < j < |listed|
      ensures listed[j].firstAt < listed[i].firstAt || (listed[j].firstAt == listed[i].firstAt && Less(listed[i].slug, listed[j].slug))
    {
      assert RowBefore(listed[i], listed[j]);
    }
  }

  /** A page lists the newest services beyond its cursor, newest first, and no more than its limit. */
  lemma PageNewestFirst(rows: seq<Row>, cursor: Option<Key>, limit: int)
    requires UniqueSlugs(rows)
    ensures var shown := Shown(rows, cursor, limit);
            && (forall i, j :: 0 <= i < j < |shown| ==>
                  shown[j].firstAt < shown[i].firstAt || (shown[j].firstAt == shown[i].firstAt && Less(shown[i].slug, shown[j].slug)))
            && (0 < limit ==> |shown| <= limit)
            && (forall r :: r in shown ==> r in rows && Beyond(cursor, r))
            && (forall r, t :: r in rows && Beyond(cursor, r) && r !in shown && t in shown ==>
                  0 < limit == |shown| && (r.firstAt < t.firstAt || (r.firstAt == t.firstAt && Less(t.slug, r.slug))))
            && (NextCursor(rows, cursor, limit).None? <==> forall r :: r in rows && Beyond(cursor, r) ==> r in shown)
  {
    var after, shown := RowsAfter(rows, cursor), Shown(rows, cursor, limit);
    hide RowsAfter, Less, Ordered;
    RowsAfterOrdered(rows, cursor);
    PageFacts(rows, cursor, limit);
    OrderedNewestFirst(shown);
    forall r ensures r in rows && Beyond(cursor, r) <==> r in after {
      RowsAfterElements(rows, cursor, r);
      BeyondIsAfter(cursor, r);
    }
    forall r, t | r in after && r !in shown && t in shown
      ensures 0 < limit == |shown| && (r.firstAt < t.firstAt || (r.firstAt == t.firstAt && Less(t.slug, r.slug)))
    {
      ShownFirst(after, shown, r, t);
    }
    if NextCursor(rows, cursor, limit).Some? {
      LeftOut(after, limit);
    }
  }

  /** Past the cursor: first published before it, or at once with it under a greater slug. */
  ghost predicate Beyond(cursor: Option<Key>, r: Row) {
    cursor.None? || r.firstAt < cursor.value.at || (r.firstAt == cursor.value.at && Less(cursor.value.slug, r.slug))
  }

  lemma BeyondIsAfter(cursor: Option<Key>, r: Row)
    ensures Beyond(cursor, r) <==> After(cursor, r)
  {
  }

  lemma ShownFirst(after: seq<Row>, shown: seq<Row>, r: Row, t: Row)
    requires Ordered(after) && shown <= after && r in after && r !in shown && t in shown
    ensures r.firstAt < t.firstAt || (r.firstAt == t.firstAt && Less(t.slug, r.slug))
  {
    var i :| 0 <= i < |shown| && shown[i] == t;
    var j :| 0 <= j < |after| && after[j] == r;
    assert RowBefore(after[i], after[j]);
  }

  lemma LeftOut(after: seq<Row>, limit: int)
    requires Ordered(after) && 0 < limit < |after|
    ensures after[limit] in after && after[limit] !in after[..limit]
  {
    if after[limit] in after[..limit] {
      var i :| 0 <= i < limit && after[i] == after[limit];
      assert RowBefore(after[i], after[limit]);
      NeverBeforeItself(after[i]);
    }
  }

  /** Whatever is written between the pages, the walk as a whole lists newest first. */
  lemma WalkNewestFirst(rows: seq<Row>, now: int, ops: seq<Op>)
    requires UniqueSlugs(rows) && Past(rows, now)
    ensures var listed := Run(Start(rows, now), ops).listed;
            forall i, j :: 0 <= i < j < |listed| ==>
              listed[j].firstAt < listed[i].firstAt || (listed[j].firstAt == listed[i].firstAt && Less(listed[i].slug, listed[j].slug))
  {
    hide Run, Start;
    WalkListsOnceInOrder(rows, now, ops);
    OrderedNewestFirst(Run(Start(rows, now), ops).listed);
  }
}
