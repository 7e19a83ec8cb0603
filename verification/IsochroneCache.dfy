/**
 The isochrone cache (internal/persistence/postgres/worker.go, `putIsochroneCacheSQL` and
 `GetIsochroneCache`): a guarded upsert, with SQL's three-valued logic written out, shown to keep under
 every key the first entry of greatest rank.

 `dateOf` reads a departure date as the database does; compile job ids are taken in canonical form.
 The unique constraint on the key treats NULLs as equal.
 */
module IsochroneCache {
  import opened Collections

  // ----- JSON and SQL -----

  datatype Json = Null | Bool(b: bool) | Number(n: real) | Str(s: string) | Array(items: seq<Json>) | Object(fields: map<string, Json>)

  datatype Truth = True | False | Unknown

  function And(p: Truth, q: Truth): Truth {
    if p.False? || q.False? then False else if p.True? && q.True? then True else Unknown
  }

  function Or(p: Truth, q: Truth): Truth {
    if p.True? || q.True? then True else if p.False? && q.False? then False else Unknown
  }

  function Not(p: Truth): Truth {
    match p case True => False case False => True case Unknown => Unknown
  }

  function Is(p: bool): Truth {
    if p then True else False
  }

  /** `$g -> key`: NULL unless `$g` is an object with that key. */
  function Member(g: Option<Json>, key: string): Option<Json> {
    if g.Some? && g.value.Object? && key in g.value.fields then Some(g.value.fields[key]) else None
  }

  function TypeOf(g: Option<Json>): Option<string> {
    if g.None? then None
    else Some(match g.value
      case Null => "null" case Bool(_) => "boolean" case Number(_) => "number"
      case Str(_) => "string" case Array(_) => "array" case Object(_) => "object")
  }

  function Coalesce(s: Option<string>, other: string): string {
    if s.Some? then s.value else other
  }

  function Differs(a: Option<Json>, b: Json): Truth {
    if a.None? then Unknown else Is(a.value != b)
  }

  function UsableSql(g: Option<Json>): Truth {
    And(And(Is(Coalesce(TypeOf(Member(g, "features")), "") == "array"),
            Differs(Member(g, "features"), Array([]))),
        Is(Coalesce(TypeOf(Member(g, "type")), "null") in {"string", "null"}))
  }

  /** Greater-than on nullable stamps. */
  function LaterSql(a: Option<int>, b: Option<int>): Truth {
    if a.None? || b.None? then Unknown else Is(a.value > b.value)
  }

  // ----- Rows -----

  datatype Key = Key(
    compileJobId: string, stationSlug: string, mode: string, contourMins: int, departsOn: string, budgetMins: int)

  datatype RowKey = RowKey(
    compileJobId: string, stationSlug: string, mode: string, contourMins: int,
    departsOn: Option<int>, budgetMins: Option<int>)

  /** What the constraint and the lookup compare: an empty date and a zero budget are NULL. */
  function RowKeyOf(dateOf: string -> int, k: Key): RowKey {
    RowKey(k.compileJobId, k.stationSlug, k.mode, k.contourMins,
           if k.departsOn == "" then None else Some(dateOf(k.departsOn)),
           if k.budgetMins == 0 then None else Some(k.budgetMins))
  }

  /** Keys share a row exactly when they agree, dates compared as dates; "no date" matches only "no date". */
  lemma SameRowIff(dateOf: string -> int, k: Key, l: Key)
    ensures RowKeyOf(dateOf, k) == RowKeyOf(dateOf, l) <==>
              && k.(departsOn := l.departsOn) == l
              && (k.departsOn == l.departsOn || (k.departsOn != "" && l.departsOn != "" && dateOf(k.departsOn) == dateOf(l.departsOn)))
  {
  }

  datatype Entry = Entry(geometry: Option<Json>, tilesetAt: Option<int>)

  datatype Put = Put(key: Key, entry: Entry)

  /** The condition of the `DO UPDATE`. */
  function GuardSql(excluded: Entry, stored: Entry): Truth {
    And(UsableSql(excluded.geometry),
        Or(Not(UsableSql(stored.geometry)),
           And(Is(excluded.tilesetAt.Some?),
               Or(Is(stored.tilesetAt.None?), LaterSql(excluded.tilesetAt, stored.tilesetAt)))))
  }

  /** The rows after one put: a conflicting row is replaced only when the guard is true. */
  function PutOne(dateOf: string -> int, rows: map<RowKey, Entry>, p: Put): map<RowKey, Entry> {
    var k := RowKeyOf(dateOf, p.key);
    if k !in rows || GuardSql(p.entry, rows[k]).True? then rows[k := p.entry] else rows
  }

  function PutAll(dateOf: string -> int, rows: map<RowKey, Entry>, puts: seq<Put>): map<RowKey, Entry> {
    if puts == [] then rows else PutOne(dateOf, PutAll(dateOf, rows, puts[..|puts| - 1]), puts[|puts| - 1])
  }

  lemma PutAllNext(dateOf: string -> int, rows: map<RowKey, Entry>, puts: seq<Put>, i: nat)
    requires i < |puts|
    ensures PutAll(dateOf, rows, puts[..i + 1]) == PutOne(dateOf, PutAll(dateOf, rows, puts[..i]), puts[i])
  {
    hide PutOne;
    assert puts[..i + 1][..i] == puts[..i];
  }

  class Cache {
    var rows: map<RowKey, Entry>

    /** One batch, all or nothing: an entry the schema refuses loses the whole put. */
    method PutIsochroneCache(dateOf: string -> int, accepts: Put -> bool, entries: seq<Put>) returns (ok: bool)
      modifies this
      ensures ok <==> forall p :: p in entries ==> accepts(p)
      ensures rows == if ok then PutAll(dateOf, old(rows), entries) else old(rows)
    {
      hide GuardSql, RowKeyOf;
      var staged, i := rows, 0;
      while i < |entries|
        invariant 0 <= i <= |entries| && rows == old(rows)
        invariant forall k :: 0 <= k < i ==> accepts(entries[k])
        invariant staged == PutAll(dateOf, rows, entries[..i])
      {
        assert entries[i] in entries;
        PutAllNext(dateOf, rows, entries, i);
        if !accepts(entries[i]) { return false; }
        var k := RowKeyOf(dateOf, entries[i].key);
        if k !in staged || GuardSql(entries[i].entry, staged[k]).True? {
          staged := staged[k := entries[i].entry];
        }
        i := i + 1;
      }
      assert entries[..i] == entries;
      rows := staged;
      return true;
    }

    /** The row of every wanted key that has one. */
    method GetIsochroneCache(dateOf: string -> int, keys: seq<Key>) returns (found: map<Key, Entry>)
      ensures forall k :: k in found <==> k in keys && RowKeyOf(dateOf, k) in rows
      ensures forall k :: k in found ==> found[k] == rows[RowKeyOf(dateOf, k)]
    {
      found := map[];
      var i := 0;
      while i < |keys|
        invariant 0 <= i <= |keys|
        invariant forall k :: k in found <==> k in keys[..i] && RowKeyOf(dateOf, k) in rows
        invariant forall k :: k in found ==> found[k] == rows[RowKeyOf(dateOf, k)]
      {
        var row := RowKeyOf(dateOf, keys[i]);
        assert keys[..i + 1] == keys[..i] + [keys[i]];
        if row in rows {
          found := found[keys[i] := rows[row]];
        }
        i := i + 1;
      }
      assert keys[..i] == keys;
    }
  }

  // ----- Rank -----

  /** A row the worker will serve: at least one feature, and a type that is text or absent. */
  predicate Usable(g: Option<Json>) {
    && g.Some? && g.value.Object? && "features" in g.value.fields
    && g.value.fields["features"].Array? && g.value.fields["features"].items != []
    && ("type" in g.value.fields ==> g.value.fields["type"].Str? || g.value.fields["type"].Null?)
  }

  datatype Rank = Unusable | Unstamped | Stamped(at: int)

  function RankOf(e: Entry): Rank {
    if !Usable(e.geometry) then Unusable else if e.tilesetAt.None? then Unstamped else Stamped(e.tilesetAt.value)
  }

  predicate Below(a: Rank, b: Rank) {
    match (a, b)
    case (Unusable, _) => !b.Unusable?
    case (Unstamped, _) => b.Stamped?
    case (Stamped(s), Stamped(t)) => s < t
    case _ => false
  }

  /** The test is never NULL, so `NOT` of it is never NULL either. */
  lemma UsableNeverUnknown(g: Option<Json>)
    ensures UsableSql(g) == Is(Usable(g))
  {
    var features := Member(g, "features");
    if Usable(g) {
      assert features == Some(g.value.fields["features"]);
    }
  }

  /** The guard is never NULL, and lets an entry replace a row exactly when it ranks above it. */
  lemma GuardIsRank(excluded: Entry, stored: Entry)
    ensures GuardSql(excluded, stored) == Is(Below(RankOf(stored), RankOf(excluded)))
  {
    hide UsableSql, Usable;
    UsableNeverUnknown(excluded.geometry);
    UsableNeverUnknown(stored.geometry);
  }

  // ----- What a key holds -----

  /** The entries put under a row, in order. */
  function Under(dateOf: string -> int, k: RowKey, puts: seq<Put>): seq<Entry> {
    if puts == [] then []
    else
      var n := |puts| - 1;
      Under(dateOf, k, puts[..n]) + (if RowKeyOf(dateOf, puts[n].key) == k then [puts[n].entry] else [])
  }

  /** `e` is the first of the entries that no other outranks. */
  ghost predicate FirstGreatest(entries: seq<Entry>, e: Entry) {
    exists i :: FirstGreatestAt(entries, i) && entries[i] == e
  }

  ghost predicate FirstGreatestAt(entries: seq<Entry>, i: int) {
    && 0 <= i < |entries|
    && (forall j :: 0 <= j < |entries| ==> !Below(RankOf(entries[i]), RankOf(entries[j])))
    && (forall j :: 0 <= j < i ==> Below(RankOf(entries[j]), RankOf(entries[i])))
  }

  lemma NextGreatest(entries: seq<Entry>, e: Entry, next: Entry)
    requires FirstGreatest(entries, e)
    ensures FirstGreatest(entries + [next], if Below(RankOf(e), RankOf(next)) then next else e)
  {
    hide RankOf;
    var i :| FirstGreatestAt(entries, i) && entries[i] == e;
    var longer := entries + [next];
    if Below(RankOf(e), RankOf(next)) {
      forall j | 0 <= j < |entries| ensures Below(RankOf(longer[j]), RankOf(next)) {
        assert !Below(RankOf(entries[i]), RankOf(entries[j]));
      }
      assert FirstGreatestAt(longer, |entries|);
    } else {
      assert FirstGreatestAt(longer, i);
    }
  }

  /** The entries a row has seen: what it held to begin with, then everything put under it. */
  function Seen(dateOf: string -> int, rows: map<RowKey, Entry>, k: RowKey, puts: seq<Put>): seq<Entry> {
    (if k in rows then [rows[k]] else []) + Under(dateOf, k, puts)
  }

  /** After any puts a key holds the first entry of greatest rank it has seen, and nothing if it saw none. */
  lemma {:induction false} HoldsFirstGreatest(dateOf: string -> int, rows: map<RowKey, Entry>, puts: seq<Put>, k: RowKey)
    ensures k in PutAll(dateOf, rows, puts) <==> Seen(dateOf, rows, k, puts) != []
    ensures k in PutAll(dateOf, rows, puts) ==> FirstGreatest(Seen(dateOf, rows, k, puts), PutAll(dateOf, rows, puts)[k])
  {
    hide RankOf, GuardSql, RowKeyOf, Below;
    var seen := Seen(dateOf, rows, k, puts);
    if puts == [] {
      if k in rows {
        NotBelowSelf(rows[k]);
        assert FirstGreatestAt(seen, 0);
      }
    } else {
      var n := |puts| - 1;
      var before, p := PutAll(dateOf, rows, puts[..n]), puts[n];
      HoldsFirstGreatest(dateOf, rows, puts[..n], k);
      if RowKeyOf(dateOf, p.key) == k {
        assert seen == Seen(dateOf, rows, k, puts[..n]) + [p.entry];
        hide Seen, Under, FirstGreatest;
        if k in before {
          GuardIsRank(p.entry, before[k]);
          NextGreatest(Seen(dateOf, rows, k, puts[..n]), before[k], p.entry);
        } else {
          OnlyOne(p.entry);
          assert seen == [p.entry];
        }
      } else {
        assert seen == Seen(dateOf, rows, k, puts[..n]);
      }
    }
  }

  lemma NotBelowSelf(e: Entry)
    ensures !Below(RankOf(e), RankOf(e))
  {
    hide Usable;
  }

  lemma OnlyOne(e: Entry)
    ensures FirstGreatest([e], e)
  {
    NotBelowSelf(e);
    hide RankOf, Below;
    assert FirstGreatestAt([e], 0);
  }

  /** Rows are never dropped, and the rank under a key never falls. */
  lemma RankNeverFalls(dateOf: string -> int, rows: map<RowKey, Entry>, puts: seq<Put>, k: RowKey)
    requires k in rows
    ensures k in PutAll(dateOf, rows, puts) && !Below(RankOf(PutAll(dateOf, rows, puts)[k]), RankOf(rows[k]))
  {
    hide RankOf, Below, PutAll, Under;
    HoldsFirstGreatest(dateOf, rows, puts, k);
    var seen := Seen(dateOf, rows, k, puts);
    var i :| FirstGreatestAt(seen, i) && seen[i] == PutAll(dateOf, rows, puts)[k];
    assert seen[0] == rows[k];
  }

  lemma {:induction false} UnderElements(dateOf: string -> int, k: RowKey, puts: seq<Put>, e: Entry)
    ensures e in Under(dateOf, k, puts) <==> exists p :: p in puts && RowKeyOf(dateOf, p.key) == k && p.entry == e
  {
    hide RowKeyOf;
    if puts != [] {
      var n := |puts| - 1;
      UnderElements(dateOf, k, puts[..n], e);
      assert puts == puts[..n] + [puts[n]];
    }
  }

  lemma SameRank(a: Entry, b: Entry)
    requires !Below(RankOf(a), RankOf(b)) && !Below(RankOf(b), RankOf(a))
    ensures RankOf(a) == RankOf(b)
  {
    hide Usable;
  }

  /** The greatest of one list is matched by the other when they have the same elements. */
  lemma GreatestAgree(a: seq<Entry>, b: seq<Entry>, e: Entry, f: Entry)
    requires FirstGreatest(a, e) && FirstGreatest(b, f)
    requires forall x :: x in a <==> x in b
    ensures RankOf(e) == RankOf(f)
  {
    hide RankOf, Below;
    var i :| FirstGreatestAt(a, i) && a[i] == e;
    var j :| FirstGreatestAt(b, j) && b[j] == f;
    assert a[i] in b && b[j] in a;
    SameRank(e, f);
  }

  /** Putting the same entries in another order, or some of them twice, leaves the same keys at the same ranks. */
  lemma RankOrderIndependent(dateOf: string -> int, rows: map<RowKey, Entry>, puts: seq<Put>, puts': seq<Put>, k: RowKey)
    requires forall p :: p in puts <==> p in puts'
    ensures k in PutAll(dateOf, rows, puts) <==> k in PutAll(dateOf, rows, puts')
    ensures k in PutAll(dateOf, rows, puts) ==>
              RankOf(PutAll(dateOf, rows, puts)[k]) == RankOf(PutAll(dateOf, rows, puts')[k])
  {
    hide RankOf, PutAll, Under, FirstGreatest, RowKeyOf;
    HoldsFirstGreatest(dateOf, rows, puts, k);
    HoldsFirstGreatest(dateOf, rows, puts', k);
    var seen, seen' := Seen(dateOf, rows, k, puts), Seen(dateOf, rows, k, puts');
    forall e ensures e in seen <==> e in seen' {
      UnderElements(dateOf, k, puts, e);
      UnderElements(dateOf, k, puts', e);
    }
    if seen != [] {
      assert seen[0] in seen';
    }
    if seen' != [] {
      assert seen'[0] in seen;
    }
    if seen != [] {
      GreatestAgree(seen, seen', PutAll(dateOf, rows, puts)[k], PutAll(dateOf, rows, puts')[k]);
    }
  }

  /** What was put can be read back, unless its key already held something at least as good. */
  lemma PutIsServed(dateOf: string -> int, rows: map<RowKey, Entry>, puts: seq<Put>, p: Put)
    requires p in puts
    ensures var k := RowKeyOf(dateOf, p.key);
            k in PutAll(dateOf, rows, puts) && !Below(RankOf(PutAll(dateOf, rows, puts)[k]), RankOf(p.entry))
  {
    hide RankOf, PutAll, Under, RowKeyOf, Below;
    var k := RowKeyOf(dateOf, p.key);
    UnderElements(dateOf, k, puts, p.entry);
    HoldsFirstGreatest(dateOf, rows, puts, k);
    var seen := Seen(dateOf, rows, k, puts);
    assert p.entry in seen;
    var i :| FirstGreatestAt(seen, i) && seen[i] == PutAll(dateOf, rows, puts)[k];
  }

  // ----- What one put does -----

  /**
   A put fills an empty row. It replaces a row only with a geometry that can be served, and then only if the
   stored one cannot be, or has no stamp while the new one has, or has an earlier one. A geometry can be served
   when it is an object whose features are a list with at least one entry and whose type, if any, is text or null.
   */
  lemma PutReplaces(dateOf: string -> int, rows: map<RowKey, Entry>, p: Put)
    ensures var k, rows' := RowKeyOf(dateOf, p.key), PutOne(dateOf, rows, p);
            var served := (g: Option<Json>) =>
              && g.Some? && g.value.Object? && "features" in g.value.fields
              && g.value.fields["features"].Array? && |g.value.fields["features"].items| >= 1
              && ("type" in g.value.fields ==> g.value.fields["type"].Str? || g.value.fields["type"].Null?);
            if k !in rows then rows' == rows[k := p.entry]
            else
              var was, now := rows[k], p.entry;
              if served(now.geometry) &&
                 (!served(was.geometry)
                  || (now.tilesetAt.Some? && (was.tilesetAt.None? || was.tilesetAt.value < now.tilesetAt.value)))
              then rows' == rows[k := now] else rows' == rows
  {
    var k := RowKeyOf(dateOf, p.key);
    if k in rows {
      GuardIsRank(p.entry, rows[k]);
    }
    hide GuardSql, RowKeyOf;
  }
}
