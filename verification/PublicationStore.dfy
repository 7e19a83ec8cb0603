/**
 The publication table as an object (internal/persistence/postgres/publication.go): the upsert and the
 idempotent delete, each proved to be the step of the same name in `IndexWalk`. The page query is
 `Publications.ListPublishedServiceSummaries`.
 */
module PublicationStore {
  import opened Publications
  import opened IndexWalk

  lemma {:induction false} UpsertFound(rows: seq<Row>, slug: string, content: string, now: int, i: nat)
    requires i < |rows| && rows[i].slug == slug
    requires forall k :: 0 <= k < i ==> rows[k].slug != slug
    ensures Upsert(rows, slug, content, now) == rows[i := rows[i].(publishedAt := now, content := content)]
  {
    if i > 0 {
      UpsertFound(rows[1..], slug, content, now, i - 1);
    }
  }

  lemma {:induction false} UpsertMissing(rows: seq<Row>, slug: string, content: string, now: int)
    requires forall k :: 0 <= k < |rows| ==> rows[k].slug != slug
    ensures Upsert(rows, slug, content, now) == rows + [Row(slug, now, now, content)]
  {
    if rows != [] {
      UpsertMissing(rows[1..], slug, content, now);
    }
  }

  class Repo {
    var now: int
    var rows: seq<Row>

    /** Updates the row in conflict, which keeps its first publish time, or inserts a new one. */
    method UpsertPublication(slug: string, content: string)
      modifies this`rows
      ensures rows == Upsert(old(rows), slug, content, now)
    {
      hide Upsert;
      var i := 0;
      while i < |rows|
        invariant 0 <= i <= |rows| && rows == old(rows)
        invariant forall k :: 0 <= k < i ==> rows[k].slug != slug
      {
        if rows[i].slug == slug {
          UpsertFound(rows, slug, content, now, i);
          rows := rows[i := rows[i].(publishedAt := now, content := content)];
          return;
        }
        i := i + 1;
      }
      UpsertMissing(rows, slug, content, now);
      rows := rows + [Row(slug, now, now, content)];
    }

    /** Succeeds whether or not there is anything to delete. */
    method UnpublishUserService(slug: string)
      modifies this`rows
      ensures rows == Remove(old(rows), slug)
    {
      var kept, i := [], 0;
      while i < |rows|
        invariant 0 <= i <= |rows| && rows == old(rows)
        invariant Remove(rows, slug) == kept + Remove(rows[i..], slug)
      {
        assert rows[i..][1..] == rows[i + 1..];
        if rows[i].slug != slug {
          kept := kept + [rows[i]];
        }
        i := i + 1;
      }
      rows := kept;
    }
  }
}
