/**
 The two-way adjacency over calibrated segments (internal/transit/compile.go, `buildSegmentAdj`), walks
 over it, and why a path can be walked back over the very segments it came by.
 */
module SegmentGraph {
  import opened Collections
  import opened Sorting

  datatype SegmentTime = SegmentTime(fromSlug: string, toSlug: string, runSeconds: int, reverseRunSeconds: Option<int>)

  datatype SegEdge = SegEdge(to: string, seconds: int)

  type Adj = map<string, seq<SegEdge>>

  function ReverseSeconds(seg: SegmentTime): int {
    if seg.reverseRunSeconds.Some? then seg.reverseRunSeconds.value else seg.runSeconds
  }

  // ----- Building the adjacency -----

  /** A segment the build refuses: an unknown station, or an override that is not positive. */
  predicate Refused(stations: set<string>, seg: SegmentTime) {
    || seg.fromSlug !in stations
    || seg.toSlug !in stations
    || (seg.reverseRunSeconds.Some? && seg.reverseRunSeconds.value <= 0)
  }

  /** The entries of station `x`, in segment order. */
  function Entries(segs: seq<SegmentTime>, x: string): seq<SegEdge> {
    if segs == [] then []
    else
      var seg := segs[|segs| - 1];
      Entries(segs[..|segs| - 1], x)
      + (if seg.fromSlug == x then [SegEdge(seg.toSlug, seg.runSeconds)] else [])
      + (if seg.toSlug == x then [SegEdge(seg.fromSlug, ReverseSeconds(seg))] else [])
  }

  function From(adj: Adj, x: string): seq<SegEdge> {
    if x in adj then adj[x] else []
  }

  function Append(adj: Adj, x: string, e: SegEdge): (longer: Adj)
    ensures forall y :: From(longer, y) == if y == x then From(adj, y) + [e] else From(adj, y)
  {
    adj[x := From(adj, x) + [e]]
  }

  lemma EntriesSnoc(segs: seq<SegmentTime>, i: nat, before: Adj, after: Adj)
    requires i < |segs|
    requires Represents(before, segs[..i])
    requires after == Append(Append(before, segs[i].fromSlug, SegEdge(segs[i].toSlug, segs[i].runSeconds)),
                             segs[i].toSlug, SegEdge(segs[i].fromSlug, ReverseSeconds(segs[i])))
    ensures Represents(after, segs[..i + 1])
  {
    hide Append, From;
    assert segs[..i + 1][..i] == segs[..i];
    forall x ensures From(after, x) == Entries(segs[..i + 1], x) {
      assert From(before, x) == Entries(segs[..i], x);
    }
  }

  lemma NothingBuilt(segs: seq<SegmentTime>)
    ensures Represents(map[], segs[..0])
  {
  }

  method BuildSegmentAdj(segs: seq<SegmentTime>, stations: set<string>) returns (adj: Option<Adj>)
    ensures adj.None? <==> exists i :: 0 <= i < |segs| && Refused(stations, segs[i])
    ensures adj.None? <==> exists seg :: seg in segs && (seg.fromSlug !in stations || seg.toSlug !in stations
                                           || (seg.reverseRunSeconds.Some? && seg.reverseRunSeconds.value <= 0))
    ensures adj.Some? ==> Represents(adj.value, segs)
  {
    var built: Adj, i := map[], 0;
    NothingBuilt(segs);
    hide Entries, From, Append, Represents;
    while i < |segs|
      invariant 0 <= i <= |segs|
      invariant forall k :: 0 <= k < i ==> !Refused(stations, segs[k])
      invariant Represents(built, segs[..i])
    {
      var seg := segs[i];
      if Refused(stations, seg) {
        assert seg in segs;
        return None;
      }
      ghost var before := built;
      built := Append(built, seg.fromSlug, SegEdge(seg.toSlug, seg.runSeconds));
      built := Append(built, seg.toSlug, SegEdge(seg.fromSlug, ReverseSeconds(seg)));
      EntriesSnoc(segs, i, before, built);
      i := i + 1;
    }
    assert segs[..i] == segs;
    return Some(built);
  }

  // ----- Walks and their run time -----

  /** The index of the first entry that leads to `to`, or the number of entries. */
  function FirstTo(es: seq<SegEdge>, to: string): (k: nat)
    ensures k <= |es|
    ensures k < |es| ==> es[k].to == to
    ensures forall j :: 0 <= j < k ==> es[j].to != to
  {
    if es == [] || es[0].to == to then 0 else 1 + FirstTo(es[1..], to)
  }

  predicate Hop(adj: Adj, a: string, b: string) {
    FirstTo(From(adj, a), b) < |From(adj, a)|
  }

  ghost predicate Walk(adj: Adj, p: seq<string>) {
    && p != []
    && forall i, j :: 0 <= i < |p| && j == i + 1 && j < |p| ==> Hop(adj, p[i], p[j])
  }

  ghost predicate WalkBetween(adj: Adj, p: seq<string>, a: string, b: string) {
    Walk(adj, p) && p[0] == a && p[|p| - 1] == b
  }

  ghost predicate Reachable(adj: Adj, a: string, b: string) {
    exists p :: WalkBetween(adj, p, a, b)
  }

  /** What `pathRunSeconds` adds for one hop: the first entry's time, or nothing. */
  function HopSeconds(adj: Adj, a: string, b: string): int {
    var es := From(adj, a);
    var k := FirstTo(es, b);
    if k < |es| then es[k].seconds else 0
  }

  function WalkSeconds(adj: Adj, p: seq<string>): int {
    if |p| < 2 then 0
    else WalkSeconds(adj, p[..|p| - 1]) + HopSeconds(adj, p[|p| - 2], p[|p| - 1])
  }

  method PathRunSeconds(adj: Adj, path: seq<string>) returns (secs: int)
    ensures secs == WalkSeconds(adj, path)
  {
    secs := 0;
    var i := 0;
    while i + 1 < |path|
      invariant 0 <= i && (i == 0 || i < |path|)
      invariant i < |path| ==> secs == WalkSeconds(adj, path[..i + 1])
      invariant path == [] ==> secs == 0
    {
      var es, k := From(adj, path[i]), 0;
      while k < |es| && es[k].to != path[i + 1]
        invariant 0 <= k <= |es|
        invariant forall j :: 0 <= j < k ==> es[j].to != path[i + 1]
      {
        k := k + 1;
      }
      if k < |es| {
        secs := secs + es[k].seconds;
      }
      assert path[..i + 2][..i + 1] == path[..i + 1];
      i := i + 1;
    }
    assert path != [] ==> path[..i + 1] == path;
  }

  method ReversePath(path: seq<string>) returns (out: seq<string>)
    ensures out == Reversed(path)
  {
    var a := new string[|path|](_ => "");
    var i := 0;
    while i < |path|
      invariant 0 <= i <= |path|
      invariant forall k :: 0 <= k < i ==> a[|path| - 1 - k] == path[k]
    {
      a[|path| - 1 - i] := path[i];
      i := i + 1;
    }
    out := a[..];
  }

  // ----- The same segment both ways -----

  predicate Joins(seg: SegmentTime, x: string, y: string) {
    (seg.fromSlug == x && seg.toSlug == y) || (seg.fromSlug == y && seg.toSlug == x)
  }

  /** The first segment that joins two stations, or the number of segments. */
  function FirstJoin(segs: seq<SegmentTime>, x: string, y: string): (k: nat)
    ensures k <= |segs|
    ensures k < |segs| ==> Joins(segs[k], x, y)
    ensures forall j :: 0 <= j < k ==> !Joins(segs[j], x, y)
  {
    if segs == [] || Joins(segs[0], x, y) then 0 else 1 + FirstJoin(segs[1..], x, y)
  }

  /** The segment's time when entered from station `x`. */
  function SecondsFrom(seg: SegmentTime, x: string): int {
    if seg.fromSlug == x then seg.runSeconds else ReverseSeconds(seg)
  }

  lemma {:induction false} FirstToAppend(es: seq<SegEdge>, more: seq<SegEdge>, to: string)
    ensures var k := FirstTo(es, to);
            FirstTo(es + more, to) == if k < |es| then k else |es| + FirstTo(more, to)
  {
    if es == [] {
      assert es + more == more;
    } else {
      var all := es + more;
      assert all[0] == es[0] && all[1..] == es[1..] + more;
      if es[0].to != to {
        FirstToAppend(es[1..], more, to);
        assert FirstTo(all, to) == 1 + FirstTo(all[1..], to);
      }
    }
  }

  /** What segment `seg` appends to the entries of `x`. */
  function Appended(seg: SegmentTime, x: string): seq<SegEdge> {
    (if seg.fromSlug == x then [SegEdge(seg.toSlug, seg.runSeconds)] else [])
    + (if seg.toSlug == x then [SegEdge(seg.fromSlug, ReverseSeconds(seg))] else [])
  }

  lemma AppendedFirst(seg: SegmentTime, x: string, y: string)
    requires x != y
    ensures var es, k := Appended(seg, x), FirstTo(Appended(seg, x), y);
            if Joins(seg, x, y) then k < |es| && es[k].seconds == SecondsFrom(seg, x) else k == |es|
  {
    var es := Appended(seg, x);
    assert |es| <= 2;
  }

  /**
   The entry that leads from `x` to another station `y` was made by the first segment joining the two,
   and carries that segment's time in that direction. The same segment made the entry back.
   */
  lemma {:induction false} EntryOfFirstJoin(segs: seq<SegmentTime>, x: string, y: string)
    requires x != y
    ensures var es, k, s := Entries(segs, x), FirstTo(Entries(segs, x), y), FirstJoin(segs, x, y);
            && (k < |es| <==> s < |segs|)
            && (s < |segs| ==> k < |es| && es[k].seconds == SecondsFrom(segs[s], x))
  {
    if segs != [] {
      var n := |segs| - 1;
      EntryOfFirstJoin(segs[..n], x, y);
      FirstToAppend(Entries(segs[..n], x), Appended(segs[n], x), y);
      AppendedFirst(segs[n], x, y);
      assert Entries(segs, x) == Entries(segs[..n], x) + Appended(segs[n], x);
      FirstJoinPrefix(segs, x, y);
    }
  }

  lemma FirstJoinPrefix(segs: seq<SegmentTime>, x: string, y: string)
    requires segs != []
    ensures var n := |segs| - 1;
            var s, t := FirstJoin(segs[..n], x, y), FirstJoin(segs, x, y);
            if s < n then t == s else t == if Joins(segs[n], x, y) then n else n + 1
  {
    var n := |segs| - 1;
    var s, t := FirstJoin(segs[..n], x, y), FirstJoin(segs, x, y);
    if t < n {
      assert Joins(segs[..n][t], x, y);
    }
    if s < n {
      assert Joins(segs[s], x, y);
    }
  }

  lemma SameFirstJoin(segs: seq<SegmentTime>, x: string, y: string)
    ensures FirstJoin(segs, x, y) == FirstJoin(segs, y, x)
  {
    var s, t := FirstJoin(segs, x, y), FirstJoin(segs, y, x);
    assert forall seg :: Joins(seg, x, y) == Joins(seg, y, x);
    assert !(s < t) && !(t < s);
  }

  ghost predicate Represents(adj: Adj, segs: seq<SegmentTime>) {
    forall x :: From(adj, x) == Entries(segs, x)
  }

  /** Every hop between two stations is walkable back, over the same segment. */
  lemma HopBothWays(adj: Adj, segs: seq<SegmentTime>, x: string, y: string)
    requires Represents(adj, segs) && x != y && Hop(adj, x, y)
    ensures Hop(adj, y, x)
    ensures var s := FirstJoin(segs, x, y);
            && s < |segs|
            && HopSeconds(adj, x, y) == SecondsFrom(segs[s], x)
            && HopSeconds(adj, y, x) == SecondsFrom(segs[s], y)
  {
    hide Entries, FirstTo, FirstJoin;
    EntryOfFirstJoin(segs, x, y);
    EntryOfFirstJoin(segs, y, x);
    SameFirstJoin(segs, x, y);
  }

  /** No station is followed by itself. */
  ghost predicate Steps(p: seq<string>) {
    forall i, j :: 0 <= i < |p| && j == i + 1 && j < |p| ==> p[i] != p[j]
  }

  /** The total time of a path's segments taken against their direction of travel. */
  ghost function BackwardSeconds(segs: seq<SegmentTime>, p: seq<string>): int {
    if |p| < 2 then 0
    else
      var x, y := p[|p| - 2], p[|p| - 1];
      var s := FirstJoin(segs, x, y);
      (if s < |segs| then SecondsFrom(segs[s], y) else 0) + BackwardSeconds(segs, p[..|p| - 1])
  }

  lemma {:induction false} WalkSecondsHead(adj: Adj, p: seq<string>)
    requires |p| >= 2
    ensures WalkSeconds(adj, p) == HopSeconds(adj, p[0], p[1]) + WalkSeconds(adj, p[1..])
  {
    hide HopSeconds;
    if |p| > 2 {
      var n := |p| - 1;
      WalkSecondsHead(adj, p[..n]);
      assert p[..n][1..] == p[1..][..n - 1];
    } else {
      assert WalkSeconds(adj, p[..1]) == 0 == WalkSeconds(adj, p[1..]);
    }
  }

  /** Walking a path back finds every hop and takes the time of the same segments the other way. */
  lemma {:induction false} WalkedBack(adj: Adj, segs: seq<SegmentTime>, p: seq<string>)
    requires Represents(adj, segs) && Walk(adj, p) && Steps(p)
    ensures Walk(adj, Reversed(p))
    ensures WalkSeconds(adj, Reversed(p)) == BackwardSeconds(segs, p)
  {
    hide HopSeconds, Hop, Represents, FirstJoin, Reversed, SecondsFrom;
    var r := Reversed(p);
    forall i, j | 0 <= i < |r| && j == i + 1 && j < |r| ensures Hop(adj, r[i], r[j]) {
      var a, b := |p| - 1 - j, |p| - 1 - i;
      assert Hop(adj, p[a], p[b]) && p[a] != p[b];
      HopBothWays(adj, segs, p[a], p[b]);
    }
    if |p| >= 2 {
      var n := |p| - 1;
      assert Hop(adj, p[n - 1], p[n]) && p[n - 1] != p[n];
      HopBothWays(adj, segs, p[n - 1], p[n]);
      WalkedBack(adj, segs, p[..n]);
      WalkSecondsHead(adj, r);
      assert r[1..] == Reversed(p[..n]);
    }
  }

  /** No segment that the path runs over overrides its reverse time. */
  ghost predicate NoOverrides(segs: seq<SegmentTime>, p: seq<string>) {
    forall i, j :: 0 <= i < |p| && j == i + 1 && j < |p| ==>
      var k := FirstJoin(segs, p[i], p[j]); k < |segs| ==> segs[k].reverseRunSeconds.None?
  }

  /** With no override on the segments used, the run back takes exactly as long as the run out. */
  lemma SameTimeBothWays(adj: Adj, segs: seq<SegmentTime>, p: seq<string>)
    requires Represents(adj, segs) && Walk(adj, p) && Steps(p) && NoOverrides(segs, p)
    ensures WalkSeconds(adj, Reversed(p)) == WalkSeconds(adj, p)
  {
    WalkedBack(adj, segs, p);
    BackwardWithoutOverrides(adj, segs, p);
  }

  lemma NoOverridesParts(segs: seq<SegmentTime>, p: seq<string>)
    requires NoOverrides(segs, p) && |p| >= 2
    ensures NoOverrides(segs, p[..|p| - 1])
    ensures var k := FirstJoin(segs, p[|p| - 2], p[|p| - 1]); k < |segs| ==> segs[k].reverseRunSeconds.None?
  {
    hide FirstJoin;
    var q := p[..|p| - 1];
    forall i, j | 0 <= i < |q| && j == i + 1 && j < |q|
      ensures var k := FirstJoin(segs, q[i], q[j]); k < |segs| ==> segs[k].reverseRunSeconds.None?
    {
      assert q[i] == p[i] && q[j] == p[j];
    }
  }

  lemma {:induction false} BackwardWithoutOverrides(adj: Adj, segs: seq<SegmentTime>, p: seq<string>)
    requires Represents(adj, segs) && Walk(adj, p) && Steps(p) && NoOverrides(segs, p)
    ensures BackwardSeconds(segs, p) == WalkSeconds(adj, p)
  {
    hide HopSeconds, Hop, Represents, FirstJoin, NoOverrides;
    if |p| >= 2 {
      var n := |p| - 1;
      assert Hop(adj, p[n - 1], p[n]) && p[n - 1] != p[n];
      HopBothWays(adj, segs, p[n - 1], p[n]);
      NoOverridesParts(segs, p);
      BackwardWithoutOverrides(adj, segs, p[..n]);
    }
  }
}
