/**
 The order check a stop list passes before it is stored (internal/transit/snap.go,
 `FirstChainageOrderFault`), and what it buys when the stops are projected: the spans join the
 stops that the author put next to each other.
 */
module ChainageOrder {
  import opened Sorting
  import opened Spans

  ghost predicate Increasing(c: seq<real>) {
    forall i, j :: 0 <= i < j < |c| ==> c[i] <= c[j]
  }

  ghost predicate Decreasing(c: seq<real>) {
    forall i, j :: 0 <= i < j < |c| ==> c[j] <= c[i]
  }

  datatype Fault = NoFault | FaultAt(index: nat, backwards: bool)

  /**
   No fault exactly when the chainages run one way; otherwise the first pair that turns back, and
   whether the stops before it ran backwards along the route.
   */
  method FirstChainageOrderFault(c: seq<real>) returns (fault: Fault)
    ensures fault.NoFault? <==> Increasing(c) || Decreasing(c)
    ensures fault.FaultAt? ==>
              var i := fault.index;
              && i + 1 < |c|
              && (Increasing(c[..i + 1]) || Decreasing(c[..i + 1]))
              && !Increasing(c[..i + 2]) && !Decreasing(c[..i + 2])
              && (fault.backwards <==> Decreasing(c[..i + 1]))
              && (fault.backwards <==> c[i] < c[i + 1])
  {
    hide Increasing, Decreasing, RisesUpTo, FallsUpTo;
    var direction, i := 0, 0;
    ghost var turn := 0;
    FirstUpTo(c);
    while i < |c| - 1
      invariant 0 <= i && (i == 0 || i < |c|)
      invariant direction == 0 || direction == 1 || direction == -1
      invariant direction == 0 ==> RisesUpTo(c, i) && FallsUpTo(c, i)
      invariant direction > 0 ==> 0 <= turn < i < |c| && c[turn] < c[i] && RisesUpTo(c, i)
      invariant direction < 0 ==> 0 <= turn < i < |c| && c[i] < c[turn] && FallsUpTo(c, i)
    {
      var delta := c[i + 1] - c[i];
      NextUpTo(c, i);
      if delta == 0.0 {
      } else if direction == 0 {
        turn := i;
        direction := if delta > 0.0 then 1 else -1;
      } else if (delta > 0.0) != (direction > 0) {
        if direction > 0 { TurnsDown(c, turn, i); } else { TurnsUp(c, turn, i); }
        return FaultAt(i, direction < 0);
      }
      i := i + 1;
    }
    if c == [] {
      EmptyRises(c);
    } else {
      assert c[..i + 1] == c;
      UpTo(c, i);
    }
    return NoFault;
  }

  ghost predicate RisesUpTo(c: seq<real>, i: nat) {
    forall j, k :: 0 <= j < k <= i && k < |c| ==> c[j] <= c[k]
  }

  ghost predicate FallsUpTo(c: seq<real>, i: nat) {
    forall j, k :: 0 <= j < k <= i && k < |c| ==> c[k] <= c[j]
  }

  lemma UpTo(c: seq<real>, i: nat)
    requires i < |c|
    ensures RisesUpTo(c, i) ==> Increasing(c[..i + 1])
    ensures FallsUpTo(c, i) ==> Decreasing(c[..i + 1])
  {
  }

  lemma EmptyRises(c: seq<real>)
    requires c == []
    ensures Increasing(c)
  {
  }

  lemma FirstUpTo(c: seq<real>)
    ensures RisesUpTo(c, 0) && FallsUpTo(c, 0)
  {
  }

  lemma NextUpTo(c: seq<real>, i: nat)
    requires i + 1 < |c|
    ensures RisesUpTo(c, i) && c[i] <= c[i + 1] ==> RisesUpTo(c, i + 1)
    ensures FallsUpTo(c, i) && c[i + 1] <= c[i] ==> FallsUpTo(c, i + 1)
  {
  }

  /** Chainages that rose and now fall. */
  lemma TurnsDown(c: seq<real>, turn: nat, i: nat)
    requires turn < i && i + 1 < |c| && c[turn] < c[i] && c[i + 1] < c[i] && RisesUpTo(c, i)
    ensures Increasing(c[..i + 1]) && !Decreasing(c[..i + 1])
    ensures !Increasing(c[..i + 2]) && !Decreasing(c[..i + 2]) && !Increasing(c) && !Decreasing(c)
  {
    UpTo(c, i);
    var head, prefix := c[..i + 1], c[..i + 2];
    assert head[turn] < head[i];
    assert prefix[turn] < prefix[i] && prefix[i + 1] < prefix[i];
  }

  /** Chainages that fell and now rise. */
  lemma TurnsUp(c: seq<real>, turn: nat, i: nat)
    requires turn < i && i + 1 < |c| && c[i] < c[turn] && c[i] < c[i + 1] && FallsUpTo(c, i)
    ensures Decreasing(c[..i + 1]) && !Increasing(c[..i + 1])
    ensures !Increasing(c[..i + 2]) && !Decreasing(c[..i + 2]) && !Increasing(c) && !Decreasing(c)
  {
    UpTo(c, i);
    var head, prefix := c[..i + 1], c[..i + 2];
    assert head[i] < head[turn];
    assert prefix[i] < prefix[turn] && prefix[i] < prefix[i + 1];
  }

  // ----- Projecting ordered stops -----

  function ChainagesOf(stops: seq<SnappedStop>): (c: seq<real>)
    ensures |c| == |stops|
    ensures forall i :: 0 <= i < |stops| ==> c[i] == stops[i].chainageM
  {
    seq(|stops|, i requires 0 <= i < |stops| => stops[i].chainageM)
  }

  ghost predicate StrictlyDecreasing(stops: seq<SnappedStop>) {
    forall i, j :: 0 <= i < j < |stops| ==> stops[j].chainageM < stops[i].chainageM
  }

  ghost predicate DistinctStops(stops: seq<SnappedStop>) {
    forall i, j :: 0 <= i < j < |stops| ==> stops[i] != stops[j]
  }

  /** Stops authored along the route, ties included, are projected in the authored order. */
  lemma IncreasingKeepsOrder(stops: seq<SnappedStop>)
    ensures Increasing(ChainagesOf(stops)) <==> StableSort(stops, Before) == stops
  {
    var c := ChainagesOf(stops);
    if Increasing(c) {
      forall i, j | 0 <= i < j < |stops| ensures !Before(stops[j], stops[i]) {
        assert c[i] <= c[j];
      }
      StableSortIdentity(stops, Before);
    }
    if StableSort(stops, Before) == stops {
      BeforeIsWeakOrder();
      StableSortSorted(stops, Before);
      forall i, j | 0 <= i < j < |c| ensures c[i] <= c[j] {
        assert !Before(stops[j], stops[i]);
      }
    }
  }

  /**
   Stops authored against the route come out exactly reversed if and only if no two share a chainage:
   a tie keeps its authored order and so is joined the wrong way round.
   */
  lemma DecreasingReversesOrder(stops: seq<SnappedStop>)
    requires DistinctStops(stops)
    ensures StableSort(stops, Before) == Reversed(stops) <==> StrictlyDecreasing(stops)
  {
    if StrictlyDecreasing(stops) {
      DescendingIsReversed(stops, Before);
    }
    if StableSort(stops, Before) == Reversed(stops) {
      ReversedIsDescending(stops, Before);
      forall i, j | 0 <= i < j < |stops| ensures stops[j].chainageM < stops[i].chainageM {
        assert Before(stops[j], stops[i]);
      }
    }
  }

  /**
   A list that passes the check with no tied chainages is joined neighbour to neighbour: every span
   joins two stops the author put next to each other, all in order or all reversed.
   */
  lemma CheckedStopsKeepNeighbours(segs: seq<LineSegment>, stops: seq<SnappedStop>)
    requires stops != []
    requires forall i, j :: 0 <= i < j < |stops| ==> stops[i].chainageM != stops[j].chainageM
    requires Increasing(ChainagesOf(stops)) || Decreasing(ChainagesOf(stops))
    ensures || SpansOf(segs, StableSort(stops, Before)) == SpansOf(segs, stops)
            || SpansOf(segs, StableSort(stops, Before)) == SpansOf(segs, Reversed(stops))
  {
    hide SpansOf, StableSort;
    if Increasing(ChainagesOf(stops)) {
      IncreasingKeepsOrder(stops);
    } else {
      var c := ChainagesOf(stops);
      forall i, j | 0 <= i < j < |stops| ensures stops[j].chainageM < stops[i].chainageM {
        assert c[j] <= c[i];
      }
      DecreasingReversesOrder(stops);
    }
  }

  /** Three stops against the route, two of them level: the span to the last stop leaves from the first. */
  lemma TiedStopsLoseNeighbours(segs: seq<LineSegment>, a: SnappedStop, b: SnappedStop, c: SnappedStop)
    requires c.chainageM < a.chainageM == b.chainageM
    ensures Decreasing(ChainagesOf([a, b, c]))
    ensures StableSort([a, b, c], Before) == [c, a, b]
    ensures SpansOf(segs, StableSort([a, b, c], Before))[0] == SpanBetween(segs, c, a)
  {
    hide SpanBetween, StableSort;
    TieKeepsOrder(a, b, c, Before);
  }
}
