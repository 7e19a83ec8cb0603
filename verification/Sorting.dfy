/**
 `sort.SliceStable` as an insertion sort, with what the models use of it: the result is a sorted
 permutation, it commutes with a projection of the elements, and when the order tells all elements
 apart it depends on nothing but which elements there are.
 */
module Sorting {

  /** `less` is a strict weak order, as `sort.SliceStable` requires. */
  ghost predicate WeakOrder<T(!new)>(less: (T, T) -> bool) {
    && (forall a, b :: less(a, b) ==> !less(b, a))
    && (forall a, b, c :: !less(b, a) && !less(c, b) ==> !less(c, a))
  }

  ghost predicate Sorted<T>(s: seq<T>, less: (T, T) -> bool) {
    forall i, j :: 0 <= i < j < |s| ==> !less(s[j], s[i])
  }

  /** The order tells any two elements of `s` at different places apart. */
  ghost predicate Discriminates<T>(s: seq<T>, less: (T, T) -> bool) {
    forall i, j :: 0 <= i < j < |s| ==> less(s[i], s[j]) || less(s[j], s[i])
  }

  function Insert<T>(x: T, s: seq<T>, less: (T, T) -> bool): (t: seq<T>)
    ensures |t| == |s| + 1
  {
    if s == [] then [x]
    else if less(s[0], x) then [s[0]] + Insert(x, s[1..], less)
    else [x] + s
  }

  lemma {:induction false} InsertPermutes<T>(x: T, s: seq<T>, less: (T, T) -> bool)
    ensures multiset(Insert(x, s, less)) == multiset(s) + multiset{x}
  {
    if s != [] && less(s[0], x) {
      InsertPermutes(x, s[1..], less);
      assert s == [s[0]] + s[1..];
    }
  }

  function StableSort<T>(s: seq<T>, less: (T, T) -> bool): (t: seq<T>)
    ensures |t| == |s|
  {
    if s == [] then [] else Insert(s[0], StableSort(s[1..], less), less)
  }

  lemma {:induction false} StableSortPermutes<T>(s: seq<T>, less: (T, T) -> bool)
    ensures multiset(StableSort(s, less)) == multiset(s)
  {
    if s != [] {
      StableSortPermutes(s[1..], less);
      InsertPermutes(s[0], StableSort(s[1..], less), less);
      assert s == [s[0]] + s[1..];
    }
  }

  lemma SortedElements<T>(s: seq<T>, less: (T, T) -> bool, x: T)
    ensures x in StableSort(s, less) <==> x in s
  {
    StableSortPermutes(s, less);
    hide StableSort;
    if x in s {
      SameElements(s, StableSort(s, less), x);
    }
    if x in StableSort(s, less) {
      SameElements(StableSort(s, less), s, x);
    }
  }

  lemma {:induction false} InsertSorted<T(!new)>(x: T, s: seq<T>, less: (T, T) -> bool)
    requires WeakOrder(less) && Sorted(s, less)
    ensures Sorted(Insert(x, s, less), less)
  {
    var t := Insert(x, s, less);
    if s == [] {
    } else if less(s[0], x) {
      var rest := Insert(x, s[1..], less);
      InsertSorted(x, s[1..], less);
      InsertPermutes(x, s[1..], less);
      forall j | 0 <= j < |rest| ensures !less(rest[j], s[0]) {
        assert rest[j] in multiset(rest);
        assert rest[j] in multiset(s[1..]) || rest[j] == x;
        if rest[j] != x {
          assert rest[j] in s[1..];
        }
      }
    } else {
      forall j | 0 <= j < |s| ensures !less(s[j], x) {
        assert j > 0 ==> !less(s[j], s[0]);
      }
    }
  }

  lemma {:induction false} StableSortSorted<T(!new)>(s: seq<T>, less: (T, T) -> bool)
    requires WeakOrder(less)
    ensures Sorted(StableSort(s, less), less)
  {
    if s != [] {
      StableSortSorted(s[1..], less);
      InsertSorted(s[0], StableSort(s[1..], less), less);
    }
  }

  /** A sequence that is already sorted is left as it is. */
  lemma {:induction false} StableSortIdentity<T>(s: seq<T>, less: (T, T) -> bool)
    requires Sorted(s, less)
    ensures StableSort(s, less) == s
  {
    if s != [] {
      StableSortIdentity(s[1..], less);
      assert |s| > 1 ==> s[1..][0] == s[1] && !less(s[1], s[0]);
      assert s == [s[0]] + s[1..];
    }
  }

  lemma SameElements<T>(s: seq<T>, t: seq<T>, x: T)
    requires multiset(s) == multiset(t) && x in s
    ensures x in t
  {
    assert x in multiset(s);
  }

  lemma HeadLeast<T>(s: seq<T>, x: T, less: (T, T) -> bool)
    requires Sorted(s, less) && x in s
    ensures x == s[0] || !less(x, s[0])
    ensures Discriminates(s, less) ==> x == s[0] || less(s[0], x)
  {
    var j :| 0 <= j < |s| && s[j] == x;
    if 0 < j {
      assert !less(s[j], s[0]);
    }
  }

  lemma SameHead<T>(s: seq<T>, t: seq<T>, less: (T, T) -> bool)
    requires Sorted(s, less) && Sorted(t, less) && Discriminates(s, less)
    requires multiset(s) == multiset(t) && s != [] && t != []
    ensures s[0] == t[0]
  {
    SameElements(s, t, s[0]);
    SameElements(t, s, t[0]);
    HeadLeast(s, t[0], less);
    HeadLeast(t, s[0], less);
  }

  /** Two sorted sequences of the same elements, told apart by the order, are the same sequence. */
  lemma TailsAgree<T>(s: seq<T>, t: seq<T>)
    requires s != [] && t != [] && s[0] == t[0] && multiset(s) == multiset(t)
    ensures multiset(s[1..]) == multiset(t[1..])
  {
    assert s == [s[0]] + s[1..] && t == [t[0]] + t[1..];
    assert multiset(s[1..]) == multiset(s) - multiset{s[0]} == multiset(t[1..]);
  }

  lemma {:induction false} SortedUnique<T>(s: seq<T>, t: seq<T>, less: (T, T) -> bool)
    requires Sorted(s, less) && Sorted(t, less) && Discriminates(s, less)
    requires multiset(s) == multiset(t)
    ensures s == t
  {
    assert |s| == |multiset(s)| == |multiset(t)| == |t|;
    if s != [] {
      SameHead(s, t, less);
      TailsAgree(s, t);
      SortedUnique(s[1..], t[1..], less);
      assert s == [s[0]] + s[1..] && t == [t[0]] + t[1..];
    }
  }

  lemma DiscriminatesSorted<T(!new)>(s: seq<T>, less: (T, T) -> bool)
    requires WeakOrder(less) && Discriminates(s, less)
    ensures Discriminates(StableSort(s, less), less)
  {
    StableSortPermutes(s, less);
    DiscriminatesPermuted(s, StableSort(s, less), less);
  }

  lemma DiscriminatesPermuted<T>(s: seq<T>, t: seq<T>, less: (T, T) -> bool)
    requires Discriminates(s, less) && multiset(s) == multiset(t)
    ensures Discriminates(t, less)
  {
    forall i, j | 0 <= i < j < |t| ensures less(t[i], t[j]) || less(t[j], t[i]) {
      if t[i] == t[j] {
        TwiceIn(t, i, j);
        var a, b := TwoPlaces(s, t[i]);
        assert less(s[a], s[b]);
      } else {
        SameElements(t, s, t[i]);
        SameElements(t, s, t[j]);
        var a :| 0 <= a < |s| && s[a] == t[i];
        var b :| 0 <= b < |s| && s[b] == t[j];
        if a < b {
          assert less(s[a], s[b]) || less(s[b], s[a]);
        } else {
          assert less(s[b], s[a]) || less(s[a], s[b]);
        }
      }
    }
  }

  lemma TwiceIn<T>(t: seq<T>, i: nat, j: nat)
    requires i < j < |t| && t[i] == t[j]
    ensures multiset(t)[t[i]] >= 2
  {
    assert t == t[..j] + [t[j]] + t[j + 1..];
    assert t[i] in t[..j];
    assert t[i] in multiset(t[..j]);
  }

  lemma {:induction false} TwoPlaces<T>(s: seq<T>, x: T) returns (a: nat, b: nat)
    requires multiset(s)[x] >= 2
    ensures a < b < |s| && s[a] == x && s[b] == x
  {
    assert s == [s[0]] + s[1..];
    if s[0] == x {
      assert x in multiset(s[1..]);
      assert x in s[1..];
      b :| 1 <= b < |s| && s[b] == x;
      a := 0;
    } else {
      a, b := TwoPlaces(s[1..], x);
      a, b := a + 1, b + 1;
    }
  }

  /** Sorting does not depend on the initial arrangement when the order tells all elements apart. */
  lemma StableSortPermuted<T(!new)>(s: seq<T>, t: seq<T>, less: (T, T) -> bool)
    requires WeakOrder(less) && Discriminates(s, less)
    requires multiset(s) == multiset(t)
    ensures StableSort(s, less) == StableSort(t, less)
  {
    StableSortSorted(s, less);
    StableSortSorted(t, less);
    DiscriminatesSorted(s, less);
    StableSortPermutes(s, less);
    StableSortPermutes(t, less);
    SortedUnique(StableSort(s, less), StableSort(t, less), less);
  }

  // ----- One element more -----

  /** `s` with `x` put in at place `q`. */
  function With<T>(s: seq<T>, q: nat, x: T): (t: seq<T>)
    requires q <= |s|
    ensures |t| == |s| + 1 && t[q] == x
  {
    s[..q] + [x] + s[q..]
  }

  lemma WithTail<T>(s: seq<T>, q: nat, x: T)
    requires 0 < q <= |s|
    ensures With(s, q, x)[0] == s[0] && With(s, q, x)[1..] == With(s[1..], q - 1, x)
  {
    assert s[1..][..q - 1] == s[1..q];
  }

  lemma {:induction false} InsertWith<T(!new)>(h: T, s: seq<T>, q: nat, x: T, less: (T, T) -> bool) returns (q': nat)
    requires WeakOrder(less) && q <= |s| && Sorted(With(s, q, x), less)
    ensures q' <= |s| + 1 && Insert(h, With(s, q, x), less) == With(Insert(h, s, less), q', x)
  {
    hide With, WeakOrder, Sorted;
    var t := With(s, q, x);
    if q == 0 {
      q' := InsertAhead(h, s, x, less);
    } else {
      WithTail(s, q, x);
      if less(s[0], h) {
        SortedRest(t, less);
        q' := InsertWith(h, s[1..], q - 1, x, less);
        q' := q' + 1;
        WithTail(Insert(h, s, less), q', x);
        SplitHead(Insert(h, t, less), With(Insert(h, s, less), q', x));
      } else {
        q' := q + 1;
        WithTail([h] + s, q', x);
        assert ([h] + s)[1..] == s;
        SplitHead([h] + t, With([h] + s, q', x));
      }
    }
  }

  lemma SortedRest<T>(s: seq<T>, less: (T, T) -> bool)
    requires Sorted(s, less) && s != []
    ensures Sorted(s[1..], less)
  {
  }

  lemma SplitHead<T>(s: seq<T>, t: seq<T>)
    requires s != [] && t != [] && s[0] == t[0] && s[1..] == t[1..]
    ensures s == t
  {
    assert s == [s[0]] + s[1..] && t == [t[0]] + t[1..];
  }

  lemma InsertAhead<T(!new)>(h: T, s: seq<T>, x: T, less: (T, T) -> bool) returns (q': nat)
    requires WeakOrder(less) && Sorted(With(s, 0, x), less)
    ensures q' <= |s| + 1 && Insert(h, With(s, 0, x), less) == With(Insert(h, s, less), q', x)
  {
    var t := With(s, 0, x);
    assert t == [x] + s && t[1..] == s;
    if less(x, h) {
      q' := 0;
      assert With(Insert(h, s, less), 0, x) == [x] + Insert(h, s, less);
    } else {
      q' := 1;
      if s != [] {
        assert t[1] == s[0] && !less(t[1], t[0]);
      }
      assert Insert(h, s, less) == [h] + s;
      assert With([h] + s, 1, x) == [h] + ([x] + s);
    }
  }

  /** Sorting one element more puts it somewhere among the sorted others. */
  lemma {:induction false} StableSortWith<T(!new)>(s: seq<T>, p: nat, x: T, less: (T, T) -> bool) returns (q: nat)
    requires WeakOrder(less) && p <= |s|
    ensures q <= |s| && StableSort(With(s, p, x), less) == With(StableSort(s, less), q, x)
  {
    hide Insert;
    if p == 0 {
      assert With(s, 0, x)[1..] == s;
      q := InsertedAt(x, StableSort(s, less), less);
    } else {
      WithTail(s, p, x);
      q := StableSortWith(s[1..], p - 1, x, less);
      StableSortSorted(With(s[1..], p - 1, x), less);
      q := InsertWith(s[0], StableSort(s[1..], less), q, x, less);
    }
  }

  lemma {:induction false} InsertedAt<T>(x: T, s: seq<T>, less: (T, T) -> bool) returns (q: nat)
    ensures q <= |s| && Insert(x, s, less) == With(s, q, x)
  {
    q := 0;
    if s != [] && less(s[0], x) {
      q := InsertedAt(x, s[1..], less);
      q := q + 1;
      WithTail(s, q, x);
    }
  }

  // ----- Projections -----

  function Map<S, T>(f: S -> T, s: seq<S>): (t: seq<T>)
    ensures |t| == |s|
    ensures forall i :: 0 <= i < |s| ==> t[i] == f(s[i])
  {
    seq(|s|, i requires 0 <= i < |s| => f(s[i]))
  }

  ghost predicate Respects<S(!new), T>(f: S -> T, lessS: (S, S) -> bool, lessT: (T, T) -> bool) {
    forall a, b :: lessS(a, b) == lessT(f(a), f(b))
  }

  lemma {:induction false} InsertMap<S(!new), T>(f: S -> T, x: S, s: seq<S>, lessS: (S, S) -> bool, lessT: (T, T) -> bool)
    requires Respects(f, lessS, lessT)
    ensures Map(f, Insert(x, s, lessS)) == Insert(f(x), Map(f, s), lessT)
  {
    if s != [] {
      assert lessS(s[0], x) == lessT(f(s[0]), f(x));
      hide Respects;
      assert Map(f, s)[0] == f(s[0]) && Map(f, s)[1..] == Map(f, s[1..]);
      if lessS(s[0], x) {
        InsertMap(f, x, s[1..], lessS, lessT);
        assert Map(f, Insert(x, s, lessS)) == [f(s[0])] + Map(f, Insert(x, s[1..], lessS));
      }
    }
  }

  /** Projecting the elements commutes with sorting when the order looks only at the projection. */
  lemma {:induction false} StableSortMap<S(!new), T>(f: S -> T, s: seq<S>, lessS: (S, S) -> bool, lessT: (T, T) -> bool)
    requires Respects(f, lessS, lessT)
    ensures Map(f, StableSort(s, lessS)) == StableSort(Map(f, s), lessT)
  {
    if s != [] {
      hide Respects, Insert;
      StableSortMap(f, s[1..], lessS, lessT);
      assert Map(f, s)[1..] == Map(f, s[1..]);
      InsertMap(f, s[0], StableSort(s[1..], lessS), lessS, lessT);
    }
  }

  // ----- Reversal -----

  function Reversed<T>(s: seq<T>): (t: seq<T>)
    ensures |t| == |s|
    ensures forall i :: 0 <= i < |s| ==> t[i] == s[|s| - 1 - i]
  {
    seq(|s|, i requires 0 <= i < |s| => s[|s| - 1 - i])
  }

  ghost predicate Descending<T>(s: seq<T>, less: (T, T) -> bool) {
    forall i, j :: 0 <= i < j < |s| ==> less(s[j], s[i])
  }

  lemma {:induction false} InsertAtEnd<T>(x: T, s: seq<T>, less: (T, T) -> bool)
    requires forall i :: 0 <= i < |s| ==> less(s[i], x)
    ensures Insert(x, s, less) == s + [x]
  {
    if s != [] {
      InsertAtEnd(x, s[1..], less);
      assert s + [x] == [s[0]] + (s[1..] + [x]);
    }
  }

  lemma ReversedTail<T>(s: seq<T>)
    requires s != []
    ensures Reversed(s) == Reversed(s[1..]) + [s[0]]
  {
  }

  /** A strictly descending sequence is sorted into its reversal. */
  lemma {:induction false} DescendingIsReversed<T>(s: seq<T>, less: (T, T) -> bool)
    requires Descending(s, less)
    ensures StableSort(s, less) == Reversed(s)
  {
    if s != [] {
      DescendingIsReversed(s[1..], less);
      ReversedTail(s);
      InsertAtEnd(s[0], Reversed(s[1..]), less);
    }
  }

  lemma {:induction false} EndsWithInserted<T>(x: T, s: seq<T>, less: (T, T) -> bool)
    requires x !in s && Insert(x, s, less)[|s|] == x
    ensures Insert(x, s, less) == s + [x]
    ensures forall i :: 0 <= i < |s| ==> less(s[i], x)
  {
    if s != [] {
      assert less(s[0], x) by {
        assert s[|s| - 1] in s;
      }
      EndsWithInserted(x, s[1..], less);
      assert s == [s[0]] + s[1..];
    }
  }

  /** Only a strictly descending sequence of distinct elements is sorted into its reversal. */
  lemma {:induction false} ReversedIsDescending<T>(s: seq<T>, less: (T, T) -> bool)
    requires forall i, j :: 0 <= i < j < |s| ==> s[i] != s[j]
    requires StableSort(s, less) == Reversed(s)
    ensures Descending(s, less)
  {
    if s != [] {
      var x, rest := s[0], s[1..];
      var sorted := StableSort(rest, less);
      NotAmongSorted(x, rest, less);
      ReversedTail(s);
      assert Insert(x, sorted, less) == Reversed(rest) + [x];
      hide Insert, StableSort, Reversed;
      EndsWithInserted(x, sorted, less);
      SameInit(sorted, Reversed(rest), x);
      ReversedIsDescending(rest, less);
      forall j | 0 < j < |s| ensures less(s[j], x) {
        assert s[j] == sorted[|rest| - j];
      }
    }
  }

  lemma SameInit<T>(s: seq<T>, t: seq<T>, x: T)
    requires s + [x] == t + [x]
    ensures s == t
  {
    assert s == (s + [x])[..|s|];
  }

  lemma NotAmongSorted<T>(x: T, s: seq<T>, less: (T, T) -> bool)
    requires x !in s
    ensures x !in StableSort(s, less)
  {
    SortedElements(s, less, x);
  }

  /** A tie keeps its place in the input, so a descending list with a tie is not simply reversed. */
  lemma TieKeepsOrder<T>(a: T, b: T, c: T, less: (T, T) -> bool)
    requires less(c, a) && less(c, b) && !less(b, a)
    ensures StableSort([a, b, c], less) == [c, a, b]
  {
    assert [a, b, c][1..] == [b, c];
    assert [b, c][1..] == [c] && [c][1..] == [];
    assert StableSort([c], less) == Insert(c, [], less) == [c];
    assert StableSort([b, c], less) == Insert(b, [c], less) == [c, b];
    assert [c, b][1..] == [b];
    assert Insert(a, [b], less) == [a, b];
  }
}
