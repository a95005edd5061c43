/** In-place sorting by a strict total order, and the uniqueness of its result. */
module Sorting {
  import opened Sequences

  ghost predicate StrictOrder<T(!new)>(less: (T, T) -> bool) {
    && (forall x :: !less(x, x))
    && (forall x, y, z :: less(x, y) && less(y, z) ==> less(x, z))
    && (forall x, y :: x != y ==> less(x, y) || less(y, x))
  }

  ghost predicate Sorted<T>(s: seq<T>, less: (T, T) -> bool) {
    forall i, j :: 0 <= i < j < |s| ==> !less(s[j], s[i])
  }

  /** A list has at most one sorted permutation, whatever algorithm finds it. */
  lemma {:induction false} SortedUnique<T(!new)>(a: seq<T>, b: seq<T>, less: (T, T) -> bool)
    requires StrictOrder(less) && Sorted(a, less) && Sorted(b, less) && multiset(a) == multiset(b)
    ensures a == b
    decreases |a|
  {
    hide StrictOrder, Sorted;
    SameLength(a, b);
    if a != [] {
      SameFirst(a, b, less);
      SameTail(a, b);
      TailSorted(a, less);
      TailSorted(b, less);
      SortedUnique(a[1..], b[1..], less);
      assert a == [a[0]] + a[1..] && b == [b[0]] + b[1..];
    }
  }

  lemma SameFirst<T(!new)>(a: seq<T>, b: seq<T>, less: (T, T) -> bool)
    requires StrictOrder(less) && Sorted(a, less) && Sorted(b, less) && multiset(a) == multiset(b)
    requires a != [] && b != []
    ensures a[0] == b[0]
  {
    assert a[0] in multiset(b) && b[0] in multiset(a);
    var i :| 0 <= i < |b| && b[i] == a[0];
    var j :| 0 <= j < |a| && a[j] == b[0];
    assert i == 0 || !less(b[i], b[0]);
    assert j == 0 || !less(a[j], a[0]);
  }

  lemma TailSorted<T>(a: seq<T>, less: (T, T) -> bool)
    requires a != [] && Sorted(a, less)
    ensures Sorted(a[1..], less)
  {
  }

  lemma Asymmetric<T(!new)>(less: (T, T) -> bool, x: T, y: T)
    requires StrictOrder(less) && less(x, y)
    ensures !less(y, x)
  {
  }

  lemma NotLessTransitive<T(!new)>(less: (T, T) -> bool, x: T, y: T, z: T)
    requires StrictOrder(less) && !less(x, y) && !less(y, z)
    ensures !less(x, z)
  {
  }

  /** Insertion sort. */
  method Sort<T(!new)>(a: array<T>, less: (T, T) -> bool)
    requires StrictOrder(less)
    modifies a
    ensures Sorted(a[..], less) && multiset(a[..]) == multiset(old(a[..]))
  {
    for i := 0 to a.Length
      invariant Sorted(a[..i], less)
      invariant multiset(a[..]) == multiset(old(a[..]))
    {
      Sink(a, i, less);
    }
    assert a[..a.Length] == a[..];
  }

  /** Moves element i down to its place in the sorted part before it. */
  method Sink<T(!new)>(a: array<T>, i: nat, less: (T, T) -> bool)
    requires StrictOrder(less) && i < a.Length && Sorted(a[..i], less)
    modifies a
    ensures Sorted(a[..i + 1], less) && multiset(a[..]) == multiset(old(a[..]))
  {
    hide StrictOrder, Sorted, Sinking;
    var j := i;
    SinkingStarts(a[..], i, less);
    while j > 0 && less(a[j], a[j - 1])
      invariant 0 <= j <= i && Sinking(a[..], j, i, less)
      invariant multiset(a[..]) == multiset(old(a[..]))
    {
      ghost var s := a[..];
      a[j], a[j - 1] := a[j - 1], a[j];
      assert a[..] == s[j := s[j - 1]][j - 1 := s[j]];
      SinkingStep(s, j, i, less);
      j := j - 1;
    }
    SinkingEnds(a[..], j, i, less);
    assert a[..][..i + 1] == a[..i + 1];
  }

  /** Up to i the elements are in order, but for the one at j, which may still have to move down. */
  ghost predicate Sinking<T>(s: seq<T>, j: nat, i: nat, less: (T, T) -> bool) {
    j <= i < |s| && forall p, q :: 0 <= p < q <= i && q != j ==> !less(s[q], s[p])
  }

  lemma SinkingStarts<T(!new)>(s: seq<T>, i: nat, less: (T, T) -> bool)
    requires i < |s| && Sorted(s[..i], less)
    ensures Sinking(s, i, i, less)
  {
    forall p, q | 0 <= p < q < i ensures !less(s[q], s[p]) { assert s[..i][p] == s[p] && s[..i][q] == s[q]; }
  }

  lemma SinkingStep<T(!new)>(s: seq<T>, j: nat, i: nat, less: (T, T) -> bool)
    requires StrictOrder(less) && 0 < j && Sinking(s, j, i, less) && less(s[j], s[j - 1])
    ensures Sinking(s[j := s[j - 1]][j - 1 := s[j]], j - 1, i, less)
    ensures multiset(s[j := s[j - 1]][j - 1 := s[j]]) == multiset(s)
  {
    Asymmetric(less, s[j], s[j - 1]);
  }

  lemma SinkingEnds<T(!new)>(s: seq<T>, j: nat, i: nat, less: (T, T) -> bool)
    requires StrictOrder(less) && Sinking(s, j, i, less) && (j == 0 || !less(s[j], s[j - 1]))
    ensures Sorted(s[..i + 1], less)
  {
    hide StrictOrder;
    forall p | 0 <= p < j ensures !less(s[j], s[p]) {
      if p < j - 1 { NotLessTransitive(less, s[j], s[j - 1], s[p]); }
    }
  }
}
