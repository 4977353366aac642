/** Go's `sort.Slice`, and what sorted permutations are determined by. */
module Sorting {

  ghost predicate StrictWeakOrder<T(!new)>(less: (T, T) -> bool) {
    && (forall x :: !less(x, x))
    && (forall x, y, z :: less(x, y) && less(y, z) ==> less(x, z))
    && (forall x, y, z :: !less(x, y) && !less(y, z) ==> !less(x, z))
  }

  ghost predicate Sorted<T>(s: seq<T>, less: (T, T) -> bool) {
    forall i, j :: 0 <= i < j < |s| ==> !less(s[j], s[i])
  }

  ghost predicate StrictlySorted<T>(s: seq<T>, less: (T, T) -> bool) {
    forall i, j :: 0 <= i < j < |s| ==> less(s[i], s[j])
  }

  /** The first `n` elements are in order, and the next one has sunk to `j` among them. */
  ghost predicate Sinking<T>(s: seq<T>, n: nat, j: nat, less: (T, T) -> bool) {
    && j <= n < |s|
    && (forall p, q :: 0 <= p < q <= n && q != j ==> !less(s[q], s[p]))
    && (forall q :: j < q <= n ==> less(s[j], s[q]))
  }

  lemma SinkStart<T(!new)>(s: seq<T>, n: nat, less: (T, T) -> bool)
    requires n < |s| && Sorted(s[..n], less)
    ensures Sinking(s, n, n, less)
  {
    forall p, q | 0 <= p < q < n
      ensures !less(s[q], s[p])
    {
      assert s[..n][p] == s[p] && s[..n][q] == s[q];
    }
  }

  lemma SinkStep<T(!new)>(s: seq<T>, n: nat, j: nat, less: (T, T) -> bool)
    requires StrictWeakOrder(less) && Sinking(s, n, j, less) && j > 0 && less(s[j], s[j - 1])
    ensures Sinking(s[j := s[j - 1]][j - 1 := s[j]], n, j - 1, less)
  {
    var next := s[j := s[j - 1]][j - 1 := s[j]];
    assert !less(s[j - 1], s[j]);
    assert forall i :: 0 <= i < |s| && i != j && i != j - 1 ==> next[i] == s[i];
  }

  lemma SinkDone<T(!new)>(s: seq<T>, n: nat, j: nat, less: (T, T) -> bool)
    requires StrictWeakOrder(less) && Sinking(s, n, j, less) && (j == 0 || !less(s[j], s[j - 1]))
    ensures Sorted(s[..n + 1], less)
  {
    forall p, q | 0 <= p < q <= n
      ensures !less(s[q], s[p])
    {
      if q == j && p < j - 1 { assert !less(s[j], s[j - 1]) && !less(s[j - 1], s[p]); }
    }
  }

  /** `sort.Slice`: some permutation in order. The algorithm, and what it does with equal elements, are not promised. */
  method SortSlice<T(!new)>(a: array<T>, less: (T, T) -> bool)
    requires StrictWeakOrder(less)
    modifies a
    ensures Sorted(a[..], less) && multiset(a[..]) == multiset(old(a[..]))
  {
    assert Sorted(a[..0], less);
    hide StrictWeakOrder, Sorted, Sinking;
    for n := 0 to a.Length
      invariant Sorted(a[..n], less) && multiset(a[..]) == multiset(old(a[..]))
    {
      var j := n;
      assert a[..][..n] == a[..n];
      SinkStart(a[..], n, less);
      while j > 0 && less(a[j], a[j - 1])
        invariant 0 <= j <= n && Sinking(a[..], n, j, less)
        invariant multiset(a[..]) == multiset(old(a[..]))
      {
        ghost var before := a[..];
        SinkStep(before, n, j, less);
        a[j], a[j - 1] := a[j - 1], a[j];
        assert a[..] == before[j := before[j - 1]][j - 1 := before[j]];
        j := j - 1;
      }
      SinkDone(a[..], n, j, less);
      assert a[..][..n + 1] == a[..n + 1];
    }
    assert a[..] == a[..a.Length];
  }

  function Map<T, U>(s: seq<T>, f: T -> U): (r: seq<U>)
    ensures |r| == |s| && forall i :: 0 <= i < |s| ==> r[i] == f(s[i])
  {
    seq(|s|, i requires 0 <= i < |s| => f(s[i]))
  }

  lemma MapConcat<T, U>(a: seq<T>, b: seq<T>, f: T -> U)
    ensures Map(a + b, f) == Map(a, f) + Map(b, f)
  {
  }

  lemma TakeOut<T>(s: seq<T>, x: T) returns (front: seq<T>, back: seq<T>)
    requires x in multiset(s)
    ensures s == front + ([x] + back) && multiset(front + back) == multiset(s) - multiset{x}
  {
    var k :| 0 <= k < |s| && s[k] == x;
    front, back := s[..k], s[k + 1..];
    assert s == front + ([x] + back);
    assert multiset(s) == multiset(front) + (multiset{x} + multiset(back));
  }

  lemma MapTakenOut<T, U>(front: seq<T>, x: T, back: seq<T>, f: T -> U)
    ensures multiset(Map(front + ([x] + back), f)) == multiset(Map(front + back, f)) + multiset{f(x)}
  {
    MapConcat(front, [x] + back, f);
    MapConcat([x], back, f);
    MapConcat(front, back, f);
    assert Map([x], f) == [f(x)];
  }

  /** Permuting before mapping is permuting after. */
  lemma {:induction false} MapPermutes<T, U>(a: seq<T>, b: seq<T>, f: T -> U)
    requires multiset(a) == multiset(b)
    ensures multiset(Map(a, f)) == multiset(Map(b, f))
  {
    if a == [] {
      assert |multiset(b)| == 0;
    } else {
      assert a[0] in multiset(a);
      var front, back := TakeOut(b, a[0]);
      assert a == [] + ([a[0]] + a[1..]);
      assert multiset(a) == multiset{a[0]} + multiset(a[1..]);
      MapPermutes(a[1..], front + back, f);
      MapTakenOut([], a[0], a[1..], f);
      MapTakenOut(front, a[0], back, f);
      assert [] + a[1..] == a[1..];
    }
  }

  /** A strictly sorted sequence is determined by its elements. */
  lemma {:induction false} StrictlySortedUnique<T(!new)>(a: seq<T>, b: seq<T>, less: (T, T) -> bool)
    requires StrictWeakOrder(less) && StrictlySorted(a, less) && StrictlySorted(b, less)
    requires multiset(a) == multiset(b)
    ensures a == b
  {
    hide StrictWeakOrder;
    assert |a| == |multiset(a)| == |multiset(b)| == |b|;
    if a != [] {
      FirstUnique(a, b, less);
      TailElements(a);
      TailElements(b);
      StrictlySortedUnique(a[1..], b[1..], less);
      assert a == [a[0]] + a[1..] && b == [b[0]] + b[1..];
    }
  }

  lemma TailElements<T>(s: seq<T>)
    requires s != []
    ensures multiset(s[1..]) == multiset(s) - multiset{s[0]}
  {
    assert s == [s[0]] + s[1..];
    assert multiset(s) == multiset{s[0]} + multiset(s[1..]);
  }

  lemma FirstUnique<T(!new)>(a: seq<T>, b: seq<T>, less: (T, T) -> bool)
    requires StrictWeakOrder(less) && StrictlySorted(a, less) && StrictlySorted(b, less)
    requires multiset(a) == multiset(b) && a != [] && b != []
    ensures a[0] == b[0]
  {
    assert a[0] in multiset(b) && b[0] in multiset(a);
    var j :| 0 <= j < |b| && b[j] == a[0];
    var i :| 0 <= i < |a| && a[i] == b[0];
  }

  ghost predicate Distinct<T>(s: seq<T>) {
    forall i, j :: 0 <= i < j < |s| ==> s[i] != s[j]
  }

  /** Distinctness does not depend on the order. */
  lemma {:induction false} DistinctPermutes<T>(a: seq<T>, b: seq<T>)
    requires multiset(a) == multiset(b) && Distinct(a)
    ensures Distinct(b)
  {
    forall i, j | 0 <= i < j < |b|
      ensures b[i] != b[j]
    {
      if b[i] == b[j] {
        assert b == b[..i] + [b[i]] + b[i + 1..j] + [b[j]] + b[j + 1..];
        assert multiset(b)[b[i]] >= 2;
        OnceEach(a, b[i]);
      }
    }
  }

  lemma {:induction false} OnceEach<T>(a: seq<T>, x: T)
    requires Distinct(a)
    ensures multiset(a)[x] <= 1
  {
    if a != [] {
      OnceEach(a[1..], x);
      assert a == [a[0]] + a[1..];
    }
  }
}
