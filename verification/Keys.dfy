/**
 The orders the validators keep lists in. Policies and dynamic blocks are sorted by several components, but
 the loops compare one string that joins them with NUL; on components without NUL the two orders agree.
 */
module Keys {
  import opened Text
  import opened Sorting

  type Pair = (string, string)
  type Triple = (string, string, string)

  predicate LessPair(a: Pair, b: Pair) {
    Less(a.0, b.0) || (a.0 == b.0 && Less(a.1, b.1))
  }

  predicate LessTriple(a: Triple, b: Triple) {
    Less(a.0, b.0) || (a.0 == b.0 && LessPair((a.1, a.2), (b.1, b.2)))
  }

  function PairKey(p: Pair): string {
    Join(p.0, p.1)
  }

  function TripleKey(t: Triple): string {
    Join(t.0, Join(t.1, t.2))
  }

  lemma PairKeyOrder(a: Pair, b: Pair)
    requires '\0' !in a.0 && '\0' !in b.0
    ensures Less(PairKey(a), PairKey(b)) <==> LessPair(a, b)
  {
    JoinOrder(a.0, a.1, b.0, b.1);
  }

  lemma TripleKeyOrder(a: Triple, b: Triple)
    requires '\0' !in a.0 && '\0' !in b.0 && '\0' !in a.1 && '\0' !in b.1
    ensures Less(TripleKey(a), TripleKey(b)) <==> LessTriple(a, b)
  {
    JoinOrder(a.0, Join(a.1, a.2), b.0, Join(b.1, b.2));
    JoinOrder(a.1, a.2, b.1, b.2);
  }

  /** A strict order in which any two different elements are comparable. */
  ghost predicate TotalOrder<T(!new)>(less: (T, T) -> bool) {
    StrictWeakOrder(less) && forall x, y :: less(x, y) || x == y || less(y, x)
  }

  lemma StringsOrdered()
    ensures TotalOrder(Less)
  {
    forall a: string, b: string
      ensures (Less(a, b) || a == b || Less(b, a)) && !(Less(a, b) && Less(b, a)) && !Less(a, a)
    {
      LessTotal(a, b);
    }
    forall a: string, b: string, c: string | Less(a, b) && Less(b, c)
      ensures Less(a, c)
    {
      LessTransitive(a, b, c);
    }
  }

  lemma PairsOrdered()
    ensures TotalOrder(LessPair)
  {
    StringsOrdered();
    forall a: Pair, b: Pair
      ensures LessPair(a, b) || a == b || LessPair(b, a)
      ensures !LessPair(a, a) && !(LessPair(a, b) && LessPair(b, a))
    {
    }
    forall a: Pair, b: Pair, c: Pair | LessPair(a, b) && LessPair(b, c)
      ensures LessPair(a, c)
    {
    }
  }

  lemma TriplesOrdered()
    ensures TotalOrder(LessTriple)
  {
    StringsOrdered();
    PairsOrdered();
    forall a: Triple, b: Triple
      ensures LessTriple(a, b) || a == b || LessTriple(b, a)
      ensures !LessTriple(a, a) && !(LessTriple(a, b) && LessTriple(b, a))
    {
    }
    forall a: Triple, b: Triple, c: Triple | LessTriple(a, b) && LessTriple(b, c)
      ensures LessTriple(a, c)
    {
    }
  }

  /** Comparing neighbours, as the loops do, sorts the whole list and leaves no duplicate. */
  lemma {:induction false} NeighboursSort<T(!new)>(s: seq<T>, less: (T, T) -> bool)
    requires StrictWeakOrder(less)
    ensures StrictlySorted(s, less) <==> forall k :: 0 < k < |s| ==> less(s[k - 1], s[k])
  {
    if forall k :: 0 < k < |s| ==> less(s[k - 1], s[k]) {
      forall i, j | 0 <= i < j < |s|
        ensures less(s[i], s[j])
      {
        NeighboursReach(s, less, i, j);
      }
    }
  }

  lemma NeighboursSortStrings(s: seq<string>)
    ensures StrictlySorted(s, Less) <==> forall k :: 0 < k < |s| ==> Less(s[k - 1], s[k])
  {
    StringsOrdered();
    NeighboursSort(s, Less);
  }

  lemma {:induction false} NeighboursReach<T(!new)>(s: seq<T>, less: (T, T) -> bool, i: nat, j: nat)
    requires StrictWeakOrder(less) && forall k :: 0 < k < |s| ==> less(s[k - 1], s[k])
    requires i < j < |s|
    ensures less(s[i], s[j])
  {
    assert less(s[j - 1], s[j]);
    if i < j - 1 { NeighboursReach(s, less, i, j - 1); }
  }
}
