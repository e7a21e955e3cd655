/** A reference sort, independent of the visualizer's four algorithms: a
    functional insertion sort. Every algorithm that runs to completion
    produces exactly its result. */
module Reference {
  import opened Bars

  /** Put `v` in front of the first value of `s` that is not smaller. */
  function Insert(v: int, s: seq<int>): (r: seq<int>)
    ensures |r| == |s| + 1
  {
    if |s| == 0 || v <= s[0] then [v] + s
    else [s[0]] + Insert(v, s[1..])
  }

  function SortSeq(s: seq<int>): (r: seq<int>)
    ensures |r| == |s|
  {
    if |s| == 0 then [] else Insert(s[0], SortSeq(s[1..]))
  }

  /** Inserting adds exactly one copy of `v`. */
  lemma {:induction false} InsertPermutation(v: int, s: seq<int>)
    ensures multiset(Insert(v, s)) == multiset{v} + multiset(s)
  {
    if |s| > 0 && v > s[0] {
      InsertPermutation(v, s[1..]);
      ConsMultiset(s[0], Insert(v, s[1..]), Insert(v, s));
      ConsMultiset(s[0], s[1..], s);
    }
  }

  /** A lower bound of `v` and of `s` is a lower bound of the insertion. */
  lemma InsertBound(lo: int, v: int, s: seq<int>)
    requires lo <= v
    requires forall k :: 0 <= k < |s| ==> lo <= s[k]
    ensures forall k :: 0 <= k < |Insert(v, s)| ==> lo <= Insert(v, s)[k]
  {
    var r := Insert(v, s);
    InsertPermutation(v, s);
    forall k | 0 <= k < |r|
      ensures lo <= r[k]
    {
      assert r[k] in multiset(r);
      assert r[k] == v || r[k] in multiset(s);
    }
  }

  /** Inserting into a sorted list keeps it sorted. */
  lemma {:induction false} InsertSorted(v: int, s: seq<int>)
    requires Sorted(s)
    ensures Sorted(Insert(v, s))
  {
    if |s| == 0 || v <= s[0] {
      ConsSorted(v, s);
    } else {
      SortedTail(s);
      InsertSorted(v, s[1..]);
      InsertBound(s[0], v, s[1..]);
      ConsSorted(s[0], Insert(v, s[1..]));
    }
  }

  /** The reference result is a sorted permutation of its input ... */
  lemma {:induction false} SortSeqSortedPermutation(s: seq<int>)
    ensures Sorted(SortSeq(s))
    ensures multiset(SortSeq(s)) == multiset(s)
  {
    if |s| > 0 {
      SortSeqSortedPermutation(s[1..]);
      InsertSorted(s[0], SortSeq(s[1..]));
      InsertPermutation(s[0], SortSeq(s[1..]));
      ConsMultiset(s[0], s[1..], s);
    }
  }

  /** ... and the only one: any sorted permutation of `s` is `SortSeq(s)`. */
  lemma SortedPermutationIsReference(s: seq<int>, r: seq<int>)
    requires Sorted(r) && multiset(r) == multiset(s)
    ensures r == SortSeq(s)
  {
    SortSeqSortedPermutation(s);
    SortedPermutationUnique(r, SortSeq(s));
  }
}
