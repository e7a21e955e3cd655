/** The bar list shared by every sorting algorithm of the visualizer: the
    heights, the highlighted ("evaluated") index, and the observable events a
    sort emits (one redraw per paced step, one sound tick per placement).

    The heights are `float`s in the program but are only ever compared and
    copied, so they are modelled as `int`. */
module Bars {

  /** The `_isSorting` flag as the sorter observes it: `flag(t)` is its value
      after `t` paced steps (redraw + delay) of the current session. The flag
      is written by the UI thread while the sorter waits, so it is an oracle. */
  type Flag = nat -> bool

  /** The run is never cancelled: every poll of `_isSorting` reads true. */
  ghost predicate NeverCleared(flag: Flag)
  {
    forall t: nat :: flag(t)
  }

  /** From step `T` on, every poll of `_isSorting` reads false: the flag was
      cleared (by Reset) and not set again. */
  ghost predicate ClearedFrom(flag: Flag, T: nat)
  {
    forall t: nat :: T <= t ==> !flag(t)
  }

  /** Each of the steps `from .. to-1` began right after a poll of
      `_isSorting` that read true: no step follows a poll that read false. */
  ghost predicate PolledTrue(flag: Flag, from: nat, to: nat)
  {
    forall t: nat :: from <= t < to ==> flag(t)
  }

  /** A run that went from step `from` to step `to` ends at most `k` steps
      after any clearing of the flag at or after `from`. */
  ghost predicate StopsWithin(flag: Flag, from: nat, to: nat, k: nat)
  {
    forall T: nat :: from <= T && ClearedFrom(flag, T) ==> to <= T + k
  }

  /** Steps that each began with a true poll end as soon as the flag is
      cleared. */
  lemma PolledStops(flag: Flag, from: nat, to: nat)
    requires PolledTrue(flag, from, to)
    ensures StopsWithin(flag, from, to, 0)
  {
    forall T: nat | from <= T && ClearedFrom(flag, T)
      ensures to <= T
    {
      assert !flag(T);
    }
  }

  /** Steps that each began with a true poll, followed by one step taken
      without polling, end within one step of a clearing. */
  lemma PolledThenOneStep(flag: Flag, from: nat, to: nat)
    requires PolledTrue(flag, from, to)
    ensures StopsWithin(flag, from, to + 1, 1)
  {
    PolledStops(flag, from, to);
  }

  /** A run entered through a true poll at step `c` that ends within `k`
      steps of a clearing from `c` on also does so for a clearing from any
      earlier `c0`: no clearing before `c` is for good. */
  lemma StopsAfterPoll(flag: Flag, c0: nat, c: nat, to: nat, k: nat)
    requires c0 <= c && flag(c)
    requires StopsWithin(flag, c, to, k)
    ensures StopsWithin(flag, c0, to, k)
  {
    forall T: nat | c0 <= T && ClearedFrom(flag, T)
      ensures to <= T + k
    {
      assert c <= T;
    }
  }

  /** A run from `c0` that took no step, or whose last step, of at most
      `k + 1` ticks, began with a true poll at `c`, ends within `k` steps of
      a clearing from `c0` on. */
  lemma PolledStep(flag: Flag, c0: nat, c: nat, to: nat, k: nat)
    requires to == c0 || (c0 <= c && flag(c) && to <= c + k + 1)
    ensures StopsWithin(flag, c0, to, k)
  {
    if to != c0 {
      forall T: nat | c0 <= T && ClearedFrom(flag, T)
        ensures to <= T + k
      {
        assert c < T;
      }
    }
  }

  /** Two runs of true-polled steps, one after the other, are one. */
  lemma PolledJoin(flag: Flag, a: nat, b: nat, c: nat)
    requires a <= b <= c
    requires PolledTrue(flag, a, b) && PolledTrue(flag, b, c)
    ensures PolledTrue(flag, a, c)
  {
  }

  /** `_evaluatedIndex` is either -1 (nothing highlighted) or a bar index. */
  predicate EvalOk(e: int, n: int)
  {
    e == -1 || 0 <= e < n
  }

  /** Every highlighted index shown by a redraw was -1 or a bar index. */
  predicate TraceOk(trace: seq<int>, n: int)
  {
    forall k :: 0 <= k < |trace| ==> EvalOk(trace[k], n)
  }

  /** The visualizer's bar state.
      - `heights`: the `_heights` list;
      - `evaluated`: `_evaluatedIndex`;
      - `redraws`: for every paced step so far, the evaluated index at the
        redraw that preceded its delay (its length is the step clock);
      - `sounds`: number of sound ticks requested so far. */
  datatype Board = Board(heights: seq<int>, evaluated: int, redraws: seq<int>, sounds: nat)
  {
    predicate Valid()
    {
      EvalOk(evaluated, |heights|) && TraceOk(redraws, |heights|)
    }

    /** Number of paced steps taken so far; indexes the `Flag` oracle. */
    function Clock(): nat
    {
      |redraws|
    }
  }

  /** Sound ticks requested by one placement step: none while muted. */
  function Tick(muted: bool): nat
  {
    if muted then 0 else 1
  }

  /** Positions `[lo, hi)` of `s` are in non-decreasing order. */
  predicate SortedRange(s: seq<int>, lo: int, hi: int)
  {
    forall p, q :: 0 <= lo <= p < q < hi <= |s| ==> s[p] <= s[q]
  }

  predicate Sorted(s: seq<int>)
  {
    SortedRange(s, 0, |s|)
  }

  /** Every value in `s[..m]` is at most every value in `s[m..]`. */
  predicate Partitioned(s: seq<int>, m: int)
  {
    forall p, q :: 0 <= p < m <= q < |s| ==> s[p] <= s[q]
  }

  /** Rearranging the values below `m` keeps a partition at `m`: every
      value below `m` still comes from below `m`. */
  lemma PrefixPermutationKeepsPartition(s: seq<int>, t: seq<int>, m: nat)
    requires |t| == |s| && m <= |s|
    requires multiset(t) == multiset(s)
    requires forall k :: m <= k < |s| ==> t[k] == s[k]
    requires Partitioned(s, m)
    ensures Partitioned(t, m)
  {
    assert t[m..] == s[m..];
    SameSuffixSamePrefixMultiset(s, t, m);
    forall p, q | 0 <= p < m <= q < |t|
      ensures t[p] <= t[q]
    {
      assert t[p] in multiset(s[..m]) by {
        assert t[p] == t[..m][p];
      }
      var p' :| 0 <= p' < m && s[..m][p'] == t[p];
      assert s[p'] <= s[q];
    }
  }

  /** Two permutations of each other that agree from `m` on are
      permutations of each other below `m`. */
  lemma SameSuffixSamePrefixMultiset(s: seq<int>, t: seq<int>, m: nat)
    requires |t| == |s| && m <= |s|
    requires multiset(t) == multiset(s) && t[m..] == s[m..]
    ensures multiset(t[..m]) == multiset(s[..m])
  {
    assert s == s[..m] + s[m..] && t == t[..m] + t[m..];
    assert multiset(t) == multiset(t[..m]) + multiset(t[m..]);
    assert multiset(s) == multiset(s[..m]) + multiset(s[m..]);
    assert multiset(t[..m]) == multiset(t) - multiset(t[m..]);
    assert multiset(s[..m]) == multiset(s) - multiset(s[m..]);
  }

  /** Exchange of two list slots, as `BarContainer` does it with a `temp` variable. */
  function Swap(s: seq<int>, i: nat, j: nat): (r: seq<int>)
    requires i < |s| && j < |s|
    ensures |r| == |s|
    ensures r[i] == s[j] && r[j] == s[i]
    ensures forall k :: 0 <= k < |s| && k != i && k != j ==> r[k] == s[k]
    ensures multiset(r) == multiset(s)
  {
    s[i := s[j]][j := s[i]]
  }

  /** The head of a non-empty sorted list is at most each of its values. */
  lemma SortedHeadIsLeast(x: seq<int>, v: int)
    requires Sorted(x) && |x| > 0 && v in multiset(x)
    ensures x[0] <= v
  {
    var i :| 0 <= i < |x| && x[i] == v;
  }

  /** Dropping the head of a list drops one copy of it from its multiset. */
  lemma MultisetOfTail(x: seq<int>)
    requires |x| > 0
    ensures multiset(x[1..]) == multiset(x) - multiset{x[0]}
  {
    assert x == [x[0]] + x[1..];
  }

  /** A list made of a head and a tail holds the head once more than the tail. */
  lemma ConsMultiset(v: int, tail: seq<int>, s: seq<int>)
    requires s == [v] + tail
    ensures multiset(s) == multiset{v} + multiset(tail)
  {
  }

  /** A value at most every element of a sorted list can be put in front of it. */
  lemma ConsSorted(h: int, rest: seq<int>)
    requires Sorted(rest)
    requires forall k :: 0 <= k < |rest| ==> h <= rest[k]
    ensures Sorted([h] + rest)
  {
  }

  /** The tail of a sorted list is sorted. */
  lemma SortedTail(x: seq<int>)
    requires Sorted(x) && |x| > 0
    ensures Sorted(x[1..])
  {
    forall p, q | 0 <= p < q < |x| - 1
      ensures x[1..][p] <= x[1..][q]
    {
      assert x[1..][p] == x[p + 1] && x[1..][q] == x[q + 1];
    }
  }

  /** Two sorted non-empty lists with the same multiset start with the same
      value and continue with tails that have the same multiset. */
  lemma SortedSameHead(x: seq<int>, y: seq<int>)
    requires Sorted(x) && Sorted(y) && |x| > 0
    requires multiset(x) == multiset(y)
    ensures |y| > 0 && x[0] == y[0]
    ensures multiset(x[1..]) == multiset(y[1..])
  {
    assert |x| == |multiset(x)| == |multiset(y)| == |y|;
    SortedHeadIsLeast(x, y[0]);
    SortedHeadIsLeast(y, x[0]);
    MultisetOfTail(x);
    MultisetOfTail(y);
  }

  /** Two sorted lists with the same multiset of heights are the same list:
      a sort's result is fully determined by its input. */
  lemma {:induction false} SortedPermutationUnique(x: seq<int>, y: seq<int>)
    requires Sorted(x) && Sorted(y)
    requires multiset(x) == multiset(y)
    ensures x == y
    decreases |x|
  {
    if |x| == 0 {
      assert |y| == |multiset(y)| == 0;
    } else {
      SortedSameHead(x, y);
      SortedTail(x);
      SortedTail(y);
      SortedPermutationUnique(x[1..], y[1..]);
      assert x == [x[0]] + x[1..] && y == [y[0]] + y[1..];
    }
  }
}
