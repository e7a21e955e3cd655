/** `BubbleSort`: adjacent compare-and-swap passes, each comparison one paced
    step and each swap one extra paced step with a sound tick. */
module Bubble {
  import opened Bars

  /** Compare neighbours `j` and `j+1` and exchange them when the left one is
      strictly greater. */
  function CompareSwap(a: seq<int>, j: nat): (r: seq<int>)
    requires j + 1 < |a|
    ensures |r| == |a|
    ensures multiset(r) == multiset(a)
    ensures forall k :: 0 <= k < |a| && k != j && k != j + 1 ==> r[k] == a[k]
    ensures r[j] <= r[j + 1]
    ensures r[j + 1] == if a[j] > a[j + 1] then a[j] else a[j + 1]
    ensures r[j] == if a[j] > a[j + 1] then a[j + 1] else a[j]
    ensures a[j] <= a[j + 1] ==> r == a
  {
    if a[j] > a[j + 1] then Swap(a, j, j + 1) else a
  }

  /** A compare-and-swap at `j` carries the largest value seen so far one
      slot to the right. */
  lemma CarryMax(a: seq<int>, j: nat)
    requires j + 1 < |a|
    requires forall p :: 0 <= p <= j ==> a[p] <= a[j]
    ensures forall p :: 0 <= p <= j + 1 ==> CompareSwap(a, j)[p] <= CompareSwap(a, j)[j + 1]
  {
  }

  /** One iteration of the inner loop: highlight `j` and compare-and-swap
      neighbours `j` and `j+1`. A swap is paced (with a sound tick) on its
      own, before the comparison's paced step. */
  method CompareStep(cur: Board, j: nat, muted: bool) returns (next: Board)
    requires cur.Valid()
    requires j + 1 < |cur.heights|
    ensures next.Valid()
    ensures next.heights == CompareSwap(cur.heights, j)
    ensures next.evaluated == j
    ensures cur.redraws <= next.redraws
    // every redraw of the step highlights `j`
    ensures forall k :: |cur.redraws| <= k < |next.redraws| ==> next.redraws[k] == j
    // a swap is a paced step of its own, with a sound tick ...
    ensures cur.heights[j] > cur.heights[j + 1] ==>
      |next.redraws| == |cur.redraws| + 2 && next.sounds == cur.sounds + Tick(muted)
    // ... and the comparison alone is one silent paced step
    ensures cur.heights[j] <= cur.heights[j + 1] ==>
      |next.redraws| == |cur.redraws| + 1 && next.sounds == cur.sounds
    // so, unmuted, each tick stands for one paced step beyond the comparison
    ensures cur.sounds <= next.sounds && (muted ==> next.sounds == cur.sounds)
    ensures !muted ==> |next.redraws| == |cur.redraws| + 1 + (next.sounds - cur.sounds)
  {
    var swapped := cur.heights[j] > cur.heights[j + 1];
    next := Board(CompareSwap(cur.heights, j), j,
                  cur.redraws + if swapped then [j, j] else [j],
                  cur.sounds + if swapped then Tick(muted) else 0);
  }

  /** One pass of the inner loop for outer index `i`: compares `j` and `j+1`
      for `j` in `[0, n-i-1)` while `_isSorting` holds, swapping on strict `>`. */
  method BubblePass(b: Board, i: nat, flag: Flag, muted: bool) returns (r: Board)
    requires b.Valid()
    requires i + 1 < |b.heights|
    ensures r.Valid()
    ensures |r.heights| == |b.heights|
    ensures multiset(r.heights) == multiset(b.heights)
    ensures forall k :: |b.heights| - i <= k < |b.heights| ==> r.heights[k] == b.heights[k]
    ensures b.redraws <= r.redraws
    // the pass carries the largest value of the unsorted part to its end
    ensures NeverCleared(flag) ==>
      forall p :: 0 <= p < |b.heights| - i ==> r.heights[p] <= r.heights[|b.heights| - i - 1]
    // values only move inside the unsorted part
    ensures Partitioned(b.heights, |b.heights| - i) ==> Partitioned(r.heights, |b.heights| - i)
    // equal or ordered neighbours are never exchanged
    ensures SortedRange(b.heights, 0, |b.heights| - i) ==> r.heights == b.heights && r.sounds == b.sounds
    // once the flag is cleared for good, the pass ends within one step
    ensures StopsWithin(flag, b.Clock(), r.Clock(), 1)
    // one paced step per comparison plus one per swap, and a tick per swap
    ensures b.sounds <= r.sounds && (muted ==> r.sounds == b.sounds)
    ensures NeverCleared(flag) && !muted ==>
      |r.redraws| - |b.redraws| == (|b.heights| - i - 1) + (r.sounds - b.sounds)
  {
    ghost var polled;
    r, polled := CompareLoop(b, i, flag, muted);
    PolledStep(flag, b.Clock(), polled, r.Clock(), 1);
    if Partitioned(b.heights, |b.heights| - i) {
      PrefixPermutationKeepsPartition(b.heights, r.heights, |b.heights| - i);
    }
  }

  /** The loop of `BubblePass`. `polled` is the step at which the last
      comparison began, after a poll that read true. */
  method CompareLoop(b: Board, i: nat, flag: Flag, muted: bool) returns (r: Board, ghost polled: nat)
    requires b.Valid()
    requires i + 1 < |b.heights|
    ensures r.Valid() && |r.heights| == |b.heights|
    ensures multiset(r.heights) == multiset(b.heights)
    ensures forall k :: |b.heights| - i <= k < |b.heights| ==> r.heights[k] == b.heights[k]
    ensures b.redraws <= r.redraws
    ensures NeverCleared(flag) ==>
      forall p :: 0 <= p < |b.heights| - i ==> r.heights[p] <= r.heights[|b.heights| - i - 1]
    ensures SortedRange(b.heights, 0, |b.heights| - i) ==> r.heights == b.heights && r.sounds == b.sounds
    // every comparison but the first began within two ticks of the last one
    ensures r.Clock() == b.Clock() || (b.Clock() <= polled && flag(polled) && r.Clock() <= polled + 2)
    ensures b.sounds <= r.sounds && (muted ==> r.sounds == b.sounds)
    ensures NeverCleared(flag) && !muted ==>
      |r.redraws| - |b.redraws| == (|b.heights| - i - 1) + (r.sounds - b.sounds)
  {
    var n := |b.heights|;
    r := b;
    var j := 0;
    polled := b.Clock();
    while j < n - i - 1 && flag(r.Clock())
      invariant 0 <= j <= n - i - 1
      invariant r.Valid() && |r.heights| == n
      invariant multiset(r.heights) == multiset(b.heights)
      invariant forall k :: n - i <= k < n ==> r.heights[k] == b.heights[k]
      invariant forall p :: 0 <= p <= j ==> r.heights[p] <= r.heights[j]
      invariant SortedRange(b.heights, 0, n - i) ==> r.heights == b.heights && r.sounds == b.sounds
      invariant b.redraws <= r.redraws
      invariant r.Clock() == b.Clock() || (b.Clock() <= polled && flag(polled) && r.Clock() <= polled + 2)
      invariant b.sounds <= r.sounds && (muted ==> r.sounds == b.sounds)
      invariant !muted ==> |r.redraws| - |b.redraws| == j + (r.sounds - b.sounds)
    {
      CarryMax(r.heights, j);
      polled := r.Clock();
      r := CompareStep(r, j, muted);
      j := j + 1;
    }
  }

  /** After a complete pass the sorted, partitioned suffix grows by the
      value the pass carried to position `m-1`. */
  lemma SettledGrows(c: seq<int>, r: seq<int>, m: nat)
    requires 0 < m <= |c| && |r| == |c|
    requires SortedRange(c, m, |c|) && Partitioned(c, m)
    requires forall k :: m <= k < |c| ==> r[k] == c[k]
    requires Partitioned(r, m)
    requires forall p :: 0 <= p < m ==> r[p] <= r[m - 1]
    ensures SortedRange(r, m - 1, |r|) && Partitioned(r, m - 1)
  {
  }

  /** Comparisons made by the first `i` passes over `n` bars: pass `k`
      compares `n-k-1` neighbour pairs. */
  function Comparisons(n: nat, i: nat): nat
    requires i <= n
  {
    if i == 0 then 0 else Comparisons(n, i - 1) + (n - i)
  }

  /** The first `i` passes make `i(2n-i-1)/2` comparisons, so a full run of
      `n-1` passes makes `n(n-1)/2`. */
  lemma {:induction false} ComparisonsTotal(n: nat, i: nat)
    requires i <= n
    ensures 2 * Comparisons(n, i) == i * (2 * n - i - 1)
  {
    if i > 0 {
      ComparisonsTotal(n, i - 1);
    }
  }

  /** A full run of `n-1` passes makes `n(n-1)/2` comparisons. */
  lemma ComparisonsFull(n: nat)
    requires n > 0
    ensures 2 * Comparisons(n, n - 1) == n * (n - 1)
  {
    ComparisonsTotal(n, n - 1);
    assert 2 * n - (n - 1) - 1 == n;
  }

  /** One outer iteration of `BubbleSort`, entered through a true poll at
      pass `i`: the pass, and how it extends the facts the sort keeps about
      the passes before it, relative to the sort's starting board `b`. */
  method Round(ghost b: Board, cur: Board, i: nat, flag: Flag, muted: bool) returns (next: Board)
    requires cur.Valid() && |cur.heights| == |b.heights| && i + 1 < |b.heights|
    requires b.Clock() <= cur.Clock() && flag(cur.Clock())
    requires multiset(cur.heights) == multiset(b.heights) && b.redraws <= cur.redraws
    requires NeverCleared(flag) ==>
      SortedRange(cur.heights, |b.heights| - i, |b.heights|) && Partitioned(cur.heights, |b.heights| - i)
    requires Sorted(b.heights) ==> cur.heights == b.heights && cur.sounds == b.sounds
    requires b.sounds <= cur.sounds && (muted ==> cur.sounds == b.sounds)
    requires NeverCleared(flag) && !muted ==>
      |cur.redraws| - |b.redraws| == Comparisons(|b.heights|, i) + (cur.sounds - b.sounds)
    ensures next.Valid() && |next.heights| == |b.heights|
    ensures multiset(next.heights) == multiset(b.heights) && b.redraws <= next.redraws
    ensures StopsWithin(flag, b.Clock(), next.Clock(), 1)
    ensures NeverCleared(flag) ==>
      SortedRange(next.heights, |b.heights| - i - 1, |b.heights|) && Partitioned(next.heights, |b.heights| - i - 1)
    ensures Sorted(b.heights) ==> next.heights == b.heights && next.sounds == b.sounds
    ensures b.sounds <= next.sounds && (muted ==> next.sounds == b.sounds)
    ensures NeverCleared(flag) && !muted ==>
      |next.redraws| - |b.redraws| == Comparisons(|b.heights|, i + 1) + (next.sounds - b.sounds)
  {
    next := BubblePass(cur, i, flag, muted);
    StopsAfterPoll(flag, b.Clock(), cur.Clock(), next.Clock(), 1);
    if NeverCleared(flag) {
      SettledGrows(cur.heights, next.heights, |b.heights| - i);
    }
  }

  /** The whole bubble sort: passes `i = 0, 1, ...` while `i < n-1` and
      `_isSorting` holds; the evaluated index is cleared at the end. */
  method BubbleSort(b: Board, flag: Flag, muted: bool) returns (r: Board)
    requires b.Valid()
    ensures r.Valid()
    ensures |r.heights| == |b.heights|
    ensures multiset(r.heights) == multiset(b.heights)
    ensures r.evaluated == -1
    ensures b.redraws <= r.redraws
    ensures NeverCleared(flag) ==> Sorted(r.heights)
    ensures Sorted(b.heights) ==> r.heights == b.heights && r.sounds == b.sounds
    ensures !flag(b.Clock()) ==> r.heights == b.heights && r.redraws == b.redraws && r.sounds == b.sounds
    // once the flag is cleared for good, the sort ends within one step
    ensures StopsWithin(flag, b.Clock(), r.Clock(), 1)
    // run to completion: `n(n-1)/2` comparisons, plus one paced step and one
    // tick per swap
    ensures b.sounds <= r.sounds && (muted ==> r.sounds == b.sounds)
    ensures NeverCleared(flag) && !muted ==>
      2 * (|r.redraws| - |b.redraws| - (r.sounds - b.sounds)) == |b.heights| * (|b.heights| - 1)
  {
    var n := |b.heights|;
    var cur := b;
    var i := 0;
    while i < n - 1 && flag(cur.Clock())
      invariant 0 <= i <= n && (i <= n - 1 || n == 0)
      invariant cur.Valid() && |cur.heights| == n
      invariant multiset(cur.heights) == multiset(b.heights)
      invariant b.redraws <= cur.redraws
      invariant NeverCleared(flag) ==> SortedRange(cur.heights, n - i, n) && Partitioned(cur.heights, n - i)
      invariant Sorted(b.heights) ==> cur.heights == b.heights && cur.sounds == b.sounds
      invariant !flag(b.Clock()) ==> i == 0 && cur.heights == b.heights && cur.redraws == b.redraws && cur.sounds == b.sounds
      invariant StopsWithin(flag, b.Clock(), cur.Clock(), 1)
      invariant b.sounds <= cur.sounds && (muted ==> cur.sounds == b.sounds)
      invariant NeverCleared(flag) && !muted ==>
        |cur.redraws| - |b.redraws| == Comparisons(n, i) + (cur.sounds - b.sounds)
    {
      cur := Round(b, cur, i, flag, muted);
      i := i + 1;
    }
    if NeverCleared(flag) && !muted && n > 0 {
      ComparisonsFull(n);
    }
    r := cur.(evaluated := -1);
  }
}
