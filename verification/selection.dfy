/** `SelectionSort`: for each position, scan the rest of the list for its
    leftmost minimum (one paced step per comparison), then exchange it into
    place (one paced step with a sound tick). */
module Selection {
  import opened Bars

  /** The inner scan for outer index `i`: `j` runs over `[i+1, n)` while
      `_isSorting` holds and the minimum is replaced only on strict `<`.
      `scanned` is the value of `j` when the scan stopped. */
  method ScanMin(b: Board, i: nat, flag: Flag) returns (s: Board, minIndex: nat, scanned: nat)
    requires b.Valid()
    requires i + 1 < |b.heights|
    ensures s.Valid()
    ensures s.heights == b.heights && s.sounds == b.sounds
    ensures i < scanned <= |b.heights|
    ensures i <= minIndex < scanned
    // `minIndex` is a minimum of the scanned part ...
    ensures forall q :: i <= q < scanned ==> b.heights[minIndex] <= b.heights[q]
    // ... and the leftmost one
    ensures forall q :: i <= q < minIndex ==> b.heights[minIndex] < b.heights[q]
    // the scan stops early only because the flag was cleared
    ensures scanned < |b.heights| ==> !flag(s.Clock())
    // one paced step per comparison
    ensures b.redraws <= s.redraws && |s.redraws| == |b.redraws| + (scanned - i - 1)
    // each comparison began with a poll that read true: none follows a false one
    ensures PolledTrue(flag, b.Clock(), s.Clock())
  {
    var n := |b.heights|;
    var a := b.heights;
    var ev, rd := b.evaluated, b.redraws;
    minIndex := i;
    var j := i + 1;
    while j < n && flag(|rd|)
      invariant i < j <= n
      invariant i <= minIndex < j
      invariant forall q :: i <= q < j ==> a[minIndex] <= a[q]
      invariant forall q :: i <= q < minIndex ==> a[minIndex] < a[q]
      invariant EvalOk(ev, n) && TraceOk(rd, n)
      invariant b.redraws <= rd && |rd| == |b.redraws| + (j - i - 1)
      invariant PolledTrue(flag, |b.redraws|, |rd|)
    {
      ev := j;
      if a[j] < a[minIndex] {
        minIndex := j;
      }
      rd := rd + [ev];
      j := j + 1;
    }
    scanned := j;
    s := Board(a, ev, rd, b.sounds);
  }

  /** Paced steps of the first `i` outer iterations of a full run over `n`
      bars: iteration `k` makes `n-k-1` comparisons and one exchange. */
  function SelectionSteps(n: nat, i: nat): nat
    requires i <= n
  {
    if i == 0 then 0 else SelectionSteps(n, i - 1) + (n - (i - 1))
  }

  /** A full run over `n > 0` bars takes `n(n+1)/2 - 1` paced steps. */
  lemma {:induction false} SelectionStepsTotal(n: nat, i: nat)
    requires i <= n
    ensures 2 * SelectionSteps(n, i) == n * (n + 1) - (n - i) * (n - i + 1)
  {
    if i > 0 {
      SelectionStepsTotal(n, i - 1);
    }
  }

  /** A full run over `n > 0` bars: `n-1` outer iterations. */
  lemma SelectionStepsFull(n: nat)
    requires n > 0
    ensures 2 * SelectionSteps(n, n - 1) == n * (n + 1) - 2
  {
    SelectionStepsTotal(n, n - 1);
    assert (n - (n - 1)) * (n - (n - 1) + 1) == 2;
  }

  /** Exchanging two values at or above `i` keeps a partition at `i`. */
  lemma SwapAboveKeepsPartition(s: seq<int>, i: nat, m: nat)
    requires i <= m < |s|
    ensures Partitioned(s, i) ==> Partitioned(Swap(s, m, i), i)
  {
  }

  /** The exchange that ends an outer iteration: the minimum the scan found
      at `m` trades places with position `i`, as one paced step with a sound
      tick. */
  method Exchange(s: Board, i: nat, m: nat, scanned: nat, muted: bool) returns (r: Board)
    requires s.Valid()
    requires i <= m < scanned <= |s.heights|
    requires forall q :: i <= q < scanned ==> s.heights[m] <= s.heights[q]
    requires forall q :: i <= q < m ==> s.heights[m] < s.heights[q]
    ensures r.Valid()
    ensures |r.heights| == |s.heights|
    ensures multiset(r.heights) == multiset(s.heights)
    ensures r.redraws == s.redraws + [s.evaluated]
    ensures r.sounds == s.sounds + Tick(muted)
    ensures forall k :: 0 <= k < i ==> r.heights[k] == s.heights[k]
    // the scanned part now has its minimum at `i`
    ensures forall q :: i < q < scanned ==> r.heights[i] <= r.heights[q]
    ensures Partitioned(s.heights, i) ==> Partitioned(r.heights, i)
    // when position `i` already holds a minimum of the scanned part, the
    // exchange is with itself
    ensures s.heights[i] <= s.heights[m] ==> m == i && r.heights == s.heights
    ensures SortedRange(s.heights, i, |s.heights|) ==> r.heights == s.heights
  {
    var a := Swap(s.heights, m, i);
    SwapAboveKeepsPartition(s.heights, i, m);
    if s.heights[i] <= s.heights[m] {
      assert m == i;
      assert a == s.heights;
    }
    r := Board(a, s.evaluated, s.redraws + [s.evaluated], s.sounds + Tick(muted));
  }

  /** One outer iteration: scan for the leftmost minimum of the unsorted part,
      then exchange it with position `i`. */
  method SelectStep(b: Board, i: nat, flag: Flag, muted: bool) returns (r: Board)
    requires b.Valid()
    requires i + 1 < |b.heights|
    ensures r.Valid()
    ensures |r.heights| == |b.heights|
    ensures multiset(r.heights) == multiset(b.heights)
    ensures b.redraws < r.redraws
    ensures r.sounds == b.sounds + Tick(muted)
    // values only move inside the unsorted part `[i, n)`
    ensures forall k :: 0 <= k < i ==> r.heights[k] == b.heights[k]
    // a minimum of the unsorted part is placed at `i`
    ensures NeverCleared(flag) ==> forall q :: i < q < |b.heights| ==> r.heights[i] <= r.heights[q]
    ensures NeverCleared(flag) ==> |r.redraws| == |b.redraws| + (|b.heights| - i)
    ensures Partitioned(b.heights, i) ==> Partitioned(r.heights, i)
    ensures SortedRange(b.heights, i, |b.heights|) ==> r.heights == b.heights
    // only the exchange, the last step, is taken without a poll before it, so
    // the iteration ends within one step once the flag is cleared for good
    ensures PolledTrue(flag, b.Clock(), r.Clock() - 1)
  {
    var s, minIndex, scanned := ScanMin(b, i, flag);
    if NeverCleared(flag) {
      assert flag(s.Clock());
    }
    r := Exchange(s, i, minIndex, scanned, muted);
    assert r.Clock() - 1 == s.Clock();
  }

  /** Placing a minimum of the unsorted part at `i` grows the sorted,
      partitioned prefix by one. */
  lemma SortedPrefixGrows(c: seq<int>, r: seq<int>, i: nat)
    requires i < |c| && |r| == |c|
    requires SortedRange(c, 0, i) && Partitioned(c, i)
    requires forall k :: 0 <= k < i ==> r[k] == c[k]
    requires Partitioned(r, i)
    requires forall q :: i < q < |r| ==> r[i] <= r[q]
    ensures SortedRange(r, 0, i + 1) && Partitioned(r, i + 1)
  {
  }

  /** One outer iteration of `SelectionSort`, entered through a true poll
      at iteration `i`: the step, and how it extends the facts the sort keeps
      about the iterations before it, relative to the sort's starting board
      `b`. */
  method SelectRound(ghost b: Board, cur: Board, i: nat, flag: Flag, muted: bool) returns (next: Board)
    requires cur.Valid() && |cur.heights| == |b.heights| && i + 1 < |b.heights|
    requires b.Clock() <= cur.Clock() && flag(cur.Clock())
    requires multiset(cur.heights) == multiset(b.heights) && b.redraws <= cur.redraws
    requires NeverCleared(flag) ==> SortedRange(cur.heights, 0, i) && Partitioned(cur.heights, i)
    requires NeverCleared(flag) ==> |cur.redraws| == |b.redraws| + SelectionSteps(|b.heights|, i)
    requires muted ==> cur.sounds == b.sounds
    requires !muted ==> cur.sounds == b.sounds + i
    requires Sorted(b.heights) ==> cur.heights == b.heights
    ensures next.Valid() && |next.heights| == |b.heights|
    ensures multiset(next.heights) == multiset(b.heights) && b.redraws <= next.redraws
    ensures StopsWithin(flag, b.Clock(), next.Clock(), 1)
    ensures NeverCleared(flag) ==> SortedRange(next.heights, 0, i + 1) && Partitioned(next.heights, i + 1)
    ensures NeverCleared(flag) ==> |next.redraws| == |b.redraws| + SelectionSteps(|b.heights|, i + 1)
    ensures muted ==> next.sounds == b.sounds
    ensures !muted ==> next.sounds == b.sounds + i + 1
    ensures Sorted(b.heights) ==> next.heights == b.heights
  {
    next := SelectStep(cur, i, flag, muted);
    PolledThenOneStep(flag, cur.Clock(), next.Clock() - 1);
    StopsAfterPoll(flag, b.Clock(), cur.Clock(), next.Clock(), 1);
    if NeverCleared(flag) {
      SortedPrefixGrows(cur.heights, next.heights, i);
    }
  }

  /** The whole selection sort over `i = 0, 1, ...` while `i < n-1` and
      `_isSorting` holds. The exchange after the scan is unconditional: it runs
      even when the scan was cut short, and even when the minimum is already
      at `i` (a self-exchange that still ticks). */
  method SelectionSort(b: Board, flag: Flag, muted: bool) returns (r: Board)
    requires b.Valid()
    ensures r.Valid()
    ensures |r.heights| == |b.heights|
    ensures multiset(r.heights) == multiset(b.heights)
    ensures r.evaluated == -1
    ensures b.redraws <= r.redraws
    ensures NeverCleared(flag) ==> Sorted(r.heights)
    ensures Sorted(b.heights) ==> r.heights == b.heights
    ensures !flag(b.Clock()) ==> r.heights == b.heights && r.redraws == b.redraws && r.sounds == b.sounds
    // run to completion: n-i-1 comparisons plus one exchange for each i < n-1
    ensures NeverCleared(flag) && |b.heights| > 0 ==>
      2 * (|r.redraws| - |b.redraws|) == |b.heights| * (|b.heights| + 1) - 2
    ensures NeverCleared(flag) && |b.heights| > 0 ==>
      r.sounds == b.sounds + (|b.heights| - 1) * Tick(muted)
    ensures b.sounds <= r.sounds && (muted ==> r.sounds == b.sounds)
    // once the flag is cleared for good, the sort ends within one step
    ensures StopsWithin(flag, b.Clock(), r.Clock(), 1)
  {
    var n := |b.heights|;
    var cur := b;
    var i := 0;
    while i < n - 1 && flag(cur.Clock())
      invariant 0 <= i <= n && (i <= n - 1 || n == 0)
      invariant cur.Valid() && |cur.heights| == n
      invariant multiset(cur.heights) == multiset(b.heights)
      invariant b.redraws <= cur.redraws
      invariant NeverCleared(flag) ==> SortedRange(cur.heights, 0, i) && Partitioned(cur.heights, i)
      invariant NeverCleared(flag) ==> |cur.redraws| == |b.redraws| + SelectionSteps(n, i)
      invariant muted ==> cur.sounds == b.sounds
      invariant !muted ==> cur.sounds == b.sounds + i
      invariant Sorted(b.heights) ==> cur.heights == b.heights
      invariant !flag(b.Clock()) ==> i == 0 && cur.heights == b.heights && cur.redraws == b.redraws && cur.sounds == b.sounds
      invariant StopsWithin(flag, b.Clock(), cur.Clock(), 1)
    {
      cur := SelectRound(b, cur, i, flag, muted);
      i := i + 1;
    }
    if n > 0 && NeverCleared(flag) {
      SelectionStepsFull(n);
    }
    r := cur.(evaluated := -1);
  }
}
