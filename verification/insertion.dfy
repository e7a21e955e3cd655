/** `InsertionSort`: each key is carried left by shifting greater neighbours
    one slot right, one paced step (with a sound tick) per shift, and then
    written into the gap in one more paced step. */
module Insertion {
  import opened Bars

  /** The list after the shifts, with the key written into the gap, is the
      input with `heights[j+1..i]` rotated one slot right: the same multiset. */
  lemma RotationKeepsMultiset(b: seq<int>, a: seq<int>, i: nat, j: int)
    requires i < |b| && |a| == |b| && -1 <= j <= i - 1
    requires forall k {:trigger a[k]} :: 0 <= k <= j + 1 ==> a[k] == b[k]
    requires forall q {:trigger a[q]} :: j + 2 <= q <= i ==> a[q] == b[q - 1]
    requires forall k {:trigger a[k]} :: i < k < |b| ==> a[k] == b[k]
    ensures multiset(a[j + 1 := b[i]]) == multiset(b)
  {
    var front, moved, back := b[..j + 1], b[j + 1..i], b[i + 1..];
    assert a[j + 1 := b[i]] == front + [b[i]] + moved + back;
    assert b == front + moved + [b[i]] + back;
    MoveKeepsMultiset(front, b[i], moved, back);
  }

  /** Moving one value in front of a block keeps the multiset. */
  lemma MoveKeepsMultiset(front: seq<int>, key: int, moved: seq<int>, back: seq<int>)
    ensures multiset(front + [key] + moved + back) == multiset(front + moved + [key] + back)
  {
  }

  /** Writing the key into the gap left by the shifts extends the sorted
      prefix by one: everything left of the gap is at most the key, everything
      right of it was shifted because it is greater. */
  lemma PlaceKeySorted(b: seq<int>, a: seq<int>, i: nat, j: int)
    requires 0 < i < |b| && |a| == |b| && -1 <= j <= i - 1
    requires SortedRange(b, 0, i)
    requires forall k :: 0 <= k <= j + 1 ==> a[k] == b[k]
    requires forall q :: j + 2 <= q <= i ==> a[q] == b[q - 1] && b[i] < a[q]
    requires j < 0 || b[j] <= b[i]
    ensures SortedRange(a[j + 1 := b[i]], 0, i + 1)
  {
    var c := a[j + 1 := b[i]];
    forall p, q | 0 <= p < q < i + 1
      ensures c[p] <= c[q]
    {
      if q <= j {
        assert c[p] == b[p] && c[q] == b[q];
      } else if q == j + 1 {
        assert c[p] == b[p] <= b[j];
      } else if p <= j {
        assert c[p] == b[p] && c[q] == b[q - 1];
      } else if p == j + 1 {
        assert c[p] == b[i] < c[q];
      } else {
        assert c[p] == b[p - 1] && c[q] == b[q - 1];
      }
    }
  }

  /** With no shift done, writing the key back restores the list it came from. */
  lemma UnchangedWhenInPlace(b: seq<int>, a: seq<int>, i: nat)
    requires i < |b| && |a| == |b|
    requires forall k {:trigger a[k]} :: 0 <= k <= i ==> a[k] == b[k]
    requires forall k {:trigger a[k]} :: i < k < |b| ==> a[k] == b[k]
    ensures a[i := b[i]] == b
  {
  }

  /** The shifting loop of one outer iteration: with `key = heights[i]`, walk
      `j` down from `i-1`, copying `heights[j]` to `j+1` while it is greater
      than `key` and `_isSorting` holds. Returns the list with its gap at
      `j+1` (still holding a stale copy) and the final `j`. */
  method ShiftGreater(b: Board, i: nat, flag: Flag, muted: bool) returns (s: Board, j: int)
    requires b.Valid()
    requires 0 < i < |b.heights|
    ensures s.Valid()
    ensures |s.heights| == |b.heights|
    ensures -1 <= j <= i - 1
    ensures forall k {:trigger s.heights[k]} :: 0 <= k <= j + 1 ==> s.heights[k] == b.heights[k]
    ensures forall q {:trigger s.heights[q]} :: j + 2 <= q <= i ==>
      s.heights[q] == b.heights[q - 1] && b.heights[i] < s.heights[q]
    ensures forall k {:trigger s.heights[k]} :: i < k < |b.heights| ==> s.heights[k] == b.heights[k]
    // unless the flag stopped it, the walk ends at the front or at a value <= key
    ensures j >= 0 && flag(s.Clock()) ==> b.heights[j] <= b.heights[i]
    // one paced step per shift
    ensures b.redraws <= s.redraws && |s.redraws| == |b.redraws| + (i - 1 - j)
    // each shift began with a poll that read true: none follows a false one
    ensures PolledTrue(flag, b.Clock(), s.Clock())
    // and each shift ticks
    ensures muted ==> s.sounds == b.sounds
    ensures !muted ==> s.sounds == b.sounds + (i - 1 - j)
    ensures b.heights[i - 1] <= b.heights[i] ==> j == i - 1 && s.sounds == b.sounds
  {
    var n := |b.heights|;
    var a, ev, rd := b.heights, b.evaluated, b.redraws;
    var snd: nat := b.sounds;
    var key := a[i];
    j := i - 1;
    while j >= 0 && a[j] > key && flag(|rd|)
      invariant -1 <= j <= i - 1
      invariant |a| == n
      invariant forall k {:trigger a[k]} :: 0 <= k <= j + 1 ==> a[k] == b.heights[k]
      invariant forall q {:trigger a[q]} :: j + 2 <= q <= i ==> a[q] == b.heights[q - 1] && key < a[q]
      invariant forall k {:trigger a[k]} :: i < k < n ==> a[k] == b.heights[k]
      invariant b.heights[i - 1] <= key ==> j == i - 1 && snd == b.sounds
      invariant EvalOk(ev, n) && TraceOk(rd, n)
      invariant b.redraws <= rd && |rd| == |b.redraws| + (i - 1 - j)
      invariant PolledTrue(flag, |b.redraws|, |rd|)
      invariant muted ==> snd == b.sounds
      invariant !muted ==> snd == b.sounds + (i - 1 - j)
    {
      ghost var prev := a;
      a := a[j + 1 := a[j]];
      forall q | j + 1 <= q <= i
        ensures a[q] == b.heights[q - 1] && key < a[q]
      {
        if q == j + 1 {
          assert a[q] == prev[j] == b.heights[j];
        } else {
          assert a[q] == prev[q];
        }
      }
      ev := j;
      j := j - 1;
      rd := rd + [ev];
      snd := snd + Tick(muted);
    }
    s := Board(a, ev, rd, snd);
  }

  /** One iteration of the outer loop: shift the greater values of the
      prefix right, then write `key` into the gap as one more paced step. The
      write happens even when the shifting stopped because the flag was
      cleared. */
  method InsertKey(b: Board, i: nat, flag: Flag, muted: bool) returns (r: Board)
    requires b.Valid()
    requires 0 < i < |b.heights|
    ensures r.Valid()
    ensures |r.heights| == |b.heights|
    // the gap is always refilled: no value is lost or duplicated
    ensures multiset(r.heights) == multiset(b.heights)
    ensures forall k :: i < k < |b.heights| ==> r.heights[k] == b.heights[k]
    ensures b.redraws < r.redraws
    ensures NeverCleared(flag) && SortedRange(b.heights, 0, i) ==> SortedRange(r.heights, 0, i + 1)
    // a key that is not smaller than its left neighbour stays where it is
    ensures b.heights[i - 1] <= b.heights[i] ==> r.heights == b.heights && r.sounds == b.sounds
    // only the key write, the last step, is taken without a poll before it, so
    // the iteration ends within one step once the flag is cleared for good
    ensures PolledTrue(flag, b.Clock(), r.Clock() - 1)
    ensures StopsWithin(flag, b.Clock(), r.Clock(), 1)
    // one paced step for the key write plus one per shift, and a tick per shift
    ensures b.sounds <= r.sounds && (muted ==> r.sounds == b.sounds)
    ensures !muted ==> |r.redraws| - |b.redraws| == 1 + (r.sounds - b.sounds)
  {
    var s, j := ShiftGreater(b, i, flag, muted);
    PolledThenOneStep(flag, b.Clock(), s.Clock());
    RotationKeepsMultiset(b.heights, s.heights, i, j);
    if NeverCleared(flag) && SortedRange(b.heights, 0, i) {
      assert flag(s.Clock());
      PlaceKeySorted(b.heights, s.heights, i, j);
    }
    if b.heights[i - 1] <= b.heights[i] {
      UnchangedWhenInPlace(b.heights, s.heights, i);
    }
    r := Board(s.heights[j + 1 := b.heights[i]], s.evaluated, s.redraws + [s.evaluated], s.sounds);
  }

  /** The whole insertion sort over `i = 1, 2, ...` while `i < n` and
      `_isSorting` holds; the evaluated index is cleared at the end. */
  method InsertionSort(b: Board, flag: Flag, muted: bool) returns (r: Board)
    requires b.Valid()
    ensures r.Valid()
    ensures |r.heights| == |b.heights|
    ensures multiset(r.heights) == multiset(b.heights)
    ensures r.evaluated == -1
    ensures b.redraws <= r.redraws
    ensures NeverCleared(flag) ==> Sorted(r.heights)
    ensures Sorted(b.heights) ==> r.heights == b.heights && r.sounds == b.sounds
    ensures !flag(b.Clock()) ==> r.heights == b.heights && r.redraws == b.redraws && r.sounds == b.sounds
    // once the flag is cleared for good, the sort ends within one step
    ensures StopsWithin(flag, b.Clock(), r.Clock(), 1)
    // run to completion: one paced step per key written back, plus one paced
    // step and one tick per shift
    ensures b.sounds <= r.sounds && (muted ==> r.sounds == b.sounds)
    ensures NeverCleared(flag) && !muted && |b.heights| > 0 ==>
      |r.redraws| - |b.redraws| == (|b.heights| - 1) + (r.sounds - b.sounds)
  {
    var n := |b.heights|;
    var cur := b;
    var i := 1;
    while i < n && flag(cur.Clock())
      invariant 1 <= i && (i <= n || n == 0)
      invariant cur.Valid() && |cur.heights| == n
      invariant multiset(cur.heights) == multiset(b.heights)
      invariant b.redraws <= cur.redraws
      invariant NeverCleared(flag) ==> SortedRange(cur.heights, 0, i)
      invariant Sorted(b.heights) ==> cur.heights == b.heights && cur.sounds == b.sounds
      invariant !flag(b.Clock()) ==> i == 1 && cur.heights == b.heights && cur.redraws == b.redraws && cur.sounds == b.sounds
      invariant StopsWithin(flag, b.Clock(), cur.Clock(), 1)
      invariant b.sounds <= cur.sounds && (muted ==> cur.sounds == b.sounds)
      invariant !muted ==> |cur.redraws| - |b.redraws| == (i - 1) + (cur.sounds - b.sounds)
    {
      ghost var prev := cur;
      cur := InsertKey(cur, i, flag, muted);
      StopsAfterPoll(flag, b.Clock(), prev.Clock(), cur.Clock(), 1);
      i := i + 1;
    }
    r := cur.(evaluated := -1);
  }
}
