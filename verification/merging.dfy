/** `MergeSort` and its `Merge`: top-down recursive merge sort over the
    inclusive range `[left, right]`, where every value written back by the
    merge is one paced step. */
module Merging {
  import opened Bars

  /** Reference merge of two lists: the smaller head goes first, and on a
      tie the head of the left list goes first (`BarContainer` compares `<=`). */
  function MergeSeqs(xs: seq<int>, ys: seq<int>): (r: seq<int>)
    ensures |r| == |xs| + |ys|
    decreases |xs| + |ys|
  {
    if |xs| == 0 then ys
    else if |ys| == 0 then xs
    else if xs[0] <= ys[0] then [xs[0]] + MergeSeqs(xs[1..], ys)
    else [ys[0]] + MergeSeqs(xs, ys[1..])
  }

  /** The merge holds exactly the values of both inputs. */
  lemma {:induction false} MergeSeqsPermutation(xs: seq<int>, ys: seq<int>)
    ensures multiset(MergeSeqs(xs, ys)) == multiset(xs) + multiset(ys)
    decreases |xs| + |ys|
  {
    if |xs| > 0 && |ys| > 0 {
      if xs[0] <= ys[0] {
        MergeSeqsPermutation(xs[1..], ys);
        ConsMultiset(xs[0], MergeSeqs(xs[1..], ys), MergeSeqs(xs, ys));
        ConsMultiset(xs[0], xs[1..], xs);
      } else {
        MergeSeqsPermutation(xs, ys[1..]);
        ConsMultiset(ys[0], MergeSeqs(xs, ys[1..]), MergeSeqs(xs, ys));
        ConsMultiset(ys[0], ys[1..], ys);
      }
    }
  }

  /** A lower bound of both inputs is a lower bound of their merge. */
  lemma MergeSeqsBound(v: int, xs: seq<int>, ys: seq<int>)
    requires forall k :: 0 <= k < |xs| ==> v <= xs[k]
    requires forall k :: 0 <= k < |ys| ==> v <= ys[k]
    ensures forall k :: 0 <= k < |MergeSeqs(xs, ys)| ==> v <= MergeSeqs(xs, ys)[k]
  {
    var r := MergeSeqs(xs, ys);
    MergeSeqsPermutation(xs, ys);
    forall k | 0 <= k < |r|
      ensures v <= r[k]
    {
      assert r[k] in multiset(r);
      assert r[k] in multiset(xs) || r[k] in multiset(ys);
    }
  }

  /** Merging two sorted lists gives a sorted list. */
  lemma {:induction false} MergeSeqsSorted(xs: seq<int>, ys: seq<int>)
    requires Sorted(xs) && Sorted(ys)
    ensures Sorted(MergeSeqs(xs, ys))
    decreases |xs| + |ys|
  {
    if |xs| > 0 && |ys| > 0 {
      if xs[0] <= ys[0] {
        MergeSeqsSorted(xs[1..], ys);
        MergeSeqsBound(xs[0], xs[1..], ys);
        ConsSorted(xs[0], MergeSeqs(xs[1..], ys));
      } else {
        MergeSeqsSorted(xs, ys[1..]);
        MergeSeqsBound(ys[0], xs, ys[1..]);
        ConsSorted(ys[0], MergeSeqs(xs, ys[1..]));
      }
    }
  }

  /** After consuming `i` values of `xs` and `j` of `ys`, what is left to
      write is the merge of the two unconsumed parts. */
  predicate MergeRemains(xs: seq<int>, ys: seq<int>, i: nat, j: nat, merged: seq<int>)
  {
    i <= |xs| && j <= |ys| && i + j <= |merged| &&
    MergeSeqs(xs[i..], ys[j..]) == merged[i + j..]
  }

  /** Taking the head of the left remainder (it is not greater than the head
      of the right one, or the right one is used up) consumes the next value
      of the merge. */
  lemma TakeLeft(xs: seq<int>, ys: seq<int>, i: nat, j: nat, merged: seq<int>)
    requires i < |xs| && (j == |ys| || (j < |ys| && xs[i] <= ys[j]))
    requires MergeRemains(xs, ys, i, j, merged)
    ensures i + j < |merged| && merged[i + j] == xs[i]
    ensures MergeRemains(xs, ys, i + 1, j, merged)
  {
    assert xs[i..][1..] == xs[i + 1..];
    assert merged[i + j..][1..] == merged[i + j + 1..];
  }

  /** Taking the head of the right remainder (it is smaller than the head of
      the left one, or the left one is used up) consumes the next value of
      the merge. */
  lemma TakeRight(xs: seq<int>, ys: seq<int>, i: nat, j: nat, merged: seq<int>)
    requires j < |ys| && (i == |xs| || (i < |xs| && xs[i] > ys[j]))
    requires MergeRemains(xs, ys, i, j, merged)
    ensures i + j < |merged| && merged[i + j] == ys[j]
    ensures MergeRemains(xs, ys, i, j + 1, merged)
  {
    assert ys[j..][1..] == ys[j + 1..];
    assert merged[i + j..][1..] == merged[i + j + 1..];
  }

  /** `base` with the slots from `at` on overwritten by `vals`: what a run of
      writes `base[at] := vals[0]`, `base[at+1] := vals[1]`, ... leaves behind. */
  function Splice(base: seq<int>, at: nat, vals: seq<int>): (r: seq<int>)
    requires at + |vals| <= |base|
    ensures |r| == |base|
  {
    base[..at] + vals + base[at + |vals|..]
  }

  /** Pointwise reading of `Splice`: the written slots hold `vals`, every
      other slot holds its base value, and nothing else does. */
  lemma SpliceIff(a: seq<int>, base: seq<int>, at: nat, vals: seq<int>)
    requires at + |vals| <= |base|
    ensures a == Splice(base, at, vals) <==>
      |a| == |base| &&
      (forall p :: at <= p < at + |vals| ==> a[p] == vals[p - at]) &&
      (forall p :: 0 <= p < |base| && !(at <= p < at + |vals|) ==> a[p] == base[p])
  {
    var r := Splice(base, at, vals);
    forall p | 0 <= p < |base|
      ensures r[p] == if at <= p < at + |vals| then vals[p - at] else base[p]
    {
      if p < at {
        assert r[p] == base[..at][p];
      } else if p < at + |vals| {
        assert r[p] == (base[..at] + vals)[p];
      }
    }
  }

  /** A list that holds `vals[..w]` from `at` on and the old values
      elsewhere is the splice of that prefix. */
  lemma PointwiseIsSplice(a: seq<int>, base: seq<int>, at: nat, vals: seq<int>, w: nat)
    requires w <= |vals| && at + |vals| <= |base| && |a| == |base|
    requires forall p :: at <= p < at + w ==> a[p] == vals[p - at]
    requires forall p :: 0 <= p < |base| && !(at <= p < at + w) ==> a[p] == base[p]
    ensures a == Splice(base, at, vals[..w])
  {
    SpliceIff(a, base, at, vals[..w]);
  }

  /** Writing one more value right after a spliced run extends the run. */
  lemma SpliceExtend(base: seq<int>, at: nat, vals: seq<int>, v: int)
    requires at + |vals| < |base|
    ensures Splice(base, at, vals)[at + |vals| := v] == Splice(base, at, vals + [v])
  {
    var r := Splice(base, at, vals)[at + |vals| := v];
    assert r == base[..at] + (vals + [v]) + base[at + |vals| + 1..];
  }

  /** Writing the next value of `vals` extends a spliced prefix of `vals`. */
  lemma SpliceStep(base: seq<int>, at: nat, vals: seq<int>, w: nat, v: int)
    requires w < |vals| && at + |vals| <= |base| && vals[w] == v
    ensures Splice(base, at, vals[..w])[at + w := v] == Splice(base, at, vals[..w + 1])
  {
    SpliceExtend(base, at, vals[..w], v);
    assert vals[..w] + [v] == vals[..w + 1];
  }

  /** Two adjacent runs of writes are one run. */
  lemma SpliceTwice(base: seq<int>, at: nat, v1: seq<int>, at2: nat, v2: seq<int>)
    requires at2 == at + |v1| && at2 + |v2| <= |base|
    ensures Splice(Splice(base, at, v1), at2, v2) == Splice(base, at, v1 + v2)
  {
    var s1 := Splice(base, at, v1);
    assert s1[..at + |v1|] == base[..at] + v1;
    assert s1[at + |v1| + |v2|..] == base[at + |v1| + |v2|..];
  }

  /** `a` is `base` with the first `w` values of `merged` written from
      `left` on. */
  predicate Written(a: seq<int>, base: seq<int>, left: nat, merged: seq<int>, w: nat)
  {
    |a| == |base| && w <= |merged| && left + |merged| <= |base| &&
    (forall p :: left <= p < left + w ==> a[p] == merged[p - left]) &&
    (forall p :: 0 <= p < |base| && !(left <= p < left + w) ==> a[p] == base[p])
  }

  /** One iteration of the interleaving loop of `Merge`: write the smaller
      head (the left one on a tie) at `k = left + ii + jj`, highlight `k`,
      and take one paced step with a sound tick. The value written is the
      next value of the merge. */
  method MergeStep(ghost base: seq<int>, ghost merged: seq<int>, cur: Board, left: nat,
                   xs: seq<int>, ys: seq<int>, ii: nat, jj: nat, muted: bool)
    returns (next: Board, ii2: nat, jj2: nat)
    requires cur.Valid()
    requires ii < |xs| && jj < |ys| && left + |xs| + |ys| <= |base|
    requires MergeRemains(xs, ys, ii, jj, merged)
    requires Written(cur.heights, base, left, merged, ii + jj)
    ensures next.Valid()
    ensures ii2 + jj2 == ii + jj + 1 && ii2 <= |xs| && jj2 <= |ys|
    ensures MergeRemains(xs, ys, ii2, jj2, merged)
    ensures Written(next.heights, base, left, merged, ii2 + jj2)
    ensures next.redraws == cur.redraws + [left + ii + jj]
    ensures next.sounds == cur.sounds + Tick(muted)
  {
    var k := left + ii + jj;
    var v;
    if xs[ii] <= ys[jj] {
      TakeLeft(xs, ys, ii, jj, merged);
      v := xs[ii];
      ii2, jj2 := ii + 1, jj;
    } else {
      TakeRight(xs, ys, ii, jj, merged);
      v := ys[jj];
      ii2, jj2 := ii, jj + 1;
    }
    next := Board(cur.heights[k := v], k, cur.redraws + [k], cur.sounds + Tick(muted));
  }

  /** The interleaving loop of `Merge`: while both copies have values left
      and `_isSorting` holds, take a `MergeStep`. Returns how many values of
      each copy were consumed: the range from `left` on then holds that many
      values of the merge. */
  method MergeHeads(b: Board, left: nat, xs: seq<int>, ys: seq<int>, flag: Flag, muted: bool)
    returns (s: Board, ii: nat, jj: nat)
    requires b.Valid()
    requires left + |xs| + |ys| <= |b.heights|
    ensures s.Valid()
    ensures ii <= |xs| && jj <= |ys|
    ensures s.heights == Splice(b.heights, left, MergeSeqs(xs, ys)[..ii + jj])
    // what is still to be written is the merge of the two unconsumed parts
    ensures MergeRemains(xs, ys, ii, jj, MergeSeqs(xs, ys))
    // the loop ends when a copy is used up or the flag is cleared
    ensures ii == |xs| || jj == |ys| || !flag(s.Clock())
    // each write began with a poll that read true: none follows a false one
    ensures PolledTrue(flag, b.Clock(), s.Clock())
    ensures b.redraws <= s.redraws && |s.redraws| == |b.redraws| + ii + jj
    ensures s.sounds == b.sounds + (ii + jj) * Tick(muted)
  {
    ghost var merged := MergeSeqs(xs, ys);
    s := b;
    ii, jj := 0, 0;
    while ii < |xs| && jj < |ys| && flag(s.Clock())
      invariant s.Valid() && ii <= |xs| && jj <= |ys|
      invariant MergeRemains(xs, ys, ii, jj, merged)
      invariant Written(s.heights, b.heights, left, merged, ii + jj)
      invariant b.redraws <= s.redraws && |s.redraws| == |b.redraws| + ii + jj
      invariant s.sounds == b.sounds + (ii + jj) * Tick(muted)
      invariant PolledTrue(flag, b.Clock(), s.Clock())
      decreases |xs| + |ys| - ii - jj
    {
      s, ii, jj := MergeStep(b.heights, merged, s, left, xs, ys, ii, jj, muted);
    }
    PointwiseIsSplice(s.heights, b.heights, left, merged, ii + jj);
  }

  /** One of the two tail loops of `Merge`: copy `src` into the list from
      position `k` on, one paced step per value and without a sound tick,
      while `_isSorting` holds. The highlighted index is left as it was.
      Returns the number of values copied. */
  method CopyTail(s: Board, k: nat, src: seq<int>, flag: Flag) returns (t: Board, copied: nat)
    requires s.Valid()
    requires k + |src| <= |s.heights|
    ensures t.Valid()
    ensures t.evaluated == s.evaluated && t.sounds == s.sounds
    ensures copied <= |src|
    ensures t.heights == Splice(s.heights, k, src[..copied])
    ensures copied < |src| ==> !flag(t.Clock())
    ensures !flag(s.Clock()) ==> copied == 0
    // each copy began with a poll that read true: none follows a false one
    ensures PolledTrue(flag, s.Clock(), t.Clock())
    ensures s.redraws <= t.redraws && |t.redraws| == |s.redraws| + copied
  {
    var n := |s.heights|;
    var a, rd := s.heights, s.redraws;
    copied := 0;
    assert src[..0] == [] && s.heights[..k] + [] + s.heights[k..] == s.heights;
    while copied < |src| && flag(|rd|)
      invariant copied <= |src|
      invariant a == Splice(s.heights, k, src[..copied])
      invariant TraceOk(rd, n)
      invariant s.redraws <= rd && |rd| == |s.redraws| + copied
      invariant !flag(s.Clock()) ==> copied == 0
      invariant PolledTrue(flag, |s.redraws|, |rd|)
    {
      SpliceStep(s.heights, k, src, copied, src[copied]);
      a := a[k + copied := src[copied]];
      copied := copied + 1;
      rd := rd + [s.evaluated];
    }
    t := Board(a, s.evaluated, rd, s.sounds);
  }

  /** The two tail loops of `Merge` one after the other: copy what is left
      of the left copy and then what is left of the right copy to the next
      slots while `_isSorting` holds. The interleaving loop has written the
      first `ii + jj` values of `merged` over `base` from `left` on; once a
      copy is used up the rest of `merged` is the two leftovers, and the
      tails write further values of it. */
  method CopyTails(ghost base: seq<int>, ghost merged: seq<int>, s: Board, left: nat,
                   xs: seq<int>, ys: seq<int>, ii: nat, jj: nat, flag: Flag) returns (u: Board, copied: nat)
    requires s.Valid()
    requires ii <= |xs| && jj <= |ys| && |merged| == |xs| + |ys| && left + |merged| <= |base|
    requires ii == |xs| || jj == |ys| ==> merged[ii + jj..] == xs[ii..] + ys[jj..]
    requires s.heights == Splice(base, left, merged[..ii + jj])
    requires ii == |xs| || jj == |ys| || !flag(s.Clock())
    ensures u.Valid()
    ensures u.evaluated == s.evaluated && u.sounds == s.sounds
    ensures ii + jj + copied <= |merged|
    ensures u.heights == Splice(base, left, merged[..ii + jj + copied])
    ensures ii + jj + copied < |merged| ==> !flag(u.Clock())
    ensures !flag(s.Clock()) ==> copied == 0
    // each copy began with a poll that read true: none follows a false one
    ensures PolledTrue(flag, s.Clock(), u.Clock())
    ensures s.redraws <= u.redraws && |u.redraws| == |s.redraws| + copied
  {
    var k, xt, yt := left + ii + jj, xs[ii..], ys[jj..];
    var t, c1 := CopyTail(s, k, xt, flag);
    var c2;
    u, c2 := CopyTail(t, k + c1, yt, flag);
    copied := c1 + c2;
    PolledJoin(flag, s.Clock(), t.Clock(), u.Clock());
    TailsContinue(base, s.heights, t.heights, u.heights, left, merged, xt, yt, ii + jj, k, c1, k + c1, c2);
  }

  /** The composition proved by `CopyTails`, on plain lists: `s` holds
      `merged[..w]` from `left` on, `t` adds a prefix of `xs` after it and
      `u` a prefix of `ys` after that; when anything was added, `xs + ys` is
      the rest of `merged`. */
  lemma TailsContinue(base: seq<int>, s: seq<int>, t: seq<int>, u: seq<int>, left: nat, merged: seq<int>,
                      xs: seq<int>, ys: seq<int>, w: nat, k: nat, c1: nat, k2: nat, c2: nat)
    requires left + |merged| <= |base| && w + |xs| + |ys| == |merged|
    requires k == left + w && k2 == k + c1
    requires c1 <= |xs| && c2 <= |ys| && (c1 < |xs| ==> c2 == 0)
    requires c1 + c2 > 0 ==> merged[w..] == xs + ys
    requires s == Splice(base, left, merged[..w])
    requires t == Splice(s, k, xs[..c1])
    requires u == Splice(t, k2, ys[..c2])
    ensures u == Splice(base, left, merged[..w + c1 + c2])
  {
    TailsJoin(s, t, u, xs, ys, k, c1, k2, c2);
    SpliceContinues(base, s, u, left, merged, w, k, xs + ys, c1 + c2, w + c1 + c2);
  }

  /** A prefix of `xs` written at `k`, then a prefix of `ys` written right
      after it, is a prefix of `xs + ys` written at `k`, provided the second
      run is empty unless the first used up `xs`. */
  lemma TailsJoin(s: seq<int>, t: seq<int>, u: seq<int>, xs: seq<int>, ys: seq<int>,
                  k: nat, c1: nat, k2: nat, c2: nat)
    requires c1 <= |xs| && c2 <= |ys| && k + |xs| + |ys| <= |s|
    requires k2 == k + c1 && (c1 < |xs| ==> c2 == 0)
    requires t == Splice(s, k, xs[..c1])
    requires u == Splice(t, k2, ys[..c2])
    ensures u == Splice(s, k, (xs + ys)[..c1 + c2])
  {
    SpliceTwice(s, k, xs[..c1], k2, ys[..c2]);
    assert xs[..c1] + ys[..c2] == (xs + ys)[..c1 + c2];
  }

  /** `Merge(left, mid, right)`: copies `[left..mid]` and `[mid+1..right]`
      aside, writes the merge back from `left` on while `_isSorting` holds
      (interleaving loop, then the left tail, then the right tail), and
      clears the highlighted index. `written` is the number of values written
      back: the range then holds that prefix of the merge followed by its base
      values. When the flag is cleared part-way this need not be a
      permutation of the base range. */
  method Merge(b: Board, left: nat, mid: nat, right: nat, flag: Flag, muted: bool)
    returns (r: Board, written: nat, ghost interleaved: nat)
    requires b.Valid()
    requires left <= mid < right < |b.heights|
    ensures r.Valid()
    ensures r.evaluated == -1
    ensures written <= right - left + 1
    ensures r.heights ==
      Splice(b.heights, left, MergeSeqs(b.heights[left..mid + 1], b.heights[mid + 1..right + 1])[..written])
    ensures NeverCleared(flag) ==> written == right - left + 1
    // the merge stops short only at a poll that read false, and no write
    // follows such a poll
    ensures written < right - left + 1 ==> !flag(r.Clock())
    ensures PolledTrue(flag, b.Clock(), r.Clock())
    // one paced step per written value
    ensures b.redraws <= r.redraws && |r.redraws| == |b.redraws| + written
    // a tick for each of the first `interleaved` writes, those of the
    // interleaving loop, and none for the tail copies
    ensures interleaved <= written
    ensures r.sounds == b.sounds + interleaved * Tick(muted)
    ensures b.sounds <= r.sounds <= b.sounds + written && (muted ==> r.sounds == b.sounds)
  {
    var L, R := b.heights[left..mid + 1], b.heights[mid + 1..right + 1];
    ghost var merged := MergeSeqs(L, R);
    var s, ii, jj := MergeHeads(b, left, L, R, flag, muted);
    if ii == |L| || jj == |R| {
      RemainsIsTails(L, R, ii, jj, merged);
    }
    var u, c := CopyTails(b.heights, merged, s, left, L, R, ii, jj, flag);
    written := ii + jj + c;
    interleaved := ii + jj;
    PolledJoin(flag, b.Clock(), s.Clock(), u.Clock());
    if NeverCleared(flag) {
      assert flag(u.Clock());
    }
    r := u.(evaluated := -1);
  }

  /** Writing a prefix of the continuation `merged[w..]` right after a
      spliced prefix `merged[..w]` gives a longer spliced prefix. */
  lemma SpliceContinues(base: seq<int>, s: seq<int>, u: seq<int>, at: nat, merged: seq<int>,
                        w: nat, at2: nat, tail: seq<int>, c: nat, total: nat)
    requires at + |merged| <= |base| && w + c <= |merged| && c <= |tail|
    requires at2 == at + w && total == w + c
    requires c > 0 ==> merged[w..] == tail
    requires s == Splice(base, at, merged[..w])
    requires u == Splice(s, at2, tail[..c])
    ensures u == Splice(base, at, merged[..total])
  {
    SpliceTwice(base, at, merged[..w], at2, tail[..c]);
    PrefixThenTail(merged, w, tail, c);
  }

  /** A written prefix of a list followed by a prefix of its continuation
      is a longer prefix. */
  lemma PrefixThenTail(merged: seq<int>, w: nat, tail: seq<int>, c: nat)
    requires w + c <= |merged| && c <= |tail|
    requires c > 0 ==> merged[w..] == tail
    ensures merged[..w] + tail[..c] == merged[..w + c]
  {
    if c > 0 {
      assert merged[..w + c] == merged[..w] + merged[w..][..c];
    }
  }

  /** Once either copy is used up, what is left of the merge is the rest of
      the left copy followed by the rest of the right one. */
  lemma RemainsIsTails(xs: seq<int>, ys: seq<int>, i: nat, j: nat, merged: seq<int>)
    requires MergeRemains(xs, ys, i, j, merged)
    requires i == |xs| || j == |ys|
    ensures merged[i + j..] == xs[i..] + ys[j..]
  {
  }

  /** A `Merge` cancelled part-way need not leave a permutation. Merging
      `[2]` and `[1]` in the list `[2, 1]`: the first step writes the right
      copy's `1` at slot 0; if the flag is then cleared, slot 1 still holds
      its old `1`, and the `2` is lost. */
  lemma CancelledMergeDuplicates()
    ensures Splice([2, 1], 0, MergeSeqs([2], [1])[..1]) == [1, 1]
    ensures multiset([1, 1]) != multiset([2, 1])
  {
    assert MergeSeqs([2], [1]) == [1] + MergeSeqs([2], []);
    assert multiset([1, 1])[2] == 0;
  }

  /** `Merge` of the list `[2, 1]` around `mid = 0` with `_isSorting`
      cleared after the first paced step: exactly one value is written, and
      the list is left as `[1, 1]`, no longer a permutation of `[2, 1]`. */
  method CancelledMerge() returns (r: Board, written: nat)
    ensures written == 1
    ensures r.heights == [1, 1]
    ensures multiset(r.heights) != multiset([2, 1])
  {
    var flag: Flag := t => t < 1;
    var b := Board([2, 1], -1, [], 0);
    ghost var interleaved;
    r, written, interleaved := Merge(b, 0, 0, 1, flag, false);
    assert !flag(1);
    assert written < 2 ==> !flag(written);
    assert b.heights[0..1] == [2] && b.heights[1..2] == [1];
    CancelledMergeDuplicates();
  }

  /** `MergeSort(left, right)`: when `left < right` and `_isSorting` holds,
      sort both halves around `mid = left + (right-left)/2` and merge them;
      otherwise do nothing. The flag is re-read on entry of every call, so a
      cancellation is seen by every pending call. */
  method MergeSort(b: Board, left: nat, right: int, flag: Flag, muted: bool) returns (r: Board)
    requires b.Valid()
    requires right < |b.heights|
    ensures r.Valid()
    ensures |r.heights| == |b.heights|
    ensures b.redraws <= r.redraws
    // only the range `[left, right]` is ever written
    ensures left <= right + 1 ==>
      r.heights[..left] == b.heights[..left] && r.heights[right + 1..] == b.heights[right + 1..]
    // a range of at most one value, or a cleared flag on entry: nothing at all happens
    ensures left >= right || !flag(b.Clock()) ==> r == b
    ensures NeverCleared(flag) && left <= right ==>
      SortedRange(r.heights, left, right + 1) &&
      multiset(r.heights[left..right + 1]) == multiset(b.heights[left..right + 1])
    // every write began with a poll that read true, so the sort ends as soon
    // as the flag is cleared for good
    ensures PolledTrue(flag, b.Clock(), r.Clock())
    ensures StopsWithin(flag, b.Clock(), r.Clock(), 0)
    // ticks only with paced steps, and none when muted
    ensures b.sounds <= r.sounds && r.sounds - b.sounds <= |r.redraws| - |b.redraws|
    ensures muted ==> r.sounds == b.sounds
    decreases right - left
  {
    if left < right && flag(b.Clock()) {
      var mid := left + (right - left) / 2;
      var b1 := MergeSort(b, left, mid, flag, muted);
      var b2 := MergeSort(b1, mid + 1, right, flag, muted);
      var written;
      ghost var interleaved;
      r, written, interleaved := Merge(b2, left, mid, right, flag, muted);
      PolledJoin(flag, b.Clock(), b1.Clock(), b2.Clock());
      PolledJoin(flag, b.Clock(), b2.Clock(), r.Clock());
      HalvesFrame(b.heights, b1.heights, b2.heights, r.heights,
        MergeSeqs(b2.heights[left..mid + 1], b2.heights[mid + 1..right + 1])[..written], left, mid, right);
      if NeverCleared(flag) {
        MergeSortedHalves(b.heights, b1.heights, b2.heights, r.heights, left, mid, right, written);
      }
    } else {
      r := b;
    }
    PolledStops(flag, b.Clock(), r.Clock());
  }

  /** A sorted range is a sorted slice. */
  lemma SortedSlice(s: seq<int>, lo: nat, hi: nat)
    requires lo <= hi <= |s|
    ensures SortedRange(s, lo, hi) <==> Sorted(s[lo..hi])
  {
    if Sorted(s[lo..hi]) {
      forall p, q | lo <= p < q < hi
        ensures s[p] <= s[q]
      {
        assert s[p] == s[lo..hi][p - lo] && s[q] == s[lo..hi][q - lo];
      }
    }
  }

  /** The frame of the composition step of `MergeSort`: sorting
      `[left, mid]`, then `[mid+1, right]`, then writing back from `left` at
      most `right-left+1` values leaves everything outside `[left, right]`
      as it was. */
  lemma HalvesFrame(s0: seq<int>, s1: seq<int>, s2: seq<int>, s3: seq<int>, vals: seq<int>,
                    left: nat, mid: nat, right: nat)
    requires left <= mid < right < |s0| && |s1| == |s0| && |s2| == |s0|
    requires left + |vals| <= right + 1
    requires s1[..left] == s0[..left] && s1[mid + 1..] == s0[mid + 1..]
    requires s2[..mid + 1] == s1[..mid + 1] && s2[right + 1..] == s1[right + 1..]
    requires s3 == Splice(s2, left, vals)
    ensures s3[..left] == s0[..left] && s3[right + 1..] == s0[right + 1..]
  {
    assert s3[..left] == s2[..left];
    assert s3[right + 1..] == s2[right + 1..];
    assert s2[..left] == s2[..mid + 1][..left];
    assert s1[..left] == s1[..mid + 1][..left];
    assert s1[right + 1..] == s1[mid + 1..][right - mid..];
    assert s0[right + 1..] == s0[mid + 1..][right - mid..];
  }

  /** The multiset half of the composition step: a list holding the values
      of both sorted halves holds the values of the original range. */
  lemma HalvesPermutation(s0: seq<int>, s1: seq<int>, s2: seq<int>, left: nat, mid: nat, right: nat)
    requires left <= mid < right < |s0| && |s1| == |s0| && |s2| == |s0|
    requires s1[mid + 1..] == s0[mid + 1..] && s2[..mid + 1] == s1[..mid + 1]
    requires multiset(s1[left..mid + 1]) == multiset(s0[left..mid + 1])
    requires multiset(s2[mid + 1..right + 1]) == multiset(s1[mid + 1..right + 1])
    ensures multiset(s2[left..mid + 1]) + multiset(s2[mid + 1..right + 1]) == multiset(s0[left..right + 1])
  {
    assert s2[left..mid + 1] == s2[..mid + 1][left..];
    assert s1[left..mid + 1] == s1[..mid + 1][left..];
    assert s1[mid + 1..right + 1] == s1[mid + 1..][..right - mid];
    assert s0[mid + 1..right + 1] == s0[mid + 1..][..right - mid];
    assert s0[left..right + 1] == s0[left..mid + 1] + s0[mid + 1..right + 1];
  }

  /** The composition step of `MergeSort` run to completion: sorting the left
      half, then the right half, then writing back the whole merge of the
      two halves leaves `[left, right]` sorted and holding the same values. */
  lemma MergeSortedHalves(s0: seq<int>, s1: seq<int>, s2: seq<int>, s3: seq<int>,
                          left: nat, mid: nat, right: nat, written: nat)
    requires left <= mid < right < |s0| && |s1| == |s0| && |s2| == |s0|
    requires s1[mid + 1..] == s0[mid + 1..] && s2[..mid + 1] == s1[..mid + 1]
    requires SortedRange(s1, left, mid + 1)
    requires multiset(s1[left..mid + 1]) == multiset(s0[left..mid + 1])
    requires SortedRange(s2, mid + 1, right + 1)
    requires multiset(s2[mid + 1..right + 1]) == multiset(s1[mid + 1..right + 1])
    requires written == right + 1 - left
    requires s3 == Splice(s2, left, MergeSeqs(s2[left..mid + 1], s2[mid + 1..right + 1])[..written])
    ensures SortedRange(s3, left, right + 1)
    ensures multiset(s3[left..right + 1]) == multiset(s0[left..right + 1])
  {
    var xs, ys := s2[left..mid + 1], s2[mid + 1..right + 1];
    var m := MergeSeqs(xs, ys);
    assert m[..written] == m;
    assert s3[left..right + 1] == m;
    assert xs == s2[..mid + 1][left..] && s1[left..mid + 1] == s1[..mid + 1][left..];
    SortedSlice(s1, left, mid + 1);
    SortedSlice(s2, mid + 1, right + 1);
    MergeSeqsSorted(xs, ys);
    MergeSeqsPermutation(xs, ys);
    HalvesPermutation(s0, s1, s2, left, mid, right);
    SortedSlice(s3, left, right + 1);
  }
}
