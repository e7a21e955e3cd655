/** `ShuffleRectangles`: a Fisher–Yates shuffle. For `n` from the last index
    down to 1, a random `k` in `[0, n]` is drawn and slots `k` and `n` are
    exchanged. The random draws are a parameter: `pick[n]` is the value
    drawn when the loop is at `n` (`pick[0]` is never used). */
module Shuffle {
  import opened Bars

  /** Draws `Random.Next` can produce: the one at `n` lies in `[0, n]`. */
  predicate ValidPicks(pick: seq<nat>, n: nat)
  {
    n <= |pick| && forall m :: 0 <= m < n ==> pick[m] <= m
  }

  /** The loop from `n` down: exchange slot `n-1` with slot `pick[n-1]`, then
      carry on with the slots below. Slots from `n` on are already settled. */
  function ShuffleDown(s: seq<int>, n: nat, pick: seq<nat>): (r: seq<int>)
    requires n <= |s| && ValidPicks(pick, n)
    ensures |r| == |s|
    ensures multiset(r) == multiset(s)
    // the settled slots are never touched again
    ensures r[n..] == s[n..]
    decreases n
  {
    if n <= 1 then s
    else
      SwapBelowKeepsSuffix(s, pick[n - 1], n);
      ShuffleDown(Swap(s, pick[n - 1], n - 1), n - 1, pick)
  }

  /** Exchanging slot `n-1` with a slot below it leaves the slots from `n`
      on alone. */
  lemma SwapBelowKeepsSuffix(s: seq<int>, i: nat, n: nat)
    requires i < n <= |s|
    ensures Swap(s, i, n - 1)[n..] == s[n..]
  {
  }

  /** The whole shuffle of the list. */
  function Shuffle(s: seq<int>, pick: seq<nat>): (r: seq<int>)
    requires |pick| == |s| && ValidPicks(pick, |s|)
    ensures |r| == |s|
    ensures multiset(r) == multiset(s)
  {
    ShuffleDown(s, |s|, pick)
  }

  /** The first slot of `s` that holds `v`. */
  function IndexOf(s: seq<int>, v: int): (i: nat)
    requires v in s
    ensures i < |s| && s[i] == v
  {
    if s[0] == v then 0 else 1 + IndexOf(s[1..], v)
  }

  /** The slot below `n` that the draw at `n-1` must pick for the shuffle of
      `s` to end with `t[n-1]` there. */
  function PickAt(s: seq<int>, t: seq<int>, n: nat): (i: nat)
    requires 0 < n <= |s| == |t|
    requires multiset(s[..n]) == multiset(t[..n])
    ensures i < n && s[i] == t[n - 1]
  {
    assert t[n - 1] == t[..n][n - 1];
    assert t[n - 1] in multiset(s[..n]);
    IndexOf(s[..n], t[n - 1])
  }

  /** The draws that make the shuffle of `s` produce `t`: at each `n`, the
      slot below `n` that holds the value `t` has at `n-1`. */
  function PicksFor(s: seq<int>, t: seq<int>, n: nat): (pick: seq<nat>)
    requires n <= |s| == |t|
    requires multiset(s[..n]) == multiset(t[..n])
    ensures |pick| == n && ValidPicks(pick, n)
    decreases n
  {
    if n <= 1 then seq(n, _ => 0)
    else
      var i := PickAt(s, t, n);
      SwapLast(s, t, n, i);
      PicksFor(Swap(s, i, n - 1), t, n - 1) + [i]
  }

  /** After the exchange that puts `t[n-1]` at `n-1`, the slots below `n-1`
      hold the same values as those of `t`, and the slots from `n-1` on agree
      with `t` when those from `n` on did. */
  lemma SwapLast(s: seq<int>, t: seq<int>, n: nat, i: nat)
    requires i < n <= |s| == |t| && 1 < n
    requires multiset(s[..n]) == multiset(t[..n]) && s[i] == t[n - 1]
    ensures multiset(Swap(s, i, n - 1)[..n - 1]) == multiset(t[..n - 1])
    ensures s[n..] == t[n..] ==> Swap(s, i, n - 1)[n - 1..] == t[n - 1..]
  {
    var r := Swap(s, i, n - 1);
    assert r[..n] == Swap(s[..n], i, n - 1);
    DropLastMultiset(r[..n], t[..n]);
    assert r[..n][..n - 1] == r[..n - 1] && t[..n][..n - 1] == t[..n - 1];
    if s[n..] == t[n..] {
      assert r[n - 1..] == [r[n - 1]] + r[n..];
      assert t[n - 1..] == [t[n - 1]] + t[n..];
    }
  }

  /** Two lists with the same multiset and the same last value have the same
      multiset without it. */
  lemma DropLastMultiset(x: seq<int>, y: seq<int>)
    requires |x| == |y| > 0 && multiset(x) == multiset(y) && x[|x| - 1] == y[|y| - 1]
    ensures multiset(x[..|x| - 1]) == multiset(y[..|y| - 1])
  {
    var k := |x| - 1;
    assert x == x[..k] + [x[k]] && y == y[..k] + [y[k]];
    assert multiset(x) == multiset(x[..k]) + multiset{x[k]};
    assert multiset(y) == multiset(y[..k]) + multiset{y[k]};
    assert multiset(x[..k]) == multiset(x) - multiset{x[k]};
    assert multiset(y[..k]) == multiset(y) - multiset{y[k]};
  }

  /** With the draws of `PicksFor`, the loop from `n` down turns `s` into `t`. */
  lemma {:induction false} ShuffleDownReaches(s: seq<int>, t: seq<int>, n: nat, pick: seq<nat>)
    requires n <= |s| == |t| && ValidPicks(pick, n)
    requires multiset(s[..n]) == multiset(t[..n]) && s[n..] == t[n..]
    requires pick[..n] == PicksFor(s, t, n)
    ensures ShuffleDown(s, n, pick) == t
    decreases n
  {
    if n == 1 {
      SingleSame(s, t);
    } else if n == 0 {
      assert s == s[0..] && t == t[0..];
    } else {
      var s' := Swap(s, PickAt(s, t, n), n - 1);
      PicksForStep(s, t, n, pick);
      SwapLast(s, t, n, PickAt(s, t, n));
      ShuffleDownReaches(s', t, n - 1, pick);
      ShuffleDownStep(s, n, pick);
    }
  }

  /** One iteration of the loop from `n` down. */
  lemma ShuffleDownStep(s: seq<int>, n: nat, pick: seq<nat>)
    requires 1 < n <= |s| && ValidPicks(pick, n)
    ensures ShuffleDown(s, n, pick) == ShuffleDown(Swap(s, pick[n - 1], n - 1), n - 1, pick)
  {
  }

  /** The draws of `PicksFor` from `n` are the draw at `n-1` followed by the
      draws from `n-1` for the list after that exchange. */
  lemma PicksForStep(s: seq<int>, t: seq<int>, n: nat, pick: seq<nat>)
    requires 1 < n <= |s| == |t| && n <= |pick|
    requires multiset(s[..n]) == multiset(t[..n])
    requires pick[..n] == PicksFor(s, t, n)
    ensures pick[n - 1] == PickAt(s, t, n)
    ensures multiset(Swap(s, PickAt(s, t, n), n - 1)[..n - 1]) == multiset(t[..n - 1])
    ensures pick[..n - 1] == PicksFor(Swap(s, PickAt(s, t, n), n - 1), t, n - 1)
  {
    SwapLast(s, t, n, PickAt(s, t, n));
    assert pick[n - 1] == pick[..n][n - 1];
    assert pick[..n - 1] == pick[..n][..n - 1];
  }

  /** Lists that agree from slot 1 on and hold the same value in slot 0 are
      equal. */
  lemma SingleSame(s: seq<int>, t: seq<int>)
    requires 1 <= |s| == |t|
    requires multiset(s[..1]) == multiset(t[..1]) && s[1..] == t[1..]
    ensures s == t
  {
    assert s[..1] == [s[0]] && t[..1] == [t[0]];
    assert s[0] in multiset(t[..1]);
    assert s == [s[0]] + s[1..] && t == [t[0]] + t[1..];
  }

  /** Every rearrangement of the list is a possible outcome of the shuffle:
      the draws `PicksFor(s, t, |s|)` are valid and produce `t`. Together with
      the permutation contract of `Shuffle`, the outcomes of the shuffle are
      exactly the rearrangements of its input. */
  lemma ShuffleReachesEveryPermutation(s: seq<int>, t: seq<int>)
    requires |t| == |s| && multiset(s) == multiset(t)
    ensures ValidPicks(Draws(s, t), |s|)
    ensures Shuffle(s, Draws(s, t)) == t
  {
    assert s[..|s|] == s && t[..|t|] == t;
    ShuffleDownReaches(s, t, |s|, Draws(s, t));
  }

  /** The draws that make the shuffle of `s` produce its rearrangement `t`. */
  function Draws(s: seq<int>, t: seq<int>): (pick: seq<nat>)
    requires |t| == |s| && multiset(s) == multiset(t)
    ensures |pick| == |s| && ValidPicks(pick, |s|)
  {
    assert s[..|s|] == s && t[..|t|] == t;
    PicksFor(s, t, |s|)
  }
}
