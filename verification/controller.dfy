/** The run/pause/mute flags behind the buttons, and `Sort`, which runs the
    algorithm chosen by name and clears `_isSorting` when it returns. A press
    of Play is modelled as the flag update followed by the whole sort; the
    sort itself runs on another task in the program. */
module Controller {
  import opened Bars
  import Bubble
  import Insertion
  import Selection
  import Merging
  import Shuffle
  import Reference

  /** `_isSorting`, `_isPaused`, `_isMuted`. */
  datatype Flags = Flags(isSorting: bool, isPaused: bool, isMuted: bool)

  datatype Algorithm = BubbleSort | InsertionSort | MergeSort | SelectionSort

  datatype Option<T> = None | Some(value: T)

  /** The entry of the algorithm selector for each algorithm. */
  function Name(a: Algorithm): string
  {
    match a
    case BubbleSort => "Bubble Sort"
    case InsertionSort => "Insertion Sort"
    case MergeSort => "Merge Sort"
    case SelectionSort => "Selection Sort"
  }

  /** The algorithm a selector text names, if any: the cases of the `switch`
      in `Sort`. */
  function AlgorithmOf(name: string): (r: Option<Algorithm>)
    ensures r.Some? ==> Name(r.value) == name
  {
    if name == "Bubble Sort" then Some(BubbleSort)
    else if name == "Insertion Sort" then Some(InsertionSort)
    else if name == "Merge Sort" then Some(MergeSort)
    else if name == "Selection Sort" then Some(SelectionSort)
    else None
  }

  /** The selector's names and `Sort`'s cases match one to one. */
  lemma NameRoundTrip(a: Algorithm, name: string)
    ensures AlgorithmOf(Name(a)) == Some(a)
    ensures AlgorithmOf(name) == Some(a) <==> Name(a) == name
  {
  }

  /** `OnPlayButtonPressed`: ignored while a sort is running; otherwise
      unpause and mark a sort as running. `started` says whether a sort is
      launched. */
  function Play(f: Flags): (r: (Flags, bool))
    ensures r.1 <==> !f.isSorting
    ensures r.0.isSorting && r.0.isMuted == f.isMuted
    ensures r.1 ==> !r.0.isPaused
    ensures !r.1 ==> r.0 == f
  {
    if !f.isSorting then (f.(isPaused := false, isSorting := true), true) else (f, false)
  }

  /** A second press of Play while the first sort runs does nothing. */
  lemma PlayTwiceIsPlayOnce(f: Flags)
    ensures Play(Play(f).0).0 == Play(f).0
    ensures !Play(Play(f).0).1
  {
  }

  /** `OnPauseButtonPressed`: toggle `_isPaused`. */
  function Pause(f: Flags): (r: Flags)
    ensures r.isPaused != f.isPaused
    ensures r.isSorting == f.isSorting && r.isMuted == f.isMuted
  {
    f.(isPaused := !f.isPaused)
  }

  /** `OnMuteButtonPressed`: toggle `_isMuted`. */
  function Mute(f: Flags): (r: Flags)
    ensures r.isMuted != f.isMuted
    ensures r.isSorting == f.isSorting && r.isPaused == f.isPaused
  {
    f.(isMuted := !f.isMuted)
  }

  /** Pressing Pause (or Mute) twice restores the flags. */
  lemma ToggleTwice(f: Flags)
    ensures Pause(Pause(f)) == f
    ensures Mute(Mute(f)) == f
  {
  }

  /** `InitializeRectangles`, as far as the sorts can tell: `n` heights in
      increasing order, here `1..n`. */
  function Initial(n: nat): (r: seq<int>)
    ensures |r| == n && Sorted(r)
  {
    seq(n, i => i + 1)
  }

  /** `OnResetButtonPressed`: stop a running sort (and only then clear the
      pause flag), and replace the bars with a fresh shuffle of `1..n` for the
      current count `n`, using the random draws `pick`. The highlighted index,
      the redraw trace and the sound count are left as they were. */
  function Reset(f: Flags, b: Board, pick: seq<nat>): (r: (Flags, Board))
    requires b.Valid()
    requires |pick| == |b.heights| && Shuffle.ValidPicks(pick, |b.heights|)
    ensures !r.0.isSorting && r.0.isMuted == f.isMuted
    ensures f.isSorting ==> !r.0.isPaused
    ensures !f.isSorting ==> r.0 == f
    ensures r.1.Valid()
    ensures multiset(r.1.heights) == multiset(Initial(|b.heights|))
    ensures r.1.evaluated == b.evaluated && r.1.redraws == b.redraws && r.1.sounds == b.sounds
  {
    var f' := if f.isSorting then f.(isSorting := false, isPaused := false) else f;
    (f', b.(heights := Shuffle.Shuffle(Initial(|b.heights|), pick)))
  }

  /** After Reset, Play always starts a new, unpaused sort, and the bars are
      in increasing order once that sort runs to completion. */
  lemma ResetThenPlayStarts(f: Flags, b: Board, pick: seq<nat>)
    requires b.Valid()
    requires |pick| == |b.heights| && Shuffle.ValidPicks(pick, |b.heights|)
    ensures Play(Reset(f, b, pick).0).1
    ensures !Play(Reset(f, b, pick).0).0.isPaused
    ensures Reference.SortSeq(Reset(f, b, pick).1.heights) == Initial(|b.heights|)
  {
    var r := Reset(f, b, pick).1;
    Reference.SortedPermutationIsReference(r.heights, Initial(|b.heights|));
  }

  /** The `Merge Sort` case of `Sort`: `MergeSort(0, n-1)` over the whole
      list. */
  method MergeSortAll(b: Board, flag: Flag, muted: bool) returns (r: Board)
    requires b.Valid()
    ensures r.Valid() && |r.heights| == |b.heights|
    ensures b.redraws <= r.redraws
    ensures NeverCleared(flag) ==> Sorted(r.heights) && multiset(r.heights) == multiset(b.heights)
    ensures !flag(b.Clock()) ==> r == b
    // every write began with a poll that read true
    ensures PolledTrue(flag, b.Clock(), r.Clock())
    ensures b.sounds <= r.sounds && (muted ==> r.sounds == b.sounds)
  {
    r := Merging.MergeSort(b, 0, |b.heights| - 1, flag, muted);
    if NeverCleared(flag) && |b.heights| > 0 {
      assert r.heights[0..|b.heights|] == r.heights && b.heights[0..|b.heights|] == b.heights;
    }
  }

  /** One of the four algorithms over the whole list. */
  method Run(a: Algorithm, b: Board, flag: Flag, muted: bool) returns (r: Board)
    requires b.Valid()
    ensures r.Valid() && |r.heights| == |b.heights|
    ensures b.redraws <= r.redraws
    ensures a != MergeSort ==> multiset(r.heights) == multiset(b.heights)
    ensures NeverCleared(flag) ==> Sorted(r.heights) && multiset(r.heights) == multiset(b.heights)
    ensures !flag(b.Clock()) ==> r.heights == b.heights && r.sounds == b.sounds
    // once the flag is cleared for good, every algorithm ends within one
    // step, and merge sort takes no step after a poll that read false
    ensures StopsWithin(flag, b.Clock(), r.Clock(), 1)
    ensures a == MergeSort ==> PolledTrue(flag, b.Clock(), r.Clock())
    // a muted run plays no sound
    ensures b.sounds <= r.sounds && (muted ==> r.sounds == b.sounds)
  {
    match a {
      case BubbleSort =>
        r := Bubble.BubbleSort(b, flag, muted);
      case InsertionSort =>
        r := Insertion.InsertionSort(b, flag, muted);
      case MergeSort =>
        r := MergeSortAll(b, flag, muted);
        PolledStops(flag, b.Clock(), r.Clock());
      case SelectionSort =>
        r := Selection.SelectionSort(b, flag, muted);
    }
  }

  /** `Sort(algorithm)`: run the named algorithm (nothing for an unknown
      name), then clear `_isSorting`. The other flags are left alone; `muted`
      is `_isMuted` during the run. */
  method Sort(f: Flags, b: Board, name: string, flag: Flag) returns (g: Flags, r: Board)
    requires b.Valid()
    ensures !g.isSorting && g.isPaused == f.isPaused && g.isMuted == f.isMuted
    ensures r.Valid() && |r.heights| == |b.heights|
    ensures b.redraws <= r.redraws
    // an unknown name runs nothing
    ensures AlgorithmOf(name) == None ==> r == b
    // every algorithm but merge sort keeps the list a permutation even when cancelled
    ensures AlgorithmOf(name) != Some(MergeSort) ==> multiset(r.heights) == multiset(b.heights)
    // run to completion, every algorithm produces the one sorted rearrangement
    ensures NeverCleared(flag) && AlgorithmOf(name).Some? ==> r.heights == Reference.SortSeq(b.heights)
    // cancelled before the first step, the list is as it was
    ensures !flag(b.Clock()) ==> r.heights == b.heights && r.sounds == b.sounds
    // a Reset, which clears the flag, ends the run within one paced step
    ensures StopsWithin(flag, b.Clock(), r.Clock(), 1)
    // with `_isMuted` set, no sound is played
    ensures b.sounds <= r.sounds && (f.isMuted ==> r.sounds == b.sounds)
  {
    var alg := AlgorithmOf(name);
    if alg.Some? {
      r := Run(alg.value, b, flag, f.isMuted);
      if NeverCleared(flag) {
        Reference.SortedPermutationIsReference(b.heights, r.heights);
      }
    } else {
      r := b;
    }
    g := f.(isSorting := false);
  }

  /** A press of Play followed by the sort it launches: nothing happens while
      a sort is already running; otherwise the sort runs unpaused and
      `_isSorting` is false again when it returns. */
  method PlayAndSort(f: Flags, b: Board, name: string, flag: Flag) returns (g: Flags, r: Board)
    requires b.Valid()
    ensures f.isSorting ==> g == f && r == b
    ensures !f.isSorting ==> !g.isSorting && !g.isPaused && g.isMuted == f.isMuted
    ensures !f.isSorting && NeverCleared(flag) && AlgorithmOf(name).Some? ==>
      Sorted(r.heights) && multiset(r.heights) == multiset(b.heights)
    ensures f.isMuted ==> r.sounds == b.sounds
  {
    var (f', started) := Play(f);
    if started {
      g, r := Sort(f', b, name, flag);
      if NeverCleared(flag) && AlgorithmOf(name).Some? {
        Reference.SortSeqSortedPermutation(b.heights);
      }
    } else {
      g, r := f', b;
    }
  }
}
