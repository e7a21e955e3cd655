# Sorting visualizer engine (BarContainer) in Dafny

This project models the sorting engine of the Godot "sorting in godot"
visualizer: the `BarContainer` control that keeps a list of bar heights,
runs one of four step-driven sorts over it (bubble, insertion, merge,
selection), shuffles it with Fisher–Yates, and guards runs with the
`_isSorting` / `_isPaused` / `_isMuted` flags behind the Play, Reset, Pause
and Mute buttons.

How the program is represented:

- **Board** (`Bars.Board`) is the bar state: the heights list, the
  highlighted index `_evaluatedIndex` (-1 or a bar index), a trace with
  one entry per paced step (the highlighted index at the redraw before each
  delay), and a count of sound ticks. Heights are `float` in the program
  but are only compared and copied, so they are `int` here. Every algorithm
  is a method that takes a board and returns the new one.
- **Cancellation.** `_isSorting` is written by the UI thread while a sort
  waits. It is modelled as an oracle `flag: nat -> bool`: `flag(t)` is the
  flag's value after `t` paced steps. `NeverCleared(flag)` is a run to
  completion. Any other oracle is a cancellation (or several changes) at
  arbitrary steps. Every loop guard reads the flag at the current step
  count, as the program polls `_isSorting` in every guard.
- **Random draws.** The shuffle takes its draws as a parameter: a sequence
  whose entry at `n` lies in `[0, n]`, which is all the program relies on
  from `Random.Next(n + 1)`.
- **Controller.** The three flags form a small record. Play, Pause, Mute
  and Reset are functions on it. `Sort` is the name dispatch followed by
  clearing `_isSorting`.

Main results:

- Each algorithm run to completion leaves the list sorted, as a
  permutation of its input. All four produce the same list: the result of
  an independent functional insertion sort (`Controller.Sort`, via
  `Bars.SortedPermutationUnique`).
- Bubble, insertion and selection sort keep the list a permutation even
  when cancelled at any step.
- A cancelled `Merge` can duplicate a value. `Merging.Merge` states exactly
  what it leaves instead: a prefix of the merge, written from `left`, with
  the old values after it. `Merging.CancelledMerge` runs the model's
  `Merge` on an instance and gets the duplicate from that contract alone.
- The shuffle's outcomes are exactly the rearrangements of its input: it
  always yields a permutation, and every permutation is reached by some
  valid draws.
- Step and sound accounting: one redraw per paced step. Bubble and
  insertion sort exchange (and so tick) only on a strict `>`, so ties and
  sorted input cost them no sound. Run unmuted to completion over `n` bars,
  bubble sort takes `n(n-1)/2` comparison steps plus one step per tick, and
  insertion sort `n-1` key steps plus one step per tick. Selection sort
  always ticks `n - 1` times, self-exchanges included, and takes
  `n(n+1)/2 - 1` paced steps. Merge sort ticks on every write of its
  interleaving loop and never in its tail loops.
- Cancellation latency: once `_isSorting` is cleared for good, a sort ends
  within one paced step, and merge sort at once. Every polled loop takes no
  step after a poll that read false.

## Model

| member | source | states |
|---|---|---|
| Bars.Swap | BarContainer.cs:189-192 | the two slots exchange their values, every other slot keeps its value, and the multiset of heights is unchanged |
| Bars.SortedPermutationUnique | BarContainer.cs:158-176 | two sorted lists with the same multiset are equal, so a completed sort's result is determined by its input whatever algorithm produced it |
| Bubble.CompareSwap | BarContainer.cs:187-193 | the neighbours end up ordered, with the larger one on the right; they are exchanged only when the left one is strictly greater, so equal neighbours never move; nothing else changes and the multiset is kept |
| Bubble.CarryMax | BarContainer.cs:183-193 | if slot `j` holds the largest of slots `0..j`, then after the compare-and-swap at `j`, slot `j+1` holds the largest of slots `0..j+1` |
| Bubble.CompareStep | BarContainer.cs:185-222 | one inner iteration highlights `j` in every redraw; a strict `>` exchanges the neighbours as a paced step of its own with a sound tick, before the comparison's silent paced step; otherwise only that one silent step |
| Bubble.ComparisonsTotal | BarContainer.cs:181-183 | pass `i` makes `n-i-1` comparisons, so the first `i` passes make `i(2n-i-1)/2` of them |
| Bubble.BubblePass | BarContainer.cs:183-223 | one inner pass keeps the multiset and never touches the settled suffix; run to completion, it leaves at `n-i-1` a maximum of the unsorted part; it keeps a partition at `n-i`; on a sorted unsorted part it changes nothing and plays no sound; run unmuted to completion it takes `n-i-1` comparison steps plus one step per tick; it ends within one step of a clearing of the flag |
| Bubble.SettledGrows | BarContainer.cs:181-224 | after a completed pass the sorted suffix, with everything before it not greater, grows by one slot |
| Bubble.BubbleSort | BarContainer.cs:177-226 | the result is a permutation even when cancelled; run to completion it is sorted, and unmuted it takes `n(n-1)/2` comparison steps plus one paced step per tick; sorted input is left unchanged with no sound; cancelled before the first step, nothing happens (same list, trace and sound count); once the flag is cleared for good it ends within one paced step; the highlight ends cleared |
| Insertion.ShiftGreater | BarContainer.cs:233-257 | the shifting loop moves exactly the values in `(j, i)` one slot right, all greater than the key; it stops at the front or at a value not greater than the key unless the flag stopped it; one paced step and one tick (unmuted) per shift; every shift follows a poll that read true; nothing moves when the key's left neighbour is not greater |
| Insertion.RotationKeepsMultiset | BarContainer.cs:236-258 | shifts followed by writing the key into the gap rotate a block of the list, so the multiset is unchanged even when the shifting was cut short |
| Insertion.PlaceKeySorted | BarContainer.cs:231-258 | if the prefix before `i` was sorted and the shifting ran to its natural end, the key written into the gap leaves the prefix through `i` sorted |
| Insertion.UnchangedWhenInPlace | BarContainer.cs:236-258 | with no shift done, writing the key back restores the list exactly |
| Insertion.InsertKey | BarContainer.cs:231-271 | one outer iteration keeps the multiset even if cancelled mid-shift; it never touches slots after `i`; run to completion it extends the sorted prefix by one; a key not smaller than its left neighbour leaves the list unchanged with no sound; unmuted it takes one key step plus one step per tick; only the final key step can follow a false poll, so it ends within one step of a clearing |
| Insertion.InsertionSort | BarContainer.cs:227-274 | the result is a permutation even when cancelled; run to completion it is sorted, and unmuted over `n > 0` bars it takes `n-1` key steps plus one paced step per tick; sorted input is unchanged with no sound; cancelled before the first step, nothing happens (same list, trace and sound count); once the flag is cleared for good it ends within one paced step; the highlight ends cleared |
| Selection.ScanMin | BarContainer.cs:372-392 | the scan returns the leftmost minimum of the part it scanned (strict `<`); it stops early only when the flag is cleared; one paced step per comparison, each after a poll that read true; the heights are not written |
| Selection.SelectionStepsTotal | BarContainer.cs:370-414 | the step counts of the outer iterations add up to `n(n+1)/2 - 1` paced steps for a complete run over `n` bars |
| Selection.SwapAboveKeepsPartition | BarContainer.cs:394-397 | exchanging the minimum into place, between two slots at or above `i`, keeps a partition at `i` |
| Selection.Exchange | BarContainer.cs:394-407 | the exchange puts the scan's minimum at `i`, keeps the multiset and the slots before `i`, takes one paced step with a sound tick, and is a self-exchange, leaving the list as it was, whenever `i` already holds a value no greater than the scan's minimum |
| Selection.SelectStep | BarContainer.cs:370-414 | one outer iteration keeps the multiset even when its scan was cut short; it leaves slots before `i` alone; run to completion it puts at `i` a value no greater than any later one; a sorted unsorted part is unchanged; one sound tick; only the exchange, its last step, can follow a false poll |
| Selection.SortedPrefixGrows | BarContainer.cs:370-414 | placing a minimum of the unsorted part at `i` extends the sorted, partitioned prefix by one |
| Selection.SelectionSort | BarContainer.cs:365-416 | the result is a permutation even when cancelled; run to completion it is sorted, takes `n(n+1)/2 - 1` paced steps and ticks `n-1` times; sorted input is unchanged; muted it plays no sound; cancelled before the first step, nothing happens (same list, trace and sound count); once the flag is cleared for good it ends within one paced step |
| Merging.MergeSeqsPermutation | BarContainer.cs:293-349 | the merge of the two copies holds exactly their values |
| Merging.MergeSeqsSorted | BarContainer.cs:293-349 | the merge of two sorted copies is sorted |
| Merging.TakeLeft | BarContainer.cs:296-300 | when the left head is not greater than the right head (ties included), the next merged value is the left head: ties are taken from the left half |
| Merging.TakeRight | BarContainer.cs:301-305 | when the right head is strictly smaller, the next merged value is the right head |
| Merging.MergeStep | BarContainer.cs:295-312 | one interleaving step writes the next value of the merge at `k`, highlights `k`, and takes one paced step with a sound tick |
| Merging.MergeHeads | BarContainer.cs:293-323 | the interleaving loop writes a prefix of the merge from `left`, and leaves everything else alone; it stops only when a copy is used up or the flag is cleared; one paced step and one tick per value written, each after a poll that read true |
| Merging.CopyTail | BarContainer.cs:325-336 | a tail loop writes a prefix of its remaining values from `k`, stopping early only when the flag is cleared; each copy follows a poll that read true; no sound |
| Merging.CopyTails | BarContainer.cs:325-349 | the two tail loops extend the written prefix of the merge; they stop short of the end only when the flag is cleared, and no copy follows a poll that read false |
| Merging.Merge | BarContainer.cs:275-352 | the list ends as the base list with the first `written` values of the merge of the two halves written from `left`; run to completion all `right-left+1` values are written; fewer are written only when the last poll read false, and no write follows such a poll; one paced step per value; a sound tick (unmuted) for each write of the interleaving loop and none for the tail copies, so at most one per value and none when muted; the highlight ends cleared |
| Merging.CancelledMergeDuplicates | BarContainer.cs:293-349 | a merge of `[2]` and `[1]` cancelled after one write leaves `[1, 1]`, which is not a permutation of `[2, 1]` |
| Merging.CancelledMerge | BarContainer.cs:275-352 | `Merge` of `[2, 1]` around `mid = 0` with the flag cleared after the first step writes exactly one value and leaves `[1, 1]`, which has lost the `2` |
| Merging.MergeSort | BarContainer.cs:353-364 | only slots in `[left, right]` change; with `left >= right`, or with the flag cleared on entry, nothing at all changes; run to completion the range is a sorted permutation of its old contents; every write follows a poll that read true, so it ends as soon as the flag is cleared for good; it ticks at most once per paced step and never when muted |
| Merging.MergeSortedHalves | BarContainer.cs:355-362 | two sorted halves merged to completion give a sorted permutation of the original range |
| Shuffle.ShuffleDown | BarContainer.cs:421-428 | the swap loop from `n` down keeps the length and the multiset, and never touches the slots from `n` on |
| Shuffle.Shuffle | BarContainer.cs:417-432 | for any valid draws, the shuffle is a permutation of its input of the same length |
| Shuffle.ShuffleReachesEveryPermutation | BarContainer.cs:417-428 | every rearrangement of the input is the outcome of the shuffle for some valid draws |
| Controller.AlgorithmOf | BarContainer.cs:160-174 | a recognised selector text maps to the algorithm with exactly that name |
| Controller.NameRoundTrip | BarContainer.cs:160-174 | selector names and `Sort` cases correspond one to one, in both directions |
| Controller.Play | BarContainer.cs:125-134 | a sort is launched exactly when `_isSorting` is false; launching unpauses and sets `_isSorting`; while sorting the flags are unchanged |
| Controller.PlayTwiceIsPlayOnce | BarContainer.cs:125-134 | a second press while the first sort runs launches nothing and changes nothing |
| Controller.Pause | BarContainer.cs:150-153 | flips `_isPaused` and nothing else |
| Controller.Mute | BarContainer.cs:154-157 | flips `_isMuted` and nothing else |
| Controller.ToggleTwice | BarContainer.cs:150-157 | pressing Pause or Mute twice restores the flags |
| Controller.Initial | BarContainer.cs:77-83 | the freshly initialized heights are `n` values in increasing order |
| Controller.Reset | BarContainer.cs:135-149 | `_isSorting` ends false; `_isPaused` is cleared when a sort was running and is kept otherwise; the bars become a rearrangement of `1..n`; highlight, trace and sounds are kept |
| Controller.ResetThenPlayStarts | BarContainer.cs:125-149 | after Reset, Play always launches an unpaused sort, and the bars sort back to `1..n` |
| Controller.MergeSortAll | BarContainer.cs:168-169 | `MergeSort(0, n-1)` run to completion sorts the whole list as a permutation; cancelled on entry it changes nothing; every write follows a poll that read true; a muted run plays no sound |
| Controller.Run | BarContainer.cs:160-174 | each algorithm other than merge sort keeps a permutation; each one run to completion sorts; cancelled before the first step, the heights and the sound count are unchanged; once the flag is cleared for good each ends within one paced step, merge sort at once; a muted run plays no sound |
| Controller.Sort | BarContainer.cs:158-176 | `_isSorting` always ends false, also for an unknown name, which leaves the board unchanged; cancelled before the first step, heights and sound count are unchanged; run to completion every algorithm yields the same sorted rearrangement of the input; a Reset, which clears the flag, ends the run within one paced step; with `_isMuted` set no sound is played |
| Controller.PlayAndSort | BarContainer.cs:125-176 | pressing Play while sorting changes nothing; otherwise the launched sort runs unpaused, ends with `_isSorting` false, and run to completion leaves a sorted permutation; with `_isMuted` set no sound is played |

## Left out

- The Godot side is not modelled: `_Ready`, `_Draw`, node lookup, signal
  wiring, `DeferredQueueRedraw`, `DeferredPlaySound` and the audio player.
  A redraw is recorded as one trace entry, and a sound request as one tick.
- `InitializeRectangles` computes float heights from the viewport size.
  `Controller.Initial(n)` stands in for it, with the heights `1..n`.
- `_totalRectangles` is taken to be the length of the list.
- Pacing is not modelled. The delay `maxDelay / Math.Max(1, slider)` and
  `Task.Delay` are wall-clock behaviour; only the count of paced steps is
  kept.
- Pausing is not modelled at all; the model has no pause. The pause loops
  (`while (_isPaused) await Task.Delay(100)`) change nothing but time where
  they exist. They are not everywhere: `Merge`'s two tail loops
  (BarContainer.cs:325-349) have none, so a Pause pressed while they run
  does not hold back their writes. Only its interleaving loop waits
  (BarContainer.cs:319-322).
- Concurrency is not modelled. `Task.Run` and `async`/`await` are
  sequentialised, and the UI thread's writes to `_isSorting` reach a sort
  only through the flag oracle.
- `_isMuted` is read once per run. A Mute press during a sort would change
  the sound count from then on; that is not modelled.
- `Controller.PlayAndSort` runs the launched sort to its end before
  returning, whereas the program returns from the button handler at once.
- `OnSpinBoxValueChanged` is not modelled. It reinitialises the list
  without touching the flags, which only matters if it races a running
  sort.
- `System.Random` is modelled only by the range of its draws. The shuffle's
  uniformity is not stated.
- Merging.Merge: cancelled part-way, the range is not stated to be a
  permutation, because it need not be. The contract states what the list
  holds instead, and ties the number written to the flag;
  `Merging.CancelledMerge` derives the duplicated `[1, 1]` from it.
- Merging.TakeLeft: stability in the usual sense (equal values keep their
  relative order) is not stated. Heights carry no identity beyond their
  value, so only "ties are taken from the left half" is stated.
- Controller.Sort: the highlighted index after the run is not stated. The
  three loop-based sorts end with it at -1; merge sort leaves it at -1 after
  any merge.
- Controller.Reset: it does not clear `_evaluatedIndex`, and it clears
  `_isPaused` only when a sort was running. The model follows the code in
  both. A paused flag that survives a Reset is cleared by the next Play.
- A cancelled sort does not stop writing at once. Insertion sort still
  writes the key into its gap, and selection sort still does its exchange,
  after the flag is cleared. The model follows the code. In the model the
  list is never rewritten from outside, so both sorts leave a permutation
  of the list they started on.
- Reset racing a sort is not modelled. In the program Reset reinitialises
  and reshuffles `_heights` while the sort waits in `Task.Delay`. Insertion
  sort's pending write of its saved key (BarContainer.cs:258) then lands
  on the new list, which need no longer be a permutation of `1..n`.
  Selection sort's pending exchange swaps two slots of the new list. The
  model's flag oracle clears `_isSorting` but never rewrites the heights,
  because the heights' concurrent writes are outside the model.
- Play after Reset while the cancelled sort still waits is not modelled.
  Play launches whenever `_isSorting` is false (BarContainer.cs:127-132),
  and Reset sets it false (BarContainer.cs:139) before the old sort has
  seen it. A second sort then starts, the old one polls true again and
  carries on over the same list, and whichever ends first clears
  `_isSorting` (BarContainer.cs:175), stopping the other. The model runs
  one sort at a time.
