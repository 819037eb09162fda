# TimSort, modelled and verified in Dafny

This project models the two sorting engines of `project_608`:

- `tim_sort_p.py` is the plain engine. It splits the list into blocks of
  `min_run_length(n)` cells and insertion-sorts each block in place. It then
  merges neighbouring blocks pairwise, doubling the block width after each
  pass until one block covers the list.
- `TimSort_Visualization.py` (lines 10–115) is the visualised engine. It uses
  the same block schedule, with three differences:
  - Before the insertion sort, each block is scanned for descending stretches
    to reverse (`reverse_in_place`).
  - Merging goes through `gallop_merge`.
  - Every comparison and every write ticks a `metrics` counter and appends a
    frame to the `frames` list that the engine returns.

## The model

Lists are Dafny arrays of a generic element type `T`, ordered by
`key: T -> int`. The Python code compares plain integers, which is the case
`key == identity`. Keeping the key separate from the element makes stability
a statement about the result, not a vacuous one.

Every loop of the source is a `while` loop over the array. Each one is proved
against a reference function on sequences:

- `InsertionSorted`, built from `Insert`, is the backward shifting scan.
- `Merged` takes the smaller front on each step, and the left one on ties.
- `Reverse` is the reversal.
- `Normalize` and `NormalizeRuns` are the descending-stretch scan of the
  visualised `insertion_sort`.
- `MinRun` is `min_run_length`.
- `RunsFrom` is the run loop of either engine: each block of `min_run`
  cells is replaced by its insertion sort.
- `PairsFrom` is one merge pass of either engine: each pair of
  neighbouring blocks is replaced by its merge.

These are the properties proved about the reference functions:

- `InsertionSorted` is sorted and a stable rearrangement of its input.
- A sorted stable rearrangement is unique. As a result, the result of either
  engine equals `InsertionSorted(input)`, so both engines compute the same
  list.
- The reversal scan only reverses strictly descending stretches, so it is
  stable. Sorting after it gives what sorting without it gives.
- `MinRun(n)` is `n` rounded up after `k` halvings, where `k` is the number of
  halvings that bring `n` below 64.

The visualised engine's `metrics` dictionary and `frames` list are the class
`Frames.Recorder`:

- Every operation states the exact number of comparisons and swaps it adds,
  as functions of the input:
  - `SortComparisons` and `SortShifts` for the insertion sort;
  - the swap count of `NormalizeRuns` for the reversals;
  - `MergeComparisons` and the span length for a merge;
  - for the driver loops, the functions of module `Metrics`: `RunCost` of a
    block, `PairCost` of a pair, `RunsCost` of the run loop, `PassCost` of a
    merge pass, `MergesCost` of the `while size < n` loop, and
    `TimSortCost` of the whole sort.
- Every operation keeps the frames recorded before it: it only appends.
  This is the predicate `Kept(old(rec.frames), rec.frames)`, which
  `KeptIsPrefix` shows is the prefix order on frame lists.
- Every operation keeps the recording well formed: one start frame with zero
  counters, after which each frame adds exactly the one tick its label names.
- The last frame always shows the list as it is.

In `gallop_merge`, the compare frame highlights `left + i` and `len1 + j`. The
model records these indices as the code writes them.

An empty list gives `min_run_length(0) == 0`. `range(0, 0, 0)` then rejects
the zero step before anything is touched. Both engines model this case as
the result `ZeroRangeStep`.

A strictly descending segment that reaches the end of its block is left as it
is by the reversal scan. The only thing that triggers a reversal is a later
strict rise, and none comes. So `[5, 4, 3, 2, 1]` is not reversed but sorted
by the insertion pass, as `ReversePassKeepsFullyDescending` shows. The model
follows the code here.

## Model

| member | source | states |
|---|---|---|
| RunSizer.MinRunLength | project_608/tim_sort_p.py:3-8 | the bit loop returns `MinRun(n)`: `n` divided by `2^k` and rounded up, where `k` is the number of halvings that bring `n` below 64 |
| RunSizer.ShiftsStop | project_608/tim_sort_p.py:5-7 | after `Shifts(n)` halvings `n` is below 64, and one halving fewer it was not |
| RunSizer.MinRunOfShort | project_608/tim_sort_p.py:5-8 | a list shorter than 64 is one run of length `n` |
| RunSizer.MinRunOfLong | project_608/TimSort_Visualization.py:10-16 | for `n >= 64` the run length lies between 32 and 64 |
| RunSizer.MinRunZero | project_608/tim_sort_p.py:43-44 | the run length is zero exactly when the list is empty |
| RunSizer.MinRunCovers | project_608/tim_sort_p.py:44-46 | `2^k` blocks of `MinRun(n)` cells cover `n`, and blocks one cell shorter would not |
| Order.StableIsPermutation | project_608/tim_sort_p.py:41-54 | a stable rearrangement keeps the multiset of elements |
| Order.StableTransitive | project_608/tim_sort_p.py:41-54 | stable rearrangements compose, as the engine's phases do |
| Order.SortedStableUnique | project_608/tim_sort_p.py:41-54 | two sorted stable rearrangements of the same list are equal |
| Insertion.InsertPermutes | project_608/tim_sort_p.py:12-17 | one insertion adds the inserted element and loses nothing |
| Insertion.InsertKeepsSorted | project_608/tim_sort_p.py:12-17 | inserting into a sorted prefix keeps it sorted |
| Insertion.InsertStable | project_608/tim_sort_p.py:14 | the strict `>` stops the scan at an equal key, so the new element stays behind its equals |
| Insertion.InsertionSortedCorrect | project_608/tim_sort_p.py:10-17 | the insertion sort of a list is sorted and a stable rearrangement of it |
| Insertion.StableSortIsInsertionSorted | project_608/tim_sort_p.py:41-54 | any sorted stable rearrangement of a list is its insertion sort |
| Insertion.InsertionSortedOfSorted | project_608/tim_sort_p.py:10-17 | a sorted list is left unchanged |
| Insertion.InsertionSortedIdempotent | project_608/tim_sort_p.py:10-17 | sorting twice is sorting once |
| Insertion.InsertAtGap | project_608/tim_sort_p.py:14-17 | the insertion puts `x` just after the last element whose key is not above `key(x)` |
| Insertion.ShiftStart | project_608/tim_sort_p.py:12-13 | the shifting loop starts with `j = i - 1` and nothing moved |
| Insertion.ShiftStep | project_608/tim_sort_p.py:14-16 | shifting a greater cell one place right keeps the scan's state |
| Insertion.ShiftDone | project_608/tim_sort_p.py:17 | dropping the key into the gap leaves `Insert` of it into the sorted prefix |
| Insertion.SortStart | project_608/tim_sort_p.py:11 | a one-cell prefix is sorted |
| Insertion.SortStep | project_608/tim_sort_p.py:11-17 | one round of the outer loop sorts one cell more |
| Insertion.SortedSegmentIsStable | project_608/tim_sort_p.py:46 | sorting one block in place leaves the rest alone and is a stable rearrangement of the list |
| Insertion.SortShiftsAreInversions | project_608/TimSort_Visualization.py:48-52 | the insertion sort makes one swap per inverted pair of the input |
| Insertion.InsertComparisonsBounds | project_608/TimSort_Visualization.py:45-54 | one insertion compares once more than it shifts, unless it runs off the front |
| Insertion.SortComparisonsBounds | project_608/TimSort_Visualization.py:42-56 | the insertion sort's comparisons lie between its swaps and its swaps plus `n - 1` |
| Insertion.SortedInputCosts | project_608/TimSort_Visualization.py:42-56 | a sorted list costs `n - 1` comparisons and no swaps |
| Insertion.InsertCostsAtGap | project_608/TimSort_Visualization.py:45-54 | an insertion that stops at gap `h` shifts every cell after `h` and compares once more unless `h` is 0 |
| Insertion.SortCostsStep | project_608/TimSort_Visualization.py:42-56 | sorting one cell more costs that one insertion's comparisons and shifts |
| Insertion.SortCostsStart | project_608/TimSort_Visualization.py:42 | a one-cell prefix costs nothing |
| Insertion.SortCountedStart | project_608/TimSort_Visualization.py:42 | the regular insertion sort starts sorted up to `left + 1` with zero cost |
| Insertion.InsertIntoGap | project_608/TimSort_Visualization.py:55 | the gap the loop stops at gives the next sorted prefix; the loop shifted `i - 1 - j` cells and compared once more unless it ran off the front |
| Insertion.SortedUpToParts | project_608/TimSort_Visualization.py:43 | with `[left, i)` sorted, cell `i` still holds its original element |
| Merging.MergedPermutes | project_608/tim_sort_p.py:19-39 | the merge is a permutation of the two buffers |
| Merging.MergeSorted | project_608/tim_sort_p.py:24-39 | the merge of two sorted buffers is sorted |
| Merging.MergeStable | project_608/tim_sort_p.py:25 | taking the left front on ties makes the merge a stable rearrangement of `left + right` |
| Merging.MergeIsStableSort | project_608/tim_sort_p.py:19-39 | the merge of two sorted buffers is sorted, stable and a permutation |
| Merging.MergedSegmentIsStable | project_608/tim_sort_p.py:52-53 | merging two sorted neighbouring blocks in place sorts their span and stably rearranges the list |
| Merging.MergedFromIsMerged | project_608/tim_sort_p.py:24-39 | what is left to write is the merge of what is left of the buffers |
| Merging.MergeProgressStart | project_608/tim_sort_p.py:22-23 | the merge starts at `i = j = 0`, `k = left` |
| Merging.MergeStepLeft | project_608/tim_sort_p.py:25-27 | writing the left front keeps the merge state |
| Merging.MergeStepRight | project_608/tim_sort_p.py:28-30 | writing the right front keeps the merge state |
| Merging.MergeProgressRest | project_608/tim_sort_p.py:32-39 | once one buffer is empty, the rest of the merge is what is left of both buffers |
| Merging.MergeComparisonsBounds | project_608/TimSort_Visualization.py:61-63 | the merge makes at most `len1 + len2 - 1` comparisons, none if a buffer is empty, and at least the shorter buffer's length |
| Merging.MergeComparisonsStep | project_608/TimSort_Visualization.py:61-70 | each round of the first loop costs one comparison |
| Merging.MergeComparisonsRest | project_608/TimSort_Visualization.py:74-86 | the copy loops compare nothing |
| Reversal.Reverse | project_608/TimSort_Visualization.py:18-25 | cell `k` of the reversal is cell `n - 1 - k` of the input |
| Reversal.ReverseStart | project_608/TimSort_Visualization.py:18-20 | the two-pointer reversal starts with nothing swapped |
| Reversal.ReverseStep | project_608/TimSort_Visualization.py:21-25 | swapping the two ends and moving the pointers inwards keeps the state |
| Reversal.ReverseDone | project_608/TimSort_Visualization.py:20 | once the pointers meet, the segment is reversed |
| Reversal.ReverseStrictlyDescendingStable | project_608/TimSort_Visualization.py:32-35 | reversing a strictly descending stretch sorts it and is stable |
| Reversal.Normalize | project_608/TimSort_Visualization.py:29-39 | the scan keeps the length, and its reversals make at most half a swap per cell from the run start on |
| Reversal.NormalizeRuns | project_608/TimSort_Visualization.py:29-39 | the whole scan keeps the length and makes at most `n / 2` swaps |
| Reversal.NormalizeStable | project_608/TimSort_Visualization.py:29-39 | the scan only reverses strictly descending stretches, so it is a stable rearrangement |
| Reversal.NormalizeRunsStable | project_608/TimSort_Visualization.py:29-39 | the scan of a block stably rearranges it |
| Reversal.NormalizeNonDescending | project_608/TimSort_Visualization.py:31-39 | with no descent the scan changes nothing and swaps nothing |
| Reversal.NormalizeRunsOfSorted | project_608/TimSort_Visualization.py:29-39 | a sorted block is left alone by the scan |
| Reversal.NormalizeDescendingTail | project_608/TimSort_Visualization.py:32-33 | a descent that runs to the end of the block triggers no reversal |
| Reversal.NormalizeRunsOfStrictlyDescending | project_608/TimSort_Visualization.py:29-39 | a strictly descending block is left alone by the scan |
| Reversal.ReversePassKeepsFullyDescending | project_608/TimSort_Visualization.py:31-39 | `[5, 4, 3, 2, 1]` passes the scan unchanged with no swaps |
| Reversal.ReversePassReversesBeforeRise | project_608/TimSort_Visualization.py:34-37 | `[3, 2, 1, 4]` becomes `[1, 2, 3, 4]` with one swap |
| Reversal.NormalizeThenSort | project_608/TimSort_Visualization.py:41-56 | insertion-sorting after the scan gives what insertion-sorting the original block gives |
| Reversal.ScanStart | project_608/TimSort_Visualization.py:29-31 | the scan starts at `run_start = left`, `descending = False`, `i = left + 1` |
| Reversal.ScanDescent | project_608/TimSort_Visualization.py:32-33 | a strict descent sets the flag and keeps the scan state |
| Reversal.ScanReverse | project_608/TimSort_Visualization.py:34-37 | reversing the stretch before a rise restarts the run at `i` and keeps the scan state, with its swaps counted |
| Reversal.ScanRestart | project_608/TimSort_Visualization.py:38-39 | any other cell restarts the run at `i` |
| Reversal.ScanDone | project_608/TimSort_Visualization.py:31 | at the end of the scan, the block holds `NormalizeRuns` of what it held, and the swaps are its count |
| Passes.PairBlocks | project_608/tim_sort_p.py:49-51 | `[left, mid]` and `[mid + 1, right]` are blocks `2p` and `2p + 1` of width `size`, and together block `p` of width `2 * size` |
| Passes.RunsStart | project_608/tim_sort_p.py:44 | before the run loop, no block is built |
| Passes.RunStep | project_608/tim_sort_p.py:44-46 | insertion-sorting block `b` builds one block more |
| Passes.RunsDone | project_608/tim_sort_p.py:44-46 | after the run loop, every block of width `min_run` is sorted, and the list is a stable rearrangement |
| Passes.PassStart | project_608/tim_sort_p.py:49 | a merge pass starts with no pair merged |
| Passes.PairDone | project_608/tim_sort_p.py:49-53 | merging pair `p`, or skipping it when `mid >= right`, merges one pair more |
| Passes.PassDone | project_608/tim_sort_p.py:48-54 | after a pass, every block of twice the width is sorted |
| Passes.OneBlockLeft | project_608/tim_sort_p.py:48 | once the width reaches `n`, the one sorted block is the whole list |
| Passes.SortDoneAtWidth | project_608/tim_sort_p.py:48-54 | when the loop stops, the list is `InsertionSorted` of the input |
| PlainTimSort.InsertionSort | project_608/tim_sort_p.py:10-17 | the segment `[left, right]` becomes its insertion sort, and the rest is unchanged |
| PlainTimSort.InsertCell | project_608/tim_sort_p.py:12-17 | one round of the outer loop sorts one cell more |
| PlainTimSort.Merge | project_608/tim_sort_p.py:19-39 | `[left, right]` becomes the merge of `[left, mid]` and `[mid + 1, right]`, and the rest is unchanged |
| PlainTimSort.MergeBack | project_608/tim_sort_p.py:22-39 | the merge of the two buffers is written over the span |
| PlainTimSort.MergeBoth | project_608/tim_sort_p.py:24-31 | the first loop stops with one buffer used up, having written a prefix of the merge |
| PlainTimSort.CopyRest | project_608/tim_sort_p.py:32-39 | a trailing loop copies what is left of its buffer into the next cells |
| PlainTimSort.TimSort | project_608/tim_sort_p.py:41-54 | an empty list is a zero-step error and is left unchanged; any other list becomes `InsertionSorted` of itself (sorted, stable) |
| PlainTimSort.BuildRuns | project_608/tim_sort_p.py:44-46 | the array becomes `RunsFrom` of the old list: each `min_run` block is replaced by the insertion sort of its own contents, so every block is sorted, stably |
| PlainTimSort.MergePass | project_608/tim_sort_p.py:49-53 | the array becomes `PairsFrom` of the old list: each pair of neighbouring blocks is replaced by its merge, so the sorted blocks double in width, stably |
| PlainTimSort.MergePair | project_608/tim_sort_p.py:50-53 | the array becomes `PairMergedAt` of the old list: the pair `[left, mid]`, `[mid + 1, right]` is replaced by its merge (nothing changes when `mid >= right`) and every other cell is unchanged; one pair more is merged and written |
| VisualTimSort.ReverseInPlace | project_608/TimSort_Visualization.py:18-25 | the segment is reversed, with `(right + 1 - left) / 2` swaps and no comparisons; the earlier frames are kept and exactly `(right + 1 - left) / 2` frames are appended, one per swap |
| VisualTimSort.InsertionSort | project_608/TimSort_Visualization.py:27-56 | the block becomes its insertion sort; comparisons grow by `SortComparisons` of the scanned block, swaps by the scan's reversals plus `SortShifts` of the scanned block; an already sorted block is left as it is, with `right - left` comparisons and no swap; the earlier frames are kept |
| VisualTimSort.ScanRuns | project_608/TimSort_Visualization.py:29-39 | the first loop leaves `NormalizeRuns` of the block, with its swap count and no comparisons, and the earlier frames are kept |
| VisualTimSort.ScanCell | project_608/TimSort_Visualization.py:32-39 | one round of the first loop keeps the scan state, and the earlier frames are kept |
| VisualTimSort.ReverseStretch | project_608/TimSort_Visualization.py:34-37 | the reversal on a rise keeps the scan state and restarts the run, and the earlier frames are kept |
| VisualTimSort.SortRun | project_608/TimSort_Visualization.py:41-56 | the second loop insertion-sorts the block, with `SortComparisons` comparisons and `SortShifts` swaps, and the earlier frames are kept |
| VisualTimSort.InsertCell | project_608/TimSort_Visualization.py:43-56 | one round sorts one cell more at the cost of one insertion, and the earlier frames are kept |
| VisualTimSort.ShiftGreater | project_608/TimSort_Visualization.py:45-54 | the inner loop shifts the greater cells, with one comparison per cell examined and one swap per cell shifted, and the earlier frames are kept |
| VisualTimSort.Merge | project_608/TimSort_Visualization.py:88-93 | the span becomes the merge of its two runs, with `MergeComparisons` comparisons and one swap per cell, and the earlier frames are kept |
| VisualTimSort.GallopMerge | project_608/TimSort_Visualization.py:58-86 | the merge of the buffers is written over the span, with `MergeComparisons` comparisons and `len1 + len2` swaps, and the earlier frames are kept |
| VisualTimSort.GallopBoth | project_608/TimSort_Visualization.py:61-72 | the first loop writes a prefix of the merge, with one comparison and one swap per cell, and the earlier frames are kept |
| VisualTimSort.GallopStep | project_608/TimSort_Visualization.py:62-72 | one round writes the smaller front (the left one on ties), with one comparison and one swap, and the earlier frames are kept |
| VisualTimSort.CopyRest | project_608/TimSort_Visualization.py:74-86 | a copy loop writes what is left of its buffer, with one swap per cell and no comparisons, and the earlier frames are kept |
| VisualTimSort.TimSort | project_608/TimSort_Visualization.py:95-115 | an empty list is a zero-step error; otherwise the list becomes `InsertionSorted` of itself, and the returned frames start with the input at zero counters, each later frame adds exactly the tick its label names (a compare frame one comparison, a swap frame one swap, an insert frame none), and the last shows the sorted list with the counters at `TimSortCost` of the input |
| VisualTimSort.BuildRuns | project_608/TimSort_Visualization.py:102-104 | after the run loop, every `min_run` block is replaced by its insertion sort (`RunsFrom`), so every block is sorted, stably; the counters grow by `RunsCost` of the list, and the earlier frames are kept |
| VisualTimSort.BuildRun | project_608/TimSort_Visualization.py:103-104 | one round builds one sorted block more, ticking `RunCost` of that block as the loop found it, and the earlier frames are kept |
| VisualTimSort.MergePass | project_608/TimSort_Visualization.py:108-112 | a merge pass replaces each pair of blocks by its merge (`PairsFrom`), so the sorted blocks double in width, stably; the counters grow by `PassCost` of the list, and the earlier frames are kept |
| VisualTimSort.MergePair | project_608/TimSort_Visualization.py:109-112 | one round merges one pair more, ticking `PairCost` of that pair as the pass found it (nothing when `mid >= right`), and the earlier frames are kept |
| Frames.ConsistentAppend | project_608/TimSort_Visualization.py:98 | a frame that follows the last one keeps the recording well formed |
| Frames.CountersCountFrames | project_608/TimSort_Visualization.py:95-115 | the final counters are the numbers of comparison frames and swap frames |
| Frames.CountersGrow | project_608/TimSort_Visualization.py:95-115 | the counters never decrease from one frame to a later one |
| Frames.KeptIsPrefix | project_608/TimSort_Visualization.py:23 | `Kept(f0, f1)` holds exactly when `f0` is a prefix of `f1`: appending frames is the only change |
| Frames.KeptTrans | project_608/TimSort_Visualization.py:95-115 | frames kept by one step and then by the next are kept by both |
| Passes.RunsFrom | project_608/tim_sort_p.py:44-46 | keeps the length; that the run loop leaves exactly this list is `RunsWrittenDone` / `Metrics.RunsStateDone`, and that it is sorted by blocks and stable is `RunsDone` |
| Passes.PairsFrom | project_608/tim_sort_p.py:49-53 | keeps the length; that a merge pass leaves exactly this list is `PairsWrittenDone` / `Metrics.PassStateDone`, and that it is sorted by double blocks and stable is `PassDone` |
| Passes.PairReplaced | project_608/tim_sort_p.py:49-53 | merging the pair when `mid < right`, or leaving the list alone when the second block is empty, gives the list with that pair replaced by its merge |
| Passes.PairWritten | project_608/tim_sort_p.py:49-53 | one round of the pass replaces the pair by its merge, merges one pair more and writes up to the end of the pair |
| Passes.RunsWrittenDone | project_608/tim_sort_p.py:44-46 | when the run loop reaches the end, the list is `RunsFrom` of the list it started on |
| Passes.PairsWrittenDone | project_608/tim_sort_p.py:49-53 | when the pass reaches the end, the list is `PairsFrom` of the list it started on |
| Metrics.RunCost | project_608/TimSort_Visualization.py:27-56 | an already sorted block costs one comparison per cell after the first and no swap; any non-empty block makes fewer comparisons than its swaps plus its length |
| Metrics.PairCost | project_608/TimSort_Visualization.py:58-93 | a pair whose second block is empty ticks nothing; otherwise one swap per cell and fewer comparisons than swaps |
| Metrics.RunsCost | project_608/TimSort_Visualization.py:102-104 | a run loop over an already sorted stretch ticks no swap, and over `m` cells makes fewer comparisons than its swaps plus `m` |
| Metrics.PassCost | project_608/TimSort_Visualization.py:108-112 | a merge pass ticks at most one swap per cell, and no more comparisons than swaps |
| Metrics.MergesCost | project_608/TimSort_Visualization.py:106-113 | the merge loop ticks no more comparisons than swaps |
| Metrics.TimSortCost | project_608/TimSort_Visualization.py:95-115 | the whole sort ticks at least what its run phase ticks, and makes fewer comparisons than its swaps plus `n` |
| Metrics.ShortListCost | project_608/TimSort_Visualization.py:100-113 | a list shorter than 64 costs exactly what its one block costs: no merge pass runs |
| Metrics.SortedShortListCost | project_608/TimSort_Visualization.py:42-56 | a sorted list shorter than 64 costs `n - 1` comparisons and no swap |
| Metrics.SingletonCost | project_608/TimSort_Visualization.py:95-115 | a one-element list ticks nothing |
| Metrics.RunsStateStep | project_608/TimSort_Visualization.py:102-104 | one more block built, ticking its `RunCost`, keeps the run loop's state, counters included |
| Metrics.RunsStateDone | project_608/TimSort_Visualization.py:102-104 | at the end of the run loop the list is `RunsFrom` of the input, every block is sorted stably, and the ticks are `RunsCost` |
| Metrics.PassStateStep | project_608/TimSort_Visualization.py:108-112 | one more pair merged, ticking its `PairCost`, keeps the pass's state, counters included |
| Metrics.PassStateDone | project_608/TimSort_Visualization.py:108-112 | at the end of a pass the list is `PairsFrom` of what the pass started on, the blocks of twice the width are sorted stably, and the ticks are `PassCost` |
| Metrics.PairRound | project_608/TimSort_Visualization.py:109-112 | merging the pair when `mid < right`, or leaving it, writes one more pair of the pass, and its ticks are `PairCost` of the pair as the pass found it |
| Frames.Recorder.constructor | project_608/TimSort_Visualization.py:98-99 | the recording starts with the input, `-1, -1`, "Start" and zero counters |
| Frames.Recorder.Compared | project_608/TimSort_Visualization.py:46-47 | one comparison more, and a frame showing it appended to the kept frames |
| Frames.Recorder.Swapped | project_608/TimSort_Visualization.py:50-51 | one swap more, and a frame showing it appended to the kept frames |
| Frames.Recorder.Noted | project_608/TimSort_Visualization.py:56 | a frame with the counters unchanged, appended to the kept frames |

## Left out

- The matplotlib animation, its buttons and `generate_datasets` (from line 117 of `TimSort_Visualization.py` on) are left out. They draw frames and pick random inputs, and are not part of the sort.
- `RUN = 32` (line 8) is never read by the engine and is not modelled.
- The source compares integers with `<`, `>` and `<=`. The model compares `key(x)` for an arbitrary integer key. The integer lists are the case `key == identity`. Integers are unbounded in both languages, so there is no width to model.
- `range(0, n, 0)` raising `ValueError` is modelled as the result `ZeroRangeStep`. The exception object and its message are not modelled.
- Python's slices `arr[left:mid + 1]` are copies. They are modelled as sequence values, which is what a copy is.
- VisualTimSort.TimSort: the frames in the middle of the recording are constrained only by their counters and labels. Their snapshots and highlighted indices are set by each step, but no contract states them.
- The loops of each engine are split into one method per loop body. This is a change of shape only: each body method does exactly one round of the source's loop.
- Reversal.Normalize: the number of swaps the scan makes is given by its recursive definition and bounded by `n / 2`. No closed form is stated.
