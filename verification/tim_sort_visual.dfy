/**
 * The visualised engine of `project_608/TimSort_Visualization.py`: the same
 * block schedule as the plain engine, but each run is first scanned for
 * descending stretches to reverse, the merge is written out as
 * `gallop_merge`, and every step ticks a counter and appends a frame to
 * the recording.
 */
module VisualTimSort {
  import opened Order
  import opened Segments
  import opened Insertion
  import opened Merging
  import opened Reversal
  import opened RunSizer
  import opened Passes
  import opened Arith
  import opened Frames
  import opened Metrics

  /**
   * `reverse_in_place(arr, left, right, frames, metrics)`: reverses
   * `a[left..right]` (inclusive) by swapping from both ends inwards, one
   * swap and one frame per pair.
   */
  method ReverseInPlace<T>(a: array<T>, left: int, right: int, rec: Recorder<T>)
    requires 0 <= left <= right + 1 <= a.Length && Traced(rec, a)
    modifies a, rec
    ensures a[..] == old(a[..left]) + Reverse(old(a[left..right + 1])) + old(a[right + 1..])
    ensures rec.comparisons == old(rec.comparisons) && rec.swaps == old(rec.swaps) + (right + 1 - left) / 2
    ensures Kept(old(rec.frames), rec.frames) && |rec.frames| == |old(rec.frames)| + (right + 1 - left) / 2
    ensures Traced(rec, a)
  {
    ghost var s0, w0 := a[..], rec.swaps;
    ReverseStart(s0, left, right);
    var l, r := left, right;
    while l < r
      invariant Reversing(a[..], s0, left, right, l, r)
      invariant rec.comparisons == old(rec.comparisons) && rec.swaps == w0 + (l - left)
      invariant Kept(old(rec.frames), rec.frames) && |rec.frames| == |old(rec.frames)| + (l - left)
      invariant Traced(rec, a)
    {
      ReverseStep(a[..], s0, left, right, l, r);
      a[l], a[r] := a[r], a[l];
      rec.Swapped(a[..], l, r, InPlaceReverse);
      l, r := l + 1, r - 1;
    }
    ReverseDone(a[..], s0, left, right, l, r);
  }

  /**
   * `insertion_sort(arr, left, right, frames, metrics)`: the descending
   * stretches the scan finds are reversed, then the segment is
   * insertion-sorted.  The result is the insertion sort of what the
   * segment held; the counters grow by what the scan's reversals and the
   * insertion sort of the scanned segment cost.
   */
  method InsertionSort<T>(a: array<T>, key: T -> int, left: int, right: int, rec: Recorder<T>)
    requires 0 <= left <= right < a.Length && Traced(rec, a)
    modifies a, rec
    ensures a[..] == old(a[..left]) + InsertionSorted(old(a[left..right + 1]), key) + old(a[right + 1..])
    ensures rec.comparisons == old(rec.comparisons) + SortComparisons(NormalizeRuns(old(a[left..right + 1]), key).0, key)
    ensures rec.swaps == old(rec.swaps) + NormalizeRuns(old(a[left..right + 1]), key).1
                                        + SortShifts(NormalizeRuns(old(a[left..right + 1]), key).0, key)
    ensures Sorted(old(a[left..right + 1]), key) ==>
              a[..] == old(a[..]) && rec.comparisons == old(rec.comparisons) + (right - left) && rec.swaps == old(rec.swaps)
    ensures Kept(old(rec.frames), rec.frames) && Traced(rec, a)
  {
    ghost var s0 := a[..];
    ghost var n := NormalizeRuns(s0[left..right + 1], key).0;
    ScanRuns(a, key, left, right, rec);
    ghost var s1, f1 := a[..], rec.frames;
    SpliceParts(s0, s1, left, right + 1, n);
    SortRun(a, key, left, right, rec);
    KeptTrans(old(rec.frames), f1, rec.frames);
    NormalizeThenSort(s0[left..right + 1], key);
    if Sorted(s0[left..right + 1], key) {
      assert RunCost(s0[left..right + 1], key) == Tally(right - left, 0);
      InsertionSortedOfSorted(s0[left..right + 1], key);
      Reassemble(s0, left, right + 1);
    }
  }

  /**
   * The first loop of `insertion_sort`: a strict descent sets the flag, a
   * strict rise while it is set reverses the stretch from the run start to
   * the cell before and restarts the run there, anything else restarts the
   * run.  Nothing is compared on the counters.
   */
  method ScanRuns<T>(a: array<T>, key: T -> int, left: int, right: int, rec: Recorder<T>)
    requires 0 <= left <= right < a.Length && Traced(rec, a)
    modifies a, rec
    ensures a[..] == old(a[..left]) + NormalizeRuns(old(a[left..right + 1]), key).0 + old(a[right + 1..])
    ensures rec.comparisons == old(rec.comparisons)
    ensures rec.swaps == old(rec.swaps) + NormalizeRuns(old(a[left..right + 1]), key).1
    ensures Kept(old(rec.frames), rec.frames) && Traced(rec, a)
  {
    ghost var s0, c0, w0 := a[..], rec.comparisons, rec.swaps;
    ghost var final := NormalizeRuns(s0[left..right + 1], key);
    ghost var cur := s0[left..right + 1];
    ScanStart(s0, key, left, right);
    var runStart := left;
    var descending := false;
    var i := left + 1;
    while i <= right
      invariant Scanning(a[..], s0, key, left, right, cur, runStart, i, descending, rec.swaps - w0, final)
      invariant rec.comparisons == c0 && Kept(old(rec.frames), rec.frames) && Traced(rec, a)
    {
      ghost var f1 := rec.frames;
      runStart, descending, cur := ScanCell(a, key, left, right, runStart, i, descending, rec, s0, cur, w0, final);
      KeptTrans(old(rec.frames), f1, rec.frames);
      i := i + 1;
    }
    ScanDone(a[..], s0, key, left, right, cur, runStart, i, descending, rec.swaps - w0, final);
  }

  /**
   * One round of the first loop of `insertion_sort`, at cell `i`: sets the
   * flag, reverses the stretch before `i`, or restarts the run.
   */
  method ScanCell<T>(a: array<T>, key: T -> int, left: int, right: int, runStart: int, i: int, descending: bool,
                     rec: Recorder<T>, ghost s0: seq<T>, ghost cur: seq<T>, ghost w0: int, ghost final: (seq<T>, nat))
    returns (runStart': int, descending': bool, ghost cur': seq<T>)
    requires 0 <= left && i <= right && Traced(rec, a)
    requires Scanning(a[..], s0, key, left, right, cur, runStart, i, descending, rec.swaps - w0, final)
    modifies a, rec
    ensures Scanning(a[..], s0, key, left, right, cur', runStart', i + 1, descending', rec.swaps - w0, final)
    ensures rec.comparisons == old(rec.comparisons) && Kept(old(rec.frames), rec.frames) && Traced(rec, a)
  {
    if key(a[i]) < key(a[i - 1]) {
      ScanDescent(a[..], s0, key, left, right, cur, runStart, i, descending, rec.swaps - w0, final);
      runStart', descending', cur' := runStart, true, cur;
    } else if key(a[i]) > key(a[i - 1]) && descending {
      cur' := ReverseStretch(a, key, left, right, runStart, i, rec, s0, cur, w0, final);
      runStart', descending' := i, false;
    } else {
      ScanRestart(a[..], s0, key, left, right, cur, runStart, i, descending, rec.swaps - w0, final);
      runStart', descending', cur' := i, descending, cur;
    }
  }

  /**
   * A strict rise after a descent: the stretch from the run start to the
   * cell before `i` is reversed in place.
   */
  method ReverseStretch<T>(a: array<T>, key: T -> int, left: int, right: int, runStart: int, i: int,
                           rec: Recorder<T>, ghost s0: seq<T>, ghost cur: seq<T>, ghost w0: int, ghost final: (seq<T>, nat))
    returns (ghost cur': seq<T>)
    requires 0 <= left && i <= right && Traced(rec, a)
    requires Scanning(a[..], s0, key, left, right, cur, runStart, i, true, rec.swaps - w0, final)
    requires key(a[i]) > key(a[i - 1])
    modifies a, rec
    ensures Scanning(a[..], s0, key, left, right, cur', i, i + 1, false, rec.swaps - w0, final)
    ensures rec.comparisons == old(rec.comparisons) && Kept(old(rec.frames), rec.frames) && Traced(rec, a)
  {
    ghost var before, done := a[..], rec.swaps - w0;
    ReverseInPlace(a, runStart, i - 1, rec);
    cur' := ScanReverse(before, a[..], s0, key, left, right, cur, runStart, i, done, rec.swaps - w0, final);
  }

  /**
   * The second loop of `insertion_sort`, the regular insertion sort, with
   * one comparison per cell examined and one swap per cell shifted.
   */
  method SortRun<T>(a: array<T>, key: T -> int, left: int, right: int, rec: Recorder<T>)
    requires 0 <= left <= right < a.Length && Traced(rec, a)
    modifies a, rec
    ensures SortCounted(a[..], old(a[..]), key, left, right + 1, rec.comparisons - old(rec.comparisons), rec.swaps - old(rec.swaps))
    ensures Kept(old(rec.frames), rec.frames) && Traced(rec, a)
  {
    ghost var s0, c0, w0 := a[..], rec.comparisons, rec.swaps;
    SortCountedStart(s0, key, left, rec.comparisons - c0, rec.swaps - w0);
    var i := left + 1;
    while i <= right
      invariant i <= right + 1
      invariant SortCounted(a[..], s0, key, left, i, rec.comparisons - c0, rec.swaps - w0)
      invariant Kept(old(rec.frames), rec.frames) && Traced(rec, a)
    {
      ghost var f1 := rec.frames;
      InsertCell(a, key, left, i, s0, rec, c0, w0);
      KeptTrans(old(rec.frames), f1, rec.frames);
      i := i + 1;
    }
    SortCountedDone(a[..], s0, key, left, i, right + 1, rec.comparisons - c0, rec.swaps - w0);
  }

  /**
   * One round of the regular insertion sort: `a[i]` is inserted into the
   * sorted `a[left..i]`, and the counters, which stood at `c0` and `w0`
   * when the sort began, have grown by the cost of sorting one cell more.
   */
  method InsertCell<T>(a: array<T>, key: T -> int, left: int, i: int, ghost s: seq<T>, rec: Recorder<T>,
                       ghost c0: int, ghost w0: int)
    requires 0 <= left < i < a.Length && Traced(rec, a)
    requires SortCounted(a[..], s, key, left, i, rec.comparisons - c0, rec.swaps - w0)
    modifies a, rec
    ensures SortCounted(a[..], s, key, left, i + 1, rec.comparisons - c0, rec.swaps - w0)
    ensures Kept(old(rec.frames), rec.frames) && Traced(rec, a)
  {
    ghost var s0 := a[..];
    SortCostsStep(s, key, left, i);
    var x := a[i];
    ShiftStart(s0, key, left, i);
    var j := ShiftGreater(a, key, left, i, x, rec, s0);
    InsertIntoGap(a[..], s0, s, key, left, i, j);
    a[j + 1] := x;
    rec.Noted(a[..], j + 1, i, InsertionInsert);
  }

  /**
   * The `while j >= left` loop of the regular insertion sort: each cell
   * examined from the right is one comparison and a frame; each one
   * greater than `x` is shifted right, one swap and a frame; the first one
   * that is not ends the loop.
   */
  method ShiftGreater<T>(a: array<T>, key: T -> int, left: int, i: int, x: T, rec: Recorder<T>, ghost s0: seq<T>)
    returns (j: int)
    requires 0 <= left < i < a.Length && Shifting(a[..], s0, key, left, i, i - 1) && x == s0[i] && Traced(rec, a)
    modifies a, rec
    ensures Shifting(a[..], s0, key, left, i, j) && (j < left || key(a[j]) <= key(x))
    ensures rec.comparisons == old(rec.comparisons) + (i - 1 - j) + (if j < left then 0 else 1)
    ensures rec.swaps == old(rec.swaps) + (i - 1 - j)
    ensures Kept(old(rec.frames), rec.frames) && Traced(rec, a)
  {
    ghost var c0, w0 := rec.comparisons, rec.swaps;
    j := i - 1;
    while j >= left
      invariant Shifting(a[..], s0, key, left, i, j)
      invariant rec.comparisons == c0 + (i - 1 - j) && rec.swaps == w0 + (i - 1 - j)
      invariant Kept(old(rec.frames), rec.frames) && Traced(rec, a)
    {
      rec.Compared(a[..], j, j + 1, InsertionCompare);
      if key(a[j]) > key(x) {
        ShiftStep(a[..], s0, key, left, i, j);
        a[j + 1] := a[j];
        rec.Swapped(a[..], j, j + 1, InsertionSwap);
        j := j - 1;
      } else {
        break;
      }
    }
  }

  /**
   * `merge(arr, left, mid, right, frames, metrics)`: copies the runs
   * `[left, mid]` and `[mid + 1, right]` into two buffers and gallop-merges
   * them back; every cell of the span is written once, as a swap.
   */
  method Merge<T>(a: array<T>, key: T -> int, left: int, mid: int, right: int, rec: Recorder<T>)
    requires 0 <= left <= mid < right < a.Length && Traced(rec, a)
    modifies a, rec
    ensures a[..] == old(a[..left]) + Merged(old(a[left..mid + 1]), old(a[mid + 1..right + 1]), key) + old(a[right + 1..])
    ensures rec.comparisons == old(rec.comparisons) + MergeComparisons(old(a[left..mid + 1]), old(a[mid + 1..right + 1]), key)
    ensures rec.swaps == old(rec.swaps) + (right + 1 - left)
    ensures Kept(old(rec.frames), rec.frames) && Traced(rec, a)
  {
    var leftArr, rightArr := a[left..mid + 1], a[mid + 1..right + 1];
    GallopMerge(a, key, leftArr, rightArr, |leftArr|, |rightArr|, left, rec);
  }

  /**
   * `gallop_merge(arr, left_arr, right_arr, len1, len2, left, ...)`: the
   * merge of the buffers is written over `[left, left + len1 + len2)`; one
   * comparison per step while both buffers have elements, one swap per
   * cell written.
   */
  method GallopMerge<T>(a: array<T>, key: T -> int, l: seq<T>, r: seq<T>, len1: int, len2: int, left: int, rec: Recorder<T>)
    requires len1 == |l| && len2 == |r| && 0 <= left && left + len1 + len2 <= a.Length && Traced(rec, a)
    modifies a, rec
    ensures a[..] == old(a[..left]) + Merged(l, r, key) + old(a[left + len1 + len2..])
    ensures rec.comparisons == old(rec.comparisons) + MergeComparisons(l, r, key)
    ensures rec.swaps == old(rec.swaps) + len1 + len2
    ensures Kept(old(rec.frames), rec.frames) && Traced(rec, a)
  {
    ghost var s0 := a[..];
    MergeProgressStart(s0, l, r, key, left);
    var i, j, k, out := GallopBoth(a, key, l, r, left, s0, rec);
    ghost var f1 := rec.frames;
    MergeProgressRest(a[..], s0, l, r, key, left, i, j, out, Merged(l, r, key));
    k := CopyRest(a, l, i, k, s0, left, out, rec, GallopingCopyLeft);
    ghost var f2 := rec.frames;
    k := CopyRest(a, r, j, k, s0, left, out + l[i..], rec, GallopingCopyRight);
    KeptThrice(old(rec.frames), f1, f2, rec.frames);
    WrittenWhole(a[..], s0, left, k, left + len1 + len2, out + l[i..] + r[j..], Merged(l, r, key));
  }

  /**
   * The first loop of `gallop_merge`: runs while both buffers have
   * elements, one comparison and one swap per round.
   */
  method GallopBoth<T>(a: array<T>, key: T -> int, l: seq<T>, r: seq<T>, left: int, ghost s: seq<T>, rec: Recorder<T>)
    returns (i: int, j: int, k: int, ghost out: seq<T>)
    requires 0 <= left && MergeProgress(a[..], s, l, r, key, left, 0, 0, [], Merged(l, r, key)) && Traced(rec, a)
    modifies a, rec
    ensures 0 <= i <= |l| && 0 <= j <= |r| && (i == |l| || j == |r|) && k == left + i + j
    ensures MergeProgress(a[..], s, l, r, key, left, i, j, out, Merged(l, r, key))
    ensures rec.comparisons == old(rec.comparisons) + MergeComparisons(l, r, key)
    ensures rec.swaps == old(rec.swaps) + i + j
    ensures Kept(old(rec.frames), rec.frames) && Traced(rec, a)
  {
    ghost var c0, w0 := rec.comparisons, rec.swaps;
    i, j, k := 0, 0, left;
    out := [];
    ghost var whole := Merged(l, r, key);
    MergeComparisonsStart(l, r, key);
    while i < |l| && j < |r|
      invariant 0 <= i <= |l| && 0 <= j <= |r| && k == left + i + j
      invariant MergeProgress(a[..], s, l, r, key, left, i, j, out, whole)
      invariant MergeComparisons(l, r, key) == i + j + MergeComparisons(l[i..], r[j..], key)
      invariant rec.comparisons == c0 + i + j && rec.swaps == w0 + i + j
      invariant Kept(old(rec.frames), rec.frames) && Traced(rec, a)
    {
      ghost var f1 := rec.frames;
      i, j, out := GallopStep(a, key, l, r, left, i, j, k, rec, s, out, whole);
      KeptTrans(old(rec.frames), f1, rec.frames);
      k := k + 1;
    }
    MergeComparisonsRest(l, r, key, i, j);
  }

  /**
   * One round of the first loop of `gallop_merge`: a comparison and a
   * frame, then the smaller front (the left one on ties) is written at
   * `k`, a swap and a frame.  The compare frame highlights `left + i` and
   * `len1 + j`.
   */
  method GallopStep<T>(a: array<T>, key: T -> int, l: seq<T>, r: seq<T>, left: int, i: int, j: int, k: int,
                       rec: Recorder<T>, ghost s: seq<T>, ghost out: seq<T>, ghost whole: seq<T>)
    returns (i': int, j': int, ghost out': seq<T>)
    requires 0 <= left && 0 <= i < |l| && 0 <= j < |r| && k == left + i + j
    requires MergeProgress(a[..], s, l, r, key, left, i, j, out, whole) && Traced(rec, a)
    modifies a, rec
    ensures i <= i' <= |l| && j <= j' <= |r| && i' + j' == i + j + 1
    ensures MergeProgress(a[..], s, l, r, key, left, i', j', out', whole)
    ensures MergeComparisons(l[i..], r[j..], key) == 1 + MergeComparisons(l[i'..], r[j'..], key)
    ensures rec.comparisons == old(rec.comparisons) + 1 && rec.swaps == old(rec.swaps) + 1
    ensures Kept(old(rec.frames), rec.frames) && Traced(rec, a)
  {
    rec.Compared(a[..], left + i, |l| + j, GallopingCompare);
    MergeComparisonsStep(l, r, key, i, j);
    if key(l[i]) <= key(r[j]) {
      MergeStepLeft(a[..], s, l, r, key, left, i, j, out, whole);
      a[k] := l[i];
      i', j', out' := i + 1, j, out + [l[i]];
    } else {
      MergeStepRight(a[..], s, l, r, key, left, i, j, out, whole);
      a[k] := r[j];
      i', j', out' := i, j + 1, out + [r[j]];
    }
    rec.Swapped(a[..], k, -1, GallopingMerge);
  }

  /**
   * The two trailing loops of `gallop_merge`: what is left of one buffer,
   * from index `from` on, is copied into the next cells, from `k` on, one
   * swap and one frame per cell.
   */
  method CopyRest<T>(a: array<T>, buf: seq<T>, from: int, k: int,
                     ghost s: seq<T>, ghost lo: nat, ghost out: seq<T>, rec: Recorder<T>, phase: Phase) returns (k': int)
    requires 0 <= from <= |buf| && 0 <= k && k + |buf| - from <= |s|
    requires WrittenUpTo(a[..], s, lo, k, out) && Traced(rec, a) && phase.Swaps()
    modifies a, rec
    ensures k' == k + |buf| - from
    ensures WrittenUpTo(a[..], s, lo, k', out + buf[from..])
    ensures rec.comparisons == old(rec.comparisons) && rec.swaps == old(rec.swaps) + (|buf| - from)
    ensures Kept(old(rec.frames), rec.frames) && Traced(rec, a)
  {
    ghost var w0 := rec.swaps;
    var i := from;
    k' := k;
    while i < |buf|
      invariant from <= i <= |buf| && k' == k + i - from
      invariant WrittenUpTo(a[..], s, lo, k', out + buf[from..i])
      invariant rec.comparisons == old(rec.comparisons) && rec.swaps == w0 + (i - from)
      invariant Kept(old(rec.frames), rec.frames) && Traced(rec, a)
    {
      WriteNext(a[..], s, lo, k', out + buf[from..i], buf[i]);
      assert buf[from..i + 1] == buf[from..i] + [buf[i]];
      a[k'] := buf[i];
      i := i + 1;
      k' := k' + 1;
      rec.Swapped(a[..], k' - 1, -1, phase);
    }
    assert buf[from..i] == buf[from..];
  }

  /**
   * `tim_sort(arr)`: sorts `a` in place and gives back the recording.  The
   * list ends as the reference sort of the input; the recording starts
   * with a frame of the input and zero counters, ends with a frame of the
   * sorted list and the counters `TimSortCost` of the input, and every
   * frame in between follows its predecessor by the one tick its label
   * stands for.  On an empty list the zero run length is rejected as a
   * `range()` step.
   */
  method TimSort<T>(a: array<T>, key: T -> int) returns (r: Outcome<seq<Frame<T>>>)
    modifies a
    ensures r == ZeroRangeStep <==> a.Length == 0
    ensures r == ZeroRangeStep ==> a[..] == old(a[..])
    ensures r.Ok? ==> a[..] == InsertionSorted(old(a[..]), key)
    ensures r.Ok? ==> Consistent(r.value) && r.value[0] == Frame(old(a[..]), -1, -1, Start, 0, 0)
    ensures r.Ok? ==> Last(r.value).snapshot == a[..]
    ensures r.Ok? ==> Last(r.value).comparisons == TimSortCost(old(a[..]), key).comparisons
    ensures r.Ok? ==> Last(r.value).swaps == TimSortCost(old(a[..]), key).swaps
  {
    ghost var s0 := a[..];
    var n := a.Length;
    var rec := new Recorder(a[..]);
    var minRun := MinRunLength(n);
    MinRunZero(n);
    if minRun == 0 {
      return ZeroRangeStep;
    }
    ghost var total := TimSortCost(s0, key);
    BuildRuns(a, key, minRun, s0, rec);
    var size := minRun;
    while size < n
      invariant size >= 1
      invariant AllBlocksSorted(a[..], key, size) && StableRearrangement(s0, a[..], key)
      invariant rec.comparisons + MergesCost(a[..], key, size).comparisons == total.comparisons
      invariant rec.swaps + MergesCost(a[..], key, size).swaps == total.swaps
      invariant Traced(rec, a)
    {
      MergesCostStep(a[..], key, size);
      MergePass(a, key, size, s0, rec);
      size := 2 * size;
    }
    SortDoneAtWidth(s0, a[..], key, size);
    return Ok(rec.frames);
  }

  /** The `for start in range(0, n, min_run)` loop of `tim_sort`. */
  method BuildRuns<T>(a: array<T>, key: T -> int, minRun: int, ghost s0: seq<T>, rec: Recorder<T>)
    requires minRun > 0 && StableRearrangement(s0, a[..], key) && Traced(rec, a)
    modifies a, rec
    ensures AllBlocksSorted(a[..], key, minRun) && StableRearrangement(s0, a[..], key)
    ensures a[..] == RunsFrom(old(a[..]), key, minRun, 0)
    ensures rec.comparisons == old(rec.comparisons) + RunsCost(old(a[..]), key, minRun, 0).comparisons
    ensures rec.swaps == old(rec.swaps) + RunsCost(old(a[..]), key, minRun, 0).swaps
    ensures Kept(old(rec.frames), rec.frames) && Traced(rec, a)
  {
    var n := a.Length;
    var start := 0;
    ghost var b: nat := 0;
    ghost var s1, c0, w0 := a[..], rec.comparisons, rec.swaps;
    RunsStateStart(s1, key, minRun);
    while start < n
      invariant 0 <= start == b * minRun
      invariant RunsState(s1, a[..], key, minRun, b, Min(start, n), rec.comparisons - c0, rec.swaps - w0)
      invariant Kept(old(rec.frames), rec.frames) && Traced(rec, a)
    {
      ghost var t, b0, lo, start0, dc, ds, f1 := a[..], b, Min(start, n), start, rec.comparisons - c0, rec.swaps - w0, rec.frames;
      BuildRun(a, key, minRun, start, s1, b, rec);
      KeptTrans(old(rec.frames), f1, rec.frames);
      MulNext(b, minRun);
      start, b := start + minRun, b + 1;
      RunsStateStep(s1, t, a[..], key, minRun, b0, lo, dc, ds, start0, b, Min(start, n), rec.comparisons - c0, rec.swaps - w0);
    }
    RunsStateDone(s0, s1, a[..], key, minRun, b, Min(start, n), rec.comparisons - c0, rec.swaps - w0);
  }

  /**
   * The body of the `for start in range(0, n, min_run)` loop of `tim_sort`:
   * the block from `start` is sorted in place, ticking what `RunCost` says
   * of the block as the loop found it.
   */
  method BuildRun<T>(a: array<T>, key: T -> int, minRun: int, start: int, ghost s1: seq<T>, ghost b: nat, rec: Recorder<T>)
    requires minRun > 0 && 0 <= start == b * minRun < a.Length
    requires RunsBuilt(s1, a[..], key, minRun, b) && RunsWritten(s1, a[..], key, minRun, start) && Traced(rec, a)
    modifies a, rec
    ensures RunsBuilt(s1, a[..], key, minRun, b + 1) && RunsWritten(s1, a[..], key, minRun, Min(start + minRun, a.Length))
    ensures rec.comparisons == old(rec.comparisons) + RunCost(s1[start..Min(start + minRun, a.Length)], key).comparisons
    ensures rec.swaps == old(rec.swaps) + RunCost(s1[start..Min(start + minRun, a.Length)], key).swaps
    ensures Kept(old(rec.frames), rec.frames) && Traced(rec, a)
  {
    var end := Min(start + minRun - 1, a.Length - 1);
    ghost var before := a[..];
    InsertionSort(a, key, start, end, rec);
    RunStep(s1, before, a[..], key, minRun, b, start, end + 1);
    RunsWrittenStep(s1, before, a[..], key, minRun, start, end + 1);
  }

  /** One round of the `while size < n` loop of `tim_sort`. */
  method MergePass<T>(a: array<T>, key: T -> int, size: int, ghost s0: seq<T>, rec: Recorder<T>)
    requires size >= 1 && AllBlocksSorted(a[..], key, size) && StableRearrangement(s0, a[..], key)
    requires Traced(rec, a)
    modifies a, rec
    ensures AllBlocksSorted(a[..], key, 2 * size) && StableRearrangement(s0, a[..], key)
    ensures a[..] == PairsFrom(old(a[..]), key, size, 0)
    ensures rec.comparisons == old(rec.comparisons) + PassCost(old(a[..]), key, size, 0).comparisons
    ensures rec.swaps == old(rec.swaps) + PassCost(old(a[..]), key, size, 0).swaps
    ensures Kept(old(rec.frames), rec.frames) && Traced(rec, a)
  {
    var n := a.Length;
    var left := 0;
    ghost var p: nat := 0;
    ghost var s1, c0, w0 := a[..], rec.comparisons, rec.swaps;
    PassStateStart(s0, s1, key, size);
    while left < n
      invariant 0 <= left == p * (2 * size)
      invariant PassState(s0, s1, a[..], key, size, p, Min(left, n), rec.comparisons - c0, rec.swaps - w0)
      invariant Kept(old(rec.frames), rec.frames) && Traced(rec, a)
    {
      ghost var t, p0, lo, left0, dc, ds, f1 := a[..], p, Min(left, n), left, rec.comparisons - c0, rec.swaps - w0, rec.frames;
      MergePair(a, key, size, left, s0, s1, p, lo, c0, w0, rec);
      KeptTrans(old(rec.frames), f1, rec.frames);
      MulNext(p, 2 * size);
      left, p := left + 2 * size, p + 1;
      PassStateStep(s0, s1, t, a[..], key, size, p0, lo, dc, ds, left0, p, Min(left, n), rec.comparisons - c0, rec.swaps - w0);
    }
    PassStateDone(s0, s1, a[..], key, size, p, Min(left, n), rec.comparisons - c0, rec.swaps - w0);
  }

  /**
   * The body of the `for left in range(0, n, 2 * size)` loop of `tim_sort`:
   * the pair from `left` is merged when its second block is not empty,
   * ticking what `PairCost` says of the pair as the pass found it.
   */
  method MergePair<T>(a: array<T>, key: T -> int, size: int, left: int, ghost s0: seq<T>, ghost s1: seq<T>, ghost p: nat,
                      ghost lo: nat, ghost c0: int, ghost w0: int, rec: Recorder<T>)
    requires size >= 1 && 0 <= left == p * (2 * size) < a.Length && lo == left && Traced(rec, a)
    requires PassState(s0, s1, a[..], key, size, p, lo, rec.comparisons - c0, rec.swaps - w0)
    modifies a, rec
    ensures PairsMerged(s0, a[..], key, size, p + 1) && PairsWritten(s1, a[..], key, size, Min(left + 2 * size, a.Length))
    ensures var c := PairCost(s1[left..Min(left + size, a.Length)], s1[Min(left + size, a.Length)..Min(left + 2 * size, a.Length)], key);
      rec.comparisons - old(rec.comparisons) == c.comparisons && rec.swaps - old(rec.swaps) == c.swaps
    ensures Kept(old(rec.frames), rec.frames) && Traced(rec, a)
  {
    var n := a.Length;
    var mid := Min(left + size - 1, n - 1);
    var right := Min(left + 2 * size - 1, n - 1);
    ghost var before, cb, wb := a[..], rec.comparisons, rec.swaps;
    if mid < right {
      Merge(a, key, left, mid, right, rec);
    }
    PairDone(s0, before, a[..], key, size, p, left, mid, right);
    PairRound(s1, before, a[..], key, size, left, mid, right, Min(left + 2 * size, a.Length), rec.comparisons - cb, rec.swaps - wb);
  }
}
