/**
 * The plain engine of `project_608/tim_sort_p.py`: insertion-sorted runs of
 * `min_run_length(n)` cells, then merge passes of doubling width, all in
 * place on one array.
 */
module PlainTimSort {
  import opened Order
  import opened Insertion
  import opened Merging
  import opened RunSizer
  import opened Passes
  import opened Segments
  import opened Arith

  /**
   * `insertion_sort(arr, left, right)`: sorts `a[left..right]` (inclusive)
   * in place by shifting every greater cell one place right and dropping
   * the key into the gap.
   */
  method InsertionSort<T>(a: array<T>, key: T -> int, left: int, right: int)
    requires 0 <= left <= right < a.Length
    modifies a
    ensures a[..] == old(a[..left]) + InsertionSorted(old(a[left..right + 1]), key) + old(a[right + 1..])
  {
    ghost var s0 := a[..];
    SortStart(s0, key, left);
    var i := left + 1;
    while i <= right
      invariant i <= right + 1
      invariant SortedUpTo(a[..], s0, key, left, i)
    {
      InsertCell(a, key, left, i, s0);
      i := i + 1;
    }
    SortDone(a[..], s0, key, left, i, right + 1);
  }

  /**
   * One round of the outer loop of `insertion_sort`: the `while` loop
   * shifts every cell of `a[left..i]` greater than `a[i]` one place right,
   * and `a[i]` is dropped into the gap.
   */
  method InsertCell<T>(a: array<T>, key: T -> int, left: int, i: int, ghost s: seq<T>)
    requires 0 <= left < i < a.Length && SortedUpTo(a[..], s, key, left, i)
    modifies a
    ensures SortedUpTo(a[..], s, key, left, i + 1)
  {
    ghost var s0 := a[..];
    var x := a[i];
    var j := i - 1;
    ShiftStart(s0, key, left, i);
    while j >= left && key(a[j]) > key(x)
      invariant Shifting(a[..], s0, key, left, i, j)
    {
      ShiftStep(a[..], s0, key, left, i, j);
      a[j + 1] := a[j];
      j := j - 1;
    }
    ShiftDone(a[..], s0, key, left, i, j);
    a[j + 1] := x;
    SortStep(s0, s, key, left, i, a[..]);
  }

  /**
   * `merge(arr, left, mid, right)`: copies `[left, mid]` and
   * `[mid + 1, right]` into two buffers and writes their merge back over
   * `[left, right]`.  `MergedSegmentIsStable` says what this does to
   * sorted halves.
   */
  method Merge<T>(a: array<T>, key: T -> int, left: int, mid: int, right: int)
    requires 0 <= left <= mid < right < a.Length
    modifies a
    ensures a[..] == old(a[..left]) + Merged(old(a[left..mid + 1]), old(a[mid + 1..right + 1]), key) + old(a[right + 1..])
  {
    var leftArr, rightArr := a[left..mid + 1], a[mid + 1..right + 1];
    MergeBack(a, key, leftArr, rightArr, left);
  }

  /**
   * The loops of `merge`: the merge of the buffers `l` and `r` is written
   * over `[left, left + |l| + |r|)`, one slot per step.
   */
  method MergeBack<T>(a: array<T>, key: T -> int, l: seq<T>, r: seq<T>, left: int)
    requires 0 <= left && left + |l| + |r| <= a.Length
    modifies a
    ensures a[..] == old(a[..left]) + Merged(l, r, key) + old(a[left + |l| + |r|..])
  {
    ghost var s0 := a[..];
    MergeProgressStart(s0, l, r, key, left);
    var i, j, k, out := MergeBoth(a, key, l, r, left, s0);
    MergeProgressRest(a[..], s0, l, r, key, left, i, j, out, Merged(l, r, key));
    k := CopyRest(a, l, i, k, s0, left, out);
    k := CopyRest(a, r, j, k, s0, left, out + l[i..]);
  }

  /**
   * The first loop of `merge`: while both buffers have elements left, the
   * smaller front (the left one on ties) is written to the next slot.
   */
  method MergeBoth<T>(a: array<T>, key: T -> int, l: seq<T>, r: seq<T>, left: int, ghost s: seq<T>)
    returns (i: int, j: int, k: int, ghost out: seq<T>)
    requires 0 <= left && MergeProgress(a[..], s, l, r, key, left, 0, 0, [], Merged(l, r, key))
    modifies a
    ensures 0 <= i <= |l| && 0 <= j <= |r| && (i == |l| || j == |r|) && k == left + i + j
    ensures MergeProgress(a[..], s, l, r, key, left, i, j, out, Merged(l, r, key))
  {
    i, j, k := 0, 0, left;
    out := [];
    ghost var whole := Merged(l, r, key);
    while i < |l| && j < |r|
      invariant 0 <= i && 0 <= j && k == left + i + j
      invariant MergeProgress(a[..], s, l, r, key, left, i, j, out, whole)
    {
      if key(l[i]) <= key(r[j]) {
        MergeStepLeft(a[..], s, l, r, key, left, i, j, out, whole);
        a[k] := l[i];
        out := out + [l[i]];
        i := i + 1;
      } else {
        MergeStepRight(a[..], s, l, r, key, left, i, j, out, whole);
        a[k] := r[j];
        out := out + [r[j]];
        j := j + 1;
      }
      k := k + 1;
    }
  }

  /**
   * The two trailing loops of `merge`: what is left of one buffer, from
   * index `from` on, is copied into the next cells, from `k` on.
   */
  method CopyRest<T>(a: array<T>, buf: seq<T>, from: int, k: int,
                     ghost s: seq<T>, ghost lo: nat, ghost out: seq<T>) returns (k': int)
    requires 0 <= from <= |buf| && 0 <= k && k + |buf| - from <= |s|
    requires WrittenUpTo(a[..], s, lo, k, out)
    modifies a
    ensures k' == k + |buf| - from
    ensures WrittenUpTo(a[..], s, lo, k', out + buf[from..])
  {
    var i := from;
    k' := k;
    while i < |buf|
      invariant from <= i <= |buf| && k' == k + i - from
      invariant WrittenUpTo(a[..], s, lo, k', out + buf[from..i])
    {
      WriteNext(a[..], s, lo, k', out + buf[from..i], buf[i]);
      assert buf[from..i + 1] == buf[from..i] + [buf[i]];
      a[k'] := buf[i];
      i := i + 1;
      k' := k' + 1;
    }
    assert buf[from..i] == buf[from..];
  }

  /**
   * `tim_sort_py(arr)`: sorts `a` in place.  The result is the reference
   * sort of the input, which `InsertionSortedCorrect` shows to be sorted
   * and a stable rearrangement.  On an empty list the run length, the step
   * of the block loop, is zero, which `range()` rejects before anything is
   * touched.
   */
  method TimSort<T>(a: array<T>, key: T -> int) returns (r: Outcome<()>)
    modifies a
    ensures r == ZeroRangeStep <==> a.Length == 0
    ensures r == ZeroRangeStep ==> a[..] == old(a[..])
    ensures r.Ok? ==> a[..] == InsertionSorted(old(a[..]), key)
  {
    ghost var s0 := a[..];
    var n := a.Length;
    var minRun := MinRunLength(n);
    MinRunZero(n);
    if minRun == 0 {
      return ZeroRangeStep;
    }
    BuildRuns(a, key, minRun, s0);
    var size := minRun;
    while size < n
      invariant size >= 1
      invariant AllBlocksSorted(a[..], key, size) && StableRearrangement(s0, a[..], key)
    {
      MergePass(a, key, size, s0);
      size := size * 2;
    }
    SortDoneAtWidth(s0, a[..], key, size);
    return Ok(());
  }

  /**
   * The `for start in range(0, n, min_run)` loop of `tim_sort_py`: every
   * block of `minRun` cells is replaced by the insertion sort of its own
   * contents.
   */
  method BuildRuns<T>(a: array<T>, key: T -> int, minRun: int, ghost s0: seq<T>)
    requires minRun > 0 && StableRearrangement(s0, a[..], key)
    modifies a
    ensures AllBlocksSorted(a[..], key, minRun) && StableRearrangement(s0, a[..], key)
    ensures a[..] == RunsFrom(old(a[..]), key, minRun, 0)
  {
    var n := a.Length;
    var start := 0;
    ghost var b: nat := 0;
    ghost var s1 := a[..];
    RunsStart(s1, key, minRun);
    RunsWrittenStart(s1, key, minRun);
    while start < n
      invariant 0 <= start == b * minRun
      invariant RunsBuilt(s1, a[..], key, minRun, b) && RunsWritten(s1, a[..], key, minRun, Min(start, n))
    {
      var end := Min(start + minRun - 1, n - 1);
      ghost var before := a[..];
      InsertionSort(a, key, start, end);
      RunStep(s1, before, a[..], key, minRun, b, start, end + 1);
      RunsWrittenStep(s1, before, a[..], key, minRun, start, end + 1);
      MulNext(b, minRun);
      start := start + minRun;
      b := b + 1;
    }
    RunsDone(s1, a[..], key, minRun, b);
    RunsWrittenDone(s1, a[..], key, minRun, Min(start, n));
    StableTransitive(s0, s1, a[..], key);
  }

  /**
   * One round of the `while size < n` loop of `tim_sort_py`: the
   * `for left in range(0, n, 2 * size)` loop merges each pair of
   * neighbouring blocks of width `size`.
   */
  method MergePass<T>(a: array<T>, key: T -> int, size: int, ghost s0: seq<T>)
    requires size >= 1 && AllBlocksSorted(a[..], key, size) && StableRearrangement(s0, a[..], key)
    modifies a
    ensures AllBlocksSorted(a[..], key, 2 * size) && StableRearrangement(s0, a[..], key)
    ensures a[..] == PairsFrom(old(a[..]), key, size, 0)
  {
    var n := a.Length;
    var left := 0;
    ghost var p: nat := 0;
    ghost var s1 := a[..];
    PassStart(s0, s1, key, size);
    PairsWrittenStart(s1, key, size);
    while left < n
      invariant 0 <= left == p * (2 * size)
      invariant PairsMerged(s0, a[..], key, size, p) && PairsWritten(s1, a[..], key, size, Min(left, n))
    {
      MergePair(a, key, size, left, s0, s1, p);
      MulNext(p, 2 * size);
      left := left + 2 * size;
      p := p + 1;
    }
    PassDone(s0, a[..], key, size, p);
    PairsWrittenDone(s1, a[..], key, size, Min(left, n));
  }

  /**
   * The body of the `for left in range(0, n, 2 * size)` loop: the blocks
   * `[left, mid]` and `[mid + 1, right]` are replaced by their merge when
   * the second is not empty (a merge with an empty block is the first
   * block itself), and every other cell is left alone.  The pass, started
   * on `s1`, has then written one pair more.
   */
  method MergePair<T>(a: array<T>, key: T -> int, size: int, left: int, ghost s0: seq<T>, ghost s1: seq<T>, ghost p: nat)
    requires size >= 1 && 0 <= left == p * (2 * size) < a.Length
    requires PairsMerged(s0, a[..], key, size, p) && PairsWritten(s1, a[..], key, size, left)
    modifies a
    ensures a[..] == PairMergedAt(old(a[..]), key, size, left)
    ensures PairsMerged(s0, a[..], key, size, p + 1) && PairsWritten(s1, a[..], key, size, Min(left + 2 * size, a.Length))
  {
    var n := a.Length;
    var mid := Min(left + size - 1, n - 1);
    var right := Min(left + 2 * size - 1, n - 1);
    ghost var before := a[..];
    if mid < right {
      Merge(a, key, left, mid, right);
    }
    PairWritten(s0, s1, before, a[..], key, size, p, left, mid, right, Min(left + 2 * size, a.Length));
  }
}
