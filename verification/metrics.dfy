/**
 * The `metrics` counters of `project_608/TimSort_Visualization.py` as
 * functions of the list: what `insertion_sort` ticks on one block, what
 * `merge` ticks on one pair, and what a whole `tim_sort` ticks, phase by
 * phase over the lists each phase leaves behind.
 */
module Metrics {
  import opened Order
  import opened Insertion
  import opened Merging
  import opened Reversal
  import opened RunSizer
  import opened Passes

  /** Comparisons and swaps ticked over some stretch of a run. */
  datatype Tally = Tally(comparisons: nat, swaps: nat)
  {
    function Plus(other: Tally): Tally
    {
      Tally(comparisons + other.comparisons, swaps + other.swaps)
    }
  }

  /**
   * What `insertion_sort` ticks on block `b`: the reversals of the scan
   * are swaps, then the insertion sort of the scanned block compares and
   * shifts.  An already sorted block costs one comparison per cell after
   * the first and no swap; any block compares at most once per swap and
   * once per cell after the first.
   */
  function RunCost<T>(b: seq<T>, key: T -> int): (c: Tally)
    ensures Sorted(b, key) ==> c == Tally(if b == [] then 0 else |b| - 1, 0)
    ensures b != [] ==> c.comparisons < c.swaps + |b|
  {
    if b == [] then Tally(0, 0)
    else
      var n := NormalizeRuns(b, key);
      SortComparisonsBounds(n.0, key);
      var c := Tally(SortComparisons(n.0, key), n.1 + SortShifts(n.0, key));
      if Sorted(b, key) then
        NormalizeRunsOfSorted(b, key);
        SortedInputCosts(b, key);
        c
      else c
  }

  /**
   * What `merge` ticks on the pair `l`, `r`: the merge's comparisons and
   * one swap per cell written.  A pair whose second block is empty is not
   * merged and ticks nothing; otherwise every comparison is followed by a
   * write, and the last write by none.
   */
  function PairCost<T>(l: seq<T>, r: seq<T>, key: T -> int): (c: Tally)
    ensures r == [] ==> c == Tally(0, 0)
    ensures r != [] ==> c.comparisons < c.swaps == |l| + |r|
  {
    MergeComparisonsBounds(l, r, key);
    if r == [] then Tally(0, 0) else Tally(MergeComparisons(l, r, key), |l| + |r|)
  }

  /**
   * What the run loop ticks from index `lo` on, block by block: no swap
   * over a sorted stretch, and fewer comparisons than swaps plus cells.
   */
  function RunsCost<T>(s: seq<T>, key: T -> int, w: nat, lo: nat): (c: Tally)
    requires w > 0 && lo <= |s|
    ensures Sorted(s[lo..], key) ==> c.swaps == 0
    ensures lo < |s| ==> c.comparisons < c.swaps + (|s| - lo)
    decreases |s| - lo
  {
    if lo == |s| then Tally(0, 0)
    else
      var hi := Min(lo + w, |s|);
      assert Sorted(s[lo..], key) ==> Sorted(s[lo..hi], key) && Sorted(s[hi..], key) by {
        if Sorted(s[lo..], key) {
          SortedSplit(s[lo..], key, hi - lo);
          assert s[lo..][..hi - lo] == s[lo..hi] && s[lo..][hi - lo..] == s[hi..];
        }
      }
      RunCost(s[lo..hi], key).Plus(RunsCost(s, key, w, hi))
  }

  /**
   * What a merge pass of width `w` ticks from index `lo` on, pair by pair:
   * at most one swap per cell, and fewer comparisons than swaps.
   */
  function PassCost<T>(s: seq<T>, key: T -> int, w: nat, lo: nat): (c: Tally)
    requires w > 0 && lo <= |s|
    ensures c.comparisons <= c.swaps <= |s| - lo
    decreases |s| - lo
  {
    if lo == |s| then Tally(0, 0)
    else
      var mid, hi := Min(lo + w, |s|), Min(lo + 2 * w, |s|);
      PairCost(s[lo..mid], s[mid..hi], key).Plus(PassCost(s, key, w, hi))
  }

  /**
   * What the `while size < n` loop ticks from width `w` on, starting from
   * the list `s`: every pass ticks at least as many swaps as comparisons.
   */
  function MergesCost<T>(s: seq<T>, key: T -> int, w: nat): (c: Tally)
    requires w > 0
    ensures c.comparisons <= c.swaps
    decreases if w < |s| then |s| - w else 0
  {
    if |s| <= w then Tally(0, 0)
    else PassCost(s, key, w, 0).Plus(MergesCost(PairsFrom(s, key, w, 0), key, 2 * w))
  }

  /** The run loop's cost from `lo`: the block at `lo`, then the rest. */
  lemma RunsCostStep<T>(s: seq<T>, key: T -> int, w: nat, lo: nat)
    requires w > 0 && lo < |s|
    ensures RunsCost(s, key, w, lo).comparisons
            == RunCost(s[lo..Min(lo + w, |s|)], key).comparisons + RunsCost(s, key, w, Min(lo + w, |s|)).comparisons
    ensures RunsCost(s, key, w, lo).swaps
            == RunCost(s[lo..Min(lo + w, |s|)], key).swaps + RunsCost(s, key, w, Min(lo + w, |s|)).swaps
  {
  }

  /**
   * The cost of the pair at `lo`, whose blocks are `[lo, mid]` and
   * `[mid + 1, right]` (inclusive bounds): a merge when the second block
   * is not empty, nothing when it is.
   */
  lemma PairCostAt<T>(s: seq<T>, key: T -> int, w: nat, lo: nat, mid: int, right: int)
    requires w > 0 && lo < |s| && mid == Min(lo + w - 1, |s| - 1) && right == Min(lo + 2 * w - 1, |s| - 1)
    ensures var c := PairCost(s[lo..Min(lo + w, |s|)], s[Min(lo + w, |s|)..Min(lo + 2 * w, |s|)], key);
      if mid < right then c == Tally(MergeComparisons(s[lo..mid + 1], s[mid + 1..right + 1], key), right + 1 - lo)
      else c == Tally(0, 0)
  {
    assert mid + 1 == Min(lo + w, |s|) && right + 1 == Min(lo + 2 * w, |s|);
  }

  /**
   * One round of a merge pass, whose blocks are `[lo, mid]` and
   * `[mid + 1, right]` (inclusive bounds), ticking `dc` comparisons and
   * `ds` swaps: merging the blocks when the second is not empty, and
   * leaving them when it is, writes one more pair of the pass, and the
   * ticks are what `PairCost` says of the pair as the pass found it.
   */
  lemma PairRound<T>(s1: seq<T>, t: seq<T>, u: seq<T>, key: T -> int, w: nat, lo: nat, mid: int, right: int, hi: nat,
                     dc: int, ds: int)
    requires PairsWritten(s1, t, key, w, lo) && lo < |t|
    requires mid == Min(lo + w - 1, |t| - 1) && right == Min(lo + 2 * w - 1, |t| - 1) && hi == right + 1
    requires mid < right ==> u == t[..lo] + Merged(t[lo..mid + 1], t[mid + 1..right + 1], key) + t[right + 1..]
    requires mid < right ==> dc == MergeComparisons(t[lo..mid + 1], t[mid + 1..right + 1], key) && ds == right + 1 - lo
    requires right <= mid ==> u == t && dc == 0 && ds == 0
    ensures PairsWritten(s1, u, key, w, hi)
    ensures var c := PairCost(s1[lo..Min(lo + w, |t|)], s1[Min(lo + w, |t|)..Min(lo + 2 * w, |t|)], key);
      dc == c.comparisons && ds == c.swaps
  {
    assert |s1| == |t|;
    PairsWrittenStep(s1, t, u, key, w, lo, mid, right);
    PairTicks(s1, t, key, w, lo, mid, right, dc, ds);
  }

  /** The ticks of a round, counted on the blocks as the pass found them, are the pair's cost. */
  lemma PairTicks<T>(s1: seq<T>, t: seq<T>, key: T -> int, w: nat, lo: nat, mid: int, right: int, dc: int, ds: int)
    requires w > 0 && lo < |s1| == |t| && mid == Min(lo + w - 1, |s1| - 1) && right == Min(lo + 2 * w - 1, |s1| - 1)
    requires t[lo..mid + 1] == s1[lo..mid + 1] && (mid < right ==> t[mid + 1..right + 1] == s1[mid + 1..right + 1])
    requires mid < right ==> dc == MergeComparisons(t[lo..mid + 1], t[mid + 1..right + 1], key) && ds == right + 1 - lo
    requires right <= mid ==> dc == 0 && ds == 0
    ensures var c := PairCost(s1[lo..Min(lo + w, |s1|)], s1[Min(lo + w, |s1|)..Min(lo + 2 * w, |s1|)], key);
      dc == c.comparisons && ds == c.swaps
  {
    PairCostAt(s1, key, w, lo, mid, right);
  }

  /** The pass's cost from `lo`: the pair at `lo`, then the rest. */
  lemma PassCostStep<T>(s: seq<T>, key: T -> int, w: nat, lo: nat)
    requires w > 0 && lo < |s|
    ensures var c := PairCost(s[lo..Min(lo + w, |s|)], s[Min(lo + w, |s|)..Min(lo + 2 * w, |s|)], key);
      PassCost(s, key, w, lo).comparisons == c.comparisons + PassCost(s, key, w, Min(lo + 2 * w, |s|)).comparisons
      && PassCost(s, key, w, lo).swaps == c.swaps + PassCost(s, key, w, Min(lo + 2 * w, |s|)).swaps
  {
  }

  /** The merge loop's cost from width `w` below the length: this pass, then the passes after it. */
  lemma MergesCostStep<T>(s: seq<T>, key: T -> int, w: nat)
    requires 0 < w < |s|
    ensures MergesCost(s, key, w).comparisons
            == PassCost(s, key, w, 0).comparisons + MergesCost(PairsFrom(s, key, w, 0), key, 2 * w).comparisons
    ensures MergesCost(s, key, w).swaps
            == PassCost(s, key, w, 0).swaps + MergesCost(PairsFrom(s, key, w, 0), key, 2 * w).swaps
  {
  }

  // ---- where the drivers' loops stand, counters included ----

  /**
   * The run loop, started on `s1`, has built `b` blocks and reached index
   * `lo`, having ticked `dc` comparisons and `ds` swaps: what the rest of
   * the blocks will tick makes up `RunsCost` of `s1`.
   */
  ghost predicate RunsState<T>(s1: seq<T>, t: seq<T>, key: T -> int, w: nat, b: nat, lo: nat, dc: int, ds: int)
  {
    RunsBuilt(s1, t, key, w, b) && RunsWritten(s1, t, key, w, lo)
    && dc + RunsCost(s1, key, w, lo).comparisons == RunsCost(s1, key, w, 0).comparisons
    && ds + RunsCost(s1, key, w, lo).swaps == RunsCost(s1, key, w, 0).swaps
  }

  lemma RunsStateStart<T>(s1: seq<T>, key: T -> int, w: nat)
    requires w > 0
    ensures RunsState(s1, s1, key, w, 0, 0, 0, 0)
  {
    RunsStart(s1, key, w);
    RunsWrittenStart(s1, key, w);
  }

  /** One more block built at `lo`, ticking what `RunCost` says of it. */
  lemma RunsStateStep<T>(s1: seq<T>, t: seq<T>, u: seq<T>, key: T -> int, w: nat, b: nat, lo: nat,
                         dc: int, ds: int, start: int, b': nat, lo': nat, dc': int, ds': int)
    requires RunsState(s1, t, key, w, b, lo, dc, ds) && 0 <= lo == start < |t|
    requires b' == b + 1 && lo' == Min(start + w, |t|)
    requires RunsBuilt(s1, u, key, w, b') && RunsWritten(s1, u, key, w, lo')
    requires dc' == dc + RunCost(s1[start..Min(start + w, |t|)], key).comparisons
    requires ds' == ds + RunCost(s1[start..Min(start + w, |t|)], key).swaps
    ensures RunsState(s1, u, key, w, b', lo', dc', ds')
  {
    RunsCostStep(s1, key, w, lo);
  }

  /** The run loop has reached the end of the list. */
  lemma RunsStateDone<T>(s0: seq<T>, s1: seq<T>, t: seq<T>, key: T -> int, w: nat, b: nat, lo: nat, dc: int, ds: int)
    requires RunsState(s1, t, key, w, b, lo, dc, ds) && |t| <= b * w && |t| <= lo
    requires StableRearrangement(s0, s1, key)
    ensures AllBlocksSorted(t, key, w) && StableRearrangement(s0, t, key) && t == RunsFrom(s1, key, w, 0)
    ensures dc == RunsCost(s1, key, w, 0).comparisons && ds == RunsCost(s1, key, w, 0).swaps
  {
    RunsDone(s1, t, key, w, b);
    RunsWrittenDone(s1, t, key, w, lo);
    StableTransitive(s0, s1, t, key);
  }

  /**
   * A merge pass of width `w`, started on `s1`, has merged `p` pairs and
   * reached index `lo`, having ticked `dc` comparisons and `ds` swaps: what
   * the rest of the pairs will tick makes up `PassCost` of `s1`.
   */
  ghost predicate PassState<T>(s0: seq<T>, s1: seq<T>, t: seq<T>, key: T -> int, w: nat, p: nat, lo: nat, dc: int, ds: int)
  {
    PairsMerged(s0, t, key, w, p) && PairsWritten(s1, t, key, w, lo)
    && dc + PassCost(s1, key, w, lo).comparisons == PassCost(s1, key, w, 0).comparisons
    && ds + PassCost(s1, key, w, lo).swaps == PassCost(s1, key, w, 0).swaps
  }

  lemma PassStateStart<T>(s0: seq<T>, s1: seq<T>, key: T -> int, w: nat)
    requires w > 0 && AllBlocksSorted(s1, key, w) && StableRearrangement(s0, s1, key)
    ensures PassState(s0, s1, s1, key, w, 0, 0, 0, 0)
  {
    PassStart(s0, s1, key, w);
    PairsWrittenStart(s1, key, w);
  }

  /** One more pair merged at `lo`, ticking what `PairCost` says of it. */
  lemma PassStateStep<T>(s0: seq<T>, s1: seq<T>, t: seq<T>, u: seq<T>, key: T -> int, w: nat, p: nat, lo: nat,
                         dc: int, ds: int, left: int, p': nat, lo': nat, dc': int, ds': int)
    requires PassState(s0, s1, t, key, w, p, lo, dc, ds) && 0 <= lo == left < |t|
    requires p' == p + 1 && lo' == Min(left + 2 * w, |t|)
    requires PairsMerged(s0, u, key, w, p') && PairsWritten(s1, u, key, w, lo')
    requires var c := PairCost(s1[left..Min(left + w, |t|)], s1[Min(left + w, |t|)..Min(left + 2 * w, |t|)], key);
      dc' == dc + c.comparisons && ds' == ds + c.swaps
    ensures PassState(s0, s1, u, key, w, p', lo', dc', ds')
  {
    PassCostStep(s1, key, w, lo);
  }

  /** The pass has reached the end of the list. */
  lemma PassStateDone<T>(s0: seq<T>, s1: seq<T>, t: seq<T>, key: T -> int, w: nat, p: nat, lo: nat, dc: int, ds: int)
    requires PassState(s0, s1, t, key, w, p, lo, dc, ds) && |t| <= p * (2 * w) && |t| <= lo
    ensures AllBlocksSorted(t, key, 2 * w) && StableRearrangement(s0, t, key) && t == PairsFrom(s1, key, w, 0)
    ensures dc == PassCost(s1, key, w, 0).comparisons && ds == PassCost(s1, key, w, 0).swaps
  {
    PassDone(s0, t, key, w, p);
    PairsWrittenDone(s1, t, key, w, lo);
  }

  /**
   * What `tim_sort` ticks on a non-empty list: the run phase, then the
   * merge passes.  Every comparison but fewer than `n` is matched by a
   * swap: the insertion sorts compare once per shift and once more per
   * inserted cell at most, and the merges write after every comparison.
   */
  function TimSortCost<T>(s: seq<T>, key: T -> int): (c: Tally)
    requires s != []
    ensures c.comparisons >= RunsCost(s, key, MinRun(|s|), 0).comparisons
    ensures c.swaps >= RunsCost(s, key, MinRun(|s|), 0).swaps
    ensures c.comparisons < c.swaps + |s|
  {
    MinRunZero(|s|);
    var w := MinRun(|s|);
    RunsCost(s, key, w, 0).Plus(MergesCost(RunsFrom(s, key, w, 0), key, w))
  }

  /** A list shorter than 64 is one run and needs no merge pass. */
  lemma ShortListCost<T>(s: seq<T>, key: T -> int)
    requires s != [] && |s| < 64
    ensures TimSortCost(s, key) == RunCost(s, key)
  {
    MinRunOfShort(|s|);
    assert s[0..|s|] == s;
    assert RunsCost(s, key, |s|, 0) == RunCost(s, key).Plus(RunsCost(s, key, |s|, |s|));
  }

  /** A list shorter than 64 that is already sorted costs one comparison per cell after the first, and no swap. */
  lemma SortedShortListCost<T>(s: seq<T>, key: T -> int)
    requires s != [] && |s| < 64 && Sorted(s, key)
    ensures TimSortCost(s, key) == Tally(|s| - 1, 0)
  {
    ShortListCost(s, key);
  }

  /** A one-element list ticks nothing. */
  lemma SingletonCost<T>(x: T, key: T -> int)
    ensures TimSortCost([x], key) == Tally(0, 0)
  {
    SortedShortListCost([x], key);
  }
}
