/**
 * The block schedule that both sort drivers follow: the list is cut into
 * aligned blocks of one width, block `c` covering `[c * w, (c + 1) * w)`
 * clipped to the list, and each merge pass fuses blocks `2p` and `2p + 1`
 * of width `w` into block `p` of width `2w`.
 */
module Passes {
  import opened Order
  import opened Arith
  import opened Segments
  import opened Insertion
  import opened Merging

  /** What a driver gives back: its result, or the error `range()` raises on a zero step. */
  datatype Outcome<R> = Ok(value: R) | ZeroRangeStep

  /** Block `c` of width `w`; empty once it starts past the end. */
  function Block<T>(s: seq<T>, w: nat, c: nat): (b: seq<T>)
    ensures |b| <= w
  {
    var lo := Min(c * w, |s|);
    s[lo..Min(lo + w, |s|)]
  }

  /** Every block of width `w` from index `from` up to `to` is sorted. */
  ghost predicate BlocksSorted<T>(s: seq<T>, key: T -> int, w: nat, from: nat, to: nat)
  {
    forall c: nat :: from <= c < to ==> Sorted(Block(s, w, c), key)
  }

  /** Every block of width `w` is sorted. */
  ghost predicate AllBlocksSorted<T>(s: seq<T>, key: T -> int, w: nat)
  {
    forall c: nat :: Sorted(Block(s, w, c), key)
  }

  /** A block inside an unchanged prefix is unchanged. */
  lemma BlockInPrefix<T>(s: seq<T>, t: seq<T>, w: nat, c: nat, hi: nat)
    requires |s| == |t| && hi <= |s| && s[..hi] == t[..hi] && (c + 1) * w <= hi
    ensures Block(s, w, c) == Block(t, w, c)
  {
    var lo := c * w;
    assert lo + w == (c + 1) * w;
    assert Block(s, w, c) == s[lo..lo + w] == s[..hi][lo..lo + w];
    assert Block(t, w, c) == t[lo..lo + w] == t[..hi][lo..lo + w];
  }

  /** A block inside an unchanged suffix is unchanged. */
  lemma BlockInSuffix<T>(s: seq<T>, t: seq<T>, w: nat, c: nat, lo: nat)
    requires |s| == |t| && lo <= |s| && s[lo..] == t[lo..] && lo <= c * w
    ensures Block(s, w, c) == Block(t, w, c)
  {
    var b := Min(c * w, |s|);
    var e := Min(b + w, |s|);
    assert lo <= b <= e <= |s|;
    assert Block(s, w, c) == s[b..e] && Block(t, w, c) == t[b..e];
    assert s[b..e] == s[lo..][b - lo..e - lo];
    assert t[b..e] == t[lo..][b - lo..e - lo];
  }

  /** Blocks starting at or after the end are empty. */
  lemma BlocksPastEnd<T>(s: seq<T>, key: T -> int, w: nat, from: nat)
    requires |s| <= from * w
    ensures forall c: nat :: from <= c ==> Block(s, w, c) == []
  {
    forall c: nat | from <= c ensures Block(s, w, c) == [] {
      MulMonotone(from, c, w);
    }
  }

  /**
   * Sorting the segment of block `b` in place, with everything before it
   * untouched, extends the sorted prefix of blocks by one.
   */
  lemma RunBuilt<T>(s: seq<T>, t: seq<T>, key: T -> int, w: nat, b: nat)
    requires |s| == |t| && b * w < |s|
    requires BlocksSorted(s, key, w, 0, b)
    requires t[..b * w] == s[..b * w]
    requires Sorted(t[b * w..Min(b * w + w, |t|)], key)
    ensures BlocksSorted(t, key, w, 0, b + 1)
  {
    forall c: nat | c < b + 1 ensures Sorted(Block(t, w, c), key) {
      if c < b {
        MulMonotone(c + 1, b, w);
        BlockInPrefix(s, t, w, c, b * w);
      }
    }
  }

  /** The blocks of pair `p` at width `w`, and the block they make at width `2w`. */
  lemma PairBlocks<T>(s: seq<T>, w: nat, p: nat)
    requires p * (2 * w) < |s|
    ensures Block(s, w, 2 * p) == s[p * (2 * w)..Min(p * (2 * w) + w, |s|)]
    ensures Block(s, w, 2 * p + 1) == s[Min(p * (2 * w) + w, |s|)..Min(p * (2 * w) + 2 * w, |s|)]
    ensures Block(s, 2 * w, p) == s[p * (2 * w)..Min(p * (2 * w) + 2 * w, |s|)]
  {
    PairProducts(p, w);
  }

  /**
   * One step of a merge pass: when pair `p`'s span has become sorted and
   * nothing outside it changed, the pass has one more sorted block of
   * width `2w` behind it and the blocks of width `w` ahead are intact.
   */
  lemma PairMerged<T>(s: seq<T>, t: seq<T>, key: T -> int, w: nat, p: nat)
    requires |s| == |t| && p * (2 * w) < |s|
    requires BlocksSorted(s, key, 2 * w, 0, p)
    requires forall c: nat :: 2 * p <= c ==> Sorted(Block(s, w, c), key)
    requires t[..p * (2 * w)] == s[..p * (2 * w)]
    requires t[Min(p * (2 * w) + 2 * w, |s|)..] == s[Min(p * (2 * w) + 2 * w, |s|)..]
    requires Sorted(t[p * (2 * w)..Min(p * (2 * w) + 2 * w, |s|)], key)
    ensures BlocksSorted(t, key, 2 * w, 0, p + 1)
    ensures forall c: nat :: 2 * (p + 1) <= c ==> Sorted(Block(t, w, c), key)
  {
    PairMergedBehind(s, t, key, w, p);
    PairMergedAhead(s, t, key, w, p);
  }

  /** The blocks of width `2w` up to and including pair `p` are sorted. */
  lemma PairMergedBehind<T>(s: seq<T>, t: seq<T>, key: T -> int, w: nat, p: nat)
    requires |s| == |t| && p * (2 * w) < |s|
    requires BlocksSorted(s, key, 2 * w, 0, p)
    requires t[..p * (2 * w)] == s[..p * (2 * w)]
    requires Sorted(t[p * (2 * w)..Min(p * (2 * w) + 2 * w, |s|)], key)
    ensures BlocksSorted(t, key, 2 * w, 0, p + 1)
  {
    forall c: nat | c < p + 1 ensures Sorted(Block(t, 2 * w, c), key) {
      if c < p {
        MulMonotone(c + 1, p, 2 * w);
        BlockInPrefix(s, t, 2 * w, c, p * (2 * w));
      } else {
        PairBlocks(t, w, p);
      }
    }
  }

  /** The blocks of width `w` past pair `p` are untouched, so still sorted. */
  lemma PairMergedAhead<T>(s: seq<T>, t: seq<T>, key: T -> int, w: nat, p: nat)
    requires |s| == |t|
    requires forall c: nat :: 2 * p <= c ==> Sorted(Block(s, w, c), key)
    requires t[Min(p * (2 * w) + 2 * w, |s|)..] == s[Min(p * (2 * w) + 2 * w, |s|)..]
    ensures forall c: nat :: 2 * (p + 1) <= c ==> Sorted(Block(t, w, c), key)
  {
    forall c: nat | 2 * (p + 1) <= c ensures Sorted(Block(t, w, c), key) {
      MulMonotone(2 * (p + 1), c, w);
      PairProducts(p, w);
      BlockInSuffix(s, t, w, c, Min(p * (2 * w) + 2 * w, |s|));
    }
  }

  /** Once the width covers the whole list, its single block is the list. */
  lemma OneBlockLeft<T>(s: seq<T>, key: T -> int, w: nat)
    requires |s| <= w && AllBlocksSorted(s, key, w)
    ensures Sorted(s, key)
  {
    assert Block(s, w, 0) == s;
  }

  // ---- the two phases of the driver, one step at a time ----

  /**
   * Where the run phase stands after `b` blocks of width `w`: those blocks
   * are sorted, and the list is a stable rearrangement of the input `s0`.
   */
  ghost predicate RunsBuilt<T>(s0: seq<T>, t: seq<T>, key: T -> int, w: nat, b: nat)
  {
    BlocksSorted(t, key, w, 0, b) && StableRearrangement(s0, t, key)
  }

  lemma RunsStart<T>(s0: seq<T>, key: T -> int, w: nat)
    ensures RunsBuilt(s0, s0, key, w, 0)
  {
    StableReflexive(s0, key);
  }

  /** Insertion-sorting block `b`, which is `[lo, hi)`, in place builds one more run. */
  lemma RunStep<T>(s0: seq<T>, s: seq<T>, t: seq<T>, key: T -> int, w: nat, b: nat, lo: nat, hi: nat)
    requires RunsBuilt(s0, s, key, w, b) && lo == b * w < hi == Min(lo + w, |s|)
    requires t == s[..lo] + InsertionSorted(s[lo..hi], key) + s[hi..]
    ensures RunsBuilt(s0, t, key, w, b + 1)
  {
    SortedSegmentIsStable(s, t, key, lo, hi);
    RunBuilt(s, t, key, w, b);
    StableTransitive(s0, s, t, key);
  }

  /** Once the blocks reach the end of the list, every block of width `w` is sorted. */
  lemma RunsDone<T>(s0: seq<T>, t: seq<T>, key: T -> int, w: nat, b: nat)
    requires RunsBuilt(s0, t, key, w, b) && |t| <= b * w
    ensures AllBlocksSorted(t, key, w) && StableRearrangement(s0, t, key)
  {
    BlocksPastEnd(t, key, w, b);
  }

  /**
   * Where a merge pass of width `w` stands after `p` pairs: the blocks of
   * width `2w` behind are sorted, the blocks of width `w` ahead are still
   * sorted, and the list is a stable rearrangement of the input `s0`.
   */
  ghost predicate PairsMerged<T>(s0: seq<T>, t: seq<T>, key: T -> int, w: nat, p: nat)
  {
    BlocksSorted(t, key, 2 * w, 0, p)
    && (forall c: nat :: 2 * p <= c ==> Sorted(Block(t, w, c), key))
    && StableRearrangement(s0, t, key)
  }

  lemma PassStart<T>(s0: seq<T>, t: seq<T>, key: T -> int, w: nat)
    requires AllBlocksSorted(t, key, w) && StableRearrangement(s0, t, key)
    ensures PairsMerged(s0, t, key, w, 0)
  {
  }

  /**
   * One round of a merge pass at pair `p`, whose blocks are `[lo, mid]` and
   * `[mid + 1, right]` (inclusive bounds): `t` is `s` with the two merged
   * when the second is not empty, and `s` itself when it is.
   */
  lemma PairDone<T>(s0: seq<T>, s: seq<T>, t: seq<T>, key: T -> int, w: nat, p: nat, lo: nat, mid: int, right: int)
    requires PairsMerged(s0, s, key, w, p) && lo == p * (2 * w) < |s|
    requires mid == Min(lo + w - 1, |s| - 1) && right == Min(lo + 2 * w - 1, |s| - 1)
    requires mid < right ==> t == s[..lo] + Merged(s[lo..mid + 1], s[mid + 1..right + 1], key) + s[right + 1..]
    requires right <= mid ==> t == s
    ensures PairsMerged(s0, t, key, w, p + 1)
  {
    if mid < right {
      PairStep(s0, s, t, key, w, p, lo, mid + 1, right + 1);
    } else {
      PairSkip(s0, s, key, w, p);
    }
  }

  /** Merging pair `p`, whose second block `[m, hi)` is not empty, in place. */
  lemma PairStep<T>(s0: seq<T>, s: seq<T>, t: seq<T>, key: T -> int, w: nat, p: nat, lo: nat, m: nat, hi: nat)
    requires PairsMerged(s0, s, key, w, p) && lo == p * (2 * w) < |s|
    requires m == Min(lo + w, |s|) && hi == Min(lo + 2 * w, |s|) && m < hi
    requires t == s[..lo] + Merged(s[lo..m], s[m..hi], key) + s[hi..]
    ensures PairsMerged(s0, t, key, w, p + 1)
  {
    PairHalvesSorted(s, key, w, p);
    MergedSegmentIsStable(s, t, key, lo, m, hi);
    PairMerged(s, t, key, w, p);
    StableTransitive(s0, s, t, key);
  }

  /** Both blocks of pair `p` are runs. */
  lemma PairHalvesSorted<T>(s: seq<T>, key: T -> int, w: nat, p: nat)
    requires p * (2 * w) < |s| && forall c: nat :: 2 * p <= c ==> Sorted(Block(s, w, c), key)
    ensures Sorted(s[p * (2 * w)..Min(p * (2 * w) + w, |s|)], key)
    ensures Sorted(s[Min(p * (2 * w) + w, |s|)..Min(p * (2 * w) + 2 * w, |s|)], key)
  {
    PairBlocks(s, w, p);
    assert Sorted(Block(s, w, 2 * p), key) && Sorted(Block(s, w, 2 * p + 1), key);
  }

  /** A last pair whose second block is empty is left as it is. */
  lemma PairSkip<T>(s0: seq<T>, s: seq<T>, key: T -> int, w: nat, p: nat)
    requires PairsMerged(s0, s, key, w, p) && p * (2 * w) < |s|
    requires Min(p * (2 * w) + 2 * w, |s|) <= Min(p * (2 * w) + w, |s|)
    ensures PairsMerged(s0, s, key, w, p + 1)
  {
    PairHalvesSorted(s, key, w, p);
    PairMerged(s, s, key, w, p);
  }

  /** Once the pairs reach the end of the list, every block of width `2w` is sorted. */
  lemma PassDone<T>(s0: seq<T>, t: seq<T>, key: T -> int, w: nat, p: nat)
    requires PairsMerged(s0, t, key, w, p) && |t| <= p * (2 * w)
    ensures AllBlocksSorted(t, key, 2 * w) && StableRearrangement(s0, t, key)
  {
    BlocksPastEnd(t, key, 2 * w, p);
  }

  /** A block as wide as the list covers it: a stable sort, so the reference sort. */
  lemma SortDoneAtWidth<T>(s0: seq<T>, t: seq<T>, key: T -> int, w: nat)
    requires |t| <= w && AllBlocksSorted(t, key, w) && StableRearrangement(s0, t, key)
    ensures t == InsertionSorted(s0, key)
  {
    OneBlockLeft(t, key, w);
    StableSortIsInsertionSorted(s0, t, key);
  }

  // ---- what each phase leaves behind ----

  /**
   * The run phase from index `lo` on: the block `[lo, min(lo + w, n))` is
   * replaced by its insertion sort, and so on to the end of the list.
   */
  function RunsFrom<T>(s: seq<T>, key: T -> int, w: nat, lo: nat): (r: seq<T>)
    requires w > 0 && lo <= |s|
    ensures |r| == |s| - lo
    decreases |s| - lo
  {
    if lo == |s| then []
    else InsertionSorted(s[lo..Min(lo + w, |s|)], key) + RunsFrom(s, key, w, Min(lo + w, |s|))
  }

  /**
   * A merge pass of width `w` from index `lo` on: the pair of blocks
   * `[lo, mid)` and `[mid, hi)`, with `mid = min(lo + w, n)` and
   * `hi = min(lo + 2w, n)`, is replaced by their merge, and so on to the
   * end of the list (a last pair whose second block is empty is its first).
   */
  function PairsFrom<T>(s: seq<T>, key: T -> int, w: nat, lo: nat): (r: seq<T>)
    requires w > 0 && lo <= |s|
    ensures |r| == |s| - lo
    decreases |s| - lo
  {
    if lo == |s| then []
    else Merged(s[lo..Min(lo + w, |s|)], s[Min(lo + w, |s|)..Min(lo + 2 * w, |s|)], key)
         + PairsFrom(s, key, w, Min(lo + 2 * w, |s|))
  }

  /**
   * The run loop, started on `s`, has reached index `lo`: `t` holds the
   * sorted runs before `lo` and still holds `s` from `lo` on.
   */
  ghost predicate RunsWritten<T>(s: seq<T>, t: seq<T>, key: T -> int, w: nat, lo: nat)
  {
    w > 0 && lo <= |s| == |t| && t[lo..] == s[lo..] && RunsFrom(s, key, w, 0) == t[..lo] + RunsFrom(s, key, w, lo)
  }

  lemma RunsWrittenStart<T>(s: seq<T>, key: T -> int, w: nat)
    requires w > 0
    ensures RunsWritten(s, s, key, w, 0)
  {
    assert s[..0] == [];
  }

  /** Cells from `lo` on that are still `s`'s. */
  lemma StillFrom<T>(s: seq<T>, t: seq<T>, lo: nat, a: nat, b: nat)
    requires |s| == |t| && lo <= a <= b <= |s| && t[lo..] == s[lo..]
    ensures t[a..b] == s[a..b] && t[b..] == s[b..]
  {
    forall k | a <= k < |s| ensures t[k] == s[k] {
      assert t[lo..][k - lo] == s[lo..][k - lo];
    }
  }

  /**
   * Writing `x` over `[lo, hi)` of `t`, where the result owed from `lo` on
   * is `x` followed by the result owed from `hi` on, moves the boundary.
   */
  lemma AdvanceBoundary<T>(whole: seq<T>, t: seq<T>, u: seq<T>, lo: nat, hi: nat, x: seq<T>, owedLo: seq<T>, owedHi: seq<T>)
    requires lo <= hi <= |t| && |x| == hi - lo
    requires whole == t[..lo] + owedLo && owedLo == x + owedHi && u == t[..lo] + x + t[hi..]
    ensures |u| == |t| && whole == u[..hi] + owedHi && u[hi..] == t[hi..]
  {
    SpliceParts(t, u, lo, hi, x);
    assert u[..hi] == u[..lo] + u[lo..hi];
  }

  /** Sorting the block `[lo, hi)` in place moves the boundary to `hi`; the block is still `s`'s. */
  lemma RunsWrittenStep<T>(s: seq<T>, t: seq<T>, u: seq<T>, key: T -> int, w: nat, lo: nat, hi: nat)
    requires RunsWritten(s, t, key, w, lo) && lo < |s| && hi == Min(lo + w, |s|)
    requires u == t[..lo] + InsertionSorted(t[lo..hi], key) + t[hi..]
    ensures t[lo..hi] == s[lo..hi]
    ensures RunsWritten(s, u, key, w, hi)
  {
    StillFrom(s, t, lo, lo, hi);
    var x := InsertionSorted(s[lo..hi], key);
    AdvanceBoundary(RunsFrom(s, key, w, 0), t, u, lo, hi, x, RunsFrom(s, key, w, lo), RunsFrom(s, key, w, hi));
  }

  /** The run loop has reached the end: the list is the run phase's result. */
  lemma RunsWrittenDone<T>(s: seq<T>, t: seq<T>, key: T -> int, w: nat, lo: nat)
    requires RunsWritten(s, t, key, w, lo) && |s| <= lo
    ensures t == RunsFrom(s, key, w, 0)
  {
    assert t[..lo] == t;
  }

  /**
   * A merge pass, started on `s`, has reached index `lo`: `t` holds the
   * merged pairs before `lo` and still holds `s` from `lo` on.
   */
  ghost predicate PairsWritten<T>(s: seq<T>, t: seq<T>, key: T -> int, w: nat, lo: nat)
  {
    w > 0 && lo <= |s| == |t| && t[lo..] == s[lo..] && PairsFrom(s, key, w, 0) == t[..lo] + PairsFrom(s, key, w, lo)
  }

  lemma PairsWrittenStart<T>(s: seq<T>, key: T -> int, w: nat)
    requires w > 0
    ensures PairsWritten(s, s, key, w, 0)
  {
    assert s[..0] == [];
  }

  /**
   * One round of a merge pass at `lo`, whose blocks are `[lo, mid]` and
   * `[mid + 1, right]` (inclusive bounds): merging them when the second is
   * not empty, and leaving them when it is, moves the boundary past
   * `right`; the blocks are still `s`'s.
   */
  lemma PairsWrittenStep<T>(s: seq<T>, t: seq<T>, u: seq<T>, key: T -> int, w: nat, lo: nat, mid: int, right: int)
    requires PairsWritten(s, t, key, w, lo) && lo < |s|
    requires mid == Min(lo + w - 1, |s| - 1) && right == Min(lo + 2 * w - 1, |s| - 1)
    requires mid < right ==> u == t[..lo] + Merged(t[lo..mid + 1], t[mid + 1..right + 1], key) + t[right + 1..]
    requires right <= mid ==> u == t
    ensures t[lo..mid + 1] == s[lo..mid + 1] && (mid < right ==> t[mid + 1..right + 1] == s[mid + 1..right + 1])
    ensures PairsWritten(s, u, key, w, right + 1)
  {
    var m, hi := mid + 1, right + 1;
    assert m == Min(lo + w, |s|) && hi == Min(lo + 2 * w, |s|);
    StillFrom(s, t, lo, lo, m);
    StillFrom(s, t, lo, m, hi);
    var x := Merged(s[lo..m], s[m..hi], key);
    var whole, owedLo, owedHi := PairsFrom(s, key, w, 0), PairsFrom(s, key, w, lo), PairsFrom(s, key, w, hi);
    assert owedLo == x + owedHi;
    if mid < right {
      AdvanceBoundary(whole, t, u, lo, hi, x, owedLo, owedHi);
    } else {
      assert x == t[lo..hi] by {
        assert m == hi && s[m..hi] == [];
        StillFrom(s, t, lo, lo, hi);
      }
      Reassemble(t, lo, hi);
      AdvanceBoundary(whole, t, u, lo, hi, x, owedLo, owedHi);
    }
  }

  /**
   * The list `s` with the pair of blocks `[lo, min(lo + w, n))` and
   * `[min(lo + w, n), min(lo + 2w, n))` replaced by their merge, and every
   * other cell left as it is.
   */
  function PairMergedAt<T>(s: seq<T>, key: T -> int, w: nat, lo: nat): (r: seq<T>)
    requires w > 0 && lo <= |s|
    ensures |r| == |s|
  {
    s[..lo] + Merged(s[lo..Min(lo + w, |s|)], s[Min(lo + w, |s|)..Min(lo + 2 * w, |s|)], key) + s[Min(lo + 2 * w, |s|)..]
  }

  /**
   * One round of a merge pass at `lo`, whose blocks are `[lo, mid]` and
   * `[mid + 1, right]` (inclusive bounds): merging them when the second is
   * not empty, and leaving the list alone when it is, gives the list with
   * the pair replaced by its merge.
   */
  lemma PairReplaced<T>(t: seq<T>, u: seq<T>, key: T -> int, w: nat, lo: nat, mid: int, right: int)
    requires w > 0 && lo < |t|
    requires mid == Min(lo + w - 1, |t| - 1) && right == Min(lo + 2 * w - 1, |t| - 1)
    requires mid < right ==> u == t[..lo] + Merged(t[lo..mid + 1], t[mid + 1..right + 1], key) + t[right + 1..]
    requires right <= mid ==> u == t
    ensures u == PairMergedAt(t, key, w, lo)
  {
    assert mid + 1 == Min(lo + w, |t|) && right + 1 == Min(lo + 2 * w, |t|);
    if right <= mid {
      assert t[mid + 1..right + 1] == [];
      assert Merged(t[lo..mid + 1], [], key) == t[lo..mid + 1];
      Reassemble(t, lo, mid + 1);
    }
  }

  /**
   * One round of a merge pass of the plain engine, started on `s1`, at
   * pair `p`: the list is the old one with the pair replaced by its merge,
   * one pair more is merged, and the pass has written up to the end of
   * the pair.
   */
  lemma PairWritten<T>(s0: seq<T>, s1: seq<T>, t: seq<T>, u: seq<T>, key: T -> int, w: nat, p: nat, lo: nat, mid: int, right: int,
                       hi: nat)
    requires PairsMerged(s0, t, key, w, p) && PairsWritten(s1, t, key, w, lo) && lo == p * (2 * w) < |t|
    requires mid == Min(lo + w - 1, |t| - 1) && right == Min(lo + 2 * w - 1, |t| - 1) && hi == right + 1
    requires mid < right ==> u == t[..lo] + Merged(t[lo..mid + 1], t[mid + 1..right + 1], key) + t[right + 1..]
    requires right <= mid ==> u == t
    ensures u == PairMergedAt(t, key, w, lo)
    ensures PairsMerged(s0, u, key, w, p + 1) && PairsWritten(s1, u, key, w, hi)
  {
    PairDone(s0, t, u, key, w, p, lo, mid, right);
    PairsWrittenStep(s1, t, u, key, w, lo, mid, right);
    PairReplaced(t, u, key, w, lo, mid, right);
  }

  /** The pass has reached the end: the list is the pass's result. */
  lemma PairsWrittenDone<T>(s: seq<T>, t: seq<T>, key: T -> int, w: nat, lo: nat)
    requires PairsWritten(s, t, key, w, lo) && |s| <= lo
    ensures t == PairsFrom(s, key, w, 0)
  {
    assert t[..lo] == t;
  }
}
