/**
 * Reference definition of the insertion sort that builds each run, and of
 * what its backward scan costs.  Both engines' `insertion_sort` loops are
 * proved to compute `InsertionSorted` of the segment they are given.
 */
module Insertion {
  import opened Order
  import opened Segments

  /**
   * `x` inserted into `p` by the backward scan: every trailing element
   * whose key is strictly greater than `key(x)` ends up after `x`, so `x`
   * stays behind every element with an equal key.
   */
  function Insert<T>(p: seq<T>, x: T, key: T -> int): (r: seq<T>)
    ensures |r| == |p| + 1
    decreases |p|
  {
    if p == [] || key(p[|p| - 1]) <= key(x) then p + [x]
    else Insert(p[..|p| - 1], x, key) + [p[|p| - 1]]
  }

  /** Inserting adds `x` and loses nothing. */
  lemma {:induction false} InsertPermutes<T>(p: seq<T>, x: T, key: T -> int)
    ensures multiset(Insert(p, x, key)) == multiset(p) + multiset{x}
    decreases |p|
  {
    if p != [] && key(p[|p| - 1]) > key(x) {
      InsertPermutes(p[..|p| - 1], x, key);
      assert p == p[..|p| - 1] + [p[|p| - 1]];
    }
  }

  /** Insertion sort: each element in turn inserted into the sorted prefix. */
  function InsertionSorted<T>(s: seq<T>, key: T -> int): (r: seq<T>)
    ensures |r| == |s|
    decreases |s|
  {
    if s == [] then [] else Insert(InsertionSorted(s[..|s| - 1], key), s[|s| - 1], key)
  }

  lemma {:induction false} InsertKeepsSorted<T>(p: seq<T>, x: T, key: T -> int)
    requires Sorted(p, key)
    ensures Sorted(Insert(p, x, key), key)
    decreases |p|
  {
    if p != [] && key(p[|p| - 1]) > key(x) {
      var init, last := p[..|p| - 1], p[|p| - 1];
      InsertKeepsSorted(init, x, key);
      var q := Insert(init, x, key);
      InsertPermutes(init, x, key);
      forall y | y in q ensures key(y) <= key(last) {
        assert y in multiset(q);
        if y != x {
          assert y in multiset(init);
          var k :| 0 <= k < |init| && init[k] == y;
          assert init[k] == p[k];
        }
      }
      var u := q + [last];
      assert Insert(p, x, key) == u;
      forall i, j | 0 <= i < j < |u| ensures key(u[i]) <= key(u[j]) {
        if j == |q| {
          assert u[i] == q[i] && q[i] in q;
        } else {
          assert u[i] == q[i] && u[j] == q[j];
        }
      }
    }
  }

  /** Inserting never carries an element past one with an equal key. */
  lemma {:induction false} InsertStable<T>(p: seq<T>, x: T, key: T -> int)
    ensures StableRearrangement(p + [x], Insert(p, x, key), key)
    decreases |p|
  {
    if p != [] && key(p[|p| - 1]) > key(x) {
      var init, last := p[..|p| - 1], p[|p| - 1];
      InsertStable(init, x, key);
      assert p + [x] == init + [last] + [x];
      forall v ensures Filter(Insert(p, x, key), key, v) == Filter(p + [x], key, v) {
        FilterConcat(Insert(init, x, key), [last], key, v);
        FilterConcat(init + [last], [x], key, v);
        FilterConcat(init, [last], key, v);
        FilterConcat(init, [x], key, v);
      }
    } else {
      StableReflexive(p + [x], key);
    }
  }

  /** The reference sort is a stable sort. */
  lemma {:induction false} InsertionSortedCorrect<T>(s: seq<T>, key: T -> int)
    ensures Sorted(InsertionSorted(s, key), key)
    ensures StableRearrangement(s, InsertionSorted(s, key), key)
    decreases |s|
  {
    if s != [] {
      var init, last := s[..|s| - 1], s[|s| - 1];
      InsertionSortedCorrect(init, key);
      var q := InsertionSorted(init, key);
      InsertKeepsSorted(q, last, key);
      InsertStable(q, last, key);
      StableSplice([], init, q, [last], key);
      assert [] + init + [last] == s;
      assert [] + q + [last] == q + [last];
      StableTransitive(s, q + [last], Insert(q, last, key), key);
    }
  }

  /** Any stable sort of `s` produces exactly `InsertionSorted(s)`. */
  lemma StableSortIsInsertionSorted<T>(s: seq<T>, t: seq<T>, key: T -> int)
    requires Sorted(t, key) && StableRearrangement(s, t, key)
    ensures t == InsertionSorted(s, key)
  {
    InsertionSortedCorrect(s, key);
    SortedStableUnique(s, t, InsertionSorted(s, key), key);
  }

  /** Sorting leaves sorted input alone; in particular sorting is idempotent. */
  lemma InsertionSortedOfSorted<T>(s: seq<T>, key: T -> int)
    requires Sorted(s, key)
    ensures InsertionSorted(s, key) == s
  {
    StableReflexive(s, key);
    StableSortIsInsertionSorted(s, s, key);
  }

  lemma InsertionSortedIdempotent<T>(s: seq<T>, key: T -> int)
    ensures InsertionSorted(InsertionSorted(s, key), key) == InsertionSorted(s, key)
  {
    InsertionSortedCorrect(s, key);
    InsertionSortedOfSorted(InsertionSorted(s, key), key);
  }

  /**
   * Where the backward scan stops: when every element from `h` on is
   * greater than `x` and the one before `h`, if any, is not, `x` goes at `h`.
   */
  lemma {:induction false} InsertAtGap<T>(p: seq<T>, x: T, key: T -> int, h: nat)
    requires h <= |p| && (h == 0 || key(p[h - 1]) <= key(x))
    requires forall k :: h <= k < |p| ==> key(p[k]) > key(x)
    ensures Insert(p, x, key) == p[..h] + [x] + p[h..]
    decreases |p|
  {
    if h < |p| {
      var init := p[..|p| - 1];
      InsertAtGap(init, x, key, h);
      assert init[..h] == p[..h] && init[h..] + [p[|p| - 1]] == p[h..];
    } else {
      assert p[..h] == p;
    }
  }

  // ---- the backward scan done in place ----

  /**
   * State of the in-place scan that inserts `s[i]` into `s[lo..i]`, with
   * `j` the cell it looks at next: cells up to `j` and past `i` still hold
   * what `s` holds, and the cells of `[j + 2, i]` hold `s[j + 1..i]`
   * shifted one place right, every one with a key above `s[i]`'s.
   */
  ghost predicate Shifting<T>(t: seq<T>, s: seq<T>, key: T -> int, lo: nat, i: nat, j: int)
  {
    |t| == |s| && lo <= j + 1 <= i < |s|
    && (forall k :: 0 <= k <= j || i < k < |t| ==> t[k] == s[k])
    && (forall k :: j + 1 <= k < i ==> t[k + 1] == s[k] && key(s[k]) > key(s[i]))
  }

  lemma ShiftStart<T>(s: seq<T>, key: T -> int, lo: nat, i: nat)
    requires lo <= i < |s|
    ensures Shifting(s, s, key, lo, i, i - 1)
  {
  }

  /** Moving the cell at `j`, whose key is above `s[i]`'s, one place right. */
  lemma ShiftStep<T>(t: seq<T>, s: seq<T>, key: T -> int, lo: nat, i: nat, j: int)
    requires Shifting(t, s, key, lo, i, j) && lo <= j && key(t[j]) > key(s[i])
    ensures Shifting(t[j + 1 := t[j]], s, key, lo, i, j - 1)
  {
    var u := t[j + 1 := t[j]];
    assert t[j] == s[j];
    forall k | 0 <= k <= j - 1 || i < k < |u| ensures u[k] == s[k] {
    }
    forall k | j <= k < i ensures u[k + 1] == s[k] && key(s[k]) > key(s[i]) {
    }
  }

  /**
   * Where the scan stops, dropping `s[i]` into the gap at `j + 1` leaves
   * `Insert(s[lo..i], s[i])` over `[lo, i]` and everything else as in `s`.
   */
  lemma ShiftDone<T>(t: seq<T>, s: seq<T>, key: T -> int, lo: nat, i: nat, j: int)
    requires Shifting(t, s, key, lo, i, j) && (j < lo || key(t[j]) <= key(s[i]))
    ensures t[j + 1 := s[i]] == s[..lo] + Insert(s[lo..i], s[i], key) + s[i + 1..]
  {
    var p, h := s[lo..i], j + 1 - lo;
    forall k | h <= k < |p| ensures key(p[k]) > key(s[i]) {
      assert p[k] == s[k + lo];
    }
    InsertAtGap(p, s[i], key, h);
    ShiftedCells(t, s, key, lo, i, j);
  }

  /** The cells once the scan has stopped and `s[i]` is dropped into the gap. */
  lemma ShiftedCells<T>(t: seq<T>, s: seq<T>, key: T -> int, lo: nat, i: nat, j: int)
    requires Shifting(t, s, key, lo, i, j)
    ensures t[j + 1 := s[i]] == s[..lo] + (s[lo..i][..j + 1 - lo] + [s[i]] + s[lo..i][j + 1 - lo..]) + s[i + 1..]
  {
    var u, h := t[j + 1 := s[i]], j + 1 - lo;
    var w := s[..lo] + (s[lo..i][..h] + [s[i]] + s[lo..i][h..]) + s[i + 1..];
    assert |u| == |w|;
    forall k | 0 <= k < |u| ensures u[k] == w[k] {
      if k > j + 1 && k <= i {
        assert u[k] == t[(k - 1) + 1] == s[k - 1];
      }
    }
  }

  /**
   * State of the outer loop of an in-place insertion sort of `s[lo..hi]`:
   * `[lo, i)` holds the insertion sort of what `s` holds there, and every
   * other cell still holds what `s` holds.
   */
  ghost predicate SortedUpTo<T>(t: seq<T>, s: seq<T>, key: T -> int, lo: nat, i: nat)
  {
    lo < i <= |s| && t == s[..lo] + InsertionSorted(s[lo..i], key) + s[i..]
  }

  lemma SortStart<T>(s: seq<T>, key: T -> int, lo: nat)
    requires lo < |s|
    ensures SortedUpTo(s, s, key, lo, lo + 1)
  {
    assert s[lo..lo + 1] == [s[lo]];
    assert s[lo..lo + 1][..0] == [];
    Reassemble(s, lo, lo + 1);
  }

  /** The outer loop has reached `hi`: the whole segment `[lo, hi)` is sorted. */
  lemma SortDone<T>(t: seq<T>, s: seq<T>, key: T -> int, lo: nat, i: nat, hi: nat)
    requires SortedUpTo(t, s, key, lo, i) && hi <= i <= hi
    ensures t == s[..lo] + InsertionSorted(s[lo..hi], key) + s[hi..]
  {
  }

  /** Inserting cell `i` into the sorted segment before it sorts one cell more. */
  lemma SortStep<T>(t: seq<T>, s: seq<T>, key: T -> int, lo: nat, i: nat, u: seq<T>)
    requires SortedUpTo(t, s, key, lo, i) && i < |s|
    requires u == t[..lo] + Insert(t[lo..i], t[i], key) + t[i + 1..]
    ensures SortedUpTo(u, s, key, lo, i + 1)
  {
    var q := InsertionSorted(s[lo..i], key);
    assert t[..lo] == s[..lo] && t[lo..i] == q && t[i..] == s[i..];
    assert t[i] == s[i] && t[i + 1..] == s[i + 1..] by {
      assert t[i..][0] == s[i..][0] && t[i..][1..] == s[i..][1..];
    }
    LastCut(s, lo, i);
    assert InsertionSorted(s[lo..i + 1], key) == Insert(q, s[i], key);
  }

  /**
   * Replacing a segment by its insertion sort leaves the rest in place,
   * sorts the segment and stably rearranges the whole sequence.
   */
  lemma SortedSegmentIsStable<T>(s: seq<T>, t: seq<T>, key: T -> int, lo: nat, hi: nat)
    requires lo <= hi <= |s| && t == s[..lo] + InsertionSorted(s[lo..hi], key) + s[hi..]
    ensures |t| == |s| && t[..lo] == s[..lo] && t[hi..] == s[hi..]
    ensures Sorted(t[lo..hi], key) && StableRearrangement(s, t, key)
  {
    var x := InsertionSorted(s[lo..hi], key);
    InsertionSortedCorrect(s[lo..hi], key);
    SpliceParts(s, t, lo, hi, x);
    Reassemble(s, lo, hi);
    StableSplice(s[..lo], s[lo..hi], x, s[hi..], key);
  }

  // ---- what the backward scan costs ----

  /** Comparisons made while inserting `x`: one per element examined. */
  function InsertComparisons<T>(p: seq<T>, x: T, key: T -> int): nat
    decreases |p|
  {
    if p == [] then 0
    else if key(p[|p| - 1]) <= key(x) then 1
    else 1 + InsertComparisons(p[..|p| - 1], x, key)
  }

  /** Cells shifted one place right while inserting `x`. */
  function InsertShifts<T>(p: seq<T>, x: T, key: T -> int): nat
    decreases |p|
  {
    if p == [] || key(p[|p| - 1]) <= key(x) then 0
    else 1 + InsertShifts(p[..|p| - 1], x, key)
  }

  /** Comparisons made by the whole insertion sort of `s`. */
  function SortComparisons<T>(s: seq<T>, key: T -> int): nat
    decreases |s|
  {
    if s == [] then 0
    else SortComparisons(s[..|s| - 1], key) + InsertComparisons(InsertionSorted(s[..|s| - 1], key), s[|s| - 1], key)
  }

  /** Shifts made by the whole insertion sort of `s`. */
  function SortShifts<T>(s: seq<T>, key: T -> int): nat
    decreases |s|
  {
    if s == [] then 0
    else SortShifts(s[..|s| - 1], key) + InsertShifts(InsertionSorted(s[..|s| - 1], key), s[|s| - 1], key)
  }

  /** Number of elements of `s` whose key is strictly above `v`. */
  function CountAbove<T>(s: seq<T>, key: T -> int, v: int): (c: nat)
    ensures c <= |s|
    decreases |s|
  {
    if s == [] then 0
    else CountAbove(s[..|s| - 1], key, v) + (if key(s[|s| - 1]) > v then 1 else 0)
  }

  /** Number of pairs `i < j` with `key(s[i]) > key(s[j])`. */
  function Inversions<T>(s: seq<T>, key: T -> int): nat
    decreases |s|
  {
    if s == [] then 0
    else Inversions(s[..|s| - 1], key) + CountAbove(s[..|s| - 1], key, key(s[|s| - 1]))
  }

  lemma {:induction false} CountAboveConcat<T>(a: seq<T>, b: seq<T>, key: T -> int, v: int)
    ensures CountAbove(a + b, key, v) == CountAbove(a, key, v) + CountAbove(b, key, v)
    decreases |b|
  {
    if b == [] {
      assert a + b == a;
    } else {
      assert (a + b)[..|a + b| - 1] == a + b[..|b| - 1];
      CountAboveConcat(a, b[..|b| - 1], key, v);
    }
  }

  /** The count depends on the elements only, not on their order. */
  lemma {:induction false} CountAbovePermutation<T>(s: seq<T>, t: seq<T>, key: T -> int, v: int)
    requires multiset(s) == multiset(t)
    ensures CountAbove(s, key, v) == CountAbove(t, key, v)
    decreases |s|
  {
    if s != [] {
      var last := s[|s| - 1];
      assert last in multiset(s);
      var k :| 0 <= k < |t| && t[k] == last;
      RemoveMatching(s, t, k);
      CountAbovePermutation(s[..|s| - 1], t[..k] + t[k + 1..], key, v);
      CountAboveRemove(t, k, key, v);
    }
  }

  /** Dropping the last element of `s` and a copy of it from `t` keeps them permutations of each other. */
  lemma RemoveMatching<T>(s: seq<T>, t: seq<T>, k: nat)
    requires multiset(s) == multiset(t) && s != [] && k < |t| && t[k] == s[|s| - 1]
    ensures multiset(s[..|s| - 1]) == multiset(t[..k] + t[k + 1..])
  {
    var last, init, pre, post := s[|s| - 1], s[..|s| - 1], t[..k], t[k + 1..];
    assert s == init + [last];
    assert t == pre + ([last] + post);
    assert multiset(s) == multiset(init) + multiset{last};
    assert multiset(t) == multiset(pre) + (multiset{last} + multiset(post));
    assert multiset(pre + post) == multiset(pre) + multiset(post);
    forall x ensures multiset(init)[x] == multiset(pre + post)[x] {
      assert multiset(s)[x] == multiset(t)[x];
    }
  }

  /** Removing cell `k` lowers the count by one exactly when that cell's key is above `v`. */
  lemma CountAboveRemove<T>(t: seq<T>, k: nat, key: T -> int, v: int)
    requires k < |t|
    ensures CountAbove(t, key, v) == CountAbove(t[..k] + t[k + 1..], key, v) + (if key(t[k]) > v then 1 else 0)
  {
    assert t == t[..k] + [t[k]] + t[k + 1..];
    CountAboveConcat(t[..k] + [t[k]], t[k + 1..], key, v);
    CountAboveConcat(t[..k], [t[k]], key, v);
    CountAboveConcat(t[..k], t[k + 1..], key, v);
    assert [t[k]][..0] == [];
  }

  /** In a sorted prefix the scan shifts exactly the elements above `x`. */
  lemma {:induction false} InsertShiftsCountAbove<T>(p: seq<T>, x: T, key: T -> int)
    requires Sorted(p, key)
    ensures InsertShifts(p, x, key) == CountAbove(p, key, key(x))
    decreases |p|
  {
    if p != [] {
      var init := p[..|p| - 1];
      if key(p[|p| - 1]) <= key(x) {
        CountAboveNone(p, key, key(x));
      } else {
        InsertShiftsCountAbove(init, x, key);
      }
    }
  }

  lemma {:induction false} CountAboveNone<T>(s: seq<T>, key: T -> int, v: int)
    requires forall i :: 0 <= i < |s| ==> key(s[i]) <= v
    ensures CountAbove(s, key, v) == 0
    decreases |s|
  {
    if s != [] {
      CountAboveNone(s[..|s| - 1], key, v);
    }
  }

  /** The shifts of insertion sort are exactly the inversions of its input. */
  lemma {:induction false} SortShiftsAreInversions<T>(s: seq<T>, key: T -> int)
    ensures SortShifts(s, key) == Inversions(s, key)
    decreases |s|
  {
    if s != [] {
      var init, last := s[..|s| - 1], s[|s| - 1];
      SortShiftsAreInversions(init, key);
      InsertionSortedCorrect(init, key);
      StableIsPermutation(init, InsertionSorted(init, key), key);
      InsertShiftsCountAbove(InsertionSorted(init, key), last, key);
      CountAbovePermutation(init, InsertionSorted(init, key), key, key(last));
    }
  }

  /** Each insertion compares once per shift, plus once more if it stopped early. */
  lemma {:induction false} InsertComparisonsBounds<T>(p: seq<T>, x: T, key: T -> int)
    ensures InsertShifts(p, x, key) <= InsertComparisons(p, x, key) <= InsertShifts(p, x, key) + 1
    ensures p != [] ==> InsertShifts(p, x, key) < InsertComparisons(p, x, key) || InsertShifts(p, x, key) == |p|
    decreases |p|
  {
    if p != [] && key(p[|p| - 1]) > key(x) {
      InsertComparisonsBounds(p[..|p| - 1], x, key);
    }
  }

  lemma {:induction false} SortComparisonsBounds<T>(s: seq<T>, key: T -> int)
    requires s != []
    ensures SortShifts(s, key) <= SortComparisons(s, key) <= SortShifts(s, key) + |s| - 1
    decreases |s|
  {
    var init, last := s[..|s| - 1], s[|s| - 1];
    InsertComparisonsBounds(InsertionSorted(init, key), last, key);
    if init != [] {
      SortComparisonsBounds(init, key);
    }
  }

  /**
   * On sorted input each insertion makes exactly one comparison (none for
   * the first element) and shifts nothing.
   */
  lemma {:induction false} SortedInputCosts<T>(s: seq<T>, key: T -> int)
    requires Sorted(s, key)
    ensures SortShifts(s, key) == 0
    ensures SortComparisons(s, key) == if s == [] then 0 else |s| - 1
    decreases |s|
  {
    if s != [] {
      var init, last := s[..|s| - 1], s[|s| - 1];
      assert Sorted(init, key);
      SortedInputCosts(init, key);
      InsertionSortedOfSorted(init, key);
    }
  }

  // ---- what the in-place scan has counted so far ----

  /**
   * Where the scan stops at `h`, it has shifted the `|p| - h` cells from
   * `h` on, and compared once per shift plus once more unless it ran off
   * the front.
   */
  lemma {:induction false} InsertCostsAtGap<T>(p: seq<T>, x: T, key: T -> int, h: nat)
    requires h <= |p| && (h == 0 || key(p[h - 1]) <= key(x))
    requires forall k :: h <= k < |p| ==> key(p[k]) > key(x)
    ensures InsertShifts(p, x, key) == |p| - h
    ensures InsertComparisons(p, x, key) == |p| - h + (if h == 0 then 0 else 1)
    decreases |p|
  {
    if h < |p| {
      var init := p[..|p| - 1];
      assert h == 0 || init[h - 1] == p[h - 1];
      InsertCostsAtGap(init, x, key, h);
    }
  }

  /**
   * The insertion sort of `s` from `lo` has sorted `[lo, i)` in `t`,
   * having made `c` comparisons and `w` shifts, what sorting those cells costs.
   */
  ghost predicate SortCounted<T>(t: seq<T>, s: seq<T>, key: T -> int, lo: nat, i: nat, c: int, w: int)
  {
    SortedUpTo(t, s, key, lo, i) && c == SortComparisons(s[lo..i], key) && w == SortShifts(s[lo..i], key)
  }

  /** The loop has run to the end of the segment: `i` has reached `hi`. */
  lemma SortCountedDone<T>(t: seq<T>, s: seq<T>, key: T -> int, lo: nat, i: nat, hi: nat, c: int, w: int)
    requires SortCounted(t, s, key, lo, i, c, w) && hi <= i <= hi
    ensures SortCounted(t, s, key, lo, hi, c, w)
  {
  }

  lemma SortCountedStart<T>(s: seq<T>, key: T -> int, lo: nat, c: int, w: int)
    requires lo < |s| && c == 0 && w == 0
    ensures SortCounted(s, s, key, lo, lo + 1, c, w)
  {
    SortStart(s, key, lo);
    SortCostsStart(s, key, lo);
  }

  /**
   * Dropping `s[i]` into the gap the shifting loop left at `j + 1` sorts
   * one cell more; the loop shifted `i - 1 - j` cells and compared once
   * more than that unless it ran off the front of the run.
   */
  lemma InsertIntoGap<T>(t: seq<T>, s0: seq<T>, s: seq<T>, key: T -> int, lo: nat, i: nat, j: int)
    requires SortedUpTo(s0, s, key, lo, i) && i < |s|
    requires Shifting(t, s0, key, lo, i, j) && (j < lo || key(t[j]) <= key(s0[i]))
    ensures SortedUpTo(t[j + 1 := s0[i]], s, key, lo, i + 1)
    ensures InsertShifts(InsertionSorted(s[lo..i], key), s[i], key) == i - 1 - j
    ensures InsertComparisons(InsertionSorted(s[lo..i], key), s[i], key) == i - 1 - j + (if j < lo then 0 else 1)
  {
    SortedUpToParts(s0, s, key, lo, i);
    ShiftDone(t, s0, key, lo, i, j);
    SortStep(s0, s, key, lo, i, t[j + 1 := s0[i]]);
    var p, h := s0[lo..i], j + 1 - lo;
    assert h == 0 || p[h - 1] == t[j];
    forall k | h <= k < |p| ensures key(p[k]) > key(s0[i]) {
      assert p[k] == s0[k + lo];
    }
    InsertCostsAtGap(p, s0[i], key, h);
  }

  /** Sorting one cell more of `s` from `lo` costs what inserting that cell costs. */
  lemma SortCostsStep<T>(s: seq<T>, key: T -> int, lo: nat, i: nat)
    requires lo <= i < |s|
    ensures SortComparisons(s[lo..i + 1], key)
            == SortComparisons(s[lo..i], key) + InsertComparisons(InsertionSorted(s[lo..i], key), s[i], key)
    ensures SortShifts(s[lo..i + 1], key)
            == SortShifts(s[lo..i], key) + InsertShifts(InsertionSorted(s[lo..i], key), s[i], key)
  {
    LastCut(s, lo, i);
  }

  /** A single cell is sorted for free. */
  lemma SortCostsStart<T>(s: seq<T>, key: T -> int, lo: nat)
    requires lo < |s|
    ensures SortComparisons(s[lo..lo + 1], key) == 0 && SortShifts(s[lo..lo + 1], key) == 0
  {
    SortCostsStep(s, key, lo, lo);
    assert s[lo..lo] == [];
  }

  /** In the middle of the outer loop, the sorted segment and the next cell. */
  lemma SortedUpToParts<T>(t: seq<T>, s: seq<T>, key: T -> int, lo: nat, i: nat)
    requires SortedUpTo(t, s, key, lo, i) && i < |s|
    ensures t[lo..i] == InsertionSorted(s[lo..i], key) && t[i] == s[i]
  {
    var q := InsertionSorted(s[lo..i], key);
    assert t[lo..i] == q && t[i..] == s[i..];
    assert t[i] == t[i..][0];
  }
}
