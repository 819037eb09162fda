/**
 * Reference definitions for the descending-stretch pass that the
 * visualised engine runs before its insertion sort: sequence reversal, and
 * the left-to-right scan that decides which stretches get reversed.
 */
module Reversal {
  import opened Order
  import opened Insertion
  import opened Segments

  function Reverse<T>(s: seq<T>): (r: seq<T>)
    ensures |r| == |s|
    ensures forall k :: 0 <= k < |s| ==> r[k] == s[|s| - 1 - k]
  {
    if s == [] then [] else Reverse(s[1..]) + [s[0]]
  }

  /** Keys strictly decrease from left to right, so no two keys are equal. */
  predicate StrictlyDescending<T>(s: seq<T>, key: T -> int)
  {
    forall i, j :: 0 <= i < j < |s| ==> key(s[i]) > key(s[j])
  }

  lemma ReverseConcat<T>(a: seq<T>, b: seq<T>)
    ensures Reverse(a + b) == Reverse(b) + Reverse(a)
  {
    var l, r := Reverse(a + b), Reverse(b) + Reverse(a);
    assert |l| == |r|;
    forall k | 0 <= k < |l| ensures l[k] == r[k] {
      if k < |b| {
        assert r[k] == Reverse(b)[k];
      } else {
        assert r[k] == Reverse(a)[k - |b|];
      }
    }
  }

  /** Reversing a sequence reverses each key's subsequence. */
  lemma {:induction false} FilterReverse<T>(s: seq<T>, key: T -> int, v: int)
    ensures Filter(Reverse(s), key, v) == Reverse(Filter(s, key, v))
  {
    if s != [] {
      var head := if key(s[0]) == v then [s[0]] else [];
      FilterReverse(s[1..], key, v);
      FilterConcat(Reverse(s[1..]), [s[0]], key, v);
      assert Filter([s[0]], key, v) == head;
      ReverseConcat(head, Filter(s[1..], key, v));
      assert Reverse(head) == head;
    }
  }

  lemma {:induction false} FilterOfStrictlyDescending<T>(s: seq<T>, key: T -> int, v: int)
    requires StrictlyDescending(s, key)
    ensures |Filter(s, key, v)| <= 1
  {
    if s != [] {
      if key(s[0]) == v {
        FilterAbsent(s[1..], key, v);
      } else {
        FilterOfStrictlyDescending(s[1..], key, v);
      }
    }
  }

  /**
   * Reversing a strictly descending stretch moves no element past one with
   * an equal key (there is none), so it is a stable rearrangement.
   */
  lemma ReverseStrictlyDescendingStable<T>(s: seq<T>, key: T -> int)
    requires StrictlyDescending(s, key)
    ensures StableRearrangement(s, Reverse(s), key)
    ensures Sorted(Reverse(s), key)
  {
    forall v ensures Filter(Reverse(s), key, v) == Filter(s, key, v) {
      FilterReverse(s, key, v);
      FilterOfStrictlyDescending(s, key, v);
    }
  }

  /**
   * The scan of the segment `s` from position `i`, given the current run
   * start and whether a strict descent has been seen since it: a strict
   * descent sets the flag; a strict rise while the flag is set reverses
   * `s[runStart..i]` and restarts the run at `i`; anything else restarts
   * the run at `i` and leaves the flag as it is.  Gives the resulting
   * segment and the number of swaps the reversals make.
   */
  function Normalize<T>(s: seq<T>, key: T -> int, runStart: nat, i: nat, descending: bool): (r: (seq<T>, nat))
    requires runStart < i <= |s|
    ensures |r.0| == |s|
    ensures r.1 <= (|s| - runStart) / 2
    decreases |s| - i
  {
    if i == |s| then (s, 0)
    else if key(s[i]) < key(s[i - 1]) then Normalize(s, key, runStart, i + 1, true)
    else if key(s[i]) > key(s[i - 1]) && descending then
      var r := Normalize(s[..runStart] + Reverse(s[runStart..i]) + s[i..], key, i, i + 1, false);
      (r.0, (i - runStart) / 2 + r.1)
    else Normalize(s, key, i, i + 1, descending)
  }

  /** The whole pass over a segment, as the engine starts it. */
  function NormalizeRuns<T>(s: seq<T>, key: T -> int): (r: (seq<T>, nat))
    requires s != []
    ensures |r.0| == |s| && r.1 <= |s| / 2
  {
    Normalize(s, key, 0, 1, false)
  }

  lemma ExtendDescent<T>(t: seq<T>, x: T, key: T -> int)
    requires t != [] && StrictlyDescending(t, key) && key(x) < key(t[|t| - 1])
    ensures StrictlyDescending(t + [x], key)
  {
    forall a, b | 0 <= a < b < |t| + 1 ensures key((t + [x])[a]) > key((t + [x])[b]) {
      if b == |t| && a < |t| - 1 {
        assert key(t[a]) > key(t[|t| - 1]);
      }
    }
  }

  /** Reversing a strictly descending segment in place is a stable rearrangement. */
  lemma ReverseSegmentStable<T>(s: seq<T>, lo: nat, hi: nat, key: T -> int)
    requires lo <= hi <= |s| && StrictlyDescending(s[lo..hi], key)
    ensures StableRearrangement(s, s[..lo] + Reverse(s[lo..hi]) + s[hi..], key)
  {
    ReverseStrictlyDescendingStable(s[lo..hi], key);
    StableSplice(s[..lo], s[lo..hi], Reverse(s[lo..hi]), s[hi..], key);
    assert s[..lo] + s[lo..hi] + s[hi..] == s;
  }

  /** A strict descent at `i` extends the descending stretch that ends there. */
  lemma DescentGrows<T>(s: seq<T>, key: T -> int, runStart: nat, i: nat)
    requires runStart < i < |s| && StrictlyDescending(s[runStart..i], key) && key(s[i]) < key(s[i - 1])
    ensures StrictlyDescending(s[runStart..i + 1], key)
  {
    assert s[runStart..i + 1] == s[runStart..i] + [s[i]];
    ExtendDescent(s[runStart..i], s[i], key);
  }

  /** Reversing the descending stretch before `i` is stable and leaves a one-element stretch at `i`. */
  lemma ReverseAtRise<T>(s: seq<T>, key: T -> int, runStart: nat, i: nat)
    requires runStart < i < |s| && StrictlyDescending(s[runStart..i], key)
    ensures var s' := s[..runStart] + Reverse(s[runStart..i]) + s[i..];
      |s'| == |s| && StableRearrangement(s, s', key) && StrictlyDescending(s'[i..i + 1], key)
  {
    var s' := s[..runStart] + Reverse(s[runStart..i]) + s[i..];
    ReverseSegmentStable(s, runStart, i, key);
    SingleDescends(s', key, i);
  }

  /**
   * Every stretch the scan reverses is strictly descending, so the pass is
   * a stable rearrangement of the segment.
   */
  lemma {:induction false} NormalizeStable<T>(s: seq<T>, key: T -> int, runStart: nat, i: nat, descending: bool)
    requires runStart < i <= |s|
    requires StrictlyDescending(s[runStart..i], key)
    ensures StableRearrangement(s, Normalize(s, key, runStart, i, descending).0, key)
    decreases |s| - i
  {
    if i == |s| {
      StableReflexive(s, key);
    } else if key(s[i]) < key(s[i - 1]) {
      DescentGrows(s, key, runStart, i);
      NormalizeStable(s, key, runStart, i + 1, true);
    } else if key(s[i]) > key(s[i - 1]) && descending {
      var s' := s[..runStart] + Reverse(s[runStart..i]) + s[i..];
      ReverseAtRise(s, key, runStart, i);
      NormalizeStable(s', key, i, i + 1, false);
      assert Normalize(s, key, runStart, i, descending).0 == Normalize(s', key, i, i + 1, false).0;
      StableTransitive(s, s', Normalize(s', key, i, i + 1, false).0, key);
    } else {
      SingleDescends(s, key, i);
      NormalizeStable(s, key, i, i + 1, descending);
    }
  }

  /** One cell on its own is a strictly descending stretch. */
  lemma SingleDescends<T>(s: seq<T>, key: T -> int, i: nat)
    requires i < |s|
    ensures StrictlyDescending(s[i..i + 1], key)
  {
    assert |s[i..i + 1]| == 1;
  }


  lemma NormalizeRunsStable<T>(s: seq<T>, key: T -> int)
    requires s != []
    ensures StableRearrangement(s, NormalizeRuns(s, key).0, key)
  {
    NormalizeStable(s, key, 0, 1, false);
  }

  /** A segment without strict descents is left as it is, with no swaps. */
  lemma {:induction false} NormalizeNonDescending<T>(s: seq<T>, key: T -> int, runStart: nat, i: nat)
    requires runStart < i <= |s|
    requires Sorted(s, key)
    ensures Normalize(s, key, runStart, i, false) == (s, 0)
    decreases |s| - i
  {
    if i < |s| {
      assert key(s[i - 1]) <= key(s[i]);
      NormalizeNonDescending(s, key, i, i + 1);
    }
  }

  lemma NormalizeRunsOfSorted<T>(s: seq<T>, key: T -> int)
    requires s != [] && Sorted(s, key)
    ensures NormalizeRuns(s, key) == (s, 0)
  {
    NormalizeNonDescending(s, key, 0, 1);
  }

  /**
   * A strict descent that lasts to the end of the segment is never
   * followed by a rise, so it is not reversed.
   */
  lemma {:induction false} NormalizeDescendingTail<T>(s: seq<T>, key: T -> int, runStart: nat, i: nat, descending: bool)
    requires runStart < i <= |s|
    requires forall k :: i <= k < |s| ==> key(s[k]) < key(s[k - 1])
    ensures Normalize(s, key, runStart, i, descending) == (s, 0)
    decreases |s| - i
  {
    if i < |s| {
      NormalizeDescendingTail(s, key, runStart, i + 1, true);
    }
  }

  lemma NormalizeRunsOfStrictlyDescending<T>(s: seq<T>, key: T -> int)
    requires s != [] && StrictlyDescending(s, key)
    ensures NormalizeRuns(s, key) == (s, 0)
  {
    NormalizeDescendingTail(s, key, 0, 1, false);
  }

  function Identity(x: int): int { x }

  /** The list `[5, 4, 3, 2, 1]` comes out of the pass unreversed. */
  lemma ReversePassKeepsFullyDescending()
    ensures NormalizeRuns([5, 4, 3, 2, 1], Identity) == ([5, 4, 3, 2, 1], 0)
  {
    NormalizeRunsOfStrictlyDescending([5, 4, 3, 2, 1], Identity);
  }

  /** A descent followed by a rise is reversed: `[3, 2, 1, 4]` becomes `[1, 2, 3, 4]` with one swap. */
  lemma ReversePassReversesBeforeRise()
    ensures NormalizeRuns([3, 2, 1, 4], Identity) == ([1, 2, 3, 4], 1)
  {
    var s := [3, 2, 1, 4];
    assert Reverse(s[0..3]) == [1, 2, 3];
    assert s[..0] + Reverse(s[0..3]) + s[3..] == [1, 2, 3, 4];
  }

  /** The pass does not change what the insertion sort that follows produces. */
  lemma NormalizeThenSort<T>(s: seq<T>, key: T -> int)
    requires s != []
    ensures InsertionSorted(NormalizeRuns(s, key).0, key) == InsertionSorted(s, key)
  {
    var n := NormalizeRuns(s, key).0;
    NormalizeRunsStable(s, key);
    InsertionSortedCorrect(n, key);
    StableTransitive(s, n, InsertionSorted(n, key), key);
    StableSortIsInsertionSorted(s, InsertionSorted(n, key), key);
  }

  // ---- the reversal done in place ----

  /**
   * State of the two-pointer reversal of `s[lo..hi]` (inclusive) with the
   * pointers at `l` and `r`: the cells outside `[lo, hi]` and between the
   * pointers hold what `s` holds, and the cells the pointers have passed
   * hold their mirror images.
   */
  ghost predicate Reversing<T>(t: seq<T>, s: seq<T>, lo: nat, hi: int, l: nat, r: int)
  {
    |t| == |s| && lo <= l && r <= hi < |s| && l + r == lo + hi && l <= r + 1
    && (forall k :: 0 <= k < |t| && (k < lo || hi < k) ==> t[k] == s[k])
    && (forall k :: l <= k <= r ==> t[k] == s[k])
    && (forall k :: lo <= k < l || r < k <= hi ==> t[k] == s[lo + hi - k])
  }

  lemma ReverseStart<T>(s: seq<T>, lo: nat, hi: int)
    requires lo <= hi + 1 <= |s|
    ensures Reversing(s, s, lo, hi, lo, hi)
  {
  }

  /** Swapping the cells under the two pointers. */
  lemma ReverseStep<T>(t: seq<T>, s: seq<T>, lo: nat, hi: int, l: nat, r: int)
    requires Reversing(t, s, lo, hi, l, r) && l < r
    ensures Reversing(t[l := t[r]][r := t[l]], s, lo, hi, l + 1, r - 1)
  {
    var u := t[l := t[r]][r := t[l]];
    assert t[l] == s[l] && t[r] == s[r];
    forall k | lo <= k < l + 1 || r - 1 < k <= hi ensures u[k] == s[lo + hi - k] {
    }
  }

  /** Once the pointers meet, the segment is reversed. */
  lemma ReverseDone<T>(t: seq<T>, s: seq<T>, lo: nat, hi: int, l: nat, r: int)
    requires Reversing(t, s, lo, hi, l, r) && r <= l
    ensures t == s[..lo] + Reverse(s[lo..hi + 1]) + s[hi + 1..]
  {
    var m := Reverse(s[lo..hi + 1]);
    var w := s[..lo] + m + s[hi + 1..];
    assert |w| == |t|;
    forall k | 0 <= k < |t| ensures t[k] == w[k] {
      if lo <= k <= hi {
        assert w[k] == m[k - lo] == s[lo + hi - k];
      } else if hi < k {
        assert w[k] == s[hi + 1..][k - hi - 1];
      }
    }
  }

  /** A cell of the segment `[lo, hi]` (inclusive) of `t` that holds `cur` there. */
  lemma SegmentCell<T>(t: seq<T>, s: seq<T>, cur: seq<T>, lo: nat, hi: nat, k: nat)
    requires lo <= k <= hi < |s| && |cur| == hi + 1 - lo && t == s[..lo] + cur + s[hi + 1..]
    ensures t[k] == cur[k - lo]
  {
  }

  /** Reversing `[x, y)` in place, inside the segment `[lo, hi]` that holds `cur`. */
  lemma ReverseInSegment<T>(t0: seq<T>, t1: seq<T>, s: seq<T>, cur: seq<T>, lo: nat, hi: nat, x: nat, y: nat)
    requires lo <= x <= y <= hi + 1 <= |s| && |cur| == hi + 1 - lo
    requires t0 == s[..lo] + cur + s[hi + 1..]
    requires t1 == t0[..x] + Reverse(t0[x..y]) + t0[y..]
    ensures t1 == s[..lo] + (cur[..x - lo] + Reverse(cur[x - lo..y - lo]) + cur[y - lo..]) + s[hi + 1..]
  {
    var p, q := s[..lo], s[hi + 1..];
    CutInMiddle(p, cur, q, x, y);
    var c1, m, c2 := cur[..x - lo], Reverse(cur[x - lo..y - lo]), cur[y - lo..];
    assert t0[..x] == p + c1 && t0[x..y] == cur[x - lo..y - lo] && t0[y..] == c2 + q;
    Regroup(p, c1, m, c2, q);
  }

  // ---- the scan done in place ----

  /**
   * State of the scan of the segment `[lo, hi]` (inclusive) of `t`, which
   * holds `cur` there while everything else still holds what `s` holds:
   * the pass resumed from the current run start, cell `i` and flag ends on
   * the segment `final.0`, having made `done` of the `final.1` swaps already.
   */
  ghost predicate Scanning<T>(t: seq<T>, s: seq<T>, key: T -> int, lo: int, hi: int, cur: seq<T>,
                              runStart: int, i: int, descending: bool, done: int, final: (seq<T>, nat))
  {
    0 <= lo <= runStart < i <= hi + 1 <= |s| && |cur| == hi + 1 - lo && t == s[..lo] + cur + s[hi + 1..]
    && Normalize(cur, key, runStart - lo, i - lo, descending).0 == final.0
    && done + Normalize(cur, key, runStart - lo, i - lo, descending).1 == final.1
  }

  lemma ScanStart<T>(s: seq<T>, key: T -> int, lo: nat, hi: nat)
    requires lo <= hi < |s|
    ensures Scanning(s, s, key, lo, hi, s[lo..hi + 1], lo, lo + 1, false, 0, NormalizeRuns(s[lo..hi + 1], key))
  {
    Reassemble(s, lo, hi + 1);
  }

  /** A strict descent at cell `i` sets the flag. */
  lemma ScanDescent<T>(t: seq<T>, s: seq<T>, key: T -> int, lo: int, hi: int, cur: seq<T>,
                       runStart: int, i: int, descending: bool, done: int, final: (seq<T>, nat))
    requires Scanning(t, s, key, lo, hi, cur, runStart, i, descending, done, final) && i <= hi
    requires key(t[i]) < key(t[i - 1])
    ensures Scanning(t, s, key, lo, hi, cur, runStart, i + 1, true, done, final)
  {
    SegmentCell(t, s, cur, lo, hi, i);
    SegmentCell(t, s, cur, lo, hi, i - 1);
  }

  /** Neither a descent nor a rise that ends one: the run restarts at cell `i`. */
  lemma ScanRestart<T>(t: seq<T>, s: seq<T>, key: T -> int, lo: int, hi: int, cur: seq<T>,
                       runStart: int, i: int, descending: bool, done: int, final: (seq<T>, nat))
    requires Scanning(t, s, key, lo, hi, cur, runStart, i, descending, done, final) && i <= hi
    requires !(key(t[i]) < key(t[i - 1])) && !(key(t[i]) > key(t[i - 1]) && descending)
    ensures Scanning(t, s, key, lo, hi, cur, i, i + 1, descending, done, final)
  {
    SegmentCell(t, s, cur, lo, hi, i);
    SegmentCell(t, s, cur, lo, hi, i - 1);
  }

  /**
   * A strict rise after a descent: `[runStart, i)` is reversed in place
   * by `(i - runStart) / 2` swaps and the run restarts at `i` with the
   * flag cleared; `cur'` is what the segment now holds.
   */
  lemma ScanReverse<T>(t0: seq<T>, t1: seq<T>, s: seq<T>, key: T -> int, lo: int, hi: int, cur: seq<T>,
                       runStart: int, i: int, done: int, done': int, final: (seq<T>, nat)) returns (cur': seq<T>)
    requires Scanning(t0, s, key, lo, hi, cur, runStart, i, true, done, final) && i <= hi
    requires key(t0[i]) > key(t0[i - 1])
    requires t1 == t0[..runStart] + Reverse(t0[runStart..i]) + t0[i..]
    requires done' == done + (i - runStart) / 2
    ensures Scanning(t1, s, key, lo, hi, cur', i, i + 1, false, done', final)
  {
    SegmentCell(t0, s, cur, lo, hi, i);
    SegmentCell(t0, s, cur, lo, hi, i - 1);
    cur' := cur[..runStart - lo] + Reverse(cur[runStart - lo..i - lo]) + cur[i - lo..];
    NormalizeAtRise(cur, key, runStart - lo, i - lo);
    ReverseInSegment(t0, t1, s, cur, lo, hi, runStart, i);
  }

  /** The pass at a strict rise after a descent reverses the stretch and goes on from the rise. */
  lemma NormalizeAtRise<T>(s: seq<T>, key: T -> int, runStart: nat, i: nat)
    requires runStart < i < |s| && key(s[i]) > key(s[i - 1])
    ensures Normalize(s, key, runStart, i, true).0
            == Normalize(s[..runStart] + Reverse(s[runStart..i]) + s[i..], key, i, i + 1, false).0
    ensures Normalize(s, key, runStart, i, true).1
            == (i - runStart) / 2 + Normalize(s[..runStart] + Reverse(s[runStart..i]) + s[i..], key, i, i + 1, false).1
  {
  }

  /** At the end of the segment, it holds the pass's result and all its swaps are made. */
  lemma ScanDone<T>(t: seq<T>, s: seq<T>, key: T -> int, lo: int, hi: int, cur: seq<T>,
                    runStart: int, i: int, descending: bool, done: int, final: (seq<T>, nat))
    requires Scanning(t, s, key, lo, hi, cur, runStart, i, descending, done, final) && hi < i
    ensures t == s[..lo] + final.0 + s[hi + 1..] && done == final.1
  {
  }
}
