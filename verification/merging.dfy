/**
 * Reference definition of the linear two-buffer merge, and of how many
 * comparisons it makes.  Both engines' merge loops are proved to write
 * `Merged(leftBuffer, rightBuffer)` over the segment.
 */
module Merging {
  import opened Order
  import opened Segments

  /** Repeatedly take the smaller front element, the left one on ties. */
  function Merged<T>(l: seq<T>, r: seq<T>, key: T -> int): (m: seq<T>)
    ensures |m| == |l| + |r|
    decreases |l| + |r|
  {
    if l == [] then r
    else if r == [] then l
    else if key(l[0]) <= key(r[0]) then [l[0]] + Merged(l[1..], r, key)
    else [r[0]] + Merged(l, r[1..], key)
  }

  /** The merge holds exactly the elements of both buffers. */
  lemma {:induction false} MergedPermutes<T>(l: seq<T>, r: seq<T>, key: T -> int)
    ensures multiset(Merged(l, r, key)) == multiset(l) + multiset(r)
    decreases |l| + |r|
  {
    if l != [] && r != [] {
      if key(l[0]) <= key(r[0]) {
        MergedPermutes(l[1..], r, key);
        HeadMultiset(l);
        assert multiset(Merged(l, r, key)) == multiset{l[0]} + multiset(Merged(l[1..], r, key));
      } else {
        MergedPermutes(l, r[1..], key);
        HeadMultiset(r);
        assert multiset(Merged(l, r, key)) == multiset{r[0]} + multiset(Merged(l, r[1..], key));
      }
    }
  }

  lemma HeadMultiset<T>(s: seq<T>)
    requires s != []
    ensures multiset(s) == multiset{s[0]} + multiset(s[1..])
  {
    assert s == [s[0]] + s[1..];
  }

  /**
   * The merge of what is left of the buffers once `i` elements of `l` and
   * `j` of `r` have been written, indexed the way the merge loops read it.
   */
  function MergedFrom<T>(l: seq<T>, r: seq<T>, i: nat, j: nat, key: T -> int): (m: seq<T>)
    requires i <= |l| && j <= |r|
    ensures |m| == |l| - i + |r| - j
    decreases |l| - i + |r| - j
  {
    if i == |l| then r[j..]
    else if j == |r| then l[i..]
    else if key(l[i]) <= key(r[j]) then [l[i]] + MergedFrom(l, r, i + 1, j, key)
    else [r[j]] + MergedFrom(l, r, i, j + 1, key)
  }

  /** The indexed form is the merge of the remaining slices. */
  lemma {:induction false} MergedFromIsMerged<T>(l: seq<T>, r: seq<T>, i: nat, j: nat, key: T -> int)
    requires i <= |l| && j <= |r|
    ensures MergedFrom(l, r, i, j, key) == Merged(l[i..], r[j..], key)
    decreases |l| - i + |r| - j
  {
    if i < |l| && j < |r| {
      assert l[i..][0] == l[i] && l[i..][1..] == l[i + 1..];
      assert r[j..][0] == r[j] && r[j..][1..] == r[j + 1..];
      if key(l[i]) <= key(r[j]) {
        MergedFromIsMerged(l, r, i + 1, j, key);
      } else {
        MergedFromIsMerged(l, r, i, j + 1, key);
      }
    }
  }

  /** Nothing written yet: what is left to merge is the whole merge. */
  lemma MergeStart<T>(l: seq<T>, r: seq<T>, key: T -> int)
    ensures [] + MergedFrom(l, r, 0, 0, key) == Merged(l, r, key)
  {
    MergedFromIsMerged(l, r, 0, 0, key);
    assert l[0..] == l && r[0..] == r;
  }

  /**
   * One step of the merge loop that takes the left buffer's front: `out`
   * followed by the merge of what is left stays the whole merge.
   */
  lemma MergeTakeLeft<T>(l: seq<T>, r: seq<T>, key: T -> int, i: nat, j: nat, out: seq<T>, whole: seq<T>)
    requires i < |l| && j <= |r| && (j == |r| || key(l[i]) <= key(r[j]))
    requires out + MergedFrom(l, r, i, j, key) == whole
    ensures (out + [l[i]]) + MergedFrom(l, r, i + 1, j, key) == whole
  {
    if j == |r| {
      assert l[i..] == [l[i]] + l[i + 1..];
    }
  }

  /** One step of the merge loop that takes the right buffer's front. */
  lemma MergeTakeRight<T>(l: seq<T>, r: seq<T>, key: T -> int, i: nat, j: nat, out: seq<T>, whole: seq<T>)
    requires i <= |l| && j < |r| && (i == |l| || key(l[i]) > key(r[j]))
    requires out + MergedFrom(l, r, i, j, key) == whole
    ensures (out + [r[j]]) + MergedFrom(l, r, i, j + 1, key) == whole
  {
    if i == |l| {
      assert r[j..] == [r[j]] + r[j + 1..];
    }
  }

  /** Once one buffer is used up, what is left to merge is the rest of each buffer in turn. */
  lemma MergeRest<T>(l: seq<T>, r: seq<T>, i: nat, j: nat, key: T -> int)
    requires i <= |l| && j <= |r| && (i == |l| || j == |r|)
    ensures MergedFrom(l, r, i, j, key) == l[i..] + r[j..]
  {
    if i == |l| {
      assert l[i..] == [];
    } else {
      assert r[j..] == [];
    }
  }

  /**
   * State of a merge loop writing over `[lo, lo + |l| + |r|)` of `s`: `i`
   * elements of `l` and `j` of `r` have been written as `out`, and `out`
   * followed by the merge of what is left is the whole merge.
   */
  ghost predicate MergeProgress<T>(t: seq<T>, s: seq<T>, l: seq<T>, r: seq<T>, key: T -> int,
                                   lo: nat, i: nat, j: nat, out: seq<T>, whole: seq<T>)
  {
    i <= |l| && j <= |r| && lo + |l| + |r| <= |s| && WrittenUpTo(t, s, lo, lo + i + j, out)
    && out + MergedFrom(l, r, i, j, key) == whole
  }

  lemma MergeProgressStart<T>(s: seq<T>, l: seq<T>, r: seq<T>, key: T -> int, lo: nat)
    requires lo + |l| + |r| <= |s|
    ensures MergeProgress(s, s, l, r, key, lo, 0, 0, [], Merged(l, r, key))
  {
    WriteStart(s, lo);
    MergeStart(l, r, key);
  }

  /** Writing the left buffer's front into the next cell keeps the merge on track. */
  lemma MergeStepLeft<T>(t: seq<T>, s: seq<T>, l: seq<T>, r: seq<T>, key: T -> int,
                         lo: nat, i: nat, j: nat, out: seq<T>, whole: seq<T>)
    requires MergeProgress(t, s, l, r, key, lo, i, j, out, whole)
    requires i < |l| && (j == |r| || key(l[i]) <= key(r[j]))
    ensures MergeProgress(t[lo + i + j := l[i]], s, l, r, key, lo, i + 1, j, out + [l[i]], whole)
  {
    MergeTakeLeft(l, r, key, i, j, out, whole);
    WriteNext(t, s, lo, lo + i + j, out, l[i]);
  }

  /** Writing the right buffer's front into the next cell keeps the merge on track. */
  lemma MergeStepRight<T>(t: seq<T>, s: seq<T>, l: seq<T>, r: seq<T>, key: T -> int,
                          lo: nat, i: nat, j: nat, out: seq<T>, whole: seq<T>)
    requires MergeProgress(t, s, l, r, key, lo, i, j, out, whole)
    requires j < |r| && (i == |l| || key(l[i]) > key(r[j]))
    ensures MergeProgress(t[lo + i + j := r[j]], s, l, r, key, lo, i, j + 1, out + [r[j]], whole)
  {
    MergeTakeRight(l, r, key, i, j, out, whole);
    WriteNext(t, s, lo, lo + i + j, out, r[j]);
  }

  /**
   * When one buffer is used up, writing the rest of the left buffer and
   * then the rest of the right one completes the merge.
   */
  lemma MergeProgressRest<T>(t: seq<T>, s: seq<T>, l: seq<T>, r: seq<T>, key: T -> int,
                             lo: nat, i: nat, j: nat, out: seq<T>, whole: seq<T>)
    requires MergeProgress(t, s, l, r, key, lo, i, j, out, whole)
    requires i == |l| || j == |r|
    ensures out + l[i..] + r[j..] == whole
  {
    MergeRest(l, r, i, j, key);
  }

  /** Comparisons the merge makes: one per element written while both buffers are non-empty. */
  function MergeComparisons<T>(l: seq<T>, r: seq<T>, key: T -> int): nat
    decreases |l| + |r|
  {
    if l == [] || r == [] then 0
    else if key(l[0]) <= key(r[0]) then 1 + MergeComparisons(l[1..], r, key)
    else 1 + MergeComparisons(l, r[1..], key)
  }

  /** A key at or below every key of both buffers is at or below every key of their merge. */
  lemma MergeLowerBound<T>(x: T, l: seq<T>, r: seq<T>, key: T -> int)
    requires forall i :: 0 <= i < |l| ==> key(x) <= key(l[i])
    requires forall i :: 0 <= i < |r| ==> key(x) <= key(r[i])
    ensures forall i :: 0 <= i < |l| + |r| ==> key(x) <= key(Merged(l, r, key)[i])
  {
    var m := Merged(l, r, key);
    MergedPermutes(l, r, key);
    forall i | 0 <= i < |m| ensures key(x) <= key(m[i]) {
      assert m[i] in multiset(l) + multiset(r);
      if m[i] in l {
        var k :| 0 <= k < |l| && l[k] == m[i];
      } else {
        var k :| 0 <= k < |r| && r[k] == m[i];
      }
    }
  }

  lemma ConsSorted<T>(x: T, m: seq<T>, key: T -> int)
    requires Sorted(m, key)
    requires forall i :: 0 <= i < |m| ==> key(x) <= key(m[i])
    ensures Sorted([x] + m, key)
  {
    forall i, j | 0 <= i < j < |m| + 1 ensures key(([x] + m)[i]) <= key(([x] + m)[j]) {
      if i > 0 {
        assert ([x] + m)[i] == m[i - 1];
      }
    }
  }

  lemma {:induction false} MergeSorted<T>(l: seq<T>, r: seq<T>, key: T -> int)
    requires Sorted(l, key) && Sorted(r, key)
    ensures Sorted(Merged(l, r, key), key)
    decreases |l| + |r|
  {
    if l != [] && r != [] {
      if key(l[0]) <= key(r[0]) {
        MergeSorted(l[1..], r, key);
        MergeLowerBound(l[0], l[1..], r, key);
        ConsSorted(l[0], Merged(l[1..], r, key), key);
      } else {
        MergeSorted(l, r[1..], key);
        MergeLowerBound(r[0], l, r[1..], key);
        ConsSorted(r[0], Merged(l, r[1..], key), key);
      }
    }
  }

  /**
   * Ties go to the left buffer, so when the left buffer is sorted the merge
   * keeps every key's elements in their order in `l + r`: a stable interleave.
   */
  lemma {:induction false} MergeStable<T>(l: seq<T>, r: seq<T>, key: T -> int)
    requires Sorted(l, key)
    ensures StableRearrangement(l + r, Merged(l, r, key), key)
    decreases |l| + |r|
  {
    if l == [] {
      assert l + r == r;
      StableReflexive(r, key);
    } else if r == [] {
      assert l + r == l;
      StableReflexive(l, key);
    } else if key(l[0]) <= key(r[0]) {
      MergeStable(l[1..], r, key);
      assert l + r == [l[0]] + (l[1..] + r);
      StableSplice([l[0]], l[1..] + r, Merged(l[1..], r, key), [], key);
      assert [l[0]] + (l[1..] + r) + [] == l + r;
      assert [l[0]] + Merged(l[1..], r, key) + [] == Merged(l, r, key);
    } else {
      MergeStable(l, r[1..], key);
      MergeStableRightStep(l, r, key);
    }
  }

  /** One step of `MergeStable` where the right buffer's head is taken. */
  lemma MergeStableRightStep<T>(l: seq<T>, r: seq<T>, key: T -> int)
    requires Sorted(l, key) && l != [] && r != [] && key(l[0]) > key(r[0])
    requires StableRearrangement(l + r[1..], Merged(l, r[1..], key), key)
    ensures StableRearrangement(l + r, Merged(l, r, key), key)
  {
    forall v ensures Filter(Merged(l, r, key), key, v) == Filter(l + r, key, v) {
      MergeStableRightAt(l, r, key, v);
    }
  }

  lemma MergeStableRightAt<T>(l: seq<T>, r: seq<T>, key: T -> int, v: int)
    requires Sorted(l, key) && l != [] && r != [] && key(l[0]) > key(r[0])
    requires Filter(Merged(l, r[1..], key), key, v) == Filter(l + r[1..], key, v)
    ensures Filter(Merged(l, r, key), key, v) == Filter(l + r, key, v)
  {
    if key(r[0]) == v {
      SortedAboveHasNoKey(l, key, v);
    }
    RightHeadFilters(l, r, key, v);
  }

  /** A sorted sequence whose head's key is above `v` has no element of key `v`. */
  lemma SortedAboveHasNoKey<T>(l: seq<T>, key: T -> int, v: int)
    requires Sorted(l, key) && l != [] && key(l[0]) > v
    ensures Filter(l, key, v) == []
  {
    forall i | 0 <= i < |l| ensures key(l[i]) != v {
      if i > 0 {
        assert key(l[0]) <= key(l[i]);
      }
    }
    FilterAbsent(l, key, v);
  }

  /**
   * Taking the right buffer's head first moves it past the whole left
   * buffer, which is harmless for the key-`v` subsequence as long as the
   * left buffer has no element of that key when the head has it.
   */
  lemma RightHeadFilters<T>(l: seq<T>, r: seq<T>, key: T -> int, v: int)
    requires l != [] && r != [] && key(l[0]) > key(r[0])
    requires Filter(Merged(l, r[1..], key), key, v) == Filter(l + r[1..], key, v)
    requires key(r[0]) == v ==> Filter(l, key, v) == []
    ensures Filter(Merged(l, r, key), key, v) == Filter(l + r, key, v)
  {
    assert Merged(l, r, key) == [r[0]] + Merged(l, r[1..], key);
    assert r == [r[0]] + r[1..];
    FilterCons(r[0], Merged(l, r[1..], key), key, v);
    FilterCons(r[0], r[1..], key, v);
    FilterConcat(l, r[1..], key, v);
    FilterConcat(l, r, key, v);
    SwapPastEmpty(if key(r[0]) == v then [r[0]] else [], Filter(l, key, v), Filter(r[1..], key, v));
  }

  /** The merged segment is the stable sort of the two buffers. */
  lemma MergeIsStableSort<T>(l: seq<T>, r: seq<T>, key: T -> int)
    requires Sorted(l, key) && Sorted(r, key)
    ensures Sorted(Merged(l, r, key), key)
    ensures StableRearrangement(l + r, Merged(l, r, key), key)
    ensures multiset(Merged(l, r, key)) == multiset(l + r)
  {
    MergeSorted(l, r, key);
    MergeStable(l, r, key);
    MergedPermutes(l, r, key);
  }

  /** At most one comparison per written element except the last, and at least one per element of the shorter buffer. */
  lemma {:induction false} MergeComparisonsBounds<T>(l: seq<T>, r: seq<T>, key: T -> int)
    ensures MergeComparisons(l, r, key) <= if l == [] || r == [] then 0 else |l| + |r| - 1
    ensures MergeComparisons(l, r, key) >= Min(|l|, |r|)
    decreases |l| + |r|
  {
    if l != [] && r != [] {
      if key(l[0]) <= key(r[0]) {
        MergeComparisonsBounds(l[1..], r, key);
      } else {
        MergeComparisonsBounds(l, r[1..], key);
      }
    }
  }

  /**
   * Replacing two sorted neighbouring segments `[lo, m)` and `[m, hi)` by
   * their merge leaves the rest in place, sorts `[lo, hi)` and stably
   * rearranges the whole sequence.
   */
  lemma MergedSegmentIsStable<T>(s: seq<T>, t: seq<T>, key: T -> int, lo: nat, m: nat, hi: nat)
    requires lo <= m <= hi <= |s| && t == s[..lo] + Merged(s[lo..m], s[m..hi], key) + s[hi..]
    requires Sorted(s[lo..m], key) && Sorted(s[m..hi], key)
    ensures |t| == |s| && t[..lo] == s[..lo] && t[hi..] == s[hi..]
    ensures Sorted(t[lo..hi], key) && StableRearrangement(s, t, key)
  {
    var x := Merged(s[lo..m], s[m..hi], key);
    MergeIsStableSort(s[lo..m], s[m..hi], key);
    SliceConcat(s, lo, m, hi);
    StableSameLength(s[lo..hi], x, key);
    SpliceParts(s, t, lo, hi, x);
    Reassemble(s, lo, hi);
    StableSplice(s[..lo], s[lo..hi], x, s[hi..], key);
  }

  /** One step of the first merge loop makes one comparison. */
  lemma MergeComparisonsStep<T>(l: seq<T>, r: seq<T>, key: T -> int, i: nat, j: nat)
    requires i < |l| && j < |r|
    ensures MergeComparisons(l[i..], r[j..], key)
            == 1 + if key(l[i]) <= key(r[j]) then MergeComparisons(l[i + 1..], r[j..], key)
                   else MergeComparisons(l[i..], r[j + 1..], key)
  {
    assert l[i..][0] == l[i] && l[i..][1..] == l[i + 1..];
    assert r[j..][0] == r[j] && r[j..][1..] == r[j + 1..];
  }

  /** Once a buffer is used up, no comparisons are left to make. */
  lemma MergeComparisonsRest<T>(l: seq<T>, r: seq<T>, key: T -> int, i: nat, j: nat)
    requires i <= |l| && j <= |r| && (i == |l| || j == |r|)
    ensures MergeComparisons(l[i..], r[j..], key) == 0
  {
    if i == |l| {
      assert l[i..] == [];
    } else {
      assert r[j..] == [];
    }
  }

  lemma MergeComparisonsStart<T>(l: seq<T>, r: seq<T>, key: T -> int)
    ensures MergeComparisons(l[0..], r[0..], key) == MergeComparisons(l, r, key)
  {
    assert l[0..] == l && r[0..] == r;
  }
}
