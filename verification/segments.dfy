/**
 * Sequence facts about one segment `[lo, hi)` of a list that both engines
 * rewrite in place: how the segment sits between the untouched prefix and
 * suffix, and how writing it cell by cell from the left builds it up.
 */
module Segments {

  /** A sequence is its prefix, a middle segment and its suffix. */
  lemma Reassemble<T>(s: seq<T>, lo: nat, hi: nat)
    requires lo <= hi <= |s|
    ensures s == s[..lo] + s[lo..hi] + s[hi..]
  {
  }

  /** Two neighbouring slices make up the slice that spans them. */
  lemma SliceConcat<T>(s: seq<T>, lo: nat, m: nat, hi: nat)
    requires lo <= m <= hi <= |s|
    ensures s[lo..m] + s[m..hi] == s[lo..hi]
  {
  }

  /** The parts of a sequence that has one segment replaced. */
  lemma SpliceParts<T>(s: seq<T>, t: seq<T>, lo: nat, hi: nat, x: seq<T>)
    requires lo <= hi <= |s| && |x| == hi - lo && t == s[..lo] + x + s[hi..]
    ensures |t| == |s| && t[..lo] == s[..lo] && t[lo..hi] == x && t[hi..] == s[hi..]
  {
  }

  /** Slicing `p + c + q` at two cuts inside `c`. */
  lemma CutInMiddle<T>(p: seq<T>, c: seq<T>, q: seq<T>, x: nat, y: nat)
    requires |p| <= x <= y <= |p| + |c|
    ensures (p + c + q)[..x] == p + c[..x - |p|]
    ensures (p + c + q)[x..y] == c[x - |p|..y - |p|]
    ensures (p + c + q)[y..] == c[y - |p|..] + q
  {
    var t := p + c + q;
    assert |t| == |p| + |c| + |q|;
    forall k | 0 <= k < |c| ensures t[|p| + k] == c[k] {
    }
    assert t[..x] == p + c[..x - |p|] by {
      forall k | 0 <= k < x ensures t[..x][k] == (p + c[..x - |p|])[k] {
        if k >= |p| {
          assert t[|p| + (k - |p|)] == c[k - |p|];
        }
      }
    }
    assert t[x..y] == c[x - |p|..y - |p|] by {
      forall k | 0 <= k < y - x ensures t[x..y][k] == c[x - |p|..y - |p|][k] {
        assert t[|p| + (x - |p| + k)] == c[x - |p| + k];
      }
    }
    assert t[y..] == c[y - |p|..] + q by {
      forall k | 0 <= k < |t| - y ensures t[y..][k] == (c[y - |p|..] + q)[k] {
        if y + k < |p| + |c| {
          assert t[|p| + (y - |p| + k)] == c[y - |p| + k];
        }
      }
    }
  }

  /** The slice that ends one cell later is the shorter slice and that cell. */
  lemma LastCut<T>(s: seq<T>, lo: nat, i: nat)
    requires lo <= i < |s|
    ensures var v := s[lo..i + 1]; |v| - 1 == i - lo && v[..|v| - 1] == s[lo..i] && v[|v| - 1] == s[i]
  {
    var v := s[lo..i + 1];
    forall k | 0 <= k < i - lo ensures v[..|v| - 1][k] == s[lo..i][k] {
      assert v[k] == s[lo + k];
    }
  }

  /** Moving the brackets of a five-part concatenation. */
  lemma Regroup<T>(p: seq<T>, c1: seq<T>, m: seq<T>, c2: seq<T>, q: seq<T>)
    ensures (p + c1) + m + (c2 + q) == p + (c1 + m + c2) + q
  {
  }

  /** An empty part can change places with its neighbour. */
  lemma SwapPastEmpty<T>(a: seq<T>, b: seq<T>, c: seq<T>)
    requires a == [] || b == []
    ensures a + (b + c) == b + (a + c)
  {
    if a == [] {
      assert a + (b + c) == b + c && a + c == c;
    } else {
      assert b + (a + c) == a + c && b + c == c;
    }
  }

  /**
   * `t` is `s` with the cells from `lo` on being overwritten from the left:
   * `out` is what has been written so far, at `[lo, k)`, and every other
   * cell still holds what `s` holds.
   */
  ghost predicate WrittenUpTo<T>(t: seq<T>, s: seq<T>, lo: nat, k: nat, out: seq<T>)
  {
    lo <= k <= |s| && |out| == k - lo && t == s[..lo] + out + s[k..]
  }

  /** Once the cells up to `hi` are written, `t` holds what was written between the untouched ends. */
  lemma WrittenWhole<T>(t: seq<T>, s: seq<T>, lo: nat, k: nat, hi: nat, out: seq<T>, whole: seq<T>)
    requires WrittenUpTo(t, s, lo, k, out) && k == hi && out == whole
    ensures t == s[..lo] + whole + s[hi..]
  {
  }

  /** Nothing written yet. */
  lemma WriteStart<T>(s: seq<T>, lo: nat)
    requires lo <= |s|
    ensures WrittenUpTo(s, s, lo, lo, [])
  {
    assert s == s[..lo] + [] + s[lo..];
  }

  /** Writing `v` into the next cell. */
  lemma WriteNext<T>(t: seq<T>, s: seq<T>, lo: nat, k: nat, out: seq<T>, v: T)
    requires WrittenUpTo(t, s, lo, k, out) && k < |s|
    ensures WrittenUpTo(t[k := v], s, lo, k + 1, out + [v])
  {
    var u, w := t[k := v], s[..lo] + (out + [v]) + s[k + 1..];
    assert |u| == |w|;
    forall m | 0 <= m < |u| ensures u[m] == w[m] {
      if m != k {
        assert u[m] == t[m];
      }
    }
  }
}
