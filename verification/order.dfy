/**
 * Ordering vocabulary shared by both sort engines.
 *
 * The engines sort a list of integers; here the elements are of any type
 * `T` compared through an integer `key`.  With `T = int` and the identity
 * key this is exactly the source's comparison of list cells, and with
 * `(value, original index)` pairs keyed on the value it is the setting in
 * which stability means something.
 */
module Order {
  import opened Segments

  function Min(x: int, y: int): int { if x <= y then x else y }

  /** Non-descending by key. */
  predicate Sorted<T>(s: seq<T>, key: T -> int)
  {
    forall i, j :: 0 <= i < j < |s| ==> key(s[i]) <= key(s[j])
  }

  /** The elements of `s` whose key is `v`, in their order in `s`. */
  function Filter<T>(s: seq<T>, key: T -> int, v: int): (r: seq<T>)
    ensures |r| <= |s|
  {
    if s == [] then []
    else (if key(s[0]) == v then [s[0]] else []) + Filter(s[1..], key, v)
  }

  /**
   * `t` is `s` rearranged so that elements with equal keys keep their
   * relative order: the definition of a stable sort's output.
   */
  ghost predicate StableRearrangement<T>(s: seq<T>, t: seq<T>, key: T -> int)
  {
    forall v :: Filter(t, key, v) == Filter(s, key, v)
  }

  /** The subsequence holds elements of `s` of key `v` only. */
  lemma {:induction false} FilterMembers<T>(s: seq<T>, key: T -> int, v: int)
    ensures forall x :: x in Filter(s, key, v) ==> x in s && key(x) == v
  {
    if s != [] {
      FilterMembers(s[1..], key, v);
      forall x | x in Filter(s, key, v) ensures x in s && key(x) == v {
        if x != s[0] || key(s[0]) != v {
          assert x in Filter(s[1..], key, v);
        }
      }
    }
  }

  lemma {:induction false} FilterConcat<T>(a: seq<T>, b: seq<T>, key: T -> int, v: int)
    ensures Filter(a + b, key, v) == Filter(a, key, v) + Filter(b, key, v)
  {
    if a != [] {
      assert (a + b)[0] == a[0] && (a + b)[1..] == a[1..] + b;
      FilterConcat(a[1..], b, key, v);
      var head := if key(a[0]) == v then [a[0]] else [];
      assert Filter(a + b, key, v) == head + (Filter(a[1..], key, v) + Filter(b, key, v));
    } else {
      assert a + b == b;
    }
  }

  lemma FilterCons<T>(x: T, s: seq<T>, key: T -> int, v: int)
    ensures Filter([x] + s, key, v) == (if key(x) == v then [x] else []) + Filter(s, key, v)
  {
    assert ([x] + s)[0] == x && ([x] + s)[1..] == s;
  }

  /** No element of `s` has key `v`, so its `v`-subsequence is empty. */
  lemma {:induction false} FilterAbsent<T>(s: seq<T>, key: T -> int, v: int)
    requires forall i :: 0 <= i < |s| ==> key(s[i]) != v
    ensures Filter(s, key, v) == []
  {
    if s != [] {
      FilterAbsent(s[1..], key, v);
    }
  }

  lemma StableReflexive<T>(s: seq<T>, key: T -> int)
    ensures StableRearrangement(s, s, key)
  {
  }

  lemma StableTransitive<T>(s: seq<T>, t: seq<T>, u: seq<T>, key: T -> int)
    requires StableRearrangement(s, t, key) && StableRearrangement(t, u, key)
    ensures StableRearrangement(s, u, key)
  {
  }

  /** Rearranging one segment stably rearranges the whole sequence stably. */
  lemma StableSplice<T>(p: seq<T>, m: seq<T>, m': seq<T>, q: seq<T>, key: T -> int)
    requires StableRearrangement(m, m', key)
    ensures StableRearrangement(p + m + q, p + m' + q, key)
  {
    forall v ensures Filter(p + m' + q, key, v) == Filter(p + m + q, key, v) {
      FilterConcat(p + m, q, key, v);
      FilterConcat(p, m, key, v);
      FilterConcat(p + m', q, key, v);
      FilterConcat(p, m', key, v);
    }
  }

  /** An occurrence count can be read off the subsequence of its key. */
  lemma {:induction false} CountInFilter<T>(s: seq<T>, key: T -> int, x: T)
    ensures multiset(s)[x] == multiset(Filter(s, key, key(x)))[x]
  {
    if s != [] {
      CountInFilter(s[1..], key, x);
      assert s == [s[0]] + s[1..];
      assert multiset(s) == multiset([s[0]]) + multiset(s[1..]);
      var head := if key(s[0]) == key(x) then [s[0]] else [];
      assert multiset(Filter(s, key, key(x))) == multiset(head) + multiset(Filter(s[1..], key, key(x)));
    }
  }

  /** A stable rearrangement is in particular a permutation. */
  lemma StableIsPermutation<T>(s: seq<T>, t: seq<T>, key: T -> int)
    requires StableRearrangement(s, t, key)
    ensures multiset(s) == multiset(t)
  {
    forall x ensures multiset(s)[x] == multiset(t)[x] {
      CountInFilter(s, key, x);
      CountInFilter(t, key, x);
    }
  }

  lemma StableSameLength<T>(s: seq<T>, t: seq<T>, key: T -> int)
    requires StableRearrangement(s, t, key)
    ensures |s| == |t|
  {
    StableIsPermutation(s, t, key);
    assert |multiset(s)| == |multiset(t)|;
  }

  /** Both parts of a sorted sequence are sorted. */
  lemma SortedSplit<T>(s: seq<T>, key: T -> int, k: nat)
    requires Sorted(s, key) && k <= |s|
    ensures Sorted(s[..k], key) && Sorted(s[k..], key)
  {
    forall i, j | 0 <= i < j < |s| - k ensures key(s[k..][i]) <= key(s[k..][j]) {
      assert s[k..][i] == s[k + i] && s[k..][j] == s[k + j];
    }
  }

  /** The head of a sorted sequence carries its least key. */
  lemma SortedHeadLeast<T>(t: seq<T>, key: T -> int, x: T)
    requires Sorted(t, key) && x in t
    ensures key(t[0]) <= key(x)
  {
    var i :| 0 <= i < |t| && t[i] == x;
  }

  /** Stable rearrangements with a common head stay stable without it. */
  lemma StableTails<T>(t1: seq<T>, t2: seq<T>, key: T -> int)
    requires t1 != [] && t2 != [] && t1[0] == t2[0]
    requires StableRearrangement(t1, t2, key)
    ensures StableRearrangement(t1[1..], t2[1..], key)
  {
    forall v ensures Filter(t2[1..], key, v) == Filter(t1[1..], key, v) {
      var head := if key(t1[0]) == v then [t1[0]] else [];
      assert Filter(t1, key, v) == head + Filter(t1[1..], key, v);
      assert Filter(t2, key, v) == head + Filter(t2[1..], key, v);
      assert Filter(t1[1..], key, v) == Filter(t1, key, v)[|head|..];
      assert Filter(t2[1..], key, v) == Filter(t2, key, v)[|head|..];
    }
  }

  /**
   * There is only one sorted stable rearrangement of a sequence, so any two
   * stable sorts of the same input agree element for element.
   */
  lemma {:induction false} SortedStableUnique<T>(s: seq<T>, t1: seq<T>, t2: seq<T>, key: T -> int)
    requires Sorted(t1, key) && StableRearrangement(s, t1, key)
    requires Sorted(t2, key) && StableRearrangement(s, t2, key)
    ensures t1 == t2
    decreases |t1|
  {
    StableSameLength(s, t1, key);
    StableSameLength(s, t2, key);
    if t1 != [] {
      var k1, k2 := key(t1[0]), key(t2[0]);
      FilterMembers(t1, key, k1);
      FilterMembers(t1, key, k2);
      FilterMembers(t2, key, k1);
      FilterMembers(t2, key, k2);
      // Both sequences hold elements of exactly the same keys, and each
      // starts with its least key, so both start with the same key.
      assert Filter(t1, key, k1)[0] == t1[0];
      assert Filter(t2, key, k2)[0] == t2[0];
      SortedHeadLeast(t2, key, Filter(t2, key, k1)[0]);
      SortedHeadLeast(t1, key, Filter(t1, key, k2)[0]);
      // The first element of that key's subsequence is then the head of both.
      assert t1[0] == t2[0];
      StableTails(t1, t2, key);
      SortedStableUnique(t1[1..], t1[1..], t2[1..], key);
      assert t1 == [t1[0]] + t1[1..];
      assert t2 == [t2[0]] + t2[1..];
    }
  }
}
