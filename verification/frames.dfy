/**
 * The animation record of `project_608/TimSort_Visualization.py`: the
 * `metrics` counters of comparisons and swaps, and the `frames` list the
 * engine appends to after every step, each frame a copy of the list, two
 * highlighted indices, a label and the counters at that moment.
 */
module Frames {

  /** The label of a frame. */
  datatype Phase =
    | Start
    | InPlaceReverse
    | InsertionCompare
    | InsertionSwap
    | InsertionInsert
    | GallopingCompare
    | GallopingMerge
    | GallopingCopyLeft
    | GallopingCopyRight
  {
    /** Frames with this label follow one more comparison. */
    predicate Compares()
    {
      InsertionCompare? || GallopingCompare?
    }

    /** Frames with this label follow one more swap (a cell written). */
    predicate Swaps()
    {
      InPlaceReverse? || InsertionSwap? || GallopingMerge? || GallopingCopyLeft? || GallopingCopyRight?
    }
  }

  datatype Frame<T> = Frame(snapshot: seq<T>, i: int, j: int, phase: Phase, comparisons: nat, swaps: nat)

  function Last<T>(s: seq<T>): T
    requires s != []
  {
    s[|s| - 1]
  }

  /** `g` is the frame after `f`: its counters are `f`'s plus the one tick its label stands for. */
  predicate Follows<T>(f: Frame<T>, g: Frame<T>)
  {
    !g.phase.Start?
    && g.comparisons == f.comparisons + (if g.phase.Compares() then 1 else 0)
    && g.swaps == f.swaps + (if g.phase.Swaps() then 1 else 0)
  }

  /**
   * A well-formed recording: one start frame with zero counters, then
   * frames each of which follows the one before.
   */
  ghost predicate Consistent<T>(frames: seq<Frame<T>>)
  {
    if |frames| <= 1 then
      frames != [] && frames[0].phase.Start? && frames[0].comparisons == 0 && frames[0].swaps == 0
    else
      Consistent(frames[..|frames| - 1]) && Follows(frames[|frames| - 2], Last(frames))
  }

  /** Appending a frame that follows the last one keeps the recording well formed. */
  lemma ConsistentAppend<T>(frames: seq<Frame<T>>, f: Frame<T>)
    requires Consistent(frames) && Follows(Last(frames), f)
    ensures Consistent(frames + [f])
  {
    assert (frames + [f])[..|frames|] == frames;
  }

  /**
   * `f1` is the recording `f0` with more frames appended: nothing recorded
   * before is changed or lost.  `KeptIsPrefix` shows this is the prefix
   * order on recordings.
   */
  ghost predicate Kept<T>(f0: seq<Frame<T>>, f1: seq<Frame<T>>)
    decreases |f1|
  {
    f0 == f1 || (|f0| < |f1| && Kept(f0, f1[..|f1| - 1]))
  }

  lemma {:induction false} KeptIsPrefix<T>(f0: seq<Frame<T>>, f1: seq<Frame<T>>)
    ensures Kept(f0, f1) <==> f0 <= f1
    decreases |f1|
  {
    if |f0| < |f1| {
      var init := f1[..|f1| - 1];
      KeptIsPrefix(f0, init);
      if f0 <= f1 {
        assert f0 <= init by {
          forall k | 0 <= k < |f0| ensures f0[k] == init[k] { assert init[k] == f1[k]; }
        }
      }
    }
  }

  /** Appending one frame keeps everything recorded so far. */
  lemma KeptAppend<T>(f0: seq<Frame<T>>, f: Frame<T>)
    ensures Kept(f0, f0 + [f])
  {
    assert (f0 + [f])[..|f0|] == f0;
  }

  /** Keeping is transitive: two stretches of recording keep what the first one started with. */
  lemma {:induction false} KeptTrans<T>(f0: seq<Frame<T>>, f1: seq<Frame<T>>, f2: seq<Frame<T>>)
    requires Kept(f0, f1) && Kept(f1, f2)
    ensures Kept(f0, f2)
    decreases |f2|
  {
    if f1 != f2 {
      KeptTrans(f0, f1, f2[..|f2| - 1]);
    }
  }

  /** Three stretches of recording keep what the first one started with. */
  lemma KeptThrice<T>(f0: seq<Frame<T>>, f1: seq<Frame<T>>, f2: seq<Frame<T>>, f3: seq<Frame<T>>)
    requires Kept(f0, f1) && Kept(f1, f2) && Kept(f2, f3)
    ensures Kept(f0, f3)
  {
    KeptTrans(f0, f1, f2);
    KeptTrans(f0, f2, f3);
  }

  /** Number of frames whose label is a comparison. */
  function CompareFrames<T>(frames: seq<Frame<T>>): nat
  {
    if frames == [] then 0
    else CompareFrames(frames[..|frames| - 1]) + (if Last(frames).phase.Compares() then 1 else 0)
  }

  /** Number of frames whose label is a swap. */
  function SwapFrames<T>(frames: seq<Frame<T>>): nat
  {
    if frames == [] then 0
    else SwapFrames(frames[..|frames| - 1]) + (if Last(frames).phase.Swaps() then 1 else 0)
  }

  /**
   * The counters a recording ends on are the numbers of comparison and
   * swap frames in it: every tick is shown in exactly one frame.
   */
  lemma {:induction false} CountersCountFrames<T>(frames: seq<Frame<T>>)
    requires Consistent(frames)
    ensures Last(frames).comparisons == CompareFrames(frames)
    ensures Last(frames).swaps == SwapFrames(frames)
  {
    if |frames| > 1 {
      var init := frames[..|frames| - 1];
      CountersCountFrames(init);
      assert Last(init) == frames[|frames| - 2];
    } else {
      assert frames[..0] == [];
    }
  }

  /** The counters never go down from one frame to a later one. */
  lemma {:induction false} CountersGrow<T>(frames: seq<Frame<T>>, a: nat, b: nat)
    requires Consistent(frames) && a <= b < |frames|
    ensures frames[a].comparisons <= frames[b].comparisons
    ensures frames[a].swaps <= frames[b].swaps
    decreases |frames|
  {
    if b < |frames| - 1 {
      var init := frames[..|frames| - 1];
      CountersGrow(init, a, b);
      assert init[a] == frames[a] && init[b] == frames[b];
    } else if a < b {
      var init := frames[..|frames| - 1];
      CountersGrow(init, a, b - 1);
      assert init[a] == frames[a] && init[b - 1] == frames[b - 1];
    }
  }

  /**
   * The `metrics` dictionary and the `frames` list of one run of the
   * engine, which it threads through every step.
   */
  class Recorder<T> {
    var comparisons: nat
    var swaps: nat
    var frames: seq<Frame<T>>
    /** The list as it was when the recording started. */
    ghost const initial: seq<T>

    /**
     * The recording is well formed, starts with the frame of the initial
     * list, and its last frame shows the current counters.
     */
    ghost predicate Valid()
      reads this
    {
      Consistent(frames) && frames[0] == Frame(initial, -1, -1, Start, 0, 0)
      && Last(frames).comparisons == comparisons && Last(frames).swaps == swaps
    }

    /** `frames = [(list(arr), -1, -1, "Start", 0, 0)]` and both counters at zero. */
    constructor (start: seq<T>)
      ensures Valid() && frames == [Frame(start, -1, -1, Start, 0, 0)] && initial == start
      ensures comparisons == 0 && swaps == 0
    {
      comparisons, swaps := 0, 0;
      frames := [Frame(start, -1, -1, Start, 0, 0)];
      initial := start;
    }

    /** `metrics['comparisons'] += 1` followed by a frame. */
    method Compared(snapshot: seq<T>, i: int, j: int, phase: Phase)
      requires Valid() && phase.Compares()
      modifies this
      ensures Valid() && comparisons == old(comparisons) + 1 && swaps == old(swaps)
      ensures frames == old(frames) + [Frame(snapshot, i, j, phase, comparisons, swaps)]
      ensures Kept(old(frames), frames)
    {
      comparisons := comparisons + 1;
      ConsistentAppend(frames, Frame(snapshot, i, j, phase, comparisons, swaps));
      KeptAppend(frames, Frame(snapshot, i, j, phase, comparisons, swaps));
      frames := frames + [Frame(snapshot, i, j, phase, comparisons, swaps)];
    }

    /** `metrics['swaps'] += 1` followed by a frame. */
    method Swapped(snapshot: seq<T>, i: int, j: int, phase: Phase)
      requires Valid() && phase.Swaps()
      modifies this
      ensures Valid() && comparisons == old(comparisons) && swaps == old(swaps) + 1
      ensures frames == old(frames) + [Frame(snapshot, i, j, phase, comparisons, swaps)]
      ensures Kept(old(frames), frames)
    {
      swaps := swaps + 1;
      ConsistentAppend(frames, Frame(snapshot, i, j, phase, comparisons, swaps));
      KeptAppend(frames, Frame(snapshot, i, j, phase, comparisons, swaps));
      frames := frames + [Frame(snapshot, i, j, phase, comparisons, swaps)];
    }

    /** A frame that follows no tick. */
    method Noted(snapshot: seq<T>, i: int, j: int, phase: Phase)
      requires Valid() && !phase.Compares() && !phase.Swaps() && !phase.Start?
      modifies this
      ensures Valid() && comparisons == old(comparisons) && swaps == old(swaps)
      ensures frames == old(frames) + [Frame(snapshot, i, j, phase, comparisons, swaps)]
      ensures Kept(old(frames), frames)
    {
      ConsistentAppend(frames, Frame(snapshot, i, j, phase, comparisons, swaps));
      KeptAppend(frames, Frame(snapshot, i, j, phase, comparisons, swaps));
      frames := frames + [Frame(snapshot, i, j, phase, comparisons, swaps)];
    }
  }

  /** The recorder is well formed and its last frame shows the list `a` as it now is. */
  ghost predicate Traced<T>(rec: Recorder<T>, a: array<T>)
    reads rec, a
  {
    rec.Valid() && Last(rec.frames).snapshot == a[..]
  }
}
