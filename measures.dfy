/** Measure segmentation (`extract_measures`): the onsets are grouped by the
    grid windows `[metronome[i], metronome[i + n])` whose starts are
    `n = notes_per_measure` grid entries apart. */
module Measures {
  import opened Common

  /** `w` is `s` with some entries dropped and the rest kept in order
      (matched greedily from the back). */
  ghost predicate IsSubsequence(w: seq<real>, s: seq<real>)
    decreases |s|
  {
    if w == [] then true
    else if s == [] then false
    else if Last(w) == Last(s) then IsSubsequence(w[..|w| - 1], s[..|s| - 1])
    else IsSubsequence(w, s[..|s| - 1])
  }

  ghost predicate Sorted(s: seq<real>) {
    forall i, j :: 0 <= i < j < |s| ==> s[i] <= s[j]
  }

  /** The boolean mask `(times >= lo) & (times < hi)` applied to `times`:
      every onset in range, as often as it occurs, and nothing else. */
  function Window(times: seq<real>, lo: real, hi: real): (w: seq<real>)
    ensures forall t :: multiset(w)[t] == if lo <= t < hi then multiset(times)[t] else 0
  {
    if times == [] then []
    else
      var t := Last(times);
      var front := times[..|times| - 1];
      assert times == front + [t];
      Window(front, lo, hi) + (if lo <= t < hi then [t] else [])
  }

  lemma WindowMembers(times: seq<real>, lo: real, hi: real)
    ensures forall t :: t in Window(times, lo, hi) <==> t in times && lo <= t < hi
  {
    var w := Window(times, lo, hi);
    forall t ensures t in w <==> t in times && lo <= t < hi {
      assert t in w <==> multiset(w)[t] > 0;
      assert t in times <==> multiset(times)[t] > 0;
    }
  }

  /** The mask keeps the onsets in their original order. */
  lemma {:induction false} WindowKeepsOrder(times: seq<real>, lo: real, hi: real)
    ensures IsSubsequence(Window(times, lo, hi), times)
    decreases |times|
  {
    if times != [] {
      var t := Last(times);
      var front := times[..|times| - 1];
      WindowKeepsOrder(front, lo, hi);
      var w := Window(front, lo, hi);
      if lo <= t < hi {
        var w' := Window(times, lo, hi);
        assert w' == w + [t];
        assert w' != [] && Last(w') == Last(times);
        assert w'[..|w'| - 1] == w;
      } else {
        assert Window(times, lo, hi) == w;
        if w != [] {
          WindowMembers(front, lo, hi);
          assert Last(w) in w;
        }
      }
    }
  }

  /** Puts the measures already collected in front of a result. */
  function Prepend(done: seq<seq<real>>, r: Result<seq<seq<real>>>): Result<seq<seq<real>>> {
    match r
    case Ok(rest) => Ok(done + rest)
    case Err(e) => Err(e)
  }

  lemma PrependAppends(done: seq<seq<real>>, more: seq<seq<real>>, r: Result<seq<seq<real>>>)
    ensures Prepend([], r) == r
    ensures Prepend(done, Prepend(more, r)) == Prepend(done + more, r)
  {
    if r.Ok? {
      assert [] + r.value == r.value;
      assert done + (more + r.value) == (done + more) + r.value;
    }
  }

  /** The loop of `extract_measures` from grid index `i` on. */
  function MeasuresFrom(times: seq<real>, grid: seq<real>, n: nat, i: nat): Result<seq<seq<real>>>
    requires n > 0
    decreases |grid| - i
  {
    if i >= |grid| then Ok([])
    else if i + n >= |grid| || times == [] then Err(IndexError)
    else if grid[i] > Last(times) then Ok([])
    else Prepend([Window(times, grid[i], grid[i + n])], MeasuresFrom(times, grid, n, i + n))
  }

  /** What `extract_measures(times, grid, notesPerMeasure)` returns or raises:
      `range` refuses a zero step and yields nothing for a negative one. */
  function Segments(times: seq<real>, grid: seq<real>, notesPerMeasure: int): Result<seq<seq<real>>> {
    if notesPerMeasure == 0 then Err(ZeroRangeStep)
    else if notesPerMeasure < 0 then Ok([])
    else MeasuresFrom(times, grid, notesPerMeasure, 0)
  }

  method ExtractMeasures(snareTimes: seq<real>, metronome: seq<real>, notesPerMeasure: int)
    returns (r: Result<seq<seq<real>>>)
    ensures r == Segments(snareTimes, metronome, notesPerMeasure)
  {
    if notesPerMeasure == 0 {
      return Err(ZeroRangeStep);
    }
    if notesPerMeasure < 0 {
      // range(0, len(metronome), notesPerMeasure) is empty
      return Ok([]);
    }
    var n: nat := notesPerMeasure;
    var measures: seq<seq<real>> := [];
    var i: nat := 0;
    PrependAppends([], [], MeasuresFrom(snareTimes, metronome, n, 0));
    while i < |metronome|
      invariant Segments(snareTimes, metronome, n) == Prepend(measures, MeasuresFrom(snareTimes, metronome, n, i))
      decreases |metronome| - i
    {
      var minT := metronome[i];
      if i + n >= |metronome| {
        return Err(IndexError);
      }
      var maxT := metronome[i + n];
      if snareTimes == [] {
        return Err(IndexError);
      }
      if minT > Last(snareTimes) {
        assert measures + [] == measures;
        break;
      }
      PrependAppends(measures, [Window(snareTimes, minT, maxT)], MeasuresFrom(snareTimes, metronome, n, i + n));
      measures := measures + [Window(snareTimes, minT, maxT)];
      i := i + n;
    }
    assert measures + [] == measures;
    return Ok(measures);
  }

  /** Measure `k` holds exactly the onsets of the window starting at grid
      entry `k * n`, and that window starts no later than the last onset. */
  lemma {:induction false} MeasuresAreWindows(times: seq<real>, grid: seq<real>, n: nat)
    requires n > 0 && Segments(times, grid, n).Ok?
    ensures var ms := Segments(times, grid, n).value;
      forall k :: 0 <= k < |ms| ==>
        && k * n + n < |grid|
        && times != [] && grid[k * n] <= Last(times)
        && ms[k] == Window(times, grid[k * n], grid[k * n + n])
  {
    WindowsFrom(times, grid, n, 0);
  }

  lemma {:induction false} WindowsFrom(times: seq<real>, grid: seq<real>, n: nat, i: nat)
    requires n > 0 && MeasuresFrom(times, grid, n, i).Ok?
    ensures var ms := MeasuresFrom(times, grid, n, i).value;
      forall k :: 0 <= k < |ms| ==>
        && i + k * n + n < |grid|
        && times != [] && grid[i + k * n] <= Last(times)
        && ms[k] == Window(times, grid[i + k * n], grid[i + k * n + n])
    decreases |grid| - i
  {
    if i < |grid| && !(i + n >= |grid| || times == []) && grid[i] <= Last(times) {
      WindowsFrom(times, grid, n, i + n);
      var rest := MeasuresFrom(times, grid, n, i + n).value;
      var ms := MeasuresFrom(times, grid, n, i).value;
      assert ms == [Window(times, grid[i], grid[i + n])] + rest;
      forall k | 0 <= k < |ms|
        ensures i + k * n + n < |grid|
        ensures grid[i + k * n] <= Last(times)
        ensures ms[k] == Window(times, grid[i + k * n], grid[i + k * n + n])
      {
        if k > 0 {
          assert i + k * n == (i + n) + (k - 1) * n;
          assert ms[k] == rest[k - 1];
        }
      }
    }
  }

  /** With a positive step and a non-empty grid, the walk never ends by
      running off the grid: it either stops at a window whose start lies
      after the last onset (and whose end index is still inside the grid),
      or it fails. */
  lemma {:induction false} MeasuresStopAtLateWindow(times: seq<real>, grid: seq<real>, n: nat)
    requires n > 0 && grid != [] && Segments(times, grid, n).Ok?
    ensures var m := |Segments(times, grid, n).value|;
      && m * n + n < |grid|
      && times != [] && grid[m * n] > Last(times)
  {
    StopFrom(times, grid, n, 0);
  }

  lemma {:induction false} StopFrom(times: seq<real>, grid: seq<real>, n: nat, i: nat)
    requires n > 0 && i < |grid| && MeasuresFrom(times, grid, n, i).Ok?
    ensures var m := |MeasuresFrom(times, grid, n, i).value|;
      && i + m * n + n < |grid|
      && times != [] && grid[i + m * n] > Last(times)
    decreases |grid| - i
  {
    if grid[i] <= Last(times) {
      assert i + n < |grid|;
      StopFrom(times, grid, n, i + n);
      var m := |MeasuresFrom(times, grid, n, i + n).value|;
      assert |MeasuresFrom(times, grid, n, i).value| == m + 1;
      assert i + (m + 1) * n == (i + n) + m * n;
    }
  }

  /** `extract_measures` raises exactly when the grid is non-empty and every
      window that fits in the grid starts at or before the last onset (or
      there is no onset at all): the last window start, whose end index is
      past the grid, is then reached. */
  lemma {:induction false} MeasuresFailIff(times: seq<real>, grid: seq<real>, n: nat)
    requires n > 0
    ensures Segments(times, grid, n).Err? <==>
      && grid != []
      && (times == [] || forall k :: 0 <= k && k * n + n < |grid| ==> grid[k * n] <= Last(times))
  {
    if Segments(times, grid, n).Ok? {
      if grid != [] {
        MeasuresStopAtLateWindow(times, grid, n);
      }
    } else {
      FailFrom(times, grid, n, 0);
    }
  }

  lemma {:induction false} FailFrom(times: seq<real>, grid: seq<real>, n: nat, i: nat)
    requires n > 0 && MeasuresFrom(times, grid, n, i).Err?
    ensures i < |grid|
    ensures times == [] || forall k :: 0 <= k && i + k * n + n < |grid| ==> grid[i + k * n] <= Last(times)
    decreases |grid| - i
  {
    if !(i + n >= |grid| || times == []) {
      FailFrom(times, grid, n, i + n);
      forall k | 0 <= k && i + k * n + n < |grid|
        ensures grid[i + k * n] <= Last(times)
      {
        if k > 0 {
          assert i + k * n == (i + n) + (k - 1) * n;
        }
      }
    }
  }

  /** Number of entries of `s` below `x`. */
  function Below(s: seq<real>, x: real): (c: nat)
    ensures c <= |s|
  {
    if s == [] then 0 else Below(s[..|s| - 1], x) + (if Last(s) < x then 1 else 0)
  }

  lemma {:induction false} AllBelow(s: seq<real>, x: real)
    requires forall i :: 0 <= i < |s| ==> s[i] < x
    ensures Below(s, x) == |s|
  {
    if s != [] {
      AllBelow(s[..|s| - 1], x);
    }
  }

  lemma SortedBeforeLast(s: seq<real>)
    requires Sorted(s) && s != []
    ensures Sorted(s[..|s| - 1])
    ensures forall i :: 0 <= i < |s| - 1 ==> s[i] <= Last(s)
  {
  }

  /** For onsets in ascending order, each window is one contiguous run of
      them: from the first onset not before `lo` up to the first onset not
      before `hi`. */
  lemma {:induction false} WindowOfSortedIsSlice(times: seq<real>, lo: real, hi: real)
    requires Sorted(times) && lo <= hi
    ensures Below(times, lo) <= Below(times, hi)
    ensures Window(times, lo, hi) == times[Below(times, lo)..Below(times, hi)]
  {
    if times != [] {
      var front := times[..|times| - 1];
      SortedBeforeLast(times);
      WindowOfSortedIsSlice(front, lo, hi);
      assert times == front + [Last(times)];
      SliceGrows(front, Last(times), lo, hi);
    }
  }

  /** One more onset, not below any earlier one, keeps the window a slice. */
  lemma SliceGrows(front: seq<real>, t: real, lo: real, hi: real)
    requires lo <= hi
    requires forall i :: 0 <= i < |front| ==> front[i] <= t
    requires Below(front, lo) <= Below(front, hi)
    requires Window(front, lo, hi) == front[Below(front, lo)..Below(front, hi)]
    ensures Below(front + [t], lo) <= Below(front + [t], hi)
    ensures Window(front + [t], lo, hi) == (front + [t])[Below(front + [t], lo)..Below(front + [t], hi)]
  {
    if t < lo {
      SliceGrowsBefore(front, t, lo, hi);
    } else if t < hi {
      SliceGrowsInside(front, t, lo, hi);
    } else {
      SliceGrowsAfter(front, t, lo, hi);
    }
  }

  lemma SliceGrowsBefore(front: seq<real>, t: real, lo: real, hi: real)
    requires t < lo <= hi
    requires forall i :: 0 <= i < |front| ==> front[i] <= t
    requires Below(front, lo) <= Below(front, hi)
    requires Window(front, lo, hi) == front[Below(front, lo)..Below(front, hi)]
    ensures Below(front + [t], lo) == Below(front + [t], hi) == |front| + 1
    ensures Window(front + [t], lo, hi) == []
  {
    var times := front + [t];
    assert times[..|front|] == front;
    AllBelow(front, lo);
    AllBelow(front, hi);
  }

  lemma SliceGrowsAfter(front: seq<real>, t: real, lo: real, hi: real)
    requires lo <= hi <= t
    requires Below(front, lo) <= Below(front, hi)
    requires Window(front, lo, hi) == front[Below(front, lo)..Below(front, hi)]
    ensures Below(front + [t], lo) == Below(front, lo) && Below(front + [t], hi) == Below(front, hi)
    ensures Window(front + [t], lo, hi) == (front + [t])[Below(front, lo)..Below(front, hi)]
  {
    var times := front + [t];
    assert times[..|front|] == front;
    var a, b := Below(front, lo), Below(front, hi);
    assert front[a..b] == times[a..b];
  }

  lemma SliceGrowsInside(front: seq<real>, t: real, lo: real, hi: real)
    requires lo <= t < hi
    requires forall i :: 0 <= i < |front| ==> front[i] <= t
    requires Below(front, lo) <= Below(front, hi)
    requires Window(front, lo, hi) == front[Below(front, lo)..Below(front, hi)]
    ensures Below(front + [t], lo) <= Below(front + [t], hi)
    ensures Window(front + [t], lo, hi) == (front + [t])[Below(front + [t], lo)..Below(front + [t], hi)]
  {
    var times := front + [t];
    var m := |front|;
    assert times[..m] == front;
    AllBelow(front, hi);
    var a := Below(front, lo);
    assert Below(times, lo) == a && Below(times, hi) == m + 1;
    assert Window(times, lo, hi) == front[a..m] + [t];
    assert times[a..m + 1] == front[a..m] + [t];
  }
}
