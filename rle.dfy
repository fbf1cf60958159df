/** The run-length transform: `run_length_encode` and the run expansion the
    decompressors perform with `decompressed.extend([gray_val] * count)`. */
module RunLength {
  import opened Common

  /** One `(value, length)` pair of the run list. */
  datatype Run = Run(value: Sample, count: nat)

  /** The pixels a run list stands for: each run's value repeated `count`
      times, runs in order, so as many pixels as the run lengths add up to. */
  function Expand(runs: seq<Run>): (pixels: seq<Sample>)
    ensures |pixels| == TotalCount(runs)
  {
    if runs == [] then []
    else
      var last := runs[|runs| - 1];
      Expand(runs[..|runs| - 1]) + seq(last.count, _ => last.value)
  }

  /** The sum of all run lengths. */
  function TotalCount(runs: seq<Run>): (total: nat)
  {
    if runs == [] then 0 else TotalCount(runs[..|runs| - 1]) + runs[|runs| - 1].count
  }

  /** Maximal runs: every length is at least one and neighbouring runs carry
      different values. */
  predicate MaximalRuns(runs: seq<Run>)
  {
    && (forall i :: 0 <= i < |runs| ==> runs[i].count >= 1)
    && (forall i :: 0 < i < |runs| ==> runs[i - 1].value != runs[i].value)
  }

  lemma ExpandAppend(runs: seq<Run>, r: Run)
    ensures Expand(runs + [r]) == Expand(runs) + seq(r.count, _ => r.value)
  {
    assert (runs + [r])[..|runs|] == runs;
  }

  /** No run is longer than the whole expansion. */
  lemma {:induction false} CountAtMostTotal(runs: seq<Run>, i: nat)
    requires i < |runs|
    ensures runs[i].count <= TotalCount(runs)
  {
    if i < |runs| - 1 {
      CountAtMostTotal(runs[..|runs| - 1], i);
    }
  }

  /** The last pixel of a non-empty maximal run list is its last run's value. */
  lemma ExpandLast(runs: seq<Run>)
    requires runs != [] && MaximalRuns(runs)
    ensures |Expand(runs)| > 0 && Expand(runs)[|Expand(runs)| - 1] == runs[|runs| - 1].value
  {
    var last := runs[|runs| - 1];
    assert Expand(runs) == Expand(runs[..|runs| - 1]) + seq(last.count, _ => last.value);
  }

  /** A maximal run list is determined by the pixels it expands to: the run
      list `run_length_encode` returns is the only maximal one for its input. */
  lemma {:induction false} MaximalRunsUnique(r1: seq<Run>, r2: seq<Run>)
    requires MaximalRuns(r1) && MaximalRuns(r2)
    requires Expand(r1) == Expand(r2)
    ensures r1 == r2
  {
    if r1 == [] || r2 == [] {
      if r1 != [] { ExpandLast(r1); }
      if r2 != [] { ExpandLast(r2); }
    } else {
      var p1, p2 := r1[..|r1| - 1], r2[..|r2| - 1];
      var a, b := r1[|r1| - 1], r2[|r2| - 1];
      assert r1 == p1 + [a] && r2 == p2 + [b];
      MaximalPrefix(r1);
      MaximalPrefix(r2);
      ExpandLast(r1);
      ExpandLast(r2);
      assert a.value == b.value;
      var e1, e2 := Expand(p1), Expand(p2);
      assert e1 + seq(a.count, _ => a.value) == e2 + seq(b.count, _ => b.value);
      if a.count < b.count {
        TailSplit(e1, e2, a.value, a.count, b.count);
        LastDiffers(p1, a.value);
      } else if b.count < a.count {
        TailSplit(e2, e1, a.value, b.count, a.count);
        LastDiffers(p2, a.value);
      }
      assert a.count == b.count;
      assert e1 == e2 by {
        assert |e1| == |e2|;
        forall k | 0 <= k < |e1| ensures e1[k] == e2[k] {
          assert e1[k] == (e1 + seq(a.count, _ => a.value))[k];
          assert e2[k] == (e2 + seq(b.count, _ => b.value))[k];
        }
      }
      MaximalRunsUnique(p1, p2);
    }
  }

  lemma MaximalPrefix(runs: seq<Run>)
    requires runs != [] && MaximalRuns(runs)
    ensures MaximalRuns(runs[..|runs| - 1])
  {
    var p := runs[..|runs| - 1];
    forall i | 0 <= i < |p| ensures p[i].count >= 1 {
      assert p[i] == runs[i];
    }
    forall i | 0 < i < |p| ensures p[i - 1].value != p[i].value {
      assert p[i - 1] == runs[i - 1] && p[i] == runs[i];
    }
  }

  /** A maximal run list stays maximal when a non-empty run with a new value
      is appended. */
  lemma MaximalSnoc(runs: seq<Run>, r: Run)
    requires MaximalRuns(runs) && r.count >= 1
    requires runs != [] ==> runs[|runs| - 1].value != r.value
    ensures MaximalRuns(runs + [r])
  {
    var s := runs + [r];
    forall i | 0 <= i < |s| ensures s[i].count >= 1 {
      if i < |runs| { assert s[i] == runs[i]; }
    }
    forall i | 0 < i < |s| ensures s[i - 1].value != s[i].value {
      if i < |runs| { assert s[i - 1] == runs[i - 1] && s[i] == runs[i]; }
    }
  }

  /** If `e1 + v^c1 == e2 + v^c2` with `c1 < c2`, then `e1` is non-empty and
      ends in `v`. */
  lemma TailSplit(e1: seq<Sample>, e2: seq<Sample>, v: Sample, c1: nat, c2: nat)
    requires c1 < c2
    requires e1 + seq(c1, _ => v) == e2 + seq(c2, _ => v)
    ensures |e1| > 0 && e1[|e1| - 1] == v
  {
    var s := e1 + seq(c1, _ => v);
    assert |e1| == |e2| + c2 - c1;
    var k := |e1| - 1;
    assert s[k] == e1[k];
    assert s[k] == (e2 + seq(c2, _ => v))[k];
    assert k >= |e2|;
  }

  /** A non-empty maximal run list whose expansion ends in `v` has `v` as its
      last value; so the run before a run of value `v` cannot end in `v`. */
  lemma LastDiffers(p: seq<Run>, v: Sample)
    requires MaximalRuns(p)
    requires |Expand(p)| > 0 && Expand(p)[|Expand(p)| - 1] == v
    ensures p != [] && p[|p| - 1].value == v
  {
    if p != [] { ExpandLast(p); }
  }

  /** One step of `run_length_encode` on a repeated pixel: the open run
      grows by one and the run list stays maximal. */
  lemma ExtendLastRun(rle: seq<Run>, v: Sample, c: nat, done: seq<Sample>)
    requires c >= 1 && MaximalRuns(rle + [Run(v, c)])
    requires Expand(rle + [Run(v, c)]) == done
    ensures MaximalRuns(rle + [Run(v, c + 1)])
    ensures Expand(rle + [Run(v, c + 1)]) == done + [v]
  {
    MaximalPrefix(rle + [Run(v, c)]);
    assert (rle + [Run(v, c)])[..|rle|] == rle;
    MaximalSnoc(rle, Run(v, c + 1));
    ExpandAppend(rle, Run(v, c));
    ExpandAppend(rle, Run(v, c + 1));
    assert seq(c + 1, _ => v) == seq(c, _ => v) + [v];
  }

  /** One step of `run_length_encode` on a new pixel: the open run is closed
      and a run of length one is opened. */
  lemma OpenRun(rle: seq<Run>, v: Sample, c: nat, p: Sample, done: seq<Sample>)
    requires c >= 1 && p != v && MaximalRuns(rle + [Run(v, c)])
    requires Expand(rle + [Run(v, c)]) == done
    ensures MaximalRuns(rle + [Run(v, c)] + [Run(p, 1)])
    ensures Expand(rle + [Run(v, c)] + [Run(p, 1)]) == done + [p]
  {
    MaximalSnoc(rle + [Run(v, c)], Run(p, 1));
    ExpandAppend(rle + [Run(v, c)], Run(p, 1));
  }

  /** `run_length_encode`: scans the pixels left to right, extending the open
      run while the pixel repeats and closing it otherwise. The source reads
      `arr[0]` unconditionally, so the input must be non-empty. */
  method RunLengthEncode(arr: seq<Sample>) returns (rle: seq<Run>)
    requires |arr| > 0
    ensures MaximalRuns(rle)
    ensures Expand(rle) == arr
    ensures TotalCount(rle) == |arr|
  {
    rle := [];
    var prev := arr[0];
    var runLength := 1;
    assert Expand([Run(prev, runLength)]) == Expand([]) + [prev] by {
      ExpandAppend([], Run(prev, runLength));
    }
    for i := 1 to |arr|
      invariant runLength >= 1
      invariant MaximalRuns(rle + [Run(prev, runLength)])
      invariant Expand(rle + [Run(prev, runLength)]) == arr[..i]
    {
      var pixel := arr[i];
      if pixel == prev {
        ExtendLastRun(rle, prev, runLength, arr[..i]);
        runLength := runLength + 1;
      } else {
        OpenRun(rle, prev, runLength, pixel, arr[..i]);
        rle := rle + [Run(prev, runLength)];
        prev := pixel;
        runLength := 1;
      }
      assert arr[..i + 1] == arr[..i] + [arr[i]];
    }
    rle := rle + [Run(prev, runLength)];
    assert arr[..|arr|] == arr;
  }
}
