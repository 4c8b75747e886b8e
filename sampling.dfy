/** Evenly spaced sampling and the strict three-point comparison, shared by the
    extremum scan and the curve drawing of the graph component and by the
    worker's sampleFunction. Grid points are computed from their index, so the
    floating-point drift of `x += step` is not part of this model. */
module Sampling {
  import opened Types

  /** The i-th grid point `origin + i * step` */
  function GridX(origin: real, step: real, i: int): real
  {
    origin + i as real * step
  }

  lemma GridMonotone(origin: real, step: real, i: int, j: int)
    requires step > 0.0 && i < j
    ensures GridX(origin, step, i) < GridX(origin, step, j)
  {
    assert (j - i) as real >= 1.0;
    assert (j - i) as real * step >= step;
    assert GridX(origin, step, j) - GridX(origin, step, i) == (j - i) as real * step;
  }

  /** step = (xMax - xMin) / samples. With samples = 0 the loops that use it
      stop before any grid point past the first, so its value there is
      immaterial. */
  function StepOf(xMin: real, xMax: real, samples: nat): real
  {
    if samples == 0 then 0.0 else (xMax - xMin) / samples as real
  }

  /** The grid of `samples` sub-intervals starts at xMin, ends exactly at xMax
      and, for a non-empty range, has a positive step. */
  lemma GridEnds(xMin: real, xMax: real, samples: nat)
    requires samples > 0
    ensures GridX(xMin, StepOf(xMin, xMax, samples), 0) == xMin
    ensures GridX(xMin, StepOf(xMin, xMax, samples), samples) == xMax
    ensures xMin < xMax ==> StepOf(xMin, xMax, samples) > 0.0
  {
  }

  /** Consecutive grid points are one step apart, and with a non-negative
      step no grid point lies before the origin. */
  lemma GridNext(origin: real, step: real, i: nat)
    ensures GridX(origin, step, i + 1) == GridX(origin, step, i) + step
    ensures step >= 0.0 ==> origin <= GridX(origin, step, i)
  {
    if step >= 0.0 {
      assert i as real * step >= 0.0;
    }
  }

  /** The points (x, f(x)) for the grid points i = 0 .. n-1 at which f is
      defined, in grid order; undefined grid points are skipped. */
  function KeptSamples(f: real -> Option<real>, origin: real, step: real, n: nat): (pts: seq<Point>)
    ensures |pts| <= n
    ensures forall k :: 0 <= k < |pts| ==> f(pts[k].x) == Some(pts[k].y)
  {
    if n == 0 then []
    else
      var x := GridX(origin, step, n - 1);
      KeptSamples(f, origin, step, n - 1) + (if f(x).Some? then [Point(x, f(x).value)] else [])
  }

  /** A point is kept exactly when it sits on one of the first n grid points and
      f is defined there with that value. */
  lemma {:induction false} KeptSamplesExactly(f: real -> Option<real>, origin: real, step: real, n: nat, p: Point)
    ensures p in KeptSamples(f, origin, step, n) <==>
            exists i :: 0 <= i < n && p.x == GridX(origin, step, i) && f(p.x) == Some(p.y)
  {
    if n > 0 {
      KeptSamplesExactly(f, origin, step, n - 1, p);
      var x := GridX(origin, step, n - 1);
      var tail := if f(x).Some? then [Point(x, f(x).value)] else [];
      assert KeptSamples(f, origin, step, n) == KeptSamples(f, origin, step, n - 1) + tail;
      if p.x == x && f(p.x) == Some(p.y) {
        assert p == Point(x, f(x).value);
        assert p in tail;
      }
    }
  }

  /** With a positive step the kept points are strictly increasing in x and lie
      between the first and the last grid point. */
  lemma {:induction false} KeptSamplesIncreasing(f: real -> Option<real>, origin: real, step: real, n: nat)
    requires step > 0.0
    ensures forall j, k :: 0 <= j < k < |KeptSamples(f, origin, step, n)| ==>
              KeptSamples(f, origin, step, n)[j].x < KeptSamples(f, origin, step, n)[k].x
    ensures forall k :: 0 <= k < |KeptSamples(f, origin, step, n)| ==>
              origin <= KeptSamples(f, origin, step, n)[k].x <= GridX(origin, step, n - 1)
  {
    if n > 0 {
      KeptSamplesIncreasing(f, origin, step, n - 1);
      var prefix := KeptSamples(f, origin, step, n - 1);
      var x := GridX(origin, step, n - 1);
      if n > 1 {
        GridMonotone(origin, step, n - 2, n - 1);
      }
      assert origin <= x by {
        assert (n - 1) as real * step >= 0.0;
      }
      var tail := if f(x).Some? then [Point(x, f(x).value)] else [];
      var pts := KeptSamples(f, origin, step, n);
      assert pts == prefix + tail;
      forall k | 0 <= k < |prefix|
        ensures origin <= pts[k].x < x
      {
        assert pts[k] == prefix[k];
      }
      forall k | |prefix| <= k < |pts|
        ensures pts[k].x == x
      {
        assert pts[k] == tail[k - |prefix|];
      }
    }
  }

  /** Grid points at which f is undefined add nothing. */
  lemma {:induction false} KeptSamplesSkip(f: real -> Option<real>, origin: real, step: real, m: nat, n: nat)
    requires m <= n
    requires forall g :: m <= g < n ==> f(GridX(origin, step, g)).None?
    ensures KeptSamples(f, origin, step, n) == KeptSamples(f, origin, step, m)
  {
    if m < n {
      KeptSamplesSkip(f, origin, step, m, n - 1);
    }
  }

  /** Sampling more grid points only extends the list. */
  lemma {:induction false} KeptSamplesPrefix(f: real -> Option<real>, origin: real, step: real, m: nat, n: nat)
    requires m <= n
    ensures |KeptSamples(f, origin, step, m)| <= |KeptSamples(f, origin, step, n)|
    ensures KeptSamples(f, origin, step, n)[..|KeptSamples(f, origin, step, m)|] == KeptSamples(f, origin, step, m)
  {
    if m < n {
      KeptSamplesPrefix(f, origin, step, m, n - 1);
      var prefix := KeptSamples(f, origin, step, n - 1);
      assert KeptSamples(f, origin, step, n)[..|prefix|] == prefix;
    }
  }

  /** Two defined grid points i < j with only undefined grid points between
      them are neighbours in the kept list: nothing marks the gap. */
  lemma KeptSamplesBridge(f: real -> Option<real>, origin: real, step: real, n: nat, i: nat, j: nat) returns (k: nat)
    requires i < j < n
    requires f(GridX(origin, step, i)).Some? && f(GridX(origin, step, j)).Some?
    requires forall g :: i < g < j ==> f(GridX(origin, step, g)).None?
    ensures k + 1 < |KeptSamples(f, origin, step, n)|
    ensures KeptSamples(f, origin, step, n)[k] == Point(GridX(origin, step, i), f(GridX(origin, step, i)).value)
    ensures KeptSamples(f, origin, step, n)[k + 1] == Point(GridX(origin, step, j), f(GridX(origin, step, j)).value)
  {
    var upToI := KeptSamples(f, origin, step, i + 1);
    k := |upToI| - 1;
    KeptSamplesSkip(f, origin, step, i + 1, j);
    var upToJ := KeptSamples(f, origin, step, j + 1);
    assert upToJ == upToI + [Point(GridX(origin, step, j), f(GridX(origin, step, j)).value)];
    KeptSamplesPrefix(f, origin, step, j + 1, n);
    var all := KeptSamples(f, origin, step, n);
    assert all[k] == upToJ[k] && all[k + 1] == upToJ[k + 1];
  }

  /** The strict three-point test: a sample strictly above both neighbours is a
      maximum, one strictly below both is a minimum, anything else is neither. */
  function Classify(x: real, y: real, prevY: real, nextY: real): (r: seq<Extremum>)
    ensures |r| <= 1
    ensures |r| == 1 ==> r[0].x == x && r[0].y == y
    ensures (|r| == 1 && r[0].kind == Max) <==> (y > prevY && y > nextY)
    ensures (|r| == 1 && r[0].kind == Min) <==> (y < prevY && y < nextY)
  {
    if y > prevY && y > nextY then [Extremum(x, y, Max)]
    else if y < prevY && y < nextY then [Extremum(x, y, Min)]
    else []
  }
}
