/** The sampling and analysis loops of src/workers/compute.worker.ts. The
    evaluator tells a finite number, a non-number and an exception apart,
    because the analysis loop reacts differently to the last two. */
module ComputeWorker {
  import opened Types
  import opened Sampling

  // ---------------------------------------------------------------------
  // sampleFunction

  /** sampleFunction's step (xMax - xMin) / (samples - 1) */
  function SampleStep(xMin: real, xMax: real, samples: nat): real
    requires samples != 1
  {
    if samples == 0 then 0.0 else (xMax - xMin) / (samples - 1) as real
  }

  /** What sampleFunction returns: the points at xMin + i * step,
      i = 0 .. samples-1, where the expression evaluates to a finite number */
  function Samples(ev: Evaluator, expression: string, xMin: real, xMax: real, samples: nat): seq<Point>
    requires samples != 1
  {
    KeptSamples(Adapter(ev, expression), xMin, SampleStep(xMin, xMax, samples), samples)
  }

  /** sampleFunction: a throw and a non-number both skip the grid point. */
  method SampleFunction(ev: Evaluator, expression: string, xMin: real, xMax: real, samples: nat)
    returns (points: seq<Point>)
    requires samples != 1
    ensures points == Samples(ev, expression, xMin, xMax, samples)
  {
    var step := SampleStep(xMin, xMax, samples);
    points := [];
    for i := 0 to samples
      invariant points == KeptSamples(Adapter(ev, expression), xMin, step, i)
    {
      var x := GridX(xMin, step, i);
      match ev(expression, x)
      case Value(y) =>
        points := points + [Point(x, y)];
      case NonNumber =>
      case Throws =>
    }
  }

  /** The grid runs from xMin to xMax exactly: the first sample is at xMin and
      the last at xMax. */
  lemma SampleGridEnds(xMin: real, xMax: real, samples: nat)
    requires samples >= 2
    ensures GridX(xMin, SampleStep(xMin, xMax, samples), 0) == xMin
    ensures GridX(xMin, SampleStep(xMin, xMax, samples), samples - 1) == xMax
  {
  }

  /** A point is returned exactly when it lies on one of the `samples` grid
      points and the expression evaluates there to that finite number; throws
      and non-numbers are skipped alike. */
  lemma SamplesExactly(ev: Evaluator, expression: string, xMin: real, xMax: real, samples: nat, p: Point)
    requires samples != 1
    ensures p in Samples(ev, expression, xMin, xMax, samples) <==>
            exists i :: 0 <= i < samples && p.x == GridX(xMin, SampleStep(xMin, xMax, samples), i) &&
                        ev(expression, p.x) == Value(p.y)
  {
    KeptSamplesExactly(Adapter(ev, expression), xMin, SampleStep(xMin, xMax, samples), samples, p);
  }

  /** At most `samples` points, each carrying the evaluator's value, strictly
      increasing in x when xMax > xMin */
  lemma SamplesOrdered(ev: Evaluator, expression: string, xMin: real, xMax: real, samples: nat)
    requires samples != 1
    ensures var pts := Samples(ev, expression, xMin, xMax, samples);
            |pts| <= samples &&
            (forall k :: 0 <= k < |pts| ==> ev(expression, pts[k].x) == Value(pts[k].y)) &&
            (xMin < xMax ==> forall j, k :: 0 <= j < k < |pts| ==> pts[j].x < pts[k].x)
  {
    var pts := Samples(ev, expression, xMin, xMax, samples);
    forall k | 0 <= k < |pts|
      ensures ev(expression, pts[k].x) == Value(pts[k].y)
    {
      assert Adapter(ev, expression)(pts[k].x) == Some(pts[k].y);
    }
    if xMin < xMax && samples > 0 {
      KeptSamplesIncreasing(Adapter(ev, expression), xMin, SampleStep(xMin, xMax, samples), samples);
    }
  }

  // ---------------------------------------------------------------------
  // analyzeFunction

  /** The number of sub-intervals of the analysis grid */
  const AnalyzeSamples: nat := 1000

  /** A jump of more than this between neighbouring defined samples marks an
      asymptote. */
  const JumpThreshold: real := 1000.0

  /** The loop state: the last defined sample (prevX, prevY) and the two
      output lists */
  datatype ScanState = ScanState(prevX: real, prevY: Option<real>, asymptotes: seq<real>, extrema: seq<Extremum>)

  /** One iteration at grid point x, where nextX = x + step. A throw or a
      non-number at x skips the iteration. A finite y is compared with the
      previous defined sample: a jump records an asymptote at the midpoint;
      then, if the look-ahead value is finite, the strict three-point test
      runs. A throw from the look-ahead abandons the iteration after the
      asymptote check, so the previous sample is not advanced. An iteration
      only appends: at most one asymptote and at most one extremum. */
  function ScanStep(ev: Evaluator, expression: string, st: ScanState, x: real, nextX: real): (r: ScanState)
    ensures st.asymptotes <= r.asymptotes && |r.asymptotes| <= |st.asymptotes| + 1
    ensures st.extrema <= r.extrema && |r.extrema| <= |st.extrema| + 1
  {
    match ev(expression, x)
    case Value(y) =>
      var asymptotes :=
        if st.prevY.Some? && Abs(y - st.prevY.value) > JumpThreshold then st.asymptotes + [(x + st.prevX) / 2.0]
        else st.asymptotes;
      if st.prevY.None? then ScanState(x, Some(y), asymptotes, st.extrema)
      else
        (match ev(expression, nextX)
         case Throws => st.(asymptotes := asymptotes)
         case NonNumber => ScanState(x, Some(y), asymptotes, st.extrema)
         case Value(nextY) => ScanState(x, Some(y), asymptotes, st.extrema + Classify(x, y, st.prevY.value, nextY)))
    case NonNumber => st
    case Throws => st
  }

  /** The state after the iterations i = 1 .. m */
  function ScanThrough(ev: Evaluator, expression: string, xMin: real, step: real, m: nat): ScanState
  {
    if m == 0 then ScanState(xMin, None, [], [])
    else
      var x := GridX(xMin, step, m);
      ScanStep(ev, expression, ScanThrough(ev, expression, xMin, step, m - 1), x, x + step)
  }

  datatype Analysis = Analysis(asymptotes: seq<real>, extrema: seq<Extremum>)

  /** analyzeFunction: the iterations i = 1 .. 999 of the 1000-interval grid */
  function Analyze(ev: Evaluator, expression: string, xMin: real, xMax: real): Analysis
  {
    var st := ScanThrough(ev, expression, xMin, StepOf(xMin, xMax, AnalyzeSamples), AnalyzeSamples - 1);
    Analysis(st.asymptotes, st.extrema)
  }

  /** analyzeFunction */
  method AnalyzeFunction(ev: Evaluator, expression: string, xMin: real, xMax: real)
    returns (asymptotes: seq<real>, extrema: seq<Extremum>)
    ensures Analysis(asymptotes, extrema) == Analyze(ev, expression, xMin, xMax)
  {
    var step := StepOf(xMin, xMax, AnalyzeSamples);
    asymptotes, extrema := [], [];
    var prevY: Option<real> := None;
    var prevX := xMin;
    for i := 1 to AnalyzeSamples
      invariant ScanState(prevX, prevY, asymptotes, extrema) == ScanThrough(ev, expression, xMin, step, i - 1)
    {
      var x := GridX(xMin, step, i);
      match ev(expression, x)
      case Value(y) =>
        if prevY.Some? && Abs(y - prevY.value) > JumpThreshold {
          asymptotes := asymptotes + [(x + prevX) / 2.0];
        }
        if prevY.Some? {
          var nextX := x + step;
          match ev(expression, nextX)
          case Throws =>
            continue;
          case NonNumber =>
          case Value(nextY) =>
            if y > prevY.value && y > nextY {
              extrema := extrema + [Extremum(x, y, Max)];
            } else if y < prevY.value && y < nextY {
              extrema := extrema + [Extremum(x, y, Min)];
            }
        }
        prevY := Some(y);
        prevX := x;
      case NonNumber =>
      case Throws =>
    }
  }

  /** What one iteration does to the previous sample: a throw or non-number at
      x leaves it; a finite y moves it to (x, y) unless the look-ahead throws
      after a previous sample exists, which leaves it in place (a non-number
      look-ahead still moves it). */
  lemma ScanStepPrevious(ev: Evaluator, expression: string, st: ScanState, x: real, nextX: real)
    ensures var r := ScanStep(ev, expression, st, x, nextX);
            !ev(expression, x).Value? ==> r == st
    ensures var r := ScanStep(ev, expression, st, x, nextX);
            ev(expression, x).Value? ==>
              if st.prevY.Some? && ev(expression, nextX).Throws? then r.prevX == st.prevX && r.prevY == st.prevY
              else r.prevX == x && r.prevY == Some(ev(expression, x).v)
  {
  }

  /** An extremum is recorded at x only after a previous defined sample and
      with a finite look-ahead value, by the strict comparison with both. */
  lemma ScanStepExtremum(ev: Evaluator, expression: string, st: ScanState, x: real, nextX: real)
    requires |ScanStep(ev, expression, st, x, nextX).extrema| > |st.extrema|
    ensures var r := ScanStep(ev, expression, st, x, nextX);
            var e := r.extrema[|st.extrema|];
            |r.extrema| == |st.extrema| + 1 && r.extrema[..|st.extrema|] == st.extrema &&
            st.prevY.Some? && ev(expression, x) == Value(e.y) && e.x == x &&
            ev(expression, nextX).Value? &&
            (e.kind == Max <==> e.y > st.prevY.value && e.y > ev(expression, nextX).v) &&
            (e.kind == Min <==> e.y < st.prevY.value && e.y < ev(expression, nextX).v)
  {
  }

  /** An asymptote is recorded at x only after a previous defined sample more
      than 1000 away in value, at the midpoint of the two abscissae. */
  lemma ScanStepAsymptote(ev: Evaluator, expression: string, st: ScanState, x: real, nextX: real)
    requires |ScanStep(ev, expression, st, x, nextX).asymptotes| > |st.asymptotes|
    ensures var r := ScanStep(ev, expression, st, x, nextX);
            |r.asymptotes| == |st.asymptotes| + 1 && r.asymptotes[..|st.asymptotes|] == st.asymptotes &&
            st.prevY.Some? && ev(expression, x).Value? &&
            Abs(ev(expression, x).v - st.prevY.value) > JumpThreshold &&
            r.asymptotes[|st.asymptotes|] == (x + st.prevX) / 2.0
  {
    var r := ScanStep(ev, expression, st, x, nextX);
    assert r.asymptotes[..|st.asymptotes|] == st.asymptotes;
  }

  /** Conversely, a finite y more than 1000 away from the previous defined
      sample always records an asymptote at the midpoint of the two
      abscissae, whatever the look-ahead does. */
  lemma ScanStepRecordsAsymptote(ev: Evaluator, expression: string, st: ScanState, x: real, nextX: real)
    requires ev(expression, x).Value? && st.prevY.Some?
    requires Abs(ev(expression, x).v - st.prevY.value) > JumpThreshold
    ensures ScanStep(ev, expression, st, x, nextX).asymptotes == st.asymptotes + [(x + st.prevX) / 2.0]
  {
  }

  /** Conversely, a finite y after a previous defined sample, with a finite
      look-ahead, strictly above (below) both always records a maximum
      (minimum) at (x, y). */
  lemma ScanStepRecordsExtremum(ev: Evaluator, expression: string, st: ScanState, x: real, nextX: real, y: real, nextY: real)
    requires ev(expression, x) == Value(y) && st.prevY.Some? && ev(expression, nextX) == Value(nextY)
    ensures y > st.prevY.value && y > nextY ==>
              ScanStep(ev, expression, st, x, nextX).extrema == st.extrema + [Extremum(x, y, Max)]
    ensures y < st.prevY.value && y < nextY ==>
              ScanStep(ev, expression, st, x, nextX).extrema == st.extrema + [Extremum(x, y, Min)]
  {
  }

  /** Later iterations only append: the lists after m1 iterations are
      prefixes of the lists after m2 >= m1 iterations. */
  lemma {:induction false} ScanThroughPrefix(ev: Evaluator, expression: string, xMin: real, step: real, m1: nat, m2: nat)
    requires m1 <= m2
    ensures ScanThrough(ev, expression, xMin, step, m1).asymptotes <= ScanThrough(ev, expression, xMin, step, m2).asymptotes
    ensures ScanThrough(ev, expression, xMin, step, m1).extrema <= ScanThrough(ev, expression, xMin, step, m2).extrema
  {
    if m1 < m2 {
      ScanThroughPrefix(ev, expression, xMin, step, m1, m2 - 1);
    }
  }

  /** Iteration m of analyzeFunction (1 <= m <= 999), at grid point x: when y
      = f(x) is finite and more than 1000 away from the previous defined
      sample held after iteration m - 1, the reported asymptotes hold the
      midpoint of x and that sample's abscissa, right after the asymptotes
      found before iteration m. */
  lemma AnalyzeRecordsAsymptote(ev: Evaluator, expression: string, xMin: real, xMax: real, m: nat)
    requires 1 <= m < AnalyzeSamples
    requires var st := ScanThrough(ev, expression, xMin, StepOf(xMin, xMax, AnalyzeSamples), m - 1);
             var x := GridX(xMin, StepOf(xMin, xMax, AnalyzeSamples), m);
             ev(expression, x).Value? && st.prevY.Some? && Abs(ev(expression, x).v - st.prevY.value) > JumpThreshold
    ensures var st := ScanThrough(ev, expression, xMin, StepOf(xMin, xMax, AnalyzeSamples), m - 1);
            var x := GridX(xMin, StepOf(xMin, xMax, AnalyzeSamples), m);
            var r := Analyze(ev, expression, xMin, xMax);
            |st.asymptotes| < |r.asymptotes| && r.asymptotes[|st.asymptotes|] == (x + st.prevX) / 2.0
  {
    var step := StepOf(xMin, xMax, AnalyzeSamples);
    var st := ScanThrough(ev, expression, xMin, step, m - 1);
    var x := GridX(xMin, step, m);
    ScanStepRecordsAsymptote(ev, expression, st, x, x + step);
    ScanThroughPrefix(ev, expression, xMin, step, m, AnalyzeSamples - 1);
    var after := ScanThrough(ev, expression, xMin, step, m).asymptotes;
    assert after[|st.asymptotes|] == (x + st.prevX) / 2.0;
  }

  /** Iteration m of analyzeFunction (1 <= m <= 999), at grid point x: when y
      = f(x) and the look-ahead f(x + step) are finite and y is strictly above
      (below) both the look-ahead and the previous defined sample held after
      iteration m - 1, the reported extrema hold a maximum (minimum) at
      (x, y), right after the extrema found before iteration m. */
  lemma AnalyzeRecordsExtremum(ev: Evaluator, expression: string, xMin: real, xMax: real, m: nat, y: real, nextY: real)
    requires 1 <= m < AnalyzeSamples
    requires var st := ScanThrough(ev, expression, xMin, StepOf(xMin, xMax, AnalyzeSamples), m - 1);
             var x := GridX(xMin, StepOf(xMin, xMax, AnalyzeSamples), m);
             ev(expression, x) == Value(y) && st.prevY.Some? &&
             ev(expression, x + StepOf(xMin, xMax, AnalyzeSamples)) == Value(nextY) &&
             ((y > st.prevY.value && y > nextY) || (y < st.prevY.value && y < nextY))
    ensures var st := ScanThrough(ev, expression, xMin, StepOf(xMin, xMax, AnalyzeSamples), m - 1);
            var x := GridX(xMin, StepOf(xMin, xMax, AnalyzeSamples), m);
            var r := Analyze(ev, expression, xMin, xMax);
            |st.extrema| < |r.extrema| &&
            r.extrema[|st.extrema|] == Extremum(x, y, if y > st.prevY.value then Max else Min)
  {
    var step := StepOf(xMin, xMax, AnalyzeSamples);
    var st := ScanThrough(ev, expression, xMin, step, m - 1);
    var x := GridX(xMin, step, m);
    ScanStepRecordsExtremum(ev, expression, st, x, x + step, y, nextY);
    ScanThroughPrefix(ev, expression, xMin, step, m, AnalyzeSamples - 1);
    var after := ScanThrough(ev, expression, xMin, step, m).extrema;
    assert after[|st.extrema|] == Extremum(x, y, if y > st.prevY.value then Max else Min);
  }

  /** The previous sample is xMin, or a defined sample after xMin, and not
      beyond the current grid point xm. */
  ghost predicate PreviousOk(ev: Evaluator, expression: string, xMin: real, xm: real, st: ScanState)
  {
    xMin <= st.prevX <= xm &&
    (st.prevY.Some? ==> xMin < st.prevX && ev(expression, st.prevX) == Value(st.prevY.value))
  }

  /** The asymptotes are strictly increasing, each after xMin and no later than
      the midpoint of the current grid point xm and the previous sample. */
  ghost predicate AsymptotesOk(xMin: real, xm: real, st: ScanState)
  {
    (forall k :: 0 <= k < |st.asymptotes| ==> xMin < st.asymptotes[k] <= (xm + st.prevX) / 2.0) &&
    (forall j, k :: 0 <= j < k < |st.asymptotes| ==> st.asymptotes[j] < st.asymptotes[k])
  }

  /** The extrema are strictly increasing finite samples after xMin and no
      later than the current grid point xm. */
  ghost predicate ExtremaOk(ev: Evaluator, expression: string, xMin: real, xm: real, st: ScanState)
  {
    (forall k :: 0 <= k < |st.extrema| ==> xMin < st.extrema[k].x <= xm) &&
    (forall k :: 0 <= k < |st.extrema| ==> ev(expression, st.extrema[k].x) == Value(st.extrema[k].y)) &&
    (forall j, k :: 0 <= j < k < |st.extrema| ==> st.extrema[j].x < st.extrema[k].x)
  }

  lemma PreviousStep(ev: Evaluator, expression: string, xMin: real, xp: real, x: real, nextX: real, st: ScanState)
    requires xMin <= xp < x && PreviousOk(ev, expression, xMin, xp, st)
    ensures PreviousOk(ev, expression, xMin, x, ScanStep(ev, expression, st, x, nextX))
  {
    ScanStepPrevious(ev, expression, st, x, nextX);
  }

  lemma AsymptotesStep(ev: Evaluator, expression: string, xMin: real, xp: real, x: real, nextX: real, st: ScanState)
    requires xMin <= xp < x && PreviousOk(ev, expression, xMin, xp, st) && AsymptotesOk(xMin, xp, st)
    ensures AsymptotesOk(xMin, x, ScanStep(ev, expression, st, x, nextX))
    ensures |ScanStep(ev, expression, st, x, nextX).asymptotes| <= |st.asymptotes| + 1
  {
    var r := ScanStep(ev, expression, st, x, nextX);
    ScanStepPrevious(ev, expression, st, x, nextX);
    assert st.prevX <= r.prevX;
    assert (xp + st.prevX) / 2.0 < (x + st.prevX) / 2.0 <= (x + r.prevX) / 2.0;
    if |r.asymptotes| > |st.asymptotes| {
      ScanStepAsymptote(ev, expression, st, x, nextX);
      assert r.asymptotes == st.asymptotes + [(x + st.prevX) / 2.0];
    } else {
      assert r.asymptotes == st.asymptotes;
    }
  }

  lemma ExtremaStep(ev: Evaluator, expression: string, xMin: real, xp: real, x: real, nextX: real, st: ScanState)
    requires xMin <= xp < x && ExtremaOk(ev, expression, xMin, xp, st)
    ensures ExtremaOk(ev, expression, xMin, x, ScanStep(ev, expression, st, x, nextX))
    ensures |ScanStep(ev, expression, st, x, nextX).extrema| <= |st.extrema| + 1
  {
    var r := ScanStep(ev, expression, st, x, nextX);
    if |r.extrema| > |st.extrema| {
      ScanStepExtremum(ev, expression, st, x, nextX);
      assert r.extrema == st.extrema + [r.extrema[|st.extrema|]];
    } else {
      assert r.extrema == st.extrema;
    }
  }

  /** The invariant of the analysis loop after m iterations, with xm the
      current grid point: at most one asymptote and one extremum per
      iteration */
  ghost predicate ScanOk(ev: Evaluator, expression: string, xMin: real, xm: real, m: nat, st: ScanState)
  {
    PreviousOk(ev, expression, xMin, xm, st) && AsymptotesOk(xMin, xm, st) && ExtremaOk(ev, expression, xMin, xm, st) &&
    |st.asymptotes| <= m && |st.extrema| <= m
  }

  /** One iteration at a grid point after the previous one keeps the
      invariant; r is the state after the iteration. */
  lemma ScanOkStep(ev: Evaluator, expression: string, xMin: real, xp: real, x: real, nextX: real, m: nat,
                   st: ScanState, r: ScanState)
    requires xMin <= xp < x && ScanOk(ev, expression, xMin, xp, m, st)
    requires r == ScanStep(ev, expression, st, x, nextX)
    ensures ScanOk(ev, expression, xMin, x, m + 1, r)
  {
    PreviousStep(ev, expression, xMin, xp, x, nextX, st);
    AsymptotesStep(ev, expression, xMin, xp, x, nextX, st);
    ExtremaStep(ev, expression, xMin, xp, x, nextX, st);
  }

  /** Iteration m, at the grid point after iteration m - 1's, keeps the
      invariant. */
  lemma ScanOkSucc(ev: Evaluator, expression: string, xMin: real, step: real, m: nat)
    requires step > 0.0 && m > 0
    requires ScanOk(ev, expression, xMin, GridX(xMin, step, m - 1), m - 1, ScanThrough(ev, expression, xMin, step, m - 1))
    ensures ScanOk(ev, expression, xMin, GridX(xMin, step, m), m, ScanThrough(ev, expression, xMin, step, m))
  {
    GridNext(xMin, step, m - 1);
    var x := GridX(xMin, step, m);
    ScanOkStep(ev, expression, xMin, GridX(xMin, step, m - 1), x, x + step, m - 1,
               ScanThrough(ev, expression, xMin, step, m - 1), ScanThrough(ev, expression, xMin, step, m));
  }

  /** The invariant holds after every number of iterations on an increasing
      grid. */
  lemma {:induction false} ScanInvariant(ev: Evaluator, expression: string, xMin: real, step: real, m: nat)
    requires step > 0.0
    ensures ScanOk(ev, expression, xMin, GridX(xMin, step, m), m, ScanThrough(ev, expression, xMin, step, m))
  {
    if m > 0 {
      ScanInvariant(ev, expression, xMin, step, m - 1);
      ScanOkSucc(ev, expression, xMin, step, m);
    }
  }

  /** Over a non-empty range the analysis reports strictly increasing
      asymptotes and extrema, all strictly inside (xMin, xMax), at most
      samples - 1 of each; every extremum is a finite sample. */
  lemma AnalyzeSpec(ev: Evaluator, expression: string, xMin: real, xMax: real)
    requires xMin < xMax
    ensures var r := Analyze(ev, expression, xMin, xMax);
            |r.asymptotes| <= AnalyzeSamples - 1 && |r.extrema| <= AnalyzeSamples - 1 &&
            (forall k :: 0 <= k < |r.asymptotes| ==> xMin < r.asymptotes[k] < xMax) &&
            (forall j, k :: 0 <= j < k < |r.asymptotes| ==> r.asymptotes[j] < r.asymptotes[k]) &&
            (forall k :: 0 <= k < |r.extrema| ==> xMin < r.extrema[k].x < xMax) &&
            (forall k :: 0 <= k < |r.extrema| ==> ev(expression, r.extrema[k].x) == Value(r.extrema[k].y)) &&
            (forall j, k :: 0 <= j < k < |r.extrema| ==> r.extrema[j].x < r.extrema[k].x)
  {
    var step := StepOf(xMin, xMax, AnalyzeSamples);
    GridEnds(xMin, xMax, AnalyzeSamples);
    GridMonotone(xMin, step, AnalyzeSamples - 1, AnalyzeSamples);
    ScanInvariant(ev, expression, xMin, step, AnalyzeSamples - 1);
  }
}
