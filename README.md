# Graphing calculator core, modelled in Dafny

This project models the computational core of a browser graphing calculator
written in TypeScript (React with a Redux store and a Web Worker). It covers
three parts:

- **The graph component** (`src/components/Graph.tsx`):
  - `niceStep`, which rounds a rough grid step down to 1, 2 or 5 times a power of ten, and the grid-line loops over its multiples;
  - `findIntersections`, a sign-change scan of f1 - f2 on a grid, where each bracket is refined by exactly ten bisection steps;
  - `findExtrema`, a strict three-point test over the defined samples;
  - the parabolic refinement of each raw extremum and the per-equation extrema cache keyed by `id + ':' + expression`;
  - the drawing pass: one polyline per visible equation, and intersection markers for every pair i < j of visible equations;
  - the pointer handlers: drag, wheel zoom and the prioritised click hit test.
- **The compute worker** (`src/workers/compute.worker.ts`): `sampleFunction` and `analyzeFunction`. The latter finds jumps larger than 1000 (asymptotes) and strict local extrema.
- **The graph slice of the store** (`src/store/graphSlice.ts`): the initial state and the six reducers.

The expression evaluator (mathjs) is a parameter. `Types.Evaluator` maps an
expression and an x to a finite number, some other value, or an exception.
The graph component collapses the last two to "undefined" (`Types.Defined`).
The worker keeps them apart, because a throw while evaluating the look-ahead
point skips the rest of the iteration, while a non-number does not.

All arithmetic is on exact reals. Grid points are computed from their index
(`xMin + i * step`), including in the loops that the source writes as
`x += step`.

How each file is modelled:

- Stateful code becomes Dafny classes:
  - the component's state (`useState`/`useRef`) is `GraphView.GraphView`;
  - the store's draft state is `GraphSlice.GraphStore`.
- Each loop is a method proved equal to a specification function:
  - `KeptSamples` for the sampling loops;
  - `IntersectionsUpTo`, `LocalExtrema` and `ScanThrough` for the scans;
  - `MarkersOfPairs` for the pair loops;
  - `CurveHitOf` for the click scan.
- The properties the source implies are lemmas about those functions.

Files:

| file | module | models |
|---|---|---|
| types.dfy | Types | records, the evaluator, `find`/`findIndex`, `??`, truthiness |
| sampling.dfy | Sampling | evenly spaced grids, kept samples, the three-point test |
| ticks.dfy | Ticks | `niceStep` and the tick loops |
| viewport.dfy | Viewport | screen transforms, drag and zoom bounds |
| intersections.dfy | Intersections | `findIntersections`, visible pairs, intersection markers |
| extrema.dfy | Extrema | `findExtrema`, the parabolic refinement (and the finding below) |
| hit_test.dfy | HitTest | the three hit tests of `handleClick` |
| graph_view.dfy | GraphView | curves, extrema effect and cache, pointer handlers, click, draw |
| compute_worker.dfy | ComputeWorker | `sampleFunction`, `analyzeFunction` |
| graph_slice.dfy | GraphSlice | `initialState` and the reducers |

## Model

| member | source | states |
|---|---|---|
| Types.Find | src/store/graphSlice.ts:27 | `findIndex`: the result satisfies the predicate and no earlier element does; none exactly when no element does |
| Types.FindFirst | src/components/Graph.tsx:405-411 | a satisfying position with no satisfying element before it is what `find` returns |
| Sampling.GridMonotone | src/components/Graph.tsx:71-72 | with a positive step, grid points strictly increase with their index |
| Sampling.GridEnds | src/components/Graph.tsx:70-72 | a grid of n sub-intervals starts at xMin, ends exactly at xMax, and has a positive step on a non-empty range |
| Sampling.GridNext | src/components/Graph.tsx:254 | consecutive grid points are one step apart (`x += step`); with a non-negative step none lies before the origin |
| Sampling.KeptSamples | src/components/Graph.tsx:71-75 | at most n points are kept, each carrying f's defined value at its x |
| Sampling.KeptSamplesExactly | src/components/Graph.tsx:71-75 | a point is kept if and only if it lies on one of the n grid points and f is defined there with that value |
| Sampling.KeptSamplesIncreasing | src/components/Graph.tsx:71-75 | with a positive step, kept points are strictly increasing in x and lie between the first and the last grid point |
| Sampling.KeptSamplesSkip | src/components/Graph.tsx:255-262 | grid points where the expression is undefined add nothing |
| Sampling.KeptSamplesPrefix | src/components/Graph.tsx:254-263 | sampling more grid points only extends the list |
| Sampling.KeptSamplesBridge | src/components/Graph.tsx:254-270 | two defined grid points with only undefined ones between them are neighbours in the kept list |
| Sampling.Classify | src/components/Graph.tsx:82-86 | at most one extremum, at (x, y): a maximum exactly when y is strictly above both neighbours, a minimum exactly when strictly below both |
| Ticks.Pow10 | src/components/Graph.tsx:11 | `Math.pow(10, k)` is positive for every integer k |
| Ticks.Pow10Monotone | src/components/Graph.tsx:11 | powers of ten are non-decreasing in the exponent |
| Ticks.Log10Floor | src/components/Graph.tsx:11 | `floor(log10(r))` is the k with 10^k <= r < 10^(k+1) |
| Ticks.Log10FloorUnique | src/components/Graph.tsx:11 | that exponent is unique |
| Ticks.NiceStep | src/components/Graph.tsx:9-17 | `niceStep` returns a positive step, so the tick loops advance |
| Ticks.LeadingDigit | src/components/Graph.tsx:12 | the leading-digit value rough / mag lies in [1, 10) |
| Ticks.StepBounds | src/components/Graph.tsx:13-16 | the chosen step is mag, 2 mag or 5 mag, and between 2/5 of the rough step and the rough step |
| Ticks.NiceStepIsNice | src/components/Graph.tsx:9-17 | `niceStep` returns 1, 2 or 5 times a power of ten, between 2/5 of range/targetTicks and range/targetTicks |
| Ticks.NiceStepMonotone | src/components/Graph.tsx:9-17 | for a fixed tick count a larger range never gets a smaller step |
| Ticks.RoundedMonotone | src/components/Graph.tsx:10-16 | rounding a larger rough step never gives a smaller step, within a decade or across decades |
| Ticks.NiceStepExamples | src/components/Graph.tsx:9-17 | niceStep(20, 10) = 1 and niceStep(100, 10) = 10 |
| Ticks.Ceil | src/components/Graph.tsx:194 | `Math.ceil`: r <= ceil(r) < r + 1 |
| Ticks.FirstMultiple | src/components/Graph.tsx:194 | ceil(lo / step) * step is the least multiple of step at or above lo |
| Ticks.MultipleMonotone | src/components/Graph.tsx:194 | multiples of a positive step are ordered as their factors are |
| Ticks.ConsecutiveComplete | src/components/Graph.tsx:194 | the multiples from the first one at or above lo to the last one at or below hi include every multiple in [lo, hi] |
| Ticks.ConsecutiveIncreasing | src/components/Graph.tsx:194 | consecutive multiples of a positive step increase strictly |
| Ticks.TickPositions | src/components/Graph.tsx:194-225 | each grid-line loop (x and y) visits exactly the multiples of the step inside [lo, hi], consecutively and strictly increasing |
| Viewport.ToScreenX | src/components/Graph.tsx:177 | `toScreenX`; the pointer-to-data transform of `handleWheel` (line 370) maps its column back to x |
| Viewport.ToScreenY | src/components/Graph.tsx:178 | `toScreenY`, rows growing downward; the pointer-to-data transform of `handleWheel` (line 371) maps its row back to y |
| Viewport.ScreenRoundTrip | src/components/Graph.tsx:177-178 | the screen transforms and the pointer-to-data transforms are inverse in both directions |
| Viewport.ScreenXIncreasing | src/components/Graph.tsx:177 | `toScreenX` is strictly increasing |
| Viewport.ScreenCorners | src/components/Graph.tsx:177-178 | the bounds map onto the canvas edges, with y pointing down |
| Viewport.DragBounds | src/components/Graph.tsx:341-351 | a drag keeps both ranges and keeps well-formed bounds well formed |
| Viewport.DragFollowsPointer | src/components/Graph.tsx:341-351 | the data point under pixel (sx, sy) before the drag is under (sx + dx, sy + dy) after it |
| Viewport.DragRoundTrip | src/components/Graph.tsx:341-351 | dragging by (dx, dy) and then by (-dx, -dy) restores the bounds exactly |
| Viewport.ZoomBounds | src/components/Graph.tsx:366-387 | both ranges are scaled by 1.1 when deltaY > 0 and by 0.9 otherwise; well-formed bounds stay well formed |
| Viewport.ZoomKeepsPointer | src/components/Graph.tsx:369-381 | the data point under the pointer stays under the pointer |
| Viewport.ZoomInThenOut | src/components/Graph.tsx:373-381 | zooming in and then out scales both ranges by 0.99 and keeps the data point under the pointer on both axes, so the bounds differ from the original |
| Intersections.OppositeProduct | src/components/Graph.tsx:38 | the sign test (prevY1 - prevY2) * (y1 - y2) < 0 holds exactly when the two differences have strictly opposite signs |
| Intersections.Bisect | src/components/Graph.tsx:41-50 | the ten-step bisection: keep the left half when f1 - f2 changes sign between a and the midpoint, else the right half; the interval stays inside (a, b) with a positive width |
| Intersections.BisectWidth | src/components/Graph.tsx:42-49 | each bisection step halves the interval |
| Intersections.BisectKeepsSignChange | src/components/Graph.tsx:42-49 | the strict sign change survives as long as no midpoint is an exact zero of f1 - f2 |
| Intersections.CandidateAt | src/components/Graph.tsx:35-56 | each sub-interval yields at most one point, and its y is f1's defined value |
| Intersections.RefineBracket | src/components/Graph.tsx:41-50 | the ten-step bisection loop computes the specified bisection interval |
| Intersections.ScanCell | src/components/Graph.tsx:35-56 | one iteration's body computes its sub-interval's candidate from the values at both ends |
| Intersections.FindIntersections | src/components/Graph.tsx:19-62 | the scan returns the candidates of sub-intervals 1 .. samples, in order |
| Intersections.CandidateInCell | src/components/Graph.tsx:40-52 | a sub-interval's point lies strictly inside it, and its ends bracket a sign change |
| Intersections.IntersectionSound | src/components/Graph.tsx:31-60 | every reported point has y = f1(x), lies strictly inside a bracketing sub-interval, and lies strictly between xMin and the last grid point |
| Intersections.IntersectionsOrdered | src/components/Graph.tsx:31-60 | at most one point per sub-interval, strictly increasing in x |
| Intersections.IdenticalFunctionsNoIntersections | src/components/Graph.tsx:35-39 | two identical functions never intersect |
| Intersections.BracketRefinement | src/components/Graph.tsx:40-51 | after ten steps the bracket has width step / 1024, sits inside the sub-interval, and still brackets a sign change when no midpoint was a zero |
| Intersections.Row | src/components/Graph.tsx:280 | the inner loop's pairs are (i, i+1), (i, i+2), ... in order |
| Intersections.RowExactly | src/components/Graph.tsx:280 | row i holds exactly the pairs (i, j) with i < j < n |
| Intersections.PairsExactly | src/components/Graph.tsx:279-280 | the nested loops enumerate exactly the pairs i < j < n |
| Intersections.PairsOrdered | src/components/Graph.tsx:279-280 | each pair is enumerated once, in lexicographic order |
| Intersections.Visible | src/components/Graph.tsx:278 | the filter keeps exactly the visible equations, and never more than there are; VisibleConcat and VisibleSingle fix their order and multiplicity |
| Intersections.VisibleConcat | src/components/Graph.tsx:278 | the filter distributes over concatenation, so it keeps the visible equations in list order and with their multiplicity |
| Intersections.VisibleSingle | src/components/Graph.tsx:278 | a one-equation list keeps its equation exactly when it is visible |
| Intersections.ToMarkersPointwise | src/components/Graph.tsx:301-308 | each intersection point becomes one marker, in order, at its screen position |
| Intersections.MarkPair | src/components/Graph.tsx:283-308 | one pair's markers are its intersections over the current range with 200 sub-intervals |
| Intersections.IntersectWithLater | src/components/Graph.tsx:280-309 | the inner loop produces row i's markers |
| Intersections.AllIntersectionMarkers | src/components/Graph.tsx:276-311 | the recorded markers are those of every pair i < j of visible equations, in loop order |
| Extrema.FindExtrema | src/components/Graph.tsx:64-89 | `findExtrema` returns the local extrema of the kept samples of its grid |
| Extrema.KeepSamples | src/components/Graph.tsx:70-76 | the first loop keeps the defined samples at the grid points 0 .. samples |
| Extrema.ScanInterior | src/components/Graph.tsx:77-87 | the second loop reports the three-point extrema of the interior positions |
| Extrema.LocalExtremumSource | src/components/Graph.tsx:77-87 | every reported extremum is an interior kept sample; it is a maximum exactly when strictly above both kept neighbours, a minimum exactly when strictly below both |
| Extrema.LocalExtremumComplete | src/components/Graph.tsx:77-87 | every interior kept sample strictly above (below) both kept neighbours is reported as a maximum (minimum) |
| Extrema.LocalExtremaIncreasing | src/components/Graph.tsx:77-87 | with increasing samples the extrema are strictly increasing in x |
| Extrema.LocalExtremaCount | src/components/Graph.tsx:78 | fewer than three kept samples give no extremum, otherwise at most |pts| - 2 |
| Extrema.PlateauNeverReported | src/components/Graph.tsx:80-86 | neither sample of a flat step is reported |
| Extrema.EndpointsNeverReported | src/components/Graph.tsx:78 | the first and the last kept samples are never reported |
| Extrema.ExtremumOnGrid | src/components/Graph.tsx:64-89 | every reported extremum is f's value at an interior grid point |
| Extrema.ExtremaOfIncreasing | src/components/Graph.tsx:64-89 | over a non-empty range the extrema are strictly increasing in x |
| Extrema.RefineAsWritten | src/components/Graph.tsx:141-157 | the refinement as the source computes it: the kind is kept; x is not finite exactly when the divisor is zero, and y is then the raw y; otherwise y is f(xV), or the raw y where f is undefined |
| Extrema.Refine | src/components/Graph.tsx:141-157 | the corrected refinement (see Findings): a refined extremum keeps its kind, and its y is f(xV), or the raw y where f is undefined |
| Extrema.GuardNeverZero | src/components/Graph.tsx:147 | the guard (x0 - x1)(x0 - x2)(x1 - x2) is -2h^3 and never zero |
| Extrema.DivisorCollinear | src/components/Graph.tsx:150-153 | the divisor is -2h(y0 - 2y1 + y2); it is zero exactly when the window values are collinear |
| Extrema.NumeratorSymmetric | src/components/Graph.tsx:150-152 | the numerator over the symmetric window, in closed form |
| Extrema.RefineOffset | src/components/Graph.tsx:148-154 | with a non-zero divisor, xV = x + h(y0 - y2) / (2(y0 - 2y1 + y2)) |
| Extrema.RefineFindsVertex | src/components/Graph.tsx:141-157 | on a parabola a t^2 + b t + c (a != 0) the refined x is the vertex -b / (2a) |
| Extrema.RefineStaysNear | src/components/Graph.tsx:141-157 | when the middle window value is strictly above (or below) both others, the refined x moves by less than h/2 |
| Extrema.RefineAsWrittenAgrees | src/components/Graph.tsx:147-154 | where the divisor is non-zero, the refinement as written equals the corrected one |
| Extrema.RefineAsWrittenCollinear | src/components/Graph.tsx:147-154 | with collinear window values the source divides by zero; the corrected refinement keeps x |
| Extrema.RefineAllPointwise | src/components/Graph.tsx:141-158 | refinement keeps the number of extrema, their order and each one's kind |
| Extrema.EffectExtrema | src/components/Graph.tsx:137-158 | one refined extremum per raw extremum over [-20, 20] with 1000 sub-intervals, of the same kind, with y = f(xV) or the raw y |
| Extrema.RefineAllAsWritten | src/components/Graph.tsx:141-158 | the corrected list agrees with the source's map element by element; where the source's divisor is zero the source's x is not finite and its y the raw y, while the corrected element keeps the raw x |
| Extrema.KinkDividesByZero | src/components/Graph.tsx:139-154 | for y = -abs(x - 0.01), the effect reports a maximum at 0; the source's refined x is not finite there |
| HitTest.FindCurveHit | src/components/Graph.tsx:430-458 | the curve scan (equations in order, hidden ones skipped, columns 0, 4, ..., 796, stopping at the first hit) returns the specified hit |
| HitTest.CurveHitOf | src/components/Graph.tsx:430-458 | a hit names a visible equation, a column among the 200 probed, the curve point at that column, and that column hits within 7 px both ways |
| HitTest.CurveHitSpec | src/components/Graph.tsx:438-458 | a hit is a visible equation and column within 7 px both ways, with every earlier column and every earlier visible curve missing; no hit means no column of any visible curve is that close |
| GraphView.CurveGridInRange | src/components/Graph.tsx:254 | the curve loop's grid point k is within the bounds exactly for k = 0 .. 800 |
| GraphView.CollectCurveSamples | src/components/Graph.tsx:253-263 | the curve's sampling loop keeps the defined samples of its 801 grid points |
| GraphView.CurvePath | src/components/Graph.tsx:253-271 | the path is the kept samples mapped to the screen, in order |
| GraphView.CurvePaths | src/components/Graph.tsx:248-273 | one path per visible equation, in list order |
| GraphView.CurvePathSpec | src/components/Graph.tsx:253-271 | the path runs strictly left to right through at most 801 points, each drawn at (x, f(x)) for a defined grid x within the bounds |
| GraphView.CurveBridgesGaps | src/components/Graph.tsx:254-271 | defined samples separated only by undefined grid points are joined by one segment (no line breaks) |
| GraphView.CacheKeyInjective | src/components/Graph.tsx:124 | for ids without a colon the cache key determines the id and the expression |
| GraphView.CacheKeyCollision | src/components/Graph.tsx:124 | with a colon in an id, two different equations share a key |
| GraphView.Effect | src/components/Graph.tsx:119-161 | the effect never removes or overwrites a cache entry, and adds at most the key of the selected equation |
| GraphView.EffectHit | src/components/Graph.tsx:124-128 | a hit shows the stored list and leaves the cache unchanged |
| GraphView.EffectIdempotent | src/components/Graph.tsx:119-161 | running the effect again without a change changes nothing |
| GraphView.SoundInsert | src/components/Graph.tsx:139-159 | storing refined extrema under a colon-free key keeps the cache consistent with the expressions |
| GraphView.EffectSound | src/components/Graph.tsx:119-161 | with colon-free ids the cache stays consistent; when the selected id names an equation in the list, the shown extrema, on a hit or a miss, are the refined extrema of its current expression |
| GraphView.RunEffect | src/components/Graph.tsx:119-161 | the effect body computes the specified cache and shown extrema |
| GraphView.ResolveClick | src/components/Graph.tsx:396-458 | the resolved target indexes an existing extremum, marker or equation |
| GraphView.ResolveClickPriority | src/components/Graph.tsx:396-458 | an extremum dot wins (first hit, only with a selected equation); then an intersection dot (first hit, only when shown); then a curve; else nothing |
| GraphView.FindClickTarget | src/components/Graph.tsx:396-458 | the click's hit tests run in priority order and stop at the first hit |
| GraphView.GraphView.constructor | src/components/Graph.tsx:103-113 | not dragging, pointer at (0, 0), no selection, no markers, empty cache and no extrema |
| GraphView.GraphView.RefreshExtrema | src/components/Graph.tsx:119-161 | the effect updates only the cache and the shown extrema, as specified |
| GraphView.GraphView.MouseDown | src/components/Graph.tsx:325-330 | starts dragging from the pointer and clears both selected dots |
| GraphView.GraphView.MouseMove | src/components/Graph.tsx:332-353 | when not dragging nothing changes; when dragging the store's bounds move by the drag and the pointer is remembered |
| GraphView.GraphView.MouseUp | src/components/Graph.tsx:355-357 | stops dragging and changes nothing else |
| GraphView.GraphView.Wheel | src/components/Graph.tsx:359-388 | the store's bounds become the zoomed bounds; nothing else in the store changes |
| GraphView.GraphView.Click | src/components/Graph.tsx:390-486 | an extremum hit only selects it; an intersection hit selects it and clears the extremum; a curve hit selects the equation and shows its raw extrema over the current bounds with 400 samples; otherwise everything is cleared |
| GraphView.GraphView.Draw | src/components/Graph.tsx:247-311 | the pass draws one path per visible equation and records the markers of every visible pair when shown (none otherwise) |
| ComputeWorker.SampleFunction | src/workers/compute.worker.ts:37-59 | returns the finite samples at xMin + i (xMax - xMin) / (samples - 1), i = 0 .. samples - 1 |
| ComputeWorker.SampleGridEnds | src/workers/compute.worker.ts:43-46 | the first sample is taken at xMin and the last at xMax |
| ComputeWorker.SamplesExactly | src/workers/compute.worker.ts:45-56 | a point is returned exactly when it sits on a grid point and the evaluator yields that finite number there; throws and non-numbers are skipped |
| ComputeWorker.SamplesOrdered | src/workers/compute.worker.ts:45-58 | at most `samples` points, each y equal to the evaluator's value, strictly increasing in x when xMax > xMin |
| ComputeWorker.AnalyzeFunction | src/workers/compute.worker.ts:61-113 | the loop over i = 1 .. 999 computes the specified asymptotes and extrema |
| ComputeWorker.ScanStep | src/workers/compute.worker.ts:80-109 | one iteration only appends, at most one asymptote and at most one extremum |
| ComputeWorker.ScanStepPrevious | src/workers/compute.worker.ts:80-109 | the previous sample advances to (x, y) after a finite y, except when the look-ahead throws; throws and non-numbers at x leave it unchanged |
| ComputeWorker.ScanStepExtremum | src/workers/compute.worker.ts:89-101 | an extremum needs a previous defined sample and a finite look-ahead value; max and min are decided by strict comparisons |
| ComputeWorker.ScanStepAsymptote | src/workers/compute.worker.ts:85-87 | an asymptote is recorded only after a jump of more than 1000 from the previous defined sample, and it sits at (x + prevX) / 2 |
| ComputeWorker.ScanStepRecordsAsymptote | src/workers/compute.worker.ts:85-87 | conversely, a finite y more than 1000 from the previous defined sample always appends (x + prevX) / 2 to the asymptotes, whatever the look-ahead does |
| ComputeWorker.ScanStepRecordsExtremum | src/workers/compute.worker.ts:89-101 | conversely, a finite y after a defined sample with a finite look-ahead appends a max when strictly above both and a min when strictly below both |
| ComputeWorker.ScanThroughPrefix | src/workers/compute.worker.ts:78-110 | later iterations only append: the asymptotes and extrema after m1 iterations are prefixes of those after any m2 >= m1 |
| ComputeWorker.AnalyzeRecordsAsymptote | src/workers/compute.worker.ts:78-87 | at any iteration 1..999, a finite y more than 1000 from the previous defined sample puts (x + prevX) / 2 into the reported asymptotes, right after those found earlier |
| ComputeWorker.AnalyzeRecordsExtremum | src/workers/compute.worker.ts:78-101 | at any iteration 1..999, a finite y with a finite look-ahead, strictly above (below) both it and the previous defined sample, puts a max (min) at (x, y) into the reported extrema, right after those found earlier |
| ComputeWorker.ScanInvariant | src/workers/compute.worker.ts:78-110 | after every iteration the previous sample, the asymptotes and the extrema satisfy the loop invariant |
| ComputeWorker.AnalyzeSpec | src/workers/compute.worker.ts:72-112 | on a non-empty range, at most 999 asymptotes and 999 extrema, all strictly inside (xMin, xMax) and strictly increasing; each extremum is a finite sample |
| GraphSlice.WithoutExactly | src/store/graphSlice.ts:23-25 | an equation survives `removeEquation` exactly when it was present with another id |
| GraphSlice.WithoutConcat | src/store/graphSlice.ts:24 | the filter works piecewise, so survivors keep their order |
| GraphSlice.WithoutAbsent | src/store/graphSlice.ts:24 | removing an absent id changes nothing |
| GraphSlice.WithoutUnique | src/store/graphSlice.ts:23-25 | removal keeps ids unique |
| GraphSlice.ReplaceFirstSpec | src/store/graphSlice.ts:26-31 | only the first equation with the payload's id is replaced; length and ids are unchanged; no match changes nothing |
| GraphSlice.ReplaceFirstUnique | src/store/graphSlice.ts:26-31 | the update keeps ids unique |
| GraphSlice.AppendUnique | src/store/graphSlice.ts:20-22 | appending an equation with a fresh id keeps ids unique |
| GraphSlice.GraphStore.constructor | src/store/graphSlice.ts:4-14 | no equations, bounds [-10, 10] x [-10, 10], zoom 1, pan (0, 0) |
| GraphSlice.GraphStore.AddEquation | src/store/graphSlice.ts:20-22 | appends the payload; nothing else changes; a fresh id keeps ids unique |
| GraphSlice.GraphStore.RemoveEquation | src/store/graphSlice.ts:23-25 | drops every equation with the id, keeping the others in order; nothing else changes |
| GraphSlice.GraphStore.UpdateEquation | src/store/graphSlice.ts:26-31 | replaces the first equation with the payload's id, if any; nothing else changes |
| GraphSlice.GraphStore.SetBounds | src/store/graphSlice.ts:32-34 | replaces the bounds only |
| GraphSlice.GraphStore.SetZoom | src/store/graphSlice.ts:35-37 | replaces the zoom only |
| GraphSlice.GraphStore.SetPan | src/store/graphSlice.ts:38-40 | replaces the pan only |

## Left out

- **Floating point.** Numbers are exact reals. Rounding, NaN and infinity propagation, and the drift of `x += step` are not modelled. A grid point is `xMin + i * step`, which is what the loops compute over the reals. The round trips (drag back, screen to data and back) hold exactly over reals only. The one place where a non-finite value matters is the refinement's division by zero. `Extrema.RefineAsWritten` models that value as not finite, without telling +Infinity, -Infinity and NaN apart; it takes f to be undefined there, so y falls back to the raw y. The effect itself uses the corrected refinement (see the lines below and Findings).
- **The evaluator.** mathjs is a parameter (`Types.Evaluator`). `isFinite` and `typeof y === 'number'` are folded into the evaluator's outcome, so "finite number" is the `Value` case.
- **Canvas drawing and React rendering.** The `ctx.*` calls, the axes, the extrema dots, the labels and the JSX overlay are not modelled. Only the computed numbers are: the paths, the markers and the ticks.
- **React scheduling.** When the extrema effect runs is left to the caller; `GraphView.GraphView.RefreshExtrema` is that run. Clicking a curve shows its raw 400-sample extrema, and a later run of the effect replaces them with the cached or refined ones. Which of the two the user sees depends on the dependency arrays and is not modelled.
- **`formatCoord` and the tick labels.** They depend on JavaScript's number-to-string conversion.
- **Canvas size and position.** The canvas is taken as 800 x 600, as the component creates it. Pointer positions for the wheel and click handlers are given relative to the canvas (`clientX - rect.left` is done by the caller).
- **Well-formed bounds.** `GraphView.GraphView.Click`, `GraphView.GraphView.Draw`, `GraphView.CurvePath` and the hit tests require xMin < xMax and yMin < yMax. The source divides by both ranges there; on empty ranges it produces infinities or NaN, which exact reals cannot represent.
- **`onmessage`.** The worker's message dispatch and `postMessage` are plumbing.
- Extrema.Refine: is the corrected refinement. Where the three window values are collinear, the source divides by zero and produces a non-finite x, while `Extrema.Refine` keeps the raw x. Elsewhere the two agree (`Extrema.RefineAsWrittenAgrees`, `Extrema.RefineAllAsWritten`).
- Extrema.EffectExtrema: refines with `Extrema.Refine`, so on collinear windows it holds the raw x where the source's list holds a non-finite x (`Extrema.RefineAllAsWritten` states the difference element by element).
- GraphView.Effect: caches and shows `Extrema.EffectExtrema`, the corrected refinement; the source caches a non-finite x on collinear windows.
- GraphView.RunEffect: computes `GraphView.Effect`, with the same corrected refinement.
- GraphView.EffectSound: the sound cache holds the corrected refinement, not the source's non-finite values on collinear windows.
- GraphView.GraphView.RefreshExtrema: stores the corrected refinement, as `GraphView.Effect` does.
- Extrema.FindExtrema: with samples = 0 the model's step is 0 and it keeps f(xMin), while the source's step is Infinity and its only x is 0 * Infinity = NaN, so it keeps nothing. With at most one kept sample both report no extrema, so only the intermediate sample list differs. Every call site passes 1000 or 400.
- ComputeWorker.SampleFunction: requires samples != 1. With one sample the source divides 0 by 0 and samples at x = NaN.
- GraphView.EffectSound: only for ids without a colon. The cache key `id + ':' + expression` is ambiguous when an id contains a colon (`GraphView.CacheKeyCollision`). The app creates ids from `Date.now()`, so they contain none.
- GraphView.GraphView.Draw: does not return the grid ticks. The two tick loops are `Ticks.TickPositions`, each with step `Ticks.NiceStep(range, 10)`.
- **The other files.** `src/components/EquationInput.tsx`, `src/App.tsx`, `src/store/index.ts` and the unused types in `src/types/index.ts` (sliders, shaders, touch gestures) are not part of this model. Neither are the component tests that expect wheel-driven zoom and touch handling, which the component does not implement.

## Findings

| source | as written | input that shows it | evidently intended | confidence | as-written member | corrected member |
|---|---|---|---|---|---|---|
| src/components/Graph.tsx:147-154 | the parabolic refinement guards the division with (x0 - x1)(x0 - x2)(x1 - x2), which is -2h^3 and never zero, while the divisor 2(y0(x1 - x2) + y1(x2 - x0) + y2(x0 - x1)) is zero whenever the three window values are collinear | y = -abs(x - 0.01) over the fixed range [-20, 20] with 1000 samples: the scan reports a maximum at x = 0 (window values -0.02, -0.01, 0); the divisor is zero while the numerator is 2e-6, so the refined x is infinite (+Infinity in doubles) and the cached y falls back to -0.01 | guard the division by its own divisor and keep the raw x when it is zero | not executed | Extrema.KinkDividesByZero | Extrema.RefineAsWrittenCollinear |
