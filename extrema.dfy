/** The extremum scan of src/components/Graph.tsx (findExtrema) and the
    parabolic refinement the extrema effect applies to each raw extremum. */
module Extrema {
  import opened Types
  import opened Sampling

  /** Strictly increasing in x */
  predicate Increasing(pts: seq<Point>)
  {
    forall j, k :: 0 <= j < k < |pts| ==> pts[j].x < pts[k].x
  }

  /** The strict three-point test at interior position i of the kept samples */
  function ClassifyAt(pts: seq<Point>, i: nat): seq<Extremum>
    requires 0 < i < |pts| - 1
  {
    Classify(pts[i].x, pts[i].y, pts[i - 1].y, pts[i + 1].y)
  }

  /** The extrema found at the interior positions 1 .. m-1, in order */
  function InteriorUpTo(pts: seq<Point>, m: nat): seq<Extremum>
    requires m < |pts|
  {
    if m <= 1 then [] else InteriorUpTo(pts, m - 1) + ClassifyAt(pts, m - 1)
  }

  /** The second loop of findExtrema: every position but the first and the
      last of the kept samples, compared with its kept neighbours */
  function LocalExtrema(pts: seq<Point>): seq<Extremum>
  {
    if |pts| == 0 then [] else InteriorUpTo(pts, |pts| - 1)
  }

  /** findExtrema(f, xMin, xMax, samples): the samples are taken at the
      samples + 1 grid points xMin + i * step, i = 0 .. samples. */
  function ExtremaOf(f: real -> Option<real>, xMin: real, xMax: real, samples: nat): seq<Extremum>
  {
    LocalExtrema(KeptSamples(f, xMin, StepOf(xMin, xMax, samples), samples + 1))
  }

  /** findExtrema: the sampling loop, then the comparison loop */
  method FindExtrema(f: real -> Option<real>, xMin: real, xMax: real, samples: nat) returns (extrema: seq<Extremum>)
    ensures extrema == ExtremaOf(f, xMin, xMax, samples)
  {
    var step := StepOf(xMin, xMax, samples);
    var points := KeepSamples(f, xMin, step, samples);
    extrema := ScanInterior(points);
  }

  /** The sampling loop of findExtrema: grid points 0 .. samples, keeping the
      defined values */
  method KeepSamples(f: real -> Option<real>, xMin: real, step: real, samples: nat) returns (points: seq<Point>)
    ensures points == KeptSamples(f, xMin, step, samples + 1)
  {
    points := [];
    var i := 0;
    while i <= samples
      invariant 0 <= i <= samples + 1
      invariant points == KeptSamples(f, xMin, step, i)
    {
      var x := GridX(xMin, step, i);
      var y := f(x);
      if y.Some? {
        points := points + [Point(x, y.value)];
      }
      i := i + 1;
    }
  }

  /** The comparison loop of findExtrema: each position but the first and the
      last against its kept neighbours */
  method ScanInterior(points: seq<Point>) returns (extrema: seq<Extremum>)
    ensures extrema == LocalExtrema(points)
  {
    extrema := [];
    var k := 1;
    while k < |points| - 1
      invariant 1 <= k
      invariant |points| >= 2 ==> k <= |points| - 1 && extrema == InteriorUpTo(points, k)
      invariant |points| < 2 ==> extrema == []
    {
      var prev, curr, next := points[k - 1], points[k], points[k + 1];
      if curr.y > prev.y && curr.y > next.y {
        extrema := extrema + [Extremum(curr.x, curr.y, Max)];
      } else if curr.y < prev.y && curr.y < next.y {
        extrema := extrema + [Extremum(curr.x, curr.y, Min)];
      }
      k := k + 1;
    }
  }

  /** Every extremum found among the first m positions comes from one interior
      position i < m. */
  lemma {:induction false} InteriorSource(pts: seq<Point>, m: nat, k: nat) returns (i: nat)
    requires m < |pts| && k < |InteriorUpTo(pts, m)|
    ensures 0 < i < m && |ClassifyAt(pts, i)| == 1 && InteriorUpTo(pts, m)[k] == ClassifyAt(pts, i)[0]
  {
    var prefix := InteriorUpTo(pts, m - 1);
    if k < |prefix| {
      i := InteriorSource(pts, m - 1, k);
    } else {
      i := m - 1;
    }
  }

  /** Each interior position's finding is among the extrema of any longer scan. */
  lemma {:induction false} InteriorContains(pts: seq<Point>, m: nat, i: nat)
    requires 0 < i < m < |pts|
    ensures |ClassifyAt(pts, i)| == 1 ==> ClassifyAt(pts, i)[0] in InteriorUpTo(pts, m)
  {
    if i < m - 1 {
      InteriorContains(pts, m - 1, i);
    }
  }

  /** A reported extremum is a kept sample strictly above both kept neighbours
      (kind Max) or strictly below both (kind Min); it is never the first or
      the last kept sample. */
  lemma LocalExtremumSource(pts: seq<Point>, k: nat) returns (i: nat)
    requires k < |LocalExtrema(pts)|
    ensures 0 < i < |pts| - 1
    ensures LocalExtrema(pts)[k].x == pts[i].x && LocalExtrema(pts)[k].y == pts[i].y
    ensures LocalExtrema(pts)[k].kind == Max <==> pts[i].y > pts[i - 1].y && pts[i].y > pts[i + 1].y
    ensures LocalExtrema(pts)[k].kind == Min <==> pts[i].y < pts[i - 1].y && pts[i].y < pts[i + 1].y
  {
    i := InteriorSource(pts, |pts| - 1, k);
  }

  /** Conversely, every kept sample strictly above (below) both kept neighbours
      is reported as a maximum (minimum). */
  lemma LocalExtremumComplete(pts: seq<Point>, i: nat)
    requires 0 < i < |pts| - 1
    ensures pts[i].y > pts[i - 1].y && pts[i].y > pts[i + 1].y ==> Extremum(pts[i].x, pts[i].y, Max) in LocalExtrema(pts)
    ensures pts[i].y < pts[i - 1].y && pts[i].y < pts[i + 1].y ==> Extremum(pts[i].x, pts[i].y, Min) in LocalExtrema(pts)
  {
    InteriorContains(pts, |pts| - 1, i);
  }

  /** With increasing samples the extrema are strictly increasing in x and lie
      before the sample at position m. */
  lemma {:induction false} InteriorIncreasing(pts: seq<Point>, m: nat)
    requires m < |pts| && Increasing(pts)
    ensures forall k :: 0 <= k < |InteriorUpTo(pts, m)| ==> InteriorUpTo(pts, m)[k].x < pts[m].x
    ensures forall j, k :: 0 <= j < k < |InteriorUpTo(pts, m)| ==> InteriorUpTo(pts, m)[j].x < InteriorUpTo(pts, m)[k].x
  {
    if m > 1 {
      InteriorIncreasing(pts, m - 1);
      var prefix, last := InteriorUpTo(pts, m - 1), ClassifyAt(pts, m - 1);
      var r := InteriorUpTo(pts, m);
      assert r == prefix + last;
      forall k | 0 <= k < |r|
        ensures r[k].x <= pts[m - 1].x
      {
        if k < |prefix| {
          assert r[k] == prefix[k];
        } else {
          assert r[k] == last[k - |prefix|];
        }
      }
    }
  }

  /** findExtrema's output is in increasing x whenever its input samples are. */
  lemma LocalExtremaIncreasing(pts: seq<Point>)
    requires Increasing(pts)
    ensures forall j, k :: 0 <= j < k < |LocalExtrema(pts)| ==> LocalExtrema(pts)[j].x < LocalExtrema(pts)[k].x
  {
    if |pts| > 0 {
      InteriorIncreasing(pts, |pts| - 1);
    }
  }

  /** At most one extremum per interior position */
  lemma {:induction false} InteriorCount(pts: seq<Point>, m: nat)
    requires m < |pts|
    ensures |InteriorUpTo(pts, m)| <= if m == 0 then 0 else m - 1
  {
    if m > 1 {
      InteriorCount(pts, m - 1);
    }
  }

  /** Fewer than three kept samples give no extremum; otherwise there are at
      most |pts| - 2. */
  lemma LocalExtremaCount(pts: seq<Point>)
    ensures |pts| < 3 ==> LocalExtrema(pts) == []
    ensures |LocalExtrema(pts)| <= if |pts| < 2 then 0 else |pts| - 2
  {
    if |pts| > 0 {
      InteriorCount(pts, |pts| - 1);
    }
  }

  /** A flat step between two neighbouring kept samples hides both of them:
      neither is reported. */
  lemma PlateauNeverReported(pts: seq<Point>, i: nat, k: nat)
    requires Increasing(pts) && i + 1 < |pts| && pts[i].y == pts[i + 1].y
    requires k < |LocalExtrema(pts)|
    ensures LocalExtrema(pts)[k].x != pts[i].x && LocalExtrema(pts)[k].x != pts[i + 1].x
  {
    var j := LocalExtremumSource(pts, k);
    if j < i {
      assert pts[j].x < pts[i].x < pts[i + 1].x;
    } else if j > i + 1 {
      assert pts[i].x < pts[i + 1].x < pts[j].x;
    }
  }

  /** The first and the last kept sample are never reported. */
  lemma EndpointsNeverReported(pts: seq<Point>, k: nat)
    requires Increasing(pts) && k < |LocalExtrema(pts)|
    ensures pts[0].x < LocalExtrema(pts)[k].x < pts[|pts| - 1].x
  {
    var i := LocalExtremumSource(pts, k);
  }

  /** Over a non-empty range, every extremum findExtrema reports is the value of
      f at an interior grid point xMin + g * step, 0 < g < samples. */
  lemma ExtremumOnGrid(f: real -> Option<real>, xMin: real, xMax: real, samples: nat, k: nat)
    requires xMin < xMax && samples > 0 && k < |ExtremaOf(f, xMin, xMax, samples)|
    ensures var e := ExtremaOf(f, xMin, xMax, samples)[k];
            f(e.x) == Some(e.y) &&
            exists g :: 0 < g < samples && e.x == GridX(xMin, StepOf(xMin, xMax, samples), g)
  {
    var step := StepOf(xMin, xMax, samples);
    GridEnds(xMin, xMax, samples);
    var pts := KeptSamples(f, xMin, step, samples + 1);
    KeptSamplesIncreasing(f, xMin, step, samples + 1);
    var i := LocalExtremumSource(pts, k);
    KeptSamplesExactly(f, xMin, step, samples + 1, pts[i]);
    var g :| 0 <= g < samples + 1 && pts[i].x == GridX(xMin, step, g) && f(pts[i].x) == Some(pts[i].y);
    assert xMin <= pts[0].x < pts[i].x < pts[|pts| - 1].x <= xMax;
    if g == 0 || g == samples {
      assert false;
    }
  }

  /** The extrema findExtrema reports over a non-empty range are strictly
      increasing in x. */
  lemma ExtremaOfIncreasing(f: real -> Option<real>, xMin: real, xMax: real, samples: nat)
    requires xMin < xMax
    ensures var r := ExtremaOf(f, xMin, xMax, samples);
            forall j, k :: 0 <= j < k < |r| ==> r[j].x < r[k].x
  {
    var step := StepOf(xMin, xMax, samples);
    if samples > 0 {
      GridEnds(xMin, xMax, samples);
      KeptSamplesIncreasing(f, xMin, step, samples + 1);
      LocalExtremaIncreasing(KeptSamples(f, xMin, step, samples + 1));
    } else {
      LocalExtremaCount(KeptSamples(f, xMin, step, 1));
    }
  }

  // ---------------------------------------------------------------------
  // Parabolic refinement (the map over the raw extrema in the extrema effect)

  /** The half-width h of the refinement window, 1e-2 */
  const H: real := 1.0 / 100.0

  /** A JavaScript number produced by a division: a finite value, or an
      infinity or NaN when the divisor is zero */
  datatype Num = Finite(value: real) | NotFinite

  function Divide(n: real, d: real): Num
  {
    if d == 0.0 then NotFinite else Finite(n / d)
  }

  /** The product tested before the division: (x0 - x1)(x0 - x2)(x1 - x2) */
  function GuardProduct(x0: real, x1: real, x2: real): real
  {
    (x0 - x1) * (x0 - x2) * (x1 - x2)
  }

  /** Numerator of the vertex abscissa of the parabola through three points */
  function VertexNumerator(x0: real, y0: real, x1: real, y1: real, x2: real, y2: real): real
  {
    y0 * (x1 * x1 - x2 * x2) + y1 * (x2 * x2 - x0 * x0) + y2 * (x0 * x0 - x1 * x1)
  }

  /** Divisor of the vertex abscissa of the parabola through three points */
  function VertexDivisor(x0: real, y0: real, x1: real, y1: real, x2: real, y2: real): real
  {
    2.0 * (y0 * (x1 - x2) + y1 * (x2 - x0) + y2 * (x0 - x1))
  }

  /** The three values of the window: f at x - h and x + h, each falling back
      to the raw y where f is undefined, and the raw y itself in the middle */
  datatype Window = Window(y0: real, y1: real, y2: real)

  function WindowOf(f: real -> Option<real>, ext: Extremum): Window
  {
    Window(OrElse(f(ext.x - H), ext.y), ext.y, OrElse(f(ext.x + H), ext.y))
  }

  function Numerator(ext: Extremum, w: Window): real
  {
    VertexNumerator(ext.x - H, w.y0, ext.x, w.y1, ext.x + H, w.y2)
  }

  function Divisor(ext: Extremum, w: Window): real
  {
    VertexDivisor(ext.x - H, w.y0, ext.x, w.y1, ext.x + H, w.y2)
  }

  /** A refined extremum as the source computes it: its x may come out of a
      division by zero. */
  datatype RefinedAsWritten = RefinedAsWritten(x: Num, y: real, kind: ExtremumKind)

  /** The refinement as written: the division is guarded by GuardProduct, not
      by its own divisor. Evaluating f at a non-finite x is taken to fail, so y
      falls back to the raw value there. */
  function RefineAsWritten(f: real -> Option<real>, ext: Extremum): (r: RefinedAsWritten)
    ensures r.kind == ext.kind
    ensures r.x == NotFinite <==> Divisor(ext, WindowOf(f, ext)) == 0.0
    ensures r.x.Finite? ==> r.y == OrElse(f(r.x.value), ext.y)
    ensures r.x == NotFinite ==> r.y == ext.y
  {
    GuardNeverZero(ext.x);
    var w := WindowOf(f, ext);
    var xV := if GuardProduct(ext.x - H, ext.x, ext.x + H) != 0.0 then Divide(Numerator(ext, w), Divisor(ext, w))
              else Finite(ext.x);
    RefinedAsWritten(xV, if xV.Finite? then OrElse(f(xV.value), ext.y) else ext.y, ext.kind)
  }

  /** The refinement with the division guarded by its own divisor: when the
      three window values are collinear the raw x is kept. */
  function Refine(f: real -> Option<real>, ext: Extremum): (r: Extremum)
    ensures r.kind == ext.kind
    ensures r.y == OrElse(f(r.x), ext.y)
  {
    var w := WindowOf(f, ext);
    var xV := if Divisor(ext, w) != 0.0 then Numerator(ext, w) / Divisor(ext, w) else ext.x;
    Extremum(xV, OrElse(f(xV), ext.y), ext.kind)
  }

  /** The guard of the source never fails: for the window x - h, x, x + h the
      product is -2h^3. */
  lemma GuardNeverZero(x: real)
    ensures GuardProduct(x - H, x, x + H) == -2.0 * H * H * H
    ensures GuardProduct(x - H, x, x + H) != 0.0
  {
  }

  /** The divisor is -2h(y0 - 2 y1 + y2): it vanishes exactly when the three
      window values are collinear. */
  lemma DivisorCollinear(ext: Extremum, w: Window)
    ensures Divisor(ext, w) == -2.0 * H * (w.y0 - 2.0 * w.y1 + w.y2)
    ensures Divisor(ext, w) == 0.0 <==> w.y0 - w.y1 == w.y1 - w.y2
  {
  }

  /** The numerator over the symmetric window */
  lemma NumeratorSymmetric(ext: Extremum, w: Window)
    ensures Numerator(ext, w) == -H * (2.0 * ext.x * (w.y0 - 2.0 * w.y1 + w.y2) + H * (w.y0 - w.y2))
  {
    var x := ext.x;
    assert (x - H) * (x - H) == x * x - 2.0 * H * x + H * H;
    assert (x + H) * (x + H) == x * x + 2.0 * H * x + H * H;
  }

  /** With a non-zero divisor the refined x is x + h(y0 - y2) / (2(y0 - 2 y1 + y2)). */
  lemma RefineOffset(f: real -> Option<real>, ext: Extremum)
    requires Divisor(ext, WindowOf(f, ext)) != 0.0
    ensures var w := WindowOf(f, ext);
            Refine(f, ext).x == ext.x + H * (w.y0 - w.y2) / (2.0 * (w.y0 - 2.0 * w.y1 + w.y2))
  {
    var w := WindowOf(f, ext);
    var c := w.y0 - 2.0 * w.y1 + w.y2;
    DivisorCollinear(ext, w);
    NumeratorSymmetric(ext, w);
    var n, d := Numerator(ext, w), Divisor(ext, w);
    assert n == -H * (2.0 * ext.x * c + H * (w.y0 - w.y2));
    assert d == -2.0 * H * c;
    assert c != 0.0;
    assert n / d == (2.0 * ext.x * c + H * (w.y0 - w.y2)) / (2.0 * c);
  }

  /** y = a t^2 + b t + c */
  function Quadratic(a: real, b: real, c: real, t: real): real
  {
    a * t * t + b * t + c
  }

  /** When f follows a parabola y = a t^2 + b t + c (a != 0) at the three
      window points, the refined x is its vertex -b / (2a). */
  lemma RefineFindsVertex(f: real -> Option<real>, ext: Extremum, a: real, b: real, c: real)
    requires a != 0.0
    requires ext.y == Quadratic(a, b, c, ext.x)
    requires f(ext.x - H) == Some(Quadratic(a, b, c, ext.x - H))
    requires f(ext.x + H) == Some(Quadratic(a, b, c, ext.x + H))
    ensures Refine(f, ext).x == -b / (2.0 * a)
  {
    var x := ext.x;
    var w := WindowOf(f, ext);
    assert w.y0 - 2.0 * w.y1 + w.y2 == 2.0 * a * H * H by {
      assert Quadratic(a, b, c, x - H) == a * x * x - 2.0 * a * H * x + a * H * H + b * x - b * H + c;
      assert Quadratic(a, b, c, x + H) == a * x * x + 2.0 * a * H * x + a * H * H + b * x + b * H + c;
    }
    assert w.y0 - w.y2 == -4.0 * a * H * x - 2.0 * b * H by {
      assert Quadratic(a, b, c, x - H) == a * x * x - 2.0 * a * H * x + a * H * H + b * x - b * H + c;
      assert Quadratic(a, b, c, x + H) == a * x * x + 2.0 * a * H * x + a * H * H + b * x + b * H + c;
    }
    DivisorCollinear(ext, w);
    RefineOffset(f, ext);
    var q := H * (w.y0 - w.y2) / (2.0 * (w.y0 - 2.0 * w.y1 + w.y2));
    assert q == (-4.0 * a * H * x - 2.0 * b * H) * H / (4.0 * a * H * H);
    assert q == -x - b / (2.0 * a);
  }

  /** When the middle window value is strictly above both others, or strictly
      below both, the refined x moves by less than h/2. */
  lemma RefineStaysNear(f: real -> Option<real>, ext: Extremum)
    requires var w := WindowOf(f, ext);
             (w.y1 > w.y0 && w.y1 > w.y2) || (w.y1 < w.y0 && w.y1 < w.y2)
    ensures ext.x - H / 2.0 < Refine(f, ext).x < ext.x + H / 2.0
  {
    var w := WindowOf(f, ext);
    var u, v := w.y0 - w.y1, w.y2 - w.y1;
    assert w.y0 - 2.0 * w.y1 + w.y2 == u + v;
    assert w.y0 - w.y2 == u - v;
    DivisorCollinear(ext, w);
    RefineOffset(f, ext);
    OffsetBound(u - v, u + v);
  }

  /** |n| < |s| bounds h n / (2 s) strictly by h/2. */
  lemma OffsetBound(n: real, s: real)
    requires (-s < n < s) || (s < n < -s)
    ensures -H / 2.0 < H * n / (2.0 * s) < H / 2.0
  {
    var q := H * n / (2.0 * s);
    assert q * (2.0 * s) == H * n;
    if s > 0.0 {
      assert q * (2.0 * s) < H / 2.0 * (2.0 * s) && -H / 2.0 * (2.0 * s) < q * (2.0 * s);
      MulLess(q, H / 2.0, 2.0 * s);
      MulLess(-H / 2.0, q, 2.0 * s);
    } else {
      assert q * (-2.0 * s) < H / 2.0 * (-2.0 * s) && -H / 2.0 * (-2.0 * s) < q * (-2.0 * s);
      MulLess(q, H / 2.0, -2.0 * s);
      MulLess(-H / 2.0, q, -2.0 * s);
    }
  }

  lemma MulLess(a: real, b: real, c: real)
    requires c > 0.0 && a * c < b * c
    ensures a < b
  {
  }

  /** Where the divisor is non-zero the source computes the corrected value. */
  lemma RefineAsWrittenAgrees(f: real -> Option<real>, ext: Extremum)
    requires Divisor(ext, WindowOf(f, ext)) != 0.0
    ensures RefineAsWritten(f, ext) == RefinedAsWritten(Finite(Refine(f, ext).x), Refine(f, ext).y, ext.kind)
  {
    GuardNeverZero(ext.x);
  }

  /** Where the three window values are collinear the source divides by zero
      and its refined x is not a finite number. */
  lemma RefineAsWrittenCollinear(f: real -> Option<real>, ext: Extremum)
    requires var w := WindowOf(f, ext); w.y0 - w.y1 == w.y1 - w.y2
    ensures RefineAsWritten(f, ext).x == NotFinite
    ensures Refine(f, ext).x == ext.x
  {
    GuardNeverZero(ext.x);
    DivisorCollinear(ext, WindowOf(f, ext));
  }

  /** rawExtrema.map(refine) */
  function RefineAll(f: real -> Option<real>, exts: seq<Extremum>): seq<Extremum>
  {
    if |exts| == 0 then [] else RefineAll(f, exts[..|exts| - 1]) + [Refine(f, exts[|exts| - 1])]
  }

  /** Refinement keeps the number of extrema, their order and each one's kind. */
  lemma {:induction false} RefineAllPointwise(f: real -> Option<real>, exts: seq<Extremum>)
    ensures |RefineAll(f, exts)| == |exts|
    ensures forall k :: 0 <= k < |exts| ==> RefineAll(f, exts)[k] == Refine(f, exts[k])
    ensures forall k :: 0 <= k < |exts| ==> RefineAll(f, exts)[k].kind == exts[k].kind
  {
    if |exts| > 0 {
      RefineAllPointwise(f, exts[..|exts| - 1]);
    }
  }

  /** The extrema the effect computes for an expression: findExtrema over the
      fixed range [-20, 20] with 1000 sub-intervals, then refined */
  function EffectExtrema(f: real -> Option<real>): (r: seq<Extremum>)
    ensures var raw := ExtremaOf(f, -20.0, 20.0, 1000);
            && |r| == |raw|
            && forall k :: 0 <= k < |raw| ==> r[k].kind == raw[k].kind && r[k].y == OrElse(f(r[k].x), raw[k].y)
  {
    var raw := ExtremaOf(f, -20.0, 20.0, 1000);
    RefineAllPointwise(f, raw);
    RefineAll(f, raw)
  }

  /** The corrected refinement agrees with the source's map element by
      element, except on windows where the source's divisor is zero: there
      the source's x is not finite (and its y falls back to the raw y), while
      the corrected refinement keeps the raw x. */
  lemma RefineAllAsWritten(f: real -> Option<real>, exts: seq<Extremum>, k: nat)
    requires k < |exts|
    ensures |RefineAll(f, exts)| == |exts|
    ensures var e, r := exts[k], RefineAll(f, exts)[k];
            if Divisor(e, WindowOf(f, e)) != 0.0 then
              RefineAsWritten(f, e) == RefinedAsWritten(Finite(r.x), r.y, r.kind)
            else
              && RefineAsWritten(f, e) == RefinedAsWritten(NotFinite, e.y, e.kind)
              && r == Extremum(e.x, OrElse(f(e.x), e.y), e.kind)
  {
    RefineAllPointwise(f, exts);
    var e := exts[k];
    if Divisor(e, WindowOf(f, e)) != 0.0 {
      RefineAsWrittenAgrees(f, e);
    } else {
      DivisorCollinear(e, WindowOf(f, e));
      RefineAsWrittenCollinear(f, e);
    }
  }

  /** With f defined everywhere every grid point is kept. */
  lemma {:induction false} KeptSamplesTotal(f: real -> Option<real>, origin: real, step: real, n: nat, i: nat)
    requires forall x :: f(x).Some?
    requires i < n
    ensures |KeptSamples(f, origin, step, n)| == n
    ensures KeptSamples(f, origin, step, n)[i] == Point(GridX(origin, step, i), f(GridX(origin, step, i)).value)
  {
    if i < n - 1 {
      KeptSamplesTotal(f, origin, step, n - 1, i);
    } else if n > 1 {
      KeptSamplesTotal(f, origin, step, n - 1, 0);
    }
  }

  /** The curve y = -|x - 1/100|: its kink lies between the grid points 0 and
      0.04 of the effect's scan, and on the window [-0.01, 0.01] it is a
      straight line. */
  function Kink(x: real): Option<real>
  {
    Some(-Abs(x - H))
  }

  /** The effect's grid has step 1/25 and puts its 500th point at x = 0, where
      y = -|x - 1/100| is above both neighbours. */
  lemma KinkSamples(step: real) returns (pts: seq<Point>)
    requires step == StepOf(-20.0, 20.0, 1000)
    ensures pts == KeptSamples(Kink, -20.0, step, 1001) && 500 < |pts| - 1
    ensures pts[500] == Point(0.0, -H)
    ensures pts[500].y > pts[499].y && pts[500].y > pts[501].y
  {
    assert step == 4.0 / 100.0;
    pts := KeptSamples(Kink, -20.0, step, 1001);
    KeptSamplesTotal(Kink, -20.0, step, 1001, 499);
    KeptSamplesTotal(Kink, -20.0, step, 1001, 500);
    KeptSamplesTotal(Kink, -20.0, step, 1001, 501);
    assert GridX(-20.0, step, 500) == 0.0;
    assert pts[499].y == -5.0 / 100.0;
    assert pts[501].y == -3.0 / 100.0;
  }

  /** For y = -|x - 1/100| the effect's scan reports a maximum at x = 0, whose
      window values -0.02, -0.01, 0 are collinear: the source divides by zero
      there, while the corrected refinement keeps x = 0. */
  lemma KinkDividesByZero()
    ensures Extremum(0.0, -H, Max) in ExtremaOf(Kink, -20.0, 20.0, 1000)
    ensures RefineAsWritten(Kink, Extremum(0.0, -H, Max)).x == NotFinite
    ensures Refine(Kink, Extremum(0.0, -H, Max)).x == 0.0
  {
    var pts := KinkSamples(StepOf(-20.0, 20.0, 1000));
    LocalExtremumComplete(pts, 500);
    RefineAsWrittenCollinear(Kink, Extremum(0.0, -H, Max));
  }
}
