/** The state and event handlers of the graph component in
    src/components/Graph.tsx: the curve polyline, the intersection markers
    recorded while drawing, the extrema cache of the selection effect, the
    pointer handlers and the click resolution. */
module GraphView {
  import opened Types
  import opened Sampling
  import Viewport
  import Extrema
  import Intersections
  import HitTest
  import GraphSlice

  /** The curve loop steps by one pixel column of data: xRange / 800. */
  function PixelStep(b: GraphBounds): real
  {
    (b.xMax - b.xMin) / HitTest.Width
  }

  /** The curve loop visits x = xMin + k * xRange / 800 for k = 0 .. 800. */
  const CurveSteps: nat := 801

  /** On well-formed bounds grid point k of the curve loop is within the
      bounds exactly for k = 0 .. 800, so the loop runs 801 times. */
  lemma CurveGridInRange(b: GraphBounds, k: nat)
    requires Viewport.WellFormed(b)
    ensures GridX(b.xMin, PixelStep(b), k) <= b.xMax <==> k < CurveSteps
  {
    var step := PixelStep(b);
    assert GridX(b.xMin, step, CurveSteps - 1) == b.xMax;
    if k < CurveSteps - 1 {
      GridMonotone(b.xMin, step, k, CurveSteps - 1);
    } else if k > CurveSteps - 1 {
      GridMonotone(b.xMin, step, CurveSteps - 1, k);
    }
  }

  /** The defined samples of an expression along the curve loop */
  function CurveSamples(ev: Evaluator, expression: string, b: GraphBounds): seq<Point>
  {
    KeptSamples(Adapter(ev, expression), b.xMin, PixelStep(b), CurveSteps)
  }

  function ScreenPoint(b: GraphBounds, p: Point): Point
    requires Viewport.WellFormed(b)
  {
    Point(Viewport.ToScreenX(b, HitTest.Width, p.x), Viewport.ToScreenY(b, HitTest.Height, p.y))
  }

  function ScreenPath(b: GraphBounds, pts: seq<Point>): seq<Point>
    requires Viewport.WellFormed(b)
  {
    seq(|pts|, k requires 0 <= k < |pts| => ScreenPoint(b, pts[k]))
  }

  /** The sampling loop of the curve: x from xMin in steps of xRange / 800
      while x <= xMax, keeping the finite values. */
  method CollectCurveSamples(ev: Evaluator, expression: string, b: GraphBounds) returns (points: seq<Point>)
    requires Viewport.WellFormed(b)
    ensures points == CurveSamples(ev, expression, b)
  {
    var step := PixelStep(b);
    points := [];
    var x := b.xMin;
    var k: nat := 0;
    while x <= b.xMax
      invariant k <= CurveSteps
      invariant x == GridX(b.xMin, step, k)
      invariant points == KeptSamples(Adapter(ev, expression), b.xMin, step, k)
      decreases CurveSteps - k
    {
      CurveGridInRange(b, k);
      match ev(expression, x) {
        case Value(y) =>
          points := points + [Point(x, y)];
        case NonNumber =>
        case Throws =>
      }
      GridNext(b.xMin, step, k);
      x := x + step;
      k := k + 1;
    }
    CurveGridInRange(b, k);
  }

  /** The curve of one equation: the defined samples are collected, then
      joined by a single path (moveTo the first, lineTo each following). */
  method CurvePath(ev: Evaluator, expression: string, b: GraphBounds) returns (path: seq<Point>)
    requires Viewport.WellFormed(b)
    ensures path == ScreenPath(b, CurveSamples(ev, expression, b))
  {
    var points := CollectCurveSamples(ev, expression, b);
    path := [];
    for i := 0 to |points|
      invariant path == ScreenPath(b, points[..i])
    {
      path := path + [ScreenPoint(b, points[i])];
    }
    assert points[..|points|] == points;
  }

  /** The paths of the visible equations, in list order */
  function Curves(ev: Evaluator, equations: seq<Equation>, b: GraphBounds): (r: seq<seq<Point>>)
    requires Viewport.WellFormed(b)
  {
    var vis := Intersections.Visible(equations);
    seq(|vis|, k requires 0 <= k < |vis| => ScreenPath(b, CurveSamples(ev, vis[k].expression, b)))
  }

  /** The drawing loop over the equations, skipping hidden ones */
  method CurvePaths(ev: Evaluator, equations: seq<Equation>, b: GraphBounds) returns (paths: seq<seq<Point>>)
    requires Viewport.WellFormed(b)
    ensures paths == Curves(ev, equations, b)
  {
    paths := [];
    for k := 0 to |equations|
      invariant paths == Curves(ev, equations[..k], b)
    {
      assert equations[..k + 1][..k] == equations[..k];
      if !equations[k].visible {
        continue;
      }
      var path := CurvePath(ev, equations[k].expression, b);
      paths := paths + [path];
    }
    assert equations[..|equations|] == equations;
  }

  /** The path runs left to right through at most 801 defined samples, each
      drawn where the screen transform puts (x, f(x)) for a grid x within the
      bounds; two defined samples with only undefined grid points between
      them are joined by one segment (the path has no breaks). */
  lemma CurvePathSpec(ev: Evaluator, expression: string, b: GraphBounds)
    requires Viewport.WellFormed(b)
    ensures var path := ScreenPath(b, CurveSamples(ev, expression, b));
            && |path| <= CurveSteps
            && (forall j, k :: 0 <= j < k < |path| ==> path[j].x < path[k].x)
            && (forall k :: 0 <= k < |path| ==>
                  var x := Viewport.ToDataX(b, HitTest.Width, path[k].x);
                  && b.xMin <= x <= b.xMax
                  && Defined(ev, expression, x).Some?
                  && path[k] == ScreenPoint(b, Point(x, Defined(ev, expression, x).value)))
  {
    var step := PixelStep(b);
    var pts := CurveSamples(ev, expression, b);
    var path := ScreenPath(b, pts);
    KeptSamplesIncreasing(Adapter(ev, expression), b.xMin, step, CurveSteps);
    CurveGridInRange(b, CurveSteps - 1);
    forall j, k | 0 <= j < k < |path|
      ensures path[j].x < path[k].x
    {
      Viewport.ScreenXIncreasing(b, HitTest.Width, pts[j].x, pts[k].x);
    }
    forall k | 0 <= k < |path|
      ensures Viewport.ToDataX(b, HitTest.Width, path[k].x) == pts[k].x
    {
      Viewport.ScreenRoundTrip(b, HitTest.Width, HitTest.Height, pts[k].x, pts[k].y);
    }
  }

  /** Two defined grid samples with only undefined ones between them are
      consecutive points of the path. */
  lemma CurveBridgesGaps(ev: Evaluator, expression: string, b: GraphBounds, i: nat, j: nat) returns (k: nat)
    requires Viewport.WellFormed(b) && i < j < CurveSteps
    requires Defined(ev, expression, GridX(b.xMin, PixelStep(b), i)).Some?
    requires Defined(ev, expression, GridX(b.xMin, PixelStep(b), j)).Some?
    requires forall g :: i < g < j ==> Defined(ev, expression, GridX(b.xMin, PixelStep(b), g)).None?
    ensures var path := ScreenPath(b, CurveSamples(ev, expression, b));
            && k + 1 < |path|
            && path[k] == ScreenPoint(b, Point(GridX(b.xMin, PixelStep(b), i), Defined(ev, expression, GridX(b.xMin, PixelStep(b), i)).value))
            && path[k + 1] == ScreenPoint(b, Point(GridX(b.xMin, PixelStep(b), j), Defined(ev, expression, GridX(b.xMin, PixelStep(b), j)).value))
  {
    k := KeptSamplesBridge(Adapter(ev, expression), b.xMin, PixelStep(b), CurveSteps, i, j);
  }

  /** The extrema cache key: the equation id, a colon, the expression */
  function CacheKey(id: string, expression: string): string
  {
    id + ":" + expression
  }

  /** Ids without a colon (the app makes ids from Date.now()) */
  predicate PlainId(id: string)
  {
    ':' !in id
  }

  /** For ids without a colon the key determines the id and the expression. */
  lemma CacheKeyInjective(id1: string, expression1: string, id2: string, expression2: string)
    requires PlainId(id1) && PlainId(id2)
    requires CacheKey(id1, expression1) == CacheKey(id2, expression2)
    ensures id1 == id2 && expression1 == expression2
  {
    var key := CacheKey(id1, expression1);
    assert key[|id1|] == ':' && key[|id2|] == ':';
    assert forall i :: 0 <= i < |id1| ==> key[i] == id1[i] != ':';
    assert forall i :: 0 <= i < |id2| ==> key[i] == id2[i] != ':';
    assert |id1| == |id2|;
    assert id1 == key[..|id1|] == id2;
    assert expression1 == key[|id1| + 1..] == expression2;
  }

  /** With a colon in an id two different equations share a key. */
  lemma CacheKeyCollision()
    ensures CacheKey("a:b", "c") == CacheKey("a", "b:c")
  {
  }

  /** Every cached list under the key of a colon-free id and an expression
      is the refined extrema of that expression. */
  ghost predicate SoundCache(cache: map<string, seq<Extremum>>, ev: Evaluator)
  {
    forall id, expression {:trigger CacheKey(id, expression)} ::
      PlainId(id) && CacheKey(id, expression) in cache ==>
        cache[CacheKey(id, expression)] == Extrema.EffectExtrema(Adapter(ev, expression))
  }

  /** What the extrema effect works on: the cache and the shown extrema */
  datatype EffectState = EffectState(cache: map<string, seq<Extremum>>, extrema: seq<Extremum>)

  /** The extrema effect: nothing without a selected equation in the list;
      otherwise the list cached under its key, or, on a miss, its refined
      extrema over [-20, 20] with 1000 samples, stored under the key.
      Entries are never removed or overwritten, and at most the selected
      equation's key is added. */
  function Effect(ev: Evaluator, equations: seq<Equation>, selected: Option<string>, st: EffectState): (r: EffectState)
    ensures forall key :: key in st.cache ==> key in r.cache && r.cache[key] == st.cache[key]
    ensures forall key :: key in r.cache && key !in st.cache ==>
              IsSet(selected) && exists e :: e in equations && e.id == selected.value && key == CacheKey(e.id, e.expression)
  {
    if !IsSet(selected) then st
    else match Find(equations, HasId(selected.value))
      case None => st
      case Some(i) =>
        assert equations[i] in equations && HasId(selected.value)(equations[i]);
        var key := CacheKey(equations[i].id, equations[i].expression);
        if key in st.cache then st.(extrema := st.cache[key])
        else
          var refined := Extrema.EffectExtrema(Adapter(ev, equations[i].expression));
          EffectState(st.cache[key := refined], refined)
  }

  /** A hit changes no entry and shows the stored list. */
  lemma EffectHit(ev: Evaluator, equations: seq<Equation>, selected: Option<string>, st: EffectState, i: nat)
    requires IsSet(selected) && i < |equations| && equations[i].id == selected.value
    requires forall k :: 0 <= k < i ==> equations[k].id != selected.value
    requires CacheKey(equations[i].id, equations[i].expression) in st.cache
    ensures Effect(ev, equations, selected, st) == EffectState(st.cache, st.cache[CacheKey(equations[i].id, equations[i].expression)])
  {
    FindFirst(equations, HasId(selected.value), i);
  }

  /** Running the effect again without a change is a cache hit that changes
      nothing. */
  lemma EffectIdempotent(ev: Evaluator, equations: seq<Equation>, selected: Option<string>, st: EffectState)
    ensures Effect(ev, equations, selected, Effect(ev, equations, selected, st)) == Effect(ev, equations, selected, st)
  {
  }

  /** Storing the refined extrema of an expression under its key, for a
      colon-free id, keeps the cache sound. */
  lemma SoundInsert(cache: map<string, seq<Extremum>>, ev: Evaluator, id: string, expression: string)
    requires SoundCache(cache, ev) && PlainId(id)
    ensures SoundCache(cache[CacheKey(id, expression) := Extrema.EffectExtrema(Adapter(ev, expression))], ev)
  {
    var key := CacheKey(id, expression);
    var updated := cache[key := Extrema.EffectExtrema(Adapter(ev, expression))];
    forall id', expression' | PlainId(id') && CacheKey(id', expression') in updated
      ensures updated[CacheKey(id', expression')] == Extrema.EffectExtrema(Adapter(ev, expression'))
    {
      if CacheKey(id', expression') == key {
        CacheKeyInjective(id', expression', id, expression);
      }
    }
  }

  /** With colon-free ids the cache stays sound, so whether the key hits or
      misses, the effect shows the refined extrema of the selected
      equation's current expression. */
  lemma EffectSound(ev: Evaluator, equations: seq<Equation>, selected: Option<string>, st: EffectState)
    requires SoundCache(st.cache, ev) && (IsSet(selected) ==> PlainId(selected.value))
    ensures SoundCache(Effect(ev, equations, selected, st).cache, ev)
    ensures IsSet(selected) && Find(equations, HasId(selected.value)).Some? ==>
              Effect(ev, equations, selected, st).extrema ==
                Extrema.EffectExtrema(Adapter(ev, equations[Find(equations, HasId(selected.value)).value].expression))
  {
    if IsSet(selected) && Find(equations, HasId(selected.value)).Some? {
      var eq := equations[Find(equations, HasId(selected.value)).value];
      assert eq.id == selected.value;
      if CacheKey(eq.id, eq.expression) !in st.cache {
        SoundInsert(st.cache, ev, eq.id, eq.expression);
      }
    }
  }

  /** The body of the extrema effect on the cache and the shown extrema */
  method RunEffect(ev: Evaluator, equations: seq<Equation>, selected: Option<string>, st: EffectState)
    returns (r: EffectState)
    ensures r == Effect(ev, equations, selected, st)
  {
    if !IsSet(selected) {
      return st;
    }
    var index := Find(equations, HasId(selected.value));
    if index.None? {
      return st;
    }
    var eq := equations[index.value];
    var key := CacheKey(eq.id, eq.expression);
    if key in st.cache {
      return st.(extrema := st.cache[key]);
    }
    var f := Adapter(ev, eq.expression);
    var raw := Extrema.FindExtrema(f, -20.0, 20.0, 1000);
    var refined := Extrema.RefineAll(f, raw);
    r := EffectState(st.cache[key := refined], refined);
  }

  /** The four things a click can land on, in priority order */
  datatype ClickTarget = OnExtremum(k: nat) | OnIntersection(k: nat) | OnCurve(hit: HitTest.CurveHit) | Elsewhere

  /** Click resolution: an extremum dot (only while an equation is selected
      and extrema are shown), then an intersection dot (only while markers
      are shown), then a visible curve, else nothing. Each dot test takes the
      first dot in list order. */
  function ResolveClick(selected: Option<string>, extrema: seq<Extremum>, markers: seq<Marker>, showIntersections: bool,
                        ev: Evaluator, equations: seq<Equation>, b: GraphBounds, mouseX: real, mouseY: real): (t: ClickTarget)
    requires Viewport.WellFormed(b)
    ensures t.OnExtremum? ==> t.k < |extrema|
    ensures t.OnIntersection? ==> t.k < |markers|
    ensures t.OnCurve? ==> t.hit.index < |equations|
  {
    var e := if IsSet(selected) && |extrema| > 0 then Find(extrema, HitTest.ExtremumHit(b, mouseX, mouseY)) else None;
    if e.Some? then OnExtremum(e.value)
    else
      var m := if showIntersections then Find(markers, HitTest.IntersectionHit(mouseX, mouseY)) else None;
      if m.Some? then OnIntersection(m.value)
      else match HitTest.CurveHitOf(ev, equations, b, mouseX, mouseY)
        case Some(h) => OnCurve(h)
        case None => Elsewhere
  }

  /** The selection part of the component state */
  datatype Selection = Selection(equationId: Option<string>, extrema: seq<Extremum>,
                                 extremum: Option<Extremum>, intersection: Option<Marker>)

  /** The selection after a click on a target: an extremum dot selects it
      and nothing else; an intersection dot selects it and clears the
      selected extremum; a curve selects its equation, shows its raw extrema
      over the current bounds with 400 samples and clears both dots; a click
      elsewhere clears everything. */
  function ClickSelection(t: ClickTarget, s: Selection, markers: seq<Marker>,
                          ev: Evaluator, equations: seq<Equation>, b: GraphBounds): Selection
    requires t.OnExtremum? ==> t.k < |s.extrema|
    requires t.OnIntersection? ==> t.k < |markers|
    requires t.OnCurve? ==> t.hit.index < |equations|
  {
    match t
    case OnExtremum(k) => s.(extremum := Some(s.extrema[k]))
    case OnIntersection(k) => s.(intersection := Some(markers[k]), extremum := None)
    case OnCurve(hit) =>
      var eq := equations[hit.index];
      Selection(Some(eq.id), Extrema.ExtremaOf(Adapter(ev, eq.expression), b.xMin, b.xMax, 400), None, None)
    case Elsewhere => Selection(None, [], None, None)
  }

  /** The priority order of a click: an extremum dot wins whenever one is
      hit while an equation is selected, and then the first hit one is taken;
      an intersection dot wins when no extremum dot is hit and markers are
      shown; a curve only when neither dot is hit; nothing only when nothing
      is hit. */
  lemma ResolveClickPriority(selected: Option<string>, extrema: seq<Extremum>, markers: seq<Marker>, showIntersections: bool,
                             ev: Evaluator, equations: seq<Equation>, b: GraphBounds, mouseX: real, mouseY: real)
    requires Viewport.WellFormed(b)
    ensures var t := ResolveClick(selected, extrema, markers, showIntersections, ev, equations, b, mouseX, mouseY);
            && (t.OnExtremum? <==> IsSet(selected) && exists j :: 0 <= j < |extrema| && HitTest.NearExtremum(b, mouseX, mouseY, extrema[j]))
            && (t.OnExtremum? ==> HitTest.NearExtremum(b, mouseX, mouseY, extrema[t.k]) &&
                                  forall j :: 0 <= j < t.k ==> !HitTest.NearExtremum(b, mouseX, mouseY, extrema[j]))
            && (t.OnIntersection? <==> !t.OnExtremum? && showIntersections &&
                                       exists j :: 0 <= j < |markers| && HitTest.NearIntersection(mouseX, mouseY, markers[j]))
            && (t.OnIntersection? ==> HitTest.NearIntersection(mouseX, mouseY, markers[t.k]) &&
                                      forall j :: 0 <= j < t.k ==> !HitTest.NearIntersection(mouseX, mouseY, markers[j]))
            && (t.OnCurve? <==> !t.OnExtremum? && !t.OnIntersection? && HitTest.CurveHitOf(ev, equations, b, mouseX, mouseY).Some?)
            && (t.OnCurve? ==> HitTest.CurveHitOf(ev, equations, b, mouseX, mouseY) == Some(t.hit))
  {
  }

  /** The hit tests of the click in priority order, stopping at the first
      that hits */
  method FindClickTarget(selected: Option<string>, extrema: seq<Extremum>, markers: seq<Marker>, showIntersections: bool,
                         ev: Evaluator, equations: seq<Equation>, b: GraphBounds, mouseX: real, mouseY: real)
    returns (t: ClickTarget)
    requires Viewport.WellFormed(b)
    ensures t == ResolveClick(selected, extrema, markers, showIntersections, ev, equations, b, mouseX, mouseY)
  {
    if IsSet(selected) && |extrema| > 0 {
      var hit := Find(extrema, HitTest.ExtremumHit(b, mouseX, mouseY));
      if hit.Some? {
        return OnExtremum(hit.value);
      }
    }
    if showIntersections {
      var hit := Find(markers, HitTest.IntersectionHit(mouseX, mouseY));
      if hit.Some? {
        return OnIntersection(hit.value);
      }
    }
    var curve := HitTest.FindCurveHit(ev, equations, b, mouseX, mouseY);
    t := if curve.Some? then OnCurve(curve.value) else Elsewhere;
  }

  /** The component state that outlives a render */
  class GraphView {
    var isDragging: bool
    var lastMousePos: Point
    var selectedIntersection: Option<Marker>
    /** intersectionsRef: the markers recorded by the last draw */
    var intersections: seq<Marker>
    var selectedEquationId: Option<string>
    var extremaCache: map<string, seq<Extremum>>
    var extrema: seq<Extremum>
    var selectedExtremum: Option<Extremum>

    constructor ()
      ensures !isDragging && lastMousePos == Point(0.0, 0.0)
      ensures selectedIntersection == None && intersections == []
      ensures selectedEquationId == None && extremaCache == map[] && extrema == [] && selectedExtremum == None
    {
      isDragging := false;
      lastMousePos := Point(0.0, 0.0);
      selectedIntersection := None;
      intersections := [];
      selectedEquationId := None;
      extremaCache := map[];
      extrema := [];
      selectedExtremum := None;
    }

    /** The extrema effect, run when the selection or the equations
        change */
    method RefreshExtrema(ev: Evaluator, equations: seq<Equation>)
      modifies this
      ensures EffectState(extremaCache, extrema) ==
                Effect(ev, equations, old(selectedEquationId), EffectState(old(extremaCache), old(extrema)))
      ensures isDragging == old(isDragging) && lastMousePos == old(lastMousePos)
      ensures selectedIntersection == old(selectedIntersection) && intersections == old(intersections)
      ensures selectedEquationId == old(selectedEquationId) && selectedExtremum == old(selectedExtremum)
    {
      var r := RunEffect(ev, equations, selectedEquationId, EffectState(extremaCache, extrema));
      extremaCache, extrema := r.cache, r.extrema;
    }

    /** handleMouseDown: start dragging from the pointer, clear both
        selections. */
    method MouseDown(clientX: real, clientY: real)
      modifies this
      ensures isDragging && lastMousePos == Point(clientX, clientY)
      ensures selectedIntersection == None && selectedExtremum == None
      ensures intersections == old(intersections) && selectedEquationId == old(selectedEquationId)
      ensures extremaCache == old(extremaCache) && extrema == old(extrema)
    {
      isDragging := true;
      lastMousePos := Point(clientX, clientY);
      selectedIntersection := None;
      selectedExtremum := None;
    }

    /** handleMouseMove: while dragging, shift the store's bounds by the
        pointer's movement since the last event and remember the pointer;
        otherwise do nothing. */
    method MouseMove(store: GraphSlice.GraphStore, clientX: real, clientY: real)
      modifies this, store
      ensures !old(isDragging) ==> store.bounds == old(store.bounds) && lastMousePos == old(lastMousePos)
      ensures old(isDragging) ==>
                store.bounds == Viewport.DragBounds(old(store.bounds), HitTest.Width, HitTest.Height,
                                                    clientX - old(lastMousePos).x, clientY - old(lastMousePos).y) &&
                lastMousePos == Point(clientX, clientY)
      ensures store.equations == old(store.equations) && store.zoom == old(store.zoom) && store.pan == old(store.pan)
      ensures isDragging == old(isDragging) && selectedIntersection == old(selectedIntersection)
      ensures intersections == old(intersections) && selectedEquationId == old(selectedEquationId)
      ensures extremaCache == old(extremaCache) && extrema == old(extrema) && selectedExtremum == old(selectedExtremum)
    {
      if !isDragging {
        return;
      }
      var dx := clientX - lastMousePos.x;
      var dy := clientY - lastMousePos.y;
      store.SetBounds(Viewport.DragBounds(store.bounds, HitTest.Width, HitTest.Height, dx, dy));
      lastMousePos := Point(clientX, clientY);
    }

    /** handleMouseUp, also bound to mouse-leave: stop dragging. */
    method MouseUp()
      modifies this
      ensures !isDragging && lastMousePos == old(lastMousePos)
      ensures selectedIntersection == old(selectedIntersection) && intersections == old(intersections)
      ensures selectedEquationId == old(selectedEquationId) && extremaCache == old(extremaCache)
      ensures extrema == old(extrema) && selectedExtremum == old(selectedExtremum)
    {
      isDragging := false;
    }

    /** handleWheel: zoom the store's bounds around the pointer, given in
        canvas coordinates. Nothing of the component state changes. */
    method Wheel(store: GraphSlice.GraphStore, mouseX: real, mouseY: real, deltaY: real)
      modifies store
      ensures store.bounds == Viewport.ZoomBounds(old(store.bounds), HitTest.Width, HitTest.Height, mouseX, mouseY, deltaY)
      ensures store.equations == old(store.equations) && store.zoom == old(store.zoom) && store.pan == old(store.pan)
    {
      store.SetBounds(Viewport.ZoomBounds(store.bounds, HitTest.Width, HitTest.Height, mouseX, mouseY, deltaY));
    }

    /** handleClick at canvas position (mouseX, mouseY) */
    method Click(ev: Evaluator, equations: seq<Equation>, b: GraphBounds, showIntersections: bool, mouseX: real, mouseY: real)
      requires Viewport.WellFormed(b)
      modifies this
      ensures Selection(selectedEquationId, extrema, selectedExtremum, selectedIntersection) ==
                ClickSelection(ResolveClick(old(selectedEquationId), old(extrema), old(intersections), showIntersections,
                                            ev, equations, b, mouseX, mouseY),
                               Selection(old(selectedEquationId), old(extrema), old(selectedExtremum), old(selectedIntersection)),
                               old(intersections), ev, equations, b)
      ensures isDragging == old(isDragging) && lastMousePos == old(lastMousePos)
      ensures intersections == old(intersections) && extremaCache == old(extremaCache)
    {
      var target := FindClickTarget(selectedEquationId, extrema, intersections, showIntersections,
                                    ev, equations, b, mouseX, mouseY);
      var s := Selection(selectedEquationId, extrema, selectedExtremum, selectedIntersection);
      match target {
        case OnExtremum(k) =>
          s := s.(extremum := Some(extrema[k]));
        case OnIntersection(k) =>
          s := s.(intersection := Some(intersections[k]), extremum := None);
        case OnCurve(hit) =>
          var eq := equations[hit.index];
          var found := Extrema.FindExtrema(Adapter(ev, eq.expression), b.xMin, b.xMax, 400);
          s := Selection(Some(eq.id), found, None, None);
        case Elsewhere =>
          s := Selection(None, [], None, None);
      }
      selectedEquationId, extrema, selectedExtremum, selectedIntersection := s.equationId, s.extrema, s.extremum, s.intersection;
    }

    /** The drawing pass: one path per visible equation, in list order, and
        the intersection markers of every pair of visible equations when they
        are shown (none otherwise). */
    method Draw(ev: Evaluator, equations: seq<Equation>, b: GraphBounds, showIntersections: bool)
      returns (paths: seq<seq<Point>>)
      requires Viewport.WellFormed(b)
      modifies this
      ensures paths == Curves(ev, equations, b)
      ensures intersections ==
                if showIntersections then
                  Intersections.MarkersOfPairs(
                    Intersections.PairMarkers(ev, Intersections.Visible(equations), b, HitTest.Width, HitTest.Height),
                    Intersections.Pairs(|Intersections.Visible(equations)|))
                else []
      ensures isDragging == old(isDragging) && lastMousePos == old(lastMousePos)
      ensures selectedIntersection == old(selectedIntersection) && selectedEquationId == old(selectedEquationId)
      ensures extremaCache == old(extremaCache) && extrema == old(extrema) && selectedExtremum == old(selectedExtremum)
    {
      paths := CurvePaths(ev, equations, b);
      intersections := [];
      if showIntersections {
        intersections := Intersections.AllIntersectionMarkers(ev, equations, b, HitTest.Width, HitTest.Height);
      }
    }
  }
}
