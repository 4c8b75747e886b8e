/** The hit tests of the click handler in src/components/Graph.tsx: the
    extremum dots, the intersection dots and the scan of the visible curves
    along the canvas columns. */
module HitTest {
  import opened Types
  import Viewport

  /** The canvas is 800 x 600 pixels. */
  const Width: real := 800.0
  const Height: real := 600.0

  /** The curve scan probes the pixel columns 0, 4, ..., 796. */
  const ColumnStride: nat := 4
  const Columns: nat := 200

  /** An extremum dot is hit when its screen position is less than 7 pixels
      from the pointer (squared distance below 49). */
  predicate NearExtremum(b: GraphBounds, mouseX: real, mouseY: real, e: Extremum)
    requires Viewport.WellFormed(b)
  {
    var dx := Viewport.ToScreenX(b, Width, e.x) - mouseX;
    var dy := Viewport.ToScreenY(b, Height, e.y) - mouseY;
    dx * dx + dy * dy < 49.0
  }

  /** An intersection dot is hit when its recorded screen position is less
      than 8 pixels from the pointer (squared distance below 64). */
  predicate NearIntersection(mouseX: real, mouseY: real, m: Marker)
  {
    (m.sx - mouseX) * (m.sx - mouseX) + (m.sy - mouseY) * (m.sy - mouseY) < 64.0
  }

  function ExtremumHit(b: GraphBounds, mouseX: real, mouseY: real): Extremum -> bool
    requires Viewport.WellFormed(b)
  {
    e => NearExtremum(b, mouseX, mouseY, e)
  }

  function IntersectionHit(mouseX: real, mouseY: real): Marker -> bool
  {
    m => NearIntersection(mouseX, mouseY, m)
  }

  /** The data x probed at scan column c (pixel column 4c) */
  function ColumnX(b: GraphBounds, c: int): real
  {
    Viewport.ToDataX(b, Width, (ColumnStride * c) as real)
  }

  /** Column c hits the curve of an expression when the expression is
      defined there and the curve point is less than 7 pixels from the
      pointer both across and down. */
  predicate HitsAt(ev: Evaluator, expression: string, b: GraphBounds, mouseX: real, mouseY: real, c: int)
    requires Viewport.WellFormed(b)
  {
    match Defined(ev, expression, ColumnX(b, c))
    case None => false
    case Some(y) =>
      Abs(Viewport.ToScreenY(b, Height, y) - mouseY) < 7.0 && Abs((ColumnStride * c) as real - mouseX) < 7.0
  }

  /** The scan columns 0 .. 199 in order */
  function ColumnIndices(): (r: seq<int>)
    ensures |r| == Columns && forall c :: 0 <= c < Columns ==> r[c] == c
  {
    seq(Columns, c => c)
  }

  function ColumnHit(ev: Evaluator, expression: string, b: GraphBounds, mouseX: real, mouseY: real): int -> bool
    requires Viewport.WellFormed(b)
  {
    c => HitsAt(ev, expression, b, mouseX, mouseY, c)
  }

  /** The first scan column that hits the curve of an expression */
  function FirstColumn(ev: Evaluator, expression: string, b: GraphBounds, mouseX: real, mouseY: real): Option<nat>
    requires Viewport.WellFormed(b)
  {
    Find(ColumnIndices(), ColumnHit(ev, expression, b, mouseX, mouseY))
  }

  /** A visible equation whose curve some scan column hits */
  function CurveHittable(ev: Evaluator, b: GraphBounds, mouseX: real, mouseY: real): Equation -> bool
    requires Viewport.WellFormed(b)
  {
    (e: Equation) => e.visible && FirstColumn(ev, e.expression, b, mouseX, mouseY).Some?
  }

  /** The equation found by the scan (its position in the list), the column
      and the curve point (foundX, foundY) there */
  datatype CurveHit = CurveHit(index: nat, column: nat, x: real, y: real)

  /** The first visible equation in list order whose curve is hit, at its
      first hitting column */
  function CurveHitOf(ev: Evaluator, eqs: seq<Equation>, b: GraphBounds, mouseX: real, mouseY: real): (r: Option<CurveHit>)
    requires Viewport.WellFormed(b)
    ensures r.Some? ==>
              && r.value.index < |eqs| && eqs[r.value.index].visible && r.value.column < Columns
              && r.value.x == ColumnX(b, r.value.column)
              && Defined(ev, eqs[r.value.index].expression, r.value.x) == Some(r.value.y)
              && HitsAt(ev, eqs[r.value.index].expression, b, mouseX, mouseY, r.value.column)
  {
    match Find(eqs, CurveHittable(ev, b, mouseX, mouseY))
    case None => None
    case Some(i) =>
      var c := FirstColumn(ev, eqs[i].expression, b, mouseX, mouseY).value;
      assert ColumnIndices()[c] == c;
      var x := ColumnX(b, c);
      Some(CurveHit(i, c, x, Defined(ev, eqs[i].expression, x).value))
  }

  /** The scan: equations in list order, skipping hidden ones, columns left
      to right, stopping at the first hit. */
  method FindCurveHit(ev: Evaluator, eqs: seq<Equation>, b: GraphBounds, mouseX: real, mouseY: real)
    returns (hit: Option<CurveHit>)
    requires Viewport.WellFormed(b)
    ensures hit == CurveHitOf(ev, eqs, b, mouseX, mouseY)
  {
    for k := 0 to |eqs|
      invariant forall q :: 0 <= q < k ==> !CurveHittable(ev, b, mouseX, mouseY)(eqs[q])
    {
      if !eqs[k].visible {
        continue;
      }
      var expression := eqs[k].expression;
      for c := 0 to Columns
        invariant forall q :: 0 <= q < c ==> !HitsAt(ev, expression, b, mouseX, mouseY, q)
      {
        var px := (ColumnStride * c) as real;
        var x := ColumnX(b, c);
        match Defined(ev, expression, x)
        case None =>
        case Some(y) =>
          var py := Viewport.ToScreenY(b, Height, y);
          if Abs(py - mouseY) < 7.0 && Abs(px - mouseX) < 7.0 {
            hit := Some(CurveHit(k, c, x, y));
            FindFirst(ColumnIndices(), ColumnHit(ev, expression, b, mouseX, mouseY), c);
            FindFirst(eqs, CurveHittable(ev, b, mouseX, mouseY), k);
            return;
          }
      }
      assert FirstColumn(ev, expression, b, mouseX, mouseY).None?;
    }
    hit := None;
  }

  /** What the scan result means: a hit names a visible equation, a column
      whose curve point lies within 7 pixels of the pointer both ways, with
      every earlier column of that curve and every earlier visible curve
      missing; no hit means no column of any visible curve is that close. */
  lemma CurveHitSpec(ev: Evaluator, eqs: seq<Equation>, b: GraphBounds, mouseX: real, mouseY: real)
    requires Viewport.WellFormed(b)
    ensures match CurveHitOf(ev, eqs, b, mouseX, mouseY)
            case Some(h) =>
              && h.index < |eqs| && eqs[h.index].visible && h.column < Columns
              && h.x == ColumnX(b, h.column)
              && Defined(ev, eqs[h.index].expression, h.x) == Some(h.y)
              && Abs(Viewport.ToScreenY(b, Height, h.y) - mouseY) < 7.0
              && Abs((ColumnStride * h.column) as real - mouseX) < 7.0
              && (forall c :: 0 <= c < h.column ==> !HitsAt(ev, eqs[h.index].expression, b, mouseX, mouseY, c))
              && (forall q, c :: 0 <= q < h.index && eqs[q].visible && 0 <= c < Columns ==>
                    !HitsAt(ev, eqs[q].expression, b, mouseX, mouseY, c))
            case None =>
              forall q, c :: 0 <= q < |eqs| && eqs[q].visible && 0 <= c < Columns ==>
                !HitsAt(ev, eqs[q].expression, b, mouseX, mouseY, c)
  {
    var found := Find(eqs, CurveHittable(ev, b, mouseX, mouseY));
    forall q, c | 0 <= q < |eqs| && eqs[q].visible && 0 <= c < Columns &&
                  (found.None? || q < found.value)
      ensures !HitsAt(ev, eqs[q].expression, b, mouseX, mouseY, c)
    {
      assert !CurveHittable(ev, b, mouseX, mouseY)(eqs[q]);
      assert ColumnIndices()[c] == c;
    }
    if found.Some? {
      var i := found.value;
      assert CurveHittable(ev, b, mouseX, mouseY)(eqs[i]);
      var column := FirstColumn(ev, eqs[i].expression, b, mouseX, mouseY);
      assert ColumnIndices()[column.value] == column.value;
      forall c | 0 <= c < column.value
        ensures !HitsAt(ev, eqs[i].expression, b, mouseX, mouseY, c)
      {
        assert ColumnIndices()[c] == c;
      }
    }
  }
}
