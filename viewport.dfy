/** Coordinate transforms of src/components/Graph.tsx and the bounds arithmetic
    of its drag (handleMouseMove) and wheel-zoom (handleWheel) handlers. */
module Viewport {
  import opened Types

  /** Both ranges positive: what every transform below divides by */
  predicate WellFormed(b: GraphBounds)
  {
    b.xMin < b.xMax && b.yMin < b.yMax
  }

  /** toScreenX: data x to pixel column; the pointer-to-data transform of
      that column gives x back. */
  function ToScreenX(b: GraphBounds, width: real, x: real): (sx: real)
    requires b.xMin < b.xMax
    ensures width > 0.0 ==> ToDataX(b, width, sx) == x
  {
    var xr := b.xMax - b.xMin;
    assert width > 0.0 ==> (x - b.xMin) / xr * width / width * xr == x - b.xMin;
    (x - b.xMin) / xr * width
  }

  /** toScreenY: data y to pixel row, rows growing downward; the
      pointer-to-data transform of that row gives y back. */
  function ToScreenY(b: GraphBounds, height: real, y: real): (sy: real)
    requires b.yMin < b.yMax
    ensures height > 0.0 ==> ToDataY(b, height, sy) == y
  {
    var yr := b.yMax - b.yMin;
    assert height > 0.0 ==> (y - b.yMin) / yr * height / height * yr == y - b.yMin;
    height - (y - b.yMin) / yr * height
  }

  /** The data x under pixel column sx (xGraph in handleWheel) */
  function ToDataX(b: GraphBounds, width: real, sx: real): real
    requires width > 0.0
  {
    b.xMin + (sx / width) * (b.xMax - b.xMin)
  }

  /** The data y under pixel row sy (yGraph in handleWheel) */
  function ToDataY(b: GraphBounds, height: real, sy: real): real
    requires height > 0.0
  {
    b.yMax - (sy / height) * (b.yMax - b.yMin)
  }

  /** The screen transforms and the pointer-to-data transforms are inverse. */
  lemma ScreenRoundTrip(b: GraphBounds, width: real, height: real, x: real, y: real)
    requires WellFormed(b) && width > 0.0 && height > 0.0
    ensures ToDataX(b, width, ToScreenX(b, width, x)) == x
    ensures ToDataY(b, height, ToScreenY(b, height, y)) == y
    ensures ToScreenX(b, width, ToDataX(b, width, x)) == x
    ensures ToScreenY(b, height, ToDataY(b, height, y)) == y
  {
    var xr, yr := b.xMax - b.xMin, b.yMax - b.yMin;
    assert ToScreenX(b, width, x) / width == (x - b.xMin) / xr;
    assert ToDataX(b, width, x) - b.xMin == (x / width) * xr;
    assert (height - ToScreenY(b, height, y)) / height == (y - b.yMin) / yr;
    assert b.yMax - ToDataY(b, height, y) == (y / height) * yr;
  }

  /** Points further right in the data are further right on the screen. */
  lemma ScreenXIncreasing(b: GraphBounds, width: real, x1: real, x2: real)
    requires WellFormed(b) && width > 0.0 && x1 < x2
    ensures ToScreenX(b, width, x1) < ToScreenX(b, width, x2)
  {
    var xr := b.xMax - b.xMin;
    assert (x2 - b.xMin) / xr - (x1 - b.xMin) / xr == (x2 - x1) / xr;
    assert (x2 - x1) / xr > 0.0;
    assert ToScreenX(b, width, x2) - ToScreenX(b, width, x1) == ((x2 - x1) / xr) * width;
  }

  /** The bounds map onto the canvas edges: xMin to column 0, xMax to column
      width, yMax to row 0 and yMin to row height. */
  lemma ScreenCorners(b: GraphBounds, width: real, height: real)
    requires WellFormed(b)
    ensures ToScreenX(b, width, b.xMin) == 0.0 && ToScreenX(b, width, b.xMax) == width
    ensures ToScreenY(b, height, b.yMax) == 0.0 && ToScreenY(b, height, b.yMin) == height
  {
  }

  /** A drag of (dx, dy) pixels: all four bounds move by the data delta
      (-dx * xRange / width, dy * yRange / height). */
  function DragBounds(b: GraphBounds, width: real, height: real, dx: real, dy: real): (r: GraphBounds)
    requires width > 0.0 && height > 0.0
    ensures r.xMax - r.xMin == b.xMax - b.xMin
    ensures r.yMax - r.yMin == b.yMax - b.yMin
    ensures WellFormed(b) ==> WellFormed(r)
  {
    var dxGraph := -dx * ((b.xMax - b.xMin) / width);
    var dyGraph := dy * ((b.yMax - b.yMin) / height);
    GraphBounds(b.xMin + dxGraph, b.xMax + dxGraph, b.yMin + dyGraph, b.yMax + dyGraph)
  }

  /** The content follows the pointer: the data point that was under pixel
      (sx, sy) is under pixel (sx + dx, sy + dy) after the drag. */
  lemma DragFollowsPointer(b: GraphBounds, width: real, height: real, dx: real, dy: real, sx: real, sy: real)
    requires width > 0.0 && height > 0.0
    ensures ToDataX(DragBounds(b, width, height, dx, dy), width, sx + dx) == ToDataX(b, width, sx)
    ensures ToDataY(DragBounds(b, width, height, dx, dy), height, sy + dy) == ToDataY(b, height, sy)
  {
    var r := DragBounds(b, width, height, dx, dy);
    var xr, yr := b.xMax - b.xMin, b.yMax - b.yMin;
    assert ((sx + dx) / width) * xr == (sx / width) * xr + dx * (xr / width);
    assert ((sy + dy) / height) * yr == (sy / height) * yr + dy * (yr / height);
  }

  /** Dragging by (dx, dy) and then by (-dx, -dy) restores the bounds exactly. */
  lemma DragRoundTrip(b: GraphBounds, width: real, height: real, dx: real, dy: real)
    requires width > 0.0 && height > 0.0
    ensures DragBounds(DragBounds(b, width, height, dx, dy), width, height, -dx, -dy) == b
  {
  }

  /** 1.1 when the wheel scrolls down (zoom out), 0.9 otherwise (zoom in) */
  function ZoomFactor(deltaY: real): real
  {
    if deltaY > 0.0 then 11.0 / 10.0 else 9.0 / 10.0
  }

  /** handleWheel: scale both ranges by the zoom factor around the data point
      under the pointer (mouseX, mouseY), given relative to the canvas. */
  function ZoomBounds(b: GraphBounds, width: real, height: real, mouseX: real, mouseY: real, deltaY: real): (r: GraphBounds)
    requires width > 0.0 && height > 0.0
    ensures r.xMax - r.xMin == (b.xMax - b.xMin) * ZoomFactor(deltaY)
    ensures r.yMax - r.yMin == (b.yMax - b.yMin) * ZoomFactor(deltaY)
    ensures WellFormed(b) ==> WellFormed(r)
  {
    var xGraph := ToDataX(b, width, mouseX);
    var yGraph := ToDataY(b, height, mouseY);
    var newXRange := (b.xMax - b.xMin) * ZoomFactor(deltaY);
    var newYRange := (b.yMax - b.yMin) * ZoomFactor(deltaY);
    var newXMin := xGraph - (mouseX / width) * newXRange;
    var newYMax := yGraph + (mouseY / height) * newYRange;
    GraphBounds(newXMin, newXMin + newXRange, newYMax - newYRange, newYMax)
  }

  /** The data point under the pointer stays under the pointer. */
  lemma ZoomKeepsPointer(b: GraphBounds, width: real, height: real, mouseX: real, mouseY: real, deltaY: real)
    requires width > 0.0 && height > 0.0
    ensures ToDataX(ZoomBounds(b, width, height, mouseX, mouseY, deltaY), width, mouseX) == ToDataX(b, width, mouseX)
    ensures ToDataY(ZoomBounds(b, width, height, mouseX, mouseY, deltaY), height, mouseY) == ToDataY(b, height, mouseY)
  {
  }

  /** A zoom in followed by a zoom out at the same pointer does not restore the
      bounds: both ranges end at 0.9 * 1.1 = 0.99 of the original, around the
      same data point. */
  lemma ZoomInThenOut(b: GraphBounds, width: real, height: real, mouseX: real, mouseY: real)
    requires WellFormed(b) && width > 0.0 && height > 0.0
    ensures var r := ZoomBounds(ZoomBounds(b, width, height, mouseX, mouseY, -1.0), width, height, mouseX, mouseY, 1.0);
            && r.xMax - r.xMin == (99.0 / 100.0) * (b.xMax - b.xMin)
            && r.yMax - r.yMin == (99.0 / 100.0) * (b.yMax - b.yMin)
            && ToDataX(r, width, mouseX) == ToDataX(b, width, mouseX)
            && ToDataY(r, height, mouseY) == ToDataY(b, height, mouseY)
            && r != b
  {
    var r1 := ZoomBounds(b, width, height, mouseX, mouseY, -1.0);
    ZoomKeepsPointer(b, width, height, mouseX, mouseY, -1.0);
    ZoomKeepsPointer(r1, width, height, mouseX, mouseY, 1.0);
  }
}
