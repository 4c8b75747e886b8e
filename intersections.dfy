/** findIntersections of src/components/Graph.tsx (a sign-change scan of
    f1 - f2 on a grid, each bracket refined by ten bisection steps) and the
    enumeration of visible equation pairs that feeds it. */
module Intersections {
  import opened Types
  import opened Sampling
  import Viewport

  /** The number of bisection steps per bracket */
  const BisectionSteps: nat := 10

  /** A JavaScript number read through a non-null assertion: null counts as 0
      in arithmetic. */
  function AsNumber(v: Option<real>): real
  {
    if v.Some? then v.value else 0.0
  }

  /** fX = f1(x)! - f2(x)! as the bisection computes it */
  function Diff(f1: real -> Option<real>, f2: real -> Option<real>, x: real): real
  {
    AsNumber(f1(x)) - AsNumber(f2(x))
  }

  /** u and v have strictly opposite signs; the linear reading of u * v < 0 */
  predicate Opposite(u: real, v: real)
  {
    (u < 0.0 && 0.0 < v) || (v < 0.0 && 0.0 < u)
  }

  lemma OppositeProduct(u: real, v: real)
    ensures Opposite(u, v) <==> u * v < 0.0
  {
    if u < 0.0 && v > 0.0 {
      assert u * v < 0.0;
    } else if u > 0.0 && v < 0.0 {
      assert u * v < 0.0;
    } else if u >= 0.0 && v >= 0.0 {
      assert u * v >= 0.0;
    } else if u <= 0.0 && v <= 0.0 {
      assert u * v >= 0.0;
    }
  }

  /** Both functions are defined at a and b and f1 - f2 changes sign strictly */
  predicate Brackets(f1: real -> Option<real>, f2: real -> Option<real>, a: real, b: real)
  {
    && f1(a).Some? && f2(a).Some? && f1(b).Some? && f2(b).Some?
    && Opposite(f1(a).value - f2(a).value, f1(b).value - f2(b).value)
  }

  /** The interval (a, b) after n bisection steps: keep the left half when the
      difference changes sign between a and the midpoint, else the right half.
      The interval stays inside (a, b) with a positive width. */
  function Bisect(f1: real -> Option<real>, f2: real -> Option<real>, a: real, b: real, n: nat): (r: (real, real))
    ensures a < b ==> a <= r.0 < r.1 <= b
    decreases n
  {
    if n == 0 then (a, b)
    else
      var mid := (a + b) / 2.0;
      if Opposite(Diff(f1, f2, a), Diff(f1, f2, mid)) then Bisect(f1, f2, a, mid, n - 1)
      else Bisect(f1, f2, mid, b, n - 1)
  }

  /** One bisection step as the loop tests it, with the product of the two
      differences */
  lemma BisectStep(f1: real -> Option<real>, f2: real -> Option<real>, a: real, b: real, n: nat, fA: real, fMid: real)
    requires n > 0 && fA == Diff(f1, f2, a) && fMid == Diff(f1, f2, (a + b) / 2.0)
    ensures Bisect(f1, f2, a, b, n) ==
            if fA * fMid < 0.0 then Bisect(f1, f2, a, (a + b) / 2.0, n - 1) else Bisect(f1, f2, (a + b) / 2.0, b, n - 1)
  {
    OppositeProduct(fA, fMid);
  }

  /** w halved n times */
  function Halved(w: real, n: nat): real
    decreases n
  {
    if n == 0 then w else Halved(w / 2.0, n - 1)
  }

  /** Each bisection step halves the interval. */
  lemma {:induction false} BisectWidth(f1: real -> Option<real>, f2: real -> Option<real>, a: real, b: real, n: nat)
    ensures var r := Bisect(f1, f2, a, b, n); r.1 - r.0 == Halved(b - a, n)
    decreases n
  {
    if n > 0 {
      var mid := (a + b) / 2.0;
      BisectWidth(f1, f2, a, mid, n - 1);
      BisectWidth(f1, f2, mid, b, n - 1);
      assert mid - a == (b - a) / 2.0 && b - mid == (b - a) / 2.0;
    }
  }

  /** None of the midpoints that bisection visits is an exact zero of f1 - f2 */
  predicate MidpointsNonZero(f1: real -> Option<real>, f2: real -> Option<real>, a: real, b: real, n: nat)
    decreases n
  {
    n == 0 ||
    var mid := (a + b) / 2.0;
    && Diff(f1, f2, mid) != 0.0
    && if Opposite(Diff(f1, f2, a), Diff(f1, f2, mid)) then MidpointsNonZero(f1, f2, a, mid, n - 1)
       else MidpointsNonZero(f1, f2, mid, b, n - 1)
  }

  /** Bisection keeps a strict sign change of f1 - f2 across its interval as
      long as no midpoint is an exact zero. */
  lemma {:induction false} BisectKeepsSignChange(f1: real -> Option<real>, f2: real -> Option<real>, a: real, b: real, n: nat)
    requires Opposite(Diff(f1, f2, a), Diff(f1, f2, b))
    requires MidpointsNonZero(f1, f2, a, b, n)
    ensures var r := Bisect(f1, f2, a, b, n); Opposite(Diff(f1, f2, r.0), Diff(f1, f2, r.1))
    decreases n
  {
    if n > 0 {
      var mid := (a + b) / 2.0;
      var da, dm, db := Diff(f1, f2, a), Diff(f1, f2, mid), Diff(f1, f2, b);
      if Opposite(da, dm) {
        BisectKeepsSignChange(f1, f2, a, mid, n - 1);
      } else {
        BisectKeepsSignChange(f1, f2, mid, b, n - 1);
      }
    }
  }

  /** The point found between grid points i-1 and i, if any */
  function CandidateAt(f1: real -> Option<real>, f2: real -> Option<real>, xMin: real, step: real, i: int): (c: seq<Point>)
    ensures |c| <= 1
    ensures |c| == 1 ==> f1(c[0].x) == Some(c[0].y)
  {
    var prevX, x := GridX(xMin, step, i - 1), GridX(xMin, step, i);
    if Brackets(f1, f2, prevX, x) then
      var root := RootEstimate(f1, f2, prevX, x);
      if f1(root).Some? then [Point(root, f1(root).value)] else []
    else []
  }

  /** The midpoint of the bracket after the bisection steps */
  function RootEstimate(f1: real -> Option<real>, f2: real -> Option<real>, a: real, b: real): real
  {
    var ab := Bisect(f1, f2, a, b, BisectionSteps);
    (ab.0 + ab.1) / 2.0
  }

  /** The candidate of each sub-interval, as one closure */
  function CandidateFn(f1: real -> Option<real>, f2: real -> Option<real>, xMin: real, step: real): int -> seq<Point>
  {
    i => CandidateAt(f1, f2, xMin, step, i)
  }

  /** The points found in the first n sub-intervals, left to right */
  function IntersectionsUpTo(f1: real -> Option<real>, f2: real -> Option<real>, xMin: real, step: real, n: nat): seq<Point>
  {
    CellsUpTo(CandidateFn(f1, f2, xMin, step), n)
  }

  /** The results of cells 1 .. n concatenated in order */
  function CellsUpTo(cand: int -> seq<Point>, n: nat): seq<Point>
  {
    if n == 0 then [] else CellsUpTo(cand, n - 1) + cand(n)
  }

  /** Each of the cells 1 .. n yields at most one point, strictly inside the
      cell's grid interval */
  predicate InGrid(cand: int -> seq<Point>, xMin: real, step: real, n: nat)
  {
    forall i :: 1 <= i <= n ==>
      |cand(i)| <= 1 && (|cand(i)| == 1 ==> InCell(xMin, step, i, cand(i)[0].x))
  }

  /** x lies strictly inside the i-th sub-interval (grid points i-1 and i) */
  predicate InCell(xMin: real, step: real, i: int, x: real)
  {
    GridX(xMin, step, i - 1) < x < GridX(xMin, step, i)
  }

  lemma {:induction false} CellsCount(cand: int -> seq<Point>, xMin: real, step: real, n: nat)
    requires InGrid(cand, xMin, step, n)
    ensures |CellsUpTo(cand, n)| <= n
  {
    if n > 0 {
      CellsCount(cand, xMin, step, n - 1);
    }
  }

  /** The cell that produced position k */
  lemma {:induction false} CellOf(cand: int -> seq<Point>, xMin: real, step: real, n: nat, k: nat) returns (i: nat)
    requires InGrid(cand, xMin, step, n) && k < |CellsUpTo(cand, n)|
    ensures 1 <= i <= n && |cand(i)| == 1 && CellsUpTo(cand, n)[k] == cand(i)[0]
  {
    var prefix := CellsUpTo(cand, n - 1);
    if k < |prefix| {
      i := CellOf(cand, xMin, step, n - 1, k);
    } else {
      i := n;
    }
  }

  lemma {:induction false} CellsInRange(cand: int -> seq<Point>, xMin: real, step: real, n: nat, k: nat)
    requires step > 0.0 && InGrid(cand, xMin, step, n) && k < |CellsUpTo(cand, n)|
    ensures xMin < CellsUpTo(cand, n)[k].x < GridX(xMin, step, n)
  {
    var prefix := CellsUpTo(cand, n - 1);
    GridMonotone(xMin, step, n - 1, n);
    if k < |prefix| {
      CellsInRange(cand, xMin, step, n - 1, k);
    } else {
      assert GridX(xMin, step, 0) == xMin;
      if n > 1 {
        GridMonotone(xMin, step, 0, n - 1);
      }
    }
  }

  lemma {:induction false} CellsIncreasing(cand: int -> seq<Point>, xMin: real, step: real, n: nat, j: nat, k: nat)
    requires step > 0.0 && InGrid(cand, xMin, step, n) && j < k < |CellsUpTo(cand, n)|
    ensures CellsUpTo(cand, n)[j].x < CellsUpTo(cand, n)[k].x
  {
    var prefix := CellsUpTo(cand, n - 1);
    if k < |prefix| {
      CellsIncreasing(cand, xMin, step, n - 1, j, k);
    } else {
      CellsInRange(cand, xMin, step, n - 1, j);
    }
  }

  /** The bisection loop of findIntersections: ten halvings of [a, b] */
  method RefineBracket(f1: real -> Option<real>, f2: real -> Option<real>, a0: real, b0: real) returns (a: real, b: real)
    ensures (a, b) == Bisect(f1, f2, a0, b0, BisectionSteps)
  {
    a, b := a0, b0;
    var j := 0;
    while j < BisectionSteps
      invariant 0 <= j <= BisectionSteps
      invariant Bisect(f1, f2, a, b, BisectionSteps - j) == Bisect(f1, f2, a0, b0, BisectionSteps)
    {
      var mid := (a + b) / 2.0;
      var fA := Diff(f1, f2, a);
      var fMid := Diff(f1, f2, mid);
      BisectStep(f1, f2, a, b, BisectionSteps - j, fA, fMid);
      if fA * fMid < 0.0 {
        b := mid;
      } else {
        a := mid;
      }
      j := j + 1;
    }
  }

  /** One more sub-interval appends its candidate */
  lemma CellCandidate(f1: real -> Option<real>, f2: real -> Option<real>, xMin: real, step: real, i: nat)
    requires i >= 1
    ensures IntersectionsUpTo(f1, f2, xMin, step, i) ==
            IntersectionsUpTo(f1, f2, xMin, step, i - 1) + CandidateAt(f1, f2, xMin, step, i)
  {
  }

  /** One sub-interval of findIntersections: with the values at its two ends
      already known, a strict sign change of f1 - f2 is narrowed by bisection
      and the midpoint kept when f1 is defined there. */
  method ScanCell(f1: real -> Option<real>, f2: real -> Option<real>, xMin: real, step: real, i: int,
                  prevY1: Option<real>, prevY2: Option<real>, y1: Option<real>, y2: Option<real>)
    returns (cell: seq<Point>)
    requires prevY1 == f1(GridX(xMin, step, i - 1)) && prevY2 == f2(GridX(xMin, step, i - 1))
    requires y1 == f1(GridX(xMin, step, i)) && y2 == f2(GridX(xMin, step, i))
    ensures cell == CandidateAt(f1, f2, xMin, step, i)
  {
    var prevX, x := GridX(xMin, step, i - 1), GridX(xMin, step, i);
    cell := [];
    // (prevY1 - prevY2) * (y1 - y2) < 0, read as a sign test (OppositeProduct)
    if prevY1.Some? && prevY2.Some? && y1.Some? && y2.Some? &&
       Opposite(prevY1.value - prevY2.value, y1.value - y2.value)
    {
      assert Brackets(f1, f2, prevX, x);
      var a, b := RefineBracket(f1, f2, prevX, x);
      var xRoot := (a + b) / 2.0;
      assert xRoot == RootEstimate(f1, f2, prevX, x);
      var yRoot := f1(xRoot);
      if yRoot.Some? {
        cell := [Point(xRoot, yRoot.value)];
      }
    }
  }

  /** findIntersections(f1, f2, xMin, xMax, samples) */
  method FindIntersections(f1: real -> Option<real>, f2: real -> Option<real>, xMin: real, xMax: real, samples: nat)
    returns (points: seq<Point>)
    ensures points == IntersectionsUpTo(f1, f2, xMin, StepOf(xMin, xMax, samples), samples)
  {
    var step := StepOf(xMin, xMax, samples);
    points := [];
    var prevX := xMin;
    var prevY1 := f1(prevX);
    var prevY2 := f2(prevX);
    var i := 1;
    while i <= samples
      invariant 1 <= i <= samples + 1
      invariant prevX == GridX(xMin, step, i - 1)
      invariant prevY1 == f1(prevX) && prevY2 == f2(prevX)
      invariant points == IntersectionsUpTo(f1, f2, xMin, step, i - 1)
    {
      var x := GridX(xMin, step, i);
      var y1 := f1(x);
      var y2 := f2(x);
      CellCandidate(f1, f2, xMin, step, i);
      var cell := ScanCell(f1, f2, xMin, step, i, prevY1, prevY2, y1, y2);
      points := points + cell;
      prevX := x;
      prevY1 := y1;
      prevY2 := y2;
      i := i + 1;
    }
  }

  /** x lies strictly inside the i-th sub-interval, whose ends bracket a sign
      change of f1 - f2 */
  predicate FoundIn(f1: real -> Option<real>, f2: real -> Option<real>, xMin: real, step: real, i: int, x: real)
  {
    InCell(xMin, step, i, x) && Brackets(f1, f2, GridX(xMin, step, i - 1), GridX(xMin, step, i))
  }

  /** The point found between grid points i-1 and i lies strictly between them,
      and those grid points bracket a sign change. */
  lemma CandidateInCell(f1: real -> Option<real>, f2: real -> Option<real>, xMin: real, step: real, i: int)
    requires step > 0.0
    ensures var c := CandidateAt(f1, f2, xMin, step, i);
            |c| == 1 ==> FoundIn(f1, f2, xMin, step, i, c[0].x)
  {
    GridMonotone(xMin, step, i - 1, i);
  }

  lemma CandidatesInGrid(f1: real -> Option<real>, f2: real -> Option<real>, xMin: real, step: real, n: nat)
    requires step > 0.0
    ensures InGrid(CandidateFn(f1, f2, xMin, step), xMin, step, n)
  {
    forall i | 1 <= i <= n
      ensures var c := CandidateFn(f1, f2, xMin, step)(i);
              |c| <= 1 && (|c| == 1 ==> InCell(xMin, step, i, c[0].x))
    {
      CandidateInCell(f1, f2, xMin, step, i);
    }
  }

  /** With a positive step, every reported point lies strictly inside a
      sub-interval whose two ends bracket a sign change of f1 - f2, lies
      strictly between xMin and the n-th grid point, and has y = f1(x). */
  lemma IntersectionSound(f1: real -> Option<real>, f2: real -> Option<real>, xMin: real, step: real, n: nat, k: nat)
    requires step > 0.0 && k < |IntersectionsUpTo(f1, f2, xMin, step, n)|
    ensures var p := IntersectionsUpTo(f1, f2, xMin, step, n)[k];
            && f1(p.x) == Some(p.y)
            && (exists i :: 1 <= i <= n && FoundIn(f1, f2, xMin, step, i, p.x))
            && xMin < p.x < GridX(xMin, step, n)
  {
    var cand := CandidateFn(f1, f2, xMin, step);
    CandidatesInGrid(f1, f2, xMin, step, n);
    var i := CellOf(cand, xMin, step, n, k);
    CandidateInCell(f1, f2, xMin, step, i);
    CellsInRange(cand, xMin, step, n, k);
  }

  /** At most one point per sub-interval, and with a positive step the points
      are strictly increasing in x. */
  lemma IntersectionsOrdered(f1: real -> Option<real>, f2: real -> Option<real>, xMin: real, step: real, n: nat)
    requires step > 0.0
    ensures var pts := IntersectionsUpTo(f1, f2, xMin, step, n);
            && |pts| <= n
            && forall j, k :: 0 <= j < k < |pts| ==> pts[j].x < pts[k].x
  {
    var cand := CandidateFn(f1, f2, xMin, step);
    CandidatesInGrid(f1, f2, xMin, step, n);
    CellsCount(cand, xMin, step, n);
    forall j, k | 0 <= j < k < |CellsUpTo(cand, n)|
      ensures CellsUpTo(cand, n)[j].x < CellsUpTo(cand, n)[k].x
    {
      CellsIncreasing(cand, xMin, step, n, j, k);
    }
  }

  /** Two identical functions never intersect: f - f never changes sign. */
  lemma {:induction false} IdenticalFunctionsNoIntersections(f: real -> Option<real>, xMin: real, step: real, n: nat)
    ensures IntersectionsUpTo(f, f, xMin, step, n) == []
  {
    if n > 0 {
      IdenticalFunctionsNoIntersections(f, xMin, step, n - 1);
      CellCandidate(f, f, xMin, step, n);
      assert !Brackets(f, f, GridX(xMin, step, n - 1), GridX(xMin, step, n));
    }
  }

  /** The final bisection interval of a bracket found on the grid has width
      step / 2^10, sits inside the sub-interval, and still brackets a sign
      change when no midpoint was an exact zero; the reported x is its middle. */
  lemma BracketRefinement(f1: real -> Option<real>, f2: real -> Option<real>, prevX: real, x: real)
    requires prevX < x && Brackets(f1, f2, prevX, x)
    requires MidpointsNonZero(f1, f2, prevX, x, BisectionSteps)
    ensures var ab := Bisect(f1, f2, prevX, x, BisectionSteps);
            && prevX <= ab.0 < ab.1 <= x
            && ab.1 - ab.0 == (x - prevX) / 1024.0
            && Opposite(Diff(f1, f2, ab.0), Diff(f1, f2, ab.1))
  {
    BisectWidth(f1, f2, prevX, x, BisectionSteps);
    assert Halved(x - prevX, BisectionSteps) == (x - prevX) / 1024.0;
    assert Diff(f1, f2, prevX) == f1(prevX).value - f2(prevX).value;
    assert Diff(f1, f2, x) == f1(x).value - f2(x).value;
    BisectKeepsSignChange(f1, f2, prevX, x, BisectionSteps);
  }

  /** The index pairs (i, j), i < j < n, in the order of the nested loops
      `for i … for j = i+1 …` */
  function Pairs(n: nat): seq<(nat, nat)>
  {
    PairsBefore(n, n)
  }

  /** The pairs of the first m rows of the nested loops */
  function PairsBefore(n: nat, m: nat): seq<(nat, nat)>
  {
    if m == 0 then [] else PairsBefore(n, m - 1) + Row(m - 1, n)
  }

  /** The pairs (i, j) with i < j < end, j increasing: the inner loop's row */
  function Row(i: nat, end: nat): (r: seq<(nat, nat)>)
    ensures |r| == if end > i + 1 then end - i - 1 else 0
    ensures forall k :: 0 <= k < |r| ==> r[k] == (i, i + 1 + k)
  {
    if end <= i + 1 then [] else Row(i, end - 1) + [(i, end - 1)]
  }

  /** Every pair i < j < n with i < m is enumerated, and nothing else. */
  lemma {:induction false} PairsExactly(n: nat, m: nat, p: (nat, nat))
    requires m <= n
    ensures p in PairsBefore(n, m) <==> p.0 < m && p.0 < p.1 < n
  {
    if m > 0 {
      PairsExactly(n, m - 1, p);
      RowExactly(m - 1, n, p);
      assert PairsBefore(n, m) == PairsBefore(n, m - 1) + Row(m - 1, n);
    }
  }

  /** Row i holds exactly the pairs (i, j) with i < j < end. */
  lemma RowExactly(i: nat, end: nat, p: (nat, nat))
    ensures p in Row(i, end) <==> p.0 == i && i < p.1 < end
  {
    var row := Row(i, end);
    if p.0 == i && i < p.1 < end {
      assert row[p.1 - i - 1] == p;
    }
  }

  /** Each pair is enumerated once: the enumeration is strictly increasing in
      lexicographic order. */
  lemma {:induction false} PairsOrdered(n: nat, m: nat)
    requires m <= n
    ensures forall a, b :: 0 <= a < b < |PairsBefore(n, m)| ==> LexLess(PairsBefore(n, m)[a], PairsBefore(n, m)[b])
  {
    if m > 0 {
      PairsOrdered(n, m - 1);
      var prefix, row := PairsBefore(n, m - 1), Row(m - 1, n);
      var ps := PairsBefore(n, m);
      assert ps == prefix + row;
      forall a | 0 <= a < |prefix|
        ensures prefix[a].0 < m - 1
      {
        PairsExactly(n, m - 1, prefix[a]);
      }
      forall a, b | 0 <= a < b < |ps|
        ensures LexLess(ps[a], ps[b])
      {
        if b < |prefix| {
          assert ps[a] == prefix[a] && ps[b] == prefix[b];
        } else if a < |prefix| {
          assert ps[a] == prefix[a] && ps[b] == row[b - |prefix|];
        } else {
          assert ps[a] == row[a - |prefix|] && ps[b] == row[b - |prefix|];
        }
      }
    }
  }

  predicate LexLess(p: (nat, nat), q: (nat, nat))
  {
    p.0 < q.0 || (p.0 == q.0 && p.1 < q.1)
  }

  /** The equations the draw pass considers: the visible ones, in list order */
  function Visible(eqs: seq<Equation>): (r: seq<Equation>)
    ensures forall e :: e in r <==> e in eqs && e.visible
    ensures |r| <= |eqs|
  {
    if |eqs| == 0 then []
    else
      assert eqs == eqs[..|eqs| - 1] + [eqs[|eqs| - 1]];
      Visible(eqs[..|eqs| - 1]) + (if eqs[|eqs| - 1].visible then [eqs[|eqs| - 1]] else [])
  }

  /** Visible is the list filter: filtering a concatenation filters each part
      and keeps them in order. With VisibleSingle this fixes the order and the
      multiplicity of the kept equations. */
  lemma {:induction false} VisibleConcat(a: seq<Equation>, b: seq<Equation>)
    ensures Visible(a + b) == Visible(a) + Visible(b)
  {
    if |b| == 0 {
      assert a + b == a;
    } else {
      var n := |b| - 1;
      var last := if b[n].visible then [b[n]] else [];
      assert b[..n] + [b[n]] == b;
      assert (a + b[..n]) + [b[n]] == a + b;
      calc {
        Visible(a + b);
        { VisibleSnoc(a + b[..n], b[n]); }
        Visible(a + b[..n]) + last;
        { VisibleConcat(a, b[..n]); }
        Visible(a) + Visible(b[..n]) + last;
        { VisibleSnoc(b[..n], b[n]); }
        Visible(a) + Visible(b);
      }
    }
  }

  /** One step of the filter: appending an equation appends it when visible */
  lemma VisibleSnoc(s: seq<Equation>, e: Equation)
    ensures Visible(s + [e]) == Visible(s) + if e.visible then [e] else []
  {
    assert (s + [e])[..|s|] == s;
  }

  /** A single equation is kept exactly when it is visible. */
  lemma VisibleSingle(e: Equation)
    ensures Visible([e]) == if e.visible then [e] else []
  {
    assert [e][..0] == [];
  }

  /** An intersection point with the screen position it is drawn at */
  function ToMarker(b: GraphBounds, width: real, height: real, p: Point): Marker
    requires Viewport.WellFormed(b)
  {
    Marker(p.x, p.y, Viewport.ToScreenX(b, width, p.x), Viewport.ToScreenY(b, height, p.y))
  }

  function ToMarkers(b: GraphBounds, width: real, height: real, pts: seq<Point>): seq<Marker>
    requires Viewport.WellFormed(b)
  {
    if |pts| == 0 then [] else ToMarkers(b, width, height, pts[..|pts| - 1]) + [ToMarker(b, width, height, pts[|pts| - 1])]
  }

  /** Each point becomes one marker, in order, at its screen position. */
  lemma {:induction false} ToMarkersPointwise(b: GraphBounds, width: real, height: real, pts: seq<Point>)
    requires Viewport.WellFormed(b)
    ensures |ToMarkers(b, width, height, pts)| == |pts|
    ensures forall k :: 0 <= k < |pts| ==> ToMarkers(b, width, height, pts)[k] == ToMarker(b, width, height, pts[k])
  {
    if |pts| > 0 {
      ToMarkersPointwise(b, width, height, pts[..|pts| - 1]);
    }
  }

  /** The markers for a pair (i, j) of visible equations: their intersection
      points over the current x range with 200 sub-intervals, with the screen
      position each is drawn at */
  function PairMarkers(ev: Evaluator, vis: seq<Equation>, b: GraphBounds, width: real, height: real): ((nat, nat)) -> seq<Marker>
    requires Viewport.WellFormed(b)
  {
    (p: (nat, nat)) =>
      if p.0 < |vis| && p.1 < |vis| then
        ToMarkers(b, width, height,
                  IntersectionsUpTo(Adapter(ev, vis[p.0].expression), Adapter(ev, vis[p.1].expression),
                                    b.xMin, StepOf(b.xMin, b.xMax, 200), 200))
      else []
  }

  /** The markers of the given pairs, concatenated in order */
  function MarkersOfPairs(mk: ((nat, nat)) -> seq<Marker>, ps: seq<(nat, nat)>): seq<Marker>
  {
    if |ps| == 0 then [] else MarkersOfPairs(mk, ps[..|ps| - 1]) + mk(ps[|ps| - 1])
  }

  lemma MarkersOfPairsSnoc(mk: ((nat, nat)) -> seq<Marker>, ps: seq<(nat, nat)>, p: (nat, nat))
    ensures MarkersOfPairs(mk, ps + [p]) == MarkersOfPairs(mk, ps) + mk(p)
  {
    assert (ps + [p])[..|ps|] == ps;
  }

  lemma {:induction false} MarkersOfPairsAppend(mk: ((nat, nat)) -> seq<Marker>, ps: seq<(nat, nat)>, qs: seq<(nat, nat)>)
    ensures MarkersOfPairs(mk, ps + qs) == MarkersOfPairs(mk, ps) + MarkersOfPairs(mk, qs)
    decreases |qs|
  {
    if |qs| > 0 {
      var init, last := qs[..|qs| - 1], qs[|qs| - 1];
      assert qs == init + [last];
      assert ps + qs == (ps + init) + [last];
      MarkersOfPairsAppend(mk, ps, init);
      MarkersOfPairsSnoc(mk, ps + init, last);
      MarkersOfPairsSnoc(mk, init, last);
    } else {
      assert ps + qs == ps;
    }
  }

  /** The markers of row i: the pairs (i, j), i < j < end */
  function RowMarkers(mk: ((nat, nat)) -> seq<Marker>, i: nat, end: nat): seq<Marker>
  {
    if end <= i + 1 then [] else RowMarkers(mk, i, end - 1) + mk((i, end - 1))
  }

  lemma {:induction false} RowMarkersArePairMarkers(mk: ((nat, nat)) -> seq<Marker>, i: nat, end: nat)
    ensures RowMarkers(mk, i, end) == MarkersOfPairs(mk, Row(i, end))
  {
    if end > i + 1 {
      RowMarkersArePairMarkers(mk, i, end - 1);
      MarkersOfPairsSnoc(mk, Row(i, end - 1), (i, end - 1));
    }
  }

  /** One pass of the outer loop: the markers so far followed by row i's are
      the markers of the first i + 1 rows. */
  lemma NextRowMarkers(mk: ((nat, nat)) -> seq<Marker>, n: nat, i: nat, acc: seq<Marker>, row: seq<Marker>)
    requires acc == MarkersOfPairs(mk, PairsBefore(n, i)) && row == RowMarkers(mk, i, n)
    ensures acc + row == MarkersOfPairs(mk, PairsBefore(n, i + 1))
  {
    RowMarkersArePairMarkers(mk, i, n);
    MarkersOfPairsAppend(mk, PairsBefore(n, i), Row(i, n));
  }

  lemma PairMarkersAt(ev: Evaluator, vis: seq<Equation>, b: GraphBounds, width: real, height: real, i: nat, j: nat,
                      mk: ((nat, nat)) -> seq<Marker>)
    requires Viewport.WellFormed(b) && i < |vis| && j < |vis|
    requires forall p {:trigger PairMarkers(ev, vis, b, width, height)(p)} :: mk(p) == PairMarkers(ev, vis, b, width, height)(p)
    ensures mk((i, j)) == ToMarkers(b, width, height,
              IntersectionsUpTo(Adapter(ev, vis[i].expression), Adapter(ev, vis[j].expression),
                                b.xMin, StepOf(b.xMin, b.xMax, 200), 200))
  {
    assert mk((i, j)) == PairMarkers(ev, vis, b, width, height)((i, j));
  }

  /** The markers of one pair (i, j) of visible equations: their intersections
      over the current x range with 200 sub-intervals, at their screen
      positions. The ghost closure mk stands for PairMarkers; the quantifier
      relating the two fires only on the pair named here. */
  method MarkPair(ev: Evaluator, vis: seq<Equation>, b: GraphBounds, width: real, height: real, i: nat, j: nat,
                  ghost mk: ((nat, nat)) -> seq<Marker>)
    returns (markers: seq<Marker>)
    requires Viewport.WellFormed(b) && i < |vis| && j < |vis|
    requires forall p {:trigger PairMarkers(ev, vis, b, width, height)(p)} :: mk(p) == PairMarkers(ev, vis, b, width, height)(p)
    ensures markers == mk((i, j))
  {
    var f1, f2 := Adapter(ev, vis[i].expression), Adapter(ev, vis[j].expression);
    var pts := FindIntersections(f1, f2, b.xMin, b.xMax, 200);
    markers := ToMarkers(b, width, height, pts);
    PairMarkersAt(ev, vis, b, width, height, i, j, mk);
  }

  /** The inner loop of the intersection pass: equation i against every later
      visible equation j, in order */
  method IntersectWithLater(ev: Evaluator, vis: seq<Equation>, b: GraphBounds, width: real, height: real, i: nat,
                            ghost mk: ((nat, nat)) -> seq<Marker>)
    returns (markers: seq<Marker>)
    requires Viewport.WellFormed(b) && i < |vis|
    requires forall p {:trigger PairMarkers(ev, vis, b, width, height)(p)} :: mk(p) == PairMarkers(ev, vis, b, width, height)(p)
    ensures markers == RowMarkers(mk, i, |vis|)
  {
    markers := [];
    var j := i + 1;
    while j < |vis|
      invariant i + 1 <= j <= |vis|
      invariant markers == RowMarkers(mk, i, j)
    {
      var m := MarkPair(ev, vis, b, width, height, i, j, mk);
      markers := markers + m;
      j := j + 1;
    }
  }

  /** The intersection pass of the draw effect: every pair i < j of visible
      equations, in loop order, each scanned with 200 sub-intervals. */
  method AllIntersectionMarkers(ev: Evaluator, eqs: seq<Equation>, b: GraphBounds, width: real, height: real)
    returns (markers: seq<Marker>)
    requires Viewport.WellFormed(b)
    ensures markers == MarkersOfPairs(PairMarkers(ev, Visible(eqs), b, width, height), Pairs(|Visible(eqs)|))
  {
    var vis := Visible(eqs);
    var n := |vis|;
    ghost var mk := PairMarkers(ev, vis, b, width, height);
    markers := [];
    var i := 0;
    while i < n
      invariant 0 <= i <= n
      invariant markers == MarkersOfPairs(mk, PairsBefore(n, i))
    {
      var row := IntersectWithLater(ev, vis, b, width, height, i, mk);
      NextRowMarkers(mk, n, i, markers, row);
      markers := markers + row;
      i := i + 1;
    }
  }
}
