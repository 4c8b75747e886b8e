/** The records of src/types/index.ts and the evaluator interface shared by the core. */
module Types {

  datatype Option<+T> = None | Some(value: T)

  /** `a ?? fallback` on a value that may be null */
  function OrElse(o: Option<real>, fallback: real): real
  {
    if o.Some? then o.value else fallback
  }

  datatype Point = Point(x: real, y: real)

  datatype GraphBounds = GraphBounds(xMin: real, xMax: real, yMin: real, yMax: real)

  datatype GraphStyle = GraphStyle(color: string, lineWidth: real)

  datatype CurveKind = Explicit | Implicit | Polar

  datatype Equation = Equation(id: string, expression: string, kind: CurveKind, style: GraphStyle, visible: bool)

  datatype ExtremumKind = Max | Min

  datatype Extremum = Extremum(x: real, y: real, kind: ExtremumKind)

  /** An intersection point together with its screen position when it was drawn */
  datatype Marker = Marker(x: real, y: real, sx: real, sy: real)

  /** What the expression evaluator yields at one x: a finite number, some other
      value (a complex number, a matrix, NaN, an infinity), or an exception. */
  datatype EvalOutcome = Value(v: real) | NonNumber | Throws

  /** The expression evaluator, as a function of the expression text and x */
  type Evaluator = (string, real) -> EvalOutcome

  /** The guarded evaluation used by the graph component: an exception, a
      non-number and a non-finite number all become null. */
  function Defined(ev: Evaluator, expression: string, x: real): Option<real>
  {
    match ev(expression, x)
    case Value(y) => Some(y)
    case _ => None
  }

  /** The closure `x => Defined(ev, expression, x)` handed to the finders */
  function Adapter(ev: Evaluator, expression: string): real -> Option<real>
  {
    x => Defined(ev, expression, x)
  }

  /** JavaScript truthiness of an optional string: null and "" are false */
  predicate IsSet(id: Option<string>)
  {
    id.Some? && id.value != ""
  }

  /** `Array.prototype.findIndex`: the first position whose element satisfies p */
  function Find<T>(s: seq<T>, p: T -> bool): (r: Option<nat>)
    ensures r.Some? ==> r.value < |s| && p(s[r.value])
    ensures r.Some? ==> forall k :: 0 <= k < r.value ==> !p(s[k])
    ensures r.None? <==> forall k :: 0 <= k < |s| ==> !p(s[k])
  {
    if |s| == 0 then None
    else if p(s[0]) then Some(0)
    else match Find(s[1..], p)
      case None => None
      case Some(k) => Some(k + 1)
  }

  /** A position that satisfies p, after none that does, is what Find
      returns. */
  lemma FindFirst<T>(s: seq<T>, p: T -> bool, i: nat)
    requires i < |s| && p(s[i])
    requires forall k :: 0 <= k < i ==> !p(s[k])
    ensures Find(s, p) == Some(i)
  {
  }

  /** The predicate `e => e.id === id` */
  function HasId(id: string): Equation -> bool
  {
    (e: Equation) => e.id == id
  }

  function Abs(r: real): real
  {
    if r < 0.0 then -r else r
  }
}
