/** The graph slice of the store (src/store/graphSlice.ts): the state record
    and its reducers, which update the draft state in place. */
module GraphSlice {
  import opened Types

  /** The ids of a list of equations, in order */
  function Ids(eqs: seq<Equation>): (r: seq<string>)
    ensures |r| == |eqs|
    ensures forall k :: 0 <= k < |eqs| ==> r[k] == eqs[k].id
  {
    if |eqs| == 0 then [] else Ids(eqs[..|eqs| - 1]) + [eqs[|eqs| - 1].id]
  }

  /** No two equations share an id. */
  predicate UniqueIds(eqs: seq<Equation>)
  {
    forall j, k :: 0 <= j < k < |eqs| ==> eqs[j].id != eqs[k].id
  }

  /** equations.filter(eq => eq.id !== id) */
  function Without(eqs: seq<Equation>, id: string): seq<Equation>
  {
    if |eqs| == 0 then []
    else Without(eqs[..|eqs| - 1], id) + (if eqs[|eqs| - 1].id != id then [eqs[|eqs| - 1]] else [])
  }

  /** An equation survives the filter exactly when it was there and has a
      different id; the filter never lengthens the list. */
  lemma {:induction false} WithoutExactly(eqs: seq<Equation>, id: string, e: Equation)
    ensures e in Without(eqs, id) <==> e in eqs && e.id != id
    ensures |Without(eqs, id)| <= |eqs|
  {
    if |eqs| > 0 {
      var init := eqs[..|eqs| - 1];
      WithoutExactly(init, id, e);
      assert eqs == init + [eqs[|eqs| - 1]];
    }
  }

  /** The filter works piecewise, so the survivors keep their original order. */
  lemma {:induction false} WithoutConcat(a: seq<Equation>, b: seq<Equation>, id: string)
    ensures Without(a + b, id) == Without(a, id) + Without(b, id)
    decreases |b|
  {
    if |b| == 0 {
      assert a + b == a;
    } else {
      var init := b[..|b| - 1];
      assert (a + b)[..|a + b| - 1] == a + init;
      WithoutConcat(a, init, id);
    }
  }

  /** Removing an id that is not present changes nothing. */
  lemma {:induction false} WithoutAbsent(eqs: seq<Equation>, id: string)
    requires forall k :: 0 <= k < |eqs| ==> eqs[k].id != id
    ensures Without(eqs, id) == eqs
  {
    if |eqs| > 0 {
      WithoutAbsent(eqs[..|eqs| - 1], id);
    }
  }

  /** The filter keeps unique ids unique. */
  lemma WithoutUnique(eqs: seq<Equation>, id: string)
    requires UniqueIds(eqs)
    ensures UniqueIds(Without(eqs, id))
  {
    var r := Without(eqs, id);
    forall j, k | 0 <= j < k < |r|
      ensures r[j].id != r[k].id
    {
      SubsequenceOrder(eqs, id, j, k);
    }
  }

  /** Two surviving positions j < k come from two original positions in the
      same order. */
  lemma {:induction false} SubsequenceOrder(eqs: seq<Equation>, id: string, j: nat, k: nat)
    requires j < k < |Without(eqs, id)|
    ensures exists p, q :: 0 <= p < q < |eqs| && Without(eqs, id)[j] == eqs[p] && Without(eqs, id)[k] == eqs[q]
  {
    var init := eqs[..|eqs| - 1];
    var prefix := Without(init, id);
    var r := Without(eqs, id);
    assert r == prefix + (if eqs[|eqs| - 1].id != id then [eqs[|eqs| - 1]] else []);
    if k < |prefix| {
      SubsequenceOrder(init, id, j, k);
      var p, q :| 0 <= p < q < |init| && prefix[j] == init[p] && prefix[k] == init[q];
      assert r[j] == eqs[p] && r[k] == eqs[q];
    } else {
      WithoutExactly(init, id, r[j]);
      assert r[j] == prefix[j];
      assert r[j] in init;
      var p :| 0 <= p < |init| && init[p] == r[j];
      assert r[j] == eqs[p] && r[k] == eqs[|eqs| - 1];
    }
  }

  /** The first equation with the payload's id replaced by the payload; no
      match leaves the list as it is */
  function ReplaceFirst(eqs: seq<Equation>, e: Equation): seq<Equation>
  {
    match Find(eqs, HasId(e.id))
    case None => eqs
    case Some(i) => eqs[i := e]
  }

  /** Only the first matching position changes, the length and every id stay
      the same, and with no match nothing changes. */
  lemma ReplaceFirstSpec(eqs: seq<Equation>, e: Equation)
    ensures |ReplaceFirst(eqs, e)| == |eqs|
    ensures Ids(ReplaceFirst(eqs, e)) == Ids(eqs)
    ensures (forall k :: 0 <= k < |eqs| ==> eqs[k].id != e.id) ==> ReplaceFirst(eqs, e) == eqs
    ensures forall i :: 0 <= i < |eqs| && eqs[i].id == e.id && (forall k :: 0 <= k < i ==> eqs[k].id != e.id) ==>
              ReplaceFirst(eqs, e) == eqs[i := e]
  {
    var r := ReplaceFirst(eqs, e);
    var found := Find(eqs, HasId(e.id));
    if found.Some? {
      assert HasId(e.id)(eqs[found.value]);
    }
    forall i | 0 <= i < |eqs| && eqs[i].id == e.id && (forall k :: 0 <= k < i ==> eqs[k].id != e.id)
      ensures r == eqs[i := e]
    {
      assert HasId(e.id)(eqs[i]);
    }
    assert Ids(r) == Ids(eqs);
  }

  /** The replacement keeps unique ids unique. */
  lemma ReplaceFirstUnique(eqs: seq<Equation>, e: Equation)
    requires UniqueIds(eqs)
    ensures UniqueIds(ReplaceFirst(eqs, e))
  {
    ReplaceFirstSpec(eqs, e);
    var r := ReplaceFirst(eqs, e);
    assert forall k :: 0 <= k < |r| ==> r[k].id == Ids(r)[k] == Ids(eqs)[k] == eqs[k].id;
  }

  /** Appending an equation whose id is not yet used keeps ids unique. */
  lemma AppendUnique(eqs: seq<Equation>, e: Equation)
    requires UniqueIds(eqs) && e.id !in Ids(eqs)
    ensures UniqueIds(eqs + [e])
  {
    forall k | 0 <= k < |eqs|
      ensures eqs[k].id != e.id
    {
      assert Ids(eqs)[k] == eqs[k].id;
    }
  }

  /** The slice state: the equations, the visible bounds, zoom and pan */
  class GraphStore {
    var equations: seq<Equation>
    var bounds: GraphBounds
    var zoom: real
    var pan: Point

    /** initialState: no equations, [-10, 10] x [-10, 10], zoom 1, pan (0, 0) */
    constructor ()
      ensures equations == [] && bounds == GraphBounds(-10.0, 10.0, -10.0, 10.0)
      ensures zoom == 1.0 && pan == Point(0.0, 0.0)
    {
      equations := [];
      bounds := GraphBounds(-10.0, 10.0, -10.0, 10.0);
      zoom := 1.0;
      pan := Point(0.0, 0.0);
    }

    /** addEquation: push the payload */
    method AddEquation(e: Equation)
      modifies this
      ensures equations == old(equations) + [e]
      ensures bounds == old(bounds) && zoom == old(zoom) && pan == old(pan)
      ensures UniqueIds(old(equations)) && e.id !in Ids(old(equations)) ==> UniqueIds(equations)
    {
      if UniqueIds(equations) && e.id !in Ids(equations) {
        AppendUnique(equations, e);
      }
      equations := equations + [e];
    }

    /** removeEquation: keep the equations with a different id */
    method RemoveEquation(id: string)
      modifies this
      ensures equations == Without(old(equations), id)
      ensures bounds == old(bounds) && zoom == old(zoom) && pan == old(pan)
      ensures UniqueIds(old(equations)) ==> UniqueIds(equations)
    {
      if UniqueIds(equations) {
        WithoutUnique(equations, id);
      }
      equations := Without(equations, id);
    }

    /** updateEquation: overwrite the first equation with the payload's id */
    method UpdateEquation(e: Equation)
      modifies this
      ensures equations == ReplaceFirst(old(equations), e)
      ensures bounds == old(bounds) && zoom == old(zoom) && pan == old(pan)
      ensures UniqueIds(old(equations)) ==> UniqueIds(equations)
    {
      if UniqueIds(equations) {
        ReplaceFirstUnique(equations, e);
      }
      var index := Find(equations, HasId(e.id));
      if index.Some? {
        equations := equations[index.value := e];
      }
    }

    method SetBounds(b: GraphBounds)
      modifies this
      ensures bounds == b
      ensures equations == old(equations) && zoom == old(zoom) && pan == old(pan)
    {
      bounds := b;
    }

    method SetZoom(z: real)
      modifies this
      ensures zoom == z
      ensures equations == old(equations) && bounds == old(bounds) && pan == old(pan)
    {
      zoom := z;
    }

    method SetPan(p: Point)
      modifies this
      ensures pan == p
      ensures equations == old(equations) && bounds == old(bounds) && zoom == old(zoom)
    {
      pan := p;
    }
  }
}
