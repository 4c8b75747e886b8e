/** Axis tick planning of src/components/Graph.tsx: the "nice" step and the
    grid-line loops. `Math.log10`/`Math.pow` become an exact integer exponent. */
module Ticks {

  /** 10^k for any integer k */
  function Pow10(k: int): (r: real)
    ensures r > 0.0
    decreases if k >= 0 then k else -k
  {
    if k == 0 then 1.0
    else if k > 0 then 10.0 * Pow10(k - 1)
    else Pow10(k + 1) / 10.0
  }

  lemma Pow10Succ(k: int)
    ensures Pow10(k + 1) == 10.0 * Pow10(k)
  {
  }

  lemma {:induction false} Pow10Monotone(j: int, k: int)
    requires j <= k
    ensures Pow10(j) <= Pow10(k)
    decreases k - j
  {
    if j < k {
      Pow10Succ(j);
      Pow10Monotone(j + 1, k);
    }
  }

  /** floor(log10(r)): the exponent k with 10^k <= r < 10^(k+1) */
  function Log10Floor(r: real): (k: int)
    requires r > 0.0
    ensures Pow10(k) <= r < Pow10(k + 1)
    decreases if r >= 10.0 then r.Floor else if r < 1.0 then (1.0 / r).Floor else 0
  {
    if r >= 10.0 then
      assert (r / 10.0).Floor < r.Floor;
      var k := Log10Floor(r / 10.0);
      Pow10Succ(k);
      Pow10Succ(k + 1);
      k + 1
    else if r < 1.0 then
      assert 1.0 / r > 1.0;
      assert r * 10.0 < 1.0 ==> 1.0 / (r * 10.0) == (1.0 / r) / 10.0 && (1.0 / r) >= 10.0;
      var k := Log10Floor(r * 10.0);
      Pow10Succ(k - 1);
      Pow10Succ(k);
      k - 1
    else
      0
  }

  /** The exponent satisfying 10^k <= r < 10^(k+1) is unique. */
  lemma Log10FloorUnique(r: real, k: int)
    requires r > 0.0
    requires Pow10(k) <= r < Pow10(k + 1)
    ensures Log10Floor(r) == k
  {
    var m := Log10Floor(r);
    if m < k {
      Pow10Monotone(m + 1, k);
    } else if m > k {
      Pow10Monotone(k + 1, m);
    }
  }

  /** step is 1, 2 or 5 times 10^k */
  predicate NiceAt(step: real, k: int)
  {
    step == Pow10(k) || step == 2.0 * Pow10(k) || step == 5.0 * Pow10(k)
  }

  /** A step of the form 1, 2 or 5 times a power of ten */
  ghost predicate IsNice(step: real)
  {
    exists k: int :: NiceAt(step, k)
  }

  /** The multiplier chosen for a leading digit value msd in [1, 10) */
  function Multiplier(msd: real): real
  {
    if msd > 5.0 then 5.0 else if msd > 2.0 then 2.0 else 1.0
  }

  /** niceStep(range, targetTicks): round range/targetTicks down to 1, 2 or 5
      times its power of ten. */
  function NiceStep(range: real, targetTicks: real): (step: real)
    requires range > 0.0 && targetTicks > 0.0
    ensures step > 0.0
  {
    Rounded(range / targetTicks)
  }

  /** The rough step rounded down to 1, 2 or 5 times its power of ten */
  function Rounded(rough: real): real
    requires rough > 0.0
  {
    Scaled(rough, Pow10(Log10Floor(rough)))
  }

  /** The multiplier for the leading digit value rough / mag, times mag */
  function Scaled(rough: real, mag: real): real
    requires mag > 0.0
  {
    Multiplier(rough / mag) * mag
  }

  /** The step is 1, 2 or 5 times a power of ten and lies between 2/5 of the
      rough step range/targetTicks and the rough step itself. */
  lemma NiceStepIsNice(range: real, targetTicks: real)
    requires range > 0.0 && targetTicks > 0.0
    ensures IsNice(NiceStep(range, targetTicks))
    ensures 2.0 / 5.0 * (range / targetTicks) <= NiceStep(range, targetTicks) <= range / targetTicks
  {
    var rough := range / targetTicks;
    var k := Log10Floor(rough);
    LeadingDigit(rough, k);
    StepBounds(rough, Pow10(k));
    assert NiceAt(Rounded(rough), k);
  }

  lemma DivLess(a: real, b: real, c: real)
    requires c > 0.0
    ensures a / c < b <==> a < b * c
    ensures a / c <= b <==> a <= b * c
    ensures b <= a / c <==> b * c <= a
  {
    var q := a / c;
    assert q * c == a;
    if q < b {
      assert q * c < b * c;
    }
    if b * c <= a {
      assert b <= q;
    }
  }

  lemma LeadingDigit(rough: real, k: int)
    requires rough > 0.0 && Pow10(k) <= rough < Pow10(k + 1)
    ensures 1.0 <= rough / Pow10(k) < 10.0
  {
    Pow10Succ(k);
    DivLess(rough, 10.0, Pow10(k));
    DivLess(rough, 1.0, Pow10(k));
  }

  lemma StepBounds(rough: real, mag: real)
    requires mag > 0.0 && 1.0 <= rough / mag < 10.0
    ensures 2.0 / 5.0 * rough <= Scaled(rough, mag) <= rough
    ensures Scaled(rough, mag) == mag || Scaled(rough, mag) == 2.0 * mag || Scaled(rough, mag) == 5.0 * mag
  {
    var msd := rough / mag;
    assert msd * mag == rough;
    if msd > 5.0 {
      assert 5.0 * mag <= msd * mag;
    } else if msd > 2.0 {
      assert 2.0 * mag <= msd * mag;
      assert 2.0 / 5.0 * msd * mag <= 2.0 * mag;
    } else {
      assert 1.0 * mag <= msd * mag;
      assert 2.0 / 5.0 * msd * mag <= 1.0 * mag;
    }
  }

  /** For a fixed tick count, a larger range never gets a smaller step. */
  lemma NiceStepMonotone(range1: real, range2: real, targetTicks: real)
    requires 0.0 < range1 <= range2 && targetTicks > 0.0
    ensures NiceStep(range1, targetTicks) <= NiceStep(range2, targetTicks)
  {
    var rough1, rough2 := range1 / targetTicks, range2 / targetTicks;
    DivLess(range1, rough2, targetTicks);
    assert rough2 * targetTicks == range2;
    RoundedMonotone(rough1, rough2);
  }

  lemma RoundedMonotone(rough1: real, rough2: real)
    requires 0.0 < rough1 <= rough2
    ensures Rounded(rough1) <= Rounded(rough2)
  {
    var k1, k2 := Log10Floor(rough1), Log10Floor(rough2);
    if k1 > k2 {
      Pow10Monotone(k2 + 1, k1);
      assert false;
    }
    if k1 < k2 {
      StepAcrossDecade(rough1, rough2, k1, k2);
    } else {
      StepWithinDecade(rough1, rough2, Pow10(k1));
    }
  }

  lemma StepAcrossDecade(rough1: real, rough2: real, k1: int, k2: int)
    requires k1 < k2
    ensures Scaled(rough1, Pow10(k1)) <= Scaled(rough2, Pow10(k2))
  {
    Pow10Succ(k1);
    Pow10Monotone(k1 + 1, k2);
    ScaledBetween(rough1, Pow10(k1));
    ScaledBetween(rough2, Pow10(k2));
  }

  /** The rounded step is between 1 and 5 times its magnitude. */
  lemma ScaledBetween(rough: real, mag: real)
    requires mag > 0.0
    ensures mag <= Scaled(rough, mag) <= 5.0 * mag
  {
  }

  lemma StepWithinDecade(rough1: real, rough2: real, mag: real)
    requires rough1 <= rough2 && mag > 0.0
    ensures Scaled(rough1, mag) <= Scaled(rough2, mag)
  {
    DivLess(rough1, rough2 / mag, mag);
    assert rough2 / mag * mag == rough2;
    var m1, m2 := Multiplier(rough1 / mag), Multiplier(rough2 / mag);
    assert m1 <= m2;
    assert m1 * mag <= m2 * mag;
  }

  /** The two worked examples: niceStep(20, 10) = 1 and niceStep(100, 10) = 10. */
  lemma NiceStepExamples()
    ensures NiceStep(20.0, 10.0) == 1.0
    ensures NiceStep(100.0, 10.0) == 10.0
  {
    Log10FloorUnique(2.0, 0);
    Pow10Succ(0);
    Log10FloorUnique(10.0, 1);
  }

  /** Math.ceil */
  function Ceil(r: real): (c: int)
    ensures r <= c as real < r + 1.0
  {
    -((-r).Floor)
  }

  /** The integer multiple m * step; names the tick values */
  function Multiple(m: int, step: real): real
  {
    m as real * step
  }

  lemma MultipleBelow(m: int, step: real, hi: real)
    requires step > 0.0 && Multiple(m, step) <= hi
    ensures m <= (hi / step).Floor
  {
    DivLess(hi, m as real, step);
  }

  lemma MultipleMonotone(m: int, n: int, step: real)
    requires step > 0.0
    ensures m < n <==> Multiple(m, step) < Multiple(n, step)
  {
    if m < n {
      assert (n - m) as real * step > 0.0;
    } else {
      assert (m - n) as real * step >= 0.0;
    }
  }

  /** ceil(lo / step) * step is the least multiple of step at or above lo */
  lemma FirstMultiple(lo: real, step: real)
    requires step > 0.0
    ensures lo <= Multiple(Ceil(lo / step), step)
    ensures Multiple(Ceil(lo / step) - 1, step) < lo
  {
    var c := Ceil(lo / step);
    DivLess(lo, c as real, step);
    DivLess(lo, (c - 1) as real, step);
  }

  lemma MultipleNext(m: int, step: real)
    ensures Multiple(m + 1, step) == Multiple(m, step) + step
  {
  }

  /** Ticks that are the consecutive multiples first, first + 1, ... of step */
  predicate Consecutive(ticks: seq<real>, first: int, step: real)
  {
    forall i :: 0 <= i < |ticks| ==> ticks[i] == Multiple(first + i, step)
  }

  /** Consecutive multiples starting at the first one at or above lo and
      stopping before the first one above hi include every multiple in
      [lo, hi]. */
  lemma ConsecutiveComplete(ticks: seq<real>, lo: real, hi: real, step: real, m: int)
    requires step > 0.0 && Consecutive(ticks, Ceil(lo / step), step)
    requires hi < Multiple(Ceil(lo / step) + |ticks|, step)
    requires lo <= Multiple(m, step) <= hi
    ensures Multiple(m, step) in ticks
  {
    var first := Ceil(lo / step);
    FirstMultiple(lo, step);
    MultipleMonotone(first - 1, m, step);
    MultipleMonotone(m, first + |ticks|, step);
    assert ticks[m - first] == Multiple(m, step);
  }

  /** Consecutive multiples of a positive step increase strictly. */
  lemma ConsecutiveIncreasing(ticks: seq<real>, first: int, step: real, i: int, j: int)
    requires step > 0.0 && Consecutive(ticks, first, step) && 0 <= i < j < |ticks|
    ensures ticks[i] < ticks[j]
  {
    MultipleMonotone(first + i, first + j, step);
  }

  /** The grid-line loop `for (x = ceil(lo/step)*step; x <= hi; x += step)`:
      every tick is a multiple of step inside [lo, hi], every such multiple is a
      tick, and the ticks are strictly increasing. */
  method TickPositions(lo: real, hi: real, step: real) returns (ticks: seq<real>)
    requires step > 0.0
    ensures forall i :: 0 <= i < |ticks| ==> ticks[i] == Multiple(Ceil(lo / step) + i, step)
    ensures forall i :: 0 <= i < |ticks| ==> lo <= ticks[i] <= hi
    ensures forall m: int :: lo <= Multiple(m, step) <= hi ==> Multiple(m, step) in ticks
    ensures forall i, j :: 0 <= i < j < |ticks| ==> ticks[i] < ticks[j]
  {
    var first := Ceil(lo / step);
    FirstMultiple(lo, step);
    var x := Multiple(first, step);
    ticks := [];
    while x <= hi
      invariant x == Multiple(first + |ticks|, step)
      invariant Consecutive(ticks, first, step)
      invariant forall i :: 0 <= i < |ticks| ==> lo <= ticks[i] <= hi
      invariant lo <= x
      decreases (hi / step).Floor - first - |ticks|
    {
      MultipleBelow(first + |ticks|, step, hi);
      MultipleNext(first + |ticks|, step);
      ticks := ticks + [x];
      x := x + step;
    }
    forall m: int | lo <= Multiple(m, step) <= hi
      ensures Multiple(m, step) in ticks
    {
      ConsecutiveComplete(ticks, lo, hi, step, m);
    }
    forall i, j | 0 <= i < j < |ticks|
      ensures ticks[i] < ticks[j]
    {
      ConsecutiveIncreasing(ticks, first, step, i, j);
    }
  }
}
