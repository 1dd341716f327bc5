/**
 * The numeric layer of the range-slider component: clamping a value into
 * [min, max], converting between slider values and fractions of the track,
 * snapping a value to the step grid, and the percentage position of a
 * handle. JavaScript numbers are modelled as exact reals.
 */
module RangeSlider {
  import opened NumberFormat

  /** The component's props that the numeric layer reads. */
  datatype Props = Props(min: real, max: real, step: real, value: seq<real>)

  /** The step a slider has when none is given. */
  const DefaultStep: real := 1.0

  /** The handle values a slider has when none are given: no handles. */
  const DefaultValue: seq<real> := []

  /** The props of a slider mounted with only min and max. */
  function WithDefaults(min: real, max: real): (p: Props)
    ensures p.min == min && p.max == max
    ensures p.step == 1.0 && p.value == []
  {
    Props(min, max, DefaultStep, DefaultValue)
  }

  /** A usable configuration: a non-empty range and a positive step. */
  predicate WellFormed(p: Props) {
    p.min < p.max && p.step > 0.0
  }

  predicate InRange(p: Props, v: real) {
    p.min <= v <= p.max
  }

  function Abs(x: real): real {
    if x < 0.0 then -x else x
  }

  predicate Sorted(s: seq<real>) {
    forall i, j :: 0 <= i <= j < |s| ==> s[i] <= s[j]
  }

  /** Mounting with only min and max gives a usable slider with step 1 and no handles. */
  lemma DefaultsWellFormed(min: real, max: real)
    requires min < max
    ensures WellFormed(WithDefaults(min, max))
    ensures WithDefaults(min, max).step == 1.0
    ensures ValueFraction(WithDefaults(min, max)) == []
  {
  }

  // ---------------------------------------------------------------------
  // getEnforcedRange
  // ---------------------------------------------------------------------

  /** v forced into [min, max]. */
  function GetEnforcedRange(p: Props, v: real): (r: real)
    requires p.min <= p.max
    ensures InRange(p, r)
    ensures InRange(p, v) ==> r == v
    ensures v < p.min ==> r == p.min
    ensures v > p.max ==> r == p.max
  {
    if v < p.min then p.min else if v > p.max then p.max else v
  }

  /** No value of the range is closer to v than the enforced value. */
  lemma EnforcedRangeIsNearest(p: Props, v: real, w: real)
    requires p.min <= p.max
    requires InRange(p, w)
    ensures Abs(GetEnforcedRange(p, v) - v) <= Abs(w - v)
  {
  }

  lemma EnforcedRangeIdempotent(p: Props, v: real)
    requires p.min <= p.max
    ensures GetEnforcedRange(p, GetEnforcedRange(p, v)) == GetEnforcedRange(p, v)
  {
  }

  /** Enforcing the range never reverses the order of two values. */
  lemma EnforcedRangeMonotone(p: Props, v: real, w: real)
    requires p.min <= p.max
    requires v <= w
    ensures GetEnforcedRange(p, v) <= GetEnforcedRange(p, w)
  {
  }

  // ---------------------------------------------------------------------
  // getPositionFraction and valueFraction
  // ---------------------------------------------------------------------

  /** The fraction of the track at which v lies; not clamped. */
  function GetPositionFraction(p: Props, v: real): (f: real)
    requires p.min < p.max
    ensures p.min + f * (p.max - p.min) == v
    ensures 0.0 <= f <= 1.0 <==> InRange(p, v)
  {
    var d := p.max - p.min;
    var f := (v - p.min) / d;
    DivCancel(v - p.min, d);
    AffineOrder(p.min, d, 0.0, f, p.min, v);
    AffineOrder(p.min, d, f, 1.0, v, p.max);
    f
  }

  /** The fraction map is strictly increasing, in both directions. */
  lemma PositionFractionMonotone(p: Props, v: real, w: real)
    requires p.min < p.max
    ensures v <= w <==> GetPositionFraction(p, v) <= GetPositionFraction(p, w)
  {
    var f, g := GetPositionFraction(p, v), GetPositionFraction(p, w);
    AffineOrder(p.min, p.max - p.min, f, g, v, w);
  }

  /** The fractions of the given handle values, in the same order. */
  function Fractions(p: Props, values: seq<real>): (fs: seq<real>)
    requires p.min < p.max
    ensures |fs| == |values|
    ensures forall i :: 0 <= i < |values| ==> fs[i] == GetPositionFraction(p, values[i])
  {
    if values == [] then []
    else [GetPositionFraction(p, values[0])] + Fractions(p, values[1..])
  }

  /** The fractions of the slider's own handle values. */
  function ValueFraction(p: Props): (fs: seq<real>)
    requires p.min < p.max
    ensures |fs| == |p.value|
    ensures forall i :: 0 <= i < |fs| ==> p.min + fs[i] * (p.max - p.min) == p.value[i]
  {
    Fractions(p, p.value)
  }

  /** The handles are all within range exactly when their fractions all lie in [0, 1]. */
  lemma ValueFractionInUnit(p: Props)
    requires p.min < p.max
    ensures (forall i :: 0 <= i < |p.value| ==> InRange(p, p.value[i]))
        <==> (forall i :: 0 <= i < |ValueFraction(p)| ==> 0.0 <= ValueFraction(p)[i] <= 1.0)
  {
    var fs := ValueFraction(p);
    assert forall i :: 0 <= i < |fs| ==> fs[i] == GetPositionFraction(p, p.value[i]);
  }

  /** Handles in ascending order have fractions in ascending order, and only then. */
  lemma ValueFractionSorted(p: Props)
    requires p.min < p.max
    ensures Sorted(p.value) <==> Sorted(ValueFraction(p))
  {
    var fs := ValueFraction(p);
    forall i, j | 0 <= i <= j < |fs|
      ensures p.value[i] <= p.value[j] <==> fs[i] <= fs[j]
    {
      PositionFractionMonotone(p, p.value[i], p.value[j]);
    }
  }

  // ---------------------------------------------------------------------
  // getValueFromFraction
  // ---------------------------------------------------------------------

  /** The slider value at fraction f of the track, forced into [min, max]. */
  function GetValueFromFraction(p: Props, f: real): (r: real)
    requires p.min <= p.max
    ensures InRange(p, r)
    ensures 0.0 <= f <= 1.0 ==> r == p.min + f * (p.max - p.min)
    ensures f < 0.0 ==> r == p.min
    ensures f > 1.0 ==> r == p.max
  {
    var d := p.max - p.min;
    var v := p.min + f * d;
    if d == 0.0 then
      // An empty range: every fraction lands on min.
      GetEnforcedRange(p, v)
    else
      AffineOrder(p.min, d, 0.0, f, p.min, v);
      AffineOrder(p.min, d, f, 1.0, v, p.max);
      GetEnforcedRange(p, v)
  }

  /** From a value in range to its fraction and back gives the value again. */
  lemma ValueFractionValueRoundTrip(p: Props, v: real)
    requires p.min < p.max
    requires InRange(p, v)
    ensures GetValueFromFraction(p, GetPositionFraction(p, v)) == v
  {
  }

  /** From a fraction in [0, 1] to its value and back gives the fraction again. */
  lemma FractionValueFractionRoundTrip(p: Props, f: real)
    requires p.min < p.max
    requires 0.0 <= f <= 1.0
    ensures GetPositionFraction(p, GetValueFromFraction(p, f)) == f
  {
    var v := GetValueFromFraction(p, f);
    var g := GetPositionFraction(p, v);
    AffineOrder(p.min, p.max - p.min, f, g, v, v);
    AffineOrder(p.min, p.max - p.min, g, f, v, v);
  }

  /** A fraction outside [0, 1] gives the value of the nearer end of the track. */
  lemma ValueFromFractionClampsFraction(p: Props, f: real)
    requires p.min < p.max
    ensures GetValueFromFraction(p, f)
         == GetValueFromFraction(p, if f < 0.0 then 0.0 else if f > 1.0 then 1.0 else f)
  {
  }

  // ---------------------------------------------------------------------
  // roundToNearest
  // ---------------------------------------------------------------------

  /** v is a whole number of steps from 0. */
  predicate OnStepGrid(p: Props, v: real)
    requires p.step > 0.0
  {
    IsIntegral(v / p.step)
  }

  /**
   * The multiple of step nearest to v, a tie going to the larger one: r is
   * a whole number of steps, and v lies from half a step below r up to (but
   * not including) half a step above it. Measured in steps, so that the
   * contract is free of products with the step. The result is not forced
   * into [min, max].
   */
  function RoundToNearest(p: Props, v: real): (r: real)
    requires p.step > 0.0
    ensures OnStepGrid(p, r)
    ensures r / p.step - 0.5 <= v / p.step < r / p.step + 0.5
  {
    var k := (v / p.step + 0.5).Floor;
    StepCount(p, v / p.step, k);
    k as real * p.step
  }

  /** The two properties of RoundToNearest single out its result among all reals. */
  lemma RoundToNearestUnique(p: Props, v: real, w: real)
    requires p.step > 0.0
    requires OnStepGrid(p, w)
    requires w / p.step - 0.5 <= v / p.step < w / p.step + 0.5
    ensures w == RoundToNearest(p, v)
  {
    var j := GridIndex(p, w);
    RoundToNearestCount(p, v, j);
  }

  /** In the slider's own units: the result is at most half a step from v. */
  lemma RoundToNearestWithinHalfStep(p: Props, v: real)
    requires p.step > 0.0
    ensures Abs(RoundToNearest(p, v) - v) <= p.step / 2.0
  {
    var r := RoundToNearest(p, v);
    var s := p.step;
    DivCancel(r, s);
    DivCancel(v, s);
    ScaleHalfUnit(s, r, v, r / s, v / s);
  }

  /** No multiple of step is nearer to v than RoundToNearest(v). */
  lemma RoundToNearestIsNearest(p: Props, v: real, w: real)
    requires p.step > 0.0
    requires OnStepGrid(p, w)
    ensures Abs(RoundToNearest(p, v) - v) <= Abs(w - v)
  {
    var s := p.step;
    var r := RoundToNearest(p, v);
    var j := GridIndex(p, w);
    var k := GridIndex(p, r);
    NearestWholeNumber(v / s, k, j);
    DivCancel(r, s);
    DivCancel(v, s);
    DivCancel(w, s);
    ScaleDistance(s, r, v, w, r / s, v / s, w / s);
  }

  /** A value already on the step grid is left as it is. */
  lemma RoundToNearestFixesGrid(p: Props, v: real)
    requires p.step > 0.0
    requires OnStepGrid(p, v)
    ensures RoundToNearest(p, v) == v
  {
    RoundToNearestUnique(p, v, v);
  }

  lemma RoundToNearestIdempotent(p: Props, v: real)
    requires p.step > 0.0
    ensures RoundToNearest(p, RoundToNearest(p, v)) == RoundToNearest(p, v)
  {
    RoundToNearestFixesGrid(p, RoundToNearest(p, v));
  }

  /** Rounding never reverses the order of two values. */
  lemma RoundToNearestMonotone(p: Props, v: real, w: real)
    requires p.step > 0.0
    requires v <= w
    ensures RoundToNearest(p, v) <= RoundToNearest(p, w)
  {
    var s := p.step;
    var a, b := RoundToNearest(p, v), RoundToNearest(p, w);
    DivCancel(v, s);
    DivCancel(w, s);
    ScaleOrder(v / s, w / s, s);
    var i := GridIndex(p, a);
    var j := GridIndex(p, b);
    assert i < j + 1;
    ScaleOrder(i as real, j as real, s);
  }

  // ---------------------------------------------------------------------
  // getPosition
  // ---------------------------------------------------------------------

  /** The CSS percentage at which the handle for v is drawn. */
  function GetPosition(p: Props, v: real): (r: Option<string>)
    requires p.min < p.max
    ensures r.Some? <==> IsIntegral(GetPositionFraction(p, v) * 100.0)
                         && -PlainLimit < GetPositionFraction(p, v) * 100.0 < PlainLimit
    ensures r.Some? ==>
              && |r.value| >= 2
              && r.value[|r.value| - 1] == '%'
              && IsIntegerText(r.value[..|r.value| - 1])
              && ParseInteger(r.value[..|r.value| - 1]) as real == GetPositionFraction(p, v) * 100.0
  {
    match FormatNumber(GetPositionFraction(p, v) * 100.0)
    case Some(text) =>
      assert (text + "%")[..|text|] == text;
      Some(text + "%")
    case None => None
  }

  /** A handle in range is drawn between 0% and 100%, and at a text exactly when its percentage is whole. */
  lemma PositionInRange(p: Props, v: real)
    requires p.min < p.max
    requires InRange(p, v)
    ensures GetPosition(p, v).Some? <==> IsIntegral(GetPositionFraction(p, v) * 100.0)
    ensures GetPosition(p, v).Some? ==>
              0 <= ParseInteger(GetPosition(p, v).value[..|GetPosition(p, v).value| - 1]) <= 100
  {
  }

  // ---------------------------------------------------------------------
  // Facts of real arithmetic that the proofs above use one at a time
  // ---------------------------------------------------------------------

  /** Multiplying by a positive number keeps an order, in both directions. */
  lemma ScaleOrder(a: real, b: real, d: real)
    requires d > 0.0
    ensures a <= b <==> a * d <= b * d
  {
    assert b * d - a * d == (b - a) * d;
  }

  /** An increasing affine map with positive slope d keeps and reflects order. */
  lemma AffineOrder(m: real, d: real, f: real, g: real, v: real, w: real)
    requires d > 0.0
    requires m + f * d == v && m + g * d == w
    ensures v <= w <==> f <= g
  {
    ScaleOrder(f, g, d);
  }

  /** Dividing by a non-zero number is undone by multiplying by it. */
  lemma DivCancel(a: real, s: real)
    requires s != 0.0
    ensures (a / s) * s == a
  {
  }

  /** Multiplying by a non-zero number is undone by dividing by it. */
  lemma MulCancel(a: real, s: real)
    requires s != 0.0
    ensures (a * s) / s == a
  {
  }

  /** Two numbers within half a unit of each other, scaled by s, are within s / 2. */
  lemma ScaleHalfUnit(s: real, a: real, b: real, x: real, y: real)
    requires s > 0.0
    requires x * s == a && y * s == b
    requires Abs(x - y) <= 0.5
    ensures Abs(a - b) <= s / 2.0
  {
    var t := x - y;
    assert a - b == t * s;
    assert 0.5 * s == s / 2.0;
    if t >= 0.0 {
      ScaleOrder(0.0, t, s);
      ScaleOrder(t, 0.5, s);
    } else {
      ScaleOrder(t, 0.0, s);
      ScaleOrder(-t, 0.5, s);
      assert -t <= 0.5;
      assert (-t) * s <= 0.5 * s;
      assert a - b <= 0.0;
      assert Abs(a - b) == (-t) * s;
    }
  }

  /** k steps from 0 is on the grid; when x rounds half up to k, x is within half a unit of it. */
  lemma StepCount(p: Props, x: real, k: int)
    requires p.step > 0.0
    requires k as real <= x + 0.5 < k as real + 1.0
    ensures OnStepGrid(p, k as real * p.step)
    ensures (k as real * p.step) / p.step - 0.5 <= x < (k as real * p.step) / p.step + 0.5
  {
    MulCancel(k as real, p.step);
  }

  /** A point on the grid is a whole number of steps from 0. */
  lemma GridIndex(p: Props, w: real) returns (j: int)
    requires p.step > 0.0
    requires OnStepGrid(p, w)
    ensures j as real == w / p.step
    ensures w == j as real * p.step
  {
    j := (w / p.step).Floor;
    DivCancel(w, p.step);
  }

  /** RoundToNearest(v) is j steps when v's step count rounds half up to j. */
  lemma RoundToNearestCount(p: Props, v: real, j: int)
    requires p.step > 0.0
    requires j as real - 0.5 <= v / p.step < j as real + 0.5
    ensures RoundToNearest(p, v) == j as real * p.step
  {
    var x := v / p.step + 0.5;
    assert j as real <= x < j as real + 1.0;
    assert x.Floor == j;
  }

  /** A whole number within half a unit of x is at least as near to x as any other. */
  lemma NearestWholeNumber(x: real, k: int, j: int)
    requires k as real - 0.5 <= x < k as real + 0.5
    ensures Abs(k as real - x) <= Abs(j as real - x)
  {
    if j < k {
      assert j as real <= k as real - 1.0;
    } else if j > k {
      assert j as real >= k as real + 1.0;
    }
  }

  /** Distances compared in units of a positive step compare the same way unscaled. */
  lemma ScaleDistance(s: real, a: real, b: real, c: real, x: real, y: real, z: real)
    requires s > 0.0
    requires x * s == a && y * s == b && z * s == c
    requires Abs(x - y) <= Abs(z - y)
    ensures Abs(a - b) <= Abs(c - b)
  {
    ScaleOrder(x - y, z - y, s);
    ScaleOrder(x - y, y - z, s);
    ScaleOrder(y - x, z - y, s);
    ScaleOrder(y - x, y - z, s);
    ScaleOrder(x, y, s);
    ScaleOrder(z, y, s);
  }
}
