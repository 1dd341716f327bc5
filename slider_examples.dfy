/**
 * The behaviour the component's unit tests pin down, for a slider mounted
 * with min 5 and max 15, stated as facts about the model.
 */
module RangeSliderExamples {
  import opened NumberFormat
  import opened RangeSlider

  /** The slider the tests mount: min 5, max 15, every other prop defaulted. */
  function Mounted(): (p: Props)
    ensures p.min == 5.0 && p.max == 15.0
    ensures p.step == DefaultStep && p.value == DefaultValue
  {
    WithDefaults(5.0, 15.0)
  }

  lemma MountedDefaults()
    ensures Mounted().value == []
    ensures Mounted().step == 1.0
    ensures WellFormed(Mounted())
  {
  }

  lemma ValueFractionExample()
    ensures ValueFraction(Mounted().(value := [5.0, 10.0, 15.0])) == [0.0, 0.5, 1.0]
  {
    var p := Mounted().(value := [5.0, 10.0, 15.0]);
    var fs := ValueFraction(p);
    assert fs[0] == 0.0 && fs[1] == 0.5 && fs[2] == 1.0;
  }

  lemma RoundToNearestStepOneExamples()
    ensures RoundToNearest(Mounted(), 10.0) == 10.0
    ensures RoundToNearest(Mounted(), 0.5) == 1.0
    ensures RoundToNearest(Mounted(), 2.4) == 2.0
  {
    var p := Mounted();
    RoundToNearestCount(p, 10.0, 10);
    RoundToNearestCount(p, 0.5, 1);
    RoundToNearestCount(p, 2.4, 2);
  }

  /** With step 0.5; the last value lands above max, since rounding does not clamp. */
  lemma RoundToNearestHalfStepExamples()
    ensures RoundToNearest(Mounted().(step := 0.5), 10.0) == 10.0
    ensures RoundToNearest(Mounted().(step := 0.5), 0.5) == 0.5
    ensures RoundToNearest(Mounted().(step := 0.5), 2.4) == 2.5
    ensures RoundToNearest(Mounted().(step := 0.5), 56.9) == 57.0
    ensures !InRange(Mounted(), RoundToNearest(Mounted().(step := 0.5), 56.9))
  {
    var p := Mounted().(step := 0.5);
    RoundToNearestCount(p, 10.0, 20);
    RoundToNearestCount(p, 0.5, 1);
    RoundToNearestCount(p, 2.4, 5);
    RoundToNearestCount(p, 56.9, 114);
  }

  lemma GetEnforcedRangeExamples()
    ensures GetEnforcedRange(Mounted(), 12.0) == 12.0
    ensures GetEnforcedRange(Mounted(), 1.0) == 5.0
    ensures GetEnforcedRange(Mounted(), 20.0) == 15.0
  {
  }

  lemma GetValueFromFractionExamples()
    ensures GetValueFromFraction(Mounted(), 0.5) == 10.0
    ensures GetValueFromFraction(Mounted(), -1.0) == 5.0
    ensures GetValueFromFraction(Mounted(), 1.1) == 15.0
  {
  }

  lemma GetPositionFractionExample()
    ensures GetPositionFraction(Mounted(), 10.0) == 0.5
  {
  }

  lemma GetPositionAtMinExample()
    ensures GetPosition(Mounted(), 5.0) == Some("0%")
  {
    assert GetPositionFraction(Mounted(), 5.0) * 100.0 == 0.0;
    assert (0.0).Floor == 0;
    assert FormatInteger(0) == "0";
    assert FormatNumber(0.0) == Some("0");
    assert "0" + "%" == "0%";
  }

  lemma GetPositionAtMiddleExample()
    ensures GetPosition(Mounted(), 10.0) == Some("50%")
  {
    assert GetPositionFraction(Mounted(), 10.0) * 100.0 == 50.0;
    assert (50.0).Floor == 50;
    assert ToDecimal(5) == "5";
    assert FormatInteger(50) == "50";
    assert FormatNumber(50.0) == Some("50");
    assert "50" + "%" == "50%";
  }

  lemma GetPositionAtMaxExample()
    ensures GetPosition(Mounted(), 15.0) == Some("100%")
  {
    assert GetPositionFraction(Mounted(), 15.0) * 100.0 == 100.0;
    assert (100.0).Floor == 100;
    assert ToDecimal(1) == "1";
    assert ToDecimal(10) == "10";
    assert FormatInteger(100) == "100";
    assert FormatNumber(100.0) == Some("100");
    assert "100" + "%" == "100%";
  }
}
