# Range slider: the numeric layer

A Vue range-slider component draws one handle per entry of its `value`
prop on a track that runs from `min` to `max`, and snaps values to a
`step`. Everything it computes about where a handle goes is plain
arithmetic on those props. This project models that arithmetic in Dafny
and proves what it does:

- `getEnforcedRange` forces a value into `[min, max]`;
- `getPositionFraction` gives the fraction of the track at which a value
  lies, and `valueFraction` maps it over every handle value;
- `getValueFromFraction` maps a fraction of the track back to a value,
  forced into range;
- `roundToNearest` snaps a value to the nearest multiple of `step`;
- `getPosition` renders a value's position as a CSS percentage, such as
  `"50%"`;
- the defaults of a slider mounted with only `min` and `max`: `step` 1 and
  no handles.

The component's own source file is not part of this model; its unit tests,
`tests/unit/index.spec.js`, fix the behaviour modelled here. JavaScript
numbers are modelled as exact `real`s.

Files:

- `number_format.dfy` (module `NumberFormat`) holds the piece of
  JavaScript's number-to-string conversion that `getPosition` relies on.
  It covers integral values below 10^21 in magnitude, which print as plain
  decimal digits, together with the parser that reads such text back.
- `range_slider.dfy` (module `RangeSlider`) holds the props, the
  operations and the lemmas about them.
- `slider_examples.dfy` (module `RangeSliderExamples`) states each value
  the unit tests expect as a fact about the model. The tests mount a slider
  with min 5 and max 15.

`roundToNearest` does not clamp its result into `[min, max]`. With step
0.5 the tests expect 56.9 to round to 57, although `max` is 15
(`tests/unit/index.spec.js:60`).
`RangeSliderExamples.RoundToNearestHalfStepExamples` proves that this
result lies outside the range.

The contract of `RoundToNearest` is stated in step units, which keeps
products with the step out of it. The result is a whole number of steps,
and `v / step` lies in `[r / step - 0.5, r / step + 0.5)`. That half-open
interval is the half-up tie-break. The lemmas then restate the result in
the slider's own units: it is within half a step of `v`, and no multiple
of the step is nearer.

## Model

| member | source | states |
|---|---|---|
| NumberFormat.ToDecimal | tests/unit/index.spec.js:100-102 | the digits of a natural number have no leading zero, and the text is "0" exactly for 0 |
| NumberFormat.ParseToDecimal | tests/unit/index.spec.js:100-102 | reading back the digits of n gives n |
| NumberFormat.ToParseDecimal | tests/unit/index.spec.js:100-102 | every canonical digit string is the digits of the number it denotes |
| NumberFormat.ParseFormatInteger | tests/unit/index.spec.js:100-102 | reading back the text of an integer, sign included, gives the integer |
| NumberFormat.FormatParseInteger | tests/unit/index.spec.js:100-102 | every well-formed integer text (no "-0", no leading zero) is the text of the integer it denotes |
| NumberFormat.FormatInteger | tests/unit/index.spec.js:100-102 | the text of an integer is an optional '-' and canonical digits, never "-0"; ParseFormatInteger shows it denotes the integer |
| NumberFormat.FormatNumber | tests/unit/index.spec.js:100-102 | a number gets text exactly when it is integral and below 10^21 in magnitude, and that text denotes exactly the number |
| RangeSlider.WithDefaults | tests/unit/index.spec.js:14-24 | a slider mounted with only min and max keeps them and gets step 1 and an empty value |
| RangeSlider.DefaultsWellFormed | tests/unit/index.spec.js:22-24 | a slider mounted with only min < max has step 1, no handles and so no fractions, and is well formed |
| RangeSlider.GetEnforcedRange | tests/unit/index.spec.js:64-76 | the result is in range; a value in range is unchanged; below min gives min; above max gives max |
| RangeSlider.EnforcedRangeIsNearest | tests/unit/index.spec.js:64-76 | no value in the range is closer to v than the enforced value |
| RangeSlider.EnforcedRangeIdempotent | tests/unit/index.spec.js:64-76 | enforcing the range twice is the same as once |
| RangeSlider.EnforcedRangeMonotone | tests/unit/index.spec.js:64-76 | enforcing the range keeps the order of two values |
| RangeSlider.GetPositionFraction | tests/unit/index.spec.js:92-96 | the fraction f satisfies min + f * (max - min) == v, and f lies in [0, 1] exactly when v is in range |
| RangeSlider.PositionFractionMonotone | tests/unit/index.spec.js:92-96 | v <= w exactly when the fraction of v is at most the fraction of w |
| RangeSlider.Fractions | tests/unit/index.spec.js:35-40 | one fraction per given value, in the same order, each the value's position fraction |
| RangeSlider.ValueFraction | tests/unit/index.spec.js:28-41 | one fraction per handle, each mapping back to that handle's value |
| RangeSlider.ValueFractionInUnit | tests/unit/index.spec.js:28-41 | all handles are in range exactly when all their fractions lie in [0, 1] |
| RangeSlider.ValueFractionSorted | tests/unit/index.spec.js:28-41 | the handle values are ascending exactly when their fractions are |
| RangeSlider.GetValueFromFraction | tests/unit/index.spec.js:78-90 | for any min <= max (an empty range included, where every fraction gives min): the result is in range; a fraction in [0, 1] gives min + f * (max - min); below 0 gives min; above 1 gives max |
| RangeSlider.ValueFractionValueRoundTrip | tests/unit/index.spec.js:78-96 | a value in range, turned into its fraction and back, is unchanged |
| RangeSlider.FractionValueFractionRoundTrip | tests/unit/index.spec.js:78-96 | a fraction in [0, 1], turned into its value and back, is unchanged |
| RangeSlider.ValueFromFractionClampsFraction | tests/unit/index.spec.js:83-89 | a fraction outside [0, 1] acts as the nearer of 0 and 1 |
| RangeSlider.RoundToNearest | tests/unit/index.spec.js:44-61 | the result is a whole number of steps, and v lies from half a step below it up to, but excluding, half a step above it |
| RangeSlider.RoundToNearestUnique | tests/unit/index.spec.js:44-61 | any whole number of steps with that half-open half-step property is the rounded value, so the contract fixes the result |
| RangeSlider.RoundToNearestWithinHalfStep | tests/unit/index.spec.js:44-61 | the rounded value is at most step / 2 from v |
| RangeSlider.RoundToNearestIsNearest | tests/unit/index.spec.js:44-61 | no multiple of the step is nearer to v than the rounded value |
| RangeSlider.RoundToNearestFixesGrid | tests/unit/index.spec.js:47 | a value that is already a multiple of the step is returned unchanged |
| RangeSlider.RoundToNearestIdempotent | tests/unit/index.spec.js:44-61 | rounding twice is the same as once |
| RangeSlider.RoundToNearestMonotone | tests/unit/index.spec.js:44-61 | rounding keeps the order of two values |
| RangeSlider.GetPosition | tests/unit/index.spec.js:98-104 | the text exists exactly when the percentage is integral and below 10^21 in magnitude; then it is an integer text followed by '%' that denotes 100 times the position fraction |
| RangeSlider.PositionInRange | tests/unit/index.spec.js:98-104 | for a value in range, the position has text exactly when its percentage is whole, and that percentage lies between 0 and 100 |
| RangeSliderExamples.Mounted | tests/unit/index.spec.js:14-19 | the tested slider has min 5, max 15 and the default step and value |
| RangeSliderExamples.MountedDefaults | tests/unit/index.spec.js:22-24 | the tested slider has no handles and step 1 |
| RangeSliderExamples.ValueFractionExample | tests/unit/index.spec.js:28-41 | handles 5, 10, 15 have fractions 0, 0.5, 1 |
| RangeSliderExamples.RoundToNearestStepOneExamples | tests/unit/index.spec.js:45-50 | with step 1, 10 rounds to 10, 0.5 to 1 and 2.4 to 2 |
| RangeSliderExamples.RoundToNearestHalfStepExamples | tests/unit/index.spec.js:52-61 | with step 0.5, 10 rounds to 10, 0.5 to 0.5, 2.4 to 2.5 and 56.9 to 57, which is out of range |
| RangeSliderExamples.GetEnforcedRangeExamples | tests/unit/index.spec.js:64-76 | 12 stays 12, 1 becomes 5, 20 becomes 15 |
| RangeSliderExamples.GetValueFromFractionExamples | tests/unit/index.spec.js:78-90 | fraction 0.5 gives 10, -1 gives 5, 1.1 gives 15 |
| RangeSliderExamples.GetPositionFractionExample | tests/unit/index.spec.js:92-96 | 10 lies at fraction 0.5 |
| RangeSliderExamples.GetPositionAtMinExample | tests/unit/index.spec.js:100 | 5 is drawn at "0%" |
| RangeSliderExamples.GetPositionAtMiddleExample | tests/unit/index.spec.js:101 | 10 is drawn at "50%" |
| RangeSliderExamples.GetPositionAtMaxExample | tests/unit/index.spec.js:102 | 15 is drawn at "100%" |

## Left out

- Vue mounting, `setProps`, reactivity and the rendered template: the model takes the props as a value and computes from them.
- The `padding` prop (default `"12px"`, `tests/unit/index.spec.js:25`): it only affects presentation, and no computation reads it.
- Pointer and drag handling, DOM measurement and events: they are I/O around the numeric layer.
- IEEE-754 floating point: numbers are exact reals. For example, 56.9 / 0.5 is exactly 113.8 here. The rounding of binary doubles is not modelled.
- RangeSlider.GetPosition: yields None for a percentage that is not integral or is 10^21 or more in magnitude. JavaScript would print a fraction or an exponent there, and that general number formatting is not modelled.
- RangeSlider.GetPositionFraction: requires min < max. With min equal to max the component divides by zero and yields NaN or Infinity, and that result is not modelled.
- RangeSlider.ValueFraction: requires min < max. With min equal to max the component divides by zero and yields NaN or Infinity, and that result is not modelled.
- RangeSlider.GetEnforcedRange: requires min <= max. An inverted range, with min above max, is not modelled.
- RangeSlider.GetValueFromFraction: requires min <= max. It never divides, so an empty range is covered and gives min; an inverted range is not modelled.
- RangeSlider.RoundToNearest: requires step > 0. A zero or negative step gives no meaningful grid and is not modelled.
- The component source file is not part of this model. The operations follow the behaviour its unit tests fix.
