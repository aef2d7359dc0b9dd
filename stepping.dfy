/**
 * The bounds and wrap rule (`bound`), the value a step produces, which step
 * directions are enabled, and the step counts that keys and timers ask for.
 */
module Stepping {
  import opened Wrappers
  import opened IntTypes
  import opened Saturating

  /** The range and the step are values of `T`, and the range is ordered. */
  predicate StepSettings(k: Kind, minimum: int, maximum: int, singleStep: int) {
    InRange(k, minimum) && InRange(k, maximum) && minimum <= maximum && InRange(k, singleStep)
  }

  /**
   * `bound(value, old, steps)`: without wrapping, without a previous value or
   * without a step, a plain clamp that sends an out-of-range value to the
   * opposite bound when wrapping is on; otherwise the wrap rule for a step
   * from `old`.
   */
  function Bound(value: int, previous: Option<int>, steps: int, minimum: int, maximum: int, wrapping: bool): (r: int)
    ensures minimum <= maximum ==> minimum <= r <= maximum
    ensures minimum <= value <= maximum ==> r == value
  {
    if !wrapping || steps == 0 || previous.None? then
      var v := if value < minimum then (if wrapping then maximum else minimum) else value;
      if v > maximum then (if wrapping then minimum else maximum) else v
    else
      var oldV := previous.value;
      var wrapped := (value > oldV && steps < 0) || (value < oldV && steps > 0);
      if value > maximum then
        if (oldV == maximum && !wrapped && steps > 0) || (steps < 0 && oldV != minimum && wrapped) then minimum else maximum
      else if wrapped && (value > maximum || value < minimum) then
        if (oldV == maximum && steps > 0) || (oldV != minimum && steps < 0) then minimum else maximum
      else if value < minimum then
        if oldV != maximum && oldV != minimum then minimum else maximum
      else value
  }

  /** When `bound` does not step: out-of-range values go to the nearer bound, or to the opposite one when wrapping. */
  lemma BoundWithoutStep(value: int, previous: Option<int>, steps: int, minimum: int, maximum: int, wrapping: bool)
    requires minimum <= maximum
    requires !wrapping || steps == 0 || previous.None?
    ensures value < minimum ==> Bound(value, previous, steps, minimum, maximum, wrapping) == (if wrapping then maximum else minimum)
    ensures value > maximum ==> Bound(value, previous, steps, minimum, maximum, wrapping) == (if wrapping then minimum else maximum)
  {
  }

  /** Stepping up past `maximum` from a previous value equal to `maximum` wraps to `minimum`. */
  lemma WrapUpFromMaximum(value: int, steps: int, minimum: int, maximum: int)
    requires minimum <= maximum < value && steps > 0
    ensures Bound(value, Some(maximum), steps, minimum, maximum, true) == minimum
  {
  }

  /** Stepping up past `maximum` from any other previous value stops at `maximum`. */
  lemma StopUpFromInterior(value: int, previous: int, steps: int, minimum: int, maximum: int)
    requires minimum <= maximum < value && previous != maximum && steps > 0
    ensures Bound(value, Some(previous), steps, minimum, maximum, true) == maximum
  {
  }

  /** Stepping down past `minimum` from a previous value equal to `minimum` wraps to `maximum`. */
  lemma WrapDownFromMinimum(value: int, steps: int, minimum: int, maximum: int)
    requires value < minimum <= maximum && steps < 0
    ensures Bound(value, Some(minimum), steps, minimum, maximum, true) == maximum
  {
  }

  /** Stepping down past `minimum` from an interior previous value stops at `minimum`. */
  lemma StopDownFromInterior(value: int, previous: int, steps: int, minimum: int, maximum: int)
    requires value < minimum < previous < maximum && steps < 0
    ensures Bound(value, Some(previous), steps, minimum, maximum, true) == minimum
  {
  }

  /**
   * The candidate `stepBy(steps)` computes in the default step type, before
   * `bound`: `valueAdd(value, valueMul(singleStep, steps))` for a non-negative
   * `steps`, and `valueSub(value, valueMul(singleStep, -steps))` otherwise.
   * `static_cast<T>(steps)` does not change `steps`, which is a non-negative
   * `int` there, and `steps * -1` needs `steps != INT_MIN`. The saturating
   * operations make it the exact `value ± singleStep * |steps|` with the
   * product and then the sum clamped to `T`.
   */
  function StepCandidate(k: Kind, value: int, singleStep: int, steps: int): (r: int)
    requires InRange(k, value) && InRange(k, singleStep)
    requires IsInt(steps) && steps != IntMin
    ensures r == Clamp(k, value + (if steps >= 0 then 1 else -1) * Clamp(k, singleStep * Abs(steps)))
  {
    if steps >= 0 then
      ValueAdd(k, value, ValueMul(k, singleStep, ToT(k, steps)))
    else
      ValueSub(k, value, ValueMul(k, singleStep, ToT(k, steps * -1)))
  }

  /**
   * The value `stepBy(steps)` sets: the clamped candidate, bounded with
   * `previous` (the value before the step) as `old`.
   */
  function StepTarget(k: Kind, value: int, previous: int, singleStep: int, steps: int,
                      minimum: int, maximum: int, wrapping: bool): (r: int)
    ensures minimum <= maximum ==> minimum <= r <= maximum
  {
    Bound(Clamp(k, value + (if steps >= 0 then 1 else -1) * Clamp(k, singleStep * Abs(steps))),
          Some(previous), steps, minimum, maximum, wrapping)
  }

  function Abs(x: int): nat {
    if x < 0 then -x else x
  }

  /**
   * The wrap rule for one step from `maximum`: when `maximum` lies below the
   * top of the type the step wraps to `minimum`.
   */
  lemma StepWrapsAtMaximum(k: Kind, singleStep: int, steps: int, minimum: int, maximum: int)
    requires InRange(k, minimum) && minimum <= maximum < k.Max()
    requires InRange(k, singleStep) && singleStep > 0
    requires IsInt(steps) && steps > 0
    ensures StepTarget(k, maximum, maximum, singleStep, steps, minimum, maximum, true) == minimum
  {
    ProductAtLeastOne(singleStep, steps);
  }

  /** At `maximum == TMAX` saturation leaves the candidate at `maximum`, so a wrapping step up stays put. */
  lemma StepStaysAtTypeMaximum(k: Kind, singleStep: int, steps: int, minimum: int)
    requires InRange(k, minimum) && minimum <= k.Max()
    requires InRange(k, singleStep) && singleStep > 0
    requires IsInt(steps) && steps > 0
    ensures StepTarget(k, k.Max(), k.Max(), singleStep, steps, minimum, k.Max(), true) == k.Max()
  {
    ProductAtLeastOne(singleStep, steps);
  }

  /** The wrap rule for one step down from `minimum` when `minimum` lies above the bottom of the type. */
  lemma StepWrapsAtMinimum(k: Kind, singleStep: int, steps: int, minimum: int, maximum: int)
    requires InRange(k, maximum) && k.Min() < minimum <= maximum
    requires InRange(k, singleStep) && singleStep > 0
    requires IsInt(steps) && steps < 0 && steps != IntMin
    ensures StepTarget(k, minimum, minimum, singleStep, steps, minimum, maximum, true) == maximum
  {
    ProductAtLeastOne(singleStep, -steps);
  }

  /** With `minimum == TMIN` (0 for an unsigned type) a wrapping step down from `minimum` stays put. */
  lemma StepStaysAtTypeMinimum(k: Kind, singleStep: int, steps: int, maximum: int)
    requires InRange(k, maximum) && k.Min() <= maximum
    requires InRange(k, singleStep) && singleStep > 0
    requires IsInt(steps) && steps < 0 && steps != IntMin
    ensures StepTarget(k, k.Min(), k.Min(), singleStep, steps, k.Min(), maximum, true) == k.Min()
  {
    ProductAtLeastOne(singleStep, -steps);
  }

  /** Without wrapping the same steps clamp: up from `maximum` stays at `maximum`, down from `minimum` at `minimum`. */
  lemma StepClampsWithoutWrapping(k: Kind, singleStep: int, steps: int, minimum: int, maximum: int)
    requires InRange(k, minimum) && InRange(k, maximum) && minimum <= maximum
    requires InRange(k, singleStep) && singleStep > 0
    requires IsInt(steps) && steps != 0 && steps != IntMin
    ensures steps > 0 ==> StepTarget(k, maximum, maximum, singleStep, steps, minimum, maximum, false) == maximum
    ensures steps < 0 ==> StepTarget(k, minimum, minimum, singleStep, steps, minimum, maximum, false) == minimum
  {
    ProductAtLeastOne(singleStep, Abs(steps));
  }

  lemma ProductAtLeastOne(x: int, y: int)
    requires x >= 1 && y >= 1
    ensures x * y >= y >= 1
  {
    MulMonotone(1, x, y);
  }

  /** `QAbstractSpinBox::StepEnabled`, as its two flags. */
  datatype StepFlags = StepFlags(up: bool, down: bool)

  /** `stepEnabledImpl`: nothing when read-only, both when wrapping, otherwise the directions with room to move. */
  function StepEnabled(readOnly: bool, wrapping: bool, value: int, minimum: int, maximum: int): (r: StepFlags)
    ensures readOnly ==> !r.up && !r.down
    ensures !readOnly && wrapping ==> r.up && r.down
    ensures !readOnly && !wrapping ==> (r.up <==> value < maximum) && (r.down <==> value > minimum)
  {
    if readOnly then StepFlags(false, false)
    else if wrapping then StepFlags(true, true)
    else StepFlags(value < maximum, value > minimum)
  }

  /**
   * Without wrapping, a direction is enabled exactly when a step in it would
   * change the value: stepping up from `value` moves it iff Up is enabled,
   * and stepping down iff Down is.
   */
  lemma StepEnabledIffStepMoves(k: Kind, value: int, singleStep: int, steps: int, minimum: int, maximum: int)
    requires InRange(k, minimum) && InRange(k, maximum) && minimum <= value <= maximum
    requires InRange(k, singleStep) && singleStep > 0
    requires IsInt(steps) && steps != 0 && steps != IntMin
    ensures steps > 0 ==>
      (StepEnabled(false, false, value, minimum, maximum).up <==>
       StepTarget(k, value, value, singleStep, steps, minimum, maximum, false) != value)
    ensures steps < 0 ==>
      (StepEnabled(false, false, value, minimum, maximum).down <==>
       StepTarget(k, value, value, singleStep, steps, minimum, maximum, false) != value)
  {
    ProductAtLeastOne(singleStep, Abs(steps));
  }

  /** The step keys of the key-press handler. */
  datatype StepKey = KeyUp | KeyDown | KeyPageUp | KeyPageDown {
    predicate Upward() { KeyUp? || KeyPageUp? }
    predicate Page() { KeyPageUp? || KeyPageDown? }
  }

  /**
   * The `steps` a step key asks for: Page keys move ten steps, arrow keys one,
   * or ten with the step modifier held; downward keys negate.
   */
  function KeySteps(key: StepKey, stepModifierHeld: bool): (r: int)
    ensures r > 0 <==> key.Upward()
    ensures Abs(r) == (if key.Page() || stepModifierHeld then 10 else 1)
  {
    var steps := if key.Page() then 10 else 1;
    var steps' := if !key.Page() && stepModifierHeld then steps * 10 else steps;
    if !key.Upward() then steps' * -1 else steps'
  }

  /** The `steps` of a press or of an auto-repeat tick: one step, ten with the step modifier held. */
  function RepeatSteps(up: bool, stepModifierHeld: bool): (r: int)
    ensures r > 0 <==> up
    ensures Abs(r) == (if stepModifierHeld then 10 else 1)
  {
    var steps := if up then 1 else -1;
    if stepModifierHeld then steps * 10 else steps
  }
}
