/**
 * The state of `QExtraSpinBoxPrivate<T>` and the operations that change it:
 * range, step, base, prefix and suffix setters, `setValue`, `stepBy`, the
 * cached `validateAndInterpret`, `interpret`, and the key, mouse, wheel,
 * timer and focus handlers with their button-state machine.
 */
/**
 * The engine invariant, stated on the values of the fields it constrains.
 * It lives apart from the engine so that the engine's methods meet it as
 * one fact rather than as its separate conjuncts.
 */
module EngineInvariant {
  import opened IntTypes
  import opened Stepping
  import opened Validation

  /** Everything but the position of the value: range and step in `T`, a base Qt accepts, a consistent memo, a wheel remainder under one notch. */
  predicate SettingsOk(k: Kind, minimum: int, maximum: int, singleStep: int, base: int,
                       memo: Memo, wheelDeltaRemainder: int) {
    StepSettings(k, minimum, maximum, singleStep) && 2 <= base <= 36
    && MemoValid(memo, minimum, maximum) && -120 < wheelDeltaRemainder < 120
  }

  /** The settings invariant, and the value lies in the range. */
  predicate EngineOk(k: Kind, minimum: int, maximum: int, singleStep: int, base: int,
                     memo: Memo, wheelDeltaRemainder: int, value: int) {
    SettingsOk(k, minimum, maximum, singleStep, base, memo, wheelDeltaRemainder)
    && minimum <= value <= maximum
  }
}

module SpinBox {
  import opened Wrappers
  import opened IntTypes
  import opened Stepping
  import opened Text
  import opened Validation
  import opened EngineInvariant

  /** When `setValue` notifies: only on a change, always, or never. */
  datatype EmitPolicy = EmitIfChanged | AlwaysEmit | NeverEmit

  /** `QAbstractSpinBox::CorrectionMode`. */
  datatype CorrectionMode = CorrectToPreviousValue | CorrectToNearestValue

  /** Where a held step button came from. */
  datatype Origin = Keyboard | Mouse

  /** `buttonState`: no button, or the Up or Down button held from one origin. */
  datatype ButtonState = NoButton | Pressed(origin: Origin, up: bool)

  /** Whether `b` holds the button of direction `up`: `buttonState & Up`, or `& Down`. */
  predicate Holds(b: ButtonState, up: bool) {
    b.Pressed? && b.up == up
  }

  /** The sub-control under the mouse, as far as stepping cares. */
  datatype Hover = HoverUp | HoverDown | HoverElsewhere

  /** The timer a timer event names. */
  datatype TimerId = ThresholdTimer | RepeatTimer | OtherTimer

  /** Whether `setValue(…, ep)` notifies when the value goes from `before` to `after`. */
  predicate Emits(ep: EmitPolicy, before: int, after: int) {
    ep == AlwaysEmit || (ep == EmitIfChanged && before != after)
  }

  /**
   * The `singleStep` that `setSingleStep(v)` stores for a `T` value `v`: the
   * parameter is a `quint32`, so a 32-bit `T` comes back unchanged and a
   * 64-bit `T` keeps only its low 32 bits.
   */
  function StoredSingleStep(k: Kind, v: int): (r: int)
    requires InRange(k, v)
    ensures InRange(k, r)
    ensures (k == Int32 || k == UInt32) ==> r == v
    ensures (k == Int64 || k == UInt64) ==> r == v % 0x1_0000_0000
  {
    var narrowed := ToT(UInt32, v);
    if k == Int32 && v < 0 then
      assert narrowed == v + 0x1_0000_0000;
      ToT(k, narrowed)
    else
      ToT(k, narrowed)
  }

  class Engine {
    /** `T` */
    const kind: Kind
    /** The locale, radix and formatting services the engine calls. */
    const codec: Codec

    var value: int
    var minimum: int
    var maximum: int
    var singleStep: int
    var displayIntegerBase: int
    var prefix: string
    var suffix: string
    var pendingEmit: bool
    var cleared: bool
    var ignoreUpdateEdit: bool

    // The memo of `validateAndInterpret`.
    var cachedValue: Option<int>
    var cachedText: Option<string>
    var cachedState: State

    // The button-state machine; the two timers are reduced to whether they run.
    var buttonState: ButtonState
    var thresholdTimerActive: bool
    var repeatTimerActive: bool
    var acceleration: int
    var wheelDeltaRemainder: int
    /** Whether the last input event carried the step modifier. */
    var stepModifierHeld: bool

    // Properties of the host `QAbstractSpinBox` and its line edit.
    var wrapping: bool
    var readOnly: bool
    var keyboardTracking: bool
    var groupSeparatorShown: bool
    var correctionMode: CorrectionMode
    var specialValueText: string
    var editText: string
    var cursor: int

    /** The values reported by each `valueChanged`/`textChanged` emission, in order. */
    ghost var emitted: seq<int>

    /** Everything but the position of `value` in the range. */
    ghost predicate ValidSettings()
      reads this`minimum, this`maximum, this`singleStep, this`displayIntegerBase,
            this`cachedText, this`cachedValue, this`cachedState, this`wheelDeltaRemainder
    {
      SettingsOk(kind, minimum, maximum, singleStep, displayIntegerBase, MemoNow(), wheelDeltaRemainder)
    }

    ghost predicate Valid()
      reads this`minimum, this`maximum, this`singleStep, this`displayIntegerBase,
            this`cachedText, this`cachedValue, this`cachedState, this`wheelDeltaRemainder, this`value
    {
      EngineOk(kind, minimum, maximum, singleStep, displayIntegerBase, MemoNow(), wheelDeltaRemainder, value)
    }

    /** The memo of `validateAndInterpret`, as one value. */
    function MemoNow(): Memo
      reads this`cachedText, this`cachedValue, this`cachedState
    {
      Memo(cachedText, cachedValue, cachedState)
    }

    /**
     * `t` is the text `clear` leaves, the prefix followed by the suffix, and
     * is not the special-value text.
     */
    predicate Bare(t: string)
      reads this`prefix, this`suffix, this`specialValueText
    {
      t == prefix + suffix && (specialValueText == [] || t != specialValueText)
    }

    /** No button held, both timers stopped, no acceleration. */
    predicate Idle()
      reads this`buttonState, this`thresholdTimerActive, this`repeatTimerActive, this`acceleration
    {
      buttonState == NoButton && !thresholdTimerActive && !repeatTimerActive && acceleration == 0
    }

    /** `specialValue()`: the special-value text stands in for the minimum, and only when it is set. */
    predicate SpecialValue()
      reads this`value, this`minimum, this`specialValueText
      ensures SpecialValue() ==> value == minimum && specialValueText != []
      ensures value != minimum || specialValueText == [] ==> !SpecialValue()
    {
      value == minimum && specialValueText != []
    }

    /**
     * The text `updateEdit` shows for the current value: the special-value
     * text, or the formatted value between prefix and suffix.
     */
    function NewText(): (r: string)
      reads this`value, this`minimum, this`specialValueText, this`prefix, this`suffix,
            this`displayIntegerBase, this`groupSeparatorShown
      ensures SpecialValue() ==> r == specialValueText
      ensures !SpecialValue() ==> StartsWith(r, prefix) && EndsWith(r, suffix)
    {
      if SpecialValue() then specialValueText
      else prefix + codec.textFromValue(value, displayIntegerBase, groupSeparatorShown) + suffix
    }

    /**
     * The displayed value reads back: when the edit shows the decimal text of
     * a value the locale parses back, validating that text gives Acceptable
     * with the value itself, and leaves text and cursor as they are.
     */
    lemma DisplayedValueIsAcceptable(pos: int)
      requires Valid() && !SpecialValue() && displayIntegerBase == 10
      requires var d := codec.textFromValue(value, 10, groupSeparatorShown);
               codec.parseLocale(d) == Some(value) && IsTrimmed(d) && d != [] && d != "-" && d != "+"
               && (StartsWith(d, "-") ==> minimum < 0)
               && (specialValueText == [] || NewText() != specialValueText)
      ensures Interpretation(Settings(), NewText(), pos) == Outcome(Acceptable, value, NewText(), pos)
    {
      DecoratedValueIsAcceptable(Settings(), codec.textFromValue(value, 10, groupSeparatorShown), value, pos);
    }

    /** The special-value text on display passes the validator as it is, and leaves the memo alone. */
    lemma SpecialValueTextIsAcceptable(pos: int)
      requires Valid() && SpecialValue()
      ensures ValidatorAnswer(Settings(), MemoNow(), NewText(), pos) == (Acceptable, Cut(NewText(), pos), MemoNow())
    {
    }

    /** The fields validation reads. */
    function Settings(): Config
      reads this`minimum, this`maximum, this`displayIntegerBase, this`prefix, this`suffix,
            this`specialValueText
    {
      Config(kind, minimum, maximum, displayIntegerBase, prefix, suffix, specialValueText, codec)
    }

    function StepFlagsNow(): StepFlags
      reads this`readOnly, this`wrapping, this`value, this`minimum, this`maximum
    {
      StepEnabled(readOnly, wrapping, value, minimum, maximum)
    }

    /** Whether the step direction `up` (or down) is enabled now. */
    predicate DirectionEnabled(up: bool)
      reads this`readOnly, this`wrapping, this`value, this`minimum, this`maximum
    {
      if up then StepFlagsNow().up else StepFlagsNow().down
    }

    /** The engine's field defaults, followed by `init`'s `updateEdit`. */
    constructor (kind: Kind, codec: Codec)
      ensures Valid() && Idle()
      ensures this.kind == kind && this.codec == codec
      ensures value == 0 && minimum == 0 && maximum == 99 && singleStep == 1 && displayIntegerBase == 10
      ensures prefix == [] && suffix == [] && !pendingEmit && !cleared
      ensures cachedText == None && cachedValue == None && cachedState == Invalid
      ensures wheelDeltaRemainder == 0 && editText == NewText() && emitted == []
    {
      this.kind := kind;
      this.codec := codec;
      value, minimum, maximum, singleStep := 0, 0, 99, 1;
      displayIntegerBase := 10;
      prefix, suffix := [], [];
      pendingEmit, cleared, ignoreUpdateEdit := false, false, false;
      cachedValue, cachedText, cachedState := None, None, Invalid;
      buttonState := NoButton;
      thresholdTimerActive, repeatTimerActive := false, false;
      acceleration, wheelDeltaRemainder := 0, 0;
      stepModifierHeld := false;
      wrapping, readOnly, keyboardTracking, groupSeparatorShown := false, false, true, false;
      correctionMode := CorrectToPreviousValue;
      specialValueText := [];
      editText, cursor := [], 0;
      emitted := [];
      new;
      UpdateEdit();
    }

    /** The host's property setters, which the engine only reads. */
    method SetHostProperties(wrapping: bool, readOnly: bool, keyboardTracking: bool,
                             groupSeparatorShown: bool, correctionMode: CorrectionMode,
                             specialValueText: string)
      modifies this`wrapping, this`readOnly, this`keyboardTracking, this`groupSeparatorShown,
               this`correctionMode, this`specialValueText
      ensures this.wrapping == wrapping && this.readOnly == readOnly
      ensures this.keyboardTracking == keyboardTracking && this.groupSeparatorShown == groupSeparatorShown
      ensures this.correctionMode == correctionMode && this.specialValueText == specialValueText
    {
      this.wrapping, this.readOnly, this.keyboardTracking := wrapping, readOnly, keyboardTracking;
      this.groupSeparatorShown, this.correctionMode := groupSeparatorShown, correctionMode;
      this.specialValueText := specialValueText;
    }

    /** `updateEdit`: shows `NewText()` unless the edit was cleared. */
    method UpdateEdit()
      modifies this`editText
      ensures editText == if cleared then old(editText) else NewText()
    {
      var newText := NewText();
      if newText == editText || cleared {
        return;
      }
      editText := newText;
    }

    /** `clearCache` */
    method ClearCache()
      modifies this`cachedText, this`cachedState, this`cachedValue
      ensures cachedText == None && cachedValue == None && cachedState == Acceptable
    {
      cachedValue := None;
      cachedText := None;
      cachedState := Acceptable;
    }

    /** `reset`: releases the button and stops both timers. */
    method Reset()
      modifies this`buttonState, this`thresholdTimerActive, this`repeatTimerActive, this`acceleration
      ensures Idle()
    {
      buttonState := NoButton;
      repeatTimerActive := false;
      thresholdTimerActive := false;
      acceleration := 0;
    }

    /** `emitSignals(ep, old)`: any policy but NeverEmit settles the pending edit, and notifies if forced or changed. */
    method EmitSignals(ep: EmitPolicy, previous: int)
      modifies this`pendingEmit, this`emitted
      ensures pendingEmit == (ep == NeverEmit && old(pendingEmit))
      ensures emitted == old(emitted) + (if ep != NeverEmit && (ep == AlwaysEmit || value != previous) then [value] else [])
    {
      if ep != NeverEmit {
        pendingEmit := false;
        if ep == AlwaysEmit || value != previous {
          emitted := emitted + [value];
        }
      }
    }

    /** `setValue(val, ep, doUpdate)`: stores the bounded value and emits according to `ep`. */
    method SetValue(val: int, ep: EmitPolicy, doUpdate: bool)
      requires ValidSettings() && InRange(kind, val)
      modifies this`value, this`pendingEmit, this`cleared, this`editText, this`emitted
      ensures Valid()
      ensures value == Bound(val, None, 0, minimum, maximum, wrapping)
      ensures !pendingEmit && !cleared
      ensures editText == if doUpdate then NewText() else old(editText)
      ensures emitted == old(emitted) + (if Emits(ep, old(value), value) then [value] else [])
    {
      var previous := value;
      value := Bound(val, None, 0, minimum, maximum, wrapping);
      pendingEmit := false;
      cleared := false;
      if doUpdate {
        UpdateEdit();
      }
      if ep == AlwaysEmit || (ep == EmitIfChanged && previous != value) {
        EmitSignals(ep, previous);
      }
    }

    /**
     * `setRange(min, max)`: an inverted range collapses to `min`, the memo is
     * dropped, the buttons are released, and the value is bounded into the
     * new range with a notification only when it moved.
     */
    method SetRange(min: int, max: int)
      requires Valid() && InRange(kind, min) && InRange(kind, max)
      modifies this`cachedText, this`cachedState, this`cachedValue, this`minimum, this`maximum,
               this`buttonState, this`thresholdTimerActive, this`repeatTimerActive, this`acceleration,
               this`value, this`pendingEmit, this`cleared, this`editText, this`emitted
      ensures Valid() && Idle()
      ensures minimum == min && maximum == (if min < max then max else min)
      ensures value == Bound(old(value), None, 0, minimum, maximum, wrapping)
      ensures cachedText == None && cachedValue == None && cachedState == Acceptable
      ensures value != old(value) ==>
        !pendingEmit && !cleared && editText == NewText() && emitted == old(emitted) + [value]
      ensures value == old(value) ==>
        pendingEmit == old(pendingEmit) && cleared == old(cleared) && emitted == old(emitted)
        && editText == (if SpecialValue() && !cleared then NewText() else old(editText))
    {
      Restart(min, max);
      Rebound();
    }

    /** The start of `setRange`: drops the memo, stores the range (an inverted one collapses to `min`) and resets. */
    method Restart(min: int, max: int)
      requires Valid() && InRange(kind, min) && InRange(kind, max)
      modifies this`cachedText, this`cachedState, this`cachedValue, this`minimum, this`maximum,
               this`buttonState, this`thresholdTimerActive, this`repeatTimerActive, this`acceleration
      ensures ValidSettings() && Idle() && InRange(kind, value)
      ensures minimum == min && maximum == (if min < max then max else min)
      ensures cachedText == None && cachedValue == None && cachedState == Acceptable
    {
      ClearCache();
      minimum := min;
      maximum := if min < max then max else min;
      Reset();
    }

    /** The end of `setRange`: bounds the value into the new range, and refreshes a special-value text. */
    method Rebound()
      requires ValidSettings() && InRange(kind, value)
      modifies this`value, this`pendingEmit, this`cleared, this`editText, this`emitted
      ensures Valid()
      ensures value == Bound(old(value), None, 0, minimum, maximum, wrapping)
      ensures value != old(value) ==>
        !pendingEmit && !cleared && editText == NewText() && emitted == old(emitted) + [value]
      ensures value == old(value) ==>
        pendingEmit == old(pendingEmit) && cleared == old(cleared) && emitted == old(emitted)
        && editText == (if SpecialValue() && !cleared then NewText() else old(editText))
    {
      var boundV := Bound(value, None, 0, minimum, maximum, wrapping);
      if boundV != value {
        SetValue(boundV, EmitIfChanged, true);
      } else if value == minimum && specialValueText != [] {
        UpdateEdit();
      }
    }

    /** `setMinimum(v)`: raises the maximum to `v` only when it lies below. */
    method SetMinimum(v: int)
      requires Valid() && InRange(kind, v)
      modifies this`cachedText, this`cachedState, this`cachedValue, this`minimum, this`maximum,
               this`buttonState, this`thresholdTimerActive, this`repeatTimerActive, this`acceleration,
               this`value, this`pendingEmit, this`cleared, this`editText, this`emitted
      ensures Valid() && Idle()
      ensures minimum == v && maximum == (if old(maximum) > v then old(maximum) else v)
      ensures value == Bound(old(value), None, 0, minimum, maximum, wrapping)
      ensures emitted == old(emitted) + (if value != old(value) then [value] else [])
    {
      SetRange(v, if maximum > v then maximum else v);
    }

    /** `setMaximum(v)`: lowers the minimum to `v` only when it lies above. */
    method SetMaximum(v: int)
      requires Valid() && InRange(kind, v)
      modifies this`cachedText, this`cachedState, this`cachedValue, this`minimum, this`maximum,
               this`buttonState, this`thresholdTimerActive, this`repeatTimerActive, this`acceleration,
               this`value, this`pendingEmit, this`cleared, this`editText, this`emitted
      ensures Valid() && Idle()
      ensures maximum == v && minimum == (if old(minimum) < v then old(minimum) else v)
      ensures value == Bound(old(value), None, 0, minimum, maximum, wrapping)
      ensures emitted == old(emitted) + (if value != old(value) then [value] else [])
    {
      SetRange(if minimum < v then minimum else v, v);
    }

    /**
     * `setSingleStep(v)` called with a `T` value: `v` converts to the
     * `quint32` parameter, whose `value >= 0` test always passes, and back to `T`.
     */
    method SetSingleStep(v: int)
      requires Valid() && InRange(kind, v)
      modifies this`singleStep, this`editText
      ensures Valid()
      ensures singleStep == StoredSingleStep(kind, v)
      ensures editText == if cleared then old(editText) else NewText()
    {
      var narrowed := ToT(UInt32, v);
      if narrowed >= 0 {
        singleStep := ToT(kind, narrowed);
        UpdateEdit();
      }
    }

    /** `setDisplayIntegerBase(base)`: a base outside [2, 36] becomes 10; the memo is kept. */
    method SetDisplayIntegerBase(base: int)
      requires Valid()
      modifies this`displayIntegerBase, this`editText
      ensures Valid()
      ensures displayIntegerBase == if base < 2 || base > 36 then 10 else base
      ensures editText ==
        if displayIntegerBase == old(displayIntegerBase) || cleared then old(editText) else NewText()
      ensures cachedText == old(cachedText) && cachedValue == old(cachedValue) && cachedState == old(cachedState)
    {
      var b := base;
      if b < 2 || b > 36 {
        b := 10;
      }
      if b != displayIntegerBase {
        displayIntegerBase := b;
        UpdateEdit();
      }
    }

    /** `setPrefix(p)`: the memo is kept, so it may still answer for text with the old prefix. */
    method SetPrefix(p: string)
      requires Valid()
      modifies this`prefix, this`editText
      ensures Valid() && prefix == p
      ensures editText == if cleared then old(editText) else NewText()
      ensures cachedText == old(cachedText) && cachedValue == old(cachedValue) && cachedState == old(cachedState)
    {
      prefix := p;
      UpdateEdit();
    }

    /** `setSuffix(s)`: the memo is kept, as for the prefix. */
    method SetSuffix(s: string)
      requires Valid()
      modifies this`suffix, this`editText
      ensures Valid() && suffix == s
      ensures editText == if cleared then old(editText) else NewText()
      ensures cachedText == old(cachedText) && cachedValue == old(cachedValue) && cachedState == old(cachedState)
    {
      suffix := s;
      UpdateEdit();
    }

    /**
     * `validateAndInterpret(input, pos, state)`: from the memo when `input`
     * is the non-empty cached text, and otherwise the uncached
     * `Interpretation`, which is then memoised.
     */
    method ValidateAndInterpret(input: string, pos: int) returns (num: int, state: State, input': string, pos': int)
      requires Valid()
      modifies this`cachedText, this`cachedState, this`cachedValue
      ensures Valid()
      ensures (Outcome(state, num, input', pos'), MemoNow()) == old(Validated(Settings(), MemoNow(), input, pos))
    {
      if cachedText == Some(input) && input != [] {
        return cachedValue.value, cachedState, input, pos;
      }
      var r := Interpretation(Settings(), input, pos);
      num, state, input', pos' := r.value, r.state, r.text, r.pos;
      cachedText := Some(input');
      cachedState := state;
      cachedValue := Some(num);
    }

    /** `QExtraSpinBoxValidator::validate`: gives `ValidatorAnswer`. */
    method Validate(input: string, pos: int) returns (state: State, input': string, pos': int)
      requires Valid()
      modifies this`cachedText, this`cachedState, this`cachedValue
      ensures Valid()
      ensures (state, Cut(input', pos'), MemoNow()) == old(ValidatorAnswer(Settings(), MemoNow(), input, pos))
    {
      if specialValueText != [] && input == specialValueText {
        return Acceptable, input, pos;
      }
      state, input', pos' := ValidateDecorated(input, pos);
    }

    /** The validator on any input but the special-value text: decorates it, then runs `validateAndInterpret`. */
    method ValidateDecorated(input: string, pos: int) returns (state: State, input': string, pos': int)
      requires Valid()
      modifies this`cachedText, this`cachedState, this`cachedValue
      ensures Valid()
      ensures (state, Cut(input', pos'), MemoNow()) == old(DecoratedAnswer(Settings(), MemoNow(), input, pos))
    {
      var d := Decorate(input, pos, prefix, suffix);
      var _, st, t, p := ValidateAndInterpret(d.text, d.pos);
      state, input', pos' := st, t, p;
    }

    /**
     * `valueFromTextImpl(text)`: the value `validateAndInterpret` gives `text`,
     * at the edit's cursor `at`.
     */
    method ValueFromText(text: string, at: int) returns (v: int)
      requires Valid()
      modifies this`cachedText, this`cachedState, this`cachedValue
      ensures Valid()
      ensures var r := old(Validated(Settings(), MemoNow(), text, at)); v == r.0.value && MemoNow() == r.1
    {
      var num, _, _, _ := ValidateAndInterpret(text, at);
      v := num;
    }

    /**
     * The value `interpret` commits with the edit's cursor at `at`, and the
     * cursor its validations leave: `Interpreted`.
     */
    method InterpretedValue(at: int) returns (v: int, pos: int)
      requires Valid()
      modifies this`cachedText, this`cachedState, this`cachedValue
      ensures Valid()
      ensures Commit(v, pos, MemoNow()) == old(Interpreted(Settings(), MemoNow(), editText, at, groupSeparatorShown,
                                                           correctionMode == CorrectToNearestValue, value))
    {
      var _, state, tmp, p := ValidateAndInterpret(editText, at);
      if state == Acceptable {
        v := ValueFromText(tmp, at);
        pos := p;
      } else {
        // `T v{}` is zero, so the nearest value is `qBound(minimum, 0, maximum)`.
        v, pos := Refix(tmp, p, if correctionMode == CorrectToNearestValue then QBound(minimum, 0, maximum) else value, at);
      }
    }

    /** The correction step of `interpret`, with the edit's cursor at `at`, as `Refixed` says. */
    method Refix(text: string, pos: int, fallback: int, at: int) returns (v: int, pos': int)
      requires Valid() && minimum <= fallback <= maximum
      modifies this`cachedText, this`cachedState, this`cachedValue
      ensures Valid()
      ensures Commit(v, pos', MemoNow()) == old(Refixed(Settings(), MemoNow(), text, pos, at, groupSeparatorShown, fallback))
    {
      ghost var c, m := Settings(), MemoNow();
      var fixed := Fixup(text, groupSeparatorShown, codec.groupSeparator);
      v, pos' := fallback, pos;
      if fixed != text {
        var num, state, tmp, p := ValidateAndInterpret(fixed, pos);
        ghost var m2 := MemoNow();
        assert (Outcome(state, num, tmp, p), m2) == Validated(c, m, fixed, pos);
        pos' := p;
        if state == Acceptable {
          v := ValueFromText(tmp, at);
          assert Commit(v, pos', MemoNow()) == ReadBack(c, m2, tmp, p, at);
        }
      }
    }

    /**
     * `interpret(ep)` with the edit's cursor at `at`: commits the value
     * `Interpreted` gives the edit's text, emitting according to `ep`, drops
     * the memo and moves the cursor to where the validations left it. Every
     * caller passes the cursor where it is, except Return, which has just
     * moved it to the end of the text.
     */
    method Interpret(ep: EmitPolicy, at: int)
      requires Valid()
      modifies this`cachedText, this`cachedState, this`cachedValue, this`value, this`pendingEmit,
               this`cleared, this`editText, this`cursor, this`emitted
      ensures Valid()
      ensures MemoNow() == Memo(None, None, Acceptable)
      ensures var r := old(Interpreted(Settings(), MemoNow(), editText, at, groupSeparatorShown,
                                       correctionMode == CorrectToNearestValue, value));
        value == r.value && cursor == r.pos
      ensures !pendingEmit && !cleared && editText == NewText()
      ensures emitted == old(emitted) + (if Emits(ep, old(value), value) then [value] else [])
    {
      var v, pos := InterpretedValue(at);
      cursor := at;
      Settle(v, ep, at, pos);
    }

    /** The end of `interpret`: drops the memo, sets `v`, and moves the cursor from `oldpos` to `pos`. */
    method Settle(v: int, ep: EmitPolicy, oldpos: int, pos: int)
      requires Valid() && minimum <= v <= maximum && cursor == oldpos
      modifies this`cachedText, this`cachedState, this`cachedValue, this`value, this`pendingEmit,
               this`cleared, this`editText, this`cursor, this`emitted
      ensures Valid() && MemoNow() == Memo(None, None, Acceptable)
      ensures value == v && cursor == pos
      ensures !pendingEmit && !cleared && editText == NewText()
      ensures emitted == old(emitted) + (if Emits(ep, old(value), value) then [value] else [])
    {
      ClearCache();
      SetValue(v, ep, true);
      if oldpos != pos {
        cursor := pos;
      }
    }

    /**
     * `validateImpl(input, pos)`: the state `validateAndInterpret` gives
     * `input`, and the memo it leaves.
     */
    method ValidateImpl(input: string, pos: int) returns (state: State)
      requires Valid()
      modifies this`cachedText, this`cachedState, this`cachedValue
      ensures Valid()
      ensures var r := old(Validated(Settings(), MemoNow(), input, pos)); state == r.0.state && MemoNow() == r.1
    {
      var _, st, _, _ := ValidateAndInterpret(input, pos);
      state := st;
    }

    /**
     * The first half of `stepBy`: a pending edit is validated and committed
     * without notifying. `dontstep` is whether it failed to validate, and `e`
     * asks the step to notify when the commit changed the value.
     */
    method CommitPending() returns (dontstep: bool, e: EmitPolicy)
      requires Valid()
      modifies this`cachedText, this`cachedState, this`cachedValue, this`value, this`pendingEmit,
               this`cleared, this`editText, this`cursor, this`emitted
      ensures Valid() && e != NeverEmit && emitted == old(emitted)
      ensures !old(pendingEmit) ==>
        !dontstep && e == EmitIfChanged && value == old(value)
      ensures old(pendingEmit) ==>
        !pendingEmit && !cleared && editText == NewText() && (e == AlwaysEmit <==> value != old(value))
      ensures old(pendingEmit) ==>
        (dontstep <==> old(Validated(Settings(), MemoNow(), editText, cursor)).0.state != Acceptable)
        && value == old(Interpreted(Settings(), Validated(Settings(), MemoNow(), editText, cursor).1, editText,
                                    cursor, groupSeparatorShown, correctionMode == CorrectToNearestValue, value)).value
    {
      var previous := value;
      dontstep := false;
      e := EmitIfChanged;
      if pendingEmit {
        var acceptable := CommitEdit();
        dontstep := !acceptable;
        if value != previous {
          e := AlwaysEmit;
        }
      }
    }

    /** The commit of a pending edit: validates the edit's text, then interprets it without notifying. */
    method CommitEdit() returns (acceptable: bool)
      requires Valid()
      modifies this`cachedText, this`cachedState, this`cachedValue, this`value, this`pendingEmit,
               this`cleared, this`editText, this`cursor, this`emitted
      ensures Valid() && emitted == old(emitted) && !pendingEmit && !cleared && editText == NewText()
      ensures var r := old(Validated(Settings(), MemoNow(), editText, cursor));
        (acceptable <==> r.0.state == Acceptable)
        && value == old(Interpreted(Settings(), r.1, editText, cursor, groupSeparatorShown,
                                    correctionMode == CorrectToNearestValue, value)).value
    {
      ghost var c, m := Settings(), MemoNow();
      var state := ValidateImpl(editText, cursor);
      ghost var m1 := MemoNow();
      assert m1 == Validated(c, m, editText, cursor).1;
      acceptable := state == Acceptable;
      cleared := false;
      assert Settings() == c;
      Interpret(NeverEmit, cursor);
    }

    /**
     * `stepBy(steps)` in the default step type. A pending edit is committed
     * first, and one that does not validate turns the step off. `interpreted`
     * is the value after that commit, and `stepped` is whether the step was taken.
     */
    method StepBy(steps: int) returns (ghost interpreted: int, ghost stepped: bool)
      requires Valid() && IsInt(steps) && steps != IntMin
      modifies this`cachedText, this`cachedState, this`cachedValue, this`value, this`pendingEmit,
               this`cleared, this`editText, this`cursor, this`emitted
      ensures Valid()
      ensures minimum <= interpreted <= maximum
      ensures !old(pendingEmit) ==>
        stepped && interpreted == old(value)
        && value == StepTarget(kind, old(value), old(value), singleStep, steps, minimum, maximum, wrapping)
      ensures stepped ==>
        value == StepTarget(kind, interpreted, old(value), singleStep, steps, minimum, maximum, wrapping)
      ensures !stepped ==> value == interpreted
      ensures old(pendingEmit) ==>
        (stepped <==> old(Validated(Settings(), MemoNow(), editText, cursor)).0.state == Acceptable)
        && interpreted == old(Interpreted(Settings(), Validated(Settings(), MemoNow(), editText, cursor).1, editText,
                                          cursor, groupSeparatorShown, correctionMode == CorrectToNearestValue, value)).value
      ensures !pendingEmit && !cleared && editText == NewText()
      ensures emitted == old(emitted) + (if interpreted != old(value) || value != interpreted then [value] else [])
    {
      var previous := value;
      var dontstep, e := CommitPending();
      interpreted := value;
      stepped := !dontstep;
      Advance(previous, steps, dontstep, e);
    }

    /** The second half of `stepBy`: the step unless `dontstep`, and otherwise the notification a changed commit owes. */
    method Advance(previous: int, steps: int, dontstep: bool, e: EmitPolicy)
      requires Valid() && IsInt(steps) && steps != IntMin
      modifies this`value, this`pendingEmit, this`cleared, this`editText, this`emitted
      ensures Valid()
      ensures !dontstep ==>
        value == StepTarget(kind, old(value), previous, singleStep, steps, minimum, maximum, wrapping)
        && !pendingEmit && !cleared && editText == NewText()
        && emitted == old(emitted) + (if Emits(e, old(value), value) then [value] else [])
      ensures dontstep ==>
        value == old(value) && cleared == old(cleared) && editText == old(editText)
        && pendingEmit == (old(pendingEmit) && e != AlwaysEmit)
        && emitted == old(emitted) + (if e == AlwaysEmit then [value] else [])
    {
      if !dontstep {
        StepFrom(previous, steps, e);
      } else if e == AlwaysEmit {
        EmitSignals(e, previous);
      }
    }

    /**
     * `stepBy(steps)` as the input handlers rely on it: the invariant holds
     * and, without a pending edit, the value is the step target from the
     * current value.
     */
    method Step(steps: int)
      requires Valid() && IsInt(steps) && steps != IntMin
      modifies this`cachedText, this`cachedState, this`cachedValue, this`value, this`pendingEmit,
               this`cleared, this`editText, this`cursor, this`emitted
      ensures Valid()
      ensures !old(pendingEmit) ==>
        value == StepTarget(kind, old(value), old(value), singleStep, steps, minimum, maximum, wrapping)
    {
      ghost var interpreted, stepped := StepBy(steps);
    }

    /** The step of `stepBy`: sets the saturated candidate, bounded with `previous` as the value before the step. */
    method StepFrom(previous: int, steps: int, e: EmitPolicy)
      requires Valid() && IsInt(steps) && steps != IntMin
      modifies this`value, this`pendingEmit, this`cleared, this`editText, this`emitted
      ensures Valid()
      ensures value == StepTarget(kind, old(value), previous, singleStep, steps, minimum, maximum, wrapping)
      ensures !pendingEmit && !cleared && editText == NewText()
      ensures emitted == old(emitted) + (if Emits(e, old(value), value) then [value] else [])
    {
      var target := Bound(StepCandidate(kind, value, singleStep, steps), Some(previous), steps,
                          minimum, maximum, wrapping);
      assert target == StepTarget(kind, value, previous, singleStep, steps, minimum, maximum, wrapping);
      SetValue(target, e, true);
    }

    /**
     * `updateState(up, fromKeyboard)`: a new press of the Up or Down button
     * restarts the machine; when the direction is enabled it holds the
     * button, takes one step and starts the threshold timer.
     */
    method UpdateState(up: bool, fromKeyboard: bool)
      requires Valid()
      modifies this`buttonState, this`thresholdTimerActive, this`repeatTimerActive, this`acceleration,
               this`cachedText, this`cachedState, this`cachedValue, this`value, this`pendingEmit,
               this`cleared, this`editText, this`cursor, this`emitted
      ensures Valid()
      ensures Holds(old(buttonState), up) ==>
        buttonState == old(buttonState) && thresholdTimerActive == old(thresholdTimerActive)
        && repeatTimerActive == old(repeatTimerActive) && value == old(value) && emitted == old(emitted)
      ensures !Holds(old(buttonState), up) && !old(DirectionEnabled(up)) ==>
        Idle() && value == old(value) && emitted == old(emitted)
      ensures !Holds(old(buttonState), up) && old(DirectionEnabled(up)) ==>
        buttonState == Pressed(if fromKeyboard then Keyboard else Mouse, up)
        && thresholdTimerActive && !repeatTimerActive && acceleration == 0
        && (!old(pendingEmit) ==>
              value == StepTarget(kind, old(value), old(value), singleStep, RepeatSteps(up, stepModifierHeld),
                                  minimum, maximum, wrapping))
    {
      if Holds(buttonState, up) {
        return;
      }
      Reset();
      assert DirectionEnabled(up) == old(DirectionEnabled(up));
      if DirectionEnabled(up) {
        Press(up, if fromKeyboard then Keyboard else Mouse);
      }
    }

    /** The enabled branch of `updateState`: holds the button, steps once and starts the threshold timer. */
    method Press(up: bool, origin: Origin)
      requires Valid()
      modifies this`buttonState, this`thresholdTimerActive, this`cachedText, this`cachedState,
               this`cachedValue, this`value, this`pendingEmit, this`cleared, this`editText,
               this`cursor, this`emitted
      ensures Valid() && buttonState == Pressed(origin, up) && thresholdTimerActive
      ensures !old(pendingEmit) ==>
        value == StepTarget(kind, old(value), old(value), singleStep, RepeatSteps(up, stepModifierHeld),
                            minimum, maximum, wrapping)
    {
      buttonState := Pressed(origin, up);
      Step(RepeatSteps(up, stepModifierHeld));
      thresholdTimerActive := true;
    }

    /** The step of a step key: shows the button pressed if asked, and steps unless the repeat timer already does. */
    method KeyStep(up: bool, steps: int, animateButton: bool)
      requires Valid() && IsInt(steps) && steps != IntMin
      modifies this`buttonState, this`cachedText, this`cachedState, this`cachedValue, this`value,
               this`pendingEmit, this`cleared, this`editText, this`cursor, this`emitted
      ensures Valid()
      ensures buttonState == if animateButton then Pressed(Keyboard, up) else old(buttonState)
      ensures old(repeatTimerActive) ==> value == old(value) && emitted == old(emitted)
      ensures !old(repeatTimerActive) && !old(pendingEmit) ==>
        value == StepTarget(kind, old(value), old(value), singleStep, steps, minimum, maximum, wrapping)
    {
      if animateButton {
        buttonState := Pressed(Keyboard, up);
      }
      if !repeatTimerActive {
        Step(steps);
      }
    }

    /**
     * `keyPressEvent` for Up, Down, PageUp and PageDown: a step in an enabled
     * direction, unless the repeat timer already steps; an auto-repeated
     * arrow key with both timers stopped also starts the button machine.
     */
    method KeyPress(key: StepKey, modifierHeld: bool, autoRepeat: bool, animateButton: bool)
      requires Valid()
      modifies this`stepModifierHeld, this`buttonState, this`thresholdTimerActive, this`repeatTimerActive,
               this`acceleration, this`cachedText, this`cachedState, this`cachedValue, this`value,
               this`pendingEmit, this`cleared, this`editText, this`cursor, this`emitted
      ensures Valid() && stepModifierHeld == modifierHeld
      ensures !old(DirectionEnabled(key.Upward())) ==>
        value == old(value) && emitted == old(emitted) && buttonState == old(buttonState)
      ensures old(DirectionEnabled(key.Upward())) && !old(repeatTimerActive) && !old(pendingEmit)
              && (!autoRepeat || key.Page()) ==>
        value == StepTarget(kind, old(value), old(value), singleStep, KeySteps(key, modifierHeld),
                            minimum, maximum, wrapping)
    {
      stepModifierHeld := modifierHeld;
      var up := key.Upward();
      if !DirectionEnabled(up) {
        return;
      }
      KeyStep(up, KeySteps(key, modifierHeld), animateButton);
      if autoRepeat && !key.Page() {
        if !thresholdTimerActive && !repeatTimerActive {
          UpdateState(up, true);
        }
      }
    }

    /**
     * `keyPressEvent` for Enter and Return: records the modifiers, sets the
     * edit's text to itself, which moves the cursor to its end and changes
     * nothing else, and runs `interpret` there, always notifying under
     * keyboard tracking. `interpret` does not read the modifiers, so they are
     * recorded last.
     */
    method ReturnPressed(modifierHeld: bool)
      requires Valid()
      modifies this`stepModifierHeld, this`cachedText, this`cachedState, this`cachedValue, this`value,
               this`pendingEmit, this`cleared, this`editText, this`cursor, this`emitted
      ensures Valid() && !pendingEmit && stepModifierHeld == modifierHeld
      ensures value == old(Interpreted(Settings(), MemoNow(), editText, |editText|, groupSeparatorShown,
                                       correctionMode == CorrectToNearestValue, value)).value
      ensures emitted == old(emitted) +
        (if keyboardTracking || value != old(value) then [value] else [])
    {
      Interpret(if keyboardTracking then AlwaysEmit else EmitIfChanged, |editText|);
      stepModifierHeld := modifierHeld;
    }

    /**
     * Any other key, which the line edit handles: it leaves `t` in the edit
     * with the cursor at `newCursor`, and a changed text reaches
     * `editorTextChanged`. A non-empty edit ends the cleared state.
     */
    method EditKeyPress(t: string, newCursor: int, modifierHeld: bool, visible: bool)
      requires Valid()
      modifies this`stepModifierHeld, this`ignoreUpdateEdit, this`cachedText, this`cachedState,
               this`cachedValue, this`value, this`pendingEmit, this`cleared, this`editText,
               this`cursor, this`emitted
      ensures Valid() && stepModifierHeld == modifierHeld && cursor == newCursor
      ensures editText != [] ==> !cleared
      ensures ignoreUpdateEdit == (old(ignoreUpdateEdit) || !visible)
      ensures t == old(editText) ==> value == old(value) && emitted == old(emitted) && editText == t
    {
      stepModifierHeld := modifierHeld;
      cursor := newCursor;
      EditTo(t);
      if editText != [] {
        cleared := false;
      }
      if !visible {
        ignoreUpdateEdit := true;
      }
    }

    /** The line edit's change of its text to `t`, which reaches `editorTextChanged` when it differs. */
    method EditTo(t: string)
      requires Valid()
      modifies this`cachedText, this`cachedState, this`cachedValue, this`value, this`pendingEmit,
               this`cleared, this`editText, this`emitted
      ensures Valid()
      ensures t == old(editText) ==> value == old(value) && emitted == old(emitted) && editText == t
    {
      if t != editText {
        editText := t;
        ghost var accepted := EditorTextChanged(t);
      }
    }

    /** `keyReleaseEvent`: releasing the key that holds a button resets the machine. */
    method KeyRelease(modifierHeld: bool, autoRepeat: bool)
      modifies this`stepModifierHeld, this`buttonState, this`thresholdTimerActive, this`repeatTimerActive,
               this`acceleration
      ensures stepModifierHeld == modifierHeld
      ensures old(buttonState).Pressed? && old(buttonState).origin == Keyboard && !autoRepeat ==> Idle()
      ensures !(old(buttonState).Pressed? && old(buttonState).origin == Keyboard && !autoRepeat) ==>
        buttonState == old(buttonState) && thresholdTimerActive == old(thresholdTimerActive)
        && repeatTimerActive == old(repeatTimerActive) && acceleration == old(acceleration)
    {
      stepModifierHeld := modifierHeld;
      if buttonState.Pressed? && buttonState.origin == Keyboard && !autoRepeat {
        Reset();
      }
    }

    /** `mousePressEvent`: a left press on an enabled Up or Down button, with no button held, starts the machine. */
    method MousePress(leftButton: bool, hover: Hover, modifierHeld: bool, noButtons: bool)
      requires Valid()
      modifies this`stepModifierHeld, this`buttonState, this`thresholdTimerActive, this`repeatTimerActive,
               this`acceleration, this`cachedText, this`cachedState, this`cachedValue, this`value,
               this`pendingEmit, this`cleared, this`editText, this`cursor, this`emitted
      ensures Valid() && stepModifierHeld == modifierHeld
      ensures !leftButton || old(buttonState) != NoButton || noButtons || hover == HoverElsewhere ==>
        buttonState == old(buttonState) && value == old(value) && emitted == old(emitted)
      ensures leftButton && old(buttonState) == NoButton && !noButtons && hover != HoverElsewhere
              && old(DirectionEnabled(hover == HoverUp)) ==>
        buttonState == Pressed(Mouse, hover == HoverUp) && thresholdTimerActive
    {
      stepModifierHeld := modifierHeld;
      if !leftButton || buttonState != NoButton {
        return;
      }
      var se := if noButtons then StepFlags(false, false) else StepFlagsNow();
      if se.up && hover == HoverUp {
        UpdateState(true, false);
      } else if se.down && hover == HoverDown {
        UpdateState(false, false);
      }
    }

    /** `mouseMoveEvent`: while the repeat timer runs, moving onto the other enabled button switches to it, and anywhere else resets. */
    method MouseMove(hover: Hover, modifierHeld: bool, noButtons: bool)
      requires Valid()
      modifies this`stepModifierHeld, this`buttonState, this`thresholdTimerActive, this`repeatTimerActive,
               this`acceleration, this`cachedText, this`cachedState, this`cachedValue, this`value,
               this`pendingEmit, this`cleared, this`editText, this`cursor, this`emitted
      ensures Valid() && stepModifierHeld == modifierHeld
      ensures !old(repeatTimerActive) || noButtons ==>
        buttonState == old(buttonState) && value == old(value) && emitted == old(emitted)
      ensures old(repeatTimerActive) && !noButtons && (hover == HoverElsewhere || !old(DirectionEnabled(hover == HoverUp))) ==>
        Idle() && value == old(value) && emitted == old(emitted)
    {
      stepModifierHeld := modifierHeld;
      if repeatTimerActive && !noButtons {
        var se := StepFlagsNow();
        if se.up && hover == HoverUp {
          UpdateState(true, false);
        } else if se.down && hover == HoverDown {
          UpdateState(false, false);
        } else {
          Reset();
        }
      }
    }

    /** `mouseReleaseEvent`: releasing the mouse that holds a button resets the machine. */
    method MouseRelease(modifierHeld: bool)
      modifies this`stepModifierHeld, this`buttonState, this`thresholdTimerActive, this`repeatTimerActive,
               this`acceleration
      ensures stepModifierHeld == modifierHeld
      ensures old(buttonState).Pressed? && old(buttonState).origin == Mouse ==> Idle()
      ensures !(old(buttonState).Pressed? && old(buttonState).origin == Mouse) ==>
        buttonState == old(buttonState) && thresholdTimerActive == old(thresholdTimerActive)
        && repeatTimerActive == old(repeatTimerActive) && acceleration == old(acceleration)
    {
      stepModifierHeld := modifierHeld;
      if buttonState.Pressed? && buttonState.origin == Mouse {
        Reset();
      }
    }

    /**
     * `timerEvent`: the threshold timer hands over to the repeat timer; each
     * tick of either steps the held button once (ten with the step modifier),
     * or resets the machine once that direction is disabled.
     */
    method TimerEvent(id: TimerId)
      requires Valid()
      modifies this`buttonState, this`thresholdTimerActive, this`repeatTimerActive, this`acceleration,
               this`cachedText, this`cachedState, this`cachedValue, this`value, this`pendingEmit,
               this`cleared, this`editText, this`cursor, this`emitted
      ensures Valid()
      ensures id == ThresholdTimer && old(thresholdTimerActive) ==> !thresholdTimerActive
      ensures var fired := (id == ThresholdTimer && old(thresholdTimerActive)) || (id == RepeatTimer && old(repeatTimerActive));
        (!fired || old(buttonState) == NoButton ==> value == old(value) && emitted == old(emitted))
        && (fired && old(buttonState).Pressed? && !old(DirectionEnabled(buttonState.up)) ==>
              Idle() && value == old(value) && emitted == old(emitted))
        && (fired && old(buttonState).Pressed? && old(DirectionEnabled(buttonState.up)) && !old(pendingEmit) ==>
              buttonState == old(buttonState) && repeatTimerActive
              && value == StepTarget(kind, old(value), old(value), singleStep,
                                     RepeatSteps(buttonState.up, stepModifierHeld), minimum, maximum, wrapping))
    {
      var doStep := false;
      if id == ThresholdTimer && thresholdTimerActive {
        thresholdTimerActive := false;
        repeatTimerActive := true;
        doStep := true;
      } else if id == RepeatTimer && repeatTimerActive {
        doStep := true;
      }
      if doStep && buttonState.Pressed? {
        var up := buttonState.up;
        assert DirectionEnabled(up) == old(DirectionEnabled(up));
        HeldStep(up);
      }
    }

    /** One tick for the held button `up`: a step in its direction, or a reset once that direction is disabled. */
    method HeldStep(up: bool)
      requires Valid() && Holds(buttonState, up)
      modifies this`buttonState, this`thresholdTimerActive, this`repeatTimerActive, this`acceleration,
               this`cachedText, this`cachedState, this`cachedValue, this`value, this`pendingEmit,
               this`cleared, this`editText, this`cursor, this`emitted
      ensures Valid()
      ensures !old(DirectionEnabled(up)) ==> Idle() && value == old(value) && emitted == old(emitted)
      ensures old(DirectionEnabled(up)) ==>
        buttonState == old(buttonState) && thresholdTimerActive == old(thresholdTimerActive)
        && repeatTimerActive == old(repeatTimerActive) && acceleration == old(acceleration)
        && (!old(pendingEmit) ==>
              value == StepTarget(kind, old(value), old(value), singleStep, RepeatSteps(up, stepModifierHeld),
                                  minimum, maximum, wrapping))
    {
      if !DirectionEnabled(up) {
        Reset();
      } else {
        Step(RepeatSteps(up, stepModifierHeld));
      }
    }

    /**
     * `wheelEvent` (vertical delta): whole notches of 120 are taken from the
     * remainder with C++ truncating division and stepped, ten times as far
     * with the step modifier; the rest stays for the next event.
     */
    method Wheel(delta: int, modifierHeld: bool) returns (notches: int)
      requires Valid() && IsInt(delta) && IsInt(wheelDeltaRemainder + delta)
      modifies this`wheelDeltaRemainder, this`cachedText, this`cachedState, this`cachedValue, this`value,
               this`pendingEmit, this`cleared, this`editText, this`cursor, this`emitted
      ensures Valid()
      ensures notches * 120 + wheelDeltaRemainder == old(wheelDeltaRemainder) + delta
      ensures old(wheelDeltaRemainder) + delta >= 0 ==> 0 <= wheelDeltaRemainder
      ensures old(wheelDeltaRemainder) + delta <= 0 ==> wheelDeltaRemainder <= 0
      ensures !old(DirectionEnabled(notches > 0)) ==> value == old(value) && emitted == old(emitted)
      ensures old(DirectionEnabled(notches > 0)) && !old(pendingEmit) ==>
        value == StepTarget(kind, old(value), old(value), singleStep, if modifierHeld then notches * 10 else notches,
                            minimum, maximum, wrapping)
    {
      var total := wheelDeltaRemainder + delta;
      notches := Saturating.Quot(total, 120);
      wheelDeltaRemainder := total - notches * 120;
      if DirectionEnabled(notches > 0) {
        Step(if modifierHeld then notches * 10 else notches);
      }
    }

    /** `focusOutEvent`: commits a pending edit, releases the buttons and refreshes the text. */
    method FocusOut()
      requires Valid()
      modifies this`buttonState, this`thresholdTimerActive, this`repeatTimerActive, this`acceleration,
               this`cachedText, this`cachedState, this`cachedValue, this`value, this`pendingEmit,
               this`cleared, this`editText, this`cursor, this`emitted
      ensures Valid() && Idle() && !pendingEmit
      ensures editText == if cleared then old(editText) else NewText()
      ensures old(pendingEmit) ==> emitted == old(emitted) + (if value != old(value) then [value] else [])
      ensures !old(pendingEmit) ==> value == old(value) && emitted == old(emitted)
    {
      CommitIfPending();
      Reset();
      UpdateEdit();
    }

    /** A pending edit is committed, notifying only a changed value; without one nothing changes. */
    method CommitIfPending()
      requires Valid()
      modifies this`cachedText, this`cachedState, this`cachedValue, this`value, this`pendingEmit,
               this`cleared, this`editText, this`cursor, this`emitted
      ensures Valid() && !pendingEmit
      ensures old(pendingEmit) ==>
        !cleared && editText == NewText() && emitted == old(emitted) + (if value != old(value) then [value] else [])
      ensures !old(pendingEmit) ==>
        value == old(value) && emitted == old(emitted) && editText == old(editText) && cleared == old(cleared)
    {
      if pendingEmit {
        Interpret(EmitIfChanged, cursor);
      }
    }

    /** `hideEvent`: releases the buttons and commits a pending edit. */
    method Hide()
      requires Valid()
      modifies this`buttonState, this`thresholdTimerActive, this`repeatTimerActive, this`acceleration,
               this`cachedText, this`cachedState, this`cachedValue, this`value, this`pendingEmit,
               this`cleared, this`editText, this`cursor, this`emitted
      ensures Valid() && Idle() && !pendingEmit
      ensures old(pendingEmit) ==> emitted == old(emitted) + (if value != old(value) then [value] else [])
      ensures !old(pendingEmit) ==> value == old(value) && emitted == old(emitted) && editText == old(editText)
    {
      Reset();
      CommitIfPending();
    }

    /** `showEvent`: releases the buttons and refreshes the text, unless a refresh was suppressed while hidden. */
    method Show()
      modifies this`buttonState, this`thresholdTimerActive, this`repeatTimerActive, this`acceleration,
               this`ignoreUpdateEdit, this`editText
      ensures Idle() && !ignoreUpdateEdit
      ensures editText == if old(ignoreUpdateEdit) || cleared then old(editText) else NewText()
    {
      Reset();
      if ignoreUpdateEdit {
        ignoreUpdateEdit := false;
      } else {
        UpdateEdit();
      }
    }

    /**
     * The validation step of `editorTextChanged`: whether `t` validates as
     * Acceptable at the edit's cursor, the value `valueFromText` then reads
     * back, and the rewritten text. The read back answers from the memo the
     * validation left, so it gives the validated value.
     */
    method AcceptedValue(t: string) returns (acceptable: bool, v: int, t': string)
      requires Valid()
      modifies this`cachedText, this`cachedState, this`cachedValue
      ensures Valid() && minimum <= v <= maximum
      ensures var r := old(Validated(Settings(), MemoNow(), t, cursor));
        (acceptable <==> r.0.state == Acceptable) && t' == r.0.text && MemoNow() == r.1
        && (acceptable ==> v == r.0.value)
      ensures Bare(t) ==> t' == t
    {
      RevalidationIsStable(Settings(), MemoNow(), t, cursor, cursor);
      if Bare(t) {
        ClearedTextIsKept(Settings(), MemoNow(), t, cursor);
      }
      var tmp := t;
      var pos := cursor;
      var _, state, tmp1, _ := ValidateAndInterpret(tmp, pos);
      acceptable := state == Acceptable;
      t' := tmp1;
      v := minimum;
      if acceptable {
        v := ValueFromText(t', cursor);
      }
    }

    /**
     * `editorTextChanged(t)`, with `t` in the edit: under keyboard tracking an
     * Acceptable text becomes the value at once, and anything else leaves an
     * edit pending. `accepted` is whether the text was taken.
     */
    method EditorTextChanged(t: string) returns (ghost accepted: bool)
      requires Valid()
      modifies this`cachedText, this`cachedState, this`cachedValue, this`value, this`pendingEmit,
               this`cleared, this`editText, this`emitted
      ensures Valid()
      ensures pendingEmit == !accepted
      ensures accepted <==> keyboardTracking && old(Validated(Settings(), MemoNow(), t, cursor)).0.state == Acceptable
      ensures !accepted ==> value == old(value) && emitted == old(emitted) && editText == old(editText)
      ensures accepted ==>
        var r := old(Validated(Settings(), MemoNow(), t, cursor));
        value == r.0.value && !cleared && emitted == old(emitted) + (if value != old(value) then [value] else [])
        && editText == if r.0.text != t then NewText() else old(editText)
      ensures Bare(t) ==> editText == old(editText)
    {
      accepted := false;
      if keyboardTracking {
        var acceptable, v, tmp' := AcceptedValue(t);
        accepted := acceptable;
        Take(acceptable, v, tmp' != t);
      } else {
        pendingEmit := true;
      }
    }

    /** The end of `editorTextChanged` under keyboard tracking: an acceptable text sets `v`, anything else leaves an edit pending. */
    method Take(acceptable: bool, v: int, doUpdate: bool)
      requires Valid() && minimum <= v <= maximum
      modifies this`value, this`pendingEmit, this`cleared, this`editText, this`emitted
      ensures Valid() && pendingEmit == !acceptable
      ensures !acceptable ==> value == old(value) && emitted == old(emitted) && editText == old(editText)
      ensures acceptable ==>
        value == v && !cleared && emitted == old(emitted) + (if value != old(value) then [value] else [])
        && editText == if doUpdate then NewText() else old(editText)
    {
      if acceptable {
        SetValue(v, EmitIfChanged, doUpdate);
        pendingEmit := false;
      } else {
        pendingEmit := true;
      }
    }

    /**
     * `clear()`: empties the edit down to prefix and suffix, which reaches
     * `editorTextChanged`, puts the cursor after the prefix and marks the
     * edit cleared.
     */
    method Clear()
      requires Valid()
      modifies this`cachedText, this`cachedState, this`cachedValue, this`value, this`pendingEmit,
               this`cleared, this`editText, this`cursor, this`emitted
      ensures Valid() && cleared && cursor == |prefix|
      ensures old(editText) == prefix + suffix ==>
        editText == old(editText) && value == old(value) && emitted == old(emitted)
      ensures specialValueText == [] || prefix + suffix != specialValueText ==> editText == prefix + suffix
    {
      var t := prefix + suffix;
      if t != editText {
        ReplaceText(t);
      }
      cursor := |prefix|;
      cleared := true;
    }

    /**
     * `QLineEdit::setText(t)` for a new text: the cursor goes to the end and
     * `editorTextChanged` runs there. The edit keeps `t` unless keyboard
     * tracking takes it as Acceptable and validation rewrote it.
     */
    method ReplaceText(t: string)
      requires Valid()
      modifies this`cachedText, this`cachedState, this`cachedValue, this`value, this`pendingEmit,
               this`cleared, this`editText, this`cursor, this`emitted
      ensures Valid() && cursor == |t|
      ensures Bare(t) ==> editText == t
    {
      editText := t;
      cursor := |t|;
      ghost var accepted := EditorTextChanged(t);
    }
  }
}
