# QExtraSpinBox value engine, in Dafny

This project models `QExtraSpinBoxPrivate<T>`, the template engine shared by the QtExtraSpinBoxes spin boxes
(`QInt32SpinBox`, `QUInt32SpinBox`, `QInt64SpinBox`, `QUInt64SpinBox`), and proves properties of the model.
`T` is `IntTypes.Kind`: the four fixed-width types, as unbounded integers with explicit ranges, conversions and
saturation. The files are:

- `inttypes.dfy`: `Option`, the four kinds, `qBound` and the C++ integral conversion.
- `saturating.dfy`: the unsigned and signed `valueAdd`/`valueSub`/`valueMul`. The signed multiplication is
  guarded by C++ division, which truncates toward zero (`Quot`).
- `stepping.dfy`: `bound`, the value `stepBy` computes, `stepEnabledImpl`, and the step counts of keys and
  timers.
- `text.dfy`: `stripped`, `fixup`, the `QString` operations they use, and the validator's repair of a missing
  prefix or suffix.
- `validation.dfy`: `validateAndInterpret` with its memo (`cachedText`/`cachedValue`/`cachedState`), the
  validator, and the value `interpret` commits.
- `spinbox.dfy`: class `SpinBox.Engine`, which holds the engine's fields. Its methods are the setters,
  `setValue`/`emitSignals`, `stepBy`, `interpret`, `editorTextChanged`, `clear`, and the key, mouse, wheel,
  timer, focus, hide and show handlers. It also holds the button-state machine `reset`/`updateState`.

Every engine method keeps the invariant `Valid()`, defined as `EngineInvariant.EngineOk`:
- the range and the step are values of `T`, with `minimum <= maximum`;
- the display base lies in [2, 36];
- the memo is complete and its value lies in the range;
- the wheel remainder is less than one notch;
- `value` lies in `[minimum, maximum]`.

Methods are proved against the functions of `Validation` and `Stepping`. For example, `Interpret` commits
exactly `Interpreted(...)`, and a step sets exactly `StepTarget(...)`. Lemmas about those functions carry the
properties.

The quirks of the source are modelled as written:
- Only `setRange` and `interpret` clear the memo. `setPrefix`, `setSuffix` and `setDisplayIntegerBase` keep it.
- `setSingleStep` takes a `quint32`, so a 64-bit step keeps its low 32 bits. Its `value >= 0` test always
  holds.
- A non-decimal base, and the group-separator retry, parse through the 32-bit `toInt`.
- Under `CorrectToNearestValue`, `interpret` bounds the default `T{}` (0), not the typed text.
- The separator retry's guard `minimum <= -1000` is evaluated in `T`. For an unsigned `T` the `-1000` becomes
  `2^N - 1000`, so the retry runs on nearly every unsigned range, whatever its maximum.
- `valueFromTextImpl` validates at the line edit's current cursor, not at the `pos` that `interpret` carries.

Locale, radix and formatting services are the function values of `Validation.Codec`:
- `QLocale::toInt`/`toUInt`/`toLongLong`/`toULongLong`;
- `QString::toInt(&ok, base)`;
- `QLocale::groupSeparator`;
- `textFromValue`.

The properties of the host `QAbstractSpinBox` that the engine reads are fields of the class. `SetHostProperties`
stands for the host's own setters, which are not part of this model, and sets them:
- `wrapping`, `isReadOnly`, `keyboardTracking`, `isGroupSeparatorShown`;
- `correctionMode` and `specialValueText`.

The line edit's text and cursor are fields too. They change through the events that edit them:
`EditKeyPress`, `EditTo`, `ReplaceText`, `Clear` and `ReturnPressed`.

Signal emission is the ghost sequence `emitted` of the values reported.

## Model

| member | source | states |
|---|---|---|
| Saturating.UnsignedAdd | src/QtExtraSpinBoxes/private/qextraspinbox_p.hpp:59-67 | unsigned `valueAdd` is the true sum clamped to the range of `T` |
| Saturating.UnsignedSub | src/QtExtraSpinBoxes/private/qextraspinbox_p.hpp:69-76 | unsigned `valueSub` is the true difference clamped to `T` (0 when `a < b`) |
| Saturating.UnsignedMul | src/QtExtraSpinBoxes/private/qextraspinbox_p.hpp:78-89 | unsigned `valueMul` is the true product clamped to `T`, and 0 when either operand is 0 |
| Saturating.SignedAdd | src/QtExtraSpinBoxes/private/qextraspinbox_p.hpp:91-104 | signed `valueAdd` is the true sum clamped to [TMIN, TMAX] |
| Saturating.SignedSub | src/QtExtraSpinBoxes/private/qextraspinbox_p.hpp:106-119 | signed `valueSub` is the true difference clamped to [TMIN, TMAX] |
| Saturating.SignedMul | src/QtExtraSpinBoxes/private/qextraspinbox_p.hpp:121-151 | signed `valueMul` is the true product clamped to [TMIN, TMAX], and 0 when either operand is 0 |
| Saturating.Quot | src/QtExtraSpinBoxes/private/qextraspinbox_p.hpp:131-147 | C++ `/` truncates toward zero, for each sign combination the guards use |
| Saturating.SignedMulBothPositive | src/QtExtraSpinBoxes/private/qextraspinbox_p.hpp:130-133 | for positive operands the guard `a > max / b` holds exactly when the product overflows upward |
| Saturating.SignedMulMixed | src/QtExtraSpinBoxes/private/qextraspinbox_p.hpp:134-143 | for operands of opposite signs the guards `b < min / a` and `a < min / b` hold exactly when the product overflows downward |
| Saturating.SignedMulBothNegative | src/QtExtraSpinBoxes/private/qextraspinbox_p.hpp:144-147 | for negative operands the guard `a < max / b` holds exactly when the product overflows upward |
| Saturating.ValueAdd | src/QtExtraSpinBoxes/private/qextraspinbox_p.hpp:59-104 | the overload `valueAdd` picks: the sum clamped to `T` for every kind |
| Saturating.ValueSub | src/QtExtraSpinBoxes/private/qextraspinbox_p.hpp:69-119 | the overload `valueSub` picks: the difference clamped to `T` for every kind |
| Saturating.ValueMul | src/QtExtraSpinBoxes/private/qextraspinbox_p.hpp:78-151 | the overload `valueMul` picks: the product clamped to `T`, 0 with a zero operand |
| IntTypes.QBound | src/QtExtraSpinBoxes/private/qextraspinbox_p.hpp:1341 | `qBound(lo, x, hi)` lies in [lo, hi] when lo <= hi and leaves an in-range `x` alone |
| IntTypes.ToT | src/QtExtraSpinBoxes/private/qextraspinbox_p.hpp:397-399 | a conversion to `T` is the value of `T` congruent to `x` modulo 2^N, and the identity on values of `T` |
| Stepping.Bound | src/QtExtraSpinBoxes/private/qextraspinbox_p.hpp:1145-1169 | `bound` always lands in [minimum, maximum] and leaves an in-range value unchanged |
| Stepping.BoundWithoutStep | src/QtExtraSpinBoxes/private/qextraspinbox_p.hpp:1148-1154 | without wrapping, `old` or steps, below the range goes to minimum (maximum if wrapping), above to maximum (minimum if wrapping) |
| Stepping.WrapUpFromMaximum | src/QtExtraSpinBoxes/private/qextraspinbox_p.hpp:1159-1160 | a wrapping step up past maximum from `old == maximum` gives minimum |
| Stepping.StopUpFromInterior | src/QtExtraSpinBoxes/private/qextraspinbox_p.hpp:1159-1160 | a wrapping step up past maximum from any other `old` stops at maximum |
| Stepping.WrapDownFromMinimum | src/QtExtraSpinBoxes/private/qextraspinbox_p.hpp:1163-1164 | a wrapping step down past minimum from `old == minimum` gives maximum |
| Stepping.StopDownFromInterior | src/QtExtraSpinBoxes/private/qextraspinbox_p.hpp:1163-1164 | a wrapping step down past minimum from an interior `old` stops at minimum |
| Stepping.StepCandidate | src/QtExtraSpinBoxes/private/qextraspinbox_p.hpp:396-400 | the saturating candidate of `stepBy` is `value ± singleStep·abs(steps)`, with the product and then the sum clamped to `T` |
| Stepping.StepTarget | src/QtExtraSpinBoxes/private/qextraspinbox_p.hpp:396-400 | the value `stepBy` sets, the bounded candidate, lies in [minimum, maximum] |
| Stepping.StepWrapsAtMaximum | src/QtExtraSpinBoxes/private/qextraspinbox_p.hpp:1159-1160 | with maximum < TMAX, a wrapping step up from maximum gives minimum |
| Stepping.StepStaysAtTypeMaximum | src/QtExtraSpinBoxes/private/qextraspinbox_p.hpp:1159-1160 | with maximum == TMAX, saturation keeps a wrapping step up from maximum at maximum |
| Stepping.StepWrapsAtMinimum | src/QtExtraSpinBoxes/private/qextraspinbox_p.hpp:1163-1164 | with minimum > TMIN, a wrapping step down from minimum gives maximum |
| Stepping.StepStaysAtTypeMinimum | src/QtExtraSpinBoxes/private/qextraspinbox_p.hpp:1163-1164 | with minimum == TMIN (0 unsigned), a wrapping step down from minimum stays at minimum |
| Stepping.StepClampsWithoutWrapping | src/QtExtraSpinBoxes/private/qextraspinbox_p.hpp:1148-1154 | without wrapping, a step up from maximum stays at maximum and a step down from minimum stays at minimum |
| Stepping.StepEnabled | src/QtExtraSpinBoxes/private/qextraspinbox_p.hpp:558-575 | nothing when read-only, both directions when wrapping, else Up iff value < maximum and Down iff value > minimum |
| Stepping.StepEnabledIffStepMoves | src/QtExtraSpinBoxes/private/qextraspinbox_p.hpp:558-575 | without wrapping, a direction is enabled exactly when a step in it changes the value |
| Stepping.KeySteps | src/QtExtraSpinBoxes/private/qextraspinbox_p.hpp:761-791 | a step key asks for 10 steps (Page keys or the modifier) or 1, positive exactly for the upward keys |
| Stepping.RepeatSteps | src/QtExtraSpinBoxes/private/qextraspinbox_p.hpp:1411-1413 | a press or a timer tick asks for 1 step, or 10 with the modifier, positive exactly when up |
| Text.Leading | src/QtExtraSpinBoxes/private/qextraspinbox_p.hpp:1091 | `trimmed` skips leading characters up to the first one that is not whitespace |
| Text.LeadingIsSpace | src/QtExtraSpinBoxes/private/qextraspinbox_p.hpp:1091 | every leading character `trimmed` skips is whitespace |
| Text.Trailing | src/QtExtraSpinBoxes/private/qextraspinbox_p.hpp:1091 | `trimmed` skips trailing characters up to the last one that is not whitespace |
| Text.TrailingIsSpace | src/QtExtraSpinBoxes/private/qextraspinbox_p.hpp:1091 | every trailing character `trimmed` skips is whitespace |
| Text.Trim | src/QtExtraSpinBoxes/private/qextraspinbox_p.hpp:1091 | `trimmed` gives a text with no whitespace at either end, a contiguous slice of its input |
| Text.TrimDropsOnlySpace | src/QtExtraSpinBoxes/private/qextraspinbox_p.hpp:1091 | what `trimmed` drops at either end is whitespace |
| Text.TrimKeepsTrimmed | src/QtExtraSpinBoxes/private/qextraspinbox_p.hpp:1091 | `trimmed` leaves a text that is already trimmed unchanged |
| Text.RemoveAll | src/QtExtraSpinBoxes/private/qextraspinbox_p.hpp:365 | `QString::remove` never lengthens the text and leaves a text without occurrences unchanged |
| Text.Without | src/QtExtraSpinBoxes/private/qextraspinbox_p.hpp:365 | the reference filter: the text with one character left out, the rest in order |
| Text.RemoveAllIsWithout | src/QtExtraSpinBoxes/private/qextraspinbox_p.hpp:1290 | removing a one-character string equals the order-preserving filter of its character |
| Text.RemoveAllRemovesChar | src/QtExtraSpinBoxes/private/qextraspinbox_p.hpp:1290 | removing a one-character separator leaves no such character |
| Text.Fixup | src/QtExtraSpinBoxes/private/qextraspinbox_p.hpp:360-367 | `fixup` leaves the text alone when group separators are shown or none occurs |
| Text.FixupRemovesSeparator | src/QtExtraSpinBoxes/private/qextraspinbox_p.hpp:360-367 | when separators are not shown, `fixup` with a one-character separator is the order-preserving filter of it, so none remains |
| Text.Mid | src/QtExtraSpinBoxes/private/qextraspinbox_p.hpp:1086 | `mid(from, n)` is the slice of n characters, or the rest when n is negative or runs past the end |
| Text.Undecorated | src/QtExtraSpinBoxes/private/qextraspinbox_p.hpp:1076-1087 | removing prefix and suffix never lengthens the text |
| Text.Stripped | src/QtExtraSpinBoxes/private/qextraspinbox_p.hpp:1066-1097 | `stripped` gives a trimmed text no longer than its input, and moves `pos` back by at most the input's length |
| Text.StrippedDecorated | src/QtExtraSpinBoxes/private/qextraspinbox_p.hpp:1072-1094 | `prefix + d + suffix`, when it is not the special-value text, strips to `trimmed(d)` with `pos` moved back by the trimmed whitespace |
| Text.StrippedUndecorated | src/QtExtraSpinBoxes/private/qextraspinbox_p.hpp:1076-1094 | a text that neither starts with the prefix nor ends with the suffix is only trimmed |
| Text.StrippedSpecialValue | src/QtExtraSpinBoxes/private/qextraspinbox_p.hpp:1072 | the special-value text keeps its prefix and suffix and is only trimmed |
| Text.StrippedOverlapping | src/QtExtraSpinBoxes/private/qextraspinbox_p.hpp:1076-1087 | when prefix and suffix overlap in the text, the negative `mid` size keeps everything after the prefix |
| Text.AddPrefix | src/QtExtraSpinBoxes/private/qextraspinbox_p.hpp:1440-1443 | the validator prepends a missing prefix and advances `pos` by its length; the input survives as a suffix |
| Text.AddSuffix | src/QtExtraSpinBoxes/private/qextraspinbox_p.hpp:1445-1447 | the validator appends a missing suffix; the text survives as a prefix |
| Text.Decorate | src/QtExtraSpinBoxes/private/qextraspinbox_p.hpp:1440-1447 | the repaired input starts with the prefix and ends with the suffix, holds the input at the shifted `pos`, and is unchanged when nothing was missing |
| Text.DecorateIdempotent | src/QtExtraSpinBoxes/private/qextraspinbox_p.hpp:1440-1447 | repairing a repaired input changes nothing |
| Validation.FromInt | src/QtExtraSpinBoxes/private/qextraspinbox_p.hpp:1263 | an `int` parse result assigned to `T` is a value of `T` |
| Validation.ParseNumber | src/QtExtraSpinBoxes/private/qextraspinbox_p.hpp:1261-1294 | a successful parse (radix, locale, or the separator-free retry through `toInt`, guarded by `maximum >= 1000 \|\| minimum <= -1000` compared in `T`) gives a value of `T` |
| Validation.RetryBound | src/QtExtraSpinBoxes/private/qextraspinbox_p.hpp:1285 | the `-1000` of the retry guard, converted to `T`: -1000 for a signed `T`, `2^N - 1000` for an unsigned one |
| Validation.UnsignedRangeRetries | src/QtExtraSpinBoxes/private/qextraspinbox_p.hpp:1285-1293 | on an unsigned `T` with minimum <= 2^N - 1000 the retry parses the separator-free text, whatever the maximum |
| Validation.SmallSignedRangeDoesNotRetry | src/QtExtraSpinBoxes/private/qextraspinbox_p.hpp:1285 | on a signed `T` with a range inside (-1000, 1000) a text the locale rejects is not parsed again |
| Validation.SeparatedDigitsOnSmallUnsignedRange | src/QtExtraSpinBoxes/private/qextraspinbox_p.hpp:1285-1303 | "1,2" on a `quint32` box over [0, 99] is Acceptable with value 12 once the locale rejects it and `toInt("12")` is 12 |
| Validation.Classify | src/QtExtraSpinBoxes/private/qextraspinbox_p.hpp:1253-1314 | Acceptable iff not pending, not a forbidden minus, parsed and inside the range; an Acceptable value is the parsed one, any other is minimum when maximum > 0 and else maximum |
| Validation.PendingIsIntermediate | src/QtExtraSpinBoxes/private/qextraspinbox_p.hpp:1255-1257 | on a range of more than one value, empty text and a lone allowed sign are Intermediate |
| Validation.MinusOnNonNegativeRangeIsInvalid | src/QtExtraSpinBoxes/private/qextraspinbox_p.hpp:1258-1259 | a leading '-' with minimum >= 0 is Invalid |
| Validation.UnparsableIsInvalid | src/QtExtraSpinBoxes/private/qextraspinbox_p.hpp:1296-1297 | a failed parse is Invalid |
| Validation.OutOfRangeVerdict | src/QtExtraSpinBoxes/private/qextraspinbox_p.hpp:1300-1310 | an out-of-range parse is Invalid when min == max or it overshoots on its own sign side, else Intermediate |
| Validation.IntermediateLiesTowardRange | src/QtExtraSpinBoxes/private/qextraspinbox_p.hpp:1300-1310 | a parsed Intermediate number is a positive number below minimum or a negative one above maximum |
| Validation.Interpretation | src/QtExtraSpinBoxes/private/qextraspinbox_p.hpp:1250-1318 | the uncached result: value in the range, input rewritten to start with prefix and end with suffix, `pos` moved back by at most the input's length |
| Validation.DecoratedValueIsAcceptable | src/QtExtraSpinBoxes/private/qextraspinbox_p.hpp:1250-1318 | a decorated in-range number the locale parses back is Acceptable with that value, and text and cursor come back unchanged |
| Validation.MissingSuffixIsRestored | src/QtExtraSpinBoxes/private/qextraspinbox_p.hpp:1445-1449 | a text that lost its suffix is repaired by the validator and then validates as Acceptable with its value |
| Validation.Validated | src/QtExtraSpinBoxes/private/qextraspinbox_p.hpp:1239-1322 | the memo left holds the returned text, value and state; a valid memo and range give a value in the range and a valid memo |
| Validation.MissInterprets | src/QtExtraSpinBoxes/private/qextraspinbox_p.hpp:1241-1246 | when the memo does not hold the non-empty input, the result is the uncached interpretation |
| Validation.ClearedTextIsKept | src/QtExtraSpinBoxes/private/qextraspinbox_p.hpp:1076-1087 | validation gives back prefix + suffix unchanged, from the memo or not, unless it is the special-value text |
| Validation.RevalidationIsStable | src/QtExtraSpinBoxes/private/qextraspinbox_p.hpp:1239-1322 | validating the text a validation gave back gives the same state and value, at any cursor, and leaves the memo unchanged |
| Validation.ValidatorAnswer | src/QtExtraSpinBoxes/private/qextraspinbox_p.hpp:1434-1450 | the special-value text is Acceptable as is with the memo untouched; any other answer text carries prefix and suffix |
| Validation.DecoratedAnswer | src/QtExtraSpinBoxes/private/qextraspinbox_p.hpp:1440-1449 | after repair and validation the input starts with the prefix and ends with the suffix |
| Validation.Interpreted | src/QtExtraSpinBoxes/private/qextraspinbox_p.hpp:1324-1352 | the value `interpret` commits lies in the range and the memo it leaves stays valid |
| Validation.ReadBack | src/QtExtraSpinBoxes/private/qextraspinbox_p.hpp:514-520 | `valueFromText` keeps the range and the memo valid and does not move the cursor |
| Validation.Refixed | src/QtExtraSpinBoxes/private/qextraspinbox_p.hpp:1334-1345 | the correction path commits a value in the range, the fallback one included |
| Validation.AcceptableTextIsCommitted | src/QtExtraSpinBoxes/private/qextraspinbox_p.hpp:1334-1345 | Acceptable text commits the value its validation found |
| Validation.FixedTextIsCommitted | src/QtExtraSpinBoxes/private/qextraspinbox_p.hpp:1334-1345 | text made Acceptable by `fixup` commits the value of the fixed text |
| Validation.UnacceptableTextFallsBack | src/QtExtraSpinBoxes/private/qextraspinbox_p.hpp:1339-1342 | text that stays unacceptable commits `qBound(minimum, 0, maximum)` under CorrectToNearestValue and the current value otherwise |
| SpinBox.StoredSingleStep | src/QtExtraSpinBoxes/private/qextraspinbox_p.hpp:294-300 | the step stored through the `quint32` parameter is unchanged for 32-bit `T` and the low 32 bits for 64-bit `T` |
| SpinBox.Engine.SpecialValue | src/QtExtraSpinBoxes/private/qextraspinbox_p.hpp:258-262 | the special value is shown only at the minimum with a non-empty special-value text, and never otherwise |
| SpinBox.Engine.NewText | src/QtExtraSpinBoxes/private/qextraspinbox_p.hpp:1102 | the text `updateEdit` builds is the special-value text, or else starts with the prefix and ends with the suffix |
| SpinBox.Engine.DisplayedValueIsAcceptable | src/QtExtraSpinBoxes/private/qextraspinbox_p.hpp:1102 | the displayed decimal text of the value, when the locale parses it back, validates as Acceptable with that value and comes back unchanged |
| SpinBox.Engine.SpecialValueTextIsAcceptable | src/QtExtraSpinBoxes/private/qextraspinbox_p.hpp:1436-1438 | the displayed special-value text passes the validator unchanged as Acceptable, memo untouched |
| SpinBox.Engine.constructor | src/QtExtraSpinBoxes/private/qextraspinbox_p.hpp:176-256 | the field defaults (0 in [0, 99], step 1, base 10, empty memo in state Invalid) and `init`'s `updateEdit` |
| SpinBox.Engine.UpdateEdit | src/QtExtraSpinBoxes/private/qextraspinbox_p.hpp:1099-1123 | the edit shows the special-value text or prefix + text + suffix, unless it was cleared |
| SpinBox.Engine.ClearCache | src/QtExtraSpinBoxes/private/qextraspinbox_p.hpp:1125-1130 | the memo is empty and its state Acceptable |
| SpinBox.Engine.Reset | src/QtExtraSpinBoxes/private/qextraspinbox_p.hpp:1132-1143 | no button held, both timers stopped, acceleration 0 |
| SpinBox.Engine.EmitSignals | src/QtExtraSpinBoxes/private/qextraspinbox_p.hpp:1171-1179 | any policy but NeverEmit clears `pendingEmit`, and notifies when forced or changed |
| SpinBox.Engine.SetValue | src/QtExtraSpinBoxes/private/qextraspinbox_p.hpp:340-358 | the value is the bounded argument, the edit is settled, and a notification goes out iff the policy asks for it |
| SpinBox.Engine.SetRange | src/QtExtraSpinBoxes/private/qextraspinbox_p.hpp:274-292 | minimum == min, maximum == max(min, max), the memo dropped, buttons reset, value bounded into range, and a notification only if the value moved |
| SpinBox.Engine.Restart | src/QtExtraSpinBoxes/private/qextraspinbox_p.hpp:278-284 | the first half of `setRange`: memo dropped, range stored, buttons reset |
| SpinBox.Engine.Rebound | src/QtExtraSpinBoxes/private/qextraspinbox_p.hpp:285-289 | the second half of `setRange`: the value bounded with a notification only on change, the special-value text refreshed otherwise |
| SpinBox.Engine.SetMinimum | src/QtExtraSpinBoxes/private/qextraspinbox_p.hpp:264-267 | minimum == v, and the maximum rises to v only when it lay below |
| SpinBox.Engine.SetMaximum | src/QtExtraSpinBoxes/private/qextraspinbox_p.hpp:269-272 | maximum == v, and the minimum falls to v only when it lay above |
| SpinBox.Engine.SetSingleStep | src/QtExtraSpinBoxes/private/qextraspinbox_p.hpp:294-300 | the step stored is the `quint32` narrowing of the argument, and the edit is refreshed |
| SpinBox.Engine.SetDisplayIntegerBase | src/QtExtraSpinBoxes/private/qextraspinbox_p.hpp:302-315 | a base outside [2, 36] becomes 10, the edit refreshes only on a change, the memo is kept |
| SpinBox.Engine.SetPrefix | src/QtExtraSpinBoxes/private/qextraspinbox_p.hpp:317-327 | the prefix is set, the edit refreshed, the memo kept |
| SpinBox.Engine.SetSuffix | src/QtExtraSpinBoxes/private/qextraspinbox_p.hpp:329-338 | the suffix is set, the edit refreshed, the memo kept |
| SpinBox.Engine.ValidateAndInterpret | src/QtExtraSpinBoxes/private/qextraspinbox_p.hpp:1239-1322 | the outputs and the new memo are exactly `Validated` of the old memo |
| SpinBox.Engine.Validate | src/QtExtraSpinBoxes/private/qextraspinbox_p.hpp:1434-1450 | the state, input, cursor and memo are exactly `ValidatorAnswer` |
| SpinBox.Engine.ValidateDecorated | src/QtExtraSpinBoxes/private/qextraspinbox_p.hpp:1440-1449 | the validator's repair and delegation give exactly `DecoratedAnswer` |
| SpinBox.Engine.ValidateImpl | src/QtExtraSpinBoxes/private/qextraspinbox_p.hpp:409-414 | the state and memo are the ones `Validated` gives |
| SpinBox.Engine.ValueFromText | src/QtExtraSpinBoxes/private/qextraspinbox_p.hpp:514-520 | the value `Validated` gives the text at the given edit cursor, with its memo |
| SpinBox.Engine.InterpretedValue | src/QtExtraSpinBoxes/private/qextraspinbox_p.hpp:1326-1346 | the value, cursor and memo are exactly `Interpreted` of the edit's text at the given edit cursor |
| SpinBox.Engine.Refix | src/QtExtraSpinBoxes/private/qextraspinbox_p.hpp:1334-1345 | the correction step gives exactly `Refixed` |
| SpinBox.Engine.Interpret | src/QtExtraSpinBoxes/private/qextraspinbox_p.hpp:1324-1352 | with the edit's cursor at `at`, the value and cursor are `Interpreted`'s, the memo is cleared, the edit refreshed, and a notification goes out as the policy says |
| SpinBox.Engine.Settle | src/QtExtraSpinBoxes/private/qextraspinbox_p.hpp:1347-1351 | the end of `interpret`: memo cleared, value set, cursor moved |
| SpinBox.Engine.CommitPending | src/QtExtraSpinBoxes/private/qextraspinbox_p.hpp:373-385 | without a pending edit nothing changes; with one the step is off iff the edit does not validate, the committed value is `Interpreted`'s, and AlwaysEmit iff it changed |
| SpinBox.Engine.CommitEdit | src/QtExtraSpinBoxes/private/qextraspinbox_p.hpp:378-381 | the validation's verdict, then the committed value `Interpreted` gives on the memo the validation left |
| SpinBox.Engine.StepBy | src/QtExtraSpinBoxes/private/qextraspinbox_p.hpp:369-407 | a taken step sets `StepTarget` from the committed value with the old value as `old`; without a pending edit the step is always taken; an edit that does not validate blocks it; a notification goes out iff the final value differs from the value before the call, whether the commit or the step changed it |
| SpinBox.Engine.Advance | src/QtExtraSpinBoxes/private/qextraspinbox_p.hpp:387-403 | the step when allowed, otherwise only the notification a changed commit owes |
| SpinBox.Engine.StepFrom | src/QtExtraSpinBoxes/private/qextraspinbox_p.hpp:396-400 | the step sets exactly `StepTarget` and notifies as the policy says |
| SpinBox.Engine.Step | src/QtExtraSpinBoxes/private/qextraspinbox_p.hpp:369-407 | without a pending edit the value becomes `StepTarget` from the current value |
| SpinBox.Engine.UpdateState | src/QtExtraSpinBoxes/private/qextraspinbox_p.hpp:1403-1421 | the held direction changes nothing; a disabled one leaves the machine idle; an enabled one holds the button and starts the threshold timer, and without a pending edit steps once |
| SpinBox.Engine.Press | src/QtExtraSpinBoxes/private/qextraspinbox_p.hpp:1409-1415 | the button is held and the threshold timer runs; without a pending edit one step is taken |
| SpinBox.Engine.KeyStep | src/QtExtraSpinBoxes/private/qextraspinbox_p.hpp:792-797 | the button shows pressed when animated; without a pending edit the step is taken unless the repeat timer runs |
| SpinBox.Engine.KeyPress | src/QtExtraSpinBoxes/private/qextraspinbox_p.hpp:761-807 | a disabled direction changes nothing; otherwise, without a pending edit and for a key that is not an auto-repeat, the keyed step count is applied unless the repeat timer runs; for an auto-repeated arrow key the value is not stated |
| SpinBox.Engine.ReturnPressed | src/QtExtraSpinBoxes/private/qextraspinbox_p.hpp:754-828 | the modifiers are recorded; `setText(text())` moves the cursor to the end; the committed value is `Interpreted`'s at that cursor, notified always under keyboard tracking and otherwise on change |
| SpinBox.Engine.EditKeyPress | src/QtExtraSpinBoxes/private/qextraspinbox_p.hpp:893-899 | a key the line edit takes: the cursor moves, a non-empty edit ends the cleared state, a hidden widget suppresses the next refresh |
| SpinBox.Engine.EditTo | src/QtExtraSpinBoxes/private/qextraspinbox_p.hpp:893 | an unchanged text changes neither the value nor the notifications |
| SpinBox.Engine.KeyRelease | src/QtExtraSpinBoxes/private/qextraspinbox_p.hpp:902-910 | releasing a key that holds a button resets the machine, anything else leaves it |
| SpinBox.Engine.MousePress | src/QtExtraSpinBoxes/private/qextraspinbox_p.hpp:933-955 | only a left press with no button held, over an enabled button, starts the machine |
| SpinBox.Engine.MouseMove | src/QtExtraSpinBoxes/private/qextraspinbox_p.hpp:912-931 | without the repeat timer nothing changes; off an enabled button the machine resets |
| SpinBox.Engine.MouseRelease | src/QtExtraSpinBoxes/private/qextraspinbox_p.hpp:957-964 | releasing a mouse-held button resets the machine, anything else leaves it |
| SpinBox.Engine.TimerEvent | src/QtExtraSpinBoxes/private/qextraspinbox_p.hpp:984-1023 | the threshold timer hands over to the repeat timer; each tick steps the held direction when no edit is pending, or resets once it is disabled |
| SpinBox.Engine.HeldStep | src/QtExtraSpinBoxes/private/qextraspinbox_p.hpp:1005-1020 | one tick: a step in the held direction when no edit is pending, or a reset when it is disabled |
| SpinBox.Engine.Wheel | src/QtExtraSpinBoxes/private/qextraspinbox_p.hpp:1039-1045 | the remainder keeps `notches·120 + remainder` equal to the accumulated delta, with the sign of the total; without a pending edit an enabled direction steps `notches` (×10 with the modifier) |
| SpinBox.Engine.FocusOut | src/QtExtraSpinBoxes/private/qextraspinbox_p.hpp:724-741 | a pending edit is committed (notified on change), the machine is idle, the edit refreshed |
| SpinBox.Engine.CommitIfPending | src/QtExtraSpinBoxes/private/qextraspinbox_p.hpp:728-730 | a pending edit is committed with EmitIfChanged; without one nothing changes |
| SpinBox.Engine.Hide | src/QtExtraSpinBoxes/private/qextraspinbox_p.hpp:743-749 | the machine is idle and a pending edit committed |
| SpinBox.Engine.Show | src/QtExtraSpinBoxes/private/qextraspinbox_p.hpp:973-982 | the machine is idle, and the edit refreshes unless a refresh was suppressed while hidden |
| SpinBox.Engine.AcceptedValue | src/QtExtraSpinBoxes/private/qextraspinbox_p.hpp:1186-1190 | acceptability, rewritten text and memo are `Validated`'s, the value read back is the validated one, and the bare prefix + suffix comes back unrewritten |
| SpinBox.Engine.EditorTextChanged | src/QtExtraSpinBoxes/private/qextraspinbox_p.hpp:1181-1199 | under keyboard tracking an Acceptable text becomes the value (edit refreshed iff rewritten); anything else leaves the edit pending and the value alone; the bare prefix + suffix is never rewritten |
| SpinBox.Engine.Take | src/QtExtraSpinBoxes/private/qextraspinbox_p.hpp:1189-1195 | an acceptable value is set and notified on change, anything else marks the edit pending |
| SpinBox.Engine.Clear | src/QtExtraSpinBoxes/private/qextraspinbox_p.hpp:487-492 | the edit holds prefix + suffix afterwards unless that is the special-value text; an edit already holding it changes nothing but the flag; the cursor follows the prefix and the edit is marked cleared |
| SpinBox.Engine.ReplaceText | src/QtExtraSpinBoxes/private/qextraspinbox_p.hpp:487-489 | setting a new text, which reaches `editorTextChanged`, keeps the engine invariant and moves the cursor to the end; the bare prefix + suffix stays in the edit |

## Left out

- `AdaptiveDecimalStepType` and `calculateAdaptiveDecimalStep`: they use `std::log10`/`std::pow`, which are floating point. `stepBy` is modelled in the default step type only.
- Timer acceleration, intervals and `effectiveSpinRepeatRate`: these are floating-point interval arithmetic. The timers are booleans and `acceleration` is only reset.
- Cursor and selection management: the cursor clamping in `updateEdit`, `editorCursorPositionChanged`, Shift+Home/End selection, the cursor move past the prefix in `keyPressEvent` and `selectAll` on SelectOnStep or Return. These are line-edit interaction.
- Rendering and layout: `minimumSizeHint`, `sizeHint`, `initStyleOptionImpl`, `updateEditFieldGeometry` and the size-hint caches. Hover hit-testing and `buttonSymbols() == NoButtons` are parameters of the mouse handlers (`hover`, `noButtons`). Style hints are parameters too (`animateButton`).
- The context menu, accessibility events, `event`, `changeEvent`, `closeEvent`, `resizeEvent`, the X11 Ctrl+U shortcut and the SelectAll shortcut.
- Texts are sequences of Unicode scalar values: lengths, `pos` and the cursor count characters, where `QString::size()` and the line edit's cursor count UTF-16 code units. With a character outside the Basic Multilingual Plane in the prefix, the validator's `pos += prefix.size()` and `clear`'s cursor move by one here and by two in the source.
- `QLineEdit::setText` in `ReturnPressed` is modelled by its effect on an unchanged text (the cursor moves to the end); its clearing of the undo history is left out.
- The localised and radix formatting and parsing calls: they are the function values in `Validation.Codec`.
- Qt signal emission itself: it is the ghost sequence `emitted`, and `editingFinished`/`returnPressed` are not recorded.
- `qWarning` in `setDisplayIntegerBase`: diagnostic output.
- The macOS horizontal-wheel branch of `wheelEvent`: it only chooses which delta is added.
- SpinBox.Engine.FocusOut: does not state which value the commit sets, only that it notifies on a change. `Interpret` and `ReturnPressed` state that value.
- SpinBox.Engine.Hide: does not state which value the commit sets, as for `FocusOut`.
- SpinBox.Engine.ReplaceText: states the invariant, the cursor and the bare prefix + suffix case; `EditorTextChanged` states what any other new text does.
- SpinBox.Engine.EditTo: states what an unchanged text leaves alone; `EditorTextChanged` states what a changed text does.
- SpinBox.Engine.Clear: does not state the text when prefix + suffix is itself the special-value text; then keyboard tracking can take it as Acceptable and `editorTextChanged` rewrites it.
- SpinBox.Engine.KeyPress: does not state the value after an auto-repeated arrow key, which with both timers stopped steps a second time through `updateState` (lines 798-801 and 1406-1414).
- SpinBox.Engine.StepBy: requires `steps != INT_MIN`, because `steps * -1` at line 399 overflows for it.
- SpinBox.Engine.Wheel: requires the accumulated delta to fit in an `int`.
