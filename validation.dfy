/**
 * Text validation: the uncached part of `validateAndInterpret`, which strips
 * the input, parses it and classifies it as Acceptable, Intermediate or
 * Invalid together with the value it stands for.
 */
module Validation {
  import opened Wrappers
  import opened IntTypes
  import opened Text

  /** `QValidator::State`. */
  datatype State = Invalid | Intermediate | Acceptable

  /**
   * The number services the engine calls but does not implement. A parse
   * answers `None` where Qt reports `ok == false`.
   *  - parseLocale: `QLocale::toInt`/`toUInt`/`toLongLong`/`toULongLong`, the one for `T`;
   *  - parseLocaleInt: `QLocale::toInt`, which answers a 32-bit `int`;
   *  - parseRadixInt: `QString::toInt(&ok, base)`, which answers a 32-bit `int`;
   *  - groupSeparator: `QLocale::groupSeparator()`;
   *  - textFromValue: the `textFromValue(value)` hook, given the display base and
   *    whether group separators are shown.
   */
  datatype Codec = Codec(
    parseLocale: string -> Option<int>,
    parseLocaleInt: string -> Option<int>,
    parseRadixInt: (string, int) -> Option<int>,
    groupSeparator: string,
    textFromValue: (int, int, bool) -> string)

  /** The engine fields that validation reads. */
  datatype Config = Config(kind: Kind, minimum: int, maximum: int, base: int,
                           prefix: string, suffix: string, specialValueText: string,
                           codec: Codec)

  /** An `int` result assigned to `T`. */
  function FromInt(k: Kind, n: int): (r: int)
    ensures InRange(k, r)
  {
    ToT(k, ToT(Int32, n))
  }

  /**
   * The parse step of `validateAndInterpret`. A non-decimal base always goes
   * through the 32-bit `QString::toInt`. In base 10 a failed parse is retried
   * once, through the 32-bit `QLocale::toInt`, with the group separators
   * removed, when `maximum >= 1000 || minimum <= -1000` and the text holds a
   * separator but never two in a row. The comparison with `-1000` is made in
   * `T`, so for an unsigned `T` it reads `minimum <= 2^N - 1000`
   * (`RetryBound`), which nearly every unsigned range meets.
   */
  function ParseNumber(c: Config, copy: string): (r: Option<int>)
    ensures r.Some? ==> InRange(c.kind, r.value)
  {
    if c.base != 10 then
      match c.codec.parseRadixInt(copy, c.base)
      case Some(n) => Some(FromInt(c.kind, n))
      case None => None
    else
      match c.codec.parseLocale(copy)
      case Some(n) => Some(ToT(c.kind, n))
      case None =>
        var sep := c.codec.groupSeparator;
        if (c.maximum >= 1000 || c.minimum <= RetryBound(c.kind)) && Contains(copy, sep) && !Contains(copy, sep + sep) then
          match c.codec.parseLocaleInt(RemoveAll(copy, sep))
          case Some(n) => Some(FromInt(c.kind, n))
          case None => None
        else None
  }

  /** The literal `-1000` converted to `T` by the usual arithmetic conversions: itself when `T` is signed, `2^N - 1000` when not. */
  function RetryBound(k: Kind): (r: int)
    ensures k.Signed() ==> r == -1000
    ensures !k.Signed() ==> r == k.Max() - 999
  {
    ToT(k, -1000)
  }

  /**
   * On an unsigned `T` the separator retry does not need a four-digit
   * range: any minimum up to `2^N - 1000` enables it, whatever the maximum.
   */
  lemma UnsignedRangeRetries(c: Config, copy: string, n: int)
    requires !c.kind.Signed() && c.minimum <= c.kind.Max() - 999 && c.base == 10
    requires c.codec.parseLocale(copy).None?
    requires Contains(copy, c.codec.groupSeparator)
    requires !Contains(copy, c.codec.groupSeparator + c.codec.groupSeparator)
    requires c.codec.parseLocaleInt(RemoveAll(copy, c.codec.groupSeparator)) == Some(n)
    ensures ParseNumber(c, copy) == Some(FromInt(c.kind, n))
  {
  }

  /** On a signed `T` with a range inside (-1000, 1000) a text the locale cannot parse is not retried. */
  lemma SmallSignedRangeDoesNotRetry(c: Config, copy: string)
    requires c.kind.Signed() && -1000 < c.minimum && c.maximum < 1000 && c.base == 10
    requires c.codec.parseLocale(copy).None?
    ensures ParseNumber(c, copy).None?
  {
  }

  /**
   * `"1,2"` on a `quint32` box over [0, 99]: the locale rejects it, the retry
   * parses `"12"`, and the text is Acceptable with value 12.
   */
  lemma SeparatedDigitsOnSmallUnsignedRange(codec: Codec)
    requires codec.groupSeparator == "," && codec.parseLocale("1,2").None?
    requires codec.parseLocaleInt("12") == Some(12)
    ensures Classify(Config(UInt32, 0, 99, 10, [], [], [], codec), "1,2") == Verdict(Acceptable, 12)
  {
    var c := Config(UInt32, 0, 99, 10, [], [], [], codec);
    assert Contains("1,2", ",") by {
      assert Contains("1,2"[1..], ",") by { assert StartsWith("1,2"[1..], ","); }
    }
    assert !Contains("1,2", ",,") by {
      assert "1,2"[1..] == ",2" && ",2"[1..] == "2" && "2"[1..] == [];
      assert "1,2"[..2][0] == '1' && ",2"[..2][1] == '2';
      assert !Contains([], ",,") && !Contains("2", ",,");
    }
    assert RemoveAll("1,2", ",") == "12" by {
      assert !StartsWith("1,2", ",");
      assert StartsWith("1,2"[1..], ",");
      assert RemoveAll("1,2"[1..][1..], ",") == "2";
    }
    assert ParseNumber(c, "1,2") == Some(12);
  }

  /** The texts a user passes through while starting to type a number: empty, or a lone sign the range allows. */
  predicate Pending(c: Config, copy: string) {
    c.maximum != c.minimum
    && (copy == [] || (c.minimum < 0 && copy == "-") || (c.maximum >= 0 && copy == "+"))
  }

  /** A minus sign when the range has no negative values. */
  predicate ForbiddenMinus(c: Config, copy: string) {
    StartsWith(copy, "-") && c.minimum >= 0
  }

  /** The value reported with a state other than Acceptable. */
  function Fallback(c: Config): int {
    if c.maximum > 0 then c.minimum else c.maximum
  }

  datatype Verdict = Verdict(state: State, value: int)

  /** The classification of the stripped text `copy` by `validateAndInterpret`. */
  function Classify(c: Config, copy: string): (r: Verdict)
    ensures c.minimum <= c.maximum ==> c.minimum <= r.value <= c.maximum
    ensures r.state == Acceptable <==>
      !Pending(c, copy) && !ForbiddenMinus(c, copy) && ParseNumber(c, copy).Some?
      && c.minimum <= ParseNumber(c, copy).value <= c.maximum
    ensures r.state == Acceptable ==> r.value == ParseNumber(c, copy).value
    ensures r.state != Acceptable ==> r.value == Fallback(c)
  {
    var state :=
      if Pending(c, copy) then Intermediate
      else if StartsWith(copy, "-") && c.minimum >= 0 then Invalid
      else
        match ParseNumber(c, copy)
        case None => Invalid
        case Some(num) =>
          if num >= c.minimum && num <= c.maximum then Acceptable
          else if c.maximum == c.minimum then Invalid
          else if (num >= 0 && num > c.maximum) || (num < 0 && num < c.minimum) then Invalid
          else Intermediate;
    if state != Acceptable then Verdict(state, Fallback(c))
    else Verdict(state, ParseNumber(c, copy).value)
  }

  /** Empty text and a lone allowed sign are Intermediate on a range of more than one value. */
  lemma PendingIsIntermediate(c: Config, copy: string)
    requires Pending(c, copy)
    ensures Classify(c, copy).state == Intermediate
  {
  }

  /** A minus sign on a range without negative values is Invalid, even for "-0". */
  lemma MinusOnNonNegativeRangeIsInvalid(c: Config, copy: string)
    requires ForbiddenMinus(c, copy)
    ensures Classify(c, copy).state == Invalid
  {
    assert copy[0] == '-';
  }

  /** Text that does not parse is Invalid unless it is pending. */
  lemma UnparsableIsInvalid(c: Config, copy: string)
    requires !Pending(c, copy) && ParseNumber(c, copy).None?
    ensures Classify(c, copy).state == Invalid
  {
  }

  /**
   * A parsed value outside the range is Invalid when the range holds one
   * value or the value overshoots the range on its own side of zero, and
   * Intermediate otherwise.
   */
  lemma OutOfRangeVerdict(c: Config, copy: string, num: int)
    requires !Pending(c, copy) && !ForbiddenMinus(c, copy)
    requires ParseNumber(c, copy) == Some(num) && (num < c.minimum || num > c.maximum)
    ensures Classify(c, copy).state ==
      if c.minimum == c.maximum || (num >= 0 && num > c.maximum) || (num < 0 && num < c.minimum)
      then Invalid else Intermediate
  {
  }

  /**
   * A number is Intermediate only while it lies between zero and the range:
   * non-negative and below a positive minimum, or negative and above a
   * negative maximum, so that typing more digits can still reach the range.
   */
  lemma IntermediateLiesTowardRange(c: Config, copy: string)
    requires c.minimum <= c.maximum
    requires !Pending(c, copy) && Classify(c, copy).state == Intermediate
    ensures ParseNumber(c, copy).Some?
    ensures var num := ParseNumber(c, copy).value;
            (0 <= num < c.minimum) || (c.maximum < num < 0)
  {
  }

  /** The result of an uncached `validateAndInterpret(input, pos)`: state, value, rewritten input and cursor. */
  datatype Outcome = Outcome(state: State, value: int, text: string, pos: int)

  /**
   * `validateAndInterpret` without its cache: strips `input`, classifies
   * what is left, and rewrites `input` to prefix, stripped text and suffix.
   */
  function Interpretation(c: Config, input: string, pos: int): (r: Outcome)
    ensures c.minimum <= c.maximum ==> c.minimum <= r.value <= c.maximum
    ensures StartsWith(r.text, c.prefix) && EndsWith(r.text, c.suffix)
    ensures pos - |input| <= r.pos <= pos
  {
    var cut := Stripped(input, pos, c.prefix, c.suffix, c.specialValueText);
    var v := Classify(c, cut.text);
    var text := c.prefix + cut.text + c.suffix;
    assert text[..|c.prefix|] == c.prefix && text[|text| - |c.suffix|..] == c.suffix;
    Outcome(v.state, v.value, text, cut.pos)
  }

  /**
   * The displayed text of an in-range value is Acceptable and stands for that
   * value: when the locale parses `d` back to `v`, the decorated text
   * `prefix + d + suffix` validates as Acceptable with value `v`, and the
   * input and cursor come back unchanged.
   */
  lemma DecoratedValueIsAcceptable(c: Config, d: string, v: int, pos: int)
    requires InRange(c.kind, c.minimum) && InRange(c.kind, c.maximum)
    requires c.minimum <= v <= c.maximum && c.base == 10
    requires c.codec.parseLocale(d) == Some(v)
    requires IsTrimmed(d) && d != [] && d != "-" && d != "+"
    requires StartsWith(d, "-") ==> c.minimum < 0
    requires c.specialValueText == [] || c.prefix + d + c.suffix != c.specialValueText
    ensures Interpretation(c, c.prefix + d + c.suffix, pos)
         == Outcome(Acceptable, v, c.prefix + d + c.suffix, pos)
  {
    StrippedDecorated(c.prefix, d, c.suffix, pos, c.specialValueText);
    TrimKeepsTrimmed(d);
  }

  /**
   * Text that lost its suffix is repaired by the validator: decorating
   * `prefix + d` appends the suffix, the cursor stays, and the repaired text
   * validates as Acceptable with value `v`.
   */
  lemma MissingSuffixIsRestored(c: Config, d: string, v: int, pos: int)
    requires InRange(c.kind, c.minimum) && InRange(c.kind, c.maximum)
    requires c.minimum <= v <= c.maximum && c.base == 10
    requires c.codec.parseLocale(d) == Some(v)
    requires IsTrimmed(d) && d != [] && d != "-" && d != "+"
    requires StartsWith(d, "-") ==> c.minimum < 0
    requires c.specialValueText == [] || c.prefix + d + c.suffix != c.specialValueText
    requires !EndsWith(c.prefix + d, c.suffix)
    ensures var fixed := Decorate(c.prefix + d, pos, c.prefix, c.suffix);
            fixed == Cut(c.prefix + d + c.suffix, pos)
            && Interpretation(c, fixed.text, fixed.pos).state == Acceptable
            && Interpretation(c, fixed.text, fixed.pos).value == v
  {
    assert (c.prefix + d)[..|c.prefix|] == c.prefix;
    DecoratedValueIsAcceptable(c, d, v, pos);
  }

  /** The memo of `validateAndInterpret`: the last text it produced, with the state and the value it found. */
  datatype Memo = Memo(text: Option<string>, value: Option<int>, state: State)

  /** A memoised text always comes with its value. */
  predicate MemoComplete(m: Memo) {
    m.text.Some? ==> m.value.Some?
  }

  /** A complete memo whose value lies in the range. */
  predicate MemoValid(m: Memo, minimum: int, maximum: int) {
    MemoComplete(m) && (m.value.Some? ==> minimum <= m.value.value <= maximum)
  }

  /** `validateAndInterpret` answers from its memo exactly for the non-empty text the memo holds. */
  predicate Hit(m: Memo, input: string) {
    m.text == Some(input) && input != []
  }

  /**
   * `validateAndInterpret(input, pos)` on memo `m`: the outcome, taken from
   * the memo on a hit and from `Interpretation` otherwise, and the memo it
   * leaves, which holds the outcome's text, value and state.
   */
  function Validated(c: Config, m: Memo, input: string, pos: int): (r: (Outcome, Memo))
    requires MemoComplete(m)
    ensures r.1 == Memo(Some(r.0.text), Some(r.0.value), r.0.state)
    ensures c.minimum <= c.maximum && MemoValid(m, c.minimum, c.maximum) ==>
      c.minimum <= r.0.value <= c.maximum && MemoValid(r.1, c.minimum, c.maximum)
  {
    if Hit(m, input) then (Outcome(m.state, m.value.value, input, pos), m)
    else
      var o := Interpretation(c, input, pos);
      (o, Memo(Some(o.text), Some(o.value), o.state))
  }

  /** On a memo that does not hold `input`, the outcome is the uncached `Interpretation`. */
  lemma MissInterprets(c: Config, m: Memo, input: string, pos: int)
    requires MemoComplete(m) && !Hit(m, input)
    ensures Validated(c, m, input, pos).0 == Interpretation(c, input, pos)
  {
  }

  /**
   * The text `clear` leaves in the edit, the prefix followed by the suffix,
   * comes back from validation unchanged, from the memo or not, unless it is
   * the special-value text.
   */
  lemma ClearedTextIsKept(c: Config, m: Memo, t: string, pos: int)
    requires MemoComplete(m) && t == c.prefix + c.suffix
    requires c.specialValueText == [] || t != c.specialValueText
    ensures Validated(c, m, t, pos).0.text == t
  {
    if !Hit(m, t) {
      assert t == c.prefix + [] + c.suffix;
      StrippedDecorated(c.prefix, [], c.suffix, pos, c.specialValueText);
    }
  }

  /**
   * The memo is transparent: validating the text that a validation gave back
   * gives the same state and value again, and leaves the memo as it was,
   * whatever the cursor. An empty text misses the memo, and is stripped and
   * classified again to the same verdict.
   */
  lemma RevalidationIsStable(c: Config, m: Memo, input: string, pos: int, pos': int)
    requires MemoComplete(m)
    ensures var (o, m1) := Validated(c, m, input, pos);
            var (o2, m2) := Validated(c, m1, o.text, pos');
            o2.state == o.state && o2.value == o.value && m2 == m1
  {
    var (o, m1) := Validated(c, m, input, pos);
    if o.text == [] {
      assert !Hit(m, input);
      var cut := Stripped(input, pos, c.prefix, c.suffix, c.specialValueText);
      assert c.prefix + cut.text + c.suffix == [];
      assert cut.text == [] && c.prefix == [] && c.suffix == [];
      assert Stripped([], pos', c.prefix, c.suffix, c.specialValueText).text == [];
    }
  }

  /**
   * `QExtraSpinBoxValidator::validate(input, pos)` on memo `m`: the state,
   * the rewritten input and cursor, and the memo afterwards. The special-value
   * text is Acceptable as it is and leaves the memo alone.
   */
  function ValidatorAnswer(c: Config, m: Memo, input: string, pos: int): (r: (State, Cut, Memo))
    requires MemoComplete(m)
    ensures c.specialValueText != [] && input == c.specialValueText ==> r == (Acceptable, Cut(input, pos), m)
    ensures !(c.specialValueText != [] && input == c.specialValueText) ==>
      StartsWith(r.1.text, c.prefix) && EndsWith(r.1.text, c.suffix)
  {
    if c.specialValueText != [] && input == c.specialValueText then (Acceptable, Cut(input, pos), m)
    else DecoratedAnswer(c, m, input, pos)
  }

  /**
   * The validator on any other input: the missing prefix and suffix are
   * put back, and `validateAndInterpret` judges the result.
   */
  function DecoratedAnswer(c: Config, m: Memo, input: string, pos: int): (r: (State, Cut, Memo))
    requires MemoComplete(m)
    ensures StartsWith(r.1.text, c.prefix) && EndsWith(r.1.text, c.suffix)
  {
    var d := Decorate(input, pos, c.prefix, c.suffix);
    var (o, m') := Validated(c, m, d.text, d.pos);
    (o.state, Cut(o.text, o.pos), m')
  }

  /** What `interpret` commits: the value, the cursor its validations leave, and the memo afterwards. */
  datatype Commit = Commit(value: int, pos: int, memo: Memo)

  /**
   * The value `interpret` commits for the edit text `text` at `cursor`. Text
   * that validates as Acceptable gives the value `valueFromText` reads back;
   * otherwise `Refixed` tries the text again without group separators.
   */
  function Interpreted(c: Config, m: Memo, text: string, cursor: int, groupSeparatorShown: bool,
                       nearest: bool, current: int): (r: Commit)
    requires MemoComplete(m)
    ensures MemoComplete(r.memo)
    ensures c.minimum <= c.maximum && MemoValid(m, c.minimum, c.maximum) && c.minimum <= current <= c.maximum ==>
      c.minimum <= r.value <= c.maximum && MemoValid(r.memo, c.minimum, c.maximum)
  {
    var (o1, m1) := Validated(c, m, text, cursor);
    if o1.state == Acceptable then ReadBack(c, m1, o1.text, o1.pos, cursor)
    else Refixed(c, m1, o1.text, o1.pos, cursor, groupSeparatorShown, if nearest then QBound(c.minimum, 0, c.maximum) else current)
  }

  /** `valueFromText(text)` at `cursor` on memo `m`, with `pos` the cursor the validations left. */
  function ReadBack(c: Config, m: Memo, text: string, pos: int, cursor: int): (r: Commit)
    requires MemoComplete(m)
    ensures MemoComplete(r.memo) && r.pos == pos
    ensures c.minimum <= c.maximum && MemoValid(m, c.minimum, c.maximum) ==>
      c.minimum <= r.value <= c.maximum && MemoValid(r.memo, c.minimum, c.maximum)
  {
    var (o, m') := Validated(c, m, text, cursor);
    Commit(o.value, pos, m')
  }

  /**
   * The correction step of `interpret` for text that is not Acceptable:
   * `fixup` removes the group separators and, when that changed the text,
   * the result is validated once more and read back if Acceptable. Anything
   * else commits `fallback`: the current value, or under
   * CorrectToNearestValue `qBound(minimum, 0, maximum)`, which bounds the
   * default `T{}`.
   */
  function Refixed(c: Config, m: Memo, text: string, pos: int, cursor: int, groupSeparatorShown: bool,
                   fallback: int): (r: Commit)
    requires MemoComplete(m)
    ensures MemoComplete(r.memo)
    ensures c.minimum <= c.maximum && MemoValid(m, c.minimum, c.maximum) && c.minimum <= fallback <= c.maximum ==>
      c.minimum <= r.value <= c.maximum && MemoValid(r.memo, c.minimum, c.maximum)
  {
    var fixed := Fixup(text, groupSeparatorShown, c.codec.groupSeparator);
    if fixed == text then Commit(fallback, pos, m)
    else
      var (o2, m2) := Validated(c, m, fixed, pos);
      if o2.state == Acceptable then ReadBack(c, m2, o2.text, o2.pos, cursor)
      else Commit(fallback, o2.pos, m2)
  }

  /** Text that validates as Acceptable commits the value its validation found. */
  lemma AcceptableTextIsCommitted(c: Config, m: Memo, text: string, cursor: int, groupSeparatorShown: bool,
                                  nearest: bool, current: int)
    requires MemoComplete(m) && Validated(c, m, text, cursor).0.state == Acceptable
    ensures Interpreted(c, m, text, cursor, groupSeparatorShown, nearest, current).value
         == Validated(c, m, text, cursor).0.value
  {
    RevalidationIsStable(c, m, text, cursor, cursor);
  }

  /**
   * Text that is not Acceptable but becomes Acceptable once `fixup` removed
   * its group separators commits the value of the fixed text.
   */
  lemma FixedTextIsCommitted(c: Config, m: Memo, text: string, cursor: int, groupSeparatorShown: bool,
                             nearest: bool, current: int)
    requires MemoComplete(m)
    requires var (o1, m1) := Validated(c, m, text, cursor);
             var fixed := Fixup(o1.text, groupSeparatorShown, c.codec.groupSeparator);
             o1.state != Acceptable && fixed != o1.text && Validated(c, m1, fixed, o1.pos).0.state == Acceptable
    ensures var (o1, m1) := Validated(c, m, text, cursor);
            var fixed := Fixup(o1.text, groupSeparatorShown, c.codec.groupSeparator);
            Interpreted(c, m, text, cursor, groupSeparatorShown, nearest, current).value
            == Validated(c, m1, fixed, o1.pos).0.value
  {
    var (o1, m1) := Validated(c, m, text, cursor);
    var fixed := Fixup(o1.text, groupSeparatorShown, c.codec.groupSeparator);
    RevalidationIsStable(c, m1, fixed, o1.pos, cursor);
  }

  /** Text that stays unacceptable, with or without `fixup`, commits the fallback value. */
  lemma UnacceptableTextFallsBack(c: Config, m: Memo, text: string, cursor: int, groupSeparatorShown: bool,
                                  nearest: bool, current: int)
    requires MemoComplete(m)
    requires var (o1, m1) := Validated(c, m, text, cursor);
             var fixed := Fixup(o1.text, groupSeparatorShown, c.codec.groupSeparator);
             o1.state != Acceptable && (fixed == o1.text || Validated(c, m1, fixed, o1.pos).0.state != Acceptable)
    ensures Interpreted(c, m, text, cursor, groupSeparatorShown, nearest, current).value
         == if nearest then QBound(c.minimum, 0, c.maximum) else current
  {
  }
}
