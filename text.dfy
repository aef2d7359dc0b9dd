/**
 * The string operations of the text path: `QChar::isSpace` and
 * `QStringView::trimmed`, `startsWith`/`endsWith`/`mid`/`contains`/`remove`,
 * the engine's `stripped`, its `fixup`, and the validator's re-attachment of
 * a missing prefix or suffix.
 */
module Text {

  /** `QChar::isSpace`: the ASCII controls 9..13, space, U+0085, U+00A0 and the Unicode separators (Zs, Zl, Zp). */
  predicate IsSpace(c: char) {
    var n := c as int;
    n == 0x20 || 0x09 <= n <= 0x0d || n == 0x85 || n == 0xa0 || n == 0x1680
    || 0x2000 <= n <= 0x200a || n == 0x2028 || n == 0x2029 || n == 0x202f
    || n == 0x205f || n == 0x3000
  }

  /** No whitespace at either end. */
  predicate IsTrimmed(s: string) {
    s == [] || (!IsSpace(s[0]) && !IsSpace(s[|s| - 1]))
  }

  /** The number of whitespace characters `trimmed` skips at the start of `s`: it stops at the first other character. */
  function Leading(s: string): (n: nat)
    ensures n <= |s|
    ensures n < |s| ==> !IsSpace(s[n])
  {
    if s != [] && IsSpace(s[0]) then 1 + Leading(s[1..]) else 0
  }

  /** What `Leading` skips is whitespace. */
  lemma {:induction false} LeadingIsSpace(s: string)
    ensures forall i :: 0 <= i < Leading(s) ==> IsSpace(s[i])
  {
    if s != [] && IsSpace(s[0]) {
      LeadingIsSpace(s[1..]);
      forall i | 1 <= i < Leading(s)
        ensures IsSpace(s[i])
      {
        assert s[i] == s[1..][i - 1];
      }
    }
  }

  /** The number of whitespace characters `trimmed` cuts from the end of `s`: it stops at the last other character. */
  function Trailing(s: string): (n: nat)
    ensures n <= |s|
    ensures n < |s| ==> !IsSpace(s[|s| - 1 - n])
  {
    if s != [] && IsSpace(s[|s| - 1]) then 1 + Trailing(s[..|s| - 1]) else 0
  }

  /** What `Trailing` cuts is whitespace. */
  lemma {:induction false} TrailingIsSpace(s: string)
    ensures forall i :: |s| - Trailing(s) <= i < |s| ==> IsSpace(s[i])
  {
    if s != [] && IsSpace(s[|s| - 1]) {
      var s' := s[..|s| - 1];
      TrailingIsSpace(s');
      forall i | |s| - Trailing(s) <= i < |s| - 1
        ensures IsSpace(s[i])
      {
        assert s[i] == s'[i];
      }
    }
  }

  /**
   * `QStringView::trimmed`: the slice of `s` between its leading and its
   * trailing whitespace, which starts at `Leading(s)`.
   */
  function Trim(s: string): (r: string)
    ensures IsTrimmed(r)
    ensures Leading(s) + |r| <= |s| && r == s[Leading(s)..Leading(s) + |r|]
  {
    var t := s[Leading(s)..];
    var r := t[..|t| - Trailing(t)];
    assert r == s[Leading(s)..Leading(s) + |r|];
    r
  }

  /** `Trim` drops only whitespace, before and after the slice it keeps. */
  lemma TrimDropsOnlySpace(s: string)
    ensures forall i :: 0 <= i < Leading(s) ==> IsSpace(s[i])
    ensures forall i :: Leading(s) + |Trim(s)| <= i < |s| ==> IsSpace(s[i])
  {
    LeadingIsSpace(s);
    var t := s[Leading(s)..];
    TrailingIsSpace(t);
    forall i | Leading(s) + |Trim(s)| <= i < |s|
      ensures IsSpace(s[i])
    {
      assert s[i] == t[i - Leading(s)];
    }
  }

  /** Text without whitespace at its ends is left as it is. */
  lemma TrimKeepsTrimmed(s: string)
    requires IsTrimmed(s)
    ensures Trim(s) == s
  {
  }

  predicate StartsWith(s: string, p: string) {
    |p| <= |s| && s[..|p|] == p
  }

  predicate EndsWith(s: string, p: string) {
    |p| <= |s| && s[|s| - |p|..] == p
  }

  /** `QString::contains(QString)`; every string contains the empty one. */
  predicate Contains(s: string, p: string)
    decreases |s|
  {
    StartsWith(s, p) || (s != [] && Contains(s[1..], p))
  }

  /**
   * `QString::remove(QString)`: deletes the non-overlapping occurrences of `p`
   * found from left to right; an empty `p` removes nothing.
   */
  function RemoveAll(s: string, p: string): (r: string)
    ensures |r| <= |s|
    ensures !Contains(s, p) ==> r == s
    decreases |s|
  {
    if p == [] || |s| < |p| then s
    else if StartsWith(s, p) then RemoveAll(s[|p|..], p)
    else [s[0]] + RemoveAll(s[1..], p)
  }

  /** `s` with every occurrence of the character `ch` left out, the others kept in order. */
  function Without(s: string, ch: char): (r: string)
    ensures |r| <= |s|
  {
    if s == [] then []
    else if s[0] == ch then Without(s[1..], ch)
    else [s[0]] + Without(s[1..], ch)
  }

  /**
   * Removing a one-character string is filtering out its character: exactly
   * the occurrences go, and every other character stays, in order.
   */
  lemma {:induction false} RemoveAllIsWithout(s: string, p: string)
    requires |p| == 1
    ensures RemoveAll(s, p) == Without(s, p[0])
    decreases |s|
  {
    if s == [] {
    } else if StartsWith(s, p) {
      assert s[0] == p[0] by { assert s[..1][0] == p[0]; }
      RemoveAllIsWithout(s[1..], p);
    } else {
      assert s[0] != p[0] by {
        assert s[..1] == [s[0]];
      }
      RemoveAllIsWithout(s[1..], p);
    }
  }

  /** Removing a one-character string leaves no occurrence of that character. */
  lemma {:induction false} RemoveAllRemovesChar(s: string, p: string)
    requires |p| == 1
    ensures forall i :: 0 <= i < |RemoveAll(s, p)| ==> RemoveAll(s, p)[i] != p[0]
    decreases |s|
  {
    if |s| < |p| {
    } else if StartsWith(s, p) {
      RemoveAllRemovesChar(s[|p|..], p);
    } else {
      RemoveAllRemovesChar(s[1..], p);
      assert s[0] != p[0] by {
        assert s[..1] == [s[0]];
      }
    }
  }

  /** The engine's `fixup`: group separators are removed unless the widget shows them. */
  function Fixup(input: string, groupSeparatorShown: bool, groupSeparator: string): (r: string)
    ensures groupSeparatorShown || !Contains(input, groupSeparator) ==> r == input
  {
    if !groupSeparatorShown then RemoveAll(input, groupSeparator) else input
  }

  /**
   * Without shown separators, `fixup` filters a one-character group
   * separator out of the text, keeping every other character in order.
   */
  lemma FixupRemovesSeparator(input: string, groupSeparator: string)
    requires |groupSeparator| == 1
    ensures Fixup(input, false, groupSeparator) == Without(input, groupSeparator[0])
    ensures var r := Fixup(input, false, groupSeparator);
            forall i :: 0 <= i < |r| ==> r[i] != groupSeparator[0]
  {
    RemoveAllRemovesChar(input, groupSeparator);
    RemoveAllIsWithout(input, groupSeparator);
  }

  /**
   * `QStringView::mid(from, n)` for `0 <= from <= |s|`: a negative `n`, or one
   * running past the end, takes everything from `from` on.
   */
  function Mid(s: string, from: int, n: int): (r: string)
    requires 0 <= from <= |s|
    ensures n >= 0 && from + n <= |s| ==> r == s[from..from + n]
    ensures n < 0 || from + n > |s| ==> r == s[from..]
  {
    if n < 0 || n > |s| - from then s[from..] else s[from..from + n]
  }

  /** A text with a cursor position in it: the in/out `QString &input, int &pos` pairs. */
  datatype Cut = Cut(text: string, pos: int)

  /** The prefix/suffix removal of `stripped`: each is cut when the text starts (ends) with it. */
  function Undecorated(t: string, prefix: string, suffix: string): (r: string)
    ensures |r| <= |t|
  {
    var hasPrefix := |prefix| > 0 && StartsWith(t, prefix);
    var from := if hasPrefix then |prefix| else 0;
    var size := |t| - from;
    var hasSuffix := |suffix| > 0 && EndsWith(t, suffix);
    var size' := if hasSuffix then size - |suffix| else size;
    if hasPrefix || hasSuffix then Mid(t, from, size') else t
  }

  /**
   * `stripped(t, &pos)`: unless `t` is the (non-empty) special-value text,
   * removes the prefix and the suffix; then trims whitespace and moves `pos`
   * back by the number of whitespace characters trimmed.
   */
  function Stripped(t: string, pos: int, prefix: string, suffix: string, specialValueText: string): (r: Cut)
    ensures IsTrimmed(r.text) && |r.text| <= |t|
    ensures pos - |t| <= r.pos <= pos
  {
    var core := if |specialValueText| == 0 || t != specialValueText then Undecorated(t, prefix, suffix) else t;
    var trimmed := Trim(core);
    assert |core| <= |t|;
    Cut(trimmed, pos - (|core| - |trimmed|))
  }

  /** Stripping a decorated text `prefix + d + suffix` gives back `d`, trimmed, and moves `pos` only by the trimmed whitespace. */
  lemma StrippedDecorated(prefix: string, d: string, suffix: string, pos: int, specialValueText: string)
    requires specialValueText == [] || prefix + d + suffix != specialValueText
    ensures Stripped(prefix + d + suffix, pos, prefix, suffix, specialValueText)
         == Cut(Trim(d), pos - (|d| - |Trim(d)|))
  {
    var t := prefix + d + suffix;
    assert t[..|prefix|] == prefix;
    assert t[|t| - |suffix|..] == suffix;
    assert t[|prefix|..|prefix| + |d|] == d;
    if |prefix| > 0 || |suffix| > 0 {
      assert Undecorated(t, prefix, suffix) == Mid(t, |prefix|, |d|);
    } else {
      assert t == d;
    }
  }

  /** Text that carries neither the prefix nor the suffix is only trimmed. */
  lemma StrippedUndecorated(t: string, pos: int, prefix: string, suffix: string, specialValueText: string)
    requires prefix == [] || !StartsWith(t, prefix)
    requires suffix == [] || !EndsWith(t, suffix)
    ensures Stripped(t, pos, prefix, suffix, specialValueText) == Cut(Trim(t), pos - (|t| - |Trim(t)|))
  {
  }

  /** The special-value text keeps its prefix and suffix, and is only trimmed. */
  lemma StrippedSpecialValue(t: string, pos: int, prefix: string, suffix: string)
    requires t != []
    ensures Stripped(t, pos, prefix, suffix, t) == Cut(Trim(t), pos - (|t| - |Trim(t)|))
  {
  }

  /**
   * When prefix and suffix both match but overlap in `t`, the negative length
   * handed to `mid` keeps everything after the prefix.
   */
  lemma StrippedOverlapping(t: string, pos: int, prefix: string, suffix: string)
    requires prefix != [] && suffix != [] && StartsWith(t, prefix) && EndsWith(t, suffix)
    requires |prefix| + |suffix| > |t|
    ensures Stripped(t, pos, prefix, suffix, []).text == Trim(t[|prefix|..])
  {
  }

  /** The validator's prefix step: prepends `prefix` when `input` does not start with it, moving `pos` past it. */
  function AddPrefix(input: string, pos: int, prefix: string): (r: Cut)
    ensures StartsWith(r.text, prefix)
    ensures StartsWith(input, prefix) ==> r == Cut(input, pos)
    ensures r.pos == pos + (if StartsWith(input, prefix) then 0 else |prefix|)
    ensures var at := r.pos - pos; 0 <= at && at + |input| == |r.text| && r.text[at..] == input
  {
    if |prefix| > 0 && !StartsWith(input, prefix) then
      assert (prefix + input)[..|prefix|] == prefix;
      Cut(prefix + input, pos + |prefix|)
    else
      Cut(input, pos)
  }

  /** The validator's suffix step: appends `suffix` when `t` does not end with it. */
  function AddSuffix(t: string, suffix: string): (r: string)
    ensures EndsWith(r, suffix)
    ensures EndsWith(t, suffix) ==> r == t
    ensures |t| <= |r| && r[..|t|] == t
  {
    if |suffix| > 0 && !EndsWith(t, suffix) then
      assert (t + suffix)[|t|..] == suffix;
      t + suffix
    else
      t
  }

  /** What `t` holds between `from` and `to` survives in any `r` that starts with `t`. */
  lemma SliceKept(t: string, r: string, from: nat, to: nat)
    requires |t| <= |r| && r[..|t|] == t && from <= to <= |t|
    ensures r[from..to] == t[from..to]
  {
    forall i | 0 <= i < to - from
      ensures r[from..to][i] == t[from..to][i]
    {
      assert r[from + i] == r[..|t|][from + i];
    }
  }

  /**
   * The validator's decoration step: prepends the prefix when `input` does not
   * start with it (moving `pos` past it), then appends the suffix when the
   * result does not end with it.
   */
  function Decorate(input: string, pos: int, prefix: string, suffix: string): (r: Cut)
    ensures StartsWith(r.text, prefix) && EndsWith(r.text, suffix)
    ensures StartsWith(input, prefix) && EndsWith(input, suffix) ==> r == Cut(input, pos)
    ensures r.pos == pos + (if StartsWith(input, prefix) then 0 else |prefix|)
    ensures var at := r.pos - pos; 0 <= at && at + |input| <= |r.text| && r.text[at..at + |input|] == input
  {
    var c := AddPrefix(input, pos, prefix);
    var text := AddSuffix(c.text, suffix);
    SliceKept(c.text, text, 0, |prefix|);
    SliceKept(c.text, text, c.pos - pos, |c.text|);
    Cut(text, c.pos)
  }

  /** Decorating twice is decorating once. */
  lemma DecorateIdempotent(input: string, pos: int, prefix: string, suffix: string)
    ensures var once := Decorate(input, pos, prefix, suffix);
            Decorate(once.text, once.pos, prefix, suffix) == once
  {
  }
}
