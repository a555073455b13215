/** The filter on the interest-rate text field of the input screen: a new
    text replaces the old one only if it is empty or matches the regular
    expression `^\.?\d*\.?\d*$` in full. On Android the regular
    expressions are ICU's, where `\d` is any decimal digit of Unicode
    (general category Nd), not only `0`-`9`. */
module RateField {

  /** What `\d` matches: a code point of general category Nd, as listed by
      Unicode 15.0. These come in runs of ten consecutive code points with
      digit values zero to nine; adjacent runs are merged below. */
  predicate IsDigit(c: char) {
    var k := c as int;
    0x30 <= k <= 0x39 || 0x660 <= k <= 0x669 || 0x6F0 <= k <= 0x6F9
    || 0x7C0 <= k <= 0x7C9 || 0x966 <= k <= 0x96F || 0x9E6 <= k <= 0x9EF
    || 0xA66 <= k <= 0xA6F || 0xAE6 <= k <= 0xAEF || 0xB66 <= k <= 0xB6F
    || 0xBE6 <= k <= 0xBEF || 0xC66 <= k <= 0xC6F || 0xCE6 <= k <= 0xCEF
    || 0xD66 <= k <= 0xD6F || 0xDE6 <= k <= 0xDEF || 0xE50 <= k <= 0xE59
    || 0xED0 <= k <= 0xED9 || 0xF20 <= k <= 0xF29 || 0x1040 <= k <= 0x1049
    || 0x1090 <= k <= 0x1099 || 0x17E0 <= k <= 0x17E9 || 0x1810 <= k <= 0x1819
    || 0x1946 <= k <= 0x194F || 0x19D0 <= k <= 0x19D9 || 0x1A80 <= k <= 0x1A89
    || 0x1A90 <= k <= 0x1A99 || 0x1B50 <= k <= 0x1B59 || 0x1BB0 <= k <= 0x1BB9
    || 0x1C40 <= k <= 0x1C49 || 0x1C50 <= k <= 0x1C59 || 0xA620 <= k <= 0xA629
    || 0xA8D0 <= k <= 0xA8D9 || 0xA900 <= k <= 0xA909 || 0xA9D0 <= k <= 0xA9D9
    || 0xA9F0 <= k <= 0xA9F9 || 0xAA50 <= k <= 0xAA59 || 0xABF0 <= k <= 0xABF9
    || 0xFF10 <= k <= 0xFF19 || 0x104A0 <= k <= 0x104A9 || 0x10D30 <= k <= 0x10D39
    || 0x11066 <= k <= 0x1106F || 0x110F0 <= k <= 0x110F9 || 0x11136 <= k <= 0x1113F
    || 0x111D0 <= k <= 0x111D9 || 0x112F0 <= k <= 0x112F9 || 0x11450 <= k <= 0x11459
    || 0x114D0 <= k <= 0x114D9 || 0x11650 <= k <= 0x11659 || 0x116C0 <= k <= 0x116C9
    || 0x11730 <= k <= 0x11739 || 0x118E0 <= k <= 0x118E9 || 0x11950 <= k <= 0x11959
    || 0x11C50 <= k <= 0x11C59 || 0x11D50 <= k <= 0x11D59 || 0x11DA0 <= k <= 0x11DA9
    || 0x11F50 <= k <= 0x11F59 || 0x16A60 <= k <= 0x16A69 || 0x16AC0 <= k <= 0x16AC9
    || 0x16B50 <= k <= 0x16B59 || 0x1D7CE <= k <= 0x1D7FF || 0x1E140 <= k <= 0x1E149
    || 0x1E2F0 <= k <= 0x1E2F9 || 0x1E4F0 <= k <= 0x1E4F9 || 0x1E950 <= k <= 0x1E959
    || 0x1FBF0 <= k <= 0x1FBF9
  }

  /** `s[lo..hi]` is all digits: what `\d*` can match there. */
  predicate DigitsBetween(s: string, lo: nat, hi: nat)
    requires lo <= hi <= |s|
  {
    forall m :: lo <= m < hi ==> IsDigit(s[m])
  }

  /** `s[lo..hi]` is empty or one dot: what `\.?` can match there. */
  predicate OptionalDotBetween(s: string, lo: nat, hi: nat)
    requires lo <= hi <= |s|
  {
    hi == lo || (hi == lo + 1 && s[lo] == '.')
  }

  // ---------------------------------------------------------------------
  // The matcher

  /** Where `\d*` stops when it starts at `from`: the end of the longest run
      of digits there. */
  function DigitRunEnd(s: string, from: nat): (e: nat)
    requires from <= |s|
    ensures from <= e <= |s|
    ensures DigitsBetween(s, from, e)
    ensures e == |s| || !IsDigit(s[e])
    decreases |s| - from
  {
    if from < |s| && IsDigit(s[from]) then DigitRunEnd(s, from + 1) else from
  }

  /** Where `\.?` stops when it starts at `from`: past a dot if one is
      there. */
  function DotEnd(s: string, from: nat): (e: nat)
    requires from <= |s|
    ensures from <= e <= |s| && OptionalDotBetween(s, from, e)
    ensures from < |s| && s[from] == '.' ==> e == from + 1
  {
    if from < |s| && s[from] == '.' then from + 1 else from
  }

  /** `Regex("^\\.?\\d*\\.?\\d*$").matches(s)`, by consuming the four parts
      of the pattern in order, each as far as it goes. When it succeeds,
      the places where it stopped cut `s` into the pattern's four parts. */
  predicate MatchesRatePattern(s: string)
    ensures MatchesRatePattern(s) ==>
      var i := DotEnd(s, 0);
      var j := DigitRunEnd(s, i);
      var k := DotEnd(s, j);
      i <= j <= k <= |s| && SplitMatches(s, i, j, k)
  {
    DigitRunEnd(s, DotEnd(s, DigitRunEnd(s, DotEnd(s, 0)))) == |s|
  }

  /** The condition in `onValueChange` of the rate field: the empty text,
      or a text the regular expression matches in full. */
  predicate AcceptsRateText(newValue: string)
    ensures AcceptsRateText(newValue) <==> newValue == [] || RegexMatch(newValue)
  {
    MatcherIsRegex(newValue);
    newValue == [] || MatchesRatePattern(newValue)
  }

  /** The field's text after `onValueChange(newValue)`. */
  function OnRateValueChange(current: string, newValue: string): (next: string)
    ensures AcceptsRateText(newValue) ==> next == newValue
    ensures !AcceptsRateText(newValue) ==> next == current
  {
    if AcceptsRateText(newValue) then newValue else current
  }

  // ---------------------------------------------------------------------
  // What the pattern means

  /** The cuts i <= j <= k split `s` into an optional dot, digits, an
      optional dot and digits. */
  predicate SplitMatches(s: string, i: nat, j: nat, k: nat)
    requires i <= j <= k <= |s|
  {
    OptionalDotBetween(s, 0, i) && DigitsBetween(s, i, j)
    && OptionalDotBetween(s, j, k) && DigitsBetween(s, k, |s|)
  }

  /** The meaning of the pattern: some split of `s` matches its four parts. */
  ghost predicate RegexMatch(s: string) {
    exists i: nat, j: nat, k: nat :: i <= j <= k <= |s| && SplitMatches(s, i, j, k)
  }

  /** A run of digits does not change where `\d*` stops. */
  lemma {:induction false} DigitRunEndSkips(s: string, from: nat, hi: nat)
    requires from <= hi <= |s| && DigitsBetween(s, from, hi)
    ensures DigitRunEnd(s, from) == DigitRunEnd(s, hi)
    decreases hi - from
  {
    if from < hi {
      DigitRunEndSkips(s, from + 1, hi);
    }
  }

  /** The matcher accepts exactly what the pattern describes. */
  lemma MatcherIsRegex(s: string)
    ensures MatchesRatePattern(s) <==> RegexMatch(s)
  {
    if RegexMatch(s) {
      var i: nat, j: nat, k: nat :| i <= j <= k <= |s| && SplitMatches(s, i, j, k);
      RegexImpliesMatcher(s, i, j, k);
    }
  }

  /** One split that matches the pattern is enough for the matcher. */
  lemma RegexImpliesMatcher(s: string, i: nat, j: nat, k: nat)
    requires i <= j <= k <= |s| && SplitMatches(s, i, j, k)
    ensures MatchesRatePattern(s)
  {
    DigitRunEndSkips(s, k, |s|);
    if i == 1 || j > 0 {
      // The first optional dot is where the pattern put it.
      assert DotEnd(s, 0) == i;
      DigitRunEndSkips(s, i, j);
      TailMatches(s, j, k);
    } else if k == 1 {
      // No leading digits: the matcher takes the second dot as the first.
      assert DotEnd(s, 0) == 1;
      DigitRunEndSkips(s, 1, |s|);
    } else {
      assert DotEnd(s, 0) == 0;
      DigitRunEndSkips(s, 0, |s|);
    }
  }

  /** From `j` on, `\d*\.?\d*` matches an optional dot followed by digits. */
  lemma TailMatches(s: string, j: nat, k: nat)
    requires j <= k <= |s| && OptionalDotBetween(s, j, k) && DigitsBetween(s, k, |s|)
    ensures DigitRunEnd(s, DotEnd(s, DigitRunEnd(s, j))) == |s|
  {
    DigitRunEndSkips(s, k, |s|);
    if k == j + 1 {
      assert DigitRunEnd(s, j) == j;
      assert DotEnd(s, j) == k;
    } else {
      assert DigitRunEnd(s, j) == |s|;
    }
  }

  // ---------------------------------------------------------------------
  // What an accepted text can contain

  /** The number of dots in `s[..hi]`. */
  function DotsBefore(s: string, hi: nat): nat
    requires hi <= |s|
  {
    if hi == 0 then 0 else DotsBefore(s, hi - 1) + (if s[hi - 1] == '.' then 1 else 0)
  }

  /** The number of dots in `s`. */
  function DotCount(s: string): nat {
    DotsBefore(s, |s|)
  }

  /** Digits add no dots. */
  lemma {:induction false} DigitsAddNoDots(s: string, lo: nat, hi: nat)
    requires lo <= hi <= |s| && DigitsBetween(s, lo, hi)
    ensures DotsBefore(s, hi) == DotsBefore(s, lo)
    decreases hi - lo
  {
    if lo < hi {
      DigitsAddNoDots(s, lo, hi - 1);
    }
  }

  /** Every text the rate field accepts consists of digits and dots only,
      with at most two dots, and a second dot only after a leading one. */
  lemma AcceptedRateText(s: string)
    requires AcceptsRateText(s)
    ensures forall n :: 0 <= n < |s| ==> IsDigit(s[n]) || s[n] == '.'
    ensures DotCount(s) <= 2
    ensures DotCount(s) == 2 ==> s[0] == '.'
  {
    if s != [] {
      var i := DotEnd(s, 0);
      var j := DigitRunEnd(s, i);
      var k := DotEnd(s, j);
      assert SplitMatches(s, i, j, k);
      DigitsAddNoDots(s, i, j);
      DigitsAddNoDots(s, k, |s|);
      assert DotsBefore(s, i) <= 1;
      assert DotsBefore(s, k) <= DotsBefore(s, j) + 1;
      if DotCount(s) == 2 {
        assert i == 1;
      }
    }
  }

  /** Digits other than `0`-`9` pass the filter too: Arabic-Indic three,
      a dot and Arabic-Indic five ("3.5" written in Arabic script). */
  lemma ArabicIndicDigitsAccepted()
    ensures AcceptsRateText("\U{663}.\U{665}")
  {
    var s := "\U{663}.\U{665}";
    assert DotEnd(s, 0) == 0 && DigitRunEnd(s, 0) == 1;
    assert DotEnd(s, 1) == 2 && DigitRunEnd(s, 2) == 3;
  }

  /** The dot count never falls as the prefix grows. */
  lemma {:induction false} DotsBeforeMonotone(s: string, a: nat, b: nat)
    requires a <= b <= |s|
    ensures DotsBefore(s, a) <= DotsBefore(s, b)
    decreases b - a
  {
    if a < b {
      DotsBeforeMonotone(s, a, b - 1);
    }
  }

  /** The converse of AcceptedRateText: digits and dots with at most one
      dot, or with two dots the first of which leads, are accepted. */
  lemma RateTextAcceptedIff(s: string)
    ensures AcceptsRateText(s)
        <==> (forall n :: 0 <= n < |s| ==> IsDigit(s[n]) || s[n] == '.')
             && (DotCount(s) <= 1 || (DotCount(s) == 2 && s[0] == '.'))
  {
    if AcceptsRateText(s) {
      AcceptedRateText(s);
    } else {
      var i := DotEnd(s, 0);
      var j := DigitRunEnd(s, i);
      var k := DotEnd(s, j);
      var e := DigitRunEnd(s, k);
      assert e < |s|;
      if forall n :: 0 <= n < |s| ==> IsDigit(s[n]) || s[n] == '.' {
        // Two dots past the leading part stop the matcher, at j and at e.
        assert s[j] == '.' && k == j + 1 && s[e] == '.';
        DotsBeforeMonotone(s, i, j);
        DotsBeforeMonotone(s, k, e);
        DotsBeforeMonotone(s, e + 1, |s|);
        assert DotsBefore(s, i) == i;
        assert DotCount(s) >= i + 2;
      }
    }
  }
}
