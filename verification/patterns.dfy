/**
 * The three regular expressions the classifier runs over the lower-cased
 * message, each with the JavaScript `i` flag and without `g`, so that
 * `match` yields the leftmost match:
 *   Clock    `\d{1,2}:\d{2}\s*(?:am|pm)`
 *   Hour     `\d{1,2}\s*(?:am|pm)`
 *   DayWord  `(tomorrow|today|monday|tuesday|wednesday|thursday|friday|saturday|sunday)`
 * Each pattern is given twice: as the set of strings it matches (`Matches`)
 * and as an executable matcher anchored at one position (`MatchAt`) that
 * follows the backtracking order (two digits before one, alternatives left
 * to right). The two are proved to agree, and the leftmost search over all
 * positions is proved to return the leftmost match.
 */
module Patterns {
  import opened Wrappers
  import opened Text

  datatype Pattern = Clock | Hour | DayWord

  /** The alternatives of the day-word pattern, in the order the regex tries them. */
  const DayWords: seq<string> :=
    ["tomorrow", "today", "monday", "tuesday", "wednesday", "thursday", "friday", "saturday", "sunday"]

  /** JavaScript's `\s`: the WhiteSpace and LineTerminator code points. */
  predicate IsSpace(c: char) {
    var n := c as int;
    (9 <= n <= 13) || n == 0x20 || n == 0xA0 || n == 0x1680 || (0x2000 <= n <= 0x200A)
    || n == 0x2028 || n == 0x2029 || n == 0x202F || n == 0x205F || n == 0x3000 || n == 0xFEFF
  }

  /** Character equality under the `i` flag, for an ASCII pattern character. */
  predicate SameLetter(c: char, lit: char) {
    LowerChar(c) == LowerChar(lit)
  }

  // ---------------------------------------------------------------------
  // The languages of the three patterns
  // ---------------------------------------------------------------------

  ghost predicate AllDigits(w: string) {
    forall k :: 0 <= k < |w| ==> IsDigit(w[k])
  }

  ghost predicate AllSpaces(w: string) {
    forall k :: 0 <= k < |w| ==> IsSpace(w[k])
  }

  /** `am` or `pm`, in either case. */
  ghost predicate IsMeridiem(w: string) {
    |w| == 2 && (SameLetter(w[0], 'a') || SameLetter(w[0], 'p')) && SameLetter(w[1], 'm')
  }

  /** `w` equals `lit` ignoring ASCII case. */
  ghost predicate SameText(w: string, lit: string) {
    |w| == |lit| && forall k :: 0 <= k < |w| ==> SameLetter(w[k], lit[k])
  }

  /** `w` is `n` digits, a colon, two digits, spaces, then am/pm. */
  ghost predicate ClockShape(w: string, n: nat) {
    n + 5 <= |w| && AllDigits(w[..n]) && w[n] == ':' && AllDigits(w[n + 1..n + 3])
    && AllSpaces(w[n + 3..|w| - 2]) && IsMeridiem(w[|w| - 2..])
  }

  /** `w` is `n` digits, spaces, then am/pm. */
  ghost predicate HourShape(w: string, n: nat) {
    n + 2 <= |w| && AllDigits(w[..n]) && AllSpaces(w[n..|w| - 2]) && IsMeridiem(w[|w| - 2..])
  }

  /** `w` is, in its entirety, a string the pattern matches. */
  ghost predicate Matches(p: Pattern, w: string) {
    match p
    case Clock => exists n :: 1 <= n <= 2 && ClockShape(w, n)
    case Hour => exists n :: 1 <= n <= 2 && HourShape(w, n)
    case DayWord => exists k :: 0 <= k < |DayWords| && SameText(w, DayWords[k])
  }

  // ---------------------------------------------------------------------
  // Matching anchored at one position
  // ---------------------------------------------------------------------

  predicate DigitsAt(s: string, i: nat, n: nat) {
    i + n <= |s| && forall k :: i <= k < i + n ==> IsDigit(s[k])
  }

  predicate MeridiemAt(s: string, m: nat) {
    m + 2 <= |s| && (SameLetter(s[m], 'a') || SameLetter(s[m], 'p')) && SameLetter(s[m + 1], 'm')
  }

  predicate WordAt(s: string, i: nat, w: string) {
    i + |w| <= |s| && forall q :: 0 <= q < |w| ==> SameLetter(s[i + q], w[q])
  }

  /** Greedy `\s*` starting at `k`: the first index at or after `k` that is not a space. */
  function SkipSpaces(s: string, k: nat): (m: nat)
    requires k <= |s|
    ensures k <= m <= |s|
    ensures forall q :: k <= q < m ==> IsSpace(s[q])
    ensures m < |s| ==> !IsSpace(s[m])
    decreases |s| - k
  {
    if k < |s| && IsSpace(s[k]) then SkipSpaces(s, k + 1) else k
  }

  /** The Clock pattern at `i` with `\d{1,2}` taking exactly `n` digits. */
  function ClockWithDigits(s: string, i: nat, n: nat): Option<nat>
    requires i <= |s|
  {
    if DigitsAt(s, i, n) && i + n < |s| && s[i + n] == ':' && DigitsAt(s, i + n + 1, 2) then
      var m := SkipSpaces(s, i + n + 3);
      if MeridiemAt(s, m) then Some(m + 2) else None
    else None
  }

  /** The Hour pattern at `i` with `\d{1,2}` taking exactly `n` digits. */
  function HourWithDigits(s: string, i: nat, n: nat): Option<nat>
    requires i <= |s|
  {
    if DigitsAt(s, i, n) then
      var m := SkipSpaces(s, i + n);
      if MeridiemAt(s, m) then Some(m + 2) else None
    else None
  }

  /** The day-word alternation at `i`, trying alternatives `k` onwards in order. */
  function DayWordFrom(s: string, i: nat, k: nat): Option<nat>
    requires i <= |s|
    decreases |DayWords| - k
  {
    if k >= |DayWords| then None
    else if WordAt(s, i, DayWords[k]) then Some(i + |DayWords[k]|)
    else DayWordFrom(s, i, k + 1)
  }

  lemma SameLetterAsciiLetter(c: char, lit: char)
    requires IsLowerAscii(lit) && SameLetter(c, lit)
    ensures c == lit || c as int == lit as int - 32
  {
  }

  /** A character matching `a` or `p` under the `i` flag is neither a space nor a digit. */
  lemma MeridiemLetterNotSpace(c: char)
    requires SameLetter(c, 'a') || SameLetter(c, 'p')
    ensures !IsSpace(c) && !IsDigit(c)
  {
    if SameLetter(c, 'a') {
      SameLetterAsciiLetter(c, 'a');
    } else {
      SameLetterAsciiLetter(c, 'p');
    }
  }

  /** Greedy `\s*` stops exactly at the first non-space. */
  lemma SkipSpacesExact(s: string, k: nat, m: nat)
    requires k <= m < |s|
    requires forall q :: k <= q < m ==> IsSpace(s[q])
    requires !IsSpace(s[m])
    ensures SkipSpaces(s, k) == m
  {
  }

  lemma ClockWithDigitsSound(s: string, i: nat, n: nat)
    requires i <= |s|
    requires ClockWithDigits(s, i, n).Some?
    ensures var j := ClockWithDigits(s, i, n).value;
      i <= j <= |s| && ClockShape(s[i..j], n)
  {
    var j := ClockWithDigits(s, i, n).value;
    var w := s[i..j];
    var m := SkipSpaces(s, i + n + 3);
    assert j == m + 2;
    assert w[..n] == s[i..i + n];
    assert w[n + 1..n + 3] == s[i + n + 1..i + n + 3];
    assert w[n + 3..|w| - 2] == s[i + n + 3..m];
    assert w[|w| - 2..] == s[m..m + 2];
  }

  lemma ClockWithDigitsComplete(s: string, i: nat, j: nat, n: nat)
    requires i <= j <= |s| && ClockShape(s[i..j], n)
    ensures ClockWithDigits(s, i, n) == Some(j)
  {
    var w := s[i..j];
    forall k | i <= k < i + n ensures IsDigit(s[k]) {
      assert s[k] == w[..n][k - i];
    }
    forall k | i + n + 1 <= k < i + n + 3 ensures IsDigit(s[k]) {
      assert s[k] == w[n + 1..n + 3][k - i - n - 1];
    }
    forall k | i + n + 3 <= k < j - 2 ensures IsSpace(s[k]) {
      var ws := w[n + 3..|w| - 2];
      assert AllSpaces(ws);
      assert s[k] == ws[k - i - n - 3];
    }
    assert s[j - 2] == w[|w| - 2..][0] && s[j - 1] == w[|w| - 2..][1];
    assert s[i + n] == w[n];
    MeridiemLetterNotSpace(s[j - 2]);
    SkipSpacesExact(s, i + n + 3, j - 2);
  }

  lemma HourWithDigitsSound(s: string, i: nat, n: nat)
    requires i <= |s|
    requires HourWithDigits(s, i, n).Some?
    ensures var j := HourWithDigits(s, i, n).value;
      i <= j <= |s| && HourShape(s[i..j], n)
  {
    var j := HourWithDigits(s, i, n).value;
    var w := s[i..j];
    var m := SkipSpaces(s, i + n);
    assert j == m + 2;
    assert w[..n] == s[i..i + n];
    assert w[n..|w| - 2] == s[i + n..m];
    assert w[|w| - 2..] == s[m..m + 2];
  }

  lemma HourWithDigitsComplete(s: string, i: nat, j: nat, n: nat)
    requires i <= j <= |s| && HourShape(s[i..j], n)
    ensures HourWithDigits(s, i, n) == Some(j)
  {
    var w := s[i..j];
    forall k | i <= k < i + n ensures IsDigit(s[k]) {
      assert s[k] == w[..n][k - i];
    }
    forall k | i + n <= k < j - 2 ensures IsSpace(s[k]) {
      assert s[k] == w[n..|w| - 2][k - i - n];
    }
    assert s[j - 2] == w[|w| - 2..][0] && s[j - 1] == w[|w| - 2..][1];
    MeridiemLetterNotSpace(s[j - 2]);
    SkipSpacesExact(s, i + n, j - 2);
  }

  /** The Clock pattern anchored at `i`. */
  function ClockAt(s: string, i: nat): (r: Option<nat>)
    requires i <= |s|
    ensures r.Some? ==> i <= r.value <= |s| && Matches(Clock, s[i..r.value])
    ensures forall j :: i <= j <= |s| && Matches(Clock, s[i..j]) ==> r == Some(j)
  {
    ClockAtCorrect(s, i);
    var two := ClockWithDigits(s, i, 2);
    if two.Some? then two else ClockWithDigits(s, i, 1)
  }

  lemma ClockAtCorrect(s: string, i: nat)
    requires i <= |s|
    ensures var two := ClockWithDigits(s, i, 2);
      var r := if two.Some? then two else ClockWithDigits(s, i, 1);
      && (r.Some? ==> i <= r.value <= |s| && Matches(Clock, s[i..r.value]))
      && (forall j :: i <= j <= |s| && Matches(Clock, s[i..j]) ==> r == Some(j))
  {
    var two := ClockWithDigits(s, i, 2);
    var r := if two.Some? then two else ClockWithDigits(s, i, 1);
    if two.Some? {
      ClockWithDigitsSound(s, i, 2);
    } else if r.Some? {
      ClockWithDigitsSound(s, i, 1);
    }
    forall j | i <= j <= |s| && Matches(Clock, s[i..j])
      ensures r == Some(j)
    {
      var n :| 1 <= n <= 2 && ClockShape(s[i..j], n);
      ClockWithDigitsComplete(s, i, j, n);
      if n == 1 {
        // a colon follows the first digit, so two digits cannot be taken
        assert s[i + 1] == s[i..j][1] == ':';
      }
    }
  }

  /** The Hour pattern anchored at `i`. */
  function HourAt(s: string, i: nat): (r: Option<nat>)
    requires i <= |s|
    ensures r.Some? ==> i <= r.value <= |s| && Matches(Hour, s[i..r.value])
    ensures forall j :: i <= j <= |s| && Matches(Hour, s[i..j]) ==> r == Some(j)
  {
    HourAtCorrect(s, i);
    var two := HourWithDigits(s, i, 2);
    if two.Some? then two else HourWithDigits(s, i, 1)
  }

  lemma HourAtCorrect(s: string, i: nat)
    requires i <= |s|
    ensures var two := HourWithDigits(s, i, 2);
      var r := if two.Some? then two else HourWithDigits(s, i, 1);
      && (r.Some? ==> i <= r.value <= |s| && Matches(Hour, s[i..r.value]))
      && (forall j :: i <= j <= |s| && Matches(Hour, s[i..j]) ==> r == Some(j))
  {
    var two := HourWithDigits(s, i, 2);
    var r := if two.Some? then two else HourWithDigits(s, i, 1);
    if two.Some? {
      HourWithDigitsSound(s, i, 2);
    } else if r.Some? {
      HourWithDigitsSound(s, i, 1);
    }
    forall j | i <= j <= |s| && Matches(Hour, s[i..j])
      ensures r == Some(j)
    {
      var n :| 1 <= n <= 2 && HourShape(s[i..j], n);
      HourWithDigitsComplete(s, i, j, n);
      if n == 1 {
        // the character after the single digit is a space or the a/p of am/pm
        var w := s[i..j];
        assert s[i + 1] == w[1];
        if |w| == 3 {
          assert w[1] == w[|w| - 2..][0];
          MeridiemLetterNotSpace(w[1]);
        } else {
          assert w[1] == w[1..|w| - 2][0];
        }
        assert !IsDigit(s[i + 1]);
      }
    }
  }

  /** Every day word is at least five letters long. */
  lemma DayWordsLong(k: nat)
    requires k < |DayWords|
    ensures |DayWords[k]| >= 5
  {
  }

  /** Every pattern needs at least two characters (the am/pm, or a day word). */
  lemma MatchIsNonEmpty(p: Pattern, w: string)
    requires Matches(p, w)
    ensures |w| >= 2
  {
    if p == DayWord {
      var k :| 0 <= k < |DayWords| && SameText(w, DayWords[k]);
      DayWordsLong(k);
    }
  }

  /** A time match starts with a digit. */
  lemma TimeMatchStartsWithDigit(p: Pattern, w: string)
    requires p != DayWord && Matches(p, w)
    ensures |w| > 0 && IsDigit(w[0])
  {
    if p == Clock {
      var n :| 1 <= n <= 2 && ClockShape(w, n);
      assert w[0] == w[..n][0];
    } else {
      var n :| 1 <= n <= 2 && HourShape(w, n);
      assert w[0] == w[..n][0];
    }
  }

  /** No Hour match starts at a character followed by a colon. */
  lemma NoHourMatchBeforeColon(s: string, i: nat)
    requires i + 1 < |s| && s[i + 1] == ':'
    ensures forall j :: i <= j <= |s| ==> !Matches(Hour, s[i..j])
  {
    forall j | i <= j <= |s|
      ensures !Matches(Hour, s[i..j])
    {
      if Matches(Hour, s[i..j]) {
        HourMatchSecondChar(s[i..j]);
      }
    }
  }

  /** In an Hour match the second character is a digit, a space or the a/p of am/pm. */
  lemma HourMatchSecondChar(w: string)
    requires Matches(Hour, w)
    ensures |w| >= 3 && w[1] != ':'
  {
    var n :| 1 <= n <= 2 && HourShape(w, n);
    if n == 2 {
      assert IsDigit(w[..n][1]);
    } else if |w| == 3 {
      assert w[|w| - 2..][0] == w[1];
    } else {
      assert IsSpace(w[1..|w| - 2][0]);
    }
  }

  /** A Clock match contains a colon. */
  lemma ClockMatchHasColon(w: string)
    requires Matches(Clock, w)
    ensures ':' in w
  {
    var n :| 1 <= n <= 2 && ClockShape(w, n);
  }

  /** The day words are written in lower case. */
  lemma DayWordsLowerCase(k: nat, q: nat)
    requires k < |DayWords| && q < |DayWords[k]|
    ensures !IsUpperAscii(DayWords[k][q])
  {
  }

  /** Any two day words differ within their first three letters. */
  lemma DayWordsDiffer(k1: nat, k2: nat)
    requires k1 < |DayWords| && k2 < |DayWords| && k1 != k2
    ensures exists q :: 0 <= q < 3 && DayWords[k1][q] != DayWords[k2][q]
  {
    var w1, w2 := DayWords[k1], DayWords[k2];
    if w1[0] == w2[0] {
      if w1[1] == w2[1] {
        assert w1[2] != w2[2];
      }
    }
  }

  /** At one position at most one alternative of the day-word pattern fits. */
  lemma DayWordAtUnique(s: string, i: nat, k1: nat, k2: nat)
    requires k1 < |DayWords| && k2 < |DayWords|
    requires WordAt(s, i, DayWords[k1]) && WordAt(s, i, DayWords[k2])
    ensures k1 == k2
  {
    if k1 != k2 {
      DayWordsDiffer(k1, k2);
      var q :| 0 <= q < 3 && DayWords[k1][q] != DayWords[k2][q];
      DayWordsLowerCase(k1, q);
      DayWordsLowerCase(k2, q);
      assert false;
    }
  }

  lemma {:induction false} DayWordFromSound(s: string, i: nat, k: nat)
    requires i <= |s|
    requires DayWordFrom(s, i, k).Some?
    ensures var j := DayWordFrom(s, i, k).value;
      i <= j <= |s| && exists k' :: k <= k' < |DayWords| && j == i + |DayWords[k']| && WordAt(s, i, DayWords[k'])
    decreases |DayWords| - k
  {
    if !WordAt(s, i, DayWords[k]) {
      DayWordFromSound(s, i, k + 1);
    }
  }

  lemma {:induction false} DayWordFromComplete(s: string, i: nat, k: nat, k0: nat)
    requires i <= |s| && k <= k0 < |DayWords|
    requires WordAt(s, i, DayWords[k0])
    ensures DayWordFrom(s, i, k) == Some(i + |DayWords[k0]|)
    decreases k0 - k
  {
    if k < k0 {
      if WordAt(s, i, DayWords[k]) {
        DayWordAtUnique(s, i, k, k0);
      }
      DayWordFromComplete(s, i, k + 1, k0);
    }
  }

  /** The day-word pattern anchored at `i`. */
  function DayWordAt(s: string, i: nat): (r: Option<nat>)
    requires i <= |s|
    ensures r.Some? ==> i <= r.value <= |s| && Matches(DayWord, s[i..r.value])
    ensures forall j :: i <= j <= |s| && Matches(DayWord, s[i..j]) ==> r == Some(j)
  {
    DayWordAtCorrect(s, i);
    DayWordFrom(s, i, 0)
  }

  lemma DayWordAtCorrect(s: string, i: nat)
    requires i <= |s|
    ensures var r := DayWordFrom(s, i, 0);
      && (r.Some? ==> i <= r.value <= |s| && Matches(DayWord, s[i..r.value]))
      && (forall j :: i <= j <= |s| && Matches(DayWord, s[i..j]) ==> r == Some(j))
  {
    var r := DayWordFrom(s, i, 0);
    if r.Some? {
      DayWordFromSound(s, i, 0);
      var k' :| 0 <= k' < |DayWords| && r.value == i + |DayWords[k']| && WordAt(s, i, DayWords[k']);
      assert SameText(s[i..r.value], DayWords[k']);
    }
    forall j | i <= j <= |s| && Matches(DayWord, s[i..j])
      ensures r == Some(j)
    {
      var k0 :| 0 <= k0 < |DayWords| && SameText(s[i..j], DayWords[k0]);
      assert WordAt(s, i, DayWords[k0]) by {
        forall q | 0 <= q < |DayWords[k0]|
          ensures SameLetter(s[i + q], DayWords[k0][q])
        {
          assert s[i + q] == s[i..j][q];
        }
      }
      DayWordFromComplete(s, i, 0, k0);
    }
  }

  /**
   * The pattern anchored at `i`: the end of the match that starts at `i`, if
   * any. A match starting at a given position is unique, so the order in
   * which the regex engine backtracks does not change the result.
   */
  function MatchAt(p: Pattern, s: string, i: nat): (r: Option<nat>)
    requires i <= |s|
    ensures r.Some? ==> i <= r.value <= |s| && Matches(p, s[i..r.value])
    ensures forall j :: i <= j <= |s| && Matches(p, s[i..j]) ==> r == Some(j)
  {
    match p
    case Clock => ClockAt(s, i)
    case Hour => HourAt(s, i)
    case DayWord => DayWordAt(s, i)
  }

  /** Two matches of one pattern that start at the same index are the same match. */
  lemma MatchAtStartIsUnique(p: Pattern, s: string, i: nat, j1: nat, j2: nat)
    requires i <= j1 <= |s| && i <= j2 <= |s|
    requires Matches(p, s[i..j1]) && Matches(p, s[i..j2])
    ensures j1 == j2
  {
    var _ := MatchAt(p, s, i);
  }

  // ---------------------------------------------------------------------
  // Leftmost search (`String.prototype.match` without the `g` flag)
  // ---------------------------------------------------------------------

  datatype Span = Span(start: nat, end: nat)

  /** Some substring of `s` matches the pattern. */
  ghost predicate HasMatch(p: Pattern, s: string) {
    exists i, j :: 0 <= i <= j <= |s| && Matches(p, s[i..j])
  }

  /** `s[i..j]` matches and no match starts further left. */
  ghost predicate IsLeftmost(p: Pattern, s: string, i: int, j: int) {
    0 <= i <= j <= |s| && Matches(p, s[i..j])
    && forall i', j' :: 0 <= i' < i && i' <= j' <= |s| ==> !Matches(p, s[i'..j'])
  }

  /** The first match starting at or after `from`. */
  function FirstMatchFrom(p: Pattern, s: string, from: nat): (r: Option<Span>)
    requires from <= |s|
    ensures r.Some? ==> from <= r.value.start <= r.value.end <= |s|
    ensures r.Some? ==> MatchAt(p, s, r.value.start) == Some(r.value.end)
    ensures forall i, j :: from <= i <= j <= |s| && (r.None? || i < r.value.start) ==> !Matches(p, s[i..j])
    decreases |s| - from
  {
    match MatchAt(p, s, from)
    case Some(j) => Some(Span(from, j))
    case None => if from == |s| then None else FirstMatchFrom(p, s, from + 1)
  }

  /** The text of the leftmost match of `p` in `s`, as `s.match(p)[0]` yields it. */
  function Search(p: Pattern, s: string): (r: Option<string>)
    ensures r.None? <==> !HasMatch(p, s)
    ensures r.Some? ==> exists i, j :: IsLeftmost(p, s, i, j) && r.value == s[i..j]
    ensures forall i, j :: IsLeftmost(p, s, i, j) ==> r == Some(s[i..j])
    ensures r.Some? ==> Occurs(s, r.value) && Matches(p, r.value) && |r.value| >= 2
  {
    match FirstMatchFrom(p, s, 0)
    case Some(span) =>
      assert IsLeftmost(p, s, span.start, span.end);
      assert OccursAt(s, s[span.start..span.end], span.start);
      MatchIsNonEmpty(p, s[span.start..span.end]);
      Some(s[span.start..span.end])
    case None => None
  }
}