/** `_post_clean_output`: the safety net applied to every generated summary.
    In scientific mode it only trims the text and blanks the `<n>` markers; in
    the layman and children modes it then erases bracketed spans, acronyms,
    numbers, units and trial-design jargon, and tidies spaces and
    punctuation. Each `re.sub` of the source is a `Sub` with the matcher below
    that decides, position by position, what the pattern matches there. */
module OutputCleaner {
  import opened CharClass
  import opened Text
  import opened Regex

  datatype Mode = Scientific | Layman | Children

  // ---------------------------------------------------------------------
  // Patterns

  /** Index of the first `c` in `s`, or `|s|` when there is none. */
  function UpTo(c: char, s: string): (k: nat)
    ensures k <= |s|
    ensures forall i :: 0 <= i < k ==> s[i] != c
    ensures k < |s| ==> s[k] == c
  {
    if s == [] || s[0] == c then 0 else 1 + UpTo(c, s[1..])
  }

  /** `o[^c]*c`: from an opening `o` up to the first closing `c`. */
  function EnclosedLen(o: char, c: char, s: string): (n: nat)
    ensures n <= |s|
  {
    if s != [] && s[0] == o && UpTo(c, s[1..]) < |s| - 1 then UpTo(c, s[1..]) + 2 else 0
  }

  /** `\([^)]*\)` */
  function ParenLen(prevIsWord: bool, s: string): nat { EnclosedLen('(', ')', s) }

  /** `\[[^\]]*\]` */
  function BracketLen(prevIsWord: bool, s: string): nat { EnclosedLen('[', ']', s) }

  /** `\b[A-Z]{2,}\b`: a run of capitals can only end at a boundary where the
      run ends, so backtracking never finds a shorter match. */
  function AcronymLen(prevIsWord: bool, s: string): nat {
    var k := RunOf(IsAsciiUpper, s);
    if k >= 2 && Boundary(prevIsWord, s, 0) && Boundary(prevIsWord, s, k) then k else 0
  }

  function DigitRun(s: string): nat { RunOf(IsDigit, s) }

  /** Where the optional group `(\.\d+)?` ends when it is tried at `k`: after
      a point and at least one digit, or at `k` when it cannot match. */
  function FractionEnd(s: string, k: nat): (e: nat)
    requires k <= |s|
    ensures k <= e <= |s|
    ensures e > k ==> s[k] == '.' && e == k + 1 + DigitRun(s[k + 1..])
  {
    if k < |s| && s[k] == '.' && DigitRun(s[k + 1..]) > 0 then k + 1 + DigitRun(s[k + 1..]) else k
  }

  /** `\b\d+(\.\d+)?\b`: the group is tried first; when the boundary fails
      after it, the match without the group is tried. A shorter digit run is
      never followed by a boundary. */
  function NumberLen(prevIsWord: bool, s: string): nat {
    var k := DigitRun(s);
    if k == 0 || !Boundary(prevIsWord, s, 0) then 0
    else
      var e := FractionEnd(s, k);
      if e > k && Boundary(prevIsWord, s, e) then e
      else if Boundary(prevIsWord, s, k) then k
      else 0
  }

  /** `\b\d+(\.\d+)?%\b`: the sign must follow the digits, and a word character
      must follow the sign. */
  function PercentLen(prevIsWord: bool, s: string): nat {
    var k := DigitRun(s);
    if k == 0 || !Boundary(prevIsWord, s, 0) then 0
    else
      var e := FractionEnd(s, k);
      if e > k && e < |s| && s[e] == '%' && Boundary(prevIsWord, s, e + 1) then e + 1
      else if k < |s| && s[k] == '%' && Boundary(prevIsWord, s, k + 1) then k + 1
      else 0
  }

  // `\b\d+(\.\d+)?\s*/\s*\d+(\.\d+)?\b`: a number, optional spaces, a slash,
  // optional spaces and a second number ending at a boundary.
  function RatioLen(prevIsWord: bool, s: string): nat {
    var k := DigitRun(s);
    if k == 0 || !Boundary(prevIsWord, s, 0) then 0
    else
      var e := FractionEnd(s, k);
      var j := e + RunOf(IsSpace, s[e..]);
      if j < |s| && s[j] == '/' then
        var d := j + 1 + RunOf(IsSpace, s[j + 1..]);
        var k2 := d + DigitRun(s[d..]);
        if k2 == d then 0
        else
          var e2 := FractionEnd(s, k2);
          if e2 > k2 && Boundary(prevIsWord, s, e2) then e2
          else if Boundary(prevIsWord, s, k2) then k2
          else 0
      else 0
  }

  /** `s` starts with `a`, letters compared case-insensitively. */
  predicate FoldPrefix(s: string, a: string) {
    |a| <= |s| && forall i :: 0 <= i < |a| ==> Fold(s[i]) == Fold(a[i])
  }

  /** `w` equals `a`, letters compared case-insensitively. */
  predicate FoldEq(w: string, a: string) {
    |w| == |a| && FoldPrefix(w, a)
  }

  /** The alternative `a` matches at the start of `s` and is followed by `\b`. */
  predicate Fits(a: string, prevIsWord: bool, s: string) {
    FoldPrefix(s, a) && Boundary(prevIsWord, s, |a|)
  }

  /** The alternation `(a1|a2|...)\b`: the alternatives are tried in order and
      the first one followed by a boundary wins. */
  function FirstAlt(alts: seq<string>, prevIsWord: bool, s: string): (n: nat)
    ensures n <= |s|
  {
    if alts == [] then 0
    else if Fits(alts[0], prevIsWord, s) then |alts[0]|
    else FirstAlt(alts[1..], prevIsWord, s)
  }

  /** `\b(a1|a2|...)\b` under `re.IGNORECASE`. */
  function AltLen(alts: seq<string>, prevIsWord: bool, s: string): nat {
    if Boundary(prevIsWord, s, 0) then FirstAlt(alts, prevIsWord, s) else 0
  }

  const Units: seq<string> :=
    ["μg", "ug", "mg", "g", "kg", "ml", "mL", "h", "hr", "day", "days", "week", "weeks", "month", "months"]

  const Banned: seq<string> :=
    ["randomized", "placebo", "endpoint", "phase", "single-arm", "prospective",
     "double-blind", "open-label", "simon", "two-stage", "confidence interval",
     "statistically significant", "p value", "p-value", "odds ratio"]

  /** The unit pattern. */
  function UnitLen(prevIsWord: bool, s: string): nat { AltLen(Units, prevIsWord, s) }

  /** The jargon pattern built from the banned list. */
  function JargonLen(prevIsWord: bool, s: string): nat { AltLen(Banned, prevIsWord, s) }

  /** `\s+([,.;:!?])`: whitespace directly before a punctuation mark. */
  function SpacePunctLen(prevIsWord: bool, s: string): nat {
    var n := RunOf(IsSpace, s);
    if n > 0 && n < |s| && IsPunct(s[n]) then n + 1 else 0
  }

  /** The replacement `\1`: the punctuation mark, the last character of the match. */
  function KeepLast(matched: string): string {
    if matched == [] then [] else [matched[|matched| - 1]]
  }

  predicate IsDot(c: char) { c == '.' }

  /** `\.{2,}` */
  function DotsLen(prevIsWord: bool, s: string): nat {
    var n := RunOf(IsDot, s);
    if n >= 2 then n else 0
  }

  /** The replacement `"."`. */
  function OneDot(matched: string): string { "." }

  // ---------------------------------------------------------------------
  // The chain of substitutions

  /** Lines 53-54: parenthesized and bracketed spans. */
  function RemoveBrackets(t: string): string {
    SubAll(BracketLen, Erase, SubAll(ParenLen, Erase, t))
  }

  /** Line 57: acronyms. */
  function RemoveAcronyms(t: string): string {
    SubAll(AcronymLen, Erase, t)
  }

  /** Line 60: numbers. */
  function RemovePlainNumbers(t: string): string {
    SubAll(NumberLen, Erase, t)
  }

  /** Lines 61-63: percentages, units and ratios, after the numbers. */
  function RemoveQuantities(t: string): string {
    SubAll(RatioLen, Erase, SubAll(UnitLen, Erase, SubAll(PercentLen, Erase, t)))
  }

  /** Lines 66-72: trial-design jargon. */
  function RemoveJargon(t: string): string {
    SubAll(JargonLen, Erase, t)
  }

  /** Lines 75-77: whitespace and punctuation. */
  function TidySpacing(t: string): string {
    SubAll(DotsLen, OneDot, SubAll(SpacePunctLen, KeepLast, Strip(Collapse(t))))
  }

  /** Lines 53-77: the chain applied in the layman and children modes. */
  function Enforce(t: string): string {
    TidySpacing(RemoveJargon(RemoveQuantities(RemovePlainNumbers(RemoveAcronyms(RemoveBrackets(t))))))
  }

  /** Lines 46-49: trimming and blanking the markers. */
  function Unmark(text: string): string {
    Replace(Replace(Strip(text), "<n>", " "), "</n>", " ")
  }

  /** `_post_clean_output(text, mode)`. */
  function PostClean(text: string, mode: Mode): (r: string)
    ensures text == [] ==> r == text
  {
    if text == [] then text
    else
      var t := Unmark(text);
      Strip(if mode == Scientific then t else Enforce(t))
  }

  // ---------------------------------------------------------------------
  // What each pattern matches

  /** A maximal word made of two or more ASCII capitals. */
  predicate IsAcronym(w: string) {
    |w| >= 2 && forall i :: 0 <= i < |w| ==> IsAsciiUpper(w[i])
  }

  /** A maximal word made only of digits. */
  predicate AllDigits(w: string) {
    forall i :: 0 <= i < |w| ==> IsDigit(w[i])
  }

  /** A word equal, ignoring case, to one of `alts`. */
  predicate Listed(alts: seq<string>, w: string) {
    exists i :: 0 <= i < |alts| && FoldEq(w, alts[i])
  }

  predicate IsUnitWord(w: string) { Listed(Units, w) }

  predicate IsBannedWord(w: string) { Listed(Banned, w) }

  /** Every alternative starts with a letter of the pattern alphabet. */
  predicate LetterLed(alts: seq<string>) {
    forall i :: 0 <= i < |alts| ==> alts[i] != [] && IsPatternLetter(alts[i][0])
  }

  lemma ListsLetterLed()
    ensures LetterLed(Units) && LetterLed(Banned)
  {
  }

  /** The alternation matches one of the alternatives, followed by a boundary. */
  lemma {:induction false} FirstAltFound(alts: seq<string>, pw: bool, s: string)
    requires FirstAlt(alts, pw, s) > 0
    ensures exists i :: 0 <= i < |alts| && |alts[i]| == FirstAlt(alts, pw, s) && Fits(alts[i], pw, s)
  {
    if !Fits(alts[0], pw, s) {
      FirstAltFound(alts[1..], pw, s);
      var i :| 0 <= i < |alts[1..]| && |alts[1..][i]| == FirstAlt(alts, pw, s) && Fits(alts[1..][i], pw, s);
      assert alts[1..][i] == alts[i + 1];
    }
  }

  /** When any alternative fits and is followed by a boundary, the
      alternation matches. */
  lemma {:induction false} FirstAltFinds(alts: seq<string>, pw: bool, s: string, i: nat)
    requires LetterLed(alts) && i < |alts|
    requires Fits(alts[i], pw, s)
    ensures FirstAlt(alts, pw, s) > 0
  {
    if i > 0 && !Fits(alts[0], pw, s) {
      assert alts[1..][i - 1] == alts[i];
      FirstAltFinds(alts[1..], pw, s, i - 1);
    }
  }

  /** The alternative at `i` is the first one that fits. */
  lemma {:induction false} FirstAltAt(alts: seq<string>, pw: bool, s: string, i: nat)
    requires i < |alts| && Fits(alts[i], pw, s)
    requires forall j :: 0 <= j < i ==> !Fits(alts[j], pw, s)
    ensures FirstAlt(alts, pw, s) == |alts[i]|
  {
    if i > 0 {
      assert alts[1..][i - 1] == alts[i];
      FirstAltAt(alts[1..], pw, s, i - 1);
    }
  }

  /** When no alternative fits, the alternation does not match. */
  lemma {:induction false} FirstAltMisses(alts: seq<string>, pw: bool, s: string)
    requires forall j :: 0 <= j < |alts| ==> !Fits(alts[j], pw, s)
    ensures FirstAlt(alts, pw, s) == 0
  {
    if alts != [] {
      FirstAltMisses(alts[1..], pw, s);
    }
  }

  /** No alternative starts, ignoring case, with the first character of `s`. */
  lemma FirstAltNone(alts: seq<string>, pw: bool, s: string)
    requires s != []
    requires forall j :: 0 <= j < |alts| ==> alts[j] != [] && Fold(alts[j][0]) != Fold(s[0])
    ensures FirstAlt(alts, pw, s) == 0
  {
    FirstAltMisses(alts, pw, s);
  }

  /** Erasing replaces every match by nothing. */
  lemma EraseShrinks(m: Matcher)
    ensures Shrinking(m, Erase)
  {
  }

  lemma ErasesBracketed()
    ensures ErasesEnclosed(ParenLen, Erase, '(', ')')
    ensures ErasesEnclosed(BracketLen, Erase, '[', ']')
  {
    forall pw: bool, s: string | s != [] && s[0] == '(' && ')' in s[1..]
      ensures Matches(ParenLen, pw, s)
    {
      var j :| 0 <= j < |s[1..]| && s[1..][j] == ')';
      assert UpTo(')', s[1..]) <= j;
    }
    forall pw: bool, s: string | s != [] && s[0] == '[' && ']' in s[1..]
      ensures Matches(BracketLen, pw, s)
    {
      var j :| 0 <= j < |s[1..]| && s[1..][j] == ']';
      assert UpTo(']', s[1..]) <= j;
    }
  }

  /** Acronyms, numbers and quantities are erased as whole words. */
  lemma NumbersWordSafe()
    ensures WordSafe(AcronymLen, Erase) && WordSafe(NumberLen, Erase)
    ensures WordSafe(PercentLen, Erase) && WordSafe(RatioLen, Erase)
  {
  }

  /** The unit and jargon alternations are erased as whole words: each match
      starts with a letter, so with a word character. */
  lemma AltWordSafe(alts: seq<string>)
    requires LetterLed(alts)
    ensures WordSafe((pw, s) => AltLen(alts, pw, s), Erase)
  {
    forall pw: bool, s: string | Matches((pw, s) => AltLen(alts, pw, s), pw, s)
      ensures SafeMatch(pw, s, AltLen(alts, pw, s), [])
    {
      FirstAltFound(alts, pw, s);
      var i :| 0 <= i < |alts| && |alts[i]| == FirstAlt(alts, pw, s) && Fits(alts[i], pw, s);
      FoldedLetterIsWord(s[0], alts[i][0]);
    }
  }

  lemma UnitsJargonWordSafe()
    ensures WordSafe(UnitLen, Erase) && WordSafe(JargonLen, Erase)
  {
    ListsLetterLed();
    AltWordSafe(Units);
    AltWordSafe(Banned);
    assert forall pw: bool, s: string :: UnitLen(pw, s) == ((pw, s) => AltLen(Units, pw, s))(pw, s);
    assert forall pw: bool, s: string :: JargonLen(pw, s) == ((pw, s) => AltLen(Banned, pw, s))(pw, s);
  }

  lemma TidyWordSafe()
    ensures WordSafe(SpacePunctLen, KeepLast) && Shrinking(SpacePunctLen, KeepLast)
    ensures WordSafe(DotsLen, OneDot) && Shrinking(DotsLen, OneDot)
  {
    forall pw: bool, s: string | Matches(SpacePunctLen, pw, s)
      ensures SafeMatch(pw, s, SpacePunctLen(pw, s), KeepLast(s[..SpacePunctLen(pw, s)]))
      ensures ShortFrom(KeepLast(s[..SpacePunctLen(pw, s)]), s[..SpacePunctLen(pw, s)])
    {
      SpaceIsNotWord(s[0]);
    }
  }

  // ---------------------------------------------------------------------
  // Which words each pattern is sure to catch

  /** Line 57 matches at every acronym. */
  lemma AcronymsCaught()
    ensures Catches(AcronymLen, IsAcronym)
  {
    forall pw: bool, s: string | !pw && s != [] && IsWord(s[0]) && IsAcronym(s[..WordRun(s)])
      ensures Matches(AcronymLen, pw, s)
    {
      RunOfUnique(IsAsciiUpper, s, WordRun(s));
    }
  }

  /** Line 60 matches at every word made only of digits. */
  lemma NumbersCaught()
    ensures Catches(NumberLen, AllDigits)
  {
    forall pw: bool, s: string | !pw && s != [] && IsWord(s[0]) && AllDigits(s[..WordRun(s)])
      ensures Matches(NumberLen, pw, s)
    {
      RunOfUnique(IsDigit, s, WordRun(s));
    }
  }

  /** An alternation matches at every word equal to one of its alternatives. */
  lemma ListedCaught(alts: seq<string>, pw: bool, s: string)
    requires LetterLed(alts)
    requires !pw && s != [] && IsWord(s[0]) && Listed(alts, s[..WordRun(s)])
    ensures AltLen(alts, pw, s) > 0
  {
    var i :| 0 <= i < |alts| && FoldEq(s[..WordRun(s)], alts[i]);
    assert Fits(alts[i], pw, s);
    FirstAltFinds(alts, pw, s, i);
  }

  /** Lines 62 and 72 match at every unit word and every single-word jargon term. */
  lemma UnitsJargonCaught()
    ensures Catches(UnitLen, IsUnitWord) && Catches(JargonLen, IsBannedWord)
  {
    ListsLetterLed();
    forall pw: bool, s: string | !pw && s != [] && IsWord(s[0]) && IsUnitWord(s[..WordRun(s)])
      ensures Matches(UnitLen, pw, s)
    {
      ListedCaught(Units, pw, s);
    }
    forall pw: bool, s: string | !pw && s != [] && IsWord(s[0]) && IsBannedWord(s[..WordRun(s)])
      ensures Matches(JargonLen, pw, s)
    {
      ListedCaught(Banned, pw, s);
    }
  }

  /** The percentage pattern can only match at a word made only of digits:
      its leading digit run ends at a point or a percent sign. */
  lemma PercentOnlyAtNumbers()
    ensures MatchesOnlyAt(PercentLen, AllDigits)
  {
    forall pw: bool, s: string | Matches(PercentLen, pw, s)
      ensures !pw && IsWord(s[0]) && AllDigits(s[..WordRun(s)])
    {
      RunOfUnique(IsWord, s, DigitRun(s));
    }
  }

  /** The ratio pattern can only match at a word made only of digits: its
      leading digit run ends at a point, a space or a slash. */
  lemma RatioOnlyAtNumbers()
    ensures MatchesOnlyAt(RatioLen, AllDigits)
  {
    forall pw: bool, s: string | Matches(RatioLen, pw, s)
      ensures !pw && IsWord(s[0]) && AllDigits(s[..WordRun(s)])
    {
      RatioStart(pw, s);
      RunOfUnique(IsWord, s, DigitRun(s));
    }
  }

  lemma RatioStart(pw: bool, s: string)
    requires RatioLen(pw, s) > 0
    ensures 0 < DigitRun(s) < |s| && !IsWord(s[DigitRun(s)])
  {
    var k := DigitRun(s);
    var e := FractionEnd(s, k);
    var j := e + RunOf(IsSpace, s[e..]);
    assert k > 0 && j < |s| && s[j] == '/';
    NumberBeforeSlash(s, k, e, j);
  }

  /** The digits of a number followed, after optional spaces, by a slash end
      before a non-word character: a point, a space or the slash. */
  lemma NumberBeforeSlash(s: string, k: nat, e: nat, j: nat)
    requires 0 < k == DigitRun(s) && e == FractionEnd(s, k)
    requires j == e + RunOf(IsSpace, s[e..]) && j < |s| && s[j] == '/'
    ensures k < |s| && !IsWord(s[k])
  {
    if e > k {
      assert s[k] == '.';
    } else if j > k {
      assert s[k] == s[e..][0];
      SpaceIsNotWord(s[k]);
    } else {
      assert s[k] == '/';
    }
  }

  // ---------------------------------------------------------------------
  // Spacing and punctuation after lines 75-77

  /** No whitespace directly before `, . ; : ! ?`. */
  predicate NoSpaceBeforePunct(t: string) {
    forall i :: 0 < i < |t| && IsPunct(t[i]) ==> !IsSpace(t[i - 1])
  }

  /** No two consecutive points. */
  predicate NoDoubleDot(t: string) {
    forall i :: 0 < i < |t| && t[i] == '.' ==> t[i - 1] != '.'
  }

  /** The spacing guarantees of the tidy-up, together. */
  predicate Tidy(t: string) {
    SingleSpaced(t) && NoSpaceBeforePunct(t) && NoDoubleDot(t)
  }

  lemma NoSpaceBeforePunctCons(c: char, rest: string)
    requires NoSpaceBeforePunct(rest)
    requires IsSpace(c) ==> rest == [] || !IsPunct(rest[0])
    ensures NoSpaceBeforePunct([c] + rest)
  {
    var t := [c] + rest;
    forall i | 0 < i < |t| && IsPunct(t[i])
      ensures !IsSpace(t[i - 1])
    {
      assert t[i] == rest[i - 1];
      if i > 1 {
        assert t[i - 1] == rest[i - 2];
      }
    }
  }

  lemma NoDoubleDotCons(c: char, rest: string)
    requires NoDoubleDot(rest)
    requires c == '.' ==> rest == [] || rest[0] != '.'
    ensures NoDoubleDot([c] + rest)
  {
    var t := [c] + rest;
    forall i | 0 < i < |t| && t[i] == '.'
      ensures t[i - 1] != '.'
    {
      assert t[i] == rest[i - 1];
      if i > 1 {
        assert t[i - 1] == rest[i - 2];
      }
    }
  }

  lemma NoSpaceBeforePunctSlice(t: string, a: nat, b: nat)
    requires NoSpaceBeforePunct(t) && a <= b <= |t|
    ensures NoSpaceBeforePunct(t[a..b])
  {
    var u := t[a..b];
    forall i | 0 < i < |u| && IsPunct(u[i])
      ensures !IsSpace(u[i - 1])
    {
      assert u[i] == t[a + i] && u[i - 1] == t[a + i - 1];
    }
  }

  lemma TidySlice(t: string, a: nat, b: nat)
    requires Tidy(t) && a <= b <= |t|
    ensures Tidy(t[a..b])
  {
    SingleSpacedSlice(t, a, b);
    NoSpaceBeforePunctSlice(t, a, b);
    var u := t[a..b];
    forall i | 0 < i < |u| && u[i] == '.'
      ensures u[i - 1] != '.'
    {
      assert u[i] == t[a + i] && u[i - 1] == t[a + i - 1];
    }
  }

  lemma SingleSpacedSuffix(t: string, k: nat)
    requires SingleSpaced(t) && k <= |t|
    ensures SingleSpaced(t[k..])
  {
    SingleSpacedSlice(t, k, |t|);
    assert t[k..|t|] == t[k..];
  }

  /** Line 76 on single-spaced text: spaces before punctuation are gone, and
      no spaces become adjacent. */
  lemma {:induction false} SpacePunctShape(pw: bool, s: string)
    requires SingleSpaced(s)
    ensures SingleSpaced(Sub(SpacePunctLen, KeepLast, pw, s))
    ensures NoSpaceBeforePunct(Sub(SpacePunctLen, KeepLast, pw, s))
    ensures s != [] && !IsSpace(s[0]) ==>
      Sub(SpacePunctLen, KeepLast, pw, s) != [] && Sub(SpacePunctLen, KeepLast, pw, s)[0] == s[0]
    decreases |s|
  {
    if s != [] {
      var out := Sub(SpacePunctLen, KeepLast, pw, s);
      if |s| > 1 && IsSpace(s[0]) {
        assert !IsSpace(s[1]);
        assert RunOf(IsSpace, s[1..]) == 0;
      }
      if Matches(SpacePunctLen, pw, s) {
        var n := SpacePunctLen(pw, s);
        var rest := Sub(SpacePunctLen, KeepLast, IsWord(s[n - 1]), s[n..]);
        assert out == [s[n - 1]] + rest;
        SingleSpacedSuffix(s, n);
        SpacePunctShape(IsWord(s[n - 1]), s[n..]);
        SingleSpacedCons(s[n - 1], rest);
        NoSpaceBeforePunctCons(s[n - 1], rest);
      } else {
        var rest := Sub(SpacePunctLen, KeepLast, IsWord(s[0]), s[1..]);
        assert out == [s[0]] + rest;
        SingleSpacedSuffix(s, 1);
        SpacePunctShape(IsWord(s[0]), s[1..]);
        SingleSpacedCons(s[0], rest);
        NoSpaceBeforePunctCons(s[0], rest);
      }
    }
  }

  /** Line 77 on text already tidied by line 76: runs of points become one
      point, and the other guarantees are kept. */
  lemma {:induction false} DotsShape(pw: bool, s: string)
    requires SingleSpaced(s) && NoSpaceBeforePunct(s)
    ensures Tidy(Sub(DotsLen, OneDot, pw, s))
    ensures s != [] ==> Sub(DotsLen, OneDot, pw, s) != [] && Sub(DotsLen, OneDot, pw, s)[0] == s[0]
    decreases |s|
  {
    if s != [] {
      var out := Sub(DotsLen, OneDot, pw, s);
      if Matches(DotsLen, pw, s) {
        var n := DotsLen(pw, s);
        var rest := Sub(DotsLen, OneDot, IsWord(s[n - 1]), s[n..]);
        assert out == "." + rest;
        SingleSpacedSuffix(s, n);
        NoSpaceBeforePunctSlice(s, n, |s|);
        assert s[n..|s|] == s[n..];
        DotsShape(IsWord(s[n - 1]), s[n..]);
        SingleSpacedCons('.', rest);
        NoSpaceBeforePunctCons('.', rest);
        NoDoubleDotCons('.', rest);
      } else {
        var rest := Sub(DotsLen, OneDot, IsWord(s[0]), s[1..]);
        assert out == [s[0]] + rest;
        if |s| > 1 && s[0] == '.' {
          assert RunOf(IsDot, s) == 1 + RunOf(IsDot, s[1..]);
          assert s[1] != '.';
        }
        SingleSpacedSuffix(s, 1);
        NoSpaceBeforePunctSlice(s, 1, |s|);
        assert s[1..|s|] == s[1..];
        DotsShape(IsWord(s[0]), s[1..]);
        SingleSpacedCons(s[0], rest);
        NoSpaceBeforePunctCons(s[0], rest);
        NoDoubleDotCons(s[0], rest);
      }
    }
  }

  // ---------------------------------------------------------------------
  // Stage by stage

  /** Lines 75-79 leave tidy text without whitespace at either end. */
  lemma TidyShape(t: string)
    ensures Tidy(Strip(TidySpacing(t)))
  {
    var c := Collapse(t);
    var u := Strip(c);
    SingleSpacedSlice(c, LeadingSpaces(c), LeadingSpaces(c) + |u|);
    var v := SubAll(SpacePunctLen, KeepLast, u);
    SpacePunctShape(false, u);
    var w := SubAll(DotsLen, OneDot, v);
    DotsShape(false, v);
    var r := Strip(w);
    TidySlice(w, LeadingSpaces(w), LeadingSpaces(w) + |r|);
  }

  /** A match of line 76 is whitespace and then a mark: what is not
      whitespace in it is the mark it is replaced by. */
  lemma SpacePunctPiece(pw: bool, s: string)
    requires Matches(SpacePunctLen, pw, s)
    ensures NonSpace(s[..SpacePunctLen(pw, s)]) == KeepLast(s[..SpacePunctLen(pw, s)])
  {
    var n := SpacePunctLen(pw, s);
    var u := s[..n];
    assert u == u[..n - 1] + [u[n - 1]];
    NonSpaceConcat(u[..n - 1], [u[n - 1]]);
    NonSpaceOfSpaces(u[..n - 1]);
    assert NonSpace([u[n - 1]]) == [u[n - 1]];
  }

  lemma NonSpaceSplit(s: string, n: nat)
    requires n <= |s|
    ensures NonSpace(s) == NonSpace(s[..n]) + NonSpace(s[n..])
  {
    assert s == s[..n] + s[n..];
    NonSpaceConcat(s[..n], s[n..]);
  }

  /** Line 76 removes only the whitespace in front of a punctuation mark:
      the text with its whitespace removed is the same before and after. */
  lemma {:induction false} SpacePunctKeepsNonSpace(pw: bool, s: string)
    ensures NonSpace(Sub(SpacePunctLen, KeepLast, pw, s)) == NonSpace(s)
    decreases |s|
  {
    if s != [] {
      if Matches(SpacePunctLen, pw, s) {
        var n := SpacePunctLen(pw, s);
        var rest := Sub(SpacePunctLen, KeepLast, IsWord(s[n - 1]), s[n..]);
        assert Sub(SpacePunctLen, KeepLast, pw, s) == KeepLast(s[..n]) + rest;
        SpacePunctKeepsNonSpace(IsWord(s[n - 1]), s[n..]);
        SpacePunctPiece(pw, s);
        NonSpaceSplit(s, n);
        NonSpaceConcat(KeepLast(s[..n]), rest);
      } else {
        var rest := Sub(SpacePunctLen, KeepLast, IsWord(s[0]), s[1..]);
        assert Sub(SpacePunctLen, KeepLast, pw, s) == [s[0]] + rest;
        SpacePunctKeepsNonSpace(IsWord(s[0]), s[1..]);
        NonSpaceConcat([s[0]], rest);
      }
    }
  }

  /** Lines 75-76 change only whitespace: every other character of the text
      is kept, in order, until line 77 shortens runs of points. */
  lemma SpacingKeepsNonSpace(t: string)
    ensures NonSpace(SubAll(SpacePunctLen, KeepLast, Strip(Collapse(t)))) == NonSpace(t)
  {
    CollapseSqueezes(t);
    StripKeepsNonSpace(Collapse(t));
    SpacePunctKeepsNonSpace(false, Strip(Collapse(t)));
  }

  /** Lines 76-77 put no whitespace at the end of a replacement. */
  lemma TidyEndsSolid()
    ensures EndsSolid(SpacePunctLen, KeepLast) && EndsSolid(DotsLen, OneDot)
  {
    forall pw: bool, s: string | Matches(SpacePunctLen, pw, s)
      ensures SolidEnd(KeepLast(s[..SpacePunctLen(pw, s)]))
    {
      var n := RunOf(IsSpace, s);
      assert s[..n + 1][n] == s[n];
    }
  }

  /** Line 75 already trims the text and lines 76-77 keep both ends, so the
      final `strip()` of line 79 removes nothing in these modes. */
  lemma TidyTrimmed(t: string)
    ensures Strip(TidySpacing(t)) == TidySpacing(t)
  {
    var c := Collapse(t);
    var u := Strip(c);
    var v := SubAll(SpacePunctLen, KeepLast, u);
    var w := SubAll(DotsLen, OneDot, v);
    if u == [] {
      assert v == [] && w == [];
    } else {
      SingleSpacedSlice(c, LeadingSpaces(c), LeadingSpaces(c) + |u|);
      SpacePunctShape(false, u);
      DotsShape(false, v);
      TidyEndsSolid();
      SubKeepsSolidEnd(SpacePunctLen, KeepLast, false, u);
      SubKeepsSolidEnd(DotsLen, OneDot, false, v);
    }
    StripOfTrimmed(w);
  }

  /** Stripping cuts the text at whitespace, so it splits no word. */
  lemma StripKeepsNoBad(bad: string -> bool, t: string)
    requires NoBadStart(bad, false, t)
    ensures NoBadStart(bad, false, Strip(t))
  {
    var a := LeadingSpaces(t);
    var b := a + |Strip(t)|;
    if a > 0 {
      SpaceIsNotWord(t[a - 1]);
    }
    if b < |t| {
      SpaceIsNotWord(t[b]);
    }
    NoBadStartSlice(bad, t, a, b);
  }

  /** Lines 75-79 delete no word and join no two words. */
  lemma TidyKeepsNoBad(bad: string -> bool, t: string)
    requires NoBadStart(bad, false, t)
    ensures NoBadStart(bad, false, Strip(TidySpacing(t)))
  {
    CollapseSafe();
    TidyWordSafe();
    var c := Collapse(t);
    SubNoBadStart(SpaceRun, OneSpace, bad, false, false, t);
    var u := Strip(c);
    StripKeepsNoBad(bad, c);
    var v := SubAll(SpacePunctLen, KeepLast, u);
    SubNoBadStart(SpacePunctLen, KeepLast, bad, false, false, u);
    var w := SubAll(DotsLen, OneDot, v);
    SubNoBadStart(DotsLen, OneDot, bad, false, false, v);
    StripKeepsNoBad(bad, w);
  }

  /** Lines 61-63 after line 60: with no word made only of digits left, the
      percentage and ratio patterns match nowhere; only the units go. */
  lemma QuantitiesAfterNumbers(t: string)
    requires NoBadStart(AllDigits, false, t)
    ensures RemoveQuantities(t) == SubAll(UnitLen, Erase, t)
  {
    PercentOnlyAtNumbers();
    NoMatchWithoutBad(PercentLen, AllDigits, false, t);
    SubIdentity(PercentLen, Erase, false, t);
    var u := SubAll(UnitLen, Erase, t);
    UnitsJargonWordSafe();
    SubNoBadStart(UnitLen, Erase, AllDigits, false, false, t);
    RatioOnlyAtNumbers();
    NoMatchWithoutBad(RatioLen, AllDigits, false, u);
    SubIdentity(RatioLen, Erase, false, u);
  }

  /** Lines 60-63 leave no word made only of digits and no unit word, and
      delete no other word. */
  lemma NumbersStage(bad: string -> bool, t: string)
    ensures NoBadStart(AllDigits, false, RemoveQuantities(RemovePlainNumbers(t)))
    ensures NoBadStart(IsUnitWord, false, RemoveQuantities(RemovePlainNumbers(t)))
    ensures NoBadStart(bad, false, t) ==> NoBadStart(bad, false, RemoveQuantities(RemovePlainNumbers(t)))
  {
    NumbersWordSafe();
    UnitsJargonWordSafe();
    NumbersCaught();
    UnitsJargonCaught();
    var u := RemovePlainNumbers(t);
    SubNoBadStart(NumberLen, Erase, AllDigits, false, false, t);
    QuantitiesAfterNumbers(u);
    SubNoBadStart(UnitLen, Erase, AllDigits, false, false, u);
    SubNoBadStart(UnitLen, Erase, IsUnitWord, false, false, u);
    if NoBadStart(bad, false, t) {
      SubNoBadStart(NumberLen, Erase, bad, false, false, t);
      SubNoBadStart(UnitLen, Erase, bad, false, false, u);
    }
  }

  /** Lines 72-79 remove the single-word jargon terms and keep what earlier
      lines removed removed. */
  lemma JargonStage(bad: string -> bool, t: string)
    ensures NoBadStart(IsBannedWord, false, Strip(TidySpacing(RemoveJargon(t))))
    ensures NoBadStart(bad, false, t) ==> NoBadStart(bad, false, Strip(TidySpacing(RemoveJargon(t))))
  {
    UnitsJargonWordSafe();
    UnitsJargonCaught();
    SubNoBadStart(JargonLen, Erase, IsBannedWord, false, false, t);
    TidyKeepsNoBad(IsBannedWord, RemoveJargon(t));
    if NoBadStart(bad, false, t) {
      SubNoBadStart(JargonLen, Erase, bad, false, false, t);
      TidyKeepsNoBad(bad, RemoveJargon(t));
    }
  }

  /** After lines 53-79: no acronym, no word made only of digits, no unit word
      and no single-word jargon term is left as a word of the text. */
  lemma EnforceRemovesWords(t: string)
    ensures NoBadWord(IsAcronym, Strip(Enforce(t)))
    ensures NoBadWord(AllDigits, Strip(Enforce(t)))
    ensures NoBadWord(IsUnitWord, Strip(Enforce(t)))
    ensures NoBadWord(IsBannedWord, Strip(Enforce(t)))
  {
    var t1 := RemoveAcronyms(RemoveBrackets(t));
    NumbersWordSafe();
    AcronymsCaught();
    SubNoBadStart(AcronymLen, Erase, IsAcronym, false, false, RemoveBrackets(t));
    var t2 := RemoveQuantities(RemovePlainNumbers(t1));
    NumbersStage(IsAcronym, t1);
    JargonStage(IsAcronym, t2);
    JargonStage(AllDigits, t2);
    JargonStage(IsUnitWord, t2);
    var r := Strip(Enforce(t));
    NoBadWordFromScan(IsAcronym, r);
    NoBadWordFromScan(AllDigits, r);
    NoBadWordFromScan(IsUnitWord, r);
    NoBadWordFromScan(IsBannedWord, r);
  }

  // ---------------------------------------------------------------------
  // Brackets

  /** Lines 53-54 leave no `(` before a `)` and no `[` before a `]`. */
  lemma BracketsStage(t: string)
    ensures NoOpenBeforeClose('(', ')', RemoveBrackets(t))
    ensures NoOpenBeforeClose('[', ']', RemoveBrackets(t))
  {
    EraseShrinks(ParenLen);
    EraseShrinks(BracketLen);
    ErasesBracketed();
    var u := SubAll(ParenLen, Erase, t);
    SubRemovesEnclosed(ParenLen, Erase, '(', ')', false, t);
    SubKeepsNoOpenBeforeClose(BracketLen, Erase, '(', ')', false, u);
    SubRemovesEnclosed(BracketLen, Erase, '[', ']', false, u);
  }

  /** Lines 57-72 only delete characters. */
  lemma ErasingKeepsOrder(o: char, c: char, t: string)
    requires o != ' ' && c != ' ' && NoOpenBeforeClose(o, c, t)
    ensures NoOpenBeforeClose(o, c, RemoveJargon(RemoveQuantities(RemovePlainNumbers(RemoveAcronyms(t)))))
  {
    EraseShrinks(AcronymLen);
    EraseShrinks(NumberLen);
    EraseShrinks(PercentLen);
    EraseShrinks(UnitLen);
    EraseShrinks(RatioLen);
    EraseShrinks(JargonLen);
    var t1 := RemoveAcronyms(t);
    SubKeepsNoOpenBeforeClose(AcronymLen, Erase, o, c, false, t);
    var t2 := RemovePlainNumbers(t1);
    SubKeepsNoOpenBeforeClose(NumberLen, Erase, o, c, false, t1);
    var t3 := SubAll(PercentLen, Erase, t2);
    SubKeepsNoOpenBeforeClose(PercentLen, Erase, o, c, false, t2);
    var t4 := SubAll(UnitLen, Erase, t3);
    SubKeepsNoOpenBeforeClose(UnitLen, Erase, o, c, false, t3);
    var t5 := SubAll(RatioLen, Erase, t4);
    SubKeepsNoOpenBeforeClose(RatioLen, Erase, o, c, false, t4);
    SubKeepsNoOpenBeforeClose(JargonLen, Erase, o, c, false, t5);
  }

  /** Lines 75-79 only delete characters or shrink runs. */
  lemma TidyKeepsOrder(o: char, c: char, t: string)
    requires o != ' ' && c != ' ' && NoOpenBeforeClose(o, c, t)
    ensures NoOpenBeforeClose(o, c, Strip(TidySpacing(t)))
  {
    CollapseSafe();
    TidyWordSafe();
    var u := Collapse(t);
    SubKeepsNoOpenBeforeClose(SpaceRun, OneSpace, o, c, false, t);
    var v := Strip(u);
    NoOpenBeforeCloseSlice(o, c, u, LeadingSpaces(u), LeadingSpaces(u) + |v|);
    var w := SubAll(SpacePunctLen, KeepLast, v);
    SubKeepsNoOpenBeforeClose(SpacePunctLen, KeepLast, o, c, false, v);
    var x := SubAll(DotsLen, OneDot, w);
    SubKeepsNoOpenBeforeClose(DotsLen, OneDot, o, c, false, w);
    var r := Strip(x);
    NoOpenBeforeCloseSlice(o, c, x, LeadingSpaces(x), LeadingSpaces(x) + |r|);
  }

  /** After lines 53-79 no `(` comes before a `)` and no `[` before a `]`. */
  lemma EnforceRemovesBrackets(t: string)
    ensures NoOpenBeforeClose('(', ')', Strip(Enforce(t)))
    ensures NoOpenBeforeClose('[', ']', Strip(Enforce(t)))
  {
    var u := RemoveBrackets(t);
    BracketsStage(t);
    var v := RemoveJargon(RemoveQuantities(RemovePlainNumbers(RemoveAcronyms(u))));
    ErasingKeepsOrder('(', ')', u);
    ErasingKeepsOrder('[', ']', u);
    TidyKeepsOrder('(', ')', v);
    TidyKeepsOrder('[', ']', v);
  }

  // ---------------------------------------------------------------------
  // Length

  lemma EraseShorter(m: Matcher, t: string)
    ensures |SubAll(m, Erase, t)| <= |t|
  {
    EraseShrinks(m);
    SubLength(m, Erase, false, t);
  }

  /** Every step of lines 53-79 only deletes characters or shrinks runs. */
  lemma EnforceShorter(t: string)
    ensures |Strip(Enforce(t))| <= |t|
  {
    var t0 := SubAll(ParenLen, Erase, t);
    EraseShorter(ParenLen, t);
    var t1 := RemoveBrackets(t);
    EraseShorter(BracketLen, t0);
    var t2 := RemoveAcronyms(t1);
    EraseShorter(AcronymLen, t1);
    var t3 := RemovePlainNumbers(t2);
    EraseShorter(NumberLen, t2);
    var t4 := SubAll(PercentLen, Erase, t3);
    EraseShorter(PercentLen, t3);
    var t5 := SubAll(UnitLen, Erase, t4);
    EraseShorter(UnitLen, t4);
    var t6 := SubAll(RatioLen, Erase, t5);
    EraseShorter(RatioLen, t5);
    var t7 := SubAll(JargonLen, Erase, t6);
    EraseShorter(JargonLen, t6);
    TidyWordSafe();
    var u := Strip(Collapse(t7));
    SubLength(SpacePunctLen, KeepLast, false, u);
    SubLength(DotsLen, OneDot, false, SubAll(SpacePunctLen, KeepLast, u));
  }

  /** Lines 46-49 never lengthen the text: each marker becomes one space. */
  lemma UnmarkShorter(text: string)
    ensures |Unmark(text)| <= |text|
  {
    ReplaceLength(Strip(text), "<n>", " ");
    ReplaceLength(Replace(Strip(text), "<n>", " "), "</n>", " ");
  }

  /** In every mode the cleaned output is no longer than the generated text. */
  lemma PostCleanShorter(text: string, mode: Mode)
    ensures |PostClean(text, mode)| <= |text|
  {
    if text != [] {
      UnmarkShorter(text);
      if mode != Scientific {
        EnforceShorter(Unmark(text));
      }
    }
  }

  // ---------------------------------------------------------------------
  // The layman and children modes

  /** In the layman and children modes the output has no whitespace at either
      end, only single plain spaces, no space before punctuation, no `..`, no
      acronym, no word made only of digits, no unit word, no single-word
      jargon term, no `(` before a `)` and no `[` before a `]`. */
  lemma PostCleanEnforces(text: string, mode: Mode)
    requires mode != Scientific
    ensures var r := PostClean(text, mode);
      (r == [] || (!IsSpace(r[0]) && !IsSpace(r[|r| - 1]))) &&
      Tidy(r) &&
      NoBadWord(IsAcronym, r) && NoBadWord(AllDigits, r) &&
      NoBadWord(IsUnitWord, r) && NoBadWord(IsBannedWord, r) &&
      NoOpenBeforeClose('(', ')', r) && NoOpenBeforeClose('[', ']', r)
  {
    if text != [] {
      var t := Unmark(text);
      var v := RemoveJargon(RemoveQuantities(RemovePlainNumbers(RemoveAcronyms(RemoveBrackets(t)))));
      PlainStrips(text, mode);
      assert Enforce(t) == TidySpacing(v);
      TidyShape(v);
      StripIdempotent(TidySpacing(v));
      EnforceRemovesWords(t);
      EnforceRemovesBrackets(t);
    }
  }

  lemma PlainStrips(text: string, mode: Mode)
    requires text != [] && mode != Scientific
    ensures PostClean(text, mode) == Strip(Enforce(Unmark(text)))
  {
  }

  // ---------------------------------------------------------------------
  // The scientific mode

  /** In scientific mode every character other than whitespace and the
      characters of the markers is kept, as often as it occurs: numbers,
      acronyms and brackets stay. */
  lemma ScientificKeepsContent(text: string, c: char)
    requires !IsSpace(c) && c !in "</n>"
    ensures multiset(PostClean(text, Scientific))[c] == multiset(text)[c]
  {
    if text != [] {
      var t0 := Strip(text);
      StripKeepsCount(text, c);
      var t1 := Replace(t0, "<n>", " ");
      ReplaceKeepsCount(t0, "<n>", " ", c);
      var t2 := Replace(t1, "</n>", " ");
      ReplaceKeepsCount(t1, "</n>", " ", c);
      StripKeepsCount(t2, c);
    }
  }

  /** In scientific mode no `<n>` or `</n>` marker is left. */
  lemma ScientificNoMarkers(text: string)
    ensures Free(PostClean(text, Scientific), "<n>")
    ensures Free(PostClean(text, Scientific), "</n>")
  {
    if text != [] {
      UnmarkFree(text);
      StripKeepsFree(Unmark(text), "<n>");
      StripKeepsFree(Unmark(text), "</n>");
      ScientificStrips(text);
    }
  }

  /** Lines 46-49 leave no marker behind. */
  lemma UnmarkFree(text: string)
    ensures Free(Unmark(text), "<n>") && Free(Unmark(text), "</n>")
  {
    var t1 := Replace(Strip(text), "<n>", " ");
    ReplaceRemoves(Strip(text), "<n>", " ");
    ReplaceKeepsFree(t1, "</n>", " ", "<n>");
    ReplaceRemoves(t1, "</n>", " ");
  }

  /** In scientific mode only the markers are blanked before the final trim. */
  lemma ScientificStrips(text: string)
    requires text != []
    ensures PostClean(text, Scientific) == Strip(Unmark(text))
  {
  }

  /** In scientific mode a text without markers is only trimmed. */
  lemma ScientificOnlyTrims(text: string)
    requires '<' !in text
    ensures PostClean(text, Scientific) == Strip(text)
  {
    if text != [] {
      var t0 := Strip(text);
      assert '<' !in t0;
      ReplaceAbsent(t0, "<n>", " ");
      ReplaceAbsent(t0, "</n>", " ");
      StripIdempotent(text);
    }
  }
}
