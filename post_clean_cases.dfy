/** Concrete runs of the output cleaner in layman mode that show where the
    chain of substitutions in `app/services/summarizer.py` (lines 41-79) does
    something other than its comments suggest: a percentage keeps its sign,
    cleaning twice can remove more than cleaning once, and erasing a
    parenthesis can assemble a `<n>` marker after the markers were blanked. */
module OutputCleanerCases {
  import opened CharClass
  import opened Text
  import opened Regex
  import opened OutputCleaner

  // ---------------------------------------------------------------------
  // Stages that leave a text alone

  /** Trimming and blanking the markers leave a trimmed text without `<` alone. */
  lemma PlainUnmark(s: string)
    requires '<' !in s && s != [] && !IsSpace(s[0]) && !IsSpace(s[|s| - 1])
    ensures Unmark(s) == s
  {
    StripOfTrimmed(s);
    ReplaceAbsent(s, "<n>", " ");
    ReplaceAbsent(s, "</n>", " ");
  }

  predicate IsOpenParen(c: char) { c == '(' }
  predicate IsOpenBracket(c: char) { c == '[' }

  lemma ParenClass()
    ensures StartsIn(ParenLen, IsOpenParen)
  {
  }

  lemma BracketClass()
    ensures StartsIn(BracketLen, IsOpenBracket)
  {
  }

  lemma AcronymClass()
    ensures StartsIn(AcronymLen, IsAsciiUpper)
  {
  }

  lemma NumberClass()
    ensures StartsIn(NumberLen, IsDigit)
  {
  }

  lemma PercentClass()
    ensures StartsIn(PercentLen, IsDigit)
  {
  }

  lemma RatioClass()
    ensures StartsIn(RatioLen, IsDigit)
  {
  }

  lemma DotsClass()
    ensures StartsIn(DotsLen, IsDot)
  {
  }

  /** Without digits, line 60 changes nothing. */
  lemma NoDigitsNoNumbers(t: string)
    requires forall i :: 0 <= i < |t| ==> !IsDigit(t[i])
    ensures RemovePlainNumbers(t) == t
  {
    NumberClass();
    NoMatchOutsideClass(NumberLen, IsDigit, false, t);
    SubIdentity(NumberLen, Erase, false, t);
  }

  /** Without opening brackets and capitals, lines 53-57 change nothing. */
  lemma NoBracketsNoCapitals(t: string)
    requires forall i :: 0 <= i < |t| ==> t[i] != '(' && t[i] != '[' && !IsAsciiUpper(t[i])
    ensures RemoveBrackets(t) == t && RemoveAcronyms(t) == t
  {
    ParenClass();
    NoMatchOutsideClass(ParenLen, IsOpenParen, false, t);
    SubIdentity(ParenLen, Erase, false, t);
    BracketClass();
    NoMatchOutsideClass(BracketLen, IsOpenBracket, false, t);
    SubIdentity(BracketLen, Erase, false, t);
    AcronymClass();
    NoMatchOutsideClass(AcronymLen, IsAsciiUpper, false, t);
    SubIdentity(AcronymLen, Erase, false, t);
  }

  lemma NoDigitsNoPercent(t: string)
    requires forall i :: 0 <= i < |t| ==> !IsDigit(t[i])
    ensures SubAll(PercentLen, Erase, t) == t
  {
    PercentClass();
    NoMatchOutsideClass(PercentLen, IsDigit, false, t);
    SubIdentity(PercentLen, Erase, false, t);
  }

  lemma NoDigitsNoRatio(t: string)
    requires forall i :: 0 <= i < |t| ==> !IsDigit(t[i])
    ensures SubAll(RatioLen, Erase, t) == t
  {
    RatioClass();
    NoMatchOutsideClass(RatioLen, IsDigit, false, t);
    SubIdentity(RatioLen, Erase, false, t);
  }

  /** Without digits and unit words, lines 60-63 change nothing. */
  lemma NoNumbersNoUnits(t: string)
    requires forall i :: 0 <= i < |t| ==> !IsDigit(t[i])
    requires NoMatchFrom(UnitLen, false, t)
    ensures RemovePlainNumbers(t) == t && RemoveQuantities(t) == t
  {
    NoDigitsNoNumbers(t);
    NoDigitsNoPercent(t);
    SubIdentity(UnitLen, Erase, false, t);
    NoDigitsNoRatio(t);
  }

  /** Whitespace is single spaces, each followed by a character that is
      neither whitespace nor punctuation. */
  predicate SpacedWords(s: string) {
    forall i :: 0 <= i < |s| && IsSpace(s[i]) ==> s[i] == ' ' && i + 1 < |s| && !IsSpace(s[i + 1]) && !IsPunct(s[i + 1])
  }

  lemma {:induction false} SpacePunctNowhere(pw: bool, s: string)
    requires SpacedWords(s)
    ensures NoMatchFrom(SpacePunctLen, pw, s)
    decreases |s|
  {
    if s != [] {
      if IsSpace(s[0]) {
        RunOfUnique(IsSpace, s, 1);
      }
      assert SpacedWords(s[1..]) by {
        forall i | 0 <= i < |s[1..]| && IsSpace(s[1..][i])
          ensures s[1..][i] == ' ' && i + 1 < |s[1..]| && !IsSpace(s[1..][i + 1]) && !IsPunct(s[1..][i + 1])
        {
          assert s[1..][i] == s[i + 1];
        }
      }
      SpacePunctNowhere(IsWord(s[0]), s[1..]);
    }
  }

  /** When collapsing the whitespace leaves words separated by single spaces
      and no point, lines 75-77 only collapse the whitespace. */
  lemma TidyIsCollapse(t: string)
    requires SpacedWords(Collapse(t)) && '.' !in Collapse(t)
    requires Collapse(t) == [] || !IsSpace(Collapse(t)[0])
    ensures TidySpacing(t) == Collapse(t)
  {
    var c := Collapse(t);
    if c != [] {
      assert !IsSpace(c[|c| - 1]);
    }
    StripOfTrimmed(c);
    SpacePunctNowhere(false, c);
    SubIdentity(SpacePunctLen, KeepLast, false, c);
    DotsClass();
    NoMatchOutsideClass(DotsLen, IsDot, false, c);
    SubIdentity(DotsLen, OneDot, false, c);
  }

  /** The layman chain, stage by stage. */
  lemma LaymanSteps(s: string, t1: string, t2: string, t3: string, t4: string, t5: string, r: string)
    requires s != [] && Unmark(s) == s
    requires RemoveBrackets(s) == t1 && RemoveAcronyms(t1) == t2 && RemovePlainNumbers(t2) == t3
    requires RemoveQuantities(t3) == t4 && RemoveJargon(t4) == t5 && TidySpacing(t5) == r && Strip(r) == r
    ensures PostClean(s, Layman) == r
  {
  }

  // ---------------------------------------------------------------------
  // A percentage keeps its sign

  /** Line 60 takes a run of digits that a sign other than a point ends:
      `\b` holds between the last digit and the sign. */
  lemma DigitsBeforeSign(a: string, c: char, b: string)
    requires a != [] && AllDigits(a) && !IsWord(c) && c != '.'
    ensures Sub(NumberLen, Erase, false, a + [c] + b) == [c] + Sub(NumberLen, Erase, false, b)
  {
    var s := a + [c] + b;
    assert s[|a|] == c && s[..|a|] == a && s[|a|..] == [c] + b;
    RunOfUnique(IsDigit, s, |a|);
    assert NumberLen(false, s) == |a|;
    var u := [c] + b;
    assert Sub(NumberLen, Erase, false, s) == Sub(NumberLen, Erase, true, u);
    assert DigitRun(u) == 0;
    assert u[1..] == b;
    assert Sub(NumberLen, Erase, true, u) == [c] + Sub(NumberLen, Erase, false, b);
  }

  /** Line 60 takes a text made only of digits whole. */
  lemma DigitsErased(b: string)
    requires b != [] && AllDigits(b)
    ensures Sub(NumberLen, Erase, false, b) == []
  {
    RunOfUnique(IsDigit, b, |b|);
    assert NumberLen(false, b) == |b|;
    assert b[|b|..] == [];
  }

  /** A lone sign such as `%` or `/` is left alone by lines 61-79. */
  lemma SignAlone(s: string)
    requires |s| == 1 && !IsWord(s[0]) && !IsSpace(s[0]) && s[0] != '.'
    ensures RemoveQuantities(s) == s && RemoveJargon(s) == s && TidySpacing(s) == s
  {
    UnitsJargonWordSafe();
    NoMatchAtWordStarts(UnitLen, false, s);
    NoNumbersNoUnits(s);
    NoMatchAtWordStarts(JargonLen, false, s);
    SubIdentity(JargonLen, Erase, false, s);
    CollapseIdentity(false, s);
    TidyIsCollapse(s);
  }

  /** A text whose numbers line 60 takes, leaving a lone sign, cleans to
      that sign. */
  lemma LoneSignLeft(s: string)
    requires s != [] && '<' !in s && !IsSpace(s[0]) && !IsSpace(s[|s| - 1])
    requires forall i :: 0 <= i < |s| ==> s[i] != '(' && s[i] != '[' && !IsAsciiUpper(s[i])
    requires |RemovePlainNumbers(s)| == 1
    requires var c := RemovePlainNumbers(s)[0]; !IsWord(c) && !IsSpace(c) && c != '.'
    ensures PostClean(s, Layman) == RemovePlainNumbers(s)
  {
    PlainUnmark(s);
    NoBracketsNoCapitals(s);
    var t := RemovePlainNumbers(s);
    SignAlone(t);
    StripOfTrimmed(t);
    LaymanSteps(s, s, s, t, t, t, t);
  }

  /** Digits around a sign that is not a bracket, a space or `<`: none of
      lines 46-59 sees anything to change. */
  lemma SignTextPlain(a: string, c: char, b: string)
    requires a != [] && AllDigits(a) && AllDigits(b)
    requires c != '<' && c != '(' && c != '[' && !IsSpace(c) && !IsAsciiUpper(c)
    ensures var s := a + [c] + b; '<' !in s && !IsSpace(s[0]) && !IsSpace(s[|s| - 1])
    ensures var s := a + [c] + b;
      forall i :: 0 <= i < |s| ==> s[i] != '(' && s[i] != '[' && !IsAsciiUpper(s[i])
  {
    var s := a + [c] + b;
    assert forall i :: 0 <= i < |s| ==> s[i] == c || IsDigit(s[i]);
  }

  /** The percentage pattern of line 61 comes after line 60 has taken the
      digits, and asks for a word character after the sign besides: `62%`
      loses its digits and keeps its percent sign. */
  lemma PercentSignSurvives(a: string)
    requires a != [] && AllDigits(a)
    ensures PostClean(a + "%", Layman) == "%"
  {
    var s := a + "%";
    DigitsBeforeSign(a, '%', []);
    SignTextPlain(a, '%', []);
    assert s == a + ['%'] + [];
    assert RemovePlainNumbers(s) == "%";
    LoneSignLeft(s);
  }

  /** The ratio pattern of line 63 comes after line 60 has taken both
      numbers, so it never sees `28/43`: the slash is left behind. */
  lemma RatioSlashSurvives(a: string, b: string)
    requires a != [] && AllDigits(a) && b != [] && AllDigits(b)
    ensures PostClean(a + "/" + b, Layman) == "/"
  {
    var s := a + "/" + b;
    DigitsBeforeSign(a, '/', b);
    DigitsErased(b);
    SignTextPlain(a, '/', b);
    assert s == a + ['/'] + b;
    assert RemovePlainNumbers(s) == "/";
    LoneSignLeft(s);
  }

  // ---------------------------------------------------------------------
  // Cleaning twice removes more than cleaning once

  /** The words of `p  value` start at 0 and 3. */
  lemma DoubleSpaceWordStarts(s: string)
    requires s == "p  value"
    ensures s[0..] == s
    ensures forall i :: 0 <= i < |s| && WordStart(false, s, i) ==> i == 0 || i == 3
  {
    forall i | 0 <= i < |s|
      ensures WordStart(false, s, i) ==> i == 0 || i == 3
    {
      if 0 < i < 3 {
        assert s[i] == ' ';
      } else if i > 3 {
        assert IsAsciiLower(s[i - 1]);
      }
    }
  }

  /** The words of `p value` start at 0 and 2. */
  lemma SingleSpaceWordStarts(s: string)
    requires s == "p value"
    ensures s[0..] == s
    ensures forall i :: 0 <= i < |s| && WordStart(false, s, i) ==> i == 0 || i == 2
  {
    forall i | 0 <= i < |s|
      ensures WordStart(false, s, i) ==> i == 0 || i == 2
    {
      if i == 1 {
        assert s[i] == ' ';
      } else if i > 2 {
        assert IsAsciiLower(s[i - 1]);
      }
    }
  }

  /** `p value` does not fit `p  value`. */
  lemma JargonMissesP(s: string)
    requires s == "p  value"
    ensures !Matches(JargonLen, false, s)
  {
    assert forall j :: 0 <= j < |Banned| ==> !Fits(Banned[j], false, s) by {
      assert !FoldPrefix(s, Banned[12]) by { assert Fold(s[2]) != Fold(Banned[12][2]); }
    }
    FirstAltMisses(Banned, false, s);
  }

  /** No banned phrase starts with `v`. */
  lemma JargonMissesValue(v: string)
    requires v == "value"
    ensures !Matches(JargonLen, false, v)
  {
    FirstAltNone(Banned, false, v);
  }

  lemma JargonMissesDoubleSpace(s: string)
    requires s == "p  value"
    ensures !Matches(JargonLen, false, s) && !Matches(JargonLen, false, s[3..])
  {
    JargonMissesP(s);
    assert s[3..] == "value";
    JargonMissesValue(s[3..]);
  }

  lemma UnitsMissDoubleSpace(s: string)
    requires s == "p  value"
    ensures !Matches(UnitLen, false, s) && !Matches(UnitLen, false, s[3..])
  {
    FirstAltNone(Units, false, s);
    FirstAltNone(Units, false, s[3..]);
  }

  lemma UnitsNoneDoubleSpace(s: string)
    requires s == "p  value"
    ensures RemoveQuantities(s) == s
  {
    DoubleSpaceWordStarts(s);
    UnitsMissDoubleSpace(s);
    UnitsJargonWordSafe();
    NoMatchAtWordStarts(UnitLen, false, s);
    NoNumbersNoUnits(s);
  }

  lemma JargonNoneDoubleSpace(s: string)
    requires s == "p  value"
    ensures RemoveJargon(s) == s
  {
    DoubleSpaceWordStarts(s);
    JargonMissesDoubleSpace(s);
    UnitsJargonWordSafe();
    NoMatchAtWordStarts(JargonLen, false, s);
    SubIdentity(JargonLen, Erase, false, s);
  }

  /** Lines 53-60 find nothing in `p  value`. */
  lemma DoubleSpaceFirstStages(s: string)
    requires s == "p  value"
    ensures RemoveBrackets(s) == s && RemoveAcronyms(s) == s && RemovePlainNumbers(s) == s
  {
    NoDigitsNoNumbers(s);
    NoBracketsNoCapitals(s);
  }

  /** A character, two whitespace characters and a single-spaced rest
      starting with a non-space collapse to the character, one space and the
      rest. */
  lemma CollapseTwoSpaces(s: string)
    requires |s| > 3 && !IsSpace(s[0]) && IsSpace(s[1]) && IsSpace(s[2]) && !IsSpace(s[3])
    requires SingleSpaced(s[3..])
    ensures Collapse(s) == [s[0]] + " " + s[3..]
  {
    var a, b := s[1..], s[3..];
    assert !Matches(SpaceRun, false, s);
    assert Collapse(s) == [s[0]] + Sub(SpaceRun, OneSpace, IsWord(s[0]), a);
    RunOfUnique(IsSpace, a, 2);
    assert a[2..] == b;
    SpaceIsNotWord(a[1]);
    CollapseIdentity(false, b);
    assert Sub(SpaceRun, OneSpace, IsWord(s[0]), a) == " " + b;
  }

  lemma CollapseDoubleSpace(s: string)
    requires s == "p  value"
    ensures Collapse(s) == "p value"
  {
    CollapseTwoSpaces(s);
  }

  lemma UnitsMissSingleSpace(s: string)
    requires s == "p value"
    ensures !Matches(UnitLen, false, s) && !Matches(UnitLen, false, s[2..])
  {
    FirstAltNone(Units, false, s);
    FirstAltNone(Units, false, s[2..]);
  }

  lemma UnitsNoneSingleSpace(s: string)
    requires s == "p value"
    ensures NoMatchFrom(UnitLen, false, s)
  {
    SingleSpaceWordStarts(s);
    UnitsMissSingleSpace(s);
    UnitsJargonWordSafe();
    NoMatchAtWordStarts(UnitLen, false, s);
  }

  /** The banned phrase `p value` matches the whole text. */
  lemma JargonMatchesAll(s: string)
    requires s == "p value"
    ensures JargonLen(false, s) == |s|
  {
    assert Banned[12] == s;
    assert forall j :: 0 <= j < 12 ==> !Fits(Banned[j], false, s) by {
      assert !FoldPrefix(s, Banned[0]);
      assert !FoldPrefix(s, Banned[1]) by { assert Fold(s[1]) != Fold(Banned[1][1]); }
    }
    FirstAltAt(Banned, false, s, 12);
  }

  /** A match that covers the whole text is replaced as a whole. */
  lemma SubWhole(m: Matcher, r: Rewriter, s: string)
    requires s != [] && m(false, s) == |s|
    ensures SubAll(m, r, s) == r(s)
  {
    assert Matches(m, false, s);
    assert s[..|s|] == s;
    assert Sub(m, r, IsWord(s[|s| - 1]), s[|s|..]) == [];
  }

  lemma SingleSpaceKept(s: string)
    requires s == "p value"
    ensures RemoveBrackets(s) == s && RemoveAcronyms(s) == s
    ensures RemovePlainNumbers(s) == s && RemoveQuantities(s) == s
  {
    NoBracketsNoCapitals(s);
    UnitsNoneSingleSpace(s);
    NoNumbersNoUnits(s);
  }

  lemma SingleSpaceBanned(s: string)
    requires s == "p value"
    ensures RemoveJargon(s) == []
  {
    JargonMatchesAll(s);
    SubWhole(JargonLen, Erase, s);
  }

  /** `p value` is two words with one space and no point. */
  lemma SingleSpaceSpaced(c: string)
    requires c == "p value"
    ensures SpacedWords(c) && '.' !in c && !IsSpace(c[0]) && Strip(c) == c
  {
    assert forall i :: 0 <= i < |c| && IsSpace(c[i]) ==> i == 1;
    StripOfTrimmed(c);
  }

  /** Line 75 collapses the double space. */
  lemma DoubleSpaceTidied(s: string)
    requires s == "p  value"
    ensures TidySpacing(s) == "p value" && Strip("p value") == "p value"
  {
    CollapseDoubleSpace(s);
    SingleSpaceSpaced("p value");
    TidyIsCollapse(s);
  }

  lemma DoubleSpacePass()
    ensures PostClean("p  value", Layman) == "p value"
  {
    PlainUnmark("p  value");
    DoubleSpaceFirstStages("p  value");
    UnitsNoneDoubleSpace("p  value");
    JargonNoneDoubleSpace("p  value");
    DoubleSpaceTidied("p  value");
    LaymanSteps("p  value", "p  value", "p  value", "p  value", "p  value", "p  value", "p value");
  }

  lemma SingleSpacePass()
    ensures PostClean("p value", Layman) == ""
  {
    PlainUnmark("p value");
    SingleSpaceKept("p value");
    SingleSpaceBanned("p value");
    LaymanSteps("p value", "p value", "p value", "p value", "p value", "", "");
  }

  /** Line 72 looks for `p value` before line 75 collapses whitespace, so a
      double space protects the phrase on the first pass, and the second pass
      removes what the first produced: the layman cleaning is not idempotent. */
  lemma LaymanNotIdempotent()
    ensures PostClean(PostClean("p  value", Layman), Layman) != PostClean("p  value", Layman)
  {
    DoubleSpacePass();
    SingleSpacePass();
  }

  // ---------------------------------------------------------------------
  // A marker assembled after the markers were blanked

  lemma MarkerUnmark(s: string)
    requires s == "<(x)n>"
    ensures Unmark(s) == s
  {
    StripOfTrimmed(s);
    forall i | 0 <= i < |s|
      ensures !HasPrefix(s[i..], "<n>") && !HasPrefix(s[i..], "</n>")
    {
      assert s[i..][0] == s[i];
      assert i == 0 ==> s[i..][1] == '(';
    }
    ReplaceFree(s, "<n>", " ");
    ReplaceFree(s, "</n>", " ");
  }

  /** Without an opening parenthesis, the pattern of line 53 finds nothing. */
  lemma NoParenthesis(pw: bool, t: string)
    requires '(' !in t
    ensures Sub(ParenLen, Erase, pw, t) == t
  {
    ParenClass();
    NoMatchOutsideClass(ParenLen, IsOpenParen, pw, t);
    SubIdentity(ParenLen, Erase, pw, t);
  }

  /** Without an opening square bracket, the pattern of line 54 finds nothing. */
  lemma NoSquareBracket(t: string)
    requires '[' !in t
    ensures SubAll(BracketLen, Erase, t) == t
  {
    BracketClass();
    NoMatchOutsideClass(BracketLen, IsOpenBracket, false, t);
    SubIdentity(BracketLen, Erase, false, t);
  }

  /** `(x)` is erased from `(x)n>`. */
  lemma ParenthesisErased(a: string)
    requires a == "(x)n>"
    ensures Sub(ParenLen, Erase, false, a) == "n>"
  {
    assert a[1..] == "x)n>";
    assert UpTo(')', a[1..]) == 1;
    assert ParenLen(false, a) == 3;
    assert a[3..] == "n>";
    NoParenthesis(false, "n>");
  }

  /** Line 53 erases `(x)` and joins `<` to `n>`. */
  lemma ParenthesisJoins(s: string)
    requires s == "<(x)n>"
    ensures RemoveBrackets(s) == "<n>"
  {
    assert s[1..] == "(x)n>";
    ParenthesisErased(s[1..]);
    assert !Matches(ParenLen, false, s);
    assert SubAll(ParenLen, Erase, s) == "<n>";
    NoSquareBracket("<n>");
  }

  /** The only word of `<n>` starts at 1. */
  lemma MarkerWordStarts(s: string)
    requires s == "<n>"
    ensures forall i :: 0 <= i < |s| && WordStart(false, s, i) ==> i == 1
  {
    forall i | 0 <= i < |s|
      ensures WordStart(false, s, i) ==> i == 1
    {
      if i == 2 {
        assert s[i] == '>';
      } else if i == 0 {
        assert s[i] == '<';
      }
    }
  }

  /** No unit or banned phrase starts with `n>`. */
  lemma MarkerTailMisses(v: string)
    requires v == "n>"
    ensures !Matches(UnitLen, false, v) && !Matches(JargonLen, false, v)
  {
    FirstAltNone(Units, false, v);
    FirstAltNone(Banned, false, v);
  }

  lemma MarkerWordMisses(s: string)
    requires s == "<n>"
    ensures NoMatchFrom(UnitLen, false, s) && NoMatchFrom(JargonLen, false, s)
  {
    MarkerWordStarts(s);
    assert s[1..] == "n>";
    MarkerTailMisses(s[1..]);
    UnitsJargonWordSafe();
    NoMatchAtWordStarts(UnitLen, false, s);
    NoMatchAtWordStarts(JargonLen, false, s);
  }

  lemma MarkerLeftAlone(s: string)
    requires s == "<n>"
    ensures RemoveAcronyms(s) == s && RemovePlainNumbers(s) == s && RemoveQuantities(s) == s
    ensures RemoveJargon(s) == s
  {
    NoBracketsNoCapitals(s);
    MarkerWordMisses(s);
    NoNumbersNoUnits(s);
    SubIdentity(JargonLen, Erase, false, s);
  }

  lemma MarkerTidy(s: string)
    requires s == "<n>"
    ensures TidySpacing(s) == s && Strip(s) == s
  {
    CollapseIdentity(false, s);
    TidyIsCollapse(s);
    StripOfTrimmed(s);
  }

  /** Lines 48-49 blank the markers before line 53 erases parentheses, so a
      layman summary can still contain `<n>`. */
  lemma LaymanCanKeepMarker()
    ensures PostClean("<(x)n>", Layman) == "<n>"
  {
    MarkerUnmark("<(x)n>");
    ParenthesisJoins("<(x)n>");
    MarkerLeftAlone("<n>");
    MarkerTidy("<n>");
    LaymanSteps("<(x)n>", "<n>", "<n>", "<n>", "<n>", "<n>", "<n>");
  }
}
