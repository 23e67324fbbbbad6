/** `_clean_input`: the cleaning applied to a raw abstract before it is put
    into the prompt. It turns the `<n>` and `</n>` markers and no-break spaces
    into spaces, collapses whitespace, strips the ends and appends ": " to
    every occurrence of the four section headers. */
module InputCleaner {
  import opened CharClass
  import opened Text
  import opened Regex

  const OpenMarker: string := "<n>"
  const CloseMarker: string := "</n>"
  const NoBreakSpace: char := '\U{00A0}'

  const Objectives: string := "Objectives"
  const Methods: string := "Methods"
  const Results: string := "Results"
  const Conclusions: string := "Conclusions"
  const Colon: string := ": "

  /** The header replacement `h.replace(h, h + ": ")`. */
  function Colonize(t: string, header: string): string
    requires header != []
  {
    Replace(t, header, header + Colon)
  }

  /** The markers and no-break spaces become plain spaces. */
  function Unmark(text: string): (t: string)
    ensures Free(t, OpenMarker) && Free(t, CloseMarker)
    ensures forall c :: c in t ==> c in text || c == ' '
    ensures NoBreakSpace !in t
  {
    var t1 := Replace(text, OpenMarker, " ");
    var t2 := Replace(t1, CloseMarker, " ");
    var t3 := Replace(t2, [NoBreakSpace], " ");
    ReplaceRemoves(text, OpenMarker, " ");
    ReplaceKeepsFree(t1, CloseMarker, " ", OpenMarker);
    ReplaceRemoves(t1, CloseMarker, " ");
    ReplaceKeepsFree(t2, [NoBreakSpace], " ", OpenMarker);
    ReplaceKeepsFree(t2, [NoBreakSpace], " ", CloseMarker);
    ReplaceRemoves(t2, [NoBreakSpace], " ");
    assert forall i :: 0 <= i < |t3| ==> t3[i] == t3[i..][0];
    ReplaceChars(text, OpenMarker, " ");
    ReplaceChars(t1, CloseMarker, " ");
    ReplaceChars(t2, [NoBreakSpace], " ");
    t3
  }

  /** `re.sub(r"\s+", " ", t).strip()`: single plain spaces between the
      words, none at the ends, and nothing longer than before. */
  function Normalize(t: string): (r: string)
    ensures |r| <= |t|
    ensures SingleSpaced(r)
    ensures r != [] ==> !IsSpace(r[0]) && !IsSpace(r[|r| - 1])
  {
    var c := Collapse(t);
    var r := Strip(c);
    SingleSpacedSlice(c, LeadingSpaces(c), LeadingSpaces(c) + |r|);
    r
  }

  /** Normalizing changes only whitespace: every other character of the text
      is kept, in order. */
  lemma NormalizeKeepsNonSpace(t: string)
    ensures NonSpace(Normalize(t)) == NonSpace(t)
  {
    CollapseSqueezes(t);
    StripKeepsNonSpace(Collapse(t));
    NormalizeIsStrippedCollapse(t);
  }

  /** Appends ": " to every occurrence of the four section headers. */
  function AddHeaderColons(t: string): string {
    var t1 := Colonize(t, Objectives);
    var t2 := Colonize(t1, Methods);
    var t3 := Colonize(t2, Results);
    Colonize(t3, Conclusions)
  }

  /** `_clean_input(text)`. */
  function CleanInput(text: string): (r: string)
    ensures text == [] ==> r == []
  {
    if text == [] then []
    else AddHeaderColons(Normalize(Unmark(text)))
  }

  // ---------------------------------------------------------------------
  // Properties

  predicate IsHeader(h: string) {
    h == Objectives || h == Methods || h == Results || h == Conclusions
  }

  /** After the header step every occurrence of each header is followed by
      ": ", including occurrences that were already followed by a colon. */
  lemma HeadersFollowedByColon(t: string)
    ensures AlwaysFollowed(AddHeaderColons(t), Objectives, Colon)
    ensures AlwaysFollowed(AddHeaderColons(t), Methods, Colon)
    ensures AlwaysFollowed(AddHeaderColons(t), Results, Colon)
    ensures AlwaysFollowed(AddHeaderColons(t), Conclusions, Colon)
  {
    var t1 := Colonize(t, Objectives);
    var t2 := Colonize(t1, Methods);
    var t3 := Colonize(t2, Results);
    ReplaceAppends(t, Objectives, Colon);
    MethodsStep(t1);
    ResultsStep(t2);
    ConclusionsStep(t3);
  }

  lemma MethodsStep(t: string)
    ensures AlwaysFollowed(t, Objectives, Colon) ==> AlwaysFollowed(Colonize(t, Methods), Objectives, Colon)
    ensures AlwaysFollowed(Colonize(t, Methods), Methods, Colon)
  {
    if AlwaysFollowed(t, Objectives, Colon) {
      ReplaceKeepsFollowed(t, Methods, Colon, Objectives, Colon);
    }
    ReplaceAppends(t, Methods, Colon);
  }

  lemma ResultsStep(t: string)
    ensures AlwaysFollowed(t, Objectives, Colon) ==> AlwaysFollowed(Colonize(t, Results), Objectives, Colon)
    ensures AlwaysFollowed(t, Methods, Colon) ==> AlwaysFollowed(Colonize(t, Results), Methods, Colon)
    ensures AlwaysFollowed(Colonize(t, Results), Results, Colon)
  {
    if AlwaysFollowed(t, Objectives, Colon) {
      ReplaceKeepsFollowed(t, Results, Colon, Objectives, Colon);
    }
    if AlwaysFollowed(t, Methods, Colon) {
      ReplaceKeepsFollowed(t, Results, Colon, Methods, Colon);
    }
    ReplaceAppends(t, Results, Colon);
  }

  lemma ConclusionsStep(t: string)
    ensures AlwaysFollowed(t, Objectives, Colon) ==> AlwaysFollowed(Colonize(t, Conclusions), Objectives, Colon)
    ensures AlwaysFollowed(t, Methods, Colon) ==> AlwaysFollowed(Colonize(t, Conclusions), Methods, Colon)
    ensures AlwaysFollowed(t, Results, Colon) ==> AlwaysFollowed(Colonize(t, Conclusions), Results, Colon)
    ensures AlwaysFollowed(Colonize(t, Conclusions), Conclusions, Colon)
  {
    if AlwaysFollowed(t, Objectives, Colon) {
      ReplaceKeepsFollowed(t, Conclusions, Colon, Objectives, Colon);
    }
    if AlwaysFollowed(t, Methods, Colon) {
      ReplaceKeepsFollowed(t, Conclusions, Colon, Methods, Colon);
    }
    if AlwaysFollowed(t, Results, Colon) {
      ReplaceKeepsFollowed(t, Conclusions, Colon, Results, Colon);
    }
    ReplaceAppends(t, Conclusions, Colon);
  }

  /** One header replacement creates no marker. */
  lemma ColonizeKeepsFree(t: string, h: string)
    requires IsHeader(h)
    ensures Free(t, OpenMarker) ==> Free(Colonize(t, h), OpenMarker)
    ensures Free(t, CloseMarker) ==> Free(Colonize(t, h), CloseMarker)
  {
    if Free(t, OpenMarker) {
      ReplaceKeepsFree(t, h, h + Colon, OpenMarker);
    }
    if Free(t, CloseMarker) {
      ReplaceKeepsFree(t, h, h + Colon, CloseMarker);
    }
  }

  /** One header replacement creates no whitespace other than plain spaces,
      and does not start the text with whitespace. */
  lemma ColonizeKeepsSpaces(t: string, h: string)
    requires IsHeader(h)
    ensures OnlyPlainSpaces(t) ==> OnlyPlainSpaces(Colonize(t, h))
    ensures t != [] && !IsSpace(t[0]) ==> Colonize(t, h) != [] && !IsSpace(Colonize(t, h)[0])
  {
    if OnlyPlainSpaces(t) {
      ReplaceKeepsPlainSpaces(t, h, h + Colon);
    }
    if t != [] && !IsSpace(t[0]) {
      ReplaceStart(t, h, h + Colon);
    }
  }

  /** One header replacement creates no marker, no whitespace other than plain
      spaces, and does not start the text with whitespace. */
  lemma ColonizeKeeps(t: string, h: string)
    requires IsHeader(h)
    ensures Free(t, OpenMarker) ==> Free(Colonize(t, h), OpenMarker)
    ensures Free(t, CloseMarker) ==> Free(Colonize(t, h), CloseMarker)
    ensures OnlyPlainSpaces(t) ==> OnlyPlainSpaces(Colonize(t, h))
    ensures t != [] && !IsSpace(t[0]) ==> Colonize(t, h) != [] && !IsSpace(Colonize(t, h)[0])
  {
    ColonizeKeepsFree(t, h);
    ColonizeKeepsSpaces(t, h);
  }

  /** The header step creates no marker, no whitespace other than plain
      spaces, and does not start the text with whitespace. */
  lemma HeaderColonsKeep(t: string)
    ensures Free(t, OpenMarker) ==> Free(AddHeaderColons(t), OpenMarker)
    ensures Free(t, CloseMarker) ==> Free(AddHeaderColons(t), CloseMarker)
    ensures OnlyPlainSpaces(t) ==> OnlyPlainSpaces(AddHeaderColons(t))
    ensures t != [] && !IsSpace(t[0]) ==> AddHeaderColons(t) != [] && !IsSpace(AddHeaderColons(t)[0])
  {
    var t1 := Colonize(t, Objectives);
    var t2 := Colonize(t1, Methods);
    var t3 := Colonize(t2, Results);
    ColonizeKeeps(t, Objectives);
    ColonizeKeeps(t1, Methods);
    ColonizeKeeps(t2, Results);
    ColonizeKeeps(t3, Conclusions);
  }

  /** Line 31 collapses whitespace runs, then trims. */
  lemma NormalizeIsStrippedCollapse(t: string)
    ensures Normalize(t) == Strip(Collapse(t))
  {
  }

  /** Normalizing whitespace creates no marker. */
  lemma NormalizeKeepsFree(t: string, q: string)
    requires q == OpenMarker || q == CloseMarker
    requires Free(t, q)
    ensures Free(Normalize(t), q)
  {
    CollapseKeepsFree(false, t, q);
    StripKeepsFree(Collapse(t), q);
    NormalizeIsStrippedCollapse(t);
  }

  /** The cleaned abstract holds no `<n>` or `</n>` marker, no whitespace other
      than plain spaces (no no-break space, tab or newline), and does not start
      with whitespace; each section header in it is followed by ": ". */
  lemma CleanInputShape(text: string)
    ensures Free(CleanInput(text), OpenMarker) && Free(CleanInput(text), CloseMarker)
    ensures OnlyPlainSpaces(CleanInput(text))
    ensures CleanInput(text) != [] ==> !IsSpace(CleanInput(text)[0])
    ensures AlwaysFollowed(CleanInput(text), Objectives, Colon)
    ensures AlwaysFollowed(CleanInput(text), Methods, Colon)
    ensures AlwaysFollowed(CleanInput(text), Results, Colon)
    ensures AlwaysFollowed(CleanInput(text), Conclusions, Colon)
  {
    if text != [] {
      var n := Normalize(Unmark(text));
      NormalizeShape(Unmark(text));
      HeaderColonsKeep(n);
      HeadersFollowedByColon(n);
      assert CleanInput(text) == AddHeaderColons(n);
    }
  }

  /** After lines 29-31 the text holds no marker and no whitespace other than
      single plain spaces between words. */
  lemma NormalizeShape(t: string)
    requires Free(t, OpenMarker) && Free(t, CloseMarker)
    ensures Free(Normalize(t), OpenMarker) && Free(Normalize(t), CloseMarker)
    ensures OnlyPlainSpaces(Normalize(t))
    ensures Normalize(t) != [] ==> !IsSpace(Normalize(t)[0])
  {
    NormalizeKeepsFree(t, OpenMarker);
    NormalizeKeepsFree(t, CloseMarker);
  }

  /** An abstract made only of whitespace cleans to nothing. */
  lemma BlankCleansToEmpty(text: string)
    requires forall i :: 0 <= i < |text| ==> IsSpace(text[i])
    ensures CleanInput(text) == []
  {
    if text != [] {
      var u := Unmark(text);
      assert forall i :: 0 <= i < |u| ==> IsSpace(u[i]) by {
        forall i | 0 <= i < |u|
          ensures IsSpace(u[i])
        {
          assert u[i] in u;
          if u[i] != ' ' {
            var j :| 0 <= j < |text| && text[j] == u[i];
          }
        }
      }
      var c := Collapse(u);
      CollapseAllSpaces(false, u);
      StripAllSpaces(c);
    }
  }

  /** Collapsing whitespace-only text leaves whitespace only. */
  lemma {:induction false} CollapseAllSpaces(pw: bool, s: string)
    requires forall i :: 0 <= i < |s| ==> IsSpace(s[i])
    ensures forall i :: 0 <= i < |Sub(SpaceRun, OneSpace, pw, s)| ==> IsSpace(Sub(SpaceRun, OneSpace, pw, s)[i])
  {
    if s != [] {
      RunOfUnique(IsSpace, s, |s|);
      assert s[|s|..] == [];
    }
  }

  /** Adding the header colons never shortens the text, so the length that
      `summarize_text` compares with 30 is at least that of the normalized
      abstract. */
  lemma CleanInputNotShorter(text: string)
    requires text != []
    ensures |CleanInput(text)| >= |Normalize(Unmark(text))|
  {
    var t0 := Normalize(Unmark(text));
    var t1 := Colonize(t0, Objectives);
    var t2 := Colonize(t1, Methods);
    var t3 := Colonize(t2, Results);
    ReplaceLonger(t0, Objectives, Objectives + Colon);
    ReplaceLonger(t1, Methods, Methods + Colon);
    ReplaceLonger(t2, Results, Results + Colon);
    ReplaceLonger(t3, Conclusions, Conclusions + Colon);
  }

  /** An `Objectives` header counts two more characters towards the 30 the
      abstract needs. */
  lemma HeaderCountsTowardLength(text: string, i: nat)
    requires text != []
    requires i < |Normalize(Unmark(text))| && HasPrefix(Normalize(Unmark(text))[i..], Objectives)
    ensures |CleanInput(text)| >= |Normalize(Unmark(text))| + |Colon|
  {
    var t0 := Normalize(Unmark(text));
    var t1 := Colonize(t0, Objectives);
    var t2 := Colonize(t1, Methods);
    var t3 := Colonize(t2, Results);
    ReplaceGrows(t0, Objectives, Objectives + Colon, i);
    ReplaceLonger(t1, Methods, Methods + Colon);
    ReplaceLonger(t2, Results, Results + Colon);
    ReplaceLonger(t3, Conclusions, Conclusions + Colon);
  }

  /** A header that already carries a colon gets a second one. */
  lemma HeaderWithColonDoubled()
    ensures CleanInput("Objectives: aims") == "Objectives: : aims"
  {
    var text := "Objectives: aims";
    var t1 := "Objectives: : aims";
    SampleUnchangedByUnmark(text);
    SampleUnchangedByNormalize(text);
    SampleColonized(text, t1);
    SampleHasNoOtherHeader(t1);
  }

  lemma SampleHasNoOtherHeader(t1: string)
    requires t1 == "Objectives: : aims"
    ensures Colonize(Colonize(Colonize(t1, Methods), Results), Conclusions) == t1
  {
    assert 'M' !in t1 && 'R' !in t1 && 'C' !in t1;
    ReplaceAbsent(t1, Methods, Methods + Colon);
    ReplaceAbsent(t1, Results, Results + Colon);
    ReplaceAbsent(t1, Conclusions, Conclusions + Colon);
  }

  lemma SampleUnchangedByUnmark(text: string)
    requires text == "Objectives: aims"
    ensures Unmark(text) == text
  {
    assert '<' !in text && NoBreakSpace !in text;
    ReplaceAbsent(text, OpenMarker, " ");
    ReplaceAbsent(text, CloseMarker, " ");
    ReplaceAbsent(text, [NoBreakSpace], " ");
  }

  lemma SampleUnchangedByNormalize(text: string)
    requires text == "Objectives: aims"
    ensures Normalize(text) == text
  {
    assert SingleSpaced(text);
    CollapseIdentity(false, text);
    StripOfTrimmed(text);
  }

  lemma SampleColonized(text: string, t1: string)
    requires text == "Objectives: aims" && t1 == "Objectives: : aims"
    ensures Colonize(text, Objectives) == t1
  {
    assert text[..|Objectives|] == Objectives;
    assert text[|Objectives|..] == ": aims";
    ReplaceAbsent(": aims", Objectives, Objectives + Colon);
  }
}
