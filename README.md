# Abstract summarizer: input cleaning, output safety net and the summarizing run

This project models the core of `app/services/summarizer.py`. The service
receives the raw abstract of a PubMed article and a reading mode
(`scientific`, `layman` or `children`) and produces a summary with a local
language model served by Ollama. The modelled parts are:

- `_clean_input`: what the abstract looks like once it reaches the prompt.
  Markers `<n>`/`</n>` and no-break spaces become spaces. Whitespace is
  collapsed and trimmed. The four section headers get `": "` appended.
- `_post_clean_output`: the safety net applied to every answer.
  - In every mode it trims the answer and blanks the markers.
  - In the layman and children modes it then runs a chain of `re.sub`
    calls. These erase bracketed spans, acronyms, numbers, percentages,
    units, ratios and trial-design jargon, and tidy spaces and
    punctuation.
- `summarize_text`: refuses a short abstract and normalises the mode name.
  It asks the model once with the mode's prompt and parameters, then
  cleans the answer. In the layman and children modes it asks once more
  when the cleaned answer is too short.
- `_ollama_chat`: the call to the model. It is a `ChatServer` object whose
  answers come from an oracle and which logs every request it receives.

Each `re.sub` is modelled by one generic scanner, `Regex.Sub`. The scanner
is given a matcher that reports, at each position, the length of the match
found there. `\b` is decided from the character before the position. The
patterns of lines 53-77 are written as such matchers, in the order Python's
`re` engine tries their alternatives and optional groups.

The modules are:

- `CharClass` (`chars.dfy`): character classes.
- `Text` (`text.dfy`): `strip`, `replace` and occurrence predicates.
- `Regex` (`regex.dfy`): the scanner and what any substitution of a given
  kind preserves.
- `InputCleaner` (`clean_input.dfy`).
- `OutputCleaner` (`post_clean.dfy`).
- `OutputCleanerCases` (`post_clean_cases.dfy`): concrete runs of the layman
  chain.
- `Summarizer` (`summarizer.dfy`).

## Model

| member | source | states |
|---|---|---|
| CharClass.IsSpace | app/services/summarizer.py:31 | `\s` and `str.isspace()`, the whitespace that `strip()` removes and `\s+` matches: the ASCII controls 9-13 and 28-32, the no-break and Unicode spaces and the line and paragraph separators |
| CharClass.IsDigit | app/services/summarizer.py:60-63 | `\d`: the ASCII digits and the decimal digit blocks of the Arabic, Devanagari and full-width forms |
| CharClass.IsWord | app/services/summarizer.py:57-72 | `\w`, which decides every `\b` of lines 57-72: digits, alphanumerics and the underscore |
| CharClass.Fold | app/services/summarizer.py:62-72 | the case folding of `re.IGNORECASE`: an ASCII capital folds to its small letter and a small letter to itself, plus the non-ASCII case variants of the pattern letters |
| Text.Strip | app/services/summarizer.py:31 | `str.strip()`: the result is the slice of the text between its leading and trailing whitespace, and neither of its ends is whitespace |
| Text.StripKeepsNonSpace | app/services/summarizer.py:46 | stripping removes only whitespace: the text with its whitespace removed is the same before and after |
| Text.Replace | app/services/summarizer.py:29-37 | `str.replace`, scanning left to right and replacing non-overlapping occurrences; `ReplaceRemoves` and `ReplaceKeepsFree` state what it removes and what it cannot create |
| Text.StripIdempotent | app/services/summarizer.py:79 | stripping an already stripped text changes nothing; so in scientific mode, for an answer without `<`, the `strip()` of line 79 repeats that of line 46 to no effect (`ScientificOnlyTrims`) |
| Text.ReplaceRemoves | app/services/summarizer.py:29-30 | after `s.replace(p, r)` no occurrence of `p` is left, when `p` cannot overlap itself and `r` cannot begin a new occurrence |
| Text.ReplaceKeepsFree | app/services/summarizer.py:29-37 | `replace` creates no occurrence of an absent `q` when the replacement cannot supply its first character and neither the pattern nor the replacement can begin inside it |
| Regex.Sub | app/services/summarizer.py:53-77 | `re.sub` as a left-to-right scan that resumes after each match; `SubLength`, `SubChars`, `SubKeepsNoOpenBeforeClose` and `SubKeepsSolidEnd` state what every substitution of a given kind keeps |
| Regex.SubAll | app/services/summarizer.py:53-77 | the scan started at the start of the text, where `\b` sees no word character before; the stage lemmas of `OutputCleaner` state what each call achieves |
| Regex.Boundary | app/services/summarizer.py:57-72 | `\b` at a position: exactly one of the characters on either side is a word character, the outside of the text counting as non-word |
| Regex.SubLength | app/services/summarizer.py:53-77 | a substitution whose replacement is at most one character of the match or a space never lengthens the text |
| Regex.SubChars | app/services/summarizer.py:53-77 | such a substitution introduces no character other than a space |
| Regex.Collapse | app/services/summarizer.py:31 | `re.sub(r"\s+", " ", t)` is no longer than `t` and single-spaced; `CollapseSqueezes` states that it is the reference `Squeeze`, so each maximal whitespace run becomes one space and every other character is kept in order |
| Regex.CollapseSqueezes | app/services/summarizer.py:31 | collapsing equals `Squeeze`, a character-by-character reference in which every maximal whitespace run becomes one plain space, and keeps every character other than whitespace in order |
| Regex.CollapseIsSqueeze | app/services/summarizer.py:31 | the scan of `\s+` replaced by a space gives exactly the reference `Squeeze`, whatever precedes the text |
| Regex.SqueezeKeepsNonSpace | app/services/summarizer.py:31 | squeezing whitespace changes only whitespace: the text with its whitespace removed is the same before and after |
| Regex.CollapseKeepsFree | app/services/summarizer.py:31 | collapsing whitespace creates no occurrence of a whitespace-free string that was absent |
| Regex.SubKeepsNoOpenBeforeClose | app/services/summarizer.py:57-77 | a substitution that only deletes or shrinks runs keeps the property that no opening bracket precedes a closing one |
| Regex.SubRemovesEnclosed | app/services/summarizer.py:53-54 | erasing `o[^c]*c` leaves no `o` before a `c` |
| Regex.SubKeepsSolidEnd | app/services/summarizer.py:75-79 | a substitution whose replacements never end in whitespace turns a text that does not end in whitespace into one that does not either |
| InputCleaner.CleanInput | app/services/summarizer.py:22-38 | an empty abstract cleans to the empty string; `CleanInputShape`, `BlankCleansToEmpty` and `CleanInputNotShorter` state the shape and length of every other result |
| InputCleaner.AddHeaderColons | app/services/summarizer.py:34-37 | the four header replacements in source order; `HeadersFollowedByColon` and `HeaderColonsKeep` state what they establish and what they keep |
| InputCleaner.Unmark | app/services/summarizer.py:29-30 | after the replacements no `<n>`, `</n>` or no-break space is left, and every character comes from the text or is a space |
| InputCleaner.Normalize | app/services/summarizer.py:31 | the collapsed and stripped text is no longer than before, single-spaced, and does not start or end with whitespace; `NormalizeKeepsNonSpace` states that every other character is kept in order |
| InputCleaner.NormalizeKeepsNonSpace | app/services/summarizer.py:31 | collapsing and stripping change only whitespace: the text with its whitespace removed is the same before and after |
| InputCleaner.CleanInputShape | app/services/summarizer.py:22-38 | the cleaned abstract has no marker, only plain spaces and no leading whitespace; every occurrence of each of the four headers is followed by `": "` |
| InputCleaner.HeadersFollowedByColon | app/services/summarizer.py:34-37 | after the four replacements each header occurrence is followed by `": "`; a later replacement keeps what an earlier one established |
| InputCleaner.ConclusionsStep | app/services/summarizer.py:37 | the last replacement adds the colon after `Conclusions` and keeps it after the three earlier headers |
| InputCleaner.HeaderColonsKeep | app/services/summarizer.py:34-37 | the header step creates no marker and no whitespace other than plain spaces, and does not start the text with whitespace |
| InputCleaner.BlankCleansToEmpty | app/services/summarizer.py:24-31 | an abstract made only of whitespace cleans to the empty string |
| InputCleaner.CleanInputNotShorter | app/services/summarizer.py:34-38 | the header step never shortens the text, so the cleaned abstract is at least as long as the normalised one |
| InputCleaner.HeaderCountsTowardLength | app/services/summarizer.py:34 | an `Objectives` header adds two characters to the cleaned length |
| InputCleaner.HeaderWithColonDoubled | app/services/summarizer.py:34 | `Objectives: aims` cleans to `Objectives: : aims`: a header that already has a colon gets a second one |
| OutputCleaner.Unmark | app/services/summarizer.py:46-49 | trimming, then blanking the markers; `ScientificNoMarkers`, `ScientificOnlyTrims` and `UnmarkShorter` state that no marker is left, that a text without `<` is only trimmed, and that the text never grows |
| OutputCleaner.Enforce | app/services/summarizer.py:53-77 | the chain of substitutions of the layman and children modes in source order; `EnforceRemovesWords`, `EnforceRemovesBrackets` and `EnforceShorter` state what it removes and that it never lengthens the text |
| OutputCleaner.RemoveBrackets | app/services/summarizer.py:53-54 | the two bracket substitutions; `BracketsStage` states that no `(` precedes a `)` and no `[` precedes a `]` afterwards |
| OutputCleaner.RemoveAcronyms | app/services/summarizer.py:57 | the acronym substitution; `AcronymsCaught` and `EnforceRemovesWords` state that no acronym is left |
| OutputCleaner.RemovePlainNumbers | app/services/summarizer.py:60 | the number substitution; `NumbersCaught` and `NumbersStage` state that no word made only of digits is left |
| OutputCleaner.RemoveQuantities | app/services/summarizer.py:61-63 | the percentage, unit and ratio substitutions; `QuantitiesAfterNumbers` states that after line 60 only the units are removed |
| OutputCleaner.RemoveJargon | app/services/summarizer.py:66-72 | the jargon substitution; `JargonStage` states that no single-word banned term is left |
| OutputCleaner.TidySpacing | app/services/summarizer.py:75-77 | the tidy-up; `TidyShape`, `TidyTrimmed` and `TidyKeepsNoBad` state that it is tidy, already trimmed, and joins or splits no word, and `SpacingKeepsNonSpace` that lines 75-76 change only whitespace |
| OutputCleaner.ParenLen | app/services/summarizer.py:53 | `\([^)]*\)` matches from a `(` to the first `)`; `ErasesBracketed` and `Regex.SubRemovesEnclosed` state that erasing it leaves no `(` before a `)` |
| OutputCleaner.BracketLen | app/services/summarizer.py:54 | `\[[^\]]*\]` matches from a `[` to the first `]`; `ErasesBracketed` and `Regex.SubRemovesEnclosed` state that erasing it leaves no `[` before a `]` |
| OutputCleaner.AcronymLen | app/services/summarizer.py:57 | `\b[A-Z]{2,}\b`; `AcronymsCaught` states that it matches at every word of two or more ASCII capitals |
| OutputCleaner.NumberLen | app/services/summarizer.py:60 | `\b\d+(\.\d+)?\b`; `NumbersCaught` states that it matches at every word made only of digits, and `DigitsBeforeSign` that it takes digits ended by a sign |
| OutputCleaner.PercentLen | app/services/summarizer.py:61 | `\b\d+(\.\d+)?%\b`; `PercentOnlyAtNumbers` states that it can match only where a word of digits starts |
| OutputCleaner.UnitLen | app/services/summarizer.py:62 | the unit alternation, ignoring case, between `\b`s; `UnitsJargonCaught` states that it matches at every unit word |
| OutputCleaner.RatioLen | app/services/summarizer.py:63 | `\b\d+(\.\d+)?\s*/\s*\d+(\.\d+)?\b`; `RatioOnlyAtNumbers` states that it can match only where a word of digits starts |
| OutputCleaner.JargonLen | app/services/summarizer.py:66-72 | the alternation of the fifteen banned terms, ignoring case, tried in list order; `UnitsJargonCaught` states that it matches at every single-word banned term |
| OutputCleaner.SpacePunctLen | app/services/summarizer.py:76 | `\s+([,.;:!?])`; `SpacePunctShape` states what replacing it by the mark achieves |
| OutputCleaner.DotsLen | app/services/summarizer.py:77 | `\.{2,}`; `DotsShape` states what replacing it by one point achieves |
| OutputCleaner.PostClean | app/services/summarizer.py:41-79 | an empty answer is returned unchanged |
| OutputCleaner.ErasesBracketed | app/services/summarizer.py:53-54 | the parenthesis and bracket patterns match at every `(` or `[` that a `)` or `]` follows later, so erasing them removes every enclosed span |
| OutputCleaner.AcronymsCaught | app/services/summarizer.py:57 | the acronym pattern matches at every word made of two or more ASCII capitals |
| OutputCleaner.NumbersCaught | app/services/summarizer.py:60 | the number pattern matches at every word made only of digits |
| OutputCleaner.UnitsJargonCaught | app/services/summarizer.py:62-72 | the unit and jargon patterns match, ignoring case, at every unit word and every single-word banned term |
| OutputCleaner.PercentOnlyAtNumbers | app/services/summarizer.py:61 | the percentage pattern can match only where a word made only of digits starts |
| OutputCleaner.RatioOnlyAtNumbers | app/services/summarizer.py:63 | the ratio pattern can match only where a word made only of digits starts |
| OutputCleaner.QuantitiesAfterNumbers | app/services/summarizer.py:60-63 | once line 60 has run, lines 61 and 63 find nothing and only the units are removed |
| OutputCleaner.NumbersStage | app/services/summarizer.py:60-63 | after lines 60-63 no word made only of digits and no unit word is left, and any kind of word absent before is still absent: no word is formed by joining |
| OutputCleaner.JargonStage | app/services/summarizer.py:66-79 | after line 72 and the tidy-up no single-word banned term is left, and any kind of word absent before is still absent |
| OutputCleaner.TidyShape | app/services/summarizer.py:75-79 | the tidied text is single-spaced, has no whitespace before `, . ; : ! ?` and no two consecutive points |
| OutputCleaner.SpacePunctKeepsNonSpace | app/services/summarizer.py:76 | removing whitespace before a punctuation mark changes only whitespace: the text with its whitespace removed is the same before and after |
| OutputCleaner.SpacingKeepsNonSpace | app/services/summarizer.py:75-76 | collapsing, stripping and removing whitespace before marks keep every character other than whitespace, in order |
| OutputCleaner.SpacePunctShape | app/services/summarizer.py:76 | on single-spaced text the substitution keeps the text single-spaced, leaves no whitespace before a punctuation mark, and keeps a first character that is not whitespace |
| OutputCleaner.DotsShape | app/services/summarizer.py:77 | on text tidied by line 76 the substitution leaves tidy text with no two consecutive points, and keeps the first character |
| OutputCleaner.TidyTrimmed | app/services/summarizer.py:75-79 | the tidy-up already returns trimmed text, so the final `strip()` of line 79 removes nothing in the layman and children modes |
| OutputCleaner.TidyKeepsNoBad | app/services/summarizer.py:75-79 | any kind of word absent before the tidy-up is still absent after it: it joins no two words and splits none |
| OutputCleaner.EnforceRemovesWords | app/services/summarizer.py:53-79 | the layman chain leaves no acronym, no word made only of digits, no unit word and none of the six one-word banned terms (`randomized`, `placebo`, `endpoint`, `phase`, `prospective`, `simon`) |
| OutputCleaner.BracketsStage | app/services/summarizer.py:53-54 | after lines 53-54 no `(` precedes a `)` and no `[` precedes a `]` |
| OutputCleaner.EnforceRemovesBrackets | app/services/summarizer.py:53-79 | after the whole chain no `(` precedes a `)` and no `[` precedes a `]` |
| OutputCleaner.EnforceShorter | app/services/summarizer.py:53-79 | the layman chain never lengthens the text |
| OutputCleaner.PostCleanShorter | app/services/summarizer.py:41-79 | in every mode the cleaned answer is no longer than the answer |
| OutputCleaner.PostCleanEnforces | app/services/summarizer.py:51-79 | in the layman and children modes the result is trimmed and tidy, contains no acronym, no word made only of digits, no unit word and none of the six one-word banned terms, and has no opening bracket before a closing one |
| OutputCleaner.ScientificKeepsContent | app/services/summarizer.py:46-51 | in scientific mode every character other than whitespace and the marker characters is kept, as many times as it occurs |
| OutputCleaner.ScientificNoMarkers | app/services/summarizer.py:46-49 | in scientific mode no `<n>` or `</n>` is left |
| OutputCleaner.ScientificOnlyTrims | app/services/summarizer.py:46-51 | in scientific mode a text without `<` is only stripped |
| OutputCleanerCases.PercentSignSurvives | app/services/summarizer.py:60-61 | digits followed by `%` (such as `62%`) clean to `%` in layman mode: line 60 takes the digits, and line 61's `%\b` needs a word character after the sign |
| OutputCleanerCases.RatioSlashSurvives | app/services/summarizer.py:60-63 | two numbers around a slash (such as `28/43`) clean to `/` in layman mode: line 60 takes both numbers before line 63, written for ratios, can see them |
| OutputCleanerCases.DigitsBeforeSign | app/services/summarizer.py:60 | line 60 erases a run of digits followed by a sign other than a point, and keeps the sign |
| OutputCleanerCases.DoubleSpacePass | app/services/summarizer.py:70-75 | `p  value` cleans to `p value`: line 72 runs before line 75 collapses the double space |
| OutputCleanerCases.SingleSpacePass | app/services/summarizer.py:66-79 | `p value` cleans to the empty string |
| OutputCleanerCases.LaymanNotIdempotent | app/services/summarizer.py:41-79 | cleaning the result of a layman clean again can change it |
| OutputCleanerCases.LaymanCanKeepMarker | app/services/summarizer.py:48-53 | `<(x)n>` cleans to `<n>`: erasing the parenthesis after the markers were blanked assembles a marker |
| Summarizer.ModeNamed | app/services/summarizer.py:116-117 | a lowered and trimmed name selects layman or children when it is that name, and scientific otherwise; `ModeNameNormalized` and the name lemmas state the outcome |
| Summarizer.ModeOf | app/services/summarizer.py:115-117 | the mode a name selects; `ModeNameNormalized` states that lowering and trimming the name first changes nothing, and the name lemmas below state the outcome for each kind of name |
| Summarizer.ModeNameNormalized | app/services/summarizer.py:115-117 | a name already lowered and trimmed selects the same mode as the name it came from |
| Summarizer.Lower | app/services/summarizer.py:115 | `lower()` keeps the length and lowers every ASCII capital |
| Summarizer.DefaultModeName | app/services/summarizer.py:115 | a missing mode and `scientific` both select the scientific mode |
| Summarizer.CapitalModeName | app/services/summarizer.py:115 | `LAYMAN` selects the layman mode |
| Summarizer.SpacedModeName | app/services/summarizer.py:115 | ` children ` selects the children mode |
| Summarizer.UnknownModeName | app/services/summarizer.py:116-117 | an unknown name such as `kids` selects the scientific mode |
| Summarizer.UnknownModeIsScientific | app/services/summarizer.py:115-117 | a run under any name that selects the scientific mode, or under a missing name, is the run under `scientific` |
| Summarizer.ClosingText | app/services/summarizer.py:128-176 | the closing line of each of the five user prompts, character for character; `RetryAsksDifferently` states that the retries close differently from the first calls |
| Summarizer.PromptText | app/services/summarizer.py:128-176 | the f-strings of the user prompts: `Abstract:`, a newline, the cleaned abstract, a blank line and the closing line; `PromptsQuoteAbstract` states that every prompt sent starts this way |
| Summarizer.FirstRequest | app/services/summarizer.py:119-170 | the system prompt, user prompt, token limit and temperature of each mode's first call; `PromptsQuoteAbstract` states the shape of the prompts and `ScientificRun` the scientific parameters |
| Summarizer.RetryRequest | app/services/summarizer.py:149-178 | the retry of the layman and children modes; `RetryAsksDifferently` states that it differs from the first call in closing line, token limit and temperature |
| Summarizer.MinLength | app/services/summarizer.py:149-173 | the length below which a cleaned answer is retried: 30 in layman mode and 20 in children mode, as `RetryWhenTooShort` states |
| Summarizer.Reply | app/services/summarizer.py:100 | a call's outcome: nothing when it raises, otherwise the content trimmed; `ChatServer.Chat` returns exactly this |
| Summarizer.Judge | app/services/summarizer.py:146-181 | the first answer is cleaned and returned unless it is too short outside scientific mode; `RetryWhenTooShort` states when the retry happens |
| Summarizer.Retry | app/services/summarizer.py:149-181 | the second call and the cleaning of its answer; `OutcomeFromLastCall` states that the run's outcome is that of this last call |
| Summarizer.Run | app/services/summarizer.py:111-113 | no call is made exactly when the cleaned abstract is shorter than 30 characters, and then the result is `No abstract available.`; otherwise at most two calls are made |
| Summarizer.HeaderHelpsPassGuard | app/services/summarizer.py:111-112 | the length checked is that of the cleaned abstract with its header colons, so an abstract 28 characters long passes when it names its objectives |
| Summarizer.Ask | app/services/summarizer.py:119-181 | the first call carries the mode's first request; a second call happens only outside scientific mode and carries the mode's retry request |
| Summarizer.ScientificRun | app/services/summarizer.py:119-130 | scientific mode makes one call: researcher prompt, 220 tokens, temperature 0.2; it raises when the call raises and otherwise returns the trimmed answer, cleaned |
| Summarizer.RetryWhenTooShort | app/services/summarizer.py:146-149 | a second call is made if and only if the mode is layman or children, the first call answered, and the cleaned answer is shorter than 30 (layman) or 20 (children) characters |
| Summarizer.OutcomeFromLastCall | app/services/summarizer.py:129-181 | every call but the last answered; the run raises exactly when the last call raised, and otherwise returns the last answer trimmed and cleaned in the run's mode |
| Summarizer.SummaryIsCleaned | app/services/summarizer.py:130-181 | any guarantee the cleaner gives of every cleaned answer holds of the summary returned |
| Summarizer.ScientificSummaryUnmarked | app/services/summarizer.py:129-130 | a scientific summary contains no `<n>` or `</n>` |
| Summarizer.PlainSummaryEnforced | app/services/summarizer.py:146-181 | a layman or children summary satisfies every rule `PostCleanEnforces` states |
| Summarizer.PromptsQuoteAbstract | app/services/summarizer.py:128-176 | every user prompt starts with `Abstract:`, the cleaned abstract and a blank line, and uses the mode's system prompt |
| Summarizer.RetryAsksDifferently | app/services/summarizer.py:149-178 | the retry uses a different closing line, more tokens and a lower temperature than the first call |
| Summarizer.ChatServer.Chat | app/services/summarizer.py:82-100 | one call is appended to the log and answered with the oracle's content for that call, trimmed |
| Summarizer.Summarize | app/services/summarizer.py:103-181 | the outcome and the requests added to the server's log are those of `Run` with `PostClean` as the cleaner |
| Summarizer.AskModel | app/services/summarizer.py:119-181 | the outcome and the logged requests are those of `Ask` |
| Summarizer.JudgeModel | app/services/summarizer.py:146-181 | the first answer is cleaned and kept, or the model is asked again, as `Judge` says |
| Summarizer.RetryModel | app/services/summarizer.py:149-179 | the second call and its cleaning, as `Retry` says |

## Left out

- The network call to Ollama is not modelled. The answer to each call comes from an oracle indexed by the request and by the call's position in the server's lifetime.
  - `None` stands for a call that raises. The exception propagates, so the run ends in `Raised`.
  - An answer without a `message` or `content` field is the oracle answering the empty string.
- The `OLLAMA_MODEL` and `OLLAMA_HOST` settings (lines 13 and 19) and the write to `os.environ` (line 87) are not modelled. They only choose where the call goes.
- Temperatures are written in hundredths (0.2 is 20). Floating point is not modelled.
- The wording of the three system prompts is an opaque choice of one of three values. The user prompts are built character for character.
- `\s`, `\w`, `\d` and `str.isspace` are exact for ASCII and Latin-1. Beyond that they are approximated by the main letter and digit blocks.
- `re.IGNORECASE` folds ASCII letters, plus the special equivalences that matter for the unit and jargon patterns: dotless and dotted `i`, the Kelvin sign, the long `s`, and the micro sign with Greek `mu`.
- Summarizer.Lower: `lower()` is modelled on ASCII capitals only. That is enough for the outcome of comparing the mode with the three names, but not for `lower()` in general.
- A missing mode (`None`) is modelled as the empty name. Both select `scientific`.
- Summarizer.Run: answers are cleaned by a `Cleaner` parameter so that the run's properties are proved for any cleaner. `Summarizer.Summarize` instantiates it with `OutputCleaner.PostClean`, the function that models `_post_clean_output`.
- OutputCleaner.EnforceRemovesWords: only the six one-word banned terms are claimed absent afterwards. The terms joined by a hyphen (`single-arm`, `double-blind`, `open-label`, `two-stage`, `p-value`) are not: the proof speaks of single words, and these terms span two words and a hyphen. The phrases made of two words (`p value`, `odds ratio`, ...) are not claimed absent either. A double space protects such a phrase from line 72, and line 75 then closes it up (`OutputCleanerCases.DoubleSpacePass`).
- OutputCleaner.PostCleanEnforces: like `EnforceRemovesWords`, it claims only the six one-word banned terms absent, not the hyphenated terms or the two-word phrases.
- OutputCleaner.PostCleanEnforces: the absence of `<n>` is not claimed for the layman and children modes. Erasing brackets can assemble a marker after the markers were blanked (`OutputCleanerCases.LaymanCanKeepMarker`).
- Scientific mode does not collapse whitespace or touch no-break spaces in the answer. `OutputCleaner.ScientificKeepsContent` states what it keeps.
- The rest of the repository is not part of this model: `app/main.py` (the web routes), `app/services/pubmed.py` (fetching abstracts), `app/models.py` and `app/static/app.js`.
