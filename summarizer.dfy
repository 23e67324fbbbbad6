/** `summarize_text` (app/services/summarizer.py:103-181): cleans the abstract,
    refuses a short one, picks the prompts and parameters of the requested
    mode, asks the language model once, post-cleans the answer and, in the
    layman and children modes, asks once more when the cleaned answer is too
    short. The language model is an oracle held by a `ChatServer` that keeps
    the log of the requests it received. */
module Summarizer {
  import opened CharClass
  import opened Text
  import opened Regex
  import InputCleaner
  import opened OutputCleaner

  datatype Option<T> = None | Some(value: T)

  /** The three system prompts, one per mode; their wording is not modelled. */
  datatype Instructions = ResearcherRules | PublicRules | ChildRules

  /** The closing line of a user prompt. */
  datatype Closing = WriteSummary | WriteLayman | WriteChildren | RewriteLayman | RetryChildren

  /** A user prompt: the cleaned abstract followed by a closing line. */
  datatype UserPrompt = UserPrompt(text: string, closing: Closing)

  /** One call of `_ollama_chat(system, user, max_tokens, temperature)`, the
      temperature in hundredths. */
  datatype Request = Request(system: Instructions, user: UserPrompt, maxTokens: nat, temperature: nat)

  /** What `summarize_text` ends with: a returned summary, or the exception
      the model call raised. */
  datatype Outcome = Summary(text: string) | Raised

  /** The requests made and the outcome of one run. */
  datatype Trace = Trace(outcome: Outcome, requests: seq<Request>)

  /** The model's answer to the `k`-th call (counted over the server's
      lifetime) that carries `req`: the message content, or `None` when the
      call raises. */
  type Oracle = (Request, nat) -> Option<string>

  const NoAbstract: string := "No abstract available."

  /** Shortest cleaned abstract that is summarized. */
  const MinAbstract: nat := 30

  // ---------------------------------------------------------------------
  // The mode

  function LowerChar(c: char): char {
    if IsAsciiUpper(c) then (c as int + 32) as char else c
  }

  /** `s.lower()` on the characters that can matter when the result is compared
      with `scientific`, `layman` or `children`. */
  function Lower(s: string): (r: string)
    ensures |r| == |s|
    ensures forall i :: 0 <= i < |s| ==> r[i] == LowerChar(s[i])
  {
    if s == [] then [] else [LowerChar(s[0])] + Lower(s[1..])
  }

  /** Lines 116-117: a lowered and trimmed name other than `layman` and
      `children` means `scientific`. */
  function ModeNamed(m: string): Mode {
    if m == "layman" then Layman
    else if m == "children" then Children
    else Scientific
  }

  /** Lines 115-117: an empty mode means `scientific`; the mode is lowered and
      trimmed before it is compared. */
  function ModeOf(name: string): Mode {
    ModeNamed(Strip(Lower(if name == [] then "scientific" else name)))
  }

  // ---------------------------------------------------------------------
  // Prompts and parameters

  function ClosingText(c: Closing): string {
    match c
    case WriteSummary => "Write the summary now."
    case WriteLayman => "Write the layman summary now."
    case WriteChildren => "Write the children summary now."
    case RewriteLayman => "Rewrite again in very simple everyday language. No acronyms. No numbers. 3 to 5 sentences."
    case RetryChildren => "Try again: 3 short sentences. Very simple words. No acronyms. No numbers."
  }

  /** The text of a user prompt, as the f-strings build it. */
  function PromptText(p: UserPrompt): string {
    "Abstract:\n" + p.text + "\n\n" + ClosingText(p.closing)
  }

  /** Lines 127-129, 144-145 and 169-170: the first request of each mode. */
  function FirstRequest(mode: Mode, raw: string): Request {
    match mode
    case Scientific => Request(ResearcherRules, UserPrompt(raw, WriteSummary), 220, 20)
    case Layman => Request(PublicRules, UserPrompt(raw, WriteLayman), 180, 30)
    case Children => Request(ChildRules, UserPrompt(raw, WriteChildren), 140, 40)
  }

  /** Lines 149-154 and 173-178: the retry of the layman and children modes. */
  function RetryRequest(mode: Mode, raw: string): Request {
    if mode == Children then Request(ChildRules, UserPrompt(raw, RetryChildren), 160, 35)
    else Request(PublicRules, UserPrompt(raw, RewriteLayman), 200, 25)
  }

  /** Lines 149 and 173: below this length the cleaned answer is retried. */
  function MinLength(mode: Mode): nat {
    if mode == Children then 20 else 30
  }

  /** Line 100: the content of the answer, trimmed. */
  function Reply(answer: Oracle, req: Request, k: nat): Option<string> {
    match answer(req, k)
    case None => None
    case Some(content) => Some(Strip(content))
  }

  // ---------------------------------------------------------------------
  // The run, as a function of the model's answers

  /** The cleaning applied to every answer: `PostClean` in the service. It is
      a parameter of the functions below so that their properties that do
      not depend on it are proved once for any cleaner. */
  type Cleaner = (string, Mode) -> string

  /** What `summarize_text(text, name)` returns and asks, when the server has
      already answered `k` calls and answers are cleaned by `clean`. */
  function Run(text: string, name: string, answer: Oracle, clean: Cleaner, k: nat): (r: Trace)
    ensures |r.requests| <= 2
    ensures r.requests == [] <==> |InputCleaner.CleanInput(text)| < MinAbstract
    ensures r.requests == [] ==> r.outcome == Summary(NoAbstract)
  {
    var raw := InputCleaner.CleanInput(text);
    if |raw| < MinAbstract then Trace(Summary(NoAbstract), [])
    else Ask(ModeOf(name), raw, answer, clean, k)
  }

  /** From the first call on, for a long enough cleaned abstract `raw`. */
  function Ask(mode: Mode, raw: string, answer: Oracle, clean: Cleaner, k: nat): (r: Trace)
    ensures 1 <= |r.requests| <= 2
    ensures r.requests[0] == FirstRequest(mode, raw)
    ensures |r.requests| == 2 ==> mode != Scientific && r.requests[1] == RetryRequest(mode, raw)
  {
    var first := FirstRequest(mode, raw);
    match Reply(answer, first, k)
    case None => Trace(Raised, [first])
    case Some(out) =>
      var rest := Judge(mode, raw, out, answer, clean, k + 1);
      Trace(rest.outcome, [first] + rest.requests)
  }

  /** Lines 146-157 and 171-181: the first answer `out` is cleaned and
      returned, unless a layman or children answer comes out too short and
      the model is asked again. */
  function Judge(mode: Mode, raw: string, out: string, answer: Oracle, clean: Cleaner, k: nat): Trace {
    var cleaned := clean(out, mode);
    if mode == Scientific || |cleaned| >= MinLength(mode) then Trace(Summary(cleaned), [])
    else Retry(mode, raw, answer, clean, k)
  }

  /** The second call of the layman and children modes. */
  function Retry(mode: Mode, raw: string, answer: Oracle, clean: Cleaner, k: nat): Trace {
    var retry := RetryRequest(mode, raw);
    match Reply(answer, retry, k)
    case None => Trace(Raised, [retry])
    case Some(out) => Trace(Summary(clean(out, mode)), [retry])
  }

  // ---------------------------------------------------------------------
  // The model server

  /** The local model server: answers each call from the oracle and logs it. */
  class ChatServer {
    const answer: Oracle
    var log: seq<Request>

    constructor(answer: Oracle)
      ensures this.answer == answer && log == []
    {
      this.answer := answer;
      log := [];
    }

    /** `_ollama_chat`: one call, logged, answered with the trimmed content. */
    method Chat(req: Request) returns (reply: Option<string>)
      modifies this
      ensures log == old(log) + [req]
      ensures reply == Reply(answer, req, |old(log)|)
    {
      var content := answer(req, |log|);
      reply := if content.Some? then Some(Strip(content.value)) else None;
      log := log + [req];
    }
  }

  /** `summarize_text(text, name)` (lines 103-181): its outcome and the calls
      it makes are those of `Run`, with the answers cleaned by `PostClean`. */
  method Summarize(server: ChatServer, text: string, name: string) returns (outcome: Outcome)
    modifies server
    ensures outcome == Run(text, name, server.answer, PostClean, |old(server.log)|).outcome
    ensures server.log == old(server.log) + Run(text, name, server.answer, PostClean, |old(server.log)|).requests
  {
    var raw := InputCleaner.CleanInput(text);
    if |raw| < MinAbstract {
      return Summary(NoAbstract);
    }
    var mode := ModeOf(name);
    outcome := AskModel(server, mode, raw, PostClean);
  }

  /** Lines 119-181, once the mode is known and the abstract long enough. */
  method AskModel(server: ChatServer, mode: Mode, raw: string, clean: Cleaner) returns (outcome: Outcome)
    modifies server
    ensures outcome == Ask(mode, raw, server.answer, clean, |old(server.log)|).outcome
    ensures server.log == old(server.log) + Ask(mode, raw, server.answer, clean, |old(server.log)|).requests
  {
    var first := FirstRequest(mode, raw);
    var reply := server.Chat(first);
    if reply.None? {
      return Raised;
    }
    outcome := JudgeModel(server, mode, raw, reply.value, clean);
  }

  /** Lines 146-157 and 171-181: cleans the first answer, keeps it or asks again. */
  method JudgeModel(server: ChatServer, mode: Mode, raw: string, out: string, clean: Cleaner) returns (outcome: Outcome)
    modifies server
    ensures outcome == Judge(mode, raw, out, server.answer, clean, |old(server.log)|).outcome
    ensures server.log == old(server.log) + Judge(mode, raw, out, server.answer, clean, |old(server.log)|).requests
  {
    var cleaned := clean(out, mode);
    if mode == Scientific || |cleaned| >= MinLength(mode) {
      return Summary(cleaned);
    }
    outcome := RetryModel(server, mode, raw, clean);
  }

  /** Lines 149-155 and 173-179: the second call and its cleaning. */
  method RetryModel(server: ChatServer, mode: Mode, raw: string, clean: Cleaner) returns (outcome: Outcome)
    modifies server
    ensures outcome == Retry(mode, raw, server.answer, clean, |old(server.log)|).outcome
    ensures server.log == old(server.log) + Retry(mode, raw, server.answer, clean, |old(server.log)|).requests
  {
    var retry := RetryRequest(mode, raw);
    var reply := server.Chat(retry);
    if reply.None? {
      return Raised;
    }
    return Summary(clean(reply.value, mode));
  }

  /** `Ask` once the first reply is known. */
  lemma AskSteps(mode: Mode, raw: string, answer: Oracle, clean: Cleaner, k: nat)
    ensures var first := FirstRequest(mode, raw);
      match Reply(answer, first, k)
      case None => Ask(mode, raw, answer, clean, k) == Trace(Raised, [first])
      case Some(out) =>
        var rest := Judge(mode, raw, out, answer, clean, k + 1);
        Ask(mode, raw, answer, clean, k) == Trace(rest.outcome, [first] + rest.requests)
  {
  }

  // ---------------------------------------------------------------------
  // Properties of a run

  /** A name without capitals is its own lower-case form. */
  lemma LowerOfLower(s: string)
    requires forall i :: 0 <= i < |s| ==> !IsAsciiUpper(s[i])
    ensures Lower(s) == s
  {
  }

  /** A lowered and trimmed name has no ASCII capital left. */
  lemma NormalizedHasNoCapital(name: string)
    ensures forall i :: 0 <= i < |Strip(Lower(name))| ==> !IsAsciiUpper(Strip(Lower(name))[i])
  {
    var l := Lower(name);
    var k := Strip(l);
    forall i | 0 <= i < |k|
      ensures !IsAsciiUpper(k[i])
    {
      var j := LeadingSpaces(l) + i;
      assert k[i] == l[j] == LowerChar(name[j]);
    }
  }

  /** Lines 115-117 normalise the name before comparing it: a name already
      lowered and trimmed selects the same mode as the name it came from. */
  lemma ModeNameNormalized(name: string)
    ensures ModeOf(Strip(Lower(name))) == ModeOf(name)
  {
    var l := Lower(name);
    var k := Strip(l);
    if k != [] {
      NormalizedHasNoCapital(name);
      LowerOfLower(k);
      StripIdempotent(l);
      assert ModeOf(k) == ModeNamed(k);
    } else if name != [] {
      ScientificSpelled("scientific");
      assert ModeOf(k) == ModeNamed("scientific");
    }
  }

  /** `scientific` is already lowered and trimmed. */
  lemma ScientificSpelled(s: string)
    requires s == "scientific"
    ensures Strip(Lower(s)) == s
  {
    LowerOfLower(s);
    StripOfTrimmed(s);
  }

  /** Line 115: a missing mode means `scientific`. */
  lemma DefaultModeName()
    ensures ModeOf("") == Scientific && ModeOf("scientific") == Scientific
  {
    ScientificSpelled("scientific");
  }

  /** Line 115: the case of a mode name does not matter. */
  lemma CapitalModeName()
    ensures ModeOf("LAYMAN") == Layman
  {
    assert Lower("LAYMAN") == "layman";
    StripOfTrimmed("layman");
  }

  lemma SpacedChildrenTrimmed(s: string)
    requires s == " children "
    ensures Strip(s) == "children"
  {
    var t := s[1..];
    assert !IsSpace(t[0]);
    assert LeadingSpaces(s) == 1;
    var u := t[..|t| - 1];
    assert IsSpace(t[|t| - 1]) && !IsSpace(u[|u| - 1]);
    assert KeptLength(t) == KeptLength(u) == |u|;
  }

  /** Line 115: whitespace around a mode name does not matter. */
  lemma SpacedModeName()
    ensures ModeOf(" children ") == Children
  {
    LowerOfLower(" children ");
    SpacedChildrenTrimmed(" children ");
  }

  /** Lines 116-117: an unknown name falls back to `scientific`. */
  lemma UnknownModeName()
    ensures ModeOf("kids") == Scientific
  {
    LowerOfLower("kids");
    StripOfTrimmed("kids");
  }

  /** Lines 115-117: any name that is not `layman` or `children`, and a
      missing one, runs exactly as `scientific` does. */
  lemma UnknownModeIsScientific(text: string, name: string, answer: Oracle, clean: Cleaner, k: nat)
    requires ModeOf(name) == Scientific
    ensures Run(text, name, answer, clean, k) == Run(text, "scientific", answer, clean, k)
    ensures Run(text, "", answer, clean, k) == Run(text, "scientific", answer, clean, k)
  {
    DefaultModeName();
  }

  /** Lines 111-112: the length compared with 30 is that of the cleaned text,
      header colons included, so an abstract two characters short of the bar
      passes it when it names its objectives. */
  lemma HeaderHelpsPassGuard(text: string, name: string, answer: Oracle, clean: Cleaner, k: nat, i: nat)
    requires text != []
    requires |InputCleaner.Normalize(InputCleaner.Unmark(text))| + |InputCleaner.Colon| >= MinAbstract
    requires i < |InputCleaner.Normalize(InputCleaner.Unmark(text))|
    requires HasPrefix(InputCleaner.Normalize(InputCleaner.Unmark(text))[i..], InputCleaner.Objectives)
    ensures Run(text, name, answer, clean, k).requests != []
  {
    InputCleaner.HeaderCountsTowardLength(text, i);
  }

  /** Lines 119-130: the scientific mode makes exactly one call, with the
      researcher prompt, 220 tokens and temperature 0.2, and returns that
      call's answer trimmed and cleaned. */
  lemma ScientificRun(raw: string, answer: Oracle, clean: Cleaner, k: nat)
    ensures var t := Ask(Scientific, raw, answer, clean, k);
      t.requests == [Request(ResearcherRules, UserPrompt(raw, WriteSummary), 220, 20)] &&
      match answer(t.requests[0], k)
      case None => t.outcome == Raised
      case Some(content) => t.outcome == Summary(clean(Strip(content), Scientific))
  {
    AskSteps(Scientific, raw, answer, clean, k);
  }

  /** Lines 146-149 and 171-173: a second call is made exactly when the mode
      is layman or children, the first call answered, and its answer, cleaned,
      is shorter than 30 (layman) or 20 (children) characters. */
  lemma RetryWhenTooShort(mode: Mode, raw: string, answer: Oracle, clean: Cleaner, k: nat)
    ensures var first := FirstRequest(mode, raw);
      |Ask(mode, raw, answer, clean, k).requests| == 2 <==>
        mode != Scientific && Reply(answer, first, k).Some? &&
        |clean(Reply(answer, first, k).value, mode)| < MinLength(mode)
  {
    AskSteps(mode, raw, answer, clean, k);
  }

  /** Lines 129-130, 146-157 and 170-181: every call but the last answered;
      the run raises exactly when the last call raised, and otherwise returns
      the last answer, trimmed and cleaned in the run's mode. */
  lemma OutcomeFromLastCall(mode: Mode, raw: string, answer: Oracle, clean: Cleaner, k: nat)
    ensures var t := Ask(mode, raw, answer, clean, k);
      var n := |t.requests|;
      (forall i :: 0 <= i < n - 1 ==> Reply(answer, t.requests[i], k + i).Some?) &&
      (t.outcome == Raised <==> Reply(answer, t.requests[n - 1], k + n - 1) == None) &&
      (t.outcome.Summary? ==>
        Reply(answer, t.requests[n - 1], k + n - 1).Some? &&
        t.outcome.text == clean(Reply(answer, t.requests[n - 1], k + n - 1).value, mode))
  {
    AskSteps(mode, raw, answer, clean, k);
  }

  /** Whatever the cleaner guarantees of each cleaned answer, a summary
      written by the model has. */
  lemma SummaryIsCleaned(mode: Mode, raw: string, answer: Oracle, clean: Cleaner, k: nat, ok: string -> bool)
    requires forall x :: ok(clean(x, mode))
    ensures Ask(mode, raw, answer, clean, k).outcome.Summary? ==> ok(Ask(mode, raw, answer, clean, k).outcome.text)
  {
    AskSteps(mode, raw, answer, clean, k);
  }

  /** The rules `PostClean` enforces in the layman and children modes. */
  ghost predicate Enforced(s: string) {
    (s == [] || (!IsSpace(s[0]) && !IsSpace(s[|s| - 1]))) &&
    Tidy(s) &&
    NoBadWord(IsAcronym, s) && NoBadWord(AllDigits, s) &&
    NoBadWord(IsUnitWord, s) && NoBadWord(IsBannedWord, s) &&
    NoOpenBeforeClose('(', ')', s) && NoOpenBeforeClose('[', ']', s)
  }

  /** No `<n>` or `</n>` marker is left. */
  predicate Unmarked(s: string) {
    Free(s, "<n>") && Free(s, "</n>")
  }

  /** Lines 129-130: a scientific summary holds no `<n>` or `</n>` marker. */
  lemma ScientificSummaryUnmarked(raw: string, answer: Oracle, k: nat)
    ensures var t := Ask(Scientific, raw, answer, PostClean, k);
      t.outcome.Summary? ==> Unmarked(t.outcome.text)
  {
    forall x
      ensures Unmarked(PostClean(x, Scientific))
    {
      ScientificNoMarkers(x);
    }
    SummaryIsCleaned(Scientific, raw, answer, PostClean, k, Unmarked);
  }

  /** Lines 146-157 and 170-181: a layman or children summary keeps every
      rule the output cleaner enforces. */
  lemma PlainSummaryEnforced(mode: Mode, raw: string, answer: Oracle, k: nat)
    requires mode != Scientific
    ensures var t := Ask(mode, raw, answer, PostClean, k);
      t.outcome.Summary? ==> Enforced(t.outcome.text)
  {
    forall x
      ensures Enforced(PostClean(x, mode))
    {
      PostCleanEnforces(x, mode);
    }
    SummaryIsCleaned(mode, raw, answer, PostClean, k, Enforced);
  }

  /** Lines 128, 144, 150-152, 169 and 174-176: every prompt quotes the
      cleaned abstract after `Abstract:`, under the system prompt of the
      mode. */
  lemma PromptsQuoteAbstract(mode: Mode, raw: string, answer: Oracle, clean: Cleaner, k: nat)
    ensures var t := Ask(mode, raw, answer, clean, k);
      forall i :: 0 <= i < |t.requests| ==>
        HasPrefix(PromptText(t.requests[i].user), "Abstract:\n" + raw + "\n\n") &&
        t.requests[i].system == FirstRequest(mode, raw).system
  {
    var t := Ask(mode, raw, answer, clean, k);
    forall i | 0 <= i < |t.requests|
      ensures HasPrefix(PromptText(t.requests[i].user), "Abstract:\n" + raw + "\n\n")
      ensures t.requests[i].system == FirstRequest(mode, raw).system
    {
      var p := t.requests[i].user;
      var q := "Abstract:\n" + raw + "\n\n";
      assert p.text == raw;
      assert PromptText(p) == q + ClosingText(p.closing);
    }
  }

  /** Lines 149-154 and 173-178: the retry asks with a different closing line,
      for more tokens and at a lower temperature than the first call. */
  lemma RetryAsksDifferently(mode: Mode, raw: string, answer: Oracle, clean: Cleaner, k: nat)
    ensures var t := Ask(mode, raw, answer, clean, k);
      |t.requests| == 2 ==>
        t.requests[1].user.closing != t.requests[0].user.closing &&
        t.requests[1].maxTokens > t.requests[0].maxTokens &&
        t.requests[1].temperature < t.requests[0].temperature
  {
  }
}
