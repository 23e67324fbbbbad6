/** Python's `re.sub(pattern, repl, text)` for patterns that never match the
    empty string, with the facts that hold of every substitution of a given
    kind: how long the result can be, which characters it can contain, which
    words of the text survive and in which order brackets can appear. */
module Regex {
  import opened CharClass
  import opened Text

  /** A compiled pattern, tried at one position of the text: given whether the
      character before that position is a word character (needed by `\b`) and
      the text from that position on, the length of the match that starts
      there, or 0 when the pattern does not match there. */
  type Matcher = (bool, string) -> nat

  /** The replacement, as a function of the matched text. */
  type Rewriter = string -> string

  predicate Matches(m: Matcher, prevIsWord: bool, s: string) {
    0 < m(prevIsWord, s) <= |s|
  }

  /** `re.sub`: scans the text left to right; where the pattern matches, the
      match is replaced and the scan resumes after it, elsewhere one character
      is copied. `prevIsWord` tells whether the character before `s` in the
      scanned text is a word character (false at the start of the text). */
  function Sub(m: Matcher, r: Rewriter, prevIsWord: bool, s: string): string
    decreases |s|
  {
    if s == [] then []
    else if Matches(m, prevIsWord, s) then
      var n := m(prevIsWord, s);
      r(s[..n]) + Sub(m, r, IsWord(s[n - 1]), s[n..])
    else [s[0]] + Sub(m, r, IsWord(s[0]), s[1..])
  }

  /** `re.sub(pattern, repl, text)` on a whole text. */
  function SubAll(m: Matcher, r: Rewriter, text: string): string {
    Sub(m, r, false, text)
  }

  /** The replacement `""`. */
  function Erase(matched: string): string { [] }

  /** `\b` at position `i` of `s`: exactly one of the characters around `i` is a
      word character (outside the text counts as non-word). */
  predicate Boundary(prevIsWord: bool, s: string, i: nat)
    requires i <= |s|
  {
    (if i == 0 then prevIsWord else IsWord(s[i - 1])) != (i < |s| && IsWord(s[i]))
  }

  /** Length of the longest prefix of `s` whose characters satisfy `p`: what a
      greedy `X+` or `X*` over the class `p` consumes. */
  function RunOf(p: char -> bool, s: string): (k: nat)
    ensures k <= |s|
    ensures forall i :: 0 <= i < k ==> p(s[i])
    ensures k < |s| ==> !p(s[k])
  {
    if s != [] && p(s[0]) then 1 + RunOf(p, s[1..]) else 0
  }

  lemma {:induction false} RunOfUnique(p: char -> bool, s: string, k: nat)
    requires k <= |s|
    requires forall i :: 0 <= i < k ==> p(s[i])
    requires k < |s| ==> !p(s[k])
    ensures RunOf(p, s) == k
  {
    if k > 0 {
      RunOfUnique(p, s[1..], k - 1);
    }
  }

  /** Length of the word (maximal run of word characters) at the start of `s`. */
  function WordRun(s: string): nat {
    RunOf(IsWord, s)
  }

  // ---------------------------------------------------------------------
  // Length and characters

  /** The replacement of a match is at most one character, taken from the
      match or a plain space. */
  predicate ShortFrom(out: string, matched: string) {
    |out| <= 1 && (out != [] ==> out[0] == ' ' || out[0] in matched)
  }

  ghost predicate Shrinking(m: Matcher, r: Rewriter) {
    forall pw: bool, s: string :: Matches(m, pw, s) ==> ShortFrom(r(s[..m(pw, s)]), s[..m(pw, s)])
  }

  lemma {:induction false} SubLength(m: Matcher, r: Rewriter, pw: bool, s: string)
    requires Shrinking(m, r)
    ensures |Sub(m, r, pw, s)| <= |s|
    decreases |s|
  {
    if s != [] {
      if Matches(m, pw, s) {
        var n := m(pw, s);
        SubLength(m, r, IsWord(s[n - 1]), s[n..]);
      } else {
        SubLength(m, r, IsWord(s[0]), s[1..]);
      }
    }
  }

  /** Every character of the result is a character of the text or a space. */
  lemma {:induction false} SubChars(m: Matcher, r: Rewriter, pw: bool, s: string)
    requires Shrinking(m, r)
    ensures forall c :: c in Sub(m, r, pw, s) ==> c in s || c == ' '
    decreases |s|
  {
    if s != [] {
      if Matches(m, pw, s) {
        var n := m(pw, s);
        var out, rest := r(s[..n]), Sub(m, r, IsWord(s[n - 1]), s[n..]);
        SubChars(m, r, IsWord(s[n - 1]), s[n..]);
        assert ShortFrom(out, s[..n]);
        assert Sub(m, r, pw, s) == out + rest;
        forall c | c in out + rest
          ensures c in s || c == ' '
        {
          if c in rest {
            if c != ' ' {
              var i :| 0 <= i < |s| - n && s[n..][i] == c;
              assert s[n + i] == c;
            }
          } else {
            assert c == out[0];
            if c != ' ' {
              var i :| 0 <= i < n && s[..n][i] == c;
              assert s[i] == c;
            }
          }
        }
      } else {
        var rest := Sub(m, r, IsWord(s[0]), s[1..]);
        SubChars(m, r, IsWord(s[0]), s[1..]);
        assert Sub(m, r, pw, s) == [s[0]] + rest;
        forall c | c in [s[0]] + rest
          ensures c in s || c == ' '
        {
          if c != s[0] && c != ' ' {
            var i :| 0 <= i < |s| - 1 && s[1..][i] == c;
            assert s[i + 1] == c;
          }
        }
      }
    }
  }

  /** Where the pattern matches nowhere, the substitution changes nothing. */
  predicate NoMatchFrom(m: Matcher, pw: bool, s: string)
    decreases |s|
  {
    s == [] || (!Matches(m, pw, s) && NoMatchFrom(m, IsWord(s[0]), s[1..]))
  }

  lemma {:induction false} SubIdentity(m: Matcher, r: Rewriter, pw: bool, s: string)
    requires NoMatchFrom(m, pw, s)
    ensures Sub(m, r, pw, s) == s
    decreases |s|
  {
    if s != [] {
      SubIdentity(m, r, IsWord(s[0]), s[1..]);
    }
  }

  /** Every match of `m` starts with a character of the class `q`. */
  ghost predicate StartsIn(m: Matcher, q: char -> bool) {
    forall p: bool, u: string :: Matches(m, p, u) ==> q(u[0])
  }

  /** A pattern whose matches all start with a character of class `q` finds
      nothing in a text without such characters. */
  lemma {:induction false} NoMatchOutsideClass(m: Matcher, q: char -> bool, pw: bool, s: string)
    requires StartsIn(m, q)
    requires forall i :: 0 <= i < |s| ==> !q(s[i])
    ensures NoMatchFrom(m, pw, s)
    decreases |s|
  {
    if s != [] {
      NoMatchOutsideClass(m, q, IsWord(s[0]), s[1..]);
    }
  }

  // ---------------------------------------------------------------------
  // Brackets: no opening character before a closing one

  predicate NoOpenBeforeClose(o: char, c: char, t: string) {
    forall i, j :: 0 <= i < j < |t| && t[i] == o ==> t[j] != c
  }

  lemma NoOpenBeforeCloseConcat(o: char, c: char, a: string, b: string)
    requires NoOpenBeforeClose(o, c, a) && NoOpenBeforeClose(o, c, b)
    requires o in a ==> c !in b
    ensures NoOpenBeforeClose(o, c, a + b)
  {
    var t := a + b;
    forall i, j | 0 <= i < j < |t| && t[i] == o
      ensures t[j] != c
    {
      if j < |a| {
        assert a[i] == o && a[j] == t[j];
      } else if i < |a| {
        assert a[i] == o;
        assert t[j] == b[j - |a|];
      } else {
        assert b[i - |a|] == o && t[j] == b[j - |a|];
      }
    }
  }

  lemma NoOpenBeforeCloseSplit(o: char, c: char, s: string, n: nat)
    requires NoOpenBeforeClose(o, c, s) && n <= |s|
    ensures NoOpenBeforeClose(o, c, s[n..])
    ensures o in s[..n] ==> c !in s[n..]
  {
    forall i, j | 0 <= i < j < |s[n..]| && s[n..][i] == o
      ensures s[n..][j] != c
    {
      assert s[n + i] == o;
    }
    if o in s[..n] {
      var i :| 0 <= i < n && s[..n][i] == o;
      forall j | 0 <= j < |s[n..]|
        ensures s[n..][j] != c
      {
        assert s[i] == o && s[n..][j] == s[n + j];
      }
    }
  }

  lemma NoOpenBeforeCloseSlice(o: char, c: char, s: string, a: nat, b: nat)
    requires NoOpenBeforeClose(o, c, s) && a <= b <= |s|
    ensures NoOpenBeforeClose(o, c, s[a..b])
  {
    forall i, j | 0 <= i < j < b - a && s[a..b][i] == o
      ensures s[a..b][j] != c
    {
      assert s[a + i] == o && s[a..b][j] == s[a + j];
    }
  }

  /** A substitution whose replacements are at most one character, taken from
      the match or a space, puts no opening character before a closing one. */
  lemma {:induction false} SubKeepsNoOpenBeforeClose(m: Matcher, r: Rewriter, o: char, c: char, pw: bool, s: string)
    requires Shrinking(m, r) && o != ' ' && c != ' '
    requires NoOpenBeforeClose(o, c, s)
    ensures NoOpenBeforeClose(o, c, Sub(m, r, pw, s))
    decreases |s|
  {
    if s != [] {
      if Matches(m, pw, s) {
        var n := m(pw, s);
        var piece := r(s[..n]);
        var rest := Sub(m, r, IsWord(s[n - 1]), s[n..]);
        NoOpenBeforeCloseSplit(o, c, s, n);
        SubKeepsNoOpenBeforeClose(m, r, o, c, IsWord(s[n - 1]), s[n..]);
        SubChars(m, r, IsWord(s[n - 1]), s[n..]);
        NoOpenBeforeCloseConcat(o, c, piece, rest);
      } else {
        var rest := Sub(m, r, IsWord(s[0]), s[1..]);
        NoOpenBeforeCloseSplit(o, c, s, 1);
        SubKeepsNoOpenBeforeClose(m, r, o, c, IsWord(s[0]), s[1..]);
        SubChars(m, r, IsWord(s[0]), s[1..]);
        NoOpenBeforeCloseConcat(o, c, [s[0]], rest);
      }
    }
  }

  /** The pattern matches (and the match is erased) at every opening character
      that has a closing character somewhere after it. */
  ghost predicate ErasesEnclosed(m: Matcher, r: Rewriter, o: char, c: char) {
    (forall pw: bool, s: string :: s != [] && s[0] == o && c in s[1..] ==> Matches(m, pw, s)) &&
    (forall pw: bool, s: string :: Matches(m, pw, s) ==> r(s[..m(pw, s)]) == [])
  }

  /** Erasing every `o ... c` span leaves no `o` before a `c`. */
  lemma {:induction false} SubRemovesEnclosed(m: Matcher, r: Rewriter, o: char, c: char, pw: bool, s: string)
    requires Shrinking(m, r) && ErasesEnclosed(m, r, o, c) && c != ' '
    ensures NoOpenBeforeClose(o, c, Sub(m, r, pw, s))
    decreases |s|
  {
    if s != [] {
      if Matches(m, pw, s) {
        var n := m(pw, s);
        SubRemovesEnclosed(m, r, o, c, IsWord(s[n - 1]), s[n..]);
      } else {
        var rest := Sub(m, r, IsWord(s[0]), s[1..]);
        SubRemovesEnclosed(m, r, o, c, IsWord(s[0]), s[1..]);
        SubChars(m, r, IsWord(s[0]), s[1..]);
        NoOpenBeforeCloseConcat(o, c, [s[0]], rest);
      }
    }
  }

  // ---------------------------------------------------------------------
  // Words: substitutions that delete whole words and never join two words

  /** A match that starts with a word character starts a word, one that ends
      with a word character ends a word, the replacement holds no word
      character, and an empty replacement only replaces a match that starts
      with a word character. */
  predicate SafeMatch(pw: bool, s: string, n: nat, out: string)
    requires 0 < n <= |s|
  {
    (forall i :: 0 <= i < |out| ==> !IsWord(out[i])) &&
    (out == [] ==> IsWord(s[0])) &&
    (IsWord(s[0]) ==> !pw) &&
    (IsWord(s[n - 1]) ==> n == |s| || !IsWord(s[n]))
  }

  ghost predicate WordSafe(m: Matcher, r: Rewriter) {
    forall pw: bool, s: string :: Matches(m, pw, s) ==> SafeMatch(pw, s, m(pw, s), r(s[..m(pw, s)]))
  }

  /** No word of `s` that starts a word (given what precedes `s`) is `bad`:
      read along the scan of `s`, one position at a time. */
  predicate NoBadStart(bad: string -> bool, pw: bool, s: string)
    decreases |s|
  {
    s == [] ||
    ((!pw && IsWord(s[0]) ==> !bad(s[..WordRun(s)])) && NoBadStart(bad, IsWord(s[0]), s[1..]))
  }

  /** `t[i..j]` is a maximal run of word characters of `t`. */
  predicate MaximalWord(t: string, i: nat, j: nat) {
    i < j <= |t| &&
    (i == 0 || !IsWord(t[i - 1])) &&
    (j == |t| || !IsWord(t[j])) &&
    (forall k :: i <= k < j ==> IsWord(t[k]))
  }

  /** No maximal word of `t` is `bad`. */
  ghost predicate NoBadWord(bad: string -> bool, t: string) {
    forall i: nat, j: nat :: MaximalWord(t, i, j) ==> !bad(t[i..j])
  }

  lemma {:induction false} NoBadStartMeaning(bad: string -> bool, pw: bool, t: string)
    requires NoBadStart(bad, pw, t)
    ensures forall i: nat, j: nat :: MaximalWord(t, i, j) && (i == 0 ==> !pw) ==> !bad(t[i..j])
    decreases |t|
  {
    if t != [] {
      NoBadStartMeaning(bad, IsWord(t[0]), t[1..]);
      forall i: nat, j: nat | MaximalWord(t, i, j) && (i == 0 ==> !pw)
        ensures !bad(t[i..j])
      {
        if i == 0 {
          RunOfUnique(IsWord, t, j);
          assert t[..WordRun(t)] == t[i..j];
        } else {
          assert MaximalWord(t[1..], i - 1, j - 1);
          assert t[1..][i - 1..j - 1] == t[i..j] by {
            assert forall k :: 0 <= k < j - i ==> t[1..][i - 1..j - 1][k] == t[i..j][k];
          }
        }
      }
    }
  }

  /** The positional reading of `NoBadStart` at the start of a text. */
  lemma NoBadWordFromScan(bad: string -> bool, t: string)
    requires NoBadStart(bad, false, t)
    ensures NoBadWord(bad, t)
  {
    NoBadStartMeaning(bad, false, t);
  }

  lemma {:induction false} NoBadStartSkip(bad: string -> bool, pw: bool, s: string, k: nat)
    requires NoBadStart(bad, pw, s) && 0 < k <= |s|
    ensures NoBadStart(bad, IsWord(s[k - 1]), s[k..])
    decreases k
  {
    if k > 1 {
      NoBadStartSkip(bad, IsWord(s[0]), s[1..], k - 1);
      assert s[1..][k - 1..] == s[k..];
    }
  }

  lemma {:induction false} NoBadStartAfterNonWords(bad: string -> bool, pw: bool, a: string, b: string)
    requires forall i :: 0 <= i < |a| ==> !IsWord(a[i])
    requires NoBadStart(bad, a == [] && pw, b)
    ensures NoBadStart(bad, pw, a + b)
    decreases |a|
  {
    if a != [] {
      assert (a + b)[0] == a[0] && !IsWord(a[0]);
      NoBadStartAfterNonWords(bad, false, a[1..], b);
      assert (a + b)[1..] == a[1..] + b;
    } else {
      assert a + b == b;
    }
  }

  /** Cutting the text where a word ends keeps `NoBadStart`. */
  lemma {:induction false} NoBadStartPrefix(bad: string -> bool, pw: bool, u: string, b: nat)
    requires NoBadStart(bad, pw, u) && b <= |u|
    requires b == |u| || !IsWord(u[b])
    ensures NoBadStart(bad, pw, u[..b])
    decreases b
  {
    if b > 0 {
      if !pw && IsWord(u[0]) {
        var k := WordRun(u);
        assert k <= b;
        RunOfUnique(IsWord, u[..b], k);
        assert u[..b][..k] == u[..k];
      }
      NoBadStartPrefix(bad, IsWord(u[0]), u[1..], b - 1);
      assert u[..b][1..] == u[1..][..b - 1];
    }
  }

  /** Cutting the text at non-word characters keeps `NoBadStart`. */
  lemma NoBadStartSlice(bad: string -> bool, t: string, a: nat, b: nat)
    requires NoBadStart(bad, false, t) && a <= b <= |t|
    requires a == 0 || !IsWord(t[a - 1])
    requires b == |t| || !IsWord(t[b])
    ensures NoBadStart(bad, false, t[a..b])
  {
    if a > 0 {
      NoBadStartSkip(bad, false, t, a);
    }
    NoBadStartPrefix(bad, false, t[a..], b - a);
    assert t[a..][..b - a] == t[a..b];
  }

  /** A substitution keeps the first character of its input when that
      character is not a word character, or replaces it by non-word text. */
  lemma SubStartsNonWord(m: Matcher, r: Rewriter, pw: bool, s: string)
    requires WordSafe(m, r)
    requires s == [] || !IsWord(s[0])
    ensures Sub(m, r, pw, s) == [] || !IsWord(Sub(m, r, pw, s)[0])
  {
    if s != [] && Matches(m, pw, s) {
      var n := m(pw, s);
      assert SafeMatch(pw, s, n, r(s[..n]));
    }
  }

  /** `out` starts with the word at the start of `s`, and that word ends there. */
  predicate StartsWithWordOf(out: string, s: string) {
    WordRun(s) <= |out| && WordRun(out) == WordRun(s) && out[..WordRun(s)] == s[..WordRun(s)]
  }

  /** Copying a word character in front of texts that start with the same
      word extends that word in both. */
  lemma StartsWithWordOfCons(c: char, rest: string, t: string)
    requires IsWord(c) && t != [] && IsWord(t[0]) && StartsWithWordOf(rest, t)
    ensures StartsWithWordOf([c] + rest, [c] + t)
  {
    WordRunCons(c, rest);
    WordRunCons(c, t);
    var k := WordRun(t);
    assert ([c] + rest)[..k + 1] == [c] + rest[..k];
    assert ([c] + t)[..k + 1] == [c] + t[..k];
  }

  /** A one-character word followed by non-word text. */
  lemma StartsWithWordOfSingle(c: char, rest: string, t: string)
    requires IsWord(c)
    requires rest == [] || !IsWord(rest[0])
    requires t == [] || !IsWord(t[0])
    ensures StartsWithWordOf([c] + rest, [c] + t)
  {
    WordRunCons(c, rest);
    WordRunCons(c, t);
  }

  /** A substitution copies a word in which no match starts. */
  lemma {:induction false} SubKeepsWord(m: Matcher, r: Rewriter, pw: bool, s: string)
    requires WordSafe(m, r)
    requires s != [] && IsWord(s[0]) && !Matches(m, pw, s)
    ensures StartsWithWordOf(Sub(m, r, pw, s), s)
    decreases |s|
  {
    var rest := Sub(m, r, true, s[1..]);
    assert Sub(m, r, pw, s) == [s[0]] + rest;
    assert s == [s[0]] + s[1..];
    if |s| == 1 || !IsWord(s[1]) {
      SubStartsNonWord(m, r, true, s[1..]);
      StartsWithWordOfSingle(s[0], rest, s[1..]);
    } else {
      NoMatchAfterWord(m, r, s[1..]);
      SubKeepsWord(m, r, true, s[1..]);
      StartsWithWordOfCons(s[0], rest, s[1..]);
    }
  }

  lemma WordRunCons(c: char, t: string)
    requires IsWord(c)
    ensures WordRun([c] + t) == 1 + WordRun(t)
  {
    assert ([c] + t)[1..] == t;
  }

  /** A word-safe pattern never matches in the middle of a word. */
  lemma NoMatchAfterWord(m: Matcher, r: Rewriter, s: string)
    requires WordSafe(m, r) && s != [] && IsWord(s[0])
    ensures !Matches(m, true, s)
  {
  }

  /** `i` is where a word of `s` starts, given what precedes `s`. */
  predicate WordStart(pw: bool, s: string, i: nat)
    requires i < |s|
  {
    IsWord(s[i]) && (if i == 0 then !pw else !IsWord(s[i - 1]))
  }

  /** An erasing pattern that only removes whole words matches nowhere when it
      matches at no start of a word. */
  lemma {:induction false} NoMatchAtWordStarts(m: Matcher, pw: bool, s: string)
    requires WordSafe(m, Erase)
    requires forall i :: 0 <= i < |s| && WordStart(pw, s, i) ==> !Matches(m, false, s[i..])
    ensures NoMatchFrom(m, pw, s)
    decreases |s|
  {
    if s != [] {
      if !pw && IsWord(s[0]) {
        assert WordStart(pw, s, 0);
        assert s[0..] == s;
      }
      forall i | 0 <= i < |s[1..]| && WordStart(IsWord(s[0]), s[1..], i)
        ensures !Matches(m, false, s[1..][i..])
      {
        assert WordStart(pw, s, i + 1);
        assert s[1..][i..] == s[i + 1..];
      }
      NoMatchAtWordStarts(m, IsWord(s[0]), s[1..]);
    }
  }

  /** The pattern matches at the start of every word that is `bad`. */
  ghost predicate Catches(m: Matcher, bad: string -> bool) {
    forall pw: bool, s: string :: !pw && s != [] && IsWord(s[0]) && bad(s[..WordRun(s)]) ==> Matches(m, pw, s)
  }

  /** How the scan of the text and the scan of the result stand to each other:
      `pwIn` is what precedes the rest of the text, `pwOut` what precedes the
      rest of the result. */
  predicate InStep(pwIn: bool, pwOut: bool, s: string) {
    (pwOut ==> pwIn) && (pwIn && !pwOut ==> s == [] || !IsWord(s[0]))
  }

  /** A word-safe substitution only deletes whole words and never joins two:
      every word of the result is a word of the text. So it keeps any property
      of all words; and when it matches every `bad` word, it removes them all. */
  lemma {:induction false} SubNoBadStart(m: Matcher, r: Rewriter, bad: string -> bool, pwIn: bool, pwOut: bool, s: string)
    requires WordSafe(m, r) && InStep(pwIn, pwOut, s)
    requires NoBadStart(bad, pwIn, s) || Catches(m, bad)
    ensures NoBadStart(bad, pwOut, Sub(m, r, pwIn, s))
    decreases |s|
  {
    if s != [] {
      if Matches(m, pwIn, s) {
        var n := m(pwIn, s);
        var piece := r(s[..n]);
        assert SafeMatch(pwIn, s, n, piece);
        var rest := Sub(m, r, IsWord(s[n - 1]), s[n..]);
        if NoBadStart(bad, pwIn, s) {
          NoBadStartSkip(bad, pwIn, s, n);
        }
        SubNoBadStart(m, r, bad, IsWord(s[n - 1]), false, s[n..]);
        NoBadStartAfterNonWords(bad, pwOut, piece, rest);
      } else {
        var rest := Sub(m, r, IsWord(s[0]), s[1..]);
        SubNoBadStart(m, r, bad, IsWord(s[0]), IsWord(s[0]), s[1..]);
        if !pwOut && IsWord(s[0]) {
          SubKeepsWord(m, r, pwIn, s);
        }
      }
    }
  }

  /** A pattern that matches only at the start of a `bad` word. */
  ghost predicate MatchesOnlyAt(m: Matcher, bad: string -> bool) {
    forall pw: bool, s: string :: Matches(m, pw, s) ==> !pw && IsWord(s[0]) && bad(s[..WordRun(s)])
  }

  /** Once no `bad` word is left, a pattern that matches only at `bad` words
      matches nowhere. */
  lemma {:induction false} NoMatchWithoutBad(m: Matcher, bad: string -> bool, pw: bool, s: string)
    requires MatchesOnlyAt(m, bad) && NoBadStart(bad, pw, s)
    ensures NoMatchFrom(m, pw, s)
    decreases |s|
  {
    if s != [] {
      NoMatchWithoutBad(m, bad, IsWord(s[0]), s[1..]);
    }
  }

  // ---------------------------------------------------------------------
  // Trailing whitespace

  /** A text that ends in a character other than whitespace. */
  predicate SolidEnd(t: string) {
    t != [] && !IsSpace(t[|t| - 1])
  }

  /** Every replacement the pattern produces ends in a character other than
      whitespace. */
  ghost predicate EndsSolid(m: Matcher, r: Rewriter) {
    forall pw: bool, s: string :: Matches(m, pw, s) ==> SolidEnd(r(s[..m(pw, s)]))
  }

  /** Such a substitution creates no trailing whitespace: a text that does not
      end in whitespace still does not afterwards. */
  lemma {:induction false} SubKeepsSolidEnd(m: Matcher, r: Rewriter, pw: bool, s: string)
    requires EndsSolid(m, r) && SolidEnd(s)
    ensures SolidEnd(Sub(m, r, pw, s))
    decreases |s|
  {
    var out := Sub(m, r, pw, s);
    if Matches(m, pw, s) {
      var n := m(pw, s);
      var piece := r(s[..n]);
      var rest := Sub(m, r, IsWord(s[n - 1]), s[n..]);
      assert out == piece + rest;
      if n < |s| {
        assert s[n..][|s[n..]| - 1] == s[|s| - 1];
        SubKeepsSolidEnd(m, r, IsWord(s[n - 1]), s[n..]);
      } else {
        assert s[n..] == [] && rest == [];
        assert out == piece;
      }
    } else {
      var rest := Sub(m, r, IsWord(s[0]), s[1..]);
      assert out == [s[0]] + rest;
      if |s| > 1 {
        assert s[1..][|s[1..]| - 1] == s[|s| - 1];
        SubKeepsSolidEnd(m, r, IsWord(s[0]), s[1..]);
      } else {
        assert s[1..] == [] && rest == [];
      }
    }
  }

  // ---------------------------------------------------------------------
  // Whitespace runs: `re.sub(r"\s+", " ", t)`

  /** The pattern `\s+`. */
  function SpaceRun(prevIsWord: bool, s: string): nat {
    RunOf(IsSpace, s)
  }

  /** The replacement `" "`. */
  function OneSpace(matched: string): string { " " }

  /** Every whitespace character is a plain space and no two are adjacent. */
  predicate SingleSpaced(t: string) {
    forall i :: 0 <= i < |t| && IsSpace(t[i]) ==> t[i] == ' ' && (i + 1 == |t| || !IsSpace(t[i + 1]))
  }

  /** Whitespace collapsing read one character at a time, independently of
      the scanner: a whitespace character followed by more whitespace is
      dropped, the last one of each run becomes a plain space, and every
      other character is kept. */
  function Squeeze(t: string): string {
    if t == [] then []
    else if !IsSpace(t[0]) then [t[0]] + Squeeze(t[1..])
    else if |t| > 1 && IsSpace(t[1]) then Squeeze(t[1..])
    else " " + Squeeze(t[1..])
  }

  /** `re.sub(r"\s+", " ", t)`: every maximal run of whitespace becomes one
      space and nothing else changes. */
  function Collapse(t: string): (r: string)
    ensures |r| <= |t|
    ensures SingleSpaced(r)
  {
    CollapseShape(false, t);
    SubAll(SpaceRun, OneSpace, t)
  }

  /** Collapsing is squeezing, so it keeps every character other than
      whitespace, in order. */
  lemma CollapseSqueezes(t: string)
    ensures Collapse(t) == Squeeze(t)
    ensures NonSpace(Collapse(t)) == NonSpace(t)
  {
    CollapseIsSqueeze(false, t);
    SqueezeKeepsNonSpace(t);
  }

  /** A maximal run of `n` whitespace characters at the start of `t` squeezes
      to one space. */
  lemma {:induction false} SqueezeRun(t: string, n: nat)
    requires 0 < n <= |t|
    requires forall i :: 0 <= i < n ==> IsSpace(t[i])
    requires n < |t| ==> !IsSpace(t[n])
    ensures Squeeze(t) == " " + Squeeze(t[n..])
    decreases n
  {
    if n > 1 {
      SqueezeRun(t[1..], n - 1);
      assert t[1..][n - 1..] == t[n..];
    }
  }

  /** The scanner collapses exactly as `Squeeze` does. */
  lemma {:induction false} CollapseIsSqueeze(pw: bool, s: string)
    ensures Sub(SpaceRun, OneSpace, pw, s) == Squeeze(s)
    decreases |s|
  {
    if s != [] {
      if Matches(SpaceRun, pw, s) {
        var n := SpaceRun(pw, s);
        CollapseIsSqueeze(IsWord(s[n - 1]), s[n..]);
        SqueezeRun(s, n);
      } else {
        CollapseIsSqueeze(IsWord(s[0]), s[1..]);
      }
    }
  }

  /** Squeezing changes only whitespace: the rest of the text is kept, in
      order. */
  lemma {:induction false} SqueezeKeepsNonSpace(t: string)
    ensures NonSpace(Squeeze(t)) == NonSpace(t)
    decreases |t|
  {
    if t != [] {
      SqueezeKeepsNonSpace(t[1..]);
      var h := if !IsSpace(t[0]) then [t[0]] else if |t| > 1 && IsSpace(t[1]) then [] else " ";
      assert Squeeze(t) == h + Squeeze(t[1..]);
      NonSpaceConcat(h, Squeeze(t[1..]));
    }
  }

  lemma CollapseSafe()
    ensures Shrinking(SpaceRun, OneSpace) && WordSafe(SpaceRun, OneSpace)
  {
    forall pw: bool, s: string | Matches(SpaceRun, pw, s)
      ensures SafeMatch(pw, s, SpaceRun(pw, s), OneSpace(s[..SpaceRun(pw, s)]))
    {
      SpaceIsNotWord(s[0]);
      SpaceIsNotWord(s[SpaceRun(pw, s) - 1]);
    }
  }

  /** How the result of collapsing starts: with a space where the text starts
      with whitespace, otherwise with the text's first character followed by
      the collapse of the rest. */
  predicate CollapseStart(pw: bool, s: string)
    requires s != []
  {
    var out := Sub(SpaceRun, OneSpace, pw, s);
    out != [] &&
    (IsSpace(s[0]) ==> out[0] == ' ') &&
    (!IsSpace(s[0]) ==> out == [s[0]] + Sub(SpaceRun, OneSpace, IsWord(s[0]), s[1..]))
  }

  lemma CollapseFirst(pw: bool, s: string)
    requires s != []
    ensures CollapseStart(pw, s)
  {
    if !IsSpace(s[0]) {
      assert !Matches(SpaceRun, pw, s);
    }
  }

  /** The result is single-spaced, no longer than the text, and starts with
      the text's first character, or with a space where the text starts with
      whitespace. */
  lemma {:induction false} CollapseShape(pw: bool, s: string)
    ensures SingleSpaced(Sub(SpaceRun, OneSpace, pw, s))
    ensures |Sub(SpaceRun, OneSpace, pw, s)| <= |s|
    ensures s != [] ==> CollapseStart(pw, s)
    decreases |s|
  {
    if s != [] {
      CollapseFirst(pw, s);
      var n := if IsSpace(s[0]) then SpaceRun(pw, s) else 1;
      var head := if IsSpace(s[0]) then " " else [s[0]];
      var rest := Sub(SpaceRun, OneSpace, IsWord(s[n - 1]), s[n..]);
      assert Sub(SpaceRun, OneSpace, pw, s) == head + rest;
      CollapseShape(IsWord(s[n - 1]), s[n..]);
      if s[n..] != [] {
        assert !IsSpace(s[n..][0]) ==> rest[0] == s[n..][0];
      }
      SingleSpacedCons(head[0], rest);
    }
  }

  lemma SingleSpacedCons(c: char, rest: string)
    requires SingleSpaced(rest)
    requires IsSpace(c) ==> c == ' ' && (rest == [] || !IsSpace(rest[0]))
    ensures SingleSpaced([c] + rest)
  {
    var t := [c] + rest;
    forall i | 0 <= i < |t| && IsSpace(t[i])
      ensures t[i] == ' ' && (i + 1 == |t| || !IsSpace(t[i + 1]))
    {
      if i > 0 {
        assert t[i] == rest[i - 1];
      }
    }
  }

  /** A single-spaced text is left as it is. */
  lemma {:induction false} CollapseIdentity(pw: bool, s: string)
    requires SingleSpaced(s)
    ensures Sub(SpaceRun, OneSpace, pw, s) == s
    decreases |s|
  {
    if s != [] {
      assert SingleSpaced(s[1..]) by {
        forall i | 0 <= i < |s[1..]| && IsSpace(s[1..][i])
          ensures s[1..][i] == ' ' && (i + 1 == |s[1..]| || !IsSpace(s[1..][i + 1]))
        {
          assert s[1..][i] == s[i + 1];
        }
      }
      if IsSpace(s[0]) {
        RunOfUnique(IsSpace, s, 1);
      }
      CollapseIdentity(IsWord(s[0]), s[1..]);
    }
  }

  /** A result that starts with a character other than whitespace starts with
      a copy of the text's first character. */
  lemma CollapseCopiesFirst(pw: bool, s: string, out: string)
    requires out == Sub(SpaceRun, OneSpace, pw, s)
    requires out != [] && !IsSpace(out[0])
    ensures s != [] && out == [s[0]] + Sub(SpaceRun, OneSpace, IsWord(s[0]), s[1..])
  {
    assert s != [];
    CollapseFirst(pw, s);
  }

  /** A prefix of the result without whitespace was copied from the text. */
  lemma {:induction false} CollapsePrefixBack(pw: bool, s: string, out: string, k: nat)
    requires out == Sub(SpaceRun, OneSpace, pw, s)
    requires k <= |out|
    requires forall i :: 0 <= i < k ==> !IsSpace(out[i])
    ensures k <= |s| && s[..k] == out[..k]
    decreases k
  {
    if k > 0 {
      CollapseCopiesFirst(pw, s, out);
      var rest := Sub(SpaceRun, OneSpace, IsWord(s[0]), s[1..]);
      forall i | 0 <= i < k - 1
        ensures !IsSpace(rest[i])
      {
        assert rest[i] == out[i + 1];
      }
      CollapsePrefixBack(IsWord(s[0]), s[1..], rest, k - 1);
      assert s == [s[0]] + s[1..];
      PrefixCons(s[0], s[1..], rest, k);
    }
  }

  lemma PrefixCons(c: char, a: string, b: string, k: nat)
    requires 0 < k && k - 1 <= |a| && k - 1 <= |b| && a[..k - 1] == b[..k - 1]
    ensures ([c] + a)[..k] == ([c] + b)[..k]
  {
    assert ([c] + a)[..k] == [c] + a[..k - 1];
    assert ([c] + b)[..k] == [c] + b[..k - 1];
  }

  /** An occurrence of a whitespace-free `q` at the start of the result was
      already at the start of the text. */
  lemma CollapseHeadBack(pw: bool, s: string, q: string)
    requires forall i :: 0 <= i < |q| ==> !IsSpace(q[i])
    ensures HasPrefix(Sub(SpaceRun, OneSpace, pw, s), q) ==> HasPrefix(s, q)
  {
    var out := Sub(SpaceRun, OneSpace, pw, s);
    if HasPrefix(out, q) {
      forall i | 0 <= i < |q|
        ensures !IsSpace(out[i])
      {
        assert out[i] == q[i];
      }
      CollapsePrefixBack(pw, s, out, |q|);
    }
  }

  /** Collapsing whitespace creates no occurrence of a whitespace-free `q`. */
  lemma {:induction false} CollapseKeepsFree(pw: bool, s: string, q: string)
    requires q != [] && forall i :: 0 <= i < |q| ==> !IsSpace(q[i])
    requires Free(s, q)
    ensures Free(Sub(SpaceRun, OneSpace, pw, s), q)
    decreases |s|
  {
    var out := Sub(SpaceRun, OneSpace, pw, s);
    if s != [] {
      var n := if IsSpace(s[0]) then SpaceRun(pw, s) else 1;
      var head := if IsSpace(s[0]) then " " else [s[0]];
      var rest := Sub(SpaceRun, OneSpace, IsWord(s[n - 1]), s[n..]);
      assert out == head + rest;
      FreeSuffix(s, q, n);
      CollapseKeepsFree(IsWord(s[n - 1]), s[n..], q);
      forall i | 0 <= i < |out|
        ensures !HasPrefix(out[i..], q)
      {
        if i == 0 {
          assert !HasPrefix(s[0..], q);
          CollapseHeadBack(pw, s, q);
        } else {
          ConcatSuffix(head, rest, i);
        }
      }
    }
  }

  lemma SingleSpacedSlice(t: string, a: nat, b: nat)
    requires SingleSpaced(t) && a <= b <= |t|
    ensures SingleSpaced(t[a..b])
  {
    forall i | 0 <= i < b - a && IsSpace(t[a..b][i])
      ensures t[a..b][i] == ' ' && (i + 1 == b - a || !IsSpace(t[a..b][i + 1]))
    {
      assert t[a..b][i] == t[a + i];
      if i + 1 < b - a {
        assert t[a..b][i + 1] == t[a + i + 1];
      }
    }
  }
}
