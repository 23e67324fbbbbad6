/** The `str` operations the summarizer uses: `strip()` and `replace(old, new)`,
    with the facts about occurrences of a substring that the cleaners rely on. */
module Text {
  import opened CharClass

  /** `s` begins with `p`. */
  predicate HasPrefix(s: string, p: string) {
    |p| <= |s| && s[..|p|] == p
  }

  /** `q` occurs nowhere in `t`. */
  predicate Free(t: string, q: string) {
    forall i :: 0 <= i < |t| ==> !HasPrefix(t[i..], q)
  }

  /** Every occurrence of `w` in `t` is immediately followed by `x`. */
  predicate AlwaysFollowed(t: string, w: string, x: string) {
    forall i :: 0 <= i < |t| && HasPrefix(t[i..], w) ==> HasPrefix(t[i..], w + x)
  }

  /** No character of `t` is whitespace other than the plain space. */
  predicate OnlyPlainSpaces(t: string) {
    forall i :: 0 <= i < |t| && IsSpace(t[i]) ==> t[i] == ' '
  }

  /** Number of leading whitespace characters. */
  function LeadingSpaces(s: string): (a: nat)
    ensures a <= |s|
    ensures forall i :: 0 <= i < a ==> IsSpace(s[i])
    ensures a < |s| ==> !IsSpace(s[a])
  {
    if s != [] && IsSpace(s[0]) then 1 + LeadingSpaces(s[1..]) else 0
  }

  /** Length of `s` without its trailing whitespace. */
  function KeptLength(s: string): (b: nat)
    ensures b <= |s|
    ensures forall i :: b <= i < |s| ==> IsSpace(s[i])
    ensures b > 0 ==> !IsSpace(s[b - 1])
  {
    if s != [] && IsSpace(s[|s| - 1]) then KeptLength(s[..|s| - 1]) else |s|
  }

  /** Python's `str.strip()`: removes leading and trailing whitespace. */
  function Strip(s: string): (r: string)
    ensures LeadingSpaces(s) + |r| <= |s|
    ensures r == s[LeadingSpaces(s)..LeadingSpaces(s) + |r|]
    ensures forall i :: 0 <= i < LeadingSpaces(s) ==> IsSpace(s[i])
    ensures forall i :: LeadingSpaces(s) + |r| <= i < |s| ==> IsSpace(s[i])
    ensures r != [] ==> !IsSpace(r[0]) && !IsSpace(r[|r| - 1])
  {
    var a := LeadingSpaces(s);
    var t := s[a..];
    t[..KeptLength(t)]
  }

  /** Python's `s.replace(p, r)`: scans left to right and replaces each
      non-overlapping occurrence of `p` by `r`. */
  function Replace(s: string, p: string, r: string): string
    requires p != []
    decreases |s|
  {
    if |s| < |p| then s
    else if s[..|p|] == p then r + Replace(s[|p|..], p, r)
    else [s[0]] + Replace(s[1..], p, r)
  }

  // ---------------------------------------------------------------------
  // Strip

  /** Stripping is idempotent. */
  lemma StripIdempotent(s: string)
    ensures Strip(Strip(s)) == Strip(s)
  {
    var r := Strip(s);
    assert LeadingSpaces(r) == 0;
    assert KeptLength(r) == |r|;
  }

  /** A text without surrounding whitespace is its own strip. */
  lemma StripOfTrimmed(s: string)
    requires s == [] || (!IsSpace(s[0]) && !IsSpace(s[|s| - 1]))
    ensures Strip(s) == s
  {
    assert LeadingSpaces(s) == 0;
    assert KeptLength(s) == |s|;
  }

  // ---------------------------------------------------------------------
  // Replace: length, characters, multiplicities

  lemma {:induction false} ReplaceLength(s: string, p: string, r: string)
    requires p != [] && |r| <= |p|
    ensures |Replace(s, p, r)| <= |s|
    decreases |s|
  {
    if |s| < |p| {
    } else if s[..|p|] == p {
      ReplaceLength(s[|p|..], p, r);
    } else {
      ReplaceLength(s[1..], p, r);
    }
  }

  /** A replacement at least as long as the pattern never shortens the text. */
  lemma {:induction false} ReplaceLonger(s: string, p: string, r: string)
    requires p != [] && |r| >= |p|
    ensures |Replace(s, p, r)| >= |s|
    decreases |s|
  {
    if |s| < |p| {
    } else if s[..|p|] == p {
      ReplaceLonger(s[|p|..], p, r);
    } else {
      ReplaceLonger(s[1..], p, r);
    }
  }

  /** When `p` occurs in `s`, at least one replacement happens: a longer `r`
      then lengthens the text by at least the difference. */
  lemma {:induction false} ReplaceGrows(s: string, p: string, r: string, i: nat)
    requires p != [] && |r| >= |p|
    requires i < |s| && HasPrefix(s[i..], p)
    ensures |Replace(s, p, r)| >= |s| + |r| - |p|
    decreases |s|
  {
    if s[..|p|] == p {
      ReplaceLonger(s[|p|..], p, r);
    } else {
      assert i > 0;
      assert s[1..][i - 1..] == s[i..];
      ReplaceGrows(s[1..], p, r, i - 1);
    }
  }

  /** Every character of the result comes from the input or from `r`. */
  lemma {:induction false} ReplaceChars(s: string, p: string, r: string)
    requires p != []
    ensures forall c :: c in Replace(s, p, r) ==> c in s || c in r
    decreases |s|
  {
    if |s| < |p| {
    } else if s[..|p|] == p {
      ReplaceChars(s[|p|..], p, r);
      assert s == s[..|p|] + s[|p|..];
    } else {
      ReplaceChars(s[1..], p, r);
      assert s == [s[0]] + s[1..];
    }
  }

  /** A character that is in neither `p` nor `r` occurs as often after the
      replacement as before. */
  lemma {:induction false} ReplaceKeepsCount(s: string, p: string, r: string, c: char)
    requires p != [] && c !in p && c !in r
    ensures multiset(Replace(s, p, r))[c] == multiset(s)[c]
    decreases |s|
  {
    if |s| < |p| {
    } else if s[..|p|] == p {
      ReplaceKeepsCount(s[|p|..], p, r, c);
      assert s == s[..|p|] + s[|p|..];
      assert multiset(s[..|p|])[c] == 0;
    } else {
      ReplaceKeepsCount(s[1..], p, r, c);
      assert s == [s[0]] + s[1..];
    }
  }

  /** When `p` does not occur in `s`, replacing it changes nothing. */
  lemma {:induction false} ReplaceFree(s: string, p: string, r: string)
    requires p != [] && Free(s, p)
    ensures Replace(s, p, r) == s
    decreases |s|
  {
    if |s| >= |p| {
      assert !HasPrefix(s[0..], p) && s[0..] == s;
      FreeSuffix(s, p, 1);
      ReplaceFree(s[1..], p, r);
      assert s == [s[0]] + s[1..];
    }
  }

  /** In particular when the first character of `p` is not in `s`. */
  lemma ReplaceAbsent(s: string, p: string, r: string)
    requires p != [] && p[0] !in s
    ensures Replace(s, p, r) == s
  {
    forall i | 0 <= i < |s|
      ensures !HasPrefix(s[i..], p)
    {
      assert s[i..][0] == s[i];
    }
    ReplaceFree(s, p, r);
  }

  // ---------------------------------------------------------------------
  // Replace: how prefixes of the input and of the result correspond

  /** A prefix of the input in which `p` cannot start is copied unchanged. */
  lemma {:induction false} ReplacePrefixForward(s: string, p: string, r: string, k: nat)
    requires p != [] && k <= |s|
    requires forall i :: 0 <= i < k ==> s[i] != p[0]
    ensures k <= |Replace(s, p, r)| && Replace(s, p, r)[..k] == s[..k]
    decreases |s|
  {
    if k > 0 && |s| >= |p| {
      assert s[..|p|] != p by { assert s[0] != p[0]; }
      ReplacePrefixForward(s[1..], p, r, k - 1);
    }
  }

  /** A prefix of the result that contains neither the first character of `p`
      nor the first character of `r` was copied unchanged from the input. */
  lemma {:induction false} ReplacePrefixBack(s: string, p: string, r: string, k: nat)
    requires p != [] && r != []
    requires k <= |Replace(s, p, r)|
    requires forall i :: 0 <= i < k ==> Replace(s, p, r)[i] != p[0] && Replace(s, p, r)[i] != r[0]
    ensures k <= |s| && s[..k] == Replace(s, p, r)[..k]
    decreases |s|
  {
    if k > 0 {
      assert Replace(s, p, r)[0] != r[0];
    }
    if k > 0 && |s| >= |p| && s[..|p|] != p {
      var t := Replace(s, p, r);
      var rest := Replace(s[1..], p, r);
      assert t == [s[0]] + rest;
      forall i | 0 <= i < k - 1
        ensures rest[i] != p[0] && rest[i] != r[0]
      {
        assert rest[i] == t[i + 1];
      }
      ReplacePrefixBack(s[1..], p, r, k - 1);
    }
  }

  /** An occurrence of `q` at the start of the result of a replacement that
      did not fire at the first position was already at the start of the
      input, when neither `p` nor `r` can begin inside `q`. */
  lemma ReplaceHeadBack(s: string, p: string, r: string, q: string)
    requires p != [] && r != [] && q != []
    requires p[0] !in q[1..] && r[0] !in q[1..]
    requires !HasPrefix(s, p)
    ensures HasPrefix(Replace(s, p, r), q) ==> HasPrefix(s, q)
  {
    var t := Replace(s, p, r);
    if HasPrefix(t, q) && |s| >= |p| {
      var rest := Replace(s[1..], p, r);
      assert t == [s[0]] + rest;
      forall j | 0 <= j < |q| - 1
        ensures rest[j] != p[0] && rest[j] != r[0]
      {
        assert rest[j] == t[j + 1] == q[j + 1];
      }
      ReplacePrefixBack(s[1..], p, r, |q| - 1);
      assert s[..|q|] == [s[0]] + s[1..][..|q| - 1];
    }
  }

  // ---------------------------------------------------------------------
  // Replace: occurrences

  lemma FreeSuffix(s: string, q: string, k: nat)
    requires Free(s, q) && k <= |s|
    ensures Free(s[k..], q)
  {
    forall i | 0 <= i < |s[k..]|
      ensures !HasPrefix(s[k..][i..], q)
    {
      assert s[k..][i..] == s[k + i..];
    }
  }

  lemma FreeSlice(s: string, q: string, a: nat, b: nat)
    requires Free(s, q) && a <= b <= |s|
    ensures Free(s[a..b], q)
  {
    forall i | 0 <= i < b - a
      ensures !HasPrefix(s[a..b][i..], q)
    {
      assert s[a..b][i..] == s[a + i..b];
      if HasPrefix(s[a + i..b], q) {
        assert s[a + i..][..|q|] == s[a + i..b][..|q|];
        assert HasPrefix(s[a + i..], q);
      }
    }
  }

  /** Splits the occurrences in `a + b` into those that start in `a` and those
      in `b`. */
  lemma ConcatSuffix(a: string, b: string, i: nat)
    requires |a| <= i <= |a + b|
    ensures (a + b)[i..] == b[i - |a|..]
  {
  }

  /** After `s.replace(p, r)` the result holds no occurrence of `p`, when `p`
      cannot overlap itself and `r` cannot begin a new occurrence. */
  lemma {:induction false} ReplaceRemoves(s: string, p: string, r: string)
    requires p != [] && r != []
    requires p[0] !in r && p[0] !in p[1..] && r[0] !in p[1..]
    ensures Free(Replace(s, p, r), p)
    decreases |s|
  {
    var t := Replace(s, p, r);
    if |s| < |p| {
      forall i | 0 <= i < |t| ensures !HasPrefix(t[i..], p) { }
    } else if s[..|p|] == p {
      var rest := Replace(s[|p|..], p, r);
      ReplaceRemoves(s[|p|..], p, r);
      forall i | 0 <= i < |t|
        ensures !HasPrefix(t[i..], p)
      {
        if i < |r| {
          assert t[i..][0] == r[i];
        } else {
          ConcatSuffix(r, rest, i);
        }
      }
    } else {
      var rest := Replace(s[1..], p, r);
      ReplaceRemoves(s[1..], p, r);
      forall i | 0 <= i < |t|
        ensures !HasPrefix(t[i..], p)
      {
        if i == 0 {
          ReplaceHeadBack(s, p, r, p);
        } else {
          ConcatSuffix([s[0]], rest, i);
        }
      }
    }
  }

  /** `s.replace(p, r)` creates no occurrence of `q` when `r` cannot supply its
      first character and neither `p` nor `r` can begin inside it. */
  lemma {:induction false} ReplaceKeepsFree(s: string, p: string, r: string, q: string)
    requires p != [] && r != [] && q != []
    requires Free(s, q)
    requires q[0] !in r && p[0] !in q[1..] && r[0] !in q[1..]
    ensures Free(Replace(s, p, r), q)
    decreases |s|
  {
    var t := Replace(s, p, r);
    if |s| < |p| {
    } else if s[..|p|] == p {
      var rest := Replace(s[|p|..], p, r);
      FreeSuffix(s, q, |p|);
      ReplaceKeepsFree(s[|p|..], p, r, q);
      forall i | 0 <= i < |t|
        ensures !HasPrefix(t[i..], q)
      {
        if i < |r| {
          assert t[i..][0] == r[i];
        } else {
          ConcatSuffix(r, rest, i);
        }
      }
    } else {
      var rest := Replace(s[1..], p, r);
      FreeSuffix(s, q, 1);
      ReplaceKeepsFree(s[1..], p, r, q);
      forall i | 0 <= i < |t|
        ensures !HasPrefix(t[i..], q)
      {
        if i == 0 {
          assert !HasPrefix(s[0..], q);
          ReplaceHeadBack(s, p, r, q);
        } else {
          ConcatSuffix([s[0]], rest, i);
        }
      }
    }
  }

  /** `s.replace(w, w + x)` leaves every occurrence of `w` followed by `x`,
      when `w` cannot overlap itself and `x` holds no first character of `w`. */
  lemma {:induction false} ReplaceAppends(s: string, w: string, x: string)
    requires w != [] && w[0] !in w[1..] && w[0] !in x
    ensures AlwaysFollowed(Replace(s, w, w + x), w, x)
    decreases |s|
  {
    var r := w + x;
    var t := Replace(s, w, r);
    if |s| < |w| {
    } else if s[..|w|] == w {
      var rest := Replace(s[|w|..], w, r);
      ReplaceAppends(s[|w|..], w, x);
      forall i | 0 <= i < |t| && HasPrefix(t[i..], w)
        ensures HasPrefix(t[i..], r)
      {
        if i == 0 {
          assert t[..|r|] == r;
        } else if i < |r| {
          assert false;
        } else {
          ConcatSuffix(r, rest, i);
        }
      }
    } else {
      var rest := Replace(s[1..], w, r);
      ReplaceAppends(s[1..], w, x);
      forall i | 0 <= i < |t| && HasPrefix(t[i..], w)
        ensures HasPrefix(t[i..], r)
      {
        if i == 0 {
          ReplaceHeadBack(s, w, r, w);
          assert false;
        } else {
          ConcatSuffix([s[0]], rest, i);
        }
      }
    }
  }

  /** `s.replace(v, v + y)` keeps every occurrence of `w` followed by `x`, when
      the two words cannot start inside each other or inside the appended text. */
  lemma {:induction false} ReplaceKeepsFollowed(s: string, v: string, y: string, w: string, x: string)
    requires v != [] && w != []
    requires AlwaysFollowed(s, w, x)
    requires w[0] !in v + y && v[0] !in (w + x)[1..]
    ensures AlwaysFollowed(Replace(s, v, v + y), w, x)
    decreases |s|
  {
    var r := v + y;
    var t := Replace(s, v, r);
    if |s| < |v| {
    } else if s[..|v|] == v {
      var rest := Replace(s[|v|..], v, r);
      assert AlwaysFollowed(s[|v|..], w, x) by {
        forall i | 0 <= i < |s[|v|..]| && HasPrefix(s[|v|..][i..], w)
          ensures HasPrefix(s[|v|..][i..], w + x)
        {
          assert s[|v|..][i..] == s[|v| + i..];
        }
      }
      ReplaceKeepsFollowed(s[|v|..], v, y, w, x);
      forall i | 0 <= i < |t| && HasPrefix(t[i..], w)
        ensures HasPrefix(t[i..], w + x)
      {
        if i < |r| {
          assert false;
        } else {
          ConcatSuffix(r, rest, i);
        }
      }
    } else {
      var rest := Replace(s[1..], v, r);
      assert AlwaysFollowed(s[1..], w, x) by {
        forall i | 0 <= i < |s[1..]| && HasPrefix(s[1..][i..], w)
          ensures HasPrefix(s[1..][i..], w + x)
        {
          assert s[1..][i..] == s[1 + i..];
        }
      }
      ReplaceKeepsFollowed(s[1..], v, y, w, x);
      forall i | 0 <= i < |t| && HasPrefix(t[i..], w)
        ensures HasPrefix(t[i..], w + x)
      {
        if i == 0 {
          var wx := w + x;
          forall j | 0 <= j < |w| - 1
            ensures rest[j] != v[0] && rest[j] != r[0]
          {
            assert rest[j] == t[j + 1] == w[j + 1] == wx[j + 1];
          }
          ReplacePrefixBack(s[1..], v, r, |w| - 1);
          assert s[..|w|] == [s[0]] + s[1..][..|w| - 1];
          assert HasPrefix(s[0..], w);
          assert HasPrefix(s, wx);
          forall j | 0 <= j < |wx| - 1
            ensures s[1..][j] != v[0]
          {
            assert s[1..][j] == wx[j + 1];
          }
          ReplacePrefixForward(s[1..], v, r, |wx| - 1);
          assert t[..|wx|] == [s[0]] + rest[..|wx| - 1];
        } else {
          ConcatSuffix([s[0]], rest, i);
        }
      }
    }
  }

  /** The result of a replacement starts with the first character of the text
      or of the replacement. */
  lemma ReplaceStart(s: string, p: string, r: string)
    requires p != [] && r != [] && s != []
    ensures Replace(s, p, r) != []
    ensures Replace(s, p, r)[0] == s[0] || Replace(s, p, r)[0] == r[0]
  {
  }

  /** A replacement by text whose whitespace is plain spaces adds no other
      whitespace. */
  lemma ReplaceKeepsPlainSpaces(s: string, p: string, r: string)
    requires p != [] && OnlyPlainSpaces(s) && OnlyPlainSpaces(r)
    ensures OnlyPlainSpaces(Replace(s, p, r))
  {
    var t := Replace(s, p, r);
    ReplaceChars(s, p, r);
    forall i | 0 <= i < |t| && IsSpace(t[i])
      ensures t[i] == ' '
    {
      assert t[i] in t;
      if t[i] in s {
        var j :| 0 <= j < |s| && s[j] == t[i];
      } else {
        var j :| 0 <= j < |r| && r[j] == t[i];
      }
    }
  }

  /** Trimming creates no occurrence of `q`. */
  lemma StripKeepsFree(s: string, q: string)
    requires Free(s, q)
    ensures Free(Strip(s), q)
  {
    FreeSlice(s, q, LeadingSpaces(s), LeadingSpaces(s) + |Strip(s)|);
  }

  /** Stripping a text made only of whitespace leaves nothing. */
  lemma StripAllSpaces(s: string)
    requires forall i :: 0 <= i < |s| ==> IsSpace(s[i])
    ensures Strip(s) == []
  {
    assert LeadingSpaces(s) == |s|;
  }

  /** Stripping keeps every character that is not whitespace, as often as it
      occurs. */
  lemma StripKeepsCount(s: string, c: char)
    requires !IsSpace(c)
    ensures multiset(Strip(s))[c] == multiset(s)[c]
  {
    var a := LeadingSpaces(s);
    var r := Strip(s);
    var b := a + |r|;
    assert s == s[..a] + r + s[b..];
    assert c !in s[..a];
    assert c !in s[b..];
  }

  /** `s` with every whitespace character removed: the text's words run
      together, in order. */
  function NonSpace(s: string): (r: string)
    ensures |r| <= |s|
    ensures forall i :: 0 <= i < |r| ==> !IsSpace(r[i])
  {
    if s == [] then [] else (if IsSpace(s[0]) then [] else [s[0]]) + NonSpace(s[1..])
  }

  lemma {:induction false} NonSpaceConcat(a: string, b: string)
    ensures NonSpace(a + b) == NonSpace(a) + NonSpace(b)
  {
    if a == [] {
      assert a + b == b;
    } else {
      assert (a + b)[1..] == a[1..] + b;
      NonSpaceConcat(a[1..], b);
    }
  }

  lemma {:induction false} NonSpaceOfSpaces(s: string)
    requires forall i :: 0 <= i < |s| ==> IsSpace(s[i])
    ensures NonSpace(s) == []
  {
    if s != [] {
      NonSpaceOfSpaces(s[1..]);
    }
  }

  /** Stripping removes only whitespace: the rest of the text is kept, in
      order. */
  lemma StripKeepsNonSpace(s: string)
    ensures NonSpace(Strip(s)) == NonSpace(s)
  {
    var a := LeadingSpaces(s);
    var r := Strip(s);
    var b := a + |r|;
    assert s == s[..a] + r + s[b..];
    NonSpaceConcat(s[..a] + r, s[b..]);
    NonSpaceConcat(s[..a], r);
    NonSpaceOfSpaces(s[..a]);
    NonSpaceOfSpaces(s[b..]);
  }
}
