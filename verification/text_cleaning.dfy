/**
 The two-pass text cleaner `clean_text`.

 Pass 1 is a left-to-right substitution of `http\S+|@\w+|#\w+` by the empty
 string: at each position a URL (the literal `http` and the longest
 non-whitespace run after it), a mention `@\w+` or a hashtag `#\w+` is removed
 whole, and otherwise one character is kept. Pass 2 removes every character
 outside `[A-Za-z0-9 ]`. The remainder is lowercased. Pass 1 is case
 sensitive and runs before lowercasing, so cleaning is not idempotent.
 */
module TextCleaning {
  import opened Chars

  /** The rest of the text starts with `http` followed by a non-whitespace
      character: the first alternative of the pattern matches here. */
  predicate UrlAt(s: string) {
    |s| > 4 && s[0] == 'h' && s[1] == 't' && s[2] == 't' && s[3] == 'p' && NonSpace(s[4])
  }

  /** The rest of the text starts with `@` or `#` followed by a word
      character: the second or third alternative matches here. */
  predicate MarkAt(s: string) {
    |s| > 1 && (s[0] == '@' || s[0] == '#') && IsWord(s[1])
  }

  predicate MatchAt(s: string) {
    UrlAt(s) || MarkAt(s)
  }

  /** No position of `s` starts a match of the pattern. */
  predicate NoMatch(s: string) {
    forall i :: 0 <= i < |s| ==> !MatchAt(s[i..])
  }

  /** No position of `s` starts `http` followed by a non-whitespace character. */
  predicate NoUrl(s: string) {
    forall i :: 0 <= i < |s| ==> !UrlAt(s[i..])
  }

  /** The length of the match that starts at the front of `s`: the quantifier
      after `http`, `@` or `#` is greedy, so the match runs to the first
      character outside its class or to the end of the text. */
  function MatchLen(s: string): (n: nat)
    requires MatchAt(s)
    ensures 2 <= n <= |s|
    ensures forall i :: 0 <= i < n ==> s[i] != ' '
    ensures UrlAt(s) ==> n >= 5 && (n == |s| || IsSpace(s[n]))
    ensures !UrlAt(s) ==> n == |s| || !IsWord(s[n])
    ensures UrlAt(s) ==> forall i :: 4 <= i < n ==> NonSpace(s[i])
    ensures !UrlAt(s) ==> forall i :: 1 <= i < n ==> IsWord(s[i])
  {
    if UrlAt(s) then
      var k := Span(s[4..], NonSpace);
      assert forall i :: 4 <= i < 4 + k ==> s[i] == s[4..][i - 4];
      4 + k
    else
      var k := Span(s[1..], IsWord);
      assert forall i :: 1 <= i < 1 + k ==> s[i] == s[1..][i - 1];
      1 + k
  }

  /** Pass 1: `re.sub(r"http\S+|@\w+|#\w+", "", s)`. */
  function StripMatches(s: string): (r: string)
    ensures |r| <= |s|
    ensures multiset(r) <= multiset(s)
    ensures multiset(r)[' '] == multiset(s)[' ']
    decreases |s|
  {
    if s == [] then []
    else if MatchAt(s) then
      var n := MatchLen(s);
      assert s == s[..n] + s[n..];
      assert ' ' !in s[..n];
      StripMatches(s[n..])
    else
      assert s == [s[0]] + s[1..];
      [s[0]] + StripMatches(s[1..])
  }

  /** Pass 2: `re.sub(r"[^A-Za-z0-9 ]+", "", s)`. */
  function DropPunctuation(s: string): (r: string)
    ensures |r| <= |s|
    ensures forall i :: 0 <= i < |r| ==> IsKept(r[i])
    ensures forall c :: multiset(r)[c] == (if IsKept(c) then multiset(s)[c] else 0)
  {
    if s == [] then []
    else
      assert s == [s[0]] + s[1..];
      if IsKept(s[0]) then [s[0]] + DropPunctuation(s[1..])
      else DropPunctuation(s[1..])
  }

  /** `clean_text`: strip URLs, mentions and hashtags, drop punctuation,
      lowercase. The result uses only `a-z`, `0-9` and the space, is never
      longer than the input, and keeps every space of the input. */
  function CleanText(s: string): (r: string)
    ensures forall i :: 0 <= i < |r| ==> IsCleanChar(r[i])
    ensures |r| <= |s|
    ensures multiset(r)[' '] == multiset(s)[' ']
  {
    var t := DropPunctuation(StripMatches(s));
    var r := Lower(t);
    assert forall i :: 0 <= i < |r| ==> IsKept(t[i]) && r[i] == LowerChar(t[i]);
    r
  }

  /** Pass 1 leaves exactly the texts without a match unchanged; any match
      shortens the text. */
  lemma StripMatchesFixedPoints(s: string)
    ensures NoMatch(s) ==> StripMatches(s) == s
    ensures |StripMatches(s)| == |s| ==> NoMatch(s)
  {
    if NoMatch(s) {
      StripMatchesKeepsNoMatch(s);
    }
    if |StripMatches(s)| == |s| {
      StripMatchesUnshortened(s);
    }
  }

  lemma {:induction false} StripMatchesKeepsNoMatch(s: string)
    requires NoMatch(s)
    ensures StripMatches(s) == s
    decreases |s|
  {
    if s != [] {
      NoMatchTail(s);
      StripMatchesKeepsNoMatch(s[1..]);
    }
  }

  lemma {:induction false} StripMatchesUnshortened(s: string)
    requires |StripMatches(s)| == |s|
    ensures NoMatch(s)
    decreases |s|
  {
    if s != [] && !MatchAt(s) {
      StripMatchesUnshortened(s[1..]);
      NoMatchTail(s);
    }
  }

  /** A text has no match iff its front has none and its tail has none. */
  lemma NoMatchTail(s: string)
    requires |s| > 0
    ensures NoMatch(s) <==> !MatchAt(s) && NoMatch(s[1..])
  {
    if !MatchAt(s) && NoMatch(s[1..]) {
      forall i | 0 <= i < |s|
        ensures !MatchAt(s[i..])
      {
        if i > 0 {
          assert s[i..] == s[1..][i - 1..];
        }
      }
    }
    if NoMatch(s) {
      assert s[0..] == s;
      forall i | 0 <= i < |s[1..]|
        ensures !MatchAt(s[1..][i..])
      {
        assert s[1..][i..] == s[i + 1..];
      }
    }
  }

  /** Pass 2 is a filter: it acts on each character on its own, in order. */
  lemma {:induction false} DropPunctuationConcat(a: string, b: string)
    ensures DropPunctuation(a + b) == DropPunctuation(a) + DropPunctuation(b)
    decreases |a|
  {
    if a == [] {
      assert a + b == b;
    } else {
      assert (a + b)[1..] == a[1..] + b;
      DropPunctuationConcat(a[1..], b);
    }
  }

  /** Pass 2 leaves a text unchanged iff it is already over `[A-Za-z0-9 ]`. */
  lemma DropPunctuationFixedPoints(s: string)
    ensures DropPunctuation(s) == s <==> forall i :: 0 <= i < |s| ==> IsKept(s[i])
  {
    if forall i :: 0 <= i < |s| ==> IsKept(s[i]) {
      DropPunctuationKept(s);
    }
    if DropPunctuation(s) == s {
      forall i | 0 <= i < |s| ensures IsKept(s[i]) {
        assert s[i] == DropPunctuation(s)[i];
      }
    }
  }

  /** The fixed points of `clean_text` are exactly the texts over
      `[a-z0-9 ]` in which no `http` is followed by a non-whitespace
      character. */
  lemma CleanTextFixedPoints(s: string)
    ensures CleanText(s) == s <==> (forall i :: 0 <= i < |s| ==> IsCleanChar(s[i])) && NoUrl(s)
  {
    if (forall i :: 0 <= i < |s| ==> IsCleanChar(s[i])) && NoUrl(s) {
      CleanTextKeepsCleanInput(s);
    }
    FixedInputIsClean(s);
  }

  /** Every text over `[a-z0-9 ]` without a URL start is left unchanged. */
  lemma CleanTextKeepsCleanInput(s: string)
    requires forall i :: 0 <= i < |s| ==> IsCleanChar(s[i])
    requires NoUrl(s)
    ensures CleanText(s) == s
  {
    CleanCharsOnlyUrls(s);
    StripMatchesFixedPoints(s);
    DropPunctuationKept(s);
    LowerIs(s, s);
    CleanTextSteps(s, s, s, s);
  }

  /** In text over `[a-z0-9 ]` the only possible match is a URL. */
  lemma CleanCharsOnlyUrls(s: string)
    requires forall i :: 0 <= i < |s| ==> IsCleanChar(s[i])
    requires NoUrl(s)
    ensures NoMatch(s)
  {
    forall i | 0 <= i < |s| ensures !MatchAt(s[i..]) {
      assert !UrlAt(s[i..]);
      assert s[i..][0] == s[i];
    }
  }

  /** A text that cleaning leaves unchanged is over `[a-z0-9 ]` and has no
      URL start. */
  lemma FixedInputIsClean(s: string)
    ensures CleanText(s) == s ==> (forall i :: 0 <= i < |s| ==> IsCleanChar(s[i])) && NoUrl(s)
  {
    if CleanText(s) == s {
      var p := StripMatches(s);
      assert |DropPunctuation(p)| <= |p| <= |s|;
      StripMatchesFixedPoints(s);
      assert NoMatch(s);
      forall i | 0 <= i < |s| ensures !UrlAt(s[i..]) {
        assert !MatchAt(s[i..]);
      }
    }
  }

  /** A text with no letter, digit or space cleans to the empty text. */
  lemma SymbolsOnlyCleanToEmpty(s: string)
    requires forall i :: 0 <= i < |s| ==> !IsKept(s[i])
    ensures CleanText(s) == ""
  {
  }

  /** A greedy run stops at the first character outside its class, so text
      after that character does not change it. */
  lemma {:induction false} SpanAppend(a: string, b: string, p: char -> bool)
    requires |a| > 0 && !p(a[|a| - 1])
    ensures Span(a + b, p) == Span(a, p) < |a|
    decreases |a|
  {
    if p(a[0]) {
      assert (a + b)[1..] == a[1..] + b;
      SpanAppend(a[1..], b, p);
    }
  }

  /** A match never covers a whitespace character, so a match starting
      before one is found, with the same length, whatever follows it. */
  lemma MatchAtAppend(a: string, b: string)
    requires |a| > 0 && IsSpace(a[|a| - 1])
    ensures MatchAt(a + b) <==> MatchAt(a)
    ensures MatchAt(a) ==> MatchLen(a + b) == MatchLen(a) < |a|
  {
    if UrlAt(a + b) {
      UrlAtAppend(a, b);
    } else if MarkAt(a + b) {
      MarkAtAppend(a, b);
    }
  }

  lemma UrlAtAppend(a: string, b: string)
    requires |a| > 0 && IsSpace(a[|a| - 1]) && UrlAt(a + b)
    ensures UrlAt(a) && MatchLen(a + b) == MatchLen(a) < |a|
  {
    var s := a + b;
    assert forall i :: 0 <= i < 5 ==> !IsSpace(s[i]);
    assert s[|a| - 1] == a[|a| - 1];
    assert s[4..] == a[4..] + b;
    SpanAppend(a[4..], b, NonSpace);
  }

  lemma MarkAtAppend(a: string, b: string)
    requires |a| > 0 && IsSpace(a[|a| - 1]) && MarkAt(a + b)
    ensures MarkAt(a) && !UrlAt(a) && MatchLen(a + b) == MatchLen(a) < |a|
  {
    var s := a + b;
    assert |a| > 2;
    assert s[1..] == a[1..] + b;
    SpanAppend(a[1..], b, IsWord);
  }

  /** Pass 1 works piece by piece on text cut just after a whitespace
      character: no match runs across whitespace. */
  lemma {:induction false} StripMatchesAppend(a: string, b: string)
    requires |a| > 0 && IsSpace(a[|a| - 1])
    ensures StripMatches(a + b) == StripMatches(a) + StripMatches(b)
    decreases |a|, 1
  {
    MatchAtAppend(a, b);
    if MatchAt(a) {
      StripMatchesAppendMatch(a, b);
    } else if |a| == 1 {
      assert (a + b)[1..] == b;
    } else {
      StripMatchesAppendKeep(a, b);
    }
  }

  lemma {:induction false} StripMatchesAppendMatch(a: string, b: string)
    requires |a| > 0 && IsSpace(a[|a| - 1])
    requires MatchAt(a) && MatchAt(a + b) && MatchLen(a + b) == MatchLen(a) < |a|
    ensures StripMatches(a + b) == StripMatches(a) + StripMatches(b)
    decreases |a|, 0
  {
    var n := MatchLen(a);
    assert a[n..][|a[n..]| - 1] == a[|a| - 1];
    assert (a + b)[n..] == a[n..] + b;
    StripMatchesAppend(a[n..], b);
  }

  lemma {:induction false} StripMatchesAppendKeep(a: string, b: string)
    requires |a| > 1 && IsSpace(a[|a| - 1])
    requires !MatchAt(a) && !MatchAt(a + b)
    ensures StripMatches(a + b) == StripMatches(a) + StripMatches(b)
    decreases |a|, 0
  {
    assert a[1..][|a[1..]| - 1] == a[|a| - 1];
    assert (a + b)[1..] == a[1..] + b;
    StripMatchesAppend(a[1..], b);
    ConcatAssoc([a[0]], StripMatches(a[1..]), StripMatches(b));
  }

  /** `clean_text` composed from its three passes, one step at a time. */
  lemma CleanTextSteps(s: string, p: string, t: string, u: string)
    requires StripMatches(s) == p && DropPunctuation(p) == t && Lower(t) == u
    ensures CleanText(s) == u
  {
  }

  /** Text without `h`, `@` or `#` has nothing for pass 1 to remove. */
  lemma StripMatchesPlain(s: string)
    requires forall i :: 0 <= i < |s| ==> s[i] != 'h' && s[i] != '@' && s[i] != '#'
    ensures StripMatches(s) == s
  {
    assert NoMatch(s) by {
      forall i | 0 <= i < |s| ensures !MatchAt(s[i..]) {
        assert s[i..][0] == s[i];
      }
    }
    StripMatchesFixedPoints(s);
  }

  /** Pass 1 leaves no match behind: `re.sub` removes every URL, mention and
      hashtag, and the removals never join pieces into a new one. */
  lemma {:induction false} StripLeavesNoMatch(s: string)
    ensures NoMatch(StripMatches(s))
    decreases |s|
  {
    if s != [] {
      if MatchAt(s) {
        StripLeavesNoMatch(s[MatchLen(s)..]);
      } else {
        var t := s[1..];
        assert s == [s[0]] + t;
        StripLeavesNoMatch(t);
        StripKeepsFront(s[0], t);
        NoMatchTail([s[0]] + StripMatches(t));
      }
    }
  }

  /** A character that starts no match in front of a text starts none in
      front of that text's pass-1 result. */
  lemma StripKeepsFront(c: char, t: string)
    requires !MatchAt([c] + t)
    ensures !MatchAt([c] + StripMatches(t))
  {
    UrlThroughStrip(c, t);
    if t == [] || !IsWord(t[0]) {
      HeadNonWord(t);
    }
  }

  /** After a removal the next character is whitespace or a non-word
      character, so pass 1 never yields a word character where the text had
      none or where a match started. */
  lemma {:induction false} HeadNonWord(u: string)
    requires u == [] || !IsWord(u[0]) || MatchAt(u)
    ensures StripMatches(u) == [] || !IsWord(StripMatches(u)[0])
    decreases |u|
  {
    if u != [] {
      if MatchAt(u) {
        HeadNonWord(u[MatchLen(u)..]);
      } else {
        StripMatchesKeepsFirst(u);
      }
    }
  }

  /** A word character at the front of a pass-1 result was the text's own
      first character, kept. */
  lemma WordThroughStrip(u: string)
    ensures |StripMatches(u)| > 0 && IsWord(StripMatches(u)[0]) ==>
      |u| > 0 && !MatchAt(u) && StripMatches(u) == [u[0]] + StripMatches(u[1..])
  {
    if u != [] {
      if MatchAt(u) {
        HeadNonWord(u);
      } else {
        StripMatchesKeepsFirst(u);
      }
    }
  }

  /** A non-whitespace character at the front of a pass-1 result means the
      text also starts with non-whitespace. */
  lemma NonSpaceThroughStrip(u: string)
    ensures |StripMatches(u)| > 0 && NonSpace(StripMatches(u)[0]) ==> |u| > 0 && NonSpace(u[0])
  {
    if u != [] && !MatchAt(u) {
      StripMatchesKeepsFirst(u);
    }
  }

  /** A run of word characters at the front of a pass-1 result is the
      text's own front, kept unchanged. */
  lemma {:induction false} WordsThroughStrip(u: string, k: nat)
    requires k <= |StripMatches(u)|
    requires forall i :: 0 <= i < k ==> IsWord(StripMatches(u)[i])
    ensures k <= |u|
    ensures forall i :: 0 <= i < k ==> u[i] == StripMatches(u)[i]
    ensures StripMatches(u)[k..] == StripMatches(u[k..])
    decreases k
  {
    if k > 0 {
      var r := StripMatches(u);
      var r1 := StripMatches(u[1..]);
      WordThroughStrip(u);
      ShiftWords(r, r1, k);
      WordsThroughStrip(u[1..], k - 1);
      ShiftFront(u, r, r1, k, StripMatches(u[1..][k - 1..]));
      DropDrop(u, k);
    }
  }

  lemma ShiftWords(r: string, r1: string, k: nat)
    requires |r| > 0 && r == [r[0]] + r1 && k <= |r|
    requires forall i :: 0 <= i < k ==> IsWord(r[i])
    ensures k - 1 <= |r1| && forall i :: 0 <= i < k - 1 ==> IsWord(r1[i])
  {
    forall i | 0 <= i < k - 1 ensures IsWord(r1[i]) {
      assert r1[i] == r[i + 1];
    }
  }

  lemma ShiftFront(u: string, r: string, r1: string, k: nat, rest: string)
    requires |u| > 0 && k > 0 && r == [u[0]] + r1
    requires k - 1 <= |u[1..]| && k - 1 <= |r1|
    requires forall i :: 0 <= i < k - 1 ==> u[1..][i] == r1[i]
    requires r1[k - 1..] == rest
    ensures k <= |u| && forall i :: 0 <= i < k ==> u[i] == r[i]
    ensures r[k..] == rest
  {
    forall i | 0 <= i < k ensures u[i] == r[i] {
      if i > 0 {
        assert u[i] == u[1..][i - 1] && r[i] == r1[i - 1];
      }
    }
    assert r[k..] == r1[k - 1..];
  }

  /** `http` followed by non-whitespace can appear after a character only if
      it was there before pass 1. */
  lemma UrlThroughStrip(c: char, t: string)
    ensures UrlAt([c] + StripMatches(t)) ==> UrlAt([c] + t)
  {
    var r := StripMatches(t);
    if UrlAt([c] + r) {
      UrlAfter(c, r);
      WordsThroughStrip(t, 3);
      NonSpaceThroughStrip(t[3..]);
      UrlBefore(c, t);
    }
  }

  lemma UrlAfter(c: char, r: string)
    requires UrlAt([c] + r)
    ensures c == 'h' && |r| > 3 && r[0] == 't' && r[1] == 't' && r[2] == 'p'
    ensures NonSpace(r[3]) && NonSpace(r[3..][0])
    ensures forall i :: 0 <= i < 3 ==> IsWord(r[i])
  {
    assert ([c] + r)[1..] == r;
  }

  lemma UrlBefore(c: char, t: string)
    requires c == 'h' && |t| > 3 && t[0] == 't' && t[1] == 't' && t[2] == 'p'
    requires NonSpace(t[3..][0])
    ensures UrlAt([c] + t)
  {
    assert ([c] + t)[1..] == t;
  }

  /** Where no match starts, pass 1 keeps the first character. */
  lemma StripMatchesKeepsFirst(s: string)
    requires |s| > 0 && !MatchAt(s)
    ensures StripMatches(s) == [s[0]] + StripMatches(s[1..])
  {
  }

  /** Characters at which no match starts survive pass 1, in order: a prefix
      none of whose positions starts a match comes through unchanged. */
  lemma {:induction false} StripMatchesKeepsPrefix(a: string, b: string)
    requires forall i :: 0 <= i < |a| ==> !MatchAt((a + b)[i..])
    ensures StripMatches(a + b) == a + StripMatches(b)
    decreases |a|
  {
    if a == [] {
      assert a + b == b;
    } else {
      var s, t := a + b, a[1..];
      NoMatchInPrefixTail(a, b);
      StripMatchesKeepsPrefix(t, b);
      StripMatchesKeepsFirst(s);
      DropConcat(a, b);
      ConsThenRest(a, StripMatches(s[1..]), StripMatches(b));
    }
  }

  /** The leftmost match is removed whole and nothing else is: a match-free
      prefix is kept, the match `m` goes, and pass 1 carries on right after
      it. */
  lemma StripMatchesLeftmost(a: string, m: string, b: string)
    requires forall i :: 0 <= i < |a| ==> !MatchAt((a + (m + b))[i..])
    requires MatchAt(m + b) && MatchLen(m + b) == |m|
    ensures StripMatches(a + (m + b)) == a + StripMatches(b)
  {
    StripMatchesKeepsPrefix(a, m + b);
    StripMatchesSkip(m + b);
    assert (m + b)[|m|..] == b;
  }

  lemma StripMatchesSkip(s: string)
    requires MatchAt(s)
    ensures StripMatches(s) == StripMatches(s[MatchLen(s)..])
  {
  }

  lemma NoMatchInPrefixTail(a: string, b: string)
    requires a != [] && forall i :: 0 <= i < |a| ==> !MatchAt((a + b)[i..])
    ensures !MatchAt(a + b)
    ensures forall i :: 0 <= i < |a[1..]| ==> !MatchAt((a[1..] + b)[i..])
  {
    assert (a + b)[0..] == a + b;
    forall i | 0 <= i < |a[1..]| ensures !MatchAt((a[1..] + b)[i..]) {
      assert (a[1..] + b)[i..] == (a + b)[i + 1..];
    }
  }

  lemma ConsThenRest(a: string, x: string, y: string)
    requires a != [] && x == a[1..] + y
    ensures [a[0]] + x == a + y
  {
  }

  lemma {:induction false} DropPunctuationKept(s: string)
    requires forall i :: 0 <= i < |s| ==> IsKept(s[i])
    ensures DropPunctuation(s) == s
    decreases |s|
  {
    if s != [] {
      assert forall i :: 0 <= i < |s[1..]| ==> IsKept(s[1..][i]) by {
        forall i | 0 <= i < |s[1..]| ensures IsKept(s[1..][i]) {
          assert s[1..][i] == s[i + 1];
        }
      }
      DropPunctuationKept(s[1..]);
      assert s == [s[0]] + s[1..];
    }
  }

  /** A text that is one URL match cleans to nothing. */
  lemma UrlCleansAway(s: string)
    requires UrlAt(s) && forall i :: 4 <= i < |s| ==> NonSpace(s[i])
    ensures CleanText(s) == ""
  {
    assert MatchLen(s) == |s|;
  }

  /** Cleaning twice gives the same text exactly when the cleaned text has no
      `http` followed by a non-whitespace character. */
  lemma CleanTwice(s: string)
    ensures CleanText(CleanText(s)) == CleanText(s) <==> NoUrl(CleanText(s))
  {
    CleanTextFixedPoints(CleanText(s));
  }
}
