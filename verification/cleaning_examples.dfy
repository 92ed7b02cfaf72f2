/**
 A worked example of `clean_text` on a concrete text, showing that cleaning
 is not idempotent. Each step is its own small lemma, so the verifier never
 has to evaluate a whole pass at once.
 */
module CleaningExamples {
  import opened Chars
  import opened TextCleaning

  /** An upper-case URL scheme, which the case-sensitive pattern misses. */
  const UpperUrl: string := "HTTPS"

  /** The same scheme in lower case: one whole URL match. */
  const LowerUrl: string := "https"

  lemma UpperUrlLetters()
    ensures |UpperUrl| == 5
    ensures forall i :: 0 <= i < |UpperUrl| ==> IsUpper(UpperUrl[i]) && UpperUrl[i] != 'h'
  {
  }

  lemma UpperUrlPass1()
    ensures StripMatches(UpperUrl) == UpperUrl
  {
    UpperUrlLetters();
    StripMatchesPlain(UpperUrl);
  }

  lemma UpperUrlPass2()
    ensures DropPunctuation(UpperUrl) == UpperUrl
  {
    UpperUrlLetters();
    DropPunctuationKept(UpperUrl);
  }

  lemma UpperUrlLower()
    ensures Lower(UpperUrl) == LowerUrl
  {
    LowerIs(UpperUrl, LowerUrl);
  }

  /** The URL pattern is case sensitive, so an upper-case `HTTPS` survives
      pass 1 and is only then lowercased. */
  lemma UpperUrlSurvives()
    ensures CleanText(UpperUrl) == LowerUrl
  {
    UpperUrlPass1();
    UpperUrlPass2();
    UpperUrlLower();
    CleanTextSteps(UpperUrl, UpperUrl, UpperUrl, LowerUrl);
  }

  /** The lowercased result is one URL match, which cleaning removes. */
  lemma LowerUrlVanishes()
    ensures CleanText(LowerUrl) == ""
  {
    UrlCleansAway(LowerUrl);
  }

  /** Cleaning is not idempotent: cleaning `HTTPS` gives `https`, and
      cleaning that gives the empty text. */
  lemma CleanTextNotIdempotent()
    ensures CleanText(UpperUrl) == LowerUrl && CleanText(LowerUrl) == ""
  {
    UpperUrlSurvives();
    LowerUrlVanishes();
  }

  /** `http` broken by a punctuation mark, which pass 2 then removes. */
  const BrokenUrl: string := "ht!tpx"

  const JoinedUrl: string := "httpx"

  lemma BrokenUrlNoMatch()
    ensures NoMatch(BrokenUrl)
  {
    forall i | 0 <= i < |BrokenUrl| ensures !MatchAt(BrokenUrl[i..]) {
      assert BrokenUrl[i..][0] == BrokenUrl[i];
      if i == 0 {
        assert BrokenUrl[2] == '!';
      }
    }
  }

  lemma BrokenUrlPass1()
    ensures StripMatches(BrokenUrl) == BrokenUrl
  {
    BrokenUrlNoMatch();
    StripMatchesKeepsNoMatch(BrokenUrl);
  }

  const UrlHead: string := "ht"

  const UrlMark: string := "!"

  const UrlTail: string := "tpx"

  lemma BrokenUrlParts()
    ensures BrokenUrl == UrlHead + (UrlMark + UrlTail)
    ensures JoinedUrl == UrlHead + UrlTail
    ensures forall i :: 0 <= i < |UrlHead| ==> IsKept(UrlHead[i])
    ensures forall i :: 0 <= i < |UrlTail| ==> IsKept(UrlTail[i])
    ensures |UrlMark| == 1 && !IsKept(UrlMark[0])
  {
  }

  lemma BrokenUrlPass2()
    ensures DropPunctuation(BrokenUrl) == JoinedUrl
  {
    BrokenUrlParts();
    DropPunctuationConcat(UrlHead, UrlMark + UrlTail);
    DropPunctuationConcat(UrlMark, UrlTail);
    DropPunctuationKept(UrlHead);
    DropPunctuationKept(UrlTail);
    UrlMarkDropped();
  }

  lemma UrlMarkDropped()
    ensures DropPunctuation(UrlMark) == []
  {
    BrokenUrlParts();
    assert UrlMark[1..] == [];
  }

  lemma JoinedUrlLower()
    ensures Lower(JoinedUrl) == JoinedUrl
  {
    LowerIs(JoinedUrl, JoinedUrl);
  }

  /** The mark hides `http` from pass 1; pass 2 then joins it up. */
  lemma BrokenUrlJoins()
    ensures CleanText(BrokenUrl) == JoinedUrl
  {
    BrokenUrlPass1();
    BrokenUrlPass2();
    JoinedUrlLower();
    CleanTextSteps(BrokenUrl, BrokenUrl, JoinedUrl, JoinedUrl);
  }

  lemma JoinedUrlVanishes()
    ensures CleanText(JoinedUrl) == ""
  {
    UrlCleansAway(JoinedUrl);
  }

  /** A second way cleaning fails to be idempotent: `ht!tpx` cleans to
      `httpx`, which cleans to the empty text. */
  lemma CleanTextNotIdempotentBroken()
    ensures CleanText(BrokenUrl) == JoinedUrl && CleanText(JoinedUrl) == ""
  {
    BrokenUrlJoins();
    JoinedUrlVanishes();
  }
}
