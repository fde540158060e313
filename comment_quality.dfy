/** The comment quality filter, `is_meaningful_comment` (reddit.py:250-276):
    a comment counts as a real answer when it is long enough, is not a stock
    low-effort reply, has at least five words, and either has twenty words or
    more or uses a phrase that signals help. */
module CommentQuality {
  import opened Text
  import opened Lexicon

  /** Stock replies that carry no answer (reddit.py:258-262). */
  const LowQuality: seq<string> := [
    "thanks", "thank you", "thx", "+1", "same", "this", "agreed",
    "yes", "no", "upvoted", "bump", "following", "interested",
    "me too", "same here", "lol", "nice", "cool", "good luck"
  ]

  /** Phrases that signal a helpful answer (reddit.py:268-271). */
  const MeaningfulIndicators: seq<string> := [
    "recommend", "suggest", "try", "use", "check out", "experience",
    "worked for me", "helped me", "solution", "answer", "result"
  ]

  const MinLength: nat := 15
  const MinWords: nat := 5
  const ManyWords: nat := 20

  /** `len(comment_body.split())`. */
  function WordCount(body: string): nat {
    |Words(body)|
  }

  /** `is_meaningful_comment(comment_body)`; an absent body is the empty string. */
  function IsMeaningfulComment(body: string): (r: bool)
    ensures |Strip(body)| < MinLength ==> !r
    ensures WordCount(body) < MinWords ==> !r
  {
    if body == [] || |Strip(body)| < MinLength then false
    else
      var commentLower := Strip(Lower(body));
      if commentLower in LowQuality then false
      else
        var wordCount := WordCount(body);
        var hasMeaningfulContent := AnyIn(MeaningfulIndicators, commentLower);
        wordCount >= MinWords && (hasMeaningfulContent || wordCount >= ManyWords)
  }

  /** Lowercasing leaves whitespace alone and turns no other character into whitespace. */
  lemma LowerSpace(c: char)
    ensures IsSpace(LowerChar(c)) == IsSpace(c)
  {
  }

  lemma {:induction false} StripLeftLower(s: string)
    ensures StripLeft(Lower(s)) == Lower(StripLeft(s))
  {
    if s != [] {
      LowerSpace(s[0]);
      assert Lower(s)[1..] == Lower(s[1..]);
      if IsSpace(s[0]) { StripLeftLower(s[1..]); }
    }
  }

  lemma {:induction false} StripRightLower(s: string)
    ensures StripRight(Lower(s)) == Lower(StripRight(s))
  {
    if s != [] {
      var n := |s| - 1;
      var l := Lower(s);
      LowerSpace(s[n]);
      assert IsSpace(l[n]) == IsSpace(s[n]);
      if IsSpace(s[n]) {
        LowerPrefix(s, n);
        StripRightLower(s[..n]);
      }
    }
  }

  /** Stripping and lowercasing commute, so the stripped length is the same. */
  lemma StripLowerLength(s: string)
    ensures |Strip(Lower(s))| == |Strip(s)|
  {
    StripLeftLower(s);
    StripRightLower(StripLeft(s));
  }

  /** Every stock reply is shorter than the length threshold. */
  lemma LowQualityAllShort()
    ensures forall i :: 0 <= i < |LowQuality| ==> |LowQuality[i]| < MinLength
  {
  }

  /** The low-quality test never decides the outcome: every phrase of that list
      has fewer than 15 characters, so a comment equal to one after stripping
      was already rejected by the length test. The filter is the length test,
      the five-word minimum and the "twenty words or an indicator" rule. */
  lemma LowQualityTestIsRedundant(body: string)
    ensures IsMeaningfulComment(body) <==>
      |Strip(body)| >= MinLength && WordCount(body) >= MinWords
      && (AnyIn(MeaningfulIndicators, Strip(Lower(body))) || WordCount(body) >= ManyWords)
  {
    StripLowerLength(body);
    LowQualityAllShort();
    var low := Strip(Lower(body));
    if low in LowQuality {
      var i :| 0 <= i < |LowQuality| && LowQuality[i] == low;
    }
  }

  /** A stock reply, after lowercasing and stripping, is never meaningful. */
  lemma LowQualityRejected(body: string)
    ensures Strip(Lower(body)) in LowQuality ==> !IsMeaningfulComment(body)
  {
  }

  /** "thanks" is not a meaningful comment. */
  lemma ThanksExample()
    ensures !IsMeaningfulComment("thanks")
  {
    assert |Strip("thanks")| <= |"thanks"| == 6;
  }

  /** The words of a comment recommending a course: "I recommend trying the
      free Moz course, it really worked for me and covers on-page SEO basics
      well". */
  const MozWords: seq<string> := [
    "I", "recommend", "trying", "the", "free", "Moz", "course,", "it", "really",
    "worked", "for", "me", "and", "covers", "on-page", "SEO", "basics", "well"
  ]

  /** The helpful phrases are written in lower case, so they are matched as given. */
  lemma IndicatorsLowercase()
    ensures forall k, i ::
              0 <= k < |MeaningfulIndicators| && 0 <= i < |MeaningfulIndicators[k]| ==>
              !('A' <= MeaningfulIndicators[k][i] <= 'Z')
  {
  }

  /** A comment of at least five words, at least fifteen characters long, one
      of whose words contains a helpful phrase, is meaningful even with fewer than twenty words. */
  lemma {:induction false} WordsWithIndicator(ws: seq<string>, j: nat, k: nat)
    requires forall n :: 0 <= n < |ws| ==> IsWord(ws[n])
    requires |ws| >= MinWords && |Join(ws)| >= MinLength
    requires j < |ws| && k < |MeaningfulIndicators| && Contains(ws[j], MeaningfulIndicators[k])
    ensures IsMeaningfulComment(Join(ws))
  {
    var s := Join(ws);
    WordsJoin(ws);
    StripJoin(ws);
    JoinContains(ws, j, MeaningfulIndicators[k]);
    IndicatorFound(s, k);
    MeaningfulByIndicator(s);
  }

  /** Unstripped text of fifteen characters or more with five words and a
      helpful phrase is meaningful. */
  lemma MeaningfulByIndicator(s: string)
    requires Strip(s) == s && |s| >= MinLength && WordCount(s) >= MinWords
    requires AnyIn(MeaningfulIndicators, Lower(s))
    ensures IsMeaningfulComment(s)
  {
    StripLowerFixed(s);
    var low := Strip(Lower(s));
    assert AnyIn(MeaningfulIndicators, low);
    LowQualityTestIsRedundant(s);
  }

  /** Text with nothing to strip has nothing to strip once lowercased either. */
  lemma StripLowerFixed(s: string)
    requires Strip(s) == s
    ensures Strip(Lower(s)) == Lower(s)
  {
    StripLeftLower(s);
    StripRightLower(StripLeft(s));
  }

  /** A helpful phrase found in a comment is found in its lowercase. */
  lemma IndicatorFound(s: string, k: nat)
    requires k < |MeaningfulIndicators| && Contains(s, MeaningfulIndicators[k])
    ensures AnyIn(MeaningfulIndicators, Lower(s))
  {
    IndicatorsLowercase();
    LowerOfLowercase(MeaningfulIndicators[k]);
    ContainsLower(s, MeaningfulIndicators[k]);
  }

  /** A comment of eighteen words whose second word is "recommend" is
      meaningful. It has fewer than twenty words, so it passes by the
      indicator, not by its length. */
  lemma RecommendingComment(ws: seq<string>)
    requires forall n :: 0 <= n < |ws| ==> IsWord(ws[n])
    requires |ws| == 18 && ws[1] == MeaningfulIndicators[0]
    ensures WordCount(Join(ws)) == 18 < ManyWords
    ensures IsMeaningfulComment(Join(ws))
  {
    JoinLength(ws);
    WordsJoin(ws);
    assert StartsWith(ws[1], MeaningfulIndicators[0]);
    WordsWithIndicator(ws, 1, 0);
  }

  /** The example comment has that shape. */
  lemma MozWordsShape()
    ensures forall n :: 0 <= n < |MozWords| ==> IsWord(MozWords[n])
    ensures |MozWords| == 18 && MozWords[1] == MeaningfulIndicators[0]
  {
  }

  /** The example comment "I recommend trying the free Moz course, it really
      worked for me and covers on-page SEO basics well", its words joined by
      single spaces, is meaningful, with 18 words. */
  lemma MozExample()
    ensures WordCount(Join(MozWords)) == 18
    ensures IsMeaningfulComment(Join(MozWords))
  {
    MozWordsShape();
    RecommendingComment(MozWords);
  }
}
