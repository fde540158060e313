/** The relevance scorer, `calculate_enhanced_relevance_score`
    (reddit.py:156-215): additive bonuses for the keyword in the title and the
    content, per-term bonuses for SEO and course vocabulary, a one-off bonus for
    question context, the promotional penalty and the cap at 1.0. The score is
    an exact `real`. */
module Relevance {
  import opened Text
  import opened Lexicon
  import Promotion

  /** Vocabulary rewarded when the keyword contains "seo" (reddit.py:179-184). */
  const SeoTerms: seq<string> := [
    "search engine optimization", "digital marketing", "google ranking",
    "website traffic", "keyword research", "backlinks", "optimization",
    "ranking", "search engine", "google", "marketing", "traffic",
    "organic", "serp", "meta", "analytics"
  ]

  /** Vocabulary rewarded when the keyword contains "course" (reddit.py:190-194). */
  const CourseTerms: seq<string> := [
    "tutorial", "learn", "training", "education", "class", "lesson",
    "certification", "certificate", "program", "bootcamp", "academy",
    "instructor", "teacher", "beginner", "advanced", "online learning"
  ]

  /** Phrases of someone asking where to learn (reddit.py:200-204). */
  const QuestionContexts: seq<string> := [
    "best course", "recommend course", "good course", "which course",
    "course recommendation", "learning", "study", "beginner",
    "start with", "where to learn", "how to learn"
  ]

  const TitleMatchBonus: real := 0.5
  const TitleWordBonus: real := 0.2
  const ContentMatchBonus: real := 0.3
  const TermBonus: real := 0.15
  const ContextBonus: real := 0.2
  const PromoPenalty: real := 0.3
  const MaxScore: real := 1.0

  /** `keyword_lower in word or word in keyword_lower`. */
  predicate Related(word: string, keywordLower: string) {
    Contains(word, keywordLower) || Contains(keywordLower, word)
  }

  /** `any(... for word in title_words)`. */
  function AnyRelated(words: seq<string>, keywordLower: string): (b: bool)
    ensures b <==> exists j :: 0 <= j < |words| && Related(words[j], keywordLower)
  {
    if words == [] then false
    else Related(words[0], keywordLower) || AnyRelated(words[1..], keywordLower)
  }

  /** +0.5 for the keyword in the title, and +0.2 more when some title word and
      the keyword contain one another. */
  function TitleScore(titleLower: string, keywordLower: string): real {
    if Contains(titleLower, keywordLower) then
      TitleMatchBonus + (if AnyRelated(Words(titleLower), keywordLower) then TitleWordBonus else 0.0)
    else 0.0
  }

  /** +0.3 for the keyword in the content. */
  function ContentScore(contentLower: string, keywordLower: string): real {
    if Contains(contentLower, keywordLower) then ContentMatchBonus else 0.0
  }

  /** +0.15 for every term of `terms` found in the post text, provided the
      keyword contains `trigger`; nothing otherwise. */
  function LexiconScore(keywordLower: string, trigger: string, terms: seq<string>, fullText: string): real {
    if Contains(keywordLower, trigger) then TermBonus * CountIn(terms, fullText) as real else 0.0
  }

  /** +0.2 once when any question-context phrase occurs. */
  function ContextScore(fullText: string): real {
    if AnyIn(QuestionContexts, fullText) then ContextBonus else 0.0
  }

  /** The score before the promotional penalty and the cap. */
  function RawScore(title: string, content: string, keyword: string): real {
    var kl, tl, cl := Lower(keyword), Lower(title), Lower(content);
    var fullText := Promotion.PostText(title, content);
    TitleScore(tl, kl) + ContentScore(cl, kl)
      + LexiconScore(kl, "seo", SeoTerms, fullText)
      + LexiconScore(kl, "course", CourseTerms, fullText)
      + ContextScore(fullText)
  }

  /** The final score: the promotional penalty is applied to the sum of all
      bonuses, and the result is then capped at 1.0. */
  function Score(title: string, content: string, keyword: string): real {
    var raw := RawScore(title, content, keyword);
    var penalized := if Promotion.Promotional(title, content) then raw * PromoPenalty else raw;
    if penalized <= MaxScore then penalized else MaxScore
  }

  /** `calculate_enhanced_relevance_score(title, content, keyword)`. */
  method CalculateEnhancedRelevanceScore(title: string, content: string, keyword: string)
    returns (score: real)
    ensures score == Score(title, content, keyword)
    ensures 0.0 <= score <= MaxScore
  {
    var keywordLower := Lower(keyword);
    var titleLower := Lower(title);
    var contentLower := Lower(content);
    var fullText := titleLower + " " + contentLower;
    FullTextIsPostText(title, content);

    score := 0.0;
    if Contains(titleLower, keywordLower) {
      score := score + TitleMatchBonus;
      var titleWords := Words(titleLower);
      if AnyRelated(titleWords, keywordLower) {
        score := score + TitleWordBonus;
      }
    }
    if Contains(contentLower, keywordLower) {
      score := score + ContentMatchBonus;
    }

    if Contains(keywordLower, "seo") {
      score := AddTermBonuses(score, SeoTerms, fullText);
    }
    if Contains(keywordLower, "course") {
      score := AddTermBonuses(score, CourseTerms, fullText);
    }
    score := AddContextBonus(score, fullText);
    assert score == RawScore(title, content, keyword);

    var promotional := Promotion.IsPromotionalContent(title, content);
    if promotional {
      score := score * PromoPenalty;
    }
    score := if score <= MaxScore then score else MaxScore;
  }

  /** The loop adding 0.15 to the score for every term found in the text. */
  method AddTermBonuses(score0: real, terms: seq<string>, fullText: string) returns (score: real)
    ensures score == score0 + TermBonus * CountIn(terms, fullText) as real
  {
    score := score0;
    for i := 0 to |terms|
      invariant score == score0 + TermBonus * CountIn(terms[..i], fullText) as real
    {
      CountStep(terms, i, fullText);
      if Contains(fullText, terms[i]) {
        score := score + TermBonus;
      }
    }
    assert terms[..|terms|] == terms;
  }

  /** The loop adding 0.2 to the score at the first question-context phrase
      found, and stopping there. */
  method AddContextBonus(score0: real, fullText: string) returns (score: real)
    ensures score == score0 + ContextScore(fullText)
  {
    score := score0;
    for i := 0 to |QuestionContexts|
      invariant score == score0 && !AnyIn(QuestionContexts[..i], fullText)
    {
      AnyStep(QuestionContexts, i, fullText);
      if Contains(fullText, QuestionContexts[i]) {
        score := score + ContextBonus;
        return;
      }
    }
    assert QuestionContexts[..|QuestionContexts|] == QuestionContexts;
  }

  /** The text the lexicons are matched against is the promotional detector's text. */
  lemma FullTextIsPostText(title: string, content: string)
    ensures Lower(title) + " " + Lower(content) == Promotion.PostText(title, content)
  {
    calc {
      Promotion.PostText(title, content);
      Lower(title + " " + content);
      { LowerAppend(title + " ", content); }
      Lower(title + " ") + Lower(content);
      { LowerAppend(title, " "); }
      Lower(title) + Lower(" ") + Lower(content);
      { assert Lower(" ") == " "; }
      Lower(title) + " " + Lower(content);
    }
  }

  /** The score lies in [0, 1]: every bonus is non-negative, the penalty is a
      positive factor, and the cap bounds it from above. */
  lemma ScoreInUnitInterval(title: string, content: string, keyword: string)
    ensures 0.0 <= Score(title, content, keyword) <= 1.0
  {
  }

  /** The vocabulary lists have no repeated entries. */
  lemma TermListsDistinct()
    ensures Distinct(SeoTerms) && Distinct(CourseTerms) && Distinct(QuestionContexts)
  {
    SeoTermsDistinct();
    CourseTermsDistinct();
    QuestionContextsDistinct();
  }

  lemma SeoTermsDistinct()
    ensures Distinct(SeoTerms)
  {
  }

  lemma CourseTermsDistinct()
    ensures Distinct(CourseTerms)
  {
  }

  lemma QuestionContextsDistinct()
    ensures Distinct(QuestionContexts)
  {
  }

  /** The SEO and course bonuses: nothing unless the keyword contains "seo"
      (resp. "course"), and otherwise 0.15 for each distinct term present,
      however often it occurs. */
  lemma LexiconBonusPerDistinctTerm(title: string, content: string, keyword: string)
    ensures var kl, text := Lower(keyword), Promotion.PostText(title, content);
      && LexiconScore(kl, "seo", SeoTerms, text)
           == (if Contains(kl, "seo") then TermBonus * |Matched(SeoTerms, text)| as real else 0.0)
      && LexiconScore(kl, "course", CourseTerms, text)
           == (if Contains(kl, "course") then TermBonus * |Matched(CourseTerms, text)| as real else 0.0)
  {
    var text := Promotion.PostText(title, content);
    TermListsDistinct();
    CountIsMatched(SeoTerms, text);
    CountIsMatched(CourseTerms, text);
  }

  /** The question-context bonus is 0.2 or nothing, however many context
      phrases occur. */
  lemma ContextBonusAtMostOnce(fullText: string)
    ensures ContextScore(fullText) == 0.0 || ContextScore(fullText) == ContextBonus
    ensures ContextScore(fullText) == ContextBonus <==> CountIn(QuestionContexts, fullText) >= 1
  {
    AnyIffCount(QuestionContexts, fullText);
  }

  /** The penalty comes after every bonus and before the cap: a promotional post
      scores 0.3 times its whole bonus sum up to 1.0, a non-promotional one its
      bonus sum up to 1.0. */
  lemma PenaltyAfterBonuses(title: string, content: string, keyword: string)
    ensures Promotion.Promotional(title, content) ==>
      Score(title, content, keyword)
        == (if PromoPenalty * RawScore(title, content, keyword) <= 1.0
            then PromoPenalty * RawScore(title, content, keyword) else 1.0)
    ensures !Promotion.Promotional(title, content) ==>
      Score(title, content, keyword) == if RawScore(title, content, keyword) <= 1.0 then RawScore(title, content, keyword) else 1.0
  {
  }

  /** A non-promotional post whose title contains the keyword scores at least 0.5. */
  lemma KeywordInTitleScoresHalf(title: string, content: string, keyword: string)
    requires Contains(Lower(title), Lower(keyword))
    requires !Promotion.Promotional(title, content)
    ensures Score(title, content, keyword) >= TitleMatchBonus
  {
  }

  /** A post that mentions the keyword in neither title nor content, for a
      keyword without "seo" or "course", can only earn the context bonus: it
      scores at most 0.2, below the default threshold of 0.3. */
  lemma UnrelatedPostScoresLow(title: string, content: string, keyword: string)
    requires !Contains(Lower(title), Lower(keyword)) && !Contains(Lower(content), Lower(keyword))
    requires !Contains(Lower(keyword), "seo") && !Contains(Lower(keyword), "course")
    ensures Score(title, content, keyword) <= ContextBonus
  {
  }

  /** A keyword of one word (non-empty, no whitespace) found in the title lies
      inside one of the title's words, so it earns the title-word bonus too:
      a title score of 0.7. */
  lemma SingleWordKeywordInTitle(titleLower: string, keywordLower: string)
    requires keywordLower != [] && forall i :: 0 <= i < |keywordLower| ==> !IsSpace(keywordLower[i])
    requires Contains(titleLower, keywordLower)
    ensures TitleScore(titleLower, keywordLower) == TitleMatchBonus + TitleWordBonus
  {
    var j := WordContaining(titleLower, keywordLower);
    assert Related(Words(titleLower)[j], keywordLower);
  }
}
