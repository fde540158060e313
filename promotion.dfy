/** The promotional/spam detector, `is_promotional_content` (reddit.py:108-136):
    the lowercased `"title content"` is scored by how many entries of two fixed
    lexicons occur in it, and is promotional from two matches on. */
module Promotion {
  import opened Text
  import opened Lexicon

  /** Phrases typical of advertising and self-promotion (reddit.py:113-120). */
  const PromoIndicators: seq<string> := [
    "watch the video", "tutorial below", "link in bio", "dm me", "check out",
    "affiliate", "sponsored", "promotion", "advertisement", "buy now",
    "limited time", "special offer", "discount", "sale", "deal",
    "click here", "subscribe", "follow me", "my channel", "my course",
    "will change everything", "secret method", "exposed", "truth about",
    "nobody talks about", "revolutionary", "game changer"
  ]

  /** URL fragments of link shorteners and video hosts (reddit.py:123-125). */
  const UrlPatterns: seq<string> := [
    "youtube.com", "youtu.be", "bit.ly", "tinyurl.com", "goo.gl"
  ]

  /** Both lexicons, in the order the detector scans them. */
  const AllIndicators: seq<string> := PromoIndicators + UrlPatterns

  /** The threshold: two indicators make a post promotional. */
  const PromoThreshold: nat := 2

  /** The text the detector examines: `f"{title} {content}".lower()`. */
  function PostText(title: string, content: string): string {
    Lower(title + " " + content)
  }

  /** `promo_score` after both loops: one point per indicator or URL fragment found. */
  function PromoScore(text: string): (n: nat)
    ensures n <= |PromoIndicators| + |UrlPatterns| == 32
  {
    CountIn(PromoIndicators, text) + CountIn(UrlPatterns, text)
  }

  /** Specification of the detector's verdict. */
  predicate Promotional(title: string, content: string) {
    PromoScore(PostText(title, content)) >= PromoThreshold
  }

  /** `is_promotional_content(title, content)`: the two counting loops, then the
      threshold. Equivalently, at least two different lexicon entries occur. */
  method IsPromotionalContent(title: string, content: string) returns (r: bool)
    ensures r == Promotional(title, content)
    ensures r <==> |Matched(AllIndicators, PostText(title, content))| >= 2
  {
    var text := PostText(title, content);
    var promoScore := 0;
    for i := 0 to |PromoIndicators|
      invariant promoScore == CountIn(PromoIndicators[..i], text)
    {
      CountStep(PromoIndicators, i, text);
      if Contains(text, PromoIndicators[i]) {
        promoScore := promoScore + 1;
      }
    }
    assert PromoIndicators[..|PromoIndicators|] == PromoIndicators;
    for i := 0 to |UrlPatterns|
      invariant promoScore == CountIn(PromoIndicators, text) + CountIn(UrlPatterns[..i], text)
    {
      CountStep(UrlPatterns, i, text);
      if Contains(text, UrlPatterns[i]) {
        promoScore := promoScore + 1;
      }
    }
    assert UrlPatterns[..|UrlPatterns|] == UrlPatterns;
    r := promoScore >= PromoThreshold;
    ScoreIsDistinctMatches(text);
  }

  /** No phrase appears twice across the two lexicons. */
  lemma IndicatorsDistinct()
    ensures Distinct(AllIndicators)
  {
    PromoIndicatorsDistinct();
    UrlPatternsDistinct();
    NoIndicatorIsUrl();
    DistinctAppend(PromoIndicators, UrlPatterns);
  }

  lemma PromoIndicatorsDistinct()
    ensures Distinct(PromoIndicators)
  {
    IndicatorWindowNotRepeated(0);
    IndicatorWindowNotRepeated(9);
    IndicatorWindowNotRepeated(18);
    DistinctInBlocks(PromoIndicators, 9, 18);
  }

  /** Nine consecutive indicators, none of them listed again later. */
  lemma IndicatorWindowNotRepeated(lo: nat)
    ensures DistinctFrom(PromoIndicators, lo, lo + 9)
  {
  }

  lemma UrlPatternsDistinct()
    ensures Distinct(UrlPatterns)
  {
  }

  lemma NoIndicatorIsUrl()
    ensures forall i, j :: 0 <= i < |PromoIndicators| && 0 <= j < |UrlPatterns| ==> PromoIndicators[i] != UrlPatterns[j]
  {
  }

  /** The score counts distinct indicators present in the text: an indicator
      occurring several times scores one point. */
  lemma ScoreIsDistinctMatches(text: string)
    ensures PromoScore(text) == |Matched(AllIndicators, text)|
  {
    CountAppend(PromoIndicators, UrlPatterns, text);
    IndicatorsDistinct();
    CountIsMatched(AllIndicators, text);
  }

  /** A post is promotional exactly when two different indicators occur in its
      text; so a single indicator, however often repeated, is not enough. */
  lemma PromotionalIffTwoIndicators(title: string, content: string)
    ensures Promotional(title, content) <==>
      exists p, q :: p in AllIndicators && q in AllIndicators && p != q
        && Contains(PostText(title, content), p) && Contains(PostText(title, content), q)
  {
    var text := PostText(title, content);
    ScoreIsDistinctMatches(text);
    TwoMatched(AllIndicators, text);
  }

  /** Appending text to the content never turns a promotional post into a
      non-promotional one: the score is monotone in the text. */
  lemma PromoScoreMonotone(title: string, content: string, more: string)
    ensures PromoScore(PostText(title, content)) <= PromoScore(PostText(title, content + more))
    ensures Promotional(title, content) ==> Promotional(title, content + more)
  {
    var t := PostText(title, content);
    PostTextAppend(title, content, more);
    CountGrowsWithText(PromoIndicators, t, Lower(more));
    CountGrowsWithText(UrlPatterns, t, Lower(more));
  }

  /** Appending to the content appends its lowercase to the post text. */
  lemma PostTextAppend(title: string, content: string, more: string)
    ensures PostText(title, content + more) == PostText(title, content) + Lower(more)
  {
    assert title + " " + (content + more) == (title + " " + content) + more;
    LowerAppend(title + " " + content, more);
  }
}
