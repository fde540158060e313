/** The question detector, `is_genuine_question` (reddit.py:139-153): a post is a
    genuine question when its lowercased `"title content"` contains any question,
    help or seeking phrase. */
module Question {
  import opened Text
  import opened Lexicon
  import Promotion

  /** The question mark and the interrogative words (reddit.py:144). */
  const QuestionWords: seq<string> := ["?", "how", "what", "why", "which", "where", "when", "who"]

  /** Words that ask for help (reddit.py:145). */
  const HelpWords: seq<string> := ["help", "advice", "recommend", "suggest", "opinion", "thoughts"]

  /** Phrases of someone looking for something (reddit.py:146). */
  const SeekingWords: seq<string> := ["looking for", "need", "want", "seeking", "trying to find"]

  /** The three lists together. */
  const QuestionPhrases: seq<string> := QuestionWords + HelpWords + SeekingWords

  /** `any` over two lists one after the other. */
  lemma {:induction false} AnyAppend(a: seq<string>, b: seq<string>, text: string)
    ensures AnyIn(a + b, text) == (AnyIn(a, text) || AnyIn(b, text))
  {
    if a != [] {
      assert (a + b)[1..] == a[1..] + b;
      AnyAppend(a[1..], b, text);
    } else {
      assert a + b == b;
    }
  }

  /** `is_genuine_question(title, content)`: some phrase of the three lists occurs
      in the lowercased post text. */
  function IsGenuineQuestion(title: string, content: string): (r: bool)
    ensures r <==> exists i :: 0 <= i < |QuestionPhrases|
                     && Contains(Promotion.PostText(title, content), QuestionPhrases[i])
  {
    var text := Promotion.PostText(title, content);
    var hasQuestionWord := AnyIn(QuestionWords, text);
    var hasHelpWord := AnyIn(HelpWords, text);
    var hasSeekingWord := AnyIn(SeekingWords, text);
    AnyAppend(QuestionWords, HelpWords, text);
    AnyAppend(QuestionWords + HelpWords, SeekingWords, text);
    hasQuestionWord || hasHelpWord || hasSeekingWord
  }

  /** A title containing a question mark always makes the post a question,
      whatever the content. */
  lemma QuestionMarkInTitle(title: string, content: string)
    requires '?' in title
    ensures IsGenuineQuestion(title, content)
  {
    var s := title + " " + content;
    var i :| 0 <= i < |title| && title[i] == '?';
    assert s[i] == '?';
    var text := Lower(s);
    assert text[i..i + 1] == "?";
    ContainsAt(text, "?", i);
    assert QuestionPhrases[0] == "?";
  }

  /** Appending text to the content never turns a question into a non-question. */
  lemma QuestionMonotone(title: string, content: string, more: string)
    requires IsGenuineQuestion(title, content)
    ensures IsGenuineQuestion(title, content + more)
  {
    var t := Promotion.PostText(title, content);
    Promotion.PostTextAppend(title, content, more);
    var i :| 0 <= i < |QuestionPhrases| && Contains(t, QuestionPhrases[i]);
    ContainsAppend(t, Lower(more), QuestionPhrases[i]);
  }

  /** A phrase with a character the text lacks does not occur in it. */
  lemma AbsentChar(s: string, p: string, c: char)
    requires c in p && c !in s
    ensures !Contains(s, p)
  {
    ContainsIff(s, p);
  }

  /** A phrase whose first character occurs in the text only too late to fit
      does not occur in it. */
  lemma StartsTooLate(s: string, p: string)
    requires p != []
    requires forall i :: 0 <= i < |s| && s[i] == p[0] ==> i + |p| > |s|
    ensures !Contains(s, p)
  {
    ContainsIff(s, p);
  }

  /** "How do I fix this?" is a question. */
  lemma HowQuestionExample()
    ensures IsGenuineQuestion("How do I fix this?", "")
  {
    QuestionMarkInTitle("How do I fix this?", "");
  }

  /** The lowercased text of a post "Great deal!!!" with content "buy now". */
  const DealText: string := "great deal!!! buy now"

  lemma DealHasNoQuestionWord()
    ensures forall i :: 0 <= i < |QuestionWords| ==> !Contains(DealText, QuestionWords[i])
  {
    forall i | 0 <= i < |QuestionWords| ensures !Contains(DealText, QuestionWords[i]) {
      if i == 0 { assert QuestionWords[i] == "?"; AbsentChar(DealText, "?", '?'); }
      else if i == 1 { assert QuestionWords[i] == "how"; AbsentChar(DealText, "how", 'h'); }
      else if i == 2 { assert QuestionWords[i] == "what"; AbsentChar(DealText, "what", 'h'); }
      else if i == 3 { assert QuestionWords[i] == "why"; AbsentChar(DealText, "why", 'h'); }
      else if i == 4 { assert QuestionWords[i] == "which"; AbsentChar(DealText, "which", 'h'); }
      else if i == 5 { assert QuestionWords[i] == "where"; AbsentChar(DealText, "where", 'h'); }
      else if i == 6 { assert QuestionWords[i] == "when"; AbsentChar(DealText, "when", 'h'); }
      else { assert QuestionWords[i] == "who"; AbsentChar(DealText, "who", 'h'); }
    }
  }

  lemma DealHasNoHelpWord()
    ensures forall i :: 0 <= i < |HelpWords| ==> !Contains(DealText, HelpWords[i])
  {
    forall i | 0 <= i < |HelpWords| ensures !Contains(DealText, HelpWords[i]) {
      if i == 0 { assert HelpWords[i] == "help"; AbsentChar(DealText, "help", 'h'); }
      else if i == 1 { assert HelpWords[i] == "advice"; AbsentChar(DealText, "advice", 'i'); }
      else if i == 2 { assert HelpWords[i] == "recommend"; AbsentChar(DealText, "recommend", 'c'); }
      else if i == 3 { assert HelpWords[i] == "suggest"; AbsentChar(DealText, "suggest", 's'); }
      else if i == 4 { assert HelpWords[i] == "opinion"; AbsentChar(DealText, "opinion", 'i'); }
      else { assert HelpWords[i] == "thoughts"; AbsentChar(DealText, "thoughts", 'h'); }
    }
  }

  lemma DealHasNoSeekingWord()
    ensures forall i :: 0 <= i < |SeekingWords| ==> !Contains(DealText, SeekingWords[i])
  {
    forall i | 0 <= i < |SeekingWords| ensures !Contains(DealText, SeekingWords[i]) {
      if i == 0 { assert SeekingWords[i] == "looking for"; AbsentChar(DealText, "looking for", 'k'); }
      else if i == 1 { assert SeekingWords[i] == "need"; StartsTooLate(DealText, "need"); }
      else if i == 2 { assert SeekingWords[i] == "want"; StartsTooLate(DealText, "want"); }
      else if i == 3 { assert SeekingWords[i] == "seeking"; AbsentChar(DealText, "seeking", 's'); }
      else { assert SeekingWords[i] == "trying to find"; AbsentChar(DealText, "trying to find", 'i'); }
    }
  }

  /** A post whose lowercased text is "great deal!!! buy now" (the title
      "Great deal!!!" with the content "buy now", say) is not a question: it
      has no question mark and none of the listed words or phrases. */
  lemma DealIsNoQuestionExample(title: string, content: string)
    requires Promotion.PostText(title, content) == DealText
    ensures !IsGenuineQuestion(title, content)
  {
    DealHasNoQuestionWord();
    DealHasNoHelpWord();
    DealHasNoSeekingWord();
    forall i | 0 <= i < |QuestionPhrases| ensures !Contains(DealText, QuestionPhrases[i]) {
      if i < 8 { assert QuestionPhrases[i] == QuestionWords[i]; }
      else if i < 14 { assert QuestionPhrases[i] == HelpWords[i - 8]; }
      else { assert QuestionPhrases[i] == SeekingWords[i - 14]; }
    }
  }

  /** The post titled "Great deal!!!" with the content "buy now" is not a question. */
  lemma DealLiteral()
    ensures !IsGenuineQuestion("Great deal!!!", "buy now")
  {
    var text := "Great deal!!!" + " " + "buy now";
    var l := Lower(text);
    assert |l| == |DealText|;
    forall i | 0 <= i < |l| ensures l[i] == DealText[i] {
      if i > 0 { assert !('A' <= text[i] <= 'Z'); }
    }
    assert l == DealText;
    DealIsNoQuestionExample("Great deal!!!", "buy now");
  }
}
