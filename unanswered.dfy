/** The unanswered classifier, `is_unanswered_enhanced` (reddit.py:218-248):
    a threshold table on the comment count and, for threads with few
    comments, a count of meaningful comments among the first few. Fetching
    the comments is an API call; its outcome is part of the input. */
module Unanswered {
  import opened Wrappers
  import opened Text
  import CommentQuality

  /** The comment side of a submission as the classifier sees it.
      `comments` is `submission.comments` after one level of "load more"
      expansion: `Some(body)` for a comment, `None` for an entry without a
      body (a remaining "load more" stub, or a missing body). `fetchFailed`
      says that fetching or expanding the comments raised (the inner
      `except`); `outerFailed` that reading the submission raised at the
      start (the outer `except`). */
  datatype Thread = Thread(
    numComments: nat,
    comments: seq<Option<string>>,
    fetchFailed: bool,
    outerFailed: bool)

  /** `comment.lower().startswith(('[deleted]', '[removed]'))`; both markers
      have nine characters, so a shorter body is never one. */
  predicate IsRemoved(body: string): (r: bool)
    ensures r ==> |body| >= 9
  {
    StartsWith(Lower(body), "[deleted]") || StartsWith(Lower(body), "[removed]")
  }

  /** The markers are recognised whatever their case: a body starting with
      "[DELETED]" or with "[Removed]" is a removed comment. */
  lemma MarkersInAnyCase(body: string)
    ensures StartsWith(body, "[DELETED]") ==> IsRemoved(body)
    ensures StartsWith(body, "[Removed]") ==> IsRemoved(body)
  {
    var l := Lower(body);
    if StartsWith(body, "[DELETED]") {
      forall i | 0 <= i < 9 ensures l[i] == "[deleted]"[i] {
        assert body[i] == "[DELETED]"[i];
      }
      assert l[..9] == "[deleted]";
    }
    if StartsWith(body, "[Removed]") {
      forall i | 0 <= i < 9 ensures l[i] == "[removed]"[i] {
        assert body[i] == "[Removed]"[i];
      }
      assert l[..9] == "[removed]";
    }
  }

  /** A comment that counts towards "answered": it has a non-empty body that
      is not a deletion marker and passes the quality filter. */
  predicate Counts(c: Option<string>): (r: bool)
    ensures r ==> c.Some? && |Strip(c.value)| >= CommentQuality.MinLength
                  && CommentQuality.WordCount(c.value) >= CommentQuality.MinWords
    ensures c.Some? && IsRemoved(c.value) ==> !r
  {
    c.Some? && c.value != [] && !IsRemoved(c.value) && CommentQuality.IsMeaningfulComment(c.value)
  }

  /** Number of counting comments, defined from the end so that a loop over
      prefixes extends it one comment at a time. */
  function MeaningfulCount(cs: seq<Option<string>>): (n: nat)
    ensures n <= |cs|
  {
    if cs == [] then 0
    else MeaningfulCount(cs[..|cs| - 1]) + (if Counts(cs[|cs| - 1]) then 1 else 0)
  }

  /** `submission.comments[:max_comments + 2]`. */
  function Window(cs: seq<Option<string>>, maxComments: nat): (w: seq<Option<string>>)
    ensures |w| <= |cs| && |w| <= maxComments + 2 && w == cs[..|w|]
    ensures |cs| >= maxComments + 2 ==> |w| == maxComments + 2
    ensures |cs| <= maxComments + 2 ==> w == cs
  {
    if |cs| <= maxComments + 2 then cs else cs[..maxComments + 2]
  }

  /** The classifier's verdict, with the early `return False` of the loop
      replaced by a count over the whole window. */
  predicate IsUnanswered(t: Thread, maxComments: int) {
    if t.outerFailed then t.numComments <= maxComments
    else if t.numComments == 0 then true
    else if t.numComments > maxComments * 2 then false
    else if t.numComments <= maxComments then
      t.fetchFailed || MeaningfulCount(Window(t.comments, maxComments)) <= maxComments / 2
    else false
  }

  lemma MeaningfulStep(cs: seq<Option<string>>, i: nat)
    requires i < |cs|
    ensures MeaningfulCount(cs[..i + 1]) == MeaningfulCount(cs[..i]) + (if Counts(cs[i]) then 1 else 0)
  {
    assert cs[..i + 1][..i] == cs[..i];
  }

  /** Counting a prefix never finds more than counting the whole. */
  lemma {:induction false} MeaningfulPrefix(cs: seq<Option<string>>, i: nat)
    requires i <= |cs|
    ensures MeaningfulCount(cs[..i]) <= MeaningfulCount(cs)
    decreases |cs|
  {
    if i < |cs| {
      assert cs[..|cs| - 1][..i] == cs[..i];
      MeaningfulPrefix(cs[..|cs| - 1], i);
    } else {
      assert cs[..i] == cs;
    }
  }

  /** `is_unanswered_enhanced(submission, max_comments)`: the loop stops at the
      first meaningful comment that takes the count above `max_comments // 2`,
      and gives the verdict of counting the whole window. */
  method IsUnansweredEnhanced(t: Thread, maxComments: int) returns (r: bool)
    ensures r == IsUnanswered(t, maxComments)
  {
    if t.outerFailed {
      return t.numComments <= maxComments;
    }
    if t.numComments == 0 {
      return true;
    }
    if t.numComments > maxComments * 2 {
      return false;
    }
    if t.numComments <= maxComments {
      if t.fetchFailed {
        return true;
      }
      var answered := EnoughMeaningful(Window(t.comments, maxComments), maxComments);
      return !answered;
    }
    return false;
  }

  /** The comment loop of the classifier: it counts meaningful comments and
      stops at the first one that takes the count above `max_comments // 2`.
      It reports whether it stopped there, which needs at least one meaningful
      comment even when the threshold is negative. */
  method EnoughMeaningful(window: seq<Option<string>>, maxComments: int) returns (answered: bool)
    ensures answered <==> MeaningfulCount(window) > 0 && MeaningfulCount(window) > maxComments / 2
  {
    var half := maxComments / 2;
    var meaningfulComments := 0;
    for i := 0 to |window|
      invariant meaningfulComments == MeaningfulCount(window[..i])
      invariant meaningfulComments == 0 || meaningfulComments <= half
    {
      MeaningfulStep(window, i);
      var comment := window[i];
      if comment.Some? && comment.value != [] {
        if !IsRemoved(comment.value) {
          if CommentQuality.IsMeaningfulComment(comment.value) {
            assert Counts(comment);
            meaningfulComments := meaningfulComments + 1;
            if meaningfulComments > half {
              MeaningfulPrefix(window, i + 1);
              return true;
            }
          }
        }
      }
      assert meaningfulComments == MeaningfulCount(window[..i]) + (if Counts(comment) then 1 else 0);
    }
    assert window[..|window|] == window;
    return false;
  }

  /** The threshold table of the classifier. */
  lemma DecisionTable(t: Thread, maxComments: int)
    requires !t.outerFailed
    ensures t.numComments == 0 ==> IsUnanswered(t, maxComments)
    ensures t.numComments > 0 && t.numComments > 2 * maxComments ==> !IsUnanswered(t, maxComments)
    ensures t.numComments > 0 && maxComments < t.numComments <= 2 * maxComments ==> !IsUnanswered(t, maxComments)
    ensures 0 < t.numComments <= maxComments && t.fetchFailed ==> IsUnanswered(t, maxComments)
  {
  }

  /** On an outer failure the verdict degrades to the plain threshold. */
  lemma OuterFailureThreshold(t: Thread, maxComments: int)
    requires t.outerFailed
    ensures IsUnanswered(t, maxComments) <==> t.numComments <= maxComments
  {
  }

  /** With few comments and no failure, a post is answered exactly when more
      than `max_comments // 2` of the first `max_comments + 2` comments count.
      In particular it needs that many comments to be answered at all. */
  lemma FewCommentsRule(t: Thread, maxComments: int)
    requires !t.outerFailed && !t.fetchFailed && 0 < t.numComments <= maxComments
    ensures !IsUnanswered(t, maxComments) <==>
      MeaningfulCount(Window(t.comments, maxComments)) > maxComments / 2
    ensures !IsUnanswered(t, maxComments) ==> |t.comments| > maxComments / 2
  {
  }

  /** Only the first `max_comments + 2` comments matter: comments beyond them
      never change the verdict. */
  lemma OnlyWindowMatters(t: Thread, more: seq<Option<string>>, maxComments: int)
    requires maxComments >= 0 && |t.comments| >= maxComments + 2
    ensures IsUnanswered(t, maxComments) == IsUnanswered(t.(comments := t.comments + more), maxComments)
  {
    assert (t.comments + more)[..maxComments + 2] == t.comments[..maxComments + 2];
  }

  /** A comment failure only ever biases towards "unanswered": whenever the
      thread is unanswered with its comments fetched, it is also unanswered
      when the fetch fails, and a failed fetch may turn "answered" into
      "unanswered" but never the other way. */
  lemma FailOpen(t: Thread, maxComments: int)
    requires !t.outerFailed
    ensures IsUnanswered(t.(fetchFailed := false), maxComments) ==> IsUnanswered(t.(fetchFailed := true), maxComments)
  {
  }

  /** Deleted, removed or empty comments never count, whatever else the thread holds. */
  lemma {:induction false} RemovedNeverCount(cs: seq<Option<string>>)
    requires forall i :: 0 <= i < |cs| ==> cs[i].None? || cs[i].value == [] || IsRemoved(cs[i].value)
    ensures MeaningfulCount(cs) == 0
  {
    if cs != [] { RemovedNeverCount(cs[..|cs| - 1]); }
  }

  /** Against a threshold of five, a thread with a few comments of which at
      most two came back (one "thanks" and one detailed reply, say) is
      unanswered: even if both counted, two does not exceed `5 // 2`. */
  lemma TwoRepliesStayUnanswered(t: Thread)
    requires !t.outerFailed && 0 < t.numComments <= 5 && |t.comments| <= 2
    ensures IsUnanswered(t, 5)
  {
    assert Window(t.comments, 5) == t.comments;
  }

  /** Against a threshold of five: a thread without comments is unanswered, one
      with eleven comments (more than twice five) is answered. */
  lemma ThresholdExamples(t: Thread)
    requires !t.outerFailed
    ensures t.numComments == 0 ==> IsUnanswered(t, 5)
    ensures t.numComments == 11 ==> !IsUnanswered(t, 5)
  {
  }
}
