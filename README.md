# Reddit unanswered-question finder, modelled in Dafny

The tool searches Reddit for posts that match a keyword. It keeps the posts
that look like genuine, relevant, unanswered questions and ranks them. This
project models the decision logic of `reddit.py` and proves properties of it:

- the promotional/spam detector (`is_promotional_content`);
- the question detector (`is_genuine_question`);
- the relevance scorer (`calculate_enhanced_relevance_score`);
- the comment-quality filter (`is_meaningful_comment`);
- the unanswered classifier (`is_unanswered_enhanced`);
- the body of `search_unanswered_questions_enhanced` after the API calls:
  gathering the results of the two searches, de-duplicating them by
  submission id, the chain of six filters with its early stop at `limit`
  rows, building the result rows with the 400-character truncation, and the
  final sort.

Modules follow those components:

- `Text` models ASCII `lower`, `strip`, `split`, `startswith`, `endswith` and substring `in`.
- `Lexicon` counts how many phrases of a fixed list occur in a text.
- `Promotion`, `Question`, `Relevance`, `CommentQuality` and `Unanswered` model the five classifiers.
- `Search` models the selection and the sort.
- `Wrappers` holds the `Option` type.

The loops of the source are methods with loop invariants. Each is proved equal
to a specification function:

- `IsPromotionalContent` against `Promotional`;
- `CalculateEnhancedRelevanceScore` against `Score`;
- `IsUnansweredEnhanced` against `IsUnanswered`;
- `Dedup` against `Deduplicated`;
- `SelectQuestions` against `Collected`;
- `SortByRank` against `Ranked`.

The lemmas then state what the source promises about those functions.

The Reddit search is a function parameter `search(term, limit)`. It returns
`None` when the call raises. The comment tree of a submission is a
`Unanswered.Thread` value: the comment count, the comment bodies after one
level of "load more" expansion (`None` for an entry without a body), and two
flags. One flag says that fetching the comments raised; the other says that
reading the submission raised.

Relevance scores are exact `real`s, not binary floating point.

One observation concerns `is_meaningful_comment`. Its low-quality phrase test
(reddit.py:264-265) never decides the outcome. Every phrase in that list is
shorter than 15 characters, so the length test has already rejected any
comment equal to one of them (CommentQuality.LowQualityTestIsRedundant). No
output is affected.

## Model

| member | source | states |
|---|---|---|
| Promotion.IsPromotionalContent | reddit.py:108-136 | the two counting loops and the threshold give exactly the specification verdict: the post is promotional iff at least two distinct indicators of the two lexicons occur in the lowercased "title content" |
| Promotion.PromoScore | reddit.py:127-134 | the score after both loops never exceeds 27 + 5 = 32 |
| Promotion.ScoreIsDistinctMatches | reddit.py:127-134 | the score is the number of distinct lexicon entries present; repeated occurrences of one entry count once |
| Promotion.PromotionalIffTwoIndicators | reddit.py:110-136 | promotional iff two different indicators occur in the text, so one indicator, however often repeated, is not enough |
| Promotion.PromoScoreMonotone | reddit.py:110-136 | appending text to the content never lowers the score and never turns a promotional post into a non-promotional one |
| Promotion.PostTextAppend | reddit.py:110 | the lowercased "title content" text of a post whose content is extended is the old text followed by the lowercased extension |
| Promotion.IndicatorsDistinct | reddit.py:113-125 | no phrase is listed twice across the promotional and URL lexicons |
| Question.IsGenuineQuestion | reddit.py:139-153 | true iff some question word, help word or seeking phrase occurs in the lowercased "title content" |
| Question.QuestionMarkInTitle | reddit.py:141-149 | a title containing '?' makes the post a question whatever the content |
| Question.QuestionMonotone | reddit.py:141-153 | appending text to the content never turns a question into a non-question |
| Question.HowQuestionExample | reddit.py:144-153 | "How do I fix this?" with empty content is a question |
| Question.DealIsNoQuestionExample | reddit.py:141-153 | every post whose lowercased "title content" text is "great deal!!! buy now" is not a question |
| Question.DealLiteral | reddit.py:141-153 | the post titled "Great deal!!!" with the content "buy now" is not a question |
| Relevance.CalculateEnhancedRelevanceScore | reddit.py:156-215 | the method computes the specification score, and the score lies in [0, 1] |
| Relevance.AddTermBonuses | reddit.py:185-197 | the lexicon loop adds 0.15 per lexicon entry found in the text |
| Relevance.AddContextBonus | reddit.py:206-209 | the loop with `break` adds 0.2 iff some question-context phrase occurs, and 0 otherwise |
| Relevance.AnyRelated | reddit.py:169-170 | true iff some title word contains the keyword or is contained in it |
| Relevance.FullTextIsPostText | reddit.py:161 | the scorer's full text equals the text the promotional detector lowercases |
| Relevance.ScoreInUnitInterval | reddit.py:163-215 | every score lies between 0 and 1 inclusive |
| Relevance.TermListsDistinct | reddit.py:179-204 | the SEO, course and question-context lists have no repeated entry |
| Relevance.LexiconBonusPerDistinctTerm | reddit.py:178-197 | the SEO (resp. course) bonus is 0 unless the keyword contains "seo" (resp. "course"), and otherwise 0.15 per distinct term present |
| Relevance.ContextBonusAtMostOnce | reddit.py:199-209 | the context bonus is 0 or 0.2; it is 0.2 iff at least one context phrase occurs |
| Relevance.PenaltyAfterBonuses | reddit.py:211-215 | a promotional post scores 0.3 times its whole bonus sum, capped at 1.0; a non-promotional one scores its bonus sum capped at 1.0; the penalty comes before the cap |
| Relevance.KeywordInTitleScoresHalf | reddit.py:165-215 | a non-promotional post with the keyword in its title scores at least 0.5 |
| Relevance.UnrelatedPostScoresLow | reddit.py:163-215 | without the keyword anywhere and with neither "seo" nor "course" in it, a post scores at most 0.2 |
| Relevance.SingleWordKeywordInTitle | reddit.py:165-171 | a one-word keyword found in the title also earns the title-word bonus, for a title score of 0.7 |
| CommentQuality.IsMeaningfulComment | reddit.py:250-276 | a comment is rejected when its stripped body has fewer than 15 characters, or when it has fewer than 5 words |
| CommentQuality.LowQualityRejected | reddit.py:255-265 | a comment equal to a stock low-quality phrase after lower and strip is rejected |
| CommentQuality.LowQualityTestIsRedundant | reddit.py:250-276 | the full decision: meaningful iff the stripped body has at least 15 characters, at least 5 words, and either 20 words or a meaningful indicator phrase |
| CommentQuality.StripLowerLength | reddit.py:252-255 | lowercasing does not change the stripped length, so the length test reads the same text as the phrase test |
| CommentQuality.LowQualityAllShort | reddit.py:258-262 | every low-quality phrase is shorter than 15 characters |
| CommentQuality.ThanksExample | reddit.py:252-253 | "thanks" is not a meaningful comment |
| CommentQuality.MeaningfulByIndicator | reddit.py:252-276 | text with no surrounding whitespace, at least 15 characters and 5 words, whose lowercase contains a helpful phrase, is meaningful |
| CommentQuality.WordsWithIndicator | reddit.py:250-276 | a comment of at least five words and at least 15 characters, one of whose words contains a helpful phrase, is meaningful, whatever its number of words |
| CommentQuality.RecommendingComment | reddit.py:266-276 | a comment of 18 words whose second word is "recommend" is meaningful, by the indicator rule, since 18 words are fewer than the 20 of the word-count rule |
| CommentQuality.MozExample | reddit.py:250-276 | the example comment recommending the free Moz course has 18 words (`split()`) and is meaningful |
| Unanswered.IsUnansweredEnhanced | reddit.py:218-248 | the method with its early `return False` gives exactly the verdict of counting the whole window |
| Unanswered.EnoughMeaningful | reddit.py:231-240 | the comment loop stops with "answered" exactly when more than `max_comments // 2` of the window's comments count, and at least one does |
| Unanswered.IsRemoved | reddit.py:235 | the deletion test looks at the lowercased start of the body; a body shorter than the nine-character markers is never removed |
| Unanswered.MarkersInAnyCase | reddit.py:235 | the markers count whatever their case: a body starting with "[DELETED]" or "[Removed]" is removed |
| Unanswered.Counts | reddit.py:234-238 | a comment counts only if it has a body, which is not a deletion marker and passes the quality filter, so it has at least 15 characters after stripping and at least five words |
| Unanswered.Window | reddit.py:233 | the window is the first `max_comments + 2` comments, or all of them when there are fewer |
| Unanswered.MeaningfulPrefix | reddit.py:238-240 | counting a prefix of the window never finds more than counting all of it, so the early return agrees with the full count |
| Unanswered.DecisionTable | reddit.py:220-246 | 0 comments: unanswered; more than twice the threshold: answered; between the threshold and twice it: answered; failed comment fetch with few comments: unanswered |
| Unanswered.OuterFailureThreshold | reddit.py:247-248 | on an outer failure, unanswered iff the comment count is at most the threshold |
| Unanswered.FewCommentsRule | reddit.py:227-242 | with few comments and no failure: answered iff more than `max_comments // 2` of the first `max_comments + 2` comments are non-empty, not deleted or removed, and meaningful |
| Unanswered.OnlyWindowMatters | reddit.py:233 | comments beyond the first `max_comments + 2` never change the verdict |
| Unanswered.FailOpen | reddit.py:228-244 | a failed comment fetch never turns "unanswered" into "answered" |
| Unanswered.RemovedNeverCount | reddit.py:234-235 | deleted, removed, empty or bodiless comments never count as meaningful |
| Unanswered.TwoRepliesStayUnanswered | reddit.py:227-242 | with threshold 5, a thread that did not fail at the start, has between one and five comments and returned at most two fetched comments is unanswered |
| Unanswered.ThresholdExamples | reddit.py:221-225 | with threshold 5, 0 comments means unanswered and 11 comments means answered |
| Search.GatherSubmissions | reddit.py:287-307 | the submissions gathered are the results of the searches for the keyword and for keyword + " help", in that order, each asking for `limit * 3` results; a failed search contributes nothing |
| Search.FirstIds | reddit.py:310 | the dictionary keys: pairwise distinct, and an id is a key iff some submission carries it |
| Search.Dedup | reddit.py:310 | the dictionary comprehension and `.values()` give the specification result: no two submissions share an id, every kept submission was fetched, and every fetched id is kept |
| Search.DeduplicatedProperties | reddit.py:310 | no two de-duplicated submissions share an id; nothing is invented; every fetched id survives |
| Search.LastWithIdIsLast | reddit.py:310 | the submission kept for an id is fetched after every other submission with that id |
| Search.DedupKeepsLatest | reddit.py:310 | every de-duplicated submission is the last fetched one with its id |
| Search.Screen | reddit.py:327-351 | the six filters in the loop's order: a low score is rejected first and only then; a selected post records its relevance score, which reaches the threshold and lies in [0, 1], and its thread is unanswered |
| Search.MakeRow | reddit.py:352-363 | a missing author shows as "[deleted]"; the URL is the site address followed by the permalink; the content is cut to at most 403 characters while Content_Length is the full length; title, relevance and comment count are carried over |
| Search.ScreenSubmission | reddit.py:327-351 | the loop body's chain of filters gives the specification verdict for one submission |
| Search.SelectedPassedEveryCheck | reddit.py:327-351 | a submission is selected iff it passes, in order, the score, length-or-'?', promotional, question, relevance-threshold and unanswered checks; its recorded relevance is its score and reaches the threshold |
| Search.Truncate | reddit.py:360 | content of at most 400 characters is kept as is; longer content becomes its first 400 characters followed by "..." |
| Search.SelectQuestions | reddit.py:315-366 | the loop collects exactly the rows of the first `limit` selected submissions, in input order |
| Search.Collected | reddit.py:318-320 | at most `limit` rows are collected (none when `limit` is not positive) |
| Search.CollectedStep | reddit.py:318-364 | below the limit, a submission adds its row iff it is selected |
| Search.CollectedSaturated | reddit.py:318-320 | once `limit` rows are collected, the remaining submissions change nothing |
| Search.CollectedRowsSelected | reddit.py:327-364 | every collected row is the row of a selected submission |
| Search.AcceptedRowsSelected | reddit.py:327-364 | every accepted row is the row of a selected input submission |
| Search.Insert | reddit.py:372 | inserting a row into the ranked list adds exactly that row |
| Search.InsertSorted | reddit.py:372 | inserting into a list sorted by descending (relevance, created) keeps it sorted |
| Search.Ranked | reddit.py:371-372 | the ranked rows are a permutation of the input, non-increasing by (relevance, created) |
| Search.InsertStable | reddit.py:372 | insertion keeps rows with equal keys in their order and puts the new row after them |
| Search.RankedStable | reddit.py:372 | the sort is stable: the rows with any given key appear in the same order before and after |
| Search.SortByRank | reddit.py:371-372 | the sort gives the ranked list: a stable permutation, non-increasing by (relevance, created) |
| Search.SearchUnansweredQuestions | reddit.py:283-374 | the result is the ranked list of the first `limit` selected de-duplicated submissions; it has at most `limit` rows, is sorted, and every row comes from a fetched submission that passed every filter |

## Left out

- The Streamlit UI is not modelled: widgets, the progress bar and status text, rendering, summary metrics and CSV export (reddit.py:1-84, 312-325, 368-369, 381-526). It is presentation only.
- The `processed` counter is not modelled. It only drives the progress display (reddit.py:315, 322-325).
- The praw client is not modelled: `init_reddit`, the search calls and `comments.replace_more` (reddit.py:90-105, 296-307, 230). These are network calls into a library that is not part of this model. Search results are the `search` parameter; the choice between one subreddit and "all", and the time filter, belong to it. The comment list and the fetch failures are fields of the thread value.
- `time.sleep(0.1)` is not modelled. It is a wall-clock side effect with no effect on the result.
- Search.Key: the source sorts on `float(f"{relevance:.2f}")` and on the creation time formatted to the minute. The model sorts on the exact relevance and the creation timestamp. Rounding and time-zone formatting are float and locale matters, so posts whose relevance differs only beyond two decimals, or that were created in the same minute, may be ordered differently.
- Search.MakeRow: keeps the relevance as a `real` and the creation time as a timestamp, not as formatted strings, for the same reason.
- Binary floating-point rounding of the relevance arithmetic is not modelled. The score is an exact sum of the decimal constants.
- `lower()`, `strip()` and `split()` act on ASCII only. The whitespace set is the ASCII part of `str.isspace()`. Unicode case mapping and Unicode whitespace are outside the model.
- A missing selftext (`None`) is not modelled; empty content is the empty string. praw always supplies a string, and the `if content else ""` guards agree on it.
- The top-level `except` that returns an empty list is not modelled. The model has no failure beyond the failed searches and comment fetches it represents explicitly (reddit.py:376-378).
- CommentQuality.MozExample: the example comment "I recommend trying the free Moz course, it really worked for me and covers on-page SEO basics well" is stated as its 18 words joined by single spaces (`Text.Join` of `CommentQuality.MozWords`). No lemma states that this join equals the 99-character literal: comparing the two character by character is too costly to verify.
- A whole scenario is proved only in parts. The scenario: a post titled "Best SEO course for beginners?", searched with the keyword "seo course", whose two comments are a "thanks" and one detailed reply, judged against a threshold of 5. Unanswered.TwoRepliesStayUnanswered proves that such a thread is unanswered. Relevance.KeywordInTitleScoresHalf bounds its relevance from below by 0.5. The exact relevance of that literal title is not computed.
- The loop body of the selection is a separate method, Search.ScreenSubmission. It returns the first rejecting filter where the source writes `continue`; the order of the checks and the calls they make are the same.
- The relevance loops are helper methods that add to the running score: Relevance.AddTermBonuses and Relevance.AddContextBonus. The comment loop of the classifier is the helper method Unanswered.EnoughMeaningful; Unanswered.IsUnansweredEnhanced calls it on the window.
