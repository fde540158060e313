/** The post-fetch part of `search_unanswered_questions_enhanced`
    (reddit.py:279-374): gathering the results of the two searches,
    de-duplicating them by submission id, screening each through the chain of
    six filters until `limit` rows are collected, building the result rows and
    sorting them by relevance and then recency. The Reddit search itself is a
    function given as a parameter. */
module Search {
  import opened Wrappers
  import opened Text
  import Promotion
  import Question
  import Relevance
  import Unanswered

  /** A fetched submission: the attributes the selection reads. */
  datatype Post = Post(
    id: string,
    title: string,
    selftext: string,
    score: int,
    createdUtc: int,
    subreddit: string,
    author: Option<string>,
    permalink: string,
    thread: Unanswered.Thread)

  /** One result row. `created` is the creation timestamp and `relevance` the
      exact score; the source stores both as formatted text. */
  datatype Row = Row(
    title: string,
    subreddit: string,
    author: string,
    score: int,
    comments: nat,
    created: int,
    url: string,
    content: string,
    relevance: real,
    contentLength: nat)

  /** The user's search settings. */
  datatype Settings = Settings(
    keyword: string,
    limit: int,
    minScore: int,
    relevanceThreshold: real,
    maxComments: int,
    questionOnly: bool,
    filterPromotional: bool,
    minContentLength: int)

  // ---------------------------------------------------------------------
  // Gathering the search results (reddit.py:287-307)

  /** The search variants; only the first two are sent. */
  function SearchTerms(keyword: string): seq<string> {
    [keyword, keyword + " help", keyword + " advice", keyword + " recommend"]
  }

  /** The submissions of one search, or none when the search raised. */
  function Fetched(outcome: Option<seq<Post>>): seq<Post> {
    if outcome.Some? then outcome.value else []
  }

  /** The two searches, asking for `limit * 3` results each; a failed search
      is skipped and the other still contributes. */
  method GatherSubmissions(keyword: string, limit: int, search: (string, int) -> Option<seq<Post>>)
    returns (all: seq<Post>)
    ensures all == Fetched(search(keyword, limit * 3)) + Fetched(search(keyword + " help", limit * 3))
  {
    var searchTerms := SearchTerms(keyword);
    var sent := searchTerms[..2];
    all := [];
    for i := 0 to |sent|
      invariant all == if i == 0 then [] else if i == 1 then Fetched(search(keyword, limit * 3))
                       else Fetched(search(keyword, limit * 3)) + Fetched(search(keyword + " help", limit * 3))
    {
      var results := search(sent[i], limit * 3);
      if results.Some? {
        all := all + results.value;
      }
    }
  }

  // ---------------------------------------------------------------------
  // De-duplication by id (reddit.py:310)

  predicate HasId(posts: seq<Post>, id: string) {
    exists i :: 0 <= i < |posts| && posts[i].id == id
  }

  /** The distinct ids in order of first occurrence: the key order of the
      dictionary `{sub.id: sub for sub in all_submissions}`. */
  function FirstIds(posts: seq<Post>): (ids: seq<string>)
    ensures forall i, j :: 0 <= i < j < |ids| ==> ids[i] != ids[j]
    ensures forall id :: id in ids <==> HasId(posts, id)
  {
    if posts == [] then []
    else
      var init, last := posts[..|posts| - 1], posts[|posts| - 1];
      assert forall id :: HasId(posts, id) <==> HasId(init, id) || last.id == id by {
        forall id | HasId(posts, id) && last.id != id ensures HasId(init, id) {
          var i :| 0 <= i < |posts| && posts[i].id == id;
          assert init[i] == posts[i];
        }
        forall id | HasId(init, id) ensures HasId(posts, id) {
          var i :| 0 <= i < |init| && init[i].id == id;
          assert posts[i] == init[i];
        }
      }
      if last.id in FirstIds(init) then FirstIds(init) else FirstIds(init) + [last.id]
  }

  /** The last submission carrying `id`: the value the dictionary keeps for it. */
  function LastWithId(posts: seq<Post>, id: string): (p: Post)
    requires HasId(posts, id)
    ensures p in posts && p.id == id
  {
    var init, last := posts[..|posts| - 1], posts[|posts| - 1];
    if last.id == id then last
    else
      assert HasId(init, id) by {
        var i :| 0 <= i < |posts| && posts[i].id == id;
        assert init[i] == posts[i];
      }
      LastWithId(init, id)
  }

  /** No submission fetched after the kept one shares its id. */
  lemma {:induction false} LastWithIdIsLast(posts: seq<Post>, id: string) returns (m: nat)
    requires HasId(posts, id)
    ensures m < |posts| && posts[m] == LastWithId(posts, id)
    ensures forall n :: m < n < |posts| ==> posts[n].id != id
  {
    var init, last := posts[..|posts| - 1], posts[|posts| - 1];
    if last.id == id {
      m := |posts| - 1;
    } else {
      assert HasId(init, id) by {
        var i :| 0 <= i < |posts| && posts[i].id == id;
        assert init[i] == posts[i];
      }
      m := LastWithIdIsLast(init, id);
      assert posts[m] == init[m];
      forall n | m < n < |posts| ensures posts[n].id != id {
        if n < |posts| - 1 { assert posts[n] == init[n]; }
      }
    }
  }

  /** `.values()` of that dictionary. */
  function Deduplicated(posts: seq<Post>): (unique: seq<Post>) {
    var ids := FirstIds(posts);
    seq(|ids|, i requires 0 <= i < |ids| => LastWithId(posts, ids[i]))
  }

  lemma LastWithIdStep(posts: seq<Post>, i: nat, id: string)
    requires i < |posts| && HasId(posts[..i + 1], id)
    ensures LastWithId(posts[..i + 1], id)
         == if posts[i].id == id then posts[i] else LastWithId(posts[..i], id)
  {
    assert posts[..i + 1][..i] == posts[..i];
  }

  lemma FirstIdsStep(posts: seq<Post>, i: nat)
    requires i < |posts|
    ensures FirstIds(posts[..i + 1])
         == if posts[i].id in FirstIds(posts[..i]) then FirstIds(posts[..i]) else FirstIds(posts[..i]) + [posts[i].id]
  {
    assert posts[..i + 1][..i] == posts[..i];
  }

  /** The dictionary built so far: keys in first-insertion order, each mapped
      to the latest submission with that id. */
  ghost predicate DictOf(posts: seq<Post>, byId: map<string, Post>, order: seq<string>) {
    && order == FirstIds(posts)
    && (forall id :: id in byId <==> id in order)
    && (forall id :: id in byId ==> HasId(posts, id) && byId[id] == LastWithId(posts, id))
  }

  /** Inserting one more submission into the dictionary. */
  lemma DictStep(posts: seq<Post>, i: nat, byId: map<string, Post>, order: seq<string>)
    requires i < |posts| && DictOf(posts[..i], byId, order)
    ensures DictOf(posts[..i + 1], byId[posts[i].id := posts[i]],
                   if posts[i].id in byId then order else order + [posts[i].id])
  {
    var sub := posts[i];
    FirstIdsStep(posts, i);
    var byId' := byId[sub.id := sub];
    forall id | id in byId' ensures HasId(posts[..i + 1], id) && byId'[id] == LastWithId(posts[..i + 1], id) {
      assert posts[..i + 1][i] == sub;
      if id != sub.id {
        var k :| 0 <= k < i && posts[..i][k].id == id;
        assert posts[..i + 1][k] == posts[..i][k];
      }
      LastWithIdStep(posts, i, id);
    }
  }

  /** Reading the values of a finished dictionary in key order. */
  lemma DictValues(posts: seq<Post>, byId: map<string, Post>, order: seq<string>, unique: seq<Post>)
    requires DictOf(posts, byId, order)
    requires |unique| == |order| && forall k :: 0 <= k < |order| ==> unique[k] == byId[order[k]]
    ensures unique == Deduplicated(posts)
  {
  }

  /** The dictionary comprehension and its `.values()`: a map from id to the
      latest submission, and the ids in the order they were first inserted. */
  method Dedup(posts: seq<Post>) returns (unique: seq<Post>)
    ensures unique == Deduplicated(posts)
    ensures forall i, j :: 0 <= i < j < |unique| ==> unique[i].id != unique[j].id
    ensures forall p :: p in unique ==> p in posts
    ensures forall i :: 0 <= i < |posts| ==> exists j :: 0 <= j < |unique| && unique[j].id == posts[i].id
  {
    var byId: map<string, Post> := map[];
    var order: seq<string> := [];
    for i := 0 to |posts|
      invariant DictOf(posts[..i], byId, order)
    {
      var sub := posts[i];
      DictStep(posts, i, byId, order);
      if sub.id !in byId {
        order := order + [sub.id];
      }
      byId := byId[sub.id := sub];
    }
    assert posts[..|posts|] == posts;
    unique := [];
    for j := 0 to |order|
      invariant |unique| == j
      invariant forall k :: 0 <= k < j ==> unique[k] == byId[order[k]]
    {
      unique := unique + [byId[order[j]]];
    }
    DictValues(posts, byId, order, unique);
    DeduplicatedProperties(posts);
  }

  /** After de-duplication no two submissions share an id, nothing is invented
      and every fetched id survives. */
  lemma DeduplicatedProperties(posts: seq<Post>)
    ensures var unique := Deduplicated(posts);
      && (forall i, j :: 0 <= i < j < |unique| ==> unique[i].id != unique[j].id)
      && (forall p :: p in unique ==> p in posts)
      && (forall i :: 0 <= i < |posts| ==> exists j :: 0 <= j < |unique| && unique[j].id == posts[i].id)
  {
    var unique, ids := Deduplicated(posts), FirstIds(posts);
    forall i | 0 <= i < |posts| ensures exists j :: 0 <= j < |unique| && unique[j].id == posts[i].id {
      assert HasId(posts, posts[i].id);
      var j :| 0 <= j < |ids| && ids[j] == posts[i].id;
      assert unique[j].id == ids[j];
    }
  }

  /** Of several submissions sharing an id, the one kept is the last fetched. */
  lemma DedupKeepsLatest(posts: seq<Post>)
    ensures var unique := Deduplicated(posts);
      forall j :: 0 <= j < |unique| ==>
        exists m :: 0 <= m < |posts| && posts[m] == unique[j]
          && forall n :: m < n < |posts| ==> posts[n].id != unique[j].id
  {
    var unique, ids := Deduplicated(posts), FirstIds(posts);
    forall j | 0 <= j < |unique|
      ensures exists m :: 0 <= m < |posts| && posts[m] == unique[j]
                && forall n :: m < n < |posts| ==> posts[n].id != unique[j].id
    {
      assert ids[j] in ids;
      var m := LastWithIdIsLast(posts, ids[j]);
      assert unique[j] == LastWithId(posts, ids[j]);
    }
  }

  // ---------------------------------------------------------------------
  // Screening (reddit.py:327-351)

  /** What happens to a submission in the loop: the first filter that rejects
      it, or its selection with its relevance. */
  datatype Verdict =
    | LowScore
    | TooShort
    | Promotional
    | NotAQuestion
    | Irrelevant
    | Answered
    | Selected(relevance: real)

  /** The six filters in the order the loop applies them. */
  function Screen(p: Post, s: Settings): (v: Verdict)
    ensures v == LowScore <==> p.score < s.minScore
    ensures v.Selected? ==> v.relevance == Relevance.Score(p.title, p.selftext, s.keyword)
                            && s.relevanceThreshold <= v.relevance <= 1.0
    ensures v.Selected? || v == Answered ==> Relevance.Score(p.title, p.selftext, s.keyword) >= s.relevanceThreshold
    ensures v.Selected? ==> Unanswered.IsUnanswered(p.thread, s.maxComments)
  {
    if p.score < s.minScore then LowScore
    else if |p.selftext| < s.minContentLength && !EndsWith(p.title, "?") then TooShort
    else if s.filterPromotional && Promotion.Promotional(p.title, p.selftext) then Promotional
    else if s.questionOnly && !Question.IsGenuineQuestion(p.title, p.selftext) then NotAQuestion
    else
      var relevance := Relevance.Score(p.title, p.selftext, s.keyword);
      if relevance < s.relevanceThreshold then Irrelevant
      else if !Unanswered.IsUnanswered(p.thread, s.maxComments) then Answered
      else Selected(relevance)
  }

  /** A submission is selected exactly when it passes every filter; its
      relevance is then its score, which reaches the threshold. */
  lemma SelectedPassedEveryCheck(p: Post, s: Settings)
    ensures Screen(p, s).Selected? <==>
      && p.score >= s.minScore
      && (|p.selftext| >= s.minContentLength || EndsWith(p.title, "?"))
      && !(s.filterPromotional && Promotion.Promotional(p.title, p.selftext))
      && !(s.questionOnly && !Question.IsGenuineQuestion(p.title, p.selftext))
      && Relevance.Score(p.title, p.selftext, s.keyword) >= s.relevanceThreshold
      && Unanswered.IsUnanswered(p.thread, s.maxComments)
    ensures Screen(p, s).Selected? ==>
      Screen(p, s).relevance == Relevance.Score(p.title, p.selftext, s.keyword) >= s.relevanceThreshold
  {
  }

  // ---------------------------------------------------------------------
  // Result rows (reddit.py:352-363)

  const ContentLimit: nat := 400

  /** The prefix of every result link. */
  const SiteAddress: string := "https://reddit.com"

  /** `selftext[:400] + "..." if len(selftext) > 400 else selftext`. */
  function Truncate(text: string): (r: string)
    ensures |text| <= ContentLimit ==> r == text
    ensures |text| > ContentLimit ==>
      |r| == ContentLimit + 3 && r[..ContentLimit] == text[..ContentLimit] && EndsWith(r, "...")
    ensures |r| <= ContentLimit + 3
  {
    if |text| > ContentLimit then text[..ContentLimit] + "..." else text
  }

  /** The row appended for a selected submission: a missing author shows as
      "[deleted]", the link is the permalink behind the site's address, and the
      content is cut to 400 characters while its length is the full one. */
  function MakeRow(p: Post, relevance: real): (r: Row)
    ensures p.author.None? ==> r.author == "[deleted]"
    ensures p.author.Some? ==> r.author == p.author.value
    ensures StartsWith(r.url, SiteAddress) && r.url[|SiteAddress|..] == p.permalink
    ensures r.contentLength == |p.selftext| && |r.content| <= ContentLimit + 3
    ensures |p.selftext| <= ContentLimit ==> r.content == p.selftext
    ensures r.title == p.title && r.relevance == relevance && r.comments == p.thread.numComments
  {
    Row(
      p.title,
      p.subreddit,
      if p.author.Some? then p.author.value else "[deleted]",
      p.score,
      p.thread.numComments,
      p.createdUtc,
      SiteAddress + p.permalink,
      Truncate(p.selftext),
      relevance,
      |p.selftext|)
  }

  // ---------------------------------------------------------------------
  // The selection loop (reddit.py:315-366)

  /** The rows of every selected submission, in input order. */
  function Accepted(posts: seq<Post>, s: Settings): seq<Row> {
    if posts == [] then []
    else
      var init, last := posts[..|posts| - 1], posts[|posts| - 1];
      var v := Screen(last, s);
      Accepted(init, s) + (if v.Selected? then [MakeRow(last, v.relevance)] else [])
  }

  /** The number of rows the loop stops at. */
  function Quota(s: Settings): nat {
    if s.limit < 0 then 0 else s.limit
  }

  /** What the loop collects: the first `limit` accepted rows. */
  function Collected(posts: seq<Post>, s: Settings): (rows: seq<Row>)
    ensures |rows| <= Quota(s)
  {
    var all := Accepted(posts, s);
    if |all| <= Quota(s) then all else all[..Quota(s)]
  }

  lemma AcceptedStep(posts: seq<Post>, i: nat, s: Settings)
    requires i < |posts|
    ensures var v := Screen(posts[i], s);
      Accepted(posts[..i + 1], s) == Accepted(posts[..i], s) + (if v.Selected? then [MakeRow(posts[i], v.relevance)] else [])
  {
    assert posts[..i + 1][..i] == posts[..i];
  }

  /** The rows accepted from a prefix of the input start the rows accepted from all of it. */
  lemma {:induction false} AcceptedPrefix(posts: seq<Post>, i: nat, s: Settings)
    requires i <= |posts|
    ensures |Accepted(posts[..i], s)| <= |Accepted(posts, s)|
    ensures Accepted(posts, s)[..|Accepted(posts[..i], s)|] == Accepted(posts[..i], s)
    decreases |posts|
  {
    if i == |posts| {
      assert posts[..i] == posts;
    } else {
      var init := posts[..|posts| - 1];
      assert init[..i] == posts[..i];
      AcceptedPrefix(init, i, s);
    }
  }

  /** Every collected row is the row of a selected input submission. */
  lemma {:induction false} AcceptedRowsSelected(posts: seq<Post>, s: Settings)
    ensures forall r :: r in Accepted(posts, s) ==>
      exists p :: p in posts && Screen(p, s).Selected? && r == MakeRow(p, Screen(p, s).relevance)
  {
    if posts != [] {
      var init := posts[..|posts| - 1];
      AcceptedRowsSelected(init, s);
      forall r | r in Accepted(posts, s)
        ensures exists p :: p in posts && Screen(p, s).Selected? && r == MakeRow(p, Screen(p, s).relevance)
      {
        if r in Accepted(init, s) {
          var p :| p in init && Screen(p, s).Selected? && r == MakeRow(p, Screen(p, s).relevance);
          assert p in posts;
        } else {
          assert posts[|posts| - 1] in posts;
        }
      }
    }
  }

  /** The body of the loop for one submission: the filters in order, each
      skipping the submission (`continue`) when it rejects it. */
  method ScreenSubmission(submission: Post, s: Settings) returns (v: Verdict)
    ensures v == Screen(submission, s)
  {
    if submission.score < s.minScore {
      return LowScore;
    }
    var contentLength := |submission.selftext|;
    if contentLength < s.minContentLength && !EndsWith(submission.title, "?") {
      return TooShort;
    }
    if s.filterPromotional {
      var promotional := Promotion.IsPromotionalContent(submission.title, submission.selftext);
      if promotional {
        return Promotional;
      }
    }
    if s.questionOnly && !Question.IsGenuineQuestion(submission.title, submission.selftext) {
      return NotAQuestion;
    }
    var relevance := Relevance.CalculateEnhancedRelevanceScore(submission.title, submission.selftext, s.keyword);
    if relevance < s.relevanceThreshold {
      return Irrelevant;
    }
    var unanswered := Unanswered.IsUnansweredEnhanced(submission.thread, s.maxComments);
    if !unanswered {
      return Answered;
    }
    return Selected(relevance);
  }

  /** The loop over the de-duplicated submissions: stop once `limit` rows are
      collected, otherwise skip the submission at the first failing filter
      and collect it when it passes them all. */
  method SelectQuestions(unique: seq<Post>, s: Settings) returns (questions: seq<Row>)
    ensures questions == Collected(unique, s)
  {
    questions := [];
    var foundUnanswered := 0;
    for i := 0 to |unique|
      invariant foundUnanswered == |questions|
      invariant questions == Collected(unique[..i], s)
    {
      if foundUnanswered >= s.limit {
        CollectedSaturated(unique, i, s);
        break;
      }
      CollectedStep(unique, i, s);
      var verdict := ScreenSubmission(unique[i], s);
      if verdict.Selected? {
        questions := questions + [MakeRow(unique[i], verdict.relevance)];
        foundUnanswered := foundUnanswered + 1;
      }
    }
    assert unique[..|unique|] == unique;
  }

  /** Below the quota, one more submission adds its row when it is selected. */
  lemma CollectedStep(posts: seq<Post>, i: nat, s: Settings)
    requires i < |posts| && |Collected(posts[..i], s)| < Quota(s)
    ensures var v := Screen(posts[i], s);
      Collected(posts[..i + 1], s) == Collected(posts[..i], s) + (if v.Selected? then [MakeRow(posts[i], v.relevance)] else [])
  {
    AcceptedStep(posts, i, s);
  }

  /** Once the quota is reached, the remaining submissions change nothing. */
  lemma CollectedSaturated(posts: seq<Post>, i: nat, s: Settings)
    requires i <= |posts| && |Collected(posts[..i], s)| >= Quota(s)
    ensures Collected(posts, s) == Collected(posts[..i], s)
  {
    AcceptedPrefix(posts, i, s);
    var pre, all := Accepted(posts[..i], s), Accepted(posts, s);
    assert all[..Quota(s)] == pre[..Quota(s)];
  }

  // ---------------------------------------------------------------------
  // The final sort (reddit.py:371-372)

  /** The sort key `(relevance, created)`. */
  function Key(r: Row): (real, int) {
    (r.relevance, r.created)
  }

  /** `a` comes strictly before `b` under `reverse=True`: a greater key. */
  predicate Outranks(a: Row, b: Row) {
    var ka, kb := Key(a), Key(b);
    ka.0 > kb.0 || (ka.0 == kb.0 && ka.1 > kb.1)
  }

  /** Non-increasing by (relevance, created). */
  predicate SortedByRank(rows: seq<Row>) {
    forall i, j :: 0 <= i < j < |rows| ==> !Outranks(rows[j], rows[i])
  }

  lemma OutranksTransitive(a: Row, b: Row, c: Row)
    requires Outranks(a, b) && Outranks(b, c)
    ensures Outranks(a, c)
  {
  }

  /** Insert `x` into a ranked list after every row whose key is at least as
      great, so rows with equal keys keep their order. */
  function Insert(sorted: seq<Row>, x: Row): (r: seq<Row>)
    ensures multiset(r) == multiset(sorted) + multiset{x}
  {
    if sorted == [] then [x]
    else if Outranks(x, sorted[0]) then [x] + sorted
    else
      assert sorted == [sorted[0]] + sorted[1..];
      [sorted[0]] + Insert(sorted[1..], x)
  }

  /** Inserting into a ranked list gives a ranked list. */
  lemma {:induction false} InsertSorted(sorted: seq<Row>, x: Row)
    requires SortedByRank(sorted)
    ensures SortedByRank(Insert(sorted, x))
  {
    if sorted == [] {
    } else if Outranks(x, sorted[0]) {
      var r := Insert(sorted, x);
      forall i, j | 0 <= i < j < |r| ensures !Outranks(r[j], r[i]) {
        if i == 0 && Outranks(r[j], x) {
          assert r[j] == sorted[j - 1];
          OutranksTransitive(r[j], x, sorted[0]);
        } else if i > 0 {
          assert r[i] == sorted[i - 1] && r[j] == sorted[j - 1];
        }
      }
    } else {
      var rest := Insert(sorted[1..], x);
      InsertSorted(sorted[1..], x);
      var r := [sorted[0]] + rest;
      forall i, j | 0 <= i < j < |r| ensures !Outranks(r[j], r[i]) {
        if i == 0 {
          var y := rest[j - 1];
          assert y in multiset(rest);
          assert y == x || y in sorted[1..];
          if y != x {
            var m :| 0 <= m < |sorted[1..]| && sorted[1..][m] == y;
            assert sorted[m + 1] == y;
          }
        } else {
          assert r[i] == rest[i - 1] && r[j] == rest[j - 1];
        }
      }
    }
  }

  /** A stable sort by descending key: the rows one by one into a ranked list. */
  function Ranked(rows: seq<Row>): (r: seq<Row>)
    ensures multiset(r) == multiset(rows)
    ensures SortedByRank(r)
  {
    if rows == [] then []
    else
      var init, last := rows[..|rows| - 1], rows[|rows| - 1];
      assert rows == init + [last];
      InsertSorted(Ranked(init), last);
      Insert(Ranked(init), last)
  }

  /** The rows with key `k`, in order. */
  function WithKey(rows: seq<Row>, k: (real, int)): seq<Row> {
    if rows == [] then []
    else (if Key(rows[0]) == k then [rows[0]] else []) + WithKey(rows[1..], k)
  }

  lemma WithKeyCons(x: Row, rest: seq<Row>, k: (real, int))
    ensures WithKey([x] + rest, k) == (if Key(x) == k then [x] else []) + WithKey(rest, k)
  {
    assert ([x] + rest)[1..] == rest;
  }

  lemma {:induction false} WithKeyAppend(a: seq<Row>, b: seq<Row>, k: (real, int))
    ensures WithKey(a + b, k) == WithKey(a, k) + WithKey(b, k)
  {
    if a == [] {
      assert a + b == b;
    } else {
      assert a + b == [a[0]] + (a[1..] + b);
      WithKeyCons(a[0], a[1..] + b, k);
      WithKeyAppend(a[1..], b, k);
      assert a == [a[0]] + a[1..];
      WithKeyCons(a[0], a[1..], k);
    }
  }

  lemma {:induction false} WithKeyNone(rows: seq<Row>, k: (real, int))
    requires forall i :: 0 <= i < |rows| ==> Key(rows[i]) != k
    ensures WithKey(rows, k) == []
  {
    if rows != [] { WithKeyNone(rows[1..], k); }
  }

  /** Inserting keeps the order among rows with equal keys and puts the new
      row after those already there. */
  lemma {:induction false} InsertStable(sorted: seq<Row>, x: Row, k: (real, int))
    requires SortedByRank(sorted)
    ensures WithKey(Insert(sorted, x), k) == WithKey(sorted, k) + (if Key(x) == k then [x] else [])
  {
    if sorted == [] {
      WithKeyCons(x, [], k);
    } else if Outranks(x, sorted[0]) {
      InsertFrontStable(sorted, x, k);
    } else {
      SortedTail(sorted);
      InsertStable(sorted[1..], x, k);
      InsertBehindStable(sorted, x, k);
    }
  }

  /** The step of `InsertStable` where the new row goes behind the first one. */
  lemma InsertBehindStable(sorted: seq<Row>, x: Row, k: (real, int))
    requires sorted != [] && !Outranks(x, sorted[0])
    requires WithKey(Insert(sorted[1..], x), k) == WithKey(sorted[1..], k) + (if Key(x) == k then [x] else [])
    ensures WithKey(Insert(sorted, x), k) == WithKey(sorted, k) + (if Key(x) == k then [x] else [])
  {
    var rest := Insert(sorted[1..], x);
    assert Insert(sorted, x) == [sorted[0]] + rest;
    WithKeyConsAfter(sorted[0], sorted[1..], rest, k, if Key(x) == k then [x] else []);
    assert sorted == [sorted[0]] + sorted[1..];
  }

  /** Putting the same row in front of two lists keeps the relation between
      their rows of key `k`. */
  lemma WithKeyConsAfter(h: Row, before: seq<Row>, after: seq<Row>, k: (real, int), extra: seq<Row>)
    requires WithKey(after, k) == WithKey(before, k) + extra
    ensures WithKey([h] + after, k) == WithKey([h] + before, k) + extra
  {
    var head := if Key(h) == k then [h] else [];
    calc {
      WithKey([h] + after, k);
      { WithKeyCons(h, after, k); }
      head + WithKey(after, k);
      head + (WithKey(before, k) + extra);
      { AppendAssociative(head, WithKey(before, k), extra); }
      (head + WithKey(before, k)) + extra;
      { WithKeyCons(h, before, k); }
      WithKey([h] + before, k) + extra;
    }
  }

  lemma AppendAssociative(a: seq<Row>, b: seq<Row>, c: seq<Row>)
    ensures a + (b + c) == (a + b) + c
  {
  }

  lemma SortedTail(sorted: seq<Row>)
    requires SortedByRank(sorted) && sorted != []
    ensures SortedByRank(sorted[1..])
  {
    forall i, j | 0 <= i < j < |sorted| - 1 ensures !Outranks(sorted[1..][j], sorted[1..][i]) {
      assert sorted[1..][j] == sorted[j + 1] && sorted[1..][i] == sorted[i + 1];
    }
  }

  lemma InsertFrontStable(sorted: seq<Row>, x: Row, k: (real, int))
    requires SortedByRank(sorted) && sorted != [] && Outranks(x, sorted[0])
    ensures WithKey([x] + sorted, k) == WithKey(sorted, k) + (if Key(x) == k then [x] else [])
  {
    WithKeyCons(x, sorted, k);
    if Key(x) == k {
      forall i | 0 <= i < |sorted| ensures Key(sorted[i]) != k {
        assert i == 0 || !Outranks(sorted[i], sorted[0]);
      }
      WithKeyNone(sorted, k);
    }
  }

  /** The sort is stable: for every key, the rows with that key appear in the
      same order before and after sorting. */
  lemma {:induction false} RankedStable(rows: seq<Row>, k: (real, int))
    ensures WithKey(Ranked(rows), k) == WithKey(rows, k)
  {
    if rows != [] {
      var init := rows[..|rows| - 1];
      RankedStable(init, k);
      InsertStable(Ranked(init), rows[|rows| - 1], k);
      RankedLast(rows);
      WithKeySnoc(rows, k);
    }
  }

  /** The ranked list of a non-empty input is its last row inserted into the
      ranked list of the rest. */
  lemma RankedLast(rows: seq<Row>)
    requires rows != []
    ensures Ranked(rows) == Insert(Ranked(rows[..|rows| - 1]), rows[|rows| - 1])
  {
  }

  lemma WithKeySnoc(rows: seq<Row>, k: (real, int))
    requires rows != []
    ensures WithKey(rows, k) == WithKey(rows[..|rows| - 1], k) + (if Key(rows[|rows| - 1]) == k then [rows[|rows| - 1]] else [])
  {
    var init, last := rows[..|rows| - 1], rows[|rows| - 1];
    assert rows == init + [last];
    WithKeyAppend(init, [last], k);
    WithKeyCons(last, [], k);
  }

  /** `questions.sort(key=lambda x: (relevance, created), reverse=True)`. */
  method SortByRank(rows: seq<Row>) returns (sorted: seq<Row>)
    ensures sorted == Ranked(rows)
    ensures SortedByRank(sorted) && multiset(sorted) == multiset(rows)
    ensures forall k :: WithKey(sorted, k) == WithKey(rows, k)
  {
    sorted := [];
    for i := 0 to |rows|
      invariant sorted == Ranked(rows[..i])
    {
      assert rows[..i + 1][..i] == rows[..i];
      sorted := Insert(sorted, rows[i]);
    }
    assert rows[..|rows|] == rows;
    forall k ensures WithKey(sorted, k) == WithKey(rows, k) {
      RankedStable(rows, k);
    }
  }

  // ---------------------------------------------------------------------
  // The whole search after connecting (reddit.py:283-374)

  /** The result of the search: the first `limit` selected rows of the
      de-duplicated search results, best relevance first and newest first
      among equal relevance. */
  method SearchUnansweredQuestions(s: Settings, search: (string, int) -> Option<seq<Post>>)
    returns (questions: seq<Row>)
    ensures var all := Fetched(search(s.keyword, s.limit * 3)) + Fetched(search(s.keyword + " help", s.limit * 3));
      && questions == Ranked(Collected(Deduplicated(all), s))
      && |questions| <= Quota(s)
      && SortedByRank(questions)
      && forall r :: r in questions ==>
           exists p :: p in all && Screen(p, s).Selected? && r == MakeRow(p, Screen(p, s).relevance)
  {
    var allSubmissions := GatherSubmissions(s.keyword, s.limit, search);
    var uniqueSubmissions := Dedup(allSubmissions);
    var collected := SelectQuestions(uniqueSubmissions, s);
    questions := SortByRank(collected);
    assert |questions| == |multiset(questions)| == |multiset(collected)| == |collected| <= Quota(s);
    CollectedRowsSelected(uniqueSubmissions, s);
    forall r | r in questions
      ensures exists p :: p in allSubmissions && Screen(p, s).Selected? && r == MakeRow(p, Screen(p, s).relevance)
    {
      assert r in multiset(questions);
      assert r in collected;
      var p :| p in uniqueSubmissions && Screen(p, s).Selected? && r == MakeRow(p, Screen(p, s).relevance);
    }
  }

  /** Every collected row is the row of a selected submission. */
  lemma CollectedRowsSelected(posts: seq<Post>, s: Settings)
    ensures forall r :: r in Collected(posts, s) ==>
      exists p :: p in posts && Screen(p, s).Selected? && r == MakeRow(p, Screen(p, s).relevance)
  {
    AcceptedRowsSelected(posts, s);
    var all := Accepted(posts, s);
    forall r | r in Collected(posts, s) ensures r in all {
      var i :| 0 <= i < |Collected(posts, s)| && Collected(posts, s)[i] == r;
      assert all[i] == r;
    }
  }
}
