/**
 * The public routes: `POST /api/posts` (validate, sanitize, match, decide
 * the initial status, insert one post) and `GET /api/posts` (the approved
 * feed, newest first, paginated).
 */
module Public {
  import opened Text
  import opened Seqs
  import opened WordFilter
  import opened Sanitizer
  import opened Database
  import opened Queries

  const GuidelinesMessage: string :=
    "Your submission has been received but contains content that violates community guidelines."
  const ModerationMessage: string :=
    "Your submission has been sent for moderation. It will appear in the community feed once approved."
  const ContentRequired: string := "Content is required"

  /** The JSON a route answers with, and its HTTP status code. */
  datatype SubmitResponse =
    | Failure(code: nat, error: string)
    | Success(code: nat, message: string, status: Status, postId: Option<int>)

  /** `(approval_status, flagged_words)` chosen for a new post. */
  datatype Decision = Decision(status: Status, flaggedWords: Option<string>)

  /** `SELECT word, severity FROM word_filters`, in table order. */
  function FilterView(rows: seq<FilterRow>): (fs: seq<Filter>)
    ensures |fs| == |rows|
    ensures forall k :: 0 <= k < |rows| ==> fs[k] == Filter(rows[k].word, rows[k].severity)
  {
    if rows == [] then [] else [Filter(rows[0].word, rows[0].severity)] + FilterView(rows[1..])
  }

  /** Content that gets past the validation: a string that is not empty
      once trimmed. */
  predicate IsValidContent(content: JsonValue)
  {
    content.JString? && content.s != [] && Trim(content.s) != []
  }

  /** How the route classifies a filter result. */
  function Decide(r: MatchResult): (d: Decision)
    ensures d.status != Approved
    ensures d.status == Rejected <==> r.highestSeverity == Some(High)
    ensures d.flaggedWords.None? <==> r.highestSeverity != Some(High) && r.isClean
    ensures d.flaggedWords.Some? ==> d.flaggedWords.value == Join(r.flaggedWords, ", ")
  {
    if r.highestSeverity == Some(High) then Decision(Rejected, Some(Join(r.flaggedWords, ", ")))
    else if !r.isClean then Decision(Pending, Some(Join(r.flaggedWords, ", ")))
    else Decision(Pending, None)
  }

  /** `POST /api/posts`.  The length guard compares against
      `MAX_CONTENT_LENGTH`, which the word-filter module does not export, so
      `content.length > undefined` is false and no content is refused for its
      length; only the sanitizer's truncation bounds it. */
  method SubmitPost(db: Db, content: JsonValue, now: Time) returns (resp: SubmitResponse)
    requires db.Valid()
    requires AllLiteral(FilterView(db.filters))
    modifies db`posts, db`nextPostId
    ensures db.Valid()
    ensures !IsValidContent(content) ==>
      resp == Failure(400, ContentRequired) && db.posts == old(db.posts) && db.nextPostId == old(db.nextPostId)
    ensures IsValidContent(content) ==>
      var sanitized := SanitizeContent(content);
      var d := Decide(Check(JString(sanitized), FilterView(old(db.filters))));
      && db.posts == old(db.posts) + [Post(old(db.nextPostId), sanitized, now, d.status, d.flaggedWords, now, now)]
      && db.nextPostId == old(db.nextPostId) + 1
      && resp == if d.status == Rejected then Success(200, GuidelinesMessage, Rejected, None)
                 else Success(201, ModerationMessage, Pending, Some(old(db.nextPostId)))
  {
    if !content.JString? || content.s == [] || |Trim(content.s)| == 0 {
      return Failure(400, ContentRequired);
    }
    var sanitized := SanitizeContent(content);
    var filterResult := CheckContent(JString(sanitized), FilterView(db.filters));
    var approvalStatus := Pending;
    var flaggedWords: Option<string> := None;
    if filterResult.highestSeverity == Some(High) {
      approvalStatus := Rejected;
      flaggedWords := Some(Join(filterResult.flaggedWords, ", "));
      var _ := db.InsertPost(sanitized, approvalStatus, flaggedWords, now);
      return Success(200, GuidelinesMessage, Rejected, None);
    } else if !filterResult.isClean {
      flaggedWords := Some(Join(filterResult.flaggedWords, ", "));
    }
    var postId := db.InsertPost(sanitized, approvalStatus, flaggedWords, now);
    resp := Success(201, ModerationMessage, approvalStatus, Some(postId));
  }

  // ---------------------------------------------------------------------
  // Lemmas about the decision

  /** Auto-rejection happens exactly when some high-severity filter fires. */
  lemma RejectedIffHighFilterFires(s: string, fs: seq<Filter>)
    requires s != [] && AllLiteral(fs)
    ensures Decide(Check(JString(s), fs)).status == Rejected <==>
      exists k :: 0 <= k < |fs| && fs[k].severity == High && Hits(Lower(s), fs[k])
  {
    var t := Lower(s);
    assert Check(JString(s), fs).highestSeverity == Highest(Matched(t, fs));
    if HasSeverity(Matched(t, fs), High) {
      HighMatchFires(t, fs);
    }
    if exists k :: 0 <= k < |fs| && fs[k].severity == High && Hits(t, fs[k]) {
      var k :| 0 <= k < |fs| && fs[k].severity == High && Hits(t, fs[k]);
      HighFilterMatches(t, fs, k);
    }
  }

  /** A high-severity match comes from a high-severity filter that fires. */
  lemma HighMatchFires(t: string, fs: seq<Filter>)
    requires HasSeverity(Matched(t, fs), High)
    ensures exists k :: 0 <= k < |fs| && fs[k].severity == High && Hits(t, fs[k])
  {
    var ms := Matched(t, fs);
    var j :| 0 <= j < |ms| && ms[j].severity == High;
    MatchedCounts(t, fs, ms[j]);
    assert ms[j] in multiset(ms);
    assert ms[j] in multiset(fs);
    var k :| 0 <= k < |fs| && fs[k] == ms[j];
  }

  /** A high-severity filter that fires puts high severity among the matches. */
  lemma HighFilterMatches(t: string, fs: seq<Filter>, k: nat)
    requires k < |fs| && fs[k].severity == High && Hits(t, fs[k])
    ensures HasSeverity(Matched(t, fs), High)
  {
    var ms := Matched(t, fs);
    MatchedCounts(t, fs, fs[k]);
    assert fs[k] in multiset(fs);
    assert fs[k] in multiset(ms);
    var j :| 0 <= j < |ms| && ms[j] == fs[k];
  }

  /** `flagged_words` is null exactly when no filter fires. */
  lemma FlaggedNullIffNothingFires(s: string, fs: seq<Filter>)
    requires s != [] && AllLiteral(fs)
    ensures Decide(Check(JString(s), fs)).flaggedWords.None? <==>
      forall k :: 0 <= k < |fs| ==> !Hits(Lower(s), fs[k])
  {
    var t := Lower(s);
    var ms := Matched(t, fs);
    if ms != [] {
      MatchedCounts(t, fs, ms[0]);
      assert ms[0] in multiset(ms);
      assert ms[0] in multiset(fs);
      var k :| 0 <= k < |fs| && fs[k] == ms[0];
    }
    forall k | 0 <= k < |fs| && Hits(t, fs[k]) ensures ms != [] {
      MatchedCounts(t, fs, fs[k]);
      assert fs[k] in multiset(fs);
    }
  }

  /** Every seeded filter word is spelled with lower-case letters only. */
  lemma DefaultWordsAreLetters()
    ensures forall k, i :: 0 <= k < |DefaultFilters| && 0 <= i < |DefaultFilters[k].word| ==>
      'a' <= DefaultFilters[k].word[i] <= 'z'
  {
  }

  /** Lower-case letters pass through `toLowerCase` and are regex literals. */
  lemma LowercaseWord(w: string)
    requires forall i :: 0 <= i < |w| ==> 'a' <= w[i] <= 'z'
    ensures IsRegexLiteral(w) && Lower(w) == w
  {
    var l := Lower(w);
    forall i | 0 <= i < |w| ensures l[i] == w[i] && !IsSyntaxChar(w[i]) {
      assert LowerChar(w[i]) == w[i];
    }
  }

  /** Every seeded filter word is a plain regex literal, so the seeded table
      meets the matcher's precondition. */
  lemma DefaultFiltersLiteral()
    ensures AllLiteral(DefaultFilters)
  {
    DefaultWordsAreLetters();
    forall k | 0 <= k < |DefaultFilters| ensures IsRegexLiteral(DefaultFilters[k].word) {
      LowercaseWord(DefaultFilters[k].word);
    }
  }

  /** With the seeded filters, content holding any of the six high-severity
      words as a whole word (in any letter case) is auto-rejected. */
  lemma SeededHighWordRejects(s: string, k: nat)
    requires s != [] && k < 6
    requires OccursAsWord(Lower(s), DefaultFilters[k].word)
    ensures AllLiteral(DefaultFilters) && Decide(Check(JString(s), DefaultFilters)).status == Rejected
  {
    DefaultFiltersLiteral();
    DefaultWordsAreLetters();
    LowercaseWord(DefaultFilters[k].word);
    assert DefaultFilters[k].severity == High;
    assert Hits(Lower(s), DefaultFilters[k]);
    RejectedIffHighFilterFires(s, DefaultFilters);
  }

  // ---------------------------------------------------------------------
  // GET /api/posts

  datatype PublicPost = PublicPost(id: int, content: string, timestamp: Time)

  datatype FeedResponse = FeedResponse(posts: seq<PublicPost>, total: nat, limit: int, offset: int)

  /** `ORDER BY timestamp DESC`. */
  predicate NewerOrSame(a: Post, b: Post)
  {
    a.timestamp >= b.timestamp
  }

  function Project(posts: seq<Post>): (r: seq<PublicPost>)
    ensures |r| == |posts|
    ensures forall k :: 0 <= k < |posts| ==> r[k] == PublicPost(posts[k].id, posts[k].content, posts[k].timestamp)
  {
    if posts == [] then [] else [PublicPost(posts[0].id, posts[0].content, posts[0].timestamp)] + Project(posts[1..])
  }

  /** The rows of the feed query. */
  function Feed(posts: seq<Post>, limit: int, offset: int): seq<PublicPost>
  {
    Page(Project(SortBy(WithStatus(posts, Approved), NewerOrSame)), limit, offset)
  }

  method GetPosts(db: Db, limit: Option<int>, offset: Option<int>) returns (resp: FeedResponse)
    ensures resp.limit == LimitParam(limit) && resp.offset == OffsetParam(offset)
    ensures resp.posts == Feed(db.posts, resp.limit, resp.offset)
    ensures resp.total == CountStatus(db.posts, Approved)
  {
    var l := LimitParam(limit);
    var o := OffsetParam(offset);
    resp := FeedResponse(Feed(db.posts, l, o), CountStatus(db.posts, Approved), l, o);
  }

  /** The feed holds at most `limit` rows, newest first. */
  lemma FeedNewestFirst(posts: seq<Post>, limit: int, offset: int)
    ensures var r := Feed(posts, limit, offset);
      && (limit >= 0 ==> |r| <= limit)
      && (forall k :: 0 < k < |r| ==> r[k - 1].timestamp >= r[k].timestamp)
  {
    var projected := ApprovedNewestFirst(posts);
    PageKeepsNeighbours(projected, (a: PublicPost, b: PublicPost) => a.timestamp >= b.timestamp, limit, offset);
  }

  /** The ordered, projected approved rows, before paging, are newest first. */
  lemma ApprovedNewestFirst(posts: seq<Post>) returns (projected: seq<PublicPost>)
    ensures projected == Project(SortBy(WithStatus(posts, Approved), NewerOrSame))
    ensures forall k :: 0 < k < |projected| ==> projected[k - 1].timestamp >= projected[k].timestamp
  {
    var sorted := SortBy(WithStatus(posts, Approved), NewerOrSame);
    SortBySorted(WithStatus(posts, Approved), NewerOrSame);
    projected := Project(sorted);
    forall k | 0 < k < |projected| ensures projected[k - 1].timestamp >= projected[k].timestamp {
      assert NewerOrSame(sorted[k - 1], sorted[k]);
    }
  }

  /** `q` shows an approved post of `posts`: its id, content and timestamp. */
  predicate ShowsApproved(posts: seq<Post>, q: PublicPost)
  {
    exists p :: p in posts && p.status == Approved && q == PublicPost(p.id, p.content, p.timestamp)
  }

  /** Every feed row shows an approved post: its id, content and timestamp. */
  lemma FeedOnlyApproved(posts: seq<Post>, limit: int, offset: int)
    ensures var r := Feed(posts, limit, offset);
      forall k :: 0 <= k < |r| ==> ShowsApproved(posts, r[k])
  {
    var sorted := SortBy(WithStatus(posts, Approved), NewerOrSame);
    var projected := Project(sorted);
    forall k | 0 <= k < |projected| ensures ShowsApproved(posts, projected[k]) {
      SortedApprovedFromPosts(posts, sorted[k]);
    }
    PageKeepsAll(projected, (q: PublicPost) => ShowsApproved(posts, q), limit, offset);
  }

  /** Every row of the ordered approved list is an approved post. */
  lemma SortedApprovedFromPosts(posts: seq<Post>, p: Post)
    requires p in SortBy(WithStatus(posts, Approved), NewerOrSame)
    ensures p in posts && p.status == Approved
  {
    var approved := WithStatus(posts, Approved);
    assert p in multiset(SortBy(approved, NewerOrSame));
    assert multiset(approved)[p] > 0;
    assert p in multiset(posts);
  }
}
