/**
 * The moderation routes under `/api/admin`: the review queue, approving and
 * rejecting, deleting posts, the word-filter list, and the statistics.  The
 * signed-in administrator's name arrives as a parameter; authentication is
 * not part of this model.
 */
module Admin {
  import opened Text
  import opened Seqs
  import opened WordFilter
  import opened Database
  import opened Queries

  const InvalidAction: string := "Invalid action. Must be \"approve\" or \"reject\""
  const PostNotFound: string := "Post not found"
  const WordRequired: string := "Word is required"
  const InvalidSeverity: string := "Severity must be low, medium, or high"
  const WordExists: string := "This word already exists in the filter list"
  const FilterNotFound: string := "Filter not found"
  const DefaultDeleteReason: string := "Deleted by admin"
  const DeleteFailed: string := "Failed to delete post"
  const AddFailed: string := "Failed to add filter"

  /** The JSON an admin route answers with. */
  datatype AdminResponse =
    | Error(code: nat, error: string)
    | PostUpdated(message: string, postId: int, status: Status)
    | PostDeleted(postId: int)
    | FilterAdded(filterId: int)
    | FilterDeleted(filterId: int)

  // ---------------------------------------------------------------------
  // GET /api/admin/posts

  /** The columns the review queue selects (no `updated_at`). */
  datatype QueueRow = QueueRow(id: int, content: string, timestamp: Time, status: Status,
                               flaggedWords: Option<string>, createdAt: Time)

  datatype QueueResponse = QueueResponse(posts: seq<QueueRow>, total: nat, limit: int, offset: int)

  /** `req.query.status || 'pending'`. */
  function StatusParam(query: Option<string>): (text: string)
    ensures query.None? || query == Some("") ==> text == "pending"
    ensures query.Some? && query.value != "" ==> text == query.value
  {
    if query.None? || query.value == "" then "pending" else query.value
  }

  /** `ORDER BY created_at DESC`. */
  predicate CreatedLater(a: Post, b: Post)
  {
    a.createdAt >= b.createdAt
  }

  function QueueProject(posts: seq<Post>): (r: seq<QueueRow>)
    ensures |r| == |posts|
    ensures forall k :: 0 <= k < |posts| ==>
      r[k] == QueueRow(posts[k].id, posts[k].content, posts[k].timestamp, posts[k].status, posts[k].flaggedWords, posts[k].createdAt)
  {
    if posts == [] then []
    else
      var p := posts[0];
      [QueueRow(p.id, p.content, p.timestamp, p.status, p.flaggedWords, p.createdAt)] + QueueProject(posts[1..])
  }

  /** The rows of the review-queue query. */
  function Queue(posts: seq<Post>, status: string, limit: int, offset: int): seq<QueueRow>
  {
    Page(QueueProject(SortBy(WhereStatus(posts, status), CreatedLater)), limit, offset)
  }

  /** `SELECT COUNT(*) FROM posts WHERE approval_status = ?`. */
  function CountWhere(posts: seq<Post>, status: string): (n: nat)
    ensures n <= |posts|
  {
    match ParseStatus(status)
    case None => 0
    case Some(s) => CountStatus(posts, s)
  }

  method ListPosts(db: Db, status: Option<string>, limit: Option<int>, offset: Option<int>) returns (resp: QueueResponse)
    ensures resp.limit == LimitParam(limit) && resp.offset == OffsetParam(offset)
    ensures resp.posts == Queue(db.posts, StatusParam(status), resp.limit, resp.offset)
    ensures resp.total == CountWhere(db.posts, StatusParam(status))
  {
    var text := StatusParam(status);
    var l := LimitParam(limit);
    var o := OffsetParam(offset);
    resp := QueueResponse(Queue(db.posts, text, l, o), CountWhere(db.posts, text), l, o);
  }

  /** The queue holds at most `limit` rows, latest created first, each with
      the requested status. */
  lemma QueueOrdered(posts: seq<Post>, status: string, limit: int, offset: int)
    ensures var r := Queue(posts, status, limit, offset);
      && (limit >= 0 ==> |r| <= limit)
      && (forall k :: 0 < k < |r| ==> r[k - 1].createdAt >= r[k].createdAt)
      && (forall k :: 0 <= k < |r| ==> StatusText(r[k].status) == status)
  {
    var projected := OrderedQueue(posts, status);
    PageKeepsNeighbours(projected, (a: QueueRow, b: QueueRow) => a.createdAt >= b.createdAt, limit, offset);
    PageKeepsAll(projected, (q: QueueRow) => StatusText(q.status) == status, limit, offset);
  }

  /** The selected, ordered, projected rows before paging. */
  lemma OrderedQueue(posts: seq<Post>, status: string) returns (projected: seq<QueueRow>)
    ensures projected == QueueProject(SortBy(WhereStatus(posts, status), CreatedLater))
    ensures forall k :: 0 < k < |projected| ==> projected[k - 1].createdAt >= projected[k].createdAt
    ensures forall k :: 0 <= k < |projected| ==> StatusText(projected[k].status) == status
  {
    var selected := WhereStatus(posts, status);
    var sorted := SortBy(selected, CreatedLater);
    SortBySorted(selected, CreatedLater);
    projected := QueueProject(sorted);
    forall k | 0 < k < |projected| ensures projected[k - 1].createdAt >= projected[k].createdAt {
      assert CreatedLater(sorted[k - 1], sorted[k]);
    }
    forall k | 0 <= k < |projected| ensures StatusText(projected[k].status) == status {
      assert sorted[k] in multiset(sorted);
      assert multiset(selected)[sorted[k]] > 0;
    }
  }

  /** A status text that names no status gives an empty queue and a zero
      total. */
  lemma UnknownStatusEmptyQueue(posts: seq<Post>, status: string, limit: int, offset: int)
    requires status != "pending" && status != "approved" && status != "rejected"
    ensures Queue(posts, status, limit, offset) == [] && CountWhere(posts, status) == 0
  {
  }

  // ---------------------------------------------------------------------
  // PUT /api/admin/posts/:id

  /** The status an `action` sets; `includes` compares strictly, so only the
      two exact strings qualify. */
  function ParseAction(action: JsonValue): (r: Option<Status>)
    ensures r == Some(Approved) <==> action == JString("approve")
    ensures r == Some(Rejected) <==> action == JString("reject")
    ensures r != Some(Pending)
  {
    if action == JString("approve") then Some(Approved)
    else if action == JString("reject") then Some(Rejected)
    else None
  }

  /** `reason || null`: a missing or empty reason is stored as null. */
  function StoredReason(reason: Option<string>): (r: Option<string>)
    ensures r.Some? ==> r.value != [] && reason == r
    ensures r.None? ==> reason.None? || reason == Some([])
  {
    if reason.None? || reason.value == [] then None else reason
  }

  function UpdatedMessage(s: Status): string
  {
    if s == Approved then "Post approved successfully" else "Post rejected successfully"
  }

  /** Approve or reject: sets the status and `updated_at`, then logs the
      action.  An unknown action or id changes nothing and logs nothing. */
  method UpdatePost(db: Db, id: int, action: JsonValue, reason: Option<string>, admin: string, now: Time)
    returns (resp: AdminResponse)
    requires db.Valid()
    modifies db`posts, db`log, db`nextLogId
    ensures db.Valid()
    ensures ParseAction(action).None? ==>
      resp == Error(400, InvalidAction) && db.posts == old(db.posts) && db.log == old(db.log)
      && db.nextLogId == old(db.nextLogId)
    ensures ParseAction(action).Some? && FindPost(old(db.posts), id).None? ==>
      resp == Error(404, PostNotFound) && db.posts == old(db.posts) && db.log == old(db.log)
      && db.nextLogId == old(db.nextLogId)
    ensures ParseAction(action).Some? && FindPost(old(db.posts), id).Some? ==>
      var s := ParseAction(action).value;
      var i := FindPost(old(db.posts), id).value;
      && db.posts == old(db.posts)[i := old(db.posts)[i].(status := s, updatedAt := now)]
      && db.log == old(db.log) + [LogEntry(old(db.nextLogId), id, if s == Approved then Approve else Reject,
                                           admin, StoredReason(reason), now)]
      && db.nextLogId == old(db.nextLogId) + 1
      && resp == PostUpdated(UpdatedMessage(s), id, s)
  {
    var approvalStatus := ParseAction(action);
    if approvalStatus.None? {
      return Error(400, InvalidAction);
    }
    var changes := db.UpdateStatus(id, approvalStatus.value, now);
    if changes == 0 {
      return Error(404, PostNotFound);
    }
    var logged := if approvalStatus.value == Approved then Approve else Reject;
    assert db.posts[FindPost(old(db.posts), id).value].id == id;
    var ok := db.AppendLog(id, logged, admin, StoredReason(reason), now);
    resp := PostUpdated(UpdatedMessage(approvalStatus.value), id, approvalStatus.value);
  }

  // ---------------------------------------------------------------------
  // DELETE /api/admin/posts/:id

  /** `reason || 'Deleted by admin'`. */
  function DeleteReason(reason: Option<string>): (r: string)
    ensures r != []
    ensures reason.Some? && reason.value != [] ==> r == reason.value
    ensures reason.None? || reason == Some([]) ==> r == DefaultDeleteReason
  {
    if reason.None? || reason.value == [] then DefaultDeleteReason else reason.value
  }

  /** Logs the deletion first, then deletes the post.  Without foreign-key
      enforcement the log entry stays whatever the outcome, also behind a 404
      for an unknown id.  With it, logging an unknown id fails (the handler's
      500), and a successful delete cascades: every log entry of the post,
      the one just written included, goes with it. */
  method DeletePost(db: Db, id: int, reason: Option<string>, admin: string, now: Time)
    returns (resp: AdminResponse)
    requires db.Valid()
    modifies db`posts, db`log, db`nextLogId
    ensures db.Valid()
    ensures !db.foreignKeys ==>
      db.log == old(db.log) + [LogEntry(old(db.nextLogId), id, Delete, admin, Some(DeleteReason(reason)), now)]
      && db.nextLogId == old(db.nextLogId) + 1
    ensures !db.foreignKeys && FindPost(old(db.posts), id).None? ==>
      resp == Error(404, PostNotFound) && db.posts == old(db.posts)
    ensures db.foreignKeys && FindPost(old(db.posts), id).None? ==>
      resp == Error(500, DeleteFailed) && db.posts == old(db.posts) && db.log == old(db.log)
      && db.nextLogId == old(db.nextLogId)
    ensures FindPost(old(db.posts), id).Some? ==>
      var i := FindPost(old(db.posts), id).value;
      && resp == PostDeleted(id)
      && db.posts == old(db.posts)[..i] + old(db.posts)[i + 1..]
      && (db.foreignKeys ==> db.log == WithoutPost(old(db.log), id))
      && db.nextLogId == old(db.nextLogId) + 1
  {
    var entry := LogEntry(db.nextLogId, id, Delete, admin, Some(DeleteReason(reason)), now);
    var ok := db.AppendLog(id, Delete, admin, Some(DeleteReason(reason)), now);
    if !ok {
      return Error(500, DeleteFailed);
    }
    var changes := db.DeletePostRow(id);
    if changes == 0 {
      return Error(404, PostNotFound);
    }
    if db.foreignKeys {
      WithoutPostAppend(old(db.log), entry, id);
    }
    resp := PostDeleted(id);
  }

  // ---------------------------------------------------------------------
  // GET /api/admin/filters

  /** `ORDER BY severity DESC, word ASC`: severity is a TEXT column, so the
      descending order is that of the texts. */
  predicate ListedBefore(a: FilterRow, b: FilterRow)
  {
    if a.severity == b.severity then LexLe(a.word, b.word)
    else LexLe(SeverityText(b.severity), SeverityText(a.severity))
  }

  lemma ListedBeforeTotal()
    ensures Total(ListedBefore)
  {
    forall a: FilterRow, b: FilterRow ensures ListedBefore(a, b) || ListedBefore(b, a) {
      LexLeTotal(a.word, b.word);
      LexLeTotal(SeverityText(a.severity), SeverityText(b.severity));
    }
  }

  /** Where each severity's rows fall in the listing. */
  function ListingPlace(s: Severity): nat
  {
    match s
    case Medium => 0
    case Low => 1
    case High => 2
  }

  /** Ordering the severity texts descending puts "medium" first, then
      "low", then "high". */
  lemma SeverityTextOrder(a: FilterRow, b: FilterRow)
    requires a.severity != b.severity
    ensures ListedBefore(a, b) <==> ListingPlace(a.severity) < ListingPlace(b.severity)
  {
    assert LexLe("low", "medium") && !LexLe("medium", "low");
    assert LexLe("high", "low") && !LexLe("low", "high");
    assert LexLe("high", "medium") && !LexLe("medium", "high");
  }

  method ListFilters(db: Db) returns (rows: seq<FilterRow>)
    ensures multiset(rows) == multiset(db.filters)
    ensures SortedBy(rows, ListedBefore)
  {
    rows := SortBy(db.filters, ListedBefore);
    ListedBeforeTotal();
    SortBySorted(db.filters, ListedBefore);
  }

  // ---------------------------------------------------------------------
  // POST /api/admin/filters

  /** `['low', 'medium', 'high'].includes(severity)`. */
  function ParseSeverity(severity: JsonValue): (r: Option<Severity>)
    ensures r.Some? ==> severity == JString(SeverityText(r.value))
    ensures r.None? ==> forall s :: severity != JString(SeverityText(s))
  {
    if severity == JString("low") then Some(Low)
    else if severity == JString("medium") then Some(Medium)
    else if severity == JString("high") then Some(High)
    else None
  }

  /** `word.toLowerCase().trim()`. */
  function StoredWord(word: string): string
  {
    Trim(Lower(word))
  }

  /** A stored word is already lower-case and trimmed, so storing it again
      would not change it and the matcher's lower-casing leaves it as is. */
  lemma StoredWordNormal(word: string)
    ensures Lower(StoredWord(word)) == StoredWord(word)
    ensures Trim(StoredWord(word)) == StoredWord(word)
  {
    var x := Lower(word);
    var w := Trim(x);
    var lead := LeadingSpaces(x);
    assert w == x[lead..lead + |w|];
    LowerOfLoweredSlice(word, lead, lead + |w|);
    TrimOfTrimmed(w);
  }

  lemma TrimOfTrimmed(w: string)
    requires w == [] || (!IsJsSpace(w[0]) && !IsJsSpace(w[|w| - 1]))
    ensures Trim(w) == w
  {
    if w != [] {
      assert LeadingSpaces(w) == 0;
    }
  }

  /** The `code` better-sqlite3 puts on the error a UNIQUE violation raises:
      SQLite's extended result code, not the primary `SQLITE_CONSTRAINT`. */
  const UniqueViolationCode: string := "SQLITE_CONSTRAINT_UNIQUE"

  /** The handler's inner `catch` as written: an error whose code is exactly
      `SQLITE_CONSTRAINT` answers 400; any other is rethrown, and the outer
      `catch` answers 500. */
  function ConflictAnswer(code: string): (r: AdminResponse)
    ensures r.Error? && (r.code == 400 <==> code == "SQLITE_CONSTRAINT")
    ensures r.code == 400 ==> r.error == WordExists
    ensures r.code != 400 ==> r == Error(500, AddFailed)
  {
    if code == "SQLITE_CONSTRAINT" then Error(400, WordExists) else Error(500, AddFailed)
  }

  /** As written, a duplicate word is answered with 500, not with the
      "already exists" 400 the handler prepares for it. */
  lemma DuplicateWordAnswers500()
    ensures ConflictAnswer(UniqueViolationCode) == Error(500, AddFailed)
  {
    assert |UniqueViolationCode| != |"SQLITE_CONSTRAINT"|;
  }

  /** The check the handler evidently means: any constraint error, whether
      its code is the primary `SQLITE_CONSTRAINT` or an extended
      `SQLITE_CONSTRAINT_...`, answers 400. */
  function IntendedConflictAnswer(code: string): (r: AdminResponse)
    ensures r.Error? && (r.code == 400 <==> "SQLITE_CONSTRAINT" <= code)
    ensures r.code == 400 ==> r.error == WordExists
    ensures r.code != 400 ==> r == Error(500, AddFailed)
  {
    if "SQLITE_CONSTRAINT" <= code then Error(400, WordExists) else Error(500, AddFailed)
  }

  /** With the intended check a duplicate word gets the 400, and the primary
      code is answered as the written check answers it. */
  lemma IntendedDuplicateWordAnswers400()
    ensures IntendedConflictAnswer(UniqueViolationCode) == Error(400, WordExists)
    ensures IntendedConflictAnswer("SQLITE_CONSTRAINT") == ConflictAnswer("SQLITE_CONSTRAINT")
  {
    assert UniqueViolationCode[..|"SQLITE_CONSTRAINT"|] == "SQLITE_CONSTRAINT";
  }

  /** `POST /api/admin/filters` as written: a word already in the table makes
      the insert fail with the UNIQUE violation, which `ConflictAnswer` turns
      into a 500. */
  method AddFilter(db: Db, word: JsonValue, severity: JsonValue, now: Time) returns (resp: AdminResponse)
    requires db.Valid()
    modifies db`filters, db`nextFilterId
    ensures db.Valid()
    ensures !(word.JString? && word.s != []) ==>
      resp == Error(400, WordRequired) && db.filters == old(db.filters) && db.nextFilterId == old(db.nextFilterId)
    ensures word.JString? && word.s != [] && ParseSeverity(severity).None? ==>
      resp == Error(400, InvalidSeverity) && db.filters == old(db.filters) && db.nextFilterId == old(db.nextFilterId)
    ensures word.JString? && word.s != [] && ParseSeverity(severity).Some? && HasWord(old(db.filters), StoredWord(word.s)) ==>
      resp == Error(500, AddFailed) && db.filters == old(db.filters) && db.nextFilterId == old(db.nextFilterId)
    ensures word.JString? && word.s != [] && ParseSeverity(severity).Some? && !HasWord(old(db.filters), StoredWord(word.s)) ==>
      && resp == FilterAdded(old(db.nextFilterId))
      && db.filters == old(db.filters) + [FilterRow(old(db.nextFilterId), StoredWord(word.s), ParseSeverity(severity).value, now)]
      && db.nextFilterId == old(db.nextFilterId) + 1
  {
    if !word.JString? || word.s == [] {
      return Error(400, WordRequired);
    }
    var level := ParseSeverity(severity);
    if level.None? {
      return Error(400, InvalidSeverity);
    }
    var id := db.InsertFilter(StoredWord(word.s), level.value, now);
    if id.None? {
      DuplicateWordAnswers500();
      return ConflictAnswer(UniqueViolationCode);
    }
    resp := FilterAdded(id.value);
  }

  // ---------------------------------------------------------------------
  // DELETE /api/admin/filters/:id

  method DeleteFilter(db: Db, id: int) returns (resp: AdminResponse)
    requires db.Valid()
    modifies db`filters
    ensures db.Valid()
    ensures FindFilter(old(db.filters), id).None? ==> resp == Error(404, FilterNotFound) && db.filters == old(db.filters)
    ensures FindFilter(old(db.filters), id).Some? ==>
      var i := FindFilter(old(db.filters), id).value;
      resp == FilterDeleted(id) && db.filters == old(db.filters)[..i] + old(db.filters)[i + 1..]
  {
    var changes := db.DeleteFilterRow(id);
    if changes == 0 {
      return Error(404, FilterNotFound);
    }
    resp := FilterDeleted(id);
  }

  // ---------------------------------------------------------------------
  // GET /api/admin/stats

  datatype Stats = Stats(pending: nat, approved: nat, rejected: nat, total: nat, recentActions: seq<LogEntry>)

  /** `ORDER BY timestamp DESC` on the log. */
  predicate LoggedLater(a: LogEntry, b: LogEntry)
  {
    a.timestamp >= b.timestamp
  }

  /** `SELECT * FROM moderation_log ORDER BY timestamp DESC LIMIT 10`. */
  function RecentActions(log: seq<LogEntry>): seq<LogEntry>
  {
    Page(SortBy(log, LoggedLater), 10, 0)
  }

  /** The ten latest log entries (all of them when fewer), latest first. */
  lemma RecentActionsLatestFirst(log: seq<LogEntry>)
    ensures var r := RecentActions(log);
      && |r| == (if |log| < 10 then |log| else 10)
      && (forall k :: 0 < k < |r| ==> r[k - 1].timestamp >= r[k].timestamp)
      && (forall k :: 0 <= k < |r| ==> r[k] in log)
      && (forall e :: e in log && e !in r ==> forall k :: 0 <= k < |r| ==> r[k].timestamp >= e.timestamp)
  {
    var sorted := SortBy(log, LoggedLater);
    SortBySorted(log, LoggedLater);
    var n := if |log| < 10 then |log| else 10;
    assert RecentActions(log) == sorted[..n];
    LatestPrefix(log, sorted, n);
  }

  /** The first `n` entries of the log ordered latest first are latest first,
      are entries of the log, and are no older than any entry after them. */
  lemma LatestPrefix(log: seq<LogEntry>, sorted: seq<LogEntry>, n: nat)
    requires SortedBy(sorted, LoggedLater) && multiset(sorted) == multiset(log) && n <= |sorted|
    ensures var r := sorted[..n];
      && (forall k :: 0 < k < |r| ==> r[k - 1].timestamp >= r[k].timestamp)
      && (forall k :: 0 <= k < |r| ==> r[k] in log)
      && (forall e :: e in log && e !in r ==> forall k :: 0 <= k < |r| ==> r[k].timestamp >= e.timestamp)
  {
    var r := sorted[..n];
    forall k | 0 <= k < |r| ensures r[k] in log {
      assert r[k] in multiset(sorted);
    }
    forall k | 0 < k < |r| ensures r[k - 1].timestamp >= r[k].timestamp {
      assert LoggedLater(sorted[k - 1], sorted[k]);
    }
    forall e, k | e in log && e !in r && 0 <= k < |r| ensures r[k].timestamp >= e.timestamp {
      assert e in multiset(sorted);
      var j :| 0 <= j < |sorted| && sorted[j] == e;
      assert j >= |r|;
      SortedLater(sorted, k, j);
    }
  }

  /** In a list sorted latest first, an earlier entry is no older. */
  lemma {:induction false} SortedLater(s: seq<LogEntry>, i: nat, j: nat)
    requires SortedBy(s, LoggedLater)
    requires i <= j < |s|
    ensures s[i].timestamp >= s[j].timestamp
    decreases j - i
  {
    if i < j {
      SortedLater(s, i + 1, j);
      assert LoggedLater(s[i], s[i + 1]);
    }
  }

  method GetStats(db: Db) returns (stats: Stats)
    ensures stats.pending == CountStatus(db.posts, Pending)
    ensures stats.approved == CountStatus(db.posts, Approved)
    ensures stats.rejected == CountStatus(db.posts, Rejected)
    ensures stats.total == |db.posts|
    ensures stats.pending + stats.approved + stats.rejected == stats.total
    ensures stats.recentActions == RecentActions(db.log)
  {
    stats := Stats(CountStatus(db.posts, Pending), CountStatus(db.posts, Approved), CountStatus(db.posts, Rejected),
                   |db.posts|, RecentActions(db.log));
    StatusCountsAddUp(db.posts);
  }
}
