/**
 * The SQLite store: the `posts`, `moderation_log`, `word_filters` and
 * `admin_users` tables, their constraints, the statements the routes run,
 * and `initializeDatabase`.
 *
 * Each table is a sequence of rows in rowid order.  Column domains that the
 * schema enforces with CHECK become datatypes; UNIQUE and AUTOINCREMENT
 * become the class invariant `Valid`.  CURRENT_TIMESTAMP is the `now`
 * parameter of each statement.
 *
 * `moderation_log.post_id` references `posts(id)` with ON DELETE CASCADE.
 * SQLite honours that only when the connection enforces foreign keys, a
 * setting the code leaves at the driver's default; `Db.foreignKeys` is that
 * setting, and every statement is modelled for both values.
 */
module Database {
  import opened Text
  import opened WordFilter

  type Time = nat

  /** `approval_status`: CHECK(approval_status IN ('pending', 'approved', 'rejected')). */
  datatype Status = Pending | Approved | Rejected

  function StatusText(s: Status): string
  {
    match s
    case Pending => "pending"
    case Approved => "approved"
    case Rejected => "rejected"
  }

  /** `severity`: CHECK(severity IN ('low', 'medium', 'high')). */
  function SeverityText(s: Severity): string
  {
    match s
    case Low => "low"
    case Medium => "medium"
    case High => "high"
  }

  /** The `action` values the routes write to `moderation_log`. */
  datatype Action = Approve | Reject | Delete

  function ActionText(a: Action): string
  {
    match a
    case Approve => "approve"
    case Reject => "reject"
    case Delete => "delete"
  }

  datatype Post = Post(id: int, content: string, timestamp: Time, status: Status,
                       flaggedWords: Option<string>, createdAt: Time, updatedAt: Time)

  datatype LogEntry = LogEntry(id: int, postId: int, action: Action, adminUsername: string,
                               reason: Option<string>, timestamp: Time)

  datatype FilterRow = FilterRow(id: int, word: string, severity: Severity, createdAt: Time)

  /** The default word list, as the code has it (the comment calls the last
      three "Medium"; their value is low). */
  const DefaultFilters: seq<Filter> := [
    Filter("damn", High), Filter("hell", High), Filter("hate", High),
    Filter("kill", High), Filter("die", High), Filter("suicide", High),
    Filter("death", Medium),
    Filter("angry", Low), Filter("mad", Low), Filter("upset", Low)
  ]

  const DefaultAdmin: string := "admin"

  // ---------------------------------------------------------------------
  // Table constraints

  /** INTEGER PRIMARY KEY AUTOINCREMENT: ids in rowid order, positive, below
      the next id to hand out. */
  predicate PostIdsValid(posts: seq<Post>, next: int)
  {
    && (forall i :: 0 <= i < |posts| ==> 1 <= posts[i].id < next)
    && (forall i, j :: 0 <= i < j < |posts| ==> posts[i].id < posts[j].id)
  }

  predicate LogIdsValid(log: seq<LogEntry>, next: int)
  {
    && (forall i :: 0 <= i < |log| ==> 1 <= log[i].id < next)
    && (forall i, j :: 0 <= i < j < |log| ==> log[i].id < log[j].id)
  }

  predicate FilterIdsValid(rows: seq<FilterRow>, next: int)
  {
    && (forall i :: 0 <= i < |rows| ==> 1 <= rows[i].id < next)
    && (forall i, j :: 0 <= i < j < |rows| ==> rows[i].id < rows[j].id)
  }

  /** `word TEXT UNIQUE NOT NULL`. */
  predicate UniqueWords(rows: seq<FilterRow>)
  {
    forall i, j :: 0 <= i < j < |rows| ==> rows[i].word != rows[j].word
  }

  predicate UniqueNames(names: seq<string>)
  {
    forall i, j :: 0 <= i < j < |names| ==> names[i] != names[j]
  }

  predicate HasWord(rows: seq<FilterRow>, w: string)
  {
    exists k :: 0 <= k < |rows| && rows[k].word == w
  }

  // ---------------------------------------------------------------------
  // Row lookup and the effect of each statement on a table

  /** `WHERE id = ?` on `posts`: the position of the row with that id. */
  function FindPost(posts: seq<Post>, id: int): (r: Option<nat>)
    ensures r.Some? ==> r.value < |posts| && posts[r.value].id == id
    ensures r.None? ==> forall k :: 0 <= k < |posts| ==> posts[k].id != id
  {
    if posts == [] then None
    else if posts[0].id == id then Some(0)
    else match FindPost(posts[1..], id)
      case Some(k) => Some(k + 1)
      case None => None
  }

  function FindFilter(rows: seq<FilterRow>, id: int): (r: Option<nat>)
    ensures r.Some? ==> r.value < |rows| && rows[r.value].id == id
    ensures r.None? ==> forall k :: 0 <= k < |rows| ==> rows[k].id != id
  {
    if rows == [] then None
    else if rows[0].id == id then Some(0)
    else match FindFilter(rows[1..], id)
      case Some(k) => Some(k + 1)
      case None => None
  }

  /** `INSERT OR IGNORE INTO word_filters (word, severity)`: the row is added
      unless its word is already there.  AUTOINCREMENT draws the new id before
      the UNIQUE check, and an ignored row does not give it back: the
      statement completes, so the sequence keeps the id either way. */
  function InsertOrIgnore(rows: seq<FilterRow>, next: int, f: Filter, now: Time): (seq<FilterRow>, int)
  {
    if HasWord(rows, f.word) then (rows, next + 1)
    else (rows + [FilterRow(next, f.word, f.severity, now)], next + 1)
  }

  /** The seeding loop: `INSERT OR IGNORE` of each of `ds` in order. */
  function Seed(rows: seq<FilterRow>, next: int, ds: seq<Filter>, now: Time): (seq<FilterRow>, int)
  {
    if ds == [] then (rows, next)
    else
      var (rows', next') := Seed(rows, next, ds[..|ds| - 1], now);
      InsertOrIgnore(rows', next', ds[|ds| - 1], now)
  }

  /** The ids present in `posts`. */
  function PostIds(posts: seq<Post>): set<int>
  {
    set k | 0 <= k < |posts| :: posts[k].id
  }

  lemma PostIdsAppend(posts: seq<Post>, p: Post)
    ensures PostIds(posts + [p]) == PostIds(posts) + {p.id}
  {
    var ps := posts + [p];
    assert ps[|posts|] == p;
    forall x | x in PostIds(posts) ensures x in PostIds(ps) {
      var k :| 0 <= k < |posts| && posts[k].id == x;
      assert ps[k] == posts[k];
    }
  }

  lemma PostIdsReplace(posts: seq<Post>, i: nat, q: Post)
    requires i < |posts| && q.id == posts[i].id
    ensures PostIds(posts[i := q]) == PostIds(posts)
  {
    var ps := posts[i := q];
    forall x | x in PostIds(posts) ensures x in PostIds(ps) {
      var k :| 0 <= k < |posts| && posts[k].id == x;
      assert ps[k].id == x;
    }
  }

  /** Every log entry names a post that exists: what an enforced foreign key
      guarantees. */
  predicate LogReferencesPosts(log: seq<LogEntry>, posts: seq<Post>)
  {
    forall i :: 0 <= i < |log| ==> log[i].postId in PostIds(posts)
  }

  /** `ON DELETE CASCADE`: the log without the entries of post `id`. */
  function WithoutPost(log: seq<LogEntry>, id: int): (r: seq<LogEntry>)
    ensures |r| <= |log|
    ensures forall k :: 0 <= k < |r| ==> r[k] in log && r[k].postId != id
    ensures forall e :: e in log && e.postId != id ==> e in r
  {
    if log == [] then []
    else if log[0].postId == id then WithoutPost(log[1..], id)
    else [log[0]] + WithoutPost(log[1..], id)
  }

  /** The cascade keeps the id order of the log. */
  lemma {:induction false} WithoutPostKeepsIds(log: seq<LogEntry>, id: int, next: int)
    requires LogIdsValid(log, next)
    ensures LogIdsValid(WithoutPost(log, id), next)
  {
    if log != [] {
      var tail := log[1..];
      assert LogIdsValid(tail, next) by {
        forall i, j | 0 <= i < j < |tail| ensures tail[i].id < tail[j].id {
          assert tail[i] == log[i + 1] && tail[j] == log[j + 1];
        }
      }
      WithoutPostKeepsIds(tail, id, next);
      if log[0].postId != id {
        var rest := WithoutPost(tail, id);
        forall k | 0 <= k < |rest| ensures log[0].id < rest[k].id {
          var j :| 0 <= j < |tail| && tail[j] == rest[k];
          assert log[j + 1] == rest[k];
        }
        LogIdsCons(log[0], rest, next);
      }
    }
  }

  lemma LogIdsCons(e: LogEntry, rest: seq<LogEntry>, next: int)
    requires 1 <= e.id < next && LogIdsValid(rest, next)
    requires forall k :: 0 <= k < |rest| ==> e.id < rest[k].id
    ensures LogIdsValid([e] + rest, next)
  {
    var r := [e] + rest;
    forall i, j | 0 <= i < j < |r| ensures r[i].id < r[j].id {
      assert r[j] == rest[j - 1];
      if i > 0 {
        assert r[i] == rest[i - 1];
      }
    }
  }

  /** An entry just appended for post `id` goes with the cascade too. */
  lemma {:induction false} WithoutPostAppend(log: seq<LogEntry>, e: LogEntry, id: int)
    requires e.postId == id
    ensures WithoutPost(log + [e], id) == WithoutPost(log, id)
  {
    if log == [] {
      assert [e][1..] == [];
    } else {
      assert (log + [e])[1..] == log[1..] + [e];
      WithoutPostAppend(log[1..], e, id);
    }
  }

  /** Deleting post `id` and its log entries keeps every other entry's
      reference valid. */
  /** Deleting a post row keeps the remaining ids increasing and in range. */
  lemma RemovePostKeepsIds(posts: seq<Post>, i: nat, next: int)
    requires i < |posts|
    requires PostIdsValid(posts, next)
    ensures PostIdsValid(posts[..i] + posts[i + 1..], next)
  {
    var rest := posts[..i] + posts[i + 1..];
    forall a | 0 <= a < |rest| ensures rest[a] == posts[if a < i then a else a + 1] {
    }
  }

  /** Deleting a filter row keeps the remaining ids increasing and in range,
      and the words unique. */
  lemma RemoveFilterKeepsValid(rows: seq<FilterRow>, i: nat, next: int)
    requires i < |rows|
    requires FilterIdsValid(rows, next) && UniqueWords(rows)
    ensures FilterIdsValid(rows[..i] + rows[i + 1..], next) && UniqueWords(rows[..i] + rows[i + 1..])
  {
    var rest := rows[..i] + rows[i + 1..];
    forall a | 0 <= a < |rest| ensures rest[a] == rows[if a < i then a else a + 1] {
    }
  }

  lemma DeleteKeepsReferences(log: seq<LogEntry>, posts: seq<Post>, i: nat)
    requires i < |posts|
    requires LogReferencesPosts(log, posts)
    ensures LogReferencesPosts(WithoutPost(log, posts[i].id), posts[..i] + posts[i + 1..])
  {
    var rest := posts[..i] + posts[i + 1..];
    var r := WithoutPost(log, posts[i].id);
    forall k | 0 <= k < |r| ensures r[k].postId in PostIds(rest) {
      var j :| 0 <= j < |log| && log[j] == r[k];
      var m :| 0 <= m < |posts| && posts[m].id == r[k].postId;
      if m < i {
        assert rest[m] == posts[m];
      } else {
        assert m != i;
        assert rest[m - 1] == posts[m];
      }
    }
  }

  // ---------------------------------------------------------------------
  // The store

  class Db {
    /** Whether the connection enforces foreign keys. */
    const foreignKeys: bool
    var posts: seq<Post>
    var log: seq<LogEntry>
    var filters: seq<FilterRow>
    var admins: seq<string>
    var nextPostId: int
    var nextLogId: int
    var nextFilterId: int

    ghost predicate Valid()
      reads this
    {
      && PostIdsValid(posts, nextPostId)
      && LogIdsValid(log, nextLogId)
      && FilterIdsValid(filters, nextFilterId)
      && UniqueWords(filters)
      && UniqueNames(admins)
      && (foreignKeys ==> LogReferencesPosts(log, posts))
      && nextPostId >= 1 && nextLogId >= 1 && nextFilterId >= 1
    }

    /** The tables as `CREATE TABLE` leaves them in a fresh database file. */
    constructor (foreignKeys: bool)
      ensures Valid()
      ensures this.foreignKeys == foreignKeys
      ensures posts == [] && log == [] && filters == [] && admins == []
      ensures nextPostId == 1 && nextLogId == 1 && nextFilterId == 1
    {
      this.foreignKeys := foreignKeys;
      posts, log, filters, admins := [], [], [], [];
      nextPostId, nextLogId, nextFilterId := 1, 1, 1;
    }

    /** `INSERT INTO posts (content, approval_status, flagged_words)`;
        returns `lastInsertRowid`. */
    method InsertPost(content: string, status: Status, flaggedWords: Option<string>, now: Time) returns (id: int)
      requires Valid()
      modifies this`posts, this`nextPostId
      ensures Valid()
      ensures id == old(nextPostId) && nextPostId == id + 1
      ensures forall k :: 0 <= k < |old(posts)| ==> old(posts)[k].id < id
      ensures posts == old(posts) + [Post(id, content, now, status, flaggedWords, now, now)]
    {
      id := nextPostId;
      PostIdsAppend(posts, Post(id, content, now, status, flaggedWords, now, now));
      posts := posts + [Post(id, content, now, status, flaggedWords, now, now)];
      nextPostId := nextPostId + 1;
    }

    /** `UPDATE posts SET approval_status = ?, updated_at = CURRENT_TIMESTAMP
        WHERE id = ?`; returns `changes`. */
    method UpdateStatus(id: int, status: Status, now: Time) returns (changes: nat)
      requires Valid()
      modifies this`posts
      ensures Valid()
      ensures FindPost(old(posts), id).None? ==> changes == 0 && posts == old(posts)
      ensures FindPost(old(posts), id).Some? ==>
        var i := FindPost(old(posts), id).value;
        changes == 1 && posts == old(posts)[i := old(posts)[i].(status := status, updatedAt := now)]
    {
      match FindPost(posts, id)
      case None =>
        changes := 0;
      case Some(i) =>
        PostIdsReplace(posts, i, posts[i].(status := status, updatedAt := now));
        posts := posts[i := posts[i].(status := status, updatedAt := now)];
        changes := 1;
    }

    /** `DELETE FROM posts WHERE id = ?`; returns `changes`.  With foreign
        keys enforced the delete cascades to the post's log entries. */
    method DeletePostRow(id: int) returns (changes: nat)
      requires Valid()
      modifies this`posts, this`log
      ensures Valid()
      ensures FindPost(old(posts), id).None? ==> changes == 0 && posts == old(posts) && log == old(log)
      ensures FindPost(old(posts), id).Some? ==>
        var i := FindPost(old(posts), id).value;
        && changes == 1 && posts == old(posts)[..i] + old(posts)[i + 1..]
        && log == if foreignKeys then WithoutPost(old(log), id) else old(log)
    {
      match FindPost(posts, id)
      case None =>
        changes := 0;
      case Some(i) =>
        RemovePostKeepsIds(posts, i, nextPostId);
        if foreignKeys {
          DeleteKeepsReferences(log, posts, i);
          WithoutPostKeepsIds(log, id, nextLogId);
          log := WithoutPost(log, id);
        }
        posts := posts[..i] + posts[i + 1..];
        changes := 1;
    }

    /** `INSERT INTO moderation_log (post_id, action, admin_username, reason)`.
        With foreign keys enforced the insert fails (and changes nothing)
        when no post has that id; `ok` tells whether the row went in. */
    method AppendLog(postId: int, action: Action, adminUsername: string, reason: Option<string>, now: Time)
      returns (ok: bool)
      requires Valid()
      modifies this`log, this`nextLogId
      ensures Valid()
      ensures ok <==> !foreignKeys || postId in PostIds(posts)
      ensures ok ==>
        nextLogId == old(nextLogId) + 1 && log == old(log) + [LogEntry(old(nextLogId), postId, action, adminUsername, reason, now)]
      ensures !ok ==> nextLogId == old(nextLogId) && log == old(log)
    {
      if foreignKeys && postId !in PostIds(posts) {
        return false;
      }
      log := log + [LogEntry(nextLogId, postId, action, adminUsername, reason, now)];
      nextLogId := nextLogId + 1;
      ok := true;
    }

    /** `INSERT INTO word_filters (word, severity)`: fails with a constraint
        error when the word exists; otherwise returns the new id. */
    method InsertFilter(word: string, severity: Severity, now: Time) returns (id: Option<int>)
      requires Valid()
      modifies this`filters, this`nextFilterId
      ensures Valid()
      ensures HasWord(old(filters), word) ==> id.None? && filters == old(filters) && nextFilterId == old(nextFilterId)
      ensures !HasWord(old(filters), word) ==>
        id == Some(old(nextFilterId)) && nextFilterId == old(nextFilterId) + 1
        && filters == old(filters) + [FilterRow(old(nextFilterId), word, severity, now)]
    {
      if HasWord(filters, word) {
        id := None;
      } else {
        id := Some(nextFilterId);
        filters := filters + [FilterRow(nextFilterId, word, severity, now)];
        nextFilterId := nextFilterId + 1;
      }
    }

    /** `INSERT OR IGNORE INTO word_filters (word, severity)`. */
    method InsertOrIgnoreFilter(f: Filter, now: Time)
      requires Valid()
      modifies this`filters, this`nextFilterId
      ensures Valid()
      ensures (filters, nextFilterId) == InsertOrIgnore(old(filters), old(nextFilterId), f, now)
    {
      if !HasWord(filters, f.word) {
        filters := filters + [FilterRow(nextFilterId, f.word, f.severity, now)];
      }
      nextFilterId := nextFilterId + 1;
    }

    /** `DELETE FROM word_filters WHERE id = ?`; returns `changes`. */
    method DeleteFilterRow(id: int) returns (changes: nat)
      requires Valid()
      modifies this`filters
      ensures Valid()
      ensures FindFilter(old(filters), id).None? ==> changes == 0 && filters == old(filters)
      ensures FindFilter(old(filters), id).Some? ==>
        var i := FindFilter(old(filters), id).value;
        changes == 1 && filters == old(filters)[..i] + old(filters)[i + 1..]
    {
      match FindFilter(filters, id)
      case None =>
        changes := 0;
      case Some(i) =>
        RemoveFilterKeepsValid(filters, i, nextFilterId);
        filters := filters[..i] + filters[i + 1..];
        changes := 1;
    }

    /** `initializeDatabase`: seeds the default filters with `INSERT OR
        IGNORE` in one transaction, then creates the default admin when
        `admin_users` is empty.  Posts and the log are left alone. */
    method Initialize(now: Time)
      requires Valid()
      modifies this`filters, this`nextFilterId, this`admins
      ensures Valid()
      ensures (filters, nextFilterId) == Seed(old(filters), old(nextFilterId), DefaultFilters, now)
      ensures admins == if old(admins) == [] then [DefaultAdmin] else old(admins)
    {
      for i := 0 to |DefaultFilters|
        invariant Valid() && admins == old(admins)
        invariant (filters, nextFilterId) == Seed(old(filters), old(nextFilterId), DefaultFilters[..i], now)
      {
        assert DefaultFilters[..i + 1][..i] == DefaultFilters[..i];
        InsertOrIgnoreFilter(DefaultFilters[i], now);
      }
      assert DefaultFilters[..|DefaultFilters|] == DefaultFilters;
      if |admins| == 0 {
        admins := [DefaultAdmin];
      }
    }
  }

  // ---------------------------------------------------------------------
  // Lemmas about seeding

  /** Seeding only appends: existing rows, their severities included, stay
      as they were, and every appended row is a listed filter whose word was
      missing. */
  lemma {:induction false} SeedAppendsOnly(rows: seq<FilterRow>, next: int, ds: seq<Filter>, now: Time)
    ensures var (rows', next') := Seed(rows, next, ds, now);
      |rows| <= |rows'| && rows'[..|rows|] == rows && next' == next + |ds|
    ensures var (rows', _) := Seed(rows, next, ds, now);
      forall k :: |rows| <= k < |rows'| ==> !HasWord(rows, rows'[k].word) && Filter(rows'[k].word, rows'[k].severity) in ds
    decreases |ds|
  {
    if ds != [] {
      var init := ds[..|ds| - 1];
      SeedAppendsOnly(rows, next, init, now);
      var (mid, midNext) := Seed(rows, next, init, now);
      var d := ds[|ds| - 1];
      var (rows', next') := Seed(rows, next, ds, now);
      assert (rows', next') == InsertOrIgnore(mid, midNext, d, now);
      forall f | f in init ensures f in ds {
        var j :| 0 <= j < |init| && init[j] == f;
        assert ds[j] == f;
      }
      if !HasWord(mid, d.word) {
        assert rows' == mid + [FilterRow(midNext, d.word, d.severity, now)];
        forall k | 0 <= k < |rows| ensures rows[k].word != d.word {
          assert mid[k] == rows[k];
        }
        assert rows'[..|rows|] == mid[..|rows|];
      }
    }
  }

  /** After seeding every listed word is present. */
  lemma {:induction false} SeedCoversDefaults(rows: seq<FilterRow>, next: int, ds: seq<Filter>, now: Time)
    ensures forall f :: f in ds ==> HasWord(Seed(rows, next, ds, now).0, f.word)
    decreases |ds|
  {
    if ds != [] {
      var init := ds[..|ds| - 1];
      SeedCoversDefaults(rows, next, init, now);
      var (mid, midNext) := Seed(rows, next, init, now);
      var d := ds[|ds| - 1];
      var rows' := Seed(rows, next, ds, now).0;
      SeedAppendsOnly(mid, midNext, [d], now);
      assert Seed(mid, midNext, [d], now) == InsertOrIgnore(mid, midNext, d, now);
      assert rows'[..|mid|] == mid;
      forall f | f in ds ensures HasWord(rows', f.word) {
        if f in init {
          var k :| 0 <= k < |mid| && mid[k].word == f.word;
          assert rows'[k] == mid[k];
        } else {
          assert f == d;
          if !HasWord(mid, d.word) {
            assert rows'[|mid|].word == d.word;
          }
        }
      }
    }
  }

  /** Seeding preserves UNIQUE(word): no word is ever duplicated. */
  lemma {:induction false} SeedKeepsWordsUnique(rows: seq<FilterRow>, next: int, ds: seq<Filter>, now: Time)
    requires UniqueWords(rows)
    ensures UniqueWords(Seed(rows, next, ds, now).0)
    decreases |ds|
  {
    if ds != [] {
      var init := ds[..|ds| - 1];
      SeedKeepsWordsUnique(rows, next, init, now);
      var (mid, midNext) := Seed(rows, next, init, now);
      var d := ds[|ds| - 1];
      if !HasWord(mid, d.word) {
        var rows' := mid + [FilterRow(midNext, d.word, d.severity, now)];
        forall i, j | 0 <= i < j < |rows'| ensures rows'[i].word != rows'[j].word {
          if j == |mid| {
            assert rows'[i] == mid[i];
          }
        }
      }
    }
  }

  /** Seeding when every listed word is already present leaves the rows as
      they are; each ignored insert still uses up one id. */
  lemma {:induction false} SeedPresentIsNoop(rows: seq<FilterRow>, next: int, ds: seq<Filter>, now: Time)
    requires forall f :: f in ds ==> HasWord(rows, f.word)
    ensures Seed(rows, next, ds, now) == (rows, next + |ds|)
    decreases |ds|
  {
    if ds != [] {
      var init := ds[..|ds| - 1];
      forall f | f in init ensures HasWord(rows, f.word) {
        var j :| 0 <= j < |init| && init[j] == f;
        assert ds[j] == f;
      }
      SeedPresentIsNoop(rows, next, init, now);
      assert ds[|ds| - 1] in ds;
    }
  }

  /** Re-running initialisation is harmless: seeding again leaves the rows
      as the first seeding made them, and only uses up one id per listed
      word. */
  lemma SeedIdempotent(rows: seq<FilterRow>, next: int, ds: seq<Filter>, now: Time, later: Time)
    ensures var (rows', next') := Seed(rows, next, ds, now);
      Seed(rows', next', ds, later) == (rows', next' + |ds|)
  {
    var (rows', next') := Seed(rows, next, ds, now);
    SeedCoversDefaults(rows, next, ds, now);
    SeedPresentIsNoop(rows', next', ds, later);
  }

  /** Listed words that are distinct and all new are appended in order,
      with consecutive ids. */
  lemma {:induction false} SeedFresh(rows: seq<FilterRow>, next: int, ds: seq<Filter>, now: Time)
    requires forall i, j :: 0 <= i < j < |ds| ==> ds[i].word != ds[j].word
    requires forall f :: f in ds ==> !HasWord(rows, f.word)
    ensures var (rows', next') := Seed(rows, next, ds, now);
      |rows'| == |rows| + |ds| && next' == next + |ds| && rows'[..|rows|] == rows
      && forall k :: 0 <= k < |ds| ==> rows'[|rows| + k] == FilterRow(next + k, ds[k].word, ds[k].severity, now)
    decreases |ds|
  {
    if ds != [] {
      var init := ds[..|ds| - 1];
      forall f | f in init ensures !HasWord(rows, f.word) {
        var j :| 0 <= j < |init| && init[j] == f;
        assert ds[j] == f;
      }
      SeedFresh(rows, next, init, now);
      var (mid, midNext) := Seed(rows, next, init, now);
      var d := ds[|ds| - 1];
      assert d in ds;
      forall k | 0 <= k < |mid| ensures mid[k].word != d.word {
        if k < |rows| {
          assert mid[k] == rows[k];
        } else {
          assert mid[k].word == ds[k - |rows|].word;
        }
      }
      var rows' := mid + [FilterRow(midNext, d.word, d.severity, now)];
      assert rows'[..|rows|] == mid[..|rows|];
    }
  }

  /** No two of the default filters share a word. */
  lemma DefaultWordsDistinct()
    ensures forall i, j :: 0 <= i < j < |DefaultFilters| ==> DefaultFilters[i].word != DefaultFilters[j].word
  {
    var ds := DefaultFilters;
    forall i, j | 0 <= i < j < |ds| ensures ds[i].word != ds[j].word {
      var a, b := ds[i].word, ds[j].word;
      assert |a| != |b| || a[0] != b[0] || a[1] != b[1];
    }
  }

  /** On an empty table the seed gives exactly the default list, in order. */
  lemma SeedOnEmpty(now: Time)
    ensures var (rows, next) := Seed([], 1, DefaultFilters, now);
      |rows| == |DefaultFilters| && next == 1 + |DefaultFilters|
      && forall k :: 0 <= k < |rows| ==>
           rows[k].id == k + 1 && rows[k].word == DefaultFilters[k].word && rows[k].severity == DefaultFilters[k].severity
  {
    var ds := DefaultFilters;
    DefaultWordsDistinct();
    var empty: seq<FilterRow> := [];
    SeedFresh(empty, 1, ds, now);
    var (rows, next) := Seed(empty, 1, ds, now);
    forall k | 0 <= k < |ds| ensures rows[k] == FilterRow(1 + k, ds[k].word, ds[k].severity, now) {
      assert rows[|empty| + k] == FilterRow(1 + k, ds[k].word, ds[k].severity, now);
    }
  }
}
