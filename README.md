# FaithWalk Journal moderation core, in Dafny

FaithWalk Journal is a small web service. Anyone can post an anonymous entry. Administrators
approve or reject entries, and only approved entries appear in the public feed. This project
models the service's content-moderation core and proves properties of the model:

- **Sanitizer** (`sanitizeContent`): four case-insensitive global removal passes. They remove
  `<script>` blocks, `<iframe>` blocks, the `javascript:` scheme and `on…=` event-handler
  prefixes. Then the text is trimmed and cut to 2000 characters. Each pass is a left-to-right,
  non-overlapping `replace` with the JavaScript regular expression semantics it uses: `\b`,
  `\w`, `\s` and the `i` flag.
- **Word filter** (`checkContent`): lower-cases the content and tests every stored filter word
  as a whole-word `\bword\b` match. It reports the matched words in table order and the
  highest severity among them. It is modelled once as a specification function (`Check`) and
  once as the source's loop (`CheckContent`), which is proved equal to it.
- **Store** (`database.js`): the `posts`, `moderation_log`, `word_filters` and `admin_users`
  tables. The `Db` class holds one sequence per table, in rowid order, plus the
  AUTOINCREMENT counters. Its invariant `Valid` covers id order, unique filter words, unique
  admin names and, when foreign keys are enforced, that every log entry names an existing post.
  `Initialize` is the seeding transaction (`INSERT OR IGNORE` of the ten default words, then
  the default admin). An ignored insert still uses up an AUTOINCREMENT id, because the id is
  drawn before the UNIQUE check and the statement completes. So every start on a seeded
  table advances the filter id counter by ten, and the next added filter gets a larger id.
- **Public routes**: submitting a post (validate, sanitize, match, choose
  pending/rejected, insert exactly one row, answer) and the approved feed (newest first,
  `limit` clamped to 100 with default 50, `offset`).
- **Admin routes**: the review queue, approve/reject with a log entry, delete with a log
  entry, the filter list, adding and deleting filter words, and the statistics.

Points where the code behaves other than a reader might expect; the model follows the code:

- No length check applies to a submitted post. The submit route's guard compares with
  `MAX_CONTENT_LENGTH`, which `wordFilter.js` does not export, so the comparison is against
  `undefined` and never rejects anything. Only the sanitizer's truncation to 2000 characters
  bounds the length.
- Only the four passes above run, once each. Other tags, other URL schemes and patterns that
  re-form after a removal stay in the text.
- The filter listing is ordered by the severity *text*, descending, which gives `medium`,
  `low`, `high` (`SeverityTextOrder`), not by rank.
- The seeded words `angry`, `mad` and `upset` carry severity `low`, as the code has it, even
  though the comment above them says "Medium".
- `ON DELETE CASCADE` on `moderation_log.post_id` only applies when the SQLite connection
  enforces foreign keys. The code never sets this and leaves it to the driver's default.
  `Db.foreignKeys` stands for that setting, and the delete route is specified for both values.
  Not enforced: the log entry written before the delete stays, even behind a 404. Enforced:
  logging an unknown id fails, so the route answers 500 and changes nothing, and a successful
  delete cascades away every log entry of the post, including the one just written.
- Adding a word that is already in the filter list answers 500 "Failed to add filter", not the
  400 the handler prepares for it (see "## Findings"). The table is unchanged either way.

Files: `text.dfy` (characters, lower-casing, trimming, joining, text order), `seqs.dfy`
(subsequences, insertion sort, LIMIT/OFFSET), `word_filter.dfy`, `sanitizer.dfy`,
`database.dfy`, `queries.dfy` (query-string clamps, status selection and counts),
`public_routes.dfy`, `admin_routes.dfy`.

## Model

| member | source | states |
|---|---|---|
| Text.Lower | server/utils/wordFilter.js:13 | the lower-cased text has the same length and each character is the ASCII lower-casing of the input character |
| Text.LowerOfLoweredSlice | server/routes/admin.js:223 | `toLowerCase` changes nothing in any slice of an already lower-cased text, so a lower-cased, trimmed word stays as it is |
| Text.Trim | server/utils/wordFilter.js:58 | the result is the slice after the leading whitespace; everything cut off at either end is JavaScript whitespace; the result neither starts nor ends with whitespace |
| Text.Join | server/routes/public.js:34 | `join(', ')`: empty for no words, starts with the first word, length is the total word length plus one separator between each pair |
| Text.LexLeTotal | server/routes/admin.js:194 | the text order used by ORDER BY on TEXT relates any two strings one way or the other |
| Text.LexLeAntisymmetric | server/routes/admin.js:194 | two strings ordered both ways are equal |
| Seqs.SortBy | server/routes/admin.js:95 | ORDER BY keeps every row: the result is a permutation of the input |
| Seqs.SortBySorted | server/routes/admin.js:95 | ORDER BY with a total relation yields rows in that order |
| Seqs.Page | server/routes/admin.js:96 | LIMIT/OFFSET: at most `limit` rows (none dropped when the limit does not bind), row k is input row offset+k, a negative offset counts as 0 and a negative limit means no limit |
| Seqs.PageKeepsNeighbours | server/routes/admin.js:96 | a LIMIT/OFFSET page keeps any order that holds between neighbouring rows of the ordered result |
| Seqs.PageKeepsAll | server/routes/admin.js:96 | a LIMIT/OFFSET page keeps any property every row of the result has |
| Seqs.SubseqTrans | server/utils/wordFilter.js:51-58 | deleting characters in several steps is still deleting characters |
| WordFilter.TestFrom | server/utils/wordFilter.js:22-23 | the regular-expression test succeeds exactly when the word occurs with a word boundary on both sides at some position from `from` on |
| WordFilter.Test | server/utils/wordFilter.js:22-23 | `\bword\b` matches exactly when the word occurs as a whole word |
| WordFilter.Hits | server/utils/wordFilter.js:22-23 | a filter fires when its lower-cased word occurs as a whole word in the lower-cased content; `Test`'s contract ties it to `OccursAsWord` |
| WordFilter.Matched | server/utils/wordFilter.js:20-24 | the filters that fire, no more than the filters there are; partners `MatchedIsFiltered` (table order, exact multiplicities) and `MatchedAppend` |
| WordFilter.Words | server/utils/wordFilter.js:24 | the flagged list holds the matched filters' words, in order |
| WordFilter.Highest | server/utils/wordFilter.js:17-18 | none exactly for no matches; otherwise a severity some match has, ranked at least as high as every match's |
| WordFilter.Check | server/utils/wordFilter.js:8-38 | clean exactly when nothing is flagged; no highest severity exactly when clean; a missing, non-string or empty content is clean |
| WordFilter.CheckContent | server/utils/wordFilter.js:8-38 | the source's loop, with its `!highestSeverity \|\| rank > rank` update, computes exactly `Check` |
| WordFilter.HighestStep | server/utils/wordFilter.js:27-29 | the loop's update rule keeps the highest severity of the matches seen so far |
| WordFilter.MatchedStep | server/utils/wordFilter.js:20-25 | one more filter adds itself to the matches exactly when it fires |
| WordFilter.CheckStep | server/utils/wordFilter.js:20-29 | one loop turn: a firing filter is appended to the matches, its word to the flagged list, and the highest severity moves up only when the new one ranks higher |
| WordFilter.MatchedAppend | server/utils/wordFilter.js:20-25 | matching a concatenation of filter lists concatenates the matches |
| WordFilter.WordsAppend | server/utils/wordFilter.js:24 | the flagged words of concatenated matches are concatenated |
| WordFilter.MatchedIsSubseq | server/utils/wordFilter.js:20-25 | the matches keep the filters' table order |
| WordFilter.MatchedCounts | server/utils/wordFilter.js:20-25 | each filter is in the matches as often as in the table if it fires, otherwise not at all |
| WordFilter.MatchedIsFiltered | server/utils/wordFilter.js:20-25 | the matches are the firing filters, in table order, each once per table row |
| WordFilter.FlaggedWordsExactly | server/utils/wordFilter.js:13-24 | a word is flagged exactly when some filter with that word occurs, in any letter case, as a whole word |
| WordFilter.FlaggedWordFires | server/utils/wordFilter.js:22-24 | every flagged word belongs to a filter that fires |
| WordFilter.FiringWordFlagged | server/utils/wordFilter.js:22-24 | the word of every filter that fires is flagged |
| WordFilter.HellInHelloNotFlagged | server/utils/wordFilter.js:22 | "hell" does not match inside "hello" |
| WordFilter.StandaloneHellFlagged | server/utils/wordFilter.js:22 | "hell" matches in "go to hell!" |
| Sanitizer.FindFrom | server/utils/wordFilter.js:52-53 | the first position at or after `from` where the closing tag starts, case-insensitively, or none |
| Sanitizer.BlockLen | server/utils/wordFilter.js:52-53 | a block match is `<tag` not followed by a word character, running through the first closing tag after it; with no closing tag there is no match |
| Sanitizer.WordRun | server/utils/wordFilter.js:55 | `\w+`: the longest run of word characters |
| Sanitizer.SpaceRun | server/utils/wordFilter.js:55 | `\s*`: the longest run of whitespace |
| Sanitizer.HandlerLen | server/utils/wordFilter.js:55 | positive exactly when `on\w+\s*=` matches at the start (`HandlerShape`: "on" in any case, one or more word characters, any whitespace, '='), and then it is the length of that match, 3 + word run + space run, for every way of reading the match |
| Sanitizer.HandlerShapesGreedy | server/utils/wordFilter.js:55 | a handler match can be read only one way: its `\w+` and `\s*` are the greedy runs, so backtracking finds no other match |
| Sanitizer.WordRunCovers | server/utils/wordFilter.js:55 | the greedy `\w` run from a position is at least as long as any run of word characters there |
| Sanitizer.SpaceRunCovers | server/utils/wordFilter.js:55 | the greedy `\s` run from a position is at least as long as any run of whitespace there |
| Sanitizer.MatchLen | server/utils/wordFilter.js:51-55 | a match never runs past the end of the text |
| Sanitizer.RemoveAll | server/utils/wordFilter.js:51-55 | one `.replace(re, '')` with the `g` flag: never longer than its input; its partners `RemoveAllDeletesOnly` (a subsequence of the input) and `RemoveAllNoMatch` (the identity where the pattern matches nowhere) |
| Sanitizer.Passes | server/utils/wordFilter.js:50-55 | the four `replace` calls in source order: never longer than the input; partners `SanitizeDeletesOnly` and `PassesKeepFreeText` |
| Sanitizer.SanitizeContent | server/utils/wordFilter.js:45-66 | at most 2000 characters; empty for missing, non-string or empty input; the trimmed text after the four passes when it fits, and exactly its first 2000 characters when it does not |
| Sanitizer.RemoveAllDeletesOnly | server/utils/wordFilter.js:51-55 | each removal pass only deletes characters |
| Sanitizer.PassesDeleteOnly | server/utils/wordFilter.js:50-55 | the four passes together only delete characters |
| Sanitizer.TrimDeletesOnly | server/utils/wordFilter.js:58 | `trim` only deletes characters |
| Sanitizer.SanitizeDeletesOnly | server/utils/wordFilter.js:45-66 | the sanitized text is a subsequence of the input |
| Sanitizer.RemoveAllNoMatch | server/utils/wordFilter.js:51-55 | a pass that matches nowhere changes nothing |
| Sanitizer.PassesKeepFreeText | server/utils/wordFilter.js:51-55 | text with no `<script`, `<iframe`, `javascript:` and no position where `on\w+\s*=` matches, in any case, comes through the four passes unchanged |
| Sanitizer.FreeTextOnlyTrimmed | server/utils/wordFilter.js:45-66 | such text, short enough once trimmed, comes back merely trimmed |
| Database.FindPost | server/routes/admin.js:133-134 | `WHERE id = ?` finds a row with that id, or there is none |
| Database.FindFilter | server/routes/admin.js:248-249 | `WHERE id = ?` on the filters finds a row with that id, or there is none |
| Database.WithoutPost | server/db/database.js:34 | the cascade removes exactly the log entries of the deleted post and keeps all others |
| Database.WithoutPostKeepsIds | server/db/database.js:28 | the cascade keeps the log's ids increasing and below the next id |
| Database.WithoutPostAppend | server/routes/admin.js:165-172 | an entry logged for a post is removed by that post's cascade |
| Database.DeleteKeepsReferences | server/db/database.js:34 | after a cascading delete, every remaining log entry still names an existing post |
| Database.RemovePostKeepsIds | server/db/database.js:15 | deleting a post row leaves the remaining AUTOINCREMENT ids increasing and below the next id |
| Database.RemoveFilterKeepsValid | server/db/database.js:41-42 | deleting a filter row leaves the remaining ids increasing and below the next id, and the words unique |
| Database.PostIdsAppend | server/db/database.js:15 | inserting a post adds its id to the ids present |
| Database.PostIdsReplace | server/db/database.js:15 | updating a post's columns keeps the ids present |
| Database.Db.constructor | server/db/database.js:13-56 | freshly created tables are empty, counters start at 1, the invariant holds |
| Database.Db.InsertPost | server/routes/public.js:53-56 | appends one row with the next id, the given status and flagged words and `now` for the three timestamps; returns that id, which exceeds every existing id |
| Database.Db.UpdateStatus | server/routes/admin.js:133-134 | for a present id, sets only that row's status and `updated_at` and reports one change; otherwise changes nothing and reports zero |
| Database.Db.DeletePostRow | server/routes/admin.js:171-172 | for a present id, removes exactly that row (and, with foreign keys enforced, its log entries) and reports one change; otherwise changes nothing |
| Database.Db.AppendLog | server/routes/admin.js:141-143 | appends one entry with the next id, unless foreign keys are enforced and no post has that id, in which case nothing changes |
| Database.Db.InsertFilter | server/routes/admin.js:221-223 | a word already present is a constraint failure that changes nothing; otherwise one row is appended with the next id |
| Database.Db.InsertOrIgnoreFilter | server/db/database.js:59 | `INSERT OR IGNORE`: adds the word unless present, and uses up one id either way |
| Database.Db.DeleteFilterRow | server/routes/admin.js:248-249 | for a present id, removes exactly that row and reports one change; otherwise changes nothing |
| Database.Db.Initialize | server/db/database.js:58-90 | the filters and the id counter become the seeding of the ten defaults over the old table (ten ids used up); the default admin is added exactly when there is no admin |
| Database.InsertOrIgnore | server/db/database.js:59 | `INSERT OR IGNORE`: the row with the next id unless the word is present; the counter advances in both cases; partner `Db.InsertOrIgnoreFilter`, whose contract equates the statement with it, and the seeding lemmas built on it |
| Database.Seed | server/db/database.js:74-80 | the seeding loop over the defaults; partners `SeedAppendsOnly`, `SeedCoversDefaults`, `SeedKeepsWordsUnique`, `SeedIdempotent` and `SeedOnEmpty` |
| Database.SeedAppendsOnly | server/db/database.js:59-81 | seeding keeps every existing row as it was (severity included), appends only listed words that were missing, and advances the id counter by one per listed word, ignored or not |
| Database.SeedCoversDefaults | server/db/database.js:59-81 | after seeding, every default word is present |
| Database.SeedKeepsWordsUnique | server/db/database.js:42 | seeding keeps filter words unique |
| Database.SeedPresentIsNoop | server/db/database.js:59-81 | seeding a table that already has all the words leaves the rows unchanged and uses up one id per listed word |
| Database.SeedIdempotent | server/db/database.js:59-81 | seeding again leaves the rows exactly as the first seeding made them; only the id counter moves, by the number of listed words |
| Database.SeedFresh | server/db/database.js:59-81 | distinct words none of which is present are appended in order, with consecutive ids |
| Database.DefaultWordsDistinct | server/db/database.js:60-73 | the ten default words are pairwise distinct |
| Database.SeedOnEmpty | server/db/database.js:59-81 | on an empty table the seeding yields the ten defaults with ids 1 to 10 |
| Queries.LimitParam | server/routes/admin.js:88 | `Math.min(parseInt(limit) \|\| 50, 100)`: never above 100; 50 for NaN or 0; otherwise the requested value up to 100 |
| Queries.OffsetParam | server/routes/admin.js:89 | `parseInt(offset) \|\| 0` |
| Queries.ParseStatus | server/routes/admin.js:94 | the status whose stored text equals the query text, or none when no status has that text |
| Queries.WithStatus | server/routes/admin.js:94 | `WHERE approval_status = ?` keeps table order, keeps exactly the rows with that status, each as often as in the table |
| Queries.WhereStatus | server/routes/admin.js:94 | selecting by text keeps exactly the rows whose status text equals it |
| Queries.StatusTextNames | server/db/database.js:18 | each status text names one status only |
| Queries.CountStatus | server/routes/admin.js:272-274 | a status count never exceeds the row count |
| Queries.CountIsSelectionSize | server/routes/admin.js:99-103 | `COUNT(*)` with a status equals the number of rows the same WHERE selects |
| Queries.StatusCountsAddUp | server/routes/admin.js:272-275 | pending + approved + rejected counts equal the total |
| Queries.ReplaceRowCounts | server/routes/admin.js:133-134 | changing one post's status moves it from its old status's count to its new one's |
| Queries.RemoveRowCounts | server/routes/admin.js:171-172 | deleting a post lowers its status's count by one |
| Public.FilterView | server/utils/wordFilter.js:14 | `SELECT word, severity` keeps each row's word and severity, in table order |
| Public.Decide | server/routes/public.js:28-50 | never approved; rejected exactly when the highest severity is high; flagged words null exactly when not high and clean, else the matched words joined with ", " |
| Public.IsValidContent | server/routes/public.js:14-16 | a non-empty string that is not all whitespace; `SubmitPost`'s contract answers 400 and stores nothing exactly when it fails |
| Public.SubmitPost | server/routes/public.js:9-68 | invalid content: 400 and nothing stored; otherwise exactly one row appended with the sanitized content and the decided status and flagged words; rejected posts answer 200 with the fixed guidelines message and no post id, others 201 with the new id |
| Public.RejectedIffHighFilterFires | server/routes/public.js:31-34 | auto-rejection happens exactly when some high-severity filter fires |
| Public.HighMatchFires | server/routes/public.js:31-34 | a high-severity match comes from a high-severity filter that fires |
| Public.HighFilterMatches | server/routes/public.js:31-34 | a high-severity filter that fires puts high severity among the matches |
| Public.FlaggedNullIffNothingFires | server/routes/public.js:29-50 | `flagged_words` is null exactly when no filter fires |
| Public.DefaultFiltersLiteral | server/db/database.js:60-73 | every seeded word is a plain regular-expression literal |
| Public.SeededHighWordRejects | server/db/database.js:62-67 | with the seeded filters, content holding a seeded high-severity word as a whole word, in any letter case, is auto-rejected |
| Public.LowercaseWord | server/utils/wordFilter.js:22 | a lower-case word is unchanged by `toLowerCase` and is a plain literal |
| Public.Project | server/routes/public.js:94-98 | the feed rows carry exactly the post's id, content and timestamp |
| Public.GetPosts | server/routes/public.js:73-107 | the feed response holds the clamped limit and offset, the paged approved rows and the approved count |
| Public.Feed | server/routes/public.js:78-84 | approved rows, newest first, projected and paged; partners `FeedNewestFirst` and `FeedOnlyApproved` |
| Public.FeedNewestFirst | server/routes/public.js:78-84 | the feed holds at most `limit` rows, newest timestamp first |
| Public.FeedOnlyApproved | server/routes/public.js:78-84 | every feed row is the id, content and timestamp of an approved post |
| Public.SortedApprovedFromPosts | server/routes/public.js:81 | every row of the ordered approved list is an approved post of the table |
| Admin.StatusParam | server/routes/admin.js:87 | `status \|\| 'pending'` |
| Admin.QueueProject | server/routes/admin.js:92 | the queue rows carry the six selected columns of the post |
| Admin.CountWhere | server/routes/admin.js:99-103 | the queue total never exceeds the row count |
| Admin.ListPosts | server/routes/admin.js:85-116 | the queue response holds the clamped limit and offset, the paged rows and the count for the requested status |
| Admin.Queue | server/routes/admin.js:91-97 | rows of the requested status, latest `created_at` first, projected and paged; partners `QueueOrdered` and `UnknownStatusEmptyQueue` |
| Admin.QueueOrdered | server/routes/admin.js:91-97 | the queue holds at most `limit` rows, all with the requested status, latest `created_at` first |
| Admin.UnknownStatusEmptyQueue | server/routes/admin.js:94 | a status text that names no status gives an empty queue and a zero total |
| Admin.ParseAction | server/routes/admin.js:126-130 | only the exact strings "approve" and "reject" are accepted, giving approved and rejected; nothing sets pending |
| Admin.StoredReason | server/routes/admin.js:143 | `reason \|\| null`: an empty or missing reason is stored as null, any other is kept |
| Admin.UpdatePost | server/routes/admin.js:121-155 | bad action: 400 and nothing changes; unknown id: 404, nothing changes, nothing logged, no log id used; otherwise the post's status and `updated_at` change, one log entry is appended with the next log id, and the answer carries the id and new status |
| Admin.DeleteReason | server/routes/admin.js:168 | `reason \|\| 'Deleted by admin'`: never empty |
| Admin.DeletePost | server/routes/admin.js:160-187 | the entry is logged before the delete, using up the next log id whenever the insert succeeds (also when the cascade later removes it); the outcome for both foreign-key settings as described above |
| Admin.ListedBeforeTotal | server/routes/admin.js:194 | the filter-list order relates any two rows |
| Admin.ListedBefore | server/routes/admin.js:194 | `ORDER BY severity DESC, word ASC` on the texts; partners `ListedBeforeTotal`, `SeverityTextOrder` and `ListFilters` |
| Admin.SeverityTextOrder | server/routes/admin.js:194 | between different severities the listing puts medium before low before high |
| Admin.ListFilters | server/routes/admin.js:192-204 | the filter list is a permutation of the table in listing order |
| Admin.ParseSeverity | server/routes/admin.js:217 | only the exact strings "low", "medium", "high" are accepted, each giving its severity |
| Admin.StoredWord | server/routes/admin.js:223 | `word.toLowerCase().trim()`; partner `StoredWordNormal` (already lower-case and trimmed) |
| Admin.StoredWordNormal | server/routes/admin.js:223 | a stored word is already lower-case and trimmed |
| Admin.TrimOfTrimmed | server/routes/admin.js:223 | trimming a word without flanking whitespace changes nothing |
| Admin.AddFilter | server/routes/admin.js:209-239 | missing, non-string or empty word: 400; bad severity: 400; stored word already present: 500 "Failed to add filter", as the handler is written; in all three nothing changes; otherwise one row with the lower-cased, trimmed word and the next id |
| Admin.ConflictAnswer | server/routes/admin.js:229-237 | as written: 400 "already exists" exactly when the error code is the primary `SQLITE_CONSTRAINT`, otherwise 500 "Failed to add filter" |
| Admin.DuplicateWordAnswers500 | server/routes/admin.js:229-237 | the driver's code for a UNIQUE violation, `SQLITE_CONSTRAINT_UNIQUE`, gets the 500 |
| Admin.IntendedConflictAnswer | server/routes/admin.js:229-233 | the intended check: 400 "already exists" exactly when the code starts with `SQLITE_CONSTRAINT`, otherwise 500 |
| Admin.IntendedDuplicateWordAnswers400 | server/routes/admin.js:229-233 | with the intended check a duplicate word gets the 400, and the primary code is answered as before |
| Admin.DeleteFilter | server/routes/admin.js:244-264 | unknown id: 404 and nothing changes; otherwise exactly that row is removed |
| Admin.RecentActionsLatestFirst | server/routes/admin.js:276 | the ten latest log entries (all when fewer), latest first, none older than an entry left out |
| Admin.LatestPrefix | server/routes/admin.js:276 | the first entries of the log ordered by timestamp descending are latest first, come from the log, and are no older than any entry after them |
| Admin.SortedLater | server/routes/admin.js:276 | in the log ordered latest first, an earlier entry is never older than a later one |
| Admin.GetStats | server/routes/admin.js:269-287 | the three status counts, the row count (equal to their sum) and the recent actions |
| Admin.RecentActions | server/routes/admin.js:276 | the log ordered by timestamp descending, first ten; partner `RecentActionsLatestFirst` |

## Findings

| source | as written | input that shows it | evidently intended | confidence | as-written member | corrected member |
|---|---|---|---|---|---|---|
| server/routes/admin.js:229-233 | the duplicate-word branch tests `err.code === 'SQLITE_CONSTRAINT'`, but better-sqlite3 sets `code` to SQLite's extended result code, so a UNIQUE violation (`SQLITE_CONSTRAINT_UNIQUE`) is rethrown and answered with 500 "Failed to add filter" (`DuplicateWordAnswers500`); `AddFilter` models the route this way | adding a word that is already in the list, e.g. `hell` after seeding | answer 400 "This word already exists in the filter list" for any constraint error, primary or extended code (`IntendedDuplicateWordAnswers400`) | not executed; rests on the driver's documented error codes | Admin.ConflictAnswer | Admin.IntendedConflictAnswer |

## Left out

- Express routing, JSON parsing, HTTP framing and `server.js` are not modelled. The request
  body's fields are inputs of type `JsonValue` (a string or anything else), and the responses
  are datatypes carrying the status code and the fields the source sends.
- Authentication and the admin account routes are not modelled: login, the JWT middleware,
  change-password, refresh and bcrypt hashing are foreign library code. The signed-in admin's
  name is a parameter, and the default admin is modelled by name only, without a password hash.
- Timestamps: `CURRENT_TIMESTAMP` is the `now` parameter. Its text form and its one-second
  resolution are not modelled.
- Rows with equal sort keys come back in SQLite's unspecified order. The model fixes one
  order for them (that of insertion sort), and the lemmas state only what holds for any order.
- `parseInt` is not modelled. The limit and offset arrive already parsed, with `None` for NaN.
  Query-string arrays are not modelled.
- The `:id` route parameter is modelled as an integer. Non-numeric ids, which SQLite would
  compare as text and match nothing, are not modelled.
- Reasons in request bodies that are not strings (numbers, objects) are not modelled. A reason
  is an optional string.
- Lower-casing covers ASCII letters only. The few non-ASCII characters whose `toLowerCase` is
  ASCII (KELVIN SIGN, LATIN CAPITAL LETTER I WITH DOT ABOVE) and full Unicode case mapping are
  left out. A model character is a Unicode scalar value, and it stands for one UTF-16 code
  unit only inside the Basic Multilingual Plane (the 16-bit range). Characters outside it,
  which JavaScript counts as two code units (a surrogate pair), are not modelled.
- WordFilter.Check: requires every filter word to be a plain regular-expression literal
  (ASCII, none of `^$\.*+?()[]{}|`). The source builds a `RegExp` from any stored word and
  would throw or match differently on such characters.
- WordFilter.CheckContent: has the same requirement.
- Public.SubmitPost: has the same requirement for the stored filter words. `AddFilter` stores
  any word, and the seeded words satisfy it (`DefaultFiltersLiteral`).
- Statement atomicity, the WAL journal mode and concurrent requests are not modelled. Each route
  runs alone.
- Database errors other than the UNIQUE conflict on filter words and the foreign-key failure
  of the delete route are not modelled. Those would be the source's 500 responses.
