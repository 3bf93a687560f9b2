/**
 * Query pieces both routers use: the `limit`/`offset` query-string clamp and
 * `WHERE approval_status = ?` on the posts table.
 */
module Queries {
  import opened Text
  import opened Seqs
  import opened Database

  /** `Math.min(parseInt(limit) || 50, 100)`, with `None` for NaN. */
  function LimitParam(parsed: Option<int>): (limit: int)
    ensures limit <= 100
    ensures parsed.None? || parsed == Some(0) ==> limit == 50
    ensures parsed.Some? && parsed.value != 0 ==> limit == if parsed.value < 100 then parsed.value else 100
  {
    var requested := if parsed.None? || parsed.value == 0 then 50 else parsed.value;
    if requested < 100 then requested else 100
  }

  /** `parseInt(offset) || 0`. */
  function OffsetParam(parsed: Option<int>): (offset: int)
    ensures parsed.None? ==> offset == 0
    ensures parsed.Some? ==> offset == parsed.value
  {
    if parsed.None? then 0 else parsed.value
  }

  /** The status a query-string text names, if any. */
  function ParseStatus(text: string): (r: Option<Status>)
    ensures r.Some? ==> StatusText(r.value) == text
    ensures r.None? ==> forall s :: StatusText(s) != text
  {
    if text == "pending" then Some(Pending)
    else if text == "approved" then Some(Approved)
    else if text == "rejected" then Some(Rejected)
    else None
  }

  /** `WHERE approval_status = ?`, keeping table order. */
  function WithStatus(posts: seq<Post>, s: Status): (r: seq<Post>)
    ensures IsSubseq(r, posts)
    ensures forall k :: 0 <= k < |r| ==> r[k].status == s
    ensures forall p :: multiset(r)[p] == if p.status == s then multiset(posts)[p] else 0
  {
    if posts == [] then []
    else
      var rest := WithStatus(posts[1..], s);
      assert posts == [posts[0]] + posts[1..];
      if posts[0].status == s then
        SubseqCons(posts[0], rest, posts[1..]);
        [posts[0]] + rest
      else
        rest
  }

  /** `WHERE approval_status = ?` with the text the query string gives: the
      column only ever holds the three status texts, so a text naming none of
      them selects nothing. */
  function WhereStatus(posts: seq<Post>, text: string): (r: seq<Post>)
    ensures forall k :: 0 <= k < |r| ==> StatusText(r[k].status) == text
    ensures forall p :: multiset(r)[p] == if StatusText(p.status) == text then multiset(posts)[p] else 0
  {
    match ParseStatus(text)
    case None => []
    case Some(s) =>
      StatusTextNames(s);
      WithStatus(posts, s)
  }

  /** Each status text names one status only. */
  lemma StatusTextNames(s: Status)
    ensures forall t :: StatusText(t) == StatusText(s) <==> t == s
  {
    forall t | t != s ensures StatusText(t) != StatusText(s) {
      assert StatusText(t)[0] != StatusText(s)[0];
    }
  }

  /** `SELECT COUNT(*) FROM posts WHERE approval_status = ?`. */
  function CountStatus(posts: seq<Post>, s: Status): (n: nat)
    ensures n <= |posts|
  {
    if posts == [] then 0 else (if posts[0].status == s then 1 else 0) + CountStatus(posts[1..], s)
  }

  /** The count is the number of rows the same `WHERE` selects. */
  lemma {:induction false} CountIsSelectionSize(posts: seq<Post>, s: Status)
    ensures CountStatus(posts, s) == |WithStatus(posts, s)|
  {
    if posts != [] {
      CountIsSelectionSize(posts[1..], s);
    }
  }

  /** `COUNT(*)` per status adds up to the row count. */
  lemma {:induction false} StatusCountsAddUp(posts: seq<Post>)
    ensures CountStatus(posts, Pending) + CountStatus(posts, Approved) + CountStatus(posts, Rejected) == |posts|
  {
    if posts != [] {
      StatusCountsAddUp(posts[1..]);
    }
  }

  /** Changing one row moves it from the count of its old status to the
      count of its new one; every other count stays. */
  lemma {:induction false} ReplaceRowCounts(posts: seq<Post>, i: nat, q: Post, s: Status)
    requires i < |posts|
    ensures CountStatus(posts[i := q], s) ==
      CountStatus(posts, s) - (if posts[i].status == s then 1 else 0) + (if q.status == s then 1 else 0)
  {
    if i > 0 {
      assert posts[i := q][1..] == posts[1..][i - 1 := q];
      ReplaceRowCounts(posts[1..], i - 1, q, s);
    } else {
      assert posts[i := q][1..] == posts[1..];
    }
  }

  /** Deleting one row takes it off the count of its status. */
  lemma {:induction false} RemoveRowCounts(posts: seq<Post>, i: nat, s: Status)
    requires i < |posts|
    ensures CountStatus(posts[..i] + posts[i + 1..], s) == CountStatus(posts, s) - (if posts[i].status == s then 1 else 0)
  {
    if i > 0 {
      assert (posts[..i] + posts[i + 1..])[1..] == posts[1..][..i - 1] + posts[1..][i..];
      RemoveRowCounts(posts[1..], i - 1, s);
    } else {
      assert posts[..i] + posts[i + 1..] == posts[1..];
    }
  }
}
