/**
 * Sequence relations used by the moderation core: "obtained by deleting
 * elements", ordering by a caller-given relation, and SQL LIMIT/OFFSET.
 */
module Seqs {

  /** `a` is obtained from `b` by deleting zero or more elements. */
  predicate IsSubseq<T(==)>(a: seq<T>, b: seq<T>)
    decreases |b|
  {
    a == [] || (b != [] && ((a[0] == b[0] && IsSubseq(a[1..], b[1..])) || IsSubseq(a, b[1..])))
  }

  lemma {:induction false} SubseqRefl<T>(s: seq<T>)
    ensures IsSubseq(s, s)
  {
    if s != [] {
      SubseqRefl(s[1..]);
    }
  }

  /** Keeping the first element of both sides. */
  lemma SubseqCons<T>(x: T, a: seq<T>, b: seq<T>)
    requires IsSubseq(a, b)
    ensures IsSubseq([x] + a, [x] + b)
  {
    assert ([x] + a)[1..] == a;
    assert ([x] + b)[1..] == b;
  }

  /** Deleting a prefix of the larger side. */
  lemma {:induction false} SubseqDropPrefix<T>(a: seq<T>, b: seq<T>, n: nat)
    requires n <= |b|
    requires IsSubseq(a, b[n..])
    ensures IsSubseq(a, b)
  {
    if n > 0 {
      assert b[1..][n - 1..] == b[n..];
      SubseqDropPrefix(a, b[1..], n - 1);
    }
  }

  lemma {:induction false} SubseqPrefix<T>(s: seq<T>, j: nat)
    requires j <= |s|
    ensures IsSubseq(s[..j], s)
  {
    if j > 0 {
      assert s[..j][1..] == s[1..][..j - 1];
      SubseqPrefix(s[1..], j - 1);
    }
  }

  lemma SubseqSlice<T>(s: seq<T>, i: nat, j: nat)
    requires i <= j <= |s|
    ensures IsSubseq(s[i..j], s)
  {
    assert s[i..j] == s[i..][..j - i];
    SubseqPrefix(s[i..], j - i);
    SubseqDropPrefix(s[i..j], s, i);
  }

  lemma {:induction false} SubseqTrans<T>(a: seq<T>, b: seq<T>, c: seq<T>)
    requires IsSubseq(a, b) && IsSubseq(b, c)
    ensures IsSubseq(a, c)
    decreases |c|
  {
    if a != [] {
      assert b != [] && c != [];
      if b[0] == c[0] && IsSubseq(b[1..], c[1..]) {
        if a[0] == b[0] && IsSubseq(a[1..], b[1..]) {
          SubseqTrans(a[1..], b[1..], c[1..]);
        } else {
          SubseqTrans(a, b[1..], c[1..]);
        }
      } else {
        SubseqTrans(a, b, c[1..]);
      }
    }
  }

  /** `le` relates every two values one way or the other. */
  ghost predicate Total<T(!new)>(le: (T, T) -> bool)
  {
    forall a, b :: le(a, b) || le(b, a)
  }

  /** Each element is related by `le` to the one after it. */
  predicate SortedBy<T>(s: seq<T>, le: (T, T) -> bool)
  {
    forall i :: 0 < i < |s| ==> le(s[i - 1], s[i])
  }

  function InsertBy<T(==)>(x: T, s: seq<T>, le: (T, T) -> bool): (r: seq<T>)
    ensures multiset(r) == multiset(s) + multiset{x}
    ensures |r| == |s| + 1
    ensures r[0] == x || (s != [] && r[0] == s[0])
  {
    if s == [] || le(x, s[0]) then [x] + s
    else
      assert s == [s[0]] + s[1..];
      [s[0]] + InsertBy(x, s[1..], le)
  }

  /** Insertion sort: orders `s` by `le`, keeping every element. */
  function SortBy<T(==)>(s: seq<T>, le: (T, T) -> bool): (r: seq<T>)
    ensures multiset(r) == multiset(s)
    ensures |r| == |s|
  {
    if s == [] then []
    else
      assert s == [s[0]] + s[1..];
      InsertBy(s[0], SortBy(s[1..], le), le)
  }

  lemma {:induction false} InsertBySorted<T(!new)>(x: T, s: seq<T>, le: (T, T) -> bool)
    requires Total(le)
    requires SortedBy(s, le)
    ensures SortedBy(InsertBy(x, s, le), le)
  {
    if s != [] && !le(x, s[0]) {
      assert le(s[0], x);
      InsertBySorted(x, s[1..], le);
      var r := InsertBy(x, s, le);
      var t := InsertBy(x, s[1..], le);
      assert r == [s[0]] + t;
      forall i | 0 < i < |r| ensures le(r[i - 1], r[i]) {
        if i > 1 {
          assert r[i - 1] == t[i - 2] && r[i] == t[i - 1];
        } else if t[0] != x {
          assert le(s[0], s[1]);
        }
      }
    }
  }

  lemma {:induction false} SortBySorted<T(!new)>(s: seq<T>, le: (T, T) -> bool)
    requires Total(le)
    ensures SortedBy(SortBy(s, le), le)
  {
    if s != [] {
      SortBySorted(s[1..], le);
      InsertBySorted(s[0], SortBy(s[1..], le), le);
    }
  }

  /** SQLite `LIMIT limit OFFSET offset`: a negative offset counts as zero and
      a negative limit means no limit. */
  function Page<T>(rows: seq<T>, limit: int, offset: int): (r: seq<T>)
    ensures limit >= 0 ==> |r| <= limit
    ensures offset <= 0 && (limit < 0 || |rows| <= limit) ==> r == rows
    ensures forall k :: 0 <= k < |r| ==> SkipCount(offset) + k < |rows| && r[k] == rows[SkipCount(offset) + k]
    ensures (limit < 0 || |r| < limit) ==> |r| == if SkipCount(offset) < |rows| then |rows| - SkipCount(offset) else 0
  {
    var skip := SkipCount(offset);
    var rest := if skip >= |rows| then [] else rows[skip..];
    if limit < 0 || |rest| <= limit then rest else rest[..limit]
  }

  function SkipCount(offset: int): nat
  {
    if offset < 0 then 0 else offset
  }

  /** A page keeps a relation that holds between neighbours of `rows`. */
  lemma PageKeepsNeighbours<T>(rows: seq<T>, rel: (T, T) -> bool, limit: int, offset: int)
    requires forall k :: 0 < k < |rows| ==> rel(rows[k - 1], rows[k])
    ensures var r := Page(rows, limit, offset);
      forall k :: 0 < k < |r| ==> rel(r[k - 1], r[k])
  {
    var r := Page(rows, limit, offset);
    var skip := SkipCount(offset);
    forall k | 0 < k < |r| ensures rel(r[k - 1], r[k]) {
      assert r[k - 1] == rows[skip + k - 1] && r[k] == rows[skip + k];
    }
  }

  /** A page keeps a property that holds of every row of `rows`. */
  lemma PageKeepsAll<T>(rows: seq<T>, prop: T -> bool, limit: int, offset: int)
    requires forall k :: 0 <= k < |rows| ==> prop(rows[k])
    ensures var r := Page(rows, limit, offset);
      forall k :: 0 <= k < |r| ==> prop(r[k])
  {
    var r := Page(rows, limit, offset);
    forall k | 0 <= k < |r| ensures prop(r[k]) {
      assert r[k] == rows[SkipCount(offset) + k];
    }
  }
}
