/**
 * The word-filter matcher (`checkContent`): reports which configured filter
 * words occur in a text as whole words, case-insensitively, and the highest
 * severity among them.
 *
 * The source builds `new RegExp('\\b' + word.toLowerCase() + '\\b', 'i')` per
 * filter without escaping.  For a word made of ASCII characters none of which
 * is RegExp syntax, that pattern matches exactly the literal word with a
 * word boundary (ECMAScript `\b`, no `u` flag) on each side; that is the
 * matching modelled here, and `IsRegexLiteral` is the condition under which
 * it is exact.
 */
module WordFilter {
  import opened Text
  import opened Seqs

  datatype Severity = Low | Medium | High

  /** `severityRank` in the source. */
  function Rank(s: Severity): nat
  {
    match s
    case Low => 1
    case Medium => 2
    case High => 3
  }

  /** A filter row as the matcher reads it: `SELECT word, severity`. */
  datatype Filter = Filter(word: string, severity: Severity)

  datatype MatchResult = MatchResult(isClean: bool, flaggedWords: seq<string>, highestSeverity: Option<Severity>)

  const Clean := MatchResult(true, [], None)

  predicate IsSyntaxChar(c: char)
  {
    c in "^$\\.*+?()[]{}|"
  }

  /** The pattern source `word` denotes the literal string `word`, and the
      `i` flag folds its characters exactly as ASCII lower-casing does. */
  predicate IsRegexLiteral(w: string)
  {
    forall i :: 0 <= i < |w| ==> w[i] < '\U{0080}' && !IsSyntaxChar(w[i])
  }

  predicate AllLiteral(fs: seq<Filter>)
  {
    forall k :: 0 <= k < |fs| ==> IsRegexLiteral(fs[k].word)
  }

  // ---------------------------------------------------------------------
  // Whole-word occurrence

  predicate WordBefore(t: string, j: nat)
  {
    0 < j <= |t| && IsWordChar(t[j - 1])
  }

  predicate WordAt(t: string, j: nat)
  {
    j < |t| && IsWordChar(t[j])
  }

  /** ECMAScript `\b` at position `j` of `t`. */
  predicate IsBoundary(t: string, j: nat)
  {
    WordBefore(t, j) != WordAt(t, j)
  }

  /** `\b` + `w` + `\b` matches `t` starting at `i`. */
  predicate WholeWordAt(t: string, w: string, i: nat)
  {
    i + |w| <= |t| && t[i..i + |w|] == w && IsBoundary(t, i) && IsBoundary(t, i + |w|)
  }

  predicate OccursAsWord(t: string, w: string)
  {
    exists i :: 0 <= i <= |t| && WholeWordAt(t, w, i)
  }

  /** `regex.test(t)`: tries every start position from `from` on. */
  function TestFrom(t: string, w: string, from: nat): (r: bool)
    requires from <= |t| + 1
    ensures r <==> exists i :: from <= i <= |t| && WholeWordAt(t, w, i)
    decreases |t| + 1 - from
  {
    if from > |t| then false else WholeWordAt(t, w, from) || TestFrom(t, w, from + 1)
  }

  function Test(t: string, w: string): (r: bool)
    ensures r <==> OccursAsWord(t, w)
  {
    TestFrom(t, w, 0)
  }

  /** A filter fires on the lower-cased content. */
  predicate Hits(t: string, f: Filter)
  {
    Test(t, Lower(f.word))
  }

  // ---------------------------------------------------------------------
  // Specification of the result

  /** The filters that fire, in filter order. */
  function Matched(t: string, fs: seq<Filter>): (ms: seq<Filter>)
    ensures |ms| <= |fs|
  {
    if fs == [] then []
    else (if Hits(t, fs[0]) then [fs[0]] else []) + Matched(t, fs[1..])
  }

  function Words(ms: seq<Filter>): (ws: seq<string>)
    ensures |ws| == |ms|
    ensures forall k :: 0 <= k < |ms| ==> ws[k] == ms[k].word
  {
    if ms == [] then [] else [ms[0].word] + Words(ms[1..])
  }

  predicate HasSeverity(ms: seq<Filter>, s: Severity)
  {
    exists k :: 0 <= k < |ms| && ms[k].severity == s
  }

  /** The greatest severity among `ms` under low < medium < high. */
  function Highest(ms: seq<Filter>): (h: Option<Severity>)
    ensures h.None? <==> ms == []
    ensures h.Some? ==> HasSeverity(ms, h.value)
    ensures h.Some? ==> forall k :: 0 <= k < |ms| ==> Rank(ms[k].severity) <= Rank(h.value)
  {
    if ms == [] then None
    else if HasSeverity(ms, High) then Some(High)
    else if HasSeverity(ms, Medium) then Some(Medium)
    else assert ms[0].severity == Low; Some(Low)
  }

  /** What `checkContent` returns for `content` against `fs`. */
  function Check(content: JsonValue, fs: seq<Filter>): (r: MatchResult)
    requires AllLiteral(fs)
    ensures r.isClean <==> r.flaggedWords == []
    ensures r.highestSeverity.None? <==> r.isClean
    ensures (!content.JString? || content.s == []) ==> r == Clean
  {
    if !content.JString? || content.s == [] then Clean
    else
      var ms := Matched(Lower(content.s), fs);
      MatchResult(ms == [], Words(ms), Highest(ms))
  }

  // ---------------------------------------------------------------------
  // The loop of the source

  method CheckContent(content: JsonValue, filters: seq<Filter>) returns (r: MatchResult)
    requires AllLiteral(filters)
    ensures r == Check(content, filters)
  {
    if !content.JString? || content.s == [] {
      return Clean;
    }
    var lowerContent := Lower(content.s);
    var flaggedWords: seq<string> := [];
    var highestSeverity: Option<Severity> := None;
    ghost var matched: seq<Filter> := [];
    for i := 0 to |filters|
      invariant matched == Matched(lowerContent, filters[..i])
      invariant flaggedWords == Words(matched)
      invariant highestSeverity == Highest(matched)
    {
      var filter := filters[i];
      CheckStep(lowerContent, filters, i, matched);
      if Hits(lowerContent, filter) {
        flaggedWords := flaggedWords + [filter.word];
        if highestSeverity.None? || Rank(filter.severity) > Rank(highestSeverity.value) {
          highestSeverity := Some(filter.severity);
        }
        matched := matched + [filter];
      }
    }
    assert filters[..|filters|] == filters;
    assert (|flaggedWords| == 0) == (matched == []);
    r := MatchResult(|flaggedWords| == 0, flaggedWords, highestSeverity);
  }

  // ---------------------------------------------------------------------
  // Lemmas

  /** One turn of the loop of `CheckContent`: a firing filter extends the
      matched list, its word list and possibly the highest severity. */
  lemma CheckStep(t: string, fs: seq<Filter>, i: nat, matched: seq<Filter>)
    requires i < |fs| && matched == Matched(t, fs[..i])
    ensures !Hits(t, fs[i]) ==> Matched(t, fs[..i + 1]) == matched
    ensures Hits(t, fs[i]) ==> Matched(t, fs[..i + 1]) == matched + [fs[i]]
    ensures Words(matched + [fs[i]]) == Words(matched) + [fs[i].word]
    ensures Highest(matched + [fs[i]]) ==
      if Highest(matched).None? || Rank(fs[i].severity) > Rank(Highest(matched).value) then Some(fs[i].severity)
      else Highest(matched)
  {
    MatchedStep(t, fs, i);
    WordsAppend(matched, [fs[i]]);
    HighestStep(matched, fs[i]);
  }

  lemma {:induction false} MatchedAppend(t: string, a: seq<Filter>, b: seq<Filter>)
    ensures Matched(t, a + b) == Matched(t, a) + Matched(t, b)
  {
    if a != [] {
      assert (a + b)[1..] == a[1..] + b;
      MatchedAppend(t, a[1..], b);
    } else {
      assert a + b == b;
    }
  }

  lemma MatchedStep(t: string, fs: seq<Filter>, i: nat)
    requires i < |fs|
    ensures Matched(t, fs[..i + 1]) == Matched(t, fs[..i]) + if Hits(t, fs[i]) then [fs[i]] else []
  {
    assert fs[..i + 1] == fs[..i] + [fs[i]];
    MatchedAppend(t, fs[..i], [fs[i]]);
    assert Matched(t, [fs[i]]) == (if Hits(t, fs[i]) then [fs[i]] else []) + Matched(t, []);
  }

  lemma {:induction false} WordsAppend(a: seq<Filter>, b: seq<Filter>)
    ensures Words(a + b) == Words(a) + Words(b)
  {
    var l, r := Words(a + b), Words(a) + Words(b);
    assert |l| == |r|;
    forall k | 0 <= k < |l| ensures l[k] == r[k] {
      if k < |a| {
        assert (a + b)[k] == a[k];
      } else {
        assert (a + b)[k] == b[k - |a|];
      }
    }
  }

  /** The source's update `if (!highest || rank[f] > rank[highest]) highest = f`
      keeps the maximum. */
  lemma HighestStep(ms: seq<Filter>, f: Filter)
    ensures Highest(ms + [f]) ==
      if Highest(ms).None? || Rank(f.severity) > Rank(Highest(ms).value) then Some(f.severity) else Highest(ms)
  {
    var ext := ms + [f];
    assert ext[|ms|] == f;
    forall s | HasSeverity(ms, s) ensures HasSeverity(ext, s) {
      var k :| 0 <= k < |ms| && ms[k].severity == s;
      assert ext[k] == ms[k];
    }
    forall s | HasSeverity(ext, s) ensures HasSeverity(ms, s) || f.severity == s {
      var k :| 0 <= k < |ext| && ext[k].severity == s;
      if k < |ms| {
        assert ext[k] == ms[k];
      }
    }
  }

  /** `Matched` keeps the order of `fs`. */
  lemma {:induction false} MatchedIsSubseq(t: string, fs: seq<Filter>)
    ensures IsSubseq(Matched(t, fs), fs)
  {
    if fs != [] {
      var rest := Matched(t, fs[1..]);
      MatchedIsSubseq(t, fs[1..]);
      assert fs == [fs[0]] + fs[1..];
      if Hits(t, fs[0]) {
        SubseqCons(fs[0], rest, fs[1..]);
      } else {
        assert Matched(t, fs) == rest;
      }
    }
  }

  /** `Matched` keeps exactly the firing filters, each as often as it appears
      in `fs`. */
  lemma {:induction false} MatchedCounts(t: string, fs: seq<Filter>, f: Filter)
    ensures multiset(Matched(t, fs))[f] == if Hits(t, f) then multiset(fs)[f] else 0
  {
    if fs != [] {
      var head: seq<Filter> := if Hits(t, fs[0]) then [fs[0]] else [];
      MatchedCounts(t, fs[1..], f);
      assert multiset(Matched(t, fs)) == multiset(head) + multiset(Matched(t, fs[1..]));
      assert fs == [fs[0]] + fs[1..];
      assert multiset(fs) == multiset{fs[0]} + multiset(fs[1..]);
    }
  }

  /** Order and multiplicity together: `Matched` is `fs` with the silent
      filters deleted. */
  lemma MatchedIsFiltered(t: string, fs: seq<Filter>)
    ensures IsSubseq(Matched(t, fs), fs)
    ensures forall f :: multiset(Matched(t, fs))[f] == if Hits(t, f) then multiset(fs)[f] else 0
  {
    MatchedIsSubseq(t, fs);
    forall f ensures multiset(Matched(t, fs))[f] == if Hits(t, f) then multiset(fs)[f] else 0 {
      MatchedCounts(t, fs, f);
    }
  }

  /** A word is flagged exactly when some filter carrying it fires. */
  lemma FlaggedWordsExactly(content: string, fs: seq<Filter>, w: string)
    requires content != []
    requires AllLiteral(fs)
    ensures w in Check(JString(content), fs).flaggedWords <==>
      exists k :: 0 <= k < |fs| && fs[k].word == w && Hits(Lower(content), fs[k])
  {
    var t := Lower(content);
    assert Check(JString(content), fs).flaggedWords == Words(Matched(t, fs));
    if w in Words(Matched(t, fs)) {
      FlaggedWordFires(t, fs, w);
    }
    if exists k :: 0 <= k < |fs| && fs[k].word == w && Hits(t, fs[k]) {
      var k :| 0 <= k < |fs| && fs[k].word == w && Hits(t, fs[k]);
      FiringWordFlagged(t, fs, k);
    }
  }

  /** Every flagged word belongs to a filter that fires. */
  lemma FlaggedWordFires(t: string, fs: seq<Filter>, w: string)
    requires w in Words(Matched(t, fs))
    ensures exists k :: 0 <= k < |fs| && fs[k].word == w && Hits(t, fs[k])
  {
    var ms := Matched(t, fs);
    var j :| 0 <= j < |ms| && Words(ms)[j] == w;
    var f := ms[j];
    MatchedCounts(t, fs, f);
    assert multiset(ms)[f] > 0;
    assert f in multiset(fs);
    var k :| 0 <= k < |fs| && fs[k] == f;
  }

  /** The word of every filter that fires is flagged. */
  lemma FiringWordFlagged(t: string, fs: seq<Filter>, k: nat)
    requires k < |fs| && Hits(t, fs[k])
    ensures fs[k].word in Words(Matched(t, fs))
  {
    var ms := Matched(t, fs);
    MatchedCounts(t, fs, fs[k]);
    assert fs[k] in multiset(fs);
    assert fs[k] in multiset(ms);
    var j :| 0 <= j < |ms| && ms[j] == fs[k];
    assert Words(ms)[j] == fs[k].word;
  }

  /** A filter word inside a longer word does not fire: "hell" in "hello". */
  lemma HellInHelloNotFlagged()
    ensures !OccursAsWord("hello", "hell")
  {
    var t := "hello";
    forall i | 0 <= i <= |t| ensures !WholeWordAt(t, "hell", i) {
      if i == 0 {
        assert WordBefore(t, 4) && WordAt(t, 4);
      } else if i == 1 {
        assert t[1..5] != "hell" by { assert t[1..5][0] == 'e'; }
      }
    }
  }

  /** The same word standing alone fires. */
  lemma StandaloneHellFlagged()
    ensures OccursAsWord("go to hell!", "hell")
  {
    assert WholeWordAt("go to hell!", "hell", 6);
  }
}
