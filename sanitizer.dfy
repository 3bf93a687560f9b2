/**
 * The sanitizer (`sanitizeContent`): four global, case-insensitive removal
 * passes, then `trim`, then truncation to 2000 characters.
 *
 * Each pass is the JavaScript `replace(regex, '')` with the `g` and `i`
 * flags: scanning left to right, at each position the pattern either matches
 * (the match is deleted and scanning resumes after it) or it does not (the
 * character is kept).  None of the four patterns looks behind its start, so
 * whether it matches at a position depends only on the text from there on;
 * `MatchLen` gives the length of the match on a suffix, 0 for none.
 */
module Sanitizer {
  import opened Text
  import opened Seqs

  const MaxLength: nat := 2000

  /** The four `replace` calls, in the order the source applies them. */
  datatype Pass =
    | ScriptBlock       // /<script\b[^<]*(?:(?!<\/script>)<[^<]*)*<\/script>/gi
    | IframeBlock       // the same with iframe
    | JavascriptScheme  // /javascript:/gi
    | EventHandler      // /on\w+\s*=/gi

  /** `s` begins with the lower-case literal `lit`, ignoring ASCII case. */
  predicate StartsWithCI(s: string, lit: string)
  {
    |lit| <= |s| && forall i :: 0 <= i < |lit| ==> LowerChar(s[i]) == lit[i]
  }

  /** The first position at or after `from` where `lit` begins. */
  function FindFrom(s: string, lit: string, from: nat): (r: Option<nat>)
    requires from <= |s|
    ensures r.Some? ==> from <= r.value <= |s| && StartsWithCI(s[r.value..], lit)
    ensures r.Some? ==> forall j :: from <= j < r.value ==> !StartsWithCI(s[j..], lit)
    ensures r.None? ==> forall j :: from <= j <= |s| ==> !StartsWithCI(s[j..], lit)
    decreases |s| - from
  {
    if StartsWithCI(s[from..], lit) then Some(from)
    else if from == |s| then None
    else FindFrom(s, lit, from + 1)
  }

  function OpenTag(tag: string): string { "<" + tag }

  function CloseTag(tag: string): string { "</" + tag + ">" }

  /** Length of a `<tag ... </tag>` block at the start of `s`, or 0: the
      opening `<tag` must be followed by a non-word character or the end,
      and the block runs through the first closing tag after it. */
  function BlockLen(s: string, tag: string): (n: nat)
    ensures n <= |s|
    ensures n > 0 ==> StartsWithCI(s, OpenTag(tag)) && !WordAt(s, |OpenTag(tag)|)
    ensures n > 0 ==> |OpenTag(tag)| <= n - |CloseTag(tag)| && StartsWithCI(s[n - |CloseTag(tag)|..], CloseTag(tag))
    ensures n > 0 ==> forall j :: |OpenTag(tag)| <= j < n - |CloseTag(tag)| ==> !StartsWithCI(s[j..], CloseTag(tag))
    ensures n == 0 && StartsWithCI(s, OpenTag(tag)) && !WordAt(s, |OpenTag(tag)|) ==>
      forall j :: |OpenTag(tag)| <= j <= |s| ==> !StartsWithCI(s[j..], CloseTag(tag))
  {
    var open, close := OpenTag(tag), CloseTag(tag);
    if StartsWithCI(s, open) && !WordAt(s, |open|) then
      match FindFrom(s, close, |open|)
      case Some(j) => j + |close|
      case None => 0
    else 0
  }

  predicate WordAt(s: string, k: nat)
  {
    k < |s| && IsWordChar(s[k])
  }

  /** Number of word characters in a row from position `k`. */
  function WordRun(s: string, k: nat): (n: nat)
    requires k <= |s|
    ensures k + n <= |s|
    ensures forall j :: k <= j < k + n ==> IsWordChar(s[j])
    ensures !WordAt(s, k + n)
    decreases |s| - k
  {
    if WordAt(s, k) then 1 + WordRun(s, k + 1) else 0
  }

  /** Number of `\s` characters in a row from position `k`. */
  function SpaceRun(s: string, k: nat): (n: nat)
    requires k <= |s|
    ensures k + n <= |s|
    ensures forall j :: k <= j < k + n ==> IsJsSpace(s[j])
    ensures k + n == |s| || !IsJsSpace(s[k + n])
    decreases |s| - k
  {
    if k < |s| && IsJsSpace(s[k]) then 1 + SpaceRun(s, k + 1) else 0
  }

  /** `s` begins with a match of `on\w+\s*=` (`on` in any case) whose `\w+`
      takes `a` characters and whose `\s*` takes `b`. */
  predicate HandlerShape(s: string, a: nat, b: nat)
  {
    && StartsWithCI(s, "on") && 1 <= a && 2 + a + b < |s|
    && (forall j :: 2 <= j < 2 + a ==> IsWordChar(s[j]))
    && (forall j :: 2 + a <= j < 2 + a + b ==> IsJsSpace(s[j]))
    && s[2 + a + b] == '='
  }

  /** `on\w+\s*=` matches at the start of `s`. */
  predicate HandlerAt(s: string)
  {
    exists a: nat, b: nat :: a < |s| && b < |s| && HandlerShape(s, a, b)
  }

  /** Length of an `on\w+\s*=` match at the start of `s`, or 0.  It is
      computed with greedy runs; a match, if any, has exactly one shape, so
      the greedy runs find it and backtracking could not find another. */
  function HandlerLen(s: string): (n: nat)
    ensures n <= |s|
    ensures n > 0 ==> exists a: nat, b: nat :: HandlerShape(s, a, b) && n == 3 + a + b
    ensures forall a: nat, b: nat :: HandlerShape(s, a, b) ==> n == 3 + a + b
  {
    if StartsWithCI(s, "on") then
      var w := WordRun(s, 2);
      var e := 2 + w + SpaceRun(s, 2 + w);
      HandlerShapesGreedy(s);
      if w > 0 && e < |s| && s[e] == '=' then
        assert HandlerShape(s, w, e - 2 - w);
        e + 1
      else 0
    else 0
  }

  /** Every shape of a handler match is the one the greedy runs give. */
  lemma HandlerShapesGreedy(s: string)
    ensures forall a: nat, b: nat :: HandlerShape(s, a, b) ==> WordRun(s, 2) == a && SpaceRun(s, 2 + a) == b
  {
    forall a: nat, b: nat | HandlerShape(s, a, b) ensures WordRun(s, 2) == a && SpaceRun(s, 2 + a) == b {
      WordRunCovers(s, 2, a);
      SpaceRunCovers(s, 2 + a, b);
    }
  }

  lemma {:induction false} WordRunCovers(s: string, k: nat, a: nat)
    requires k + a <= |s|
    requires forall j :: k <= j < k + a ==> IsWordChar(s[j])
    ensures WordRun(s, k) >= a
    decreases a
  {
    if a > 0 {
      WordRunCovers(s, k + 1, a - 1);
    }
  }

  lemma {:induction false} SpaceRunCovers(s: string, k: nat, b: nat)
    requires k + b <= |s|
    requires forall j :: k <= j < k + b ==> IsJsSpace(s[j])
    ensures SpaceRun(s, k) >= b
    decreases b
  {
    if b > 0 {
      SpaceRunCovers(s, k + 1, b - 1);
    }
  }

  /** Length of the match of pass `p` at the start of `s`; 0 when it does
      not match there. */
  function MatchLen(p: Pass, s: string): (n: nat)
    ensures n <= |s|
  {
    match p
    case ScriptBlock => BlockLen(s, "script")
    case IframeBlock => BlockLen(s, "iframe")
    case JavascriptScheme => if StartsWithCI(s, "javascript:") then |"javascript:"| else 0
    case EventHandler => HandlerLen(s)
  }

  /** `s.replace(p, '')`: every non-overlapping match, left to right, deleted. */
  function RemoveAll(s: string, p: Pass): (r: string)
    ensures |r| <= |s|
    decreases |s|
  {
    if s == [] then []
    else if MatchLen(p, s) > 0 then RemoveAll(s[MatchLen(p, s)..], p)
    else [s[0]] + RemoveAll(s[1..], p)
  }

  /** The four passes in source order. */
  function Passes(s: string): (r: string)
    ensures |r| <= |s|
  {
    RemoveAll(RemoveAll(RemoveAll(RemoveAll(s, ScriptBlock), IframeBlock), JavascriptScheme), EventHandler)
  }

  /** `sanitizeContent(content)`. */
  function SanitizeContent(content: JsonValue): (r: string)
    ensures |r| <= MaxLength
    ensures (!content.JString? || content.s == []) ==> r == []
    ensures content.JString? ==> |r| <= |Trim(Passes(content.s))| && r == Trim(Passes(content.s))[..|r|]
    ensures content.JString? && |Trim(Passes(content.s))| <= MaxLength ==> r == Trim(Passes(content.s))
    ensures content.JString? && |Trim(Passes(content.s))| > MaxLength ==> r == Trim(Passes(content.s))[..MaxLength]
  {
    if !content.JString? || content.s == [] then []
    else
      var sanitized := Trim(Passes(content.s));
      if |sanitized| > MaxLength then sanitized[..MaxLength] else sanitized
  }

  // ---------------------------------------------------------------------
  // Lemmas

  /** A pass only deletes characters. */
  lemma {:induction false} RemoveAllDeletesOnly(s: string, p: Pass)
    ensures IsSubseq(RemoveAll(s, p), s)
    decreases |s|
  {
    if s != [] {
      var n := MatchLen(p, s);
      if n > 0 {
        RemoveAllDeletesOnly(s[n..], p);
        SubseqDropPrefix(RemoveAll(s, p), s, n);
      } else {
        RemoveAllDeletesOnly(s[1..], p);
        SubseqCons(s[0], RemoveAll(s[1..], p), s[1..]);
        assert s == [s[0]] + s[1..];
      }
    }
  }

  /** The four passes together only delete characters. */
  lemma PassesDeleteOnly(s: string)
    ensures IsSubseq(Passes(s), s)
  {
    var s1 := RemoveAll(s, ScriptBlock);
    var s2 := RemoveAll(s1, IframeBlock);
    var s3 := RemoveAll(s2, JavascriptScheme);
    RemoveAllDeletesOnly(s, ScriptBlock);
    RemoveAllDeletesOnly(s1, IframeBlock);
    RemoveAllDeletesOnly(s2, JavascriptScheme);
    RemoveAllDeletesOnly(s3, EventHandler);
    SubseqTrans(s2, s1, s);
    SubseqTrans(s3, s2, s);
    SubseqTrans(Passes(s), s3, s);
  }

  /** `trim` only deletes characters. */
  lemma TrimDeletesOnly(s: string)
    ensures IsSubseq(Trim(s), s)
  {
    SubseqSlice(s, LeadingSpaces(s), LeadingSpaces(s) + |Trim(s)|);
  }

  /** The sanitizer only deletes characters: its output is a subsequence of
      its input. */
  lemma SanitizeDeletesOnly(s: string)
    ensures IsSubseq(SanitizeContent(JString(s)), s)
  {
    var s4 := Passes(s);
    PassesDeleteOnly(s);
    var t := Trim(s4);
    TrimDeletesOnly(s4);
    SubseqTrans(t, s4, s);
    var r := SanitizeContent(JString(s));
    if s != [] {
      SubseqPrefix(t, |r|);
      SubseqTrans(r, t, s);
    }
  }

  /** A pass that matches nowhere leaves the text as it is. */
  lemma {:induction false} RemoveAllNoMatch(s: string, p: Pass)
    requires forall i :: 0 <= i < |s| ==> MatchLen(p, s[i..]) == 0
    ensures RemoveAll(s, p) == s
    decreases |s|
  {
    if s != [] {
      assert s[0..] == s;
      forall i | 0 <= i < |s[1..]| ensures MatchLen(p, s[1..][i..]) == 0 {
        assert s[1..][i..] == s[i + 1..];
      }
      RemoveAllNoMatch(s[1..], p);
      assert s == [s[0]] + s[1..];
    }
  }

  predicate ContainsCI(s: string, lit: string)
  {
    exists i :: 0 <= i <= |s| && StartsWithCI(s[i..], lit)
  }

  /** No `<script`, `<iframe`, `javascript:` or `on…=` handler anywhere, in
      any letter case. */
  predicate FreeOfPatterns(s: string)
  {
    && !ContainsCI(s, "<script")
    && !ContainsCI(s, "<iframe")
    && !ContainsCI(s, "javascript:")
    && forall i :: 0 <= i < |s| ==> !HandlerAt(s[i..])
  }

  lemma BlockAbsent(s: string, tag: string)
    requires !ContainsCI(s, OpenTag(tag))
    ensures forall i :: 0 <= i < |s| ==> BlockLen(s[i..], tag) == 0
  {
  }

  lemma SchemeAbsent(s: string)
    requires !ContainsCI(s, "javascript:")
    ensures forall i :: 0 <= i < |s| ==> MatchLen(JavascriptScheme, s[i..]) == 0
  {
  }

  /** The four passes delete nothing from text free of their patterns. */
  lemma PassesKeepFreeText(s: string)
    requires FreeOfPatterns(s)
    ensures Passes(s) == s
  {
    assert OpenTag("script") == "<script" && OpenTag("iframe") == "<iframe";
    BlockAbsent(s, "script");
    RemoveAllNoMatch(s, ScriptBlock);
    BlockAbsent(s, "iframe");
    RemoveAllNoMatch(s, IframeBlock);
    SchemeAbsent(s);
    RemoveAllNoMatch(s, JavascriptScheme);
    RemoveAllNoMatch(s, EventHandler);
  }

  /** Text with none of the patterns, short enough once trimmed, comes back
      merely trimmed. */
  lemma FreeTextOnlyTrimmed(s: string)
    requires FreeOfPatterns(s)
    requires |Trim(s)| <= MaxLength
    ensures SanitizeContent(JString(s)) == Trim(s)
  {
    PassesKeepFreeText(s);
  }
}
