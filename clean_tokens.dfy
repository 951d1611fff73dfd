/**
 * The DeepSeek token stripper (`clean_deepseek_tokens`): two successive
 * regular-expression substitutions that delete grounding spans from OCR
 * markdown and keep everything else, HTML tables included.
 *
 * A substitution `re.sub(open + '.*?' + close, '', s, flags=re.DOTALL)`
 * scans left to right; at each position it tries the opener followed by
 * the FIRST closer after it (the lazy `.*?`, which may cross newlines),
 * deletes that span and resumes after it, or keeps one character and
 * moves on.
 */
module CleanTokens {
  import opened Wrappers
  import opened Strings

  const RefOpen: string := "<|ref|>"
  const RefClose: string := "<|/ref|>"
  const DetOpen: string := "<|det|>[["
  const DetClose: string := "]]<|/det|>"

  /** The first position at or after `q` where `pat` occurs, if any. */
  function FindFrom(s: string, pat: string, q: nat): (r: Option<nat>)
    requires q <= |s|
    ensures r.Some? ==> q <= r.value && r.value + |pat| <= |s|
    decreases |s| - q
  {
    if StartsWith(s[q..], pat) then Some(q)
    else if q == |s| then None
    else FindFrom(s, pat, q + 1)
  }

  /** `FindFrom` finds an occurrence, and the first one. */
  lemma {:induction false} FindFromSpec(s: string, pat: string, q: nat)
    requires q <= |s|
    ensures FindFrom(s, pat, q).Some? ==> StartsWith(s[FindFrom(s, pat, q).value..], pat)
    ensures forall k :: q <= k <= |s| && (FindFrom(s, pat, q).None? || k < FindFrom(s, pat, q).value) ==>
              !StartsWith(s[k..], pat)
    decreases |s| - q
  {
    if !StartsWith(s[q..], pat) && q < |s| {
      FindFromSpec(s, pat, q + 1);
    }
  }

  /** The text with every `open ... close` span deleted, each closing at the first closer after its opener. */
  function RemoveSpans(s: string, open: string, close: string): (r: string)
    requires |open| > 0
    ensures |r| <= |s|
    decreases |s|
  {
    if s == [] then []
    else if StartsWith(s, open) && FindFrom(s, close, |open|).Some? then
      RemoveSpans(s[FindFrom(s, close, |open|).value + |close|..], open, close)
    else [s[0]] + RemoveSpans(s[1..], open, close)
  }

  /** `clean_deepseek_tokens`: the ref spans go first, then the det spans of what is left. */
  function Clean(content: string): (r: string)
    ensures |r| <= |content|
  {
    RemoveSpans(RemoveSpans(content, RefOpen, RefClose), DetOpen, DetClose)
  }

  /** The number of characters the stripper removed from a file. */
  function Removed(content: string): nat
  {
    |content| - |Clean(content)|
  }

  // ---------------------------------------------------------------------------
  // Text that is kept verbatim
  // ---------------------------------------------------------------------------

  /** Characters that start no opener are kept, one by one, ahead of what follows. */
  lemma {:induction false} PassThrough(x: string, s: string, open: string, close: string)
    requires |open| > 0
    requires forall k :: 0 <= k < |x| ==> !StartsWith((x + s)[k..], open)
    ensures RemoveSpans(x + s, open, close) == x + RemoveSpans(s, open, close)
    decreases |x|
  {
    if x != [] {
      var u := x + s;
      assert u[0..] == u;
      assert u[1..] == x[1..] + s;
      forall k | 0 <= k < |x[1..]|
        ensures !StartsWith((x[1..] + s)[k..], open)
      {
        assert (x[1..] + s)[k..] == u[k + 1..];
      }
      assert !StartsWith(u, open);
      assert RemoveSpans(u, open, close) == [x[0]] + RemoveSpans(x[1..] + s, open, close);
      PassThrough(x[1..], s, open, close);
      var r := RemoveSpans(s, open, close);
      assert [x[0]] + x[1..] == x;
      assert [x[0]] + (x[1..] + r) == ([x[0]] + x[1..]) + r;
    } else {
      assert x + s == s;
    }
  }

  /** A text without the opener is left unchanged. */
  lemma NoOpenerUnchanged(s: string, open: string, close: string)
    requires |open| > 0 && !Contains(s, open)
    ensures RemoveSpans(s, open, close) == s
  {
    forall k | 0 <= k < |s|
      ensures !StartsWith((s + [])[k..], open)
    {
      assert (s + [])[k..] == s[k..];
    }
    PassThrough(s, [], open, close);
    assert s + [] == s;
  }

  /** A text without the closer is left unchanged: an opener with no closer after it is kept verbatim. */
  lemma {:induction false} NoCloserUnchanged(s: string, open: string, close: string)
    requires |open| > 0 && !Contains(s, close)
    ensures RemoveSpans(s, open, close) == s
    decreases |s|
  {
    if s != [] {
      if StartsWith(s, open) {
        FindFromSpec(s, close, |open|);
      }
      ContainsTail(s, close);
      NoCloserUnchanged(s[1..], open, close);
      assert s == [s[0]] + s[1..];
    }
  }

  // ---------------------------------------------------------------------------
  // A span is removed up to its first closer
  // ---------------------------------------------------------------------------

  /** No occurrence of `pat` starts inside `x` when `x` runs into `pat` itself, unless `x + pat` minus its last character holds one. */
  lemma FirstOccurrence(x: string, pat: string, rest: string)
    requires |pat| > 0 && !Contains(x + pat[..|pat| - 1], pat)
    ensures forall k :: 0 <= k < |x| ==> !StartsWith((x + pat + rest)[k..], pat)
  {
    var u := x + pat + rest;
    var v := x + pat[..|pat| - 1];
    forall k | 0 <= k < |x|
      ensures !StartsWith(u[k..], pat)
    {
      assert 0 <= k <= |v| && !StartsWith(v[k..], pat);
      assert u[k..][..|pat|] == v[k..][..|pat|];
    }
  }

  /**
   * A span `open + t + close` whose closer is the first one after the
   * opener is deleted, and the scan resumes right after it.
   */
  lemma SpanRemoved(t: string, y: string, open: string, close: string)
    requires |open| > 0 && |close| > 0
    requires !Contains(t + close[..|close| - 1], close)
    ensures RemoveSpans(open + t + close + y, open, close) == RemoveSpans(y, open, close)
  {
    var s := open + t + close + y;
    var c := |open| + |t|;
    assert StartsWith(s, open) by { assert s[..|open|] == open; }
    FirstOccurrence(t, close, y);
    assert s[c..][..|close|] == close;
    forall k | |open| <= k < c
      ensures !StartsWith(s[k..], close)
    {
      assert s[k..] == (t + close + y)[k - |open|..];
    }
    FindFromSpec(s, close, |open|);
    assert FindFrom(s, close, |open|) == Some(c);
    assert s[c + |close|..] == y;
  }

  /**
   * Text that runs into an opener without containing one is kept, the
   * span after it is removed, and the scan goes on with what follows.
   */
  lemma KeepThenRemove(x: string, t: string, y: string, open: string, close: string)
    requires |open| > 0 && |close| > 0
    requires !Contains(x + open[..|open| - 1], open)
    requires !Contains(t + close[..|close| - 1], close)
    ensures RemoveSpans(x + open + t + close + y, open, close) == x + RemoveSpans(y, open, close)
  {
    FirstOccurrence(x, open, t + close + y);
    assert x + open + t + close + y == x + (open + t + close + y);
    assert x + open + (t + close + y) == x + (open + t + close + y);
    PassThrough(x, open + t + close + y, open, close);
    SpanRemoved(t, y, open, close);
  }

  // ---------------------------------------------------------------------------
  // The two passes together
  // ---------------------------------------------------------------------------

  /** Content with neither opener comes back unchanged. */
  lemma NoTokensUnchanged(content: string)
    requires !Contains(content, RefOpen) && !Contains(content, DetOpen)
    ensures Clean(content) == content && Removed(content) == 0
  {
    NoOpenerUnchanged(content, RefOpen, RefClose);
    NoOpenerUnchanged(content, DetOpen, DetClose);
  }

  /** Content with neither closer comes back unchanged: openers without closers stay. */
  lemma NoClosersUnchanged(content: string)
    requires !Contains(content, RefClose) && !Contains(content, DetClose)
    ensures Clean(content) == content
  {
    NoCloserUnchanged(content, RefOpen, RefClose);
    NoCloserUnchanged(content, DetOpen, DetClose);
  }

  /** Two spans in a row, one per pass: the first pass deletes the first span, the second pass the second. */
  lemma TwoSpansRemoved(x: string, t: string, b: string, y: string, o1: string, c1: string, o2: string, c2: string)
    requires |o1| > 0 && |c1| > 0 && |o2| > 0 && |c2| > 0
    requires !Contains(x + o1[..|o1| - 1], o1) && !Contains(x + o2[..|o2| - 1], o2)
    requires !Contains(t + c1[..|c1| - 1], c1) && !Contains(b + c2[..|c2| - 1], c2)
    requires !Contains(o2 + b + c2 + y, o1)
    ensures RemoveSpans(RemoveSpans(x + o1 + t + c1 + o2 + b + c2 + y, o1, c1), o2, c2) == x + RemoveSpans(y, o2, c2)
  {
    var rest := o2 + b + c2 + y;
    assert x + o1 + t + c1 + o2 + b + c2 + y == x + o1 + t + c1 + rest;
    KeepThenRemove(x, t, rest, o1, c1);
    NoOpenerUnchanged(rest, o1, c1);
    assert x + rest == (x + (o2 + b + c2)) + y;
    assert x + (o2 + b + c2) == x + o2 + b + c2;
    KeepThenRemove(x, b, y, o2, c2);
  }

  /**
   * A grounding reference and its box are both deleted, the ref span by the
   * first pass and the det span by the second, and the text before them is
   * kept.
   */
  lemma GroundingRemoved(x: string, t: string, b: string, y: string)
    requires !Contains(x + RefOpen[..|RefOpen| - 1], RefOpen)
    requires !Contains(x + DetOpen[..|DetOpen| - 1], DetOpen)
    requires !Contains(t + RefClose[..|RefClose| - 1], RefClose)
    requires !Contains(b + DetClose[..|DetClose| - 1], DetClose)
    requires !Contains(DetOpen + b + DetClose + y, RefOpen)
    ensures Clean(x + RefOpen + t + RefClose + DetOpen + b + DetClose + y) ==
            x + RemoveSpans(y, DetOpen, DetClose)
    ensures Removed(x + RefOpen + t + RefClose + DetOpen + b + DetClose + y) ==
            |RefOpen + t + RefClose + DetOpen + b + DetClose| + |y| - |RemoveSpans(y, DetOpen, DetClose)|
  {
    TwoSpansRemoved(x, t, b, y, RefOpen, RefClose, DetOpen, DetClose);
  }
}
