/**
 * The DeepSeek layout-token parser of `step1_layout_analyzer.py`
 * (`parse_deepseek_layout`). The OCR answer marks each region as
 * `<|ref|>TYPE<|/ref|><|det|>[[x1, y1, x2, y2]]<|/det|>`; the parser
 * scans the answer for that pattern left to right, as `re.finditer` does,
 * and keeps one item per match whose coordinates parse as numbers.
 *
 * The pattern is compiled without DOTALL, so neither `(.*?)` group can
 * cross a newline; both are lazy, so the type ends at the first
 * `<|/ref|><|det|>[[` after which the rest of the pattern can still
 * match, and the coordinates end at the first `]]<|/det|>`.
 */
module DeepseekLayout {
  import opened Wrappers
  import opened Strings
  import Seqs

  const Open: string := "<|ref|>"
  /** What separates the type from the coordinates. */
  const Mid: string := "<|/ref|><|det|>[["
  const Close: string := "]]<|/det|>"

  /** One match: the type is s[start + 7..typeEnd], the coordinates s[typeEnd + 17..boxEnd]. */
  datatype Match = Match(start: nat, typeEnd: nat, boxEnd: nat)
  {
    /** Where the match ends and the scan resumes. */
    function End(): nat { boxEnd + |Close| }
  }

  /** One parsed region: its type and its coordinates. */
  datatype LayoutItem = LayoutItem(kind: string, bbox: seq<real>)

  // ---------------------------------------------------------------------------
  // The regular expression, position by position
  // ---------------------------------------------------------------------------

  /** `(.*?)\]\]<\|/det\|>` from `q`: the first closer, unless a newline comes first. */
  function CloseFrom(s: string, q: nat): (r: Option<nat>)
    requires q <= |s|
    ensures r.Some? ==> q <= r.value && r.value + |Close| <= |s|
    decreases |s| - q
  {
    if StartsWith(s[q..], Close) then Some(q)
    else if q == |s| || s[q] == '\n' then None
    else CloseFrom(s, q + 1)
  }

  /** The closer found is there, and no newline comes before it. */
  lemma {:induction false} CloseFromSpec(s: string, q: nat)
    requires q <= |s| && CloseFrom(s, q).Some?
    ensures s[CloseFrom(s, q).value..CloseFrom(s, q).value + |Close|] == Close
    ensures forall k :: q <= k < CloseFrom(s, q).value ==> s[k] != '\n'
    decreases |s| - q
  {
    if StartsWith(s[q..], Close) {
      StartsWithAt(s, q, Close);
    } else {
      CloseFromSpec(s, q + 1);
    }
  }

  /**
   * `(.*?)<\|/ref\|><\|det\|>\[\[` followed by the coordinate group, from
   * `k`: the first separator after which a closer is found, unless a
   * newline comes first. Returns the type end and the coordinates end.
   */
  function MidFrom(s: string, k: nat): (r: Option<(nat, nat)>)
    requires k <= |s|
    ensures r.Some? ==> k <= r.value.0 && r.value.0 + |Mid| <= r.value.1 && r.value.1 + |Close| <= |s|
    decreases |s| - k
  {
    if StartsWith(s[k..], Mid) && CloseFrom(s, k + |Mid|).Some? then Some((k, CloseFrom(s, k + |Mid|).value))
    else if k == |s| || s[k] == '\n' then None
    else MidFrom(s, k + 1)
  }

  /** The separator and the closer found are there, and neither group holds a newline. */
  lemma MidFromSpec(s: string, k: nat)
    requires k <= |s| && MidFrom(s, k).Some?
    ensures var t := MidFrom(s, k).value.0; s[t..t + |Mid|] == Mid && forall j :: k <= j < t ==> s[j] != '\n'
    ensures var e := MidFrom(s, k).value.1; s[e..e + |Close|] == Close
    ensures forall j :: MidFrom(s, k).value.0 + |Mid| <= j < MidFrom(s, k).value.1 ==> s[j] != '\n'
  {
    var (t, e) := MidFrom(s, k).value;
    MidFromAt(s, k, t, e);
  }

  /** `MidFromSpec` for a result named by its two positions. */
  lemma {:induction false} MidFromAt(s: string, k: nat, t: nat, e: nat)
    requires k <= |s| && MidFrom(s, k) == Some((t, e))
    ensures t + |Mid| <= e && e + |Close| <= |s|
    ensures s[t..t + |Mid|] == Mid && forall j :: k <= j < t ==> s[j] != '\n'
    ensures s[e..e + |Close|] == Close
    ensures forall j :: t + |Mid| <= j < e ==> s[j] != '\n'
    decreases |s| - k
  {
    if StartsWith(s[k..], Mid) && CloseFrom(s, k + |Mid|).Some? {
      StartsWithAt(s, k, Mid);
      CloseFromSpec(s, k + |Mid|);
    } else {
      MidFromSkip(s, k);
      MidFromAt(s, k + 1, t, e);
    }
  }

  /** Without the separator here, the search moves one character on, past a character that is no newline. */
  lemma MidFromSkip(s: string, k: nat)
    requires k <= |s| && MidFrom(s, k).Some?
    requires !(StartsWith(s[k..], Mid) && CloseFrom(s, k + |Mid|).Some?)
    ensures k < |s| && s[k] != '\n' && MidFrom(s, k) == MidFrom(s, k + 1)
  {
  }

  /** The match of the whole pattern starting at `p`, if any. */
  function MatchAt(s: string, p: nat): (r: Option<Match>)
    requires p <= |s|
    ensures r.Some? ==> r.value.start == p && p + |Open| <= r.value.typeEnd &&
                        r.value.typeEnd + |Mid| <= r.value.boxEnd && r.value.End() <= |s|
  {
    if StartsWith(s[p..], Open) then
      match MidFrom(s, p + |Open|)
      case Some(ends) => Some(Match(p, ends.0, ends.1))
      case None => None
    else None
  }

  /**
   * A match is the pattern: `<|ref|>`, a type without newline, the
   * separator, coordinates without newline, the closer.
   */
  lemma MatchShape(s: string, p: nat)
    requires p <= |s| && MatchAt(s, p).Some?
    ensures var m := MatchAt(s, p).value;
            s[p..p + |Open|] == Open && s[m.typeEnd..m.typeEnd + |Mid|] == Mid && s[m.boxEnd..m.End()] == Close &&
            (forall j :: p + |Open| <= j < m.typeEnd ==> s[j] != '\n') &&
            (forall j :: m.typeEnd + |Mid| <= j < m.boxEnd ==> s[j] != '\n')
  {
    MidFromSpec(s, p + |Open|);
  }

  /** `re.finditer` from position `p`: a match resumes the scan at its end, a miss one character on. */
  function MatchesFrom(s: string, p: nat): seq<Match>
    requires p <= |s|
    decreases |s| - p
  {
    if p == |s| then []
    else
      match MatchAt(s, p)
      case Some(m) => [m] + MatchesFrom(s, m.End())
      case None => MatchesFrom(s, p + 1)
  }

  /** Every listed match is the pattern's match at its own start. */
  predicate Genuine(s: string, ms: seq<Match>)
  {
    forall i :: 0 <= i < |ms| ==> ms[i].start <= |s| && MatchAt(s, ms[i].start) == Some(ms[i])
  }

  /** Matches do not overlap and come in text order, none before `p`. */
  predicate InOrder(ms: seq<Match>, p: nat)
  {
    (forall i :: 0 <= i < |ms| ==> p <= ms[i].start) &&
    (forall i :: 0 <= i < |ms| - 1 ==> ms[i].End() <= ms[i + 1].start)
  }

  /** The matches found in the text are genuine and in order: each lies after the previous one. */
  lemma {:induction false} MatchesInOrder(s: string, p: nat)
    requires p <= |s|
    ensures Genuine(s, MatchesFrom(s, p)) && InOrder(MatchesFrom(s, p), p)
    decreases |s| - p
  {
    if p < |s| {
      match MatchAt(s, p)
      case Some(m) =>
        assert MatchesFrom(s, p) == [m] + MatchesFrom(s, m.End());
        MatchesInOrder(s, m.End());
        ConsInOrder(s, p, m, MatchesFrom(s, m.End()));
      case None =>
        assert MatchesFrom(s, p) == MatchesFrom(s, p + 1);
        MatchesInOrder(s, p + 1);
    }
  }

  lemma ConsInOrder(s: string, p: nat, m: Match, rest: seq<Match>)
    requires p <= |s| && MatchAt(s, p) == Some(m)
    requires Genuine(s, rest) && InOrder(rest, m.End())
    ensures Genuine(s, [m] + rest) && InOrder([m] + rest, p)
  {
    var ms := [m] + rest;
    forall i | 0 < i < |ms|
      ensures ms[i] == rest[i - 1]
    {
    }
    assert m.start == p && p <= m.End();
  }

  /** Text without `<|ref|>` has no match. */
  lemma {:induction false} NoOpenNoMatch(s: string, p: nat)
    requires p <= |s| && !Contains(s[p..], Open)
    ensures MatchesFrom(s, p) == []
    decreases |s| - p
  {
    if p < |s| {
      assert s[p..][0..] == s[p..];
      assert s[p..][1..] == s[p + 1..];
      ContainsTail(s[p..], Open);
      NoOpenNoMatch(s, p + 1);
    }
  }

  // ---------------------------------------------------------------------------
  // Numbers
  // ---------------------------------------------------------------------------

  function Pow10(n: nat): (r: nat)
    ensures r >= 1
  {
    if n == 0 then 1 else 10 * Pow10(n - 1)
  }

  predicate AllDigits(s: string)
  {
    forall i :: 0 <= i < |s| ==> IsDigit(s[i])
  }

  /** An unsigned decimal: digits, optionally a point and more digits, at least one digit in all. */
  function DecimalValue(t: string): Option<real>
  {
    var parts := Split(t, '.');
    if |parts| == 1 && parts[0] != [] && AllDigits(parts[0]) then Some(DigitsValue(parts[0]) as real)
    else if |parts| == 2 && parts[0] + parts[1] != [] && AllDigits(parts[0]) && AllDigits(parts[1]) then
      Some(DigitsValue(parts[0]) as real + DigitsValue(parts[1]) as real / Pow10(|parts[1]|) as real)
    else None
  }

  /** Python's `float(x)` on decimal notation: surrounding spaces, an optional sign, then a decimal. */
  function ParseNumber(x: string): Option<real>
  {
    var t := Strip(x);
    if t != [] && t[0] == '-' then
      match DecimalValue(t[1..])
      case Some(v) => Some(-v)
      case None => None
    else if t != [] && t[0] == '+' then DecimalValue(t[1..])
    else DecimalValue(t)
  }

  /** `[float(x) for x in parts]`: every part a number, or a failure. */
  function ParseNumbers(parts: seq<string>): (r: Option<seq<real>>)
    ensures r.Some? ==> |r.value| == |parts|
    ensures r.Some? <==> forall i :: 0 <= i < |parts| ==> ParseNumber(parts[i]).Some?
    ensures r.Some? ==> forall i :: 0 <= i < |parts| ==> r.value[i] == ParseNumber(parts[i]).value
  {
    if parts == [] then Some([])
    else
      match ParseNumbers(parts[..|parts| - 1])
      case None => None
      case Some(vs) =>
        match ParseNumber(parts[|parts| - 1])
        case None => None
        case Some(v) => Some(vs + [v])
  }

  /** A number written by `str(n)` reads back as `n`. */
  lemma NatReadsBack(n: nat)
    ensures ParseNumber(NatToString(n)) == Some(n as real)
  {
    var d := NatToString(n);
    NatToStringValue(n);
    StripNoop(d);
    assert '.' !in d;
    SplitNoSep(d, '.');
  }

  // ---------------------------------------------------------------------------
  // parse_deepseek_layout
  // ---------------------------------------------------------------------------

  function TypeText(s: string, m: Match): string
    requires m.start + |Open| <= m.typeEnd <= |s|
  {
    s[m.start + |Open|..m.typeEnd]
  }

  function BoxText(s: string, m: Match): string
    requires m.typeEnd + |Mid| <= m.boxEnd <= |s|
  {
    s[m.typeEnd + |Mid|..m.boxEnd]
  }

  /** The item of a match: the stripped type and the stripped coordinates split at commas, or nothing. */
  function ItemOf(s: string, m: Match): Option<LayoutItem>
    requires m.start + |Open| <= m.typeEnd && m.typeEnd + |Mid| <= m.boxEnd <= |s|
  {
    match ParseNumbers(Split(Strip(BoxText(s, m)), ','))
    case Some(box) => Some(LayoutItem(Strip(TypeText(s, m)), box))
    case None => None
  }

  predicate WellPlaced(s: string, ms: seq<Match>)
  {
    forall i :: 0 <= i < |ms| ==> ms[i].start + |Open| <= ms[i].typeEnd && ms[i].typeEnd + |Mid| <= ms[i].boxEnd <= |s|
  }

  /** What each match gives: its item, or nothing when its coordinates do not parse. */
  function Attempts(s: string, ms: seq<Match>): (r: seq<Option<LayoutItem>>)
    requires WellPlaced(s, ms)
    ensures |r| == |ms|
  {
    seq(|ms|, i requires 0 <= i < |ms| => ItemOf(s, ms[i]))
  }

  /** The values present, in order. */
  function Present<T>(xs: seq<Option<T>>): seq<T>
  {
    if xs == [] then [] else Present(xs[..|xs| - 1]) + AsSeq(xs[|xs| - 1])
  }

  function AsSeq<T>(x: Option<T>): seq<T>
  {
    match x
    case Some(v) => [v]
    case None => []
  }

  lemma MatchesWellPlaced(s: string, p: nat)
    requires p <= |s|
    ensures WellPlaced(s, MatchesFrom(s, p))
  {
    MatchesInOrder(s, p);
  }

  /** The items of the text: those of its matches, in match order, skipping those that fail to parse. */
  function Items(text: string): seq<LayoutItem>
  {
    MatchesWellPlaced(text, 0);
    Present(Attempts(text, MatchesFrom(text, 0)))
  }

  /** `parse_deepseek_layout`: one item per match, in match order, dropping those that fail to parse. */
  method ParseDeepseekLayout(text: string) returns (items: seq<LayoutItem>)
    ensures items == Items(text)
  {
    var matches := MatchesFrom(text, 0);
    MatchesWellPlaced(text, 0);
    ghost var attempts := Attempts(text, matches);
    items := [];
    for i := 0 to |matches|
      invariant items == Present(attempts[..i])
    {
      assert attempts[..i + 1][..i] == attempts[..i];
      var item := ItemOf(text, matches[i]);
      if item.Some? {
        items := items + [item.value];
      }
    }
    assert attempts[..|matches|] == attempts;
  }

  /** The values present in consecutive runs are those of each run, one after the other. */
  lemma {:induction false} PresentAppend<T>(a: seq<Option<T>>, b: seq<Option<T>>)
    ensures Present(a + b) == Present(a) + Present(b)
  {
    if b != [] {
      var n := |b| - 1;
      assert (a + b)[..|a + b| - 1] == a + b[..n];
      assert (a + b)[|a + b| - 1] == b[n];
      PresentAppend(a, b[..n]);
      calc {
        Present(a + b);
        Present(a + b[..n]) + AsSeq(b[n]);
        Present(a) + Present(b[..n]) + AsSeq(b[n]);
        Present(a) + (Present(b[..n]) + AsSeq(b[n]));
        Present(a) + Present(b);
      }
    } else {
      assert a + b == a;
    }
  }

  /**
   * A match whose coordinates do not parse is dropped without affecting
   * the others; one that parses contributes its item in its place.
   */
  lemma {:induction false} DropOrKeep<T>(a: seq<Option<T>>, x: Option<T>, b: seq<Option<T>>)
    ensures x.None? ==> Present(a + [x] + b) == Present(a + b)
    ensures x.Some? ==> Present(a + [x] + b) == Present(a) + [x.value] + Present(b)
  {
    var ax := a + [x];
    assert ax[..|ax| - 1] == a && ax[|ax| - 1] == x;
    assert Present(ax) == Present(a) + AsSeq(x);
    PresentAppend(ax, b);
    PresentAppend(a, b);
  }

  /** An item is listed exactly when some match gives it. */
  lemma {:induction false} PresentMembers<T>(xs: seq<Option<T>>)
    ensures forall v :: v in Present(xs) <==> Some(v) in xs
  {
    if xs != [] {
      PresentMembers(xs[..|xs| - 1]);
      assert xs == xs[..|xs| - 1] + [xs[|xs| - 1]];
    }
  }

  /** Text with no `<|ref|>` gives no items. */
  lemma NoPatternNoItems(text: string)
    requires !Contains(text, Open)
    ensures MatchesFrom(text, 0) == [] && Items(text) == []
  {
    assert text[0..] == text;
    NoOpenNoMatch(text, 0);
  }

  // ---------------------------------------------------------------------------
  // One region written out and read back
  // ---------------------------------------------------------------------------

  /** The token sequence DeepSeek writes for one region. */
  function Region(kind: string, box: string): string
  {
    Open + kind + Mid + box + Close
  }

  lemma {:induction false} CloseFromPlain(s: string, q: nat, e: nat)
    requires q <= e && e + |Close| <= |s| && s[e..e + |Close|] == Close
    requires forall k :: q <= k < e ==> s[k] != ']' && s[k] != '\n'
    ensures CloseFrom(s, q) == Some(e)
    decreases e - q
  {
    if q < e {
      assert !StartsWith(s[q..], Close) by {
        assert s[q..][0] == s[q];
      }
      CloseFromPlain(s, q + 1, e);
    } else {
      assert s[q..][..|Close|] == Close;
    }
  }

  lemma {:induction false} MidFromPlain(s: string, k: nat, t: nat, e: nat)
    requires k <= t && t + |Mid| <= e && e + |Close| <= |s|
    requires s[t..t + |Mid|] == Mid && s[e..e + |Close|] == Close
    requires forall j :: k <= j < t ==> s[j] != '<' && s[j] != '\n'
    requires forall j :: t + |Mid| <= j < e ==> s[j] != ']' && s[j] != '\n'
    ensures MidFrom(s, k) == Some((t, e))
    decreases t - k
  {
    if k < t {
      assert !StartsWith(s[k..], Mid) by {
        assert s[k..][0] == s[k];
      }
      MidFromPlain(s, k + 1, t, e);
    } else {
      assert s[k..][..|Mid|] == Mid;
      CloseFromPlain(s, k + |Mid|, e);
    }
  }

  /**
   * A region whose type has no '<' or newline and whose coordinates have no
   * ']' or newline is exactly one match, spanning the whole region.
   */
  lemma RegionMatches(kind: string, box: string)
    requires forall j :: 0 <= j < |kind| ==> kind[j] != '<' && kind[j] != '\n'
    requires forall j :: 0 <= j < |box| ==> box[j] != ']' && box[j] != '\n'
    ensures var s := Region(kind, box);
            MatchesFrom(s, 0) == [Match(0, |Open| + |kind|, |Open| + |kind| + |Mid| + |box|)]
  {
    var s := Region(kind, box);
    var t := |Open| + |kind|;
    var e := t + |Mid| + |box|;
    assert s[0..|Open|] == Open;
    assert s[t..t + |Mid|] == Mid;
    assert s[e..e + |Close|] == Close;
    MidFromPlain(s, |Open|, t, e);
    assert StartsWith(s[0..], Open);
    var m := Match(0, t, e);
    assert MatchAt(s, 0) == Some(m);
    assert MatchesFrom(s, |s|) == [];
    assert MatchesFrom(s, 0) == [m];
  }

  /** The type and coordinate groups of a region's match are the type and coordinates written. */
  lemma RegionTexts(kind: string, box: string)
    ensures var s := Region(kind, box);
            var m := Match(0, |Open| + |kind|, |Open| + |kind| + |Mid| + |box|);
            TypeText(s, m) == kind && BoxText(s, m) == box
  {
    var s := Region(kind, box);
    assert s == Open + kind + (Mid + box + Close);
    Seqs.SliceMiddle(Open, kind, Mid + box + Close, 0, |kind|);
    assert kind[0..|kind|] == kind;
    assert s == (Open + kind + Mid) + box + Close;
    Seqs.SliceMiddle(Open + kind + Mid, box, Close, 0, |box|);
    assert box[0..|box|] == box;
  }

  lemma RegionReadsBack(kind: string, box: string)
    requires forall j :: 0 <= j < |kind| ==> kind[j] != '<' && kind[j] != '\n'
    requires forall j :: 0 <= j < |box| ==> box[j] != ']' && box[j] != '\n'
    ensures Items(Region(kind, box)) ==
              match ParseNumbers(Split(Strip(box), ','))
              case Some(b) => [LayoutItem(Strip(kind), b)]
              case None => []
  {
    var s := Region(kind, box);
    var m := Match(0, |Open| + |kind|, |Open| + |kind| + |Mid| + |box|);
    RegionMatches(kind, box);
    RegionTexts(kind, box);
    assert Attempts(s, [m]) == [ItemOf(s, m)];
    assert [ItemOf(s, m)][..0] == [];
    assert Present([ItemOf(s, m)]) == AsSeq(ItemOf(s, m));
  }
}
