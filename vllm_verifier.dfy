/**
 * The vision-model continuation verifier of `etc/vllm_continuation_verifier.py`:
 * the title pattern test, the candidate gate with its confidence rule, the
 * reading of the model's answer and the acceptance rule. The page text above
 * a table and the model's answers are inputs.
 */
module VllmVerifier {
  import opened Wrappers
  import opened Strings
  import opened PageLayouts
  import FitzLayout
  import Seqs

  // ---------------------------------------------------------------------------
  // TableTitleDetector.has_table_title (on the clipped text)
  // ---------------------------------------------------------------------------

  /** `\s+\d`: one or more whitespace characters, then a digit. */
  predicate SpacesThenDigit(s: string)
  {
    |s| >= 2 && IsSpace(s[0]) && (IsDigit(s[1]) || SpacesThenDigit(s[1..]))
  }

  /** `\b` before a word character at position i. */
  predicate WordStart(text: string, i: int)
    requires 0 <= i <= |text|
  {
    i == 0 || !IsWordChar(text[i - 1])
  }

  /** The four title keywords, in lower case: "table", "figure", "tab.", "fig.". */
  predicate KeywordAt(lower: string, i: int, keyword: string)
    requires 0 <= i <= |lower|
  {
    StartsWith(lower[i..], keyword) && SpacesThenDigit(lower[i + |keyword|..])
  }

  /** One of the four patterns matches at position i of the lower-cased text. */
  predicate TitleAt(text: string, lower: string, i: int)
    requires |lower| == |text| && 0 <= i <= |text|
  {
    WordStart(text, i)
    && (KeywordAt(lower, i, "table") || KeywordAt(lower, i, "figure")
        || KeywordAt(lower, i, "tab.") || KeywordAt(lower, i, "fig."))
  }

  /**
   * `has_table_title` on the text found above the table: some pattern of
   * `\bTable\s+\d+`, `\bFigure\s+\d+`, `\bTab\.\s+\d+`, `\bFig\.\s+\d+`
   * matches somewhere, ignoring case.
   */
  predicate HasTableTitle(text: string)
  {
    exists i :: 0 <= i <= |text| && TitleAt(text, Lower(text), i)
  }

  lemma LowerWordChar(c: char)
    ensures IsWordChar(LowerChar(c)) == IsWordChar(c)
    ensures IsSpace(LowerChar(c)) == IsSpace(c) && IsDigit(LowerChar(c)) == IsDigit(c)
  {
  }

  /** A text that opens with "Table", a space and a digit (in any case) has a title. */
  lemma TitleAtStart(text: string)
    requires |text| >= 7 && Lower(text[..5]) == "table" && text[5] == ' ' && IsDigit(text[6])
    ensures HasTableTitle(text)
  {
    var lower := Lower(text);
    LowerChars(text);
    LowerChars(text[..5]);
    assert lower[..5] == Lower(text[..5]);
    assert lower[5] == ' ' && IsDigit(lower[6]);
    assert SpacesThenDigit(lower[5..]);
    assert TitleAt(text, lower, 0);
  }

  lemma {:induction false} NoSpaceNoMatch(s: string)
    requires s != [] && !IsSpace(s[0])
    ensures !SpacesThenDigit(s)
  {
  }

  /** "Tables 3" is not a title: the keyword must be followed by whitespace. */
  lemma PluralNotTitle()
    ensures !HasTableTitle("Tables 3")
  {
    var text := "Tables 3";
    LowerPlural();
    forall i | 0 <= i <= |text|
      ensures !TitleAt(text, "tables 3", i)
    {
      PluralNotTitleAt(i);
    }
  }

  lemma LowerPlural()
    ensures Lower("Tables 3") == "tables 3"
  {
    LowerChars("Tables 3");
  }

  lemma PluralNotTitleAt(i: int)
    requires 0 <= i <= 8
    ensures !TitleAt("Tables 3", "tables 3", i)
  {
    var text, lower := "Tables 3", "tables 3";
    if i == 0 {
      NoSpaceNoMatch(lower[5..]);
    } else if i == 7 {
      assert lower[7..] == "3";
    } else if i == 8 {
      assert lower[8..] == "";
    } else {
      assert IsWordChar(text[i - 1]);
    }
  }

  // ---------------------------------------------------------------------------
  // find_continuation_candidates_with_title_check
  // ---------------------------------------------------------------------------

  datatype Confidence = High | Medium | Low

  datatype Candidate = Candidate(
    prevPage: int,
    currPage: int,
    prevTableIdx: int,
    currTableIdx: int,
    confidence: Confidence,
    hasTitle: bool)

  /** The positional filter applied with `use_heuristic`; it has no previous-row rule. */
  predicate PassesHeuristic(prevTable: TableInfo, currTable: TableInfo)
    requires Normalised(prevTable.bbox) && Normalised(currTable.bbox)
  {
    currTable.bbox.y0 <= 200.0
    && currTable.rowCount <= 15
    && FitzLayout.Abs(prevTable.bbox.x0 - currTable.bbox.x0) <= 20.0
    && !FitzLayout.WidthsDiffer(Width(prevTable.bbox), Width(currTable.bbox))
  }

  /** 'low' with a title; otherwise 'medium' for more than 10 rows or a top below 150pt; otherwise 'high'. */
  function ConfidenceOf(currTable: TableInfo, hasTitle: bool): Confidence
  {
    if hasTitle then Low
    else if currTable.rowCount > 10 || currTable.bbox.y0 > 150.0 then Medium
    else High
  }

  /** Every detected table box is normalised. */
  predicate NormalisedPages(pages: seq<seq<TableInfo>>)
  {
    forall p, t :: p in pages && t in p ==> Normalised(t.bbox)
  }

  /** Page k (1 <= k) and page k - 1 both have tables and, with the heuristic on, pass it. */
  predicate Gate(pages: seq<seq<TableInfo>>, k: int, useHeuristic: bool)
    requires NormalisedPages(pages)
    requires 1 <= k < |pages|
  {
    pages[k - 1] != [] && pages[k] != []
    && (useHeuristic ==>
          assert pages[k - 1] in pages && pages[k] in pages;
          assert pages[k - 1][|pages[k - 1]| - 1] in pages[k - 1] && pages[k][0] in pages[k];
          PassesHeuristic(pages[k - 1][|pages[k - 1]| - 1], pages[k][0]))
  }

  function CandidateAt(pages: seq<seq<TableInfo>>, clipText: seq<string>, k: int): Candidate
    requires 1 <= k < |pages| && |clipText| == |pages| && pages[k] != []
  {
    var hasTitle := HasTableTitle(clipText[k]);
    Candidate(k - 1, k, |pages[k - 1]| - 1, 0, ConfidenceOf(pages[k][0], hasTitle), hasTitle)
  }

  /** The candidates found among pages 1..n-1, in page order. */
  function CandidatesUpTo(pages: seq<seq<TableInfo>>, clipText: seq<string>, useHeuristic: bool, n: int): seq<Candidate>
    requires NormalisedPages(pages) && |clipText| == |pages|
    requires n <= |pages|
    decreases n
  {
    if n <= 1 then []
    else
      CandidatesUpTo(pages, clipText, useHeuristic, n - 1)
      + (if Gate(pages, n - 1, useHeuristic) then [CandidateAt(pages, clipText, n - 1)] else [])
  }

  /**
   * `find_continuation_candidates_with_title_check`; `pages[k]` are the
   * tables found on page k and `clipText[k]` the text above its first table.
   */
  method FindCandidates(pages: seq<seq<TableInfo>>, clipText: seq<string>, useHeuristic: bool)
    returns (candidates: seq<Candidate>)
    requires NormalisedPages(pages) && |clipText| == |pages|
    ensures candidates == CandidatesUpTo(pages, clipText, useHeuristic, |pages|)
  {
    candidates := [];
    var pageNum := 1;
    while pageNum < |pages|
      invariant 1 <= pageNum
      invariant candidates == CandidatesUpTo(pages, clipText, useHeuristic, if pageNum <= |pages| then pageNum else |pages|)
    {
      var prevTables, currTables := pages[pageNum - 1], pages[pageNum];
      if !(prevTables != [] && currTables != []) {
        pageNum := pageNum + 1;
        continue;
      }
      var prevTable := prevTables[|prevTables| - 1];
      var currTable := currTables[0];
      assert prevTables in pages && currTables in pages && prevTable in prevTables && currTable in currTables;
      if useHeuristic {
        if currTable.bbox.y0 > 200.0 {
          pageNum := pageNum + 1;
          continue;
        }
        if currTable.rowCount > 15 {
          pageNum := pageNum + 1;
          continue;
        }
        var xDiff := FitzLayout.Abs(prevTable.bbox.x0 - currTable.bbox.x0);
        if xDiff > 20.0 {
          pageNum := pageNum + 1;
          continue;
        }
        if FitzLayout.WidthsDiffer(Width(prevTable.bbox), Width(currTable.bbox)) {
          pageNum := pageNum + 1;
          continue;
        }
      }
      var hasTitle := HasTableTitle(clipText[pageNum]);
      var confidence := High;
      if currTable.rowCount > 10 {
        confidence := Medium;
      }
      if currTable.bbox.y0 > 150.0 {
        confidence := Medium;
      }
      if hasTitle {
        confidence := Low;
      }
      candidates := candidates + [Candidate(pageNum - 1, pageNum, |prevTables| - 1, 0, confidence, hasTitle)];
      pageNum := pageNum + 1;
    }
  }

  /**
   * Each candidate pairs a page with the page before it, names the last
   * table of that page and the first table of this one, and carries the
   * confidence rule's verdict; pages appear in increasing order.
   */
  lemma {:induction false} CandidateShape(pages: seq<seq<TableInfo>>, clipText: seq<string>, useHeuristic: bool, n: int)
    requires NormalisedPages(pages) && |clipText| == |pages| && n <= |pages|
    ensures forall c :: c in CandidatesUpTo(pages, clipText, useHeuristic, n) ==>
              1 <= c.currPage < n && c.prevPage == c.currPage - 1
              && Gate(pages, c.currPage, useHeuristic)
              && c.prevTableIdx == |pages[c.prevPage]| - 1 && c.currTableIdx == 0
              && c.hasTitle == HasTableTitle(clipText[c.currPage])
              && c.confidence == ConfidenceOf(pages[c.currPage][0], c.hasTitle)
    ensures forall i, j :: 0 <= i < j < |CandidatesUpTo(pages, clipText, useHeuristic, n)| ==>
              CandidatesUpTo(pages, clipText, useHeuristic, n)[i].currPage
              < CandidatesUpTo(pages, clipText, useHeuristic, n)[j].currPage
  {
    if n > 1 {
      CandidateShape(pages, clipText, useHeuristic, n - 1);
    }
  }

  /** Every pair the positional detector calls a continuation passes the candidate gate. */
  lemma DetectorPassesGate(prev: PageLayout, curr: PageLayout)
    requires WellFormed(prev) && WellFormed(curr)
    requires FitzLayout.IsContinuation(prev, curr)
    ensures prev.tables != [] && curr.tables != []
    ensures LastTable(prev) in prev.tables && curr.tables[0] in curr.tables
    ensures PassesHeuristic(LastTable(prev), curr.tables[0])
  {
    assert LastTable(prev) in prev.tables && curr.tables[0] in curr.tables;
  }

  /** A pair that only fails the detector's previous-row rule is still a candidate. */
  lemma GateLooserThanDetector(prev: PageLayout, curr: PageLayout)
    requires WellFormed(prev) && WellFormed(curr) && prev.hasTable && curr.hasTable
    requires LastTable(prev) in prev.tables && curr.tables[0] in curr.tables
    requires PassesHeuristic(LastTable(prev), curr.tables[0])
    requires LastTable(prev).rowCount < 3 && curr.tables[0].rowCount > 2
    ensures !FitzLayout.IsContinuation(prev, curr)
  {
  }

  // ---------------------------------------------------------------------------
  // verify_continuation: reading the model's answer
  // ---------------------------------------------------------------------------

  /**
   * A JSON value as `json.loads` returns it; arrays and objects are kept
   * only by their size, which is all the verifier looks at.
   */
  datatype JsonValue = JNull | JBool(b: bool) | JNumber(n: real) | JString(s: string) | JArray(size: nat) | JObject(size: nat)

  /** Python truthiness of a JSON value. */
  predicate Truthy(v: JsonValue)
  {
    match v
    case JNull => false
    case JBool(b) => b
    case JNumber(n) => n != 0.0
    case JString(s) => s != ""
    case JArray(size) => size != 0
    case JObject(size) => size != 0
  }

  /** The fields of a JSON object answer; absent fields are None. */
  datatype JsonAnswer = JsonAnswer(isContinuation: Option<JsonValue>, confidence: Option<JsonValue>, reason: Option<JsonValue>)

  /** The model's raw answer and, when `json.loads` succeeds, the object it holds. */
  datatype Response = Response(raw: string, parsed: Option<JsonAnswer>)

  /** The result dictionary: its fields hold whatever JSON values the answer gave. */
  datatype Verdict = Verdict(isContinuation: JsonValue, confidence: JsonValue, reason: JsonValue, raw: string)

  /**
   * A JSON answer with defaults False / 'low' / ''; otherwise "true" or
   * "yes" anywhere in the lower-cased text, with confidence 'low'.
   */
  function ReadAnswer(response: Response): (v: Verdict)
    ensures v.raw == response.raw
    ensures response.parsed.None? ==>
              v.isContinuation == JBool(Contains(Lower(response.raw), "true") || Contains(Lower(response.raw), "yes"))
              && v.confidence == JString("low")
    ensures response.parsed.Some? ==>
              v.isContinuation == response.parsed.value.isContinuation.GetOr(JBool(false))
              && v.confidence == response.parsed.value.confidence.GetOr(JString("low"))
              && v.reason == response.parsed.value.reason.GetOr(JString(""))
  {
    match response.parsed
    case Some(answer) =>
      Verdict(answer.isContinuation.GetOr(JBool(false)), answer.confidence.GetOr(JString("low")),
              answer.reason.GetOr(JString("")), response.raw)
    case None =>
      var lower := Lower(response.raw);
      Verdict(JBool(Contains(lower, "true") || Contains(lower, "yes")), JString("low"),
              JString("Failed to parse JSON response"), response.raw)
  }

  /**
   * A truthy `is_continuation` with confidence 'high' or 'medium'; a
   * confidence that is not a string is in neither.
   */
  predicate Accepted(v: Verdict)
  {
    Truthy(v.isContinuation) && (v.confidence == JString("high") || v.confidence == JString("medium"))
  }

  /** An answer that is not JSON is never accepted, whatever it says. */
  lemma UnparsableNeverAccepted(response: Response)
    requires response.parsed.None?
    ensures !Accepted(ReadAnswer(response))
  {
  }

  /**
   * A JSON answer is accepted exactly when its `is_continuation` is present
   * and truthy and its confidence is the string 'high' or 'medium'.
   */
  lemma JsonAccepted(response: Response)
    requires response.parsed.Some?
    ensures Accepted(ReadAnswer(response)) <==>
              response.parsed.value.isContinuation.Some? && Truthy(response.parsed.value.isContinuation.value)
              && (response.parsed.value.confidence == Some(JString("high"))
                  || response.parsed.value.confidence == Some(JString("medium")))
  {
  }

  /**
   * Truthiness, not the boolean: the string "false" is a non-empty string,
   * so it is accepted, while 0 and an empty list are not.
   */
  lemma TruthyNotBoolean(reason: Option<JsonValue>, raw: string)
    ensures Accepted(ReadAnswer(Response(raw, Some(JsonAnswer(Some(JString("false")), Some(JString("high")), reason)))))
    ensures !Accepted(ReadAnswer(Response(raw, Some(JsonAnswer(Some(JNumber(0.0)), Some(JString("high")), reason)))))
    ensures !Accepted(ReadAnswer(Response(raw, Some(JsonAnswer(Some(JArray(0)), Some(JString("medium")), reason)))))
  {
    assert "false" != "";
  }

  // ---------------------------------------------------------------------------
  // verify_continuations_with_vllm
  // ---------------------------------------------------------------------------

  function WithoutTitle(cands: seq<Candidate>): (r: seq<Candidate>)
    ensures forall c :: c in r <==> c in cands && !c.hasTitle
    ensures |r| <= |cands|
  {
    if cands == [] then []
    else (if cands[0].hasTitle then [] else [cands[0]]) + WithoutTitle(cands[1..])
  }

  /** The current pages of the candidates whose answer is accepted, in order. */
  function AcceptedPages(cands: seq<Candidate>, answer: Candidate -> Response): seq<int>
  {
    if cands == [] then []
    else (if Accepted(ReadAnswer(answer(cands[0]))) then [cands[0].currPage] else [])
         + AcceptedPages(cands[1..], answer)
  }

  lemma AcceptedPagesStep(cands: seq<Candidate>, answer: Candidate -> Response, i: int)
    requires 0 <= i < |cands|
    ensures AcceptedPages(cands[i..], answer)
         == if Accepted(ReadAnswer(answer(cands[i])))
            then [cands[i].currPage] + AcceptedPages(cands[i + 1..], answer)
            else AcceptedPages(cands[i + 1..], answer)
  {
    assert cands[i..][1..] == cands[i + 1..];
    assert [] + AcceptedPages(cands[i + 1..], answer) == AcceptedPages(cands[i + 1..], answer);
  }

  /**
   * `verify_continuations_with_vllm` after the candidate search: optionally
   * drop the candidates with a title, ask the model about each remaining
   * one, and keep the current page of every accepted answer.
   */
  method VerifyContinuations(candidates: seq<Candidate>, onlyNoTitle: bool, answer: Candidate -> Response)
    returns (verified: seq<int>)
    ensures verified == AcceptedPages(if onlyNoTitle then WithoutTitle(candidates) else candidates, answer)
  {
    var cands := if onlyNoTitle then WithoutTitle(candidates) else candidates;
    verified := [];
    for i := 0 to |cands|
      invariant verified + AcceptedPages(cands[i..], answer) == AcceptedPages(cands, answer)
    {
      AcceptedPagesStep(cands, answer, i);
      var result := ReadAnswer(answer(cands[i]));
      if Accepted(result) {
        Seqs.Assoc(verified, [cands[i].currPage], AcceptedPages(cands[i + 1..], answer));
        verified := verified + [cands[i].currPage];
      }
    }
    assert cands[|cands|..] == [];
  }

  /** Every accepted page is the current page of a candidate with an accepted answer. */
  lemma {:induction false} AcceptedPagesFromCandidates(cands: seq<Candidate>, answer: Candidate -> Response)
    ensures forall p :: p in AcceptedPages(cands, answer) ==>
              exists c :: c in cands && c.currPage == p && Accepted(ReadAnswer(answer(c)))
    ensures |AcceptedPages(cands, answer)| <= |cands|
  {
    if cands != [] {
      AcceptedPagesFromCandidates(cands[1..], answer);
      assert forall c :: c in cands[1..] ==> c in cands;
    }
  }

  /** With `only_no_title`, no page whose table has a title is ever verified. */
  lemma NoTitledPageVerified(candidates: seq<Candidate>, answer: Candidate -> Response, p: int)
    requires p in AcceptedPages(WithoutTitle(candidates), answer)
    ensures exists c :: c in candidates && c.currPage == p && !c.hasTitle && Accepted(ReadAnswer(answer(c)))
  {
    AcceptedPagesFromCandidates(WithoutTitle(candidates), answer);
  }
}
