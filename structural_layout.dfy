/**
 * The structural layout analyzer of `backup_step1_layout_analyzer_v1_fitz.py`:
 * continuation by matching table structure with no meaningful text between
 * the two tables, the table-title picker, and the analyzer object that marks
 * continuation pages and clears their table titles.
 */
module StructuralLayout {
  import opened Wrappers
  import opened Strings
  import opened PageLayouts
  import Seqs

  // ---------------------------------------------------------------------------
  // _get_non_empty_column_count
  // ---------------------------------------------------------------------------

  function NonBlankInRow(row: seq<Cell>): (n: nat)
    ensures n <= |row|
  {
    if row == [] then 0
    else NonBlankInRow(row[..|row| - 1]) + (if IsBlankCell(row[|row| - 1]) then 0 else 1)
  }

  /** The number of non-blank cells in the header row, 0 for a table without rows. */
  function NonEmptyColumnCount(t: TableInfo): (n: nat)
    ensures t.cells == [] ==> n == 0
    ensures t.cells != [] ==> n <= |t.cells[0]|
  {
    if t.cells == [] then 0 else NonBlankInRow(t.cells[0])
  }

  /** Every header cell is either counted here or counted blank by the simple-table test. */
  lemma {:induction false} NonBlankPlusBlank(row: seq<Cell>)
    ensures NonBlankInRow(row) + BlankInRow(row) == |row|
  {
    if row != [] {
      NonBlankPlusBlank(row[..|row| - 1]);
    }
  }

  // ---------------------------------------------------------------------------
  // _has_text_between_tables
  // ---------------------------------------------------------------------------

  /** Stripped text longer than 10 characters that is not all digits (not a page number). */
  predicate Meaningful(text: string)
  {
    var t := Strip(text);
    |t| > 10 && !IsDigitString(t)
  }

  /** A previous-page block below the table and above the 50pt footer band. */
  predicate BlocksBelow(b: TextBlock, prevTable: TableInfo, pageHeight: real)
  {
    b.bbox.y0 > prevTable.bbox.y1 && b.bbox.y1 < pageHeight - 50.0 && Meaningful(b.text)
  }

  /** A current-page block below the 50pt header band and above the table. */
  predicate BlocksAbove(b: TextBlock, currTable: TableInfo)
  {
    b.bbox.y0 > 50.0 && b.bbox.y1 < currTable.bbox.y0 && Meaningful(b.text)
  }

  predicate HasTextBetweenTables(prev: PageLayout, curr: PageLayout, prevTable: TableInfo, currTable: TableInfo)
  {
    (exists b :: b in prev.textBlocks && BlocksBelow(b, prevTable, prev.height))
    || (exists b :: b in curr.textBlocks && BlocksAbove(b, currTable))
  }

  // ---------------------------------------------------------------------------
  // _is_continuation (structural)
  // ---------------------------------------------------------------------------

  /** Same column count, same non-empty header count, or a transposed shape. */
  predicate StructureMatches(prevTable: TableInfo, currTable: TableInfo)
  {
    prevTable.colCount == currTable.colCount
    || NonEmptyColumnCount(prevTable) == NonEmptyColumnCount(currTable)
    || prevTable.colCount == currTable.rowCount
    || prevTable.rowCount == currTable.colCount
  }

  predicate IsContinuation(prev: PageLayout, curr: PageLayout)
    requires WellFormed(prev) && WellFormed(curr)
  {
    if !prev.hasTable || !curr.hasTable then false
    else
      var prevTable := LastTable(prev);
      var currTable := curr.tables[0];
      if !StructureMatches(prevTable, currTable) then false
      else if HasTextBetweenTables(prev, curr, prevTable, currTable) then false
      else true
  }

  /** Meaningful text below the previous table or above the current one rules a continuation out. */
  lemma TextBetweenSeparates(prev: PageLayout, curr: PageLayout, b: TextBlock)
    requires WellFormed(prev) && WellFormed(curr)
    requires prev.hasTable && curr.hasTable
    requires (b in prev.textBlocks && BlocksBelow(b, LastTable(prev), prev.height))
          || (b in curr.textBlocks && BlocksAbove(b, curr.tables[0]))
    ensures !IsContinuation(prev, curr)
  {
  }

  /**
   * Two tables whose header rows hold the same number of non-blank cells,
   * with no meaningful text between them, are a continuation.
   */
  lemma SameHeaderContinues(prev: PageLayout, curr: PageLayout)
    requires WellFormed(prev) && WellFormed(curr)
    requires prev.hasTable && curr.hasTable
    requires NonEmptyColumnCount(LastTable(prev)) == NonEmptyColumnCount(curr.tables[0])
    requires !HasTextBetweenTables(prev, curr, LastTable(prev), curr.tables[0])
    ensures IsContinuation(prev, curr)
  {
  }

  /**
   * More text can only break a continuation: a pair that is a continuation
   * stays one when text blocks are removed from either page.
   */
  lemma FewerBlocksKeepContinuation(prev: PageLayout, curr: PageLayout, prev': PageLayout, curr': PageLayout)
    requires WellFormed(prev) && WellFormed(curr) && WellFormed(prev') && WellFormed(curr')
    requires prev' == prev.(textBlocks := prev'.textBlocks) && curr' == curr.(textBlocks := curr'.textBlocks)
    requires forall b :: b in prev'.textBlocks ==> b in prev.textBlocks
    requires forall b :: b in curr'.textBlocks ==> b in curr.textBlocks
    requires IsContinuation(prev, curr)
    ensures IsContinuation(prev', curr')
  {
    assert LastTable(prev') == LastTable(prev) && curr'.tables[0] == curr.tables[0];
  }

  /** Page k continues page k - 1 under the structural test. */
  predicate ContinuesAt(layouts: seq<PageLayout>, k: int)
    requires forall p :: p in layouts ==> WellFormed(p)
  {
    1 <= k < |layouts| &&
    assert layouts[k - 1] in layouts && layouts[k] in layouts;
    IsContinuation(layouts[k - 1], layouts[k])
  }

  function ContinuationsOf(layouts: seq<PageLayout>): map<int, int>
    requires forall p :: p in layouts ==> WellFormed(p)
  {
    map k | 1 <= k < |layouts| && ContinuesAt(layouts, k) :: k - 1
  }

  // ---------------------------------------------------------------------------
  // _extract_table_title
  // ---------------------------------------------------------------------------

  function MaxReal(a: real, b: real): real
  {
    if a >= b then a else b
  }

  /**
   * A text block that may title the table: outside the 80pt header band and
   * the 50pt footer band, its bottom at most 150pt above the table top (and
   * below the header band), overlapping the table horizontally, its stripped
   * text 3 to 100 characters, not all digits, starting with "table "
   * (case-insensitively) and containing '-'.
   */
  predicate IsTitleCandidate(b: TextBlock, tableBox: BBox, pageHeight: real)
  {
    var t := Strip(b.text);
    !(b.bbox.y0 < 80.0 || b.bbox.y1 > pageHeight - 50.0)
    && MaxReal(80.0, tableBox.y0 - 150.0) <= b.bbox.y1 <= tableBox.y0
    && !(b.bbox.x1 < tableBox.x0 || b.bbox.x0 > tableBox.x1)
    && !(t == [] || |t| < 3 || IsDigitString(t))
    && |t| <= 100
    && StartsWith(Lower(t), "table ")
    && '-' in t
  }

  datatype Candidate = Candidate(text: string, distance: real)

  function CandidateOf(b: TextBlock, tableBox: BBox): Candidate
  {
    Candidate(Strip(b.text), tableBox.y0 - b.bbox.y1)
  }

  /** The explicit "Table X -" candidates, in block order. */
  function TitleCandidates(tableBox: BBox, blocks: seq<TextBlock>, pageHeight: real): seq<Candidate>
  {
    if blocks == [] then []
    else
      (if IsTitleCandidate(blocks[0], tableBox, pageHeight) then [CandidateOf(blocks[0], tableBox)] else [])
      + TitleCandidates(tableBox, blocks[1..], pageHeight)
  }

  /** Every candidate is built from a candidate block. */
  lemma {:induction false} CandidatesComeFromBlocks(tableBox: BBox, blocks: seq<TextBlock>, pageHeight: real)
    ensures forall c :: c in TitleCandidates(tableBox, blocks, pageHeight) ==>
              exists b :: b in blocks && IsTitleCandidate(b, tableBox, pageHeight) && c == CandidateOf(b, tableBox)
  {
    if blocks != [] {
      var rest := TitleCandidates(tableBox, blocks[1..], pageHeight);
      CandidatesComeFromBlocks(tableBox, blocks[1..], pageHeight);
      forall c | c in TitleCandidates(tableBox, blocks, pageHeight)
        ensures exists b :: b in blocks && IsTitleCandidate(b, tableBox, pageHeight) && c == CandidateOf(b, tableBox)
      {
        if c in rest {
          var b :| b in blocks[1..] && IsTitleCandidate(b, tableBox, pageHeight) && c == CandidateOf(b, tableBox);
          assert b in blocks;
        } else {
          assert blocks[0] in blocks;
        }
      }
    }
  }

  /** Every candidate block yields a candidate. */
  lemma {:induction false} CandidateBlocksListed(tableBox: BBox, blocks: seq<TextBlock>, pageHeight: real)
    ensures forall b :: b in blocks && IsTitleCandidate(b, tableBox, pageHeight) ==>
              CandidateOf(b, tableBox) in TitleCandidates(tableBox, blocks, pageHeight)
  {
    if blocks != [] {
      CandidateBlocksListed(tableBox, blocks[1..], pageHeight);
      assert forall b :: b in blocks ==> b == blocks[0] || b in blocks[1..];
    }
  }

  lemma TitleCandidatesStep(tableBox: BBox, blocks: seq<TextBlock>, i: int, pageHeight: real)
    requires 0 <= i < |blocks|
    ensures TitleCandidates(tableBox, blocks[i..], pageHeight)
         == if IsTitleCandidate(blocks[i], tableBox, pageHeight)
            then [CandidateOf(blocks[i], tableBox)] + TitleCandidates(tableBox, blocks[i + 1..], pageHeight)
            else TitleCandidates(tableBox, blocks[i + 1..], pageHeight)
  {
    assert blocks[i..][1..] == blocks[i + 1..];
    assert [] + TitleCandidates(tableBox, blocks[i + 1..], pageHeight) == TitleCandidates(tableBox, blocks[i + 1..], pageHeight);
  }

  /**
   * The head of the candidates sorted by distance with a stable sort: the
   * first candidate of least distance.
   */
  function Closest(cands: seq<Candidate>): Candidate
    requires cands != []
  {
    if |cands| == 1 then cands[0]
    else
      var rest := Closest(cands[1..]);
      if cands[0].distance <= rest.distance then cands[0] else rest
  }

  /** The closest candidate is one of the candidates and at least as near as every other. */
  lemma {:induction false} ClosestIsLeast(cands: seq<Candidate>)
    requires cands != []
    ensures Closest(cands) in cands
    ensures forall c :: c in cands ==> Closest(cands).distance <= c.distance
  {
    if |cands| > 1 {
      ClosestIsLeast(cands[1..]);
      assert forall c :: c in cands ==> c == cands[0] || c in cands[1..];
    }
  }

  /** Every candidate before the closest one is strictly farther: ties go to the first. */
  lemma {:induction false} ClosestIsFirst(cands: seq<Candidate>)
    requires cands != []
    ensures exists i :: 0 <= i < |cands| && cands[i] == Closest(cands)
                        && forall j :: 0 <= j < i ==> cands[j].distance > Closest(cands).distance
  {
    if |cands| == 1 {
      assert cands[0] == Closest(cands);
    } else {
      var tail := cands[1..];
      ClosestIsFirst(tail);
      var rest := Closest(tail);
      if cands[0].distance <= rest.distance {
        assert cands[0] == Closest(cands);
      } else {
        var i :| 0 <= i < |tail| && tail[i] == rest && forall j :: 0 <= j < i ==> tail[j].distance > rest.distance;
        assert cands[i + 1] == Closest(cands);
        assert forall j :: 1 <= j < i + 1 ==> cands[j] == tail[j - 1];
      }
    }
  }

  /** What `_extract_table_title` returns. */
  function TitleOf(tableBox: BBox, blocks: seq<TextBlock>, pageHeight: real, isContinuation: bool): Option<string>
  {
    if isContinuation then None
    else
      var cands := TitleCandidates(tableBox, blocks, pageHeight);
      if cands == [] then None
      else
        var closest := Closest(cands);
        if closest.distance <= 50.0 then Some(closest.text) else None
  }

  /**
   * `_extract_table_title`: collect the candidates in block order, then take
   * the closest one (the first on ties) if it lies within 50pt of the table.
   */
  method ExtractTableTitle(tableBox: BBox, blocks: seq<TextBlock>, pageHeight: real, isContinuation: bool)
    returns (title: Option<string>)
    ensures title == TitleOf(tableBox, blocks, pageHeight, isContinuation)
  {
    if isContinuation {
      return None;
    }
    var candidates: seq<Candidate> := [];
    for i := 0 to |blocks|
      invariant candidates + TitleCandidates(tableBox, blocks[i..], pageHeight)
             == TitleCandidates(tableBox, blocks, pageHeight)
    {
      TitleCandidatesStep(tableBox, blocks, i, pageHeight);
      var b := blocks[i];
      if IsTitleCandidate(b, tableBox, pageHeight) {
        var candidate := CandidateOf(b, tableBox);
        Seqs.Assoc(candidates, [candidate], TitleCandidates(tableBox, blocks[i + 1..], pageHeight));
        candidates := candidates + [candidate];
      }
    }
    assert blocks[|blocks|..] == [];
    assert candidates == TitleCandidates(tableBox, blocks, pageHeight);
    if candidates != [] {
      var closest := Closest(candidates);
      if closest.distance <= 50.0 {
        return Some(closest.text);
      }
    }
    return None;
  }

  /**
   * No title exactly when the table is a continuation or every candidate
   * block lies more than 50pt above the table.
   */
  lemma TitleNoneIff(tableBox: BBox, blocks: seq<TextBlock>, pageHeight: real, isContinuation: bool)
    ensures TitleOf(tableBox, blocks, pageHeight, isContinuation).None? <==>
              isContinuation
              || forall b :: b in blocks && IsTitleCandidate(b, tableBox, pageHeight) ==> tableBox.y0 - b.bbox.y1 > 50.0
  {
    CandidatesComeFromBlocks(tableBox, blocks, pageHeight);
    CandidateBlocksListed(tableBox, blocks, pageHeight);
    var cands := TitleCandidates(tableBox, blocks, pageHeight);
    if !isContinuation && cands != [] {
      ClosestIsLeast(cands);
      var closest := Closest(cands);
      forall b | b in blocks && IsTitleCandidate(b, tableBox, pageHeight)
        ensures closest.distance <= tableBox.y0 - b.bbox.y1
      {
        assert CandidateOf(b, tableBox) in cands;
      }
    }
    if !isContinuation && cands == [] {
      forall b | b in blocks
        ensures !IsTitleCandidate(b, tableBox, pageHeight)
      {
        assert IsTitleCandidate(b, tableBox, pageHeight) ==> CandidateOf(b, tableBox) in cands;
      }
    }
  }

  /** A returned title is 3 to 100 characters long, starts with "table " in lower case and holds '-'. */
  lemma TitleShape(tableBox: BBox, blocks: seq<TextBlock>, pageHeight: real, isContinuation: bool)
    requires TitleOf(tableBox, blocks, pageHeight, isContinuation).Some?
    ensures var t := TitleOf(tableBox, blocks, pageHeight, isContinuation).value;
            3 <= |t| <= 100 && StartsWith(Lower(t), "table ") && '-' in t
  {
    CandidatesComeFromBlocks(tableBox, blocks, pageHeight);
    ClosestIsLeast(TitleCandidates(tableBox, blocks, pageHeight));
    var closest := Closest(TitleCandidates(tableBox, blocks, pageHeight));
    var b :| b in blocks && IsTitleCandidate(b, tableBox, pageHeight) && closest == CandidateOf(b, tableBox);
  }

  /**
   * `b` is a candidate block whose stripped text is `t`, within 50pt of the
   * table and no farther from it than any other candidate block.
   */
  predicate IsClosestTitleBlock(b: TextBlock, t: string, tableBox: BBox, blocks: seq<TextBlock>, pageHeight: real)
  {
    b in blocks && IsTitleCandidate(b, tableBox, pageHeight)
    && t == Strip(b.text)
    && tableBox.y0 - b.bbox.y1 <= 50.0
    && forall b' :: b' in blocks && IsTitleCandidate(b', tableBox, pageHeight)
         ==> tableBox.y0 - b.bbox.y1 <= tableBox.y0 - b'.bbox.y1
  }

  /** A returned title comes from the closest candidate block. */
  lemma TitleIsClosestCandidate(tableBox: BBox, blocks: seq<TextBlock>, pageHeight: real, isContinuation: bool)
    requires TitleOf(tableBox, blocks, pageHeight, isContinuation).Some?
    ensures exists b :: IsClosestTitleBlock(b, TitleOf(tableBox, blocks, pageHeight, isContinuation).value,
                                            tableBox, blocks, pageHeight)
  {
    CandidatesComeFromBlocks(tableBox, blocks, pageHeight);
    CandidateBlocksListed(tableBox, blocks, pageHeight);
    var cands := TitleCandidates(tableBox, blocks, pageHeight);
    ClosestIsLeast(cands);
    var closest := Closest(cands);
    var b :| b in blocks && IsTitleCandidate(b, tableBox, pageHeight) && closest == CandidateOf(b, tableBox);
    assert closest.text == Strip(b.text) && closest.distance == tableBox.y0 - b.bbox.y1;
    assert TitleOf(tableBox, blocks, pageHeight, isContinuation) == Some(closest.text);
    forall b' | b' in blocks && IsTitleCandidate(b', tableBox, pageHeight)
      ensures tableBox.y0 - b.bbox.y1 <= tableBox.y0 - b'.bbox.y1
    {
      assert CandidateOf(b', tableBox) in cands;
    }
    assert IsClosestTitleBlock(b, closest.text, tableBox, blocks, pageHeight);
  }

  // ---------------------------------------------------------------------------
  // The analyzer
  // ---------------------------------------------------------------------------

  function ClearTitles(tables: seq<TableInfo>): (r: seq<TableInfo>)
    ensures |r| == |tables|
    ensures forall i :: 0 <= i < |tables| ==> r[i] == tables[i].(title := None)
  {
    seq(|tables|, i requires 0 <= i < |tables| => tables[i].(title := None))
  }

  /** The layout of page i after `analyze_all_pages`. */
  function AnalyzedPage(p: PageLayout, isContinuation: bool): PageLayout
  {
    if isContinuation then Marked(p) else p.(strategy := FinalStrategy(p))
  }

  /** A continuation page: strategy 'qwen-continuation' and every table title removed. */
  function Marked(p: PageLayout): PageLayout
  {
    p.(strategy := QwenContinuation, tables := ClearTitles(p.tables))
  }

  /** The marking step of `analyze_all_pages` for one continuation page. */
  method MarkContinuationPage(p: PageLayout) returns (q: PageLayout)
    ensures q == Marked(p)
  {
    q := p.(strategy := QwenContinuation);
    if q.tables != [] {
      var cleared := ClearTableTitles(q.tables);
      q := q.(tables := cleared);
    } else {
      assert |ClearTitles(q.tables)| == 0;
    }
  }

  /** The inner loop of `analyze_all_pages`: every table's title set to None, in place. */
  method ClearTableTitles(tables: seq<TableInfo>) returns (cleared: seq<TableInfo>)
    ensures cleared == ClearTitles(tables)
  {
    cleared := tables;
    for t := 0 to |cleared|
      invariant |cleared| == |tables|
      invariant forall j :: 0 <= j < |cleared| ==>
                  cleared[j] == if j < t then tables[j].(title := None) else tables[j]
    {
      cleared := cleared[t := cleared[t].(title := None)];
    }
  }

  lemma ClearTitlesWellFormed(p: PageLayout)
    requires WellFormed(p)
    ensures WellFormed(p.(tables := ClearTitles(p.tables)))
  {
    var q := p.(tables := ClearTitles(p.tables));
    forall t | t in q.tables
      ensures Normalised(t.bbox)
    {
      var i :| 0 <= i < |q.tables| && q.tables[i] == t;
      assert p.tables[i] in p.tables;
    }
  }

  /** The marking loop of `analyze_all_pages`: every detected page from the second on is marked. */
  method MarkContinuationPages(pages: seq<PageLayout>, detected: map<int, int>) returns (marked: seq<PageLayout>)
    ensures |marked| == |pages|
    ensures forall i :: 0 <= i < |pages| ==>
              marked[i] == if 1 <= i && i in detected then Marked(pages[i]) else pages[i]
  {
    marked := pages;
    var k := 1;
    while k < |marked|
      invariant 1 <= k && |marked| == |pages|
      invariant forall i :: 0 <= i < |pages| ==>
                  marked[i] == if 1 <= i < k && i in detected then Marked(pages[i]) else pages[i]
    {
      if k in detected {
        var layout := MarkContinuationPage(marked[k]);
        marked := marked[k := layout];
      }
      k := k + 1;
    }
  }

  /** Marking the detected pages and then deciding strategies gives each page its analysed layout. */
  lemma AnalyzedPages(pages: seq<PageLayout>, detected: map<int, int>, marked: seq<PageLayout>, r: seq<PageLayout>)
    requires forall p :: p in pages ==> WellFormed(p)
    requires forall k :: k in detected <==> ContinuesAt(pages, k)
    requires |marked| == |pages|
    requires forall i :: 0 <= i < |pages| ==>
               marked[i] == if 1 <= i && i in detected then Marked(pages[i]) else pages[i]
    requires |r| == |marked|
    requires forall i :: 0 <= i < |r| ==> r[i] == marked[i].(strategy := FinalStrategy(marked[i]))
    ensures forall p :: p in r ==> WellFormed(p)
    ensures forall i :: 0 <= i < |pages| ==> r[i] == AnalyzedPage(pages[i], i in detected)
  {
    forall i | 0 <= i < |pages|
      ensures WellFormed(r[i]) && r[i] == AnalyzedPage(pages[i], i in detected)
    {
      assert pages[i] in pages;
      ClearTitlesWellFormed(pages[i]);
      if i in detected {
        assert ContinuesAt(pages, i);
      }
    }
    forall p | p in r
      ensures WellFormed(p)
    {
      var i :| 0 <= i < |r| && r[i] == p;
    }
  }

  class StructuralLayoutAnalyzer {
    var layouts: seq<PageLayout>
    var continuations: map<int, int>

    predicate Valid()
      reads this
    {
      forall p :: p in layouts ==> WellFormed(p)
    }

    constructor()
      ensures layouts == [] && continuations == map[]
      ensures Valid()
    {
      layouts := [];
      continuations := map[];
    }

    /** `_detect_continuations` with the structural test. */
    method DetectContinuations() returns (r: map<int, int>)
      requires Valid()
      ensures forall k :: k in r <==> ContinuesAt(layouts, k)
      ensures forall k :: k in r ==> r[k] == k - 1
    {
      r := map[];
      var k := 1;
      while k < |layouts|
        invariant 1 <= k
        invariant forall j :: j in r <==> j < k && ContinuesAt(layouts, j)
        invariant forall j :: j in r ==> r[j] == j - 1
      {
        assert layouts[k - 1] in layouts && layouts[k] in layouts;
        if IsContinuation(layouts[k - 1], layouts[k]) {
          r := r[k := k - 1];
        }
        k := k + 1;
      }
    }

    /**
     * `analyze_all_pages` after the per-page analysis: each continuation page
     * becomes 'qwen-continuation' and loses every table title, then the
     * other pages get their strategy.
     */
    method AnalyzeAllPages(pages: seq<PageLayout>)
      requires forall p :: p in pages ==> WellFormed(p)
      modifies this
      ensures Valid()
      ensures continuations == ContinuationsOf(pages)
      ensures |layouts| == |pages|
      ensures forall i :: 0 <= i < |pages| ==> layouts[i] == AnalyzedPage(pages[i], i in continuations)
    {
      layouts := pages;
      var detected := DetectContinuations();
      continuations := detected;
      assert continuations == ContinuationsOf(pages);
      var marked := MarkContinuationPages(pages, detected);
      layouts := DecideStrategies(marked);
      AnalyzedPages(pages, detected, marked, layouts);
    }
  }

  /** After the analysis no table on a continuation page has a title. */
  lemma ContinuationPagesUntitled(p: PageLayout)
    ensures AnalyzedPage(p, true).strategy == QwenContinuation
    ensures forall t :: t in AnalyzedPage(p, true).tables ==> t.title.None?
    ensures |AnalyzedPage(p, true).tables| == |p.tables|
  {
    var q := AnalyzedPage(p, true);
    forall t | t in q.tables
      ensures t.title.None?
    {
      var i :| 0 <= i < |q.tables| && q.tables[i] == t;
    }
  }
}
