/**
 * Page layout records produced by the PyMuPDF layout analyzers
 * (`fitz_layout_analyzer.py` and its structural predecessor
 * `backup_step1_layout_analyzer_v1_fitz.py`, which share this code word for
 * word): tables with their cells, the "simple table" test, the per-page
 * parsing strategy, the header lookup and the statistics block.
 */
module PageLayouts {
  import opened Wrappers
  import opened Strings

  /** The parsing strategy strings 'unknown', 'fitz-only', 'qwen-simple', 'qwen-continuation'. */
  datatype Strategy = Unknown | FitzOnly | QwenSimple | QwenContinuation

  /** A cell returned by `table.extract()`: a string or None. */
  type Cell = Option<string>

  /** `(x0, y0, x1, y1)` in PDF points, y growing downwards. */
  datatype BBox = BBox(x0: real, y0: real, x1: real, y1: real)

  /** PyMuPDF rectangles are normalised: x0 <= x1 and y0 <= y1. */
  predicate Normalised(b: BBox)
  {
    b.x0 <= b.x1 && b.y0 <= b.y1
  }

  function Width(b: BBox): real
  {
    b.x1 - b.x0
  }

  /** A detected table; `title` is only ever set by the structural analyzer. */
  datatype TableInfo = TableInfo(
    tableId: int,
    bbox: BBox,
    rowCount: int,
    colCount: int,
    cells: seq<seq<Cell>>,
    isSimple: bool,
    title: Option<string>)

  /** A text block: its box and its first 100 characters of text. */
  datatype TextBlock = TextBlock(bbox: BBox, text: string)

  datatype PageLayout = PageLayout(
    pageNum: int,
    width: real,
    height: real,
    hasText: bool,
    hasTable: bool,
    hasImage: bool,
    tables: seq<TableInfo>,
    textBlocks: seq<TextBlock>,
    strategy: Strategy)

  /**
   * What `_analyze_single_page` guarantees: `has_table` is set only when at
   * least one table was found, and every box is normalised.
   */
  predicate WellFormed(p: PageLayout)
  {
    (p.hasTable ==> |p.tables| > 0)
    && (forall t :: t in p.tables ==> Normalised(t.bbox))
    && (forall b :: b in p.textBlocks ==> Normalised(b.bbox))
  }

  function LastTable(p: PageLayout): TableInfo
    requires |p.tables| > 0
  {
    p.tables[|p.tables| - 1]
  }

  // ---------------------------------------------------------------------------
  // _is_simple_table
  // ---------------------------------------------------------------------------

  /** `not cell or not str(cell).strip()`. */
  predicate IsBlankCell(c: Cell)
  {
    c.None? || Strip(c.value) == ""
  }

  function BlankInRow(row: seq<Cell>): (n: nat)
    ensures n <= |row|
  {
    if row == [] then 0 else BlankInRow(row[..|row| - 1]) + (if IsBlankCell(row[|row| - 1]) then 1 else 0)
  }

  function TotalCells(cells: seq<seq<Cell>>): nat
  {
    if cells == [] then 0 else TotalCells(cells[..|cells| - 1]) + |cells[|cells| - 1]|
  }

  function BlankCells(cells: seq<seq<Cell>>): (n: nat)
    ensures n <= TotalCells(cells)
  {
    if cells == [] then 0 else BlankCells(cells[..|cells| - 1]) + BlankInRow(cells[|cells| - 1])
  }

  /**
   * `_is_simple_table`: false for no rows, an empty first row or no cells;
   * otherwise whether fewer than 30% of the cells are blank (the ratio test
   * `empty / total < 0.3` written as `10 * empty < 3 * total`).
   */
  function IsSimpleTable(cells: seq<seq<Cell>>): (r: bool)
    ensures r ==> cells != [] && cells[0] != [] && TotalCells(cells) > 0
    ensures r ==> 10 * BlankCells(cells) < 3 * TotalCells(cells)
  {
    if cells == [] || cells[0] == [] then false
    else
      var total := TotalCells(cells);
      if total == 0 then false
      else 10 * BlankCells(cells) < 3 * total
  }

  /** The cross-multiplied test is the ratio test of the source. */
  lemma SimpleIffRatio(cells: seq<seq<Cell>>)
    requires cells != [] && cells[0] != [] && TotalCells(cells) > 0
    ensures IsSimpleTable(cells) <==> (BlankCells(cells) as real) / (TotalCells(cells) as real) < 0.3
  {
    RatioBelow(BlankCells(cells), TotalCells(cells));
  }

  lemma RatioBelow(e: nat, t: nat)
    requires t > 0
    ensures (e as real) / (t as real) < 0.3 <==> 10 * e < 3 * t
  {
    var er, tr := e as real, t as real;
    var q := er / tr;
    assert q * tr == er;
    assert (10 * e) as real == 10.0 * er && (3 * t) as real == 3.0 * tr;
    if q < 0.3 {
      MulMonotone(q, 0.3, tr);
      assert er < 0.3 * tr;
    } else {
      MulMonotone(0.3, q, tr);
      assert 0.3 * tr <= er;
    }
  }

  lemma MulMonotone(a: real, b: real, c: real)
    requires a <= b && c > 0.0
    ensures a * c <= b * c
    ensures a < b ==> a * c < b * c
  {
  }

  lemma {:induction false} NoBlankRow(row: seq<Cell>)
    requires forall c :: c in row ==> !IsBlankCell(c)
    ensures BlankInRow(row) == 0
  {
    if row != [] {
      NoBlankRow(row[..|row| - 1]);
    }
  }

  lemma {:induction false} NoBlankCells(cells: seq<seq<Cell>>)
    requires forall row, c :: row in cells && c in row ==> !IsBlankCell(c)
    ensures BlankCells(cells) == 0
  {
    if cells != [] {
      NoBlankCells(cells[..|cells| - 1]);
      NoBlankRow(cells[|cells| - 1]);
    }
  }

  /** A table whose first row is non-empty and which has no blank cell is simple. */
  lemma FullTableIsSimple(cells: seq<seq<Cell>>)
    requires cells != [] && cells[0] != []
    requires forall row, c :: row in cells && c in row ==> !IsBlankCell(c)
    ensures IsSimpleTable(cells)
  {
    NoBlankCells(cells);
    FirstRowCounted(cells);
  }

  lemma {:induction false} FirstRowCounted(cells: seq<seq<Cell>>)
    requires cells != []
    ensures TotalCells(cells) >= |cells[0]|
  {
    if |cells| > 1 {
      FirstRowCounted(cells[..|cells| - 1]);
    }
  }

  lemma {:induction false} AllBlankRow(row: seq<Cell>)
    requires forall c :: c in row ==> IsBlankCell(c)
    ensures BlankInRow(row) == |row|
  {
    if row != [] {
      AllBlankRow(row[..|row| - 1]);
    }
  }

  lemma {:induction false} AllBlankCells(cells: seq<seq<Cell>>)
    requires forall row, c :: row in cells && c in row ==> IsBlankCell(c)
    ensures BlankCells(cells) == TotalCells(cells)
  {
    if cells != [] {
      AllBlankCells(cells[..|cells| - 1]);
      AllBlankRow(cells[|cells| - 1]);
    }
  }

  /** A table made only of blank cells is never simple. */
  lemma BlankTableNotSimple(cells: seq<seq<Cell>>)
    requires forall row, c :: row in cells && c in row ==> IsBlankCell(c)
    ensures !IsSimpleTable(cells)
  {
    AllBlankCells(cells);
  }

  // ---------------------------------------------------------------------------
  // _decide_strategies
  // ---------------------------------------------------------------------------

  predicate AllSimple(tables: seq<TableInfo>)
  {
    forall t :: t in tables ==> t.isSimple
  }

  /**
   * The strategy `_decide_strategies` gives a page that is not a continuation:
   * text-only pages and pages with only simple tables and no image are
   * 'fitz-only', every other page is 'qwen-simple'.
   */
  function DecideStrategy(p: PageLayout): (r: Strategy)
    ensures r == FitzOnly || r == QwenSimple
    ensures r == FitzOnly <==> !p.hasImage && ((p.hasText && !p.hasTable) || (p.hasTable && AllSimple(p.tables)))
  {
    if p.hasText && !p.hasTable && !p.hasImage then FitzOnly
    else if p.hasTable && !p.hasImage then
      (if AllSimple(p.tables) then FitzOnly else QwenSimple)
    else QwenSimple
  }

  /** A page already marked 'qwen-continuation' keeps that strategy. */
  function FinalStrategy(p: PageLayout): Strategy
  {
    if p.strategy == QwenContinuation then QwenContinuation else DecideStrategy(p)
  }

  /**
   * `_decide_strategies`: every page that is not already a continuation page
   * gets the strategy `DecideStrategy` chooses; nothing else changes.
   */
  method DecideStrategies(layouts: seq<PageLayout>) returns (r: seq<PageLayout>)
    ensures |r| == |layouts|
    ensures forall i :: 0 <= i < |r| ==> r[i] == layouts[i].(strategy := FinalStrategy(layouts[i]))
    ensures forall i :: 0 <= i < |r| ==> (r[i].strategy == QwenContinuation <==> layouts[i].strategy == QwenContinuation)
    ensures forall i :: 0 <= i < |r| ==> r[i].strategy != Unknown
  {
    r := layouts;
    var i := 0;
    while i < |r|
      invariant 0 <= i <= |r| == |layouts|
      invariant forall k :: 0 <= k < i ==> r[k] == layouts[k].(strategy := FinalStrategy(layouts[k]))
      invariant forall k :: i <= k < |r| ==> r[k] == layouts[k]
    {
      var layout := r[i];
      if layout.strategy != QwenContinuation {
        if layout.hasText && !layout.hasTable && !layout.hasImage {
          layout := layout.(strategy := FitzOnly);
        } else if layout.hasTable && !layout.hasImage {
          if AllSimple(layout.tables) {
            layout := layout.(strategy := FitzOnly);
          } else {
            layout := layout.(strategy := QwenSimple);
          }
        } else {
          layout := layout.(strategy := QwenSimple);
        }
        r := r[i := layout];
      }
      i := i + 1;
    }
  }

  // ---------------------------------------------------------------------------
  // get_header_info
  // ---------------------------------------------------------------------------

  datatype HeaderInfo = HeaderInfo(columnNames: seq<Cell>, colCount: int, bbox: BBox)

  /**
   * `get_header_info(page_num)`: the first row of the page's last table, with
   * that table's column count and box; None for an unknown page, a page
   * without tables or a last table without rows.
   */
  function HeaderInfoOf(layouts: seq<PageLayout>, pageNum: int): (r: Option<HeaderInfo>)
    requires 0 <= pageNum < |layouts| ==> WellFormed(layouts[pageNum])
    ensures r.None? <==> !(0 <= pageNum < |layouts|) || !layouts[pageNum].hasTable
                         || LastTable(layouts[pageNum]).cells == []
    ensures r.Some? ==> var t := LastTable(layouts[pageNum]);
                        r.value == HeaderInfo(t.cells[0], t.colCount, t.bbox)
  {
    if !(0 <= pageNum < |layouts|) then None
    else
      var layout := layouts[pageNum];
      if !layout.hasTable then None
      else
        var table := LastTable(layout);
        if table.cells == [] then None
        else Some(HeaderInfo(table.cells[0], table.colCount, table.bbox))
  }

  // ---------------------------------------------------------------------------
  // _get_statistics
  // ---------------------------------------------------------------------------

  function CountStrategy(layouts: seq<PageLayout>, s: Strategy): (n: nat)
    ensures n <= |layouts|
  {
    if layouts == [] then 0
    else CountStrategy(layouts[..|layouts| - 1], s) + (if layouts[|layouts| - 1].strategy == s then 1 else 0)
  }

  function CountWithTables(layouts: seq<PageLayout>): (n: nat)
    ensures n <= |layouts|
  {
    if layouts == [] then 0
    else CountWithTables(layouts[..|layouts| - 1]) + (if layouts[|layouts| - 1].hasTable then 1 else 0)
  }

  function CountWithImages(layouts: seq<PageLayout>): (n: nat)
    ensures n <= |layouts|
  {
    if layouts == [] then 0
    else CountWithImages(layouts[..|layouts| - 1]) + (if layouts[|layouts| - 1].hasImage then 1 else 0)
  }

  function TotalTables(layouts: seq<PageLayout>): nat
  {
    if layouts == [] then 0 else TotalTables(layouts[..|layouts| - 1]) + |layouts[|layouts| - 1].tables|
  }

  datatype Statistics = Statistics(
    totalPages: nat,
    pagesWithTables: nat,
    pagesWithImages: nat,
    totalTables: nat,
    continuationCount: nat,
    strategies: map<Strategy, nat>)

  /**
   * `_get_statistics`: page, table and image counts, and how many pages use
   * each strategy (only strategies that occur are keys).
   */
  method GetStatistics(layouts: seq<PageLayout>, continuations: map<int, int>) returns (st: Statistics)
    ensures st.totalPages == |layouts|
    ensures st.pagesWithTables == CountWithTables(layouts)
    ensures st.pagesWithImages == CountWithImages(layouts)
    ensures st.totalTables == TotalTables(layouts)
    ensures st.continuationCount == |continuations|
    ensures forall s :: s in st.strategies <==> CountStrategy(layouts, s) > 0
    ensures forall s :: s in st.strategies ==> st.strategies[s] == CountStrategy(layouts, s)
  {
    var strategies: map<Strategy, nat> := map[];
    var i := 0;
    while i < |layouts|
      invariant 0 <= i <= |layouts|
      invariant forall s :: s in strategies <==> CountStrategy(layouts[..i], s) > 0
      invariant forall s :: s in strategies ==> strategies[s] == CountStrategy(layouts[..i], s)
    {
      var s := layouts[i].strategy;
      var before := if s in strategies then strategies[s] else 0;
      strategies := strategies[s := before + 1];
      assert layouts[..i + 1][..i] == layouts[..i];
      i := i + 1;
    }
    assert layouts[..i] == layouts;
    st := Statistics(|layouts|, CountWithTables(layouts), CountWithImages(layouts),
                     TotalTables(layouts), |continuations|, strategies);
  }

  /** The four strategy counts add up to the number of pages. */
  lemma {:induction false} StrategyCountsSum(layouts: seq<PageLayout>)
    ensures CountStrategy(layouts, Unknown) + CountStrategy(layouts, FitzOnly)
          + CountStrategy(layouts, QwenSimple) + CountStrategy(layouts, QwenContinuation) == |layouts|
  {
    if layouts != [] {
      StrategyCountsSum(layouts[..|layouts| - 1]);
    }
  }
}
