/**
 * The positional continuation detector of `fitz_layout_analyzer.py` and the
 * analyzer object whose `layouts` and `continuations` fields it fills.
 */
module FitzLayout {
  import opened PageLayouts

  function Abs(x: real): real
  {
    if x < 0.0 then -x else x
  }

  function Max(a: real, b: real): real
  {
    if a >= b then a else b
  }

  /**
   * The width test: the widths differ by more than 30pt and by more than 20%
   * of the wider one (the first test keeps the divisor positive).
   */
  predicate WidthsDiffer(prevWidth: real, currWidth: real)
    requires prevWidth >= 0.0 && currWidth >= 0.0
  {
    var diff := Abs(prevWidth - currWidth);
    diff > 30.0 && diff / Max(prevWidth, currWidth) > 0.2
  }

  /** The width test without division: more than 30pt apart and 5 * diff > max. */
  lemma WidthsDifferCross(prevWidth: real, currWidth: real)
    requires prevWidth >= 0.0 && currWidth >= 0.0
    ensures WidthsDiffer(prevWidth, currWidth)
        <==> Abs(prevWidth - currWidth) > 30.0
             && 5.0 * Abs(prevWidth - currWidth) > Max(prevWidth, currWidth)
  {
    var diff := Abs(prevWidth - currWidth);
    var m := Max(prevWidth, currWidth);
    if diff > 30.0 {
      assert m > 0.0;
      DivAbove(diff, m, 0.2);
    }
  }

  lemma DivAbove(a: real, m: real, t: real)
    requires m > 0.0
    ensures a / m > t <==> a > t * m
  {
    var q := a / m;
    assert q * m == a;
    if q > t {
      MulMonotone(t, q, m);
    } else {
      MulMonotone(q, t, m);
    }
  }

  /**
   * `_is_continuation` (positional): the last table of the previous page and
   * the first table of the current page are the same table when the current
   * one starts near the top, has few rows, is left-aligned with the previous
   * one and of similar width, and the previous one is not a short table
   * (unless the current one is very short as well).
   */
  predicate IsContinuation(prev: PageLayout, curr: PageLayout)
    requires WellFormed(prev) && WellFormed(curr)
  {
    if !prev.hasTable || !curr.hasTable then false
    else
      var prevTable := LastTable(prev);
      var currTable := curr.tables[0];
      assert currTable in curr.tables && prevTable in prev.tables;
      if currTable.bbox.y0 > 200.0 then false
      else if currTable.rowCount > 15 then false
      else if Abs(prevTable.bbox.x0 - currTable.bbox.x0) > 20.0 then false
      else if WidthsDiffer(Width(prevTable.bbox), Width(currTable.bbox)) then false
      else if prevTable.rowCount < 3 && currTable.rowCount > 2 then false
      else true
  }

  /**
   * The five rejection rules in one statement, with the width rule in its
   * cross-multiplied form.
   */
  lemma IsContinuationIff(prev: PageLayout, curr: PageLayout)
    requires WellFormed(prev) && WellFormed(curr)
    ensures IsContinuation(prev, curr) <==>
      prev.hasTable && curr.hasTable &&
      var p := LastTable(prev).bbox;
      var c := curr.tables[0].bbox;
      var d := Abs(Width(p) - Width(c));
      c.y0 <= 200.0
      && curr.tables[0].rowCount <= 15
      && Abs(p.x0 - c.x0) <= 20.0
      && !(d > 30.0 && 5.0 * d > Max(Width(p), Width(c)))
      && (LastTable(prev).rowCount >= 3 || curr.tables[0].rowCount <= 2)
  {
    if prev.hasTable && curr.hasTable {
      assert LastTable(prev) in prev.tables && curr.tables[0] in curr.tables;
      WidthsDifferCross(Width(LastTable(prev).bbox), Width(curr.tables[0].bbox));
    }
  }

  function ShiftBox(b: BBox, dx: real): BBox
  {
    BBox(b.x0 + dx, b.y0, b.x1 + dx, b.y1)
  }

  /** The page with every table moved `dx` points to the right. */
  function ShiftTables(p: PageLayout, dx: real): (r: PageLayout)
    ensures |r.tables| == |p.tables|
  {
    p.(tables := seq(|p.tables|, i requires 0 <= i < |p.tables| => p.tables[i].(bbox := ShiftBox(p.tables[i].bbox, dx))))
  }

  lemma ShiftWellFormed(p: PageLayout, dx: real)
    requires WellFormed(p)
    ensures WellFormed(ShiftTables(p, dx))
  {
    var q := ShiftTables(p, dx);
    forall t | t in q.tables
      ensures Normalised(t.bbox)
    {
      var i :| 0 <= i < |q.tables| && q.tables[i] == t;
      assert p.tables[i] in p.tables;
    }
  }

  /**
   * The detector only compares the two tables with each other horizontally:
   * moving both pages' tables sideways by the same amount keeps the verdict.
   */
  lemma ContinuationShiftInvariant(prev: PageLayout, curr: PageLayout, dx: real)
    requires WellFormed(prev) && WellFormed(curr)
    ensures WellFormed(ShiftTables(prev, dx)) && WellFormed(ShiftTables(curr, dx))
    ensures IsContinuation(ShiftTables(prev, dx), ShiftTables(curr, dx)) == IsContinuation(prev, curr)
  {
    ShiftWellFormed(prev, dx);
    ShiftWellFormed(curr, dx);
    var sp, sc := ShiftTables(prev, dx), ShiftTables(curr, dx);
    if prev.hasTable && curr.hasTable {
      assert LastTable(sp).bbox == ShiftBox(LastTable(prev).bbox, dx);
      assert sc.tables[0].bbox == ShiftBox(curr.tables[0].bbox, dx);
      assert Width(LastTable(sp).bbox) == Width(LastTable(prev).bbox);
      assert Width(sc.tables[0].bbox) == Width(curr.tables[0].bbox);
    }
  }

  /**
   * A table that carries on at the top of the next page with the same
   * geometry and between 3 and 15 rows is always taken for a continuation.
   */
  lemma SameTableContinues(prev: PageLayout, curr: PageLayout)
    requires WellFormed(prev) && WellFormed(curr)
    requires prev.hasTable && curr.hasTable
    requires LastTable(prev).bbox.x0 == curr.tables[0].bbox.x0
    requires Width(LastTable(prev).bbox) == Width(curr.tables[0].bbox)
    requires curr.tables[0].bbox.y0 <= 200.0
    requires 3 <= LastTable(prev).rowCount && curr.tables[0].rowCount <= 15
    ensures IsContinuation(prev, curr)
  {
    IsContinuationIff(prev, curr);
  }

  /** Page k continues the table at the bottom of page k - 1. */
  predicate ContinuesAt(layouts: seq<PageLayout>, k: int)
    requires forall p :: p in layouts ==> WellFormed(p)
  {
    1 <= k < |layouts| &&
    assert layouts[k - 1] in layouts && layouts[k] in layouts;
    IsContinuation(layouts[k - 1], layouts[k])
  }

  /** The continuation map `_detect_continuations` builds: page k continues page k - 1. */
  function ContinuationsOf(layouts: seq<PageLayout>): map<int, int>
    requires forall p :: p in layouts ==> WellFormed(p)
  {
    map k | 1 <= k < |layouts| && ContinuesAt(layouts, k) :: k - 1
  }

  /** Page 0 is never a continuation; every key k lies in 1..n-1 and maps to k - 1. */
  lemma ContinuationKeys(layouts: seq<PageLayout>)
    requires forall p :: p in layouts ==> WellFormed(p)
    ensures 0 !in ContinuationsOf(layouts)
    ensures forall k :: k in ContinuationsOf(layouts) ==>
              1 <= k < |layouts| && ContinuationsOf(layouts)[k] == k - 1
              && layouts[k - 1].hasTable && layouts[k].hasTable
  {
    forall k | k in ContinuationsOf(layouts)
      ensures layouts[k - 1].hasTable && layouts[k].hasTable
    {
      assert layouts[k - 1] in layouts && layouts[k] in layouts;
    }
  }

  class FitzLayoutAnalyzer {
    /** Page index (0-based) to its layout. */
    var layouts: seq<PageLayout>
    /** Continuation page index to the index of the page it continues. */
    var continuations: map<int, int>

    predicate Valid()
      reads this
    {
      forall p :: p in layouts ==> WellFormed(p)
    }

    constructor()
      ensures layouts == [] && continuations == map[]
      ensures Valid()
    {
      layouts := [];
      continuations := map[];
    }

    /**
     * `_detect_continuations`: page k (1 <= k < n) maps to k - 1 exactly
     * when `_is_continuation` holds for the pair.
     */
    method DetectContinuations() returns (r: map<int, int>)
      requires Valid()
      ensures forall k :: k in r <==> ContinuesAt(layouts, k)
      ensures forall k :: k in r ==> r[k] == k - 1
    {
      r := map[];
      var k := 1;
      while k < |layouts|
        invariant 1 <= k
        invariant forall j :: j in r <==> j < k && ContinuesAt(layouts, j)
        invariant forall j :: j in r ==> r[j] == j - 1
      {
        assert layouts[k - 1] in layouts && layouts[k] in layouts;
        if IsContinuation(layouts[k - 1], layouts[k]) {
          r := r[k := k - 1];
        }
        k := k + 1;
      }
    }

    /**
     * `analyze_all_pages` after the per-page analysis (whose results are
     * `pages`): record the continuations, mark every continuation page
     * 'qwen-continuation', then decide the strategy of all other pages.
     */
    method AnalyzeAllPages(pages: seq<PageLayout>)
      requires forall p :: p in pages ==> WellFormed(p)
      modifies this
      ensures Valid()
      ensures continuations == ContinuationsOf(pages)
      ensures |layouts| == |pages|
      ensures forall i :: 0 <= i < |pages| ==>
                layouts[i] == pages[i].(strategy := if i in continuations then QwenContinuation
                                                    else FinalStrategy(pages[i]))
    {
      layouts := pages;
      var detected := DetectContinuations();
      continuations := detected;
      assert continuations == ContinuationsOf(pages);
      var marked := layouts;
      var k := 1;
      while k < |marked|
        invariant 1 <= k && |marked| == |pages|
        invariant forall i :: 0 <= i < |pages| ==>
                    marked[i] == if 1 <= i < k && i in continuations
                                 then pages[i].(strategy := QwenContinuation) else pages[i]
      {
        if k in continuations {
          marked := marked[k := marked[k].(strategy := QwenContinuation)];
        }
        k := k + 1;
      }
      ContinuationKeys(pages);
      layouts := DecideStrategies(marked);
      forall p | p in layouts
        ensures WellFormed(p)
      {
        var i :| 0 <= i < |layouts| && layouts[i] == p;
        assert pages[i] in pages;
      }
    }
  }

  /** After the analysis no page is left 'unknown'; continuation pages are exactly the detected ones. */
  lemma AnalyzedStrategies(pages: seq<PageLayout>, result: seq<PageLayout>, continuations: map<int, int>)
    requires forall p :: p in pages ==> WellFormed(p)
    requires forall p :: p in pages ==> p.strategy == Unknown
    requires continuations == ContinuationsOf(pages)
    requires |result| == |pages|
    requires forall i :: 0 <= i < |pages| ==>
               result[i] == pages[i].(strategy := if i in continuations then QwenContinuation
                                                  else FinalStrategy(pages[i]))
    ensures forall i :: 0 <= i < |result| ==> result[i].strategy != Unknown
    ensures forall i :: 0 <= i < |result| ==>
              (result[i].strategy == QwenContinuation <==> i in continuations)
  {
    forall i | 0 <= i < |result|
      ensures result[i].strategy != Unknown
      ensures result[i].strategy == QwenContinuation <==> i in continuations
    {
      if i !in continuations {
        assert pages[i] in pages;
        var d := DecideStrategy(pages[i]);
        assert FinalStrategy(pages[i]) == d;
        assert result[i].strategy == d;
      }
    }
  }
}
