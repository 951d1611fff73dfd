/**
 * The y-range table collector of `test_y_based_collection.py`
 * (`get_tables_by_y_range`): a page cursor from the section's start page
 * that takes every table of the start page, skips pages without a layout
 * entry or without tables, and on the next section's page stops at the
 * first table at or below the next heading.
 *
 * As written, the cursor only stops on the next section's page when no
 * table was taken there, and the end test is not made on skipped pages, so
 * the page after the next section's page can still be collected.
 * `CollectAsWritten` models the code as written and `LateStop` exhibits
 * the input; `Collect` stops on reaching the next section's page, scanned
 * or skipped, and `NoTableAfterNextPage` proves it. The step-2 extractor
 * stops the same way on a next page that has a layout entry, but makes no
 * end test on a page without one, so `Collect` is the stricter of the two.
 */
module YCollection {
  import opened Wrappers
  import opened PageLayouts
  import opened SectionRecords
  import opened SectionExtractor
  import Seqs

  /**
   * The cursor's parameters: the start page, the next section's start page
   * and heading y (either may be missing), the page budget and the page
   * count of the document.
   */
  datatype YRange = YRange(startPage: int, nextPage: Option<int>, nextY: Option<real>, maxPages: int, docPages: int)

  predicate InRange(r: YRange, page: int)
  {
    page <= r.docPages && page - r.startPage < r.maxPages
  }

  /** A page the cursor skips without looking at its tables. */
  predicate Skipped(layouts: map<int, LayoutEntry>, page: int)
  {
    page - 1 !in layouts || !layouts[page - 1].hasTable
  }

  /** On the next section's page, a table at or below the next heading ends the collection. */
  predicate EndsAt(r: YRange, page: int, t: TableInfo)
  {
    r.nextPage == Some(page) && r.nextY.Some? && t.bbox.y0 >= r.nextY.value
  }

  /** Python truthiness of `next_section_page`: present and not 0. */
  predicate HasNext(r: YRange)
  {
    r.nextPage.Some? && r.nextPage.value != 0
  }

  /** The records one page's tables contribute, and whether a table ended the collection. */
  function ScanY(r: YRange, page: int, ts: seq<TableInfo>): PageScan
  {
    if ts == [] then PageScan([], false)
    else if EndsAt(r, page, ts[0]) then PageScan([], true)
    else
      var rest := ScanY(r, page, ts[1..]);
      PageScan([TableRecordOf(ts[0], page)] + rest.records, rest.stopped)
  }

  /** Every table of a page, as records. */
  function AllRecords(ts: seq<TableInfo>, page: int): seq<TableRecord>
  {
    if ts == [] then [] else [TableRecordOf(ts[0], page)] + AllRecords(ts[1..], page)
  }

  // ---------------------------------------------------------------------------
  // The cursor as written
  // ---------------------------------------------------------------------------

  /**
   * The tables collected from `page` on, as written: after a page is
   * scanned the cursor stops only when it is the next section's page and
   * nothing was taken there, or when it is past that page.
   */
  function CollectAsWritten(r: YRange, layouts: map<int, LayoutEntry>, page: int): seq<TableRecord>
    decreases r.startPage + r.maxPages - page
  {
    if !InRange(r, page) then []
    else if Skipped(layouts, page) then CollectAsWritten(r, layouts, page + 1)
    else
      var s := ScanY(r, page, layouts[page - 1].tables);
      if s.stopped then s.records
      else if r.nextPage == Some(page) && s.records == [] then s.records
      else if HasNext(r) && page > r.nextPage.value then s.records
      else s.records + CollectAsWritten(r, layouts, page + 1)
  }

  /**
   * A table above the next heading on the next section's page lets the
   * cursor go on to the following page, whose tables are then all taken.
   */
  lemma LateStop()
    ensures var t := TableInfo(0, BBox(0.0, 100.0, 10.0, 200.0), 2, 2, [], true, None);
            var e := LayoutEntry(true, [t], false, []);
            var r := YRange(1, Some(2), Some(500.0), 10, 5);
            CollectAsWritten(r, map[0 := e, 1 := e, 2 := e], 1)
              == [TableRecordOf(t, 1), TableRecordOf(t, 2), TableRecordOf(t, 3)]
  {
    var t := TableInfo(0, BBox(0.0, 100.0, 10.0, 200.0), 2, 2, [], true, None);
    var e := LayoutEntry(true, [t], false, []);
    var r := YRange(1, Some(2), Some(500.0), 10, 5);
    var layouts := map[0 := e, 1 := e, 2 := e];
    assert [t][1..] == [];
    assert ScanY(r, 1, [t]).records == [TableRecordOf(t, 1)];
    assert ScanY(r, 2, [t]).records == [TableRecordOf(t, 2)];
    assert ScanY(r, 3, [t]).records == [TableRecordOf(t, 3)];
    assert CollectAsWritten(r, layouts, 3) == [TableRecordOf(t, 3)];
    assert CollectAsWritten(r, layouts, 2) == [TableRecordOf(t, 2)] + [TableRecordOf(t, 3)];
  }

  // ---------------------------------------------------------------------------
  // The cursor stopping at the next section's page
  // ---------------------------------------------------------------------------

  /** The cursor's end test, made after every page, scanned or skipped. */
  predicate AtOrPastNext(r: YRange, page: int)
  {
    HasNext(r) && page >= r.nextPage.value
  }

  /** The tables collected from `page` on when the cursor stops on reaching the next section's page. */
  function Collect(r: YRange, layouts: map<int, LayoutEntry>, page: int): seq<TableRecord>
    decreases r.startPage + r.maxPages - page
  {
    if !InRange(r, page) then []
    else if Skipped(layouts, page) then
      (if AtOrPastNext(r, page) then [] else Collect(r, layouts, page + 1))
    else
      var s := ScanY(r, page, layouts[page - 1].tables);
      if s.stopped || AtOrPastNext(r, page) then s.records
      else s.records + Collect(r, layouts, page + 1)
  }

  lemma CollectStepY(r: YRange, layouts: map<int, LayoutEntry>, page: int)
    requires InRange(r, page) && !Skipped(layouts, page)
    ensures Collect(r, layouts, page)
         == var s := ScanY(r, page, layouts[page - 1].tables);
            if s.stopped || AtOrPastNext(r, page) then s.records
            else s.records + Collect(r, layouts, page + 1)
  {
  }

  lemma ScanYStep(r: YRange, page: int, ts: seq<TableInfo>, i: int)
    requires 0 <= i < |ts|
    ensures ScanY(r, page, ts[i..])
         == if EndsAt(r, page, ts[i]) then PageScan([], true)
            else PageScan([TableRecordOf(ts[i], page)] + ScanY(r, page, ts[i + 1..]).records,
                          ScanY(r, page, ts[i + 1..]).stopped)
  {
    assert ts[i..][1..] == ts[i + 1..];
  }

  /**
   * `get_tables_by_y_range`, stopping on reaching the next section's page:
   * a page cursor over the layout entries.
   */
  method GetTablesByYRange(r: YRange, layouts: map<int, LayoutEntry>) returns (tables: seq<TableRecord>)
    ensures tables == Collect(r, layouts, r.startPage)
  {
    tables := [];
    var currentPage := r.startPage;
    while currentPage <= r.docPages && currentPage - r.startPage < r.maxPages
      invariant tables + Collect(r, layouts, currentPage) == Collect(r, layouts, r.startPage)
      decreases r.startPage + r.maxPages - currentPage
    {
      if currentPage - 1 !in layouts || !layouts[currentPage - 1].hasTable {
        if r.nextPage.Some? && r.nextPage.value != 0 && currentPage >= r.nextPage.value {
          assert tables == Collect(r, layouts, r.startPage);
          return;
        }
        currentPage := currentPage + 1;
        continue;
      }
      ghost var before := tables;
      var stopped;
      tables, stopped := ScanPageY(tables, r, currentPage, layouts[currentPage - 1].tables);
      CollectStepY(r, layouts, currentPage);
      if stopped {
        return;
      }
      if r.nextPage.Some? && r.nextPage.value != 0 && currentPage >= r.nextPage.value {
        return;
      }
      Seqs.Assoc(before, ScanY(r, currentPage, layouts[currentPage - 1].tables).records, Collect(r, layouts, currentPage + 1));
      currentPage := currentPage + 1;
    }
    assert Collect(r, layouts, currentPage) == [];
  }

  /**
   * The loop over one page's tables; `stopped` is its early return on a
   * table at or below the next heading.
   */
  method ScanPageY(tables: seq<TableRecord>, r: YRange, page: int, pageTables: seq<TableInfo>)
    returns (tables': seq<TableRecord>, stopped: bool)
    ensures tables' == tables + ScanY(r, page, pageTables).records
    ensures stopped == ScanY(r, page, pageTables).stopped
  {
    tables', stopped := tables, false;
    ghost var whole := ScanY(r, page, pageTables);
    ghost var acc: seq<TableRecord> := [];
    assert pageTables[0..] == pageTables;
    for i := 0 to |pageTables|
      invariant tables' == tables + acc
      invariant acc + ScanY(r, page, pageTables[i..]).records == whole.records
      invariant ScanY(r, page, pageTables[i..]).stopped == whole.stopped
    {
      var table := pageTables[i];
      ScanYStep(r, page, pageTables, i);
      if r.nextPage == Some(page) && r.nextY.Some? {
        if table.bbox.y0 >= r.nextY.value {
          stopped := true;
          return;
        }
      }
      var record := TableRecordOf(table, page);
      Seqs.Assoc(acc, [record], ScanY(r, page, pageTables[i + 1..]).records);
      tables' := tables' + [record];
      acc := acc + [record];
    }
    assert pageTables[|pageTables|..] == [];
  }

  // ---------------------------------------------------------------------------
  // Properties
  // ---------------------------------------------------------------------------

  lemma {:induction false} ScanYRecords(r: YRange, page: int, ts: seq<TableInfo>)
    ensures forall rec :: rec in ScanY(r, page, ts).records ==>
              rec.page == page && exists t :: t in ts && rec == TableRecordOf(t, page) && !EndsAt(r, page, t)
  {
    if ts != [] {
      ScanYRecords(r, page, ts[1..]);
      assert forall t :: t in ts[1..] ==> t in ts;
    }
  }

  /** A page with no table at or below the next heading gives all its tables, in order. */
  lemma {:induction false} ScanYAll(r: YRange, page: int, ts: seq<TableInfo>)
    requires forall t :: t in ts ==> !EndsAt(r, page, t)
    ensures ScanY(r, page, ts) == PageScan(AllRecords(ts, page), false)
  {
    if ts != [] {
      assert forall t :: t in ts[1..] ==> t in ts;
      ScanYAll(r, page, ts[1..]);
    }
  }

  /**
   * Every table of the start page is taken, ahead of all others, when the
   * next section does not start on that page: there is no start-y filter.
   */
  lemma StartPageTablesFirst(r: YRange, layouts: map<int, LayoutEntry>)
    requires InRange(r, r.startPage) && !Skipped(layouts, r.startPage)
    requires r.nextPage != Some(r.startPage)
    ensures AllRecords(layouts[r.startPage - 1].tables, r.startPage) <= Collect(r, layouts, r.startPage)
  {
    var ts := layouts[r.startPage - 1].tables;
    ScanYAll(r, r.startPage, ts);
  }

  /**
   * No table from a page after the next section's page is ever collected,
   * whether or not the pages up to it have tables.
   */
  lemma {:induction false} NoTableAfterNextPage(r: YRange, layouts: map<int, LayoutEntry>, page: int)
    requires HasNext(r) && page <= r.nextPage.value
    ensures forall rec :: rec in Collect(r, layouts, page) ==> page <= rec.page <= r.nextPage.value
    decreases r.startPage + r.maxPages - page
  {
    if InRange(r, page) {
      if page < r.nextPage.value {
        NoTableAfterNextPage(r, layouts, page + 1);
      }
      if !Skipped(layouts, page) {
        ScanYRecords(r, page, layouts[page - 1].tables);
      }
    }
  }

  /**
   * Every collected table comes from a page with a layout entry that has
   * tables, inside the page budget, and on the next section's page lies
   * above the next heading.
   */
  lemma {:induction false} CollectedFromTablePages(r: YRange, layouts: map<int, LayoutEntry>, page: int)
    ensures forall rec :: rec in Collect(r, layouts, page) ==>
              page <= rec.page && InRange(r, rec.page) && !Skipped(layouts, rec.page)
              && exists t :: t in layouts[rec.page - 1].tables && rec == TableRecordOf(t, rec.page) && !EndsAt(r, rec.page, t)
    decreases r.startPage + r.maxPages - page
  {
    if InRange(r, page) {
      CollectedFromTablePages(r, layouts, page + 1);
      if !Skipped(layouts, page) {
        ScanYRecords(r, page, layouts[page - 1].tables);
      }
    }
  }

  /** At most `max_pages` pages are examined: every collected table lies within the budget. */
  lemma CollectedWithinBudget(r: YRange, layouts: map<int, LayoutEntry>)
    ensures forall rec :: rec in Collect(r, layouts, r.startPage) ==>
              r.startPage <= rec.page < r.startPage + r.maxPages && rec.page <= r.docPages
  {
    CollectedFromTablePages(r, layouts, r.startPage);
  }

  /** Both cursors agree up to the page before the next section's page. */
  lemma {:induction false} AgreeBeforeNextPage(r: YRange, layouts: map<int, LayoutEntry>, page: int)
    requires HasNext(r) && r.nextPage.value - 1 in layouts && layouts[r.nextPage.value - 1].hasTable
    requires page <= r.nextPage.value
    requires forall t :: t in layouts[r.nextPage.value - 1].tables ==> EndsAt(r, r.nextPage.value, t)
    ensures CollectAsWritten(r, layouts, page) == Collect(r, layouts, page)
    decreases r.startPage + r.maxPages - page
  {
    if InRange(r, page) && page < r.nextPage.value {
      AgreeBeforeNextPage(r, layouts, page + 1);
    } else if InRange(r, page) {
      var ts := layouts[page - 1].tables;
      if ts != [] {
        assert EndsAt(r, page, ts[0]);
      }
    }
  }

  // ---------------------------------------------------------------------------
  // The drop at the next heading, and completeness before it
  // ---------------------------------------------------------------------------

  /**
   * When `ts[i]` is the first table at or below the next heading, the page
   * gives the tables before it and stops: `ts[i]` and every later table of
   * the page are left out.
   */
  lemma {:induction false} ScanYDrops(r: YRange, page: int, ts: seq<TableInfo>, i: nat)
    requires i < |ts| && EndsAt(r, page, ts[i])
    requires forall k :: 0 <= k < i ==> !EndsAt(r, page, ts[k])
    ensures ScanY(r, page, ts) == PageScan(AllRecords(ts[..i], page), true)
  {
    if i > 0 {
      assert !EndsAt(r, page, ts[0]);
      ScanYDrops(r, page, ts[1..], i - 1);
      assert ts[..i][1..] == ts[1..][..i - 1];
    }
  }

  /**
   * On a scanned page, the first table at or below the next heading ends
   * both cursors: from that page on they collect exactly the tables before it.
   */
  lemma TablesDroppedAtHeading(r: YRange, layouts: map<int, LayoutEntry>, page: int, ts: seq<TableInfo>, i: nat)
    requires InRange(r, page) && !Skipped(layouts, page) && ts == layouts[page - 1].tables
    requires i < |ts| && EndsAt(r, page, ts[i])
    requires forall k :: 0 <= k < i ==> !EndsAt(r, page, ts[k])
    ensures Collect(r, layouts, page) == AllRecords(ts[..i], page)
    ensures CollectAsWritten(r, layouts, page) == AllRecords(ts[..i], page)
  {
    ScanYDrops(r, page, ts, i);
  }

  /** A page before the next section's page, where no table can end the collection. */
  predicate BeforeNextY(r: YRange, page: int)
  {
    r.nextPage.None? || page < r.nextPage.value
  }

  /** Every table of a page, or none when the page is skipped. */
  function PageAll(layouts: map<int, LayoutEntry>, page: int): seq<TableRecord>
  {
    if Skipped(layouts, page) then [] else AllRecords(layouts[page - 1].tables, page)
  }

  /** Every table of the scanned pages in `[page, stop)`, page after page. */
  function PagesAll(layouts: map<int, LayoutEntry>, page: int, stop: int): seq<TableRecord>
    decreases stop - page
  {
    if page >= stop then [] else PageAll(layouts, page) + PagesAll(layouts, page + 1, stop)
  }

  /** Before the next section's page, both cursors take the whole page and go on. */
  lemma PageBeforeNext(r: YRange, layouts: map<int, LayoutEntry>, page: int)
    requires InRange(r, page) && BeforeNextY(r, page)
    ensures Collect(r, layouts, page) == PageAll(layouts, page) + Collect(r, layouts, page + 1)
    ensures CollectAsWritten(r, layouts, page) == PageAll(layouts, page) + CollectAsWritten(r, layouts, page + 1)
  {
    if !Skipped(layouts, page) {
      ScanYAll(r, page, layouts[page - 1].tables);
    }
  }

  /**
   * Completeness before the next section's page: over pages in the budget
   * before it, both cursors take every table of every scanned page, in page
   * order, and go on.
   */
  lemma {:induction false} CollectThroughPages(r: YRange, layouts: map<int, LayoutEntry>, page: int, stop: int)
    requires page <= stop
    requires page < stop ==> InRange(r, stop - 1) && BeforeNextY(r, stop - 1)
    ensures Collect(r, layouts, page) == PagesAll(layouts, page, stop) + Collect(r, layouts, stop)
    decreases stop - page
  {
    if page < stop {
      CollectThroughPages(r, layouts, page + 1, stop);
      PageBeforeNext(r, layouts, page);
      Seqs.Assoc(PageAll(layouts, page), PagesAll(layouts, page + 1, stop), Collect(r, layouts, stop));
    }
  }

  /** The same completeness for the cursor as written. */
  lemma {:induction false} CollectAsWrittenThroughPages(r: YRange, layouts: map<int, LayoutEntry>, page: int, stop: int)
    requires page <= stop
    requires page < stop ==> InRange(r, stop - 1) && BeforeNextY(r, stop - 1)
    ensures CollectAsWritten(r, layouts, page) == PagesAll(layouts, page, stop) + CollectAsWritten(r, layouts, stop)
    decreases stop - page
  {
    if page < stop {
      CollectAsWrittenThroughPages(r, layouts, page + 1, stop);
      PageBeforeNext(r, layouts, page);
      Seqs.Assoc(PageAll(layouts, page), PagesAll(layouts, page + 1, stop), CollectAsWritten(r, layouts, stop));
    }
  }

  lemma {:induction false} AllRecordsMember(ts: seq<TableInfo>, page: int, t: TableInfo)
    requires t in ts
    ensures TableRecordOf(t, page) in AllRecords(ts, page)
  {
    if ts[0] != t {
      AllRecordsMember(ts[1..], page, t);
    }
  }

  lemma {:induction false} PagesAllMember(layouts: map<int, LayoutEntry>, page: int, stop: int, q: int, rec: TableRecord)
    requires page <= q < stop && rec in PageAll(layouts, q)
    ensures rec in PagesAll(layouts, page, stop)
    decreases stop - page
  {
    if page < q {
      PagesAllMember(layouts, page + 1, stop, q, rec);
    }
  }

  /** Every table of a scanned page in the budget before the next section's page is collected by both cursors. */
  lemma TableCollectedBefore(r: YRange, layouts: map<int, LayoutEntry>, p: int, t: TableInfo)
    requires r.startPage <= p && InRange(r, p) && BeforeNextY(r, p) && !Skipped(layouts, p)
    requires t in layouts[p - 1].tables
    ensures TableRecordOf(t, p) in Collect(r, layouts, r.startPage)
    ensures TableRecordOf(t, p) in CollectAsWritten(r, layouts, r.startPage)
  {
    var rec := TableRecordOf(t, p);
    AllRecordsMember(layouts[p - 1].tables, p, t);
    PagesAllMember(layouts, r.startPage, p + 1, p, rec);
    CollectThroughPages(r, layouts, r.startPage, p + 1);
    AppendHas(PagesAll(layouts, r.startPage, p + 1), Collect(r, layouts, p + 1), rec);
    CollectAsWrittenThroughPages(r, layouts, r.startPage, p + 1);
    AppendHas(PagesAll(layouts, r.startPage, p + 1), CollectAsWritten(r, layouts, p + 1), rec);
  }

  lemma AppendHas(a: seq<TableRecord>, b: seq<TableRecord>, x: TableRecord)
    requires x in a
    ensures x in a + b
  {
  }

  /** A table before the first one at or below the heading is among the page's records. */
  lemma {:induction false} ScanYHas(r: YRange, page: int, ts: seq<TableInfo>, j: nat)
    requires j < |ts| && forall k :: 0 <= k <= j ==> !EndsAt(r, page, ts[k])
    ensures TableRecordOf(ts[j], page) in ScanY(r, page, ts).records
  {
    assert !EndsAt(r, page, ts[0]);
    if j > 0 {
      ScanYHas(r, page, ts[1..], j - 1);
    }
  }

  /** Both cursors take every record of the next section's page they scan. */
  lemma NextPageRecords(r: YRange, layouts: map<int, LayoutEntry>, p: int)
    requires HasNext(r) && p == r.nextPage.value && InRange(r, p) && !Skipped(layouts, p)
    ensures Collect(r, layouts, p) == ScanY(r, p, layouts[p - 1].tables).records
    ensures ScanY(r, p, layouts[p - 1].tables).records <= CollectAsWritten(r, layouts, p)
  {
  }

  /**
   * On the next section's page, every table before the first one at or
   * below the heading is collected by both cursors.
   */
  lemma TableCollectedOnNextPage(r: YRange, layouts: map<int, LayoutEntry>, p: int, ts: seq<TableInfo>, j: nat)
    requires HasNext(r) && p == r.nextPage.value && r.startPage <= p && InRange(r, p)
    requires !Skipped(layouts, p) && ts == layouts[p - 1].tables
    requires j < |ts| && forall k :: 0 <= k <= j ==> !EndsAt(r, p, ts[k])
    ensures TableRecordOf(ts[j], p) in Collect(r, layouts, r.startPage)
    ensures TableRecordOf(ts[j], p) in CollectAsWritten(r, layouts, r.startPage)
  {
    CollectThroughPages(r, layouts, r.startPage, p);
    CollectAsWrittenThroughPages(r, layouts, r.startPage, p);
    NextPageRecords(r, layouts, p);
    ScanYHas(r, p, ts, j);
    PrefixHas(ScanY(r, p, ts).records, CollectAsWritten(r, layouts, p), TableRecordOf(ts[j], p));
  }

  lemma PrefixHas(a: seq<TableRecord>, b: seq<TableRecord>, x: TableRecord)
    requires a <= b && x in a
    ensures x in b
  {
    var i :| 0 <= i < |a| && a[i] == x;
    assert b[i] == x;
  }

  // ---------------------------------------------------------------------------
  // The as-written cursor's end rules
  // ---------------------------------------------------------------------------

  /**
   * As written, a page that is skipped (no layout entry or no tables) makes
   * no end test, so the cursor goes on even past the next section's page;
   * the corrected cursor stops there.
   */
  lemma SkippedPageNoEndTest(r: YRange, layouts: map<int, LayoutEntry>, p: int)
    requires InRange(r, p) && Skipped(layouts, p)
    ensures CollectAsWritten(r, layouts, p) == CollectAsWritten(r, layouts, p + 1)
    ensures AtOrPastNext(r, p) ==> Collect(r, layouts, p) == []
  {
  }

  /** As written, a scanned page past the next section's page is the last one collected from. */
  lemma ScannedPastNextLast(r: YRange, layouts: map<int, LayoutEntry>, p: int)
    requires InRange(r, p) && !Skipped(layouts, p) && HasNext(r) && p > r.nextPage.value
    ensures CollectAsWritten(r, layouts, p) == ScanY(r, p, layouts[p - 1].tables).records
  {
  }

  /**
   * As written, at most one page past the next section's page contributes:
   * every collected table from beyond that page comes from the same page.
   */
  lemma {:induction false} AtMostOnePageLate(r: YRange, layouts: map<int, LayoutEntry>, page: int)
    requires HasNext(r)
    ensures forall a, b :: (a in CollectAsWritten(r, layouts, page) && b in CollectAsWritten(r, layouts, page)
                            && a.page > r.nextPage.value && b.page > r.nextPage.value) ==> a.page == b.page
    decreases r.startPage + r.maxPages - page
  {
    if InRange(r, page) {
      AtMostOnePageLate(r, layouts, page + 1);
      if !Skipped(layouts, page) {
        ScanYRecords(r, page, layouts[page - 1].tables);
      }
    }
  }

  /**
   * The fix only cuts the collection short: the corrected cursor's tables
   * open the as-written cursor's, which may go on past the next section's
   * page (a next section on page 0 is left aside, where the as-written end
   * test on that page fires without one on the pages after it).
   */
  lemma {:induction false} CorrectedIsPrefix(r: YRange, layouts: map<int, LayoutEntry>, page: int)
    requires r.nextPage.None? || HasNext(r)
    ensures Collect(r, layouts, page) <= CollectAsWritten(r, layouts, page)
    decreases r.startPage + r.maxPages - page
  {
    if InRange(r, page) {
      CorrectedIsPrefix(r, layouts, page + 1);
      if !Skipped(layouts, page) {
        var recs := ScanY(r, page, layouts[page - 1].tables).records;
        PrefixAfter(recs, Collect(r, layouts, page + 1), CollectAsWritten(r, layouts, page + 1));
      }
    }
  }

  lemma PrefixAfter(x: seq<TableRecord>, a: seq<TableRecord>, b: seq<TableRecord>)
    requires a <= b
    ensures x <= x + a && x + a <= x + b
  {
  }
}
