/**
 * The section extractor of `step2_section_extractor.py`: section ids from
 * titles, end pages, the text between one section heading and the next,
 * the page/y cursor that collects a section's tables, its figures, and the
 * names of the files it writes. The page texts, the layout JSON and the
 * y position of a section heading on a page are inputs.
 */
module SectionExtractor {
  import opened Wrappers
  import opened Strings
  import opened PageLayouts
  import opened SectionRecords
  import Seqs

  // ---------------------------------------------------------------------------
  // extract_section_id: `^([\d.]+)\s+`
  // ---------------------------------------------------------------------------

  predicate IsIdChar(c: char)
  {
    IsDigit(c) || c == '.'
  }

  /** The length of the leading run of digits and dots. */
  function IdRunLength(s: string): (n: nat)
    ensures n <= |s|
    ensures forall i :: 0 <= i < n ==> IsIdChar(s[i])
    ensures n < |s| ==> !IsIdChar(s[n])
  {
    if s == [] || !IsIdChar(s[0]) then 0 else 1 + IdRunLength(s[1..])
  }

  /** The leading run of digits and dots when whitespace follows it, else "". */
  function ExtractSectionId(title: string): (id: string)
    ensures id != "" ==>
              |id| < |title| && title[..|id|] == id && IsSpace(title[|id|])
              && forall i :: 0 <= i < |id| ==> IsIdChar(id[i])
  {
    var n := IdRunLength(title);
    if 0 < n < |title| && IsSpace(title[n]) then title[..n] else ""
  }

  /** Any non-empty run of digits and dots followed by whitespace is the id. */
  lemma ExtractSectionIdMatch(title: string, k: int)
    requires 0 < k < |title| && IsSpace(title[k])
    requires forall i :: 0 <= i < k ==> IsIdChar(title[i])
    ensures ExtractSectionId(title) == title[..k]
  {
  }

  /** A title that opens with a space, a letter or a run not followed by whitespace has no id. */
  lemma NoIdWithoutSpace(title: string)
    requires forall k :: 0 < k < |title| && IsSpace(title[k]) ==> exists i :: 0 <= i < k && !IsIdChar(title[i])
    ensures ExtractSectionId(title) == ""
  {
  }

  // ---------------------------------------------------------------------------
  // Section table of contents and end pages
  // ---------------------------------------------------------------------------

  /** A `sections_info` entry: TOC index, level, title, start page and end page. */
  datatype SectionInfo = SectionInfo(index: int, level: int, title: string, startPage: int, endPage: int)

  function MaxInt(a: int, b: int): int
  {
    if a >= b then a else b
  }

  /**
   * The end page of section i: the page before the next section starts,
   * but never before its own start; the last section ends at the last page.
   */
  function EndPageOf(infos: seq<SectionInfo>, i: int, docPages: int): int
    requires 0 <= i < |infos|
  {
    if i < |infos| - 1 then MaxInt(infos[i].startPage, infos[i + 1].startPage - 1) else docPages
  }

  /** The end-page loop of `extract_all_sections`, in place on the section list. */
  method ComputeEndPages(infos: array<SectionInfo>, docPages: int)
    modifies infos
    ensures forall i :: 0 <= i < infos.Length ==>
              infos[i] == old(infos[i]).(endPage := EndPageOf(old(infos[..]), i, docPages))
  {
    ghost var original := infos[..];
    for i := 0 to infos.Length
      invariant forall k :: 0 <= k < i ==> infos[k] == original[k].(endPage := EndPageOf(original, k, docPages))
      invariant forall k :: i <= k < infos.Length ==> infos[k] == original[k]
    {
      if i < infos.Length - 1 {
        var nextStart := infos[i + 1].startPage;
        infos[i] := infos[i].(endPage := MaxInt(infos[i].startPage, nextStart - 1));
      } else {
        infos[i] := infos[i].(endPage := docPages);
      }
    }
  }

  /**
   * Every section but the last spans at least one page, and when the next
   * section starts on a later page this one ends on the page before it.
   */
  lemma EndPageBounds(infos: seq<SectionInfo>, i: int, docPages: int)
    requires 0 <= i < |infos| - 1
    ensures EndPageOf(infos, i, docPages) - infos[i].startPage + 1 >= 1
    ensures EndPageOf(infos, i, docPages) <= MaxInt(infos[i].startPage, infos[i + 1].startPage - 1)
    ensures infos[i].startPage < infos[i + 1].startPage ==>
              EndPageOf(infos, i, docPages) == infos[i + 1].startPage - 1
  {
  }

  /** Sections whose starts increase strictly tile the pages without overlap. */
  lemma SectionsDoNotOverlap(infos: seq<SectionInfo>, docPages: int)
    requires forall i :: 0 <= i < |infos| - 1 ==> infos[i].startPage < infos[i + 1].startPage
    ensures forall i :: 0 <= i < |infos| - 1 ==>
              infos[i].startPage <= EndPageOf(infos, i, docPages) < infos[i + 1].startPage
  {
  }

  // ---------------------------------------------------------------------------
  // find_text_between_sections
  // ---------------------------------------------------------------------------

  /** The `found_start` flag together with the lines collected so far. */
  datatype ScanState = Searching | Collecting(lines: seq<string>)

  function StateOf(foundStart: bool, collected: seq<string>): ScanState
  {
    if foundStart then Collecting(collected) else Searching
  }

  /** A line containing the next id ends the collection (only once it has started). */
  predicate Stops(st: ScanState, line: string, nextId: string)
  {
    st.Collecting? && nextId != "" && Contains(line, nextId)
  }

  /** Searching: a line containing the current id starts the collection; collecting: keep the line. */
  function Advance(st: ScanState, line: string, currentId: string): ScanState
  {
    match st
    case Searching => if currentId != "" && Contains(line, currentId) then Collecting([line]) else Searching
    case Collecting(acc) => Collecting(acc + [line])
  }

  /**
   * The line scan: skip lines until one contains the current id (kept),
   * then keep lines until one contains a non-empty next id (dropped, and
   * the scan ends there).
   */
  function Scan(st: ScanState, lines: seq<string>, currentId: string, nextId: string): seq<string>
    decreases |lines|
  {
    if lines == [] then (if st.Collecting? then st.lines else [])
    else if Stops(st, lines[0], nextId) then st.lines
    else Scan(Advance(st, lines[0], currentId), lines[1..], currentId, nextId)
  }

  function PageLines(pagesText: map<int, string>, page: int): seq<string>
  {
    if page in pagesText then Split(pagesText[page], '\n') else []
  }

  /** The lines of pages `first`..`last` in order; pages without text contribute nothing. */
  function LineStream(pagesText: map<int, string>, first: int, last: int): seq<string>
    decreases last - first + 1
  {
    if first > last then [] else PageLines(pagesText, first) + LineStream(pagesText, first + 1, last)
  }

  function NextId(next: Option<SectionInfo>): string
  {
    if next.Some? then ExtractSectionId(next.value.title) else ""
  }

  function TextEndPage(next: Option<SectionInfo>, docPages: int): int
  {
    if next.Some? then next.value.startPage else docPages
  }

  /** The lines `find_text_between_sections` collects. */
  function SectionLines(current: SectionInfo, next: Option<SectionInfo>, docPages: int, pagesText: map<int, string>): seq<string>
  {
    Scan(Searching, LineStream(pagesText, current.startPage, TextEndPage(next, docPages)),
         ExtractSectionId(current.title), NextId(next))
  }

  /** The page loop of `find_text_between_sections`: pages `first`..`last`, skipping pages without text. */
  method CollectLines(pagesText: map<int, string>, first: int, last: int, currentId: string, nextId: string)
    returns (collected: seq<string>)
    ensures collected == Scan(Searching, LineStream(pagesText, first, last), currentId, nextId)
  {
    ghost var goal := Scan(Searching, LineStream(pagesText, first, last), currentId, nextId);
    collected := [];
    var foundStart := false;
    var pageNum := first;
    while pageNum <= last
      invariant !foundStart ==> collected == []
      invariant Scan(StateOf(foundStart, collected), LineStream(pagesText, pageNum, last), currentId, nextId) == goal
      decreases last - pageNum
    {
      LineStreamStep(pagesText, pageNum, last);
      if pageNum in pagesText {
        var stopped;
        foundStart, collected, stopped :=
          ScanPageLines(Split(pagesText[pageNum], '\n'), LineStream(pagesText, pageNum + 1, last),
                        foundStart, collected, currentId, nextId);
        if stopped {
          return;
        }
      }
      pageNum := pageNum + 1;
    }
    assert LineStream(pagesText, pageNum, last) == [];
  }

  /** `find_text_between_sections`: the ids and the last page, then the flag-driven scan over the section's pages. */
  method FindTextBetweenSections(current: SectionInfo, next: Option<SectionInfo>, docPages: int, pagesText: map<int, string>)
    returns (text: string)
    ensures text == Join(SectionLines(current, next, docPages, pagesText), "\n")
  {
    var currentId := ExtractSectionId(current.title);
    var nextId := "";
    var endPage := docPages;
    if next.Some? {
      nextId := ExtractSectionId(next.value.title);
      endPage := next.value.startPage;
    }
    var collected := CollectLines(pagesText, current.startPage, endPage, currentId, nextId);
    text := Join(collected, "\n");
  }


  lemma LineStreamStep(pagesText: map<int, string>, first: int, last: int)
    requires first <= last
    ensures LineStream(pagesText, first, last)
         == if first in pagesText then Split(pagesText[first], '\n') + LineStream(pagesText, first + 1, last)
            else LineStream(pagesText, first + 1, last)
  {
    assert [] + LineStream(pagesText, first + 1, last) == LineStream(pagesText, first + 1, last);
  }

  /**
   * The inner loop of `find_text_between_sections` over one page's lines;
   * `stopped` is its early return on the line holding the next id, and
   * `later` the lines of the pages after this one.
   */
  method ScanPageLines(lines: seq<string>, ghost later: seq<string>, foundStart: bool, collected: seq<string>,
                       currentId: string, nextId: string)
    returns (found': bool, collected': seq<string>, stopped: bool)
    requires !foundStart ==> collected == []
    ensures !found' ==> collected' == []
    ensures stopped ==>
              collected' == Scan(StateOf(foundStart, collected), lines + later, currentId, nextId)
    ensures !stopped ==>
              Scan(StateOf(found', collected'), later, currentId, nextId)
              == Scan(StateOf(foundStart, collected), lines + later, currentId, nextId)
  {
    found', collected', stopped := foundStart, collected, false;
    ghost var goal := Scan(StateOf(foundStart, collected), lines + later, currentId, nextId);
    assert lines[0..] == lines;
    var j := 0;
    while j < |lines|
      invariant 0 <= j <= |lines|
      invariant !found' ==> collected' == []
      invariant Scan(StateOf(found', collected'), lines[j..] + later, currentId, nextId) == goal
    {
      var line := lines[j];
      ghost var st := StateOf(found', collected');
      Seqs.DropAppend(lines, j, later);
      ScanStep(st, lines[j..] + later, currentId, nextId);
      if !found' {
        if currentId != "" && Contains(line, currentId) {
          found' := true;
          collected' := collected' + [line];
        }
        assert StateOf(found', collected') == Advance(st, line, currentId);
        j := j + 1;
        continue;
      }
      if nextId != "" && Contains(line, nextId) {
        stopped := true;
        return;
      }
      collected' := collected' + [line];
      assert StateOf(found', collected') == Advance(st, line, currentId);
      j := j + 1;
    }
    assert lines[|lines|..] + later == later;
  }

  lemma ScanStep(st: ScanState, stream: seq<string>, currentId: string, nextId: string)
    requires stream != []
    ensures Scan(st, stream, currentId, nextId)
         == if Stops(st, stream[0], nextId) then st.lines
            else Scan(Advance(st, stream[0], currentId), stream[1..], currentId, nextId)
  {
  }

  /** With no section id in the title, nothing is collected. */
  lemma {:induction false} NoIdNoText(lines: seq<string>, nextId: string)
    ensures Scan(Searching, lines, "", nextId) == []
  {
    if lines != [] {
      NoIdNoText(lines[1..], nextId);
    }
  }

  /** Lines found before the scan ends: no line strictly inside contains the next id. */
  predicate OpenRun(lines: seq<string>, k: int, nextId: string)
    requires 0 <= k <= |lines|
  {
    (forall m :: 0 <= m < k ==> !(nextId != "" && Contains(lines[m], nextId)))
    && (k == |lines| || (nextId != "" && Contains(lines[k], nextId)))
  }

  lemma {:induction false} CollectingRun(acc: seq<string>, lines: seq<string>, currentId: string, nextId: string)
    ensures exists k :: 0 <= k <= |lines| && OpenRun(lines, k, nextId)
              && Scan(Collecting(acc), lines, currentId, nextId) == acc + lines[..k]
    decreases |lines|
  {
    if lines == [] {
      assert OpenRun(lines, 0, nextId) && acc + lines[..0] == acc;
    } else if nextId != "" && Contains(lines[0], nextId) {
      assert OpenRun(lines, 0, nextId) && acc + lines[..0] == acc;
    } else {
      CollectingRun(acc + [lines[0]], lines[1..], currentId, nextId);
      var k :| 0 <= k <= |lines[1..]| && OpenRun(lines[1..], k, nextId)
               && Scan(Collecting(acc + [lines[0]]), lines[1..], currentId, nextId) == acc + [lines[0]] + lines[1..][..k];
      assert lines[..k + 1] == [lines[0]] + lines[1..][..k];
      assert acc + [lines[0]] + lines[1..][..k] == acc + lines[..k + 1];
      forall m | 0 <= m < k + 1
        ensures !(nextId != "" && Contains(lines[m], nextId))
      {
        if m > 0 {
          assert lines[m] == lines[1..][m - 1];
        }
      }
      assert k + 1 == |lines| || lines[k + 1] == lines[1..][k];
      assert OpenRun(lines, k + 1, nextId);
    }
  }

  /** The collected lines are the run from line i (the first containing the current id) up to j. */
  predicate SectionRun(lines: seq<string>, currentId: string, nextId: string, i: int, j: int)
    requires 0 <= i < j <= |lines|
  {
    currentId != "" && Contains(lines[i], currentId)
    && (forall m :: 0 <= m < i ==> !Contains(lines[m], currentId))
    && OpenRun(lines[i + 1..], j - i - 1, nextId)
  }

  /** The scan collects nothing exactly when the current id is empty or no line contains it. */
  lemma {:induction false} ScanEmptyIff(lines: seq<string>, currentId: string, nextId: string)
    ensures Scan(Searching, lines, currentId, nextId) == [] <==>
              currentId == "" || forall m :: 0 <= m < |lines| ==> !Contains(lines[m], currentId)
  {
    if lines == [] {
    } else if currentId != "" && Contains(lines[0], currentId) {
      CollectingRun([lines[0]], lines[1..], currentId, nextId);
    } else {
      ScanEmptyIff(lines[1..], currentId, nextId);
      if currentId != "" && Scan(Searching, lines, currentId, nextId) == [] {
        forall m | 0 <= m < |lines|
          ensures !Contains(lines[m], currentId)
        {
          if m > 0 {
            assert lines[m] == lines[1..][m - 1];
          }
        }
      }
    }
  }

  /** A run found after a first line without the current id is the run one line later. */
  lemma RunShift(lines: seq<string>, currentId: string, nextId: string, i: int, j: int)
    requires 0 <= i < j <= |lines| - 1
    requires !(currentId != "" && Contains(lines[0], currentId))
    requires SectionRun(lines[1..], currentId, nextId, i, j)
    ensures SectionRun(lines, currentId, nextId, i + 1, j + 1)
    ensures lines[1..][i..j] == lines[i + 1..j + 1]
  {
    assert lines[1..][i + 1..] == lines[i + 2..];
    assert lines[1..][i..j] == lines[i + 1..j + 1];
    assert lines[i + 1] == lines[1..][i];
    forall m | 0 <= m < i + 1
      ensures !Contains(lines[m], currentId)
    {
      if m > 0 {
        assert lines[m] == lines[1..][m - 1];
      }
    }
  }

  /**
   * What the scan collects when it collects anything: the contiguous run of
   * lines that starts at the first line containing the current id and stops
   * before the next line containing the next id.
   */
  lemma {:induction false} ScanIsRun(lines: seq<string>, currentId: string, nextId: string)
    ensures Scan(Searching, lines, currentId, nextId) != [] ==>
              exists i, j :: 0 <= i < j <= |lines| && SectionRun(lines, currentId, nextId, i, j)
                && Scan(Searching, lines, currentId, nextId) == lines[i..j]
  {
    if lines == [] {
    } else if currentId != "" && Contains(lines[0], currentId) {
      CollectingRun([lines[0]], lines[1..], currentId, nextId);
      var k :| 0 <= k <= |lines[1..]| && OpenRun(lines[1..], k, nextId)
               && Scan(Collecting([lines[0]]), lines[1..], currentId, nextId) == [lines[0]] + lines[1..][..k];
      assert [lines[0]] + lines[1..][..k] == lines[0..k + 1];
      assert lines[0 + 1..] == lines[1..];
      assert SectionRun(lines, currentId, nextId, 0, k + 1);
      assert Scan(Searching, lines, currentId, nextId) == lines[0..k + 1];
    } else {
      ScanIsRun(lines[1..], currentId, nextId);
      var r := Scan(Searching, lines, currentId, nextId);
      if r != [] {
        var i, j :| 0 <= i < j <= |lines[1..]| && SectionRun(lines[1..], currentId, nextId, i, j)
                    && r == lines[1..][i..j];
        RunShift(lines, currentId, nextId, i, j);
        assert 0 <= i + 1 < j + 1 <= |lines| && r == lines[i + 1..j + 1];
      }
    }
  }

  // ---------------------------------------------------------------------------
  // get_tables_in_section
  // ---------------------------------------------------------------------------

  /** A figure entry of the layout JSON; `figure_id` may be missing. */
  datatype FigureEntry = FigureEntry(figureId: Option<string>, title: Option<string>, bbox: BBox)

  /** One page of the layout JSON as the extractor reads it. */
  datatype LayoutEntry = LayoutEntry(hasTable: bool, tables: seq<TableInfo>, hasFigure: bool, figures: seq<FigureEntry>)

  /**
   * The cursor's parameters: the section's start page and heading y, the
   * next section's start page and heading y, the page budget and the page
   * count of the document.
   */
  datatype Window = Window(
    startPage: int,
    startY: Option<real>,
    nextPage: Option<int>,
    nextY: Option<real>,
    maxPages: int,
    docPages: int)

  /** Python truthiness of `next_section_page`: present and not 0. */
  predicate HasNextPage(w: Window)
  {
    w.nextPage.Some? && w.nextPage.value != 0
  }

  /** A table above the section heading on the start page belongs to the previous section. */
  predicate AboveStart(w: Window, page: int, t: TableInfo)
  {
    page == w.startPage && w.startY.Some? && t.bbox.y0 < w.startY.value
  }

  /** A table at or below the next heading on the next section's page ends the collection. */
  predicate EndsSection(w: Window, page: int, t: TableInfo)
  {
    HasNextPage(w) && page == w.nextPage.value && w.nextY.Some? && t.bbox.y0 >= w.nextY.value
  }

  function TableRecordOf(t: TableInfo, page: int): TableRecord
  {
    TableRecord(
      "Table_" + IntToString(page) + "_" + IntToString(t.tableId),
      t.title, page, t.bbox,
      "table_" + Pad3(page) + "_" + IntToString(t.tableId) + ".png",
      None, None)
  }

  /** The records one page contributes, and whether a table ended the section there. */
  datatype PageScan = PageScan(records: seq<TableRecord>, stopped: bool)

  function ScanPage(w: Window, page: int, ts: seq<TableInfo>): PageScan
  {
    if ts == [] then PageScan([], false)
    else if AboveStart(w, page, ts[0]) then ScanPage(w, page, ts[1..])
    else if EndsSection(w, page, ts[0]) then PageScan([], true)
    else
      var rest := ScanPage(w, page, ts[1..]);
      PageScan([TableRecordOf(ts[0], page)] + rest.records, rest.stopped)
  }

  predicate InBudget(w: Window, page: int)
  {
    page <= w.docPages && page - w.startPage < w.maxPages
  }

  /** The tables collected from `page` on. */
  function Collect(w: Window, layouts: map<int, LayoutEntry>, page: int): seq<TableRecord>
    decreases w.startPage + w.maxPages - page
  {
    if !InBudget(w, page) then []
    else if page - 1 !in layouts then Collect(w, layouts, page + 1)
    else
      var s := ScanPage(w, page, layouts[page - 1].tables);
      if s.stopped then s.records
      else if HasNextPage(w) && page >= w.nextPage.value then s.records
      else s.records + Collect(w, layouts, page + 1)
  }

  /**
   * `get_tables_in_section`: a page cursor from the start page that skips
   * pages without a layout entry and stops at the next section.
   */
  method GetTablesInSection(w: Window, layouts: map<int, LayoutEntry>) returns (tables: seq<TableRecord>)
    ensures tables == Collect(w, layouts, w.startPage)
  {
    tables := [];
    var currentPage := w.startPage;
    while InBudget(w, currentPage)
      invariant tables + Collect(w, layouts, currentPage) == Collect(w, layouts, w.startPage)
      decreases w.startPage + w.maxPages - currentPage
    {
      if currentPage - 1 !in layouts {
        currentPage := currentPage + 1;
        continue;
      }
      ghost var before := tables;
      var stopped;
      tables, stopped := ScanPageTables(tables, w, currentPage, layouts[currentPage - 1].tables);
      CollectStep(w, layouts, currentPage);
      if stopped {
        return;
      }
      if w.nextPage.Some? && w.nextPage.value != 0 && currentPage == w.nextPage.value {
        return;
      }
      if w.nextPage.Some? && w.nextPage.value != 0 && currentPage > w.nextPage.value {
        return;
      }
      Seqs.Assoc(before, ScanPage(w, currentPage, layouts[currentPage - 1].tables).records, Collect(w, layouts, currentPage + 1));
      currentPage := currentPage + 1;
    }
  }

  /**
   * The inner loop of `get_tables_in_section` over one page's tables;
   * `stopped` is its early return on a table below the next heading.
   */
  method ScanPageTables(tables: seq<TableRecord>, w: Window, page: int, pageTables: seq<TableInfo>)
    returns (tables': seq<TableRecord>, stopped: bool)
    ensures tables' == tables + ScanPage(w, page, pageTables).records
    ensures stopped == ScanPage(w, page, pageTables).stopped
  {
    tables', stopped := tables, false;
    ghost var whole := ScanPage(w, page, pageTables);
    ghost var acc: seq<TableRecord> := [];
    assert pageTables[0..] == pageTables;
    for i := 0 to |pageTables|
      invariant tables' == tables + acc
      invariant acc + ScanPage(w, page, pageTables[i..]).records == whole.records
      invariant ScanPage(w, page, pageTables[i..]).stopped == whole.stopped
    {
      var table := pageTables[i];
      ghost var rest := ScanPage(w, page, pageTables[i + 1..]);
      ScanPageAt(w, page, pageTables, i);
      if page == w.startPage && w.startY.Some? {
        if table.bbox.y0 < w.startY.value {
          continue;
        }
      }
      if w.nextPage.Some? && w.nextPage.value != 0 && page == w.nextPage.value {
        if w.nextY.Some? {
          if table.bbox.y0 >= w.nextY.value {
            assert acc + [] == whole.records;
            stopped := true;
            return;
          }
        }
      }
      var record := TableRecordOf(table, page);
      assert ScanPage(w, page, pageTables[i..]) == PageScan([record] + rest.records, rest.stopped);
      Seqs.Assoc(acc, [record], rest.records);
      tables' := tables' + [record];
      acc := acc + [record];
    }
    assert pageTables[|pageTables|..] == [];
  }

  /** One step of the scan of a page's tables, at table `i`. */
  lemma ScanPageAt(w: Window, page: int, ts: seq<TableInfo>, i: nat)
    requires i < |ts|
    ensures ScanPage(w, page, ts[i..])
         == if AboveStart(w, page, ts[i]) then ScanPage(w, page, ts[i + 1..])
            else if EndsSection(w, page, ts[i]) then PageScan([], true)
            else PageScan([TableRecordOf(ts[i], page)] + ScanPage(w, page, ts[i + 1..]).records,
                          ScanPage(w, page, ts[i + 1..]).stopped)
  {
    ScanPageStep(w, page, ts[i..]);
    Seqs.DropCons(ts, i);
  }

  lemma ScanPageStep(w: Window, page: int, ts: seq<TableInfo>)
    requires ts != []
    ensures ScanPage(w, page, ts)
         == if AboveStart(w, page, ts[0]) then ScanPage(w, page, ts[1..])
            else if EndsSection(w, page, ts[0]) then PageScan([], true)
            else PageScan([TableRecordOf(ts[0], page)] + ScanPage(w, page, ts[1..]).records, ScanPage(w, page, ts[1..]).stopped)
  {
  }

  lemma CollectStep(w: Window, layouts: map<int, LayoutEntry>, page: int)
    requires InBudget(w, page) && page - 1 in layouts
    ensures Collect(w, layouts, page)
         == var s := ScanPage(w, page, layouts[page - 1].tables);
            if s.stopped || (HasNextPage(w) && page >= w.nextPage.value) then s.records
            else s.records + Collect(w, layouts, page + 1)
  {
  }

  /** Where a collected table can come from. */
  predicate Collectable(w: Window, layouts: map<int, LayoutEntry>, r: TableRecord)
  {
    w.startPage <= r.page && InBudget(w, r.page) && r.page - 1 in layouts
    && !(r.page == w.startPage && w.startY.Some? && r.bbox.y0 < w.startY.value)
    && !(HasNextPage(w) && r.page == w.nextPage.value && w.nextY.Some? && r.bbox.y0 >= w.nextY.value)
    && exists t :: t in layouts[r.page - 1].tables && r == TableRecordOf(t, r.page)
  }

  lemma {:induction false} ScanPageRecords(w: Window, page: int, ts: seq<TableInfo>)
    ensures forall r :: r in ScanPage(w, page, ts).records ==>
              exists t :: t in ts && r == TableRecordOf(t, page) && !AboveStart(w, page, t) && !EndsSection(w, page, t)
  {
    if ts != [] {
      ScanPageRecords(w, page, ts[1..]);
    }
  }

  /**
   * Every collected table comes from a page with a layout entry inside the
   * page budget, is not above the section heading on the start page, and is
   * above the next heading on the next section's page.
   */
  lemma {:induction false} CollectedTables(w: Window, layouts: map<int, LayoutEntry>, page: int)
    requires w.startPage <= page
    ensures forall r :: r in Collect(w, layouts, page) ==> page <= r.page && Collectable(w, layouts, r)
    decreases w.startPage + w.maxPages - page
  {
    if InBudget(w, page) {
      CollectedTables(w, layouts, page + 1);
      if page - 1 in layouts {
        ScanPageRecords(w, page, layouts[page - 1].tables);
        var s := ScanPage(w, page, layouts[page - 1].tables);
        forall r | r in s.records
          ensures page <= r.page && Collectable(w, layouts, r)
        {
          var t :| t in layouts[page - 1].tables && r == TableRecordOf(t, page)
                   && !AboveStart(w, page, t) && !EndsSection(w, page, t);
        }
      }
    }
  }

  /**
   * When the next section starts on a page with a layout entry at or after
   * the start page, no table from a later page is collected.
   */
  lemma {:induction false} StopsAtNextPage(w: Window, layouts: map<int, LayoutEntry>, page: int)
    requires HasNextPage(w) && page <= w.nextPage.value && w.nextPage.value - 1 in layouts
    ensures forall r :: r in Collect(w, layouts, page) ==> r.page <= w.nextPage.value
    decreases w.startPage + w.maxPages - page
  {
    if InBudget(w, page) {
      if page < w.nextPage.value {
        StopsAtNextPage(w, layouts, page + 1);
      }
      if page - 1 in layouts {
        ScanPageRecords(w, page, layouts[page - 1].tables);
      }
    }
  }

  // ---------------------------------------------------------------------------
  // What the table cursor collects, page by page
  // ---------------------------------------------------------------------------

  /** A table that ends the collection: not passed over as above the start heading, and at or below the next heading. */
  predicate EndsHere(w: Window, page: int, t: TableInfo)
  {
    !AboveStart(w, page, t) && EndsSection(w, page, t)
  }

  /** The records of a page's tables, leaving out those above the section heading on the start page. */
  function Kept(w: Window, page: int, ts: seq<TableInfo>): seq<TableRecord>
  {
    if ts == [] then []
    else (if AboveStart(w, page, ts[0]) then [] else [TableRecordOf(ts[0], page)]) + Kept(w, page, ts[1..])
  }

  /** Every table not above the start heading is kept. */
  lemma {:induction false} KeptMember(w: Window, page: int, ts: seq<TableInfo>, t: TableInfo)
    requires t in ts && !AboveStart(w, page, t)
    ensures TableRecordOf(t, page) in Kept(w, page, ts)
  {
    if ts[0] != t {
      KeptMember(w, page, ts[1..], t);
    }
  }

  /** A page with no table ending the collection gives its kept tables and does not stop. */
  lemma {:induction false} ScanPageKeepsAll(w: Window, page: int, ts: seq<TableInfo>)
    requires forall k :: 0 <= k < |ts| ==> !EndsHere(w, page, ts[k])
    ensures ScanPage(w, page, ts) == PageScan(Kept(w, page, ts), false)
  {
    if ts != [] {
      assert !EndsHere(w, page, ts[0]);
      ScanPageKeepsAll(w, page, ts[1..]);
    }
  }

  /**
   * The drop: when `ts[i]` is the first table that ends the collection,
   * the page gives the kept tables before it and stops, so `ts[i]` and
   * every later table of the page are left out.
   */
  lemma {:induction false} ScanPageDrops(w: Window, page: int, ts: seq<TableInfo>, i: nat)
    requires i < |ts| && EndsHere(w, page, ts[i])
    requires forall k :: 0 <= k < i ==> !EndsHere(w, page, ts[k])
    ensures ScanPage(w, page, ts) == PageScan(Kept(w, page, ts[..i]), true)
  {
    if i > 0 {
      assert !EndsHere(w, page, ts[0]);
      ScanPageDrops(w, page, ts[1..], i - 1);
      assert ts[..i][1..] == ts[1..][..i - 1];
    }
  }

  /** A kept table before the first table that ends the collection is among the page's records. */
  lemma {:induction false} ScanPageHas(w: Window, page: int, ts: seq<TableInfo>, j: nat)
    requires j < |ts| && !AboveStart(w, page, ts[j])
    requires forall k :: 0 <= k <= j ==> !EndsHere(w, page, ts[k])
    ensures TableRecordOf(ts[j], page) in ScanPage(w, page, ts).records
  {
    assert !EndsHere(w, page, ts[0]);
    if j > 0 {
      ScanPageHas(w, page, ts[1..], j - 1);
    }
  }

  /**
   * On a page in the budget with a layout entry, the first table at or
   * below the next heading ends the collection: the cursor's result from
   * that page is exactly the kept tables before it.
   */
  lemma DroppedAtNextHeading(w: Window, layouts: map<int, LayoutEntry>, page: int, ts: seq<TableInfo>, i: nat)
    requires InBudget(w, page) && page - 1 in layouts && ts == layouts[page - 1].tables
    requires i < |ts| && EndsHere(w, page, ts[i])
    requires forall k :: 0 <= k < i ==> !EndsHere(w, page, ts[k])
    ensures Collect(w, layouts, page) == Kept(w, page, ts[..i])
  {
    ScanPageDrops(w, page, ts, i);
    CollectStep(w, layouts, page);
  }

  /** A page without a layout entry makes no end test, even at or past the next section's page. */
  lemma NoEntryNoEndTest(w: Window, layouts: map<int, LayoutEntry>, page: int)
    requires InBudget(w, page) && page - 1 !in layouts
    ensures Collect(w, layouts, page) == Collect(w, layouts, page + 1)
  {
  }

  /** A page before the next section's page, where the end test cannot fire. */
  predicate BeforeNext(w: Window, page: int)
  {
    !HasNextPage(w) || page < w.nextPage.value
  }

  /** The kept tables of a page, or none when the page has no layout entry. */
  function PageKept(w: Window, layouts: map<int, LayoutEntry>, page: int): seq<TableRecord>
  {
    if page - 1 in layouts then Kept(w, page, layouts[page - 1].tables) else []
  }

  /** The kept tables of the pages in `[page, stop)` that have a layout entry, page after page. */
  function PagesKept(w: Window, layouts: map<int, LayoutEntry>, page: int, stop: int): seq<TableRecord>
    decreases stop - page
  {
    if page >= stop then [] else PageKept(w, layouts, page) + PagesKept(w, layouts, page + 1, stop)
  }

  /** Before the next section's page, the cursor takes the page's kept tables and goes on. */
  lemma PageBeforeNextPage(w: Window, layouts: map<int, LayoutEntry>, page: int)
    requires InBudget(w, page) && BeforeNext(w, page)
    ensures Collect(w, layouts, page) == PageKept(w, layouts, page) + Collect(w, layouts, page + 1)
  {
    if page - 1 in layouts {
      ScanPageKeepsAll(w, page, layouts[page - 1].tables);
      CollectStep(w, layouts, page);
    }
  }

  /**
   * Completeness before the next section's page: over pages in the budget
   * that come before it, the cursor collects the kept tables of every page
   * with a layout entry, in page order, and then goes on.
   */
  lemma {:induction false} CollectUpTo(w: Window, layouts: map<int, LayoutEntry>, page: int, stop: int)
    requires page <= stop
    requires page < stop ==> InBudget(w, stop - 1) && BeforeNext(w, stop - 1)
    ensures Collect(w, layouts, page) == PagesKept(w, layouts, page, stop) + Collect(w, layouts, stop)
    decreases stop - page
  {
    if page < stop {
      CollectUpTo(w, layouts, page + 1, stop);
      PageBeforeNextPage(w, layouts, page);
      Seqs.Assoc(PageKept(w, layouts, page), PagesKept(w, layouts, page + 1, stop), Collect(w, layouts, stop));
    }
  }

  lemma {:induction false} PagesKeptMember(w: Window, layouts: map<int, LayoutEntry>, page: int, stop: int, q: int, r: TableRecord)
    requires page <= q < stop && r in PageKept(w, layouts, q)
    ensures r in PagesKept(w, layouts, page, stop)
    decreases stop - page
  {
    if page < q {
      PagesKeptMember(w, layouts, page + 1, stop, q, r);
    }
  }

  /**
   * Every table of a page with a layout entry, in the budget and before the
   * next section's page, is collected unless it lies above the heading on
   * the start page.
   */
  lemma EligibleCollected(w: Window, layouts: map<int, LayoutEntry>, p: int, t: TableInfo)
    requires w.startPage <= p && InBudget(w, p) && BeforeNext(w, p) && p - 1 in layouts
    requires t in layouts[p - 1].tables && !AboveStart(w, p, t)
    ensures TableRecordOf(t, p) in Collect(w, layouts, w.startPage)
  {
    CollectUpTo(w, layouts, w.startPage, p + 1);
    KeptMember(w, p, layouts[p - 1].tables, t);
    PagesKeptMember(w, layouts, w.startPage, p + 1, p, TableRecordOf(t, p));
  }

  /**
   * On the next section's page, every table not above the start heading
   * that comes before the first table ending the collection is collected.
   */
  lemma EligibleOnNextPage(w: Window, layouts: map<int, LayoutEntry>, p: int, ts: seq<TableInfo>, j: nat)
    requires HasNextPage(w) && p == w.nextPage.value && w.startPage <= p && InBudget(w, p)
    requires p - 1 in layouts && ts == layouts[p - 1].tables
    requires j < |ts| && !AboveStart(w, p, ts[j])
    requires forall k :: 0 <= k <= j ==> !EndsHere(w, p, ts[k])
    ensures TableRecordOf(ts[j], p) in Collect(w, layouts, w.startPage)
  {
    CollectUpTo(w, layouts, w.startPage, p);
    NextPageKeepsPrefix(w, layouts, p, ts, j);
  }

  lemma NextPageKeepsPrefix(w: Window, layouts: map<int, LayoutEntry>, p: int, ts: seq<TableInfo>, j: nat)
    requires HasNextPage(w) && p == w.nextPage.value && InBudget(w, p)
    requires p - 1 in layouts && ts == layouts[p - 1].tables
    requires j < |ts| && !AboveStart(w, p, ts[j])
    requires forall k :: 0 <= k <= j ==> !EndsHere(w, p, ts[k])
    ensures TableRecordOf(ts[j], p) in Collect(w, layouts, p)
  {
    CollectAtNextPage(w, layouts, p);
    ScanPageHas(w, p, ts, j);
  }

  /** On the next section's page the cursor ends, whatever the page holds. */
  lemma CollectAtNextPage(w: Window, layouts: map<int, LayoutEntry>, p: int)
    requires HasNextPage(w) && p == w.nextPage.value && InBudget(w, p) && p - 1 in layouts
    ensures Collect(w, layouts, p) == ScanPage(w, p, layouts[p - 1].tables).records
  {
    CollectStep(w, layouts, p);
  }

  /** The page number can be read back from a table's image name (pages below 1000). */
  lemma ImagePathNamesPage(t: TableInfo, page: int)
    requires 0 <= page < 1000
    ensures TableRecordOf(t, page).imagePath[..6] == "table_"
    ensures TableRecordOf(t, page).imagePath[6..9] == Pad3(page)
    ensures IsDigitString(TableRecordOf(t, page).imagePath[6..9])
    ensures DigitsValue(TableRecordOf(t, page).imagePath[6..9]) == page
  {
    Pad3Length(page);
    Pad3Value(page);
    var p := TableRecordOf(t, page).imagePath;
    assert p == "table_" + Pad3(page) + ("_" + IntToString(t.tableId) + ".png");
  }

  // ---------------------------------------------------------------------------
  // get_figures_in_section
  // ---------------------------------------------------------------------------

  function FigureRecordOf(f: FigureEntry, page: int): FigureRecord
  {
    var figId := f.figureId.GetOr("unknown");
    FigureRecord("Figure_" + IntToString(page) + "_" + figId, f.title, page, f.bbox,
                 "figure_" + Pad3(page) + "_" + figId + ".png", None)
  }

  /** The records of a page's figures, in order. */
  function FigureRecords(figs: seq<FigureEntry>, page: int): seq<FigureRecord>
  {
    if figs == [] then [] else FigureRecords(figs[..|figs| - 1], page) + [FigureRecordOf(figs[|figs| - 1], page)]
  }

  /** Each record of a page carries that page and comes from one of its figure entries. */
  lemma {:induction false} FigureRecordsFrom(figs: seq<FigureEntry>, page: int)
    ensures |FigureRecords(figs, page)| == |figs|
    ensures forall f :: f in FigureRecords(figs, page) ==>
              f.page == page && f.description.None? && exists e :: e in figs && f == FigureRecordOf(e, page)
  {
    if figs != [] {
      FigureRecordsFrom(figs[..|figs| - 1], page);
      assert forall e :: e in figs[..|figs| - 1] ==> e in figs;
    }
  }

  function PageFigures(layouts: map<int, LayoutEntry>, page: int): seq<FigureRecord>
  {
    if page - 1 in layouts && layouts[page - 1].hasFigure then FigureRecords(layouts[page - 1].figures, page) else []
  }

  /** The figures of pages `first`..`last - 1`, page by page. */
  function FiguresBetween(layouts: map<int, LayoutEntry>, first: int, last: int): seq<FigureRecord>
    decreases last - first
  {
    if last <= first then [] else FiguresBetween(layouts, first, last - 1) + PageFigures(layouts, last - 1)
  }

  /** The inner loop of `get_figures_in_section`: one record per figure of the page. */
  method AppendPageFigures(figures: seq<FigureRecord>, figs: seq<FigureEntry>, page: int) returns (r: seq<FigureRecord>)
    ensures r == figures + FigureRecords(figs, page)
  {
    r := figures;
    for i := 0 to |figs|
      invariant r == figures + FigureRecords(figs[..i], page)
    {
      var record := FigureRecordOf(figs[i], page);
      assert figs[..i + 1][..i] == figs[..i];
      Seqs.Assoc(figures, FigureRecords(figs[..i], page), [record]);
      r := r + [record];
    }
    assert figs[..|figs|] == figs;
  }

  /** `get_figures_in_section`: every figure of every page from the start page to the end page. */
  method GetFiguresInSection(startPage: int, endPage: int, layouts: map<int, LayoutEntry>) returns (figures: seq<FigureRecord>)
    ensures figures == FiguresBetween(layouts, startPage, endPage + 1)
  {
    figures := [];
    var pageNum := startPage;
    while pageNum <= endPage
      invariant pageNum <= endPage + 1 || pageNum == startPage
      invariant figures == FiguresBetween(layouts, startPage, pageNum)
      decreases endPage - pageNum
    {
      assert FiguresBetween(layouts, startPage, pageNum + 1)
          == FiguresBetween(layouts, startPage, pageNum) + PageFigures(layouts, pageNum);
      if pageNum - 1 in layouts && layouts[pageNum - 1].hasFigure {
        figures := AppendPageFigures(figures, layouts[pageNum - 1].figures, pageNum);
      } else {
        assert figures + PageFigures(layouts, pageNum) == figures;
      }
      pageNum := pageNum + 1;
    }
  }

  /** Every figure lies on a page of the section that has a layout entry with `has_figure`. */
  lemma {:induction false} FiguresInRange(layouts: map<int, LayoutEntry>, first: int, last: int)
    ensures forall f :: f in FiguresBetween(layouts, first, last) ==>
              (first <= f.page < last && f.page - 1 in layouts && layouts[f.page - 1].hasFigure
               && f.description.None?)
    decreases last - first
  {
    if first < last {
      var before, here := FiguresBetween(layouts, first, last - 1), PageFigures(layouts, last - 1);
      FiguresInRange(layouts, first, last - 1);
      if last - 2 in layouts {
        FigureRecordsFrom(layouts[last - 2].figures, last - 1);
      }
      forall f: FigureRecord | f in before + here
        ensures first <= f.page < last && f.page - 1 in layouts && layouts[f.page - 1].hasFigure && f.description.None?
      {
        if f !in before {
          assert f in here;
        }
      }
    }
  }

  // ---------------------------------------------------------------------------
  // SectionData.to_dict and file naming
  // ---------------------------------------------------------------------------

  /** `SectionData.to_dict`: the page span with its count and the table and figure counts. */
  function ToDoc(info: SectionInfo, text: string, tables: seq<TableRecord>, figures: seq<FigureRecord>): (d: SectionDoc)
    ensures d.pages.count >= 1 <==> info.endPage >= info.startPage
    ensures d.tableCount == |d.tables| && d.figureCount == |d.figures|
  {
    SectionDoc(info.index, ExtractSectionId(info.title), info.title, info.level,
               PageSpan(info.startPage, info.endPage, info.endPage - info.startPage + 1),
               text, tables, figures, |tables|, |figures|)
  }

  /** "section_{index:03d}_{id with '.' replaced by '_'}.json". */
  function SectionFileName(index: int, sectionId: string): string
  {
    "section_" + Pad3(index) + "_" + ReplaceChar(sectionId, '.', '_') + ".json"
  }

  /** The index can be read back from a section file name, so names of different sections differ. */
  lemma SectionFileNameIndex(index: int, sectionId: string)
    requires 0 <= index < 1000
    ensures SectionFileName(index, sectionId)[8..11] == Pad3(index)
    ensures IsDigitString(SectionFileName(index, sectionId)[8..11])
    ensures DigitsValue(SectionFileName(index, sectionId)[8..11]) == index
    ensures SectionFileName(index, sectionId) != IndexFileName
  {
    Pad3Length(index);
    Pad3Value(index);
    var p := Pad3(index);
    var tail := "_" + ReplaceChar(sectionId, '.', '_') + ".json";
    var name := SectionFileName(index, sectionId);
    assert name == "section_" + p + tail;
    assert name[8..11] == p;
    assert name[8] == p[0] && IsDigit(p[0]);
    assert IndexFileName[8] == 'i';
  }

  lemma SectionFileNamesDistinct(i: int, j: int, a: string, b: string)
    requires 0 <= i < 1000 && 0 <= j < 1000 && i != j
    ensures SectionFileName(i, a) != SectionFileName(j, b)
  {
    SectionFileNameIndex(i, a);
    SectionFileNameIndex(j, b);
  }

  /** A `sections` entry of section_index.json. */
  datatype IndexEntry = IndexEntry(index: int, sectionId: string, title: string, level: int, pages: string, file: string)

  function IndexEntryOf(info: SectionInfo): IndexEntry
  {
    var id := ExtractSectionId(info.title);
    IndexEntry(info.index, id, info.title, info.level,
               IntToString(info.startPage) + "-" + IntToString(info.endPage),
               SectionFileName(info.index, id))
  }

  // ---------------------------------------------------------------------------
  // extract_all_sections
  // ---------------------------------------------------------------------------

  /** A table-of-contents entry: level, title and 1-based start page. */
  datatype TocEntry = TocEntry(level: int, title: string, page: int)

  /** `sections_info` before the end pages are filled in (0 stands for the missing key). */
  function InitialInfos(toc: seq<TocEntry>): (infos: seq<SectionInfo>)
    ensures |infos| == |toc|
  {
    seq(|toc|, i requires 0 <= i < |toc| => SectionInfo(i, toc[i].level, toc[i].title, toc[i].page, 0))
  }

  /** `sections_info` with its end pages. */
  function SectionInfos(toc: seq<TocEntry>, docPages: int): (infos: seq<SectionInfo>)
    ensures |infos| == |toc|
  {
    var init := InitialInfos(toc);
    seq(|toc|, i requires 0 <= i < |toc| => init[i].(endPage := EndPageOf(init, i, docPages)))
  }

  /** The cursor window of section i, given the y positions the renderer reports. */
  function WindowOf(infos: seq<SectionInfo>, i: int, docPages: int, startY: Option<real>, nextY: Option<real>): Window
    requires 0 <= i < |infos|
  {
    Window(infos[i].startPage, startY,
           if i < |infos| - 1 then Some(infos[i + 1].startPage) else None,
           if i < |infos| - 1 then nextY else None,
           10, docPages)
  }

  /** The file written for section i: `sectionY(page, id)` is where the renderer finds the id on the page. */
  function SectionFileOf(infos: seq<SectionInfo>, i: int, docPages: int, pagesText: map<int, string>,
                         layouts: map<int, LayoutEntry>, sectionY: (int, string) -> Option<real>): SectionFile
    requires 0 <= i < |infos|
  {
    var info := infos[i];
    var next := if i < |infos| - 1 then Some(infos[i + 1]) else None;
    var nextY := if i < |infos| - 1 then sectionY(infos[i + 1].startPage, ExtractSectionId(infos[i + 1].title)) else None;
    var startY := sectionY(info.startPage, ExtractSectionId(info.title));
    var doc := ToDoc(info, Join(SectionLines(info, next, docPages, pagesText), "\n"),
                     Collect(WindowOf(infos, i, docPages, startY, nextY), layouts, info.startPage),
                     FiguresBetween(layouts, info.startPage, info.endPage + 1));
    SectionFile(SectionFileName(info.index, ExtractSectionId(info.title)), doc)
  }

  /** Section index to section file. */
  function FileAt(infos: seq<SectionInfo>, docPages: int, pagesText: map<int, string>,
                  layouts: map<int, LayoutEntry>, sectionY: (int, string) -> Option<real>): int --> SectionFile
  {
    k requires 0 <= k < |infos| => SectionFileOf(infos, k, docPages, pagesText, layouts, sectionY)
  }

  /** One iteration of the section loop of `extract_all_sections`. */
  method ExtractSection(infos: seq<SectionInfo>, i: int, docPages: int, pagesText: map<int, string>,
                        layouts: map<int, LayoutEntry>, sectionY: (int, string) -> Option<real>)
    returns (file: SectionFile)
    requires 0 <= i < |infos|
    ensures file == SectionFileOf(infos, i, docPages, pagesText, layouts, sectionY)
  {
    var info := infos[i];
    var next: Option<SectionInfo> := None;
    var nextY: Option<real> := None;
    if i < |infos| - 1 {
      next := Some(infos[i + 1]);
      nextY := sectionY(infos[i + 1].startPage, ExtractSectionId(infos[i + 1].title));
    }
    var text := FindTextBetweenSections(info, next, docPages, pagesText);
    var startY := sectionY(info.startPage, ExtractSectionId(info.title));
    var tables := GetTablesInSection(WindowOf(infos, i, docPages, startY, nextY), layouts);
    var figures := GetFiguresInSection(info.startPage, info.endPage, layouts);
    var doc := ToDoc(info, text, tables, figures);
    file := SectionFile(SectionFileName(info.index, ExtractSectionId(info.title)), doc);
  }

  /** The list of section dictionaries, built from the TOC and then given end pages in place. */
  method BuildSectionInfos(toc: seq<TocEntry>, docPages: int) returns (sections: seq<SectionInfo>)
    ensures sections == SectionInfos(toc, docPages)
  {
    var infos := new SectionInfo[|toc|](i requires 0 <= i < |toc| => SectionInfo(i, toc[i].level, toc[i].title, toc[i].page, 0));
    ghost var init := infos[..];
    assert init == InitialInfos(toc);
    ComputeEndPages(infos, docPages);
    sections := infos[..];
    forall k | 0 <= k < |toc|
      ensures sections[k] == SectionInfos(toc, docPages)[k]
    {
      assert sections[k] == init[k].(endPage := EndPageOf(init, k, docPages));
    }
  }

  /**
   * `extract_all_sections` over in-memory inputs: the section files and the
   * index entries, both in TOC order.
   */
  method ExtractAllSections(toc: seq<TocEntry>, docPages: int, pagesText: map<int, string>,
                            layouts: map<int, LayoutEntry>, sectionY: (int, string) -> Option<real>)
    returns (files: seq<SectionFile>, index: seq<IndexEntry>)
    ensures files == Seqs.Build(FileAt(SectionInfos(toc, docPages), docPages, pagesText, layouts, sectionY), |toc|)
    ensures |index| == |toc|
    ensures forall i :: 0 <= i < |toc| ==> index[i] == IndexEntryOf(SectionInfos(toc, docPages)[i])
  {
    var sections := BuildSectionInfos(toc, docPages);
    files := [];
    for i := 0 to |sections|
      invariant files == Seqs.Build(FileAt(sections, docPages, pagesText, layouts, sectionY), i)
    {
      var file := ExtractSection(sections, i, docPages, pagesText, layouts, sectionY);
      files := files + [file];
    }
    index := seq(|sections|, i requires 0 <= i < |sections| => IndexEntryOf(sections[i]));
  }

  /**
   * Section i is written to "section_{i:03d}_{id}.json" with its TOC index,
   * title and start page; every section but the last spans at least one
   * page; the index entry names the same file; and with fewer than 1000
   * sections no two sections share a file, nor does any use the index's name.
   */
  lemma SectionFilesNamed(toc: seq<TocEntry>, docPages: int, pagesText: map<int, string>,
                          layouts: map<int, LayoutEntry>, sectionY: (int, string) -> Option<real>, i: int)
    requires 0 <= i < |toc|
    ensures var f := SectionFileOf(SectionInfos(toc, docPages), i, docPages, pagesText, layouts, sectionY);
            f.name == SectionFileName(i, ExtractSectionId(toc[i].title))
            && f.doc.sectionIndex == i && f.doc.title == toc[i].title && f.doc.level == toc[i].level
            && f.doc.pages.start == toc[i].page
            && (i < |toc| - 1 ==> f.doc.pages.count >= 1)
            && IndexEntryOf(SectionInfos(toc, docPages)[i]).file == f.name
    ensures |toc| <= 1000 ==>
              SectionFileOf(SectionInfos(toc, docPages), i, docPages, pagesText, layouts, sectionY).name != IndexFileName
              && forall j :: 0 <= j < |toc| && j != i ==>
                   SectionFileOf(SectionInfos(toc, docPages), i, docPages, pagesText, layouts, sectionY).name
                   != SectionFileOf(SectionInfos(toc, docPages), j, docPages, pagesText, layouts, sectionY).name
  {
    var infos := SectionInfos(toc, docPages);
    if i < |toc| - 1 {
      EndPageBounds(InitialInfos(toc), i, docPages);
    }
    if |toc| <= 1000 {
      SectionFileNameIndex(i, ExtractSectionId(toc[i].title));
      forall j | 0 <= j < |toc| && j != i
        ensures SectionFileOf(infos, i, docPages, pagesText, layouts, sectionY).name
                != SectionFileOf(infos, j, docPages, pagesText, layouts, sectionY).name
      {
        SectionFileNamesDistinct(i, j, ExtractSectionId(toc[i].title), ExtractSectionId(toc[j].title));
      }
    }
  }
}
