/**
 * Helpers over a loaded layout JSON (`layout_helper.py`): the cell-to-Markdown
 * serialiser, which pairs with the header parser of the table merger, and the
 * per-page strategy and continuation lookups.
 */
module LayoutHelper {
  import opened Wrappers
  import opened Strings
  import opened PageLayouts
  import opened TableMerger
  import Seqs

  // ---------------------------------------------------------------------------
  // _cells_to_markdown
  // ---------------------------------------------------------------------------

  /** `str(c)`: None prints as "None". */
  function CellText(c: Cell): string
  {
    if c.None? then "None" else c.value
  }

  function Texts(row: seq<Cell>): (r: seq<string>)
    ensures |r| == |row|
    ensures forall i :: 0 <= i < |row| ==> r[i] == CellText(row[i])
  {
    seq(|row|, i requires 0 <= i < |row| => CellText(row[i]))
  }

  /** `"|" + "|".join(["---"] * n) + "|"`. */
  function SeparatorLine(n: nat): string
  {
    "|" + Join(seq(n, _ => "---"), "|") + "|"
  }

  /** The Markdown lines of a table whose first row is its header. */
  function MarkdownLines(cells: seq<seq<Cell>>): (r: seq<string>)
    requires |cells| > 0
    ensures |r| == |cells| + 1
  {
    [RowLine(Texts(cells[0])), SeparatorLine(|cells[0]|)]
      + seq(|cells| - 1, i requires 0 <= i < |cells| - 1 => RowLine(Texts(cells[i + 1])))
  }

  /**
   * `_cells_to_markdown`: "" when there are no rows or the header row is
   * empty; otherwise the header line, the separator line and one line per
   * data row, joined by newlines.
   */
  method CellsToMarkdown(cells: seq<seq<Cell>>) returns (md: string)
    ensures cells == [] || cells[0] == [] ==> md == ""
    ensures cells != [] && cells[0] != [] ==> md == Join(MarkdownLines(cells), "\n")
  {
    if cells == [] || cells[0] == [] {
      return "";
    }
    var lines: seq<string> := [];
    var header := cells[0];
    lines := lines + [RowLine(Texts(header))];
    lines := lines + [SeparatorLine(|header|)];
    var i := 1;
    while i < |cells|
      invariant 1 <= i <= |cells|
      invariant lines == MarkdownLines(cells[..i])
    {
      assert cells[..i + 1][..i] == cells[..i];
      lines := lines + [RowLine(Texts(cells[i]))];
      i := i + 1;
    }
    assert cells[..i] == cells;
    md := Join(lines, "\n");
  }

  /** Every row line starts and ends with '|'. */
  lemma RowLineEnds(cells: seq<string>)
    ensures |RowLine(cells)| >= 4
    ensures RowLine(cells)[0] == '|' && RowLine(cells)[|RowLine(cells)| - 1] == '|'
  {
  }

  lemma {:induction false} JoinLast(parts: seq<string>, sep: string)
    requires |parts| >= 1 && parts[|parts| - 1] != []
    ensures |Join(parts, sep)| > 0
    ensures Join(parts, sep)[|Join(parts, sep)| - 1] == parts[|parts| - 1][|parts[|parts| - 1]| - 1]
  {
    if |parts| > 1 {
      JoinLast(parts[1..], sep);
    }
  }

  lemma JoinEnds(parts: seq<string>, sep: string)
    requires |parts| >= 1 && parts[0] != [] && parts[|parts| - 1] != []
    ensures |Join(parts, sep)| > 0
    ensures Join(parts, sep)[0] == parts[0][0]
    ensures Join(parts, sep)[|Join(parts, sep)| - 1] == parts[|parts| - 1][|parts[|parts| - 1]| - 1]
  {
    JoinLast(parts, sep);
  }

  lemma {:induction false} JoinNoChar(parts: seq<string>, sep: string, c: char)
    requires c !in sep
    requires forall p :: p in parts ==> c !in p
    ensures c !in Join(parts, sep)
  {
    if |parts| > 1 {
      JoinNoChar(parts[1..], sep, c);
    }
  }

  predicate NoNewlineCells(cells: seq<seq<Cell>>)
  {
    forall row, c :: row in cells && c in row ==> '\n' !in CellText(c)
  }

  lemma RowLineNoNewline(row: seq<Cell>)
    requires forall c :: c in row ==> '\n' !in CellText(c)
    ensures '\n' !in RowLine(Texts(row))
  {
    forall p | p in Texts(row)
      ensures '\n' !in p
    {
      var k :| 0 <= k < |row| && Texts(row)[k] == p;
      assert row[k] in row;
    }
    JoinNoChar(Texts(row), " | ", '\n');
  }

  lemma SeparatorNoNewline(n: nat)
    ensures '\n' !in SeparatorLine(n)
  {
    JoinNoChar(seq(n, _ => "---"), "|", '\n');
  }

  /**
   * When no cell text holds a newline, the serialised table reads back as
   * exactly |cells| + 1 lines: header, separator, then the data rows in order.
   */
  lemma MarkdownLinesRoundTrip(cells: seq<seq<Cell>>)
    requires cells != [] && cells[0] != []
    requires NoNewlineCells(cells)
    ensures Lines(Join(MarkdownLines(cells), "\n")) == MarkdownLines(cells)
    ensures |Lines(Join(MarkdownLines(cells), "\n"))| == |cells| + 1
  {
    var lines := MarkdownLines(cells);
    var md := Join(lines, "\n");
    forall l | l in lines
      ensures '\n' !in l
    {
      var k :| 0 <= k < |lines| && lines[k] == l;
      LineNoNewline(cells, k);
    }
    RowLineEnds(Texts(cells[0]));
    if |cells| > 1 {
      RowLineEnds(Texts(cells[|cells| - 1]));
    }
    JoinEnds(lines, "\n");
    StripNoop(md);
    SplitJoin(lines, '\n');
  }

  /** No line of the serialised table holds a newline when no cell text does. */
  lemma LineNoNewline(cells: seq<seq<Cell>>, k: nat)
    requires cells != [] && NoNewlineCells(cells)
    requires k < |MarkdownLines(cells)|
    ensures '\n' !in MarkdownLines(cells)[k]
  {
    if k == 1 {
      SeparatorNoNewline(|cells[0]|);
    } else {
      var row := if k == 0 then cells[0] else cells[k - 1];
      assert row in cells;
      assert forall c :: c in row ==> '\n' !in CellText(c);
      RowLineNoNewline(row);
    }
  }

  lemma {:induction false} DashesForm(n: nat)
    requires n >= 1
    ensures Join(seq(n, _ => "---"), "|") + "|" == Repeat("---|", n)
  {
    var dashes := seq(n, _ => "---");
    if n == 1 {
      assert dashes == ["---"];
      assert Repeat("---|", 1) == "---|" + "";
    } else {
      assert dashes[1..] == seq(n - 1, _ => "---");
      DashesForm(n - 1);
      calc {
        Join(dashes, "|") + "|";
        ("---" + "|" + Join(dashes[1..], "|")) + "|";
        "---|" + (Join(dashes[1..], "|") + "|");
        "---|" + Repeat("---|", n - 1);
      }
    }
  }

  /** The separator is '|' followed by "---|" once per header cell. */
  lemma SeparatorForm(n: nat)
    requires n >= 1
    ensures SeparatorLine(n) == "|" + Repeat("---|", n)
  {
    DashesForm(n);
    Seqs.Assoc("|", Join(seq(n, _ => "---"), "|"), "|");
  }

  /**
   * Round trip with the table merger: the header parsed back from a
   * serialised table is the stripped header row, provided no header cell
   * holds '|' or a newline.
   */
  lemma HeaderRoundTrip(cells: seq<seq<Cell>>, md: string)
    requires cells != [] && cells[0] != []
    requires forall c :: c in cells[0] ==> '|' !in CellText(c) && '\n' !in CellText(c)
    requires md == Join(MarkdownLines(cells), "\n")
    ensures ExtractTableHeader(md) == Some(MapStrip(Texts(cells[0])))
  {
    var lines := MarkdownLines(cells);
    var header := lines[0];
    RowLineNoNewline(cells[0]);
    RowLineEnds(Texts(cells[0]));
    if |cells| > 1 {
      RowLineEnds(Texts(cells[|cells| - 1]));
    }
    JoinEnds(lines, "\n");
    StripNoop(md);
    assert md == header + "\n" + Join(lines[1..], "\n");
    SplitConcat(header, Join(lines[1..], "\n"), '\n');
    assert Lines(md)[0] == header && |Lines(md)| >= 2;
    StripNoop(header);
    forall c | c in Texts(cells[0])
      ensures '|' !in c
    {
      var k :| 0 <= k < |cells[0]| && Texts(cells[0])[k] == c;
      assert cells[0][k] in cells[0];
    }
    RowLineCells(Texts(cells[0]));
  }

  lemma SerialisedHeader(cells: seq<seq<Cell>>)
    requires cells != [] && cells[0] != []
    requires forall c :: c in cells[0] ==> '|' !in CellText(c) && '\n' !in CellText(c)
    ensures ExtractTableHeader(Join(MarkdownLines(cells), "\n")) == Some(MapStrip(Texts(cells[0])))
    ensures HasHeader(Join(MarkdownLines(cells), "\n"))
  {
    HeaderRoundTrip(cells, Join(MarkdownLines(cells), "\n"));
  }

  lemma ConcatLines(t1: seq<seq<Cell>>, t2: seq<seq<Cell>>)
    requires t1 != [] && t2 != [] && t1[0] == t2[0]
    ensures MarkdownLines(t1) + MarkdownLines(t2)[2..] == MarkdownLines(t1 + t2[1..])
  {
    var m := MarkdownLines(t1 + t2[1..]);
    var l := MarkdownLines(t1) + MarkdownLines(t2)[2..];
    assert |m| == |l|;
    forall k | 0 <= k < |m|
      ensures m[k] == l[k]
    {
      if k >= |t1| + 1 {
        assert (t1 + t2[1..])[k - 1] == t2[k - |t1|];
      }
    }
  }

  /**
   * Serialising two tables with the same header row and merging the texts
   * gives the serialisation of the first table followed by the data rows of
   * the second (the merge example of `table_merger.py` is an instance).
   */
  lemma MergeSerialised(t1: seq<seq<Cell>>, t2: seq<seq<Cell>>)
    requires t1 != [] && t2 != [] && t1[0] != [] && t1[0] == t2[0]
    requires NoNewlineCells(t1) && NoNewlineCells(t2)
    requires forall c :: c in t1[0] ==> '|' !in CellText(c)
    ensures MergeTables(Join(MarkdownLines(t1), "\n"), Join(MarkdownLines(t2), "\n"))
         == Some(Join(MarkdownLines(t1 + t2[1..]), "\n"))
  {
    var md1 := Join(MarkdownLines(t1), "\n");
    var md2 := Join(MarkdownLines(t2), "\n");
    assert t1[0] in t1;
    SerialisedHeader(t1);
    SerialisedHeader(t2);
    MergeValue(md1, md2);
    MarkdownLinesRoundTrip(t1);
    MarkdownLinesRoundTrip(t2);
    ConcatLines(t1, t2);
  }

  // ---------------------------------------------------------------------------
  // Lookups over the loaded layout JSON
  // ---------------------------------------------------------------------------

  /**
   * The parts of the layout JSON read here: each page's strategy under its
   * 0-based page key, and the continuation map from a 0-based page to its
   * previous page.
   */
  datatype LayoutData = LayoutData(layouts: map<int, Strategy>, continuations: map<int, int>)

  /** `get_page_strategy(page_num)` (1-based): the stored strategy, 'unknown' for an absent page. */
  function GetPageStrategy(data: LayoutData, pageNum: int): (r: Strategy)
    ensures pageNum - 1 in data.layouts ==> r == data.layouts[pageNum - 1]
    ensures pageNum - 1 !in data.layouts ==> r == Unknown
  {
    if pageNum - 1 in data.layouts then data.layouts[pageNum - 1] else Unknown
  }

  /** `is_continuation_page(page_num)` (1-based). */
  predicate IsContinuationPage(data: LayoutData, pageNum: int)
  {
    pageNum - 1 in data.continuations
  }

  /** `get_previous_page(page_num)`: the stored previous index made 1-based, or None. */
  function GetPreviousPage(data: LayoutData, pageNum: int): (r: Option<int>)
    ensures r.Some? <==> IsContinuationPage(data, pageNum)
    ensures r.Some? ==> r.value == data.continuations[pageNum - 1] + 1
  {
    if pageNum - 1 in data.continuations then Some(data.continuations[pageNum - 1] + 1) else None
  }

  /**
   * For layout data written by the analyzer (every continuation key k maps
   * to k - 1), the previous page of a continuation page is the page before it.
   */
  lemma PreviousPageIsPageBefore(data: LayoutData, pageNum: int)
    requires forall k :: k in data.continuations ==> data.continuations[k] == k - 1
    ensures GetPreviousPage(data, pageNum) == if IsContinuationPage(data, pageNum) then Some(pageNum - 1) else None
  {
  }

  // ---------------------------------------------------------------------------
  // get_pages_by_strategy
  // ---------------------------------------------------------------------------

  predicate SortedAsc(xs: seq<int>)
  {
    forall i, j :: 0 <= i < j < |xs| ==> xs[i] <= xs[j]
  }

  function Insert(x: int, xs: seq<int>): seq<int>
  {
    if xs == [] then [x]
    else if x <= xs[0] then [x] + xs
    else [xs[0]] + Insert(x, xs[1..])
  }

  lemma {:induction false} InsertPerm(x: int, xs: seq<int>)
    ensures multiset(Insert(x, xs)) == multiset(xs) + multiset{x}
  {
    if xs != [] && x > xs[0] {
      InsertPerm(x, xs[1..]);
      assert xs == [xs[0]] + xs[1..];
    }
  }

  lemma InsertMembers(x: int, xs: seq<int>)
    ensures forall y :: y in Insert(x, xs) ==> y == x || y in xs
  {
    InsertPerm(x, xs);
    forall y | y in Insert(x, xs)
      ensures y == x || y in xs
    {
      assert y in multiset(Insert(x, xs));
    }
  }

  /** Inserting into an ascending sequence keeps it ascending. */
  lemma {:induction false} InsertSorted(x: int, xs: seq<int>)
    requires SortedAsc(xs)
    ensures SortedAsc(Insert(x, xs))
  {
    if xs != [] && x > xs[0] {
      var rest := Insert(x, xs[1..]);
      InsertSorted(x, xs[1..]);
      InsertMembers(x, xs[1..]);
      assert forall y :: y in xs[1..] ==> xs[0] <= y;
      var r := Insert(x, xs);
      assert r == [xs[0]] + rest;
      forall i, j | 0 <= i < j < |r|
        ensures r[i] <= r[j]
      {
        assert r[j] == rest[j - 1] && rest[j - 1] in rest;
        if i > 0 {
          assert r[i] == rest[i - 1];
        }
      }
    }
  }

  /** Python's `sorted` on integers: an ascending permutation. */
  function SortInts(xs: seq<int>): (r: seq<int>)
    ensures SortedAsc(r)
    ensures multiset(r) == multiset(xs)
  {
    if xs == [] then []
    else
      assert xs == xs[..|xs| - 1] + [xs[|xs| - 1]];
      var sortedInit := SortInts(xs[..|xs| - 1]);
      InsertSorted(xs[|xs| - 1], sortedInit);
      InsertPerm(xs[|xs| - 1], sortedInit);
      Insert(xs[|xs| - 1], sortedInit)
  }

  /** The 1-based pages whose stored strategy is `s`. */
  function PagesWith(layouts: map<int, Strategy>, s: Strategy): set<int>
  {
    set k | k in layouts && layouts[k] == s :: k + 1
  }

  lemma TwiceCounted(xs: seq<int>, i: int, j: int)
    requires 0 <= i < j < |xs|
    ensures xs[i] == xs[j] ==> multiset(xs)[xs[i]] >= 2
  {
    assert xs == xs[..i] + [xs[i]] + xs[i + 1..];
    assert xs[i + 1..] == xs[i + 1..j] + [xs[j]] + xs[j + 1..];
  }

  lemma SortedDistinctIsStrict(xs: seq<int>)
    requires SortedAsc(xs)
    requires forall x :: x in multiset(xs) ==> multiset(xs)[x] == 1
    ensures forall i, j :: 0 <= i < j < |xs| ==> xs[i] < xs[j]
  {
    forall i, j | 0 <= i < j < |xs|
      ensures xs[i] < xs[j]
    {
      TwiceCounted(xs, i, j);
    }
  }

  /** The 1-based numbers of the keys, in the order given, whose strategy is `s`. */
  function KeyPages(layouts: map<int, Strategy>, keys: seq<int>, s: Strategy): seq<int>
    requires forall k :: k in keys ==> k in layouts
  {
    if keys == [] then []
    else
      var last := keys[|keys| - 1];
      KeyPages(layouts, keys[..|keys| - 1], s) + (if layouts[last] == s then [last + 1] else [])
  }

  /** A number is listed exactly when it is one past a key whose strategy is `s`. */
  lemma {:induction false} KeyPagesMembers(layouts: map<int, Strategy>, keys: seq<int>, s: Strategy)
    requires forall k :: k in keys ==> k in layouts
    ensures forall p :: p in KeyPages(layouts, keys, s) <==> p - 1 in keys && layouts[p - 1] == s
  {
    if keys != [] {
      var init := keys[..|keys| - 1];
      KeyPagesMembers(layouts, init, s);
      assert keys == init + [keys[|keys| - 1]];
    }
  }

  /** Distinct keys give each number at most once. */
  lemma {:induction false} KeyPagesOnce(layouts: map<int, Strategy>, keys: seq<int>, s: Strategy)
    requires forall k :: k in keys ==> k in layouts
    requires forall i, j :: 0 <= i < j < |keys| ==> keys[i] != keys[j]
    ensures forall p :: p in multiset(KeyPages(layouts, keys, s)) ==> multiset(KeyPages(layouts, keys, s))[p] == 1
  {
    if keys != [] {
      var init := keys[..|keys| - 1];
      var last := keys[|keys| - 1];
      KeyPagesOnce(layouts, init, s);
      KeyPagesMembers(layouts, init, s);
      forall i | 0 <= i < |init|
        ensures init[i] != last
      {
        assert init[i] == keys[i];
      }
      var before := KeyPages(layouts, init, s);
      assert last + 1 !in before;
      assert keys[..|keys| - 1] == init;
      assert KeyPages(layouts, keys, s) == before + (if layouts[last] == s then [last + 1] else []);
      assert multiset(KeyPages(layouts, keys, s)) == multiset(before) + multiset(if layouts[last] == s then [last + 1] else []);
    }
  }

  /**
   * `get_pages_by_strategy(s)`: the 1-based numbers (key + 1) of exactly the
   * pages whose strategy is `s`, strictly ascending. `order` is the
   * dictionary's iteration order: each key of `layouts` once.
   */
  method GetPagesByStrategy(layouts: map<int, Strategy>, order: seq<int>, s: Strategy) returns (pages: seq<int>)
    requires forall k :: k in order <==> k in layouts
    requires forall i, j :: 0 <= i < j < |order| ==> order[i] != order[j]
    ensures forall i, j :: 0 <= i < j < |pages| ==> pages[i] < pages[j]
    ensures forall p :: p in pages <==> p in PagesWith(layouts, s)
    ensures |pages| == |PagesWith(layouts, s)|
    ensures pages == SortInts(KeyPages(layouts, order, s))
  {
    var found: seq<int> := [];
    for n := 0 to |order|
      invariant found == KeyPages(layouts, order[..n], s)
    {
      var k := order[n];
      assert order[..n + 1][..n] == order[..n];
      if layouts[k] == s {
        found := found + [k + 1];
      }
    }
    assert order[..|order|] == order;
    pages := SortInts(found);
    SortedKeyPages(layouts, order, s);
  }

  /** Sorting the listed numbers gives the pages with strategy `s`, each once, strictly ascending. */
  lemma SortedKeyPages(layouts: map<int, Strategy>, order: seq<int>, s: Strategy)
    requires forall k :: k in order <==> k in layouts
    requires forall i, j :: 0 <= i < j < |order| ==> order[i] != order[j]
    ensures var pages := SortInts(KeyPages(layouts, order, s));
            (forall i, j :: 0 <= i < j < |pages| ==> pages[i] < pages[j])
            && (forall p :: p in pages <==> p in PagesWith(layouts, s))
            && |pages| == |PagesWith(layouts, s)|
  {
    var found := KeyPages(layouts, order, s);
    var pages := SortInts(found);
    KeyPagesMembers(layouts, order, s);
    KeyPagesOnce(layouts, order, s);
    SortedDistinctIsStrict(pages);
    forall p
      ensures p in pages <==> p in PagesWith(layouts, s)
    {
      assert p in pages <==> p in multiset(pages);
      assert p in found <==> p in multiset(found);
    }
    StrictCount(pages, PagesWith(layouts, s));
  }

  lemma {:induction false} StrictCount(xs: seq<int>, ps: set<int>)
    requires forall i, j :: 0 <= i < j < |xs| ==> xs[i] < xs[j]
    requires forall p :: p in xs <==> p in ps
    ensures |xs| == |ps|
  {
    if xs != [] {
      var last := xs[|xs| - 1];
      var init := xs[..|xs| - 1];
      assert last !in init;
      forall p | p in init
        ensures p in ps - {last}
      {
      }
      StrictCount(init, ps - {last});
    } else {
      assert forall p :: p !in ps;
      assert ps == {};
    }
  }
}
