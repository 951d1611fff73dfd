/**
 * The Markdown renderer of `step5_markdown_converter.py`: one Markdown file
 * per section record (header, metadata line, body text, a tables block and
 * a figures block, joined with newlines) and the INDEX.md page built from
 * section_index.json. Reading and writing the files is left to the caller:
 * the record and the index come in, the file name and text go out.
 */
module MarkdownConverter {
  import opened Wrappers
  import opened Strings
  import opened SectionRecords
  import SectionExtractor
  import Seqs

  const UntitledTable: string := "Untitled Table"
  const UntitledFigure: string := "Untitled Figure"
  /** The line written for a table without parsed markdown. */
  const NoMarkdown: string := "\n*(No markdown content)*\n"
  const Rule: string := "\n---"
  /** A record's `image_path` is falsy only when empty; records carry no `id` key, so the fallback is fixed. */
  const FallbackImage: string := "unknown.png"
  const ImageDir: string := "../section_images/"

  // ---------------------------------------------------------------------------
  // Section header and metadata
  // ---------------------------------------------------------------------------

  /** `min(level + 1, 6)`: the number of '#' of the section header (none when it is not positive). */
  function HeaderDepth(level: int): int
  {
    if level + 1 < 6 then level + 1 else 6
  }

  function HeaderLine(title: string, level: int): string
  {
    Repeat("#", HeaderDepth(level)) + " " + title + "\n"
  }

  function MetaLine(doc: SectionDoc): string
  {
    "> **Section ID**: " + doc.sectionId + " | **Page**: " + IntToString(doc.pages.start) + "-" +
    IntToString(doc.pages.end) + "\n"
  }

  /** The number of `c` characters a string starts with. */
  function LeadingRun(s: string, c: char): (r: nat)
    ensures r <= |s|
  {
    if s == [] || s[0] != c then 0 else 1 + LeadingRun(s[1..], c)
  }

  lemma {:induction false} LeadingRunRepeat(c: char, n: int, rest: string)
    requires rest == [] || rest[0] != c
    ensures LeadingRun(Repeat([c], n) + rest, c) == if n <= 0 then 0 else n
    decreases n
  {
    if n > 0 {
      LeadingRunRepeat(c, n - 1, rest);
      assert Repeat([c], n) + rest == [c] + (Repeat([c], n - 1) + rest);
      assert (Repeat([c], n) + rest)[1..] == Repeat([c], n - 1) + rest;
    }
  }

  /**
   * A section of level `l` gets a header of `min(l + 1, 6)` '#' (none when
   * that is not positive), then a space and the title.
   */
  lemma HeaderLineDepth(title: string, level: int)
    ensures LeadingRun(HeaderLine(title, level), '#') == if level + 1 <= 0 then 0 else HeaderDepth(level)
    ensures HeaderLine(title, level)[LeadingRun(HeaderLine(title, level), '#')..] == " " + title + "\n"
  {
    var rest := " " + title + "\n";
    assert HeaderLine(title, level) == Repeat("#", HeaderDepth(level)) + rest;
    LeadingRunRepeat('#', HeaderDepth(level), rest);
    RepeatLength("#", HeaderDepth(level));
  }

  // ---------------------------------------------------------------------------
  // Body, tables and figures
  // ---------------------------------------------------------------------------

  /** The body text and an empty line, only when the text is not blank. */
  function BodyLines(text: string): seq<string>
  {
    if Strip(text) != "" then [text, ""] else []
  }

  function TableTitle(t: TableRecord): string
  {
    if Truthy(t.title) then t.title.value else UntitledTable
  }

  function ImageName(imagePath: string): string
  {
    if imagePath != "" then imagePath else FallbackImage
  }

  function TablesHeading(n: nat): string
  {
    "### \U{1F4CA} Tables (" + NatToString(n) + ")\n"
  }

  function FiguresHeading(n: nat): string
  {
    "### \U{1F5BC}\U{FE0F} Figures (" + NatToString(n) + ")\n"
  }

  /** The table's parsed markdown between newlines, or the placeholder. */
  function MarkdownLine(t: TableRecord): string
  {
    if Truthy(t.tableMd) then "\n" + t.tableMd.value + "\n" else NoMarkdown
  }

  /** The four lines of table `i` (1-based): heading, image link, its markdown or the placeholder, an empty line. */
  function TableLines(i: nat, t: TableRecord): (r: seq<string>)
    ensures |r| == 4
  {
    var title := TableTitle(t);
    ["#### Table " + NatToString(i) + ": " + title,
     "![" + title + "](" + ImageDir + ImageName(t.imagePath) + ")",
     MarkdownLine(t),
     ""]
  }

  function TablesBlock(ts: seq<TableRecord>): seq<string>
  {
    if ts == [] then [] else [Rule, TablesHeading(|ts|)] + Seqs.Chunks(TableLines, ts, |ts|)
  }

  function FigureTitle(f: FigureRecord): string
  {
    if Truthy(f.title) then f.title.value else UntitledFigure
  }

  /** The lines of figure `i` (1-based): heading, image link, the description when there is one, an empty line. */
  function FigureLines(i: nat, f: FigureRecord): seq<string>
  {
    var title := FigureTitle(f);
    ["#### Figure " + NatToString(i) + ": " + title,
     "![" + title + "](" + ImageDir + ImageName(f.imagePath) + ")\n"] +
    (if Truthy(f.description) then [f.description.value + "\n"] else []) +
    [""]
  }

  function FiguresBlock(fs: seq<FigureRecord>): seq<string>
  {
    if fs == [] then [] else [Rule, FiguresHeading(|fs|)] + Seqs.Chunks(FigureLines, fs, |fs|)
  }

  /** The header, the metadata line and the body. */
  function HeadLines(doc: SectionDoc): seq<string>
  {
    [HeaderLine(doc.title, doc.level), MetaLine(doc)] + BodyLines(doc.text)
  }

  /** All lines of a section's Markdown file, in the order they are written. */
  function MarkdownLines(doc: SectionDoc): seq<string>
  {
    HeadLines(doc) + TablesBlock(doc.tables) + FiguresBlock(doc.figures)
  }

  // ---------------------------------------------------------------------------
  // File names
  // ---------------------------------------------------------------------------

  /** The position of the last `c` in `s`, or -1. */
  function RFind(s: string, c: char): (r: int)
    ensures -1 <= r < |s|
    ensures r >= 0 ==> s[r] == c
    ensures forall k :: r < k < |s| ==> s[k] != c
  {
    if s == [] then -1
    else if s[|s| - 1] == c then |s| - 1
    else RFind(s[..|s| - 1], c)
  }

  /** `Path(name).stem`: the name without its last suffix; a leading or trailing dot is no suffix. */
  function Stem(name: string): string
  {
    var i := RFind(name, '.');
    if 0 < i < |name| - 1 then name[..i] else name
  }

  /** `json_to_markdown`: the Markdown file's name and text for one section file. */
  method JsonToMarkdown(fileName: string, doc: SectionDoc) returns (mdName: string, content: string)
    ensures mdName == Stem(fileName) + ".md"
    ensures content == Join(MarkdownLines(doc), "\n")
  {
    var lines := [HeaderLine(doc.title, doc.level), MetaLine(doc)];
    if Strip(doc.text) != "" {
      lines := lines + [doc.text, ""];
    }
    assert lines == HeadLines(doc);
    var tables := doc.tables;
    if tables != [] {
      lines := lines + [Rule, TablesHeading(|tables|)];
      ghost var head := lines;
      for i := 0 to |tables|
        invariant lines == head + Seqs.Chunks(TableLines, tables, i)
      {
        Seqs.Assoc(head, Seqs.Chunks(TableLines, tables, i), TableLines(i + 1, tables[i]));
        lines := lines + TableLines(i + 1, tables[i]);
      }
      Seqs.Assoc(HeadLines(doc), [Rule, TablesHeading(|tables|)], Seqs.Chunks(TableLines, tables, |tables|));
    }
    assert lines == HeadLines(doc) + TablesBlock(tables);
    ghost var withTables := lines;
    var figures := doc.figures;
    if figures != [] {
      lines := lines + [Rule, FiguresHeading(|figures|)];
      ghost var head := lines;
      for i := 0 to |figures|
        invariant lines == head + Seqs.Chunks(FigureLines, figures, i)
      {
        Seqs.Assoc(head, Seqs.Chunks(FigureLines, figures, i), FigureLines(i + 1, figures[i]));
        lines := lines + FigureLines(i + 1, figures[i]);
      }
      Seqs.Assoc(withTables, [Rule, FiguresHeading(|figures|)], Seqs.Chunks(FigureLines, figures, |figures|));
    }
    assert lines == MarkdownLines(doc);
    mdName := Stem(fileName) + ".md";
    content := Join(lines, "\n");
  }

  // ---------------------------------------------------------------------------
  // Where each table lands in the file
  // ---------------------------------------------------------------------------

  /** The first line of the tables block: after the header, the metadata line and the body, if any. */
  function TablesStart(doc: SectionDoc): nat
  {
    |HeadLines(doc)|
  }



  /**
   * A section's lines open with the header, then the metadata line, then
   * the body exactly when it is not blank.
   */
  lemma HeadLayout(doc: SectionDoc)
    ensures |HeadLines(doc)| == if Strip(doc.text) != "" then 4 else 2
    ensures MarkdownLines(doc)[0] == HeaderLine(doc.title, doc.level) && MarkdownLines(doc)[1] == MetaLine(doc)
    ensures Strip(doc.text) != "" ==> MarkdownLines(doc)[2] == doc.text
  {
    LinesStart(HeaderLine(doc.title, doc.level), MetaLine(doc), BodyLines(doc.text),
               TablesBlock(doc.tables) + FiguresBlock(doc.figures));
    Seqs.Assoc(HeadLines(doc), TablesBlock(doc.tables), FiguresBlock(doc.figures));
  }

  lemma LinesStart(a: string, b: string, body: seq<string>, rest: seq<string>)
    ensures var lines := [a, b] + body + rest;
            lines[0] == a && lines[1] == b && (body != [] ==> lines[2] == body[0])
  {
  }

  /**
   * A non-empty tables block follows the body, opening with a rule and the
   * table count; table `k` then takes four lines: heading, image link,
   * markdown line and an empty line.
   */
  lemma TableLayout(doc: SectionDoc, k: nat)
    requires k < |doc.tables|
    ensures |MarkdownLines(doc)| >= TablesStart(doc) + 6 + 4 * k
    ensures MarkdownLines(doc)[TablesStart(doc)] == Rule
    ensures MarkdownLines(doc)[TablesStart(doc) + 1] == TablesHeading(|doc.tables|)
    ensures MarkdownLines(doc)[TablesStart(doc) + 2 + 4 * k..TablesStart(doc) + 6 + 4 * k] ==
              TableLines(k + 1, doc.tables[k])
    ensures MarkdownLines(doc)[TablesStart(doc) + 4 + 4 * k] == MarkdownLine(doc.tables[k])
  {
    BlockLayout(HeadLines(doc), doc.tables, FiguresBlock(doc.figures), k);
    Seqs.SliceAt(MarkdownLines(doc), TablesStart(doc) + 2 + 4 * k, TableLines(k + 1, doc.tables[k]), 2);
  }

  /** The same, for any lines before and after the tables block. */
  lemma BlockLayout(head: seq<string>, ts: seq<TableRecord>, rest: seq<string>, k: nat)
    requires k < |ts|
    ensures var lines := head + TablesBlock(ts) + rest;
            |lines| >= |head| + 6 + 4 * k && lines[|head|] == Rule && lines[|head| + 1] == TablesHeading(|ts|) &&
            lines[|head| + 2 + 4 * k..|head| + 6 + 4 * k] == TableLines(k + 1, ts[k])
  {
    var block := TablesBlock(ts);
    BlockTable(ts, k);
    Seqs.SliceMiddle(head, block, rest, 2 + 4 * k, 6 + 4 * k);
    Seqs.SliceMiddle(head, block, rest, 0, 2);
  }

  /** Within the tables block, table `k` follows the rule, the count and the `k` tables before it. */
  lemma BlockTable(ts: seq<TableRecord>, k: nat)
    requires k < |ts|
    ensures |TablesBlock(ts)| == 2 + 4 * |ts|
    ensures TablesBlock(ts)[..2] == [Rule, TablesHeading(|ts|)]
    ensures TablesBlock(ts)[2 + 4 * k..6 + 4 * k] == TableLines(k + 1, ts[k])
  {
    var head := [Rule, TablesHeading(|ts|)];
    var block := head + Seqs.Chunks(TableLines, ts, |ts|);
    assert TablesBlock(ts) == block;
    Seqs.ChunkSlice(head, TableLines, ts, 4, k);
    assert |head| == 2;
    assert block[2 + 4 * k..6 + 4 * k] == TableLines(k + 1, ts[k]);
  }

  /** Without tables there is no tables block: the figures block, if any, follows the body. */
  lemma NoTablesNoBlock(doc: SectionDoc)
    requires doc.tables == []
    ensures MarkdownLines(doc) == HeadLines(doc) + FiguresBlock(doc.figures)
  {
    assert TablesBlock(doc.tables) == [];
    assert HeadLines(doc) + [] == HeadLines(doc);
  }

  // ---------------------------------------------------------------------------
  // Parsed markdown reaches the file
  // ---------------------------------------------------------------------------

  /** A piece contained in one line is contained in the joined text. */
  lemma {:induction false} JoinContains(parts: seq<string>, sep: string, k: nat, sub: string)
    requires k < |parts| && Contains(parts[k], sub)
    ensures Contains(Join(parts, sep), sub)
  {
    if |parts| == 1 {
    } else if k == 0 {
      ContainsExtend("", parts[0], sep + Join(parts[1..], sep), sub);
      assert "" + parts[0] + (sep + Join(parts[1..], sep)) == Join(parts, sep);
    } else {
      JoinContains(parts[1..], sep, k - 1, sub);
      ContainsExtend(parts[0] + sep, Join(parts[1..], sep), "", sub);
      assert parts[0] + sep + Join(parts[1..], sep) + "" == Join(parts, sep);
    }
  }

  lemma ContainsSelf(s: string)
    ensures Contains(s, s)
  {
    assert StartsWith(s[0..], s);
  }

  /**
   * The markdown a table was annotated with appears in the section's
   * Markdown text; a table without it gets the placeholder line.
   */
  lemma TableMarkdownRendered(doc: SectionDoc, k: nat)
    requires k < |doc.tables|
    ensures Truthy(doc.tables[k].tableMd) ==> Contains(Join(MarkdownLines(doc), "\n"), doc.tables[k].tableMd.value)
    ensures !Truthy(doc.tables[k].tableMd) ==>
              |MarkdownLines(doc)| > TablesStart(doc) + 4 + 4 * k &&
              MarkdownLines(doc)[TablesStart(doc) + 4 + 4 * k] == NoMarkdown
  {
    var lines := MarkdownLines(doc);
    var t := TablesStart(doc);
    TableLayout(doc, k);
    if Truthy(doc.tables[k].tableMd) {
      LineContains(lines, t + 4 + 4 * k, doc.tables[k].tableMd.value);
    }
  }


  /** A line holding a piece between two newlines puts the piece into the joined text. */
  lemma LineContains(lines: seq<string>, p: nat, md: string)
    requires p < |lines| && lines[p] == "\n" + md + "\n"
    ensures Contains(Join(lines, "\n"), md)
  {
    ContainsSelf(md);
    ContainsExtend("\n", md, "\n", md);
    JoinContains(lines, "\n", p, md);
  }

  /** A figure gets a description line exactly when its description is truthy. */
  lemma FigureLinesShape(i: nat, f: FigureRecord)
    ensures |FigureLines(i, f)| == if Truthy(f.description) then 4 else 3
    ensures Truthy(f.description) ==> FigureLines(i, f)[2] == f.description.value + "\n"
    ensures FigureLines(i, f)[|FigureLines(i, f)| - 1] == ""
  {
  }

  // ---------------------------------------------------------------------------
  // create_index_md
  // ---------------------------------------------------------------------------

  /** section_index.json as read back: `pdf_name` and `sections` may be missing. */
  datatype IndexDoc = IndexDoc(pdfName: Option<string>, sections: Option<seq<SectionExtractor.IndexEntry>>)

  /** One index entry: indented two spaces per level below 1, linking the entry's file renamed to `.md`. */
  function IndexEntryLine(e: SectionExtractor.IndexEntry): string
  {
    Repeat("  ", e.level - 1) + "- [" + e.title + "](" + ReplaceAll(e.file, ".json", ".md") + ")"
  }

  function IndexEntryLines(es: seq<SectionExtractor.IndexEntry>): (r: seq<string>)
    ensures |r| == |es|
  {
    if es == [] then [] else IndexEntryLines(es[..|es| - 1]) + [IndexEntryLine(es[|es| - 1])]
  }

  function IndexLines(index: IndexDoc): seq<string>
  {
    ["# " + index.pdfName.GetOr("Document") + " Index\n"] + IndexEntryLines(index.sections.GetOr([]))
  }

  /** `create_index_md`: nothing when section_index.json is missing, else the INDEX.md text. */
  method CreateIndexMd(index: Option<IndexDoc>) returns (content: Option<string>)
    ensures index.None? ==> content.None?
    ensures index.Some? ==> content == Some(Join(IndexLines(index.value), "\n"))
  {
    if index.None? {
      return None;
    }
    var data := index.value;
    var lines := ["# " + data.pdfName.GetOr("Document") + " Index\n"];
    var sections := data.sections.GetOr([]);
    for i := 0 to |sections|
      invariant lines == ["# " + data.pdfName.GetOr("Document") + " Index\n"] + IndexEntryLines(sections[..i])
    {
      assert sections[..i + 1][..i] == sections[..i];
      lines := lines + [IndexEntryLine(sections[i])];
    }
    assert sections[..|sections|] == sections;
    content := Some(Join(lines, "\n"));
  }

  /** The spaces a run of `n` two-space indents adds, before a line that starts otherwise. */
  lemma {:induction false} LeadingIndent(n: int, rest: string)
    requires rest == [] || rest[0] != ' '
    ensures LeadingRun(Repeat("  ", n) + rest, ' ') == if n <= 0 then 0 else 2 * n
    decreases n
  {
    if n > 0 {
      LeadingIndent(n - 1, rest);
      var s := Repeat("  ", n) + rest;
      assert s == "  " + (Repeat("  ", n - 1) + rest);
      assert s[1..][1..] == Repeat("  ", n - 1) + rest;
    }
  }

  /** An entry of level `l` is indented by 2(l - 1) spaces, then the list item starts. */
  lemma IndexEntryIndent(e: SectionExtractor.IndexEntry)
    ensures LeadingRun(IndexEntryLine(e), ' ') == if e.level <= 1 then 0 else 2 * (e.level - 1)
    ensures StartsWith(IndexEntryLine(e)[LeadingRun(IndexEntryLine(e), ' ')..], "- [")
  {
    var rest := "- [" + e.title + "](" + ReplaceAll(e.file, ".json", ".md") + ")";
    assert IndexEntryLine(e) == Repeat("  ", e.level - 1) + rest;
    LeadingIndent(e.level - 1, rest);
    RepeatLength("  ", e.level - 1);
  }

  /** Replacing ".json" in a name without dots followed by ".json" gives the name followed by ".md". */
  lemma {:induction false} ReplaceJsonSuffix(p: string)
    requires '.' !in p
    ensures ReplaceAll(p + ".json", ".json", ".md") == p + ".md"
    decreases |p|
  {
    if p == [] {
      assert (p + ".json")[..5] == ".json";
      assert (p + ".json")[5..] == "";
    } else {
      var s := p + ".json";
      ReplaceJsonSuffix(p[1..]);
      assert s[1..] == p[1..] + ".json";
      assert s[..5][0] == p[0] && p[0] != '.';
      assert ReplaceAll(s, ".json", ".md") == [p[0]] + ReplaceAll(s[1..], ".json", ".md");
      assert [p[0]] + (p[1..] + ".md") == p + ".md";
    }
  }

  /** A section file name is ".json" after a stem without dots. */
  lemma SectionFileStem(index: nat, sectionId: string)
    ensures var p := "section_" + Pad3(index) + "_" + ReplaceChar(sectionId, '.', '_');
            SectionExtractor.SectionFileName(index, sectionId) == p + ".json" && '.' !in p && |p| > 8
  {
    var p := "section_" + Pad3(index) + "_" + ReplaceChar(sectionId, '.', '_');
    Pad3Value(index);
    assert forall k :: 0 <= k < |p| ==> p[k] != '.' by {
      forall k | 0 <= k < |p|
        ensures p[k] != '.'
      {
        if 8 <= k < 8 + |Pad3(index)| {
          assert p[k] == Pad3(index)[k - 8];
        } else if k > 8 + |Pad3(index)| {
          assert p[k] == ReplaceChar(sectionId, '.', '_')[k - 9 - |Pad3(index)|];
        }
      }
    }
  }

  /**
   * The link the index writes for a section file is the name of the
   * Markdown file the converter writes for that same section file.
   */
  lemma IndexLinksConvertedFile(index: nat, sectionId: string)
    ensures var name := SectionExtractor.SectionFileName(index, sectionId);
            ReplaceAll(name, ".json", ".md") == Stem(name) + ".md"
  {
    var name := SectionExtractor.SectionFileName(index, sectionId);
    var p := "section_" + Pad3(index) + "_" + ReplaceChar(sectionId, '.', '_');
    SectionFileStem(index, sectionId);
    ReplaceJsonSuffix(p);
    assert RFind(name, '.') == |p| by {
      assert name[|p|] == '.';
      assert forall k :: |p| < k < |name| ==> name[k] != '.';
      assert name[..|p|] == p;
    }
    assert Stem(name) == p;
  }
}
