/**
 * The section records written by `step2_section_extractor.py` (one JSON
 * file per table-of-contents entry) and read back, annotated and rewritten
 * by the later steps: the table and figure entries and the section itself.
 */
module SectionRecords {
  import opened Wrappers
  import opened PageLayouts

  /**
   * A table entry. `markdown` is written as None by the extractor and set
   * by the restore script; `tableMd` is absent until the table parser
   * annotates the table.
   */
  datatype TableRecord = TableRecord(
    tableId: string,
    title: Option<string>,
    page: int,
    bbox: BBox,
    imagePath: string,
    markdown: Option<string>,
    tableMd: Option<string>)

  datatype FigureRecord = FigureRecord(
    figureId: string,
    title: Option<string>,
    page: int,
    bbox: BBox,
    imagePath: string,
    description: Option<string>)

  /** The `pages` object: start, end and the page count end - start + 1. */
  datatype PageSpan = PageSpan(start: int, end: int, count: int)

  /** The JSON object of one section file. */
  datatype SectionDoc = SectionDoc(
    sectionIndex: int,
    sectionId: string,
    title: string,
    level: int,
    pages: PageSpan,
    text: string,
    tables: seq<TableRecord>,
    figures: seq<FigureRecord>,
    tableCount: int,
    figureCount: int)

  /** A section file in the output directory: its name and its contents. */
  datatype SectionFile = SectionFile(name: string, doc: SectionDoc)

  /** The name of the index file every later step skips. */
  const IndexFileName: string := "section_index.json"

  /** Python truthiness of an optional string: present and non-empty. */
  predicate Truthy(s: Option<string>)
  {
    s.Some? && s.value != ""
  }
}
