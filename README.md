# PDF section and table extraction — a Dafny model

The pipeline reads a technical PDF, decides a parsing strategy per page,
links tables that continue across pages, cuts the document into sections
along its table of contents, collects each section's tables and figures,
asks a vision model for table markdown, and finally renders sections as
Markdown, builds navigation trees and summary units.

This project models the deterministic core of that pipeline. Every
PyMuPDF, OCR and LLM result is an input record or a function parameter,
and file I/O becomes values in and values out. It covers:

- the page strategy and continuation rules of the two fitz layout
  analyzers, and the VLLM continuation gate;
- section boundaries: section ids, end pages, the line-stream text scan
  and the page/y cursor that collects tables and figures (also its
  y-range variant);
- table grouping by title and the per-group annotation, the Markdown
  header parser and table merger, and the cell serialiser;
- the level-stack section forest of the library server, and the
  dotted-id tree with summary units of the summary generator;
- the Markdown renderer of section files and of the index, the DeepSeek
  layout-token parser and token stripper, the image-height chunking and
  stitching of the LLM client, and the markdown backup/restore scripts.

Each module follows one source file:

| module | source |
|---|---|
| `PageLayouts` (page_layouts.dfy) | shared page/table records, `_is_simple_table`, `_decide_strategies`, `get_header_info`, `_get_statistics` |
| `FitzLayout` | fitz_layout_analyzer.py |
| `StructuralLayout` | backup_step1_layout_analyzer_v1_fitz.py |
| `VllmVerifier` | etc/vllm_continuation_verifier.py |
| `LayoutHelper` | layout_helper.py |
| `TableMerger` | table_merger.py |
| `TableGrouping` | step4_llm_parser.py |
| `SectionRecords`, `SectionExtractor` | step2_section_extractor.py |
| `YCollection` | test_y_based_collection.py |
| `SummaryGeneration` | step7_summary_generator.py |
| `SectionTree` | ssd_eng_library/server.py |
| `MarkdownConverter` | step5_markdown_converter.py |
| `DeepseekLayout` | step1_layout_analyzer.py |
| `CleanTokens` | deepseek_api/deepseek_clean_tokens.py |
| `LlmClient` | lib_llm_client.py |
| `MarkdownBackup`, `MarkdownRestore` | backup_markdown.py, restore_markdown.py |
| `Wrappers`, `Strings`, `Seqs` | Option, Python string operations, sequence lemmas |

Loops in the source stay loops: each such method is proved against a
specification function, and the properties are lemmas about that
function. Objects whose fields the source updates in place (the layout
analyzers, the summary generator) are classes.

## Model

| member | source | states |
|---|---|---|
| TableMerger.ExtractTableHeader | table_merger.py:11-31 | None exactly when the stripped text has fewer than two lines or its stripped first line does not start with a pipe; otherwise every header cell is stripped and holds no pipe |
| TableMerger.HeaderCellsClean | table_merger.py:30 | the cells between the first and last pipe are stripped and hold no pipe |
| TableMerger.MergeTables | table_merger.py:34-62 | a merge succeeds exactly when the first header is present and non-empty and both headers are equal |
| TableMerger.LinesOfMerge | table_merger.py:56-62 | joining the first table's lines with the second's data lines and splitting again gives exactly those lines |
| TableMerger.MergedLines | table_merger.py:56-62 | a merge has all lines of the first table then the second's lines from index 2, so n1 + n2 - 2 lines |
| TableMerger.MergedHeader | table_merger.py:56-62 | a merge keeps the first table's header and separator lines |
| TableMerger.MergeAssociative | table_merger.py:34-62 | when both inner merges succeed, merge(merge(a,b),c) succeeds and equals merge(a,merge(b,c)) |
| TableMerger.RowLineCells | layout_helper.py:148 | parsing a serialised row line gives back its stripped cells when no cell holds a pipe |
| LayoutHelper.CellsToMarkdown | layout_helper.py:139-155 | "" when there are no rows or the header row is empty; otherwise the header line, the separator and one line per data row joined by newlines |
| LayoutHelper.MarkdownLines | layout_helper.py:144-155 | one line more than there are rows |
| LayoutHelper.RowLineEnds | layout_helper.py:148-153 | every row line starts and ends with a pipe |
| LayoutHelper.MarkdownLinesRoundTrip | layout_helper.py:144-155 | with no newline in any cell, the output splits back into exactly its len(cells)+1 lines, data rows in order |
| LayoutHelper.SeparatorForm | layout_helper.py:149 | the separator is a pipe followed by "---" and a pipe once per header cell |
| LayoutHelper.HeaderRoundTrip | layout_helper.py:139-155 | the table merger's header parser reads the stripped header cells back from the output when no header cell holds a pipe or a newline |
| LayoutHelper.MergeSerialised | table_merger.py:106-127 | two serialised tables with the same header row merge into the serialisation of the first followed by the second's data rows |
| LayoutHelper.GetPageStrategy | layout_helper.py:35-40 | the stored strategy of page_num - 1, 'unknown' for an absent page |
| LayoutHelper.GetPreviousPage | layout_helper.py:42-52 | present exactly for continuation pages, and then the stored previous index plus one |
| LayoutHelper.PreviousPageIsPageBefore | layout_helper.py:47-52 | with the analyzer's continuation map (k to k - 1), the previous page of a continuation page is the page before it |
| LayoutHelper.SortInts | layout_helper.py:163 | `sorted`: ascending and a permutation |
| LayoutHelper.KeyPagesMembers | layout_helper.py:159-162 | a number is collected exactly when it is one past a key with the strategy |
| LayoutHelper.KeyPagesOnce | layout_helper.py:159-162 | distinct keys give each page number once |
| LayoutHelper.GetPagesByStrategy | layout_helper.py:157-163 | strictly ascending 1-based numbers of exactly the pages with the strategy, one each |
| LayoutHelper.SortedKeyPages | layout_helper.py:157-163 | sorting the collected numbers gives each matching page once, strictly ascending |
| PageLayouts.IsSimpleTable | fitz_layout_analyzer.py:174-193 | false for no rows, an empty first row or no cells; a simple table has fewer than 30% blank cells |
| PageLayouts.SimpleIffRatio | fitz_layout_analyzer.py:188-193 | the cross-multiplied test agrees with the ratio test empty / total < 0.3 on every table with cells |
| PageLayouts.FullTableIsSimple | fitz_layout_analyzer.py:174-193 | a table with a non-empty first row and no blank cell is simple |
| PageLayouts.BlankTableNotSimple | fitz_layout_analyzer.py:174-193 | a table of blank cells only is never simple |
| PageLayouts.DecideStrategy | fitz_layout_analyzer.py:255-276 | a non-continuation page is 'fitz-only' exactly when it has no image and either text without tables or only simple tables, and 'qwen-simple' otherwise |
| PageLayouts.DecideStrategies | fitz_layout_analyzer.py:255-276 | each page gets its decided strategy unless it is already 'qwen-continuation', which it keeps; nothing else changes and no page is left 'unknown' |
| PageLayouts.HeaderInfoOf | fitz_layout_analyzer.py:278-297 | None exactly for an unknown page, a page without tables or a last table without rows; otherwise the last table's first row, column count and box |
| PageLayouts.GetStatistics | fitz_layout_analyzer.py:320-333 | page, table, image and continuation counts, and a per-strategy count keyed by exactly the strategies that occur |
| PageLayouts.StrategyCountsSum | fitz_layout_analyzer.py:320-333 | the strategy counts add up to the number of pages |
| FitzLayout.WidthsDifferCross | fitz_layout_analyzer.py:238-243 | the width rule is the same as: more than 30pt apart and five times the difference above the wider width |
| FitzLayout.IsContinuationIff | fitz_layout_analyzer.py:208-253 | a continuation exactly when both pages have tables, the current first table starts at most 200pt down, has at most 15 rows, is within 20pt horizontally and of similar width, and a previous table of fewer than 3 rows is met only by one of at most 2 rows |
| FitzLayout.ContinuationShiftInvariant | fitz_layout_analyzer.py:208-253 | moving both pages' tables sideways by the same amount keeps the verdict |
| FitzLayout.SameTableContinues | fitz_layout_analyzer.py:208-253 | a table that carries on at the top of the next page with the same left edge and width and 3 to 15 rows is a continuation |
| FitzLayout.ContinuationKeys | fitz_layout_analyzer.py:195-206 | page 0 is never a continuation; every key k lies in 1..n-1, maps to k - 1 and both pages have tables |
| FitzLayout.FitzLayoutAnalyzer.constructor | fitz_layout_analyzer.py:70-74 | an analyzer starts with no layouts and no continuations |
| FitzLayout.FitzLayoutAnalyzer.DetectContinuations | fitz_layout_analyzer.py:195-206 | k is a key exactly when page k continues page k - 1, and maps to k - 1 |
| FitzLayout.FitzLayoutAnalyzer.AnalyzeAllPages | fitz_layout_analyzer.py:76-112 | the stored continuations are the detected ones; every continuation page is 'qwen-continuation' and every other page has its decided strategy |
| FitzLayout.AnalyzedStrategies | fitz_layout_analyzer.py:76-112 | after the analysis no page is 'unknown', and the 'qwen-continuation' pages are exactly the detected ones |
| StructuralLayout.NonEmptyColumnCount | backup_step1_layout_analyzer_v1_fitz.py:357-370 | 0 for a table without rows, otherwise at most the header width |
| StructuralLayout.NonBlankPlusBlank | backup_step1_layout_analyzer_v1_fitz.py:357-370 | every header cell is counted either here or as blank by the simple-table test |
| StructuralLayout.TextBetweenSeparates | backup_step1_layout_analyzer_v1_fitz.py:372-412 | meaningful text below the previous table rules a continuation out |
| StructuralLayout.SameHeaderContinues | backup_step1_layout_analyzer_v1_fitz.py:320-355 | equal non-blank header counts and no meaningful text between the tables make a continuation |
| StructuralLayout.FewerBlocksKeepContinuation | backup_step1_layout_analyzer_v1_fitz.py:320-412 | removing text blocks from either page never breaks a continuation |
| StructuralLayout.CandidatesComeFromBlocks | backup_step1_layout_analyzer_v1_fitz.py:187-284 | every title candidate is built from a block that passes the band, distance, overlap and "Table X -" tests |
| StructuralLayout.CandidateBlocksListed | backup_step1_layout_analyzer_v1_fitz.py:187-284 | every block that passes those tests yields a candidate |
| StructuralLayout.ClosestIsLeast | backup_step1_layout_analyzer_v1_fitz.py:274-278 | the chosen candidate is one of them and no other is nearer |
| StructuralLayout.ClosestIsFirst | backup_step1_layout_analyzer_v1_fitz.py:274-278 | the stable sort makes ties go to the first candidate |
| StructuralLayout.ExtractTableTitle | backup_step1_layout_analyzer_v1_fitz.py:187-284 | the loop returns the specified title |
| StructuralLayout.TitleNoneIff | backup_step1_layout_analyzer_v1_fitz.py:187-284 | no title exactly when the table is a continuation or no candidate block lies within 50pt of the table |
| StructuralLayout.TitleShape | backup_step1_layout_analyzer_v1_fitz.py:187-284 | a title is 3 to 100 characters, starts with "table " in lower case and holds '-' |
| StructuralLayout.TitleIsClosestCandidate | backup_step1_layout_analyzer_v1_fitz.py:187-284 | a title is the stripped text of the candidate block nearest the table, within 50pt |
| StructuralLayout.MarkContinuationPage | backup_step1_layout_analyzer_v1_fitz.py:106-113 | a continuation page becomes 'qwen-continuation' with every table title cleared |
| StructuralLayout.MarkContinuationPages | backup_step1_layout_analyzer_v1_fitz.py:106-113 | every detected page from the second on is marked as a continuation and every other page is kept |
| StructuralLayout.ClearTableTitles | backup_step1_layout_analyzer_v1_fitz.py:111-113 | every table's title is None and nothing else changes |
| StructuralLayout.StructuralLayoutAnalyzer.constructor | backup_step1_layout_analyzer_v1_fitz.py:72-76 | an analyzer starts with no layouts and no continuations |
| StructuralLayout.StructuralLayoutAnalyzer.DetectContinuations | backup_step1_layout_analyzer_v1_fitz.py:307-318 | k is a key exactly when page k continues page k - 1 under the structural test, and maps to k - 1 |
| StructuralLayout.StructuralLayoutAnalyzer.AnalyzeAllPages | backup_step1_layout_analyzer_v1_fitz.py:78-118 | every page becomes its analyzed layout: continuation pages marked and untitled, the others with their decided strategy |
| StructuralLayout.AnalyzedPages | backup_step1_layout_analyzer_v1_fitz.py:78-118 | marking the detected pages, then deciding the strategies, gives every page its analyzed layout and keeps every layout well formed |
| StructuralLayout.ContinuationPagesUntitled | backup_step1_layout_analyzer_v1_fitz.py:106-113 | no table on a continuation page keeps a title, and no table is dropped |
| VllmVerifier.TitleAtStart | etc/vllm_continuation_verifier.py:44-79 | a text that opens with "Table", a space and a digit, in any case, has a title |
| VllmVerifier.PluralNotTitle | etc/vllm_continuation_verifier.py:44-79 | "Tables 3" has no title: the keyword must be followed by whitespace |
| VllmVerifier.FindCandidates | etc/vllm_continuation_verifier.py:264-339 | the loop returns the specified candidates |
| VllmVerifier.CandidateShape | etc/vllm_continuation_verifier.py:264-339 | each candidate pairs a page with the one before, names the last and first tables, carries the confidence rule's verdict, and pages ascend |
| VllmVerifier.DetectorPassesGate | etc/vllm_continuation_verifier.py:297-312 | every pair the positional detector accepts passes the candidate filter |
| VllmVerifier.GateLooserThanDetector | etc/vllm_continuation_verifier.py:297-312 | a pair that fails only the detector's previous-row rule is rejected by the detector yet still a candidate |
| VllmVerifier.ReadAnswer | etc/vllm_continuation_verifier.py:244-262 | a JSON answer's field values, whatever their JSON type, with defaults False, 'low' and ''; otherwise "true" or "yes" anywhere in the lower-cased text, with 'low' confidence |
| VllmVerifier.UnparsableNeverAccepted | etc/vllm_continuation_verifier.py:244-262 | an answer that is not JSON is never accepted |
| VllmVerifier.JsonAccepted | etc/vllm_continuation_verifier.py:385-389 | a JSON answer is accepted exactly when its is_continuation is present and truthy and its confidence is the string 'high' or 'medium' |
| VllmVerifier.TruthyNotBoolean | etc/vllm_continuation_verifier.py:247 | acceptance tests Python truthiness: the string "false" is accepted with 'high' confidence, 0 and an empty list are not |
| VllmVerifier.WithoutTitle | etc/vllm_continuation_verifier.py:366-367 | exactly the candidates without a title are kept |
| VllmVerifier.VerifyContinuations | etc/vllm_continuation_verifier.py:341-389 | the loop returns the current pages of the accepted candidates, in order |
| VllmVerifier.AcceptedPagesFromCandidates | etc/vllm_continuation_verifier.py:341-389 | every verified page is the current page of a candidate with an accepted answer, and there are no more pages than candidates |
| VllmVerifier.NoTitledPageVerified | etc/vllm_continuation_verifier.py:366-389 | with only_no_title, every verified page comes from an accepted candidate without a title |
| SectionExtractor.ExtractSectionId | step2_section_extractor.py:167-172 | a non-empty id is a prefix of the title made of digits and dots and followed by whitespace |
| SectionExtractor.ExtractSectionIdMatch | step2_section_extractor.py:167-172 | any non-empty run of digits and dots followed by whitespace is the id |
| SectionExtractor.NoIdWithoutSpace | step2_section_extractor.py:167-172 | a title where no whitespace follows a leading run of digits and dots has the id "" |
| SectionExtractor.ComputeEndPages | step2_section_extractor.py:373-378 | every section gets its end page in place, and nothing else changes |
| SectionExtractor.EndPageBounds | step2_section_extractor.py:373-378 | every section but the last spans at least one page and ends before the next one starts when that one starts later |
| SectionExtractor.SectionsDoNotOverlap | step2_section_extractor.py:373-378 | when start pages increase strictly, each section ends before the next one starts |
| SectionExtractor.FindTextBetweenSections | step2_section_extractor.py:174-221 | the page-by-page loop with its early return yields the lines the line scan collects, joined by newlines |
| SectionExtractor.CollectLines | step2_section_extractor.py:185-219 | the page loop collects the lines the line scan collects over the pages from the start page to the end page |
| SectionExtractor.ScanPageLines | step2_section_extractor.py:198-219 | the inner loop over one page's lines: its early return is the scan ending, otherwise the scan of the later pages continues from the new state |
| SectionExtractor.NoIdNoText | step2_section_extractor.py:174-221 | a title without an id collects no text |
| SectionExtractor.ScanEmptyIff | step2_section_extractor.py:174-221 | no text exactly when the id is empty or no line contains it |
| SectionExtractor.ScanIsRun | step2_section_extractor.py:174-221 | any text collected is the contiguous run of lines from the first line containing the current id up to, not including, the next line containing the next id |
| SectionExtractor.GetTablesInSection | step2_section_extractor.py:245-318 | the page cursor with its early returns yields the specified tables; their drop at the next heading and their completeness are the lemmas below |
| SectionExtractor.ScanPageTables | step2_section_extractor.py:276-308 | the inner loop over one page's tables appends that page's records and reports whether a table ended the section |
| SectionExtractor.CollectedTables | step2_section_extractor.py:245-318 | every collected table comes from a page with a layout entry inside the page budget, is not above the heading on the start page, and is above the next heading on the next section's page |
| SectionExtractor.StopsAtNextPage | step2_section_extractor.py:245-318 | when the next section's page has a layout entry, no table from a later page is collected |
| SectionExtractor.KeptMember | step2_section_extractor.py:282-284 | every table not above the heading on the start page is among the page's kept records |
| SectionExtractor.ScanPageKeepsAll | step2_section_extractor.py:277-302 | a page with no table ending the collection gives its kept tables, in order, and does not stop |
| SectionExtractor.ScanPageDrops | step2_section_extractor.py:277-291 | when a table is the first that ends the collection, the page gives exactly the kept tables before it and stops |
| SectionExtractor.ScanPageHas | step2_section_extractor.py:277-302 | a kept table before the first one that ends the collection is among the page's records |
| SectionExtractor.DroppedAtNextHeading | step2_section_extractor.py:287-291 | from a page whose first table at or below the next heading is the i-th, the cursor collects exactly the kept tables before it: that table and every later one of the page are dropped |
| SectionExtractor.NoEntryNoEndTest | step2_section_extractor.py:265-268 | a page without a layout entry makes no end test, even at or past the next section's page |
| SectionExtractor.CollectUpTo | step2_section_extractor.py:262-316 | before the next section's page, the cursor collects the kept tables of every page in the budget with a layout entry, page after page, and goes on |
| SectionExtractor.EligibleCollected | step2_section_extractor.py:262-316 | every table of a page with a layout entry, in the budget and before the next section's page, is collected unless it lies above the heading on the start page |
| SectionExtractor.CollectAtNextPage | step2_section_extractor.py:309-310 | on the next section's page, when it has a layout entry, the cursor ends with that page's records |
| SectionExtractor.NextPageKeepsPrefix | step2_section_extractor.py:277-310 | on the next section's page, a kept table before the first one ending the collection is collected from that page |
| SectionExtractor.EligibleOnNextPage | step2_section_extractor.py:262-310 | on the next section's page, every kept table before the first one at or below the heading is collected |
| SectionExtractor.ImagePathNamesPage | step2_section_extractor.py:300 | the page number can be read back from a table's image name |
| SectionExtractor.FigureRecordsFrom | step2_section_extractor.py:326-348 | one record per figure of the page, each on that page and built from its entry |
| SectionExtractor.AppendPageFigures | step2_section_extractor.py:330-348 | the inner loop appends exactly the records of the page's figures |
| SectionExtractor.GetFiguresInSection | step2_section_extractor.py:320-350 | the figures of the pages from start to end page, page by page |
| SectionExtractor.FiguresInRange | step2_section_extractor.py:320-350 | every figure lies on a section page whose layout entry has has_figure, and has no description yet |
| SectionExtractor.ToDoc | step2_section_extractor.py:77-98 | the page count is at least 1 exactly when the end page is not before the start page, and the table and figure counts are the list lengths |
| SectionExtractor.SectionFileNameIndex | step2_section_extractor.py:445 | the TOC index can be read back from a section file name, and no section file is named like the index file |
| SectionExtractor.SectionFileNamesDistinct | step2_section_extractor.py:445 | different sections (below 1000) are written to different files |
| SectionExtractor.BuildSectionInfos | step2_section_extractor.py:362-378 | the section list built from the TOC and given end pages in place |
| SectionExtractor.ExtractSection | step2_section_extractor.py:392-449 | one iteration of the section loop writes the specified file |
| SectionExtractor.ExtractAllSections | step2_section_extractor.py:352-472 | one file per TOC entry in TOC order, and one index entry per section |
| SectionExtractor.SectionFilesNamed | step2_section_extractor.py:352-472 | section i is written under its indexed name with its index, title, level and start page, spans at least one page unless it is last, the index entry names the same file, and with at most 1000 sections no two files share a name |
| YCollection.LateStop | test_y_based_collection.py:123-130 | a table above the next heading on the next section's page lets the as-written cursor take every table of the following page too |
| YCollection.GetTablesByYRange | test_y_based_collection.py:68-133 | the corrected cursor loop yields the tables collected up to and including the next section's page; its drop and completeness are the lemmas below |
| YCollection.ScanYDrops | test_y_based_collection.py:101-110 | when a table is the first at or below the next heading, the page gives exactly the tables before it and stops |
| YCollection.TablesDroppedAtHeading | test_y_based_collection.py:107-110 | from a scanned page whose first table at or below the heading is the i-th, both cursors collect exactly the tables before it: that table and every later one of the page are dropped |
| YCollection.PageBeforeNext | test_y_based_collection.py:87-131 | before the next section's page, both cursors take every table of a scanned page and go on |
| YCollection.CollectThroughPages | test_y_based_collection.py:87-131 | before the next section's page, the corrected cursor collects every table of every scanned page in the budget, page after page |
| YCollection.CollectAsWrittenThroughPages | test_y_based_collection.py:87-131 | the same completeness for the cursor as written |
| YCollection.TableCollectedBefore | test_y_based_collection.py:87-121 | every table of a scanned page in the budget before the next section's page is collected by both cursors |
| YCollection.ScanYHas | test_y_based_collection.py:101-121 | a table before the first one at or below the heading is among the page's records |
| YCollection.NextPageRecords | test_y_based_collection.py:123-130 | on the next section's page the corrected cursor ends with that page's records, and the as-written cursor's result starts with them |
| YCollection.TableCollectedOnNextPage | test_y_based_collection.py:101-121 | on the next section's page, every table before the first one at or below the heading is collected by both cursors |
| YCollection.SkippedPageNoEndTest | test_y_based_collection.py:90-98 | as written, a page without a layout entry or without tables makes no end test; the corrected cursor stops on it at or past the next section's page |
| YCollection.ScannedPastNextLast | test_y_based_collection.py:128-130 | as written, a scanned page past the next section's page is the last one collected from |
| YCollection.AtMostOnePageLate | test_y_based_collection.py:123-130 | as written, every collected table from beyond the next section's page comes from one and the same page |
| YCollection.CorrectedIsPrefix | test_y_based_collection.py:123-130 | the corrected cursor's tables open the as-written cursor's: the fix only cuts the collection short |
| YCollection.ScanPageY | test_y_based_collection.py:101-121 | the inner loop over one page's tables appends its records and reports whether a table at or below the next heading ended the collection |
| YCollection.ScanYAll | test_y_based_collection.py:101-121 | a page with no table at or below the next heading gives all its tables, in order |
| YCollection.StartPageTablesFirst | test_y_based_collection.py:68-133 | every table of the start page is taken first when the next section starts elsewhere: there is no start-y filter |
| YCollection.NoTableAfterNextPage | test_y_based_collection.py:123-130 | no table from a page after the next section's page is collected |
| YCollection.CollectedFromTablePages | test_y_based_collection.py:68-133 | every collected table comes from a page with tables, inside the page budget, and on the next section's page lies above the next heading |
| YCollection.CollectedWithinBudget | test_y_based_collection.py:87 | every collected table lies within max_pages of the start page |
| YCollection.AgreeBeforeNextPage | test_y_based_collection.py:123-130 | when every table of the next section's page lies at or below its heading, the corrected cursor and the cursor as written agree |
| TableGrouping.GroupTablesByTitle | step4_llm_parser.py:20-53 | the one-pass loop builds the grouping defined table by table |
| TableGrouping.GroupsOfIsGrouping | step4_llm_parser.py:20-53 | the groups give back the tables in order, each is non-empty with every later table joining its title (equal or missing), and each group after the first starts with a table that does not join the one before |
| TableGrouping.GroupingUnique | step4_llm_parser.py:20-53 | any grouping with those three properties is the one the function returns |
| TableGrouping.AddTableKeepsGrouping | step4_llm_parser.py:37-47 | one more table extends the last group or opens a new one, and the result is again a grouping |
| TableGrouping.RegroupIdempotent | step4_llm_parser.py:20-53 | regrouping the tables of the groups gives the same groups |
| TableGrouping.AnnotateGroup | step4_llm_parser.py:139-144 | the loop writes the specified table_md values on the group |
| TableGrouping.AnnotatedFields | step4_llm_parser.py:139-144 | the first table gets the whole markdown and every other one the continuation note naming the group title; length and all other fields are kept |
| TableGrouping.ParseSectionTables | step4_llm_parser.py:56-157 | no tables means no change and no rewrite; otherwise each group is skipped, annotated or left as answered, and the file is rewritten exactly when some group was annotated |
| TableGrouping.ProcessGroups | step4_llm_parser.py:93-151 | the group loop gives every group its specified result, in order, and counts the groups that were annotated |
| TableGrouping.ProcessGroup | step4_llm_parser.py:94-151 | one group is skipped when already parsed, annotated when the answer is non-empty, else left as it was, and reported updated only when annotated |
| TableGrouping.ResultsKeepFields | step4_llm_parser.py:90-146 | processing the groups changes no field but table_md |
| TableGrouping.OnlyMarkdownChanges | step4_llm_parser.py:56-157 | the section keeps the same tables in the same order, with every field but table_md as it was |
| SectionTree.PopToLevel | ssd_eng_library/server.py:86-87 | the loop pops exactly the entries of level at least the row's |
| SectionTree.BuildForest | ssd_eng_library/server.py:81-102 | the stack pass gives the specified roots and, for every row, its children in row order |
| SectionTree.PlaceRow | ssd_eng_library/server.py:88-99 | placing row i pops the stack to the nearest shallower row and pushes i, keeping the stack, the roots and every child list equal to their specified values after i + 1 rows |
| SectionTree.StackPush | ssd_eng_library/server.py:86-97 | the popped stack's top is the row's parent, and the row is pushed on it |
| SectionTree.StackFindsNearest | ssd_eng_library/server.py:81-99 | popping the stack to any level leaves on top the last earlier row below that level |
| SectionTree.PopWhileTwice | ssd_eng_library/server.py:86-87 | popping to a level and then to a lower one is popping to the lower one |
| SectionTree.NearestBelowSpec | ssd_eng_library/server.py:78-80 | the row found has a smaller level and no later row before k does; None means no earlier row has one |
| SectionTree.ParentIsNearestSmaller | ssd_eng_library/server.py:78-99 | each row hangs under the nearest preceding row of strictly smaller level, and is a root exactly when there is none |
| SectionTree.StackLevels | ssd_eng_library/server.py:81-99 | levels on the stack strictly increase from bottom to top |
| SectionTree.ChildStep | ssd_eng_library/server.py:93-96 | appending a row to its parent's list keeps every list up to date and the roots as they are |
| SectionTree.RootStep | ssd_eng_library/server.py:89-91 | a root is appended to the roots and changes no children list |
| SectionTree.EveryRowOnce | ssd_eng_library/server.py:81-102 | every row appears exactly once: as a root exactly when it has no parent, else only in its parent's list, and its parent comes before it |
| SectionTree.ListsInRowOrder | ssd_eng_library/server.py:81-102 | roots and children lists keep the row order |
| SectionTree.PreorderIsRowOrder | ssd_eng_library/server.py:57-101 | a preorder walk of the returned forest gives every row once, in section_index order |
| SectionTree.SubtreeRange | ssd_eng_library/server.py:83-99 | the subtree of a row is the run of rows from it up to the next row at the same or a shallower level, in order |
| SectionTree.ChildrenRange | ssd_eng_library/server.py:83-99 | the subtrees of a node's children, one after the other, cover the rows of its subtree after it |
| SectionTree.NextSibling | ssd_eng_library/server.py:83-99 | the row after a child's subtree, if still inside the parent's subtree, is the parent's next child |
| SectionTree.NotParentAfter | ssd_eng_library/server.py:88-97 | no row after a subtree hangs under the subtree's root |
| SummaryGeneration.LastMdFromSpec | step7_summary_generator.py:33 | the search for ".md" finds the last one at or below its bound, and None means there is none |
| SummaryGeneration.ParseNameOf | step7_summary_generator.py:29-39 | a name the pipeline writes ("digits_id_title.md", id without '_') reads back as the digits' value, the id and the title |
| SummaryGeneration.ParseNameShape | step7_summary_generator.py:33-39 | a parsed name is digits with the sort index as their value, '_', a non-empty id without '_', '_', a non-empty one-line title and ".md" at the start of the name |
| SummaryGeneration.LoadedFromFiles | step7_summary_generator.py:29-57 | every loaded section comes from a matching file, with the parsed index, id and title, depth one more than the id's dots, and the file's content |
| SummaryGeneration.FilesAreLoaded | step7_summary_generator.py:29-57 | every matching file gives a loaded section |
| SummaryGeneration.SortByIdxSpec | step7_summary_generator.py:60 | the sort orders by sort_idx and is a permutation |
| SummaryGeneration.SortByIdxStable | step7_summary_generator.py:60 | sections of equal sort_idx keep their listing order, as Python's stable sort does |
| SummaryGeneration.IdIndexSpec | step7_summary_generator.py:66 | the id map holds exactly the sections' ids, each at the last section carrying it |
| SummaryGeneration.IndexIds | step7_summary_generator.py:66 | the loop builds that id map |
| SummaryGeneration.ParentOfSpec | step7_summary_generator.py:70-78 | a parent has the child's id up to its last dot and is the last such section; a section is a root exactly when its id has no dot or no section has its parent id |
| SummaryGeneration.ParentIdDots | step7_summary_generator.py:71 | a parent id has one dot fewer than the id |
| SummaryGeneration.ParentOneLevelUp | step7_summary_generator.py:42-75 | a child is one level deeper than its parent |
| SummaryGeneration.BuildTree | step7_summary_generator.py:70-78 | the loop gives the specified roots and, for each section, its children in order |
| SummaryGeneration.ForestOnce | step7_summary_generator.py:70-78 | every section appears exactly once: as a root when it has no parent, else only among its parent's children |
| SummaryGeneration.RootsIncreasing | step7_summary_generator.py:70-78 | roots keep the section order, so none is listed twice |
| SummaryGeneration.ChildrenIncreasing | step7_summary_generator.py:70-78 | children keep the section order, so none is listed twice |
| SummaryGeneration.MergeUnits | step7_summary_generator.py:83-109 | the loop that rolls the open unit returns the specified units |
| SummaryGeneration.UnitTargets | step7_summary_generator.py:86-98 | exactly one unit is opened per section of depth at most 2, in order |
| SummaryGeneration.UnitsWellFormed | step7_summary_generator.py:86-107 | every unit has a target of depth at most 2, deeper sub-sections, and the text "# id title" of the target followed by one "## id title" block per sub-section in order |
| SummaryGeneration.ScanNone | step7_summary_generator.py:99-103 | no unit is open exactly while every section so far is deeper than 2 |
| SummaryGeneration.UnitsCover | step7_summary_generator.py:83-109 | the leading deep sections, then each unit's target and sub-sections, give back all sections in order: nothing is lost or reordered |
| SummaryGeneration.ShortTextRule | step7_summary_generator.py:121-172 | a unit whose stripped text is under 50 characters gets the fixed text whatever the model says; otherwise the model's reply or the failure text; the id, file and sub-section ids come from the unit |
| SummaryGeneration.GenerateSummaries | step7_summary_generator.py:111-174 | one result per unit, in order, each the result of that unit |
| SummaryGeneration.SummaryGenerator.constructor | step7_summary_generator.py:17-21 | a generator starts with no sections |
| SummaryGeneration.SummaryGenerator.LoadSections | step7_summary_generator.py:23-61 | a missing directory changes nothing; otherwise the sections are the old and the loaded ones sorted by index |
| SummaryGeneration.SummaryGenerator.OrganizeHierarchyAndMerge | step7_summary_generator.py:63-109 | the forest by position and the summary units of the loaded sections |
| SummaryGeneration.SummaryGenerator.Process | step7_summary_generator.py:183-187 | load, organize and summarize: one result per unit of the loaded sections |
| MarkdownConverter.HeaderLineDepth | step5_markdown_converter.py:38-39 | a section of level l gets min(l + 1, 6) '#' (none when that is not positive), then a space and the title |
| MarkdownConverter.JsonToMarkdown | step5_markdown_converter.py:23-104 | the Markdown file is named after the section file's stem, and its text is the section's lines joined by newlines |
| MarkdownConverter.HeadLayout | step5_markdown_converter.py:32-48 | the lines open with the header, then the metadata line, then the body and an empty line exactly when the body is not blank |
| MarkdownConverter.TableLayout | step5_markdown_converter.py:50-74 | a tables block follows the body with a rule and the table count; table k then takes four lines: heading, image link, its markdown line and an empty line |
| MarkdownConverter.BlockTable | step5_markdown_converter.py:52-74 | the tables block is 2 + 4n lines and table k sits after the k tables before it |
| MarkdownConverter.NoTablesNoBlock | step5_markdown_converter.py:52 | without tables there is no tables block: the figures block follows the body |
| MarkdownConverter.TableMarkdownRendered | step5_markdown_converter.py:67-72 | a table's annotated markdown appears in the section's text; a table without it gets the placeholder line |
| MarkdownConverter.FigureLinesShape | step5_markdown_converter.py:82-95 | a figure gets a description line exactly when its description is truthy, and its lines end with an empty line |
| MarkdownConverter.CreateIndexMd | step5_markdown_converter.py:107-129 | nothing when the index file is missing, otherwise the title line and one linked line per index entry |
| MarkdownConverter.IndexEntryIndent | step5_markdown_converter.py:124-125 | an entry of level l is indented by 2(l - 1) spaces, then the list item starts |
| MarkdownConverter.IndexLinksConvertedFile | step5_markdown_converter.py:98-122 | the link the index writes for a section file names the Markdown file the converter writes for that file |
| DeepseekLayout.CloseFromSpec | step1_layout_analyzer.py:18 | the closer found is there, and no newline comes before it |
| DeepseekLayout.MidFromSpec | step1_layout_analyzer.py:18 | the separator and the closer found are there, and neither group holds a newline |
| DeepseekLayout.MatchShape | step1_layout_analyzer.py:18-20 | a match is the opener, a type without newline, the separator, coordinates without newline and the closer |
| DeepseekLayout.MatchesInOrder | step1_layout_analyzer.py:20 | the matches found are genuine matches of the pattern, do not overlap and come in text order |
| DeepseekLayout.NoOpenNoMatch | step1_layout_analyzer.py:20 | text without the ref opener has no match |
| DeepseekLayout.ParseNumbers | step1_layout_analyzer.py:27 | the list parses exactly when every part is a number, and then holds each part's value |
| DeepseekLayout.NatReadsBack | step1_layout_analyzer.py:27 | a number written in decimal reads back as itself |
| DeepseekLayout.ParseDeepseekLayout | step1_layout_analyzer.py:9-35 | the loop returns one item per match, in match order, dropping those whose coordinates do not parse |
| DeepseekLayout.DropOrKeep | step1_layout_analyzer.py:25-33 | a match that fails to parse is dropped without affecting the others; one that parses contributes its item in its place |
| DeepseekLayout.PresentMembers | step1_layout_analyzer.py:21-33 | an item is listed exactly when some match gives it |
| DeepseekLayout.NoPatternNoItems | step1_layout_analyzer.py:9-35 | text with no ref opener gives no items |
| DeepseekLayout.RegionMatches | step1_layout_analyzer.py:18-20 | one region written by the model is exactly one match spanning the whole region |
| DeepseekLayout.RegionReadsBack | step1_layout_analyzer.py:9-35 | such a region reads back as its stripped type with its coordinates, or as nothing when they do not parse |
| CleanTokens.FindFromSpec | deepseek_api/deepseek_clean_tokens.py:29-32 | the closer search finds an occurrence, and the first one |
| CleanTokens.PassThrough | deepseek_api/deepseek_clean_tokens.py:29-32 | characters that start no opener are kept, ahead of what follows |
| CleanTokens.NoOpenerUnchanged | deepseek_api/deepseek_clean_tokens.py:29-32 | a text without the opener is left unchanged |
| CleanTokens.NoCloserUnchanged | deepseek_api/deepseek_clean_tokens.py:29-32 | a text without the closer is left unchanged: an opener with no closer after it is kept |
| CleanTokens.SpanRemoved | deepseek_api/deepseek_clean_tokens.py:29-32 | a span closed by the first closer after its opener is deleted, and the scan resumes right after it |
| CleanTokens.KeepThenRemove | deepseek_api/deepseek_clean_tokens.py:29-32 | text before an opener is kept and the span after it removed |
| CleanTokens.Clean | deepseek_api/deepseek_clean_tokens.py:15-34 | the cleaned text is never longer than the content |
| CleanTokens.NoTokensUnchanged | deepseek_api/deepseek_clean_tokens.py:15-34 | content with neither opener comes back unchanged and nothing is removed |
| CleanTokens.NoClosersUnchanged | deepseek_api/deepseek_clean_tokens.py:15-34 | content with neither closer comes back unchanged |
| CleanTokens.GroundingRemoved | deepseek_api/deepseek_clean_tokens.py:15-34 | a grounding reference and its box are both deleted, the text before them kept, and the removed count is their length plus what the det pass removes after them |
| LlmClient.ChunkingRestores | lib_llm_client.py:61-84 | the chunks, concatenated in order, give back the images |
| LlmClient.ChunkingBounded | lib_llm_client.py:61-84 | no chunk is empty, and only a single-image chunk can be taller than 4000 px |
| LlmClient.ChunkingGreedy | lib_llm_client.py:69 | a chunk is sent only when the next image would take it over 4000 px |
| LlmClient.ChunkingSplits | lib_llm_client.py:54-84 | several images taller than 4000 px together never go out as a single chunk |
| LlmClient.ParseTableImages | lib_llm_client.py:43-92 | None for no images; over 6000 px with several images and a title, the non-empty chunk answers joined by newlines; otherwise one request for all images |
| LlmClient.SendChunks | lib_llm_client.py:61-84 | the chunking loop sends each chunk of the greedy split, in order, and keeps exactly the non-empty answers |
| LlmClient.SingleRequest | lib_llm_client.py:54-92 | one image, or images no taller than 6000 px together, go out as a single request |
| LlmClient.MaxWidthSpec | lib_llm_client.py:102 | the canvas is as wide as the widest image |
| LlmClient.StitchLayout | lib_llm_client.py:97-113 | the canvas is as wide as the widest image and as tall as all of them, and image k is pasted at the height of the images before it |
| LlmClient.PlacedBelow | lib_llm_client.py:109-113 | each image is placed right below the previous one |
| LlmClient.PlacedInside | lib_llm_client.py:97-113 | each image lies inside the canvas |
| MarkdownBackup.Backup | backup_markdown.py:8-41 | the loop builds the dictionary of every table_md and description write, skipping the index file, and counts the writes |
| MarkdownBackup.BackupFile | backup_markdown.py:15-32 | the index file adds nothing; any other file writes its tables' entries, then its figures', and adds that many to the count |
| MarkdownBackup.BackupTables | backup_markdown.py:23-26 | the table loop performs exactly the table writes |
| MarkdownBackup.BackupFigures | backup_markdown.py:29-32 | the figure loop performs exactly the figure writes |
| MarkdownBackup.PutKeys | backup_markdown.py:23-32 | a key is in the dictionary exactly when some write names it |
| MarkdownBackup.PutLastWrite | backup_markdown.py:23-32 | the last write to an image path wins |
| MarkdownBackup.CountCoversKeys | backup_markdown.py:8-41 | the count reported is at least the number of distinct image paths backed up |
| MarkdownBackup.DistinctLookup | backup_markdown.py:23-32 | when no image path is written twice, every write can be read back |
| MarkdownBackup.TableBackedUp | backup_markdown.py:16-26 | every table with a non-empty table_md outside the index file is written |
| MarkdownBackup.FigureBackedUp | backup_markdown.py:16-32 | every figure with a non-empty description outside the index file is written |
| MarkdownRestore.RestoreTables | restore_markdown.py:32-42 | each table found in the backup gets the saved text as markdown and table_md, in place, and is counted |
| MarkdownRestore.RestoreFigures | restore_markdown.py:45-50 | each figure found in the backup gets the saved text as its description |
| MarkdownRestore.RestoreFile | restore_markdown.py:28-50 | the section restored, updated exactly when an entry was found, and the tables restored |
| MarkdownRestore.Restore | restore_markdown.py:8-59 | without a backup nothing changes; otherwise every file but the index holds its restored section when updated, and the rewritten names and the restored count are reported |
| MarkdownRestore.RestoreOne | restore_markdown.py:24-54 | one pass of the file loop: the index file is left alone; any other file gets its restored section, is named as rewritten exactly when an entry was found, and adds its restored tables to the count |
| MarkdownRestore.TableHitsSpec | restore_markdown.py:32-42 | no table is counted exactly when no table's image path is in the backup |
| MarkdownRestore.FigureHitsSpec | restore_markdown.py:45-50 | no figure is found exactly when no figure's image path is in the backup |
| MarkdownRestore.NotUpdatedUnchanged | restore_markdown.py:52-54 | a file that is not rewritten would not have changed |
| MarkdownRestore.RestoredOnDisk | restore_markdown.py:24-54 | on disk every file but the index holds its restored section |
| MarkdownRestore.RestoreIdempotent | restore_markdown.py:28-50 | restoring twice from the same backup changes nothing more |
| MarkdownRestore.RoundTripTable | restore_markdown.py:32-42 | after a backup and a restore, a table with a table_md gets markdown equal to it and keeps it, when no image path is backed up twice |
| MarkdownRestore.RoundTripFigure | restore_markdown.py:45-50 | after a backup and a restore, a figure with a description is unchanged, when no image path is backed up twice |

The `extract_section_id` of test_y_based_collection.py:34-40 is the same
regular expression as step2_section_extractor.py:167-172; both are
`SectionExtractor.ExtractSectionId`.

## Left out

- PyMuPDF (`get_text`, `find_tables`, `get_toc`, pixmaps), the per-page analysis in `_analyze_single_page`, `find_section_y_on_page`, `generate_page_md` and the image and crop helpers: their results are input records (page layouts, text blocks, page texts, the `sectionY` function, image sizes).
- Every LLM, VLLM and OCR request (`_parse_images_internal`'s request, the figure request, the summary request, the VLLM page check): the answers are function parameters, and a failed request is `None`.
- File and JSON I/O, directory listing and sorting by name: files arrive parsed and in the order the scripts glob them, and results are returned instead of written. Exceptions while reading a file are not modelled.
- SQLite, FastAPI, the web viewer, logging, printing, the batch runner, the debug and example scripts, and the image recovery and failure report utilities: they hold no pipeline logic.
- The first pass of `get_sections` (building node dicts from rows) is not modelled; the forest is returned by row position, as is the summary generator's tree, whose `children` lists the source never reads again.
- `merge_consecutive_tables_in_text` (table_merger.py:65-103) is not modelled, not even its early return: it splices text at match offsets found before earlier splices.
- Python's `float()` grammar, Unicode digits and whitespace, `str.lower` and `str.strip` beyond ASCII: numbers are decimal tokens (optional sign, digits, optional fraction) and characters are ASCII.
- Floating-point rounding: coordinates and ratios are exact reals.
- `merged_content` of a loaded section and the 15000-character cut of the summary prompt have no effect on any result the model covers.
- The structural title picker computes section-title candidates that the code never uses; they are not modelled.
- A JSON answer of the VLLM that is valid JSON but not an object (the `.get` on it raises) is not modelled; answers are an object or not JSON.
- `process_all_sections` of lib_llm_client.py calls a method that does not exist and is not modelled.
- Opening an image that fails and the merge-failure fallback inside `_parse_images_internal` are not modelled; stitching takes the image sizes as input.
- LlmClient.TableMarkdown: with a missing title, the chunk title `table_title + " (Part)"` raises before the first chunk request, and the handler falls back to one request for all images; the model follows that path rather than requiring a title.
- LlmClient.SingleRequest and SummaryGeneration.ShortTextRule are immediate from the definitions and need no proof steps.
- SummaryGeneration.ParseNameShape: the file-name pattern is matched at the start only, so `002_1_1_Scope.md` (the naming example in the source's comment) reads as id "1" and title "1_Scope"; the model follows the regular expression.
- MarkdownConverter: a falsy `image_path` falls back to `table.get('id', 'unknown')`; section records carry no `id`, so the fallback is always "unknown.png".
- MarkdownRestore.RoundTripTable and RoundTripFigure assume that no image path is written twice during the backup (distinct backed-up keys), a little weaker than assuming unique image paths, which implies it.
- SectionExtractor.GetTablesInSection and YCollection.GetTablesByYRange take the page count and `max_pages` as inputs.
- MarkdownRestore.Restore rewrites an updated file even when the restored values equal the old ones, as the source does; the file content is then unchanged.

## Findings

| source | as written | input that shows it | evidently intended | confidence | as-written member | corrected member |
|---|---|---|---|---|---|---|
| test_y_based_collection.py:123-130 | after scanning the next section's page, the cursor stops only when no table was taken there, or once it is past that page | next section on page 2 with its heading at y = 500, one table at y = 100 on each of pages 1, 2 and 3: the tables of pages 1, 2 and 3 are all collected | stop on reaching the next section's page, scanned or skipped, so page 3's table is not collected; this is stricter than step2_section_extractor.py:309-310, which stops there only when that page has a layout entry and makes no end test on a page without one (step2_section_extractor.py:266-268) | not executed | YCollection.LateStop | YCollection.NoTableAfterNextPage |
