/**
 * The markdown restore script (`restore`): tables and figures whose image
 * path is in the backup dictionary get their saved text back, and a
 * section file is rewritten when at least one of its entries changed.
 *
 * The section files are given parsed, in sorted order; the result is the
 * directory afterwards, the names of the files rewritten, in order, and
 * the number of tables restored. A missing backup file is `None`.
 */
module MarkdownRestore {
  import opened Wrappers
  import opened SectionRecords
  import MarkdownBackup

  /** A table found in the backup gets the saved text as both `markdown` and `table_md`. */
  function RestoreTable(t: TableRecord, backup: map<string, string>): TableRecord
  {
    if t.imagePath in backup then t.(markdown := Some(backup[t.imagePath]), tableMd := Some(backup[t.imagePath])) else t
  }

  /** A figure found in the backup gets the saved text as its `description`. */
  function RestoreFigure(f: FigureRecord, backup: map<string, string>): FigureRecord
  {
    if f.imagePath in backup then f.(description := Some(backup[f.imagePath])) else f
  }

  /** The section after restoring each of its tables and figures. */
  function RestoreDoc(doc: SectionDoc, backup: map<string, string>): SectionDoc
  {
    doc.(tables := seq(|doc.tables|, j requires 0 <= j < |doc.tables| => RestoreTable(doc.tables[j], backup)),
         figures := seq(|doc.figures|, j requires 0 <= j < |doc.figures| => RestoreFigure(doc.figures[j], backup)))
  }

  /** The number of tables whose image path is in the backup. */
  function TableHits(ts: seq<TableRecord>, backup: map<string, string>): nat
  {
    if ts == [] then 0 else TableHits(ts[..|ts| - 1], backup) + (if ts[|ts| - 1].imagePath in backup then 1 else 0)
  }

  /** The number of figures whose image path is in the backup. */
  function FigureHits(fs: seq<FigureRecord>, backup: map<string, string>): nat
  {
    if fs == [] then 0 else FigureHits(fs[..|fs| - 1], backup) + (if fs[|fs| - 1].imagePath in backup then 1 else 0)
  }

  /** Whether restoring changes anything in the section: the `updated` flag. */
  predicate Updated(doc: SectionDoc, backup: map<string, string>)
  {
    TableHits(doc.tables, backup) > 0 || FigureHits(doc.figures, backup) > 0
  }

  /** A file as it is on disk afterwards: rewritten with its restored section when updated. */
  function RestoredFile(f: SectionFile, backup: map<string, string>): SectionFile
  {
    if f.name != IndexFileName && Updated(f.doc, backup) then SectionFile(f.name, RestoreDoc(f.doc, backup)) else f
  }

  /** The names of the files rewritten, in order. */
  function Rewritten(files: seq<SectionFile>, backup: map<string, string>): seq<string>
  {
    if files == [] then []
    else
      var f := files[|files| - 1];
      Rewritten(files[..|files| - 1], backup) + (if f.name != IndexFileName && Updated(f.doc, backup) then [f.name] else [])
  }

  /** The tables restored over all files but the index: `restored_count`. */
  function TablesRestored(files: seq<SectionFile>, backup: map<string, string>): nat
  {
    if files == [] then 0
    else
      var f := files[|files| - 1];
      TablesRestored(files[..|files| - 1], backup) + (if f.name != IndexFileName then TableHits(f.doc.tables, backup) else 0)
  }

  /** The table loop: each table found in the backup is updated in place and counted. */
  method RestoreTables(tables: seq<TableRecord>, backup: map<string, string>) returns (tables': seq<TableRecord>, restored: nat)
    ensures |tables'| == |tables| && forall j :: 0 <= j < |tables| ==> tables'[j] == RestoreTable(tables[j], backup)
    ensures restored == TableHits(tables, backup)
  {
    tables', restored := tables, 0;
    for i := 0 to |tables|
      invariant |tables'| == |tables|
      invariant forall j :: 0 <= j < i ==> tables'[j] == RestoreTable(tables[j], backup)
      invariant forall j :: i <= j < |tables| ==> tables'[j] == tables[j]
      invariant restored == TableHits(tables[..i], backup)
    {
      assert tables[..i + 1][..i] == tables[..i];
      var imgPath := tables'[i].imagePath;
      if imgPath in backup {
        tables' := tables'[i := RestoreTable(tables'[i], backup)];
        restored := restored + 1;
      }
    }
    assert tables[..|tables|] == tables;
  }

  /** The figure loop: each figure found in the backup is updated in place. */
  method RestoreFigures(figures: seq<FigureRecord>, backup: map<string, string>) returns (figures': seq<FigureRecord>, hits: nat)
    ensures |figures'| == |figures| && forall j :: 0 <= j < |figures| ==> figures'[j] == RestoreFigure(figures[j], backup)
    ensures hits == FigureHits(figures, backup)
  {
    figures', hits := figures, 0;
    for i := 0 to |figures|
      invariant |figures'| == |figures|
      invariant forall j :: 0 <= j < i ==> figures'[j] == RestoreFigure(figures[j], backup)
      invariant forall j :: i <= j < |figures| ==> figures'[j] == figures[j]
      invariant hits == FigureHits(figures[..i], backup)
    {
      assert figures[..i + 1][..i] == figures[..i];
      var imgPath := figures'[i].imagePath;
      if imgPath in backup {
        figures' := figures'[i := RestoreFigure(figures'[i], backup)];
        hits := hits + 1;
      }
    }
    assert figures[..|figures|] == figures;
  }

  /**
   * One section: its tables, then its figures; `updated` is set by any
   * entry found in the backup, `restored` counts the tables.
   */
  method RestoreFile(doc: SectionDoc, backup: map<string, string>) returns (doc': SectionDoc, updated: bool, restored: nat)
    ensures doc' == RestoreDoc(doc, backup)
    ensures updated == Updated(doc, backup)
    ensures restored == TableHits(doc.tables, backup)
  {
    var tables, figures;
    var figureHits;
    tables, restored := RestoreTables(doc.tables, backup);
    figures, figureHits := RestoreFigures(doc.figures, backup);
    updated := restored > 0 || figureHits > 0;
    doc' := doc.(tables := tables, figures := figures);
    assert tables == RestoreDoc(doc, backup).tables;
    assert figures == RestoreDoc(doc, backup).figures;
  }

  /** One file of the loop: the index is skipped; another file is restored, and written back when updated. */
  method RestoreOne(f: SectionFile, backup: map<string, string>) returns (f': SectionFile, names: seq<string>, restored: nat)
    ensures f' == RestoredFile(f, backup)
    ensures names == if f.name != IndexFileName && Updated(f.doc, backup) then [f.name] else []
    ensures restored == if f.name != IndexFileName then TableHits(f.doc.tables, backup) else 0
  {
    f', names, restored := f, [], 0;
    if f.name != IndexFileName {
      var doc', updated;
      doc', updated, restored := RestoreFile(f.doc, backup);
      if updated {
        f' := SectionFile(f.name, doc');
        names := [f.name];
      }
    }
  }

  /** `restore`: nothing happens without a backup; otherwise every file but the index is restored. */
  method Restore(files: seq<SectionFile>, backupFile: Option<map<string, string>>)
    returns (disk: seq<SectionFile>, rewritten: seq<string>, restoredCount: nat)
    ensures backupFile.None? ==> disk == files && rewritten == [] && restoredCount == 0
    ensures backupFile.Some? ==>
              && |disk| == |files|
              && (forall i :: 0 <= i < |files| ==> disk[i] == RestoredFile(files[i], backupFile.value))
              && rewritten == Rewritten(files, backupFile.value)
              && restoredCount == TablesRestored(files, backupFile.value)
  {
    disk, rewritten, restoredCount := files, [], 0;
    if backupFile.None? {
      return;
    }
    var backup := backupFile.value;
    for i := 0 to |files|
      invariant |disk| == |files|
      invariant forall j :: 0 <= j < i ==> disk[j] == RestoredFile(files[j], backup)
      invariant forall j :: i <= j < |files| ==> disk[j] == files[j]
      invariant rewritten == Rewritten(files[..i], backup)
      invariant restoredCount == TablesRestored(files[..i], backup)
    {
      RestoreStep(files, backup, i);
      var f', names, restored := RestoreOne(files[i], backup);
      disk := disk[i := f'];
      rewritten := rewritten + names;
      restoredCount := restoredCount + restored;
    }
    assert files[..|files|] == files;
  }

  /** The file loop's totals after one more file. */
  lemma RestoreStep(files: seq<SectionFile>, backup: map<string, string>, i: nat)
    requires i < |files|
    ensures var f := files[i];
            Rewritten(files[..i + 1], backup) ==
            Rewritten(files[..i], backup) + (if f.name != IndexFileName && Updated(f.doc, backup) then [f.name] else [])
    ensures var f := files[i];
            TablesRestored(files[..i + 1], backup) ==
            TablesRestored(files[..i], backup) + (if f.name != IndexFileName then TableHits(f.doc.tables, backup) else 0)
  {
    assert files[..i + 1][..i] == files[..i];
  }

  // ---------------------------------------------------------------------------
  // Properties
  // ---------------------------------------------------------------------------

  /** No table is counted unless its image path is in the backup, and every such table is. */
  lemma {:induction false} TableHitsSpec(ts: seq<TableRecord>, backup: map<string, string>)
    ensures TableHits(ts, backup) == 0 <==> forall j :: 0 <= j < |ts| ==> ts[j].imagePath !in backup
  {
    if ts != [] {
      var n := |ts| - 1;
      TableHitsSpec(ts[..n], backup);
      assert forall j :: 0 <= j < n ==> ts[..n][j] == ts[j];
    }
  }

  lemma {:induction false} FigureHitsSpec(fs: seq<FigureRecord>, backup: map<string, string>)
    ensures FigureHits(fs, backup) == 0 <==> forall j :: 0 <= j < |fs| ==> fs[j].imagePath !in backup
  {
    if fs != [] {
      var n := |fs| - 1;
      FigureHitsSpec(fs[..n], backup);
      assert forall j :: 0 <= j < n ==> fs[..n][j] == fs[j];
    }
  }

  /** A file that is not updated would not change: skipping its rewrite loses nothing. */
  lemma NotUpdatedUnchanged(doc: SectionDoc, backup: map<string, string>)
    requires !Updated(doc, backup)
    ensures RestoreDoc(doc, backup) == doc
  {
    TableHitsSpec(doc.tables, backup);
    FigureHitsSpec(doc.figures, backup);
    var r := RestoreDoc(doc, backup);
    assert r.tables == doc.tables;
    assert r.figures == doc.figures;
  }

  /** On disk, every file but the index ends up holding its restored section. */
  lemma RestoredOnDisk(f: SectionFile, backup: map<string, string>)
    ensures RestoredFile(f, backup).name == f.name
    ensures RestoredFile(f, backup).doc == if f.name == IndexFileName then f.doc else RestoreDoc(f.doc, backup)
  {
    if !Updated(f.doc, backup) {
      NotUpdatedUnchanged(f.doc, backup);
    }
  }

  /** Restoring twice from the same backup changes nothing more. */
  lemma RestoreIdempotent(doc: SectionDoc, backup: map<string, string>)
    ensures RestoreDoc(RestoreDoc(doc, backup), backup) == RestoreDoc(doc, backup)
  {
    var r := RestoreDoc(doc, backup);
    assert RestoreDoc(r, backup).tables == r.tables;
    assert RestoreDoc(r, backup).figures == r.figures;
  }

  /**
   * Backing up and then restoring the same files gives every table with
   * a `table_md` a `markdown` equal to it, and leaves its `table_md` and
   * the figure descriptions as they were, as long as no image path is
   * backed up twice.
   */
  lemma RoundTripTable(files: seq<SectionFile>, i: nat, j: nat)
    requires MarkdownBackup.DistinctKeys(MarkdownBackup.BackupEntries(files))
    requires i < |files| && files[i].name != IndexFileName
    requires j < |files[i].doc.tables| && Truthy(files[i].doc.tables[j].tableMd)
    ensures var t := RestoredFile(files[i], MarkdownBackup.BackupOf(files)).doc.tables[j];
            t.markdown == files[i].doc.tables[j].tableMd && t.tableMd == files[i].doc.tables[j].tableMd
  {
    var b := MarkdownBackup.BackupOf(files);
    var t := files[i].doc.tables[j];
    MarkdownBackup.TableBackedUp(files, i, j);
    MarkdownBackup.DistinctLookup(MarkdownBackup.BackupEntries(files), (t.imagePath, t.tableMd.value));
    RestoredOnDisk(files[i], b);
  }

  lemma RoundTripFigure(files: seq<SectionFile>, i: nat, j: nat)
    requires MarkdownBackup.DistinctKeys(MarkdownBackup.BackupEntries(files))
    requires i < |files| && files[i].name != IndexFileName
    requires j < |files[i].doc.figures| && Truthy(files[i].doc.figures[j].description)
    ensures RestoredFile(files[i], MarkdownBackup.BackupOf(files)).doc.figures[j] == files[i].doc.figures[j]
  {
    var b := MarkdownBackup.BackupOf(files);
    var f := files[i].doc.figures[j];
    MarkdownBackup.FigureBackedUp(files, i, j);
    MarkdownBackup.DistinctLookup(MarkdownBackup.BackupEntries(files), (f.imagePath, f.description.value));
    RestoredOnDisk(files[i], b);
  }
}
