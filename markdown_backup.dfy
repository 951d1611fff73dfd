/**
 * The markdown backup script (`backup`): every table markdown and every
 * figure description found in the section files is saved in one
 * dictionary keyed by image path.
 *
 * The section files are given in the sorted order the script globs them,
 * already parsed; writing the dictionary to disk is left to the caller.
 */
module MarkdownBackup {
  import opened Wrappers
  import opened SectionRecords

  /** One write into the backup dictionary: image path and saved text. */
  type Entry = (string, string)

  /** The writes for the tables of one file: those with a non-empty `table_md`, in order. */
  function TableEntries(ts: seq<TableRecord>): seq<Entry>
  {
    if ts == [] then []
    else
      var t := ts[|ts| - 1];
      TableEntries(ts[..|ts| - 1]) + (if Truthy(t.tableMd) then [(t.imagePath, t.tableMd.value)] else [])
  }

  /** The writes for the figures of one file: those with a non-empty `description`, in order. */
  function FigureEntries(fs: seq<FigureRecord>): seq<Entry>
  {
    if fs == [] then []
    else
      var f := fs[|fs| - 1];
      FigureEntries(fs[..|fs| - 1]) + (if Truthy(f.description) then [(f.imagePath, f.description.value)] else [])
  }

  /** The writes for one file: none for the index, else its tables and then its figures. */
  function FileEntries(f: SectionFile): seq<Entry>
  {
    if f.name == IndexFileName then [] else TableEntries(f.doc.tables) + FigureEntries(f.doc.figures)
  }

  /** The writes of the first `n` files, file after file. */
  function EntriesUpTo(files: seq<SectionFile>, n: nat): seq<Entry>
    requires n <= |files|
  {
    if n == 0 then [] else EntriesUpTo(files, n - 1) + FileEntries(files[n - 1])
  }

  /** All writes, file after file. */
  function BackupEntries(files: seq<SectionFile>): seq<Entry>
  {
    EntriesUpTo(files, |files|)
  }

  /** The dictionary `m` after the writes `es`, one after the other. */
  function Put(m: map<string, string>, es: seq<Entry>): map<string, string>
  {
    if es == [] then m else Put(m, es[..|es| - 1])[es[|es| - 1].0 := es[|es| - 1].1]
  }

  /** The backup dictionary of a set of section files. */
  function BackupOf(files: seq<SectionFile>): map<string, string>
  {
    Put(map[], BackupEntries(files))
  }

  lemma PutSnoc(m: map<string, string>, es: seq<Entry>, e: Entry)
    ensures Put(m, es + [e]) == Put(m, es)[e.0 := e.1]
  {
    assert (es + [e])[..|es|] == es;
  }

  /** Writing two runs of entries is writing the first, then the second. */
  lemma {:induction false} PutAppend(m: map<string, string>, a: seq<Entry>, b: seq<Entry>)
    ensures Put(m, a + b) == Put(Put(m, a), b)
  {
    if b == [] {
      assert a + b == a;
    } else {
      var n := |b| - 1;
      assert a + b == (a + b[..n]) + [b[n]];
      PutSnoc(m, a + b[..n], b[n]);
      PutAppend(m, a, b[..n]);
    }
  }

  /** Scanning the tables of a file writes their entries. */
  method BackupTables(backup: map<string, string>, count: nat, tables: seq<TableRecord>)
    returns (backup': map<string, string>, count': nat)
    ensures backup' == Put(backup, TableEntries(tables))
    ensures count' == count + |TableEntries(tables)|
  {
    backup', count' := backup, count;
    for i := 0 to |tables|
      invariant backup' == Put(backup, TableEntries(tables[..i]))
      invariant count' == count + |TableEntries(tables[..i])|
    {
      assert tables[..i + 1][..i] == tables[..i];
      var tbl := tables[i];
      if Truthy(tbl.tableMd) {
        assert TableEntries(tables[..i + 1]) == TableEntries(tables[..i]) + [(tbl.imagePath, tbl.tableMd.value)];
        PutSnoc(backup, TableEntries(tables[..i]), (tbl.imagePath, tbl.tableMd.value));
        backup' := backup'[tbl.imagePath := tbl.tableMd.value];
        count' := count' + 1;
      } else {
        assert TableEntries(tables[..i + 1]) == TableEntries(tables[..i]) + [];
        assert TableEntries(tables[..i]) + [] == TableEntries(tables[..i]);
      }
    }
    assert tables[..|tables|] == tables;
  }

  /** Scanning the figures of a file writes their entries. */
  method BackupFigures(backup: map<string, string>, count: nat, figures: seq<FigureRecord>)
    returns (backup': map<string, string>, count': nat)
    ensures backup' == Put(backup, FigureEntries(figures))
    ensures count' == count + |FigureEntries(figures)|
  {
    backup', count' := backup, count;
    for i := 0 to |figures|
      invariant backup' == Put(backup, FigureEntries(figures[..i]))
      invariant count' == count + |FigureEntries(figures[..i])|
    {
      assert figures[..i + 1][..i] == figures[..i];
      var fig := figures[i];
      if Truthy(fig.description) {
        assert FigureEntries(figures[..i + 1]) == FigureEntries(figures[..i]) + [(fig.imagePath, fig.description.value)];
        PutSnoc(backup, FigureEntries(figures[..i]), (fig.imagePath, fig.description.value));
        backup' := backup'[fig.imagePath := fig.description.value];
        count' := count' + 1;
      } else {
        assert FigureEntries(figures[..i + 1]) == FigureEntries(figures[..i]) + [];
        assert FigureEntries(figures[..i]) + [] == FigureEntries(figures[..i]);
      }
    }
    assert figures[..|figures|] == figures;
  }

  /** `backup`: the dictionary and the number of writes, skipping `section_index.json`. */
  method Backup(files: seq<SectionFile>) returns (backup: map<string, string>, count: nat)
    ensures backup == BackupOf(files)
    ensures count == |BackupEntries(files)|
  {
    backup, count := map[], 0;
    for i := 0 to |files|
      invariant backup == Put(map[], EntriesUpTo(files, i))
      invariant count == |EntriesUpTo(files, i)|
    {
      PutAppend(map[], EntriesUpTo(files, i), FileEntries(files[i]));
      backup, count := BackupFile(backup, count, files[i]);
    }
  }

  /** One pass of the file loop of `backup`: the index file is skipped, any other has its tables and figures saved. */
  method BackupFile(backup: map<string, string>, count: nat, f: SectionFile)
    returns (backup': map<string, string>, count': nat)
    ensures backup' == Put(backup, FileEntries(f))
    ensures count' == count + |FileEntries(f)|
  {
    if f.name == IndexFileName {
      backup', count' := backup, count;
    } else {
      PutAppend(backup, TableEntries(f.doc.tables), FigureEntries(f.doc.figures));
      backup', count' := BackupTables(backup, count, f.doc.tables);
      backup', count' := BackupFigures(backup', count', f.doc.figures);
    }
  }

  // ---------------------------------------------------------------------------
  // What the dictionary holds
  // ---------------------------------------------------------------------------

  /** A key is in the dictionary exactly when it was there before or some entry writes it. */
  lemma {:induction false} PutKeys(m: map<string, string>, es: seq<Entry>, k: string)
    ensures k in Put(m, es) <==> k in m || exists j :: 0 <= j < |es| && es[j].0 == k
  {
    if es != [] {
      var n := |es| - 1;
      PutKeys(m, es[..n], k);
      assert forall j :: 0 <= j < n ==> es[..n][j] == es[j];
    }
  }

  /** A later write with the same image path overwrites an earlier one: the last write wins. */
  lemma {:induction false} PutLastWrite(m: map<string, string>, es: seq<Entry>, j: nat)
    requires j < |es|
    requires forall j' :: j < j' < |es| ==> es[j'].0 != es[j].0
    ensures es[j].0 in Put(m, es) && Put(m, es)[es[j].0] == es[j].1
  {
    var n := |es| - 1;
    if j < n {
      assert es[..n][j] == es[j];
      assert forall j' :: j < j' < n ==> es[..n][j'] == es[j'];
      PutLastWrite(m, es[..n], j);
    }
  }

  /** The dictionary never holds more keys than the writes that filled it. */
  lemma {:induction false} PutSize(m: map<string, string>, es: seq<Entry>)
    ensures |Put(m, es).Keys| <= |m.Keys| + |es|
  {
    if es != [] {
      var n := |es| - 1;
      PutSize(m, es[..n]);
      var p := Put(m, es[..n]);
      assert p[es[n].0 := es[n].1].Keys == p.Keys + {es[n].0};
    }
  }

  /** The reported count is at least the number of distinct image paths backed up. */
  lemma CountCoversKeys(files: seq<SectionFile>)
    ensures |BackupOf(files).Keys| <= |BackupEntries(files)|
  {
    PutSize(map[], BackupEntries(files));
  }

  predicate DistinctKeys(es: seq<Entry>)
  {
    forall i, j :: 0 <= i < j < |es| ==> es[i].0 != es[j].0
  }

  /** When no image path is written twice, each write can be read back. */
  lemma DistinctLookup(es: seq<Entry>, e: Entry)
    requires DistinctKeys(es) && e in es
    ensures e.0 in Put(map[], es) && Put(map[], es)[e.0] == e.1
  {
    var j :| 0 <= j < |es| && es[j] == e;
    PutLastWrite(map[], es, j);
  }

  // ---------------------------------------------------------------------------
  // Which records are backed up
  // ---------------------------------------------------------------------------

  lemma {:induction false} TableEntryListed(ts: seq<TableRecord>, j: nat)
    requires j < |ts| && Truthy(ts[j].tableMd)
    ensures (ts[j].imagePath, ts[j].tableMd.value) in TableEntries(ts)
  {
    var n := |ts| - 1;
    if j < n {
      assert ts[..n][j] == ts[j];
      TableEntryListed(ts[..n], j);
    }
  }

  lemma {:induction false} FigureEntryListed(fs: seq<FigureRecord>, j: nat)
    requires j < |fs| && Truthy(fs[j].description)
    ensures (fs[j].imagePath, fs[j].description.value) in FigureEntries(fs)
  {
    var n := |fs| - 1;
    if j < n {
      assert fs[..n][j] == fs[j];
      FigureEntryListed(fs[..n], j);
    }
  }

  /** The writes of the first `m` files come first among the writes of the first `n`. */
  lemma {:induction false} UpToPrefix(files: seq<SectionFile>, m: nat, n: nat)
    requires m <= n <= |files|
    ensures EntriesUpTo(files, m) <= EntriesUpTo(files, n)
  {
    if m < n {
      UpToPrefix(files, m, n - 1);
    }
  }

  lemma FileEntryListed(files: seq<SectionFile>, i: nat, e: Entry)
    requires i < |files| && e in FileEntries(files[i])
    ensures e in BackupEntries(files)
  {
    UpToPrefix(files, i + 1, |files|);
    InPrefix(EntriesUpTo(files, i), FileEntries(files[i]), BackupEntries(files), e);
  }

  lemma InPrefix(a: seq<Entry>, b: seq<Entry>, c: seq<Entry>, e: Entry)
    requires a + b <= c && e in b
    ensures e in c
  {
    var j :| 0 <= j < |b| && b[j] == e;
    assert c[|a| + j] == (a + b)[|a| + j];
  }

  /** Every table with a non-empty `table_md` outside the index file is written to the backup. */
  lemma TableBackedUp(files: seq<SectionFile>, i: nat, j: nat)
    requires i < |files| && files[i].name != IndexFileName
    requires j < |files[i].doc.tables| && Truthy(files[i].doc.tables[j].tableMd)
    ensures var t := files[i].doc.tables[j]; (t.imagePath, t.tableMd.value) in BackupEntries(files)
  {
    TableEntryListed(files[i].doc.tables, j);
    FileEntryListed(files, i, (files[i].doc.tables[j].imagePath, files[i].doc.tables[j].tableMd.value));
  }

  /** Every figure with a non-empty `description` outside the index file is written to the backup. */
  lemma FigureBackedUp(files: seq<SectionFile>, i: nat, j: nat)
    requires i < |files| && files[i].name != IndexFileName
    requires j < |files[i].doc.figures| && Truthy(files[i].doc.figures[j].description)
    ensures var f := files[i].doc.figures[j]; (f.imagePath, f.description.value) in BackupEntries(files)
  {
    FigureEntryListed(files[i].doc.figures, j);
    FileEntryListed(files, i, (files[i].doc.figures[j].imagePath, files[i].doc.figures[j].description.value));
  }
}
