/**
 * Merging of two Markdown tables that share the same header row
 * (`table_merger.py`): header extraction and the merge of the data rows.
 */
module TableMerger {
  import opened Wrappers
  import opened Strings

  /** The lines of a table text: `table_md.strip().split('\n')`. */
  function Lines(t: string): (r: seq<string>)
    ensures |r| >= 1
  {
    Split(Strip(t), '\n')
  }

  function MapStrip(xs: seq<string>): (r: seq<string>)
    ensures |r| == |xs|
    ensures forall i :: 0 <= i < |xs| ==> r[i] == Strip(xs[i])
  {
    seq(|xs|, i requires 0 <= i < |xs| => Strip(xs[i]))
  }

  /** `[h.strip() for h in line.split('|')[1:-1]]`. */
  function HeaderCells(line: string): seq<string>
  {
    var pieces := Split(line, '|');
    if |pieces| < 2 then [] else MapStrip(pieces[1..|pieces| - 1])
  }

  /**
   * `extract_table_header`: None for a text of fewer than two lines or whose
   * first line does not start with '|'; otherwise the stripped cells between
   * the first and the last '|' of the first line.
   */
  function ExtractTableHeader(t: string): (r: Option<seq<string>>)
    ensures r.None? <==> |Lines(t)| < 2 || !StartsWith(Strip(Lines(t)[0]), "|")
    ensures r.Some? ==> forall h :: h in r.value ==> '|' !in h && Strip(h) == h
  {
    var lines := Lines(t);
    if |lines| < 2 then None
    else
      var headerLine := Strip(lines[0]);
      if !StartsWith(headerLine, "|") then None
      else
        HeaderCellsClean(headerLine);
        Some(HeaderCells(headerLine))
  }

  lemma StripKeepsOut(x: string, c: char)
    requires c !in x
    ensures c !in Strip(x)
  {
    var l := StripLeft(x);
    StripLeftSpec(x);
    StripRightSpec(l);
    assert l == x[|x| - |l|..];
    assert StripRight(l) == l[..|StripRight(l)|];
  }

  /** Header cells are stripped and hold no '|'. */
  lemma HeaderCellsClean(line: string)
    ensures forall h :: h in HeaderCells(line) ==> '|' !in h && Strip(h) == h
  {
    var pieces := Split(line, '|');
    SplitPiecesNoSep(line, '|');
    if |pieces| >= 2 {
      var inner := pieces[1..|pieces| - 1];
      forall h | h in HeaderCells(line)
        ensures '|' !in h && Strip(h) == h
      {
        var i :| 0 <= i < |inner| && MapStrip(inner)[i] == h;
        assert inner[i] in pieces;
        StripKeepsOut(inner[i], '|');
        StripIdempotent(inner[i]);
      }
    }
  }

  /** Python truthiness of the extracted header: present and not the empty list. */
  predicate HasHeader(t: string)
  {
    ExtractTableHeader(t).Some? && ExtractTableHeader(t).value != []
  }

  /**
   * `merge_tables`: when both texts have the same non-empty header, all lines
   * of the first table followed by the lines of the second from index 2 on.
   */
  function MergeTables(t1: string, t2: string): (r: Option<string>)
    ensures r.Some? <==> HasHeader(t1) && ExtractTableHeader(t1) == ExtractTableHeader(t2)
  {
    var h1 := ExtractTableHeader(t1);
    var h2 := ExtractTableHeader(t2);
    if h1.None? || h1.value == [] || h2.None? || h2.value == [] then None
    else if h1 != h2 then None
    else Some(Join(Lines(t1) + Lines(t2)[2..], "\n"))
  }

  lemma StripOfNonEmptyLines(t: string)
    requires |Lines(t)| >= 2
    ensures Strip(t) != []
  {
    assert Split([], '\n') == [[]];
  }

  /**
   * Joining the first table's lines with the data lines of a second table
   * gives a stripped text whose lines are exactly those lines.
   */
  lemma {:induction false} LinesOfMerge(t1: string, t2: string)
    requires |Lines(t1)| >= 2 && |Lines(t2)| >= 2
    ensures Lines(Join(Lines(t1) + Lines(t2)[2..], "\n")) == Lines(t1) + Lines(t2)[2..]
  {
    var l1, l2 := Lines(t1), Lines(t2);
    var s1, s2 := Strip(t1), Strip(t2);
    StripOfNonEmptyLines(t1);
    StripOfNonEmptyLines(t2);
    StripEnds(t1);
    StripEnds(t2);
    JoinSplit(s1, '\n');
    JoinSplit(s2, '\n');
    var merged := Join(l1 + l2[2..], "\n");
    if |l2| == 2 {
      assert l1 + l2[2..] == l1;
      assert merged == s1;
      StripIdempotent(t1);
    } else {
      var tail := Join(l2[2..], "\n");
      JoinAppend(l1, l2[2..], "\n");
      assert l2 == l2[..2] + l2[2..];
      JoinAppend(l2[..2], l2[2..], "\n");
      assert merged == s1 + "\n" + tail;
      assert s2 == Join(l2[..2], "\n") + "\n" + tail;
      assert merged[|merged| - 1] == s2[|s2| - 1];
      assert merged[0] == s1[0];
      StripNoop(merged);
    }
    SplitPiecesNoSep(s1, '\n');
    SplitPiecesNoSep(s2, '\n');
    assert forall p :: p in l1 + l2[2..] ==> p in l1 || p in l2;
    SplitJoin(l1 + l2[2..], '\n');
  }

  /**
   * A successful merge has the lines of the first table followed by the data
   * lines of the second, so n1 + n2 - 2 lines.
   */
  lemma MergedLines(t1: string, t2: string)
    requires MergeTables(t1, t2).Some?
    ensures Lines(MergeTables(t1, t2).value) == Lines(t1) + Lines(t2)[2..]
    ensures |Lines(MergeTables(t1, t2).value)| == |Lines(t1)| + |Lines(t2)| - 2
  {
    LinesOfMerge(t1, t2);
  }

  /** The header (and separator line) of a merge are the first table's. */
  lemma MergedHeader(t1: string, t2: string)
    requires MergeTables(t1, t2).Some?
    ensures ExtractTableHeader(MergeTables(t1, t2).value) == ExtractTableHeader(t1)
    ensures Lines(MergeTables(t1, t2).value)[..2] == Lines(t1)[..2]
  {
    MergedLines(t1, t2);
  }

  lemma MergeValue(x: string, y: string)
    requires HasHeader(x) && ExtractTableHeader(x) == ExtractTableHeader(y)
    ensures MergeTables(x, y) == Some(Join(Lines(x) + Lines(y)[2..], "\n"))
  {
  }

  lemma MergeLeftNested(a: string, b: string, c: string)
    requires MergeTables(a, b).Some? && MergeTables(b, c).Some?
    ensures MergeTables(MergeTables(a, b).value, c)
         == Some(Join(Lines(a) + Lines(b)[2..] + Lines(c)[2..], "\n"))
  {
    var ab := MergeTables(a, b).value;
    assert Lines(ab) == Lines(a) + Lines(b)[2..] by { MergedLines(a, b); }
    assert ExtractTableHeader(ab) == ExtractTableHeader(a) by { MergedHeader(a, b); }
    MergeValue(ab, c);
  }

  lemma SeqShift(la: seq<string>, lb: seq<string>, lc: seq<string>)
    requires |lb| >= 2
    ensures la + (lb + lc)[2..] == la + lb[2..] + lc
  {
    assert (lb + lc)[2..] == lb[2..] + lc;
  }

  lemma MergeRightNested(a: string, b: string, c: string)
    requires MergeTables(a, b).Some? && MergeTables(b, c).Some?
    ensures MergeTables(a, MergeTables(b, c).value)
         == Some(Join(Lines(a) + Lines(b)[2..] + Lines(c)[2..], "\n"))
  {
    var bc := MergeTables(b, c).value;
    assert Lines(bc) == Lines(b) + Lines(c)[2..] by { MergedLines(b, c); }
    assert ExtractTableHeader(bc) == ExtractTableHeader(b) by { MergedHeader(b, c); }
    assert MergeTables(a, bc) == Some(Join(Lines(a) + Lines(bc)[2..], "\n")) by { MergeValue(a, bc); }
    SeqShift(Lines(a), Lines(b), Lines(c)[2..]);
  }

  /** Chained merges are associative whenever the two inner merges succeed. */
  lemma MergeAssociative(a: string, b: string, c: string)
    requires MergeTables(a, b).Some? && MergeTables(b, c).Some?
    ensures MergeTables(MergeTables(a, b).value, c).Some?
    ensures MergeTables(MergeTables(a, b).value, c) == MergeTables(a, MergeTables(b, c).value)
  {
    MergeLeftNested(a, b, c);
    MergeRightNested(a, b, c);
  }

  // ---------------------------------------------------------------------------
  // Header lines in the `| a | b |` form
  // ---------------------------------------------------------------------------

  /** The Markdown row `"| " + " | ".join(cells) + " |"`. */
  function RowLine(cells: seq<string>): string
  {
    "| " + Join(cells, " | ") + " |"
  }

  function Padded(cells: seq<string>): (r: seq<string>)
    ensures |r| == |cells|
    ensures forall i :: 0 <= i < |cells| ==> r[i] == " " + cells[i] + " "
  {
    seq(|cells|, i requires 0 <= i < |cells| => " " + cells[i] + " ")
  }

  lemma {:induction false} JoinPadded(cells: seq<string>)
    requires |cells| >= 1
    ensures Join(Padded(cells), "|") == " " + Join(cells, " | ") + " "
  {
    if |cells| > 1 {
      JoinPadded(cells[1..]);
      assert Padded(cells)[1..] == Padded(cells[1..]);
    }
  }

  /** Parsing a row line gives back its stripped cells when no cell holds '|'. */
  lemma RowLineCells(cells: seq<string>)
    requires |cells| >= 1
    requires forall c :: c in cells ==> '|' !in c
    ensures HeaderCells(RowLine(cells)) == MapStrip(cells)
  {
    var p := Padded(cells);
    var parts := [""] + p + [""];
    JoinPadded(cells);
    JoinAppend([""] + p, [""], "|");
    JoinAppend([""], p, "|");
    assert Join(parts, "|") == RowLine(cells);
    forall q | q in parts
      ensures '|' !in q
    {
      if q in p {
        var i :| 0 <= i < |p| && p[i] == q;
        assert cells[i] in cells;
      }
    }
    SplitJoin(parts, '|');
    assert parts[1..|parts| - 1] == p;
    forall i | 0 <= i < |cells|
      ensures Strip(p[i]) == Strip(cells[i])
    {
      StripPadded(cells[i]);
    }
  }
}
