/**
 * The table grouping and annotation of `step4_llm_parser.py`: consecutive
 * tables that share a title, or carry none, form one group; each group not
 * yet parsed is sent to the model once, and its tables are annotated with
 * the returned markdown (the first) or a note pointing at the first part
 * (the others). The model's answer for a group, which also covers a group
 * whose images are all missing, is an input.
 */
module TableGrouping {
  import opened Wrappers
  import opened SectionRecords

  // ---------------------------------------------------------------------------
  // group_tables_by_title
  // ---------------------------------------------------------------------------

  /** A table joins the open group when its title equals the group's title or is missing. */
  predicate Joins(t: TableRecord, currentTitle: Option<string>)
  {
    t.title == currentTitle || t.title.None?
  }

  /** The groups after one more table: it extends the last group when it joins, else opens a new one. */
  function AddTable(gs: seq<seq<TableRecord>>, t: TableRecord): seq<seq<TableRecord>>
  {
    if gs != [] && gs[|gs| - 1] != [] && Joins(t, gs[|gs| - 1][0].title)
    then gs[..|gs| - 1] + [gs[|gs| - 1] + [t]]
    else gs + [[t]]
  }

  /** The groups of `ts`, built one table at a time from the left. */
  function GroupsOf(ts: seq<TableRecord>): seq<seq<TableRecord>>
  {
    if ts == [] then [] else AddTable(GroupsOf(ts[..|ts| - 1]), ts[|ts| - 1])
  }

  /** The groups laid end to end. */
  function Flatten<T>(gs: seq<seq<T>>): seq<T>
  {
    if gs == [] then [] else Flatten(gs[..|gs| - 1]) + gs[|gs| - 1]
  }

  /** A group: non-empty, and every table after the first joins the first one's title. */
  predicate IsGroup(g: seq<TableRecord>)
  {
    g != [] && forall j :: 0 < j < |g| ==> Joins(g[j], g[0].title)
  }

  /** Where one group ends and the next begins: the next one's first table does not join. */
  predicate Boundary(prev: seq<TableRecord>, next: seq<TableRecord>)
  {
    prev != [] && next != [] && !Joins(next[0], prev[0].title)
  }

  /** Every one of `gs` is a group. */
  predicate AllGroups(gs: seq<seq<TableRecord>>)
  {
    forall k :: 0 <= k < |gs| ==> IsGroup(gs[k])
  }

  /** Every two neighbouring groups meet at a boundary. */
  predicate Boundaries(gs: seq<seq<TableRecord>>)
  {
    |gs| <= 1 || (Boundaries(gs[..|gs| - 1]) && Boundary(gs[|gs| - 2], gs[|gs| - 1]))
  }

  /**
   * What `group_tables_by_title` promises: the groups give back the tables
   * in order, each is a non-empty group whose later tables join its title,
   * and every group after the first starts with a table that does not join
   * the previous group's title.
   */
  predicate IsTitleGrouping(gs: seq<seq<TableRecord>>, ts: seq<TableRecord>)
  {
    Flatten(gs) == ts && AllGroups(gs) && Boundaries(gs)
  }

  /** The recursive boundary test says that every group after the first starts a new title. */
  lemma {:induction false} BoundariesAt(gs: seq<seq<TableRecord>>, k: int)
    requires Boundaries(gs) && 0 < k < |gs|
    ensures Boundary(gs[k - 1], gs[k])
  {
    if k < |gs| - 1 {
      BoundariesAt(gs[..|gs| - 1], k);
    }
  }

  lemma GroupsOfStep(ts: seq<TableRecord>, i: int)
    requires 0 <= i < |ts|
    ensures GroupsOf(ts[..i + 1]) == AddTable(GroupsOf(ts[..i]), ts[i])
  {
    assert ts[..i + 1][..i] == ts[..i];
  }

  /** `group_tables_by_title`: one pass that extends the open group or closes it and opens a new one. */
  method GroupTablesByTitle(tables: seq<TableRecord>) returns (groups: seq<seq<TableRecord>>)
    ensures groups == GroupsOf(tables)
  {
    if |tables| == 0 {
      return [];
    }
    groups := [];
    var currentGroup := [tables[0]];
    var currentTitle := tables[0].title;
    GroupsOfStep(tables, 0);
    assert tables[..0] == [];
    for i := 1 to |tables|
      invariant currentGroup != [] && currentTitle == currentGroup[0].title
      invariant groups + [currentGroup] == GroupsOf(tables[..i])
    {
      GroupsOfStep(tables, i);
      var table := tables[i];
      ghost var gs := groups + [currentGroup];
      assert gs[..|gs| - 1] == groups && gs[|gs| - 1] == currentGroup;
      if table.title == currentTitle || table.title.None? {
        currentGroup := currentGroup + [table];
      } else {
        groups := groups + [currentGroup];
        currentGroup := [table];
        currentTitle := table.title;
      }
    }
    assert tables[..|tables|] == tables;
    groups := groups + [currentGroup];
  }

  // ---------------------------------------------------------------------------
  // Properties of the grouping
  // ---------------------------------------------------------------------------

  lemma FlattenSnoc<T>(gs: seq<seq<T>>, g: seq<T>)
    ensures Flatten(gs + [g]) == Flatten(gs) + g
  {
    assert (gs + [g])[..|gs|] == gs;
  }

  /** The grouping has all three properties. */
  lemma {:induction false} GroupsOfIsGrouping(ts: seq<TableRecord>)
    ensures IsTitleGrouping(GroupsOf(ts), ts)
    ensures ts != [] ==> GroupsOf(ts) != []
  {
    if ts != [] {
      var init := ts[..|ts| - 1];
      GroupsOfIsGrouping(init);
      assert ts == init + [ts[|ts| - 1]];
      AddTableKeepsGrouping(GroupsOf(init), init, ts[|ts| - 1]);
    }
  }

  /** One more table extends the last group or opens a new one, and the result is again a grouping. */
  lemma AddTableKeepsGrouping(gs: seq<seq<TableRecord>>, init: seq<TableRecord>, t: TableRecord)
    requires IsTitleGrouping(gs, init)
    ensures IsTitleGrouping(AddTable(gs, t), init + [t]) && AddTable(gs, t) != []
  {
    if gs == [] {
      FlattenSnoc(gs, [t]);
      assert gs + [[t]] == [[t]];
    } else {
      assert IsGroup(gs[|gs| - 1]);
      if Joins(t, gs[|gs| - 1][0].title) {
        SnocJoin(gs, init, t);
      } else {
        SnocNew(gs, init, t);
      }
    }
  }

  lemma SnocJoin(gs: seq<seq<TableRecord>>, init: seq<TableRecord>, t: TableRecord)
    requires IsTitleGrouping(gs, init) && gs != [] && IsGroup(gs[|gs| - 1])
    requires Joins(t, gs[|gs| - 1][0].title)
    ensures IsTitleGrouping(gs[..|gs| - 1] + [gs[|gs| - 1] + [t]], init + [t])
  {
    var front := gs[..|gs| - 1];
    var last := gs[|gs| - 1];
    assert gs == front + [last];
    FlattenSnoc(front, last);
    FlattenSnoc(front, last + [t]);
    assert IsGroup(last + [t]);
    ReplaceLast(gs, last + [t]);
  }

  lemma SnocNew(gs: seq<seq<TableRecord>>, init: seq<TableRecord>, t: TableRecord)
    requires IsTitleGrouping(gs, init) && gs != []
    requires !Joins(t, gs[|gs| - 1][0].title)
    ensures IsTitleGrouping(gs + [[t]], init + [t])
  {
    FlattenSnoc(gs, [t]);
    NewGroup(gs, t);
  }

  /** Opening a group with a table that does not join the last group keeps the groups and the boundaries. */
  lemma NewGroup(gs: seq<seq<TableRecord>>, t: TableRecord)
    requires AllGroups(gs) && Boundaries(gs) && gs != []
    requires !Joins(t, gs[|gs| - 1][0].title)
    ensures var r := gs + [[t]]; AllGroups(r) && Boundaries(r)
  {
    var r := gs + [[t]];
    assert r[..|r| - 1] == gs;
    assert forall k :: 0 <= k < |gs| ==> r[k] == gs[k];
    assert Boundary(r[|r| - 2], r[|r| - 1]);
  }

  /** Growing the last group by a joining table keeps the groups and the boundaries. */
  lemma ReplaceLast(gs: seq<seq<TableRecord>>, g: seq<TableRecord>)
    requires AllGroups(gs) && Boundaries(gs) && gs != []
    requires IsGroup(g) && g[0] == gs[|gs| - 1][0]
    ensures var r := gs[..|gs| - 1] + [g]; AllGroups(r) && Boundaries(r)
  {
    var r := gs[..|gs| - 1] + [g];
    assert forall k :: 0 <= k < |gs| - 1 ==> r[k] == gs[k];
    assert r[..|r| - 1] == gs[..|gs| - 1];
    if |gs| > 1 {
      assert r[|r| - 2] == gs[|gs| - 2];
    }
  }

  /** Regrouping the tables of the groups gives the same groups. */
  lemma RegroupIdempotent(ts: seq<TableRecord>)
    ensures GroupsOf(Flatten(GroupsOf(ts))) == GroupsOf(ts)
  {
    GroupsOfIsGrouping(ts);
  }

  lemma FlattenEmpty<T>(gs: seq<seq<T>>)
    requires forall k :: 0 <= k < |gs| ==> gs[k] != []
    ensures Flatten(gs) == [] <==> gs == []
  {
    if gs != [] {
      assert |Flatten(gs)| >= |gs[|gs| - 1]|;
    }
  }

  /** The groups without their last table: the last group shortened, or dropped when it had one table. */
  function Shorten(gs: seq<seq<TableRecord>>): seq<seq<TableRecord>>
    requires gs != [] && gs[|gs| - 1] != []
  {
    var last := gs[|gs| - 1];
    if |last| == 1 then gs[..|gs| - 1] else gs[..|gs| - 1] + [last[..|last| - 1]]
  }

  /** Without its last table, a grouping is a grouping of the shorter list. */
  lemma ShorterGrouping(gs: seq<seq<TableRecord>>, ts: seq<TableRecord>)
    requires IsTitleGrouping(gs, ts) && ts != []
    ensures gs != [] && gs[|gs| - 1] != []
    ensures IsTitleGrouping(Shorten(gs), ts[..|ts| - 1])
  {
    FlattenEmpty(gs);
    var front := gs[..|gs| - 1];
    var last := gs[|gs| - 1];
    assert gs == front + [last];
    FlattenSnoc(front, last);
    assert ts == Flatten(front) + last;
    assert IsGroup(last);
    if |last| == 1 {
      assert Flatten(front) == ts[..|ts| - 1];
      assert forall k :: 0 <= k < |front| ==> front[k] == gs[k];
    } else {
      var shorter := last[..|last| - 1];
      FlattenSnoc(front, shorter);
      assert last == shorter + [last[|last| - 1]];
      assert Flatten(front + [shorter]) == ts[..|ts| - 1];
      assert IsGroup(shorter);
      ReplaceLast(gs, shorter);
    }
  }

  /** A last group of one table is the group the grouping opens for that table. */
  lemma UniqueStepNew(gs: seq<seq<TableRecord>>, t: TableRecord)
    requires AllGroups(gs) && Boundaries(gs) && gs != [] && gs[|gs| - 1] == [t]
    ensures gs == AddTable(gs[..|gs| - 1], t)
  {
    var front := gs[..|gs| - 1];
    assert gs == front + [[t]];
    if front != [] {
      assert Boundary(gs[|gs| - 2], gs[|gs| - 1]);
      assert front[|front| - 1] == gs[|gs| - 2];
    }
  }

  /** A last group of several tables is the shortened last group grown by its last table. */
  lemma UniqueStepJoin(gs: seq<seq<TableRecord>>)
    requires gs != [] && |gs[|gs| - 1]| > 1 && IsGroup(gs[|gs| - 1])
    ensures var last := gs[|gs| - 1]; gs == AddTable(Shorten(gs), last[|last| - 1])
  {
    var front := gs[..|gs| - 1];
    var last := gs[|gs| - 1];
    var shorter := last[..|last| - 1];
    var g' := Shorten(gs);
    assert g' == front + [shorter];
    assert g'[..|g'| - 1] == front && g'[|g'| - 1] == shorter;
    assert Joins(last[|last| - 1], last[0].title);
    assert last == shorter + [last[|last| - 1]];
    assert gs == front + [last];
  }

  /** A grouping is its own shortened form with its last table added back. */
  lemma UniqueStep(gs: seq<seq<TableRecord>>, ts: seq<TableRecord>)
    requires IsTitleGrouping(gs, ts) && ts != [] && gs != [] && gs[|gs| - 1] != []
    ensures gs == AddTable(Shorten(gs), ts[|ts| - 1])
  {
    var front := gs[..|gs| - 1];
    var last := gs[|gs| - 1];
    assert gs == front + [last];
    FlattenSnoc(front, last);
    assert ts[|ts| - 1] == last[|last| - 1];
    assert IsGroup(last);
    if |last| == 1 {
      UniqueStepNew(gs, last[0]);
    } else {
      UniqueStepJoin(gs);
    }
  }

  /**
   * The grouping is the only one with the three properties, so those
   * properties define `group_tables_by_title` completely.
   */
  lemma {:induction false} GroupingUnique(gs: seq<seq<TableRecord>>, ts: seq<TableRecord>)
    requires IsTitleGrouping(gs, ts)
    ensures gs == GroupsOf(ts)
    decreases |ts|
  {
    if ts == [] {
      FlattenEmpty(gs);
    } else {
      ShorterGrouping(gs, ts);
      GroupingUnique(Shorten(gs), ts[..|ts| - 1]);
      UniqueStep(gs, ts);
    }
  }

  // ---------------------------------------------------------------------------
  // The per-group rule of parse_section_tables
  // ---------------------------------------------------------------------------

  const UntitledTable: string := "Untitled Table"

  /** A group whose first table already holds more than 10 characters of markdown is skipped. */
  predicate AlreadyParsed(g: seq<TableRecord>)
    requires g != []
  {
    g[0].tableMd.Some? && |g[0].tableMd.value| > 10
  }

  /** The group's title: the first table's title when truthy, else "Untitled Table". */
  function GroupTitle(g: seq<TableRecord>): string
    requires g != []
  {
    if Truthy(g[0].title) then g[0].title.value else UntitledTable
  }

  function ContinuationNote(title: string): string
  {
    "(Continuation of " + title + " - see first part)"
  }

  /** The group with its markdown: the whole markdown on the first table, the note on the others. */
  function Annotated(g: seq<TableRecord>, title: string, markdown: string): seq<TableRecord>
  {
    seq(|g|, i requires 0 <= i < |g| =>
      g[i].(tableMd := Some(if i == 0 then markdown else ContinuationNote(title))))
  }

  /** The loop that writes `table_md` on every table of a parsed group. */
  method AnnotateGroup(g: seq<TableRecord>, title: string, markdown: string) returns (g': seq<TableRecord>)
    ensures g' == Annotated(g, title, markdown)
  {
    g' := g;
    for i := 0 to |g|
      invariant |g'| == |g|
      invariant forall k :: 0 <= k < i ==> g'[k] == Annotated(g, title, markdown)[k]
      invariant forall k :: i <= k < |g| ==> g'[k] == g[k]
    {
      if i == 0 {
        g' := g'[i := g'[i].(tableMd := Some(markdown))];
      } else {
        g' := g'[i := g'[i].(tableMd := Some(ContinuationNote(title)))];
      }
    }
  }

  /** The table with its markdown field cleared: everything the annotation must not touch. */
  function Unannotated(t: TableRecord): TableRecord
  {
    t.(tableMd := None)
  }

  function UnannotatedAll(ts: seq<TableRecord>): seq<TableRecord>
  {
    seq(|ts|, i requires 0 <= i < |ts| => Unannotated(ts[i]))
  }

  /**
   * The annotation keeps the group's length and every other field; the
   * first table gets the markdown and every other the note naming the title.
   */
  lemma AnnotatedFields(g: seq<TableRecord>, title: string, markdown: string)
    ensures |Annotated(g, title, markdown)| == |g|
    ensures UnannotatedAll(Annotated(g, title, markdown)) == UnannotatedAll(g)
    ensures g != [] ==> Annotated(g, title, markdown)[0].tableMd == Some(markdown)
    ensures forall i :: 0 < i < |g| ==>
              Annotated(g, title, markdown)[i].tableMd == Some("(Continuation of " + title + " - see first part)")
  {
  }

  /** Every group is non-empty (what the per-group functions need). */
  predicate NonEmptyGroups(gs: seq<seq<TableRecord>>)
  {
    forall k :: 0 <= k < |gs| ==> gs[k] != []
  }

  /** What one group becomes, with the model's answer for it. */
  function GroupResult(g: seq<TableRecord>, answer: Option<string>): seq<TableRecord>
    requires g != []
  {
    if AlreadyParsed(g) || !Truthy(answer) then g
    else Annotated(g, GroupTitle(g), answer.value)
  }

  predicate GroupUpdated(g: seq<TableRecord>, answer: Option<string>)
    requires g != []
  {
    !AlreadyParsed(g) && Truthy(answer)
  }

  /** The tables after every group is processed, in order. */
  function Results(gs: seq<seq<TableRecord>>, answer: seq<TableRecord> -> Option<string>): seq<TableRecord>
    requires NonEmptyGroups(gs)
  {
    if gs == [] then []
    else Results(gs[..|gs| - 1], answer) + GroupResult(gs[|gs| - 1], answer(gs[|gs| - 1]))
  }

  /** The number of groups whose tables were annotated. */
  function UpdatedCount(gs: seq<seq<TableRecord>>, answer: seq<TableRecord> -> Option<string>): nat
    requires NonEmptyGroups(gs)
  {
    if gs == [] then 0
    else UpdatedCount(gs[..|gs| - 1], answer) + (if GroupUpdated(gs[|gs| - 1], answer(gs[|gs| - 1])) then 1 else 0)
  }

  /**
   * `parse_section_tables` once the section is loaded: group the tables,
   * skip the groups already parsed, annotate each group the model answered
   * with non-empty markdown, and rewrite the file when some group was
   * annotated. `answer` is the model's markdown for a group.
   */
  method ParseSectionTables(tables: seq<TableRecord>, answer: seq<TableRecord> -> Option<string>)
    returns (tables': seq<TableRecord>, rewritten: bool)
    ensures tables == [] ==> tables' == [] && !rewritten
    ensures tables != [] ==> NonEmptyGroups(GroupsOf(tables)) && tables' == Results(GroupsOf(tables), answer)
    ensures tables != [] ==> (rewritten <==> UpdatedCount(GroupsOf(tables), answer) > 0)
  {
    if tables == [] {
      return [], false;
    }
    var groups := GroupTablesByTitle(tables);
    GroupsAreGroups(tables);
    var updatedCount;
    tables', updatedCount := ProcessGroups(groups, answer);
    rewritten := updatedCount > 0;
  }

  /** The grouping gives groups in the sense of `IsGroup`. */
  lemma GroupsAreGroups(tables: seq<TableRecord>)
    ensures AllGroups(GroupsOf(tables))
  {
    GroupsOfIsGrouping(tables);
  }

  /** The group loop: each group's tables in turn, counting the groups annotated. */
  method ProcessGroups(groups: seq<seq<TableRecord>>, answer: seq<TableRecord> -> Option<string>)
    returns (tables': seq<TableRecord>, updatedCount: nat)
    requires AllGroups(groups)
    ensures NonEmptyGroups(groups)
    ensures tables' == Results(groups, answer) && updatedCount == UpdatedCount(groups, answer)
  {
    tables', updatedCount := [], 0;
    for k := 0 to |groups|
      invariant NonEmptyGroups(groups[..k])
      invariant tables' == Results(groups[..k], answer)
      invariant updatedCount == UpdatedCount(groups[..k], answer)
    {
      ResultsStep(groups, answer, k);
      var group', updated := ProcessGroup(groups[k], answer);
      tables' := tables' + group';
      if updated {
        updatedCount := updatedCount + 1;
      }
    }
    assert groups[..|groups|] == groups;
  }

  /** One group: skipped when already parsed, else annotated when the model answers with non-empty markdown. */
  method ProcessGroup(group: seq<TableRecord>, answer: seq<TableRecord> -> Option<string>)
    returns (group': seq<TableRecord>, updated: bool)
    requires group != []
    ensures group' == GroupResult(group, answer(group))
    ensures updated == GroupUpdated(group, answer(group))
  {
    if AlreadyParsed(group) {
      return group, false;
    }
    var groupTitle := GroupTitle(group);
    var markdown := answer(group);
    if Truthy(markdown) {
      group' := AnnotateGroup(group, groupTitle, markdown.value);
      updated := true;
    } else {
      group', updated := group, false;
    }
  }

  lemma ResultsStep(gs: seq<seq<TableRecord>>, answer: seq<TableRecord> -> Option<string>, k: int)
    requires AllGroups(gs) && 0 <= k < |gs|
    ensures NonEmptyGroups(gs[..k + 1]) && NonEmptyGroups(gs[..k]) && gs[k] != []
    ensures Results(gs[..k + 1], answer) == Results(gs[..k], answer) + GroupResult(gs[k], answer(gs[k]))
    ensures UpdatedCount(gs[..k + 1], answer)
         == UpdatedCount(gs[..k], answer) + (if GroupUpdated(gs[k], answer(gs[k])) then 1 else 0)
  {
    assert forall j :: 0 <= j < k + 1 ==> gs[..k + 1][j] == gs[j] && IsGroup(gs[j]);
    assert gs[..k + 1][..k] == gs[..k];
  }

  lemma {:induction false} ResultsKeepFields(gs: seq<seq<TableRecord>>, answer: seq<TableRecord> -> Option<string>)
    requires NonEmptyGroups(gs)
    ensures UnannotatedAll(Results(gs, answer)) == UnannotatedAll(Flatten(gs))
  {
    if gs != [] {
      var front := gs[..|gs| - 1];
      var g := gs[|gs| - 1];
      ResultsKeepFields(front, answer);
      var r := GroupResult(g, answer(g));
      AnnotatedFields(g, GroupTitle(g), if answer(g).Some? then answer(g).value else "");
      UnannotatedAppend(Results(front, answer), r);
      UnannotatedAppend(Flatten(front), g);
    }
  }

  lemma UnannotatedAppend(a: seq<TableRecord>, b: seq<TableRecord>)
    ensures UnannotatedAll(a + b) == UnannotatedAll(a) + UnannotatedAll(b)
  {
  }

  /**
   * Processing a section's tables changes nothing but `table_md`: the same
   * number of tables in the same order with all other fields as they were.
   */
  lemma OnlyMarkdownChanges(tables: seq<TableRecord>, answer: seq<TableRecord> -> Option<string>)
    requires tables != []
    ensures NonEmptyGroups(GroupsOf(tables))
    ensures UnannotatedAll(Results(GroupsOf(tables), answer)) == UnannotatedAll(tables)
  {
    GroupsOfIsGrouping(tables);
    ResultsKeepFields(GroupsOf(tables), answer);
  }
}
