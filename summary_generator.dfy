/**
 * The summary generator of `step7_summary_generator.py`: section markdown
 * files are loaded by name (`{sort_idx}_{id}_{title}.md`) and ordered by
 * their sort index; each section is hung under the section whose id is its
 * own id up to the last dot; and the flat list is cut into summary units,
 * one per section of depth at most two, with the deeper sections after it
 * merged into its text. A unit whose text is short gets a fixed summary
 * instead of the model's. The directory listing, the file contents and the
 * model's replies are inputs.
 */
module SummaryGeneration {
  import opened Wrappers
  import opened Strings
  import Seqs

  // ---------------------------------------------------------------------------
  // File names: re.match(r"(\d+)_([^_]+)_(.+)\.md", name)
  // ---------------------------------------------------------------------------

  datatype ParsedName = ParsedName(sortIdx: nat, id: string, title: string)

  /** The length of the run of digits at the start of `s`. */
  function DigitRun(s: string): (n: nat)
    ensures n <= |s|
  {
    if s == [] || !IsDigit(s[0]) then 0 else 1 + DigitRun(s[1..])
  }

  /**
   * The length of the run of characters other than `c` at the start of `s`:
   * the position of the first `c`, or the end of `s`.
   */
  function RunBefore(s: string, c: char): (n: nat)
    ensures n <= |s|
  {
    if s == [] || s[0] == c then 0 else 1 + RunBefore(s[1..], c)
  }

  /** ".md" starts at position `i` of `line`. */
  predicate MdAt(line: string, i: int)
  {
    0 <= i && i + 3 <= |line| && line[i] == '.' && line[i + 1] == 'm' && line[i + 2] == 'd'
  }

  /** The largest `i`, from `k` down to 1, at which ".md" starts in `line`. */
  function LastMdFrom(line: string, k: int): (r: Option<nat>)
    ensures r.Some? ==> 1 <= r.value <= k && MdAt(line, r.value)
    decreases k
  {
    if k < 1 then None
    else if MdAt(line, k) then Some(k)
    else LastMdFrom(line, k - 1)
  }

  /** The greedy title `(.+)\.md`: the first line of `s` up to its last ".md", if that is not at the start. */
  function ParseTitle(s: string): Option<string>
  {
    var line := s[..RunBefore(s, '\n')];
    match LastMdFrom(line, |line| - 3)
    case None => None
    case Some(k) => Some(line[..k])
  }

  /** `([^_]+)_`: the maximal run without '_', which must be followed by '_', and what comes after. */
  function SplitId(s: string): (r: Option<(string, string)>)
    ensures r.Some? ==> r.value.0 != [] && Without(r.value.0, '_') && s == r.value.0 + "_" + r.value.1
  {
    var m := RunBefore(s, '_');
    if m == 0 || m == |s| || s[m] != '_' then None
    else
      RunBeforeSpec(s, '_');
      SplitAt(s, m);
      Some((s[..m], s[m + 1..]))
  }

  /** `([^_]+)_(.+)\.md`: the id, then '_', then the title. */
  function ParseIdTitle(s: string): Option<(string, string)>
  {
    match SplitId(s)
    case None => None
    case Some((id, rest)) =>
      match ParseTitle(rest)
      case None => None
      case Some(title) => Some((id, title))
  }

  /** `(\d+)_`: the maximal digit run, which must be followed by '_', and what comes after. */
  function SplitDigits(name: string): (r: Option<(string, string)>)
    ensures r.Some? ==> IsDigitString(r.value.0) && name == r.value.0 + "_" + r.value.1
  {
    var n := DigitRun(name);
    if n == 0 || n == |name| || name[n] != '_' then None
    else
      DigitRunSpec(name);
      SplitAt(name, n);
      Some((name[..n], name[n + 1..]))
  }

  lemma SplitAt(s: string, n: int)
    requires 0 <= n < |s|
    ensures s == s[..n] + [s[n]] + s[n + 1..]
  {
  }

  /**
   * The regular expression anchored at the start only: the maximal digit
   * run, '_', then the id and the title. A name that does not match gives
   * None.
   */
  function ParseName(name: string): Option<ParsedName>
  {
    match SplitDigits(name)
    case None => None
    case Some((digits, rest)) =>
      match ParseIdTitle(rest)
      case None => None
      case Some((id, title)) => Some(ParsedName(DigitsValue(digits), id, title))
  }

  lemma {:induction false} DigitRunSpec(s: string)
    ensures forall i :: 0 <= i < DigitRun(s) ==> IsDigit(s[i])
    ensures DigitRun(s) < |s| ==> !IsDigit(s[DigitRun(s)])
  {
    if s != [] && IsDigit(s[0]) {
      DigitRunSpec(s[1..]);
    }
  }

  lemma {:induction false} RunBeforeSpec(s: string, c: char)
    ensures forall i :: 0 <= i < RunBefore(s, c) ==> s[i] != c
    ensures RunBefore(s, c) < |s| ==> s[RunBefore(s, c)] == c
  {
    if s != [] && s[0] != c {
      RunBeforeSpec(s[1..], c);
    }
  }

  /** The search finds no ".md" above the one it returns, and none at all when it returns None. */
  lemma {:induction false} LastMdFromSpec(line: string, k: int)
    ensures LastMdFrom(line, k).Some? ==> forall i :: LastMdFrom(line, k).value < i <= k ==> !MdAt(line, i)
    ensures LastMdFrom(line, k).None? ==> forall i :: 1 <= i <= k ==> !MdAt(line, i)
    decreases k
  {
    if k >= 1 && !MdAt(line, k) {
      LastMdFromSpec(line, k - 1);
    }
  }

  /** No character of `s` is `c`. */
  predicate Without(s: string, c: char)
  {
    forall i :: 0 <= i < |s| ==> s[i] != c
  }

  /** The run functions stop exactly at the separator they look for. */
  lemma RunsOf(d: string, rest: string)
    requires forall i :: 0 <= i < |d| ==> IsDigit(d[i])
    requires rest != [] && !IsDigit(rest[0])
    ensures DigitRun(d + rest) == |d|
    decreases |d|
  {
    if d != [] {
      assert (d + rest)[1..] == d[1..] + rest;
      RunsOf(d[1..], rest);
    }
  }

  /** A run without `c` followed by `c` or by nothing is measured exactly. */
  lemma RunBeforeOf(run: string, rest: string, c: char)
    requires Without(run, c) && (rest == [] || rest[0] == c)
    ensures RunBefore(run + rest, c) == |run|
    decreases |run|
  {
    if run != [] {
      assert (run + rest)[1..] == run[1..] + rest;
      RunBeforeOf(run[1..], rest, c);
    } else {
      assert run + rest == rest;
    }
  }

  lemma ParseTitleOf(title: string)
    requires title != [] && Without(title, '\n')
    ensures ParseTitle(title + ".md") == Some(title)
  {
    var line := title + ".md";
    RunBeforeOf(line, [], '\n');
    assert line + [] == line;
    assert line[..RunBefore(line, '\n')] == line;
    assert MdAt(line, |title|);
    assert line[..|title|] == title;
  }

  lemma ParseIdTitleOf(id: string, title: string)
    requires id != [] && Without(id, '_')
    requires title != [] && Without(title, '\n')
    ensures ParseIdTitle(id + "_" + title + ".md") == Some((id, title))
  {
    var s := id + "_" + title + ".md";
    assert s == id + ("_" + title + ".md");
    RunBeforeOf(id, "_" + title + ".md", '_');
    assert s[|id| + 1..] == title + ".md";
    assert s[..|id|] == id;
    assert SplitId(s) == Some((id, title + ".md"));
    ParseTitleOf(title);
  }

  /**
   * The names the pipeline writes read back: the sort index is the value
   * of the digits, the id is the part between the first two underscores
   * and the title the rest before ".md".
   */
  lemma ParseNameOf(digits: string, id: string, title: string)
    requires IsDigitString(digits)
    requires id != [] && Without(id, '_')
    requires title != [] && Without(title, '\n')
    ensures ParseName(digits + "_" + id + "_" + title + ".md")
         == Some(ParsedName(DigitsValue(digits), id, title))
  {
    var rest := id + "_" + title + ".md";
    var name := digits + "_" + id + "_" + title + ".md";
    assert name == digits + ("_" + rest);
    RunsOf(digits, "_" + rest);
    assert name[..|digits|] == digits;
    assert name[|digits| + 1..] == rest;
    assert SplitDigits(name) == Some((digits, rest));
    ParseIdTitleOf(id, title);
  }

  lemma ParseTitleShape(s: string)
    requires ParseTitle(s).Some?
    ensures var t := ParseTitle(s).value;
            t != [] && Without(t, '\n') && |t| + 3 <= |s| && s == t + ".md" + s[|t| + 3..]
  {
    var line := s[..RunBefore(s, '\n')];
    RunBeforeSpec(s, '\n');
    var k := LastMdFrom(line, |line| - 3).value;
    assert s == line[..k] + ".md" + s[k + 3..];
  }

  lemma ParseIdTitleShape(s: string)
    requires ParseIdTitle(s).Some?
    ensures var (id, t) := ParseIdTitle(s).value;
            id != [] && Without(id, '_') && t != [] && Without(t, '\n')
            && |id| + |t| + 4 <= |s| && s == id + "_" + t + ".md" + s[|id| + |t| + 4..]
  {
    var (id, r) := SplitId(s).value;
    ParseTitleShape(r);
    var t := ParseTitle(r).value;
    Layout2(s, id, r, t, r[|t| + 3..]);
  }

  lemma Layout2(s: string, id: string, r: string, t: string, tail: string)
    requires s == id + "_" + r && r == t + ".md" + tail
    ensures |id| + |t| + 4 <= |s| && s == id + "_" + t + ".md" + s[|id| + |t| + 4..]
  {
    assert s[|id| + |t| + 4..] == tail;
  }

  /**
   * What a parsed name tells about the name: digits with the sort index as
   * their value, a non-empty id without '_', a non-empty one-line title and
   * ".md", laid out as the pattern demands (the match is not anchored at the end).
   */
  lemma ParseNameShape(name: string, p: ParsedName)
    requires ParseName(name) == Some(p)
    ensures p.id != [] && Without(p.id, '_') && p.title != [] && Without(p.title, '\n')
    ensures exists digits: string, tail: string :: IsDigitString(digits) && DigitsValue(digits) == p.sortIdx
              && name == digits + "_" + p.id + "_" + p.title + ".md" + tail
  {
    var (digits, r) := SplitDigits(name).value;
    ParseIdTitleShape(r);
    var tail := r[|p.id| + |p.title| + 4..];
    Layout(name, digits, r, p.id, p.title, tail);
  }

  lemma Layout(name: string, digits: string, r: string, id: string, t: string, tail: string)
    requires name == digits + "_" + r && r == id + "_" + t + ".md" + tail
    ensures name == digits + "_" + id + "_" + t + ".md" + tail
  {
  }

  // ---------------------------------------------------------------------------
  // Sections and load_sections
  // ---------------------------------------------------------------------------

  datatype Section = Section(id: string, title: string, sortIdx: nat, depth: nat, content: string, filename: string)

  function CountChar(s: string, c: char): nat
  {
    if s == [] then 0 else CountChar(s[..|s| - 1], c) + (if s[|s| - 1] == c then 1 else 0)
  }

  /** A loaded section: its depth is one more than the number of dots in its id. */
  function SectionOf(p: ParsedName, name: string, content: string): Section
  {
    Section(p.id, p.title, p.sortIdx, CountChar(p.id, '.') + 1, content, name)
  }

  /** The sections of the files whose names match, in listing order. */
  function Loaded(files: seq<string>, read: string -> string): seq<Section>
  {
    if files == [] then []
    else
      var f := files[|files| - 1];
      Loaded(files[..|files| - 1], read)
        + match ParseName(f) case None => [] case Some(p) => [SectionOf(p, f, read(f))]
  }

  /** Every loaded section comes from a matching file. */
  lemma {:induction false} LoadedFromFiles(files: seq<string>, read: string -> string)
    ensures |Loaded(files, read)| <= |files|
    ensures forall s :: s in Loaded(files, read) ==>
              exists f :: f in files && ParseName(f).Some? && s == SectionOf(ParseName(f).value, f, read(f))
  {
    if files != [] {
      var init := files[..|files| - 1];
      LoadedFromFiles(init, read);
      forall s | s in Loaded(files, read)
        ensures exists f :: f in files && ParseName(f).Some? && s == SectionOf(ParseName(f).value, f, read(f))
      {
        if s in Loaded(init, read) {
          var f :| f in init && ParseName(f).Some? && s == SectionOf(ParseName(f).value, f, read(f));
          assert f in files;
        } else {
          assert files[|files| - 1] in files;
        }
      }
    }
  }

  /** Every matching file gives a loaded section. */
  lemma {:induction false} FilesAreLoaded(files: seq<string>, read: string -> string)
    ensures forall f :: f in files && ParseName(f).Some? ==>
              SectionOf(ParseName(f).value, f, read(f)) in Loaded(files, read)
  {
    if files != [] {
      var init := files[..|files| - 1];
      FilesAreLoaded(init, read);
      assert files == init + [files[|files| - 1]];
    }
  }

  // ---------------------------------------------------------------------------
  // self.sections.sort(key=lambda x: x['sort_idx']): a stable sort
  // ---------------------------------------------------------------------------

  /** Insert `x` after every section whose index is at most its own. */
  function InsertByIdx(sorted: seq<Section>, x: Section): seq<Section>
  {
    if sorted == [] || sorted[|sorted| - 1].sortIdx <= x.sortIdx then sorted + [x]
    else InsertByIdx(sorted[..|sorted| - 1], x) + [sorted[|sorted| - 1]]
  }

  function SortByIdx(s: seq<Section>): seq<Section>
  {
    if s == [] then [] else InsertByIdx(SortByIdx(s[..|s| - 1]), s[|s| - 1])
  }

  predicate SortedByIdx(s: seq<Section>)
  {
    forall i, j :: 0 <= i < j < |s| ==> s[i].sortIdx <= s[j].sortIdx
  }

  /** The sections with a given sort index, in order. */
  function WithIdx(s: seq<Section>, k: nat): seq<Section>
  {
    if s == [] then []
    else WithIdx(s[..|s| - 1], k) + (if s[|s| - 1].sortIdx == k then [s[|s| - 1]] else [])
  }

  /** Inserting adds `x` and keeps every other section. */
  lemma {:induction false} InsertMembers(sorted: seq<Section>, x: Section)
    ensures multiset(InsertByIdx(sorted, x)) == multiset(sorted) + multiset{x}
    ensures |InsertByIdx(sorted, x)| == |sorted| + 1
  {
    if sorted != [] && sorted[|sorted| - 1].sortIdx > x.sortIdx {
      var front := sorted[..|sorted| - 1];
      assert sorted == front + [sorted[|sorted| - 1]];
      InsertMembers(front, x);
    }
  }

  lemma {:induction false} InsertKeepsSorted(sorted: seq<Section>, x: Section)
    requires SortedByIdx(sorted)
    ensures SortedByIdx(InsertByIdx(sorted, x))
  {
    if sorted != [] && sorted[|sorted| - 1].sortIdx > x.sortIdx {
      var front := sorted[..|sorted| - 1];
      var last := sorted[|sorted| - 1];
      InsertKeepsSorted(front, x);
      InsertBelow(front, x, last);
      InsertSnocSorted(InsertByIdx(front, x), last);
    } else {
      InsertSnocSorted(sorted, x);
    }
  }

  /** When every section and `x` are at most `bound`, so is every section after inserting. */
  lemma InsertBelow(front: seq<Section>, x: Section, bound: Section)
    requires x.sortIdx <= bound.sortIdx
    requires forall i :: 0 <= i < |front| ==> front[i].sortIdx <= bound.sortIdx
    ensures forall i :: 0 <= i < |InsertByIdx(front, x)| ==> InsertByIdx(front, x)[i].sortIdx <= bound.sortIdx
  {
    var r := InsertByIdx(front, x);
    InsertMembers(front, x);
    forall i | 0 <= i < |r|
      ensures r[i].sortIdx <= bound.sortIdx
    {
      assert r[i] in multiset(r);
      if r[i] != x {
        assert r[i] in multiset(front);
      }
    }
  }

  lemma InsertSnocSorted(r: seq<Section>, last: Section)
    requires SortedByIdx(r)
    requires forall i :: 0 <= i < |r| ==> r[i].sortIdx <= last.sortIdx
    ensures SortedByIdx(r + [last])
  {
  }

  /** Inserting keeps the order among the sections of each index, with `x` after its equals. */
  lemma {:induction false} InsertStable(sorted: seq<Section>, x: Section, k: nat)
    ensures WithIdx(InsertByIdx(sorted, x), k) == WithIdx(sorted, k) + (if x.sortIdx == k then [x] else [])
  {
    if sorted == [] || sorted[|sorted| - 1].sortIdx <= x.sortIdx {
      assert (sorted + [x])[..|sorted|] == sorted;
    } else {
      var front := sorted[..|sorted| - 1];
      var last := sorted[|sorted| - 1];
      InsertStable(front, x, k);
      var r := InsertByIdx(front, x);
      assert InsertByIdx(sorted, x) == r + [last];
      assert (r + [last])[..|r|] == r;
      assert WithIdx(r + [last], k) == WithIdx(r, k) + (if last.sortIdx == k then [last] else []);
      assert WithIdx(sorted, k) == WithIdx(front, k) + (if last.sortIdx == k then [last] else []);
      Seqs.Assoc(WithIdx(front, k), if x.sortIdx == k then [x] else [], if last.sortIdx == k then [last] else []);
    }
  }

  /**
   * The sort orders by index, keeps every section, and keeps the listing
   * order among sections of equal index (Python's sort is stable).
   */
  lemma SortByIdxSpec(s: seq<Section>)
    ensures SortedByIdx(SortByIdx(s))
    ensures multiset(SortByIdx(s)) == multiset(s)
  {
    SortByIdxSorted(s);
    SortByIdxPerm(s);
  }

  lemma {:induction false} SortByIdxSorted(s: seq<Section>)
    ensures SortedByIdx(SortByIdx(s))
  {
    if s != [] {
      var init := s[..|s| - 1];
      SortByIdxSorted(init);
      InsertKeepsSorted(SortByIdx(init), s[|s| - 1]);
    }
  }

  lemma {:induction false} SortByIdxPerm(s: seq<Section>)
    ensures multiset(SortByIdx(s)) == multiset(s)
  {
    if s != [] {
      var init := s[..|s| - 1];
      var x := s[|s| - 1];
      SortByIdxPerm(init);
      InsertMembers(SortByIdx(init), x);
      assert SortByIdx(s) == InsertByIdx(SortByIdx(init), x);
      assert s == init + [x];
      assert multiset(s) == multiset(init) + multiset{x};
    }
  }

  lemma {:induction false} SortByIdxStable(s: seq<Section>, k: nat)
    ensures WithIdx(SortByIdx(s), k) == WithIdx(s, k)
  {
    if s != [] {
      var init := s[..|s| - 1];
      SortByIdxStable(init, k);
      InsertStable(SortByIdx(init), s[|s| - 1], k);
    }
  }

  // ---------------------------------------------------------------------------
  // The tree of organize_hierarchy_and_merge
  // ---------------------------------------------------------------------------

  /** The position of the last '.' in `s`. */
  function LastDot(s: string): (d: nat)
    requires '.' in s
    ensures d < |s| && s[d] == '.'
  {
    if s[|s| - 1] == '.' then |s| - 1
    else
      assert s == s[..|s| - 1] + [s[|s| - 1]];
      LastDot(s[..|s| - 1])
  }

  lemma {:induction false} LastDotIsLast(s: string)
    requires '.' in s
    ensures forall i :: LastDot(s) < i < |s| ==> s[i] != '.'
  {
    if s[|s| - 1] != '.' {
      assert s == s[..|s| - 1] + [s[|s| - 1]];
      LastDotIsLast(s[..|s| - 1]);
    }
  }

  /** `id.rsplit('.', 1)[0] if '.' in id else None`: the id up to its last dot. */
  function ParentId(id: string): Option<string>
  {
    if '.' in id then Some(id[..LastDot(id)]) else None
  }

  /** `{s['id']: s for s in sections}`: each id mapped to the last section carrying it. */
  function IdIndex(secs: seq<Section>): map<string, nat>
  {
    if secs == [] then map[]
    else IdIndex(secs[..|secs| - 1])[secs[|secs| - 1].id := |secs| - 1]
  }

  /** The map holds exactly the ids of the sections, each at its last position. */
  lemma {:induction false} IdIndexSpec(secs: seq<Section>)
    ensures forall id :: id in IdIndex(secs) ==>
              IdIndex(secs)[id] < |secs| && secs[IdIndex(secs)[id]].id == id
              && forall k :: IdIndex(secs)[id] < k < |secs| ==> secs[k].id != id
    ensures forall k :: 0 <= k < |secs| ==> secs[k].id in IdIndex(secs)
  {
    if secs != [] {
      var n := |secs| - 1;
      var init, last := secs[..n], secs[n];
      IdIndexSpec(init);
      var m := IdIndex(init);
      assert IdIndex(secs) == m[last.id := n];
      forall id | id in IdIndex(secs) && id != last.id
        ensures IdIndex(secs)[id] < |secs| && secs[IdIndex(secs)[id]].id == id
        ensures forall k :: IdIndex(secs)[id] < k < |secs| ==> secs[k].id != id
      {
        var p := m[id];
        assert init[p] == secs[p];
        forall k | p < k < n
          ensures secs[k].id != id
        {
          assert init[k] == secs[k];
        }
      }
      forall k | 0 <= k < n
        ensures secs[k].id in IdIndex(secs)
      {
        assert init[k] == secs[k];
      }
    }
  }

  /**
   * The section a section is hung under: the last one whose id is its
   * parent id, when that id is non-empty; None makes it a root.
   */
  function ParentOf(secs: seq<Section>, i: int): (r: Option<nat>)
    requires 0 <= i < |secs|
    ensures r.Some? ==> r.value < |secs|
  {
    IdIndexSpec(secs);
    var pid := ParentId(secs[i].id);
    var index := IdIndex(secs);
    if pid.Some? && pid.value != "" && pid.value in index then Some(index[pid.value]) else None
  }

  /** The roots among the first `n` sections, in order. */
  function RootsUpTo(secs: seq<Section>, n: int): seq<nat>
    requires 0 <= n <= |secs|
  {
    if n == 0 then []
    else RootsUpTo(secs, n - 1) + (if ParentOf(secs, n - 1).None? then [n - 1] else [])
  }

  /** The children of section `j` among the first `n` sections, in order. */
  function ChildrenUpTo(secs: seq<Section>, j: int, n: int): seq<nat>
    requires 0 <= n <= |secs|
  {
    if n == 0 then []
    else ChildrenUpTo(secs, j, n - 1) + (if ParentOf(secs, n - 1) == Some(j) then [n - 1] else [])
  }

  /** The parent is a section whose id is the child's id up to its last dot, and the last such section. */
  lemma ParentOfSpec(secs: seq<Section>, i: int)
    requires 0 <= i < |secs|
    ensures ParentOf(secs, i).Some? ==>
              var j := ParentOf(secs, i).value;
              j < |secs| && ParentId(secs[i].id) == Some(secs[j].id) && secs[j].id != ""
              && forall k :: j < k < |secs| ==> secs[k].id != secs[j].id
    ensures ParentOf(secs, i).None? <==>
              ParentId(secs[i].id) in {None, Some("")}
              || forall k :: 0 <= k < |secs| ==> Some(secs[k].id) != ParentId(secs[i].id)
  {
    IdIndexSpec(secs);
  }

  /** A section is listed as a root exactly when it has no parent. */
  lemma {:induction false} RootsMembers(secs: seq<Section>, n: int)
    requires 0 <= n <= |secs|
    ensures forall i :: i in RootsUpTo(secs, n) <==> 0 <= i < n && ParentOf(secs, i).None?
  {
    if n > 0 {
      RootsMembers(secs, n - 1);
    }
  }

  /** A section is listed among the children of `j` exactly when `j` is its parent. */
  lemma {:induction false} ChildrenMembers(secs: seq<Section>, j: int, n: int)
    requires 0 <= n <= |secs|
    ensures forall i :: i in ChildrenUpTo(secs, j, n) <==> 0 <= i < n && ParentOf(secs, i) == Some(j)
  {
    if n > 0 {
      ChildrenMembers(secs, j, n - 1);
    }
  }

  predicate Increasing(s: seq<nat>)
  {
    forall a, b :: 0 <= a < b < |s| ==> s[a] < s[b]
  }

  lemma SnocIncreasing(s: seq<nat>, x: nat)
    requires Increasing(s) && forall a :: 0 <= a < |s| ==> s[a] < x
    ensures Increasing(s + [x])
  {
  }

  /** Every listed root and child comes before `n`. */
  lemma {:induction false} ListedBelow(secs: seq<Section>, j: int, n: int)
    requires 0 <= n <= |secs|
    ensures forall a :: 0 <= a < |RootsUpTo(secs, n)| ==> RootsUpTo(secs, n)[a] < n
    ensures forall a :: 0 <= a < |ChildrenUpTo(secs, j, n)| ==> ChildrenUpTo(secs, j, n)[a] < n
  {
    if n > 0 {
      ListedBelow(secs, j, n - 1);
    }
  }

  /** Roots keep the order of the sections, so none is listed twice. */
  lemma {:induction false} RootsIncreasing(secs: seq<Section>, n: int)
    requires 0 <= n <= |secs|
    ensures Increasing(RootsUpTo(secs, n))
  {
    if n > 0 {
      RootsIncreasing(secs, n - 1);
      ListedBelow(secs, 0, n - 1);
      if ParentOf(secs, n - 1).None? {
        SnocIncreasing(RootsUpTo(secs, n - 1), n - 1);
      }
    }
  }

  /** Children keep the order of the sections, so none is listed twice. */
  lemma {:induction false} ChildrenIncreasing(secs: seq<Section>, j: int, n: int)
    requires 0 <= n <= |secs|
    ensures Increasing(ChildrenUpTo(secs, j, n))
  {
    if n > 0 {
      ChildrenIncreasing(secs, j, n - 1);
      ListedBelow(secs, j, n - 1);
      if ParentOf(secs, n - 1) == Some(j) {
        SnocIncreasing(ChildrenUpTo(secs, j, n - 1), n - 1);
      }
    }
  }

  /**
   * Every section appears exactly once in the forest: as a root when it
   * has no parent, else in the children of its parent and of no other section.
   */
  lemma ForestOnce(secs: seq<Section>, i: int)
    requires 0 <= i < |secs|
    ensures i in RootsUpTo(secs, |secs|) <==> ParentOf(secs, i).None?
    ensures forall j :: i in ChildrenUpTo(secs, j, |secs|) <==> ParentOf(secs, i) == Some(j)
  {
    RootsMembers(secs, |secs|);
    forall j
      ensures i in ChildrenUpTo(secs, j, |secs|) <==> ParentOf(secs, i) == Some(j)
    {
      ChildrenMembers(secs, j, |secs|);
    }
  }

  lemma {:induction false} CountCharAppend(a: string, b: string, c: char)
    ensures CountChar(a + b, c) == CountChar(a, c) + CountChar(b, c)
    decreases |b|
  {
    if b != [] {
      var ab := a + b;
      assert ab[..|ab| - 1] == a + b[..|b| - 1];
      assert ab[|ab| - 1] == b[|b| - 1];
      CountCharAppend(a, b[..|b| - 1], c);
    } else {
      assert a + b == a;
    }
  }

  lemma {:induction false} CountCharNone(s: string, c: char)
    requires forall i :: 0 <= i < |s| ==> s[i] != c
    ensures CountChar(s, c) == 0
  {
    if s != [] {
      CountCharNone(s[..|s| - 1], c);
    }
  }

  /** The parent id has one dot fewer than the id. */
  lemma ParentIdDots(id: string)
    requires ParentId(id).Some?
    ensures CountChar(ParentId(id).value, '.') + 1 == CountChar(id, '.')
  {
    var d := LastDot(id);
    LastDotIsLast(id);
    assert id == id[..d] + ([id[d]] + id[d + 1..]);
    CountCharAppend(id[..d], [id[d]] + id[d + 1..], '.');
    CountCharAppend([id[d]], id[d + 1..], '.');
    CountCharNone(id[d + 1..], '.');
    assert [id[d]][..0] == [];
  }

  /** Depths as load_sections sets them: one more than the dots of the id. */
  predicate DepthsFromIds(secs: seq<Section>)
  {
    forall k :: 0 <= k < |secs| ==> secs[k].depth == CountChar(secs[k].id, '.') + 1
  }

  /** A child is one level deeper than its parent. */
  lemma ParentOneLevelUp(secs: seq<Section>, i: int)
    requires 0 <= i < |secs| && DepthsFromIds(secs) && ParentOf(secs, i).Some?
    ensures secs[ParentOf(secs, i).value].depth + 1 == secs[i].depth
  {
    ParentOfSpec(secs, i);
    ParentIdDots(secs[i].id);
  }

  /** The dictionary comprehension from ids to sections. */
  method IndexIds(secs: seq<Section>) returns (secMap: map<string, nat>)
    ensures secMap == IdIndex(secs)
  {
    secMap := map[];
    for i := 0 to |secs|
      invariant secMap == IdIndex(secs[..i])
    {
      assert secs[..i + 1][..i] == secs[..i];
      secMap := secMap[secs[i].id := i];
    }
    assert secs[..|secs|] == secs;
  }

  /** The loop that hangs each section under its parent or makes it a root. */
  method BuildTree(secs: seq<Section>) returns (children: seq<seq<nat>>, roots: seq<nat>)
    ensures |children| == |secs|
    ensures roots == RootsUpTo(secs, |secs|)
    ensures forall j :: 0 <= j < |secs| ==> children[j] == ChildrenUpTo(secs, j, |secs|)
  {
    var secMap := IndexIds(secs);
    IdIndexSpec(secs);
    children := seq(|secs|, _ => []);
    roots := [];
    for i := 0 to |secs|
      invariant |children| == |secs|
      invariant roots == RootsUpTo(secs, i)
      invariant forall j :: 0 <= j < |secs| ==> children[j] == ChildrenUpTo(secs, j, i)
    {
      var parentId := ParentId(secs[i].id);
      if parentId.Some? && parentId.value != "" && parentId.value in secMap {
        var parent := secMap[parentId.value];
        children := children[parent := children[parent] + [i]];
      } else {
        roots := roots + [i];
      }
    }
  }

  // ---------------------------------------------------------------------------
  // Summary units of organize_hierarchy_and_merge
  // ---------------------------------------------------------------------------

  /** Sections of depth at most this open a summary unit; deeper ones are merged into it. */
  const MergeDepthThreshold: nat := 2

  datatype Unit = Unit(target: Section, subs: seq<Section>, fullText: string)

  function TargetText(s: Section): string
  {
    "# " + s.id + " " + s.title + "\n\n" + s.content + "\n\n"
  }

  function SubText(s: Section): string
  {
    "## " + s.id + " " + s.title + "\n\n" + s.content + "\n\n"
  }

  /** The state of the merge loop: the closed units and the open one. */
  datatype UnitScan = UnitScan(closed: seq<Unit>, current: Option<Unit>)

  function OpenUnit(s: Section): Unit
  {
    Unit(s, [], TargetText(s))
  }

  function AddSub(u: Unit, s: Section): Unit
  {
    u.(subs := u.subs + [s], fullText := u.fullText + SubText(s))
  }

  function Closed(st: UnitScan): seq<Unit>
  {
    st.closed + (if st.current.Some? then [st.current.value] else [])
  }

  function UnitStep(st: UnitScan, s: Section): UnitScan
  {
    if s.depth <= MergeDepthThreshold then UnitScan(Closed(st), Some(OpenUnit(s)))
    else if st.current.Some? then UnitScan(st.closed, Some(AddSub(st.current.value, s)))
    else st
  }

  function ScanUnits(secs: seq<Section>): UnitScan
  {
    if secs == [] then UnitScan([], None) else UnitStep(ScanUnits(secs[..|secs| - 1]), secs[|secs| - 1])
  }

  /** The summary units, in order, once the last one is closed. */
  function UnitsOf(secs: seq<Section>): seq<Unit>
  {
    Closed(ScanUnits(secs))
  }

  /** The loop of organize_hierarchy_and_merge that rolls the open unit. */
  method MergeUnits(secs: seq<Section>) returns (summaryUnits: seq<Unit>)
    ensures summaryUnits == UnitsOf(secs)
  {
    summaryUnits := [];
    var currentUnit: Option<Unit> := None;
    for i := 0 to |secs|
      invariant UnitScan(summaryUnits, currentUnit) == ScanUnits(secs[..i])
    {
      assert secs[..i + 1][..i] == secs[..i];
      var s := secs[i];
      if s.depth <= MergeDepthThreshold {
        if currentUnit.Some? {
          summaryUnits := summaryUnits + [currentUnit.value];
        }
        currentUnit := Some(Unit(s, [], TargetText(s)));
      } else if currentUnit.Some? {
        var u := currentUnit.value;
        currentUnit := Some(u.(subs := u.subs + [s], fullText := u.fullText + SubText(s)));
      }
    }
    assert secs[..|secs|] == secs;
    if currentUnit.Some? {
      summaryUnits := summaryUnits + [currentUnit.value];
    }
  }

  /** The sections that open a unit, in order. */
  function TargetSections(secs: seq<Section>): seq<Section>
  {
    if secs == [] then []
    else
      var s := secs[|secs| - 1];
      TargetSections(secs[..|secs| - 1]) + (if s.depth <= MergeDepthThreshold then [s] else [])
  }

  function Targets(us: seq<Unit>): seq<Section>
  {
    if us == [] then [] else Targets(us[..|us| - 1]) + [us[|us| - 1].target]
  }

  lemma TargetsSnoc(us: seq<Unit>, u: Unit)
    ensures Targets(us + [u]) == Targets(us) + [u.target]
  {
    assert (us + [u])[..|us|] == us;
  }

  /** Exactly one unit is opened per section of depth at most two, in order. */
  lemma {:induction false} UnitTargets(secs: seq<Section>)
    ensures Targets(UnitsOf(secs)) == TargetSections(secs)
  {
    if secs != [] {
      var init := secs[..|secs| - 1];
      var s := secs[|secs| - 1];
      UnitTargets(init);
      UnitTargetsStep(ScanUnits(init), s);
    }
  }

  lemma UnitTargetsStep(st: UnitScan, s: Section)
    ensures Targets(Closed(UnitStep(st, s)))
         == Targets(Closed(st)) + (if s.depth <= MergeDepthThreshold then [s] else [])
  {
    if s.depth <= MergeDepthThreshold {
      TargetsSnoc(Closed(st), OpenUnit(s));
    } else if st.current.Some? {
      TargetsSnoc(st.closed, st.current.value);
      TargetsSnoc(st.closed, AddSub(st.current.value, s));
    }
  }

  /** The texts of the merged sub-sections, in order. */
  function SubTexts(subs: seq<Section>): string
  {
    if subs == [] then "" else SubTexts(subs[..|subs| - 1]) + SubText(subs[|subs| - 1])
  }

  /**
   * A unit as the loop builds it: a target of depth at most two, deeper
   * sub-sections, and the text "# id title" of the target followed by one
   * "## id title" block per sub-section in order.
   */
  predicate WellFormedUnit(u: Unit)
  {
    u.target.depth <= MergeDepthThreshold
    && (forall k :: 0 <= k < |u.subs| ==> u.subs[k].depth > MergeDepthThreshold)
    && u.fullText == TargetText(u.target) + SubTexts(u.subs)
  }

  predicate AllWellFormed(us: seq<Unit>)
  {
    forall k :: 0 <= k < |us| ==> WellFormedUnit(us[k])
  }

  lemma AddSubWellFormed(u: Unit, s: Section)
    requires WellFormedUnit(u) && s.depth > MergeDepthThreshold
    ensures WellFormedUnit(AddSub(u, s))
  {
    var subs := u.subs + [s];
    assert subs[..|subs| - 1] == u.subs;
    Seqs.Assoc(TargetText(u.target), SubTexts(u.subs), SubText(s));
  }

  lemma UnitStepWellFormed(st: UnitScan, s: Section)
    requires AllWellFormed(Closed(st))
    ensures AllWellFormed(Closed(UnitStep(st, s)))
  {
    if s.depth <= MergeDepthThreshold {
      assert WellFormedUnit(OpenUnit(s));
    } else if st.current.Some? {
      assert Closed(st)[|st.closed|] == st.current.value;
      AddSubWellFormed(st.current.value, s);
      assert forall k :: 0 <= k < |st.closed| ==> Closed(st)[k] == st.closed[k];
    }
  }

  /** Every unit has the target, sub-sections and text the loop promises. */
  lemma {:induction false} UnitsWellFormed(secs: seq<Section>)
    ensures AllWellFormed(UnitsOf(secs))
  {
    if secs != [] {
      UnitsWellFormed(secs[..|secs| - 1]);
      UnitStepWellFormed(ScanUnits(secs[..|secs| - 1]), secs[|secs| - 1]);
    }
  }

  /** The length of the run of sections deeper than the threshold at the start: they belong to no unit. */
  function LeadingDeep(secs: seq<Section>): (n: nat)
    ensures n <= |secs|
  {
    if secs == [] then 0
    else
      var n := LeadingDeep(secs[..|secs| - 1]);
      if n == |secs| - 1 && secs[|secs| - 1].depth > MergeDepthThreshold then n + 1 else n
  }

  lemma {:induction false} LeadingDeepSpec(secs: seq<Section>)
    ensures forall k :: 0 <= k < LeadingDeep(secs) ==> secs[k].depth > MergeDepthThreshold
    ensures LeadingDeep(secs) < |secs| ==> secs[LeadingDeep(secs)].depth <= MergeDepthThreshold
  {
    if secs != [] {
      var init := secs[..|secs| - 1];
      LeadingDeepSpec(init);
      assert forall k :: 0 <= k < |init| ==> init[k] == secs[k];
    }
  }

  /** No unit is open exactly while every section so far is deeper than the threshold. */
  lemma {:induction false} ScanNone(secs: seq<Section>)
    ensures ScanUnits(secs).current.None? <==> LeadingDeep(secs) == |secs|
    ensures ScanUnits(secs).current.None? ==> ScanUnits(secs).closed == []
  {
    if secs != [] {
      ScanNone(secs[..|secs| - 1]);
    }
  }

  /** The sections of the units laid end to end: each target followed by its sub-sections. */
  function FlatUnits(us: seq<Unit>): seq<Section>
  {
    if us == [] then [] else FlatUnits(us[..|us| - 1]) + ([us[|us| - 1].target] + us[|us| - 1].subs)
  }

  lemma FlatUnitsSnoc(us: seq<Unit>, u: Unit)
    ensures FlatUnits(us + [u]) == FlatUnits(us) + ([u.target] + u.subs)
  {
    assert (us + [u])[..|us|] == us;
  }

  /**
   * Nothing is lost or reordered: the leading deep sections, then the
   * units' targets and sub-sections laid end to end, give back the sections.
   */
  lemma {:induction false} UnitsCover(secs: seq<Section>)
    ensures secs[..LeadingDeep(secs)] + FlatUnits(UnitsOf(secs)) == secs
  {
    if secs != [] {
      var init := secs[..|secs| - 1];
      var s := secs[|secs| - 1];
      UnitsCover(init);
      ScanNone(init);
      Seqs.Snoc(secs);
      CoverStep(init, s, ScanUnits(init), LeadingDeep(init));
    }
  }

  /** The covering survives one more section, whichever branch the loop takes. */
  lemma CoverStep(init: seq<Section>, s: Section, st: UnitScan, n: nat)
    requires n <= |init| && init[..n] + FlatUnits(Closed(st)) == init
    requires st.current.None? <==> n == |init|
    requires st.current.None? ==> st.closed == []
    ensures var n' := if n == |init| && s.depth > MergeDepthThreshold then n + 1 else n;
            (init + [s])[..n'] + FlatUnits(Closed(UnitStep(st, s))) == init + [s]
  {
    var secs := init + [s];
    if s.depth <= MergeDepthThreshold {
      FlatUnitsSnoc(Closed(st), OpenUnit(s));
      assert secs[..n] == init[..n];
      Seqs.Assoc(init[..n], FlatUnits(Closed(st)), [s]);
    } else if st.current.Some? {
      CoverSub(init, s, st.closed, st.current.value, n);
    } else {
      assert secs[..n + 1] == secs;
    }
  }

  lemma CoverSub(init: seq<Section>, s: Section, closed: seq<Unit>, u: Unit, n: nat)
    requires n < |init| && init[..n] + FlatUnits(closed + [u]) == init
    ensures (init + [s])[..n] + FlatUnits(closed + [AddSub(u, s)]) == init + [s]
  {
    FlatUnitsSnoc(closed, u);
    FlatUnitsSnoc(closed, AddSub(u, s));
    assert (init + [s])[..n] == init[..n];
    assert [u.target] + (u.subs + [s]) == ([u.target] + u.subs) + [s];
    Seqs.Assoc(FlatUnits(closed), [u.target] + u.subs, [s]);
    Seqs.Assoc(init[..n], FlatUnits(closed) + ([u.target] + u.subs), [s]);
  }

  // ---------------------------------------------------------------------------
  // generate_summaries
  // ---------------------------------------------------------------------------

  const TooShortSummary: string := "Content is too short to summarize."
  const FailedSummary: string := "Summary generation failed."

  /** Units whose stripped text is shorter than this are not sent to the model. */
  const MinSummaryLength: nat := 50

  datatype SummaryResult = SummaryResult(
    id: string, title: string, depth: nat, summary: string, originalMdFile: string, subSections: seq<string>)

  function SubIds(subs: seq<Section>): seq<string>
  {
    seq(|subs|, k requires 0 <= k < |subs| => subs[k].id)
  }

  /** The summary of a unit: fixed when its text is short, else the model's reply or the failure text. */
  function SummaryText(u: Unit, reply: Option<string>): string
  {
    if |Strip(u.fullText)| < MinSummaryLength then TooShortSummary
    else match reply
      case Some(r) => r
      case None => FailedSummary
  }

  function ResultOf(u: Unit, reply: Option<string>): SummaryResult
  {
    SummaryResult(u.target.id, u.target.title, u.target.depth, SummaryText(u, reply), u.target.filename, SubIds(u.subs))
  }

  /**
   * The short-text rule: a unit whose stripped text is under 50 characters
   * gets the fixed text whatever the model would say; any other unit gets
   * the model's reply, or the failure text when the request failed. The
   * result names the target and lists the sub-section ids in order.
   */
  lemma ShortTextRule(u: Unit, reply: Option<string>)
    ensures var r := ResultOf(u, reply);
            (|Strip(u.fullText)| < MinSummaryLength ==> r.summary == TooShortSummary)
            && (|Strip(u.fullText)| >= MinSummaryLength ==>
                  r.summary == (if reply.Some? then reply.value else FailedSummary))
            && r.id == u.target.id && r.originalMdFile == u.target.filename
            && |r.subSections| == |u.subs|
            && forall k :: 0 <= k < |u.subs| ==> r.subSections[k] == u.subs[k].id
  {
  }

  /** The loop of generate_summaries; `reply` is the model's answer for a unit (None when the request fails). */
  method GenerateSummaries(units: seq<Unit>, reply: Unit -> Option<string>) returns (results: seq<SummaryResult>)
    ensures |results| == |units|
    ensures forall k :: 0 <= k < |units| ==> results[k] == ResultOf(units[k], reply(units[k]))
  {
    results := [];
    for i := 0 to |units|
      invariant |results| == i
      invariant forall k :: 0 <= k < i ==> results[k] == ResultOf(units[k], reply(units[k]))
    {
      var unit := units[i];
      var summary;
      if |Strip(unit.fullText)| < 50 {
        summary := TooShortSummary;
      } else {
        var answer := reply(unit);
        if answer.Some? {
          summary := answer.value;
        } else {
          summary := FailedSummary;
        }
      }
      var subIds := seq(|unit.subs|, k requires 0 <= k < |unit.subs| => unit.subs[k].id);
      results := results + [SummaryResult(unit.target.id, unit.target.title, unit.target.depth, summary,
                                          unit.target.filename, subIds)];
    }
  }

  // ---------------------------------------------------------------------------
  // The generator object
  // ---------------------------------------------------------------------------

  class SummaryGenerator {
    var sections: seq<Section>

    constructor()
      ensures sections == []
    {
      sections := [];
    }

    /**
     * load_sections: parse each listed name, read the matching files, and
     * sort all sections by index. A missing directory changes nothing.
     */
    method LoadSections(dirExists: bool, files: seq<string>, read: string -> string)
      modifies this
      ensures !dirExists ==> sections == old(sections)
      ensures dirExists ==> sections == SortByIdx(old(sections) + Loaded(files, read))
    {
      if !dirExists {
        return;
      }
      for i := 0 to |files|
        invariant sections == old(sections) + Loaded(files[..i], read)
      {
        assert files[..i + 1][..i] == files[..i];
        var f := files[i];
        var m := ParseName(f);
        if m.Some? {
          sections := sections + [SectionOf(m.value, f, read(f))];
        }
      }
      assert files[..|files|] == files;
      sections := SortByIdx(sections);
    }

    /** organize_hierarchy_and_merge: the forest by position, and the summary units. */
    method OrganizeHierarchyAndMerge() returns (children: seq<seq<nat>>, roots: seq<nat>, units: seq<Unit>)
      ensures |children| == |sections|
      ensures roots == RootsUpTo(sections, |sections|)
      ensures forall j :: 0 <= j < |sections| ==> children[j] == ChildrenUpTo(sections, j, |sections|)
      ensures units == UnitsOf(sections)
    {
      children, roots := BuildTree(sections);
      units := MergeUnits(sections);
    }

    /** process, without the file output: load, organize, summarize. */
    method Process(dirExists: bool, files: seq<string>, read: string -> string, reply: Unit -> Option<string>)
      returns (results: seq<SummaryResult>)
      modifies this
      ensures dirExists ==> sections == SortByIdx(old(sections) + Loaded(files, read))
      ensures |results| == |UnitsOf(sections)|
      ensures forall k :: 0 <= k < |results| ==>
                results[k] == ResultOf(UnitsOf(sections)[k], reply(UnitsOf(sections)[k]))
    {
      LoadSections(dirExists, files, read);
      var _, _, units := OrganizeHierarchyAndMerge();
      results := GenerateSummaries(units, reply);
    }
  }
}
