/**
 * The section tree of `ssd_eng_library/server.py` (`get_sections`): the
 * rows, ordered by section index, are hung into a forest with a stack of
 * open nodes; a row becomes a child of the nearest preceding row of a
 * smaller level, or a root when there is none. The database query is an
 * input; nodes are named by their row position (row ids are the table's
 * primary key, so the id map holds one node per row).
 */
module SectionTree {
  import opened Wrappers
  import Seqs

  datatype Row = Row(id: int, sectionIndex: int, sectionPid: string, title: string, level: int)

  // ---------------------------------------------------------------------------
  // The stack as the loop keeps it
  // ---------------------------------------------------------------------------

  /** `while stack and stack[-1]['level'] >= current_level: stack.pop()` */
  function PopWhile(rows: seq<Row>, stack: seq<nat>, level: int): (r: seq<nat>)
    requires forall k :: 0 <= k < |stack| ==> stack[k] < |rows|
    ensures |r| <= |stack| && forall k :: 0 <= k < |r| ==> r[k] == stack[k]
  {
    if stack == [] || rows[stack[|stack| - 1]].level < level then stack
    else PopWhile(rows, stack[..|stack| - 1], level)
  }

  /** The stack after the first `n` rows: pop the higher or equal levels, push the row. */
  function StackAfter(rows: seq<Row>, n: nat): (r: seq<nat>)
    requires n <= |rows|
    ensures forall k :: 0 <= k < |r| ==> r[k] < n
  {
    if n == 0 then []
    else
      var st := StackAfter(rows, n - 1);
      PopWhile(rows, st, rows[n - 1].level) + [n - 1]
  }

  /** The top of a stack, if any. */
  function Top(stack: seq<nat>): Option<nat>
  {
    if stack == [] then None else Some(stack[|stack| - 1])
  }

  /** The node row `i` is appended to: the top of the stack once the popping is done. */
  function ParentOf(rows: seq<Row>, i: nat): (r: Option<nat>)
    requires i < |rows|
    ensures r.Some? ==> r.value < i
  {
    var st := StackAfter(rows, i);
    Top(PopWhile(rows, st, rows[i].level))
  }

  /** The node of every row, in row order. */
  function Parents(rows: seq<Row>): (ps: seq<Option<nat>>)
    ensures |ps| == |rows|
  {
    seq(|rows|, i requires 0 <= i < |rows| => ParentOf(rows, i))
  }

  /** The roots among the first `n` rows, in order, given each row's parent. */
  function RootsUpTo(ps: seq<Option<nat>>, n: nat): seq<nat>
    requires n <= |ps|
  {
    if n == 0 then [] else RootsUpTo(ps, n - 1) + (if ps[n - 1].None? then [n - 1] else [])
  }

  /** The children of row `j` among the first `n` rows, in order, given each row's parent. */
  function ChildrenUpTo(ps: seq<Option<nat>>, j: int, n: nat): seq<nat>
    requires n <= |ps|
  {
    if n == 0 then [] else ChildrenUpTo(ps, j, n - 1) + (if ps[n - 1] == Some(j) then [n - 1] else [])
  }

  /** `children[j]` lists the children of row `j` among the first `n` rows. */
  predicate ChildrenAfter(ps: seq<Option<nat>>, children: seq<seq<nat>>, n: nat)
    requires n <= |ps|
  {
    forall j :: 0 <= j < |children| ==> children[j] == ChildrenUpTo(ps, j, n)
  }

  /** Appending row `n` to its parent's list keeps the children lists up to date, and the roots as they are. */
  lemma ChildStep(ps: seq<Option<nat>>, children: seq<seq<nat>>, n: nat, p: nat)
    requires n < |ps| && ps[n] == Some(p) && p < |children|
    requires ChildrenAfter(ps, children, n)
    ensures ChildrenAfter(ps, children[p := children[p] + [n]], n + 1)
    ensures RootsUpTo(ps, n + 1) == RootsUpTo(ps, n)
  {
  }

  /** A root is appended to the roots and changes no children list. */
  lemma RootStep(ps: seq<Option<nat>>, children: seq<seq<nat>>, n: nat)
    requires n < |ps| && ps[n].None?
    requires ChildrenAfter(ps, children, n)
    ensures ChildrenAfter(ps, children, n + 1)
    ensures RootsUpTo(ps, n + 1) == RootsUpTo(ps, n) + [n]
  {
  }

  /** One step of the stack: the popped stack's top is the row's parent, and the row is pushed on it. */
  lemma StackPush(rows: seq<Row>, i: nat)
    requires i < |rows|
    ensures Top(PopWhile(rows, StackAfter(rows, i), rows[i].level)) == Parents(rows)[i]
    ensures StackAfter(rows, i + 1) == PopWhile(rows, StackAfter(rows, i), rows[i].level) + [i]
  {
  }

  /** The loop that pops the stack down to a smaller level. */
  method PopToLevel(rows: seq<Row>, stack: seq<nat>, level: int) returns (stack': seq<nat>)
    requires forall k :: 0 <= k < |stack| ==> stack[k] < |rows|
    ensures stack' == PopWhile(rows, stack, level)
  {
    stack' := stack;
    while stack' != [] && rows[stack'[|stack'| - 1]].level >= level
      invariant |stack'| <= |stack| && stack' == stack[..|stack'|]
      invariant PopWhile(rows, stack', level) == PopWhile(rows, stack, level)
      decreases |stack'|
    {
      stack' := stack'[..|stack'| - 1];
    }
  }

  /** One turn of the loop: pop to the row's level, hang the row under the top or among the roots, push it. */
  method PlaceRow(rows: seq<Row>, ghost ps: seq<Option<nat>>, i: nat, children: seq<seq<nat>>, roots: seq<nat>, stack: seq<nat>)
    returns (children': seq<seq<nat>>, roots': seq<nat>, stack': seq<nat>)
    requires ps == Parents(rows) && i < |rows| && |children| == |rows|
    requires stack == StackAfter(rows, i) && roots == RootsUpTo(ps, i) && ChildrenAfter(ps, children, i)
    ensures |children'| == |rows| && stack' == StackAfter(rows, i + 1)
    ensures roots' == RootsUpTo(ps, i + 1) && ChildrenAfter(ps, children', i + 1)
  {
    var popped := PopToLevel(rows, stack, rows[i].level);
    StackPush(rows, i);
    if popped == [] {
      RootStep(ps, children, i);
      children', roots' := children, roots + [i];
    } else {
      var parent := popped[|popped| - 1];
      ChildStep(ps, children, i, parent);
      children', roots' := children[parent := children[parent] + [i]], roots;
    }
    stack' := popped + [i];
  }

  /** The second pass of `get_sections`: the forest as root positions and per-row child positions. */
  method BuildForest(rows: seq<Row>) returns (children: seq<seq<nat>>, roots: seq<nat>)
    ensures |children| == |rows|
    ensures roots == RootsUpTo(Parents(rows), |rows|)
    ensures forall j :: 0 <= j < |rows| ==> children[j] == ChildrenUpTo(Parents(rows), j, |rows|)
  {
    ghost var ps := Parents(rows);
    children := seq(|rows|, _ => []);
    roots := [];
    var stack: seq<nat> := [];
    for i := 0 to |rows|
      invariant |children| == |rows|
      invariant stack == StackAfter(rows, i)
      invariant roots == RootsUpTo(ps, i)
      invariant ChildrenAfter(ps, children, i)
    {
      children, roots, stack := PlaceRow(rows, ps, i, children, roots, stack);
    }
  }

  // ---------------------------------------------------------------------------
  // The parent is the nearest preceding row of a smaller level
  // ---------------------------------------------------------------------------

  /** The last of the first `k` rows whose level is below `level`. */
  function NearestBelow(rows: seq<Row>, level: int, k: nat): (r: Option<nat>)
    requires k <= |rows|
    ensures r.Some? ==> r.value < k && rows[r.value].level < level
  {
    if k == 0 then None
    else if rows[k - 1].level < level then Some(k - 1)
    else NearestBelow(rows, level, k - 1)
  }

  /** No row between the one found and `k` has a smaller level; None means no row before `k` has one. */
  lemma {:induction false} NearestBelowSpec(rows: seq<Row>, level: int, k: nat)
    requires k <= |rows|
    ensures NearestBelow(rows, level, k).Some? ==>
              forall m :: NearestBelow(rows, level, k).value < m < k ==> rows[m].level >= level
    ensures NearestBelow(rows, level, k).None? ==> forall m :: 0 <= m < k ==> rows[m].level >= level
  {
    if k > 0 && rows[k - 1].level >= level {
      NearestBelowSpec(rows, level, k - 1);
    }
  }

  /** Popping to a level, then to a lower one, is popping to the lower one. */
  lemma {:induction false} PopWhileTwice(rows: seq<Row>, stack: seq<nat>, high: int, low: int)
    requires forall k :: 0 <= k < |stack| ==> stack[k] < |rows|
    requires low <= high
    ensures PopWhile(rows, PopWhile(rows, stack, high), low) == PopWhile(rows, stack, low)
  {
    if stack != [] && rows[stack[|stack| - 1]].level >= high {
      PopWhileTwice(rows, stack[..|stack| - 1], high, low);
    }
  }

  /**
   * What the stack stands for after `n` rows: popping it to any level
   * leaves on top the last of those rows below that level.
   */
  lemma {:induction false} StackFindsNearest(rows: seq<Row>, n: nat, level: int)
    requires n <= |rows|
    ensures Top(PopWhile(rows, StackAfter(rows, n), level)) == NearestBelow(rows, level, n)
  {
    if n > 0 {
      StackFindsNearest(rows, n - 1, level);
      NearestStep(rows, StackAfter(rows, n - 1), n - 1, level);
    }
  }

  /** Pushing row `n` keeps the stack finding the nearest row below any level. */
  lemma NearestStep(rows: seq<Row>, st: seq<nat>, n: nat, level: int)
    requires n < |rows| && forall k :: 0 <= k < |st| ==> st[k] < |rows|
    requires Top(PopWhile(rows, st, level)) == NearestBelow(rows, level, n)
    ensures Top(PopWhile(rows, PopWhile(rows, st, rows[n].level) + [n], level)) == NearestBelow(rows, level, n + 1)
  {
    var l := rows[n].level;
    if l >= level {
      PopWhileTwice(rows, st, l, level);
      PopPushed(rows, PopWhile(rows, st, l), n, level);
    }
  }

  lemma PopPushed(rows: seq<Row>, stack: seq<nat>, i: nat, level: int)
    requires forall k :: 0 <= k < |stack| ==> stack[k] < |rows|
    requires i < |rows| && rows[i].level >= level
    ensures PopWhile(rows, stack + [i], level) == PopWhile(rows, stack, level)
  {
    assert (stack + [i])[..|stack|] == stack;
  }

  /**
   * The node each row is appended to is the nearest preceding row with a
   * strictly smaller level; a row is a root exactly when no preceding row
   * has a smaller level.
   */
  lemma ParentIsNearestSmaller(rows: seq<Row>, i: nat)
    requires i < |rows|
    ensures ParentOf(rows, i) == NearestBelow(rows, rows[i].level, i)
    ensures ParentOf(rows, i).Some? ==>
              var j := ParentOf(rows, i).value;
              rows[j].level < rows[i].level && forall m :: j < m < i ==> rows[m].level >= rows[i].level
    ensures ParentOf(rows, i).None? <==> forall m :: 0 <= m < i ==> rows[m].level >= rows[i].level
  {
    StackFindsNearest(rows, i, rows[i].level);
    NearestBelowSpec(rows, rows[i].level, i);
  }

  /** Levels on the stack strictly increase from bottom to top. */
  predicate LevelsIncreasing(rows: seq<Row>, stack: seq<nat>)
    requires forall k :: 0 <= k < |stack| ==> stack[k] < |rows|
  {
    forall a, b :: 0 <= a < b < |stack| ==> rows[stack[a]].level < rows[stack[b]].level
  }

  /** After every push, the levels on the stack are strictly increasing. */
  lemma {:induction false} StackLevels(rows: seq<Row>, n: nat)
    requires n <= |rows|
    ensures LevelsIncreasing(rows, StackAfter(rows, n))
  {
    if n > 0 {
      StackLevels(rows, n - 1);
      LevelsStep(rows, StackAfter(rows, n - 1), n - 1);
    }
  }

  /** Popping to a row's level and pushing the row keeps the levels increasing. */
  lemma LevelsStep(rows: seq<Row>, stack: seq<nat>, i: nat)
    requires i < |rows| && forall k :: 0 <= k < |stack| ==> stack[k] < |rows|
    requires LevelsIncreasing(rows, stack)
    ensures LevelsIncreasing(rows, PopWhile(rows, stack, rows[i].level) + [i])
  {
    var popped := PopWhile(rows, stack, rows[i].level);
    PoppedBelow(rows, stack, rows[i].level);
    PushIncreasing(rows, popped, i);
  }

  /** Once popping stops, the top is below the level, and so is everything under it. */
  lemma {:induction false} PoppedBelow(rows: seq<Row>, stack: seq<nat>, level: int)
    requires forall k :: 0 <= k < |stack| ==> stack[k] < |rows|
    requires LevelsIncreasing(rows, stack)
    ensures var p := PopWhile(rows, stack, level);
            LevelsIncreasing(rows, p) && forall k :: 0 <= k < |p| ==> rows[p[k]].level < level
  {
    if stack != [] && rows[stack[|stack| - 1]].level >= level {
      PoppedBelow(rows, stack[..|stack| - 1], level);
    }
  }

  lemma PushIncreasing(rows: seq<Row>, stack: seq<nat>, i: nat)
    requires forall k :: 0 <= k < |stack| ==> stack[k] < |rows|
    requires i < |rows| && LevelsIncreasing(rows, stack)
    requires forall k :: 0 <= k < |stack| ==> rows[stack[k]].level < rows[i].level
    ensures LevelsIncreasing(rows, stack + [i])
  {
  }

  // ---------------------------------------------------------------------------
  // Every row once, in order
  // ---------------------------------------------------------------------------

  lemma {:induction false} RootsMembers(ps: seq<Option<nat>>, n: nat)
    requires n <= |ps|
    ensures forall i :: i in RootsUpTo(ps, n) <==> 0 <= i < n && ps[i].None?
  {
    if n > 0 {
      RootsMembers(ps, n - 1);
    }
  }

  lemma {:induction false} ChildrenMembers(ps: seq<Option<nat>>, j: int, n: nat)
    requires n <= |ps|
    ensures forall i :: i in ChildrenUpTo(ps, j, n) <==> 0 <= i < n && ps[i] == Some(j)
  {
    if n > 0 {
      ChildrenMembers(ps, j, n - 1);
    }
  }

  /**
   * Every row appears exactly once in the forest: as a root when no
   * preceding row has a smaller level, else among the children of its
   * parent and of no other row; the parent comes before it.
   */
  lemma EveryRowOnce(rows: seq<Row>, i: nat)
    requires i < |rows|
    ensures i in RootsUpTo(Parents(rows), |rows|) <==> ParentOf(rows, i).None?
    ensures forall j :: i in ChildrenUpTo(Parents(rows), j, |rows|) <==> ParentOf(rows, i) == Some(j)
    ensures ParentOf(rows, i).Some? ==> ParentOf(rows, i).value < i
  {
    var ps := Parents(rows);
    RootsMembers(ps, |rows|);
    forall j
      ensures i in ChildrenUpTo(ps, j, |rows|) <==> ps[i] == Some(j)
    {
      ChildrenMembers(ps, j, |rows|);
    }
  }

  predicate Increasing(s: seq<nat>)
  {
    forall a, b :: 0 <= a < b < |s| ==> s[a] < s[b]
  }

  lemma SnocIncreasing(s: seq<nat>, x: nat)
    requires Increasing(s) && forall a :: 0 <= a < |s| ==> s[a] < x
    ensures Increasing(s + [x])
  {
  }

  lemma {:induction false} ListedBelow(ps: seq<Option<nat>>, j: int, n: nat)
    requires n <= |ps|
    ensures forall a :: 0 <= a < |RootsUpTo(ps, n)| ==> RootsUpTo(ps, n)[a] < n
    ensures forall a :: 0 <= a < |ChildrenUpTo(ps, j, n)| ==> ChildrenUpTo(ps, j, n)[a] < n
  {
    if n > 0 {
      ListedBelow(ps, j, n - 1);
    }
  }

  /** Roots and children keep the row order. */
  lemma {:induction false} ListsInRowOrder(ps: seq<Option<nat>>, j: int, n: nat)
    requires n <= |ps|
    ensures Increasing(RootsUpTo(ps, n)) && Increasing(ChildrenUpTo(ps, j, n))
  {
    if n > 0 {
      ListsInRowOrder(ps, j, n - 1);
      ListedBelow(ps, j, n - 1);
      if ps[n - 1].None? {
        SnocIncreasing(RootsUpTo(ps, n - 1), n - 1);
      }
      if ps[n - 1] == Some(j) {
        SnocIncreasing(ChildrenUpTo(ps, j, n - 1), n - 1);
      }
    }
  }

  // ---------------------------------------------------------------------------
  // A preorder walk of the forest gives back the rows in section order
  // ---------------------------------------------------------------------------

  /** Child lists that only point forward, as the forest's lists do. */
  predicate ForwardLists(children: seq<seq<nat>>)
  {
    forall j, k :: 0 <= j < |children| && 0 <= k < |children[j]| ==> j < children[j][k] < |children|
  }

  /** Row `j` followed by the preorder walks of its children. */
  function SubtreeOrder(children: seq<seq<nat>>, j: nat): seq<nat>
    requires ForwardLists(children) && j < |children|
    decreases |children| - j, 1
  {
    [j] + ListOrder(children, children[j], j)
  }

  /** The preorder walks of the nodes of `list`, one after the other; every node comes after `lo`. */
  function ListOrder(children: seq<seq<nat>>, list: seq<nat>, lo: int): seq<nat>
    requires ForwardLists(children) && forall k :: 0 <= k < |list| ==> lo < list[k] < |children|
    decreases |children| - lo, 0, |list|
  {
    if list == [] then [] else SubtreeOrder(children, list[0]) + ListOrder(children, list[1..], lo)
  }

  /** The preorder walk of a forest given by its roots and child lists. */
  function Preorder(roots: seq<nat>, children: seq<seq<nat>>): seq<nat>
    requires ForwardLists(children) && forall k :: 0 <= k < |roots| ==> roots[k] < |children|
  {
    ListOrder(children, roots, -1)
  }

  /** The child list of every row, as `get_sections` leaves them. */
  function ChildLists(rows: seq<Row>): (children: seq<seq<nat>>)
    ensures |children| == |rows|
  {
    seq(|rows|, j requires 0 <= j < |rows| => ChildrenUpTo(Parents(rows), j, |rows|))
  }

  /** The row positions `a, a + 1, ..., b - 1`. */
  function Range(a: int, b: int): (r: seq<int>)
    requires a <= b
    ensures |r| == b - a && forall i :: 0 <= i < |r| ==> r[i] == a + i
  {
    seq(b - a, i => a + i)
  }

  lemma RangeCons(a: int, b: int)
    requires a < b
    ensures [a] + Range(a + 1, b) == Range(a, b)
  {
  }

  lemma RangeAppend(a: int, b: int, c: int)
    requires a <= b <= c
    ensures Range(a, b) + Range(b, c) == Range(a, c)
  {
  }

  /** The first row from `k` on whose level is at most `level`, or the row count. */
  function NextNotDeeper(rows: seq<Row>, level: int, k: nat): (e: nat)
    requires k <= |rows|
    ensures k <= e <= |rows|
    ensures e < |rows| ==> rows[e].level <= level
    ensures forall m :: k <= m < e ==> rows[m].level > level
    decreases |rows| - k
  {
    if k == |rows| || rows[k].level <= level then k else NextNotDeeper(rows, level, k + 1)
  }

  /** One past the last row of the subtree of row `c`. */
  function SubtreeEnd(rows: seq<Row>, c: nat): (e: nat)
    requires c < |rows|
    ensures c < e <= |rows|
  {
    NextNotDeeper(rows, rows[c].level, c + 1)
  }

  /** The rows in `[a, hi)` whose parent is `p`, in row order. */
  function Listed(ps: seq<Option<nat>>, p: Option<nat>, a: nat, hi: nat): seq<nat>
    requires a <= hi <= |ps|
    decreases hi - a
  {
    if a == hi then [] else (if ps[a] == p then [a] else []) + Listed(ps, p, a + 1, hi)
  }

  lemma {:induction false} ListedSnoc(ps: seq<Option<nat>>, p: Option<nat>, a: nat, b: nat)
    requires a <= b < |ps|
    ensures Listed(ps, p, a, b + 1) == Listed(ps, p, a, b) + (if ps[b] == p then [b] else [])
    decreases b - a
  {
    if a < b {
      ListedSnoc(ps, p, a + 1, b);
      var h := if ps[a] == p then [a] else [];
      var t := if ps[b] == p then [b] else [];
      assert Listed(ps, p, a, b + 1) == h + Listed(ps, p, a + 1, b + 1);
      Seqs.Assoc(h, Listed(ps, p, a + 1, b), t);
    }
  }

  lemma {:induction false} ChildrenListed(ps: seq<Option<nat>>, j: nat, n: nat)
    requires n <= |ps|
    ensures ChildrenUpTo(ps, j, n) == Listed(ps, Some(j), 0, n)
    ensures RootsUpTo(ps, n) == Listed(ps, None, 0, n)
  {
    if n > 0 {
      ChildrenListed(ps, j, n - 1);
      ListedSnoc(ps, Some(j), 0, n - 1);
      ListedSnoc(ps, None, 0, n - 1);
    }
  }

  /** Rows without parent `p` add nothing to the list of `p`'s rows. */
  lemma {:induction false} ListedSkip(ps: seq<Option<nat>>, p: Option<nat>, a: nat, b: nat, hi: nat)
    requires a <= b <= hi <= |ps|
    requires forall i :: a <= i < b ==> ps[i] != p
    ensures Listed(ps, p, a, hi) == Listed(ps, p, b, hi)
    decreases b - a
  {
    if a < b {
      ListedSkip(ps, p, a + 1, b, hi);
    }
  }

  /** Row `k'` is the nearest row before `k` below `level` when every row between is not below it. */
  lemma {:induction false} NearestBelowAt(rows: seq<Row>, level: int, k': nat, k: nat)
    requires k' < k <= |rows| && rows[k'].level < level
    requires forall m :: k' < m < k ==> rows[m].level >= level
    ensures NearestBelow(rows, level, k) == Some(k')
  {
    if k - 1 != k' {
      NearestBelowAt(rows, level, k', k - 1);
    }
  }

  /** No row before `k` below `level` means no nearest one. */
  lemma {:induction false} NearestBelowNone(rows: seq<Row>, level: int, k: nat)
    requires k <= |rows| && forall m :: 0 <= m < k ==> rows[m].level >= level
    ensures NearestBelow(rows, level, k) == None
  {
    if k > 0 {
      NearestBelowNone(rows, level, k - 1);
    }
  }

  /** A row `c` below `level` before `k` bounds the nearest one from below. */
  lemma {:induction false} NearestBelowFrom(rows: seq<Row>, level: int, c: nat, k: nat)
    requires c < k <= |rows| && rows[c].level < level
    ensures NearestBelow(rows, level, k).Some? && NearestBelow(rows, level, k).value >= c
  {
    if k - 1 != c && rows[k - 1].level >= level {
      NearestBelowFrom(rows, level, c, k - 1);
    }
  }

  /** Every row's parent is the nearest preceding row of a smaller level. */
  predicate NearestParents(rows: seq<Row>, ps: seq<Option<nat>>)
  {
    |ps| == |rows| && forall i :: 0 <= i < |rows| ==> ps[i] == NearestBelow(rows, rows[i].level, i)
  }

  /** The row count for the roots, the end of its subtree for a row. */
  function Bound(rows: seq<Row>, p: Option<nat>): nat
    requires p.Some? ==> p.value < |rows|
  {
    if p.None? then |rows| else SubtreeEnd(rows, p.value)
  }

  /** Below the roots' level: -1 for the roots, the row itself otherwise. */
  function Lo(p: Option<nat>): int
  {
    if p.None? then -1 else p.value
  }

  /** The forest's child lists, over parents given by the nearest smaller row. */
  predicate ForestOf(rows: seq<Row>, ps: seq<Option<nat>>, children: seq<seq<nat>>)
  {
    NearestParents(rows, ps) && |children| == |rows| && ForwardLists(children)
    && forall j :: 0 <= j < |rows| ==> children[j] == Listed(ps, Some(j), 0, |rows|)
  }

  /** Inside the subtree of `c`, no row has `c`'s parent `p`. */
  lemma InsideSubtree(rows: seq<Row>, ps: seq<Option<nat>>, p: Option<nat>, c: nat)
    requires NearestParents(rows, ps) && c < |rows| && ps[c] == p
    ensures forall i :: c < i < SubtreeEnd(rows, c) ==> ps[i] != p
  {
    forall i | c < i < SubtreeEnd(rows, c)
      ensures ps[i] != p
    {
      NearestBelowFrom(rows, rows[i].level, c, i);
    }
  }

  /** A row at or after the end of the subtree of `j` does not hang under `j`. */
  lemma NotParentAfter(rows: seq<Row>, j: nat, i: nat)
    requires j < |rows| && SubtreeEnd(rows, j) <= i < |rows|
    ensures NearestBelow(rows, rows[i].level, i) != Some(j)
  {
    var e := SubtreeEnd(rows, j);
    NearestBelowSpec(rows, rows[i].level, i);
    assert rows[e].level <= rows[j].level;
  }

  /** After the subtree of `j`, no row has `j` as parent. */
  lemma AfterSubtree(rows: seq<Row>, ps: seq<Option<nat>>, j: nat)
    requires NearestParents(rows, ps) && j < |rows|
    ensures forall i :: SubtreeEnd(rows, j) <= i < |rows| ==> ps[i] != Some(j)
  {
    forall i | SubtreeEnd(rows, j) <= i < |rows|
      ensures ps[i] != Some(j)
    {
      NotParentAfter(rows, j, i);
    }
  }

  /** The subtree of a row inside the subtree of `j` ends inside it too. */
  lemma SubtreeWithin(rows: seq<Row>, j: nat, c: nat)
    requires j < |rows| && j < c < SubtreeEnd(rows, j)
    ensures SubtreeEnd(rows, c) <= SubtreeEnd(rows, j)
  {
    var ej := SubtreeEnd(rows, j);
    assert rows[c].level > rows[j].level;
    if ej < |rows| {
      assert rows[ej].level <= rows[c].level;
    }
  }

  /** The row after the subtree of a child of `j`, still inside `j`'s subtree, is another child of `j`. */
  lemma NextChild(rows: seq<Row>, j: nat, c: nat)
    requires j < c < |rows| && NearestBelow(rows, rows[c].level, c) == Some(j)
    requires SubtreeEnd(rows, c) < SubtreeEnd(rows, j)
    ensures NearestBelow(rows, rows[SubtreeEnd(rows, c)].level, SubtreeEnd(rows, c)) == Some(j)
  {
    var e := SubtreeEnd(rows, c);
    var level := rows[e].level;
    NearestBelowSpec(rows, rows[c].level, c);
    assert rows[j].level < level;
    forall m | j < m < e
      ensures rows[m].level >= level
    {
      if m < c {
        assert rows[m].level >= rows[c].level;
      }
    }
    NearestBelowAt(rows, level, j, e);
  }

  /** The row after the subtree of a root is another root. */
  lemma NextRoot(rows: seq<Row>, c: nat)
    requires c < |rows| && NearestBelow(rows, rows[c].level, c) == None
    requires SubtreeEnd(rows, c) < |rows|
    ensures NearestBelow(rows, rows[SubtreeEnd(rows, c)].level, SubtreeEnd(rows, c)) == None
  {
    var e := SubtreeEnd(rows, c);
    var level := rows[e].level;
    NearestBelowSpec(rows, rows[c].level, c);
    forall m | 0 <= m < e
      ensures rows[m].level >= level
    {
      if m < c {
        assert rows[m].level >= rows[c].level;
      }
    }
    NearestBelowNone(rows, level, e);
  }

  /** The row after the subtree of a child of `p`, if still inside `p`'s range, is the next child of `p`. */
  lemma NextSibling(rows: seq<Row>, ps: seq<Option<nat>>, p: Option<nat>, c: nat)
    requires NearestParents(rows, ps) && c < |rows| && ps[c] == p
    requires p.Some? ==> p.value < c < SubtreeEnd(rows, p.value)
    ensures SubtreeEnd(rows, c) <= Bound(rows, p)
    ensures SubtreeEnd(rows, c) < Bound(rows, p) ==> ps[SubtreeEnd(rows, c)] == p
  {
    var e := SubtreeEnd(rows, c);
    if p.Some? {
      SubtreeWithin(rows, p.value, c);
      if e < Bound(rows, p) {
        NextChild(rows, p.value, c);
      }
    } else if e < |rows| {
      NextRoot(rows, c);
    }
  }

  /** The preorder walk of the subtree of `c` is the rows from `c` to the end of its subtree. */
  lemma {:induction false} SubtreeRange(rows: seq<Row>, ps: seq<Option<nat>>, children: seq<seq<nat>>, c: nat)
    requires ForestOf(rows, ps, children) && c < |rows|
    ensures SubtreeOrder(children, c) == Range(c, SubtreeEnd(rows, c))
    decreases |rows| - c, 0
  {
    NearestParentsBefore(rows, ps);
    ChildListFrom(ps, c);
    FirstChild(rows, ps, c);
    ChildrenRange(rows, ps, children, Some(c), c + 1);
    SubtreeJoin(children, c, Listed(ps, Some(c), c + 1, |rows|), SubtreeEnd(rows, c));
  }

  /** A row whose children walk through `(c, e)` walks through `[c, e)`. */
  lemma SubtreeJoin(children: seq<seq<nat>>, c: nat, list: seq<nat>, e: int)
    requires ForwardLists(children) && c < e && c < |children| && children[c] == list
    requires forall k :: 0 <= k < |list| ==> c < list[k] < |children|
    requires ListOrder(children, list, c) == Range(c + 1, e)
    ensures SubtreeOrder(children, c) == Range(c, e)
  {
    RangeCons(c, e);
  }

  /** A row's child list starts after it. */
  lemma ChildListFrom(ps: seq<Option<nat>>, c: nat)
    requires ParentsBefore(ps) && c < |ps|
    ensures Listed(ps, Some(c), 0, |ps|) == Listed(ps, Some(c), c + 1, |ps|)
  {
    ListedSkip(ps, Some(c), 0, c + 1, |ps|);
  }

  /** Every parent comes before its row. */
  predicate ParentsBefore(ps: seq<Option<nat>>)
  {
    forall i :: 0 <= i < |ps| && ps[i].Some? ==> ps[i].value < i
  }

  lemma NearestParentsBefore(rows: seq<Row>, ps: seq<Option<nat>>)
    requires NearestParents(rows, ps)
    ensures ParentsBefore(ps)
  {
    forall i | 0 <= i < |ps| && ps[i].Some?
      ensures ps[i].value < i
    {
      var r := NearestBelow(rows, rows[i].level, i);
      assert ps[i] == r;
    }
  }

  /** The row after `c`, when inside its subtree, is its first child. */
  lemma FirstChild(rows: seq<Row>, ps: seq<Option<nat>>, c: nat)
    requires NearestParents(rows, ps) && c < |rows|
    ensures c + 1 < SubtreeEnd(rows, c) ==> ps[c + 1] == Some(c)
  {
    if c + 1 < SubtreeEnd(rows, c) {
      NearestBelowAt(rows, rows[c + 1].level, c, c + 1);
    }
  }

  /** From the end of `p`'s range on, no row has parent `p`. */
  lemma ListedEnd(rows: seq<Row>, ps: seq<Option<nat>>, p: Option<nat>)
    requires NearestParents(rows, ps) && (p.Some? ==> p.value < |rows|)
    ensures Listed(ps, p, Bound(rows, p), |rows|) == []
  {
    if p.Some? {
      AfterSubtree(rows, ps, p.value);
    }
    ListedSkip(ps, p, Bound(rows, p), |rows|, |rows|);
  }

  /** The rows with parent `p` from a child `c` on: `c`, then those from the end of `c`'s subtree. */
  lemma ListedFrom(rows: seq<Row>, ps: seq<Option<nat>>, p: Option<nat>, c: nat)
    requires NearestParents(rows, ps) && c < |rows| && ps[c] == p
    requires p.Some? ==> p.value < c < SubtreeEnd(rows, p.value)
    ensures Listed(ps, p, c, |rows|) == [c] + Listed(ps, p, SubtreeEnd(rows, c), |rows|)
  {
    InsideSubtree(rows, ps, p, c);
    ListedSkip(ps, p, c + 1, SubtreeEnd(rows, c), |rows|);
  }

  /** The preorder walk of a list starting with `c`. */
  lemma OrderCons(children: seq<seq<nat>>, c: nat, rest: seq<nat>, lo: int)
    requires ForwardLists(children) && lo < c < |children|
    requires forall k :: 0 <= k < |rest| ==> lo < rest[k] < |children|
    ensures ListOrder(children, [c] + rest, lo) == SubtreeOrder(children, c) + ListOrder(children, rest, lo)
  {
    assert ([c] + rest)[1..] == rest;
  }

  /**
   * The preorder walks of the rows from `c` on whose parent is `p` cover
   * the rows from `c` to the end of `p`'s range, when `c` is one of them.
   */
  lemma {:induction false} ChildrenRange(rows: seq<Row>, ps: seq<Option<nat>>, children: seq<seq<nat>>, p: Option<nat>, c: nat)
    requires ForestOf(rows, ps, children)
    requires p.Some? ==> p.value < c && p.value < |rows|
    requires c <= Bound(rows, p) && (c < Bound(rows, p) ==> ps[c] == p)
    ensures forall k :: 0 <= k < |Listed(ps, p, c, |rows|)| ==> Lo(p) < Listed(ps, p, c, |rows|)[k] < |children|
    ensures ListOrder(children, Listed(ps, p, c, |rows|), Lo(p)) == Range(c, Bound(rows, p))
    decreases |rows| - c, 1
  {
    ListedAbove(ps, p, c, |rows|);
    if c == Bound(rows, p) {
      ListedEnd(rows, ps, p);
    } else {
      var e := SubtreeEnd(rows, c);
      ListedFrom(rows, ps, p, c);
      NextSibling(rows, ps, p, c);
      ChildrenRange(rows, ps, children, p, e);
      SubtreeRange(rows, ps, children, c);
      OrderJoin(children, c, Listed(ps, p, e, |rows|), Lo(p), e, Bound(rows, p));
    }
  }

  /** The rows listed under `p` from `c` on all come after `p`. */
  lemma ListedAbove(ps: seq<Option<nat>>, p: Option<nat>, c: nat, n: nat)
    requires c <= n <= |ps| && (p.Some? ==> p.value < c)
    ensures forall k :: 0 <= k < |Listed(ps, p, c, n)| ==> Lo(p) < Listed(ps, p, c, n)[k] < n
  {
    var l := Listed(ps, p, c, n);
    ListedWithin(ps, p, c, n);
    forall k | 0 <= k < |l|
      ensures Lo(p) < l[k] < n
    {
      assert l[k] in l;
    }
  }

  /** A subtree covering `[c, e)` followed by walks covering `[e, b)` covers `[c, b)`. */
  lemma OrderJoin(children: seq<seq<nat>>, c: nat, rest: seq<nat>, lo: int, e: int, b: int)
    requires ForwardLists(children) && lo < c < |children|
    requires forall k :: 0 <= k < |rest| ==> lo < rest[k] < |children|
    requires c < e <= b
    requires SubtreeOrder(children, c) == Range(c, e) && ListOrder(children, rest, lo) == Range(e, b)
    ensures ListOrder(children, [c] + rest, lo) == Range(c, b)
  {
    OrderCons(children, c, rest, lo);
    RangeAppend(c, e, b);
  }

  lemma {:induction false} ListedWithin(ps: seq<Option<nat>>, p: Option<nat>, a: nat, hi: nat)
    requires a <= hi <= |ps|
    ensures forall x :: x in Listed(ps, p, a, hi) ==> a <= x < hi && ps[x] == p
    decreases hi - a
  {
    if a < hi {
      ListedWithin(ps, p, a + 1, hi);
    }
  }

  /**
   * Walking the forest in preorder, each row before its children and the
   * children in list order, gives back every row once, in section order.
   */
  lemma PreorderIsRowOrder(rows: seq<Row>)
    ensures ForwardLists(ChildLists(rows))
    ensures forall k :: 0 <= k < |RootsUpTo(Parents(rows), |rows|)| ==> RootsUpTo(Parents(rows), |rows|)[k] < |rows|
    ensures Preorder(RootsUpTo(Parents(rows), |rows|), ChildLists(rows)) == Range(0, |rows|)
  {
    var ps := Parents(rows);
    var children := ChildLists(rows);
    var n := |rows|;
    forall i | 0 <= i < n
      ensures ps[i] == NearestBelow(rows, rows[i].level, i)
    {
      ParentIsNearestSmaller(rows, i);
    }
    forall j | 0 <= j < n
      ensures children[j] == Listed(ps, Some(j), 0, n)
    {
      ChildrenListed(ps, j, n);
    }
    forall j, k | 0 <= j < n && 0 <= k < |children[j]|
      ensures j < children[j][k] < n
    {
      ListedWithin(ps, Some(j), 0, n);
      assert children[j][k] in children[j];
    }
    ChildrenListed(ps, 0, n);
    ChildrenRange(rows, ps, children, None, 0);
  }
}
