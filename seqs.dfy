/** Sequence facts the loop proofs invoke by name, each proved once. */
module Seqs {
  lemma Assoc<T>(a: seq<T>, b: seq<T>, c: seq<T>)
    ensures (a + b) + c == a + (b + c)
  {
  }

  lemma Snoc<T>(s: seq<T>)
    requires s != []
    ensures s == s[..|s| - 1] + [s[|s| - 1]]
  {
  }

  lemma TakeSnoc<T>(s: seq<T>, i: int)
    requires 0 <= i < |s|
    ensures s[..i + 1] == s[..i] + [s[i]]
  {
  }

  lemma DropCons<T>(s: seq<T>, i: int)
    requires 0 <= i < |s|
    ensures s[i..][0] == s[i] && s[i..][1..] == s[i + 1..]
  {
  }

  lemma DropAppend<T>(s: seq<T>, i: int, t: seq<T>)
    requires 0 <= i < |s|
    ensures (s[i..] + t)[0] == s[i] && (s[i..] + t)[1..] == s[i + 1..] + t
  {
  }

  lemma SnocIndex<T>(a: seq<T>, x: T)
    ensures |a + [x]| == |a| + 1 && (a + [x])[|a|] == x
    ensures forall k :: 0 <= k < |a| ==> (a + [x])[k] == a[k]
  {
  }

  /** The sequence f(0), ..., f(n - 1), built by appending. */
  function Build<T>(f: int --> T, n: nat): (r: seq<T>)
    requires forall k :: 0 <= k < n ==> f.requires(k)
    ensures |r| == n
  {
    if n == 0 then [] else Build(f, n - 1) + [f(n - 1)]
  }

  lemma {:induction false} BuildIndex<T>(f: int --> T, n: nat)
    requires forall k :: 0 <= k < n ==> f.requires(k)
    ensures forall k :: 0 <= k < n ==> Build(f, n)[k] == f(k)
  {
    if n > 0 {
      BuildIndex(f, n - 1);
    }
  }

  /** A slice of the first part of a concatenation. */
  lemma SliceBefore<T>(a: seq<T>, b: seq<T>, lo: nat, hi: nat)
    requires lo <= hi <= |a|
    ensures (a + b)[lo..hi] == a[lo..hi]
  {
  }

  /** A slice of the second part of a concatenation. */
  lemma SliceAfter<T>(a: seq<T>, b: seq<T>, lo: nat, hi: nat)
    requires lo <= hi <= |b|
    ensures (a + b)[|a| + lo..|a| + hi] == b[lo..hi]
  {
  }

  /** A slice of the middle part of a concatenation. */
  lemma SliceMiddle<T>(a: seq<T>, b: seq<T>, c: seq<T>, lo: nat, hi: nat)
    requires lo <= hi <= |b|
    ensures (a + b + c)[|a| + lo..|a| + hi] == b[lo..hi]
  {
  }

  /** An element of a slice is the element of the whole sequence. */
  lemma SliceAt<T>(s: seq<T>, lo: nat, part: seq<T>, m: nat)
    requires lo + |part| <= |s| && s[lo..lo + |part|] == part && m < |part|
    ensures s[lo + m] == part[m]
  {
    assert s[lo..lo + |part|][m] == s[lo + m];
  }

  /** f(1, xs[0]) + ... + f(n, xs[n - 1]): the pieces of the first `n` elements, numbered from 1. */
  function Chunks<T, U>(f: (nat, T) -> seq<U>, xs: seq<T>, n: nat): seq<U>
    requires n <= |xs|
  {
    if n == 0 then [] else Chunks(f, xs, n - 1) + f(n, xs[n - 1])
  }

  /** Element `i`'s piece follows the pieces of the elements before it. */
  lemma {:induction false} ChunkAt<T, U>(f: (nat, T) -> seq<U>, xs: seq<T>, n: nat, i: nat)
    requires i < n <= |xs|
    ensures |Chunks(f, xs, i + 1)| == |Chunks(f, xs, i)| + |f(i + 1, xs[i])| <= |Chunks(f, xs, n)|
    ensures Chunks(f, xs, n)[|Chunks(f, xs, i)|..|Chunks(f, xs, i + 1)|] == f(i + 1, xs[i])
  {
    var before := Chunks(f, xs, n - 1);
    var last := f(n, xs[n - 1]);
    assert Chunks(f, xs, n) == before + last;
    var lo, hi := |Chunks(f, xs, i)|, |Chunks(f, xs, i + 1)|;
    if i < n - 1 {
      ChunkAt(f, xs, n - 1, i);
      assert before[lo..hi] == f(i + 1, xs[i]);
      SliceBefore(before, last, lo, hi);
    } else {
      assert lo == |before| && hi == |before| + |last|;
      SliceAfter(before, last, 0, |last|);
      assert last[0..|last|] == last;
    }
  }

  /** With pieces of `w` items each, element `k`'s piece sits `w * k` items after a prefix. */
  lemma ChunkSlice<T, U>(head: seq<U>, f: (nat, T) -> seq<U>, xs: seq<T>, w: nat, k: nat)
    requires k < |xs|
    requires forall j: nat, x :: |f(j, x)| == w
    ensures |head + Chunks(f, xs, |xs|)| == |head| + w * |xs|
    ensures (head + Chunks(f, xs, |xs|))[..|head|] == head
    ensures (head + Chunks(f, xs, |xs|))[|head| + w * k..|head| + w * k + w] == f(k + 1, xs[k])
  {
    var chunks := Chunks(f, xs, |xs|);
    ChunksLength(f, xs, w, k);
    ChunksLength(f, xs, w, |xs|);
    ChunkAt(f, xs, |xs|, k);
    var lo := |Chunks(f, xs, k)|;
    assert lo == w * k && |f(k + 1, xs[k])| == w;
    assert chunks[lo..lo + w] == f(k + 1, xs[k]);
    SliceAfter(head, chunks, lo, lo + w);
    assert (head + chunks)[..|head|] == head;
  }

  lemma {:induction false} ChunksLength<T, U>(f: (nat, T) -> seq<U>, xs: seq<T>, w: nat, n: nat)
    requires n <= |xs|
    requires forall k: nat, x :: |f(k, x)| == w
    ensures |Chunks(f, xs, n)| == w * n
  {
    if n > 0 {
      ChunksLength(f, xs, w, n - 1);
      assert w * n == w * (n - 1) + w;
    }
  }
}
