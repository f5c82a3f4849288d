/**
 What the steps of kernel/c/vma.c that change ranges or take areas away do to list, tree and caches.
 */
module VmaCuts {
  import opened VmAreas
  import opened RbShape
  import opened RbGaps
  import opened RbBalance
  import opened RbSteps
  import opened RbErasing
  import opened HostMemory
  import opened VmaSteps

  // ---------------------------------------------------------------- changing a range

  ghost function Resized(c: Chain, v: VmArea, start: int, end: int): Chain {
    c.(starts := c.starts[v := start], ends := c.ends[v := end])
  }

  /** `[start, end)` is a range that the area at position `i` can have between its neighbours. */
  ghost predicate FitsInPlace(c: Chain, list: seq<VmArea>, i: int, start: int, end: int) {
    && 0 <= i < |list| && 0 <= start < end && Aligned(start) && Aligned(end)
    && (i > 0 ==> list[i - 1] in c.ends && c.ends[list[i - 1]] <= start)
    && (i + 1 < |list| ==> list[i + 1] in c.starts && end <= c.starts[list[i + 1]])
  }

  lemma ResizedSorted(c: Chain, list: seq<VmArea>, i: int, start: int, end: int)
    requires Sorted(c, list) && Distinct(list) && FitsInPlace(c, list, i, start, end)
    ensures Sorted(Resized(c, list[i], start, end), list)
  {
    var d := Resized(c, list[i], start, end);
    forall j, k | 0 <= j < k < |list|
      ensures d.ends[list[j]] <= d.starts[list[k]]
    {
      if j == i && k > i + 1 { assert c.starts[list[i + 1]] < c.ends[list[i + 1]] <= c.starts[list[k]]; }
      if k == i && j < i - 1 { assert c.ends[list[j]] <= c.starts[list[i - 1]] < c.ends[list[i - 1]]; }
    }
  }

  /** A new end changes the hole behind, a new start the hole in front, and nothing else. */
  lemma ResizedHole(c: Chain, list: seq<VmArea>, i: int, start: int, end: int, n: VmArea)
    requires Known(c) && Chained(c, list) && Distinct(list) && 0 <= i < |list| && n in c.prevs
    requires list[i] in c.starts && list[i] in c.ends
    requires n in list && (n != list[i] || start == c.starts[list[i]]) && (n != At(list, i + 1) || end == c.ends[list[i]])
    ensures n in Holes(Resized(c, list[i], start, end)) && n in Holes(c)
    ensures Holes(Resized(c, list[i], start, end))[n] == Holes(c)[n]
  {
    var k :| 0 <= k < |list| && list[k] == n;
    assert c.prevs[list[k]] == At(list, k - 1);
  }

  lemma ResizedKnown(c: Chain, v: VmArea, start: int, end: int)
    requires Known(c) && v in c.starts
    ensures Known(Resized(c, v, start, end)) && Holes(Resized(c, v, start, end)).Keys == Holes(c).Keys == c.prevs.Keys
  {
  }

  lemma InSequence(a: State, n: VmArea)
    requires a.t.Tree() && n in a.t.span
    ensures n in a.t.order
  {
    assert a.t.AtOk(n);
  }

  lemma SortedAt(c: Chain, list: seq<VmArea>, i: int)
    requires Sorted(c, list) && 0 <= i < |list|
    ensures list[i] in c.starts && list[i] in c.ends
  {
  }

  lemma ResizedAlike(a: State, c: Chain, b: State, i: int, start: int, end: int, v: VmArea?)
    requires Consistent(a, c, null) && 0 <= i < |a.t.order|
    requires b == a.(own := Holes(Resized(c, a.t.order[i], start, end)))
    requires v == a.t.order[i] || start == c.starts[a.t.order[i]]
    requires v == At(a.t.order, i + 1) || end == c.ends[a.t.order[i]]
    ensures Alike(a, b, v) && Known(Resized(c, a.t.order[i], start, end))
  {
    hide Consistent, StaleAt, RootBlack, Sorted, Good, Chained, Distinct, Known, Holes, Resized, Shape.Tree;
    var list := a.t.order;
    ConsistentParts(a, c, null);
    SortedAt(c, list, i);
    ResizedKnown(c, list[i], start, end);
    forall n | n in a.t.span && n != v
      ensures b.own[n] == a.own[n]
    {
      InSequence(a, n);
      ResizedHole(c, list, i, start, end, n);
    }
  }

  lemma ResizedStale(a: State, c: Chain, b: State, i: int, start: int, end: int, v: VmArea?)
    requires Consistent(a, c, null) && FitsInPlace(c, a.t.order, i, start, end)
    requires b == a.(own := Holes(Resized(c, a.t.order[i], start, end)))
    requires v == a.t.order[i] || start == c.starts[a.t.order[i]]
    requires v == At(a.t.order, i + 1) || end == c.ends[a.t.order[i]]
    requires v == null || v == a.t.order[i] || v == At(a.t.order, i + 1)
    ensures Consistent(b, Resized(c, a.t.order[i], start, end), v)
  {
    hide StaleAt, RootBlack, Chained, Sorted, Distinct, Holes, Shape.Tree, Known, Alike, Good;
    ConsistentParts(a, c, null);
    ResizedSorted(c, a.t.order, i, start, end);
    ResizedAlike(a, c, b, i, start, end, v);
    var d := Resized(c, a.t.order[i], start, end);
    ResizedChained(c, a.t.order, i, start, end);
    SortedHoles(d, a.t.order);
    StaleNowhere(a);
    AlikeStale2(a, b, v);
  }

  lemma ResizedChained(c: Chain, list: seq<VmArea>, i: int, start: int, end: int)
    requires Chained(c, list) && 0 <= i < |list|
    ensures Chained(Resized(c, list[i], start, end), list)
  {
  }

  /** In a sorted chain every hole has a size. */
  lemma SortedHoles(c: Chain, list: seq<VmArea>)
    requires Chained(c, list) && Sorted(c, list)
    ensures forall i :: 0 <= i < |list| ==> list[i] in Holes(c) && Holes(c)[list[i]] >= 0
  {
    forall i | 0 <= i < |list|
      ensures list[i] in Holes(c) && Holes(c)[list[i]] >= 0
    {
      assert c.prevs[list[i]] == At(list, i - 1);
    }
  }

  lemma AlikeStale2(a: State, b: State, v: VmArea?)
    requires Good(a) && Alike(a, b, v) && (v != null ==> v in b.own && b.own[v] >= 0 && v in a.t.span)
    ensures StaleAt(b, v) && (RootBlack(a.t, a.col) ==> RootBlack(b.t, b.col))
  {
    assert StaleAt(a, v);
    AlikeStale(a, b, v);
  }

  // ---------------------------------------------------------------- taking areas away

  /** The sequence without the positions from `f` to `m`. */
  function Cut<T>(s: seq<T>, f: int, m: int): seq<T>
    requires 0 <= f <= m <= |s|
  {
    s[..f] + s[m..]
  }

  /** An own gap that is out of date does not matter for the node that is to be erased. */
  lemma ErasableOwn(a: State, b: State, v: VmArea)
    requires Good(a) && v in a.t.span && b == a.(own := b.own) && b.own.Keys == a.own.Keys
    requires forall n :: n in a.t.span && n != v ==> b.own[n] == a.own[n]
    ensures Erasable(b, v)
  {
    forall n | n in b.t.span && n != v
      ensures GapOk(b.t, b.own, b.gaps, n)
    {
      assert GapOk(a.t, a.own, a.gaps, n);
    }
  }

  /** Erasing the first of the areas that are to go. */
  lemma CutStep(a: State, b: State, list: seq<VmArea>, f: int, j: int)
    requires a.t.Tree() && 0 <= f <= j < |list| && a.t.order == Cut(list, f, j) && Erased(a, b, list[j])
    ensures b.t.order == Cut(list, f, j + 1) && b.t.span.Keys == a.t.span.Keys - {list[j]}
  {
    assert a.t.order[f] == list[j] && a.t.AtOk(list[j]);
    assert a.t.span[list[j]].at == f;
    assert Without(Cut(list, f, j), f) == Cut(list, f, j + 1);
  }

  /** `d` is the chain of the remaining records once the neighbours of the gap `[f, m)` point at each other. */
  ghost predicate Bridged(c: Chain, d: Chain, list: seq<VmArea>, f: int, m: int)
    requires 0 <= f <= m <= |list|
  {
    && d.prevs.Keys <= c.prevs.Keys && d.nexts.Keys == d.starts.Keys == d.ends.Keys == d.prevs.Keys
    && (forall n :: n in d.prevs ==> n in Cut(list, f, m)) && (forall n :: n in Cut(list, f, m) ==> n in d.prevs)
    && (forall n :: n in d.prevs && n in c.prevs ==> d.prevs[n] == if n == At(list, m) then At(list, f - 1) else c.prevs[n])
    && (forall n :: n in d.prevs && n in c.nexts ==> d.nexts[n] == if n == At(list, f - 1) then At(list, m) else c.nexts[n])
    && (forall n :: n in d.prevs ==> n in c.starts && d.starts[n] == c.starts[n])
    && (forall n :: n in d.prevs ==> n in c.ends && d.ends[n] == c.ends[n])
  }

  lemma CutAt(list: seq<VmArea>, f: int, m: int, i: int)
    requires 0 <= f <= m <= |list|
    ensures At(Cut(list, f, m), i) == if i < f then At(list, i) else At(list, i + m - f)
  {
  }

  lemma CutIndex(list: seq<VmArea>, f: int, m: int, i: int)
    requires 0 <= f <= m <= |list| && 0 <= i < |Cut(list, f, m)|
    ensures var r, j := Cut(list, f, m), if i < f then i else i + m - f;
      0 <= j < |list| && r[i] == list[j] && r[i] in r
  {
  }

  lemma BridgedAt(c: Chain, d: Chain, list: seq<VmArea>, f: int, m: int, n: VmArea)
    requires 0 <= f <= m <= |list| && Bridged(c, d, list, f, m) && n in Cut(list, f, m)
    ensures n in d.prevs && n in d.nexts
    ensures n in c.prevs ==> d.prevs[n] == if n == At(list, m) then At(list, f - 1) else c.prevs[n]
    ensures n in c.nexts ==> d.nexts[n] == if n == At(list, f - 1) then At(list, m) else c.nexts[n]
  {
  }

  lemma BridgedNeighbours(c: Chain, d: Chain, list: seq<VmArea>, f: int, m: int, i: int)
    requires Chained(c, list) && Distinct(list) && 0 <= f <= m <= |list| && Bridged(c, d, list, f, m)
    requires 0 <= i < |Cut(list, f, m)|
    ensures var r := Cut(list, f, m);
      r[i] in d.prevs && r[i] in d.nexts && d.prevs[r[i]] == At(r, i - 1) && d.nexts[r[i]] == At(r, i + 1)
  {
    hide Bridged, Chained, Distinct, Cut, At;
    var j := if i < f then i else i + m - f;
    CutIndex(list, f, m, i);
    CutAt(list, f, m, i - 1);
    CutAt(list, f, m, i + 1);
    ChainedAt(c, list, j, m);
    ChainedAt(c, list, j, f - 1);
    BridgedAt(c, d, list, f, m, list[j]);
  }

  lemma BridgedChained(c: Chain, d: Chain, list: seq<VmArea>, f: int, m: int)
    requires Chained(c, list) && Distinct(list) && 0 <= f <= m <= |list| && Bridged(c, d, list, f, m)
    ensures Chained(d, Cut(list, f, m)) && Known(d)
  {
    var r := Cut(list, f, m);
    forall i | 0 <= i < |r|
      ensures r[i] in d.prevs && r[i] in d.nexts && d.prevs[r[i]] == At(r, i - 1) && d.nexts[r[i]] == At(r, i + 1)
    {
      BridgedNeighbours(c, d, list, f, m, i);
    }
    forall n | n in d.prevs && d.prevs[n] != null
      ensures d.prevs[n] in d.prevs
    {
      var i :| 0 <= i < |r| && r[i] == n;
      assert r[i - 1] in r;
    }
  }

  lemma BridgedRange(c: Chain, d: Chain, list: seq<VmArea>, f: int, m: int, i: int)
    requires 0 <= f <= m <= |list| && Bridged(c, d, list, f, m) && 0 <= i < |Cut(list, f, m)|
    ensures var r, j := Cut(list, f, m), if i < f then i else i + m - f;
      && 0 <= j < |list| && r[i] == list[j] && r[i] in d.starts && r[i] in d.ends && r[i] in c.starts && r[i] in c.ends
      && d.starts[r[i]] == c.starts[r[i]] && d.ends[r[i]] == c.ends[r[i]]
  {
    assert Cut(list, f, m)[i] in Cut(list, f, m);
  }

  /** What is left of a sorted list is sorted. */
  lemma SubSorted(c: Chain, list: seq<VmArea>, f: int, m: int)
    requires Sorted(c, list) && 0 <= f <= m <= |list|
    ensures Sorted(c, Cut(list, f, m))
  {
    var r := Cut(list, f, m);
    assert forall i :: 0 <= i < |r| ==> r[i] == if i < f then list[i] else list[i + m - f];
  }

  lemma CutSorted(c: Chain, d: Chain, list: seq<VmArea>, f: int, m: int)
    requires 0 <= f <= m <= |list| && Sorted(c, Cut(list, f, m)) && Bridged(c, d, list, f, m)
    ensures Sorted(d, Cut(list, f, m))
  {
    hide Bridged, Cut;
    var r := Cut(list, f, m);
    forall i | 0 <= i < |r|
      ensures r[i] in d.starts && r[i] in d.ends && d.starts[r[i]] == c.starts[r[i]] && d.ends[r[i]] == c.ends[r[i]]
    {
      BridgedRange(c, d, list, f, m, i);
    }
  }

  /** All together: the remaining records, once the tree has forgotten the others. */
  lemma CutConsistent(b: State, e: State, d: Chain, v: VmArea?)
    requires Good(b) && RootBlack(b.t, b.col) && Alike(b, e, v) && e.own == Holes(d)
    requires Known(d) && Chained(d, e.t.order) && Sorted(d, e.t.order) && (v == null || v in b.t.span)
    requires e.t.links.Keys == e.t.span.Keys == d.prevs.Keys
    ensures Consistent(e, d, v)
  {
    if v != null {
      assert b.t.AtOk(v);
      SortedHoles(d, e.t.order);
      assert e.t.order[b.t.span[v].at] == v;
    }
    AlikeStale2(b, e, v);
  }

  /** The remaining holes are what they were, except the one behind the gap. */
  lemma BridgedHole(c: Chain, d: Chain, list: seq<VmArea>, f: int, m: int, n: VmArea)
    requires Chained(c, list) && Distinct(list) && 0 <= f <= m <= |list| && Bridged(c, d, list, f, m)
    requires n in d.prevs && n != At(list, m)
    ensures n in Holes(d) && n in Holes(c) && Holes(d)[n] == Holes(c)[n]
  {
    hide Bridged, Chained, Distinct, Cut;
    BridgedIn(c, d, list, f, m, n);
    var r := Cut(list, f, m);
    var i :| 0 <= i < |r| && r[i] == n;
    var j := if i < f then i else i + m - f;
    CutIndex(list, f, m, i);
    CutAt(list, f, m, i - 1);
    BridgedNeighbours(c, d, list, f, m, i);
    BridgedRange(c, d, list, f, m, i);
    ChainedAt(c, list, j, m);
    if j > 0 { BridgedRange(c, d, list, f, m, i - 1); }
  }

  lemma BridgedIn(c: Chain, d: Chain, list: seq<VmArea>, f: int, m: int, n: VmArea)
    requires 0 <= f <= m <= |list| && Bridged(c, d, list, f, m) && n in d.prevs
    ensures n in Cut(list, f, m)
  {
  }

  /** The tree `b` without the erased records, seen through the bridged chain. */
  lemma CutAlike(b: State, e: State, c: Chain, d: Chain, list: seq<VmArea>, f: int, m: int)
    requires Chained(c, list) && Distinct(list) && 0 <= f <= m <= |list| && Bridged(c, d, list, f, m)
    requires Good(b) && b.t.span.Keys == d.prevs.Keys && e.own == Holes(d)
    requires forall n :: n in b.t.span ==> n in Holes(c) && n in b.own && b.own[n] == Holes(c)[n]
    requires e.t.root == b.t.root && e.t.order == b.t.order && e.t.span == b.t.span
    requires e.t.links.Keys == e.gaps.Keys == e.col.Keys == d.prevs.Keys
    requires forall n :: n in e.t.links ==> n in b.t.links && e.t.links[n] == b.t.links[n]
    requires forall n :: n in e.gaps ==> n in b.gaps && e.gaps[n] == b.gaps[n]
    requires forall n :: n in e.col ==> n in b.col && e.col[n] == b.col[n]
    ensures Alike(b, e, At(list, m))
  {
    hide Bridged, Chained, Distinct;
    var v := At(list, m);
    assert Holes(d).Keys == d.prevs.Keys by { BridgedKeys(c, d, list, f, m); }
    forall n | n in b.t.span && n != v
      ensures n in e.own && e.own[n] == b.own[n]
    {
      BridgedHole(c, d, list, f, m, n);
    }
  }

  lemma BridgedKeys(c: Chain, d: Chain, list: seq<VmArea>, f: int, m: int)
    requires 0 <= f <= m <= |list| && Bridged(c, d, list, f, m)
    ensures Holes(d).Keys == d.prevs.Keys
  {
  }

  // ---------------------------------------------------------------- the loop that erases

  ghost function Slice(list: seq<VmArea>, f: int, m: int): set<VmArea> {
    set i | f <= i < m && 0 <= i < |list| :: list[i]
  }

  /** The areas from `f` to `m` have left the tree; the one at `m` is next. */
  ghost predicate Erasing(b: State, list: seq<VmArea>, f: int, m: int, keys: set<VmArea>, own: Gaps) {
    && 0 <= f <= m < |list| && Distinct(list) && Erasable(b, list[m]) && RootBlack(b.t, b.col) && b.own == own
    && b.t.order == Cut(list, f, m) && b.t.span.Keys == keys - Slice(list, f, m)
  }

  /** The areas from `f` to `m`, and no others, have left the tree. */
  ghost predicate ErasedRun(b: State, list: seq<VmArea>, f: int, m: int, keys: set<VmArea>, own: Gaps) {
    && 0 <= f < m <= |list| && Good(b) && RootBlack(b.t, b.col) && b.own == own
    && b.t.order == Cut(list, f, m) && b.t.span.Keys == keys - Slice(list, f, m)
  }

  lemma EraseOne(a: State, b: State, list: seq<VmArea>, f: int, m: int, keys: set<VmArea>, own: Gaps)
    requires Erasing(a, list, f, m, keys, own) && Erased(a, b, list[m])
    ensures ErasedRun(b, list, f, m + 1, keys, own)
    ensures m + 1 < |list| ==> Erasing(b, list, f, m + 1, keys, own)
  {
    CutStep(a, b, list, f, m);
    SliceGrows(list, f, m);
    assert (keys - Slice(list, f, m)) - {list[m]} == keys - Slice(list, f, m + 1);
    if m + 1 < |list| {
      CutAt(list, f, m + 1, f);
      assert b.t.order[f] == list[m + 1] && b.t.order[f] in b.t.span;
      ErasableOwn(b, b, list[m + 1]);
    }
  }

  lemma SliceGrows(list: seq<VmArea>, f: int, m: int)
    requires 0 <= f <= m < |list|
    ensures Slice(list, f, m + 1) == Slice(list, f, m) + {list[m]}
  {
  }

  lemma ErasingStart(a: State, b: State, list: seq<VmArea>, f: int)
    requires Good(a) && RootBlack(a.t, a.col) && list == a.t.order && Distinct(list) && 0 <= f < |list|
    requires b == a.(own := b.own) && b.own.Keys == a.own.Keys
    requires forall n :: n in a.t.span && n != list[f] ==> b.own[n] == a.own[n]
    ensures Erasing(b, list, f, f, a.t.span.Keys, b.own)
  {
    assert list[f] in a.t.span;
    ErasableOwn(a, b, list[f]);
    assert Cut(list, f, f) == list;
    assert Slice(list, f, f) == {};
  }

  lemma ErasingNow(b: State, list: seq<VmArea>, f: int, m: int, keys: set<VmArea>, own: Gaps)
    requires Erasing(b, list, f, m, keys, own)
    ensures 0 <= f <= m < |list| && Erasable(b, list[m]) && list[m] in b.t.links && list[m] in b.t.span
  {
  }

  /** The chain after `vma->prev = NULL` for the first area that is to go. */
  ghost function Cleared(c: Chain, v: VmArea): Chain {
    c.(prevs := c.prevs[v := null])
  }

  lemma ClearedKnown(c: Chain, v: VmArea)
    requires Known(c) && v in c.prevs
    ensures Known(Cleared(c, v)) && Holes(Cleared(c, v)).Keys == Holes(c).Keys
    ensures forall n :: n in Holes(c) && n != v ==> Holes(Cleared(c, v))[n] == Holes(c)[n]
  {
  }

  lemma ClearedStart(a: State, c: Chain, b: State, f: int)
    requires Consistent(a, c, null) && 0 <= f < |a.t.order| && b == a.(own := Holes(Cleared(c, a.t.order[f])))
    ensures Erasing(b, a.t.order, f, f, a.t.span.Keys, b.own) && Known(Cleared(c, a.t.order[f]))
  {
    hide Consistent, StaleAt, Good, Erasing, RootBlack, Sorted, Chained, Distinct, Known, Holes, Cleared, Shape.Tree;
    ConsistentParts(a, c, null);
    StaleNowhere(a);
    ClearedKnown(c, a.t.order[f]);
    ErasingStart(a, b, a.t.order, f);
  }

  /** The records that remain are those of the sequence that remains. */
  lemma CutMembers(list: seq<VmArea>, f: int, m: int, keys: set<VmArea>)
    requires Distinct(list) && 0 <= f <= m <= |list| && Members(list, keys)
    ensures forall n :: n in keys - Slice(list, f, m) ==> n in Cut(list, f, m)
    ensures forall n :: n in Cut(list, f, m) ==> n in keys - Slice(list, f, m)
  {
    var r := Cut(list, f, m);
    forall n | n in keys - Slice(list, f, m)
      ensures n in r
    {
      var i :| 0 <= i < |list| && list[i] == n;
      assert i < f || m <= i;
      assert r[if i < f then i else i - (m - f)] == n;
    }
    forall n | n in r
      ensures n in keys - Slice(list, f, m)
    {
      var i :| 0 <= i < |r| && r[i] == n;
      var j := if i < f then i else i + m - f;
      assert list[j] == n;
    }
  }

  lemma OrderInSpan(b: State, i: int)
    requires Good(b) && 0 <= i < |b.t.order|
    ensures b.t.order[i] in b.t.span
  {
  }

  /** The whole step: the erased records are forgotten and their neighbours point at each other. */
  lemma CutDone(list: seq<VmArea>, c: Chain, b: State, e: State, d: Chain, f: int, m: int, keys: set<VmArea>)
    requires Chained(c, list) && Distinct(list) && ErasedRun(b, list, f, m, keys, b.own) && Sorted(d, Cut(list, f, m))
    requires Bridged(c, d, list, f, m) && d.prevs.Keys == keys - Slice(list, f, m) && e.own == Holes(d)
    requires OwnShown(b, c)
    requires e.t.root == b.t.root && e.t.order == b.t.order && e.t.span == b.t.span
    requires e.t.links.Keys == e.gaps.Keys == e.col.Keys == d.prevs.Keys
    requires forall n :: n in e.t.links ==> n in b.t.links && e.t.links[n] == b.t.links[n]
    requires forall n :: n in e.gaps ==> n in b.gaps && e.gaps[n] == b.gaps[n]
    requires forall n :: n in e.col ==> n in b.col && e.col[n] == b.col[n]
    ensures Consistent(e, d, At(list, m)) && Known(d)
  {
    hide Bridged, Chained, Sorted, Distinct, Holes, Good, Alike, RootBlack, StaleAt;
    CutAlike(b, e, c, d, list, f, m);
    BridgedChained(c, d, list, f, m);
    var v := At(list, m);
    if v != null {
      CutAt(list, f, m, f);
      assert b.t.order[f] == v;
      OrderInSpan(b, f);
    }
    CutConsistent(b, e, d, v);
  }

  /** The own gaps of `b` are the holes of `c`. */
  ghost predicate OwnShown(b: State, c: Chain) {
    forall n :: n in b.t.span ==> n in Holes(c) && n in b.own && b.own[n] == Holes(c)[n]
  }

  /** The areas from `f` to `m` have left the tree; list and ranges are still those of `c`, in which the rest is sorted. */
  ghost predicate Detached(b: State, c: Chain, list: seq<VmArea>, f: int, m: int, keys: set<VmArea>) {
    && ErasedRun(b, list, f, m, keys, b.own) && OwnShown(b, c)
    && Chained(c, list) && Distinct(list) && Members(list, keys) && Sorted(c, Cut(list, f, m))
  }

  lemma DetachedParts(b: State, c: Chain, list: seq<VmArea>, f: int, m: int, keys: set<VmArea>)
    requires Detached(b, c, list, f, m, keys)
    ensures 0 <= f < m <= |list| && Chained(c, list) && Distinct(list) && Members(list, keys) && Sorted(c, Cut(list, f, m))
    ensures ErasedRun(b, list, f, m, keys, b.own) && OwnShown(b, c)
    ensures b.t.order == Cut(list, f, m) && b.t.span.Keys == keys - Slice(list, f, m)
  {
  }

  // ---------------------------------------------------------------- swallowing the next area

  /** The chain once the area at `i` ends where its successor does. */
  ghost function Overlaid(c: Chain, list: seq<VmArea>, i: int): Chain
    requires 0 <= i < |list| - 1 && list[i] in c.starts && list[i + 1] in c.ends
  {
    Resized(c, list[i], c.starts[list[i]], c.ends[list[i + 1]])
  }

  lemma OverlaidSorted(c: Chain, list: seq<VmArea>, i: int)
    requires Sorted(c, list) && Distinct(list) && 0 <= i < |list| - 1
    ensures Sorted(Overlaid(c, list, i), Cut(list, i + 1, i + 2))
  {
    var d, r := Overlaid(c, list, i), Cut(list, i + 1, i + 2);
    assert forall j :: 0 <= j < |r| ==> r[j] == if j < i + 1 then list[j] else list[j + 1];
    forall j | 0 <= j < |r|
      ensures r[j] in d.starts && r[j] in d.ends && d.starts[r[j]] == c.starts[r[j]]
      ensures d.ends[r[j]] == if j == i then c.ends[list[i + 1]] else c.ends[r[j]]
    {
    }
  }

  /** The extended area overlaps its successor, whose own gap is out of date; that one can be erased. */
  lemma OverlaidStart(a: State, c: Chain, b: State, i: int)
    requires Consistent(a, c, null) && 0 <= i < |a.t.order| - 1
    requires a.t.order[i] in c.starts && a.t.order[i + 1] in c.ends && b == a.(own := Holes(Overlaid(c, a.t.order, i)))
    ensures Erasing(b, a.t.order, i + 1, i + 1, a.t.span.Keys, b.own) && Known(Overlaid(c, a.t.order, i))
  {
    hide Chained, Sorted, Distinct, Known, StaleAt, RootBlack, Holes, Alike, Good, Erasing;
    var list := a.t.order;
    ConsistentParts(a, c, null);
    StaleNowhere(a);
    ResizedAlike(a, c, b, i, c.starts[list[i]], c.ends[list[i + 1]], list[i + 1]);
    ErasingAlike(a, b, i + 1);
  }

  lemma ErasingAlike(a: State, b: State, f: int)
    requires Good(a) && RootBlack(a.t, a.col) && Distinct(a.t.order) && 0 <= f < |a.t.order|
    requires b == a.(own := b.own) && Alike(a, b, a.t.order[f]) && a.t.links.Keys == a.own.Keys
    ensures Erasing(b, a.t.order, f, f, a.t.span.Keys, b.own)
  {
    ErasingStart(a, b, a.t.order, f);
  }

  lemma OverlaidDetached(a: State, c: Chain, b: State, i: int, keys: set<VmArea>)
    requires Consistent(a, c, null) && 0 <= i < |a.t.order| - 1 && Members(a.t.order, keys)
    requires a.t.order[i] in c.starts && a.t.order[i + 1] in c.ends
    requires ErasedRun(b, a.t.order, i + 1, i + 2, keys, b.own) && b.own == Holes(Overlaid(c, a.t.order, i))
    requires keys == c.prevs.Keys
    ensures Detached(b, Overlaid(c, a.t.order, i), a.t.order, i + 1, i + 2, keys)
  {
    var list := a.t.order;
    ConsistentParts(a, c, null);
    OverlaidSorted(c, list, i);
    ResizedChained(c, list, i, c.starts[list[i]], c.ends[list[i + 1]]);
  }

  // ---------------------------------------------------------------- splitting

  /** What an area gives up at its upper end fits behind it, and what it gives up at its lower end in front. */
  lemma SplitFits(c: Chain, list: seq<VmArea>, i: int, addr: int)
    requires Sorted(c, list) && Distinct(list) && 0 <= i < |list| && Aligned(addr)
    requires list[i] in c.starts && list[i] in c.ends && c.starts[list[i]] < addr < c.ends[list[i]]
    ensures FitsInPlace(c, list, i, c.starts[list[i]], addr) && FitsInPlace(c, list, i, addr, c.ends[list[i]])
    ensures FitsBetween(Resized(c, list[i], c.starts[list[i]], addr), list, i + 1, addr, c.ends[list[i]])
    ensures FitsBetween(Resized(c, list[i], addr, c.ends[list[i]]), list, i, c.starts[list[i]], addr)
  {
    forall j | 0 <= j < |list|
      ensures j < i ==> c.ends[list[j]] <= c.starts[list[i]]
      ensures j > i ==> c.ends[list[i]] <= c.starts[list[j]]
      ensures j != i ==> list[j] != list[i]
    {
    }
  }
}
