/**
 Taking areas out of list and tree, and giving them back (kernel/c/vma.c).
 */
module Unlinking {
  import opened VmAreas
  import opened RbShape
  import opened RbGaps
  import opened RbBalance
  import opened RbSteps
  import opened RbErasing
  import opened RbTree
  import opened VmaSteps
  import opened VmaCuts
  import opened Linking

  /** The list can be followed along the `next` pointers. */
  ghost predicate Threaded(list: seq<VmArea>, nodes: set<VmArea>)
    reads nodes`next
  {
    && (forall i :: 0 <= i < |list| ==> list[i] in nodes)
    && forall i {:trigger list[i].next} :: 0 <= i < |list| ==> list[i].next == At(list, i + 1)
  }

  lemma ThreadedAt(list: seq<VmArea>, nodes: set<VmArea>, i: int)
    requires Threaded(list, nodes) && 0 <= i < |list|
    ensures list[i] in nodes && list[i].next == At(list, i + 1)
  {
  }

  /** The loop of `detach_vmas_to_be_unmapped`: the areas from `first` on that start below `end` leave the tree. */
  method EraseRun(s: AddressSpace, first: VmArea, end: int, ghost list: seq<VmArea>, ghost f: int, ghost own: Gaps)
    returns (tail: VmArea, next: VmArea?, ghost m: int)
    requires s.PrevsKnown() && Erasing(s.Now(), list, f, f, s.nodes, own) && list[f] == first
    requires Threaded(list, s.nodes)
    modifies s`root, s`order, s`span, s.nodes`rbLeft, s.nodes`rbRight, s.nodes`rbParent, s.nodes`rbBlack, s.nodes`subtreeGap
    ensures s.PrevsKnown() && ErasedRun(s.Now(), list, f, m, s.nodes, own)
    ensures f < m <= |list| && tail == list[m - 1] && next == At(list, m)
    ensures next != null ==> next.start >= end
    ensures forall i :: f < i < m ==> list[i].start < end
    ensures ChainOf(s.nodes) == old(ChainOf(s.nodes))
  {
    hide Erasing, ErasedRun, Erasable, Erased, RedBlack, Outcome, LinksOf, GapsOf, ColoursOf, Threaded, ChainOf, BeginBelow;
    var vma := first;
    m := f;
    ghost var c := ChainOf(s.nodes);
    ErasingNow(s.Now(), list, f, m, s.nodes, own);
    NoneBegins(c, list, f, end);
    while true
      invariant f <= m < |list| && vma == list[m] && Threaded(list, s.nodes)
      invariant s.PrevsKnown() && Erasing(s.Now(), list, f, m, s.nodes, own)
      invariant ChainOf(s.nodes) == c && BeginBelow(c, list, f, m + 1, end)
      decreases |list| - m
    {
      ghost var a := s.Now();
      ErasingNow(a, list, f, m, s.nodes, own);
      ThreadedAt(list, s.nodes, m);
      var dropped := RbErase(s, vma);
      EraseOne(a, s.Now(), list, f, m, s.nodes, own);
      ThreadedAt(list, s.nodes, m);
      tail := vma;
      next := vma.next;
      m := m + 1;
      if next == null || next.start >= end {
        break;
      }
      OneMoreBegins(s.nodes, c, list, f, m, end);
      vma := next;
    }
    BeginShown(s.nodes, c, list, f, m, end);
  }

  /** The areas at positions from `f + 1` to `m` begin below `end`. */
  ghost predicate BeginBelow(c: Chain, list: seq<VmArea>, f: int, m: int, end: int) {
    0 <= f && m <= |list| && forall i :: f < i < m ==> list[i] in c.starts && c.starts[list[i]] < end
  }

  lemma NoneBegins(c: Chain, list: seq<VmArea>, f: int, end: int)
    requires 0 <= f < |list|
    ensures BeginBelow(c, list, f, f + 1, end)
  {
  }

  lemma OneMoreBegins(nodes: set<VmArea>, c: Chain, list: seq<VmArea>, f: int, m: int, end: int)
    requires ChainOf(nodes) == c && BeginBelow(c, list, f, m, end) && f < m < |list| && Threaded(list, nodes) && list[m].start < end
    ensures BeginBelow(c, list, f, m + 1, end)
  {
    assert list[m] in nodes && c.starts[list[m]] == list[m].start;
  }

  lemma BeginShown(nodes: set<VmArea>, c: Chain, list: seq<VmArea>, f: int, m: int, end: int)
    requires ChainOf(nodes) == c && BeginBelow(c, list, f, m, end)
    ensures forall i :: f < i < m ==> list[i].start < end
  {
    forall i | f < i < m
      ensures list[i].start < end
    {
      assert list[i] in nodes && c.starts[list[i]] == list[i].start;
    }
  }

  lemma OpenThreaded(s: AddressSpace, v: VmArea?)
    requires Open(s, v)
    ensures Threaded(s.order, s.nodes)
  {
    var c := ChainOf(s.nodes);
    ConsistentParts(s.Now(), c, v);
    forall i | 0 <= i < |s.order|
      ensures s.order[i] in s.nodes && s.order[i].next == At(s.order, i + 1)
    {
      assert c.nexts[s.order[i]] == At(s.order, i + 1);
    }
  }

  method ClearPrev(s: AddressSpace, v: VmArea)
    requires v in s.nodes
    modifies v`prev
    ensures ChainOf(s.nodes) == Cleared(old(ChainOf(s.nodes)), v) && FieldsOf(s.nodes) == old(FieldsOf(s.nodes))
  {
    hide FieldsOf, StartsOf, EndsOf, NextsOf;
    v.prev := null;
    assert PrevsOf(s.nodes) == old(PrevsOf(s.nodes))[v := null];
  }

  lemma ClearedHoles(c: Chain, b: State, list: seq<VmArea>, f: int, m: int, keys: set<VmArea>)
    requires 0 <= f < |list| && ErasedRun(b, list, f, m, keys, Holes(Cleared(c, list[f]))) && Known(c) && c.prevs.Keys == keys
    ensures OwnShown(b, c)
  {
    var v := list[f];
    assert v in Slice(list, f, m);
    forall n | n in b.t.span
      ensures n in Holes(c) && n in b.own && b.own[n] == Holes(c)[n]
    {
      assert n != v && Cleared(c, v).prevs[n] == c.prevs[n];
    }
  }

  lemma MatchesCleared(nodes: set<VmArea>, gone: set<VmArea>, c: Chain, v: VmArea)
    requires ChainOf(nodes) == Cleared(c, v) && v in gone && v in c.prevs
    ensures Matches(nodes, gone, c)
  {
    assert c.prevs.Keys == Cleared(c, v).prevs.Keys;
    forall n | n in nodes && n !in gone
      ensures n.prev == c.prevs[n]
    {
      assert Cleared(c, v).prevs[n] == n.prev;
    }
  }

  lemma InSlice(list: seq<VmArea>, f: int, m: int)
    requires 0 <= f < m <= |list|
    ensures list[f] in Slice(list, f, m) && list[m - 1] in Slice(list, f, m)
  {
  }

  /** What is known after the loop that erases. */
  lemma DetachDone(s: AddressSpace, a: State, c: Chain, list: seq<VmArea>, f: int, m: int, own: Gaps)
    requires Consistent(a, c, null) && list == a.t.order && 0 <= f < |list| && Members(list, s.nodes)
    requires s.PrevsKnown() && ErasedRun(s.Now(), list, f, m, s.nodes, own) && own == Holes(Cleared(c, list[f]))
    requires ChainOf(s.nodes) == Cleared(c, list[f])
    ensures Detached(s.Now(), c, list, f, m, s.nodes) && Matches(s.nodes, Slice(list, f, m), c)
  {
    ConsistentParts(a, c, null);
    ClearedKeys(c, list[f], s.nodes);
    ClearedHoles(c, s.Now(), list, f, m, s.nodes);
    InSlice(list, f, m);
    MatchesCleared(s.nodes, Slice(list, f, m), c, list[f]);
    SubSorted(c, list, f, m);
  }

  lemma ClearedKeys(c: Chain, v: VmArea, nodes: set<VmArea>)
    requires ChainOf(nodes) == Cleared(c, v) && v in c.prevs
    ensures c.prevs.Keys == nodes
  {
    assert Cleared(c, v).prevs.Keys == c.prevs.Keys;
  }

  /** The first half of `detach_vmas_to_be_unmapped`. */
  method DetachErase(s: AddressSpace, vma: VmArea, end: int, ghost f: int) returns (tail: VmArea, next: VmArea?, ghost m: int)
    requires Open(s, null) && 0 <= f < |s.order| && vma == s.order[f]
    modifies s`root, s`order, s`span, s.nodes`rbLeft, s.nodes`rbRight, s.nodes`rbParent, s.nodes`rbBlack, s.nodes`subtreeGap
    modifies vma`prev
    ensures s.PrevsKnown() && Detached(s.Now(), old(ChainOf(s.nodes)), old(s.order), f, m, s.nodes)
    ensures f < m <= |old(s.order)| && Matches(s.nodes, Slice(old(s.order), f, m), old(ChainOf(s.nodes)))
    ensures tail == old(s.order)[m - 1] && next == At(old(s.order), m)
    ensures next != null ==> next.start >= end
    ensures forall i :: f < i < m ==> old(s.order)[i].start < end
  {
    hide Open, Consistent, Known, Holes, Erasing, ErasedRun, ChainOf, FieldsOf, Cleared, Threaded, LinksOf, GapsOf, ColoursOf;
    hide Members, Distinct, Detached, Matches, Slice;
    OpenParts(s, null);
    OpenMembers(s, null);
    OpenThreaded(s, null);
    NowFields(s);
    ghost var a, c, list := s.Now(), ChainOf(s.nodes), s.order;
    OpenAt(s, null, f);
    ClearPrev(s, vma);
    ghost var b := a.(own := Holes(Cleared(c, vma)));
    ClearedStart(a, c, b, f);
    NowIs(s, a);
    tail, next, m := EraseRun(s, vma, end, list, f, b.own);
    DetachDone(s, a, c, list, f, m, b.own);
  }

  /** The neighbours of the areas taken away are made to point at each other, and those areas are forgotten. */
  method AssignBridge(s: AddressSpace, prev: VmArea?, next: VmArea?, ghost gone: set<VmArea>, ghost c: Chain, ghost b: State)
    requires (prev != null ==> prev in s.nodes - gone) && (next != null ==> next in s.nodes - gone)
    requires Matches(s.nodes, gone, c) && Remains(s.nodes - gone, b)
    modifies s`first, s`nodes, s.nodes`prev, s.nodes`next
    ensures s.nodes == old(s.nodes) - gone
    ensures s.first == if prev == null then next else old(s.first)
    ensures s.nodes <= c.prevs.Keys && s.nodes <= c.nexts.Keys && s.nodes <= c.starts.Keys && s.nodes <= c.ends.Keys
    ensures forall n :: n in s.nodes ==> n.prev == if n == next then prev else c.prevs[n]
    ensures forall n :: n in s.nodes ==> n.next == if n == prev then next else c.nexts[n]
    ensures forall n :: n in s.nodes ==> n.start == c.starts[n] && n.end == c.ends[n]
    ensures forall n :: n in gone && n in old(s.nodes) ==> n.next == old(n.next)
    ensures Remains(s.nodes, b)
  {
    hide Remains;
    if prev != null {
      prev.next := next;
    } else {
      s.first := next;
    }
    if next != null {
      next.prev := prev;
    }
    s.nodes := s.nodes - gone;
  }

  lemma BridgedIs(nodes: set<VmArea>, c: Chain, keys: set<VmArea>, list: seq<VmArea>, f: int, m: int)
    requires nodes <= c.prevs.Keys && nodes <= c.nexts.Keys && nodes <= c.starts.Keys && nodes <= c.ends.Keys && Distinct(list)
    requires 0 <= f <= m <= |list| && nodes == keys - Slice(list, f, m)
    requires Members(list, keys)
    requires forall n :: n in nodes ==> n.prev == if n == At(list, m) then At(list, f - 1) else c.prevs[n]
    requires forall n :: n in nodes ==> n.next == if n == At(list, f - 1) then At(list, m) else c.nexts[n]
    requires forall n :: n in nodes ==> n.start == c.starts[n] && n.end == c.ends[n]
    ensures Bridged(c, ChainOf(nodes), list, f, m) && ChainOf(nodes).prevs.Keys == nodes
  {
    CutMembers(list, f, m, keys);
  }

  lemma RemainsOf(s: AddressSpace, gone: set<VmArea>)
    requires s.PrevsKnown()
    ensures Remains(s.nodes - gone, s.Now())
  {
  }

  /** The tree fields of the remaining records are those of `b`. */
  ghost predicate Remains(nodes: set<VmArea>, b: State)
    reads nodes`rbLeft, nodes`rbRight, nodes`rbParent, nodes`rbBlack, nodes`subtreeGap
  {
    var e := FieldsOf(nodes);
    && e.links.Keys == e.gaps.Keys == e.col.Keys == nodes
    && (forall n :: n in e.links ==> n in b.t.links && e.links[n] == b.t.links[n])
    && (forall n :: n in e.gaps ==> n in b.gaps && e.gaps[n] == b.gaps[n])
    && (forall n :: n in e.col ==> n in b.col && e.col[n] == b.col[n])
  }

  /** Pointers and ranges of the records outside `gone` are those of `c`. */
  ghost predicate Matches(nodes: set<VmArea>, gone: set<VmArea>, c: Chain)
    reads nodes`prev, nodes`next, nodes`start, nodes`end
  {
    && c.prevs.Keys == c.nexts.Keys == c.starts.Keys == c.ends.Keys == nodes
    && forall n :: n in nodes && n !in gone ==>
         n.prev == c.prevs[n] && n.next == c.nexts[n] && n.start == c.starts[n] && n.end == c.ends[n]
  }

  /** List, tree and caches once the neighbours of the removed areas point at each other. */
  lemma BridgedOpen(s: AddressSpace, list: seq<VmArea>, c: Chain, b: State, f: int, m: int, keys: set<VmArea>)
    requires Detached(b, c, list, f, m, keys) && 0 <= f <= m <= |list|
    requires Bridged(c, ChainOf(s.nodes), list, f, m) && s.nodes == keys - Slice(list, f, m)
    requires s.root == b.t.root && s.order == b.t.order && s.span == b.t.span
    requires Remains(s.nodes, b) && s.first == At(Cut(list, f, m), 0)
    ensures Open(s, At(list, m))
  {
    hide Bridged, Chained, Sorted, Distinct, ErasedRun, Consistent, Slice, Good, Members, OwnShown, Detached;
    DetachedParts(b, c, list, f, m, keys);
    var d, w := ChainOf(s.nodes), FieldsOf(s.nodes);
    CutSorted(c, d, list, f, m);
    var e := State(Shape(w.links, s.root, s.order, s.span), Holes(d), w.gaps, w.col);
    CutDone(list, c, b, e, d, f, m, keys);
    NowIs(s, e);
  }

  lemma EdgesStay(list: seq<VmArea>, f: int, m: int, keys: set<VmArea>)
    requires Distinct(list) && 0 <= f <= m <= |list| && Members(list, keys)
    ensures At(list, f - 1) != null ==> At(list, f - 1) in keys - Slice(list, f, m)
    ensures At(list, m) != null ==> At(list, m) in keys - Slice(list, f, m)
    ensures At(Cut(list, f, m), 0) == if f == 0 then At(list, m) else At(list, 0)
    ensures (At(list, f - 1) == null <==> f == 0)
  {
    CutAt(list, f, m, 0);
  }

  /** The pointers of the erased areas' neighbours, and what that makes of the list. */
  method BridgeStep(s: AddressSpace, prev: VmArea?, next: VmArea?,
                    ghost list: seq<VmArea>, ghost c: Chain, ghost b: State, ghost f: int, ghost m: int)
    requires Detached(b, c, list, f, m, s.nodes) && 0 <= f <= m <= |list|
    requires Matches(s.nodes, Slice(list, f, m), c) && Remains(s.nodes - Slice(list, f, m), b)
    requires prev == At(list, f - 1) && next == At(list, m) && s.first == At(list, 0)
    modifies s`first, s`nodes, s.nodes`prev, s.nodes`next
    ensures s.nodes == old(s.nodes) - Slice(list, f, m) && s.first == At(Cut(list, f, m), 0)
    ensures Bridged(c, ChainOf(s.nodes), list, f, m) && Remains(s.nodes, b)
    ensures forall n :: n in Slice(list, f, m) && n in old(s.nodes) ==> n.next == old(n.next)
  {
    hide Detached, Distinct, Members, Matches, Bridged, Remains, Cut, Slice, ChainOf, Chained, Sorted, ErasedRun, OwnShown;
    ghost var keys := s.nodes;
    DetachedParts(b, c, list, f, m, keys);
    EdgesStay(list, f, m, keys);
    AssignBridge(s, prev, next, Slice(list, f, m), c, b);
    BridgedIs(s.nodes, c, keys, list, f, m);
  }

  /** The neighbours of the erased areas are made to point at each other. */
  method Relink(s: AddressSpace, prev: VmArea?, next: VmArea?, ghost list: seq<VmArea>, ghost c: Chain, ghost f: int, ghost m: int)
    requires s.PrevsKnown() && Detached(s.Now(), c, list, f, m, s.nodes) && 0 <= f <= m <= |list|
    requires Matches(s.nodes, Slice(list, f, m), c)
    requires prev == At(list, f - 1) && next == At(list, m) && s.first == At(list, 0)
    modifies s`first, s`nodes, s.nodes`prev, s.nodes`next
    ensures s.nodes == old(s.nodes) - Slice(list, f, m) && s.order == Cut(list, f, m) && Open(s, next)
    ensures forall n :: n in Slice(list, f, m) && n in old(s.nodes) ==> n.next == old(n.next)
  {
    hide Detached, Matches, Open, Bridged, Remains, Cut, Slice, ChainOf, LinksOf, GapsOf, ColoursOf, ErasedRun;
    ghost var b, keys := s.Now(), s.nodes;
    DetachedParts(b, c, list, f, m, keys);
    RemainsOf(s, Slice(list, f, m));
    BridgeStep(s, prev, next, list, c, b, f, m);
    BridgedOpen(s, list, c, b, f, m, keys);
  }

  /** `detach_vmas_to_be_unmapped` up to the refreshing of the gap behind. */
  method DetachOpen(s: AddressSpace, vma: VmArea, prev: VmArea?, end: int, ghost f: int)
    returns (tail: VmArea, next: VmArea?, ghost m: int)
    requires Open(s, null) && 0 <= f < |s.order| && vma == s.order[f] && prev == At(s.order, f - 1)
    modifies s`root, s`first, s`nodes, s`order, s`span, s.nodes`prev, s.nodes`next
    modifies s.nodes`rbLeft, s.nodes`rbRight, s.nodes`rbParent, s.nodes`rbBlack, s.nodes`subtreeGap
    ensures f < m <= |old(s.order)| && s.order == Cut(old(s.order), f, m) && s.nodes == old(s.nodes) - Slice(old(s.order), f, m)
    ensures Open(s, next) && tail == old(s.order)[m - 1] && next == At(old(s.order), m)
    ensures next != null ==> next.start >= end
    ensures forall i :: f < i < m ==> old(s.order)[i].start < end
    ensures forall n :: n in Slice(old(s.order), f, m) && n in old(s.nodes) ==> n.next == old(n.next)
  {
    hide Open, Detached, ChainOf, Matches, Cut, Slice, LinksOf, GapsOf, ColoursOf, Consistent;
    OpenParts(s, null);
    OpenAt(s, null, f);
    ghost var list, c := s.order, ChainOf(s.nodes);
    tail, next, m := DetachErase(s, vma, end, f);
    Relink(s, prev, next, list, c, f, m);
  }

  lemma Outside(list: seq<VmArea>, f: int, m: int, keys: set<VmArea>, v: VmArea)
    requires v in Slice(list, f, m)
    ensures v !in keys - Slice(list, f, m)
  {
  }

  /**
   `detach_vmas_to_be_unmapped`: the areas from `vma` on that start below `end` leave list and tree, and
   can be followed along their `next` pointers up to a null.
   */
  method DetachVmas(s: AddressSpace, vma: VmArea, prev: VmArea?, end: int, ghost f: int) returns (ghost m: int)
    requires Open(s, null) && 0 <= f < |s.order| && vma == s.order[f] && prev == At(s.order, f - 1)
    modifies s`root, s`first, s`highest, s`nodes, s`order, s`span, s.nodes`prev, s.nodes`next
    modifies s.nodes`rbLeft, s.nodes`rbRight, s.nodes`rbParent, s.nodes`rbBlack, s.nodes`subtreeGap
    ensures f < m <= |old(s.order)| && s.order == Cut(old(s.order), f, m) && s.nodes == old(s.nodes) - Slice(old(s.order), f, m)
    ensures Open(s, null)
    ensures s.highest == if m < |old(s.order)| then old(s.highest) else if f > 0 then old(s.order)[f - 1].end else 0
    ensures m < |old(s.order)| ==> old(s.order)[m].start >= end
    ensures forall i :: f < i < m ==> old(s.order)[i].start < end
    ensures Threaded(old(s.order)[f..m], old(s.nodes))
  {
    hide Open, Slice, Cut, Threaded;
    ghost var list, keys, nexts := s.order, s.nodes, NextsOf(s.nodes);
    OpenNexts(s);
    var tail, next;
    tail, next, m := DetachOpen(s, vma, prev, end, f);
    InSlice(list, f, m);
    Outside(list, f, m, keys, tail);
    CloseBehind(s, next, if prev != null then prev.end else 0);
    tail.next := null;
    LooseThread(list, keys, nexts, f, m);
  }

  /** `nexts` shows the thread of `list`. */
  ghost predicate Threads(nexts: map<VmArea, VmArea?>, list: seq<VmArea>) {
    && (forall i :: 0 <= i < |list| ==> list[i] in nexts) && Distinct(list)
    && forall i {:trigger nexts[list[i]]} :: 0 <= i < |list| ==> nexts[list[i]] == At(list, i + 1)
  }

  lemma OpenNexts(s: AddressSpace)
    requires Open(s, null)
    ensures Threads(NextsOf(s.nodes), s.order) && NextsOf(s.nodes).Keys == s.nodes
  {
    ConsistentParts(s.Now(), ChainOf(s.nodes), null);
    OpenThreaded(s, null);
  }

  /** The removed areas form a list of their own. */
  lemma LooseThread(list: seq<VmArea>, keys: set<VmArea>, nexts: map<VmArea, VmArea?>, f: int, m: int)
    requires 0 <= f < m <= |list| && Threads(nexts, list) && nexts.Keys == keys && list[m - 1].next == null
    requires forall n :: n in Slice(list, f, m) && n in keys && n != list[m - 1] ==> n.next == nexts[n]
    ensures Threaded(list[f..m], keys)
  {
    var r := list[f..m];
    forall i | 0 <= i < |r|
      ensures r[i].next == At(r, i + 1)
    {
      assert r[i] == list[f + i] && list[f + i] in Slice(list, f, m);
      assert i < m - f - 1 ==> r[i] != list[m - 1] && nexts[list[f + i]] == At(list, f + i + 1);
    }
  }

  // ---------------------------------------------------------------- swallowing the next area

  lemma MatchesWhole(nodes: set<VmArea>, gone: set<VmArea>)
    ensures Matches(nodes, gone, ChainOf(nodes))
  {
  }

  /** The area at position `i` of the list of `a` and its successor. */
  ghost predicate Neighbourly(a: State, c: Chain, i: int, keys: set<VmArea>) {
    && Consistent(a, c, null) && 0 <= i < |a.t.order| - 1 && a.t.order[i] in c.starts && a.t.order[i + 1] in c.ends
    && Members(a.t.order, keys) && c.prevs.Keys == keys
  }

  /** The area at position `i` has grown over its successor, which is about to go. */
  ghost predicate Overgrown(s: AddressSpace, a: State, c: Chain, i: int)
    requires Neighbourly(a, c, i, s.nodes)
    reads s`root, s`first, s`nodes, s`order, s`span
    reads s.nodes`rbLeft, s.nodes`rbRight, s.nodes`rbParent, s.nodes`rbBlack, s.nodes`subtreeGap
    reads s.nodes`prev, s.nodes`next, s.nodes`start, s.nodes`end
  {
    && s.PrevsKnown() && Erasing(s.Now(), a.t.order, i + 1, i + 1, s.nodes, Holes(Overlaid(c, a.t.order, i)))
    && ChainOf(s.nodes) == Overlaid(c, a.t.order, i) && s.first == At(a.t.order, 0) && Threaded(a.t.order, s.nodes)
  }

  lemma OvergrownParts(s: AddressSpace, a: State, c: Chain, i: int)
    requires Neighbourly(a, c, i, s.nodes) && Overgrown(s, a, c, i)
    ensures s.PrevsKnown() && Erasing(s.Now(), a.t.order, i + 1, i + 1, s.nodes, Holes(Overlaid(c, a.t.order, i)))
    ensures ChainOf(s.nodes) == Overlaid(c, a.t.order, i) && s.first == At(a.t.order, 0)
    ensures a.t.order[i + 1] in s.nodes && a.t.order[i + 1].next == At(a.t.order, i + 2)
    ensures Erasable(s.Now(), a.t.order[i + 1]) && |a.t.order| > i + 1 >= 1
    ensures a.t.order[i] in c.starts && a.t.order[i + 1] in c.ends
  {
    ThreadedAt(a.t.order, s.nodes, i + 1);
  }

  lemma UnlinkDetached(s: AddressSpace, a: State, c: Chain, i: int)
    requires Neighbourly(a, c, i, s.nodes) && s.PrevsKnown() && ChainOf(s.nodes) == Overlaid(c, a.t.order, i)
    requires ErasedRun(s.Now(), a.t.order, i + 1, i + 2, s.nodes, Holes(Overlaid(c, a.t.order, i)))
    ensures Detached(s.Now(), Overlaid(c, a.t.order, i), a.t.order, i + 1, i + 2, s.nodes)
    ensures Matches(s.nodes, Slice(a.t.order, i + 1, i + 2), Overlaid(c, a.t.order, i))
    ensures a.t.order[i + 1] in Slice(a.t.order, i + 1, i + 2)
  {
    OverlaidDetached(a, c, s.Now(), i, s.nodes);
    MatchesWhole(s.nodes, Slice(a.t.order, i + 1, i + 2));
    InSlice(a.t.order, i + 1, i + 2);
  }

  /** `vma_unlink`, for an area that `prev` has grown over. */
  method VmaUnlink(s: AddressSpace, vma: VmArea, prev: VmArea, ghost a: State, ghost c: Chain, ghost i: int)
    requires Neighbourly(a, c, i, s.nodes) && Overgrown(s, a, c, i) && prev == a.t.order[i] && vma == a.t.order[i + 1]
    modifies s`root, s`first, s`nodes, s`order, s`span, s.nodes`prev, s.nodes`next
    modifies s.nodes`rbLeft, s.nodes`rbRight, s.nodes`rbParent, s.nodes`rbBlack, s.nodes`subtreeGap
    ensures s.order == Cut(a.t.order, i + 1, i + 2) && s.nodes == old(s.nodes) - Slice(a.t.order, i + 1, i + 2)
    ensures Open(s, At(a.t.order, i + 2)) && vma.next == old(vma.next)
  {
    hide Neighbourly, Overgrown, Consistent, Erasing, ErasedRun, Erasable, Erased, Outcome, RedBlack, Detached, Matches, Open;
    hide Members, Threaded, ChainOf, Overlaid, Holes, Slice, Cut, LinksOf, GapsOf, ColoursOf;
    OvergrownParts(s, a, c, i);
    ghost var b, list, own := s.Now(), a.t.order, Holes(Overlaid(c, a.t.order, i));
    var dropped := RbErase(s, vma);
    EraseOne(b, s.Now(), list, i + 1, i + 1, s.nodes, own);
    UnlinkDetached(s, a, c, i);
    Relink(s, prev, vma.next, list, Overlaid(c, list, i), i + 1, i + 2);
  }
}
