/**
 `vma_link`, `vma_insert`, `vma_adjust` and `vma_split` of kernel/c/vma.c, with the host memory behind the areas.
 */
module Adjusting {
  import opened Basics
  import opened VmAreas
  import opened RbShape
  import opened RbBalance
  import opened RbSteps
  import opened RbTree
  import opened HostMemory
  import opened AreaHosting
  import opened Regions
  import opened AreaViews
  import opened Vma
  import opened VmaSteps
  import opened VmaCuts
  import opened Linking
  import opened Unlinking

  lemma OpenDisjoint(s: AddressSpace, stale: VmArea?, v: VmArea, w: VmArea)
    requires Open(s, stale) && v in s.nodes && w in s.nodes && v != w
    ensures v.end <= w.start || w.end <= v.start
  {
    OpenMembers(s, stale);
    var c := ChainOf(s.nodes);
    ConsistentParts(s.Now(), c, stale);
    hide Open, Consistent, StaleAt, Chained, Known, Distinct, RootBlack, Shape.Tree;
    var i :| 0 <= i < |s.order| && s.order[i] == v;
    var j :| 0 <= j < |s.order| && s.order[j] == w;
    assert c.starts[v] == v.start && c.ends[v] == v.end && c.starts[w] == w.start && c.ends[w] == w.end;
  }

  /** No page belongs to two areas of a sorted list. */
  lemma OpenPagesApart(s: AddressSpace, stale: VmArea?)
    requires Open(s, stale)
    ensures PagesApart(s.nodes)
  {
    hide Open;
    forall v, w, p | v in s.nodes && w in s.nodes && v != w && Covers(v, p)
      ensures !Covers(w, p)
    {
      OpenDisjoint(s, stale, v, w);
    }
  }

  /** `vma_link` */
  method VmaLink(s: AddressSpace, vma: VmArea, prev: VmArea?, parent: VmArea?, left: bool, ghost k: int, ghost image: Image)
    requires Linkable(s, vma, prev, parent, left, k) && !InPlace(vma)
    requires Roomed(s.host, s.nodes + {vma}) && Faithful(s.host, s.nodes + {vma}, image) && Replaceable(s.host, vma, image)
    modifies s`root, s`first, s`highest, s`nodes, s`order, s`span, s.nodes`prev, s.nodes`next
    modifies s.nodes`rbLeft, s.nodes`rbRight, s.nodes`rbParent, s.nodes`rbBlack, s.nodes`subtreeGap
    modifies vma`prev, vma`next, vma`rbLeft, vma`rbRight, vma`rbParent, vma`rbBlack, vma`subtreeGap
    modifies s.host`next, s.host`table, s.host`ram, s.host`holes
    modifies vma`physStart, vma`physEnd, vma`oldStart, vma`oldEnd, vma`flags
    ensures Open(s, null) && s.nodes == old(s.nodes) + {vma}
    ensures 0 <= k <= |old(s.order)| && s.order == Inserted(old(s.order), k, vma)
    ensures s.highest == if k == |old(s.order)| then vma.end else old(s.highest)
    ensures RedBlack(old(s.Tree()), old(s.Colours())) ==> RedBlack(s.Tree(), s.Colours())
    ensures Roomed(s.host, s.nodes) && Faithful(s.host, s.nodes, image) && InPlace(vma)
    ensures old(MappedOnes(s.host, s.nodes)) + {vma} <= MappedOnes(s.host, s.nodes)
    ensures forall p :: !Covers(vma, p) ==> (p in s.host.table <==> p in old(s.host.table))
    ensures RecsOf(s.nodes) == old(RecsOf(s.nodes + {vma}))
  {
    hide Linkable, Open, Roomed, Faithful, Replaceable, PagesApart, InPlace, Inserted, RedBlack, MappedOnes, RecsOf, Covers;
    LinkArea(s, vma, prev, parent, left, k);
    MappedWithin(s.host, old(s.nodes), s.nodes);
    OpenPagesApart(s, null);
    SettleIn(s.host, vma, s.nodes, image);
  }

  lemma OpenOrdered(s: AddressSpace, stale: VmArea?)
    requires Open(s, stale)
    ensures Ordered(s)
  {
    var c := ChainOf(s.nodes);
    ConsistentParts(s.Now(), c, stale);
    forall i | 0 <= i < |s.order|
      ensures s.order[i] in s.nodes && c.starts[s.order[i]] == s.order[i].start && c.ends[s.order[i]] == s.order[i].end
    {
    }
  }

  /** What `vma_find_links` yields. */
  ghost predicate LinksFound(s: AddressSpace, addr: int, end: int,
                             fails: bool, prev: VmArea?, parent: VmArea?, left: bool, k: int)
    reads s, s.nodes, s.order
  {
    && (fails <==> exists i :: 0 <= i < |s.order| && Overlaps(s.order[i], addr, end))
    && (!fails ==>
          && FitsAt(s.order, k, addr, end) && EmptyLink(s.Tree(), parent, left, k)
          && prev == At(s.order, k - 1) && (k == 0 ==> parent == At(s.order, 0)))
  }

  /** The ranges in the snapshot are those of the areas. */
  lemma RangesShown(s: AddressSpace, stale: VmArea?)
    requires Open(s, stale)
    ensures var c := ChainOf(s.nodes);
      && Sorted(c, s.order)
      && forall i :: 0 <= i < |s.order| ==>
           && s.order[i] in s.nodes && s.order[i] in c.starts && s.order[i] in c.ends
           && c.starts[s.order[i]] == s.order[i].start && c.ends[s.order[i]] == s.order[i].end
  {
    OpenMembers(s, stale);
    ConsistentParts(s.Now(), ChainOf(s.nodes), stale);
  }

  lemma FitsShown(s: AddressSpace, stale: VmArea?, k: int, addr: int, end: int)
    requires Open(s, stale)
    ensures FitsBetween(ChainOf(s.nodes), s.order, k, addr, end) <==>
            FitsAt(s.order, k, addr, end) && 0 <= addr < end && Aligned(addr) && Aligned(end)
    ensures Ascending(s.order) && PageAligned(s.order)
  {
    RangesShown(s, stale);
    hide Open, ChainOf;
  }

  /** Between disjoint nonempty areas there is at most one place for a nonempty range, and nothing overlaps it there. */
  lemma OnePlace(list: seq<VmArea>, k: int, addr: int, end: int)
    requires Ascending(list) && FitsAt(list, k, addr, end) && addr < end
    ensures forall i :: 0 <= i < |list| ==> !Overlaps(list[i], addr, end)
    ensures forall k' :: FitsAt(list, k', addr, end) ==> k' == k
  {
    forall k' | FitsAt(list, k', addr, end)
      ensures k' == k
    {
      PlaceOrder(list, k, k', addr, end);
      PlaceOrder(list, k', k, addr, end);
    }
  }

  lemma PlaceOrder(list: seq<VmArea>, k: int, k': int, addr: int, end: int)
    requires Ascending(list) && FitsAt(list, k, addr, end) && FitsAt(list, k', addr, end) && addr < end
    ensures k <= k'
  {
    if k' < k {
      PlaceAt(list, k, k', addr, end, k');
    }
  }

  lemma PlaceAt(list: seq<VmArea>, k: int, k': int, addr: int, end: int, i: int)
    requires Ascending(list) && FitsAt(list, k, addr, end) && FitsAt(list, k', addr, end) && addr < end
    requires 0 <= i < |list|
    ensures !(k' <= i < k)
  {
    var v := list[i];
  }

  lemma SpansNodes(s: AddressSpace, stale: VmArea?)
    requires Open(s, stale)
    ensures s.PrevsKnown() && Consistent(s.Now(), ChainOf(s.nodes), stale) && Spans(s.Now(), s.nodes) && s.first == At(s.order, 0)
  {
  }

  /** Where there is room, `vma_find_links` finds it. */
  lemma FindsPlace(s: AddressSpace, vma: VmArea, k: int, fails: bool, prev: VmArea?, parent: VmArea?, left: bool, k': int)
    requires Open(s, At(s.order, k)) && vma !in s.nodes && FitsBetween(ChainOf(s.nodes), s.order, k, vma.start, vma.end)
    requires LinksFound(s, vma.start, vma.end, fails, prev, parent, left, k')
    ensures !fails && Linkable(s, vma, prev, parent, left, k) && k' == k
  {
    hide Consistent, ChainOf, FitsBetween, Ascending, EmptyLink, FitsAt, Overlaps, PageAligned;
    SpansNodes(s, At(s.order, k));
    FitsShown(s, At(s.order, k), k, vma.start, vma.end);
    OnePlace(s.order, k, vma.start, vma.end);
  }

  /** `vma_insert`: the assertion that no area is in the way holds. */
  method VmaInsert(s: AddressSpace, vma: VmArea, ghost k: int, ghost image: Image)
    requires Open(s, At(s.order, k)) && vma !in s.nodes && FitsBetween(ChainOf(s.nodes), s.order, k, vma.start, vma.end)
    requires !InPlace(vma) && vma.start < vma.end
    requires Roomed(s.host, s.nodes + {vma}) && Faithful(s.host, s.nodes + {vma}, image) && Replaceable(s.host, vma, image)
    modifies s`root, s`first, s`highest, s`nodes, s`order, s`span, s.nodes`prev, s.nodes`next
    modifies s.nodes`rbLeft, s.nodes`rbRight, s.nodes`rbParent, s.nodes`rbBlack, s.nodes`subtreeGap
    modifies vma`prev, vma`next, vma`rbLeft, vma`rbRight, vma`rbParent, vma`rbBlack, vma`subtreeGap
    modifies s.host`next, s.host`table, s.host`ram, s.host`holes
    modifies vma`physStart, vma`physEnd, vma`oldStart, vma`oldEnd, vma`flags
    ensures Open(s, null) && s.nodes == old(s.nodes) + {vma}
    ensures 0 <= k <= |old(s.order)| && s.order == Inserted(old(s.order), k, vma)
    ensures s.highest == if k == |old(s.order)| then vma.end else old(s.highest)
    ensures Roomed(s.host, s.nodes) && Faithful(s.host, s.nodes, image) && InPlace(vma)
    ensures old(MappedOnes(s.host, s.nodes)) + {vma} <= MappedOnes(s.host, s.nodes)
    ensures forall p :: !Covers(vma, p) ==> (p in s.host.table <==> p in old(s.host.table))
    ensures RecsOf(s.nodes) == old(RecsOf(s.nodes + {vma}))
  {
    hide Open, Roomed, Faithful, Replaceable, InPlace, Inserted, RedBlack, MappedOnes, FitsBetween, Linkable, ChainOf, Ordered;
    hide RecsOf, Covers;
    OpenOrdered(s, At(s.order, k));
    var fails, prev, parent, left;
    ghost var k';
    fails, prev, parent, left, k' := VmaFindLinks(s, vma.start, vma.end);
    FindsPlace(s, vma, k, fails, prev, parent, left, k');
    if fails {
      assert false;
    }
    VmaLink(s, vma, prev, parent, left, k, image);
  }

  // ---------------------------------------------------------------- vma_adjust

  /** The case that `vma_adjust` is in, by the new end, the old end, the next area if there is one, and `insert`. */
  datatype Case = Plain | Insert | RemoveNext | RemoveTwo | ShiftUp | ShiftDown

  function CaseOf(end: int, oldEnd: int, next: VmArea?, insert: bool): Case
    reads (if next == null then {} else {next})`start, (if next == null then {} else {next})`end
  {
    if next == null || insert then
      if insert then Insert else Plain
    else if end >= next.end then
      if end > next.end then RemoveTwo else RemoveNext
    else if end > next.start then
      ShiftUp
    else if end < oldEnd then
      ShiftDown
    else
      Plain
  }

  /** The fields that `vma_adjust` sets in every case. */
  method SetRange(s: AddressSpace, vma: VmArea, start: nat, end: nat, pgoff: int) returns (startChanged: bool, endChanged: bool)
    requires vma in s.nodes
    modifies vma`start, vma`end, vma`pageOffset
    ensures vma.start == start && vma.end == end && vma.pageOffset == pgoff
    ensures startChanged == (start != old(vma.start)) && endChanged == (end != old(vma.end))
    ensures ChainOf(s.nodes) == Resized(old(ChainOf(s.nodes)), vma, start, end)
    ensures FieldsOf(s.nodes) == old(FieldsOf(s.nodes))
  {
    hide FieldsOf, NextsOf, PrevsOf;
    startChanged, endChanged := false, false;
    if start != vma.start {
      vma.start := start;
      startChanged := true;
    }
    if end != vma.end {
      vma.end := end;
      endChanged := true;
    }
    vma.pageOffset := pgoff;
    assert StartsOf(s.nodes) == old(StartsOf(s.nodes))[vma := start];
    assert EndsOf(s.nodes) == old(EndsOf(s.nodes))[vma := end];
  }

  /** List and tree after a change of the range of the area at position `i` that leaves it between its neighbours. */
  lemma ResizedOpen(s: AddressSpace, a: State, c: Chain, i: int, start: int, end: int, v: VmArea?)
    requires Consistent(a, c, null) && 0 <= i < |a.t.order| && FitsInPlace(c, a.t.order, i, start, end)
    requires v == a.t.order[i] || start == c.starts[a.t.order[i]]
    requires v == At(a.t.order, i + 1) || end == c.ends[a.t.order[i]]
    requires v == null || v == a.t.order[i] || v == At(a.t.order, i + 1)
    requires FieldsOf(s.nodes) == Fields(a.t.links, a.gaps, a.col) && s.first == At(a.t.order, 0)
    requires s.root == a.t.root && s.order == a.t.order && s.span == a.t.span
    requires ChainOf(s.nodes) == Resized(c, a.t.order[i], start, end)
    ensures Open(s, v)
  {
    hide Consistent, FitsInPlace, FieldsOf, ChainOf, Resized, Holes;
    var b := a.(own := Holes(Resized(c, a.t.order[i], start, end)));
    ResizedStale(a, c, b, i, start, end, v);
    ConsistentParts(b, Resized(c, a.t.order[i], start, end), v);
    NowIs(s, a);
  }

  lemma RangeAt(s: AddressSpace, i: int)
    requires Open(s, null) && 0 <= i < |s.order|
    ensures var c, v := ChainOf(s.nodes), s.order[i];
      v in s.nodes && v in c.starts && v in c.ends && c.starts[v] == v.start && c.ends[v] == v.end && v.start < v.end
    ensures Aligned(s.order[i].start) && Aligned(s.order[i].end)
  {
    RangesShown(s, null);
  }

  /** A change of the range of one area: at most the cache of `stale` has to be refreshed. */
  method ResizeArea(s: AddressSpace, vma: VmArea, start: nat, end: nat, pgoff: int, ghost i: int, ghost stale: VmArea?)
    returns (startChanged: bool, endChanged: bool)
    requires Open(s, null) && 0 <= i < |s.order| && vma == s.order[i]
    requires FitsInPlace(ChainOf(s.nodes), s.order, i, start, end)
    requires stale == vma || start == vma.start
    requires stale == At(s.order, i + 1) || end == vma.end
    requires stale == null || stale == vma || stale == At(s.order, i + 1)
    modifies vma`start, vma`end, vma`pageOffset
    ensures Open(s, stale) && vma in s.nodes
    ensures vma.start == start && vma.end == end && vma.pageOffset == pgoff
    ensures startChanged == (start != old(vma.start)) && endChanged == (end != old(vma.end))
    ensures ChainOf(s.nodes) == Resized(old(ChainOf(s.nodes)), vma, start, end)
  {
    hide Open, Consistent, FitsInPlace, FieldsOf, ChainOf, Resized, Known, Holes;
    OpenParts(s, null);
    RangeAt(s, i);
    NowFields(s);
    ghost var a, c := s.Now(), ChainOf(s.nodes);
    startChanged, endChanged := SetRange(s, vma, start, end, pgoff);
    ResizedOpen(s, a, c, i, start, end, stale);
  }

  lemma OpenNeighbourly(s: AddressSpace, i: int)
    requires Open(s, null) && 0 <= i < |s.order| - 1
    ensures s.PrevsKnown() && Neighbourly(s.Now(), ChainOf(s.nodes), i, s.nodes) && Threaded(s.order, s.nodes)
    ensures s.first == At(s.order, 0) && s.order[i] in s.nodes && s.order[i].start < s.order[i].end
    ensures FieldsOf(s.nodes) == Fields(s.Now().t.links, s.Now().gaps, s.Now().col)
  {
    hide Open, Consistent, FieldsOf, ChainOf, Members, Threaded, Distinct;
    OpenParts(s, null);
    OpenMembers(s, null);
    OpenThreaded(s, null);
    RangeAt(s, i);
    RangeAt(s, i + 1);
    NowFields(s);
    ConsistentKeys(s.Now(), ChainOf(s.nodes), null);
  }

  lemma OverlaidOpen(s: AddressSpace, a: State, c0: Chain, i: int, vma: VmArea, next: VmArea, start: int)
    requires Neighbourly(a, c0, i, s.nodes) && Threaded(a.t.order, s.nodes) && vma == a.t.order[i] && next == a.t.order[i + 1]
    requires FieldsOf(s.nodes) == Fields(a.t.links, a.gaps, a.col) && s.first == At(a.t.order, 0)
    requires s.root == a.t.root && s.order == a.t.order && s.span == a.t.span
    requires start == c0.starts[vma] && ChainOf(s.nodes) == Resized(c0, vma, start, c0.ends[next])
    ensures Overgrown(s, a, c0, i)
  {
    hide Consistent, FieldsOf, ChainOf, Resized, Holes, Erasing, Threaded, Members;
    var b := a.(own := Holes(Overlaid(c0, a.t.order, i)));
    OverlaidStart(a, c0, b, i);
    ConsistentKeys(a, c0, null);
    NowIs(s, a);
  }

  lemma ConsistentKeys(a: State, c: Chain, v: VmArea?)
    requires Consistent(a, c, v)
    ensures c.prevs.Keys == a.t.span.Keys
  {
  }

  lemma RangesOf(nodes: set<VmArea>, v: VmArea)
    requires v in nodes
    ensures v in ChainOf(nodes).starts && ChainOf(nodes).starts[v] == v.start
    ensures v in ChainOf(nodes).ends && ChainOf(nodes).ends[v] == v.end
  {
  }

  /** The records once `v` has got a new range and offset. */
  ghost function Ranged(m: Recs, v: VmArea, start: int, end: int, offset: int): Recs {
    if v in m then m[v := m[v].(start := start, end := end, offset := offset)] else m
  }

  lemma RangedIs(nodes: set<VmArea>, m: Recs, v: VmArea, start: int, end: int, offset: int)
    requires v in nodes && v in m && RecsOf(nodes - {v}) == m - {v} && v.start == start && v.end == end && v.pageOffset == offset
    requires v.prot == m[v].prot && Essential(v.flags) == m[v].flags && v.file == m[v].file
    ensures RecsOf(nodes) == Ranged(m, v, start, end, offset)
  {
    hide Essential;
    RecsUpdated(nodes, m, v);
  }

  /** The area at position `i` grows over its successor, which leaves list and tree. */
  method SwallowArea(s: AddressSpace, vma: VmArea, next: VmArea, pgoff: int, ghost i: int)
    requires Open(s, null) && 0 <= i < |s.order| - 1 && vma == s.order[i] && next == s.order[i + 1]
    modifies vma`start, vma`end, vma`pageOffset
    modifies s`root, s`first, s`nodes, s`order, s`span, s.nodes`prev, s.nodes`next
    modifies s.nodes`rbLeft, s.nodes`rbRight, s.nodes`rbParent, s.nodes`rbBlack, s.nodes`subtreeGap
    ensures s.order == Cut(old(s.order), i + 1, i + 2) && s.nodes == old(s.nodes) - Slice(old(s.order), i + 1, i + 2)
    ensures Open(s, At(old(s.order), i + 2))
    ensures RecsOf(old(s.nodes)) == Ranged(old(RecsOf(s.nodes)), vma, old(vma.start), old(next.end), pgoff)
    ensures vma.start == old(vma.start) && vma.end == old(next.end) && vma.pageOffset == pgoff
  {
    hide Open, Neighbourly, Overgrown, Consistent, FieldsOf, ChainOf, Resized, Known, Holes, Erasing, Cut, Slice, Members;
    hide Threaded, Distinct, RecsOf, Ranged;
    OpenNeighbourly(s, i);
    OpenAt(s, null, i + 1);
    RangesOf(s.nodes, vma);
    RangesOf(s.nodes, next);
    ghost var a, c, m := s.Now(), ChainOf(s.nodes), RecsOf(s.nodes);
    RecsHave(s.nodes, vma);
    RecsWithout(s.nodes, {vma});
    var startChanged, endChanged := SetRange(s, vma, vma.start, next.end, pgoff);
    RangedIs(s.nodes, m, vma, vma.start, next.end, pgoff);
    OverlaidOpen(s, a, c, i, vma, next, vma.start);
    VmaUnlink(s, next, vma, a, c, i);
  }

  // ---------------------------------------------------------------- growing

  /** The areas are in place in the host memory and show what `image` tells. */
  ghost predicate Hosted(s: AddressSpace, image: Image)
    reads s`nodes, s.host
    reads s.nodes`start, s.nodes`end, s.nodes`oldStart, s.nodes`oldEnd, s.nodes`physStart, s.nodes`physEnd, s.nodes`file, s.nodes`pageOffset
  {
    Lodged(s.host, s.nodes) && Faithful(s.host, s.nodes, image)
  }

  /**
   What `image` tells of the range is what the area will hold when it has grown: pages without a file that it has
   now, or zero, and with a file what the file has at the new offset.
   */
  ghost predicate Growable(h: Host, v: VmArea, start: int, end: int, pgoff: int, image: Image)
    reads v`start, v`end, v`file
  {
    GrowsTo(h, v.file, image, PageOf(start), PageOf(end), PageOf(v.start), PageOf(v.end), pgoff)
  }

  /** As told of the pages from `lo` to `hi`, of which those from `a` to `b` have been there. */
  ghost predicate GrowsTo(h: Host, file: VmFile, image: Image, lo: int, hi: int, a: int, b: int, pgoff: int) {
    forall p :: p in image && lo <= p < hi ==>
      if file.fd == -1 then a <= p < b || image[p] == h.Zero() else image[p] == h.FilePage(file, pgoff, lo, p)
  }

  /** As `Hosted`, but if `v` shows a file it need not show what `image` tells. */
  ghost predicate HostedBut(s: AddressSpace, v: VmArea, image: Image)
    reads s`nodes, s.host, v`file
    reads s.nodes`start, s.nodes`end, s.nodes`oldStart, s.nodes`oldEnd, s.nodes`physStart, s.nodes`physEnd, s.nodes`file, s.nodes`pageOffset
    reads v`start, v`end, v`oldStart, v`oldEnd, v`physStart, v`physEnd, v`pageOffset
  {
    && Lodged(s.host, s.nodes) && Faithful(s.host, s.nodes - {v}, image)
    && (v.file.fd == -1 ==> Faithful(s.host, {v}, image))
  }

  /** The others have room of their own; `v` still has its block of frames, and what is told of it if it shows no file. */
  ghost predicate TakenOut(h: Host, v: VmArea, rest: set<VmArea>, image: Image, page: int, frame: int, n: int)
    reads h, v`oldStart, v`oldEnd, v`physStart, v`physEnd, v`file
    reads rest`start, rest`end, rest`oldStart, rest`oldEnd, rest`physStart, rest`physEnd, rest`file, rest`pageOffset
  {
    && Roomed(h, rest) && Faithful(h, rest, image) && h.Framed(v) && (forall w :: w in rest ==> InPlace(w))
    && ClearOf(rest, frame, n) && There(h, frame, n) && Block(v, page, frame, n)
    && (v.file.fd == -1 ==> Holds(h, image, page, frame, n))
  }

  lemma HostedOut(s: AddressSpace, v: VmArea, image: Image) returns (page: int, frame: int, n: int)
    requires HostedBut(s, v, image) && v in s.nodes
    ensures TakenOut(s.host, v, s.nodes - {v}, image, page, frame, n)
    ensures v.start < v.end && v.oldStart == v.start && v.oldEnd == v.end
    ensures page == PageOf(v.start) && n == PageOf(v.end) - PageOf(v.start)
  {
    TakeOut(s.host, v, s.nodes, image);
    InPlaceBlock(s.host, v);
    page, frame, n := KeptFrom(v), KeptFrame(v), KeptPages(v);
  }

  lemma FewerOut(h: Host, v: VmArea, rest: set<VmArea>, some: set<VmArea>, image: Image, page: int, frame: int, n: int)
    requires TakenOut(h, v, rest, image, page, frame, n) && some <= rest
    ensures TakenOut(h, v, some, image, page, frame, n)
  {
    Fewer(h, rest, some, image, frame, n);
  }

  /** The grown area is back among the others. */
  lemma GrownIn(s: AddressSpace, v: VmArea, image: Image, page: int, frame: int, n: int)
    requires v in s.nodes && TakenOut(s.host, v, s.nodes - {v}, image, page, frame, n)
    requires Aligned(v.start) && Aligned(v.end) && v.start <= v.oldStart && v.oldEnd <= v.end && (v.start < v.oldStart || v.oldEnd < v.end)
    requires GrowsTo(s.host, v.file, image, PageOf(v.start), PageOf(v.end), PageOf(v.oldStart), PageOf(v.oldEnd), v.pageOffset)
    ensures Roomed(s.host, s.nodes) && Faithful(s.host, s.nodes, image) && Replaceable(s.host, v, image)
    ensures !InPlace(v) && forall w :: w in s.nodes && w != v ==> InPlace(w)
  {
    ResizedPart(v, page, frame, n);
    PutIn(s.host, v, s.nodes - {v}, image, page, frame, n);
    assert s.nodes - {v} + {v} == s.nodes;
  }

  /** The tree part of the plain case of `vma_adjust`: the range grows at one side. */
  method GrowArea(s: AddressSpace, vma: VmArea, start: nat, end: nat, pgoff: int, ghost i: int)
    requires Open(s, null) && 0 <= i < |s.order| && vma == s.order[i]
    requires FitsInPlace(ChainOf(s.nodes), s.order, i, start, end)
    requires (start == vma.start) != (end == vma.end)
    modifies vma`start, vma`end, vma`pageOffset, s`highest, s.nodes`subtreeGap
    ensures Open(s, null) && vma.start == start && vma.end == end && vma.pageOffset == pgoff
    ensures RecsOf(s.nodes) == Ranged(old(RecsOf(s.nodes)), vma, start, end, pgoff)
    ensures s.highest == if end != old(vma.end) && i == |s.order| - 1 then end else old(s.highest)
  {
    hide Open, FitsInPlace, ChainOf, Resized, RecsOf, Ranged;
    OpenAt(s, null, i);
    ghost var m := RecsOf(s.nodes);
    RecsHave(s.nodes, vma);
    RecsWithout(s.nodes, {vma});
    var next := vma.next;
    var startChanged, endChanged := ResizeArea(s, vma, start, end, pgoff, i, if start != vma.start then vma else next);
    RangedIs(s.nodes, m, vma, start, end, pgoff);
    if startChanged {
      CloseBehind(s, vma, 0);
    }
    if endChanged {
      CloseBehind(s, next, end);
    }
  }

  /** `vma_adjust` in the plain case: the area grows at one side, and the host follows. */
  method AdjustPlain(s: AddressSpace, vma: VmArea, start: nat, end: nat, pgoff: int, ghost i: int, ghost image: Image)
    requires Open(s, null) && 0 <= i < |s.order| && vma == s.order[i] && CaseOf(end, vma.end, vma.next, false) == Plain
    requires FitsInPlace(ChainOf(s.nodes), s.order, i, start, end)
    requires (start == vma.start) != (end == vma.end) && start <= vma.start && vma.end <= end
    requires HostedBut(s, vma, image) && Growable(s.host, vma, start, end, pgoff, image)
    modifies vma`start, vma`end, vma`pageOffset, s`highest, s.nodes`subtreeGap
    modifies s.host`next, s.host`table, s.host`ram, s.host`holes
    modifies vma`physStart, vma`physEnd, vma`oldStart, vma`oldEnd, vma`flags
    ensures Open(s, null) && vma.start == start && vma.end == end && vma.pageOffset == pgoff
    ensures s.highest == if end != old(vma.end) && i == |s.order| - 1 then end else old(s.highest)
    ensures Hosted(s, image)
    ensures old(MappedOnes(s.host, s.nodes)) + {vma} <= MappedOnes(s.host, s.nodes)
    ensures forall p :: !Covers(vma, p) ==> (p in s.host.table <==> p in old(s.host.table))
    ensures RecsOf(s.nodes) == Ranged(old(RecsOf(s.nodes)), vma, start, end, pgoff)
  {
    hide Open, FitsInPlace, ChainOf, Roomed, Faithful, Replaceable, PagesApart, Block, ClearOf, There, Holds, MappedOnes;
    hide Host.Framed, RecsOf, Ranged;
    hide TakenOut, HostedBut, GrowsTo, Covers;
    OpenAt(s, null, i);
    ghost var page, frame, n := HostedOut(s, vma, image);
    FitsAligned(ChainOf(s.nodes), s.order, i, start, end);
    MappedWithin(s.host, s.nodes - {vma}, s.nodes);
    GrowArea(s, vma, start, end, pgoff, i);
    MappedWithin(s.host, s.nodes - {vma}, s.nodes);
    GrownIn(s, vma, image, page, frame, n);
    OpenPagesApart(s, null);
    SettleIn(s.host, vma, s.nodes, image);
  }

  lemma FitsAligned(c: Chain, list: seq<VmArea>, i: int, start: int, end: int)
    requires FitsInPlace(c, list, i, start, end)
    ensures Aligned(start) && Aligned(end) && start < end
  {
  }

  // ---------------------------------------------------------------- swallowing the next area

  lemma SliceOne(list: seq<VmArea>, i: int)
    requires 0 <= i < |list|
    ensures Slice(list, i, i + 1) == {list[i]}
  {
  }

  lemma NextTo(s: AddressSpace, i: int)
    requires Open(s, null) && 0 <= i < |s.order| - 1
    ensures s.order[i] != s.order[i + 1] && s.order[i].end <= s.order[i + 1].start
  {
    RangesShown(s, null);
    OpenMembers(s, null);
  }

  /** The neighbours once the successor of the area at position `i` is gone. */
  lemma OneLess(s: AddressSpace, list: seq<VmArea>, i: int)
    requires 0 <= i < |list| - 1 && s.order == Cut(list, i + 1, i + 2) && Open(s, At(list, i + 2))
    ensures list[i] in s.nodes && list[i].next == At(list, i + 2)
  {
    CutAt(list, i + 1, i + 2, i);
    CutAt(list, i + 1, i + 2, i + 1);
    OpenAt(s, At(list, i + 2), i);
  }

  /** The neighbour that is about to be swallowed. */
  lemma HostedNext(s: AddressSpace, v: VmArea, next: VmArea, image: Image)
    requires HostedBut(s, v, image) && v in s.nodes && next in s.nodes && v != next
    ensures s.host.Framed(next) && InPlace(next)
  {
  }

  /** The successor is out of list and tree; the grown area is about to be mapped. */
  method GrowOverTree(s: AddressSpace, vma: VmArea, next: VmArea, pgoff: int, ghost i: int, ghost image: Image)
    requires Open(s, null) && 0 <= i < |s.order| - 1 && vma == s.order[i] && next == s.order[i + 1]
    requires HostedBut(s, vma, image) && Growable(s.host, vma, vma.start, next.end, pgoff, image)
    modifies vma`start, vma`end, vma`pageOffset
    modifies s`root, s`first, s`nodes, s`order, s`span, s.nodes`prev, s.nodes`next
    modifies s.nodes`rbLeft, s.nodes`rbRight, s.nodes`rbParent, s.nodes`rbBlack, s.nodes`subtreeGap
    ensures s.order == Cut(old(s.order), i + 1, i + 2) && s.nodes == old(s.nodes) - {next} && vma in s.nodes
    ensures Open(s, At(old(s.order), i + 2)) && vma.next == At(old(s.order), i + 2)
    ensures vma.start == old(vma.start) && vma.end == old(next.end) && vma.pageOffset == pgoff
    ensures RecsOf(s.nodes) == Ranged(old(RecsOf(s.nodes)), vma, old(vma.start), old(next.end), pgoff) - {next}
    ensures Roomed(s.host, s.nodes) && Faithful(s.host, s.nodes, image) && Replaceable(s.host, vma, image) && !InPlace(vma)
    ensures s.host.Framed(next) && InPlace(next) && forall w :: w in s.nodes && w != vma ==> InPlace(w)
  {
    hide TakenOut, InPlace;
    hide Open, Roomed, Faithful, Replaceable, PagesApart, ClearOf, There, Holds, MappedOnes, Cut, Slice, HostedBut, RecsOf;
    hide Ranged, GrowsTo, Block;
    OpenAt(s, null, i);
    OpenAt(s, null, i + 1);
    RangeAt(s, i);
    RangeAt(s, i + 1);
    NextTo(s, i);
    SliceOne(s.order, i + 1);
    HostedNext(s, vma, next, image);
    ghost var page, frame, n := HostedOut(s, vma, image);
    FewerOut(s.host, vma, s.nodes - {vma}, s.nodes - {next} - {vma}, image, page, frame, n);
    SwallowArea(s, vma, next, pgoff, i);
    RecsWithout(old(s.nodes), {next});
    OneLess(s, old(s.order), i);
    GrownIn(s, vma, image, page, frame, n);
  }

  /** The grown area is mapped; the pages of the swallowed one have not been unmapped yet. */
  method GrowOver(s: AddressSpace, vma: VmArea, next: VmArea, pgoff: int, ghost i: int, ghost image: Image)
    requires Open(s, null) && 0 <= i < |s.order| - 1 && vma == s.order[i] && next == s.order[i + 1]
    requires HostedBut(s, vma, image) && Growable(s.host, vma, vma.start, next.end, pgoff, image)
    modifies vma`start, vma`end, vma`pageOffset
    modifies s`root, s`first, s`nodes, s`order, s`span, s.nodes`prev, s.nodes`next
    modifies s.nodes`rbLeft, s.nodes`rbRight, s.nodes`rbParent, s.nodes`rbBlack, s.nodes`subtreeGap
    modifies s.host`next, s.host`table, s.host`ram, s.host`holes
    modifies vma`physStart, vma`physEnd, vma`oldStart, vma`oldEnd, vma`flags
    ensures s.order == Cut(old(s.order), i + 1, i + 2) && s.nodes == old(s.nodes) - {next}
    ensures Open(s, At(old(s.order), i + 2)) && vma.next == At(old(s.order), i + 2)
    ensures vma.start == old(vma.start) && vma.end == old(next.end) && vma.pageOffset == pgoff
    ensures Hosted(s, image) && s.host.Framed(next) && InPlace(next) && next !in s.nodes
    ensures old(MappedOnes(s.host, s.nodes)) - {next} + {vma} <= MappedOnes(s.host, s.nodes)
    ensures forall p :: !Covers(vma, p) ==> (p in s.host.table <==> p in old(s.host.table))
    ensures RecsOf(s.nodes) == Ranged(old(RecsOf(s.nodes)), vma, old(vma.start), old(next.end), pgoff) - {next}
  {
    hide Open, Roomed, Faithful, Replaceable, PagesApart, Growable, GrowsTo, HostedBut, MappedOnes, Cut, Slice, RecsOf, Ranged, Covers;
    ghost var rest := s.nodes - {vma} - {next};
    MappedWithin(s.host, rest, s.nodes);
    GrowOverTree(s, vma, next, pgoff, i, image);
    MappedWithin(s.host, rest, s.nodes);
    OpenPagesApart(s, At(old(s.order), i + 2));
    SettleIn(s.host, vma, s.nodes, image);
  }

  /**
   `vma_adjust` when the area grows over its successor: that one is taken out of list and tree, its pages
   are unmapped after the grown area has been mapped, and its record is given up.
   */
  method AdjustRemove(s: AddressSpace, vma: VmArea, next: VmArea, pgoff: int, ghost i: int, ghost image: Image)
    requires Open(s, null) && 0 <= i < |s.order| - 1 && vma == s.order[i] && next == s.order[i + 1]
    requires CaseOf(next.end, vma.end, vma.next, false) == RemoveNext
    requires HostedBut(s, vma, image) && Growable(s.host, vma, vma.start, next.end, pgoff, image)
    modifies vma`start, vma`end, vma`pageOffset
    modifies s`root, s`first, s`highest, s`nodes, s`order, s`span, s.nodes`prev, s.nodes`next
    modifies s.nodes`rbLeft, s.nodes`rbRight, s.nodes`rbParent, s.nodes`rbBlack, s.nodes`subtreeGap
    modifies s.host`next, s.host`table, s.host`ram, s.host`holes
    modifies vma`physStart, vma`physEnd, vma`oldStart, vma`oldEnd, vma`flags
    ensures Open(s, null) && s.order == Cut(old(s.order), i + 1, i + 2) && s.nodes == old(s.nodes) - {next}
    ensures vma.start == old(vma.start) && vma.end == old(next.end) && vma.pageOffset == pgoff
    ensures s.highest == if i + 2 == |old(s.order)| then vma.end else old(s.highest)
    ensures Hosted(s, image)
    ensures forall p :: Covers(next, p) ==> p !in s.host.table
    ensures forall p :: !Covers(vma, p) && !Covers(next, p) ==> (p in s.host.table <==> p in old(s.host.table))
    ensures old(s.nodes <= MappedOnes(s.host, s.nodes)) ==> Translates(s.host.table, s.nodes, PageOf(next.start), PageOf(next.end))
    ensures RecsOf(s.nodes) == Ranged(old(RecsOf(s.nodes)), vma, old(vma.start), old(next.end), pgoff) - {next}
  {
    hide Open, Roomed, Faithful, Growable, GrowsTo, HostedBut, Cut, Slice, RecsOf, Ranged, MappedOnes, Translates, Covers;
    ghost var all := s.nodes <= MappedOnes(s.host, s.nodes);
    GrowOver(s, vma, next, pgoff, i, image);
    AllMapped(s.host, s.nodes);
    ghost var t := s.host.table;
    UnmapOne(s.host, next, s.nodes, image);
    if all { MappedAfter(t, s.host.table, s.nodes, next); }
    CloseBehind(s, vma.next, vma.end);
  }

  // ---------------------------------------------------------------- splitting

  /** `insert` is a copy of `vma` for its lower part up to `addr` (below) or its upper part from there. */
  ghost predicate Piece(vma: VmArea, insert: VmArea, addr: int, below: bool)
    reads vma, insert
  {
    && insert.start == (if below then vma.start else addr) && insert.end == (if below then addr else vma.end)
    && insert.oldStart == vma.oldStart && insert.oldEnd == vma.oldEnd
    && insert.physStart == vma.physStart && insert.physEnd == vma.physEnd
    && insert.file == vma.file
    && insert.pageOffset == if below then vma.pageOffset else vma.pageOffset + (addr - vma.start)
  }

  /** What `image` tells about a mapped file is what the file holds. */
  ghost predicate Clean(h: Host, v: VmArea, image: Image)
    reads v`start, v`end, v`file, v`pageOffset
  {
    v.file.fd != -1 ==>
      forall p :: p in image && Covers(v, p) ==> image[p] == h.FilePage(v.file, v.pageOffset, PageOf(v.start), p)
  }

  /** The two pieces, not yet mapped, among the others. */
  lemma PiecesIn(h: Host, vma: VmArea, insert: VmArea, rest: set<VmArea>, image: Image,
                 page: int, frame: int, n: int, addr: int, below: bool)
    requires vma !in rest && insert !in rest && vma != insert
    requires Roomed(h, rest) && Faithful(h, rest, image) && h.Framed(vma)
    requires ClearOf(rest, frame, n) && There(h, frame, n) && Block(vma, page, frame, n) && vma.file == insert.file
    requires vma.file.fd == -1 ==> Holds(h, image, page, frame, n)
    requires Replaceable(h, vma, image) && Replaceable(h, insert, image)
    requires vma.oldStart < addr < vma.oldEnd && Aligned(addr)
    requires vma.start == (if below then addr else vma.oldStart) && vma.end == (if below then vma.oldEnd else addr)
    requires insert.start == (if below then vma.oldStart else addr) && insert.end == (if below then addr else vma.oldEnd)
    requires insert.oldStart == vma.oldStart && insert.oldEnd == vma.oldEnd
    requires insert.physStart == vma.physStart && insert.physEnd == vma.physEnd
    ensures Roomed(h, rest + {vma} + {insert}) && Faithful(h, rest + {vma} + {insert}, image)
    ensures !InPlace(vma) && !InPlace(insert)
  {
    var lower, upper := if below then insert else vma, if below then vma else insert;
    var cut := PageOf(addr) - page;
    LowerPart(lower, page, frame, n, cut);
    UpperPart(upper, page, frame, n, cut);
    PutBoth(h, lower, upper, rest, image, page, frame, n, cut);
    assert rest + {lower} + {upper} == rest + {vma} + {insert};
  }

  /** The pages that a piece keeps are all it has. */
  lemma PieceKeeps(v: VmArea, page: int, frame: int, n: int)
    requires Block(v, page, frame, n) && v.oldStart <= v.start < v.end <= v.oldEnd && Aligned(v.start) && Aligned(v.end)
    ensures forall p :: Covers(v, p) ==> Keeps(v, p)
  {
  }

  /** Shifting start and offset alike leaves the file's pages where they are. */
  lemma FileShift(h: Host, file: VmFile, offset: int, start: int, addr: int, p: int)
    requires Aligned(start) && Aligned(addr)
    ensures h.FilePage(file, offset + (addr - start), PageOf(addr), p) == h.FilePage(file, offset, PageOf(start), p)
  {
    assert (addr - start) + (p - PageOf(addr)) * PAGE_SIZE == (p - PageOf(start)) * PAGE_SIZE;
  }

  /** What `kernel_map_vma` will give the pages of the two pieces is what was there. */
  lemma PiecesReplaceable(h: Host, vma: VmArea, insert: VmArea, image: Image,
                          page: int, frame: int, n: int, addr: int, below: bool, offset: int)
    requires Block(vma, page, frame, n) && vma.oldStart < addr < vma.oldEnd && Aligned(addr)
    requires vma.start == (if below then addr else vma.oldStart) && vma.end == (if below then vma.oldEnd else addr)
    requires insert.start == (if below then vma.oldStart else addr) && insert.end == (if below then addr else vma.oldEnd)
    requires insert.oldStart == vma.oldStart && insert.oldEnd == vma.oldEnd
    requires insert.physStart == vma.physStart && insert.physEnd == vma.physEnd && insert.file == vma.file
    requires vma.pageOffset == (if below then offset + (addr - vma.oldStart) else offset)
    requires insert.pageOffset == (if below then offset else offset + (addr - vma.oldStart))
    requires vma.file.fd != -1 ==> ShowsFile(h, vma.file, offset, vma.oldStart, vma.oldEnd, image)
    ensures Replaceable(h, vma, image) && Replaceable(h, insert, image)
  {
    PieceKeeps(vma, page, frame, n);
    PieceKeeps(insert, page, frame, n);
    forall p | p in image
      ensures h.FilePage(vma.file, offset + (addr - vma.oldStart), PageOf(addr), p)
              == h.FilePage(vma.file, offset, PageOf(vma.oldStart), p)
    {
      FileShift(h, vma.file, offset, vma.oldStart, addr, p);
    }
  }

  /** The two pieces, not yet mapped, among the other areas. */
  lemma CutHost(s: AddressSpace, vma: VmArea, insert: VmArea, image: Image, page: int, frame: int, n: int, addr: int, below: bool, offset: int)
    requires vma in s.nodes && insert !in s.nodes && TakenOut(s.host, vma, s.nodes - {vma}, image, page, frame, n)
    requires vma.oldStart < addr < vma.oldEnd && Aligned(addr)
    requires vma.start == (if below then addr else vma.oldStart) && vma.end == (if below then vma.oldEnd else addr)
    requires insert.start == (if below then vma.oldStart else addr) && insert.end == (if below then addr else vma.oldEnd)
    requires insert.oldStart == vma.oldStart && insert.oldEnd == vma.oldEnd
    requires insert.physStart == vma.physStart && insert.physEnd == vma.physEnd && insert.file == vma.file
    requires vma.pageOffset == (if below then offset + (addr - vma.oldStart) else offset)
    requires insert.pageOffset == (if below then offset else offset + (addr - vma.oldStart))
    requires vma.file.fd != -1 ==> ShowsFile(s.host, vma.file, offset, vma.oldStart, vma.oldEnd, image)
    ensures Roomed(s.host, s.nodes + {insert}) && Faithful(s.host, s.nodes + {insert}, image)
    ensures Replaceable(s.host, vma, image) && Replaceable(s.host, insert, image) && !InPlace(vma) && !InPlace(insert)
    ensures forall w :: w in s.nodes && w != vma ==> InPlace(w)
  {
    hide Roomed, Faithful, ClearOf, There, Holds, Replaceable, InPlace, Block;
    PiecesReplaceable(s.host, vma, insert, image, page, frame, n, addr, below, offset);
    PiecesIn(s.host, vma, insert, s.nodes - {vma}, image, page, frame, n, addr, below);
    assert s.nodes - {vma} + {vma} + {insert} == s.nodes + {insert};
  }

  /** What `image` tells of a mapped range is what the file holds. */
  ghost predicate ShowsFile(h: Host, file: VmFile, offset: int, start: int, end: int, image: Image) {
    forall p :: p in image && PageOf(start) <= p < PageOf(end) ==> image[p] == h.FilePage(file, offset, PageOf(start), p)
  }

  lemma CleanShows(h: Host, v: VmArea, image: Image)
    requires Clean(h, v, image)
    ensures v.file.fd != -1 ==> ShowsFile(h, v.file, v.pageOffset, v.start, v.end, image)
  {
  }

  /** The record of an area and of a piece cut off it, before anything else has been told. */
  method CutRange(s: AddressSpace, vma: VmArea, start: nat, end: nat, pgoff: int, insert: VmArea,
                  ghost addr: int, ghost below: bool, ghost i: int, ghost m: Recs, ghost image: Image)
    requires Open(s, null) && 0 <= i < |s.order| && vma == s.order[i] && insert !in s.nodes
    requires vma.start < addr < vma.end && Aligned(addr) && Piece(vma, insert, addr, below)
    requires start == (if below then addr else vma.start) && end == (if below then vma.end else addr)
    requires pgoff == if below then vma.pageOffset + (addr - vma.start) else vma.pageOffset
    requires HostedBut(s, vma, image) && Clean(s.host, vma, image)
    requires m == RecsOf(s.nodes + {insert})
    modifies vma`start, vma`end, vma`pageOffset
    ensures vma.start == start && vma.end == end && vma.pageOffset == pgoff && vma in s.nodes
    ensures Open(s, At(s.order, if below then i else i + 1)) && insert.start < insert.end
    ensures FitsBetween(ChainOf(s.nodes), s.order, if below then i else i + 1, insert.start, insert.end)
    ensures Roomed(s.host, s.nodes + {insert}) && Faithful(s.host, s.nodes + {insert}, image)
    ensures !InPlace(vma) && !InPlace(insert) && (forall w :: w in s.nodes && w != vma ==> InPlace(w))
    ensures Replaceable(s.host, vma, image) && Replaceable(s.host, insert, image)
    ensures old(MappedOnes(s.host, s.nodes)) <= MappedOnes(s.host, s.nodes) + {vma}
    ensures RecsOf(s.nodes + {insert}) == Ranged(m, vma, start, end, pgoff)
  {
    hide TakenOut, ShowsFile, Clean, Block, InPlace;
    hide MappedOnes, Open, HostedBut, Roomed, Faithful, Replaceable, ClearOf, There, Holds, ChainOf, Resized, FitsBetween;
    hide FitsInPlace, Sorted, Distinct, RecsOf;
    OpenAt(s, null, i);
    RangeAt(s, i);
    RangesShown(s, null);
    OpenMembers(s, null);
    ghost var c, offset := ChainOf(s.nodes), vma.pageOffset;
    RecsHave(s.nodes + {insert}, vma);
    RecsWithout(s.nodes + {insert}, {vma});
    CleanShows(s.host, vma, image);
    ghost var page, frame, n := HostedOut(s, vma, image);
    SplitFits(c, s.order, i, addr);
    MappedWithin(s.host, s.nodes - {vma}, s.nodes);
    var startChanged, endChanged := ResizeArea(s, vma, start, end, pgoff, i, if below then vma else At(s.order, i + 1));
    MappedWithin(s.host, s.nodes - {vma}, s.nodes);
    RangedIs(s.nodes + {insert}, m, vma, start, end, pgoff);
    CutHost(s, vma, insert, image, page, frame, n, addr, below, offset);
  }

  /** `vma_adjust` with an area to insert: `insert` takes over what `vma` gives up at one side of `addr`. */
  method AdjustInsert(s: AddressSpace, vma: VmArea, start: nat, end: nat, pgoff: int, insert: VmArea,
                      ghost addr: int, ghost below: bool, ghost i: int, ghost m: Recs, ghost image: Image)
    requires Open(s, null) && 0 <= i < |s.order| && vma == s.order[i] && insert !in s.nodes
    requires vma.start < addr < vma.end && Aligned(addr) && Piece(vma, insert, addr, below)
    requires start == (if below then addr else vma.start) && end == (if below then vma.end else addr)
    requires pgoff == if below then vma.pageOffset + (addr - vma.start) else vma.pageOffset
    requires HostedBut(s, vma, image) && Clean(s.host, vma, image)
    requires m == RecsOf(s.nodes + {insert})
    modifies vma`start, vma`end, vma`pageOffset
    modifies s`root, s`first, s`highest, s`nodes, s`order, s`span, s.nodes`prev, s.nodes`next
    modifies s.nodes`rbLeft, s.nodes`rbRight, s.nodes`rbParent, s.nodes`rbBlack, s.nodes`subtreeGap
    modifies insert`prev, insert`next, insert`rbLeft, insert`rbRight, insert`rbParent, insert`rbBlack, insert`subtreeGap
    modifies s.host`next, s.host`table, s.host`ram, s.host`holes
    modifies vma`physStart, vma`physEnd, vma`oldStart, vma`oldEnd, vma`flags
    modifies insert`physStart, insert`physEnd, insert`oldStart, insert`oldEnd, insert`flags
    ensures s.order == Inserted(old(s.order), if below then i else i + 1, insert)
    ensures vma.start == start && vma.end == end && vma.pageOffset == pgoff
    ensures Open(s, null) && s.nodes == old(s.nodes) + {insert}
    ensures s.highest == if !below && i == |old(s.order)| - 1 then insert.end else old(s.highest)
    ensures Hosted(s, image)
    ensures old(MappedOnes(s.host, s.nodes)) + {vma, insert} <= MappedOnes(s.host, s.nodes)
    ensures forall p :: !Covers(vma, p) && !Covers(insert, p) ==> (p in s.host.table <==> p in old(s.host.table))
    ensures RecsOf(s.nodes) == Ranged(m, vma, start, end, pgoff)
  {
    hide Open, HostedBut, Roomed, Faithful, Replaceable, ChainOf, FitsBetween, Inserted, PagesApart, Piece, Clean, MappedOnes;
    hide RecsOf, Ranged, Covers;
    CutRange(s, vma, start, end, pgoff, insert, addr, below, i, m, image);
    VmaInsert(s, insert, if below then i else i + 1, image);
    OpenPagesApart(s, null);
    SettleIn(s.host, vma, s.nodes, image);
  }

  /** `PAGE_ALIGN_DOWN` */
  function AlignDown(a: int): int {
    a - a % PAGE_SIZE
  }

  /** The new record of `vma_split`. */
  method MakePiece(vma: VmArea, addr: nat, newBelow: bool) returns (piece: VmArea)
    requires vma.start < addr < vma.end && Aligned(addr) && Aligned(vma.start)
    ensures fresh(piece) && Piece(vma, piece, addr, newBelow)
    ensures RecOf(piece) == if newBelow then Lower(RecOf(vma), addr) else Upper(RecOf(vma), addr)
  {
    piece := new VmArea.CopyOf(vma);
    if newBelow {
      piece.end := addr;
    } else {
      piece.start := addr;
      piece.pageOffset := piece.pageOffset + AlignDown(addr - vma.start);
    }
  }

  /**
   `vma_split`: the area keeps its part on one side of `addr`, a new area takes the other. Every page of
   both shows what it showed before.
   */
  method VmaSplit(s: AddressSpace, vma: VmArea, addr: nat, newBelow: bool, ghost i: int, ghost image: Image)
    returns (err: int, ghost piece: VmArea)
    requires Open(s, null) && 0 <= i < |s.order| && vma == s.order[i]
    requires vma.start < addr < vma.end && Aligned(addr)
    requires HostedBut(s, vma, image) && Clean(s.host, vma, image)
    modifies vma`start, vma`end, vma`pageOffset
    modifies s`root, s`first, s`highest, s`nodes, s`order, s`span, s.nodes`prev, s.nodes`next
    modifies s.nodes`rbLeft, s.nodes`rbRight, s.nodes`rbParent, s.nodes`rbBlack, s.nodes`subtreeGap
    modifies s.host`next, s.host`table, s.host`ram, s.host`holes
    modifies vma`physStart, vma`physEnd, vma`oldStart, vma`oldEnd, vma`flags
    ensures s.order == Inserted(old(s.order), if newBelow then i else i + 1, piece)
    ensures err == 0 && fresh(piece) && s.nodes == old(s.nodes) + {piece} && Open(s, null)
    ensures RecsOf(s.nodes) == SplitRecs(old(RecsOf(s.nodes)), vma, piece, addr, newBelow)
    ensures s.highest == if !newBelow && i == |old(s.order)| - 1 then piece.end else old(s.highest)
    ensures Hosted(s, image)
    ensures old(MappedOnes(s.host, s.nodes)) + {vma, piece} <= MappedOnes(s.host, s.nodes)
    ensures forall p :: !Covers(vma, p) && !Covers(piece, p) ==> (p in s.host.table <==> p in old(s.host.table))
  {
    hide Open, Hosted, HostedBut, Clean, Piece, Inserted, MappedOnes, RecsOf, SplitRecs, Ranged, Covers, RecOf, Lower, Upper;
    RangeAt(s, i);
    RecsHave(s.nodes, vma);
    ghost var m := RecsOf(s.nodes);
    var new_ := MakePiece(vma, addr, newBelow);
    piece := new_;
    PieceRange(vma, new_, addr, newBelow);
    RecsAdded(s.nodes, new_);
    var start, end := if newBelow then addr else vma.start, if newBelow then vma.end else addr;
    var pgoff := vma.pageOffset + if newBelow then AlignDown(addr - vma.start) else 0;
    SplitIs(m, vma, new_, addr, newBelow, start, end, pgoff);
    AdjustInsert(s, vma, start, end, pgoff, new_, addr, newBelow, i, RecsOf(s.nodes + {new_}), image);
    err := 0;
  }

  /** The records of an area and its piece are those of the area cut in two. */
  lemma SplitIs(m: Recs, v: VmArea, piece: VmArea, addr: int, below: bool, start: int, end: int, pgoff: int)
    requires v in m && piece !in m && m[v] == RecOf(v) && Aligned(addr) && Aligned(v.start)
    requires start == (if below then addr else v.start) && end == (if below then v.end else addr)
    requires pgoff == v.pageOffset + if below then AlignDown(addr - v.start) else 0
    ensures Ranged(m[piece := if below then Lower(m[v], addr) else Upper(m[v], addr)], v, start, end, pgoff)
            == SplitRecs(m, v, piece, addr, below)
  {
  }

  lemma PieceRange(vma: VmArea, piece: VmArea, addr: int, below: bool)
    requires Piece(vma, piece, addr, below)
    ensures piece.start == (if below then vma.start else addr) && piece.end == (if below then addr else vma.end)
    ensures piece.file == vma.file
    ensures piece.pageOffset == if below then vma.pageOffset else vma.pageOffset + (addr - vma.start)
  {
  }
}
