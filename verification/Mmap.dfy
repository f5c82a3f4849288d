/**
 `mmap_region` and `do_brk` of kernel/c/mmap.c.
 */
module Mmap {
  import opened Basics
  import opened VmAreas
  import opened RbShape
  import opened RbBalance
  import opened RbTree
  import opened HostMemory
  import opened AreaHosting
  import opened Regions
  import opened AreaViews
  import opened Vma
  import opened VmaSteps
  import opened Linking
  import opened Adjusting
  import opened Merging
  import opened Munmapping
  import opened Contents

  // ---------------------------------------------------------------- the neighbours of a range

  /** The record that a new area has. */
  ghost function NewRec(addr: int, end: int, flags: bv64, prot: bv64, file: VmFile, pgoff: int): Rec {
    Rec(addr, end, prot, Essential(flags), file, pgoff)
  }

  /** `[lo, hi)` lies between the first `k` records and the rest. */
  ghost predicate FitsRecs(m: Recs, list: seq<VmArea>, k: int, lo: int, hi: int) {
    && 0 <= k <= |list|
    && (forall i :: 0 <= i < k ==> list[i] in m && m[list[i]].end <= lo)
    && (forall i :: k <= i < |list| ==> list[i] in m && hi <= m[list[i]].start)
  }

  /** Only the predecessor can join the range from below, and only the successor from above. */
  lemma NeighboursJoin(m: Recs, list: seq<VmArea>, k: int, x: Rec)
    requires RecsInOrder(m, list) && FitsRecs(m, list, k, x.start, x.end) && x.start < x.end
    ensures AreasBelow(Values(m), x) != {} <==> k > 0 && JoinsBelow(m[list[k - 1]], x)
    ensures AreasAbove(Values(m), x) != {} <==> k < |list| && JoinsAbove(m[list[k]], x)
  {
    if k > 0 && JoinsBelow(m[list[k - 1]], x) { assert m[list[k - 1]] in AreasBelow(Values(m), x); }
    if k < |list| && JoinsAbove(m[list[k]], x) { assert m[list[k]] in AreasAbove(Values(m), x); }
    if r :| r in AreasBelow(Values(m), x) {
      var v: VmArea :| v in m && m[v] == r;
      var i :| 0 <= i < |list| && list[i] == v;
      assert i == k - 1;
    }
    if r :| r in AreasAbove(Values(m), x) {
      var v: VmArea :| v in m && m[v] == r;
      var i :| 0 <= i < |list| && list[i] == v;
      assert i == k;
    }
  }

  /** The merge tests of the source, on records. */
  lemma TestsJoin(v: VmArea, x: Rec, flags: bv64, file: VmFile)
    requires x.flags == Essential(flags) && x.file == file
    ensures v.end == x.start && CanMergeAfter(v, flags, file, x.offset) <==> JoinsBelow(RecOf(v), x)
    ensures v.start == x.end && CanMergeBefore(v, flags, file, x.offset + Pages(file, x.end - x.start)) <==> JoinsAbove(RecOf(v), x)
  {
    hide Essential, VmaCanMerge;
    CanMergeIsKind(v, file, flags);
  }

  /** The way that the source's tests on the neighbours take is the one that the records prescribe. */
  lemma WayIsIn(nodes: set<VmArea>, list: seq<VmArea>, k: int, addr: int, end: int, flags: bv64, prot: bv64, file: VmFile, pgoff: int)
    requires RecsInOrder(RecsOf(nodes), list) && FitsRecs(RecsOf(nodes), list, k, addr, end) && addr < end
    ensures WayOf(At(list, k - 1), At(list, k), addr, end, flags, file, pgoff)
            == WayIn(Values(RecsOf(nodes)), NewRec(addr, end, flags, prot, file, pgoff))
  {
    hide Essential, VmaCanMerge, AreasBelow, AreasAbove, Values, JoinsBelow, JoinsAbove, CanMergeAfter, CanMergeBefore;
    var x := NewRec(addr, end, flags, prot, file, pgoff);
    NeighboursJoin(RecsOf(nodes), list, k, x);
    if k > 0 {
      RecsHave(nodes, list[k - 1]);
      TestsJoin(list[k - 1], x, flags, file);
    }
    if k < |list| {
      RecsHave(nodes, list[k]);
      TestsJoin(list[k], x, flags, file);
    }
  }

  /** What the way of a merge says about the neighbours. */
  ghost predicate WayFits(way: Way, m: Recs, prev: VmArea?, next: VmArea?, x: Rec) {
    && way == WayIn(Values(m), x) && Proper(Values(m)) && ProperRec(x)
    && (way == Up || way == Both ==> prev != null && Unique(m, prev) && JoinsBelow(m[prev], x))
    && (way == Down || way == Both ==> next != null && Unique(m, next) && JoinsAbove(m[next], x))
  }

  lemma OrderUnique(m: Recs, list: seq<VmArea>, i: int)
    requires RecsInOrder(m, list) && 0 <= i < |list|
    ensures Unique(m, list[i])
  {
    forall w | w in m && w != list[i]
      ensures m[w] != m[list[i]]
    {
      var j :| 0 <= j < |list| && list[j] == w;
    }
  }

  lemma WayFitsNow(m: Recs, list: seq<VmArea>, k: int, x: Rec)
    requires RecsInOrder(m, list) && FitsRecs(m, list, k, x.start, x.end) && Proper(Values(m)) && ProperRec(x)
    ensures WayFits(WayIn(Values(m), x), m, At(list, k - 1), At(list, k), x)
  {
    hide AreasBelow, AreasAbove, Values, JoinsBelow, JoinsAbove, Proper, Unique, RecsInOrder;
    NeighboursJoin(m, list, k, x);
    if k > 0 { OrderUnique(m, list, k - 1); }
    if k < |list| { OrderUnique(m, list, k); }
  }

  /** A merge does to the records what it does to the areas. */
  lemma MergedIsModel(way: Way, m: Recs, prev: VmArea?, next: VmArea?, x: Rec)
    requires way != Alone && WayFits(way, m, prev, next, x)
    ensures Values(MergedRecs(way, m, prev, next, x.start, x.end, Pages(x.file, x.end - x.start))) == Merged(Values(m), x)
  {
    hide Values, JoinsBelow, JoinsAbove, Proper, ProperRec;
    if way == Up || way == Both {
      assert m[prev] in Values(m) by { InValues(m, prev); }
      assert m[prev] in AreasBelow(Values(m), x);
      OneNeighbour(Values(m), x, m[prev]);
    }
    if way == Down || way == Both {
      assert m[next] in Values(m) by { InValues(m, next); }
      assert m[next] in AreasAbove(Values(m), x);
      OneNeighbour(Values(m), x, m[next]);
    }
    match way
    case Up => ChangedValues(m, prev, m[prev].(end := x.end));
    case Down => ChangedValues(m, next, m[next].(start := x.start, offset := m[next].offset - Pages(x.file, x.end - x.start)));
    case Both =>
      DifferentSides(m[prev], m[next], x, Values(m));
      BothValues(m, prev, next, m[prev].(end := m[next].end));
      MergedBoth(Values(m), x, m[prev], m[next]);
  }

  lemma DifferentSides(u: Rec, w: Rec, x: Rec, s: Regions)
    requires JoinsBelow(u, x) && JoinsAbove(w, x) && ProperRec(x) && Proper(s) && u in s && w in s
    ensures u != w
  {
    assert ProperRec(u);
  }

  lemma InValues(m: Recs, v: VmArea)
    requires v in m
    ensures m[v] in Values(m)
  {
  }

  lemma BothValues(m: Recs, v: VmArea, w: VmArea, r: Rec)
    requires Unique(m, v) && Unique(m, w)
    ensures v != w ==> Values(m[v := r] - {w}) == Values(m) - {m[v]} - {m[w]} + {r}
  {
    if v != w {
      assert m[v := r] - {w} == (m - {w})[v := r];
      RemovedValues(m, w);
      assert Unique(m - {w}, v);
      ChangedValues(m - {w}, v, r);
      InValues(m, v);
    }
  }

  // ---------------------------------------------------------------- making room

  /** Some area has something of `[lo, hi)`. */
  ghost predicate InUse(s: Regions, lo: int, hi: int) {
    exists r :: r in s && r.start < hi && lo < r.end
  }

  lemma OverlapShown(s: AddressSpace, addr: int, end: int)
    requires Sane(s)
    ensures InUse(Values(RecsOf(s.nodes)), addr, end) <==> exists i :: 0 <= i < |s.order| && Overlaps(s.order[i], addr, end)
  {
    hide Sane;
    SaneParts(s);
    StartsShown(s);
    OverlapAt(RecsOf(s.nodes), s.order, addr, end);
  }

  lemma OverlapAt(m: Recs, list: seq<VmArea>, addr: int, end: int)
    requires RecsInOrder(m, list)
    requires forall i :: 0 <= i < |list| ==> list[i] in m && m[list[i]].start == list[i].start && m[list[i]].end == list[i].end
    ensures InUse(Values(m), addr, end) <==> exists i :: 0 <= i < |list| && Overlaps(list[i], addr, end)
  {
    if r :| r in Values(m) && r.start < end && addr < r.end {
      var v: VmArea :| v in m && m[v] == r;
      var i :| 0 <= i < |list| && list[i] == v;
      assert Overlaps(list[i], addr, end);
    }
    if i :| 0 <= i < |list| && Overlaps(list[i], addr, end) {
      assert m[list[i]] in Values(m);
    }
  }

  /** What has been cleared is free. */
  lemma TrimFree(s: Regions, lo: int, hi: int)
    requires Proper(s) && lo < hi && Aligned(lo) && Aligned(hi)
    ensures !InUse(Trim(s, lo, hi), lo, hi)
  {
    hide Trim, Proper;
    TrimProper(s, lo, hi);
  }

  lemma FreeTrim(s: Regions, lo: int, hi: int)
    requires Proper(s) && lo < hi && !InUse(s, lo, hi)
    ensures Trim(s, lo, hi) == s
  {
    hide Trim;
    TrimNothing(s, lo, hi);
  }

  /** `vma_find_links` on a complete address space. */
  method FindLinks(s: AddressSpace, addr: int, end: int)
    returns (fails: bool, prev: VmArea?, parent: VmArea?, left: bool, ghost k: int)
    requires Sane(s) && addr < end
    ensures fails == InUse(Values(RecsOf(s.nodes)), addr, end)
    ensures LinksFound(s, addr, end, fails, prev, parent, left, k)
  {
    hide Sane, Open, Ordered, Overlaps, InUse, FitsAt, EmptyLink, Values;
    SaneParts(s);
    OpenOrdered(s, null);
    fails, prev, parent, left, k := VmaFindLinks(s, addr, end);
    OverlapShown(s, addr, end);
  }

  lemma AlignedUp(length: nat)
    requires Aligned(length) && length < WORD
    ensures AlignUp(length) == length
  {
  }

  /** Every translated page belongs to an area. */
  ghost predicate NoStray(t: set<int>, s: Regions) {
    forall p :: p in t ==> HasPage(s, p)
  }

  /** The page tables translate exactly the pages of the areas, each to the area's frame. */
  ghost predicate Exact(s: AddressSpace)
    reads s`nodes, s.host`table, s.nodes`start, s.nodes`end, s.nodes`oldStart, s.nodes`oldEnd, s.nodes`physStart, s.nodes`physEnd
    reads s.nodes`file, s.nodes`prot, s.nodes`flags, s.nodes`pageOffset
  {
    s.nodes <= MappedOnes(s.host, s.nodes) && NoStray(s.host.table.Keys, Values(RecsOf(s.nodes)))
  }

  lemma UnmapsNoStray(m: Recs, n: Recs, t: set<int>, u: set<int>, lo: int, hi: int)
    requires Unmaps(m, n, t, u, lo, hi) && NoStray(t, Values(m)) && Proper(Values(m)) && Aligned(lo) && Aligned(hi) && lo < hi
    ensures NoStray(u, Values(n))
  {
    hide HasPage, Trim, Values, Proper;
    forall p | p in u
      ensures HasPage(Values(n), p)
    {
      TrimPages(Values(m), lo, hi, p);
    }
  }

  /** `syscall_munmap` as the mapping calls use it. */
  method Vacate(s: AddressSpace, addr: nat, length: nat, kernelMin: nat, ghost image: Image) returns (err: int)
    requires Sane(s) && Hosted(s, image)
    requires 0 < length < WORD && Aligned(length) && Aligned(addr) && Aligned(kernelMin) && kernelMin < WORD
    modifies s.nodes`start, s.nodes`end, s.nodes`pageOffset
    modifies s`root, s`first, s`highest, s`nodes, s`order, s`span, s.nodes`prev, s.nodes`next
    modifies s.nodes`rbLeft, s.nodes`rbRight, s.nodes`rbParent, s.nodes`rbBlack, s.nodes`subtreeGap
    modifies s.host`next, s.host`table, s.host`ram, s.host`holes
    modifies s.nodes`physStart, s.nodes`physEnd, s.nodes`oldStart, s.nodes`oldEnd, s.nodes`flags
    ensures err == if ValidRange(addr, length, kernelMin) then 0 else -EINVAL
    ensures err != 0 ==> unchanged(s) && unchanged(old(s.nodes)) && unchanged(s.host)
    ensures Sane(s) && fresh(s.nodes - old(s.nodes))
    ensures Hosted(s, if err == 0 then Trimmed(s.host, old(Values(RecsOf(s.nodes))), image, addr, addr + length) else image)
    ensures err == 0 ==> Values(RecsOf(s.nodes)) == Trim(old(Values(RecsOf(s.nodes))), addr, addr + length)
    ensures err == 0 ==> !InUse(Values(RecsOf(s.nodes)), addr, addr + length)
    ensures err == 0 ==> (old(NoStray(s.host.table.Keys, Values(RecsOf(s.nodes)))) ==> NoStray(s.host.table.Keys, Values(RecsOf(s.nodes))))
    ensures old(s.nodes <= MappedOnes(s.host, s.nodes)) ==> s.nodes <= MappedOnes(s.host, s.nodes)
  {
    hide Sane, Hosted, RecsOf, MappedOnes, AlignUp, InUse, Values, Trim, Trimmed, Proper, NoStray, HasPage;
    AlignedUp(length);
    ghost var m, t := RecsOf(s.nodes), s.host.table.Keys;
    SaneProper(s);
    err := MunmapTold(s, addr, length, kernelMin, image);
    if err == 0 {
      TrimFree(Values(m), addr, addr + length);
      if NoStray(t, Values(m)) { UnmapsNoStray(m, RecsOf(s.nodes), t, s.host.table.Keys, addr, addr + length); }
    }
  }

  /** What is told of nothing that is cut stays as it is. */
  lemma FreeTrimmed(s: AddressSpace, image: Image, lo: int, hi: int)
    requires Sane(s) && Hosted(s, image) && !InUse(Values(RecsOf(s.nodes)), lo, hi) && lo < hi
    ensures Hosted(s, Trimmed(s.host, Values(RecsOf(s.nodes)), image, lo, hi))
  {
    hide Sane, Hosted, RecsOf, Trimmed;
    SaneProper(s);
    var old_ := Values(RecsOf(s.nodes));
    var told := Trimmed(s.host, old_, image, lo, hi);
    forall p | p in told
      ensures told[p] == image[p]
    {
      TrimmedAt(s.host, old_, image, lo, hi, p);
      forall r
        ensures !ReRead(old_, r, p, lo, hi)
      {
      }
    }
    LessTold(s, image, told);
  }

  lemma LessTold(s: AddressSpace, image: Image, told: Image)
    requires Hosted(s, image) && forall p :: p in told ==> p in image && told[p] == image[p]
    ensures Hosted(s, told)
  {
  }

  /**
   The loop of `mmap_region` and `do_brk` that makes room for the new range: `syscall_munmap` runs at
   most once, and the loop gives up exactly when the range is in use and not one that can be unmapped.
   */
  method MakeRoom(s: AddressSpace, addr: nat, length: nat, kernelMin: nat, ghost image: Image)
    returns (fails: bool, prev: VmArea?, parent: VmArea?, left: bool, ghost k: int, ghost munmaps: nat)
    requires Sane(s) && Hosted(s, image)
    requires 0 < length < WORD && Aligned(length) && Aligned(addr) && Aligned(kernelMin) && kernelMin < WORD
    modifies s.nodes`start, s.nodes`end, s.nodes`pageOffset
    modifies s`root, s`first, s`highest, s`nodes, s`order, s`span, s.nodes`prev, s.nodes`next
    modifies s.nodes`rbLeft, s.nodes`rbRight, s.nodes`rbParent, s.nodes`rbBlack, s.nodes`subtreeGap
    modifies s.host`next, s.host`table, s.host`ram, s.host`holes
    modifies s.nodes`physStart, s.nodes`physEnd, s.nodes`oldStart, s.nodes`oldEnd, s.nodes`flags
    ensures fails == (old(InUse(Values(RecsOf(s.nodes)), addr, addr + length)) && !ValidRange(addr, length, kernelMin))
    ensures fails ==> unchanged(s) && unchanged(old(s.nodes)) && unchanged(s.host)
    ensures munmaps == if old(InUse(Values(RecsOf(s.nodes)), addr, addr + length)) then 1 else 0
    ensures Sane(s) && fresh(s.nodes - old(s.nodes))
    ensures Hosted(s, if fails then image else Trimmed(s.host, old(Values(RecsOf(s.nodes))), image, addr, addr + length))
    ensures !fails ==> Values(RecsOf(s.nodes)) == Trim(old(Values(RecsOf(s.nodes))), addr, addr + length)
    ensures !fails ==> LinksFound(s, addr, addr + length, false, prev, parent, left, k)
    ensures old(NoStray(s.host.table.Keys, Values(RecsOf(s.nodes)))) ==> NoStray(s.host.table.Keys, Values(RecsOf(s.nodes)))
    ensures old(s.nodes <= MappedOnes(s.host, s.nodes)) ==> s.nodes <= MappedOnes(s.host, s.nodes)
  {
    hide Sane, Hosted, RecsOf, MappedOnes, Trim, Trimmed, InUse, ValidRange, LinksFound, Values, NoStray, Proper;
    ghost var m := Values(RecsOf(s.nodes));
    SaneProper(s);
    munmaps := 0;
    fails, prev, parent, left, k := FindLinks(s, addr, addr + length);
    if !fails {
      FreeTrim(m, addr, addr + length);
      FreeTrimmed(s, image, addr, addr + length);
    }
    while fails
      invariant Sane(s) && fresh(s.nodes - old(s.nodes))
      invariant Hosted(s, if fails then image else Trimmed(s.host, m, image, addr, addr + length))
      invariant munmaps == 0 ==> unchanged(s) && unchanged(old(s.nodes)) && unchanged(s.host) && fails == InUse(m, addr, addr + length)
      invariant munmaps > 0 ==> munmaps == 1 && !fails && ValidRange(addr, length, kernelMin) && InUse(m, addr, addr + length)
      invariant !fails ==> Values(RecsOf(s.nodes)) == Trim(m, addr, addr + length)
      invariant LinksFound(s, addr, addr + length, fails, prev, parent, left, k)
      invariant old(NoStray(s.host.table.Keys, Values(RecsOf(s.nodes)))) ==> NoStray(s.host.table.Keys, Values(RecsOf(s.nodes)))
      invariant old(s.nodes <= MappedOnes(s.host, s.nodes)) ==> s.nodes <= MappedOnes(s.host, s.nodes)
      decreases fails
    {
      var err := Vacate(s, addr, length, kernelMin, image);
      munmaps := munmaps + 1;
      if err != 0 {
        return;
      }
      fails, prev, parent, left, k := FindLinks(s, addr, addr + length);
    }
  }

  // ---------------------------------------------------------------- a new area

  /** The record that `mmap_region` and `do_brk` fill in. */
  method NewArea(addr: nat, end: nat, flags: bv64, prot: bv64, file: VmFile, pgoff: int) returns (vma: VmArea)
    ensures fresh(vma) && vma.start == addr && vma.end == end && vma.flags == flags && vma.prot == prot
    ensures vma.file == file && vma.pageOffset == pgoff && vma.physStart == -1
  {
    vma := new VmArea.Zalloc();
    vma.start, vma.end := addr, end;
    vma.flags := flags;
    vma.pageOffset := pgoff;
    vma.prot := prot;
    vma.file := file;
    vma.physStart := -1;
  }

  /** The links for `[addr, end)`, in terms of the known records. */
  ghost predicate PlaceFound(s: AddressSpace, addr: int, end: int, prev: VmArea?, parent: VmArea?, left: bool, k: int)
    reads s`root, s`nodes, s`order, s`span, s.nodes`rbLeft, s.nodes`rbRight, s.nodes`rbParent
    reads s.nodes`prev, s.nodes`next, s.nodes`start, s.nodes`end
  {
    && FitsBetween(ChainOf(s.nodes), s.order, k, addr, end) && EmptyLink(s.Tree(), parent, left, k)
    && prev == At(s.order, k - 1) && (k == 0 ==> parent == At(s.order, 0))
  }

  lemma FoundPlace(s: AddressSpace, addr: int, end: int, prev: VmArea?, parent: VmArea?, left: bool, k: int)
    requires Sane(s) && LinksFound(s, addr, end, false, prev, parent, left, k)
    requires 0 <= addr < end && Aligned(addr) && Aligned(end)
    ensures PlaceFound(s, addr, end, prev, parent, left, k) && FitsAt(s.order, k, addr, end)
    ensures prev == At(s.order, k - 1)
  {
    hide ChainOf, FitsBetween, Ascending, EmptyLink, Overlaps, PageAligned;
    FitsShown(s, null, k, addr, end);
  }

  lemma NewLinkable(s: AddressSpace, vma: VmArea, prev: VmArea?, parent: VmArea?, left: bool, k: int)
    requires Sane(s) && PlaceFound(s, vma.start, vma.end, prev, parent, left, k) && vma !in s.nodes
    ensures Linkable(s, vma, prev, parent, left, k) && 0 <= k <= |s.order|
  {
    hide Consistent, ChainOf, EmptyLink, StaleAt;
    SpansNodes(s, null);
    if k < |s.order| { OpenAt(s, null, k); }
    StaleMore(s, At(s.order, k));
  }

  /** A complete address space is one in which a given cache may be out of date. */
  lemma StaleMore(s: AddressSpace, v: VmArea?)
    requires Open(s, null) && (v == null || v in s.nodes)
    ensures Consistent(s.Now(), ChainOf(s.nodes), v)
  {
    OpenParts(s, null);
    hide Open;
  }

  /** An area without frames joins the others in the host memory. */
  lemma NewRoomed(h: Host, nodes: set<VmArea>, vma: VmArea, image: Image)
    requires Roomed(h, nodes) && Faithful(h, nodes, image) && vma.physStart == -1 && vma !in nodes
    requires vma.start < vma.end && Aligned(vma.start) && Aligned(vma.end)
    requires GrowsTo(h, vma.file, image, PageOf(vma.start), PageOf(vma.end), 0, 0, vma.pageOffset)
    ensures Roomed(h, nodes + {vma}) && Faithful(h, nodes + {vma}, image) && Replaceable(h, vma, image) && !InPlace(vma)
  {
  }

  lemma HostedParts(s: AddressSpace, image: Image)
    requires Hosted(s, image)
    ensures Roomed(s.host, s.nodes) && Faithful(s.host, s.nodes, image) && forall v :: v in s.nodes ==> InPlace(v)
  {
  }

  lemma AddedTop(m: Recs, list: seq<VmArea>, k: int, v: VmArea, r: Rec, end: int)
    requires RecsInOrder(m, list) && 0 <= k <= |list| && v !in m && r.end == end
    ensures TopOf(m[v := r], Inserted(list, k, v)) == if k == |list| then end else TopOf(m, list)
  {
    InsertedIndex(list, k, v);
  }

  lemma NewRecEnd(addr: int, end: int, flags: bv64, prot: bv64, file: VmFile, pgoff: int)
    ensures NewRec(addr, end, flags, prot, file, pgoff).end == end
  {
  }

  lemma NewRecAdded(nodes: set<VmArea>, m: Recs, vma: VmArea, addr: nat, end: nat, flags: bv64, prot: bv64, file: VmFile, pgoff: int)
    requires RecsOf(nodes) == m && vma !in nodes && vma.start == addr && vma.end == end && vma.prot == prot
    requires vma.file == file && vma.pageOffset == pgoff && vma.flags == flags
    ensures RecsOf(nodes + {vma}) == m[vma := NewRec(addr, end, flags, prot, file, pgoff)]
  {
    hide Essential;
    RecsAdded(nodes, vma);
  }

  /** A new area where nothing could be merged. */
  method AddArea(s: AddressSpace, prev: VmArea?, parent: VmArea?, left: bool, addr: nat, end: nat,
                 flags: bv64, prot: bv64, file: VmFile, pgoff: int, ghost k: int, ghost image: Image) returns (vma: VmArea)
    requires Sane(s) && Hosted(s, image) && PlaceFound(s, addr, end, prev, parent, left, k)
    requires addr < end && Aligned(addr) && Aligned(end)
    requires GrowsTo(s.host, file, image, PageOf(addr), PageOf(end), 0, 0, pgoff)
    modifies s`root, s`first, s`highest, s`nodes, s`order, s`span, s.nodes`prev, s.nodes`next
    modifies s.nodes`rbLeft, s.nodes`rbRight, s.nodes`rbParent, s.nodes`rbBlack, s.nodes`subtreeGap
    modifies s.host`next, s.host`table, s.host`ram, s.host`holes
    ensures fresh(vma) && s.nodes == old(s.nodes) + {vma} && vma.start == addr && vma.end == end
    ensures Sane(s) && Hosted(s, image)
    ensures RecsOf(s.nodes) == old(RecsOf(s.nodes))[vma := NewRec(addr, end, flags, prot, file, pgoff)]
    ensures old(s.nodes <= MappedOnes(s.host, s.nodes)) ==> s.nodes <= MappedOnes(s.host, s.nodes)
    ensures forall p :: !Covers(vma, p) ==> (p in s.host.table <==> p in old(s.host.table))
  {
    hide Sane, Open, Hosted, InPlace, Roomed, Faithful, PlaceFound, Linkable, GrowsTo, NewRec, Values, Covers, RecsOf, TopOf;
    hide RecsInOrder, Replaceable, Inserted, MappedOnes, Essential, RedBlack;
    ghost var m, list := RecsOf(s.nodes), s.order;
    SaneParts(s);
    SaneTop(s);
    HostedParts(s, image);
    vma := NewArea(addr, end, flags, prot, file, pgoff);
    NewLinkable(s, vma, prev, parent, left, k);
    NewRoomed(s.host, s.nodes, vma, image);
    NewRecEnd(addr, end, flags, prot, file, pgoff);
    AddedTop(m, list, k, vma, NewRec(addr, end, flags, prot, file, pgoff), end);
    NewRecAdded(s.nodes, m, vma, addr, end, flags, prot, file, pgoff);
    VmaLink(s, vma, prev, parent, left, k, image);
    SaneAgain(s, image);
  }

  // ---------------------------------------------------------------- merging or adding

  lemma SaneEnd(s: AddressSpace)
    requires Open(s, null)
    ensures Sane(s) <==> s.highest == EndOf(s.order)
  {
    OpenInOrder(s, null);
    if s.order != [] { assert s.order[|s.order| - 1] in RecsOf(s.nodes); }
  }

  lemma FitsShownRecs(s: AddressSpace, k: int, addr: int, end: int)
    requires Sane(s) && FitsAt(s.order, k, addr, end)
    ensures FitsRecs(RecsOf(s.nodes), s.order, k, addr, end)
  {
    hide Sane;
    SaneParts(s);
    StartsShown(s);
  }

  /** What a merge starts from. */
  lemma MergeWay(s: AddressSpace, k: int, addr: int, end: int, flags: bv64, prot: bv64, file: VmFile, pgoff: int)
    requires Sane(s) && FitsAt(s.order, k, addr, end) && 0 <= addr < end && Aligned(addr) && Aligned(end)
    ensures var x := NewRec(addr, end, flags, prot, file, pgoff);
      && WayOf(At(s.order, k - 1), At(s.order, k), addr, end, flags, file, pgoff) == WayIn(Values(RecsOf(s.nodes)), x)
      && WayFits(WayIn(Values(RecsOf(s.nodes)), x), RecsOf(s.nodes), At(s.order, k - 1), At(s.order, k), x)
  {
    hide Sane, RecsOf, Values, WayFits, WayIn, Essential, FitsAt, FitsRecs, RecsInOrder;
    var x := NewRec(addr, end, flags, prot, file, pgoff);
    SaneParts(s);
    SaneProper(s);
    FitsShownRecs(s, k, addr, end);
    WayIsIn(s.nodes, s.order, k, addr, end, flags, prot, file, pgoff);
    WayFitsNow(RecsOf(s.nodes), s.order, k, x);
  }

  /** The record that has the range after a merge, or when nothing is merged. */
  ghost function GrownRec(way: Way, m: Recs, prev: VmArea?, next: VmArea?, x: Rec): Rec
    requires WayFits(way, m, prev, next, x)
  {
    match way
    case Alone => x
    case Up => GrowUp(m[prev], x)
    case Down => GrowDown(m[next], x)
    case Both => GrowUp(m[prev], m[next])
  }

  /** The areas that a merge takes over. */
  ghost function GoneOf(way: Way, m: Recs, prev: VmArea?, next: VmArea?, x: Rec): Regions
    requires WayFits(way, m, prev, next, x)
  {
    match way
    case Alone => {}
    case Up => {m[prev]}
    case Down => {m[next]}
    case Both => {m[prev], m[next]}
  }

  lemma InProper(s: Regions, r: Rec)
    requires Proper(s) && r in s
    ensures ProperRec(r)
  {
  }

  lemma NewIs(way: Way, m: Recs, prev: VmArea?, next: VmArea?, x: Rec)
    requires WayFits(way, m, prev, next, x) && forall r :: r in Values(m) ==> ApartRecs(r, x)
    ensures var n := GrownRec(way, m, prev, next, x);
      && Merged(Values(m), x) == Values(m) - GoneOf(way, m, prev, next, x) + {n} && Proper(Merged(Values(m), x))
      && n.start <= x.start < x.end <= n.end
    ensures way == Both ==> m[next] in AreasAbove(Values(m), x)
  {
    hide Values, Proper, ApartRecs, Merged, WayIn;
    MergedProper(Values(m), x);
    if way == Up || way == Both {
      InValues(m, prev);
      InProper(Values(m), m[prev]);
      assert m[prev] in AreasBelow(Values(m), x);
      OneNeighbour(Values(m), x, m[prev]);
    }
    if way == Down || way == Both {
      InValues(m, next);
      InProper(Values(m), m[next]);
      assert m[next] in AreasAbove(Values(m), x);
      OneNeighbour(Values(m), x, m[next]);
    }
    match way
    case Alone => MergedAlone(Values(m), x);
    case Up => MergedUp(Values(m), x, m[prev]);
    case Down => MergedDown(Values(m), x, m[next]);
    case Both => MergedBoth(Values(m), x, m[prev], m[next]);
  }

  /** Of a page of an area that is not taken over, or that has no file, the same is told as before. */
  lemma OtherTold(h: Host, t: Regions, c: Image, x: Rec, gone: Regions, n: Rec, r: Rec, p: int)
    requires Merged(t, x) == t - gone + {n} && Proper(Merged(t, x)) && n.start <= x.start < x.end <= n.end
    requires r in t && ApartRecs(r, x) && PageIn(r, p) && ProperRec(r) && ProperRec(x) && p in Filled(h, t, c, x)
    requires r !in gone || (n.file == r.file && r.file.fd == -1)
    ensures p in c && Filled(h, t, c, x)[p] == c[p]
  {
    hide Merged, FileAt, Swallowed, Filled;
    FilledAt(h, t, c, x, n, p);
    if r !in gone { assert r == n || ApartRecs(r, n); }
  }

  /** With the new range mapped, what is told holds already of all areas but the one that grows, if that has a file. */
  lemma OthersHosted(s: AddressSpace, m: Recs, image: Image, way: Way, prev: VmArea?, next: VmArea?, x: Rec, v: VmArea?)
    requires Hosted(s, image) && m == RecsOf(s.nodes) && WayFits(way, m, prev, next, x) && forall r :: r in Values(m) ==> ApartRecs(r, x)
    requires v == match way case Alone => null case Up => prev case Down => next case Both => prev
    ensures v == null ==> Hosted(s, Filled(s.host, Values(m), image, x))
    ensures v != null ==> v in s.nodes && HostedBut(s, v, Filled(s.host, Values(m), image, x))
  {
    hide WayFits, Filled, Lodged, Keeps, PageIn, Values, Merged, Proper, GrownRec, GoneOf, Swallowed, ApartRecs, ProperRec;
    NewIs(way, m, prev, next, x);
    var t, told, gone, n := Values(m), Filled(s.host, Values(m), image, x), GoneOf(way, m, prev, next, x), GrownRec(way, m, prev, next, x);
    forall w, p | w in s.nodes && p in told && Keeps(w, p) && (w != v || w.file.fd == -1)
      ensures Due(s.host, w, p) == told[p]
    {
      KeptPage(s, w, p);
      InPlaceHere(s, w);
      FileOf(w);
      RecsHave(s.nodes, w);
      OtherFits(way, m, prev, next, x, w, v, p);
      OtherTold(s.host, t, image, x, gone, n, RecOf(w), p);
      assert Due(s.host, w, p) == image[p];
    }
    GrowerIn(way, m, prev, next, x, v);
  }

  lemma GrowerIn(way: Way, m: Recs, prev: VmArea?, next: VmArea?, x: Rec, v: VmArea?)
    requires WayFits(way, m, prev, next, x)
    requires v == match way case Alone => null case Up => prev case Down => next case Both => prev
    ensures v != null ==> v in m
  {
  }

  /** Why an area other than the one that grows, or without a file, is as told: it stays, or is swallowed, or has the file of the new one. */
  lemma OtherFits(way: Way, m: Recs, prev: VmArea?, next: VmArea?, x: Rec, w: VmArea, v: VmArea?, p: int)
    requires WayFits(way, m, prev, next, x) && w in m && PageIn(m[w], p) && !Swallowed(Values(m), x, p)
    requires way == Both ==> m[next] in AreasAbove(Values(m), x)
    requires v == match way case Alone => null case Up => prev case Down => next case Both => prev
    requires w != v || m[w].file.fd == -1
    ensures ProperRec(m[w]) && ProperRec(x)
    ensures m[w] !in GoneOf(way, m, prev, next, x) || (GrownRec(way, m, prev, next, x).file == m[w].file && m[w].file.fd == -1)
  {
    hide JoinsBelow, JoinsAbove, AreasAbove, PageIn;
    InValues(m, w);
  }

  /** What is told of the area that grows is what it will hold. */
  lemma GrowerTold(h: Host, m: Recs, image: Image, way: Way, prev: VmArea?, next: VmArea?, x: Rec)
    requires WayFits(way, m, prev, next, x) && forall r :: r in Values(m) ==> ApartRecs(r, x)
    ensures var n, told := GrownRec(way, m, prev, next, x), Filled(h, Values(m), image, x);
      && (way == Alone ==> GrowsTo(h, n.file, told, PageOf(n.start), PageOf(n.end), 0, 0, n.offset))
      && (way == Up || way == Both ==>
            GrowsTo(h, n.file, told, PageOf(n.start), PageOf(n.end), PageOf(m[prev].start), PageOf(m[prev].end), n.offset))
      && (way == Down ==>
            GrowsTo(h, n.file, told, PageOf(n.start), PageOf(n.end), PageOf(m[next].start), PageOf(m[next].end), n.offset))
  {
    hide WayFits, Filled, Values, Merged, Proper, Swallowed, ApartRecs, GrownRec, GoneOf;
    NewIs(way, m, prev, next, x);
    var n, told := GrownRec(way, m, prev, next, x), Filled(h, Values(m), image, x);
    forall p | p in told && PageOf(n.start) <= p < PageOf(n.end)
      ensures told[p] == if n.file.fd != -1 then FileAt(h, n, p) else if PageIn(x, p) then h.Zero() else image[p]
    {
      GrowerIs(way, m, prev, next, x);
      FilledAt(h, Values(m), image, x, n, p);
    }
    GrowerRange(way, m, prev, next, x);
  }

  lemma GrowerIs(way: Way, m: Recs, prev: VmArea?, next: VmArea?, x: Rec)
    requires WayFits(way, m, prev, next, x) && forall r :: r in Values(m) ==> ApartRecs(r, x)
    ensures GrownRec(way, m, prev, next, x) in Merged(Values(m), x)
  {
    hide WayFits, Values, Merged, Proper, ApartRecs, GrownRec, GoneOf;
    NewIs(way, m, prev, next, x);
  }

  /** Outside the new range the grown area has what it had, and what has been swallowed. */
  lemma GrowerRange(way: Way, m: Recs, prev: VmArea?, next: VmArea?, x: Rec)
    requires WayFits(way, m, prev, next, x)
    ensures var n := GrownRec(way, m, prev, next, x);
      forall p :: PageOf(n.start) <= p < PageOf(n.end) && !PageIn(x, p) ==>
        match way case Alone => false case Up => PageIn(m[prev], p) case Down => PageIn(m[next], p)
                  case Both => PageIn(m[prev], p) || Swallowed(Values(m), x, p)
  {
    hide KindIn, Pages;
    if way == Both {
      InValues(m, next);
      assert m[next] in AreasAbove(Values(m), x);
    }
  }

  /** What a merge starts from. */
  lemma JoinForeseen(s: AddressSpace, m: Recs, prev: VmArea?, next: VmArea?, image: Image, way: Way, x: Rec)
    requires Hosted(s, image) && m == RecsOf(s.nodes) && WayFits(way, m, prev, next, x) && forall r :: r in Values(m) ==> ApartRecs(r, x)
    ensures var told := Filled(s.host, Values(m), image, x);
      && Foreseen(s, told, way, prev, next, x.start, x.end, Pages(x.file, x.end - x.start))
      && (way == Alone ==> GrowsTo(s.host, x.file, told, PageOf(x.start), PageOf(x.end), 0, 0, x.offset))
  {
    hide Filled, Values, Swallowed, ApartRecs, Hosted, HostedBut, GrowsTo, Proper, ProperRec, JoinsBelow, JoinsAbove;
    var v := match way case Alone => null case Up => prev case Down => next case Both => prev;
    OthersHosted(s, m, image, way, prev, next, x, v);
    GrowerTold(s.host, m, image, way, prev, next, x);
    if v != null { RecsHave(s.nodes, v); }
    if way == Both { RecsHave(s.nodes, next); }
  }

  /** Nothing is in the way. */
  lemma FitsApart(m: Recs, list: seq<VmArea>, k: int, x: Rec)
    requires RecsInOrder(m, list) && FitsRecs(m, list, k, x.start, x.end)
    ensures forall r :: r in Values(m) ==> ApartRecs(r, x)
  {
    forall r | r in Values(m)
      ensures ApartRecs(r, x)
    {
      var v: VmArea :| v in m && m[v] == r;
      var i :| 0 <= i < |list| && list[i] == v;
    }
  }

  lemma MergeReady(s: AddressSpace, prev: VmArea?, k: int, addr: int, end: int, flags: bv64, prot: bv64, file: VmFile, pgoff: int, image: Image)
    requires Sane(s) && Hosted(s, image) && FitsAt(s.order, k, addr, end) && prev == At(s.order, k - 1)
    requires 0 <= addr < end && Aligned(addr) && Aligned(end)
    ensures var x, m, next := NewRec(addr, end, flags, prot, file, pgoff), RecsOf(s.nodes), At(s.order, k);
      var way, told := WayIn(Values(m), x), Filled(s.host, Values(m), image, x);
      && Open(s, null) && s.highest == EndOf(s.order) && 0 <= k <= |s.order| && (next != null ==> k < |s.order| && next in s.nodes)
      && way == WayOf(prev, next, addr, end, flags, file, pgoff) && WayFits(way, m, prev, next, x)
      && Foreseen(s, told, way, prev, next, addr, end, Pages(file, end - addr))
      && (way == Alone ==> Hosted(s, told) && GrowsTo(s.host, file, told, PageOf(addr), PageOf(end), 0, 0, pgoff))
  {
    hide Open, Hosted, HostedBut, Growable, GrowsTo, Values, RecsOf, EndOf, TopOf, RecsInOrder, FitsRecs, FitsAt, WayFits, WayIn;
    hide WayOf, Filled, NewRec, Proper, ApartRecs, Sane;
    var x := NewRec(addr, end, flags, prot, file, pgoff);
    NewRecIs(addr, end, flags, prot, file, pgoff);
    SaneParts(s);
    SaneEnd(s);
    MergePlace(s, k, addr, end);
    MergeWay(s, k, addr, end, flags, prot, file, pgoff);
    FitsShownRecs(s, k, addr, end);
    FitsApart(RecsOf(s.nodes), s.order, k, x);
    JoinForeseen(s, RecsOf(s.nodes), prev, At(s.order, k), image, WayIn(Values(RecsOf(s.nodes)), x), x);
  }

  /** `v` has the range among its own. */
  ghost predicate Spanning(m: Recs, v: VmArea, addr: int, end: int) {
    v in m && m[v].start <= addr && end <= m[v].end
  }

  lemma MergedSpans(way: Way, m: Recs, prev: VmArea?, next: VmArea?, x: Rec, v: VmArea)
    requires way != Alone && WayFits(way, m, prev, next, x)
    requires v == if way == Down then next else prev
    ensures Spanning(MergedRecs(way, m, prev, next, x.start, x.end, Pages(x.file, x.end - x.start)), v, x.start, x.end)
  {
    if way != Down { InValues(m, prev); }
    if way != Up { InValues(m, next); }
    if way == Both { DifferentSides(m[prev], m[next], x, Values(m)); }
  }

  /** The areas have the pages from `lo` to `hi`, but none of them is translated. */
  ghost predicate Missing(t: set<int>, s: Regions, lo: int, hi: int) {
    lo < hi && forall p :: lo <= p < hi ==> p !in t && HasPage(s, p)
  }

  /** After a merge on both sides the pages of the swallowed area are missing from the page tables. */
  lemma BothMissing(s: AddressSpace, m: Recs, prev: VmArea, next: VmArea, x: Rec)
    requires WayFits(Both, m, prev, next, x)
    requires RecsOf(s.nodes) == MergedRecs(Both, m, prev, next, x.start, x.end, Pages(x.file, x.end - x.start))
    requires forall p :: PageIn(m[next], p) ==> p !in s.host.table
    ensures prev in s.nodes && PageOf(prev.end) == PageOf(m[next].end)
    ensures Missing(s.host.table.Keys, Values(RecsOf(s.nodes)), PageOf(x.end), PageOf(prev.end))
  {
    InValues(m, prev);
    InValues(m, next);
    DifferentSides(m[prev], m[next], x, Values(m));
    assert prev in RecsOf(s.nodes);
    RecsHave(s.nodes, prev);
    InValues(RecsOf(s.nodes), prev);
    assert ProperRec(m[prev]) && ProperRec(m[next]);
    forall p | PageOf(x.end) <= p < PageOf(prev.end)
      ensures PageIn(RecsOf(s.nodes)[prev], p) && PageIn(m[next], p)
    {
    }
  }

  /** No stray translation comes with a merge or a new area. */
  lemma MergedNoStray(t: set<int>, u: set<int>, s: Regions, x: Rec)
    requires NoStray(t, s) && Proper(s) && ProperRec(x)
    requires forall p :: !HasPage(Merged(s, x), p) ==> (p in u <==> p in t)
    ensures NoStray(u, Merged(s, x))
  {
    hide HasPage, Merged, Proper, ProperRec;
    forall p | p in u
      ensures HasPage(Merged(s, x), p)
    {
      MergedPages(s, x, p);
    }
  }

  lemma CoveredPage(nodes: set<VmArea>, v: VmArea)
    requires v in nodes
    ensures forall p :: Covers(v, p) ==> HasPage(Values(RecsOf(nodes)), p)
    ensures forall p :: Covers(v, p) <==> PageIn(RecsOf(nodes)[v], p)
  {
    RecsHave(nodes, v);
    InValues(RecsOf(nodes), v);
  }

  lemma BothCovered(s: AddressSpace, m: Recs, prev: VmArea, next: VmArea, x: Rec, p: int)
    requires WayFits(Both, m, prev, next, x) && PageIn(m[next], p)
    requires RecsOf(s.nodes) == MergedRecs(Both, m, prev, next, x.start, x.end, Pages(x.file, x.end - x.start))
    ensures HasPage(Values(RecsOf(s.nodes)), p)
  {
    InValues(m, prev);
    InValues(m, next);
    DifferentSides(m[prev], m[next], x, Values(m));
    assert ProperRec(m[prev]) && ProperRec(m[next]);
    assert prev in RecsOf(s.nodes);
    InValues(RecsOf(s.nodes), prev);
    assert PageIn(RecsOf(s.nodes)[prev], p);
  }

  /** A new area adds exactly its record. */
  lemma AddedNew(m: Recs, v: VmArea, x: Rec)
    requires v !in m && WayIn(Values(m), x) == Alone
    ensures Values(m[v := x]) == Merged(Values(m), x) && Spanning(m[v := x], v, x.start, x.end)
  {
    AddedValues(m, v, x);
  }

  /** `vma_merge`, and a new area if that finds nothing to merge with. */
  method MergeOrAdd(s: AddressSpace, prev: VmArea?, parent: VmArea?, left: bool, addr: nat, end: nat,
                    flags: bv64, prot: bv64, file: VmFile, pgoff: int, ghost k: int, ghost image: Image)
    returns (vma: VmArea, ghost way: Way)
    requires Sane(s) && Hosted(s, image) && LinksFound(s, addr, end, false, prev, parent, left, k)
    requires addr < end && Aligned(addr) && Aligned(end)
    modifies s.nodes`start, s.nodes`end, s.nodes`pageOffset
    modifies s`root, s`first, s`highest, s`nodes, s`order, s`span, s.nodes`prev, s.nodes`next
    modifies s.nodes`rbLeft, s.nodes`rbRight, s.nodes`rbParent, s.nodes`rbBlack, s.nodes`subtreeGap
    modifies s.host`next, s.host`table, s.host`ram, s.host`holes
    modifies s.nodes`physStart, s.nodes`physEnd, s.nodes`oldStart, s.nodes`oldEnd, s.nodes`flags
    ensures Sane(s) && fresh(s.nodes - old(s.nodes)) && vma in s.nodes
    ensures Hosted(s, Filled(s.host, old(Values(RecsOf(s.nodes))), image, NewRec(addr, end, flags, prot, file, pgoff)))
    ensures way == WayIn(old(Values(RecsOf(s.nodes))), NewRec(addr, end, flags, prot, file, pgoff))
    ensures Values(RecsOf(s.nodes)) == Merged(old(Values(RecsOf(s.nodes))), NewRec(addr, end, flags, prot, file, pgoff))
    ensures Spanning(RecsOf(s.nodes), vma, addr, end)
    ensures forall p :: !HasPage(Values(RecsOf(s.nodes)), p) ==> (p in s.host.table <==> p in old(s.host.table))
    ensures way == Both ==> Missing(s.host.table.Keys, Values(RecsOf(s.nodes)), PageOf(end), PageOf(vma.end))
    ensures old(s.nodes <= MappedOnes(s.host, s.nodes)) && way != Both ==> s.nodes <= MappedOnes(s.host, s.nodes)
    ensures old(s.nodes <= MappedOnes(s.host, s.nodes)) && way == Both ==> Translates(s.host.table, s.nodes, PageOf(end), PageOf(vma.end))
  {
    hide Sane, Open, Hosted, RecsOf, LinksFound, PlaceFound, FitsAt, EndOf, MappedOnes, Foreseen, GrowsTo, WayFits, Spanning, Filled;
    hide MergedRecs, Essential, NewRec, Covers, Merged, WayIn, WayOf, Values, HasPage, PageIn, Missing, Translates, RecsInOrder;
    ghost var m, next, x := RecsOf(s.nodes), At(s.order, k), NewRec(addr, end, flags, prot, file, pgoff);
    NewRecIs(addr, end, flags, prot, file, pgoff);
    FoundPlace(s, addr, end, prev, parent, left, k);
    SaneParts(s);
    way := WayIn(Values(m), x);
    ghost var told := Filled(s.host, Values(m), image, x);
    MergeReady(s, prev, k, addr, end, flags, prot, file, pgoff, image);
    BothNext(way, s.nodes, prev, next, x);
    if next != null { CoveredPage(s.nodes, next); }
    var merged := VmaMerge(s, prev, addr, end, flags, file, pgoff, k, way, told);
    if merged == null {
      vma := AddArea(s, prev, parent, left, addr, end, flags, prot, file, pgoff, k, told);
      AddedNew(m, vma, x);
    } else {
      vma := merged;
      MergedIsModel(way, m, prev, next, x);
      MergedSpans(way, m, prev, next, x, vma);
      SaneEnd(s);
      if way == Both {
        BothMissing(s, m, prev, next, x);
        forall p | PageIn(m[next], p)
          ensures HasPage(Values(RecsOf(s.nodes)), p)
        {
          BothCovered(s, m, prev, next, x, p);
        }
      }
    }
    SpanningIn(s.nodes, vma, addr, end);
    CoveredPage(s.nodes, vma);
  }

  lemma NewRecIs(addr: int, end: int, flags: bv64, prot: bv64, file: VmFile, pgoff: int)
    ensures var x := NewRec(addr, end, flags, prot, file, pgoff); x.start == addr && x.end == end && x.file == file && x.offset == pgoff
  {
  }

  /** The area that a merge on both sides swallows. */
  lemma BothNext(way: Way, nodes: set<VmArea>, prev: VmArea?, next: VmArea?, x: Rec)
    requires WayFits(way, RecsOf(nodes), prev, next, x)
    ensures way == Both ==> next != null && next in nodes && prev != null && prev in nodes
    ensures way == Both ==> next in RecsOf(nodes) && PageOf(next.start) == PageOf(x.end) && PageOf(next.end) == PageOf(RecsOf(nodes)[next].end)
  {
    if way == Both { RecsHave(nodes, next); }
  }

  lemma SpanningIn(nodes: set<VmArea>, v: VmArea, addr: int, end: int)
    requires Spanning(RecsOf(nodes), v, addr, end)
    ensures v in nodes
  {
  }

  // ---------------------------------------------------------------- mmap_region and do_brk

  /**
   The page tables after a range has been mapped anew: exact, unless two areas became one. Then exactly the
   pages from `lo` to `hi`, those of the area that was swallowed, are missing.
   */
  ghost predicate TablesFollow(s: AddressSpace, bridged: bool, lo: int, hi: int)
    reads s`nodes, s.host`table, s.nodes`start, s.nodes`end, s.nodes`oldStart, s.nodes`oldEnd, s.nodes`physStart, s.nodes`physEnd
    reads s.nodes`file, s.nodes`prot, s.nodes`flags, s.nodes`pageOffset
  {
    if bridged then
      && NoStray(s.host.table.Keys, Values(RecsOf(s.nodes))) && Translates(s.host.table, s.nodes, lo, hi)
      && Missing(s.host.table.Keys, Values(RecsOf(s.nodes)), lo, hi)
    else Exact(s)
  }

  /** Missing pages are pages of areas: the page tables are not exact. */
  lemma MissingInexact(s: AddressSpace, lo: int, hi: int)
    requires Missing(s.host.table.Keys, Values(RecsOf(s.nodes)), lo, hi)
    ensures !(s.nodes <= MappedOnes(s.host, s.nodes))
  {
    assert lo !in s.host.table.Keys && HasPage(Values(RecsOf(s.nodes)), lo);
    var r :| r in Values(RecsOf(s.nodes)) && PageIn(r, lo);
    var v: VmArea :| v in RecsOf(s.nodes) && RecsOf(s.nodes)[v] == r;
    RecsHave(s.nodes, v);
    assert Covers(v, lo) && !s.host.Mapped(v);
  }

  /** Every page from `lo` to `hi` is translated, and reads the file of `v` at the byte that its record says, or 4096 zero bytes. */
  ghost predicate ReadsAfresh(s: AddressSpace, v: VmArea, lo: int, hi: int)
    reads s.host, v`start, v`file, v`pageOffset
  {
    forall p :: lo <= p * 4096 < hi ==>
      && p in s.host.table
      && (v.file.fd != -1 ==> s.host.Read(p) == s.host.files(v.file, v.pageOffset + (p * 4096 - v.start)))
      && (v.file.fd == -1 ==> |s.host.Read(p)| == 4096 && forall i :: 0 <= i < 4096 ==> s.host.Read(p)[i] == 0)
  }

  /** The area has just the range, and what was asked for; the host's own two flags do not count. */
  ghost predicate IsJust(v: VmArea, start: int, end: int, flags: bv64, prot: bv64, file: VmFile, pgoff: int)
    reads v`start, v`end, v`flags, v`prot, v`file, v`pageOffset
  {
    && v.start == start && v.end == end && v.prot == prot && v.file == file && v.pageOffset == pgoff
    && v.flags | 0x60 == flags | 0x60
  }

  lemma FollowsTranslates(s: AddressSpace, bridged: bool, lo: int, hi: int)
    requires TablesFollow(s, bridged, lo, hi)
    ensures Translates(s.host.table, s.nodes, lo, hi)
  {
    AllMapped(s.host, s.nodes);
  }

  /** What the guest reads in the range that has been mapped: the file at the byte that the area's record says, or zero bytes. */
  lemma RangeReads(s: AddressSpace, old_: Regions, image: Image, x: Rec, v: VmArea, lo: int, hi: int, p: int)
    requires Hosted(s, Remapped(s.host, old_, image, x)) && Values(RecsOf(s.nodes)) == Remap(old_, x) && Proper(old_) && ProperRec(x)
    requires v in s.nodes && Spanning(RecsOf(s.nodes), v, x.start, x.end)
    requires Translates(s.host.table, s.nodes, lo, hi) && PageOf(x.end) <= lo && x.start <= p * 4096 < x.end
    ensures p in s.host.table
    ensures v.file.fd != -1 ==> s.host.Read(p) == s.host.files(v.file, v.pageOffset + (p * 4096 - v.start))
    ensures v.file.fd == -1 ==> |s.host.Read(p)| == 4096 && forall i :: 0 <= i < 4096 ==> s.host.Read(p)[i] == 0
  {
    hide Lodged, Keeps, Remap, Remapped, Values, Translates, Host.Shows, Host.Contents, Host.Read, FileAt, Proper, Host.Zero;
    var told := Remapped(s.host, old_, image, x);
    var n := RecOf(v);
    SpannedPage(s, v, x, p);
    RemapProper(old_, x);
    KeptPage(s, v, p);
    InProper(Remap(old_, x), n);
    InPlaceHere(s, v);
    RangeTold(s.host, old_, image, x, p);
    RemappedAt(s.host, old_, image, x, n, p);
    FrameReads(s, v, lo, hi, p);
    assert Due(s.host, v, p) == told[p];
    FileRec(s.host, v, p);
    s.host.ZeroPage();
  }

  lemma SpannedPage(s: AddressSpace, v: VmArea, x: Rec, p: int)
    requires Spanning(RecsOf(s.nodes), v, x.start, x.end) && ProperRec(x) && x.start <= p * 4096 < x.end
    ensures PageIn(RecOf(v), p) && PageIn(x, p) && RecOf(v).file == v.file
  {
    RecsHave(s.nodes, v);
  }

  lemma RangeTold(h: Host, old_: Regions, image: Image, x: Rec, p: int)
    requires Proper(old_) && ProperRec(x) && PageIn(x, p)
    ensures p in Remapped(h, old_, image, x)
  {
    hide Trim, Proper, JoinsAbove;
    TrimReady(old_, x);
    forall w | w in AreasAbove(Trim(old_, x.start, x.end), x)
      ensures !PageIn(w, p)
    {
      JoinsBehind(w, x);
    }
  }

  lemma JoinsBehind(w: Rec, x: Rec)
    requires JoinsAbove(w, x)
    ensures w.start == x.end
  {
  }

  lemma FrameReads(s: AddressSpace, v: VmArea, lo: int, hi: int, p: int)
    requires v in s.nodes && Covers(v, p) && Translates(s.host.table, s.nodes, lo, hi) && p < lo
    ensures p in s.host.table && s.host.Read(p) == s.host.Shows(v, p)
  {
  }

  lemma FileRec(h: Host, v: VmArea, p: int)
    requires Aligned(v.start)
    ensures FileAt(h, RecOf(v), p) == h.files(v.file, v.pageOffset + (p * 4096 - v.start))
  {
    FilePlace(h, RecOf(v), p);
  }

  lemma AloneRecs(nodes: set<VmArea>, addr: int, end: int)
    requires forall v :: v in nodes ==> v.end < addr || end < v.start
    ensures forall r :: r in Values(RecsOf(nodes)) ==> r.end < addr || end < r.start
  {
    forall r | r in Values(RecsOf(nodes))
      ensures r.end < addr || end < r.start
    {
      var v: VmArea :| v in RecsOf(nodes) && RecsOf(nodes)[v] == r;
      RecsHave(nodes, v);
    }
  }

  lemma SpanningRange(nodes: set<VmArea>, v: VmArea, addr: int, end: int)
    requires Spanning(RecsOf(nodes), v, addr, end)
    ensures v.start <= addr && end <= v.end
  {
    RecsHave(nodes, v);
  }

  /** An area all by itself: it has just the range, and what was asked for. */
  lemma AloneIs(s: AddressSpace, old_: Regions, v: VmArea, addr: nat, end: nat, flags: bv64, prot: bv64, file: VmFile, pgoff: int)
    requires Values(RecsOf(s.nodes)) == Remap(old_, NewRec(addr, end, flags, prot, file, pgoff)) && Spanning(RecsOf(s.nodes), v, addr, end)
    requires Proper(old_) && addr < end && Aligned(addr) && Aligned(end) && forall r :: r in old_ ==> r.end < addr || end < r.start
    ensures IsJust(v, addr, end, flags, prot, file, pgoff)
  {
    hide Remap, Essential;
    NewRecProper(addr, end, flags, prot, file, pgoff);
    RecsHave(s.nodes, v);
    InValues(RecsOf(s.nodes), v);
    AloneRec(old_, NewRec(addr, end, flags, prot, file, pgoff), RecOf(v));
    FlagBits(v.flags, flags);
  }

  lemma AloneRec(old_: Regions, x: Rec, n: Rec)
    requires Proper(old_) && ProperRec(x) && n in Remap(old_, x) && n.start <= x.start && x.end <= n.end
    requires forall r :: r in old_ ==> r.end < x.start || x.end < r.start
    ensures n == x
  {
    hide Trim;
    TrimNothing(old_, x.start, x.end);
    assert AreasBelow(old_, x) == {} && AreasAbove(old_, x) == {};
    MergedAlone(old_, x);
  }

  lemma FlagBits(a: bv64, b: bv64)
    ensures Essential(a) == Essential(b) ==> a | 0x60 == b | 0x60
  {
  }

  lemma AllReads(s: AddressSpace, old_: Regions, image: Image, x: Rec, v: VmArea)
    requires Hosted(s, Remapped(s.host, old_, image, x)) && Values(RecsOf(s.nodes)) == Remap(old_, x) && Proper(old_) && ProperRec(x)
    requires v in s.nodes && Spanning(RecsOf(s.nodes), v, x.start, x.end) && TablesFollow(s, Bridges(old_, x), PageOf(x.end), PageOf(v.end))
    ensures ReadsAfresh(s, v, x.start, x.end)
  {
    hide Hosted, Remapped, Remap, Values, Spanning, TablesFollow, Translates, Bridges, Host.Read;
    FollowsTranslates(s, Bridges(old_, x), PageOf(x.end), PageOf(v.end));
    forall p | x.start <= p * 4096 < x.end
      ensures p in s.host.table
      ensures v.file.fd != -1 ==> s.host.Read(p) == s.host.files(v.file, v.pageOffset + (p * 4096 - v.start))
      ensures v.file.fd == -1 ==> |s.host.Read(p)| == 4096 && forall i :: 0 <= i < 4096 ==> s.host.Read(p)[i] == 0
    {
      RangeReads(s, old_, image, x, v, PageOf(x.end), PageOf(v.end), p);
    }
  }

  /**
   Both calls for a page-aligned range: `[addr, addr + length)` is cleared and then mapped anew. They fail,
   and change nothing, exactly when the range is in use and `syscall_munmap` refuses it.
   */
  method MapRange(s: AddressSpace, file: VmFile, addr: nat, length: nat, flags: bv64, prot: bv64, offset: int, kernelMin: nat,
                  ghost image: Image)
    returns (vma: VmArea?, ghost munmaps: nat)
    requires Sane(s) && Hosted(s, image)
    requires Aligned(addr) && 0 < length && Aligned(length) && addr + length < WORD && Aligned(kernelMin) && kernelMin < WORD
    modifies s.nodes`start, s.nodes`end, s.nodes`pageOffset
    modifies s`root, s`first, s`highest, s`nodes, s`order, s`span, s.nodes`prev, s.nodes`next
    modifies s.nodes`rbLeft, s.nodes`rbRight, s.nodes`rbParent, s.nodes`rbBlack, s.nodes`subtreeGap
    modifies s.host`next, s.host`table, s.host`ram, s.host`holes
    modifies s.nodes`physStart, s.nodes`physEnd, s.nodes`oldStart, s.nodes`oldEnd, s.nodes`flags
    ensures vma == null <==> old(InUse(Values(RecsOf(s.nodes)), addr, addr + length)) && !ValidRange(addr, length, kernelMin)
    ensures vma == null ==> unchanged(s) && unchanged(old(s.nodes)) && unchanged(s.host)
    ensures munmaps == if old(InUse(Values(RecsOf(s.nodes)), addr, addr + length)) then 1 else 0
    ensures Sane(s) && fresh(s.nodes - old(s.nodes)) && (vma == null ==> Hosted(s, image))
    ensures vma != null ==>
              var x, old_ := NewRec(addr, addr + length, flags, prot, file, offset), old(Values(RecsOf(s.nodes)));
              && vma in s.nodes && Spanning(RecsOf(s.nodes), vma, addr, addr + length)
              && Values(RecsOf(s.nodes)) == Remap(old_, x)
              && Hosted(s, Remapped(s.host, old_, image, x))
              && (old(Exact(s)) ==> TablesFollow(s, Bridges(old_, x), PageOf(addr + length), PageOf(vma.end)))
  {
    hide Sane, Hosted, RecsOf, LinksFound, MappedOnes, Merged, Trim, Trimmed, Filled, InUse, ValidRange, Essential, NewRec;
    hide Values, HasPage, Bridges;
    hide Translates, Missing, Spanning, Proper, ProperRec, WayIn, NoStray;
    ghost var old_, x := Values(RecsOf(s.nodes)), NewRec(addr, addr + length, flags, prot, file, offset);
    SaneProper(s);
    NewRecProper(addr, addr + length, flags, prot, file, offset);
    BridgesIsBoth(old_, x);
    TrimReady(old_, x);
    var fails, prev, parent, left;
    ghost var k;
    fails, prev, parent, left, k, munmaps := MakeRoom(s, addr, length, kernelMin, image);
    if fails {
      vma := null;
      return;
    }
    ghost var t := s.host.table.Keys;
    ghost var way;
    ghost var cleared := Trimmed(s.host, old_, image, addr, addr + length);
    vma, way := MergeOrAdd(s, prev, parent, left, addr, addr + length, flags, prot, file, offset, k, cleared);
    if NoStray(t, Trim(old_, x.start, x.end)) { MergedNoStray(t, s.host.table.Keys, Trim(old_, x.start, x.end), x); }
  }

  lemma NewRecProper(addr: nat, end: nat, flags: bv64, prot: bv64, file: VmFile, pgoff: int)
    requires addr < end && Aligned(addr) && Aligned(end)
    ensures var x := NewRec(addr, end, flags, prot, file, pgoff); ProperRec(x) && x.start == addr && x.end == end && x.start < x.end
  {
  }

  const VMA_READ: bv64 := 1
  const VMA_WRITE: bv64 := 2
  const VMA_EXEC: bv64 := 4

  /** What the calls make of the areas: they fail, or the range of `x` is mapped anew. */
  ghost predicate MapsAnew(s: Regions, t: Regions, x: Rec, kernelMin: nat, fails: bool) {
    && fails == (InUse(s, x.start, x.end) && x.end > kernelMin)
    && t == if fails then s else Remap(s, x)
  }

  /** `mmap_region`; `NO_FILE` stands for a null file as well. */
  method MmapRegion(s: AddressSpace, file: VmFile, addr: nat, length: nat, flags: bv64, prot: bv64, offset: int, kernelMin: nat,
                    ghost image: Image)
    returns (r: nat, vmaOut: VmArea?)
    requires Sane(s) && Hosted(s, image)
    requires Aligned(addr) && 0 < length && Aligned(length) && addr + length < WORD && Aligned(kernelMin) && kernelMin < WORD
    modifies s.nodes`start, s.nodes`end, s.nodes`pageOffset
    modifies s`root, s`first, s`highest, s`nodes, s`order, s`span, s.nodes`prev, s.nodes`next
    modifies s.nodes`rbLeft, s.nodes`rbRight, s.nodes`rbParent, s.nodes`rbBlack, s.nodes`subtreeGap
    modifies s.host`next, s.host`table, s.host`ram, s.host`holes
    modifies s.nodes`physStart, s.nodes`physEnd, s.nodes`oldStart, s.nodes`oldEnd, s.nodes`flags
    ensures r == if vmaOut == null then 0xFFFF_FFFF_FFFF_FFF4 else addr
    ensures MapsAnew(old(Values(RecsOf(s.nodes))), Values(RecsOf(s.nodes)),
                     NewRec(addr, addr + length, flags, prot, file, offset), kernelMin, vmaOut == null)
    ensures vmaOut != null ==> vmaOut in s.nodes && Spanning(RecsOf(s.nodes), vmaOut, addr, addr + length)
    ensures vmaOut == null ==> unchanged(s) && unchanged(old(s.nodes)) && unchanged(s.host)
    ensures Sane(s) && fresh(s.nodes - old(s.nodes)) && (vmaOut == null ==> Hosted(s, image))
    ensures vmaOut != null ==>
              var x, old_ := NewRec(addr, addr + length, flags, prot, file, offset), old(Values(RecsOf(s.nodes)));
              && Hosted(s, Remapped(s.host, old_, image, x))
              && (old(Exact(s)) ==> TablesFollow(s, Bridges(old_, x), PageOf(addr + length), PageOf(vmaOut.end)))
    ensures vmaOut != null && old(Exact(s)) ==> ReadsAfresh(s, vmaOut, addr, addr + length)
    ensures vmaOut != null && old(forall v :: v in s.nodes ==> v.end < addr || addr + length < v.start) ==>
              IsJust(vmaOut, addr, addr + length, flags, prot, file, offset)
  {
    hide Sane, Hosted, RecsOf, Remap, Remapped, InUse, Essential, MappedOnes, Values, Spanning, Bridges, Exact, TablesFollow, NewRec;
    NewRecProper(addr, addr + length, flags, prot, file, offset);
    hide ReadsAfresh, IsJust;
    ghost var munmaps, old_, exact := 0, Values(RecsOf(s.nodes)), Exact(s);
    ghost var alone := forall v :: v in s.nodes ==> v.end < addr || addr + length < v.start;
    SaneProper(s);
    if alone { AloneRecs(s.nodes, addr, addr + length); }
    vmaOut, munmaps := MapRange(s, file, addr, length, flags, prot, offset, kernelMin, image);
    if vmaOut != null {
      if alone { AloneIs(s, old_, vmaOut, addr, addr + length, flags, prot, file, offset); }
      if exact { AllReads(s, old_, image, NewRec(addr, addr + length, flags, prot, file, offset), vmaOut); }
    }
    r := if vmaOut == null then WORD - ENOMEM else addr;
  }

  /** What `do_brk` makes of its arguments. */
  datatype BrkPlan = TooLong | Nothing | Misplaced | MapIt(len: nat)

  function PlanBrk(addr: nat, request: nat): BrkPlan {
    var len := AlignUp(request);
    if len < request then TooLong else if len == 0 then Nothing else if !Aligned(addr) then Misplaced else MapIt(len)
  }

  /** The rounded length wraps around exactly for the last requests below the word size; else it is the least that fits. */
  lemma PlanBrkMeans(addr: nat, request: nat)
    requires request < WORD
    ensures PlanBrk(addr, request) == TooLong <==> request > WORD - PAGE_SIZE
    ensures PlanBrk(addr, request) == Nothing <==> request == 0
    ensures PlanBrk(addr, request).MapIt? <==> 0 < request <= WORD - PAGE_SIZE && Aligned(addr)
    ensures PlanBrk(addr, request).MapIt? ==>
              var len := PlanBrk(addr, request).len; Aligned(len) && request <= len < request + PAGE_SIZE && len < WORD
  {
  }

  /** The record that `do_brk` maps: readable, writable and executable, without a file. */
  ghost function BrkRec(addr: int, len: int, flags: bv64): Rec {
    Rec(addr, addr + len, 7, Essential(flags), NO_FILE, PageOf(addr))
  }

  lemma BrkRecIs(addr: int, len: int, flags: bv64)
    ensures NewRec(addr, addr + len, flags, VMA_READ | VMA_WRITE | VMA_EXEC, NO_FILE, PageOf(addr)) == BrkRec(addr, len, flags)
  {
    hide Essential;
  }

  /** `do_brk` */
  method DoBrk(s: AddressSpace, addr: nat, request: nat, flags: bv64, kernelMin: nat, ghost image: Image)
    returns (r: nat, ghost vma: VmArea?)
    requires Sane(s) && Hosted(s, image)
    requires request < WORD && addr + AlignUp(request) < WORD && Aligned(kernelMin) && kernelMin < WORD
    modifies s.nodes`start, s.nodes`end, s.nodes`pageOffset
    modifies s`root, s`first, s`highest, s`nodes, s`order, s`span, s.nodes`prev, s.nodes`next
    modifies s.nodes`rbLeft, s.nodes`rbRight, s.nodes`rbParent, s.nodes`rbBlack, s.nodes`subtreeGap
    modifies s.host`next, s.host`table, s.host`ram, s.host`holes
    modifies s.nodes`physStart, s.nodes`physEnd, s.nodes`oldStart, s.nodes`oldEnd, s.nodes`flags
    ensures Sane(s) && fresh(s.nodes - old(s.nodes)) && (vma == null ==> Hosted(s, image))
    ensures match PlanBrk(addr, request)
            case TooLong => r == 0xFFFF_FFFF_FFFF_FFF4 && vma == null
            case Nothing => r == 0 && vma == null
            case Misplaced => r == addr && vma == null
            case MapIt(len) =>
              && r == (if vma == null then 0xFFFF_FFFF_FFFF_FFF4 else 0)
              && MapsAnew(old(Values(RecsOf(s.nodes))), Values(RecsOf(s.nodes)), BrkRec(addr, len, flags), kernelMin, vma == null)
              && (vma != null ==>
                    var x, old_ := BrkRec(addr, len, flags), old(Values(RecsOf(s.nodes)));
                    && vma in s.nodes && Hosted(s, Remapped(s.host, old_, image, x))
                    && (old(Exact(s)) ==> TablesFollow(s, Bridges(old_, x), PageOf(addr + len), PageOf(vma.end)))
                    && vma.start <= addr && addr + len <= vma.end && (old(Exact(s)) ==> ReadsAfresh(s, vma, addr, addr + len))
                    && (old(forall v :: v in s.nodes ==> v.end < addr || addr + len < v.start) ==>
                          IsJust(vma, addr, addr + len, flags, 7, VmFile(-1, -1, -1), addr / 4096)))
    ensures vma == null ==> unchanged(s) && unchanged(old(s.nodes)) && unchanged(s.host)
  {
    hide Sane, Hosted, RecsOf, Remap, Remapped, InUse, Essential, MappedOnes, Values, Spanning, Bridges, Exact, TablesFollow;
    hide AlignUp, NewRec, ReadsAfresh, IsJust;
    PlanBrkMeans(addr, request);
    var len := AlignUp(request);
    vma := null;
    if len < request {
      return WORD - ENOMEM, vma;
    }
    if len == 0 {
      return 0, vma;
    }
    if addr % PAGE_SIZE != 0 {
      return addr, vma;
    }
    BrkRecIs(addr, len, flags);
    var area;
    ghost var munmaps;
    ghost var old_, exact := Values(RecsOf(s.nodes)), Exact(s);
    ghost var alone := forall v :: v in s.nodes ==> v.end < addr || addr + len < v.start;
    SaneProper(s);
    if alone { AloneRecs(s.nodes, addr, addr + len); }
    area, munmaps := MapRange(s, NO_FILE, addr, len, flags, VMA_READ | VMA_WRITE | VMA_EXEC, PageOf(addr), kernelMin, image);
    vma := area;
    if vma != null {
      SpanningRange(s.nodes, vma, addr, addr + len);
      if alone { AloneIs(s, old_, vma, addr, addr + len, flags, VMA_READ | VMA_WRITE | VMA_EXEC, NO_FILE, PageOf(addr)); }
      if exact {
        NewRecProper(addr, addr + len, flags, VMA_READ | VMA_WRITE | VMA_EXEC, NO_FILE, PageOf(addr));
        AllReads(s, old_, image, BrkRec(addr, len, flags), vma);
      }
    }
    r := if area == null then WORD - ENOMEM else 0;
  }
}
