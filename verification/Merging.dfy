/**
 `vma_merge` of kernel/c/vma.c.
 */
module Merging {
  import opened VmAreas
  import opened RbTree
  import opened HostMemory
  import opened AreaHosting
  import opened Regions
  import opened AreaViews
  import opened Vma
  import opened VmaSteps
  import opened VmaCuts
  import opened Linking
  import opened Adjusting

  /** `vma_can_merge` */
  predicate VmaCanMerge(v: VmArea, file: VmFile, flags: bv64)
    reads v`flags, v`file
  {
    (v.flags ^ flags) & !(IS_PREFAULTED | HAS_RESIZED) == 0 && v.file.dev == file.dev && v.file.inode == file.inode
  }

  /** `can_vma_merge_before` */
  predicate CanMergeBefore(v: VmArea, flags: bv64, file: VmFile, pgoff: int)
    reads v`flags, v`file, v`pageOffset
  {
    VmaCanMerge(v, file, flags) && v.pageOffset == pgoff
  }

  /** `can_vma_merge_after` */
  predicate CanMergeAfter(v: VmArea, flags: bv64, file: VmFile, pgoff: int)
    reads v`flags, v`file, v`pageOffset, v`start, v`end
  {
    VmaCanMerge(v, file, flags) && v.pageOffset + Pages(file, v.end - v.start) == pgoff
  }

  lemma HostBits(a: bv64, b: bv64, p: bv64, h: bv64)
    requires p == 0x20 && h == 0x40
    ensures (a ^ b) & !(p | h) == 0 <==> a | p | h == b | p | h
  {
  }

  lemma EssentialBits(a: bv64, b: bv64)
    ensures (a ^ b) & !(IS_PREFAULTED | HAS_RESIZED) == 0 <==> Essential(a) == Essential(b)
  {
    HostBits(a, b, IS_PREFAULTED, HAS_RESIZED);
  }

  /** Areas can be merged exactly if flags, but for the host's own, device and inode are the same. */
  lemma CanMergeIsKind(v: VmArea, file: VmFile, flags: bv64)
    ensures VmaCanMerge(v, file, flags) <==> KindIn(RecOf(v)) == Kind(Essential(flags), file.dev, file.inode)
  {
    EssentialBits(v.flags, flags);
  }

  // ---------------------------------------------------------------- the three ways to merge

  lemma FitsBehind(s: AddressSpace, k: int, addr: int, end: int)
    requires Open(s, null) && FitsAt(s.order, k, addr, end) && 0 < k && s.order[k - 1].end == addr
    requires addr < end && Aligned(end)
    ensures FitsInPlace(ChainOf(s.nodes), s.order, k - 1, s.order[k - 1].start, end)
    ensures k < |s.order| ==> end <= s.order[k].start < s.order[k].end
  {
    RangesShown(s, null);
  }

  lemma FitsBefore(s: AddressSpace, k: int, addr: int, end: int)
    requires Open(s, null) && FitsAt(s.order, k, addr, end) && k < |s.order| && s.order[k].start == end
    requires 0 <= addr < end && Aligned(addr)
    ensures FitsInPlace(ChainOf(s.nodes), s.order, k, addr, s.order[k].end)
    ensures k + 1 < |s.order| ==> s.order[k].end <= s.order[k + 1].start < s.order[k + 1].end
  {
    RangesShown(s, null);
  }

  lemma LastDiffers(s: AddressSpace, i: int)
    requires Open(s, null) && 0 <= i < |s.order|
    ensures i != |s.order| - 1 ==> s.order[|s.order| - 1] != s.order[i]
    ensures s.order[i] in s.nodes && s.order[i].start < s.order[i].end
  {
    OpenMembers(s, null);
    RangeAt(s, i);
  }

  /** The predecessor grows over the new range. */
  method MergeBehind(s: AddressSpace, prev: VmArea, addr: nat, end: nat, ghost k: int, ghost image: Image)
    requires Open(s, null) && s.highest == EndOf(s.order) && FitsAt(s.order, k, addr, end)
    requires 0 < k && prev == s.order[k - 1] && prev.end == addr < end && Aligned(end)
    requires HostedBut(s, prev, image) && Growable(s.host, prev, prev.start, end, prev.pageOffset, image)
    modifies prev`start, prev`end, prev`pageOffset, s`highest, s.nodes`subtreeGap
    modifies s.host`next, s.host`table, s.host`ram, s.host`holes
    modifies prev`physStart, prev`physEnd, prev`oldStart, prev`oldEnd, prev`flags
    ensures Open(s, null) && s.highest == EndOf(s.order)
    ensures prev in s.nodes && RecsOf(s.nodes) == old(RecsOf(s.nodes))[prev := old(RecOf(prev)).(end := end)]
    ensures Hosted(s, image)
    ensures old(MappedOnes(s.host, s.nodes)) + {prev} <= MappedOnes(s.host, s.nodes)
    ensures forall p :: !Covers(prev, p) ==> (p in s.host.table <==> p in old(s.host.table))
  {
    hide Open, Hosted, HostedBut, Growable, MappedOnes, Essential, RecsOf, FitsAt, FitsInPlace, ChainOf;
    FitsBehind(s, k, addr, end);
    LastDiffers(s, k - 1);
    OpenAt(s, null, k - 1);
    RecsHave(s.nodes, prev);
    AdjustPlain(s, prev, prev.start, end, prev.pageOffset, k - 1, image);
  }

  /** The successor grows down over the new range. */
  method MergeBefore(s: AddressSpace, area: VmArea, addr: nat, end: nat, pglen: int, ghost k: int, ghost image: Image)
    requires Open(s, null) && s.highest == EndOf(s.order) && FitsAt(s.order, k, addr, end)
    requires k < |s.order| && area == s.order[k] && addr < end == area.start && Aligned(addr)
    requires HostedBut(s, area, image) && Growable(s.host, area, addr, area.end, area.pageOffset - pglen, image)
    modifies area`start, area`end, area`pageOffset, s`highest, s.nodes`subtreeGap
    modifies s.host`next, s.host`table, s.host`ram, s.host`holes
    modifies area`physStart, area`physEnd, area`oldStart, area`oldEnd, area`flags
    ensures Open(s, null) && s.highest == EndOf(s.order)
    ensures area in s.nodes
    ensures RecsOf(s.nodes) == old(RecsOf(s.nodes))[area := old(RecOf(area)).(start := addr, offset := old(area.pageOffset) - pglen)]
    ensures Hosted(s, image)
    ensures old(MappedOnes(s.host, s.nodes)) + {area} <= MappedOnes(s.host, s.nodes)
    ensures forall p :: !Covers(area, p) ==> (p in s.host.table <==> p in old(s.host.table))
  {
    hide Open, Hosted, HostedBut, Growable, MappedOnes, Essential, RecsOf, FitsAt, FitsInPlace, ChainOf;
    FitsPlace(s, k, addr, end);
    FitsBefore(s, k, addr, end);
    LastDiffers(s, k);
    OpenAt(s, null, k);
    RecsHave(s.nodes, area);
    AdjustPlain(s, area, addr, area.end, area.pageOffset - pglen, k, image);
  }

  lemma FitsPlace(s: AddressSpace, k: int, addr: int, end: int)
    requires FitsAt(s.order, k, addr, end)
    ensures 0 <= k <= |s.order|
  {
  }

  lemma LastOfCut(list: seq<VmArea>, k: int)
    requires 0 < k < |list|
    ensures var r := Cut(list, k, k + 1);
      && r != [] && r[|r| - 1] == (if k == |list| - 1 then list[k - 1] else list[|list| - 1])
  {
  }

  /** The predecessor grows over the new range and the successor. */
  method MergeBoth(s: AddressSpace, prev: VmArea, next: VmArea, addr: nat, end: nat, ghost k: int, ghost image: Image)
    requires Open(s, null) && s.highest == EndOf(s.order) && FitsAt(s.order, k, addr, end)
    requires 0 < k < |s.order| && prev == s.order[k - 1] && next == s.order[k]
    requires prev.end == addr < end == next.start
    requires HostedBut(s, prev, image) && Growable(s.host, prev, prev.start, next.end, prev.pageOffset, image)
    modifies prev`start, prev`end, prev`pageOffset
    modifies s`root, s`first, s`highest, s`nodes, s`order, s`span, s.nodes`prev, s.nodes`next
    modifies s.nodes`rbLeft, s.nodes`rbRight, s.nodes`rbParent, s.nodes`rbBlack, s.nodes`subtreeGap
    modifies s.host`next, s.host`table, s.host`ram, s.host`holes
    modifies prev`physStart, prev`physEnd, prev`oldStart, prev`oldEnd, prev`flags
    ensures s.order == Cut(old(s.order), k, k + 1) && s.nodes == old(s.nodes) - {next}
    ensures Open(s, null) && s.highest == EndOf(s.order) && prev in s.nodes
    ensures RecsOf(s.nodes) == old(RecsOf(s.nodes))[prev := old(RecOf(prev)).(end := next.end)] - {next}
    ensures Hosted(s, image) && forall p :: Covers(next, p) ==> p !in s.host.table
    ensures forall p :: !Covers(prev, p) && !Covers(next, p) ==> (p in s.host.table <==> p in old(s.host.table))
    ensures old(s.nodes <= MappedOnes(s.host, s.nodes)) ==> Translates(s.host.table, s.nodes, PageOf(next.start), PageOf(next.end))
  {
    hide Open, Hosted, HostedBut, Growable, MappedOnes, Essential, RecsOf, FitsAt, ChainOf, Cut;
    NextTo(s, k - 1);
    RangeAt(s, k);
    LastDiffers(s, k - 1);
    LastDiffers(s, k);
    LastOfCut(s.order, k);
    OpenAt(s, null, k - 1);
    RecsHave(s.nodes, prev);
    AdjustRemove(s, prev, next, prev.pageOffset, k - 1, image);
  }

  // ---------------------------------------------------------------- vma_merge

  function WayOf(prev: VmArea?, next: VmArea?, addr: int, end: int, flags: bv64, file: VmFile, pgoff: int): Way
    reads prev, next
  {
    var after := prev != null && prev.end == addr && CanMergeAfter(prev, flags, file, pgoff);
    var before := next != null && end == next.start && CanMergeBefore(next, flags, file, pgoff + Pages(file, end - addr));
    if after then (if before then Both else Up) else if before then Down else Alone
  }

  /** The records after the merge. */
  ghost function MergedRecs(way: Way, m: Recs, prev: VmArea?, next: VmArea?, addr: int, end: int, pglen: int): Recs
    requires way == Up || way == Both ==> prev != null && prev in m
    requires way == Down || way == Both ==> next != null && next in m
  {
    match way
    case Alone => m
    case Up => m[prev := m[prev].(end := end)]
    case Down => m[next := m[next].(start := addr, offset := m[next].offset - pglen)]
    case Both => m[prev := m[prev].(end := m[next].end)] - {next}
  }

  /** The areas hold what `image` tells, and the one that grows will. */
  ghost predicate Foreseen(s: AddressSpace, image: Image, way: Way, prev: VmArea?, next: VmArea?, addr: int, end: int, pglen: int)
    reads s`nodes, s.host, prev, next
    reads s.nodes`start, s.nodes`end, s.nodes`oldStart, s.nodes`oldEnd, s.nodes`physStart, s.nodes`physEnd, s.nodes`file, s.nodes`pageOffset
  {
    match way
    case Alone => Hosted(s, image)
    case Up =>
      prev != null && HostedBut(s, prev, image) && Growable(s.host, prev, prev.start, end, prev.pageOffset, image)
    case Down =>
      next != null && HostedBut(s, next, image) && Growable(s.host, next, addr, next.end, next.pageOffset - pglen, image)
    case Both =>
      prev != null && next != null && HostedBut(s, prev, image) && Growable(s.host, prev, prev.start, next.end, prev.pageOffset, image)
  }

  /** What `vma_merge` starts from: the place that `vma_find_links` gave for a free range. */
  lemma MergePlace(s: AddressSpace, k: int, addr: int, end: int)
    requires Open(s, null) && FitsAt(s.order, k, addr, end) && addr < end
    ensures 0 <= k <= |s.order| && s.first == At(s.order, 0)
    ensures var prev, next := At(s.order, k - 1), At(s.order, k);
      && (prev != null ==> prev in s.nodes && prev.next == next && prev.end <= addr)
      && (prev == null ==> k == 0)
      && (next != null ==> next in s.nodes && end <= next.start < next.end)
  {
    if k > 0 { OpenAt(s, null, k - 1); }
    if k < |s.order| {
      OpenAt(s, null, k);
      RangeAt(s, k);
    }
  }

  /** `vma_merge` when the predecessor can be merged: over the successor too, if that can be merged as well. */
  method MergeFromBelow(s: AddressSpace, prev: VmArea, next: VmArea?, addr: nat, end: nat, flags: bv64, file: VmFile, pgoff: int,
                        ghost k: int, ghost way: Way, ghost image: Image)
    requires Open(s, null) && s.highest == EndOf(s.order) && FitsAt(s.order, k, addr, end)
    requires addr < end && Aligned(addr) && Aligned(end) && prev == At(s.order, k - 1) && next == At(s.order, k)
    requires prev.end == addr && CanMergeAfter(prev, flags, file, pgoff)
    requires way == WayOf(prev, next, addr, end, flags, file, pgoff)
    requires Foreseen(s, image, way, prev, next, addr, end, Pages(file, end - addr))
    modifies prev`start, prev`end, prev`pageOffset
    modifies s`root, s`first, s`highest, s`nodes, s`order, s`span, s.nodes`prev, s.nodes`next
    modifies s.nodes`rbLeft, s.nodes`rbRight, s.nodes`rbParent, s.nodes`rbBlack, s.nodes`subtreeGap
    modifies s.host`next, s.host`table, s.host`ram, s.host`holes
    modifies prev`physStart, prev`physEnd, prev`oldStart, prev`oldEnd, prev`flags
    ensures Open(s, null) && s.highest == EndOf(s.order) && Hosted(s, image) && (way == Up || way == Both)
    ensures prev in old(RecsOf(s.nodes)) && (way == Both ==> next != null && next in old(RecsOf(s.nodes)))
    ensures way == Both ==> 0 <= k < |old(s.order)| && s.order == Cut(old(s.order), k, k + 1) && s.nodes == old(s.nodes) - {next}
    ensures way == Up ==> s.order == old(s.order) && s.nodes == old(s.nodes)
    ensures RecsOf(s.nodes) == MergedRecs(way, old(RecsOf(s.nodes)), prev, next, addr, end, Pages(file, end - addr))
    ensures way == Up ==> old(MappedOnes(s.host, s.nodes)) + {prev} <= MappedOnes(s.host, s.nodes)
    ensures way == Up ==> forall p :: !Covers(prev, p) ==> (p in s.host.table <==> p in old(s.host.table))
    ensures way == Both ==> forall p :: old(Covers(next, p)) ==> p !in s.host.table
    ensures way == Both ==> forall p :: !Covers(prev, p) && !old(Covers(next, p)) ==> (p in s.host.table <==> p in old(s.host.table))
    ensures way == Both && old(s.nodes <= MappedOnes(s.host, s.nodes)) ==>
              Translates(s.host.table, s.nodes, PageOf(old(next.start)), PageOf(old(next.end)))
  {
    hide Open, Hosted, HostedBut, Growable, MappedOnes, Essential, RecsOf, FitsAt, Cut, EndOf, CanMergeAfter, CanMergeBefore;
    hide Translates, Covers;
    MergePlace(s, k, addr, end);
    RecsHave(s.nodes, prev);
    if next != null { RecsHave(s.nodes, next); }
    if next != null && end == next.start && CanMergeBefore(next, flags, file, pgoff + Pages(file, end - addr)) {
      MergeBoth(s, prev, next, addr, end, k, image);
    } else {
      MergeBehind(s, prev, addr, end, k, image);
    }
  }

  /**
   `vma_merge`: for a free range, the way is decided by the neighbours' records. Without a way null is
   returned and nothing has changed; else the returned area contains the range.
   */
  method VmaMerge(s: AddressSpace, prev: VmArea?, addr: nat, end: nat, flags: bv64, file: VmFile, pgoff: int,
                  ghost k: int, ghost way: Way, ghost image: Image) returns (merged: VmArea?)
    requires Open(s, null) && s.highest == EndOf(s.order) && FitsAt(s.order, k, addr, end)
    requires addr < end && Aligned(addr) && Aligned(end) && prev == At(s.order, k - 1)
    requires way == WayOf(prev, At(s.order, k), addr, end, flags, file, pgoff)
    requires Foreseen(s, image, way, prev, At(s.order, k), addr, end, Pages(file, end - addr))
    modifies s`root, s`first, s`highest, s`nodes, s`order, s`span, s.nodes`prev, s.nodes`next
    modifies s.nodes`start, s.nodes`end, s.nodes`pageOffset, s.nodes`flags
    modifies s.nodes`rbLeft, s.nodes`rbRight, s.nodes`rbParent, s.nodes`rbBlack, s.nodes`subtreeGap
    modifies s.nodes`physStart, s.nodes`physEnd, s.nodes`oldStart, s.nodes`oldEnd
    modifies s.host`next, s.host`table, s.host`ram, s.host`holes
    ensures Open(s, null) && s.highest == EndOf(s.order) && Hosted(s, image)
    ensures merged == null <==> way == Alone
    ensures way == Alone ==> unchanged(s) && unchanged(old(s.nodes)) && unchanged(s.host)
    ensures way == Up || way == Both ==> merged == prev
    ensures way == Down ==> merged == At(old(s.order), k)
    ensures way != Both ==> s.order == old(s.order) && s.nodes == old(s.nodes)
    ensures way == Both ==> 0 <= k < |old(s.order)| && s.order == Cut(old(s.order), k, k + 1)
    ensures way == Both ==> s.nodes == old(s.nodes) - {old(s.order)[k]}
    ensures way == Both ==> forall p :: old(Covers(s.order[k], p)) ==> p !in s.host.table
    ensures way == Up || way == Both ==> prev in old(RecsOf(s.nodes))
    ensures way == Down || way == Both ==> At(old(s.order), k) != null && At(old(s.order), k) in old(RecsOf(s.nodes))
    ensures RecsOf(s.nodes) == MergedRecs(way, old(RecsOf(s.nodes)), prev, At(old(s.order), k), addr, end, Pages(file, end - addr))
    ensures way == Up || way == Down ==> old(MappedOnes(s.host, s.nodes)) + {merged} <= MappedOnes(s.host, s.nodes)
    ensures way == Up || way == Down ==> forall p :: !Covers(merged, p) ==> (p in s.host.table <==> p in old(s.host.table))
    ensures way == Both ==>
              forall p :: !Covers(prev, p) && !old(Covers(s.order[k], p)) ==> (p in s.host.table <==> p in old(s.host.table))
    ensures way == Both && old(s.nodes <= MappedOnes(s.host, s.nodes)) ==>
              Translates(s.host.table, s.nodes, PageOf(old(s.order[k].start)), PageOf(old(s.order[k].end)))
  {
    hide Open, Hosted, HostedBut, Growable, MappedOnes, Essential, RecsOf, FitsAt, Cut, EndOf, VmaCanMerge, CanMergeAfter;
    hide CanMergeBefore, Translates, Covers, Pages;
    MergePlace(s, k, addr, end);
    var pglen := Pages(file, end - addr);
    var next := if prev != null then prev.next else s.first;
    var area := next;
    if next != null && next.end == end {
      assert false;                 // cases 6, 7, 8
    }
    if next != null { RecsHave(s.nodes, next); }
    if prev != null { RecsHave(s.nodes, prev); }
    if prev != null && prev.end == addr && CanMergeAfter(prev, flags, file, pgoff) {
      MergeFromBelow(s, prev, next, addr, end, flags, file, pgoff, k, way, image);
      return prev;
    }
    if next != null && end == next.start && CanMergeBefore(next, flags, file, pgoff + pglen) {
      if prev != null && addr < prev.end {
        assert false;               // case 4
      }
      MergeBefore(s, area, addr, end, pglen, k, image);
      return area;
    }
    return null;
  }
}
