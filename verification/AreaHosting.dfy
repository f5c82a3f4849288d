/**
 A set of areas and the host memory behind them (vm/vma.c).
 */
module AreaHosting {
  import opened VmAreas
  import opened HostMemory
  import opened AreaViews

  type Image = map<int, Page>   // contents by guest page

  /** Every area has room of its own in the host memory. */
  ghost predicate Roomed(h: Host, nodes: set<VmArea>)
    reads h
    reads nodes`start, nodes`end, nodes`oldStart, nodes`oldEnd, nodes`physStart, nodes`physEnd, nodes`file
  {
    h.Valid() && (forall v :: v in nodes ==> h.Housed(v)) && AllApart(nodes)
  }

  /** The frames that the areas keep are different ones. */
  ghost predicate AllApart(nodes: set<VmArea>)
    reads nodes`start, nodes`end, nodes`oldStart, nodes`oldEnd, nodes`physStart, nodes`physEnd, nodes`file
  {
    forall v, w :: v in nodes && w in nodes && v != w ==> Apart(v, w)
  }

  /** And every area is mapped where it should be. */
  ghost predicate Lodged(h: Host, nodes: set<VmArea>)
    reads h
    reads nodes`start, nodes`end, nodes`oldStart, nodes`oldEnd, nodes`physStart, nodes`physEnd, nodes`file
  {
    Roomed(h, nodes) && forall v :: v in nodes ==> InPlace(v)
  }

  /** The areas whose pages the page tables all translate to the area's frames. */
  ghost function MappedOnes(h: Host, nodes: set<VmArea>): set<VmArea>
    reads h`table
    reads nodes`start, nodes`end, nodes`oldStart, nodes`oldEnd, nodes`physStart, nodes`physEnd, nodes`file
  {
    set v | v in nodes && h.Mapped(v)
  }

  /** The table translates all pages of the areas to the areas' frames, but for pages from `lo` to `hi`. */
  ghost predicate Translates(t: map<int, int>, nodes: set<VmArea>, lo: int, hi: int)
    reads nodes`start, nodes`end, nodes`oldStart, nodes`oldEnd, nodes`physStart, nodes`physEnd, nodes`file
  {
    forall v, p :: v in nodes && Covers(v, p) && !(lo <= p < hi) ==> p in t && t[p] == KeptFrame(v) + (p - KeptFrom(v))
  }

  lemma MappedAfter(t: map<int, int>, u: map<int, int>, nodes: set<VmArea>, gone: VmArea)
    requires Translates(t, nodes, 0, 0)
    requires forall p :: !Covers(gone, p) ==> (p in u <==> p in t) && (p in u ==> u[p] == t[p])
    ensures Translates(u, nodes, PageOf(gone.start), PageOf(gone.end))
  {
  }

  lemma AllMapped(h: Host, nodes: set<VmArea>)
    ensures nodes <= MappedOnes(h, nodes) <==> Translates(h.table, nodes, 0, 0)
  {
    if nodes <= MappedOnes(h, nodes) {
      forall v, p | v in nodes && Covers(v, p)
        ensures p in h.table && h.table[p] == KeptFrame(v) + (p - KeptFrom(v))
      {
        assert h.Mapped(v);
      }
    }
    if Translates(h.table, nodes, 0, 0) {
      forall v | v in nodes
        ensures h.Mapped(v)
      {
      }
    }
  }

  lemma MappedWithin(h: Host, some: set<VmArea>, nodes: set<VmArea>)
    requires some <= nodes
    ensures MappedOnes(h, some) <= MappedOnes(h, nodes) && MappedOnes(h, nodes) <= MappedOnes(h, some) + (nodes - some)
  {
  }

  /**
   What a page of the area holds, or, if the area shows a file and has yet to be mapped where it should be,
   what it will hold.
   */
  ghost function Due(h: Host, v: VmArea, p: int): Page
    reads h
    reads v`start, v`end, v`oldStart, v`oldEnd, v`physStart, v`physEnd, v`file, v`pageOffset
  {
    if v.file.fd != -1 && !InPlace(v) then h.FilePage(v.file, v.pageOffset, PageOf(v.start), p) else h.Shows(v, p)
  }

  /** As far as `image` tells, the areas hold what it tells. */
  ghost predicate Faithful(h: Host, nodes: set<VmArea>, image: Image)
    reads h
    reads nodes`start, nodes`end, nodes`oldStart, nodes`oldEnd, nodes`physStart, nodes`physEnd, nodes`file, nodes`pageOffset
  {
    forall v, p :: v in nodes && p in image && Keeps(v, p) ==> Due(h, v, p) == image[p]
  }

  /** What `kernel_map_vma` gives the pages of the area is what `image` tells of them. */
  ghost predicate Replaceable(h: Host, v: VmArea, image: Image)
    reads v`start, v`end, v`oldStart, v`oldEnd, v`physStart, v`physEnd, v`file, v`pageOffset
  {
    forall p :: p in image && Covers(v, p) ==>
      if v.file.fd == -1 then Keeps(v, p) || image[p] == h.Zero() else image[p] == h.FilePage(v.file, v.pageOffset, PageOf(v.start), p)
  }

  /** No page belongs to two areas. */
  ghost predicate PagesApart(nodes: set<VmArea>)
    reads nodes`start, nodes`end
  {
    forall v, w, p :: v in nodes && w in nodes && v != w && Covers(v, p) ==> !Covers(w, p)
  }

  lemma RoomedParts(h: Host, v: VmArea, nodes: set<VmArea>)
    requires Roomed(h, nodes) && v in nodes
    ensures h.Valid() && h.Housed(v) && AllApart(nodes - {v})
    ensures forall w :: w in nodes - {v} ==> h.Housed(w) && Apart(v, w)
  {
  }

  lemma RoomedAgain(h: Host, v: VmArea, nodes: set<VmArea>)
    requires h.Valid() && h.Housed(v) && AllApart(nodes - {v}) && v in nodes
    requires forall w :: w in nodes - {v} ==> h.Housed(w) && Apart(v, w)
    ensures Roomed(h, nodes)
  {
    hide Host.Housed, Host.Valid;
    forall w, u | w in nodes && u in nodes && w != u
      ensures Apart(w, u)
    {
      if u == v { assert w in nodes - {v} && Apart(v, w); }
    }
  }

  /** `kernel_map_vma` for one of the areas, but for what it leaves of the records. */
  method SettleSound(h: Host, v: VmArea, ghost nodes: set<VmArea>, ghost image: Image)
    requires Roomed(h, nodes) && v in nodes && !InPlace(v) && PagesApart(nodes)
    requires Faithful(h, nodes, image) && Replaceable(h, v, image)
    modifies h`next, h`table, h`ram, h`holes
    modifies v`physStart, v`physEnd, v`oldStart, v`oldEnd, v`flags
    ensures Roomed(h, nodes) && Faithful(h, nodes, image) && InPlace(v) && h.next >= old(h.next)
    ensures old(MappedOnes(h, nodes)) + {v} <= MappedOnes(h, nodes)
    ensures forall p :: !Covers(v, p) ==> (p in h.table <==> p in old(h.table))
    ensures Essential(v.flags) == old(Essential(v.flags))
  {
    hide Roomed, AllApart, Host.Housed, Apart, Essential;
    RoomedParts(h, v, nodes);
    h.Settle(v, nodes - {v});
    RoomedAgain(h, v, nodes);
  }

  /** `kernel_map_vma` for one of the areas. */
  method SettleIn(h: Host, v: VmArea, ghost nodes: set<VmArea>, ghost image: Image)
    requires Roomed(h, nodes) && v in nodes && !InPlace(v) && PagesApart(nodes)
    requires Faithful(h, nodes, image) && Replaceable(h, v, image)
    modifies h`next, h`table, h`ram, h`holes
    modifies v`physStart, v`physEnd, v`oldStart, v`oldEnd, v`flags
    ensures Roomed(h, nodes) && Faithful(h, nodes, image) && InPlace(v) && h.next >= old(h.next)
    ensures old(MappedOnes(h, nodes)) + {v} <= MappedOnes(h, nodes)
    ensures forall p :: !Covers(v, p) ==> (p in h.table <==> p in old(h.table))
    ensures RecsOf(nodes) == old(RecsOf(nodes))
  {
    hide Roomed, Faithful, Replaceable, PagesApart, InPlace, MappedOnes, Covers, Essential, RecsOf;
    ghost var m, r := RecsOf(nodes), RecOf(v);
    RecsWithout(nodes, {v});
    RecsHave(nodes, v);
    SettleSound(h, v, nodes, image);
    RecsUpdated(nodes, m, v);
  }

  // ---------------------------------------------------------------- changing the range of one of them

  /** None of the `n` frames from `frame` on is kept by one of the areas. */
  ghost predicate ClearOf(nodes: set<VmArea>, frame: int, n: int)
    reads nodes`start, nodes`end, nodes`oldStart, nodes`oldEnd, nodes`physStart, nodes`physEnd, nodes`file
  {
    forall w :: w in nodes ==>
      w.physStart == -1 || frame + n <= KeptFrame(w) || KeptFrame(w) + KeptPages(w) <= frame
  }

  /** The `n` frames from `frame` on have not been moved away. */
  ghost predicate There(h: Host, frame: int, n: int)
    reads h`holes
  {
    forall f :: Within(f, frame, n) ==> f !in h.holes
  }

  /** The frames from `frame` on hold what `image` tells of the `n` pages from `page` on. */
  ghost predicate Holds(h: Host, image: Image, page: int, frame: int, n: int)
    reads h
  {
    forall p :: Within(p, page, n) && p in image ==> h.Contents(frame + (p - page)) == image[p]
  }

  lemma TakeOut(h: Host, v: VmArea, nodes: set<VmArea>, image: Image)
    requires Roomed(h, nodes) && Faithful(h, nodes - {v}, image) && v in nodes && InPlace(v)
    requires v.file.fd == -1 ==> Faithful(h, {v}, image)
    ensures Roomed(h, nodes - {v}) && h.Framed(v)
    ensures ClearOf(nodes - {v}, KeptFrame(v), KeptPages(v)) && There(h, KeptFrame(v), KeptPages(v))
    ensures v.file.fd == -1 ==> Holds(h, image, KeptFrom(v), KeptFrame(v), KeptPages(v))
  {
  }

  /** The area keeps some of the `n` frames from `frame` on, each for the same page as before. */
  ghost predicate PartOf(v: VmArea, page: int, frame: int, n: int)
    reads v`start, v`end, v`oldStart, v`oldEnd, v`physStart, v`physEnd, v`file
  {
    && v.start < v.end && Aligned(v.start) && Aligned(v.end) && v.physStart != -1
    && v.start < v.oldEnd && v.oldStart < v.end
    && page <= KeptFrom(v) && KeptFrom(v) + KeptPages(v) <= page + n && KeptFrame(v) - frame == KeptFrom(v) - page
  }

  /** The frames of an area that is to be mapped hold, or its file will give it, what `image` tells. */
  ghost predicate Supplied(h: Host, v: VmArea, image: Image, page: int, frame: int, n: int)
    reads h
    reads v`start, v`end, v`oldStart, v`oldEnd, v`physStart, v`physEnd, v`file, v`pageOffset
  {
    if v.file.fd == -1 then Holds(h, image, page, frame, n) else Replaceable(h, v, image) && !InPlace(v)
  }

  lemma PutIn(h: Host, v: VmArea, rest: set<VmArea>, image: Image, page: int, frame: int, n: int)
    requires Roomed(h, rest) && Faithful(h, rest, image) && v !in rest && h.Framed(v) && PartOf(v, page, frame, n)
    requires ClearOf(rest, frame, n) && There(h, frame, n) && Supplied(h, v, image, page, frame, n)
    ensures Roomed(h, rest + {v}) && Faithful(h, rest + {v}, image)
  {
    assert h.Housed(v);
    forall w | w in rest
      ensures Apart(v, w) && Apart(w, v)
    {
    }
  }

  /** Two parts of a block are apart from each other. */
  lemma PutBoth(h: Host, v: VmArea, w: VmArea, rest: set<VmArea>, image: Image, page: int, frame: int, n: int, cut: int)
    requires Roomed(h, rest) && Faithful(h, rest, image) && v !in rest && w !in rest && v != w && 0 <= cut <= n
    requires h.Framed(v) && PartOf(v, page, frame, cut) && h.Framed(w) && PartOf(w, page + cut, frame + cut, n - cut)
    requires ClearOf(rest, frame, n) && There(h, frame, n)
    requires Supplied(h, v, image, page, frame, n) && Supplied(h, w, image, page, frame, n)
    ensures Roomed(h, rest + {v} + {w}) && Faithful(h, rest + {v} + {w}, image)
  {
    assert There(h, frame, cut) && There(h, frame + cut, n - cut);
    assert Supplied(h, v, image, page, frame, cut) && Supplied(h, w, image, page + cut, frame + cut, n - cut);
    PutIn(h, v, rest, image, page, frame, cut);
    assert ClearOf(rest + {v}, frame + cut, n - cut);
    PutIn(h, w, rest + {v}, image, page + cut, frame + cut, n - cut);
  }

  /** The block of frames of an area that is in place. */
  ghost predicate Block(v: VmArea, page: int, frame: int, n: int)
    reads v`oldStart, v`oldEnd, v`physStart
  {
    && v.physStart != -1 && Aligned(v.physStart) && Aligned(v.oldStart) && Aligned(v.oldEnd) && v.oldStart < v.oldEnd
    && page == PageOf(v.oldStart) && frame == PageOf(v.physStart) && n == PageOf(v.oldEnd) - PageOf(v.oldStart)
  }

  lemma InPlaceBlock(h: Host, v: VmArea)
    requires h.Housed(v) && InPlace(v)
    ensures Block(v, KeptFrom(v), KeptFrame(v), KeptPages(v))
    ensures KeptFrom(v) == PageOf(v.start) && KeptPages(v) == PageOf(v.end) - PageOf(v.start)
  {
  }

  /** Whatever range overlapping the old one it gets, the area keeps some of its block. */
  lemma ResizedPart(v: VmArea, page: int, frame: int, n: int)
    requires Block(v, page, frame, n) && v.start < v.end && Aligned(v.start) && Aligned(v.end)
    requires v.start < v.oldEnd && v.oldStart < v.end
    ensures PartOf(v, page, frame, n)
  {
  }

  /** The two halves of a block that is cut. */
  lemma LowerPart(v: VmArea, page: int, frame: int, n: int, cut: int)
    requires Block(v, page, frame, n) && v.start == v.oldStart && v.start < v.end < v.oldEnd && Aligned(v.end)
    requires cut == PageOf(v.end) - page
    ensures PartOf(v, page, frame, cut) && 0 < cut < n
  {
  }

  lemma UpperPart(v: VmArea, page: int, frame: int, n: int, cut: int)
    requires Block(v, page, frame, n) && v.end == v.oldEnd && v.oldStart < v.start < v.end && Aligned(v.start)
    requires cut == PageOf(v.start) - page
    ensures PartOf(v, page + cut, frame + cut, n - cut) && 0 < cut < n
  {
  }

  // ---------------------------------------------------------------- giving one up

  lemma Fewer(h: Host, nodes: set<VmArea>, some: set<VmArea>, image: Image, frame: int, n: int)
    requires some <= nodes
    ensures Roomed(h, nodes) ==> Roomed(h, some)
    ensures Lodged(h, nodes) ==> Lodged(h, some)
    ensures Faithful(h, nodes, image) ==> Faithful(h, some, image)
    ensures ClearOf(nodes, frame, n) ==> ClearOf(some, frame, n)
  {
  }

  /** `kernel_unmap_vma` for an area that is none of `nodes` (any more). */
  method UnmapOne(h: Host, v: VmArea, ghost nodes: set<VmArea>, ghost image: Image)
    requires Roomed(h, nodes) && Faithful(h, nodes, image) && h.Framed(v) && InPlace(v)
    modifies h`next, h`table
    ensures Roomed(h, nodes) && Faithful(h, nodes, image) && h.next >= old(h.next)
    ensures forall p :: Covers(v, p) ==> p !in h.table
    ensures forall p :: !Covers(v, p) ==> (p in h.table <==> p in old(h.table)) && (p in h.table ==> h.table[p] == old(h.table)[p])
    ensures h.ram == old(h.ram) && h.holes == old(h.holes)
  {
    h.KernelUnmapVma(v);
  }
}
