/**
 vm/vma.c: the host side of an area. Virtual pages are mapped to physical frames, and a resized
 anonymous area is given fresh contiguous frames into which its old contents are moved.
 Pages and frames are numbered; a page's contents move as a whole because every size is a multiple
 of the page size.
 */
module HostMemory {
  import opened Basics
  import opened VmAreas

  type Page = seq<bv8>

  const IS_PREFAULTED: bv64 := 0x20
  const HAS_RESIZED: bv64 := 0x40

  /** The flags without the two that the host sets. */
  function Essential(flags: bv64): bv64 {
    flags | IS_PREFAULTED | HAS_RESIZED
  }

  function Prefaulted(flags: bv64): bv64 {
    flags | IS_PREFAULTED
  }

  function MovedOnce(flags: bv64): bv64 {
    flags | HAS_RESIZED
  }

  lemma OnceSet(f: bv64, p: bv64, h: bv64)
    ensures (f | p) | p | h == f | p | h == (f | h) | p | h
  {
  }

  /** The host's own two flags do not count. */
  lemma HostFlags(flags: bv64)
    ensures Essential(Prefaulted(flags)) == Essential(flags) == Essential(MovedOnce(flags))
  {
    OnceSet(flags, IS_PREFAULTED, HAS_RESIZED);
  }

  lemma HostBitsAre(flags: bv64)
    ensures Prefaulted(flags) == flags | 0x20 && MovedOnce(flags) == flags | 0x40
  {
  }

  function PageOf(a: int): int {
    a / PAGE_SIZE
  }

  predicate Aligned(a: int) {
    a % PAGE_SIZE == 0
  }

  /** `x` is one of the `n` numbers from `lo` on. */
  predicate Within(x: int, lo: int, n: int) {
    lo <= x < lo + n
  }

  /** The first page that lies in the old and in the new range. */
  ghost function KeptFrom(v: VmArea): int
    reads v`start, v`end, v`oldStart, v`oldEnd, v`physStart, v`physEnd, v`file
  {
    if v.oldStart >= v.start then PageOf(v.oldStart) else PageOf(v.start)
  }

  /** The number of pages that lie in both. */
  ghost function KeptPages(v: VmArea): int
    reads v`start, v`end, v`oldStart, v`oldEnd, v`physStart, v`physEnd, v`file
  {
    (if v.oldEnd > v.end then PageOf(v.end) else PageOf(v.oldEnd)) - KeptFrom(v)
  }

  /** The frame that holds the first of them. */
  ghost function KeptFrame(v: VmArea): int
    reads v`start, v`end, v`oldStart, v`oldEnd, v`physStart, v`physEnd, v`file
  {
    PageOf(v.physStart) + (KeptFrom(v) - PageOf(v.oldStart))
  }

  ghost predicate Changed(v: VmArea)
    reads v`start, v`end, v`oldStart, v`oldEnd, v`physStart, v`physEnd, v`file
  {
    v.oldStart != v.start || v.oldEnd != v.end
  }

  /** The frames are to be moved: an anonymous area with frames whose range has changed. */
  ghost predicate Moves(v: VmArea)
    reads v`start, v`end, v`oldStart, v`oldEnd, v`physStart, v`physEnd, v`file
  {
    v.physStart != -1 && Changed(v) && v.file.fd == -1
  }

  /** Page `p` belongs to the area. */
  ghost predicate Covers(v: VmArea, p: int)
    reads v`start, v`end
  {
    PageOf(v.start) <= p < PageOf(v.end)
  }

  /** The pages of the area that have contents, and what they are. */
  ghost predicate Keeps(v: VmArea, p: int)
    reads v`start, v`end, v`oldStart, v`oldEnd, v`physStart, v`physEnd, v`file
  {
    v.physStart != -1 && Within(p, KeptFrom(v), KeptPages(v))
  }

  lemma PagesBetween(a: int, b: int)
    requires Aligned(a) && Aligned(b) && a < b
    ensures PageOf(b - a) == PageOf(b) - PageOf(a) > 0
  {
  }

  class Host {
    var next: nat                  // `page_counter`
    var table: map<int, int>       // what the page tables translate: page to frame
    var ram: map<int, Page>        // frames that have been written; all others read as zero
    var holes: set<int>            // frames whose host mapping was moved away
    const files: (VmFile, int) -> Page   // the contents of files, by byte offset; mappings of files are private

    constructor (next: nat, files: (VmFile, int) -> Page)
      ensures this.next == next && table == map[] && ram == map[] && holes == {} && this.files == files
    {
      this.next, this.files := next, files;
      table, ram, holes := map[], map[], {};
    }

    ghost function Zero(): Page {
      seq(PAGE_SIZE, _ => 0)
    }

    /** What nobody has written to reads as 4096 zero bytes. */
    lemma ZeroPage()
      ensures |Zero()| == 4096 && forall i :: 0 <= i < 4096 ==> Zero()[i] == 0
    {
    }

    ghost function Contents(f: int): Page
      reads this
    {
      if f in ram then ram[f] else Zero()
    }

    /** What the guest reads at page `p`. */
    ghost function Read(p: int): Page
      reads this
      requires p in table
    {
      Contents(table[p])
    }

    /** Frames not yet handed out have never been touched, and no page is translated to one. */
    ghost predicate Valid()
      reads this
    {
      && (forall f :: f in ram ==> f < next) && (forall f :: f in holes ==> f < next)
      && (forall p :: p in table ==> table[p] < next)
    }

    /** The guest writes a page; without a translation the access faults, and nothing is written. */
    method Store(p: int, data: Page)
      requires Valid()
      modifies this`ram
      ensures Valid()
      ensures p !in table ==> ram == old(ram)
      ensures forall f :: Contents(f) == if p in table && f == table[p] then data else old(Contents(f))
    {
      if p in table {
        ram := ram[table[p] := data];
      }
    }

    /** `map_physical_pages(start, -1, ., pages, MAP_CONTINUOUS)`. Page-table pages are taken from the same counter. */
    method MapPages(page: int, pages: nat) returns (frame: int)
      requires pages > 0 && Valid()
      modifies this`next, this`table
      ensures frame == old(next) && next >= old(next) + pages && Valid()
      ensures forall p :: Within(p, page, pages) ==> p in table && table[p] == frame + (p - page)
      ensures forall p :: !Within(p, page, pages) ==> (p in table <==> p in old(table))
      ensures forall p :: !Within(p, page, pages) && p in table ==> table[p] == old(table)[p]
    {
      frame := next;
      next := next + pages;
      var i := 0;
      while i < pages
        invariant 0 <= i <= pages && frame == old(next) && next >= frame + pages && Valid()
        invariant forall p :: Within(p, page, i) ==> p in table && table[p] == frame + (p - page)
        invariant forall p :: !Within(p, page, i) ==> (p in table <==> p in old(table))
        invariant forall p :: !Within(p, page, i) && p in table ==> table[p] == old(table)[p]
      {
        var tables :| tables >= 0;
        next := next + tables;
        table := table[page + i := frame + i];
        i := i + 1;
      }
    }

    /** `remap_region`: `mremap` with a fixed target moves the frames and leaves a hole behind. */
    method RemapRegion(from: int, to: int, size: nat)
      requires Valid() && from + size <= to && to + size <= next
      requires forall f :: Within(f, from, size) ==> f !in holes
      modifies this`ram, this`holes
      ensures Valid()
      ensures forall f :: Within(f, to, size) ==> f !in holes && Contents(f) == old(Contents(f - to + from))
      ensures forall f :: !Within(f, to, size) ==> (f in holes <==> f in old(holes) || Within(f, from, size))
      ensures forall f :: !Within(f, to, size) ==> Contents(f) == old(Contents(f))
    {
      var cleared := map f | f in ram && !Within(f, to, size) :: ram[f];
      var moved := map f | to <= f < to + size && Within(f, to, size) && f - to + from in ram :: ram[f - to + from];
      holes := (holes - (set f | to <= f < to + size && Within(f, to, size)))
               + (set f | from <= f < from + size && Within(f, from, size));
      ram := cleared + moved;
    }

    /** The page of the file that a mapping at frame `frame` shows in frame `f`. */
    function FilePage(file: VmFile, offset: int, frame: int, f: int): Page {
      files(file, offset + (f - frame) * PAGE_SIZE)
    }

    /** `mmap` of a file over fresh frames. */
    method MapFile(frame: int, pages: nat, file: VmFile, offset: int)
      requires Valid() && frame + pages <= next
      requires forall f :: Within(f, frame, pages) ==> f !in holes
      modifies this`ram
      ensures Valid()
      ensures forall f :: Within(f, frame, pages) ==> Contents(f) == FilePage(file, offset, frame, f)
      ensures forall f :: !Within(f, frame, pages) ==> Contents(f) == old(Contents(f))
    {
      var i := 0;
      while i < pages
        invariant 0 <= i <= pages && Valid()
        invariant forall f :: Within(f, frame, i) ==> Contents(f) == FilePage(file, offset, frame, f)
        invariant forall f :: !Within(f, frame, i) ==> Contents(f) == old(Contents(f))
      {
        ram := ram[frame + i := FilePage(file, offset, frame, frame + i)];
        i := i + 1;
      }
    }

    /** The record of an area's frames makes sense: either there are none or they cover the old range. */
    ghost predicate Framed(v: VmArea)
      reads this`next
      reads v`oldStart, v`oldEnd, v`physStart, v`physEnd
    {
      v.physStart != -1 ==>
        && 0 <= v.physStart && Aligned(v.physStart) && Aligned(v.oldStart) && Aligned(v.oldEnd)
        && v.oldStart < v.oldEnd && v.physEnd == v.physStart + (v.oldEnd - v.oldStart) && v.physEnd <= next * PAGE_SIZE
    }

    /** A moving area still overlaps its old range, and what it keeps has not been moved away. */
    ghost predicate Movable(v: VmArea)
      reads this`holes
      reads v`start, v`end, v`oldStart, v`oldEnd, v`physStart, v`physEnd, v`file
    {
      Moves(v) ==>
        && v.start < v.oldEnd && v.oldStart < v.end
        && forall f :: Within(f, KeptFrame(v), KeptPages(v)) ==> f !in holes
    }

    /** The move in `kernel_map_vma`: the frames of the intersection go to their place in the new frames. */
    method MoveKept(v: VmArea, newFrame: int)
      requires Valid() && v.start < v.end && Aligned(v.start) && Aligned(v.end) && Framed(v) && Movable(v) && Moves(v)
      requires v.physEnd <= newFrame * PAGE_SIZE && newFrame + PageOf(v.end - v.start) <= next
      modifies this`ram, this`holes
      ensures Valid()
      ensures 0 < KeptPages(v) && PageOf(v.start) <= KeptFrom(v) && KeptFrom(v) + KeptPages(v) <= PageOf(v.end)
      ensures 0 <= KeptFrame(v) && KeptFrame(v) + KeptPages(v) <= newFrame
      ensures var to := newFrame + (KeptFrom(v) - PageOf(v.start));
        && (forall f :: Within(f, to, KeptPages(v)) ==>
                          f !in holes && Contents(f) == old(Contents(f - to + KeptFrame(v))))
        && (forall f :: !Within(f, to, KeptPages(v)) ==>
                          (f in holes <==> f in old(holes) || Within(f, KeptFrame(v), KeptPages(v))))
        && (forall f :: !Within(f, to, KeptPages(v)) ==> Contents(f) == old(Contents(f)))
    {
      var oldSize := v.physEnd - v.physStart;
      var newPhys := newFrame * PAGE_SIZE;
      var cut := if v.oldEnd > v.end then v.oldEnd - v.end else 0;
      if v.oldStart >= v.start {
        var moveSize := oldSize - cut;
        assert PageOf(moveSize) == KeptPages(v);
        assert PageOf(newPhys + (v.oldStart - v.start)) == newFrame + (KeptFrom(v) - PageOf(v.start));
        RemapRegion(PageOf(v.physStart), PageOf(newPhys + (v.oldStart - v.start)), PageOf(moveSize));
      } else {
        var moveSize := oldSize - (v.start - v.oldStart) - cut;
        assert PageOf(moveSize) == KeptPages(v);
        assert PageOf(v.physStart + (v.start - v.oldStart)) == KeptFrame(v);
        RemapRegion(PageOf(v.physStart + (v.start - v.oldStart)), newFrame, PageOf(moveSize));
      }
    }

    /** The new range is mapped to frames `frame` onwards, in order, and no other page is touched. */
    twostate predicate Remapped(v: VmArea, frame: int)
      reads this`table, this`holes
      reads v`start, v`end, v`oldStart, v`oldEnd, v`physStart, v`physEnd, v`file
    {
      && (forall p :: Covers(v, p) ==> p in table && table[p] == frame + (p - PageOf(v.start)) && table[p] !in holes)
      && (forall p :: !Covers(v, p) ==> (p in table <==> p in old(table)))
      && (forall p :: !Covers(v, p) && p in table ==> table[p] == old(table)[p])
    }

    /** No frame below `limit` changes its contents, and only the `n` frames from `from` on are moved away. */
    twostate predicate OthersKept(limit: int, from: int, n: int)
      reads this
    {
      && (forall f :: f < limit ==> (f in holes <==> f in old(holes) || Within(f, from, n)))
      && (forall f :: f < limit ==> Contents(f) == old(Contents(f)))
    }

    /** The part of `kernel_map_vma` that moves an anonymous area into fresh frames. */
    method PlaceMoved(v: VmArea) returns (frame: int)
      requires Valid() && v.start < v.end && Aligned(v.start) && Aligned(v.end)
      requires Framed(v) && Movable(v) && Moves(v)
      modifies this`next, this`table, this`ram, this`holes
      ensures Valid() && frame == old(next) && next >= frame + PageOf(v.end - v.start) && Remapped(v, frame)
      ensures forall p :: Covers(v, p) ==>
        Contents(table[p]) == if Within(p, KeptFrom(v), KeptPages(v)) then old(Contents(KeptFrame(v) + (p - KeptFrom(v)))) else Zero()
      ensures OthersKept(frame, KeptFrame(v), KeptPages(v))
    {
      hide PageOf, Aligned, KeptFrom, KeptPages, KeptFrame;
      PagesBetween(v.start, v.end);
      frame := MapPages(PageOf(v.start), PageOf(v.end - v.start));
      MoveKept(v, frame);
    }

    /** The part of `kernel_map_vma` that gives an area fresh frames, shared with its file if it has one. */
    method PlaceFresh(v: VmArea) returns (frame: int)
      requires Valid() && v.start < v.end && Aligned(v.start) && Aligned(v.end)
      modifies this`next, this`table, this`ram
      ensures Valid() && frame == old(next) && next >= frame + PageOf(v.end - v.start) && Remapped(v, frame)
      ensures forall p :: Covers(v, p) ==>
        Contents(table[p]) == if v.file.fd == -1 then Zero() else FilePage(v.file, v.pageOffset, PageOf(v.start), p)
      ensures OthersKept(frame, 0, 0)
    {
      frame := MapPages(PageOf(v.start), PageOf(v.end - v.start));
      if v.file.fd != -1 {
        MapFile(frame, PageOf(v.end - v.start), v.file, v.pageOffset);
      }
    }

    /** The frames that `kernel_map_vma` gives an area. */
    method PlaceFrames(v: VmArea) returns (frame: int)
      requires Valid() && v.start < v.end && Aligned(v.start) && Aligned(v.end)
      requires Framed(v) && Movable(v) && (v.physStart == -1 || Changed(v))
      modifies this`next, this`table, this`ram, this`holes, v`flags
      ensures Valid() && frame == old(next) && next >= frame + PageOf(v.end - v.start) && Remapped(v, frame)
      ensures v.flags == if Moves(v) then MovedOnce(old(v.flags)) else old(v.flags)
      ensures Moves(v) ==> forall p :: Covers(v, p) ==>
        Contents(table[p]) == if Within(p, KeptFrom(v), KeptPages(v)) then old(Contents(KeptFrame(v) + (p - KeptFrom(v)))) else Zero()
      ensures !Moves(v) ==> forall p :: Covers(v, p) ==>
        Contents(table[p]) == if v.file.fd == -1 then Zero() else FilePage(v.file, v.pageOffset, PageOf(v.start), p)
      ensures OthersKept(frame, if Moves(v) then KeptFrame(v) else 0, if Moves(v) then KeptPages(v) else 0)
    {
      hide FilePage, MovedOnce, Contents;
      if v.physStart != -1 && (v.oldStart != v.start || v.oldEnd != v.end) && v.file.fd == -1 {
        frame := PlaceMoved(v);
        v.flags := MovedOnce(v.flags);
      } else {
        frame := PlaceFresh(v);
      }
    }

    /** The bookkeeping at the end of `kernel_map_vma`. */
    method RecordFrames(v: VmArea, frame: nat)
      requires v.start < v.end && Aligned(v.start) && Aligned(v.end) && frame + PageOf(v.end - v.start) <= next
      modifies v`physStart, v`physEnd, v`oldStart, v`oldEnd, v`flags
      ensures Framed(v) && v.physStart != -1 && !Changed(v) && PageOf(v.physStart) == frame
      ensures v.flags == Prefaulted(old(v.flags))
    {
      v.physStart := frame * PAGE_SIZE;
      v.physEnd := v.physStart + PageOf(v.end - v.start) * PAGE_SIZE;
      v.oldStart, v.oldEnd := v.start, v.end;
      v.flags := Prefaulted(v.flags);
    }

    /**
     `kernel_map_vma`: an area that is not mapped where it should be gets fresh frames. Of an anonymous
     area that already had frames every page in the old and the new range reads as before and the rest
     reads zero; an area with a file shows the file.
     */
    method KernelMapVma(v: VmArea)
      requires Valid() && v.start < v.end && Aligned(v.start) && Aligned(v.end)
      requires Framed(v) && Movable(v)
      modifies this`next, this`table, this`ram, this`holes
      modifies v`physStart, v`physEnd, v`oldStart, v`oldEnd, v`flags
      ensures Valid() && next >= old(next) && Framed(v) && v.physStart != -1 && !Changed(v)
      ensures Essential(v.flags) == old(Essential(v.flags))
      ensures v.flags == old(if v.physStart != -1 && !Changed(v) then v.flags else Prefaulted(if Moves(v) then MovedOnce(v.flags) else v.flags))
      ensures old(v.physStart != -1 && !Changed(v)) ==>
                next == old(next) && table == old(table) && ram == old(ram) && holes == old(holes)
                && v.physStart == old(v.physStart)
      ensures old(v.physStart == -1 || Changed(v)) ==>
                PageOf(v.physStart) == old(next) && next >= old(next) + PageOf(v.end - v.start) && Remapped(v, old(next))
      ensures old(Moves(v)) ==> forall p :: Covers(v, p) ==>
        Contents(table[p]) == if Within(p, old(KeptFrom(v)), old(KeptPages(v)))
                              then old(Contents(KeptFrame(v) + (p - KeptFrom(v)))) else Zero()
      ensures old(!Moves(v) && (v.physStart == -1 || Changed(v))) ==> forall p :: Covers(v, p) ==>
        Contents(table[p]) == if v.file.fd == -1 then Zero() else FilePage(v.file, v.pageOffset, PageOf(v.start), p)
      ensures old(Moves(v)) ==> OthersKept(old(next), old(KeptFrame(v)), old(KeptPages(v)))
      ensures old(!Moves(v)) ==> OthersKept(old(next), 0, 0)
    {
      hide FilePage, Essential, Prefaulted, MovedOnce, Contents, Zero, KeptFrom, KeptPages, KeptFrame;
      var changed := v.oldStart != v.start || v.oldEnd != v.end;
      if v.physStart == -1 || changed {
        HostFlags(v.flags);
        var frame := PlaceFrames(v);
        HostFlags(v.flags);
        RecordFrames(v, frame);
      }
    }

    /** `kernel_unmap_vma`: the pages the area was last mapped at lose their translation. */
    method KernelUnmapVma(v: VmArea)
      requires Valid() && Framed(v)
      modifies this`next, this`table
      ensures Valid() && next >= old(next)
      ensures var gone := v.physStart != -1;
        && (forall p :: gone && PageOf(v.oldStart) <= p < PageOf(v.oldEnd) ==> p !in table)
        && (forall p :: !(gone && PageOf(v.oldStart) <= p < PageOf(v.oldEnd)) ==>
                          (p in table <==> p in old(table)) && (p in table ==> table[p] == old(table)[p]))
    {
      if v.physStart != -1 {
        var pages := PageOf(v.oldEnd - v.oldStart);
        var i := 0;
        while i < pages
          invariant 0 <= i <= pages && Valid() && next >= old(next)
          invariant forall p :: PageOf(v.oldStart) <= p < PageOf(v.oldStart) + i ==> p !in table
          invariant forall p :: !(PageOf(v.oldStart) <= p < PageOf(v.oldStart) + i) ==>
                                  (p in table <==> p in old(table)) && (p in table ==> table[p] == old(table)[p])
        {
          var tables :| tables >= 0;
          next := next + tables;
          table := table - {PageOf(v.oldStart) + i};
          i := i + 1;
        }
      }
    }

    // ---------------------------------------------------------------- areas side by side

    /** The area has a proper range, and what it keeps of its frames has not been moved away. */
    ghost predicate Housed(v: VmArea)
      reads this`next, this`holes
      reads v`start, v`end, v`oldStart, v`oldEnd, v`physStart, v`physEnd, v`file
    {
      && v.start < v.end && Aligned(v.start) && Aligned(v.end) && Framed(v)
      && (v.physStart != -1 ==>
            && v.start < v.oldEnd && v.oldStart < v.end
            && forall f :: Within(f, KeptFrame(v), KeptPages(v)) ==> f !in holes)
    }

    ghost function Shows(v: VmArea, p: int): Page
      reads this
      reads v`start, v`end, v`oldStart, v`oldEnd, v`physStart, v`physEnd, v`file
    {
      Contents(KeptFrame(v) + (p - KeptFrom(v)))
    }

    /** The page tables translate every page of the area to its frame. */
    ghost predicate Mapped(v: VmArea)
      reads this`table
      reads v`start, v`end, v`oldStart, v`oldEnd, v`physStart, v`physEnd, v`file
    {
      forall p :: Covers(v, p) ==> p in table && table[p] == KeptFrame(v) + (p - KeptFrom(v))
    }

    /** `kernel_map_vma` for an area that has changed. */
    method SettleAlone(v: VmArea)
      requires Valid() && Housed(v) && !InPlace(v)
      modifies this`next, this`table, this`ram, this`holes
      modifies v`physStart, v`physEnd, v`oldStart, v`oldEnd, v`flags
      ensures Valid() && next >= old(next) && Housed(v) && InPlace(v) && Mapped(v) && KeptFrame(v) == old(next)
      ensures OthersKept(old(next), old(KeptFrame(v)), old(if Moves(v) then KeptPages(v) else 0))
      ensures forall p :: !Covers(v, p) ==> (p in table <==> p in old(table))
      ensures forall p :: !Covers(v, p) && p in table ==> table[p] == old(table)[p]
      ensures Essential(v.flags) == old(Essential(v.flags))
      ensures v.file.fd == -1 ==> forall p :: Covers(v, p) ==> Shows(v, p) == if old(Keeps(v, p)) then old(Shows(v, p)) else Zero()
      ensures v.file.fd != -1 ==> forall p :: Covers(v, p) ==> Shows(v, p) == FilePage(v.file, v.pageOffset, PageOf(v.start), p)
    {
      hide Essential, FilePage, Zero, Contents;
      KernelMapVma(v);
      forall f | Within(f, KeptFrame(v), KeptPages(v))
        ensures f !in holes
      {
        assert Covers(v, f - KeptFrame(v) + PageOf(v.start));
      }
    }

    /** `kernel_map_vma` for an area that has changed, among others. */
    method Settle(v: VmArea, ghost rest: set<VmArea>)
      requires Valid() && Housed(v) && !InPlace(v) && v !in rest
      requires forall w :: w in rest ==> Housed(w) && Apart(v, w)
      modifies this`next, this`table, this`ram, this`holes
      modifies v`physStart, v`physEnd, v`oldStart, v`oldEnd, v`flags
      ensures Valid() && next >= old(next) && Housed(v) && InPlace(v) && Mapped(v)
      ensures forall w :: w in rest ==> Housed(w) && Apart(v, w)
      ensures forall w, p :: w in rest && Keeps(w, p) ==> Shows(w, p) == old(Shows(w, p))
      ensures forall p :: !Covers(v, p) ==> (p in table <==> p in old(table))
      ensures forall p :: !Covers(v, p) && p in table ==> table[p] == old(table)[p]
      ensures Essential(v.flags) == old(Essential(v.flags))
      ensures v.file.fd == -1 ==> forall p :: Covers(v, p) ==> Shows(v, p) == if old(Keeps(v, p)) then old(Shows(v, p)) else Zero()
      ensures v.file.fd != -1 ==> forall p :: Covers(v, p) ==> Shows(v, p) == FilePage(v.file, v.pageOffset, PageOf(v.start), p)
    {
      SettleAlone(v);
    }
  }

  /** The area is mapped where it should be. */
  ghost predicate InPlace(v: VmArea)
    reads v`start, v`end, v`oldStart, v`oldEnd, v`physStart, v`physEnd, v`file
  {
    v.physStart != -1 && v.oldStart == v.start && v.oldEnd == v.end
  }

  /** The frames that two areas keep are different ones. */
  ghost predicate Apart(v: VmArea, w: VmArea)
    reads v`start, v`end, v`oldStart, v`oldEnd, v`physStart, v`physEnd, v`file
    reads w`start, w`end, w`oldStart, w`oldEnd, w`physStart, w`physEnd, w`file
  {
    v.physStart != -1 && w.physStart != -1 ==>
      || KeptFrame(v) + KeptPages(v) <= KeptFrame(w)
      || KeptFrame(w) + KeptPages(w) <= KeptFrame(v)
  }
}
