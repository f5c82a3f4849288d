/**
 The virtual-memory area record of common/vma.h and the pure pictures ("snapshots") of a set of
 such records that the proofs reason about.
 */
module VmAreas {

  /** `vm_file_t`: fd is -1 for an anonymous area. */
  datatype VmFile = VmFile(fd: int, dev: int, inode: int)

  const NO_FILE := VmFile(-1, -1, -1)

  /**
   `vm_area_t`. The packed word `__rb_parent_color` of the embedded tree node is kept as the two
   fields it encodes.
   */
  class VmArea {
    var start: nat
    var end: nat
    var prot: bv64
    var flags: bv64
    // Host bookkeeping: the frames that back the area, and the range they were mapped at.
    var physStart: int
    var physEnd: int
    var oldStart: nat
    var oldEnd: nat
    // Address-ordered list
    var prev: VmArea?
    var next: VmArea?
    // Red-black tree
    var rbParent: VmArea?
    var rbBlack: bool
    var rbRight: VmArea?
    var rbLeft: VmArea?
    var subtreeGap: nat
    var pageOffset: int
    var file: VmFile

    /** `vma_zalloc`: a fresh, zeroed record. */
    constructor Zalloc()
      ensures start == end == oldStart == oldEnd == subtreeGap == 0
      ensures physStart == physEnd == pageOffset == 0 && prot == flags == 0
      ensures prev == next == rbParent == rbRight == rbLeft == null && !rbBlack
      ensures file == VmFile(0, 0, 0)
    {
      start, end, oldStart, oldEnd, subtreeGap := 0, 0, 0, 0, 0;
      physStart, physEnd, pageOffset, prot, flags := 0, 0, 0, 0, 0;
      prev, next, rbParent, rbRight, rbLeft, rbBlack := null, null, null, null, null, false;
      file := VmFile(0, 0, 0);
    }

    /** `vma_zalloc` and `*new = *v`. */
    constructor CopyOf(v: VmArea)
      ensures start == v.start && end == v.end && prot == v.prot && flags == v.flags
      ensures physStart == v.physStart && physEnd == v.physEnd && oldStart == v.oldStart && oldEnd == v.oldEnd
      ensures prev == v.prev && next == v.next && subtreeGap == v.subtreeGap
      ensures rbParent == v.rbParent && rbBlack == v.rbBlack && rbRight == v.rbRight && rbLeft == v.rbLeft
      ensures pageOffset == v.pageOffset && file == v.file
    {
      start, end, oldStart, oldEnd, subtreeGap := v.start, v.end, v.oldStart, v.oldEnd, v.subtreeGap;
      physStart, physEnd, pageOffset, prot, flags := v.physStart, v.physEnd, v.pageOffset, v.prot, v.flags;
      prev, next, rbParent, rbRight, rbLeft, rbBlack := v.prev, v.next, v.rbParent, v.rbRight, v.rbLeft, v.rbBlack;
      file := v.file;
    }
  }

  /** The three tree pointers of a record. */
  datatype Link = Link(left: VmArea?, right: VmArea?, parent: VmArea?)

  ghost function LinksOf(s: set<VmArea>): map<VmArea, Link>
    reads s`rbLeft, s`rbRight, s`rbParent
  {
    map n | n in s :: Link(n.rbLeft, n.rbRight, n.rbParent)
  }

  ghost function GapsOf(s: set<VmArea>): map<VmArea, int>
    reads s`subtreeGap
  {
    map n | n in s :: n.subtreeGap
  }

  ghost function ColoursOf(s: set<VmArea>): map<VmArea, bool>
    reads s`rbBlack
  {
    map n | n in s :: n.rbBlack
  }

  /** A snapshot covers exactly the records it is taken of. */
  lemma SnapshotKeys(s: set<VmArea>)
    ensures LinksOf(s).Keys == GapsOf(s).Keys == ColoursOf(s).Keys == s
  {
  }

  /** The element at position `i`, if there is one. */
  function At(list: seq<VmArea>, i: int): VmArea? {
    if 0 <= i < |list| then list[i] else null
  }
}
