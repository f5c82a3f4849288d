/**
 Page-table entries (common/paging.h), and tables as they lie in a flat physical memory of bytes.
 */
module PageEntries {
  import opened Basics
  import opened Words

  const PRESENT := 1
  const WRITEABLE := 2
  const USER := 4
  const ENTRIES := 512

  type Memory = seq<Byte>

  predicate Present(w: nat) {
    w % 2 == 1
  }

  /** The address bits of an entry, 12 to 55, as a frame number. */
  function FrameIn(w: nat): nat {
    Low(Shr(w, 12), 44)
  }

  /** A frame whose address has no more than the 52 bits that a processor can have. */
  predicate Addressable(f: nat) {
    Shr(f, 40) == 0
  }

  /** A word that has no address bit, and fits in an entry. */
  predicate OnlyFlags(w: nat) {
    FrameIn(w) == 0 && Fits(w, 8)
  }

  lemma SmallFlags(w: nat)
    requires w < 4096
    ensures OnlyFlags(w)
  {
    ShrMonotone(w, 4095, 12);
    assert Shr(4095, 12) == 0;
    ShrZero(44);
    ShrPlus(w, 12, 52);
    ShrZero(52);
    FitsShr(w, 8);
  }

  lemma FitsZero(n: nat)
    ensures Fits(0, n)
  {
  }

  lemma {:induction false} FitsShr(w: nat, n: nat)
    requires Shr(w, 8 * n) == 0
    ensures Fits(w, n)
    decreases n
  {
    if n > 0 {
      ShrPlus(w, 8, 8 * (n - 1));
      ShrByte(w);
      FitsShr(w / 256, n - 1);
    }
  }

  /** The address of a frame, as a word. */
  lemma AddressWord(f: nat)
    requires Addressable(f)
    ensures FrameIn(f * PAGE_SIZE) == f && Fits(f * PAGE_SIZE, 8) && !Present(f * PAGE_SIZE)
  {
    ShrPage(f);
    ShrPlus(f, 40, 4);
    ShrZero(4);
    LowWhole(f, 44);
    ShrPlus(f * 4096, 12, 52);
    ShrPlus(f, 44, 8);
    ShrZero(8);
    FitsShr(f * 4096, 8);
  }

  /** Setting flags changes neither the frame nor what is present. */
  lemma OrFlags(w: nat, flags: nat)
    requires OnlyFlags(flags) && Fits(w, 8)
    ensures FrameIn(BitOr(w, flags)) == FrameIn(w) && Fits(BitOr(w, flags), 8)
    ensures Present(BitOr(w, flags)) <==> Present(w) || Present(flags)
  {
    OrShr(w, flags, 12);
    OrLow(Shr(w, 12), Shr(flags, 12), 44);
    OrFits(w, flags, 8);
    OrBit(w, flags);
  }

  /** `PDE64_PRESENT | flags | page` */
  function MakeEntry(flags: nat, f: nat): nat {
    BitOr(BitOr(PRESENT, flags), f * PAGE_SIZE)
  }

  lemma MadeEntry(flags: nat, f: nat)
    requires OnlyFlags(flags) && Addressable(f)
    ensures Present(MakeEntry(flags, f)) && FrameIn(MakeEntry(flags, f)) == f && Fits(MakeEntry(flags, f), 8)
  {
    SmallFlags(PRESENT);
    OrFlags(PRESENT, flags);
    AddressWord(f);
    var low := BitOr(PRESENT, flags);
    OrShr(low, f * 4096, 12);
    OrLow(Shr(low, 12), Shr(f * 4096, 12), 44);
    OrFits(low, f * 4096, 8);
    OrBit(low, f * 4096);
  }

  /** An entry that leads to the table in frame `f`, as `build_page_tables` writes it. */
  function TableEntry(f: nat): nat {
    BitOr(BitOr(BitOr(f * PAGE_SIZE, PRESENT), USER), WRITEABLE)
  }

  lemma OrStep(a: nat, b: nat)
    ensures BitOr(a, b) == (if a % 2 == 1 || b % 2 == 1 then 1 else 0) + 2 * BitOr(a / 2, b / 2)
    ensures BitOr(a, 0) == a && BitOr(0, b) == b
  {
  }

  /** The entries above the lowest level all have the same flags, and setting them again changes nothing. */
  lemma TableEntryIs(f: nat)
    requires Addressable(f)
    ensures TableEntry(f) == f * PAGE_SIZE + 7 && Present(TableEntry(f)) && FrameIn(TableEntry(f)) == f && Fits(TableEntry(f), 8)
    ensures BitOr(TableEntry(f), BitOr(USER, WRITEABLE)) == TableEntry(f)
    ensures MakeEntry(BitOr(USER, WRITEABLE), f) == TableEntry(f)
  {
    hide BitOr, FrameIn;
    AddressWord(f);
    SmallFlags(PRESENT);
    SmallFlags(USER);
    SmallFlags(WRITEABLE);
    OrFlags(f * PAGE_SIZE, PRESENT);
    OrFlags(BitOr(f * PAGE_SIZE, PRESENT), USER);
    OrFlags(BitOr(BitOr(f * PAGE_SIZE, PRESENT), USER), WRITEABLE);
    TableBits(512 * f);
  }

  /** The flags in the lowest three bits, one by one and at once. */
  lemma TableBits(c: nat)
    ensures BitOr(BitOr(BitOr(8 * c, PRESENT), USER), WRITEABLE) == 8 * c + 7
    ensures BitOr(USER, WRITEABLE) == 6 && BitOr(8 * c + 7, 6) == 8 * c + 7 && BitOr(BitOr(PRESENT, 6), 8 * c) == 8 * c + 7
  {
    hide BitOr;
    OrThree(c, 0, 0, 0, 1);
    OrThree(c, 0, 0, 1, 4);
    OrThree(c, 1, 0, 1, 2);
    OrThree(0, 1, 0, 0, 2);
    OrThree(c, 1, 1, 1, 6);
    OrThree(0, 0, 0, 1, 6);
    OrStep(7, 8 * c);
    OrStep(3, 4 * c);
    OrStep(1, 2 * c);
    OrStep(0, c);
  }

  lemma OrThree(c: nat, b2: nat, b1: nat, b0: nat, f: nat)
    requires b2 < 2 && b1 < 2 && b0 < 2 && f < 8
    ensures BitOr(8 * c + 4 * b2 + 2 * b1 + b0, f) ==
            8 * c + 4 * (if b2 == 1 || f / 4 == 1 then 1 else 0) + 2 * (if b1 == 1 || f / 2 % 2 == 1 then 1 else 0)
            + (if b0 == 1 || f % 2 == 1 then 1 else 0)
  {
    hide BitOr;
    OrStep(8 * c + 4 * b2 + 2 * b1 + b0, f);
    OrStep(4 * c + 2 * b2 + b1, f / 2);
    OrStep(2 * c + b2, f / 4);
    OrStep(c, 0);
  }

  // ---------------------------------------------------------------- tables in memory

  function Slot(f: nat, i: nat): nat {
    f * PAGE_SIZE + 8 * i
  }

  predicate InMemory(m: Memory, f: nat) {
    (f + 1) * PAGE_SIZE <= |m|
  }

  /** Entry `i` of the table in frame `f`. */
  function Entry(m: Memory, f: nat, i: nat): nat {
    if i < ENTRIES && InMemory(m, f) then FromBytes(m[Slot(f, i)..Slot(f, i) + 8]) else 0
  }

  function PutEntry(m: Memory, f: nat, i: nat, w: nat): (r: Memory)
    ensures |r| == |m|
  {
    if i < ENTRIES && InMemory(m, f) then m[..Slot(f, i)] + ToBytes(w, 8) + m[Slot(f, i) + 8..] else m
  }

  lemma PutEntryAt(m: Memory, f: nat, i: nat, w: nat, a: nat)
    requires i < ENTRIES && InMemory(m, f) && a < |m|
    ensures PutEntry(m, f, i, w)[a] == if Slot(f, i) <= a < Slot(f, i) + 8 then ToBytes(w, 8)[a - Slot(f, i)] else m[a]
  {
  }

  /** Bytes outside the entry are untouched. */
  lemma PutByte(m: Memory, f: nat, i: nat, w: nat, a: nat)
    requires i < ENTRIES && InMemory(m, f) && a < |m| && !(Slot(f, i) <= a < Slot(f, i) + 8)
    ensures PutEntry(m, f, i, w)[a] == m[a]
  {
  }

  /** One entry changes, and no other. */
  lemma EntryPut(m: Memory, f: nat, i: nat, w: nat, g: nat, j: nat)
    requires i < ENTRIES && InMemory(m, f) && Fits(w, 8)
    ensures Entry(PutEntry(m, f, i, w), g, j) == if g == f && j == i then w else Entry(m, g, j)
  {
    var r := PutEntry(m, f, i, w);
    if g == f && j == i {
      assert r[Slot(f, i)..Slot(f, i) + 8] == ToBytes(w, 8);
      BytesTrip(w, 8);
    } else if j < ENTRIES && InMemory(m, g) {
      SlotsApart(f, i, g, j);
      assert r[Slot(g, j)..Slot(g, j) + 8] == m[Slot(g, j)..Slot(g, j) + 8];
    }
  }

  lemma SlotsApart(f: nat, i: nat, g: nat, j: nat)
    requires i < ENTRIES && j < ENTRIES && !(g == f && j == i)
    ensures Slot(g, j) + 8 <= Slot(f, i) || Slot(f, i) + 8 <= Slot(g, j)
  {
  }

  /** An entry is made of bytes of its table's frame. */
  lemma EntryBytes(m: Memory, n: Memory, f: nat, i: nat)
    requires |m| == |n| && forall a :: f * PAGE_SIZE <= a < (f + 1) * PAGE_SIZE && a < |m| ==> m[a] == n[a]
    ensures Entry(m, f, i) == Entry(n, f, i)
  {
    if i < ENTRIES && InMemory(m, f) {
      assert m[Slot(f, i)..Slot(f, i) + 8] == n[Slot(f, i)..Slot(f, i) + 8];
    }
  }

  lemma EntryZero(m: Memory, f: nat, i: nat)
    requires forall a :: f * PAGE_SIZE <= a < |m| ==> m[a] == 0
    ensures Entry(m, f, i) == 0
  {
    if i < ENTRIES && InMemory(m, f) {
      ZeroBytes(m[Slot(f, i)..Slot(f, i) + 8]);
    }
  }

  /** Writing back what is there. */
  lemma PutSame(m: Memory, f: nat, i: nat)
    ensures PutEntry(m, f, i, Entry(m, f, i)) == m
  {
    hide ToBytes, FromBytes;
    if i < ENTRIES && InMemory(m, f) { BytesBack(m[Slot(f, i)..Slot(f, i) + 8]); }
  }
}
