/**
 vm/paging.c: mapping, unmapping and translating pages in a flat memory whose pages are handed out by a counter,
 and copying bytes to and from virtual addresses. Frames and pages are numbered.
 */
module Paging {
  import opened Basics
  import opened HostMemory
  import opened Words
  import opened PageEntries
  import opened PageTables
  import opened PageWalks
  import opened VirtualBytes

  const PAGE_CREATE := -1

  // ---------------------------------------------------------------- the plain map

  /** The leaf entry that `map_physical_page` writes: whatever the flags ask for, the page becomes writeable. */
  function LeafWord(flags: nat, f: nat): nat {
    MakeEntry(BitOr(flags, WRITEABLE), f)
  }

  function MapOne(m: map<nat, nat>, p: nat, w: nat, noOverwrite: bool): map<nat, nat> {
    if noOverwrite && p in m then m else m[p := w]
  }

  /** Pages from `page` on are mapped to the frames `fs`, one after the other. */
  function MapEach(m: map<nat, nat>, page: nat, fs: seq<nat>, flags: nat, noOverwrite: bool): map<nat, nat> {
    if fs == [] then m
    else MapOne(MapEach(m, page, fs[..|fs| - 1], flags, noOverwrite), (page + |fs| - 1) % PAGES, LeafWord(flags, fs[|fs| - 1]), noOverwrite)
  }

  /** How far page `q` is behind page `page`, going around. */
  function Distance(page: nat, q: nat): nat
    requires q < PAGES
  {
    (q + PAGES - page % PAGES) % PAGES
  }

  lemma DistanceIs(page: nat, q: nat, n: nat)
    requires q < PAGES && n < PAGES
    ensures (page + n) % PAGES == q <==> n == Distance(page, q)
  {
    var p := page % PAGES;
    assert (page + n) % PAGES == (p + n) % PAGES;
  }

  /** Each page gets its frame, unless it had one that is not to be overwritten, and no other page is touched. */
  lemma {:induction false} MapEachAt(m: map<nat, nat>, page: nat, fs: seq<nat>, flags: nat, noOverwrite: bool, q: nat)
    requires |fs| <= PAGES && q < PAGES
    ensures var r, k := MapEach(m, page, fs, flags, noOverwrite), Distance(page, q);
      && (k < |fs| ==> q in r && r[q] == if noOverwrite && q in m then m[q] else LeafWord(flags, fs[k]))
      && (k >= |fs| ==> (q in r <==> q in m) && (q in m ==> r[q] == m[q]))
  {
    hide Distance, LeafWord;
    if fs != [] {
      MapEachAt(m, page, fs[..|fs| - 1], flags, noOverwrite, q);
      DistanceIs(page, q, |fs| - 1);
    }
  }

  /** `n` frames in a row. */
  function Row(f: nat, n: nat): (s: seq<nat>)
    ensures |s| == n && forall i :: 0 <= i < n ==> s[i] == f + i
  {
    seq(n, i requires 0 <= i < n => f + i)
  }

  /** A leaf entry gives what its flags ask for, and always the right to write. */
  lemma LeafRights(flags: nat, f: nat)
    requires OnlyFlags(flags) && Addressable(f)
    ensures var w := LeafWord(flags, f);
      Present(w) && FrameIn(w) == f && (Bit(w, 2) <==> Bit(flags, 2)) && Bit(w, 1) && (Bit(w, 63) <==> Bit(flags, 63))
  {
    hide BitOr, FrameIn, Shr, Fits;
    SmallFlags(WRITEABLE);
    OrFlags(flags, WRITEABLE);
    MadeEntry(BitOr(flags, WRITEABLE), f);
    LeafBit(flags, f, 1);
    LeafBit(flags, f, 2);
    LeafBit(flags, f, 63);
    FirstBits(WRITEABLE);
    FirstBits(f * 4096);
    FirstBits(PRESENT);
    HighBit(f);
  }

  lemma LeafBit(flags: nat, f: nat, k: nat)
    ensures Bit(LeafWord(flags, f), k) <==> Bit(PRESENT, k) || Bit(flags, k) || Bit(WRITEABLE, k) || Bit(f * PAGE_SIZE, k)
  {
    hide BitOr, Shr;
    var a, b, c, d := PRESENT, flags, WRITEABLE, f * 4096;
    OrShr(b, c, k);
    OrBit(Shr(b, k), Shr(c, k));
    OrShr(a, BitOr(b, c), k);
    OrBit(Shr(a, k), Shr(BitOr(b, c), k));
    OrShr(BitOr(a, BitOr(b, c)), d, k);
    OrBit(Shr(BitOr(a, BitOr(b, c)), k), Shr(d, k));
  }

  lemma HighBit(f: nat)
    requires Addressable(f)
    ensures !Bit(f * PAGE_SIZE, 63) && !Bit(WRITEABLE, 63) && !Bit(PRESENT, 63)
  {
    hide Shr;
    ShrPage(f);
    ShrPlus(f * 4096, 12, 51);
    ShrPlus(f, 40, 11);
    ShrZero(11);
    FirstBits(WRITEABLE);
    ShrPlus(WRITEABLE, 2, 61);
    ShrZero(61);
    FirstBits(PRESENT);
    ShrPlus(PRESENT, 1, 62);
    ShrZero(62);
  }

  // ---------------------------------------------------------------- data frames

  /** A frame that has been handed out and holds no table. */
  ghost predicate IsData(t: Tables, c: nat, f: nat) {
    f < c && !IsTable(t, f)
  }

  /** Mapped frames hold data. */
  ghost predicate DataApart(pages: map<nat, nat>, t: Tables, c: nat) {
    forall p :: p in pages ==> IsData(t, c, FrameIn(pages[p]))
  }

  /** Frames have been handed out since, some for tables, and no data has changed. */
  ghost predicate Extends(m: Memory, t: Tables, c: nat, n: Memory, u: Tables, d: nat) {
    c <= d && Grew(t, u, c) && DataKept(m, n, t, c)
  }

  lemma ExtendsSame(m: Memory, t: Tables, c: nat, d: nat)
    requires c <= d
    ensures Extends(m, t, c, m, t, d)
  {
  }

  lemma ExtendsTwice(m: Memory, t: Tables, c: nat, n: Memory, u: Tables, d: nat, o: Memory, v: Tables, e: nat)
    requires Extends(m, t, c, n, u, d) && Extends(n, u, d, o, v, e)
    ensures Extends(m, t, c, o, v, e) && c <= e
  {
    hide IsTable;
    assert forall f: nat :: f < c && IsTable(u, f) ==> IsTable(t, f);
  }

  ghost predicate Zeroed(m: Memory, f: nat) {
    forall a :: 0 <= a < |m| && a / PAGE_SIZE == f ==> m[a] == 0
  }

  lemma ExtendsData(m: Memory, t: Tables, c: nat, n: Memory, u: Tables, d: nat, f: nat)
    requires Extends(m, t, c, n, u, d) && IsData(t, c, f)
    ensures IsData(u, d, f) && (Zeroed(m, f) ==> Zeroed(n, f))
  {
    hide IsTable;
  }

  lemma ExtendsApart(m: Memory, t: Tables, c: nat, n: Memory, u: Tables, d: nat, pages: map<nat, nat>)
    requires Extends(m, t, c, n, u, d) && DataApart(pages, t, c)
    ensures DataApart(pages, u, d)
  {
    hide IsTable, FrameIn;
    forall p | p in pages
      ensures IsData(u, d, FrameIn(pages[p]))
    {
      ExtendsData(m, t, c, n, u, d, FrameIn(pages[p]));
    }
  }

  // ---------------------------------------------------------------- memory

  class PhysicalMemory {
    const mem: array<Byte>
    var counter: nat                 // `page_counter`
    var pml4: nat                    // the frame of the top-level table
    // Witness: where the tables are.
    ghost var tables: Tables

    ghost predicate Valid()
      reads this, mem
    {
      Wired(mem[..], tables, counter) && pml4 == tables.root && DataApart(Map(), tables, counter)
    }

    /** The pages that the tables translate, each with its leaf entry. */
    ghost function Map(): map<nat, nat>
      reads this, mem
    {
      Pages(mem[..], tables)
    }

    /** `build_page_tables`, in a memory that is all zero. The first frames are reserved. */
    constructor BuildPageTables(memory: array<Byte>)
      requires (forall a :: 0 <= a < memory.Length ==> memory[a] == 0)
      requires memory.Length % PAGE_SIZE == 0 && 12 * PAGE_SIZE <= memory.Length && Addressable(memory.Length / PAGE_SIZE)
      modifies memory
      ensures Valid() && mem == memory && Map() == map[] && counter == 12 && tables == Tables(10, 11, map[], map[])
    {
      hide Wired, Pages, PutEntry, TableEntry;
      mem, counter, pml4 := memory, 10, 10;
      tables := Tables(10, 11, map[], map[]);
      new;
      ghost var zero := mem[..];
      pml4 := AllocatePages(1);
      var pdpt := AllocatePages(1);
      var i := 0;
      while i < ENTRIES
        invariant i <= ENTRIES && mem[..] == Rooted(zero, pml4, pdpt, i) && pml4 == 10 && pdpt == 11 && counter == 12
        invariant tables == Tables(10, 11, map[], map[])
      {
        Store(pml4, i, TableEntry(pdpt));
        i := i + 1;
      }
      RootedWired(zero, 12);
    }

    /** `table[index]` */
    function Load(table: nat, index: nat): nat
      requires index < ENTRIES && InMemory(mem[..], table)
      reads this, mem
      ensures Load(table, index) == Entry(mem[..], table, index)
    {
      assert mem[..][Slot(table, index)..Slot(table, index) + 8] == mem[Slot(table, index)..Slot(table, index) + 8];
      FromBytes(mem[Slot(table, index)..Slot(table, index) + 8])
    }

    /** `table[index] = w` */
    method Store(table: nat, index: nat, w: nat)
      requires index < ENTRIES && InMemory(mem[..], table)
      modifies mem
      ensures mem[..] == PutEntry(old(mem[..]), table, index, w)
    {
      hide ToBytes, PutEntry;
      var slot, bytes := Slot(table, index), ToBytes(w, 8);
      for i := 0 to 8
        invariant forall a :: 0 <= a < mem.Length && !(slot <= a < slot + i) ==> mem[a] == old(mem[a])
        invariant forall j :: 0 <= j < i ==> mem[slot + j] == bytes[j]
      {
        mem[slot + i] := bytes[i];
      }
      forall a | 0 <= a < mem.Length
        ensures mem[..][a] == PutEntry(old(mem[..]), table, index, w)[a]
      {
        PutEntryAt(old(mem[..]), table, index, w, a);
      }
    }

    /** `allocate_pages` */
    method AllocatePages(n: nat) returns (frame: int)
      requires (counter + n) * PAGE_SIZE <= mem.Length
      modifies this`counter
      ensures counter == old(counter) + n && frame == if n == 0 then -1 else old(counter)
      ensures Map() == old(Map()) && (old(Valid()) ==> Valid())
    {
      hide Wired, DataApart, Pages;
      if n == 0 {
        return -1;
      }
      var first := counter;
      var i := 0;
      while i < n
        invariant i <= n && counter == first + i
      {
        counter := counter + 1;
        i := i + 1;
      }
      if old(Valid()) {
        WiredMore(mem[..], tables, first, counter);
        ExtendsSame(mem[..], tables, first, counter);
        ExtendsApart(mem[..], tables, first, mem[..], tables, counter, Map());
      }
      frame := first;
    }

    /** `get_page_entry` */
    method GetPageEntry(table: nat, index: nat) returns (ok: bool, page: nat)
      requires index < ENTRIES && InMemory(mem[..], table)
      ensures ok == Present(Entry(mem[..], table, index)) && (ok ==> page == FrameIn(Entry(mem[..], table, index)))
    {
      var w := Load(table, index);
      page := 0;
      if Present(w) {
        return true, FrameIn(w);
      }
      return false, page;
    }

    /** `map_page_entry`, for `PAGE_CREATE` or a frame. */
    method MapPageEntry(table: nat, index: nat, flags: nat, page: int) returns (frame: nat)
      requires index < ENTRIES && InMemory(mem[..], table) && -1 <= page
      modifies this`counter, mem
      ensures var was := Entry(old(mem[..]), table, index);
        var creates := page == PAGE_CREATE && !Present(was);
        var w := if page == PAGE_CREATE && Present(was) then BitOr(was, flags)
                 else MakeEntry(flags, if creates then old(counter) else page);
        && mem[..] == PutEntry(old(mem[..]), table, index, w) && frame == FrameIn(w)
        && counter == old(counter) + if creates then 1 else 0
    {
      var was := Load(table, index);
      var w: nat;
      if page == PAGE_CREATE {
        if !Present(was) {
          w := MakeEntry(flags, counter);
          counter := counter + 1;        // allocate_pages(1)
        } else {
          w := BitOr(was, flags);
        }
      } else {
        w := MakeEntry(flags, page);
      }
      Store(table, index, w);
      frame := FrameIn(w);
    }

    /** `unmap_page_entry` */
    method UnmapPageEntry(table: nat, index: nat)
      requires index < ENTRIES && InMemory(mem[..], table)
      modifies mem
      ensures mem[..] == PutEntry(old(mem[..]), table, index, 0)
    {
      Store(table, index, 0);
    }

    /** `get_phys_addr`: the four-level walk finds what the plain map says. */
    method GetPhysAddr(addr: nat) returns (ok: bool, phys: nat)
      requires Valid()
      ensures ok <==> PageNo(addr) in Map()
      ensures ok ==> phys == FrameIn(Map()[PageNo(addr)]) * PAGE_SIZE + addr % PAGE_SIZE
    {
      hide Wired, Entry, Pages, PageNo, GetVirtAddrInfo, DataApart;
      var info := GetVirtAddrInfo(addr);
      InfoSpellsPage(addr);
      OffsetIs(addr);
      WalkLevels(mem[..], tables, counter, PageNo(addr));
      var page;
      phys := 0;
      ok, page := GetPageEntry(pml4, 0);
      if !ok {
        return;
      }
      ok, page := GetPageEntry(page, info.dirPtr);
      if !ok {
        return;
      }
      ok, page := GetPageEntry(page, info.dir);
      if !ok {
        return;
      }
      ok, page := GetPageEntry(page, info.tbl);
      if !ok {
        return;
      }
      phys := page * PAGE_SIZE + info.offset;
    }

    /** One level down: the entry is made present, with a table below it, and no data of before is touched. */
    method StepDown(table: nat, index: nat, ghost t: Tables, ghost u: Tables, ghost next: nat, ghost was: Tables, ghost c: nat)
      returns (frame: nat)
      requires index < ENTRIES && Leads(mem[..], table, index, t, u, counter, next) && (IsTable(was, table) || c <= table)
      modifies this`counter, mem
      ensures frame == next && Wired(mem[..], u, counter) && Pages(mem[..], u) == old(Pages(mem[..], t))
      ensures counter == old(counter) + if old(Present(Entry(mem[..], table, index))) then 0 else 1
      ensures DataKept(old(mem[..]), mem[..], was, c)
    {
      hide Wired, Pages, BitOr, MakeEntry, PutEntry, FrameIn, Entry, IsTable, DataKept;
      ghost var m, e := mem[..], Entry(mem[..], table, index);
      ghost var w := if Present(e) then BitOr(e, BitOr(USER, WRITEABLE)) else MakeEntry(BitOr(USER, WRITEABLE), counter);
      EntryKeepsData(m, was, c, table, index, w);
      frame := MapPageEntry(table, index, BitOr(USER, WRITEABLE), PAGE_CREATE);
    }

    /**
     The walk of `map_physical_page` and `unmap_physical_page` down to the table for a page, which
     creates the tables that are missing.
     */
    method TableFor(info: VirtAddrInfo, ghost p: nat) returns (pd2: nat)
      requires Valid() && p < PAGES && Spells(info, p) && (counter + 2) * PAGE_SIZE <= mem.Length
      modifies this`counter, this`tables, mem
      ensures Valid() && Map() == old(Map()) && counter <= old(counter) + 2
      ensures Extends(old(mem[..]), old(tables), old(counter), mem[..], tables, counter)
      ensures p / ENTRIES in tables.tabs && pd2 == tables.tabs[p / ENTRIES]
    {
      hide Wired, Pages, DataApart, Grew, TopTables, DirTables, Leads, IsTable, DataKept, Extends;
      ghost var t, c, m0, pages := tables, counter, mem[..], Map();
      RootStep(mem[..], t, c);
      UpperTables(t, info.dirPtr, c);
      var pdpt := StepDown(pml4, 0, t, t, t.top, t, c);
      ghost var m1, t2, k := mem[..], TopTables(t, info.dirPtr, c), p / ENTRIES;
      TopStep(m1, t, c, info.dirPtr);
      var pd := StepDown(pdpt, info.dirPtr, t, t2, t2.dirs[info.dirPtr], t, c);
      ghost var m2, c2 := mem[..], counter;
      ghost var u := DirTables(t2, k, c2);
      DirStep(m2, t2, c2, k);
      pd2 := StepDown(pd, info.dir, t2, u, u.tabs[k], t, c);
      tables := u;
      KeptThrice(m0, m1, m2, mem[..], t, c);
      BothGrew(t, info.dirPtr, k, c, c2);
      ExtendsIs(m0, t, c, mem[..], u, counter);
      ExtendsApart(m0, t, c, mem[..], u, counter, pages);
    }

    /** `map_physical_page` */
    method MapPhysicalPage(addr: nat, frame: nat, flags: nat, noOverwrite: bool)
      requires Valid() && OnlyFlags(flags) && IsData(tables, counter, frame)
      requires (counter + 2) * PAGE_SIZE <= mem.Length
      modifies this`counter, this`tables, mem
      ensures Valid() && counter <= old(counter) + 2
      ensures Extends(old(mem[..]), old(tables), old(counter), mem[..], tables, counter)
      ensures Map() == MapOne(old(Map()), PageNo(addr), LeafWord(flags, frame), noOverwrite)
    {
      hide Wired, Entry, Pages, DataApart, BitOr, Extends, FrameIn, Present, PageNo, GetVirtAddrInfo, IsTable, OnlyFlags;
      hide MakeEntry, DataKept;
      hide LeafWord, IsData;
      var info := GetVirtAddrInfo(addr);
      InfoSpellsPage(addr);
      ghost var p, pages, m0, t0, c0 := PageNo(addr), Map(), mem[..], tables, counter;
      var pd2 := TableFor(info, p);
      ghost var m := mem[..];
      TableInMemory(m, tables, counter, p);
      var present := false;
      if noOverwrite {
        var page;
        present, page := GetPageEntry(pd2, info.tbl);
      }
      if !noOverwrite || !present {
        ExtendsData(m0, t0, c0, m, tables, counter, frame);
        LeafSet(m, tables, counter, p, flags, frame, pages);
        LeafWordIs(flags, frame);
        var r := MapPageEntry(pd2, info.tbl, BitOr(flags, WRITEABLE), frame);
        LeafExtends(m0, t0, c0, m, tables, counter, p, LeafWord(flags, frame));
      }
    }

    /** `unmap_physical_page` */
    method UnmapPhysicalPage(addr: nat)
      requires Valid() && (counter + 2) * PAGE_SIZE <= mem.Length
      modifies this`counter, this`tables, mem
      ensures Valid() && counter <= old(counter) + 2
      ensures Extends(old(mem[..]), old(tables), old(counter), mem[..], tables, counter)
      ensures Map() == old(Map()) - {PageNo(addr)}
    {
      hide Wired, Entry, Pages, DataApart, BitOr, Extends, FrameIn, Present, PageNo, GetVirtAddrInfo, IsTable, DataKept;
      var info := GetVirtAddrInfo(addr);
      InfoSpellsPage(addr);
      ghost var p, pages, m0, t0, c0 := PageNo(addr), Map(), mem[..], tables, counter;
      var pd2 := TableFor(info, p);
      ghost var m := mem[..];
      LeafCleared(m, tables, counter, p, pages);
      UnmapPageEntry(pd2, info.tbl);
      LeafExtends(m0, t0, c0, m, tables, counter, p, 0);
    }

    /** The loop of `map_physical_pages` over frames in a row. */
    method MapRow(addr: nat, first: nat, flags: nat, n: nat, noOverwrite: bool)
      requires Valid() && OnlyFlags(flags) && (counter + 2 * n) * PAGE_SIZE <= mem.Length
      requires forall f :: first <= f < first + n ==> IsData(tables, counter, f)
      modifies this`counter, this`tables, mem
      ensures Valid() && counter <= old(counter) + 2 * n
      ensures Extends(old(mem[..]), old(tables), old(counter), mem[..], tables, counter)
      ensures Map() == MapEach(old(Map()), PageNo(addr), Row(first, n), flags, noOverwrite)
    {
      hide Wired, Pages, DataApart, Extends, PageNo, OnlyFlags, IsData, MapOne, MapEach, Row;
      ghost var pages, m0, t0, c0 := Map(), mem[..], tables, counter;
      ExtendsSame(m0, t0, c0, c0);
      MapNone(pages, PageNo(addr), first, flags, noOverwrite);
      for i := 0 to n
        invariant Valid() && counter <= c0 + 2 * i && Extends(m0, t0, c0, mem[..], tables, counter)
        invariant Map() == MapEach(pages, PageNo(addr), Row(first, i), flags, noOverwrite)
      {
        ghost var m, t, c := mem[..], tables, counter;
        ExtendsData(m0, t0, c0, m, t, c, first + i);
        MapPhysicalPage(addr + PAGE_SIZE * i, first + i, flags, noOverwrite);
        ExtendsTwice(m0, t0, c0, m, t, c, mem[..], tables, counter);
        PageStep(addr, i);
        MapMore(pages, PageNo(addr), first, i, flags, noOverwrite);
      }
    }

    /** The loop of `map_physical_pages` that hands out a frame for each page. */
    method MapScattered(addr: nat, flags: nat, n: nat, noOverwrite: bool) returns (last: int, ghost fs: seq<nat>)
      requires Valid() && OnlyFlags(flags) && (counter + 3 * n) * PAGE_SIZE <= mem.Length
      modifies this`counter, this`tables, mem
      ensures Valid() && counter <= old(counter) + 3 * n
      ensures Extends(old(mem[..]), old(tables), old(counter), mem[..], tables, counter)
      ensures |fs| == n && Map() == MapEach(old(Map()), PageNo(addr), fs, flags, noOverwrite)
      ensures Fresh(mem[..], tables, old(counter), counter, fs) && last == if n == 0 then -1 else fs[n - 1]
    {
      hide Wired, Pages, DataApart, Extends, PageNo, OnlyFlags, IsData, MapOne, MapEach, Fresh;
      ghost var pages, m0, t0, c0 := Map(), mem[..], tables, counter;
      ExtendsSame(m0, t0, c0, c0);
      last, fs := -1, [];
      FreshNone(m0, t0, c0);
      MapNothing(pages, PageNo(addr), flags, noOverwrite);
      for i := 0 to n
        invariant Valid() && c0 <= counter <= c0 + 3 * i && Extends(m0, t0, c0, mem[..], tables, counter)
        invariant |fs| == i && Map() == MapEach(pages, PageNo(addr), fs, flags, noOverwrite)
        invariant Fresh(mem[..], tables, c0, counter, fs) && last == if i == 0 then -1 else fs[i - 1]
      {
        ghost var m, t, c := mem[..], tables, counter;
        last := AllocatePages(1);
        NextIsData(m, t, c, c + 1);
        FreshMore(m, t, c0, c, c + 1, fs);
        ExtendsSame(m, t, c, c + 1);
        MapPhysicalPage(addr + PAGE_SIZE * i, last, flags, noOverwrite);
        FreshKept(m, t, c0, c + 1, mem[..], tables, counter, fs + [c]);
        ExtendsTwice(m0, t0, c0, m, t, c, m, t, c + 1);
        ExtendsTwice(m0, t0, c0, m, t, c + 1, mem[..], tables, counter);
        PageStep(addr, i);
        MapOneMore(pages, PageNo(addr), fs, c, flags, noOverwrite);
        fs := fs + [c];
      }
    }

    /** `map_physical_pages`: frame -1 asks for new frames, in a row or not. */
    method MapPhysicalPages(addr: nat, frame: int, flags: nat, n: nat, continuous: bool, noOverwrite: bool)
      returns (r: int, ghost fs: seq<nat>)
      requires Valid() && OnlyFlags(flags) && (counter + 3 * n) * PAGE_SIZE <= mem.Length
      requires frame == -1 || (0 <= frame && forall f :: frame <= f < frame + n ==> IsData(tables, counter, f))
      modifies this`counter, this`tables, mem
      ensures Valid() && counter <= old(counter) + 3 * n
      ensures Extends(old(mem[..]), old(tables), old(counter), mem[..], tables, counter)
      ensures |fs| == n && Map() == MapEach(old(Map()), PageNo(addr), fs, flags, noOverwrite)
      ensures frame != -1 ==> r == frame && fs == Row(frame, n)
      ensures frame == -1 ==> Fresh(mem[..], tables, old(counter), counter, fs)
      ensures frame == -1 && continuous ==> fs == Row(old(counter), n) && r == if n == 0 then -1 else old(counter)
      ensures frame == -1 && !continuous ==> r == if n == 0 then -1 else fs[n - 1]
    {
      hide Wired, Pages, DataApart, Extends, PageNo, OnlyFlags, IsData, MapOne, MapEach, Fresh, Row;
      ghost var pages, m0, t0, c0 := Map(), mem[..], tables, counter;
      r := frame;
      if continuous || frame != -1 {
        if r == -1 {
          r := AllocatePages(n);
          FreshRow(m0, t0, c0, c0 + n, n);
          RowLength(c0, n);
        }
        if r == -1 {
          fs := Row(c0, 0);
          ExtendsSame(m0, t0, c0, c0);
          MapNone(pages, PageNo(addr), c0, flags, noOverwrite);
          return;
        }
        fs := Row(r, n);
        RowLength(r, n);
        ghost var c := counter;
        ExtendsSame(m0, t0, c0, c);
        if frame == -1 { RowIsData(m0, t0, c0, c, n); }
        MapRow(addr, r, flags, n, noOverwrite);
        ExtendsTwice(m0, t0, c0, m0, t0, c, mem[..], tables, counter);
        if frame == -1 { FreshKept(m0, t0, c0, c, mem[..], tables, counter, fs); }
      } else {
        r, fs := MapScattered(addr, flags, n, noOverwrite);
      }
    }

    /** `write_virtual_addr`: bytes up to the first page without a translation are written. */
    method WriteVirtualAddr(addr: nat, source: array<Byte>) returns (ok: bool, ghost done: nat)
      requires Valid() && source != mem
      modifies mem
      ensures Valid() && Map() == old(Map())
      ensures done <= source.Length && Reached(Map(), addr, done) && (ok <==> done == source.Length)
      ensures done < source.Length ==> PageAt(addr, done) !in Map()
      ensures mem[..] == Poke(old(mem[..]), Map(), addr, source[..done])
    {
      hide Wired, Pages, DataApart, Reached, Poke, Target, PageNo, FrameIn;
      ghost var m0, pages, t, c, text := mem[..], Map(), tables, counter, source[..];
      var written: nat, left: nat := 0, source.Length;
      ReachedNone(pages, addr);
      PokeNone(m0, pages, addr, text);
      while left > 0
        invariant written + left == source.Length && source[..] == text && Valid() && Map() == pages && tables == t && counter == c
        invariant Reached(pages, addr, written) && mem[..] == Poke(m0, pages, addr, text[..written])
      {
        var found, phys := GetPhysAddr(addr + written);
        if !found {
          return false, written;
        }
        TargetIs(pages, addr, written);
        var bytes := PAGE_SIZE - (addr + written) % PAGE_SIZE;
        if bytes > left {
          bytes := left;
        }
        PageReached(pages, addr, written, bytes);
        FrameInMemory(mem[..], t, c, pages, addr, written);
        // memcpy
        var i := 0;
        while i < bytes
          invariant i <= bytes && mem[..] == Poke(m0, pages, addr, text[..written + i]) && source[..] == text
        {
          TargetInPage(pages, addr, written, i);
          PokeMore(m0, pages, addr, text, written + i);
          mem[phys + i] := source[written + i];
          i := i + 1;
        }
        written, left := written + bytes, left - bytes;
        PokeValid(m0, pages, addr, text[..written], t, c);
      }
      return true, written;
    }

    /** `read_virtual_addr`: bytes up to the first page without a translation are read. */
    method ReadVirtualAddr(addr: nat, buffer: array<Byte>) returns (ok: bool, ghost done: nat)
      requires Valid() && buffer != mem
      modifies buffer
      ensures Valid() && mem[..] == old(mem[..])
      ensures done <= buffer.Length && Reached(Map(), addr, done) && (ok <==> done == buffer.Length)
      ensures done < buffer.Length ==> PageAt(addr, done) !in Map()
      ensures buffer[..] == Filled(old(buffer[..]), mem[..], Map(), addr, done)
    {
      hide Wired, Pages, DataApart, Reached, Filled, At, Target, PageNo, FrameIn;
      ghost var m, pages, t, c, text := mem[..], Map(), tables, counter, buffer[..];
      var read: nat, left: nat := 0, buffer.Length;
      ReachedNone(pages, addr);
      FilledNone(text, m, pages, addr);
      while left > 0
        invariant read + left == buffer.Length && mem[..] == m
        invariant Reached(pages, addr, read) && buffer[..] == Filled(text, m, pages, addr, read)
      {
        var found, phys := GetPhysAddr(addr + read);
        if !found {
          return false, read;
        }
        TargetIs(pages, addr, read);
        var bytes := PAGE_SIZE - (addr + read) % PAGE_SIZE;
        if bytes > left {
          bytes := left;
        }
        PageReached(pages, addr, read, bytes);
        FrameInMemory(m, t, c, pages, addr, read);
        // memcpy
        var i := 0;
        while i < bytes
          invariant i <= bytes && mem[..] == m && buffer[..] == Filled(text, m, pages, addr, read + i)
        {
          TargetInPage(pages, addr, read, i);
          FilledMore(text, m, pages, addr, read + i);
          AtIs(m, phys + i);
          buffer[read + i] := mem[phys + i];
          i := i + 1;
        }
        read, left := read + bytes, left - bytes;
      }
      return true, read;
    }

    /** What has been written is read back, when no two of the pages share a frame. */
    method WriteThenRead(addr: nat, source: array<Byte>, buffer: array<Byte>) returns (ok: bool)
      requires Valid() && source != mem && buffer != mem && buffer.Length == source.Length
      requires FramesApart(Map(), addr, source.Length) && source.Length <= PAGES * PAGE_SIZE
      modifies mem, buffer
      ensures Valid() && Map() == old(Map()) && (ok <==> Reached(Map(), addr, source.Length))
      ensures ok ==> buffer[..] == old(source[..])
    {
      hide Wired, Pages, DataApart, Reached, Peek, Poke, PageNo, FramesApart, Target;
      ghost var m0, pages, text := mem[..], Map(), source[..];
      ghost var done;
      ok, done := WriteVirtualAddr(addr, source);
      if !ok {
        NotReached(pages, addr, done, source.Length);
        return;
      }
      assert text[..done] == text;
      ok, done := ReadVirtualAddr(addr, buffer);
      if !ok {
        NotReached(pages, addr, done, source.Length);
        return;
      }
      MappedInMemory(m0, tables, counter, pages);
      RoundTripApart(m0, pages, addr, text);
    }

    /** A processor translates every address, whatever its version tag, as the plain map says. */
    lemma ProcessorAgrees(addr: nat)
      requires Valid()
      ensures HardwareWalk(mem[..], pml4, addr) ==
              if PageNo(addr) in Map()
              then var w := Map()[PageNo(addr)]; Frame(FrameIn(w), Bit(w, 2), Bit(w, 1), !Bit(w, 63))
              else Fault
    {
      hide Wired, Pages, PageNo, HardwareWalk, FrameIn, IsTable, Shr;
      assert forall p :: p in Map() ==> IsData(tables, counter, FrameIn(Map()[p]));
      HardwareSeesMap(mem[..], tables, counter, addr);
    }

    /**
       Any run of requests: the tables come to translate what replaying the requests on a plain map gives, with the
       frames that were asked for, or else with new ones that hold no table and are given out only once.
     */
    method Session(requests: seq<Request>) returns (ghost frames: seq<seq<nat>>)
      requires Valid() && (counter + Need(requests)) * PAGE_SIZE <= mem.Length
      requires forall i :: 0 <= i < |requests| ==> Proper(requests[i], mem, tables, counter)
      modifies this`counter, this`tables, mem
      ensures Valid() && |frames| == |requests| && Map() == Replay(old(Map()), requests, frames)
      ensures forall i :: 0 <= i < |requests| ==> Granted(requests[i], frames[i])
      ensures GivenOnce(requests, frames, old(counter), tables, counter)
    {
      hide Wired, Pages, DataApart, Extends, Proper, Need, Replay, Answer, OnlyFlags, PageNo, Granted, GivenOnce;
      ghost var pages, m0, t0, c0 := Map(), mem[..], tables, counter;
      frames := [];
      ReplayNone(pages, requests);
      NeedPrefix(requests, |requests|);
      NothingGiven(requests[..0], t0, c0);
      for i := 0 to |requests|
        invariant Valid() && c0 <= counter <= c0 + Need(requests[..i]) && Grew(t0, tables, c0)
        invariant |frames| == i && Map() == Replay(pages, requests[..i], frames)
        invariant forall j :: 0 <= j < i ==> Granted(requests[j], frames[j])
        invariant GivenOnce(requests[..i], frames, c0, tables, counter)
      {
        ghost var t, c, now := tables, counter, Map();
        NeedPrefix(requests, i + 1);
        NeedMore(requests, i);
        StillProper(requests[i], mem, t0, c0, t, c);
        ghost var fs := Serve(requests[i]);
        GrewTwice(t0, c0, t, c, tables);
        ReplayMore(pages, requests, i, frames, fs);
        GivenMore(requests, i, frames, fs, c0, t, c, tables, counter);
        frames := frames + [fs];
      }
      assert requests[..|requests|] == requests;
    }

    method Serve(r: Request) returns (ghost fs: seq<nat>)
      requires Valid() && (counter + Need([r])) * PAGE_SIZE <= mem.Length && Proper(r, mem, tables, counter)
      modifies this`counter, this`tables, mem
      ensures Valid() && old(counter) <= counter <= old(counter) + Need([r]) && Grew(old(tables), tables, old(counter))
      ensures Map() == Answer(old(Map()), r, fs) && Granted(r, fs)
      ensures AsksNew(r) ==> New(fs, old(counter), tables, counter)
    {
      hide Wired, Pages, DataApart, PageNo, OnlyFlags, Grew, DataKept, MapEach, IsData, Zeroed;
      fs := [];
      match r {
        case MapRange(addr, frame, flags, n, continuous, noOverwrite) =>
          var ret;
          ret, fs := MapPhysicalPages(addr, frame, flags, n, continuous, noOverwrite);
        case UnmapPage(addr) =>
          UnmapPhysicalPage(addr);
        case WriteBytes(addr, source) =>
          var ok, done := WriteVirtualAddr(addr, source);
          GrewSame(tables, counter);
      }
    }
  }

  // ---------------------------------------------------------------- runs

  datatype Request =
    | MapRange(addr: nat, frame: int, flags: nat, n: nat, continuous: bool, noOverwrite: bool)
    | UnmapPage(addr: nat)
    | WriteBytes(addr: nat, source: array<Byte>)

  /** What the callers of the three functions see to. */
  ghost predicate Proper(r: Request, mem: array<Byte>, t: Tables, c: nat) {
    match r
    case MapRange(addr, frame, flags, n, continuous, noOverwrite) =>
      OnlyFlags(flags) && (frame == -1 || (0 <= frame && forall f :: frame <= f < frame + n ==> IsData(t, c, f)))
    case UnmapPage(addr) => true
    case WriteBytes(addr, source) => source != mem
  }

  predicate AsksNew(r: Request) {
    r.MapRange? && r.frame == -1
  }

  /** One frame for each page: those that the request names, or some in a row if it says so. */
  ghost predicate Granted(r: Request, fs: seq<nat>) {
    match r
    case MapRange(addr, frame, flags, n, continuous, noOverwrite) =>
      && |fs| == n && (frame != -1 ==> 0 <= frame && fs == Row(frame, n))
      && (continuous ==> exists f :: fs == Row(f, n))
    case UnmapPage(addr) => fs == []
    case WriteBytes(addr, source) => fs == []
  }

  /** Ascending frames that were not in use at `c0` and hold data now. */
  ghost predicate New(fs: seq<nat>, c0: nat, t: Tables, c: nat) {
    && (forall k :: 0 <= k < |fs| ==> c0 <= fs[k] && IsData(t, c, fs[k]))
    && forall k, l :: 0 <= k < l < |fs| ==> fs[k] < fs[l]
  }

  /** New frames are new, and no two requests get the same one. */
  ghost predicate GivenOnce(rs: seq<Request>, frames: seq<seq<nat>>, c0: nat, t: Tables, c: nat)
    requires |frames| == |rs|
  {
    && (forall i :: 0 <= i < |rs| && AsksNew(rs[i]) ==> New(frames[i], c0, t, c))
    && forall i, j, f, g :: 0 <= i < j < |rs| && AsksNew(rs[i]) && AsksNew(rs[j]) && f in frames[i] && g in frames[j] ==> f < g
  }

  lemma NothingGiven(rs: seq<Request>, t: Tables, c: nat)
    requires rs == []
    ensures GivenOnce(rs, [], c, t, c)
  {
  }

  lemma GivenMore(rs: seq<Request>, i: nat, frames: seq<seq<nat>>, fs: seq<nat>, c0: nat, t: Tables, c: nat, u: Tables, d: nat)
    requires i < |rs| && |frames| == i && GivenOnce(rs[..i], frames, c0, t, c) && c0 <= c <= d && Grew(t, u, c)
    requires AsksNew(rs[i]) ==> New(fs, c, u, d)
    ensures GivenOnce(rs[..i + 1], frames + [fs], c0, u, d)
  {
    hide IsTable;
    forall j | 0 <= j < i && AsksNew(rs[j])
      ensures New(frames[j], c0, u, d) && forall f :: f in frames[j] ==> f < c
    {
      assert AsksNew(rs[..i][j]) && New(frames[j], c0, t, c);
    }
  }

  // ---------------------------------------------------------------- what a replay comes to

  /** The request is about page `q`. */
  ghost predicate Touches(r: Request, q: nat)
    requires q < PAGES
  {
    match r
    case MapRange(addr, frame, flags, n, continuous, noOverwrite) => Distance(PageNo(addr), q) < n
    case UnmapPage(addr) => q == PageNo(addr)
    case WriteBytes(addr, source) => false
  }

  /** What a request makes of one page. */
  ghost predicate Answered(m: map<nat, nat>, now: map<nat, nat>, r: Request, fs: seq<nat>, q: nat)
    requires q < PAGES && Granted(r, fs)
  {
    if !Touches(r, q) then (q in now <==> q in m) && (q in m ==> now[q] == m[q])
    else match r
      case MapRange(addr, frame, flags, n, continuous, noOverwrite) =>
        q in now && now[q] == if noOverwrite && q in m then m[q] else LeafWord(flags, fs[Distance(PageNo(addr), q)])
      case UnmapPage(addr) => q !in now
      case WriteBytes(addr, source) => true
  }

  /** A request for no more pages than there are. */
  predicate Bounded(r: Request) {
    r.MapRange? ==> r.n <= PAGES
  }

  lemma AnswerIs(m: map<nat, nat>, r: Request, fs: seq<nat>, q: nat)
    requires q < PAGES && Granted(r, fs) && Bounded(r)
    ensures Answered(m, Answer(m, r, fs), r, fs, q)
  {
    hide LeafWord, MapEach, Distance, PageNo, Row;
    if r.MapRange? { MapEachAt(m, PageNo(r.addr), fs, r.flags, r.noOverwrite, q); }
  }

  /** The last request that is about a page decides what it is mapped to, and pages that none is about stay. */
  lemma {:induction false} LastWins(m: map<nat, nat>, rs: seq<Request>, frames: seq<seq<nat>>, q: nat, i: nat)
    requires |frames| == |rs| && q < PAGES && i <= |rs|
    requires forall j :: 0 <= j < |rs| ==> Granted(rs[j], frames[j]) && Bounded(rs[j])
    requires forall j :: i <= j < |rs| ==> !Touches(rs[j], q)
    ensures var r := Replay(m, rs, frames);
      && (i == 0 ==> (q in r <==> q in m) && (q in m ==> r[q] == m[q]))
      && (i > 0 ==> Answered(Replay(m, rs[..i - 1], frames[..i - 1]), r, rs[i - 1], frames[i - 1], q))
    decreases |rs|
  {
    hide Answer, Answered, Granted, Touches, Bounded;
    if |rs| > 0 {
      var k := |rs| - 1;
      AnswerIs(Replay(m, rs[..k], frames[..k]), rs[k], frames[k], q);
      if i <= k {
        LastWins(m, rs[..k], frames[..k], q, i);
        StillAnswered(m, rs, frames, q, i);
      }
    }
  }

  lemma StillAnswered(m: map<nat, nat>, rs: seq<Request>, frames: seq<seq<nat>>, q: nat, i: nat)
    requires |frames| == |rs| && q < PAGES && i < |rs|
    requires forall j :: 0 <= j < |rs| ==> Granted(rs[j], frames[j])
    requires var k := |rs| - 1; !Touches(rs[k], q) && Answered(Replay(m, rs[..k], frames[..k]), Replay(m, rs, frames), rs[k], frames[k], q)
    requires var k := |rs| - 1; var r := Replay(m, rs[..k], frames[..k]);
      && (i == 0 ==> (q in r <==> q in m) && (q in m ==> r[q] == m[q]))
      && (i > 0 ==> Answered(Replay(m, rs[..k][..i - 1], frames[..k][..i - 1]), r, rs[i - 1], frames[i - 1], q))
    ensures var r := Replay(m, rs, frames);
      && (i == 0 ==> (q in r <==> q in m) && (q in m ==> r[q] == m[q]))
      && (i > 0 ==> Answered(Replay(m, rs[..i - 1], frames[..i - 1]), r, rs[i - 1], frames[i - 1], q))
  {
    hide Replay, Granted, Touches, LeafWord;
    if i > 0 { assert rs[..|rs| - 1][..i - 1] == rs[..i - 1] && frames[..|rs| - 1][..i - 1] == frames[..i - 1]; }
  }

  // ---------------------------------------------------------------- what requests need

  /** The frames that requests can take, those for tables included. */
  function Need(rs: seq<Request>): nat {
    if rs == [] then 0
    else Need(rs[..|rs| - 1]) + match rs[|rs| - 1] case MapRange(addr, frame, flags, n, c, o) => 3 * n case UnmapPage(addr) => 2 case WriteBytes(addr, s) => 0
  }

  /** What a request does to a plain map from pages to leaf entries, with the frames that it was given. */
  ghost function Answer(m: map<nat, nat>, r: Request, fs: seq<nat>): map<nat, nat> {
    match r
    case MapRange(addr, frame, flags, n, continuous, noOverwrite) => MapEach(m, PageNo(addr), fs, flags, noOverwrite)
    case UnmapPage(addr) => m - {PageNo(addr)}
    case WriteBytes(addr, source) => m
  }

  ghost function Replay(m: map<nat, nat>, rs: seq<Request>, frames: seq<seq<nat>>): map<nat, nat>
    requires |frames| == |rs|
  {
    if rs == [] then m
    else Answer(Replay(m, rs[..|rs| - 1], frames[..|rs| - 1]), rs[|rs| - 1], frames[|rs| - 1])
  }

  lemma ReplayNone(m: map<nat, nat>, rs: seq<Request>)
    ensures Replay(m, rs[..0], []) == m && Need(rs[..0]) == 0
  {
  }

  lemma ReplayMore(m: map<nat, nat>, rs: seq<Request>, i: nat, frames: seq<seq<nat>>, fs: seq<nat>)
    requires i < |rs| && |frames| == i
    ensures Replay(m, rs[..i + 1], frames + [fs]) == Answer(Replay(m, rs[..i], frames), rs[i], fs)
  {
    hide Answer;
    assert rs[..i + 1][..i] == rs[..i] && (frames + [fs])[..i] == frames;
  }

  lemma NeedMore(rs: seq<Request>, i: nat)
    requires i < |rs|
    ensures Need(rs[..i + 1]) == Need(rs[..i]) + Need([rs[i]])
  {
    assert rs[..i + 1][..i] == rs[..i] && [rs[i]][..0] == [];
  }

  lemma {:induction false} NeedPrefix(rs: seq<Request>, i: nat)
    requires i <= |rs|
    ensures Need(rs[..i]) <= Need(rs)
    decreases |rs|
  {
    if i < |rs| {
      NeedPrefix(rs[..|rs| - 1], i);
      assert rs[..|rs| - 1][..i] == rs[..i];
    } else {
      assert rs[..i] == rs;
    }
  }

  lemma StillProper(r: Request, mem: array<Byte>, t: Tables, c: nat, u: Tables, d: nat)
    requires Proper(r, mem, t, c) && Grew(t, u, c) && c <= d
    ensures Proper(r, mem, u, d)
  {
    hide IsTable, OnlyFlags;
    if r.MapRange? && r.frame != -1 {
      forall f: int | r.frame <= f < r.frame + r.n
        ensures IsData(u, d, f)
      {
        assert IsData(t, c, f);
      }
    }
  }

  lemma GrewTwice(t: Tables, c: nat, u: Tables, d: nat, v: Tables)
    requires Grew(t, u, c) && c <= d && Grew(u, v, d)
    ensures Grew(t, v, c)
  {
    hide IsTable;
  }

  lemma GrewSame(t: Tables, c: nat)
    ensures Grew(t, t, c)
  {
  }

  // ---------------------------------------------------------------- the map that areas are placed in

  /** The plain map from pages to frames. */
  ghost function HostView(pages: map<nat, nat>): map<int, int> {
    map p: int | p in pages :: FrameIn(pages[p])
  }

  /** Frames in a row are mapped as `Host.MapPages` says: so its table is a view of the page tables. */
  lemma RowSeenByHost(pages: map<nat, nat>, page: nat, f: nat, n: nat, flags: nat)
    requires page + n <= PAGES && OnlyFlags(flags) && (forall q :: q in pages ==> q < PAGES)
    requires forall i :: f <= i < f + n ==> Addressable(i)
    ensures var was, now := HostView(pages), HostView(MapEach(pages, page, Row(f, n), flags, false));
      && (forall p :: Within(p, page, n) ==> p in now && now[p] == f + (p - page))
      && (forall p :: 0 <= p < PAGES && !Within(p, page, n) ==> (p in now <==> p in was))
      && (forall p :: 0 <= p < PAGES && !Within(p, page, n) && p in now ==> now[p] == was[p])
  {
    hide FrameIn, LeafWord, OnlyFlags, MapEach, Addressable, Distance;
    var r := MapEach(pages, page, Row(f, n), flags, false);
    forall p: nat | p < PAGES
      ensures if page <= p < page + n then p in r && FrameIn(r[p]) == f + (p - page)
              else (p in r <==> p in pages) && (p in r ==> r[p] == pages[p])
    {
      MapEachAt(pages, page, Row(f, n), flags, false, p);
      DistanceFrom(page, p, n);
      if page <= p < page + n { LeafRights(flags, f + (p - page)); }
    }
  }

  lemma DistanceFrom(page: nat, p: nat, n: nat)
    requires p < PAGES && page + n <= PAGES
    ensures if page <= p < page + n then Distance(page, p) == p - page else Distance(page, p) >= n
  {
  }

  // ---------------------------------------------------------------- fresh frames

  /** The frames are new, ascending, hold no table, and have never been written. */
  ghost predicate Fresh(m: Memory, t: Tables, c0: nat, c: nat, fs: seq<nat>) {
    && (forall i :: 0 <= i < |fs| ==> c0 <= fs[i] && IsData(t, c, fs[i]) && Zeroed(m, fs[i]))
    && forall i, j :: 0 <= i < j < |fs| ==> fs[i] < fs[j]
  }

  lemma FreshNone(m: Memory, t: Tables, c: nat)
    ensures Fresh(m, t, c, c, [])
  {
  }

  lemma NextIsData(m: Memory, t: Tables, c: nat, d: nat)
    requires Wired(m, t, c) && c < d
    ensures IsData(t, d, c) && Zeroed(m, c)
  {
  }

  lemma FreshMore(m: Memory, t: Tables, c0: nat, c: nat, d: nat, fs: seq<nat>)
    requires Fresh(m, t, c0, c, fs) && c0 <= c < d && IsData(t, d, c) && Zeroed(m, c)
    ensures Fresh(m, t, c0, d, fs + [c])
  {
    hide IsTable, Zeroed;
  }

  lemma FreshKept(m: Memory, t: Tables, c0: nat, c: nat, n: Memory, u: Tables, d: nat, fs: seq<nat>)
    requires Fresh(m, t, c0, c, fs) && Extends(m, t, c, n, u, d)
    ensures Fresh(n, u, c0, d, fs)
  {
    hide IsData, Zeroed, Extends;
    forall i | 0 <= i < |fs|
      ensures IsData(u, d, fs[i]) && Zeroed(n, fs[i])
    {
      ExtendsData(m, t, c, n, u, d, fs[i]);
    }
  }

  lemma RowIsData(m: Memory, t: Tables, c: nat, d: nat, n: nat)
    requires Wired(m, t, c) && d == c + n
    ensures forall f :: c <= f < c + n ==> IsData(t, d, f) && Zeroed(m, f)
  {
  }

  lemma FreshRow(m: Memory, t: Tables, c: nat, d: nat, n: nat)
    requires Wired(m, t, c) && d == c + n
    ensures Fresh(m, t, c, d, Row(c, n))
  {
    hide IsData, Zeroed, Wired;
    RowIsData(m, t, c, d, n);
  }

  lemma RowLength(f: nat, n: nat)
    ensures |Row(f, n)| == n
  {
  }

  lemma MapNone(m: map<nat, nat>, page: nat, f: nat, flags: nat, noOverwrite: bool)
    ensures |Row(f, 0)| == 0 && MapEach(m, page, Row(f, 0), flags, noOverwrite) == m
  {
  }

  lemma MapNothing(m: map<nat, nat>, page: nat, flags: nat, noOverwrite: bool)
    ensures MapEach(m, page, [], flags, noOverwrite) == m
  {
  }

  lemma MapOneMore(m: map<nat, nat>, page: nat, fs: seq<nat>, f: nat, flags: nat, noOverwrite: bool)
    ensures MapEach(m, page, fs + [f], flags, noOverwrite)
         == MapOne(MapEach(m, page, fs, flags, noOverwrite), (page + |fs|) % PAGES, LeafWord(flags, f), noOverwrite)
  {
    assert (fs + [f])[..|fs|] == fs;
  }

  lemma MapMore(m: map<nat, nat>, page: nat, f: nat, i: nat, flags: nat, noOverwrite: bool)
    ensures MapEach(m, page, Row(f, i + 1), flags, noOverwrite)
         == MapOne(MapEach(m, page, Row(f, i), flags, noOverwrite), (page + i) % PAGES, LeafWord(flags, f + i), noOverwrite)
  {
    hide MapEach, LeafWord;
    assert Row(f, i + 1) == Row(f, i) + [f + i];
    MapOneMore(m, page, Row(f, i), f + i, flags, noOverwrite);
  }

  lemma PageStep(addr: nat, i: nat)
    ensures PageNo(addr + PAGE_SIZE * i) == (PageNo(addr) + i) % PAGES
  {
    assert (addr + PAGE_SIZE * i) / PAGE_SIZE == addr / PAGE_SIZE + i;
  }

  // ---------------------------------------------------------------- bytes

  lemma ReachedNone(pages: map<nat, nat>, addr: nat)
    ensures Reached(pages, addr, 0)
  {
  }

  lemma PokeNone(m: Memory, pages: map<nat, nat>, addr: nat, s: seq<Byte>)
    ensures Poke(m, pages, addr, s[..0]) == m
  {
  }

  /** The first `n` bytes of a buffer have been read from `addr` on. */
  ghost function Filled(text: seq<Byte>, m: Memory, pages: map<nat, nat>, addr: nat, n: nat): (r: seq<Byte>)
    ensures |r| == |text|
  {
    if n <= |text| then Peek(m, pages, addr, n) + text[n..] else text
  }

  lemma NotReached(pages: map<nat, nat>, addr: nat, k: nat, n: nat)
    requires k < n && PageAt(addr, k) !in pages
    ensures !Reached(pages, addr, n)
  {
  }

  lemma MappedInMemory(m: Memory, t: Tables, c: nat, pages: map<nat, nat>)
    requires Wired(m, t, c) && DataApart(pages, t, c)
    ensures InRange(m, pages)
  {
    hide FrameIn, IsTable;
    assert forall p :: p in pages ==> IsData(t, c, FrameIn(pages[p]));
  }

  lemma FilledNone(text: seq<Byte>, m: Memory, pages: map<nat, nat>, addr: nat)
    ensures Filled(text, m, pages, addr, 0) == text
  {
  }

  lemma FilledMore(text: seq<Byte>, m: Memory, pages: map<nat, nat>, addr: nat, n: nat)
    requires n < |text|
    ensures Filled(text, m, pages, addr, n + 1) == Filled(text, m, pages, addr, n)[n := At(m, Target(pages, addr, n))]
  {
  }

  lemma AtIs(m: Memory, a: nat)
    requires a < |m|
    ensures At(m, a) == m[a]
  {
  }

  lemma TargetIs(pages: map<nat, nat>, addr: nat, i: nat)
    requires PageNo(addr + i) in pages
    ensures PageAt(addr, i) in pages && Target(pages, addr, i) == FrameIn(pages[PageNo(addr + i)]) * PAGE_SIZE + (addr + i) % PAGE_SIZE
  {
  }

  /** All bytes up to the end of a page that is there. */
  lemma PageReached(pages: map<nat, nat>, addr: nat, k: nat, n: nat)
    requires Reached(pages, addr, k) && PageAt(addr, k) in pages && n <= PAGE_SIZE - (addr + k) % PAGE_SIZE
    ensures Reached(pages, addr, k + n)
  {
    hide PageAt;
    forall i: nat | i < k + n
      ensures PageAt(addr, i) in pages
    {
      if i >= k { TargetInPage(pages, addr, k, i - k); }
    }
  }

  lemma FrameInMemory(m: Memory, t: Tables, c: nat, pages: map<nat, nat>, addr: nat, k: nat)
    requires Wired(m, t, c) && DataApart(pages, t, c) && PageAt(addr, k) in pages
    ensures Target(pages, addr, k) + (PAGE_SIZE - (addr + k) % PAGE_SIZE) <= |m|
  {
    hide FrameIn, PageAt, IsTable;
    assert IsData(t, c, FrameIn(pages[PageAt(addr, k)]));
  }

  /** Writing to mapped pages keeps the tables. */
  lemma PokeValid(m: Memory, pages: map<nat, nat>, addr: nat, s: seq<Byte>, t: Tables, c: nat)
    requires Wired(m, t, c) && Pages(m, t) == pages && DataApart(pages, t, c) && Reached(pages, addr, |s|)
    ensures Wired(Poke(m, pages, addr, s), t, c) && Pages(Poke(m, pages, addr, s), t) == pages
  {
    hide Wired, Pages, FrameIn, IsTable, Reached, Poke;
    assert forall p :: p in pages ==> IsData(t, c, FrameIn(pages[p]));
    PokeIsData(m, pages, addr, s, t, c);
    DataWritten(m, Poke(m, pages, addr, s), t, c);
  }

  // ---------------------------------------------------------------- the steps

  /** The first `n` entries of the top level lead to the table in frame `top`. */
  function Rooted(m: Memory, root: nat, top: nat, n: nat): Memory {
    if n == 0 then m else PutEntry(Rooted(m, root, top, n - 1), root, n - 1, TableEntry(top))
  }

  lemma {:induction false} RootedEntries(m: Memory, n: nat, c: nat)
    requires n <= ENTRIES && Sized(m, c) && 12 <= c && forall a :: 0 <= a < |m| ==> m[a] == 0
    ensures Sized(Rooted(m, 10, 11, n), c) && Clear(Rooted(m, 10, 11, n), c)
    ensures forall g: nat, j: nat :: Entry(Rooted(m, 10, 11, n), g, j) == if g == 10 && j < n then TableEntry(11) else 0
  {
    hide Entry, TableEntry, PutEntry, Sized, Clear, Addressable;
    if n == 0 {
      forall g: nat, j: nat
        ensures Entry(m, g, j) == 0
      {
        EntryZero(m, g, j);
      }
      AllClear(m, c);
    } else {
      RootedEntries(m, n - 1, c);
      SizedAddressable(m, c);
      TableEntryIs(11);
      PutClear(Rooted(m, 10, 11, n - 1), 10, n - 1, TableEntry(11), c);
      PutOthers(Rooted(m, 10, 11, n - 1), 10, n - 1, TableEntry(11));
    }
  }

  lemma AllClear(m: Memory, c: nat)
    requires forall a :: 0 <= a < |m| ==> m[a] == 0
    ensures Clear(m, c)
  {
  }

  lemma SizedAddressable(m: Memory, c: nat)
    requires Sized(m, c) && 12 <= c
    ensures Addressable(11)
  {
    hide Shr;
    BelowAddressable(m, c, 11);
  }

  lemma RootedWired(m: Memory, c: nat)
    requires Sized(m, c) && 12 <= c && forall a :: 0 <= a < |m| ==> m[a] == 0
    ensures var t := Tables(10, 11, map[], map[]); Wired(Rooted(m, 10, 11, ENTRIES), t, c) && Pages(Rooted(m, 10, 11, ENTRIES), t) == map[]
  {
    hide Entry, TableEntry, Sized, Clear, Rooted;
    RootedEntries(m, ENTRIES, c);
  }

  lemma ExtendsIs(m: Memory, t: Tables, c: nat, n: Memory, u: Tables, d: nat)
    requires c <= d && Grew(t, u, c) && DataKept(m, n, t, c)
    ensures Extends(m, t, c, n, u, d)
  {
  }

  lemma KeptThrice(m0: Memory, m1: Memory, m2: Memory, m3: Memory, t: Tables, c: nat)
    requires DataKept(m0, m1, t, c) && DataKept(m1, m2, t, c) && DataKept(m2, m3, t, c)
    ensures DataKept(m0, m3, t, c)
  {
    hide IsTable;
  }

  /** The tables on the way down are of before, or new. */
  lemma UpperTables(t: Tables, i: nat, c: nat)
    ensures IsTable(t, t.root) && IsTable(t, t.top)
    ensures i in TopTables(t, i, c).dirs && (IsTable(t, TopTables(t, i, c).dirs[i]) || c <= TopTables(t, i, c).dirs[i])
  {
  }

  lemma BothGrew(t: Tables, i: nat, k: nat, c: nat, c2: nat)
    requires c <= c2
    ensures Grew(t, DirTables(TopTables(t, i, c), k, c2), c)
  {
  }

  lemma TableInMemory(m: Memory, t: Tables, c: nat, p: nat)
    requires Wired(m, t, c) && p < PAGES && p / ENTRIES in t.tabs
    ensures InMemory(m, t.tabs[p / ENTRIES])
    ensures Leafward(m, t.tabs[p / ENTRIES], Pages(m, t), p)
  {
    hide Entry, FrameIn, Present, TableEntry;
    assert Translated(m, t, p) <==> Present(Entry(m, t.tabs[p / ENTRIES], p % ENTRIES));
  }

  lemma LeafWordIs(flags: nat, f: nat)
    ensures MakeEntry(BitOr(flags, WRITEABLE), f) == LeafWord(flags, f)
  {
  }

  lemma LeafSet(m: Memory, t: Tables, c: nat, p: nat, flags: nat, frame: nat, pages: map<nat, nat>)
    requires Wired(m, t, c) && p < PAGES && p / ENTRIES in t.tabs && OnlyFlags(flags) && IsData(t, c, frame)
    requires Pages(m, t) == pages && DataApart(pages, t, c)
    ensures var w := LeafWord(flags, frame);
      var n := PutEntry(m, t.tabs[p / ENTRIES], p % ENTRIES, w);
      Wired(n, t, c) && Pages(n, t) == pages[p := w] && DataApart(pages[p := w], t, c)
  {
    hide Entry, FrameIn, Present, TableEntry, Wired, Pages, BitOr, PutEntry, MakeEntry, Shr, Fits, IsTable;
    DataAddressable(m, t, c, frame);
    SmallFlags(WRITEABLE);
    OrFlags(flags, WRITEABLE);
    MadeEntry(BitOr(flags, WRITEABLE), frame);
    SetLeaf(m, t, c, p, LeafWord(flags, frame));
  }

  lemma LeafCleared(m: Memory, t: Tables, c: nat, p: nat, pages: map<nat, nat>)
    requires Wired(m, t, c) && p < PAGES && p / ENTRIES in t.tabs && Pages(m, t) == pages && DataApart(pages, t, c)
    ensures InMemory(m, t.tabs[p / ENTRIES])
    ensures var n := PutEntry(m, t.tabs[p / ENTRIES], p % ENTRIES, 0);
      Wired(n, t, c) && Pages(n, t) == pages - {p} && DataApart(pages - {p}, t, c)
  {
    hide Entry, FrameIn, TableEntry, Wired, Pages, PutEntry, IsTable;
    FitsZero(8);
    SetLeaf(m, t, c, p, 0);
  }

  /** Writing an entry of a lowest-level table. */
  lemma LeafExtends(m0: Memory, t0: Tables, c0: nat, m: Memory, t: Tables, c: nat, p: nat, w: nat)
    requires Extends(m0, t0, c0, m, t, c) && p / ENTRIES in t.tabs
    ensures Extends(m0, t0, c0, PutEntry(m, t.tabs[p / ENTRIES], p % ENTRIES, w), t, c)
  {
    hide PutEntry;
    var f := t.tabs[p / ENTRIES];
    assert IsTable(t, f);
    EntryKeepsData(m, t0, c0, f, p % ENTRIES, w);
  }

  lemma WiredMore(m: Memory, t: Tables, c: nat, d: nat)
    requires Wired(m, t, c) && c <= d && d * PAGE_SIZE <= |m|
    ensures Wired(m, t, d)
  {
  }
}
