/**
 The walk down four levels of page tables: what `vm/paging.c` makes of an address, what each step of a
 walk finds or creates, and the walk that a processor makes.
 */
module PageWalks {
  import opened Basics
  import opened Words
  import opened PageEntries
  import opened PageTables

  // ---------------------------------------------------------------- addresses

  /** `virt_addr_info_t` */
  datatype VirtAddrInfo = VirtAddrInfo(version: nat, dirPtr: nat, dir: nat, tbl: nat, offset: nat)

  /** `get_virt_addr_info` */
  function GetVirtAddrInfo(addr: nat): VirtAddrInfo {
    VirtAddrInfo(addr / 0x80_0000_0000 % 512, addr / 0x4000_0000 % 512, addr / 0x20_0000 % 512, addr / 0x1000 % 512, addr % 0x1000)
  }

  /** The page that an address belongs to, whatever its version tag. */
  function PageNo(addr: nat): nat {
    addr / PAGE_SIZE % PAGES
  }

  /** The indices of the walk spell the page number. */
  lemma InfoSpellsPage(addr: nat)
    ensures GetVirtAddrInfo(addr).version < ENTRIES && PageNo(addr) < PAGES && Spells(GetVirtAddrInfo(addr), PageNo(addr))
  {
    var q := addr / 4096;
    assert addr / 0x20_0000 == q / 512 && addr / 0x4000_0000 == q / 512 / 512;
    SplitPage(q);
  }

  lemma SplitPage(q: nat)
    ensures var p, a, b, c := q % PAGES, q / 512 / 512 % 512, q / 512 % 512, q % 512;
      && p == (512 * a + b) * 512 + c && p / 512 == 512 * a + b && p % 512 == c
      && p / 512 / 512 == a && p / 512 % 512 == b
  {
    var a, b, c, d := q / 512 / 512 % 512, q / 512 % 512, q % 512, q / 512 / 512 / 512;
    var p := (512 * a + b) * 512 + c;
    assert q == d * PAGES + p;
    Remainder(q, d, p);
    KeyOf(512 * a + b, c);
    KeyOf(a, b);
  }

  lemma Remainder(q: nat, d: nat, p: nat)
    requires q == d * PAGES + p && p < PAGES
    ensures q % PAGES == p
  {
  }

  /** The indices spell the page number. */
  ghost predicate Spells(info: VirtAddrInfo, p: nat) {
    && info.dirPtr < ENTRIES && info.dir < ENTRIES && info.tbl < ENTRIES
    && p / ENTRIES == ENTRIES * info.dirPtr + info.dir && p % ENTRIES == info.tbl
    && p / ENTRIES / ENTRIES == info.dirPtr && p / ENTRIES % ENTRIES == info.dir && p / ENTRIES < TABS
  }

  lemma OffsetIs(addr: nat)
    ensures GetVirtAddrInfo(addr).offset == addr % PAGE_SIZE
  {
  }

  // ---------------------------------------------------------------- the steps of a walk

  /** Only frames from `c` on have become tables. */
  ghost predicate Grew(t: Tables, u: Tables, c: nat) {
    u.root == t.root && u.top == t.top && forall f :: IsTable(u, f) ==> IsTable(t, f) || c <= f
  }

  ghost function TopTables(t: Tables, i: nat, c: nat): Tables {
    if i in t.dirs then t else t.(dirs := t.dirs[i := c])
  }

  ghost function DirTables(t: Tables, k: nat, c: nat): Tables {
    if k in t.tabs then t else t.(tabs := t.tabs[k := c])
  }

  /** Making entry `index` present leads from the tables `t` to the tables `u`, and to the table in `next`. */
  ghost predicate Leads(m: Memory, table: nat, index: nat, t: Tables, u: Tables, c: nat, next: nat) {
    var was, flags := Entry(m, table, index), BitOr(USER, WRITEABLE);
    var w := if Present(was) then BitOr(was, flags) else MakeEntry(flags, c);
    var n := PutEntry(m, table, index, w);
    InMemory(m, table) && FrameIn(w) == next && Wired(n, u, c + if Present(was) then 0 else 1) && Pages(n, u) == Pages(m, t)
  }

  /** The walk from the top level down to the entry of page `p`. */
  lemma WalkLevels(m: Memory, t: Tables, c: nat, p: nat)
    requires Wired(m, t, c) && p < PAGES
    ensures InMemory(m, t.root) && Present(Entry(m, t.root, 0)) && FrameIn(Entry(m, t.root, 0)) == t.top && InMemory(m, t.top)
    ensures Entry(m, t.root, 0) == TableEntry(t.top) && Addressable(t.top)
    ensures Downward(m, t.top, t.dirs, p / ENTRIES / ENTRIES, p / ENTRIES / ENTRIES)
    ensures p / ENTRIES / ENTRIES in t.dirs ==> Downward(m, t.dirs[p / ENTRIES / ENTRIES], t.tabs, p / ENTRIES % ENTRIES, p / ENTRIES)
    ensures p / ENTRIES in t.tabs ==> Leafward(m, t.tabs[p / ENTRIES], Pages(m, t), p)
    ensures p in Pages(m, t) ==> p / ENTRIES in t.tabs
    ensures p / ENTRIES in t.tabs ==> p / ENTRIES / ENTRIES in t.dirs
  {
    hide Entry, FrameIn, Present, TableEntry, Shr;
    RootAt(m, t, c, 0);
    TableEntryIs(t.top);
    var k, i := p / ENTRIES, p / ENTRIES / ENTRIES;
    assert Entry(m, t.top, i) == LinkWord(t.dirs, i);
    LinkIs(m, t.dirs, i, c);
    if i in t.dirs {
      assert Entry(m, t.dirs[i], k % ENTRIES) == LinkWord(t.tabs, ENTRIES * i + k % ENTRIES);
      LinkIs(m, t.tabs, k, c);
    }
  }

  lemma LinkIs(m: Memory, links: map<nat, nat>, k: nat, c: nat)
    requires Sized(m, c) && (k in links ==> links[k] < c)
    ensures Present(LinkWord(links, k)) <==> k in links
    ensures k in links ==> FrameIn(LinkWord(links, k)) == links[k] && Addressable(links[k])
  {
    hide FrameIn, TableEntry;
    if k in links {
      BelowAddressable(m, c, links[k]);
      TableEntryIs(links[k]);
    }
  }

  /** Entry `i` of table `f` is present if and only if there is a table of number `k` below, and then points to it. */
  ghost predicate Downward(m: Memory, f: nat, links: map<nat, nat>, i: nat, k: nat) {
    var w := Entry(m, f, i);
    && (Present(w) <==> k in links) && w == LinkWord(links, k)
    && (k in links ==> FrameIn(w) == links[k] && InMemory(m, links[k]) && Addressable(links[k]))
  }

  /** The last entry of a walk is what the plain map says. */
  ghost predicate Leafward(m: Memory, f: nat, pages: map<nat, nat>, p: nat) {
    var w := Entry(m, f, p % ENTRIES);
    (Present(w) <==> p in pages) && (p in pages ==> w == pages[p])
  }

  lemma RootStep(m: Memory, t: Tables, c: nat)
    requires Wired(m, t, c)
    ensures Leads(m, t.root, 0, t, t, c, t.top) && Present(Entry(m, t.root, 0))
  {
    hide Entry, FrameIn, Present, TableEntry, Wired, Pages, BitOr, PutEntry, OnlyFlags;
    WalkLevels(m, t, c, 0);
    TableEntryIs(t.top);
    PutSame(m, t.root, 0);
  }

  lemma TopStep(m: Memory, t: Tables, c: nat, i: nat)
    requires Wired(m, t, c) && i < ENTRIES && (c + 1) * PAGE_SIZE <= |m|
    ensures i in TopTables(t, i, c).dirs && Leads(m, t.top, i, t, TopTables(t, i, c), c, TopTables(t, i, c).dirs[i])
  {
    hide Entry, FrameIn, Present, TableEntry, Wired, Pages, BitOr, PutEntry, OnlyFlags, MakeEntry;
    ByIndex(i);
    WalkLevels(m, t, c, i * ENTRIES * ENTRIES);
    if i in t.dirs {
      TableEntryIs(t.dirs[i]);
      PutSame(m, t.top, i);
    } else {
      AddDir(m, t, c, i);
      FreshAddressable(m, t, c);
      TableEntryIs(c);
    }
  }

  lemma ByIndex(i: nat)
    requires i < ENTRIES
    ensures var p := i * ENTRIES * ENTRIES; p < PAGES && p / ENTRIES / ENTRIES == i
  {
  }

  lemma FreshAddressable(m: Memory, t: Tables, c: nat)
    requires Wired(m, t, c) && (c + 1) * PAGE_SIZE <= |m|
    ensures Addressable(c)
  {
    ClearMore(m, c);
  }

  lemma DirStep(m: Memory, t: Tables, c: nat, k: nat)
    requires Wired(m, t, c) && k < TABS && k / ENTRIES in t.dirs && (c + 1) * PAGE_SIZE <= |m|
    ensures k in DirTables(t, k, c).tabs
    ensures Leads(m, t.dirs[k / ENTRIES], k % ENTRIES, t, DirTables(t, k, c), c, DirTables(t, k, c).tabs[k])
  {
    hide Entry, FrameIn, Present, TableEntry, Wired, Pages, BitOr, PutEntry, OnlyFlags, MakeEntry;
    ByKey(k);
    WalkLevels(m, t, c, k * ENTRIES);
    if k in t.tabs {
      TableEntryIs(t.tabs[k]);
      PutSame(m, t.dirs[k / ENTRIES], k % ENTRIES);
    } else {
      AddTab(m, t, c, k);
      FreshAddressable(m, t, c);
      TableEntryIs(c);
    }
  }

  lemma ByKey(k: nat)
    requires k < TABS
    ensures k * ENTRIES < PAGES && k * ENTRIES / ENTRIES == k
  {
  }

  // ---------------------------------------------------------------- the processor's walk

  predicate Bit(w: nat, k: nat) {
    Shr(w, k) % 2 == 1
  }

  /** What a processor makes of an address: no translation, a large page, or a frame with the rights to it. */
  datatype Access = Fault | LargePage | Frame(frame: nat, user: bool, write: bool, execute: bool)

  /** The frame that an entry gives a processor: address bits 12 to 51. */
  function HardwareFrame(w: nat): nat {
    Low(Shr(w, 12), 40)
  }

  /**
     4-level paging, section 4.5 of volume 3A of the Intel SDM: bits 47 to 12 of the address are four indices;
     bit 7 of an entry of the second or third level makes a large page; a right that one level withholds is not given.
   */
  function HardwareWalk(m: Memory, cr3: nat, addr: nat): Access {
    var e4 := Entry(m, cr3, addr / 0x80_0000_0000 % 512);
    if !Bit(e4, 0) then Fault else
    var e3 := Entry(m, HardwareFrame(e4), addr / 0x4000_0000 % 512);
    if !Bit(e3, 0) then Fault else if Bit(e3, 7) then LargePage else
    var e2 := Entry(m, HardwareFrame(e3), addr / 0x20_0000 % 512);
    if !Bit(e2, 0) then Fault else if Bit(e2, 7) then LargePage else
    var e1 := Entry(m, HardwareFrame(e2), addr / 0x1000 % 512);
    if !Bit(e1, 0) then Fault else
    Frame(HardwareFrame(e1), Bit(e4, 2) && Bit(e3, 2) && Bit(e2, 2) && Bit(e1, 2),
          Bit(e4, 1) && Bit(e3, 1) && Bit(e2, 1) && Bit(e1, 1),
          !Bit(e4, 63) && !Bit(e3, 63) && !Bit(e2, 63) && !Bit(e1, 63))
  }

  /** The entries above the lowest level withhold no right, and make no large page. */
  lemma TableEntryBits(f: nat)
    requires Addressable(f)
    ensures var w := TableEntry(f);
      Bit(w, 0) && Bit(w, 1) && Bit(w, 2) && !Bit(w, 7) && !Bit(w, 63) && HardwareFrame(w) == f
  {
    hide FrameIn, BitOr, TableEntry, Shr, Fits, Low;
    TableEntryIs(f);
    TableWordShifts(f);
    TableWordParity(f);
    ShrPlus(f, 40, 11);
    ShrZero(11);
    LowWhole(f, 40);
  }

  lemma TableWordParity(f: nat)
    ensures (f * PAGE_SIZE + 7) % 2 == 1 && (f * 2048 + 3) % 2 == 1 && (f * 1024 + 1) % 2 == 1 && f * 32 % 2 == 0
  {
    Parity(f * 2048 + 3, 1);
    Parity(f * 1024 + 1, 1);
    Parity(f * 512, 1);
    Parity(f * 16, 0);
  }

  lemma Parity(k: nat, b: nat)
    requires b < 2
    ensures forall x :: x == 2 * k + b ==> x % 2 == b
  {
  }

  lemma TableWordShifts(f: nat)
    ensures var w := f * PAGE_SIZE + 7;
      Shr(w, 0) == w && Shr(w, 1) == f * 2048 + 3 && Shr(w, 2) == f * 1024 + 1 && Shr(w, 7) == f * 32 && Shr(w, 12) == f
      && Shr(w, 63) == Shr(f, 51)
  {
    hide Shr;
    var w := f * 4096 + 7;
    FirstBits(w);
    ShrFive(f * 1024 + 1);
    ShrPlus(w, 2, 5);
    ShrFive(f * 32);
    ShrPlus(w, 7, 5);
    ShrPlus(w, 12, 51);
  }

  lemma {:induction false} LowLow(a: nat, k: nat, j: nat)
    requires j <= k
    ensures Low(Low(a, k), j) == Low(a, j)
    decreases k
  {
    if j > 0 {
      LowLow(a / 2, k - 1, j - 1);
      assert Low(a, k) / 2 == Low(a / 2, k - 1);
    }
  }

  /**
     A processor translates an address, whatever its version tag, if and only if the page has a leaf entry,
     to the frame in that entry and with the rights that the entry alone gives.
   */
  lemma HardwareSeesMap(m: Memory, t: Tables, c: nat, addr: nat)
    requires Wired(m, t, c)
    requires forall p :: p in Pages(m, t) ==> FrameIn(Pages(m, t)[p]) < c
    ensures HardwareWalk(m, t.root, addr) ==
            if PageNo(addr) in Pages(m, t)
            then var w := Pages(m, t)[PageNo(addr)]; Frame(FrameIn(w), Bit(w, 2), Bit(w, 1), !Bit(w, 63))
            else Fault
  {
    hide Wired, Entry, Pages, PageNo, TableEntry, Shr, Low, FrameIn;
    var info, p := GetVirtAddrInfo(addr), PageNo(addr);
    InfoSpellsPage(addr);
    WalkLevels(m, t, c, p);
    RootAt(m, t, c, info.version);
    TableEntryBits(t.top);
    PresentBit(Entry(m, t.top, info.dirPtr));
    if info.dirPtr in t.dirs {
      TableEntryBits(t.dirs[info.dirPtr]);
      PresentBit(Entry(m, t.dirs[info.dirPtr], info.dir));
      if p / ENTRIES in t.tabs {
        TableEntryBits(t.tabs[p / ENTRIES]);
        PresentBit(Entry(m, t.tabs[p / ENTRIES], info.tbl));
        if p in Pages(m, t) {
          DataAddressable(m, t, c, FrameIn(Pages(m, t)[p]));
          SameFrame(Pages(m, t)[p]);
        }
      }
    }
  }

  lemma DataAddressable(m: Memory, t: Tables, c: nat, f: nat)
    requires Wired(m, t, c) && f < c
    ensures Addressable(f)
  {
    hide Shr;
    BelowAddressable(m, c, f);
  }

  lemma PresentBit(w: nat)
    ensures Bit(w, 0) <==> Present(w)
  {
  }

  lemma SameFrame(w: nat)
    requires Addressable(FrameIn(w))
    ensures HardwareFrame(w) == FrameIn(w)
  {
    LowWhole(FrameIn(w), 40);
    LowLow(Shr(w, 12), 44, 40);
  }
}
