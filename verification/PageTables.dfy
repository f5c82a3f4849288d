/**
 Four levels of page tables in physical memory, and the plain map from pages to leaf entries that they stand for.
 Pages are numbered by the 27 address bits below the version tag, so the top level never tells two apart.
 */
module PageTables {
  import opened Basics
  import opened Words
  import opened PageEntries

  const PAGES := 0x800_0000
  const TABS := 0x4_0000

  /** The frames that hold tables: the top level, the one table below it, and those of the next two levels. */
  datatype Tables = Tables(root: nat, top: nat, dirs: map<nat, nat>, tabs: map<nat, nat>)

  ghost predicate IsTable(t: Tables, f: nat) {
    f == t.root || f == t.top || (exists i :: i in t.dirs && t.dirs[i] == f) || (exists k :: k in t.tabs && t.tabs[k] == f)
  }

  /** No frame holds two tables. */
  ghost predicate DistinctTables(t: Tables) {
    && t.root != t.top
    && (forall i :: i in t.dirs ==> t.dirs[i] != t.root && t.dirs[i] != t.top)
    && (forall k :: k in t.tabs ==> t.tabs[k] != t.root && t.tabs[k] != t.top)
    && (forall i, j :: i in t.dirs && j in t.dirs && i != j ==> t.dirs[i] != t.dirs[j])
    && (forall k, l :: k in t.tabs && l in t.tabs && k != l ==> t.tabs[k] != t.tabs[l])
    && (forall i, k :: i in t.dirs && k in t.tabs ==> t.dirs[i] != t.tabs[k])
  }

  /** All tables lie below frame `c`. */
  ghost predicate TablesBelow(t: Tables, c: nat) {
    && t.root < c && t.top < c
    && (forall i :: i in t.dirs ==> i < ENTRIES && t.dirs[i] < c)
    && (forall k :: k in t.tabs ==> k < TABS && k / ENTRIES in t.dirs && t.tabs[k] < c)
  }

  /** The entry of a link, above the lowest level: it has the flags of every such entry, or it was never written. */
  ghost function LinkWord(links: map<nat, nat>, k: nat): nat {
    if k in links then TableEntry(links[k]) else 0
  }

  /** All entries of the top level lead to the same table. */
  ghost predicate RootOk(m: Memory, t: Tables) {
    forall i: nat :: i < ENTRIES ==> Entry(m, t.root, i) == TableEntry(t.top)
  }

  ghost predicate TopOk(m: Memory, t: Tables) {
    forall i: nat :: i < ENTRIES ==> Entry(m, t.top, i) == LinkWord(t.dirs, i)
  }

  ghost predicate DirsOk(m: Memory, t: Tables) {
    forall i: nat, j: nat {:trigger Entry(m, t.dirs[i], j)} :: i in t.dirs && j < ENTRIES ==>
      Entry(m, t.dirs[i], j) == LinkWord(t.tabs, ENTRIES * i + j)
  }

  /** Nothing has been written above frame `c`. */
  ghost predicate Clear(m: Memory, c: nat) {
    forall a :: c * PAGE_SIZE <= a < |m| ==> m[a] == 0
  }

  ghost predicate Sized(m: Memory, c: nat) {
    |m| % PAGE_SIZE == 0 && c * PAGE_SIZE <= |m| && Addressable(|m| / PAGE_SIZE)
  }

  /** The memory holds these tables, below frame `c`, and nothing above. */
  ghost predicate Wired(m: Memory, t: Tables, c: nat) {
    Sized(m, c) && DistinctTables(t) && TablesBelow(t, c) && RootOk(m, t) && TopOk(m, t) && DirsOk(m, t) && Clear(m, c)
  }

  ghost predicate Translated(m: Memory, t: Tables, p: nat) {
    p / ENTRIES in t.tabs && Present(Entry(m, t.tabs[p / ENTRIES], p % ENTRIES))
  }

  /** The pages that the tables translate, each with its leaf entry. */
  ghost function Pages(m: Memory, t: Tables): map<nat, nat> {
    map p: nat | p < PAGES && Translated(m, t, p) :: Entry(m, t.tabs[p / ENTRIES], p % ENTRIES)
  }

  // ---------------------------------------------------------------- writing one entry

  lemma PutClear(m: Memory, f: nat, i: nat, w: nat, c: nat)
    requires Sized(m, c) && Clear(m, c) && f < c && i < ENTRIES
    ensures InMemory(m, f) && Sized(PutEntry(m, f, i, w), c) && Clear(PutEntry(m, f, i, w), c)
  {
    var r := PutEntry(m, f, i, w);
    forall a | c * PAGE_SIZE <= a < |r|
      ensures r[a] == 0
    {
      PutByte(m, f, i, w, a);
    }
  }

  /** The entries of the other tables. */
  lemma PutOthers(m: Memory, f: nat, i: nat, w: nat)
    requires i < ENTRIES && InMemory(m, f) && Fits(w, 8)
    ensures forall g: nat, j: nat :: Entry(PutEntry(m, f, i, w), g, j) == if g == f && j == i then w else Entry(m, g, j)
  {
    forall g: nat, j: nat
      ensures Entry(PutEntry(m, f, i, w), g, j) == if g == f && j == i then w else Entry(m, g, j)
    {
      EntryPut(m, f, i, w, g, j);
    }
  }

  lemma BelowAddressable(m: Memory, c: nat, f: nat)
    requires Sized(m, c) && f * PAGE_SIZE < |m|
    ensures Addressable(f)
  {
    ShrMonotone(f, |m| / PAGE_SIZE, 40);
  }

  lemma RootAt(m: Memory, t: Tables, c: nat, i: nat)
    requires Wired(m, t, c) && i < ENTRIES
    ensures Entry(m, t.root, i) == TableEntry(t.top) && Addressable(t.top)
  {
    BelowAddressable(m, c, t.top);
  }

  /** A page-table entry proper is written. */
  lemma SetLeaf(m: Memory, t: Tables, c: nat, p: nat, w: nat)
    requires Wired(m, t, c) && p < PAGES && p / ENTRIES in t.tabs && Fits(w, 8)
    ensures InMemory(m, t.tabs[p / ENTRIES])
    ensures var n := PutEntry(m, t.tabs[p / ENTRIES], p % ENTRIES, w);
      && Wired(n, t, c)
      && Pages(n, t) == if Present(w) then Pages(m, t)[p := w] else Pages(m, t) - {p}
  {
    hide Entry, FrameIn, Present, TableEntry, PutEntry, Sized, Clear;
    var f := t.tabs[p / ENTRIES];
    PutClear(m, f, p % ENTRIES, w, c);
    PutOthers(m, f, p % ENTRIES, w);
    var n := PutEntry(m, f, p % ENTRIES, w);
    assert DirsOk(n, t) by {
      forall i: nat, j: nat | i in t.dirs && j < ENTRIES
        ensures Entry(n, t.dirs[i], j) == LinkWord(t.tabs, ENTRIES * i + j)
      {
        assert Entry(m, t.dirs[i], j) == LinkWord(t.tabs, ENTRIES * i + j);
      }
    }
    LeafPages(m, n, t, p, w);
  }

  lemma LeafPages(m: Memory, n: Memory, t: Tables, p: nat, w: nat)
    requires DistinctTables(t) && p < PAGES && p / ENTRIES in t.tabs
    requires forall g: nat, j: nat :: Entry(n, g, j) == if g == t.tabs[p / ENTRIES] && j == p % ENTRIES then w else Entry(m, g, j)
    ensures Pages(n, t) == if Present(w) then Pages(m, t)[p := w] else Pages(m, t) - {p}
  {
    hide Entry, FrameIn, Present;
    forall q: nat | q / ENTRIES in t.tabs && q != p
      ensures Entry(n, t.tabs[q / ENTRIES], q % ENTRIES) == Entry(m, t.tabs[q / ENTRIES], q % ENTRIES)
    {
      assert q / ENTRIES != p / ENTRIES || q % ENTRIES != p % ENTRIES;
    }
    var r := if Present(w) then Pages(m, t)[p := w] else Pages(m, t) - {p};
    forall q
      ensures q in Pages(n, t) <==> q in r
      ensures q in r ==> Pages(n, t)[q] == r[q]
    {
      if q != p && 0 <= q < PAGES { assert Translated(n, t, q) <==> Translated(m, t, q); }
      if q == p { assert Translated(n, t, p) <==> Present(w); }
    }
  }

  // ---------------------------------------------------------------- writing data

  /** Every byte that differs lies in a frame below `c` that is no table of `t`. */
  ghost predicate OnlyData(m: Memory, n: Memory, t: Tables, c: nat) {
    |n| == |m| && forall a :: 0 <= a < |m| && n[a] != m[a] ==> !IsTable(t, a / PAGE_SIZE) && a / PAGE_SIZE < c
  }

  /** Every byte of a frame below `c` that is no table of `t` is as it was. */
  ghost predicate DataKept(m: Memory, n: Memory, t: Tables, c: nat) {
    |n| == |m| && forall a :: 0 <= a < |m| && !IsTable(t, a / PAGE_SIZE) && a / PAGE_SIZE < c ==> n[a] == m[a]
  }

  /** Writing data changes no translation. */
  lemma DataWritten(m: Memory, n: Memory, t: Tables, c: nat)
    requires Wired(m, t, c) && OnlyData(m, n, t, c)
    ensures Wired(n, t, c) && Pages(n, t) == Pages(m, t)
  {
    hide Entry, OnlyData, Clear, Sized, IsTable, DistinctTables, TablesBelow, Pages, RootOk, TopOk, DirsOk;
    forall f: nat, j: nat | IsTable(t, f)
      ensures Entry(n, f, j) == Entry(m, f, j)
    {
      TableKept(m, n, t, c, f, j);
    }
    DataClear(m, n, t, c);
    SameTables(m, n, t);
  }

  lemma SameTables(m: Memory, n: Memory, t: Tables)
    requires forall f: nat, j: nat :: IsTable(t, f) ==> Entry(n, f, j) == Entry(m, f, j)
    requires RootOk(m, t) && TopOk(m, t) && DirsOk(m, t)
    ensures RootOk(n, t) && TopOk(n, t) && DirsOk(n, t) && Pages(n, t) == Pages(m, t)
  {
    hide Entry, Present, LinkWord, TableEntry;
    assert DirsOk(n, t) by {
      forall i: nat, j: nat | i in t.dirs && j < ENTRIES
        ensures Entry(n, t.dirs[i], j) == LinkWord(t.tabs, ENTRIES * i + j)
      {
        assert IsTable(t, t.dirs[i]) && Entry(m, t.dirs[i], j) == LinkWord(t.tabs, ENTRIES * i + j);
      }
    }
    assert forall p: nat :: p / ENTRIES in t.tabs ==> IsTable(t, t.tabs[p / ENTRIES]);
    assert forall p: nat :: Translated(n, t, p) <==> Translated(m, t, p);
  }

  lemma TableKept(m: Memory, n: Memory, t: Tables, c: nat, f: nat, j: nat)
    requires OnlyData(m, n, t, c) && IsTable(t, f)
    ensures Entry(n, f, j) == Entry(m, f, j)
  {
    hide IsTable, Entry;
    forall a | f * PAGE_SIZE <= a < (f + 1) * PAGE_SIZE && a < |m|
      ensures m[a] == n[a]
    {
      assert a / PAGE_SIZE == f;
    }
    EntryBytes(m, n, f, j);
  }

  lemma DataClear(m: Memory, n: Memory, t: Tables, c: nat)
    requires Sized(m, c) && Clear(m, c) && OnlyData(m, n, t, c)
    ensures Sized(n, c) && Clear(n, c)
  {
    hide IsTable, Shr;
  }

  lemma SlotInFrame(f: nat, i: nat, a: nat)
    requires i < ENTRIES
    ensures Slot(f, i) <= a < Slot(f, i) + 8 ==> a / PAGE_SIZE == f
  {
  }

  /** Writing an entry of a table, or of a frame not handed out yet, touches no data. */
  lemma EntryKeepsData(m: Memory, t: Tables, c: nat, f: nat, i: nat, w: nat)
    requires IsTable(t, f) || c <= f
    ensures DataKept(m, PutEntry(m, f, i, w), t, c)
  {
    hide IsTable, ToBytes;
    if i < ENTRIES && InMemory(m, f) {
      forall a | 0 <= a < |m| && !IsTable(t, a / PAGE_SIZE) && a / PAGE_SIZE < c
        ensures PutEntry(m, f, i, w)[a] == m[a]
      {
        SlotInFrame(f, i, a);
        PutByte(m, f, i, w, a);
      }
    }
  }

  // ---------------------------------------------------------------- new tables

  lemma ClearMore(m: Memory, c: nat)
    requires Sized(m, c) && Clear(m, c) && (c + 1) * PAGE_SIZE <= |m|
    ensures Sized(m, c + 1) && Clear(m, c + 1) && Addressable(c) && forall j: nat :: Entry(m, c, j) == 0
  {
    BelowAddressable(m, c, c);
    forall j: nat
      ensures Entry(m, c, j) == 0
    {
      EntryZero(m, c, j);
    }
  }

  lemma KeyOf(i: nat, j: nat)
    requires j < ENTRIES
    ensures (ENTRIES * i + j) / ENTRIES == i && (ENTRIES * i + j) % ENTRIES == j
  {
  }

  /** A new table below the single one at the second level. */
  lemma AddDir(m: Memory, t: Tables, c: nat, i: nat)
    requires Wired(m, t, c) && i < ENTRIES && i !in t.dirs && (c + 1) * PAGE_SIZE <= |m|
    ensures InMemory(m, t.top)
    ensures var n, u := PutEntry(m, t.top, i, TableEntry(c)), t.(dirs := t.dirs[i := c]);
      Wired(n, u, c + 1) && Pages(n, u) == Pages(m, t)
  {
    hide Entry, FrameIn, Present, TableEntry, PutEntry, Clear, Pages, Shr;
    ClearMore(m, c);
    TableEntryIs(c);
    PutClear(m, t.top, i, TableEntry(c), c + 1);
    PutOthers(m, t.top, i, TableEntry(c));
    var u, n := t.(dirs := t.dirs[i := c]), PutEntry(m, t.top, i, TableEntry(c));
    AddDirWired(m, n, t, u, c, i);
    SameLeaves(m, t, n, u, t.top);
  }

  /** Writing a frame that is no table of the lowest level leaves the leaves alone. */
  lemma SameLeaves(m: Memory, t: Tables, n: Memory, u: Tables, f: nat)
    requires forall g: nat, j: nat :: g != f ==> Entry(n, g, j) == Entry(m, g, j)
    requires forall k :: k in t.tabs ==> t.tabs[k] != f && k in u.tabs && u.tabs[k] == t.tabs[k]
    requires forall k, j: nat :: k in u.tabs && k !in t.tabs ==> !Present(Entry(n, u.tabs[k], j))
    ensures Pages(n, u) == Pages(m, t)
  {
    hide Entry, Present;
    assert forall p: nat :: Translated(n, u, p) <==> Translated(m, t, p);
  }

  lemma AddDirWired(m: Memory, n: Memory, t: Tables, u: Tables, c: nat, i: nat)
    requires Wired(m, t, c) && i < ENTRIES && i !in t.dirs
    requires u == t.(dirs := t.dirs[i := c]) && Sized(n, c + 1) && Clear(n, c + 1)
    requires forall g: nat, j: nat :: Entry(n, g, j) == if g == t.top && j == i then TableEntry(c) else Entry(m, g, j)
    requires forall j: nat :: Entry(m, c, j) == 0
    ensures Wired(n, u, c + 1)
  {
    hide Entry, FrameIn, Present, TableEntry, Sized, Clear, DirsOk;
    assert RootOk(n, u) && TopOk(n, u);
    AddDirLower(m, n, t, u, c, i);
  }

  lemma AddDirLower(m: Memory, n: Memory, t: Tables, u: Tables, c: nat, i: nat)
    requires DistinctTables(t) && TablesBelow(t, c) && DirsOk(m, t) && i < ENTRIES && i !in t.dirs
    requires u == t.(dirs := t.dirs[i := c])
    requires forall g: nat, j: nat :: Entry(n, g, j) == if g == t.top && j == i then TableEntry(c) else Entry(m, g, j)
    requires forall j: nat :: Entry(m, c, j) == 0
    ensures DirsOk(n, u)
  {
    hide Entry, TableEntry;
    forall k: nat, j: nat | k in u.dirs && j < ENTRIES
      ensures Entry(n, u.dirs[k], j) == LinkWord(u.tabs, ENTRIES * k + j)
    {
      KeyOf(k, j);
      if k != i { assert Entry(m, t.dirs[k], j) == LinkWord(t.tabs, ENTRIES * k + j); }
    }
  }

  /** A new table at the lowest level. */
  lemma AddTab(m: Memory, t: Tables, c: nat, k: nat)
    requires Wired(m, t, c) && k < TABS && k / ENTRIES in t.dirs && k !in t.tabs && (c + 1) * PAGE_SIZE <= |m|
    ensures InMemory(m, t.dirs[k / ENTRIES])
    ensures var n, u := PutEntry(m, t.dirs[k / ENTRIES], k % ENTRIES, TableEntry(c)), t.(tabs := t.tabs[k := c]);
      Wired(n, u, c + 1) && Pages(n, u) == Pages(m, t)
  {
    hide Entry, FrameIn, TableEntry, PutEntry, Clear, Pages, Shr;
    ClearMore(m, c);
    TableEntryIs(c);
    var w, f := TableEntry(c), t.dirs[k / ENTRIES];
    PutClear(m, f, k % ENTRIES, w, c + 1);
    PutOthers(m, f, k % ENTRIES, w);
    var u, n := t.(tabs := t.tabs[k := c]), PutEntry(m, f, k % ENTRIES, w);
    AddTabWired(m, n, t, u, c, k);
    SameLeaves(m, t, n, u, f);
  }

  lemma AddTabWired(m: Memory, n: Memory, t: Tables, u: Tables, c: nat, k: nat)
    requires Wired(m, t, c) && k < TABS && k / ENTRIES in t.dirs && k !in t.tabs
    requires u == t.(tabs := t.tabs[k := c]) && Sized(n, c + 1) && Clear(n, c + 1)
    requires forall g: nat, j: nat :: Entry(n, g, j) == if g == t.dirs[k / ENTRIES] && j == k % ENTRIES then TableEntry(c) else Entry(m, g, j)
    ensures Wired(n, u, c + 1)
  {
    hide Entry, TableEntry, Sized, Clear, DirsOk;
    assert RootOk(n, u) && TopOk(n, u);
    AddTabLower(m, n, t, u, c, k);
  }

  lemma AddTabLower(m: Memory, n: Memory, t: Tables, u: Tables, c: nat, k: nat)
    requires DistinctTables(t) && DirsOk(m, t) && k / ENTRIES in t.dirs && k !in t.tabs
    requires u == t.(tabs := t.tabs[k := c])
    requires forall g: nat, j: nat :: Entry(n, g, j) == if g == t.dirs[k / ENTRIES] && j == k % ENTRIES then TableEntry(c) else Entry(m, g, j)
    ensures DirsOk(n, u)
  {
    hide Entry, TableEntry;
    forall i: nat, j: nat | i in u.dirs && j < ENTRIES
      ensures Entry(n, u.dirs[i], j) == LinkWord(u.tabs, ENTRIES * i + j)
    {
      KeyOf(i, j);
      assert Entry(m, t.dirs[i], j) == LinkWord(t.tabs, ENTRIES * i + j);
    }
  }
}
