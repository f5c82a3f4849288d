/**
 `syscall_munmap` of kernel/c/mmap.c.
 */
module Munmapping {
  import opened Basics
  import opened VmAreas
  import opened RbTree
  import opened HostMemory
  import opened AreaHosting
  import opened Regions
  import opened AreaViews
  import opened Vma
  import opened VmaSteps
  import opened VmaCuts
  import opened Linking
  import opened Unlinking
  import opened Adjusting
  import opened Contents

  // ---------------------------------------------------------------- where a range begins and ends

  /** The records of a sorted list. */
  ghost predicate RecsInOrder(m: Recs, list: seq<VmArea>) {
    && (forall i :: 0 <= i < |list| ==> list[i] in m && m[list[i]].start < m[list[i]].end)
    && (forall i, j :: 0 <= i < j < |list| ==> m[list[i]].end <= m[list[j]].start)
    && Distinct(list) && Members(list, m.Keys)
  }

  /** The areas before position `j` end by `cut`, the others start there or later. */
  ghost predicate Bounded(m: Recs, list: seq<VmArea>, j: int, cut: int) {
    && 0 <= j <= |list|
    && (forall i :: 0 <= i < j ==> list[i] in m && m[list[i]].end <= cut)
    && (forall i :: j <= i < |list| ==> list[i] in m && cut <= m[list[i]].start)
  }

  lemma OpenInOrder(s: AddressSpace, stale: VmArea?)
    requires Open(s, stale)
    ensures RecsInOrder(RecsOf(s.nodes), s.order) && RecsOf(s.nodes).Keys == s.nodes
  {
    hide Open, ChainOf;
    RangesShown(s, stale);
    OpenMembers(s, stale);
    var m, c := RecsOf(s.nodes), ChainOf(s.nodes);
    assert m.Keys == s.nodes;
    forall i | 0 <= i < |s.order|
      ensures s.order[i] in m && m[s.order[i]].start == c.starts[s.order[i]] && m[s.order[i]].end == c.ends[s.order[i]]
    {
    }
  }

  lemma InsertedIndex(list: seq<VmArea>, k: int, x: VmArea)
    requires 0 <= k <= |list|
    ensures forall i {:trigger Inserted(list, k, x)[i]} :: 0 <= i < |list| + 1 ==>
      Inserted(list, k, x)[i] == if i < k then list[i] else if i == k then x else list[i - 1]
  {
    forall i | 0 <= i < |list| + 1
      ensures Inserted(list, k, x)[i] == if i < k then list[i] else if i == k then x else list[i - 1]
    {
      InsertedAt(list, k, x, i);
    }
  }

  /** After a split at `cut` the boundary is there. */
  lemma SplitBounded(m: Recs, list: seq<VmArea>, i: int, piece: VmArea, cut: int, below: bool)
    requires RecsInOrder(m, list) && 0 <= i < |list| && piece !in m && m[list[i]].start < cut < m[list[i]].end
    ensures Bounded(SplitRecs(m, list[i], piece, cut, below), Inserted(list, if below then i else i + 1, piece), i + 1, cut)
  {
    var k := if below then i else i + 1;
    var n, r := SplitRecs(m, list[i], piece, cut, below), Inserted(list, k, piece);
    InsertedIndex(list, k, piece);
    forall j | 0 <= j < |r|
      ensures r[j] in n && (j < i + 1 ==> n[r[j]].end <= cut) && (i + 1 <= j ==> cut <= n[r[j]].start)
    {
      var o := if j < k then j else j - 1;
      if j != k { assert r[j] == list[o] && (o < i ==> m[list[o]].end <= m[list[i]].start) && (i < o ==> m[list[i]].end <= m[list[o]].start); }
    }
  }

  /** An earlier boundary stays. */
  lemma SplitStillBounded(m: Recs, list: seq<VmArea>, i: int, piece: VmArea, cut: int, below: bool, f: int, addr: int)
    requires RecsInOrder(m, list) && 0 <= i < |list| && piece !in m && m[list[i]].start < cut < m[list[i]].end
    requires Bounded(m, list, f, addr) && f <= i
    ensures Bounded(SplitRecs(m, list[i], piece, cut, below), Inserted(list, if below then i else i + 1, piece), f, addr)
  {
    var k := if below then i else i + 1;
    var n, r := SplitRecs(m, list[i], piece, cut, below), Inserted(list, k, piece);
    InsertedIndex(list, k, piece);
    forall j | 0 <= j < |r|
      ensures r[j] in n && (j < f ==> n[r[j]].end <= addr) && (f <= j ==> addr <= n[r[j]].start)
    {
      var o := if j < k then j else j - 1;
      if j != k { assert r[j] == list[o]; }
    }
  }

  /** The search for the first area that ends behind `cut` finds the boundary, unless that area straddles it. */
  lemma FoundBounded(m: Recs, list: seq<VmArea>, i: int, cut: int)
    requires RecsInOrder(m, list) && 0 <= i < |list| && cut <= m[list[i]].start
    requires forall j :: 0 <= j < i ==> m[list[j]].end <= cut
    ensures Bounded(m, list, i, cut)
  {
  }

  /** Between the boundaries lies what is to be removed, outside them the rest. */
  lemma BetweenBounds(m: Recs, list: seq<VmArea>, f: int, j: int, lo: int, hi: int)
    requires RecsInOrder(m, list) && Bounded(m, list, f, lo) && Bounded(m, list, j, hi) && f <= j
    ensures forall v :: v in m && v in Slice(list, f, j) ==> lo <= m[v].start && m[v].end <= hi
    ensures forall v :: v in m && v !in Slice(list, f, j) ==> m[v].end <= lo || hi <= m[v].start
  {
    forall v | v in m && v !in Slice(list, f, j)
      ensures m[v].end <= lo || hi <= m[v].start
    {
      var i :| 0 <= i < |list| && list[i] == v;
    }
  }

  // ---------------------------------------------------------------- what the steps keep

  /** Only one area lies across `cut`. */
  lemma OnlyOne(m: Recs, list: seq<VmArea>, i: int, cut: int)
    requires RecsInOrder(m, list) && 0 <= i < |list| && m[list[i]].start < cut < m[list[i]].end
    ensures Straddles(m[list[i]], cut) && forall w :: w in m && w != list[i] ==> !Straddles(m[w], cut)
  {
    forall w | w in m && w != list[i]
      ensures !Straddles(m[w], cut)
    {
      var j :| 0 <= j < |list| && list[j] == w;
    }
  }

  /** Where the areas keep to both sides of `cut`, none lies across it. */
  lemma NoneAcross(m: Recs, list: seq<VmArea>, j: int, cut: int)
    requires RecsInOrder(m, list) && Bounded(m, list, j, cut)
    ensures Parted(Values(m), cut) == Values(m) && forall v :: v in m ==> !Straddles(m[v], cut)
  {
    forall v | v in m
      ensures !Straddles(m[v], cut)
    {
      var i :| 0 <= i < |list| && list[i] == v;
    }
    PartedNothing(Values(m), cut);
  }

  /** What `image` tells of a mapped file is what the file holds. */
  ghost predicate CleanRec(h: Host, r: Rec, image: Image) {
    r.file.fd != -1 ==>
      forall p :: p in image && PageIn(r, p) ==> image[p] == h.FilePage(r.file, r.offset, PageOf(r.start), p)
  }

  /** That holds of any area across `cut`. */
  ghost predicate CleanCut(h: Host, m: Recs, image: Image, cut: int) {
    forall v :: v in m && m[v].start < cut < m[v].end ==> CleanRec(h, m[v], image)
  }

  lemma CleanPiece(h: Host, r: Rec, image: Image, addr: int)
    requires CleanRec(h, r, image) && r.start < addr < r.end && Aligned(addr) && Aligned(r.start)
    ensures CleanRec(h, Lower(r, addr), image) && CleanRec(h, Upper(r, addr), image)
  {
    forall p | p in image
      ensures h.FilePage(r.file, r.offset + (addr - r.start), PageOf(addr), p) == h.FilePage(r.file, r.offset, PageOf(r.start), p)
    {
      FileShift(h, r.file, r.offset, r.start, addr, p);
    }
  }

  lemma SplitClean(h: Host, m: Recs, v: VmArea, piece: VmArea, addr: int, below: bool, image: Image, cut: int)
    requires CleanCut(h, m, image, cut) && CleanCut(h, m, image, addr)
    requires v in m && piece !in m && m[v].start < addr < m[v].end && Aligned(addr) && Aligned(m[v].start)
    ensures CleanCut(h, SplitRecs(m, v, piece, addr, below), image, cut)
  {
    CleanPiece(h, m[v], image, addr);
    var n := SplitRecs(m, v, piece, addr, below);
    forall w | w in n && n[w].start < cut < n[w].end
      ensures CleanRec(h, n[w], image)
    {
      if w != v && w != piece { assert w in m && n[w] == m[w]; }
    }
  }

  // ---------------------------------------------------------------- one split

  /** `EndOf`, by the records. */
  ghost function TopOf(m: Recs, list: seq<VmArea>): int {
    if list == [] then 0 else if list[|list| - 1] in m then m[list[|list| - 1]].end else 0
  }

  /** List, tree, caches and highest address agree. */
  ghost predicate Sane(s: AddressSpace)
    reads s`root, s`first, s`highest, s`nodes, s`order, s`span
    reads s.nodes`rbLeft, s.nodes`rbRight, s.nodes`rbParent, s.nodes`rbBlack, s.nodes`subtreeGap
    reads s.nodes`prev, s.nodes`next, s.nodes`start, s.nodes`end, s.nodes`prot, s.nodes`flags, s.nodes`file, s.nodes`pageOffset
  {
    Open(s, null) && s.highest == TopOf(RecsOf(s.nodes), s.order)
  }

  lemma SplitTop(m: Recs, list: seq<VmArea>, i: int, piece: VmArea, cut: int, below: bool)
    requires RecsInOrder(m, list) && 0 <= i < |list| && piece !in m && m[list[i]].start < cut < m[list[i]].end
    ensures TopOf(SplitRecs(m, list[i], piece, cut, below), Inserted(list, if below then i else i + 1, piece)) == TopOf(m, list)
    ensures !below && i == |list| - 1 ==> SplitRecs(m, list[i], piece, cut, below)[piece].end == TopOf(m, list)
  {
    InsertedIndex(list, if below then i else i + 1, piece);
  }

  lemma PieceShown(s: set<VmArea>, m: Recs, v: VmArea, piece: VmArea, addr: int, below: bool)
    requires v in m && piece in s && v in s && RecsOf(s) == SplitRecs(m, v, piece, addr, below)
    ensures piece.end == SplitRecs(m, v, piece, addr, below)[piece].end
    ensures forall p :: Covers(piece, p) <==> PageIn(SplitRecs(m, v, piece, addr, below)[piece], p)
    ensures forall p :: Covers(v, p) <==> PageIn(SplitRecs(m, v, piece, addr, below)[v], p)
  {
    RecsHave(s, piece);
    RecsHave(s, v);
  }

  lemma CleanIs(h: Host, v: VmArea, image: Image)
    ensures Clean(h, v, image) <==> CleanRec(h, RecOf(v), image)
  {
  }

  /** All that a split does to the records and their order. */
  lemma SplitDone(m: Recs, list: seq<VmArea>, i: int, piece: VmArea, cut: int, below: bool)
    requires RecsInOrder(m, list) && 0 <= i < |list| && piece !in m && m[list[i]].start < cut < m[list[i]].end && Aligned(cut)
    ensures Values(SplitRecs(m, list[i], piece, cut, below)) == Parted(Values(m), cut)
    ensures forall p :: !HasPage(Values(m), p) ==> !PageIn(SplitRecs(m, list[i], piece, cut, below)[list[i]], p)
                                                   && !PageIn(SplitRecs(m, list[i], piece, cut, below)[piece], p)
    ensures TopOf(SplitRecs(m, list[i], piece, cut, below), Inserted(list, if below then i else i + 1, piece)) == TopOf(m, list)
    ensures !below && i == |list| - 1 ==> SplitRecs(m, list[i], piece, cut, below)[piece].end == TopOf(m, list)
  {
    hide Parted, TopOf, Inserted;
    OnlyOne(m, list, i, cut);
    SplitValues(m, list[i], piece, cut, below);
    SplitTop(m, list, i, piece, cut, below);
    var n := SplitRecs(m, list[i], piece, cut, below);
    forall p | !HasPage(Values(m), p)
      ensures !PageIn(n[list[i]], p) && !PageIn(n[piece], p)
    {
      assert m[list[i]] in Values(m) && !PageIn(m[list[i]], p);
    }
  }

  /** The areas are cut at `cut`, and only pages of areas may have got or lost a translation. */
  ghost predicate Passed(m: Recs, n: Recs, cut: int, t: set<int>, u: set<int>) {
    Values(n) == Parted(Values(m), cut) && forall p :: !HasPage(Values(m), p) ==> (p in t <==> p in u)
  }

  /** `vma_split`, as the steps of `syscall_munmap` need it. */
  method SplitHere(s: AddressSpace, vma: VmArea, cut: nat, below: bool, ghost i: int, ghost image: Image) returns (ghost piece: VmArea)
    requires Sane(s) && HostedBut(s, vma, image) && 0 <= i < |s.order| && vma == s.order[i]
    requires vma.start < cut < vma.end && Aligned(cut) && CleanRec(s.host, RecOf(vma), image)
    modifies vma`start, vma`end, vma`pageOffset
    modifies s`root, s`first, s`highest, s`nodes, s`order, s`span, s.nodes`prev, s.nodes`next
    modifies s.nodes`rbLeft, s.nodes`rbRight, s.nodes`rbParent, s.nodes`rbBlack, s.nodes`subtreeGap
    modifies s.host`next, s.host`table, s.host`ram, s.host`holes
    modifies vma`physStart, vma`physEnd, vma`oldStart, vma`oldEnd, vma`flags
    ensures s.order == Inserted(old(s.order), if below then i else i + 1, piece)
    ensures Sane(s) && Hosted(s, image) && fresh(piece) && s.nodes == old(s.nodes) + {piece} && vma in old(RecsOf(s.nodes))
    ensures RecsOf(s.nodes) == SplitRecs(old(RecsOf(s.nodes)), vma, piece, cut, below)
    ensures old(s.nodes <= MappedOnes(s.host, s.nodes)) ==> s.nodes <= MappedOnes(s.host, s.nodes)
    ensures Passed(old(RecsOf(s.nodes)), RecsOf(s.nodes), cut, old(s.host.table.Keys), s.host.table.Keys)
  {
    hide Open, Hosted, HostedBut, MappedOnes, RecsOf, SplitRecs, TopOf, RecsInOrder, Inserted, Values, Parted, HasPage, PageIn;
    hide Covers, CleanRec, Clean;
    ghost var m := RecsOf(s.nodes);
    OpenAt(s, null, i);
    RecsHave(s.nodes, vma);
    OpenInOrder(s, null);
    CleanIs(s.host, vma, image);
    var err;
    err, piece := VmaSplit(s, vma, cut, below, i, image);
    SplitDone(m, old(s.order), i, piece, cut, below);
    PieceShown(s.nodes, m, vma, piece, cut, below);
  }

  // ---------------------------------------------------------------- what the areas will hold

  /** The areas are in place, and hold what `image` tells but for those that show a file and are about to be cut. */
  ghost predicate Foretold(s: AddressSpace, image: Image, cuts: set<int>)
    reads s`nodes, s.host, s.nodes`start, s.nodes`end, s.nodes`oldStart, s.nodes`oldEnd, s.nodes`physStart, s.nodes`physEnd
    reads s.nodes`file, s.nodes`pageOffset, s.nodes`prot, s.nodes`flags
  {
    && Lodged(s.host, s.nodes)
    && forall v, p :: v in s.nodes && p in image && Keeps(v, p) && !CutFile(RecOf(v), cuts) ==> s.host.Shows(v, p) == image[p]
  }

  /** What is told, but for pages of files that only the second cut goes through. */
  ghost function Withheld(image: Image, s: Regions, addr: int, end: int): (told: Image)
    ensures forall p :: p in told ==> p in image && told[p] == image[p]
    ensures forall p :: p in image && p !in told ==> exists r :: r in s && PageIn(r, p) && CutFile(r, {end}) && !Straddles(r, addr)
    ensures forall p, r :: p in told && r in s && PageIn(r, p) && CutFile(r, {end}) ==> Straddles(r, addr)
  {
    map p | p in image && !(exists r :: r in s && PageIn(r, p) && CutFile(r, {end}) && !Straddles(r, addr)) :: image[p]
  }

  /** What a page in the records and in the heap is. */
  lemma KeptPage(s: AddressSpace, v: VmArea, p: int)
    requires Lodged(s.host, s.nodes) && v in s.nodes
    ensures Keeps(v, p) <==> PageIn(RecOf(v), p)
    ensures Keeps(v, p) <==> Covers(v, p)
    ensures RecOf(v) in Values(RecsOf(s.nodes))
  {
    assert InPlace(v) && s.host.Housed(v);
    RecsHave(s.nodes, v);
    assert RecsOf(s.nodes)[v] in Values(RecsOf(s.nodes));
  }

  /** Before the first cut everything but the area that is cut holds what is told. */
  lemma BeforeLow(s: AddressSpace, vma: VmArea, image: Image, addr: int, end: int)
    requires Foretold(s, image, {addr, end}) && vma in s.nodes
    requires forall v :: v in s.nodes && v != vma ==> !Straddles(RecOf(v), addr)
    ensures HostedBut(s, vma, Withheld(image, Values(RecsOf(s.nodes)), addr, end))
  {
    hide Lodged, Values, RecsOf, Straddles, Keeps, Covers, PageIn, RecOf;
    var told := Withheld(image, Values(RecsOf(s.nodes)), addr, end);
    forall v, p | v in s.nodes && p in told && Keeps(v, p) && (v != vma || v.file.fd == -1)
      ensures Due(s.host, v, p) == told[p]
    {
      KeptPage(s, v, p);
      InPlaceHere(s, v);
      FileOf(v);
      assert !CutFile(RecOf(v), {addr, end});
    }
  }

  lemma InPlaceHere(s: AddressSpace, v: VmArea)
    requires Lodged(s.host, s.nodes) && v in s.nodes
    ensures InPlace(v)
  {
  }

  lemma FileOf(v: VmArea)
    ensures RecOf(v).file == v.file
  {
  }

  /** After it the areas hold everything that is foretold, but for the second cut. */
  lemma AfterLow(s: AddressSpace, old_: Regions, image: Image, addr: int, end: int)
    requires Hosted(s, Withheld(image, old_, addr, end)) && PagesApart(s.nodes)
    requires Values(RecsOf(s.nodes)) == Parted(old_, addr)
    ensures Foretold(s, image, {end})
  {
    hide Lodged, RecsOf, Straddles, Keeps, PageIn, RecOf, Parted, PagesApart;
    var told := Withheld(image, old_, addr, end);
    forall v, p | v in s.nodes && p in image && Keeps(v, p) && !CutFile(RecOf(v), {end})
      ensures s.host.Shows(v, p) == image[p]
    {
      KeptPage(s, v, p);
      InPlaceHere(s, v);
      if p in told {
        assert Due(s.host, v, p) == told[p];
      } else {
        var r :| r in old_ && PageIn(r, p) && CutFile(r, {end}) && !Straddles(r, addr);
        InParted(old_, addr, r);
        SameArea(s, v, r, p);
        assert false;
      }
    }
  }

  /** A page has one area only. */
  lemma SameArea(s: AddressSpace, v: VmArea, r: Rec, p: int)
    requires v in s.nodes && r in Values(RecsOf(s.nodes)) && PageIn(r, p) && Covers(v, p) && PagesApart(s.nodes)
    ensures RecOf(v) == r
  {
    var w: VmArea :| w in RecsOf(s.nodes) && RecsOf(s.nodes)[w] == r;
    RecsHave(s.nodes, w);
    assert Covers(w, p);
  }

  /** Before the second cut. */
  lemma BeforeHigh(s: AddressSpace, vma: VmArea, image: Image, end: int)
    requires Foretold(s, image, {end}) && vma in s.nodes
    requires forall v :: v in s.nodes && v != vma ==> !Straddles(RecOf(v), end)
    ensures HostedBut(s, vma, image)
  {
    hide Lodged, RecsOf, Straddles, Keeps, Covers, PageIn, RecOf;
    forall v, p | v in s.nodes && p in image && Keeps(v, p) && (v != vma || v.file.fd == -1)
      ensures Due(s.host, v, p) == image[p]
    {
      InPlaceHere(s, v);
      FileOf(v);
      assert !CutFile(RecOf(v), {end});
    }
  }

  /** Where no area lies across the cut, all hold what is foretold. */
  lemma NoCut(s: AddressSpace, image: Image, m: Recs, cut: int, cuts: set<int>)
    requires Foretold(s, image, cuts + {cut}) && RecsOf(s.nodes) == m && forall v :: v in m ==> !Straddles(m[v], cut)
    ensures Foretold(s, image, cuts)
  {
    hide Lodged, Keeps, Straddles;
    forall v | v in s.nodes && !CutFile(RecOf(v), cuts)
      ensures !CutFile(RecOf(v), cuts + {cut})
    {
      RecsHave(s.nodes, v);
    }
  }

  lemma ForetoldAll(s: AddressSpace, image: Image)
    requires Foretold(s, image, {})
    ensures Hosted(s, image)
  {
  }

  // ---------------------------------------------------------------- the two ends of the range

  /** The first part of `syscall_munmap`: `vma`, the first area that ends behind `addr`, is cut there if it has to be. */
  method CutLow(s: AddressSpace, vma: VmArea, addr: nat, end: nat, ghost i: int, ghost image: Image)
    returns (prev: VmArea?, ghost f: int)
    requires Sane(s) && Foretold(s, image, {addr, end}) && 0 <= i < |s.order| && vma == s.order[i] && Aligned(addr)
    requires forall j :: 0 <= j < i ==> s.order[j] in RecsOf(s.nodes) && RecsOf(s.nodes)[s.order[j]].end <= addr
    requires addr < vma.end && vma.start < end && addr < end
    requires CleanCut(s.host, RecsOf(s.nodes), image, addr) && CleanCut(s.host, RecsOf(s.nodes), image, end)
    modifies vma`start, vma`end, vma`pageOffset
    modifies s`root, s`first, s`highest, s`nodes, s`order, s`span, s.nodes`prev, s.nodes`next
    modifies s.nodes`rbLeft, s.nodes`rbRight, s.nodes`rbParent, s.nodes`rbBlack, s.nodes`subtreeGap
    modifies s.host`next, s.host`table, s.host`ram, s.host`holes
    modifies vma`physStart, vma`physEnd, vma`oldStart, vma`oldEnd, vma`flags
    ensures Sane(s) && Foretold(s, image, {end}) && fresh(s.nodes - old(s.nodes))
    ensures Bounded(RecsOf(s.nodes), s.order, f, addr) && 0 <= f < |s.order| && prev == At(s.order, f - 1)
    ensures s.order[f] in RecsOf(s.nodes) && RecsOf(s.nodes)[s.order[f]].start < end
    ensures CleanCut(s.host, RecsOf(s.nodes), image, end)
    ensures old(s.nodes <= MappedOnes(s.host, s.nodes)) ==> s.nodes <= MappedOnes(s.host, s.nodes)
    ensures Passed(old(RecsOf(s.nodes)), RecsOf(s.nodes), addr, old(s.host.table.Keys), s.host.table.Keys)
  {
    hide Sane, Open, Hosted, HostedBut, Foretold, MappedOnes, RecsOf, SplitRecs, RecsInOrder, Inserted, CleanRec, CleanCut;
    hide Bounded, Straddles;
    hide Parted, Values, HasPage, PagesApart;
    ghost var m, list := RecsOf(s.nodes), s.order;
    SaneParts(s);
    OpenAt(s, null, i);
    RecsHave(s.nodes, vma);
    prev, f := vma.prev, i;
    if addr > vma.start {
      RangeAt(s, i);
      CleanAcross(s.host, m, image, addr, vma);
      ghost var told := Withheld(image, Values(m), addr, end);
      LowReady(s, list, i, vma, image, addr, end);
      ghost var piece := SplitHere(s, vma, addr, false, i, told);
      prev, f := vma, i + 1;
      SaneApart(s);
      AfterLow(s, Values(m), image, addr, end);
      SplitBounded(m, list, i, piece, addr, false);
      SplitClean(s.host, m, vma, piece, addr, false, image, end);
      SplitSecond(m, list, i, piece, addr);
    } else {
      FoundBounded(m, list, i, addr);
      NoneAcross(m, list, i, addr);
      assert {end} + {addr} == {addr, end};
      NoCut(s, image, m, addr, {end});
    }
  }

  lemma SaneApart(s: AddressSpace)
    requires Sane(s)
    ensures PagesApart(s.nodes)
  {
    SaneParts(s);
    OpenPagesApart(s, null);
  }

  /** The area that is cut first is the only one there. */
  lemma LowReady(s: AddressSpace, list: seq<VmArea>, i: int, vma: VmArea, image: Image, addr: int, end: int)
    requires Foretold(s, image, {addr, end}) && RecsInOrder(RecsOf(s.nodes), list) && 0 <= i < |list| && vma == list[i]
    requires vma in s.nodes && vma.start < addr < vma.end && CleanRec(s.host, RecOf(vma), image)
    ensures HostedBut(s, vma, Withheld(image, Values(RecsOf(s.nodes)), addr, end))
    ensures CleanRec(s.host, RecOf(vma), Withheld(image, Values(RecsOf(s.nodes)), addr, end))
  {
    RecsHave(s.nodes, vma);
    OnlyOne(RecsOf(s.nodes), list, i, addr);
    OthersUncut(s, vma, addr);
    hide Foretold, HostedBut, Values, RecsInOrder, Straddles;
    BeforeLow(s, vma, image, addr, end);
  }

  lemma OthersUncut(s: AddressSpace, vma: VmArea, cut: int)
    requires forall w :: w in RecsOf(s.nodes) && w != vma ==> !Straddles(RecsOf(s.nodes)[w], cut)
    ensures forall w :: w in s.nodes && w != vma ==> !Straddles(RecOf(w), cut)
  {
    forall w | w in s.nodes && w != vma
      ensures !Straddles(RecOf(w), cut)
    {
      RecsHave(s.nodes, w);
    }
  }

  lemma SaneParts(s: AddressSpace)
    requires Sane(s)
    ensures Open(s, null) && RecsInOrder(RecsOf(s.nodes), s.order) && RecsOf(s.nodes).Keys == s.nodes
  {
    OpenInOrder(s, null);
  }

  lemma CleanAcross(h: Host, m: Recs, image: Image, cut: int, v: VmArea)
    requires CleanCut(h, m, image, cut) && v in m && m[v].start < cut < m[v].end
    ensures CleanRec(h, m[v], image)
  {
  }

  /** The upper piece follows the area it was cut off. */
  lemma SplitSecond(m: Recs, list: seq<VmArea>, i: int, piece: VmArea, addr: int)
    requires RecsInOrder(m, list) && 0 <= i < |list| && piece !in m && m[list[i]].start < addr < m[list[i]].end
    ensures var n, r := SplitRecs(m, list[i], piece, addr, false), Inserted(list, i + 1, piece);
      |r| == |list| + 1 && r[i] == list[i] && r[i + 1] == piece && piece in n && n[piece].start == addr
  {
    InsertedIndex(list, i + 1, piece);
  }

  /** What `vma_find` found, by position and records. */
  ghost predicate FoundAt(s: AddressSpace, vma: VmArea, cut: int, i: int)
    reads s`order, s`nodes, s.nodes`start, s.nodes`end, s.nodes`prot, s.nodes`flags, s.nodes`file, s.nodes`pageOffset
  {
    && 0 <= i < |s.order| && s.order[i] == vma && vma in RecsOf(s.nodes) && cut < RecsOf(s.nodes)[vma].end
    && forall j :: 0 <= j < i ==> s.order[j] in RecsOf(s.nodes) && RecsOf(s.nodes)[s.order[j]].end <= cut
  }

  lemma FoundShown(s: AddressSpace, vma: VmArea?, cut: int)
    requires Sane(s) && FirstBehind(s, vma, cut)
    ensures vma == null ==> Bounded(RecsOf(s.nodes), s.order, |s.order|, cut)
    ensures vma != null ==> vma in s.span && FoundAt(s, vma, cut, s.span[vma].at)
  {
    SaneParts(s);
    forall i | 0 <= i < |s.order|
      ensures s.order[i] in RecsOf(s.nodes) && RecsOf(s.nodes)[s.order[i]].end == s.order[i].end
    {
    }
  }

  lemma FoundParts(s: AddressSpace, vma: VmArea, cut: int, i: int)
    requires FoundAt(s, vma, cut, i) && Sane(s)
    ensures 0 <= i < |s.order| && s.order[i] == vma && vma in s.nodes && vma in RecsOf(s.nodes) && RecsOf(s.nodes)[vma] == RecOf(vma)
    ensures cut < vma.end && Aligned(vma.start) && Aligned(vma.end)
    ensures forall j :: 0 <= j < i ==> s.order[j] in RecsOf(s.nodes) && RecsOf(s.nodes)[s.order[j]].end <= cut
  {
    SaneParts(s);
    RangeAt(s, i);
  }

  /** Common part of the lookups of `syscall_munmap`. */
  method Find(s: AddressSpace, cut: int) returns (vma: VmArea?, ghost i: int)
    requires Sane(s)
    ensures vma == null ==> Bounded(RecsOf(s.nodes), s.order, |s.order|, cut)
    ensures vma != null ==> FoundAt(s, vma, cut, i)
  {
    hide Sane, FoundAt, Bounded, RecsOf, FirstBehind, Open, Ordered, RecsInOrder;
    SaneParts(s);
    OpenOrdered(s, null);
    ghost var path;
    vma, path := VmaFind(s, cut);
    FoundShown(s, vma, cut);
    i := if vma != null then s.span[vma].at else 0;
  }

  lemma BoundsOrder(m: Recs, list: seq<VmArea>, f: int, j: int, end: int)
    requires RecsInOrder(m, list) && Bounded(m, list, j, end) && 0 <= f < |list| && list[f] in m && m[list[f]].start < end
    ensures f < j
  {
  }

  /** Splitting behind the lower end leaves what is at the lower end. */
  lemma SplitFront(m: Recs, list: seq<VmArea>, i: int, piece: VmArea, cut: int, f: int)
    requires RecsInOrder(m, list) && 0 <= f <= i < |list| && piece !in m && m[list[i]].start < cut < m[list[i]].end
    requires list[f] in m && m[list[f]].start < cut
    ensures var n, r := SplitRecs(m, list[i], piece, cut, true), Inserted(list, i, piece);
      |r| == |list| + 1 && At(r, f - 1) == At(list, f - 1) && r[f] in n && n[r[f]].start < cut
  {
    InsertedIndex(list, i, piece);
    InsertedAt(list, i, piece, f - 1);
  }

  /** The search from the upper end does not stop before the lower end. */
  lemma NotBefore(m: Recs, list: seq<VmArea>, f: int, addr: int, i: int, cut: int)
    requires RecsInOrder(m, list) && Bounded(m, list, f, addr) && addr < cut && 0 <= i < |list| && cut < m[list[i]].end
    ensures f <= i
  {
  }

  /** The second part of `syscall_munmap`: the area across the end of the range, if there is one, is cut there. */
  method CutHigh(s: AddressSpace, end: nat, prev: VmArea?, ghost addr: int, ghost f: int, ghost image: Image) returns (ghost j: int)
    requires Sane(s) && Foretold(s, image, {end}) && Aligned(end) && addr < end
    requires Bounded(RecsOf(s.nodes), s.order, f, addr) && 0 <= f < |s.order| && prev == At(s.order, f - 1)
    requires s.order[f] in RecsOf(s.nodes) && RecsOf(s.nodes)[s.order[f]].start < end
    requires CleanCut(s.host, RecsOf(s.nodes), image, end)
    modifies s.nodes`start, s.nodes`end, s.nodes`pageOffset
    modifies s`root, s`first, s`highest, s`nodes, s`order, s`span, s.nodes`prev, s.nodes`next
    modifies s.nodes`rbLeft, s.nodes`rbRight, s.nodes`rbParent, s.nodes`rbBlack, s.nodes`subtreeGap
    modifies s.host`next, s.host`table, s.host`ram, s.host`holes
    modifies s.nodes`physStart, s.nodes`physEnd, s.nodes`oldStart, s.nodes`oldEnd, s.nodes`flags
    ensures Sane(s) && Hosted(s, image) && fresh(s.nodes - old(s.nodes))
    ensures Bounded(RecsOf(s.nodes), s.order, f, addr) && prev == At(s.order, f - 1)
    ensures Bounded(RecsOf(s.nodes), s.order, j, end) && f < j
    ensures old(s.nodes <= MappedOnes(s.host, s.nodes)) ==> s.nodes <= MappedOnes(s.host, s.nodes)
    ensures Passed(old(RecsOf(s.nodes)), RecsOf(s.nodes), end, old(s.host.table.Keys), s.host.table.Keys)
  {
    hide Sane, Open, Hosted, HostedBut, Foretold, MappedOnes, RecsOf, SplitRecs, RecsInOrder, Inserted, CleanRec, CleanCut;
    hide Bounded, FoundAt;
    hide Parted, Values, HasPage, Straddles;
    ghost var m, list := RecsOf(s.nodes), s.order;
    SaneParts(s);
    var last;
    ghost var i;
    last, i := Find(s, end);
    j := |s.order|;
    if last != null {
      FoundParts(s, last, end, i);
      j := i;
      if end > last.start {
        NotBefore(m, list, f, addr, i, end);
        CleanAcross(s.host, m, image, end, last);
        HighReady(s, list, i, last, image, end);
        ghost var piece := SplitHere(s, last, end, true, i, image);
        j := i + 1;
        SplitBounded(m, list, i, piece, end, true);
        SplitStillBounded(m, list, i, piece, end, true, f, addr);
        SplitFront(m, list, i, piece, end, f);
        SaneParts(s);
        BoundsOrder(RecsOf(s.nodes), s.order, f, j, end);
        return;
      } else {
        FoundBounded(m, list, i, end);
      }
    }
    NoneAcross(m, list, j, end);
    assert {} + {end} == {end};
    NoCut(s, image, m, end, {});
    ForetoldAll(s, image);
    BoundsOrder(RecsOf(s.nodes), s.order, f, j, end);
  }

  lemma HighReady(s: AddressSpace, list: seq<VmArea>, i: int, vma: VmArea, image: Image, end: int)
    requires Foretold(s, image, {end}) && RecsInOrder(RecsOf(s.nodes), list) && 0 <= i < |list| && vma == list[i]
    requires vma in s.nodes && vma.start < end < vma.end
    ensures HostedBut(s, vma, image)
  {
    RecsHave(s.nodes, vma);
    OnlyOne(RecsOf(s.nodes), list, i, end);
    OthersUncut(s, vma, end);
    BeforeHigh(s, vma, image, end);
  }

  // ---------------------------------------------------------------- removing what lies between

  /** One of the areas has page `p`. */
  ghost predicate OneCovers(list: seq<VmArea>, n: int, p: int)
    requires 0 <= n <= |list|
    reads list`start, list`end
  {
    exists i :: 0 <= i < n && Covers(list[i], p)
  }

  /** The pages of the first `n` areas have lost their translation, all others are translated as before. */
  ghost predicate Unmapped(t: map<int, int>, u: map<int, int>, list: seq<VmArea>, n: int)
    requires 0 <= n <= |list|
    reads list`start, list`end
  {
    forall p ::
      && (OneCovers(list, n, p) ==> p !in u)
      && (!OneCovers(list, n, p) ==> (p in u <==> p in t) && (p in u ==> u[p] == t[p]))
  }

  /** The areas still have their frames. */
  ghost predicate Evictable(h: Host, list: seq<VmArea>)
    reads h`next
    reads list`start, list`end, list`oldStart, list`oldEnd, list`physStart, list`physEnd, list`file
  {
    forall i :: 0 <= i < |list| ==> h.Framed(list[i]) && InPlace(list[i])
  }

  lemma UnmappedMore(t: map<int, int>, u: map<int, int>, w: map<int, int>, list: seq<VmArea>, n: int)
    requires 0 <= n < |list| && Unmapped(t, u, list, n)
    requires forall p :: Covers(list[n], p) ==> p !in w
    requires forall p :: !Covers(list[n], p) ==> (p in w <==> p in u) && (p in w ==> w[p] == u[p])
    ensures Unmapped(t, w, list, n + 1)
  {
    forall p
      ensures OneCovers(list, n + 1, p) <==> OneCovers(list, n, p) || Covers(list[n], p)
    {
    }
  }

  /** `vma_list_remove`: each area of the list is unmapped and its record given up. */
  method VmaListRemove(h: Host, first: VmArea, ghost list: seq<VmArea>, ghost keys: set<VmArea>, ghost keep: set<VmArea>, ghost image: Image)
    requires list != [] && first == list[0] && Threaded(list, keys) && Evictable(h, list)
    requires Roomed(h, keep) && Faithful(h, keep, image)
    modifies h`next, h`table
    ensures Roomed(h, keep) && Faithful(h, keep, image)
    ensures Unmapped(old(h.table), h.table, list, |list|)
  {
    hide Threaded, Roomed, Faithful, Unmapped;
    var vma := first;
    ghost var n := 0;
    NothingUnmapped(h.table, list);
    while true
      invariant 0 <= n < |list| && vma == list[n] && Threaded(list, keys) && Evictable(h, list)
      invariant Roomed(h, keep) && Faithful(h, keep, image)
      invariant Unmapped(old(h.table), h.table, list, n)
      decreases |list| - n
    {
      // vma_remove
      ThreadedAt(list, keys, n);
      ghost var u := h.table;
      UnmapOne(h, vma, keep, image);
      UnmappedMore(old(h.table), u, h.table, list, n);
      n := n + 1;
      if vma.next == null {
        break;
      }
      vma := vma.next;
    }
  }

  lemma NothingUnmapped(t: map<int, int>, list: seq<VmArea>)
    ensures Unmapped(t, t, list, 0)
  {
  }

  lemma CutTop(m: Recs, list: seq<VmArea>, f: int, j: int)
    requires RecsInOrder(m, list) && 0 <= f < j <= |list|
    ensures TopOf(m - Slice(list, f, j), Cut(list, f, j)) ==
            if j < |list| then TopOf(m, list) else if f > 0 then m[list[f - 1]].end else 0
  {
  }

  /** The loop that erases stops at the boundary. */
  lemma StopsThere(s: AddressSpace, m: Recs, list: seq<VmArea>, f: int, j: int, k: int, end: int)
    requires RecsInOrder(m, list) && Bounded(m, list, j, end) && 0 <= f < j && f < k <= |list|
    requires forall i :: 0 <= i < |list| ==> m[list[i]].start == list[i].start
    requires k < |list| ==> list[k].start >= end
    requires forall i :: f < i < k ==> list[i].start < end
    ensures k == j
  {
    forall i | f < i < |list|
      ensures list[i].start < end <==> i < j
    {
      assert m[list[i]].start < m[list[i]].end;
    }
    if j < |list| { assert list[j] in m; }
  }

  lemma StartsShown(s: AddressSpace)
    requires Sane(s)
    ensures forall i :: 0 <= i < |s.order| ==> s.order[i] in RecsOf(s.nodes) && RecsOf(s.nodes)[s.order[i]].start == s.order[i].start
                                               && RecsOf(s.nodes)[s.order[i]].end == s.order[i].end
  {
    SaneParts(s);
  }

  /** The areas that are about to go, and those that stay, in the host memory. */
  lemma HostedSplit(s: AddressSpace, image: Image, f: int, j: int)
    requires Sane(s) && Hosted(s, image) && 0 <= f <= j <= |s.order|
    ensures Evictable(s.host, s.order[f..j])
    ensures Lodged(s.host, s.nodes - Slice(s.order, f, j)) && Faithful(s.host, s.nodes - Slice(s.order, f, j), image)
    ensures |s.order[f..j]| == j - f && (f < j ==> s.order[f..j][0] == s.order[f])
  {
    hide Sane, Open, Faithful, RecsOf, Slice, RecsInOrder, Host.Framed, InPlace;
    SaneParts(s);
    OpenMembers(s, null);
    Fewer(s.host, s.nodes, s.nodes - Slice(s.order, f, j), image, 0, 0);
    forall i | f <= i < j
      ensures s.order[i] in s.nodes && s.host.Framed(s.order[i]) && InPlace(s.order[i])
    {
      LodgedOne(s.host, s.nodes, s.order[i]);
    }
  }

  lemma LodgedOne(h: Host, nodes: set<VmArea>, v: VmArea)
    requires Lodged(h, nodes) && v in nodes
    ensures h.Framed(v) && InPlace(v)
  {
  }

  /** Which pages lose their translation, by the records. */
  lemma UnmappedPages(t: map<int, int>, u: map<int, int>, m: Recs, list: seq<VmArea>, f: int, j: int, lo: int, hi: int, p: int)
    requires RecsInOrder(m, list) && Bounded(m, list, f, lo) && Bounded(m, list, j, hi) && f <= j && Aligned(lo) && Aligned(hi)
    requires forall i :: 0 <= i < |list| ==> list[i].start == m[list[i]].start && list[i].end == m[list[i]].end
    requires Unmapped(t, u, list[f..j], j - f)
    ensures PageOf(lo) <= p < PageOf(hi) ==> (p in u <==> p in t && !HasPage(Values(m), p))
    ensures !(PageOf(lo) <= p < PageOf(hi)) ==> (p in u <==> p in t) && (p in u ==> u[p] == t[p])
  {
    var r := list[f..j];
    if OneCovers(r, j - f, p) {
      var i :| 0 <= i < j - f && Covers(r[i], p);
      assert r[i] == list[f + i] && m[list[f + i]] in Values(m) && PageIn(m[list[f + i]], p);
    }
    if PageOf(lo) <= p < PageOf(hi) && HasPage(Values(m), p) {
      var q :| q in Values(m) && PageIn(q, p);
      var v: VmArea :| v in m && m[v] == q;
      var i :| 0 <= i < |list| && list[i] == v;
      assert f <= i < j;
      assert r[i - f] == v && Covers(r[i - f], p);
    }
  }

  /** The areas that stay are translated as before. */
  lemma MappedStays(h: Host, t: map<int, int>, m: Recs, keys: set<VmArea>, gone: set<VmArea>, lo: int, hi: int)
    requires RecsOf(keys - gone) == m - gone && m.Keys == keys && Aligned(lo) && Aligned(hi)
    requires forall v :: v in m && v !in gone ==> m[v].end <= lo || hi <= m[v].start
    requires forall p :: !(PageOf(lo) <= p < PageOf(hi)) ==> (p in h.table <==> p in t) && (p in h.table ==> h.table[p] == t[p])
    requires Translates(t, keys - gone, 0, 0)
    ensures keys - gone <= MappedOnes(h, keys - gone)
  {
    forall v | v in keys - gone
      ensures h.Mapped(v)
    {
      RecsHave(keys - gone, v);
      assert v in m && (m - gone)[v] == m[v];
    }
  }

  /** What is known once the areas between the boundaries are gone from list, tree and host. */
  lemma RemovedParts(s: AddressSpace, image: Image, t: map<int, int>, m: Recs, list: seq<VmArea>, keys: set<VmArea>,
                     f: int, j: int, lo: int, hi: int)
    requires RecsInOrder(m, list) && m.Keys == keys && Bounded(m, list, f, lo) && Bounded(m, list, j, hi) && f < j
    requires Aligned(lo) && Aligned(hi) && RecsOf(keys) == m && s.nodes == keys - Slice(list, f, j)
    requires Unmapped(t, s.host.table, list[f..j], j - f)
    ensures RecsOf(s.nodes) == m - Slice(list, f, j)
    ensures forall p :: PageOf(lo) <= p < PageOf(hi) ==> (p in s.host.table <==> p in t && !HasPage(Values(m), p))
    ensures forall p :: !(PageOf(lo) <= p < PageOf(hi)) ==> (p in s.host.table <==> p in t)
    ensures Translates(t, keys, 0, 0) ==> s.nodes <= MappedOnes(s.host, s.nodes)
  {
    hide RecsInOrder, Bounded, Slice, Unmapped, HasPage, MappedOnes, RecsOf;
    RecsWithout(keys, Slice(list, f, j));
    BetweenBounds(m, list, f, j, lo, hi);
    ListShown(keys, m, list);
    forall p
      ensures PageOf(lo) <= p < PageOf(hi) ==> (p in s.host.table <==> p in t && !HasPage(Values(m), p))
      ensures !(PageOf(lo) <= p < PageOf(hi)) ==> (p in s.host.table <==> p in t) && (p in s.host.table ==> s.host.table[p] == t[p])
    {
      UnmappedPages(t, s.host.table, m, list, f, j, lo, hi, p);
    }
    if Translates(t, keys, 0, 0) {
      MappedStays(s.host, t, m, keys, Slice(list, f, j), lo, hi);
    }
  }

  lemma ListShown(keys: set<VmArea>, m: Recs, list: seq<VmArea>)
    requires RecsOf(keys) == m && RecsInOrder(m, list) && m.Keys == keys
    ensures forall i :: 0 <= i < |list| ==> list[i].start == m[list[i]].start && list[i].end == m[list[i]].end
  {
  }

  /** The areas between the two boundaries leave list and tree. */
  method DetachRange(s: AddressSpace, prev: VmArea?, end: nat, ghost f: int, ghost j: int, ghost addr: int) returns (vma: VmArea)
    requires Sane(s) && Bounded(RecsOf(s.nodes), s.order, f, addr) && Bounded(RecsOf(s.nodes), s.order, j, end)
    requires 0 <= f < j <= |s.order| && prev == At(s.order, f - 1)
    modifies s`root, s`first, s`highest, s`nodes, s`order, s`span, s.nodes`prev, s.nodes`next
    modifies s.nodes`rbLeft, s.nodes`rbRight, s.nodes`rbParent, s.nodes`rbBlack, s.nodes`subtreeGap
    ensures vma == old(s.order)[f] && s.order == Cut(old(s.order), f, j) && s.nodes == old(s.nodes) - Slice(old(s.order), f, j)
    ensures Open(s, null) && s.highest == TopOf(old(RecsOf(s.nodes)) - Slice(old(s.order), f, j), s.order)
    ensures Threaded(old(s.order)[f..j], old(s.nodes))
  {
    hide Sane, Open, RecsOf, RecsInOrder, Bounded, Cut, Slice, Threaded, TopOf;
    ghost var m, list := RecsOf(s.nodes), s.order;
    SaneParts(s);
    SaneTop(s);
    StartsShown(s);
    FirstOf(s, f);
    vma := if prev != null then prev.next else s.first;
    ghost var k := DetachVmas(s, vma, prev, end, f);
    StopsThere(s, m, list, f, j, k, end);
    CutTop(m, list, f, j);
  }

  lemma SaneTop(s: AddressSpace)
    requires Sane(s)
    ensures s.highest == TopOf(RecsOf(s.nodes), s.order)
  {
  }

  /** The way from the list predecessor, or the head of the list, to position `f`. */
  lemma FirstOf(s: AddressSpace, f: int)
    requires Sane(s) && 0 <= f < |s.order|
    ensures var prev := At(s.order, f - 1); (if prev != null then prev.next else s.first) == s.order[f] && s.order[f] in s.nodes
    ensures At(s.order, f - 1) == null <==> f == 0
  {
    OpenAt(s, null, f);
    if f > 0 { OpenAt(s, null, f - 1); }
  }

  /** The last part of `syscall_munmap`. */
  method RemoveRange(s: AddressSpace, prev: VmArea?, end: nat, ghost f: int, ghost j: int, ghost addr: int, ghost image: Image)
    requires Sane(s) && Hosted(s, image) && Aligned(addr) && Aligned(end)
    requires Bounded(RecsOf(s.nodes), s.order, f, addr) && Bounded(RecsOf(s.nodes), s.order, j, end)
    requires 0 <= f < j <= |s.order| && prev == At(s.order, f - 1)
    modifies s`root, s`first, s`highest, s`nodes, s`order, s`span, s.nodes`prev, s.nodes`next
    modifies s.nodes`rbLeft, s.nodes`rbRight, s.nodes`rbParent, s.nodes`rbBlack, s.nodes`subtreeGap
    modifies s.host`next, s.host`table
    ensures Sane(s) && Hosted(s, image) && s.nodes <= old(s.nodes)
    ensures RecsOf(s.nodes) == old(RecsOf(s.nodes)) - Slice(old(s.order), f, j)
    ensures forall p :: PageOf(addr) <= p < PageOf(end) ==>
                          (p in s.host.table <==> p in old(s.host.table) && !HasPage(Values(old(RecsOf(s.nodes))), p))
    ensures forall p :: !(PageOf(addr) <= p < PageOf(end)) ==> (p in s.host.table <==> p in old(s.host.table))
    ensures old(s.nodes <= MappedOnes(s.host, s.nodes)) ==> s.nodes <= MappedOnes(s.host, s.nodes)
  {
    hide Sane, Open, Hosted, RecsOf, RecsInOrder, Bounded, Cut, Slice, Threaded, TopOf, HasPage, MappedOnes, Evictable, Roomed, Faithful;
    hide Unmapped, Translates;
    ghost var m, list, keys, t := RecsOf(s.nodes), s.order, s.nodes, s.host.table;
    SaneParts(s);
    HostedSplit(s, image, f, j);
    AllMapped(s.host, keys);
    var vma := DetachRange(s, prev, end, f, j, addr);
    LodgedRoomed(s.host, s.nodes);
    VmaListRemove(s.host, vma, list[f..j], keys, s.nodes, image);
    RemovedParts(s, image, t, m, list, keys, f, j, addr, end);
    SaneAgain(s, image);
  }

  lemma LodgedRoomed(h: Host, nodes: set<VmArea>)
    requires Lodged(h, nodes)
    ensures Roomed(h, nodes) && forall v :: v in nodes ==> InPlace(v)
  {
  }

  lemma SaneAgain(s: AddressSpace, image: Image)
    requires Open(s, null) && s.highest == TopOf(RecsOf(s.nodes), s.order)
    requires Roomed(s.host, s.nodes) && Faithful(s.host, s.nodes, image) && forall v :: v in s.nodes ==> InPlace(v)
    ensures Sane(s) && Hosted(s, image)
  {
  }

  // ---------------------------------------------------------------- syscall_munmap

  const EINVAL := 22
  const ENOMEM := 12

  /** `PAGE_ALIGN` on a 64-bit word. */
  function AlignUp(a: nat): nat {
    (a + (PAGE_SIZE - 1)) / PAGE_SIZE * PAGE_SIZE % WORD
  }

  lemma AlignUpBelow(a: nat, limit: nat)
    requires 0 < a <= limit && Aligned(limit) && limit <= WORD && a < WORD
    ensures limit < WORD ==> a <= AlignUp(a) <= limit && Aligned(AlignUp(a)) && AlignUp(a) > 0
  {
  }

  /** The arguments that `syscall_munmap` accepts. */
  predicate ValidRange(addr: nat, length: nat, kernelMin: nat) {
    Aligned(addr) && addr <= kernelMin && length <= kernelMin - addr && length != 0
  }

  /** Between the two boundaries lies all that is taken away. */
  lemma RemovedValues2(n: Recs, list: seq<VmArea>, f: int, j: int, lo: int, hi: int)
    requires RecsInOrder(n, list) && Bounded(n, list, f, lo) && Bounded(n, list, j, hi) && f <= j && lo < hi
    ensures Values(n - Slice(list, f, j)) == Beyond(Values(n), lo, hi)
  {
    BetweenBounds(n, list, f, j, lo, hi);
    OutsideValues(n, Slice(list, f, j), lo, hi);
  }

  lemma NothingThere(m: Recs, list: seq<VmArea>, i: int, lo: int, hi: int)
    requires RecsInOrder(m, list) && 0 <= i <= |list| && lo < hi
    requires forall k :: 0 <= k < i ==> m[list[k]].end <= lo
    requires i < |list| ==> hi <= m[list[i]].start
    ensures Trim(Values(m), lo, hi) == Values(m) && forall v :: v in m ==> m[v].end <= lo || hi <= m[v].start
    ensures forall p :: PageOf(lo) <= p < PageOf(hi) && Aligned(lo) && Aligned(hi) ==> !HasPage(Values(m), p)
  {
    forall v | v in m
      ensures (m[v].end <= lo || hi <= m[v].start) && m[v].start < m[v].end
    {
      var k :| 0 <= k < |list| && list[k] == v;
    }
    TrimNothing(Values(m), lo, hi);
  }

  /** What `syscall_munmap` guarantees of the range `[lo, hi)`. */
  ghost predicate Unmaps(m: Recs, n: Recs, t: set<int>, u: set<int>, lo: int, hi: int) {
    && Values(n) == Trim(Values(m), lo, hi)
    && (forall p :: PageOf(lo) <= p < PageOf(hi) ==> (p in u <==> p in t && !HasPage(Values(m), p)))
    && forall p :: !HasPage(Values(m), p) ==> (p in u <==> p in t)
  }

  /** Both cuts have been made. */
  ghost predicate PassedBoth(m: Recs, n: Recs, lo: int, hi: int, t: set<int>, u: set<int>) {
    && Values(n) == Parted(Parted(Values(m), lo), hi)
    && (forall p :: HasPage(Values(n), p) <==> HasPage(Values(m), p))
    && forall p :: !HasPage(Values(m), p) ==> (p in t <==> p in u)
  }

  lemma PassedOn(m: Recs, n0: Recs, n: Recs, lo: int, hi: int, t: set<int>, w0: set<int>, w: set<int>)
    requires Passed(m, n0, lo, t, w0) && Passed(n0, n, hi, w0, w) && Aligned(lo) && Aligned(hi)
    ensures PassedBoth(m, n, lo, hi, t, w)
  {
    hide Values, Parted, HasPage;
    forall p
      ensures (HasPage(Values(n), p) <==> HasPage(Values(m), p)) && (HasPage(Values(n0), p) <==> HasPage(Values(m), p))
    {
      PartedPages(Values(m), lo, p);
      PartedPages(Values(n0), hi, p);
    }
  }

  lemma UnmapsNow(m: Recs, n: Recs, t: set<int>, w: set<int>, u: set<int>, list: seq<VmArea>, f: int, j: int, lo: int, hi: int)
    requires PassedBoth(m, n, lo, hi, t, w) && RecsInOrder(n, list)
    requires Bounded(n, list, f, lo) && Bounded(n, list, j, hi) && f <= j && lo < hi
    requires forall p :: PageOf(lo) <= p < PageOf(hi) ==> (p in u <==> p in w && !HasPage(Values(n), p))
    requires forall p :: !(PageOf(lo) <= p < PageOf(hi)) ==> (p in u <==> p in w)
    ensures Unmaps(m, n - Slice(list, f, j), t, u, lo, hi)
  {
    hide Values, Parted, Beyond, HasPage, RecsInOrder, Bounded, Slice;
    BoundedIndex(n, list, f, j, lo, hi);
    RemovedValues2(n, list, f, j, lo, hi);
  }

  /** The two cuts of `syscall_munmap`. */
  method CutBoth(s: AddressSpace, vma: VmArea, addr: nat, end: nat, ghost i: int, ghost image: Image)
    returns (prev: VmArea?, ghost f: int, ghost j: int)
    requires Sane(s) && Foretold(s, image, {addr, end}) && FoundAt(s, vma, addr, i) && vma.start < end && addr < end && Aligned(addr) && Aligned(end)
    requires CleanCut(s.host, RecsOf(s.nodes), image, addr) && CleanCut(s.host, RecsOf(s.nodes), image, end)
    modifies s.nodes`start, s.nodes`end, s.nodes`pageOffset
    modifies s`root, s`first, s`highest, s`nodes, s`order, s`span, s.nodes`prev, s.nodes`next
    modifies s.nodes`rbLeft, s.nodes`rbRight, s.nodes`rbParent, s.nodes`rbBlack, s.nodes`subtreeGap
    modifies s.host`next, s.host`table, s.host`ram, s.host`holes
    modifies s.nodes`physStart, s.nodes`physEnd, s.nodes`oldStart, s.nodes`oldEnd, s.nodes`flags
    ensures Sane(s) && Hosted(s, image) && fresh(s.nodes - old(s.nodes))
    ensures Bounded(RecsOf(s.nodes), s.order, f, addr) && Bounded(RecsOf(s.nodes), s.order, j, end)
    ensures 0 <= f < j <= |s.order| && prev == At(s.order, f - 1)
    ensures old(s.nodes <= MappedOnes(s.host, s.nodes)) ==> s.nodes <= MappedOnes(s.host, s.nodes)
    ensures PassedBoth(old(RecsOf(s.nodes)), RecsOf(s.nodes), addr, end, old(s.host.table.Keys), s.host.table.Keys)
  {
    hide Sane, Hosted, Foretold, RecsOf, RecsInOrder, Bounded, HasPage, MappedOnes, Passed, PassedBoth, FoundAt, CleanCut, Slice, Values;
    ghost var m, t := RecsOf(s.nodes), s.host.table.Keys;
    FoundParts(s, vma, addr, i);
    prev, f := CutLow(s, vma, addr, end, i, image);
    ghost var n, w := RecsOf(s.nodes), s.host.table.Keys;
    j := CutHigh(s, end, prev, addr, f, image);
    PassedOn(m, n, RecsOf(s.nodes), addr, end, t, w, s.host.table.Keys);
    BoundedIndex(RecsOf(s.nodes), s.order, f, j, addr, end);
  }

  /** The main path of `syscall_munmap`: `vma` is the first area that ends behind `addr`, and it starts below `end`. */
  method UnmapFrom(s: AddressSpace, vma: VmArea, addr: nat, end: nat, ghost i: int, ghost image: Image)
    requires Sane(s) && Foretold(s, image, {addr, end}) && FoundAt(s, vma, addr, i) && vma.start < end && addr < end && Aligned(addr) && Aligned(end)
    requires CleanCut(s.host, RecsOf(s.nodes), image, addr) && CleanCut(s.host, RecsOf(s.nodes), image, end)
    modifies s.nodes`start, s.nodes`end, s.nodes`pageOffset
    modifies s`root, s`first, s`highest, s`nodes, s`order, s`span, s.nodes`prev, s.nodes`next
    modifies s.nodes`rbLeft, s.nodes`rbRight, s.nodes`rbParent, s.nodes`rbBlack, s.nodes`subtreeGap
    modifies s.host`next, s.host`table, s.host`ram, s.host`holes
    modifies s.nodes`physStart, s.nodes`physEnd, s.nodes`oldStart, s.nodes`oldEnd, s.nodes`flags
    ensures Sane(s) && Hosted(s, image) && fresh(s.nodes - old(s.nodes))
    ensures Unmaps(old(RecsOf(s.nodes)), RecsOf(s.nodes), old(s.host.table.Keys), s.host.table.Keys, addr, end)
    ensures old(s.nodes <= MappedOnes(s.host, s.nodes)) ==> s.nodes <= MappedOnes(s.host, s.nodes)
  {
    hide Sane, Hosted, Foretold, RecsOf, RecsInOrder, Bounded, HasPage, MappedOnes, PassedBoth, Unmaps, FoundAt, CleanCut, Slice, Values;
    ghost var m, t := RecsOf(s.nodes), s.host.table.Keys;
    var prev;
    ghost var f, j;
    prev, f, j := CutBoth(s, vma, addr, end, i, image);
    ghost var n, w, list := RecsOf(s.nodes), s.host.table.Keys, s.order;
    SaneParts(s);
    RemoveRange(s, prev, end, f, j, addr, image);
    UnmapsNow(m, n, t, w, s.host.table.Keys, list, f, j, addr, end);
  }

  lemma BoundedIndex(m: Recs, list: seq<VmArea>, f: int, j: int, lo: int, hi: int)
    requires Bounded(m, list, f, lo) && Bounded(m, list, j, hi)
    ensures 0 <= f <= |list| && 0 <= j <= |list|
  {
  }

  lemma RangeChecked(addr: nat, length: nat, kernelMin: nat)
    requires Aligned(kernelMin) && kernelMin < WORD
    ensures ValidRange(addr, length, kernelMin) <==>
            !(addr % PAGE_SIZE != 0 || addr > kernelMin || length > kernelMin - addr || length == 0)
    ensures ValidRange(addr, length, kernelMin) ==>
              Aligned(addr) && Aligned(addr + AlignUp(length)) && AlignUp(length) > 0
  {
    if ValidRange(addr, length, kernelMin) {
      AlignUpBelow(length, kernelMin);
    }
  }

  /** Where there is nothing to unmap there is nothing to cut either. */
  lemma NothingUnmaps(s: AddressSpace, vma: VmArea?, addr: nat, end: nat, i: int, image: Image)
    requires Sane(s) && Aligned(addr) && Aligned(end) && addr < end && Foretold(s, image, {addr, end})
    requires vma == null ==> Bounded(RecsOf(s.nodes), s.order, |s.order|, addr)
    requires vma != null ==> FoundAt(s, vma, addr, i) && vma.start >= end
    ensures Unmaps(RecsOf(s.nodes), RecsOf(s.nodes), s.host.table.Keys, s.host.table.Keys, addr, end)
    ensures Hosted(s, image)
  {
    hide Sane, Open, Foretold, Hosted, Values, HasPage, Trim;
    SaneParts(s);
    StartsShown(s);
    NothingThere(RecsOf(s.nodes), s.order, if vma == null then |s.order| else i, addr, end);
    Uncut(s, image, RecsOf(s.nodes), addr, end);
  }

  lemma Uncut(s: AddressSpace, image: Image, m: Recs, addr: int, end: int)
    requires Foretold(s, image, {addr, end}) && m == RecsOf(s.nodes) && addr < end
    requires forall v :: v in m ==> m[v].end <= addr || end <= m[v].start
    ensures Hosted(s, image)
  {
    hide Foretold, Hosted;
    assert {end} + {addr} == {addr, end} && {} + {end} == {end};
    NoCut(s, image, m, addr, {end});
    NoCut(s, image, m, end, {});
    ForetoldAll(s, image);
  }

  /**
   `syscall_munmap`. Bad arguments are refused. Otherwise exactly the pages from `addr` to `addr + length`,
   rounded up, lose their mapping, every other address stays mapped as it was, and every page that
   `image` tells of and that still belongs to an area shows what is told of it.
   */
  method SyscallMunmap(s: AddressSpace, addr: nat, length: nat, kernelMin: nat, ghost image: Image) returns (r: int)
    requires Sane(s) && Aligned(kernelMin) && kernelMin < WORD && length < WORD
    requires Foretold(s, image, {addr, addr + AlignUp(length)})
    requires CleanCut(s.host, RecsOf(s.nodes), image, addr)
    requires CleanCut(s.host, RecsOf(s.nodes), image, addr + AlignUp(length))
    modifies s.nodes`start, s.nodes`end, s.nodes`pageOffset
    modifies s`root, s`first, s`highest, s`nodes, s`order, s`span, s.nodes`prev, s.nodes`next
    modifies s.nodes`rbLeft, s.nodes`rbRight, s.nodes`rbParent, s.nodes`rbBlack, s.nodes`subtreeGap
    modifies s.host`next, s.host`table, s.host`ram, s.host`holes
    modifies s.nodes`physStart, s.nodes`physEnd, s.nodes`oldStart, s.nodes`oldEnd, s.nodes`flags
    ensures r == if ValidRange(addr, length, kernelMin) then 0 else -EINVAL
    ensures r == if addr % 4096 == 0 && 0 < length && addr + length <= kernelMin then 0 else -22
    ensures r != 0 ==> unchanged(s) && unchanged(old(s.nodes)) && unchanged(s.host)
    ensures Sane(s) && (r == 0 ==> Hosted(s, image)) && fresh(s.nodes - old(s.nodes))
    ensures r == 0 ==> Unmaps(old(RecsOf(s.nodes)), RecsOf(s.nodes), old(s.host.table.Keys), s.host.table.Keys, addr, addr + AlignUp(length))
    ensures old(s.nodes <= MappedOnes(s.host, s.nodes)) ==> s.nodes <= MappedOnes(s.host, s.nodes)
  {
    hide Sane, Open, Hosted, Foretold, RecsOf, RecsInOrder, Bounded, MappedOnes, Unmaps, FoundAt, CleanCut, FirstBehind, AlignUp;
    hide Aligned, ValidRange;
    RangeChecked(addr, length, kernelMin);
    if addr % PAGE_SIZE != 0 || addr > kernelMin || length > kernelMin - addr || length == 0 {
      return -EINVAL;
    }
    var size := AlignUp(length);
    var vma;
    ghost var i;
    vma, i := Find(s, addr);
    var end := addr + size;
    if vma == null || vma.start >= end {
      NothingUnmaps(s, vma, addr, end, i, image);
      return 0;
    }
    UnmapFrom(s, vma, addr, end, i, image);
    return 0;
  }

  // ---------------------------------------------------------------- what the guest sees of it

  lemma CutFileEnds(r: Rec, lo: int, hi: int)
    requires r.file.fd != -1 && (Straddles(r, lo) || Straddles(r, hi))
    ensures CutFile(r, {lo, hi})
  {
    if Straddles(r, lo) { assert lo in {lo, hi}; } else { assert hi in {lo, hi}; }
  }

  /** What is told and survives is foretold. */
  lemma TrimmedForetold(s: AddressSpace, m: Recs, image: Image, lo: int, hi: int)
    requires Hosted(s, image) && m == RecsOf(s.nodes) && Proper(Values(m))
    ensures var told := Trimmed(s.host, Values(m), image, lo, hi);
      Foretold(s, told, {lo, hi}) && CleanCut(s.host, m, told, lo) && CleanCut(s.host, m, told, hi)
  {
    hide CutFile, Proper, Lodged, RecOf, PageIn, Keeps, Trimmed;
    var told := Trimmed(s.host, Values(m), image, lo, hi);
    forall v, p | v in s.nodes && p in told && Keeps(v, p) && !CutFile(RecOf(v), {lo, hi})
      ensures s.host.Shows(v, p) == told[p]
    {
      KeptPage(s, v, p);
      InPlaceHere(s, v);
      TrimmedAt(s.host, Values(m), image, lo, hi, p);
      forall r | ReRead(Values(m), r, p, lo, hi)
        ensures r == RecOf(v)
      {
        OnePage(Values(m), r, RecOf(v), p);
      }
      assert Due(s.host, v, p) == image[p];
    }
    forall v, p | v in m && m[v].file.fd != -1 && p in told && PageIn(m[v], p) && (Straddles(m[v], lo) || Straddles(m[v], hi))
      ensures told[p] == s.host.FilePage(m[v].file, m[v].offset, PageOf(m[v].start), p)
    {
      assert m[v] in Values(m);
      CutFileEnds(m[v], lo, hi);
      TrimmedAt(s.host, Values(m), image, lo, hi, p);
      assert ReRead(Values(m), m[v], p, lo, hi);
    }
  }

  /** `syscall_munmap`, and what is told of the areas afterwards. */
  method MunmapTold(s: AddressSpace, addr: nat, length: nat, kernelMin: nat, ghost image: Image) returns (r: int)
    requires Sane(s) && Hosted(s, image) && Aligned(kernelMin) && kernelMin < WORD && length < WORD
    modifies s.nodes`start, s.nodes`end, s.nodes`pageOffset
    modifies s`root, s`first, s`highest, s`nodes, s`order, s`span, s.nodes`prev, s.nodes`next
    modifies s.nodes`rbLeft, s.nodes`rbRight, s.nodes`rbParent, s.nodes`rbBlack, s.nodes`subtreeGap
    modifies s.host`next, s.host`table, s.host`ram, s.host`holes
    modifies s.nodes`physStart, s.nodes`physEnd, s.nodes`oldStart, s.nodes`oldEnd, s.nodes`flags
    ensures r == if ValidRange(addr, length, kernelMin) then 0 else -EINVAL
    ensures r == if addr % 4096 == 0 && 0 < length && addr + length <= kernelMin then 0 else -22
    ensures r != 0 ==> unchanged(s) && unchanged(old(s.nodes)) && unchanged(s.host)
    ensures Sane(s) && fresh(s.nodes - old(s.nodes))
    ensures Hosted(s, if r == 0 then Trimmed(s.host, old(Values(RecsOf(s.nodes))), image, addr, addr + AlignUp(length)) else image)
    ensures r == 0 ==> Unmaps(old(RecsOf(s.nodes)), RecsOf(s.nodes), old(s.host.table.Keys), s.host.table.Keys, addr, addr + AlignUp(length))
    ensures old(s.nodes <= MappedOnes(s.host, s.nodes)) ==> s.nodes <= MappedOnes(s.host, s.nodes)
  {
    hide Sane, Hosted, Foretold, RecsOf, Values, Proper, MappedOnes, Unmaps, CleanCut, AlignUp, ValidRange, Trimmed;
    ghost var m := RecsOf(s.nodes);
    SaneProper(s);
    TrimmedForetold(s, m, image, addr, addr + AlignUp(length));
    r := SyscallMunmap(s, addr, length, kernelMin, Trimmed(s.host, Values(m), image, addr, addr + AlignUp(length)));
  }

  /** What the guest reads. */
  ghost function Guest(h: Host): (image: Image)
    reads h
    ensures forall p :: p in image <==> p in h.table
    ensures forall p :: p in image ==> image[p] == h.Read(p)
  {
    map p | p in h.table :: h.Read(p)
  }

  /** Where every page of every area is translated, the areas hold what the guest reads. */
  lemma GuestHosted(s: AddressSpace)
    requires s.nodes <= MappedOnes(s.host, s.nodes) && Lodged(s.host, s.nodes)
    ensures Hosted(s, Guest(s.host))
  {
    hide Lodged, Keeps;
    forall v, p | v in s.nodes && p in Guest(s.host) && Keeps(v, p)
      ensures Due(s.host, v, p) == Guest(s.host)[p]
    {
      KeptPage(s, v, p);
      InPlaceHere(s, v);
      assert s.host.Mapped(v);
    }
  }

  /** Page `p` belongs to a file mapping that an end of the range cuts, and differs from the file. */
  ghost predicate Dirty(h: Host, s: Regions, p: int, lo: int, hi: int)
    reads h
  {
    p in h.table && exists r :: ReRead(s, r, p, lo, hi) && h.Read(p) != FileAt(h, r, p)
  }

  /** A survivor reads the same exactly if it is not dirty. */
  lemma TrimmedSame(h: Host, s: Regions, p: int, lo: int, hi: int)
    requires Proper(s) && p in Trimmed(h, s, Guest(h), lo, hi)
    ensures Trimmed(h, s, Guest(h), lo, hi)[p] == h.Read(p) <==> !Dirty(h, s, p, lo, hi)
  {
    hide CutFile, Proper, FileAt, Host.Read;
    TrimmedAt(h, s, Guest(h), lo, hi, p);
  }

  /** A page outside the range still belongs to an area, and reads as told. */
  lemma SurvivorReads(s: AddressSpace, image: Image, old_: Regions, lo: int, hi: int, p: int)
    requires Hosted(s, image) && s.nodes <= MappedOnes(s.host, s.nodes) && Values(RecsOf(s.nodes)) == Trim(old_, lo, hi)
    requires Aligned(lo) && Aligned(hi) && lo < hi && !(PageOf(lo) <= p < PageOf(hi)) && HasPage(old_, p) && p in image
    requires Proper(old_)
    ensures p in s.host.table && s.host.Read(p) == image[p]
  {
    hide Trim, Proper, Lodged, Keeps, PageIn, Covers;
    TrimPages(old_, lo, hi, p);
    var r :| r in Values(RecsOf(s.nodes)) && PageIn(r, p);
    var w: VmArea :| w in RecsOf(s.nodes) && RecsOf(s.nodes)[w] == r;
    RecsHave(s.nodes, w);
    KeptPage(s, w, p);
    InPlaceHere(s, w);
    assert s.host.Mapped(w) && Due(s.host, w, p) == image[p];
  }

  lemma SaneRanges(s: AddressSpace)
    requires Sane(s)
    ensures forall v :: v in s.nodes ==> Aligned(v.start) && Aligned(v.end) && v.start < v.end
  {
    hide Sane;
    SaneParts(s);
    forall v | v in s.nodes
      ensures Aligned(v.start) && Aligned(v.end) && v.start < v.end
    {
      var i :| 0 <= i < |s.order| && s.order[i] == v;
      RangeAt(s, i);
    }
  }

  lemma SaneProper(s: AddressSpace)
    requires Sane(s)
    ensures Proper(Values(RecsOf(s.nodes)))
  {
    hide Sane;
    SaneRanges(s);
    SaneParts(s);
    OrderProper(RecsOf(s.nodes), s.order, s.nodes);
  }

  lemma OrderProper(m: Recs, list: seq<VmArea>, nodes: set<VmArea>)
    requires RecsInOrder(m, list) && m == RecsOf(nodes)
    requires forall v :: v in nodes ==> Aligned(v.start) && Aligned(v.end) && v.start < v.end
    ensures Proper(Values(m))
  {
    forall r | r in Values(m)
      ensures ProperRec(r)
    {
      var v: VmArea :| v in m && m[v] == r;
      RecsHave(nodes, v);
    }
    forall r, q | r in Values(m) && q in Values(m) && r != q
      ensures ApartRecs(r, q)
    {
      var v: VmArea :| v in m && m[v] == r;
      var w: VmArea :| w in m && m[w] == q;
      var i :| 0 <= i < |list| && list[i] == v;
      var j :| 0 <= j < |list| && list[j] == w;
    }
  }

  /**
   `syscall_munmap` as the guest sees it: the pages of the range fault, and every other page of an area reads
   what it did, exactly but for those pages of a file mapping cut in two that differed from the file; these
   read what the file holds.
   */
  method MunmapSeen(s: AddressSpace, addr: nat, length: nat, kernelMin: nat) returns (r: int)
    requires Sane(s) && Lodged(s.host, s.nodes) && s.nodes <= MappedOnes(s.host, s.nodes)
    requires Aligned(kernelMin) && kernelMin < WORD && length < WORD
    modifies s.nodes`start, s.nodes`end, s.nodes`pageOffset
    modifies s`root, s`first, s`highest, s`nodes, s`order, s`span, s.nodes`prev, s.nodes`next
    modifies s.nodes`rbLeft, s.nodes`rbRight, s.nodes`rbParent, s.nodes`rbBlack, s.nodes`subtreeGap
    modifies s.host`next, s.host`table, s.host`ram, s.host`holes
    modifies s.nodes`physStart, s.nodes`physEnd, s.nodes`oldStart, s.nodes`oldEnd, s.nodes`flags
    ensures Sane(s) && Lodged(s.host, s.nodes) && s.nodes <= MappedOnes(s.host, s.nodes)
    ensures r == if ValidRange(addr, length, kernelMin) then 0 else -EINVAL
    ensures r == if addr % 4096 == 0 && 0 < length && addr + length <= kernelMin then 0 else -22
    ensures r == 0 ==> forall p :: PageOf(addr) <= p < PageOf(addr + AlignUp(length)) && HasPage(old(Values(RecsOf(s.nodes))), p) ==>
                                     p !in s.host.table
    ensures r == 0 ==> forall p :: !(PageOf(addr) <= p < PageOf(addr + AlignUp(length))) && p in old(s.host.table)
                                   && HasPage(old(Values(RecsOf(s.nodes))), p) ==>
                         && p in s.host.table
                         && s.host.Read(p) == old(Trimmed(s.host, Values(RecsOf(s.nodes)), Guest(s.host), addr, addr + AlignUp(length)))[p]
                         && (s.host.Read(p) == old(s.host.Read(p)) <==>
                               !old(Dirty(s.host, Values(RecsOf(s.nodes)), p, addr, addr + AlignUp(length))))
  {
    hide Sane, RecsOf, Values, HasPage, Dirty, MappedOnes, Trim, Lodged, Faithful, AlignUp, ValidRange, Host.Read;
    hide Proper, Trimmed, Guest;
    ghost var m, end, guest := RecsOf(s.nodes), addr + AlignUp(length), Guest(s.host);
    ghost var image := Trimmed(s.host, Values(m), guest, addr, end);
    SaneProper(s);
    GuestHosted(s);
    forall p | p in image
      ensures image[p] == s.host.Read(p) <==> !Dirty(s.host, Values(m), p, addr, end)
    {
      TrimmedSame(s.host, Values(m), p, addr, end);
    }
    RangeChecked(addr, length, kernelMin);
    r := MunmapTold(s, addr, length, kernelMin, guest);
    if r == 0 {
      forall p | !(PageOf(addr) <= p < PageOf(end)) && p in guest && HasPage(Values(m), p)
        ensures p in s.host.table && s.host.Read(p) == image[p]
      {
        SurvivorReads(s, image, Values(m), addr, end, p);
      }
    }
  }

  /**
   A page of a private file mapping that the guest has written to, and a cut elsewhere in the mapping. A write to a
   shared mapping would have reached the file, whose contents are constant here.
   */
  lemma DirtyExists(h: Host, page: Page)
    requires h.table == map[1 := 7, 2 := 8] && h.ram == map[7 := page] && page != h.files(VmFile(3, 1, 1), 0)
    ensures var r := Rec(0x1000, 0x3000, 3, 0x60, VmFile(3, 1, 1), 0);
      Proper({r}) && Dirty(h, {r}, 1, 0x2000, 0x3000) && HasPage({r}, 1) && !(PageOf(0x2000) <= 1 < PageOf(0x3000))
  {
    var r := Rec(0x1000, 0x3000, 3, 0x60, VmFile(3, 1, 1), 0);
    CutFileEnds(r, 0x2000, 0x3000);
    assert ReRead({r}, r, 1, 0x2000, 0x3000);
  }
}
