/**
 Whole runs of the mapping calls of kernel/c/mmap.c, with the guest writing to its memory in between: the areas are at
 every moment the set of records that a plain model computes, list, tree, cached gaps and host bookkeeping stay in
 agreement, and the guest reads what the model's plain memory holds.
 */
module Runs {
  import opened Basics
  import opened VmAreas
  import opened RbBalance
  import opened RbTree
  import opened HostMemory
  import opened AreaHosting
  import opened Regions
  import opened AreaViews
  import opened Vma
  import opened VmaSteps
  import opened Linking
  import opened Adjusting
  import opened Munmapping
  import opened Contents
  import opened GapSearch
  import opened Mmap

  // ---------------------------------------------------------------- the invariant

  lemma SaneListed(s: AddressSpace)
    requires Sane(s)
    ensures Listed(s.order, s.first)
  {
    hide Sane, Open, At;
    SaneParts(s);
    SpansNodes(s, null);
    forall i | 0 <= i < |s.order|
      ensures s.order[i].prev == At(s.order, i - 1) && s.order[i].next == At(s.order, i + 1)
    {
      OpenAt(s, null, i);
    }
  }

  lemma SaneList(s: AddressSpace)
    requires Sane(s)
    ensures Listed(s.order, s.first) && Ascending(s.order) && PageAligned(s.order) && s.highest == EndOf(s.order)
  {
    hide Sane, Open, EndOf, Listed, Ascending, PageAligned, ChainOf, FitsBetween, FitsAt;
    SaneParts(s);
    SaneIsEnd(s);
    SaneListed(s);
    FitsShown(s, null, 0, 0, 0);
  }

  lemma SaneIsEnd(s: AddressSpace)
    requires Sane(s)
    ensures s.highest == EndOf(s.order)
  {
    SaneParts(s);
    SaneEnd(s);
  }

  lemma SaneTree(s: AddressSpace)
    requires Sane(s)
    ensures s.Sound() && s.nodes == s.span.Keys && RootBlack(s.Tree(), s.Colours())
  {
    OpenParts(s, null);
    StaleNowhere(s.Now());
  }

  lemma ValidTree(s: AddressSpace)
    requires Valid(s)
    ensures s.PrevsKnown() && StaleAt(s.Now(), null) && Members(s.order, s.nodes) && s.nodes == s.span.Keys
  {
    StaleNowhere(s.Now());
    forall i | 0 <= i < |s.order|
      ensures s.order[i] in s.nodes
    {
    }
    forall n | n in s.nodes
      ensures n in s.order
    {
      assert s.Tree().AtOk(n);
    }
  }

  lemma ValidChain(s: AddressSpace)
    requires Valid(s) && Members(s.order, s.nodes) && s.PrevsKnown()
    ensures Known(ChainOf(s.nodes)) && Chained(ChainOf(s.nodes), s.order) && Sorted(ChainOf(s.nodes), s.order)
    ensures s.Own() == Holes(ChainOf(s.nodes)) && s.first == At(s.order, 0)
  {
    OwnIsHoles(s);
    var c := ChainOf(s.nodes);
    forall i | 0 <= i < |s.order|
      ensures s.order[i] in c.prevs && s.order[i] in c.nexts && s.order[i] in c.starts && s.order[i] in c.ends
      ensures c.prevs[s.order[i]] == At(s.order, i - 1) && c.nexts[s.order[i]] == At(s.order, i + 1)
      ensures c.starts[s.order[i]] == s.order[i].start && c.ends[s.order[i]] == s.order[i].end
    {
      assert s.order[i] in s.nodes && s.order[i].prev == At(s.order, i - 1) && s.order[i].next == At(s.order, i + 1);
    }
  }

  /** The two forms of the invariant say the same. */
  lemma ValidIsSane(s: AddressSpace)
    ensures Valid(s) <==> Sane(s)
  {
    if Sane(s) {
      SaneList(s);
      SaneTree(s);
    }
    if Valid(s) {
      ValidSane(s);
    }
  }

  lemma ValidSane(s: AddressSpace)
    requires Valid(s)
    ensures Sane(s)
  {
    hide Sane, Known, Chained, Sorted, ChainOf, Holes, Members, StaleAt;
    ValidTree(s);
    ValidChain(s);
    SnapshotKeys(s.nodes);
    ValidOpen(s);
    SaneEnd(s);
  }

  lemma ValidOpen(s: AddressSpace)
    requires s.PrevsKnown() && StaleAt(s.Now(), null) && s.nodes == s.span.Keys && RootBlack(s.Tree(), s.Colours())
    requires Known(ChainOf(s.nodes)) && Chained(ChainOf(s.nodes), s.order) && Sorted(ChainOf(s.nodes), s.order)
    requires s.Own() == Holes(ChainOf(s.nodes)) && s.first == At(s.order, 0)
    ensures Open(s, null)
  {
    hide Known, Chained, Sorted, Holes, StaleAt, RootBlack;
  }

  // ---------------------------------------------------------------- the plain model

  /** The calls, and the guest's own writes, page by page. */
  datatype Op =
    | Munmap(addr: nat, length: nat)
    | MapRegion(file: VmFile, addr: nat, length: nat, flags: bv64, prot: bv64, offset: int)
    | Brk(addr: nat, request: nat, flags: bv64)
    | Store(addr: nat, data: Page)

  /** What the callers see to. */
  predicate Legal(op: Op) {
    match op
    case Munmap(_, length) => length < WORD
    case MapRegion(_, addr, length, _, _, _) => Aligned(addr) && 0 < length && Aligned(length) && addr + length < WORD
    case Brk(addr, request, _) => request < WORD && addr + AlignUp(request) < WORD
    case Store(_, _) => true
  }

  /** The end of the range that a call is about. */
  function Limit(op: Op): int {
    match op
    case Munmap(addr, length) => addr + AlignUp(length)
    case MapRegion(_, addr, length, _, _, _) => addr + length
    case Brk(addr, request, _) => addr + AlignUp(request)
    case Store(addr, _) => addr + PAGE_SIZE
  }

  /** The record that a call maps, if it is one to map something. */
  ghost function NewOf(op: Op): (x: Rec)
    requires op.MapRegion? || op.Brk?
  {
    match op
    case MapRegion(file, addr, length, flags, prot, offset) => NewRec(addr, addr + length, flags, prot, file, offset)
    case Brk(addr, request, flags) => BrkRec(addr, AlignUp(request), flags)
  }

  /** Whether the call unmaps a range. */
  ghost predicate Clears(op: Op, kernelMin: nat) {
    op.Munmap? && ValidRange(op.addr, op.length, kernelMin)
  }

  /** Whether the call maps a range anew. */
  ghost predicate Maps(s: Regions, op: Op, kernelMin: nat) {
    && (op.MapRegion? || (op.Brk? && PlanBrk(op.addr, op.request).MapIt?))
    && (InUse(s, op.addr, Limit(op)) ==> Limit(op) <= kernelMin)
  }

  /** The effect of a call on the areas. */
  ghost function Step(s: Regions, op: Op, kernelMin: nat): Regions {
    if Clears(op, kernelMin) then Trim(s, op.addr, Limit(op))
    else if Maps(s, op, kernelMin) then Remap(s, NewOf(op))
    else s
  }

  /** The answer of a call. */
  ghost function Answer(s: Regions, op: Op, kernelMin: nat): int {
    match op
    case Munmap(_, _) => if Clears(op, kernelMin) then 0 else -EINVAL
    case MapRegion(_, addr, _, _, _, _) => if Maps(s, op, kernelMin) then addr else WORD - ENOMEM
    case Brk(addr, request, _) =>
      if PlanBrk(addr, request) == Nothing || Maps(s, op, kernelMin) then 0
      else if PlanBrk(addr, request) == Misplaced then addr
      else WORD - ENOMEM
    case Store(_, _) => 0
  }

  /** The call makes one area of two. */
  ghost predicate Bridging(s: Regions, op: Op, kernelMin: nat) {
    Maps(s, op, kernelMin) && Bridges(s, NewOf(op))
  }

  ghost function Replay(s: Regions, ops: seq<Op>, kernelMin: nat): Regions {
    if ops == [] then s else Step(Replay(s, ops[..|ops| - 1], kernelMin), ops[|ops| - 1], kernelMin)
  }

  /** The effect of a call, or of a write, on what the guest's pages hold. A write where nothing is mapped faults. */
  ghost function StepContents(h: Host, s: Regions, c: Image, op: Op, kernelMin: nat): Image {
    if Clears(op, kernelMin) then Trimmed(h, s, c, op.addr, Limit(op))
    else if Maps(s, op, kernelMin) then Remapped(h, s, c, NewOf(op))
    else if op.Store? && HasPage(s, PageOf(op.addr)) then c[PageOf(op.addr) := op.data]
    else c
  }

  ghost function ReplayContents(h: Host, s: Regions, c: Image, ops: seq<Op>, kernelMin: nat): Image {
    if ops == [] then c
    else
      var before := ops[..|ops| - 1];
      StepContents(h, Replay(s, before, kernelMin), ReplayContents(h, s, c, before, kernelMin), ops[|ops| - 1], kernelMin)
  }

  // ---------------------------------------------------------------- what the model means

  lemma NewOfProper(s: Regions, op: Op, kernelMin: nat)
    requires Legal(op) && Maps(s, op, kernelMin)
    ensures (op.MapRegion? || op.Brk?) && ProperRec(NewOf(op)) && NewOf(op).start == op.addr && NewOf(op).end == Limit(op)
  {
    if op.Brk? { PlanBrkMeans(op.addr, op.request); }
  }

  lemma ClearsAligned(op: Op, kernelMin: nat)
    requires Legal(op) && Clears(op, kernelMin) && Aligned(kernelMin) && kernelMin < WORD
    ensures Aligned(op.addr) && Aligned(Limit(op)) && op.addr < Limit(op)
  {
    RangeChecked(op.addr, op.length, kernelMin);
  }

  /** Every call sets, clears or leaves the kind of mapping of an address, and keeps the areas proper. */
  lemma StepMeans(s: Regions, op: Op, kernelMin: nat, a: int, k: Kind)
    requires Proper(s) && Legal(op) && Aligned(kernelMin) && kernelMin < WORD
    ensures Proper(Step(s, op, kernelMin))
    ensures MapsKind(Step(s, op, kernelMin), a, k) <==>
            if op.addr <= a < Limit(op) && Clears(op, kernelMin) then false
            else if op.addr <= a < Limit(op) && Maps(s, op, kernelMin) then k == KindIn(NewOf(op))
            else MapsKind(s, a, k)
  {
    hide Trim, Remap, MapsKind, Legal, Clears, Maps, NewOf, Limit;
    if Clears(op, kernelMin) {
      ClearsAligned(op, kernelMin);
      ClearsOnly(s, op, kernelMin);
      TrimKinds(s, op.addr, Limit(op), a, k);
      TrimProper(s, op.addr, Limit(op));
    } else if Maps(s, op, kernelMin) {
      NewOfProper(s, op, kernelMin);
      RemapKinds(s, NewOf(op), a, k);
      RemapProper(s, NewOf(op));
    }
  }

  /** The sums that the merge tests compare stay below the word size, so that no 64-bit word wraps. */
  ghost predicate Fitting(s: Regions) {
    forall r :: r in s && r.end <= WORD / 2 ==> 0 <= r.offset && r.offset + (r.end - r.start) < WORD
  }

  /**
     Over any run in which the calls give offsets below half the word size, no offset of an area goes negative,
     and of areas in the lower half of the address space none wraps.
   */
  lemma {:induction false} OffsetsFit(ops: seq<Op>, kernelMin: nat, b: int)
    requires Aligned(kernelMin) && kernelMin < WORD && (forall op :: op in ops ==> Legal(op)) && 0 <= b < WORD / 2
    requires forall op :: op in ops && op.MapRegion? ==> 0 <= op.offset <= b
    ensures Proper(Replay({}, ops, kernelMin)) && Tame(Replay({}, ops, kernelMin), b) && Fitting(Replay({}, ops, kernelMin))
    decreases |ops|
  {
    hide Step, Legal, Proper;
    if ops == [] {
      assert Proper({}) by { NothingProper(); }
    } else {
      var op, s := ops[|ops| - 1], Replay({}, ops[..|ops| - 1], kernelMin);
      OffsetsFit(ops[..|ops| - 1], kernelMin, b);
      StepTame(s, op, kernelMin, b);
    }
  }

  lemma NothingProper()
    ensures Proper({})
  {
  }

  lemma StepTame(s: Regions, op: Op, kernelMin: nat, b: int)
    requires Proper(s) && Legal(op) && Aligned(kernelMin) && kernelMin < WORD && Tame(s, b) && 0 <= b
    requires op.MapRegion? ==> 0 <= op.offset <= b
    ensures Proper(Step(s, op, kernelMin)) && Tame(Step(s, op, kernelMin), b)
  {
    hide Trim, Remap, Legal, Clears, Maps, Proper, Tame, Limit;
    StepMeans(s, op, kernelMin, 0, Kind(0, 0, 0));
    if Clears(op, kernelMin) {
      ClearsAligned(op, kernelMin);
      TrimTame(s, op.addr, Limit(op), b);
    } else if Maps(s, op, kernelMin) {
      NewOfProper(s, op, kernelMin);
      NewOfTame(op, b);
      RemapTame(s, NewOf(op), b);
    }
  }

  lemma NewOfTame(op: Op, b: int)
    requires (op.MapRegion? || op.Brk?) && 0 <= b && (op.MapRegion? ==> 0 <= op.offset <= b)
    ensures 0 <= NewOf(op).offset <= b + NewOf(op).start
  {
    if op.Brk? { BrkRecRange(op.addr, AlignUp(op.request), op.flags); }
  }

  lemma ClearsOnly(s: Regions, op: Op, kernelMin: nat)
    requires Clears(op, kernelMin)
    ensures !Maps(s, op, kernelMin) && op.Munmap?
  {
  }

  /** Page `p` is in the range of the call, or is the page written to. */
  ghost predicate Reaches(op: Op, p: int) {
    PageOf(op.addr) <= p < PageOf(Limit(op))
  }

  /** Page `p` belongs to a file mapping that the call cuts or makes longer, so that the host maps the file again. */
  ghost predicate Rereads(s: Regions, op: Op, kernelMin: nat, p: int) {
    || (Clears(op, kernelMin) && exists r :: ReRead(s, r, p, op.addr, Limit(op)))
    || (Maps(s, op, kernelMin) && exists r :: Renewed(s, NewOf(op), r, p))
  }

  /**
   What a page holds after a step: what has just been written; the file where the areas now have it, if its mapping is
   new, cut or longer, or zero if that has no file; and in all other cases what it held before.
   */
  lemma ContentsAt(h: Host, s: Regions, c: Image, op: Op, kernelMin: nat, n: Rec, p: int)
    requires Proper(s) && Legal(op) && Aligned(kernelMin) && kernelMin < WORD
    requires n in Step(s, op, kernelMin) && PageIn(n, p) && p in StepContents(h, s, c, op, kernelMin)
    ensures StepContents(h, s, c, op, kernelMin)[p] ==
            if op.Store? && Reaches(op, p) then op.data
            else if (Maps(s, op, kernelMin) && Reaches(op, p)) || Rereads(s, op, kernelMin, p)
            then if n.file.fd != -1 then FileAt(h, n, p) else h.Zero()
            else c[p]
  {
    hide Trim, Remap, Trimmed, Remapped, Legal, Clears, Maps, NewOf, Limit, Proper, ReRead, Renewed, FileAt, PageIn;
    if Clears(op, kernelMin) {
      ClearsAligned(op, kernelMin);
      ClearsOnly(s, op, kernelMin);
      TrimmedShows(h, s, c, op.addr, Limit(op), n, p);
      if exists r :: ReRead(s, r, p, op.addr, Limit(op)) { CutHasFile(s, n, op.addr, Limit(op), p); }
    } else if Maps(s, op, kernelMin) {
      NewOfProper(s, op, kernelMin);
      RemappedAt(h, s, c, NewOf(op), n, p);
      InRange(NewOf(op), op, p);
    } else {
      StorePage(s, op, n, p);
    }
  }

  lemma CutHasFile(s: Regions, n: Rec, lo: int, hi: int, p: int)
    requires Proper(s) && lo < hi && Aligned(lo) && Aligned(hi) && n in Trim(s, lo, hi) && PageIn(n, p) && exists r :: ReRead(s, r, p, lo, hi)
    ensures n.file.fd != -1
  {
    hide Trim, CutFile;
    var q := InTrimFrom(s, lo, hi, n);
    var r :| ReRead(s, r, p, lo, hi);
    OnePage(s, r, q, p);
    CutIsFile(r, {lo, hi});
  }

  lemma CutIsFile(r: Rec, cuts: set<int>)
    requires CutFile(r, cuts)
    ensures r.file.fd != -1
  {
  }

  lemma InRange(x: Rec, op: Op, p: int)
    requires x.start == op.addr && x.end == Limit(op)
    ensures PageIn(x, p) <==> Reaches(op, p)
  {
  }

  lemma StorePage(s: Regions, op: Op, n: Rec, p: int)
    requires n in s && PageIn(n, p)
    ensures op.Store? ==> (Reaches(op, p) <==> p == PageOf(op.addr)) && (Reaches(op, p) ==> HasPage(s, p))
  {
  }

  /** The plain memory always has exactly the pages of the areas, unless the call makes one area of two. */
  lemma StepFull(h: Host, s: Regions, c: Image, op: Op, kernelMin: nat)
    requires Proper(s) && Legal(op) && Aligned(kernelMin) && kernelMin < WORD && Full(s, c) && !Bridging(s, op, kernelMin)
    ensures Full(Step(s, op, kernelMin), StepContents(h, s, c, op, kernelMin))
  {
    hide Trim, Remap, Trimmed, Remapped, Legal, Clears, Maps, NewOf, Limit, Proper, HasPage;
    if Clears(op, kernelMin) {
      ClearsAligned(op, kernelMin);
      TrimmedFull(h, s, c, op.addr, Limit(op));
    } else if Maps(s, op, kernelMin) {
      NewOfProper(s, op, kernelMin);
      RemappedFull(h, s, c, NewOf(op));
    }
  }

  // ---------------------------------------------------------------- one call

  /** Two pages of areas are at different frames. */
  lemma OwnFrame(s: AddressSpace, w: VmArea, q: int, p: int)
    requires Lodged(s.host, s.nodes) && s.nodes <= MappedOnes(s.host, s.nodes)
    requires w in s.nodes && Keeps(w, q) && HasPage(Values(RecsOf(s.nodes)), p)
    ensures p in s.host.table && q in s.host.table && s.host.table[q] == KeptFrame(w) + (q - KeptFrom(w))
    ensures s.host.table[p] == s.host.table[q] ==> p == q
  {
    hide Lodged, Host.Valid, Host.Housed;
    var r :| r in Values(RecsOf(s.nodes)) && PageIn(r, p);
    var v: VmArea :| v in RecsOf(s.nodes) && RecsOf(s.nodes)[v] == r;
    RecsHave(s.nodes, v);
    LodgedPair(s, v, w);
    assert s.host.Mapped(v) && s.host.Mapped(w);
    if v == w { assert p - q == s.host.table[p] - s.host.table[q]; }
  }

  lemma LodgedPair(s: AddressSpace, v: VmArea, w: VmArea)
    requires Lodged(s.host, s.nodes) && v in s.nodes && w in s.nodes
    ensures InPlace(v) && InPlace(w) && s.host.Housed(v) && s.host.Housed(w) && (v != w ==> Apart(v, w))
  {
  }

  /** A write goes to the page's own frame, so that no other page of any area sees it. */
  method Write(s: AddressSpace, p: int, data: Page, ghost image: Image)
    requires Hosted(s, image)
    modifies s.host`ram
    ensures Lodged(s.host, s.nodes)
    ensures s.nodes <= MappedOnes(s.host, s.nodes) && NoStray(s.host.table.Keys, Values(RecsOf(s.nodes))) ==>
              Hosted(s, if HasPage(Values(RecsOf(s.nodes)), p) then image[p := data] else image)
  {
    hide RecsOf, Values, HasPage, AllApart, Host.Housed, InPlace, Keeps, MappedOnes, KeptFrame, KeptFrom, Host.Contents;
    s.host.Store(p, data);
    if s.nodes <= MappedOnes(s.host, s.nodes) && NoStray(s.host.table.Keys, Values(RecsOf(s.nodes))) && HasPage(Values(RecsOf(s.nodes)), p) {
      forall w, q | w in s.nodes && Keeps(w, q)
        ensures p in s.host.table && (q == p <==> s.host.table[p] == KeptFrame(w) + (q - KeptFrom(w)))
      {
        OwnFrame(s, w, q, p);
      }
    }
  }

  /** Each call does to the areas and to what their pages hold what it does to the model, and answers as the model tells. */
  method Call(s: AddressSpace, op: Op, kernelMin: nat, ghost image: Image) returns (r: int)
    requires Sane(s) && Hosted(s, image) && Legal(op) && Aligned(kernelMin) && kernelMin < WORD
    modifies s.nodes`start, s.nodes`end, s.nodes`pageOffset
    modifies s`root, s`first, s`highest, s`nodes, s`order, s`span, s.nodes`prev, s.nodes`next
    modifies s.nodes`rbLeft, s.nodes`rbRight, s.nodes`rbParent, s.nodes`rbBlack, s.nodes`subtreeGap
    modifies s.host`next, s.host`table, s.host`ram, s.host`holes
    modifies s.nodes`physStart, s.nodes`physEnd, s.nodes`oldStart, s.nodes`oldEnd, s.nodes`flags
    ensures Sane(s) && Lodged(s.host, s.nodes) && fresh(s.nodes - old(s.nodes))
    ensures r == Answer(old(Values(RecsOf(s.nodes))), op, kernelMin)
    ensures Values(RecsOf(s.nodes)) == Step(old(Values(RecsOf(s.nodes))), op, kernelMin)
    ensures !op.Store? || old(Exact(s)) ==> Hosted(s, StepContents(s.host, old(Values(RecsOf(s.nodes))), image, op, kernelMin))
    ensures !Bridging(old(Values(RecsOf(s.nodes))), op, kernelMin) && old(Exact(s)) ==> Exact(s)
  {
    hide Sane, Faithful, RecsOf, Values, Trim, Remap, Trimmed, Remapped, MapsAnew, HasPage, MappedOnes, AlignUp, ValidRange;
    hide Essential, InUse, Bridges, TablesFollow, Exact, PlanBrk, Spanning, NewRec, BrkRec, NoStray, Lodged;
    ghost var m, t := RecsOf(s.nodes), s.host.table.Keys;
    match op
    case Munmap(addr, length) =>
      ghost var exact := Exact(s);
      if exact { ExactParts(s); }
      SaneProper(s);
      r := MunmapTold(s, addr, length, kernelMin, image);
      if r == 0 {
        RangeChecked(addr, length, kernelMin);
        if exact { UnmapsExact(s, m, t, addr, addr + AlignUp(length)); }
      }
    case MapRegion(file, addr, length, flags, prot, offset) =>
      NewRecProper(addr, addr + length, flags, prot, file, offset);
      var vma;
      r, vma := MmapRegion(s, file, addr, length, flags, prot, offset, kernelMin, image);
      AnewStep(Values(m), Values(RecsOf(s.nodes)), NewRec(addr, addr + length, flags, prot, file, offset), kernelMin, vma == null);
      TablesExact(s);
    case Brk(addr, request, flags) =>
      PlanBrkMeans(addr, request);
      PlanBrkLength(addr, request);
      ghost var vma;
      r, vma := DoBrk(s, addr, request, flags, kernelMin, image);
      if PlanBrk(addr, request).MapIt? {
        BrkRecRange(addr, AlignUp(request), flags);
        AnewStep(Values(m), Values(RecsOf(s.nodes)), BrkRec(addr, AlignUp(request), flags), kernelMin, vma == null);
      }
      TablesExact(s);
    case Store(addr, data) =>
      if Exact(s) { ExactParts(s); }
      Write(s, PageOf(addr), data, image);
      r := 0;
  }

  lemma PlanBrkLength(addr: nat, request: nat)
    ensures PlanBrk(addr, request).MapIt? ==> PlanBrk(addr, request).len == AlignUp(request)
  {
  }

  lemma BrkRecRange(addr: int, len: int, flags: bv64)
    ensures BrkRec(addr, len, flags).start == addr && BrkRec(addr, len, flags).end == addr + len
  {
  }

  lemma AnewStep(s: Regions, t: Regions, x: Rec, kernelMin: nat, fails: bool)
    requires MapsAnew(s, t, x, kernelMin, fails)
    ensures fails == !(InUse(s, x.start, x.end) ==> x.end <= kernelMin)
    ensures t == if fails then s else Remap(s, x)
  {
  }

  lemma TablesExact(s: AddressSpace)
    ensures forall lo, hi :: TablesFollow(s, false, lo, hi) ==> Exact(s)
  {
  }

  lemma ExactParts(s: AddressSpace)
    requires Exact(s)
    ensures s.nodes <= MappedOnes(s.host, s.nodes) && NoStray(s.host.table.Keys, Values(RecsOf(s.nodes)))
  {
  }

  lemma UnmapsExact(s: AddressSpace, m: Recs, t: set<int>, lo: int, hi: int)
    requires s.nodes <= MappedOnes(s.host, s.nodes) && Unmaps(m, RecsOf(s.nodes), t, s.host.table.Keys, lo, hi)
    requires NoStray(t, Values(m)) && Proper(Values(m)) && Aligned(lo) && Aligned(hi) && lo < hi
    ensures Exact(s)
  {
    UnmapsNoStray(m, RecsOf(s.nodes), t, s.host.table.Keys, lo, hi);
  }

  // ---------------------------------------------------------------- whole runs

  lemma ReplayMore(s: Regions, ops: seq<Op>, i: int, kernelMin: nat)
    requires 0 <= i < |ops|
    ensures Replay(s, ops[..i + 1], kernelMin) == Step(Replay(s, ops[..i], kernelMin), ops[i], kernelMin)
  {
    assert ops[..i + 1][..i] == ops[..i];
  }

  lemma ReplayContentsMore(h: Host, s: Regions, c: Image, ops: seq<Op>, i: int, kernelMin: nat)
    requires 0 <= i < |ops|
    ensures ReplayContents(h, s, c, ops[..i + 1], kernelMin) ==
            StepContents(h, Replay(s, ops[..i], kernelMin), ReplayContents(h, s, c, ops[..i], kernelMin), ops[i], kernelMin)
  {
    hide StepContents;
    assert ops[..i + 1][..i] == ops[..i];
  }

  /** No call of the run makes one area of two. */
  ghost predicate Unbridged(s: Regions, ops: seq<Op>, kernelMin: nat) {
    forall i :: 0 <= i < |ops| ==> !Bridging(Replay(s, ops[..i], kernelMin), ops[i], kernelMin)
  }

  /** A page that is told of and translated reads as told. */
  lemma ReadsAsTold(s: AddressSpace, image: Image, p: int)
    requires Hosted(s, image) && s.nodes <= MappedOnes(s.host, s.nodes) && HasPage(Values(RecsOf(s.nodes)), p) && p in image
    ensures p in s.host.table && s.host.Read(p) == image[p]
  {
    hide Lodged, Keeps, PageIn, Covers;
    var r :| r in Values(RecsOf(s.nodes)) && PageIn(r, p);
    var w: VmArea :| w in RecsOf(s.nodes) && RecsOf(s.nodes)[w] == r;
    RecsHave(s.nodes, w);
    KeptPage(s, w, p);
    InPlaceHere(s, w);
    assert s.host.Mapped(w) && Due(s.host, w, p) == image[p];
  }

  lemma UnbridgedAt(s: Regions, ops: seq<Op>, kernelMin: nat, i: int)
    requires Unbridged(s, ops, kernelMin) && 0 <= i < |ops|
    ensures !Bridging(Replay(s, ops[..i], kernelMin), ops[i], kernelMin)
  {
  }

  /** In a run that bridges nothing the model's memory has the pages of the areas throughout. */
  lemma {:induction false} RunFull(h: Host, s: Regions, c: Image, ops: seq<Op>, kernelMin: nat)
    requires Proper(s) && Full(s, c) && Unbridged(s, ops, kernelMin)
    requires Aligned(kernelMin) && kernelMin < WORD && forall op :: op in ops ==> Legal(op)
    ensures Proper(Replay(s, ops, kernelMin)) && Full(Replay(s, ops, kernelMin), ReplayContents(h, s, c, ops, kernelMin))
    decreases |ops|
  {
    hide Step, StepContents, Proper, Full, Legal, Bridging;
    if ops != [] {
      var before, op := ops[..|ops| - 1], ops[|ops| - 1];
      Shorter(s, ops, kernelMin);
      RunFull(h, s, c, before, kernelMin);
      StepMeans(Replay(s, before, kernelMin), op, kernelMin, 0, Kind(0, 0, 0));
      StepFull(h, Replay(s, before, kernelMin), ReplayContents(h, s, c, before, kernelMin), op, kernelMin);
    }
  }

  lemma Shorter(s: Regions, ops: seq<Op>, kernelMin: nat)
    requires ops != [] && Unbridged(s, ops, kernelMin)
    ensures Unbridged(s, ops[..|ops| - 1], kernelMin) && !Bridging(Replay(s, ops[..|ops| - 1], kernelMin), ops[|ops| - 1], kernelMin)
  {
    hide Bridging;
    forall i | 0 <= i < |ops| - 1
      ensures ops[..|ops| - 1][..i] == ops[..i]
    {
    }
  }

  /** From step `i` on no step of the run is about page `p`, and none makes the host map its file again. */
  ghost predicate Untouched(s: Regions, ops: seq<Op>, kernelMin: nat, i: nat, p: int) {
    forall j :: i <= j < |ops| ==> !Reaches(ops[j], p) && !Rereads(Replay(s, ops[..j], kernelMin), ops[j], kernelMin, p)
  }

  /** A page that is untouched from step `i` on, of a file mapping or not, holds at the end what it held before that step. */
  lemma {:induction false} UntouchedKept(h: Host, s: Regions, c: Image, ops: seq<Op>, kernelMin: nat, i: nat, p: int)
    requires Proper(s) && Full(s, c) && Unbridged(s, ops, kernelMin) && i <= |ops| && Untouched(s, ops, kernelMin, i, p)
    requires Aligned(kernelMin) && kernelMin < WORD && forall op :: op in ops ==> Legal(op)
    requires p in ReplayContents(h, s, c, ops[..i], kernelMin)
    ensures p in ReplayContents(h, s, c, ops, kernelMin)
    ensures ReplayContents(h, s, c, ops, kernelMin)[p] == ReplayContents(h, s, c, ops[..i], kernelMin)[p]
    decreases |ops|
  {
    hide Step, StepContents, Proper, Full, Legal, Reaches, Rereads, Bridging;
    if i == |ops| {
      assert ops[..i] == ops;
    } else {
      var before, op := ops[..|ops| - 1], ops[|ops| - 1];
      assert before[..i] == ops[..i];
      Shorter(s, ops, kernelMin);
      forall j | i <= j < |before|
        ensures before[..j] == ops[..j] && before[j] == ops[j]
      {
      }
      UntouchedKept(h, s, c, before, kernelMin, i, p);
      RunFull(h, s, c, before, kernelMin);
      StepUntouched(h, Replay(s, before, kernelMin), ReplayContents(h, s, c, before, kernelMin), op, kernelMin, p);
    }
  }

  /** The last write to a page is what it holds, as long as no call is about it or makes the host map its file again. */
  lemma LastWrite(h: Host, s: Regions, c: Image, ops: seq<Op>, kernelMin: nat, i: nat, p: int)
    requires Proper(s) && Full(s, c) && Unbridged(s, ops, kernelMin) && i < |ops| && Untouched(s, ops, kernelMin, i + 1, p)
    requires Aligned(kernelMin) && kernelMin < WORD && forall op :: op in ops ==> Legal(op)
    requires ops[i].Store? && p == PageOf(ops[i].addr) && HasPage(Replay(s, ops[..i], kernelMin), p)
    ensures p in ReplayContents(h, s, c, ops, kernelMin) && ReplayContents(h, s, c, ops, kernelMin)[p] == ops[i].data
  {
    hide Proper, Full, Legal, Bridging, Unbridged, Untouched, HasPage, Replay, ReplayContents;
    ReplayContentsMore(h, s, c, ops, i, kernelMin);
    UntouchedKept(h, s, c, ops, kernelMin, i + 1, p);
  }

  lemma StepUntouched(h: Host, s: Regions, c: Image, op: Op, kernelMin: nat, p: int)
    requires Proper(s) && Full(s, c) && Legal(op) && Aligned(kernelMin) && kernelMin < WORD && p in c
    requires !Bridging(s, op, kernelMin) && !Reaches(op, p) && !Rereads(s, op, kernelMin, p)
    ensures p in StepContents(h, s, c, op, kernelMin) && StepContents(h, s, c, op, kernelMin)[p] == c[p]
  {
    hide Step, StepContents, Proper, Legal, Rereads, Bridging, PageIn;
    StepFull(h, s, c, op, kernelMin);
    StepHas(s, op, kernelMin, p);
    var n :| n in Step(s, op, kernelMin) && PageIn(n, p);
    ContentsAt(h, s, c, op, kernelMin, n, p);
  }

  /** A page out of a call's reach still belongs to an area. */
  lemma StepHas(s: Regions, op: Op, kernelMin: nat, p: int)
    requires Proper(s) && Legal(op) && Aligned(kernelMin) && kernelMin < WORD && !Reaches(op, p) && HasPage(s, p)
    ensures HasPage(Step(s, op, kernelMin), p)
  {
    hide Trim, Merged, HasPage, Legal, Clears, Maps, NewOf, Limit, Proper, ProperRec;
    if Clears(op, kernelMin) {
      ClearsAligned(op, kernelMin);
      TrimPages(s, op.addr, Limit(op), p);
    } else if Maps(s, op, kernelMin) {
      NewOfProper(s, op, kernelMin);
      TrimReady(s, NewOf(op));
      TrimPages(s, op.addr, Limit(op), p);
      MergedPages(Trim(s, op.addr, Limit(op)), NewOf(op), p);
    }
  }

  /**
   Any run of calls and writes: list, tree, cached gaps and highest address agree afterwards, every area has its
   frames to itself, the areas are what the model says, and every answer was the one the model gives. If moreover
   no call made one area of two, the page tables translate exactly the pages of the areas, and what the guest reads
   is, page by page, what the model's plain memory holds.
   */
  method Run(s: AddressSpace, ops: seq<Op>, kernelMin: nat) returns (answers: seq<int>)
    requires Valid(s) && Lodged(s.host, s.nodes) && Aligned(kernelMin) && kernelMin < WORD && forall op :: op in ops ==> Legal(op)
    modifies s.nodes`start, s.nodes`end, s.nodes`pageOffset
    modifies s`root, s`first, s`highest, s`nodes, s`order, s`span, s.nodes`prev, s.nodes`next
    modifies s.nodes`rbLeft, s.nodes`rbRight, s.nodes`rbParent, s.nodes`rbBlack, s.nodes`subtreeGap
    modifies s.host`next, s.host`table, s.host`ram, s.host`holes
    modifies s.nodes`physStart, s.nodes`physEnd, s.nodes`oldStart, s.nodes`oldEnd, s.nodes`flags
    ensures Valid(s) && Lodged(s.host, s.nodes)
    ensures Values(RecsOf(s.nodes)) == Replay(old(Values(RecsOf(s.nodes))), ops, kernelMin)
    ensures |answers| == |ops|
    ensures forall i :: 0 <= i < |ops| ==>
              answers[i] == Answer(Replay(old(Values(RecsOf(s.nodes))), ops[..i], kernelMin), ops[i], kernelMin)
    ensures old(Exact(s) && Unbridged(Values(RecsOf(s.nodes)), ops, kernelMin)) ==>
              && Exact(s)
              && Guest(s.host) == ReplayContents(s.host, old(Values(RecsOf(s.nodes))), old(Guest(s.host)), ops, kernelMin)
  {
    hide Valid, Sane, Hosted, Lodged, RecsOf, Values, Step, StepContents, Answer, Legal, Exact, Unbridged, Bridging;
    hide Proper, Limit, Guest, Full;
    ValidIsSane(s);
    LodgedHosted(s);
    ghost var first, guest, quiet := Values(RecsOf(s.nodes)), Guest(s.host), Exact(s) && Unbridged(Values(RecsOf(s.nodes)), ops, kernelMin);
    if quiet {
      SaneProper(s);
      GuestFull(s);
    }
    answers := [];
    ghost var image := if quiet then guest else map[];
    var n := 0;
    while n < |ops|
      invariant 0 <= n <= |ops| && |answers| == n && Sane(s) && Hosted(s, image) && fresh(s.nodes - old(s.nodes))
      invariant Values(RecsOf(s.nodes)) == Replay(first, ops[..n], kernelMin)
      invariant quiet ==> Exact(s) && image == ReplayContents(s.host, first, guest, ops[..n], kernelMin) && Full(Values(RecsOf(s.nodes)), image)
      invariant !quiet ==> image == map[]
      invariant forall i :: 0 <= i < n ==> answers[i] == Answer(Replay(first, ops[..i], kernelMin), ops[i], kernelMin)
    {
      SaneProper(s);
      ghost var now := Values(RecsOf(s.nodes));
      ReplayMore(first, ops, n, kernelMin);
      if quiet {
        UnbridgedAt(first, ops, kernelMin, n);
        ReplayContentsMore(s.host, first, guest, ops, n, kernelMin);
        StepFull(s.host, now, image, ops[n], kernelMin);
      }
      var r := Call(s, ops[n], kernelMin, image);
      if quiet { image := StepContents(s.host, now, image, ops[n], kernelMin); } else { LodgedHosted(s); }
      answers := answers + [r];
      n := n + 1;
    }
    assert ops[..n] == ops;
    ValidIsSane(s);
    HostedLodged(s, image);
    if quiet { GuestTold(s, image); }
  }

  /** Where the page tables are exact the guest reads a page of every area, and no other. */
  lemma GuestFull(s: AddressSpace)
    requires Exact(s) && Lodged(s.host, s.nodes)
    ensures Full(Values(RecsOf(s.nodes)), Guest(s.host)) && Hosted(s, Guest(s.host))
  {
    hide Lodged, Hosted, MappedOnes, Guest;
    GuestHosted(s);
    forall p | HasPage(Values(RecsOf(s.nodes)), p)
      ensures p in s.host.table
    {
      PageMapped(s, p);
    }
  }

  lemma PageMapped(s: AddressSpace, p: int)
    requires s.nodes <= MappedOnes(s.host, s.nodes) && HasPage(Values(RecsOf(s.nodes)), p)
    ensures p in s.host.table
  {
    var r :| r in Values(RecsOf(s.nodes)) && PageIn(r, p);
    var w: VmArea :| w in RecsOf(s.nodes) && RecsOf(s.nodes)[w] == r;
    RecsHave(s.nodes, w);
    assert s.host.Mapped(w) && Covers(w, p);
  }

  lemma FullAt(s: Regions, c: Image, p: int)
    requires Full(s, c)
    ensures p in c <==> HasPage(s, p)
  {
  }

  /** And reads what is told. */
  lemma GuestTold(s: AddressSpace, image: Image)
    requires Hosted(s, image) && Exact(s) && Full(Values(RecsOf(s.nodes)), image)
    ensures Guest(s.host) == image
  {
    hide Hosted, Values, RecsOf, HasPage, MappedOnes, Host.Read, Lodged;
    HostedLodged(s, image);
    GuestFull(s);
    forall p | p in image
      ensures p in s.host.table && s.host.Read(p) == image[p]
    {
      ReadsAsTold(s, image, p);
    }
    var guest := Guest(s.host);
    forall p
      ensures p in guest <==> p in image
      ensures p in image ==> guest[p] == image[p]
    {
      FullAt(Values(RecsOf(s.nodes)), image, p);
      FullAt(Values(RecsOf(s.nodes)), guest, p);
    }
  }

  lemma LodgedHosted(s: AddressSpace)
    ensures Hosted(s, map[]) <==> Lodged(s.host, s.nodes)
  {
  }

  lemma HostedLodged(s: AddressSpace, image: Image)
    requires Hosted(s, image)
    ensures Lodged(s.host, s.nodes)
  {
  }

  /** Before the first call nothing is mapped. */
  lemma AtFirst(s: AddressSpace)
    requires s.root == null && s.first == null && s.highest == 0 && s.nodes == {} && s.order == [] && s.span == map[]
    requires s.host.Valid() && s.host.table == map[]
    ensures Valid(s) && Lodged(s.host, s.nodes) && Exact(s) && Values(RecsOf(s.nodes)) == {}
  {
  }

  // ---------------------------------------------------------------- the gap search in a run

  lemma ValidSearchable(s: AddressSpace)
    requires Valid(s)
    ensures Searchable(s)
  {
  }

  /** A gap is a stretch that no area has anything of. */
  lemma FreeIsUnused(s: AddressSpace, low: nat, high: nat, length: nat, a: int)
    requires Valid(s) && length > 0
    ensures Free(s.order, low, high, length, a) <==>
            low <= a && a + length <= high && !InUse(Values(RecsOf(s.nodes)), a, a + length)
  {
    hide Values, RecsOf, InUse, Sane, Valid, Free, Overlaps;
    ValidIsSane(s);
    OverlapShown(s, a, a + length);
    FreeIsNoOverlap(s.order, low, high, length, a);
  }

  lemma FreeIsNoOverlap(list: seq<VmArea>, low: nat, high: nat, length: nat, a: int)
    ensures Free(list, low, high, length, a) <==>
            low <= a && a + length <= high && !exists i :: 0 <= i < |list| && Overlaps(list[i], a, a + length)
  {
  }

  // ---------------------------------------------------------------- how a bridge comes about

  /** Three calls, each for one page, from nothing: the last makes one area of two. */
  lemma BridgeInARun(flags: bv64, prot: bv64, kernelMin: nat)
    ensures var ops := [MapRegion(NO_FILE, 0x1000, 0x1000, flags, prot, 0), MapRegion(NO_FILE, 0x3000, 0x1000, flags, prot, 0),
                        MapRegion(NO_FILE, 0x2000, 0x1000, flags, prot, 0)];
      && (forall op :: op in ops ==> Legal(op)) && Bridging(Replay({}, ops[..2], kernelMin), ops[2], kernelMin)
  {
    hide Trim, Merged, WayIn, Essential, Bridges;
    var a, b, c := MapRegion(NO_FILE, 0x1000, 0x1000, flags, prot, 0), MapRegion(NO_FILE, 0x3000, 0x1000, flags, prot, 0),
                   MapRegion(NO_FILE, 0x2000, 0x1000, flags, prot, 0);
    var ops := [a, b, c];
    var u, w := NewOf(a), NewOf(b);
    assert ops[..2] == [a, b] && [a, b][..1] == [a] && [a][..0] == [];
    FirstAlone({}, u);
    FirstAlone({u}, w);
    assert {} + {u} == {u} && {u} + {w} == {u, w};
    assert Replay({}, [], kernelMin) == {};
    assert Replay({}, [a], kernelMin) == {u};
    assert Replay({}, [a, b], kernelMin) == {u, w};
    BridgeExists(prot, Essential(flags));
  }

  /** A range that touches no area is mapped alone. */
  lemma FirstAlone(s: Regions, x: Rec)
    requires ProperRec(x) && forall r :: r in s ==> r.start < r.end && (r.end < x.start || x.end < r.start)
    ensures Remap(s, x) == s + {x} && !InUse(s, x.start, x.end)
  {
    TrimNothing(s, x.start, x.end);
    hide Trim;
    assert AreasBelow(s, x) == {} && AreasAbove(s, x) == {};
  }
}
