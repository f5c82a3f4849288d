/**
 What a set of areas means, apart from how it is linked together: the plain model that the mapping calls
 of kernel/c/mmap.c refine. An area's record is a value, and an address space is the set of them.
 */
module Regions {
  import opened Basics
  import opened VmAreas
  import opened HostMemory

  /** The part of an area's record that the guest can tell; `flags` are without the host's own. */
  datatype Rec = Rec(start: int, end: int, prot: bv64, flags: bv64, file: VmFile, offset: int)

  /** What an address is mapped as: protection, flags, file and byte offset in the file. */
  datatype Place = Place(prot: bv64, flags: bv64, file: VmFile, offset: int)

  /** Flags and file identity, which merging goes by. */
  datatype Kind = Kind(flags: bv64, dev: int, inode: int)

  type Regions = set<Rec>

  ghost predicate Inside(r: Rec, a: int) {
    r.start <= a < r.end
  }

  ghost function PlaceIn(r: Rec, a: int): Place {
    Place(r.prot, r.flags, r.file, r.offset + (a - r.start))
  }

  ghost function KindIn(r: Rec): Kind {
    Kind(r.flags, r.file.dev, r.file.inode)
  }

  /** Address `a` is mapped as `p`. */
  ghost predicate MapsAt(s: Regions, a: int, p: Place) {
    exists r :: r in s && Inside(r, a) && PlaceIn(r, a) == p
  }

  /** Address `a` is mapped with kind `k`. */
  ghost predicate MapsKind(s: Regions, a: int, k: Kind) {
    exists r :: r in s && Inside(r, a) && KindIn(r) == k
  }

  /** Page `p` belongs to the record. */
  ghost predicate PageIn(r: Rec, p: int) {
    PageOf(r.start) <= p < PageOf(r.end)
  }

  ghost predicate HasPage(s: Regions, p: int) {
    exists r :: r in s && PageIn(r, p)
  }

  ghost predicate ProperRec(r: Rec) {
    0 <= r.start < r.end && Aligned(r.start) && Aligned(r.end)
  }

  ghost predicate ApartRecs(r: Rec, q: Rec) {
    r.end <= q.start || q.end <= r.start
  }

  /** Nonempty page-aligned ranges, no two of which overlap. */
  ghost predicate Proper(s: Regions) {
    (forall r :: r in s ==> ProperRec(r)) && forall r, q :: r in s && q in s && r != q ==> ApartRecs(r, q)
  }

  // ---------------------------------------------------------------- cutting and trimming

  ghost function Lower(r: Rec, cut: int): Rec {
    r.(end := cut)
  }

  ghost function Upper(r: Rec, cut: int): Rec {
    r.(start := cut, offset := r.offset + (cut - r.start))
  }

  ghost predicate Straddles(r: Rec, cut: int) {
    r.start < cut < r.end
  }

  /** What `vma_split` makes of the areas: the one across `cut`, if there is one, becomes two. */
  ghost function Parted(s: Regions, cut: int): Regions {
    (set r | r in s && !Straddles(r, cut))
    + (set r | r in s && Straddles(r, cut) :: Lower(r, cut))
    + (set r | r in s && Straddles(r, cut) :: Upper(r, cut))
  }

  /** A page-aligned cut changes no page. */
  lemma PartedPages(s: Regions, cut: int, p: int)
    requires Aligned(cut)
    ensures HasPage(Parted(s, cut), p) <==> HasPage(s, p)
  {
    if q :| q in s && PageIn(q, p) {
      var r := if !Straddles(q, cut) then q else if p < PageOf(cut) then Lower(q, cut) else Upper(q, cut);
      InParted(s, cut, r);
      assert PageIn(r, p);
    }
    if r :| r in Parted(s, cut) && PageIn(r, p) {
      InParted(s, cut, r);
      var q :| q in s && (if Straddles(q, cut) then r == Lower(q, cut) || r == Upper(q, cut) else r == q);
      assert PageIn(q, p);
    }
  }

  lemma PartedNothing(s: Regions, cut: int)
    requires forall r :: r in s ==> !Straddles(r, cut)
    ensures Parted(s, cut) == s
  {
  }

  /** The areas that have nothing of `[lo, hi)`. */
  ghost function Beyond(s: Regions, lo: int, hi: int): Regions {
    set r | r in s && (r.end <= lo || hi <= r.start)
  }

  /** What `syscall_munmap` makes of the areas. */
  ghost function Trim(s: Regions, lo: int, hi: int): Regions {
    Beyond(Parted(Parted(s, lo), hi), lo, hi)
  }

  // ---------------------------------------------------------------- trimming is exact subtraction

  /** What is left of one record. */
  ghost predicate Leaves(q: Rec, r: Rec, lo: int, hi: int) {
    || (r == q && (q.end <= lo || hi <= q.start))
    || (Straddles(q, lo) && r == Lower(q, lo))
    || (Straddles(q, hi) && r == Upper(q, hi))
  }

  lemma InParted(s: Regions, cut: int, r: Rec)
    ensures r in Parted(s, cut) <==>
            exists q :: q in s && (if Straddles(q, cut) then r == Lower(q, cut) || r == Upper(q, cut) else r == q)
  {
  }

  /** Cutting one record at both ends of a range leaves its parts, of which those outside the range remain. */
  lemma CutTwice(q: Rec, m: Rec, r: Rec, lo: int, hi: int)
    requires q.start < q.end && lo < hi && (r.end <= lo || hi <= r.start)
    requires if Straddles(q, lo) then m == Lower(q, lo) || m == Upper(q, lo) else m == q
    requires if Straddles(m, hi) then r == Lower(m, hi) || r == Upper(m, hi) else r == m
    ensures Leaves(q, r, lo, hi)
  {
  }

  lemma InTrimFrom(s: Regions, lo: int, hi: int, r: Rec) returns (q: Rec)
    requires lo < hi && (forall q :: q in s ==> q.start < q.end) && r in Trim(s, lo, hi)
    ensures q in s && Leaves(q, r, lo, hi)
  {
    hide Parted, Straddles, Leaves, Lower, Upper;
    InParted(Parted(s, lo), hi, r);
    var m :| m in Parted(s, lo) && (if Straddles(m, hi) then r == Lower(m, hi) || r == Upper(m, hi) else r == m);
    InParted(s, lo, m);
    q :| q in s && (if Straddles(q, lo) then m == Lower(q, lo) || m == Upper(q, lo) else m == q);
    CutTwice(q, m, r, lo, hi);
  }

  lemma InTrimTo(s: Regions, lo: int, hi: int, q: Rec, r: Rec)
    requires lo < hi && q in s && q.start < q.end && Leaves(q, r, lo, hi)
    ensures r in Trim(s, lo, hi)
  {
    hide Parted;
    var m := if Straddles(q, lo) then if r == Lower(q, lo) then Lower(q, lo) else Upper(q, lo) else q;
    InParted(s, lo, m);
    InParted(Parted(s, lo), hi, r);
    assert m in Parted(s, lo) && if Straddles(m, hi) then r == Lower(m, hi) || r == Upper(m, hi) else r == m;
  }

  /** Trimming leaves of every record what lies outside the range, and nothing else. */
  lemma InTrim(s: Regions, lo: int, hi: int, r: Rec)
    requires lo < hi && forall q :: q in s ==> q.start < q.end
    ensures r in Trim(s, lo, hi) <==> exists q :: q in s && Leaves(q, r, lo, hi)
  {
    hide Trim, Leaves;
    if r in Trim(s, lo, hi) {
      var q := InTrimFrom(s, lo, hi, r);
    }
    if q :| q in s && Leaves(q, r, lo, hi) {
      InTrimTo(s, lo, hi, q, r);
    }
  }

  /** What is left of a record maps what that record did, but for the range. */
  lemma RemainsPlaces(q: Rec, r: Rec, lo: int, hi: int, a: int)
    requires Leaves(q, r, lo, hi) && q.start < q.end && lo < hi && Inside(r, a)
    ensures Inside(q, a) && PlaceIn(q, a) == PlaceIn(r, a) && !(lo <= a < hi)
  {
  }

  lemma PlaceRemains(q: Rec, lo: int, hi: int, a: int) returns (r: Rec)
    requires q.start < q.end && lo < hi && Inside(q, a) && !(lo <= a < hi)
    ensures Leaves(q, r, lo, hi) && Inside(r, a) && PlaceIn(q, a) == PlaceIn(r, a)
  {
    r := if a < lo then if Straddles(q, lo) then Lower(q, lo) else q else if Straddles(q, hi) then Upper(q, hi) else q;
  }

  /** Exactly the addresses of `[lo, hi)` lose their mapping; all others are mapped as before. */
  lemma TrimPlaces(s: Regions, lo: int, hi: int, a: int, p: Place)
    requires lo < hi && forall q :: q in s ==> q.start < q.end
    ensures MapsAt(Trim(s, lo, hi), a, p) <==> MapsAt(s, a, p) && !(lo <= a < hi)
  {
    hide Trim, Leaves, PlaceIn, Inside;
    if MapsAt(Trim(s, lo, hi), a, p) {
      var r :| r in Trim(s, lo, hi) && Inside(r, a) && PlaceIn(r, a) == p;
      InTrim(s, lo, hi, r);
      var q :| q in s && Leaves(q, r, lo, hi);
      RemainsPlaces(q, r, lo, hi, a);
    }
    if MapsAt(s, a, p) && !(lo <= a < hi) {
      var q :| q in s && Inside(q, a) && PlaceIn(q, a) == p;
      var r := PlaceRemains(q, lo, hi, a);
      InTrim(s, lo, hi, r);
    }
  }

  /** What remains is proper, and clear of the range. */
  lemma TrimProper(s: Regions, lo: int, hi: int)
    requires Proper(s) && lo < hi && Aligned(lo) && Aligned(hi)
    ensures Proper(Trim(s, lo, hi)) && forall r :: r in Trim(s, lo, hi) ==> r.end <= lo || hi <= r.start
  {
    hide Trim;
    forall r | r in Trim(s, lo, hi)
      ensures ProperRec(r) && (r.end <= lo || hi <= r.start)
    {
      InTrim(s, lo, hi, r);
    }
    forall r, t | r in Trim(s, lo, hi) && t in Trim(s, lo, hi) && r != t
      ensures ApartRecs(r, t)
    {
      InTrim(s, lo, hi, r);
      InTrim(s, lo, hi, t);
      var q :| q in s && Leaves(q, r, lo, hi);
      var u :| u in s && Leaves(u, t, lo, hi);
      assert q == u || ApartRecs(q, u);
    }
  }

  /** Where nothing is in the way nothing is trimmed. */
  lemma TrimNothing(s: Regions, lo: int, hi: int)
    requires lo < hi && forall q :: q in s ==> q.start < q.end && (q.end <= lo || hi <= q.start)
    ensures Trim(s, lo, hi) == s
  {
    hide Trim;
    forall r
      ensures r in Trim(s, lo, hi) <==> r in s
    {
      InTrim(s, lo, hi, r);
      if r in s { assert Leaves(r, r, lo, hi); }
    }
  }

  // ---------------------------------------------------------------- mapping anew

  function Pages(file: VmFile, bytes: int): int {
    if file.fd != -1 then PageOf(bytes) else 0
  }

  /** The record ends where `x` begins, and the merge tests find them alike. */
  ghost predicate JoinsBelow(r: Rec, x: Rec) {
    r.end == x.start && KindIn(r) == KindIn(x) && r.offset + Pages(x.file, r.end - r.start) == x.offset
  }

  /** The record begins where `x` ends, and the merge tests find them alike. */
  ghost predicate JoinsAbove(r: Rec, x: Rec) {
    r.start == x.end && KindIn(r) == KindIn(x) && r.offset == x.offset + Pages(x.file, x.end - x.start)
  }

  ghost function AreasBelow(s: Regions, x: Rec): Regions {
    set r | r in s && JoinsBelow(r, x)
  }

  ghost function AreasAbove(s: Regions, x: Rec): Regions {
    set r | r in s && JoinsAbove(r, x)
  }

  /** How a new range is merged with the areas before and behind it. */
  datatype Way = Alone | Up | Down | Both

  ghost function WayIn(s: Regions, x: Rec): Way {
    if AreasBelow(s, x) != {} then (if AreasAbove(s, x) != {} then Both else Up) else if AreasAbove(s, x) != {} then Down else Alone
  }

  /** The new range joins the areas: alone, with the area it is behind, with the area it is before, or with both. */
  ghost function Merged(s: Regions, x: Rec): Regions {
    match WayIn(s, x)
    case Alone => s + {x}
    case Up => s - AreasBelow(s, x) + (set r | r in AreasBelow(s, x) :: r.(end := x.end))
    case Down => s - AreasAbove(s, x) + (set r | r in AreasAbove(s, x) :: r.(start := x.start, offset := r.offset - Pages(x.file, x.end - x.start)))
    case Both => s - AreasBelow(s, x) - AreasAbove(s, x) + (set r, q | r in AreasBelow(s, x) && q in AreasAbove(s, x) :: r.(end := q.end))
  }

  /** What `mmap_region` makes of the areas: the range of `x` is cleared and mapped anew. */
  ghost function Remap(s: Regions, x: Rec): Regions {
    Merged(Trim(s, x.start, x.end), x)
  }

  /** At most one area ends, and at most one starts, at a given address. */
  lemma OneNeighbour(s: Regions, x: Rec, r: Rec)
    requires Proper(s)
    ensures r in AreasBelow(s, x) ==> AreasBelow(s, x) == {r}
    ensures r in AreasAbove(s, x) ==> AreasAbove(s, x) == {r}
  {
    forall q | q in AreasBelow(s, x) && r in AreasBelow(s, x)
      ensures q == r
    {
      assert q == r || ApartRecs(q, r);
    }
    forall q | q in AreasAbove(s, x) && r in AreasAbove(s, x)
      ensures q == r
    {
      assert q == r || ApartRecs(q, r);
    }
  }

  /** The merge is one on both sides exactly if mergeable areas reach or cross both ends of the range. */
  ghost predicate Bridges(s: Regions, x: Rec) {
    && (exists u :: u in s && ReachesUp(u, x))
    && (exists w :: w in s && ReachesDown(w, x))
  }

  ghost predicate ReachesUp(u: Rec, x: Rec) {
    u.start < x.start <= u.end && KindIn(u) == KindIn(x) && u.offset + Pages(x.file, x.start - u.start) == x.offset
  }

  ghost predicate ReachesDown(w: Rec, x: Rec) {
    && w.start <= x.end < w.end && KindIn(w) == KindIn(x)
    && w.offset + (x.end - w.start) == x.offset + Pages(x.file, x.end - x.start)
  }

  lemma BelowTrim(s: Regions, x: Rec)
    requires Proper(s) && x.start < x.end
    ensures AreasBelow(Trim(s, x.start, x.end), x) != {} <==> exists u :: u in s && ReachesUp(u, x)
  {
    hide Trim;
    var t := Trim(s, x.start, x.end);
    if u :| u in s && ReachesUp(u, x) {
      var r := if x.start < u.end then Lower(u, x.start) else u;
      assert Leaves(u, r, x.start, x.end);
      InTrim(s, x.start, x.end, r);
      assert r in AreasBelow(t, x);
    }
    if r :| r in AreasBelow(t, x) {
      InTrim(s, x.start, x.end, r);
      var u :| u in s && Leaves(u, r, x.start, x.end);
      assert ReachesUp(u, x);
    }
  }

  /** What trimming leaves of an area that reaches down to the range joins the range from above. */
  lemma AboveFrom(s: Regions, x: Rec, w: Rec) returns (r: Rec)
    requires x.start < x.end && (forall q :: q in s ==> q.start < q.end) && w in s && ReachesDown(w, x)
    ensures r in Trim(s, x.start, x.end) && JoinsAbove(r, x) && r.end == w.end && r.prot == w.prot && r.file == w.file
  {
    hide Trim;
    r := if w.start < x.end then Upper(w, x.end) else w;
    assert Leaves(w, r, x.start, x.end);
    InTrimTo(s, x.start, x.end, w, r);
  }

  /** And what joins it from above is left of such an area. */
  lemma AboveOf(s: Regions, x: Rec, r: Rec) returns (w: Rec)
    requires x.start < x.end && (forall q :: q in s ==> q.start < q.end) && r in Trim(s, x.start, x.end) && JoinsAbove(r, x)
    ensures w in s && ReachesDown(w, x) && r.end == w.end && r.prot == w.prot && r.file == w.file
  {
    hide Trim;
    w := InTrimFrom(s, x.start, x.end, r);
  }

  lemma AboveTrim(s: Regions, x: Rec)
    requires Proper(s) && x.start < x.end
    ensures AreasAbove(Trim(s, x.start, x.end), x) != {} <==> exists w :: w in s && ReachesDown(w, x)
  {
    hide Trim, JoinsAbove, ReachesDown;
    var t := Trim(s, x.start, x.end);
    if w :| w in s && ReachesDown(w, x) {
      var r := AboveFrom(s, x, w);
      assert r in AreasAbove(t, x);
    }
    if r :| r in AreasAbove(t, x) {
      var w := AboveOf(s, x, r);
    }
  }

  lemma BridgesIsBoth(s: Regions, x: Rec)
    requires Proper(s) && x.start < x.end
    ensures WayIn(Trim(s, x.start, x.end), x) == Both <==> Bridges(s, x)
  {
    hide Trim, AreasBelow, AreasAbove;
    BelowTrim(s, x);
    AboveTrim(s, x);
  }

  ghost function GrowUp(u: Rec, x: Rec): Rec {
    u.(end := x.end)
  }

  ghost function GrowDown(w: Rec, x: Rec): Rec {
    w.(start := x.start, offset := w.offset - Pages(x.file, x.end - x.start))
  }

  lemma MergedUp(s: Regions, x: Rec, u: Rec)
    requires WayIn(s, x) == Up && AreasBelow(s, x) == {u}
    ensures Merged(s, x) == s - {u} + {GrowUp(u, x)}
  {
    hide AreasBelow, AreasAbove, WayIn;
  }

  lemma MergedDown(s: Regions, x: Rec, w: Rec)
    requires WayIn(s, x) == Down && AreasAbove(s, x) == {w}
    ensures Merged(s, x) == s - {w} + {GrowDown(w, x)}
  {
    hide AreasBelow, AreasAbove, WayIn;
  }

  lemma MergedBoth(s: Regions, x: Rec, u: Rec, w: Rec)
    requires WayIn(s, x) == Both && AreasBelow(s, x) == {u} && AreasAbove(s, x) == {w}
    ensures Merged(s, x) == s - {u} - {w} + {GrowUp(u, w)}
  {
    hide AreasBelow, AreasAbove, WayIn;
  }

  /** Which areas a merge changes, and into what. */
  lemma MergedIs(s: Regions, x: Rec) returns (gone: Regions, new_: Rec)
    requires Proper(s)
    ensures Merged(s, x) == s - gone + {new_} && gone <= s
    ensures match WayIn(s, x)
            case Alone => gone == {} && new_ == x
            case Up => exists u :: u in s && JoinsBelow(u, x) && gone == {u} && new_ == GrowUp(u, x)
            case Down => exists w :: w in s && JoinsAbove(w, x) && gone == {w} && new_ == GrowDown(w, x)
            case Both => exists u, w :: u in s && w in s && JoinsBelow(u, x) && JoinsAbove(w, x) && gone == {u, w} && new_ == GrowUp(u, w)
  {
    hide Merged, JoinsBelow, JoinsAbove, Proper, GrowUp, GrowDown;
    match WayIn(s, x)
    case Alone =>
      gone, new_ := {}, x;
      MergedAlone(s, x);
    case Up =>
      var u :| u in AreasBelow(s, x);
      OneNeighbour(s, x, u);
      gone, new_ := {u}, GrowUp(u, x);
      MergedUp(s, x, u);
    case Down =>
      var w :| w in AreasAbove(s, x);
      OneNeighbour(s, x, w);
      gone, new_ := {w}, GrowDown(w, x);
      MergedDown(s, x, w);
    case Both =>
      var u :| u in AreasBelow(s, x);
      var w :| w in AreasAbove(s, x);
      OneNeighbour(s, x, u);
      OneNeighbour(s, x, w);
      gone, new_ := {u, w}, GrowUp(u, w);
      MergedBoth(s, x, u, w);
  }

  lemma MergedAlone(s: Regions, x: Rec)
    requires WayIn(s, x) == Alone
    ensures Merged(s, x) == s + {x}
  {
  }

  /** The new record covers the new range and what the records it takes the place of covered, and nothing else. */
  ghost predicate TakesOver(gone: Regions, new_: Rec, x: Rec) {
    && new_.start <= x.start && x.end <= new_.end && KindIn(new_) == KindIn(x)
    && (forall g :: g in gone ==> KindIn(g) == KindIn(x) && new_.start <= g.start && g.end <= new_.end)
    && (forall a :: Inside(new_, a) ==> Inside(x, a) || exists g :: g in gone && Inside(g, a))
  }

  lemma MergedTakesOver(s: Regions, x: Rec) returns (gone: Regions, new_: Rec)
    requires Proper(s) && ProperRec(x)
    ensures Merged(s, x) == s - gone + {new_} && gone <= s && TakesOver(gone, new_, x)
    ensures Aligned(new_.start) && Aligned(new_.end) && 0 <= new_.start
    ensures match WayIn(s, x)
            case Alone => gone == {} && new_ == x
            case Up => exists u :: u in s && JoinsBelow(u, x) && gone == {u} && new_ == GrowUp(u, x)
            case Down => exists w :: w in s && JoinsAbove(w, x) && gone == {w} && new_ == GrowDown(w, x)
            case Both => exists u, w :: u in s && w in s && JoinsBelow(u, x) && JoinsAbove(w, x) && gone == {u, w} && new_ == GrowUp(u, w)
  {
    hide Merged, WayIn;
    gone, new_ := MergedIs(s, x);
    match WayIn(s, x)
    case Alone =>
    case Up =>
      var u :| u in s && JoinsBelow(u, x) && gone == {u} && new_ == GrowUp(u, x);
    case Down =>
      var w :| w in s && JoinsAbove(w, x) && gone == {w} && new_ == GrowDown(w, x);
    case Both =>
      var u, w :| u in s && w in s && JoinsBelow(u, x) && JoinsAbove(w, x) && gone == {u, w} && new_ == GrowUp(u, w);
  }

  /** Exactly the new range is mapped with the new kind, and all else as the kind it was. */
  lemma MergedKinds(s: Regions, x: Rec, a: int, k: Kind)
    requires Proper(s) && ProperRec(x)
    ensures MapsKind(Merged(s, x), a, k) <==> MapsKind(s, a, k) || (Inside(x, a) && k == KindIn(x))
  {
    hide Merged, WayIn, KindIn, Proper;
    var gone, new_ := MergedTakesOver(s, x);
    var t := Merged(s, x);
    if r :| r in s && Inside(r, a) && KindIn(r) == k {
      var q := if r in gone then new_ else r;
      assert q in t && Inside(q, a) && KindIn(q) == k;
    }
    if Inside(x, a) && k == KindIn(x) { assert new_ in t && Inside(new_, a); }
    if r :| r in t && Inside(r, a) && KindIn(r) == k {
      if r !in s && !Inside(x, a) {
        var g :| g in gone && Inside(g, a);
      }
    }
  }

  /** What was clear of the range stays clear of the new record, but for what it takes over. */
  lemma MergedProper(s: Regions, x: Rec)
    requires Proper(s) && ProperRec(x) && forall r :: r in s ==> ApartRecs(r, x)
    ensures Proper(Merged(s, x))
  {
    hide Merged, WayIn;
    var gone, new_ := MergedTakesOver(s, x);
    forall r | r in s && r !in gone
      ensures ApartRecs(r, new_)
    {
      var a := if r.start < new_.start then new_.start else r.start;
      assert forall g :: g in gone ==> ApartRecs(r, g);
      assert Inside(new_, a) ==> !Inside(r, a);
    }
  }

  /** Within the new record its own places count, and elsewhere those of before. */
  lemma MergedAt(s: Regions, x: Rec, gone: Regions, new_: Rec, a: int, p: Place)
    requires Merged(s, x) == s - gone + {new_} && gone <= s && TakesOver(gone, new_, x) && Proper(Merged(s, x))
    ensures MapsAt(Merged(s, x), a, p) <==> if Inside(new_, a) then PlaceIn(new_, a) == p else MapsAt(s, a, p)
  {
    hide Merged, PlaceIn, KindIn;
    var t := Merged(s, x);
    assert new_ in t;
    if MapsAt(t, a, p) {
      var r :| r in t && Inside(r, a) && PlaceIn(r, a) == p;
      assert r == new_ || ApartRecs(r, new_);
    }
    if !Inside(new_, a) && MapsAt(s, a, p) {
      var r :| r in s && Inside(r, a) && PlaceIn(r, a) == p;
      assert r in t;
    }
  }

  /** An address of the area that the new range is joined to from below. */
  ghost predicate AboveAt(s: Regions, x: Rec, a: int) {
    exists w :: w in s && JoinsAbove(w, x) && Inside(w, a)
  }

  lemma OneRec(s: Regions, r: Rec, a: int, p: Place)
    requires Proper(s) && r in s && Inside(r, a)
    ensures MapsAt(s, a, p) <==> p == PlaceIn(r, a)
  {
    if MapsAt(s, a, p) {
      var q :| q in s && Inside(q, a) && PlaceIn(q, a) == p;
      assert q == r || ApartRecs(q, r);
    }
  }

  lemma AboveIs(s: Regions, x: Rec, a: int)
    requires Proper(s)
    ensures AreasAbove(s, x) == {} ==> !AboveAt(s, x, a)
    ensures forall w :: w in AreasAbove(s, x) ==> (AboveAt(s, x, a) <==> Inside(w, a))
  {
    forall w | w in AreasAbove(s, x)
      ensures AboveAt(s, x, a) <==> Inside(w, a)
    {
      OneNeighbour(s, x, w);
      assert forall q :: q in s && JoinsAbove(q, x) ==> q in AreasAbove(s, x);
    }
    assert forall q :: q in s && JoinsAbove(q, x) ==> q in AreasAbove(s, x);
  }

  /** The address is mapped, and at no place where it was. */
  ghost predicate Moved(s: Regions, t: Regions, a: int) {
    (exists p :: MapsAt(s, a, p)) && (exists p :: MapsAt(t, a, p)) && !exists p :: MapsAt(s, a, p) && MapsAt(t, a, p)
  }

  /** Within the new record an address keeps its place if and only if the new record has the place that the old one had. */
  lemma PlacesAgree(s: Regions, x: Rec, gone: Regions, new_: Rec, g: Rec, a: int)
    requires Merged(s, x) == s - gone + {new_} && gone <= s && TakesOver(gone, new_, x) && Proper(Merged(s, x)) && Proper(s)
    requires g in s && Inside(g, a) && Inside(new_, a)
    ensures PlaceIn(new_, a) == PlaceIn(g, a) ==> forall p :: MapsAt(Merged(s, x), a, p) <==> MapsAt(s, a, p)
    ensures PlaceIn(new_, a) != PlaceIn(g, a) ==> Moved(s, Merged(s, x), a)
  {
    hide Merged, MapsAt, TakesOver, Proper, PlaceIn;
    forall p
      ensures MapsAt(Merged(s, x), a, p) <==> PlaceIn(new_, a) == p
      ensures MapsAt(s, a, p) <==> p == PlaceIn(g, a)
    {
      MergedAt(s, x, gone, new_, a, p);
      OneRec(s, g, a, p);
    }
    assert MapsAt(s, a, PlaceIn(g, a)) && MapsAt(Merged(s, x), a, PlaceIn(new_, a));
  }

  /** A merge moves the places in its file of just the area above the new range. */
  lemma MergedPlaces(s: Regions, x: Rec, a: int)
    requires Proper(s) && ProperRec(x) && (forall r :: r in s ==> ApartRecs(r, x)) && !Inside(x, a)
    ensures !AboveAt(s, x, a) ==> forall p :: MapsAt(Merged(s, x), a, p) <==> MapsAt(s, a, p)
    ensures AboveAt(s, x, a) ==> Moved(s, Merged(s, x), a)
  {
    hide Merged, Proper, MapsAt, AboveAt, TakesOver, ProperRec, Moved, Pages, PlaceIn;
    MergedProper(s, x);
    AboveIs(s, x, a);
    var gone, new_ := MergedTakesOver(s, x);
    if !Inside(new_, a) {
      forall p
        ensures MapsAt(Merged(s, x), a, p) <==> MapsAt(s, a, p)
      {
        MergedAt(s, x, gone, new_, a, p);
      }
    }
    match WayIn(s, x)
    case Alone =>
    case Up =>
      var u :| u in s && JoinsBelow(u, x) && gone == {u} && new_ == GrowUp(u, x);
      if Inside(new_, a) {
        UpStays(u, x, a);
        PlacesAgree(s, x, gone, new_, u, a);
      }
    case Down =>
      var w :| w in s && JoinsAbove(w, x) && gone == {w} && new_ == GrowDown(w, x);
      Lengths(s, w, x);
      assert w in AreasAbove(s, x);
      if Inside(new_, a) {
        DownShifts(w, x, a);
        PlacesAgree(s, x, gone, new_, w, a);
      }
    case Both =>
      var u, w :| u in s && w in s && JoinsBelow(u, x) && JoinsAbove(w, x) && gone == {u, w} && new_ == GrowUp(u, w);
      Lengths(s, u, x);
      assert w in AreasAbove(s, x);
      if Inside(new_, a) {
        BothShift(u, w, x, a);
        PlacesAgree(s, x, gone, new_, if a < x.start then u else w, a);
      }
  }

  lemma UpStays(u: Rec, x: Rec, a: int)
    requires u.end == x.start && Inside(GrowUp(u, x), a) && !Inside(x, a)
    ensures Inside(u, a) && PlaceIn(GrowUp(u, x), a) == PlaceIn(u, a)
  {
  }

  /** What is merged from above alone goes back in its file by the length of the range, less that in pages. */
  lemma DownShifts(w: Rec, x: Rec, a: int)
    requires JoinsAbove(w, x) && Pages(x.file, x.end - x.start) < x.end - x.start && Inside(GrowDown(w, x), a) && !Inside(x, a)
    ensures Inside(w, a) && PlaceIn(GrowDown(w, x), a) != PlaceIn(w, a)
  {
    assert PlaceIn(GrowDown(w, x), a).offset == PlaceIn(w, a).offset - Pages(x.file, x.end - x.start) + (x.end - x.start);
  }

  /** Of two that become one the lower stays in place, and the upper is shifted. */
  lemma BothShift(u: Rec, w: Rec, x: Rec, a: int)
    requires JoinsBelow(u, x) && JoinsAbove(w, x) && Inside(GrowUp(u, w), a) && !Inside(x, a)
    requires Pages(x.file, x.end - x.start) < x.end - x.start && Pages(x.file, u.end - u.start) < u.end - u.start
    ensures a < x.start ==> Inside(u, a) && !Inside(w, a) && PlaceIn(GrowUp(u, w), a) == PlaceIn(u, a)
    ensures a >= x.start ==> Inside(w, a) && PlaceIn(GrowUp(u, w), a) != PlaceIn(w, a)
  {
    assert PlaceIn(GrowUp(u, w), a).offset == u.offset + (a - u.start);
  }

  /** Ranges in pages are shorter than in bytes. */
  lemma Lengths(s: Regions, r: Rec, x: Rec)
    requires Proper(s) && ProperRec(x) && r in s
    ensures x.start < x.end && r.start < r.end
    ensures Pages(x.file, x.end - x.start) < x.end - x.start && Pages(x.file, r.end - r.start) < r.end - r.start
  {
  }

  /** The new range has the place that was asked for if and only if no area below is joined, and one above is of one protection and file. */
  ghost predicate AsAsked(s: Regions, x: Rec) {
    AreasBelow(s, x) == {} && forall w :: w in AreasAbove(s, x) ==> w.prot == x.prot && w.file == x.file
  }

  lemma MergedRange(s: Regions, x: Rec, a: int)
    requires Proper(s) && ProperRec(x) && (forall r :: r in s ==> ApartRecs(r, x)) && Inside(x, a)
    ensures MapsAt(Merged(s, x), a, PlaceIn(x, a)) <==> AsAsked(s, x)
  {
    hide Merged, Proper, MapsAt, TakesOver, ProperRec;
    MergedProper(s, x);
    var gone, new_ := MergedTakesOver(s, x);
    MergedInside(gone, new_, x, a);
    MergedAt(s, x, gone, new_, a, PlaceIn(x, a));
    match WayIn(s, x)
    case Alone =>
    case Up =>
      var u :| u in s && JoinsBelow(u, x) && gone == {u} && new_ == GrowUp(u, x);
      Lengths(s, u, x);
    case Down =>
      var w :| w in s && JoinsAbove(w, x) && gone == {w} && new_ == GrowDown(w, x);
      OneNeighbour(s, x, w);
    case Both =>
      var u, w :| u in s && w in s && JoinsBelow(u, x) && JoinsAbove(w, x) && gone == {u, w} && new_ == GrowUp(u, w);
      Lengths(s, u, x);
  }

  lemma MergedInside(gone: Regions, new_: Rec, x: Rec, a: int)
    requires TakesOver(gone, new_, x) && Inside(x, a)
    ensures Inside(new_, a)
  {
  }

  // ---------------------------------------------------------------- what the calls mean

  ghost function KindAt(p: Place): Kind {
    Kind(p.flags, p.file.dev, p.file.inode)
  }

  lemma KindOfPlace(s: Regions, a: int, k: Kind)
    ensures MapsKind(s, a, k) <==> exists p :: MapsAt(s, a, p) && KindAt(p) == k
  {
    if r :| r in s && Inside(r, a) && KindIn(r) == k {
      assert MapsAt(s, a, PlaceIn(r, a));
    }
  }

  lemma TrimKinds(s: Regions, lo: int, hi: int, a: int, k: Kind)
    requires lo < hi && forall q :: q in s ==> q.start < q.end
    ensures MapsKind(Trim(s, lo, hi), a, k) <==> MapsKind(s, a, k) && !(lo <= a < hi)
  {
    KindOfPlace(s, a, k);
    KindOfPlace(Trim(s, lo, hi), a, k);
    hide MapsKind, MapsAt, KindAt, Trim;
    if p :| MapsAt(s, a, p) && KindAt(p) == k {
      TrimPlaces(s, lo, hi, a, p);
    }
    if p :| MapsAt(Trim(s, lo, hi), a, p) && KindAt(p) == k {
      TrimPlaces(s, lo, hi, a, p);
    }
  }

  lemma TrimReady(s: Regions, x: Rec)
    requires Proper(s) && ProperRec(x)
    ensures Proper(Trim(s, x.start, x.end)) && forall r :: r in Trim(s, x.start, x.end) ==> ApartRecs(r, x)
  {
    hide Trim;
    TrimProper(s, x.start, x.end);
  }

  /** Exactly the new range has the new kind, whatever was there, and every other address the kind it had. */
  lemma RemapKinds(s: Regions, x: Rec, a: int, k: Kind)
    requires Proper(s) && ProperRec(x)
    ensures MapsKind(Remap(s, x), a, k) <==> if Inside(x, a) then k == KindIn(x) else MapsKind(s, a, k)
  {
    hide MapsKind, Trim, Merged;
    TrimReady(s, x);
    MergedKinds(Trim(s, x.start, x.end), x, a, k);
    TrimKinds(s, x.start, x.end, a, k);
  }

  /** Only areas of one file and the same flags are ever joined: wherever a merge moves a place, these stay. */
  lemma RemapFiles(s: Regions, x: Rec, a: int, p: Place)
    requires Proper(s) && ProperRec(x) && MapsAt(Remap(s, x), a, p)
    ensures Inside(x, a) ==> p.flags == x.flags && p.file.dev == x.file.dev && p.file.inode == x.file.inode
    ensures !Inside(x, a) ==>
              exists q :: MapsAt(s, a, q) && q.flags == p.flags && q.file.dev == p.file.dev && q.file.inode == p.file.inode
  {
    hide MapsAt, MapsKind, Remap;
    KindOfPlace(Remap(s, x), a, KindAt(p));
    RemapKinds(s, x, a, KindAt(p));
    KindOfPlace(s, a, KindAt(p));
  }

  lemma RemapProper(s: Regions, x: Rec)
    requires Proper(s) && ProperRec(x)
    ensures Proper(Remap(s, x))
  {
    hide Trim, Merged;
    TrimReady(s, x);
    MergedProper(Trim(s, x.start, x.end), x);
  }

  /** The address belongs to an area that reaches down to the end of the new range and is merged with it. */
  ghost predicate Shifts(s: Regions, x: Rec, a: int) {
    exists w :: w in s && ReachesDown(w, x) && x.end <= a < w.end
  }

  lemma ShiftsTrim(s: Regions, x: Rec, a: int)
    requires Proper(s) && x.start < x.end && !Inside(x, a)
    ensures AboveAt(Trim(s, x.start, x.end), x, a) <==> Shifts(s, x, a)
  {
    hide Trim;
    var t := Trim(s, x.start, x.end);
    if w :| w in s && ReachesDown(w, x) && x.end <= a < w.end {
      var r := AboveFrom(s, x, w);
      assert Inside(r, a);
    }
    if r :| r in t && JoinsAbove(r, x) && Inside(r, a) {
      var w := AboveOf(s, x, r);
    }
  }

  /**
     An address outside the new range keeps protection, flags, file and place in its file if and only if no area
     that is merged from above has it; else it is at no place where it was.
   */
  lemma RemapPlaces(s: Regions, x: Rec, a: int)
    requires Proper(s) && ProperRec(x) && !Inside(x, a)
    ensures (forall p :: MapsAt(Remap(s, x), a, p) <==> MapsAt(s, a, p)) <==> !Shifts(s, x, a)
    ensures Shifts(s, x, a) ==> Moved(s, Remap(s, x), a)
  {
    hide MapsAt, Trim, Merged, AboveAt, Shifts;
    TrimReady(s, x);
    MergedPlaces(Trim(s, x.start, x.end), x, a);
    ShiftsTrim(s, x, a);
    forall p
      ensures MapsAt(Trim(s, x.start, x.end), a, p) <==> MapsAt(s, a, p)
    {
      TrimPlaces(s, x.start, x.end, a, p);
    }
  }

  /** All addresses outside the new range keep their places if and only if no area is merged from above. */
  lemma AllPlaces(s: Regions, x: Rec)
    requires Proper(s) && ProperRec(x)
    ensures (forall a, p :: !Inside(x, a) ==> (MapsAt(Remap(s, x), a, p) <==> MapsAt(s, a, p))) <==>
            !exists w :: w in s && ReachesDown(w, x)
  {
    hide MapsAt, Remap;
    forall a | !Inside(x, a)
      ensures (forall p :: MapsAt(Remap(s, x), a, p) <==> MapsAt(s, a, p)) <==> !Shifts(s, x, a)
    {
      RemapPlaces(s, x, a);
    }
    if w :| w in s && ReachesDown(w, x) {
      assert !Inside(x, x.end) && Shifts(s, x, x.end);
    }
  }

  /** Sixteen megabytes of a file are mapped below its second page: that page is then read as if it were far behind. */
  lemma ShiftExists(prot: bv64, flags: bv64)
    ensures var file := VmFile(3, 1, 1);
      var w, x := Rec(0x200_0000, 0x200_1000, prot, flags, file, 0x1000), Rec(0x100_0000, 0x200_0000, prot, flags, file, 0);
      && Proper({w}) && ProperRec(x) && Shifts({w}, x, 0x200_0000) && Moved({w}, Remap({w}, x), 0x200_0000)
      && MapsAt({w}, 0x200_0000, Place(prot, flags, file, 0x1000)) && !MapsAt(Remap({w}, x), 0x200_0000, Place(prot, flags, file, 0x1000))
  {
    hide Remap;
    var file := VmFile(3, 1, 1);
    var w, x := Rec(0x200_0000, 0x200_1000, prot, flags, file, 0x1000), Rec(0x100_0000, 0x200_0000, prot, flags, file, 0);
    assert ReachesDown(w, x);
    RemapPlaces({w}, x, 0x200_0000);
    assert w in {w} && PlaceIn(w, 0x200_0000) == Place(prot, flags, file, 0x1000);
  }

  /**
     The new range has the protection, file and place that were asked for if and only if nothing is merged from below,
     and what is merged from above has that protection and file.
     */
  lemma RemapRange(s: Regions, x: Rec, a: int)
    requires Proper(s) && ProperRec(x) && Inside(x, a)
    ensures MapsAt(Remap(s, x), a, PlaceIn(x, a)) <==>
            && (!exists u :: u in s && ReachesUp(u, x))
            && (forall w :: w in s && ReachesDown(w, x) ==> w.prot == x.prot && w.file == x.file)
  {
    hide MapsAt, Trim, Merged;
    TrimReady(s, x);
    MergedRange(Trim(s, x.start, x.end), x, a);
    BelowTrim(s, x);
    AboveAgrees(s, x);
  }

  lemma AboveAgrees(s: Regions, x: Rec)
    requires Proper(s) && x.start < x.end
    ensures (forall w :: w in AreasAbove(Trim(s, x.start, x.end), x) ==> w.prot == x.prot && w.file == x.file) <==>
            (forall w :: w in s && ReachesDown(w, x) ==> w.prot == x.prot && w.file == x.file)
  {
    hide Trim, JoinsAbove, ReachesDown;
    var t := Trim(s, x.start, x.end);
    forall w | w in s && ReachesDown(w, x)
      ensures exists r :: r in AreasAbove(t, x) && r.prot == w.prot && r.file == w.file
    {
      var r := AboveFrom(s, x, w);
      assert r in AreasAbove(t, x);
    }
    forall r | r in AreasAbove(t, x)
      ensures exists w :: w in s && ReachesDown(w, x) && r.prot == w.prot && r.file == w.file
    {
      var w := AboveOf(s, x, r);
    }
  }

  // ---------------------------------------------------------------- offsets do not wrap

  /** No offset is negative, or more than `b` beyond the start of its record. */
  ghost predicate Tame(s: Regions, b: int) {
    forall r :: r in s ==> 0 <= r.offset <= b + r.start
  }

  lemma TrimTame(s: Regions, lo: int, hi: int, b: int)
    requires lo < hi && Proper(s) && Tame(s, b)
    ensures Tame(Trim(s, lo, hi), b)
  {
    hide Trim;
    forall r | r in Trim(s, lo, hi)
      ensures 0 <= r.offset <= b + r.start
    {
      var q := InTrimFrom(s, lo, hi, r);
    }
  }

  lemma RemapTame(s: Regions, x: Rec, b: int)
    requires Proper(s) && ProperRec(x) && Tame(s, b) && 0 <= x.offset <= b + x.start
    ensures Tame(Remap(s, x), b)
  {
    hide Trim, Merged, WayIn;
    var t := Trim(s, x.start, x.end);
    TrimTame(s, x.start, x.end, b);
    TrimProper(s, x.start, x.end);
    var gone, new_ := MergedIs(t, x);
    match WayIn(t, x)
    case Alone =>
    case Up =>
      var u :| u in t && JoinsBelow(u, x) && gone == {u} && new_ == GrowUp(u, x);
    case Down =>
      var w :| w in t && JoinsAbove(w, x) && gone == {w} && new_ == GrowDown(w, x);
    case Both =>
      var u, w :| u in t && w in t && JoinsBelow(u, x) && JoinsAbove(w, x) && gone == {u, w} && new_ == GrowUp(u, w);
  }

  // ---------------------------------------------------------------- pages

  lemma PageOfKind(s: Regions, p: int)
    requires Proper(s)
    ensures HasPage(s, p) <==> exists k :: MapsKind(s, p * PAGE_SIZE, k)
  {
    if r :| r in s && PageIn(r, p) {
      assert Inside(r, p * PAGE_SIZE);
      assert MapsKind(s, p * PAGE_SIZE, KindIn(r));
    }
    if k :| MapsKind(s, p * PAGE_SIZE, k) {
      var r :| r in s && Inside(r, p * PAGE_SIZE) && KindIn(r) == k;
      assert PageIn(r, p);
    }
  }

  lemma TrimPages(s: Regions, lo: int, hi: int, p: int)
    requires Proper(s) && lo < hi && Aligned(lo) && Aligned(hi)
    ensures HasPage(Trim(s, lo, hi), p) <==> HasPage(s, p) && !(PageOf(lo) <= p < PageOf(hi))
  {
    TrimProper(s, lo, hi);
    PageOfKind(s, p);
    PageOfKind(Trim(s, lo, hi), p);
    hide MapsKind, Trim, HasPage, Proper;
    if k :| MapsKind(s, p * PAGE_SIZE, k) {
      TrimKinds(s, lo, hi, p * PAGE_SIZE, k);
    }
    if k :| MapsKind(Trim(s, lo, hi), p * PAGE_SIZE, k) {
      TrimKinds(s, lo, hi, p * PAGE_SIZE, k);
    }
  }

  /** A merge gives the areas the pages of the range, and no others. */
  lemma MergedPages(s: Regions, x: Rec, p: int)
    requires Proper(s) && ProperRec(x)
    ensures HasPage(Merged(s, x), p) <==> HasPage(s, p) || PageIn(x, p)
  {
    hide Merged, WayIn, Proper;
    var gone, new_ := MergedTakesOver(s, x);
    var t := Merged(s, x);
    if PageIn(x, p) { assert new_ in t && PageIn(new_, p); }
    if r :| r in s && PageIn(r, p) {
      var q := if r in gone then new_ else r;
      assert q in t && PageIn(q, p);
    }
    if r :| r in t && PageIn(r, p) && r !in s {
      assert r == new_ && Inside(new_, p * PAGE_SIZE);
      PagesOfTaken(s, gone, new_, x, p);
    }
  }

  lemma PagesOfTaken(s: Regions, gone: Regions, new_: Rec, x: Rec, p: int)
    requires TakesOver(gone, new_, x) && Inside(new_, p * PAGE_SIZE) && Proper(s) && gone <= s && ProperRec(x)
    ensures PageIn(x, p) || HasPage(s, p)
  {
    if !Inside(x, p * PAGE_SIZE) {
      var g :| g in gone && Inside(g, p * PAGE_SIZE);
      assert PageIn(g, p);
    }
  }

  // ---------------------------------------------------------------- a bridge

  /** Two pages of the heap kind with a page between them that is mapped alike. */
  lemma BridgeExists(prot: bv64, flags: bv64)
    ensures var u, w, x := Rec(0x1000, 0x2000, prot, flags, NO_FILE, 0), Rec(0x3000, 0x4000, prot, flags, NO_FILE, 0),
                           Rec(0x2000, 0x3000, prot, flags, NO_FILE, 0);
      Proper({u, w}) && ProperRec(x) && Bridges({u, w}, x) && Remap({u, w}, x) == {u.(end := 0x4000)}
  {
    var u, w, x := Rec(0x1000, 0x2000, prot, flags, NO_FILE, 0), Rec(0x3000, 0x4000, prot, flags, NO_FILE, 0),
                   Rec(0x2000, 0x3000, prot, flags, NO_FILE, 0);
    hide Trim, AreasBelow, AreasAbove, ReachesUp, ReachesDown;
    ReachBoth(u, w, x);
    TrimNothing({u, w}, x.start, x.end);
    OneNeighbour({u, w}, x, u);
    OneNeighbour({u, w}, x, w);
  }

  lemma ReachBoth(u: Rec, w: Rec, x: Rec)
    requires JoinsBelow(u, x) && JoinsAbove(w, x) && u.start < u.end && w.start < w.end
    ensures ReachesUp(u, x) && ReachesDown(w, x)
    ensures u in AreasBelow({u, w}, x) && w in AreasAbove({u, w}, x)
  {
  }
}
