/**
 What the guest reads: contents by page beside the records of the areas, and what cutting a range out and mapping
 one anew make of them.
 */
module Contents {
  import opened HostMemory
  import opened Regions
  import opened AreaHosting

  /** The page of its file that a record shows at page `p`. */
  ghost function FileAt(h: Host, r: Rec, p: int): Page {
    h.FilePage(r.file, r.offset, PageOf(r.start), p)
  }

  /** It is the page at the byte offset that the page's address has as its place. */
  lemma FilePlace(h: Host, r: Rec, p: int)
    requires Aligned(r.start)
    ensures FileAt(h, r, p) == h.files(r.file, PlaceIn(r, p * 4096).offset)
  {
  }

  // ---------------------------------------------------------------- cutting a range out

  /** The record shows a file and lies across one of the cuts. */
  ghost predicate CutFile(r: Rec, cuts: set<int>) {
    r.file.fd != -1 && exists c :: c in cuts && Straddles(r, c)
  }

  /** The file mapping that has page `p` and that an end of the range cuts. */
  ghost predicate ReRead(s: Regions, r: Rec, p: int, lo: int, hi: int) {
    r in s && PageIn(r, p) && CutFile(r, {lo, hi})
  }

  /** The contents that remain: pages of a file mapping that is cut are read from the file again. */
  ghost function Trimmed(h: Host, s: Regions, c: Image, lo: int, hi: int): (d: Image)
    ensures forall p :: p in d <==> p in c && !(PageOf(lo) <= p < PageOf(hi))
  {
    map p | p in c && !(PageOf(lo) <= p < PageOf(hi)) ::
      if exists r :: ReRead(s, r, p, lo, hi) then var r :| ReRead(s, r, p, lo, hi); FileAt(h, r, p) else c[p]
  }

  lemma OnePage(s: Regions, r: Rec, q: Rec, p: int)
    requires Proper(s) && r in s && q in s && PageIn(r, p) && PageIn(q, p)
    ensures r == q
  {
    assert ProperRec(r) && ProperRec(q) && (r == q || ApartRecs(r, q));
  }

  lemma TrimmedAt(h: Host, s: Regions, c: Image, lo: int, hi: int, p: int)
    requires Proper(s) && p in Trimmed(h, s, c, lo, hi)
    ensures forall r :: ReRead(s, r, p, lo, hi) ==> Trimmed(h, s, c, lo, hi)[p] == FileAt(h, r, p)
    ensures (forall r :: !ReRead(s, r, p, lo, hi)) ==> Trimmed(h, s, c, lo, hi)[p] == c[p]
  {
    hide Proper, CutFile, FileAt;
    forall r, q | ReRead(s, r, p, lo, hi) && ReRead(s, q, p, lo, hi)
      ensures r == q
    {
      OnePage(s, r, q, p);
    }
  }

  // ---------------------------------------------------------------- mapping anew

  ghost function PagesOf(x: Rec): set<int> {
    set p | PageOf(x.start) <= p < PageOf(x.end) && PageIn(x, p)
  }

  /** The record that has the new range, if it shows a file. */
  ghost predicate NewFile(t: Regions, x: Rec, r: Rec, p: int) {
    r in t && r.start <= x.start && x.end <= r.end && PageIn(r, p) && r.file.fd != -1
  }

  /** Page `p` is of an area that a merge on both sides swallows. */
  ghost predicate Swallowed(s: Regions, x: Rec, p: int) {
    WayIn(s, x) == Both && exists w :: w in AreasAbove(s, x) && PageIn(w, p)
  }

  /**
   The contents when the free range of `x` has been mapped: a file that has the range is read from again, as far as
   its mapping goes, and without one the range is zero. What a merge on both sides swallows can no longer be read.
   */
  ghost function Filled(h: Host, s: Regions, c: Image, x: Rec): (d: Image)
    ensures forall p :: p in d <==> (p in c || PageIn(x, p)) && !Swallowed(s, x, p)
  {
    map p | p in c.Keys + PagesOf(x) && !Swallowed(s, x, p) ::
      if exists r :: NewFile(Merged(s, x), x, r, p) then var r :| NewFile(Merged(s, x), x, r, p); FileAt(h, r, p)
      else if PageIn(x, p) then h.Zero()
      else c[p]
  }

  /** In terms of the record that has the range. */
  lemma FilledAt(h: Host, s: Regions, c: Image, x: Rec, n: Rec, p: int)
    requires Proper(Merged(s, x)) && x.start < x.end && n in Merged(s, x) && n.start <= x.start && x.end <= n.end
    requires p in Filled(h, s, c, x)
    ensures Filled(h, s, c, x)[p] ==
            if PageIn(n, p) && n.file.fd != -1 then FileAt(h, n, p) else if PageIn(x, p) then h.Zero() else c[p]
  {
    hide Merged, FileAt, Swallowed;
    forall r | NewFile(Merged(s, x), x, r, p)
      ensures r == n
    {
      assert r == n || ApartRecs(r, n);
    }
    if PageIn(n, p) && n.file.fd != -1 { assert NewFile(Merged(s, x), x, n, p); }
  }

  /** The contents when the range of `x` has been cleared and mapped. */
  ghost function Remapped(h: Host, s: Regions, c: Image, x: Rec): Image {
    Filled(h, Trim(s, x.start, x.end), Trimmed(h, s, c, x.start, x.end), x)
  }

  // ---------------------------------------------------------------- which pages change

  /** What is left of a record shows the same pages of the file. */
  lemma LeavesFile(h: Host, q: Rec, r: Rec, lo: int, hi: int, p: int)
    requires Leaves(q, r, lo, hi) && Aligned(q.start) && Aligned(lo) && Aligned(hi) && q.start < q.end && lo < hi && PageIn(r, p)
    ensures PageIn(q, p) && q.file == r.file && FileAt(h, q, p) == FileAt(h, r, p)
  {
  }

  /** A page that is left shows the file at its place if its mapping has been cut, and else what it did. */
  lemma TrimmedShows(h: Host, s: Regions, c: Image, lo: int, hi: int, n: Rec, p: int)
    requires Proper(s) && lo < hi && Aligned(lo) && Aligned(hi) && n in Trim(s, lo, hi) && PageIn(n, p) && p in Trimmed(h, s, c, lo, hi)
    ensures Trimmed(h, s, c, lo, hi)[p] == if exists r :: ReRead(s, r, p, lo, hi) then FileAt(h, n, p) else c[p]
  {
    hide Trim, Leaves, PageIn, CutFile, FileAt, Trimmed;
    var q := InTrimFrom(s, lo, hi, n);
    LeavesFile(h, q, n, lo, hi, p);
    TrimmedAt(h, s, c, lo, hi, p);
    if r :| ReRead(s, r, p, lo, hi) { OnePage(s, r, q, p); }
  }

  /** A page beside the new range: it shows the file anew if its mapping is a file's and grows. */
  lemma FilledBeside(h: Host, t: Regions, c: Image, x: Rec, g: Rec, n: Rec, p: int)
    requires Proper(t) && ProperRec(x) && (forall r :: r in t ==> ApartRecs(r, x))
    requires g in t && PageIn(g, p) && n in Merged(t, x) && PageIn(n, p) && !PageIn(x, p) && p in Filled(h, t, c, x)
    ensures JoinsBelow(g, x) || JoinsAbove(g, x) ==> n.file == g.file && Filled(h, t, c, x)[p] == if g.file.fd != -1 then FileAt(h, n, p) else c[p]
    ensures !JoinsBelow(g, x) && !JoinsAbove(g, x) ==> n == g && Filled(h, t, c, x)[p] == c[p]
  {
    hide Merged, WayIn, Filled, FileAt, JoinsBelow, JoinsAbove, KindIn;
    MergedProper(t, x);
    var gone, new_ := MergedTakesOver(t, x);
    FilledAt(h, t, c, x, new_, p);
    GoneJoins(t, x, gone, new_, g, p);
    if g in gone { OnePage(Merged(t, x), n, new_, p); } else { OnePage(Merged(t, x), n, g, p); }
  }

  /** What a merge takes over is what joins the range, and all but what is swallowed is of one file. */
  lemma GoneJoins(t: Regions, x: Rec, gone: Regions, new_: Rec, g: Rec, p: int)
    requires Proper(t) && g in t && PageIn(g, p) && !Swallowed(t, x, p)
    requires match WayIn(t, x)
             case Alone => gone == {} && new_ == x
             case Up => exists u :: u in t && JoinsBelow(u, x) && gone == {u} && new_ == GrowUp(u, x)
             case Down => exists w :: w in t && JoinsAbove(w, x) && gone == {w} && new_ == GrowDown(w, x)
             case Both => exists u, w :: u in t && w in t && JoinsBelow(u, x) && JoinsAbove(w, x) && gone == {u, w} && new_ == GrowUp(u, w)
    ensures g in gone <==> JoinsBelow(g, x) || JoinsAbove(g, x)
    ensures g in gone ==> new_.file == g.file
  {
    hide Proper, JoinsBelow, JoinsAbove;
    OneNeighbour(t, x, g);
    if JoinsBelow(g, x) { assert g in AreasBelow(t, x); }
    if JoinsAbove(g, x) { assert g in AreasAbove(t, x); }
    match WayIn(t, x)
    case Alone =>
    case Up =>
      var u :| u in t && JoinsBelow(u, x) && gone == {u} && new_ == GrowUp(u, x);
      assert u in AreasBelow(t, x);
    case Down =>
      var w :| w in t && JoinsAbove(w, x) && gone == {w} && new_ == GrowDown(w, x);
      assert w in AreasAbove(t, x);
    case Both =>
      var u, w :| u in t && w in t && JoinsBelow(u, x) && JoinsAbove(w, x) && gone == {u, w} && new_ == GrowUp(u, w);
      assert u in AreasBelow(t, x) && w in AreasAbove(t, x);
  }

  /** The file mapping that has page `p` and that mapping the range of `x` cuts or makes longer. */
  ghost predicate Renewed(s: Regions, x: Rec, r: Rec, p: int) {
    && r in s && PageIn(r, p) && r.file.fd != -1
    && (Straddles(r, x.start) || Straddles(r, x.end) || ReachesUp(r, x) || ReachesDown(r, x))
  }

  lemma RenewedIs(s: Regions, x: Rec, q: Rec, g: Rec, p: int)
    requires Proper(s) && ProperRec(x) && q in s && PageIn(q, p) && Leaves(q, g, x.start, x.end)
    ensures (exists r :: ReRead(s, r, p, x.start, x.end)) <==> q.file.fd != -1 && (Straddles(q, x.start) || Straddles(q, x.end))
    ensures (exists r :: Renewed(s, x, r, p)) <==>
            q.file.fd != -1 && (Straddles(q, x.start) || Straddles(q, x.end) || JoinsBelow(g, x) || JoinsAbove(g, x))
  {
    hide Proper, KindIn, Pages;
    forall r | r in s && PageIn(r, p)
      ensures r == q
    {
      OnePage(s, r, q, p);
    }
    if q.file.fd != -1 && (Straddles(q, x.start) || Straddles(q, x.end)) {
      assert x.start in {x.start, x.end} && x.end in {x.start, x.end};
      assert ReRead(s, q, p, x.start, x.end);
      assert Renewed(s, x, q, p);
    } else if q.file.fd != -1 {
      ReachesJoin(q, g, x);
      if JoinsBelow(g, x) || JoinsAbove(g, x) { assert Renewed(s, x, q, p); }
    }
  }

  lemma ReachesJoin(q: Rec, g: Rec, x: Rec)
    requires x.start < x.end && q.start < q.end && Leaves(q, g, x.start, x.end) && !Straddles(q, x.start) && !Straddles(q, x.end)
    ensures g == q && (ReachesUp(q, x) <==> JoinsBelow(q, x)) && (ReachesDown(q, x) <==> JoinsAbove(q, x))
  {
  }

  /**
   Once the range of `x` is mapped anew, a page of the range, or of a file mapping that this cuts or makes longer,
   shows the file where the areas now have it, or zero if they have no file there; any other page keeps its contents.
   */
  lemma RemappedAt(h: Host, s: Regions, c: Image, x: Rec, n: Rec, p: int)
    requires Proper(s) && ProperRec(x) && n in Remap(s, x) && PageIn(n, p) && p in Remapped(h, s, c, x)
    ensures Remapped(h, s, c, x)[p] ==
            if PageIn(x, p) || exists r :: Renewed(s, x, r, p) then if n.file.fd != -1 then FileAt(h, n, p) else h.Zero() else c[p]
  {
    hide Trim, Merged, Proper, FileAt, Trimmed, Filled, Swallowed, HasPage, Leaves, JoinsBelow, JoinsAbove, ReRead, Renewed;
    hide PageIn, ApartRecs;
    var t, d := Trim(s, x.start, x.end), Trimmed(h, s, c, x.start, x.end);
    TrimReady(s, x);
    MergedProper(t, x);
    if PageIn(x, p) {
      FilledInside(h, t, d, x, n, p);
    } else {
      MergedPages(t, x, p);
      var g := PageRec(Merged(t, x), t, n, p);
      FilledBeside(h, t, d, x, g, n, p);
      TrimmedShows(h, s, c, x.start, x.end, g, p);
      ProperStarts(s);
      var q := InTrimFrom(s, x.start, x.end, g);
      LeavesFile(h, q, g, x.start, x.end, p);
      RenewedIs(s, x, q, g, p);
    }
  }

  lemma ProperStarts(s: Regions)
    requires Proper(s)
    ensures forall q :: q in s ==> q.start < q.end && Aligned(q.start)
  {
  }

  lemma PageRec(u: Regions, t: Regions, n: Rec, p: int) returns (g: Rec)
    requires n in u && PageIn(n, p) && (HasPage(u, p) ==> HasPage(t, p))
    ensures g in t && PageIn(g, p)
  {
    g :| g in t && PageIn(g, p);
  }

  lemma FilledInside(h: Host, t: Regions, d: Image, x: Rec, n: Rec, p: int)
    requires Proper(t) && ProperRec(x) && Proper(Merged(t, x)) && n in Merged(t, x) && PageIn(n, p) && PageIn(x, p) && p in Filled(h, t, d, x)
    ensures Filled(h, t, d, x)[p] == if n.file.fd != -1 then FileAt(h, n, p) else h.Zero()
  {
    hide Merged, FileAt, Filled;
    var gone, new_ := MergedTakesOver(t, x);
    FilledAt(h, t, d, x, new_, p);
    OnePage(Merged(t, x), n, new_, p);
  }

  // ---------------------------------------------------------------- pages

  /** The contents are those of the pages of the areas. */
  ghost predicate Full(s: Regions, c: Image) {
    forall p :: p in c <==> HasPage(s, p)
  }

  lemma TrimmedFull(h: Host, s: Regions, c: Image, lo: int, hi: int)
    requires Proper(s) && lo < hi && Aligned(lo) && Aligned(hi) && Full(s, c)
    ensures Full(Trim(s, lo, hi), Trimmed(h, s, c, lo, hi))
  {
    hide Trim, HasPage, Proper;
    forall p
      ensures p in Trimmed(h, s, c, lo, hi) <==> HasPage(Trim(s, lo, hi), p)
    {
      TrimPages(s, lo, hi, p);
    }
  }

  lemma RemappedFull(h: Host, s: Regions, c: Image, x: Rec)
    requires Proper(s) && ProperRec(x) && Full(s, c) && !Bridges(s, x)
    ensures Full(Remap(s, x), Remapped(h, s, c, x))
  {
    hide Trim, Merged, HasPage, Proper, WayIn, Bridges;
    var t := Trim(s, x.start, x.end);
    TrimReady(s, x);
    TrimmedFull(h, s, c, x.start, x.end);
    BridgesIsBoth(s, x);
    forall p
      ensures p in Remapped(h, s, c, x) <==> HasPage(Remap(s, x), p)
    {
      MergedPages(t, x, p);
    }
  }
}
