/**
 example-program/alloc.c: `malloc` and `free` over a circular list of free blocks in the order of their addresses.
 Addresses and sizes count units of one header; what `sbrk` answers is an argument.
 */
module Alloc {
  import opened FreeList

  const HEADER := 16
  const NALLOC := 1024
  const NULL := 0
  const LIMIT := 0x1_0000_0000

  /** What an `unsigned int` holds. */
  type Units = x: int | 0 <= x < LIMIT

  // ---------------------------------------------------------------- sizes

  /** `nunits`, with the wrap of `size_t` and of `unsigned`. */
  function UnitsFor(nbytes: nat): Units {
    ((nbytes + HEADER - 1) % 0x1_0000_0000_0000_0000 / HEADER + 1) % LIMIT
  }

  /** Units of 16 bytes hold the bytes and a header, if and only if the count does not wrap; and then one less would not. */
  lemma UnitsHold(nbytes: nat)
    requires nbytes < 0x1_0000_0000_0000_0000
    ensures 16 * UnitsFor(nbytes) >= nbytes + 16 <==> nbytes <= 0xF_FFFF_FFE0
    ensures nbytes <= 0xF_FFFF_FFE0 ==> 16 * (UnitsFor(nbytes) - 1) < nbytes + 16
  {
  }

  /** The count wraps to nothing exactly for sixteen requests in every 64 gigabytes. */
  lemma NoUnits(nbytes: nat)
    requires nbytes < 0x1_0000_0000_0000_0000
    ensures UnitsFor(nbytes) == 0 <==> HEADER * (LIMIT - 2) < nbytes % (HEADER * LIMIT) <= HEADER * (LIMIT - 1)
  {
  }

  /** `morecore` asks for no less than `NALLOC` units. */
  function RegionSize(n: Units): Units {
    if n < NALLOC then NALLOC else n
  }

  /** It is the larger of the units needed and 1024. */
  lemma RegionEnough(n: Units)
    ensures RegionSize(n) >= 1024 && RegionSize(n) >= n && (RegionSize(n) == 1024 || RegionSize(n) == n)
  {
  }

  // ---------------------------------------------------------------- the ring

  function Next(i: nat, n: nat): nat {
    if i + 1 >= n then 0 else i + 1
  }

  /** The index `s` steps after `i`. */
  function Turn(i: nat, s: nat, n: nat): nat {
    if i + s < n then i + s else if i + s < n + n then i + s - n else 0
  }

  /** The headers in memory make one cycle through the blocks. */
  ghost predicate Ring(ptr: map<int, int>, size: map<int, Units>, fs: seq<Block>) {
    forall i :: 0 <= i < |fs| ==>
      fs[i].at in ptr && fs[i].at in size && size[fs[i].at] == fs[i].size && ptr[fs[i].at] == fs[Next(i, |fs|)].at
  }

  ghost predicate Listed(fs: seq<Block>, a: int) {
    exists i :: 0 <= i < |fs| && fs[i].at == a
  }

  /** The block of size 0 is in the list, no other block is empty, and none lies at `NULL`. */
  ghost predicate Based(fs: seq<Block>, base: int) {
    && (exists i :: 0 <= i < |fs| && fs[i] == Block(base, 0))
    && (forall i :: 0 <= i < |fs| ==> fs[i].at > NULL && (fs[i].at != base ==> fs[i].size > 0))
  }

  lemma TurnNext(i: nat, s: nat, n: nat)
    requires i < n && s < n
    ensures Turn(i, s, n) < n && Turn(i, s + 1, n) == Next(Turn(i, s, n), n)
  {
  }

  /** A lap passes every block. */
  lemma LapPasses(i: nat, k: nat, n: nat)
    requires i < n && k < n
    ensures exists s: nat :: s < n && Turn(i, s, n) == k
  {
    assert Turn(i, if k >= i then k - i else k + n - i, n) == k;
  }

  /** The block after which address `at` belongs: the one below, or the last one. */
  function Before(fs: seq<Block>, at: int): (k: nat)
    requires fs != []
    ensures k < |fs|
  {
    if Position(fs, at) > 0 then Position(fs, at) - 1 else |fs| - 1
  }

  /** Block `k` is the last one that starts below `a`, or the last of all if none does. */
  ghost predicate NextBelow(fs: seq<Block>, a: int, k: int)
    requires 0 <= k < |fs|
  {
    if fs[k].at < a then forall j :: 0 <= j < |fs| && fs[j].at < a ==> fs[j].at <= fs[k].at
    else forall j :: 0 <= j < |fs| ==> a <= fs[j].at <= fs[k].at
  }

  lemma BeforeIsBelow(fs: seq<Block>, b: Block)
    requires Apart(fs) && Outside(fs, b) && fs != []
    ensures NextBelow(fs, b.at, Before(fs, b.at))
  {
    hide Position;
    Around(fs, b);
    var k := Before(fs, b.at);
    forall j | 0 <= j < |fs|
      ensures j < k ==> fs[j].at < fs[k].at
    {
      if j < k { ApartAt(fs, j, k); }
    }
  }

  /** Where the search of `free` stops, at a header `p` with successor `q`. */
  predicate Stops(bp: int, p: int, q: int) {
    (bp > p && bp < q) || (p >= q && (bp > p || bp < q))
  }

  lemma StopsBefore(fs: seq<Block>, b: Block, k: nat)
    requires Apart(fs) && Outside(fs, b) && k < |fs|
    ensures Stops(b.at, fs[k].at, fs[Next(k, |fs|)].at) <==> k == Before(fs, b.at)
  {
    hide Apart, Position, Outside;
    Around(fs, b);
    OutsideSize(fs, b);
    if k + 1 < |fs| { ApartAt(fs, k, k + 1); } else if k > 0 { ApartAt(fs, 0, k); }
  }

  lemma OutsideSize(fs: seq<Block>, b: Block)
    requires Outside(fs, b)
    ensures b.size > 0 && forall i :: 0 <= i < |fs| ==> fs[i].at != b.at
  {
  }

  /** The header that the two assignments of `free` leave for the block given back and for the block before it. */
  lemma RingReturned(ptr: map<int, int>, size: map<int, Units>, fs: seq<Block>, b: Block)
    requires Apart(fs) && Outside(fs, b) && Ring(ptr, size, fs) && fs != [] && Joined(fs, b).size < LIMIT
    requires b.at in size && size[b.at] == b.size
    ensures var i := Before(fs, b.at);
      var p := fs[i].at;
      var up := b.at + b.size == ptr[p];
      && (up <==> Above(fs, b)) && (p + size[p] == b.at <==> Below(fs, b))
      && (up ==> ptr[p] in size && ptr[p] in ptr && b.size + size[ptr[p]] < LIMIT)
      && (Below(fs, b) ==> size[p] + b.size + (if up then size[ptr[p]] else 0) < LIMIT)
  {
    hide Apart, Position, Outside;
    Around(fs, b);
    var i := Before(fs, b.at);
    assert fs[i].at in ptr;
    OutsideSize(fs, b);
  }

  /** Block `bp` can be put behind block `p`: the headers that are read are there, and no sum of sizes wraps. */
  ghost predicate CanPut(ptr: map<int, int>, size: map<int, Units>, bp: int, p: int) {
    && p in ptr && p in size && bp in size && p != bp
    && (bp + size[bp] == ptr[p] ==> ptr[p] in ptr && ptr[p] in size && size[bp] + size[ptr[p]] < LIMIT)
    && (p + size[p] == bp ==> size[p] + size[bp] + (if bp + size[bp] == ptr[p] then size[ptr[p]] else 0) < LIMIT)
  }

  /** The sizes after `free` has put block `bp` behind block `p`. */
  ghost function PutSizes(ptr: map<int, int>, size: map<int, Units>, bp: int, p: int): map<int, Units>
    requires CanPut(ptr, size, bp, p)
  {
    var upper := if bp + size[bp] == ptr[p] then size[bp := size[bp] + size[ptr[p]]] else size;
    if p + upper[p] == bp then upper[p := upper[p] + upper[bp]] else upper
  }

  /** And the links. */
  ghost function PutLinks(ptr: map<int, int>, size: map<int, Units>, bp: int, p: int): map<int, int>
    requires CanPut(ptr, size, bp, p)
  {
    var upper := ptr[bp := if bp + size[bp] == ptr[p] then ptr[ptr[p]] else ptr[p]];
    upper[p := if p + size[p] == bp then upper[bp] else bp]
  }

  /** What memory has to say of the place of `b`. */
  ghost predicate Place(ptr: map<int, int>, size: map<int, Units>, fs: seq<Block>, b: Block) {
    && Apart(fs) && Outside(fs, b) && Ring(ptr, size, fs) && fs != [] && Joined(fs, b).size < LIMIT
    && b.at in size && size[b.at] == b.size && (|fs| == 1 ==> !Above(fs, b))
  }

  lemma CanPutHere(ptr: map<int, int>, size: map<int, Units>, fs: seq<Block>, b: Block)
    requires Place(ptr, size, fs, b)
    ensures CanPut(ptr, size, b.at, fs[Before(fs, b.at)].at)
  {
    hide Apart, Outside, Ring, Position, Below, Above;
    RingReturned(ptr, size, fs, b);
    RingAt(ptr, size, fs, Before(fs, b.at));
    OutsideSize(fs, b);
  }

  /** The header of block `k` of the new list is right. */
  ghost predicate PutRight(ptr: map<int, int>, size: map<int, Units>, fs: seq<Block>, b: Block, k: nat)
    requires fs != [] && CanPut(ptr, size, b.at, fs[Before(fs, b.at)].at) && k < |Returned(fs, b)|
  {
    var p, r := fs[Before(fs, b.at)].at, Returned(fs, b);
    var links, sizes := PutLinks(ptr, size, b.at, p), PutSizes(ptr, size, b.at, p);
    r[k].at in links && r[k].at in sizes && sizes[r[k].at] == r[k].size && links[r[k].at] == r[Next(k, |r|)].at
  }

  /** The list stays one cycle, in each of the four cases. */
  lemma RingPut(ptr: map<int, int>, size: map<int, Units>, fs: seq<Block>, b: Block)
    requires Place(ptr, size, fs, b)
    ensures var p := fs[Before(fs, b.at)].at;
      && CanPut(ptr, size, b.at, p)
      && Ring(PutLinks(ptr, size, b.at, p), PutSizes(ptr, size, b.at, p), Returned(fs, b))
  {
    hide Apart, Position, Outside, Spliced, Ring, PutLinks, PutSizes, Returned, Above, Below, CanPut, Place, Before;
    CanPutHere(ptr, size, fs, b);
    var p, r := fs[Before(fs, b.at)].at, Returned(fs, b);
    var links, sizes := PutLinks(ptr, size, b.at, p), PutSizes(ptr, size, b.at, p);
    forall k: nat | k < |r|
      ensures r[k].at in links && r[k].at in sizes && sizes[r[k].at] == r[k].size && links[r[k].at] == r[Next(k, |r|)].at
    {
      PutAt(ptr, size, fs, b, k);
    }
    RingIs(links, sizes, r);
  }

  lemma RingAt(ptr: map<int, int>, size: map<int, Units>, fs: seq<Block>, i: nat)
    requires Ring(ptr, size, fs) && i < |fs|
    ensures fs[i].at in ptr && fs[i].at in size && size[fs[i].at] == fs[i].size && ptr[fs[i].at] == fs[Next(i, |fs|)].at
  {
  }

  lemma RingIs(ptr: map<int, int>, size: map<int, Units>, fs: seq<Block>)
    requires forall i: nat :: i < |fs| ==>
      fs[i].at in ptr && fs[i].at in size && size[fs[i].at] == fs[i].size && ptr[fs[i].at] == fs[Next(i, |fs|)].at
    ensures Ring(ptr, size, fs)
  {
  }

  lemma PutAt(ptr: map<int, int>, size: map<int, Units>, fs: seq<Block>, b: Block, k: nat)
    requires Place(ptr, size, fs, b) && k < |Returned(fs, b)| && CanPut(ptr, size, b.at, fs[Before(fs, b.at)].at)
    ensures PutRight(ptr, size, fs, b, k)
  {
    hide Apart, Outside, Spliced, Ring, Above, Below, CanPut, Place, PutRight, Returned, Before, Position;
    var lo := From(fs, b);
    if k < lo {
      PutBelow(ptr, size, fs, b, k);
    } else if k > lo {
      PutAbove(ptr, size, fs, b, k);
    } else {
      PutHere(ptr, size, fs, b);
    }
  }

  lemma PutBelow(ptr: map<int, int>, size: map<int, Units>, fs: seq<Block>, b: Block, k: nat)
    requires Place(ptr, size, fs, b) && k < From(fs, b) && CanPut(ptr, size, b.at, fs[Before(fs, b.at)].at)
    ensures k < |Returned(fs, b)| && PutRight(ptr, size, fs, b, k)
  {
    hide Apart, Position, Outside, Spliced, Ring, Above, Below;
    RingReturned(ptr, size, fs, b);
    OutsideSize(fs, b);
    BelowIs(fs, b);
    var q := Before(fs, b.at);
    RingAt(ptr, size, fs, k);
    if k != q { AtDiffer(fs, k, q); }
  }

  lemma PutAbove(ptr: map<int, int>, size: map<int, Units>, fs: seq<Block>, b: Block, k: nat)
    requires Place(ptr, size, fs, b) && From(fs, b) < k < |Returned(fs, b)| && CanPut(ptr, size, b.at, fs[Before(fs, b.at)].at)
    ensures PutRight(ptr, size, fs, b, k)
  {
    hide Apart, Position, Outside, Spliced, Ring, Above, Below;
    RingReturned(ptr, size, fs, b);
    OutsideSize(fs, b);
    BelowIs(fs, b);
    var q, j := Before(fs, b.at), k - From(fs, b) - 1 + To(fs, b);
    RingAt(ptr, size, fs, j);
    if j != q { AtDiffer(fs, j, q); }
  }

  /** The block that comes of the one given back: it is joined to the one below, or stands by itself or with the one above. */
  lemma PutHere(ptr: map<int, int>, size: map<int, Units>, fs: seq<Block>, b: Block)
    requires Place(ptr, size, fs, b) && CanPut(ptr, size, b.at, fs[Before(fs, b.at)].at)
    ensures From(fs, b) < |Returned(fs, b)| && PutRight(ptr, size, fs, b, From(fs, b))
  {
    hide Place, CanPut, PutRight, Returned, From, Before, Below;
    if Below(fs, b) { PutJoined(ptr, size, fs, b); } else { PutBeside(ptr, size, fs, b); }
  }

  lemma PutJoined(ptr: map<int, int>, size: map<int, Units>, fs: seq<Block>, b: Block)
    requires Place(ptr, size, fs, b) && CanPut(ptr, size, b.at, fs[Before(fs, b.at)].at) && Below(fs, b)
    ensures From(fs, b) < |Returned(fs, b)| && PutRight(ptr, size, fs, b, From(fs, b))
  {
    hide Apart, Position, Outside, Spliced, Ring, Above, Below;
    RingReturned(ptr, size, fs, b);
    OutsideSize(fs, b);
    BelowIs(fs, b);
    var q, n := Before(fs, b.at), |fs|;
    RingAt(ptr, size, fs, q);
    RingAt(ptr, size, fs, Next(q, n));
    if n > 1 { AtDiffer(fs, q, Next(q, n)); }
  }

  lemma PutBeside(ptr: map<int, int>, size: map<int, Units>, fs: seq<Block>, b: Block)
    requires Place(ptr, size, fs, b) && CanPut(ptr, size, b.at, fs[Before(fs, b.at)].at) && !Below(fs, b)
    ensures From(fs, b) < |Returned(fs, b)| && PutRight(ptr, size, fs, b, From(fs, b))
  {
    hide Apart, Position, Outside, Spliced, Ring, Above, Below;
    RingReturned(ptr, size, fs, b);
    OutsideSize(fs, b);
    BelowIs(fs, b);
    var q, n := Before(fs, b.at), |fs|;
    RingAt(ptr, size, fs, q);
    RingAt(ptr, size, fs, Next(q, n));
    if n > 1 { AtDiffer(fs, q, Next(q, n)); }
  }

  lemma BelowIs(fs: seq<Block>, b: Block)
    ensures Below(fs, b) ==> Position(fs, b.at) > 0
    ensures Above(fs, b) ==> Position(fs, b.at) < |fs|
  {
  }

  lemma AtDiffer(fs: seq<Block>, i: nat, j: nat)
    requires Apart(fs) && i < |fs| && j < |fs| && i != j
    ensures fs[i].at != fs[j].at
  {
  }

  // ---------------------------------------------------------------- who has a unit

  ghost predicate LiveAt(live: map<int, nat>, u: int) {
    exists a :: a in live && a <= u < a + live[a]
  }

  ghost predicate LiveApart(live: map<int, nat>) {
    && (forall a :: a in live ==> live[a] > 0)
    && forall a: int, b: int {:trigger live[a], b in live} :: a in live && b in live && a < b ==> a + live[a] <= b
  }

  /** Every unit obtained belongs to a free block or to a live one, and to one only. */
  ghost predicate Partition(own: set<int>, fs: seq<Block>, live: map<int, nat>) {
    && (forall u :: u in own <==> Covered(fs, u) || LiveAt(live, u))
    && (forall u :: !(Covered(fs, u) && LiveAt(live, u)))
    && LiveApart(live)
  }

  /**
     What taking no units does: the block of size 0 leaves the list, or the header of the live block behind the one
     found is overwritten.
   */
  lemma NothingTaken(own: set<int>, fs: seq<Block>, live: map<int, nat>, base: int, i: nat)
    requires Apart(fs) && Based(fs, base) && Partition(own, fs, live) && i < |fs|
    ensures fs[i].size == 0 ==> !Based(Taken(fs, i, 0), base)
    ensures fs[i].size > 0 && End(fs[i]) in own ==> Piece(fs, i, 0).at in live
  {
    var e := End(fs[i]);
    if fs[i].size == 0 {
      assert fs[i].at == base;
    } else if e in own {
      assert !Covered(fs, e);
      var a: int :| a in live && a <= e < a + live[a];
      assert Covered(fs, e - 1);
    }
  }

  /** The heap is no larger than a size can say, and nothing in it touches `base`. */
  ghost predicate Placed(own: set<int>, low: int, base: int) {
    && 0 < low && base > 0 && base !in own && base - 1 !in own
    && forall u :: u in own ==> low <= u < low + LIMIT - 1
  }

  /** A region that `sbrk` may answer with. */
  ghost predicate Suits(own: set<int>, low: int, base: int, cp: int, n: nat) {
    && low <= cp && cp + n <= low + LIMIT - 1 && !(cp <= base <= cp + n)
    && forall u :: cp <= u < cp + n ==> u !in own
  }

  class Heap {
    const base: int                  // the address of the static header
    const low: int                   // where the heap can begin
    var ptr: map<int, int>           // `s.ptr` of the header at an address
    var size: map<int, Units>        // `s.size`
    var freep: int
    // Witnesses: the free blocks, the blocks that the program has, and the units obtained.
    ghost var free: seq<Block>
    ghost var live: map<int, nat>
    ghost var own: set<int>

    ghost predicate Core()
      reads this
    {
      Apart(free) && Based(free, base) && Ring(ptr, size, free) && Listed(free, freep) && freep != NULL
    }

    ghost predicate Headers()
      reads this
    {
      forall a :: a in live ==> a in size && size[a] == live[a]
    }

    ghost predicate Valid()
      reads this
    {
      && Partition(own, free, live) && Placed(own, low, base) && Headers()
      && (if freep == NULL then free == [] && live == map[] else Core())
    }

    constructor (base: int, low: int)
      requires 0 < base && 0 < low
      ensures Valid() && live == map[] && own == {} && free == [] && this.base == base && this.low == low
    {
      this.base, this.low := base, low;
      ptr, size, freep := map[], map[], NULL;
      free, live, own := [], map[], {};
    }

    /** The search of `free` for the place of a block. */
    method FindPlace(bp: int, ghost b: Block) returns (p: int)
      requires Core() && Outside(free, b) && b.at == bp && free != []
      ensures p == free[Before(free, bp)].at
    {
      hide Apart, Based, Ring, Outside, Before, Turn;
      ghost var f, n := ListedAt(free, freep), |free|;
      ghost var seen: nat := 0;
      p := freep;
      ghost var k := f;
      TurnNone(f, n);
      StartOfSearch(ptr, size, free, b, f);
      while !(bp > p && bp < ptr[p])
        invariant seen < n && k == Turn(f, seen, n) && k < n && p == free[k].at
        invariant p in ptr && ptr[p] == free[Next(k, n)].at && (Stops(bp, p, ptr[p]) <==> k == Before(free, bp))
        invariant forall s: nat :: s < seen ==> Turn(f, s, n) != Before(free, bp)
        decreases n - seen
      {
        if p >= ptr[p] && (bp > p || bp < ptr[p]) {
          break;
        }
        TurnNext(f, seen, n);
        NotYet(free, bp, f, seen);
        seen, k := seen + 1, Next(k, n);
        p := ptr[p];
        StartOfSearch(ptr, size, free, b, k);
      }
    }

    /** `free`, of a block that is not in the list. */
    method Free(ap: int)
      requires Core() && NULL < ap - 1 && ap - 1 in size && Outside(free, Block(ap - 1, size[ap - 1]))
      requires Joined(free, Block(ap - 1, size[ap - 1])).size < LIMIT && ap - 1 + size[ap - 1] != base
      modifies this`ptr, this`size, this`freep, this`free
      ensures Core() && free == Returned(old(free), Block(ap - 1, old(size)[ap - 1]))
      ensures freep == old(free)[Before(old(free), ap - 1)].at
      ensures forall a :: a in old(size) && a != ap - 1 && !Listed(old(free), a) ==> a in size && size[a] == old(size)[a]
    {
      hide Apart, Based, Ring, Outside, Before, Joined, Returned, Listed;
      var bp := ap - 1;
      ghost var b, fs := Block(bp, size[bp]), free;
      PlaceIs(ptr, size, fs, b, base);
      var p := FindPlace(bp, b);
      RingPut(ptr, size, fs, b);
      ghost var links, sizes := PutLinks(ptr, size, bp, p), PutSizes(ptr, size, bp, p);
      if bp + size[bp] == ptr[p] {
        size := size[bp := size[bp] + size[ptr[p]]];
        ptr := ptr[bp := ptr[ptr[p]]];
      } else {
        ptr := ptr[bp := ptr[p]];
      }
      if p + size[p] == bp {
        size := size[p := size[p] + size[bp]];
        ptr := ptr[p := ptr[bp]];
      } else {
        ptr := ptr[p := bp];
      }
      freep := p;
      free := Returned(fs, b);
      assert ptr == links && size == sizes;
      ReturnedApart(fs, b);
      ReturnedBased(fs, b, base);
      OthersListed(fs, b);
    }

    /** At any time the sizes of free and live blocks add up to all the units obtained. */
    lemma Balance()
      requires Valid()
      ensures |own| == Total(free) + LiveTotal(live)
    {
      hide Partition, Placed, Headers, Ring, Based, Listed;
      Conserved(own, free, live);
    }

    /** A program gives back a block that it has. */
    method Release(ap: int)
      requires Valid() && ap - 1 in live
      modifies this
      ensures Valid() && live == old(live) - {ap - 1} && own == old(own)
      ensures free == Returned(old(free), Block(ap - 1, old(live)[ap - 1]))
      ensures exists k :: 0 <= k < |old(free)| && old(free)[k].at == freep && NextBelow(old(free), ap - 1, k)
    {
      hide Apart, Based, Ring, Outside, Joined, Returned, Listed, Partition, Placed, Before;
      ghost var b, fs := Block(ap - 1, live[ap - 1]), free;
      LiveIsLoose(own, fs, live, low, base, ap - 1);
      NotListed(own, fs, live, low, base);
      Free(ap);
      BeforeIsBelow(fs, b);
      PartitionFreed(own, fs, live, ap - 1);
      live := live - {ap - 1};
    }

    /** `morecore`: a region of `RegionSize(nu)` units from address `cp` on, or -1, is what `sbrk` answers. */
    method Morecore(nu: Units, cp: int) returns (p: int)
      requires Valid() && freep != NULL && (cp == -1 || Suits(own, low, base, cp, RegionSize(nu)))
      modifies this
      ensures cp == -1 ==> p == NULL && ptr == old(ptr) && size == old(size) && freep == old(freep)
                           && free == old(free) && live == old(live) && own == old(own)
      ensures Valid() && freep != NULL
      ensures cp != -1 ==> p == freep && live == old(live) && own == old(own) + Region(cp, RegionSize(nu))
      ensures cp != -1 ==> free == Returned(old(free), Block(cp, RegionSize(nu))) && HasRoom(free, nu)
      ensures cp != -1 ==> p == old(free)[Before(old(free), cp)].at
    {
      hide Apart, Based, Ring, Outside, Joined, Returned, Listed, Partition, Placed, Suits, HasRoom, Before;
      var n := RegionSize(nu);
      if cp == -1 {
        return NULL;
      }
      ghost var fs, b := free, Block(cp, n);
      RegionIsLoose(own, fs, live, low, base, cp, n);
      NotListed(own, fs, live, low, base);
      NotLive(own, fs, live, low, base, cp, n);
      size := size[cp := n];
      RingKept(ptr, old(size), size, fs, cp);
      Free(cp + 1);
      PartitionGrown(own, fs, live, low, base, cp, n);
      own := own + Region(cp, n);
      ReturnedHasRoom(fs, b, nu);
      p := freep;
    }

    /** The first call of `malloc` makes `base` the only block. */
    method StartList() returns (prevp: int)
      requires Valid()
      modifies this
      ensures Valid() && freep != NULL && prevp == freep && freep == Entry(old(freep), base)
      ensures free == Start(old(free), base) && live == old(live) && own == old(own)
    {
      prevp := freep;
      if freep == NULL {
        freep, prevp := base, base;
        ptr, size := ptr[base := base], size[base := 0];
        free := [Block(base, 0)];
        assert free[0] == Block(base, 0) && Ring(ptr, size, free);
      }
    }

    /** The part of `malloc` that takes `n` units from a block that is large enough. */
    method Take(prevp: int, p: int, n: Units, ghost k: nat, ghost i: nat) returns (r: int)
      requires Valid() && freep != NULL && 0 < n && k < |free| && i == Next(k, |free|) && free[i].size >= n
      requires prevp == free[k].at && p == free[i].at
      modifies this
      ensures Valid() && freep == prevp && own == old(own) && r != NULL
      ensures free == Taken(old(free), i, n) && r - 1 == Piece(old(free), i, n).at
      ensures r - 1 !in old(live) && live == old(live)[r - 1 := n]
    {
      hide Apart, Based, Ring, Listed, Partition, Placed, Taken;
      ghost var fs, links, sizes, piece := free, ptr, size, Piece(free, i, n);
      RingAt(ptr, size, free, k);
      RingAt(ptr, size, free, i);
      PieceIsFree(own, fs, live, low, base, i, n);
      NotListed(own, fs, live, low, base);
      TakenRing(ptr, size, fs, k, n);
      AtListed(fs, i);
      TakenApart(fs, i, n);
      TakenBased(fs, k, n, base);
      PartitionTaken(own, fs, live, i, n);
      var q := p;
      if size[p] == n {
        ptr := ptr[prevp := ptr[p]];
      } else {
        size := size[p := size[p] - n];
        q := p + size[p];
        size := size[q := n];
      }
      freep := prevp;
      free, live := Taken(fs, i, n), live[q := n];
      return q + 1;
    }

    /**
     `malloc`. The first block after `freep` that is large enough gives its tail, or all of it; when there is
     none a region is asked for, once, and `NULL` means that there was none to be had.
     */
    method Malloc(nbytes: nat, cp: int) returns (r: int, ghost from: nat, ghost i: nat)
      requires Valid() && UnitsFor(nbytes) > 0
      requires cp == -1 || Suits(own, low, base, cp, RegionSize(UnitsFor(nbytes)))
      modifies this
      ensures Valid() && (r == NULL <==> cp == -1 && !HasRoom(Start(old(free), base), UnitsFor(nbytes)))
      ensures r == NULL ==> free == Start(old(free), base) && live == old(live)
      ensures r != NULL ==> r - 1 !in old(live) && live == old(live)[r - 1 := UnitsFor(nbytes)]
      ensures own == old(own) + if Grows(old(free), base, nbytes, cp) then Region(cp, RegionSize(UnitsFor(nbytes))) else {}
      ensures r != NULL ==> var fs := Searched(old(free), base, nbytes, cp);
        && FirstFit(fs, from, UnitsFor(nbytes), i) && free == Taken(fs, i, UnitsFor(nbytes))
        && r - 1 + UnitsFor(nbytes) == fs[i].at + fs[i].size
        && fs[from].at == Origin(old(free), old(freep), base, nbytes, cp)
        && exists k :: 0 <= k < |fs| && fs[k].at == freep && i == if k + 1 < |fs| then k + 1 else 0
      ensures r == NULL ==> freep == if old(freep) == NULL then base else old(freep)
    {
      hide Apart, Based, Ring, Partition, Placed, Taken, Returned, Suits, UnitsFor, FirstFit, Turn, HasRoom, Before, Region;
      hide Listed, TooSmall, Headers;
      i := 0;
      var nunits := UnitsFor(nbytes);
      ghost var was, entry, held := free, freep, live;
      var prevp := StartList();
      ghost var start, grown, seen := free, false, 0;
      from := ListedAt(free, freep);
      RingAt(ptr, size, free, from);
      TurnNone(from, |free|);
      NoneSeen(free, from, nunits);
      TurnNext(from, 0, |free|);
      var p := ptr[prevp];
      while true
        invariant Valid() && freep != NULL && live == held && from < |free| && free[from].at == freep && seen < |free|
        invariant Turn(from, seen, |free|) < |free| && prevp == free[Turn(from, seen, |free|)].at
        invariant Turn(from, seen + 1, |free|) == Next(Turn(from, seen, |free|), |free|) && p == free[Turn(from, seen + 1, |free|)].at
        invariant TooSmall(free, from, nunits, seen)
        invariant grown ==> cp != -1 && !HasRoom(start, nunits) && HasRoom(free, nunits)
        invariant free == if grown then Returned(start, Block(cp, RegionSize(nunits))) else start
        invariant own == old(own) + if grown then Region(cp, RegionSize(nunits)) else {}
        invariant freep == if grown then start[Before(start, cp)].at else Entry(entry, base)
        decreases !grown, |free| - seen
      {
        ghost var k := Turn(from, seen, |free|);
        RingAt(ptr, size, free, Next(k, |free|));
        if size[p] >= nunits {
          i := Next(k, |free|);
          FitIs(free, from, nunits, seen);
          ghost var fs := free;
          r := Take(prevp, p, nunits, k, i);
          assert k < |fs| && fs[k].at == freep && i == if k + 1 < |fs| then k + 1 else 0;
          return;
        }
        StillTooSmall(free, from, nunits, seen);
        if p == freep {
          LapDone(free, from, nunits, seen);
          p := Morecore(nunits, cp);
          if p == NULL {
            r := NULL;
            return;
          }
          grown, seen := true, 0;
          from := ListedAt(free, freep);
          TurnNone(from, |free|);
          NoneSeen(free, from, nunits);
        } else {
          NoLap(free, from, nunits, seen);
          seen := seen + 1;
        }
        RingAt(ptr, size, free, Turn(from, seen, |free|));
        TurnNext(from, seen, |free|);
        prevp := p;
        p := ptr[p];
      }
    }

    lemma Begun(a: int)
      requires Valid() && a in live
      ensures freep != NULL && free != []
    {
    }

    /** Of two requests the second, if it needs no new region, begins its search at the block before the one that the first took from. */
    method MallocTwice(nbytes: nat, nbytes2: nat, cp: int, cp2: int)
      returns (r: int, r2: int, ghost i: nat, ghost k: nat, ghost from2: nat, ghost i2: nat)
      requires Valid() && UnitsFor(nbytes) > 0 && UnitsFor(nbytes2) > 0
      requires cp == -1 || Suits(own, low, base, cp, RegionSize(UnitsFor(nbytes)))
      requires cp2 == -1 || Suits(own + if Grows(free, base, nbytes, cp) then Region(cp, RegionSize(UnitsFor(nbytes))) else {},
                                  low, base, cp2, RegionSize(UnitsFor(nbytes2)))
      modifies this
      ensures Valid()
      ensures r != NULL && r2 != NULL ==> var fs := Searched(old(free), base, nbytes, cp);
        && i < |fs| && k < |fs| && (i == if k + 1 < |fs| then k + 1 else 0)
        && UnitsFor(nbytes) <= fs[i].size && r - 1 + UnitsFor(nbytes) == fs[i].at + fs[i].size
        && var rest := Taken(fs, i, UnitsFor(nbytes));
        HasRoom(rest, UnitsFor(nbytes2)) ==>
          FirstFit(rest, from2, UnitsFor(nbytes2), i2) && rest[from2].at == fs[k].at
          && r2 - 1 + UnitsFor(nbytes2) == rest[i2].at + rest[i2].size
    {
      hide Apart, Based, Ring, Partition, Placed, Taken, Returned, Suits, UnitsFor, Turn, HasRoom, Before, Region, Listed, TooSmall, Headers;
      ghost var was := free;
      ghost var from;
      k, from2, i2, r2 := 0, 0, 0, NULL;
      r, from, i := Malloc(nbytes, cp);
      if r != NULL {
        ghost var fs, entry, rest := Searched(was, base, nbytes, cp), freep, free;
        k :| 0 <= k < |fs| && fs[k].at == entry && i == if k + 1 < |fs| then k + 1 else 0;
        Begun(r - 1);
        r2, from2, i2 := Malloc(nbytes2, cp2);
      }
    }
  }

  // ---------------------------------------------------------------- steps of malloc

  ghost function Region(cp: int, n: nat): set<int> {
    set u | cp <= u < cp + n && Holds(Block(cp, n), u)
  }

  ghost predicate HasRoom(fs: seq<Block>, n: nat) {
    exists i :: 0 <= i < |fs| && fs[i].size >= n
  }

  /** A region is obtained. */
  ghost predicate Grows(fs: seq<Block>, base: int, nbytes: nat, cp: int) {
    cp != -1 && !HasRoom(Start(fs, base), UnitsFor(nbytes))
  }

  /** The list in which `malloc` finds its block. */
  ghost function Searched(fs: seq<Block>, base: int, nbytes: nat, cp: int): seq<Block> {
    if Grows(fs, base, nbytes, cp) then Returned(Start(fs, base), Block(cp, RegionSize(UnitsFor(nbytes)))) else Start(fs, base)
  }

  /** The block after which the search begins. */
  ghost function Origin(fs: seq<Block>, freep: int, base: int, nbytes: nat, cp: int): int {
    if Grows(fs, base, nbytes, cp) then Start(fs, base)[Before(Start(fs, base), cp)].at else Entry(freep, base)
  }

  /** The `seen` blocks after block `from` have fewer than `n` units. */
  ghost predicate TooSmall(fs: seq<Block>, from: nat, n: nat, seen: nat) {
    forall t: nat :: 0 < t <= seen ==> Turn(from, t, |fs|) < |fs| && fs[Turn(from, t, |fs|)].size < n
  }

  /** Block `i` is the first one after block `from`, going around, that has `n` units. */
  ghost predicate FirstFit(fs: seq<Block>, from: nat, n: nat, i: nat) {
    && from < |fs| && i < |fs| && fs[i].size >= n
    && exists s: nat :: 0 < s <= |fs| && Turn(from, s, |fs|) == i && TooSmall(fs, from, n, s - 1)
  }

  lemma NoneSeen(fs: seq<Block>, from: nat, n: nat)
    ensures TooSmall(fs, from, n, 0)
  {
  }

  lemma FitIs(fs: seq<Block>, from: nat, n: nat, seen: nat)
    requires from < |fs| && seen < |fs| && TooSmall(fs, from, n, seen)
    requires Turn(from, seen + 1, |fs|) == Next(Turn(from, seen, |fs|), |fs|) && Turn(from, seen, |fs|) < |fs|
    requires fs[Turn(from, seen + 1, |fs|)].size >= n
    ensures FirstFit(fs, from, n, Next(Turn(from, seen, |fs|), |fs|)) && HasRoom(fs, n)
  {
    hide Turn, TooSmall;
    var i := Turn(from, seen + 1, |fs|);
    assert fs[i].size >= n && TooSmall(fs, from, n, seen + 1 - 1);
  }

  lemma StillTooSmall(fs: seq<Block>, from: nat, n: nat, seen: nat)
    requires TooSmall(fs, from, n, seen) && Turn(from, seen + 1, |fs|) < |fs| && fs[Turn(from, seen + 1, |fs|)].size < n
    ensures TooSmall(fs, from, n, seen + 1)
  {
    hide Turn;
  }

  /** Back at the start, no block is large enough. */
  lemma LapDone(fs: seq<Block>, from: nat, n: nat, seen: nat)
    requires Apart(fs) && from < |fs| && seen < |fs| && TooSmall(fs, from, n, seen + 1)
    requires fs[from].at == fs[Turn(from, seen + 1, |fs|)].at
    ensures !HasRoom(fs, n)
  {
    if seen + 1 < |fs| { AtDiffer(fs, from, Turn(from, seen + 1, |fs|)); }
    forall k: nat | k < |fs|
      ensures fs[k].size < n
    {
      var t := if k > from then k - from else k + |fs| - from;
      assert Turn(from, t, |fs|) == k;
    }
  }

  lemma NoLap(fs: seq<Block>, from: nat, n: nat, seen: nat)
    requires from < |fs| && seen < |fs| && fs[from].at != fs[Turn(from, seen + 1, |fs|)].at
    ensures seen + 1 < |fs|
  {
  }

  ghost function Start(fs: seq<Block>, base: int): seq<Block> {
    if fs == [] then [Block(base, 0)] else fs
  }

  function Entry(freep: int, base: int): int {
    if freep == NULL then base else freep
  }

  /** The piece taken is nobody's but the list's. */
  lemma PieceIsFree(own: set<int>, fs: seq<Block>, live: map<int, nat>, low: int, base: int, i: nat, n: nat)
    requires Partition(own, fs, live) && Placed(own, low, base) && i < |fs| && 0 < n <= fs[i].size
    ensures var a := Piece(fs, i, n).at; a !in live && NULL < a && (Apart(fs) && fs[i].size != n ==> !Listed(fs, a))
  {
    var a := Piece(fs, i, n).at;
    assert Holds(fs[i], a) && Covered(fs, a);
    assert a in live ==> LiveAt(live, a);
  }

  lemma AtListed(fs: seq<Block>, i: nat)
    requires i < |fs|
    ensures Listed(fs, fs[i].at)
  {
  }

  lemma TakenRing(ptr: map<int, int>, size: map<int, Units>, fs: seq<Block>, k: nat, n: nat)
    requires Ring(ptr, size, fs) && Apart(fs) && k < |fs| && 0 < n <= fs[Next(k, |fs|)].size
    ensures var i := Next(k, |fs|);
      && fs[k].at in ptr && fs[i].at in ptr && fs[i].at in size
      && (fs[i].size == n && |fs| > 1 ==> Ring(ptr[fs[k].at := ptr[fs[i].at]], size, Taken(fs, i, n)))
      && (fs[i].size != n ==>
            Ring(ptr, size[fs[i].at := size[fs[i].at] - n][Piece(fs, i, n).at := n], Taken(fs, i, n)))
  {
    hide Ring, Apart, Taken, Piece;
    var i := Next(k, |fs|);
    RingAt(ptr, size, fs, k);
    RingAt(ptr, size, fs, i);
    if fs[i].size == n {
      if |fs| > 1 { RemovedRing(ptr, size, fs, k, n); }
    } else {
      ShrunkRing(ptr, size, fs, i, n);
    }
  }

  lemma RemovedRing(ptr: map<int, int>, size: map<int, Units>, fs: seq<Block>, k: nat, n: nat)
    requires Ring(ptr, size, fs) && Apart(fs) && k < |fs| && 1 < |fs| && fs[Next(k, |fs|)].size == n
    requires fs[k].at in ptr && fs[Next(k, |fs|)].at in ptr
    ensures Ring(ptr[fs[k].at := ptr[fs[Next(k, |fs|)].at]], size, Taken(fs, Next(k, |fs|), n))
  {
    hide Ring, Apart;
    var i, r := Next(k, |fs|), Taken(fs, Next(k, |fs|), n);
    var links := ptr[fs[k].at := ptr[fs[i].at]];
    RingAt(ptr, size, fs, i);
    forall j: nat | j < |r|
      ensures r[j].at in links && r[j].at in size && size[r[j].at] == r[j].size && links[r[j].at] == r[Next(j, |r|)].at
    {
      var t := if j < i then j else j + 1;
      RingAt(ptr, size, fs, t);
      if t != k { AtDiffer(fs, t, k); }
    }
    RingIs(links, size, r);
  }

  lemma ShrunkRing(ptr: map<int, int>, size: map<int, Units>, fs: seq<Block>, i: nat, n: nat)
    requires Ring(ptr, size, fs) && Apart(fs) && i < |fs| && 0 < n < fs[i].size && fs[i].at in size && size[fs[i].at] == fs[i].size
    ensures Ring(ptr, size[fs[i].at := size[fs[i].at] - n][Piece(fs, i, n).at := n], Taken(fs, i, n))
  {
    hide Ring, Apart, Spliced;
    var r, a := Taken(fs, i, n), Piece(fs, i, n).at;
    var sizes := size[fs[i].at := size[fs[i].at] - n][a := n];
    forall j: nat | j < |r|
      ensures r[j].at in ptr && r[j].at in sizes && sizes[r[j].at] == r[j].size && ptr[r[j].at] == r[Next(j, |r|)].at
    {
      RingAt(ptr, size, fs, j);
      NotInside(fs, i, j, a);
      if j != i { AtDiffer(fs, i, j); }
    }
    RingIs(ptr, sizes, r);
  }

  lemma NotInside(fs: seq<Block>, i: nat, j: nat, a: int)
    requires Apart(fs) && i < |fs| && j < |fs| && fs[i].at < a < End(fs[i])
    ensures fs[j].at != a
  {
  }

  lemma TakenBased(fs: seq<Block>, k: nat, n: nat, base: int)
    requires Based(fs, base) && k < |fs| && 0 < n <= fs[Next(k, |fs|)].size
    ensures Based(Taken(fs, Next(k, |fs|), n), base) && |fs| > 1 && fs[k].at > NULL && Listed(Taken(fs, Next(k, |fs|), n), fs[k].at)
  {
    hide Spliced;
    var i, r := Next(k, |fs|), Taken(fs, Next(k, |fs|), n);
    var z :| 0 <= z < |fs| && fs[z] == Block(base, 0);
    assert z != i;
    if fs[i].size == n {
      assert r[if z < i then z else z - 1] == Block(base, 0);
      assert r[if k < i then k else k - 1].at == fs[k].at;
    } else {
      assert r[z] == Block(base, 0) && r[k].at == fs[k].at;
    }
  }

  lemma PartitionTaken(own: set<int>, fs: seq<Block>, live: map<int, nat>, i: nat, n: nat)
    requires Partition(own, fs, live) && Apart(fs) && i < |fs| && 0 < n <= fs[i].size
    ensures Partition(own, Taken(fs, i, n), live[Piece(fs, i, n).at := n])
  {
    hide Apart, Covered, Taken, LiveAt;
    var b := Piece(fs, i, n);
    forall u
      ensures Covered(Taken(fs, i, n), u) <==> Covered(fs, u) && !Holds(b, u)
      ensures Holds(b, u) ==> Covered(fs, u)
    {
      TakenCovers(fs, i, n, u);
      CoveredBy(fs, u);
    }
    assert Holds(b, b.at);
    PieceApart(fs, live, b);
    forall u
      ensures LiveAt(live[b.at := n], u) <==> LiveAt(live, u) || Holds(b, u)
    {
      LiveMore(live, b, u);
    }
  }

  /** A block of free units is apart from the live ones. */
  lemma PieceApart(fs: seq<Block>, live: map<int, nat>, b: Block)
    requires LiveApart(live) && b.size > 0
    requires forall u :: Holds(b, u) ==> Covered(fs, u)
    requires forall u :: !(Covered(fs, u) && LiveAt(live, u))
    ensures b.at !in live && LiveApart(live[b.at := b.size])
  {
    hide Covered, LiveApart;
    forall a | a in live
      ensures a + live[a] <= b.at || End(b) <= a
      ensures live[a] > 0
    {
      LivePositive(live, a);
      var u := if a >= b.at then a else b.at;
      assert Holds(b, u) && u < a + live[a] ==> LiveAt(live, u);
    }
    LiveApartMore(live, b);
  }

  lemma LivePositive(live: map<int, nat>, a: int)
    requires LiveApart(live) && a in live
    ensures live[a] > 0
  {
  }

  lemma LiveApartMore(live: map<int, nat>, b: Block)
    requires LiveApart(live) && b.size > 0 && forall a :: a in live ==> live[a] > 0 && (a + live[a] <= b.at || End(b) <= a)
    ensures b.at !in live && LiveApart(live[b.at := b.size])
  {
  }

  lemma LiveMore(live: map<int, nat>, b: Block, u: int)
    requires b.at !in live
    ensures LiveAt(live[b.at := b.size], u) <==> LiveAt(live, u) || Holds(b, u)
  {
    var now := live[b.at := b.size];
    if LiveAt(live, u) {
      var a :| a in live && a <= u < a + live[a];
      assert a in now && now[a] == live[a];
    }
    assert b.at in now;
    if LiveAt(now, u) && !Holds(b, u) {
      var a :| a in now && a <= u < a + now[a];
      assert a in live;
    }
  }

  lemma ReturnedHasRoom(fs: seq<Block>, b: Block, n: nat)
    requires n <= b.size
    ensures HasRoom(Returned(fs, b), n)
  {
    hide Spliced, Position, Below, Above;
    assert Returned(fs, b)[From(fs, b)] == Joined(fs, b);
  }

  /** A block of units that nobody has. */
  lemma Loose(fs: seq<Block>, b: Block, low: int, base: int)
    requires Apart(fs) && Based(fs, base) && b.size > 0 && low <= b.at && End(b) <= low + LIMIT - 1 && !(b.at <= base <= End(b))
    requires forall u :: Holds(b, u) ==> !Covered(fs, u)
    requires forall u :: Covered(fs, u) ==> low <= u < low + LIMIT - 1
    ensures Outside(fs, b) && Joined(fs, b).size < LIMIT
  {
    forall i | 0 <= i < |fs|
      ensures (fs[i].at < b.at && End(fs[i]) <= b.at) || End(b) <= fs[i].at
    {
      if fs[i].size > 0 {
        var u := if fs[i].at >= b.at then fs[i].at else b.at;
        if Holds(fs[i], u) { assert Covered(fs, u) && !Holds(b, u); }
      }
    }
    JoinedBounds(fs, b, low);
  }

  lemma JoinedBounds(fs: seq<Block>, b: Block, low: int)
    requires Apart(fs) && Outside(fs, b) && low <= b.at && End(b) <= low + LIMIT - 1
    requires forall u :: Covered(fs, u) ==> low <= u < low + LIMIT - 1
    ensures Joined(fs, b).size < LIMIT
  {
    hide Apart, Outside, Position, Covered;
    var c := Joined(fs, b);
    OutsideSize(fs, b);
    BelowEnd(fs, b);
    InBounds(fs, b, low, c.at);
    InBounds(fs, b, low, End(c) - 1);
  }

  lemma InBounds(fs: seq<Block>, b: Block, low: int, u: int)
    requires Apart(fs) && Outside(fs, b) && low <= b.at && End(b) <= low + LIMIT - 1
    requires forall v :: Covered(fs, v) ==> low <= v < low + LIMIT - 1
    requires Holds(Joined(fs, b), u)
    ensures low <= u < low + LIMIT - 1
  {
    hide Apart, Outside, Position, Joined;
    JoinedHolds(fs, b, u);
    if !Holds(b, u) {
      var j :| From(fs, b) <= j < To(fs, b) && Holds(fs[j], u);
      assert Covered(fs, u);
    }
  }

  lemma LiveIsLoose(own: set<int>, fs: seq<Block>, live: map<int, nat>, low: int, base: int, a: int)
    requires Partition(own, fs, live) && Placed(own, low, base) && Apart(fs) && Based(fs, base) && a in live
    ensures var b := Block(a, live[a]); Outside(fs, b) && Joined(fs, b).size < LIMIT && End(b) != base && NULL < a
  {
    hide Apart, Based, Outside, Joined, Covered;
    var b := Block(a, live[a]);
    forall u | Holds(b, u)
      ensures u in own && !Covered(fs, u)
    {
      assert LiveAt(live, u);
    }
    assert Holds(b, End(b) - 1) && Holds(b, a);
    assert Holds(b, base) ==> base in own;
    Loose(fs, b, low, base);
  }

  lemma RegionIsLoose(own: set<int>, fs: seq<Block>, live: map<int, nat>, low: int, base: int, cp: int, n: nat)
    requires Partition(own, fs, live) && Placed(own, low, base) && Apart(fs) && Based(fs, base) && n > 0 && Suits(own, low, base, cp, n)
    ensures var b := Block(cp, n); Outside(fs, b) && Joined(fs, b).size < LIMIT && End(b) != base && NULL < cp
  {
    hide Apart, Based, Outside, Joined, Covered;
    Loose(fs, Block(cp, n), low, base);
  }

  /** The headers of live blocks are not those of free ones. */
  lemma NotListed(own: set<int>, fs: seq<Block>, live: map<int, nat>, low: int, base: int)
    requires Partition(own, fs, live) && Placed(own, low, base) && Based(fs, base)
    ensures forall a :: a in live ==> !Listed(fs, a)
  {
    forall a | a in live
      ensures !Listed(fs, a)
    {
      assert LiveAt(live, a);
      if i :| 0 <= i < |fs| && fs[i].at == a {
        if a != base { assert Covered(fs, a); }
      }
    }
  }

  /** A region holds no header that is in use. */
  lemma NotLive(own: set<int>, fs: seq<Block>, live: map<int, nat>, low: int, base: int, cp: int, n: nat)
    requires Partition(own, fs, live) && Placed(own, low, base) && Based(fs, base) && n > 0 && Suits(own, low, base, cp, n)
    ensures cp !in live && !Listed(fs, cp)
  {
    if cp in live { assert LiveAt(live, cp); }
    forall i | 0 <= i < |fs|
      ensures fs[i].at != cp
    {
      if fs[i].size > 0 { assert Holds(fs[i], fs[i].at) && Covered(fs, fs[i].at); }
    }
  }

  lemma RingKept(ptr: map<int, int>, size: map<int, Units>, now: map<int, Units>, fs: seq<Block>, a: int)
    requires Ring(ptr, size, fs) && !Listed(fs, a) && a in now && now == size[a := now[a]]
    ensures Ring(ptr, now, fs)
  {
  }

  lemma PartitionFreed(own: set<int>, fs: seq<Block>, live: map<int, nat>, a: int)
    requires Partition(own, fs, live) && a in live && Apart(fs) && Outside(fs, Block(a, live[a]))
    ensures Partition(own, Returned(fs, Block(a, live[a])), live - {a})
  {
    hide Apart, Outside, Covered, Returned;
    var b := Block(a, live[a]);
    forall u
      ensures Covered(Returned(fs, b), u) <==> Covered(fs, u) || Holds(b, u)
      ensures LiveAt(live - {a}, u) <==> LiveAt(live, u) && !Holds(b, u)
    {
      ReturnedCovers(fs, b, u);
      LiveLess(live, a, u);
    }
  }

  lemma LiveLess(live: map<int, nat>, a: int, u: int)
    requires LiveApart(live) && a in live
    ensures LiveAt(live - {a}, u) <==> LiveAt(live, u) && !Holds(Block(a, live[a]), u)
    ensures Holds(Block(a, live[a]), u) ==> LiveAt(live, u)
  {
    if LiveAt(live, u) && !Holds(Block(a, live[a]), u) {
      var c :| c in live && c <= u < c + live[c];
      assert c in live - {a};
    }
    if LiveAt(live - {a}, u) {
      var c :| c in live - {a} && c <= u < c + (live - {a})[c];
      assert c in live && c != a && (live - {a})[c] == live[c];
      assert LiveAt(live, u);
      LiveOnce(live, a, c);
    }
  }

  lemma LiveOnce(live: map<int, nat>, a: int, c: int)
    requires LiveApart(live) && a in live && c in live && a != c
    ensures a + live[a] <= c || c + live[c] <= a
  {
  }

  lemma PartitionGrown(own: set<int>, fs: seq<Block>, live: map<int, nat>, low: int, base: int, cp: int, n: nat)
    requires Partition(own, fs, live) && Placed(own, low, base) && Apart(fs) && n > 0 && Suits(own, low, base, cp, n)
    requires Outside(fs, Block(cp, n))
    ensures Partition(own + Region(cp, n), Returned(fs, Block(cp, n)), live) && Placed(own + Region(cp, n), low, base)
  {
    hide Apart, Outside, Covered, Returned, LiveAt, LiveApart;
    forall u
      ensures Covered(Returned(fs, Block(cp, n)), u) <==> Covered(fs, u) || u in Region(cp, n)
    {
      ReturnedCovers(fs, Block(cp, n), u);
    }
  }

  // ---------------------------------------------------------------- steps of free

  ghost function ListedAt(fs: seq<Block>, a: int): (i: nat)
    requires Listed(fs, a)
    ensures i < |fs| && fs[i].at == a
  {
    var i :| 0 <= i < |fs| && fs[i].at == a; i
  }

  lemma TurnNone(f: nat, n: nat)
    requires f < n
    ensures Turn(f, 0, n) == f
  {
  }

  lemma StartOfSearch(ptr: map<int, int>, size: map<int, Units>, fs: seq<Block>, b: Block, k: nat)
    requires Ring(ptr, size, fs) && Apart(fs) && Outside(fs, b) && k < |fs|
    ensures var p := fs[k].at;
      p in ptr && ptr[p] == fs[Next(k, |fs|)].at && (Stops(b.at, p, ptr[p]) <==> k == Before(fs, b.at))
  {
    hide Apart, Outside, Before;
    StopsBefore(fs, b, k);
  }

  lemma NotYet(fs: seq<Block>, at: int, f: nat, seen: nat)
    requires f < |fs| && seen < |fs|
    requires forall s: nat :: s <= seen ==> Turn(f, s, |fs|) != Before(fs, at)
    ensures seen + 1 < |fs|
  {
    hide Turn, Position;
    LapPasses(f, Before(fs, at), |fs|);
  }

  lemma PlaceIs(ptr: map<int, int>, size: map<int, Units>, fs: seq<Block>, b: Block, base: int)
    requires Apart(fs) && Outside(fs, b) && Ring(ptr, size, fs) && Based(fs, base) && Joined(fs, b).size < LIMIT
    requires b.at in size && size[b.at] == b.size && End(b) != base
    ensures fs != [] && Place(ptr, size, fs, b)
  {
    hide Position, Outside, Apart, Ring;
  }

  lemma ReturnedBased(fs: seq<Block>, b: Block, base: int)
    requires Apart(fs) && Outside(fs, b) && Based(fs, base) && End(b) != base && b.at > NULL
    ensures Based(Returned(fs, b), base)
    ensures fs != [] && fs[Before(fs, b.at)].at > NULL && Listed(Returned(fs, b), fs[Before(fs, b.at)].at)
  {
    hide Position, Outside, Apart, Spliced, Below, Above;
    var r, lo, hi, q := Returned(fs, b), From(fs, b), To(fs, b), Before(fs, b.at);
    OutsideSize(fs, b);
    BelowIs(fs, b);
    BelowEnd(fs, b);
    var z :| 0 <= z < |fs| && fs[z] == Block(base, 0);
    assert !(lo <= z < hi);
    assert r[if z < lo then z else z - hi + lo + 1] == Block(base, 0);
    var k := if Below(fs, b) then lo else if q < lo then q else q - hi + lo + 1;
    assert r[k].at == fs[q].at;
  }

  lemma BelowEnd(fs: seq<Block>, b: Block)
    ensures Below(fs, b) ==> End(fs[Position(fs, b.at) - 1]) == b.at
    ensures Above(fs, b) ==> End(b) == fs[Position(fs, b.at)].at
  {
  }

  /** Only headers of the list and of the block are written. */
  lemma OthersListed(fs: seq<Block>, b: Block)
    requires fs != []
    ensures Listed(fs, fs[Before(fs, b.at)].at)
  {
  }

  // ---------------------------------------------------------------- conservation

  /** The sizes of the free blocks. */
  function Total(fs: seq<Block>): nat {
    if fs == [] then 0 else Total(fs[..|fs| - 1]) + fs[|fs| - 1].size
  }

  lemma SomeOrNone(keys: set<int>)
    ensures keys == {} || exists a :: a in keys
  {
    if forall a :: a !in keys { assert keys == {}; }
  }

  ghost function OneOf(keys: set<int>): (a: int)
    requires keys != {}
    ensures a in keys
  {
    SomeOrNone(keys);
    var a :| a in keys; a
  }

  /** The sizes of the live blocks. */
  ghost function LiveTotal(live: map<int, nat>): nat
    decreases |live|
  {
    if live.Keys == {} then 0 else var a := OneOf(live.Keys); live[a] + LiveTotal(live - {a})
  }

  lemma {:induction false} RegionCount(cp: int, n: nat)
    ensures |Region(cp, n)| == n
    decreases n
  {
    if n == 0 {
      assert Region(cp, 0) == {};
    } else {
      RegionCount(cp, n - 1);
      assert Region(cp, n) == Region(cp, n - 1) + {cp + n - 1};
    }
  }

  lemma {:induction false} FreeUnits(fs: seq<Block>) returns (units: set<int>)
    requires Apart(fs)
    ensures |units| == Total(fs) && forall u :: u in units <==> Covered(fs, u)
    decreases |fs|
  {
    if fs == [] {
      units := {};
    } else {
      var k, b := |fs| - 1, fs[|fs| - 1];
      var rest := FreeUnits(fs[..k]);
      RegionCount(b.at, b.size);
      units := rest + Region(b.at, b.size);
      forall u
        ensures u in units <==> Covered(fs, u)
        ensures !(u in rest && u in Region(b.at, b.size))
      {
        LastCovers(fs, u);
      }
      assert |units| == |rest| + |Region(b.at, b.size)| by { DisjointSizes(rest, Region(b.at, b.size)); }
    }
  }

  lemma LastCovers(fs: seq<Block>, u: int)
    requires Apart(fs) && fs != []
    ensures var k, b := |fs| - 1, fs[|fs| - 1];
      && (Covered(fs, u) <==> Covered(fs[..k], u) || Holds(b, u))
      && !(Covered(fs[..k], u) && Holds(b, u))
  {
    var k := |fs| - 1;
    if Covered(fs[..k], u) {
      var i :| 0 <= i < k && Holds(fs[..k][i], u);
      assert Holds(fs[i], u);
    }
    if Covered(fs, u) && !Holds(fs[k], u) {
      var i :| 0 <= i < |fs| && Holds(fs[i], u);
      assert Holds(fs[..k][i], u);
    }
  }

  lemma DisjointSizes(a: set<int>, b: set<int>)
    requires a !! b
    ensures |a + b| == |a| + |b|
  {
  }

  lemma {:induction false} LiveUnits(live: map<int, nat>) returns (units: set<int>)
    requires LiveApart(live)
    ensures |units| == LiveTotal(live) && forall u :: u in units <==> LiveAt(live, u)
    decreases |live|
  {
    if live.Keys == {} {
      units := {};
    } else {
      var a := OneOf(live.Keys);
      var rest := LiveUnits(live - {a});
      RegionCount(a, live[a]);
      units := rest + Region(a, live[a]);
      forall u
        ensures u in units <==> LiveAt(live, u)
        ensures !(u in rest && u in Region(a, live[a]))
      {
        LiveLess(live, a, u);
      }
      assert |units| == |rest| + |Region(a, live[a])| by { DisjointSizes(rest, Region(a, live[a])); }
    }
  }

  /** The sizes of free and live blocks add up to all that was obtained. */
  lemma Conserved(own: set<int>, fs: seq<Block>, live: map<int, nat>)
    requires Partition(own, fs, live) && Apart(fs)
    ensures |own| == Total(fs) + LiveTotal(live)
  {
    hide Covered, LiveAt, Apart, LiveApart;
    var f := FreeUnits(fs);
    var l := LiveUnits(live);
    forall u
      ensures u in own <==> u in f + l
      ensures !(u in f && u in l)
    {
      assert u in f <==> Covered(fs, u);
      assert u in l <==> LiveAt(live, u);
    }
    assert own == f + l;
    DisjointSizes(f, l);
  }
}
