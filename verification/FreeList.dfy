/**
 The free list of example-program/alloc.c as a value: blocks in order of their addresses, no two of which touch.
 Addresses and sizes count units of one header.
 */
module FreeList {

  datatype Block = Block(at: int, size: nat)

  function End(b: Block): int {
    b.at + b.size
  }

  /** In order, with a gap between any two neighbours. */
  ghost predicate Apart(fs: seq<Block>) {
    forall i, j :: 0 <= i < j < |fs| ==> End(fs[i]) < fs[j].at
  }

  predicate Holds(b: Block, u: int) {
    b.at <= u < End(b)
  }

  /** Unit `u` is free. */
  ghost predicate Covered(fs: seq<Block>, u: int) {
    exists i :: 0 <= i < |fs| && Holds(fs[i], u)
  }

  /** No unit of the block is free, and it is not empty. */
  ghost predicate Outside(fs: seq<Block>, b: Block) {
    0 < b.size && forall i :: 0 <= i < |fs| ==> (fs[i].at < b.at && End(fs[i]) <= b.at) || End(b) <= fs[i].at
  }

  /** How many blocks lie below address `at`. */
  function Position(fs: seq<Block>, at: int): (i: nat)
    ensures i <= |fs|
    ensures forall j :: 0 <= j < i ==> fs[j].at < at
    ensures i < |fs| ==> fs[i].at >= at
  {
    if fs == [] || fs[0].at >= at then 0 else 1 + Position(fs[1..], at)
  }

  predicate Below(fs: seq<Block>, b: Block) {
    var i := Position(fs, b.at); i > 0 && End(fs[i - 1]) == b.at
  }

  predicate Above(fs: seq<Block>, b: Block) {
    var i := Position(fs, b.at); i < |fs| && End(b) == fs[i].at
  }

  /** The block that `b` becomes with the neighbours it touches. */
  function Joined(fs: seq<Block>, b: Block): Block {
    var i := Position(fs, b.at);
    Block(if Below(fs, b) then fs[i - 1].at else b.at,
          (if Below(fs, b) then fs[i - 1].size else 0) + b.size + if Above(fs, b) then fs[i].size else 0)
  }

  /** The blocks from `lo` to `hi` make way for one. */
  function Spliced(fs: seq<Block>, lo: nat, hi: nat, c: Block): (r: seq<Block>)
    requires lo <= hi <= |fs|
    ensures |r| == lo + 1 + (|fs| - hi) && r[lo] == c
    ensures forall k :: 0 <= k < lo ==> r[k] == fs[k]
    ensures forall k :: lo < k < |r| ==> r[k] == fs[k - lo - 1 + hi]
  {
    fs[..lo] + [c] + fs[hi..]
  }

  function From(fs: seq<Block>, b: Block): (lo: nat)
    ensures lo <= Position(fs, b.at)
  {
    Position(fs, b.at) - if Below(fs, b) then 1 else 0
  }

  function To(fs: seq<Block>, b: Block): (hi: nat)
    ensures Position(fs, b.at) <= hi <= |fs|
  {
    Position(fs, b.at) + if Above(fs, b) then 1 else 0
  }

  /** A block is given back, and joined with the neighbours it touches. */
  function Returned(fs: seq<Block>, b: Block): seq<Block> {
    Spliced(fs, From(fs, b), To(fs, b), Joined(fs, b))
  }

  /** `n` units are taken from block `i`: all of it, or its tail. */
  function Taken(fs: seq<Block>, i: nat, n: nat): seq<Block>
    requires i < |fs| && n <= fs[i].size
  {
    if fs[i].size == n then fs[..i] + fs[i + 1..] else Spliced(fs, i, i + 1, Block(fs[i].at, fs[i].size - n))
  }

  /** The units taken. */
  function Piece(fs: seq<Block>, i: nat, n: nat): Block
    requires i < |fs| && n <= fs[i].size
  {
    Block(End(fs[i]) - n, n)
  }

  // ---------------------------------------------------------------- giving back

  /** The blocks below and above the place of `b`. */
  lemma Around(fs: seq<Block>, b: Block)
    requires Apart(fs) && Outside(fs, b)
    ensures var i := Position(fs, b.at);
      && (forall j :: 0 <= j < i ==> End(fs[j]) <= b.at && (j < i - 1 ==> End(fs[j]) < b.at))
      && (forall j :: i <= j < |fs| ==> End(b) <= fs[j].at && (j > i ==> End(b) < fs[j].at))
  {
    hide Position, Apart;
    var i := Position(fs, b.at);
    forall j | 0 <= j < i
      ensures End(fs[j]) <= b.at && (j < i - 1 ==> End(fs[j]) < b.at)
    {
      assert fs[j].at < b.at;
      if j < i - 1 { ApartAt(fs, j, i - 1); }
    }
    forall j | i <= j < |fs|
      ensures End(b) <= fs[j].at && (j > i ==> End(b) < fs[j].at)
    {
      if j > i { ApartAt(fs, i, j); }
    }
  }

  lemma ApartAt(fs: seq<Block>, i: nat, j: nat)
    requires Apart(fs) && i < j < |fs|
    ensures End(fs[i]) < fs[j].at
  {
  }

  lemma SplicedApart(fs: seq<Block>, lo: nat, hi: nat, c: Block)
    requires Apart(fs) && lo <= hi <= |fs|
    requires forall j :: 0 <= j < lo ==> End(fs[j]) < c.at
    requires forall j :: hi <= j < |fs| ==> End(c) < fs[j].at
    ensures Apart(Spliced(fs, lo, hi, c))
  {
    hide Spliced;
    var r := Spliced(fs, lo, hi, c);
    forall j, k | 0 <= j < k < |r|
      ensures End(r[j]) < r[k].at
    {
      var s, t := if j < lo then j else j - lo - 1 + hi, if k < lo then k else k - lo - 1 + hi;
      if j != lo && k != lo { ApartAt(fs, s, t); }
    }
  }

  /** Coalescing leaves no two free blocks that touch. */
  lemma ReturnedApart(fs: seq<Block>, b: Block)
    requires Apart(fs) && Outside(fs, b)
    ensures Apart(Returned(fs, b))
  {
    hide Apart, Spliced, Position, Outside;
    Around(fs, b);
    var i := Position(fs, b.at);
    forall j | 0 <= j < From(fs, b)
      ensures End(fs[j]) < Joined(fs, b).at
    {
      if Below(fs, b) { ApartAt(fs, j, i - 1); }
    }
    forall j | To(fs, b) <= j < |fs|
      ensures End(Joined(fs, b)) < fs[j].at
    {
      if Above(fs, b) { ApartAt(fs, i, j); }
    }
    SplicedApart(fs, From(fs, b), To(fs, b), Joined(fs, b));
  }

  lemma SplicedCovers(fs: seq<Block>, lo: nat, hi: nat, c: Block, u: int)
    requires lo <= hi <= |fs|
    ensures Covered(Spliced(fs, lo, hi, c), u) <==>
            Holds(c, u) || exists j :: 0 <= j < |fs| && !(lo <= j < hi) && Holds(fs[j], u)
  {
    hide Spliced, Holds;
    var r := Spliced(fs, lo, hi, c);
    if Covered(r, u) {
      var k :| 0 <= k < |r| && Holds(r[k], u);
      if k != lo { assert Holds(fs[if k < lo then k else k - lo - 1 + hi], u); }
    }
    if Holds(c, u) { assert Holds(r[lo], u); }
    if j :| 0 <= j < |fs| && !(lo <= j < hi) && Holds(fs[j], u) {
      assert r[if j < lo then j else j - hi + lo + 1] == fs[j];
    }
  }

  /** Exactly the units of the block become free. */
  lemma ReturnedCovers(fs: seq<Block>, b: Block, u: int)
    requires Apart(fs) && Outside(fs, b)
    ensures Covered(Returned(fs, b), u) <==> Covered(fs, u) || Holds(b, u)
  {
    hide Apart, Spliced, Position, Outside, Covered, Holds;
    JoinedHolds(fs, b, u);
    SplicedCovers(fs, From(fs, b), To(fs, b), Joined(fs, b), u);
    CoveredBy(fs, u);
  }

  lemma CoveredBy(fs: seq<Block>, u: int)
    ensures Covered(fs, u) <==> exists i :: 0 <= i < |fs| && Holds(fs[i], u)
  {
  }

  lemma JoinedHolds(fs: seq<Block>, b: Block, u: int)
    requires Apart(fs) && Outside(fs, b)
    ensures Holds(Joined(fs, b), u) <==>
            Holds(b, u) || exists j :: From(fs, b) <= j < To(fs, b) && Holds(fs[j], u)
  {
    hide Apart, Position, Outside;
    Around(fs, b);
    var i := Position(fs, b.at);
    if Below(fs, b) { assert From(fs, b) == i - 1; }
    if Above(fs, b) { assert To(fs, b) == i + 1; }
    if Below(fs, b) && Holds(fs[i - 1], u) { assert From(fs, b) <= i - 1 < To(fs, b); }
    if Above(fs, b) && Holds(fs[i], u) { assert From(fs, b) <= i < To(fs, b); }
  }

  // ---------------------------------------------------------------- taking

  lemma TakenApart(fs: seq<Block>, i: nat, n: nat)
    requires Apart(fs) && i < |fs| && 0 < n <= fs[i].size
    ensures Apart(Taken(fs, i, n)) && Outside(Taken(fs, i, n), Piece(fs, i, n))
  {
    var r := Taken(fs, i, n);
    if fs[i].size == n {
      assert forall k :: 0 <= k < |r| ==> r[k] == fs[if k < i then k else k + 1];
    } else {
      assert forall k :: 0 <= k < |r| ==> r[k].at == fs[k].at && End(r[k]) <= End(fs[k]);
    }
  }

  /** Exactly the units of the piece stop being free. */
  lemma TakenCovers(fs: seq<Block>, i: nat, n: nat, u: int)
    requires Apart(fs) && i < |fs| && 0 < n <= fs[i].size
    ensures Covered(Taken(fs, i, n), u) <==> Covered(fs, u) && !Holds(Piece(fs, i, n), u)
  {
    hide Apart, Spliced, Covered;
    OthersHold(fs, i, u);
    CoveredBy(fs, u);
    if fs[i].size == n {
      RemovedCovers(fs, i, u);
    } else {
      SplicedCovers(fs, i, i + 1, Block(fs[i].at, fs[i].size - n), u);
    }
  }

  lemma OthersHold(fs: seq<Block>, i: nat, u: int)
    requires Apart(fs) && i < |fs|
    ensures Holds(fs[i], u) ==> forall j :: 0 <= j < |fs| && j != i ==> !Holds(fs[j], u)
  {
  }

  lemma RemovedCovers(fs: seq<Block>, i: nat, u: int)
    requires i < |fs|
    ensures Covered(fs[..i] + fs[i + 1..], u) <==> exists j :: 0 <= j < |fs| && j != i && Holds(fs[j], u)
  {
    hide Holds;
    var r := fs[..i] + fs[i + 1..];
    if j :| 0 <= j < |fs| && j != i && Holds(fs[j], u) {
      assert r[if j < i then j else j - 1] == fs[j];
    }
    if Covered(r, u) {
      var k :| 0 <= k < |r| && Holds(r[k], u);
      assert r[k] == fs[if k < i then k else k + 1];
    }
  }
}
