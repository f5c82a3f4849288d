/**
 Bytes at virtual addresses: what a write through the page tables does to a flat memory, byte after byte,
 and what a read finds.
 */
module VirtualBytes {
  import opened Basics
  import opened Words
  import opened PageEntries
  import opened PageTables
  import opened PageWalks

  /** The page of the byte that is `i` behind `addr`. */
  function PageAt(addr: nat, i: nat): nat {
    PageNo(addr + i)
  }

  /** The pages of the first `n` bytes from `addr` on all have a leaf entry. */
  ghost predicate Reached(pages: map<nat, nat>, addr: nat, n: nat) {
    forall i: nat :: i < n ==> PageAt(addr, i) in pages
  }

  /** The physical address of the byte that is `i` behind `addr`. */
  function Target(pages: map<nat, nat>, addr: nat, i: nat): nat {
    if PageAt(addr, i) in pages then FrameIn(pages[PageAt(addr, i)]) * PAGE_SIZE + (addr + i) % PAGE_SIZE else 0
  }

  function At(m: Memory, a: nat): Byte {
    if a < |m| then m[a] else 0
  }

  function Put(m: Memory, a: nat, b: Byte): Memory {
    if a < |m| then m[a := b] else m
  }

  /** The bytes `s` are written from `addr` on, one after the other. */
  function Poke(m: Memory, pages: map<nat, nat>, addr: nat, s: seq<Byte>): (r: Memory)
    ensures |r| == |m|
  {
    if s == [] then m
    else Put(Poke(m, pages, addr, s[..|s| - 1]), Target(pages, addr, |s| - 1), s[|s| - 1])
  }

  /** The `n` bytes from `addr` on. */
  function Peek(m: Memory, pages: map<nat, nat>, addr: nat, n: nat): (r: seq<Byte>)
    ensures |r| == n && forall i: nat :: i < n ==> r[i] == At(m, Target(pages, addr, i))
  {
    if n == 0 then [] else Peek(m, pages, addr, n - 1) + [At(m, Target(pages, addr, n - 1))]
  }

  lemma PokeMore(m: Memory, pages: map<nat, nat>, addr: nat, s: seq<Byte>, i: nat)
    requires i < |s|
    ensures Poke(m, pages, addr, s[..i + 1]) == Put(Poke(m, pages, addr, s[..i]), Target(pages, addr, i), s[i])
  {
    assert s[..i + 1][..i] == s[..i];
  }

  /** Bytes of one page lie together. */
  lemma TargetInPage(pages: map<nat, nat>, addr: nat, k: nat, i: nat)
    requires PageAt(addr, k) in pages && i < PAGE_SIZE - (addr + k) % PAGE_SIZE
    ensures PageAt(addr, k + i) == PageAt(addr, k) && Target(pages, addr, k + i) == Target(pages, addr, k) + i
  {
    hide FrameIn;
    assert (addr + k + i) / PAGE_SIZE == (addr + k) / PAGE_SIZE;
  }

  /** The last of the first `n` bytes that goes to `a`, or -1. */
  function Last(pages: map<nat, nat>, addr: nat, n: nat, a: nat): (r: int)
    ensures -1 <= r < n
    ensures r >= 0 ==> Target(pages, addr, r) == a
    ensures forall i :: r < i < n ==> Target(pages, addr, i) != a
  {
    if n == 0 then -1 else if Target(pages, addr, n - 1) == a then n - 1 else Last(pages, addr, n - 1, a)
  }

  /** A byte is what was written there last, or as it was. */
  lemma {:induction false} PokeAt(m: Memory, pages: map<nat, nat>, addr: nat, s: seq<Byte>, a: nat)
    requires a < |m|
    ensures var j := Last(pages, addr, |s|, a); Poke(m, pages, addr, s)[a] == if j == -1 then m[a] else s[j]
  {
    hide Target;
    if s != [] { PokeAt(m, pages, addr, s[..|s| - 1], a); }
  }

  ghost predicate InRange(m: Memory, pages: map<nat, nat>) {
    forall p :: p in pages ==> (FrameIn(pages[p]) + 1) * PAGE_SIZE <= |m|
  }

  lemma TargetInMemory(m: Memory, pages: map<nat, nat>, addr: nat, i: nat)
    requires PageAt(addr, i) in pages && InRange(m, pages)
    ensures Target(pages, addr, i) < |m|
  {
    hide FrameIn, PageAt;
  }

  /** Each byte is also the last one that goes to its place. */
  ghost predicate LastWins(pages: map<nat, nat>, addr: nat, s: seq<Byte>) {
    forall i: nat :: i < |s| ==>
      var j := Last(pages, addr, |s|, Target(pages, addr, i)); j >= 0 && s[j] == s[i]
  }

  /** What is read back is what was written, if and only if no byte is followed by a different one for its place. */
  lemma RoundTrip(m: Memory, pages: map<nat, nat>, addr: nat, s: seq<Byte>)
    requires Reached(pages, addr, |s|) && InRange(m, pages)
    ensures Peek(Poke(m, pages, addr, s), pages, addr, |s|) == s <==> LastWins(pages, addr, s)
  {
    hide Target, InRange, PageAt, Poke;
    var r := Peek(Poke(m, pages, addr, s), pages, addr, |s|);
    forall i: nat | i < |s|
      ensures Last(pages, addr, |s|, Target(pages, addr, i)) >= i
      ensures r[i] == s[Last(pages, addr, |s|, Target(pages, addr, i))]
    {
      TargetInMemory(m, pages, addr, i);
      PokeAt(m, pages, addr, s, Target(pages, addr, i));
    }
  }

  /** The pages of the first `n` bytes from `addr` on have frames of their own. */
  ghost predicate FramesApart(pages: map<nat, nat>, addr: nat, n: nat) {
    forall i: nat, j: nat :: i < n && j < n ==>
      var p, q := PageAt(addr, i), PageAt(addr, j);
      p in pages && q in pages && p != q ==> FrameIn(pages[p]) != FrameIn(pages[q])
  }

  /** Scattered over frames of their own, all bytes come back. */
  lemma RoundTripApart(m: Memory, pages: map<nat, nat>, addr: nat, s: seq<Byte>)
    requires Reached(pages, addr, |s|) && InRange(m, pages) && |s| <= PAGES * PAGE_SIZE && FramesApart(pages, addr, |s|)
    ensures Peek(Poke(m, pages, addr, s), pages, addr, |s|) == s
  {
    hide Target, InRange, PageAt, Poke, FramesApart, Reached;
    forall i: nat | i < |s|
      ensures Last(pages, addr, |s|, Target(pages, addr, i)) == i
    {
      var j := Last(pages, addr, |s|, Target(pages, addr, i));
      assert j >= i;
      if j > i { TargetsDiffer(pages, addr, |s|, i, j); }
    }
    RoundTrip(m, pages, addr, s);
  }

  lemma TargetsDiffer(pages: map<nat, nat>, addr: nat, n: nat, i: nat, j: nat)
    requires Reached(pages, addr, n) && n <= PAGES * PAGE_SIZE && FramesApart(pages, addr, n) && i < j < n
    ensures Target(pages, addr, i) != Target(pages, addr, j)
  {
    hide FrameIn;
    SameAddress(addr, i, j);
    if Target(pages, addr, i) == Target(pages, addr, j) {
      SamePlace(FrameIn(pages[PageAt(addr, i)]), (addr + i) % PAGE_SIZE, FrameIn(pages[PageAt(addr, j)]), (addr + j) % PAGE_SIZE);
    }
  }

  lemma SamePlace(f: nat, x: nat, g: nat, y: nat)
    requires f * PAGE_SIZE + x == g * PAGE_SIZE + y && x < PAGE_SIZE && y < PAGE_SIZE
    ensures f == g && x == y
  {
  }

  lemma SameAddress(addr: nat, i: nat, j: nat)
    requires i < j < PAGES * PAGE_SIZE
    ensures (addr + i) % PAGE_SIZE == (addr + j) % PAGE_SIZE ==> PageAt(addr, i) != PageAt(addr, j)
  {
    if (addr + i) % PAGE_SIZE == (addr + j) % PAGE_SIZE {
      var a, b := (addr + i) / PAGE_SIZE, (addr + j) / PAGE_SIZE;
      assert (b - a) * PAGE_SIZE == j - i;
      NearResidues(a, b);
    }
  }

  lemma NearResidues(a: nat, b: nat)
    requires a < b < a + PAGES
    ensures a % PAGES != b % PAGES
  {
    assert (b / PAGES - a / PAGES) * PAGES + (b % PAGES - a % PAGES) == b - a;
  }

  /** A write touches bytes of mapped frames only. */
  lemma {:induction false} PokeIsData(m: Memory, pages: map<nat, nat>, addr: nat, s: seq<Byte>, t: Tables, c: nat)
    requires Reached(pages, addr, |s|)
    requires forall p :: p in pages ==> !IsTable(t, FrameIn(pages[p])) && FrameIn(pages[p]) < c
    ensures OnlyData(m, Poke(m, pages, addr, s), t, c)
  {
    hide IsTable, FrameIn, PageAt;
    if s != [] {
      assert Reached(pages, addr, |s[..|s| - 1]|);
      PokeIsData(m, pages, addr, s[..|s| - 1], t, c);
      TargetFrame(pages, addr, |s| - 1);
    }
  }

  lemma TargetFrame(pages: map<nat, nat>, addr: nat, i: nat)
    requires PageAt(addr, i) in pages
    ensures Target(pages, addr, i) / PAGE_SIZE == FrameIn(pages[PageAt(addr, i)])
  {
    hide FrameIn, PageAt;
  }
}
