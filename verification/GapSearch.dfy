/**
 `find_next_gap` of kernel/c/mmap.c: the highest free range below a limit, found by a pruned walk of the
 area tree.
 */
module GapSearch {
  import opened Basics
  import opened VmAreas
  import opened RbGaps
  import opened RbTree
  import opened Vma

  // ---------------------------------------------------------------- holes

  /** Hole `k` lies in front of area `k`; the last one lies behind all areas and has no end. */
  ghost function HoleStart(list: seq<VmArea>, k: int): int
    requires 0 <= k <= |list|
    reads list`end
  {
    if k == 0 then 0 else list[k - 1].end
  }

  /** Hole `k` has room for `length` bytes within `[low, high)`. */
  ghost predicate Roomy(list: seq<VmArea>, k: int, low: int, high: int, length: int)
    requires 0 <= k <= |list|
    reads list`start, list`end
  {
    && HoleStart(list, k) + length <= high && low + length <= high
    && (k < |list| ==> HoleStart(list, k) + length <= list[k].start && low + length <= list[k].start)
  }

  /** `[a, a + length)` lies within `[low, high)` and is disjoint from every area. */
  ghost predicate Free(list: seq<VmArea>, low: int, high: int, length: int, a: int)
    reads list`start, list`end
  {
    && low <= a && a + length <= high
    && forall i :: 0 <= i < |list| ==> a + length <= list[i].start || list[i].end <= a
  }

  /** A free range lies in one of the holes, which is therefore roomy. */
  lemma {:induction false} FreeIsInHole(list: seq<VmArea>, low: int, high: int, length: int, a: int, n: int) returns (k: int)
    requires Ascending(list) && Free(list, low, high, length, a) && length > 0 && low >= 0 && 0 <= n <= |list|
    requires forall i :: n <= i < |list| ==> a + length <= list[i].start
    ensures 0 <= k <= |list| && Roomy(list, k, low, high, length) && HoleStart(list, k) <= a
    ensures k < |list| ==> a + length <= list[k].start
    decreases n
  {
    if n == 0 || list[n - 1].end <= a {
      k := n;
    } else {
      k := FreeIsInHole(list, low, high, length, a, n - 1);
    }
  }

  /** No hole from `k` on is roomy. */
  ghost predicate NoneFrom(list: seq<VmArea>, k: int, low: int, high: int, length: int)
    reads list`start, list`end
  {
    0 <= k && forall i :: k <= i <= |list| ==> !Roomy(list, i, low, high, length)
  }

  lemma NoneFree(list: seq<VmArea>, low: int, high: int, length: int)
    requires Ascending(list) && length > 0 && low >= 0 && NoneFrom(list, 0, low, high, length)
    ensures forall a :: !Free(list, low, high, length, a)
  {
    forall a | Free(list, low, high, length, a)
      ensures false
    {
      var k := FreeIsInHole(list, low, high, length, a, |list|);
    }
  }

  /** The top end of the last roomy hole is the best place. */
  lemma HighestFree(list: seq<VmArea>, k: int, low: int, high: int, length: int, top: int)
    requires Ascending(list) && length > 0 && low >= 0
    requires 0 <= k <= |list| && Roomy(list, k, low, high, length) && NoneFrom(list, k + 1, low, high, length)
    requires top == if k < |list| && list[k].start < high then list[k].start else high
    ensures Free(list, low, high, length, top - length)
    ensures forall a :: Free(list, low, high, length, a) ==> a <= top - length
  {
    forall a | Free(list, low, high, length, a)
      ensures a <= top - length
    {
      var j := FreeIsInHole(list, low, high, length, a, |list|);
      assert j <= k;
      if j < k { assert list[j].start <= list[k - 1].end; }
    }
  }

  // ---------------------------------------------------------------- pruning

  /** All that the search relies on. */
  ghost predicate Searchable(s: AddressSpace)
    reads s, s.nodes, s.order
  {
    && s.Sound() && Listed(s.order, s.first) && Ascending(s.order) && s.highest == EndOf(s.order)
    && s.span.Keys <= s.nodes
  }

  /** An own gap is the size of the hole in front. */
  lemma OwnIsHole(s: AddressSpace, i: int)
    requires s.PrevsKnown() && Listed(s.order, s.first) && 0 <= i < |s.order| && s.order[i] in s.nodes
    ensures s.Own()[s.order[i]] == s.order[i].start - HoleStart(s.order, i)
  {
  }

  lemma InTree(s: AddressSpace, i: int)
    requires Searchable(s) && 0 <= i < |s.order|
    ensures s.order[i] in s.nodes && s.order[i] in s.span
  {
  }

  /** No hole of a subtree is wider than its cached gap. */
  lemma CacheLimits(s: AddressSpace, n: VmArea) returns (lo: int, hi: int)
    requires Searchable(s) && n in s.span
    ensures lo == s.span[n].lo && hi == s.span[n].hi && 0 <= lo <= hi <= |s.order|
    ensures forall i :: lo <= i < hi ==> s.order[i] in s.nodes && s.Own()[s.order[i]] <= n.subtreeGap
  {
    var t, own, gaps := s.Tree(), s.Own(), s.Gaps();
    CacheIsWidest(t, own, gaps, n);
    assert t.NodeOk(n);
    lo, hi := s.span[n].lo, s.span[n].hi;
    WidestIsMax(own, t.order, lo, hi);
  }

  /** A subtree whose cached gap is too small has no roomy hole. */
  lemma SmallSubtree(s: AddressSpace, n: VmArea, low: int, high: int, length: int)
    requires Searchable(s) && n in s.span && n.subtreeGap < length && length > 0
    ensures 0 <= s.span[n].lo <= s.span[n].hi <= |s.order|
    ensures forall i :: s.span[n].lo <= i < s.span[n].hi ==> !Roomy(s.order, i, low, high, length)
  {
    var lo, hi := CacheLimits(s, n);
    forall i | lo <= i < hi
      ensures !Roomy(s.order, i, low, high, length)
    {
      InTree(s, i);
      OwnIsHole(s, i);
    }
  }

  /** The right subtree may be skipped when the hole before `n` already starts too high. */
  lemma HighStart(s: AddressSpace, k: int, low: int, high: int, length: int)
    requires Ascending(s.order) && 0 <= k <= |s.order| && HoleStart(s.order, k) > high - length
    ensures forall i :: k <= i <= |s.order| ==> !Roomy(s.order, i, low, high, length)
  {
    forall i | k <= i <= |s.order|
      ensures HoleStart(s.order, i) >= HoleStart(s.order, k)
    {
      if k < i && 0 < k { assert s.order[k - 1].end <= s.order[i - 1].start; }
    }
  }

  /** Nothing below an area that starts too low can be used. */
  lemma LowEnd(s: AddressSpace, k: int, low: int, high: int, length: int)
    requires Ascending(s.order) && 0 <= k < |s.order| && s.order[k].start < low + length
    ensures forall i :: 0 <= i <= k ==> !Roomy(s.order, i, low, high, length)
  {
    forall i | 0 <= i <= k
      ensures s.order[i].start <= s.order[k].start
    {
    }
  }

  /** The span of `v` is one. */
  ghost predicate ProperSpan(s: AddressSpace, v: VmArea)
    reads s`span
  {
    v in s.span && 0 <= s.span[v].lo <= s.span[v].at < s.span[v].hi
  }

  /** `vma->prev ? vma->prev->end_addr : 0` */
  function GapStart(v: VmArea): nat
    reads v, v.prev
  {
    if v.prev != null then v.prev.end else 0
  }

  /** Where the walk stands in the tree. */
  ghost predicate Stands(s: AddressSpace, v: VmArea)
    reads s, s.nodes, s.order
  {
    v in s.span && v in s.nodes && s.Tree().NodeOk(v) && s.Tree().AtOk(v)
  }

  lemma AtNode(s: AddressSpace, v: VmArea)
    requires Searchable(s) && v in s.span
    ensures Stands(s, v)
    ensures GapStart(v) == HoleStart(s.order, s.span[v].at)
    ensures v.rbLeft != null ==> v.rbLeft in s.span
    ensures v.rbRight != null ==> v.rbRight in s.span
    ensures v.rbParent != null ==> v.rbParent in s.span
  {
    assert s.Tree().NodeOk(v) && s.Tree().AtOk(v);
    var k := s.span[v].at;
    assert s.order[k] == v && 0 <= k < |s.order|;
  }

  /** What looking at the hole in front of `v` tells. */
  lemma CheckStep(s: AddressSpace, v: VmArea, low: int, high: int, length: int)
    requires Searchable(s) && v in s.span && length > 0 && low >= 0 && low + length <= high
    ensures 0 <= s.span[v].at < |s.order| && s.order[s.span[v].at] == v
    ensures NoneFrom(s.order, s.span[v].at + 1, low, high, length) ==>
      var start := GapStart(v);
      && (v.start < low + length ==> NoneFrom(s.order, 0, low, high, length))
      && (v.start >= low + length && start <= high - length && v.start - start >= length ==>
            Roomy(s.order, s.span[v].at, low, high, length))
      && (v.start >= low + length && !(start <= high - length && v.start - start >= length) ==>
            NoneFrom(s.order, s.span[v].at, low, high, length))
  {
    AtNode(s, v);
    if v.start < low + length { LowEnd(s, s.span[v].at, low, high, length); }
  }

  /** The right subtree of `v` has to be searched only if it promises room and does not start too high. */
  lemma RightStep(s: AddressSpace, v: VmArea, low: int, high: int, length: int)
    requires Searchable(s) && v in s.span && length > 0 && NoneFrom(s.order, s.span[v].hi, low, high, length)
    ensures ProperSpan(s, v)
    ensures v.rbRight != null ==> v.rbRight in s.span && s.span[v.rbRight].hi == s.span[v].hi
                                  && s.span[v].lo < s.span[v.rbRight].lo
    ensures var start := GapStart(v);
      start > high - length || v.rbRight == null || v.rbRight.subtreeGap < length ==>
        NoneFrom(s.order, s.span[v].at + 1, low, high, length)
  {
    AtNode(s, v);
    var start := GapStart(v);
    if start > high - length {
      HighStart(s, s.span[v].at, low, high, length);
    } else if v.rbRight != null && v.rbRight.subtreeGap < length {
      SmallSubtree(s, v.rbRight, low, high, length);
    }
  }

  /** The left subtree of `v` has to be searched only if it promises room. */
  lemma LeftStep(s: AddressSpace, v: VmArea, low: int, high: int, length: int)
    requires Searchable(s) && v in s.span && length > 0 && NoneFrom(s.order, s.span[v].at, low, high, length)
    ensures ProperSpan(s, v)
    ensures v.rbLeft != null ==> v.rbLeft in s.span && s.span[v.rbLeft].hi == s.span[v].at
    ensures v.rbLeft == null || v.rbLeft.subtreeGap < length ==> NoneFrom(s.order, s.span[v].lo, low, high, length)
  {
    AtNode(s, v);
    if v.rbLeft != null && v.rbLeft.subtreeGap < length {
      SmallSubtree(s, v.rbLeft, low, high, length);
    }
  }

  /** One step up: the root ends the walk; coming from the right, the parent is next in line. */
  lemma UpStep(s: AddressSpace, v: VmArea)
    requires Searchable(s) && v in s.span
    ensures ProperSpan(s, v) && (v.rbParent == null ==> s.span[v].lo == 0)
    ensures s.span[v].hi <= |s.order|
    ensures v.rbParent != null ==>
      var p := v.rbParent;
      && p in s.span && ProperSpan(s, p) && s.span[p].hi - s.span[p].lo > s.span[v].hi - s.span[v].lo
      && (if p.rbRight == v then s.span[v].lo == s.span[p].at + 1 else s.span[v].lo == s.span[p].lo)
  {
    AtNode(s, v);
    if v.rbParent != null { AtNode(s, v.rbParent); }
  }

  /** The positions below `v`, from its first to its last. */
  ghost function Width(s: AddressSpace, v: VmArea): int
    reads s`span
  {
    if v in s.span then s.span[v].hi - s.span[v].lo else 0
  }

  /**
   The walk stands at `v`, with no roomy hole from `f` on: either on its way down, or, back from the right
   subtree or without need to search that, about to look at the hole in front of `v`.
   */
  ghost predicate Walking(s: AddressSpace, v: VmArea, atCheck: bool, f: int, low: int, high: int, length: int)
    reads s, s.nodes, s.order
  {
    && ProperSpan(s, v) && NoneFrom(s.order, f, low, high, length)
    && f == if atCheck then s.span[v].at + 1 else s.span[v].hi
  }

  lemma WalkStarts(s: AddressSpace, low: int, high: int, length: int)
    requires Searchable(s) && s.root != null && NoneFrom(s.order, |s.order|, low, high, length)
    ensures Walking(s, s.root, false, |s.order|, low, high, length)
  {
    RootIsAt(s);
  }

  lemma WalkRight(s: AddressSpace, v: VmArea, f: int, low: int, high: int, length: int) returns (f': int)
    requires Searchable(s) && Walking(s, v, false, f, low, high, length) && length > 0
    ensures GapStart(v) <= high - length && v.rbRight != null && v.rbRight.subtreeGap >= length ==>
              Walking(s, v.rbRight, false, f, low, high, length) && 0 < Width(s, v.rbRight) < Width(s, v)
    ensures !(GapStart(v) <= high - length && v.rbRight != null && v.rbRight.subtreeGap >= length) ==>
              Walking(s, v, true, f', low, high, length) && f' <= f
  {
    RightStep(s, v, low, high, length);
    if v.rbRight != null { UpStep(s, v.rbRight); }
    f' := s.span[v].at + 1;
  }

  /** Looking at the hole in front of `v`: nothing left below it, found, or going on to the left. */
  lemma WalkCheck(s: AddressSpace, v: VmArea, f: int, low: int, high: int, length: int)
    requires Searchable(s) && Walking(s, v, true, f, low, high, length) && length > 0 && low >= 0 && low + length <= high
    ensures v.start < low + length ==> NoneFrom(s.order, 0, low, high, length)
    ensures v.start >= low + length && GapStart(v) <= high - length && v.start - GapStart(v) >= length ==>
              Found(s, v, low, high, length)
    ensures v.start >= low + length && !(GapStart(v) <= high - length && v.start - GapStart(v) >= length) ==>
              NoneFrom(s.order, f - 1, low, high, length)
  {
    CheckStep(s, v, low, high, length);
  }

  /** The last area with a roomy hole in front. */
  ghost predicate Found(s: AddressSpace, v: VmArea, low: int, high: int, length: int)
    reads s, s.nodes, s.order
  {
    && v in s.span && 0 <= s.span[v].at < |s.order| && s.order[s.span[v].at] == v
    && Roomy(s.order, s.span[v].at, low, high, length) && NoneFrom(s.order, s.span[v].at + 1, low, high, length)
  }

  lemma WalkLeft(s: AddressSpace, v: VmArea, f: int, low: int, high: int, length: int) returns (f': int)
    requires Searchable(s) && Walking(s, v, true, f, low, high, length) && length > 0
    requires NoneFrom(s.order, f - 1, low, high, length)
    ensures v.rbLeft != null && v.rbLeft.subtreeGap >= length ==>
              Walking(s, v.rbLeft, false, f - 1, low, high, length)
    ensures !(v.rbLeft != null && v.rbLeft.subtreeGap >= length) ==>
              Returning(s, v, f', low, high, length) && 0 <= f' < f
  {
    LeftStep(s, v, low, high, length);
    if v.rbLeft != null { UpStep(s, v.rbLeft); }
    f' := s.span[v].lo;
    UpStep(s, v);
  }

  /** The subtree of `v`, which starts at position `f`, has been searched. */
  ghost predicate Returning(s: AddressSpace, v: VmArea, f: int, low: int, high: int, length: int)
    reads s, s.nodes, s.order
  {
    ProperSpan(s, v) && s.span[v].lo == f && NoneFrom(s.order, f, low, high, length)
  }

  lemma WalkBack(s: AddressSpace, v: VmArea, f: int, low: int, high: int, length: int)
    requires Searchable(s) && Returning(s, v, f, low, high, length)
    ensures v.rbParent == null ==> NoneFrom(s.order, 0, low, high, length)
    ensures v.rbParent != null ==>
              if v == v.rbParent.rbRight then Walking(s, v.rbParent, true, f, low, high, length)
              else Returning(s, v.rbParent, f, low, high, length) && Width(s, v) < Width(s, v.rbParent) <= |s.order|
  {
    UpStep(s, v);
    if v.rbParent != null { UpStep(s, v.rbParent); }
  }

  /** The walk of `find_next_gap` once the space above the last area has been ruled out. */
  method WalkGaps(s: AddressSpace, low: nat, high: nat, length: nat) returns (vma: VmArea?)
    requires Searchable(s) && length > 0 && low + length <= high && s.root != null
    requires NoneFrom(s.order, |s.order|, low, high, length)
    ensures vma == null ==> NoneFrom(s.order, 0, low, high, length)
    ensures vma != null ==> Found(s, vma, low, high, length)
  {
    hide Searchable, NoneFrom, Roomy, GapStart, Walking, Returning, Found, Width;
    WalkStarts(s, low, high, length);
    vma := s.root;
    var highRange, lowRange := high - length, low + length;
    var atCheck := false;
    ghost var f: int := |s.order|;   // no hole from here on is roomy
    while true
      invariant vma != null && 0 <= f && Walking(s, vma, atCheck, f, low, high, length)
      decreases f, !atCheck, Width(s, vma)
    {
      var gapStart := GapStart(vma);
      if !atCheck {
        ghost var f' := WalkRight(s, vma, f, low, high, length);
        if gapStart <= highRange && vma.rbRight != null && vma.rbRight.subtreeGap >= length {
          vma := vma.rbRight;
          continue;
        }
        f := f';
      }
      // check_current
      WalkCheck(s, vma, f, low, high, length);
      var gapEnd := vma.start;
      if gapEnd < lowRange {
        return null;
      }
      if gapStart <= highRange && gapEnd - gapStart >= length {
        return;
      }
      ghost var f' := WalkLeft(s, vma, f, low, high, length);
      if vma.rbLeft != null && vma.rbLeft.subtreeGap >= length {
        f, atCheck, vma := f - 1, false, vma.rbLeft;
        continue;
      }
      // back up the tree
      f := f';
      while true
        invariant vma != null && Returning(s, vma, f, low, high, length)
        decreases |s.order| - Width(s, vma)
      {
        var prev: VmArea := vma;
        WalkBack(s, prev, f, low, high, length);
        if prev.rbParent == null {
          return null;
        }
        vma := prev.rbParent;
        if prev == vma.rbRight {
          atCheck := true;
          break;
        }
      }
    }
  }

  lemma RootIsAt(s: AddressSpace)
    requires Searchable(s) && s.root != null
    ensures s.root in s.span && ProperSpan(s, s.root) && s.span[s.root].hi == |s.order|
  {
    assert s.Tree().NodeOk(s.root) && s.Tree().AtOk(s.root);
  }

  lemma TooShort(list: seq<VmArea>, low: int, high: int, length: int)
    requires low > high - length
    ensures forall a :: !Free(list, low, high, length, a)
  {
  }

  /** Above the last area: the best place if there is room, and otherwise no hole. */
  lemma AboveAll(s: AddressSpace, low: int, high: int, length: int)
    requires Searchable(s) && length > 0 && low >= 0 && low + length <= high
    ensures s.highest <= high - length ==>
              Free(s.order, low, high, length, high - length)
              && forall a :: Free(s.order, low, high, length, a) ==> a <= high - length
    ensures s.highest > high - length ==> NoneFrom(s.order, |s.order|, low, high, length)
  {
    if s.highest <= high - length {
      HighestFree(s.order, |s.order|, low, high, length, high);
    } else {
      HighStart(s, |s.order|, low, high, length);
    }
  }

  lemma NothingFree(s: AddressSpace, low: int, high: int, length: int)
    requires Searchable(s) && length > 0 && low >= 0 && NoneFrom(s.order, 0, low, high, length)
    ensures forall a :: !Free(s.order, low, high, length, a)
  {
    NoneFree(s.order, low, high, length);
  }

  /** The top end of the hole in front of the last area with a roomy one. */
  lemma FoundHighest(s: AddressSpace, v: VmArea, low: int, high: int, length: int, top: int)
    requires Searchable(s) && length > 0 && low >= 0 && Found(s, v, low, high, length)
    requires top == if v.start > high then high else v.start
    ensures Free(s.order, low, high, length, top - length) && top - length >= low && top - length >= GapStart(v)
    ensures forall a :: Free(s.order, low, high, length, a) ==> a <= top - length
  {
    AtNode(s, v);
    HighestFree(s.order, s.span[v].at, low, high, length, top);
  }

  /**
   `find_next_gap`: the highest free start for `length` bytes within `[low, high)`, or nothing exactly when
   there is none. The walk goes down into a subtree only if its cached gap promises room.
   */
  method FindNextGap(s: AddressSpace, low: nat, high: nat, length: nat) returns (r: Option<nat>)
    requires Searchable(s) && length > 0
    ensures r.Some? ==> Free(s.order, low, high, length, r.value)
    ensures r.Some? ==> forall a :: Free(s.order, low, high, length, a) ==> a <= r.value
    ensures r.None? ==> forall a :: !Free(s.order, low, high, length, a)
  {
    hide Searchable, NoneFrom, Roomy, Free, HoleStart, GapStart;
    if high < length || low > high - length {
      TooShort(s.order, low, high, length);
      return None;
    }
    var gapStart: int := s.highest;
    AboveAll(s, low, high, length);
    if gapStart <= high - length {
      return Some(high - length);
    }
    if s.root == null || s.root.subtreeGap < length {
      RootSmall(s, low, high, length);
      NothingFree(s, low, high, length);
      return None;
    }
    var vma := WalkGaps(s, low, high, length);
    if vma == null {
      NothingFree(s, low, high, length);
      return None;
    }
    // found
    var gapEnd := if vma.start > high then high else vma.start;
    gapStart := GapStart(vma);
    FoundHighest(s, vma, low, high, length, gapEnd);
    assert gapEnd - length >= low && gapEnd - length >= gapStart;   // the two ASSERTs
    return Some(gapEnd - length);
  }

  /** A root that is missing, or whose cache is too small, leaves no roomy hole below the last area. */
  lemma RootSmall(s: AddressSpace, low: int, high: int, length: int)
    requires Searchable(s) && length > 0 && (s.root == null || s.root.subtreeGap < length)
    requires NoneFrom(s.order, |s.order|, low, high, length)
    ensures NoneFrom(s.order, 0, low, high, length)
  {
    if s.root != null {
      RootIsAt(s);
      SmallSubtree(s, s.root, low, high, length);
    }
  }
}
