/**
 The cached `rb_subtree_gap`: at every node the largest of its own gap (the hole between it and its
 list predecessor) and the cached values of its children.
 */
module RbGaps {
  import opened VmAreas
  import opened RbShape

  type Gaps = map<VmArea, int>

  ghost function ChildGap(gaps: Gaps, c: VmArea?): int {
    if c != null && c in gaps then gaps[c] else 0
  }

  function Max(a: int, b: int): int {
    if b > a then b else a
  }

  /** What the node's cache should hold, given the caches of its children. */
  ghost function Expected(l: map<VmArea, Link>, own: Gaps, gaps: Gaps, n: VmArea): int
    requires n in l && n in own
  {
    Max(Max(own[n], ChildGap(gaps, l[n].left)), ChildGap(gaps, l[n].right))
  }

  ghost predicate GapOk(t: Shape, own: Gaps, gaps: Gaps, n: VmArea) {
    n in t.links && n in own && n in gaps && gaps[n] == Expected(t.links, own, gaps, n)
  }

  /** Every cache in the tree is right, except possibly those in `bad`. */
  ghost predicate GapsOkBut(t: Shape, own: Gaps, gaps: Gaps, bad: set<VmArea?>) {
    forall n {:trigger GapOk(t, own, gaps, n)} :: n in t.span && n !in bad ==> GapOk(t, own, gaps, n)
  }

  ghost predicate GapsOk(t: Shape, own: Gaps, gaps: Gaps) {
    GapsOkBut(t, own, gaps, {})
  }

  ghost predicate Covered(t: Shape, own: Gaps, gaps: Gaps) {
    t.span.Keys <= own.Keys && t.span.Keys <= gaps.Keys
  }

  /** The largest own gap among positions `[lo, hi)`, or 0. */
  ghost function Widest(own: Gaps, order: seq<VmArea>, lo: int, hi: int): int
    requires 0 <= lo <= hi <= |order|
    requires forall i :: lo <= i < hi ==> order[i] in own
    decreases hi - lo
  {
    if lo == hi then 0 else Max(Widest(own, order, lo, hi - 1), own[order[hi - 1]])
  }

  lemma {:induction false} WidestSplit(own: Gaps, order: seq<VmArea>, lo: int, mid: int, hi: int)
    requires 0 <= lo <= mid <= hi <= |order|
    requires forall i :: lo <= i < hi ==> order[i] in own
    ensures Widest(own, order, lo, hi) == Max(Widest(own, order, lo, mid), Widest(own, order, mid, hi))
    decreases hi - mid
  {
    if mid < hi {
      WidestSplit(own, order, lo, mid, hi - 1);
    } else {
      assert Widest(own, order, mid, hi) == 0;
      WidestNonneg(own, order, lo, mid);
    }
  }

  lemma {:induction false} WidestNonneg(own: Gaps, order: seq<VmArea>, lo: int, hi: int)
    requires 0 <= lo <= hi <= |order|
    requires forall i :: lo <= i < hi ==> order[i] in own
    ensures Widest(own, order, lo, hi) >= 0
    decreases hi - lo
  {
    if lo < hi { WidestNonneg(own, order, lo, hi - 1); }
  }

  lemma {:induction false} WidestIsMax(own: Gaps, order: seq<VmArea>, lo: int, hi: int)
    requires 0 <= lo < hi <= |order|
    requires forall i :: lo <= i < hi ==> order[i] in own && own[order[i]] >= 0
    ensures forall i :: lo <= i < hi ==> own[order[i]] <= Widest(own, order, lo, hi)
    ensures exists i :: lo <= i < hi && own[order[i]] == Widest(own, order, lo, hi)
    decreases hi - lo
  {
    if lo < hi - 1 {
      WidestIsMax(own, order, lo, hi - 1);
    } else {
      assert Widest(own, order, lo, lo) == 0;
      assert own[order[lo]] == Widest(own, order, lo, hi);
    }
  }

  /**
   The meaning of the locally checked caches: in a tree whose caches are all right, each cache is the
   widest hole in front of any node of its subtree.
   */
  lemma {:induction false} CacheIsWidest(t: Shape, own: Gaps, gaps: Gaps, n: VmArea)
    requires t.Tree() && GapsOk(t, own, gaps) && Covered(t, own, gaps) && n in t.span
    requires forall m :: m in t.span ==> own[m] >= 0
    ensures 0 <= t.span[n].lo <= t.span[n].hi <= |t.order|
    ensures gaps[n] == Widest(own, t.order, t.span[n].lo, t.span[n].hi)
    decreases t.span[n].hi - t.span[n].lo
  {
    assert t.NodeOk(n) && t.AtOk(n) && GapOk(t, own, gaps, n);
    var k, s := t.links[n], t.span[n];
    if k.left != null { CacheIsWidest(t, own, gaps, k.left); }
    if k.right != null { CacheIsWidest(t, own, gaps, k.right); }
    WidestSplit(own, t.order, s.lo, s.at, s.hi);
    WidestSplit(own, t.order, s.at, s.at + 1, s.hi);
    assert Widest(own, t.order, s.at, s.at) == 0;
    assert Widest(own, t.order, s.at, s.at + 1) == own[n];
  }

  // ------------------------------------------------------------ one propagation step

  /**
   Refreshing one cache moves the only possibly wrong cache to the parent. If the cache did not
   change, no cache is wrong: stopping there is sound.
   */
  lemma PropagateStep(t: Shape, own: Gaps, gaps: Gaps, n: VmArea, bad: set<VmArea?>)
    requires t.Tree() && Covered(t, own, gaps) && n in t.span && n in t.links
    requires GapsOkBut(t, own, gaps, bad + {n})
    ensures GapsOkBut(t, own, gaps[n := Expected(t.links, own, gaps, n)], (bad - {n}) + {t.links[n].parent})
    ensures gaps[n] == Expected(t.links, own, gaps, n) ==> GapsOkBut(t, own, gaps, bad - {n})
  {
    assert t.NodeOk(n);
    var gaps' := gaps[n := Expected(t.links, own, gaps, n)];
    forall m | m in t.span && m !in (bad - {n}) + {t.links[n].parent}
      ensures GapOk(t, own, gaps', m)
    {
      assert t.NodeOk(m);
      if m != n { assert GapOk(t, own, gaps, m); }
    }
    if gaps[n] == Expected(t.links, own, gaps, n) {
      forall m | m in t.span && m !in bad - {n}
        ensures GapOk(t, own, gaps, m)
      {
        assert t.NodeOk(m);
      }
    }
  }

  // ------------------------------------------------------------ rotations

  /** `vma_rb_gap_rotate`: the new top takes over the old top's cache; the old top recomputes. */
  ghost function GapRotate(l: map<VmArea, Link>, own: Gaps, gaps: Gaps, old_: VmArea, new_: VmArea): Gaps
    requires old_ in l && old_ in own && old_ in gaps
  {
    gaps[new_ := gaps[old_]][old_ := Expected(l, own, gaps, old_)]
  }

  lemma RotateRightGap(t: Shape, own: Gaps, gaps: Gaps, g: VmArea, p: VmArea, n: VmArea)
    requires t.Tree() && GapsOk(t, own, gaps) && Covered(t, own, gaps)
    requires g in t.span && g in t.links && t.links[g].left == p && p in t.links
    requires n in t.span
    ensures GapOk(RotateRight(t, g, p), own, GapRotate(RotateRight(t, g, p).links, own, gaps, g, p), n)
  {
    assert t.NodeOk(g) && t.NodeOk(p);
    assert GapOk(t, own, gaps, g) && GapOk(t, own, gaps, p);
    if n != g && n != p {
      assert t.NodeOk(n) && GapOk(t, own, gaps, n);
    }
  }

  lemma RotateRightGaps(t: Shape, own: Gaps, gaps: Gaps, g: VmArea, p: VmArea)
    requires t.Tree() && GapsOk(t, own, gaps) && Covered(t, own, gaps)
    requires g in t.span && g in t.links && t.links[g].left == p && p in t.links
    ensures var r := RotateRight(t, g, p); GapsOk(r, own, GapRotate(r.links, own, gaps, g, p))
  {
    var r := RotateRight(t, g, p);
    assert t.NodeOk(g) && t.NodeOk(p);
    forall n | n in r.span
      ensures GapOk(r, own, GapRotate(r.links, own, gaps, g, p), n)
    {
      RotateRightGap(t, own, gaps, g, p, n);
    }
  }

  lemma MirrorGaps(t: Shape, own: Gaps, gaps: Gaps)
    requires GapsOk(t, own, gaps)
    ensures GapsOk(Mirror(t), own, gaps)
  {
    forall n | n in Mirror(t).span
      ensures GapOk(Mirror(t), own, gaps, n)
    {
      assert GapOk(t, own, gaps, n);
    }
  }

  // ------------------------------------------------------------ linking and erasing

  /** A leaf linked with cache 0 leaves every other cache right. */
  lemma LinkLeafGaps(t: Shape, own: Gaps, gaps: Gaps, node: VmArea, p: VmArea?, left: bool, k: int)
    requires t.Tree() && GapsOk(t, own, gaps) && EmptyLink(t, p, left, k) && node !in t.span
    ensures GapsOkBut(LinkLeaf(t, node, p, left, k), own, gaps[node := 0], {node})
  {
    var r := LinkLeaf(t, node, p, left, k);
    forall n | n in r.span && n != node
      ensures GapOk(r, own, gaps[node := 0], n)
    {
      assert t.NodeOk(n) && GapOk(t, own, gaps, n);
    }
  }

  /** Splicing a node out leaves only its parent's cache in doubt. */
  lemma SpliceGaps(t: Shape, own: Gaps, gaps: Gaps, node: VmArea, c: VmArea?)
    requires t.Tree() && GapsOkBut(t, own, gaps, {node}) && OnlyChild(t, node, c)
    ensures 0 <= t.span[node].at < |t.order|
    ensures GapsOkBut(Splice(t, node, c), own, gaps, {t.links[node].parent})
  {
    assert t.NodeOk(node);
    var r := Splice(t, node, c);
    forall n | n in r.span && n != t.links[node].parent
      ensures GapOk(r, own, gaps, n)
    {
      assert t.NodeOk(n) && GapOk(t, own, gaps, n);
    }
  }

  /** Promoting the successor with the erased node's cache leaves it and its old parent in doubt. */
  lemma PromoteGaps(t: Shape, own: Gaps, gaps: Gaps, node: VmArea, s: VmArea)
    requires t.Tree() && Covered(t, own, gaps) && GapsOkBut(t, own, gaps, {node}) && Successor(t, node, s)
    ensures 0 <= t.span[node].at < |t.order|
    ensures GapsOkBut(Promote(t, node, s), own, gaps[s := gaps[node]], {s, Spine(t, node, s)})
  {
    SuccessorPlace(t, node, s);
    var r := Promote(t, node, s);
    forall n | n in r.span && n != s && n != Spine(t, node, s)
      ensures GapOk(r, own, gaps[s := gaps[node]], n)
    {
      assert t.NodeOk(n) && GapOk(t, own, gaps, n);
    }
  }

  /** The measure of a walk up: positions outside the subtree. */
  ghost function Above(t: Shape, n: VmArea?): int {
    if n == null || n !in t.span then 0 else 1 + |t.order| - (t.span[n].hi - t.span[n].lo)
  }

  /** One round of a walk up, with or without a change. */
  lemma WalkStep(t: Shape, own: Gaps, gaps: Gaps, n: VmArea, bad: set<VmArea?>, stop: VmArea?)
    requires t.Tree() && Covered(t, own, gaps) && n in t.span && n in t.links
    requires GapsOkBut(t, own, gaps, bad + {n})
    ensures GapsOkBut(t, own, gaps[n := Expected(t.links, own, gaps, n)], bad + {t.links[n].parent})
    ensures gaps[n] == Expected(t.links, own, gaps, n) ==> GapsOkBut(t, own, gaps, bad + {stop})
    ensures 0 <= Above(t, t.links[n].parent) < Above(t, n)
  {
    PropagateStep(t, own, gaps, n, bad);
    assert t.NodeOk(n);
    var p := t.links[n].parent;
    if p != null { assert t.NodeOk(p); }
    assert (bad + {n}) - {n} <= bad;
    forall m | m in t.span && m !in bad + {p}
      ensures GapOk(t, own, gaps[n := Expected(t.links, own, gaps, n)], m)
    {
      assert m !in (bad - {n}) + {p};
    }
  }

  /**
   The nodes that a walk up from one of them to `stop` passes: each shows the links of `t`, and the
   parent of each is another one or `stop`.
   */
  ghost predicate Walkable(t: Shape, l: map<VmArea, Link>, own: Gaps, walk: set<VmArea>, stop: VmArea?) {
    && walk <= t.span.Keys && walk <= l.Keys && walk <= own.Keys && walk <= t.links.Keys
    && forall n :: n in walk ==>
         && l[n] == t.links[n] && own[n] >= 0
         && (t.links[n].parent == stop || t.links[n].parent in walk)
  }
}
