/**
 What one step of `rb_insert` or `rb_erase`, given as a relation between the snapshots before and
 after a few pointer assignments, does to the tree.
 */
module RbSteps {
  import opened VmAreas
  import opened RbShape
  import opened RbGaps
  import opened RbBalance

  /** A tree whose own gaps are holes, not overlaps, and whose caches are right. */
  ghost predicate Fit(t: Shape, own: Gaps, gaps: Gaps) {
    && t.Tree() && t.span.Keys <= t.links.Keys && Covered(t, own, gaps)
    && (forall n :: n in t.span ==> own[n] >= 0)
    && GapsOk(t, own, gaps)
  }

  // ---------------------------------------------------------------- relations between snapshots

  /** `r` is `l` with the same rotation done by pointer assignments. */
  ghost predicate Rotated(l: map<VmArea, Link>, r: map<VmArea, Link>, g: VmArea, p: VmArea)
    requires g in l && p in l
  {
    var mid, up := l[p].right, l[g].parent;
    && r.Keys == l.Keys
    && r[g] == Link(mid, l[g].right, p)
    && r[p] == Link(l[p].left, g, up)
    && (mid != null && mid in l ==> r[mid] == l[mid].(parent := g))
    && (up != null && up in l ==> r[up] == Link(Swap(l[up].left, g, p), Swap(l[up].right, g, p), l[up].parent))
    && (forall n :: n in l && n != g && n != p && n != mid && n != up ==> r[n] == l[n])
  }

  /** `l` is well formed around the nodes of a right rotation at `g`. */
  ghost predicate RotationSite(l: map<VmArea, Link>, g: VmArea, p: VmArea) {
    && g in l && p in l && g != p && l[g].right != p && l[g].right != g && (l[g].right != null ==> l[g].right in l)
    && (var mid := l[p].right; mid != null ==> mid in l && mid != g && mid != p && mid != l[g].parent)
    && (var up := l[g].parent;
        up != null ==> up in l && up != g && up != p && ((l[up].left == g) != (l[up].right == g)))
  }

  /** `r` is `c` after `mid`, if there is one, is painted black, `p` takes the colour `top` and `g` turns red. */
  ghost predicate Repainted(c: Colours, r: Colours, mid: VmArea?, p: VmArea, top: bool, g: VmArea) {
    && r.Keys == c.Keys && g in c && p in c
    && !r[g] && r[p] == top
    && (mid != null && mid in c && mid != p && mid != g ==> r[mid])
    && forall n :: n in c && n != g && n != p && n != mid ==> r[n] == c[n]
  }

  /** The caches after `vma_rb_gap_rotate(g, p)`. */
  ghost predicate Regapped(m: Gaps, r: Gaps, own: Gaps, l: map<VmArea, Link>, g: VmArea, p: VmArea) {
    && r.Keys == m.Keys && g in m && p in m && g in l && g in own
    && r[p] == m[g] && r[g] == Expected(l, own, r, g)
    && forall n :: n in m && n != g && n != p ==> r[n] == m[n]
  }

  ghost predicate HalfSite(l: map<VmArea, Link>, g: VmArea, p: VmArea) {
    && g in l && p in l && g != p && l[g].right != p && l[g].right != g && (l[g].right != null ==> l[g].right in l)
    && (var mid := l[p].right; mid != null ==> mid in l && mid != g && mid != p)
  }

  /** A rotation at `g` without the relinking of `g`'s old parent: `p.parent` is left stale. */
  ghost predicate HalfRotated(l: map<VmArea, Link>, r: map<VmArea, Link>, g: VmArea, p: VmArea)
    requires g in l && p in l
  {
    var mid := l[p].right;
    && r.Keys == l.Keys
    && r[g] == Link(mid, l[g].right, p)
    && r[p] == Link(l[p].left, g, l[p].parent)
    && (mid != null && mid in l ==> r[mid] == l[mid].(parent := g))
    && (forall n :: n in l && n != g && n != p && n != mid ==> r[n] == l[n])
  }

  /** `l` differs from the links of `t` at most where a rotation at `g` is going to write. */
  ghost predicate Pending(t: Shape, l: map<VmArea, Link>, g: VmArea, p: VmArea) {
    && g in t.links && p in t.links && l.Keys == t.links.Keys && g != p
    && l[g].right == t.links[g].right && l[g].parent == t.links[g].parent
    && l[p].left == t.links[p].left && l[p].right == t.links[p].right
    && forall n :: n in l && n != g && n != p ==> l[n] == t.links[n]
  }

  // ---------------------------------------------------------------- rotations

  /** Around a node of a tree and its left child a rotation is possible. */
  lemma SiteOk(t: Shape, own: Gaps, gaps: Gaps, l: map<VmArea, Link>, g: VmArea, p: VmArea)
    requires Fit(t, own, gaps) && g in t.span && Pending(t, l, g, p) && t.links[g].left == p
    ensures RotationSite(l, g, p) && p in t.span && g in own && own[g] >= 0
    ensures t.root == g <==> t.links[g].parent == null
  {
    assert t.NodeOk(g) && t.NodeOk(p);
    var mid, up := t.links[p].right, t.links[g].parent;
    if up != null { assert t.NodeOk(up); }
    if mid != null { assert t.NodeOk(mid); }
  }

  lemma RotatedIs(t: Shape, l: map<VmArea, Link>, r: map<VmArea, Link>, g: VmArea, p: VmArea)
    requires Pending(t, l, g, p) && RotationSite(l, g, p) && Rotated(l, r, g, p)
    ensures r == RotatedLinks(t.links, g, p)
  {
  }

  lemma RegappedIs(m: Gaps, r: Gaps, own: Gaps, l: map<VmArea, Link>, g: VmArea, p: VmArea)
    requires Regapped(m, r, own, l, g, p) && g != p && l[g].left != p && l[g].right != p && l[g].left != g && l[g].right != g
    ensures r == GapRotate(l, own, m, g, p)
  {
  }

  /** The assignments of a right rotation turn `t` into its rotation, with all caches right again. */
  lemma RotateRightStep(t: Shape, l: map<VmArea, Link>, r: Shape, own: Gaps, gaps: Gaps, gaps': Gaps, g: VmArea, p: VmArea)
    requires Fit(t, own, gaps) && g in t.span && Pending(t, l, g, p) && t.links[g].left == p
    requires Rotated(l, r.links, g, p) && Regapped(gaps, gaps', own, r.links, g, p)
    requires r.root == if t.links[g].parent == null then p else t.root
    requires r.order == t.order && r.span == RotateRight(t, g, p).span
    ensures r == RotateRight(t, g, p) && Fit(r, own, gaps')
  {
    SiteOk(t, own, gaps, l, g, p);
    RotatedIs(t, l, r.links, g, p);
    RotateRightTree(t, g, p);
    RotateRightGaps(t, own, gaps, g, p);
    RegappedIs(gaps, gaps', own, r.links, g, p);
  }

  ghost function MirrorLinks(l: map<VmArea, Link>): map<VmArea, Link> {
    map n | n in l :: Link(l[n].right, l[n].left, l[n].parent)
  }

  /** The pointers after a left rotation at `g`. */
  ghost predicate RotatedBack(l: map<VmArea, Link>, r: map<VmArea, Link>, g: VmArea, p: VmArea)
    requires g in l && p in l
  {
    var mid, up := l[p].left, l[g].parent;
    && r.Keys == l.Keys
    && r[g] == Link(l[g].left, mid, p)
    && r[p] == Link(g, l[p].right, up)
    && (mid != null && mid in l ==> r[mid] == l[mid].(parent := g))
    && (up != null && up in l ==> r[up] == Link(Swap(l[up].left, g, p), Swap(l[up].right, g, p), l[up].parent))
    && (forall n :: n in l && n != g && n != p && n != mid && n != up ==> r[n] == l[n])
  }

  lemma RotatedMirrored(l: map<VmArea, Link>, r: map<VmArea, Link>, g: VmArea, p: VmArea)
    requires g in l && p in l && RotatedBack(l, r, g, p)
    ensures Rotated(MirrorLinks(l), MirrorLinks(r), g, p)
  {
  }

  lemma SiteBack(l: map<VmArea, Link>, g: VmArea, p: VmArea)
    requires RotationSite(MirrorLinks(l), g, p)
    ensures g in l && p in l && g != p && l[g].left != p && l[g].left != g && (l[g].left != null ==> l[g].left in l)
    ensures var mid := l[p].left; mid != null ==> mid in l && mid != g && mid != p && mid != l[g].parent
    ensures var up := l[g].parent; up != null ==> up in l && up != g && up != p && ((l[up].left == g) != (l[up].right == g))
  {
  }

  lemma MirrorLink(t: Shape, n: VmArea)
    ensures Mirror(t).links.Keys == t.links.Keys && Mirror(t).span.Keys == t.span.Keys
    ensures n in t.links ==> Mirror(t).links[n] == Link(t.links[n].right, t.links[n].left, t.links[n].parent)
  {
  }

  lemma MirrorTwice(t: Shape)
    ensures Mirror(Mirror(t)) == t
    ensures Mirror(t).links == MirrorLinks(t.links) && MirrorLinks(MirrorLinks(t.links)) == t.links
  {
    assert Mirror(Mirror(t)).order == t.order;
    forall n | n in t.links
      ensures Mirror(Mirror(t)).links[n] == t.links[n] && MirrorLinks(MirrorLinks(t.links))[n] == t.links[n]
    {
    }
    assert Mirror(Mirror(t)).span == t.span;
    assert MirrorLinks(MirrorLinks(t.links)) == t.links;
  }

  lemma MirrorSpan(r: Shape, m: Shape)
    requires r.span == Mirror(m).span && |r.order| == |m.order|
    ensures Mirror(r).span == m.span
  {
  }

  lemma MirrorFit(t: Shape, own: Gaps, gaps: Gaps)
    requires Fit(t, own, gaps)
    ensures Fit(Mirror(t), own, gaps)
  {
    MirrorTree(t);
    MirrorGaps(t, own, gaps);
  }

  lemma MirrorRegapped(m: Gaps, r: Gaps, own: Gaps, l: map<VmArea, Link>, g: VmArea, p: VmArea)
    requires Regapped(m, r, own, l, g, p)
    ensures Regapped(m, r, own, MirrorLinks(l), g, p)
  {
  }

  lemma RotateLeftStep(t: Shape, l: map<VmArea, Link>, r: Shape, own: Gaps, gaps: Gaps, gaps': Gaps, g: VmArea, p: VmArea)
    requires Fit(t, own, gaps) && g in t.span && Pending(Mirror(t), MirrorLinks(l), g, p) && t.links[g].right == p
    requires Rotated(MirrorLinks(l), MirrorLinks(r.links), g, p) && Regapped(gaps, gaps', own, r.links, g, p)
    requires r.root == if t.links[g].parent == null then p else t.root
    requires r.order == t.order && r.span == RotateLeft(t, g, p).span
    ensures r == RotateLeft(t, g, p) && Fit(r, own, gaps')
  {
    MirrorFit(t, own, gaps);
    MirrorRegapped(gaps, gaps', own, r.links, g, p);
    MirrorSpan(r, RotateRight(Mirror(t), g, p));
    MirrorTwice(r);
    RotateRightStep(Mirror(t), MirrorLinks(l), Mirror(r), own, gaps, gaps', g, p);
    MirrorFit(Mirror(r), own, gaps');
  }

  /** Case 2 on the right: the half rotation below `g` leaves the full rotation of `t` pending at `g`. */
  lemma HalfRightStep(t: Shape, l: map<VmArea, Link>, own: Gaps, gaps: Gaps, gaps': Gaps,
                      g: VmArea, p: VmArea, n: VmArea)
    requires Fit(t, own, gaps) && {g, p, n} <= t.span.Keys && t.links[g].right == p && t.links[p].left == n
    requires HalfRotated(t.links, l, p, n) && Regapped(gaps, gaps', own, l, p, n)
    ensures var r := RotateRight(t, p, n);
            && Fit(r, own, gaps') && Pending(Mirror(r), MirrorLinks(l), g, n)
            && r.links[g].right == n && r.links[g].left == t.links[g].left && r.links[g].parent == t.links[g].parent
            && r.links[n].right == p && r.root == t.root && r.links.Keys == t.links.Keys
  {
    var r := RotateRight(t, p, n);
    assert t.NodeOk(g) && t.NodeOk(p) && t.NodeOk(n);
    assert t.links[n].right != null ==> t.NodeOk(t.links[n].right);
    RotateRightTree(t, p, n);
    RotateRightGaps(t, own, gaps, p, n);
    HalfRegapped(t, l, own, gaps, gaps', p, n);
    HalfPending(t, l, g, p, n);
  }

  lemma HalfSiteOk(t: Shape, own: Gaps, gaps: Gaps, p: VmArea, n: VmArea)
    requires Fit(t, own, gaps) && p in t.span
    ensures p in t.links && p in own && own[p] >= 0
    ensures t.links[p].left == n ==> n in t.span && HalfSite(t.links, p, n)
    ensures t.links[p].right == n ==> n in t.span && HalfSite(MirrorLinks(t.links), p, n)
  {
    assert t.NodeOk(p);
    if t.links[p].left == n || t.links[p].right == n {
      assert t.NodeOk(n);
      assert t.links[n].right != null ==> t.NodeOk(t.links[n].right);
      assert t.links[n].left != null ==> t.NodeOk(t.links[n].left);
    }
  }

  lemma HalfRegapped(t: Shape, l: map<VmArea, Link>, own: Gaps, gaps: Gaps, gaps': Gaps, p: VmArea, n: VmArea)
    requires t.Tree() && {p, n} <= t.span.Keys && {p, n} <= t.links.Keys && t.links[p].left == n
    requires HalfRotated(t.links, l, p, n) && Regapped(gaps, gaps', own, l, p, n)
    ensures gaps' == GapRotate(RotateRight(t, p, n).links, own, gaps, p, n)
  {
    assert t.NodeOk(p) && t.NodeOk(n);
    RegappedIs(gaps, gaps', own, l, p, n);
    assert l[p] == RotateRight(t, p, n).links[p];
  }

  lemma HalfPending(t: Shape, l: map<VmArea, Link>, g: VmArea, p: VmArea, n: VmArea)
    requires t.Tree() && {g, p, n} <= t.span.Keys && {g, p, n} <= t.links.Keys
    requires t.links[g].right == p && t.links[p].left == n && HalfRotated(t.links, l, p, n)
    ensures Pending(Mirror(RotateRight(t, p, n)), MirrorLinks(l), g, n)
    ensures var r := RotateRight(t, p, n);
            && r.links[g].right == n && r.links[g].left == t.links[g].left && r.links[g].parent == t.links[g].parent
            && r.links[n].right == p && r.root == t.root
  {
    var r := RotateRight(t, p, n);
    assert t.NodeOk(g) && t.NodeOk(p) && t.NodeOk(n);
    assert t.links[n].right != null ==> t.NodeOk(t.links[n].right);
    forall m | m in l && m != g && m != n
      ensures l[m] == r.links[m]
    {
    }
    forall m | m in l && m != g && m != n
      ensures MirrorLinks(l)[m] == Mirror(r).links[m]
    {
    }
  }

  /** Case 2 on the left. */
  lemma HalfLeftStep(t: Shape, l: map<VmArea, Link>, own: Gaps, gaps: Gaps, gaps': Gaps,
                     g: VmArea, p: VmArea, n: VmArea)
    requires Fit(t, own, gaps) && {g, p, n} <= t.span.Keys && t.links[g].left == p && t.links[p].right == n
    requires HalfRotated(MirrorLinks(t.links), MirrorLinks(l), p, n) && Regapped(gaps, gaps', own, l, p, n)
    ensures var r := RotateLeft(t, p, n);
            && Fit(r, own, gaps') && Pending(r, l, g, n)
            && r.links[g].left == n && r.links[g].right == t.links[g].right && r.links[g].parent == t.links[g].parent
            && r.links[n].left == p && r.root == t.root && r.links.Keys == t.links.Keys
  {
    var m := Mirror(t);
    MirrorTwice(t);
    MirrorFit(t, own, gaps);
    MirrorRegapped(gaps, gaps', own, l, p, n);
    HalfRightStep(m, MirrorLinks(l), own, gaps, gaps', g, p, n);
    MirrorFit(RotateRight(m, p, n), own, gaps');
    assert MirrorLinks(MirrorLinks(l)) == l;
  }

  // ---------------------------------------------------------------- the colours of an insertion

  lemma RepaintedIs(c: Colours, r: Colours, mid: VmArea?, p: VmArea, top: bool, g: VmArea)
    requires Repainted(c, r, mid, p, top, g) && g != p && (mid != null ==> mid in c)
    ensures r == Blacken(c, mid)[p := top][g := false]
  {
  }

  /** A defect at `node` that Cases 2 and 3 on the left can remove: its parent is red, its uncle is not. */
  ghost predicate LeftDefect(t: Shape, c: Colours, bh: Heights, node: VmArea, p: VmArea, g: VmArea) {
    && t.Tree() && {node, p, g} <= t.span.Keys && t.span.Keys <= t.links.Keys
    && t.links.Keys <= c.Keys && BalancedBut(t, c, bh, node, null)
    && Red(c, node) && Red(c, p) && t.links[g].left == p && !Red(c, t.links[g].right)
  }

  /** Of two red nodes the upper has no second red child. */
  lemma InnerRed(t: Shape, c: Colours, bh: Heights, node: VmArea, p: VmArea)
    requires t.Tree() && BalancedBut(t, c, bh, node, null) && p in t.span && p in t.links && t.links[p].right == node && Red(c, p)
    ensures !Red(c, t.links[p].left)
  {
    assert t.NodeOk(p) && t.NodeOk(node) && NodeBalanced(t, c, bh, node, null, p);
  }

  lemma InnerColours(t: Shape, c: Colours, c': Colours, bh: Heights, node: VmArea, p: VmArea, g: VmArea)
    requires LeftDefect(t, c, bh, node, p, g) && t.links[p].right == node
    requires Repainted(c, c', t.links[node].left, node, false, p)
    ensures LeftDefect(RotateLeft(t, p, node), c', bh, p, node, g)
    ensures c'[g] == c[g] && RotateLeft(t, p, node).links[node].left == p
  {
    hide RotateLeft, NodeBalanced;
    assert t.NodeOk(p) && t.NodeOk(node) && t.NodeOk(g);
    var mid := t.links[node].left;
    if mid != null { assert t.NodeOk(mid); }
    InnerRed(t, c, bh, node, p);
    RepaintedIs(c, c', mid, node, false, p);
    assert c' == Blacken(c, mid)[p := false];
    InsertInner(t, c, bh, node, p);
    RotateLeftTree(t, p, node);
    RotatedLeft(t, p, node, node);
    RotatedLeft(t, p, node, g);
  }

  lemma OuterStep(t: Shape, c: Colours, c': Colours, bh: Heights, node: VmArea, p: VmArea, g: VmArea)
    requires LeftDefect(t, c, bh, node, p, g) && t.links[p].left == node
    requires Repainted(c, c', t.links[p].right, p, c[g], g)
    ensures p in bh && g in bh
    ensures BalancedBut(RotateRight(t, g, p), c', bh[p := bh[g]][g := bh[p]], null, null)
  {
    assert t.NodeOk(p) && t.NodeOk(g);
    var mid := t.links[p].right;
    if mid != null { assert t.NodeOk(mid); }
    RepaintedIs(c, c', mid, p, c[g], g);
    InsertOuter(t, c, bh, node, p, g);
  }

  // ---------------------------------------------------------------- whole steps of rb_insert

  /** Everything the tree code reads and writes, at one moment. */
  datatype State = State(t: Shape, own: Gaps, gaps: Gaps, col: Colours)

  ghost predicate Good(a: State) {
    Fit(a.t, a.own, a.gaps) && a.t.links.Keys == a.col.Keys
  }

  /** Left and right exchanged. What is said below for the left side holds of mirrored states on the right. */
  ghost function MirrorState(a: State): State {
    a.(t := Mirror(a.t))
  }

  lemma MirrorGood(a: State)
    requires Good(a)
    ensures Good(MirrorState(a))
  {
    MirrorFit(a.t, a.own, a.gaps);
  }

  lemma MirrorRootBlack(a: State)
    ensures RootBlack(a.t, a.col) == RootBlack(Mirror(a.t), a.col)
  {
  }

  lemma SiteOkLeft(t: Shape, own: Gaps, gaps: Gaps, l: map<VmArea, Link>, g: VmArea, p: VmArea)
    requires Fit(t, own, gaps) && g in t.span && g in t.links
    requires Pending(Mirror(t), MirrorLinks(l), g, p) && t.links[g].right == p
    ensures RotationSite(MirrorLinks(l), g, p) && p in t.span && g in own && own[g] >= 0
    ensures g in l && p in l && l[g].parent == t.links[g].parent && p in t.links && l[p].left == t.links[p].left
    ensures t.root == g <==> t.links[g].parent == null
  {
    MirrorFit(t, own, gaps);
    SiteOk(Mirror(t), own, gaps, MirrorLinks(l), g, p);
    assert MirrorLinks(l)[g].parent == Mirror(t).links[g].parent;
    assert MirrorLinks(l)[p].right == Mirror(t).links[p].right;
  }

  /** `a` became `b` by a rotation at `g` that lifts its left child `p`, with the colours of Case 3. */
  ghost predicate OuterDone(a: State, b: State, g: VmArea, p: VmArea) {
    && Good(b) && b.own == a.own && {g, p} <= a.t.links.Keys && {g, p} <= a.col.Keys
    && b.t == RotateRight(a.t, g, p)
    && Repainted(a.col, b.col, a.t.links[p].right, p, a.col[g], g)
  }

  /** `a` became `b` by a rotation at `p` that lifts its right child `n`, with the colours of Case 2. */
  ghost predicate InnerDone(a: State, b: State, p: VmArea, n: VmArea) {
    && Good(b) && b.own == a.own && {n, p} <= a.t.links.Keys
    && b.t == RotateLeft(a.t, p, n)
    && Repainted(a.col, b.col, a.t.links[n].left, n, false, p)
  }

  /** The red `node` below `parent`, the left child of `gparent`. */
  ghost predicate InsertSite(a: State, node: VmArea, parent: VmArea, gparent: VmArea) {
    && {node, parent, gparent} <= a.t.span.Keys && {node, parent, gparent} <= a.t.links.Keys
    && a.t.links[gparent].left == parent
    && (a.t.links[parent].left == node || a.t.links[parent].right == node)
    && Red(a.col, node)
  }

  /** The tree is balanced but for the red `node`; `bh` certifies it. */
  ghost predicate Defect(a: State, bh: Heights, node: VmArea) {
    bh.Keys == a.t.span.Keys && BalancedBut(a.t, a.col, bh, node, null)
  }

  /** What the two rotations of `rb_insert` do: same nodes, same sequence, black root, and the defect is gone. */
  ghost predicate Fixed(a: State, b: State, bh: Heights, bh': Heights, node: VmArea) {
    && Good(b) && b.own == a.own && b.t.span.Keys == a.t.span.Keys && b.t.order == a.t.order
    && RootBlack(b.t, b.col)
    && (Defect(a, bh, node) ==> bh'.Keys == b.t.span.Keys && BalancedBut(b.t, b.col, bh', null, null))
  }

  lemma OuterKeeps(a: State, b: State, g: VmArea, p: VmArea)
    requires Good(a) && OuterDone(a, b, g, p) && RootBlack(a.t, a.col) && g in a.t.span && a.t.links[g].left == p
    ensures RootBlack(b.t, b.col) && b.t.span.Keys == a.t.span.Keys && b.t.order == a.t.order
  {
    assert a.t.NodeOk(g) && a.t.NodeOk(p);
    var mid := a.t.links[p].right;
    if mid != null { assert a.t.NodeOk(mid); }
  }

  lemma RotateLeftAbove(t: Shape, g: VmArea, p: VmArea, n: VmArea)
    requires {g, p, n} <= t.links.Keys && g != p && g != n && p != n && t.links[p].parent == g && t.links[n].left != g
    requires t.links[g].left == p && t.links[g].right != p
    ensures var r := RotateLeft(t, p, n);
            && r.links[g] == t.links[g].(left := n) && r.links[n].left == p && r.order == t.order
            && r.span.Keys == t.span.Keys && r.root == Swap(t.root, p, n)
  {
    var m := RotateRight(Mirror(t), p, n);
    assert m.links[g] == Link(t.links[g].right, n, t.links[g].parent);
    MirrorTwice(t);
  }

  /** Case 2 does not touch the root and leaves a defect for Case 3. */
  lemma InnerKeeps(a: State, b: State, g: VmArea, p: VmArea, n: VmArea)
    requires Good(a) && InnerDone(a, b, p, n) && RootBlack(a.t, a.col) && InsertSite(a, n, p, g) && a.t.links[p].right == n
    ensures Good(b) && RootBlack(b.t, b.col) && b.t.span.Keys == a.t.span.Keys && b.t.order == a.t.order
    ensures g in b.t.links && n in b.t.links && b.t.links[g].left == n && b.t.links[n].left == p
    ensures g in b.t.span && b.t.links[g].right == a.t.links[g].right
  {
    hide RotateLeft, RotateRight;
    assert a.t.NodeOk(p) && a.t.NodeOk(n) && a.t.NodeOk(g);
    var mid := a.t.links[n].left;
    if mid != null { assert a.t.NodeOk(mid); }
    RotateLeftAbove(a.t, g, p, n);
  }

  lemma PendingSelf(t: Shape, own: Gaps, gaps: Gaps, g: VmArea, p: VmArea)
    requires Fit(t, own, gaps) && g in t.span && g in t.links && t.links[g].left == p
    ensures Pending(t, t.links, g, p)
  {
    assert t.NodeOk(g) && t.NodeOk(p);
  }

  /** Case 3 alone. */
  lemma OuterFixed(a: State, b: State, bh: Heights, g: VmArea, p: VmArea, n: VmArea) returns (bh': Heights)
    requires Good(a) && OuterDone(a, b, g, p) && RootBlack(a.t, a.col) && InsertSite(a, n, p, g) && a.t.links[p].left == n
    requires Red(a.col, p) && !Red(a.col, a.t.links[g].right)
    ensures Fixed(a, b, bh, bh', n)
  {
    OuterKeeps(a, b, g, p);
    bh' := bh;
    if Defect(a, bh, n) {
      OuterStep(a.t, a.col, b.col, bh, n, p, g);
      bh' := bh[p := bh[g]][g := bh[p]];
    }
  }

  /** Case 2 followed by Case 3. */
  lemma InnerFixed(a: State, m: State, b: State, bh: Heights, g: VmArea, p: VmArea, n: VmArea) returns (bh': Heights)
    requires Good(a) && InnerDone(a, m, p, n) && InsertSite(a, n, p, g) && RootBlack(a.t, a.col) && a.t.links[p].right == n
    requires OuterDone(m, b, g, n) && Red(a.col, p) && !Red(a.col, a.t.links[g].right)
    ensures Fixed(a, b, bh, bh', n)
  {
    InnerKeeps(a, m, g, p, n);
    OuterKeeps(m, b, g, n);
    bh' := bh;
    if Defect(a, bh, n) {
      InnerColours(a.t, a.col, m.col, bh, n, p, g);
      OuterStep(m.t, m.col, b.col, bh, p, n, g);
      bh' := bh[n := bh[g]][g := bh[n]];
    }
  }

  // The same for mirrored states.

  lemma MirrorSite(a: State, n: VmArea, p: VmArea, g: VmArea)
    requires InsertSite(MirrorState(a), n, p, g)
    ensures {n, p, g} <= a.t.span.Keys && {n, p, g} <= a.t.links.Keys && a.t.links[g].right == p && Red(a.col, n)
  {
  }

  lemma InnerDoneRight(a: State, m: State, p: VmArea, n: VmArea)
    requires Good(m) && m.own == a.own && {n, p} <= a.t.links.Keys && m.t == RotateRight(a.t, p, n)
    requires Repainted(a.col, m.col, a.t.links[n].right, n, false, p)
    ensures InnerDone(MirrorState(a), MirrorState(m), p, n)
  {
    hide Fit, Repainted, RotateRight;
    MirrorGood(m);
    MirrorTwice(a.t);
  }

  lemma InnerKeepsRight(a: State, m: State, g: VmArea, p: VmArea, n: VmArea)
    requires Good(a) && InnerDone(MirrorState(a), MirrorState(m), p, n) && RootBlack(a.t, a.col)
    requires InsertSite(MirrorState(a), n, p, g) && p in a.t.links && a.t.links[p].left == n
    ensures g in m.t.links && m.t.links[g].right == n && g in m.t.span
  {
    hide Good, InnerDone, RootBlack, Mirror;
    MirrorGood(a);
    MirrorRootBlack(a);
    MirrorLink(a.t, p);
    MirrorLink(m.t, g);
    InnerKeeps(MirrorState(a), MirrorState(m), g, p, n);
  }

  lemma InnerFixedRight(a: State, m: State, b: State, bh: Heights, g: VmArea, p: VmArea, n: VmArea) returns (bh': Heights)
    requires Good(a) && InnerDone(MirrorState(a), MirrorState(m), p, n) && RootBlack(a.t, a.col)
    requires InsertSite(MirrorState(a), n, p, g) && p in a.t.links && a.t.links[p].left == n
    requires OuterDone(MirrorState(m), MirrorState(b), g, n) && Red(a.col, p) && g in a.t.links && !Red(a.col, a.t.links[g].left)
    ensures Fixed(MirrorState(a), MirrorState(b), bh, bh', n)
  {
    hide Good, InnerDone, OuterDone, RootBlack, Mirror, Red, Fixed;
    MirrorGood(a);
    MirrorRootBlack(a);
    MirrorLink(a.t, p);
    MirrorLink(a.t, g);
    bh' := InnerFixed(MirrorState(a), MirrorState(m), MirrorState(b), bh, g, p, n);
  }

  lemma MirrorFixed(a: State, b: State, bh: Heights, bh': Heights, node: VmArea)
    requires Fixed(MirrorState(a), MirrorState(b), bh, bh', node)
    ensures Fixed(a, b, bh, bh', node)
  {
    MirrorGood(MirrorState(b));
    MirrorTwice(a.t);
    MirrorTwice(b.t);
    assert a.t.order == Mirror(Mirror(a.t)).order;
    if Defect(a, bh, node) {
      MirrorBalanced(a.t, a.col, bh, node, null);
      MirrorBalanced(Mirror(b.t), b.col, bh', null, null);
    }
  }

  // ---------------------------------------------------------------- the loop of rb_insert

  ghost predicate Balanced(a: State, bh: Heights) {
    bh.Keys == a.t.span.Keys && BalancedBut(a.t, a.col, bh, null, null)
  }

  /** Between two rounds: only colours have changed, `node` is red, and any red root is `node` itself. */
  ghost predicate Climbing(a: State, b: State, node: VmArea) {
    && Good(b) && b == a.(col := b.col) && node in b.t.span && Red(b.col, node)
    && (b.t.root == node || RootBlack(b.t, b.col))
  }

  /** What `rb_insert` owes: same nodes in the same sequence, caches right, a black root. */
  ghost predicate Settled(a: State, b: State) {
    && Good(b) && b.own == a.own && b.t.span.Keys == a.t.span.Keys && b.t.order == a.t.order
    && RootBlack(b.t, b.col)
  }

  ghost function Size(a: State, n: VmArea): int
    requires n in a.t.span
  {
    a.t.span[n].hi - a.t.span[n].lo
  }

  /** The neighbourhood of `node` on its way up. */
  lemma Upwards(a: State, node: VmArea)
    requires Good(a) && node in a.t.span && (a.t.root == node || RootBlack(a.t, a.col))
    ensures node in a.t.links && 0 < Size(a, node) <= |a.t.order|
    ensures var p := a.t.links[node].parent;
            && (p == null <==> a.t.root == node)
            && (p != null ==> p in a.t.span && p in a.t.links && p in a.col && p != node && Size(a, node) < Size(a, p))
            && (p != null ==> a.t.links[p].left == node || a.t.links[p].right == node)
            && (p != null && !a.col[p] ==> a.t.links[p].parent != null)
  {
    assert a.t.NodeOk(node);
    var p := a.t.links[node].parent;
    if p != null { assert a.t.NodeOk(p); }
  }

  /** Case 1 climbs to the grandparent. */
  lemma FlipClimbs(a: State, b: State, node: VmArea, p: VmArea, g: VmArea, u: VmArea)
    requires Good(a) && FlipSite(a.t, a.col, node, p, g, u) && RootBlack(a.t, a.col)
    requires b == a.(col := a.col[u := true][p := true][g := false])
    ensures Climbing(a, b, g) && Size(b, g) > Size(a, node)
  {
    assert a.t.NodeOk(p) && a.t.NodeOk(g) && a.t.NodeOk(u) && a.t.NodeOk(node);
    assert b.t.root == g || RootBlack(b.t, b.col);
  }

  lemma FlipBalance(a: State, b: State, bh: Heights, node: VmArea, p: VmArea, g: VmArea, u: VmArea) returns (bh': Heights)
    requires Good(a) && FlipSite(a.t, a.col, node, p, g, u)
    requires b == a.(col := a.col[u := true][p := true][g := false])
    ensures Defect(a, bh, node) ==> Defect(b, bh', g)
  {
    bh' := bh;
    if Defect(a, bh, node) {
      InsertFlip(a.t, a.col, bh, node, p, g, u);
      bh' := bh[p := bh[p] + 1][u := bh[u] + 1];
    }
  }

  /** Painting a red root black ends the climb. */
  lemma RootSettles(a: State, b: State, bh: Heights, node: VmArea) returns (bh': Heights)
    requires Good(a) && a.t.root == node && node in a.t.span && Red(a.col, node) && b == a.(col := a.col[node := true])
    ensures Settled(a, b) && (Defect(a, bh, node) ==> Balanced(b, bh'))
  {
    assert a.t.NodeOk(node);
    bh' := bh;
    if Defect(a, bh, node) {
      InsertDone(a.t, a.col, bh, node);
      bh' := bh[node := bh[node] + 1];
    }
  }

  /** A black parent ends the climb. */
  lemma ParentSettles(a0: State, a: State, bh: Heights, node: VmArea)
    requires Climbing(a0, a, node) && RootBlack(a.t, a.col) && node in a.t.links
    requires var p := a.t.links[node].parent; p != null && p in a.col && a.col[p]
    ensures Settled(a0, a) && (Defect(a, bh, node) ==> Balanced(a, bh))
  {
    if Defect(a, bh, node) {
      InsertDone(a.t, a.col, bh, node);
    }
  }

  /** The states that the loop of `rb_insert` starts from. */
  ghost predicate Insertable(a: State, node: VmArea) {
    Climbing(a, a, node)
  }

  lemma Starts(a: State)
    ensures a == a.(col := a.col)
  {
  }

  lemma HeightsKeys(a: State, bh: Heights, node: VmArea)
    requires Good(a) && Certifies(a.t, a.col, bh, node, null)
    ensures Defect(a, bh, node)
  {
    forall n | n in a.t.span
      ensures n in bh
    {
      assert NodeBalanced(a.t, a.col, bh, node, null, n);
    }
  }

  /** Chaining: what a round changed is only colours, so what the last step settles is settled for the start. */
  lemma FixedSettles(a0: State, a: State, b: State, bh: Heights, bh': Heights, node: VmArea)
    requires Climbing(a0, a, node) && Fixed(a, b, bh, bh', node)
    ensures Settled(a0, b) && (Defect(a, bh, node) ==> Balanced(b, bh'))
  {
  }

  /** The red node, its red parent and grandparent, when the uncle is not red. */
  lemma SiteForFix(a: State, node: VmArea, p: VmArea, g: VmArea)
    requires Good(a) && node in a.t.span && Red(a.col, node) && {node, p, g} <= a.t.links.Keys && p in a.t.span && g in a.t.span
    requires a.t.links[node].parent == p && a.t.links[p].parent == g
    ensures a.t.links[g].left == p ==> InsertSite(a, node, p, g)
    ensures a.t.links[g].left != p ==> InsertSite(MirrorState(a), node, p, g)
  {
    assert a.t.NodeOk(node) && a.t.NodeOk(p) && a.t.NodeOk(g);
  }

  lemma SiteForFlip(a: State, node: VmArea, p: VmArea, g: VmArea, u: VmArea)
    requires Good(a) && node in a.t.span && {node, p, g, u} <= a.t.links.Keys && p in a.t.span && g in a.t.span
    requires a.t.links[node].parent == p && a.t.links[p].parent == g && Red(a.col, p) && Red(a.col, u)
    requires if a.t.links[g].right == p then a.t.links[g].left == u else a.t.links[g].right == u
    ensures FlipSite(a.t, a.col, node, p, g, u) && p != g && u != g && u in a.t.span
  {
    assert a.t.NodeOk(node) && a.t.NodeOk(p) && a.t.NodeOk(g);
    assert a.t.NodeOk(u);
  }

  lemma BalancedIsRedBlack(a0: State, a: State, bh: Heights)
    requires Settled(a0, a) && Balanced(a, bh)
    ensures RedBlack(a.t, a.col)
  {
    assert Certifies(a.t, a.col, bh, null, null);
  }

  /** The neighbourhood of a red node whose parent is red. */
  lemma RedParent(a: State, node: VmArea, p: VmArea)
    requires Good(a) && node in a.t.span && a.t.root != node && RootBlack(a.t, a.col)
    requires node in a.t.links && a.t.links[node].parent == p && Red(a.col, p)
    ensures p in a.t.span && p in a.t.links && a.t.links[p].parent != null
    ensures var g := a.t.links[p].parent; g in a.t.span && g in a.t.links
    ensures var k := a.t.links[a.t.links[p].parent];
            (k.left != null ==> k.left in a.t.links) && (k.right != null ==> k.right in a.t.links)
  {
    assert a.t.NodeOk(node) && a.t.NodeOk(p);
    assert a.t.NodeOk(a.t.links[p].parent);
  }
}
