/**
 Red-black balance. A map `bh` of black heights certifies it locally. Two defects occur while the
 tree is being edited: a red node `loose` below a red parent (insertion), and an empty child link of
 `short` that stands one black node short (erasure).
 */
module RbBalance {
  import opened VmAreas
  import opened RbShape

  type Colours = map<VmArea, bool>   // true is black
  type Heights = map<VmArea, int>

  ghost predicate Red(col: Colours, c: VmArea?) {
    c != null && c in col && !col[c]
  }

  ghost function Below(bh: Heights, n: VmArea, c: VmArea?, short: VmArea?): int {
    if c != null && c in bh then bh[c] else if n == short then 1 else 0
  }

  ghost predicate NodeBalanced(t: Shape, col: Colours, bh: Heights, loose: VmArea?, short: VmArea?, n: VmArea) {
    && n in t.links && n in col && n in bh
    && var k := t.links[n];
    && (col[n] || (Red(col, k.left) ==> k.left == loose))
    && (col[n] || (Red(col, k.right) ==> k.right == loose))
    && Below(bh, n, k.left, short) == Below(bh, n, k.right, short)
    && bh[n] == Below(bh, n, k.left, short) + (if col[n] then 1 else 0)
    && Below(bh, n, k.left, short) >= 0
  }

  /** Equal black heights and no red child of a red node, but for the two admitted defects. */
  ghost predicate BalancedBut(t: Shape, col: Colours, bh: Heights, loose: VmArea?, short: VmArea?) {
    forall n {:trigger NodeBalanced(t, col, bh, loose, short, n)} ::
      n in t.span ==> NodeBalanced(t, col, bh, loose, short, n)
  }

  ghost predicate Certifies(t: Shape, col: Colours, older bh: Heights, loose: VmArea?, short: VmArea?) {
    bh.Keys <= t.span.Keys && BalancedBut(t, col, bh, loose, short)
  }

  ghost predicate RootBlack(t: Shape, col: Colours) {
    t.root != null ==> t.root in col && col[t.root]
  }

  /** A red-black tree: black root, no red-red edge, equal black heights. */
  ghost predicate RedBlack(t: Shape, col: Colours) {
    RootBlack(t, col) && exists bh :: Certifies(t, col, bh, null, null)
  }

  // ------------------------------------------------------------ insertion

  /** A red node below a black parent, or at the root once it is painted black, is no defect. */
  lemma InsertDone(t: Shape, col: Colours, bh: Heights, node: VmArea)
    requires t.Tree() && node in t.span && node in t.links && node in bh
    requires BalancedBut(t, col, bh, node, null)
    ensures t.links[node].parent != null && t.links[node].parent in col && col[t.links[node].parent] ==>
              BalancedBut(t, col, bh, null, null)
    ensures t.links[node].parent == null && Red(col, node) ==>
              BalancedBut(t, col[node := true], bh[node := bh[node] + 1], null, null)
  {
    assert t.NodeOk(node);
    if t.links[node].parent != null && t.links[node].parent in col && col[t.links[node].parent] {
      forall n | n in t.span
        ensures NodeBalanced(t, col, bh, null, null, n)
      {
        assert t.NodeOk(n) && NodeBalanced(t, col, bh, node, null, n);
      }
    }
    if t.links[node].parent == null && Red(col, node) {
      forall n | n in t.span
        ensures NodeBalanced(t, col[node := true], bh[node := bh[node] + 1], null, null, n)
      {
        assert t.NodeOk(n) && NodeBalanced(t, col, bh, node, null, n);
      }
    }
  }

  /** The nodes that Case 1 of `rb_insert` repaints: red siblings `p` and `u` below `g`, `node` below `p`. */
  ghost predicate FlipSite(t: Shape, col: Colours, node: VmArea, p: VmArea, g: VmArea, u: VmArea) {
    && {node, p, g, u} <= t.span.Keys && {node, p, g, u} <= t.links.Keys
    && t.links[node].parent == p && t.links[p].parent == g && t.links[u].parent == g && u != p
    && Red(col, p) && Red(col, u)
  }

  lemma FlipNode(t: Shape, col: Colours, bh: Heights, node: VmArea, p: VmArea, g: VmArea, u: VmArea, n: VmArea)
    requires t.Tree() && BalancedBut(t, col, bh, node, null) && FlipSite(t, col, node, p, g, u)
    requires p in bh && u in bh && n in t.span
    ensures NodeBalanced(t, col[u := true][p := true][g := false], bh[p := bh[p] + 1][u := bh[u] + 1], g, null, n)
  {
    assert t.NodeOk(p) && t.NodeOk(u) && t.NodeOk(n);
    assert NodeBalanced(t, col, bh, node, null, n);
    if n == g {
      assert t.NodeOk(node);
      assert NodeBalanced(t, col, bh, node, null, p) && NodeBalanced(t, col, bh, node, null, u);
    }
  }

  /** Case 1: with a red uncle, painting parent and uncle black and the grandparent red moves the defect up. */
  lemma InsertFlip(t: Shape, col: Colours, bh: Heights, node: VmArea, p: VmArea, g: VmArea, u: VmArea)
    requires t.Tree() && BalancedBut(t, col, bh, node, null) && FlipSite(t, col, node, p, g, u)
    ensures p in bh && u in bh
    ensures BalancedBut(t, col[u := true][p := true][g := false], bh[p := bh[p] + 1][u := bh[u] + 1], g, null)
  {
    assert NodeBalanced(t, col, bh, node, null, p) && NodeBalanced(t, col, bh, node, null, u);
    forall n | n in t.span
      ensures NodeBalanced(t, col[u := true][p := true][g := false], bh[p := bh[p] + 1][u := bh[u] + 1], g, null, n)
    {
      FlipNode(t, col, bh, node, p, g, u, n);
    }
  }

  /** The colours after `if (c) rb_set_parent_color(c, ., RB_BLACK)`. */
  ghost function Blacken(col: Colours, c: VmArea?): Colours {
    if c == null then col else col[c := true]
  }

  /** A red `node`, the right child of its red parent `p` whose other child is black. */
  ghost predicate InnerSite(t: Shape, col: Colours, node: VmArea, p: VmArea) {
    && p in t.span && p in t.links && node in t.span && node in t.links && t.links[p].right == node
    && Red(col, node) && Red(col, p) && !Red(col, t.links[p].left)
  }

  lemma InnerNode(t: Shape, col: Colours, bh: Heights, node: VmArea, p: VmArea, n: VmArea)
    requires t.Tree() && BalancedBut(t, col, bh, node, null) && InnerSite(t, col, node, p) && n in t.span
    ensures NodeBalanced(RotateLeft(t, p, node), Blacken(col, t.links[node].left)[p := false], bh, p, null, n)
  {
    hide RotateLeft;
    assert t.NodeOk(p) && t.NodeOk(node) && t.NodeOk(n);
    assert NodeBalanced(t, col, bh, node, null, p) && NodeBalanced(t, col, bh, node, null, node) && NodeBalanced(t, col, bh, node, null, n);
    RotatedLeft(t, p, node, n);
  }

  /** Case 2 (left side): rotating at the red parent leaves the same defect one step lower. */
  lemma InsertInner(t: Shape, col: Colours, bh: Heights, node: VmArea, p: VmArea)
    requires t.Tree() && BalancedBut(t, col, bh, node, null) && InnerSite(t, col, node, p)
    ensures BalancedBut(RotateLeft(t, p, node), Blacken(col, t.links[node].left)[p := false], bh, p, null)
  {
    hide RotateLeft;
    assert t.NodeOk(p) && t.NodeOk(node);
    RotatedLeft(t, p, node, p);
    forall n | n in t.span
      ensures NodeBalanced(RotateLeft(t, p, node), Blacken(col, t.links[node].left)[p := false], bh, p, null, n)
    {
      InnerNode(t, col, bh, node, p, n);
    }
  }

  /** A red `node` below its red parent `p`, the outer left grandchild of `g` whose other child is black. */
  ghost predicate OuterSite(t: Shape, col: Colours, node: VmArea, p: VmArea, g: VmArea) {
    && {node, p, g} <= t.span.Keys && {node, p, g} <= t.links.Keys && g in col
    && t.links[g].left == p && t.links[p].left == node
    && Red(col, node) && Red(col, p) && !Red(col, t.links[g].right)
  }

  ghost function OuterColours(t: Shape, col: Colours, p: VmArea, g: VmArea): Colours
    requires p in t.links && g in col
  {
    Blacken(col, t.links[p].right)[p := col[g]][g := false]
  }

  lemma OuterNode(t: Shape, col: Colours, bh: Heights, node: VmArea, p: VmArea, g: VmArea, n: VmArea)
    requires t.Tree() && BalancedBut(t, col, bh, node, null) && OuterSite(t, col, node, p, g)
    requires p in bh && g in bh && n in t.span
    ensures NodeBalanced(RotateRight(t, g, p), OuterColours(t, col, p, g), bh[p := bh[g]][g := bh[p]], null, null, n)
  {
    assert t.NodeOk(p) && t.NodeOk(g);
    if n != p && n != g {
      assert t.NodeOk(n) && NodeBalanced(t, col, bh, node, null, n);
      var k, k' := t.links[n], RotateRight(t, g, p).links[n];
      assert k.left != p && k.right != p;
      assert k'.left == Swap(k.left, g, p) && k'.right == Swap(k.right, g, p);
      assert NodeBalanced(t, col, bh, node, null, g);
    } else {
      assert t.NodeOk(node);
      assert NodeBalanced(t, col, bh, node, null, p) && NodeBalanced(t, col, bh, node, null, g);
    }
  }

  /** Case 3 (left side): rotating at the black grandparent removes the defect. */
  lemma InsertOuter(t: Shape, col: Colours, bh: Heights, node: VmArea, p: VmArea, g: VmArea)
    requires t.Tree() && BalancedBut(t, col, bh, node, null) && OuterSite(t, col, node, p, g)
    ensures p in bh && g in bh
    ensures BalancedBut(RotateRight(t, g, p), OuterColours(t, col, p, g), bh[p := bh[g]][g := bh[p]], null, null)
  {
    assert NodeBalanced(t, col, bh, node, null, p) && NodeBalanced(t, col, bh, node, null, g);
    var r := RotateRight(t, g, p);
    forall n | n in r.span
      ensures NodeBalanced(r, OuterColours(t, col, p, g), bh[p := bh[g]][g := bh[p]], null, null, n)
    {
      OuterNode(t, col, bh, node, p, g, n);
    }
  }

  lemma MirrorBalanced(t: Shape, col: Colours, bh: Heights, loose: VmArea?, short: VmArea?)
    requires BalancedBut(t, col, bh, loose, short)
    ensures BalancedBut(Mirror(t), col, bh, loose, short)
  {
    forall n | n in Mirror(t).span
      ensures NodeBalanced(Mirror(t), col, bh, loose, short, n)
    {
      assert NodeBalanced(t, col, bh, loose, short, n);
    }
  }

  // ------------------------------------------------------------ erasure

  ghost predicate OneEmptyLink(t: Shape, n: VmArea) {
    n in t.span && n in t.links && ((t.links[n].left == null) != (t.links[n].right == null))
  }

  /** The colours after Case 1: the only child takes the erased node's colour. */
  ghost function SpliceColours(col: Colours, node: VmArea, c: VmArea?): Colours
    requires node in col
  {
    if c == null then col else col[c := col[node]]
  }

  /** The node `rb_erase` returns: where one black node is missing, if any. */
  ghost function SpliceShort(t: Shape, col: Colours, node: VmArea, c: VmArea?): VmArea?
    requires node in col && node in t.links
  {
    if c == null && col[node] then t.links[node].parent else null
  }

  ghost function SpliceHeights(bh: Heights, node: VmArea, c: VmArea?): Heights
    requires node in bh
  {
    if c == null then bh else bh[c := bh[node]]
  }

  /** What the erased node hung on has its only child instead; nobody else had that child. */
  lemma SpliceLink(t: Shape, node: VmArea, c: VmArea?, n: VmArea)
    requires t.Tree() && OnlyChild(t, node, c) && n in t.span && n != node
    ensures n in t.links && 0 <= t.span[node].at < |t.order| && n in Splice(t, node, c).links && (c != null ==> c in t.span && c != node)
    ensures var k, k' := t.links[n], Splice(t, node, c).links[n];
      && k'.left == Swap(k.left, node, c) && k'.right == Swap(k.right, node, c)
      && (k.left == node || k.right == node <==> n == t.links[node].parent) && (k.left == node ==> k.right != node)
      && (c != null ==> k.left != c && k.right != c)
  {
    assert t.NodeOk(n) && t.NodeOk(node);
    if c != null { assert t.NodeOk(c); }
  }

  lemma SpliceBalancedNode(t: Shape, col: Colours, bh: Heights, node: VmArea, c: VmArea?, n: VmArea)
    requires t.Tree() && BalancedBut(t, col, bh, null, null) && OnlyChild(t, node, c)
    requires n in t.span && n != node && node in col && node in bh
    ensures 0 <= t.span[node].at < |t.order|
    ensures NodeBalanced(Splice(t, node, c), SpliceColours(col, node, c), SpliceHeights(bh, node, c), null,
                         SpliceShort(t, col, node, c), n)
  {
    hide Splice, Shape.Tree;
    SpliceLink(t, node, c, n);
    assert NodeBalanced(t, col, bh, null, null, node) && NodeBalanced(t, col, bh, null, null, n);
    if c != null { assert NodeBalanced(t, col, bh, null, null, c); }
  }

  lemma SpliceBalanced(t: Shape, col: Colours, bh: Heights, node: VmArea, c: VmArea?)
    requires t.Tree() && BalancedBut(t, col, bh, null, null) && OnlyChild(t, node, c)
    ensures 0 <= t.span[node].at < |t.order| && node in col && node in bh
    ensures BalancedBut(Splice(t, node, c), SpliceColours(col, node, c), SpliceHeights(bh, node, c), null,
                        SpliceShort(t, col, node, c))
    ensures SpliceShort(t, col, node, c) != null ==> OneEmptyLink(Splice(t, node, c), SpliceShort(t, col, node, c))
  {
    assert t.NodeOk(node) && NodeBalanced(t, col, bh, null, null, node);
    forall n | n in Splice(t, node, c).span
      ensures NodeBalanced(Splice(t, node, c), SpliceColours(col, node, c), SpliceHeights(bh, node, c), null,
                           SpliceShort(t, col, node, c), n)
    {
      SpliceBalancedNode(t, col, bh, node, c, n);
    }
    var up := SpliceShort(t, col, node, c);
    if up != null {
      assert t.NodeOk(up) && NodeBalanced(t, col, bh, null, null, up);
    }
  }

  /** The colours after Cases 2 and 3: the successor takes the erased node's, its child turns black. */
  ghost function PromoteColours(t: Shape, col: Colours, node: VmArea, s: VmArea): Colours
    requires node in col && s in t.links
  {
    Blacken(col[s := col[node]], t.links[s].right)
  }

  ghost function PromoteShort(t: Shape, col: Colours, node: VmArea, s: VmArea): VmArea?
    requires s in col && s in t.links && node in t.links
  {
    if t.links[s].right == null && col[s] then Spine(t, node, s) else null
  }

  ghost function PromoteHeights(t: Shape, bh: Heights, node: VmArea, s: VmArea): Heights
    requires node in bh && s in bh && s in t.links
  {
    var b := bh[s := bh[node]];
    if t.links[s].right == null then b else b[t.links[s].right := bh[s]]
  }

  lemma PromoteBalancedMoved(t: Shape, col: Colours, bh: Heights, node: VmArea, s: VmArea, n: VmArea)
    requires t.Tree() && BalancedBut(t, col, bh, null, null) && Successor(t, node, s)
    requires {node, s} <= col.Keys && {node, s} <= bh.Keys && (n == s || n == t.links[s].right)
    ensures 0 <= t.span[node].at < |t.order|
    ensures NodeBalanced(Promote(t, node, s), PromoteColours(t, col, node, s), PromoteHeights(t, bh, node, s), null,
                         PromoteShort(t, col, node, s), n)
  {
    SuccessorPlace(t, node, s);
    assert NodeBalanced(t, col, bh, null, null, node) && NodeBalanced(t, col, bh, null, null, s);
    var c := t.links[s].right;
    if c != null {
      assert t.NodeOk(c) && NodeBalanced(t, col, bh, null, null, c);
    }
  }

  lemma PromoteBalancedSpine(t: Shape, col: Colours, bh: Heights, node: VmArea, s: VmArea, n: VmArea)
    requires t.Tree() && BalancedBut(t, col, bh, null, null) && Successor(t, node, s)
    requires {node, s} <= col.Keys && {node, s} <= bh.Keys && n in t.span && n != node
    requires n != s && n != t.links[s].right && n == Spine(t, node, s)
    ensures 0 <= t.span[node].at < |t.order|
    ensures NodeBalanced(Promote(t, node, s), PromoteColours(t, col, node, s), PromoteHeights(t, bh, node, s), null,
                         PromoteShort(t, col, node, s), n)
  {
    SuccessorPlace(t, node, s);
    assert t.NodeOk(n) && NodeBalanced(t, col, bh, null, null, n);
    assert NodeBalanced(t, col, bh, null, null, s);
    var c := t.links[s].right;
    if c != null {
      assert t.NodeOk(c) && NodeBalanced(t, col, bh, null, null, c);
    }
  }

  /** Off the spine a node has the successor for a child exactly if it had the erased node. */
  lemma OtherLinks(t: Shape, node: VmArea, s: VmArea, n: VmArea)
    requires t.Tree() && Successor(t, node, s) && n in t.span && n != node && n != s && n != t.links[s].right && n != Spine(t, node, s)
    ensures n in t.links && 0 <= t.span[node].at < |t.order| && n in Promote(t, node, s).links
    ensures var k, k' := t.links[n], Promote(t, node, s).links[n];
      k.left != s && k.right != s && k'.left == Swap(k.left, node, s) && k'.right == Swap(k.right, node, s)
    ensures var c := t.links[s].right; c != s && (c != null ==> t.links[n].left != c && t.links[n].right != c)
  {
    SuccessorPlace(t, node, s);
    assert t.NodeOk(n) && t.NodeOk(s);
  }

  lemma PromoteBalancedOther(t: Shape, col: Colours, bh: Heights, node: VmArea, s: VmArea, n: VmArea)
    requires t.Tree() && BalancedBut(t, col, bh, null, null) && Successor(t, node, s)
    requires {node, s} <= col.Keys && {node, s} <= bh.Keys && n in t.span && n != node
    requires n != s && n != t.links[s].right && n != Spine(t, node, s)
    ensures 0 <= t.span[node].at < |t.order|
    ensures NodeBalanced(Promote(t, node, s), PromoteColours(t, col, node, s), PromoteHeights(t, bh, node, s), null,
                         PromoteShort(t, col, node, s), n)
  {
    hide Promote, Shape.Tree;
    OtherLinks(t, node, s, n);
    assert NodeBalanced(t, col, bh, null, null, n);
  }

  lemma PromoteBalanced(t: Shape, col: Colours, bh: Heights, node: VmArea, s: VmArea)
    requires t.Tree() && BalancedBut(t, col, bh, null, null) && Successor(t, node, s)
    ensures 0 <= t.span[node].at < |t.order| && {node, s} <= col.Keys && {node, s} <= bh.Keys
    ensures BalancedBut(Promote(t, node, s), PromoteColours(t, col, node, s), PromoteHeights(t, bh, node, s), null,
                        PromoteShort(t, col, node, s))
    ensures PromoteShort(t, col, node, s) != null ==>
              OneEmptyLink(Promote(t, node, s), PromoteShort(t, col, node, s))
  {
    SuccessorPlace(t, node, s);
    assert NodeBalanced(t, col, bh, null, null, node) && NodeBalanced(t, col, bh, null, null, s);
    forall n | n in Promote(t, node, s).span
      ensures NodeBalanced(Promote(t, node, s), PromoteColours(t, col, node, s), PromoteHeights(t, bh, node, s), null,
                           PromoteShort(t, col, node, s), n)
    {
      if n == s || n == t.links[s].right {
        PromoteBalancedMoved(t, col, bh, node, s, n);
      } else if n == Spine(t, node, s) {
        PromoteBalancedSpine(t, col, bh, node, s, n);
      } else {
        PromoteBalancedOther(t, col, bh, node, s, n);
      }
    }
    var p := t.links[s].parent;
    if p != null && t.links[node].right != s {
      assert NodeBalanced(t, col, bh, null, null, p);
    }
  }

  /** Where no defect is, there is only one black height that fits. */
  lemma {:induction false} HeightsUnique(t: Shape, col: Colours, bh: Heights, other: Heights, short: VmArea, n: VmArea)
    requires t.Tree() && BalancedBut(t, col, bh, null, short) && BalancedBut(t, col, other, null, null)
    requires n in t.span && short in t.span && !(t.span[n].lo <= t.span[short].at < t.span[n].hi)
    ensures n in bh && n in other && bh[n] == other[n]
    decreases t.span[n].hi - t.span[n].lo
  {
    assert t.NodeOk(n) && NodeBalanced(t, col, bh, null, short, n) && NodeBalanced(t, col, other, null, null, n);
    var k := t.links[n];
    if k.left != null { HeightsUnique(t, col, bh, other, short, k.left); }
    if k.right != null { HeightsUnique(t, col, bh, other, short, k.right); }
  }

  /** A missing black node at an empty link is a defect: the tree is not red-black. */
  lemma ShortIsDefect(t: Shape, col: Colours, bh: Heights, short: VmArea)
    requires t.Tree() && Certifies(t, col, bh, null, short) && OneEmptyLink(t, short)
    ensures !RedBlack(t, col)
  {
    if RedBlack(t, col) {
      var other: Heights :| Certifies(t, col, other, null, null);
      var c := if t.links[short].left == null then t.links[short].right else t.links[short].left;
      assert t.NodeOk(short) && NodeBalanced(t, col, bh, null, short, short) && NodeBalanced(t, col, other, null, null, short);
      HeightsUnique(t, col, bh, other, short, c);
      assert false;
    }
  }

  // ------------------------------------------------------------ the length of a search path

  function Pow2(n: nat): nat {
    if n == 0 then 1 else 2 * Pow2(n - 1)
  }

  lemma {:induction false} Pow2Sum(a: nat, b: nat)
    ensures Pow2(a + b) == Pow2(a) * Pow2(b)
  {
    if a > 0 { Pow2Sum(a - 1, b); }
  }

  lemma {:induction false} Pow2Monotone(a: nat, b: nat)
    requires a <= b
    ensures 1 <= Pow2(a) <= Pow2(b)
    decreases b
  {
    if b > 0 {
      if a < b { Pow2Monotone(a, b - 1); } else { Pow2Monotone(a - 1, b - 1); }
    }
  }

  /** The nodes a search may still meet from `c` downwards. */
  ghost function Budget(col: Colours, bh: Heights, c: VmArea?): int {
    if c != null && c in bh then 2 * bh[c] + (if Red(col, c) then 1 else 0) else 0
  }

  lemma BudgetStep(t: Shape, col: Colours, bh: Heights, n: VmArea, c: VmArea?)
    requires t.Tree() && BalancedBut(t, col, bh, null, null) && n in t.span && n in t.links
    requires c == t.links[n].left || c == t.links[n].right
    ensures 0 <= Budget(col, bh, c) < Budget(col, bh, n)
  {
    assert t.NodeOk(n) && NodeBalanced(t, col, bh, null, null, n);
    if c != null { assert NodeBalanced(t, col, bh, null, null, c); }
  }

  /** A subtree of black height h has at least 2^h - 1 nodes. */
  lemma {:induction false} SizeBound(t: Shape, col: Colours, bh: Heights, n: VmArea)
    requires t.Tree() && BalancedBut(t, col, bh, null, null) && n in t.span
    ensures n in bh && bh[n] >= 0 && Pow2(bh[n]) <= t.span[n].hi - t.span[n].lo + 1
    decreases t.span[n].hi - t.span[n].lo
  {
    assert t.NodeOk(n) && NodeBalanced(t, col, bh, null, null, n);
    var k := t.links[n];
    if k.left != null { SizeBound(t, col, bh, k.left); }
    if k.right != null { SizeBound(t, col, bh, k.right); }
  }

  lemma Squares(a: nat, b: nat)
    requires a <= b
    ensures a * a <= b * b
  {
    assert a * a <= a * b <= b * b;
  }

  /** `path` leads from the root downwards, link by link. */
  ghost predicate Descent(t: Shape, path: seq<VmArea>) {
    && (path != [] ==> path[0] == t.root)
    && (forall i :: 0 <= i < |path| ==> path[i] in t.span && path[i] in t.links)
    && forall i {:trigger path[i]} :: 0 < i < |path| ==>
         t.links[path[i - 1]].left == path[i] || t.links[path[i - 1]].right == path[i]
  }

  lemma {:induction false} DescentBudget(t: Shape, col: Colours, bh: Heights, path: seq<VmArea>)
    requires t.Tree() && BalancedBut(t, col, bh, null, null) && path != [] && Descent(t, path)
    ensures |path| - 1 + Budget(col, bh, path[|path| - 1]) <= Budget(col, bh, t.root)
  {
    if |path| > 1 {
      var shorter, last := path[..|path| - 1], path[|path| - 1];
      assert Descent(t, shorter);
      DescentBudget(t, col, bh, shorter);
      assert last == path[|path| - 1] && shorter[|shorter| - 1] == path[|path| - 2];
      BudgetStep(t, col, bh, path[|path| - 2], last);
    }
  }

  /** A path down a red-black tree of n nodes has at most 2 log2(n + 1) nodes. */
  lemma PathBound(t: Shape, col: Colours, path: seq<VmArea>)
    requires t.Tree() && RedBlack(t, col) && Descent(t, path)
    ensures Pow2(|path|) <= (|t.order| + 1) * (|t.order| + 1)
  {
    if path != [] {
      var bh: Heights :| Certifies(t, col, bh, null, null);
      var last := path[|path| - 1];
      DescentBudget(t, col, bh, path);
      BudgetStep(t, col, bh, last, t.links[last].left);
      SizeBound(t, col, bh, t.root);
      TwiceBound(|path|, bh[t.root], |t.order| + 1);
    }
  }

  lemma TwiceBound(steps: nat, h: nat, m: nat)
    requires steps <= 2 * h && Pow2(h) <= m
    ensures Pow2(steps) <= m * m
  {
    Pow2Sum(h, h);
    assert h + h == 2 * h;
    Pow2Monotone(steps, h + h);
    Pow2Monotone(0, h);
    Squares(Pow2(h), m);
  }
}
