/**
 What the stages of `rb_erase` do to the tree, as relations between snapshots.
 */
module RbErasing {
  import opened VmAreas
  import opened RbShape
  import opened RbGaps
  import opened RbBalance
  import opened RbSteps

  /** A tree from which `node` can be erased: `node`'s own gap and cache may be out of date. */
  ghost predicate Erasable(a: State, node: VmArea) {
    && a.t.Tree() && a.t.span.Keys <= a.t.links.Keys && a.t.links.Keys == a.col.Keys
    && Covered(a.t, a.own, a.gaps) && node in a.t.span
    && (forall n :: n in a.t.span && n != node ==> a.own[n] >= 0)
    && GapsOkBut(a.t, a.own, a.gaps, {node})
  }

  /** `node`, and nothing else, has left the tree; all remaining caches are right. */
  ghost predicate Erased(a: State, b: State, node: VmArea) {
    && Good(b) && b.own == a.own && node in a.t.span && 0 <= a.t.span[node].at < |a.t.order|
    && b.t.span.Keys == a.t.span.Keys - {node} && b.t.order == Without(a.t.order, a.t.span[node].at)
    && (RootBlack(a.t, a.col) ==> RootBlack(b.t, b.col))
  }

  /** The result of `rb_erase`: null, or the node at whose empty link one black node is missing. */
  ghost predicate Outcome(b: State, rebalance: VmArea?) {
    if rebalance == null then exists bh :: Certifies(b.t, b.col, bh, null, null)
    else OneEmptyLink(b.t, rebalance) && exists bh :: Certifies(b.t, b.col, bh, null, rebalance)
  }

  /** A black node without children, and with a parent, is cut off: `node`, or its in-order successor if it has two children. */
  ghost predicate Shortens(a: State, node: VmArea) {
    && node in a.t.span && node in a.t.links
    && var at, k := a.t.span[node].at, a.t.links[node];
    && var v := if k.left != null && k.right != null && 0 <= at + 1 < |a.t.order| then a.t.order[at + 1] else node;
    && v in a.t.links && v in a.col && a.col[v]
    && a.t.links[v].left == null && a.t.links[v].right == null && a.t.links[v].parent != null
  }

  /** Whether a node is returned can be told before the call. */
  lemma SpliceShortens(a: State, node: VmArea, c: VmArea?)
    requires Erasable(a, node) && OnlyChild(a.t, node, c)
    ensures node in a.col && node in a.t.links
    ensures SpliceShort(a.t, a.col, node, c) != null <==> Shortens(a, node)
  {
    assert a.t.NodeOk(node);
  }

  lemma PromoteShortens(a: State, node: VmArea, s: VmArea)
    requires Erasable(a, node) && Successor(a.t, node, s)
    ensures s in a.col
    ensures PromoteShort(a.t, a.col, node, s) != null <==> Shortens(a, node)
  {
    SuccessorPlace(a.t, node, s);
    SuccessorHung(a.t, node, s);
  }

  lemma SuccessorHung(t: Shape, node: VmArea, s: VmArea)
    requires t.Tree() && Successor(t, node, s)
    ensures t.links[s].parent != null && 0 <= t.span[node].at + 1 < |t.order| && t.order[t.span[node].at + 1] == s
  {
    SuccessorPlace(t, node, s);
    assert t.NodeOk(s) && t.NodeOk(node) && t.AtOk(s) && t.AtOk(node);
  }

  /** A red-black tree remains exactly if null is returned. */
  lemma OutcomeExact(b: State, rebalance: VmArea?)
    requires b.t.Tree() && RootBlack(b.t, b.col) && Outcome(b, rebalance)
    ensures RedBlack(b.t, b.col) <==> rebalance == null
  {
    if rebalance != null {
      var bh: Heights :| Certifies(b.t, b.col, bh, null, rebalance);
      ShortIsDefect(b.t, b.col, bh, rebalance);
    }
  }

  // ---------------------------------------------------------------- Case 1

  /** The pointers of `r` are those of `l` with `node` replaced by its only child `c`. */
  ghost predicate Spliced(l: map<VmArea, Link>, r: map<VmArea, Link>, node: VmArea, c: VmArea?)
    requires node in l
  {
    var up := l[node].parent;
    && r.Keys == l.Keys
    && (up != null && up in l ==> r[up] == Link(Swap(l[up].left, node, c), Swap(l[up].right, node, c), l[up].parent))
    && (c != null && c in l && c != up ==> r[c] == l[c].(parent := up))
    && (forall n :: n in l && n != up && n != c ==> r[n] == l[n])
  }

  ghost predicate SpliceSite(l: map<VmArea, Link>, node: VmArea, c: VmArea?) {
    && node in l && (c != null ==> c in l && c != node && c != l[node].parent)
    && (var up := l[node].parent; up != null ==> up in l && up != node && ((l[up].left == node) != (l[up].right == node)))
  }

  lemma SpliceSiteOk(a: State, node: VmArea, c: VmArea?)
    requires Erasable(a, node) && OnlyChild(a.t, node, c)
    ensures SpliceSite(a.t.links, node, c) && (a.t.root == node <==> a.t.links[node].parent == null)
    ensures node in a.col && (c != null ==> c in a.col)
  {
    assert a.t.NodeOk(node);
    var up := a.t.links[node].parent;
    if up != null { assert a.t.NodeOk(up); }
    if c != null { assert a.t.NodeOk(c); }
  }

  ghost function SpliceState(a: State, node: VmArea, c: VmArea?): State
    requires node in a.t.links && node in a.t.span && 0 <= a.t.span[node].at < |a.t.order| && node in a.col
  {
    a.(t := Splice(a.t, node, c), col := SpliceColours(a.col, node, c))
  }

  lemma SplicedIs(a: State, r: map<VmArea, Link>, node: VmArea, c: VmArea?)
    requires Erasable(a, node) && OnlyChild(a.t, node, c) && Spliced(a.t.links, r, node, c)
    ensures node in a.t.span && 0 <= a.t.span[node].at < |a.t.order| && r == Splice(a.t, node, c).links
    ensures Splice(a.t, node, c).root == if a.t.links[node].parent == null then c else a.t.root
  {
    SpliceSiteOk(a, node, c);
    assert a.t.NodeOk(node);
  }

  /** After Case 1 the caches are right except perhaps the parent's, from which the walk up starts. */
  lemma SpliceReady(a: State, node: VmArea, c: VmArea?)
    requires Erasable(a, node) && OnlyChild(a.t, node, c)
    ensures 0 <= a.t.span[node].at < |a.t.order| && node in a.col && node in a.t.links
    ensures var b := SpliceState(a, node, c);
            && b.t.Tree() && b.t.span.Keys == a.t.span.Keys - {node} && b.t.order == Without(a.t.order, a.t.span[node].at)
            && b.t.span.Keys <= b.t.links.Keys && b.t.links.Keys == b.col.Keys
            && GapsOkBut(b.t, b.own, b.gaps, {a.t.links[node].parent})
            && (a.t.links[node].parent != null ==> a.t.links[node].parent in b.t.span)
            && (RootBlack(a.t, a.col) ==> RootBlack(b.t, b.col))
  {
    assert a.t.NodeOk(node);
    SpliceTree(a.t, node, c);
    SpliceGaps(a.t, a.own, a.gaps, node, c);
    if c != null { assert a.t.NodeOk(c); }
  }

  /** In a whole tree everything above a node can be walked up. */
  lemma WholeWalk(t: Shape, own: Gaps)
    requires t.Tree() && t.span.Keys <= t.links.Keys && t.span.Keys <= own.Keys
    requires forall n :: n in t.span ==> own[n] >= 0
    ensures Walkable(t, t.links, own, t.span.Keys, null)
  {
    forall n | n in t.span.Keys
      ensures t.links[n].parent == null || t.links[n].parent in t.span.Keys
    {
      assert t.NodeOk(n);
    }
  }

  lemma SpliceOutcome(a: State, node: VmArea, c: VmArea?)
    requires Erasable(a, node) && OnlyChild(a.t, node, c) && RedBlack(a.t, a.col)
    ensures 0 <= a.t.span[node].at < |a.t.order| && node in a.col && node in a.t.links
    ensures Outcome(SpliceState(a, node, c), SpliceShort(a.t, a.col, node, c))
  {
    assert a.t.NodeOk(node);
    var bh :| Certifies(a.t, a.col, bh, null, null);
    SpliceBalanced(a.t, a.col, bh, node, c);
    var b, bh' := SpliceState(a, node, c), SpliceHeights(bh, node, c) - {node};
    var short := SpliceShort(a.t, a.col, node, c);
    SpliceTree(a.t, node, c);
    Restrict(b, SpliceHeights(bh, node, c), bh', short);
    if c != null { assert a.t.NodeOk(c); }
    assert Certifies(b.t, b.col, bh', null, short);
  }

  /** A certificate may forget a node that is no longer in the tree. */
  lemma Restrict(b: State, bh: Heights, bh': Heights, short: VmArea?)
    requires b.t.Tree() && BalancedBut(b.t, b.col, bh, null, short)
    requires forall n :: n in b.t.span && n in bh ==> n in bh' && bh'[n] == bh[n]
    requires bh'.Keys <= bh.Keys
    ensures BalancedBut(b.t, b.col, bh', null, short)
  {
    forall n | n in b.t.span
      ensures NodeBalanced(b.t, b.col, bh', null, short, n)
    {
      assert b.t.NodeOk(n) && NodeBalanced(b.t, b.col, bh, null, short, n);
      var k := b.t.links[n];
      assert k.left != null ==> NodeBalanced(b.t, b.col, bh, null, short, k.left);
      assert k.right != null ==> NodeBalanced(b.t, b.col, bh, null, short, k.right);
    }
  }

  // ---------------------------------------------------------------- Cases 2 and 3

  /** Case 3: the successor `s` leaves its place below `p` to its child and takes over `y`, `node`'s right child. */
  ghost predicate Unhooked(l: map<VmArea, Link>, r: map<VmArea, Link>, s: VmArea, p: VmArea, y: VmArea)
    requires {s, p, y} <= l.Keys
  {
    && r.Keys == l.Keys
    && r[s] == l[s].(right := y)
    && r[p] == Link(l[s].right, l[p].right, if p == y then s else l[p].parent)
    && (y != p ==> r[y] == l[y].(parent := s))
    && (forall n :: n in l && n != s && n != p && n != y ==> r[n] == l[n])
  }

  /** The successor `s` takes `node`'s place; its old child `c` gets the parent `p`. */
  ghost predicate Replaced(l: map<VmArea, Link>, r: map<VmArea, Link>, node: VmArea, s: VmArea, p: VmArea, c: VmArea?)
    requires {node, s, p} <= l.Keys
  {
    var x, up := l[node].left, l[node].parent;
    && r.Keys == l.Keys
    && r[s] == Link(x, l[s].right, up)
    && (x != null && x in l ==> r[x] == l[x].(parent := s))
    && (up != null && up in l ==> r[up] == Link(Swap(l[up].left, node, s), Swap(l[up].right, node, s), l[up].parent))
    && (c != null && c in l ==> r[c] == l[c].(parent := p))
    && (forall n :: n in l && n != s && n != x && n != up && n != c ==> r[n] == l[n])
  }

  /** The links after the first stage; nothing happens in Case 2. */
  ghost predicate FirstStage(l: map<VmArea, Link>, r: map<VmArea, Link>, node: VmArea, s: VmArea) {
    && node in l && s in l && l[node].right != null
    && (l[node].right == s ==> r == l)
    && (l[node].right != s ==> l[s].parent != null && l[s].parent in l && l[node].right in l
                               && Unhooked(l, r, s, l[s].parent, l[node].right))
  }

  ghost predicate UnhookSite(l: map<VmArea, Link>, s: VmArea, p: VmArea, y: VmArea) {
    {s, p, y} <= l.Keys && s != p && s != y && l[p].left == s
  }

  ghost predicate ReplaceSite(l: map<VmArea, Link>, node: VmArea, s: VmArea, p: VmArea, c: VmArea?) {
    && node in l && s in l && p in l && node != s
    && var x, up := l[node].left, l[node].parent;
    && x != null && x in l && x != s && x != up && x != node
    && (up != null ==> up in l && up != s && up != node && ((l[up].left == node) != (l[up].right == node)))
    && (c != null ==> c in l && c != s && c != x && c != up && c != node)
  }

  lemma StageSites(a: State, node: VmArea, s: VmArea)
    requires Erasable(a, node) && Successor(a.t, node, s)
    ensures var y := a.t.links[node].right;
      && y in a.t.links && node != y && a.t.links[node].parent != y
      && (y != s ==> a.t.links[s].parent != null && a.t.links[s].parent in a.t.links)
      && (y != s ==> UnhookSite(a.t.links, s, a.t.links[s].parent, y))
      && (y != s ==> node != a.t.links[s].parent && a.t.links[s].parent != a.t.links[node].parent
                     && a.t.links[s].parent != a.t.links[node].left)
    ensures ReplaceSite(a.t.links, node, s, Spine(a.t, node, s), a.t.links[s].right)
    ensures a.t.links[s].right != a.t.links[node].right
    ensures a.t.root == node <==> a.t.links[node].parent == null
    ensures a.t.links[node].left != a.t.links[node].right
  {
    SuccessorPlace(a.t, node, s);
    var k := a.t.links[node];
    assert a.t.NodeOk(k.left) && a.t.NodeOk(k.right) && a.t.AtOk(s) && a.t.AtOk(node) && a.t.AtOk(k.right);
    if k.parent != null { assert a.t.NodeOk(k.parent) && a.t.AtOk(k.parent); }
    var c := a.t.links[s].right;
    if c != null { assert a.t.NodeOk(c) && a.t.AtOk(c); }
    if k.right != s {
      SpineInside(a.t, node, s);
    }
  }

  /** The successor's old parent lies in the right subtree of `node`. */
  lemma SpineInside(t: Shape, node: VmArea, s: VmArea)
    requires t.Tree() && Successor(t, node, s) && t.links[node].right != s
    ensures t.links[s].parent != null && t.links[s].parent in t.span
    ensures t.span[t.links[s].parent].lo == t.span[node].at + 1 < t.span[t.links[s].parent].at
  {
    SuccessorPlace(t, node, s);
    assert t.NodeOk(t.links[s].parent);
  }

  /** The first stage leaves the site of the second intact. */
  lemma SecondSite(a: State, l: map<VmArea, Link>, node: VmArea, s: VmArea)
    requires Erasable(a, node) && Successor(a.t, node, s) && FirstStage(a.t.links, l, node, s)
    ensures ReplaceSite(l, node, s, Spine(a.t, node, s), a.t.links[s].right)
    ensures l[node] == a.t.links[node]
  {
    StageSites(a, node, s);
  }

  lemma PromotedIs(a: State, l: map<VmArea, Link>, r: map<VmArea, Link>, node: VmArea, s: VmArea)
    requires Erasable(a, node) && Successor(a.t, node, s) && FirstStage(a.t.links, l, node, s)
    requires {node, s} <= l.Keys && Spine(a.t, node, s) in l
    requires Replaced(l, r, node, s, Spine(a.t, node, s), a.t.links[s].right)
    ensures 0 <= a.t.span[node].at < |a.t.order| && r == Promote(a.t, node, s).links
    ensures Promote(a.t, node, s).root == if a.t.links[node].parent == null then s else a.t.root
  {
    StageSites(a, node, s);
    SuccessorPlace(a.t, node, s);
    var q := Promote(a.t, node, s).links;
    forall n | n in l
      ensures r[n] == q[n]
    {
      PromotedAt(a, l, r, node, s, n);
    }
  }

  lemma PromotedAt(a: State, l: map<VmArea, Link>, r: map<VmArea, Link>, node: VmArea, s: VmArea, n: VmArea)
    requires Erasable(a, node) && Successor(a.t, node, s) && FirstStage(a.t.links, l, node, s)
    requires {node, s} <= l.Keys && Spine(a.t, node, s) in l && n in l && n in a.t.links
    requires Replaced(l, r, node, s, Spine(a.t, node, s), a.t.links[s].right)
    ensures r[n] == PromotedLink(a.t, node, s, n)
  {
    StageSites(a, node, s);
  }

  // ---------------------------------------------------------------- refreshing the caches

  ghost function PromoteState(a: State, node: VmArea, s: VmArea): State
    requires node in a.t.links && node in a.t.span && s in a.t.links && 0 <= a.t.span[node].at < |a.t.order|
    requires node in a.col
  {
    a.(t := Promote(a.t, node, s), col := PromoteColours(a.t, a.col, node, s))
  }

  /** The nodes from the successor's old parent up to `node`'s right child, after the promotion. */
  ghost function SpineWalk(t: Shape, s: VmArea, p: VmArea): set<VmArea>
    requires s in t.span && p in t.span
  {
    set n | n in t.span.Keys && t.span[n].lo == t.span[s].at + 1 && t.span[n].at >= t.span[p].at
  }

  /** After the first stage of Case 3 the spine can be walked up to the successor. */
  lemma SpineWalkable(a: State, l: map<VmArea, Link>, node: VmArea, s: VmArea)
    requires Erasable(a, node) && Successor(a.t, node, s) && a.t.links[node].right != s
    requires FirstStage(a.t.links, l, node, s)
    ensures 0 <= a.t.span[node].at < |a.t.order| && a.t.links[s].parent != null
    ensures var t, p := Promote(a.t, node, s), a.t.links[s].parent;
            && s in t.span && p in t.span && p in SpineWalk(t, s, p) && s !in SpineWalk(t, s, p)
            && Walkable(t, l, a.own, SpineWalk(t, s, p), s)
  {
    StageSites(a, node, s);
    SuccessorPlace(a.t, node, s);
    SpineInside(a.t, node, s);
    PromoteTree(a.t, node, s);
    var t, p := Promote(a.t, node, s), a.t.links[s].parent;
    assert t.AtOk(p) && t.AtOk(s) && a.t.AtOk(p) && a.t.AtOk(s);
    forall n | n in SpineWalk(t, s, p)
      ensures n in l && n in a.own && l[n] == t.links[n] && a.own[n] >= 0
      ensures t.links[n].parent == s || t.links[n].parent in SpineWalk(t, s, p)
    {
      SpineWalkNode(a, l, node, s, n);
    }
  }

  ghost predicate OnSpine(a: State, node: VmArea, s: VmArea, n: VmArea) {
    && Erasable(a, node) && Successor(a.t, node, s) && a.t.links[node].right != s
    && 0 <= a.t.span[node].at < |a.t.order| && a.t.links[s].parent != null
    && var t, p := Promote(a.t, node, s), a.t.links[s].parent;
    && t.Tree() && s in t.span && p in t.span && n in SpineWalk(t, s, p)
  }

  lemma SpineWalkNode(a: State, l: map<VmArea, Link>, node: VmArea, s: VmArea, n: VmArea)
    requires OnSpine(a, node, s, n) && FirstStage(a.t.links, l, node, s)
    ensures n in l && n in a.own && a.own[n] >= 0
    ensures l[n] == Promote(a.t, node, s).links[n]
    ensures var t, p := Promote(a.t, node, s), a.t.links[s].parent;
            t.links[n].parent == s || t.links[n].parent in SpineWalk(t, s, p)
  {
    SpineWalkLink(a, l, node, s, n);
    SpineWalkParent(a, node, s, n);
  }

  lemma SpineWalkParent(a: State, node: VmArea, s: VmArea, n: VmArea)
    requires OnSpine(a, node, s, n)
    ensures var t, p := Promote(a.t, node, s), a.t.links[s].parent;
            n in t.links && (t.links[n].parent == s || t.links[n].parent in SpineWalk(t, s, p))
  {
    var t := Promote(a.t, node, s);
    assert t.NodeOk(n) && t.AtOk(n) && t.AtOk(s) && t.NodeOk(s);
    var up := t.links[n].parent;
    if up != null { assert t.NodeOk(up) && t.AtOk(up); }
  }

  lemma SpineWalkLink(a: State, l: map<VmArea, Link>, node: VmArea, s: VmArea, n: VmArea)
    requires OnSpine(a, node, s, n) && FirstStage(a.t.links, l, node, s)
    ensures n in l && n in a.own && a.own[n] >= 0
    ensures l[n] == Promote(a.t, node, s).links[n]
  {
    StageSites(a, node, s);
    SuccessorPlace(a.t, node, s);
    SpineInside(a.t, node, s);
    assert a.t.NodeOk(n) && a.t.AtOk(n) && a.t.AtOk(s) && a.t.AtOk(node) && a.t.NodeOk(node);
    var c := a.t.links[s].right;
    if c != null { assert a.t.NodeOk(c); }
    assert a.t.NodeOk(a.t.links[node].left);
    assert a.t.links[node].parent != null ==> a.t.NodeOk(a.t.links[node].parent);
  }

  /** After the promotion the caches are right except perhaps the successor's and its old parent's. */
  lemma PromoteReady(a: State, node: VmArea, s: VmArea)
    requires Erasable(a, node) && Successor(a.t, node, s)
    ensures 0 <= a.t.span[node].at < |a.t.order| && node in a.col && node in a.t.links && node in a.gaps
    ensures var b := PromoteState(a, node, s);
            && b.t.Tree() && b.t.span.Keys == a.t.span.Keys - {node} && b.t.order == Without(a.t.order, a.t.span[node].at)
            && b.t.span.Keys <= b.t.links.Keys && b.t.links.Keys == b.col.Keys && s in b.t.span
            && GapsOkBut(b.t, b.own, b.gaps[s := b.gaps[node]], {s, Spine(a.t, node, s)})
            && (RootBlack(a.t, a.col) ==> RootBlack(b.t, b.col))
  {
    assert a.t.NodeOk(node);
    PromoteTree(a.t, node, s);
    PromoteGaps(a.t, a.own, a.gaps, node, s);
    StageSites(a, node, s);
    SuccessorPlace(a.t, node, s);
    var c := a.t.links[s].right;
    if c != null { assert a.t.NodeOk(c); }
  }

  lemma PromoteOutcome(a: State, node: VmArea, s: VmArea)
    requires Erasable(a, node) && Successor(a.t, node, s) && RedBlack(a.t, a.col)
    ensures 0 <= a.t.span[node].at < |a.t.order| && {node, s} <= a.col.Keys && node in a.t.links
    ensures Outcome(PromoteState(a, node, s), PromoteShort(a.t, a.col, node, s))
  {
    assert a.t.NodeOk(node);
    var bh :| Certifies(a.t, a.col, bh, null, null);
    PromoteBalanced(a.t, a.col, bh, node, s);
    var h := PromoteHeights(a.t, bh, node, s);
    var b, short := PromoteState(a, node, s), PromoteShort(a.t, a.col, node, s);
    PromoteTree(a.t, node, s);
    Restrict(b, h, h - {node}, short);
    SuccessorPlace(a.t, node, s);
    if a.t.links[s].right != null { assert a.t.NodeOk(a.t.links[s].right); }
    assert Certifies(b.t, b.col, h - {node}, null, short);
  }

  /** The first stage with the spine's caches refreshed: only the successor's own cache is in doubt. */
  ghost predicate Staged(a: State, l: map<VmArea, Link>, gaps: Gaps, node: VmArea, s: VmArea) {
    && node in a.t.links && node in a.t.span && s in a.t.links && 0 <= a.t.span[node].at < |a.t.order|
    && FirstStage(a.t.links, l, node, s)
    && a.t.span.Keys <= gaps.Keys && gaps.Keys == a.gaps.Keys
    && GapsOkBut(Promote(a.t, node, s), a.own, gaps, {s})
  }

  /** What remains to be refreshed after the structural part: the caches above `from`. */
  ghost predicate AwaitsWalk(a: State, b: State, node: VmArea, from: VmArea?) {
    && node in a.t.span && 0 <= a.t.span[node].at < |a.t.order|
    && b.own == a.own && b.t.Tree() && b.t.span.Keys <= b.t.links.Keys && b.t.links.Keys == b.col.Keys
    && Covered(b.t, b.own, b.gaps) && (forall n :: n in b.t.span ==> b.own[n] >= 0)
    && b.t.span.Keys == a.t.span.Keys - {node} && b.t.order == Without(a.t.order, a.t.span[node].at)
    && (RootBlack(a.t, a.col) ==> RootBlack(b.t, b.col))
    && (from == null || from in b.t.span) && GapsOkBut(b.t, b.own, b.gaps, {from})
  }

  lemma SpliceAwaits(a: State, node: VmArea, c: VmArea?)
    requires Erasable(a, node) && OnlyChild(a.t, node, c)
    ensures node in a.t.links && 0 <= a.t.span[node].at < |a.t.order| && node in a.col
    ensures AwaitsWalk(a, SpliceState(a, node, c), node, a.t.links[node].parent)
  {
    SpliceReady(a, node, c);
  }

  lemma PromoteAwaits(a: State, b: State, l: map<VmArea, Link>, node: VmArea, s: VmArea)
    requires Erasable(a, node) && Successor(a.t, node, s) && Staged(a, l, b.gaps, node, s) && node in a.col
    requires b == PromoteState(a, node, s).(gaps := b.gaps)
    ensures AwaitsWalk(a, b, node, s)
  {
    PromoteReady(a, node, s);
  }

  lemma WalkReady(a: State, b: State, node: VmArea, from: VmArea?)
    requires AwaitsWalk(a, b, node, from)
    ensures b.t.Tree() && b.t.span.Keys <= b.t.links.Keys && Walkable(b.t, b.t.links, b.own, b.t.span.Keys, null)
    ensures (from == null || from in b.t.span) && GapsOkBut(b.t, b.own, b.gaps, {} + {from})
  {
    WholeWalk(b.t, b.own);
    var nobody: set<VmArea?> := {};
    assert nobody + {from} == {from};
  }

  /** The walk up ends the erasure. */
  lemma WalkErases(a: State, b: State, c: State, node: VmArea, from: VmArea?)
    requires AwaitsWalk(a, b, node, from) && c == b.(gaps := c.gaps) && c.gaps.Keys == b.gaps.Keys
    requires GapsOkBut(c.t, c.own, c.gaps, {} + {null})
    ensures Erased(a, c, node)
  {
    forall n | n in c.t.span
      ensures GapOk(c.t, c.own, c.gaps, n)
    {
    }
  }

  /** The outcome does not depend on the caches. */
  lemma OutcomeGaps(b: State, c: State, rebalance: VmArea?)
    requires Outcome(b, rebalance) && c == b.(gaps := c.gaps)
    ensures Outcome(c, rebalance)
  {
  }

  /** All that the walk over the spine asks for. */
  lemma SpineReady(a: State, l: map<VmArea, Link>, node: VmArea, s: VmArea)
    requires Erasable(a, node) && Successor(a.t, node, s) && a.t.links[node].right != s
    requires FirstStage(a.t.links, l, node, s)
    ensures node in a.t.links && node in a.t.span && s in a.t.links
    ensures 0 <= a.t.span[node].at < |a.t.order| && a.t.links[s].parent != null && node in a.gaps
    ensures var t, p, gaps := Promote(a.t, node, s), a.t.links[s].parent, a.gaps[s := a.gaps[node]];
            && t.Tree() && t.span.Keys <= a.t.links.Keys && s in t.span && p in t.span
            && p in SpineWalk(t, s, p) && s !in SpineWalk(t, s, p) && Walkable(t, l, a.own, SpineWalk(t, s, p), s)
            && GapsOkBut(t, a.own, gaps, {s} + {p})
  {
    StageSites(a, node, s);
    SpineWalkable(a, l, node, s);
    PromoteReady(a, node, s);
    assert {s, a.t.links[s].parent} == {s} + {a.t.links[s].parent};
  }

  /** What the first stage needs to know about its nodes. */
  lemma FirstSites(a: State, node: VmArea, s: VmArea)
    requires Erasable(a, node) && Successor(a.t, node, s)
    ensures node in a.t.links && s in a.t.links && node in a.gaps && 0 <= a.t.span[node].at < |a.t.order|
    ensures var y := a.t.links[node].right;
      y != s ==> y != null && a.t.links[s].parent != null && UnhookSite(a.t.links, s, a.t.links[s].parent, y)
  {
    StageSites(a, node, s);
    SuccessorPlace(a.t, node, s);
  }

  lemma SpineDone(a: State, l: map<VmArea, Link>, gaps: Gaps, node: VmArea, s: VmArea)
    requires Erasable(a, node) && Successor(a.t, node, s) && FirstStage(a.t.links, l, node, s)
    requires 0 <= a.t.span[node].at < |a.t.order| && gaps.Keys == a.gaps.Keys
    requires a.t.links[node].right != s ==> GapsOkBut(Promote(a.t, node, s), a.own, gaps, {s} + {s})
    requires a.t.links[node].right == s ==> node in a.gaps && gaps == a.gaps[s := a.gaps[node]]
    ensures Staged(a, l, gaps, node, s)
  {
    PromoteReady(a, node, s);
    var nobody: set<VmArea?> := {s};
    assert nobody + {s} == nobody;
    if a.t.links[node].right == s {
      assert {s, Spine(a.t, node, s)} == nobody;
    }
  }

  lemma SecondLinks(a: State, l: map<VmArea, Link>, node: VmArea, s: VmArea)
    requires Erasable(a, node) && Successor(a.t, node, s) && FirstStage(a.t.links, l, node, s)
    ensures {node, s} <= l.Keys && Spine(a.t, node, s) in l
  {
    StageSites(a, node, s);
  }

  /** The neighbourhood of a node with two children. */
  lemma TwoChildren(a: State, node: VmArea)
    requires Erasable(a, node) && node in a.t.links && a.t.links[node].left != null && a.t.links[node].right != null
    ensures a.t.links[node].right in a.t.links && node in a.col
  {
    assert a.t.NodeOk(node);
  }

  /** The outcome once the walk up is done. */
  lemma PromoteSettles(a: State, b: State, c: State, node: VmArea, s: VmArea)
    requires Erasable(a, node) && Successor(a.t, node, s) && node in a.col && s in a.col && node in a.t.links && node in a.t.span
    requires 0 <= a.t.span[node].at < |a.t.order| && b == PromoteState(a, node, s).(gaps := b.gaps) && c == b.(gaps := c.gaps)
    ensures PromoteShort(a.t, a.col, node, s) != null <==> Shortens(a, node)
    ensures RedBlack(a.t, a.col) ==> Outcome(c, PromoteShort(a.t, a.col, node, s))
  {
    PromoteShortens(a, node, s);
    if RedBlack(a.t, a.col) {
      PromoteOutcome(a, node, s);
      OutcomeGaps(PromoteState(a, node, s), c, PromoteShort(a.t, a.col, node, s));
    }
  }

  lemma SpliceSettles(a: State, c: State, node: VmArea, child: VmArea?)
    requires Erasable(a, node) && OnlyChild(a.t, node, child) && node in a.col && node in a.t.links && node in a.t.span
    requires 0 <= a.t.span[node].at < |a.t.order| && c == SpliceState(a, node, child).(gaps := c.gaps)
    ensures SpliceShort(a.t, a.col, node, child) != null <==> Shortens(a, node)
    ensures RedBlack(a.t, a.col) ==> Outcome(c, SpliceShort(a.t, a.col, node, child))
  {
    SpliceShortens(a, node, child);
    if RedBlack(a.t, a.col) {
      SpliceOutcome(a, node, child);
      OutcomeGaps(SpliceState(a, node, child), c, SpliceShort(a.t, a.col, node, child));
    }
  }

  /** The defect of an outcome, as its caller finds it. */
  lemma ErasedExact(a: State, b: State, node: VmArea, rebalance: VmArea?)
    requires Erased(a, b, node) && RedBlack(a.t, a.col) && Outcome(b, rebalance)
    ensures RedBlack(b.t, b.col) <==> rebalance == null
  {
    OutcomeExact(b, rebalance);
  }
}
