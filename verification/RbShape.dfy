/**
 Pure theory of the area tree. A `Shape` is a snapshot of the tree pointers together with a
 witness that they form a binary tree whose in-order sequence is `order`: every node carries its
 position `at` and the interval `[lo, hi)` of positions that its subtree covers.
 */
module RbShape {
  import opened VmAreas

  datatype Span = Span(lo: int, at: int, hi: int)

  datatype Shape = Shape(
    links: map<VmArea, Link>,
    root: VmArea?,
    order: seq<VmArea>,
    span: map<VmArea, Span>)
  {
    /** Node `n` is wired to its neighbours as its span says. */
    ghost predicate NodeOk(n: VmArea) {
      && n in span && n in links
      && var k, s := links[n], span[n];
      && 0 <= s.lo <= s.at < s.hi <= |order|
      && (k.left == null <==> s.lo == s.at)
      && (k.right == null <==> s.at + 1 == s.hi)
      && (k.left != null ==>
            k.left in span && k.left in links && links[k.left].parent == n
            && span[k.left].lo == s.lo && span[k.left].hi == s.at)
      && (k.right != null ==>
            k.right in span && k.right in links && links[k.right].parent == n
            && span[k.right].lo == s.at + 1 && span[k.right].hi == s.hi)
      && (k.parent == null ==> root == n)
      && (k.parent != null ==>
            k.parent in span && k.parent in links
            && (links[k.parent].left == n || links[k.parent].right == n))
    }

    ghost predicate Rooted() {
      && (root == null <==> order == [])
      && (root != null ==>
            root in span && root in links && links[root].parent == null
            && span[root].lo == 0 && span[root].hi == |order|)
    }

    ghost predicate AtOk(n: VmArea) {
      n in span && 0 <= span[n].at < |order| && order[span[n].at] == n
    }

    ghost predicate Placed() {
      && (forall i :: 0 <= i < |order| ==> order[i] in span && span[order[i]].at == i)
      && (forall n {:trigger AtOk(n)} :: n in span ==> AtOk(n))
    }

    /** The pointers form a binary tree with in-order sequence `order`. */
    ghost predicate Tree() {
      && Rooted()
      && Placed()
      && forall n {:trigger NodeOk(n)} :: n in span ==> NodeOk(n)
    }
  }

  /** The pointer `k` after node `a` was replaced by `b`. */
  ghost function Swap(k: VmArea?, a: VmArea, b: VmArea?): VmArea? {
    if k == a then b else k
  }

  // ---------------------------------------------------------------- rotations

  /** The pointers after the left child `p` of `g` took `g`'s place and `g` became its right child. */
  ghost function RotatedLinks(l: map<VmArea, Link>, g: VmArea, p: VmArea): map<VmArea, Link>
    requires g in l && p in l
  {
    var mid, up := l[p].right, l[g].parent;
    map n | n in l ::
      if n == p then Link(l[p].left, g, up)
      else if n == g then Link(mid, l[g].right, p)
      else if n == up then Link(Swap(l[n].left, g, p), Swap(l[n].right, g, p), l[n].parent)
      else if n == mid then l[n].(parent := g)
      else l[n]
  }

  ghost function RotateRight(t: Shape, g: VmArea, p: VmArea): Shape
    requires g in t.links && p in t.links
  {
    Shape(
      RotatedLinks(t.links, g, p),
      Swap(t.root, g, p),
      t.order,
      map n | n in t.span ::
        if n == p && g in t.span then t.span[n].(lo := t.span[g].lo, hi := t.span[g].hi)
        else if n == g && p in t.span then t.span[n].(lo := t.span[p].at + 1)
        else t.span[n])
  }

  lemma RotateRightMoved(t: Shape, g: VmArea, p: VmArea)
    requires t.Tree() && g in t.span && g in t.links && t.links[g].left == p && p in t.links
    ensures RotateRight(t, g, p).NodeOk(g) && RotateRight(t, g, p).NodeOk(p)
  {
    assert t.NodeOk(g) && t.NodeOk(p);
    var mid := t.links[p].right;
    assert mid != null ==> t.NodeOk(mid);
  }

  lemma RotateRightOther(t: Shape, g: VmArea, p: VmArea, n: VmArea)
    requires t.Tree() && g in t.span && g in t.links && t.links[g].left == p && p in t.links
    requires n in t.span && n != g && n != p
    ensures RotateRight(t, g, p).NodeOk(n)
  {
    assert t.NodeOk(g) && t.NodeOk(p) && t.NodeOk(n);
  }

  lemma RotateRightTree(t: Shape, g: VmArea, p: VmArea)
    requires t.Tree() && g in t.span && g in t.links && t.links[g].left == p && p in t.links
    ensures RotateRight(t, g, p).Tree()
  {
    assert t.NodeOk(g) && t.NodeOk(p);
    var r := RotateRight(t, g, p);
    assert r.span.Keys == t.span.Keys;
    assert forall n :: n in r.span ==> r.span[n].at == t.span[n].at;
    assert r.Placed() by { forall n | n in r.span ensures r.AtOk(n) { assert t.AtOk(n); } }
    forall n | n in r.span
      ensures r.NodeOk(n)
    {
      RotateRightMoved(t, g, p);
      if n != g && n != p { RotateRightOther(t, g, p, n); }
    }
  }

  /** Left and right exchanged. */
  ghost function Mirror(t: Shape): Shape {
    var c := |t.order|;
    Shape(
      map n | n in t.links :: Link(t.links[n].right, t.links[n].left, t.links[n].parent),
      t.root,
      seq(c, i requires 0 <= i < c => t.order[c - 1 - i]),
      map n | n in t.span :: Span(c - t.span[n].hi, c - 1 - t.span[n].at, c - t.span[n].lo))
  }

  lemma MirrorTree(t: Shape)
    requires t.Tree()
    ensures Mirror(t).Tree()
  {
    var m := Mirror(t);
    forall n | n in m.span
      ensures m.AtOk(n)
    {
      assert t.AtOk(n);
    }
    forall n | n in m.span
      ensures m.NodeOk(n)
    {
      assert t.NodeOk(n);
    }
  }

  ghost function RotateLeft(t: Shape, g: VmArea, p: VmArea): Shape
    requires g in t.links && p in t.links
  {
    Mirror(RotateRight(Mirror(t), g, p))
  }

  lemma RotatedLeft(t: Shape, g: VmArea, p: VmArea, n: VmArea)
    requires g in t.links && p in t.links && n in t.links && g != p
    ensures RotateLeft(t, g, p).span.Keys == t.span.Keys && RotateLeft(t, g, p).links.Keys == t.links.Keys
    ensures var l, mid, up := t.links, t.links[p].left, t.links[g].parent;
      RotateLeft(t, g, p).links[n] == if n == p then Link(g, l[p].right, up)
                                      else if n == g then Link(l[g].left, mid, p)
                                      else if n == up then Link(Swap(l[n].left, g, p), Swap(l[n].right, g, p), l[n].parent)
                                      else if n == mid then l[n].(parent := g) else l[n]
  {
  }

  lemma RotateLeftTree(t: Shape, g: VmArea, p: VmArea)
    requires t.Tree() && g in t.span && g in t.links && t.links[g].right == p && p in t.links
    ensures RotateLeft(t, g, p).Tree() && RotateLeft(t, g, p).order == t.order
  {
    MirrorTree(t);
    RotateRightTree(Mirror(t), g, p);
    MirrorTree(RotateRight(Mirror(t), g, p));
  }

  // ---------------------------------------------------------------- linking a leaf

  /** The empty link at which a search for position `k` ends. */
  ghost predicate EmptyLink(t: Shape, p: VmArea?, left: bool, k: int) {
    && 0 <= k <= |t.order|
    && (p == null ==> t.root == null)
    && (p != null ==> p in t.span && p in t.links)
    && (p != null && left ==> t.links[p].left == null && t.span[p].at == k)
    && (p != null && !left ==> t.links[p].right == null && t.span[p].at + 1 == k)
  }

  /** `rb_link_node`: `node` becomes a leaf at position `k`. */
  ghost function LinkLeaf(t: Shape, node: VmArea, p: VmArea?, left: bool, k: int): Shape
    requires 0 <= k <= |t.order|
  {
    Shape(
      map n | n in t.links.Keys + {node} ::
        if n == node then Link(null, null, p)
        else if n == p && left then t.links[n].(left := node)
        else if n == p then t.links[n].(right := node)
        else t.links[n],
      if p == null then node else t.root,
      t.order[..k] + [node] + t.order[k..],
      map n | n in t.span.Keys + {node} ::
        if n == node then Span(k, k, k + 1) else
          var s, low := t.span[n], if left then k + 1 else k;
          Span(Pushed(s.lo, low), Pushed(s.at, k), Pushed(s.hi, low)))
  }

  /** The position `i` once a position has been opened below everything from `from` on. */
  ghost function Pushed(i: int, from: int): int {
    if i >= from then i + 1 else i
  }

  lemma LinkLeafLinks(t: Shape, node: VmArea, p: VmArea?, left: bool, k: int, n: VmArea)
    requires t.Tree() && EmptyLink(t, p, left, k) && node !in t.span
    requires n in t.span.Keys + {node}
    ensures LinkLeaf(t, node, p, left, k).NodeOk(n)
  {
    if n != node { assert t.NodeOk(n) && t.AtOk(n); }
    if p != null { assert t.NodeOk(p) && t.AtOk(p); }
  }

  lemma LinkLeafTree(t: Shape, node: VmArea, p: VmArea?, left: bool, k: int)
    requires t.Tree() && EmptyLink(t, p, left, k) && node !in t.span
    ensures LinkLeaf(t, node, p, left, k).Tree()
  {
    var r := LinkLeaf(t, node, p, left, k);
    forall n | n in r.span
      ensures r.NodeOk(n)
    {
      LinkLeafLinks(t, node, p, left, k, n);
    }
    LinkLeafPlaced(t, node, p, left, k);
    if p != null { assert t.NodeOk(p); }
  }

  lemma LinkLeafPlaced(t: Shape, node: VmArea, p: VmArea?, left: bool, k: int)
    requires t.Placed() && 0 <= k <= |t.order| && node !in t.span
    ensures LinkLeaf(t, node, p, left, k).Placed()
  {
    var r := LinkLeaf(t, node, p, left, k);
    forall i | 0 <= i < |r.order|
      ensures r.order[i] in r.span && r.span[r.order[i]].at == i
    {
      assert r.order[i] == if i < k then t.order[i] else if i == k then node else t.order[i - 1];
    }
    forall n | n in r.span
      ensures r.AtOk(n)
    {
      assert n != node ==> t.AtOk(n);
    }
  }

  // ---------------------------------------------------------------- erasing

  /** The sequence without its element at `k`. */
  function Without<T>(s: seq<T>, k: int): seq<T>
    requires 0 <= k < |s|
  {
    s[..k] + s[k + 1..]
  }

  /** The position `i` once the position `e` has been closed. */
  ghost function Pulled(i: int, e: int): int {
    if i > e then i - 1 else i
  }

  ghost function PulledSpan(s: Span, e: int): Span {
    Span(Pulled(s.lo, e), Pulled(s.at, e), Pulled(s.hi, e))
  }

  /** Case 1 of `rb_erase`: `node`, with at most the one child `c`, is replaced by `c`. */
  ghost function Splice(t: Shape, node: VmArea, c: VmArea?): Shape
    requires node in t.links && node in t.span && 0 <= t.span[node].at < |t.order|
  {
    var up, k := t.links[node].parent, t.span[node].at;
    Shape(
      map n | n in t.links ::
        if n == up then Link(Swap(t.links[n].left, node, c), Swap(t.links[n].right, node, c), t.links[n].parent)
        else if n == c then t.links[n].(parent := up)
        else t.links[n],
      Swap(t.root, node, c),
      Without(t.order, k),
      map n | n in t.span.Keys - {node} :: PulledSpan(t.span[n], k))
  }

  ghost predicate OnlyChild(t: Shape, node: VmArea, c: VmArea?) {
    && node in t.span && node in t.links
    && ((t.links[node].left == null && t.links[node].right == c)
        || (t.links[node].right == null && t.links[node].left == c))
  }

  lemma SpliceChild(t: Shape, node: VmArea, c: VmArea)
    requires t.Tree() && OnlyChild(t, node, c)
    ensures 0 <= t.span[node].at < |t.order| && c in t.span && c != node && Splice(t, node, c).NodeOk(c)
  {
    assert t.NodeOk(node);
    assert t.NodeOk(c);
  }

  lemma SpliceParent(t: Shape, node: VmArea, c: VmArea?, up: VmArea)
    requires t.Tree() && OnlyChild(t, node, c) && t.links[node].parent == up
    ensures 0 <= t.span[node].at < |t.order| && up in t.span && up != node && Splice(t, node, c).NodeOk(up)
  {
    assert t.NodeOk(node);
    assert t.NodeOk(up);
    if c != null { assert t.NodeOk(c); }
  }

  /** A subtree that covers just the position of `node` is `node`. */
  lemma SinglePosition(t: Shape, node: VmArea, m: VmArea?)
    requires t.Tree() && node in t.span && m != null && m in t.span
    ensures (m != node ==> t.span[m].at != t.span[node].at) && t.NodeOk(m)
    ensures m != node ==> !(t.span[m].lo == t.span[node].at && t.span[m].hi == t.span[node].at + 1)
  {
    assert t.AtOk(node) && t.AtOk(m) && t.NodeOk(m);
  }

  /** `r` shows `n` as `t` does, with the position of `e` closed. */
  ghost predicate PulledAlike(t: Shape, r: Shape, e: VmArea, n: VmArea) {
    n in t.span && n in r.span && n in r.links && e in t.span && r.span[n] == PulledSpan(t.span[n], t.span[e].at)
  }

  ghost predicate PulledKid(t: Shape, r: Shape, e: VmArea, n: VmArea, c: VmArea?) {
    c != null ==> PulledAlike(t, r, e, c) && r.links[c].parent == n
  }

  /** A node away from the place of the erasure stays well wired. */
  lemma PulledNode(t: Shape, r: Shape, e: VmArea, n: VmArea)
    requires t.Tree() && PulledAlike(t, r, e, n) && n != e && n in t.links
    requires |r.order| == |t.order| - 1
    requires r.links[n].left == t.links[n].left && PulledKid(t, r, e, n, t.links[n].left) && t.links[n].left != e
    requires r.links[n].right == t.links[n].right && PulledKid(t, r, e, n, t.links[n].right) && t.links[n].right != e
    requires r.links[n].parent == null ==> r.root == n
    requires r.links[n].parent != null ==>
               r.links[n].parent in r.span && r.links[n].parent in r.links
               && (r.links[r.links[n].parent].left == n || r.links[r.links[n].parent].right == n)
    ensures r.NodeOk(n)
  {
    SinglePosition(t, e, n);
    assert t.AtOk(e);
    var k := t.links[n];
    if k.left != null { SinglePosition(t, e, k.left); }
    if k.right != null { SinglePosition(t, e, k.right); }
  }

  lemma SpliceOther(t: Shape, node: VmArea, c: VmArea?, n: VmArea)
    requires t.Tree() && OnlyChild(t, node, c) && n in t.span && n != node && n != c
    requires n != t.links[node].parent
    ensures 0 <= t.span[node].at < |t.order| && Splice(t, node, c).NodeOk(n)
  {
    assert t.NodeOk(node) && t.NodeOk(n) && t.AtOk(node);
    var r := Splice(t, node, c);
    PulledNode(t, r, node, n);
  }

  lemma SpliceTree(t: Shape, node: VmArea, c: VmArea?)
    requires t.Tree() && OnlyChild(t, node, c)
    ensures 0 <= t.span[node].at < |t.order| && Splice(t, node, c).Tree()
  {
    assert t.NodeOk(node);
    var r, k := Splice(t, node, c), t.span[node].at;
    forall n | n in r.span
      ensures r.NodeOk(n)
    {
      assert t.NodeOk(n);
      if n == c {
        SpliceChild(t, node, c);
      } else if n == t.links[node].parent {
        SpliceParent(t, node, c, n);
      } else {
        SpliceOther(t, node, c, n);
      }
    }
    assert t.AtOk(node);
    WithoutPlaced(t, node, k, r);
    if c != null { assert t.NodeOk(c); }
  }

  /** Closing a position keeps the remaining nodes in place. */
  lemma WithoutPlaced(t: Shape, node: VmArea, k: int, r: Shape)
    requires t.Placed() && 0 <= k < |t.order| && t.order[k] == node
    requires r.order == Without(t.order, k) && r.span.Keys == t.span.Keys - {node}
    requires forall n :: n in r.span ==> r.span[n].at == Pulled(t.span[n].at, k)
    ensures r.Placed()
  {
    forall i | 0 <= i < |r.order|
      ensures r.order[i] in r.span && r.span[r.order[i]].at == i
    {
      assert r.order[i] == if i < k then t.order[i] else t.order[i + 1];
    }
    forall n | n in r.span
      ensures r.AtOk(n)
    {
      assert t.AtOk(n);
    }
  }

  /** `s` is the in-order successor of `node`, which has two children. */
  ghost predicate Successor(t: Shape, node: VmArea, s: VmArea) {
    && node in t.span && node in t.links && s in t.span && s in t.links
    && t.links[node].left != null && t.links[node].right != null
    && t.links[s].left == null && t.span[s].lo == t.span[node].at + 1
  }

  /** The parent that the successor's right child ends up with. */
  ghost function Spine(t: Shape, node: VmArea, s: VmArea): VmArea?
    requires node in t.links && s in t.links
  {
    if t.links[node].right == s then s else t.links[s].parent
  }

  ghost function PromotedLink(t: Shape, node: VmArea, s: VmArea, n: VmArea): Link
    requires node in t.links && s in t.links && n in t.links
  {
    var k, l := t.links[node], t.links[n];
    if n == s then Link(k.left, if k.right == s then t.links[s].right else k.right, k.parent)
    else if n == k.parent then Link(Swap(l.left, node, s), Swap(l.right, node, s), l.parent)
    else Link(
      if n == Spine(t, node, s) then t.links[s].right else l.left,
      l.right,
      if n == k.left || n == k.right then s
      else if n == t.links[s].right then Spine(t, node, s)
      else l.parent)
  }

  /** Cases 2 and 3 of `rb_erase`: the successor leaves its place to its right child and takes `node`'s. */
  ghost function Promote(t: Shape, node: VmArea, s: VmArea): Shape
    requires node in t.links && node in t.span && s in t.links && 0 <= t.span[node].at < |t.order|
  {
    var k := t.span[node].at;
    Shape(
      map n | n in t.links :: PromotedLink(t, node, s, n),
      Swap(t.root, node, s),
      Without(t.order, k),
      map n | n in t.span.Keys - {node} ::
        if n == s then Span(t.span[node].lo, k, t.span[node].hi - 1) else PulledSpan(t.span[n], k + 1))
  }

  /** Where the successor sits. */
  lemma SuccessorPlace(t: Shape, node: VmArea, s: VmArea)
    requires t.Tree() && Successor(t, node, s)
    ensures t.NodeOk(node) && t.NodeOk(s) && s != node
    ensures t.span[s].at == t.span[node].at + 1 < |t.order|
    ensures t.links[node].right == s || (
              && t.links[s].parent != null && t.links[s].parent in t.span && t.NodeOk(t.links[s].parent)
              && t.links[s].parent != node && t.links[t.links[s].parent].left == s)
  {
    assert t.NodeOk(node) && t.NodeOk(s) && t.AtOk(node) && t.AtOk(s);
    var p := t.links[s].parent;
    if p != null {
      assert t.NodeOk(p) && t.AtOk(p);
    }
  }

  lemma PromoteSuccessor(t: Shape, node: VmArea, s: VmArea)
    requires t.Tree() && Successor(t, node, s)
    ensures 0 <= t.span[node].at < |t.order| && Promote(t, node, s).NodeOk(s)
  {
    SuccessorPlace(t, node, s);
    var k := t.links[node];
    assert t.NodeOk(k.left) && t.NodeOk(k.right) && t.AtOk(k.right) && t.AtOk(s);
    assert k.right == s && t.links[s].right != null ==> t.NodeOk(t.links[s].right);
  }

  /** What becomes of one node. */
  lemma PromotedNode(t: Shape, node: VmArea, s: VmArea, n: VmArea)
    requires t.Tree() && Successor(t, node, s) && n in t.span
    ensures 0 <= t.span[node].at < |t.order| && |Promote(t, node, s).order| == |t.order| - 1
    ensures n in t.links && n in Promote(t, node, s).links && Promote(t, node, s).links[n] == PromotedLink(t, node, s, n)
    ensures Promote(t, node, s).root == Swap(t.root, node, s)
    ensures n != node ==> n in Promote(t, node, s).span
    ensures n != node ==> var k := t.span[node];
      Promote(t, node, s).span[n] == if n == s then Span(k.lo, k.at, k.hi - 1) else PulledSpan(t.span[n], k.at + 1)
  {
    assert t.NodeOk(n) && t.NodeOk(node);
  }

  lemma PromoteParent(t: Shape, node: VmArea, s: VmArea, up: VmArea)
    requires t.Tree() && Successor(t, node, s) && t.links[node].parent == up
    ensures 0 <= t.span[node].at < |t.order| && up in t.span && up != node && Promote(t, node, s).NodeOk(up)
  {
    hide Promote;
    PromotedNode(t, node, s, s);
    SuccessorPlace(t, node, s);
    assert t.NodeOk(up);
    PromotedNode(t, node, s, up);
    var k := t.links[up];
    if k.left != null {
      assert t.NodeOk(k.left) && t.AtOk(k.left);
      PromotedNode(t, node, s, k.left);
    }
    if k.right != null {
      assert t.NodeOk(k.right) && t.AtOk(k.right);
      PromotedNode(t, node, s, k.right);
    }
    if k.parent != null {
      assert t.NodeOk(k.parent);
      PromotedNode(t, node, s, k.parent);
    }
  }

  lemma PromoteLeft(t: Shape, node: VmArea, s: VmArea, x: VmArea)
    requires t.Tree() && Successor(t, node, s) && t.links[node].left == x
    ensures 0 <= t.span[node].at < |t.order| && x in t.span && x != node && Promote(t, node, s).NodeOk(x)
  {
    SuccessorPlace(t, node, s);
    assert t.NodeOk(x) && t.AtOk(s) && t.AtOk(node);
    PulledNode(t, Promote(t, node, s), s, x);
  }

  /** The nodes on the way from `node`'s right child down to the successor's old parent. */
  lemma PromoteSpine(t: Shape, node: VmArea, s: VmArea, n: VmArea)
    requires t.Tree() && Successor(t, node, s) && n != s && n == t.links[s].parent && t.links[node].right != s
    ensures 0 <= t.span[node].at < |t.order| && n in t.span && n != node && Promote(t, node, s).NodeOk(n)
  {
    SuccessorPlace(t, node, s);
    assert t.NodeOk(n) && t.AtOk(n) && t.AtOk(node) && t.AtOk(s);
    var k := t.links[n];
    assert t.links[s].right != null ==> t.NodeOk(t.links[s].right);
    if k.right != null { assert t.NodeOk(k.right); }
  }

  lemma PromoteChild(t: Shape, node: VmArea, s: VmArea, c: VmArea)
    requires t.Tree() && Successor(t, node, s) && t.links[s].right == c
    ensures 0 <= t.span[node].at < |t.order| && c in t.span && c != node && Promote(t, node, s).NodeOk(c)
  {
    SuccessorPlace(t, node, s);
    assert t.NodeOk(c) && t.AtOk(c) && t.AtOk(s) && t.AtOk(node);
    PulledNode(t, Promote(t, node, s), s, c);
  }

  /** Every other node, including `node`'s right child when that is not next to the successor. */
  lemma PromoteOther(t: Shape, node: VmArea, s: VmArea, n: VmArea)
    requires t.Tree() && Successor(t, node, s) && n in t.span && n != node && n != s
    requires n != t.links[node].parent && n != t.links[node].left
    requires n != t.links[s].parent && n != t.links[s].right
    ensures 0 <= t.span[node].at < |t.order| && Promote(t, node, s).NodeOk(n)
  {
    SuccessorPlace(t, node, s);
    assert t.NodeOk(n) && t.AtOk(s) && t.AtOk(node);
    PulledNode(t, Promote(t, node, s), s, n);
  }

  lemma PromoteTree(t: Shape, node: VmArea, s: VmArea)
    requires t.Tree() && Successor(t, node, s)
    ensures 0 <= t.span[node].at < |t.order| && Promote(t, node, s).Tree()
  {
    SuccessorPlace(t, node, s);
    var r, k, l := Promote(t, node, s), t.span[node].at, t.links[node];
    forall n | n in r.span
      ensures r.NodeOk(n)
    {
      if n == s {
        PromoteSuccessor(t, node, s);
      } else if n == l.parent {
        PromoteParent(t, node, s, n);
      } else if n == l.left {
        PromoteLeft(t, node, s, n);
      } else if l.right != s && n == t.links[s].parent {
        PromoteSpine(t, node, s, n);
      } else if n == t.links[s].right {
        PromoteChild(t, node, s, n);
      } else {
        PromoteOther(t, node, s, n);
      }
    }
    PromotePlaced(t, node, s);
  }

  lemma PromotePlaced(t: Shape, node: VmArea, s: VmArea)
    requires t.Tree() && Successor(t, node, s)
    ensures 0 <= t.span[node].at < |t.order| && Promote(t, node, s).Placed()
  {
    SuccessorPlace(t, node, s);
    assert t.AtOk(node);
    var r, k := Promote(t, node, s), t.span[node].at;
    forall n | n in r.span
      ensures r.span[n].at == Pulled(t.span[n].at, k)
    {
      SinglePosition(t, s, n);
      SinglePosition(t, node, n);
    }
    WithoutPlaced(t, node, k, r);
  }

  // ---------------------------------------------------------------- what the witness means

  /** The in-order sequence of the subtree at `c`, read off the pointers alone. */
  ghost function InOrder(t: Shape, c: VmArea?): seq<VmArea>
    requires t.Tree() && (c != null ==> c in t.span)
    decreases if c == null then 0 else 1 + t.span[c].hi - t.span[c].lo
  {
    if c == null then [] else
      assert t.NodeOk(c);
      assert t.links[c].left != null ==> t.NodeOk(t.links[c].left);
      assert t.links[c].right != null ==> t.NodeOk(t.links[c].right);
      InOrder(t, t.links[c].left) + [c] + InOrder(t, t.links[c].right)
  }

  /** A walk of the pointers visits exactly the positions of the span, in order. */
  lemma {:induction false} InOrderIsSlice(t: Shape, c: VmArea)
    requires t.Tree() && c in t.span
    ensures 0 <= t.span[c].lo <= t.span[c].hi <= |t.order|
    ensures InOrder(t, c) == t.order[t.span[c].lo..t.span[c].hi]
    decreases t.span[c].hi - t.span[c].lo
  {
    assert t.NodeOk(c) && t.AtOk(c);
    var k, s := t.links[c], t.span[c];
    if k.left != null { InOrderIsSlice(t, k.left); }
    if k.right != null { InOrderIsSlice(t, k.right); }
    assert InOrder(t, k.left) == t.order[s.lo..s.at];
    assert InOrder(t, k.right) == t.order[s.at + 1..s.hi];
    assert t.order[s.lo..s.hi] == t.order[s.lo..s.at] + [c] + t.order[s.at + 1..s.hi];
  }

  /** The pointers alone determine the sequence: `order` is the in-order sequence of the tree. */
  lemma InOrderIsOrder(t: Shape)
    requires t.Tree()
    ensures t.root != null ==> t.root in t.span
    ensures InOrder(t, t.root) == t.order
  {
    if t.root != null {
      InOrderIsSlice(t, t.root);
    }
  }
}
