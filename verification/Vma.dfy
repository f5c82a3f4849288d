/**
 The area list and tree as kernel/c/vma.c and common/vma.c use them.
 */
module Vma {
  import opened VmAreas
  import opened RbShape
  import opened RbBalance
  import opened RbTree
  import opened HostMemory

  /** The prev/next list from `first` is `list`. */
  ghost predicate Listed(list: seq<VmArea>, first: VmArea?)
    reads list`prev, list`next
  {
    && first == At(list, 0)
    && (forall i {:trigger list[i].prev} :: 0 <= i < |list| ==> list[i].prev == At(list, i - 1))
    && forall i {:trigger list[i].next} :: 0 <= i < |list| ==> list[i].next == At(list, i + 1)
  }

  /** The areas are nonempty, in order and disjoint. */
  ghost predicate Ascending(list: seq<VmArea>)
    reads list`start, list`end
  {
    && (forall i :: 0 <= i < |list| ==> list[i].start < list[i].end)
    && forall i, j :: 0 <= i < j < |list| ==> list[i].end <= list[j].start
  }

  ghost predicate PageAligned(list: seq<VmArea>)
    reads list`start, list`end
  {
    forall i :: 0 <= i < |list| ==> Aligned(list[i].start) && Aligned(list[i].end)
  }

  /** The end of the last area, or 0. */
  ghost function EndOf(list: seq<VmArea>): nat
    reads list`end
  {
    if list == [] then 0 else list[|list| - 1].end
  }

  /** List, tree, cached gaps and highest address agree. */
  ghost predicate Valid(s: AddressSpace)
    reads s`root, s`first, s`highest, s`nodes, s`order, s`span
    reads s.nodes`rbLeft, s.nodes`rbRight, s.nodes`rbParent, s.nodes`rbBlack, s.nodes`subtreeGap
    reads s.nodes`prev, s.nodes`start, s.nodes`end
    reads s.order`prev, s.order`next, s.order`start, s.order`end
  {
    && s.Sound() && s.nodes == s.span.Keys && RootBlack(s.Tree(), s.Colours())
    && Listed(s.order, s.first) && Ascending(s.order) && PageAligned(s.order)
    && s.highest == EndOf(s.order)
  }

  // ---------------------------------------------------------------- lookups

  /** All that a search relies on: a tree whose sequence is ascending. */
  ghost predicate Ordered(s: AddressSpace)
    reads s, s.nodes, s.order
  {
    s.Tree().Tree() && s.span.Keys <= s.nodes && Ascending(s.order)
  }

  /** The subtree at `n` covers the positions the search has not excluded. */
  ghost predicate Searching(s: AddressSpace, n: VmArea?, lo: int, hi: int)
    reads s`span
  {
    && 0 <= lo <= hi
    && (n == null ==> lo == hi)
    && (n != null ==> n in s.span && s.span[n].lo == lo && s.span[n].hi == hi)
  }

  /** The first `k` areas end by `addr`. */
  ghost predicate EndedBy(list: seq<VmArea>, k: int, addr: int)
    reads list`end
  {
    0 <= k <= |list| && forall i :: 0 <= i < k ==> list[i].end <= addr
  }

  /** The areas from position `k` on start at `end` or later. */
  ghost predicate BeginFrom(list: seq<VmArea>, k: int, end: int)
    reads list`start
  {
    0 <= k <= |list| && forall i :: k <= i < |list| ==> end <= list[i].start
  }

  /** The area is at position `k`. */
  ghost predicate Positioned(s: AddressSpace, v: VmArea, k: int)
    reads s`root, s`nodes, s`order, s`span, s.nodes`rbLeft, s.nodes`rbRight, s.nodes`rbParent
  {
    v in s.nodes && v in s.span && s.span[v].at == k && 0 <= k < |s.order| && s.order[k] == v && s.Tree().NodeOk(v) && s.Tree().AtOk(v)
  }

  lemma AtRoot(s: AddressSpace, node: VmArea, lo: int, hi: int) returns (k: int)
    requires Ordered(s) && Searching(s, node, lo, hi)
    ensures Positioned(s, node, k) && lo <= k < hi <= |s.order| && node.start < node.end
    ensures Searching(s, node.rbLeft, lo, k) && Searching(s, node.rbRight, k + 1, hi)
    ensures EndedBy(s.order, k, node.start) && BeginFrom(s.order, k + 1, node.end)
  {
    k := s.span[node].at;
    assert s.Tree().NodeOk(node) && s.Tree().AtOk(node);
  }

  /** From an area that ends by `addr` the search goes right. */
  lemma StepRight(s: AddressSpace, node: VmArea, lo: int, hi: int, addr: int) returns (k: int)
    requires Ordered(s) && Searching(s, node, lo, hi) && node.end <= addr
    ensures Positioned(s, node, k) && lo <= k < hi <= |s.order| && Searching(s, node.rbRight, k + 1, hi) && EndedBy(s.order, k + 1, addr)
  {
    k := AtRoot(s, node, lo, hi);
  }

  /** From any other area it goes left. */
  lemma StepLeft(s: AddressSpace, node: VmArea, lo: int, hi: int) returns (k: int)
    requires Ordered(s) && Searching(s, node, lo, hi)
    ensures Positioned(s, node, k) && lo <= k < hi <= |s.order| && Searching(s, node.rbLeft, lo, k)
    ensures EndedBy(s.order, k, node.start) && BeginFrom(s.order, k, node.start)
  {
    k := AtRoot(s, node, lo, hi);
  }

  lemma SearchRoot(s: AddressSpace)
    requires Ordered(s)
    ensures Searching(s, s.root, 0, |s.order|) && s.Tree().root == s.root
    ensures forall addr :: EndedBy(s.order, 0, addr) && BeginFrom(s.order, |s.order|, addr)
  {
  }

  /** A walk down that stands at `node`, having passed `path`. */
  ghost predicate Descending(t: Shape, path: seq<VmArea>, node: VmArea?) {
    && Descent(t, path)
    && (if path == [] then node == t.root
        else t.links[path[|path| - 1]].left == node || t.links[path[|path| - 1]].right == node)
  }

  lemma DescentStart(t: Shape)
    ensures Descending(t, [], t.root) && Descent(t, [])
  {
  }

  lemma Descend(t: Shape, path: seq<VmArea>, node: VmArea)
    requires Descending(t, path, node) && node in t.span && node in t.links
    ensures Descent(t, path + [node])
    ensures Descending(t, path + [node], t.links[node].left) && Descending(t, path + [node], t.links[node].right)
  {
  }

  /** `vma` is the first area whose end exceeds `addr`, or null if there is none. */
  ghost predicate FirstBehind(s: AddressSpace, vma: VmArea?, addr: int)
    reads s`root, s`nodes, s`order, s`span, s.nodes`rbLeft, s.nodes`rbRight, s.nodes`rbParent, s.order`end
    reads (if vma == null then {} else {vma})`end
  {
    if vma == null then forall i :: 0 <= i < |s.order| ==> s.order[i].end <= addr
    else
      && vma in s.span && s.Tree().AtOk(vma) && vma.end > addr
      && forall i :: 0 <= i < s.span[vma].at ==> s.order[i].end <= addr
  }

  /** Where the search goes on from `n`. */
  ghost function Onward(n: VmArea, addr: int): VmArea?
    reads n
  {
    if n.end > addr then n.rbLeft else n.rbRight
  }

  ghost predicate Contains(n: VmArea, addr: int)
    reads n`start, n`end
  {
    n.start <= addr < n.end
  }

  /** The search from the root has looked at `path` and goes on at `node`: it has not met an area that contains `addr`. */
  ghost predicate Searched(root: VmArea?, path: seq<VmArea>, node: VmArea?, addr: int)
    reads path
  {
    && (if path == [] then node == root else path[0] == root && node == Onward(path[|path| - 1], addr))
    && (forall i :: 0 <= i < |path| ==> !Contains(path[i], addr))
    && forall i {:trigger path[i]} :: 0 < i < |path| ==> path[i] == Onward(path[i - 1], addr)
  }

  /** `path` is the way that the order of the tree prescribes: down to an area that contains `addr`, or to an empty link. */
  ghost predicate SearchPath(root: VmArea?, path: seq<VmArea>, addr: int)
    reads path
  {
    || Searched(root, path, null, addr)
    || (path != [] && Contains(path[|path| - 1], addr) && Searched(root, path[..|path| - 1], path[|path| - 1], addr))
  }

  /**
   `vma_find`: the first area whose end exceeds `addr`. The areas it looks at are those on `path`, the only way
   down the tree that the order allows; in a red-black tree of n areas they are at most 2 log2(n + 1).
   */
  method VmaFind(s: AddressSpace, addr: int) returns (vma: VmArea?, ghost path: seq<VmArea>)
    requires Ordered(s)
    ensures FirstBehind(s, vma, addr)
    ensures SearchPath(s.root, path, addr)
    ensures RedBlack(s.Tree(), s.Colours()) ==> Pow2(|path|) <= (|s.order| + 1) * (|s.order| + 1)
  {
    hide Ordered, Searching, EndedBy, BeginFrom, Positioned, FirstBehind, Descent, Descending, Searched, SearchPath, RedBlack, Pow2;
    ghost var t := s.Tree();
    vma, path := null, [];
    var node := s.root;
    ghost var lo, hi := 0, |s.order|;
    DescentStart(t);
    SearchRoot(s);
    SearchStart(s.root, addr);
    while node != null
      invariant Searching(s, node, lo, hi) && 0 <= lo <= hi <= |s.order| && EndedBy(s.order, lo, addr)
      invariant if vma == null then hi == |s.order| else Positioned(s, vma, hi) && vma.end > addr
      invariant Descending(t, path, node) && Descent(t, path) && Searched(s.root, path, node, addr)
      decreases hi - lo
    {
      DescendHere(s, path, node, lo, hi);
      SearchOn(s.root, path, node, addr);
      path := path + [node];
      if node.end > addr {
        ghost var k := StepLeft(s, node, lo, hi);
        vma := node;
        if node.start <= addr {
          FoundFirst(s, vma, k, node.start, addr);
          break;
        }
        hi := k;
        node := node.rbLeft;
      } else {
        ghost var k := StepRight(s, node, lo, hi, addr);
        lo := k + 1;
        node := node.rbRight;
      }
    }
    if node == null {
      SearchEnd(s.root, path, addr);
      NothingLeft(s, lo, hi);
      FoundFirst(s, vma, hi, addr, addr);
    }
    Bound(s, path);
  }

  lemma DescendHere(s: AddressSpace, path: seq<VmArea>, node: VmArea, lo: int, hi: int)
    requires Ordered(s) && Searching(s, node, lo, hi) && Descending(s.Tree(), path, node)
    ensures Descent(s.Tree(), path + [node])
    ensures Descending(s.Tree(), path + [node], node.rbLeft) && Descending(s.Tree(), path + [node], node.rbRight)
  {
    hide Descending, Descent;
    assert s.Tree().NodeOk(node);
    Descend(s.Tree(), path, node);
  }

  lemma NothingLeft(s: AddressSpace, lo: int, hi: int)
    requires Searching(s, null, lo, hi)
    ensures lo == hi
  {
  }

  lemma FoundFirst(s: AddressSpace, vma: VmArea?, k: int, upTo: int, addr: int)
    requires if vma == null then k == |s.order| else Positioned(s, vma, k) && vma.end > addr
    requires EndedBy(s.order, k, upTo) && upTo <= addr
    ensures FirstBehind(s, vma, addr)
  {
  }

  lemma SearchEnd(root: VmArea?, path: seq<VmArea>, addr: int)
    requires Searched(root, path, null, addr)
    ensures SearchPath(root, path, addr)
  {
  }

  lemma Bound(s: AddressSpace, path: seq<VmArea>)
    requires Ordered(s) && Descent(s.Tree(), path)
    ensures RedBlack(s.Tree(), s.Colours()) ==> Pow2(|path|) <= (|s.order| + 1) * (|s.order| + 1)
  {
    if RedBlack(s.Tree(), s.Colours()) {
      PathBound(s.Tree(), s.Colours(), path);
    }
  }

  lemma SearchStart(root: VmArea?, addr: int)
    ensures Searched(root, [], root, addr)
  {
  }

  lemma SearchOn(root: VmArea?, path: seq<VmArea>, node: VmArea, addr: int)
    requires Searched(root, path, node, addr)
    ensures node.end > addr && node.start <= addr ==> SearchPath(root, path + [node], addr)
    ensures node.end > addr && node.start > addr ==> Searched(root, path + [node], node.rbLeft, addr)
    ensures node.end <= addr ==> Searched(root, path + [node], node.rbRight, addr)
  {
    assert (path + [node])[..|path|] == path;
  }

  ghost predicate Overlaps(v: VmArea, addr: int, end: int)
    reads v
  {
    v.start < end && addr < v.end
  }

  /** `[addr, end)` lies between the first `k` areas and the rest. */
  ghost predicate FitsAt(list: seq<VmArea>, k: int, addr: int, end: int)
    reads list`start, list`end
  {
    && 0 <= k <= |list|
    && (forall i :: 0 <= i < k ==> list[i].end <= addr)
    && (forall i :: k <= i < |list| ==> end <= list[i].start)
  }

  /**
   `vma_find_links`: fails exactly when some area overlaps `[addr, end)`. Otherwise it yields the
   predecessor and the empty link where an area for that range belongs; without a predecessor the
   parent is the head of the list.
   */
  method VmaFindLinks(s: AddressSpace, addr: int, end: int)
    returns (fails: bool, prev: VmArea?, parent: VmArea?, left: bool, ghost k: int)
    requires Ordered(s) && addr < end
    ensures fails <==> exists i :: 0 <= i < |s.order| && Overlaps(s.order[i], addr, end)
    ensures !fails ==>
      && FitsAt(s.order, k, addr, end) && EmptyLink(s.Tree(), parent, left, k)
      && prev == At(s.order, k - 1) && (k == 0 ==> parent == At(s.order, 0))
  {
    hide Ordered, Searching, EndedBy, BeginFrom, Positioned, FitsAt, EmptyLink, Overlaps, Shape.NodeOk, Shape.AtOk;
    prev, parent, left, fails, k := null, null, true, false, 0;
    var link := s.root;
    ghost var lo, hi := 0, |s.order|;
    SearchRoot(s);
    while link != null
      invariant Searching(s, link, lo, hi) && 0 <= lo <= hi <= |s.order| && EndedBy(s.order, lo, addr) && BeginFrom(s.order, hi, end)
      invariant prev == At(s.order, lo - 1)
      invariant if parent == null then link == s.root && lo == 0 && hi == |s.order| else
                if left then parent.rbLeft == link && Positioned(s, parent, hi) else parent.rbRight == link && Positioned(s, parent, lo - 1)
      decreases hi - lo
    {
      parent := link;
      if parent.end > addr {
        ghost var j := StepLeft(s, parent, lo, hi);
        if parent.start < end {
          fails := true;
          OneOverlaps(s, parent, j, addr, end);
          return;
        }
        BeginLater(s.order, j, parent.start, end);
        hi := j;
        link, left := parent.rbLeft, true;
      } else {
        ghost var j := StepRight(s, parent, lo, hi, addr);
        PlacedThere(s, parent, j);
        prev := parent;
        lo := j + 1;
        link, left := parent.rbRight, false;
      }
    }
    k := lo;
    NothingLeft(s, lo, hi);
    NoneOverlaps(s.order, k, addr, end);
    LinkThere(s, parent, left, k);
  }

  lemma OneOverlaps(s: AddressSpace, v: VmArea, k: int, addr: int, end: int)
    requires Positioned(s, v, k) && v.start < end && addr < v.end
    ensures exists i :: 0 <= i < |s.order| && Overlaps(s.order[i], addr, end)
  {
    assert Overlaps(s.order[k], addr, end);
  }

  lemma PlacedThere(s: AddressSpace, v: VmArea, k: int)
    requires Positioned(s, v, k)
    ensures v == At(s.order, k)
  {
  }

  lemma BeginLater(list: seq<VmArea>, k: int, from: int, end: int)
    requires BeginFrom(list, k, from) && end <= from
    ensures BeginFrom(list, k, end)
  {
  }

  lemma NoneOverlaps(list: seq<VmArea>, k: int, addr: int, end: int)
    requires EndedBy(list, k, addr) && BeginFrom(list, k, end)
    ensures FitsAt(list, k, addr, end) && !exists i :: 0 <= i < |list| && Overlaps(list[i], addr, end)
  {
  }

  /** The empty link at which the search has ended. */
  lemma LinkThere(s: AddressSpace, parent: VmArea?, left: bool, k: int)
    requires Ordered(s) && 0 <= k <= |s.order|
    requires if parent == null then s.root == null && k == 0 == |s.order|
             else if left then parent.rbLeft == null && Positioned(s, parent, k) else parent.rbRight == null && Positioned(s, parent, k - 1)
    ensures EmptyLink(s.Tree(), parent, left, k) && (k == 0 ==> parent == At(s.order, 0))
  {
  }
}
