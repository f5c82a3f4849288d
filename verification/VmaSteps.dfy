/**
 What the steps of kernel/c/vma.c that change areas, list and tree together do to the tree and its caches.
 */
module VmaSteps {
  import opened VmAreas
  import opened RbShape
  import opened RbGaps
  import opened RbBalance
  import opened RbSteps
  import opened HostMemory

  /** A tree in which at most the cache of `v` is out of date. */
  ghost predicate StaleAt(a: State, v: VmArea?) {
    && a.t.Tree() && a.t.span.Keys <= a.t.links.Keys && a.t.links.Keys == a.col.Keys
    && Covered(a.t, a.own, a.gaps)
    && (forall n :: n in a.t.span ==> a.own[n] >= 0)
    && (v == null || v in a.t.span)
    && GapsOkBut(a.t, a.own, a.gaps, {v})
  }

  lemma StaleNowhere(a: State)
    ensures StaleAt(a, null) <==> Good(a)
  {
    if StaleAt(a, null) {
      forall n | n in a.t.span
        ensures GapOk(a.t, a.own, a.gaps, n)
      {
      }
    }
  }

  /** The snapshot `b` knows at least the records of `a` and shows them alike, except for the own gap of `v`. */
  ghost predicate Alike(a: State, b: State, v: VmArea?) {
    && b.t.root == a.t.root && b.t.order == a.t.order && b.t.span == a.t.span
    && a.t.span.Keys <= b.t.links.Keys && b.t.links.Keys == b.col.Keys == b.gaps.Keys == b.own.Keys
    && forall n :: n in a.t.span ==>
         && n in a.t.links && b.t.links[n] == a.t.links[n] && n in a.gaps && b.gaps[n] == a.gaps[n]
         && n in a.own && (n != v ==> b.own[n] == a.own[n])
         && n in a.col && b.col[n] == a.col[n]
  }

  /** A changed hole in front of `v` makes at most the cache of `v` stale. */
  lemma AlikeStale(a: State, b: State, v: VmArea?)
    requires StaleAt(a, v) && Alike(a, b, v) && (v != null && v in b.own ==> b.own[v] >= 0)
    ensures StaleAt(b, v)
    ensures RootBlack(a.t, a.col) ==> RootBlack(b.t, b.col)
  {
    AlikeTree(a, b, v);
    forall n | n in b.t.span && n != v
      ensures GapOk(b.t, b.own, b.gaps, n)
    {
      assert a.t.NodeOk(n) && GapOk(a.t, a.own, a.gaps, n);
    }
  }

  lemma AlikeTree(a: State, b: State, v: VmArea?)
    requires a.t.Tree() && Alike(a, b, v)
    ensures b.t.Tree()
  {
    forall n | n in b.t.span
      ensures b.t.AtOk(n) && b.t.NodeOk(n)
    {
      assert a.t.AtOk(n) && a.t.NodeOk(n);
    }
  }

  lemma AlikeRedBlack(a: State, b: State, v: VmArea?)
    requires a.t.Tree() && Alike(a, b, v) && RedBlack(a.t, a.col)
    ensures RedBlack(b.t, b.col)
  {
    var bh: Heights :| Certifies(a.t, a.col, bh, null, null);
    forall n | n in b.t.span
      ensures NodeBalanced(b.t, b.col, bh, null, null, n)
    {
      assert a.t.NodeOk(n) && NodeBalanced(a.t, a.col, bh, null, null, n);
    }
    assert Certifies(b.t, b.col, bh, null, null);
    if a.t.root != null { assert a.t.NodeOk(a.t.root); }
  }

  // ---------------------------------------------------------------- linking

  /** The state after `rb_link_node` made `node` a red leaf and its cache was set to 0. */
  ghost function LeafState(a: State, node: VmArea, p: VmArea?, left: bool, k: int): State
    requires 0 <= k <= |a.t.order|
  {
    a.(t := LinkLeaf(a.t, node, p, left, k), gaps := a.gaps[node := 0], col := a.col[node := false])
  }

  lemma LeafStateIs(a: State, b: State, node: VmArea, p: VmArea?, left: bool, k: int)
    requires 0 <= k <= |a.t.order| && b.t == LinkLeaf(a.t, node, p, left, k) && b.own == a.own
    requires b.gaps == a.gaps[node := 0] && b.col == a.col[node := false]
    ensures b == LeafState(a, node, p, left, k)
    ensures b.t.order == a.t.order[..k] + [node] + a.t.order[k..] && b.t.span.Keys == a.t.span.Keys + {node}
  {
  }

  ghost predicate LeafSite(a: State, node: VmArea, p: VmArea?, left: bool, k: int) {
    && Good(a) && EmptyLink(a.t, p, left, k) && node !in a.t.span
    && node in a.t.links && node in a.own && node in a.gaps && a.own[node] >= 0
  }

  lemma LeafSiteLink(a: State, node: VmArea, p: VmArea?, left: bool, k: int)
    requires LeafSite(a, node, p, left, k)
    ensures EmptyLink(a.t, p, left, k) && node !in a.t.span && 0 <= k <= |a.t.order|
  {
  }

  lemma LeafSiteOk(a: State, b: State, v: VmArea?, node: VmArea, p: VmArea?, left: bool, k: int)
    requires StaleAt(a, v) && Good(b) && b == a.(gaps := b.gaps) && b.gaps.Keys == a.gaps.Keys
    requires EmptyLink(a.t, p, left, k) && node !in a.t.span && node in a.t.links && node in a.own && node in a.gaps
    requires a.own[node] >= 0
    ensures LeafSite(b, node, p, left, k) && b.t.span.Keys <= b.t.links.Keys
    ensures 0 <= k <= |a.t.order|
  {
  }

  lemma LeafStale(a: State, node: VmArea, p: VmArea?, left: bool, k: int)
    requires LeafSite(a, node, p, left, k)
    ensures StaleAt(LeafState(a, node, p, left, k), node)
  {
    LinkLeafTree(a.t, node, p, left, k);
    LinkLeafGaps(a.t, a.own, a.gaps, node, p, left, k);
  }

  /** Once its cache is right, a red leaf can be handed to `rb_insert`. */
  lemma LeafInsertable(a: State, b: State, node: VmArea, p: VmArea?, left: bool, k: int)
    requires LeafSite(a, node, p, left, k) && RootBlack(a.t, a.col)
    requires Good(b) && b == LeafState(a, node, p, left, k).(gaps := b.gaps)
    ensures Insertable(b, node)
  {
    Starts(b);
    if p != null { assert a.t.NodeOk(p); }
  }

  /** In a red-black tree the new red leaf is the only possible defect. */
  lemma LeafBalanced(a: State, b: State, node: VmArea, p: VmArea?, left: bool, k: int)
    requires LeafSite(a, node, p, left, k) && b == LeafState(a, node, p, left, k).(gaps := b.gaps)
    requires RedBlack(a.t, a.col)
    ensures exists bh :: Certifies(b.t, b.col, bh, node, null)
  {
    hide Certifies, LeafSite, LeafState;
    var bh: Heights :| Certifies(a.t, a.col, bh, null, null);
    LeafCertified(a, b, node, p, left, k, bh);
  }

  lemma LeafCertified(a: State, b: State, node: VmArea, p: VmArea?, left: bool, k: int, bh: Heights)
    requires LeafSite(a, node, p, left, k) && b == LeafState(a, node, p, left, k).(gaps := b.gaps)
    requires RedBlack(a.t, a.col) && Certifies(a.t, a.col, bh, null, null)
    ensures Certifies(b.t, b.col, bh[node := 0], node, null)
  {
    hide RedBlack;
    forall n | n in b.t.span
      ensures NodeBalanced(b.t, b.col, bh[node := 0], node, null, n)
    {
      LeafNodeBalanced(a, b, node, p, left, k, bh, n);
    }
  }

  lemma LeafNodeBalanced(a: State, b: State, node: VmArea, p: VmArea?, left: bool, k: int, bh: Heights, n: VmArea)
    requires LeafSite(a, node, p, left, k) && b == LeafState(a, node, p, left, k).(gaps := b.gaps) && n in b.t.span
    requires Certifies(a.t, a.col, bh, null, null)
    ensures NodeBalanced(b.t, b.col, bh[node := 0], node, null, n)
  {
    if n != node { assert a.t.NodeOk(n) && NodeBalanced(a.t, a.col, bh, null, null, n); }
  }

  // ---------------------------------------------------------------- list and ranges

  /** The list pointers and ranges of the known records. */
  datatype Chain = Chain(prevs: map<VmArea, VmArea?>, nexts: map<VmArea, VmArea?>, starts: map<VmArea, int>, ends: map<VmArea, int>)

  ghost function PrevsOf(s: set<VmArea>): map<VmArea, VmArea?>
    reads s`prev
  {
    map n | n in s :: n.prev
  }

  ghost function NextsOf(s: set<VmArea>): map<VmArea, VmArea?>
    reads s`next
  {
    map n | n in s :: n.next
  }

  ghost function StartsOf(s: set<VmArea>): map<VmArea, int>
    reads s`start
  {
    map n | n in s :: n.start
  }

  ghost function EndsOf(s: set<VmArea>): map<VmArea, int>
    reads s`end
  {
    map n | n in s :: n.end
  }

  ghost function ChainOf(s: set<VmArea>): Chain
    reads s`prev, s`next, s`start, s`end
  {
    Chain(PrevsOf(s), NextsOf(s), StartsOf(s), EndsOf(s))
  }

  ghost predicate Known(c: Chain) {
    && c.nexts.Keys == c.prevs.Keys && c.starts.Keys == c.prevs.Keys && c.ends.Keys == c.prevs.Keys
    && forall n {:trigger c.prevs[n]} :: n in c.prevs && c.prevs[n] != null ==> c.prevs[n] in c.prevs
  }

  ghost function EndBefore(c: Chain, prev: VmArea?): int {
    if prev != null && prev in c.ends then c.ends[prev] else 0
  }

  /** For every record the hole between it and its list predecessor. */
  ghost function Holes(c: Chain): Gaps {
    map n | n in c.prevs && n in c.starts :: c.starts[n] - EndBefore(c, c.prevs[n])
  }

  /** The list pointers are those of `list`. */
  ghost predicate Chained(c: Chain, list: seq<VmArea>) {
    && (forall i :: 0 <= i < |list| ==> list[i] in c.prevs && list[i] in c.nexts)
    && (forall i {:trigger c.prevs[list[i]]} :: 0 <= i < |list| ==> c.prevs[list[i]] == At(list, i - 1))
    && forall i {:trigger c.nexts[list[i]]} :: 0 <= i < |list| ==> c.nexts[list[i]] == At(list, i + 1)
  }

  /** The ranges are nonempty, page-aligned, in order and disjoint. */
  ghost predicate Sorted(c: Chain, list: seq<VmArea>) {
    && (forall i :: 0 <= i < |list| ==> list[i] in c.starts && list[i] in c.ends)
    && (forall i :: 0 <= i < |list| ==>
          0 <= c.starts[list[i]] < c.ends[list[i]] && Aligned(c.starts[list[i]]) && Aligned(c.ends[list[i]]))
    && forall i, j :: 0 <= i < j < |list| ==> c.ends[list[i]] <= c.starts[list[j]]
  }

  /** `[start, end)` lies between the first `k` ranges and the rest. */
  ghost predicate FitsBetween(c: Chain, list: seq<VmArea>, k: int, start: int, end: int) {
    && 0 <= k <= |list| && 0 <= start < end && Aligned(start) && Aligned(end)
    && (forall i :: 0 <= i < |list| ==> list[i] in c.starts && list[i] in c.ends)
    && (forall i :: 0 <= i < k ==> c.ends[list[i]] <= start)
    && (forall i :: k <= i < |list| ==> end <= c.starts[list[i]])
  }

  /** List, tree and ranges agree; at most the cache of `v` is out of date. */
  ghost predicate Consistent(a: State, c: Chain, v: VmArea?) {
    && Known(c) && a.own == Holes(c) && StaleAt(a, v) && RootBlack(a.t, a.col)
    && a.t.links.Keys == a.t.span.Keys == a.gaps.Keys == c.prevs.Keys
    && Chained(c, a.t.order) && Sorted(c, a.t.order)
  }

  ghost predicate Spans(a: State, nodes: set<VmArea>) {
    a.t.span.Keys == nodes
  }

  /** At position `k` there is room for `[start, end)`, and at most the cache of the area behind it is out of date. */
  ghost predicate Room(a: State, c: Chain, nodes: set<VmArea>, k: int, start: int, end: int) {
    Consistent(a, c, At(a.t.order, k)) && FitsBetween(c, a.t.order, k, start, end) && Spans(a, nodes)
  }

  /** `m` with the entry of `k`, if there is such a record, replaced. */
  ghost function Put(m: map<VmArea, VmArea?>, k: VmArea?, v: VmArea?): map<VmArea, VmArea?> {
    if k == null then m else m[k := v]
  }

  /** The chain after `vma_link_list`. */
  ghost function LinkedChain(c: Chain, vma: VmArea, prev: VmArea?, next: VmArea?, start: int, end: int): Chain {
    Chain(Put(c.prevs, next, vma)[vma := prev], Put(c.nexts, prev, vma)[vma := next], c.starts[vma := start], c.ends[vma := end])
  }

  function Inserted<T>(s: seq<T>, k: int, x: T): seq<T>
    requires 0 <= k <= |s|
  {
    s[..k] + [x] + s[k..]
  }

  ghost predicate Distinct(list: seq<VmArea>) {
    forall i, j :: 0 <= i < j < |list| ==> list[i] != list[j]
  }

  /** `list` has exactly the elements `nodes`. */
  ghost predicate Members(list: seq<VmArea>, nodes: set<VmArea>) {
    (forall i :: 0 <= i < |list| ==> list[i] in nodes) && (forall n :: n in nodes ==> n in list)
  }

  lemma SortedDistinct(c: Chain, list: seq<VmArea>)
    requires Sorted(c, list)
    ensures Distinct(list)
  {
  }

  lemma InsertedAt(list: seq<VmArea>, k: int, x: VmArea, i: int)
    requires 0 <= k <= |list|
    ensures At(Inserted(list, k, x), i) == if i < k then At(list, i) else if i == k then x else At(list, i - 1)
  {
  }

  /** In a chain over distinct records the neighbours of `n` are the only ones to point at it. */
  lemma ChainedAt(c: Chain, list: seq<VmArea>, i: int, k: int)
    requires Chained(c, list) && Distinct(list) && 0 <= i < |list|
    ensures var n := list[i]; n in c.prevs && n in c.nexts && c.prevs[n] == At(list, i - 1) && c.nexts[n] == At(list, i + 1)
    ensures list[i] == At(list, k) <==> i == k
  {
  }

  lemma LinkedNeighbours(c: Chain, list: seq<VmArea>, k: int, vma: VmArea, start: int, end: int, i: int)
    requires Chained(c, list) && Distinct(list) && 0 <= k <= |list| && vma !in c.prevs && 0 <= i <= |list|
    ensures var d, r := LinkedChain(c, vma, At(list, k - 1), At(list, k), start, end), Inserted(list, k, vma);
      r[i] in d.prevs && r[i] in d.nexts && d.prevs[r[i]] == At(r, i - 1) && d.nexts[r[i]] == At(r, i + 1)
  {
    var r := Inserted(list, k, vma);
    InsertedAt(list, k, vma, i - 1);
    InsertedAt(list, k, vma, i);
    InsertedAt(list, k, vma, i + 1);
    assert At(r, i) == r[i];
    if i != k {
      var j := if i < k then i else i - 1;
      assert At(list, j) == list[j];
      ChainedAt(c, list, j, k);
      ChainedAt(c, list, j, k - 1);
    }
    hide Chained, Distinct, Inserted;
  }

  lemma LinkedChained(c: Chain, list: seq<VmArea>, k: int, vma: VmArea, start: int, end: int)
    requires Chained(c, list) && Distinct(list) && 0 <= k <= |list| && vma !in c.prevs
    ensures Chained(LinkedChain(c, vma, At(list, k - 1), At(list, k), start, end), Inserted(list, k, vma))
  {
    var d, r := LinkedChain(c, vma, At(list, k - 1), At(list, k), start, end), Inserted(list, k, vma);
    hide LinkedChain, Inserted, At;
    forall i | 0 <= i < |r|
      ensures r[i] in d.prevs && r[i] in d.nexts && d.prevs[r[i]] == At(r, i - 1) && d.nexts[r[i]] == At(r, i + 1)
    {
      LinkedNeighbours(c, list, k, vma, start, end, i);
    }
  }

  lemma LinkedSorted(c: Chain, list: seq<VmArea>, k: int, vma: VmArea, prev: VmArea?, next: VmArea?, start: int, end: int)
    requires Sorted(c, list) && FitsBetween(c, list, k, start, end) && (forall i :: 0 <= i < |list| ==> list[i] != vma)
    ensures Sorted(LinkedChain(c, vma, prev, next, start, end), Inserted(list, k, vma))
  {
    var d, r := LinkedChain(c, vma, prev, next, start, end), Inserted(list, k, vma);
    assert forall i :: 0 <= i < |r| ==> r[i] == if i < k then list[i] else if i == k then vma else list[i - 1];
  }

  /** `b` shows the records of `a` and `vma`, with the same tree fields. */
  ghost predicate Joined(a: State, b: State, vma: VmArea) {
    && b.t.root == a.t.root && b.t.order == a.t.order && b.t.span == a.t.span
    && b.t.links.Keys == b.col.Keys == b.gaps.Keys == b.own.Keys == a.t.links.Keys + {vma}
    && b.gaps == a.gaps[vma := b.gaps[vma]] && b.col == a.col[vma := b.col[vma]]
    && b.t.links == a.t.links[vma := b.t.links[vma]]
  }

  lemma LinkedHole(c: Chain, list: seq<VmArea>, k: int, vma: VmArea, start: int, end: int, n: VmArea)
    requires Known(c) && vma !in c.prevs && n in c.prevs && n != At(list, k) && 0 <= k <= |list|
    ensures var d := LinkedChain(c, vma, At(list, k - 1), At(list, k), start, end);
      n in Holes(d) && n in Holes(c) && Holes(d)[n] == Holes(c)[n]
  {
    var d := LinkedChain(c, vma, At(list, k - 1), At(list, k), start, end);
    assert d.prevs[n] == c.prevs[n];
  }

  lemma LinkedEdges(c: Chain, list: seq<VmArea>, k: int, vma: VmArea, start: int, end: int)
    requires Known(c) && vma !in c.prevs && Chained(c, list) && FitsBetween(c, list, k, start, end)
    ensures var d := LinkedChain(c, vma, At(list, k - 1), At(list, k), start, end);
      && Known(d) && vma in Holes(d) && Holes(d)[vma] >= 0
      && (k < |list| ==> list[k] in Holes(d) && Holes(d)[list[k]] >= 0)
  {
    var d := LinkedChain(c, vma, At(list, k - 1), At(list, k), start, end);
    if k < |list| { assert d.prevs[list[k]] == vma; }
    if k > 0 { assert list[k - 1] in c.prevs; }
  }

  lemma LinkedHoles(a: State, c: Chain, k: int, vma: VmArea, start: int, end: int)
    requires Consistent(a, c, At(a.t.order, k)) && vma !in c.prevs && FitsBetween(c, a.t.order, k, start, end)
    ensures var d := LinkedChain(c, vma, At(a.t.order, k - 1), At(a.t.order, k), start, end);
      && Known(d) && vma in Holes(d) && Holes(d)[vma] >= 0
      && (forall n :: n in a.t.span ==> n in Holes(d) && n in a.own && (n != At(a.t.order, k) ==> Holes(d)[n] == a.own[n]))
      && (k < |a.t.order| ==> a.t.order[k] in Holes(d) && Holes(d)[a.t.order[k]] >= 0)
  {
    var list := a.t.order;
    assert a.t.links.Keys == a.t.span.Keys == c.prevs.Keys && a.own == Holes(c);
    LinkedEdges(c, list, k, vma, start, end);
    var d := LinkedChain(c, vma, At(list, k - 1), At(list, k), start, end);
    hide LinkedChain, Consistent, FitsBetween, At, EndBefore;
    forall n | n in a.t.span
      ensures n in Holes(d) && n in a.own && (n != At(list, k) ==> Holes(d)[n] == a.own[n])
    {
      if n != At(list, k) { LinkedHole(c, list, k, vma, start, end, n); }
    }
  }

  lemma ConsistentParts(a: State, c: Chain, v: VmArea?)
    requires Consistent(a, c, v)
    ensures StaleAt(a, v) && RootBlack(a.t, a.col) && a.t.links.Keys == a.t.span.Keys == c.prevs.Keys
    ensures Known(c) && Chained(c, a.t.order) && Sorted(c, a.t.order) && Distinct(a.t.order)
    ensures forall i :: 0 <= i < |a.t.order| ==> a.t.order[i] in c.prevs && a.t.order[i] in a.t.span
    ensures a.own.Keys == a.t.span.Keys
    ensures a.t.Tree() && a.gaps.Keys == a.t.span.Keys && a.col.Keys == a.t.span.Keys && a.own == Holes(c)
  {
    SortedDistinct(c, a.t.order);
    assert Holes(c).Keys == c.prevs.Keys;
  }

  lemma JoinedAlike(a: State, b: State, vma: VmArea, v: VmArea?)
    requires Joined(a, b, vma) && a.t.links.Keys == a.t.span.Keys == a.col.Keys && a.t.span.Keys <= a.gaps.Keys
    requires vma !in a.t.span
    requires forall n :: n in a.t.span ==> n in b.own && n in a.own && (n != v ==> b.own[n] == a.own[n])
    ensures Alike(a, b, v)
  {
  }

  /** Once the new area is known and in the list, at most the cache of the area behind it is stale. */
  lemma JoinedStale(a: State, b: State, vma: VmArea, v: VmArea?)
    requires StaleAt(a, v) && RootBlack(a.t, a.col) && Joined(a, b, vma) && a.t.links.Keys == a.t.span.Keys
    requires vma !in a.t.span && (v != null ==> v in b.own && b.own[v] >= 0)
    requires forall n :: n in a.t.span ==> n in b.own && n in a.own && (n != v ==> b.own[n] == a.own[n])
    ensures StaleAt(b, v) && RootBlack(b.t, b.col)
    ensures RedBlack(a.t, a.col) ==> RedBlack(b.t, b.col)
  {
    assert a.t.Tree();
    hide RootBlack, RedBlack, Alike;
    JoinedAlike(a, b, vma, v);
    AlikeStale(a, b, v);
    if RedBlack(a.t, a.col) { AlikeRedBlack(a, b, v); }
  }

  lemma JoinedEmptyLink(a: State, b: State, vma: VmArea, parent: VmArea?, left: bool, k: int)
    requires Joined(a, b, vma) && EmptyLink(a.t, parent, left, k) && vma !in a.t.span
    ensures EmptyLink(b.t, parent, left, k)
  {
  }

  lemma RoomBounds(a: State, c: Chain, nodes: set<VmArea>, k: int, start: int, end: int)
    requires Room(a, c, nodes, k, start, end)
    ensures 0 <= k <= |a.t.order| && a.t.span.Keys == nodes == c.prevs.Keys
    ensures At(a.t.order, k - 1) != null ==> At(a.t.order, k - 1) in c.prevs
    ensures At(a.t.order, k) != null ==> At(a.t.order, k) in c.prevs
    ensures forall i :: 0 <= i < |a.t.order| ==> a.t.order[i] in c.prevs
  {
    ConsistentParts(a, c, At(a.t.order, k));
  }

  lemma LinkedKeys(c: Chain, vma: VmArea, prev: VmArea?, next: VmArea?, start: int, end: int)
    requires (prev != null ==> prev in c.prevs) && (next != null ==> next in c.prevs)
    ensures LinkedChain(c, vma, prev, next, start, end).prevs.Keys == c.prevs.Keys + {vma}
  {
  }

  /** Linking is complete: list, tree and ranges agree again. */
  lemma LinkedConsistent(a: State, c: Chain, nodes: set<VmArea>, b: State, k: int, vma: VmArea, start: int, end: int)
    requires Room(a, c, nodes, k, start, end) && vma !in nodes
    requires Good(b) && RootBlack(b.t, b.col) && b.t.order == Inserted(a.t.order, k, vma)
    requires b.t.span.Keys == nodes + {vma} && b.t.links.Keys == b.t.span.Keys == b.gaps.Keys
    requires b.own == Holes(LinkedChain(c, vma, At(a.t.order, k - 1), At(a.t.order, k), start, end))
    ensures Consistent(b, LinkedChain(c, vma, At(a.t.order, k - 1), At(a.t.order, k), start, end), null)
  {
    hide StaleAt, RootBlack, Chained, Sorted, Distinct, LinkedChain, FitsBetween, Holes, Shape.Tree, Inserted, Good, Known;
    var d := LinkedChain(c, vma, At(a.t.order, k - 1), At(a.t.order, k), start, end);
    ConsistentParts(a, c, At(a.t.order, k));
    RoomBounds(a, c, nodes, k, start, end);
    LinkedEdges(c, a.t.order, k, vma, start, end);
    LinkedKeys(c, vma, At(a.t.order, k - 1), At(a.t.order, k), start, end);
    LinkedChained(c, a.t.order, k, vma, start, end);
    LinkedSorted(c, a.t.order, k, vma, At(a.t.order, k - 1), At(a.t.order, k), start, end);
    StaleNowhere(b);
  }

  /** What surrounds position `k` of the list. */
  lemma Neighbours(a: State, c: Chain, v: VmArea?, k: int)
    requires Consistent(a, c, v) && 0 <= k <= |a.t.order|
    ensures var prev, next := At(a.t.order, k - 1), At(a.t.order, k);
      && (prev != null ==> prev in c.prevs && prev in c.nexts && c.nexts[prev] == next)
      && (next != null ==> next in c.prevs && c.prevs[next] == prev)
  {
    ConsistentParts(a, c, v);
    if k > 0 { assert c.nexts[a.t.order[k - 1]] == At(a.t.order, k); }
    if k < |a.t.order| { assert c.prevs[a.t.order[k]] == At(a.t.order, k - 1); }
  }

  /** Refreshing the one stale cache changes nothing else. */
  lemma RefreshedConsistent(a: State, c: Chain, b: State, v: VmArea?)
    requires Consistent(a, c, v) && Good(b) && b == a.(gaps := b.gaps) && b.gaps.Keys == a.gaps.Keys
    ensures Consistent(b, c, null)
  {
    StaleNowhere(b);
  }
}
