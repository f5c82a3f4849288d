/**
 Linking areas into the list and the tree, and taking them out (kernel/c/vma.c).
 */
module Linking {
  import opened VmAreas
  import opened RbShape
  import opened RbGaps
  import opened RbBalance
  import opened RbSteps
  import opened RbErasing
  import opened RbTree
  import opened VmaSteps

  /** The tree fields of a set of records. */
  datatype Fields = Fields(links: map<VmArea, Link>, gaps: Gaps, col: Colours)

  ghost function FieldsOf(s: set<VmArea>): Fields
    reads s`rbLeft, s`rbRight, s`rbParent, s`subtreeGap, s`rbBlack
  {
    Fields(LinksOf(s), GapsOf(s), ColoursOf(s))
  }

  /** The assignments of `vma_link_list`; from here on the record is known. */
  method AssignLink(s: AddressSpace, vma: VmArea, prev: VmArea?, parent: VmArea?, ghost behind: VmArea?)
    requires vma !in s.nodes && (prev != null ==> prev in s.nodes && prev.next == behind)
    requires (prev == null ==> parent == behind) && (behind != null ==> behind in s.nodes)
    modifies s`first, s`nodes, vma`prev, vma`next, s.nodes`prev, s.nodes`next
    ensures s.first == (if prev == null then vma else old(s.first)) && s.nodes == old(s.nodes) + {vma}
    ensures vma.prev == prev && vma.next == behind
    ensures forall n :: n in old(s.nodes) ==> n.prev == if n == behind then vma else old(n.prev)
    ensures forall n :: n in old(s.nodes) ==> n.next == if n == prev then vma else old(n.next)
    ensures FieldsOf(old(s.nodes)) == old(FieldsOf(s.nodes))
    ensures StartsOf(old(s.nodes)) == old(StartsOf(s.nodes)) && EndsOf(old(s.nodes)) == old(EndsOf(s.nodes))
  {
    hide FieldsOf, StartsOf, EndsOf;
    s.nodes := s.nodes + {vma};
    var next: VmArea?;
    vma.prev := prev;
    if prev != null {
      next := prev.next;
      prev.next := vma;
    } else {
      s.first := vma;
      next := parent;
    }
    vma.next := next;
    if next != null {
      next.prev := vma;
    }
  }

  lemma LinkedPrevs(nodes: set<VmArea>, m: map<VmArea, VmArea?>, vma: VmArea, behind: VmArea?)
    requires vma !in nodes && m.Keys == nodes && (behind != null ==> behind in nodes)
    requires forall n :: n in nodes ==> n.prev == if n == behind then vma else m[n]
    ensures PrevsOf(nodes + {vma}) == Put(m, behind, vma)[vma := vma.prev]
  {
  }

  lemma LinkedNexts(nodes: set<VmArea>, m: map<VmArea, VmArea?>, vma: VmArea, prev: VmArea?)
    requires vma !in nodes && m.Keys == nodes && (prev != null ==> prev in nodes)
    requires forall n :: n in nodes ==> n.next == if n == prev then vma else m[n]
    ensures NextsOf(nodes + {vma}) == Put(m, prev, vma)[vma := vma.next]
  {
  }

  lemma LinkedRanges(nodes: set<VmArea>, vma: VmArea)
    requires vma !in nodes
    ensures StartsOf(nodes + {vma}) == StartsOf(nodes)[vma := vma.start] && EndsOf(nodes + {vma}) == EndsOf(nodes)[vma := vma.end]
  {
  }

  lemma LinkedIs(nodes: set<VmArea>, c: Chain, vma: VmArea, prev: VmArea?, behind: VmArea?)
    requires vma !in nodes && vma.prev == prev && vma.next == behind && (behind != null ==> behind in nodes)
    requires c.prevs.Keys == c.nexts.Keys == nodes && (prev != null ==> prev in nodes)
    requires forall n :: n in nodes ==> n.prev == if n == behind then vma else c.prevs[n]
    requires forall n :: n in nodes ==> n.next == if n == prev then vma else c.nexts[n]
    requires StartsOf(nodes) == c.starts && EndsOf(nodes) == c.ends
    ensures ChainOf(nodes + {vma}) == LinkedChain(c, vma, prev, behind, vma.start, vma.end)
  {
    hide PrevsOf, NextsOf, StartsOf, EndsOf;
    LinkedPrevs(nodes, c.prevs, vma, behind);
    LinkedNexts(nodes, c.nexts, vma, prev);
    LinkedRanges(nodes, vma);
  }

  /** `vma_link_list` */
  method VmaLinkList(s: AddressSpace, vma: VmArea, prev: VmArea?, parent: VmArea?, ghost behind: VmArea?)
    requires vma !in s.nodes && (prev != null ==> prev in s.nodes && prev.next == behind)
    requires (prev == null ==> parent == behind) && (behind != null ==> behind in s.nodes)
    modifies s`first, s`nodes, vma`prev, vma`next, s.nodes`prev, s.nodes`next
    ensures s.nodes == old(s.nodes) + {vma}
    ensures ChainOf(s.nodes) == LinkedChain(old(ChainOf(s.nodes)), vma, prev, behind, vma.start, vma.end)
    ensures FieldsOf(old(s.nodes)) == old(FieldsOf(s.nodes))
    ensures s.first == if prev == null then vma else old(s.first)
    ensures vma.next == behind
  {
    hide FieldsOf, StartsOf, EndsOf, LinkedChain;
    ghost var c := ChainOf(s.nodes);
    AssignLink(s, vma, prev, parent, behind);
    LinkedIs(old(s.nodes), c, vma, prev, behind);
  }

  /** `vma_gap_update` at the one node whose cache may be stale. */
  method VmaGapUpdate(s: AddressSpace, v: VmArea)
    requires s.PrevsKnown() && StaleAt(s.Now(), v)
    modifies s.nodes`subtreeGap
    ensures Good(s.Now()) && s.Now() == old(s.Now()).(gaps := s.Gaps())
  {
    hide Walkable, GapsOkBut, LinksOf, GapsOf, ColoursOf, Shape.Tree;
    ghost var b := s.Now();
    SnapshotKeys(s.nodes);
    WholeWalk(b.t, b.own);
    assert {} + {v as VmArea?} == {v as VmArea?};
    GapPropagate(s, v, null, b.t, b.t.span.Keys, {});
    SnapshotKeys(s.nodes);
    assert {} + {null as VmArea?} == {null as VmArea?};
    StaleNowhere(s.Now());
  }

  /** The assignments of `rb_link_node`. */
  method AssignLeaf(s: AddressSpace, node: VmArea, parent: VmArea?, left: bool)
    requires node in s.nodes && parent != node && (parent != null ==> parent in s.nodes)
    modifies s`root, s.nodes`rbLeft, s.nodes`rbRight, node`rbParent, node`rbBlack
    ensures node.rbParent == parent && !node.rbBlack && node.rbLeft == node.rbRight == null
    ensures s.root == if parent == null then node else old(s.root)
    ensures parent != null ==> parent.rbLeft == if left then node else old(parent.rbLeft)
    ensures parent != null ==> parent.rbRight == if left then old(parent.rbRight) else node
    ensures forall n :: n in s.nodes && n != node && n != parent ==> n.rbLeft == old(n.rbLeft) && n.rbRight == old(n.rbRight)
    ensures s.Colours() == old(s.Colours())[node := false]
  {
    node.rbParent, node.rbBlack := parent, false;
    node.rbLeft, node.rbRight := null, null;
    if parent == null {
      s.root := node;
    } else if left {
      parent.rbLeft := node;
    } else {
      parent.rbRight := node;
    }
  }

  /** `rb_link_node` */
  method RbLinkNode(s: AddressSpace, node: VmArea, parent: VmArea?, left: bool, ghost k: int)
    requires node in s.nodes && node !in s.span && s.span.Keys <= s.nodes && EmptyLink(s.Tree(), parent, left, k)
    modifies s`root, s`order, s`span, s.nodes`rbLeft, s.nodes`rbRight, node`rbParent, node`rbBlack
    ensures s.Tree() == LinkLeaf(old(s.Tree()), node, parent, left, k)
    ensures s.Colours() == old(s.Colours())[node := false]
  {
    hide ColoursOf;
    ghost var t := LinkLeaf(s.Tree(), node, parent, left, k);
    AssignLeaf(s, node, parent, left);
    s.order, s.span := t.order, t.span;
    assert LinksOf(s.nodes) == t.links;
  }

  method SetGap(s: AddressSpace, vma: VmArea)
    requires vma in s.nodes
    modifies vma`subtreeGap
    ensures s.Gaps() == old(s.Gaps())[vma := 0]
  {
    vma.subtreeGap := 0;
  }

  lemma LinkPlace(t: Shape, parent: VmArea?, left: bool, k: int)
    requires EmptyLink(t, parent, left, k)
    ensures 0 <= k <= |t.order|
  {
  }

  /** `rb_link_node`, with the cache set to 0. */
  method LinkLeafNode(s: AddressSpace, vma: VmArea, parent: VmArea?, left: bool, ghost k: int)
    requires vma in s.nodes && vma !in s.span && s.span.Keys <= s.nodes && EmptyLink(s.Tree(), parent, left, k)
    modifies s`root, s`order, s`span, s.nodes`rbLeft, s.nodes`rbRight, vma`rbParent, vma`rbBlack, vma`subtreeGap
    ensures 0 <= k <= |old(s.order)|
    ensures s.Tree() == LinkLeaf(old(s.Tree()), vma, parent, left, k)
    ensures s.Colours() == old(s.Colours())[vma := false] && s.Gaps() == old(s.Gaps())[vma := 0]
  {
    hide LinkLeaf, LinksOf, ColoursOf, EmptyLink;
    LinkPlace(s.Tree(), parent, left, k);
    RbLinkNode(s, vma, parent, left, k);
    SetGap(s, vma);
  }

  /** The last part of `vma_link_rb`: the new leaf gets its cache and the tree is rebalanced. */
  method FinishLeaf(s: AddressSpace, vma: VmArea, parent: VmArea?, left: bool, ghost k: int, ghost a: State)
    requires s.PrevsKnown() && LeafSite(a, vma, parent, left, k) && s.Now() == LeafState(a, vma, parent, left, k)
    requires RootBlack(a.t, a.col)
    modifies s`root, s`span, s.nodes`rbLeft, s.nodes`rbRight, s.nodes`rbParent, s.nodes`rbBlack, s.nodes`subtreeGap
    ensures s.PrevsKnown() && Good(s.Now()) && RootBlack(s.Tree(), s.Colours())
    ensures s.order == old(s.order) && s.span.Keys == old(s.span.Keys)
    ensures RedBlack(a.t, a.col) ==> RedBlack(s.Tree(), s.Colours())
  {
    hide LeafSite, LeafState, Good, RootBlack, RedBlack, LinksOf, ColoursOf, GapsOf, Insertable, Certifies;
    LeafStale(a, vma, parent, left, k);
    VmaGapUpdate(s, vma);
    ghost var b := s.Now();
    LeafInsertable(a, b, vma, parent, left, k);
    if RedBlack(a.t, a.col) { LeafBalanced(a, b, vma, parent, left, k); }
    RbInsert(s, vma);
  }

  /** The first part of `vma_link_rb`: the gap behind the new area. */
  method RefreshBehind(s: AddressSpace, next: VmArea?, end: nat)
    requires s.PrevsKnown() && StaleAt(s.Now(), next)
    modifies s`highest, s.nodes`subtreeGap
    ensures s.PrevsKnown() && Good(s.Now()) && s.Now() == old(s.Now()).(gaps := s.Gaps())
    ensures s.highest == if next == null then end else old(s.highest)
  {
    hide StaleAt, Good;
    if next != null {
      VmaGapUpdate(s, next);
    } else {
      s.highest := end;
      StaleNowhere(s.Now());
    }
  }

  /** The second part of `vma_link_rb`. */
  method PlaceLeaf(s: AddressSpace, vma: VmArea, parent: VmArea?, left: bool, ghost k: int)
    requires s.PrevsKnown() && vma in s.nodes && s.span.Keys <= s.nodes && LeafSite(s.Now(), vma, parent, left, k)
    requires RootBlack(s.Tree(), s.Colours())
    modifies s`root, s`order, s`span
    modifies s.nodes`rbLeft, s.nodes`rbRight, s.nodes`rbParent, s.nodes`rbBlack, s.nodes`subtreeGap
    ensures s.PrevsKnown() && Good(s.Now()) && RootBlack(s.Tree(), s.Colours())
    ensures 0 <= k <= |old(s.order)| && s.order == Inserted(old(s.order), k, vma)
    ensures s.span.Keys == old(s.span.Keys) + {vma}
    ensures RedBlack(old(s.Tree()), old(s.Colours())) ==> RedBlack(s.Tree(), s.Colours())
  {
    hide Good, RootBlack, RedBlack, LinksOf, ColoursOf, GapsOf, EmptyLink, LeafSite, LeafState, LinkLeaf;
    ghost var a := s.Now();
    LeafSiteLink(a, vma, parent, left, k);
    LinkLeafNode(s, vma, parent, left, k);
    LeafStateIs(a, s.Now(), vma, parent, left, k);
    FinishLeaf(s, vma, parent, left, k, a);
  }

  /** `vma_link_rb` */
  method VmaLinkRb(s: AddressSpace, vma: VmArea, parent: VmArea?, left: bool, ghost k: int)
    requires s.PrevsKnown() && vma in s.nodes && vma !in s.span && s.Own()[vma] >= 0
    requires StaleAt(s.Now(), vma.next) && RootBlack(s.Tree(), s.Colours()) && EmptyLink(s.Tree(), parent, left, k)
    modifies s`root, s`highest, s`order, s`span
    modifies s.nodes`rbLeft, s.nodes`rbRight, s.nodes`rbParent, s.nodes`rbBlack, s.nodes`subtreeGap
    ensures s.PrevsKnown() && Good(s.Now()) && RootBlack(s.Tree(), s.Colours())
    ensures 0 <= k <= |old(s.order)| && s.order == Inserted(old(s.order), k, vma)
    ensures s.span.Keys == old(s.span.Keys) + {vma}
    ensures s.highest == if vma.next == null then vma.end else old(s.highest)
    ensures RedBlack(old(s.Tree()), old(s.Colours())) ==> RedBlack(s.Tree(), s.Colours())
    ensures ChainOf(s.nodes) == old(ChainOf(s.nodes))
  {
    hide StaleAt, Good, RootBlack, RedBlack, LinksOf, ColoursOf, GapsOf, EmptyLink, LeafSite, ChainOf;
    ghost var a := s.Now();
    SnapshotKeys(s.nodes);
    RefreshBehind(s, vma.next, vma.end);
    SnapshotKeys(s.nodes);
    LeafSiteOk(a, s.Now(), vma.next, vma, parent, left, k);
    PlaceLeaf(s, vma, parent, left, k);
  }

  // ---------------------------------------------------------------- linking a whole area

  /** The tree snapshot of a larger set of records. */
  lemma SnapshotGrows(s: set<VmArea>, vma: VmArea)
    ensures LinksOf(s + {vma}) == LinksOf(s)[vma := Link(vma.rbLeft, vma.rbRight, vma.rbParent)]
    ensures GapsOf(s + {vma}) == GapsOf(s)[vma := vma.subtreeGap]
    ensures ColoursOf(s + {vma}) == ColoursOf(s)[vma := vma.rbBlack]
  {
  }

  lemma OwnIsHoles(s: AddressSpace)
    ensures s.PrevsKnown() <==> Known(ChainOf(s.nodes))
    ensures s.PrevsKnown() ==> s.Own() == Holes(ChainOf(s.nodes))
  {
    var c := ChainOf(s.nodes);
    if s.PrevsKnown() {
      assert Known(c);
    }
    if Known(c) {
      forall n {:trigger n.prev} | n in s.nodes && n.prev != null
        ensures n.prev in s.nodes
      {
        assert c.prevs[n] == n.prev;
      }
    }
  }

  /** List, tree and ranges agree; at most the cache of `v` and the highest address are out of date. */
  ghost predicate Open(s: AddressSpace, v: VmArea?)
    reads s`root, s`first, s`nodes, s`order, s`span
    reads s.nodes`rbLeft, s.nodes`rbRight, s.nodes`rbParent, s.nodes`rbBlack, s.nodes`subtreeGap
    reads s.nodes`prev, s.nodes`next, s.nodes`start, s.nodes`end
  {
    s.PrevsKnown() && Consistent(s.Now(), ChainOf(s.nodes), v) && s.first == At(s.order, 0)
  }

  /** The new area is in the list and known, but not yet in the tree. */
  ghost predicate Announced(s: AddressSpace, a: State, c: Chain, vma: VmArea, k: int)
    reads s`root, s`nodes, s`order, s`span
    reads s.nodes`rbLeft, s.nodes`rbRight, s.nodes`rbParent, s.nodes`rbBlack, s.nodes`subtreeGap
    reads s.nodes`prev, s.nodes`next, s.nodes`start, s.nodes`end, vma`start, vma`end
  {
    && s.PrevsKnown() && Joined(a, s.Now(), vma) && s.nodes == a.t.span.Keys + {vma} && vma !in a.t.span
    && StaleAt(s.Now(), At(a.t.order, k)) && RootBlack(s.Tree(), s.Colours()) && s.Own()[vma] >= 0
    && (RedBlack(a.t, a.col) ==> RedBlack(s.Tree(), s.Colours()))
    && ChainOf(s.nodes) == LinkedChain(c, vma, At(a.t.order, k - 1), At(a.t.order, k), vma.start, vma.end)
  }

  lemma Announce(s: AddressSpace, a: State, c: Chain, vma: VmArea, k: int, nodes: set<VmArea>)
    requires Room(a, c, nodes, k, vma.start, vma.end) && vma !in nodes && s.nodes == nodes + {vma}
    requires s.root == a.t.root && s.order == a.t.order && s.span == a.t.span
    requires FieldsOf(nodes) == Fields(a.t.links, a.gaps, a.col)
    requires ChainOf(s.nodes) == LinkedChain(c, vma, At(a.t.order, k - 1), At(a.t.order, k), vma.start, vma.end)
    ensures Announced(s, a, c, vma, k)
  {
    hide Consistent, FitsBetween, StaleAt, RootBlack, RedBlack, Holes, LinkedChain, Chained, Sorted, Distinct, Known;
    OwnIsHoles(s);
    ConsistentParts(a, c, At(a.t.order, k));
    LinkedHoles(a, c, k, vma, vma.start, vma.end);
    SnapshotGrows(nodes, vma);
    SnapshotKeys(s.nodes);
    assert Joined(a, s.Now(), vma);
    JoinedStale(a, s.Now(), vma, At(a.t.order, k));
  }

  /** What `vma_link` starts from: the links that `vma_find_links` gave for the range of an unknown record. */
  ghost predicate Linkable(s: AddressSpace, vma: VmArea, prev: VmArea?, parent: VmArea?, left: bool, k: int)
    reads s`root, s`first, s`nodes, s`order, s`span
    reads s.nodes`rbLeft, s.nodes`rbRight, s.nodes`rbParent, s.nodes`rbBlack, s.nodes`subtreeGap
    reads s.nodes`prev, s.nodes`next, s.nodes`start, s.nodes`end, vma`start, vma`end
  {
    && s.PrevsKnown() && Room(s.Now(), ChainOf(s.nodes), s.nodes, k, vma.start, vma.end) && s.first == At(s.order, 0)
    && vma !in s.nodes && EmptyLink(s.Tree(), parent, left, k)
    && prev == At(s.order, k - 1) && (k == 0 ==> parent == At(s.order, 0))
  }

  lemma LinkableList(s: AddressSpace, vma: VmArea, prev: VmArea?, parent: VmArea?, left: bool, k: int)
    requires Linkable(s, vma, prev, parent, left, k)
    ensures var behind := At(s.order, k);
      && vma !in s.nodes && (prev != null ==> prev in s.nodes && prev.next == behind)
      && (prev == null ==> parent == behind) && (behind != null ==> behind in s.nodes)
    ensures s.PrevsKnown() && Room(s.Now(), ChainOf(s.nodes), s.nodes, k, vma.start, vma.end)
    ensures s.first == At(s.order, 0) && 0 <= k <= |s.order| && EmptyLink(s.Tree(), parent, left, k)
    ensures prev == At(s.order, k - 1) && (prev == null <==> k == 0)
    ensures FieldsOf(s.nodes) == Fields(s.Now().t.links, s.Now().gaps, s.Now().col)
  {
    var c := ChainOf(s.nodes);
    Neighbours(s.Now(), c, At(s.order, k), k);
    assert prev != null && prev in s.nodes ==> c.nexts[prev] == prev.next;
  }

  /** The first half of `vma_link`. */
  method ListStep(s: AddressSpace, vma: VmArea, prev: VmArea?, parent: VmArea?, ghost left: bool, ghost k: int)
    requires s.PrevsKnown() && Linkable(s, vma, prev, parent, left, k)
    modifies s`first, s`nodes, vma`prev, vma`next, s.nodes`prev, s.nodes`next
    ensures s.nodes == old(s.nodes) + {vma}
    ensures Announced(s, old(s.Now()), old(ChainOf(s.nodes)), vma, k)
    ensures s.first == (if prev == null then vma else old(s.first)) && vma.next == At(s.order, k)
  {
    hide Linkable, Room, Consistent, FitsBetween, Spans, Announced, LinkedChain, ChainOf, LinksOf, GapsOf, ColoursOf, FieldsOf;
    LinkableList(s, vma, prev, parent, left, k);
    ghost var a, c, nodes := s.Now(), ChainOf(s.nodes), s.nodes;
    VmaLinkList(s, vma, prev, parent, At(s.order, k));
    Announce(s, a, c, vma, k, nodes);
  }

  /** What linking the announced area into the tree starts from. */
  lemma AnnouncedParts(s: AddressSpace, a: State, c: Chain, vma: VmArea, k: int, parent: VmArea?, left: bool)
    requires Announced(s, a, c, vma, k) && EmptyLink(a.t, parent, left, k)
    ensures s.PrevsKnown() && vma in s.nodes && vma !in s.span && s.Own()[vma] >= 0 && s.order == a.t.order
    ensures StaleAt(s.Now(), At(a.t.order, k)) && RootBlack(s.Tree(), s.Colours())
    ensures EmptyLink(s.Tree(), parent, left, k) && (RedBlack(a.t, a.col) ==> RedBlack(s.Tree(), s.Colours()))
    ensures s.span == a.t.span
    ensures ChainOf(s.nodes) == LinkedChain(c, vma, At(a.t.order, k - 1), At(a.t.order, k), vma.start, vma.end)
    ensures s.Own() == Holes(LinkedChain(c, vma, At(a.t.order, k - 1), At(a.t.order, k), vma.start, vma.end))
  {
    JoinedEmptyLink(a, s.Now(), vma, parent, left, k);
    OwnIsHoles(s);
  }

  lemma LinkedOpen(s: AddressSpace, a: State, c: Chain, nodes: set<VmArea>, vma: VmArea, k: int)
    requires Room(a, c, nodes, k, vma.start, vma.end) && vma !in nodes
    requires s.PrevsKnown() && Good(s.Now()) && RootBlack(s.Tree(), s.Colours())
    requires s.order == Inserted(a.t.order, k, vma) && s.span.Keys == a.t.span.Keys + {vma} && s.nodes == nodes + {vma}
    requires ChainOf(s.nodes) == LinkedChain(c, vma, At(a.t.order, k - 1), At(a.t.order, k), vma.start, vma.end)
    requires s.first == if k == 0 then vma else At(a.t.order, 0)
    ensures Open(s, null)
  {
    OwnIsHoles(s);
    SnapshotKeys(s.nodes);
    LinkedConsistent(a, c, nodes, s.Now(), k, vma, vma.start, vma.end);
  }

  /** `vma_link` up to the host call: list, tree, caches and highest address are complete again. */
  method LinkArea(s: AddressSpace, vma: VmArea, prev: VmArea?, parent: VmArea?, left: bool, ghost k: int)
    requires Linkable(s, vma, prev, parent, left, k)
    modifies s`root, s`first, s`highest, s`nodes, s`order, s`span, s.nodes`prev, s.nodes`next
    modifies s.nodes`rbLeft, s.nodes`rbRight, s.nodes`rbParent, s.nodes`rbBlack, s.nodes`subtreeGap
    modifies vma`prev, vma`next, vma`rbLeft, vma`rbRight, vma`rbParent, vma`rbBlack, vma`subtreeGap
    ensures Open(s, null) && s.nodes == old(s.nodes) + {vma}
    ensures 0 <= k <= |old(s.order)| && s.order == Inserted(old(s.order), k, vma)
    ensures s.highest == if k == |old(s.order)| then vma.end else old(s.highest)
    ensures RedBlack(old(s.Tree()), old(s.Colours())) ==> RedBlack(s.Tree(), s.Colours())
  {
    hide Linkable, Room, Announced, Open, ChainOf, LinkedChain, EmptyLink, StaleAt, RootBlack, RedBlack, Good, Inserted;
    hide LinksOf, GapsOf, ColoursOf, Consistent, FitsBetween, Spans, Holes;
    LinkableList(s, vma, prev, parent, left, k);
    ghost var a, c, nodes := s.Now(), ChainOf(s.nodes), s.nodes;
    ListStep(s, vma, prev, parent, left, k);
    AnnouncedParts(s, a, c, vma, k, parent, left);
    VmaLinkRb(s, vma, parent, left, k);
    LinkedOpen(s, a, c, nodes, vma, k);
  }

  /** The state is made of the tree fields, the list and the ranges. */
  lemma NowIs(s: AddressSpace, a: State)
    requires Known(ChainOf(s.nodes)) && FieldsOf(s.nodes) == Fields(a.t.links, a.gaps, a.col)
    requires s.root == a.t.root && s.order == a.t.order && s.span == a.t.span
    ensures s.PrevsKnown() && s.Now() == a.(own := Holes(ChainOf(s.nodes)))
  {
    OwnIsHoles(s);
  }

  lemma NowFields(s: AddressSpace)
    requires s.PrevsKnown()
    ensures FieldsOf(s.nodes) == Fields(s.Now().t.links, s.Now().gaps, s.Now().col)
    ensures s.Now().own == Holes(ChainOf(s.nodes)) && Known(ChainOf(s.nodes))
  {
    OwnIsHoles(s);
  }

  lemma OpenParts(s: AddressSpace, v: VmArea?)
    requires Open(s, v)
    ensures s.PrevsKnown() && Consistent(s.Now(), ChainOf(s.nodes), v) && s.first == At(s.order, 0)
    ensures s.span.Keys == s.nodes
  {
  }

  lemma OpenMembers(s: AddressSpace, v: VmArea?)
    requires Open(s, v)
    ensures Members(s.order, s.nodes) && Distinct(s.order)
  {
    ConsistentParts(s.Now(), ChainOf(s.nodes), v);
    forall n | n in s.nodes
      ensures n in s.order
    {
      assert s.Tree().AtOk(n);
    }
  }

  lemma OpenAt(s: AddressSpace, v: VmArea?, i: int)
    requires Open(s, v) && 0 <= i < |s.order|
    ensures s.order[i] in s.nodes && s.order[i].prev == At(s.order, i - 1) && s.order[i].next == At(s.order, i + 1)
  {
    var c := ChainOf(s.nodes);
    ConsistentParts(s.Now(), c, v);
    assert c.prevs[s.order[i]] == At(s.order, i - 1) && c.nexts[s.order[i]] == At(s.order, i + 1);
  }

  lemma RefreshedOpen(s: AddressSpace, a: State, c: Chain, v: VmArea?)
    requires Consistent(a, c, v) && s.PrevsKnown() && Good(s.Now()) && s.Now() == a.(gaps := s.Gaps()) && a.gaps.Keys == s.nodes
    requires ChainOf(s.nodes) == c && s.first == At(s.order, 0)
    ensures Open(s, null)
  {
    SnapshotKeys(s.nodes);
    RefreshedConsistent(a, c, s.Now(), v);
  }

  /** Refreshing the gap behind a change, or the highest address: everything agrees again. */
  method CloseBehind(s: AddressSpace, next: VmArea?, end: nat)
    requires Open(s, next)
    modifies s`highest, s.nodes`subtreeGap
    ensures Open(s, null)
    ensures s.highest == if next == null then end else old(s.highest)
  {
    hide Open, Consistent, StaleAt, RootBlack, Known, Good, Chained, Sorted, ChainOf, LinksOf, GapsOf, ColoursOf, FieldsOf;
    OpenParts(s, next);
    ConsistentParts(s.Now(), ChainOf(s.nodes), next);
    ghost var a, c := s.Now(), ChainOf(s.nodes);
    RefreshBehind(s, next, end);
    RefreshedOpen(s, a, c, next);
  }
}
