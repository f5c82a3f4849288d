/**
 kernel/c/rbtree.c on the records themselves, with the gap callbacks of kernel/c/vma.c.
 */
module RbTree {
  import opened VmAreas
  import opened RbShape
  import opened RbGaps
  import opened RbBalance
  import opened RbSteps
  import opened RbErasing
  import opened HostMemory

  /** The globals of one address space: `vma_rb_root`, `vma_list_start` and `vma_highest_addr`. */
  class AddressSpace {
    var root: VmArea?
    var first: VmArea?
    var highest: nat
    const host: Host
    // Witness: the records in play, and the in-order sequence of the tree with everyone's place in it.
    ghost var nodes: set<VmArea>
    ghost var order: seq<VmArea>
    ghost var span: map<VmArea, Span>

    constructor (host: Host)
      ensures root == first == null && highest == 0 && nodes == {} && order == [] && span == map[] && this.host == host
    {
      root, first, highest, this.host := null, null, 0, host;
      nodes, order, span := {}, [], map[];
    }

    ghost function Tree(): Shape
      reads this`root, this`nodes, this`order, this`span, nodes`rbLeft, nodes`rbRight, nodes`rbParent
    {
      Shape(LinksOf(nodes), root, order, span)
    }

    ghost function Gaps(): Gaps
      reads this`nodes, nodes`subtreeGap
    {
      GapsOf(nodes)
    }

    ghost function Colours(): Colours
      reads this`nodes, nodes`rbBlack
    {
      ColoursOf(nodes)
    }

    /** The records' list predecessors are records too. */
    ghost predicate PrevsKnown()
      reads this`nodes, nodes`prev
    {
      forall n {:trigger n.prev} :: n in nodes && n.prev != null ==> n.prev in nodes
    }

    /** For every record the hole between it and its list predecessor. */
    ghost function Own(): Gaps
      requires PrevsKnown()
      reads this`nodes, nodes`prev, nodes`start, nodes`end
    {
      map n | n in nodes :: n.start - (if n.prev == null then 0 else n.prev.end)
    }

    ghost function Now(): State
      requires PrevsKnown()
      reads this`root, this`nodes, this`order, this`span, nodes`rbLeft, nodes`rbRight, nodes`rbParent, nodes`rbBlack
      reads nodes`prev, nodes`start, nodes`end, nodes`subtreeGap
    {
      State(Tree(), Own(), Gaps(), Colours())
    }

    /** The tree is a tree over known records and every cached gap in it is right. */
    ghost predicate Sound()
      reads this`root, this`nodes, this`order, this`span, nodes`rbLeft, nodes`rbRight, nodes`rbParent, nodes`rbBlack
      reads nodes`prev, nodes`start, nodes`end, nodes`subtreeGap
    {
      PrevsKnown() && Good(Now())
    }
  }

  /** `vma_compute_subtree_gap` */
  function ComputeSubtreeGap(v: VmArea): int
    reads v, v.prev, v.rbLeft, v.rbRight
  {
    var own := v.start - (if v.prev != null then v.prev.end else 0);
    var withLeft := if v.rbLeft != null && v.rbLeft.subtreeGap > own then v.rbLeft.subtreeGap else own;
    if v.rbRight != null && v.rbRight.subtreeGap > withLeft then v.rbRight.subtreeGap else withLeft
  }

  // ---------------------------------------------------------------- the rotations of rb_insert, as assignments

  /** `g` takes over `p`'s inner child `mid` (painted black) and hangs below `p`. */
  method TurnRight(s: AddressSpace, g: VmArea, p: VmArea)
    requires {g, p} <= s.nodes && g != p
    requires p.rbRight != null ==> p.rbRight in s.nodes && p.rbRight != g && p.rbRight != p
    modifies g`rbLeft, p`rbRight, s.nodes`rbParent, s.nodes`rbBlack
    ensures g.rbLeft == old(p.rbRight) && p.rbRight == g
    ensures var mid := old(p.rbRight); mid != null ==> mid.rbParent == g && mid.rbBlack
    ensures forall n :: n in s.nodes && n != old(p.rbRight) ==> n.rbParent == old(n.rbParent) && n.rbBlack == old(n.rbBlack)
  {
    var tmp := p.rbRight;
    g.rbLeft := tmp;
    p.rbRight := g;
    if tmp != null {
      tmp.rbParent, tmp.rbBlack := g, true;
    }
  }

  method TurnLeft(s: AddressSpace, g: VmArea, p: VmArea)
    requires {g, p} <= s.nodes && g != p
    requires p.rbLeft != null ==> p.rbLeft in s.nodes && p.rbLeft != g && p.rbLeft != p
    modifies g`rbRight, p`rbLeft, s.nodes`rbParent, s.nodes`rbBlack
    ensures g.rbRight == old(p.rbLeft) && p.rbLeft == g
    ensures var mid := old(p.rbLeft); mid != null ==> mid.rbParent == g && mid.rbBlack
    ensures forall n :: n in s.nodes && n != old(p.rbLeft) ==> n.rbParent == old(n.rbParent) && n.rbBlack == old(n.rbBlack)
  {
    var tmp := p.rbLeft;
    g.rbRight := tmp;
    p.rbLeft := g;
    if tmp != null {
      tmp.rbParent, tmp.rbBlack := g, true;
    }
  }

  /** `__rb_change_child` for a node that is one of its parent's two children. */
  method ChangeChild(s: AddressSpace, old_: VmArea, new_: VmArea?, parent: VmArea?)
    requires parent != null ==> parent in s.nodes && ((parent.rbLeft == old_) != (parent.rbRight == old_))
    modifies s`root, s.nodes`rbLeft, s.nodes`rbRight
    ensures parent == null ==> s.root == new_
    ensures parent != null ==> s.root == old(s.root) && parent.rbLeft == Swap(old(parent.rbLeft), old_, new_)
    ensures parent != null ==> parent.rbRight == Swap(old(parent.rbRight), old_, new_)
    ensures forall n :: n in s.nodes && n != parent ==> n.rbLeft == old(n.rbLeft) && n.rbRight == old(n.rbRight)
  {
    if parent != null {
      if parent.rbLeft == old_ {
        parent.rbLeft := new_;
      } else {
        parent.rbRight := new_;
      }
    } else {
      s.root := new_;
    }
  }

  /** `__rb_rotate_set_parents` */
  method RotateSetParents(s: AddressSpace, old_: VmArea, new_: VmArea, black: bool)
    requires {old_, new_} <= s.nodes && old_ != new_
    requires var up := old_.rbParent; up != null ==> up in s.nodes && ((up.rbLeft == old_) != (up.rbRight == old_))
    modifies s`root, s.nodes`rbLeft, s.nodes`rbRight, old_`rbParent, old_`rbBlack, new_`rbParent, new_`rbBlack
    ensures old_.rbParent == new_ && new_.rbParent == old(old_.rbParent)
    ensures old_.rbBlack == black && new_.rbBlack == old(old_.rbBlack)
    ensures var up := old(old_.rbParent);
      up != null ==> up.rbLeft == Swap(old(up.rbLeft), old_, new_) && up.rbRight == Swap(old(up.rbRight), old_, new_)
    ensures forall n :: n in s.nodes && n != old(old_.rbParent) ==> n.rbLeft == old(n.rbLeft) && n.rbRight == old(n.rbRight)
    ensures s.root == if old(old_.rbParent) == null then new_ else old(s.root)
  {
    var parent := old_.rbParent;
    new_.rbParent, new_.rbBlack := old_.rbParent, old_.rbBlack;
    old_.rbParent, old_.rbBlack := new_, black;
    ChangeChild(s, old_, new_, parent);
  }

  /** `vma_rb_gap_rotate` */
  method GapRotate(old_: VmArea, new_: VmArea)
    requires old_ != new_ && old_.rbLeft != new_ && old_.rbRight != new_
    requires ComputeSubtreeGap(old_) >= 0
    modifies old_`subtreeGap, new_`subtreeGap
    ensures new_.subtreeGap == old(old_.subtreeGap) && old_.subtreeGap == ComputeSubtreeGap(old_)
  {
    new_.subtreeGap := old_.subtreeGap;
    old_.subtreeGap := ComputeSubtreeGap(old_);
  }

  // ---------------------------------------------------------------- the same, as relations between snapshots

  /** `vma_compute_subtree_gap` computes the expected cache. */
  lemma ComputeIsExpected(s: AddressSpace, v: VmArea)
    requires s.PrevsKnown() && v in s.nodes && s.Own()[v] >= 0
    requires v.rbLeft != null ==> v.rbLeft in s.nodes
    requires v.rbRight != null ==> v.rbRight in s.nodes
    ensures ComputeSubtreeGap(v) == Expected(LinksOf(s.nodes), s.Own(), s.Gaps(), v) >= 0
  {
  }

  lemma OwnKeys(s: AddressSpace)
    requires s.PrevsKnown()
    ensures s.Own().Keys == s.nodes
  {
  }

  /** Case 3 of `rb_insert` on the left: rotate right at `g`. */
  method RotateRightAt(s: AddressSpace, g: VmArea, p: VmArea)
    requires RotationSite(LinksOf(s.nodes), g, p) && s.PrevsKnown() && s.Own()[g] >= 0
    modifies s`root, s.nodes`rbLeft, s.nodes`rbRight, s.nodes`rbParent, s.nodes`rbBlack, g`subtreeGap, p`subtreeGap
    ensures Rotated(old(LinksOf(s.nodes)), LinksOf(s.nodes), g, p)
    ensures s.root == if old(LinksOf(s.nodes))[g].parent == null then p else old(s.root)
    ensures Repainted(old(s.Colours()), s.Colours(), old(LinksOf(s.nodes))[p].right, p, old(s.Colours())[g], g)
    ensures Regapped(old(s.Gaps()), s.Gaps(), s.Own(), LinksOf(s.nodes), g, p)
  {
    hide AddressSpace.Own, AddressSpace.PrevsKnown, Expected, ComputeSubtreeGap;
    OwnKeys(s);
    assert LinksOf(s.nodes)[g] == Link(g.rbLeft, g.rbRight, g.rbParent);
    AssignRotationRight(s, g, p);
    ComputeIsExpected(s, g);
  }

  method AssignRotationRight(s: AddressSpace, g: VmArea, p: VmArea)
    requires {g, p} <= s.nodes && g != p && g.rbRight != p
    requires p.rbRight != null ==> p.rbRight in s.nodes && p.rbRight != g && p.rbRight != p && p.rbRight != g.rbParent
    requires var up := g.rbParent;
             up != null ==> up in s.nodes && up != g && up != p && ((up.rbLeft == g) != (up.rbRight == g))
    requires s.PrevsKnown() && s.Own()[g] >= 0
    modifies s`root, s.nodes`rbLeft, s.nodes`rbRight, s.nodes`rbParent, s.nodes`rbBlack, g`subtreeGap, p`subtreeGap
    ensures g.rbLeft == old(p.rbRight) && g.rbRight == old(g.rbRight) && g.rbParent == p
    ensures p.rbLeft == old(p.rbLeft) && p.rbRight == g && p.rbParent == old(g.rbParent)
    ensures var mid := old(p.rbRight);
      mid != null ==> mid.rbLeft == old(mid.rbLeft) && mid.rbRight == old(mid.rbRight) && mid.rbParent == g && mid.rbBlack
    ensures var up := old(g.rbParent);
      up != null ==> up.rbParent == old(up.rbParent) && up.rbBlack == old(up.rbBlack)
                     && up.rbLeft == Swap(old(up.rbLeft), g, p) && up.rbRight == Swap(old(up.rbRight), g, p)
    ensures forall n :: n in s.nodes && n != g && n != p && n != old(p.rbRight) && n != old(g.rbParent) ==>
                          n.rbLeft == old(n.rbLeft) && n.rbRight == old(n.rbRight)
                          && n.rbParent == old(n.rbParent) && n.rbBlack == old(n.rbBlack)
    ensures s.root == if old(g.rbParent) == null then p else old(s.root)
    ensures !g.rbBlack && p.rbBlack == old(g.rbBlack)
    ensures p.subtreeGap == old(g.subtreeGap) && g.subtreeGap == ComputeSubtreeGap(g)
  {
    TurnRight(s, g, p);
    RotateSetParents(s, g, p, false);
    assert ComputeSubtreeGap(g) >= s.Own()[g];
    GapRotate(g, p);
  }

  /** Case 3 of `rb_insert` on the right: rotate left at `g`. */
  method RotateLeftAt(s: AddressSpace, g: VmArea, p: VmArea)
    requires RotationSite(MirrorLinks(LinksOf(s.nodes)), g, p) && s.PrevsKnown() && s.Own()[g] >= 0
    modifies s`root, s.nodes`rbLeft, s.nodes`rbRight, s.nodes`rbParent, s.nodes`rbBlack, g`subtreeGap, p`subtreeGap
    ensures Rotated(MirrorLinks(old(LinksOf(s.nodes))), MirrorLinks(LinksOf(s.nodes)), g, p)
    ensures s.root == if old(LinksOf(s.nodes))[g].parent == null then p else old(s.root)
    ensures Repainted(old(s.Colours()), s.Colours(), old(LinksOf(s.nodes))[p].left, p, old(s.Colours())[g], g)
    ensures Regapped(old(s.Gaps()), s.Gaps(), s.Own(), LinksOf(s.nodes), g, p)
  {
    hide AddressSpace.Own, AddressSpace.PrevsKnown, Expected, ComputeSubtreeGap, MirrorLinks, RotationSite, Rotated;
    OwnKeys(s);
    ghost var l := LinksOf(s.nodes);
    SiteBack(l, g, p);
    AssignRotationLeft(s, g, p);
    ComputeIsExpected(s, g);
    RotatedMirrored(l, LinksOf(s.nodes), g, p);
  }

  method AssignRotationLeft(s: AddressSpace, g: VmArea, p: VmArea)
    requires {g, p} <= s.nodes && g != p && g.rbLeft != p
    requires p.rbLeft != null ==> p.rbLeft in s.nodes && p.rbLeft != g && p.rbLeft != p && p.rbLeft != g.rbParent
    requires var up := g.rbParent;
             up != null ==> up in s.nodes && up != g && up != p && ((up.rbLeft == g) != (up.rbRight == g))
    requires s.PrevsKnown() && s.Own()[g] >= 0
    modifies s`root, s.nodes`rbLeft, s.nodes`rbRight, s.nodes`rbParent, s.nodes`rbBlack, g`subtreeGap, p`subtreeGap
    ensures g.rbRight == old(p.rbLeft) && g.rbLeft == old(g.rbLeft) && g.rbParent == p
    ensures p.rbRight == old(p.rbRight) && p.rbLeft == g && p.rbParent == old(g.rbParent)
    ensures var mid := old(p.rbLeft);
      mid != null ==> mid.rbLeft == old(mid.rbLeft) && mid.rbRight == old(mid.rbRight) && mid.rbParent == g && mid.rbBlack
    ensures var up := old(g.rbParent);
      up != null ==> up.rbParent == old(up.rbParent) && up.rbBlack == old(up.rbBlack)
                     && up.rbLeft == Swap(old(up.rbLeft), g, p) && up.rbRight == Swap(old(up.rbRight), g, p)
    ensures forall n :: n in s.nodes && n != g && n != p && n != old(p.rbLeft) && n != old(g.rbParent) ==>
                          n.rbLeft == old(n.rbLeft) && n.rbRight == old(n.rbRight)
                          && n.rbParent == old(n.rbParent) && n.rbBlack == old(n.rbBlack)
    ensures s.root == if old(g.rbParent) == null then p else old(s.root)
    ensures !g.rbBlack && p.rbBlack == old(g.rbBlack)
    ensures p.subtreeGap == old(g.subtreeGap) && g.subtreeGap == ComputeSubtreeGap(g)
  {
    TurnLeft(s, g, p);
    RotateSetParents(s, g, p, false);
    assert ComputeSubtreeGap(g) >= s.Own()[g];
    GapRotate(g, p);
  }

  method AssignHalfRotationLeft(s: AddressSpace, parent: VmArea, node: VmArea)
    requires {parent, node} <= s.nodes && parent != node && parent.rbLeft != node && !node.rbBlack
    requires node.rbLeft != null ==> node.rbLeft in s.nodes && node.rbLeft != parent && node.rbLeft != node
    requires s.PrevsKnown() && s.Own()[parent] >= 0
    modifies s.nodes`rbLeft, s.nodes`rbRight, s.nodes`rbParent, s.nodes`rbBlack, parent`subtreeGap, node`subtreeGap
    ensures parent.rbRight == old(node.rbLeft) && parent.rbLeft == old(parent.rbLeft) && parent.rbParent == node && !parent.rbBlack
    ensures node.rbLeft == parent && node.rbRight == old(node.rbRight) && node.rbParent == old(node.rbParent) && !node.rbBlack
    ensures var mid := old(node.rbLeft);
      mid != null ==> mid.rbLeft == old(mid.rbLeft) && mid.rbRight == old(mid.rbRight) && mid.rbParent == parent && mid.rbBlack
    ensures forall n :: n in s.nodes && n != parent && n != node && n != old(node.rbLeft) ==>
                          n.rbLeft == old(n.rbLeft) && n.rbRight == old(n.rbRight)
                          && n.rbParent == old(n.rbParent) && n.rbBlack == old(n.rbBlack)
    ensures node.subtreeGap == old(parent.subtreeGap) && parent.subtreeGap == ComputeSubtreeGap(parent)
  {
    TurnLeft(s, parent, node);
    parent.rbParent, parent.rbBlack := node, false;
    assert ComputeSubtreeGap(parent) >= s.Own()[parent];
    GapRotate(parent, node);
  }

  /** Case 2 of `rb_insert` on the left: `node` moves above its parent, whose own parent is not told yet. */
  method HalfRotateLeft(s: AddressSpace, parent: VmArea, node: VmArea)
    requires HalfSite(MirrorLinks(LinksOf(s.nodes)), parent, node)
    requires s.PrevsKnown() && s.Own()[parent] >= 0 && !node.rbBlack
    modifies s.nodes`rbLeft, s.nodes`rbRight, s.nodes`rbParent, s.nodes`rbBlack, parent`subtreeGap, node`subtreeGap
    ensures HalfRotated(MirrorLinks(old(LinksOf(s.nodes))), MirrorLinks(LinksOf(s.nodes)), parent, node)
    ensures Repainted(old(s.Colours()), s.Colours(), old(LinksOf(s.nodes))[node].left, node, false, parent)
    ensures Regapped(old(s.Gaps()), s.Gaps(), s.Own(), LinksOf(s.nodes), parent, node)
  {
    hide AddressSpace.Own, AddressSpace.PrevsKnown, Expected, ComputeSubtreeGap;
    OwnKeys(s);
    assert LinksOf(s.nodes)[parent] == Link(parent.rbLeft, parent.rbRight, parent.rbParent);
    AssignHalfRotationLeft(s, parent, node);
    ComputeIsExpected(s, parent);
  }

  method AssignHalfRotationRight(s: AddressSpace, parent: VmArea, node: VmArea)
    requires {parent, node} <= s.nodes && parent != node && parent.rbRight != node && !node.rbBlack
    requires node.rbRight != null ==> node.rbRight in s.nodes && node.rbRight != parent && node.rbRight != node
    requires s.PrevsKnown() && s.Own()[parent] >= 0
    modifies s.nodes`rbLeft, s.nodes`rbRight, s.nodes`rbParent, s.nodes`rbBlack, parent`subtreeGap, node`subtreeGap
    ensures parent.rbLeft == old(node.rbRight) && parent.rbRight == old(parent.rbRight) && parent.rbParent == node && !parent.rbBlack
    ensures node.rbRight == parent && node.rbLeft == old(node.rbLeft) && node.rbParent == old(node.rbParent) && !node.rbBlack
    ensures var mid := old(node.rbRight);
      mid != null ==> mid.rbLeft == old(mid.rbLeft) && mid.rbRight == old(mid.rbRight) && mid.rbParent == parent && mid.rbBlack
    ensures forall n :: n in s.nodes && n != parent && n != node && n != old(node.rbRight) ==>
                          n.rbLeft == old(n.rbLeft) && n.rbRight == old(n.rbRight)
                          && n.rbParent == old(n.rbParent) && n.rbBlack == old(n.rbBlack)
    ensures node.subtreeGap == old(parent.subtreeGap) && parent.subtreeGap == ComputeSubtreeGap(parent)
  {
    TurnRight(s, parent, node);
    parent.rbParent, parent.rbBlack := node, false;
    assert ComputeSubtreeGap(parent) >= s.Own()[parent];
    GapRotate(parent, node);
  }

  /** Case 2 of `rb_insert` on the right: `node` moves above its parent, whose own parent is not told yet. */
  method HalfRotateRight(s: AddressSpace, parent: VmArea, node: VmArea)
    requires HalfSite(LinksOf(s.nodes), parent, node)
    requires s.PrevsKnown() && s.Own()[parent] >= 0 && !node.rbBlack
    modifies s.nodes`rbLeft, s.nodes`rbRight, s.nodes`rbParent, s.nodes`rbBlack, parent`subtreeGap, node`subtreeGap
    ensures HalfRotated(old(LinksOf(s.nodes)), LinksOf(s.nodes), parent, node)
    ensures Repainted(old(s.Colours()), s.Colours(), old(LinksOf(s.nodes))[node].right, node, false, parent)
    ensures Regapped(old(s.Gaps()), s.Gaps(), s.Own(), LinksOf(s.nodes), parent, node)
  {
    hide AddressSpace.Own, AddressSpace.PrevsKnown, Expected, ComputeSubtreeGap;
    OwnKeys(s);
    assert LinksOf(s.nodes)[parent] == Link(parent.rbLeft, parent.rbRight, parent.rbParent);
    AssignHalfRotationRight(s, parent, node);
    ComputeIsExpected(s, parent);
  }

  /**
   Case 3 on the left. After a Case 2 the space shows the tree `t` to be rotated only up to the two
   links that the rotation is about to write.
   */
  method FinishRight(s: AddressSpace, g: VmArea, p: VmArea, ghost t: Shape)
    requires s.PrevsKnown() && Fit(t, s.Own(), s.Gaps()) && g in t.span && t.links[g].left == p
    requires Pending(t, LinksOf(s.nodes), g, p) && t.root == s.root && t.order == s.order
    modifies s`root, s`span, s.nodes`rbLeft, s.nodes`rbRight, s.nodes`rbParent, s.nodes`rbBlack, g`subtreeGap, p`subtreeGap
    ensures s.Tree() == RotateRight(t, g, p) && Fit(s.Tree(), s.Own(), s.Gaps())
    ensures Repainted(old(s.Colours()), s.Colours(), t.links[p].right, p, old(s.Colours())[g], g)
  {
    hide Fit, Rotated, RotationSite, Regapped, Repainted, LinksOf, GapsOf, ColoursOf, RotatedLinks;
    SiteOk(t, s.Own(), s.Gaps(), LinksOf(s.nodes), g, p);
    ghost var l, gaps := LinksOf(s.nodes), s.Gaps();
    RotateRightAt(s, g, p);
    s.span := RotateRight(t, g, p).span;
    RotateRightStep(t, l, s.Tree(), s.Own(), gaps, s.Gaps(), g, p);
  }

  /** Case 2 on the left: afterwards the rotation `r` of the tree awaits Case 3. */
  method InnerLeft(s: AddressSpace, node: VmArea, parent: VmArea, gparent: VmArea, ghost t: Shape) returns (ghost r: Shape)
    requires s.PrevsKnown() && Fit(t, s.Own(), s.Gaps()) && t == s.Tree() && {node, parent, gparent} <= t.span.Keys
    requires t.links[parent].right == node && t.links[gparent].left == parent && !node.rbBlack
    modifies s.nodes`rbLeft, s.nodes`rbRight, s.nodes`rbParent, s.nodes`rbBlack, parent`subtreeGap, node`subtreeGap
    ensures r == RotateLeft(t, parent, node) && Fit(r, s.Own(), s.Gaps()) && r.root == s.root
    ensures r.links.Keys == t.links.Keys && Pending(r, LinksOf(s.nodes), gparent, node)
    ensures Repainted(old(s.Colours()), s.Colours(), t.links[node].left, node, false, parent)
  {
    hide Fit, HalfSite, HalfRotated, Regapped, Repainted, LinksOf, GapsOf, ColoursOf, RotatedLinks, Pending;
    ghost var gaps := s.Gaps();
    HalfSiteOk(t, s.Own(), gaps, parent, node);
    HalfRotateLeft(s, parent, node);
    HalfLeftStep(t, LinksOf(s.nodes), s.Own(), gaps, s.Gaps(), gparent, parent, node);
    r := RotateLeft(t, parent, node);
  }

  /** Case 3 on the left, as a step from the state `a`. */
  method OuterStepRight(s: AddressSpace, g: VmArea, p: VmArea, ghost a: State)
    requires s.PrevsKnown() && Good(a) && a == s.Now().(t := a.t) && g in a.t.span && a.t.links[g].left == p
    requires Pending(a.t, LinksOf(s.nodes), g, p) && a.t.root == s.root && a.t.order == s.order
    modifies s`root, s`span, s.nodes`rbLeft, s.nodes`rbRight, s.nodes`rbParent, s.nodes`rbBlack, g`subtreeGap, p`subtreeGap
    ensures OuterDone(a, s.Now(), g, p)
  {
    hide Fit, Repainted, RotateRight, GapsOf;
    FinishRight(s, g, p, a.t);
  }

  /** Case 2 on the left, as a step from the state `a` to one that awaits Case 3. */
  method InnerStepLeft(s: AddressSpace, node: VmArea, parent: VmArea, gparent: VmArea, ghost a: State) returns (ghost m: State)
    requires s.PrevsKnown() && Good(a) && a == s.Now() && InsertSite(a, node, parent, gparent)
    requires a.t.links[parent].right == node
    modifies s.nodes`rbLeft, s.nodes`rbRight, s.nodes`rbParent, s.nodes`rbBlack, parent`subtreeGap, node`subtreeGap
    ensures InnerDone(a, m, parent, node) && m == s.Now().(t := m.t) && m.t.root == s.root
    ensures Pending(m.t, LinksOf(s.nodes), gparent, node)
  {
    hide Fit, Repainted, RotateLeft, GapsOf, Pending;
    ghost var r := InnerLeft(s, node, parent, gparent, a.t);
    m := s.Now().(t := r);
  }

  /** Cases 2 and 3 of `rb_insert` for a parent that is the left child. `bh` certifies balance but for `node`. */
  method InsertFixLeft(s: AddressSpace, node: VmArea, parent: VmArea, gparent: VmArea, ghost bh: Heights)
    returns (ghost bh': Heights)
    requires s.Sound() && InsertSite(s.Now(), node, parent, gparent) && RootBlack(s.Tree(), s.Colours())
    requires Red(s.Colours(), parent) && !Red(s.Colours(), s.Tree().links[gparent].right)
    modifies s`root, s`span, s.nodes`rbLeft, s.nodes`rbRight, s.nodes`rbParent, s.nodes`rbBlack, s.nodes`subtreeGap
    ensures Fixed(old(s.Now()), s.Now(), bh, bh', node)
  {
    hide Fit, Pending, RootBlack, GapsOf, ColoursOf, InnerDone, OuterDone, Fixed;
    ghost var a := s.Now();
    if node == parent.rbRight {
      ghost var m := InnerStepLeft(s, node, parent, gparent, a);
      InnerKeeps(a, m, gparent, parent, node);
      OuterStepRight(s, gparent, node, m);
      bh' := InnerFixed(a, m, s.Now(), bh, gparent, parent, node);
    } else {
      PendingSelf(a.t, a.own, a.gaps, gparent, parent);
      OuterStepRight(s, gparent, parent, a);
      bh' := OuterFixed(a, s.Now(), bh, gparent, parent, node);
    }
  }

  // The same on the right. States are mirrored in the contracts.

  method FinishLeft(s: AddressSpace, g: VmArea, p: VmArea, ghost t: Shape)
    requires s.PrevsKnown() && Fit(t, s.Own(), s.Gaps()) && g in t.span && t.links[g].right == p
    requires Pending(Mirror(t), MirrorLinks(LinksOf(s.nodes)), g, p) && t.root == s.root && t.order == s.order
    requires {g, p} <= t.links.Keys
    modifies s`root, s`span, s.nodes`rbLeft, s.nodes`rbRight, s.nodes`rbParent, s.nodes`rbBlack, g`subtreeGap, p`subtreeGap
    ensures s.Tree() == RotateLeft(t, g, p) && Fit(s.Tree(), s.Own(), s.Gaps())
    ensures Repainted(old(s.Colours()), s.Colours(), t.links[p].left, p, old(s.Colours())[g], g)
  {
    hide Fit, Rotated, RotationSite, Regapped, Repainted, LinksOf, GapsOf, ColoursOf, RotatedLinks, RotateLeft, Pending;
    SiteOkLeft(t, s.Own(), s.Gaps(), LinksOf(s.nodes), g, p);
    ghost var l, gaps := LinksOf(s.nodes), s.Gaps();
    RotateLeftAt(s, g, p);
    s.span := RotateLeft(t, g, p).span;
    RotateLeftStep(t, l, s.Tree(), s.Own(), gaps, s.Gaps(), g, p);
  }

  method InnerRight(s: AddressSpace, node: VmArea, parent: VmArea, gparent: VmArea, ghost t: Shape) returns (ghost r: Shape)
    requires s.PrevsKnown() && Fit(t, s.Own(), s.Gaps()) && t == s.Tree() && {node, parent, gparent} <= t.span.Keys
    requires t.links[parent].left == node && t.links[gparent].right == parent && !node.rbBlack
    modifies s.nodes`rbLeft, s.nodes`rbRight, s.nodes`rbParent, s.nodes`rbBlack, parent`subtreeGap, node`subtreeGap
    ensures r == RotateRight(t, parent, node) && Fit(r, s.Own(), s.Gaps()) && r.root == s.root && r.order == s.order
    ensures r.links.Keys == t.links.Keys && Pending(Mirror(r), MirrorLinks(LinksOf(s.nodes)), gparent, node)
    ensures Repainted(old(s.Colours()), s.Colours(), t.links[node].right, node, false, parent)
  {
    hide Fit, HalfSite, HalfRotated, Regapped, Repainted, LinksOf, GapsOf, ColoursOf, RotatedLinks, Pending;
    ghost var gaps := s.Gaps();
    HalfSiteOk(t, s.Own(), gaps, parent, node);
    HalfRotateRight(s, parent, node);
    HalfRightStep(t, LinksOf(s.nodes), s.Own(), gaps, s.Gaps(), gparent, parent, node);
    r := RotateRight(t, parent, node);
  }

  method OuterStepLeft(s: AddressSpace, g: VmArea, p: VmArea, ghost a: State)
    requires s.PrevsKnown() && Good(a) && a == s.Now().(t := a.t) && g in a.t.span && a.t.links[g].right == p
    requires Pending(Mirror(a.t), MirrorLinks(LinksOf(s.nodes)), g, p) && a.t.root == s.root && a.t.order == s.order
    modifies s`root, s`span, s.nodes`rbLeft, s.nodes`rbRight, s.nodes`rbParent, s.nodes`rbBlack, g`subtreeGap, p`subtreeGap
    ensures OuterDone(MirrorState(a), MirrorState(s.Now()), g, p)
  {
    hide Fit, Repainted, RotateRight, GapsOf, Shape.Tree;
    FinishLeft(s, g, p, a.t);
    assert s.Own() == a.own;
    MirrorTwice(RotateRight(Mirror(a.t), g, p));
    MirrorGood(s.Now());
  }

  method InnerStepRight(s: AddressSpace, node: VmArea, parent: VmArea, gparent: VmArea, ghost a: State) returns (ghost m: State)
    requires s.PrevsKnown() && Good(a) && a == s.Now() && InsertSite(MirrorState(a), node, parent, gparent)
    requires a.t.links[parent].left == node
    modifies s.nodes`rbLeft, s.nodes`rbRight, s.nodes`rbParent, s.nodes`rbBlack, parent`subtreeGap, node`subtreeGap
    ensures Good(m) && InnerDone(MirrorState(a), MirrorState(m), parent, node)
    ensures m == s.Now().(t := m.t) && m.t.root == s.root && m.t.order == s.order
    ensures Pending(Mirror(m.t), MirrorLinks(LinksOf(s.nodes)), gparent, node)
  {
    hide Fit, Repainted, RotateRight, GapsOf, Pending, Mirror, MirrorState;
    MirrorSite(a, node, parent, gparent);
    ghost var r := InnerRight(s, node, parent, gparent, a.t);
    m := s.Now().(t := r);
    InnerDoneRight(a, m, parent, node);
  }

  method InnerFixRight(s: AddressSpace, node: VmArea, parent: VmArea, gparent: VmArea, ghost bh: Heights)
    returns (ghost bh': Heights)
    requires s.Sound() && InsertSite(MirrorState(s.Now()), node, parent, gparent) && parent.rbLeft == node
    requires RootBlack(s.Tree(), s.Colours())
    requires Red(s.Colours(), parent) && !Red(s.Colours(), s.Tree().links[gparent].left)
    modifies s`root, s`span, s.nodes`rbLeft, s.nodes`rbRight, s.nodes`rbParent, s.nodes`rbBlack, s.nodes`subtreeGap
    ensures Fixed(MirrorState(old(s.Now())), MirrorState(s.Now()), bh, bh', node)
  {
    hide Fit, Pending, RootBlack, GapsOf, ColoursOf, InnerDone, OuterDone, Fixed, Red, Good, Shape.Tree, Mirror, MirrorState, InsertSite;
    ghost var a := s.Now();
    MirrorSite(a, node, parent, gparent);
    assert a.t.links[parent].left == parent.rbLeft;
    ghost var m := InnerStepRight(s, node, parent, gparent, a);
    InnerKeepsRight(a, m, gparent, parent, node);
    OuterStepLeft(s, gparent, node, m);
    bh' := InnerFixedRight(a, m, s.Now(), bh, gparent, parent, node);
  }

  /** Cases 2 and 3 of `rb_insert` for a parent that is the right child. */
  method InsertFixRight(s: AddressSpace, node: VmArea, parent: VmArea, gparent: VmArea, ghost bh: Heights)
    returns (ghost bh': Heights)
    requires s.Sound() && InsertSite(MirrorState(s.Now()), node, parent, gparent) && RootBlack(s.Tree(), s.Colours())
    requires Red(s.Colours(), parent) && !Red(s.Colours(), s.Tree().links[gparent].left)
    modifies s`root, s`span, s.nodes`rbLeft, s.nodes`rbRight, s.nodes`rbParent, s.nodes`rbBlack, s.nodes`subtreeGap
    ensures Fixed(old(s.Now()), s.Now(), bh, bh', node)
  {
    hide Fit, Pending, RootBlack, GapsOf, ColoursOf, OuterDone, Fixed, Red;
    ghost var a := s.Now();
    if node == parent.rbLeft {
      bh' := InnerFixRight(s, node, parent, gparent, bh);
    } else {
      MirrorGood(a);
      MirrorRootBlack(a);
      PendingSelf(Mirror(a.t), a.own, a.gaps, gparent, parent);
      OuterStepLeft(s, gparent, parent, a);
      bh' := OuterFixed(MirrorState(a), MirrorState(s.Now()), bh, gparent, parent, node);
    }
    MirrorFixed(a, s.Now(), bh, bh', node);
  }

  // ---------------------------------------------------------------- rb_insert

  /** `rb_set_parent_color` */
  method SetParentColour(n: VmArea, p: VmArea?, black: bool)
    modifies n`rbParent, n`rbBlack
    ensures n.rbParent == p && n.rbBlack == black
  {
    n.rbParent, n.rbBlack := p, black;
  }

  /** Case 1 of `rb_insert`: the parent pointers are rewritten with the values they have. */
  method AssignFlip(parent: VmArea, gparent: VmArea, uncle: VmArea)
    requires parent != uncle && parent != gparent && uncle != gparent
    requires parent.rbParent == gparent && uncle.rbParent == gparent
    modifies {parent, gparent, uncle}`rbParent, {parent, gparent, uncle}`rbBlack
    ensures parent.rbParent == gparent && uncle.rbParent == gparent && gparent.rbParent == old(gparent.rbParent)
    ensures parent.rbBlack && uncle.rbBlack && !gparent.rbBlack
  {
    SetParentColour(uncle, gparent, true);
    SetParentColour(parent, gparent, true);
    SetParentColour(gparent, gparent.rbParent, false);
  }

  method FlipColours(s: AddressSpace, parent: VmArea, gparent: VmArea, uncle: VmArea)
    requires {parent, gparent, uncle} <= s.nodes && parent != uncle && parent != gparent && uncle != gparent
    requires parent.rbParent == gparent && uncle.rbParent == gparent && s.PrevsKnown()
    modifies s.nodes`rbParent, s.nodes`rbBlack
    ensures s.Now() == old(s.Now()).(col := old(s.Colours())[uncle := true][parent := true][gparent := false])
  {
    AssignFlip(parent, gparent, uncle);
    assert LinksOf(s.nodes) == old(LinksOf(s.nodes));
    assert s.Colours() == old(s.Colours())[uncle := true][parent := true][gparent := false];
  }

  /** Case 1 as a step of the climb from `a0`. */
  method FlipStep(s: AddressSpace, node: VmArea, parent: VmArea, gparent: VmArea, uncle: VmArea, ghost a0: State, ghost bh: Heights)
    returns (ghost bh': Heights)
    requires s.PrevsKnown() && Climbing(a0, s.Now(), node) && RootBlack(s.Tree(), s.Colours())
    requires {node, parent, gparent, uncle} <= s.nodes && parent in s.span && gparent in s.span
    requires node.rbParent == parent && parent.rbParent == gparent && !parent.rbBlack && !uncle.rbBlack
    requires if gparent.rbRight == parent then gparent.rbLeft == uncle else gparent.rbRight == uncle
    modifies s.nodes`rbParent, s.nodes`rbBlack
    ensures Climbing(a0, s.Now(), gparent) && Size(s.Now(), gparent) > old(Size(s.Now(), node))
    ensures Defect(old(s.Now()), bh, node) ==> Defect(s.Now(), bh', gparent)
  {
    hide Good, Defect, GapsOf;
    ghost var a := s.Now();
    SiteForFlip(a, node, parent, gparent, uncle);
    assert a.t.links[uncle].parent == uncle.rbParent;
    FlipColours(s, parent, gparent, uncle);
    FlipClimbs(a, s.Now(), node, parent, gparent, uncle);
    bh' := FlipBalance(a, s.Now(), bh, node, parent, gparent, uncle);
  }

  /** A red root turns black. */
  method RootStep(s: AddressSpace, node: VmArea, ghost a0: State, ghost bh: Heights) returns (ghost bh': Heights)
    requires s.PrevsKnown() && Climbing(a0, s.Now(), node) && node.rbParent == null && node in s.nodes && s.root == node
    modifies node`rbParent, node`rbBlack
    ensures Settled(a0, s.Now())
    ensures Defect(old(s.Now()), bh, node) ==> Balanced(s.Now(), bh')
  {
    hide Good, Defect, GapsOf, Balanced, RootBlack;
    ghost var a := s.Now();
    SetParentColour(node, null, true);
    assert LinksOf(s.nodes) == a.t.links;
    assert s.Colours() == a.col[node := true];
    bh' := RootSettles(a, s.Now(), bh, node);
  }

  /** Cases 2 and 3 as the last step of the climb from `a0`. */
  method FixStep(s: AddressSpace, node: VmArea, parent: VmArea, gparent: VmArea, ghost a0: State, ghost bh: Heights)
    returns (ghost bh': Heights)
    requires s.PrevsKnown() && Climbing(a0, s.Now(), node) && RootBlack(s.Tree(), s.Colours())
    requires {node, parent, gparent} <= s.nodes && parent in s.span && gparent in s.span
    requires node.rbParent == parent && parent.rbParent == gparent && !parent.rbBlack
    requires gparent.rbRight != parent ==> gparent.rbRight == null || !Red(s.Colours(), gparent.rbRight)
    requires gparent.rbRight == parent ==> gparent.rbLeft == null || !Red(s.Colours(), gparent.rbLeft)
    modifies s`root, s`span, s.nodes`rbLeft, s.nodes`rbRight, s.nodes`rbParent, s.nodes`rbBlack, s.nodes`subtreeGap
    ensures Settled(a0, s.Now())
    ensures Defect(old(s.Now()), bh, node) ==> Balanced(s.Now(), bh')
  {
    hide Fixed, Defect, GapsOf, Balanced, RootBlack, InsertSite, Fit, Settled;
    ghost var a := s.Now();
    SiteForFix(a, node, parent, gparent);
    if parent != gparent.rbRight {
      bh' := InsertFixLeft(s, node, parent, gparent, bh);
    } else {
      bh' := InsertFixRight(s, node, parent, gparent, bh);
    }
    FixedSettles(a0, a, s.Now(), bh, bh', node);
  }

  /** One round of the loop of `rb_insert` below a red parent. `up` is where the climb goes on, if it does. */
  method RedParentStep(s: AddressSpace, node: VmArea, parent: VmArea, ghost a0: State, ghost bh: Heights)
    returns (up: VmArea?, ghost bh': Heights)
    requires s.PrevsKnown() && Climbing(a0, s.Now(), node) && node in s.nodes && node.rbParent == parent
    requires RootBlack(s.Tree(), s.Colours()) && s.root != node && parent in s.nodes && !parent.rbBlack
    modifies s`root, s`span, s.nodes`rbLeft, s.nodes`rbRight, s.nodes`rbParent, s.nodes`rbBlack, s.nodes`subtreeGap
    ensures up != null ==> Climbing(a0, s.Now(), up) && up in s.nodes && Size(s.Now(), up) > old(Size(s.Now(), node))
    ensures up != null && Defect(old(s.Now()), bh, node) ==> Defect(s.Now(), bh', up)
    ensures up == null ==> Settled(a0, s.Now()) && (Defect(old(s.Now()), bh, node) ==> Balanced(s.Now(), bh'))
  {
    hide Defect, Balanced, RootBlack, Good, GapsOf, Settled;
    ghost var a := s.Now();
    assert a.t.links[node].parent == parent;
    RedParent(a, node, parent);
    assert a.t.links[parent].parent == parent.rbParent;
    var gparent := parent.rbParent;
    assert a.t.links[gparent] == Link(gparent.rbLeft, gparent.rbRight, gparent.rbParent);
    var tmp := if parent != gparent.rbRight then gparent.rbRight else gparent.rbLeft;
    if tmp != null && !tmp.rbBlack {
      bh' := FlipStep(s, node, parent, gparent, tmp, a0, bh);
      up := gparent;
    } else {
      bh' := FixStep(s, node, parent, gparent, a0, bh);
      up := null;
    }
  }

  /**
   `rb_insert`: from any tree whose root is black, balanced or not, with the red `node0` in it.
   The sequence, the nodes and all caches are kept and the root ends black. A tree that was red-black
   but for `node0` ends red-black.
   */
  method RbInsert(s: AddressSpace, node0: VmArea)
    requires s.PrevsKnown() && Insertable(s.Now(), node0)
    modifies s`root, s`span, s.nodes`rbLeft, s.nodes`rbRight, s.nodes`rbParent, s.nodes`rbBlack, s.nodes`subtreeGap
    ensures s.PrevsKnown() && Settled(old(s.Now()), s.Now())
    ensures old(exists bh :: Certifies(s.Tree(), s.Colours(), bh, node0, null)) ==> RedBlack(s.Tree(), s.Colours())
  {
    hide Defect, Balanced, RootBlack, Good, GapsOf, Certifies, Settled;
    ghost var a0 := s.Now();
    ghost var bh: Heights := map[];
    ghost var strong := exists b :: Certifies(a0.t, a0.col, b, node0, null);
    if strong {
      bh :| Certifies(a0.t, a0.col, bh, node0, null);
      HeightsKeys(a0, bh, node0);
    }
    var node: VmArea, parent: VmArea? := node0, node0.rbParent;
    while true
      invariant s.PrevsKnown() && Climbing(a0, s.Now(), node) && node in s.nodes && parent == node.rbParent
      invariant strong ==> Defect(s.Now(), bh, node)
      invariant s.order == a0.t.order
      decreases |a0.t.order| - Size(s.Now(), node)
    {
      Upwards(s.Now(), node);
      ghost var a := s.Now();
      assert a.t.links[node].parent == parent;
      if parent == null {
        bh := RootStep(s, node, a0, bh);
        break;
      } else if parent.rbBlack {
        ParentSettles(a0, a, bh, node);
        break;
      }
      var up: VmArea?;
      up, bh := RedParentStep(s, node, parent, a0, bh);
      if up == null {
        break;
      }
      node, parent := up, up.rbParent;
    }
    if strong {
      BalancedIsRedBlack(a0, s.Now(), bh);
    }
  }

  // ---------------------------------------------------------------- vma_rb_gap_propagate

  lemma ComputeHere(s: AddressSpace, v: VmArea, l: map<VmArea, Link>)
    requires s.PrevsKnown() && v in s.nodes && s.Own()[v] >= 0 && v in l && l[v] == Link(v.rbLeft, v.rbRight, v.rbParent)
    requires v.rbLeft != null ==> v.rbLeft in s.nodes
    requires v.rbRight != null ==> v.rbRight in s.nodes
    ensures v in s.Gaps() && s.Gaps()[v] == v.subtreeGap
    ensures ComputeSubtreeGap(v) == Expected(l, s.Own(), s.Gaps(), v) >= 0
  {
    ComputeIsExpected(s, v);
  }

  method Refresh(s: AddressSpace, node: VmArea, ghost l: map<VmArea, Link>) returns (changed: bool)
    requires s.PrevsKnown() && node in s.nodes && s.Own()[node] >= 0
    requires node in l && l[node] == Link(node.rbLeft, node.rbRight, node.rbParent)
    requires node.rbLeft != null ==> node.rbLeft in s.nodes
    requires node.rbRight != null ==> node.rbRight in s.nodes
    modifies node`subtreeGap
    ensures s.Gaps() == old(s.Gaps())[node := Expected(l, s.Own(), old(s.Gaps()), node)]
    ensures changed <==> old(s.Gaps())[node] != Expected(l, s.Own(), old(s.Gaps()), node)
  {
    hide Expected, LinksOf, ComputeSubtreeGap;
    ComputeHere(s, node, l);
    var augmented := ComputeSubtreeGap(node);
    changed := node.subtreeGap != augmented;
    if changed {
      node.subtreeGap := augmented;
    }
  }

  lemma WalkHere(s: AddressSpace, node: VmArea, t: Shape, walk: set<VmArea>, stop: VmArea?)
    requires s.PrevsKnown() && t.Tree() && t.span.Keys <= s.nodes && node in walk
    requires Walkable(t, LinksOf(s.nodes), s.Own(), walk, stop)
    ensures node in s.nodes && node in t.span && node in t.links && s.Own()[node] >= 0
    ensures t.links[node] == Link(node.rbLeft, node.rbRight, node.rbParent)
    ensures node.rbLeft != null ==> node.rbLeft in s.nodes
    ensures node.rbRight != null ==> node.rbRight in s.nodes
    ensures node.rbParent == stop || node.rbParent in walk
    ensures Covered(t, s.Own(), s.Gaps())
  {
    assert t.NodeOk(node) && LinksOf(s.nodes)[node] == t.links[node];
  }

  /**
   `vma_rb_gap_propagate`: the walk up that stops at `stop` or at the first cache that was right.
   `t` is the tree whose caches are meant; `bad` are nodes whose caches nobody vouches for.
   */
  method GapPropagate(s: AddressSpace, rb0: VmArea?, stop: VmArea?,
                      ghost t: Shape, ghost walk: set<VmArea>, ghost bad: set<VmArea?>)
    requires s.PrevsKnown() && t.Tree() && t.span.Keys <= s.nodes
    requires Walkable(t, LinksOf(s.nodes), s.Own(), walk, stop) && stop !in walk && (rb0 == stop || rb0 in walk)
    requires GapsOkBut(t, s.Own(), s.Gaps(), bad + {rb0})
    modifies walk`subtreeGap
    ensures GapsOkBut(t, s.Own(), s.Gaps(), bad + {stop})
  {
    hide GapsOkBut, Above, Walkable, Covered, Expected, Shape.Tree, LinksOf;
    var rb := rb0;
    while rb != stop
      invariant rb == stop || rb in walk
      invariant GapsOkBut(t, s.Own(), s.Gaps(), bad + {rb})
      decreases Above(t, rb)
    {
      var node: VmArea := rb;
      WalkHere(s, node, t, walk, stop);
      ghost var g := s.Gaps();
      WalkStep(t, s.Own(), g, node, bad, stop);
      var changed := Refresh(s, node, t.links);
      if !changed {
        assert s.Gaps() == g;
        break;
      }
      rb := node.rbParent;
    }
  }

  // ---------------------------------------------------------------- rb_erase

  /** The assignments of Case 1. */
  method AssignSplice(s: AddressSpace, node: VmArea, child: VmArea?) returns (rebalance: VmArea?)
    requires SpliceSite(LinksOf(s.nodes), node, child)
    modifies s`root, s.nodes`rbLeft, s.nodes`rbRight, s.nodes`rbParent, s.nodes`rbBlack
    ensures Spliced(old(LinksOf(s.nodes)), LinksOf(s.nodes), node, child)
    ensures s.root == if old(LinksOf(s.nodes))[node].parent == null then child else old(s.root)
    ensures s.Colours() == SpliceColours(old(s.Colours()), node, child)
    ensures rebalance == if child == null && old(s.Colours())[node] then old(LinksOf(s.nodes))[node].parent else null
  {
    assert LinksOf(s.nodes)[node].parent == node.rbParent;
    var parent, black := node.rbParent, node.rbBlack;
    ChangeChild(s, node, child, parent);
    if child != null {
      child.rbParent, child.rbBlack := parent, black;
      rebalance := null;
    } else {
      rebalance := if black then parent else null;
    }
  }

  /** Case 1 of `rb_erase`, before the caches are refreshed. */
  method EraseSplice(s: AddressSpace, node: VmArea, child: VmArea?) returns (rebalance: VmArea?)
    requires s.PrevsKnown() && Erasable(s.Now(), node) && OnlyChild(s.Tree(), node, child)
    modifies s`root, s`order, s`span, s.nodes`rbLeft, s.nodes`rbRight, s.nodes`rbParent, s.nodes`rbBlack
    ensures var a := old(s.Now());
            && node in a.t.links && 0 <= a.t.span[node].at < |a.t.order| && node in a.col
            && s.Now() == SpliceState(a, node, child) && rebalance == SpliceShort(a.t, a.col, node, child)
  {
    hide Erasable, Spliced, GapsOf, Splice, SpliceColours, LinksOf, ColoursOf, OnlyChild, SpliceSite;
    ghost var a := s.Now();
    SpliceSiteOk(a, node, child);
    rebalance := AssignSplice(s, node, child);
    SplicedIs(a, LinksOf(s.nodes), node, child);
    ghost var t := Splice(a.t, node, child);
    s.order, s.span := t.order, t.span;
  }

  /** Case 3: the successor's own child replaces it below its parent, and `node`'s right child moves below it. */
  method AssignUnhook(s: AddressSpace, successor: VmArea, parent: VmArea, child: VmArea)
    requires UnhookSite(LinksOf(s.nodes), successor, parent, child)
    modifies parent`rbLeft, successor`rbRight, child`rbParent
    ensures Unhooked(old(LinksOf(s.nodes)), LinksOf(s.nodes), successor, parent, child)
  {
    var child2 := successor.rbRight;
    parent.rbLeft := child2;
    successor.rbRight := child;
    child.rbParent := successor;
  }

  /** The successor takes over parent and colour of `node`; its old child turns black. */
  method AdoptColour(node: VmArea, successor: VmArea, parent: VmArea, child2: VmArea?) returns (rebalance: VmArea?)
    requires node != successor && child2 != successor && child2 != node
    modifies successor`rbParent, successor`rbBlack
    modifies (if child2 == null then {} else {child2})`rbParent, (if child2 == null then {} else {child2})`rbBlack
    ensures successor.rbParent == node.rbParent && successor.rbBlack == node.rbBlack
    ensures child2 != null ==> child2.rbParent == parent && child2.rbBlack
    ensures rebalance == if child2 == null && old(successor.rbBlack) then parent else null
  {
    if child2 != null {
      successor.rbParent, successor.rbBlack := node.rbParent, node.rbBlack;
      child2.rbParent, child2.rbBlack := parent, true;
      rebalance := null;
    } else {
      var black := successor.rbBlack;
      successor.rbParent, successor.rbBlack := node.rbParent, node.rbBlack;
      rebalance := if black then parent else null;
    }
  }

  /** The second stage, pointwise. */
  method MoveIntoPlace(s: AddressSpace, node: VmArea, successor: VmArea, parent: VmArea, child2: VmArea?, x: VmArea)
    returns (rebalance: VmArea?)
    requires {node, successor, parent, x} <= s.nodes && node != successor && node.rbLeft == x
    requires x != successor && x != node && x != node.rbParent
    requires var up := node.rbParent;
             up != null ==> up in s.nodes && up != successor && up != node && ((up.rbLeft == node) != (up.rbRight == node))
    requires child2 != null ==> child2 in s.nodes && child2 !in {successor, node, x} && child2 != node.rbParent
    modifies s`root, s.nodes`rbLeft, s.nodes`rbRight, s.nodes`rbParent, s.nodes`rbBlack
    ensures successor.rbLeft == x && successor.rbRight == old(successor.rbRight) && successor.rbParent == old(node.rbParent)
    ensures x.rbLeft == old(x.rbLeft) && x.rbRight == old(x.rbRight) && x.rbParent == successor && x.rbBlack == old(x.rbBlack)
    ensures var up := old(node.rbParent);
      up != null ==> up.rbLeft == Swap(old(up.rbLeft), node, successor) && up.rbRight == Swap(old(up.rbRight), node, successor)
                     && up.rbParent == old(up.rbParent) && up.rbBlack == old(up.rbBlack)
    ensures child2 != null ==> child2.rbParent == parent && child2.rbBlack
                               && child2.rbLeft == old(child2.rbLeft) && child2.rbRight == old(child2.rbRight)
    ensures forall n :: n in s.nodes && n != successor && n != x && n != old(node.rbParent) && n != child2 ==>
                          n.rbLeft == old(n.rbLeft) && n.rbRight == old(n.rbRight)
                          && n.rbParent == old(n.rbParent) && n.rbBlack == old(n.rbBlack)
    ensures s.root == if old(node.rbParent) == null then successor else old(s.root)
    ensures successor.rbBlack == old(node.rbBlack)
    ensures rebalance == if child2 == null && old(successor.rbBlack) then parent else null
  {
    successor.rbLeft := x;
    x.rbParent := successor;
    ChangeChild(s, node, successor, node.rbParent);
    rebalance := AdoptColour(node, successor, parent, child2);
  }

  /** The second stage: the successor takes `node`'s place and colour. */
  method AssignReplace(s: AddressSpace, node: VmArea, successor: VmArea, parent: VmArea, child2: VmArea?)
    returns (rebalance: VmArea?)
    requires ReplaceSite(LinksOf(s.nodes), node, successor, parent, child2)
    modifies s`root, s.nodes`rbLeft, s.nodes`rbRight, s.nodes`rbParent, s.nodes`rbBlack
    ensures Replaced(old(LinksOf(s.nodes)), LinksOf(s.nodes), node, successor, parent, child2)
    ensures s.root == if old(LinksOf(s.nodes))[node].parent == null then successor else old(s.root)
    ensures s.Colours() == Blacken(old(s.Colours())[successor := old(s.Colours())[node]], child2)
    ensures rebalance == if child2 == null && old(s.Colours())[successor] then parent else null
  {
    assert LinksOf(s.nodes)[node] == Link(node.rbLeft, node.rbRight, node.rbParent);
    rebalance := MoveIntoPlace(s, node, successor, parent, child2, node.rbLeft);
  }

  /** The walk down to the leftmost node of the right subtree: `node`'s in-order successor, and its parent. */
  method FindSuccessor(s: AddressSpace, node: VmArea, child: VmArea) returns (successor: VmArea, parent: VmArea)
    requires s.Tree().Tree() && node in s.span && s.span.Keys <= s.nodes && node.rbLeft != null && node.rbRight == child
    ensures Successor(s.Tree(), node, successor) && parent == Spine(s.Tree(), node, successor)
    ensures successor in s.nodes && parent in s.nodes
  {
    ghost var t := s.Tree();
    assert t.NodeOk(node) && t.NodeOk(child);
    successor, parent := child, child;
    while successor.rbLeft != null
      invariant successor in s.span && successor in s.nodes && parent in s.nodes
      invariant t.span[successor].lo == t.span[node].at + 1
      invariant if successor == child then parent == child else parent == successor.rbParent
      decreases t.span[successor].hi - t.span[successor].lo
    {
      assert t.NodeOk(successor);
      parent := successor;
      successor := successor.rbLeft;
      assert t.NodeOk(successor);
    }
  }

  /** `vma_rb_gap_copy` */
  method GapCopy(old_: VmArea, new_: VmArea)
    modifies new_`subtreeGap
    ensures new_.subtreeGap == old(old_.subtreeGap)
  {
    new_.subtreeGap := old_.subtreeGap;
  }

  /** Case 2 or the assignments of Case 3, and `vma_rb_gap_copy`. */
  method UnhookAndCopy(s: AddressSpace, node: VmArea, successor: VmArea, parent: VmArea, child: VmArea)
    requires {node, successor, parent, child} <= s.nodes && LinksOf(s.nodes)[node].right == child
    requires child != successor ==> LinksOf(s.nodes)[successor].parent == parent
                                    && UnhookSite(LinksOf(s.nodes), successor, parent, child)
    modifies parent`rbLeft, successor`rbRight, child`rbParent, successor`subtreeGap
    ensures FirstStage(old(LinksOf(s.nodes)), LinksOf(s.nodes), node, successor)
    ensures s.Gaps() == old(s.Gaps())[successor := old(s.Gaps())[node]]
  {
    if child != successor {
      AssignUnhook(s, successor, parent, child);
    }
    ghost var g := s.Gaps();
    GapCopy(node, successor);
    assert s.Gaps() == g[successor := g[node]];
  }

  /** The walk over the spine in Case 3, from the successor's old parent up to the successor. */
  method RefreshSpine(s: AddressSpace, node: VmArea, successor: VmArea, parent: VmArea, ghost a: State)
    requires s.PrevsKnown() && Erasable(a, node) && Successor(a.t, node, successor)
    requires a.t.links[node].right != successor && a.t.links[successor].parent == parent
    requires FirstStage(a.t.links, LinksOf(s.nodes), node, successor) && a.own == s.Own() && node in a.gaps
    requires s.Gaps() == a.gaps[successor := a.gaps[node]] && a.t.links.Keys == s.nodes
    modifies s.nodes`subtreeGap
    ensures 0 <= a.t.span[node].at < |a.t.order|
    ensures GapsOkBut(Promote(a.t, node, successor), a.own, s.Gaps(), {successor} + {successor})
  {
    hide Erasable, Successor, FirstStage, Promote, GapsOkBut, Walkable, SpineWalk, LinksOf, GapsOf, Shape.Tree;
    SpineReady(a, LinksOf(s.nodes), node, successor);
    ghost var t := Promote(a.t, node, successor);
    ghost var walk := SpineWalk(t, successor, parent);
    assert walk <= s.nodes;
    GapPropagate(s, parent, successor, t, walk, {successor});
  }

  /** Cases 2 and 3 up to the point where the successor is about to take `node`'s place. */
  method EraseFirstStage(s: AddressSpace, node: VmArea, successor: VmArea, parent: VmArea, child: VmArea)
    requires s.PrevsKnown() && Erasable(s.Now(), node) && Successor(s.Tree(), node, successor)
    requires parent == Spine(s.Tree(), node, successor) && child == s.Tree().links[node].right
    requires {node, successor, parent, child} <= s.nodes
    modifies s.nodes`rbLeft, s.nodes`rbRight, s.nodes`rbParent, s.nodes`subtreeGap
    ensures Staged(old(s.Now()), LinksOf(s.nodes), s.Gaps(), node, successor)
  {
    hide Erasable, Successor, Promote, LinksOf, GapsOf, ColoursOf, UnhookSite, FirstStage, GapsOkBut, Staged;
    ghost var a := s.Now();
    FirstSites(a, node, successor);
    SnapshotKeys(s.nodes);
    UnhookAndCopy(s, node, successor, parent, child);
    if child != successor {
      RefreshSpine(s, node, successor, parent, a);
    }
    SnapshotKeys(s.nodes);
    SpineDone(a, LinksOf(s.nodes), s.Gaps(), node, successor);
  }

  /** The assignments of Cases 2 and 3 from there on. */
  method PromoteInTree(s: AddressSpace, node: VmArea, successor: VmArea, parent: VmArea, child2: VmArea?, ghost a: State)
    returns (rebalance: VmArea?)
    requires s.PrevsKnown() && Erasable(a, node) && Successor(a.t, node, successor) && node in a.col && successor in a.col
    requires Staged(a, LinksOf(s.nodes), s.Gaps(), node, successor) && a.own == s.Own() && a.col == s.Colours()
    requires parent == Spine(a.t, node, successor) && child2 == a.t.links[successor].right
    requires a.t.root == s.root && a.t.links.Keys == s.nodes
    modifies s`root, s`order, s`span, s.nodes`rbLeft, s.nodes`rbRight, s.nodes`rbParent, s.nodes`rbBlack
    ensures node in a.t.span && 0 <= a.t.span[node].at < |a.t.order|
    ensures s.PrevsKnown() && s.Own() == a.own && s.Tree() == Promote(a.t, node, successor)
    ensures s.Colours() == PromoteColours(a.t, a.col, node, successor) && rebalance == PromoteShort(a.t, a.col, node, successor)
  {
    hide Erasable, Successor, Promote, LinksOf, GapsOf, ColoursOf, ReplaceSite, Replaced, FirstStage, GapsOkBut, AwaitsWalk;
    ghost var l := LinksOf(s.nodes);
    SecondSite(a, l, node, successor);
    rebalance := AssignReplace(s, node, successor, parent, child2);
    SecondLinks(a, l, node, successor);
    PromotedIs(a, l, LinksOf(s.nodes), node, successor);
    ghost var t := Promote(a.t, node, successor);
    s.order, s.span := t.order, t.span;
  }

  /** Cases 2 and 3 from there on. */
  method EraseSecondStage(s: AddressSpace, node: VmArea, successor: VmArea, parent: VmArea, child2: VmArea?, ghost a: State)
    returns (rebalance: VmArea?)
    requires s.PrevsKnown() && Erasable(a, node) && Successor(a.t, node, successor) && node in a.col && successor in a.col
    requires Staged(a, LinksOf(s.nodes), s.Gaps(), node, successor) && a.own == s.Own() && a.col == s.Colours()
    requires parent == Spine(a.t, node, successor) && child2 == a.t.links[successor].right
    requires a.t.root == s.root && a.t.links.Keys == s.nodes
    modifies s`root, s`order, s`span, s.nodes`rbLeft, s.nodes`rbRight, s.nodes`rbParent, s.nodes`rbBlack
    ensures AwaitsWalk(a, s.Now(), node, successor)
    ensures node in a.t.span && 0 <= a.t.span[node].at < |a.t.order| && s.Now() == PromoteState(a, node, successor).(gaps := s.Gaps())
    ensures rebalance == PromoteShort(a.t, a.col, node, successor)
  {
    hide Erasable, Successor, Promote, LinksOf, GapsOf, ColoursOf, Staged, AwaitsWalk, PromoteShort, PromoteColours;
    ghost var l := LinksOf(s.nodes);
    rebalance := PromoteInTree(s, node, successor, parent, child2, a);
    StagedParts(a, l, s.Gaps(), node, successor);
    PromoteAwaits(a, s.Now(), l, node, successor);
  }

  lemma StagedParts(a: State, l: map<VmArea, Link>, gaps: Gaps, node: VmArea, s: VmArea)
    requires Staged(a, l, gaps, node, s)
    ensures node in a.t.links && node in a.t.span && s in a.t.links && 0 <= a.t.span[node].at < |a.t.order|
  {
  }

  /** The walk up to the root that ends an erasure. */
  method EraseWalk(s: AddressSpace, node: VmArea, from: VmArea?, ghost a: State)
    requires s.PrevsKnown() && AwaitsWalk(a, s.Now(), node, from)
    modifies s.nodes`subtreeGap
    ensures Erased(a, s.Now(), node)
    ensures s.Now() == old(s.Now()).(gaps := s.Gaps())
  {
    hide AwaitsWalk, Walkable, GapsOkBut, LinksOf, GapsOf, ColoursOf, Erased, Shape.Tree;
    ghost var b := s.Now();
    WalkReady(a, b, node, from);
    SnapshotKeys(s.nodes);
    GapPropagate(s, from, null, b.t, b.t.span.Keys, {});
    SnapshotKeys(s.nodes);
    WalkErases(a, b, s.Now(), node, from);
  }

  /** Cases 2 and 3 of `rb_erase` with the successor found. */
  method EraseFound(s: AddressSpace, node: VmArea, child: VmArea, successor: VmArea, parent: VmArea, child2: VmArea?)
    returns (rebalance: VmArea?)
    requires s.PrevsKnown() && Erasable(s.Now(), node) && Successor(s.Tree(), node, successor)
    requires parent == Spine(s.Tree(), node, successor) && child == s.Tree().links[node].right
    requires {node, successor, parent, child} <= s.nodes && child2 == s.Tree().links[successor].right
    modifies s`root, s`order, s`span, s.nodes`rbLeft, s.nodes`rbRight, s.nodes`rbParent, s.nodes`rbBlack, s.nodes`subtreeGap
    ensures Erased(old(s.Now()), s.Now(), node)
    ensures rebalance != null <==> Shortens(old(s.Now()), node)
    ensures RedBlack(old(s.Tree()), old(s.Colours())) ==> Outcome(s.Now(), rebalance)
  {
    hide Shortens, Erasable, Successor, Staged, AwaitsWalk, Erased, RedBlack, Outcome, LinksOf, GapsOf, ColoursOf, Promote;
    ghost var a := s.Now();
    SnapshotKeys(s.nodes);
    EraseFirstStage(s, node, successor, parent, child);
    rebalance := EraseSecondStage(s, node, successor, parent, child2, a);
    ghost var b := s.Now();
    EraseWalk(s, node, successor, a);
    PromoteSettles(a, b, s.Now(), node, successor);
  }

  lemma ErasableHere(s: AddressSpace, node: VmArea)
    requires s.PrevsKnown() && Erasable(s.Now(), node) && node in s.nodes
    ensures s.Tree().Tree() && node in s.span && s.span.Keys <= s.nodes
  {
  }

  lemma LinkShown(nodes: set<VmArea>, v: VmArea)
    requires v in nodes
    ensures v in LinksOf(nodes) && LinksOf(nodes)[v] == Link(v.rbLeft, v.rbRight, v.rbParent)
  {
  }

  /**
   `rb_erase`: exactly `node` leaves the sequence, and all remaining caches are right. A node is returned exactly
   if a black node without children is cut off. Of a red-black tree a red-black tree remains if and only if null
   is returned; else the returned node has just one child, and the only defect is one missing black node at its
   empty link.
   */
  method RbErase(s: AddressSpace, node: VmArea) returns (rebalance: VmArea?)
    requires s.PrevsKnown() && Erasable(s.Now(), node) && node in s.nodes
    modifies s`root, s`order, s`span, s.nodes`rbLeft, s.nodes`rbRight, s.nodes`rbParent, s.nodes`rbBlack, s.nodes`subtreeGap
    ensures s.PrevsKnown() && Erased(old(s.Now()), s.Now(), node)
    ensures rebalance != null <==> Shortens(old(s.Now()), node)
    ensures RedBlack(old(s.Tree()), old(s.Colours())) ==>
              Outcome(s.Now(), rebalance) && (RedBlack(s.Tree(), s.Colours()) <==> rebalance == null)
  {
    hide Shortens, AwaitsWalk, Erased, Erasable, RedBlack, Outcome, LinksOf, GapsOf, ColoursOf, Splice, Successor;
    var child, tmp := node.rbRight, node.rbLeft;
    ghost var a := s.Now();
    LinkShown(s.nodes, node);
    ErasableHere(s, node);
    SnapshotKeys(s.nodes);
    if tmp == null || child == null {
      var only := if tmp == null then child else tmp;
      var parent := node.rbParent;
      SpliceAwaits(a, node, only);
      rebalance := EraseSplice(s, node, only);
      EraseWalk(s, node, parent, a);
      SpliceSettles(a, s.Now(), node, only);
    } else {
      TwoChildren(a, node);
      var successor, parent := FindSuccessor(s, node, child);
      LinkShown(s.nodes, successor);
      rebalance := EraseFound(s, node, child, successor, parent, successor.rbRight);
    }
    if RedBlack(a.t, a.col) { ErasedExact(a, s.Now(), node, rebalance); }
  }
}
