/**
 The records of the areas in the heap, as values.
 */
module AreaViews {
  import opened VmAreas
  import opened HostMemory
  import opened Regions

  ghost function RecOf(v: VmArea): Rec
    reads v`start, v`end, v`prot, v`flags, v`file, v`pageOffset
  {
    Rec(v.start, v.end, v.prot, Essential(v.flags), v.file, v.pageOffset)
  }

  type Recs = map<VmArea, Rec>

  ghost function RecsOf(s: set<VmArea>): Recs
    reads s`start, s`end, s`prot, s`flags, s`file, s`pageOffset
  {
    map v | v in s :: RecOf(v)
  }

  /** The areas without their identity. */
  ghost function Values(m: Recs): Regions {
    set v | v in m :: m[v]
  }

  lemma RecsHave(s: set<VmArea>, v: VmArea)
    requires v in s
    ensures v in RecsOf(s) && RecsOf(s)[v] == RecOf(v) && RecsOf(s).Keys == s
  {
  }

  /** The records of all but some. */
  lemma RecsWithout(s: set<VmArea>, some: set<VmArea>)
    ensures RecsOf(s - some) == RecsOf(s) - some
  {
  }

  lemma RecsUpdated(s: set<VmArea>, m: Recs, v: VmArea)
    requires v in s && v in m && RecsOf(s - {v}) == m - {v}
    ensures RecsOf(s) == m[v := RecOf(v)]
  {
    var n := RecsOf(s);
    RecsWithout(s, {v});
    forall w | w in n && w != v
      ensures w in m && n[w] == m[w]
    {
      assert w in n - {v} && (m - {v})[w] == (n - {v})[w];
    }
    forall w | w in m && w != v
      ensures w in n
    {
      assert w in m - {v};
    }
  }

  lemma RecsAdded(s: set<VmArea>, v: VmArea)
    requires v !in s
    ensures RecsOf(s + {v}) == RecsOf(s)[v := RecOf(v)]
  {
  }

  // ---------------------------------------------------------------- splitting

  /** The records after `vma_split`. */
  ghost function SplitRecs(m: Recs, v: VmArea, piece: VmArea, addr: int, below: bool): Recs
    requires v in m
  {
    m[v := if below then Upper(m[v], addr) else Lower(m[v], addr)][piece := if below then Lower(m[v], addr) else Upper(m[v], addr)]
  }

  /** Splitting the only area across `cut` cuts the areas there. */
  lemma SplitValues(m: Recs, v: VmArea, piece: VmArea, cut: int, below: bool)
    requires v in m && piece !in m && Straddles(m[v], cut) && forall w :: w in m && w != v ==> !Straddles(m[w], cut)
    ensures Values(SplitRecs(m, v, piece, cut, below)) == Parted(Values(m), cut)
  {
    hide Parted, Lower, Upper;
    var n := SplitRecs(m, v, piece, cut, below);
    assert n.Keys == m.Keys + {piece};
    assert forall w :: w in m && w != v ==> n[w] == m[w];
    assert {n[v], n[piece]} == {Lower(m[v], cut), Upper(m[v], cut)};
    forall r
      ensures r in Values(n) <==> r in Parted(Values(m), cut)
    {
      InParted(Values(m), cut, r);
      if w :| w in m && w != v && m[w] == r { assert w in n && n[w] == r; }
      assert m[v] in Values(m);
    }
  }

  /** Taking away the areas of a range that no area crosses an end of. */
  lemma OutsideValues(m: Recs, gone: set<VmArea>, lo: int, hi: int)
    requires lo < hi && forall v :: v in m ==> m[v].start < m[v].end
    requires forall v :: v in m && v in gone ==> lo <= m[v].start && m[v].end <= hi
    requires forall v :: v in m && v !in gone ==> m[v].end <= lo || hi <= m[v].start
    ensures Values(m - gone) == Beyond(Values(m), lo, hi)
  {
    var n := m - gone;
    forall r
      ensures r in Values(n) <==> r in Beyond(Values(m), lo, hi)
    {
      if w :| w in m && m[w] == r && w !in gone { assert w in n && n[w] == r; }
    }
  }

  // ---------------------------------------------------------------- changing and adding

  lemma AddedValues(m: Recs, v: VmArea, r: Rec)
    requires v !in m
    ensures Values(m[v := r]) == Values(m) + {r}
  {
    var n := m[v := r];
    forall q
      ensures q in Values(n) <==> q in Values(m) + {r}
    {
      if w :| w in m && m[w] == q { assert w in n && n[w] == q; }
      assert n[v] == r;
    }
  }

  /** No other area has the record of `v`. */
  ghost predicate Unique(m: Recs, v: VmArea) {
    v in m && forall w :: w in m && w != v ==> m[w] != m[v]
  }

  lemma ChangedValues(m: Recs, v: VmArea, r: Rec)
    requires Unique(m, v)
    ensures Values(m[v := r]) == Values(m) - {m[v]} + {r}
  {
    var n := m[v := r];
    forall q
      ensures q in Values(n) <==> q in Values(m) - {m[v]} + {r}
    {
      if w :| w in m && w != v && m[w] == q { assert w in n && n[w] == q; }
      assert n[v] == r;
    }
  }

  lemma RemovedValues(m: Recs, v: VmArea)
    requires Unique(m, v)
    ensures Values(m - {v}) == Values(m) - {m[v]}
  {
    var n := m - {v};
    forall q
      ensures q in Values(n) <==> q in Values(m) - {m[v]}
    {
      if w :| w in m && w != v && m[w] == q { assert w in n && n[w] == q; }
    }
  }
}
