/** Concrete histories of operations on a small graph: the cascading removal
    of a publication with two parents, and how the cascade as written reaches
    the root once `add_citation` has given the root a parent. */
module Scenarios {
  import opened CitationGraphState

  /** The removal cascade as written: a publication goes once all its parents
      have gone, with no exception for the root. */
  ghost predicate OrphaningAsWritten(g: Store, s: set<Id>) {
    forall c :: c in g && g[c].par != {} && g[c].par <= s ==> c in s
  }

  /** While the root cites nothing, skipping the root changes nothing: the
      cascade as written and the corrected one select the same sets. */
  lemma GuardIdleWithoutRootParents(g: Store, root: Id, s: set<Id>)
    requires root in g && g[root].par == {}
    ensures Orphaning(g, root, s) <==> OrphaningAsWritten(g, s)
  {
  }

  /** Root 0, then `create(1, 0)`, then `add_citation(0, 1)`. */
  function RootCitesChild(): Store {
    Cited(Linked(map[0 := Fresh(0)][1 := Fresh(1)], 1, {0}), 0, 1)
  }

  /** After `add_citation(0, 1)` the root 0 has parent 1, so every set closed
      under the cascade as written that holds 1 also holds the root: as written,
      `remove(1)` erases the root. */
  lemma RootCascadeAsWritten()
    ensures WellFormed(RootCitesChild(), 0)
    ensures forall t :: 1 in t && OrphaningAsWritten(RootCitesChild(), t) ==> 0 in t
  {
    var g := RootCitesChild();
    CreateWellFormed(map[0 := Fresh(0)], 0, 1, {0});
    CitedWellFormed(Linked(map[0 := Fresh(0)][1 := Fresh(1)], 1, {0}), 0, 0, 1);
    assert g[0].par == {1};
    forall t | 1 in t && OrphaningAsWritten(g, t) ensures 0 in t {
      assert g[0].par <= t;
    }
  }

  /** The corrected cascade removes only 1 from the same graph and keeps the
      root, with the self-citation loop between them cut. */
  lemma RootCascadeCorrected()
    ensures IsRemovalClosure(RootCitesChild(), 0, 1, {1})
    ensures Pruned(RootCitesChild(), {1}) == map[0 := Fresh(0)]
  {
    var g := RootCitesChild();
    assert g.Keys == {0, 1};
    assert g[0].par == {1} && g[0].chi == {1};
    var h := Pruned(g, {1});
    assert h.Keys == {0};
    assert h[0] == Fresh(0);
  }

  /** Root 0 after `create(1, 0)`. */
  function OneChild(): Store {
    map[0 := Node(Publication(0), {}, {1}), 1 := Node(Publication(1), {0}, {})]
  }

  /** Then `create(2, 0)`. */
  function TwoChildren(): Store {
    map[0 := Node(Publication(0), {}, {1, 2}), 1 := Node(Publication(1), {0}, {}),
        2 := Node(Publication(2), {0}, {})]
  }

  /** Then `create(3, [1, 2])`. */
  function Diamond(): Store {
    map[0 := Node(Publication(0), {}, {1, 2}), 1 := Node(Publication(1), {0}, {3}),
        2 := Node(Publication(2), {0}, {3}), 3 := Node(Publication(3), {1, 2}, {})]
  }

  lemma OneChildBuilt()
    ensures Linked(map[0 := Fresh(0)][1 := Fresh(1)], 1, {0}) == OneChild()
    ensures WellFormed(OneChild(), 0)
  {
    CreateEffect(map[0 := Fresh(0)], 1, {0});
    CreateWellFormed(map[0 := Fresh(0)], 0, 1, {0});
    var l, r := Linked(map[0 := Fresh(0)][1 := Fresh(1)], 1, {0}), OneChild();
    assert l.Keys == r.Keys;
    assert l[0] == r[0] && l[1] == r[1];
  }

  lemma TwoChildrenBuilt()
    ensures Linked(OneChild()[2 := Fresh(2)], 2, {0}) == TwoChildren()
    ensures WellFormed(TwoChildren(), 0)
  {
    OneChildBuilt();
    CreateEffect(OneChild(), 2, {0});
    CreateWellFormed(OneChild(), 0, 2, {0});
    var l, r := Linked(OneChild()[2 := Fresh(2)], 2, {0}), TwoChildren();
    assert l.Keys == r.Keys;
    assert l[0] == r[0] && l[1] == r[1] && l[2] == r[2];
  }

  /** The store built by root 0, `create(1, 0)`, `create(2, 0)` and
      `create(3, [1, 2])` is `Diamond`, and it is well formed. */
  lemma DiamondBuilt()
    ensures Linked(TwoChildren()[3 := Fresh(3)], 3, {1, 2}) == Diamond()
    ensures WellFormed(Diamond(), 0)
  {
    TwoChildrenBuilt();
    CreateEffect(TwoChildren(), 3, {1, 2});
    CreateWellFormed(TwoChildren(), 0, 3, {1, 2});
    var l, r := Linked(TwoChildren()[3 := Fresh(3)], 3, {1, 2}), Diamond();
    assert l.Keys == r.Keys;
    assert l[0] == r[0] && l[1] == r[1] && l[2] == r[2] && l[3] == r[3];
  }

  /** `remove(1)` removes 1 alone and leaves 3 with parent 2. */
  lemma DiamondFirstRemoval()
    ensures IsRemovalClosure(Diamond(), 0, 1, {1})
    ensures Pruned(Diamond(), {1}) == map[0 := Node(Publication(0), {}, {2}),
                                          2 := Node(Publication(2), {0}, {3}),
                                          3 := Node(Publication(3), {2}, {})]
  {
    var g, h := Diamond(), Pruned(Diamond(), {1});
    var r := map[0 := Node(Publication(0), {}, {2}), 2 := Node(Publication(2), {0}, {3}),
                 3 := Node(Publication(3), {2}, {})];
    assert h.Keys == r.Keys;
    assert h[0].chi == g[0].chi - {1} == {2};
    assert h[3].par == g[3].par - {1} == {2};
    assert h[0] == r[0] && h[2] == r[2] && h[3] == r[3];
    assert 0 !in {1} && 2 !in {1};
    assert Orphaning(g, 0, {1});
  }

  /** A later `remove(2)` takes 3 with it, since 3 has no parent left, and
      leaves the root alone. */
  lemma DiamondSecondRemoval()
    ensures var h := Pruned(Diamond(), {1});
      && IsRemovalClosure(h, 0, 2, {2, 3})
      && Pruned(h, {2, 3}) == map[0 := Fresh(0)]
  {
    DiamondFirstRemoval();
    var h := Pruned(Diamond(), {1});
    forall t | 2 in t && Orphaning(h, 0, t) ensures {2, 3} <= t {
      assert h[3].par <= t;
    }
    var k := Pruned(h, {2, 3});
    assert k.Keys == {0};
    assert k[0].chi == h[0].chi - {2, 3} == {};
    assert k[0] == Fresh(0);
    assert 0 !in {2, 3};
    assert Orphaning(h, 0, {2, 3});
  }
}
