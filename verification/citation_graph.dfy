/** The citation graph engine: one store of publications keyed by id, each
    with the sets of its parents (cited) and children (citing), and one root
    publication created with the graph. */
module CitationGraphs {
  import opened CitationGraphState
  import opened Cascade

  ghost predicate Increasing(xs: seq<Id>) {
    forall i, j :: 0 <= i < j < |xs| ==> xs[i] < xs[j]
  }

  /** Every non-empty set of ids has a least element. */
  lemma {:induction false} MinExists(s: set<Id>)
    requires s != {}
    ensures exists m :: m in s && forall y :: y in s ==> m <= y
  {
    NonEmptySet(s);
    var x :| x in s;
    var rest := s - {x};
    if rest == {} {
      forall y | y in s ensures x <= y {
        assert y !in rest;
      }
    } else {
      MinExists(rest);
      var m :| m in rest && forall y :: y in rest ==> m <= y;
      var least := if x < m then x else m;
      forall y | y in s ensures least <= y {
        if y != x {
          assert y in rest;
        }
      }
      assert least in s;
    }
  }

  /** The ids of `s` in ascending order, as iterating an ordered set yields them. */
  method SortedElements(s: set<Id>) returns (xs: seq<Id>)
    ensures Increasing(xs)
    ensures Elems(xs) == s
  {
    xs := [];
    var rest := s;
    while rest != {}
      invariant rest <= s
      invariant Elems(xs) + rest == s
      invariant Increasing(xs)
      invariant forall i, y :: 0 <= i < |xs| && y in rest ==> xs[i] < y
      decreases rest
    {
      MinExists(rest);
      var m :| m in rest && forall y :: y in rest ==> m <= y;
      assert Elems(xs + [m]) == Elems(xs) + {m};
      xs := xs + [m];
      rest := rest - {m};
    }
  }

  class CitationGraph {
    var root: Id
    var nodes: Store

    ghost predicate Valid()
      reads this
    {
      WellFormed(nodes, root)
    }

    /** A graph holding only the root publication `stemId`. */
    constructor (stemId: Id)
      ensures Valid()
      ensures root == stemId && nodes == map[stemId := Fresh(stemId)]
      ensures GetRootId() == stemId
    {
      root := stemId;
      nodes := map[stemId := Fresh(stemId)];
    }

    /** The id read from the root's payload. */
    function GetRootId(): (r: Id)
      reads this
      requires Valid()
      ensures r == root && Exists(r)
    {
      nodes[root].pub.id
    }

    /** Whether a publication with this id is stored. */
    function Exists(id: Id): (b: bool)
      reads this
      ensures Valid() ==> (b <==> exists n :: n in nodes.Values && n.pub.id == id)
    {
      StoredIff(nodes, root, id);
      id in nodes
    }

    /** The stored publication with this id (`operator[]`). */
    function Lookup(id: Id): (r: Result<Publication>)
      reads this
      ensures r.Success? <==> Exists(id)
      ensures r.Failure? ==> r.error == PublicationNotFound
      ensures Valid() && r.Success? ==> r.value.id == id
    {
      if !Exists(id) then Failure(PublicationNotFound) else Success(nodes[id].pub)
    }

    /** The publications citing `id`, ascending. */
    method GetChildren(id: Id) returns (r: Result<seq<Id>>)
      ensures r.Failure? <==> !Exists(id)
      ensures r.Failure? ==> r.error == PublicationNotFound
      ensures r.Success? ==> id in nodes && Increasing(r.value) && Elems(r.value) == nodes[id].chi
    {
      if !Exists(id) {
        return Failure(PublicationNotFound);
      }
      var xs := SortedElements(nodes[id].chi);
      return Success(xs);
    }

    /** The publications `id` cites, ascending. */
    method GetParents(id: Id) returns (r: Result<seq<Id>>)
      ensures r.Failure? <==> !Exists(id)
      ensures r.Failure? ==> r.error == PublicationNotFound
      ensures r.Success? ==> id in nodes && Increasing(r.value) && Elems(r.value) == nodes[id].par
    {
      if !Exists(id) {
        return Failure(PublicationNotFound);
      }
      var xs := SortedElements(nodes[id].par);
      return Success(xs);
    }

    /** Links `nw` as a child of `parentIds[cur..]`, one parent at a time. */
    method CreateHelper(nw: Id, parentIds: seq<Id>, cur: nat)
      requires cur < |parentIds|
      requires nw in nodes
      requires forall j :: cur <= j < |parentIds| ==> parentIds[j] in nodes && parentIds[j] != nw
      modifies this
      ensures root == old(root)
      ensures nodes == Linked(old(nodes), nw, Elems(parentIds[cur..]))
      decreases |parentIds| - cur
    {
      var p := parentIds[cur];
      nodes := nodes[nw := nodes[nw].(par := nodes[nw].par + {p})];
      nodes := nodes[p := nodes[p].(chi := nodes[p].chi + {nw})];
      ghost var step := nodes;
      assert step == Linked(old(nodes), nw, {p});
      if cur + 1 < |parentIds| {
        CreateHelper(nw, parentIds, cur + 1);
        LinkedCompose(old(nodes), nw, {p}, Elems(parentIds[cur + 1..]));
        assert Elems(parentIds[cur..]) == {p} + Elems(parentIds[cur + 1..]);
      } else {
        assert Elems(parentIds[cur..]) == {p};
      }
    }

    /** Creates publication `id` citing every publication of `parentIds`. */
    method Create(id: Id, parentIds: seq<Id>) returns (r: Outcome)
      requires Valid()
      modifies this
      ensures Valid() && root == old(root)
      ensures r == Fail(PublicationAlreadyCreated) <==> id in old(nodes)
      ensures r == Fail(PublicationNotFound) <==>
        id !in old(nodes) && (parentIds == [] || exists i :: 0 <= i < |parentIds| && parentIds[i] !in old(nodes))
      ensures r.Pass? <==>
        id !in old(nodes) && parentIds != [] && forall i :: 0 <= i < |parentIds| ==> parentIds[i] in old(nodes)
      ensures r.Fail? ==> nodes == old(nodes)
      ensures r.Pass? ==> nodes == Linked(old(nodes)[id := Fresh(id)], id, Elems(parentIds))
    {
      if Exists(id) {
        return Fail(PublicationAlreadyCreated);
      }
      for i := 0 to |parentIds|
        invariant forall j :: 0 <= j < i ==> parentIds[j] in nodes
      {
        if !Exists(parentIds[i]) {
          return Fail(PublicationNotFound);
        }
      }
      if |parentIds| == 0 {
        return Fail(PublicationNotFound);
      }
      nodes := nodes[id := Fresh(id)];
      CreateHelper(id, parentIds, 0);
      assert parentIds[0..] == parentIds;
      assert parentIds[0] in Elems(parentIds);
      CreateWellFormed(old(nodes), root, id, Elems(parentIds));
      return Pass;
    }

    /** Creates publication `id` citing `parentId`: a one-element `Create`. */
    method CreateOne(id: Id, parentId: Id) returns (r: Outcome)
      requires Valid()
      modifies this
      ensures Valid() && root == old(root)
      ensures r == Fail(PublicationAlreadyCreated) <==> id in old(nodes)
      ensures r == Fail(PublicationNotFound) <==> id !in old(nodes) && parentId !in old(nodes)
      ensures r.Pass? <==> id !in old(nodes) && parentId in old(nodes)
      ensures r.Fail? ==> nodes == old(nodes)
      ensures r.Pass? ==> nodes == Linked(old(nodes)[id := Fresh(id)], id, {parentId})
    {
      r := Create(id, [parentId]);
      assert Elems([parentId]) == {parentId};
    }

    /** Adds the edge "`childId` cites `parentId`". */
    method AddCitation(childId: Id, parentId: Id) returns (r: Outcome)
      requires Valid()
      modifies this
      ensures Valid() && root == old(root)
      ensures r.Fail? <==> childId !in old(nodes) || parentId !in old(nodes)
      ensures r.Fail? ==> r.error == PublicationNotFound && nodes == old(nodes)
      ensures r.Pass? ==> nodes == Cited(old(nodes), childId, parentId)
    {
      if !Exists(childId) || !Exists(parentId) {
        return Fail(PublicationNotFound);
      }
      nodes := nodes[childId := nodes[childId].(par := nodes[childId].par + {parentId})];
      nodes := nodes[parentId := nodes[parentId].(chi := nodes[parentId].chi + {childId})];
      CitedWellFormed(old(nodes), root, childId, parentId);
      return Pass;
    }

    /** The cascade of a removal of `id`, computed without changing the store:
        the publications to erase, each once, and the edge halves to cut.
        A counter per publication records how many of its parents are gone;
        `id` starts one short of its parent count. */
    method FindLost(id: Id) returns (toErase: seq<Id>, famErase: set<Cut>)
      requires Valid()
      requires id in nodes && id != root
      ensures IsRemovalClosure(nodes, root, id, Elems(toErase))
      ensures |toErase| == |Elems(toErase)|
      ensures forall c :: c in famErase <==> c.elem in Elems(toErase) && Incident(nodes, c)
    {
      CascadeStart(nodes, root, id);
      var parErased: map<Id, nat> := map[id := |nodes[id].par| - 1];
      var work: multiset<Id> := multiset{id};
      toErase, famErase := [], {};
      ghost var marked: set<Id> := {};
      while work != multiset{}
        invariant marked == Elems(toErase)
        invariant |toErase| == |marked|
        invariant CascadeInv(nodes, root, id, parErased, work, marked, famErase)
        decreases nodes.Keys - marked, |work|
      {
        NonEmptyMultiset(work);
        var cur :| cur in work;
        var count := Counter(parErased, cur) + 1;
        if cur != root && count == |nodes[cur].par| {
          CascadeExpand(nodes, root, id, parErased, work, marked, famErase, cur);
          ElemsSnoc(toErase, cur);
          toErase := toErase + [cur];
          famErase := famErase + CutsAt(nodes, cur);
          work := work - multiset{cur} + multiset(nodes[cur].chi);
          marked := marked + {cur};
        } else {
          CascadeVisit(nodes, root, id, parErased, work, marked, famErase, cur);
          work := work - multiset{cur};
        }
        parErased := parErased[cur := count];
      }
      CascadeDone(nodes, root, id, parErased, marked, famErase);
    }

    /** Applies every cut of `cuts`: each removes one id from the parent or
        child set of its owner. */
    method CutEdges(cuts: set<Cut>)
      requires forall c :: c in cuts ==> c.owner in nodes
      modifies this
      ensures root == old(root)
      ensures nodes == ApplyCuts(old(nodes), cuts)
    {
      ApplyNoCuts(nodes);
      ghost var g := nodes;
      var pending := cuts;
      assert cuts - pending == {};
      while pending != {}
        invariant pending <= cuts
        invariant root == old(root)
        invariant nodes == ApplyCuts(g, cuts - pending)
        decreases pending
      {
        NonEmptyCuts(pending);
        var cut :| cut in pending;
        ApplyCutsKeys(g, cuts - pending);
        ApplyCutsStep(g, cuts - pending, cut);
        MoveOne(cuts, pending, cut);
        if cut.side == ParSide {
          nodes := nodes[cut.owner := nodes[cut.owner].(par := nodes[cut.owner].par - {cut.elem})];
        } else {
          nodes := nodes[cut.owner := nodes[cut.owner].(chi := nodes[cut.owner].chi - {cut.elem})];
        }
        pending := pending - {cut};
      }
      assert cuts - pending == cuts;
    }

    /** Erases the publications of `xs` from the store, in order. */
    method EraseAll(xs: seq<Id>)
      modifies this
      ensures root == old(root)
      ensures nodes == old(nodes) - Elems(xs)
    {
      for i := 0 to |xs|
        invariant root == old(root)
        invariant nodes == old(nodes) - Elems(xs[..i])
      {
        ElemsPrefix(xs, i);
        EraseOneMore(old(nodes), Elems(xs[..i]), xs[i]);
        nodes := nodes - {xs[i]};
      }
      assert xs[..|xs|] == xs;
    }

    /** Removes publication `id` and, transitively, every publication left
        with no parent outside the removed set. */
    method Remove(id: Id) returns (r: Outcome)
      requires Valid()
      modifies this
      ensures Valid() && root == old(root)
      ensures r == Fail(PublicationNotFound) <==> id !in old(nodes)
      ensures r == Fail(TriedToRemoveRoot) <==> id in old(nodes) && id == old(root)
      ensures r.Pass? <==> id in old(nodes) && id != old(root)
      ensures r.Fail? ==> nodes == old(nodes)
      ensures r.Pass? ==>
        exists s :: IsRemovalClosure(old(nodes), root, id, s) && nodes == Pruned(old(nodes), s)
    {
      if !Exists(id) {
        return Fail(PublicationNotFound);
      }
      if id == GetRootId() {
        return Fail(TriedToRemoveRoot);
      }
      var toErase, famErase := FindLost(id);
      ghost var g, s := nodes, Elems(toErase);
      RootNeverRemoved(g, root, id, s);
      forall c | c in famErase ensures c.owner in nodes {
        IncidentOwner(g, root, c);
      }
      CutEdges(famErase);
      EraseAll(toErase);
      CutsThenErase(g, root, s, famErase);
      PrunedWellFormed(g, root, s);
      return Pass;
    }
  }
}
