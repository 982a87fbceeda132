/** The node store of a citation graph, as values: the well-formedness
    invariant, the effect of each mutating operation on the store, and the
    set of publications a cascading removal deletes. */
module CitationGraphState {

  /** Publication identifiers; ordered, so that neighbour lists come out sorted. */
  type Id = int

  /** The payload: only its identifier matters to the graph. */
  datatype Publication = Publication(id: Id)

  /** A stored publication with the ids of the publications it cites (`par`)
      and of the publications citing it (`chi`). */
  datatype Node = Node(pub: Publication, par: set<Id>, chi: set<Id>)

  datatype Error = PublicationAlreadyCreated | PublicationNotFound | TriedToRemoveRoot

  datatype Result<T> = Success(value: T) | Failure(error: Error)

  datatype Outcome = Pass | Fail(error: Error)

  type Store = map<Id, Node>

  /** A node as `Node(id)` builds it: payload made from the id, no edges. */
  function Fresh(id: Id): Node {
    Node(Publication(id), {}, {})
  }

  function Elems(xs: seq<Id>): set<Id> {
    set x | x in xs
  }

  lemma ElemsSnoc(xs: seq<Id>, x: Id)
    ensures Elems(xs + [x]) == Elems(xs) + {x}
  {
  }

  lemma ElemsPrefix(xs: seq<Id>, i: nat)
    requires i < |xs|
    ensures Elems(xs[..i + 1]) == Elems(xs[..i]) + {xs[i]}
  {
    assert xs[..i + 1] == xs[..i] + [xs[i]];
    ElemsSnoc(xs[..i], xs[i]);
  }

  /** Erasing keys one more at a time. */
  lemma EraseOneMore(m: Store, a: set<Id>, x: Id)
    ensures (m - a) - {x} == m - (a + {x})
  {
  }

  /** Moving one element from the pending part `p` of `a` to the done part. */
  lemma MoveOne<T>(a: set<T>, p: set<T>, x: T)
    requires x in p && p <= a
    ensures a - (p - {x}) == (a - p) + {x}
  {
  }

  /** p is a parent of c exactly when c is a child of p. */
  ghost predicate Symmetric(g: Store) {
    forall c, p :: c in g && p in g ==> (p in g[c].par <==> c in g[p].chi)
  }

  ghost predicate WellFormed(g: Store, root: Id) {
    && root in g
    && (forall k :: k in g ==> g[k].pub.id == k)
    && (forall k :: k in g ==> g[k].par <= g.Keys && g[k].chi <= g.Keys)
    && Symmetric(g)
    && (forall k :: k in g && k != root ==> g[k].par != {})
  }

  /** In a well-formed store, an id is a key exactly when a stored payload carries it. */
  lemma StoredIff(g: Store, root: Id, id: Id)
    ensures WellFormed(g, root) ==> (id in g <==> exists n :: n in g.Values && n.pub.id == id)
  {
    if WellFormed(g, root) {
      if id in g {
        assert g[id] in g.Values;
      }
      forall n | n in g.Values && n.pub.id == id ensures id in g {
        if forall k :: k in g ==> g[k] != n {
          assert false;
        }
        var k :| k in g && g[k] == n;
      }
    }
  }

  // ---------------------------------------------------------------- create

  /** The store after linking `id` as a child of every publication in `ps`. */
  function Linked(g: Store, id: Id, ps: set<Id>): Store {
    map k | k in g ::
      if k == id then g[k].(par := g[k].par + ps)
      else if k in ps then g[k].(chi := g[k].chi + {id})
      else g[k]
  }

  /** Linking parents one at a time is linking them all at once. */
  lemma LinkedCompose(g: Store, id: Id, a: set<Id>, b: set<Id>)
    requires id !in a && id !in b
    ensures Linked(Linked(g, id, a), id, b) == Linked(g, id, a + b)
  {
    var l, r := Linked(Linked(g, id, a), id, b), Linked(g, id, a + b);
    assert l.Keys == r.Keys;
    forall k | k in l ensures l[k] == r[k] {
      if k == id {
        assert l[k].par == g[k].par + a + b;
      }
    }
  }

  /** What a successful `create(id, ps)` does to the store: one new node,
      whose parents are exactly `ps` and which has no children; `id` joins the
      children of each parent; nothing else changes. */
  lemma CreateEffect(g: Store, id: Id, ps: set<Id>)
    requires id !in g && ps <= g.Keys
    ensures var h := Linked(g[id := Fresh(id)], id, ps);
      && h.Keys == g.Keys + {id}
      && h[id] == Node(Publication(id), ps, {})
      && (forall p :: p in ps ==> h[p] == g[p].(chi := g[p].chi + {id}))
      && (forall k :: k in g && k !in ps ==> h[k] == g[k])
  {
    var h := Linked(g[id := Fresh(id)], id, ps);
    assert h[id].par == {} + ps;
  }

  lemma CreateWellFormed(g: Store, root: Id, id: Id, ps: set<Id>)
    requires WellFormed(g, root)
    requires id !in g && ps <= g.Keys && ps != {}
    ensures WellFormed(Linked(g[id := Fresh(id)], id, ps), root)
  {
    var h := Linked(g[id := Fresh(id)], id, ps);
    CreateEffect(g, id, ps);
    forall c, p | c in h && p in h ensures p in h[c].par <==> c in h[p].chi {
      if c != id && p != id {
        assert h[c].par == g[c].par && (h[p].chi == g[p].chi || h[p].chi == g[p].chi + {id});
      }
    }
  }

  // ---------------------------------------------------------- add_citation

  /** The store after `add_citation(c, p)`: `p` joins the parents of `c`, then
      `c` joins the children of `p` (the same node when c == p). */
  function Cited(g: Store, c: Id, p: Id): Store
    requires c in g && p in g
  {
    var g1 := g[c := g[c].(par := g[c].par + {p})];
    g1[p := g1[p].(chi := g1[p].chi + {c})]
  }

  lemma CitedEffect(g: Store, c: Id, p: Id)
    requires c in g && p in g
    ensures var h := Cited(g, c, p);
      && h.Keys == g.Keys
      && h[c].par == g[c].par + {p} && p in h[c].par
      && h[p].chi == g[p].chi + {c} && c in h[p].chi
      && (c != p ==> h[c].chi == g[c].chi && h[p].par == g[p].par)
      && (forall k :: k in g && k != c && k != p ==> h[k] == g[k])
  {
  }

  lemma CitedWellFormed(g: Store, root: Id, c: Id, p: Id)
    requires WellFormed(g, root) && c in g && p in g
    ensures WellFormed(Cited(g, c, p), root)
  {
    var h := Cited(g, c, p);
    CitedEffect(g, c, p);
    forall x, y | x in h && y in h ensures y in h[x].par <==> x in h[y].chi {
      if x == c && y == p {
      } else {
        assert y in h[x].par <==> y in g[x].par;
        assert x in h[y].chi <==> x in g[y].chi;
      }
    }
  }

  /** Adding a citation twice is adding it once. */
  lemma {:induction false} CitedIdempotent(g: Store, c: Id, p: Id)
    requires c in g && p in g
    ensures Cited(Cited(g, c, p), c, p) == Cited(g, c, p)
  {
    var h := Cited(g, c, p);
    CitedEffect(g, c, p);
    CitedEffect(h, c, p);
    var h2 := Cited(h, c, p);
    forall k | k in h ensures h2[k] == h[k] {
      if k == c && k == p {
        assert h2[k].par == h[k].par && h2[k].chi == h[k].chi;
      } else if k == c {
        assert h2[k].par == h[k].par;
      } else if k == p {
        assert h2[k].chi == h[k].chi;
      }
    }
  }

  /** Citing an existing edge changes nothing. */
  lemma CitedExisting(g: Store, root: Id, c: Id, p: Id)
    requires WellFormed(g, root) && c in g && p in g && p in g[c].par
    ensures Cited(g, c, p) == g
  {
    var h := Cited(g, c, p);
    CitedEffect(g, c, p);
    assert c in g[p].chi;
    forall k | k in g ensures h[k] == g[k] {
      if k == c || k == p {
        assert h[k].par == g[k].par && h[k].chi == g[k].chi;
      }
    }
  }

  // ---------------------------------------------------------------- remove

  /** `s` already holds every non-root publication all of whose parents are in `s`. */
  ghost predicate Orphaning(g: Store, root: Id, s: set<Id>) {
    forall c :: c in g && c != root && g[c].par != {} && g[c].par <= s ==> c in s
  }

  /** `s` is the least set that contains `id` and is closed under orphaning:
      the publications a removal of `id` deletes. */
  ghost predicate IsRemovalClosure(g: Store, root: Id, id: Id, s: set<Id>) {
    && id in s
    && s <= g.Keys
    && Orphaning(g, root, s)
    && (forall t :: id in t && Orphaning(g, root, t) ==> s <= t)
  }

  /** The removal closure of a publication is unique. */
  lemma ClosureUnique(g: Store, root: Id, id: Id, s1: set<Id>, s2: set<Id>)
    requires IsRemovalClosure(g, root, id, s1) && IsRemovalClosure(g, root, id, s2)
    ensures s1 == s2
  {
  }

  /** Removing a non-root publication never removes the root. */
  lemma RootNeverRemoved(g: Store, root: Id, id: Id, s: set<Id>)
    requires root in g && id in g && id != root
    requires IsRemovalClosure(g, root, id, s)
    ensures root !in s
  {
    assert Orphaning(g, root, g.Keys - {root});
  }

  /** The store once every publication in `s` is erased, together with every
      edge to or from it. */
  function Pruned(g: Store, s: set<Id>): Store {
    map k | k in g && k !in s :: g[k].(par := g[k].par - s, chi := g[k].chi - s)
  }

  /** Pruning a removal closure keeps the store well formed: edges stay
      symmetric and every surviving non-root publication keeps a parent. */
  lemma PrunedWellFormed(g: Store, root: Id, s: set<Id>)
    requires WellFormed(g, root) && Orphaning(g, root, s) && root !in s
    ensures WellFormed(Pruned(g, s), root)
  {
    var h := Pruned(g, s);
    forall k | k in h && k != root ensures h[k].par != {} {
      assert !(g[k].par <= s);
      NotSubset(g[k].par, s);
    }
  }

  /** A non-empty set has an element. */
  lemma NonEmptySet(s: set<Id>)
    requires s != {}
    ensures exists x :: x in s
  {
    if forall x :: x !in s {
      assert false;
    }
  }

  /** A non-empty set of cuts has an element. */
  lemma NonEmptyCuts(s: set<Cut>)
    requires s != {}
    ensures exists c :: c in s
  {
    if forall c :: c !in s {
      assert false;
    }
  }

  /** A non-empty multiset has an element. */
  lemma NonEmptyMultiset(s: multiset<Id>)
    requires s != multiset{}
    ensures exists x :: x in s
  {
    if forall x :: x !in s {
      assert false;
    }
  }

  /** A set that is not inside `b` has an element outside `b`. */
  lemma NotSubset(a: set<Id>, b: set<Id>)
    requires !(a <= b)
    ensures a - b != {}
  {
    if a - b == {} {
      forall x | x in a ensures x in b {
        assert x !in a - b;
      }
    }
  }

  /** Which side of a neighbour's edge sets a cut erases from. */
  datatype Side = ParSide | ChiSide

  /** An entry of the list of edge cuts: erase `elem` from the `side` set of `owner`. */
  datatype Cut = Cut(owner: Id, side: Side, elem: Id)

  /** `cut` undoes one half of an edge incident to its `elem`: for a parent
      `owner` of `elem`, `elem` leaves `owner`'s children; for a child, its parents. */
  ghost predicate Incident(g: Store, cut: Cut) {
    cut.elem in g &&
    match cut.side
    case ChiSide => cut.owner in g[cut.elem].par
    case ParSide => cut.owner in g[cut.elem].chi
  }

  function CutElems(cs: set<Cut>, k: Id, side: Side): set<Id> {
    set c | c in cs && c.owner == k && c.side == side :: c.elem
  }

  /** The store after every cut in `cs` has been applied. */
  function ApplyCuts(g: Store, cs: set<Cut>): Store {
    map k | k in g :: g[k].(par := g[k].par - CutElems(cs, k, ParSide), chi := g[k].chi - CutElems(cs, k, ChiSide))
  }

  /** Applying one more cut to a store. */
  function ApplyCut(g: Store, c: Cut): Store {
    if c.owner !in g then g
    else match c.side
      case ParSide => g[c.owner := g[c.owner].(par := g[c.owner].par - {c.elem})]
      case ChiSide => g[c.owner := g[c.owner].(chi := g[c.owner].chi - {c.elem})]
  }

  lemma ApplyCutsStep(g: Store, cs: set<Cut>, c: Cut)
    ensures ApplyCuts(g, cs + {c}) == ApplyCut(ApplyCuts(g, cs), c)
  {
    var l, r := ApplyCuts(g, cs + {c}), ApplyCut(ApplyCuts(g, cs), c);
    forall k | k in g ensures l[k] == r[k] {
      assert CutElems(cs + {c}, k, ParSide) == CutElems(cs, k, ParSide) + (if c.owner == k && c.side == ParSide then {c.elem} else {});
      assert CutElems(cs + {c}, k, ChiSide) == CutElems(cs, k, ChiSide) + (if c.owner == k && c.side == ChiSide then {c.elem} else {});
    }
  }

  /** The owner of an edge half incident to a stored publication is stored. */
  lemma IncidentOwner(g: Store, root: Id, c: Cut)
    requires WellFormed(g, root) && Incident(g, c)
    ensures c.owner in g
  {
  }

  /** Cutting edges keeps every publication. */
  lemma ApplyCutsKeys(g: Store, cs: set<Cut>)
    ensures ApplyCuts(g, cs).Keys == g.Keys
  {
  }

  lemma ApplyNoCuts(g: Store)
    ensures ApplyCuts(g, {}) == g
  {
    forall k | k in g ensures ApplyCuts(g, {})[k] == g[k] {
      assert CutElems({}, k, ParSide) == {} && CutElems({}, k, ChiSide) == {};
    }
  }

  /** Cutting every edge incident to `s` and then erasing `s` prunes `s`. */
  lemma CutsThenErase(g: Store, root: Id, s: set<Id>, cs: set<Cut>)
    requires WellFormed(g, root) && s <= g.Keys
    requires forall c :: c in cs <==> c.elem in s && Incident(g, c)
    ensures ApplyCuts(g, cs) - s == Pruned(g, s)
  {
    var l, r := ApplyCuts(g, cs) - s, Pruned(g, s);
    forall k | k in r ensures l[k] == r[k] {
      forall x | x in g[k].par ensures x in CutElems(cs, k, ParSide) <==> x in s {
        assert k in g[x].chi;
        if x in s {
          assert Cut(k, ParSide, x) in cs;
        }
      }
      forall x | x in g[k].chi ensures x in CutElems(cs, k, ChiSide) <==> x in s {
        assert k in g[x].par;
        if x in s {
          assert Cut(k, ChiSide, x) in cs;
        }
      }
    }
  }
}
