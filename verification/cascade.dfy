/** The counting cascade of a removal: per-publication counters of parents
    already gone, a worklist of pending visits, the publications selected so
    far and the edge cuts recorded for them. The invariant below ties these
    to the store; the lemmas show that one visit keeps it and that an empty
    worklist leaves exactly the removal closure selected. */
module Cascade {
  import opened CitationGraphState

  /** A counter of the map: absent keys read as zero. */
  function Counter(m: map<Id, nat>, k: Id): nat {
    if k in m then m[k] else 0
  }

  /** The cuts recorded when `x` is selected: `x` leaves the children of each
      of its parents and the parents of each of its children. */
  function CutsAt(g: Store, x: Id): set<Cut>
    requires x in g
  {
    (set p | p in g[x].par :: Cut(p, ChiSide, x)) + (set c | c in g[x].chi :: Cut(c, ParSide, x))
  }

  /** Adding an element `x` outside `m` to `m` adds one to the overlap with
      `a` exactly when `x` is in `a`. */
  lemma OverlapGrows(a: set<Id>, m: set<Id>, x: Id)
    requires x !in m
    ensures |a * (m + {x})| == |a * m| + (if x in a then 1 else 0)
  {
    if x in a {
      assert a * (m + {x}) == (a * m) + {x};
    } else {
      assert a * (m + {x}) == a * m;
    }
  }

  /** A set overlapping `m` in as many elements as it has lies inside `m`. */
  lemma FullOverlap(a: set<Id>, m: set<Id>)
    requires |a * m| >= |a|
    ensures a <= m
  {
    assert a == (a * m) + (a - m);
    assert |a| == |a * m| + |a - m|;
    forall x | x in a ensures x in m {
      assert x !in a - m;
    }
  }

  /** The cuts are exactly the edge halves incident to selected publications. */
  ghost predicate CutsRecorded(g: Store, marked: set<Id>, cuts: set<Cut>) {
    forall c :: c in cuts <==> c.elem in marked && Incident(g, c)
  }

  /** A counter plus the visits still pending for its publication equals the
      number of its parents selected so far; for `id`, plus its parent count,
      as the counter of `id` starts one short of it with one visit pending. */
  ghost predicate CountsAgree(g: Store, id: Id, counter: map<Id, nat>, work: multiset<Id>, marked: set<Id>) {
    && (forall k :: k in g && k != id ==> Counter(counter, k) + work[k] == |g[k].par * marked|)
    && (id in g ==> Counter(counter, id) + work[id] == |g[id].par| + |g[id].par * marked|)
  }

  /** A publication is selected exactly when it is not the root and its
      counter has reached its parent count. */
  ghost predicate SelectedAtCount(g: Store, root: Id, counter: map<Id, nat>, marked: set<Id>) {
    forall k :: k in g ==> (k in marked <==> k != root && Counter(counter, k) >= |g[k].par|)
  }

  /** Every orphan-closed set containing `id` contains the selection. */
  ghost predicate BelowEveryClosure(g: Store, root: Id, id: Id, marked: set<Id>) {
    forall t :: id in t && Orphaning(g, root, t) ==> marked <= t
  }

  /** The state of the cascade started at `id`. */
  ghost predicate CascadeInv(g: Store, root: Id, id: Id, counter: map<Id, nat>,
                             work: multiset<Id>, marked: set<Id>, cuts: set<Cut>)
  {
    && marked <= g.Keys && root !in marked
    && (forall k :: k in work ==> k in g)
    && CutsRecorded(g, marked, cuts)
    && CountsAgree(g, id, counter, work, marked)
    && SelectedAtCount(g, root, counter, marked)
    && BelowEveryClosure(g, root, id, marked)
  }

  /** The cascade starts with `id`'s counter one short of its parent count
      and one visit of `id` pending. */
  lemma CascadeStart(g: Store, root: Id, id: Id)
    requires WellFormed(g, root) && id in g && id != root
    ensures |g[id].par| >= 1
    ensures CascadeInv(g, root, id, map[id := |g[id].par| - 1], multiset{id}, {}, {})
  {
    assert g[id].par != {};
  }

  /** A visit that does not select its publication only bumps its counter. */
  lemma CascadeVisit(g: Store, root: Id, id: Id, counter: map<Id, nat>,
                     work: multiset<Id>, marked: set<Id>, cuts: set<Cut>, cur: Id)
    requires CascadeInv(g, root, id, counter, work, marked, cuts)
    requires cur in work
    requires !(cur != root && Counter(counter, cur) + 1 == |g[cur].par|)
    ensures CascadeInv(g, root, id, counter[cur := Counter(counter, cur) + 1],
                       work - multiset{cur}, marked, cuts)
  {
    var counter', work' := counter[cur := Counter(counter, cur) + 1], work - multiset{cur};
    forall k | k in g ensures Counter(counter', k) + work'[k] == Counter(counter, k) + work[k] {
    }
  }

  /** Selecting `cur` keeps counters and pending visits in step. */
  lemma ExpandCounts(g: Store, root: Id, id: Id, counter: map<Id, nat>,
                     work: multiset<Id>, marked: set<Id>, cur: Id)
    requires Symmetric(g) && cur in g && cur !in marked
    requires CountsAgree(g, id, counter, work, marked)
    requires cur in work
    ensures CountsAgree(g, id, counter[cur := Counter(counter, cur) + 1],
                        work - multiset{cur} + multiset(g[cur].chi), marked + {cur})
  {
    var counter' := counter[cur := Counter(counter, cur) + 1];
    var work' := work - multiset{cur} + multiset(g[cur].chi);
    forall k | k in g
      ensures Counter(counter', k) + work'[k] == Counter(counter, k) + work[k] + (if cur in g[k].par then 1 else 0)
      ensures |g[k].par * (marked + {cur})| == |g[k].par * marked| + (if cur in g[k].par then 1 else 0)
    {
      assert cur in g[k].par <==> k in g[cur].chi;
      OverlapGrows(g[k].par, marked, cur);
    }
  }

  /** Selecting `cur` and recording its cuts keeps the cut set exact. */
  lemma ExpandCuts(g: Store, marked: set<Id>, cuts: set<Cut>, cur: Id)
    requires cur in g
    requires CutsRecorded(g, marked, cuts)
    ensures CutsRecorded(g, marked + {cur}, cuts + CutsAt(g, cur))
  {
    var cuts' := cuts + CutsAt(g, cur);
    forall c: Cut | c.elem in marked + {cur} && Incident(g, c) ensures c in cuts' {
      if c.elem == cur {
        if c.side == ChiSide {
          assert c == Cut(c.owner, ChiSide, cur);
        } else {
          assert c == Cut(c.owner, ParSide, cur);
        }
      }
    }
  }

  /** `cur` is selected only once all its parents are: so it lies in every
      orphan-closed set that contains the selection. */
  lemma ExpandLeast(g: Store, root: Id, id: Id, counter: map<Id, nat>,
                    work: multiset<Id>, marked: set<Id>, cur: Id)
    requires WellFormed(g, root) && cur in g
    requires CountsAgree(g, id, counter, work, marked)
    requires BelowEveryClosure(g, root, id, marked)
    requires cur in work && cur != root && Counter(counter, cur) + 1 == |g[cur].par|
    ensures BelowEveryClosure(g, root, id, marked + {cur})
  {
    if cur != id {
      FullOverlap(g[cur].par, marked);
    }
  }

  /** A visit that brings its publication's counter to its parent count
      selects it, records its cuts and schedules a visit of each child. */
  lemma CascadeExpand(g: Store, root: Id, id: Id, counter: map<Id, nat>,
                      work: multiset<Id>, marked: set<Id>, cuts: set<Cut>, cur: Id)
    requires WellFormed(g, root)
    requires CascadeInv(g, root, id, counter, work, marked, cuts)
    requires cur in work && cur != root && Counter(counter, cur) + 1 == |g[cur].par|
    ensures cur in g && cur !in marked
    ensures CascadeInv(g, root, id, counter[cur := Counter(counter, cur) + 1],
                       work - multiset{cur} + multiset(g[cur].chi), marked + {cur},
                       cuts + CutsAt(g, cur))
  {
    ExpandCounts(g, root, id, counter, work, marked, cur);
    ExpandCuts(g, marked, cuts, cur);
    ExpandLeast(g, root, id, counter, work, marked, cur);
  }

  /** With no visit pending, the selection is the removal closure of `id`. */
  lemma CascadeDone(g: Store, root: Id, id: Id, counter: map<Id, nat>,
                    marked: set<Id>, cuts: set<Cut>)
    requires id in g && id != root
    requires CascadeInv(g, root, id, counter, multiset{}, marked, cuts)
    ensures IsRemovalClosure(g, root, id, marked)
  {
    forall c | c in g && c != root && g[c].par != {} && g[c].par <= marked
      ensures c in marked
    {
      assert g[c].par * marked == g[c].par;
    }
  }
}
