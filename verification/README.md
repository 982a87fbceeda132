# Citation graph

A model of `CitationGraph`, a C++ class template that stores a citation graph.
Each node is a publication with a unique id. An edge says that a child publication
cites a parent publication. The graph has one root publication, which is created
together with the graph and may never be removed. Removing a publication also
removes, transitively, every publication that is left with no parent outside the
removed set.

The model has four modules:

- `CitationGraphState` (graph_state.dfy) describes the node store as a value,
  `map<Id, Node>`, where a `Node` holds the payload and its parent and child id
  sets. It contains:
  - the well-formedness invariant: the root is present; every key is its node's
    id; edges point to stored nodes; parent and child sets mirror each other;
    every non-root node has a parent;
  - the store each mutating operation produces (`Linked`, `Cited`, `Pruned`);
  - the removal closure;
  - the edge cuts that `remove` applies before erasing nodes.
- `Cascade` (cascade.dfy) holds the invariant of the counting cascade that
  `find_lost` runs: per-node counters of erased parents, pending visits, the
  selected nodes and the recorded cuts. Its lemmas show that each visit keeps
  the invariant, and that an empty worklist leaves exactly the removal closure
  selected.
- `CitationGraphs` (citation_graph.dfy) holds the class `CitationGraph`. It has
  fields `root` and `nodes`, and one method per public operation, each proved
  against the functions of `CitationGraphState`.
- `Scenarios` (scenarios.dfy) holds concrete operation histories. One is the
  cascade example with two parents. The other is the root-cascade defect under
  "## Findings".

Every exception of the source becomes an explicit outcome:
`Fail(PublicationAlreadyCreated)`, `Fail(PublicationNotFound)` or
`Fail(TriedToRemoveRoot)`, or `Failure(...)` for operations that return a value.
A failed operation leaves the store unchanged.

In the model, the set that `remove(id)` erases is the *least* set that contains
`id` and is closed under orphaning. "Closed under orphaning" means that every
non-root node whose parents all lie in the set is itself in the set. The model's
cascade computes exactly this set. It differs from the source's cascade in one
respect: the source does not skip the root, and so it can erase the root once
`add_citation` has given the root a parent (see "## Findings"). The model's
cascade never selects the root. This set is not always the set of nodes
unreachable from the root: `add_citation` accepts cycles, and a cycle cut off
from the root survives a removal. The model follows the code here.

## Model

| member | source | states |
|---|---|---|
| CitationGraphs.CitationGraph.constructor | citation_graph.h:91-94 | The new graph is well formed and holds only the root node `stemId`, with no edges; `GetRootId` returns `stemId`. |
| CitationGraphs.CitationGraph.GetRootId | citation_graph.h:119-121 | The id read from the root's payload is the root id, and a publication with that id is stored. |
| CitationGraphs.CitationGraph.Exists | citation_graph.h:144-146 | In a well-formed store, `id` is found exactly when some stored payload carries that id. |
| CitationGraphs.CitationGraph.Lookup | citation_graph.h:151-155 | Fails with PublicationNotFound exactly when `id` is not stored; otherwise returns a payload whose id is `id`. |
| CitationGraphs.CitationGraph.GetChildren | citation_graph.h:126-131 | Fails with PublicationNotFound exactly when `id` is absent; otherwise returns the ids citing `id`, strictly ascending, each once, and no others. |
| CitationGraphs.CitationGraph.GetParents | citation_graph.h:136-141 | Fails with PublicationNotFound exactly when `id` is absent; otherwise returns the ids `id` cites, strictly ascending, each once, and no others. |
| CitationGraphs.SortedElements | citation_graph.h:130 | Copies an ordered id set into a sequence that is strictly increasing and has exactly the set's elements. |
| CitationGraphs.CitationGraph.CreateHelper | citation_graph.h:44-69 | Adding `parentIds[cur..]` one parent at a time adds them all to the new node's parents, and adds the new node to each of their children. |
| CitationGraphs.CitationGraph.Create | citation_graph.h:166-184 | Fails with PublicationAlreadyCreated exactly when `id` exists. Otherwise fails with PublicationNotFound exactly when some parent is missing or the list is empty. It succeeds exactly when neither holds. Any failure leaves the store unchanged. On success there is one new node linked to exactly the listed parents, and the store stays well formed. |
| CitationGraphs.CitationGraph.CreateOne | citation_graph.h:162-164 | The one-parent form: the same outcomes as `Create` with the list `[parentId]`; it succeeds exactly when `id` is new and `parentId` is stored. |
| CitationGraphs.CitationGraph.AddCitation | citation_graph.h:188-203 | Fails with PublicationNotFound, changing nothing, exactly when either endpoint is missing; otherwise adds the parent and child halves of the edge, and the store stays well formed. |
| CitationGraphs.CitationGraph.FindLost | citation_graph.h:71-87 | Without changing the store, returns the removal closure of `id`, each node once, and exactly the edge halves that touch it. |
| CitationGraphs.CitationGraph.CutEdges | citation_graph.h:218-220 | Applying the recorded cuts one by one gives the store with all of them applied. |
| CitationGraphs.CitationGraph.EraseAll | citation_graph.h:221-223 | Erasing the selected nodes one by one removes exactly those keys. |
| CitationGraphs.CitationGraph.Remove | citation_graph.h:208-224 | Fails with PublicationNotFound exactly when `id` is absent, and with TriedToRemoveRoot exactly when `id` is the root; failures change nothing. In every other case it succeeds, and the new store is the old one with the removal closure of `id` pruned, the root stays, and the store stays well formed. |
| CitationGraphState.StoredIff | citation_graph.h:144-146 | In a well-formed store, lookup by key agrees with lookup by payload id. |
| CitationGraphState.LinkedCompose | citation_graph.h:59-68 | Linking one set of parents and then another equals linking their union, which is what the recursion of `createHelper` relies on. |
| CitationGraphState.CreateEffect | citation_graph.h:166-184 | A successful create adds one key. The new node's parents are the listed ids, and it has no children. Each parent gains the new id as a child. Nothing else changes. |
| CitationGraphState.CreateWellFormed | citation_graph.h:166-184 | Creating a fresh id with a non-empty set of stored parents keeps the store well formed. |
| CitationGraphState.CitedEffect | citation_graph.h:188-203 | `add_citation(c, p)` adds `p` to the parents of `c` and `c` to the children of `p`, and changes nothing else. |
| CitationGraphState.CitedWellFormed | citation_graph.h:188-203 | Adding a citation between stored publications keeps the store well formed. |
| CitationGraphState.CitedIdempotent | citation_graph.h:194-196 | Adding the same citation twice gives the same store as adding it once. |
| CitationGraphState.CitedExisting | citation_graph.h:194-196 | Adding a citation that already exists leaves the store unchanged. |
| CitationGraphState.ClosureUnique | citation_graph.h:71-87 | There is at most one removal closure of a publication. |
| CitationGraphState.RootNeverRemoved | citation_graph.h:208-224 | The removal closure of a non-root publication never contains the root. |
| CitationGraphState.PrunedWellFormed | citation_graph.h:218-223 | Pruning an orphan-closed set that avoids the root keeps the store well formed: every surviving non-root node keeps a parent. |
| CitationGraphState.IncidentOwner | citation_graph.h:77-82 | The owner of each recorded edge half is a stored publication. |
| CitationGraphState.ApplyCutsKeys | citation_graph.h:218-220 | Cutting edges erases no publication. |
| CitationGraphState.ApplyCutsStep | citation_graph.h:218-220 | Applying one more cut to the result of a set of cuts equals applying the enlarged set. |
| CitationGraphState.ApplyNoCuts | citation_graph.h:218-220 | Applying no cuts changes nothing. |
| CitationGraphState.CutsThenErase | citation_graph.h:218-223 | Cutting every edge half that touches the removed set and then erasing that set gives exactly the pruned store. |
| Cascade.CascadeStart | citation_graph.h:216-217 | The removed publication has at least one parent, so its counter can start one short of its parent count without wrapping around; the cascade invariant holds at the start. |
| Cascade.CascadeVisit | citation_graph.h:74-75 | A visit that leaves its publication's counter short of its parent count only bumps the counter, and keeps the invariant. |
| Cascade.ExpandCounts | citation_graph.h:83-85 | Scheduling a visit to each child of a selected node keeps counters plus pending visits equal to the number of selected parents. |
| Cascade.ExpandCuts | citation_graph.h:77-82 | The cuts recorded for a selected node are exactly the edge halves that touch it. |
| Cascade.ExpandLeast | citation_graph.h:75 | A node is selected only once all its parents are selected, so every orphan-closed set containing the start contains it. |
| Cascade.CascadeExpand | citation_graph.h:75-86 | A visit that brings a non-root counter to its parent count selects a new node and keeps the whole invariant. |
| Cascade.CascadeDone | citation_graph.h:71-87 | When no visit is pending, the selected set is exactly the removal closure. |
| Scenarios.GuardIdleWithoutRootParents | citation_graph.h:75 | While the root has no parents, the cascade as written and the corrected cascade select the same sets. |
| Scenarios.RootCascadeAsWritten | citation_graph.h:75 | After `create(1, 0)` and `add_citation(0, 1)` the store is well formed, yet every set closed under the cascade as written that contains 1 also contains the root 0. |
| Scenarios.RootCascadeCorrected | citation_graph.h:208-224 | In the same store, the corrected removal of 1 removes only 1 and leaves the root with no edges. |
| Scenarios.OneChildBuilt | citation_graph.h:91-94 | The root followed by `create(1, 0)` builds the expected store, which is well formed. |
| Scenarios.TwoChildrenBuilt | citation_graph.h:166-184 | A further `create(2, 0)` builds the expected store, which is well formed. |
| Scenarios.DiamondBuilt | citation_graph.h:166-184 | A further `create(3, [1, 2])` builds the diamond, which is well formed. |
| Scenarios.DiamondFirstRemoval | citation_graph.h:208-224 | In the diamond, `remove(1)` removes 1 alone, and 3 keeps parent 2. |
| Scenarios.DiamondSecondRemoval | citation_graph.h:208-224 | A following `remove(2)` also removes 3, which has lost its last parent, and leaves only the root. |

## Left out

- Exception safety: the `try`/`catch` rollback in `createHelper`, `create` and
  `add_citation` only runs when a container insertion throws (allocation
  failure). Insertion into a Dafny `map` or `set` cannot fail, so these paths
  are not modelled.
- The move constructor and move assignment, and the deleted copy operations:
  ownership transfer has no counterpart in a model where the graph is one object.
- The `shared_ptr` and `weak_ptr` ownership of nodes: the root is held as its id
  and looked up in the store.
- The conditional `noexcept` of `get_root_id`, and the `what()` strings of the
  exception classes.
- The `Publication` payload is reduced to its id. The generic `Publication`
  type and its `get_id` are not part of this model. `Lookup` returns the payload
  as a value, not a reference that the caller can change.
- CitationGraphs.CitationGraph.FindLost: the source recurses depth-first into
  the children. The model runs the same counting visits from a worklist in an
  unspecified order, so the order of `to_erase` and `fam_erase` is not
  modelled. `fam_erase` is a set of (owner, side, id) cuts, not a list of set
  iterators. Distinctness of `to_erase` is stated as "its length equals the
  size of its element set".
- CitationGraphs.CitationGraph.Remove: its contract gives the erased set as the
  least orphan-closed set, not as "the nodes unreachable from the root". The two
  differ once `add_citation` has made a cycle. Reachability from the root is not
  modelled, because `add_citation` does not keep it.
- CitationGraphs.CitationGraph.FindLost: the model's selection test adds
  `cur != root` to the source's test at citation_graph.h:75. This corrects the
  root cascade reported under "## Findings". The model therefore does not
  reproduce the source's erasure of the root when the root has a parent.
  `Scenarios.RootCascadeAsWritten` states what the unguarded test does.
- Ids: the generic `id_type` is fixed to `int`. The order of `int` stands for
  the order that `id_type`'s `operator<` gives `std::set`. The "strictly
  ascending" results of `GetChildren` and `GetParents` are stated in that order.
- CitationGraphs.CitationGraph.FindLost: the source's `par.size() - 1` on a
  `size_t` would wrap around for a node with no parents. The precondition
  `id != root` and the store invariant rule that case out, so no wrap-around is
  modelled.

## Findings

| source | as written | input that shows it | evidently intended | confidence | as-written member | corrected member |
|---|---|---|---|---|---|---|
| citation_graph.h:75 | A node is selected for erasure once its counter reaches its parent count, and the root is not excluded. `add_citation` lets the root gain a parent, so a removal can cascade into the root and erase it. `get_root_id` then reads through an expired pointer. | `CitationGraph(0)`, `create(1, 0)`, `add_citation(0, 1)`, `remove(1)` | The root is never erased by a removal. The cascade skips it, so `remove(1)` erases only 1. | not executed | Scenarios.RootCascadeAsWritten | CitationGraphs.CitationGraph.FindLost |
