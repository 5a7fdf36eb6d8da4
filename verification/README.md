# Tree model: `TreeNode` and `Tree`

This project models the in-memory tree at the core of the library. A `Tree` owns one root
`TreeNode`. Each node has:

- a payload;
- an ordered child list;
- a parent reference: the sentinel `"tree"` for the root, another node, or `undefined` once
  removed;
- selection and visibility flags;
- a cached height.

All nodes of one tree share five event channels: removed, visibility, updated, selection and
child-change. Nodes are built recursively from `NodeProp` blueprints, which give a payload and
an optional children list.

The model uses the following representation:

- **Arena.** Node identity becomes a handle into an arena, `Arena.Store`. Handles are handed
  out in construction order, so a child's handle is always larger than its parent's. That
  order is the termination measure of every traversal.
- **Channels.** Each channel becomes an append-only log (`TreeResource.Resource`) plus a
  `closed` flag.
- **Per-node views.** A node's `on…()` observable becomes the channel log filtered to entries
  naming that node.
- **Tree-wide views.** A tree's observables are the unfiltered logs, except `onAdded()`, which
  keeps only `INITIALIZED` entries.
- **Exceptions.** The `INVALID_STATE` exception becomes the `InvalidState` result. In the
  model, which has no re-entrant event handlers, the arena invariant `Arena.Valid` makes it
  unreachable, and the operations' contracts prove that.

Modules follow the source:

- `NodeProps` (blueprints), `Events`, `TreeResource`.
- `Arena` (node records, `setChildren`, `updateHeight`).
- `Construction` and `BuildEvents` (the constructor).
- `Placement` (what a build leaves behind, `prop`).
- `Structure`, `Traversal` and `Queries` (`bfs`, `dfs`, `getNodes`, `contains`, `find`,
  `selectedNodes`).
- `NodeState` (setters).
- `Mutation` (the append and remove family).
- `Trees` (`Tree`).
- `Samples`: the trees of the repository's tests, as concrete instances, and a three-node
  chain that shows the stale cached height.

### Heights are refreshed two levels up, not all the way to the root

One might expect that adding or removing a node keeps every ancestor's cached height up to
date. The code refreshes only two levels. `updateHeight(true)` recomputes the node and then
calls `updateHeight()` on its parent, which does not propagate further
(`src/core/model/tree/node.ts:149-150`).

The model follows the code:

- `Arena.UpdateHeight` refreshes at most two nodes.
- `Mutation.InsertedAt` and `Mutation.RemovedAt` refresh exactly the changed parent and its
  own parent.

`Samples.StaleHeight` shows the consequence. Build the chain `a → b → c`, then call
`appendChild` on `c`. The structure now has height 4, but the root still caches 3, and so
does the tree's `height`.

## Model

| member | source | states |
|---|---|---|
| TreeResource.NewResource | src/core/model/tree/tree.ts:18-24 | `createTree` makes five empty channels, all open |
| TreeResource.Push | src/core/model/tree/node.ts:157 | a `next` on an open channel appends exactly that entry and keeps earlier entries; on a completed channel it records nothing |
| TreeResource.Complete | src/core/model/tree/tree.ts:33-37 | completing the subjects closes every channel and loses no recorded entry |
| TreeResource.NodeViewsPartitionChannels | src/core/model/tree/node.ts:358-381 | an entry appears in a node's `onChildChanged`/`onVisibilityChange`/`onUpdated`/`onSelectionChange` view exactly when it is on the shared channel and names that node |
| TreeResource.ChildChangeViews | src/core/model/tree/node.ts:358-360 | a pushed child change reaches only the view of the node it names, and reaches no view once the channels are closed |
| TreeResource.VisibilityViews | src/core/model/tree/node.ts:365-367 | a pushed visibility change reaches only its own node's view |
| TreeResource.UpdateViews | src/core/model/tree/node.ts:372-374 | a pushed update reaches only its own node's view |
| TreeResource.SelectionViews | src/core/model/tree/node.ts:379-381 | a pushed selection change reaches only its own node's view |
| TreeResource.NodeRemoval | src/core/model/tree/node.ts:386-388 | a node's `onRemoved()` promise settles exactly when the node is on the removal channel, and it settles with the node itself |
| TreeResource.RemovalViews | src/core/model/tree/node.ts:386-388 | pushing a removal settles the removed node's promise (while open) and leaves every other node's promise as it was |
| TreeResource.AddedEvents | src/core/model/tree/tree.ts:64-66 | the tree's `onAdded()` delivers only `INITIALIZED` entries of the child-change channel, and every one of them |
| NodeProps.NormalizeSpec | src/core/model/tree/node.ts:26-28 | the shape `prop` reports (absent children lists become empty ones) is normalised and idempotent, and keeps the blueprint's size and height |
| NodeProps.PropsHeightAttained | src/core/model/tree/node.ts:141-147 | the height of a non-empty blueprint list is attained by one of its members, as the `reduce` maximum is |
| Arena.AttachedIffListedOnce | src/core/model/tree/node.ts:199-204 | under the invariant, a node's parent is `p` if and only if `p`'s children list it exactly once, so `findIndex` finds it |
| Arena.ListedByOneParent | src/core/model/tree/node.ts:97-108 | under the invariant, no node is listed as a child by two different nodes |
| Arena.ReduceMaxHeight | src/core/model/tree/node.ts:141-146 | the `reduce` result is at least its seed, bounds every child's height, and is the seed or one child's height |
| Arena.RefreshHeight | src/core/model/tree/node.ts:137-148 | after the refresh, a node's cached height is 1 for a leaf and otherwise one more than its tallest child's; nothing else changes |
| Arena.UpdateHeight | src/core/model/tree/node.ts:137-152 | `updateHeight(propagate)` makes the node's height fit its children's and, with `propagate` and a node parent, the parent's too; no other node changes, and the ancestors above are not touched |
| Arena.SetChildrenClosed | src/core/model/tree/node.ts:78-81 | installing a child list of existing, later-created nodes keeps every handle referring into the arena |
| Construction.StartNode | src/core/model/tree/node.ts:97-106 | a new node takes the next handle, unselected, visible, childless, height 1; its `data` assignment pushes an update whose `previous` equals the new payload |
| Construction.FinishNode | src/core/model/tree/node.ts:107-109 | installs the built children, pushes `INITIALIZED` naming them, and makes the node's own height fit without touching its parent |
| Construction.BuildNode | src/core/model/tree/node.ts:97-110 | the constructor occupies exactly the blueprint's size in fresh handles, places the blueprint there, never changes an older node, and logs the build's updates and `INITIALIZED` events |
| Construction.BuildChildren | src/core/model/tree/node.ts:107 | `children?.map(new TreeNode)` builds the blueprints in order under the owner, returns their handles, and logs in build order |
| BuildEvents.UpdatesOrder | src/core/model/tree/node.ts:105-107 | a build pushes one update per new node, in handle (pre-)order, each with `data == previous` |
| BuildEvents.InitsOrder | src/core/model/tree/node.ts:107-108 | a build pushes one `INITIALIZED` per new node, children before parents, the last naming the blueprint's own node and its children |
| Placement.Prop | src/core/model/tree/node.ts:26-28 | `prop` reports the node's payload and one blueprint per child, never an absent children list |
| Placement.PlacedReadBack | src/core/model/tree/node.ts:26-28 | reading `prop` back from a built subtree gives the blueprint (normalised), and the subtree has the blueprint's size and height |
| Placement.PlacedCovers | src/core/model/tree/node.ts:107 | every handle of a build's range roots one of the blueprint's sub-blueprints, listed by a parent that was built before it |
| Placement.BuiltLinked | src/core/model/tree/node.ts:97-108 | built nodes are linked both ways: every listed child points back, no list repeats a node, every non-root node is listed by its parent |
| Placement.BuiltHeightExact | src/core/model/tree/node.ts:109 | after construction every built node's cached height is its structural height |
| Structure.InSubtreeSameKids | src/core/model/tree/node.ts:123-125 | subtree membership depends only on the child lists, so changing flags or payloads never changes `contains` |
| Traversal.BfsQueueIsLevelOrder | src/core/model/tree/node.ts:325-342 | running the `bfs` queue from `(this, 0)` yields exactly the level-by-level order |
| Traversal.LevelsFromSorted | src/core/model/tree/node.ts:329-334 | along the breadth-first order the levels start at the given level and never decrease |
| Traversal.LevelsFromLength | src/core/model/tree/node.ts:325-342 | the breadth-first order has one entry per node of the visited subtrees |
| Traversal.DfsPermutesBfs | src/core/model/tree/node.ts:313-318 | `getNodes("dfs")` is a permutation of `getNodes("bfs")`, level tags included, and both have the subtree's size |
| Traversal.DfsCovers | src/core/model/tree/node.ts:345-353 | the pre-order lists exactly the nodes of the subtree |
| Traversal.BfsCovers | src/core/model/tree/node.ts:325-342 | the breadth-first order lists exactly the nodes of the subtree |
| Traversal.BfsNoDup | src/core/model/tree/node.ts:325-342 | in a valid arena the breadth-first order visits no node twice, because the subtrees of two siblings are disjoint |
| Queries.Bfs | src/core/model/tree/node.ts:325-342 | `bfs(pred)` is the breadth-first order filtered by `pred`; with `stopWhenFound` it is empty iff no entry matches, and otherwise holds only the first match |
| Queries.GetNodesAll | src/core/model/tree/node.ts:309-315 | `getNodes()` equals `getNodes("bfs")`, starts at the node itself, and lists exactly the subtree, with its size; in a valid arena no node twice |
| Queries.GetNodesDfs | src/core/model/tree/node.ts:316-317 | `getNodes("dfs")` starts at the node itself and lists exactly the subtree, with its size; in a valid arena no node twice |
| Queries.GetNodesAtLevel | src/core/model/tree/node.ts:311-312 | `getNodes(k)` is the nodes exactly `k` levels below, in breadth-first order; a negative `k` gives nothing |
| Queries.GetNodesUnknown | src/core/model/tree/node.ts:319 | any other strategy name gives an empty list |
| Queries.Contains | src/core/model/tree/node.ts:123-125 | `contains(n)` holds iff `n` lies in the node's subtree, the node itself included |
| Queries.Find | src/core/model/tree/node.ts:130-135 | `find(pred)` returns the first match of the breadth-first order (possibly the node itself); it returns nothing iff no node of the subtree matches, and any result matches and lies in the subtree |
| Queries.SelectedNodes | src/core/model/tree/node.ts:68-70 | `selectedNodes` lists exactly the selected nodes of the subtree, and in a valid arena each just once, so its length is the number of selected nodes |
| NodeState.SetData | src/core/model/tree/node.ts:154-158 | the `data` setter changes only the payload and pushes one update carrying the new and the replaced value |
| NodeState.Select | src/core/model/tree/node.ts:163-166 | `select` sets only the flag and pushes `selected: true` for the node |
| NodeState.Deselect | src/core/model/tree/node.ts:171-174 | `deselect` clears only the flag and pushes `selected: false` for the node |
| NodeState.SetVisibility | src/core/model/tree/node.ts:179-182 | `setVisibility(v)` sets only the flag and pushes `visible: v` for the node |
| NodeState.SettersKeepInvariant | src/core/model/tree/node.ts:154-182 | no setter breaks the arena invariant |
| NodeState.SetterViews | src/core/model/tree/node.ts:154-182 | each setter's event reaches the matching view of the node it names, after what that view held. Every other view of every node stays as it was: for each of the four setters, the three other event views and the `onRemoved()` promise |
| Mutation.AppendChild | src/core/model/tree/node.ts:187-193 | `appendChild` builds the blueprint at the next handles and puts it last among the node's children. It pushes `ADDED` with the old length as index, refreshes two height levels and keeps the invariant. It checks no parent, so it works on a detached node too |
| Mutation.InsertedKeepsValid | src/core/model/tree/node.ts:188-192 | any insertion of a built subtree into a child list keeps the arena invariant |
| Mutation.ListedByParent | src/core/model/tree/node.ts:202-204 | under the invariant an attached node's `findIndex` in its parent's list is never -1 |
| Mutation.AppendSibling | src/core/model/tree/node.ts:198-242 | both sibling appends return `false` and change nothing for a root or detached node, and `InvalidState` only outside the invariant. Otherwise they insert the new subtree next to this node and return `true` |
| Mutation.AppendBefore | src/core/model/tree/node.ts:198-218 | `appendBefore` puts the new node immediately before this one, with `ADDED` at this node's old index |
| Mutation.AppendAfter | src/core/model/tree/node.ts:222-242 | `appendAfter` puts the new node immediately after this one, with `ADDED` at index + 1 |
| Mutation.SiblingAdjacent | src/core/model/tree/node.ts:207-212 | the inserted handle sits right before (or right after) the sibling in the new list |
| Mutation.Remove | src/core/model/tree/node.ts:247-270 | `remove` returns `false` and changes nothing on a root or detached node. Otherwise it unlists the node from its parent and pushes `REMOVED`, then the removal. It refreshes two height levels and detaches only this node, keeping its children. It keeps the invariant |
| Mutation.RemovedKeepsValid | src/core/model/tree/node.ts:255-267 | removing one child and detaching it keeps the arena invariant |
| Mutation.RemoveTwice | src/core/model/tree/node.ts:248-249 | a second `remove` of a node already removed returns `false` and changes nothing |
| Mutation.RemoveChild | src/core/model/tree/node.ts:274-282 | `removeChild(x)` is `false` with no change when `x` is not a child; otherwise it is exactly `x.remove()` |
| Mutation.RemovalsFrom | src/core/model/tree/node.ts:286-288 | clearing a child list pushes one `REMOVED` per child in order, each naming the child and the shrinking list, and removes the children in order |
| Mutation.RemoveAllChildren | src/core/model/tree/node.ts:286-294 | `removeAllChildren` returns the old child count, leaves the node childless, emits exactly those removals and keeps the invariant. A node that had children ends with cached height 1 and a refreshed parent height, since every `remove` calls `updateHeight(true)` on it (node.ts:265). No other cached height changes, and a node without children is left exactly as it was |
| Trees.CreateTree | src/core/model/tree/tree.ts:17-27 | `createTree` builds the root under the tree sentinel, with exactly the blueprint's size in handles, all reachable. `prop` reads the normalised blueprint back, heights are exact, and the channels hold only the build's events |
| Trees.TreeFind | src/core/model/tree/tree.ts:48-50 | the tree's `find` is the root's: first breadth-first match, none iff no node matches |
| Trees.CreatedTreeNodes | src/core/model/tree/tree.ts:42-47 | in a fresh tree `getNodes()` lists every created node once and `contains` accepts exactly those |
| Trees.Destroy | src/core/model/tree/tree.ts:32-38 | `destroy` closes every channel, changes no node and loses no recorded entry |
| Trees.SilentAfterDestroy | src/core/model/tree/tree.ts:32-38 | after `destroy`, setters, insertions and removals leave every channel as it is |
| Trees.TreeViewsUnfiltered | src/core/model/tree/tree.ts:52-63 | every entry of a node's view is on the tree-wide view, and every tree-wide entry reaches the view of the node it names |
| Trees.InsertionAdded | src/core/model/tree/tree.ts:64-66 | an insertion passes exactly its build's `INITIALIZED` events to `onAdded()`, the last naming the new node, and not its `ADDED` |
| Trees.RemovalAddsNothing | src/core/model/tree/tree.ts:64-66 | a removal passes nothing to `onAdded()` |
| Samples.CreateSample | src/core/model/view/root-node.test.ts:5-34 | the six-node test tree is well formed, has height 4 and size 6, and every node is reachable |
| Samples.SampleQueries | src/core/model/view/root-node.test.ts:36-56 | on the test tree `getNodes()`, `getNodes("bfs")` and `getNodes("dfs")` have 6 nodes. The levels hold 1, 2, 2 and 1 nodes, and `contains` finds the grandchild |
| Samples.SampleFind | src/core/model/view/root-node.test.ts:40-43 | `find` by data `"node5"` finds that node, and by `"NOT_FOUND_DATA"` finds nothing |
| Samples.ThreeSelects | src/core/model/tree/tree.event.test.ts:41-54 | selecting the root and its two children puts three `selected: true` events on the tree's channel, one in the first child's view, and makes those three the selected nodes. The test tree has the same shape as the sample tree and differs only in payloads, which selection does not read |
| Samples.StaleHeight | src/core/model/tree/node.ts:149-150 | after `appendChild` on the leaf of a three-chain, the tree's `height` stays 3 although the structure has height 4 |

## Left out

- RxJS subscriptions, `pipe`, `first()` and `toPromise()`: a subscriber sees a log's entries
  from the moment it subscribes. The model keeps the whole log and states which entries a
  view contains, not when a subscriber receives them.
- Push (and every emitter): a `next` on a completed subject is dropped. The model records
  nothing once the channels are closed. The source never checks the state itself, so this is a
  modelling choice that follows the RxJS `Subject` semantics.
- The `path` getter: it always throws "not implemented". It has no behaviour to model.
- Queries.Find: the predicate is a function of the node handle (`NodeId -> bool`), not of the
  live node object. A predicate that reads a node's payload is written against the arena, as
  in `Samples.SampleFind`.
- Object identity: nodes are arena handles. `==` on `TreeNode` is handle equality. A handle
  from another tree is modelled only as a handle absent from this arena.
- The `children` getter returns a defensive copy of the internal array. In the model,
  sequences are values, so the copy is the list itself (`Structure.Kids`).
- Trees.TreeNodes, Trees.TreeContains, Trees.Height and the tree-wide view functions are plain
  delegations to the root or to the channels, as in the source. They carry no contract of
  their own, and their properties are stated by `Trees.CreatedTreeNodes`, `Trees.TreeFind`,
  `Trees.TreeViewsUnfiltered` and `Samples.SampleQueries`.
- Number width: levels, indices and heights are unbounded naturals. JavaScript numbers are
  exact far beyond any realistic tree.
- Queries.GetNodesAtLevel: the level is an integer. In the source, a fractional or `NaN`
  level matches no entry of `bfs(n => n.level == param)`, so `getNodes` returns `[]`. The
  model cannot express such a level and does not state that case.
- Re-entrant event handlers: RxJS runs a subscriber synchronously inside each `next`
  (`setChildren` emits at `src/core/model/tree/node.ts:80`), and `onChildChanged` only filters
  that subject (node.ts:358-360). So a handler can change the tree while an operation is still
  running. For example, a handler that removes the next child on each `REMOVED` entry makes the
  later `removeChild` in `removeAllChildren` find nothing (node.ts:276-278), and the count check
  throws `INVALID_STATE` (node.ts:289-290). The model has no handlers. Its event orders, its
  `Ok` results and the unreachability of `InvalidState` hold only for calls during which no
  handler changes the tree.
- `INVALID_STATE`: the thrown error becomes the `InvalidState` result. In the model it is
  reachable only in an arena that breaks the invariant, which no modelled operation produces.
- The presentation layer (`treex.ts`), the view interfaces and the generated declaration files
  and build configuration are not part of this model.
