/** `Tree`: a root node plus the five shared channels. `createTree` builds the root from a
    blueprint, the queries delegate to the root, `destroy` closes the channels, and the
    tree-wide `on…` views are the channels themselves. */
module Trees {
  import opened Wrappers
  import opened Seqs
  import opened Events
  import opened TreeResource
  import opened NodeProps
  import opened Arena
  import opened Structure
  import opened Construction
  import opened Placement
  import opened BuildEvents
  import opened Queries
  import opened Mutation
  import NodeState

  /** A tree: the arena of its nodes and the handle of its root. */
  datatype Tree<T> = Tree(store: Store<T>, root: NodeId)

  /** The invariant of a tree: the arena invariant holds and the root is a node whose parent is
      the tree itself. */
  ghost predicate WellFormed<T>(t: Tree<T>) {
    Valid(t.store) && t.root in t.store.nodes && t.store.nodes[t.root].parent == Root
  }

  /** `height`: the root's cached height. */
  function Height<T>(t: Tree<T>): nat
    requires t.root in t.store.nodes
  {
    t.store.nodes[t.root].height
  }

  /** Every handle built from a blueprint placed at 0 lies below the root. */
  lemma {:induction false} BuiltReachable<T>(s: Store<T>, p: NodeProp<T>, k: NodeId)
    requires Closed(s) && Placed(s, p, 0, Root) && k < PropSize(p)
    ensures 0 in s.nodes && InSubtree(s, 0, k)
    decreases k
  {
    var q, par := PlacedCovers(s, p, 0, Root, k);
    if k != 0 {
      BuiltReachable(s, p, par.id);
      InSubtreeChild(s, 0, par.id, k);
    }
  }

  /** The arena a build from an empty arena leaves: linked, with exact heights, every node
      reachable from the root. */
  lemma CreatedLinked<T>(s: Store<T>, p: NodeProp<T>)
    requires Closed(s) && s.next == PropSize(p) && Placed(s, p, 0, Root)
    ensures Valid(s) && HeightsExact(s)
    ensures forall k | k in s.nodes :: InSubtree(s, 0, k)
  {
    forall a | a in s.nodes
      ensures (forall i | 0 <= i < |s.nodes[a].children| :: s.nodes[s.nodes[a].children[i]].parent == Attached(a))
      ensures NoDup(s.nodes[a].children)
      ensures s.nodes[a].parent.Attached? ==> a in s.nodes[s.nodes[a].parent.id].children
      ensures s.nodes[a].height == StructHeight(s, a)
      ensures InSubtree(s, 0, a)
    {
      BuiltLinked(s, p, 0, Root, a);
      BuiltHeightExact(s, p, 0, Root, a);
      BuiltReachable(s, p, a);
    }
  }

  /** A build into the empty arena occupies exactly the handles below the blueprint's size. */
  lemma CreatedKeys<T>(s0: Store<T>, s: Store<T>, p: NodeProp<T>)
    requires s0.nodes == map[] && s0.next == 0
    requires Grows(s0, s) && s.next == s0.next + PropSize(p)
    ensures forall k: NodeId :: k in s.nodes <==> k < PropSize(p)
  {
    forall k: NodeId ensures k in s.nodes <==> k < PropSize(p) {
      assert k !in s0.nodes;
    }
  }

  /** A build into fresh channels leaves only its update and `INITIALIZED` events on them. */
  lemma CreatedLogs<T>(res0: Resource<T>, res: Resource<T>, p: NodeProp<T>)
    requires res0 == NewResource()
    requires res == Logged(res0, UpdatesOf(p, 0), InitsOf(p, 0))
    ensures res == Resource([], [], UpdatesOf(p, 0), [], InitsOf(p, 0), false)
  {
    assert [] + UpdatesOf(p, 0) == UpdatesOf(p, 0);
    assert [] + InitsOf(p, 0) == InitsOf(p, 0);
  }

  /** `createTree`: build the root from the blueprint under the tree sentinel, with fresh open
      channels. The result reads back as the (normalised) blueprint, has its size and height,
      and its channels hold exactly the construction's update and `INITIALIZED` events. */
  method CreateTree<T>(p: NodeProp<T>) returns (t: Tree<T>)
    ensures WellFormed(t) && HeightsExact(t.store)
    ensures t.root == 0 && t.store.next == PropSize(p)
    ensures Placed(t.store, p, 0, Root)
    ensures forall k: NodeId :: k in t.store.nodes <==> k < PropSize(p)
    ensures forall k | k in t.store.nodes :: InSubtree(t.store, t.root, k)
    ensures Prop(t.store, t.root) == Normalize(p)
    ensures Size(t.store, t.root) == PropSize(p)
    ensures Height(t) == PropHeight(p)
    ensures t.store.res == Resource([], [], UpdatesOf(p, 0), [], InitsOf(p, 0), false)
  {
    var s0 := Store(map[], 0, NewResource());
    var s := BuildNode(s0, p, Root);
    CreatedKeys(s0, s, p);
    CreatedLogs(s0.res, s.res, p);
    CreatedLinked(s, p);
    PlacedReadBack(s, p, 0, Root);
    t := Tree(s, 0);
  }

  /** `getNodes(param)` on a tree: the same query on its root. */
  function TreeNodes<T>(t: Tree<T>, q: Query): seq<NodeId>
    requires Closed(t.store) && t.root in t.store.nodes
  {
    GetNodes(t.store, t.root, q)
  }

  /** `contains(node)` on a tree: the same query on its root. */
  function TreeContains<T>(t: Tree<T>, n: NodeId): bool
    requires Closed(t.store) && t.root in t.store.nodes
  {
    Contains(t.store, t.root, n)
  }

  /** `find(predicate)` on a tree: the root's `find`, so the first node of the tree's
      breadth-first order that `pred` accepts. */
  method TreeFind<T>(t: Tree<T>, pred: NodeId -> bool) returns (r: Option<NodeId>)
    requires Closed(t.store) && t.root in t.store.nodes
    ensures r == First(TreeNodes(t, AllNodes), pred)
    ensures r.None? <==> forall n | InSubtree(t.store, t.root, n) :: !pred(n)
  {
    r := Find(t.store, t.root, pred);
  }

  /** In a freshly created tree the tree-wide queries see every node ever created: `getNodes()`
      lists the handles below the blueprint's size, each once, and `contains` accepts exactly
      those. */
  lemma CreatedTreeNodes<T>(p: NodeProp<T>, t: Tree<T>, n: NodeId)
    requires WellFormed(t) && t.root == 0
    requires forall k: NodeId :: k in t.store.nodes <==> k < PropSize(p)
    requires forall k | k in t.store.nodes :: InSubtree(t.store, t.root, k)
    requires Size(t.store, t.root) == PropSize(p)
    ensures |TreeNodes(t, AllNodes)| == PropSize(p)
    ensures n in TreeNodes(t, AllNodes) <==> n < PropSize(p)
    ensures TreeContains(t, n) <==> n < PropSize(p)
  {
    GetNodesAll(t.store, t.root, n);
    if InSubtree(t.store, t.root, n) {
      InSubtreeInStore(t.store, t.root, n);
    }
  }

  /** `destroy`: complete all five channels. No node changes and nothing recorded is lost. */
  function Destroy<T>(t: Tree<T>): (d: Tree<T>)
    ensures d.root == t.root && d.store.nodes == t.store.nodes && d.store.next == t.store.next
    ensures d.store.res.closed
    ensures d.store.res.(closed := t.store.res.closed) == t.store.res
  {
    t.(store := t.store.(res := Complete(t.store.res)))
  }

  /** After `destroy` nothing reaches the channels any more: every setter, insertion and
      removal leaves them as they are. */
  lemma SilentAfterDestroy<T>(t: Tree<T>, id: NodeId, data: T, visible: bool)
    requires id in t.store.nodes
    ensures var s := Destroy(t).store;
      && NodeState.SetData(s, id, data).res == s.res
      && NodeState.Select(s, id).res == s.res
      && NodeState.Deselect(s, id).res == s.res
      && NodeState.SetVisibility(s, id, visible).res == s.res
    ensures var s := Destroy(t).store;
      forall r: Store<T>, i: nat, p: NodeProp<T> | i <= |Kids(s, id)| && InsertedAt(s, r, id, i, p) :: r.res == s.res
    ensures var s := Destroy(t).store;
      forall r: Store<T>, i: nat | i < |Kids(s, id)| && RemovedAt(s, r, id, i) :: r.res == s.res
  {
  }

  /** The tree-wide `onSelectionChange()`: the whole selection channel, from every node. */
  function TreeSelectionChanges<T>(t: Tree<T>): seq<SelectionChange> {
    t.store.res.selection
  }

  /** The tree-wide `onVisibilityChange()`. */
  function TreeVisibilityChanges<T>(t: Tree<T>): seq<VisibilityChange> {
    t.store.res.visibility
  }

  /** The tree-wide `onUpdated()`. */
  function TreeUpdates<T>(t: Tree<T>): seq<Update<T>> {
    t.store.res.updated
  }

  /** The tree-wide `onRemoved()`: every removed node, in removal order. */
  function TreeRemovals<T>(t: Tree<T>): seq<NodeId> {
    t.store.res.removed
  }

  /** The tree-wide `onAdded()`: only the `INITIALIZED` child changes. */
  function TreeAdded<T>(t: Tree<T>): seq<ChildChange> {
    AddedEvents(t.store.res)
  }

  /** The tree-wide views are unfiltered: every node's own view is a sub-sequence of them, and
      every entry they hold reaches the view of the node it names. */
  lemma TreeViewsUnfiltered<T>(t: Tree<T>, id: NodeId)
    ensures forall e :: e in NodeSelectionChanges(t.store.res, id) <==> e in TreeSelectionChanges(t) && e.node == id
    ensures forall e :: e in NodeVisibilityChanges(t.store.res, id) <==> e in TreeVisibilityChanges(t) && e.node == id
    ensures forall e :: e in NodeUpdates(t.store.res, id) <==> e in TreeUpdates(t) && e.node == id
    ensures NodeRemoval(t.store.res, id).Some? <==> id in TreeRemovals(t)
  {
    NodeViewsPartitionChannels(t.store.res, id);
  }

  /** An insertion passes exactly its build's `INITIALIZED` events to `onAdded()`: one per new
      node, children before parents, the last naming the new child itself; its `ADDED` is not
      passed. For a blueprint without children that is a single event for the new node. */
  lemma InsertionAdded<T>(s: Store<T>, r: Store<T>, q: NodeId, i: nat, p: NodeProp<T>)
    requires Closed(s) && q in s.nodes && i <= |Kids(s, q)| && !s.res.closed
    requires InsertedAt(s, r, q, i, p)
    ensures AddedEvents(r.res) == AddedEvents(s.res) + InitsOf(p, s.next)
    ensures |InitsOf(p, s.next)| == PropSize(p)
    ensures InitsOf(p, s.next)[|InitsOf(p, s.next)| - 1].node == s.next
    ensures p.children.Absent? ==> InitsOf(p, s.next) == [Initialized(s.next, [])]
  {
    var n := s.next;
    var inits := InitsOf(p, n);
    var added := Added(q, i, n, InsertAt(Kids(s, q), i, n));
    InitsOrder(p, n);
    assert r.res.childChange == s.res.childChange + inits + [added];
    FilterConcat(s.res.childChange + inits, [added], (e: ChildChange) => e.Initialized?);
    FilterConcat(s.res.childChange, inits, (e: ChildChange) => e.Initialized?);
    FilterAll(inits, (e: ChildChange) => e.Initialized?);
    FilterNone([added], (e: ChildChange) => e.Initialized?);
  }

  /** A removal passes nothing to `onAdded()`. */
  lemma RemovalAddsNothing<T>(s: Store<T>, r: Store<T>, q: NodeId, i: nat)
    requires q in s.nodes && i < |Kids(s, q)| && RemovedAt(s, r, q, i)
    ensures AddedEvents(r.res) == AddedEvents(s.res)
  {
    var e := Removed(q, Kids(s, q)[i], RemoveAt(Kids(s, q), i), i, Kids(s, q));
    if !s.res.closed {
      assert r.res.childChange == s.res.childChange + [e];
      FilterConcat(s.res.childChange, [e], (e: ChildChange) => e.Initialized?);
      FilterNone([e], (e: ChildChange) => e.Initialized?);
    }
  }
}
