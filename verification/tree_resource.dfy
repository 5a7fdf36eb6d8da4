/** The tree-scoped bundle of five notification channels (`TreeResource`), modelled as
    append-only logs plus a `closed` flag, and the views the nodes and the tree hand out. */
module TreeResource {
  import opened Wrappers
  import opened Seqs
  import opened Events

  /** Removal, visibility, update, selection and child-change channels. */
  datatype Resource<T> = Resource(
    removed: seq<NodeId>,
    visibility: seq<VisibilityChange>,
    updated: seq<Update<T>>,
    selection: seq<SelectionChange>,
    childChange: seq<ChildChange>,
    closed: bool)

  /** The channels `createTree` makes: empty and open. */
  function NewResource<T>(): (r: Resource<T>)
    ensures !r.closed
    ensures r.removed == [] && r.visibility == [] && r.updated == []
    ensures r.selection == [] && r.childChange == []
  {
    Resource([], [], [], [], [], false)
  }

  /** Pushing `e` onto a channel: recorded while open, dropped once the channel is closed. */
  function Push<E>(log: seq<E>, closed: bool, e: E): (r: seq<E>)
    ensures closed ==> r == log
    ensures !closed ==> |r| == |log| + 1 && r[..|log|] == log && r[|log|] == e
  {
    if closed then log else log + [e]
  }

  function EmitRemoved<T>(r: Resource<T>, node: NodeId): Resource<T> {
    r.(removed := Push(r.removed, r.closed, node))
  }

  function EmitVisibility<T>(r: Resource<T>, e: VisibilityChange): Resource<T> {
    r.(visibility := Push(r.visibility, r.closed, e))
  }

  function EmitUpdated<T>(r: Resource<T>, e: Update<T>): Resource<T> {
    r.(updated := Push(r.updated, r.closed, e))
  }

  function EmitSelection<T>(r: Resource<T>, e: SelectionChange): Resource<T> {
    r.(selection := Push(r.selection, r.closed, e))
  }

  function EmitChildChange<T>(r: Resource<T>, e: ChildChange): Resource<T> {
    r.(childChange := Push(r.childChange, r.closed, e))
  }

  /** `complete()` on all five subjects: every channel closed, nothing recorded is lost. */
  function Complete<T>(r: Resource<T>): (c: Resource<T>)
    ensures c.closed
    ensures c.removed == r.removed && c.visibility == r.visibility && c.updated == r.updated
    ensures c.selection == r.selection && c.childChange == r.childChange
  {
    r.(closed := true)
  }

  /** A node's `onChildChanged()`: the child-change channel seen through `event.node == this`. */
  function NodeChildChanges<T>(r: Resource<T>, id: NodeId): seq<ChildChange> {
    Filter(r.childChange, (e: ChildChange) => e.node == id)
  }

  /** A node's `onVisibilityChange()`. */
  function NodeVisibilityChanges<T>(r: Resource<T>, id: NodeId): seq<VisibilityChange> {
    Filter(r.visibility, (e: VisibilityChange) => e.node == id)
  }

  /** A node's `onUpdated()`. */
  function NodeUpdates<T>(r: Resource<T>, id: NodeId): seq<Update<T>> {
    Filter(r.updated, (e: Update<T>) => e.node == id)
  }

  /** A node's `onSelectionChange()`. */
  function NodeSelectionChanges<T>(r: Resource<T>, id: NodeId): seq<SelectionChange> {
    Filter(r.selection, (e: SelectionChange) => e.node == id)
  }

  /** A node's `onRemoved()` promise: the first removal-channel entry that is this node, which
      settles with the node itself; `None` while the node has not been removed. */
  function NodeRemoval<T>(r: Resource<T>, id: NodeId): (p: Option<NodeId>)
    ensures p.Some? <==> id in r.removed
    ensures p.Some? ==> p.value == id
  {
    First(r.removed, (n: NodeId) => n == id)
  }

  /** The tree's `onAdded()`: only the `INITIALIZED` entries of the child-change channel. */
  function AddedEvents<T>(r: Resource<T>): (es: seq<ChildChange>)
    ensures forall i | 0 <= i < |es| :: es[i].Initialized? && es[i] in r.childChange
    ensures forall i | 0 <= i < |r.childChange| && r.childChange[i].Initialized? :: r.childChange[i] in es
  {
    Filter(r.childChange, (e: ChildChange) => e.Initialized?)
  }

  /** Per-node views are sound and complete with respect to the shared channels: an entry shows
      up in a node's view exactly when it is on the channel and tagged with that node. Hence the
      tree-wide (unfiltered) channel delivers every entry any node's view delivers, and every
      entry reaches the view of the node it names. */
  lemma NodeViewsPartitionChannels<T>(r: Resource<T>, id: NodeId)
    ensures forall e :: e in NodeChildChanges(r, id) <==> e in r.childChange && e.node == id
    ensures forall e :: e in NodeVisibilityChanges(r, id) <==> e in r.visibility && e.node == id
    ensures forall e :: e in NodeUpdates(r, id) <==> e in r.updated && e.node == id
    ensures forall e :: e in NodeSelectionChanges(r, id) <==> e in r.selection && e.node == id
  {
    FilterMembers(r.childChange, (e: ChildChange) => e.node == id);
    FilterMembers(r.visibility, (e: VisibilityChange) => e.node == id);
    FilterMembers(r.updated, (e: Update<T>) => e.node == id);
    FilterMembers(r.selection, (e: SelectionChange) => e.node == id);
  }

  /** An emitted child change reaches the view of the node it names, and only that one;
      nothing reaches any view once the channels are closed. */
  lemma ChildChangeViews<T>(r: Resource<T>, e: ChildChange)
    ensures forall k :: NodeChildChanges(EmitChildChange(r, e), k)
                     == NodeChildChanges(r, k) + (if !r.closed && e.node == k then [e] else [])
  {
    forall k ensures NodeChildChanges(EmitChildChange(r, e), k)
                  == NodeChildChanges(r, k) + (if !r.closed && e.node == k then [e] else []) {
      if !r.closed {
        FilterConcat(r.childChange, [e], (x: ChildChange) => x.node == k);
      }
    }
  }

  /** An emitted visibility change reaches the view of its node only. */
  lemma VisibilityViews<T>(r: Resource<T>, e: VisibilityChange)
    ensures forall k :: NodeVisibilityChanges(EmitVisibility(r, e), k)
                     == NodeVisibilityChanges(r, k) + (if !r.closed && e.node == k then [e] else [])
  {
    forall k ensures NodeVisibilityChanges(EmitVisibility(r, e), k)
                  == NodeVisibilityChanges(r, k) + (if !r.closed && e.node == k then [e] else []) {
      if !r.closed {
        FilterConcat(r.visibility, [e], (x: VisibilityChange) => x.node == k);
      }
    }
  }

  /** An emitted update reaches the view of its node only. */
  lemma UpdateViews<T>(r: Resource<T>, e: Update<T>)
    ensures forall k :: NodeUpdates(EmitUpdated(r, e), k)
                     == NodeUpdates(r, k) + (if !r.closed && e.node == k then [e] else [])
  {
    forall k ensures NodeUpdates(EmitUpdated(r, e), k)
                  == NodeUpdates(r, k) + (if !r.closed && e.node == k then [e] else []) {
      if !r.closed {
        FilterConcat(r.updated, [e], (x: Update<T>) => x.node == k);
      }
    }
  }

  /** An emitted selection change reaches the view of its node only. */
  lemma SelectionViews<T>(r: Resource<T>, e: SelectionChange)
    ensures forall k :: NodeSelectionChanges(EmitSelection(r, e), k)
                     == NodeSelectionChanges(r, k) + (if !r.closed && e.node == k then [e] else [])
  {
    forall k ensures NodeSelectionChanges(EmitSelection(r, e), k)
                  == NodeSelectionChanges(r, k) + (if !r.closed && e.node == k then [e] else []) {
      if !r.closed {
        FilterConcat(r.selection, [e], (x: SelectionChange) => x.node == k);
      }
    }
  }

  /** A removal settles the removed node's `onRemoved()` promise and no other pending one. */
  lemma RemovalViews<T>(r: Resource<T>, n: NodeId)
    ensures NodeRemoval(EmitRemoved(r, n), n) == (if r.closed then NodeRemoval(r, n) else Some(n))
    ensures forall k | k != n :: NodeRemoval(EmitRemoved(r, n), k) == NodeRemoval(r, k)
  {
  }
}
