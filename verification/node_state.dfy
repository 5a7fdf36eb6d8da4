/** The per-node setters of `TreeNode`: the `data` setter, `select`, `deselect` and
    `setVisibility`. Each changes one field of one node and pushes one event. */
module NodeState {
  import opened Seqs
  import opened Events
  import opened TreeResource
  import opened Arena

  /** Nothing but the record of `id` and the channels differ between `s` and `r`, and the
      record of `id` differs at most in its payload and flags. */
  ghost predicate OnlyFlagsOf<T>(s: Store<T>, r: Store<T>, id: NodeId)
    requires id in s.nodes
  {
    && r.next == s.next && r.nodes.Keys == s.nodes.Keys
    && (forall k | k in s.nodes && k != id :: r.nodes[k] == s.nodes[k])
    && r.nodes[id].parent == s.nodes[id].parent
    && r.nodes[id].children == s.nodes[id].children
    && r.nodes[id].height == s.nodes[id].height
  }

  /** The arena invariant and the cached heights only read parents, children and heights, so
      a change confined to payload and flags keeps them. */
  lemma FlagsKeepInvariant<T>(s: Store<T>, r: Store<T>, id: NodeId)
    requires id in s.nodes && OnlyFlagsOf(s, r, id)
    ensures Closed(s) ==> Closed(r)
    ensures Valid(s) ==> Valid(r)
  {
    assert forall k | k in s.nodes :: r.nodes[k].children == s.nodes[k].children;
    assert forall k | k in s.nodes :: r.nodes[k].parent == s.nodes[k].parent;
  }

  /** `set data(value)`: stores the new payload and pushes `{data, previous, node}` on the
      update channel, `previous` being the payload it replaced. */
  function SetData<T>(s: Store<T>, id: NodeId, data: T): (r: Store<T>)
    requires id in s.nodes
    ensures OnlyFlagsOf(s, r, id)
    ensures r.nodes[id] == s.nodes[id].(data := data)
    ensures r.res.(updated := s.res.updated) == s.res
    ensures s.res.closed ==> r.res.updated == s.res.updated
    ensures !s.res.closed ==> r.res.updated == s.res.updated + [Update(data, s.nodes[id].data, id)]
  {
    var previous := s.nodes[id].data;
    s.(nodes := s.nodes[id := s.nodes[id].(data := data)],
       res := EmitUpdated(s.res, Update(data, previous, id)))
  }

  /** `select()`: marks the node selected and pushes `{selected: true, node}`. */
  function Select<T>(s: Store<T>, id: NodeId): (r: Store<T>)
    requires id in s.nodes
    ensures OnlyFlagsOf(s, r, id)
    ensures r.nodes[id] == s.nodes[id].(selected := true)
    ensures r.res.(selection := s.res.selection) == s.res
    ensures s.res.closed ==> r.res.selection == s.res.selection
    ensures !s.res.closed ==> r.res.selection == s.res.selection + [SelectionChange(true, id)]
  {
    s.(nodes := s.nodes[id := s.nodes[id].(selected := true)],
       res := EmitSelection(s.res, SelectionChange(true, id)))
  }

  /** `deselect()`: clears the selection mark and pushes `{selected: false, node}`. */
  function Deselect<T>(s: Store<T>, id: NodeId): (r: Store<T>)
    requires id in s.nodes
    ensures OnlyFlagsOf(s, r, id)
    ensures r.nodes[id] == s.nodes[id].(selected := false)
    ensures r.res.(selection := s.res.selection) == s.res
    ensures s.res.closed ==> r.res.selection == s.res.selection
    ensures !s.res.closed ==> r.res.selection == s.res.selection + [SelectionChange(false, id)]
  {
    s.(nodes := s.nodes[id := s.nodes[id].(selected := false)],
       res := EmitSelection(s.res, SelectionChange(false, id)))
  }

  /** `setVisibility(visible)`: stores the flag and pushes `{visible, node}`, whether or not the
      flag changed. */
  function SetVisibility<T>(s: Store<T>, id: NodeId, visible: bool): (r: Store<T>)
    requires id in s.nodes
    ensures OnlyFlagsOf(s, r, id)
    ensures r.nodes[id] == s.nodes[id].(visible := visible)
    ensures r.res.(visibility := s.res.visibility) == s.res
    ensures s.res.closed ==> r.res.visibility == s.res.visibility
    ensures !s.res.closed ==> r.res.visibility == s.res.visibility + [VisibilityChange(visible, id)]
  {
    s.(nodes := s.nodes[id := s.nodes[id].(visible := visible)],
       res := EmitVisibility(s.res, VisibilityChange(visible, id)))
  }

  /** The setters keep the arena invariant. */
  lemma SettersKeepInvariant<T>(s: Store<T>, id: NodeId, data: T, visible: bool)
    requires Valid(s) && id in s.nodes
    ensures Valid(SetData(s, id, data)) && Valid(Select(s, id))
    ensures Valid(Deselect(s, id)) && Valid(SetVisibility(s, id, visible))
  {
    FlagsKeepInvariant(s, SetData(s, id, data), id);
    FlagsKeepInvariant(s, Select(s, id), id);
    FlagsKeepInvariant(s, Deselect(s, id), id);
    FlagsKeepInvariant(s, SetVisibility(s, id, visible), id);
  }

  /** Each setter's event shows up in the node's own `on…` view, after what it already held,
      and in no other node's view; the other views of every node, `onRemoved()` included, are
      untouched. */
  lemma SetterViews<T>(s: Store<T>, id: NodeId, data: T, visible: bool, k: NodeId)
    requires id in s.nodes
    ensures NodeUpdates(SetData(s, id, data).res, k)
         == NodeUpdates(s.res, k) + (if !s.res.closed && k == id then [Update(data, s.nodes[id].data, id)] else [])
    ensures NodeSelectionChanges(Select(s, id).res, k)
         == NodeSelectionChanges(s.res, k) + (if !s.res.closed && k == id then [SelectionChange(true, id)] else [])
    ensures NodeSelectionChanges(Deselect(s, id).res, k)
         == NodeSelectionChanges(s.res, k) + (if !s.res.closed && k == id then [SelectionChange(false, id)] else [])
    ensures NodeVisibilityChanges(SetVisibility(s, id, visible).res, k)
         == NodeVisibilityChanges(s.res, k) + (if !s.res.closed && k == id then [VisibilityChange(visible, id)] else [])
    // `set data` leaves the child-change, visibility, selection and removal views alone
    ensures NodeChildChanges(SetData(s, id, data).res, k) == NodeChildChanges(s.res, k)
    ensures NodeVisibilityChanges(SetData(s, id, data).res, k) == NodeVisibilityChanges(s.res, k)
    ensures NodeSelectionChanges(SetData(s, id, data).res, k) == NodeSelectionChanges(s.res, k)
    ensures NodeRemoval(SetData(s, id, data).res, k) == NodeRemoval(s.res, k)
    // `select()` leaves the child-change, visibility, update and removal views alone
    ensures NodeChildChanges(Select(s, id).res, k) == NodeChildChanges(s.res, k)
    ensures NodeVisibilityChanges(Select(s, id).res, k) == NodeVisibilityChanges(s.res, k)
    ensures NodeUpdates(Select(s, id).res, k) == NodeUpdates(s.res, k)
    ensures NodeRemoval(Select(s, id).res, k) == NodeRemoval(s.res, k)
    // `deselect()` leaves the child-change, visibility, update and removal views alone
    ensures NodeChildChanges(Deselect(s, id).res, k) == NodeChildChanges(s.res, k)
    ensures NodeVisibilityChanges(Deselect(s, id).res, k) == NodeVisibilityChanges(s.res, k)
    ensures NodeUpdates(Deselect(s, id).res, k) == NodeUpdates(s.res, k)
    ensures NodeRemoval(Deselect(s, id).res, k) == NodeRemoval(s.res, k)
    // `setVisibility` leaves the child-change, update, selection and removal views alone
    ensures NodeChildChanges(SetVisibility(s, id, visible).res, k) == NodeChildChanges(s.res, k)
    ensures NodeUpdates(SetVisibility(s, id, visible).res, k) == NodeUpdates(s.res, k)
    ensures NodeSelectionChanges(SetVisibility(s, id, visible).res, k) == NodeSelectionChanges(s.res, k)
    ensures NodeRemoval(SetVisibility(s, id, visible).res, k) == NodeRemoval(s.res, k)
  {
    UpdateViews(s.res, Update(data, s.nodes[id].data, id));
    SelectionViews(s.res, SelectionChange(true, id));
    SelectionViews(s.res, SelectionChange(false, id));
    VisibilityViews(s.res, VisibilityChange(visible, id));
  }
}
