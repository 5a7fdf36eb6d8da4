/** The node arena: every `TreeNode` object of one tree as a record under an integer handle,
    together with the tree's shared channels. Handles are handed out in creation order, so a
    node's handle is larger than its parent's. */
module Arena {
  import opened Seqs
  import opened Events
  import opened TreeResource

  /** The three-state parent reference: `"tree"` (a root), a live parent, or `undefined`
      (detached by a removal). */
  datatype Parent = Root | Attached(id: NodeId) | Detached

  /** The state of one `TreeNode`: parent link, ordered children, payload, flags, cached height. */
  datatype Node<T> = Node(parent: Parent, children: seq<NodeId>, data: T, selected: bool, visible: bool, height: nat)

  /** All nodes ever created for one tree, the next free handle, and the shared channels. */
  datatype Store<T> = Store(nodes: map<NodeId, Node<T>>, next: NodeId, res: Resource<T>)

  /** Referential integrity of the arena: handles below `next`, children and parents exist,
      and every child was created after its parent. */
  ghost predicate Closed<T>(s: Store<T>) {
    && (forall id | id in s.nodes :: id < s.next)
    && (forall p, i | p in s.nodes && 0 <= i < |s.nodes[p].children| ::
          s.nodes[p].children[i] in s.nodes && p < s.nodes[p].children[i])
    && (forall c | c in s.nodes && s.nodes[c].parent.Attached? ::
          s.nodes[c].parent.id in s.nodes && s.nodes[c].parent.id < c)
  }

  /** Parent/child consistency over EVERY node of the arena, reachable or not: a listed child
      points back at the node listing it, no list repeats a node, and an attached node is
      listed by its parent. */
  ghost predicate Linked<T>(s: Store<T>)
    requires Closed(s)
  {
    && (forall p, i | p in s.nodes && 0 <= i < |s.nodes[p].children| ::
          s.nodes[s.nodes[p].children[i]].parent == Attached(p))
    && (forall p | p in s.nodes :: NoDup(s.nodes[p].children))
    && (forall c | c in s.nodes && s.nodes[c].parent.Attached? ::
          c in s.nodes[s.nodes[c].parent.id].children)
  }

  /** The invariant every reachable arena satisfies. */
  ghost predicate Valid<T>(s: Store<T>) {
    Closed(s) && Linked(s)
  }

  /** Under the invariant a node is attached to `p` exactly when it occurs exactly once among
      `p`'s children. */
  lemma AttachedIffListedOnce<T>(s: Store<T>, c: NodeId, p: NodeId)
    requires Valid(s) && c in s.nodes && p in s.nodes
    ensures s.nodes[c].parent == Attached(p) <==> Count(s.nodes[p].children, c) == 1
  {
    var kids := s.nodes[p].children;
    CountNoDup(kids, c);
    if c in kids {
      var i :| 0 <= i < |kids| && kids[i] == c;
      assert s.nodes[kids[i]].parent == Attached(p);
    }
  }

  /** A node listed by two nodes would have two parents: under the invariant no node is. */
  lemma ListedByOneParent<T>(s: Store<T>, c: NodeId, p: NodeId, q: NodeId)
    requires Valid(s) && p in s.nodes && q in s.nodes
    requires c in s.nodes[p].children && c in s.nodes[q].children
    ensures p == q
  {
    var i :| 0 <= i < |s.nodes[p].children| && s.nodes[p].children[i] == c;
    var j :| 0 <= j < |s.nodes[q].children| && s.nodes[q].children[j] == c;
    assert s.nodes[s.nodes[p].children[i]].parent == Attached(p);
    assert s.nodes[s.nodes[q].children[j]].parent == Attached(q);
  }

  /** `setChildren`: replace a node's child list and push the describing event. */
  function SetChildren<T>(s: Store<T>, id: NodeId, kids: seq<NodeId>, e: ChildChange): Store<T>
    requires id in s.nodes
  {
    s.(nodes := s.nodes[id := s.nodes[id].(children := kids)], res := EmitChildChange(s.res, e))
  }

  /** Installing a child list keeps the arena closed when every listed child exists and was
      created after the node. */
  lemma SetChildrenClosed<T>(s: Store<T>, id: NodeId, kids: seq<NodeId>, e: ChildChange)
    requires Closed(s) && id in s.nodes
    requires forall i | 0 <= i < |kids| :: kids[i] in s.nodes && id < kids[i]
    ensures Closed(SetChildren(s, id, kids, e))
  {
  }

  /** Every child of `id` is in the arena. */
  ghost predicate ChildrenPresent<T>(s: Store<T>, id: NodeId)
    requires id in s.nodes
  {
    forall i | 0 <= i < |s.nodes[id].children| :: s.nodes[id].children[i] in s.nodes
  }

  /** A cached height that is consistent with the children's cached heights: 1 for a leaf,
      otherwise one more than the tallest child. */
  ghost predicate HeightFits<T>(s: Store<T>, id: NodeId)
    requires id in s.nodes && ChildrenPresent(s, id)
  {
    var kids := s.nodes[id].children;
    && (forall i | 0 <= i < |kids| :: s.nodes[kids[i]].height < s.nodes[id].height)
    && (kids == [] ==> s.nodes[id].height == 1)
    && (kids != [] ==> exists i | 0 <= i < |kids| :: s.nodes[id].height == s.nodes[kids[i]].height + 1)
  }

  /** The `reduce` in `updateHeight`: the running maximum of the children's cached heights. */
  function ReduceMaxHeight<T>(s: Store<T>, ids: seq<NodeId>, acc: nat): (m: nat)
    requires forall i | 0 <= i < |ids| :: ids[i] in s.nodes
    ensures acc <= m
    ensures forall i | 0 <= i < |ids| :: s.nodes[ids[i]].height <= m
    ensures m == acc || exists i | 0 <= i < |ids| :: s.nodes[ids[i]].height == m
  {
    if ids == [] then acc
    else
      var h := s.nodes[ids[0]].height;
      var m := ReduceMaxHeight(s, ids[1..], if h > acc then h else acc);
      assert forall i | 1 <= i < |ids| :: ids[i] == ids[1..][i - 1];
      m
  }

  /** `updateHeight()` on one node: recompute its cached height from its children's. */
  method RefreshHeight<T>(s: Store<T>, id: NodeId) returns (r: Store<T>)
    requires id in s.nodes && ChildrenPresent(s, id)
    requires id !in s.nodes[id].children
    ensures r.next == s.next && r.res == s.res && r.nodes.Keys == s.nodes.Keys
    ensures r.nodes[id] == s.nodes[id].(height := r.nodes[id].height)
    ensures forall k | k in s.nodes && k != id :: r.nodes[k] == s.nodes[k]
    ensures ChildrenPresent(r, id) && HeightFits(r, id)
    ensures Closed(s) ==> Closed(r)
  {
    var kids := s.nodes[id].children;
    var h := if |kids| == 0 then 1 else ReduceMaxHeight(s, kids, 0) + 1;
    r := s.(nodes := s.nodes[id := s.nodes[id].(height := h)]);
    assert forall i | 0 <= i < |kids| :: r.nodes[kids[i]] == s.nodes[kids[i]];
  }

  /** Whether a cached height fits depends only on the node's own record and its children's. */
  lemma HeightFitsFrame<T>(s: Store<T>, r: Store<T>, id: NodeId)
    requires id in s.nodes && id in r.nodes && r.nodes[id] == s.nodes[id] && ChildrenPresent(s, id)
    requires forall i | 0 <= i < |s.nodes[id].children| ::
               s.nodes[id].children[i] in r.nodes && r.nodes[s.nodes[id].children[i]] == s.nodes[s.nodes[id].children[i]]
    ensures ChildrenPresent(r, id)
    ensures HeightFits(r, id) == HeightFits(s, id)
  {
  }

  /** What `updateHeight(propagate)` leaves behind: only cached heights change, the node's
      height fits its children's and, with `propagate`, so does its parent's; no node further
      up is touched. */
  ghost predicate HeightsRefreshed<T>(s: Store<T>, r: Store<T>, id: NodeId, propagate: bool) {
    && id in s.nodes
    && r.next == s.next && r.res == s.res && r.nodes.Keys == s.nodes.Keys
    && (forall k | k in s.nodes :: r.nodes[k] == s.nodes[k].(height := r.nodes[k].height))
    && ChildrenPresent(r, id) && HeightFits(r, id)
    && (propagate && s.nodes[id].parent.Attached? ==>
          var p := s.nodes[id].parent.id; p in r.nodes && ChildrenPresent(r, p) && HeightFits(r, p))
    && (forall k | k in s.nodes && k != id && !(propagate && s.nodes[id].parent == Attached(k)) ::
          r.nodes[k] == s.nodes[k])
  }

  /** `updateHeight(propagate)`: refresh this node, and with `propagate` also its parent when the
      parent is a node (without propagating further). */
  method UpdateHeight<T>(s: Store<T>, id: NodeId, propagate: bool) returns (r: Store<T>)
    requires Closed(s) && id in s.nodes
    ensures Closed(r) && HeightsRefreshed(s, r, id, propagate)
  {
    r := RefreshHeight(s, id);
    if propagate && s.nodes[id].parent.Attached? {
      var p := s.nodes[id].parent.id;
      assert p !in r.nodes[p].children;
      var s1 := r;
      r := RefreshHeight(s1, p);
      assert forall i | 0 <= i < |s1.nodes[id].children| :: p < s1.nodes[id].children[i];
      HeightFitsFrame(s1, r, id);
      HeightsOnlyCompose(s, s1, r, id, p);
    }
  }

  /** Two height refreshes of distinct nodes in a row change no more than those two heights. */
  lemma HeightsOnlyCompose<T>(s: Store<T>, s1: Store<T>, r: Store<T>, id: NodeId, p: NodeId)
    requires id != p && id in s.nodes && p in s.nodes
    requires s1.nodes.Keys == s.nodes.Keys && r.nodes.Keys == s.nodes.Keys
    requires s1.nodes[id] == s.nodes[id].(height := s1.nodes[id].height)
    requires forall k | k in s.nodes && k != id :: s1.nodes[k] == s.nodes[k]
    requires r.nodes[p] == s1.nodes[p].(height := r.nodes[p].height)
    requires forall k | k in s1.nodes && k != p :: r.nodes[k] == s1.nodes[k]
    ensures forall k | k in s.nodes :: r.nodes[k] == s.nodes[k].(height := r.nodes[k].height)
    ensures forall k | k in s.nodes && k != id && k != p :: r.nodes[k] == s.nodes[k]
  {
    forall k | k in s.nodes ensures r.nodes[k] == s.nodes[k].(height := r.nodes[k].height) {
      if k == p {
        assert s1.nodes[p] == s.nodes[p];
      } else {
        assert r.nodes[k] == s1.nodes[k];
      }
    }
  }
}
