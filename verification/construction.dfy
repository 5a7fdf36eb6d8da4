/** Building nodes from blueprints (the `TreeNode` constructor) and reading them back (the
    `prop` getter). A blueprint is built in pre-order: the node takes the next free handle,
    pushes an update event, builds its children left to right, then pushes its `INITIALIZED`
    event and computes its height. */
module Construction {
  import opened Seqs
  import opened Events
  import opened TreeResource
  import opened NodeProps
  import opened Arena
  import opened Structure
  import opened NodeState

  /** The handles the blueprints `ps` receive when built one after another from handle `base`:
      each takes the first handle of its range, and its subtree uses `PropSize` handles. */
  function ChildIds<T>(ps: seq<NodeProp<T>>, base: nat): (ids: seq<NodeId>)
    ensures |ids| == |ps|
    ensures forall i | 0 <= i < |ids| :: base <= ids[i] < base + PropsSize(ps)
    ensures forall i, j | 0 <= i < j < |ids| :: ids[i] < ids[j]
    ensures ps != [] ==> ids[0] == base
  {
    if ps == [] then []
    else
      var rest := ChildIds(ps[1..], base + PropSize(ps[0]));
      [base] + rest
  }

  /** The update events building `p` from handle `base` pushes, in pre-order: every node
      reports its own payload as both the new and the previous value. */
  function UpdatesOf<T>(p: NodeProp<T>, base: nat): (es: seq<Update<T>>)
    decreases p, 1
  {
    match p.children
    case Absent => [Update(p.data, p.data, base)]
    case Present(list) => [Update(p.data, p.data, base)] + UpdatesAll(list, base + 1)
  }

  function UpdatesAll<T>(ps: seq<NodeProp<T>>, base: nat): (es: seq<Update<T>>)
    decreases ps, 0
  {
    if ps == [] then []
    else UpdatesOf(ps[0], base) + UpdatesAll(ps[1..], base + PropSize(ps[0]))
  }

  /** The child-change events building `p` from handle `base` pushes, in post-order: every node
      reports `INITIALIZED` with its children after all of its descendants did. */
  function InitsOf<T>(p: NodeProp<T>, base: nat): (es: seq<ChildChange>)
    decreases p, 1
  {
    match p.children
    case Absent => [Initialized(base, [])]
    case Present(list) => InitsAll(list, base + 1) + [Initialized(base, ChildIds(list, base + 1))]
  }

  function InitsAll<T>(ps: seq<NodeProp<T>>, base: nat): (es: seq<ChildChange>)
    decreases ps, 0
  {
    if ps == [] then []
    else InitsOf(ps[0], base) + InitsAll(ps[1..], base + PropSize(ps[0]))
  }

  /** The arena holds the subtree built from `p` at handle `base` under `parent`: each node
      carries its blueprint's payload, is unselected and visible, has its children at the
      handles `ChildIds` gives, and caches its blueprint's height. */
  ghost predicate Placed<T>(r: Store<T>, p: NodeProp<T>, base: NodeId, parent: Parent)
    decreases p, 1
  {
    && base in r.nodes
    && r.nodes[base].parent == parent
    && r.nodes[base].data == p.data
    && !r.nodes[base].selected
    && r.nodes[base].visible
    && r.nodes[base].height == PropHeight(p)
    && match p.children
       case Absent => r.nodes[base].children == []
       case Present(list) =>
         r.nodes[base].children == ChildIds(list, base + 1) && PlacedAll(r, list, base + 1, base)
  }

  /** The blueprints `ps` are placed one after another from handle `base`, all under `owner`. */
  ghost predicate PlacedAll<T>(r: Store<T>, ps: seq<NodeProp<T>>, base: NodeId, owner: NodeId)
    decreases ps, 0
  {
    ps == [] || (Placed(r, ps[0], base, Attached(owner)) && PlacedAll(r, ps[1..], base + PropSize(ps[0]), owner))
  }

  /** A placed subtree stays placed as long as the records in its handle range stay the same. */
  lemma {:induction false} PlacedFrame<T>(s: Store<T>, r: Store<T>, p: NodeProp<T>, base: NodeId, parent: Parent)
    requires Placed(s, p, base, parent)
    requires forall k | k in s.nodes && base <= k < base + PropSize(p) :: k in r.nodes && r.nodes[k] == s.nodes[k]
    ensures Placed(r, p, base, parent)
    decreases p, 1
  {
    match p.children
    case Absent =>
    case Present(list) => PlacedAllFrame(s, r, list, base + 1, base);
  }

  lemma {:induction false} PlacedAllFrame<T>(s: Store<T>, r: Store<T>, ps: seq<NodeProp<T>>, base: NodeId, owner: NodeId)
    requires PlacedAll(s, ps, base, owner)
    requires forall k | k in s.nodes && base <= k < base + PropsSize(ps) :: k in r.nodes && r.nodes[k] == s.nodes[k]
    ensures PlacedAll(r, ps, base, owner)
    decreases ps, 0
  {
    if ps != [] {
      PlacedFrame(s, r, ps[0], base, Attached(owner));
      PlacedAllFrame(s, r, ps[1..], base + PropSize(ps[0]), owner);
    }
  }

  /** `r` extends `s` by the fresh handles `s.next .. r.next - 1`; no existing record changes. */
  ghost predicate Grows<T>(s: Store<T>, r: Store<T>) {
    && s.next <= r.next
    && (forall k | k in s.nodes :: k in r.nodes && r.nodes[k] == s.nodes[k])
    && (forall k | k in r.nodes :: k in s.nodes || s.next <= k < r.next)
    && (forall k | s.next <= k < r.next :: k in r.nodes)
  }

  /** The children handles of a placed list carry their blueprints' heights. */
  lemma {:induction false} PlacedAllHeights<T>(r: Store<T>, ps: seq<NodeProp<T>>, base: NodeId, owner: NodeId)
    requires PlacedAll(r, ps, base, owner)
    ensures forall i | 0 <= i < |ps| ::
              ChildIds(ps, base)[i] in r.nodes && r.nodes[ChildIds(ps, base)[i]].height == PropHeight(ps[i])
    decreases ps, 0
  {
    if ps != [] {
      PlacedAllHeights(r, ps[1..], base + PropSize(ps[0]), owner);
      var ids := ChildIds(ps, base);
      assert forall i | 1 <= i < |ps| :: ids[i] == ChildIds(ps[1..], base + PropSize(ps[0]))[i - 1];
    }
  }

  /** A height recomputed from children carrying their blueprints' heights is the height of
      the blueprint list plus one. */
  lemma FitsPropHeight<T>(r: Store<T>, id: NodeId, ps: seq<NodeProp<T>>)
    requires id in r.nodes && ChildrenPresent(r, id) && HeightFits(r, id)
    requires |r.nodes[id].children| == |ps|
    requires forall i | 0 <= i < |ps| :: r.nodes[r.nodes[id].children[i]].height == PropHeight(ps[i])
    ensures r.nodes[id].height == 1 + PropsHeight(ps)
  {
    if ps != [] {
      PropsHeightAttained(ps);
      var kids := r.nodes[id].children;
      var i :| 0 <= i < |ps| && PropHeight(ps[i]) == PropsHeight(ps);
      assert r.nodes[kids[i]].height < r.nodes[id].height;
      var j :| 0 <= j < |kids| && r.nodes[id].height == r.nodes[kids[j]].height + 1;
      assert PropHeight(ps[j]) <= PropsHeight(ps);
    }
  }

  /** Growth composes. */
  lemma GrowsTrans<T>(a: Store<T>, b: Store<T>, c: Store<T>)
    requires Grows(a, b) && Grows(b, c)
    ensures Grows(a, c)
  {
  }

  /** The channels after a build that pushed the updates `us` and the child changes `cs`:
      both logs extended while the channels are open, nothing recorded once they are closed,
      and the other three channels untouched. */
  function Logged<T>(res: Resource<T>, us: seq<Update<T>>, cs: seq<ChildChange>): (r: Resource<T>)
    ensures r.closed == res.closed && r.removed == res.removed
    ensures r.visibility == res.visibility && r.selection == res.selection
  {
    if res.closed then res else res.(updated := res.updated + us, childChange := res.childChange + cs)
  }

  /** Two builds in a row log what their concatenation logs. */
  lemma LoggedTwice<T>(res: Resource<T>, a: seq<Update<T>>, b: seq<ChildChange>, c: seq<Update<T>>, d: seq<ChildChange>)
    ensures Logged(Logged(res, a, b), c, d) == Logged(res, a + c, b + d)
  {
    if !res.closed {
      assert res.updated + a + c == res.updated + (a + c);
      assert res.childChange + b + d == res.childChange + (b + d);
    }
  }

  /** The events of building one blueprint: its update before its descendants', its
      `INITIALIZED` after theirs. */
  lemma NodeCons<T>(p: NodeProp<T>, base: nat)
    ensures UpdatesOf(p, base) == [Update(p.data, p.data, base)] + UpdatesAll(Specs(p), base + 1)
    ensures InitsOf(p, base) == InitsAll(Specs(p), base + 1) + [Initialized(base, ChildIds(Specs(p), base + 1))]
  {
    match p.children
    case Absent =>
      assert UpdatesOf(p, base) == [Update(p.data, p.data, base)] + [];
      assert InitsOf(p, base) == [] + [Initialized(base, [])];
    case Present(list) =>
  }

  /** The handles and size of a non-empty blueprint list: its head's, then its rest's. */
  lemma ListCons<T>(ps: seq<NodeProp<T>>, base: nat)
    requires ps != []
    ensures ChildIds(ps, base) == [base] + ChildIds(ps[1..], base + PropSize(ps[0]))
    ensures PropsSize(ps) == PropSize(ps[0]) + PropsSize(ps[1..])
    ensures UpdatesAll(ps, base) == UpdatesOf(ps[0], base) + UpdatesAll(ps[1..], base + PropSize(ps[0]))
    ensures InitsAll(ps, base) == InitsOf(ps[0], base) + InitsAll(ps[1..], base + PropSize(ps[0]))
  {
  }

  /** The first half of the constructor: the node takes the next free handle, starts
      unselected, visible, childless and of height 1, and its `data` assignment pushes an
      update event reporting the payload as both the new and the previous value. */
  method StartNode<T>(s: Store<T>, p: NodeProp<T>, parent: Parent) returns (r: Store<T>)
    requires Closed(s)
    requires parent.Attached? ==> parent.id in s.nodes
    ensures Closed(r) && r.next == s.next + 1
    ensures r.nodes == s.nodes[s.next := Node(parent, [], p.data, false, true, 1)]
    ensures r.res == Logged(s.res, [Update(p.data, p.data, s.next)], [])
  {
    var id := s.next;
    var s1 := s.(nodes := s.nodes[id := Node(parent, [], p.data, false, true, 1)], next := s.next + 1);
    r := SetData(s1, id, p.data);
    FlagsKeepInvariant(s1, r, id);
  }

  /** The second half of the constructor: install the built children, push `INITIALIZED` with
      them and refresh the node's own height without propagating to its parent. Only the
      node's record changes, in its children and height. */
  method FinishNode<T>(s: Store<T>, id: NodeId, kids: seq<NodeId>) returns (r: Store<T>)
    requires Closed(s) && id in s.nodes
    requires forall i | 0 <= i < |kids| :: kids[i] in s.nodes && id < kids[i]
    ensures Closed(r) && r.next == s.next && r.nodes.Keys == s.nodes.Keys
    ensures forall k | k in s.nodes && k != id :: r.nodes[k] == s.nodes[k]
    ensures r.nodes[id] == s.nodes[id].(children := kids, height := r.nodes[id].height)
    ensures ChildrenPresent(r, id) && HeightFits(r, id)
    ensures r.res == Logged(s.res, [], [Initialized(id, kids)])
  {
    SetChildrenClosed(s, id, kids, Initialized(id, kids));
    r := UpdateHeight(SetChildren(s, id, kids, Initialized(id, kids)), id, false);
  }

  /** The handles a list was built at are all in the arena and above its owner. */
  lemma ChildIdsPresent<T>(s: Store<T>, r: Store<T>, ps: seq<NodeProp<T>>, owner: NodeId, kids: seq<NodeId>)
    requires Grows(s, r) && r.next == s.next + PropsSize(ps) && owner < s.next
    requires kids == ChildIds(ps, s.next)
    ensures forall i | 0 <= i < |kids| :: kids[i] in r.nodes && owner < kids[i]
  {
  }

  /** The arena after the constructor grows the one it started from by the blueprint's size. */
  lemma NodeGrows<T>(s: Store<T>, p: NodeProp<T>, s2: Store<T>, s3: Store<T>, r: Store<T>)
    requires forall k | k in s.nodes :: k < s.next
    requires s2.next == s.next + 1 && s.next in s2.nodes && s2.nodes == s.nodes[s.next := s2.nodes[s.next]]
    requires Grows(s2, s3) && s3.next == s2.next + PropsSize(Specs(p))
    requires r.next == s3.next && r.nodes.Keys == s3.nodes.Keys
    requires forall k | k in s3.nodes && k != s.next :: r.nodes[k] == s3.nodes[k]
    ensures Grows(s, r) && r.next == s.next + PropSize(p)
  {
  }

  /** The record `FinishNode` leaves at `id`, with the children placed below it, makes the
      whole blueprint placed. */
  lemma NodePlaced<T>(s3: Store<T>, r: Store<T>, p: NodeProp<T>, id: NodeId, parent: Parent, base: NodeId, kids: seq<NodeId>)
    requires id in s3.nodes && base == id + 1
    requires kids == ChildIds(Specs(p), base) && PlacedAll(s3, Specs(p), base, id)
    requires s3.nodes[id] == Node(parent, [], p.data, false, true, 1)
    requires r.nodes.Keys == s3.nodes.Keys
    requires forall k | k in s3.nodes && k != id :: r.nodes[k] == s3.nodes[k]
    requires r.nodes[id] == s3.nodes[id].(children := kids, height := r.nodes[id].height)
    requires ChildrenPresent(r, id) && HeightFits(r, id)
    ensures Placed(r, p, id, parent)
  {
    PlacedAllFrame(s3, r, Specs(p), id + 1, id);
    PlacedAllHeights(r, Specs(p), id + 1, id);
    FitsPropHeight(r, id, Specs(p));
  }

  /** The channels after the constructor: its own update, its descendants' events, then its
      own `INITIALIZED`. */
  lemma NodeLogs<T>(r0: Resource<T>, r2: Resource<T>, r3: Resource<T>, r4: Resource<T>, p: NodeProp<T>, id: NodeId, base: nat, kids: seq<NodeId>)
    requires base == id + 1
    requires r2 == Logged(r0, [Update(p.data, p.data, id)], [])
    requires r3 == Logged(r2, UpdatesAll(Specs(p), base), InitsAll(Specs(p), base))
    requires kids == ChildIds(Specs(p), base)
    requires r4 == Logged(r3, [], [Initialized(id, kids)])
    ensures r4 == Logged(r0, UpdatesOf(p, id), InitsOf(p, id))
  {
    NodeCons(p, id);
    LoggedTwice(r0, [Update(p.data, p.data, id)], [], UpdatesAll(Specs(p), id + 1), InitsAll(Specs(p), id + 1));
    LoggedTwice(r0, [Update(p.data, p.data, id)] + UpdatesAll(Specs(p), id + 1), [] + InitsAll(Specs(p), id + 1),
                [], [Initialized(id, kids)]);
    assert [] + InitsAll(Specs(p), id + 1) == InitsAll(Specs(p), id + 1);
    assert [Update(p.data, p.data, id)] + UpdatesAll(Specs(p), id + 1) + [] == UpdatesOf(p, id);
  }

  /** The arena after a list build grows the one it started from by the list's size. */
  lemma ListGrows<T>(s: Store<T>, ps: seq<NodeProp<T>>, s1: Store<T>, r: Store<T>)
    requires ps != []
    requires Grows(s, s1) && s1.next == s.next + PropSize(ps[0])
    requires Grows(s1, r) && r.next == s1.next + PropsSize(ps[1..])
    ensures Grows(s, r) && r.next == s.next + PropsSize(ps)
  {
    ListCons(ps, s.next);
    GrowsTrans(s, s1, r);
  }

  /** A list is placed when its head is placed and its rest is placed after it. */
  lemma ListPlaced<T>(s: Store<T>, ps: seq<NodeProp<T>>, owner: NodeId, s1: Store<T>, r: Store<T>, rest: seq<NodeId>)
    requires ps != []
    requires Grows(s, s1) && s1.next == s.next + PropSize(ps[0])
    requires Placed(s1, ps[0], s.next, Attached(owner))
    requires Grows(s1, r)
    requires rest == ChildIds(ps[1..], s1.next)
    requires PlacedAll(r, ps[1..], s1.next, owner)
    ensures [s.next] + rest == ChildIds(ps, s.next)
    ensures PlacedAll(r, ps, s.next, owner)
  {
    ListCons(ps, s.next);
    PlacedFrame(s1, r, ps[0], s.next, Attached(owner));
  }

  /** A list build logs its head's events, then its rest's. */
  lemma ListLogged<T>(s: Store<T>, ps: seq<NodeProp<T>>, s1: Store<T>, r: Store<T>)
    requires ps != []
    requires s1.next == s.next + PropSize(ps[0])
    requires s1.res == Logged(s.res, UpdatesOf(ps[0], s.next), InitsOf(ps[0], s.next))
    requires r.res == Logged(s1.res, UpdatesAll(ps[1..], s1.next), InitsAll(ps[1..], s1.next))
    ensures r.res == Logged(s.res, UpdatesAll(ps, s.next), InitsAll(ps, s.next))
  {
    ListCons(ps, s.next);
    LoggedTwice(s.res, UpdatesOf(ps[0], s.next), InitsOf(ps[0], s.next),
                UpdatesAll(ps[1..], s1.next), InitsAll(ps[1..], s1.next));
  }

  /** Building an empty list changes nothing. */
  lemma BuildNothingFacts<T>(s: Store<T>, owner: NodeId)
    ensures Grows(s, s) && s.next == s.next + PropsSize<T>([])
    ensures [] == ChildIds<T>([], s.next)
    ensures PlacedAll<T>(s, [], s.next, owner)
    ensures s.res == Logged(s.res, UpdatesAll<T>([], s.next), InitsAll<T>([], s.next))
  {
    assert s.res.updated + [] == s.res.updated;
    assert s.res.childChange + [] == s.res.childChange;
  }

  /** `new TreeNode(prop, parent, resource)`: the first half, the children built in order as
      `_prop.children?.map(…) ?? []` does, then the second half. */
  method BuildNode<T>(s: Store<T>, p: NodeProp<T>, parent: Parent) returns (r: Store<T>)
    requires Closed(s)
    requires parent.Attached? ==> parent.id in s.nodes
    ensures Closed(r) && Grows(s, r)
    ensures r.next == s.next + PropSize(p)
    ensures Placed(r, p, s.next, parent)
    ensures r.res == Logged(s.res, UpdatesOf(p, s.next), InitsOf(p, s.next))
    decreases PropSize(p), 0
  {
    var s2 := StartNode(s, p, parent);
    var s3, kids := BuildChildren(s2, Specs(p), s.next);
    ChildIdsPresent(s2, s3, Specs(p), s.next, kids);
    r := FinishNode(s3, s.next, kids);
    NodeGrows(s, p, s2, s3, r);
    NodePlaced(s3, r, p, s.next, parent, s2.next, kids);
    NodeLogs(s.res, s2.res, s3.res, r.res, p, s.next, s2.next, kids);
  }

  /** The constructor's `_prop.children?.map(prop => new TreeNode(prop, this, resource))`:
      builds the blueprints one after another as children of `owner` and returns their
      handles. */
  method BuildChildren<T>(s: Store<T>, ps: seq<NodeProp<T>>, owner: NodeId) returns (r: Store<T>, ids: seq<NodeId>)
    requires Closed(s) && owner in s.nodes
    ensures Closed(r) && Grows(s, r)
    ensures r.next == s.next + PropsSize(ps)
    ensures ids == ChildIds(ps, s.next)
    ensures PlacedAll(r, ps, s.next, owner)
    ensures r.res == Logged(s.res, UpdatesAll(ps, s.next), InitsAll(ps, s.next))
    decreases PropsSize(ps), 1
  {
    if ps == [] {
      BuildNothingFacts(s, owner);
      return s, [];
    }
    var s1 := BuildNode(s, ps[0], Attached(owner));
    var rest;
    r, rest := BuildChildren(s1, ps[1..], owner);
    ids := [s.next] + rest;
    ListGrows(s, ps, s1, r);
    ListPlaced(s, ps, owner, s1, r, rest);
    ListLogged(s, ps, s1, r);
  }
}
