/** The structural operations of `TreeNode`: `appendChild`, `appendBefore`, `appendAfter`,
    `remove`, `removeChild` and `removeAllChildren`. A thrown `INVALID_STATE` is the
    `InvalidState` outcome; the arena invariant rules it out. */
module Mutation {
  import opened Wrappers
  import opened Seqs
  import opened Events
  import opened TreeResource
  import opened NodeProps
  import opened Arena
  import opened Structure
  import opened Construction
  import opened Placement

  /** The parent links and child lists of every node are the same; only payloads, flags and
      cached heights may differ. */
  ghost predicate SameShape<T>(s: Store<T>, r: Store<T>) {
    && r.next == s.next && r.nodes.Keys == s.nodes.Keys
    && forall k | k in s.nodes :: r.nodes[k].parent == s.nodes[k].parent && r.nodes[k].children == s.nodes[k].children
  }

  /** The arena invariant reads only parent links and child lists. */
  lemma ShapeKeepsInvariant<T>(s: Store<T>, r: Store<T>)
    requires SameShape(s, r)
    ensures Closed(s) ==> Closed(r)
    ensures Valid(s) ==> Valid(r)
  {
    assert forall k | k in s.nodes :: r.nodes[k].children == s.nodes[k].children;
  }

  /** The cached heights of `q` and, when `q` is attached, of its parent fit their children's. */
  ghost predicate TwoLevelsFit<T>(r: Store<T>, q: NodeId, up: Parent) {
    && q in r.nodes && ChildrenPresent(r, q) && HeightFits(r, q)
    && (up.Attached? ==> up.id in r.nodes && ChildrenPresent(r, up.id) && HeightFits(r, up.id))
  }

  /** Every existing record other than those of `a` and `b` is unchanged apart from cached
      heights, and apart from the parent `up` of `a` not even those. */
  ghost predicate OthersKept<T>(s: Store<T>, r: Store<T>, a: NodeId, b: NodeId, up: Parent) {
    && (forall k | k in s.nodes && k != a && k != b :: k in r.nodes && r.nodes[k] == s.nodes[k].(height := r.nodes[k].height))
    && (forall k | k in s.nodes && k != a && k != b && up != Attached(k) :: r.nodes[k] == s.nodes[k])
  }

  /** The outcome of inserting blueprint `p` at position `i` of the children of `q`: the
      blueprint is built at the next free handle under `q` (pushing its own events), `q` lists
      it at position `i` and pushes `ADDED`, and the cached heights of `q` and of its parent are
      refreshed; nothing else changes. */
  ghost predicate InsertedAt<T>(s: Store<T>, r: Store<T>, q: NodeId, i: nat, p: NodeProp<T>)
    requires q in s.nodes && i <= |Kids(s, q)|
  {
    var n := s.next;
    var kids := InsertAt(Kids(s, q), i, n);
    && r.next == n + PropSize(p)
    && (forall k :: k in r.nodes <==> k in s.nodes || n <= k < r.next)
    && Placed(r, p, n, Attached(q))
    && r.nodes[q] == s.nodes[q].(children := kids, height := r.nodes[q].height)
    && TwoLevelsFit(r, q, s.nodes[q].parent)
    && OthersKept(s, r, q, q, s.nodes[q].parent)
    && r.res == Logged(s.res, UpdatesOf(p, n), InitsOf(p, n) + [Added(q, i, n, kids)])
  }

  /** The children of `q` with the new handle inserted fit the arena after the build. */
  lemma InsertKidsFit<T>(s: Store<T>, s1: Store<T>, q: NodeId, i: nat, p: NodeProp<T>)
    requires Closed(s) && q in s.nodes && i <= |Kids(s, q)|
    requires Grows(s, s1) && Placed(s1, p, s.next, Attached(q))
    ensures q in s1.nodes && s1.nodes[q] == s.nodes[q]
    ensures forall j | 0 <= j < |InsertAt(Kids(s, q), i, s.next)| ::
              InsertAt(Kids(s, q), i, s.next)[j] in s1.nodes && q < InsertAt(Kids(s, q), i, s.next)[j]
  {
    var kids := InsertAt(Kids(s, q), i, s.next);
    forall j | 0 <= j < |kids| ensures kids[j] in s1.nodes && q < kids[j] {
      if kids[j] != s.next {
        assert kids[j] in Kids(s, q);
      }
    }
  }

  /** Pushing one more child-change event after a logged build logs both together. */
  lemma LoggedThen<T>(res: Resource<T>, us: seq<Update<T>>, cs: seq<ChildChange>, e: ChildChange)
    ensures EmitChildChange(Logged(res, us, cs), e) == Logged(res, us, cs + [e])
  {
    LoggedTwice(res, us, cs, [], [e]);
    assert us + [] == us;
    if !res.closed {
      assert res.updated + us + [] == res.updated + us;
    }
  }

  /** Records other than `q` survive the build and the child-list update untouched, and the
      height refresh changes at most `q`'s parent among them. */
  lemma KeptAfterSet<T>(s: Store<T>, s1: Store<T>, s2: Store<T>, r: Store<T>, q: NodeId)
    requires Grows(s, s1) && q in s.nodes
    requires q in s2.nodes && s2.nodes[q].parent == s.nodes[q].parent
    requires forall k | k in s1.nodes && k != q :: k in s2.nodes && s2.nodes[k] == s1.nodes[k]
    requires HeightsRefreshed(s2, r, q, true)
    ensures OthersKept(s, r, q, q, s.nodes[q].parent)
  {
  }

  /** The built range lies above `q` and its parent, so the refresh leaves it placed. */
  lemma PlacedAfterSet<T>(s1: Store<T>, s2: Store<T>, r: Store<T>, p: NodeProp<T>, q: NodeId, n: NodeId)
    requires Placed(s1, p, n, Attached(q)) && q < n
    requires forall k | k in s1.nodes && k != q :: k in s2.nodes && s2.nodes[k] == s1.nodes[k]
    requires HeightsRefreshed(s2, r, q, true)
    requires s2.nodes[q].parent.Attached? ==> s2.nodes[q].parent.id < q
    ensures Placed(r, p, n, Attached(q))
  {
    PlacedFrame(s1, r, p, n, Attached(q));
  }

  /** The outcome of the three steps of an insertion, stated as `InsertedAt`. */
  lemma InsertFacts<T>(s: Store<T>, s1: Store<T>, s2: Store<T>, r: Store<T>, q: NodeId, i: nat, p: NodeProp<T>)
    requires Closed(s) && q in s.nodes && i <= |Kids(s, q)|
    requires Grows(s, s1) && s1.next == s.next + PropSize(p) && Placed(s1, p, s.next, Attached(q))
    requires s1.res == Logged(s.res, UpdatesOf(p, s.next), InitsOf(p, s.next))
    requires q in s1.nodes && s1.nodes[q] == s.nodes[q]
    requires s2 == SetChildren(s1, q, InsertAt(Kids(s, q), i, s.next), Added(q, i, s.next, InsertAt(Kids(s, q), i, s.next)))
    requires HeightsRefreshed(s2, r, q, true)
    ensures InsertedAt(s, r, q, i, p)
  {
    var n := s.next;
    var kids := InsertAt(Kids(s, q), i, n);
    KeptAfterSet(s, s1, s2, r, q);
    PlacedAfterSet(s1, s2, r, p, q, n);
    LoggedThen(s.res, UpdatesOf(p, n), InitsOf(p, n), Added(q, i, n, kids));
  }

  /** Inserting a new child at position `i` of `q` (the shared core of the append family). */
  method InsertChild<T>(s: Store<T>, q: NodeId, i: nat, p: NodeProp<T>) returns (r: Store<T>)
    requires Closed(s) && q in s.nodes && i <= |Kids(s, q)|
    ensures Closed(r) && InsertedAt(s, r, q, i, p)
  {
    var n := s.next;
    var s1 := BuildNode(s, p, Attached(q));
    InsertKidsFit(s, s1, q, i, p);
    var kids := InsertAt(Kids(s, q), i, n);
    SetChildrenClosed(s1, q, kids, Added(q, i, n, kids));
    var s2 := SetChildren(s1, q, kids, Added(q, i, n, kids));
    r := UpdateHeight(s2, q, true);
    InsertFacts(s, s1, s2, r, q, i, p);
  }

  /** The records an insertion keeps: outside `q` the parent links and child lists are those of
      `s`, and `q` keeps its parent. */
  lemma InsertedShape<T>(s: Store<T>, r: Store<T>, q: NodeId, i: nat, p: NodeProp<T>)
    requires Closed(s) && q in s.nodes && i <= |Kids(s, q)| && InsertedAt(s, r, q, i, p)
    ensures forall k | k in s.nodes :: k in r.nodes && r.nodes[k].parent == s.nodes[k].parent
    ensures forall k | k in s.nodes && k != q :: r.nodes[k].children == s.nodes[k].children
  {
    forall k | k in s.nodes ensures k in r.nodes && r.nodes[k].parent == s.nodes[k].parent {
      if k != q {
        assert r.nodes[k] == s.nodes[k].(height := r.nodes[k].height);
      }
    }
  }

  /** After an insertion every listed child points back at the node listing it. */
  lemma InsertedPointsBack<T>(s: Store<T>, r: Store<T>, q: NodeId, i: nat, p: NodeProp<T>)
    requires Valid(s) && Closed(r) && q in s.nodes && i <= |Kids(s, q)|
    requires InsertedAt(s, r, q, i, p)
    ensures forall a, j | a in r.nodes && 0 <= j < |r.nodes[a].children| ::
              r.nodes[r.nodes[a].children[j]].parent == Attached(a)
  {
    var n := s.next;
    InsertedShape(s, r, q, i, p);
    forall a, j | a in r.nodes && 0 <= j < |r.nodes[a].children|
      ensures r.nodes[r.nodes[a].children[j]].parent == Attached(a)
    {
      if a >= n {
        BuiltLinked(r, p, n, Attached(q), a);
      } else if a == q && r.nodes[a].children[j] != n {
        assert r.nodes[a].children[j] in Kids(s, q);
        var m :| 0 <= m < |Kids(s, q)| && Kids(s, q)[m] == r.nodes[a].children[j];
        assert s.nodes[s.nodes[q].children[m]].parent == Attached(q);
      } else if a != q {
        assert s.nodes[s.nodes[a].children[j]].parent == Attached(a);
      }
    }
  }

  /** After an insertion no child list repeats a node. */
  lemma InsertedNoDup<T>(s: Store<T>, r: Store<T>, q: NodeId, i: nat, p: NodeProp<T>)
    requires Valid(s) && Closed(r) && q in s.nodes && i <= |Kids(s, q)|
    requires InsertedAt(s, r, q, i, p)
    ensures forall a | a in r.nodes :: NoDup(r.nodes[a].children)
  {
    var n := s.next;
    InsertedShape(s, r, q, i, p);
    assert n !in Kids(s, q);
    InsertAtNoDup(Kids(s, q), i, n);
    forall a | a in r.nodes ensures NoDup(r.nodes[a].children) {
      if a >= n {
        BuiltLinked(r, p, n, Attached(q), a);
      }
    }
  }

  /** After an insertion every attached node is listed by its parent. */
  lemma InsertedListed<T>(s: Store<T>, r: Store<T>, q: NodeId, i: nat, p: NodeProp<T>)
    requires Valid(s) && Closed(r) && q in s.nodes && i <= |Kids(s, q)|
    requires InsertedAt(s, r, q, i, p)
    ensures forall c | c in r.nodes && r.nodes[c].parent.Attached? ::
              c in r.nodes[r.nodes[c].parent.id].children
  {
    var n := s.next;
    InsertedShape(s, r, q, i, p);
    forall c | c in r.nodes && r.nodes[c].parent.Attached?
      ensures c in r.nodes[r.nodes[c].parent.id].children
    {
      if c > n {
        BuiltLinked(r, p, n, Attached(q), c);
      } else if c < n {
        assert c in s.nodes[s.nodes[c].parent.id].children;
      }
    }
  }

  /** Insertion keeps the arena invariant: the new subtree is linked within itself, its root is
      listed by `q` exactly once, and no other node's links change. */
  lemma InsertedKeepsValid<T>(s: Store<T>, r: Store<T>, q: NodeId, i: nat, p: NodeProp<T>)
    requires Valid(s) && Closed(r) && q in s.nodes && i <= |Kids(s, q)|
    requires InsertedAt(s, r, q, i, p)
    ensures Valid(r)
  {
    InsertedPointsBack(s, r, q, i, p);
    InsertedNoDup(s, r, q, i, p);
    InsertedListed(s, r, q, i, p);
  }

  /** `appendChild`: build the blueprint as the last child of `id`. Like the original, this does
      not look at `id`'s own parent, so a detached node accepts children too. */
  method AppendChild<T>(s: Store<T>, id: NodeId, p: NodeProp<T>) returns (r: Store<T>)
    requires Closed(s) && id in s.nodes
    ensures Closed(r) && InsertedAt(s, r, id, |Kids(s, id)|, p)
    ensures r.nodes[id].children == Kids(s, id) + [s.next]
    ensures Valid(s) ==> Valid(r)
  {
    r := InsertChild(s, id, |Kids(s, id)|, p);
    assert r.nodes[id].children == Kids(s, id) + [s.next];
    if Valid(s) {
      InsertedKeepsValid(s, r, id, |Kids(s, id)|, p);
    }
  }

  /** `b` directly follows `a` in `xs`. */
  ghost predicate Adjacent<E>(xs: seq<E>, a: E, b: E) {
    0 <= IndexOf(xs, a) && IndexOf(xs, b) == IndexOf(xs, a) + 1
  }

  /** The outcome of `appendBefore` (`after` false) or `appendAfter` (`after` true) on `id`: a
      root or detached node refuses with `false` and changes nothing; a node its parent does not
      list is `INVALID_STATE`; otherwise the blueprint is inserted into the parent's children at
      the node's position, or just after it. */
  ghost predicate SiblingOutcome<T>(s: Store<T>, r: Store<T>, id: NodeId, p: NodeProp<T>, after: bool, out: Result<bool>)
    requires Closed(s) && id in s.nodes
  {
    var up := s.nodes[id].parent;
    if !up.Attached? then r == s && out == Ok(false)
    else
      var i := IndexOf(Kids(s, up.id), id);
      if i == -1 then r == s && out == InvalidState
      else out == Ok(true) && InsertedAt(s, r, up.id, if after then i + 1 else i, p)
  }

  /** Under the invariant an attached node is found among its parent's children. */
  lemma ListedByParent<T>(s: Store<T>, id: NodeId)
    requires Valid(s) && id in s.nodes && s.nodes[id].parent.Attached?
    ensures s.nodes[id].parent.id in s.nodes
    ensures IndexOf(Kids(s, s.nodes[id].parent.id), id) != -1
  {
  }

  /** After inserting at the node's own position the new node precedes it; one further on, it
      follows it. */
  lemma SiblingAdjacent<T>(s: Store<T>, r: Store<T>, q: NodeId, i: nat, p: NodeProp<T>, after: bool)
    requires Valid(s) && q in s.nodes && i < |Kids(s, q)|
    requires InsertedAt(s, r, q, if after then i + 1 else i, p)
    ensures if after then Adjacent(r.nodes[q].children, Kids(s, q)[i], s.next)
            else Adjacent(r.nodes[q].children, s.next, Kids(s, q)[i])
  {
    assert s.next !in Kids(s, q);
    InsertAtIndexOf(Kids(s, q), if after then i + 1 else i, s.next, i);
  }

  /** A successful sibling insertion is the outcome `SiblingOutcome` describes. */
  lemma SiblingInserted<T>(s: Store<T>, r: Store<T>, id: NodeId, p: NodeProp<T>, after: bool, q: NodeId, i: nat)
    requires Closed(s) && id in s.nodes && s.nodes[id].parent == Attached(q)
    requires q in s.nodes && i < |Kids(s, q)| && IndexOf(Kids(s, q), id) == i
    requires InsertedAt(s, r, q, if after then i + 1 else i, p)
    ensures SiblingOutcome(s, r, id, p, after, Ok(true))
  {
    var up := s.nodes[id].parent;
    assert up == Attached(q) && IndexOf(Kids(s, up.id), id) == i;
    if after {
      assert InsertedAt(s, r, up.id, i + 1, p);
    } else {
      assert InsertedAt(s, r, up.id, i, p);
    }
  }

  /** The shared body of `appendBefore` and `appendAfter`. */
  method AppendSibling<T>(s: Store<T>, id: NodeId, p: NodeProp<T>, after: bool) returns (r: Store<T>, out: Result<bool>)
    requires Closed(s) && id in s.nodes
    ensures Closed(r) && SiblingOutcome(s, r, id, p, after, out)
    ensures Valid(s) ==> Valid(r) && out == Ok(s.nodes[id].parent.Attached?)
    ensures Valid(s) && s.nodes[id].parent.Attached? ==>
              var kids := r.nodes[s.nodes[id].parent.id].children;
              if after then Adjacent(kids, id, s.next) else Adjacent(kids, s.next, id)
  {
    var up := s.nodes[id].parent;
    if !up.Attached? {
      return s, Ok(false);
    }
    var q := up.id;
    var i := IndexOf(Kids(s, q), id);
    if i == -1 {
      if Valid(s) {
        ListedByParent(s, id);
      }
      return s, InvalidState;
    }
    var at := if after then i + 1 else i;
    r := InsertChild(s, q, at, p);
    out := Ok(true);
    SiblingInserted(s, r, id, p, after, q, i);
    if Valid(s) {
      InsertedKeepsValid(s, r, q, at, p);
      SiblingAdjacent(s, r, q, i, p, after);
    }
  }

  /** `appendBefore`: insert the blueprint just before this node among its siblings. */
  method AppendBefore<T>(s: Store<T>, id: NodeId, p: NodeProp<T>) returns (r: Store<T>, out: Result<bool>)
    requires Closed(s) && id in s.nodes
    ensures Closed(r) && SiblingOutcome(s, r, id, p, false, out)
    ensures Valid(s) ==> Valid(r) && out == Ok(s.nodes[id].parent.Attached?)
    ensures Valid(s) && s.nodes[id].parent.Attached? ==>
              Adjacent(r.nodes[s.nodes[id].parent.id].children, s.next, id)
  {
    r, out := AppendSibling(s, id, p, false);
  }

  /** `appendAfter`: insert the blueprint just after this node among its siblings. */
  method AppendAfter<T>(s: Store<T>, id: NodeId, p: NodeProp<T>) returns (r: Store<T>, out: Result<bool>)
    requires Closed(s) && id in s.nodes
    ensures Closed(r) && SiblingOutcome(s, r, id, p, true, out)
    ensures Valid(s) ==> Valid(r) && out == Ok(s.nodes[id].parent.Attached?)
    ensures Valid(s) && s.nodes[id].parent.Attached? ==>
              Adjacent(r.nodes[s.nodes[id].parent.id].children, id, s.next)
  {
    r, out := AppendSibling(s, id, p, true);
  }

  /** The outcome of removing position `i` from the children of `q`: `q` lists the remaining
      children and pushes `REMOVED`, the cached heights of `q` and its parent are refreshed, the
      removal channel reports the removed node, and that node, and only that node, becomes
      detached; its own children keep pointing at it. */
  ghost predicate RemovedAt<T>(s: Store<T>, r: Store<T>, q: NodeId, i: nat)
    requires q in s.nodes && i < |Kids(s, q)|
  {
    var was := Kids(s, q);
    var c := was[i];
    var kids := RemoveAt(was, i);
    && c in s.nodes && c in r.nodes
    && r.next == s.next && r.nodes.Keys == s.nodes.Keys
    && r.nodes[q] == s.nodes[q].(children := kids, height := r.nodes[q].height)
    && r.nodes[c] == s.nodes[c].(parent := Detached)
    && TwoLevelsFit(r, q, s.nodes[q].parent)
    && OthersKept(s, r, q, c, s.nodes[q].parent)
    && r.res == EmitRemoved(EmitChildChange(s.res, Removed(q, c, kids, i, was)), c)
  }

  /** The records outside `q` and the removed node survive the child-list update and the
      height refresh as `RemovedAt` says. */
  lemma KeptAfterRemove<T>(s: Store<T>, s1: Store<T>, s2: Store<T>, r: Store<T>, q: NodeId, c: NodeId)
    requires q in s.nodes && q in s1.nodes && s1.nodes[q].parent == s.nodes[q].parent
    requires s1.nodes.Keys == s.nodes.Keys
    requires forall k | k in s.nodes && k != q :: s1.nodes[k] == s.nodes[k]
    requires HeightsRefreshed(s1, s2, q, true)
    requires c in s2.nodes && r.nodes == s2.nodes[c := s2.nodes[c].(parent := Detached)]
    ensures OthersKept(s, r, q, c, s.nodes[q].parent)
  {
  }

  /** Detaching a node keeps the arena closed. */
  lemma DetachClosed<T>(s: Store<T>, c: NodeId, e: Resource<T>)
    requires Closed(s) && c in s.nodes
    ensures Closed(s.(nodes := s.nodes[c := s.nodes[c].(parent := Detached)], res := e))
  {
  }

  /** Detaching a node changes no height and no child list, so fitted heights stay fitted. */
  lemma DetachKeepsFit<T>(s: Store<T>, r: Store<T>, c: NodeId, q: NodeId, up: Parent)
    requires c in s.nodes && r.nodes == s.nodes[c := s.nodes[c].(parent := Detached)]
    requires TwoLevelsFit(s, q, up)
    ensures TwoLevelsFit(r, q, up)
  {
    assert forall k | k in s.nodes :: r.nodes[k].height == s.nodes[k].height && r.nodes[k].children == s.nodes[k].children;
  }

  /** The outcome of the steps of a removal, stated as `RemovedAt`. */
  lemma RemoveFacts<T>(s: Store<T>, s1: Store<T>, s2: Store<T>, r: Store<T>, q: NodeId, i: nat,
                       was: seq<NodeId>, c: NodeId, kids: seq<NodeId>)
    requires Closed(s) && q in s.nodes && i < |Kids(s, q)|
    requires was == Kids(s, q) && c == was[i] && kids == RemoveAt(was, i)
    requires s1 == SetChildren(s, q, kids, Removed(q, c, kids, i, was))
    requires HeightsRefreshed(s1, s2, q, true)
    requires c in s2.nodes && r.nodes == s2.nodes[c := s2.nodes[c].(parent := Detached)]
    requires r.next == s2.next && r.res == EmitRemoved(s2.res, c)
    ensures RemovedAt(s, r, q, i)
  {
    assert q < c && (s.nodes[q].parent.Attached? ==> s.nodes[q].parent.id < q);
    KeptAfterRemove(s, s1, s2, r, q, c);
    DetachKeepsFit(s2, r, c, q, s.nodes[q].parent);
  }

  /** The second half of `remove`, once the node is found at position `i` of its parent `q`. */
  method RemoveAtIndex<T>(s: Store<T>, q: NodeId, i: nat) returns (r: Store<T>)
    requires Closed(s) && q in s.nodes && i < |Kids(s, q)|
    ensures Closed(r) && RemovedAt(s, r, q, i)
  {
    var was := Kids(s, q);
    var c := was[i];
    var kids := RemoveAt(was, i);
    assert forall j | 0 <= j < |kids| :: kids[j] in was;
    SetChildrenClosed(s, q, kids, Removed(q, c, kids, i, was));
    var s1 := SetChildren(s, q, kids, Removed(q, c, kids, i, was));
    var s2 := UpdateHeight(s1, q, true);
    DetachClosed(s2, c, EmitRemoved(s2.res, c));
    r := s2.(nodes := s2.nodes[c := s2.nodes[c].(parent := Detached)], res := EmitRemoved(s2.res, c));
    RemoveFacts(s, s1, s2, r, q, i, was, c, kids);
  }

  /** Removal keeps the arena invariant: the removed node leaves its parent's list and is no
      longer attached, and no other link changes. */
  lemma RemovedKeepsValid<T>(s: Store<T>, r: Store<T>, q: NodeId, i: nat)
    requires Valid(s) && Closed(r) && q in s.nodes && i < |Kids(s, q)|
    requires RemovedAt(s, r, q, i)
    ensures Valid(r)
  {
    var was := Kids(s, q);
    var c := was[i];
    RemoveAtNoDup(was, i);
    assert forall k | k in s.nodes && k != c :: r.nodes[k].parent == s.nodes[k].parent;
    assert forall k | k in s.nodes && k != q :: r.nodes[k].children == s.nodes[k].children;
    forall a, j | a in r.nodes && 0 <= j < |r.nodes[a].children|
      ensures r.nodes[r.nodes[a].children[j]].parent == Attached(a)
    {
      var x := r.nodes[a].children[j];
      if a == q {
        assert x in was && x != c;
        var m :| 0 <= m < |was| && was[m] == x;
        assert s.nodes[s.nodes[q].children[m]].parent == Attached(q);
      } else {
        assert s.nodes[s.nodes[a].children[j]].parent == Attached(a);
        assert x != c by {
          if x == c {
            ListedByOneParent(s, c, a, q);
          }
        }
      }
    }
    forall x | x in r.nodes && r.nodes[x].parent.Attached?
      ensures x in r.nodes[r.nodes[x].parent.id].children
    {
      assert x != c;
      var up := s.nodes[x].parent.id;
      assert x in s.nodes[up].children;
      if up == q {
        assert x in was;
      }
    }
  }

  /** The outcome of `remove` on `id`: a root or detached node answers `false` and changes
      nothing; a node its parent does not list is `INVALID_STATE`; otherwise it is removed from
      its position among its parent's children. */
  ghost predicate RemoveOutcome<T>(s: Store<T>, id: NodeId, r: Store<T>, out: Result<bool>)
    requires Closed(s) && id in s.nodes
  {
    var up := s.nodes[id].parent;
    if !up.Attached? then r == s && out == Ok(false)
    else
      var i := IndexOf(Kids(s, up.id), id);
      if i == -1 then r == s && out == InvalidState
      else out == Ok(true) && RemovedAt(s, r, up.id, i)
  }

  /** A successful removal is the outcome `RemoveOutcome` describes, and the node is detached. */
  lemma RemoveRemoved<T>(s: Store<T>, r: Store<T>, id: NodeId, q: NodeId, i: nat)
    requires Closed(s) && id in s.nodes && s.nodes[id].parent == Attached(q)
    requires q in s.nodes && i < |Kids(s, q)| && IndexOf(Kids(s, q), id) == i
    requires RemovedAt(s, r, q, i)
    ensures RemoveOutcome(s, id, r, Ok(true))
    ensures id in r.nodes && r.nodes[id].parent == Detached
  {
    var up := s.nodes[id].parent;
    assert up.id == q;
    assert RemovedAt(s, r, up.id, i);
  }

  /** `remove`: detach this node from its parent. */
  method Remove<T>(s: Store<T>, id: NodeId) returns (r: Store<T>, out: Result<bool>)
    requires Closed(s) && id in s.nodes
    ensures Closed(r) && r.next == s.next && r.nodes.Keys == s.nodes.Keys
    ensures RemoveOutcome(s, id, r, out)
    ensures out == Ok(true) ==> r.nodes[id].parent == Detached
    ensures Valid(s) ==> Valid(r) && out == Ok(s.nodes[id].parent.Attached?)
  {
    var up := s.nodes[id].parent;
    if !up.Attached? {
      return s, Ok(false);
    }
    var q := up.id;
    var i := IndexOf(Kids(s, q), id);
    if i == -1 {
      if Valid(s) {
        ListedByParent(s, id);
      }
      return s, InvalidState;
    }
    r := RemoveAtIndex(s, q, i);
    out := Ok(true);
    RemoveRemoved(s, r, id, q, i);
    if Valid(s) {
      RemovedKeepsValid(s, r, q, i);
    }
  }

  /** A removed node is detached, so removing it again answers `false` and changes nothing. */
  lemma RemoveTwice<T>(s: Store<T>, id: NodeId, r: Store<T>, r2: Store<T>, out2: Result<bool>)
    requires Closed(s) && id in s.nodes && Closed(r) && id in r.nodes
    requires RemoveOutcome(s, id, r, Ok(true))
    requires RemoveOutcome(r, id, r2, out2)
    ensures r2 == r && out2 == Ok(false)
  {
    var q := s.nodes[id].parent.id;
    var i := IndexOf(Kids(s, q), id);
    assert RemovedAt(s, r, q, i);
    assert r.nodes[Kids(s, q)[i]] == s.nodes[Kids(s, q)[i]].(parent := Detached);
  }

  /** `removeChild`: remove `x` when it is one of this node's children, else answer `false`. */
  method RemoveChild<T>(s: Store<T>, id: NodeId, x: NodeId) returns (r: Store<T>, out: Result<bool>)
    requires Closed(s) && id in s.nodes
    ensures Closed(r) && r.next == s.next && r.nodes.Keys == s.nodes.Keys
    ensures x !in Kids(s, id) ==> r == s && out == Ok(false)
    ensures x in Kids(s, id) ==> x in s.nodes && RemoveOutcome(s, x, r, out)
    ensures Valid(s) ==> Valid(r) && out == Ok(x in Kids(s, id))
    ensures Valid(s) && x in Kids(s, id) ==> RemovedAt(s, r, id, IndexOf(Kids(s, id), x))
  {
    var i := IndexOf(Kids(s, id), x);
    if i == -1 {
      return s, Ok(false);
    }
    r, out := Remove(s, x);
    if Valid(s) {
      assert s.nodes[Kids(s, id)[i]].parent == Attached(id);
    }
  }

  /** Pushing `e` onto a log and then appending `rest` appends `[e] + rest`. */
  lemma PushThenRest<E>(log: seq<E>, mid: seq<E>, after: seq<E>, e: E, rest: seq<E>)
    requires |mid| == |log| + 1 && mid[..|log|] == log && mid[|log|] == e
    requires after == mid + rest
    ensures after == log + ([e] + rest)
  {
    assert mid == log + [e];
  }

  /** The `REMOVED` entries `removeAllChildren` pushes for children `kids`, one per child in
      order: the removed child is always first (index 0) of what is left. */
  function RemovedEntries(id: NodeId, kids: seq<NodeId>): (es: seq<ChildChange>)
    ensures |es| == |kids|
    ensures forall k | 0 <= k < |kids| :: es[k].Removed? && es[k].node == id && es[k].removedNode == kids[k]
  {
    seq(|kids|, k requires 0 <= k < |kids| => Removed(id, kids[k], kids[k + 1..], 0, kids[k..]))
  }

  /** The entries for `kids` are the first child's entry followed by the entries for the rest. */
  lemma RemovedEntriesCons(id: NodeId, kids: seq<NodeId>)
    requires kids != []
    ensures RemovedEntries(id, kids) == [Removed(id, kids[0], kids[1..], 0, kids)] + RemovedEntries(id, kids[1..])
  {
    var rest := RemovedEntries(id, kids[1..]);
    forall k | 1 <= k < |kids|
      ensures RemovedEntries(id, kids)[k] == rest[k - 1]
    {
      assert kids[1..][k - 1] == kids[k] && kids[1..][k..] == kids[k + 1..] && kids[1..][k - 1..] == kids[k..];
    }
  }

  /** The channels after `removeAllChildren` on `id` with children `kids`, removal by removal:
      each removal pushes `REMOVED` with the remaining children and then reports the removed
      node. While the channels are open, the removal channel gains exactly `kids` and the
      child-change channel exactly their `REMOVED` entries; once closed, nothing changes. */
  function RemovalsFrom<T>(res: Resource<T>, id: NodeId, kids: seq<NodeId>): (r: Resource<T>)
    ensures r.closed == res.closed && r.visibility == res.visibility
    ensures r.updated == res.updated && r.selection == res.selection
    ensures res.closed ==> r == res
    ensures !res.closed ==> r.removed == res.removed + kids
    ensures !res.closed ==> r.childChange == res.childChange + RemovedEntries(id, kids)
    decreases |kids|
  {
    if kids == [] then res
    else
      var e := Removed(id, kids[0], kids[1..], 0, kids);
      var res1 := EmitRemoved(EmitChildChange(res, e), kids[0]);
      var r := RemovalsFrom(res1, id, kids[1..]);
      if !res.closed then
        PushThenRest(res.removed, res1.removed, r.removed, kids[0], kids[1..]);
        assert [kids[0]] + kids[1..] == kids;
        PushThenRest(res.childChange, res1.childChange, r.childChange, e, RemovedEntries(id, kids[1..]));
        RemovedEntriesCons(id, kids);
        r
      else r
  }

  /** `removeAllChildren` on `id`, whose children were `was`, after its first `j` removals: the
      remaining children are the rest of `was`, the removed ones are detached, the channels hold
      the first `j` removals' events, and nothing else changed. */
  ghost predicate ClearedUpTo<T>(s: Store<T>, r: Store<T>, id: NodeId, was: seq<NodeId>, j: nat) {
    && j <= |was| && id in s.nodes && id in r.nodes
    && r.next == s.next && r.nodes.Keys == s.nodes.Keys
    && Kids(r, id) == was[j..]
    && RemovalsFrom(r.res, id, was[j..]) == RemovalsFrom(s.res, id, was)
    && (forall m | 0 <= m < j :: was[m] in r.nodes && r.nodes[was[m]].parent == Detached)
    && (forall k | k in s.nodes && k != id :: r.nodes[k].children == s.nodes[k].children)
    && (forall k | k in s.nodes && k !in was[..j] :: r.nodes[k].parent == s.nodes[k].parent)
    && (forall k | k in s.nodes ::
          r.nodes[k] == s.nodes[k].(parent := r.nodes[k].parent, children := r.nodes[k].children, height := r.nodes[k].height))
  }

  /** What a removal at position `i` of `q` does, one fact per record kind. */
  lemma RemovedAtFacts<T>(r: Store<T>, r2: Store<T>, q: NodeId, i: nat)
    requires Closed(r) && q in r.nodes && i < |Kids(r, q)| && RemovedAt(r, r2, q, i)
    ensures r2.next == r.next && r2.nodes.Keys == r.nodes.Keys
    ensures Kids(r2, q) == RemoveAt(Kids(r, q), i)
    ensures r2.res == EmitRemoved(EmitChildChange(r.res, Removed(q, Kids(r, q)[i], RemoveAt(Kids(r, q), i), i, Kids(r, q))), Kids(r, q)[i])
    ensures r2.nodes[Kids(r, q)[i]].parent == Detached
    ensures forall k | k in r.nodes && k != Kids(r, q)[i] :: r2.nodes[k].parent == r.nodes[k].parent
    ensures forall k | k in r.nodes && k != q :: r2.nodes[k].children == r.nodes[k].children
    ensures forall k | k in r.nodes ::
              r2.nodes[k] == r.nodes[k].(parent := r2.nodes[k].parent, children := r2.nodes[k].children, height := r2.nodes[k].height)
  {
  }

  /** The channels after one more removal. */
  lemma ClearStepRes<T>(s: Resource<T>, r: Resource<T>, r2: Resource<T>, id: NodeId, was: seq<NodeId>, j: nat)
    requires j < |was| && RemovalsFrom(r, id, was[j..]) == RemovalsFrom(s, id, was)
    requires r2 == EmitRemoved(EmitChildChange(r, Removed(id, was[j], RemoveAt(was[j..], 0), 0, was[j..])), was[j])
    ensures RemovalsFrom(r2, id, was[j + 1..]) == RemovalsFrom(s, id, was)
  {
    RemoveFirstOfSuffix(was, j);
  }

  /** The parent links after one more removal: only the removed prefix of `was` has changed. */
  lemma ClearStepParents<T>(s: Store<T>, r: Store<T>, r2: Store<T>, was: seq<NodeId>, j: nat)
    requires r.nodes.Keys == s.nodes.Keys && r2.nodes.Keys == r.nodes.Keys
    requires j < |was| && was[j] in r.nodes && r2.nodes[was[j]].parent == Detached
    requires forall m | 0 <= m < j :: was[m] in r.nodes && r.nodes[was[m]].parent == Detached
    requires forall k | k in s.nodes && k !in was[..j] :: r.nodes[k].parent == s.nodes[k].parent
    requires forall k | k in r.nodes && k != was[j] :: r2.nodes[k].parent == r.nodes[k].parent
    ensures forall m | 0 <= m < j + 1 :: was[m] in r2.nodes && r2.nodes[was[m]].parent == Detached
    ensures forall k | k in s.nodes && k !in was[..j + 1] :: r2.nodes[k].parent == s.nodes[k].parent
  {
    assert was[..j + 1] == was[..j] + [was[j]];
  }

  /** One more removal, of the first remaining child, extends the cleared prefix by one. */
  lemma ClearStep<T>(s: Store<T>, r: Store<T>, r2: Store<T>, id: NodeId, was: seq<NodeId>, j: nat)
    requires Closed(r) && ClearedUpTo(s, r, id, was, j) && j < |was|
    requires RemovedAt(r, r2, id, 0)
    ensures ClearedUpTo(s, r2, id, was, j + 1)
  {
    var j1 := j + 1;
    RemovedAtFacts(r, r2, id, 0);
    var c := was[j];
    RemoveFirstOfSuffix(was, j);
    ClearStepRes(s.res, r.res, r2.res, id, was, j);
    ClearStepParents(s, r, r2, was, j);
    assert ClearedUpTo(s, r2, id, was, j1);
  }

  /** Every cached height is as in `s`, except possibly those of `id` and of its parent. */
  ghost predicate HeightsKeptBut<T>(s: Store<T>, r: Store<T>, id: NodeId)
    requires id in s.nodes
  {
    forall k | k in s.nodes && k != id && s.nodes[id].parent != Attached(k) ::
      k in r.nodes && r.nodes[k].height == s.nodes[k].height
  }

  /** While `removeAllChildren` runs, the node keeps its own parent link: it is not among its
      own children. */
  lemma ClearKeepsOwnParent<T>(s: Store<T>, r: Store<T>, id: NodeId, j: nat)
    requires Closed(s) && id in s.nodes && ClearedUpTo(s, r, id, Kids(s, id), j)
    ensures r.nodes[id].parent == s.nodes[id].parent
  {
    var was := Kids(s, id);
    assert forall m | 0 <= m < j :: was[..j][m] == was[m] && id < was[m];
  }

  /** The cached heights while `removeAllChildren` runs on `id`: only `id` and its parent may
      have changed, and after at least one removal both fit their children's. */
  ghost predicate ClearHeights<T>(s: Store<T>, r: Store<T>, id: NodeId, j: nat)
    requires id in s.nodes
  {
    HeightsKeptBut(s, r, id) && (0 < j ==> TwoLevelsFit(r, id, s.nodes[id].parent))
  }

  /** One more removal from the front of `id`'s children refreshes the heights of `id` and of
      its parent and leaves every other cached height as it was. */
  lemma ClearStepHeights<T>(s: Store<T>, r: Store<T>, r2: Store<T>, id: NodeId, j: nat)
    requires Closed(s) && id in s.nodes && ClearedUpTo(s, r, id, Kids(s, id), j)
    requires 0 < |Kids(r, id)| && RemovedAt(r, r2, id, 0) && ClearHeights(s, r, id, j)
    ensures ClearHeights(s, r2, id, j + 1)
  {
    ClearKeepsOwnParent(s, r, id, j);
    var c := Kids(r, id)[0];
    forall k | k in s.nodes && k != id && s.nodes[id].parent != Attached(k)
      ensures k in r2.nodes && r2.nodes[k].height == s.nodes[k].height
    {
      if k != c {
        assert r2.nodes[k] == r.nodes[k];
      }
    }
  }

  /** Once a non-empty child list is cleared, the node is a leaf of cached height 1 and its
      parent's height fits again. */
  lemma ClearedHeights<T>(s: Store<T>, r: Store<T>, id: NodeId, n: nat)
    requires id in s.nodes && 0 < n && ClearHeights(s, r, id, n) && id in r.nodes && Kids(r, id) == []
    ensures HeightsKeptBut(s, r, id)
    ensures TwoLevelsFit(r, id, s.nodes[id].parent) && r.nodes[id].height == 1
  {
  }

  /** One iteration of `removeAllChildren`: `removeChild` on the `j`-th of the original
      children. Under the invariant it succeeds, removes that child from the front of the list
      and extends the cleared prefix by one. */
  method ClearNext<T>(s: Store<T>, r: Store<T>, id: NodeId, j: nat) returns (r2: Store<T>, b: Result<bool>)
    requires Closed(s) && id in s.nodes && j < |Kids(s, id)|
    requires Closed(r) && id in r.nodes && r.next == s.next && r.nodes.Keys == s.nodes.Keys
    requires Valid(s) ==> Valid(r) && ClearedUpTo(s, r, id, Kids(s, id), j) && ClearHeights(s, r, id, j)
    ensures Closed(r2) && id in r2.nodes && r2.next == s.next && r2.nodes.Keys == s.nodes.Keys
    ensures Valid(s) ==> b == Ok(true) && Valid(r2)
    ensures Valid(s) ==> ClearedUpTo(s, r2, id, Kids(s, id), j + 1) && ClearHeights(s, r2, id, j + 1)
  {
    var was := Kids(s, id);
    r2, b := RemoveChild(r, id, was[j]);
    if Valid(s) {
      assert was[j] in Kids(r, id) && IndexOf(Kids(r, id), was[j]) == 0;
      ClearStepHeights(s, r, r2, id, j);
      ClearStep(s, r, r2, id, was, j);
    }
  }

  /** `removeAllChildren`: remove every child, in order, and answer how many there were. Any
      removal that throws aborts with `INVALID_STATE`, as does a count that falls short. Each
      removal refreshes the node's height and its parent's, so a cleared node caches height 1;
      no other cached height changes. */
  method RemoveAllChildren<T>(s: Store<T>, id: NodeId) returns (r: Store<T>, out: Result<nat>)
    requires Closed(s) && id in s.nodes
    ensures Closed(r) && r.next == s.next && r.nodes.Keys == s.nodes.Keys
    ensures out.Ok? ==> out.value == |Kids(s, id)|
    ensures Valid(s) ==> Valid(r) && out == Ok(|Kids(s, id)|) && ClearedUpTo(s, r, id, Kids(s, id), |Kids(s, id)|)
    ensures Valid(s) ==> Kids(r, id) == [] && r.res == RemovalsFrom(s.res, id, Kids(s, id))
    ensures Kids(s, id) == [] ==> r == s && out == Ok(0)
    ensures Valid(s) ==> HeightsKeptBut(s, r, id)
    ensures Valid(s) && Kids(s, id) != [] ==> TwoLevelsFit(r, id, s.nodes[id].parent) && r.nodes[id].height == 1
  {
    var was := Kids(s, id);
    r := s;
    var count := 0;
    var j := 0;
    while j < |was|
      invariant j <= |was| && count <= j
      invariant Closed(r) && id in r.nodes && r.next == s.next && r.nodes.Keys == s.nodes.Keys
      invariant Valid(s) ==> Valid(r) && count == j && ClearedUpTo(s, r, id, was, j) && ClearHeights(s, r, id, j)
      invariant was == [] ==> r == s
    {
      var r2, b := ClearNext(s, r, id, j);
      if b.InvalidState? {
        return r2, InvalidState;
      }
      r := r2;
      if b.value {
        count := count + 1;
      }
      j := j + 1;
    }
    if count != |was| {
      return r, InvalidState;
    }
    out := Ok(|was|);
    if Valid(s) {
      assert was[|was|..] == [];
      if was != [] {
        ClearedHeights(s, r, id, j);
      }
    }
  }
}
