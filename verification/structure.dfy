/** Shape of the subtrees in a closed arena: sizes, structural heights, the children of a
    whole level, and the nodes at a given depth. */
module Structure {
  import opened Events
  import opened Arena

  /** All handles of `ids` are nodes of the arena. */
  ghost predicate InStore<T>(s: Store<T>, ids: seq<NodeId>) {
    forall i | 0 <= i < |ids| :: ids[i] in s.nodes
  }

  /** The children of a node. */
  function Kids<T>(s: Store<T>, id: NodeId): seq<NodeId>
    requires id in s.nodes
  {
    s.nodes[id].children
  }

  lemma KidsInStore<T>(s: Store<T>, id: NodeId)
    requires Closed(s) && id in s.nodes
    ensures InStore(s, Kids(s, id))
    ensures forall i | 0 <= i < |Kids(s, id)| :: id < Kids(s, id)[i] < s.next
  {
  }

  /** `n` lies in the subtree rooted at `id`, `id` itself included. */
  ghost predicate InSubtree<T>(s: Store<T>, id: NodeId, n: NodeId)
    requires Closed(s) && id in s.nodes
    decreases s.next - id
  {
    n == id || exists i | 0 <= i < |Kids(s, id)| :: InSubtree(s, Kids(s, id)[i], n)
  }

  /** Every node of a subtree is a node of the arena. */
  lemma {:induction false} InSubtreeInStore<T>(s: Store<T>, id: NodeId, n: NodeId)
    requires Closed(s) && id in s.nodes && InSubtree(s, id, n)
    ensures n in s.nodes
    decreases s.next - id
  {
    if n != id {
      var i :| 0 <= i < |Kids(s, id)| && InSubtree(s, Kids(s, id)[i], n);
      InSubtreeInStore(s, Kids(s, id)[i], n);
    }
  }

  /** The subtree of `id` is closed under taking children. */
  lemma {:induction false} InSubtreeChild<T>(s: Store<T>, id: NodeId, a: NodeId, k: NodeId)
    requires Closed(s) && id in s.nodes && InSubtree(s, id, a)
    requires a in s.nodes && k in Kids(s, a)
    ensures InSubtree(s, id, k)
    decreases s.next - id
  {
    var j :| 0 <= j < |Kids(s, a)| && Kids(s, a)[j] == k;
    assert InSubtree(s, Kids(s, a)[j], k);
    if a != id {
      var i :| 0 <= i < |Kids(s, id)| && InSubtree(s, Kids(s, id)[i], a);
      InSubtreeChild(s, Kids(s, id)[i], a, k);
    }
  }

  /** A subtree holds no node created before its root. */
  lemma {:induction false} InSubtreeAbove<T>(s: Store<T>, id: NodeId, n: NodeId)
    requires Closed(s) && id in s.nodes && InSubtree(s, id, n)
    ensures id <= n
    decreases s.next - id
  {
    if n != id {
      var i :| 0 <= i < |Kids(s, id)| && InSubtree(s, Kids(s, id)[i], n);
      InSubtreeAbove(s, Kids(s, id)[i], n);
    }
  }

  /** Under the invariant every node of a subtree other than its root hangs from a parent
      inside that subtree. */
  lemma {:induction false} InSubtreeParent<T>(s: Store<T>, id: NodeId, n: NodeId)
    requires Valid(s) && id in s.nodes && InSubtree(s, id, n) && n != id
    ensures n in s.nodes && s.nodes[n].parent.Attached? && InSubtree(s, id, s.nodes[n].parent.id)
    decreases s.next - id
  {
    var i :| 0 <= i < |Kids(s, id)| && InSubtree(s, Kids(s, id)[i], n);
    var c := Kids(s, id)[i];
    if n == c {
      assert s.nodes[n].parent == Attached(id);
    } else {
      InSubtreeParent(s, c, n);
      assert InSubtree(s, Kids(s, id)[i], s.nodes[n].parent.id);
    }
  }

  /** Under the invariant two subtrees sharing a node are nested: the root created later lies
      in the subtree of the other. */
  lemma {:induction false} SubtreesNest<T>(s: Store<T>, a: NodeId, b: NodeId, n: NodeId)
    requires Valid(s) && a in s.nodes && b in s.nodes && a <= b
    requires InSubtree(s, a, n) && InSubtree(s, b, n)
    ensures InSubtree(s, a, b)
    decreases n
  {
    if n != b {
      InSubtreeAbove(s, b, n);
      InSubtreeParent(s, b, n);
      InSubtreeParent(s, a, n);
      SubtreesNest(s, a, b, s.nodes[n].parent.id);
    }
  }

  /** Under the invariant the subtrees of two different children of one node are disjoint. */
  lemma SiblingSubtreesDisjoint<T>(s: Store<T>, p: NodeId, c: NodeId, d: NodeId, n: NodeId)
    requires Valid(s) && p in s.nodes && c in Kids(s, p) && d in Kids(s, p) && c != d
    ensures !(InSubtree(s, c, n) && InSubtree(s, d, n))
  {
    KidsInStore(s, p);
    if InSubtree(s, c, n) && InSubtree(s, d, n) {
      var a, b := if c < d then c else d, if c < d then d else c;
      SubtreesNest(s, a, b, n);
      InSubtreeParent(s, a, b);
      assert s.nodes[b].parent == Attached(p);
      InSubtreeAbove(s, a, p);
      assert false;
    }
  }

  /** Membership in a subtree reads only child lists: two arenas with the same handles and the
      same child lists agree on it. */
  lemma {:induction false} InSubtreeSameKids<T>(s: Store<T>, r: Store<T>, id: NodeId, n: NodeId)
    requires Closed(s) && Closed(r) && id in s.nodes && r.next == s.next && r.nodes.Keys == s.nodes.Keys
    requires forall k | k in s.nodes :: r.nodes[k].children == s.nodes[k].children
    ensures InSubtree(s, id, n) <==> InSubtree(r, id, n)
    decreases s.next - id
  {
    var kids := Kids(s, id);
    assert Kids(r, id) == kids;
    forall i | 0 <= i < |kids| ensures InSubtree(s, kids[i], n) <==> InSubtree(r, kids[i], n) {
      InSubtreeSameKids(s, r, kids[i], n);
    }
  }

  /** Number of nodes in the subtree rooted at `id`, `id` included. */
  function Size<T>(s: Store<T>, id: NodeId): (n: nat)
    requires Closed(s) && id in s.nodes
    ensures n >= 1
    decreases s.next - id, 1
  {
    1 + KidsSize(s, id, 0)
  }

  /** Number of nodes in the subtrees of the children of `p` from position `i` on. */
  function KidsSize<T>(s: Store<T>, p: NodeId, i: nat): nat
    requires Closed(s) && p in s.nodes && i <= |Kids(s, p)|
    decreases s.next - p, 0, |Kids(s, p)| - i
  {
    if i == |Kids(s, p)| then 0
    else Size(s, Kids(s, p)[i]) + KidsSize(s, p, i + 1)
  }

  /** Number of nodes in the subtrees of a list of nodes. */
  function SizeAll<T>(s: Store<T>, ids: seq<NodeId>): (n: nat)
    requires Closed(s) && InStore(s, ids)
    ensures n >= |ids|
  {
    if ids == [] then 0 else Size(s, ids[0]) + SizeAll(s, ids[1..])
  }

  lemma {:induction false} SizeAllConcat<T>(s: Store<T>, a: seq<NodeId>, b: seq<NodeId>)
    requires Closed(s) && InStore(s, a) && InStore(s, b)
    ensures InStore(s, a + b)
    ensures SizeAll(s, a + b) == SizeAll(s, a) + SizeAll(s, b)
  {
    if a != [] {
      assert (a + b)[1..] == a[1..] + b;
      SizeAllConcat(s, a[1..], b);
    } else {
      assert a + b == b;
    }
  }

  lemma {:induction false} KidsSizeIsSizeAll<T>(s: Store<T>, p: NodeId, i: nat)
    requires Closed(s) && p in s.nodes && i <= |Kids(s, p)|
    ensures InStore(s, Kids(s, p)[i..])
    ensures KidsSize(s, p, i) == SizeAll(s, Kids(s, p)[i..])
    decreases |Kids(s, p)| - i
  {
    if i < |Kids(s, p)| {
      KidsSizeIsSizeAll(s, p, i + 1);
      assert Kids(s, p)[i..][1..] == Kids(s, p)[i + 1..];
    }
  }

  /** The children of every node of a list, in list order: the next BFS level. */
  function Children<T>(s: Store<T>, ids: seq<NodeId>): (cs: seq<NodeId>)
    requires Closed(s) && InStore(s, ids)
    ensures InStore(s, cs)
  {
    if ids == [] then [] else Kids(s, ids[0]) + Children(s, ids[1..])
  }

  lemma {:induction false} ChildrenConcat<T>(s: Store<T>, a: seq<NodeId>, b: seq<NodeId>)
    requires Closed(s) && InStore(s, a) && InStore(s, b)
    ensures InStore(s, a + b)
    ensures Children(s, a + b) == Children(s, a) + Children(s, b)
  {
    if a != [] {
      assert (a + b)[1..] == a[1..] + b;
      ChildrenConcat(s, a[1..], b);
    } else {
      assert a + b == b;
    }
  }

  /** Descending one level loses exactly the nodes of the level itself. */
  lemma {:induction false} SizeOfChildren<T>(s: Store<T>, ids: seq<NodeId>)
    requires Closed(s) && InStore(s, ids)
    ensures SizeAll(s, Children(s, ids)) + |ids| == SizeAll(s, ids)
  {
    if ids != [] {
      SizeOfChildren(s, ids[1..]);
      KidsSizeIsSizeAll(s, ids[0], 0);
      SizeAllConcat(s, Kids(s, ids[0]), Children(s, ids[1..]));
    }
  }

  /** The nodes at depth `k` below the nodes of `ids`, left to right. */
  function Level<T>(s: Store<T>, ids: seq<NodeId>, k: nat): (r: seq<NodeId>)
    requires Closed(s) && InStore(s, ids)
    ensures InStore(s, r)
    decreases k
  {
    if k == 0 then ids else Level(s, Children(s, ids), k - 1)
  }

  /** Longest downward path from `id`, counted in nodes: the height the cache approximates. */
  ghost function StructHeight<T>(s: Store<T>, id: NodeId): (h: nat)
    requires Closed(s) && id in s.nodes
    ensures h >= 1
    decreases s.next - id, 1
  {
    1 + KidsHeight(s, id, 0)
  }

  /** Largest structural height among the children of `p` from position `i` on (0 if none). */
  ghost function KidsHeight<T>(s: Store<T>, p: NodeId, i: nat): (h: nat)
    requires Closed(s) && p in s.nodes && i <= |Kids(s, p)|
    decreases s.next - p, 0, |Kids(s, p)| - i
  {
    if i == |Kids(s, p)| then 0
    else
      var a := StructHeight(s, Kids(s, p)[i]);
      var b := KidsHeight(s, p, i + 1);
      if a >= b then a else b
  }

  /** Every cached height in the arena equals the structural height. */
  ghost predicate HeightsExact<T>(s: Store<T>)
    requires Closed(s)
  {
    forall id | id in s.nodes :: s.nodes[id].height == StructHeight(s, id)
  }
}
