/** Worked examples on concrete trees: the six-node sample tree, three selections on it, and the
    stale cached height the two-level refresh leaves behind. */
module Samples {
  import opened Wrappers
  import opened Seqs
  import opened Events
  import opened TreeResource
  import opened NodeProps
  import opened Arena
  import opened Structure
  import opened Construction
  import opened Placement
  import opened Queries
  import opened Mutation
  import opened Trees
  import NodeState

  /** The blueprints of the root-node tests, named as there. `node1` is the root `"root"` over
      `node2` (payload `"node2"`) and `node3`; `node2` is over `node4`, which is over the leaf
      `node6`; `node3` is over the leaf `node5` (payload `"node5"`). Built from handle 0 they take
      the handles node1 0, node2 1, node4 2, node6 3, node3 4, node5 5. */
  function Node6(): NodeProp<string> { NodeProp("", Absent) }
  function Node5(): NodeProp<string> { NodeProp("node5", Absent) }
  function Node4(): NodeProp<string> { NodeProp("", Present([Node6()])) }
  function Node3(): NodeProp<string> { NodeProp("", Present([Node5()])) }
  function Node2(): NodeProp<string> { NodeProp("node2", Present([Node4()])) }
  function SampleProp(): NodeProp<string> { NodeProp("root", Present([Node2(), Node3()])) }

  /** A placed node with two child blueprints: its children sit at `first` and `second`, the
      second child's handle skipping the first child's whole subtree. */
  lemma PlacedTwo<T>(s: Store<T>, d: T, a: NodeProp<T>, b: NodeProp<T>, base: NodeId, parent: Parent, first: NodeId, second: NodeId)
    requires Placed(s, NodeProp(d, Present([a, b])), base, parent)
    requires first == base + 1 && second == first + PropSize(a)
    ensures base in s.nodes && s.nodes[base].data == d && !s.nodes[base].selected
    ensures Kids(s, base) == [first, second]
    ensures Placed(s, a, first, Attached(base)) && Placed(s, b, second, Attached(base))
  {
    assert PlacedAll(s, [a, b], base + 1, base);
    assert [a, b][1..] == [b];
    assert PlacedAll(s, [b], base + 1 + PropSize(a), base);
  }

  /** A placed node with one child blueprint, whose node sits at `first`. */
  lemma PlacedOne<T>(s: Store<T>, d: T, a: NodeProp<T>, base: NodeId, parent: Parent, first: NodeId)
    requires Placed(s, NodeProp(d, Present([a])), base, parent)
    requires first == base + 1
    ensures base in s.nodes && s.nodes[base].data == d && !s.nodes[base].selected
    ensures Kids(s, base) == [first]
    ensures Placed(s, a, first, Attached(base))
  {
    assert PlacedAll(s, [a], base + 1, base);
  }

  /** A placed leaf blueprint. */
  lemma PlacedLeaf<T>(s: Store<T>, d: T, base: NodeId, parent: Parent)
    requires Placed(s, NodeProp(d, Absent), base, parent)
    ensures base in s.nodes && s.nodes[base].data == d && !s.nodes[base].selected
    ensures Kids(s, base) == []
  {
  }

  /** The left branch of the sample tree: `node2` at 1 over `node4` at 2 over `node6` at 3. */
  lemma LeftBranch(s: Store<string>)
    requires Placed(s, Node2(), 1, Attached(0))
    ensures 1 in s.nodes && 2 in s.nodes && 3 in s.nodes
    ensures Kids(s, 1) == [2] && Kids(s, 2) == [3] && Kids(s, 3) == []
    ensures s.nodes[1].data == "node2" && s.nodes[2].data == "" && s.nodes[3].data == ""
    ensures !s.nodes[1].selected && !s.nodes[2].selected && !s.nodes[3].selected
  {
    PlacedOne(s, "node2", Node4(), 1, Attached(0), 2);
    PlacedOne(s, "", Node6(), 2, Attached(1), 3);
    PlacedLeaf(s, "", 3, Attached(2));
  }

  /** The right branch of the sample tree: `node3` at 4 over `node5` at 5. */
  lemma RightBranch(s: Store<string>)
    requires Placed(s, Node3(), 4, Attached(0))
    ensures 4 in s.nodes && 5 in s.nodes
    ensures Kids(s, 4) == [5] && Kids(s, 5) == []
    ensures s.nodes[4].data == "" && s.nodes[5].data == "node5"
    ensures !s.nodes[4].selected && !s.nodes[5].selected
  {
    PlacedOne(s, "", Node5(), 4, Attached(0), 5);
    PlacedLeaf(s, "node5", 5, Attached(4));
  }

  /** The arena of the sample tree, read off its placement: the child lists, the payloads, and
      no node selected. */
  lemma SampleShape(s: Store<string>)
    requires Placed(s, SampleProp(), 0, Root)
    ensures 0 in s.nodes && 1 in s.nodes && 2 in s.nodes && 3 in s.nodes && 4 in s.nodes && 5 in s.nodes
    ensures Kids(s, 0) == [1, 4] && Kids(s, 1) == [2] && Kids(s, 2) == [3]
    ensures Kids(s, 3) == [] && Kids(s, 4) == [5] && Kids(s, 5) == []
    ensures s.nodes[0].data == "root" && s.nodes[1].data == "node2" && s.nodes[2].data == ""
    ensures s.nodes[3].data == "" && s.nodes[4].data == "" && s.nodes[5].data == "node5"
    ensures !s.nodes[0].selected && !s.nodes[1].selected && !s.nodes[2].selected
    ensures !s.nodes[3].selected && !s.nodes[4].selected && !s.nodes[5].selected
  {
    PlacedTwo(s, "root", Node2(), Node3(), 0, Root, 1, 4);
    LeftBranch(s);
    RightBranch(s);
  }

  /** The sample blueprint describes six nodes on four levels. */
  lemma SampleMeasures()
    ensures PropSize(SampleProp()) == 6 && PropHeight(SampleProp()) == 4
  {
  }

  /** The levels of the sample tree. */
  lemma LevelsOfSample(s: Store<string>)
    requires Closed(s) && 0 in s.nodes && 1 in s.nodes && 2 in s.nodes && 3 in s.nodes && 4 in s.nodes && 5 in s.nodes
    requires Kids(s, 0) == [1, 4] && Kids(s, 1) == [2] && Kids(s, 2) == [3]
    requires Kids(s, 3) == [] && Kids(s, 4) == [5] && Kids(s, 5) == []
    ensures GetNodes(s, 0, AtLevel(0)) == [0] && GetNodes(s, 0, AtLevel(1)) == [1, 4]
    ensures GetNodes(s, 0, AtLevel(2)) == [2, 5] && GetNodes(s, 0, AtLevel(3)) == [3]
    ensures GetNodes(s, 0, AtLevel(4)) == []
  {
    GetNodesAtLevel(s, 0, 0);
    GetNodesAtLevel(s, 0, 1);
    GetNodesAtLevel(s, 0, 2);
    GetNodesAtLevel(s, 0, 3);
    GetNodesAtLevel(s, 0, 4);
    assert Children(s, [0]) == [1, 4];
    assert Children(s, [4]) == [5];
    assert Children(s, [1, 4]) == [2, 5];
    assert Children(s, [5]) == [];
    assert Children(s, [2, 5]) == [3];
    assert Children(s, [3]) == [];
  }

  /** A handle below 6 is one of the six handles of the sample tree. */
  lemma BelowSix(k: nat)
    requires k < 6
    ensures k == 0 || k == 1 || k == 2 || k == 3 || k == 4 || k == 5
  {
  }

  /** The sample arena has no node besides the six, and none of them is selected. */
  lemma SampleUnselected(s: Store<string>)
    requires Closed(s) && s.next == 6 && Placed(s, SampleProp(), 0, Root)
    ensures forall k | k in s.nodes :: !s.nodes[k].selected
  {
    SampleMeasures();
    SampleShape(s);
    forall k | k in s.nodes ensures !s.nodes[k].selected {
      BelowSix(k);
    }
  }

  /** The queries of the sample tree: six nodes in every full traversal, levels of 1, 2, 2 and
      1 nodes, and the handle of `node5` inside it. */
  lemma SampleTreeQueries(s: Store<string>)
    requires Closed(s) && Placed(s, SampleProp(), 0, Root) && Size(s, 0) == 6
    ensures |GetNodes(s, 0, AllNodes)| == 6
    ensures |GetNodes(s, 0, Strategy("bfs"))| == 6 && |GetNodes(s, 0, Strategy("dfs"))| == 6
    ensures GetNodes(s, 0, AtLevel(0)) == [0] && GetNodes(s, 0, AtLevel(1)) == [1, 4]
    ensures GetNodes(s, 0, AtLevel(2)) == [2, 5] && GetNodes(s, 0, AtLevel(3)) == [3]
    ensures GetNodes(s, 0, AtLevel(4)) == []
    ensures Contains(s, 0, 5)
  {
    SampleMeasures();
    SampleShape(s);
    GetNodesAll(s, 0, 5);
    GetNodesDfs(s, 0, 5);
    LevelsOfSample(s);
    assert InSubtree(s, 0, 0);
    InSubtreeChild(s, 0, 0, 4);
    InSubtreeChild(s, 0, 4, 5);
  }

  /** `find` by payload on the sample arena: the only node holding `"node5"` is handle 5, and no
      node holds a payload that occurs nowhere. */
  lemma SampleFinds(s: Store<string>, pred: NodeId -> bool, r: Option<NodeId>, data: string)
    requires Closed(s) && s.next == 6 && Placed(s, SampleProp(), 0, Root)
    requires forall n :: pred(n) <==> n in s.nodes && s.nodes[n].data == data
    requires r == First(GetNodes(s, 0, AllNodes), pred)
    ensures data == "node5" ==> r == Some(5)
    ensures data == "NOT_FOUND_DATA" ==> r == None
  {
    SampleMeasures();
    SampleShape(s);
    FindCovers(s, 0, pred, r);
    if data == "node5" {
      InSubtreeChild(s, 0, 0, 4);
      InSubtreeChild(s, 0, 4, 5);
      assert r.Some?;
      InSubtreeInStore(s, 0, r.value);
      BelowSix(r.value);
    }
    if data == "NOT_FOUND_DATA" && r.Some? {
      InSubtreeInStore(s, 0, r.value);
      BelowSix(r.value);
    }
  }

  /** `createTree` on the sample blueprint: a well-formed tree of six nodes below root 0, of
      height 4, built as the blueprint describes, with open channels and no selection event. */
  method CreateSample() returns (t: Tree<string>)
    ensures WellFormed(t) && t.root == 0 && Height(t) == 4
    ensures t.store.next == 6 && Size(t.store, 0) == 6
    ensures Placed(t.store, SampleProp(), 0, Root)
    ensures forall k | k in t.store.nodes :: InSubtree(t.store, 0, k)
    ensures !t.store.res.closed && t.store.res.selection == []
  {
    SampleMeasures();
    t := CreateTree(SampleProp());
  }

  /** The sample tree as the root-node tests query it: height 4; six nodes by `getNodes()`,
      `"bfs"` and `"dfs"`; levels of 1, 2, 2 and 1 nodes and none below; it contains the handle
      of `node5`. */
  method SampleQueries() returns (t: Tree<string>)
    ensures WellFormed(t) && Height(t) == 4
    ensures |TreeNodes(t, AllNodes)| == 6
    ensures |TreeNodes(t, Strategy("bfs"))| == 6 && |TreeNodes(t, Strategy("dfs"))| == 6
    ensures TreeNodes(t, AtLevel(0)) == [0] && TreeNodes(t, AtLevel(1)) == [1, 4]
    ensures TreeNodes(t, AtLevel(2)) == [2, 5] && TreeNodes(t, AtLevel(3)) == [3]
    ensures TreeNodes(t, AtLevel(4)) == []
    ensures TreeContains(t, 5)
  {
    t := CreateSample();
    SampleTreeQueries(t.store);
  }

  /** `find` on the sample tree: by the payload of `node5` it returns that node, by a payload
      no node holds it returns none. */
  method SampleFind() returns (found: Option<NodeId>, missing: Option<NodeId>)
    ensures found == Some(5) && missing == None
  {
    var t := CreateSample();
    var m := t.store.nodes;
    found := TreeFind(t, n => n in m && m[n].data == "node5");
    SampleFinds(t.store, n => n in m && m[n].data == "node5", found, "node5");
    missing := TreeFind(t, n => n in m && m[n].data == "NOT_FOUND_DATA");
    SampleFinds(t.store, n => n in m && m[n].data == "NOT_FOUND_DATA", missing, "NOT_FOUND_DATA");
  }

  /** Three `select()` calls on the nodes 0, 1 and 4 of open channels that hold no selection
      yet leave exactly their three events, and node 1's own view sees only its own. */
  lemma SelectionLog(res0: Resource<string>, res3: Resource<string>)
    requires !res0.closed && res0.selection == []
    requires res3 == EmitSelection(EmitSelection(EmitSelection(res0, SelectionChange(true, 0)), SelectionChange(true, 1)), SelectionChange(true, 4))
    ensures res3.selection == [SelectionChange(true, 0), SelectionChange(true, 1), SelectionChange(true, 4)]
    ensures NodeSelectionChanges(res3, 1) == [SelectionChange(true, 1)]
  {
    var a, b, c := SelectionChange(true, 0), SelectionChange(true, 1), SelectionChange(true, 4);
    assert res3.selection == [a] + [b] + [c];
    var f := (e: SelectionChange) => e.node == 1;
    FilterConcat([a] + [b], [c], f);
    FilterConcat([a], [b], f);
  }

  /** Selecting nodes 0, 1 and 4 of an arena where nothing is selected: those three are
      selected, no other node is, and the shape is unchanged. */
  lemma SelectsFlags(s0: Store<string>, s3: Store<string>)
    requires Valid(s0) && 0 in s0.nodes && 1 in s0.nodes && 4 in s0.nodes
    requires forall k | k in s0.nodes :: !s0.nodes[k].selected
    requires s3 == NodeState.Select(NodeState.Select(NodeState.Select(s0, 0), 1), 4)
    ensures Valid(s3) && s3.next == s0.next && s3.nodes.Keys == s0.nodes.Keys
    ensures forall k | k in s0.nodes :: s3.nodes[k].children == s0.nodes[k].children && s3.nodes[k].parent == s0.nodes[k].parent
    ensures forall k | k in s3.nodes :: s3.nodes[k].selected <==> k == 0 || k == 1 || k == 4
  {
    var s1 := NodeState.Select(s0, 0);
    var s2 := NodeState.Select(s1, 1);
    NodeState.FlagsKeepInvariant(s0, s1, 0);
    NodeState.FlagsKeepInvariant(s1, s2, 1);
    NodeState.FlagsKeepInvariant(s2, s3, 4);
  }

  /** Once exactly the nodes 0, 1 and 4 of a tree whose every node lies below its root 0 are
      selected, `selectedNodes` of the root lists those three. */
  lemma SelectedOfSample(s0: Store<string>, s3: Store<string>)
    requires Closed(s0) && Closed(s3) && 0 in s0.nodes && 1 in s0.nodes && 4 in s0.nodes
    requires forall k | k in s0.nodes :: InSubtree(s0, 0, k)
    requires s3.next == s0.next && s3.nodes.Keys == s0.nodes.Keys
    requires forall k | k in s0.nodes :: s3.nodes[k].children == s0.nodes[k].children && s3.nodes[k].parent == s0.nodes[k].parent
    requires forall k | k in s3.nodes :: s3.nodes[k].selected <==> k == 0 || k == 1 || k == 4
    ensures forall n: NodeId :: n in SelectedNodes(s3, 0) <==> n == 0 || n == 1 || n == 4
  {
    forall n: NodeId ensures n in SelectedNodes(s3, 0) <==> n == 0 || n == 1 || n == 4 {
      if n in s3.nodes {
        InSubtreeSameKids(s0, s3, 0, n);
      }
    }
  }

  /** Selecting the root and both of its children yields three selection events on the
      tree-wide channel, while each node's own view holds only its own one (shown for the first
      child, handle 1); the three are the tree's selected nodes. The event test's tree has the
      sample tree's shape with other payloads, and selection reads no payload, so the sample
      tree stands in for it. */
  method ThreeSelects() returns (t: Tree<string>)
    ensures WellFormed(t) && t.root == 0
    ensures TreeSelectionChanges(t) == [SelectionChange(true, 0), SelectionChange(true, 1), SelectionChange(true, 4)]
    ensures NodeSelectionChanges(t.store.res, 1) == [SelectionChange(true, 1)]
    ensures forall n: NodeId :: n in SelectedNodes(t.store, 0) <==> n == 0 || n == 1 || n == 4
  {
    var t0 := CreateSample();
    var s0 := t0.store;
    SampleShape(s0);
    SampleUnselected(s0);
    var s3 := NodeState.Select(NodeState.Select(NodeState.Select(s0, 0), 1), 4);
    SelectsFlags(s0, s3);
    SelectionLog(s0.res, s3.res);
    SelectedOfSample(s0, s3);
    t := Tree(s3, 0);
  }

  /** A chain of three nodes `a` over `b` over `c`, at the handles 0, 1 and 2. */
  function ChainC(): NodeProp<string> { NodeProp("c", Absent) }
  function ChainB(): NodeProp<string> { NodeProp("b", Present([ChainC()])) }
  function ChainProp(): NodeProp<string> { NodeProp("a", Present([ChainB()])) }

  /** The leaf appended below the bottom of the chain. */
  function LeafD(): NodeProp<string> { NodeProp("d", Absent) }

  /** The arena of the chain, read off its placement: child lists, parents and cached heights. */
  lemma ChainShape(s: Store<string>)
    requires Placed(s, ChainProp(), 0, Root)
    ensures 0 in s.nodes && 1 in s.nodes && 2 in s.nodes
    ensures Kids(s, 0) == [1] && Kids(s, 1) == [2] && Kids(s, 2) == []
    ensures s.nodes[0].parent == Root && s.nodes[1].parent == Attached(0) && s.nodes[2].parent == Attached(1)
    ensures s.nodes[0].height == 3 && s.nodes[1].height == 2 && s.nodes[2].height == 1
  {
    PlacedOne(s, "a", ChainB(), 0, Root, 1);
    PlacedOne(s, "b", ChainC(), 1, Attached(0), 2);
    PlacedLeaf(s, "c", 2, Attached(1));
  }

  /** `createTree` on the chain: a well-formed tree of three nodes whose cached heights are
      exact. */
  method CreateChain() returns (t: Tree<string>)
    ensures WellFormed(t) && t.root == 0 && HeightsExact(t.store)
    ensures t.store.next == 3 && Placed(t.store, ChainProp(), 0, Root)
  {
    t := CreateTree(ChainProp());
  }

  /** The structural heights of the chain once `d` hangs below `c`: 1 for `d`, up to 4 for `a`. */
  lemma ChainGrownHeights(r: Store<string>)
    requires Closed(r) && 0 in r.nodes && 1 in r.nodes && 2 in r.nodes && 3 in r.nodes
    requires Kids(r, 0) == [1] && Kids(r, 1) == [2] && Kids(r, 2) == [3] && Kids(r, 3) == []
    ensures StructHeight(r, 3) == 1 && StructHeight(r, 2) == 2
    ensures StructHeight(r, 1) == 3 && StructHeight(r, 0) == 4
  {
    assert KidsHeight(r, 3, 0) == 0;
    assert KidsHeight(r, 2, 1) == 0;
    assert KidsHeight(r, 2, 0) == 1;
    assert KidsHeight(r, 1, 1) == 0;
    assert KidsHeight(r, 1, 0) == 2;
    assert KidsHeight(r, 0, 1) == 0;
    assert KidsHeight(r, 0, 0) == 3;
  }

  /** Appending a leaf below `c` refreshes `c` and `b` only: their cached heights become 2 and 3,
      while `a` keeps the cached height 3 although its subtree is now 4 nodes tall, so the
      cached heights are no longer exact. */
  lemma StaleAfterAppend(s: Store<string>, r: Store<string>)
    requires Closed(s) && s.next == 3 && Placed(s, ChainProp(), 0, Root)
    requires Closed(r) && 2 in s.nodes && Kids(s, 2) == [] && InsertedAt(s, r, 2, 0, LeafD())
    ensures 0 in r.nodes && r.nodes[0].parent == Root
    ensures 1 in r.nodes && 2 in r.nodes && r.nodes[2].height == 2 && r.nodes[1].height == 3
    ensures r.nodes[0].height == 3 && StructHeight(r, 0) == 4
    ensures !HeightsExact(r)
  {
    ChainShape(s);
    assert r.nodes[2].children == [3];
    assert Placed(r, LeafD(), 3, Attached(2));
    PlacedLeaf(r, "d", 3, Attached(2));
    assert r.nodes[1] == s.nodes[1].(height := r.nodes[1].height);
    assert r.nodes[0] == s.nodes[0];
    assert HeightFits(r, 2) && HeightFits(r, 1);
    ChainGrownHeights(r);
  }

  /** `appendChild` below the bottom of a three-node chain leaves the root's cached height
      stale: the tree reports height 3 while its structure is 4 nodes tall. */
  method StaleHeight() returns (t: Tree<string>)
    ensures WellFormed(t) && t.root == 0
    ensures Height(t) == 3 && StructHeight(t.store, 0) == 4
    ensures 1 in t.store.nodes && 2 in t.store.nodes
    ensures t.store.nodes[2].height == 2 && t.store.nodes[1].height == 3
    ensures !HeightsExact(t.store)
  {
    var t0 := CreateChain();
    ChainShape(t0.store);
    var r := AppendChild(t0.store, 2, LeafD());
    StaleAfterAppend(t0.store, r);
    t := Tree(r, 0);
  }
}
