/** The read-only queries of `TreeNode`: `bfs` with its early stop, `getNodes` in its three
    forms, `contains`, `find` and `selectedNodes`. */
module Queries {
  import opened Wrappers
  import opened Seqs
  import opened Events
  import opened Arena
  import opened Structure
  import opened Traversal

  /** `bfs(predicate, stopWhenFound)`: runs the queue from `(id, 0)`; each dequeued entry first
      enqueues its children one level deeper and is then kept when `pred` accepts it. With
      `stopWhenFound` the search returns right after the first kept entry. */
  method Bfs<T>(s: Store<T>, id: NodeId, pred: Entry -> bool, stopWhenFound: bool)
    returns (found: seq<Entry>)
    requires Closed(s) && id in s.nodes
    ensures !stopWhenFound ==> found == Filter(BfsOrder(s, id), pred)
    ensures stopWhenFound ==> (found == [] <==> Filter(BfsOrder(s, id), pred) == [])
    ensures stopWhenFound && found != [] ==> found == [Filter(BfsOrder(s, id), pred)[0]]
  {
    var queue := [Entry(id, 0)];
    found := [];
    ghost var visited: seq<Entry> := [];
    BfsQueueIsLevelOrder(s, id);
    while queue != []
      invariant InStore(s, Items(queue))
      invariant visited + BfsQueue(s, queue) == BfsOrder(s, id)
      invariant found == Filter(visited, pred)
      invariant stopWhenFound ==> found == []
      decreases SizeAll(s, Items(queue))
    {
      var e := queue[0];
      BfsVisit(s, id, visited, queue, pred);
      if pred(e) && stopWhenFound {
        BfsFirstHit(s, id, visited, queue, pred);
      }
      queue := queue[1..] + Tag(Kids(s, e.item), e.level + 1);
      visited := visited + [e];
      if pred(e) {
        found := found + [e];
        if stopWhenFound {
          return;
        }
      }
    }
    assert visited + [] == visited;
  }

  /** One turn of the `bfs` loop moves the queue's head to the visited entries, keeps the
      order still to come intact, and adds the head to the kept entries when `pred` holds. */
  lemma BfsVisit<T>(s: Store<T>, id: NodeId, visited: seq<Entry>, queue: seq<Entry>,
                    pred: Entry -> bool)
    requires Closed(s) && id in s.nodes && InStore(s, Items(queue)) && queue != []
    requires visited + BfsQueue(s, queue) == BfsOrder(s, id)
    ensures var next := queue[1..] + Tag(Kids(s, queue[0].item), queue[0].level + 1);
            && InStore(s, Items(next))
            && SizeAll(s, Items(next)) < SizeAll(s, Items(queue))
            && (visited + [queue[0]]) + BfsQueue(s, next) == BfsOrder(s, id)
    ensures Filter(visited + [queue[0]], pred)
         == Filter(visited, pred) + (if pred(queue[0]) then [queue[0]] else [])
  {
    var e := queue[0];
    var next := queue[1..] + Tag(Kids(s, e.item), e.level + 1);
    QueueStep(s, queue);
    BfsQueueUnfold(s, queue);
    assert visited + ([e] + BfsQueue(s, next)) == (visited + [e]) + BfsQueue(s, next);
    FilterConcat(visited, [e], pred);
  }

  /** When nothing visited so far was kept and the head is accepted, the head is the first
      accepted entry of the whole order. */
  lemma BfsFirstHit<T>(s: Store<T>, id: NodeId, visited: seq<Entry>, queue: seq<Entry>,
                       pred: Entry -> bool)
    requires Closed(s) && id in s.nodes && InStore(s, Items(queue)) && queue != []
    requires visited + BfsQueue(s, queue) == BfsOrder(s, id)
    requires Filter(visited, pred) == [] && pred(queue[0])
    ensures Filter(BfsOrder(s, id), pred) != [] && Filter(BfsOrder(s, id), pred)[0] == queue[0]
  {
    var e := queue[0];
    var tail := BfsQueue(s, queue[1..] + Tag(Kids(s, e.item), e.level + 1));
    BfsQueueUnfold(s, queue);
    FilterFirstHit(BfsOrder(s, id), visited, e, tail, pred);
  }

  /** The argument of `getNodes`: none, a depth, or a traversal strategy by name. */
  datatype Query = AllNodes | AtLevel(level: int) | Strategy(name: string)

  /** `getNodes(param)`: the nodes below `id` in breadth-first order, those at one depth, or all
      of them in the order the named strategy gives; an unknown strategy yields no nodes. */
  function GetNodes<T>(s: Store<T>, id: NodeId, q: Query): seq<NodeId>
    requires Closed(s) && id in s.nodes
  {
    match q
    case AllNodes => Items(BfsOrder(s, id))
    case AtLevel(k) => Items(Filter(BfsOrder(s, id), AtDepth(k)))
    case Strategy(name) =>
      if name == "bfs" then Items(BfsOrder(s, id))
      else if name == "dfs" then Items(Dfs(s, id, 0))
      else []
  }

  /** `getNodes()` and `getNodes("bfs")` start at the node itself, list each node of its subtree
      (as many as the subtree's size) and nothing else; in a valid arena each node just once. */
  lemma GetNodesAll<T>(s: Store<T>, id: NodeId, n: NodeId)
    requires Closed(s) && id in s.nodes
    ensures GetNodes(s, id, AllNodes) == GetNodes(s, id, Strategy("bfs"))
    ensures |GetNodes(s, id, AllNodes)| == Size(s, id)
    ensures GetNodes(s, id, AllNodes)[0] == id
    ensures n in GetNodes(s, id, AllNodes) <==> InSubtree(s, id, n)
    ensures Valid(s) ==> NoDup(GetNodes(s, id, AllNodes))
  {
    BfsOrderLength(s, id);
    BfsCovers(s, id, n);
    TagCons([id], 0);
    if Valid(s) {
      BfsNoDup(s, id);
    }
  }

  /** `getNodes("dfs")` starts at the node itself and lists the same nodes as the
      breadth-first order, just as many times each; in a valid arena each node just once. */
  lemma GetNodesDfs<T>(s: Store<T>, id: NodeId, n: NodeId)
    requires Closed(s) && id in s.nodes
    ensures |GetNodes(s, id, Strategy("dfs"))| == Size(s, id)
    ensures GetNodes(s, id, Strategy("dfs"))[0] == id
    ensures n in GetNodes(s, id, Strategy("dfs")) <==> InSubtree(s, id, n)
    ensures Valid(s) ==> NoDup(GetNodes(s, id, Strategy("dfs")))
  {
    DfsPermutesBfs(s, id);
    DfsCovers(s, id, 0, n);
    if Valid(s) {
      DfsNoDup(s, id, 0);
    }
  }

  /** `getNodes(level)` yields exactly the nodes `level` steps below, left to right; a negative
      level yields none. */
  lemma GetNodesAtLevel<T>(s: Store<T>, id: NodeId, k: int)
    requires Closed(s) && id in s.nodes
    ensures k < 0 ==> GetNodes(s, id, AtLevel(k)) == []
    ensures k >= 0 ==> GetNodes(s, id, AtLevel(k)) == Level(s, [id], k)
  {
    if k < 0 {
      LevelsFromSorted(s, [id], 0);
      FilterNone(BfsOrder(s, id), AtDepth(k));
    } else {
      LevelsFromAtDepth(s, [id], 0, k);
      ItemsTag(Level(s, [id], k), k);
    }
  }

  /** Any strategy name other than `"bfs"` and `"dfs"` yields no nodes. */
  lemma GetNodesUnknown<T>(s: Store<T>, id: NodeId, name: string)
    requires Closed(s) && id in s.nodes && name != "bfs" && name != "dfs"
    ensures GetNodes(s, id, Strategy(name)) == []
  {
  }

  /** `contains(node)`: the node occurs in `getNodes()`, that is, it lies in the subtree. */
  function Contains<T>(s: Store<T>, id: NodeId, n: NodeId): (r: bool)
    requires Closed(s) && id in s.nodes
    ensures r <==> InSubtree(s, id, n)
  {
    BfsCovers(s, id, n);
    n in GetNodes(s, id, AllNodes)
  }

  /** Lifts a predicate on nodes to traversal entries, as `find` does with `({item}) => …`. */
  function OnItem(pred: NodeId -> bool): Entry -> bool {
    (e: Entry) => pred(e.item)
  }

  /** Filtering entries by their node is filtering the nodes. */
  lemma {:induction false} ItemsFilter(es: seq<Entry>, pred: NodeId -> bool)
    ensures Items(Filter(es, OnItem(pred))) == Filter(Items(es), pred)
  {
    if es != [] {
      ItemsFilter(es[1..], pred);
      assert Items(es)[1..] == Items(es[1..]);
      var head := if OnItem(pred)(es[0]) then [es[0]] else [];
      ItemsConcat(head, Filter(es[1..], OnItem(pred)));
    }
  }

  /** `find(predicate)`: the first node of the breadth-first order accepted by `pred`, found
      with an early-stopping `bfs`. */
  method Find<T>(s: Store<T>, id: NodeId, pred: NodeId -> bool) returns (r: Option<NodeId>)
    requires Closed(s) && id in s.nodes
    ensures r == First(GetNodes(s, id, AllNodes), pred)
    ensures r.None? <==> forall n | InSubtree(s, id, n) :: !pred(n)
    ensures r.Some? ==> pred(r.value) && InSubtree(s, id, r.value)
  {
    var found := Bfs(s, id, OnItem(pred), true);
    if |found| > 0 {
      r := Some(found[0].item);
    } else {
      r := None;
    }
    ghost var order := BfsOrder(s, id);
    ItemsFilter(order, pred);
    FirstIsFilterHead(Items(order), pred);
    FindCovers(s, id, pred, r);
  }

  /** Whether the first accepted node exists, and where it lies, in terms of the subtree. */
  lemma FindCovers<T>(s: Store<T>, id: NodeId, pred: NodeId -> bool, r: Option<NodeId>)
    requires Closed(s) && id in s.nodes
    requires r == First(GetNodes(s, id, AllNodes), pred)
    ensures r.None? <==> forall n | InSubtree(s, id, n) :: !pred(n)
    ensures r.Some? ==> pred(r.value) && InSubtree(s, id, r.value)
  {
    var nodes := GetNodes(s, id, AllNodes);
    if r.Some? {
      GetNodesAll(s, id, r.value);
    } else {
      forall n | InSubtree(s, id, n) ensures !pred(n) {
        GetNodesAll(s, id, n);
        var i :| 0 <= i < |nodes| && nodes[i] == n;
      }
    }
  }

  /** Whether a node of the arena is selected. */
  predicate IsSelected<T>(s: Store<T>, n: NodeId) {
    n in s.nodes && s.nodes[n].selected
  }

  /** `selectedNodes`: the selected nodes of the subtree, in breadth-first order; in a valid
      arena each of them just once, so the length counts the selected nodes. */
  function SelectedNodes<T>(s: Store<T>, id: NodeId): (r: seq<NodeId>)
    requires Closed(s) && id in s.nodes
    ensures forall n :: n in r <==> InSubtree(s, id, n) && IsSelected(s, n)
    ensures Valid(s) ==> NoDup(r)
  {
    var all := GetNodes(s, id, AllNodes);
    var r := Filter(all, n => IsSelected(s, n));
    FilterMembers(all, n => IsSelected(s, n));
    forall n ensures n in all <==> InSubtree(s, id, n) {
      GetNodesAll(s, id, n);
    }
    GetNodesAll(s, id, id);
    FilterNoDup(all, n => IsSelected(s, n));
    r
  }
}
