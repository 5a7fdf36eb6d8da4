/** The two traversal orders of `TreeNode`: the queue-driven breadth-first search of `bfs`, its
    level-by-level reference order, and the recursive pre-order of `dfs`. */
module Traversal {
  import opened Seqs
  import opened Events
  import opened Arena
  import opened Structure

  /** A traversal entry `{item, level}`: a node and its depth below the starting node. */
  datatype Entry = Entry(item: NodeId, level: nat)

  /** The entries for a list of nodes, all at one level. */
  function Tag(ids: seq<NodeId>, level: nat): (es: seq<Entry>)
    ensures |es| == |ids| && forall i | 0 <= i < |ids| :: es[i] == Entry(ids[i], level)
  {
    seq(|ids|, i requires 0 <= i < |ids| => Entry(ids[i], level))
  }

  /** The nodes of a list of entries (`.map(({item}) => item)`). */
  function Items(es: seq<Entry>): (ids: seq<NodeId>)
    ensures |ids| == |es| && forall i | 0 <= i < |es| :: ids[i] == es[i].item
  {
    seq(|es|, i requires 0 <= i < |es| => es[i].item)
  }

  lemma TagConcat(a: seq<NodeId>, b: seq<NodeId>, level: nat)
    ensures Tag(a + b, level) == Tag(a, level) + Tag(b, level)
  {
    assert forall i | 0 <= i < |a + b| :: Tag(a + b, level)[i] == (Tag(a, level) + Tag(b, level))[i];
  }

  lemma ItemsConcat(a: seq<Entry>, b: seq<Entry>)
    ensures Items(a + b) == Items(a) + Items(b)
  {
    assert forall i | 0 <= i < |a + b| :: Items(a + b)[i] == (Items(a) + Items(b))[i];
  }

  lemma ItemsTag(ids: seq<NodeId>, level: nat)
    ensures Items(Tag(ids, level)) == ids
  {
  }

  /** The reference breadth-first order: the nodes of `ids` at `level`, then all their children
      one level deeper, and so on until a level is empty. */
  function LevelsFrom<T>(s: Store<T>, ids: seq<NodeId>, level: nat): seq<Entry>
    requires Closed(s) && InStore(s, ids)
    decreases SizeAll(s, ids)
  {
    if ids == [] then []
    else
      SizeOfChildren(s, ids);
      Tag(ids, level) + LevelsFrom(s, Children(s, ids), level + 1)
  }

  /** The full breadth-first order below `id`, starting with `(id, 0)`. */
  function BfsOrder<T>(s: Store<T>, id: NodeId): seq<Entry>
    requires Closed(s) && id in s.nodes
  {
    LevelsFrom(s, [id], 0)
  }

  /** One step of the `bfs` loop shrinks the nodes still to be visited by exactly one. */
  lemma QueueStep<T>(s: Store<T>, queue: seq<Entry>)
    requires Closed(s) && InStore(s, Items(queue)) && queue != []
    ensures var e := queue[0];
            var next := queue[1..] + Tag(Kids(s, e.item), e.level + 1);
            InStore(s, Items(next)) && SizeAll(s, Items(next)) + 1 == SizeAll(s, Items(queue))
  {
    var e := queue[0];
    var kids := Kids(s, e.item);
    var next := queue[1..] + Tag(kids, e.level + 1);
    ItemsConcat(queue[1..], Tag(kids, e.level + 1));
    ItemsTag(kids, e.level + 1);
    assert Items(next) == Items(queue[1..]) + kids;
    assert Items(queue)[1..] == Items(queue[1..]);
    KidsInStore(s, e.item);
    SizeAllConcat(s, Items(queue[1..]), kids);
    KidsSizeIsSizeAll(s, e.item, 0);
    assert kids[0..] == kids;
  }

  /** The `bfs` loop as a function of its queue: take the head, enqueue its children one level
      deeper, continue until the queue is empty. */
  function BfsQueue<T>(s: Store<T>, queue: seq<Entry>): seq<Entry>
    requires Closed(s) && InStore(s, Items(queue))
    decreases SizeAll(s, Items(queue))
  {
    if queue == [] then []
    else
      var e := queue[0];
      QueueStep(s, queue);
      [e] + BfsQueue(s, queue[1..] + Tag(Kids(s, e.item), e.level + 1))
  }

  /** The queue made of the unvisited rest `todo` of a level and the children of its
      visited part. */
  function LevelQueue<T>(s: Store<T>, visited: seq<NodeId>, todo: seq<NodeId>, level: nat): (q: seq<Entry>)
    requires Closed(s) && InStore(s, visited) && InStore(s, todo)
    ensures InStore(s, Items(q))
  {
    var q := Tag(todo, level) + Tag(Children(s, visited), level + 1);
    ItemsConcat(Tag(todo, level), Tag(Children(s, visited), level + 1));
    q
  }

  /** One turn of the `bfs` loop: the head is output and its children join the queue's tail. */
  lemma BfsQueueUnfold<T>(s: Store<T>, queue: seq<Entry>)
    requires Closed(s) && InStore(s, Items(queue)) && queue != []
    ensures InStore(s, Items(queue[1..] + Tag(Kids(s, queue[0].item), queue[0].level + 1)))
    ensures BfsQueue(s, queue)
         == [queue[0]] + BfsQueue(s, queue[1..] + Tag(Kids(s, queue[0].item), queue[0].level + 1))
  {
    QueueStep(s, queue);
  }

  /** The children of a list grown by one node are the old children followed by its own. */
  lemma ChildrenSnoc<T>(s: Store<T>, visited: seq<NodeId>, x: NodeId)
    requires Closed(s) && InStore(s, visited) && x in s.nodes
    ensures InStore(s, visited + [x])
    ensures Children(s, visited + [x]) == Children(s, visited) + Kids(s, x)
  {
    KidsInStore(s, x);
    ChildrenConcat(s, visited, [x]);
    assert Children(s, [x]) == Kids(s, x) + Children(s, []);
  }

  /** Splitting the head off a level followed by deeper entries. */
  lemma TagSplitHead(todo: seq<NodeId>, c: seq<NodeId>, level: nat, q: seq<Entry>)
    requires todo != [] && q == Tag(todo, level) + Tag(c, level + 1)
    ensures q[0] == Entry(todo[0], level)
    ensures q[1..] == Tag(todo[1..], level) + Tag(c, level + 1)
  {
    assert todo == [todo[0]] + todo[1..];
    TagConcat([todo[0]], todo[1..], level);
    assert q == Tag([todo[0]], level) + (Tag(todo[1..], level) + Tag(c, level + 1));
  }

  /** A level queue starts with the head of `todo`, followed by the rest of the level and the
      children of the visited part. */
  lemma LevelQueueSplit<T>(s: Store<T>, visited: seq<NodeId>, todo: seq<NodeId>, level: nat)
    requires Closed(s) && InStore(s, visited) && InStore(s, todo) && todo != []
    ensures LevelQueue(s, visited, todo, level)[0] == Entry(todo[0], level)
    ensures LevelQueue(s, visited, todo, level)[1..]
         == Tag(todo[1..], level) + Tag(Children(s, visited), level + 1)
  {
    TagSplitHead(todo, Children(s, visited), level, LevelQueue(s, visited, todo, level));
  }

  /** Moving the children of one more node from the tail of a level queue into its
      children part. */
  lemma TagShift(rest: seq<NodeId>, c: seq<NodeId>, kids: seq<NodeId>, c2: seq<NodeId>, level: nat)
    requires c2 == c + kids
    ensures (Tag(rest, level) + Tag(c, level + 1)) + Tag(kids, level + 1) == Tag(rest, level) + Tag(c2, level + 1)
  {
    TagConcat(c, kids, level + 1);
  }

  /** Visiting the head of a level queue moves it from `todo` to `visited`. */
  lemma LevelQueueNext<T>(s: Store<T>, visited: seq<NodeId>, todo: seq<NodeId>, level: nat)
    requires Closed(s) && InStore(s, visited) && InStore(s, todo) && todo != []
    ensures InStore(s, visited + [todo[0]]) && InStore(s, todo[1..])
    ensures LevelQueue(s, visited, todo, level)[0] == Entry(todo[0], level)
    ensures LevelQueue(s, visited, todo, level)[1..] + Tag(Kids(s, todo[0]), level + 1)
         == LevelQueue(s, visited + [todo[0]], todo[1..], level)
  {
    var x := todo[0];
    var c := Children(s, visited);
    var kids := Kids(s, x);
    LevelQueueSplit(s, visited, todo, level);
    ChildrenSnoc(s, visited, x);
    TagShift(todo[1..], c, kids, Children(s, visited + [x]), level);
  }

  /** Visiting the head of a level queue lowers the number of nodes still to come. */
  lemma LevelQueueShrinks<T>(s: Store<T>, visited: seq<NodeId>, todo: seq<NodeId>)
    requires Closed(s) && InStore(s, visited) && InStore(s, todo) && todo != []
    ensures InStore(s, visited + [todo[0]]) && InStore(s, todo[1..])
    ensures SizeAll(s, todo[1..]) + SizeAll(s, Children(s, visited + [todo[0]]))
          < SizeAll(s, todo) + SizeAll(s, Children(s, visited))
  {
    var x := todo[0];
    var kids := Kids(s, x);
    KidsInStore(s, x);
    ChildrenConcat(s, visited, [x]);
    assert Children(s, [x]) == kids;
    SizeAllConcat(s, Children(s, visited), kids);
    KidsSizeIsSizeAll(s, x, 0);
    assert kids[0..] == kids;
  }

  /** Visiting the head of a level queue moves it from `todo` to `visited`. */
  lemma LevelQueueStep<T>(s: Store<T>, visited: seq<NodeId>, todo: seq<NodeId>, level: nat)
    requires Closed(s) && InStore(s, visited) && InStore(s, todo) && todo != []
    ensures InStore(s, visited + [todo[0]]) && InStore(s, todo[1..])
    ensures BfsQueue(s, LevelQueue(s, visited, todo, level))
         == [Entry(todo[0], level)] + BfsQueue(s, LevelQueue(s, visited + [todo[0]], todo[1..], level))
    ensures SizeAll(s, todo[1..]) + SizeAll(s, Children(s, visited + [todo[0]]))
          < SizeAll(s, todo) + SizeAll(s, Children(s, visited))
  {
    var queue := LevelQueue(s, visited, todo, level);
    LevelQueueNext(s, visited, todo, level);
    BfsQueueUnfold(s, queue);
    LevelQueueShrinks(s, visited, todo);
  }

  /** The queue, holding the unvisited rest of one level followed by the children of the
      visited part, runs out that level and then proceeds level by level. */
  lemma {:induction false} QueueRunsLevelByLevel<T>(s: Store<T>, visited: seq<NodeId>, todo: seq<NodeId>, level: nat)
    requires Closed(s) && InStore(s, visited) && InStore(s, todo)
    ensures BfsQueue(s, LevelQueue(s, visited, todo, level))
         == Tag(todo, level) + LevelsFrom(s, Children(s, visited) + Children(s, todo), level + 1)
    decreases SizeAll(s, todo) + SizeAll(s, Children(s, visited)), if todo == [] then 1 else 0, 1
  {
    if todo == [] {
      QueueRunsNextLevel(s, visited, level);
    } else {
      QueueRunsHead(s, visited, todo, level);
    }
  }

  /** With the level used up, the queue holds exactly the next level. */
  lemma {:induction false} QueueRunsNextLevel<T>(s: Store<T>, visited: seq<NodeId>, level: nat)
    requires Closed(s) && InStore(s, visited)
    ensures BfsQueue(s, LevelQueue(s, visited, [], level))
         == Tag([], level) + LevelsFrom(s, Children(s, visited) + Children(s, []), level + 1)
    decreases SizeAll(s, []) + SizeAll(s, Children(s, visited)), 1, 0
  {
    var c := Children(s, visited);
    assert Tag([], level) + LevelsFrom(s, c + Children(s, []), level + 1) == LevelsFrom(s, c, level + 1) by {
      assert c + Children(s, []) == c;
    }
    assert LevelQueue(s, visited, [], level) == Tag(c, level + 1);
    if c != [] {
      QueueRunsLevelByLevel(s, [], c, level + 1);
      assert LevelQueue(s, [], c, level + 1) == Tag(c, level + 1);
      assert Children(s, []) + Children(s, c) == Children(s, c);
      assert LevelsFrom(s, c, level + 1) == Tag(c, level + 1) + LevelsFrom(s, Children(s, c), level + 2);
    }
  }

  /** Moving the head of `todo` to `visited` leaves the children of the whole level in order. */
  lemma ChildrenShift<T>(s: Store<T>, visited: seq<NodeId>, todo: seq<NodeId>)
    requires Closed(s) && InStore(s, visited) && InStore(s, todo) && todo != []
    ensures InStore(s, visited + [todo[0]]) && InStore(s, todo[1..])
    ensures Children(s, visited + [todo[0]]) + Children(s, todo[1..])
         == Children(s, visited) + Children(s, todo)
  {
    var x := todo[0];
    KidsInStore(s, x);
    ChildrenConcat(s, visited, [x]);
    assert Children(s, [x]) == Kids(s, x);
    assert Children(s, todo) == Kids(s, x) + Children(s, todo[1..]);
  }

  /** The entries of a non-empty list: its head's entry, then the rest's. */
  lemma TagCons(ids: seq<NodeId>, level: nat)
    requires ids != []
    ensures Tag(ids, level) == [Entry(ids[0], level)] + Tag(ids[1..], level)
  {
    assert ids == [ids[0]] + ids[1..];
    TagConcat([ids[0]], ids[1..], level);
  }

  /** Visiting the head of the level and then the rest of the queue. */
  lemma {:induction false} QueueRunsHead<T>(s: Store<T>, visited: seq<NodeId>, todo: seq<NodeId>, level: nat)
    requires Closed(s) && InStore(s, visited) && InStore(s, todo) && todo != []
    ensures BfsQueue(s, LevelQueue(s, visited, todo, level))
         == Tag(todo, level) + LevelsFrom(s, Children(s, visited) + Children(s, todo), level + 1)
    decreases SizeAll(s, todo) + SizeAll(s, Children(s, visited)), 0, 0
  {
    var x := todo[0];
    var rest := todo[1..];
    var c2 := Children(s, visited) + Children(s, todo);
    ChildrenShift(s, visited, todo);
    var q := BfsQueue(s, LevelQueue(s, visited, todo, level));
    var a := BfsQueue(s, LevelQueue(s, visited + [x], rest, level));
    var l := LevelsFrom(s, c2, level + 1);
    assert q == [Entry(x, level)] + a by {
      LevelQueueStep(s, visited, todo, level);
    }
    assert a == Tag(rest, level) + l by {
      LevelQueueStep(s, visited, todo, level);
      QueueRunsLevelByLevel(s, visited + [x], rest, level);
    }
    TagCons(todo, level);
    ConsAssoc(q, Entry(x, level), a, Tag(rest, level), l);
  }

  lemma ConsAssoc<E>(q: seq<E>, e: E, a: seq<E>, r: seq<E>, l: seq<E>)
    requires q == [e] + a && a == r + l
    ensures q == ([e] + r) + l
  {
  }

  /** Running the `bfs` queue from `(id, 0)` produces exactly the level-by-level order. */
  lemma BfsQueueIsLevelOrder<T>(s: Store<T>, id: NodeId)
    requires Closed(s) && id in s.nodes
    ensures InStore(s, Items([Entry(id, 0)]))
    ensures BfsQueue(s, [Entry(id, 0)]) == BfsOrder(s, id)
  {
    QueueRunsLevelByLevel(s, [], [id], 0);
    assert LevelQueue(s, [], [id], 0) == [Entry(id, 0)];
    assert Children(s, []) + Children(s, [id]) == Children(s, [id]);
  }

  /** The level-by-level order lists every node of the subtrees once: its length is their size. */
  lemma {:induction false} LevelsFromLength<T>(s: Store<T>, ids: seq<NodeId>, level: nat)
    requires Closed(s) && InStore(s, ids)
    ensures |LevelsFrom(s, ids, level)| == SizeAll(s, ids)
    decreases SizeAll(s, ids)
  {
    if ids != [] {
      SizeOfChildren(s, ids);
      LevelsFromLength(s, Children(s, ids), level + 1);
    }
  }

  /** One level followed by an ascending run of deeper entries is ascending. */
  lemma LevelsAscendConcat(a: seq<Entry>, b: seq<Entry>, level: nat)
    requires forall i | 0 <= i < |a| :: a[i].level == level
    requires forall i | 0 <= i < |b| :: level + 1 <= b[i].level
    requires forall i, j | 0 <= i < j < |b| :: b[i].level <= b[j].level
    ensures forall i | 0 <= i < |a + b| :: level <= (a + b)[i].level
    ensures forall i, j | 0 <= i < j < |a + b| :: (a + b)[i].level <= (a + b)[j].level
  {
    var ab := a + b;
    forall i, j | 0 <= i < j < |ab| ensures ab[i].level <= ab[j].level {
      if j < |a| {
        assert ab[i] == a[i] && ab[j] == a[j];
      } else if i < |a| {
        assert ab[i] == a[i] && ab[j] == b[j - |a|];
      } else {
        assert ab[i] == b[i - |a|] && ab[j] == b[j - |a|];
      }
    }
  }

  /** Levels never go down along the order and start at the given level. */
  lemma {:induction false} LevelsFromSorted<T>(s: Store<T>, ids: seq<NodeId>, level: nat)
    requires Closed(s) && InStore(s, ids)
    ensures forall i | 0 <= i < |LevelsFrom(s, ids, level)| :: level <= LevelsFrom(s, ids, level)[i].level
    ensures forall i, j | 0 <= i < j < |LevelsFrom(s, ids, level)| ::
              LevelsFrom(s, ids, level)[i].level <= LevelsFrom(s, ids, level)[j].level
    decreases SizeAll(s, ids)
  {
    if ids != [] {
      var cs := Children(s, ids);
      LevelsFromUnfold(s, ids, level);
      var rest := LevelsFrom(s, cs, level + 1);
      LevelsFromSorted(s, cs, level + 1);
      LevelsAscendConcat(Tag(ids, level), rest, level);
    }
  }

  /** Selects the entries at one depth (the predicate `getNodes(level)` passes to `bfs`). */
  function AtDepth(d: int): Entry -> bool {
    (e: Entry) => e.level == d
  }

  /** Filtering the level-by-level order at a depth above its first level yields nothing. */
  lemma LevelsFromAboveDepth<T>(s: Store<T>, ids: seq<NodeId>, level: nat, d: nat)
    requires Closed(s) && InStore(s, ids) && d < level
    ensures Filter(LevelsFrom(s, ids, level), AtDepth(d)) == []
  {
    LevelsFromSorted(s, ids, level);
    FilterNone(LevelsFrom(s, ids, level), AtDepth(d));
  }

  /** Filtering one level followed by deeper entries at depth `d`: the level itself when it is
      at depth `d`, otherwise only what the deeper entries contribute. */
  lemma FilterLevelSplit(ids: seq<NodeId>, rest: seq<Entry>, level: nat, d: nat)
    requires level <= d
    requires d == level ==> Filter(rest, AtDepth(d)) == []
    ensures d == level ==> Filter(Tag(ids, level) + rest, AtDepth(d)) == Tag(ids, d)
    ensures d != level ==> Filter(Tag(ids, level) + rest, AtDepth(d)) == Filter(rest, AtDepth(d))
  {
    FilterConcat(Tag(ids, level), rest, AtDepth(d));
    if d == level {
      FilterAll(Tag(ids, level), AtDepth(d));
    } else {
      FilterNone(Tag(ids, level), AtDepth(d));
    }
  }

  /** One step of the level-by-level order: the level itself, then the order of its children. */
  lemma LevelsFromUnfold<T>(s: Store<T>, ids: seq<NodeId>, level: nat)
    requires Closed(s) && InStore(s, ids) && ids != []
    ensures SizeAll(s, Children(s, ids)) < SizeAll(s, ids)
    ensures LevelsFrom(s, ids, level) == Tag(ids, level) + LevelsFrom(s, Children(s, ids), level + 1)
  {
    SizeOfChildren(s, ids);
  }

  /** Filtering the level-by-level order at depth `d` yields the nodes `d - level` levels below. */
  lemma {:induction false} LevelsFromAtDepth<T>(s: Store<T>, ids: seq<NodeId>, level: nat, d: nat)
    requires Closed(s) && InStore(s, ids) && level <= d
    ensures Filter(LevelsFrom(s, ids, level), AtDepth(d)) == Tag(Level(s, ids, d - level), d)
    decreases SizeAll(s, ids)
  {
    if ids == [] {
      LevelOfEmpty(s, d - level);
    } else {
      var cs := Children(s, ids);
      LevelsFromUnfold(s, ids, level);
      var rest := LevelsFrom(s, cs, level + 1);
      if d == level {
        LevelsFromAboveDepth(s, cs, level + 1, d);
        FilterLevelSplit(ids, rest, level, d);
      } else {
        LevelsFromAtDepth(s, cs, level + 1, d);
        FilterLevelSplit(ids, rest, level, d);
        assert Level(s, ids, d - level) == Level(s, cs, d - (level + 1));
      }
    }
  }

  lemma {:induction false} LevelOfEmpty<T>(s: Store<T>, k: nat)
    requires Closed(s)
    ensures Level(s, [], k) == []
    decreases k
  {
    if k > 0 { LevelOfEmpty(s, k - 1); }
  }

  /** `dfs`: the node, then the pre-order of each child's subtree in child order. */
  function Dfs<T>(s: Store<T>, id: NodeId, level: nat): (es: seq<Entry>)
    requires Closed(s) && id in s.nodes
    ensures es != [] && es[0] == Entry(id, level)
    decreases s.next - id, 1
  {
    [Entry(id, level)] + DfsKids(s, id, 0, level + 1)
  }

  /** The pre-orders of the children of `p` from position `i` on, concatenated. */
  function DfsKids<T>(s: Store<T>, p: NodeId, i: nat, level: nat): seq<Entry>
    requires Closed(s) && p in s.nodes && i <= |Kids(s, p)|
    decreases s.next - p, 0, |Kids(s, p)| - i
  {
    if i == |Kids(s, p)| then []
    else Dfs(s, Kids(s, p)[i], level) + DfsKids(s, p, i + 1, level)
  }

  /** The pre-orders of a list of nodes, concatenated. */
  function DfsAll<T>(s: Store<T>, ids: seq<NodeId>, level: nat): seq<Entry>
    requires Closed(s) && InStore(s, ids)
  {
    if ids == [] then [] else Dfs(s, ids[0], level) + DfsAll(s, ids[1..], level)
  }

  lemma {:induction false} DfsKidsIsDfsAll<T>(s: Store<T>, p: NodeId, i: nat, level: nat)
    requires Closed(s) && p in s.nodes && i <= |Kids(s, p)|
    ensures InStore(s, Kids(s, p)[i..])
    ensures DfsKids(s, p, i, level) == DfsAll(s, Kids(s, p)[i..], level)
    decreases |Kids(s, p)| - i
  {
    if i < |Kids(s, p)| {
      DfsKidsIsDfsAll(s, p, i + 1, level);
      assert Kids(s, p)[i..][1..] == Kids(s, p)[i + 1..];
    }
  }

  lemma {:induction false} DfsAllConcat<T>(s: Store<T>, a: seq<NodeId>, b: seq<NodeId>, level: nat)
    requires Closed(s) && InStore(s, a) && InStore(s, b)
    ensures InStore(s, a + b)
    ensures DfsAll(s, a + b, level) == DfsAll(s, a, level) + DfsAll(s, b, level)
  {
    if a == [] {
      assert a + b == b;
    } else {
      assert (a + b)[1..] == a[1..] + b;
      DfsAllConcat(s, a[1..], b, level);
    }
  }

  /** A pre-order of a level holds the level itself plus the pre-order of the next level. */
  lemma {:induction false} DfsAllByLevel<T>(s: Store<T>, ids: seq<NodeId>, level: nat)
    requires Closed(s) && InStore(s, ids)
    ensures multiset(DfsAll(s, ids, level))
         == multiset(Tag(ids, level)) + multiset(DfsAll(s, Children(s, ids), level + 1))
  {
    if ids != [] {
      var x := ids[0];
      var rest := ids[1..];
      KidsInStore(s, x);
      var dk := DfsAll(s, Kids(s, x), level + 1);
      var dr := DfsAll(s, rest, level);
      var dcr := DfsAll(s, Children(s, rest), level + 1);
      assert DfsAll(s, ids, level) == [Entry(x, level)] + dk + dr by {
        DfsKidsIsDfsAll(s, x, 0, level + 1);
        assert Kids(s, x)[0..] == Kids(s, x);
      }
      assert multiset(dr) == multiset(Tag(rest, level)) + multiset(dcr) by {
        DfsAllByLevel(s, rest, level);
      }
      assert DfsAll(s, Children(s, ids), level + 1) == dk + dcr by {
        DfsAllConcat(s, Kids(s, x), Children(s, rest), level + 1);
      }
      TagCons(ids, level);
      MultisetAssemble(DfsAll(s, ids, level), Entry(x, level), dk, dr, Tag(ids, level),
                       Tag(rest, level), DfsAll(s, Children(s, ids), level + 1), dcr);
    }
  }

  lemma MultisetAssemble<E>(d: seq<E>, e: E, dk: seq<E>, dr: seq<E>, t: seq<E>, tr: seq<E>,
                            dc: seq<E>, dcr: seq<E>)
    requires d == [e] + dk + dr && multiset(dr) == multiset(tr) + multiset(dcr)
    requires t == [e] + tr && dc == dk + dcr
    ensures multiset(d) == multiset(t) + multiset(dc)
  {
  }

  /** Depth-first and breadth-first order hold the same entries (node and level alike). */
  lemma {:induction false} DfsAllPermutesLevels<T>(s: Store<T>, ids: seq<NodeId>, level: nat)
    requires Closed(s) && InStore(s, ids)
    ensures multiset(DfsAll(s, ids, level)) == multiset(LevelsFrom(s, ids, level))
    decreases SizeAll(s, ids)
  {
    if ids != [] {
      SizeOfChildren(s, ids);
      DfsAllByLevel(s, ids, level);
      DfsAllPermutesLevels(s, Children(s, ids), level + 1);
    }
  }

  /** The breadth-first order lists as many entries as the subtree has nodes. */
  lemma BfsOrderLength<T>(s: Store<T>, id: NodeId)
    requires Closed(s) && id in s.nodes
    ensures |BfsOrder(s, id)| == Size(s, id)
  {
    LevelsFromLength(s, [id], 0);
    assert SizeAll(s, [id]) == Size(s, id) + SizeAll(s, []);
  }

  /** The pre-order of one node, as a permutation of its level-by-level order. */
  lemma DfsPermutesLevels<T>(s: Store<T>, id: NodeId)
    requires Closed(s) && id in s.nodes
    ensures multiset(Dfs(s, id, 0)) == multiset(BfsOrder(s, id))
  {
    assert DfsAll(s, [id], 0) == Dfs(s, id, 0) + [];
    DfsAllPermutesLevels(s, [id], 0);
  }

  /** `getNodes("dfs")` is a permutation of `getNodes("bfs")`, level tags included, and both
      list each node of the subtree once. */
  lemma DfsPermutesBfs<T>(s: Store<T>, id: NodeId)
    requires Closed(s) && id in s.nodes
    ensures multiset(Dfs(s, id, 0)) == multiset(BfsOrder(s, id))
    ensures |Dfs(s, id, 0)| == |BfsOrder(s, id)| == Size(s, id)
  {
    var d := Dfs(s, id, 0);
    var b := BfsOrder(s, id);
    DfsPermutesLevels(s, id);
    BfsOrderLength(s, id);
    assert |multiset(d)| == |multiset(b)|;
  }

  /** The pre-order below `id` lists exactly the nodes of its subtree. */
  lemma {:induction false} DfsCovers<T>(s: Store<T>, id: NodeId, level: nat, n: NodeId)
    requires Closed(s) && id in s.nodes
    ensures n in Items(Dfs(s, id, level)) <==> InSubtree(s, id, n)
    decreases s.next - id, 1
  {
    DfsKidsCovers(s, id, 0, level + 1, n);
    ItemsConcat([Entry(id, level)], DfsKids(s, id, 0, level + 1));
  }

  /** The pre-orders of the children of `p` from position `i` on list exactly the nodes of
      those children's subtrees. */
  lemma {:induction false} DfsKidsCovers<T>(s: Store<T>, p: NodeId, i: nat, level: nat, n: NodeId)
    requires Closed(s) && p in s.nodes && i <= |Kids(s, p)|
    ensures n in Items(DfsKids(s, p, i, level))
        <==> exists j | i <= j < |Kids(s, p)| :: InSubtree(s, Kids(s, p)[j], n)
    decreases s.next - p, 0, |Kids(s, p)| - i
  {
    if i < |Kids(s, p)| {
      var c := Kids(s, p)[i];
      DfsCovers(s, c, level, n);
      DfsKidsCovers(s, p, i + 1, level, n);
      ItemsConcat(Dfs(s, c, level), DfsKids(s, p, i + 1, level));
      if InSubtree(s, c, n) {
        assert exists j | i <= j < |Kids(s, p)| :: InSubtree(s, Kids(s, p)[j], n);
      }
    }
  }

  /** Two orders holding the same entries visit the same nodes. */
  lemma ItemsOfPermutation(a: seq<Entry>, b: seq<Entry>, n: NodeId)
    requires multiset(a) == multiset(b)
    ensures n in Items(a) <==> n in Items(b)
  {
    if n in Items(a) {
      var i :| 0 <= i < |a| && Items(a)[i] == n;
      assert a[i] in multiset(b);
      var j :| 0 <= j < |b| && b[j] == a[i];
      assert Items(b)[j] == n;
    }
    if n in Items(b) {
      var i :| 0 <= i < |b| && Items(b)[i] == n;
      assert b[i] in multiset(a);
      var j :| 0 <= j < |a| && a[j] == b[i];
      assert Items(a)[j] == n;
    }
  }

  /** The breadth-first order below `id` lists exactly the nodes of its subtree. */
  lemma BfsCovers<T>(s: Store<T>, id: NodeId, n: NodeId)
    requires Closed(s) && id in s.nodes
    ensures n in Items(BfsOrder(s, id)) <==> InSubtree(s, id, n)
  {
    DfsPermutesLevels(s, id);
    ItemsOfPermutation(Dfs(s, id, 0), BfsOrder(s, id), n);
    DfsCovers(s, id, 0, n);
  }

  /** Under the invariant the pre-order below `id` visits no node twice. */
  lemma {:induction false} DfsNoDup<T>(s: Store<T>, id: NodeId, level: nat)
    requires Valid(s) && id in s.nodes
    ensures NoDup(Items(Dfs(s, id, level)))
    decreases s.next - id, 1
  {
    var rest := DfsKids(s, id, 0, level + 1);
    DfsKidsNoDup(s, id, 0, level + 1);
    ItemsConcat([Entry(id, level)], rest);
    forall n | n in Items(rest) ensures n !in [id] {
      DfsKidsCovers(s, id, 0, level + 1, n);
      var j :| 0 <= j < |Kids(s, id)| && InSubtree(s, Kids(s, id)[j], n);
      InSubtreeAbove(s, Kids(s, id)[j], n);
    }
    NoDupConcat([id], Items(rest));
    assert Dfs(s, id, level) == [Entry(id, level)] + rest;
    assert Items([Entry(id, level)]) == [id];
  }

  /** Under the invariant the pre-orders of the children of `p` from position `i` on visit no
      node twice. */
  lemma {:induction false} DfsKidsNoDup<T>(s: Store<T>, p: NodeId, i: nat, level: nat)
    requires Valid(s) && p in s.nodes && i <= |Kids(s, p)|
    ensures NoDup(Items(DfsKids(s, p, i, level)))
    decreases s.next - p, 0, |Kids(s, p)| - i
  {
    if i < |Kids(s, p)| {
      var kids := Kids(s, p);
      var c := kids[i];
      var head := Dfs(s, c, level);
      var tail := DfsKids(s, p, i + 1, level);
      DfsNoDup(s, c, level);
      DfsKidsNoDup(s, p, i + 1, level);
      ItemsConcat(head, tail);
      forall n | n in Items(head) ensures n !in Items(tail) {
        DfsCovers(s, c, level, n);
        DfsKidsCovers(s, p, i + 1, level, n);
        if n in Items(tail) {
          var j :| i + 1 <= j < |kids| && InSubtree(s, kids[j], n);
          assert kids[i] != kids[j];
          SiblingSubtreesDisjoint(s, p, c, kids[j], n);
        }
      }
      NoDupConcat(Items(head), Items(tail));
    }
  }

  /** An order that visits no node twice holds each entry at most once. */
  lemma {:induction false} NoDupItemsOnce(a: seq<Entry>, e: Entry)
    requires NoDup(Items(a))
    ensures multiset(a)[e] <= 1
  {
    if a != [] {
      assert a == [a[0]] + a[1..];
      assert Items(a[1..]) == Items(a)[1..];
      NoDupItemsOnce(a[1..], e);
      if a[0] == e {
        assert e !in a[1..] by {
          forall k | 0 <= k < |a[1..]| ensures a[1..][k] != e {
            assert Items(a)[0] != Items(a)[k + 1];
          }
        }
      }
    }
  }

  /** An entry found at two positions occurs at least twice. */
  lemma TwoPositions<E>(b: seq<E>, i: nat, j: nat)
    requires i < j < |b| && b[i] == b[j]
    ensures multiset(b)[b[i]] >= 2
  {
    assert b == b[..j] + b[j..];
    assert b[i] in b[..j] && b[j] in b[j..];
    assert multiset(b) == multiset(b[..j]) + multiset(b[j..]);
  }

  /** Two orders holding the same entries: if one visits no node twice, neither does the
      other. */
  lemma ItemsNoDupPermutation(a: seq<Entry>, b: seq<Entry>)
    requires multiset(a) == multiset(b) && NoDup(Items(a))
    ensures NoDup(Items(b))
  {
    forall i, j | 0 <= i < j < |b| ensures Items(b)[i] != Items(b)[j] {
      if b[i] == b[j] {
        NoDupItemsOnce(a, b[i]);
        TwoPositions(b, i, j);
        assert false;
      } else {
        assert b[i] in multiset(a) && b[j] in multiset(a);
        var k :| 0 <= k < |a| && a[k] == b[i];
        var m :| 0 <= m < |a| && a[m] == b[j];
        assert Items(a)[k] == b[i].item && Items(a)[m] == b[j].item;
      }
    }
  }

  /** Under the invariant the breadth-first order below `id` visits no node twice. */
  lemma BfsNoDup<T>(s: Store<T>, id: NodeId)
    requires Valid(s) && id in s.nodes
    ensures NoDup(Items(BfsOrder(s, id)))
  {
    DfsPermutesBfs(s, id);
    DfsNoDup(s, id, 0);
    ItemsNoDupPermutation(Dfs(s, id, 0), BfsOrder(s, id));
  }
}
