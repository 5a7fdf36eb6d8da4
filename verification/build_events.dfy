/** The order of the events a build pushes: update events in pre-order, which is handle order,
    and `INITIALIZED` events in post-order, every node after its children. */
module BuildEvents {
  import opened Events
  import opened NodeProps
  import opened Construction

  /** One update per handle of `[base, base + n)`, in handle order, each reporting the payload
      as both the new and the previous value. */
  ghost predicate UpdatesInHandleOrder<T>(us: seq<Update<T>>, base: nat, n: nat) {
    && |us| == n
    && forall i | 0 <= i < |us| :: us[i].node == base + i && us[i].data == us[i].previous
  }

  lemma {:induction false} UpdatesOrder<T>(p: NodeProp<T>, base: nat)
    ensures UpdatesInHandleOrder(UpdatesOf(p, base), base, PropSize(p))
    decreases p, 1
  {
    match p.children
    case Absent =>
    case Present(list) =>
      UpdatesAllOrder(list, base + 1);
  }

  lemma {:induction false} UpdatesAllOrder<T>(ps: seq<NodeProp<T>>, base: nat)
    ensures UpdatesInHandleOrder(UpdatesAll(ps, base), base, PropsSize(ps))
    decreases ps, 0
  {
    if ps != [] {
      UpdatesOrder(ps[0], base);
      UpdatesAllOrder(ps[1..], base + PropSize(ps[0]));
      UpdatesJoin(UpdatesOf(ps[0], base), UpdatesAll(ps[1..], base + PropSize(ps[0])), base, PropSize(ps[0]), PropsSize(ps[1..]));
    }
  }

  lemma UpdatesJoin<T>(a: seq<Update<T>>, b: seq<Update<T>>, base: nat, m: nat, n: nat)
    requires UpdatesInHandleOrder(a, base, m) && UpdatesInHandleOrder(b, base + m, n)
    ensures UpdatesInHandleOrder(a + b, base, m + n)
  {
    assert forall i | m <= i < m + n :: (a + b)[i] == b[i - m];
  }

  /** Child-change events that are all `INITIALIZED`, each naming a node of `[lo, hi)` and
      children above that node and below `hi`. */
  ghost predicate InitsWithin(es: seq<ChildChange>, lo: nat, hi: nat) {
    forall i | 0 <= i < |es| ::
      && es[i].Initialized? && lo <= es[i].node < hi
      && forall m | 0 <= m < |es[i].children| :: es[i].node < es[i].children[m] < hi
  }

  /** No node is initialised twice. */
  ghost predicate DistinctNodes(es: seq<ChildChange>) {
    forall i, j | 0 <= i < j < |es| :: es[i].node != es[j].node
  }

  /** Post-order: a node's event comes after the event of every child it lists. */
  ghost predicate ChildrenFirst(es: seq<ChildChange>) {
    forall i, j | 0 <= i < |es| && 0 <= j < |es| && es[j].node in es[i].children :: j < i
  }

  /** All three properties of a build's `INITIALIZED` events over the handles `[lo, hi)`. */
  ghost predicate PostOrder(es: seq<ChildChange>, lo: nat, hi: nat) {
    InitsWithin(es, lo, hi) && DistinctNodes(es) && ChildrenFirst(es)
  }

  /** Two post-ordered runs over adjacent handle ranges form one. */
  lemma PostOrderJoin(a: seq<ChildChange>, b: seq<ChildChange>, lo: nat, mid: nat, hi: nat)
    requires lo <= mid <= hi
    requires PostOrder(a, lo, mid) && PostOrder(b, mid, hi)
    ensures PostOrder(a + b, lo, hi)
  {
    var es := a + b;
    assert forall i | 0 <= i < |a| :: es[i] == a[i];
    assert forall i | |a| <= i < |es| :: es[i] == b[i - |a|];
    forall i, j | 0 <= i < |es| && 0 <= j < |es| && es[j].node in es[i].children ensures j < i {
      var m :| 0 <= m < |es[i].children| && es[i].children[m] == es[j].node;
      if i < |a| && j < |a| {
        assert a[j].node in a[i].children;
      } else if i >= |a| && j >= |a| {
        assert b[j - |a|].node in b[i - |a|].children;
      }
    }
  }

  /** A post-ordered run over the handles above `lo`, followed by the event of `lo` itself. */
  lemma PostOrderSnoc(a: seq<ChildChange>, kids: seq<NodeId>, lo: nat, hi: nat)
    requires lo < hi && PostOrder(a, lo + 1, hi)
    requires forall m | 0 <= m < |kids| :: lo < kids[m] < hi
    ensures PostOrder(a + [Initialized(lo, kids)], lo, hi)
  {
    var es := a + [Initialized(lo, kids)];
    assert forall i | 0 <= i < |a| :: es[i] == a[i];
    forall i, j | 0 <= i < |es| && 0 <= j < |es| && es[j].node in es[i].children ensures j < i {
      var m :| 0 <= m < |es[i].children| && es[i].children[m] == es[j].node;
      if i < |a| && j < |a| {
        assert a[j].node in a[i].children;
      }
    }
  }

  /** The `INITIALIZED` events of a build: one per node of its handle range, children before
      parents, the last one being the blueprint's own node with its children's handles. */
  lemma {:induction false} InitsOrder<T>(p: NodeProp<T>, base: nat)
    ensures |InitsOf(p, base)| == PropSize(p)
    ensures PostOrder(InitsOf(p, base), base, base + PropSize(p))
    ensures InitsOf(p, base)[|InitsOf(p, base)| - 1] == Initialized(base, ChildIds(Specs(p), base + 1))
    decreases p, 1
  {
    match p.children
    case Absent =>
    case Present(list) =>
      InitsAllOrder(list, base + 1);
      PostOrderSnoc(InitsAll(list, base + 1), ChildIds(list, base + 1), base, base + PropSize(p));
  }

  lemma {:induction false} InitsAllOrder<T>(ps: seq<NodeProp<T>>, base: nat)
    ensures |InitsAll(ps, base)| == PropsSize(ps)
    ensures PostOrder(InitsAll(ps, base), base, base + PropsSize(ps))
    decreases ps, 0
  {
    if ps != [] {
      var mid := base + PropSize(ps[0]);
      InitsOrder(ps[0], base);
      InitsAllOrder(ps[1..], mid);
      PostOrderJoin(InitsOf(ps[0], base), InitsAll(ps[1..], mid), base, mid, base + PropsSize(ps));
    }
  }
}
