/** Reading a built arena back: the `prop` getter, and what a placed blueprint says about the
    sizes, structural heights and parent/child links of the nodes built from it. */
module Placement {
  import opened Seqs
  import opened Events
  import opened NodeProps
  import opened Arena
  import opened Structure
  import opened Construction

  /** `prop`: the node's payload and, recursively, its children's blueprints. A live node
      always has a children array, so the reported list is never absent. */
  function Prop<T>(s: Store<T>, id: NodeId): (p: NodeProp<T>)
    requires Closed(s) && id in s.nodes
    ensures p.data == s.nodes[id].data && p.children.Present?
    ensures |p.children.list| == |Kids(s, id)|
    decreases s.next - id, 1
  {
    NodeProp(s.nodes[id].data, Present(PropKids(s, id, 0)))
  }

  /** The blueprints of the children of `p` from position `i` on. */
  function PropKids<T>(s: Store<T>, p: NodeId, i: nat): (ps: seq<NodeProp<T>>)
    requires Closed(s) && p in s.nodes && i <= |Kids(s, p)|
    ensures |ps| == |Kids(s, p)| - i
    decreases s.next - p, 0, |Kids(s, p)| - i
  {
    if i == |Kids(s, p)| then []
    else [Prop(s, Kids(s, p)[i])] + PropKids(s, p, i + 1)
  }

  /** A placed node's children are the handles its blueprint's children were built at, and
      those are placed below it (an absent list counts as empty). */
  lemma PlacedKids<T>(r: Store<T>, p: NodeProp<T>, base: NodeId, parent: Parent)
    requires Placed(r, p, base, parent)
    ensures base in r.nodes && r.nodes[base].children == ChildIds(Specs(p), base + 1)
    ensures PlacedAll(r, Specs(p), base + 1, base)
  {
  }

  /** Reading back a placed blueprint: `prop` reproduces it with absent children lists turned
      into empty ones, and the subtree has the blueprint's size and height. */
  lemma {:induction false} PlacedReadBack<T>(r: Store<T>, p: NodeProp<T>, base: NodeId, parent: Parent)
    requires Closed(r) && Placed(r, p, base, parent)
    ensures Prop(r, base) == Normalize(p)
    ensures Size(r, base) == PropSize(p)
    ensures StructHeight(r, base) == PropHeight(p)
    decreases p, 1
  {
    match p.children
    case Absent =>
      assert PropKids(r, base, 0) == [];
    case Present(list) =>
      PlacedAllReadBack(r, list, base + 1, base, 0);
  }

  lemma {:induction false} PlacedAllReadBack<T>(r: Store<T>, ps: seq<NodeProp<T>>, base: NodeId, owner: NodeId, i: nat)
    requires Closed(r) && owner in r.nodes && i <= |Kids(r, owner)|
    requires Kids(r, owner)[i..] == ChildIds(ps, base)
    requires PlacedAll(r, ps, base, owner)
    ensures PropKids(r, owner, i) == NormalizeAll(ps)
    ensures KidsSize(r, owner, i) == PropsSize(ps)
    ensures KidsHeight(r, owner, i) == PropsHeight(ps)
    decreases ps, 0
  {
    var kids := Kids(r, owner);
    if ps != [] {
      var next := base + PropSize(ps[0]);
      assert kids[i] == base && kids[i + 1..] == ChildIds(ps[1..], next) by {
        ListCons(ps, base);
        assert kids[i + 1..] == kids[i..][1..];
      }
      PlacedReadBack(r, ps[0], base, Attached(owner));
      PlacedAllReadBack(r, ps[1..], next, owner, i + 1);
      assert PropsSize(ps) == PropSize(ps[0]) + PropsSize(ps[1..]);
    }
  }

  /** Every handle of a placed range roots a placed sub-blueprint. Apart from the range's own
      root, its parent lies in the range before it and lists it. */
  lemma {:induction false} PlacedCovers<T>(r: Store<T>, p: NodeProp<T>, base: NodeId, parent: Parent, k: NodeId)
    returns (q: NodeProp<T>, par: Parent)
    requires Placed(r, p, base, parent) && base <= k < base + PropSize(p)
    ensures Placed(r, q, k, par)
    ensures k == base ==> par == parent
    ensures k != base ==> par.Attached? && base <= par.id < k && par.id in r.nodes && k in r.nodes[par.id].children
    decreases p, 1
  {
    if k == base {
      return p, parent;
    }
    PlacedKids(r, p, base, parent);
    q, par := PlacedAllCovers(r, Specs(p), base + 1, base, k);
  }

  lemma {:induction false} PlacedAllCovers<T>(r: Store<T>, ps: seq<NodeProp<T>>, base: NodeId, owner: NodeId, k: NodeId)
    returns (q: NodeProp<T>, par: Parent)
    requires PlacedAll(r, ps, base, owner) && base <= k < base + PropsSize(ps)
    ensures Placed(r, q, k, par)
    ensures || (par == Attached(owner) && k in ChildIds(ps, base))
            || (par.Attached? && base <= par.id < k && par.id in r.nodes && k in r.nodes[par.id].children)
    decreases ps, 0
  {
    ListCons(ps, base);
    if k < base + PropSize(ps[0]) {
      q, par := PlacedCovers(r, ps[0], base, Attached(owner), k);
    } else {
      q, par := PlacedAllCovers(r, ps[1..], base + PropSize(ps[0]), owner, k);
    }
  }

  /** The blueprints of a placed list are attached to the list's owner. */
  lemma {:induction false} PlacedAllParents<T>(r: Store<T>, ps: seq<NodeProp<T>>, base: NodeId, owner: NodeId)
    requires PlacedAll(r, ps, base, owner)
    ensures forall i | 0 <= i < |ps| ::
              ChildIds(ps, base)[i] in r.nodes && r.nodes[ChildIds(ps, base)[i]].parent == Attached(owner)
    decreases ps, 0
  {
    if ps != [] {
      PlacedAllParents(r, ps[1..], base + PropSize(ps[0]), owner);
      var ids := ChildIds(ps, base);
      assert forall i | 1 <= i < |ps| :: ids[i] == ChildIds(ps[1..], base + PropSize(ps[0]))[i - 1];
    }
  }

  /** The nodes built from a blueprint are linked among themselves: every listed child points
      back, no child list repeats a node, and every node but the range's root is listed by its
      parent; the range's root has the parent it was built under. */
  lemma BuiltLinked<T>(r: Store<T>, p: NodeProp<T>, base: NodeId, parent: Parent, k: NodeId)
    requires Placed(r, p, base, parent) && base <= k < base + PropSize(p)
    ensures k in r.nodes
    ensures forall i | 0 <= i < |r.nodes[k].children| ::
              r.nodes[k].children[i] in r.nodes && r.nodes[r.nodes[k].children[i]].parent == Attached(k)
    ensures NoDup(r.nodes[k].children)
    ensures k != base && r.nodes[k].parent.Attached? ==>
              r.nodes[k].parent.id in r.nodes && k in r.nodes[r.nodes[k].parent.id].children
    ensures k == base ==> r.nodes[k].parent == parent
  {
    var q, par := PlacedCovers(r, p, base, parent, k);
    PlacedKids(r, q, k, par);
    PlacedAllParents(r, Specs(q), k + 1, k);
  }

  /** Every node built from a blueprint caches its structural height. */
  lemma BuiltHeightExact<T>(r: Store<T>, p: NodeProp<T>, base: NodeId, parent: Parent, k: NodeId)
    requires Closed(r) && Placed(r, p, base, parent) && base <= k < base + PropSize(p)
    ensures k in r.nodes && r.nodes[k].height == StructHeight(r, k)
  {
    var q, par := PlacedCovers(r, p, base, parent, k);
    PlacedReadBack(r, q, k, par);
  }
}
