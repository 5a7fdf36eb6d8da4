/** Blueprints (`NodeProp<T>`): the ownership-free description a node is built from. */
module NodeProps {

  /** The optional `children` field of a blueprint: left out, or given as a (possibly empty) list. */
  datatype ChildSpecs<T> = Absent | Present(list: seq<NodeProp<T>>)

  /** A payload plus optional nested blueprints. */
  datatype NodeProp<T> = NodeProp(data: T, children: ChildSpecs<T>)

  /** The child blueprints a constructor iterates over: an absent list counts as empty. */
  function Specs<T>(p: NodeProp<T>): (ps: seq<NodeProp<T>>)
    ensures p.children.Absent? ==> ps == []
    ensures p.children.Present? ==> ps == p.children.list
  {
    match p.children
    case Absent => []
    case Present(list) => list
  }

  /** Number of nodes a blueprint describes. */
  function PropSize<T>(p: NodeProp<T>): (n: nat)
    ensures n >= 1
    decreases p, 1
  {
    match p.children
    case Absent => 1
    case Present(list) => 1 + PropsSize(list)
  }

  /** Number of nodes a list of blueprints describes. */
  function PropsSize<T>(ps: seq<NodeProp<T>>): (n: nat)
    ensures n >= |ps|
    decreases ps, 0
  {
    if ps == [] then 0 else PropSize(ps[0]) + PropsSize(ps[1..])
  }

  /** Height of a blueprint counted in nodes: 1 for a leaf, otherwise 1 + the tallest child. */
  function PropHeight<T>(p: NodeProp<T>): (h: nat)
    ensures h >= 1
    decreases p, 1
  {
    match p.children
    case Absent => 1
    case Present(list) => 1 + PropsHeight(list)
  }

  /** Height of the tallest blueprint in a list, 0 for an empty list. */
  function PropsHeight<T>(ps: seq<NodeProp<T>>): (h: nat)
    ensures forall i | 0 <= i < |ps| :: PropHeight(ps[i]) <= h
    ensures ps == [] <==> h == 0
    decreases ps, 0
  {
    if ps == [] then 0
    else
      var rest := PropsHeight(ps[1..]);
      var h0 := PropHeight(ps[0]);
      assert forall i | 1 <= i < |ps| :: PropHeight(ps[i]) == PropHeight(ps[1..][i - 1]);
      if h0 >= rest then h0 else rest
  }

  /** A non-empty list's height is the height of one of its blueprints. */
  lemma {:induction false} PropsHeightAttained<T>(ps: seq<NodeProp<T>>)
    requires ps != []
    ensures exists i | 0 <= i < |ps| :: PropHeight(ps[i]) == PropsHeight(ps)
  {
    if ps[1..] != [] && PropHeight(ps[0]) < PropsHeight(ps[1..]) {
      PropsHeightAttained(ps[1..]);
      var i :| 0 <= i < |ps[1..]| && PropHeight(ps[1..][i]) == PropsHeight(ps[1..]);
      assert PropHeight(ps[i + 1]) == PropsHeight(ps);
    } else {
      assert PropHeight(ps[0]) == PropsHeight(ps);
    }
  }

  /** The blueprint with every absent children list replaced by an empty one: the shape a
      node's `prop` getter reports, since a live node always has a children array. */
  function Normalize<T>(p: NodeProp<T>): (r: NodeProp<T>)
    ensures r.data == p.data && r.children.Present?
    ensures |r.children.list| == |Specs(p)|
    decreases p, 1
  {
    match p.children
    case Absent => NodeProp(p.data, Present([]))
    case Present(list) => NodeProp(p.data, Present(NormalizeAll(list)))
  }

  /** `Normalize` applied to each blueprint of a list. */
  function NormalizeAll<T>(ps: seq<NodeProp<T>>): (rs: seq<NodeProp<T>>)
    ensures |rs| == |ps|
    ensures forall i | 0 <= i < |ps| :: rs[i].data == ps[i].data && rs[i].children.Present?
    decreases ps, 0
  {
    if ps == [] then [] else [Normalize(ps[0])] + NormalizeAll(ps[1..])
  }

  /** Every children list, at every depth, is present. */
  ghost predicate Normalized<T>(p: NodeProp<T>)
    decreases p, 1
  {
    match p.children
    case Absent => false
    case Present(list) => AllNormalized(list)
  }

  ghost predicate AllNormalized<T>(ps: seq<NodeProp<T>>)
    decreases ps, 0
  {
    ps == [] || (Normalized(ps[0]) && AllNormalized(ps[1..]))
  }

  /** Normalising yields a normalised blueprint and leaves a normalised one unchanged, so it is
      idempotent; it preserves size and height. */
  lemma {:induction false} NormalizeSpec<T>(p: NodeProp<T>)
    ensures Normalized(Normalize(p))
    ensures Normalized(p) ==> Normalize(p) == p
    ensures PropSize(Normalize(p)) == PropSize(p)
    ensures PropHeight(Normalize(p)) == PropHeight(p)
    decreases p, 1
  {
    match p.children
    case Absent =>
    case Present(list) => NormalizeAllSpec(list);
  }

  lemma {:induction false} NormalizeAllSpec<T>(ps: seq<NodeProp<T>>)
    ensures AllNormalized(NormalizeAll(ps))
    ensures AllNormalized(ps) ==> NormalizeAll(ps) == ps
    ensures PropsSize(NormalizeAll(ps)) == PropsSize(ps)
    ensures PropsHeight(NormalizeAll(ps)) == PropsHeight(ps)
    decreases ps, 0
  {
    if ps != [] {
      NormalizeSpec(ps[0]);
      NormalizeAllSpec(ps[1..]);
      var rs := NormalizeAll(ps);
      assert rs[1..] == NormalizeAll(ps[1..]);
    }
  }
}
