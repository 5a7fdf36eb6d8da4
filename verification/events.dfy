/** Event records pushed onto the tree's shared channels. Nodes are named by arena handles. */
module Events {

  /** Handle of a node in the arena; stands for the source's object identity. */
  type NodeId = nat

  /** Child-structure change events (`ChildChangeEvent`): a subtree came into existence, a child
      was inserted, or a child was removed. Every variant names the node whose list changed. */
  datatype ChildChange =
    | Initialized(node: NodeId, children: seq<NodeId>)
    | Added(node: NodeId, index: nat, addedNode: NodeId, children: seq<NodeId>)
    | Removed(node: NodeId, removedNode: NodeId, children: seq<NodeId>, oldIndex: nat, oldChildren: seq<NodeId>)

  /** A write to a node's payload, with the value it replaced. */
  datatype Update<T> = Update(data: T, previous: T, node: NodeId)

  /** A write to a node's selection flag. */
  datatype SelectionChange = SelectionChange(selected: bool, node: NodeId)

  /** A write to a node's visibility flag. */
  datatype VisibilityChange = VisibilityChange(visible: bool, node: NodeId)
}
