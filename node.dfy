/** The `Node` struct: one tree node as the program holds it in memory. */
module NodeRecord {
  import opened Primitives

  /** `offset` is the node's start position in the file, i.e. its identity; the
      two child offsets are file positions of other nodes, 0 meaning "no child".
      The datatype constructor is the four-argument constructor: it sets every field. */
  datatype Node = Node(value: int32, offset: int64, leftOffset: int64, rightOffset: int64)

  /** A node with no children. */
  predicate IsLeaf(n: Node) {
    n.leftOffset == 0 && n.rightOffset == 0
  }

  /** The three-argument constructor: `Offset` is left at its default, 0, until the tree
      assigns the node an address. */
  function NewNode(value: int32, leftOffset: int64, rightOffset: int64): (n: Node)
    ensures n.offset == 0
    ensures n.value == value && n.leftOffset == leftOffset && n.rightOffset == rightOffset
  {
    Node(value, 0, leftOffset, rightOffset)
  }

  /** `Node.Create`: a fresh, unaddressed leaf carrying `value`. */
  function Create(value: int32): (n: Node)
    ensures IsLeaf(n) && n.value == value && n.offset == 0
  {
    NewNode(value, 0, 0)
  }

  /** A node is a leaf exactly when it is a created node that has since been given an address. */
  lemma LeafIsCreated(n: Node)
    ensures IsLeaf(n) <==> n == Create(n.value).(offset := n.offset)
  {
  }
}
