/** Tree nodes in memory: linked objects, relinked and recoloured in place. The
    sentinel Node::Nil() of the source is `null` here: black, and of no tree. */
module Nodes {
  import opened Basics
  import opened Keys
  import opened Trees

  /** The physical address of a node: an offset in an after image, which is named
      by its own position or by that of the intention that it belongs to. */
  datatype NodeAddress = NodeAddress(position: nat, offset: Offset, isAfterImage: bool)

  datatype NodePtr = NodePtr(ref: Node?, address: Option<NodeAddress>)

  const NIL_PTR := NodePtr(null, None)

  /** What a node object holds. */
  datatype Cell = Cell(left: NodePtr, right: NodePtr, key: Key, val: Val, red: bool, rid: int, readOnly: bool)
  {
    function Ptr(s: Side): NodePtr {
      if s.L? then left else right
    }

    function SetPtr(s: Side, p: NodePtr): Cell {
      if s.L? then this.(left := p) else this.(right := p)
    }

    function SetRef(s: Side, c: Node?): Cell {
      SetPtr(s, Ptr(s).(ref := c))
    }
  }

  /** The contents of a set of node objects. */
  type Memory = map<Node, Cell>

  class Node {
    var left: NodePtr
    var right: NodePtr
    var key: Key
    var val: Val
    var red: bool
    var rid: int
    var readOnly: bool

    constructor (c: Cell)
      ensures Holds(c)
    {
      left, right, key, val, red, rid, readOnly := c.left, c.right, c.key, c.val, c.red, c.rid, c.readOnly;
    }

    ghost predicate Holds(c: Cell)
      reads this
    {
      && left == c.left && right == c.right && key == c.key && val == c.val
      && red == c.red && rid == c.rid && readOnly == c.readOnly
    }

    function Ptr(s: Side): NodePtr
      reads this
    {
      if s.L? then left else right
    }

    method SetPtr(s: Side, p: NodePtr)
      modifies this`left, this`right
      ensures Ptr(s) == p && Ptr(Opposite(s)) == old(Ptr(Opposite(s)))
    {
      if s.L? { left := p; } else { right := p; }
    }

    /** Redirects a child pointer; its address stays what it was. */
    method SetRef(s: Side, ref: Node?)
      modifies this`left, this`right
      ensures Ptr(s) == old(Ptr(s)).(ref := ref) && Ptr(Opposite(s)) == old(Ptr(Opposite(s)))
    {
      SetPtr(s, Ptr(s).(ref := ref));
    }
  }

  predicate NodeIsRed(n: Node?)
    reads n
  {
    n != null && n.red
  }
}
