/** Tree values: what a reference to a tree node denotes once every pointer has
    been followed, and what it means to be a red-black search tree. */
module Trees {
  import opened Keys

  type Val = string

  /** Where a node lives: created by the tree delta under construction, or in
      the after image of the intention at position `ipos`, as node `off`. */
  datatype Where = Fresh | At(ipos: nat, off: nat)

  datatype Tree =
    | Nil
    | Node(where: Where, red: bool, key: Key, val: Val, left: Tree, right: Tree)

  datatype Side = L | R

  type Pair = (Key, Val)

  // Addresses hold offsets in 16 bits.
  const OFFSETS := 65536

  type Offset = off: nat | off < OFFSETS

  function Short(off: nat): Offset {
    off % OFFSETS
  }

  function Opposite(s: Side): Side {
    if s.L? then R else L
  }

  function Child(t: Tree, s: Side): Tree
    requires t.Node?
  {
    if s.L? then t.left else t.right
  }

  /** A fresh node with `a` on side `s` and `b` on the other one. */
  function Join(s: Side, red: bool, key: Key, val: Val, a: Tree, b: Tree): Tree {
    if s.L? then Node(Fresh, red, key, val, a, b) else Node(Fresh, red, key, val, b, a)
  }

  predicate IsRed(t: Tree) {
    t.Node? && t.red
  }

  /** Copy on demand: the writable version of a node. */
  function Own(t: Tree): Tree {
    if t.Nil? then Nil else t.(where := Fresh)
  }

  function Blacken(t: Tree): Tree {
    if t.Nil? then Nil else t.(red := false)
  }

  function Redden(t: Tree): Tree {
    if t.Nil? then Nil else t.(red := true)
  }

  /** The key/value pairs in order. */
  function Flat(t: Tree): seq<Pair> {
    match t
    case Nil => []
    case Node(_, _, k, v, l, r) => Flat(l) + [(k, v)] + Flat(r)
  }

  ghost predicate Sorted(s: seq<Pair>) {
    forall i, j :: 0 <= i < j < |s| ==> Less(s[i].0, s[j].0)
  }

  ghost predicate AllBelow(s: seq<Pair>, k: Key) {
    forall i :: 0 <= i < |s| ==> Less(s[i].0, k)
  }

  ghost predicate AllAbove(k: Key, s: seq<Pair>) {
    forall i :: 0 <= i < |s| ==> Less(k, s[i].0)
  }

  ghost predicate Ordered(t: Tree) {
    Sorted(Flat(t))
  }

  /** The key-value map a sequence of pairs stands for; later pairs win. */
  function MapOf(s: seq<Pair>): map<Key, Val> {
    if s == [] then map[] else MapOf(s[..|s| - 1])[s[|s| - 1].0 := s[|s| - 1].1]
  }

  function Contents(t: Tree): map<Key, Val> {
    MapOf(Flat(t))
  }

  /** No red node has a red child and every path down has `h` black nodes. */
  predicate RB(t: Tree, h: nat) {
    match t
    case Nil => h == 0
    case Node(_, red, _, _, l, r) =>
      if red then !IsRed(l) && !IsRed(r) && RB(l, h) && RB(r, h)
      else h > 0 && RB(l, h - 1) && RB(r, h - 1)
  }

  function BlackHeight(t: Tree): nat {
    match t
    case Nil => 0
    case Node(_, red, _, _, l, _) => BlackHeight(l) + if red then 0 else 1
  }

  /** A red-black search tree with a black root. */
  ghost predicate ValidTree(t: Tree) {
    Ordered(t) && !IsRed(t) && RB(t, BlackHeight(t))
  }

  /** Every node is already in some after image. */
  predicate Old(t: Tree) {
    t.Node? ==> t.where.At? && Old(t.left) && Old(t.right)
  }

  /** Fresh nodes are closed under taking parents. */
  predicate Layered(t: Tree) {
    match t
    case Nil => true
    case Node(w, _, _, _, l, r) => if w.Fresh? then Layered(l) && Layered(r) else Old(l) && Old(r)
  }

  /** The same keys, values, colours and shape, wherever the nodes live. */
  predicate SameShape(t: Tree, u: Tree) {
    match (t, u)
    case (Nil, Nil) => true
    case (Node(_, c, k, v, l, r), Node(_, d, j, w, m, s)) =>
      c == d && k == j && v == w && SameShape(l, m) && SameShape(r, s)
    case _ => false
  }
}
