/** Giving the nodes of a delta their addresses, in memory: what other trees see
    of a tree before and after. */
module Infection {
  import opened Basics
  import opened Keys
  import opened Trees
  import opened TreeOps
  import opened TreeProofs
  import opened Nodes
  import opened Shapes
  import opened Deltas
  import opened Relinks

  /** No node has this rid: whoever looks through it sees addresses only. */
  ghost predicate Outside(m: Memory, rid: int) {
    forall o | o in m :: m[o].rid != rid
  }

  /** A pointer to an own node gets the address (i, off). */
  function Addressed(m: Memory, p: NodePtr, rid: int, i: nat, off: int): NodePtr {
    if p.ref != null && p.ref in m && m[p.ref].rid == rid && 0 <= off
    then NodePtr(p.ref, Some(NodeAddress(i, Short(off), false)))
    else p
  }

  /** There is an offset for the pointer if it leads to an own node. */
  predicate OffsetKnown(m: Memory, p: NodePtr, rid: int, off: int) {
    p.ref != null ==> p.ref in m && (m[p.ref].rid == rid ==> off >= 0)
  }

  lemma OffsetStays(m: Memory, n: Memory, p: NodePtr, rid: int, off: int)
    requires n.Keys == m.Keys && (forall o | o in m :: n[o].rid == m[o].rid) && OffsetKnown(m, p, rid, off)
    ensures OffsetKnown(n, p, rid, off)
  {
  }

  function Infected(m: Memory, c: Cell, rid: int, i: nat, leftOff: int, rightOff: int): Cell {
    c.(left := Addressed(m, c.left, rid, i, leftOff), right := Addressed(m, c.right, rid, i, rightOff))
  }

  /** Cells may differ in the addresses of pointers to own nodes only. */
  predicate SamePtr(m: Memory, p: NodePtr, q: NodePtr, rid: int) {
    q.ref == p.ref && (q != p ==> p.ref != null && p.ref in m && m[p.ref].rid == rid)
  }

  predicate SameCell(m: Memory, c: Cell, d: Cell, rid: int) {
    d == c.(left := d.left, right := d.right) && SamePtr(m, c.left, d.left, rid) && SamePtr(m, c.right, d.right, rid)
  }

  ghost predicate Readdressed(m: Memory, n: Memory, rid: int) {
    n.Keys == m.Keys && forall o | o in m :: SameCell(m, m[o], n[o], rid)
  }

  /** The tree does not depend on the addresses of its own nodes. */
  lemma {:induction false} ViewReaddressed(m: Memory, n: Memory, p: NodePtr, q: NodePtr, t: Shape, e: Env)
    requires Readdressed(m, n, e.rid) && SamePtr(m, p, q, e.rid)
    ensures View(n, q, t, e) == View(m, p, t, e)
    decreases t
  {
    if t.SNode? && t.obj in m {
      assert SameCell(m, m[t.obj], n[t.obj], e.rid);
      ViewReaddressed(m, n, m[t.obj].left, n[t.obj].left, t.left, e);
      ViewReaddressed(m, n, m[t.obj].right, n[t.obj].right, t.right, e);
    }
  }

  lemma ReaddressedTwice(m: Memory, n: Memory, k: Memory, rid: int)
    requires Readdressed(m, n, rid) && Readdressed(n, k, rid)
    ensures Readdressed(m, k, rid)
  {
    forall o | o in m ensures SameCell(m, m[o], k[o], rid) {
      assert SameCell(m, m[o], n[o], rid) && SameCell(n, n[o], k[o], rid);
    }
  }

  /** A tree without own nodes looks the same to everyone. */
  lemma {:induction false} ViewOutside(m: Memory, p: NodePtr, t: Shape, e: Env, f: Env)
    requires View(m, p, t, e).Some? && Old(View(m, p, t, e).value)
    requires f.primary == e.primary && Outside(m, f.rid)
    ensures View(m, p, t, f) == View(m, p, t, e)
    decreases t
  {
    if t.SNode? {
      ViewOutside(m, m[t.obj].left, t.left, e, f);
      ViewOutside(m, m[t.obj].right, t.right, e, f);
    }
  }

  /** The node is infected after both of its subtrees: m1 is the memory after the
      left one, m2 after the right one. */
  lemma InfectNode(m: Memory, m1: Memory, m2: Memory, t: Shape, i: nat, l: Tree, a: nat, r: Tree, b: nat, e: Env, f: Env)
    requires t.SNode? && t.obj in m2 && e.rid == i && f.primary == e.primary && Outside(m2, f.rid)
    requires t.obj in m && m2[t.obj] == m[t.obj] && b < OFFSETS
    requires t.obj !in Objs(t.left) && t.obj !in Objs(t.right) && Objs(t.left) !! Objs(t.right)
    requires Same(m1, m2, Objs(t.left)) && m2.Keys == m.Keys == m1.Keys
    requires forall o | o in m :: m2[o].rid == m[o].rid
    requires View(m1, Addressed(m, m[t.obj].left, i, i, a - 1), t.left, f) == Some(l)
    requires View(m2, Addressed(m, m[t.obj].right, i, i, b - 1), t.right, f) == Some(r)
    requires m[t.obj].rid == i
    ensures var n := m2[t.obj := Infected(m2, m2[t.obj], i, i, a - 1, b - 1)];
            View(n, NodePtr(t.obj, Some(NodeAddress(i, b, false))), t, f) ==
            Some(Trees.Node(At(i, b), m[t.obj].red, m[t.obj].key, m[t.obj].val, l, r))
  {
    hide View, Addressed, Objs;
    AddressedSame(m, m2, m[t.obj].left, i, i, a - 1);
    AddressedSame(m, m2, m[t.obj].right, i, i, b - 1);
    var c := Infected(m2, m2[t.obj], i, i, a - 1, b - 1);
    var n := m2[t.obj := c];
    assert c.left == Addressed(m, m[t.obj].left, i, i, a - 1) && c.right == Addressed(m, m[t.obj].right, i, i, b - 1);
    ViewFrame(m1, n, c.left, t.left, f);
    ViewFrame(m2, n, c.right, t.right, f);
    ViewMake(n, NodePtr(t.obj, Some(NodeAddress(i, b, false))), t, f);
  }

  lemma InfectedSame(m: Memory, o: Node, rid: int, i: nat, a: int, b: int)
    requires o in m
    ensures Readdressed(m, m[o := Infected(m, m[o], rid, i, a, b)], rid)
  {
  }

  lemma ReaddressedSelf(m: Memory, rid: int)
    ensures Readdressed(m, m, rid)
  {
  }

  lemma EmptyView(m: Memory, p: NodePtr, t: Shape, e: Env)
    requires p.ref == null && t.SNil?
    ensures View(m, p, t, e) == Some(Nil)
  {
  }

  lemma OutsideKept(m: Memory, n: Memory, rid: int, other: int)
    requires Readdressed(m, n, rid) && Outside(m, other)
    ensures Outside(n, other) && n.Keys == m.Keys && forall o | o in m :: n[o].rid == m[o].rid
  {
    forall o | o in m ensures n[o].rid == m[o].rid {
      assert SameCell(m, m[o], n[o], rid);
    }
  }

  /** What is known about a node between its subtrees and itself. */
  lemma TopFacts(m: Memory, m1: Memory, m2: Memory, ptr: NodePtr, t: Shape, a: Tree, i: nat, idx: nat, e: Env)
    requires t.SNode? && View(m, ptr, t, e) == Some(a) && a.Node? && a.where.Fresh?
    requires Readdressed(m, m1, e.rid) && Readdressed(m1, m2, e.rid)
    requires KeptOutside(m, m1, Objs(t.left)) && KeptOutside(m1, m2, Objs(t.right))
    ensures t.obj in m && m2.Keys == m1.Keys == m.Keys && m2[t.obj] == m[t.obj] && m[t.obj].rid == e.rid
    ensures ptr.ref == t.obj && t.obj in Objs(t)
    ensures t.obj !in Objs(t.left) && t.obj !in Objs(t.right) && Objs(t.left) !! Objs(t.right)
    ensures Same(m1, m2, Objs(t.left)) && forall o | o in m :: m1[o].rid == m[o].rid && m2[o].rid == m[o].rid
    ensures var l := Place(a.left, i, idx).1;
      && (m[t.obj].left.ref != null ==> m[t.obj].left.ref in m && (m[m[t.obj].left.ref].rid == e.rid ==> l >= 1))
      && (m[t.obj].right.ref != null ==> m[t.obj].right.ref in m && (m[m[t.obj].right.ref].rid == e.rid ==> Place(a.right, i, l).1 >= 1))
    ensures Place(a, i, idx).0 ==
      Trees.Node(At(i, Place(a.right, i, Place(a.left, i, idx).1).1), m[t.obj].red, m[t.obj].key, m[t.obj].val,
                 Place(a.left, i, idx).0, Place(a.right, i, Place(a.left, i, idx).1).0)
  {
    hide View;
    ViewCell(m, ptr, t, e);
    ViewNode(m, ptr, t, e);
    ViewKid(m, ptr, t, L, e);
    ViewKid(m, ptr, t, R, e);
    ViewNode(m, m[t.obj].left, t.left, e);
    ViewNode(m, m[t.obj].right, t.right, e);
    if t.left.SNode? { ViewCell(m, m[t.obj].left, t.left, e); }
    if t.right.SNode? { ViewCell(m, m[t.obj].right, t.right, e); }
    PlaceFacts(a.left, i, idx);
    PlaceFacts(a.right, i, Place(a.left, i, idx).1);
    forall o | o in m ensures m1[o].rid == m[o].rid && m2[o].rid == m[o].rid {
      assert SameCell(m, m[o], m1[o], e.rid) && SameCell(m1, m1[o], m2[o], e.rid);
    }
  }

  /** Only objects of `s` may have changed. */
  ghost predicate KeptOutside(m: Memory, n: Memory, s: set<Node>) {
    forall o | o in n && o !in s :: o in m && n[o] == m[o]
  }

  lemma KeptSelf(m: Memory, s: set<Node>)
    ensures KeptOutside(m, m, s)
  {
  }

  lemma KeptTwice(m: Memory, m1: Memory, m2: Memory, n: Memory, t: Shape)
    requires t.SNode? && KeptOutside(m, m1, Objs(t.left)) && KeptOutside(m1, m2, Objs(t.right))
    requires t.obj in n && t.obj in m2 && n == m2[t.obj := n[t.obj]]
    ensures KeptOutside(m, n, Objs(t))
  {
  }

  /** The right subtree and the node are as they were. */
  lemma KeptSame(m: Memory, n: Memory, t: Shape)
    requires t.SNode? && KeptOutside(m, n, Objs(t.left)) && n.Keys == m.Keys && t.obj in m
    requires t.obj !in Objs(t.left) && Objs(t.left) !! Objs(t.right)
    ensures Same(m, n, Objs(t.right)) && n[t.obj] == m[t.obj]
  {
  }

  /** Infection does not change who is who. */
  lemma AddressedSame(m: Memory, n: Memory, p: NodePtr, rid: int, i: nat, off: int)
    requires n.Keys == m.Keys && forall o | o in m :: n[o].rid == m[o].rid
    ensures Addressed(n, p, rid, i, off) == Addressed(m, p, rid, i, off)
  {
  }

  lemma InfectedTop(m: Memory, m1: Memory, m2: Memory, ptr: NodePtr, t: Shape, a: Tree, i: nat, idx: nat, l: nat, r: nat,
                    e: Env, f: Env)
    requires t.SNode? && View(m, ptr, t, e) == Some(a) && a.Node? && a.where.Fresh? && t.obj in m2
    requires Readdressed(m, m1, e.rid) && Readdressed(m1, m2, e.rid)
    requires KeptOutside(m, m1, Objs(t.left)) && KeptOutside(m1, m2, Objs(t.right))
    requires e.rid == i && f.primary == e.primary && Outside(m2, f.rid) && r < OFFSETS && t.obj in m
    requires l == Place(a.left, i, idx).1 && r == Place(a.right, i, l).1
    requires View(m1, Addressed(m1, m[t.obj].left, i, i, l - 1), t.left, f) == Some(Place(a.left, i, idx).0)
    requires View(m2, Addressed(m2, m[t.obj].right, i, i, r - 1), t.right, f) == Some(Place(a.right, i, l).0)
    ensures var n := m2[t.obj := Infected(m2, m2[t.obj], i, i, l - 1, r - 1)];
      && Readdressed(m, n, i) && KeptOutside(m, n, Objs(t))
      && View(n, Addressed(n, ptr, i, i, r), t, f) == Some(Place(a, i, idx).0)
  {
    hide View, Readdressed, KeptOutside, Outside, Place, Infected, Same, Objs, Denoted;
    var n := m2[t.obj := Infected(m2, m2[t.obj], i, i, l - 1, r - 1)];
    TopFacts(m, m1, m2, ptr, t, a, i, idx, e);
    AddressedSame(m, m1, m[t.obj].left, i, i, l - 1);
    AddressedSame(m, m2, m[t.obj].right, i, i, r - 1);
    ReaddressedTwice(m, m1, m2, i);
    InfectedSame(m2, t.obj, i, i, l - 1, r - 1);
    ReaddressedTwice(m, m2, n, i);
    InfectNode(m, m1, m2, t, i, Place(a.left, i, idx).0, l, Place(a.right, i, l).0, r, e, f);
    KeptTwice(m, m1, m2, n, t);
    InfectedRid(m2, t.obj, i, l - 1, r - 1);
    TopAddress(n, ptr, t, i, r);
  }

  lemma InfectedRid(m: Memory, o: Node, i: nat, a: int, b: int)
    requires o in m
    ensures Infected(m, m[o], i, i, a, b).rid == m[o].rid
  {
  }

  lemma TopAddress(n: Memory, ptr: NodePtr, t: Shape, i: nat, r: nat)
    requires t.SNode? && ptr.ref == t.obj && t.obj in n && n[t.obj].rid == i && r < OFFSETS
    ensures Addressed(n, ptr, i, i, r) == NodePtr(t.obj, Some(NodeAddress(i, r, false)))
  {
  }

  /** A pointer without an address leads to an own node or nowhere. */
  lemma RootFresh(m: Memory, p: NodePtr, t: Shape, e: Env)
    requires View(m, p, t, e).Some? && p.address.None? && p.ref != null
    ensures t.SNode? && p.ref == t.obj && t.obj in m && m[t.obj].rid == e.rid
    ensures View(m, p, t, e).value.Node? && View(m, p, t, e).value.where.Fresh?
  {
  }

  lemma FreshCounts(a: Tree)
    ensures a.Node? && a.where.Fresh? ==> FreshCount(a) > 0
  {
  }

  /** What is known of both subtrees of an own node before they are infected. */
  lemma BelowNode(m: Memory, ptr: NodePtr, t: Shape, a: Tree, i: nat, idx: nat, e: Env)
    requires t.SNode? && View(m, ptr, t, e) == Some(a) && Layered(a) && t.obj in m && m[t.obj].rid == e.rid
    requires idx + FreshCount(a) <= OFFSETS
    ensures a.Node? && a.where.Fresh? && Layered(a.left) && Layered(a.right)
    ensures View(m, m[t.obj].left, t.left, e) == Some(a.left) && m[t.obj].left.ref == Obj(t.left)
    ensures View(m, m[t.obj].right, t.right, e) == Some(a.right) && m[t.obj].right.ref == Obj(t.right)
    ensures t.obj !in Objs(t.left) && Objs(t.left) !! Objs(t.right)
    ensures Place(a.left, i, idx).1 + FreshCount(a.right) < OFFSETS && idx + FreshCount(a.left) <= OFFSETS
    ensures Place(a.right, i, Place(a.left, i, idx).1).1 < OFFSETS
    ensures Place(a, i, idx).1 == Place(a.right, i, Place(a.left, i, idx).1).1 + 1
  {
    hide View;
    ViewCell(m, ptr, t, e);
    ViewKid(m, ptr, t, L, e);
    ViewKid(m, ptr, t, R, e);
    ViewNode(m, m[t.obj].left, t.left, e);
    ViewNode(m, m[t.obj].right, t.right, e);
    PlaceFacts(a.left, i, idx);
    PlaceFacts(a.right, i, Place(a.left, i, idx).1);
  }

  lemma PlaceShared(a: Tree, i: nat, idx: nat)
    ensures a.Nil? || a.where.At? ==> Place(a, i, idx) == (a, idx)
  {
  }
}
