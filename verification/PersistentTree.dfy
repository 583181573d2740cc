module PersistentTrees {
  import opened Basics
  import opened Keys
  import opened Trees
  import opened Zippers
  import opened TreeOps
  import opened TreeProofs
  import opened Sharing
  import opened Deltas
  import opened Infection
  import opened Serialization
  import opened Nodes
  import opened Shapes
  import opened Relinks

  /** No node is listed twice; the sentinel may be. */
  ghost predicate NoNodeTwice(ns: seq<Node?>) {
    forall j, k :: 0 <= j < k < |ns| && ns[j] != null ==> ns[j] != ns[k]
  }

  /** Who owns what: own nodes have the tree's rid, are writable and are listed as
      fresh, in the company of the sentinel if a removal has emptied the tree. */
  ghost predicate Books(m: Memory, owned: set<Node>, foreign: set<Node>, ns: seq<Node?>, rid: int, others: set<int>, emptied: bool) {
    && m.Keys == owned + foreign && owned !! foreign && rid !in others
    && (forall n | n in m :: if n in owned then m[n].rid == rid else m[n].rid in others)
    && (forall n | n in owned :: !m[n].readOnly && n in ns)
    && (forall n | n in ns :: n == null || n in owned)
    && NoNodeTwice(ns) && (null in ns <==> emptied)
  }

  lemma BooksRebranded(m: Memory, owned: set<Node>, foreign: set<Node>, ns: seq<Node?>, rid: int, others: set<int>,
                       emptied: bool, i: int)
    requires Books(m, owned, foreign, ns, rid, others, emptied) && i !in others
    ensures Books(Rebranded(m, owned, i), owned, foreign, ns, i, others, emptied)
  {
  }

  /** Writing to an own node changes nothing about who owns what. */
  lemma BooksWrite(m: Memory, owned: set<Node>, foreign: set<Node>, ns: seq<Node?>, rid: int, others: set<int>,
                   emptied: bool, n: Node, c: Cell)
    requires Books(m, owned, foreign, ns, rid, others, emptied) && n in owned && n in m
    requires c.rid == m[n].rid && c.readOnly == m[n].readOnly
    ensures Books(m[n := c], owned, foreign, ns, rid, others, emptied)
  {
  }

  class PersistentTree {
    // The snapshot that the tree starts from, and the root of the changed tree,
    // which is absent as long as nothing has changed.
    var srcRoot: NodePtr
    var root: Option<Node?>
    var rid: int

    // All nodes created by this tree; `null` where the sentinel got in.
    var freshNodes: seq<Node?>

    // For every primary after image that is known its intention.
    ghost var primary: map<nat, nat>

    // The nodes of others that this tree may follow pointers to, and their rids.
    ghost const foreign: set<Node>
    ghost const others: set<int>

    // All nodes this tree may follow pointers to, with what they hold now, and
    // those among them that it may write: the nodes with its own rid.
    ghost var memory: Memory
    ghost var owned: set<Node>

    // Whether a removal has left the tree empty, so that `freshNodes` holds the
    // sentinel.
    ghost var emptied: bool

    // The objects of the current tree.
    ghost var shape: Shape

    ghost predicate Synced()
      reads this`rid, this`memory, this`owned, this`freshNodes, this`emptied, memory.Keys
    {
      (forall n | n in memory :: n.Holds(memory[n])) && Books(memory, owned, foreign, freshNodes, rid, others, emptied)
    }

    ghost function E(): Env
      reads this`rid, this`primary
    {
      Env(rid, primary)
    }

    /** The focus and the path above it, as values. */
    ghost function Here(f: Shape, p: Spine): Option<(Tree, Path)>
      reads this`rid, this`primary, this`memory, this`owned, this`freshNodes, this`emptied, memory.Keys
    {
      if Synced() then See(memory, f, p, E()) else None
    }

    /** Own nodes are those with the tree's rid. */
    lemma OwnedByRid()
      requires Synced()
      ensures forall n | n in memory :: if n in owned then memory[n].rid == rid else memory[n].rid in others
      ensures memory.Keys == owned + foreign && owned !! foreign && rid !in others
    {
    }

    /** What an object holds is what `memory` says. */
    lemma Holding(n: Node)
      requires Synced() && (n in memory || n in owned)
      ensures n in memory && n.Holds(memory[n]) && (n in owned <==> n.rid == rid)
    {
    }

    /** What becomes of the books with a write. */
    lemma Writing(n: Node)
      requires Synced() && n in owned
      ensures n in memory && n.Holds(memory[n])
      ensures forall c: Cell :: c.rid == memory[n].rid && c.readOnly == memory[n].readOnly ==>
        Books(memory[n := c], owned, foreign, freshNodes, rid, others, emptied)
    {
      forall c: Cell | c.rid == memory[n].rid && c.readOnly == memory[n].readOnly
        ensures Books(memory[n := c], owned, foreign, freshNodes, rid, others, emptied)
      {
        BooksWrite(memory, owned, foreign, freshNodes, rid, others, emptied, n, c);
      }
    }

    // ------------------------------------------------------- single writes

    method SetPtr(n: Node, s: Side, p: NodePtr)
      requires Synced() && n in owned
      modifies this`memory, n
      ensures Synced() && memory == old(memory)[n := old(memory)[n].SetPtr(s, p)]
    {
      hide Books;
      Writing(n);
      n.SetPtr(s, p);
      memory := memory[n := memory[n].SetPtr(s, p)];
    }

    method SetRef(n: Node, s: Side, ref: Node?)
      requires Synced() && n in owned
      modifies this`memory, n
      ensures Synced() && memory == old(memory)[n := old(memory)[n].SetRef(s, ref)]
    {
      hide Books;
      Writing(n);
      n.SetRef(s, ref);
      memory := memory[n := memory[n].SetRef(s, ref)];
    }

    method SetRed(n: Node, red: bool)
      requires Synced() && n in owned
      modifies this`memory, n
      ensures Synced() && memory == old(memory)[n := old(memory)[n].(red := red)]
    {
      hide Books;
      Writing(n);
      n.red := red;
      memory := memory[n := memory[n].(red := red)];
    }

    method SetPayload(n: Node, key: Key, val: Val)
      requires Synced() && n in owned
      modifies this`memory, n
      ensures Synced() && memory == old(memory)[n := old(memory)[n].(key := key, val := val)]
    {
      hide Books;
      Writing(n);
      n.key, n.val := key, val;
      memory := memory[n := memory[n].(key := key, val := val)];
    }

    method Allocate(c: Cell) returns (n: Node)
      requires Synced() && c.rid == rid && !c.readOnly
      modifies this`memory, this`owned, this`freshNodes
      ensures Synced() && fresh(n) && n !in old(memory)
      ensures memory == old(memory)[n := c] && owned == old(owned) + {n}
      ensures freshNodes == old(freshNodes) + [n]
    {
      n := new Node(c);
      memory, owned, freshNodes := memory[n := c], owned + {n}, freshNodes + [n];
    }

    /** A copy of `src` with this tree's rid. */
    method Copy(src: Node) returns (n: Node)
      requires Synced() && src in memory
      modifies this`memory, this`owned, this`freshNodes
      ensures Synced() && fresh(n) && n !in old(memory)
      ensures memory == old(memory)[n := old(memory)[src].(rid := rid, readOnly := false)]
      ensures owned == old(owned) + {n} && freshNodes == old(freshNodes) + [n]
    {
      n := Allocate(Cell(src.left, src.right, src.key, src.val, src.red, rid, false));
    }

    // ------------------------------------------ writes at the focus of a path

    method Paint(n: Node, red: bool, ghost f: Shape, ghost p: Spine)
      requires Here(f, p).Some? && f.SNode? && n == f.obj
      modifies this`memory, owned
      ensures Here(f, p) == Some((old(Here(f, p)).value.0.(red := red), old(Here(f, p)).value.1))
    {
      ghost var m := memory;
      SetRed(n, red);
      Relinks.SetRed(m, NodePtr(n, None), f, red, E());
      PathFrame(m, memory, p, n, E());
    }

    method PaintKid(kid: Node, red: bool, s: Side, ghost f: Shape, ghost p: Spine)
      requires Here(f, p).Some? && f.SNode? && Kid(f, s).SNode? && kid == Kid(f, s).obj
      requires IsFresh(Child(Here(f, p).value.0, s))
      modifies this`memory, owned
      ensures Here(f, p) == 
        Some((PaintChild(old(Here(f, p)).value.0, s, red), old(Here(f, p)).value.1))
    {
      ghost var m := memory;
      ViewKid(m, NodePtr(f.obj, None), f, s, E());
      SetRed(kid, red);
      SetRedKid(m, f, s, p, red, E());
    }

    /** Replaces the child on side `s` by a copy of it. */
    method CopyKid(n: Node, s: Side, kid: Node) returns (copy: Node)
      requires Synced() && n in owned && kid in memory
      modifies this`memory, this`owned, this`freshNodes, n
      ensures Synced() && fresh(copy) && copy !in old(memory) && owned == old(owned) + {copy}
      ensures memory ==
        var m := old(memory)[copy := old(memory)[kid].(rid := rid, readOnly := false)];
        m[n := m[n].SetRef(s, copy)]
    {
      copy := Copy(kid);
      SetRef(n, s, copy);
    }

    /** Makes the child on side `s` of the focus writable. */
    method OwnKid(n: Node, s: Side, ghost f: Shape, ghost p: Spine) returns (kid: Node?, ghost g: Shape)
      requires Here(f, p).Some? && f.SNode? && n == f.obj && Kid(f, s).SNode?
      modifies this`memory, this`owned, this`freshNodes, owned
      ensures old(owned) <= owned && fresh(owned - old(owned))
      ensures kid != null && g == WithKid(f, s, Kid(f, s).(obj := kid))
      ensures Here(g, p) ==
        Some((OwnChild(old(Here(f, p)).value.0, s), old(Here(f, p)).value.1))
    {
      hide Synced, View, PathView, Objs, PathObjs;
      ghost var m := memory;
      FocusKid(m, f, p, s, E());
      OwnedKid(m, f, p, s, E());
      Holding(n);
      kid, g := n.Ptr(s).ref, f;
      Holding(kid);
      if kid.rid != rid {
        kid := CopyKid(n, s, kid);
        Relinks.OwnKid(m, f, s, kid, p, E());
        g := WithKid(f, s, Kid(f, s).(obj := kid));
      }
    }

    /** Rotates `child` down towards side `a`: its other child takes its place
        below `parent`, or as the root. */
    method Rotate(parent: Node?, child: Node, a: Side, root: Node?, ghost d: Side)
      returns (grandChild: Node, root': Node?)
      requires Synced() && child in owned && child.Ptr(Opposite(a)).ref != null
      requires var g := child.Ptr(Opposite(a)).ref; g in owned && g != child && g != parent
      requires parent != null ==> parent in owned && parent != child
      requires root == child <==> parent == null
      requires parent != null ==> (parent.Ptr(a).ref == child <==> d == a)
      modifies this`memory, child, child.Ptr(Opposite(a)).ref, parent
      ensures Synced() && grandChild == old(child.Ptr(Opposite(a)).ref)
      ensures root' == if root == child then grandChild else root
      ensures memory == Spin(old(memory), parent, d, child, grandChild, a)
    {
      var b := Opposite(a);
      var ptr := child.Ptr(b);
      grandChild, root' := ptr.ref, root;
      SetPtr(child, b, grandChild.Ptr(a));
      if root == child {
        root' := grandChild;
      } else if parent.Ptr(a).ref == child {
        SetPtr(parent, a, ptr);
      } else {
        SetPtr(parent, b, ptr);
      }
      SetRef(grandChild, a, child);
    }

    /** The same for the focus `child` of a path, whose other child must be own. */
    method RotateFocus(parent: Node?, child: Node, a: Side, root: Node?, ghost f: Shape, ghost p: Spine)
      returns (grandChild: Node, root': Node?, ghost g: Shape)
      requires Here(f, p).Some? && f.SNode? && child == f.obj && Kid(f, Opposite(a)).SNode?
      requires IsFresh(Child(Here(f, p).value.0, Opposite(a)))
      requires parent == PathObj(p) && root == RootObj(p, child)
      modifies this`memory, owned
      ensures g.SNode? && g.obj == grandChild && root' == RootObj(p, grandChild)
      ensures g == RotatedShape(f, a)
      ensures Here(g, p) == Some((RotatedTree(old(Here(f, p)).value.0, a), old(Here(f, p)).value.1))
    {
      ghost var m := memory;
      RotateParts(m, f, p, a, E());
      grandChild, root' := Rotate(parent, child, a, root, HoleSide(p));
      Relinks.RotateFocus(m, f, p, a, E());
      g := RotatedShape(f, a);
    }

    // -------------------------------------------------- rebalancing a deletion

    method SwapRed(n: Node, kid: Node)
      requires Synced() && n in owned && kid in owned && n != kid
      modifies this`memory, n, kid
      ensures Synced()
      ensures memory ==
        var m := old(memory)[kid := old(memory)[kid].(red := old(memory)[n].red)];
        m[n := m[n].(red := old(memory)[kid].red)]
    {
      var nodeRed, kidRed := n.red, kid.red;
      SetRed(kid, nodeRed);
      SetRed(n, kidRed);
    }

    method SwapColor(n: Node, kid: Node, d: Side, ghost f: Shape, ghost p: Spine)
      requires Here(f, p).Some? && f.SNode? && n == f.obj && Kid(f, d).SNode? && kid == Kid(f, d).obj
      requires IsFresh(Child(Here(f, p).value.0, d))
      modifies this`memory, owned
      ensures Here(f, p) == Some((SwapReds(old(Here(f, p)).value.0, d), old(Here(f, p)).value.1))
    {
      SwapCells(memory, f, d, p, E());
      ViewKid(memory, NodePtr(n, None), f, d, E());
      SwapRed(n, kid);
    }

    /** Makes the child on side `d` of the focus writable and swaps their colours. */
    method OwnAndSwap(n: Node, d: Side, ghost f: Shape, ghost p: Spine) returns (kid: Node?, ghost g: Shape)
      requires Here(f, p).Some? && f.SNode? && n == f.obj && Kid(f, d).SNode?
      modifies this`memory, this`owned, this`freshNodes, owned
      ensures old(owned) <= owned && fresh(owned - old(owned))
      ensures kid != null && g.SNode? && g.obj == n && Kid(g, d).SNode? && Kid(g, d).obj == kid
      ensures Here(g, p) ==
        Some((SwapReds(OwnChild(old(Here(f, p)).value.0, d), d), old(Here(f, p)).value.1))
    {
      hide Synced, View, PathView, See, Objs, PathObjs;
      FocusKid(memory, f, p, d, E());
      kid, g := OwnKid(n, d, f, p);
      SwapColor(n, kid, d, g, p);
    }

    /** The child opposite to side `s` is made writable, swaps colours with its
        parent and takes its place: what becomes of a red brother of the hole,
        and, one level down and mirrored, of a red inner nephew. */
    method SwapAndRotate(parent: Node, s: Side, grand: Node?, root: Node?, ghost f: Shape, ghost p: Spine)
      returns (brother: Node, root': Node?, ghost g: Shape)
      requires Here(f, p).Some? && f.SNode? && parent == f.obj && Kid(f, Opposite(s)).SNode?
      requires grand == PathObj(p) && root == RootObj(p, parent)
      modifies this`memory, this`owned, this`freshNodes, owned
      ensures old(owned) <= owned && fresh(owned - old(owned))
      ensures g.SNode? && g.obj == brother && Kid(g, s).SNode? && Kid(g, s).obj == parent
      ensures root' == RootObj(p, brother)
      ensures Here(g, p) == Some((BrotherUp(old(Here(f, p)).value.0, s), old(Here(f, p)).value.1))
    {
      hide Synced, View, PathView, See, Objs, PathObjs;
      var kid;
      FocusKid(memory, f, p, Opposite(s), E());
      kid, g := OwnAndSwap(parent, Opposite(s), f, p);
      brother, root', g := RotateFocus(grand, parent, s, root, g, p);
    }

    /** Both nephews are black: the brother becomes red. */
    method BlackNephews(parent: Node, s: Side, ghost f: Shape, ghost p: Spine) returns (ghost g: Shape)
      requires Here(f, p).Some? && f.SNode? && parent == f.obj && Kid(f, Opposite(s)).SNode?
      modifies this`memory, this`owned, this`freshNodes, owned
      ensures old(owned) <= owned && fresh(owned - old(owned))
      ensures g.SNode? && g.obj == parent
      ensures Here(g, p) == Some((BrotherRed(old(Here(f, p)).value.0, s), old(Here(f, p)).value.1))
    {
      hide Synced, View, PathView, See, Objs, PathObjs;
      var brother;
      FocusKid(memory, f, p, Opposite(s), E());
      brother, g := OwnKid(parent, Opposite(s), f, p);
      PaintKid(brother, true, Opposite(s), g, p);
    }

    /** Swaps and rotates below the child on side `d` of the focus, on its side `d`. */
    method RotateBelow(n: Node, kid: Node, d: Side, root: Node?, ghost f: Shape, ghost p: Spine)
      returns (top: Node, ghost g: Shape)
      requires Here(f, p).Some? && f.SNode? && n == f.obj && Kid(f, d).SNode? && kid == Kid(f, d).obj
      requires IsFresh(Child(Here(f, p).value.0, d)) && Kid(Kid(f, d), Opposite(d)).SNode?
      requires root == RootObj(p, n)
      modifies this`memory, this`owned, this`freshNodes, owned
      ensures old(owned) <= owned && fresh(owned - old(owned))
      ensures g.SNode? && g.obj == n && Kid(g, d).SNode? && Kid(g, d).obj == top
      ensures Here(g, p) ==
        Some((WithChild(old(Here(f, p)).value.0, d, BrotherUp(Child(old(Here(f, p)).value.0, d), d)),
              old(Here(f, p)).value.1))
    {
      hide Synced, View, PathView, See, Objs, PathObjs;
      FocusKid(memory, f, p, d, E());
      GoDown(memory, f, d, p, E());
      var root';
      ghost var b;
      top, root', b := SwapAndRotate(kid, d, n, root, Kid(f, d), SDown(f, d, p));
      Ascend(memory, b, SDown(f, d, p), E());
      g := SJoin(d, n, b, Kid(f, Opposite(d)));
    }

    /** Only the inner nephew is red: he becomes the brother of the hole. */
    method InnerNephew(parent: Node, s: Side, root: Node?, ghost f: Shape, ghost p: Spine)
      returns (brother: Node, ghost g: Shape)
      requires Here(f, p).Some? && f.SNode? && parent == f.obj
      requires var b := Child(Here(f, p).value.0, Opposite(s)); b.Node? && Child(b, s).Node?
      requires root == RootObj(p, parent)
      modifies this`memory, this`owned, this`freshNodes, owned
      ensures old(owned) <= owned && fresh(owned - old(owned))
      ensures g.SNode? && g.obj == parent && Kid(g, Opposite(s)).SNode? && Kid(g, Opposite(s)).obj == brother
      ensures Here(g, p) == Some((NephewUp(old(Here(f, p)).value.0, s), old(Here(f, p)).value.1))
    {
      hide Synced, View, PathView, See, Objs, PathObjs;
      var kid;
      FocusGrandKid(memory, f, p, Opposite(s), s, E());
      kid, g := OwnKid(parent, Opposite(s), f, p);
      brother, g := RotateBelow(parent, kid, Opposite(s), root, g, p);
    }

    /** Makes the brother of the hole on side `s` and the outer nephew writable. */
    method OwnOuter(parent: Node, s: Side, ghost f: Shape, ghost p: Spine)
      returns (brother: Node?, nephew: Node?, ghost g: Shape)
      requires Here(f, p).Some? && f.SNode? && parent == f.obj
      requires var b := Child(Here(f, p).value.0, Opposite(s)); b.Node? && Child(b, Opposite(s)).Node?
      modifies this`memory, this`owned, this`freshNodes, owned
      ensures old(owned) <= owned && fresh(owned - old(owned))
      ensures g.SNode? && g.obj == parent && Kid(g, Opposite(s)).SNode? && Kid(g, Opposite(s)).obj == brother
      ensures Kid(Kid(g, Opposite(s)), Opposite(s)).SNode? && Kid(Kid(g, Opposite(s)), Opposite(s)).obj == nephew
      ensures Here(g, p) == Some((OwnedOuter(old(Here(f, p)).value.0, s), old(Here(f, p)).value.1))
    {
      hide Synced, View, PathView, See, Objs, PathObjs;
      var o := Opposite(s);
      FocusGrandKid(memory, f, p, o, o, E());
      brother, g := OwnKid(parent, o, f, p);
      nephew, g := OwnBelow(parent, brother, o, g, p);
    }

    method OwnBelow(n: Node, kid: Node, d: Side, ghost f: Shape, ghost p: Spine)
      returns (grandKid: Node?, ghost g: Shape)
      requires Here(f, p).Some? && f.SNode? && n == f.obj && Kid(f, d).SNode? && kid == Kid(f, d).obj
      requires IsFresh(Child(Here(f, p).value.0, d)) && Kid(Kid(f, d), d).SNode?
      modifies this`memory, this`owned, this`freshNodes, owned
      ensures old(owned) <= owned && fresh(owned - old(owned))
      ensures g.SNode? && g.obj == n && Kid(g, d).SNode? && Kid(g, d).obj == kid
      ensures Kid(Kid(g, d), d).SNode? && Kid(Kid(g, d), d).obj == grandKid
      ensures Here(g, p) ==
        Some((WithChild(old(Here(f, p)).value.0, d, OwnChild(Child(old(Here(f, p)).value.0, d), d)),
              old(Here(f, p)).value.1))
    {
      hide Synced, View, PathView, See, Objs, PathObjs;
      FocusKid(memory, f, p, d, E());
      GoDown(memory, f, d, p, E());
      ghost var b;
      grandKid, b := OwnKid(kid, d, Kid(f, d), SDown(f, d, p));
      Ascend(memory, b, SDown(f, d, p), E());
      g := SJoin(d, n, b, Kid(f, Opposite(d)));
    }

    /** The child on side `d` takes the colour of the focus, which turns black. */
    method PassRed(n: Node, kid: Node, d: Side, ghost f: Shape, ghost p: Spine)
      requires Here(f, p).Some? && f.SNode? && n == f.obj && Kid(f, d).SNode? && kid == Kid(f, d).obj
      requires IsFresh(Child(Here(f, p).value.0, d))
      modifies this`memory, owned
      ensures Here(f, p) == Some((PassedRed(old(Here(f, p)).value.0, d), old(Here(f, p)).value.1))
    {
      hide View, PathView, See, Objs, PathObjs;
      FocusKid(memory, f, p, d, E());
      PaintKid(kid, n.red, d, f, p);
      Paint(n, false, f, p);
    }

    /** The grandchild on side `d` of the child on side `d` turns black. */
    method BlackenBelow(grandKid: Node, d: Side, ghost f: Shape, ghost p: Spine)
      requires Here(f, p).Some? && f.SNode? && Kid(f, d).SNode? && IsFresh(Child(Here(f, p).value.0, d))
      requires Kid(Kid(f, d), d).SNode? && Kid(Kid(f, d), d).obj == grandKid
      requires IsFresh(Child(Child(Here(f, p).value.0, d), d))
      modifies this`memory, owned
      ensures Here(f, p) == Some((BlackenedBelow(old(Here(f, p)).value.0, d), old(Here(f, p)).value.1))
    {
      hide Synced, View, PathView, See, Objs, PathObjs;
      FocusKid(memory, f, p, d, E());
      GoDown(memory, f, d, p, E());
      PaintKid(grandKid, false, d, Kid(f, d), SDown(f, d, p));
      Ascend(memory, Kid(f, d), SDown(f, d, p), E());
    }

    /** The brother takes the parent's colour; parent and outer nephew turn black. */
    method PaintOuter(parent: Node, s: Side, ghost f: Shape, ghost p: Spine) returns (ghost g: Shape)
      requires Here(f, p).Some? && f.SNode? && parent == f.obj
      requires var b := Child(Here(f, p).value.0, Opposite(s)); b.Node? && Child(b, Opposite(s)).Node?
      modifies this`memory, this`owned, this`freshNodes, owned
      ensures old(owned) <= owned && fresh(owned - old(owned))
      ensures g.SNode? && g.obj == parent && Kid(g, Opposite(s)).SNode?
      ensures Here(g, p) == Some((PaintedOuter(old(Here(f, p)).value.0, s), old(Here(f, p)).value.1))
    {
      hide Synced, View, PathView, See, Objs, PathObjs;
      FocusKid(memory, f, p, Opposite(s), E());
      var brother, nephew;
      brother, nephew, g := OwnOuter(parent, s, f, p);
      PassRed(parent, brother, Opposite(s), g, p);
      BlackenBelow(nephew, Opposite(s), g, p);
    }

    /** The outer nephew is red: a rotation supplies the missing black node. */
    method OuterNephew(parent: Node, s: Side, grand: Node?, root: Node?, ghost f: Shape, ghost p: Spine)
      returns (root': Node?, ghost g: Shape)
      requires Here(f, p).Some? && f.SNode? && parent == f.obj
      requires var b := Child(Here(f, p).value.0, Opposite(s)); b.Node? && Child(b, Opposite(s)).Node?
      requires grand == PathObj(p) && root == RootObj(p, parent)
      modifies this`memory, this`owned, this`freshNodes, owned
      ensures old(owned) <= owned && fresh(owned - old(owned))
      ensures g.SNode? && root' == RootObj(p, g.obj)
      ensures Here(g, p) == Some((OuterUp(old(Here(f, p)).value.0, s), old(Here(f, p)).value.1))
    {
      hide Synced, View, PathView, See, Objs, PathObjs;
      FocusKid(memory, f, p, Opposite(s), E());
      var brother;
      PaintedOuterFresh(Here(f, p).value.0, s);
      g := PaintOuter(parent, s, f, p);
      brother, root', g := RotateFocus(grand, parent, s, root, g, p);
    }

    /** Sees to it that the outer nephew is red. */
    method OuterRed(parent: Node, s: Side, root: Node?, ghost f: Shape, ghost p: Spine) returns (ghost g: Shape)
      requires Here(f, p).Some? && f.SNode? && parent == f.obj && root == RootObj(p, parent)
      requires var b := Child(Here(f, p).value.0, Opposite(s)); b.Node? && (IsRed(b.left) || IsRed(b.right))
      modifies this`memory, this`owned, this`freshNodes, owned
      ensures old(owned) <= owned && fresh(owned - old(owned))
      ensures g.SNode? && g.obj == parent
      ensures Here(g, p) == Some((NephewTurned(old(Here(f, p)).value.0, s), old(Here(f, p)).value.1))
    {
      hide Synced, View, PathView, See, Objs, PathObjs;
      var o := Opposite(s);
      FocusGrandKid(memory, f, p, o, o, E());
      Holding(parent);
      var brother := parent.Ptr(o).ref;
      Holding(brother);
      assert brother.Ptr(o) == memory[brother].Ptr(o);
      if brother.Ptr(o).ref != null {
        Holding(brother.Ptr(o).ref);
      }
      g := f;
      if !NodeIsRed(brother.Ptr(o).ref) {
        brother, g := InnerNephew(parent, s, root, f, p);
      }
    }

    /** The brother of the hole below `parent` is black and a nephew is red. */
    method RedNephew(parent: Node, s: Side, grand: Node?, root: Node?, ghost f: Shape, ghost p: Spine)
      returns (root': Node?, ghost g: Shape)
      requires Here(f, p).Some? && f.SNode? && parent == f.obj
      requires grand == PathObj(p) && root == RootObj(p, parent)
      requires var b := Child(Here(f, p).value.0, Opposite(s));
               b.Node? && !b.red && (IsRed(b.left) || IsRed(b.right))
      modifies this`memory, this`owned, this`freshNodes, owned
      ensures old(owned) <= owned && fresh(owned - old(owned))
      ensures g.SNode? && root' == RootObj(p, g.obj)
      ensures Here(g, p) == Some((Rotation(old(Here(f, p)).value.0, s), old(Here(f, p)).value.1))
    {
      hide Synced, View, PathView, See, Objs, PathObjs;
      FocusKid(memory, f, p, Opposite(s), E());
      RotateDownTree(Here(f, p).value.0, s);
      g := OuterRed(parent, s, root, f, p);
      root', g := OuterNephew(parent, s, grand, root, g, p);
    }

    /** The variables of the loop that rebalances: the subtree that is one black
        node short, its parent, the rest of the path, and the root. The loop is
        on its way to `result`. */
    ghost predicate AtHole(extraBlack: Node?, parent: Node?, path: seq<Node?>, root: Node?,
                           x: Shape, p: Spine, h: nat, result: Tree)
      reads this`rid, this`primary, this`memory, this`owned, this`freshNodes, this`emptied, memory.Keys
    {
      && extraBlack == Obj(x) && parent == PathObj(p) && root == RootObj(p, Obj(x))
      && (p.SUp? ==> path == Deque(p.up) + [null])
      && Here(x, p).Some? && FixReady(Here(x, p).value.0, Here(x, p).value.1, h)
      && DeleteFix(Here(x, p).value.0, Here(x, p).value.1) == result
    }

    /** Halfway through a step: the brother of the hole on side `s` is black. */
    ghost predicate AtParent(parent: Node, s: Side, path: seq<Node?>, root: Node?,
                             f: Shape, p: Spine, h: nat, result: Tree)
      reads this`rid, this`primary, this`memory, this`owned, this`freshNodes, this`emptied, memory.Keys
    {
      && f.SNode? && parent == f.obj && path == Deque(p) + [null] && root == RootObj(p, parent)
      && Here(f, p).Some? && IsFresh(Here(f, p).value.0)
      && var (a, up) := Here(f, p).value;
         && StepReady(Child(a, s), a.red, Child(a, Opposite(s)), up, h)
         && DeleteStep(Child(a, s), s, a.red, a.key, a.val, Child(a, Opposite(s)), up) == result
    }

    ghost predicate NephewsBlack(f: Shape, p: Spine, s: Side)
      requires Here(f, p).Some?
      reads this`rid, this`primary, this`memory, this`owned, this`freshNodes, this`emptied, memory.Keys
    {
      var a := Here(f, p).value.0;
      a.Node? && var b := Child(a, Opposite(s)); b.Node? && !IsRed(b.left) && !IsRed(b.right)
    }

    method RecolourStep(parent: Node, s: Side, path: seq<Node?>, root: Node?, ghost f: Shape, ghost p: Spine, ghost h: nat,
                        ghost t: Tree)
      returns (extraBlack: Node?, parent': Node?, path': seq<Node?>, root': Node?, ghost x: Shape, ghost g: nat)
      requires AtParent(parent, s, path, root, f, p, h, t) && NephewsBlack(f, p, s)
      modifies this`memory, this`owned, this`freshNodes, owned
      ensures old(owned) <= owned && fresh(owned - old(owned))
      ensures AtHole(extraBlack, parent', path', root', x, p, g, t)
      ensures old(Here(f, p).value.0.red) ==> IsRed(Here(x, p).value.0)
      ensures Here(x, p).value.1 == old(Here(f, p)).value.1
    {
      hide Synced, View, PathView, See, Objs, PathObjs;
      ghost var (a, up) := Here(f, p).value;
      BrotherRedTree(a, s);
      BlackNephewsReady(Child(a, s), s, a.red, a.key, a.val, Child(a, Opposite(s)), up, h);
      FocusKid(memory, f, p, Opposite(s), E());
      x := BlackNephews(parent, s, f, p);
      extraBlack, parent', path', root' := parent, path[0], path[1..], root;
      g := if a.red then h else h + 1;
    }

    method RotateStep(parent: Node, s: Side, path: seq<Node?>, root: Node?, ghost f: Shape, ghost p: Spine, ghost h: nat,
                      ghost t: Tree)
      returns (extraBlack: Node?, root': Node?, ghost x: Shape, ghost g: nat)
      requires AtParent(parent, s, path, root, f, p, h, t) && !NephewsBlack(f, p, s)
      modifies this`memory, this`owned, this`freshNodes, owned
      ensures old(owned) <= owned && fresh(owned - old(owned))
      ensures AtHole(extraBlack, null, path, root', x, STop, g, t) && Here(x, STop).value.1.Top?
    {
      hide Synced, View, PathView, See, Objs, PathObjs;
      ghost var (a, up) := Here(f, p).value;
      ghost var bro := Child(a, Opposite(s));
      RedNephewReady(Child(a, s), s, a.red, a.key, a.val, bro, up, h);
      RotationDone(Child(a, s), s, a.red, a.key, a.val, bro, up);
      root', x := RedNephew(parent, s, path[0], root, f, p);
      ZipFacts(memory, x, p, E());
      extraBlack, x := root', SZip(x, p);
      g := BlackHeight(Here(x, STop).value.0);
    }

    /** The second half of a step of the rebalancing loop. */
    method BlackBrother(parent: Node, s: Side, path: seq<Node?>, root: Node?, ghost f: Shape, ghost p: Spine, ghost h: nat,
                        ghost t: Tree)
      returns (extraBlack: Node?, parent': Node?, path': seq<Node?>, root': Node?, ghost x: Shape, ghost q: Spine, ghost g: nat)
      requires AtParent(parent, s, path, root, f, p, h, t)
      modifies this`memory, this`owned, this`freshNodes, owned
      ensures old(owned) <= owned && fresh(owned - old(owned))
      ensures AtHole(extraBlack, parent', path', root', x, q, g, t)
      ensures Later(Here(x, q).value.0, Here(x, q).value.1, old(Here(f, p)).value.0.red, old(Here(f, p)).value.1)
    {
      hide Synced, View, PathView, See, Objs, PathObjs;
      var o := Opposite(s);
      FocusGrandKid(memory, f, p, o, L, E());
      FocusGrandKid(memory, f, p, o, R, E());
      Holding(parent);
      var brother := parent.Ptr(o).ref;
      Holding(brother);
      assert brother.Ptr(L) == memory[brother].Ptr(L) && brother.Ptr(R) == memory[brother].Ptr(R);
      if brother.left.ref != null {
        Holding(brother.left.ref);
      }
      if brother.right.ref != null {
        Holding(brother.right.ref);
      }
      path' := path;
      if !NodeIsRed(brother.left.ref) && !NodeIsRed(brother.right.ref) {
        extraBlack, parent', path', root', x, g := RecolourStep(parent, s, path, root, f, p, h, t);
        q := p;
      } else {
        extraBlack, root', x, g := RotateStep(parent, s, path, root, f, p, h, t);
        parent', q := null, STop;
      }
    }

    /** The first half: a red brother of the hole is rotated up. */
    method RedBrother(parent: Node, s: Side, path: seq<Node?>, root: Node?, ghost x: Shape, ghost p: Spine, ghost h: nat,
                      ghost t: Tree)
      returns (path': seq<Node?>, root': Node?, ghost f: Shape, ghost q: Spine)
      requires AtHole(Obj(x), parent, path, root, x, p, h, t) && p.SUp? && p.side == s
      requires !IsRed(Here(x, p).value.0) && IsRed(Here(x, p).value.1.sib)
      modifies this`memory, this`owned, this`freshNodes, owned
      ensures old(owned) <= owned && fresh(owned - old(owned))
      ensures AtParent(parent, s, path', root', f, q, h, t)
      ensures Here(f, q).value.0.red && Length(Here(f, q).value.1) == old(Length(Here(x, p).value.1))
    {
      hide View, PathView, See, DeleteFix, DeleteStep, RB, PathRB, PathObjs, Synced, IsRed, Objs, StepReady, BrotherUp;
      ghost var f0 := SJoin(s, parent, x, p.sib);
      SideOfHole(memory, x, p, E());
      DeleteFixStep(Here(x, p).value.0, Here(x, p).value.1);
      BrotherReady(Here(x, p).value.0, Here(x, p).value.1, h);
      Ascend(memory, x, p, E());
      FocusKid(memory, f0, p.up, Opposite(s), E());
      BrotherUpTree(Here(f0, p.up).value.0, s);
      var brother;
      brother, root', f := SwapAndRotate(parent, s, path[0], root, f0, p.up);
      path' := [brother] + path;
      GoDown(memory, f, s, p.up, E());
      f, q := Kid(f, s), SDown(f, s, p.up);
    }

    /** The brother is black already. */
    ghost method AscendToParent(parent: Node, s: Side, path: seq<Node?>, root: Node?, x: Shape, p: Spine, h: nat, t: Tree)
      requires AtHole(Obj(x), parent, path, root, x, p, h, t) && p.SUp? && p.side == s
      requires !IsRed(Here(x, p).value.0) && !IsRed(Here(x, p).value.1.sib)
      ensures AtParent(parent, s, path, root, SJoin(s, parent, x, p.sib), p.up, h, t)
      ensures Length(Here(SJoin(s, parent, x, p.sib), p.up).value.1) < Length(Here(x, p).value.1)
    {
      hide Synced, View, PathView, See, Objs, PathObjs;
      SideOfHole(memory, x, p, E());
      BrotherReady(Here(x, p).value.0, Here(x, p).value.1, h);
      Ascend(memory, x, p, E());
    }

    /** One step of the rebalancing loop, with the hole on side `s` of `parent`. */
    method MirrorRemoveBalance(extraBlack: Node?, parent: Node, path: seq<Node?>, s: Side, root: Node?,
                               ghost x: Shape, ghost p: Spine, ghost h: nat, ghost t: Tree)
      returns (extraBlack': Node?, parent': Node?, path': seq<Node?>, root': Node?, ghost x': Shape, ghost p': Spine, ghost h': nat)
      requires AtHole(extraBlack, parent, path, root, x, p, h, t) && p.SUp? && p.side == s
      requires !IsRed(Here(x, p).value.0)
      modifies this`memory, this`owned, this`freshNodes, owned
      ensures old(owned) <= owned && fresh(owned - old(owned))
      ensures AtHole(extraBlack', parent', path', root', x', p', h', t)
      ensures var (a, q) := Here(x', p').value;
        Length(q) < old(Length(Here(x, p).value.1)) || (Length(q) == old(Length(Here(x, p).value.1)) && IsRed(a))
    {
      hide Synced, View, PathView, See, Objs, PathObjs;
      SideOfHole(memory, x, p, E());
      BrotherReady(Here(x, p).value.0, Here(x, p).value.1, h);
      ghost var f, q := SJoin(s, parent, x, p.sib), p.up;
      Holding(parent);
      var brother := parent.Ptr(Opposite(s)).ref;
      path', root' := path, root;
      Holding(brother);
      if brother.red {
        path', root', f, q := RedBrother(parent, s, path, root, x, p, h, t);
      } else {
        AscendToParent(parent, s, path, root, x, p, h, t);
      }
      extraBlack', parent', path', root', x', p', h' := BlackBrother(parent, s, path', root', f, q, h, t);
    }

    /** The path above the object `c`, as a value. */
    ghost function Above(p: Spine, c: Node?): Option<Path>
      reads this`rid, this`primary, this`memory, this`owned, this`freshNodes, this`emptied, memory.Keys
    {
      if Synced() then PathView(memory, p, c, E()) else None
    }

    /** Puts `transplanted` where `removed` was. */
    method Transplant(parent: Node?, removed: Node?, transplanted: Node?, root: Node?, ghost p: Spine) returns (root': Node?)
      requires Above(p, removed).Some? && parent == PathObj(p) && root == RootObj(p, removed)
      requires p.SUp? ==> removed != null && removed !in PathObjs(p)
      modifies this`memory, owned
      ensures Above(p, transplanted) == old(Above(p, removed)) && root' == RootObj(p, transplanted)
      ensures memory.Keys == old(memory.Keys)
      ensures memory ==
        if parent == null then old(memory)
        else old(memory)[parent := old(memory)[parent].SetRef(p.side, transplanted)]
    {
      hide Synced, View, PathView, Objs, PathObjs;
      ghost var m := memory;
      HoleOnOneSide(m, p, removed, E());
      root' := root;
      NotOwnRoot(p, removed);
      if parent != null {
        Holding(parent);
        assert memory[parent].Ptr(L) == parent.left;
      }
      if parent == null {
        root' := transplanted;
      } else if parent.left.ref == removed {
        SetRef(parent, L, transplanted);
      } else {
        SetRef(parent, R, transplanted);
      }
      RelinkUp(m, memory, p, removed, transplanted, E());
    }

    /** Makes the root of the tree at the hole writable, if there is one. The
        parent is not told yet. */
    method OwnAtHole(node: Node?, ghost x: Shape, ghost p: Spine, ghost ptr: NodePtr, ghost a: Tree)
      returns (newNode: Node?, ghost v: Shape)
      requires Above(p, Obj(x)).Some? && View(memory, ptr, x, E()) == Some(a) && Objs(x) !! PathObjs(p)
      requires node == Obj(x)
      modifies this`memory, this`emptied, this`owned, this`freshNodes
      ensures old(owned) <= owned && fresh(owned - old(owned))
      ensures emptied == (old(emptied) || node == null)
      ensures newNode == null <==> node == null
      ensures newNode == Obj(v) && Above(p, node) == old(Above(p, node))
      ensures View(memory, NodePtr(newNode, None), v, E()) == Some(Own(a)) && Objs(v) !! PathObjs(p)
    {
      hide View, PathView, See, Objs, PathObjs;
      ghost var m := memory;
      newNode, v := node, x;
      ViewNode(m, ptr, x, E());
      OwnedView(m, ptr, x, E());
      if node == null {
        freshNodes, emptied := freshNodes + [null], true;
      } else if node.rid != rid {
        newNode := Copy(node);
        v := x.(obj := newNode);
        CopyAtHole(m, ptr, x, newNode, p, E());
      }
    }

    /** The end of the loop: what is at the hole turns black, copied if need be. */
    method FinishDelete(extraBlack: Node?, parent: Node?, root: Node?, ghost x: Shape, ghost p: Spine, ghost ptr: NodePtr,
                        ghost a: Tree)
      returns (root': Node?, ghost v: Shape)
      requires Above(p, Obj(x)).Some? && View(memory, ptr, x, E()) == Some(a) && Objs(x) !! PathObjs(p)
      requires extraBlack == Obj(x) && parent == PathObj(p) && root == RootObj(p, extraBlack)
      requires p.STop? || IsRed(a)
      modifies this`memory, this`emptied, this`owned, this`freshNodes, owned
      ensures old(owned) <= owned && fresh(owned - old(owned))
      ensures emptied == (old(emptied) || root' == null)
      ensures root' == Obj(v) && Here(v, STop) == Some((Zip(Blacken(Own(a)), old(Above(p, Obj(x))).value), Top))
    {
      hide Synced, View, PathView, Objs, PathObjs;
      var newNode;
      NotOnPath(x, p);
      ViewNode(memory, ptr, x, E());
      newNode, v := OwnAtHole(extraBlack, x, p, ptr, a);
      ghost var m := memory;
      root' := Transplant(parent, extraBlack, newNode, root, p);
      NotOnPath(v, p);
      ViewNode(m, NodePtr(newNode, None), v, E());
      ViewFrame(m, memory, NodePtr(newNode, None), v, E());
      if newNode != null {
        Paint(newNode, false, v, p);
      }
      ZipFacts(memory, v, p, E());
      RootObjFacts(p, newNode);
      v := SZip(v, p);
    }

    /** Repeats the step until the missing black node is supplied. */
    method RebalanceLoop(extraBlack: Node?, parent: Node?, path: seq<Node?>, root: Node?, ghost x: Shape, ghost p: Spine,
                         ghost h: nat, ghost t: Tree)
      returns (extraBlack': Node?, parent': Node?, root': Node?, ghost y: Shape, ghost q: Spine)
      requires AtHole(extraBlack, parent, path, root, x, p, h, t)
      modifies this`memory, this`owned, this`freshNodes, owned
      ensures old(owned) <= owned && fresh(owned - old(owned))
      ensures extraBlack' == Obj(y) && parent' == PathObj(q) && root' == RootObj(q, extraBlack')
      ensures Here(y, q).Some? && DeleteFix(Here(y, q).value.0, Here(y, q).value.1) == t
      ensures (q.STop? <==> Here(y, q).value.1.Top?) && (q.STop? || IsRed(Here(y, q).value.0))
    {
      hide Synced, View, PathView, See, Objs, PathObjs;
      var path' := path;
      ghost var g := h;
      extraBlack', parent', root', y, q := extraBlack, parent, root, x, p;
      SideOfHole(memory, y, q, E());
      if extraBlack' != null {
        Holding(extraBlack');
      }
      while extraBlack' != root' && !NodeIsRed(extraBlack')
        invariant old(owned) <= owned && fresh(owned - old(owned))
        invariant AtHole(extraBlack', parent', path', root', y, q, g, t)
        invariant SideKnown(memory, y, q, E()) && NodeIsRed(extraBlack') == IsRed(Here(y, q).value.0)
        decreases Length(Here(y, q).value.1), if IsRed(Here(y, q).value.0) then 0 else 1
      {
        BrotherReady(Here(y, q).value.0, Here(y, q).value.1, g);
        Holding(parent');
        assert parent'.Ptr(L) == memory[parent'].Ptr(L);
        if parent'.left.ref == extraBlack' {
          extraBlack', parent', path', root', y, q, g := MirrorRemoveBalance(extraBlack', parent', path', L, root', y, q, g, t);
        } else {
          extraBlack', parent', path', root', y, q, g := MirrorRemoveBalance(extraBlack', parent', path', R, root', y, q, g, t);
        }
        SideOfHole(memory, y, q, E());
        if extraBlack' != null {
          Holding(extraBlack');
        }
      }
    }

    /** `x` has taken the place of a black node: supplies the missing black node. */
    method BalanceDelete(extraBlack: Node?, path: seq<Node?>, root: Node?, ghost x: Shape, ghost p: Spine,
                         ghost ptr: NodePtr, ghost a: Tree, ghost h: nat)
      returns (root': Node?, ghost v: Shape)
      requires Above(p, Obj(x)).Some? && View(memory, ptr, x, E()) == Some(a) && Objs(x) !! PathObjs(p)
      requires extraBlack == Obj(x) && path == Deque(p) + [null] && root == RootObj(p, extraBlack)
      requires FixReady(a, Above(p, Obj(x)).value, h) && (a.Nil? || IsRed(a))
      modifies this`memory, this`emptied, this`owned, this`freshNodes, owned
      ensures old(owned) <= owned && fresh(owned - old(owned))
      ensures emptied == (old(emptied) || root' == null)
      ensures root' == Obj(v) && Here(v, STop) == Some((DeleteFix(a, old(Above(p, Obj(x))).value), Top))
    {
      hide View, PathView, Objs, PathObjs, FixReady;
      var extraBlack', parent, path', root1 := extraBlack, path[0], path[1..], root;
      ghost var y, q, ptr', b := x, p, ptr, a;
      ViewNode(memory, ptr, x, E());
      // a red node in the hole ends the loop before it starts
      if !NodeIsRed(extraBlack) {
        EmptyHole(memory, x, p, E());
        extraBlack', parent, root1, y, q := RebalanceLoop(extraBlack, parent, path', root, x, p, h, DeleteFix(a, Above(p, Obj(x)).value));
        ptr', b := NodePtr(Obj(y), None), Here(y, q).value.0;
      }
      DeleteFixDone(b, Above(q, Obj(y)).value);
      root', v := FinishDelete(extraBlack', parent, root1, y, q, ptr', b);
    }

    /** `removed` has a child on side `s` at most, which takes its place. */
    method SpliceOut(removed: Node, transplanted: Node?, path: seq<Node?>, root: Node?, ghost s: Side, ghost f: Shape,
                     ghost p: Spine, ghost h: nat)
      returns (root': Node?, ghost v: Shape)
      requires Here(f, p).Some? && f.SNode? && removed == f.obj && transplanted == Obj(Kid(f, s))
      requires path == Deque(p) + [null] && root == RootObj(p, removed)
      requires SpliceReady(Here(f, p).value.0, s, Here(f, p).value.1, h)
      modifies this`memory, this`emptied, this`owned, this`freshNodes, owned
      ensures old(owned) <= owned && fresh(owned - old(owned))
      ensures emptied == (old(emptied) || root' == null)
      ensures root' == Obj(v)
      ensures var (a, q) := old(Here(f, p)).value; Here(v, STop) == Some((Splice(a, Child(a, s), q), Top))
    {
      hide Synced, View, PathView, Objs, PathObjs, FixReady, SpliceReady, RB, PathRB, DeleteFix, IsRed;
      ghost var (a, q) := Here(f, p).value;
      ghost var m := memory;
      SpliceFacts(a, s, q, h);
      HoleFacts(m, f, p, s, E());
      Holding(removed);
      ghost var x, ptr := Kid(f, s), memory[removed].Ptr(s);
      root' := Transplant(path[0], removed, transplanted, root, p);
      SpliceFrame(m, memory, f, p, s, E());
      Holding(removed);
      if !removed.red {
        root', v := BalanceDelete(transplanted, path, root', x, p, ptr, Child(a, s), h - 1);
      } else {
        EmptyHole(memory, x, p, E());
        FocusKid(m, f, p, s, E());
        RootObjFacts(p, null);
        ZipFacts(memory, x, p, E());
        v := SZip(x, p);
      }
    }

    // ------------------------------------------------ the path down to a key

    ghost function Views(ptr: NodePtr, t: Shape): Option<Tree>
      reads this`rid, this`primary, this`memory, this`owned, this`freshNodes, this`emptied, memory.Keys
    {
      if Synced() then View(memory, ptr, t, E()) else None
    }

    /** The node itself if it is own, else a copy. */
    method OwnNode(node: Node) returns (copy: Node)
      requires Synced() && node in memory
      modifies this`memory, this`owned, this`freshNodes
      ensures Synced() && copy in owned && old(owned) <= owned && fresh(owned - old(owned))
      ensures copy == node || copy !in old(memory)
      ensures copy == node <==> old(memory)[node].rid == rid
      ensures memory == old(memory)[copy := old(memory)[node].(rid := rid, readOnly := false)]
    {
      copy := node;
      if node.rid != rid {
        copy := Copy(node);
      } else {
        assert memory[node] == memory[node].(rid := rid, readOnly := false);
      }
    }

    /** A writable version of `node` with `child` on side `s`. */
    method CopyOver(node: Node, s: Side, child: Node?) returns (copy: Node)
      requires Synced() && node in memory
      modifies this`memory, this`owned, this`freshNodes, owned
      ensures Synced() && old(owned) <= owned && fresh(owned - old(owned))
      ensures copy == node || copy !in old(memory)
      ensures memory ==
        var m := old(memory)[copy := old(memory)[node].(rid := rid, readOnly := false)];
        m[copy := m[copy].SetRef(s, child)]
    {
      copy := OwnNode(node);
      SetRef(copy, s, child);
    }

    /** The way back up from a recursion: the next node of the path. */
    method Climb(node: Node, s: Side, child: Node?, ghost m0: Memory, ghost t: Shape, ghost ptr: NodePtr, ghost f: Shape,
                 ghost p: Spine)
      returns (copy: Node, ghost q: Spine)
      requires Here(f, p).Some? && f.SNode? && child == RootObj(p, f.obj)
      requires View(m0, ptr, t, E()).Some? && t.SNode? && node == t.obj
      requires Confined(m0, memory, Kid(t, s), Objs(f) + PathObjs(p))
      modifies this`memory, this`owned, this`freshNodes, owned
      ensures old(owned) <= owned && fresh(owned - old(owned))
      ensures Confined(m0, memory, t, Objs(f) + PathObjs(q))
      ensures copy == RootObj(q, f.obj) && Deque(q) == Deque(p) + [copy]
      ensures Here(f, q) == Some((old(Here(f, p)).value.0,
                                  Append(old(Here(f, p)).value.1, Frame(View(m0, ptr, t, E()).value, s, Top))))
    {
      hide View, PathView, See, Objs, PathObjs, Confined;
      ghost var m := memory;
      InMemory(m0, m, ptr, t, s, Objs(f) + PathObjs(p), E());
      copy := CopyOver(node, s, child);
      ClimbOver(m0, m, memory, ptr, t, s, copy, f, p, E());
      q := SAppend(p, SUp(s, copy, Kid(t, Opposite(s)), STop));
    }

    /** The path down to a key is copied: `root` is its last node, `r` the tree
        and the path that it leaves at the focus. */
    ghost predicate Copied(m0: Memory, t: Shape, root: Node?, f: Shape, p: Spine, r: (Tree, Path))
      reads this`rid, this`primary, this`memory, this`owned, this`freshNodes, this`emptied, memory.Keys
    {
      && root != null && f.SNode? && root == RootObj(p, f.obj)
      && Confined(m0, memory, t, Objs(f) + PathObjs(p)) && Here(f, p) == Some(r)
    }

    /** Copies the path down to where `key` belongs and adds a red node there, or
        does nothing if the key exists. */
    method InsertRecursive(key: Key, val: Val, node: Node?, ghost t: Shape, ghost ptr: NodePtr)
      returns (root: Node?, path: seq<Node?>, ghost f: Shape, ghost p: Spine)
      requires Views(ptr, t).Some? && node == Obj(t)
      modifies this`memory, this`owned, this`freshNodes, owned
      ensures old(owned) <= owned && fresh(owned - old(owned))
      ensures Synced() && (root == null <==> Has(old(Views(ptr, t)).value, key))
      ensures root == null ==> memory == old(memory) && owned == old(owned) && freshNodes == old(freshNodes)
      ensures root != null ==>
        && Copied(old(memory), t, root, f, p,
                  (Trees.Node(Fresh, true, key, val, Nil, Nil), Descend(old(Views(ptr, t)).value, key, Top).1))
        && path == [f.obj] + Deque(p)
      decreases t
    {
      hide Synced, View, PathView, See, Objs, PathObjs, Confined, Append, SAppend, Less, Frame;
      ghost var m, a := memory, Views(ptr, t).value;
      ViewNode(m, ptr, t, E());
      if node == null {
        root := Allocate(Cell(NIL_PTR, NIL_PTR, key, val, true, rid, false));
        path, f, p := [root], SNode(root, SNil, SNil), STop;
        NewLeaf(m, root, memory[root], t, E());
        return;
      }
      ViewCell(m, ptr, t, E());
      Holding(node);
      if key == node.key {
        root, path, f, p := null, [], t, STop;
      } else {
        var s := if Less(key, node.key) then L else R;
        ViewKid(m, ptr, t, s, E());
        ViewNode(m, node.Ptr(s), Kid(t, s), E());
        DescendStep(a, key, s);
        root, path, f, p := InsertRecursive(key, val, node.Ptr(s).ref, Kid(t, s), node.Ptr(s));
        if root != null {
          root, p := Climb(node, s, root, m, t, ptr, f, p);
          path := path + [root];
        }
      }
    }

    /** Copies the path down to `key`, or does nothing if there is no such key or
        its node is own already. */
    method CopyRecursive(key: Key, node: Node?, ghost t: Shape, ghost ptr: NodePtr)
      returns (root: Node?, ghost f: Shape, ghost p: Spine)
      requires Views(ptr, t).Some? && node == Obj(t)
      modifies this`memory, this`owned, this`freshNodes, owned
      ensures old(owned) <= owned && fresh(owned - old(owned))
      ensures Synced()
      ensures var g := Descend(old(Views(ptr, t)).value, key, Top).0; root != null <==> g.Node? && g.where.At?
      ensures root == null ==> memory == old(memory) && owned == old(owned) && freshNodes == old(freshNodes)
      ensures root != null ==>
        var (g, q) := Descend(old(Views(ptr, t)).value, key, Top); Copied(old(memory), t, root, f, p, (Own(g), q))
      decreases t
    {
      hide Synced, View, PathView, See, Objs, PathObjs, Confined, Append, SAppend, Less, Frame;
      ghost var m, a := memory, Views(ptr, t).value;
      ViewNode(m, ptr, t, E());
      root, f, p := null, t, STop;
      if node == null {
        return;
      }
      ViewCell(m, ptr, t, E());
      Holding(node);
      if key == node.key {
        if node.rid != rid {
          root := Copy(node);
          f := t.(obj := root);
          OwnedRoot(m, ptr, t, root, E());
        }
      } else {
        var s := if Less(key, node.key) then L else R;
        ViewKid(m, ptr, t, s, E());
        ViewNode(m, node.Ptr(s), Kid(t, s), E());
        DescendStep(a, key, s);
        root, f, p := CopyRecursive(key, node.Ptr(s).ref, Kid(t, s), node.Ptr(s));
        if root != null {
          root, p := Climb(node, s, root, m, t, ptr, f, p);
        }
      }
    }

    /** Copies the path down to `key`, or does nothing if there is no such key. */
    method DeleteRecursive(key: Key, node: Node?, ghost t: Shape, ghost ptr: NodePtr)
      returns (root: Node?, path: seq<Node?>, ghost f: Shape, ghost p: Spine)
      requires Views(ptr, t).Some? && node == Obj(t)
      modifies this`memory, this`owned, this`freshNodes, owned
      ensures old(owned) <= owned && fresh(owned - old(owned))
      ensures Synced() && (root == null <==> !Has(old(Views(ptr, t)).value, key))
      ensures root == null ==> memory == old(memory) && owned == old(owned) && freshNodes == old(freshNodes)
      ensures root != null ==>
        var (g, q) := Descend(old(Views(ptr, t)).value, key, Top);
        Copied(old(memory), t, root, f, p, (Own(g), q)) && path == [f.obj] + Deque(p)
      decreases t
    {
      hide Synced, View, PathView, See, Objs, PathObjs, Confined, Append, SAppend, Less, Frame, Mark, Denoted;
      ghost var m, a := memory, Views(ptr, t).value;
      ViewNode(m, ptr, t, E());
      if node == null {
        root, path, f, p := null, [], t, STop;
        return;
      }
      ViewCell(m, ptr, t, E());
      Holding(node);
      if key == node.key {
        root := OwnNode(node);
        path, f, p := [root], t.(obj := root), STop;
        OwnedRoot(m, ptr, t, root, E());
      } else {
        var s := if Less(key, node.key) then L else R;
        ViewKid(m, ptr, t, s, E());
        ViewNode(m, node.Ptr(s), Kid(t, s), E());
        DescendStep(a, key, s);
        root, path, f, p := DeleteRecursive(key, node.Ptr(s).ref, Kid(t, s), node.Ptr(s));
        if root != null {
          root, p := Climb(node, s, root, m, t, ptr, f, p);
          path := path + [root];
        }
      }
    }

    // ---------------------------------------------------------------- Delete

    /** One step of the walk to the leftmost node: the left child is made
        writable and becomes the focus. */
    method NextMin(node: Node, ghost m0: Memory, ghost t: Shape, ghost f: Shape, ghost p: Spine)
      returns (kid: Node, ghost g: Shape, ghost q: Spine)
      requires Here(f, p).Some? && f.SNode? && node == f.obj && Kid(f, L).SNode?
      requires Confined(m0, memory, t, Objs(f) + PathObjs(p))
      modifies this`memory, this`owned, this`freshNodes, owned
      ensures old(owned) <= owned && fresh(owned - old(owned))
      ensures g.SNode? && g.obj == kid && Deque(q) == [node] + Deque(p) && RootObj(q, kid) == RootObj(p, node)
      ensures Confined(m0, memory, t, Objs(g) + PathObjs(q))
      ensures Here(g, q) ==
        Some((Own(old(Here(f, p)).value.0.left),
              Frame(old(Here(f, p)).value.0, L, old(Here(f, p)).value.1)))
    {
      hide Synced, View, PathView, See, Objs, PathObjs, Confined;
      ghost var m, h := memory, f;
      FocusKid(m, f, p, L, E());
      OwnedKid(m, f, p, L, E());
      Holding(node);
      kid := node.left.ref;
      Holding(kid);
      if kid.rid != rid {
        kid := CopyKid(node, L, kid);
        Relinks.OwnKid(m, f, L, kid, p, E());
        h := WithKid(f, L, Kid(f, L).(obj := kid));
        ConfinedKid(m0, m, memory, t, f, kid, p);
      }
      GoDown(memory, h, L, p, E());
      g, q := Kid(h, L), SDown(h, L, p);
      DownObjs(h, L, p);
    }

    /** On the way to the leftmost node: from here the walk ends in `result`. */
    ghost predicate Walking(node: Node, f: Shape, p: Spine, m0: Memory, t: Shape, result: (Tree, Path))
      reads this`rid, this`primary, this`memory, this`owned, this`freshNodes, this`emptied, memory.Keys
    {
      && f.SNode? && f.obj == node && Here(f, p).Some? && IsFresh(Here(f, p).value.0)
      && MinFrom(Here(f, p).value.0, Here(f, p).value.1) == result
      && Confined(m0, memory, t, Objs(f) + PathObjs(p))
    }

    /** Walks down to the leftmost node below `node`. */
    method BuildMinPath(node: Node, path: seq<Node?>, ghost t: Shape)
      returns (node': Node, path': seq<Node?>, ghost f: Shape, ghost p: Spine)
      requires Here(t, STop).Some? && t.SNode? && node == t.obj
      modifies this`memory, this`owned, this`freshNodes, owned
      ensures old(owned) <= owned && fresh(owned - old(owned))
      ensures f.SNode? && f.obj == node' && path' == Deque(p) + path && RootObj(p, node') == node
      ensures Confined(old(memory), memory, t, Objs(f) + PathObjs(p))
      ensures Here(f, p) == Some(OwnMin(old(Here(t, STop)).value.0))
      ensures f.left.SNil?
    {
      hide Synced, View, PathView, See, Confined, MinFrom, Objs, PathObjs;
      node', path', f, p := node, path, t, STop;
      ghost var a := Here(t, STop).value.0;
      FocusKid(memory, t, STop, L, E());
      OwnMinStart(a);
      ConfinedSelf(memory, t);
      Holding(node');
      while node'.left.ref != null
        invariant old(owned) <= owned && fresh(owned - old(owned))
        invariant path' == Deque(p) + path && RootObj(p, node') == node
        invariant Walking(node', f, p, old(memory), t, OwnMin(a))
        invariant node'.left.ref == null <==> Here(f, p).value.0.left.Nil?
        invariant f.left.SNode? <==> Here(f, p).value.0.left.Node?
        decreases LeftLength(Here(f, p).value.0)
      {
        MinFromStep(Here(f, p).value.0, Here(f, p).value.1);
        path' := [node'] + path';
        node', f, p := NextMin(node', old(memory), t, f, p);
        FocusKid(memory, f, p, L, E());
        Holding(node');
      }
      MinFromEnd(Here(f, p).value.0, Here(f, p).value.1);
    }

    /** Makes the right child of the focus `temp` writable and finds the leftmost
        node below it. The path to `temp` stays what it is. */
    method TakeMin(temp: Node, path: seq<Node?>, ghost f: Shape, ghost p: Spine)
      returns (removed: Node, path': seq<Node?>, ghost g: Shape, ghost q: Spine)
      requires Here(f, p).Some? && f.SNode? && temp == f.obj && f.right.SNode?
      modifies this`memory, this`owned, this`freshNodes, owned
      ensures old(owned) <= owned && fresh(owned - old(owned))
      ensures g.SNode? && g.obj == removed && g.left.SNil? && path' == Deque(q) + path
      ensures Here(g, q) == Some(OwnMin(Own(old(Here(f, p)).value.0.right)))
      ensures Above(SDown(f, R, p), RootObj(q, removed)) ==
        Some(Frame(old(Here(f, p)).value.0, R, old(Here(f, p)).value.1))
      ensures Objs(g) + PathObjs(q) !! PathObjs(SDown(f, R, p))
    {
      hide Synced, View, PathView, See, Confined, Objs, PathObjs, OwnMin;
      ghost var a, up := Here(f, p).value.0, Here(f, p).value.1;
      var kid;
      ghost var h;
      FocusKid(memory, f, p, R, E());
      kid, h := OwnKid(temp, R, f, p);
      GoDown(memory, h, R, p, E());
      ghost var m, base := memory, SDown(h, R, p);
      SubTree(m, h.right, base, E());
      removed, path', g, q := BuildMinPath(kid, path, h.right);
      BaseFrame(m, memory, h.right, base, g, q, E());
    }

    /** Moves key and value out of `other`; what is left behind there is
        unspecified. */
    method StealPayload(n: Node, other: Node) returns (ghost k: Key, ghost v: Val)
      requires Synced() && n in owned && other in owned && n != other
      modifies this`memory, n, other
      ensures Synced()
      ensures memory ==
        var m := old(memory)[n := old(memory)[n].(key := old(memory)[other].key, val := old(memory)[other].val)];
        m[other := m[other].(key := k, val := v)]
    {
      SetPayload(n, other.key, other.val);
      var moved: Key, left: Val := *, *;
      SetPayload(other, moved, left);
      k, v := moved, left;
    }

    /** The node `temp` of the path gets the payload of the focus `removed`. */
    method StealForPath(temp: Node, removed: Node, ghost s: Side, ghost sib: Shape, ghost up: Spine, ghost f: Shape, ghost p: Spine)
      returns (ghost k: Key, ghost v: Val)
      requires Here(f, p).Some? && f.SNode? && removed == f.obj
      requires Above(SUp(s, temp, sib, up), RootObj(p, removed)).Some?
      requires Objs(f) + PathObjs(p) !! PathObjs(SUp(s, temp, sib, up))
      modifies this`memory, owned
      ensures Here(f, p) == Some((old(Here(f, p)).value.0.(key := k, val := v), old(Here(f, p)).value.1))
      ensures var a, q := old(Here(f, p)).value.0, old(Above(SUp(s, temp, sib, up), RootObj(p, removed))).value;
        q.Up? && Above(SUp(s, temp, sib, up), RootObj(p, removed)) == Some(q.(key := a.key, val := a.val))
    {
      hide Synced, View, PathView, See, Objs, PathObjs;
      ghost var m := memory;
      FocusKid(m, f, p, L, E());
      PathCell(m, SUp(s, temp, sib, up), RootObj(p, removed), E());
      FocusIn(f);
      Holding(temp);
      Holding(removed);
      k, v := StealPayload(temp, removed);
      StolenPayload(m, memory, f, p, SUp(s, temp, sib, up), k, v, E());
    }

    /** Removes a node with two children: it gets the payload of the leftmost node
        to its right, which is taken out in its stead. */
    method RemoveInner(temp: Node, path: seq<Node?>, root: Node?, ghost f: Shape, ghost p: Spine, ghost h: nat)
      returns (root': Node?, ghost v: Shape)
      requires Here(f, p).Some? && f.SNode? && temp == f.obj && f.right.SNode?
      requires path == Deque(p) + [null] && root == RootObj(p, temp)
      requires RemoveReady(Here(f, p).value.0, Here(f, p).value.1, h)
      requires Here(f, p).value.0.left.Node? && Here(f, p).value.0.right.Node?
      modifies this`memory, this`emptied, this`owned, this`freshNodes, owned
      ensures old(owned) <= owned && fresh(owned - old(owned))
      ensures emptied == (old(emptied) || root' == null)
      ensures root' == Obj(v)
      ensures Here(v, STop) == Some((Remove(old(Here(f, p)).value.0, old(Here(f, p)).value.1), Top))
    {
      hide Synced, View, PathView, See, Objs, PathObjs, OwnMin, Splice, Remove, SpliceReady, RemoveReady;
      ghost var (a, up) := Here(f, p).value;
      var removed, path';
      ghost var g, q, k, w;
      removed, path', g, q := TakeMin(temp, [temp] + path, f, p);
      k, w := StealForPath(temp, removed, R, f.left, p, g, q);
      ghost var h' := RemoveInnerFacts(a, up, h, k, w);
      SeeAppend(memory, g, q, SDown(f, R, p), E());
      FocusKid(memory, g, q, R, E());
      Holding(removed);
      root', v := SpliceOut(removed, removed.right.ref, path', root, R, g, SAppend(q, SDown(f, R, p)), h');
    }

    /** Removes the focus of a copied path. */
    method RemoveNode(removed: Node, path: seq<Node?>, root: Node?, ghost f: Shape, ghost p: Spine, ghost h: nat)
      returns (root': Node?, ghost v: Shape)
      requires Here(f, p).Some? && f.SNode? && removed == f.obj
      requires path == Deque(p) + [null] && root == RootObj(p, removed)
      requires RemoveReady(Here(f, p).value.0, Here(f, p).value.1, h)
      modifies this`memory, this`emptied, this`owned, this`freshNodes, owned
      ensures old(owned) <= owned && fresh(owned - old(owned))
      ensures emptied == (old(emptied) || root' == null)
      ensures root' == Obj(v)
      ensures Here(v, STop) == Some((Remove(old(Here(f, p)).value.0, old(Here(f, p)).value.1), Top))
    {
      hide Synced, View, PathView, See, Objs, PathObjs, Splice, RB, PathRB;
      FocusKid(memory, f, p, L, E());
      FocusKid(memory, f, p, R, E());
      Holding(removed);
      if removed.left.ref == null {
        root', v := SpliceOut(removed, removed.right.ref, path, root, R, f, p, h);
      } else if removed.right.ref == null {
        root', v := SpliceOut(removed, removed.left.ref, path, root, L, f, p, h);
      } else {
        root', v := RemoveInner(removed, path, root, f, p, h);
      }
    }

    // ------------------------------------------------------------------- Put

    /** The variables of the loop that rebalances an insertion: the red node
        `nn`, its parent, the rest of the path, and the root. */
    ghost predicate AtNew(nn: Node?, parent: Node?, path: seq<Node?>, root: Node?, f: Shape, p: Spine, h: nat, result: Tree)
      reads this`rid, this`primary, this`memory, this`owned, this`freshNodes, this`emptied, memory.Keys
    {
      && f.SNode? && nn == f.obj && parent == PathObj(p) && root == RootObj(p, nn)
      && (p.SUp? ==> path == Deque(p.up) + [null])
      && Here(f, p).Some? && InsertReady(Here(f, p).value.0, Here(f, p).value.1, h)
      && InsertFix(Here(f, p).value.0, Here(f, p).value.1) == result
    }

    /** All is done but for the colour of the root. */
    ghost predicate Inserted(root: Node?, f: Shape, p: Spine, result: Tree)
      reads this`rid, this`primary, this`memory, this`owned, this`freshNodes, this`emptied, memory.Keys
    {
      && f.SNode? && root == RootObj(p, f.obj)
      && Here(f, p).Some? && Blacken(Zip(Here(f, p).value.0, Here(f, p).value.1)) == result
    }

    /** The uncle is red: grandparent, parent and uncle change colour. */
    method Recolour(grand: Node, parent: Node, d: Side, ghost f: Shape, ghost p: Spine) returns (ghost g: Shape)
      requires Here(f, p).Some? && f.SNode? && grand == f.obj && Kid(f, Opposite(d)).SNode?
      requires Kid(f, d).SNode? && parent == Kid(f, d).obj && IsFresh(Child(Here(f, p).value.0, d))
      modifies this`memory, this`owned, this`freshNodes, owned
      ensures old(owned) <= owned && fresh(owned - old(owned))
      ensures g.SNode? && g.obj == grand
      ensures Here(g, p) == Some((Recoloured(old(Here(f, p)).value.0, d), old(Here(f, p)).value.1))
    {
      hide Synced, View, PathView, See, Objs, PathObjs;
      FocusKid(memory, f, p, d, E());
      FocusKid(memory, f, p, Opposite(d), E());
      var uncle;
      uncle, g := OwnKid(grand, Opposite(d), f, p);
      PaintKid(parent, false, d, g, p);
      PaintKid(uncle, false, Opposite(d), g, p);
      Paint(grand, true, g, p);
    }

    /** An inner grandchild is rotated outwards first. */
    method TurnOut(grand: Node, parent: Node, nn: Node, d: Side, root: Node?, ghost f: Shape, ghost p: Spine)
      returns (parent': Node, nn': Node, ghost g: Shape)
      requires Here(f, p).Some? && f.SNode? && grand == f.obj && root == RootObj(p, grand)
      requires Kid(f, d).SNode? && parent == Kid(f, d).obj && IsFresh(Child(Here(f, p).value.0, d))
      requires Kid(Kid(f, d), Opposite(d)).SNode? && nn == Kid(Kid(f, d), Opposite(d)).obj
      requires IsFresh(Child(Child(Here(f, p).value.0, d), Opposite(d)))
      modifies this`memory, owned
      ensures g.SNode? && g.obj == grand && Kid(g, d).SNode? && Kid(g, d).obj == parent'
      ensures Here(g, p) == Some((TurnedOut(old(Here(f, p)).value.0, d), old(Here(f, p)).value.1))
    {
      hide Synced, View, PathView, See, Objs, PathObjs;
      ghost var b;
      var root';
      FocusKid(memory, f, p, d, E());
      nn', parent' := parent, nn;
      GoDown(memory, f, d, p, E());
      parent', root', b := RotateFocus(grand, nn', d, root, Kid(f, d), SDown(f, d, p));
      Ascend(memory, b, SDown(f, d, p), E());
      g := SJoin(d, grand, b, Kid(f, Opposite(d)));
    }

    /** The parent takes the place of the grandparent, which turns red. */
    method TurnUp(grand: Node, parent: Node, d: Side, great: Node?, root: Node?, ghost f: Shape, ghost p: Spine)
      returns (root': Node?, ghost g: Shape)
      requires Here(f, p).Some? && f.SNode? && grand == f.obj
      requires great == PathObj(p) && root == RootObj(p, grand)
      requires Kid(f, d).SNode? && parent == Kid(f, d).obj && IsFresh(Child(Here(f, p).value.0, d))
      modifies this`memory, owned
      ensures g.SNode? && g.obj == parent && root' == RootObj(p, parent)
      ensures Here(g, p) == Some((TurnedUp(old(Here(f, p)).value.0, d), old(Here(f, p)).value.1))
    {
      hide Synced, View, PathView, See, Objs, PathObjs;
      FocusKid(memory, f, p, d, E());
      var top;
      SwapColor(grand, parent, d, f, p);
      top, root', g := RotateFocus(great, grand, Opposite(d), root, f, p);
    }

    /** The uncle is black: one or two rotations and the tree is balanced. */
    method RotateInsert(nn: Node, parent: Node, s: Side, d: Side, path: seq<Node?>, root: Node?,
                        ghost f: Shape, ghost p: Spine, ghost h: nat, ghost t: Tree)
      returns (parent': Node, root': Node?, ghost g: Shape)
      requires AtNew(nn, parent, path, root, f, p, h, t) && p.SUp? && p.up.SUp? && p.side == s && p.up.side == d
      requires var q := Here(f, p).value.1; q.Up? && q.red && q.up.Up? && !IsRed(q.up.sib)
      modifies this`memory, this`owned, this`freshNodes, owned
      ensures old(owned) <= owned && fresh(owned - old(owned))
      ensures g.SNode? && Inserted(root', g, p.up.up, t) && g.obj == parent' && !NodeIsRed(parent')
    {
      hide Synced, View, PathView, See, Objs, PathObjs, InsertFix, InsertReady, Zip, Blacken, TurnedUp, TurnedOut;
      ghost var (a, q) := Here(f, p).value;
      AscendTwice(memory, f, p, E());
      GrandOnPath(p, nn);
      InsertTurn(a, q, h);
      var grand := path[0];
      parent', g := parent, SJoin(d, grand, SJoin(s, parent, f, p.sib), p.up.sib);
      if s != d {
        var nn';
        parent', nn', g := TurnOut(grand, parent, nn, d, root, g, p.up.up);
      }
      root', g := TurnUp(grand, parent', d, path[1], root, g, p.up.up);
      FocusKid(memory, g, p.up.up, L, E());
      Holding(parent');
    }

    /** The uncle is red: the grandparent is the next red node. */
    method RecolourInsert(nn: Node, parent: Node, s: Side, d: Side, path: seq<Node?>, root: Node?,
                          ghost f: Shape, ghost p: Spine, ghost h: nat, ghost t: Tree)
      returns (nn': Node, parent': Node?, path': seq<Node?>, ghost g: Shape)
      requires AtNew(nn, parent, path, root, f, p, h, t) && p.SUp? && p.up.SUp? && p.side == s && p.up.side == d
      requires var q := Here(f, p).value.1; q.Up? && q.red && q.up.Up? && IsRed(q.up.sib)
      modifies this`memory, this`owned, this`freshNodes, owned
      ensures old(owned) <= owned && fresh(owned - old(owned))
      ensures AtNew(nn', parent', path', root, g, p.up.up, h + 1, t)
      ensures Here(g, p.up.up).value.1 == old(Here(f, p)).value.1.up.up
    {
      hide Synced, View, PathView, See, Objs, PathObjs, InsertFix, InsertReady, Recoloured;
      ghost var (a, q) := Here(f, p).value;
      AscendTwice(memory, f, p, E());
      GrandOnPath(p, nn);
      InsertRecolour(a, q, h);
      var grand := path[0];
      g := SJoin(d, grand, SJoin(s, parent, f, p.sib), p.up.sib);
      FocusKid(memory, g, p.up.up, Opposite(d), E());
      g := Recolour(grand, parent, d, g, p.up.up);
      nn', parent', path' := grand, path[1], path[2..];
    }

    method InsertBalance(nn: Node, parent: Node, s: Side, d: Side, path: seq<Node?>, root: Node?,
                         ghost f: Shape, ghost p: Spine, ghost h: nat, ghost t: Tree)
      returns (nn': Node, parent': Node?, path': seq<Node?>, root': Node?, ghost g: Shape, ghost q: Spine, ghost done: bool)
      requires AtNew(nn, parent, path, root, f, p, h, t) && p.SUp? && p.up.SUp? && p.side == s && p.up.side == d
      requires Here(f, p).value.1.Up? && Here(f, p).value.1.red
      modifies this`memory, this`owned, this`freshNodes, owned
      ensures old(owned) <= owned && fresh(owned - old(owned))
      ensures !done ==> AtNew(nn', parent', path', root', g, q, h + 1, t)
      ensures !done ==> Length(Here(g, q).value.1) < old(Length(Here(f, p).value.1))
      ensures done ==> Inserted(root', g, q, t) && !NodeIsRed(parent')
    {
      hide Synced, View, PathView, See, Objs, PathObjs, InsertFix, InsertReady;
      SideOfParent(memory, f, p, E());
      var grand := path[0];
      Holding(grand);
      var uncle := grand.Ptr(Opposite(d)).ref;
      if uncle != null {
        Holding(uncle);
      }
      done, q := !NodeIsRed(uncle), p.up.up;
      if NodeIsRed(uncle) {
        nn', parent', path', g := RecolourInsert(nn, parent, s, d, path, root, f, p, h, t);
        root' := root;
      } else {
        parent', root', g := RotateInsert(nn, parent, s, d, path, root, f, p, h, t);
        nn', path' := nn, path[1..];
      }
    }

    /** Rebalances after an insertion. */
    method BalanceInsert(nn: Node, path: seq<Node?>, root: Node?, ghost f: Shape, ghost p: Spine, ghost h: nat, ghost t: Tree)
      returns (root': Node?, ghost v: Shape)
      requires path == Deque(p) + [null] && AtNew(nn, PathObj(p), path[1..], root, f, p, h, t)
      modifies this`memory, this`owned, this`freshNodes, owned
      ensures old(owned) <= owned && fresh(owned - old(owned))
      ensures root' != null && root' == Obj(v) && Here(v, STop) == Some((t, Top))
    {
      hide Synced, View, PathView, See, Objs, PathObjs, InsertFix, InsertReady;
      var nn', parent, path' := nn, path[0], path[1..];
      ghost var g, q, j, done := f, p, h, false;
      root' := root;
      while NodeIsRed(parent)
        invariant old(owned) <= owned && fresh(owned - old(owned))
        invariant !done ==> AtNew(nn', parent, path', root', g, q, j, t)
        invariant done ==> Inserted(root', g, q, t) && !NodeIsRed(parent)
        decreases if done then 0 else 1 + Length(Here(g, q).value.1)
      {
        SideOfParent(memory, g, q, E());
        Holding(parent);
        RedParent(memory, g, q, j, E());
        Holding(path'[0]);
        var grand := path'[0];
        assert grand.Ptr(L) == memory[grand].Ptr(L);
        var s := if parent.left.ref == nn' then L else R;
        SideOfNew(memory, g, q, E());
        assert parent.Ptr(L) == memory[parent].Ptr(L);
        if grand.left.ref == parent {
          nn', parent, path', root', g, q, done := InsertBalance(nn', parent, s, L, path', root', g, q, j, t);
        } else {
          nn', parent, path', root', g, q, done := InsertBalance(nn', parent, s, R, path', root', g, q, j, t);
        }
        j := j + 1;
      }
      if !done {
        FocusKid(memory, g, q, L, E());
        if parent != null {
          SideOfParent(memory, g, q, E());
          Holding(parent);
        }
        InsertDone(Here(g, q).value.0, Here(g, q).value.1);
      }
      ZipFacts(memory, g, q, E());
      RootObjFacts(q, g.obj);
      v := SZip(g, q);
      FocusKid(memory, v, STop, L, E());
      Paint(root', false, v, STop);
    }

    // ------------------------------------------------------ the tree as a whole

    /** The changed tree, or the snapshot while there are no changes. */
    function Base(): NodePtr
      reads this`root, this`srcRoot
    {
      if root.Some? then NodePtr(root.value, None) else srcRoot
    }

    ghost predicate Valid()
      reads this, memory.Keys
    {
      Views(Base(), shape).Some? && ValidTree(Views(Base(), shape).value) && Layered(Views(Base(), shape).value)
    }

    /** The tree value that the objects stand for. */
    ghost function Tree(): Tree
      requires Valid()
      reads this, memory.Keys
    {
      Views(Base(), shape).value
    }

    /** What the nodes hold, and whose they are. */
    lemma Members()
      requires Valid()
      ensures forall n | n in memory :: n.Holds(memory[n]) && memory[n].rid in others + {rid}
    {
      hide View, ValidTree, Layered;
    }

    /** A tree over the snapshot `src`, the nodes of which are in `m`. */
    constructor (src: NodePtr, rid: int, ghost primary: map<nat, nat>, ghost others: set<int>, ghost m: Memory, ghost t: Shape)
      requires rid !in others && (forall n | n in m :: n.Holds(m[n]) && m[n].rid in others)
      requires View(m, src, t, Env(rid, primary)).Some?
      requires ValidTree(View(m, src, t, Env(rid, primary)).value) && Old(View(m, src, t, Env(rid, primary)).value)
      ensures Valid() && Tree() == View(m, src, t, Env(rid, primary)).value
      ensures ReadOnly() && !emptied && owned == {} && this.rid == rid && this.primary == primary
      ensures this.others == others && foreign == m.Keys
    {
      srcRoot, root, this.rid, freshNodes := src, None, rid, [];
      this.primary, this.others, memory, owned, emptied, shape := primary, others, m, {}, false, t;
      foreign := m.Keys;
    }

    predicate ReadOnly()
      reads this`root
    {
      root.None?
    }

    /** Looks a key up. */
    method Get(key: Key) returns (r: Option<Val>)
      requires Valid()
      ensures r == if key in Contents(Tree()) then Some(Contents(Tree())[key]) else None
    {
      hide Synced, View, Objs;
      GetCorrect(Tree(), key);
      var cur := Base().ref;
      ghost var ptr, t, a := Base(), shape, Tree();
      ViewNode(memory, ptr, t, E());
      while cur != null
        invariant Views(ptr, t) == Some(a) && cur == Obj(t) && cur == ptr.ref
        invariant GetT(a, key) == GetT(Tree(), key)
        decreases t
      {
        ViewCell(memory, ptr, t, E());
        Holding(cur);
        if key == cur.key {
          return Some(cur.val);
        }
        var s := if Less(key, cur.key) then L else R;
        ViewKid(memory, ptr, t, s, E());
        ptr, cur, t, a := cur.Ptr(s), cur.Ptr(s).ref, Kid(t, s), Child(a, s);
        ViewNode(memory, ptr, t, E());
      }
      ViewNode(memory, ptr, t, E());
      return None;
    }

    /** Removes a key; nothing changes if there is no such key. */
    method Delete(key: Key)
      requires Valid()
      modifies this`root, this`emptied, this`memory, this`owned, this`freshNodes, this`shape, owned
      ensures old(owned) <= owned && fresh(owned - old(owned))
      ensures Valid() && Tree() == DeleteT(old(Tree()), key)
      ensures Contents(Tree()) == old(Contents(Tree())) - {key}
      ensures emptied == (old(emptied) || (key in old(Contents(Tree())) && Tree().Nil?))
      ensures key in old(Contents(Tree())) ==> root.Some?
      ensures key !in old(Contents(Tree())) ==> root == old(root) && freshNodes == old(freshNodes)
    {
      hide View, PathView, See, Synced, ValidTree, Layered, DeleteT, Remove, RemoveReady, Descend, Contents, Less;
      hide BlackHeight, Confined, Has, Objs, PathObjs;
      hide Deque, RootObj, Own;
      ghost var t := Tree();
      DeleteCorrect(t, key);
      LayeredDelete(t, key);
      ViewNode(memory, Base(), shape, E());
      var newRoot, path;
      ghost var f, p;
      newRoot, path, f, p := DeleteRecursive(key, Base().ref, shape, Base());
      if newRoot == null {
        return;
      }
      ghost var h := DeleteFacts(t, key);
      path := path + [null];
      newRoot, shape := RemoveNode(path[0], path[1..], newRoot, f, p, h);
      root := Some(newRoot);
      SeeView(memory, shape, E());
      ViewNode(memory, Base(), shape, E());
    }

    /** The end of an insertion: rebalances and installs the new root. */
    method Install(path: seq<Node?>, newRoot: Node?, ghost f: Shape, ghost p: Spine, ghost h: nat, ghost t: Tree)
      requires Here(f, p).Some? && f.SNode? && path == [f.obj] + Deque(p) && newRoot == RootObj(p, f.obj)
      requires InsertReady(Here(f, p).value.0, Here(f, p).value.1, h)
      requires InsertFix(Here(f, p).value.0, Here(f, p).value.1) == t
      modifies this`root, this`memory, this`owned, this`freshNodes, this`shape, owned
      ensures old(owned) <= owned && fresh(owned - old(owned))
      ensures Views(Base(), shape) == Some(t) && root.Some? && root.value != null
    {
      hide View, PathView, See, Synced, InsertReady, InsertFix;
      var path', newRoot' := path + [null], newRoot;
      newRoot', shape := BalanceInsert(path'[0], path'[1..], newRoot, f, p, h, t);
      root := Some(newRoot');
      SeeView(memory, shape, E());
    }

    /** Adds a key, or replaces its value by removing the key first. */
    method Put(key: Key, val: Val)
      requires Valid()
      modifies this`root, this`emptied, this`memory, this`owned, this`freshNodes, this`shape, owned
      ensures old(owned) <= owned && fresh(owned - old(owned))
      ensures emptied == (old(emptied) || (DeleteT(old(Tree()), key).Nil? && key in old(Contents(Tree()))))
      ensures Valid() && Tree() == PutT(old(Tree()), key, val) && root.Some? && root.value != null
      ensures Contents(Tree()) == old(Contents(Tree()))[key := val]
    {
      hide View, PathView, See, Synced, Here, ValidTree, Layered, PutT, Has, InsertReady, InsertFix, Descend, DeleteT;
      hide Contents, Confined, Deque;
      ghost var t := Tree();
      PutCorrect(t, key, val);
      DeleteCorrect(t, key);
      LayeredPut(t, key, val);
      ViewNode(memory, Base(), shape, E());
      var newRoot, path;
      ghost var f, p;
      newRoot, path, f, p := InsertRecursive(key, val, Base().ref, shape, Base());
      if newRoot == null {
        Delete(key);
        ViewNode(memory, Base(), shape, E());
        DeleteHas(t, key);
        newRoot, path, f, p := InsertRecursive(key, val, Base().ref, shape, Base());
      }
      ghost var h := PutFacts(t, key, val);
      Install(path, newRoot, f, p, h, PutT(t, key, val));
    }

    /** Gives the tree its own copy of the path to a key: all nodes that the search comes
        along are own ones then. For a key that is not there it does nothing. */
    method CopyPath(key: Key)
      requires Valid()
      modifies this`root, this`memory, this`owned, this`freshNodes, this`shape, owned
      ensures old(owned) <= owned && fresh(owned - old(owned))
      ensures Valid() && Tree() == CopyT(old(Tree()), key)
      ensures SameShape(Tree(), old(Tree())) && Contents(Tree()) == old(Contents(Tree()))
      ensures key in old(Contents(Tree())) ==> Refreshed(Tree(), old(Tree()), key)
      ensures key in old(Contents(Tree())) ==>
        var ns := OnPath(memory, shape, key);
        && (forall n | n in ns :: n in owned && n in memory)
        && ns != [] && memory[ns[|ns| - 1]].key == key
      ensures key !in old(Contents(Tree())) ==> Tree() == old(Tree())
    {
      hide *;
      ghost var t := Tree();
      Parts();
      CopyExactly(t, key);
      CopyCorrect(t, key);
      Refresh(key);
      Parts();
      if key in Contents(t) {
        PathOwn(memory, Base(), shape, CopyT(t, key), t, key, E());
        OwnedByRid();
      }
    }

    lemma Parts()
      requires Valid()
      ensures Synced() && ValidTree(Tree()) && Layered(Tree()) && View(memory, Base(), shape, E()) == Some(Tree()) && E().rid == rid
    {
      hide View, ValidTree, Layered;
    }

    method Refresh(key: Key)
      requires Valid()
      modifies this`root, this`memory, this`owned, this`freshNodes, this`shape, owned
      ensures old(owned) <= owned && fresh(owned - old(owned))
      ensures Valid() && Tree() == CopyT(old(Tree()), key)
    {
      hide View, PathView, Synced, ValidTree, Layered, Descend, SameShape, Contents;
      ghost var t := Tree();
      CopyCorrect(t, key);
      LayeredCopy(t, key);
      ViewNode(memory, Base(), shape, E());
      var newRoot;
      ghost var f, p;
      newRoot, f, p := CopyRecursive(key, Base().ref, shape, Base());
      if newRoot != null {
        ZipFacts(memory, f, p, E());
        shape := SZip(f, p);
        root := Some(newRoot);
        SeeView(memory, shape, E());
      }
    }

    // ------------------------------------------------- addresses for the delta

    /** A pointer to an own node gets the address of that node. A stale address
        that was copied along with an older pointer is overwritten. */
    method InfectNodePtr(n: Node, s: Side, i: nat, off: int)
      requires Synced() && n in owned && n in memory && OffsetKnown(memory, memory[n].Ptr(s), rid, off)
      modifies this`memory, n
      ensures Synced()
      ensures memory == old(memory)[n := old(memory)[n].SetPtr(s, Addressed(old(memory), old(memory)[n].Ptr(s), rid, i, off))]
    {
      hide Synced;
      Holding(n);
      var ref := n.Ptr(s).ref;
      assert memory[n].Ptr(s) == n.Ptr(s) && memory[n].SetPtr(s, memory[n].Ptr(s)) == memory[n];
      if ref != null {
        Holding(ref);
        if ref.rid == rid {
          SetPtr(n, s, NodePtr(ref, Some(NodeAddress(i, Short(off), false))));
        }
      }
    }

    method InfectNode(n: Node, i: nat, leftOff: int, rightOff: int)
      requires Synced() && n in owned && n in memory
      requires OffsetKnown(memory, memory[n].left, rid, leftOff) && OffsetKnown(memory, memory[n].right, rid, rightOff)
      modifies this`memory, n
      ensures Synced() && memory == old(memory)[n := Infected(old(memory), old(memory)[n], rid, i, leftOff, rightOff)]
    {
      hide Synced, Addressed, OffsetKnown;
      ghost var m := memory;
      assert m[n].Ptr(L) == m[n].left && m[n].Ptr(R) == m[n].right;
      InfectNodePtr(n, L, i, leftOff);
      assert memory[n].Ptr(R) == m[n].right;
      OffsetStays(m, memory, m[n].right, rid, rightOff);
      AddressedSame(m, memory, m[n].right, rid, i, rightOff);
      InfectNodePtr(n, R, i, rightOff);
    }

    /** After both subtrees it is the turn of the node itself. */
    method InfectTop(node: Node, i: nat, l: nat, r: nat, ghost idx: nat, ghost m: Memory, ghost m1: Memory,
                     ghost ptr: NodePtr, ghost t: Shape, ghost a: Tree, ghost f: Env)
      requires Synced() && rid == i && t.SNode? && node == t.obj && View(m, ptr, t, E()) == Some(a) && a.Node? && a.where.Fresh?
      requires Readdressed(m, m1, rid) && Readdressed(m1, memory, rid)
      requires KeptOutside(m, m1, Objs(t.left)) && KeptOutside(m1, memory, Objs(t.right))
      requires f.primary == primary && Outside(memory, f.rid) && r < OFFSETS
      requires l == Place(a.left, i, idx).1 && r == Place(a.right, i, l).1 && node in m
      requires View(m1, Addressed(m1, m[node].left, rid, i, l - 1), t.left, f) == Some(Place(a.left, i, idx).0)
      requires View(memory, Addressed(memory, m[node].right, rid, i, r - 1), t.right, f) == Some(Place(a.right, i, l).0)
      modifies this`memory, owned
      ensures Synced() && Readdressed(m, memory, rid)
      ensures KeptOutside(m, memory, Objs(t))
      ensures View(memory, Addressed(memory, ptr, rid, i, r), t, f) == Some(Place(a, i, idx).0)
    {
      hide View, Synced, Readdressed, Denoted, KeptOutside, Outside, Place, Infected, Addressed, Same, Objs;
      ghost var m2 := memory;
      TopFacts(m, m1, m2, ptr, t, a, i, idx, E());
      Holding(node);
      InfectNode(node, i, l - 1, r - 1);
      InfectedTop(m, m1, m2, ptr, t, a, i, idx, l, r, E(), f);
    }

    /** Numbers the own nodes below `node` in post-order, from `fieldIndex` on. To
        outsiders the tree is then the placed tree. */
    method InfectAfterImage(node: Node?, i: nat, fieldIndex: nat, ghost ptr: NodePtr, ghost t: Shape, ghost f: Env)
      returns (next: nat)
      requires Views(ptr, t).Some? && node == Obj(t) && rid == i && Layered(Views(ptr, t).value)
      requires f.primary == primary && Outside(memory, f.rid)
      requires fieldIndex + FreshCount(Views(ptr, t).value) <= OFFSETS
      modifies this`memory, owned
      ensures Synced() && next == Place(old(Views(ptr, t)).value, i, fieldIndex).1
      ensures Readdressed(old(memory), memory, rid)
      ensures KeptOutside(old(memory), memory, Objs(t))
      ensures View(memory, Addressed(memory, ptr, rid, i, next - 1), t, f) ==
              Some(Place(old(Views(ptr, t)).value, i, fieldIndex).0)
      decreases t
    {
      hide View, Synced, Readdressed, KeptOutside, Outside, Same, Objs, SameShape, Denoted, Place;
      ghost var m, a := memory, Views(ptr, t).value;
      ViewNode(m, ptr, t, E());
      ReaddressedSelf(m, rid);
      KeptSelf(m, Objs(t));
      next := fieldIndex;
      PlaceShared(a, i, fieldIndex);
      if node == null {
        EmptyView(m, ptr, t, f);
        return;
      }
      ViewCell(m, ptr, t, E());
      Holding(node);
      if node.rid != rid {
        ViewOutside(m, ptr, t, E(), f);
        return;
      }
      BelowNode(m, ptr, t, a, i, fieldIndex, E());
      next := InfectAfterImage(node.left.ref, i, fieldIndex, node.left, t.left, f);
      var l := next;
      ghost var m1 := memory;
      OutsideKept(m, m1, rid, f.rid);
      KeptSame(m, m1, t);
      ViewFrame(m, m1, m[node].right, t.right, E());
      Holding(node);
      next := InfectAfterImage(node.right.ref, i, next, node.right, t.right, f);
      OutsideKept(m1, memory, rid, f.rid);
      InfectTop(node, i, l, next, fieldIndex, m, m1, ptr, t, a, f);
      next := next + 1;
    }

    /** The loop over the fresh nodes: none of them is the sentinel, each is
        visited once, and each still has the rid that is expected. */
    method SetEachRid(i: nat, expectIntentionRid: bool)
      requires Synced() && !emptied && (if expectIntentionRid then rid == i else rid < 0)
      modifies this`memory, owned
      ensures memory == Rebranded(old(memory), owned, i)
      ensures forall n | n in memory :: n.Holds(memory[n])
    {
      hide Rebranded, Books, NoNodeTwice;
      ghost var m, done := memory, {};
      Listed();
      RebrandedNone(m, i);
      var k := 0;
      while k < |freshNodes|
        invariant k <= |freshNodes|
        invariant forall n | n in memory :: n.Holds(memory[n])
        invariant done <= owned && forall n | n in owned :: n in done <==> n in freshNodes[..k]
        invariant memory == Rebranded(m, done, i)
      {
        var n := freshNodes[k];
        assert n in owned && n !in freshNodes[..k];
        assert freshNodes[..k + 1] == freshNodes[..k] + [n];
        RebrandedMore(m, done, n, i);
        assert if expectIntentionRid then n.rid == i else n.rid < 0;
        n.rid := i;
        memory := memory[n := memory[n].(rid := i)];
        done := done + {n};
        k := k + 1;
      }
      assert freshNodes[..k] == freshNodes;
      assert done == owned;
    }

    /** Without the sentinel, the fresh nodes are the own nodes, each once. */
    lemma Listed()
      requires Synced() && !emptied
      ensures forall k :: 0 <= k < |freshNodes| ==> freshNodes[k] != null && freshNodes[k] in owned && freshNodes[k] !in freshNodes[..k]
      ensures forall n | n in owned :: n in freshNodes && n in memory && memory[n].rid == rid
    {
      forall k | 0 <= k < |freshNodes| ensures freshNodes[k] != null && freshNodes[k] in owned && freshNodes[k] !in freshNodes[..k] {
        assert freshNodes[k] in freshNodes;
      }
    }

    /** Hands the nodes of the tree over to the intention at position `i`, as if it
        had been built with that rid from the start. */
    method SetRids(i: nat, expectIntentionRid: bool)
      requires Synced() && !emptied && (if expectIntentionRid then rid == i else rid < 0)
      requires i !in others
      modifies this`rid, this`memory, owned
      ensures Synced() && rid == i && memory == Rebranded(old(memory), owned, i)
    {
      hide Rebranded, Books;
      BooksRebranded(memory, owned, foreign, freshNodes, rid, others, emptied, i);
      SetEachRid(i, expectIntentionRid);
      rid := i;
    }

    /** Addresses for a changed tree. */
    method InfectRoot(i: nat, ghost f: Env) returns (off: nat)
      requires Valid() && root.Some? && root.value != null && rid == i
      requires f.primary == primary && Outside(memory, f.rid) && FreshCount(Tree()) <= OFFSETS
      modifies this`memory, owned
      ensures Valid() && Tree() == old(Tree()) && off < OFFSETS && off + 1 == FreshCount(Tree())
      ensures Outside(memory, f.rid)
      ensures View(memory, NodePtr(root.value, Some(NodeAddress(i, off, false))), shape, f) == Some(Place(Tree(), i, 0).0)
    {
      hide Synced, View, ValidTree, Layered, Place, FreshCount, Outside, Readdressed, KeptOutside;
      ghost var m, a := memory, Tree();
      ViewNode(m, Base(), shape, E());
      RootFresh(m, Base(), shape, E());
      PlaceFacts(a, i, 0);
      FreshCounts(a);
      var next := InfectAfterImage(root.value, i, 0, Base(), shape, f);
      ViewReaddressed(m, memory, Base(), Base(), shape, E());
      OutsideKept(m, memory, i, f.rid);
      Holding(root.value);
      off := next - 1;
    }

    /** An unchanged tree gets a root of its own. */
    method CopyRoot()
      requires Valid() && ReadOnly()
      modifies this`root, this`memory, this`owned, this`freshNodes, this`shape, owned
      ensures old(owned) <= owned && fresh(owned - old(owned))
      ensures Valid() && root.Some? && Tree() == Own(old(Tree()))
    {
      hide View, Synced, ValidTree, Layered;
      OwnValid(Tree());
      ViewNode(memory, Base(), shape, E());
      var src := srcRoot.ref;
      if src == null {
        root := Some(null);
        EmptyView(memory, srcRoot, shape, E());
        EmptyView(memory, Base(), shape, E());
      } else {
        ghost var m := memory;
        var copy := Copy(src);
        OwnedRoot(m, srcRoot, shape, copy, E());
        root, shape := Some(copy), shape.(obj := copy);
        SeeView(memory, shape, E());
      }
    }

    /** Addresses for the whole delta: the offset of its root is returned. For the
        snapshots of others, looking on with any other rid, the tree is now the
        placed tree: every pointer to one of its nodes carries its address. A tree
        without changes just gets a root of its own, which has no address. */
    method InfectSelfPointers(i: nat, expectIntentionRid: bool, ghost f: Env) returns (off: Option<nat>)
      requires Valid() && (root.Some? ==> root.value != null) && !emptied
      requires if expectIntentionRid then rid == i else rid < 0
      requires i !in others
      requires f.primary == primary && f.rid !in others && f.rid != rid && f.rid != i && FreshCount(Tree()) <= OFFSETS
      modifies this`root, this`rid, this`memory, this`owned, this`freshNodes, this`shape, owned
      ensures old(owned) <= owned && fresh(owned - old(owned))
      ensures Valid() && rid == i && (off.None? <==> old(root).None?)
      ensures off.None? ==> Tree() == Own(old(Tree())) && root.Some?
      ensures off.Some? ==>
        && Tree() == old(Tree()) && root == old(root) && shape == old(shape) && owned == old(owned)
        && off.value < OFFSETS && off.value + 1 == FreshCount(Tree()) && Outside(memory, f.rid)
        && View(memory, NodePtr(root.value, Some(NodeAddress(i, off.value, false))), shape, f) == Some(Place(Tree(), i, 0).0)
    {
      hide Synced, View, ValidTree, Layered, Place, FreshCount, Outside, Rebranded;
      ghost var m := memory;
      OwnedByRid();
      SetRids(i, expectIntentionRid);
      ViewRebranded(m, owned, Base(), shape, Env(old(rid), primary), i);
      if root.None? {
        CopyRoot();
        return None;
      }
      OutsideRids(m, others + {old(rid)}, f.rid);
      RebrandedOutside(m, owned, i, f.rid);
      var next := InfectRoot(i, f);
      off := Some(next);
    }

    // ----------------------------------------------------------- serialization

    /** Writes a child pointer out. `resolved` holds the after images known for
        intentions. The offset of an own child must be what infection made it. */
    method SerializeNodePtr(n: Node, s: Side, offset: int, resolved: map<nat, nat>,
                            ghost i: nat, ghost t: Shape, ghost a: Tree, ghost p: Tree, ghost idx: nat, ghost f: Env)
      returns (dst: PtrEntry)
      requires Synced() && n in memory && Foreign(a, i)
      requires forall j | j in resolved :: resolved[j] in primary && primary[resolved[j]] == j
      requires f.primary == primary && Outside(memory, f.rid)
      requires View(memory, memory[n].Ptr(s), t, E()) == Some(a) && View(memory, memory[n].Ptr(s), t, f) == Some(p)
      requires p == Place(a, i, idx).0 && offset == Place(a, i, idx).1 - 1
      ensures Meaning(dst, primary) == Some(RefTo(p, i)) && ByImage(dst, resolved)
    {
      hide Synced, View, Outside, Place, Foreign;
      ChildPointer(memory, memory[n].Ptr(s), t, a, p, i, idx, E(), f);
      Holding(n);
      assert n.Ptr(s) == memory[n].Ptr(s);
      var src := n.Ptr(s);
      if src.ref == null {
        return NilPtr;
      }
      Holding(src.ref);
      if src.ref.rid == rid {
        assert src.address.Some? && src.address.value.offset == offset;
        return SelfPtr(offset);
      }
      assert src.address.Some?;
      var address := src.address.value;
      if address.isAfterImage {
        return AfterImagePtr(address.position, address.offset);
      } else if address.position in resolved {
        return AfterImagePtr(resolved[address.position], address.offset);
      } else {
        return IntentionPtr(address.position, address.offset);
      }
    }

    /** Writes the own nodes below `node` out in post-order. */
    method SerializeIntention(node: Node?, fieldIndex: nat, resolved: map<nat, nat>, ghost i: nat,
                              ghost ptr: NodePtr, ghost q: NodePtr, ghost t: Shape, ghost a: Tree, ghost f: Env)
      returns (es: seq<NodeEntry>, delta: seq<Node>, next: nat)
      requires Synced() && Foreign(a, i) && node == Obj(t)
      requires forall j | j in resolved :: resolved[j] in primary && primary[resolved[j]] == j
      requires f.primary == primary && Outside(memory, f.rid)
      requires View(memory, ptr, t, E()) == Some(a) && View(memory, q, t, f) == Some(Place(a, i, fieldIndex).0)
      ensures next == Place(a, i, fieldIndex).1
      ensures Means(es, Entries(Place(a, i, fieldIndex).0, i), primary) && AllByImage(es, resolved)
      ensures delta == OwnNodes(memory, t, rid)
      decreases t
    {
      hide Synced, View, Outside, Place, Foreign, Entries, RefTo, Meaning, Means, ByImage;
      es, delta, next := [], [], fieldIndex;
      ViewNode(memory, ptr, t, E());
      MeansNothing(primary);
      if node == null {
        SharedFacts(a, i, fieldIndex);
        return;
      }
      ViewCell(memory, ptr, t, E());
      Holding(node);
      if node.rid != rid {
        SharedFacts(a, i, fieldIndex);
        return;
      }
      OwnParts(memory, ptr, q, t, a, i, fieldIndex, E(), f);
      ForeignParts(a, i);
      ViewNode(memory, memory[node].left, t.left, E());
      ViewNode(memory, memory[node].right, t.right, E());
      assert memory[node].Ptr(L) == node.left && memory[node].Ptr(R) == node.right;
      var leftEs, leftDelta, l := SerializeIntention(node.left.ref, fieldIndex, resolved, i, node.left, node.left, t.left, a.left, f);
      var rightEs, rightDelta, r := SerializeIntention(node.right.ref, l, resolved, i, node.right, node.right, t.right, a.right, f);
      var left := SerializeNodePtr(node, L, l as int - 1, resolved, i, t.left, a.left, Place(a.left, i, fieldIndex).0, fieldIndex, f);
      var right := SerializeNodePtr(node, R, r as int - 1, resolved, i, t.right, a.right, Place(a.right, i, l).0, l, f);
      es := leftEs + rightEs + [NodeEntry(node.red, node.key, node.val, left, right)];
      delta, next := leftDelta + rightDelta + [node], r + 1;
      EntriesUnfold(a, i, fieldIndex);
      ByImageConcat(leftEs, rightEs, es[|es| - 1], resolved);
      MeansNode(leftEs, rightEs, es[|es| - 1], a, i, fieldIndex, primary);
    }

    /** The after image of a tree that has its addresses, as the one of `intention`, and
        its nodes in the order of their offsets. */
    method SerializeAfterImage(intention: nat, resolved: map<nat, nat>, ghost f: Env) returns (es: seq<NodeEntry>, delta: seq<Node>)
      requires Valid() && root.Some? && root.value != null && Foreign(Tree(), intention)
      requires forall j | j in resolved :: resolved[j] in primary && primary[resolved[j]] == j
      requires f.primary == primary && Outside(memory, f.rid) && 0 < FreshCount(Tree()) <= OFFSETS
      requires View(memory, NodePtr(root.value, Some(NodeAddress(intention, FreshCount(Tree()) - 1, false))), shape, f)
            == Some(Place(Tree(), intention, 0).0)
      ensures Means(es, Entries(Place(Tree(), intention, 0).0, intention), primary) && AllByImage(es, resolved)
      ensures delta == OwnNodes(memory, shape, rid)
    {
      hide Synced, View, ValidTree, Layered, Place, Outside, Foreign, Entries, Means, OwnNodes, AllByImage;
      ViewNode(memory, Base(), shape, E());
      var next;
      es, delta, next := SerializeIntention(root.value, 0, resolved, intention, Base(),
        NodePtr(root.value, Some(NodeAddress(intention, FreshCount(Tree()) - 1, false))), shape, Tree(), f);
    }

    /** Renames the target of a pointer to an own node. */
    method ConvertToAfterImage(n: Node, s: Side, pos: nat)
      requires Synced() && n in owned && n in memory && rid >= 0 && rid < pos && SideForm(memory, n, rid, s)
      modifies this`memory, n
      ensures Synced()
      ensures memory == old(memory)[n := old(memory)[n].SetPtr(s, ToAfterImage(old(memory), old(memory)[n].Ptr(s), rid, pos))]
    {
      hide Synced;
      Holding(n);
      var ptr := n.Ptr(s);
      assert memory[n].Ptr(s) == ptr && memory[n].SetPtr(s, ptr) == memory[n];
      if ptr.ref != null {
        Holding(ptr.ref);
        if ptr.ref.rid == rid {
          assert ptr.address.Some? && !ptr.address.value.isAfterImage && ptr.address.value.position < pos;
          SetPtr(n, s, ptr.(address := Some(NodeAddress(pos, ptr.address.value.offset, true))));
        }
      }
    }

    method ConvertNode(n: Node, pos: nat)
      requires Synced() && n in owned && n in memory && rid >= 0 && rid < pos && IntentionForm(memory, n, rid)
      modifies this`memory, n
      ensures Synced() && memory == old(memory)[n := ConvertedCell(old(memory), old(memory)[n], rid, pos)]
    {
      hide Synced, ToAfterImage, IntentionForm, SideForm;
      ghost var m := memory;
      FormAt(m, n, rid, L);
      FormAt(m, n, rid, R);
      ConvertToAfterImage(n, L, pos);
      ToAfterImageSame(m, memory, m[n].right, rid, pos);
      FormStays(m, memory, n, rid, R);
      ConvertToAfterImage(n, R, pos);
    }

    /** Renames the targets of all pointers within the delta. */
    method ConvertDelta(delta: seq<Node>, pos: nat, ghost g: Env)
      requires Synced() && rid >= 0 && rid < pos && Distinct(delta)
      requires forall n | n in delta :: n in memory && n in owned && IntentionForm(memory, n, rid)
      requires Outside(memory, g.rid) && pos in g.primary && g.primary[pos] == rid
      modifies this`memory, owned
      ensures Synced() && Readdressed(old(memory), memory, rid) && SameTargets(old(memory), memory, g)
      ensures memory.Keys == old(memory).Keys && forall n | n in memory && n !in owned :: memory[n] == old(memory)[n]
      ensures forall n | n in delta :: n in memory && AfterImageForm(memory, n, rid, pos)
    {
      hide Synced, Readdressed, SameTargets, Outside, Infection.Addressed, ConvertedCell, IntentionForm, AfterImageForm, Distinct;
      ghost var m := memory;
      ReaddressedSelf(m, rid);
      SameTargetsSelf(m, g);
      var k := 0;
      while k < |delta|
        invariant k <= |delta| && Synced()
        invariant Readdressed(m, memory, rid) && SameTargets(m, memory, g)
        invariant memory.Keys == m.Keys && forall n | n in memory && n !in owned :: memory[n] == m[n]
        invariant forall n | n in delta[k..] :: memory[n] == m[n]
        invariant forall n | n in delta[..k] :: AfterImageForm(memory, n, rid, pos)
      {
        var n := delta[k];
        ghost var m1 := memory;
        assert n in delta[k..];
        OutsideKept(m, m1, rid, g.rid);
        FormKept(m, m1, n, rid);
        ConvertNode(n, pos);
        ConvertedSame(m1, n, rid, pos, g);
        ReaddressedTwice(m, m1, memory, rid);
        SameTargetsTwice(m, m1, memory, g);
        Progress(delta, k);
        forall x | x in delta[..k + 1] ensures AfterImageForm(memory, x, rid, pos) {
          AfterImageKept(m1, n, x, rid, pos);
        }
        k := k + 1;
      }
      assert delta[..k] == delta;
    }

    /** When the position of the after image is known, pointers within the delta
        name it. To everyone who knows where it is, nothing changes. */
    method SetDeltaPosition(delta: seq<Node>, pos: nat, ghost ptr: NodePtr, ghost f: Env)
      requires Valid() && rid >= 0 && rid < pos && Outside(memory, f.rid)
      requires f.primary == primary && pos !in primary && forall x | x in primary :: primary[x] != rid
      requires View(memory, ptr, shape, f) == Some(Place(Tree(), rid, 0).0)
      requires delta == OwnNodes(memory, shape, rid)
      modifies this`memory, this`primary, owned
      ensures Valid() && Tree() == old(Tree()) && primary == old(primary)[pos := rid]
      ensures View(memory, ptr, shape, Env(f.rid, primary)) == Some(Place(Tree(), rid, 0).0)
      ensures SameTargets(old(memory), memory, Env(f.rid, primary))
      ensures memory.Keys == old(memory).Keys && forall n | n in memory && n !in owned :: memory[n] == old(memory)[n]
      ensures Distinct(delta) && forall n | n in delta :: n in memory && n in owned && AfterImageForm(memory, n, rid, pos)
    {
      hide Synced, View, ValidTree, Layered, Place, Branded, OwnNodes, Readdressed, SameTargets, Outside, IntentionForm;
      hide AfterImageForm, Distinct;
      ghost var m, g := memory, Env(f.rid, primary[pos := rid]);
      PlacedBranded(m, Base(), ptr, shape, Tree(), rid, 0, E(), f);
      OwnNodesFacts(m, ptr, shape, rid, f, Place(Tree(), rid, 0).0);
      ViewMorePrimary(m, ptr, shape, f, g);
      ViewMorePrimary(m, Base(), shape, E(), Env(rid, g.primary));
      OwnedByRid();
      primary := g.primary;
      ConvertDelta(delta, pos, g);
      ViewTargets(m, memory, ptr, ptr, shape, g);
      ViewReaddressed(m, memory, Base(), Base(), shape, E());
    }

    /** The nodes of the delta will not be written again: from now on the cache has
        them, and this tree has done its work. */
    method SetReadOnly(delta: seq<Node>)
      requires Synced() && Distinct(delta) && forall n | n in delta :: n in owned
      modifies this`memory, owned
      ensures forall n | n in memory :: n.Holds(memory[n])
      ensures memory == Frozen(old(memory), set n | n in delta)
    {
      hide Frozen, Books;
      ghost var m, done := memory, {};
      Writable();
      FrozenNone(m);
      var k := 0;
      while k < |delta|
        invariant k <= |delta| && forall n | n in memory :: n.Holds(memory[n])
        invariant forall n :: n in done <==> n in delta[..k]
        invariant memory == Frozen(m, done)
      {
        var n := delta[k];
        assert n in delta && n !in delta[..k];
        assert delta[..k + 1] == delta[..k] + [n];
        FrozenMore(m, done, n);
        assert !n.readOnly;
        n.readOnly := true;
        memory := memory[n := memory[n].(readOnly := true)];
        done := done + {n};
        k := k + 1;
      }
      assert delta[..k] == delta;
      assert done == set n | n in delta;
    }

    lemma Writable()
      requires Synced()
      ensures forall n | n in owned :: n in memory && !memory[n].readOnly
    {
    }

    // -------------------------------------------------- what others have renamed

    /** The tree value, going by what is known of the nodes. */
    ghost function Standing(): Option<Tree>
      reads this
    {
      if Books(memory, owned, foreign, freshNodes, rid, others, emptied) then View(memory, Base(), shape, E()) else None
    }

    /** What is known of the nodes of others is brought up to date, after pointers
        among them have got the form of an after image that `later` knows. */
    ghost method Adopt(n: Memory, later: map<nat, nat>)
      requires Standing().Some? && ValidTree(Standing().value) && Layered(Standing().value)
      requires forall x | x in n :: x.Holds(n[x])
      requires Extends(primary, later) && SameTargets(memory, n, Env(rid, later))
      requires forall x | x in owned :: x in n && n[x] == memory[x]
      modifies this`memory, this`primary
      ensures Valid() && Tree() == old(Standing().value) && memory == n && primary == later
    {
      hide View, ValidTree, Layered, Books, SameTargets, SameTarget, Extends;
      ViewMorePrimary(memory, Base(), shape, E(), Env(rid, later));
      ViewTargets(memory, n, Base(), Base(), shape, Env(rid, later));
      BooksTargets(memory, n, owned, foreign, freshNodes, rid, others, emptied, later);
      memory, primary := n, later;
    }
  }

  lemma OwnValid(t: Tree)
    requires ValidTree(t) && Layered(t)
    ensures ValidTree(Own(t)) && Layered(Own(t))
  {
    if t.Node? && t.where.At? {
      OldLayered(t.left);
      OldLayered(t.right);
    }
    assert Flat(Own(t)) == Flat(t);
    assert RB(Own(t), BlackHeight(t)) == RB(t, BlackHeight(t));
  }

  lemma OutsideRids(m: Memory, rids: set<int>, rid: int)
    requires (forall n | n in m :: m[n].rid in rids) && rid !in rids
    ensures Outside(m, rid)
  {
  }

  lemma BooksTargets(m: Memory, n: Memory, owned: set<Node>, foreign: set<Node>, ns: seq<Node?>, rid: int, others: set<int>,
                     emptied: bool, later: map<nat, nat>)
    requires Books(m, owned, foreign, ns, rid, others, emptied) && SameTargets(m, n, Env(rid, later))
    requires forall x | x in owned :: x in n && n[x] == m[x]
    ensures Books(n, owned, foreign, ns, rid, others, emptied)
  {
  }
}
