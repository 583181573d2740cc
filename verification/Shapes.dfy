/** What the linked nodes of a memory stand for: following pointers gives a tree
    value. A shape says which objects make up a tree; it serves to follow the
    pointers in a bounded way and as the footprint of the tree. */
module Shapes {
  import opened Basics
  import opened Keys
  import opened Trees
  import opened Zippers
  import opened TreeOps
  import opened Nodes

  datatype Shape = SNil | SNode(obj: Node, left: Shape, right: Shape)

  /** The objects of a tree with a hole. */
  datatype Spine = STop | SUp(side: Side, obj: Node, sib: Shape, up: Spine)

  /** The rid of a tree's own nodes, and for every after image its intention. */
  datatype Env = Env(rid: int, primary: map<nat, nat>)

  function Kid(t: Shape, s: Side): Shape
    requires t.SNode?
  {
    if s.L? then t.left else t.right
  }

  function SJoin(s: Side, obj: Node, a: Shape, b: Shape): Shape {
    if s.L? then SNode(obj, a, b) else SNode(obj, b, a)
  }

  function Obj(t: Shape): Node? {
    if t.SNil? then null else t.obj
  }

  function PathObj(p: Spine): Node? {
    if p.STop? then null else p.obj
  }

  function Objs(t: Shape): set<Node> {
    if t.SNil? then {} else {t.obj} + Objs(t.left) + Objs(t.right)
  }

  function PathObjs(p: Spine): set<Node> {
    if p.STop? then {} else {p.obj} + Objs(p.sib) + PathObjs(p.up)
  }

  /** The path as the deque of the source holds it, innermost node first. */
  function Deque(p: Spine): seq<Node> {
    if p.STop? then [] else [p.obj] + Deque(p.up)
  }

  /** The object at the root of the tree whose hole `c` fills. */
  function RootObj(p: Spine, c: Node?): Node? {
    if p.STop? then c else RootObj(p.up, p.obj)
  }

  /** The after image node that an address names. */
  function Denoted(a: Option<NodeAddress>, e: Env): Option<Where> {
    if a.None? then None
    else if !a.value.isAfterImage then Some(At(a.value.position, a.value.offset))
    else if a.value.position in e.primary then Some(At(e.primary[a.value.position], a.value.offset))
    else None
  }

  /** Own nodes are fresh, wherever a stale address may point. */
  function Mark(c: Cell, p: NodePtr, e: Env): Option<Where> {
    if c.rid == e.rid then Some(Fresh) else Denoted(p.address, e)
  }

  /** The tree that `p` points to, if its objects are those of `t`, all distinct,
      and pointers to nodes of after images carry the addresses of those nodes. */
  function View(m: Memory, p: NodePtr, t: Shape, e: Env): Option<Tree>
    decreases t
  {
    match t
    case SNil => if p.ref == null then Some(Nil) else None
    case SNode(o, l, r) =>
      if p.ref == o && o in m && o !in Objs(l) && o !in Objs(r) && Objs(l) !! Objs(r) then
        match (Mark(m[o], p, e), View(m, m[o].left, l, e), View(m, m[o].right, r, e))
        case (Some(w), Some(a), Some(b)) => Some(Node(w, m[o].red, m[o].key, m[o].val, a, b))
        case _ => None
      else None
  }

  /** The same for the writable path that ends in the object `c`. */
  function PathView(m: Memory, p: Spine, c: Node?, e: Env): Option<Path> {
    match p
    case STop => Some(Top)
    case SUp(s, o, sib, up) =>
      if o in m && m[o].rid == e.rid && m[o].Ptr(s).ref == c
         && o !in Objs(sib) && o !in PathObjs(up) && Objs(sib) !! PathObjs(up) then
        match (View(m, m[o].Ptr(Opposite(s)), sib, e), PathView(m, up, o, e))
        case (Some(a), Some(q)) => Some(Up(s, m[o].red, m[o].key, m[o].val, a, q))
        case _ => None
      else None
  }

  /** A tree that is writable at its root (or empty) in the hole of a path. */
  function See(m: Memory, f: Shape, p: Spine, e: Env): Option<(Tree, Path)> {
    match (View(m, NodePtr(Obj(f), None), f, e), PathView(m, p, Obj(f), e))
    case (Some(a), Some(q)) => if Objs(f) !! PathObjs(p) then Some((a, q)) else None
    case _ => None
  }

  function SZip(f: Shape, p: Spine): Shape
    decreases p
  {
    if p.STop? then f else SZip(SJoin(p.side, p.obj, f, p.sib), p.up)
  }

  // -------------------------------------------------------------- frame facts

  ghost predicate Same(m: Memory, n: Memory, s: set<Node>) {
    forall o | o in s :: (o in m <==> o in n) && (o in m ==> n[o] == m[o])
  }

  lemma {:induction false} ViewFrame(m: Memory, n: Memory, p: NodePtr, t: Shape, e: Env)
    requires Same(m, n, Objs(t))
    ensures View(n, p, t, e) == View(m, p, t, e)
    decreases t
  {
    if t.SNode? && t.obj in m {
      ViewFrame(m, n, m[t.obj].left, t.left, e);
      ViewFrame(m, n, m[t.obj].right, t.right, e);
    }
  }

  lemma {:induction false} PathFrame(m: Memory, n: Memory, p: Spine, c: Node?, e: Env)
    requires Same(m, n, PathObjs(p))
    ensures PathView(n, p, c, e) == PathView(m, p, c, e)
  {
    if p.SUp? && p.obj in m {
      ViewFrame(m, n, m[p.obj].Ptr(Opposite(p.side)), p.sib, e);
      PathFrame(m, n, p.up, p.obj, e);
    }
  }

  lemma {:induction false} RootObjFacts(p: Spine, c: Node?)
    ensures p.SUp? ==> RootObj(p, c) in PathObjs(p)
  {
    if p.SUp? && p.up.SUp? {
      RootObjFacts(p.up, p.obj);
    }
  }

  /** Popping the path: the parent becomes the focus. */
  lemma Ascend(m: Memory, f: Shape, p: Spine, e: Env)
    requires See(m, f, p, e).Some? && p.SUp?
    ensures var (a, q) := See(m, f, p, e).value;
            See(m, SJoin(p.side, p.obj, f, p.sib), p.up, e) ==
            Some((Join(q.side, q.red, q.key, q.val, a, q.sib), q.up))
  {
    var (a, q) := See(m, f, p, e).value;
    ViewAnyAddress(m, f, m[p.obj].Ptr(p.side), e);
  }

  /** The spine and the path that lead to the child on side `d` of the focus. */
  function SDown(f: Shape, d: Side, p: Spine): Spine
    requires f.SNode?
  {
    SUp(d, f.obj, Kid(f, Opposite(d)), p)
  }

  /** Pushing the path: a child that is writable, or none, becomes the focus. */
  lemma GoDown(m: Memory, f: Shape, d: Side, p: Spine, e: Env)
    requires See(m, f, p, e).Some? && f.SNode?
    requires var c := Child(See(m, f, p, e).value.0, d); c.Node? ==> c.where.Fresh?
    ensures See(m, Kid(f, d), SDown(f, d, p), e) ==
            Some((Child(See(m, f, p, e).value.0, d),
                  Frame(See(m, f, p, e).value.0, d, See(m, f, p, e).value.1)))
  {
    ViewKid(m, NodePtr(f.obj, None), f, d, e);
    ViewKid(m, NodePtr(f.obj, None), f, Opposite(d), e);
  }

  /** What a pointer to a writable node or to none says about addresses is void. */
  lemma ViewAnyAddress(m: Memory, f: Shape, ptr: NodePtr, e: Env)
    requires View(m, NodePtr(Obj(f), None), f, e).Some? && ptr.ref == Obj(f)
    ensures View(m, ptr, f, e) == View(m, NodePtr(Obj(f), None), f, e)
  {
  }

  lemma {:induction false} ZipFacts(m: Memory, f: Shape, p: Spine, e: Env)
    requires See(m, f, p, e).Some?
    ensures var (a, q) := See(m, f, p, e).value;
            See(m, SZip(f, p), STop, e) == Some((Zip(a, q), Top))
    ensures Obj(SZip(f, p)) == RootObj(p, Obj(f)) && Objs(SZip(f, p)) == Objs(f) + PathObjs(p)
    decreases p
  {
    if p.SUp? {
      Ascend(m, f, p, e);
      ZipFacts(m, SJoin(p.side, p.obj, f, p.sib), p.up, e);
    }
  }

  lemma ViewNode(m: Memory, p: NodePtr, t: Shape, e: Env)
    requires View(m, p, t, e).Some?
    ensures p.ref == Obj(t) && (t.SNode? <==> View(m, p, t, e).value.Node?)
    ensures t.SNode? ==> t.obj in m && t.obj in Objs(t) && m[t.obj].red == View(m, p, t, e).value.red
  {
  }

  lemma ViewKid(m: Memory, p: NodePtr, t: Shape, s: Side, e: Env)
    requires View(m, p, t, e).Some? && t.SNode?
    ensures t.obj in m && t.obj in Objs(t) && t.obj !in Objs(Kid(t, s)) && Objs(Kid(t, s)) <= Objs(t)
    ensures View(m, m[t.obj].Ptr(s), Kid(t, s), e) == Some(Child(View(m, p, t, e).value, s))
    ensures Objs(Kid(t, s)) !! Objs(Kid(t, Opposite(s)))
    ensures Kid(t, s).SNode? <==> Child(View(m, p, t, e).value, s).Node?
  {
  }

  /** A writable node over two trees without a common object. */
  lemma ViewJoin(m: Memory, p: NodePtr, o: Node, s: Side, a: Shape, b: Shape, e: Env)
    requires p.ref == o && o in m && m[o].rid == e.rid && o !in Objs(a) && o !in Objs(b) && Objs(a) !! Objs(b)
    requires View(m, m[o].Ptr(s), a, e).Some? && View(m, m[o].Ptr(Opposite(s)), b, e).Some?
    ensures View(m, p, SJoin(s, o, a, b), e) ==
            Some(Join(s, m[o].red, m[o].key, m[o].val,
                      View(m, m[o].Ptr(s), a, e).value, View(m, m[o].Ptr(Opposite(s)), b, e).value))
  {
  }

  lemma ViewMake(m: Memory, p: NodePtr, t: Shape, e: Env)
    requires t.SNode? && p.ref == t.obj && t.obj in m && Mark(m[t.obj], p, e).Some?
    requires t.obj !in Objs(t.left) && t.obj !in Objs(t.right) && Objs(t.left) !! Objs(t.right)
    requires View(m, m[t.obj].left, t.left, e).Some? && View(m, m[t.obj].right, t.right, e).Some?
    ensures View(m, p, t, e) ==
            Some(Trees.Node(Mark(m[t.obj], p, e).value, m[t.obj].red, m[t.obj].key, m[t.obj].val,
                            View(m, m[t.obj].left, t.left, e).value, View(m, m[t.obj].right, t.right, e).value))
  {
  }

  /** Reading two steps below a node. */
  lemma ViewGrandKid(m: Memory, p: NodePtr, t: Shape, s: Side, d: Side, e: Env)
    requires View(m, p, t, e).Some? && t.SNode? && Child(View(m, p, t, e).value, s).Node?
    ensures Kid(t, s).SNode?
    ensures var b := Child(View(m, p, t, e).value, s);
      && t.obj in m && m[t.obj].Ptr(s).ref == Kid(t, s).obj && Kid(t, s).obj in m
      && m[Kid(t, s).obj].red == b.red
      && (Kid(Kid(t, s), d).SNode? <==> Child(b, d).Node?)
      && m[Kid(t, s).obj].Ptr(d).ref == Obj(Kid(Kid(t, s), d))
      && (Child(b, d).Node? ==> Obj(Kid(Kid(t, s), d)) in m && m[Kid(Kid(t, s), d).obj].red == Child(b, d).red)
  {
    ViewKid(m, p, t, s, e);
    ViewKid(m, m[t.obj].Ptr(s), Kid(t, s), d, e);
  }

  /** Only the pointer from the innermost node of a path has changed. */
  lemma RelinkUp(m: Memory, n: Memory, p: Spine, c: Node?, d: Node?, e: Env)
    requires PathView(m, p, c, e).Some?
    requires p.SUp? ==>
      && p.obj in n && n[p.obj] == m[p.obj].SetPtr(p.side, n[p.obj].Ptr(p.side)) && n[p.obj].Ptr(p.side).ref == d
      && Same(m, n, Objs(p.sib)) && Same(m, n, PathObjs(p.up))
    ensures PathView(n, p, d, e) == PathView(m, p, c, e)
  {
    if p.SUp? {
      ViewFrame(m, n, m[p.obj].Ptr(Opposite(p.side)), p.sib, e);
      PathFrame(m, n, p.up, p.obj, e);
    }
  }

  lemma {:induction false} ViewDomain(m: Memory, p: NodePtr, t: Shape, e: Env)
    requires View(m, p, t, e).Some?
    ensures Objs(t) <= m.Keys
    decreases t
  {
    if t.SNode? {
      ViewDomain(m, m[t.obj].left, t.left, e);
      ViewDomain(m, m[t.obj].right, t.right, e);
    }
  }

  lemma {:induction false} PathDomain(m: Memory, p: Spine, c: Node?, e: Env)
    requires PathView(m, p, c, e).Some?
    ensures PathObjs(p) <= m.Keys
  {
    if p.SUp? {
      ViewDomain(m, m[p.obj].Ptr(Opposite(p.side)), p.sib, e);
      PathDomain(m, p.up, p.obj, e);
    }
  }

  // ------------------------------------------------- paths built from below

  function SAppend(p: Spine, q: Spine): Spine {
    if p.STop? then q else p.(up := SAppend(p.up, q))
  }

  lemma {:induction false} AppendFacts(p: Spine, q: Spine, c: Node?)
    ensures PathObjs(SAppend(p, q)) == PathObjs(p) + PathObjs(q)
    ensures RootObj(SAppend(p, q), c) == RootObj(q, RootObj(p, c))
    ensures Deque(SAppend(p, q)) == Deque(p) + Deque(q)
  {
    if p.SUp? {
      AppendFacts(p.up, q, p.obj);
    }
  }

  lemma {:induction false} AppendView(m: Memory, p: Spine, q: Spine, c: Node?, e: Env)
    requires PathView(m, p, c, e).Some? && PathView(m, q, RootObj(p, c), e).Some?
    requires PathObjs(p) !! PathObjs(q)
    ensures PathView(m, SAppend(p, q), c, e)
         == Some(Append(PathView(m, p, c, e).value, PathView(m, q, RootObj(p, c), e).value))
  {
    if p.SUp? {
      AppendFacts(p.up, q, p.obj);
      AppendView(m, p.up, q, p.obj, e);
    }
  }
}
