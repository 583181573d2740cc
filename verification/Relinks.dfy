/** What one write, or the few writes of a rotation, does to the tree in memory. */
module Relinks {
  import opened Basics
  import opened Keys
  import opened Trees
  import opened Zippers
  import opened TreeOps
  import opened Nodes
  import opened Shapes
  import opened TreeProofs

  function WithKid(t: Shape, s: Side, c: Shape): Shape
    requires t.SNode?
  {
    if s.L? then t.(left := c) else t.(right := c)
  }

  function WithChild(t: Tree, s: Side, c: Tree): Tree
    requires t.Node?
  {
    if s.L? then t.(left := c) else t.(right := c)
  }

  predicate IsFresh(t: Tree) {
    t.Node? && t.where.Fresh?
  }

  lemma SetRed(m: Memory, p: NodePtr, t: Shape, red: bool, e: Env)
    requires t.SNode? && View(m, p, t, e).Some?
    ensures t.obj in m
    ensures var n := m[t.obj := m[t.obj].(red := red)];
            View(n, p, t, e) == Some(View(m, p, t, e).value.(red := red))
  {
    var n := m[t.obj := m[t.obj].(red := red)];
    ViewFrame(m, n, m[t.obj].left, t.left, e);
    ViewFrame(m, n, m[t.obj].right, t.right, e);
  }

  /** A change confined to the child on side `s`, and to the pointer to it. */
  lemma KidChange(m: Memory, n: Memory, p: NodePtr, t: Shape, s: Side, k: Shape, e: Env)
    requires t.SNode? && View(m, p, t, e).Some? && t.obj in n
    requires n[t.obj] == m[t.obj].SetPtr(s, n[t.obj].Ptr(s))
    requires Same(m, n, Objs(Kid(t, Opposite(s))))
    requires View(n, n[t.obj].Ptr(s), k, e).Some?
    requires t.obj !in Objs(k) && Objs(k) !! Objs(Kid(t, Opposite(s)))
    ensures View(n, p, WithKid(t, s, k), e)
         == Some(WithChild(View(m, p, t, e).value, s, View(n, n[t.obj].Ptr(s), k, e).value))
  {
    ViewKid(m, p, t, Opposite(s), e);
    ViewFrame(m, n, m[t.obj].Ptr(Opposite(s)), Kid(t, Opposite(s)), e);
  }

  function PaintChild(a: Tree, s: Side, red: bool): Tree {
    if a.Nil? || Child(a, s).Nil? then a else WithChild(a, s, Child(a, s).(red := red))
  }

  /** A node and its child on side `s` swap colours. */
  function SwapReds(a: Tree, s: Side): Tree {
    if a.Nil? || Child(a, s).Nil? then a
    else var b := PaintChild(a, s, a.red); b.(red := Child(a, s).red)
  }

  lemma SetRedKid(m: Memory, f: Shape, s: Side, p: Spine, red: bool, e: Env)
    requires See(m, f, p, e).Some? && f.SNode? && Kid(f, s).SNode? && Kid(f, s).obj in m
    ensures var o := Kid(f, s).obj;
            See(m[o := m[o].(red := red)], f, p, e) == 
            Some((PaintChild(See(m, f, p, e).value.0, s, red), See(m, f, p, e).value.1))
  {
    var ptr, o := NodePtr(f.obj, None), Kid(f, s).obj;
    var n := m[o := m[o].(red := red)];
    ViewKid(m, ptr, f, s, e);
    SetRed(m, m[f.obj].Ptr(s), Kid(f, s), red, e);
    KidChange(m, n, ptr, f, s, Kid(f, s), e);
    PathFrame(m, n, p, f.obj, e);
  }

  lemma SwapCells(m: Memory, f: Shape, s: Side, p: Spine, e: Env)
    requires See(m, f, p, e).Some? && f.SNode? && Kid(f, s).SNode?
    ensures f.obj in m && Kid(f, s).obj in m
    ensures var o := Kid(f, s).obj;
            var m1 := m[o := m[o].(red := m[f.obj].red)];
            See(m1[f.obj := m1[f.obj].(red := m[o].red)], f, p, e) ==
            Some((SwapReds(See(m, f, p, e).value.0, s), See(m, f, p, e).value.1))
  {
    var o := Kid(f, s).obj;
    ViewKid(m, NodePtr(f.obj, None), f, s, e);
    var m1 := m[o := m[o].(red := m[f.obj].red)];
    SetRedKid(m, f, s, p, m[f.obj].red, e);
    SetRed(m1, NodePtr(f.obj, None), f, m[o].red, e);
    PathFrame(m1, m1[f.obj := m1[f.obj].(red := m[o].red)], p, f.obj, e);
  }

  /** A copy of the node stands for the same tree, but is writable. */
  lemma CopyNode(m: Memory, p: NodePtr, t: Shape, o: Node, e: Env)
    requires t.SNode? && View(m, p, t, e).Some? && o !in m && o !in Objs(t)
    ensures var n := m[o := m[t.obj].(rid := e.rid, readOnly := false)];
            View(n, p.(ref := o), t.(obj := o), e) == Some(Own(View(m, p, t, e).value))
  {
    var n := m[o := m[t.obj].(rid := e.rid, readOnly := false)];
    ViewFrame(m, n, m[t.obj].left, t.left, e);
    ViewFrame(m, n, m[t.obj].right, t.right, e);
  }

  lemma OwnedView(m: Memory, p: NodePtr, t: Shape, e: Env)
    requires View(m, p, t, e).Some?
    ensures t.SNil? || (t.obj in m && m[t.obj].rid == e.rid) ==>
      View(m, NodePtr(Obj(t), None), t, e) == Some(Own(View(m, p, t, e).value))
  {
  }

  /** The copy is not in place yet: the path still ends in the original. */
  lemma CopyAtHole(m: Memory, ptr: NodePtr, x: Shape, o: Node, p: Spine, e: Env)
    requires View(m, ptr, x, e).Some? && x.SNode? && PathView(m, p, x.obj, e).Some? && Objs(x) !! PathObjs(p)
    requires o !in m
    ensures x.obj in m
    ensures var n := m[o := m[x.obj].(rid := e.rid, readOnly := false)];
      && View(n, NodePtr(o, None), x.(obj := o), e) == Some(Own(View(m, ptr, x, e).value))
      && PathView(n, p, x.obj, e) == PathView(m, p, x.obj, e)
      && Objs(x.(obj := o)) !! PathObjs(p)
  {
    var n := m[o := m[x.obj].(rid := e.rid, readOnly := false)];
    ViewDomain(m, ptr, x, e);
    PathDomain(m, p, x.obj, e);
    CopyNode(m, ptr, x, o, e);
    OwnedView(n, ptr.(ref := o), x.(obj := o), e);
    PathFrame(m, n, p, x.obj, e);
  }

  function OwnChild(a: Tree, s: Side): Tree {
    if a.Nil? then a else WithChild(a, s, Own(Child(a, s)))
  }

  /** The child on side `s` has been replaced by a writable copy. */
  lemma OwnKid(m: Memory, f: Shape, s: Side, o: Node, p: Spine, e: Env)
    requires See(m, f, p, e).Some? && f.SNode? && Kid(f, s).SNode? && o !in m
    ensures f.obj in m && Kid(f, s).obj in m
    ensures var m1 := m[o := m[Kid(f, s).obj].(rid := e.rid, readOnly := false)];
            See(m1[f.obj := m1[f.obj].SetRef(s, o)], WithKid(f, s, Kid(f, s).(obj := o)), p, e) ==
            Some((OwnChild(See(m, f, p, e).value.0, s), See(m, f, p, e).value.1))
  {
    var k := Kid(f, s);
    var ptr := NodePtr(f.obj, None);
    ViewKid(m, ptr, f, s, e);
    ViewDomain(m, ptr, f, e);
    PathDomain(m, p, f.obj, e);
    var m1 := m[o := m[k.obj].(rid := e.rid, readOnly := false)];
    var n := m1[f.obj := m1[f.obj].SetRef(s, o)];
    CopyNode(m, m[f.obj].Ptr(s), k, o, e);
    ViewFrame(m1, n, n[f.obj].Ptr(s), k.(obj := o), e);
    KidChange(m, n, ptr, f, s, k.(obj := o), e);
    PathFrame(m, n, p, f.obj, e);
  }

  /** `child` has been rotated down towards side `a`; its other child `g` took
      its place on side `d` of `parent`, or as the root. */
  ghost predicate RotatedCells(m: Memory, n: Memory, parent: Node?, d: Side, child: Node, g: Node, a: Side)
  {
    && child in m && g in m && child in n && g in n
    && n[child] == m[child].SetPtr(Opposite(a), m[g].Ptr(a))
    && n[g] == m[g].SetRef(a, child)
    && (parent != null ==>
          parent in m && parent in n && n[parent] == m[parent].SetPtr(d, m[child].Ptr(Opposite(a))))
    && n.Keys == m.Keys
    && forall o | o in m && o != child && o != g && o != parent :: n[o] == m[o]
  }

  /** The writes of a rotation, in order. */
  function Spin(m: Memory, parent: Node?, d: Side, child: Node, g: Node, a: Side): Memory
    requires child in m && g in m && (parent != null ==> parent in m)
  {
    var ptr := m[child].Ptr(Opposite(a));
    var m1 := m[child := m[child].SetPtr(Opposite(a), m[g].Ptr(a))];
    var m2 := if parent == null then m1 else m1[parent := m1[parent].SetPtr(d, ptr)];
    m2[g := m2[g].SetRef(a, child)]
  }

  lemma SpinCells(m: Memory, parent: Node?, d: Side, child: Node, g: Node, a: Side)
    requires child in m && g in m && (parent != null ==> parent in m)
    requires child != g && parent != child && parent != g
    ensures RotatedCells(m, Spin(m, parent, d, child, g, a), parent, d, child, g, a)
  {
  }

  /** The shape after its root has been rotated down towards side `a`. */
  function RotatedShape(t: Shape, a: Side): Shape
    requires t.SNode? && Kid(t, Opposite(a)).SNode?
  {
    var g := Kid(t, Opposite(a));
    SJoin(a, g.obj, WithKid(t, Opposite(a), Kid(g, a)), Kid(g, Opposite(a)))
  }

  function RotatedTree(t: Tree, a: Side): Tree
    requires t.Node? && Child(t, Opposite(a)).Node?
  {
    var g := Child(t, Opposite(a));
    WithChild(g, a, WithChild(t, Opposite(a), Child(g, a)))
  }

  lemma RidOfFresh(m: Memory, p: NodePtr, t: Shape, e: Env)
    requires View(m, p, t, e).Some? && IsFresh(View(m, p, t, e).value) && t.SNode?
    ensures t.obj in m && m[t.obj].rid == e.rid
    ensures var a := View(m, p, t, e).value;
            a.red == m[t.obj].red && a.key == m[t.obj].key && a.val == m[t.obj].val
  {
  }

  /** The parts of a rotation have no object in common. */
  lemma RotatedObjs(m: Memory, p: NodePtr, t: Shape, a: Side, e: Env)
    requires t.SNode? && View(m, p, t, e).Some? && Kid(t, Opposite(a)).SNode?
    ensures var g := Kid(t, Opposite(a));
      && t.obj != g.obj && g.obj in Objs(t) && t.obj in Objs(t)
      && Objs(RotatedShape(t, a)) == Objs(t)
      && Objs(Kid(t, a)) + Objs(Kid(g, a)) + Objs(Kid(g, Opposite(a))) <= Objs(t) - {t.obj, g.obj}
      && Objs(Kid(t, a)) !! Objs(Kid(g, a))
      && g.obj !in Objs(WithKid(t, Opposite(a), Kid(g, a)))
      && Objs(WithKid(t, Opposite(a), Kid(g, a))) !! Objs(Kid(g, Opposite(a)))
  {
    var g := Kid(t, Opposite(a));
    ViewKid(m, p, t, Opposite(a), e);
    ViewKid(m, m[t.obj].Ptr(Opposite(a)), g, a, e);
  }

  lemma RotateRoot(m: Memory, n: Memory, p: NodePtr, t: Shape, a: Side, parent: Node?, d: Side, e: Env)
    requires t.SNode? && View(m, p, t, e).Some? && Kid(t, Opposite(a)).SNode?
    requires IsFresh(View(m, p, t, e).value) && IsFresh(Child(View(m, p, t, e).value, Opposite(a)))
    requires RotatedCells(m, n, parent, d, t.obj, Kid(t, Opposite(a)).obj, a)
    requires parent != null ==> parent !in Objs(t)
    ensures View(n, NodePtr(Kid(t, Opposite(a)).obj, None), RotatedShape(t, a), e)
         == Some(RotatedTree(View(m, p, t, e).value, a))
    ensures Objs(RotatedShape(t, a)) == Objs(t)
  {
    hide View, Objs;
    var o := Opposite(a);
    var g := Kid(t, o);
    RotatedObjs(m, p, t, a, e);
    ViewKid(m, p, t, a, e);
    ViewKid(m, p, t, o, e);
    ViewKid(m, m[t.obj].Ptr(o), g, a, e);
    ViewKid(m, m[t.obj].Ptr(o), g, o, e);
    RidOfFresh(m, p, t, e);
    RidOfFresh(m, m[t.obj].Ptr(o), g, e);
    ViewFrame(m, n, m[t.obj].Ptr(a), Kid(t, a), e);
    ViewFrame(m, n, m[g.obj].Ptr(a), Kid(g, a), e);
    ViewFrame(m, n, m[g.obj].Ptr(o), Kid(g, o), e);
    ViewJoin(n, n[g.obj].Ptr(a), t.obj, a, Kid(t, a), Kid(g, a), e);
    ViewJoin(n, NodePtr(g.obj, None), g.obj, a, WithKid(t, o, Kid(g, a)), Kid(g, o), e);
  }

  function HoleSide(p: Spine): Side {
    if p.STop? then L else p.side
  }

  /** Where the parts of a rotation at the focus are. */
  lemma RotateParts(m: Memory, f: Shape, p: Spine, a: Side, e: Env)
    requires See(m, f, p, e).Some? && f.SNode? && Kid(f, Opposite(a)).SNode?
    ensures f.obj in m && m[f.obj].rid == e.rid && Kid(f, Opposite(a)).obj in m
    ensures m[f.obj].Ptr(Opposite(a)).ref == Kid(f, Opposite(a)).obj
    ensures IsFresh(Child(See(m, f, p, e).value.0, Opposite(a))) ==> m[Kid(f, Opposite(a)).obj].rid == e.rid
    ensures f.obj != Kid(f, Opposite(a)).obj
    ensures PathObj(p) !in Objs(f) && Kid(f, Opposite(a)).obj in Objs(f) && f.obj in Objs(f)
    ensures p.SUp? ==> p.obj in m && m[p.obj].rid == e.rid && RootObj(p, f.obj) != f.obj
    ensures p.SUp? ==> forall s: Side :: m[p.obj].Ptr(s).ref == f.obj <==> s == p.side
  {
    ViewKid(m, NodePtr(f.obj, None), f, Opposite(a), e);
    RootObjFacts(p, f.obj);
    if p.SUp? {
      assert p.obj in PathObjs(p);
      assert p.sib.SNode? ==> p.sib.obj in Objs(p.sib);
    }
  }

  lemma RotateFocus(m: Memory, f: Shape, p: Spine, a: Side, e: Env)
    requires See(m, f, p, e).Some? && f.SNode? && Kid(f, Opposite(a)).SNode?
    requires IsFresh(Child(See(m, f, p, e).value.0, Opposite(a)))
    requires f.obj in m && Kid(f, Opposite(a)).obj in m && (p.SUp? ==> p.obj in m)
    ensures var n := Spin(m, PathObj(p), HoleSide(p), f.obj, Kid(f, Opposite(a)).obj, a);
            See(n, RotatedShape(f, a), p, e) ==
            Some((RotatedTree(See(m, f, p, e).value.0, a), See(m, f, p, e).value.1))
    ensures RotatedShape(f, a).obj == Kid(f, Opposite(a)).obj
  {
    var g := Kid(f, Opposite(a)).obj;
    RotateParts(m, f, p, a, e);
    SpinCells(m, PathObj(p), HoleSide(p), f.obj, g, a);
    var n := Spin(m, PathObj(p), HoleSide(p), f.obj, g, a);
    RotateRoot(m, n, NodePtr(f.obj, None), f, a, PathObj(p), HoleSide(p), e);
    RelinkUp(m, n, p, f.obj, g, e);
  }

  // ------------------------------- what the cases of a deletion write, as trees

  /** The red brother of the hole on side `s` is rotated up. */
  function BrotherUp(a: Tree, s: Side): Tree
  {
    if a.Nil? || Child(a, Opposite(s)).Nil? then a
    else RotatedTree(SwapReds(OwnChild(a, Opposite(s)), Opposite(s)), s)
  }

  lemma BrotherUpTree(a: Tree, s: Side)
    requires IsFresh(a) && IsRed(Child(a, Opposite(s)))
    ensures var bro := Child(a, Opposite(s));
            BrotherUp(a, s) == Join(s, a.red, bro.key, bro.val,
                                    Join(s, true, a.key, a.val, Child(a, s), Child(bro, s)),
                                    Child(bro, Opposite(s)))
  {
  }

  function BrotherRed(a: Tree, s: Side): Tree {
    PaintChild(OwnChild(a, Opposite(s)), Opposite(s), true)
  }

  /** The red inner nephew is rotated up to be the brother. */
  function NephewUp(a: Tree, s: Side): Tree
  {
    if a.Nil? then a
    else WithChild(a, Opposite(s), BrotherUp(Own(Child(a, Opposite(s))), Opposite(s)))
  }

  function OwnedOuter(a: Tree, s: Side): Tree {
    var o := Opposite(s);
    if a.Nil? then a else WithChild(a, o, OwnChild(Own(Child(a, o)), o))
  }

  function PassedRed(a: Tree, d: Side): Tree {
    if a.Nil? then a else var b := PaintChild(a, d, a.red); b.(red := false)
  }

  function BlackenedBelow(a: Tree, d: Side): Tree {
    if a.Nil? then a else WithChild(a, d, PaintChild(Child(a, d), d, false))
  }

  function PaintedOuter(a: Tree, s: Side): Tree {
    BlackenedBelow(PassedRed(OwnedOuter(a, s), Opposite(s)), Opposite(s))
  }

  lemma PaintedOuterFresh(a: Tree, s: Side)
    requires a.Node? && Child(a, Opposite(s)).Node? && Child(Child(a, Opposite(s)), Opposite(s)).Node?
    ensures IsFresh(Child(PaintedOuter(a, s), Opposite(s)))
  {
  }

  /** The red outer nephew turns black and the brother is rotated up. */
  function OuterUp(a: Tree, s: Side): Tree {
    if a.Nil? || Child(a, Opposite(s)).Nil? then a
    else RotatedTree(PaintedOuter(a, s), s)
  }

  /** What becomes of a parent whose black child opposite to `s` has a red child. */
  function Rotation(a: Tree, s: Side): Tree
    requires a.Node? && Child(a, Opposite(s)).Node?
  {
    RotateDown(Child(a, s), s, a.red, a.key, a.val, Child(a, Opposite(s)))
  }

  function NephewTurned(a: Tree, s: Side): Tree
    requires a.Node? && Child(a, Opposite(s)).Node?
  {
    if IsRed(Child(Child(a, Opposite(s)), Opposite(s))) then a else NephewUp(a, s)
  }

  /** What the writes of the two cases amount to. */
  lemma RotateDownTree(a: Tree, s: Side)
    requires IsFresh(a) && Child(a, Opposite(s)).Node?
    requires var b := Child(a, Opposite(s)); !b.red && (IsRed(b.left) || IsRed(b.right))
    ensures var b := Child(NephewTurned(a, s), Opposite(s)); b.Node? && Child(b, Opposite(s)).Node?
    ensures OuterUp(NephewTurned(a, s), s) == Rotation(a, s)
  {
  }

  lemma BrotherRedTree(a: Tree, s: Side)
    requires IsFresh(a)
    ensures BrotherRed(a, s) == Join(s, a.red, a.key, a.val, Child(a, s), Redden(Own(Child(a, Opposite(s)))))
  {
  }

  /** Progress of the rebalancing loop: from a parent coloured `red` below `up`
      it goes on with a shorter path, or stops at a red node. */
  predicate Later(x: Tree, p: Path, red: bool, up: Path) {
    Length(p) <= Length(up) && (Length(p) == Length(up) ==> IsRed(x) || !red)
  }

  /** The object in the hole is not its own sibling. */
  lemma HoleOnOneSide(m: Memory, p: Spine, c: Node?, e: Env)
    requires PathView(m, p, c, e).Some? && (p.SUp? ==> c != null && c !in PathObjs(p))
    ensures p.SUp? ==> p.obj in m && m[p.obj].rid == e.rid
    ensures p.SUp? ==> forall s: Side :: m[p.obj].Ptr(s).ref == c <==> s == p.side
    ensures p.SUp? ==> p.obj !in Objs(p.sib) && p.obj !in PathObjs(p.up)
  {
    if p.SUp? {
      assert p.sib.SNode? ==> p.sib.obj in Objs(p.sib);
    }
  }

  lemma NotOwnRoot(p: Spine, c: Node?)
    requires p.SUp? ==> c !in PathObjs(p)
    ensures RootObj(p, c) == c <==> p.STop?
    ensures p.SUp? ==> forall d: Node? :: RootObj(p, d) == RootObj(p, c)
  {
    RootObjFacts(p, c);
  }

  lemma NotOnPath(x: Shape, p: Spine)
    requires Objs(x) !! PathObjs(p)
    ensures Obj(x) !in PathObjs(p) && PathObj(p) !in Objs(x)
  {
    assert x.SNode? ==> x.obj in Objs(x);
    assert p.SUp? ==> p.obj in PathObjs(p);
  }

  /** How the loop tells where it is: colour, end of the path, side of the hole. */
  ghost predicate SideKnown(m: Memory, x: Shape, p: Spine, e: Env) {
    See(m, x, p, e).Some? &&
    var (a, q) := See(m, x, p, e).value;
      && (x.SNode? ==> x.obj in m && m[x.obj].red == a.red) && (x.SNil? <==> a.Nil?)
      && (p.STop? <==> q.Top?) && (RootObj(p, Obj(x)) == Obj(x) <==> p.STop?)
      && (p.SUp? ==> p.obj in m && q.side == p.side && m[p.obj].Ptr(p.side).ref == Obj(x))
      && (p.SUp? ==> (p.sib.SNode? <==> q.sib.Node?) && m[p.obj].Ptr(Opposite(p.side)).ref == Obj(p.sib))
      && (p.SUp? && p.sib.SNode? ==> p.sib.obj != Obj(x) && p.sib.obj in m && m[p.sib.obj].red == q.sib.red)
  }

  lemma SideOfHole(m: Memory, x: Shape, p: Spine, e: Env)
    requires See(m, x, p, e).Some?
    ensures SideKnown(m, x, p, e)
  {
    NotOnPath(x, p);
    RootObjFacts(p, Obj(x));
    if p.SUp? {
      assert p.sib.SNode? ==> p.sib.obj in Objs(p.sib);
    }
  }

  /** Reading at the focus. */
  lemma FocusKid(m: Memory, f: Shape, p: Spine, s: Side, e: Env)
    requires See(m, f, p, e).Some? && f.SNode?
    ensures f.obj in m && IsFresh(See(m, f, p, e).value.0) && m[f.obj].rid == e.rid
    ensures p.STop? <==> See(m, f, p, e).value.1.Top?
    ensures m[f.obj].red == See(m, f, p, e).value.0.red
    ensures m[f.obj].Ptr(s).ref == Obj(Kid(f, s))
    ensures Kid(f, s).SNode? <==> Child(See(m, f, p, e).value.0, s).Node?
    ensures Kid(f, s).SNode? ==>
      Kid(f, s).obj in m && m[Kid(f, s).obj].red == Child(See(m, f, p, e).value.0, s).red
  {
    ViewKid(m, NodePtr(f.obj, None), f, s, e);
  }

  lemma OwnedKid(m: Memory, f: Shape, p: Spine, s: Side, e: Env)
    requires See(m, f, p, e).Some? && f.SNode? && Kid(f, s).SNode?
    ensures Kid(f, s).obj in m && f.obj in m && m[f.obj].rid == e.rid
    ensures m[Kid(f, s).obj].rid == e.rid ==>
      See(m, f, p, e).value.0 == OwnChild(See(m, f, p, e).value.0, s)
  {
    ViewKid(m, NodePtr(f.obj, None), f, s, e);
  }

  lemma FocusGrandKid(m: Memory, f: Shape, p: Spine, s: Side, d: Side, e: Env)
    requires See(m, f, p, e).Some? && f.SNode? && Child(See(m, f, p, e).value.0, s).Node?
    ensures Kid(f, s).SNode? && f.obj in m && IsFresh(See(m, f, p, e).value.0)
    ensures var b := Child(See(m, f, p, e).value.0, s);
      && m[f.obj].Ptr(s).ref == Kid(f, s).obj && Kid(f, s).obj in m
      && m[Kid(f, s).obj].red == b.red
      && (Kid(Kid(f, s), d).SNode? <==> Child(b, d).Node?)
      && m[Kid(f, s).obj].Ptr(d).ref == Obj(Kid(Kid(f, s), d))
      && (Child(b, d).Node? ==> Obj(Kid(Kid(f, s), d)) in m && m[Kid(Kid(f, s), d).obj].red == Child(b, d).red)
  {
    ViewGrandKid(m, NodePtr(f.obj, None), f, s, d, e);
  }

  lemma OneFrame(m: Memory, s: Side, o: Node, sib: Shape, c: Node?, e: Env)
    requires o in m && m[o].rid == e.rid && m[o].Ptr(s).ref == c && o !in Objs(sib)
    requires View(m, m[o].Ptr(Opposite(s)), sib, e).Some?
    ensures PathView(m, SUp(s, o, sib, STop), c, e) ==
            Some(Up(s, m[o].red, m[o].key, m[o].val, View(m, m[o].Ptr(Opposite(s)), sib, e).value, Top))
    ensures PathObjs(SUp(s, o, sib, STop)) == {o} + Objs(sib)
    ensures RootObj(SUp(s, o, sib, STop), c) == o && Deque(SUp(s, o, sib, STop)) == [o]
  {
  }

  /** A writable version `copy` of the root of `t`, with `child` on side `s`, has
      become the outermost node of the path `p`, which ends in `c`. */
  lemma CopyOver(m: Memory, n: Memory, ptr: NodePtr, t: Shape, s: Side, copy: Node, child: Node?, p: Spine, c: Node, e: Env)
    requires PathView(m, p, c, e).Some? && child == RootObj(p, c) && t.SNode? && t.obj in m
    requires View(m, m[t.obj].Ptr(Opposite(s)), Kid(t, Opposite(s)), e).Some?
    requires t.obj !in Objs(Kid(t, Opposite(s))) && t.obj !in PathObjs(p)
    requires Objs(Kid(t, Opposite(s))) !! PathObjs(p)
    requires copy == t.obj || copy !in m
    requires n == var m1 := m[copy := m[t.obj].(rid := e.rid, readOnly := false)]; m1[copy := m1[copy].SetRef(s, child)]
    ensures var q := SUp(s, copy, Kid(t, Opposite(s)), STop);
      && PathView(n, SAppend(p, q), c, e) ==
         Some(Append(PathView(m, p, c, e).value,
                     Up(s, m[t.obj].red, m[t.obj].key, m[t.obj].val,
                        View(m, m[t.obj].Ptr(Opposite(s)), Kid(t, Opposite(s)), e).value, Top)))
      && PathObjs(SAppend(p, q)) == PathObjs(p) + {copy} + Objs(Kid(t, Opposite(s)))
      && RootObj(SAppend(p, q), c) == copy && Deque(SAppend(p, q)) == Deque(p) + [copy]
  {
    hide View, PathView, SAppend, Append, Objs, PathObjs;
    var o := Opposite(s);
    var q := SUp(s, copy, Kid(t, o), STop);
    ViewDomain(m, m[t.obj].Ptr(o), Kid(t, o), e);
    PathDomain(m, p, c, e);
    ViewFrame(m, n, m[t.obj].Ptr(o), Kid(t, o), e);
    PathFrame(m, n, p, c, e);
    OneFrame(n, s, copy, Kid(t, o), child, e);
    AppendView(n, p, q, c, e);
    AppendFacts(p, q, c);
  }

  /** Everything outside the tree `t` holds what it held, and what is in `s` is
      from `t` or new. */
  ghost predicate Confined(m: Memory, n: Memory, t: Shape, s: set<Node>) {
    && (forall o | o in m && o !in Objs(t) :: o in n && n[o] == m[o])
    && m.Keys <= n.Keys
    && (forall o | o in s && o in m :: o in Objs(t))
  }

  /** The path copied below the root of `t`, on its side `s`, is extended by a
      writable version `copy` of the root. */
  lemma ClimbOver(m0: Memory, m: Memory, n: Memory, ptr: NodePtr, t: Shape, s: Side, copy: Node, f: Shape, p: Spine, e: Env)
    requires View(m0, ptr, t, e).Some? && t.SNode? && f.SNode? && See(m, f, p, e).Some?
    requires Confined(m0, m, Kid(t, s), Objs(f) + PathObjs(p)) && t.obj in m
    requires copy == t.obj || copy !in m
    requires n == var m1 := m[copy := m[t.obj].(rid := e.rid, readOnly := false)];
                  m1[copy := m1[copy].SetRef(s, RootObj(p, f.obj))]
    ensures var q := SAppend(p, SUp(s, copy, Kid(t, Opposite(s)), STop));
      && Confined(m0, n, t, Objs(f) + PathObjs(q))
      && See(n, f, q, e) == Some((See(m, f, p, e).value.0,
                                  Append(See(m, f, p, e).value.1, Frame(View(m0, ptr, t, e).value, s, Top))))
      && RootObj(q, f.obj) == copy && Deque(q) == Deque(p) + [copy]
  {
    hide View, PathView, Objs, PathObjs, Confined, SAppend, Descend;
    ViewKid(m0, ptr, t, s, e);
    ViewKid(m0, ptr, t, Opposite(s), e);
    var k := Kid(t, Opposite(s));
    ClimbApart(m0, m, ptr, t, s, f, p, e);
    ViewFrame(m0, m, m0[t.obj].Ptr(Opposite(s)), k, e);
    ViewCell(m0, ptr, t, e);
    CopyOver(m, n, ptr, t, s, copy, RootObj(p, f.obj), p, f.obj, e);
    ClimbFrame(m, n, f, t.obj, copy, e);
    ClimbConfined(m0, m, n, t, s, copy, Objs(f) + PathObjs(p));
  }

  /** The root of the tree has been made writable. */
  lemma OwnedRoot(m: Memory, ptr: NodePtr, t: Shape, copy: Node, e: Env)
    requires View(m, ptr, t, e).Some? && t.SNode? && t.obj in m
    requires copy == t.obj || copy !in m
    ensures var n := m[copy := m[t.obj].(rid := e.rid, readOnly := false)];
      && See(n, t.(obj := copy), STop, e) == Some((Own(View(m, ptr, t, e).value), Top))
      && Confined(m, n, t, Objs(t.(obj := copy)) + PathObjs(STop))
  {
    var n := m[copy := m[t.obj].(rid := e.rid, readOnly := false)];
    ViewDomain(m, ptr, t, e);
    ViewFrame(m, n, m[t.obj].left, t.left, e);
    ViewFrame(m, n, m[t.obj].right, t.right, e);
  }

  lemma NewLeaf(m: Memory, o: Node, c: Cell, t: Shape, e: Env)
    requires o !in m && c.rid == e.rid && c.left.ref == null && c.right.ref == null
    ensures var n, f := m[o := c], SNode(o, SNil, SNil);
      && See(n, f, STop, e) == Some((Trees.Node(Fresh, c.red, c.key, c.val, Nil, Nil), Top))
      && Confined(m, n, t, Objs(f) + PathObjs(STop))
  {
    var n := m[o := c];
    assert View(n, c.left, SNil, e) == Some(Nil) && View(n, c.right, SNil, e) == Some(Nil);
  }

  /** Nothing fills the hole. */
  lemma EmptyHole(m: Memory, x: Shape, p: Spine, e: Env)
    requires PathView(m, p, Obj(x), e).Some? && x.SNil?
    ensures See(m, x, p, e) == Some((Nil, PathView(m, p, Obj(x), e).value))
  {
  }

  /** What is known of a node that is about to be taken out of the tree. */
  lemma HoleFacts(m: Memory, f: Shape, p: Spine, s: Side, e: Env)
    requires See(m, f, p, e).Some? && f.SNode?
    ensures f.obj in m && f.obj !in PathObjs(p) && See(m, f, p, e).value.0.Node?
    ensures m[f.obj].red == See(m, f, p, e).value.0.red
    ensures View(m, m[f.obj].Ptr(s), Kid(f, s), e) == Some(Child(See(m, f, p, e).value.0, s))
    ensures Objs(Kid(f, s)) !! PathObjs(p)
    ensures Kid(f, s).SNode? <==> Child(See(m, f, p, e).value.0, s).Node?
    ensures Obj(Kid(f, s)) !in PathObjs(p)
  {
    FocusKid(m, f, p, s, e);
    ViewKid(m, NodePtr(f.obj, None), f, s, e);
    NotOnPath(Kid(f, s), p);
  }

  /** Redirecting the pointer from the path leaves the focus alone. */
  lemma SpliceFrame(m: Memory, n: Memory, f: Shape, p: Spine, s: Side, e: Env)
    requires See(m, f, p, e).Some? && f.SNode? && f.obj in m
    requires p.SUp? ==> forall o | o in m && o != p.obj :: o in n && n[o] == m[o]
    requires n.Keys == m.Keys && (p.STop? ==> n == m)
    ensures n[f.obj] == m[f.obj]
    ensures View(n, m[f.obj].Ptr(s), Kid(f, s), e) == View(m, m[f.obj].Ptr(s), Kid(f, s), e)
  {
    NotOnPath(f, p);
    ViewKid(m, NodePtr(f.obj, None), f, s, e);
    ViewFrame(m, n, m[f.obj].Ptr(s), Kid(f, s), e);
  }

  lemma ConfinedSelf(m: Memory, t: Shape)
    ensures Confined(m, m, t, Objs(t) + PathObjs(STop))
  {
  }

  /** The left child of the focus has been replaced by a copy. */
  lemma ConfinedKid(m0: Memory, m: Memory, n: Memory, t: Shape, f: Shape, copy: Node, p: Spine)
    requires Confined(m0, m, t, Objs(f) + PathObjs(p)) && f.SNode? && Kid(f, L).SNode? && copy !in m
    requires n.Keys == m.Keys + {copy} && forall o | o in m && o != f.obj :: n[o] == m[o]
    ensures Confined(m0, n, t, Objs(WithKid(f, L, Kid(f, L).(obj := copy))) + PathObjs(p))
  {
  }

  lemma DownObjs(f: Shape, d: Side, p: Spine)
    requires f.SNode?
    ensures Objs(f) + PathObjs(p) == Objs(Kid(f, d)) + PathObjs(SDown(f, d, p))
  {
  }

  /** The focus as a tree of its own, and the path above it. */
  lemma SubTree(m: Memory, f: Shape, p: Spine, e: Env)
    requires See(m, f, p, e).Some?
    ensures See(m, f, STop, e) == Some((See(m, f, p, e).value.0, Top))
    ensures PathView(m, p, Obj(f), e) == Some(See(m, f, p, e).value.1)
  {
  }

  /** Work confined to the tree `t` leaves the path `p` above it alone. */
  lemma BaseFrame(m: Memory, n: Memory, t: Shape, p: Spine, f: Shape, q: Spine, e: Env)
    requires See(m, t, p, e).Some? && Confined(m, n, t, Objs(f) + PathObjs(q))
    ensures PathView(n, p, Obj(t), e) == PathView(m, p, Obj(t), e)
    ensures Objs(f) + PathObjs(q) !! PathObjs(p)
  {
    PathDomain(m, p, Obj(t), e);
    PathFrame(m, n, p, Obj(t), e);
  }

  lemma FocusIn(f: Shape)
    ensures f.SNode? ==> f.obj in Objs(f)
  {
  }

  lemma PathCell(m: Memory, p: Spine, c: Node?, e: Env)
    requires PathView(m, p, c, e).Some? && p.SUp?
    ensures p.obj in m && m[p.obj].rid == e.rid && p.obj in PathObjs(p)
  {
  }

  /** The innermost node of the path `q` got key and value from the focus. */
  lemma StolenPayload(m: Memory, n: Memory, f: Shape, p: Spine, q: Spine, k: Key, v: Val, e: Env)
    requires See(m, f, p, e).Some? && f.SNode? && f.obj in m
    requires PathView(m, q, RootObj(p, f.obj), e).Some? && q.SUp? && q.obj in m
    requires Objs(f) + PathObjs(p) !! PathObjs(q)
    requires n == var m1 := m[q.obj := m[q.obj].(key := m[f.obj].key, val := m[f.obj].val)];
                  m1[f.obj := m1[f.obj].(key := k, val := v)]
    ensures var a := See(m, f, p, e).value.0;
      && a.Node? && See(n, f, p, e) == Some((a.(key := k, val := v), See(m, f, p, e).value.1))
      && PathView(m, q, RootObj(p, f.obj), e).value.Up?
      && PathView(n, q, RootObj(p, f.obj), e) ==
         Some(PathView(m, q, RootObj(p, f.obj), e).value.(key := a.key, val := a.val))
  {
    assert f.obj in Objs(f) && q.obj in PathObjs(q);
    ViewFrame(m, n, m[f.obj].left, f.left, e);
    ViewFrame(m, n, m[f.obj].right, f.right, e);
    PathFrame(m, n, p, f.obj, e);
    ViewFrame(m, n, m[q.obj].Ptr(Opposite(q.side)), q.sib, e);
    PathFrame(m, n, q.up, q.obj, e);
  }

  lemma SeeAppend(m: Memory, f: Shape, p: Spine, q: Spine, e: Env)
    requires See(m, f, p, e).Some? && PathView(m, q, RootObj(p, Obj(f)), e).Some?
    requires Objs(f) + PathObjs(p) !! PathObjs(q)
    ensures See(m, f, SAppend(p, q), e) ==
      Some((See(m, f, p, e).value.0, Append(See(m, f, p, e).value.1, PathView(m, q, RootObj(p, Obj(f)), e).value)))
    ensures RootObj(SAppend(p, q), Obj(f)) == RootObj(q, RootObj(p, Obj(f)))
    ensures Deque(SAppend(p, q)) == Deque(p) + Deque(q)
  {
    AppendFacts(p, q, Obj(f));
    AppendView(m, p, q, Obj(f), e);
  }

  lemma InMemory(m0: Memory, m: Memory, ptr: NodePtr, t: Shape, s: Side, b: set<Node>, e: Env)
    requires View(m0, ptr, t, e).Some? && t.SNode? && Confined(m0, m, Kid(t, s), b)
    ensures t.obj in m && m[t.obj] == m0[t.obj]
  {
  }

  /** What is copied so far keeps clear of the rest of the tree. */
  lemma ClimbApart(m0: Memory, m: Memory, ptr: NodePtr, t: Shape, s: Side, f: Shape, p: Spine, e: Env)
    requires View(m0, ptr, t, e).Some? && t.SNode? && f.SNode? && See(m, f, p, e).Some?
    requires Confined(m0, m, Kid(t, s), Objs(f) + PathObjs(p)) && t.obj in m
    ensures var k := Kid(t, Opposite(s));
      && t.obj !in PathObjs(p) && t.obj !in Objs(f) && Objs(k) !! PathObjs(p) && Objs(k) !! Objs(f)
      && Same(m0, m, Objs(k)) && m[t.obj] == m0[t.obj] && t.obj !in Objs(k) && Objs(k) <= m.Keys
      && Objs(f) <= m.Keys && Objs(f) !! PathObjs(p)
  {
    hide View, PathView;
    ViewKid(m0, ptr, t, s, e);
    ViewKid(m0, ptr, t, Opposite(s), e);
    ViewDomain(m0, m0[t.obj].Ptr(Opposite(s)), Kid(t, Opposite(s)), e);
    ViewDomain(m, NodePtr(f.obj, None), f, e);
  }

  lemma ClimbFrame(m: Memory, n: Memory, f: Shape, o: Node, copy: Node, e: Env)
    requires o !in Objs(f) && Objs(f) <= m.Keys && (copy == o || copy !in m)
    requires n.Keys == m.Keys + {copy} && forall x | x in m && x != copy :: n[x] == m[x]
    ensures View(n, NodePtr(Obj(f), None), f, e) == View(m, NodePtr(Obj(f), None), f, e)
    ensures copy !in Objs(f)
  {
    ViewFrame(m, n, NodePtr(Obj(f), None), f, e);
  }

  lemma ClimbConfined(m0: Memory, m: Memory, n: Memory, t: Shape, s: Side, copy: Node, b: set<Node>)
    requires t.SNode? && Confined(m0, m, Kid(t, s), b) && (copy == t.obj || copy !in m)
    requires n.Keys == m.Keys + {copy} && forall x | x in m && x != copy :: n[x] == m[x]
    ensures forall c: set<Node> :: c <= b + {copy} + Objs(Kid(t, Opposite(s))) ==> Confined(m0, n, t, c)
  {
  }

  lemma ViewCell(m: Memory, p: NodePtr, t: Shape, e: Env)
    requires View(m, p, t, e).Some? && t.SNode?
    ensures t.obj in m
    ensures var a := View(m, p, t, e).value;
            a.Node? && a.red == m[t.obj].red && a.key == m[t.obj].key && a.val == m[t.obj].val
            && (a.where.Fresh? <==> m[t.obj].rid == e.rid)
  {
  }

  // ------------------------------ what the cases of an insertion write, as trees

  /** Parent on side `d` and uncle turn black, the grandparent red. */
  function Recoloured(a: Tree, d: Side): Tree {
    if a.Nil? then a
    else
      var b := PaintChild(OwnChild(a, Opposite(d)), d, false);
      var c := PaintChild(b, Opposite(d), false);
      c.(red := true)
  }

  function TurnedOut(a: Tree, d: Side): Tree {
    if a.Nil? || Child(a, d).Nil? || Child(Child(a, d), Opposite(d)).Nil? then a
    else WithChild(a, d, RotatedTree(Child(a, d), d))
  }

  function TurnedUp(a: Tree, d: Side): Tree {
    if a.Nil? || Child(a, d).Nil? then a else RotatedTree(SwapReds(a, d), Opposite(d))
  }

  /** The grandparent on side `gs` of which is the parent, with `nn` on side `s`. */
  function Grand(nn: Tree, s: Side, k: Key, v: Val, sib: Tree, gs: Side, gred: bool, gk: Key, gv: Val, uncle: Tree): Tree {
    Join(gs, gred, gk, gv, Join(s, true, k, v, nn, sib), uncle)
  }

  lemma RecolouredTree(nn: Tree, s: Side, k: Key, v: Val, sib: Tree, gs: Side, gred: bool, gk: Key, gv: Val, uncle: Tree)
    ensures Recoloured(Grand(nn, s, k, v, sib, gs, gred, gk, gv, uncle), gs)
         == Join(gs, true, gk, gv, Join(s, false, k, v, nn, sib), Blacken(Own(uncle)))
  {
  }

  lemma TurnedTree(nn: Tree, s: Side, k: Key, v: Val, sib: Tree, gs: Side, gred: bool, gk: Key, gv: Val, uncle: Tree)
    requires IsRed(nn) && IsFresh(nn)
    ensures var a := Grand(nn, s, k, v, sib, gs, gred, gk, gv, uncle);
            TurnedUp(if s == gs then a else TurnedOut(a, gs), gs) ==
            RotateUp(nn, s, k, v, sib, gs, gred, gk, gv, uncle)
    ensures s != gs ==> IsFresh(Child(TurnedOut(Grand(nn, s, k, v, sib, gs, gred, gk, gv, uncle), gs), gs))
  {
  }

  /** The grandparent of the focus, with everything below it. */
  lemma AscendTwice(m: Memory, f: Shape, p: Spine, e: Env)
    requires See(m, f, p, e).Some? && f.SNode? && p.SUp? && p.up.SUp?
    ensures var (a, q) := See(m, f, p, e).value;
      && q.Up? && q.up.Up? && q.side == p.side && q.up.side == p.up.side && IsFresh(a)
    ensures var (a, q) := See(m, f, p, e).value;
      q.red ==>
        See(m, SJoin(p.up.side, p.up.obj, SJoin(p.side, p.obj, f, p.sib), p.up.sib), p.up.up, e) ==
        Some((Grand(a, q.side, q.key, q.val, q.sib, q.up.side, q.up.red, q.up.key, q.up.val, q.up.sib), q.up.up))
  {
    FocusKid(m, f, p, L, e);
    Ascend(m, f, p, e);
    Ascend(m, SJoin(p.side, p.obj, f, p.sib), p.up, e);
  }

  /** Rotating ends an insertion. */
  lemma InsertTurn(a: Tree, p: Path, h: nat)
    requires InsertReady(a, p, h) && IsFresh(a) && p.Up? && p.red && p.up.Up? && !IsRed(p.up.sib)
    ensures var g, d := Grand(a, p.side, p.key, p.val, p.sib, p.up.side, p.up.red, p.up.key, p.up.val, p.up.sib), p.up.side;
      var u := TurnedUp(if p.side == d then g else TurnedOut(g, d), d);
      && InsertFix(a, p) == Blacken(Zip(u, p.up.up))
      && !IsRed(u) && (p.side != d ==> IsFresh(Child(TurnedOut(g, d), d)))
  {
    TurnedTree(a, p.side, p.key, p.val, p.sib, p.up.side, p.up.red, p.up.key, p.up.val, p.up.sib);
  }

  /** Recolouring moves the red node up two steps. */
  lemma InsertRecolour(a: Tree, p: Path, h: nat)
    requires InsertReady(a, p, h) && p.Up? && p.red && p.up.Up? && IsRed(p.up.sib)
    ensures var g := Grand(a, p.side, p.key, p.val, p.sib, p.up.side, p.up.red, p.up.key, p.up.val, p.up.sib);
      var u := Recoloured(g, p.up.side);
      InsertFix(a, p) == InsertFix(u, p.up.up) && InsertReady(u, p.up.up, h + 1)
  {
    assert PathRB(p.up, h) && PathRB(p.up.up, h + 1) && RB(p.sib, h) && RB(p.up.sib, h);
    RecolouredTree(a, p.side, p.key, p.val, p.sib, p.up.side, p.up.red, p.up.key, p.up.val, p.up.sib);
  }

  /** How the loop tells on which side of the grandparent the parent is. */
  lemma SideOfParent(m: Memory, f: Shape, p: Spine, e: Env)
    requires See(m, f, p, e).Some? && p.SUp?
    ensures var q := See(m, f, p, e).value.1; q.Up? && (p.up.SUp? <==> q.up.Up?) && q.red == (p.obj in m && m[p.obj].red)
    ensures p.obj in m
    ensures p.up.SUp? ==>
      var q := See(m, f, p, e).value.1.up;
      && p.up.obj in m && q.side == p.up.side && m[p.up.obj].Ptr(Opposite(p.up.side)).ref == Obj(p.up.sib)
      && (p.up.sib.SNode? <==> q.sib.Node?)
      && (p.up.sib.SNode? ==> p.up.sib.obj in m && m[p.up.sib.obj].red == q.sib.red)
      && forall s: Side :: m[p.up.obj].Ptr(s).ref == p.obj <==> s == p.up.side
  {
    assert PathView(m, p.up, p.obj, e) == Some(See(m, f, p, e).value.1.up);
    if p.up.SUp? {
      HoleOnOneSide(m, p.up, p.obj, e);
      ViewNode(m, m[p.up.obj].Ptr(Opposite(p.up.side)), p.up.sib, e);
    }
  }

  /** Where the grandparent and the node above it are on the path. */
  lemma GrandOnPath(p: Spine, c: Node?)
    requires p.SUp? && p.up.SUp?
    ensures RootObj(p, c) == RootObj(p.up.up, p.up.obj)
    ensures Deque(p.up) == [p.up.obj] + Deque(p.up.up)
    ensures (Deque(p.up.up) + [null])[0] == PathObj(p.up.up)
    ensures p.up.up.SUp? ==> Deque(p.up.up) == [p.up.up.obj] + Deque(p.up.up.up)
  {
    assert RootObj(p, c) == RootObj(p.up, p.obj);
  }

  /** Both children tell on which side the new node is. */
  lemma SideOfNew(m: Memory, f: Shape, p: Spine, e: Env)
    requires See(m, f, p, e).Some? && p.SUp? && f.SNode?
    ensures p.obj in m && forall s: Side :: m[p.obj].Ptr(s).ref == f.obj <==> s == p.side
  {
    FocusIn(f);
    NotOnPath(f, p);
    HoleOnOneSide(m, p, f.obj, e);
  }

  /** A red parent is not the root. */
  lemma RedParent(m: Memory, f: Shape, p: Spine, h: nat, e: Env)
    requires See(m, f, p, e).Some? && p.SUp? && p.obj in m && m[p.obj].red
    requires InsertReady(See(m, f, p, e).value.0, See(m, f, p, e).value.1, h)
    ensures p.up.SUp? && See(m, f, p, e).value.1.Up? && See(m, f, p, e).value.1.red
  {
    SideOfParent(m, f, p, e);
  }

  lemma InsertDone(a: Tree, p: Path)
    ensures p.Top? || !p.red ==> InsertFix(a, p) == Blacken(Zip(a, p))
  {
  }

  // ------------------------------------------------------------ the search path

  /** The objects that the search for a key comes along. */
  function OnPath(m: Memory, t: Shape, k: Key): seq<Node> {
    if t.SNil? || t.obj !in m then []
    else if m[t.obj].key == k then [t.obj]
    else [t.obj] + OnPath(m, if Less(k, m[t.obj].key) then t.left else t.right, k)
  }

  /** After a copy all of them are own ones, and the last one holds the key. */
  lemma {:induction false} PathOwn(m: Memory, p: NodePtr, t: Shape, a: Tree, b: Tree, k: Key, e: Env)
    requires View(m, p, t, e) == Some(a) && Refreshed(a, b, k)
    ensures var ns := OnPath(m, t, k);
      && (forall n | n in ns :: n in m && m[n].rid == e.rid)
      && ns != [] && m[ns[|ns| - 1]].key == k
    decreases t
  {
    if k != a.key {
      if Less(k, a.key) {
        PathOwn(m, m[t.obj].left, t.left, a.left, b.left, k, e);
      } else {
        PathOwn(m, m[t.obj].right, t.right, a.right, b.right, k, e);
      }
    }
  }

  lemma SeeView(m: Memory, f: Shape, e: Env)
    requires See(m, f, STop, e).Some?
    ensures View(m, NodePtr(Obj(f), None), f, e) == Some(See(m, f, STop, e).value.0)
  {
  }
}
