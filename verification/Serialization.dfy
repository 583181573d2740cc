/** Writing out the nodes of a delta, and what a change of rid or of the form of
    an address does to what a tree stands for. */
module Serialization {
  import opened Basics
  import opened Keys
  import opened Trees
  import opened TreeOps
  import opened TreeProofs
  import opened Nodes
  import opened Shapes
  import opened Deltas
  import opened Relinks
  import opened Infection

  /** The messages NodePtr and Node of an after image. */
  datatype PtrEntry = NilPtr | SelfPtr(off: nat) | AfterImagePtr(pos: nat, off: nat) | IntentionPtr(ipos: nat, off: nat)

  datatype NodeEntry = NodeEntry(red: bool, key: Key, val: Val, left: PtrEntry, right: PtrEntry)

  /** The reference that a serialized pointer stands for, by intention. */
  function Meaning(p: PtrEntry, primary: map<nat, nat>): Option<Ref> {
    match p
    case NilPtr => Some(Void)
    case SelfPtr(off) => Some(Self(off))
    case IntentionPtr(i, off) => Some(Link(i, off))
    case AfterImagePtr(pos, off) => if pos in primary then Some(Link(primary[pos], off)) else None
  }

  ghost predicate Means(es: seq<NodeEntry>, ds: seq<Entry>, primary: map<nat, nat>) {
    && |es| == |ds|
    && forall k :: 0 <= k < |es| ==> EntryMeans(es[k], ds[k], primary)
  }

  predicate EntryMeans(e: NodeEntry, d: Entry, primary: map<nat, nat>) {
    && e.red == d.red && e.key == d.key && e.val == d.val
    && Meaning(e.left, primary) == Some(d.left) && Meaning(e.right, primary) == Some(d.right)
  }

  /** A child is named by its after image if that is known, by its intention only
      otherwise. */
  predicate ByImage(p: PtrEntry, resolved: map<nat, nat>) {
    p.IntentionPtr? ==> p.ipos !in resolved
  }

  ghost predicate AllByImage(es: seq<NodeEntry>, resolved: map<nat, nat>) {
    forall e | e in es :: ByImage(e.left, resolved) && ByImage(e.right, resolved)
  }

  lemma ByImageConcat(a: seq<NodeEntry>, b: seq<NodeEntry>, e: NodeEntry, resolved: map<nat, nat>)
    requires AllByImage(a, resolved) && AllByImage(b, resolved) && ByImage(e.left, resolved) && ByImage(e.right, resolved)
    ensures AllByImage(a + b + [e], resolved)
  {
  }

  lemma MeansConcat(a: seq<NodeEntry>, b: seq<NodeEntry>, c: seq<Entry>, d: seq<Entry>, primary: map<nat, nat>)
    requires Means(a, c, primary) && Means(b, d, primary)
    ensures Means(a + b, c + d, primary)
  {
  }

  /** Shared subtrees belong to other intentions than `i`. */
  predicate Foreign(t: Tree, i: nat) {
    t.Node? ==> if t.where.At? then t.where.ipos != i else Foreign(t.left, i) && Foreign(t.right, i)
  }

  /** The own nodes of a tree, in the order in which they are numbered. */
  ghost function OwnNodes(m: Memory, t: Shape, rid: int): seq<Node> {
    if t.SNil? || t.obj !in m || m[t.obj].rid != rid then []
    else OwnNodes(m, t.left, rid) + OwnNodes(m, t.right, rid) + [t.obj]
  }

  // ----------------------------------------------------------- changing the rid

  ghost function Rebranded(m: Memory, s: set<Node>, i: int): Memory {
    map n | n in m :: if n in s then m[n].(rid := i) else m[n]
  }

  lemma RebrandedNone(m: Memory, i: int)
    ensures Rebranded(m, {}, i) == m
  {
  }

  lemma RebrandedMore(m: Memory, s: set<Node>, n: Node, i: int)
    requires n in m && n !in s
    ensures n in Rebranded(m, s, i) && Rebranded(m, s, i)[n] == m[n]
    ensures Rebranded(m, s, i)[n := m[n].(rid := i)] == Rebranded(m, s + {n}, i)
  {
  }

  lemma RebrandedOutside(m: Memory, s: set<Node>, i: int, other: int)
    requires Outside(m, other) && other != i
    ensures Outside(Rebranded(m, s, i), other)
  {
  }

  /** Handing all own nodes over to another rid does not change the tree. */
  lemma {:induction false} ViewRebranded(m: Memory, s: set<Node>, p: NodePtr, t: Shape, e: Env, i: int)
    requires forall n | n in m :: (n in s <==> m[n].rid == e.rid) && (n !in s ==> m[n].rid != i)
    ensures View(Rebranded(m, s, i), p, t, Env(i, e.primary)) == View(m, p, t, e)
    decreases t
  {
    if t.SNode? && t.obj in m {
      ViewRebranded(m, s, m[t.obj].left, t.left, e, i);
      ViewRebranded(m, s, m[t.obj].right, t.right, e, i);
    }
  }

  // ------------------------------------------------------------------ serializing

  /** A pointer that must be written out for the child `a`, placed as `p`. */
  lemma ChildPointer(m: Memory, ptr: NodePtr, t: Shape, a: Tree, p: Tree, i: nat, idx: nat, e: Env, f: Env)
    requires f.primary == e.primary && Outside(m, f.rid)
    requires View(m, ptr, t, e) == Some(a) && View(m, ptr, t, f) == Some(p) && p == Place(a, i, idx).0
    requires Foreign(a, i)
    ensures ptr.ref == Obj(t) && (ptr.ref == null <==> RefTo(p, i) == Void) && (ptr.ref != null ==> ptr.ref in m && ptr.address.Some?)
    ensures ptr.ref != null && m[ptr.ref].rid == e.rid ==>
      RefTo(p, i) == Self(Place(a, i, idx).1 - 1) && ptr.address.value.offset == Place(a, i, idx).1 - 1
    ensures ptr.ref != null && m[ptr.ref].rid != e.rid ==>
      Denoted(ptr.address, e) == Some(p.where) && RefTo(p, i) == Link(p.where.ipos, ptr.address.value.offset)
  {
    if t.SNode? {
      ViewCell(m, ptr, t, e);
      ViewCell(m, ptr, t, f);
      PlaceFacts(a, i, idx);
    }
  }

  /** The parts of an own node, as its tree and as outsiders see them. */
  lemma OwnParts(m: Memory, ptr: NodePtr, q: NodePtr, t: Shape, a: Tree, i: nat, idx: nat, e: Env, f: Env)
    requires t.SNode? && t.obj in m && m[t.obj].rid == e.rid
    requires View(m, ptr, t, e) == Some(a) && View(m, q, t, f) == Some(Place(a, i, idx).0)
    ensures a.Node? && a.where.Fresh?
    ensures var l := Place(a.left, i, idx).1;
      && View(m, m[t.obj].left, t.left, e) == Some(a.left) && View(m, m[t.obj].right, t.right, e) == Some(a.right)
      && View(m, m[t.obj].left, t.left, f) == Some(Place(a.left, i, idx).0)
      && View(m, m[t.obj].right, t.right, f) == Some(Place(a.right, i, l).0)
    ensures var l := Place(a.left, i, idx);
      var r := Place(a.right, i, l.1);
      Place(a, i, idx) == (Trees.Node(At(i, r.1), m[t.obj].red, m[t.obj].key, m[t.obj].val, l.0, r.0), r.1 + 1)
  {
    hide View;
    ViewCell(m, ptr, t, e);
    ViewKid(m, ptr, t, L, e);
    ViewKid(m, ptr, t, R, e);
    ViewKid(m, q, t, L, f);
    ViewKid(m, q, t, R, f);
  }

  lemma MeansNothing(primary: map<nat, nat>)
    ensures Means([], [], primary)
  {
  }

  lemma SharedFacts(a: Tree, i: nat, idx: nat)
    requires Foreign(a, i) && (a.Nil? || a.where.At?)
    ensures Entries(Place(a, i, idx).0, i) == [] && Place(a, i, idx).1 == idx
  {
  }

  lemma ForeignParts(a: Tree, i: nat)
    requires Foreign(a, i) && a.Node? && a.where.Fresh?
    ensures Foreign(a.left, i) && Foreign(a.right, i)
  {
  }

  /** The entry of an own node behind those of its subtrees. */
  lemma MeansNode(left: seq<NodeEntry>, right: seq<NodeEntry>, e: NodeEntry, a: Tree, i: nat, idx: nat, primary: map<nat, nat>)
    requires a.Node? && a.where.Fresh?
    requires var l := Place(a.left, i, idx);
      && Means(left, Entries(l.0, i), primary) && Means(right, Entries(Place(a.right, i, l.1).0, i), primary)
      && e.red == a.red && e.key == a.key && e.val == a.val
      && Meaning(e.left, primary) == Some(RefTo(l.0, i)) && Meaning(e.right, primary) == Some(RefTo(Place(a.right, i, l.1).0, i))
    ensures Means(left + right + [e], Entries(Place(a, i, idx).0, i), primary)
  {
    var l := Place(a.left, i, idx);
    var r := Place(a.right, i, l.1);
    EntriesUnfold(a, i, idx);
    MeansConcat(left, right, Entries(l.0, i), Entries(r.0, i), primary);
    MeansConcat(left + right, [e], Entries(l.0, i) + Entries(r.0, i),
                [Entry(a.red, a.key, a.val, RefTo(l.0, i), RefTo(r.0, i))], primary);
  }

  // ------------------------------------- from intention to after image addresses

  /** The pointer from `n` on side `s`, if it leads to an own node, carries the
      address form of the intention. */
  predicate SideForm(m: Memory, n: Node, i: nat, s: Side)
    requires n in m
  {
    var p := m[n].Ptr(s);
    p.ref != null ==>
      p.ref in m &&
      (m[p.ref].rid == i ==> p.address.Some? && !p.address.value.isAfterImage && p.address.value.position == i)
  }

  /** So do all pointers from `n`. */
  predicate IntentionForm(m: Memory, n: Node, i: nat)
    requires n in m
  {
    forall s: Side :: SideForm(m, n, i, s)
  }

  /** The pointers from `n` to own nodes carry the address form of the after image. */
  predicate AfterImageForm(m: Memory, n: Node, i: nat, pos: nat)
    requires n in m
  {
    forall s: Side :: m[n].Ptr(s).ref != null && m[n].Ptr(s).ref in m && m[m[n].Ptr(s).ref].rid == i ==>
      var a := m[n].Ptr(s).address; a.Some? && a.value.isAfterImage && a.value.position == pos
  }

  lemma DistinctConcat(a: seq<Node>, b: seq<Node>, n: Node)
    requires Distinct(a) && Distinct(b) && n !in a && n !in b && forall x | x in a :: x !in b
    ensures Distinct(a + b + [n])
  {
    forall j, k | 0 <= j < k < |a| + |b| + 1 ensures (a + b + [n])[j] != (a + b + [n])[k] {
      assert j < |a| ==> (a + b + [n])[j] in a;
      assert |a| <= k < |a| + |b| ==> (a + b + [n])[k] == b[k - |a|];
    }
  }

  /** As long as there is no after image of `i`, pointers to its nodes name it. */
  lemma {:induction false} OwnNodesFacts(m: Memory, p: NodePtr, t: Shape, i: nat, f: Env, a: Tree)
    requires View(m, p, t, f) == Some(a) && Outside(m, f.rid) && forall pos | pos in f.primary :: f.primary[pos] != i
    requires Branded(m, t, a, i)
    ensures forall n | n in OwnNodes(m, t, i) :: n in m && m[n].rid == i && n in Objs(t) && IntentionForm(m, n, i)
    ensures Distinct(OwnNodes(m, t, i))
    decreases t
  {
    if t.SNode? && m[t.obj].rid == i {
      OwnNodesFacts(m, m[t.obj].left, t.left, i, f, a.left);
      OwnNodesFacts(m, m[t.obj].right, t.right, i, f, a.right);
      assert IntentionForm(m, t.obj, i);
      DistinctConcat(OwnNodes(m, t.left, i), OwnNodes(m, t.right, i), t.obj);
    }
  }

  /** Nodes with rid `i` are nodes of the after image of `i`. */
  predicate Branded(m: Memory, t: Shape, a: Tree, i: nat) {
    t.SNode? && a.Node? && t.obj in m && m[t.obj].rid == i ==>
      a.where.At? && a.where.ipos == i && Branded(m, t.left, a.left, i) && Branded(m, t.right, a.right, i)
  }

  /** A pointer may name its target by intention or by after image. */
  predicate SameTarget(p: NodePtr, q: NodePtr, e: Env) {
    q.ref == p.ref && Denoted(q.address, e) == Denoted(p.address, e)
  }

  ghost predicate SameTargets(m: Memory, n: Memory, e: Env) {
    n.Keys == m.Keys && forall o | o in m ::
      && n[o] == m[o].(left := n[o].left, right := n[o].right, readOnly := n[o].readOnly)
      && SameTarget(m[o].left, n[o].left, e) && SameTarget(m[o].right, n[o].right, e)
  }

  lemma {:induction false} ViewTargets(m: Memory, n: Memory, p: NodePtr, q: NodePtr, t: Shape, e: Env)
    requires SameTargets(m, n, e) && SameTarget(p, q, e)
    ensures View(n, q, t, e) == View(m, p, t, e)
    decreases t
  {
    if t.SNode? && t.obj in m {
      ViewTargets(m, n, m[t.obj].left, n[t.obj].left, t.left, e);
      ViewTargets(m, n, m[t.obj].right, n[t.obj].right, t.right, e);
    }
  }

  ghost predicate Extends(primary: map<nat, nat>, later: map<nat, nat>) {
    forall pos | pos in primary :: pos in later && later[pos] == primary[pos]
  }

  /** Learning where more after images are changes no tree. */
  lemma {:induction false} ViewMorePrimary(m: Memory, p: NodePtr, t: Shape, e: Env, f: Env)
    requires View(m, p, t, e).Some? && f.rid == e.rid && Extends(e.primary, f.primary)
    ensures View(m, p, t, f) == View(m, p, t, e)
    decreases t
  {
    if t.SNode? {
      ViewMorePrimary(m, m[t.obj].left, t.left, e, f);
      ViewMorePrimary(m, m[t.obj].right, t.right, e, f);
    }
  }

  /** Targets do not depend on who is looking. */
  lemma SameTargetsRid(m: Memory, n: Memory, e: Env, f: Env)
    requires SameTargets(m, n, e) && f.primary == e.primary
    ensures SameTargets(m, n, f)
  {
    forall o | o in m ensures SameTarget(m[o].left, n[o].left, f) && SameTarget(m[o].right, n[o].right, f) {
      assert SameTarget(m[o].left, n[o].left, e) && SameTarget(m[o].right, n[o].right, e);
    }
  }

  /** The same pointer, if it leads to an own node, by after image. */
  function ToAfterImage(m: Memory, p: NodePtr, rid: int, pos: nat): NodePtr {
    if p.ref != null && p.ref in m && m[p.ref].rid == rid && p.address.Some?
    then p.(address := Some(p.address.value.(position := pos, isAfterImage := true)))
    else p
  }

  function ConvertedCell(m: Memory, c: Cell, rid: int, pos: nat): Cell {
    c.(left := ToAfterImage(m, c.left, rid, pos), right := ToAfterImage(m, c.right, rid, pos))
  }

  /** Once the after image of `i` is known to be at `pos`, both forms mean the
      same. */
  lemma ConvertedSame(m: Memory, o: Node, i: nat, pos: nat, e: Env)
    requires o in m && IntentionForm(m, o, i) && pos in e.primary && e.primary[pos] == i
    ensures var n := m[o := ConvertedCell(m, m[o], i, pos)]; SameTargets(m, n, e) && Readdressed(m, n, i)
  {
    assert m[o].Ptr(L) == m[o].left && m[o].Ptr(R) == m[o].right;
    assert SideForm(m, o, i, L) && SideForm(m, o, i, R);
  }

  lemma ToAfterImageSame(m: Memory, n: Memory, p: NodePtr, rid: int, pos: nat)
    requires n.Keys == m.Keys && forall o | o in m :: n[o].rid == m[o].rid
    ensures ToAfterImage(n, p, rid, pos) == ToAfterImage(m, p, rid, pos)
  {
  }

  /** Whose nodes they are does not depend on the form of addresses. */
  lemma {:induction false} OwnNodesTargets(m: Memory, n: Memory, t: Shape, rid: int, e: Env)
    requires SameTargets(m, n, e)
    ensures OwnNodes(n, t, rid) == OwnNodes(m, t, rid)
  {
    if t.SNode? {
      OwnNodesTargets(m, n, t.left, rid, e);
      OwnNodesTargets(m, n, t.right, rid, e);
    }
  }

  lemma OutsideTargets(m: Memory, n: Memory, rid: int, e: Env)
    requires SameTargets(m, n, e) && Outside(m, rid)
    ensures Outside(n, rid)
  {
  }

  lemma SameTargetsSelf(m: Memory, e: Env)
    ensures SameTargets(m, m, e)
  {
  }

  ghost function Frozen(m: Memory, s: set<Node>): Memory {
    map n | n in m :: if n in s then m[n].(readOnly := true) else m[n]
  }

  lemma FrozenNone(m: Memory)
    ensures Frozen(m, {}) == m
  {
  }

  lemma FrozenMore(m: Memory, s: set<Node>, n: Node)
    requires n in m && n !in s
    ensures n in Frozen(m, s) && Frozen(m, s)[n] == m[n]
    ensures Frozen(m, s)[n := m[n].(readOnly := true)] == Frozen(m, s + {n})
  {
  }

  lemma FrozenTargets(m: Memory, s: set<Node>, e: Env)
    ensures SameTargets(m, Frozen(m, s), e)
  {
  }

  lemma SameTargetsTwice(m: Memory, n: Memory, k: Memory, e: Env)
    requires SameTargets(m, n, e) && SameTargets(n, k, e)
    ensures SameTargets(m, k, e)
  {
  }

  lemma FormKept(m: Memory, n: Memory, o: Node, i: nat)
    requires o in m && o in n && n[o] == m[o] && IntentionForm(m, o, i)
    requires n.Keys == m.Keys && forall x | x in m :: n[x].rid == m[x].rid
    ensures IntentionForm(n, o, i)
  {
    forall s: Side ensures SideForm(n, o, i, s) {
      assert SideForm(m, o, i, s);
    }
  }

  /** Converting `n` makes it right and leaves what is right alone. */
  lemma AfterImageKept(m: Memory, n: Node, x: Node, i: nat, pos: nat)
    requires n in m && x in m && IntentionForm(m, n, i)
    requires x == n || AfterImageForm(m, x, i, pos)
    ensures AfterImageForm(m[n := ConvertedCell(m, m[n], i, pos)], x, i, pos)
  {
    var k := m[n := ConvertedCell(m, m[n], i, pos)];
    forall s: Side | k[x].Ptr(s).ref != null && k[x].Ptr(s).ref in k && k[k[x].Ptr(s).ref].rid == i
      ensures var a := k[x].Ptr(s).address; a.Some? && a.value.isAfterImage && a.value.position == pos
    {
      assert m[x].Ptr(s).ref == k[x].Ptr(s).ref;
      assert x == n ==> SideForm(m, n, i, s);
    }
  }

  lemma Progress(ns: seq<Node>, k: nat)
    requires k < |ns| && Distinct(ns)
    ensures forall x | x in ns[k + 1..] :: x in ns[k..] && x != ns[k]
    ensures forall x | x in ns[..k + 1] :: x in ns && (x == ns[k] || x in ns[..k])
  {
    assert ns[k..] == [ns[k]] + ns[k + 1..];
    assert ns[..k + 1] == ns[..k] + [ns[k]];
  }

  // ----------------------------------------- what the nodes of a delta stand for

  /** The node that a reference in the after image of `i` leads to. */
  function RefWhere(r: Ref, i: nat): Option<Where> {
    match r
    case Void => None
    case Self(off) => Some(At(i, Short(off)))
    case Link(j, off) => Some(At(j, Short(off)))
  }

  predicate PtrMeans(p: NodePtr, r: Ref, i: nat, e: Env) {
    if r.Void? then p.ref == null else p.ref != null && Denoted(p.address, e) == RefWhere(r, i)
  }

  predicate CellMeans(c: Cell, d: Entry, i: nat, e: Env) {
    && c.red == d.red && c.key == d.key && c.val == d.val && c.rid == i
    && PtrMeans(c.left, d.left, i, e) && PtrMeans(c.right, d.right, i, e)
  }

  ghost predicate CellsMean(m: Memory, ns: seq<Node>, ds: seq<Entry>, i: nat, e: Env) {
    |ns| == |ds| && forall k :: 0 <= k < |ns| ==> ns[k] in m && CellMeans(m[ns[k]], ds[k], i, e)
  }

  lemma CellsMeanConcat(m: Memory, a: seq<Node>, b: seq<Node>, n: Node, c: seq<Entry>, d: seq<Entry>, x: Entry, i: nat, e: Env)
    requires CellsMean(m, a, c, i, e) && CellsMean(m, b, d, i, e) && n in m && CellMeans(m[n], x, i, e)
    ensures CellsMean(m, a + b + [n], c + d + [x], i, e)
  {
  }

  /** A child pointer as it is seen through addresses. */
  lemma ChildMeans(m: Memory, ptr: NodePtr, t: Shape, p: Tree, i: nat, f: Env)
    requires View(m, ptr, t, f) == Some(p) && Outside(m, f.rid)
    ensures PtrMeans(ptr, RefTo(p, i), i, f)
  {
    if t.SNode? {
      ViewCell(m, ptr, t, f);
    }
  }

  /** The nodes of a delta in memory are what its entries say, one by one. */
  lemma {:induction false} DeltaMeans(m: Memory, ptr: NodePtr, q: NodePtr, t: Shape, a: Tree, i: nat, idx: nat, e: Env, f: Env)
    requires e.rid == i && View(m, ptr, t, e) == Some(a) && View(m, q, t, f) == Some(Place(a, i, idx).0)
    requires Foreign(a, i) && Outside(m, f.rid)
    ensures CellsMean(m, OwnNodes(m, t, i), Entries(Place(a, i, idx).0, i), i, f)
    decreases t
  {
    hide View, Place, Entries, RefTo, Foreign, Outside, CellsMean, CellMeans, PtrMeans;
    ViewNode(m, ptr, t, e);
    if t.SNil? || m[t.obj].rid != i {
      if t.SNode? {
        ViewCell(m, ptr, t, e);
      }
      SharedFacts(a, i, idx);
      NoCells(m, i, f);
    } else {
      var l, n := Place(a.left, i, idx), t.obj;
      OwnParts(m, ptr, q, t, a, i, idx, e, f);
      ForeignParts(a, i);
      DeltaMeans(m, m[n].left, m[n].left, t.left, a.left, i, idx, e, f);
      DeltaMeans(m, m[n].right, m[n].right, t.right, a.right, i, l.1, e, f);
      var r := Place(a.right, i, l.1);
      EntriesUnfold(a, i, idx);
      ChildMeans(m, m[n].left, t.left, l.0, i, f);
      ChildMeans(m, m[n].right, t.right, r.0, i, f);
      ViewCell(m, q, t, f);
      var x := Entry(a.red, a.key, a.val, RefTo(l.0, i), RefTo(r.0, i));
      OwnCell(m, ptr, t, a, x, i, e, f);
      CellsMeanConcat(m, OwnNodes(m, t.left, i), OwnNodes(m, t.right, i), n, Entries(l.0, i), Entries(r.0, i), x, i, f);
    }
  }

  lemma OwnCell(m: Memory, ptr: NodePtr, t: Shape, a: Tree, x: Entry, i: nat, e: Env, f: Env)
    requires t.SNode? && View(m, ptr, t, e) == Some(a) && t.obj in m && m[t.obj].rid == i && a.Node?
    requires x == Entry(a.red, a.key, a.val, x.left, x.right)
    requires PtrMeans(m[t.obj].left, x.left, i, f) && PtrMeans(m[t.obj].right, x.right, i, f)
    ensures CellMeans(m[t.obj], x, i, f)
  {
    hide PtrMeans;
    ViewCell(m, ptr, t, e);
  }

  lemma NoCells(m: Memory, i: nat, f: Env)
    ensures CellsMean(m, [], [], i, f)
  {
  }

  /** In a placed tree the own nodes are those of the intention. */
  lemma {:induction false} PlacedBranded(m: Memory, ptr: NodePtr, q: NodePtr, t: Shape, a: Tree, i: nat, idx: nat, e: Env, f: Env)
    requires e.rid == i && View(m, ptr, t, e) == Some(a) && View(m, q, t, f) == Some(Place(a, i, idx).0)
    ensures Branded(m, t, Place(a, i, idx).0, i)
    decreases t
  {
    if t.SNode? && m[t.obj].rid == i {
      OwnParts(m, ptr, q, t, a, i, idx, e, f);
      PlacedBranded(m, m[t.obj].left, m[t.obj].left, t.left, a.left, i, idx, e, f);
      PlacedBranded(m, m[t.obj].right, m[t.obj].right, t.right, a.right, i, Place(a.left, i, idx).1, e, f);
    }
  }

  lemma FormAt(m: Memory, n: Node, i: nat, s: Side)
    requires n in m && IntentionForm(m, n, i)
    ensures SideForm(m, n, i, s)
  {
  }

  lemma FormStays(m: Memory, k: Memory, n: Node, i: nat, s: Side)
    requires n in m && n in k && SideForm(m, n, i, s) && k[n].Ptr(s) == m[n].Ptr(s)
    requires k.Keys == m.Keys && forall o | o in m :: k[o].rid == m[o].rid
    ensures SideForm(k, n, i, s)
  {
  }
}
