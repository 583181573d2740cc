/** Building the next root in memory: out of the tree of the client that ran the
    transaction, or by replaying its intention. Either way other trees, looking at
    it through addresses, see the same. */
module CommitTrees {
  import opened Basics
  import opened Keys
  import opened Trees
  import opened TreeOps
  import opened TreeProofs
  import opened Zippers
  import opened Nodes
  import opened Shapes
  import opened Deltas
  import opened Positions
  import opened Intentions
  import opened Infection
  import opened Histories
  import opened Transactions
  import opened PersistentTrees

  // The rid of the sentinel: no tree has it.
  const NOBODY: int := -0x8000_0000_0000_0000

  /** The nodes of a committed tree, as everyone sees them through addresses. */
  ghost predicate Published(m: Memory, root: NodePtr, t: Shape, rids: set<int>, primary: map<nat, nat>, a: Tree)
    reads m.Keys
  {
    && (forall n | n in m :: n.Holds(m[n]) && m[n].rid in rids)
    && NOBODY !in rids && View(m, root, t, Env(NOBODY, primary)) == Some(a)
  }

  lemma PublishedSame(m: Memory, root: NodePtr, t: Shape, rids: set<int>, primary: map<nat, nat>, a: Tree, rid: int)
    requires Published(m, root, t, rids, primary, a) && Old(a) && rid !in rids
    ensures View(m, root, t, Env(rid, primary)) == Some(a)
  {
    ViewOutside(m, root, t, Env(NOBODY, primary), Env(rid, primary));
  }

  /** How others point to the root of the delta of intention `pos`. */
  ghost predicate RootAt(root: NodePtr, tree: PersistentTree, pos: nat)
    requires tree.Valid()
    reads tree, tree.memory.Keys
  {
    && tree.root.Some? && tree.root.value != null && 0 < FreshCount(tree.Tree()) <= OFFSETS
    && root == NodePtr(tree.root.value, Some(NodeAddress(pos, FreshCount(tree.Tree()) - 1, false)))
  }

  /** The commit is listed in the tree, which then gets its addresses. */
  method Conclude(next: PersistentTree, pos: nat, replayed: bool, ghost c: nat) returns (root: NodePtr)
    requires next.Valid() && !next.emptied && Anchored(next.Tree(), c) && c != pos && c < POSITIONS && pos < POSITIONS
    requires if replayed then next.rid == pos else next.rid < 0
    requires pos !in next.others && NOBODY !in next.others && next.rid != NOBODY
    requires FreshCount(PutT(next.Tree(), CommitKey(pos), "")) <= OFFSETS
    modifies next`root, next`emptied, next`rid, next`memory, next`owned, next`freshNodes, next`shape, next.owned
    ensures old(next.owned) <= next.owned && fresh(next.owned - old(next.owned))
    ensures next.Valid() && next.rid == pos && next.Tree() == PutT(old(next.Tree()), CommitKey(pos), "")
    ensures Published(next.memory, root, next.shape, next.others + {pos as int}, next.primary, Place(next.Tree(), pos, 0).0)
    ensures RootAt(root, next, pos)
  {
    hide CommitKey, PutT, DeleteT, View, ValidTree, Layered, Place, FreshCount, Contents, Outside, Less, Pad20, Has;
    hide PersistentTree.Synced, PersistentTree.Here;
    PadOrder(c, pos);
    DeleteCorrect(next.Tree(), CommitKey(pos));
    NoKeyInNil(CommitKey(c));
    next.Put(CommitKey(pos), "");
    var off := next.InfectSelfPointers(pos, replayed, Env(NOBODY, next.primary));
    root := NodePtr(next.root.value, Some(NodeAddress(pos, off.value, false)));
    next.Members();
  }

  /** The tree of a client whose transaction ran on the nodes `m`. */
  ghost predicate Mine(mine: PersistentTree, m: Memory, rids: set<int>, primary: map<nat, nat>)
    reads mine, mine.memory.Keys
  {
    && mine.Valid() && mine.rid < 0 && mine.rid != NOBODY && !mine.emptied && mine.primary == primary
    && mine.others <= rids && mine.foreign <= m.Keys && mine.owned !! m.Keys
  }

  /** The next root after the intention at `pos` has committed on `root`: reuse of the
      client's tree and replay make the same, node for node. */
  method BuildNext(root: NodePtr, pos: nat, ops: seq<Op>, mine: PersistentTree?,
                   ghost m: Memory, ghost t: Shape, ghost rids: set<int>, ghost primary: map<nat, nat>, ghost a: Tree, ghost c: nat)
    returns (root': NodePtr, next: PersistentTree)
    requires Published(m, root, t, rids, primary, a) && pos !in rids && pos < POSITIONS
    requires ValidTree(a) && Old(a) && Anchored(a, c) && c != pos && c < POSITIONS && UserOps(ops)
    requires FreshCount(Delta(a, ops, pos)) <= OFFSETS
    requires mine != null ==> Mine(mine, m, rids, primary) && mine.Tree() == Replay(a, ops) && Anchored(mine.Tree(), c)
    modifies mine, if mine == null then {} else mine.owned
    ensures next.Valid() && next.rid == pos && next.Tree() == Delta(a, ops, pos) && next.primary == primary
    ensures Published(next.memory, root', next.shape, rids + {pos as int}, primary, NextRoot(a, ops, pos))
    ensures RootAt(root', next, pos)
    ensures next.others <= rids && next.foreign <= m.Keys && next.owned !! m.Keys
    ensures if mine == null then fresh(next) && fresh(next.owned) else next == mine && fresh(next.owned - old(mine.owned))
  {
    hide CommitKey, PutT, View, ValidTree, Layered, Place, FreshCount, Replay, Anchored;
    hide PersistentTree.Synced, PersistentTree.Here, PersistentTree.Valid;
    PublishedHolds(m, root, t, rids, primary, a);
    if mine != null {
      next := mine;
      root' := Conclude(next, pos, false, c);
    } else {
      PublishedSame(m, root, t, rids, primary, a, pos);
      next := new PersistentTree(root, pos, primary, rids, m, t);
      ReplayIntention(next, ops, c);
      root' := Conclude(next, pos, true, c);
    }
  }

  lemma PublishedHolds(m: Memory, root: NodePtr, t: Shape, rids: set<int>, primary: map<nat, nat>, a: Tree)
    requires Published(m, root, t, rids, primary, a)
    ensures forall n | n in m :: n.Holds(m[n]) && m[n].rid in rids
    ensures NOBODY !in rids
  {
  }

  /** Isolation: whatever one tree does, the trees of others that run at the same
      time and the snapshots they share keep what they hold. */
  method OperateBeside(t1: PersistentTree, t2: PersistentTree, op: Op)
    requires t1 != t2 && t1.Valid() && t2.Valid() && t1.owned !! t2.memory.Keys
    modifies t1`root, t1`emptied, t1`memory, t1`owned, t1`freshNodes, t1`shape, t1.owned
    ensures t1.Valid() && t1.Tree() == Apply(old(t1.Tree()), op)
    ensures t2.Valid() && t2.Tree() == old(t2.Tree()) && t1.owned !! t2.memory.Keys
  {
    hide View, ValidTree, Layered, Contents, SameShape, PutT, DeleteT, CopyT, User;
    match op
    case Get(k) => var found := t1.Get(User(k));
    case Put(k, v) => t1.Put(k, v);
    case Delete(k) => t1.Delete(User(k));
    case Copy(k) => t1.CopyPath(k);
  }
}
