/** Transactions: every operation is recorded in the intention and applied to the
    transaction's own tree. */
module Transactions {
  import opened Basics
  import opened Keys
  import opened Trees
  import opened TreeOps
  import opened TreeProofs
  import opened Positions
  import opened Intentions
  import opened PersistentTrees

  /** The tree lists the commit `c`, so that no user operation can empty it. */
  ghost predicate Anchored(t: Tree, c: nat) {
    CommitKey(c) in Contents(t)
  }

  lemma AnchorHolds(t: Tree, op: Op, c: nat)
    requires ValidTree(t) && Anchored(t, c) && (op.Put? ==> HasUserPrefix(op.key))
    ensures Anchored(Apply(t, op), c)
    ensures op.Delete? ==> DeleteT(t, User(op.key)).Node?
    ensures op.Put? ==> DeleteT(t, op.key).Node?
  {
    hide CommitKey, DeleteT, PutT, CopyT, ValidTree;
    CommitNotUser(c);
    match op
    case Get(_) =>
    case Put(k, v) =>
      PutCorrect(t, k, v);
      DeleteCorrect(t, k);
      NoKeyInNil(CommitKey(c));
    case Delete(k) =>
      UserPrefixed(k);
      DeleteCorrect(t, User(k));
      NoKeyInNil(CommitKey(c));
    case Copy(k) =>
      CopyCorrect(t, k);
  }

  lemma NoKeyInNil(k: Key)
    ensures k !in Contents(Nil)
  {
  }

  lemma ReplayMore(t: Tree, ops: seq<Op>, op: Op)
    ensures Replay(t, ops + [op]) == Apply(Replay(t, ops), op)
  {
    assert (ops + [op])[..|ops|] == ops;
  }

  /** Applies the recorded operations of an intention to a tree. */
  method ReplayIntention(tree: PersistentTree, ops: seq<Op>, ghost c: nat)
    requires tree.Valid() && !tree.emptied && UserOps(ops) && Anchored(tree.Tree(), c)
    modifies tree`root, tree`emptied, tree`memory, tree`owned, tree`freshNodes, tree`shape, tree.owned
    ensures old(tree.owned) <= tree.owned && fresh(tree.owned - old(tree.owned))
    ensures tree.Valid() && !tree.emptied && Anchored(tree.Tree(), c)
    ensures tree.Tree() == Replay(old(tree.Tree()), ops)
  {
    hide CommitKey, PutT, DeleteT, CopyT, Contents, SameShape, HasUserPrefix;
    ghost var t := tree.Tree();
    for i := 0 to |ops|
      invariant old(tree.owned) <= tree.owned && fresh(tree.owned - old(tree.owned))
      invariant tree.Valid() && !tree.emptied && Anchored(tree.Tree(), c)
      invariant tree.Tree() == Replay(t, ops[..i])
    {
      assert ops[..i + 1] == ops[..i] + [ops[i]] && ops[i] in ops;
      ReplayMore(t, ops[..i], ops[i]);
      AnchorHolds(tree.Tree(), ops[i], c);
      match ops[i]
      case Get(_) =>
      case Put(k, v) => tree.Put(k, v);
      case Delete(k) => tree.Delete(User(k));
      case Copy(k) => tree.CopyPath(k);
    }
    assert ops[..|ops|] == ops;
  }

  lemma UserOpsMore(ops: seq<Op>, op: Op)
    requires UserOps(ops) && (op.Put? ==> HasUserPrefix(op.key))
    ensures UserOps(ops + [op])
  {
  }

  /** The operations write nothing: no key has been put, and those deleted were not
      there. */
  ghost predicate Idle(base: Tree, ops: seq<Op>) {
    forall op | op in ops :: !op.Put? && (op.Delete? ==> User(op.key) !in Contents(base))
  }

  lemma IdleMore(base: Tree, ops: seq<Op>, op: Op)
    ensures Idle(base, ops + [op]) <==> Idle(base, ops) && !op.Put? && (op.Delete? ==> User(op.key) !in Contents(base))
  {
    hide Contents, User;
    assert forall x :: x in ops + [op] <==> x in ops || x == op;
  }

  lemma TreeIsValid(t: PersistentTree)
    requires t.Valid()
    ensures ValidTree(t.Tree())
  {
    hide ValidTree, Layered;
  }

  lemma OneUserKey(key: Key)
    ensures forall k :: User(k) == User(key) <==> k == key
  {
    forall k ensures User(k) == User(key) <==> k == key {
      UserInjective(k, key);
    }
  }

  class Transaction {
    const tree: PersistentTree
    const snapshot: nat
    const token: nat
    var ops: seq<Op>
    var committed: bool

    // The tree of the snapshot, and a commit that it lists.
    ghost const base: Tree
    ghost const anchor: nat

    ghost predicate Valid()
      reads this, tree, tree.memory.Keys
    {
      && tree.Valid() && tree.rid < 0 && !tree.emptied && Anchored(tree.Tree(), anchor)
      && ValidTree(base) && Layered(base) && UserOps(ops)
      && tree.Tree() == Replay(base, ops) && (tree.ReadOnly() ==> tree.Tree() == base) && (tree.ReadOnly() <==> Idle(base, ops))
    }

    /** What the client sees under a key at this moment. */
    ghost function Sees(key: Key): Option<Val>
      requires Valid()
      reads this, tree, tree.memory.Keys
    {
      ValueOf(Contents(tree.Tree()), key)
    }

    lemma SeesReplay()
      requires Valid()
      ensures Contents(tree.Tree()) == ReplayMap(Contents(base), ops)
    {
      hide ReplayMap, Contents, Anchored, Replay, ValidTree, Layered;
      ReplayFacts(base, ops);
    }

    constructor (tree: PersistentTree, snapshot: nat, token: nat, ghost anchor: nat)
      requires tree.Valid() && tree.rid < 0 && tree.ReadOnly() && !tree.emptied && Anchored(tree.Tree(), anchor)
      ensures Valid() && base == tree.Tree() && ops == [] && !committed && forall k :: Sees(k) == ValueOf(Contents(base), k)
      ensures this.tree == tree && this.snapshot == snapshot && this.token == token && this.anchor == anchor
    {
      this.tree, this.snapshot, this.token, this.anchor := tree, snapshot, token, anchor;
      ops, committed := [], false;
      base := tree.Tree();
    }

    /** Reads see the snapshot through the transaction's own earlier writes. */
    method Get(key: Key) returns (r: Option<Val>)
      requires Valid() && !committed
      modifies this`ops
      ensures Valid() && ops == old(ops) + [Op.Get(key)]
      ensures r == ValueOf(ReplayMap(Contents(base), old(ops)), key)
      ensures r == old(Sees(key)) && forall k :: Sees(k) == old(Sees(k))
    {
      hide CommitKey, Contents, ValidTree, Layered, Idle;
      ReplayFacts(base, ops);
      ReplayMore(base, ops, Op.Get(key));
      IdleMore(base, ops, Op.Get(key));
      ops := ops + [Op.Get(key)];
      r := tree.Get(User(key));
    }

    method Put(key: Key, val: Val)
      requires Valid() && !committed
      modifies this`ops, tree`root, tree`emptied, tree`memory, tree`owned, tree`freshNodes, tree`shape, tree.owned
      ensures old(tree.owned) <= tree.owned && fresh(tree.owned - old(tree.owned))
      ensures Valid() && ops == old(ops) + [Op.Put(User(key), val)]
      ensures Sees(key) == Some(val) && forall k | k != key :: Sees(k) == old(Sees(k))
    {
      hide CommitKey, Contents, ValidTree, Layered, Idle, PutT, DeleteT, HasUserPrefix, UserOps, Replay, User, Anchored;
      hide PersistentTree.Valid, PersistentTree.Tree;
      UserPrefixed(key);
      ReplayMore(base, ops, Op.Put(User(key), val));
      IdleMore(base, ops, Op.Put(User(key), val));
      UserOpsMore(ops, Op.Put(User(key), val));
      TreeIsValid(tree);
      AnchorHolds(tree.Tree(), Op.Put(User(key), val), anchor);
      ops := ops + [Op.Put(User(key), val)];
      tree.Put(User(key), val);
      OneUserKey(key);
    }

    method Delete(key: Key)
      requires Valid() && !committed
      modifies this`ops, tree`root, tree`emptied, tree`memory, tree`owned, tree`freshNodes, tree`shape, tree.owned
      ensures old(tree.owned) <= tree.owned && fresh(tree.owned - old(tree.owned))
      ensures Valid() && ops == old(ops) + [Op.Delete(key)]
      ensures Sees(key) == None && forall k | k != key :: Sees(k) == old(Sees(k))
    {
      hide CommitKey, Contents, ValidTree, Layered, Idle, PutT, DeleteT, HasUserPrefix, UserOps, Replay, User, Anchored;
      hide PersistentTree.Valid, PersistentTree.Tree;
      ReplayMore(base, ops, Op.Delete(key));
      IdleMore(base, ops, Op.Delete(key));
      UserOpsMore(ops, Op.Delete(key));
      TreeIsValid(tree);
      AnchorHolds(tree.Tree(), Op.Delete(key), anchor);
      DeleteCorrect(tree.Tree(), User(key));
      ops := ops + [Op.Delete(key)];
      tree.Delete(User(key));
      OneUserKey(key);
    }

    /** A transaction that has written nothing, whatever it has deleted that was not there,
        commits on the spot; any other one hands its intention over to the log. */
    method Commit() returns (i: Option<Intention>)
      requires Valid() && !committed
      modifies this`committed
      ensures committed && Valid()
      ensures i.None? <==> forall op | op in ops :: !op.Put? && (op.Delete? ==> User(op.key) !in Contents(base))
      ensures i.None? ==> Replay(base, ops) == base
      ensures i.Some? ==> i.value == Intention(snapshot, token, false, ops) && tree.root.Some?
    {
      committed := true;
      i := if tree.ReadOnly() then None else Some(Intention(snapshot, token, false, ops));
    }
  }
}
