/** What is shared gets renamed: when the pointers of a delta take on the form of its
    after image, all trees that share nodes with it stay what they are. */
module Renewals {
  import opened Basics
  import opened Trees
  import opened Nodes
  import opened Shapes
  import opened Serialization
  import opened PersistentTrees

  /** What a tree knows of its nodes, brought up to date with `nodes`. */
  ghost function Renewed(m: Memory, foreign: set<Node>, nodes: Memory): Memory {
    map n | n in m :: if n in foreign && n in nodes then nodes[n] else m[n]
  }

  lemma RenewedTargets(m: Memory, foreign: set<Node>, before: Memory, after: Memory, e: Env, f: Env)
    requires SameTargets(before, after, e) && f.primary == e.primary
    requires forall n | n in foreign :: n in m && n in before && m[n] == before[n]
    ensures SameTargets(m, Renewed(m, foreign, after), f)
  {
    var r := Renewed(m, foreign, after);
    forall n | n in m
      ensures r[n] == m[n].(left := r[n].left, right := r[n].right, readOnly := r[n].readOnly)
      ensures SameTarget(m[n].left, r[n].left, f) && SameTarget(m[n].right, r[n].right, f)
    {
      if n in foreign {
        assert SameTarget(before[n].left, after[n].left, e) && SameTarget(before[n].right, after[n].right, e);
      }
    }
  }

  /** The tree stands for `v`, going by what it knows, which is what `nodes` says about
      the nodes of others. */
  ghost predicate Stands(t: PersistentTree, v: Tree, primary: map<nat, nat>, nodes: Memory)
    reads t
  {
    && t.primary == primary && t.Standing() == Some(v) && ValidTree(v) && Layered(v)
    && forall n | n in t.foreign :: n in t.memory && n in nodes && t.memory[n] == nodes[n]
  }

  /** Its own nodes are as it knows them. */
  ghost predicate OwnHold(t: PersistentTree)
    reads t, t.owned
  {
    forall n | n in t.owned :: n in t.memory && n.Holds(t.memory[n])
  }

  ghost method AdoptNodes(t: PersistentTree, v: Tree, before: Memory, after: Memory, primary: map<nat, nat>, later: map<nat, nat>)
    requires Stands(t, v, primary, before) && OwnHold(t)
    requires Extends(primary, later) && SameTargets(before, after, Env(0, later))
    requires forall n | n in after :: n.Holds(after[n])
    modifies t`memory, t`primary
    ensures t.Valid() && t.Tree() == v && t.primary == later
    ensures t.memory == Renewed(old(t.memory), t.foreign, after)
  {
    hide View, ValidTree, Layered, Extends, SameTarget;
    RenewedTargets(t.memory, t.foreign, before, after, Env(0, later), Env(t.rid, later));
    t.Adopt(Renewed(t.memory, t.foreign, after), later);
  }

  /** Every tree of `ts` learns what has become of the nodes of others. */
  ghost method AdoptAll(ts: set<PersistentTree>, values: map<PersistentTree, Tree>, before: Memory, after: Memory,
                        primary: map<nat, nat>, later: map<nat, nat>)
    requires forall t | t in ts :: t in values && Stands(t, values[t], primary, before) && OwnHold(t)
    requires Extends(primary, later) && SameTargets(before, after, Env(0, later))
    requires forall n | n in after :: n.Holds(after[n])
    modifies ts`memory, ts`primary
    ensures forall t | t in ts ::
      t.Valid() && t.Tree() == values[t] && t.primary == later && t.memory == Renewed(old(t.memory), t.foreign, after)
  {
    hide Stands, OwnHold, Extends, SameTargets, PersistentTree.Valid, PersistentTree.Tree;
    var todo := ts;
    while todo != {}
      invariant todo <= ts
      invariant forall t | t in todo :: Stands(t, values[t], primary, before) && OwnHold(t) && t.memory == old(t.memory)
      invariant forall t | t in ts && t !in todo ::
        t.Valid() && t.Tree() == values[t] && t.primary == later && t.memory == Renewed(old(t.memory), t.foreign, after)
      decreases |todo|
    {
      var t :| t in todo;
      AdoptNodes(t, values[t], before, after, primary, later);
      todo := todo - {t};
    }
  }
}
