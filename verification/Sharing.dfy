/** Persistence, on values: an operation builds its result from fresh nodes and
    whole subtrees of older trees. `b` is the set of older subtrees. */
module Sharing {
  import opened Keys
  import opened Trees
  import opened Zippers
  import opened TreeOps
  import opened TreeProofs

  /** `b` holds nodes of after images only, and with each its children. */
  ghost predicate Closed(b: set<Tree>) {
    forall u | u in b ::
      && u.Node? && u.where.At?
      && (u.left.Node? ==> u.left in b)
      && (u.right.Node? ==> u.right in b)
  }

  /** Fresh on top, subtrees out of `b` below. */
  ghost predicate Built(t: Tree, b: set<Tree>) {
    t.Node? ==> if t.where.At? then t in b else Built(t.left, b) && Built(t.right, b)
  }

  ghost predicate PathBuilt(p: Path, b: set<Tree>) {
    p.Up? ==> Built(p.sib, b) && PathBuilt(p.up, b)
  }

  ghost function Subtrees(t: Tree): set<Tree> {
    if t.Nil? then {} else {t} + Subtrees(t.left) + Subtrees(t.right)
  }

  lemma {:induction false} SubtreesClosed(t: Tree)
    requires Old(t)
    ensures Closed(Subtrees(t)) && Built(t, Subtrees(t))
  {
    if t.Node? {
      SubtreesClosed(t.left);
      SubtreesClosed(t.right);
    }
  }

  lemma {:induction false} ClosedOld(t: Tree, b: set<Tree>)
    requires Closed(b) && t in b
    ensures Old(t)
  {
    if t.left.Node? { ClosedOld(t.left, b); }
    if t.right.Node? { ClosedOld(t.right, b); }
  }

  /** Once a node is shared everything below it is: fresh nodes are closed under
      taking parents. */
  lemma {:induction false} BuiltLayered(t: Tree, b: set<Tree>)
    requires Closed(b) && Built(t, b)
    ensures Layered(t)
  {
    if t.Node? {
      if t.where.At? {
        ClosedOld(t, b);
      } else {
        BuiltLayered(t.left, b);
        BuiltLayered(t.right, b);
      }
    }
  }

  lemma BuiltOwn(t: Tree, b: set<Tree>)
    requires Closed(b) && Built(t, b)
    ensures Built(Own(t), b) && Built(Blacken(Own(t)), b) && Built(Redden(Own(t)), b)
    ensures t.Node? ==> Built(t.left, b) && Built(t.right, b)
  {
  }

  lemma {:induction false} BuiltZip(f: Tree, p: Path, b: set<Tree>)
    requires Closed(b) && Built(f, b) && PathBuilt(p, b)
    ensures Built(Zip(f, p), b)
    ensures p.Up? || (f.Node? && f.where.Fresh?) ==> Built(Blacken(Zip(f, p)), b)
    decreases p
  {
    if p.Up? {
      BuiltZip(Join(p.side, p.red, p.key, p.val, f, p.sib), p.up, b);
    }
  }

  lemma {:induction false} BuiltDescend(t: Tree, k: Key, p: Path, b: set<Tree>)
    requires Closed(b) && Built(t, b) && PathBuilt(p, b)
    ensures var (f, q) := Descend(t, k, p); Built(f, b) && PathBuilt(q, b)
  {
    if t.Node? && k != t.key {
      var s := if Less(k, t.key) then L else R;
      BuiltDescend(Child(t, s), k, Frame(t, s, p), b);
    }
  }

  lemma {:induction false} BuiltMinPath(t: Tree, p: Path, b: set<Tree>)
    requires Closed(b) && t.Node? && Built(t, b) && PathBuilt(p, b)
    ensures var (m, q) := MinPath(t, p); Built(m, b) && PathBuilt(q, b)
  {
    if t.left.Node? {
      BuiltMinPath(t.left, Frame(t, L, p), b);
    }
  }

  lemma {:induction false} BuiltInsertFix(nn: Tree, p: Path, b: set<Tree>)
    requires Closed(b) && nn.Node? && nn.where.Fresh? && Built(nn, b) && PathBuilt(p, b)
    ensures Built(InsertFix(nn, p), b)
    decreases p
  {
    if p.Top? || !p.red || p.up.Top? {
      BuiltZip(nn, p, b);
    } else {
      var Up(s, _, k, v, sib, Up(gs, gred, gk, gv, uncle, up)) := p;
      if IsRed(uncle) {
        BuiltOwn(uncle, b);
        BuiltInsertFix(Join(gs, true, gk, gv, Join(s, false, k, v, nn, sib), Blacken(Own(uncle))), up, b);
      } else {
        BuiltZip(RotateUp(nn, s, k, v, sib, gs, gred, gk, gv, uncle), up, b);
      }
    }
  }

  lemma {:induction false} BuiltDeleteFix(x: Tree, p: Path, b: set<Tree>)
    requires Closed(b) && Built(x, b) && PathBuilt(p, b)
    ensures Built(DeleteFix(x, p), b)
    decreases Length(p), if IsRed(x) then 0 else 2
  {
    if p.Top? || IsRed(x) {
      BuiltOwn(x, b);
      BuiltZip(Blacken(Own(x)), p, b);
    } else {
      var Up(s, red, k, v, bro, up) := p;
      if IsRed(bro) {
        BuiltOwn(bro, b);
        BuiltDeleteStep(x, s, true, k, v, Child(bro, s),
                        Up(s, red, bro.key, bro.val, Child(bro, Opposite(s)), up), b);
      } else {
        BuiltDeleteStep(x, s, red, k, v, bro, up, b);
      }
    }
  }

  lemma {:induction false} BuiltDeleteStep(x: Tree, s: Side, red: bool, k: Key, v: Val, bro: Tree, up: Path, b: set<Tree>)
    requires Closed(b) && Built(x, b) && Built(bro, b) && PathBuilt(up, b)
    ensures Built(DeleteStep(x, s, red, k, v, bro, up), b)
    decreases Length(up), if red then 1 else 3
  {
    BuiltOwn(bro, b);
    if bro.Nil? {
      BuiltZip(Join(s, red, k, v, x, bro), up, b);
    } else if !IsRed(bro.left) && !IsRed(bro.right) {
      BuiltDeleteFix(Join(s, red, k, v, x, Redden(Own(bro))), up, b);
    } else {
      BuiltOwn(bro.left, b);
      BuiltOwn(bro.right, b);
      BuiltZip(RotateDown(x, s, red, k, v, bro), up, b);
    }
  }

  lemma BuiltInsert(t: Tree, k: Key, v: Val, b: set<Tree>)
    requires Closed(b) && Built(t, b)
    ensures Built(InsertT(t, k, v), b)
    ensures InsertT(t, k, v).Node? && InsertT(t, k, v).where.Fresh?
  {
    BuiltDescend(t, k, Top, b);
    var p := Descend(t, k, Top).1;
    BuiltInsertFix(Node(Fresh, true, k, v, Nil, Nil), p, b);
    FreshInsertFix(Node(Fresh, true, k, v, Nil, Nil), p);
  }

  lemma {:induction false} FreshInsertFix(nn: Tree, p: Path)
    requires nn.Node? && nn.where.Fresh?
    ensures InsertFix(nn, p).Node? && InsertFix(nn, p).where.Fresh?
    decreases p
  {
    if p.Top? || !p.red || p.up.Top? {
      FreshZip(nn, p);
    } else {
      var Up(s, _, k, v, sib, Up(gs, gred, gk, gv, uncle, up)) := p;
      if IsRed(uncle) {
        FreshInsertFix(Join(gs, true, gk, gv, Join(s, false, k, v, nn, sib), Blacken(Own(uncle))), up);
      } else {
        FreshZip(RotateUp(nn, s, k, v, sib, gs, gred, gk, gv, uncle), up);
      }
    }
  }

  lemma BuiltSplice(f: Tree, child: Tree, p: Path, b: set<Tree>)
    requires Closed(b) && f.Node? && Built(child, b) && PathBuilt(p, b)
    ensures Built(Splice(f, child, p), b)
  {
    BuiltZip(child, p, b);
    BuiltDeleteFix(child, p, b);
  }

  /** `Delete` shares subtrees and adds fresh nodes, nothing else. */
  lemma BuiltDelete(t: Tree, k: Key, b: set<Tree>)
    requires Closed(b) && Built(t, b)
    ensures Built(DeleteT(t, k), b)
  {
    BuiltDescend(t, k, Top, b);
    var (f, p) := Descend(t, k, Top);
    if f.Node? {
      BuiltOwn(f, b);
      if f.left.Nil? {
        BuiltSplice(f, f.right, p, b);
      } else if f.right.Nil? {
        BuiltSplice(f, f.left, p, b);
      } else {
        var m := MinPath(f.right, Top).0;
        var p0 := Up(R, f.red, m.key, m.val, f.left, p);
        BuiltMinPath(f.right, Top, b);
        BuiltMinPath(f.right, p0, b);
        BuiltOwn(m, b);
        BuiltSplice(m, m.right, MinPath(f.right, p0).1, b);
      }
    }
  }

  lemma BuiltPut(t: Tree, k: Key, v: Val, b: set<Tree>)
    requires Closed(b) && Built(t, b)
    ensures Built(PutT(t, k, v), b)
    ensures PutT(t, k, v).Node? && PutT(t, k, v).where.Fresh?
  {
    BuiltDelete(t, k, b);
    BuiltInsert(if Has(t, k) then DeleteT(t, k) else t, k, v, b);
  }

  lemma BuiltCopy(t: Tree, k: Key, b: set<Tree>)
    requires Closed(b) && Built(t, b)
    ensures Built(CopyT(t, k), b)
  {
    BuiltDescend(t, k, Top, b);
    var (f, p) := Descend(t, k, Top);
    BuiltOwn(f, b);
    BuiltZip(Own(f), p, b);
  }

  /** The shared subtrees of a tree. */
  ghost function Shared(t: Tree): set<Tree> {
    if t.Nil? then {} else if t.where.At? then Subtrees(t) else Shared(t.left) + Shared(t.right)
  }

  lemma {:induction false} BuiltMore(t: Tree, b: set<Tree>, c: set<Tree>)
    requires Built(t, b) && b <= c
    ensures Built(t, c)
  {
    if t.Node? && t.where.Fresh? {
      BuiltMore(t.left, b, c);
      BuiltMore(t.right, b, c);
    }
  }

  /** Fresh nodes are closed under taking parents just when a tree is built from
      fresh nodes and subtrees of older trees. */
  lemma {:induction false} LayeredBuilt(t: Tree)
    requires Layered(t)
    ensures Closed(Shared(t)) && Built(t, Shared(t))
  {
    if t.Node? {
      if t.where.At? {
        SubtreesClosed(t);
      } else {
        LayeredBuilt(t.left);
        LayeredBuilt(t.right);
        BuiltMore(t.left, Shared(t.left), Shared(t));
        BuiltMore(t.right, Shared(t.right), Shared(t));
      }
    }
  }

  lemma LayeredPut(t: Tree, k: Key, v: Val)
    requires Layered(t)
    ensures Layered(PutT(t, k, v))
  {
    LayeredBuilt(t);
    BuiltPut(t, k, v, Shared(t));
    BuiltLayered(PutT(t, k, v), Shared(t));
  }

  lemma LayeredDelete(t: Tree, k: Key)
    requires Layered(t)
    ensures Layered(DeleteT(t, k))
  {
    LayeredBuilt(t);
    BuiltDelete(t, k, Shared(t));
    BuiltLayered(DeleteT(t, k), Shared(t));
  }

  lemma LayeredCopy(t: Tree, k: Key)
    requires Layered(t)
    ensures Layered(CopyT(t, k))
  {
    LayeredBuilt(t);
    BuiltCopy(t, k, Shared(t));
    BuiltLayered(CopyT(t, k), Shared(t));
  }
}
