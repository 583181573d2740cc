/** How much an operation copies: a number of nodes that grows with the height of the
    tree only. So deltas are small, and small transactions fit into an after image. */
module DeltaSizes {
  import opened Keys
  import opened Trees
  import opened Zippers
  import opened TreeOps
  import opened TreeProofs
  import opened Sharing
  import opened Deltas
  import opened Positions
  import opened Intentions
  import opened Histories
  import opened Serializability

  function News(t: Tree): nat {
    if t.Nil? then 0 else News(t.left) + News(t.right) + if t.where.Fresh? then 1 else 0
  }

  function PathNews(p: Path): nat {
    if p.Top? then 0 else 1 + News(p.sib) + PathNews(p.up)
  }

  lemma {:induction false} FreshNews(t: Tree)
    ensures FreshCount(t) <= News(t)
    ensures Old(t) ==> News(t) == 0
  {
    if t.Node? {
      FreshNews(t.left);
      FreshNews(t.right);
    }
  }

  lemma {:induction false} ZipNews(f: Tree, p: Path)
    ensures News(Zip(f, p)) == News(f) + PathNews(p)
    decreases p
  {
    if p.Up? {
      ZipNews(Join(p.side, p.red, p.key, p.val, f, p.sib), p.up);
    }
  }

  /** A search copies the nodes that it comes along. */
  lemma {:induction false} DescendNews(t: Tree, k: Key, p: Path)
    ensures var (f, q) := Descend(t, k, p);
      && News(f) + PathNews(q) + Length(p) <= News(t) + PathNews(p) + Length(q)
      && Length(q) + Height(f) <= Length(p) + Height(t)
  {
    if t.Node? && k != t.key {
      if Less(k, t.key) {
        DescendNews(t.left, k, Frame(t, L, p));
      } else {
        DescendNews(t.right, k, Frame(t, R, p));
      }
    }
  }

  lemma OwnNews(t: Tree)
    ensures News(Own(t)) <= News(t) + 1 && News(Blacken(t)) == News(t) && News(Redden(t)) == News(t)
    ensures News(Blacken(Own(t))) <= News(t) + 1 && News(Redden(Own(t))) <= News(t) + 1
  {
  }

  lemma JoinRed(s: Side, red: bool, k: Key, v: Val, a: Tree, b: Tree)
    ensures IsRed(Join(s, red, k, v, a, b)) == red
  {
  }

  lemma JoinNews(s: Side, red: bool, k: Key, v: Val, a: Tree, b: Tree)
    ensures News(Join(s, red, k, v, a, b)) == News(a) + News(b) + 1
  {
  }

  // ------------------------------------------------------------------- inserting

  lemma RotateUpNews(nn: Tree, s: Side, k: Key, v: Val, sib: Tree, gs: Side, gred: bool, gk: Key, gv: Val, uncle: Tree)
    ensures News(RotateUp(nn, s, k, v, sib, gs, gred, gk, gv, uncle)) <= News(nn) + News(sib) + News(uncle) + 3
    ensures nn.Node? && nn.where.Fresh? ==>
      News(RotateUp(nn, s, k, v, sib, gs, gred, gk, gv, uncle)) <= News(nn) + News(sib) + News(uncle) + 2
  {
  }

  lemma {:induction false} InsertFixNews(nn: Tree, p: Path)
    ensures News(InsertFix(nn, p)) <= News(nn) + PathNews(p) + Length(p)
    decreases p
  {
    hide News, RotateUp, Join, Blacken, Own;
    if p.Top? || !p.red || p.up.Top? {
      ZipNews(nn, p);
      OwnNews(Zip(nn, p));
    } else {
      var Up(s, _, k, v, sib, Up(gs, _, gk, gv, uncle, up)) := p;
      OwnNews(uncle);
      JoinNews(s, false, k, v, nn, sib);
      JoinNews(gs, true, gk, gv, Join(s, false, k, v, nn, sib), Blacken(Own(uncle)));
      RotateUpNews(nn, s, k, v, sib, gs, p.up.red, gk, gv, uncle);
      if IsRed(uncle) {
        InsertFixNews(Join(gs, true, gk, gv, Join(s, false, k, v, nn, sib), Blacken(Own(uncle))), up);
      } else {
        var u := RotateUp(nn, s, k, v, sib, gs, p.up.red, gk, gv, uncle);
        ZipNews(u, up);
        OwnNews(Zip(u, up));
      }
    }
  }

  lemma InsertNews(t: Tree, k: Key, v: Val)
    ensures News(InsertT(t, k, v)) <= News(t) + 2 * Height(t) + 1
  {
    var (f, p) := Descend(t, k, Top);
    DescendNews(t, k, Top);
    InsertFixNews(Node(Fresh, true, k, v, Nil, Nil), p);
  }

  // -------------------------------------------------------------------- deleting

  lemma RotateDownNews(x: Tree, s: Side, red: bool, k: Key, v: Val, bro: Tree)
    requires bro.Node?
    ensures News(RotateDown(x, s, red, k, v, bro)) <= News(x) + News(bro) + 3
  {
  }

  lemma {:induction false} DeleteFixNews(x: Tree, p: Path)
    ensures News(DeleteFix(x, p)) <= News(x) + PathNews(p) + 3 * Length(p) + 6
    decreases Length(p), if IsRed(x) then 0 else 2
  {
    if p.Top? || IsRed(x) {
      ZipNews(Blacken(Own(x)), p);
    } else {
      var Up(s, red, k, v, bro, up) := p;
      if IsRed(bro) {
        DeleteStepNews(x, s, true, k, v, Child(bro, s), Up(s, red, bro.key, bro.val, Child(bro, Opposite(s)), up));
      } else {
        DeleteStepNews(x, s, red, k, v, bro, up);
      }
    }
  }

  lemma {:induction false} DeleteStepNews(x: Tree, s: Side, red: bool, k: Key, v: Val, bro: Tree, up: Path)
    ensures News(DeleteStep(x, s, red, k, v, bro, up)) <=
      News(x) + News(bro) + 1 + PathNews(up) + if red then 5 else 3 * Length(up) + 8
    decreases Length(up), if red then 1 else 3
  {
    hide News, RotateDown, Join, Blacken, Own, Redden;
    JoinNews(s, red, k, v, x, bro);
    OwnNews(bro);
    if bro.Nil? {
      ZipNews(Join(s, red, k, v, x, bro), up);
    } else if !IsRed(bro.left) && !IsRed(bro.right) {
      var y := Join(s, red, k, v, x, Redden(Own(bro)));
      JoinNews(s, red, k, v, x, Redden(Own(bro)));
      OwnNews(y);
      JoinRed(s, red, k, v, x, Redden(Own(bro)));
      if red {
        ZipNews(Blacken(Own(y)), up);
      } else {
        DeleteFixNews(y, up);
      }
    } else {
      RotateDownNews(x, s, red, k, v, bro);
      ZipNews(RotateDown(x, s, red, k, v, bro), up);
      OwnNews(Zip(RotateDown(x, s, red, k, v, bro), up));
    }
  }

  lemma {:induction false} MinNews(t: Tree, p: Path, q: Path)
    requires t.Node?
    ensures var (m, r) := MinPath(t, p);
      && News(m) + PathNews(r) + Length(p) <= News(t) + PathNews(p) + Length(r)
      && Length(r) + 1 <= Length(p) + Height(t) && m == MinPath(t, q).0
  {
    if t.left.Node? {
      MinNews(t.left, Frame(t, L, p), Frame(t, L, q));
    }
  }

  lemma SpliceNews(f: Tree, child: Tree, p: Path)
    requires f.Node?
    ensures News(Splice(f, child, p)) <= News(child) + PathNews(p) + 3 * Length(p) + 6
  {
    ZipNews(child, p);
    DeleteFixNews(child, p);
  }

  lemma RemoveNews(f: Tree, p: Path)
    requires f.Node?
    ensures News(Remove(f, p)) <= News(f) + PathNews(p) + 4 * (Length(p) + Height(f)) + 7
  {
    if f.left.Nil? {
      SpliceNews(f, f.right, p);
    } else if f.right.Nil? {
      SpliceNews(f, f.left, p);
    } else {
      var m := MinPath(f.right, Top).0;
      var up := Up(R, f.red, m.key, m.val, f.left, p);
      MinNews(f.right, up, Top);
      SpliceNews(m, m.right, MinPath(f.right, up).1);
    }
  }

  lemma DeleteNews(t: Tree, k: Key)
    ensures News(DeleteT(t, k)) <= News(t) + 5 * Height(t) + 7
  {
    DescendNews(t, k, Top);
    var (f, p) := Descend(t, k, Top);
    if f.Node? {
      RemoveNews(f, p);
    }
  }

  lemma CopyNews(t: Tree, k: Key)
    ensures News(CopyT(t, k)) <= News(t) + Height(t) + 1
  {
    DescendNews(t, k, Top);
    var (f, p) := Descend(t, k, Top);
    ZipNews(Own(f), p);
  }

  // -------------------------------------------------------- in a balanced tree

  lemma {:induction false} Power2Grows(a: nat, b: nat)
    requires a <= b
    ensures Power2(a) <= Power2(b)
  {
    if a < b {
      Power2Grows(a, b - 1);
    }
  }

  /** With fewer than 2^(b+1) - 1 pairs no way down is longer than 2b. */
  lemma LowTree(t: Tree, b: nat)
    requires ValidTree(t) && |Flat(t)| + 1 < Power2(b + 1)
    ensures Height(t) <= 2 * b
  {
    hide Height, Flat, Power2;
    BalancedHeight(t, BlackHeight(t));
    if BlackHeight(t) > b {
      Power2Grows(b + 1, BlackHeight(t));
    }
  }

  /** One operation on a tree with fewer than 2^(b+1) - 1 pairs. */
  lemma ApplyNews(t: Tree, op: Op, b: nat)
    requires ValidTree(t) && |Flat(t)| + 1 < Power2(b + 1)
    ensures News(Apply(t, op)) <= News(t) + 14 * b + 8 && |Flat(Apply(t, op))| <= |Flat(t)| + 1
  {
    hide ValidTree, PutT, DeleteT, CopyT, Flat, Height, News, User, Power2;
    LowTree(t, b);
    match op
    case Get(_) =>
    case Put(k, v) =>
      PutNews(t, k, v, b);
      PutSize(t, k, v);
    case Delete(k) =>
      DeleteNews(t, User(k));
      DeleteSize(t, User(k));
    case Copy(k) =>
      CopyNews(t, k);
      CopyCorrect(t, k);
      SameShapeFacts(CopyT(t, k), t);
  }

  lemma PutNews(t: Tree, k: Key, v: Val, b: nat)
    requires ValidTree(t) && |Flat(t)| + 1 < Power2(b + 1)
    ensures News(PutT(t, k, v)) <= News(t) + 14 * b + 8
  {
    hide ValidTree, DeleteT, InsertT, Flat, Height, News, Power2;
    LowTree(t, b);
    var u := if Has(t, k) then DeleteT(t, k) else t;
    DeleteNews(t, k);
    DeleteCorrect(t, k);
    DeleteSize(t, k);
    LowTree(u, b);
    InsertNews(u, k, v);
  }

  lemma DeleteSize(t: Tree, k: Key)
    requires ValidTree(t)
    ensures |Flat(DeleteT(t, k))| <= |Flat(t)|
  {
    hide ValidTree, Remove;
    if Has(t, k) {
      var g := DescendFacts(t, k);
      FlatRemove(Descend(t, k, Top).0, Descend(t, k, Top).1);
      DescendFlat(t, k, Top);
    }
  }

  lemma {:induction false} ReplayNews(t: Tree, ops: seq<Op>, b: nat)
    requires ValidTree(t) && Layered(t) && |Flat(t)| + |ops| < Power2(b + 1)
    ensures News(Replay(t, ops)) <= News(t) + |ops| * (14 * b + 8) && |Flat(Replay(t, ops))| <= |Flat(t)| + |ops|
  {
    hide ValidTree, Layered, Apply, Flat, News, Power2, Contents;
    if ops != [] {
      var rest := ops[..|ops| - 1];
      ReplayNews(t, rest, b);
      ReplayFacts(t, rest);
      ApplyNews(Replay(t, rest), ops[|ops| - 1], b);
      assert |ops| * (14 * b + 8) == |rest| * (14 * b + 8) + (14 * b + 8);
    }
  }

  /** The delta of a transaction: for each of its operations, and for the commit key, a
      number of nodes that grows with the logarithm of the size of the tree. */
  lemma DeltaSize(t: Tree, ops: seq<Op>, pos: nat, b: nat)
    requires ValidTree(t) && Old(t) && |Flat(t)| + |ops| + 1 < Power2(b + 1)
    ensures FreshCount(Delta(t, ops, pos)) <= (|ops| + 1) * (14 * b + 8)
  {
    hide ValidTree, Layered, Flat, News, Power2, Contents, FreshCount, Old, PutT, CommitKey;
    OldLayered(t);
    FreshNews(t);
    ReplayNews(t, ops, b);
    ReplayFacts(t, ops);
    PutNews(Replay(t, ops), CommitKey(pos), "", b);
    FreshNews(Delta(t, ops, pos));
    assert (|ops| + 1) * (14 * b + 8) == |ops| * (14 * b + 8) + (14 * b + 8);
  }

  /** Up to 72 operations fit into an after image, whatever they are, as long as there are
      fewer than 2^64 pairs. */
  lemma SmallFits(t: Tree, ops: seq<Op>, pos: nat)
    requires ValidTree(t) && Old(t) && |ops| <= 72 && |Flat(t)| + 74 < 0x1_0000_0000_0000_0000
    ensures FreshCount(Delta(t, ops, pos)) <= 65536
  {
    hide ValidTree, Old, Flat, FreshCount, Delta;
    Power64();
    DeltaSize(t, ops, pos, 63);
  }

  /** So the processor can take any small transaction in any state that it reaches. */
  lemma SmallAdmissible(log: Log, h: History, pos: nat)
    requires Inv(log, h) && h.db.snapshot < pos < POSITIONS && pos < |log| && log[pos].IntentionEntry?
    requires var i := log[pos].intention; UserOps(i.ops) && (!i.flush ==> i.snapshot in h.commits) && |i.ops| <= 72
    requires |Flat(h.db.root)| + 74 < 0x1_0000_0000_0000_0000
    ensures Admissible(log, h, pos)
  {
    hide ValidTree, Old, Flat, FreshCount, Delta, Inv, UserOps;
    InvOld(log, h);
    SmallFits(h.db.root, log[pos].intention.ops, pos);
  }

  lemma InvOld(log: Log, h: History)
    requires Inv(log, h)
    ensures ValidTree(h.db.root) && Old(h.db.root)
  {
    hide WellLinked, SerialMap, ValidTree, Contents, Decode;
    StoredSubtrees(h.db.root, h.store);
  }

  lemma Power64()
    ensures Power2(64) == 0x1_0000_0000_0000_0000
  {
    assert Power2(8) == 256;
    assert Power2(16) == 65536;
    assert Power2(24) == 0x100_0000;
    assert Power2(32) == 0x1_0000_0000;
    assert Power2(40) == 0x100_0000_0000;
    assert Power2(48) == 0x1_0000_0000_0000;
    assert Power2(56) == 0x100_0000_0000_0000;
  }
}
