/** What `Put`, `Delete` and `Copy` do to the map, the order, the balance and the
    nodes shared with older trees. */
module TreeProofs {
  import opened Basics
  import opened Keys
  import opened Trees
  import opened Zippers
  import opened TreeOps

  // ------------------------------------------------------------ maps of pairs

  lemma {:induction false} MapOfConcat(a: seq<Pair>, b: seq<Pair>)
    ensures MapOf(a + b) == MapOf(a) + MapOf(b)
    decreases |b|
  {
    if b == [] {
      assert a + b == a;
    } else {
      var n := |b| - 1;
      assert (a + b)[..|a + b| - 1] == a + b[..n];
      MapOfConcat(a, b[..n]);
    }
  }

  lemma {:induction false} MapOfKeys(s: seq<Pair>, k: Key)
    requires k in MapOf(s)
    ensures exists i :: 0 <= i < |s| && s[i].0 == k
  {
    var n := |s| - 1;
    if s[n].0 != k {
      MapOfKeys(s[..n], k);
      var i :| 0 <= i < n && s[..n][i].0 == k;
      assert s[i].0 == k;
    }
  }

  lemma AroundKeys(a: seq<Pair>, k: Key, b: seq<Pair>)
    requires AllBelow(a, k) && AllAbove(k, b)
    ensures k !in MapOf(a) && k !in MapOf(b)
  {
    LessIrreflexive(k);
    if k in MapOf(a) { MapOfKeys(a, k); }
    if k in MapOf(b) { MapOfKeys(b, k); }
  }

  lemma MapOfInsert(a: seq<Pair>, k: Key, v: Val, b: seq<Pair>)
    requires AllBelow(a, k) && AllAbove(k, b)
    ensures MapOf(a + [(k, v)] + b) == MapOf(a + b)[k := v]
    ensures MapOf(a + [(k, v)] + b) - {k} == MapOf(a + b)
  {
    AroundKeys(a, k, b);
    MapOfConcat(a + [(k, v)], b);
    MapOfConcat(a, b);
    assert (a + [(k, v)])[..|a|] == a;
  }

  lemma SortedInsert(a: seq<Pair>, k: Key, v: Val, b: seq<Pair>)
    requires Sorted(a + b) && AllBelow(a, k) && AllAbove(k, b)
    ensures Sorted(a + [(k, v)] + b)
  {
    var s, t := a + b, a + [(k, v)] + b;
    forall i, j | 0 <= i < j < |t| ensures Less(t[i].0, t[j].0) {
      if i == |a| {
        assert t[j] == b[j - |a| - 1];
      } else if j == |a| {
        assert t[i] == a[i];
      } else {
        assert t[i] == s[if i < |a| then i else i - 1];
        assert t[j] == s[if j < |a| then j else j - 1];
      }
    }
  }

  lemma SortedRemove(a: seq<Pair>, x: Pair, b: seq<Pair>)
    requires Sorted(a + [x] + b)
    ensures Sorted(a + b)
  {
    var s, t := a + b, a + [x] + b;
    forall i, j | 0 <= i < j < |s| ensures Less(s[i].0, s[j].0) {
      assert s[i] == t[if i < |a| then i else i + 1];
      assert s[j] == t[if j < |a| then j else j + 1];
    }
  }

  lemma SortedSplit(a: seq<Pair>, x: Pair, b: seq<Pair>)
    requires Sorted(a + [x] + b)
    ensures AllBelow(a, x.0) && AllAbove(x.0, b) && Sorted(a) && Sorted(b)
  {
    var s := a + [x] + b;
    assert s[|a|] == x;
    assert forall i :: 0 <= i < |a| ==> s[i] == a[i];
    assert forall i :: 0 <= i < |b| ==> s[|a| + 1 + i] == b[i];
  }

  // ---------------------------------------------- fix-ups keep the sequence

  /** A single rotation, whatever colours it deals out. */
  lemma FlatRotation(s: Side, k: Key, v: Val, j: Key, w: Val, a: Tree, b: Tree, c: Tree,
                     r0: bool, r1: bool, r2: bool, r3: bool)
    ensures Flat(Join(s, r0, j, w, Join(s, r1, k, v, a, b), c))
         == Flat(Join(s, r2, k, v, a, Join(s, r3, j, w, b, c)))
  {
    var fa, fb, fc, x, y := Flat(a), Flat(b), Flat(c), [(k, v)], [(j, w)];
    if s.L? {
      assert (fa + x + fb) + y + fc == fa + x + (fb + y + fc);
    } else {
      assert fc + y + (fb + x + fa) == (fc + y + fb) + x + fa;
    }
  }

  lemma FlatJoin(s: Side, r: bool, q: bool, k: Key, v: Val, a: Tree, b: Tree, c: Tree, d: Tree)
    requires Flat(a) == Flat(c) && Flat(b) == Flat(d)
    ensures Flat(Join(s, r, k, v, a, b)) == Flat(Join(s, q, k, v, c, d))
  {
  }

  lemma FlatRotateUp(nn: Tree, s: Side, k: Key, v: Val, sib: Tree,
                     gs: Side, gred: bool, gk: Key, gv: Val, uncle: Tree)
    requires nn.Node?
    ensures Flat(RotateUp(nn, s, k, v, sib, gs, gred, gk, gv, uncle))
         == Flat(Join(gs, gred, gk, gv, Join(s, true, k, v, nn, sib), uncle))
  {
    if s == gs {
      FlatRotation(gs, k, v, gk, gv, nn, sib, uncle, gred, true, gred, true);
    } else {
      var near, far := Child(nn, gs), Child(nn, s);
      FlatRotation(gs, k, v, nn.key, nn.val, sib, near, far, true, true, true, true);
      FlatRotation(gs, nn.key, nn.val, gk, gv, Join(gs, true, k, v, sib, near), far, uncle, gred, true, gred, true);
      FlatJoin(s, true, true, k, v, nn, sib, Join(gs, true, nn.key, nn.val, near, far), sib);
      FlatJoin(gs, gred, gred, gk, gv, Join(s, true, k, v, nn, sib), uncle,
               Join(gs, true, nn.key, nn.val, Join(gs, true, k, v, sib, near), far), uncle);
    }
  }

  lemma {:induction false} FlatInsertFix(nn: Tree, p: Path)
    requires nn.Node?
    ensures Flat(InsertFix(nn, p)) == Before(p) + Flat(nn) + After(p)
    decreases p
  {
    FlatZip(nn, p);
    if p.Up? && p.red && p.up.Up? {
      var Up(s, _, k, v, sib, Up(gs, gred, gk, gv, uncle, up)) := p;
      FrameFlat(nn, p);
      FrameFlat(Join(s, true, k, v, nn, sib), p.up);
      if IsRed(uncle) {
        FlatInsertFix(Join(gs, true, gk, gv, Join(s, false, k, v, nn, sib), Blacken(Own(uncle))), up);
      } else {
        FlatRotateUp(nn, s, k, v, sib, gs, gred, gk, gv, uncle);
        FlatZip(RotateUp(nn, s, k, v, sib, gs, gred, gk, gv, uncle), up);
      }
    }
  }

  lemma FlatRotateDown(x: Tree, s: Side, red: bool, k: Key, v: Val, bro: Tree)
    requires bro.Node? && (IsRed(bro.left) || IsRed(bro.right))
    ensures Flat(RotateDown(x, s, red, k, v, bro)) == Flat(Join(s, red, k, v, x, bro))
  {
    var near, far := Child(bro, s), Child(bro, Opposite(s));
    FlatRotation(s, k, v, bro.key, bro.val, x, near, far, red, false, red, false);
    if !IsRed(far) {
      var b, c := Child(near, s), Child(near, Opposite(s));
      FlatRotation(s, near.key, near.val, bro.key, bro.val, b, c, far, false, true, false, false);
      var n := Join(s, false, near.key, near.val, b, Join(s, false, bro.key, bro.val, c, far));
      FlatRotation(s, k, v, near.key, near.val, x, b, Join(s, false, bro.key, bro.val, c, far), red, false, red, false);
      FlatJoin(s, false, true, near.key, near.val, b, c, b, c);
      FlatJoin(s, false, false, bro.key, bro.val, near, far, Join(s, true, near.key, near.val, b, c), far);
      FlatJoin(s, red, red, k, v, x, bro, x, n);
    }
  }

  lemma {:induction false} FlatDeleteFix(x: Tree, p: Path)
    ensures Flat(DeleteFix(x, p)) == Before(p) + Flat(x) + After(p)
    decreases Length(p), if IsRed(x) then 0 else 2
  {
    if p.Top? || IsRed(x) {
      FlatZip(Blacken(Own(x)), p);
    } else {
      var Up(s, red, k, v, bro, up) := p;
      FrameFlat(x, p);
      if IsRed(bro) {
        var q := Up(s, red, bro.key, bro.val, Child(bro, Opposite(s)), up);
        FlatDeleteStep(x, s, true, k, v, Child(bro, s), q);
        FrameFlat(Join(s, true, k, v, x, Child(bro, s)), q);
        FlatRotation(s, k, v, bro.key, bro.val, x, Child(bro, s), Child(bro, Opposite(s)), red, true, red, red);
      } else {
        FlatDeleteStep(x, s, red, k, v, bro, up);
      }
    }
  }

  lemma {:induction false} FlatDeleteStep(x: Tree, s: Side, red: bool, k: Key, v: Val, bro: Tree, up: Path)
    ensures Flat(DeleteStep(x, s, red, k, v, bro, up))
         == Before(up) + Flat(Join(s, red, k, v, x, bro)) + After(up)
    decreases Length(up), if red then 1 else 3
  {
    if bro.Nil? {
      FlatZip(Join(s, red, k, v, x, bro), up);
    } else if !IsRed(bro.left) && !IsRed(bro.right) {
      FlatDeleteFix(Join(s, red, k, v, x, Redden(Own(bro))), up);
    } else {
      FlatRotateDown(x, s, red, k, v, bro);
      FlatZip(RotateDown(x, s, red, k, v, bro), up);
    }
  }

  // ------------------------------------------------ fix-ups restore balance

  /** The root is black and the tree is balanced. */
  predicate Balanced(t: Tree) {
    !IsRed(t) && RB(t, BlackHeight(t))
  }

  lemma BlackenBalanced(t: Tree, h: nat)
    requires RB(t, h)
    ensures Balanced(Blacken(t))
  {
    RBHeight(Blacken(t), if IsRed(t) then h + 1 else h);
  }

  lemma ZipBalanced(f: Tree, p: Path, h: nat)
    requires RB(f, h) && PathRB(p, h) && (IsRed(f) ==> TakesRed(p))
    ensures Balanced(Blacken(Zip(f, p)))
    ensures !IsRed(f) || p.Up? ==> Balanced(Zip(f, p))
  {
    ZipRB(f, p, h);
    BlackenBalanced(Zip(f, p), TopHeight(p, h));
    RBHeight(Zip(f, p), TopHeight(p, h));
  }

  lemma {:induction false} InsertFixBalanced(nn: Tree, p: Path, h: nat)
    requires IsRed(nn) && RB(nn, h) && PathRB(p, h)
    ensures Balanced(InsertFix(nn, p))
    decreases p
  {
    if p.Top? || !p.red {
      ZipBalanced(nn, p, h);
    } else {
      var Up(s, _, k, v, sib, Up(gs, _, gk, gv, uncle, up)) := p;
      if IsRed(uncle) {
        InsertFixBalanced(Join(gs, true, gk, gv, Join(s, false, k, v, nn, sib), Blacken(Own(uncle))), up, h + 1);
      } else {
        ZipBalanced(RotateUp(nn, s, k, v, sib, gs, false, gk, gv, uncle), up, h + 1);
      }
    }
  }

  lemma {:induction false} DeleteFixBalanced(x: Tree, p: Path, h: nat)
    requires RB(x, h) && PathRB(p, h + 1)
    ensures Balanced(DeleteFix(x, p))
    decreases Length(p), if IsRed(x) then 0 else 2
  {
    if IsRed(x) {
      ZipBalanced(Blacken(Own(x)), p, h + 1);
    } else if p.Top? {
      BlackenBalanced(Own(x), h);
    } else {
      var Up(s, red, k, v, bro, up) := p;
      if IsRed(bro) {
        DeleteStepBalanced(x, s, true, k, v, Child(bro, s),
                           Up(s, red, bro.key, bro.val, Child(bro, Opposite(s)), up), h);
      } else {
        DeleteStepBalanced(x, s, red, k, v, bro, up, h);
      }
    }
  }

  lemma {:induction false} DeleteStepBalanced(x: Tree, s: Side, red: bool, k: Key, v: Val, bro: Tree, up: Path, h: nat)
    requires RB(x, h) && !IsRed(x) && RB(bro, h + 1) && !IsRed(bro)
    requires red ==> up.Up? && !up.red
    requires PathRB(up, if red then h + 1 else h + 2)
    ensures Balanced(DeleteStep(x, s, red, k, v, bro, up))
    decreases Length(up), if red then 1 else 3
  {
    if !IsRed(bro.left) && !IsRed(bro.right) {
      var y := Join(s, red, k, v, x, Redden(Own(bro)));
      if red {
        // DeleteFix stops at the red `y`
        ZipBalanced(Blacken(Own(y)), up, h + 1);
      } else {
        DeleteFixBalanced(y, up, h + 1);
      }
    } else {
      var y := RotateDown(x, s, red, k, v, bro);
      ZipBalanced(y, up, if red then h + 1 else h + 2);
    }
  }

  /** `x` fills the hole of `p` but is one black node short; a red `x` supplies
      it by turning black. What the loop of `DeleteFix` keeps. */
  predicate FixReady(x: Tree, p: Path, h: nat) {
    PathRB(p, h + 1) && if IsRed(x) then RB(Blacken(x), h + 1) else RB(x, h)
  }

  /** The same below a parent coloured `red` with a black brother `bro`. */
  predicate StepReady(x: Tree, red: bool, bro: Tree, up: Path, h: nat) {
    && RB(x, h) && !IsRed(x) && RB(bro, h + 1) && !IsRed(bro)
    && (red ==> up.Up? && !up.red)
    && PathRB(up, if red then h + 1 else h + 2)
  }

  /** One step of the rebalancing. */
  lemma DeleteFixStep(x: Tree, p: Path)
    requires p.Up? && !IsRed(x)
    ensures DeleteFix(x, p) ==
      if IsRed(p.sib) then
        DeleteStep(x, p.side, true, p.key, p.val, Child(p.sib, p.side),
                   Up(p.side, p.red, p.sib.key, p.sib.val, Child(p.sib, Opposite(p.side)), p.up))
      else DeleteStep(x, p.side, p.red, p.key, p.val, p.sib, p.up)
  {
  }

  lemma DeleteFixDone(x: Tree, p: Path)
    ensures p.Top? || IsRed(x) ==> DeleteFix(x, p) == Zip(Blacken(Own(x)), p)
  {
  }

  /** `a` has no child but on side `s` and may be taken out of the hole of `p`. */
  predicate SpliceReady(a: Tree, s: Side, p: Path, h: nat) {
    a.Node? && Child(a, Opposite(s)).Nil? && RB(a, h) && PathRB(p, h) && (a.red ==> p.Up? && !p.red)
  }

  /** What takes the place of a removed node is a red leaf or nothing. */
  lemma SpliceFacts(a: Tree, s: Side, p: Path, h: nat)
    requires SpliceReady(a, s, p, h)
    ensures a.red ==> Child(a, s).Nil? && p.Up?
    ensures !a.red ==> h > 0 && FixReady(Child(a, s), p, h - 1)
    ensures Child(a, s).Nil? || IsRed(Child(a, s))
  {
    var g := if a.red then h else h - 1;
    assert RB(Child(a, s), g) && RB(Child(a, Opposite(s)), g);
  }

  lemma BrotherReady(x: Tree, p: Path, h: nat)
    requires FixReady(x, p, h) && !IsRed(x) && p.Up?
    ensures p.sib.Node?
    ensures !IsRed(p.sib) ==> StepReady(x, p.red, p.sib, p.up, h)
    ensures IsRed(p.sib) ==>
      StepReady(x, true, Child(p.sib, p.side),
                Up(p.side, p.red, p.sib.key, p.sib.val, Child(p.sib, Opposite(p.side)), p.up), h)
  {
  }

  lemma BlackNephewsReady(x: Tree, s: Side, red: bool, k: Key, v: Val, bro: Tree, up: Path, h: nat)
    requires StepReady(x, red, bro, up, h) && !IsRed(bro.left) && !IsRed(bro.right)
    ensures FixReady(Join(s, red, k, v, x, Redden(Own(bro))), up, if red then h else h + 1)
  {
  }

  lemma RedNephewReady(x: Tree, s: Side, red: bool, k: Key, v: Val, bro: Tree, up: Path, h: nat)
    requires StepReady(x, red, bro, up, h) && (IsRed(bro.left) || IsRed(bro.right))
    ensures var t := Zip(RotateDown(x, s, red, k, v, bro), up); FixReady(t, Top, BlackHeight(t))
  {
    assert RB(bro.left, h) && RB(bro.right, h);
    ZipBalanced(RotateDown(x, s, red, k, v, bro), up, if red then h + 1 else h + 2);
  }

  /** After a rotation the rebalancing goes on at the root, where it ends. */
  lemma RotationDone(x: Tree, s: Side, red: bool, k: Key, v: Val, bro: Tree, up: Path)
    requires bro.Node? && (IsRed(bro.left) || IsRed(bro.right))
    ensures DeleteFix(Zip(RotateDown(x, s, red, k, v, bro), up), Top) == DeleteStep(x, s, red, k, v, bro, up)
  {
    FreshZip(RotateDown(x, s, red, k, v, bro), up);
  }

  lemma {:induction false} FreshZip(f: Tree, p: Path)
    requires p.Top? ==> f.Node? && f.where.Fresh?
    ensures Zip(f, p).Node? && Zip(f, p).where.Fresh?
    decreases p
  {
    if p.Up? {
      FreshZip(Join(p.side, p.red, p.key, p.val, f, p.sib), p.up);
    }
  }

  // --------------------------------------------------- removal of one node

  lemma {:induction false} MinPathFacts(t: Tree, p: Path, q: Path)
    requires t.Node?
    ensures var (m, r) := MinPath(t, p);
            && m.left.Nil?
            && m == MinPath(t, q).0
            && Before(r) == Before(p)
            && Flat(m) + After(r) == Flat(t) + After(p)
  {
    if t.left.Node? {
      MinPathFacts(t.left, Frame(t, L, p), Frame(t, L, q));
      var (m, r) := MinPath(t, p);
      var l, x, fr, a := Flat(t.left), [(t.key, t.val)], Flat(t.right), After(p);
      assert l + (x + fr + a) == (l + x + fr) + a;
    }
  }

  lemma {:induction false} MinPathRB(t: Tree, p: Path, h: nat) returns (g: nat)
    requires t.Node? && RB(t, h) && PathRB(p, h) && (IsRed(t) ==> p.Up? && !p.red)
    ensures var (m, q) := MinPath(t, p);
            RB(m, g) && PathRB(q, g) && (IsRed(m) ==> q.Up? && !q.red)
  {
    if t.left.Nil? {
      g := h;
    } else {
      g := MinPathRB(t.left, Frame(t, L, p), if t.red then h else h - 1);
    }
  }

  lemma FlatSplice(f: Tree, child: Tree, p: Path)
    requires f.Node?
    ensures Flat(Splice(f, child, p)) == Before(p) + Flat(child) + After(p)
  {
    FlatZip(child, p);
    FlatDeleteFix(child, p);
  }

  lemma Regroup(a: seq<Pair>, x: seq<Pair>, c: seq<Pair>, d: seq<Pair>, e: seq<Pair>, f: seq<Pair>)
    requires x + c + d == e + f
    ensures a + x + c + d == a + e + f
  {
    assert a + x + c + d == a + (x + c + d);
  }

  /** The whole of `f` but its root takes the place of `f`. */
  lemma FlatRemove(f: Tree, p: Path)
    requires f.Node?
    ensures Flat(Remove(f, p)) == Before(p) + Flat(f.left) + Flat(f.right) + After(p)
  {
    if f.left.Nil? {
      FlatSplice(f, f.right, p);
    } else if f.right.Nil? {
      FlatSplice(f, f.left, p);
    } else {
      FlatRemoveInner(f, p);
    }
  }

  lemma FlatRemoveInner(f: Tree, p: Path)
    requires f.Node? && f.left.Node? && f.right.Node?
    ensures Flat(Remove(f, p)) == Before(p) + Flat(f.left) + Flat(f.right) + After(p)
  {
    var m := MinPath(f.right, Top).0;
    var p0 := Up(R, f.red, m.key, m.val, f.left, p);
    MinPathFacts(f.right, p0, Top);
    var q := MinPath(f.right, p0).1;
    FlatSplice(m, m.right, q);
    assert Flat(m) == [(m.key, m.val)] + Flat(m.right);
    Regroup(Before(p) + Flat(f.left), [(m.key, m.val)], Flat(m.right), After(q), Flat(f.right), After(p));
  }

  lemma SpliceBalanced(f: Tree, child: Tree, p: Path, h: nat)
    requires f.Node? && (child == f.left || child == f.right) && (f.left.Nil? || f.right.Nil?)
    requires RB(f, h) && PathRB(p, h) && (f.red ==> p.Up? && !p.red)
    requires child.Nil? ==> f.left.Nil? && f.right.Nil?
    ensures Balanced(Splice(f, child, p))
    // what takes the node's place is a red leaf or nothing, and nothing if the node is red
    ensures child.Nil? || (!f.red && child.red)
  {
    if f.red {
      ZipBalanced(child, p, h);
    } else {
      DeleteFixBalanced(child, p, h - 1);
    }
  }

  lemma RemoveBalanced(f: Tree, p: Path, h: nat)
    requires f.Node? && RB(f, h) && PathRB(p, h) && (f.red ==> p.Up? && !p.red)
    ensures Balanced(Remove(f, p))
  {
    if f.left.Nil? {
      SpliceBalanced(f, f.right, p, h);
    } else if f.right.Nil? {
      SpliceBalanced(f, f.left, p, h);
    } else {
      var m := MinPath(f.right, Top).0;
      var p0 := Up(R, f.red, m.key, m.val, f.left, p);
      MinPathFacts(f.right, p0, Top);
      var g := MinPathRB(f.right, p0, if f.red then h else h - 1);
      SpliceBalanced(m, m.right, MinPath(f.right, p0).1, g);
    }
  }

  // ------------------------------------------------------------ main results

  lemma DescendFacts(t: Tree, k: Key) returns (h: nat)
    requires ValidTree(t)
    ensures var (f, p) := Descend(t, k, Top);
            && Before(p) + Flat(f) + After(p) == Flat(t)
            && Around(p, k)
            && RB(f, h) && PathRB(p, h) && (IsRed(f) ==> p.Up? && !p.red)
            && (f.Node? ==> f.key == k)
  {
    assert [] + Flat(t) + [] == Flat(t);
    DescendFlat(t, k, Top);
    DescendAround(t, k, Top);
    DescendFound(t, k, Top);
    h := DescendRB(t, k, Top, BlackHeight(t));
  }

  /** In a search tree a node separates its subtrees. */
  lemma Separates(t: Tree)
    requires Ordered(t) && t.Node?
    ensures AllBelow(Flat(t.left), t.key) && AllAbove(t.key, Flat(t.right))
    ensures Ordered(t.left) && Ordered(t.right)
  {
    SortedSplit(Flat(t.left), (t.key, t.val), Flat(t.right));
  }

  lemma DeleteCorrect(t: Tree, k: Key)
    requires ValidTree(t)
    ensures ValidTree(DeleteT(t, k))
    ensures Contents(DeleteT(t, k)) == Contents(t) - {k}
    ensures Has(t, k) <==> k in Contents(t)
    ensures !Has(t, k) ==> DeleteT(t, k) == t
  {
    var h := DescendFacts(t, k);
    var (f, p) := Descend(t, k, Top);
    if f.Nil? {
      assert Before(p) + [] + After(p) == Before(p) + After(p);
      AroundKeys(Before(p), k, After(p));
      MapOfConcat(Before(p), After(p));
    } else {
      FlatRemove(f, p);
      RemoveBalanced(f, p, h);
      Hole(f, p, Flat(t), k);
    }
  }

  /** The pairs around a found node, and what is left without it. */
  lemma Hole(f: Tree, p: Path, s: seq<Pair>, k: Key)
    requires f.Node? && f.key == k && s == Before(p) + Flat(f) + After(p) && Sorted(s) && Around(p, k)
    ensures var r := Before(p) + Flat(f.left) + Flat(f.right) + After(p);
            Sorted(r) && k in MapOf(s) && MapOf(r) == MapOf(s) - {k}
  {
    HoleSplit(Before(p), Flat(f.left), (k, f.val), Flat(f.right), After(p));
    var a, b := Before(p) + Flat(f.left), Flat(f.right) + After(p);
    SortedSplit(a, (k, f.val), b);
    SortedRemove(a, (k, f.val), b);
    MapOfInsert(a, k, f.val, b);
  }

  lemma HoleSplit(a: seq<Pair>, l: seq<Pair>, x: Pair, r: seq<Pair>, b: seq<Pair>)
    ensures a + (l + [x] + r) + b == (a + l) + [x] + (r + b)
    ensures a + l + r + b == (a + l) + (r + b)
  {
  }

  lemma InsertCorrect(t: Tree, k: Key, v: Val)
    requires ValidTree(t) && k !in Contents(t)
    ensures ValidTree(InsertT(t, k, v))
    ensures Contents(InsertT(t, k, v)) == Contents(t)[k := v]
  {
    DeleteCorrect(t, k);
    var h := DescendFacts(t, k);
    var p := Descend(t, k, Top).1;
    var nn := Node(Fresh, true, k, v, Nil, Nil);
    InsertFixBalanced(nn, p, h);
    FlatInsertFix(nn, p);
    assert Flat(nn) == [(k, v)];
    assert Before(p) + [] + After(p) == Before(p) + After(p);
    SortedInsert(Before(p), k, v, After(p));
    MapOfInsert(Before(p), k, v, After(p));
  }

  lemma PutCorrect(t: Tree, k: Key, v: Val)
    requires ValidTree(t)
    ensures ValidTree(PutT(t, k, v))
    ensures Contents(PutT(t, k, v)) == Contents(t)[k := v]
  {
    DeleteCorrect(t, k);
    InsertCorrect(if Has(t, k) then DeleteT(t, k) else t, k, v);
    assert (Contents(t) - {k})[k := v] == Contents(t)[k := v];
  }

  lemma {:induction false} GetCorrect(t: Tree, k: Key)
    requires Ordered(t)
    ensures GetT(t, k) == if k in Contents(t) then Some(Contents(t)[k]) else None
  {
    if t.Node? {
      Separates(t);
      LessTotal(k, t.key);
      MapOfConcat(Flat(t.left) + [(t.key, t.val)], Flat(t.right));
      assert (Flat(t.left) + [(t.key, t.val)])[..|Flat(t.left)|] == Flat(t.left);
      if k == t.key {
        AroundKeys(Flat(t.left), k, Flat(t.right));
      } else if Less(k, t.key) {
        GetCorrect(t.left, k);
        AboveAll(k, t.key, Flat(t.right));
        AroundKeys([], k, Flat(t.right));
      } else {
        GetCorrect(t.right, k);
        BelowAll(Flat(t.left), t.key, k);
        AroundKeys(Flat(t.left), k, []);
      }
    }
  }

  lemma AboveAll(k: Key, j: Key, s: seq<Pair>)
    requires Less(k, j) && AllAbove(j, s)
    ensures AllAbove(k, s)
  {
    forall i | 0 <= i < |s| ensures Less(k, s[i].0) {
      LessTransitive(k, j, s[i].0);
    }
  }

  lemma BelowAll(s: seq<Pair>, j: Key, k: Key)
    requires AllBelow(s, j) && Less(j, k)
    ensures AllBelow(s, k)
  {
    forall i | 0 <= i < |s| ensures Less(s[i].0, k) {
      LessTransitive(s[i].0, j, k);
    }
  }

  lemma {:induction false} SameShapeFacts(t: Tree, u: Tree)
    requires SameShape(t, u)
    ensures Flat(t) == Flat(u) && IsRed(t) == IsRed(u) && BlackHeight(t) == BlackHeight(u)
    ensures forall h: nat :: RB(t, h) <==> RB(u, h)
  {
    if t.Node? {
      SameShapeFacts(t.left, u.left);
      SameShapeFacts(t.right, u.right);
    }
  }

  lemma {:induction false} SameShapeSelf(t: Tree)
    ensures SameShape(t, t)
  {
    if t.Node? {
      SameShapeSelf(t.left);
      SameShapeSelf(t.right);
    }
  }

  lemma {:induction false} SameShapeTransitive(t: Tree, u: Tree, v: Tree)
    requires SameShape(t, u) && SameShape(u, v)
    ensures SameShape(t, v)
  {
    if t.Node? {
      SameShapeTransitive(t.left, u.left, v.left);
      SameShapeTransitive(t.right, u.right, v.right);
    }
  }

  lemma {:induction false} ZipSameShape(f: Tree, g: Tree, p: Path)
    requires SameShape(f, g)
    ensures SameShape(Zip(f, p), Zip(g, p))
    decreases p
  {
    if p.Up? {
      SameShapeSelf(p.sib);
      ZipSameShape(Join(p.side, p.red, p.key, p.val, f, p.sib), Join(p.side, p.red, p.key, p.val, g, p.sib), p.up);
    }
  }

  lemma {:induction false} DescendSameShape(t: Tree, k: Key, p: Path)
    ensures var (f, q) := Descend(t, k, p); SameShape(Zip(Own(f), q), Zip(Own(t), p))
  {
    var (f, q) := Descend(t, k, p);
    if t.Nil? || k == t.key {
      SameShapeSelf(Zip(Own(t), p));
    } else {
      var s := if Less(k, t.key) then L else R;
      DescendSameShape(Child(t, s), k, Frame(t, s, p));
      var c := Child(t, s);
      SameShapeSelf(c);
      ZipSameShape(Own(c), c, Frame(t, s, p));
      SameShapeTransitive(Zip(Own(f), q), Zip(Own(c), Frame(t, s, p)), Zip(c, Frame(t, s, p)));
    }
  }

  /** `u` is `t` with new nodes all the way down to the key `k`; what lies beside the way
      and below it is the same. */
  predicate Refreshed(u: Tree, t: Tree, k: Key) {
    && u.Node? && t.Node? && u.where.Fresh? && u.red == t.red && u.key == t.key && u.val == t.val
    && if k == t.key then u.left == t.left && u.right == t.right
       else if Less(k, t.key) then Refreshed(u.left, t.left, k) && u.right == t.right
       else u.left == t.left && Refreshed(u.right, t.right, k)
  }

  lemma {:induction false} CopiedDown(t: Tree, k: Key, p: Path) returns (u: Tree)
    requires Descend(t, k, p).0.Node?
    ensures Refreshed(u, t, k) && Zip(Own(Descend(t, k, p).0), Descend(t, k, p).1) == Zip(u, p)
  {
    if k == t.key {
      u := Own(t);
    } else if Less(k, t.key) {
      u := CopiedDown(t.left, k, Frame(t, L, p));
      u := Node(Fresh, t.red, t.key, t.val, u, t.right);
    } else {
      u := CopiedDown(t.right, k, Frame(t, R, p));
      u := Node(Fresh, t.red, t.key, t.val, t.left, u);
    }
  }

  lemma {:induction false} FreshDown(t: Tree, k: Key, p: Path)
    requires Layered(t) && Descend(t, k, p).0.Node? && Descend(t, k, p).0.where.Fresh?
    ensures Refreshed(t, t, k)
  {
    if t.where.At? {
      OldDown(t, k, p);
    } else if k != t.key {
      if Less(k, t.key) {
        FreshDown(t.left, k, Frame(t, L, p));
      } else {
        FreshDown(t.right, k, Frame(t, R, p));
      }
    }
  }

  lemma {:induction false} OldDown(t: Tree, k: Key, p: Path)
    requires Old(t) && Descend(t, k, p).0.Node?
    ensures Descend(t, k, p).0.where.At?
  {
    if k != t.key {
      if Less(k, t.key) {
        OldDown(t.left, k, Frame(t, L, p));
      } else {
        OldDown(t.right, k, Frame(t, R, p));
      }
    }
  }

  /** `Copy` makes new nodes of the whole way down to a key that is there, and of nothing
      else; for a key that is not there it does nothing. */
  lemma CopyExactly(t: Tree, k: Key)
    requires ValidTree(t) && Layered(t)
    ensures k in Contents(t) ==> Refreshed(CopyT(t, k), t, k)
    ensures k !in Contents(t) ==> CopyT(t, k) == t
  {
    hide ValidTree, Contents;
    DeleteCorrect(t, k);
    if Has(t, k) {
      if Descend(t, k, Top).0.where.Fresh? {
        FreshDown(t, k, Top);
      } else {
        var u := CopiedDown(t, k, Top);
      }
    }
  }

  /** `Copy` moves nodes but changes neither the map nor the shape. */
  lemma CopyCorrect(t: Tree, k: Key)
    ensures SameShape(CopyT(t, k), t)
    ensures Contents(CopyT(t, k)) == Contents(t)
    ensures ValidTree(t) ==> ValidTree(CopyT(t, k))
  {
    SameShapeSelf(t);
    var (f, p) := Descend(t, k, Top);
    if f.Node? && f.where.At? {
      DescendSameShape(t, k, Top);
      if t.Node? {
        SameShapeSelf(t.left);
        SameShapeSelf(t.right);
      }
      SameShapeTransitive(CopyT(t, k), Own(t), t);
    }
    SameShapeFacts(CopyT(t, k), t);
  }

  // -------------------------------------------------- walking to the minimum

  function LeftLength(t: Tree): nat {
    if t.Nil? then 0 else 1 + LeftLength(t.left)
  }

  /** The leftmost node, made writable, and the path to it. */
  function MinFrom(t: Tree, p: Path): (r: (Tree, Path))
    requires t.Node?
  {
    (Own(MinPath(t, p).0), MinPath(t, p).1)
  }

  function OwnMin(t: Tree): (r: (Tree, Path)) {
    if t.Nil? then (Nil, Top) else MinFrom(t, Top)
  }

  lemma OwnMinStart(t: Tree)
    requires t.Node?
    ensures MinFrom(t, Top) == OwnMin(t)
  {
  }

  lemma MinFromEnd(t: Tree, p: Path)
    requires t.Node? && t.where.Fresh? && t.left.Nil?
    ensures MinFrom(t, p) == (t, p)
  {
  }

  lemma MinFromOwn(t: Tree, p: Path)
    requires t.Node?
    ensures MinFrom(Own(t), p) == MinFrom(t, p)
  {
    if t.left.Node? {
      assert Frame(Own(t), L, p) == Frame(t, L, p);
    }
  }

  lemma MinFromStep(t: Tree, p: Path)
    requires t.Node? && t.left.Node?
    ensures MinFrom(Own(t.left), Frame(t, L, p)) == MinFrom(t, p)
    ensures LeftLength(Own(t.left)) < LeftLength(t)
  {
    MinFromOwn(t.left, Frame(t, L, p));
  }

  lemma {:induction false} MinPathAppend(t: Tree, p: Path, q: Path)
    requires t.Node?
    ensures MinPath(t, Append(p, q)) == (MinPath(t, p).0, Append(MinPath(t, p).1, q))
  {
    if t.left.Node? {
      assert Append(Frame(t, L, p), q) == Frame(t, L, Append(p, q));
      MinPathAppend(t.left, Frame(t, L, p), q);
    }
  }

  predicate RemoveReady(a: Tree, p: Path, h: nat) {
    a.Node? && RB(a, h) && PathRB(p, h) && (a.red ==> p.Up? && !p.red)
  }

  /** The leftmost node on the right is spliced out; its payload does not matter. */
  lemma RemoveInnerFacts(a: Tree, p: Path, h: nat, k: Key, v: Val) returns (g: nat)
    requires RemoveReady(a, p, h) && a.left.Node? && a.right.Node?
    ensures OwnMin(Own(a.right)).0.Node?
    ensures var (m, q) := OwnMin(Own(a.right));
            var b, r := m.(key := k, val := v), Append(q, Frame(a, R, p).(key := m.key, val := m.val));
            SpliceReady(b, R, r, g) && Splice(b, b.right, r) == Remove(a, p)
  {
    MinFromOwn(a.right, Top);
    var m := MinPath(a.right, Top).0;
    var base := Up(R, a.red, m.key, m.val, a.left, p);
    MinPathAppend(a.right, Top, base);
    MinPathFacts(a.right, Top, Top);
    g := MinPathRB(a.right, base, if a.red then h else h - 1);
  }

  /** The red node `nn` fills the hole of `p`; only its parent may be red, too. */
  predicate InsertReady(nn: Tree, p: Path, h: nat) {
    IsRed(nn) && RB(nn, h) && PathRB(p, h)
  }

  /** The search for an existing key has found a node that may be removed. */
  lemma DeleteFacts(t: Tree, k: Key) returns (h: nat)
    requires ValidTree(t) && Has(t, k)
    ensures var (f, p) := Descend(t, k, Top); RemoveReady(Own(f), p, h) && Remove(Own(f), p) == DeleteT(t, k)
  {
    h := DescendFacts(t, k);
    RemoveOwn(Descend(t, k, Top).0, Descend(t, k, Top).1);
  }

  lemma RemoveOwn(f: Tree, p: Path)
    requires f.Node?
    ensures Remove(Own(f), p) == Remove(f, p)
  {
  }

  lemma DeleteHas(t: Tree, k: Key)
    requires ValidTree(t)
    ensures ValidTree(DeleteT(t, k)) && !Has(DeleteT(t, k), k)
  {
    DeleteCorrect(t, k);
    DeleteCorrect(DeleteT(t, k), k);
  }

  /** Where a new red leaf goes, after the key has been removed if need be. */
  lemma PutFacts(t: Tree, k: Key, v: Val) returns (h: nat)
    requires ValidTree(t)
    ensures var u := if Has(t, k) then DeleteT(t, k) else t;
            var nn, p := Node(Fresh, true, k, v, Nil, Nil), Descend(u, k, Top).1;
            InsertReady(nn, p, h) && InsertFix(nn, p) == PutT(t, k, v)
  {
    DeleteHas(t, k);
    h := DescendFacts(if Has(t, k) then DeleteT(t, k) else t, k);
  }
}
