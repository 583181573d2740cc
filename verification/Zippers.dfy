/** A tree with a hole: the explicit path of (already copied) nodes that the
    tree operations keep, innermost first. */
module Zippers {
  import opened Keys
  import opened Trees

  /** One frame is a fresh node whose child on `side` is the hole and whose other
      child is `sib`; `up` is the rest of the path, `Top` the end of it. */
  datatype Path =
    | Top
    | Up(side: Side, red: bool, key: Key, val: Val, sib: Tree, up: Path)

  function Zip(f: Tree, p: Path): Tree
    decreases p
  {
    match p
    case Top => f
    case Up(s, red, k, v, sib, up) => Zip(Join(s, red, k, v, f, sib), up)
  }

  function Length(p: Path): nat {
    if p.Top? then 0 else 1 + Length(p.up)
  }

  /** The pairs in order before the hole. */
  function Before(p: Path): seq<Pair> {
    match p
    case Top => []
    case Up(s, _, k, v, sib, up) =>
      if s.L? then Before(up) else Before(up) + Flat(sib) + [(k, v)]
  }

  /** The pairs in order after the hole. */
  function After(p: Path): seq<Pair> {
    match p
    case Top => []
    case Up(s, _, k, v, sib, up) =>
      if s.L? then [(k, v)] + Flat(sib) + After(up) else After(up)
  }

  /** Closing the innermost frame over `f` keeps the order. */
  lemma FrameFlat(f: Tree, p: Path)
    requires p.Up?
    ensures Before(p.up) + Flat(Join(p.side, p.red, p.key, p.val, f, p.sib)) + After(p.up)
         == Before(p) + Flat(f) + After(p)
  {
    var b, x, g, a := Before(p.up), [(p.key, p.val)], Flat(p.sib), After(p.up);
    if p.side.L? {
      assert b + (Flat(f) + x + g) + a == b + Flat(f) + (x + g + a);
    } else {
      assert b + (g + x + Flat(f)) + a == (b + g + x) + Flat(f) + a;
    }
  }

  lemma {:induction false} FlatZip(f: Tree, p: Path)
    ensures Flat(Zip(f, p)) == Before(p) + Flat(f) + After(p)
    decreases p
  {
    match p
    case Top =>
    case Up(s, red, k, v, sib, up) =>
      FrameFlat(f, p);
      FlatZip(Join(s, red, k, v, f, sib), up);
  }

  /** Filling the hole with a tree of black height `h` gives a red-black tree. */
  predicate PathRB(p: Path, h: nat) {
    match p
    case Top => true
    case Up(_, red, _, _, sib, up) =>
      && RB(sib, h)
      && (red ==> !IsRed(sib) && up.Up? && !up.red)
      && PathRB(up, if red then h else h + 1)
  }

  function TopHeight(p: Path, h: nat): nat {
    if p.Top? then h else TopHeight(p.up, if p.red then h else h + 1)
  }

  /** May the hole be filled with a red node? */
  predicate TakesRed(p: Path) {
    p.Top? || !p.red
  }

  lemma {:induction false} ZipRB(f: Tree, p: Path, h: nat)
    requires RB(f, h) && PathRB(p, h) && (IsRed(f) ==> TakesRed(p))
    ensures RB(Zip(f, p), TopHeight(p, h))
    ensures IsRed(Zip(f, p)) ==> p.Top? && IsRed(f)
    decreases p
  {
    match p
    case Top =>
    case Up(s, red, k, v, sib, up) =>
      ZipRB(Join(s, red, k, v, f, sib), up, if red then h else h + 1);
  }

  lemma {:induction false} RBHeight(t: Tree, h: nat)
    requires RB(t, h)
    ensures h == BlackHeight(t)
  {
    if t.Node? {
      RBHeight(t.left, if t.red then h else h - 1);
    }
  }

  function Height(t: Tree): nat {
    if t.Nil? then 0 else 1 + if Height(t.left) > Height(t.right) then Height(t.left) else Height(t.right)
  }

  function Power2(n: nat): nat {
    if n == 0 then 1 else 2 * Power2(n - 1)
  }

  /** Balance: no way down is more than twice as long as another one, and a tree of black
      height `h` has at least 2^h - 1 nodes. */
  lemma {:induction false} BalancedHeight(t: Tree, h: nat)
    requires RB(t, h)
    ensures h <= Height(t) <= 2 * h + (if IsRed(t) then 1 else 0)
    ensures Power2(h) <= |Flat(t)| + 1
  {
    if t.Node? {
      var g := if t.red then h else h - 1;
      BalancedHeight(t.left, g);
      BalancedHeight(t.right, g);
    }
  }

  lemma {:induction false} OldLayered(t: Tree)
    requires Old(t)
    ensures Layered(t)
  {
  }

  // ------------------------------------------------------------- searching

  /** The frame left behind when the search goes down on side `s`. */
  function Frame(t: Tree, s: Side, p: Path): Path
    requires t.Node?
  {
    Up(s, t.red, t.key, t.val, Child(t, Opposite(s)), p)
  }

  /** The subtree where `k` is or belongs, and the copied path down to it. */
  function Descend(t: Tree, k: Key, p: Path): (r: (Tree, Path)) {
    if t.Nil? || k == t.key then (t, p)
    else if Less(k, t.key) then Descend(t.left, k, Frame(t, L, p))
    else Descend(t.right, k, Frame(t, R, p))
  }

  /** The hole is where `k` belongs. */
  ghost predicate Around(p: Path, k: Key) {
    AllBelow(Before(p), k) && AllAbove(k, After(p))
  }

  /** Going down one step moves no pair across the hole. */
  lemma StepFlat(t: Tree, s: Side, p: Path)
    requires t.Node?
    ensures var q := Frame(t, s, p);
            Before(q) + Flat(Child(t, s)) + After(q) == Before(p) + Flat(t) + After(p)
  {
    FrameFlat(Child(t, s), Frame(t, s, p));
  }

  lemma {:induction false} DescendFlat(t: Tree, k: Key, p: Path)
    ensures var (f, q) := Descend(t, k, p);
            Before(q) + Flat(f) + After(q) == Before(p) + Flat(t) + After(p)
  {
    if t.Node? && k != t.key {
      if Less(k, t.key) {
        StepFlat(t, L, p);
        DescendFlat(t.left, k, Frame(t, L, p));
      } else {
        StepFlat(t, R, p);
        DescendFlat(t.right, k, Frame(t, R, p));
      }
    }
  }

  lemma {:induction false} DescendFound(t: Tree, k: Key, p: Path)
    ensures var f := Descend(t, k, p).0; f.Node? ==> f.key == k
  {
    if t.Node? && k != t.key {
      if Less(k, t.key) {
        DescendFound(t.left, k, Frame(t, L, p));
      } else {
        DescendFound(t.right, k, Frame(t, R, p));
      }
    }
  }

  lemma {:induction false} DescendAround(t: Tree, k: Key, p: Path)
    requires Sorted(Before(p) + Flat(t) + After(p)) && Around(p, k)
    ensures Around(Descend(t, k, p).1, k)
  {
    if t.Node? && k != t.key {
      var s := Before(p) + Flat(t) + After(p);
      var i := |Before(p)| + |Flat(t.left)|;
      assert s[i] == (t.key, t.val);
      LessTotal(k, t.key);
      if Less(k, t.key) {
        var q := Frame(t, L, p);
        StepFlat(t, L, p);
        forall j | 0 <= j < |After(q)| ensures Less(k, After(q)[j].0) {
          assert After(q)[j] == s[i + j];
          if j > 0 {
            LessTransitive(k, t.key, s[i + j].0);
          }
        }
        DescendAround(t.left, k, q);
      } else {
        var q := Frame(t, R, p);
        StepFlat(t, R, p);
        forall j | 0 <= j < |Before(q)| ensures Less(Before(q)[j].0, k) {
          assert Before(q)[j] == s[j];
          if j < i {
            LessTransitive(s[j].0, t.key, k);
          }
        }
        DescendAround(t.right, k, q);
      }
    }
  }

  lemma {:induction false} DescendRB(t: Tree, k: Key, p: Path, h: nat) returns (g: nat)
    requires RB(t, h) && PathRB(p, h) && (IsRed(t) ==> p.Up? && !p.red)
    ensures var (f, q) := Descend(t, k, p);
            RB(f, g) && PathRB(q, g) && (IsRed(f) ==> q.Up? && !q.red)
  {
    if t.Nil? || k == t.key {
      g := h;
    } else if Less(k, t.key) {
      g := DescendRB(t.left, k, Frame(t, L, p), if t.red then h else h - 1);
    } else {
      g := DescendRB(t.right, k, Frame(t, R, p), if t.red then h else h - 1);
    }
  }

  function Append(p: Path, q: Path): Path {
    if p.Top? then q else p.(up := Append(p.up, q))
  }

  /** The search does not depend on what lies above. */
  lemma {:induction false} DescendAppend(t: Tree, k: Key, p: Path, q: Path)
    ensures Descend(t, k, Append(p, q)) == (Descend(t, k, p).0, Append(Descend(t, k, p).1, q))
  {
    if t.Node? && k != t.key {
      var s := if Less(k, t.key) then L else R;
      assert Append(Frame(t, s, p), q) == Frame(t, s, Append(p, q));
      DescendAppend(Child(t, s), k, Frame(t, s, p), q);
    }
  }

  /** A search from the top, as a step and a search in a child. */
  lemma DescendStep(t: Tree, k: Key, s: Side)
    requires t.Node? && k != t.key && s == if Less(k, t.key) then L else R
    ensures Descend(t, k, Top).0 == Descend(Child(t, s), k, Top).0
    ensures Descend(t, k, Top).1 == Append(Descend(Child(t, s), k, Top).1, Frame(t, s, Top))
  {
    DescendAppend(Child(t, s), k, Top, Frame(t, s, Top));
  }
}
