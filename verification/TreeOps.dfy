/** The tree operations as functions on tree values: what `PersistentTree` has
    to compute, step for step. */
module TreeOps {
  import opened Basics
  import opened Keys
  import opened Trees
  import opened Zippers

  // ----------------------------------------------------------------- insert

  /** The red node `nn` fills the hole of `p`: recolour or rotate until no red
      node has a red child, then blacken the root. */
  function InsertFix(nn: Tree, p: Path): Tree
    decreases p
  {
    if p.Top? || !p.red || p.up.Top? then Blacken(Zip(nn, p))
    else
      var Up(s, _, k, v, sib, Up(gs, _, gk, gv, uncle, up)) := p;
      if IsRed(uncle) then
        InsertFix(Join(gs, true, gk, gv, Join(s, false, k, v, nn, sib), Blacken(Own(uncle))), up)
      else
        Blacken(Zip(RotateUp(nn, s, k, v, sib, gs, p.up.red, gk, gv, uncle), up))
  }

  /** The red parent (key `k`) of the red node `nn` takes its grandparent's
      place; when `nn` is an inner grandchild it is first rotated outwards. */
  function RotateUp(nn: Tree, s: Side, k: Key, v: Val, sib: Tree,
                    gs: Side, gred: bool, gk: Key, gv: Val, uncle: Tree): Tree
  {
    if s == gs then
      Join(gs, gred, k, v, nn, Join(gs, true, gk, gv, sib, uncle))
    else if nn.Nil? then Nil
    else
      Join(gs, gred, nn.key, nn.val,
           Join(gs, true, k, v, sib, Child(nn, gs)),
           Join(gs, true, gk, gv, Child(nn, Opposite(gs)), uncle))
  }

  /** Adds an absent key. */
  function InsertT(t: Tree, k: Key, v: Val): Tree {
    var (_, p) := Descend(t, k, Top);
    InsertFix(Node(Fresh, true, k, v, Nil, Nil), p)
  }

  // ----------------------------------------------------------------- delete

  /** The hole of `p` holds `x`, which is one black node short. */
  function DeleteFix(x: Tree, p: Path): Tree
    decreases Length(p), if IsRed(x) then 0 else 2
  {
    if p.Top? || IsRed(x) then Zip(Blacken(Own(x)), p)
    else
      var Up(s, red, k, v, bro, up) := p;
      if IsRed(bro) then
        // the red brother becomes the grandparent; a black nephew the brother
        DeleteStep(x, s, true, k, v, Child(bro, s),
                   Up(s, red, bro.key, bro.val, Child(bro, Opposite(s)), up))
      else
        DeleteStep(x, s, red, k, v, bro, up)
  }

  /** The same with a parent (`red`, `k`, `v`) whose other child `bro` is black. */
  function DeleteStep(x: Tree, s: Side, red: bool, k: Key, v: Val, bro: Tree, up: Path): Tree
    decreases Length(up), if red then 1 else 3
  {
    if bro.Nil? then Zip(Join(s, red, k, v, x, bro), up)
    else if !IsRed(bro.left) && !IsRed(bro.right) then
      DeleteFix(Join(s, red, k, v, x, Redden(Own(bro))), up)
    else
      Blacken(Zip(RotateDown(x, s, red, k, v, bro), up))
  }

  /** A nephew is red: one or two rotations supply the missing black node. */
  function RotateDown(x: Tree, s: Side, red: bool, k: Key, v: Val, bro: Tree): Tree
    requires bro.Node?
  {
    var o := Opposite(s);
    var near, far := Child(bro, s), Child(bro, o);
    if !IsRed(far) then
      if near.Nil? then Nil
      else
        Join(s, red, near.key, near.val,
             Join(s, false, k, v, x, Child(near, s)),
             Join(s, false, bro.key, bro.val, Child(near, o), far))
    else
      Join(s, red, bro.key, bro.val, Join(s, false, k, v, x, near), Blacken(Own(far)))
  }

  /** The leftmost node below `t`, as a tree and the path to it. */
  function MinPath(t: Tree, p: Path): (r: (Tree, Path))
    requires t.Node?
    ensures r.0.Node?
  {
    if t.left.Nil? then (t, p)
    else MinPath(t.left, Frame(t, L, p))
  }

  /** Takes the node `f`, which has at most one child, out of the hole of `p`. */
  function Splice(f: Tree, child: Tree, p: Path): Tree
    requires f.Node?
  {
    if f.red then Zip(child, p) else DeleteFix(child, p)
  }

  /** Removes the root of `f`, which fills the hole of `p`. */
  function Remove(f: Tree, p: Path): Tree
    requires f.Node?
  {
    if f.left.Nil? then Splice(f, f.right, p)
    else if f.right.Nil? then Splice(f, f.left, p)
    else
      var (m, _) := MinPath(f.right, Top);
      var (_, q) := MinPath(f.right, Up(R, f.red, m.key, m.val, f.left, p));
      Splice(m, m.right, q)
  }

  function DeleteT(t: Tree, k: Key): Tree {
    var (f, p) := Descend(t, k, Top);
    if f.Nil? then t else Remove(f, p)
  }

  // ------------------------------------------------------------ put and copy

  predicate Has(t: Tree, k: Key) {
    Descend(t, k, Top).0.Node?
  }

  /** An existing key is deleted and inserted again. */
  function PutT(t: Tree, k: Key, v: Val): Tree {
    InsertT(if Has(t, k) then DeleteT(t, k) else t, k, v)
  }

  /** Refreshes the path down to a key whose node is not fresh yet. */
  function CopyT(t: Tree, k: Key): Tree {
    var (f, p) := Descend(t, k, Top);
    if f.Nil? || f.where.Fresh? then t else Zip(Own(f), p)
  }

  function GetT(t: Tree, k: Key): (r: Option<Val>) {
    if t.Nil? then None
    else if k == t.key then Some(t.val)
    else if Less(k, t.key) then GetT(t.left, k)
    else GetT(t.right, k)
  }
}
