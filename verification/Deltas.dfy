/** Tree deltas: the fresh nodes of a tree get addresses, are written out as an
    after image, and are read back by following addresses. */
module Deltas {
  import opened Basics
  import opened Keys
  import opened Trees
  import opened TreeOps
  import opened TreeProofs
  import opened Sharing

  function FreshCount(t: Tree): nat {
    if t.Nil? || t.where.At? then 0 else FreshCount(t.left) + FreshCount(t.right) + 1
  }

  /** The fresh nodes become nodes of the after image of intention `i`, numbered
      in post-order from `idx`; the next number is returned, too. */
  function Place(t: Tree, i: nat, idx: nat): (r: (Tree, nat)) {
    if t.Nil? || t.where.At? then (t, idx)
    else
      var (l, a) := Place(t.left, i, idx);
      var (r, b) := Place(t.right, i, a);
      (Node(At(i, b), t.red, t.key, t.val, l, r), b + 1)
  }

  /** A serialized pointer: to nothing, into the same after image, or into that of
      an older intention. */
  datatype Ref = Void | Self(off: nat) | Link(ipos: nat, off: nat)

  datatype Entry = Entry(red: bool, key: Key, val: Val, left: Ref, right: Ref)

  /** For every intention with an after image the entries of that image. */
  type Store = map<nat, seq<Entry>>

  function RefTo(t: Tree, i: nat): Ref {
    if t.Nil? || t.where.Fresh? then Void
    else if t.where.ipos == i then Self(t.where.off)
    else Link(t.where.ipos, Short(t.where.off))
  }

  /** The entries for the nodes of intention `i` at the top of a placed tree. */
  function Entries(t: Tree, i: nat): seq<Entry> {
    if t.Nil? || t.where.Fresh? || t.where.ipos != i then []
    else Entries(t.left, i) + Entries(t.right, i) + [Entry(t.red, t.key, t.val, RefTo(t.left, i), RefTo(t.right, i))]
  }

  /** Reads a node and everything below it. A pointer that does not lead to an
      older position, or to a smaller offset in the same image, would not be
      followed: `AddImage` and `AllDecode` say that there are none. */
  function Decode(s: Store, i: nat, off: nat): Option<Tree>
    decreases i, off, 0
  {
    if i !in s || off >= |s[i]| then None
    else
      var e := s[i][off];
      match (Follow(s, e.left, i, off), Follow(s, e.right, i, off))
      case (Some(l), Some(r)) => Some(Node(At(i, off), e.red, e.key, e.val, l, r))
      case _ => None
  }

  function Follow(s: Store, ref: Ref, i: nat, off: nat): Option<Tree>
    decreases i, off, 0, 0
  {
    match ref
    case Void => Some(Nil)
    case Self(o) => if Short(o) < off then Decode(s, i, Short(o)) else None
    case Link(j, o) => if j < i then Decode(s, j, Short(o)) else None
  }

  /** What an address reads back is this tree. */
  predicate Stored(t: Tree, s: Store) {
    t.Node? && t.where.At? && t.where.off < OFFSETS && Decode(s, t.where.ipos, t.where.off) == Some(t)
  }

  /** A tree grown out of after images that precede position `i`: fresh nodes on
      top, subtrees that can be read back below. */
  predicate Grown(t: Tree, s: Store, i: nat) {
    t.Nil? || if t.where.Fresh? then Grown(t.left, s, i) && Grown(t.right, s, i) else t.where.ipos < i && Stored(t, s)
  }

  /** A pointer of entry `k` of intention `i` leads to an entry of an older after
      image, or to one in front of it in the same image. */
  predicate Linked(s: Store, ref: Ref, i: nat, k: nat) {
    match ref
    case Void => true
    case Self(o) => o < k
    case Link(j, o) => j < i && j in s && Short(o) < |s[j]|
  }

  ghost predicate LinkedImage(s: Store, es: seq<Entry>, i: nat, idx: nat) {
    forall k :: 0 <= k < |es| ==> Linked(s, es[k].left, i, idx + k) && Linked(s, es[k].right, i, idx + k)
  }

  ghost predicate WellLinked(s: Store) {
    forall i :: i in s ==> |s[i]| <= OFFSETS && LinkedImage(s, s[i], i, 0)
  }

  // ------------------------------------------------------------ placing a tree

  lemma {:induction false} PlaceFacts(t: Tree, i: nat, idx: nat)
    ensures Place(t, i, idx).1 == idx + FreshCount(t)
    ensures SameShape(Place(t, i, idx).0, t)
    ensures t.Node? && t.where.Fresh? ==> Place(t, i, idx).0.where == At(i, idx + FreshCount(t) - 1)
    ensures Layered(t) ==> Old(Place(t, i, idx).0)
  {
    if t.Nil? || t.where.At? {
      SameShapeSelf(t);
    } else {
      PlaceFacts(t.left, i, idx);
      PlaceFacts(t.right, i, Place(t.left, i, idx).1);
    }
  }

  /** Where a tree stands after placing: it is fresh no more. */
  lemma PlacedRef(t: Tree, s: Store, i: nat, idx: nat)
    requires Grown(t, s, i)
    ensures var p := Place(t, i, idx).0;
      RefTo(p, i) == (if t.Nil? then Void
                      else if t.where.Fresh? then Self(idx + FreshCount(t) - 1)
                      else Link(t.where.ipos, t.where.off))
  {
    PlaceFacts(t, i, idx);
  }

  lemma {:induction false} EntriesCount(t: Tree, s: Store, i: nat, idx: nat)
    requires Grown(t, s, i)
    ensures |Entries(Place(t, i, idx).0, i)| == FreshCount(t)
  {
    if t.Node? && t.where.Fresh? {
      EntriesCount(t.left, s, i, idx);
      EntriesCount(t.right, s, i, Place(t.left, i, idx).1);
    }
  }

  lemma LinkedConcat(s: Store, l: seq<Entry>, r: seq<Entry>, e: Entry, i: nat, idx: nat)
    requires LinkedImage(s, l, i, idx) && LinkedImage(s, r, i, idx + |l|)
    requires Linked(s, e.left, i, idx + |l| + |r|) && Linked(s, e.right, i, idx + |l| + |r|)
    ensures LinkedImage(s, l + r + [e], i, idx)
  {
    hide Linked;
    var es := l + r + [e];
    forall k | 0 <= k < |es| ensures Linked(s, es[k].left, i, idx + k) && Linked(s, es[k].right, i, idx + k) {
      if |l| <= k < |l| + |r| {
        assert es[k] == r[k - |l|];
        assert Linked(s, r[k - |l|].left, i, idx + |l| + (k - |l|)) && Linked(s, r[k - |l|].right, i, idx + |l| + (k - |l|));
      }
    }
  }

  /** A placed tree is linked from any entry behind its own. */
  lemma RefLinked(t: Tree, s: Store, i: nat, idx: nat, k: nat)
    requires Grown(t, s, i) && idx + FreshCount(t) <= k
    ensures Linked(s, RefTo(Place(t, i, idx).0, i), i, k)
  {
    hide Place, RefTo;
    PlacedRef(t, s, i, idx);
  }

  /** The entries of a tree whose numbering starts at `idx` point downward. */
  lemma {:induction false} EntriesLinked(t: Tree, s: Store, i: nat, idx: nat)
    requires Grown(t, s, i)
    ensures LinkedImage(s, Entries(Place(t, i, idx).0, i), i, idx)
  {
    hide Place, Entries, RefTo, Linked, LinkedImage, Stored, SameShape, Layered, Old;
    if t.Node? && t.where.Fresh? {
      var a := Place(t.left, i, idx).1;
      EntriesLinked(t.left, s, i, idx);
      EntriesLinked(t.right, s, i, a);
      EntriesCount(t.left, s, i, idx);
      EntriesCount(t.right, s, i, a);
      PlaceFacts(t.left, i, idx);
      EntriesUnfold(t, i, idx);
      RefLinked(t.left, s, i, idx, a + FreshCount(t.right));
      RefLinked(t.right, s, i, a, a + FreshCount(t.right));
      LinkedConcat(s, Entries(Place(t.left, i, idx).0, i), Entries(Place(t.right, i, a).0, i),
                   Entry(t.red, t.key, t.val, RefTo(Place(t.left, i, idx).0, i), RefTo(Place(t.right, i, a).0, i)), i, idx);
    } else {
      NoEntries(t, s, i, idx);
    }
  }

  lemma NoEntries(t: Tree, s: Store, i: nat, idx: nat)
    requires Grown(t, s, i) && (t.Nil? || t.where.At?)
    ensures Entries(Place(t, i, idx).0, i) == [] && LinkedImage(s, [], i, idx)
  {
  }

  // ------------------------------------------------------------- reading back

  /** Adding the after image of `i` does not affect what precedes `i`. */
  lemma {:induction false} DecodeFrame(s: Store, i: nat, es: seq<Entry>, j: nat, off: nat)
    requires j < i
    ensures Decode(s[i := es], j, off) == Decode(s, j, off)
    decreases j, off
  {
    if j in s && off < |s[j]| {
      var e := s[j][off];
      FollowFrame(s, i, es, e.left, j, off);
      FollowFrame(s, i, es, e.right, j, off);
    }
  }

  lemma FollowFrame(s: Store, i: nat, es: seq<Entry>, ref: Ref, j: nat, off: nat)
    requires j < i
    ensures Follow(s[i := es], ref, j, off) == Follow(s, ref, j, off)
    decreases j, off, 0
  {
    if ref.Self? && Short(ref.off) < off {
      DecodeFrame(s, i, es, j, Short(ref.off));
    } else if ref.Link? && ref.ipos < j {
      DecodeFrame(s, i, es, ref.ipos, Short(ref.off));
    }
  }

  /** The entries of `t` are part of an after image, from number `idx` on. */
  ghost predicate Within(t: Tree, i: nat, idx: nat, es: seq<Entry>) {
    && idx + FreshCount(t) <= |es|
    && es[idx..idx + FreshCount(t)] == Entries(Place(t, i, idx).0, i)
  }

  lemma Parts<T>(es: seq<T>, idx: nat, l: seq<T>, r: seq<T>, e: T)
    requires idx + |l| + |r| + 1 <= |es| && es[idx..idx + |l| + |r| + 1] == l + r + [e]
    ensures es[idx..idx + |l|] == l && es[idx + |l|..idx + |l| + |r|] == r && es[idx + |l| + |r|] == e
  {
    var all := es[idx..idx + |l| + |r| + 1];
    forall k | 0 <= k < |all| ensures es[idx + k] == all[k] {
    }
    forall k | 0 <= k < |l| ensures es[idx..idx + |l|][k] == l[k] {
      assert es[idx + k] == all[k];
    }
    forall k | 0 <= k < |r| ensures es[idx + |l|..idx + |l| + |r|][k] == r[k] {
      assert es[idx + (|l| + k)] == all[|l| + k];
    }
    assert es[idx + (|l| + |r|)] == all[|l| + |r|];
  }

  /** The entries of the children are in front of that of a fresh node. */
  lemma WithinParts(t: Tree, s: Store, i: nat, idx: nat, es: seq<Entry>)
    requires Grown(t, s, i) && t.Node? && t.where.Fresh? && Within(t, i, idx, es)
    ensures var a := Place(t.left, i, idx).1;
      && idx + FreshCount(t) <= |es| && Within(t.left, i, idx, es) && Within(t.right, i, a, es)
      && es[idx + FreshCount(t) - 1] ==
         Entry(t.red, t.key, t.val, RefTo(Place(t.left, i, idx).0, i), RefTo(Place(t.right, i, a).0, i))
  {
    hide Place, Entries, RefTo, SameShape, Layered, Old;
    var a := Place(t.left, i, idx).1;
    var l, r := Entries(Place(t.left, i, idx).0, i), Entries(Place(t.right, i, a).0, i);
    var e := Entry(t.red, t.key, t.val, RefTo(Place(t.left, i, idx).0, i), RefTo(Place(t.right, i, a).0, i));
    PlaceFacts(t.left, i, idx);
    EntriesCount(t.left, s, i, idx);
    EntriesCount(t.right, s, i, a);
    EntriesUnfold(t, i, idx);
    Parts(es, idx, l, r, e);
  }

  lemma EntriesUnfold(t: Tree, i: nat, idx: nat)
    requires t.Node? && t.where.Fresh?
    ensures var a := Place(t.left, i, idx).1;
      Entries(Place(t, i, idx).0, i) ==
      Entries(Place(t.left, i, idx).0, i) + Entries(Place(t.right, i, a).0, i) +
      [Entry(t.red, t.key, t.val, RefTo(Place(t.left, i, idx).0, i), RefTo(Place(t.right, i, a).0, i))]
  {
  }

  /** Reading back a fresh tree out of an after image that holds its entries. */
  lemma {:induction false} ReadBack(t: Tree, s: Store, i: nat, idx: nat, es: seq<Entry>)
    requires Grown(t, s, i) && Within(t, i, idx, es) && |es| <= OFFSETS
    requires t.Node? && t.where.Fresh?
    ensures Decode(s[i := es], i, idx + FreshCount(t) - 1) == Some(Place(t, i, idx).0)
    decreases t, 0
  {
    hide Entries, RefTo, Stored, SameShape, Layered, Old, Within;
    var a, off := Place(t.left, i, idx).1, idx + FreshCount(t) - 1;
    WithinParts(t, s, i, idx, es);
    PlaceFacts(t.left, i, idx);
    PlaceFacts(t.right, i, a);
    ReadBackRef(t.left, s, i, idx, es, off);
    ReadBackRef(t.right, s, i, a, es, off);
  }

  lemma ReadBackRef(t: Tree, s: Store, i: nat, idx: nat, es: seq<Entry>, off: nat)
    requires Grown(t, s, i) && Within(t, i, idx, es) && |es| <= OFFSETS && idx + FreshCount(t) <= off
    ensures Follow(s[i := es], RefTo(Place(t, i, idx).0, i), i, off) == Some(Place(t, i, idx).0)
    decreases t, 1
  {
    PlacedRef(t, s, i, idx);
    if t.Node? {
      if t.where.Fresh? {
        ReadBack(t, s, i, idx, es);
      } else {
        DecodeFrame(s, i, es, t.where.ipos, t.where.off);
      }
    }
  }

  /** The after image round trip. A delta of at most 65536 nodes that is written
      out and read back is the same tree; its root is the last entry; and what was
      stored before still reads the same. */
  lemma RoundTrip(t: Tree, s: Store, i: nat)
    requires Grown(t, s, i) && t.Node? && t.where.Fresh? && FreshCount(t) <= OFFSETS
    ensures var (p, n) := Place(t, i, 0); var s' := s[i := Entries(p, i)];
      && |Entries(p, i)| == n && p.where == At(i, n - 1) && Stored(p, s') && SameShape(p, t)
      && forall u: Tree :: Stored(u, s) && u.where.ipos < i ==> Stored(u, s')
  {
    hide SameShape, Layered, Old, Entries, Place, FreshCount, Linked;
    var (p, n) := Place(t, i, 0);
    var es := Entries(p, i);
    PlaceFacts(t, i, 0);
    EntriesCount(t, s, i, 0);
    assert es[0..|es|] == es;
    ReadBack(t, s, i, 0, es);
    forall u: Tree | Stored(u, s) && u.where.ipos < i ensures Stored(u, s[i := es]) {
      DecodeFrame(s, i, es, u.where.ipos, u.where.off);
    }
  }

  /** Exactly the deltas of at most 65536 nodes come back from the 16 bits of
      their root address. */
  lemma RoundTripExactly(t: Tree, s: Store, i: nat)
    requires Grown(t, s, i) && t.Node? && t.where.Fresh?
    ensures var (p, n) := Place(t, i, 0);
      n > 0 && (Decode(s[i := Entries(p, i)], i, Short(n - 1)) == Some(p) <==> n <= 65536)
  {
    hide Grown, SameShape, Layered, Old, Entries, Place, FreshCount, Decode, LinkedImage;
    var (p, n) := Place(t, i, 0);
    PlaceFacts(t, i, 0);
    DecodedWhere(s[i := Entries(p, i)], i, Short(n - 1));
    if n <= OFFSETS {
      RoundTrip(t, s, i);
    }
  }

  /** A chain of `n` new nodes. */
  function Chain(n: nat): Tree {
    if n == 0 then Nil else Node(Fresh, false, "", "", Chain(n - 1), Nil)
  }

  lemma {:induction false} ChainGrown(n: nat, s: Store, i: nat)
    ensures Grown(Chain(n), s, i) && FreshCount(Chain(n)) == n
  {
    if n > 0 {
      ChainGrown(n - 1, s, i);
    }
  }

  /** One node more than offsets can number, and the root address leads elsewhere. */
  lemma LargeDeltaLost(s: Store, i: nat) returns (t: Tree)
    ensures Grown(t, s, i) && FreshCount(t) == 65537
    ensures var (p, n) := Place(t, i, 0);
      n > 0 && Decode(s[i := Entries(p, i)], i, Short(n - 1)) != Some(p)
  {
    hide Grown, SameShape, Layered, Old, Entries, FreshCount, Decode, Place;
    t := Chain(OFFSETS + 1);
    ChainGrown(OFFSETS + 1, s, i);
    PlaceFacts(t, i, 0);
    RoundTripExactly(t, s, i);
  }

  lemma DecodedWhere(s: Store, i: nat, off: nat)
    ensures Decode(s, i, off).Some? ==> Decode(s, i, off).value.Node? && Decode(s, i, off).value.where == At(i, off)
  {
  }

  /** Every address of a log whose after images are well linked reads back as a
      finite tree: following pointers always comes to an end. */
  lemma {:induction false} AllDecode(s: Store, i: nat, off: nat)
    requires WellLinked(s) && i in s && off < |s[i]|
    ensures Decode(s, i, off).Some?
    decreases i, off
  {
    var e := s[i][off];
    assert Linked(s, e.left, i, 0 + off) && Linked(s, e.right, i, 0 + off);
    AllFollow(s, e.left, i, off);
    AllFollow(s, e.right, i, off);
  }

  lemma AllFollow(s: Store, ref: Ref, i: nat, off: nat)
    requires WellLinked(s) && i in s && off < |s[i]| && Linked(s, ref, i, off)
    ensures Follow(s, ref, i, off).Some?
    decreases i, off, 0
  {
    if ref.Self? {
      AllDecode(s, i, Short(ref.off));
    } else if ref.Link? {
      AllDecode(s, ref.ipos, Short(ref.off));
    }
  }

  /** A new after image keeps the log well linked. */
  lemma AddImage(t: Tree, s: Store, i: nat)
    requires WellLinked(s) && Grown(t, s, i) && FreshCount(t) <= OFFSETS && i !in s
    ensures WellLinked(s[i := Entries(Place(t, i, 0).0, i)])
  {
    var es := Entries(Place(t, i, 0).0, i);
    var n := s[i := es];
    EntriesLinked(t, s, i, 0);
    EntriesCount(t, s, i, 0);
    forall j | j in n ensures |n[j]| <= OFFSETS && LinkedImage(n, n[j], j, 0) {
      forall k | 0 <= k < |n[j]| ensures Linked(n, n[j][k].left, j, 0 + k) && Linked(n, n[j][k].right, j, 0 + k) {
        assert Linked(s, n[j][k].left, j, 0 + k) && Linked(s, n[j][k].right, j, 0 + k);
      }
    }
  }

  // ------------------------------------------------------ growing stored trees

  lemma FollowStored(s: Store, ref: Ref, i: nat, off: nat)
    requires Follow(s, ref, i, off).Some?
    ensures var u := Follow(s, ref, i, off).value; u.Node? ==> Stored(u, s) && u.where.ipos <= i
  {
  }

  /** With a tree every subtree can be read back, from no later position. */
  lemma {:induction false} StoredSubtrees(t: Tree, s: Store)
    requires Stored(t, s)
    ensures Old(t) && Closed(Subtrees(t)) && Built(t, Subtrees(t))
    ensures forall u | u in Subtrees(t) :: Stored(u, s) && u.where.ipos <= t.where.ipos
  {
    var e := s[t.where.ipos][t.where.off];
    FollowStored(s, e.left, t.where.ipos, t.where.off);
    FollowStored(s, e.right, t.where.ipos, t.where.off);
    if t.left.Node? { StoredSubtrees(t.left, s); }
    if t.right.Node? { StoredSubtrees(t.right, s); }
  }

  lemma {:induction false} BuiltGrown(t: Tree, b: set<Tree>, s: Store, i: nat)
    requires Built(t, b) && forall u | u in b :: Stored(u, s) && u.where.ipos < i
    ensures Grown(t, s, i)
  {
    if t.Node? && t.where.Fresh? {
      BuiltGrown(t.left, b, s, i);
      BuiltGrown(t.right, b, s, i);
    }
  }
}
