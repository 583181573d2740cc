/** Iterators over a snapshot: a stack of tree nodes against a cursor over the
    sorted sequence of pairs. */
module Iterators {
  import opened Keys
  import opened Trees
  import opened TreeProofs

  datatype Direction = Forward | Reverse

  /** The node of pair `i` with those of its ancestors that come after it, the
      root side first; empty at the end. */
  function ForwardStack(t: Tree, i: int): seq<Tree> {
    if t.Nil? then []
    else
      var n := |Flat(t.left)|;
      if i < n then [t] + ForwardStack(t.left, i)
      else if i == n then [t]
      else ForwardStack(t.right, i - n - 1)
  }

  /** The node of pair `i` with those of its ancestors that come before it; empty
      in front of the first pair. */
  function ReverseStack(t: Tree, i: int): seq<Tree> {
    if t.Nil? then []
    else
      var n := |Flat(t.left)|;
      if i > n then [t] + ReverseStack(t.right, i - n - 1)
      else if i == n then [t]
      else ReverseStack(t.left, i)
  }

  function LeftSpine(t: Tree): seq<Tree> {
    if t.Nil? then [] else [t] + LeftSpine(t.left)
  }

  function RightSpine(t: Tree): seq<Tree> {
    if t.Nil? then [] else [t] + RightSpine(t.right)
  }

  /** How many pairs have a smaller key. */
  function LowerBound(s: seq<Pair>, k: Key): (n: nat)
    ensures n <= |s|
  {
    if s == [] || !Less(s[0].0, k) then 0 else 1 + LowerBound(s[1..], k)
  }

  // ------------------------------------------------------ stacks and positions

  lemma {:induction false} ForwardTop(t: Tree, i: int)
    requires 0 <= i <= |Flat(t)|
    ensures ForwardStack(t, i) == [] <==> i == |Flat(t)|
    ensures i < |Flat(t)| ==>
      var s := ForwardStack(t, i); s[|s| - 1].Node? && (s[|s| - 1].key, s[|s| - 1].val) == Flat(t)[i]
  {
    if t.Node? {
      var n := |Flat(t.left)|;
      if i < n {
        ForwardTop(t.left, i);
      } else if i > n {
        ForwardTop(t.right, i - n - 1);
      }
    }
  }

  lemma {:induction false} ReverseTop(t: Tree, i: int)
    requires -1 <= i < |Flat(t)|
    ensures ReverseStack(t, i) == [] <==> i == -1
    ensures i >= 0 ==>
      var s := ReverseStack(t, i); s[|s| - 1].Node? && (s[|s| - 1].key, s[|s| - 1].val) == Flat(t)[i]
  {
    if t.Node? {
      var n := |Flat(t.left)|;
      if i < n {
        ReverseTop(t.left, i);
      } else if i > n {
        ReverseTop(t.right, i - n - 1);
      }
    }
  }

  lemma {:induction false} FirstStack(t: Tree)
    ensures ForwardStack(t, 0) == LeftSpine(t)
  {
    if t.Node? {
      if t.left.Nil? {
        assert Flat(t.left) == [];
      } else {
        FirstStack(t.left);
      }
    }
  }

  lemma {:induction false} LastStack(t: Tree)
    ensures ReverseStack(t, |Flat(t)| - 1) == RightSpine(t)
  {
    if t.Node? {
      if t.right.Nil? {
        assert Flat(t.right) == [];
      } else {
        LastStack(t.right);
      }
    }
  }

  /** The next node is the leftmost one on the right, or else the nearest ancestor
      on the stack. */
  lemma {:induction false} NextStack(t: Tree, i: int)
    requires 0 <= i < |Flat(t)|
    ensures var s := ForwardStack(t, i);
      s != [] && s[|s| - 1].Node? && ForwardStack(t, i + 1) == s[..|s| - 1] + LeftSpine(s[|s| - 1].right)
  {
    var n := |Flat(t.left)|;
    if i < n {
      NextStack(t.left, i);
      var s := ForwardStack(t.left, i);
      assert ([t] + s)[..|s|] == [t] + s[..|s| - 1];
      if i + 1 == n {
        ForwardTop(t.left, n);
      }
    } else if i == n {
      FirstStack(t.right);
    } else {
      NextStack(t.right, i - n - 1);
    }
  }

  lemma {:induction false} PreviousStack(t: Tree, i: int)
    requires 0 <= i < |Flat(t)|
    ensures var s := ReverseStack(t, i);
      s != [] && s[|s| - 1].Node? && ReverseStack(t, i - 1) == s[..|s| - 1] + RightSpine(s[|s| - 1].left)
  {
    var n := |Flat(t.left)|;
    if i > n {
      PreviousStack(t.right, i - n - 1);
      var s := ReverseStack(t.right, i - n - 1);
      assert ([t] + s)[..|s|] == [t] + s[..|s| - 1];
      if i - 1 == n {
        ReverseTop(t.right, -1);
      }
    } else if i == n {
      LastStack(t.left);
    } else {
      PreviousStack(t.left, i);
    }
  }

  /** Searching a sorted sequence in the middle. */
  lemma {:induction false} LowerBoundSplit(a: seq<Pair>, x: Pair, b: seq<Pair>, k: Key)
    requires Sorted(a + [x] + b)
    ensures !Less(x.0, k) ==> LowerBound(a + [x] + b, k) == LowerBound(a, k)
    ensures x.0 == k ==> LowerBound(a + [x] + b, k) == |a|
    ensures Less(x.0, k) ==> LowerBound(a + [x] + b, k) == |a| + 1 + LowerBound(b, k)
  {
    var s := a + [x] + b;
    if a == [] {
      LessIrreflexive(k);
      assert s[1..] == b;
    } else {
      assert s[1..] == a[1..] + [x] + b;
      assert Sorted(a[1..] + [x] + b) by {
        forall i, j | 0 <= i < j < |s[1..]| ensures Less(s[1..][i].0, s[1..][j].0) {
          assert s[1..][i] == s[i + 1] && s[1..][j] == s[j + 1];
        }
      }
      LowerBoundSplit(a[1..], x, b, k);
      assert s[0] == a[0] && s[|a|] == x;
      if Less(x.0, k) || x.0 == k {
        if Less(x.0, k) { LessTransitive(a[0].0, x.0, k); }
      }
    }
  }

  /** The bound is right: below it every key is smaller, from it on none is. */
  lemma {:induction false} LowerBoundFacts(s: seq<Pair>, k: Key)
    requires Sorted(s)
    ensures var n := LowerBound(s, k);
      && (forall i :: 0 <= i < n ==> Less(s[i].0, k))
      && (forall i :: n <= i < |s| ==> !Less(s[i].0, k))
  {
    if s != [] {
      if Less(s[0].0, k) {
        assert Sorted(s[1..]);
        LowerBoundFacts(s[1..], k);
      } else {
        forall i | 0 < i < |s| ensures !Less(s[i].0, k) {
          if Less(s[i].0, k) {
            LessTransitive(s[0].0, s[i].0, k);
          }
        }
      }
    }
  }

  lemma LowerBoundAt(s: seq<Pair>, i: nat)
    requires Sorted(s) && i < |s|
    ensures LowerBound(s, s[i].0) == i
  {
    assert s == s[..i] + [s[i]] + s[i + 1..];
    LowerBoundSplit(s[..i], s[i], s[i + 1..], s[i].0);
  }

  // ----------------------------------------------------------- the raw iterator

  /** What a search for `k` puts on the stack going forward. */
  lemma SeekStep(t: Tree, k: Key)
    requires Ordered(t) && t.Node?
    ensures Ordered(t.left) && Ordered(t.right)
    ensures var f, i := ForwardStack(t, LowerBound(Flat(t), k)), ReverseStack(t, LowerBound(Flat(t), k));
      && (k == t.key ==> f == [t] && i == [t])
      && (Less(k, t.key) ==> f == [t] + ForwardStack(t.left, LowerBound(Flat(t.left), k))
                             || (LowerBound(Flat(t.left), k) == |Flat(t.left)| && f == [t]))
      && (Less(k, t.key) && LowerBound(Flat(t.left), k) < |Flat(t.left)| ==> i == ReverseStack(t.left, LowerBound(Flat(t.left), k)))
      && (Less(t.key, k) ==> f == ForwardStack(t.right, LowerBound(Flat(t.right), k)))
      && (Less(t.key, k) && LowerBound(Flat(t.right), k) < |Flat(t.right)| ==>
            i == [t] + ReverseStack(t.right, LowerBound(Flat(t.right), k)))
  {
    var l, x, r := Flat(t.left), (t.key, t.val), Flat(t.right);
    SortedSplit(l, x, r);
    LowerBoundSplit(l, x, r, k);
    if Less(k, t.key) {
      LessAsymmetric(k, t.key);
    } else if k == t.key {
      LessIrreflexive(k);
    }
  }

  class RawIterator {
    const root: Tree
    var stack: seq<Tree>
    var dir: Direction

    // The cursor: the index of the current pair, one more or one less at an end.
    ghost var pos: int

    ghost predicate Positioned()
      reads this
    {
      && Ordered(root)
      && -1 <= pos <= |Flat(root)|
      && (dir.Forward? ==> pos >= 0 && stack == ForwardStack(root, pos))
      && (dir.Reverse? ==> pos < |Flat(root)| && stack == ReverseStack(root, pos))
    }

    constructor (snapshot: Tree)
      requires Ordered(snapshot)
      ensures root == snapshot && Positioned() && !Valid()
    {
      root, stack, dir, pos := snapshot, [], Forward, |Flat(snapshot)|;
      new;
      ForwardTop(snapshot, |Flat(snapshot)|);
    }

    predicate Valid()
      reads this
    {
      stack != []
    }

    /** The iterator is on the pair under the cursor. */
    lemma Current()
      requires Positioned()
      ensures Valid() <==> 0 <= pos < |Flat(root)|
      ensures Valid() ==> stack[|stack| - 1].Node? && (stack[|stack| - 1].key, stack[|stack| - 1].val) == Flat(root)[pos]
    {
      if dir.Forward? {
        ForwardTop(root, pos);
      } else {
        ReverseTop(root, pos);
      }
    }

    method CurrentKey() returns (k: Key)
      requires Positioned() && Valid()
      ensures 0 <= pos < |Flat(root)| && k == Flat(root)[pos].0
    {
      Current();
      k := stack[|stack| - 1].key;
    }

    method CurrentValue() returns (v: Val)
      requires Positioned() && Valid()
      ensures 0 <= pos < |Flat(root)| && v == Flat(root)[pos].1
    {
      Current();
      v := stack[|stack| - 1].val;
    }

    method PushLeft(from: Tree)
      modifies this`stack
      ensures stack == old(stack) + LeftSpine(from)
    {
      var node := from;
      while node.Node?
        invariant stack + LeftSpine(node) == old(stack) + LeftSpine(from)
        decreases node
      {
        stack := stack + [node];
        node := node.left;
      }
    }

    method PushRight(from: Tree)
      modifies this`stack
      ensures stack == old(stack) + RightSpine(from)
    {
      var node := from;
      while node.Node?
        invariant stack + RightSpine(node) == old(stack) + RightSpine(from)
        decreases node
      {
        stack := stack + [node];
        node := node.right;
      }
    }

    method SeekToFirst()
      requires Ordered(root)
      modifies this
      ensures Positioned() && pos == 0
    {
      stack := [];
      PushLeft(root);
      FirstStack(root);
      dir, pos := Forward, 0;
    }

    method SeekToLast()
      requires Ordered(root)
      modifies this
      ensures Positioned() && pos == |Flat(root)| - 1
    {
      stack := [];
      PushRight(root);
      LastStack(root);
      dir, pos := Reverse, |Flat(root)| - 1;
    }

    /** Moves to the first pair at or past `k`. */
    method Seek(k: Key)
      requires Ordered(root)
      modifies this
      ensures Positioned() && pos == LowerBound(Flat(root), k) && dir.Forward?
    {
      hide LowerBound, Sorted, Less, ForwardStack;
      stack := [];
      var node := root;
      EndOfSearch(k);
      while node.Node?
        invariant Ordered(node)
        invariant stack + ForwardStack(node, LowerBound(Flat(node), k)) == ForwardStack(root, LowerBound(Flat(root), k))
        decreases node
      {
        LessTotal(k, node.key);
        SeekStep(node, k);
        ForwardEnd(node.left, k);
        if k == node.key {
          stack := stack + [node];
          break;
        } else if Less(k, node.key) {
          assert stack + ([node] + ForwardStack(node.left, LowerBound(Flat(node.left), k))) ==
                 (stack + [node]) + ForwardStack(node.left, LowerBound(Flat(node.left), k));
          stack := stack + [node];
          node := node.left;
        } else {
          node := node.right;
        }
      }
      dir, pos := Forward, LowerBound(Flat(root), k);
      Current();
      LowerBoundFacts(Flat(root), k);
      assert stack == [] || !Less(stack[|stack| - 1].key, k);
    }

    /** The same stack going backward; `k` must be a key of the tree. */
    method SeekPrevious(k: Key)
      requires Ordered(root) && LowerBound(Flat(root), k) < |Flat(root)| && Flat(root)[LowerBound(Flat(root), k)].0 == k
      modifies this
      ensures Positioned() && pos == LowerBound(Flat(root), k) && dir.Reverse?
    {
      stack := [];
      var node := root;
      while node.Node?
        invariant Ordered(node)
        invariant LowerBound(Flat(node), k) < |Flat(node)| && Flat(node)[LowerBound(Flat(node), k)].0 == k
        invariant stack + ReverseStack(node, LowerBound(Flat(node), k)) == ReverseStack(root, LowerBound(Flat(root), k))
        decreases node
      {
        LessTotal(k, node.key);
        SeekStep(node, k);
        FoundBelow(node, k);
        if k == node.key {
          stack := stack + [node];
          break;
        } else if Less(k, node.key) {
          node := node.left;
        } else {
          stack := stack + [node];
          node := node.right;
        }
      }
      dir, pos := Reverse, LowerBound(Flat(root), k);
    }

    /** Moves to the next pair, turning around if need be. */
    method Next()
      requires Positioned() && Valid()
      modifies this
      ensures Positioned() && dir.Forward? && pos == old(pos) + 1
    {
      var k := CurrentKey();
      LowerBoundAt(Flat(root), pos);
      if dir.Reverse? {
        Seek(k);
      }
      NextStack(root, pos);
      var node := stack[|stack| - 1].right;
      stack := stack[..|stack| - 1];
      PushLeft(node);
      pos := pos + 1;
    }

    /** Moves to the previous pair, turning around if need be. */
    method Prev()
      requires Positioned() && Valid()
      modifies this
      ensures Positioned() && dir.Reverse? && pos == old(pos) - 1
    {
      var k := CurrentKey();
      LowerBoundAt(Flat(root), pos);
      if dir.Forward? {
        SeekPrevious(k);
      }
      PreviousStack(root, pos);
      var node := stack[|stack| - 1].left;
      stack := stack[..|stack| - 1];
      PushRight(node);
      pos := pos - 1;
    }
  }

  lemma EndOfSearch(k: Key)
    ensures ForwardStack(Nil, LowerBound(Flat(Nil), k)) == []
  {
  }

  lemma ForwardEnd(t: Tree, k: Key)
    ensures LowerBound(Flat(t), k) == |Flat(t)| ==> ForwardStack(t, LowerBound(Flat(t), k)) == []
  {
    ForwardTop(t, |Flat(t)|);
  }

  /** A key that is in the tree is found in the subtree the search goes to. */
  lemma FoundBelow(t: Tree, k: Key)
    requires Ordered(t) && t.Node? && LowerBound(Flat(t), k) < |Flat(t)| && Flat(t)[LowerBound(Flat(t), k)].0 == k
    ensures Less(k, t.key) ==>
      LowerBound(Flat(t.left), k) < |Flat(t.left)| && Flat(t.left)[LowerBound(Flat(t.left), k)].0 == k
    ensures Less(t.key, k) ==>
      LowerBound(Flat(t.right), k) < |Flat(t.right)| && Flat(t.right)[LowerBound(Flat(t.right), k)].0 == k
  {
    var l, x, r := Flat(t.left), (t.key, t.val), Flat(t.right);
    LowerBoundSplit(l, x, r, k);
    if Less(k, t.key) {
      LessAsymmetric(k, t.key);
      assert Flat(t)[|l|] == x;
    } else if Less(t.key, k) {
      var n := LowerBound(r, k);
      assert Flat(t)[|l| + 1 + n] == r[n];
    }
  }

  // -------------------------------------------------------- the prefix iterator

  predicate HasPrefix(k: Key, prefix: string) {
    |k| > |prefix| && k[|prefix|] == '\0' && k[..|prefix|] == prefix
  }

  /** The key in front of which all keys with the prefix are. */
  function Past(prefix: string): Key {
    prefix + [1 as char]
  }

  lemma {:induction false} BelowPast(k: Key, prefix: string)
    requires HasPrefix(k, prefix)
    ensures Less(k, Past(prefix))
    ensures k == Prefixed(prefix, k[|prefix| + 1..])
  {
    if prefix != "" {
      assert k[1..][..|prefix| - 1] == prefix[1..];
      assert Past(prefix)[1..] == Past(prefix[1..]);
      BelowPast(k[1..], prefix[1..]);
    }
    assert k == k[..|prefix|] + [k[|prefix|]] + k[|prefix| + 1..];
  }

  lemma PrefixedHas(prefix: string, k: Key)
    ensures HasPrefix(Prefixed(prefix, k), prefix) && Prefixed(prefix, k)[|prefix| + 1..] == k
  {
    assert Prefixed(prefix, k)[..|prefix|] == prefix;
  }

  /** On the last pair of the prefix, or invalid if there is none. */
  ghost predicate AtLast(s: seq<Pair>, pos: int, prefix: string) {
    if exists i :: 0 <= i < |s| && HasPrefix(s[i].0, prefix)
    then 0 <= pos < |s| && HasPrefix(s[pos].0, prefix) && forall i :: pos < i < |s| ==> !HasPrefix(s[i].0, prefix)
    else 0 <= pos < |s| ==> !HasPrefix(s[pos].0, prefix)
  }

  class PrefixIterator {
    const raw: RawIterator
    const prefix: string

    constructor (prefix: string, snapshot: Tree)
      requires Ordered(snapshot)
      ensures this.prefix == prefix && raw.root == snapshot && raw.Positioned() && !raw.Valid() && fresh(raw)
    {
      this.prefix := prefix;
      raw := new RawIterator(snapshot);
    }

    predicate Valid()
      reads raw
    {
      raw.Valid() && raw.stack[|raw.stack| - 1].Node? && HasPrefix(raw.stack[|raw.stack| - 1].key, prefix)
    }

    /** Valid means on a pair with the prefix. */
    lemma Current()
      requires raw.Positioned()
      ensures Valid() <==> 0 <= raw.pos < |Flat(raw.root)| && HasPrefix(Flat(raw.root)[raw.pos].0, prefix)
    {
      raw.Current();
    }

    /** Moves to the first key of the prefix at or past `k`, or past the prefix. */
    method Seek(k: Key)
      requires Ordered(raw.root)
      modifies raw
      ensures raw.Positioned() && raw.pos == LowerBound(Flat(raw.root), Prefixed(prefix, k))
    {
      raw.Seek(Prefixed(prefix, k));
    }

    method Next()
      requires raw.Positioned() && Valid()
      modifies raw
      ensures raw.Positioned() && raw.pos == old(raw.pos) + 1
    {
      raw.Next();
    }

    /** The key without its prefix. */
    method CurrentKey() returns (k: Key)
      requires raw.Positioned() && Valid()
      ensures 0 <= raw.pos < |Flat(raw.root)| && Flat(raw.root)[raw.pos].0 == Prefixed(prefix, k)
    {
      raw.Current();
      k := raw.stack[|raw.stack| - 1].key;
      BelowPast(k, prefix);
      k := k[|prefix| + 1..];
    }

    /** Past the prefix the iterator is never valid, so that the search always ends
        on the last key of the whole tree. It is the right place just when no key
        lies beyond a prefix that is in use. */
    method SeekToLast()
      requires Ordered(raw.root)
      modifies raw
      ensures raw.Positioned()
      ensures raw.pos == |Flat(raw.root)| - 1
      ensures AtLast(Flat(raw.root), raw.pos, prefix) <==>
        ((exists i :: 0 <= i < |Flat(raw.root)| && HasPrefix(Flat(raw.root)[i].0, prefix)) ==>
           LowerBound(Flat(raw.root), Past(prefix)) == |Flat(raw.root)|)
    {
      raw.Seek(Past(prefix));
      Current();
      LowerBoundFacts(Flat(raw.root), Past(prefix));
      if Valid() {
        // here the source would step back
        BelowPast(Flat(raw.root)[raw.pos].0, prefix);
        assert false;
      } else {
        raw.SeekToLast();
      }
      LastOfPrefix(Flat(raw.root), prefix);
    }
  }

  lemma LastOfPrefix(s: seq<Pair>, prefix: string)
    requires Sorted(s)
    ensures AtLast(s, |s| - 1, prefix) <==>
      ((exists i :: 0 <= i < |s| && HasPrefix(s[i].0, prefix)) ==> LowerBound(s, Past(prefix)) == |s|)
  {
    LowerBoundFacts(s, Past(prefix));
    if i :| 0 <= i < |s| && HasPrefix(s[i].0, prefix) {
      BelowPast(s[i].0, prefix);
      var last := s[|s| - 1].0;
      if HasPrefix(last, prefix) {
        BelowPast(last, prefix);
      } else if LowerBound(s, Past(prefix)) == |s| {
        if i < |s| - 1 {
          PrefixContiguous(s[i].0, last, prefix);
        }
      }
    }
  }

  /** Between a key with the prefix and the end of the prefix all keys have it. */
  lemma {:induction false} PrefixContiguous(a: Key, b: Key, prefix: string)
    requires HasPrefix(a, prefix) && Less(a, b) && Less(b, Past(prefix))
    ensures HasPrefix(b, prefix)
  {
    if prefix == "" {
      assert b != "" && b[0] == '\0';
      assert b[..0] == prefix;
    } else {
      assert a[..|prefix|][0] == prefix[0];
      assert a[1..][..|prefix| - 1] == prefix[1..];
      assert Past(prefix)[1..] == Past(prefix[1..]);
      PrefixContiguous(a[1..], b[1..], prefix[1..]);
      assert b[..|prefix|] == [b[0]] + b[1..][..|prefix| - 1];
    }
  }
}
