/** The self-check of a tree: what it establishes and what it does not. */
module Validation {
  import opened Keys
  import opened Trees
  import opened TreeProofs

  /** One more than the black height, or 0 for a tree that fails. */
  function Validate(t: Tree): nat {
    if t.Nil? then 1
    else if t.red && (IsRed(t.left) || IsRed(t.right)) then 0
    else
      var lh, rh := Validate(t.left), Validate(t.right);
      if (t.left.Node? && !Less(t.left.key, t.key)) || (t.right.Node? && !Less(t.key, t.right.key)) then 0
      else if lh != 0 && rh != 0 && lh != rh then 0
      else if lh != 0 && rh != 0 then (if t.red then lh else lh + 1)
      else 0
  }

  /** Every node is in order with its children, as far as these go. */
  predicate LocallyOrdered(t: Tree) {
    t.Node? ==>
      && (t.left.Node? ==> Less(t.left.key, t.key)) && (t.right.Node? ==> Less(t.key, t.right.key))
      && LocallyOrdered(t.left) && LocallyOrdered(t.right)
  }

  /** The check accepts exactly the balanced trees in which each node is in order
      with its own children. */
  lemma {:induction false} ValidateExactly(t: Tree, h: nat)
    ensures Validate(t) == h + 1 <==> RB(t, h) && LocallyOrdered(t)
  {
    if t.Node? {
      if t.red {
        ValidateExactly(t.left, h);
        ValidateExactly(t.right, h);
      } else if h > 0 {
        ValidateExactly(t.left, h - 1);
        ValidateExactly(t.right, h - 1);
      }
    }
  }

  lemma {:induction false} OrderedLocally(t: Tree)
    requires Ordered(t)
    ensures LocallyOrdered(t)
  {
    if t.Node? {
      Separates(t);
      if t.left.Node? {
        assert Flat(t.left)[|Flat(t.left.left)|] == (t.left.key, t.left.val);
      }
      if t.right.Node? {
        assert Flat(t.right)[|Flat(t.right.left)|] == (t.right.key, t.right.val);
      }
      OrderedLocally(t.left);
      OrderedLocally(t.right);
    }
  }

  /** Every tree that the operations produce passes. */
  lemma ValidatesAll(t: Tree)
    requires ValidTree(t)
    ensures Validate(t) == BlackHeight(t) + 1
  {
    OrderedLocally(t);
    ValidateExactly(t, BlackHeight(t));
  }

  /** A tree that passes need not be a search tree: the grandchild "d" is on the
      wrong side of the root "b". */
  lemma ValidateMisses() returns (t: Tree)
    ensures Validate(t) != 0 && !Ordered(t)
  {
    var d := Node(Fresh, true, "d", "", Nil, Nil);
    t := Node(Fresh, false, "b", "", Node(Fresh, false, "a", "", Nil, d), Node(Fresh, false, "c", "", Nil, Nil));
    assert Less("a", "d") && Less("a", "b") && Less("b", "c") && Less("b", "d");
    LessAsymmetric("b", "d");
    var s := Flat(t);
    assert Flat(d) == [("d", "")];
    assert s[1] == ("d", "") && s[2] == ("b", "");
  }
}
