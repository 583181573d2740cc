/** Optional values, and sequences without repetition. */
module Basics {

  datatype Option<+T> = None | Some(value: T)

  ghost predicate Distinct<T>(s: seq<T>) {
    forall i, j :: 0 <= i < j < |s| ==> s[i] != s[j]
  }

  function Without<K(==)>(s: seq<K>, k: K): seq<K> {
    if s == [] then [] else if s[0] == k then s[1..] else [s[0]] + Without(s[1..], k)
  }

  lemma DistinctParts<K>(s: seq<K>)
    requires Distinct(s) && s != []
    ensures Distinct(s[1..]) && s[0] !in s[1..]
  {
    forall x | x in s[1..] ensures x != s[0] {
      var i :| 0 <= i < |s[1..]| && s[1..][i] == x;
      assert s[i + 1] == x;
    }
  }

  lemma DistinctCons<K>(k: K, s: seq<K>)
    requires Distinct(s) && k !in s
    ensures Distinct([k] + s)
  {
  }

  lemma {:induction false} WithoutMembers<K>(s: seq<K>, k: K)
    requires Distinct(s)
    ensures forall x | x in Without(s, k) :: x in s && x != k
    ensures forall x | x in s && x != k :: x in Without(s, k)
    ensures Distinct(Without(s, k))
  {
    if s != [] {
      DistinctParts(s);
      if s[0] != k {
        WithoutMembers(s[1..], k);
        DistinctCons(s[0], Without(s[1..], k));
      }
    }
  }

  /** `t` is `s` with the key moved to the front, the others in their order. */
  ghost predicate MovedToFront<K>(s: seq<K>, t: seq<K>, k: K) {
    exists i :: 0 <= i < |s| && s[i] == k && t == [k] + (s[..i] + s[i + 1..])
  }

  lemma {:induction false} WithoutAt<K>(s: seq<K>, k: K) returns (i: nat)
    requires k in s
    ensures i < |s| && s[i] == k && Without(s, k) == s[..i] + s[i + 1..]
  {
    if s[0] == k {
      i := 0;
    } else {
      i := WithoutAt(s[1..], k);
      i := i + 1;
    }
  }

  lemma MovesToFront<K>(s: seq<K>, k: K)
    requires k in s
    ensures MovedToFront(s, [k] + Without(s, k), k)
  {
    var i := WithoutAt(s, k);
  }

  lemma {:induction false} NotListed<K>(s: seq<K>, k: K)
    requires k !in s
    ensures Without(s, k) == s
  {
    if s != [] {
      NotListed(s[1..], k);
    }
  }
}
