/** A bounded map that evicts the least recently used entry when it is full. */
module LruCaches {
  import opened Basics

  ghost predicate Lists<K(!new)>(list: seq<K>, keys: set<K>) {
    (forall k :: k in list <==> k in keys) && Distinct(list)
  }

  /** Moving a listed key to the front. */
  lemma TouchLists<K(!new)>(list: seq<K>, keys: set<K>, k: K)
    requires Lists(list, keys)
    ensures Lists([k] + Without(list, k), keys + {k})
  {
    WithoutMembers(list, k);
  }

  /** Dropping the last key. */
  lemma EvictLists<K(!new)>(list: seq<K>, keys: set<K>)
    requires Lists(list, keys) && list != []
    ensures list[|list| - 1] in keys && Lists(list[..|list| - 1], keys - {list[|list| - 1]})
  {
    var k, rest := list[|list| - 1], list[..|list| - 1];
    forall x ensures x in rest <==> x in keys - {k} {
      if x in keys && x != k {
        var i :| 0 <= i < |list| && list[i] == x;
        assert rest[i] == x;
      }
      if x in rest {
        var i :| 0 <= i < |rest| && rest[i] == x;
        assert list[i] == x;
      }
    }
  }

  class LruCache<K(==,!new), V> {
    var items: map<K, V>
    var list: seq<K>
    const capacity: nat

    ghost predicate Valid()
      reads this
    {
      Lists(list, items.Keys) && |items| <= capacity && capacity > 0
    }

    constructor (capacity: nat)
      requires capacity > 0
      ensures Valid() && items == map[] && this.capacity == capacity
    {
      this.capacity, items, list := capacity, map[], [];
    }

    /** A known key keeps its value; for a new one the least recently used entry
        makes room if need be. */
    method Insert(key: K, value: V)
      requires Valid()
      modifies this
      ensures Valid()
      ensures key in old(items) ==> items == old(items) && list == old(list)
      ensures key !in old(items) && |old(items)| < capacity ==> items == old(items)[key := value]
      ensures key !in old(items) && |old(items)| >= capacity ==>
        old(list) != [] && items == (old(items) - {old(list)[|old(list)| - 1]})[key := value]
      ensures key !in old(items) ==>
        list == [key] + if |old(items)| < capacity then old(list) else old(list)[..|old(list)| - 1]
    {
      if key !in items {
        if |items| >= capacity {
          Evict();
        }
        TouchLists(list, items.Keys, key);
        NotListed(list, key);
        list, items := [key] + list, items[key := value];
      }
    }

    /** Looks a key up and makes it the most recently used one; the others keep their
        order. */
    method Get(key: K) returns (r: Option<V>)
      requires Valid()
      modifies this`list
      ensures Valid() && r == if key in items then Some(items[key]) else None
      ensures r.None? ==> list == old(list)
      ensures r.Some? ==> MovedToFront(old(list), list, key)
    {
      if key !in items {
        return None;
      }
      MovesToFront(list, key);
      TouchLists(list, items.Keys, key);
      assert items.Keys + {key} == items.Keys;
      list := [key] + Without(list, key);
      r := Some(items[key]);
    }

    method Evict()
      requires Valid() && items != map[]
      modifies this
      ensures Lists(list, items.Keys) && |items| < capacity
      ensures old(list) != [] && items == old(items) - {old(list)[|old(list)| - 1]} && list == old(list)[..|old(list)| - 1]
    {
      var k: K :| k in items;
      assert k in list;
      EvictLists(list, items.Keys);
      var last := list[|list| - 1];
      list, items := list[..|list| - 1], items - {last};
      assert items.Keys == old(items.Keys) - {last};
      assert |items.Keys| < |old(items.Keys)|;
    }

    method Clear()
      requires Valid()
      modifies this
      ensures Valid() && items == map[] && list == []
    {
      items, list := map[], [];
    }
  }
}
