/** The cache of tree nodes. It holds nodes decoded from after images, and nodes
    that were built in memory: these may name another node in another way than the
    after image does, but they name the same one. Whatever the cache holds or has
    evicted, a node that is fetched means what the after image says, following the
    addresses leads to the committed tree, and the bytes add up. */
module NodeCaches {
  import opened Basics
  import opened Keys
  import opened Trees
  import opened Nodes
  import opened Shapes
  import opened Deltas
  import opened Intentions
  import opened Serialization
  import opened LruCaches

  /** The message AfterImage of the log. */
  datatype AfterImage = AfterImage(intention: nat, tree: seq<NodeEntry>)

  /** An entry of the log. */
  datatype Slot = Image(image: AfterImage) | Record(intention: Intention) | Hole

  /** A node in the cache: its pointers have addresses, or lead nowhere. */
  datatype LoadedNode = LoadedNode(red: bool, key: Key, val: Val, left: Option<NodeAddress>, right: Option<NodeAddress>, rid: nat)

  type Address = (nat, nat)

  // -------------------------------------------------------------- deserializing

  function LoadPtr(p: PtrEntry, pos: nat): Option<NodeAddress> {
    match p
    case NilPtr => None
    case SelfPtr(off) => Some(NodeAddress(pos, Short(off), true))
    case AfterImagePtr(ai, off) => Some(NodeAddress(ai, Short(off), true))
    case IntentionPtr(i, off) => Some(NodeAddress(i, Short(off), false))
  }

  function Deserialize(image: AfterImage, pos: nat, idx: nat): LoadedNode
    requires idx < |image.tree|
  {
    var n := image.tree[idx];
    LoadedNode(n.red, n.key, n.val, LoadPtr(n.left, pos), LoadPtr(n.right, pos), image.intention)
  }

  predicate HasNode(log: seq<Slot>, a: Address) {
    a.0 < |log| && log[a.0].Image? && a.1 < |log[a.0].image.tree|
  }

  /** The node that decoding the log directly gives. */
  function Decoded(log: seq<Slot>, a: Address): LoadedNode
    requires HasNode(log, a)
  {
    Deserialize(log[a.0].image, a.0, a.1)
  }

  /** The position of the first after image of an intention, behind it. */
  ghost predicate Primary(log: seq<Slot>, i: nat, pos: nat) {
    && i < pos < |log| && log[pos].Image? && log[pos].image.intention == i
    && forall p :: i < p < pos ==> !(log[p].Image? && log[p].image.intention == i)
  }

  lemma PrimaryUnique(log: seq<Slot>, i: nat, p: nat, q: nat)
    requires Primary(log, i, p) && Primary(log, i, q)
    ensures p == q
  {
  }

  /** The node that an address names. */
  ghost predicate Names(log: seq<Slot>, a: NodeAddress, n: Address) {
    n.1 == a.offset && if a.isAfterImage then n.0 == a.position else Primary(log, a.position, n.0)
  }

  // ------------------------------------------------------- what after images mean

  /** For every after image its intention. */
  function Intents(log: seq<Slot>): map<nat, nat> {
    map p: nat | p < |log| && log[p].Image? :: log[p].image.intention
  }

  /** The node of a delta that an address leads to, in either form. */
  function Target(log: seq<Slot>, a: Option<NodeAddress>): Option<Where> {
    Denoted(a, Env(0, Intents(log)))
  }

  /** Whoever wrote the after image of an intention, it means what the commit made. */
  ghost predicate Written(log: seq<Slot>, store: Store) {
    forall p :: 0 <= p < |log| && log[p].Image? ==>
      var image := log[p].image;
      image.intention < p && image.intention in store && Means(image.tree, store[image.intention], Intents(log))
  }

  /** Every commit has an after image in the log, so that all addresses can be
      followed. */
  ghost predicate Present(log: seq<Slot>, store: Store) {
    forall i | i in store :: exists pos: nat :: Primary(log, i, pos)
  }

  predicate LinkMeans(log: seq<Slot>, a: Option<NodeAddress>, r: Ref, i: nat) {
    (a.None? <==> r.Void?) && Target(log, a) == RefWhere(r, i)
  }

  predicate LoadedMeans(log: seq<Slot>, x: LoadedNode, d: Entry, i: nat) {
    && x.red == d.red && x.key == d.key && x.val == d.val && x.rid == i
    && LinkMeans(log, x.left, d.left, i) && LinkMeans(log, x.right, d.right, i)
  }

  /** The node at `a` means what entry `a.1` of the commit is. */
  ghost predicate NodeAt(log: seq<Slot>, store: Store, a: Address, x: LoadedNode)
    requires Written(log, store)
  {
    HasNode(log, a) && LoadedMeans(log, x, store[log[a.0].image.intention][a.1], log[a.0].image.intention)
  }

  /** The same node, named in the one or the other form. */
  predicate SameNode(log: seq<Slot>, x: LoadedNode, y: LoadedNode) {
    && x.red == y.red && x.key == y.key && x.val == y.val && x.rid == y.rid
    && Target(log, x.left) == Target(log, y.left) && Target(log, x.right) == Target(log, y.right)
    && (x.left.None? <==> y.left.None?) && (x.right.None? <==> y.right.None?)
  }

  /** What is read from a serialized pointer leads where the pointer means. */
  lemma LoadedPtr(log: seq<Slot>, p: PtrEntry, r: Ref, pos: nat)
    requires pos < |log| && log[pos].Image? && Meaning(p, Intents(log)) == Some(r)
    ensures LinkMeans(log, LoadPtr(p, pos), r, log[pos].image.intention)
  {
    assert pos in Intents(log);
  }

  lemma DecodedAt(log: seq<Slot>, store: Store, a: Address)
    requires Written(log, store) && HasNode(log, a)
    ensures NodeAt(log, store, a, Decoded(log, a))
  {
    hide LinkMeans, LoadPtr, Meaning, Intents;
    var image, d := log[a.0].image, store[log[a.0].image.intention][a.1];
    assert EntryMeans(image.tree[a.1], d, Intents(log));
    LoadedPtr(log, image.tree[a.1].left, d.left, a.0);
    LoadedPtr(log, image.tree[a.1].right, d.right, a.0);
  }

  lemma DecodedIn(log: seq<Slot>, store: Store, pos: nat, idx: nat)
    requires Written(log, store) && pos < |log| && log[pos].Image? && idx < |log[pos].image.tree|
    ensures NodeAt(log, store, (pos, idx), Deserialize(log[pos].image, pos, idx))
  {
    DecodedAt(log, store, (pos, idx));
  }

  lemma NodesSame(log: seq<Slot>, store: Store, a: Address, x: LoadedNode)
    requires Written(log, store) && NodeAt(log, store, a, x)
    ensures SameNode(log, x, Decoded(log, a))
  {
    hide LoadPtr, Target;
    DecodedAt(log, store, a);
  }

  lemma SameAsDecoded(log: seq<Slot>, a: Address)
    requires HasNode(log, a)
    ensures SameNode(log, Decoded(log, a), Decoded(log, a))
  {
  }

  lemma SameAt(log: seq<Slot>, store: Store, a: Address, x: LoadedNode)
    requires Written(log, store) && HasNode(log, a) && SameNode(log, x, Decoded(log, a))
    ensures NodeAt(log, store, a, x)
  {
    hide LoadPtr, Target;
    DecodedAt(log, store, a);
  }

  /** What is in the log stays there. */
  lemma NodeStays(log: seq<Slot>, store: Store, more: seq<Slot>, later: Store, a: Address, x: LoadedNode)
    requires Written(log, store) && Written(log + more, later) && NodeAt(log, store, a, x)
    requires forall i | i in store :: i in later && later[i] == store[i]
    ensures NodeAt(log + more, later, a, x)
  {
    var all := log + more;
    assert forall p | p in Intents(log) :: p in Intents(all) && Intents(all)[p] == Intents(log)[p];
    assert all[a.0] == log[a.0];
  }

  lemma {:induction false} PrimaryStays(log: seq<Slot>, more: seq<Slot>, i: nat, pos: nat)
    requires Primary(log, i, pos)
    ensures Primary(log + more, i, pos)
  {
  }

  /** A node in memory that means an entry, as the cache holds it. */
  function AsLoaded(c: Cell): LoadedNode
    requires c.rid >= 0
  {
    LoadedNode(c.red, c.key, c.val, AddressOf(c.left), AddressOf(c.right), c.rid)
  }

  function AddressOf(p: NodePtr): Option<NodeAddress> {
    if p.ref == null then None else p.address
  }

  lemma CellLoaded(log: seq<Slot>, c: Cell, d: Entry, i: nat, e: Env)
    requires CellMeans(c, d, i, e) && Extends(e.primary, Intents(log))
    ensures LoadedMeans(log, AsLoaded(c), d, i)
  {
  }

  // --------------------------------------------------------------------- a shard

  function ByteSize(n: LoadedNode): nat {
    |n.key| + |n.val| + 1
  }

  datatype Shard = Shard(nodes: map<Address, LoadedNode>, lru: seq<Address>)

  /** The bytes of the listed nodes. */
  function Bytes(nodes: map<Address, LoadedNode>, list: seq<Address>): nat {
    if list == [] then 0
    else (if list[0] in nodes then ByteSize(nodes[list[0]]) else 0) + Bytes(nodes, list[1..])
  }

  ghost predicate ShardOk(s: Shard, log: seq<Slot>, store: Store) {
    Written(log, store) && Lists(s.lru, s.nodes.Keys) && forall a | a in s.nodes :: NodeAt(log, store, a, s.nodes[a])
  }

  function Touch(s: Shard, a: Address): Shard {
    s.(lru := [a] + Without(s.lru, a))
  }

  function Add(s: Shard, a: Address, n: LoadedNode): Shard {
    Shard(s.nodes[a := n], [a] + s.lru)
  }

  function Evict(s: Shard): Shard {
    if s.lru == [] then s
    else Shard(s.nodes - {s.lru[|s.lru| - 1]}, s.lru[..|s.lru| - 1])
  }

  lemma {:induction false} BytesSame(m: map<Address, LoadedNode>, n: map<Address, LoadedNode>, list: seq<Address>)
    requires forall a | a in list :: (a in m <==> a in n) && (a in m ==> m[a] == n[a])
    ensures Bytes(m, list) == Bytes(n, list)
  {
    if list != [] {
      BytesSame(m, n, list[1..]);
    }
  }

  lemma {:induction false} BytesAppend(m: map<Address, LoadedNode>, a: seq<Address>, b: seq<Address>)
    ensures Bytes(m, a + b) == Bytes(m, a) + Bytes(m, b)
  {
    if a == [] {
      assert a + b == b;
    } else {
      assert (a + b)[1..] == a[1..] + b;
      BytesAppend(m, a[1..], b);
    }
  }

  lemma {:induction false} BytesWithout(m: map<Address, LoadedNode>, list: seq<Address>, a: Address)
    requires a in list && a in m
    ensures Bytes(m, list) == ByteSize(m[a]) + Bytes(m, Without(list, a))
  {
    if list[0] != a {
      BytesWithout(m, list[1..], a);
    }
  }

  lemma TouchOk(s: Shard, a: Address, log: seq<Slot>, store: Store)
    requires ShardOk(s, log, store) && a in s.nodes
    ensures ShardOk(Touch(s, a), log, store) && Bytes(s.nodes, Touch(s, a).lru) == Bytes(s.nodes, s.lru)
  {
    TouchLists(s.lru, s.nodes.Keys, a);
    assert s.nodes.Keys + {a} == s.nodes.Keys;
    BytesWithout(s.nodes, s.lru, a);
    assert ([a] + Without(s.lru, a))[1..] == Without(s.lru, a);
  }

  lemma AddOk(s: Shard, a: Address, n: LoadedNode, log: seq<Slot>, store: Store)
    requires ShardOk(s, log, store) && a !in s.nodes && NodeAt(log, store, a, n)
    ensures ShardOk(Add(s, a, n), log, store)
    ensures Bytes(Add(s, a, n).nodes, Add(s, a, n).lru) == Bytes(s.nodes, s.lru) + ByteSize(n)
  {
    hide ByteSize, NodeAt, Lists, Without, Written;
    ListedIn(s.lru, s.nodes.Keys, a);
    TouchLists(s.lru, s.nodes.Keys, a);
    NotListed(s.lru, a);
    assert s.nodes[a := n].Keys == s.nodes.Keys + {a};
    BytesSame(s.nodes, s.nodes[a := n], s.lru);
    assert ([a] + s.lru)[1..] == s.lru;
  }

  lemma ListedIn(list: seq<Address>, keys: set<Address>, a: Address)
    requires Lists(list, keys)
    ensures a in list <==> a in keys
  {
  }

  lemma EvictOk(s: Shard, log: seq<Slot>, store: Store)
    requires ShardOk(s, log, store) && s.lru != []
    ensures s.lru[|s.lru| - 1] in s.nodes && ShardOk(Evict(s), log, store)
    ensures Bytes(s.nodes, s.lru) == Bytes(Evict(s).nodes, Evict(s).lru) + ByteSize(s.nodes[s.lru[|s.lru| - 1]])
  {
    hide NodeAt, ByteSize, Lists, Bytes, Written;
    var last, rest := s.lru[|s.lru| - 1], s.lru[..|s.lru| - 1];
    EvictLists(s.lru, s.nodes.Keys);
    assert (s.nodes - {last}).Keys == s.nodes.Keys - {last};
    BytesLast(s.nodes, rest, last);
    ListedLast(s.lru, s.nodes.Keys);
    assert s.lru == rest + [last];
    BytesSame(s.nodes, s.nodes - {last}, rest);
  }

  function Held(s: Shard): nat {
    Bytes(s.nodes, s.lru)
  }

  /** What is left of the shard `s`: the most recently used nodes. All but the last of those
      that are gone would not have freed `target` bytes. */
  ghost predicate Evicted(s: Shard, t: Shard, target: int) {
    && t.lru <= s.lru && (forall a | a in t.nodes :: a in s.nodes && t.nodes[a] == s.nodes[a])
    && Held(t) == Bytes(s.nodes, t.lru)
    && (t.lru == s.lru || Held(s) - Bytes(s.nodes, s.lru[..|t.lru| + 1]) < target)
  }

  lemma EvictedNone(s: Shard, target: int)
    ensures Evicted(s, s, target)
  {
  }

  lemma EvictedOne(first: Shard, s: Shard, target: int, log: seq<Slot>, store: Store)
    requires Evicted(first, s, target) && ShardOk(s, log, store) && s.lru != [] && Held(first) - Held(s) < target
    ensures Evicted(first, Evict(s), target)
  {
    hide NodeAt, ByteSize, Bytes, Lists, Written;
    var t := Evict(s);
    EvictOk(s, log, store);
    EvictLists(s.lru, s.nodes.Keys);
    assert first.lru[..|t.lru| + 1] == s.lru;
    OnlyListed(t, log, store);
    BytesSame(t.nodes, first.nodes, t.lru);
  }

  lemma OnlyListed(s: Shard, log: seq<Slot>, store: Store)
    requires ShardOk(s, log, store)
    ensures forall a | a in s.lru :: a in s.nodes
  {
    hide NodeAt, Written;
  }

  lemma EvictShorter(s: Shard)
    requires s.lru != []
    ensures |Evict(s).lru| < |s.lru|
  {
  }

  lemma BytesLast(m: map<Address, LoadedNode>, rest: seq<Address>, last: Address)
    requires last in m
    ensures Bytes(m, rest + [last]) == Bytes(m, rest) + ByteSize(m[last])
  {
    BytesAppend(m, rest, [last]);
    assert [last][1..] == [];
  }

  lemma ListedLast(list: seq<Address>, keys: set<Address>)
    requires Lists(list, keys) && list != []
    ensures list[|list| - 1] !in list[..|list| - 1]
  {
    var rest := list[..|list| - 1];
    assert forall i :: 0 <= i < |rest| ==> rest[i] == list[i];
  }

  // ------------------------------------------------------------------- the cache

  function Total(shards: seq<Shard>): nat {
    if shards == [] then 0 else Total(shards[..|shards| - 1]) + Bytes(shards[|shards| - 1].nodes, shards[|shards| - 1].lru)
  }

  lemma {:induction false} TotalUpdate(shards: seq<Shard>, i: nat, s: Shard)
    requires i < |shards|
    ensures Total(shards[i := s]) + Bytes(shards[i].nodes, shards[i].lru) == Total(shards) + Bytes(s.nodes, s.lru)
  {
    var n := |shards| - 1;
    if i == n {
      assert shards[i := s][..n] == shards[..n];
    } else {
      assert shards[i := s][..n] == shards[..n][i := s];
      TotalUpdate(shards[..n], i, s);
    }
  }

  lemma {:induction false} TotalEmpty(n: nat)
    ensures Total(seq(n, _ => Shard(map[], []))) == 0
  {
    if n > 0 {
      assert seq(n, _ => Shard(map[], []))[..n - 1] == seq(n - 1, _ => Shard(map[], []));
      TotalEmpty(n - 1);
    }
  }

  const NUM_SLOTS := 8

  class NodeCache {
    var shards: seq<Shard>
    var usedBytes: nat
    const cacheSize: nat
    const hash: Address -> nat
    const intentions: LruCache<nat, nat>

    ghost predicate Valid(log: seq<Slot>, store: Store)
      reads this, intentions
    {
      && Written(log, store)
      && |shards| == NUM_SLOTS && (forall k :: 0 <= k < NUM_SLOTS ==> ShardOk(shards[k], log, store) && InPlace(k))
      && usedBytes == Total(shards)
      && intentions.Valid() && forall i | i in intentions.items :: Primary(log, i, intentions.items[i])
    }

    /** A node is kept in the shard that its address hashes to. */
    ghost predicate InPlace(k: nat)
      requires k < |shards|
      reads this`shards
    {
      forall a | a in shards[k].nodes :: SlotOf(a) == k
    }

    constructor (cacheSize: nat, imapSize: nat, hash: Address -> nat, ghost log: seq<Slot>, ghost store: Store)
      requires imapSize > 0 && Written(log, store)
      ensures Valid(log, store) && this.cacheSize == cacheSize && this.hash == hash && fresh(intentions)
      ensures Settled(log, shards, 0)
    {
      this.cacheSize, this.hash, usedBytes := cacheSize, hash, 0;
      shards := seq(NUM_SLOTS, _ => Shard(map[], []));
      intentions := new LruCache(imapSize);
      new;
      TotalEmpty(NUM_SLOTS);
    }

    function SlotOf(a: Address): nat {
      hash(a) % NUM_SLOTS
    }

    /** Whether these shards hold the node at `a`. */
    predicate Caches(shards: seq<Shard>, a: Address) {
      SlotOf(a) < |shards| && a in shards[SlotOf(a)].nodes
    }

    /** The node at `a` has been cached, and no other one. */
    ghost predicate Gains(before: seq<Shard>, after: seq<Shard>, a: Address) {
      forall x: Address :: Caches(after, x) <==> x == a || Caches(before, x)
    }

    /** The first `n` nodes of the after image at `pos` have been cached. */
    ghost predicate GainsImage(before: seq<Shard>, after: seq<Shard>, pos: nat, n: nat) {
      forall x: Address :: Caches(after, x) <==> (x.0 == pos && x.1 < n) || Caches(before, x)
    }

    lemma GainsMore(before: seq<Shard>, shards: seq<Shard>, after: seq<Shard>, pos: nat, n: nat)
      requires GainsImage(before, shards, pos, n) && Gains(shards, after, (pos, n))
      ensures GainsImage(before, after, pos, n + 1)
    {
      forall x: Address ensures Caches(after, x) <==> (x.0 == pos && x.1 < n + 1) || Caches(before, x) {
        assert x == (pos, n) <==> x.0 == pos && x.1 == n;
      }
    }

    /** Only nodes of intentions below `bound` have been cached. */
    ghost predicate GainsBelow(log: seq<Slot>, before: seq<Shard>, after: seq<Shard>, bound: nat) {
      forall x: Address :: Caches(after, x) && !Caches(before, x) ==>
        x.0 < |log| && log[x.0].Image? && log[x.0].image.intention < bound
    }

    /** Only nodes of intentions below `bound` are cached. */
    ghost predicate Settled(log: seq<Slot>, shards: seq<Shard>, bound: nat) {
      forall x: Address :: Caches(shards, x) ==> x.0 < |log| && log[x.0].Image? && log[x.0].image.intention < bound
    }

    lemma SettledGains(log: seq<Slot>, before: seq<Shard>, after: seq<Shard>, bound: nat)
      requires Settled(log, before, 0) && GainsBelow(log, before, after, bound)
      ensures Settled(log, after, bound)
    {
      hide Caches;
    }

    lemma SettledStill(log: seq<Slot>, before: seq<Shard>, after: seq<Shard>, i: nat, bound: nat)
      requires GainsBelow(log, before, after, Above(bound, i))
      ensures bound <= i && Settled(log, before, i) ==> Settled(log, after, i + 1)
    {
      hide Caches;
    }

    /** None of the first `n` nodes of the after image at `pos` is cached. */
    ghost predicate Lacks(shards: seq<Shard>, pos: nat, n: nat) {
      forall k: nat :: k < n ==> !Caches(shards, (pos, k))
    }

    ghost predicate LacksAll(shards: seq<Shard>, pos: nat) {
      forall n: nat :: Lacks(shards, pos, n)
    }

    lemma LacksEach(shards: seq<Shard>, pos: nat, n: nat)
      requires LacksAll(shards, pos)
      ensures Lacks(shards, pos, n)
    {
      hide Lacks;
    }

    lemma SettledWithout(log: seq<Slot>, shards: seq<Shard>, pos: nat, n: nat)
      requires pos < |log| && log[pos].Image?
      ensures Settled(log, shards, log[pos].image.intention) ==> Lacks(shards, pos, n)
    {
      hide Caches;
    }

    lemma GainsTwice(log: seq<Slot>, before: seq<Shard>, shards: seq<Shard>, after: seq<Shard>, bound: nat)
      requires GainsBelow(log, before, shards, bound) && GainsBelow(log, shards, after, bound)
      ensures GainsBelow(log, before, after, bound)
    {
      hide Caches;
    }

    lemma GainsOne(log: seq<Slot>, before: seq<Shard>, after: seq<Shard>, a: Address, bound: nat)
      requires Gains(before, after, a) && a.0 < |log| && log[a.0].Image? && log[a.0].image.intention < bound
      ensures GainsBelow(log, before, after, bound)
    {
      hide Caches;
    }

    lemma Loses(log: seq<Slot>, before: seq<Shard>, after: seq<Shard>, bound: nat)
      requires forall x: Address :: Caches(after, x) ==> Caches(before, x)
      ensures GainsBelow(log, before, after, bound)
    {
      hide Caches;
    }

    lemma GainsNothing(shards: seq<Shard>, pos: nat)
      ensures GainsImage(shards, shards, pos, 0)
    {
    }

    lemma NotGained(before: seq<Shard>, shards: seq<Shard>, pos: nat, n: nat)
      requires GainsImage(before, shards, pos, n)
      ensures Caches(shards, (pos, n)) <==> Caches(before, (pos, n))
    {
    }

    /** The log goes on, and so do the commits: nothing cached is affected. */
    lemma StaysValid(log: seq<Slot>, store: Store, more: seq<Slot>, later: Store)
      requires Valid(log, store) && Written(log + more, later)
      requires forall i | i in store :: i in later && later[i] == store[i]
      ensures Valid(log + more, later)
    {
      hide NodeAt, Written;
      forall k | 0 <= k < NUM_SLOTS ensures ShardOk(shards[k], log + more, later) {
        assert ShardOk(shards[k], log, store);
        forall a | a in shards[k].nodes ensures NodeAt(log + more, later, a, shards[k].nodes[a]) {
          NodeStays(log, store, more, later, a, shards[k].nodes[a]);
        }
      }
      forall i | i in intentions.items ensures Primary(log + more, i, intentions.items[i]) {
        PrimaryStays(log, more, i, intentions.items[i]);
      }
    }

    /** Nothing is cached that is not in the log yet. */
    lemma NotBehind(log: seq<Slot>, store: Store)
      requires Valid(log, store)
      ensures LacksAll(shards, |log|)
    {
      hide LoadedMeans, Written, Bytes, ShardOk, Valid;
      forall k: nat ensures !Caches(shards, (|log|, k)) {
        InShard(SlotOf((|log|, k)), log, store);
      }
    }

    /** Remembers where the primary after image of an intention is. */
    method SetIntentionMapping(i: nat, pos: nat, ghost log: seq<Slot>, ghost store: Store)
      requires Valid(log, store) && Primary(log, i, pos)
      modifies intentions
      ensures Valid(log, store) && i in intentions.items
    {
      intentions.Insert(i, pos);
    }

    /** The after image that an address leads to: by its own position, by the map, or
        by a scan of the log from behind the intention. */
    method FindAfterImagePosition(log: seq<Slot>, a: NodeAddress, ghost store: Store, ghost n: Address) returns (pos: nat)
      requires Valid(log, store) && Names(log, a, n)
      modifies intentions`list
      ensures Valid(log, store) && pos == n.0
    {
      if a.isAfterImage {
        return a.position;
      }
      var known := intentions.Get(a.position);
      if known.Some? {
        PrimaryUnique(log, a.position, known.value, n.0);
        return known.value;
      }
      pos := a.position + 1;
      while !(log[pos].Image? && log[pos].image.intention == a.position)
        invariant a.position < pos <= n.0 < |log|
        invariant forall p :: a.position < p < pos ==> !(log[p].Image? && log[p].image.intention == a.position)
        decreases n.0 - pos
      {
        pos := pos + 1;
      }
    }

    /** Adds a node that is not there yet at the front of its shard. */
    method Insert(a: Address, n: LoadedNode, ghost log: seq<Slot>, ghost store: Store)
      requires Valid(log, store) && NodeAt(log, store, a, n) && !Caches(shards, a)
      modifies this`shards, this`usedBytes
      ensures Valid(log, store) && Gains(old(shards), shards, a)
      ensures usedBytes == old(usedBytes) + |n.key| + |n.val| + 1
      ensures SlotOf(a) < |shards| == |old(shards)| && shards[SlotOf(a)].lru == [a] + old(shards)[SlotOf(a)].lru
      ensures forall k :: 0 <= k < |shards| && k != SlotOf(a) ==> shards[k] == old(shards)[k]
    {
      hide ShardOk, NodeAt, Bytes, Total;
      var slot := SlotOf(a);
      var s := shards[slot];
      AddOk(s, a, n, log, store);
      TotalUpdate(shards, slot, Add(s, a, n));
      shards := shards[slot := Add(s, a, n)];
      usedBytes := usedBytes + ByteSize(n);
    }

    /** Puts a node into the cache, in one critical section, unless it is there
        already; either way the cached node is returned. */
    method Cache(log: seq<Slot>, a: Address, n: LoadedNode, ghost store: Store) returns (cached: LoadedNode)
      requires Valid(log, store) && NodeAt(log, store, a, n)
      modifies this`shards, this`usedBytes
      ensures Valid(log, store) && NodeAt(log, store, a, cached)
      ensures Gains(old(shards), shards, a)
    {
      hide NodeAt;
      if Caches(shards, a) {
        return shards[SlotOf(a)].nodes[a];
      }
      Insert(a, n, log, store);
      cached := n;
    }

    lemma AllWritten(log: seq<Slot>, store: Store)
      requires Valid(log, store)
      ensures Written(log, store)
    {
    }

    lemma ShardLists(s: Shard, log: seq<Slot>, store: Store)
      requires ShardOk(s, log, store)
      ensures forall a | a in s.nodes :: a in s.lru
    {
      hide NodeAt, Written;
    }

    /** What is known of one shard. */
    lemma InShard(slot: nat, log: seq<Slot>, store: Store)
      requires Valid(log, store) && slot < NUM_SLOTS
      ensures |shards| == NUM_SLOTS && ShardOk(shards[slot], log, store) && Written(log, store)
      ensures forall a | a in shards[slot].nodes :: NodeAt(log, store, a, shards[slot].nodes[a])
    {
      hide NodeAt;
    }

    /** A look into the cache, in one critical section: a node that is there becomes the
        most recently used one of its shard. */
    method Lookup(a: Address, ghost log: seq<Slot>, ghost store: Store) returns (r: Option<LoadedNode>)
      requires Valid(log, store)
      modifies this`shards
      ensures Valid(log, store) && (r.Some? <==> Caches(shards, a)) && (r.Some? ==> NodeAt(log, store, a, r.value))
      ensures forall x: Address :: Caches(shards, x) <==> Caches(old(shards), x)
      ensures r.None? ==> shards == old(shards)
      ensures r.Some? ==>
        && SlotOf(a) < |shards| == |old(shards)| && (forall k :: 0 <= k < |shards| && k != SlotOf(a) ==> shards[k] == old(shards)[k])
        && MovedToFront(old(shards)[SlotOf(a)].lru, shards[SlotOf(a)].lru, a)
    {
      hide NodeAt, Total, ShardOk, Bytes, Without, Written, MovedToFront;
      InShard(SlotOf(a), log, store);
      var slot := SlotOf(a);
      var s := shards[slot];
      if a !in s.nodes {
        return None;
      }
      TouchOk(s, a, log, store);
      ShardLists(s, log, store);
      MovesToFront(s.lru, a);
      TotalUpdate(shards, slot, Touch(s, a));
      shards := shards[slot := Touch(s, a)];
      r := Some(s.nodes[a]);
    }

    /** Caches all nodes of an after image. The last one is the root. If no other
        thread gets in between, all of them are in the cache then. Other threads cache
        nodes of intentions below `bound` only. */
    method CacheAfterImage(log: seq<Slot>, pos: nat, others: bool, bound: nat, ghost store: Store)
      returns (root: Option<NodeAddress>, node: Option<LoadedNode>)
      requires Valid(log, store) && pos < |log| && log[pos].Image? && log[pos].image.intention < bound
      modifies this`shards, this`usedBytes
      ensures Valid(log, store) && GainsBelow(log, old(shards), shards, bound)
      ensures var n := |log[pos].image.tree|;
        && (n == 0 ==> root == None && node == None)
        && (n > 0 ==> root == Some(NodeAddress(pos, Short(n - 1), true)) && node.Some? && NodeAt(log, store, (pos, n - 1), node.value))
        && (!others ==> GainsImage(old(shards), shards, pos, n))
    {
      hide *;
      AllWritten(log, store);
      GainsNothing(shards, pos);
      Same(log, shards, bound);
      var image := log[pos].image;
      root, node := None, None;
      for idx := 0 to |image.tree|
        invariant Valid(log, store) && GainsBelow(log, old(shards), shards, bound)
        invariant if idx == 0 then node == None else node.Some? && NodeAt(log, store, (pos, idx - 1), node.value)
        invariant !others ==> GainsImage(old(shards), shards, pos, idx)
      {
        ghost var first := shards;
        Same(log, shards, bound);
        if others {
          Interleave(log, bound, store);
        }
        DecodedIn(log, store, pos, idx);
        ghost var before := shards;
        var cached := Cache(log, (pos, idx), Deserialize(image, pos, idx), store);
        if !others {
          GainsMore(old(shards), before, shards, pos, idx);
        }
        GainsOne(log, before, shards, (pos, idx), bound);
        GainsTwice(log, first, before, shards, bound);
        GainsTwice(log, old(shards), first, shards, bound);
        node := Some(cached);
      }
      if |image.tree| > 0 {
        root := Some(NodeAddress(pos, Short(|image.tree| - 1), true));
      }
    }

    lemma Same(log: seq<Slot>, shards: seq<Shard>, bound: nat)
      ensures GainsBelow(log, shards, shards, bound)
    {
    }

    /** Takes over the nodes of a delta that was built in memory. None of them may
        be in the cache, as it would be if somebody had followed an address to the
        after image before: `ok` says whether the assertion about this holds. Other
        threads cannot interfere that cache nodes of earlier intentions only. */
    method ApplyAfterImageDelta(log: seq<Slot>, delta: seq<LoadedNode>, pos: nat, others: bool, bound: nat, ghost store: Store)
      returns (ok: bool, root: Option<NodeAddress>)
      requires Valid(log, store) && pos < |log| && log[pos].Image?
      requires |delta| == |log[pos].image.tree| && forall k :: 0 <= k < |delta| ==> NodeAt(log, store, (pos, k), delta[k])
      modifies this`shards, this`usedBytes
      ensures Valid(log, store)
      ensures !others ==>
        && (ok <==> Lacks(old(shards), pos, |delta|))
        && (ok ==> GainsImage(old(shards), shards, pos, |delta|))
      ensures bound <= log[pos].image.intention && Lacks(old(shards), pos, |delta|) ==> ok
      ensures GainsBelow(log, old(shards), shards, Above(bound, log[pos].image.intention))
      ensures root == if delta == [] || !ok then None else Some(NodeAddress(pos, Short(|delta| - 1), true))
    {
      hide *;
      AllWritten(log, store);
      ghost var i := log[pos].image.intention;
      AboveBoth(bound, i);
      GainsNothing(shards, pos);
      Same(log, shards, Above(bound, i));
      OutFirst(shards, pos);
      LacksNone(shards, pos);
      ok, root := true, None;
      for offset := 0 to |delta|
        invariant Valid(log, store) && GainsBelow(log, old(shards), shards, Above(bound, i))
        invariant !others ==>
          Lacks(old(shards), pos, offset) && GainsImage(old(shards), shards, pos, offset)
        invariant bound <= i ==> KeepsOut(old(shards), shards, pos, offset)
      {
        ghost var first := shards;
        Same(log, shards, bound);
        if others {
          Interleave(log, bound, store);
        } else {
          NotGained(old(shards), shards, pos, offset);
        }
        OutStill(log, old(shards), first, shards, pos, offset, bound);
        if Caches(shards, (pos, offset)) {
          GainsLess(log, first, shards, bound, Above(bound, i));
          GainsTwice(log, old(shards), first, shards, Above(bound, i));
          KeptOut(old(shards), shards, pos, offset);
          HasOne(old(shards), pos, offset, |delta|);
          return false, None;
        }
        ghost var before := shards;
        Insert((pos, offset), delta[offset], log, store);
        if !others {
          GainsMore(old(shards), before, shards, pos, offset);
          LacksOneMore(old(shards), pos, offset);
        }
        GainsLess(log, first, before, bound, Above(bound, i));
        GainsOne(log, before, shards, (pos, offset), Above(bound, i));
        GainsTwice(log, first, before, shards, Above(bound, i));
        GainsTwice(log, old(shards), first, shards, Above(bound, i));
        OutMore(old(shards), before, shards, pos, offset);
      }
      if delta != [] {
        root := Some(NodeAddress(pos, Short(|delta| - 1), true));
      }
    }

    /** A bound that also leaves room for `i`. */
    ghost function Above(bound: nat, i: nat): nat {
      if bound > i then bound else i + 1
    }

    lemma AboveBoth(bound: nat, i: nat)
      ensures bound <= Above(bound, i) && i < Above(bound, i)
    {
    }

    lemma GainsLess(log: seq<Slot>, before: seq<Shard>, after: seq<Shard>, bound: nat, more: nat)
      requires GainsBelow(log, before, after, bound) && bound <= more
      ensures GainsBelow(log, before, after, more)
    {
      hide Caches;
    }

    /** From number `n` on no node of the after image at `pos` has been cached. */
    ghost predicate KeepsOut(before: seq<Shard>, after: seq<Shard>, pos: nat, n: nat) {
      forall k: nat :: n <= k && Caches(after, (pos, k)) ==> Caches(before, (pos, k))
    }

    lemma HasOne(shards: seq<Shard>, pos: nat, k: nat, n: nat)
      requires k < n
      ensures Caches(shards, (pos, k)) ==> !Lacks(shards, pos, n)
    {
      hide Caches;
    }

    lemma HasFirst(before: seq<Shard>, after: seq<Shard>, pos: nat, n: nat)
      requires GainsImage(before, after, pos, n) && n > 0
      ensures !Lacks(after, pos, n)
    {
      hide Caches;
      assert Caches(after, (pos, 0));
    }

    lemma LacksOneMore(shards: seq<Shard>, pos: nat, n: nat)
      requires Lacks(shards, pos, n) && !Caches(shards, (pos, n))
      ensures Lacks(shards, pos, n + 1)
    {
      hide Caches;
    }

    lemma LacksNone(shards: seq<Shard>, pos: nat)
      ensures Lacks(shards, pos, 0)
    {
      hide Caches;
    }

    lemma OutFirst(shards: seq<Shard>, pos: nat)
      ensures KeepsOut(shards, shards, pos, 0)
    {
      hide Caches;
    }

    lemma KeptOut(before: seq<Shard>, after: seq<Shard>, pos: nat, n: nat)
      requires Caches(after, (pos, n))
      ensures KeepsOut(before, after, pos, n) ==> Caches(before, (pos, n))
    {
      hide Caches;
    }

    lemma OutStill(log: seq<Slot>, before: seq<Shard>, shards: seq<Shard>, after: seq<Shard>, pos: nat, n: nat, bound: nat)
      requires GainsBelow(log, shards, after, bound) && pos < |log| && log[pos].Image?
      ensures bound <= log[pos].image.intention && KeepsOut(before, shards, pos, n) ==> KeepsOut(before, after, pos, n)
    {
      hide Caches;
    }

    lemma OutMore(before: seq<Shard>, shards: seq<Shard>, after: seq<Shard>, pos: nat, n: nat)
      requires Gains(shards, after, (pos, n))
      ensures KeepsOut(before, shards, pos, n) ==> KeepsOut(before, after, pos, n + 1)
    {
      hide Caches;
    }

    /** Drops the least recently used nodes of one shard until `target` bytes are free, or
        it is empty, and no node more. */
    method EvictFrom(slot: nat, target: int, ghost log: seq<Slot>, ghost store: Store)
      requires Valid(log, store) && slot < NUM_SLOTS
      modifies this`shards, this`usedBytes
      ensures Valid(log, store) && usedBytes <= old(usedBytes)
      ensures |shards| == |old(shards)| && forall k :: 0 <= k < |shards| && k != slot ==> shards[k] == old(shards)[k]
      ensures Evicted(old(shards)[slot], shards[slot], target)
      ensures shards[slot].lru == [] || Held(shards[slot]) + target <= Held(old(shards)[slot])
      ensures usedBytes + Held(old(shards)[slot]) == old(usedBytes) + Held(shards[slot])
    {
      hide ShardOk, ByteSize, Bytes, Total, Written, Evicted, Valid, Held, Evict;
      HasShards(log, store);
      ghost var first := shards[slot];
      EvictedNone(first, target);
      var left := target;
      while left > 0 && shards[slot].lru != []
        invariant Valid(log, store) && |shards| == NUM_SLOTS && left == target - (old(usedBytes) - usedBytes)
        invariant Evicted(first, shards[slot], target)
        invariant usedBytes <= old(usedBytes) && usedBytes + Held(first) == old(usedBytes) + Held(shards[slot])
        invariant |shards| == |old(shards)| && forall k :: 0 <= k < |shards| && k != slot ==> shards[k] == old(shards)[k]
        decreases |shards[slot].lru|
      {
        InShard(slot, log, store);
        EvictShorter(shards[slot]);
        EvictedOne(first, shards[slot], target, log, store);
        var size := DropLast(slot, log, store);
        left := left - size;
      }
    }

    method DropLast(slot: nat, ghost log: seq<Slot>, ghost store: Store) returns (size: nat)
      requires Valid(log, store) && slot < NUM_SLOTS && |shards| == NUM_SLOTS && shards[slot].lru != []
      modifies this`shards, this`usedBytes
      ensures Valid(log, store) && shards == old(shards)[slot := Evict(old(shards)[slot])]
      ensures usedBytes + size == old(usedBytes) && Held(old(shards)[slot]) == Held(shards[slot]) + size
    {
      hide ShardOk, ByteSize, Bytes, Total, Written;
      var s := shards[slot];
      EvictOk(s, log, store);
      TotalUpdate(shards, slot, Evict(s));
      size := ByteSize(s.nodes[s.lru[|s.lru| - 1]]);
      usedBytes := usedBytes - size;
      shards := shards[slot := Evict(s)];
    }

    /** The eviction of the vacuum thread: if the cache is over its size, every shard frees
        an equal part of the excess, or is empty then. Excesses below the number of shards
        round down to nothing. */
    method Vacuum(ghost log: seq<Slot>, ghost store: Store)
      requires Valid(log, store)
      modifies this`shards, this`usedBytes
      ensures Valid(log, store) && usedBytes <= old(usedBytes)
      ensures old(usedBytes) <= cacheSize ==> shards == old(shards) && usedBytes == old(usedBytes)
      ensures old(usedBytes) > cacheSize ==> forall k :: 0 <= k < NUM_SLOTS ==>
        var share := (old(usedBytes) - cacheSize) / NUM_SLOTS;
        && Evicted(old(shards)[k], shards[k], share)
        && (shards[k].lru == [] || Held(shards[k]) + share <= Held(old(shards)[k]))
    {
      hide Valid, Evicted, Held;
      HasShards(log, store);
      if usedBytes > cacheSize {
        var target := (usedBytes - cacheSize) / NUM_SLOTS;
        for slot := 0 to NUM_SLOTS
          invariant Valid(log, store) && usedBytes <= old(usedBytes) && |shards| == NUM_SLOTS
          invariant forall k :: 0 <= k < slot ==>
            Evicted(old(shards)[k], shards[k], target) && (shards[k].lru == [] || Held(shards[k]) + target <= Held(old(shards)[k]))
          invariant forall k :: slot <= k < NUM_SLOTS ==> shards[k] == old(shards)[k]
        {
          EvictFrom(slot, target, log, store);
        }
      }
    }

    lemma HasShards(log: seq<Slot>, store: Store)
      requires Valid(log, store)
      ensures |shards| == NUM_SLOTS
    {
    }

    /** What other threads may do between two critical sections: they evict nodes, look
        nodes up, and cache nodes of intentions below `bound`, decoded or built in
        memory. */
    method Interleave(log: seq<Slot>, bound: nat, ghost store: Store)
      requires Valid(log, store)
      modifies this`shards, this`usedBytes
      ensures Valid(log, store) && GainsBelow(log, old(shards), shards, bound)
    {
      hide *;
      AllWritten(log, store);
      Same(log, shards, bound);
      var steps: int := *;
      while steps > 0
        invariant Valid(log, store) && GainsBelow(log, old(shards), shards, bound)
      {
        steps := steps - 1;
        ghost var first := shards;
        OneStep(log, bound, store);
        GainsTwice(log, old(shards), first, shards, bound);
      }
    }

    method OneStep(log: seq<Slot>, bound: nat, ghost store: Store)
      requires Valid(log, store)
      modifies this`shards, this`usedBytes
      ensures Valid(log, store) && GainsBelow(log, old(shards), shards, bound)
    {
      hide NodeAt, SameNode, ShardOk, Written, Gains, GainsBelow, Valid;
      AllWritten(log, store);
      var evict: bool, slot: nat, bytes: int, a: Address, x: LoadedNode := *, *, *, *, *;
      if evict && slot < NUM_SLOTS {
        InShard(slot, log, store);
        EvictFrom(slot, bytes, log, store);
        EvictedFewer(old(shards)[slot], shards[slot], bytes);
        EvictLoses(old(shards), shards, slot);
        Loses(log, old(shards), shards, bound);
      } else if a.0 < |log| && log[a.0].Image? && a.1 < |log[a.0].image.tree| && log[a.0].image.intention < bound {
        SameAsDecoded(log, a);
        x := if SameNode(log, x, Decoded(log, a)) then x else Decoded(log, a);
        SameAt(log, store, a, x);
        var cached := Cache(log, a, x, store);
        GainsOne(log, old(shards), shards, a, bound);
      } else {
        var found := Lookup(a, log, store);
        Loses(log, old(shards), shards, bound);
      }
    }

    lemma EvictedFewer(s: Shard, t: Shard, target: int)
      requires Evicted(s, t, target)
      ensures forall a | a in t.nodes :: a in s.nodes
    {
    }

    lemma EvictLoses(before: seq<Shard>, after: seq<Shard>, slot: nat)
      requires slot < |after| == |before| && forall k :: 0 <= k < |after| && k != slot ==> after[k] == before[k]
      requires forall a | a in after[slot].nodes :: a in before[slot].nodes
      ensures forall x: Address :: Caches(after, x) ==> Caches(before, x)
    {
    }

    /** A miss: the whole after image is read, and the node is probably there then. */
    method ReadIn(log: seq<Slot>, pos: nat, a: Address, bound: nat, ghost store: Store) returns (r: Option<LoadedNode>)
      requires Valid(log, store) && pos < |log| && log[pos].Image? && log[pos].image.intention < bound
      modifies this`shards, this`usedBytes
      ensures Valid(log, store) && GainsBelow(log, old(shards), shards, bound)
      ensures r.Some? ==> Written(log, store) && NodeAt(log, store, a, r.value)
    {
      hide *;
      AllWritten(log, store);
      var others: bool := *;
      Interleave(log, bound, store);
      ghost var s1 := shards;
      var root, last := CacheAfterImage(log, pos, others, bound, store);
      ghost var s2 := shards;
      Interleave(log, bound, store);
      ghost var s3 := shards;
      r := Lookup(a, log, store);
      Loses(log, s3, shards, bound);
      ghost var s4 := shards;
      Interleave(log, bound, store);
      GainsTwice(log, s3, s4, shards, bound);
      GainsTwice(log, s2, s3, shards, bound);
      GainsTwice(log, s1, s2, shards, bound);
      GainsTwice(log, old(shards), s1, shards, bound);
    }

    lemma KeyIs(log: seq<Slot>, a: NodeAddress, n: Address)
      requires Names(log, a, n) && HasNode(log, n)
      ensures (n.0, a.offset as nat) == n && n.0 < |log| && log[n.0].Image? && n.1 < |log[n.0].image.tree|
    {
    }

    /** Transparency: on a hit, on a miss, and when the node is evicted again in
        between, the node that decoding the primary after image gives, up to the
        form in which it names its children. */
    method Fetch(log: seq<Slot>, a: NodeAddress, bound: nat, ghost store: Store, ghost n: Address) returns (node: LoadedNode)
      requires Valid(log, store) && Names(log, a, n) && HasNode(log, n) && log[n.0].image.intention < bound
      modifies this`shards, this`usedBytes, intentions`list
      ensures Valid(log, store) && NodeAt(log, store, n, node) && SameNode(log, node, Decoded(log, n))
      ensures GainsBelow(log, old(shards), shards, bound)
    {
      hide *;
      AllWritten(log, store);
      var pos := FindAfterImagePosition(log, a, store, n);
      KeyIs(log, a, n);
      var key := (pos, a.offset as nat);
      var r := Lookup(key, log, store);
      Loses(log, old(shards), shards, bound);
      if r.None? {
        ghost var first := shards;
        r := ReadIn(log, pos, key, bound, store);
        GainsTwice(log, old(shards), first, shards, bound);
        if r.None? {
          first := shards;
          r := Lookup(key, log, store);
          Loses(log, first, shards, bound);
          GainsTwice(log, old(shards), first, shards, bound);
          if r.None? {
            first := shards;
            DecodedIn(log, store, pos, a.offset);
            node := Cache(log, key, Deserialize(log[pos].image, pos, a.offset), store);
            GainsOne(log, first, shards, key, bound);
            GainsTwice(log, old(shards), first, shards, bound);
          } else {
            node := r.value;
          }
        } else {
          node := r.value;
        }
      } else {
        node := r.value;
      }
      NodesSame(log, store, n, node);
    }

    // ---------------------------------------------------- following the addresses

    /** Fetches the node that an address leads to and all below it, and links them in
        memory: the tree that the entries of the commits describe. */
    method ReadTree(log: seq<Slot>, a: NodeAddress, bound: nat, ghost store: Store, ghost i: nat, ghost off: nat, ghost e: Env)
      returns (ptr: NodePtr, ghost m: Memory, ghost t: Shape)
      requires Valid(log, store) && Present(log, store) && Target(log, Some(a)) == Some(At(i, off))
      requires i < bound && Decode(store, i, off).Some? && e.rid < 0 && e.primary == Intents(log)
      modifies this`shards, this`usedBytes, intentions`list
      ensures Valid(log, store) && GainsBelow(log, old(shards), shards, bound)
      ensures fresh(m.Keys) && ptr.ref != null && ptr.address == Some(a)
      ensures Loaded(m, ptr, t, store, e, Decode(store, i, off).value)
      decreases i, off, 1
    {
      hide *;
      AllWritten(log, store);
      ghost var n := Named(log, store, a, i, off);
      var node := Fetch(log, a, bound, store, n);
      ghost var s1 := shards;
      ReadParts(log, store, n, node, i, off);
      ghost var d := store[i][off];
      var l, r;
      ghost var ml, mr, tl, tr;
      l, ml, tl := ReadChild(log, node.left, bound, store, d.left, i, off, e);
      ghost var s2 := shards;
      r, mr, tr := ReadChild(log, node.right, bound, store, d.right, i, off, e);
      GainsTwice(log, s1, s2, shards, bound);
      GainsTwice(log, old(shards), s1, shards, bound);
      var cell := Cell(l, r, node.key, node.val, node.red, node.rid, false);
      var o := new Node(cell);
      ptr, m, t := NodePtr(o, Some(a)), ml + mr + map[o := cell], SNode(o, tl, tr);
      TargetIs(log, a, e);
      LoadedOver(ml, mr, tl, tr, store, e, o, cell, At(i, off), a,
                 Follow(store, d.left, i, off).value, Follow(store, d.right, i, off).value);
    }

    /** The same for a pointer of a node that has been fetched. */
    method ReadChild(log: seq<Slot>, link: Option<NodeAddress>, bound: nat, ghost store: Store, ghost ref: Ref,
                     ghost i: nat, ghost off: nat, ghost e: Env)
      returns (ptr: NodePtr, ghost m: Memory, ghost t: Shape)
      requires Valid(log, store) && Present(log, store) && LinkMeans(log, link, ref, i) && Follow(store, ref, i, off).Some?
      requires i < bound && e.rid < 0 && e.primary == Intents(log)
      modifies this`shards, this`usedBytes, intentions`list
      ensures Valid(log, store) && GainsBelow(log, old(shards), shards, bound) && fresh(m.Keys)
      ensures Loaded(m, ptr, t, store, e, Follow(store, ref, i, off).value)
      decreases i, off, 0
    {
      hide *;
      ReadLink(log, link, ref, store, i, off);
      ptr, m, t := NIL_PTR, map[], SNil;
      LoadedNil(store, e);
      Same(log, shards, bound);
      if link.Some? {
        ghost var w := Target(log, link).value;
        ptr, m, t := ReadTree(log, link.value, bound, store, w.ipos, w.off, e);
      }
    }

    /** What is known of a fetched node. */
    lemma ReadParts(log: seq<Slot>, store: Store, n: Address, node: LoadedNode, i: nat, off: nat)
      requires Written(log, store) && NodeAt(log, store, n, node) && log[n.0].image.intention == i && n.1 == off
      requires Decode(store, i, off).Some?
      ensures i in store && off < |store[i]| && node.rid == i
      ensures var d := store[i][off];
        && LinkMeans(log, node.left, d.left, i) && Follow(store, d.left, i, off).Some?
        && LinkMeans(log, node.right, d.right, i) && Follow(store, d.right, i, off).Some?
        && Decode(store, i, off) == Some(Trees.Node(At(i, off), node.red, node.key, node.val,
             Follow(store, d.left, i, off).value, Follow(store, d.right, i, off).value))
    {
      hide LinkMeans, Means;
    }

    lemma TargetIs(log: seq<Slot>, a: NodeAddress, e: Env)
      requires e.primary == Intents(log)
      ensures Denoted(Some(a), e) == Target(log, Some(a))
    {
      hide Intents;
    }

    /** What is known of a pointer of a fetched node. */
    lemma ReadLink(log: seq<Slot>, p: Option<NodeAddress>, r: Ref, store: Store, i: nat, off: nat)
      requires LinkMeans(log, p, r, i) && Follow(store, r, i, off).Some?
      ensures p.None? ==> Follow(store, r, i, off) == Some(Nil)
      ensures p.Some? ==>
        var w := Target(log, p);
        && w.Some? && w.value.At? && (w.value.ipos < i || (w.value.ipos == i && w.value.off < off))
        && Decode(store, w.value.ipos, w.value.off) == Follow(store, r, i, off)
    {
    }

    /** The after image node that an address names. */
    lemma Named(log: seq<Slot>, store: Store, a: NodeAddress, i: nat, off: nat) returns (n: Address)
      requires Written(log, store) && Present(log, store) && Target(log, Some(a)) == Some(At(i, off))
      requires Decode(store, i, off).Some?
      ensures Names(log, a, n) && HasNode(log, n) && n.1 == off == a.offset as nat && log[n.0].image.intention == i
    {
      if a.isAfterImage {
        n := (a.position, off);
        assert a.position in Intents(log);
      } else {
        var pos: nat :| Primary(log, i, pos);
        n := (pos, off);
      }
    }

    /** Opening a database reads the root out of an after image. */
    method ReadRoot(log: seq<Slot>, pos: nat, bound: nat, ghost store: Store, ghost e: Env)
      returns (root: NodePtr, ghost m: Memory, ghost t: Shape)
      requires Valid(log, store) && Present(log, store) && pos < |log| && log[pos].Image? && WellLinked(store)
      requires log[pos].image.intention < bound && e.rid < 0 && e.primary == Intents(log)
      modifies this`shards, this`usedBytes, intentions`list
      ensures Valid(log, store) && GainsBelow(log, old(shards), shards, bound) && fresh(m.Keys)
      ensures var i := log[pos].image.intention;
        && i in store && (store[i] != [] ==> Decode(store, i, |store[i]| - 1).Some?)
        && Loaded(m, root, t, store, e, if store[i] == [] then Nil else Decode(store, i, |store[i]| - 1).value)
    {
      hide *;
      ghost var i := log[pos].image.intention;
      AllWritten(log, store);
      RootTarget(log, store, pos);
      var others: bool := *;
      var a, node := CacheAfterImage(log, pos, others, bound, store);
      ghost var s1 := shards;
      root, m, t := NIL_PTR, map[], SNil;
      LoadedNil(store, e);
      if a.Some? {
        root, m, t := ReadTree(log, a.value, bound, store, i, |store[i]| - 1, e);
        GainsTwice(log, old(shards), s1, shards, bound);
      }
    }
  }

  /** The nodes of a tree that has been read from after images. */
  ghost predicate Loaded(m: Memory, p: NodePtr, t: Shape, store: Store, e: Env, a: Tree)
    reads m.Keys
  {
    m.Keys == Objs(t) && View(m, p, t, e) == Some(a) && NodesHold(m, store)
  }

  ghost predicate NodesHold(m: Memory, store: Store)
    reads m.Keys
  {
    forall n | n in m :: n.Holds(m[n]) && m[n].rid >= 0 && m[n].rid in store
  }

  lemma HeldOver(ml: Memory, mr: Memory, o: Node, c: Cell, store: Store)
    requires NodesHold(ml, store) && NodesHold(mr, store) && o.Holds(c) && c.rid >= 0 && c.rid in store
    ensures NodesHold(ml + mr + map[o := c], store)
  {
  }

  lemma LoadedNil(store: Store, e: Env)
    ensures Loaded(map[], NIL_PTR, SNil, store, e, Nil)
  {
  }

  /** A new node over two trees that have been read. */
  lemma LoadedOver(ml: Memory, mr: Memory, tl: Shape, tr: Shape, store: Store, e: Env,
                   o: Node, c: Cell, w: Where, a: NodeAddress, x: Tree, y: Tree)
    requires Loaded(ml, c.left, tl, store, e, x) && Loaded(mr, c.right, tr, store, e, y) && ml.Keys !! mr.Keys
    requires o !in ml && o !in mr && o.Holds(c)
    requires c.rid >= 0 && c.rid in store && e.rid < 0 && Denoted(Some(a), e) == Some(w)
    ensures Loaded(ml + mr + map[o := c], NodePtr(o, Some(a)), SNode(o, tl, tr), store, e,
                   Trees.Node(w, c.red, c.key, c.val, x, y))
  {
    hide View, Denoted, NodesHold;
    HeldOver(ml, mr, o, c, store);
    ViewOver(ml, mr, tl, tr, e, o, c, w, a, x, y);
    assert Objs(SNode(o, tl, tr)) == {o} + Objs(tl) + Objs(tr);
  }

  lemma ViewOver(ml: Memory, mr: Memory, tl: Shape, tr: Shape, e: Env, o: Node, c: Cell, w: Where, a: NodeAddress, x: Tree, y: Tree)
    requires View(ml, c.left, tl, e) == Some(x) && ml.Keys == Objs(tl)
    requires View(mr, c.right, tr, e) == Some(y) && mr.Keys == Objs(tr)
    requires ml.Keys !! mr.Keys && o !in ml && o !in mr && c.rid != e.rid && Denoted(Some(a), e) == Some(w)
    ensures View(ml + mr + map[o := c], NodePtr(o, Some(a)), SNode(o, tl, tr), e) ==
            Some(Trees.Node(w, c.red, c.key, c.val, x, y))
  {
    hide View, Denoted;
    var m := ml + mr + map[o := c];
    ViewFrame(ml, m, c.left, tl, e);
    ViewFrame(mr, m, c.right, tr, e);
    ViewMake(m, NodePtr(o, Some(a)), SNode(o, tl, tr), e);
  }

  /** The root is the last node of an after image. */
  lemma RootTarget(log: seq<Slot>, store: Store, pos: nat)
    requires Written(log, store) && pos < |log| && log[pos].Image? && WellLinked(store)
    ensures var i, n := log[pos].image.intention, |log[pos].image.tree|;
      && i in store && |store[i]| == n
      && (n > 0 ==> Target(log, Some(NodeAddress(pos, Short(n - 1), true))) == Some(At(i, n - 1)) && Decode(store, i, n - 1).Some?)
  {
    var i, n := log[pos].image.intention, |log[pos].image.tree|;
    assert pos in Intents(log);
    if n > 0 {
      AllDecode(store, i, n - 1);
    }
  }
}
