/** The end of a commit's way through memory: its after image is in the log, its
    pointers are renamed, and the cache takes its nodes over. */
module Finalizers {
  import opened Basics
  import opened Trees
  import opened Nodes
  import opened Shapes
  import opened Deltas
  import opened Serialization
  import opened Histories
  import opened Transactions
  import opened PersistentTrees
  import opened CommitTrees
  import opened Databases
  import opened NodeCaches
  import opened Logs

  /** The nodes of a delta as the cache holds them. */
  method Load(delta: seq<Node>, ghost m: Memory, ghost ds: seq<Entry>, ghost i: nat, ghost e: Env) returns (xs: seq<LoadedNode>)
    requires CellsMean(m, delta, ds, i, e) && forall n | n in delta :: n in m && n.Holds(m[n])
    ensures |xs| == |delta| && forall k :: 0 <= k < |xs| ==> delta[k] in m && m[delta[k]].rid >= 0 && xs[k] == AsLoaded(m[delta[k]])
  {
    hide PtrMeans;
    xs := [];
    for k := 0 to |delta|
      invariant |xs| == k
      invariant forall j :: 0 <= j < k ==> delta[j] in m && m[delta[j]].rid >= 0 && xs[j] == AsLoaded(m[delta[j]])
    {
      var n := delta[k];
      assert n in delta && CellMeans(m[n], ds[k], i, e);
      xs := xs + [LoadedNode(n.red, n.key, n.val, AddressOf(n.left), AddressOf(n.right), n.rid)];
    }
  }

  /** What was built in memory and what any process has written to the log mean the
      same, node by node. */
  lemma DeltaLoaded(slots: seq<Slot>, store: Store, m: Memory, delta: seq<Node>, i: nat, pos: nat, e: Env, xs: seq<LoadedNode>)
    requires Written(slots, store) && i in store && CellsMean(m, delta, store[i], i, e)
    requires Primary(slots, i, pos) && Extends(e.primary, Intents(slots))
    requires |xs| == |delta| && forall k :: 0 <= k < |xs| ==> delta[k] in m && m[delta[k]].rid >= 0 && xs[k] == AsLoaded(m[delta[k]])
    ensures |xs| == |slots[pos].image.tree| && forall k :: 0 <= k < |xs| ==> NodeAt(slots, store, (pos, k), xs[k])
  {
    hide LoadedMeans, CellMeans, Extends, AsLoaded;
    forall k | 0 <= k < |xs| ensures NodeAt(slots, store, (pos, k), xs[k]) {
      CellLoaded(slots, m[delta[k]], store[i][k], i, e);
    }
  }

  lemma PrimaryOf(slots: seq<Slot>, i: nat, pos: nat)
    requires Primary(slots, i, pos)
    ensures pos < |slots| && slots[pos].Image? && slots[pos].image.intention == i
  {
  }

  lemma KnowsPrimary(slots: seq<Slot>, primary: map<nat, nat>, i: nat, pos: nat)
    requires Primary(slots, i, pos) && Extends(primary, Intents(slots))
    ensures Extends(primary[pos := i], Intents(slots)) && pos < |slots| && slots[pos].Image?
  {
  }

  /** The cache takes the nodes of a delta over. */
  method CacheDelta(cache: NodeCache, slots: seq<Slot>, i: nat, pos: nat, delta: seq<Node>,
                    others: bool, bound: nat, ghost m: Memory, ghost store: Store, ghost primary: map<nat, nat>)
    returns (ok: bool, root: Option<NodeAddress>)
    requires cache.Valid(slots, store) && Primary(slots, i, pos) && Extends(primary, Intents(slots)) && i in store
    requires CellsMean(m, delta, store[i], i, Env(NOBODY, primary)) && forall n | n in delta :: n in m && n.Holds(m[n])
    modifies cache`shards, cache`usedBytes, cache.intentions
    ensures cache.Valid(slots, store) && pos < |slots| && slots[pos].Image? && |delta| == |slots[pos].image.tree|
    ensures !others ==>
      && (ok <==> cache.Lacks(old(cache.shards), pos, |delta|))
      && (ok ==> cache.GainsImage(old(cache.shards), cache.shards, pos, |delta|))
    ensures bound <= i && cache.Lacks(old(cache.shards), pos, |delta|) ==> ok
    ensures cache.GainsBelow(slots, old(cache.shards), cache.shards, cache.Above(bound, i))
  {
    hide *;
    PrimaryOf(slots, i, pos);
    cache.SetIntentionMapping(i, pos, slots, store);
    cache.AllWritten(slots, store);
    KnowsPrimary(slots, primary, i, pos);
    var xs := Load(delta, m, store[i], i, Env(NOBODY, primary));
    DeltaLoaded(slots, store, m, delta, i, pos, Env(NOBODY, primary), xs);
    ok, root := cache.ApplyAfterImageDelta(slots, xs, pos, others, bound, store);
  }

  /** What the finalizer does when the after image of intention `i` has appeared at
      `pos`. The nodes that the cache gets are those that the log holds there, whoever
      has written it, up to the form in which pointers name their targets; `ok` says
      whether the cache could take them: it could unless one of them had been fetched
      before, and that cannot have been as long as after images are finalized in the
      order of their intentions and nobody fetches nodes of later intentions. */
  method FinalizeAfterImage(db: Database, cache: NodeCache, slots: seq<Slot>, i: nat, pos: nat, delta: seq<Node>,
                            others: bool, bound: nat)
    returns (ok: bool, root: Option<NodeAddress>)
    requires db.Valid(AsLog(slots)) && i in db.pending && i < pos && pos !in db.primary
    requires delta == OwnList(db.pending[i].shape, db.pending[i].owned)
    requires cache.Valid(slots, db.processor.H().store) && Primary(slots, i, pos) && Extends(db.primary, Intents(slots))
    modifies db, db.pending[i], db.pending[i].owned, TreesOf(db.running, db.pending)`memory, TreesOf(db.running, db.pending)`primary
    modifies cache`shards, cache`usedBytes, cache.intentions
    ensures db.Valid(AsLog(slots)) && db.pending == old(db.pending) - {i} && db.processor.H() == old(db.processor.H())
    ensures db.primary == old(db.primary)[pos := i] && pos < |slots| && slots[pos].Image? && |delta| == |slots[pos].image.tree|
    ensures Extends(db.primary, Intents(slots)) && cache.Valid(slots, db.processor.H().store)
    ensures !others ==>
      && (ok <==> cache.Lacks(old(cache.shards), pos, |delta|))
      && (ok ==> cache.GainsImage(old(cache.shards), cache.shards, pos, |delta|))
    ensures bound <= i && cache.Settled(slots, old(cache.shards), i) ==> ok && cache.Settled(slots, cache.shards, i + 1)
  {
    hide *;
    PrimaryOf(slots, i, pos);
    cache.SettledWithout(slots, cache.shards, pos, |delta|);
    KnowsPrimary(slots, db.primary, i, pos);
    db.Finalize(AsLog(slots), i, pos, delta);
    ok, root := CacheDelta(cache, slots, i, pos, delta, others, bound, db.nodes, db.processor.H().store, db.primary);
    cache.SettledStill(slots, old(cache.shards), cache.shards, i, bound);
  }

  /** An intention is processed and, if it commits, its after image is appended to the
      log. None of the nodes there can be in the cache yet. */
  method CommitAndWrite(db: Database, cache: NodeCache, slots: seq<Slot>, pos: nat)
    returns (committed: bool, later: seq<Slot>, delta: seq<Node>)
    requires db.Valid(AsLog(slots)) && cache.Valid(slots, db.processor.H().store) && Extends(db.primary, Intents(slots))
    requires db.processor.lastProcessed < pos < |slots| && slots[pos].Record? && Admissible(AsLog(slots), db.processor.H(), pos)
    modifies db, db.processor, db.Handed(pos)
    ensures db.Valid(AsLog(later)) && cache.Valid(later, db.processor.H().store) && Extends(db.primary, Intents(later))
    ensures db.processor.H() == Step(AS_CODED, AsLog(slots), old(db.processor.H()), pos, db.processor.limit)
    ensures committed == Commits(AS_CODED, AsLog(slots), old(db.processor.H().db), slots[pos].intention)
    ensures db.primary == old(db.primary) && db.running <= old(db.running) && db.processor.lastProcessed == pos
    ensures if committed then ImageAppended(slots, later, pos) && Primary(later, pos, |slots|) else later == slots
    ensures !committed ==> db.pending == old(db.pending)
    ensures committed ==> pos in db.pending && db.pending == old(db.pending)[pos := db.pending[pos]] && |slots| !in db.primary
    ensures committed ==> delta == OwnList(db.pending[pos].shape, db.pending[pos].owned)
    ensures committed ==> fresh({db.pending[pos]} - old(db.Handed(pos))) && fresh(db.pending[pos].owned - old(db.Handed(pos)))
    ensures cache.shards == old(cache.shards) && cache.LacksAll(cache.shards, |slots|)
  {
    hide *;
    RecordAsLog(slots, pos);
    later, delta := slots, [];
    ghost var h := db.processor.H();
    db.Parts(AsLog(slots));
    Unwritten(AsLog(slots), h, pos);
    HandedApart(db, cache, pos);
    cache.NotBehind(slots, h.store);
    committed := db.Process(AsLog(slots), pos);
    StepWorld(AsLog(slots), h, pos, db.processor.limit, db.processor.H());
    if committed {
      Followed(AsLog(slots), h, pos, db.processor.H());
      var es;
      es, delta := db.Write(AsLog(slots), pos, map[]);
      later := slots + [Image(AfterImage(pos, es))];
      ImageFacts(db, cache, slots, h.store, pos, es);
      db.LogGrows(AsLog(slots), AsLog(later)[|slots|..]);
    }
  }

  /** The whole way of one intention: when its after image has been appended, pointers are
      renamed, and the cache takes the nodes over. */
  method CommitAndFinalize(db: Database, cache: NodeCache, slots: seq<Slot>, pos: nat)
    returns (committed: bool, later: seq<Slot>, ok: bool)
    requires db.Valid(AsLog(slots)) && cache.Valid(slots, db.processor.H().store) && Extends(db.primary, Intents(slots))
    requires db.processor.lastProcessed < pos < |slots| && slots[pos].Record? && Admissible(AsLog(slots), db.processor.H(), pos)
    modifies db, db.processor, db.Handed(pos), TreesOf(db.running, db.pending)`memory, TreesOf(db.running, db.pending)`primary
    modifies cache`shards, cache`usedBytes, cache.intentions
    ensures db.Valid(AsLog(later)) && cache.Valid(later, db.processor.H().store) && Extends(db.primary, Intents(later))
    ensures db.processor.H() == Step(AS_CODED, AsLog(slots), old(db.processor.H()), pos, db.processor.limit)
    ensures committed == Commits(AS_CODED, AsLog(slots), old(db.processor.H().db), slots[pos].intention)
    ensures if committed then ImageAppended(slots, later, pos) else later == slots
    ensures committed ==>
      && ok && cache.GainsImage(old(cache.shards), cache.shards, |slots|, |later[|slots|].image.tree|)
      && db.primary == old(db.primary)[|slots| := pos] && db.pending == old(db.pending) - {pos}
  {
    hide *;
    TreesAre(db.running, db.pending);
    ok := true;
    var delta;
    committed, later, delta := CommitAndWrite(db, cache, slots, pos);
    if committed {
      TreesAre(db.running, db.pending);
      PrimaryOf(later, pos, |slots|);
      cache.LacksEach(cache.shards, |slots|, |delta|);
      var root;
      ok, root := FinalizeAfterImage(db, cache, later, pos, |slots|, delta, false, 0);
    }
  }

  /** What the processor writes is not part of the cache. */
  lemma HandedApart(db: Database, cache: NodeCache, pos: nat)
    ensures cache !in db.Handed(pos) && cache.intentions !in db.Handed(pos)
  {
  }

  lemma Unwritten(log: Log, h: History, pos: nat)
    requires Inv(log, h) && Admissible(log, h, pos)
    ensures pos !in h.store
  {
    hide Inv;
    StoreBelow(log, h);
  }

  lemma Followed(log: Log, h: History, pos: nat, next: History)
    requires Follows(log, h, pos, next)
    ensures pos in next.store && next.store == h.store[pos := next.store[pos]]
  {
    hide NextRoot, Entries;
  }

  ghost predicate ImageAppended(slots: seq<Slot>, later: seq<Slot>, pos: nat) {
    |later| == |slots| + 1 && slots <= later && later[|slots|].Image? && later[|slots|].image.intention == pos
  }

  lemma RecordAsLog(slots: seq<Slot>, pos: nat)
    requires pos < |slots| && slots[pos].Record?
    ensures AsLog(slots)[pos] == IntentionEntry(slots[pos].intention) && Ops(AsLog(slots), pos) == slots[pos].intention.ops
  {
  }

  /** All that is needed to go on after the after image has been appended. */
  lemma ImageFacts(db: Database, cache: NodeCache, slots: seq<Slot>, store: Store, pos: nat, es: seq<NodeEntry>)
    requires cache.Valid(slots, store) && Extends(db.primary, Intents(slots)) && pos !in store && pos < |slots|
    requires pos in db.processor.H().store && db.processor.H().store == store[pos := db.processor.H().store[pos]]
    requires Means(es, db.processor.H().store[pos], db.primary)
    ensures var later := slots + [Image(AfterImage(pos, es))];
      && ImageAppended(slots, later, pos) && later[|slots|].image.tree == es
      && cache.Valid(later, db.processor.H().store) && Primary(later, pos, |slots|) && Extends(db.primary, Intents(later))
      && |slots| !in db.primary && AsLog(slots) + AsLog(later)[|slots|..] == AsLog(later)
    ensures cache.LacksAll(cache.shards, |slots|)
  {
    hide *;
    var next, more := db.processor.H().store, [Image(AfterImage(pos, es))];
    cache.AllWritten(slots, store);
    CommitWritten(slots, store, pos, next[pos]);
    AppendImage(slots, next, pos, es, db.primary);
    cache.StaysValid(slots, store, more, next);
    FirstImage(slots, store, pos, es, db.primary);
    ReadOn(slots, store, more);
    cache.NotBehind(slots, store);
  }

  /** The first after image of an intention has been appended. */
  lemma FirstImage(slots: seq<Slot>, store: Store, pos: nat, es: seq<NodeEntry>, primary: map<nat, nat>)
    requires Written(slots, store) && pos !in store && pos < |slots| && Extends(primary, Intents(slots))
    ensures var later := slots + [Image(AfterImage(pos, es))];
      && ImageAppended(slots, later, pos) && later[|slots|].image.tree == es && Primary(later, pos, |slots|)
      && Extends(primary, Intents(later)) && |slots| !in primary
  {
    hide Means;
    IntentsMore(slots, [Image(AfterImage(pos, es))]);
  }

  lemma ReadOn(slots: seq<Slot>, store: Store, more: seq<Slot>)
    requires Written(slots, store)
    ensures AsLog(slots) + AsLog(slots + more)[|slots|..] == AsLog(slots + more)
  {
    hide AsLog, Written, Resolved;
    WrittenExactly(slots, store);
    AsLogMore(slots, more);
  }

  lemma TreesAre(txs: set<Transaction>, pending: map<nat, PersistentTree>)
    ensures TreesOf(txs, pending) == (set tx | tx in txs :: tx.tree) + pending.Values
  {
  }

  // ------------------------------------------------------------- the log goes on

  /** The after image that `Write` makes of a commit may be appended to the log: it
      means what the commit made, like all the others there. */
  lemma AppendImage(slots: seq<Slot>, store: Store, i: nat, es: seq<NodeEntry>, primary: map<nat, nat>)
    requires Written(slots, store) && i in store && i < |slots| && Means(es, store[i], primary) && Extends(primary, Intents(slots))
    ensures Written(slots + [Image(AfterImage(i, es))], store)
  {
    hide EntryMeans;
    var all := slots + [Image(AfterImage(i, es))];
    IntentsMore(slots, [Image(AfterImage(i, es))]);
    forall p | 0 <= p < |all| && all[p].Image?
      ensures var image := all[p].image;
        image.intention < p && image.intention in store && Means(image.tree, store[image.intention], Intents(all))
    {
      if p < |slots| {
        assert all[p] == slots[p];
        MeansMore(slots[p].image.tree, store[slots[p].image.intention], Intents(slots), Intents(all));
      } else {
        MeansMore(es, store[i], primary, Intents(all));
      }
    }
  }

  /** So may anything else. */
  lemma AppendRecord(slots: seq<Slot>, store: Store, s: Slot)
    requires Written(slots, store) && !s.Image?
    ensures Written(slots + [s], store)
  {
    hide EntryMeans;
    var all := slots + [s];
    IntentsMore(slots, [s]);
    forall p | 0 <= p < |all| && all[p].Image?
      ensures var image := all[p].image;
        image.intention < p && image.intention in store && Means(image.tree, store[image.intention], Intents(all))
    {
      assert all[p] == slots[p];
      MeansMore(slots[p].image.tree, store[slots[p].image.intention], Intents(slots), Intents(all));
    }
  }

  lemma IntentsMore(slots: seq<Slot>, more: seq<Slot>)
    ensures Extends(Intents(slots), Intents(slots + more))
  {
  }

  lemma MeansMore(es: seq<NodeEntry>, ds: seq<Entry>, primary: map<nat, nat>, later: map<nat, nat>)
    requires Means(es, ds, primary) && Extends(primary, later)
    ensures Means(es, ds, later)
  {
    forall k | 0 <= k < |es| ensures EntryMeans(es[k], ds[k], later) {
      assert EntryMeans(es[k], ds[k], primary);
    }
  }

  /** A further commit does not affect the after images in the log. */
  lemma CommitWritten(slots: seq<Slot>, store: Store, i: nat, ds: seq<Entry>)
    requires Written(slots, store) && i !in store
    ensures Written(slots, store[i := ds])
  {
    hide Means;
  }
}
