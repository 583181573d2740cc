/** Opening a database: on a new log, or on the last commit that has an after image in
    an old one. Its tree is read out of after images and linked in memory, and the
    database that stands on it processes the rest of the log. */
module Openings {
  import opened Basics
  import opened Keys
  import opened Trees
  import opened TreeOps
  import opened Sharing
  import opened Nodes
  import opened Shapes
  import opened Deltas
  import opened Positions
  import opened Intentions
  import opened Infection
  import opened Serialization
  import opened Catalogs
  import opened Histories
  import opened Serializability
  import opened Restarts
  import opened Processors
  import opened PersistentTrees
  import opened CommitTrees
  import opened Databases
  import opened NodeCaches
  import opened Logs
  import opened Finalizers

  // ------------------------------------------------------------------ a new log

  /** The first entries of a log: a filled position, the intention that lists itself as
      committed, and its after image. */
  method NewLog() returns (slots: seq<Slot>)
    ensures |slots| == 3 && slots[0] == Hole && slots[1] == Record(Intention(0, 0, false, FIRST_OPS))
    ensures slots[2].Image? && slots[2].image.intention == 1 && Written(slots, First().store)
  {
    hide CommitKey, PutT, DeleteT, View, ValidTree, Layered, Place, FreshCount, Contents, Entries, Means, Outside, Foreign;
    hide PersistentTree.Valid, PersistentTree.Tree, PersistentTree.Synced;
    EmptyTree();
    FirstDelta();
    var tree := new PersistentTree(NIL_PTR, -1, map[], {}, map[], SNil);
    tree.Put(CommitKey(1), "");
    FirstPlaced(tree);
    var es, delta := tree.SerializeAfterImage(1, map[], Env(NOBODY, map[]));
    slots := [Hole, Record(Intention(0, 0, false, FIRST_OPS)), Image(AfterImage(1, es))];
    FirstWritten(slots, es);
  }

  lemma EmptyTree()
    ensures View(map[], NIL_PTR, SNil, Env(-1, map[])) == Some(Nil) && ValidTree(Nil) && forall k :: k !in Contents(Nil)
  {
    EmptyValid();
  }

  /** The first tree is one node, which needs no addresses. */
  lemma FirstPlaced(tree: PersistentTree)
    requires tree.Valid() && tree.rid == -1 && tree.primary == map[] && tree.others == {} && tree.root.Some? && tree.root.value != null
    requires tree.Tree() == PutT(Nil, CommitKey(1), "")
    ensures Foreign(tree.Tree(), 1) && Outside(tree.memory, NOBODY) && 0 < FreshCount(tree.Tree()) <= OFFSETS
    ensures View(tree.memory, NodePtr(tree.root.value, Some(NodeAddress(1, FreshCount(tree.Tree()) - 1, false))), tree.shape,
                 Env(NOBODY, map[])) == Some(Place(tree.Tree(), 1, 0).0)
  {
    hide CommitKey, PutT, ValidTree, Layered, View, Flat, PersistentTree.Valid, PersistentTree.Tree;
    var t := tree.Tree();
    EmptyValid();
    PutSize(Nil, CommitKey(1), "");
    TreeViews(tree);
    tree.Members();
    ViewNode(tree.memory, tree.Base(), tree.shape, tree.E());
    OneNode(t);
    OneNodeView(tree.memory, tree.Base(), tree.shape, t, tree.E());
  }

  lemma OneNode(t: Tree)
    requires |Flat(t)| <= 1 && t.Node?
    ensures t.left == Nil && t.right == Nil
  {
  }

  lemma OneNodeView(m: Memory, p: NodePtr, t: Shape, a: Tree, e: Env)
    requires View(m, p, t, e) == Some(a) && a.Node? && a.left == Nil && a.right == Nil
    requires e == Env(-1, map[]) && forall n | n in m :: m[n].rid == -1
    ensures a.where == Fresh && FreshCount(a) == 1
    ensures View(m, NodePtr(p.ref, Some(NodeAddress(1, 0, false))), t, Env(NOBODY, map[])) == Some(Place(a, 1, 0).0)
  {
  }

  lemma FirstWritten(slots: seq<Slot>, es: seq<NodeEntry>)
    requires slots == [Hole, Record(Intention(0, 0, false, FIRST_OPS)), Image(AfterImage(1, es))]
    requires Means(es, Entries(FirstRoot(), 1), map[])
    ensures Written(slots, First().store)
  {
    hide FirstRoot, Entries;
    MeansMore(es, Entries(FirstRoot(), 1), map[], Intents(slots));
  }

  // ------------------------------------------------------------- an existing log

  /** All that is supposed of a log that is opened. */
  ghost predicate CanOpen(slots: seq<Slot>, limit: nat) {
    Resolved(slots) && Openable(AS_CODED, AsLog(slots), limit)
  }

  /** After images are those of the commits, and each of these has one. */
  ghost predicate ReadsBack(slots: seq<Slot>, h: History) {
    Written(slots, h.store) && Present(slots, h.store) && forall i | i in h.store :: i in h.commits
  }

  /** All commits up to the restore point can be read back. */
  lemma PointWritten(slots: seq<Slot>, point: nat, l: nat)
    requires CanOpen(slots, l) && LastImaged(AsLog(slots), point)
    ensures ReadsBack(slots, RunTo(AS_CODED, AsLog(slots), point, l))
  {
    hide *;
    var log := AsLog(slots);
    var h := RunTo(AS_CODED, log, point, l);
    CanOpenParts(slots, l);
    OpenFacts(AS_CODED, log, point, l);
    ImagesBelow(log, point, l);
    WrittenExactly(slots, h.store);
    RecordedPresent(slots, h);
    IsReadBack(slots, h);
  }

  lemma IsReadBack(slots: seq<Slot>, h: History)
    requires Written(slots, h.store) && Present(slots, h.store) && forall i | i in h.store :: i in h.commits
    ensures ReadsBack(slots, h)
  {
    hide Written, Present;
  }

  lemma RecordedPresent(slots: seq<Slot>, h: History)
    requires Recorded(AsLog(slots), h) && ImagesFollow(AsLog(slots))
    ensures Present(slots, h.store)
  {
    hide Recorded, AsLog, Primary, ImagesFollow;
    forall i | i in h.store ensures exists pos: nat :: Primary(slots, i, pos) {
      RecordedPrimary(slots, h, i);
    }
  }

  /** No after image is that of a later intention. */
  lemma ImagesBelow(log: Log, point: nat, l: nat)
    requires Openable(AS_CODED, log, l) && LastImaged(log, point)
    ensures var h := RunTo(AS_CODED, log, point, l);
      && (forall p :: 0 <= p < |log| && log[p].AfterImageEntry? ==> log[p].ipos in h.store && log[p].entries == h.store[log[p].ipos])
      && forall i | i in h.store :: i in h.commits
  {
    hide Run, FirstRoot, Entries, AllAdmissible;
    var h := RunTo(AS_CODED, log, point, l);
    assert forall i :: i in First().store <==> i in First().commits;
    StoreGrows(AS_CODED, log, First(), 2, point + 1, l);
    RunSplit(AS_CODED, log, First(), 2, point + 1, |log|, l);
    StoreGrows(AS_CODED, log, h, point + 1, |log|, l);
    forall p | 0 <= p < |log| && log[p].AfterImageEntry? ensures log[p].ipos in h.store && log[p].entries == h.store[log[p].ipos] {
      assert HasImage(log, log[p].ipos);
    }
  }

  lemma RecordedPrimary(slots: seq<Slot>, h: History, i: nat)
    requires Recorded(AsLog(slots), h) && i in h.store && ImagesFollow(AsLog(slots))
    ensures exists pos: nat :: Primary(slots, i, pos)
  {
    hide EntriesOf, Intents;
    var log := AsLog(slots);
    LogStoreEarliest(log, i);
    var p: nat :| p < |log| && log[p].AfterImageEntry? && log[p].ipos == i;
    var ai := EarliestOf(log, i, p);
    assert forall q :: 0 <= q < ai && slots[q].Image? ==> log[q].AfterImageEntry?;
    assert Primary(slots, i, ai);
  }

  /** Opens a database on the last commit that has an after image: the root comes out of
      the earliest one. */
  method OpenDatabase(slots: seq<Slot>, limit: nat, cacheSize: nat, imapSize: nat, hash: Address -> nat)
    returns (db: Database, cache: NodeCache)
    requires CanOpen(slots, limit) && imapSize > 0
    ensures fresh(db) && fresh(db.processor) && fresh(cache) && fresh(cache.intentions)
    ensures var log, point := AsLog(slots), db.processor.lastProcessed;
      && db.Valid(log) && 1 <= point < |log| && LastImaged(log, point) && db.processor.limit == limit
      && var h := RunTo(AS_CODED, log, point, limit);
      && db.processor.H() == h.(db := h.db.(index := [])) && cache.Valid(slots, h.store) && cache.Settled(slots, cache.shards, point + 1)
    ensures db.primary == Intents(slots) && db.running == {} && db.finished == map[] && db.pending == map[]
  {
    hide *;
    CanOpenParts(slots, limit);
    var log := AsLog(slots);
    var replayStart, afterImage, start := Open(log, AS_CODED, limit);
    ghost var h := RunTo(AS_CODED, log, replayStart - 1, limit);
    PointWritten(slots, replayStart - 1, limit);
    ReadsParts(slots, h);
    ImageAt(slots, replayStart - 1, afterImage);
    RootDecoded(log, h);
    NobodyBelow();
    cache := new NodeCache(cacheSize, imapSize, hash, slots, h.store);
    ghost var s1 := cache.shards;
    ghost var e := Env(NOBODY, Intents(slots));
    var root;
    ghost var m, t;
    root, m, t := cache.ReadRoot(slots, afterImage, replayStart, h.store, e);
    var processor := new Processor(log, start, limit, h);
    cache.SettledGains(slots, s1, cache.shards, replayStart);
    OpenedRooted(slots, log, h, root, m, t);
    ProcessorIs(processor);
    db := new Database(log, processor, root, m, t, Intents(slots));
  }

  lemma CanOpenParts(slots: seq<Slot>, limit: nat)
    requires CanOpen(slots, limit)
    ensures Openable(AS_CODED, AsLog(slots), limit) && WellBegun(AsLog(slots))
    ensures Resolved(slots) && ImagesFollow(AsLog(slots))
  {
    hide WellBegun, AllAdmissible, Imaged, ImagesFollow, HasImage, AsLog, Resolved;
  }

  lemma NobodyBelow()
    ensures NOBODY < 0
  {
  }

  lemma ProcessorIs(p: Processor)
    ensures p.H().db.root == p.root && p.H().db.snapshot == p.rootSnapshot
  {
  }

  lemma ReadsParts(slots: seq<Slot>, h: History)
    requires ReadsBack(slots, h)
    ensures Written(slots, h.store) && Present(slots, h.store)
  {
    hide Written, Present;
  }

  lemma ImageAt(slots: seq<Slot>, point: nat, afterImage: nat)
    requires Earliest(AsLog(slots), point, afterImage)
    ensures afterImage < |slots| && slots[afterImage].Image? && slots[afterImage].image.intention == point
  {
    hide EntriesOf, Intents;
  }

  /** The root of a commit is the last entry of its after image. */
  lemma RootDecoded(log: Log, h: History)
    requires Inv(log, h)
    ensures h.db.snapshot in h.store && h.store[h.db.snapshot] != [] && WellLinked(h.store)
    ensures Decode(h.store, h.db.snapshot, |h.store[h.db.snapshot]| - 1) == Some(h.db.root)
  {
    hide WellLinked, Catalogued, Recent, SerialMap, ValidTree, Contents, Decode;
  }

  /** The nodes that have been read are those of commits. */
  lemma OpenedRooted(slots: seq<Slot>, log: Log, h: History, root: NodePtr, m: Memory, t: Shape)
    requires Inv(log, h) && ReadsBack(slots, h) && Loaded(m, root, t, h.store, Env(NOBODY, Intents(slots)), h.db.root)
    ensures Rooted(World(m, Intents(slots), FirstTrees(h.db.snapshot, h.db.root), h.(db := h.db.(index := []))), root, t)
  {
    hide View, Inv, Means, Present;
    StoreBelow(log, h);
    var w := World(m, Intents(slots), FirstTrees(h.db.snapshot, h.db.root), h.(db := h.db.(index := [])));
    forall n | n in m ensures m[n].rid in Rids(w) {
      assert m[n].rid in h.commits;
    }
  }

  // ----------------------------------------------------------- rolling forward

  /** Processes the rest of the log in order: the whole history that `Run` describes. */
  method RollForward(db: Database, log: Log)
    requires db.Valid(log) && db.finished == map[] && db.processor.lastProcessed < |log|
    requires AllAdmissible(AS_CODED, log, db.processor.H(), db.processor.lastProcessed + 1, |log|, db.processor.limit)
    modifies db, db.processor
    ensures db.Valid(log) && db.processor.lastProcessed < |log|
    ensures db.processor.H() ==
      Run(AS_CODED, log, old(db.processor.H()), old(db.processor.lastProcessed) + 1, |log|, db.processor.limit)
  {
    hide *;
    ghost var h, start, limit := db.processor.H(), db.processor.lastProcessed + 1, db.processor.limit;
    RunNothing(log, h, start, limit);
    for pos := db.processor.lastProcessed + 1 to |log|
      invariant db.Valid(log) && db.finished == map[] && db.processor.lastProcessed < pos
      invariant db.processor.H() == Run(AS_CODED, log, h, start, pos, limit)
    {
      RunMore(log, h, start, pos, limit);
      if log[pos].IntentionEntry? {
        NothingHanded(db, pos);
        var committed := db.Process(log, pos);
      } else {
        OtherEntry(log, db.processor.H(), pos, limit);
      }
    }
  }

  lemma RunNothing(log: Log, h: History, start: nat, limit: nat)
    ensures Run(AS_CODED, log, h, start, start, limit) == h
  {
  }

  lemma RunMore(log: Log, h: History, start: nat, pos: nat, limit: nat)
    requires AllAdmissible(AS_CODED, log, h, start, |log|, limit) && start <= pos < |log|
    ensures Admissible(log, Run(AS_CODED, log, h, start, pos, limit), pos)
    ensures Run(AS_CODED, log, h, start, pos + 1, limit) == Step(AS_CODED, log, Run(AS_CODED, log, h, start, pos, limit), pos, limit)
  {
    hide Admissible, Step;
  }

  lemma NothingHanded(db: Database, pos: nat)
    requires db.finished == map[]
    ensures db.Handed(pos) == {}
  {
  }

  lemma NoneHangsIs(log: Log, limit: nat, point: nat)
    requires NoneHangsFrom(AS_CODED, log, limit, point)
    ensures NoneHangs(AS_CODED, log, RunTo(AS_CODED, log, point, limit), point + 1, |log|, limit, point)
  {
    hide NoneHangs, Run;
  }

  /** The log alone determines the database: one that has been opened on a log and has
      processed it to its end has the state of one that has been running since the log
      began, and its root in memory stands for that tree, if no decision hangs on the
      index. */
  method Reopen(slots: seq<Slot>, limit: nat, cacheSize: nat, imapSize: nat, hash: Address -> nat)
    returns (db: Database, cache: NodeCache)
    requires CanOpen(slots, limit) && imapSize > 0
    requires forall point :: LastImaged(AsLog(slots), point) ==> NoneHangsFrom(AS_CODED, AsLog(slots), limit, point)
    ensures fresh(db) && db.Valid(AsLog(slots))
    ensures SameState(Run(AS_CODED, AsLog(slots), First(), 2, |slots|, limit), db.processor.H())
  {
    hide *;
    CanOpenParts(slots, limit);
    var log := AsLog(slots);
    db, cache := OpenDatabase(slots, limit, cacheSize, imapSize, hash);
    assert NoneHangsFrom(AS_CODED, log, limit, db.processor.lastProcessed);
    NoneHangsIs(log, limit, db.processor.lastProcessed);
    OpenFacts(AS_CODED, log, db.processor.lastProcessed, limit);
    RollForward(db, log);
  }

  // ------------------------------------------------------------- a new database

  lemma NewOpenable(slots: seq<Slot>, limit: nat)
    requires |slots| == 3 && slots[0] == Hole && slots[1] == Record(Intention(0, 0, false, FIRST_OPS))
    requires slots[2].Image? && slots[2].image.intention == 1 && Written(slots, First().store)
    ensures CanOpen(slots, limit) && forall point :: LastImaged(AsLog(slots), point) ==> point == 1
    ensures RunTo(AS_CODED, AsLog(slots), 1, limit) == First()
  {
    hide Entries, FirstRoot, EntriesOf, Intents;
    var log := AsLog(slots);
    WrittenExactly(slots, First().store);
    assert HasImage(log, 1);
    assert Run(AS_CODED, log, First(), 2, 2, limit) == First();
    assert Run(AS_CODED, log, First(), 2, 3, limit) == First();
  }

  /** A database on a new log. */
  method NewDatabase(limit: nat, cacheSize: nat, imapSize: nat, hash: Address -> nat)
    returns (slots: seq<Slot>, db: Database, cache: NodeCache)
    requires imapSize > 0
    ensures fresh(db) && fresh(db.processor) && fresh(cache) && fresh(cache.intentions)
    ensures |slots| == 3 && WellBegun(AsLog(slots)) && db.Valid(AsLog(slots))
    ensures cache.Valid(slots, First().store) && cache.Settled(slots, cache.shards, 2)
    ensures db.processor.H() == First() && db.processor.lastProcessed == 1 && db.processor.limit == limit
    ensures db.primary == Intents(slots) && db.running == {} && db.finished == map[] && db.pending == map[]
  {
    hide *;
    slots := NewLog();
    NewOpenable(slots, limit);
    CanOpenParts(slots, limit);
    db, cache := OpenDatabase(slots, limit, cacheSize, imapSize, hash);
    FirstAgain();
  }

  lemma FirstAgain()
    ensures First().(db := First().db.(index := [])) == First()
  {
    hide FirstRoot, Entries;
  }

  // ------------------------------------- an after image that is fetched too early

  /** The assertion of the finalizer fails in the very first commit of a new database, if
      somebody fetches a node of its after image in between. */
  method FetchedFirst(k: Key, limit: nat, cacheSize: nat, imapSize: nat, hash: Address -> nat) returns (ok: bool)
    requires imapSize > 0
    ensures !ok
  {
    hide *;
    var first, db, cache := NewDatabase(limit, cacheSize, imapSize, hash);
    var slots := first + [Record(Intention(1, 0, false, [Put(User(k), "")]))];
    PutAppended(first, slots, db, cache, k);
    NothingHanded(db, 3);
    var committed, later, delta := CommitAndWrite(db, cache, slots, 3);
    RecordAsLog(slots, 3);
    SnapshotAfter(AsLog(slots), First(), 3, limit);
    PrimaryOf(later, 3, 4);
    ImageNotEmpty(db, cache, later, 4);
    ghost var n, before := |later[4].image.tree|, cache.shards;
    var root, node := cache.CacheAfterImage(later, 4, false, 4, db.processor.H().store);
    cache.HasFirst(before, cache.shards, 4, n);
    TreesAre(db.running, db.pending);
    ok, root := FinalizeAfterImage(db, cache, later, 3, 4, delta, false, 0);
  }

  /** A transaction that puts one key has been appended, and will commit. */
  lemma PutAppended(first: seq<Slot>, slots: seq<Slot>, db: Database, cache: NodeCache, k: Key)
    requires |first| == 3 && db.Valid(AsLog(first)) && cache.Valid(first, First().store) && WellBegun(AsLog(first))
    requires db.processor.H() == First() && db.processor.lastProcessed == 1 && db.primary == Intents(first)
    requires slots == first + [Record(Intention(1, 0, false, [Put(User(k), "")]))]
    ensures |slots| == 4 && slots[3].Record? && db.Valid(AsLog(slots)) && cache.Valid(slots, First().store)
    ensures Admissible(AsLog(slots), First(), 3) && Commits(AS_CODED, AsLog(slots), First().db, slots[3].intention)
    ensures Extends(db.primary, Intents(slots))
  {
    hide *;
    var s := Record(Intention(1, 0, false, [Put(User(k), "")]));
    cache.AllWritten(first, First().store);
    AppendRecord(first, First().store, s);
    cache.StaysValid(first, First().store, [s], First().store);
    ReadOn(first, First().store, [s]);
    IntentsMore(first, [s]);
    db.LogGrows(AsLog(first), AsLog(slots)[3..]);
    db.Parts(AsLog(slots));
    RecordAsLog(slots, 3);
    StillBegun(AsLog(first), AsLog(slots));
    FirstPut(AsLog(slots), k);
  }

  lemma StillBegun(log: Log, later: Log)
    requires WellBegun(log) && log <= later
    ensures WellBegun(later)
  {
  }

  lemma FirstPut(log: Log, k: Key)
    requires WellBegun(log) && |log| == 4 && log[3] == IntentionEntry(Intention(1, 0, false, [Put(User(k), "")]))
    ensures Admissible(log, First(), 3) && Commits(AS_CODED, log, First().db, log[3].intention)
  {
    hide Inv, Flat, FirstRoot, Entries, User, NextRoot, Push, Admissible, Conflicts, Checked;
    FirstSize(log);
    PutStep(AS_CODED, log, First(), 3, k, 0);
  }

  lemma ImageNotEmpty(db: Database, cache: NodeCache, slots: seq<Slot>, pos: nat)
    requires db.Valid(AsLog(slots)) && cache.Valid(slots, db.processor.H().store)
    requires pos < |slots| && slots[pos].Image? && slots[pos].image.intention == db.processor.H().db.snapshot
    ensures slots[pos].image.tree != []
  {
    hide *;
    db.Parts(AsLog(slots));
    RootDecoded(AsLog(slots), db.processor.H());
    cache.AllWritten(slots, db.processor.H().store);
    ImageLength(slots, db.processor.H().store, pos);
  }

  lemma ImageLength(slots: seq<Slot>, store: Store, pos: nat)
    requires Written(slots, store) && pos < |slots| && slots[pos].Image?
    ensures slots[pos].image.intention in store && |slots[pos].image.tree| == |store[slots[pos].image.intention]|
  {
    hide EntryMeans, Intents;
  }

  lemma SnapshotAfter(log: Log, h: History, pos: nat, limit: nat)
    requires pos < |log| && log[pos].IntentionEntry? && Commits(AS_CODED, log, h.db, log[pos].intention)
    ensures Step(AS_CODED, log, h, pos, limit).db.snapshot == pos
  {
    hide Commits, NextRoot, Entries, Push;
  }
}
