/** The database in memory: clients run transactions on the nodes of the last commit,
    the processor builds the next root beside them, and the finalizer renames
    pointers in nodes that all of them share. */
module Databases {
  import opened Basics
  import opened Keys
  import opened Trees
  import opened Zippers
  import opened TreeOps
  import opened Sharing
  import opened Nodes
  import opened Shapes
  import opened Deltas
  import opened Positions
  import opened Intentions
  import opened Infection
  import opened Serialization
  import opened Catalogs
  import opened Histories
  import opened Serializability
  import opened Processors
  import opened Transactions
  import opened PersistentTrees
  import opened CommitTrees
  import opened Renewals

  /** All there is to know about the commits: what their nodes hold, the after images
      that are known, the trees that a transaction may have begun on, the history. */
  datatype World = World(nodes: Memory, primary: map<nat, nat>, trees: map<nat, Tree>, h: History)

  ghost function Rids(w: World): set<int> {
    set c | c in w.h.commits :: c as int
  }

  // ------------------------------------------------------------------- the roles

  /** The root in memory stands for the tree of the last commit. */
  ghost predicate Rooted(w: World, root: NodePtr, shape: Shape)
    reads w.nodes.Keys
  {
    && Published(w.nodes, root, shape, Rids(w), w.primary, w.h.db.root)
    && (forall p | p in w.primary :: w.primary[p] <= w.h.db.snapshot)
    && w.h.db.snapshot in w.trees && w.trees[w.h.db.snapshot] == w.h.db.root
    && (forall x | x in w.trees :: x <= w.h.db.snapshot)
  }

  /** The trees that transactions have begun on are those that replaying the log up to
      their commits gives. */
  ghost predicate Dated(log: Log, w: World) {
    forall s | s in w.trees :: s in w.h.commits && Contents(w.trees[s]) == SerialMap(log, UpTo(w.h.commits, s))
  }

  /** Nodes of others are those of commits, and hold what is known of them. */
  ghost predicate Shares(t: PersistentTree, w: World)
    reads t
  {
    && t.primary == w.primary && t.others <= Rids(w)
    && forall n | n in t.foreign :: n in t.memory && n in w.nodes && t.memory[n] == w.nodes[n]
  }

  /** A transaction that runs on one of the commits. */
  ghost predicate Runs(tx: Transaction, w: World)
    reads tx, tx.tree, tx.tree.memory.Keys
  {
    && tx.Valid() && Shares(tx.tree, w) && NOBODY < tx.tree.rid && tx.tree.owned !! w.nodes.Keys
    && tx.snapshot in w.trees && tx.base == w.trees[tx.snapshot] && tx.anchor == tx.snapshot
  }

  /** How others point to the root of the delta of intention `i`. */
  ghost function RootPtr(t: PersistentTree, i: nat): NodePtr
    requires t.Valid() && t.root.Some? && 0 < FreshCount(t.Tree()) <= OFFSETS
    reads t, t.memory.Keys
  {
    NodePtr(t.root.value, Some(NodeAddress(i, FreshCount(t.Tree()) - 1, false)))
  }

  /** A committed tree whose after image has not come back from the log yet. */
  ghost predicate Waits(t: PersistentTree, i: nat, w: World)
    reads t, t.memory.Keys
  {
    && t.Valid() && Shares(t, w) && t.rid == i && t.owned <= w.nodes.Keys
    && t.root.Some? && t.root.value != null && 0 < FreshCount(t.Tree()) <= OFFSETS && Foreign(t.Tree(), i)
    && (forall p | p in w.primary :: w.primary[p] != i)
    && i in w.h.store && w.h.store[i] == Entries(Place(t.Tree(), i, 0).0, i)
    && View(t.memory, RootPtr(t, i), t.shape, Env(NOBODY, w.primary)) == Some(Place(t.Tree(), i, 0).0)
  }

  /** The transaction has been appended to the log at `pos`. */
  predicate Appended(log: Log, tx: Transaction, pos: nat)
    reads tx
  {
    && tx.committed && pos < |log|
    && log[pos] == IntentionEntry(Intention(tx.snapshot, tx.token, false, tx.ops))
  }

  /** Running transactions keep out of each other's way. */
  ghost predicate Clients(txs: set<Transaction>, pending: map<nat, PersistentTree>, w: World)
    reads txs, set tx | tx in txs :: tx.tree, set tx, n | tx in txs && n in tx.tree.memory :: n
  {
    forall tx | tx in txs ::
      && Runs(tx, w) && tx.tree !in pending.Values
      && forall ty | ty in txs && ty != tx :: tx.tree != ty.tree && tx.tree.owned !! ty.tree.owned
  }

  /** So do the trees that wait for their after images. */
  ghost predicate Waiting(pending: map<nat, PersistentTree>, w: World)
    reads pending.Values, set i, n | i in pending && n in pending[i].memory :: n
  {
    forall i | i in pending ::
      && Waits(pending[i], i, w)
      && forall j | j in pending && j != i :: pending[i] != pending[j] && pending[i].owned !! pending[j].owned
  }

  /** What has been handed over is in the log. */
  ghost predicate Queue(log: Log, finished: map<nat, Transaction>, txs: set<Transaction>)
    reads finished.Values
  {
    && (forall p | p in finished :: finished[p] in txs && Appended(log, finished[p], p))
    && (forall p, q | p in finished && q in finished && p != q :: finished[p] != finished[q])
  }

  /** What a client may ask of its transaction. */
  datatype Request = Query(key: Key) | Write(key: Key, val: Val) | Remove(key: Key)

  class Database {
    const processor: Processor

    // The root of the last commit, the transactions that have been appended to the
    // log, and the committed trees whose after images are on their way.
    var root: NodePtr
    var finished: map<nat, Transaction>
    var pending: map<nat, PersistentTree>

    // All transactions that have begun and have not been taken over, and what there
    // is to know about the commits.
    ghost var running: set<Transaction>
    ghost var nodes: Memory
    ghost var shape: Shape
    ghost var primary: map<nat, nat>
    ghost var trees: map<nat, Tree>

    ghost function W(): World
      reads this`nodes, this`primary, this`trees, processor
    {
      World(nodes, primary, trees, processor.H())
    }

    ghost predicate Valid(log: Log)
      reads this, processor, nodes.Keys, running, finished.Values, pending.Values, set tx | tx in running :: tx.tree
      reads set tx, n | tx in running && n in tx.tree.memory :: n
      reads set i, n | i in pending && n in pending[i].memory :: n
    {
      && processor.Valid(log) && Rooted(W(), root, shape) && Dated(log, W())
      && Clients(running, pending, W()) && Waiting(pending, W()) && Queue(log, finished, running)
    }

    lemma Parts(log: Log)
      requires Valid(log)
      ensures W().nodes == nodes && W().primary == primary && W().trees == trees && W().h == processor.H()
      ensures processor.H().db.root == processor.root && processor.H().db.snapshot == processor.rootSnapshot
      ensures processor.Valid(log) && Inv(log, processor.H()) && Rooted(W(), root, shape) && Dated(log, W())
      ensures Clients(running, pending, W()) && Waiting(pending, W()) && Queue(log, finished, running)
    {
      hide Rooted, Dated, Clients, Waiting, Queue, Inv;
    }

    lemma ProcessorInv(log: Log)
      requires processor.Valid(log)
      ensures Inv(log, processor.H()) && processor.H().db.root == processor.root && processor.H().db.snapshot == processor.rootSnapshot
    {
      hide Inv;
    }

    lemma Whole(log: Log)
      requires processor.Valid(log) && Rooted(W(), root, shape) && Dated(log, W())
      requires Clients(running, pending, W()) && Waiting(pending, W()) && Queue(log, finished, running)
      ensures Valid(log)
    {
      hide Rooted, Dated, Clients, Waiting, Queue, Processor.Valid;
    }

    /** A database that opens on a commit whose nodes are in memory. */
    constructor (log: Log, processor: Processor, root: NodePtr, ghost nodes: Memory, ghost shape: Shape, ghost primary: map<nat, nat>)
      requires processor.Valid(log)
      requires Rooted(World(nodes, primary, FirstTrees(processor.rootSnapshot, processor.root), processor.H()), root, shape)
      ensures Valid(log) && this.processor == processor && this.root == root && this.primary == primary
      ensures running == {} && finished == map[] && pending == map[]
    {
      hide *;
      this.processor, this.root, finished, pending, running := processor, root, map[], map[], {};
      this.nodes, this.shape, this.primary, trees := nodes, shape, primary, FirstTrees(processor.rootSnapshot, processor.root);
      new;
      ProcessorInv(log);
      WorldIs();
      FirstDated(log, W());
      Nobody(log, W());
      Whole(log);
    }

    /** Whatever is appended to the log, the database stays what it is. */
    lemma LogGrows(log: Log, more: Log)
      requires Valid(log) && processor.lastProcessed < |log|
      ensures Valid(log + more)
    {
      hide *;
      Parts(log);
      SnapshotIn(log);
      InvGrows(log, more, processor.H());
      ProcessorGrows(log, more);
      WorldFacts(W(), root, shape);
      DatedGrows(log, more, W());
      QueueGrows(log, more, finished, running);
      Whole(log + more);
    }

    lemma SnapshotIn(log: Log)
      requires processor.Valid(log)
      ensures processor.H().db.snapshot <= processor.lastProcessed
    {
      hide Inv;
    }

    lemma ProcessorGrows(log: Log, more: Log)
      requires processor.Valid(log) && Inv(log + more, processor.H())
      ensures processor.Valid(log + more)
    {
      hide Inv;
    }

    // ------------------------------------------------------------------- clients

    /** A tree over the last commit. */
    method NewTree(rid: int, ghost log: Log) returns (tree: PersistentTree)
      requires processor.Valid(log) && Rooted(W(), root, shape) && NOBODY < rid < 0
      ensures fresh(tree) && tree.Valid() && tree.Tree() == processor.root && tree.rid == rid
      ensures tree.ReadOnly() && !tree.emptied && Anchored(tree.Tree(), processor.rootSnapshot)
      ensures tree.primary == primary && tree.others == Rids(W()) && tree.foreign == nodes.Keys && tree.owned == {}
    {
      hide Inv, View, ValidTree, Layered, Old, Anchored, PersistentTree.Valid, PersistentTree.Tree;
      RootFacts(log, processor.H());
      ViewOutside(nodes, root, shape, Env(NOBODY, primary), Env(rid, primary));
      tree := new PersistentTree(root, rid, primary, Rids(W()), nodes, shape);
    }

    /** A transaction begins on the last commit. */
    method Begin(log: Log, rid: int, token: nat) returns (tx: Transaction)
      requires Valid(log) && NOBODY < rid < 0
      modifies this`running
      ensures Valid(log) && fresh(tx) && fresh(tx.tree) && running == old(running) + {tx}
      ensures tx.snapshot == processor.rootSnapshot && tx.base == processor.root && tx.token == token
      ensures tx.ops == [] && !tx.committed && tx.Valid() && forall k :: tx.Sees(k) == ValueOf(Contents(processor.root), k)
    {
      hide *;
      Parts(log);
      WorldFacts(W(), root, shape);
      var tree := NewTree(rid, log);
      tx := new Transaction(tree, processor.rootSnapshot, token, processor.rootSnapshot);
      RunsStill(tx, W());
      JoinClients(running, tx, pending, W());
      QueueMore(log, finished, running, running + {tx});
      running := running + {tx};
      Whole(log);
    }

    /** A client reads and writes through its transaction: it sees what it has written,
        and the snapshot where it has not. Everything else stays what it is: other
        transactions, the last commit, and the trees that are waiting. */
    method Operate(log: Log, tx: Transaction, request: Request) returns (r: Option<Val>)
      requires Valid(log) && tx in running && !tx.committed
      modifies tx`ops, tx.tree`root, tx.tree`emptied, tx.tree`memory, tx.tree`owned, tx.tree`freshNodes, tx.tree`shape, tx.tree.owned
      ensures Valid(log) && tx.ops == old(tx.ops) + [OpOf(request)]
      ensures request.Query? ==> r == Read(Contents(tx.base), tx.ops, |old(tx.ops)|)
      ensures old(tx.Valid()) && tx.Valid()
      ensures request.Query? ==> r == old(tx.Sees(request.key)) && forall k :: tx.Sees(k) == old(tx.Sees(k))
      ensures request.Write? ==> tx.Sees(request.key) == Some(request.val) && forall k | k != request.key :: tx.Sees(k) == old(tx.Sees(k))
      ensures request.Remove? ==> tx.Sees(request.key) == None && forall k | k != request.key :: tx.Sees(k) == old(tx.Sees(k))
    {
      hide *;
      Parts(log);
      ghost var w := W();
      Apart(running, tx, pending, w);
      RunsParts(tx, w);
      NotHanded(log, finished, running, tx);
      r := Perform(tx, request);
      WorldFacts(w, root, shape);
      RunsStill(tx, w);
      JoinClients(running - {tx}, tx, pending, w);
      assert running - {tx} + {tx} == running;
      Whole(log);
    }

    /** A client commits: a transaction without effect is done, any other one has an
        intention to append to the log. */
    method Commit(log: Log, tx: Transaction) returns (i: Option<Intention>)
      requires Valid(log) && tx in running && !tx.committed
      modifies tx`committed
      ensures Valid(log) && tx.committed
      ensures i.None? <==> forall op | op in tx.ops :: !op.Put? && (op.Delete? ==> User(op.key) !in Contents(tx.base))
      ensures i.None? ==> Replay(tx.base, tx.ops) == tx.base
      ensures i.Some? ==> i.value == Intention(tx.snapshot, tx.token, false, tx.ops)
    {
      hide *;
      Parts(log);
      ghost var w := W();
      Apart(running, tx, pending, w);
      RunsParts(tx, w);
      NotHanded(log, finished, running, tx);
      i := tx.Commit();
      WorldFacts(w, root, shape);
      RunsStill(tx, w);
      JoinClients(running - {tx}, tx, pending, w);
      assert running - {tx} + {tx} == running;
      Whole(log);
    }

    /** A client has appended its transaction to the log and hands its tree over. */
    method InsertFinished(log: Log, tx: Transaction, pos: nat)
      requires Valid(log) && tx in running && Appended(log, tx, pos) && pos !in finished && tx !in finished.Values
      modifies this`finished
      ensures Valid(log) && finished == old(finished)[pos := tx]
    {
      hide Rooted, Dated, Clients, Waiting, Appended, Processor.Valid;
      finished := finished[pos := tx];
    }

    /** Forgets the transactions that have been processed. */
    method CleanFinished(log: Log)
      requires Valid(log)
      modifies this`finished
      ensures Valid(log) && finished.Keys == set p | p in old(finished) && p > processor.lastProcessed
      ensures forall p | p in finished :: finished[p] == old(finished)[p]
    {
      hide Rooted, Dated, Clients, Waiting, Appended, Processor.Valid;
      finished := map p | p in finished && p > processor.lastProcessed :: finished[p];
    }

    // ---------------------------------------------------------------- processing

    /** What the processor may take over for `pos`. */
    ghost function Handed(pos: nat): set<object>
      reads this, finished.Values, set tx | tx in finished.Values :: tx.tree
    {
      if pos in finished then {finished[pos].tree} + finished[pos].tree.owned else {}
    }

    lemma HandedIs(pos: nat)
      requires pos in finished
      ensures Handed(pos) == {finished[pos].tree} + finished[pos].tree.owned
    {
    }

    /** Builds the next root beside everything else that goes on. */
    method Build(log: Log, pos: nat, client: Transaction?, ghost w: World) returns (next: PersistentTree)
      requires Inv(log, w.h) && Admissible(log, w.h, pos) && pos < |log| && log[pos].IntentionEntry?
      requires Rooted(w, root, shape) && Clients(running, pending, w) && Waiting(pending, w)
      requires client != null ==> client in running && Reusable(client, log, pos, w)
      modifies this`root, if client == null then {} else {client.tree}, if client == null then {} else client.tree.owned
      ensures Prepared(next, root, log, pos, w) && next !in pending.Values && (forall n | n in w.nodes :: n.Holds(w.nodes[n]))
      ensures Clients(running - Only(client), pending, w) && Waiting(pending, w)
      ensures forall tx | tx in running - Only(client) :: next != tx.tree && next.owned !! tx.tree.owned
      ensures if client == null then fresh(next) && fresh(next.owned) else next == client.tree && fresh(next.owned - old(client.tree.owned))
    {
      hide *;
      var mine := null;
      if client != null {
        Apart(running, client, pending, w);
        RunsParts(client, w);
        mine := client.tree;
        ReusableMine(client, log, pos, w);
      }
      OnlyOne(running, client, pending, w);
      WorldFacts(w, root, shape);
      RootFacts(log, w.h);
      AdmissibleFacts(log, w, pos);
      ghost var last := root;
      root, next := BuildNext(root, pos, log[pos].intention.ops, mine, w.nodes, shape, Rids(w), w.primary, w.h.db.root, w.h.db.snapshot);
      WorldHolds(w, last, shape);
      Prepare(next, root, log, pos, w);
    }

    /** Decides on the intention at `pos` and, if it commits, builds the next root out
        of the tree of the client, if it is serial and that tree is here, or by
        replay. */
    method Process(log: Log, pos: nat) returns (committed: bool)
      requires Valid(log) && processor.lastProcessed < pos < |log| && Admissible(log, processor.H(), pos) && log[pos].IntentionEntry?
      modifies this, processor, Handed(pos)
      ensures Valid(log) && processor.lastProcessed == pos
      ensures processor.H() == Step(AS_CODED, log, old(processor.H()), pos, processor.limit)
      ensures committed == Commits(AS_CODED, log, old(processor.H().db), log[pos].intention)
      ensures if committed then pos in pending && pending == old(pending)[pos := pending[pos]] else pending == old(pending)
      ensures running <= old(running) && primary == old(primary)
      ensures finished == if committed then old(finished) - {pos} else old(finished)
      ensures committed ==>
        if pos in old(finished) && (log[pos].intention.snapshot == old(processor.rootSnapshot) || log[pos].intention.flush)
        then pending[pos] == old(finished)[pos].tree && running == old(running) - {old(finished)[pos]}
        else fresh(pending[pos]) && running == old(running)
      ensures !committed ==> running == old(running)
      ensures committed ==> fresh({pending[pos]} - old(Handed(pos))) && fresh(pending[pos].owned - old(Handed(pos)))
      ensures log[pos].intention.snapshot == old(processor.rootSnapshot) || log[pos].intention.flush ==> committed
      ensures if committed then processor.commits == old(processor.commits) + [pos] && processor.rootSnapshot == pos
              else processor.H() == old(processor.H())
      ensures committed && pos in old(finished) && log[pos].intention.snapshot == old(processor.rootSnapshot) ==>
        && old(finished[pos].Valid())
        && forall k :: ValueOf(Contents(processor.root), k) == old(finished[pos].Sees(k))
      ensures committed && pos in old(finished) && Covered(log[pos].intention.ops) ==>
        forall j | 0 <= j < |log[pos].intention.ops| && log[pos].intention.ops[j].Get? ::
          Read(Contents(old(finished)[pos].base), log[pos].intention.ops, j) ==
          Read(Contents(old(processor.root)), log[pos].intention.ops, j)
    {
      hide *;
      Parts(log);
      ghost var w := W();
      HandedCurrent(log, finished, running, pending, pos, w);
      WorldFacts(w, root, shape);
      HandedVisible(log, finished, running, pending, pos, w);
      SerialCommits(AS_CODED, log, w.h, pos, processor.limit);
      var i := log[pos].intention;
      var serial := processor.rootSnapshot == i.snapshot || i.flush;
      var client: Transaction? := null;
      if serial && pos in finished {
        client := finished[pos];
        HandedIs(pos);
        HandedReusable(log, finished, running, pos, w);
      }
      QueueLess(log, finished, running, pos, client);
      committed := processor.Process(log, pos);
      StepWorld(log, w.h, pos, processor.limit, processor.H());
      if committed {
        OnlyIs(client);
        FollowsParts(log, w.h, pos, processor.H());
        ProcessorInv(log);
        Advance(log, pos, client, w);
      } else {
        WorldIs();
        Whole(log);
      }
    }

    /** The world after the next root has been built. */
    method Extend(log: Log, pos: nat, client: Transaction?, ghost w: World) returns (next: PersistentTree, ghost v: World)
      requires Inv(log, w.h) && Admissible(log, w.h, pos) && pos < |log| && log[pos].IntentionEntry?
      requires Follows(log, w.h, pos, processor.H()) && Inv(log, processor.H())
      requires Rooted(w, root, shape) && Dated(log, w) && Clients(running, pending, w) && Waiting(pending, w)
      requires client != null ==> client in running && Reusable(client, log, pos, w)
      modifies this`root, if client == null then {} else {client.tree}, if client == null then {} else client.tree.owned
      ensures v.h == processor.H() && v.primary == w.primary && Rooted(v, root, next.shape)
      ensures Dated(log, v)
      ensures Clients(running - Only(client), pending[pos := next], v) && Waiting(pending[pos := next], v)
      ensures if client == null then fresh(next) && fresh(next.owned) else next == client.tree && fresh(next.owned - old(client.tree.owned))
    {
      hide *;
      WorldFacts(w, root, shape);
      next := Build(log, pos, client, w);
      v := World(w.nodes + next.memory, w.primary, w.trees[pos := processor.H().db.root], processor.H());
      TakeOver(next, root, log, pos, running - Only(client), pending, w, processor.H());
      AdmissibleFacts(log, w, pos);
      DatedNext(log, w, v, pos);
    }

    /** The part of processing that follows the decision to commit. */
    method Advance(log: Log, pos: nat, client: Transaction?, ghost w: World)
      requires Inv(log, w.h) && Admissible(log, w.h, pos) && pos < |log| && log[pos].IntentionEntry?
      requires processor.Valid(log) && Follows(log, w.h, pos, processor.H()) && w.primary == primary
      requires Rooted(w, root, shape) && Dated(log, w) && Clients(running, pending, w) && Waiting(pending, w)
      requires Queue(log, finished - {pos}, running - Only(client))
      requires client != null ==> client in running && Reusable(client, log, pos, w)
      modifies this, if client == null then {} else {client.tree}, if client == null then {} else client.tree.owned
      ensures Valid(log) && pos in pending && pending == old(pending)[pos := pending[pos]]
      ensures running == old(running) - Only(client) && primary == old(primary) && finished == old(finished) - {pos}
      ensures if client == null then fresh(pending[pos]) && fresh(pending[pos].owned)
              else pending[pos] == client.tree && fresh(pending[pos].owned - old(client.tree.owned))
    {
      hide *;
      ghost var v;
      var next;
      ProcessorInv(log);
      next, v := Extend(log, pos, client, w);
      Store(log, pos, next, running - Only(client), v);
    }

    method Store(ghost log: Log, pos: nat, next: PersistentTree, ghost txs: set<Transaction>, ghost v: World)
      requires processor.Valid(log) && v.h == processor.H() && Rooted(v, root, next.shape) && Dated(log, v)
      requires Clients(txs, pending[pos := next], v) && Waiting(pending[pos := next], v) && Queue(log, finished - {pos}, txs)
      modifies this`pending, this`finished, this`running, this`nodes, this`shape, this`primary, this`trees
      ensures pending == old(pending)[pos := next] && finished == old(finished) - {pos} && running == txs
      ensures Valid(log) && primary == v.primary && running == txs
    {
      hide *;
      Assign(pos, next, txs, v);
      Whole(log);
    }

    method Assign(pos: nat, next: PersistentTree, ghost txs: set<Transaction>, ghost v: World)
      requires v.h == processor.H()
      modifies this`pending, this`finished, this`running, this`nodes, this`shape, this`primary, this`trees
      ensures pending == old(pending)[pos := next] && finished == old(finished) - {pos} && running == txs
      ensures W() == v && shape == next.shape && primary == v.primary
    {
      pending, finished := pending[pos := next], finished - {pos};
      running, nodes, shape, primary, trees := txs, v.nodes, next.shape, v.primary, v.trees;
    }

    // -------------------------------------------------------------- after images

    /** Writes the after image of a committed tree out. */
    method Write(log: Log, i: nat, resolved: map<nat, nat>) returns (es: seq<NodeEntry>, delta: seq<Node>)
      requires Valid(log) && i in pending
      requires forall j | j in resolved :: resolved[j] in primary && primary[resolved[j]] == j
      ensures i in processor.H().store && Means(es, processor.H().store[i], primary) && AllByImage(es, resolved)
      ensures delta == OwnList(pending[i].shape, pending[i].owned)
    {
      hide *;
      Parts(log);
      Waiter(pending, i, W());
      WaitsImage(pending[i], i, W());
      es, delta := pending[i].SerializeAfterImage(i, resolved, Env(NOBODY, primary));
      OwnListNodes(pending[i], pending[i].shape);
    }

    /** The after image of a committed tree has appeared in the log: pointers within
        its delta take on that form. All others, transactions that run on shared nodes
        and trees that have been built on them, stay what they are. */
    method Finalize(log: Log, i: nat, pos: nat, delta: seq<Node>)
      requires Valid(log) && i in pending && i < pos && pos !in primary
      requires delta == OwnList(pending[i].shape, pending[i].owned)
      modifies this, pending[i], pending[i].owned, TreesOf(running, pending)`memory, TreesOf(running, pending)`primary
      ensures Valid(log) && pending == old(pending) - {i} && primary == old(primary)[pos := i]
      ensures root == old(root) && finished == old(finished) && running == old(running) && processor.H() == old(processor.H())
      ensures i in processor.H().store && CellsMean(nodes, delta, processor.H().store[i], i, Env(NOBODY, primary))
      ensures forall n | n in delta :: n in nodes && n.Holds(nodes[n]) && nodes[n].readOnly
    {
      hide *;
      Parts(log);
      ghost var w := W();
      var t := pending[i];
      Waiter(pending, i, w);
      WorldFacts(w, root, shape);
      WaitsImage(t, i, w);
      OwnListNodes(t, t.shape);
      RenameWorld(log, pending, i, pos, w);
      TreesLess(running, pending, i);
      ghost var values, ms := StaticsOf(running, pending, i, w);
      ghost var v := RenameAll(t, i, pos, delta, running, pending - {i}, values, ms, w);
      RootRenamed(w, v, i, pos, root, shape);
      DatedStill(log, w, v);
      WorldIs();
      Forget(i, v);
      Whole(log);
    }

    method Forget(i: nat, ghost v: World)
      requires v.h == processor.H() && v.trees == trees
      modifies this`pending, this`nodes, this`primary
      ensures pending == old(pending) - {i} && W() == v && nodes == v.nodes && primary == v.primary
    {
      pending, nodes, primary := pending - {i}, v.nodes, v.primary;
    }

    lemma WorldIs()
      ensures W() == World(nodes, primary, trees, processor.H())
      ensures processor.H().db.root == processor.root && processor.H().db.snapshot == processor.rootSnapshot
    {
    }
  }

  // ------------------------------------------------------------- the next commit

  lemma Nobody(log: Log, w: World)
    ensures Clients({}, map[], w) && Waiting(map[], w) && Queue(log, map[], {})
  {
  }

  ghost function FirstTrees(snapshot: nat, root: Tree): map<nat, Tree> {
    map[snapshot := root]
  }

  lemma FirstDated(log: Log, w: World)
    requires Inv(log, w.h) && w.trees == FirstTrees(w.h.db.snapshot, w.h.db.root)
    ensures Dated(log, w)
  {
    hide SerialMap, Contents, ValidTree, Catalogued, Recent, WellLinked, Stored;
    assert UpTo(w.h.commits, w.h.db.snapshot) == w.h.commits;
  }

  lemma DatedNext(log: Log, w: World, v: World, pos: nat)
    requires Dated(log, w) && Follows(log, w.h, pos, v.h) && Inv(log, v.h) && v.trees == w.trees[pos := v.h.db.root]
    requires w.h.db.snapshot < pos && forall x | x in w.trees :: x <= w.h.db.snapshot
    ensures Dated(log, v)
  {
    hide SerialMap, Contents, ValidTree, Catalogued, Recent, WellLinked, Stored, NextRoot, Entries;
    assert v.h.commits[..|v.h.commits| - 1] == w.h.commits && v.h.commits[|v.h.commits| - 1] == pos;
    assert UpTo(v.h.commits, pos) == v.h.commits;
    forall s | s in v.trees ensures s in v.h.commits && Contents(v.trees[s]) == SerialMap(log, UpTo(v.h.commits, s)) {
      if s != pos {
        assert s in w.h.commits && UpTo(v.h.commits, s) == UpTo(w.h.commits, s);
      }
    }
  }

  lemma DatedStill(log: Log, w: World, v: World)
    requires Dated(log, w) && v.trees == w.trees && v.h == w.h
    ensures Dated(log, v)
  {
    hide SerialMap, Contents;
  }

  lemma DatedGrows(log: Log, more: Log, w: World)
    requires Dated(log, w) && Inv(log, w.h) && w.h.db.snapshot < |log|
    ensures Dated(log + more, w)
  {
    hide SerialMap, Contents, Inv;
    InvParts(log, w.h);
    forall s | s in w.trees ensures SerialMap(log + more, UpTo(w.h.commits, s)) == SerialMap(log, UpTo(w.h.commits, s)) {
      UpToWithin(w.h.commits, s);
      SerialGrows(log, more, UpTo(w.h.commits, s));
    }
  }

  lemma {:induction false} UpToWithin(commits: seq<nat>, s: nat)
    ensures forall c | c in UpTo(commits, s) :: c in commits
  {
    if commits != [] && commits[|commits| - 1] != s {
      UpToWithin(commits[..|commits| - 1], s);
    }
  }

  lemma QueueGrows(log: Log, more: Log, finished: map<nat, Transaction>, txs: set<Transaction>)
    requires Queue(log, finished, txs)
    ensures Queue(log + more, finished, txs)
  {
  }

  /** What a client has read that hands its transaction over is what it would read now,
      if the transaction commits and its reads are covered. */
  lemma HandedCurrent(log: Log, finished: map<nat, Transaction>, txs: set<Transaction>, pending: map<nat, PersistentTree>,
                      pos: nat, w: World)
    requires Queue(log, finished, txs) && Clients(txs, pending, w) && Dated(log, w) && Inv(log, w.h)
    requires Admissible(log, w.h, pos) && pos < |log| && log[pos].IntentionEntry?
    ensures Commits(AS_CODED, log, w.h.db, log[pos].intention) && pos in finished && Covered(log[pos].intention.ops) ==>
      forall j | 0 <= j < |log[pos].intention.ops| && log[pos].intention.ops[j].Get? ::
        Read(Contents(finished[pos].base), log[pos].intention.ops, j) == Read(Contents(w.h.db.root), log[pos].intention.ops, j)
  {
    hide Commits, Covered, Read, Inv, Contents, SerialMap, UserOps, FreshCount, Delta, Transaction.Valid, Shares;
    var i := log[pos].intention;
    if Commits(AS_CODED, log, w.h.db, i) && pos in finished && Covered(i.ops) {
      assert Appended(log, finished[pos], pos) && Runs(finished[pos], w);
      forall j | 0 <= j < |i.ops| && i.ops[j].Get?
        ensures Read(Contents(finished[pos].base), i.ops, j) == Read(Contents(w.h.db.root), i.ops, j)
      {
        CoveredReadsCurrent(AS_CODED, log, w.h, i, j);
      }
    }
  }

  /** What a client sees that hands its transaction over is what everybody sees when it has
      committed, if it ran on the last state. */
  lemma HandedVisible(log: Log, finished: map<nat, Transaction>, txs: set<Transaction>, pending: map<nat, PersistentTree>,
                      pos: nat, w: World)
    requires Queue(log, finished, txs) && Clients(txs, pending, w) && Inv(log, w.h)
    requires w.h.db.snapshot in w.trees && w.trees[w.h.db.snapshot] == w.h.db.root
    requires Admissible(log, w.h, pos) && pos < |log| && log[pos].IntentionEntry?
    ensures pos in finished ==> finished[pos].Valid()
    ensures pos in finished && log[pos].intention.snapshot == w.h.db.snapshot ==>
      forall k :: finished[pos].Sees(k) == ValueOf(Contents(NextRoot(w.h.db.root, Ops(log, pos), pos)), k)
  {
    hide Inv, Contents, UserOps, FreshCount, Delta, NextRoot, Transaction.Valid, Shares, ReplayMap;
    if pos in finished {
      assert Appended(log, finished[pos], pos) && Runs(finished[pos], w);
      if log[pos].intention.snapshot == w.h.db.snapshot {
        finished[pos].SeesReplay();
        forall k ensures finished[pos].Sees(k) == ValueOf(Contents(NextRoot(w.h.db.root, Ops(log, pos), pos)), k) {
          CommitVisible(log, w.h, pos, k);
        }
      }
    }
  }

  ghost function Only(tx: Transaction?): set<Transaction> {
    if tx == null then {} else {tx}
  }

  /** The client ran on the last commit, and what it did is what the log says. */
  ghost predicate Reusable(tx: Transaction, log: Log, pos: nat, w: World)
    reads tx
  {
    && tx.snapshot == w.h.db.snapshot && w.h.db.snapshot in w.trees && w.trees[w.h.db.snapshot] == w.h.db.root
    && tx.ops == Ops(log, pos)
  }

  lemma ReusableMine(tx: Transaction, log: Log, pos: nat, w: World)
    requires Reusable(tx, log, pos, w) && Runs(tx, w)
    ensures Mine(tx.tree, w.nodes, Rids(w), w.primary)
    ensures tx.tree.Tree() == Replay(w.h.db.root, Ops(log, pos)) && Anchored(tx.tree.Tree(), w.h.db.snapshot)
  {
    hide Runs, Replay, Anchored, PersistentTree.Valid, PersistentTree.Tree, Transaction.Valid;
    RunsParts(tx, w);
  }

  lemma OnlyOne(txs: set<Transaction>, tx: Transaction?, pending: map<nat, PersistentTree>, w: World)
    requires Clients(txs, pending, w)
    ensures Clients(txs - Only(tx), pending, w) && Only(tx) == if tx == null then {} else {tx}
  {
    hide Runs;
  }

  lemma AdmissibleFacts(log: Log, w: World, pos: nat)
    requires Inv(log, w.h) && Admissible(log, w.h, pos) && pos < |log| && log[pos].IntentionEntry?
    ensures UserOps(log[pos].intention.ops) && FreshCount(Delta(w.h.db.root, log[pos].intention.ops, pos)) <= OFFSETS
    ensures w.h.db.snapshot < pos < POSITIONS && pos !in Rids(w) && Ops(log, pos) == log[pos].intention.ops
  {
    hide Inv;
    InvParts(log, w.h);
  }

  lemma Prepare(next: PersistentTree, root: NodePtr, log: Log, pos: nat, w: World)
    requires next.Valid() && next.rid == pos && next.primary == w.primary && next.Tree() == Delta(w.h.db.root, Ops(log, pos), pos)
    requires Published(next.memory, root, next.shape, Rids(w) + {pos as int}, w.primary, NextRoot(w.h.db.root, Ops(log, pos), pos))
    requires RootAt(root, next, pos) && next.others <= Rids(w) && next.foreign <= w.nodes.Keys && next.owned !! w.nodes.Keys
    ensures Prepared(next, root, log, pos, w)
  {
    hide PersistentTree.Valid, PersistentTree.Tree, Delta, Published, NextRoot, RootAt;
  }

  /** What has been handed over for a serial intention can be reused. */
  lemma HandedReusable(log: Log, finished: map<nat, Transaction>, txs: set<Transaction>, pos: nat, w: World)
    requires Queue(log, finished, txs) && pos in finished && pos < |log| && log[pos].IntentionEntry?
    requires w.h.db.snapshot == log[pos].intention.snapshot || log[pos].intention.flush
    requires w.h.db.snapshot in w.trees && w.trees[w.h.db.snapshot] == w.h.db.root
    ensures finished[pos] in txs && Reusable(finished[pos], log, pos, w)
  {
  }

  lemma QueueLess(log: Log, finished: map<nat, Transaction>, txs: set<Transaction>, pos: nat, tx: Transaction?)
    requires Queue(log, finished, txs) && (tx != null ==> pos in finished && finished[pos] == tx)
    ensures Queue(log, finished - {pos}, txs - Only(tx))
  {
    hide Appended;
  }

  lemma StepWorld(log: Log, h: History, pos: nat, limit: nat, next: History)
    requires next == Step(AS_CODED, log, h, pos, limit) && pos < |log| && log[pos].IntentionEntry?
    ensures !Commits(AS_CODED, log, h.db, log[pos].intention) ==> next == h
    ensures Commits(AS_CODED, log, h.db, log[pos].intention) ==> Follows(log, h, pos, next)
  {
    hide Commits, NextRoot, Entries, Push;
  }

  lemma OnlyIs(tx: Transaction?)
    ensures Only(tx) == if tx == null then {} else {tx}
  {
  }

  lemma FollowsParts(log: Log, h: History, pos: nat, next: History)
    requires Follows(log, h, pos, next)
    ensures next.db.root == NextRoot(h.db.root, Ops(log, pos), pos) && next.commits == h.commits + [pos]
  {
    hide NextRoot, Entries;
  }

  /** The history after the intention at `pos` has committed. */
  ghost predicate Follows(log: Log, h: History, pos: nat, next: History) {
    && next.db.root == NextRoot(h.db.root, Ops(log, pos), pos) && next.db.snapshot == pos
    && next.commits == h.commits + [pos] && next.store == h.store[pos := Entries(next.db.root, pos)]
  }

  /** The nodes of the next root become nodes of a commit. */
  lemma TakeOver(next: PersistentTree, root: NodePtr, log: Log, pos: nat, txs: set<Transaction>,
                 pending: map<nat, PersistentTree>, w: World, h: History)
    requires Inv(log, w.h) && Admissible(log, w.h, pos) && pos < |log| && log[pos].IntentionEntry? && Follows(log, w.h, pos, h)
    requires Prepared(next, root, log, pos, w) && next !in pending.Values && (forall n | n in w.nodes :: n.Holds(w.nodes[n]))
    requires (forall p | p in w.primary :: w.primary[p] <= w.h.db.snapshot) && forall x | x in w.trees :: x <= w.h.db.snapshot
    requires NOBODY !in Rids(w) && forall n | n in w.nodes :: w.nodes[n].rid in Rids(w)
    requires Clients(txs, pending, w) && Waiting(pending, w)
    requires forall tx | tx in txs :: next != tx.tree && next.owned !! tx.tree.owned
    ensures var v := World(w.nodes + next.memory, w.primary, w.trees[pos := h.db.root], h);
      Rooted(v, root, next.shape) && Clients(txs, pending[pos := next], v) && Waiting(pending[pos := next], v)
  {
    hide Prepared, Clients, Waiting, Rooted, Published, Runs, Waits, Admissible, Inv, NextRoot, Entries;
    hide PersistentTree.Valid, PersistentTree.Tree;
    var v := World(w.nodes + next.memory, w.primary, w.trees[pos := h.db.root], h);
    NextNodes(next, root, log, pos, w);
    MergeHolds(w.nodes, next.memory);
    AdmissibleFacts(log, w, pos);
    StoreBelow(log, w.h);
    RidsMore(w.h.commits, pos);
    NextRooted(next, root, log, pos, w, v);
    NextWaits(next, root, log, pos, w, v);
    ClientsMore(txs, pending, next, pos, w, v);
    WaitingMore(pending, next, pos, w, v);
  }

  lemma NextNodes(next: PersistentTree, root: NodePtr, log: Log, pos: nat, w: World)
    requires Prepared(next, root, log, pos, w)
    ensures (forall n | n in next.memory :: n.Holds(next.memory[n])) && next.owned !! w.nodes.Keys
    ensures next.memory.Keys == next.owned + next.foreign && next.foreign <= w.nodes.Keys
  {
    hide View, Delta, NextRoot, PersistentTree.Valid, PersistentTree.Tree;
    MemoryKeys(next);
  }

  lemma RidsMore(commits: seq<nat>, pos: nat)
    ensures (set c | c in commits + [pos] :: c as int) == (set c | c in commits :: c as int) + {pos as int}
  {
    var more := set c | c in commits + [pos] :: c as int;
    forall x ensures x in more <==> x in (set c | c in commits :: c as int) || x == pos {
      if x == pos {
        assert pos in commits + [pos];
      }
      if c :| c in commits && c as int == x {
        assert c in commits + [pos];
      }
    }
  }

  lemma StoreBelow(log: Log, h: History)
    requires Inv(log, h)
    ensures forall i | i in h.store :: i <= h.db.snapshot
  {
  }

  lemma NextRooted(next: PersistentTree, root: NodePtr, log: Log, pos: nat, w: World, v: World)
    requires Prepared(next, root, log, pos, w) && Follows(log, w.h, pos, v.h) && v.primary == w.primary
    requires v.nodes == w.nodes + next.memory && v.trees == w.trees[pos := v.h.db.root] && w.h.db.snapshot < pos
    requires (forall n | n in v.nodes :: n.Holds(v.nodes[n])) && forall n | n in w.nodes :: w.nodes[n].rid in Rids(w)
    requires NOBODY !in Rids(w) && Rids(v) == Rids(w) + {pos as int}
    requires (forall p | p in w.primary :: w.primary[p] <= w.h.db.snapshot) && forall x | x in w.trees :: x <= w.h.db.snapshot
    ensures Rooted(v, root, next.shape)
  {
    hide View, Delta, NextRoot, Entries, PersistentTree.Valid, PersistentTree.Tree, RootAt;
    ViewDomain(next.memory, root, next.shape, Env(NOBODY, w.primary));
    ViewFrame(next.memory, v.nodes, root, next.shape, Env(NOBODY, w.primary));
  }

  lemma NextWaits(next: PersistentTree, root: NodePtr, log: Log, pos: nat, w: World, v: World)
    requires Inv(log, w.h) && Prepared(next, root, log, pos, w) && Follows(log, w.h, pos, v.h) && v.primary == w.primary
    requires v.nodes == w.nodes + next.memory && w.h.db.snapshot < pos && Rids(w) <= Rids(v)
    requires next.memory.Keys == next.owned + next.foreign
    requires forall p | p in w.primary :: w.primary[p] <= w.h.db.snapshot
    ensures Waits(next, pos, v)
  {
    hide View, Delta, Entries, Inv, Place, FreshCount, Foreign, PersistentTree.Valid, PersistentTree.Tree;
    InvParts(log, w.h);
    DeltaFacts(w.h, log, Ops(log, pos), pos);
    GrownForeign(Delta(w.h.db.root, Ops(log, pos), pos), w.h.store, pos);
  }

  /** Whatever is said of the same objects is the same. */
  lemma MergeHolds(m: Memory, k: Memory)
    requires (forall n | n in m :: n.Holds(m[n])) && (forall n | n in k :: n.Holds(k[n]))
    ensures forall n | n in m :: n in m + k && (m + k)[n] == m[n]
    ensures forall n | n in m + k :: n.Holds((m + k)[n])
  {
  }

  /** The new world goes on from the old one. */
  ghost predicate Later(w: World, v: World) {
    && v.primary == w.primary && Rids(w) <= Rids(v)
    && (forall n | n in w.nodes :: n in v.nodes && v.nodes[n] == w.nodes[n])
    && (forall x | x in w.trees :: x in v.trees && v.trees[x] == w.trees[x])
    && (forall i | i in w.h.store :: i in v.h.store && v.h.store[i] == w.h.store[i])
  }

  /** More commits do not matter to a transaction that is running. */
  lemma RunsMore(tx: Transaction, w: World, v: World)
    requires Runs(tx, w) && Later(w, v) && tx.tree.owned !! v.nodes.Keys
    ensures Runs(tx, v)
  {
    hide Transaction.Valid;
  }

  lemma WaitsMore(t: PersistentTree, i: nat, w: World, v: World)
    requires Waits(t, i, w) && Later(w, v)
    ensures Waits(t, i, v)
  {
    hide PersistentTree.Valid, PersistentTree.Tree, View, Place, Entries, FreshCount, Foreign;
  }

  lemma ClientsMore(txs: set<Transaction>, pending: map<nat, PersistentTree>, next: PersistentTree, pos: nat, w: World, v: World)
    requires Clients(txs, pending, w) && Later(w, v) && v.nodes.Keys == w.nodes.Keys + next.memory.Keys
    requires next.memory.Keys == next.owned + next.foreign && next.foreign <= w.nodes.Keys
    requires forall tx | tx in txs :: next != tx.tree && next.owned !! tx.tree.owned
    ensures Clients(txs, pending[pos := next], v)
  {
    hide Runs, Later;
    forall tx | tx in txs ensures Runs(tx, v) {
      RunsParts(tx, w);
      RunsMore(tx, w, v);
    }
  }

  lemma WaitingMore(pending: map<nat, PersistentTree>, next: PersistentTree, pos: nat, w: World, v: World)
    requires Waiting(pending, w) && Later(w, v) && Waits(next, pos, v) && next !in pending.Values && next.owned !! w.nodes.Keys
    ensures Waiting(pending[pos := next], v)
  {
    hide Waits, Later;
    forall i | i in pending ensures Waits(pending[i], i, v) && pending[i] != next && pending[i].owned !! next.owned {
      WaitsParts(pending[i], i, w);
      WaitsMore(pending[i], i, w, v);
    }
  }

  lemma {:induction false} GrownForeign(t: Tree, s: Store, i: nat)
    requires Grown(t, s, i)
    ensures Foreign(t, i)
  {
    if t.Node? && t.where.Fresh? {
      GrownForeign(t.left, s, i);
      GrownForeign(t.right, s, i);
    }
  }

  /** The next root, before it becomes the root. */
  ghost predicate Prepared(next: PersistentTree, root: NodePtr, log: Log, pos: nat, w: World)
    reads next, next.memory.Keys
  {
    var ops := Ops(log, pos);
    && next.Valid() && next.rid == pos && next.primary == w.primary && next.Tree() == Delta(w.h.db.root, ops, pos)
    && Published(next.memory, root, next.shape, Rids(w) + {pos as int}, w.primary, NextRoot(w.h.db.root, ops, pos))
    && RootAt(root, next, pos) && next.others <= Rids(w) && next.foreign <= w.nodes.Keys && next.owned !! w.nodes.Keys
  }

  // ------------------------------------------------------------ about the world

  lemma WorldFacts(w: World, root: NodePtr, shape: Shape)
    requires Rooted(w, root, shape)
    ensures Published(w.nodes, root, shape, Rids(w), w.primary, w.h.db.root)
    ensures forall n | n in w.nodes :: n.Holds(w.nodes[n])
    ensures forall p | p in w.primary :: w.primary[p] <= w.h.db.snapshot
    ensures w.h.db.snapshot in w.trees && w.trees[w.h.db.snapshot] == w.h.db.root
    ensures forall x | x in w.trees :: x <= w.h.db.snapshot
    ensures View(w.nodes, root, shape, Env(NOBODY, w.primary)) == Some(w.h.db.root)
    ensures NOBODY !in Rids(w) && forall n | n in w.nodes :: w.nodes[n].rid in Rids(w)
  {
    hide View;
  }

  lemma WorldHolds(w: World, root: NodePtr, shape: Shape)
    requires Rooted(w, root, shape)
    ensures forall n | n in w.nodes :: n.Holds(w.nodes[n])
  {
    hide View;
  }

  lemma RootFacts(log: Log, h: History)
    requires Inv(log, h)
    ensures ValidTree(h.db.root) && Old(h.db.root) && Layered(h.db.root) && Anchored(h.db.root, h.db.snapshot)
    ensures h.db.snapshot < POSITIONS && forall c | c in h.commits :: c <= h.db.snapshot
  {
    hide CommitKey, SerialMap, Contents, WellLinked, Decode, ValidTree, Listed, HasUserPrefix;
    StoredSubtrees(h.db.root, h.store);
    OldLayered(h.db.root);
    InvParts(log, h);
    assert h.commits[|h.commits| - 1] < POSITIONS;
  }

  // ------------------------------------------------------- about one transaction

  /** A tree knows its own nodes and those of others that it may follow pointers to. */
  lemma MemoryKeys(t: PersistentTree)
    requires t.Valid()
    ensures t.memory.Keys == t.owned + t.foreign && t.owned !! t.foreign
  {
    hide View, ValidTree, Layered;
  }

  lemma RunsParts(tx: Transaction, w: World)
    requires Runs(tx, w)
    ensures tx.Valid() && tx.tree.Valid() && tx.tree.primary == w.primary && tx.tree.others <= Rids(w) && NOBODY < tx.tree.rid < 0
    ensures tx.tree.foreign <= w.nodes.Keys && tx.tree.owned !! w.nodes.Keys && tx.tree.memory.Keys == tx.tree.owned + tx.tree.foreign
    ensures tx.snapshot in w.trees && tx.base == w.trees[tx.snapshot] && tx.anchor == tx.snapshot
    ensures tx.tree.Tree() == Replay(tx.base, tx.ops) && !tx.tree.emptied && Anchored(tx.tree.Tree(), tx.anchor)
  {
    hide ValidTree, Layered, Anchored, Replay, PersistentTree.Valid, PersistentTree.Tree;
    MemoryKeys(tx.tree);
  }

  lemma RunsStill(tx: Transaction, w: World)
    requires tx.Valid() && tx.tree.primary == w.primary && tx.tree.others <= Rids(w) && NOBODY < tx.tree.rid
    requires tx.tree.foreign <= w.nodes.Keys && tx.tree.owned !! w.nodes.Keys
    requires tx.snapshot in w.trees && tx.base == w.trees[tx.snapshot] && tx.anchor == tx.snapshot
    requires forall n | n in w.nodes :: n.Holds(w.nodes[n])
    ensures Runs(tx, w)
  {
    hide View, ValidTree, Layered;
    SharesStill(tx.tree, w);
  }

  /** What two views of the same node object say is the same. */
  lemma SharesStill(t: PersistentTree, w: World)
    requires t.Valid() && t.primary == w.primary && t.others <= Rids(w) && t.foreign <= w.nodes.Keys
    requires forall n | n in w.nodes :: n.Holds(w.nodes[n])
    ensures Shares(t, w)
  {
    hide View, ValidTree, Layered;
  }

  /** The transaction, and what nobody else may write. */
  lemma Apart(txs: set<Transaction>, tx: Transaction, pending: map<nat, PersistentTree>, w: World)
    requires Clients(txs, pending, w) && Waiting(pending, w) && tx in txs
    ensures Runs(tx, w) && Clients(txs - {tx}, pending, w) && tx.tree !in pending.Values
    ensures forall ty | ty in txs && ty != tx ::
      ty.tree != tx.tree && ty.tree.memory.Keys !! tx.tree.owned && ty.tree.owned !! tx.tree.owned
    ensures forall i | i in pending :: pending[i] != tx.tree && pending[i].memory.Keys !! tx.tree.owned
  {
    hide Runs, Waits, Transaction.Valid;
    RunsParts(tx, w);
    forall ty | ty in txs && ty != tx ensures ty.tree != tx.tree && ty.tree.memory.Keys !! tx.tree.owned {
      RunsParts(ty, w);
    }
    forall i | i in pending ensures pending[i] != tx.tree && pending[i].memory.Keys !! tx.tree.owned {
      WaitsParts(pending[i], i, w);
    }
  }

  lemma JoinClients(txs: set<Transaction>, tx: Transaction, pending: map<nat, PersistentTree>, w: World)
    requires Clients(txs, pending, w) && Runs(tx, w) && tx.tree !in pending.Values
    requires forall ty | ty in txs && ty != tx :: ty.tree != tx.tree && ty.tree.owned !! tx.tree.owned
    ensures Clients(txs + {tx}, pending, w)
  {
    hide Runs;
  }

  lemma QueueMore(log: Log, finished: map<nat, Transaction>, txs: set<Transaction>, more: set<Transaction>)
    requires Queue(log, finished, txs) && txs <= more
    ensures Queue(log, finished, more)
  {
    hide Appended;
  }

  lemma NotHanded(log: Log, finished: map<nat, Transaction>, txs: set<Transaction>, tx: Transaction)
    requires Queue(log, finished, txs) && !tx.committed
    ensures tx !in finished.Values
  {
  }

  /** How the transaction records a request. */
  function OpOf(request: Request): Op {
    match request
    case Query(k) => Op.Get(k)
    case Write(k, v) => Op.Put(User(k), v)
    case Remove(k) => Op.Delete(k)
  }

  method Perform(tx: Transaction, request: Request) returns (r: Option<Val>)
    requires tx.Valid() && !tx.committed
    modifies tx`ops, tx.tree`root, tx.tree`emptied, tx.tree`memory, tx.tree`owned, tx.tree`freshNodes, tx.tree`shape, tx.tree.owned
    ensures tx.Valid() && tx.ops == old(tx.ops) + [OpOf(request)]
    ensures old(tx.tree.owned) <= tx.tree.owned && fresh(tx.tree.owned - old(tx.tree.owned))
    ensures request.Query? ==> r == Read(Contents(tx.base), tx.ops, |old(tx.ops)|)
    ensures request.Query? ==> r == old(tx.Sees(request.key)) && forall k :: tx.Sees(k) == old(tx.Sees(k))
    ensures request.Write? ==> tx.Sees(request.key) == Some(request.val) && forall k | k != request.key :: tx.Sees(k) == old(tx.Sees(k))
    ensures request.Remove? ==> tx.Sees(request.key) == None && forall k | k != request.key :: tx.Sees(k) == old(tx.Sees(k))
  {
    hide Transaction.Valid, Transaction.Sees, Contents, ReplayMap, User;
    assert (tx.ops + [OpOf(request)])[..|tx.ops|] == tx.ops;
    r := None;
    match request
    case Query(k) => r := tx.Get(k);
    case Write(k, v) => tx.Put(k, v);
    case Remove(k) => tx.Delete(k);
  }

  // --------------------------------------------- what does not depend on the form

  ghost function TreesOf(txs: set<Transaction>, pending: map<nat, PersistentTree>): set<PersistentTree> {
    (set tx | tx in txs :: tx.tree) + pending.Values
  }

  /** What is known of a transaction whose tree stands for `a`, whatever is known of
      the nodes. */
  ghost predicate Client(tx: Transaction, a: Tree, w: World)
    reads tx, tx.tree`rid, tx.tree`root, tx.tree`emptied, tx.tree`owned
  {
    && NOBODY < tx.tree.rid < 0 && !tx.tree.emptied && Anchored(a, tx.anchor)
    && ValidTree(tx.base) && Layered(tx.base) && UserOps(tx.ops)
    && a == Replay(tx.base, tx.ops) && (tx.tree.ReadOnly() ==> a == tx.base) && (tx.tree.ReadOnly() <==> Idle(tx.base, tx.ops))
    && tx.tree.others <= Rids(w) && tx.tree.foreign <= w.nodes.Keys && tx.tree.owned !! w.nodes.Keys
    && tx.snapshot in w.trees && tx.base == w.trees[tx.snapshot] && tx.anchor == tx.snapshot
  }

  lemma RunsClient(tx: Transaction, w: World)
    requires Runs(tx, w)
    ensures tx.tree.Valid() && Client(tx, tx.tree.Tree(), w)
  {
    hide ValidTree, Layered, Anchored, Replay, UserOps, PersistentTree.Valid, PersistentTree.Tree;
  }

  lemma ClientRuns(tx: Transaction, a: Tree, w: World)
    requires Client(tx, a, w) && tx.tree.Valid() && tx.tree.Tree() == a && tx.tree.primary == w.primary
    requires forall n | n in w.nodes :: n.Holds(w.nodes[n])
    ensures Runs(tx, w)
  {
    hide ValidTree, Layered, Anchored, Replay, UserOps, PersistentTree.Valid, PersistentTree.Tree;
    SharesStill(tx.tree, w);
  }

  /** The same for a tree that waits, with what it knows of its nodes. */
  ghost predicate Image(t: PersistentTree, i: nat, a: Tree, m: Memory, w: World)
    reads t`rid, t`root, t`owned, t`shape
  {
    && t.others <= Rids(w) && t.rid == i && t.owned <= w.nodes.Keys && t.foreign <= w.nodes.Keys
    && t.root.Some? && t.root.value != null && 0 < FreshCount(a) <= OFFSETS && Foreign(a, i)
    && (forall p | p in w.primary :: w.primary[p] != i)
    && i in w.h.store && w.h.store[i] == Entries(Place(a, i, 0).0, i)
    && View(m, NodePtr(t.root.value, Some(NodeAddress(i, FreshCount(a) - 1, false))), t.shape, Env(NOBODY, w.primary))
       == Some(Place(a, i, 0).0)
  }

  lemma WaitsIsImage(t: PersistentTree, i: nat, w: World)
    requires Waits(t, i, w)
    ensures t.Valid() && Image(t, i, t.Tree(), t.memory, w)
  {
    hide View, Place, Entries, FreshCount, Foreign, PersistentTree.Valid, PersistentTree.Tree;
    WaitsParts(t, i, w);
  }

  lemma ImageWaits(t: PersistentTree, i: nat, a: Tree, w: World)
    requires t.Valid() && t.Tree() == a && t.primary == w.primary && Image(t, i, a, t.memory, w)
    requires forall n | n in w.nodes :: n.Holds(w.nodes[n])
    ensures Waits(t, i, w)
  {
    hide View, Place, Entries, FreshCount, Foreign, PersistentTree.Valid, PersistentTree.Tree;
    SharesStill(t, w);
  }

  /** What is known of all nodes after a tree has written its own. */
  ghost function Overlay(nodes: Memory, m: Memory, owned: set<Node>): Memory {
    map n | n in nodes :: if n in owned && n in m then m[n] else nodes[n]
  }

  lemma OverlayTargets(nodes: Memory, m: Memory, k: Memory, owned: set<Node>, e: Env, f: Env)
    requires SameTargets(m, k, e) && f.primary == e.primary
    requires forall n | n in owned && n in m && n in nodes :: m[n] == nodes[n]
    ensures SameTargets(nodes, Overlay(nodes, k, owned), f)
  {
    var r := Overlay(nodes, k, owned);
    forall n | n in nodes
      ensures r[n] == nodes[n].(left := r[n].left, right := r[n].right, readOnly := r[n].readOnly)
      ensures SameTarget(nodes[n].left, r[n].left, f) && SameTarget(nodes[n].right, r[n].right, f)
    {
      if n in owned && n in m {
        assert SameTarget(m[n].left, k[n].left, e) && SameTarget(m[n].right, k[n].right, e);
      }
    }
  }

  /** What a waiting tree knows of any node is what is known of it. */
  lemma WaitsAgree(t: PersistentTree, i: nat, w: World)
    requires Waits(t, i, w) && forall n | n in w.nodes :: n.Holds(w.nodes[n])
    ensures forall n | n in t.memory :: n in w.nodes && t.memory[n] == w.nodes[n]
    ensures t.memory.Keys == t.owned + t.foreign
  {
    hide View, Place, Entries, FreshCount, PersistentTree.Tree, ValidTree, Layered;
    MemoryKeys(t);
    WaitsParts(t, i, w);
  }

  lemma OverlayCells(nodes: Memory, m: Memory, owned: set<Node>, delta: seq<Node>, ds: seq<Entry>, i: nat, e: Env)
    requires CellsMean(m, delta, ds, i, e) && forall n | n in delta :: n in owned && n in nodes
    ensures CellsMean(Overlay(nodes, Frozen(m, (set n | n in delta)), owned), delta, ds, i, e)
    ensures var after := Overlay(nodes, Frozen(m, (set n | n in delta)), owned);
      forall n | n in delta :: n in after && after[n].readOnly
  {
    hide PtrMeans;
  }

  /** Renames the pointers within a delta, the nodes of which are not written again. */
  method Rename(t: PersistentTree, i: nat, pos: nat, delta: seq<Node>, ghost w: World) returns (ghost after: Memory)
    requires Waits(t, i, w) && (forall n | n in w.nodes :: n.Holds(w.nodes[n])) && i < pos && pos !in w.primary
    requires delta == OwnNodes(t.memory, t.shape, i)
    modifies t`memory, t`primary, t.owned
    ensures SameTargets(w.nodes, after, Env(NOBODY, w.primary[pos := i])) && forall n | n in after :: n.Holds(after[n])
    ensures i in w.h.store && CellsMean(after, delta, w.h.store[i], i, Env(NOBODY, w.primary[pos := i]))
    ensures forall n | n in delta :: n in after && after[n].readOnly
  {
    hide *;
    WaitsImage(t, i, w);
    WaitsAgree(t, i, w);
    WaitsParts(t, i, w);
    ghost var m, f, g, ptr := t.memory, Env(NOBODY, w.primary), Env(NOBODY, w.primary[pos := i]), RootPtr(t, i);
    t.SetDeltaPosition(delta, pos, ptr, f);
    ghost var m1 := t.memory;
    TreeViews(t);
    OwnNodesTargets(m, m1, t.shape, i, g);
    OutsideTargets(m, m1, NOBODY, g);
    DeltaMeans(m1, t.Base(), ptr, t.shape, t.Tree(), i, 0, Env(i, t.primary), g);
    t.SetReadOnly(delta);
    FrozenTargets(m1, (set n | n in delta), g);
    SameTargetsTwice(m, m1, t.memory, g);
    OverlayTargets(w.nodes, m, t.memory, t.owned, g, g);
    OverlayHolds(w.nodes, t.memory, t.owned);
    OverlayCells(w.nodes, m1, t.owned, delta, w.h.store[i], i, g);
    after := Overlay(w.nodes, t.memory, t.owned);
  }

  lemma TreeViews(t: PersistentTree)
    requires t.Valid()
    ensures t.Synced() && View(t.memory, t.Base(), t.shape, Env(t.rid, t.primary)) == Some(t.Tree())
  {
    hide View, ValidTree, Layered;
  }

  lemma OverlayHolds(nodes: Memory, m: Memory, owned: set<Node>)
    requires (forall n | n in m :: n.Holds(m[n])) && forall n | n in nodes && n !in owned :: n.Holds(nodes[n])
    requires owned <= m.Keys
    ensures forall n | n in Overlay(nodes, m, owned) :: n.Holds(Overlay(nodes, m, owned)[n])
  {
  }

  /** The world after the delta of `i` has been renamed to the after image at `pos`. */
  ghost predicate Renamed(w: World, v: World, i: nat, pos: nat) {
    && v.trees == w.trees && v.h == w.h && v.primary == w.primary[pos := i] && pos !in w.primary && i <= w.h.db.snapshot
    && SameTargets(w.nodes, v.nodes, Env(NOBODY, v.primary))
  }

  lemma RenameWorld(log: Log, pending: map<nat, PersistentTree>, i: nat, pos: nat, w: World)
    requires Inv(log, w.h) && Waiting(pending, w) && i in pending && pos !in w.primary
    ensures Extends(w.primary, w.primary[pos := i]) && i <= w.h.db.snapshot
  {
    hide Inv, View, Place, Entries, FreshCount, Foreign, PersistentTree.Valid, PersistentTree.Tree;
    StoreBelow(log, w.h);
    assert Waits(pending[i], i, w);
  }

  lemma MakeRenamed(w: World, v: World, i: nat, pos: nat)
    requires v.trees == w.trees && v.h == w.h && v.primary == w.primary[pos := i] && pos !in w.primary && i <= w.h.db.snapshot
    requires SameTargets(w.nodes, v.nodes, Env(NOBODY, v.primary))
    ensures Renamed(w, v, i, pos)
  {
    hide SameTargets;
  }

  lemma TreesLess(txs: set<Transaction>, pending: map<nat, PersistentTree>, i: nat)
    ensures TreesOf(txs, pending - {i}) <= TreesOf(txs, pending)
  {
  }

  lemma ClientRenamed(tx: Transaction, a: Tree, w: World, v: World, i: nat, pos: nat)
    requires Client(tx, a, w) && Renamed(w, v, i, pos)
    ensures Client(tx, a, v)
  {
    hide ValidTree, Layered, Anchored, Replay, UserOps, SameTarget;
  }

  lemma ImageRenamed(t: PersistentTree, j: nat, a: Tree, m: Memory, w: World, v: World, i: nat, pos: nat)
    requires Image(t, j, a, m, w) && Renamed(w, v, i, pos) && j != i
    requires forall n | n in t.foreign :: n in m && n in w.nodes && m[n] == w.nodes[n]
    ensures Image(t, j, a, Renewed(m, t.foreign, v.nodes), v)
  {
    hide View, Place, Entries, FreshCount, Foreign, SameTarget;
    var p := NodePtr(t.root.value, Some(NodeAddress(j, FreshCount(a) - 1, false)));
    RenewedTargets(m, t.foreign, w.nodes, v.nodes, Env(NOBODY, v.primary), Env(NOBODY, v.primary));
    ViewMorePrimary(m, p, t.shape, Env(NOBODY, w.primary), Env(NOBODY, v.primary));
    ViewTargets(m, Renewed(m, t.foreign, v.nodes), p, p, t.shape, Env(NOBODY, v.primary));
  }

  /** What does not change of all of them. */
  ghost predicate Statics(txs: set<Transaction>, rest: map<nat, PersistentTree>, values: map<PersistentTree, Tree>,
                          ms: map<PersistentTree, Memory>, w: World)
    reads txs, (set tx | tx in txs :: tx.tree)`rid, (set tx | tx in txs :: tx.tree)`root
    reads (set tx | tx in txs :: tx.tree)`emptied, (set tx | tx in txs :: tx.tree)`owned
    reads rest.Values`rid, rest.Values`root, rest.Values`owned, rest.Values`shape
  {
    && (forall tx | tx in txs ::
          && tx.tree in values && Client(tx, values[tx.tree], w) && tx.tree !in rest.Values
          && forall ty | ty in txs && ty != tx :: tx.tree != ty.tree && tx.tree.owned !! ty.tree.owned)
    && (forall j | j in rest ::
          && rest[j] in values && rest[j] in ms && Image(rest[j], j, values[rest[j]], ms[rest[j]], w)
          && (forall n | n in rest[j].foreign :: n in ms[rest[j]] && n in w.nodes && ms[rest[j]][n] == w.nodes[n])
          && forall k | k in rest && k != j :: rest[j] != rest[k] && rest[j].owned !! rest[k].owned)
  }

  lemma StaticsOf(txs: set<Transaction>, pending: map<nat, PersistentTree>, i: nat, w: World)
    returns (values: map<PersistentTree, Tree>, ms: map<PersistentTree, Memory>)
    requires Clients(txs, pending, w) && Waiting(pending, w) && i in pending && forall n | n in w.nodes :: n.Holds(w.nodes[n])
    ensures Statics(txs, pending - {i}, values, ms, w)
    ensures forall s | s in TreesOf(txs, pending - {i}) :: Ready(s, pending[i], values, ms, w)
  {
    hide Runs, Waits, Client, Image, Stands, OwnHold, PersistentTree.Valid, PersistentTree.Tree;
    var rest := pending - {i};
    var ts := TreesOf(txs, rest);
    WaitsParts(pending[i], i, w);
    forall tx | tx in txs
      ensures tx.tree.Valid() && Stands(tx.tree, tx.tree.Tree(), w.primary, w.nodes) && OwnHold(tx.tree)
      ensures Client(tx, tx.tree.Tree(), w) && tx.tree.owned !! pending[i].owned
    {
      RunsClient(tx, w);
      RunsParts(tx, w);
      SharesStill(tx.tree, w);
      StandsNow(tx.tree, w);
    }
    forall j | j in rest
      ensures var s := rest[j]; s.Valid() && Stands(s, s.Tree(), w.primary, w.nodes) && OwnHold(s)
      ensures Image(rest[j], j, rest[j].Tree(), rest[j].memory, w)
      ensures forall n | n in rest[j].foreign :: n in rest[j].memory && n in w.nodes && rest[j].memory[n] == w.nodes[n]
    {
      WaitsIsImage(pending[j], j, w);
      WaitsParts(pending[j], j, w);
      WaitsAgree(pending[j], j, w);
      SharesAgree(pending[j], j, w);
      StandsNow(pending[j], w);
    }
    values := map s: PersistentTree | s in ts :: s.Tree();
    ms := map s: PersistentTree | s in ts :: s.memory;
  }

  /** A tree that is about to learn of a renaming among the nodes of `t`. */
  ghost predicate Ready(s: PersistentTree, t: PersistentTree, values: map<PersistentTree, Tree>,
                        ms: map<PersistentTree, Memory>, w: World)
    reads s, s.owned, t`owned
  {
    && s in values && s in ms && ms[s] == s.memory && Stands(s, values[s], w.primary, w.nodes) && OwnHold(s)
    && s != t && s.owned !! t.owned
  }

  lemma ReadyStands(ts: set<PersistentTree>, t: PersistentTree, values: map<PersistentTree, Tree>,
                    ms: map<PersistentTree, Memory>, w: World)
    requires forall s | s in ts :: Ready(s, t, values, ms, w)
    ensures forall s | s in ts :: s in values && s in ms && ms[s] == s.memory && Stands(s, values[s], w.primary, w.nodes) && OwnHold(s)
  {
    hide Stands, OwnHold;
  }

  /** Renames the pointers within the delta of `t`, and lets all others know. */
  method RenameAll(t: PersistentTree, i: nat, pos: nat, delta: seq<Node>, ghost txs: set<Transaction>,
                   ghost rest: map<nat, PersistentTree>,
                   ghost values: map<PersistentTree, Tree>, ghost ms: map<PersistentTree, Memory>, ghost w: World)
    returns (ghost v: World)
    requires Waits(t, i, w) && (forall n | n in w.nodes :: n.Holds(w.nodes[n])) && i < pos && pos !in w.primary && i !in rest
    requires delta == OwnNodes(t.memory, t.shape, i)
    requires Extends(w.primary, w.primary[pos := i]) && i <= w.h.db.snapshot
    requires Statics(txs, rest, values, ms, w) && forall s | s in TreesOf(txs, rest) :: Ready(s, t, values, ms, w)
    modifies t`memory, t`primary, t.owned, TreesOf(txs, rest)`memory, TreesOf(txs, rest)`primary
    ensures Renamed(w, v, i, pos) && (forall n | n in v.nodes :: n.Holds(v.nodes[n])) && Clients(txs, rest, v) && Waiting(rest, v)
    ensures v.primary == w.primary[pos := i] && v.h == w.h && v.trees == w.trees
    ensures i in w.h.store && CellsMean(v.nodes, delta, w.h.store[i], i, Env(NOBODY, v.primary))
    ensures forall n | n in delta :: n in v.nodes && v.nodes[n].readOnly
  {
    hide *;
    ghost var ts, later := TreesOf(txs, rest), w.primary[pos := i];
    ReadyStands(ts, t, values, ms, w);
    ReadyApart(ts, t, values, ms, w);
    ghost var after := Rename(t, i, pos, delta, w);
    SameTargetsRid(w.nodes, after, Env(NOBODY, later), Env(0, later));
    AdoptAll(ts, values, w.nodes, after, w.primary, later);
    v := World(after, later, w.trees, w.h);
    MakeRenamed(w, v, i, pos);
    RenamedAll(txs, rest, values, ms, w, v, i, pos);
  }

  lemma ReadyApart(ts: set<PersistentTree>, t: PersistentTree, values: map<PersistentTree, Tree>,
                   ms: map<PersistentTree, Memory>, w: World)
    requires forall s | s in ts :: Ready(s, t, values, ms, w)
    ensures forall s | s in ts :: s != t && s.owned !! t.owned
  {
    hide Stands, OwnHold;
  }

  lemma SharesAgree(t: PersistentTree, i: nat, w: World)
    requires Waits(t, i, w)
    ensures Shares(t, w)
  {
    hide View, Place, Entries, FreshCount, Foreign, PersistentTree.Valid, PersistentTree.Tree;
  }

  lemma StandsNow(t: PersistentTree, w: World)
    requires t.Valid() && Shares(t, w)
    ensures Stands(t, t.Tree(), w.primary, w.nodes) && OwnHold(t)
  {
    hide View, ValidTree, Layered;
  }

  lemma RenamedAll(txs: set<Transaction>, rest: map<nat, PersistentTree>, values: map<PersistentTree, Tree>,
                   ms: map<PersistentTree, Memory>,
                   w: World, v: World, i: nat, pos: nat)
    requires Statics(txs, rest, values, ms, w) && Renamed(w, v, i, pos) && i !in rest && forall n | n in v.nodes :: n.Holds(v.nodes[n])
    requires forall s | s in TreesOf(txs, rest) ::
      && s in values && s in ms && s.Valid() && s.Tree() == values[s] && s.primary == v.primary
      && s.memory == Renewed(ms[s], s.foreign, v.nodes)
    ensures Clients(txs, rest, v) && Waiting(rest, v)
  {
    hide Runs, Waits, Client, Image, Renamed, Renewed, PersistentTree.Valid, PersistentTree.Tree;
    forall tx | tx in txs ensures Runs(tx, v) {
      ClientRenamed(tx, values[tx.tree], w, v, i, pos);
      assert tx.tree in TreesOf(txs, rest);
      ClientRuns(tx, values[tx.tree], v);
    }
    forall j | j in rest ensures Waits(rest[j], j, v) {
      assert rest[j] in TreesOf(txs, rest);
      ImageRenamed(rest[j], j, values[rest[j]], ms[rest[j]], w, v, i, pos);
      ImageWaits(rest[j], j, values[rest[j]], v);
    }
  }

  lemma RootRenamed(w: World, v: World, i: nat, pos: nat, root: NodePtr, shape: Shape)
    requires View(w.nodes, root, shape, Env(NOBODY, w.primary)) == Some(w.h.db.root) && Renamed(w, v, i, pos)
    requires NOBODY !in Rids(w) && forall n | n in w.nodes :: w.nodes[n].rid in Rids(w)
    requires forall p | p in w.primary :: w.primary[p] <= w.h.db.snapshot
    requires w.h.db.snapshot in w.trees && w.trees[w.h.db.snapshot] == w.h.db.root && forall x | x in w.trees :: x <= w.h.db.snapshot
    requires forall n | n in v.nodes :: n.Holds(v.nodes[n])
    ensures Rooted(v, root, shape)
  {
    hide View, SameTarget;
    ViewMorePrimary(w.nodes, root, shape, Env(NOBODY, w.primary), Env(NOBODY, v.primary));
    ViewTargets(w.nodes, v.nodes, root, root, shape, Env(NOBODY, v.primary));
  }

  // ------------------------------------------------------- about one waiting tree

  /** The own nodes of a tree in the order of their offsets: its delta, whatever
      becomes of the pointers. */
  ghost function OwnList(t: Shape, owned: set<Node>): seq<Node> {
    if t.SNil? || t.obj !in owned then [] else OwnList(t.left, owned) + OwnList(t.right, owned) + [t.obj]
  }

  lemma {:induction false} OwnListNodes(tree: PersistentTree, t: Shape)
    requires tree.Valid()
    ensures OwnNodes(tree.memory, t, tree.rid) == OwnList(t, tree.owned)
    decreases t
  {
    hide View, ValidTree, Layered;
    if t.SNode? {
      OwnListNodes(tree, t.left);
      OwnListNodes(tree, t.right);
    }
  }

  lemma Waiter(pending: map<nat, PersistentTree>, i: nat, w: World)
    requires Waiting(pending, w) && i in pending
    ensures Waits(pending[i], i, w)
  {
    hide Waits;
  }

  /** What serialization and the finalizer need to know. */
  lemma WaitsImage(t: PersistentTree, i: nat, w: World)
    requires Waits(t, i, w)
    ensures t.Valid() && t.root.Some? && t.root.value != null && t.rid == i && t.primary == w.primary
    ensures Foreign(t.Tree(), i) && 0 < FreshCount(t.Tree()) <= OFFSETS && Outside(t.memory, NOBODY)
    ensures RootPtr(t, i) == NodePtr(t.root.value, Some(NodeAddress(i, FreshCount(t.Tree()) - 1, false)))
    ensures View(t.memory, RootPtr(t, i), t.shape, Env(NOBODY, w.primary)) == Some(Place(t.Tree(), i, 0).0)
    ensures i in w.h.store && w.h.store[i] == Entries(Place(t.Tree(), i, 0).0, i) && forall p | p in w.primary :: w.primary[p] != i
  {
    hide View, Place, Entries, FreshCount, Foreign, PersistentTree.Tree;
    t.Members();
    forall n | n in t.memory ensures t.memory[n].rid != NOBODY {
      assert t.memory[n].rid in t.others + {t.rid};
    }
  }

  lemma WaitsParts(t: PersistentTree, i: nat, w: World)
    requires Waits(t, i, w)
    ensures t.Valid() && t.primary == w.primary && t.memory.Keys <= w.nodes.Keys && t.owned <= w.nodes.Keys && t.foreign <= w.nodes.Keys
  {
    hide View, Place, Entries, FreshCount, PersistentTree.Valid, PersistentTree.Tree;
    MemoryKeys(t);
  }
}
