/** The transaction processor as a fold over the log: which intentions commit, and
    what the database is after each of them. */
module Histories {
  import opened Basics
  import opened Keys
  import opened Trees
  import opened TreeOps
  import opened TreeProofs
  import opened Sharing
  import opened Deltas
  import opened Zippers
  import opened Positions
  import opened Intentions
  import opened Catalogs

  datatype LogEntry =
    | Filled
    | IntentionEntry(intention: Intention)
    | AfterImageEntry(ipos: nat, entries: seq<Entry>)

  type Log = seq<LogEntry>

  /** The last committed state: its tree, the position of its intention, and the
      index of recent commits, which starts out empty whenever a database opens. */
  datatype Db = Db(root: Tree, snapshot: nat, index: seq<nat>)

  /** With it, all commits since the log began and the after images they have. */
  datatype History = History(db: Db, commits: seq<nat>, store: Store)

  function Ops(log: Log, pos: nat): seq<Op> {
    if pos < |log| && log[pos].IntentionEntry? then log[pos].intention.ops else []
  }

  /** How decisions are made. The code looks for conflicts from the snapshot on if
      the index knows it, and with keys as recorded. It is documented to look from
      behind the snapshot on, and evidently meant to compare the keys of the tree. */
  datatype Rule = Rule(halfOpen: bool, oneSpace: bool)

  const AS_CODED := Rule(false, false)

  /** The intention at `pos` modifies a key that `ops` reads or writes, going by the
      keys as recorded. */
  predicate Overlaps(log: Log, ops: seq<Op>, pos: nat) {
    OpKeys(ops) * UpdateOpKeys(Ops(log, pos)) != {}
  }

  /** The key of the tree that an operation reads or modifies. */
  function TreeKey(op: Op): Key {
    if op.Get? || op.Delete? then User(op.key) else op.key
  }

  /** The same over the keys of the tree. */
  predicate OverlapsInOneSpace(log: Log, ops: seq<Op>, pos: nat) {
    exists x, y :: 0 <= x < |ops| && 0 <= y < |Ops(log, pos)| &&
      (Ops(log, pos)[y].Put? || Ops(log, pos)[y].Delete?) && TreeKey(ops[x]) == TreeKey(Ops(log, pos)[y])
  }

  predicate Clashes(rule: Rule, log: Log, ops: seq<Op>, pos: nat) {
    if rule.oneSpace then OverlapsInOneSpace(log, ops, pos) else Overlaps(log, ops, pos)
  }

  predicate Conflicts(rule: Rule, log: Log, ops: seq<Op>, zone: seq<nat>) {
    exists k :: 0 <= k < |zone| && Clashes(rule, log, ops, zone[k])
  }

  /** What a transaction that ran on `snapshot` is checked against. */
  function Checked(rule: Rule, db: Db, snapshot: nat): seq<nat> {
    if rule.halfOpen then HalfOpenZone(db.root, db.index, snapshot, db.snapshot)
    else Zone(db.root, db.index, snapshot, db.snapshot)
  }

  predicate Serial(db: Db, i: Intention) {
    i.snapshot == db.snapshot || i.flush
  }

  predicate Commits(rule: Rule, log: Log, db: Db, i: Intention) {
    Serial(db, i) || !Conflicts(rule, log, i.ops, Checked(rule, db, i.snapshot))
  }

  /** The tree with the effects of the operations and the commit listed, all of its
      nodes new. */
  function Delta(root: Tree, ops: seq<Op>, pos: nat): Tree {
    PutT(Replay(root, ops), CommitKey(pos), "")
  }

  function NextRoot(root: Tree, ops: seq<Op>, pos: nat): Tree {
    Place(Delta(root, ops, pos), pos, 0).0
  }

  function Step(rule: Rule, log: Log, h: History, pos: nat, limit: nat): History {
    if pos < |log| && log[pos].IntentionEntry? && Commits(rule, log, h.db, log[pos].intention) then
      var root := NextRoot(h.db.root, log[pos].intention.ops, pos);
      History(Db(root, pos, Push(h.db.index, pos, limit)), h.commits + [pos], h.store[pos := Entries(root, pos)])
    else h
  }

  /** An intention that ran on the last state commits whatever it does, and so does a
      flush: whoever commits is the last in the list of commits, and whoever aborts
      changes nothing. */
  lemma SerialCommits(rule: Rule, log: Log, h: History, pos: nat, limit: nat)
    requires pos < |log| && log[pos].IntentionEntry?
    ensures var i, next := log[pos].intention, Step(rule, log, h, pos, limit);
      && (i.snapshot == h.db.snapshot || i.flush ==> Commits(rule, log, h.db, i))
      && (Commits(rule, log, h.db, i) ==> next.commits == h.commits + [pos] && next.db.snapshot == pos)
      && (!Commits(rule, log, h.db, i) ==> next == h)
  {
    hide Conflicts, Checked, NextRoot, Entries, Push;
  }

  /** What a clash is, operation by operation: the other transaction has put or deleted a
      key that this one reads or writes, going by the keys as recorded, or by the keys of
      the tree. */
  lemma ClashesExactly(rule: Rule, log: Log, ops: seq<Op>, pos: nat)
    ensures var other := Ops(log, pos);
      Clashes(rule, log, ops, pos) <==>
      exists x, y :: 0 <= x < |ops| && 0 <= y < |other| && (other[y].Put? || other[y].Delete?) &&
        if rule.oneSpace
        then (if ops[x].Get? || ops[x].Delete? then User(ops[x].key) else ops[x].key) ==
             (if other[y].Delete? then User(other[y].key) else other[y].key)
        else ops[x].key == other[y].key
  {
    hide User;
    var other := Ops(log, pos);
    if !rule.oneSpace {
      if Overlaps(log, ops, pos) {
        var k :| k in OpKeys(ops) * UpdateOpKeys(other);
        var a, b :| a in ops && a.key == k && b in other && (b.Put? || b.Delete?) && b.key == k;
        var x, y :| 0 <= x < |ops| && ops[x] == a && 0 <= y < |other| && other[y] == b;
      }
      forall x, y | 0 <= x < |ops| && 0 <= y < |other| && (other[y].Put? || other[y].Delete?) && ops[x].key == other[y].key
        ensures Overlaps(log, ops, pos)
      {
        assert ops[x] in ops && other[y] in other;
        assert ops[x].key in OpKeys(ops) * UpdateOpKeys(other);
      }
    }
  }

  /** Processes the positions from `start` up to `end`. */
  function Run(rule: Rule, log: Log, h: History, start: nat, end: nat, limit: nat): History
    decreases end
  {
    if end <= start then h else Step(rule, log, Run(rule, log, h, start, end - 1, limit), end - 1, limit)
  }

  /** What the log may hold at `pos`: a transaction began on a committed state and
      puts user keys; its delta fits the 16 bits of an offset. */
  ghost predicate Admissible(log: Log, h: History, pos: nat) {
    && h.db.snapshot < pos < POSITIONS
    && (pos < |log| && log[pos].IntentionEntry? ==>
          var i := log[pos].intention;
          && UserOps(i.ops) && (!i.flush ==> i.snapshot in h.commits)
          && FreshCount(Delta(h.db.root, i.ops, pos)) <= OFFSETS)
  }

  ghost predicate AllAdmissible(rule: Rule, log: Log, h: History, start: nat, end: nat, limit: nat) {
    forall pos :: start <= pos < end ==> Admissible(log, Run(rule, log, h, start, pos, limit), pos)
  }

  /** The map that results from the commits, one after the other in log order. */
  function SerialMap(log: Log, commits: seq<nat>): map<Key, Val> {
    if commits == [] then map[]
    else
      var pos := commits[|commits| - 1];
      ReplayMap(SerialMap(log, commits[..|commits| - 1]), Ops(log, pos))[CommitKey(pos) := ""]
  }

  /** What holds of every state that processing reaches. */
  ghost predicate Inv(log: Log, h: History) {
    && ValidTree(h.db.root) && Stored(h.db.root, h.store) && h.db.root.where.ipos == h.db.snapshot
    && h.db.snapshot in h.store && |h.store[h.db.snapshot]| == h.db.root.where.off + 1
    && h.commits != [] && h.commits[|h.commits| - 1] == h.db.snapshot
    && Catalogued(h.db.root, h.commits) && Recent(h.db.index, h.commits)
    && Contents(h.db.root) == SerialMap(log, h.commits)
    && WellLinked(h.store) && (forall i | i in h.store :: i <= h.db.snapshot)
  }

  // ------------------------------------------------------------- one commit

  lemma DeltaFacts(h: History, log: Log, ops: seq<Op>, pos: nat)
    requires Inv(log, h) && h.db.snapshot < pos
    ensures var d := Delta(h.db.root, ops, pos);
      && ValidTree(d) && d.Node? && d.where.Fresh? && Grown(d, h.store, pos) && Layered(d)
      && Contents(d) == ReplayMap(Contents(h.db.root), ops)[CommitKey(pos) := ""]
  {
    hide Stored, WellLinked, Recent, Catalogued, SerialMap, PutT, CommitKey, Replay, ReplayMap, Contents, ValidTree, Layered, Grown;
    var t, b := h.db.root, Subtrees(h.db.root);
    StoredSubtrees(t, h.store);
    OldLayered(t);
    ReplayFacts(t, ops);
    ReplayBuilt(t, ops, b);
    PutCorrect(Replay(t, ops), CommitKey(pos), "");
    BuiltPut(Replay(t, ops), CommitKey(pos), "", b);
    BuiltGrown(Delta(t, ops, pos), b, h.store, pos);
    BuiltLayered(Delta(t, ops, pos), b);
  }

  lemma PlacedValid(d: Tree, pos: nat)
    requires ValidTree(d)
    ensures ValidTree(Place(d, pos, 0).0) && Contents(Place(d, pos, 0).0) == Contents(d)
  {
    PlaceFacts(d, pos, 0);
    SameShapeFacts(Place(d, pos, 0).0, d);
  }

  /** Committing keeps the catalog exact. */
  lemma CommitCatalogued(t: Tree, u: Tree, commits: seq<nat>, ops: seq<Op>, pos: nat)
    requires Catalogued(t, commits) && UserOps(ops) && pos < POSITIONS && Ordered(u)
    requires forall i :: 0 <= i < |commits| ==> commits[i] < pos
    requires Contents(u) == ReplayMap(Contents(t), ops)[CommitKey(pos) := ""]
    ensures Catalogued(u, commits + [pos])
  {
    hide Contents, ReplayMap, Ordered, CommitKey, HasUserPrefix;
    var all := commits + [pos];
    forall i | 0 <= i < |all| ensures all[i] < POSITIONS && CommitKey(all[i]) in Contents(u) {
      if i < |commits| {
        CommitNotUser(commits[i]);
        ReplayOutsideUser(Contents(t), ops, CommitKey(commits[i]));
      }
    }
    forall k | k in Contents(u) ensures HasUserPrefix(k) || Listed(k, all) {
      if k == CommitKey(pos) {
        assert k == CommitKey(all[|commits|]);
      } else if !HasUserPrefix(k) {
        ReplayOutsideUser(Contents(t), ops, k);
        var i :| 0 <= i < |commits| && k == CommitKey(commits[i]);
        assert k == CommitKey(all[i]);
      }
    }
  }

  lemma InvParts(log: Log, h: History)
    requires Inv(log, h)
    ensures h.commits != [] && Ascending(h.commits) && h.commits[|h.commits| - 1] == h.db.snapshot
    ensures forall i :: 0 <= i < |h.commits| ==> h.commits[i] <= h.db.snapshot
  {
    hide CommitKey, Recent, SerialMap, ValidTree, Contents, WellLinked, Stored, Listed, HasUserPrefix, Ordered;
    assert Ascending(h.commits);
  }

  lemma StepStore(log: Log, h: History, pos: nat)
    requires Inv(log, h) && Admissible(log, h, pos) && pos < |log| && log[pos].IntentionEntry?
    ensures var r := NextRoot(h.db.root, Ops(log, pos), pos);
      var s := h.store[pos := Entries(r, pos)];
      Stored(r, s) && r.where.ipos == pos && |Entries(r, pos)| == r.where.off + 1 && WellLinked(s)
  {
    hide Delta, Catalogued, Recent, SerialMap, ValidTree, Contents, ReplayMap, Place, FreshCount, Grown, Entries;
    hide WellLinked, Stored, Layered, UserOps;
    var d := Delta(h.db.root, Ops(log, pos), pos);
    DeltaFacts(h, log, Ops(log, pos), pos);
    RoundTrip(d, h.store, pos);
    AddImage(d, h.store, pos);
  }

  /** Every step keeps the invariant. */
  lemma StepInv(rule: Rule, log: Log, h: History, pos: nat, limit: nat)
    requires Inv(log, h) && Admissible(log, h, pos)
    ensures Inv(log, Step(rule, log, h, pos, limit))
  {
    hide Delta, Catalogued, Recent, ValidTree, Contents, ReplayMap, Place, FreshCount, Grown, Entries, WellLinked;
    hide Stored, Layered, UserOps, Commits, CommitKey, Push, PutT, Replay, Old, MapOf, Pad20, Less;
    if pos < |log| && log[pos].IntentionEntry? && Commits(rule, log, h.db, log[pos].intention) {
      var ops, n := Ops(log, pos), Step(rule, log, h, pos, limit);
      var d := Delta(h.db.root, ops, pos);
      DeltaFacts(h, log, ops, pos);
      StepStore(log, h, pos);
      PlacedValid(d, pos);
      InvParts(log, h);
      ValidOrdered(n.db.root);
      CommitCatalogued(h.db.root, n.db.root, h.commits, ops, pos);
      PushRecent(h.db.index, h.commits, pos, limit);
      assert n.commits[..|n.commits| - 1] == h.commits;
    }
  }

  /** What a commit does to the map: what its operations say, and the commit is listed. */
  lemma CommitMap(log: Log, h: History, pos: nat)
    requires Inv(log, h) && h.db.snapshot < pos
    ensures Contents(NextRoot(h.db.root, Ops(log, pos), pos)) ==
      ReplayMap(Contents(h.db.root), Ops(log, pos))[CommitKey(pos) := ""]
  {
    hide Inv, Delta, Contents, ReplayMap, CommitKey, Place, Grown;
    DeltaFacts(h, log, Ops(log, pos), pos);
    PlacedValid(Delta(h.db.root, Ops(log, pos), pos), pos);
  }

  /** Clients see what a commit has written: the value of the last put of a key, nothing
      after a delete, and what was there before if it was not written. */
  lemma CommitVisible(log: Log, h: History, pos: nat, k: Key)
    requires Inv(log, h) && h.db.snapshot < pos < POSITIONS
    ensures var ops, root := Ops(log, pos), NextRoot(h.db.root, Ops(log, pos), pos);
      && ValueOf(Contents(root), k) == ValueOf(ReplayMap(Contents(h.db.root), ops), k)
      && (forall j | 0 <= j < |ops| && Writes(ops[j], k) && (forall i | j < i < |ops| :: !Writes(ops[i], k)) ::
            ValueOf(Contents(root), k) == if ops[j].Put? then Some(ops[j].val) else None)
      && ((forall op | op in ops :: !Writes(op, k)) ==> ValueOf(Contents(root), k) == ValueOf(Contents(h.db.root), k))
  {
    hide Inv, NextRoot, Contents, ReplayMap, CommitKey, User;
    var ops := Ops(log, pos);
    CommitMap(log, h, pos);
    NotCommitKey(pos, k);
    forall j | 0 <= j < |ops| && Writes(ops[j], k) && (forall i | j < i < |ops| :: !Writes(ops[i], k)) {
      WrittenReplay(Contents(h.db.root), ops, k, j);
    }
    if forall op | op in ops :: !Writes(op, k) {
      UnwrittenReplay(Contents(h.db.root), ops, k);
    }
  }

  lemma ValidOrdered(t: Tree)
    requires ValidTree(t)
    ensures Ordered(t)
  {
  }

  /** Every reachable state: a red-black search tree that can be read back from the
      after images, the exact catalog of commits, and the contents that replaying
      all commits in log order gives. */
  lemma {:induction false} RunInv(rule: Rule, log: Log, h: History, start: nat, end: nat, limit: nat)
    requires Inv(log, h) && AllAdmissible(rule, log, h, start, end, limit)
    ensures Inv(log, Run(rule, log, h, start, end, limit))
    decreases end
  {
    hide Inv, Step, Admissible;
    if start < end {
      RunInv(rule, log, h, start, end - 1, limit);
      StepInv(rule, log, Run(rule, log, h, start, end - 1, limit), end - 1, limit);
    }
  }

  /** The map of a history, commit by commit: the last write of a key in the last commit
      that writes it decides, and a key that no commit writes is not there. */
  lemma {:induction false} SerialLastWrite(log: Log, commits: seq<nat>, k: Key, c: nat, j: nat)
    requires c < |commits| && j < |Ops(log, commits[c])| && Writes(Ops(log, commits[c])[j], k)
    requires forall i | j < i < |Ops(log, commits[c])| :: !Writes(Ops(log, commits[c])[i], k)
    requires forall d | c < d < |commits| :: forall op | op in Ops(log, commits[d]) :: !Writes(op, k)
    ensures ValueOf(SerialMap(log, commits), k) ==
      if Ops(log, commits[c])[j].Put? then Some(Ops(log, commits[c])[j].val) else None
  {
    hide Contents, CommitKey, User, ReplayMap;
    var rest, pos := commits[..|commits| - 1], commits[|commits| - 1];
    NotCommitKey(pos, k);
    if c < |rest| {
      SerialLastWrite(log, rest, k, c, j);
      UnwrittenReplay(SerialMap(log, rest), Ops(log, pos), k);
    } else {
      WrittenReplay(SerialMap(log, rest), Ops(log, pos), k, j);
    }
  }

  lemma {:induction false} SerialUnwritten(log: Log, commits: seq<nat>, k: Key)
    requires forall c | 0 <= c < |commits| :: forall op | op in Ops(log, commits[c]) :: !Writes(op, k)
    ensures ValueOf(SerialMap(log, commits), k) == None
  {
    hide Contents, CommitKey, User, ReplayMap;
    if commits != [] {
      var rest, pos := commits[..|commits| - 1], commits[|commits| - 1];
      NotCommitKey(pos, k);
      SerialUnwritten(log, rest, k);
      UnwrittenReplay(SerialMap(log, rest), Ops(log, pos), k);
    }
  }

  lemma NotCommitKey(pos: nat, k: Key)
    ensures CommitKey(pos) != User(k)
  {
    CommitNotUser(pos);
    UserPrefixed(k);
  }

  lemma WrittenReplay(m: map<Key, Val>, ops: seq<Op>, k: Key, j: nat)
    requires j < |ops| && Writes(ops[j], k) && forall i | j < i < |ops| :: !Writes(ops[i], k)
    ensures ValueOf(ReplayMap(m, ops), k) == if ops[j].Put? then Some(ops[j].val) else None
  {
    hide User, ReplayMap;
    forall a ensures User(a) == User(k) <==> a == k {
      UserInjective(a, k);
    }
    LastWriteDecides(m, ops, User(k), j);
  }

  lemma UnwrittenReplay(m: map<Key, Val>, ops: seq<Op>, k: Key)
    requires forall op | op in ops :: !Writes(op, k)
    ensures ValueOf(ReplayMap(m, ops), k) == ValueOf(m, k)
  {
    hide User, ReplayMap;
    forall a ensures User(a) == User(k) <==> a == k {
      UserInjective(a, k);
    }
    ReplayUntouched(m, ops, User(k));
  }

  /** What is appended to the log does not affect what has been committed. */
  lemma {:induction false} SerialGrows(log: Log, more: Log, commits: seq<nat>)
    requires forall c | c in commits :: c < |log|
    ensures SerialMap(log + more, commits) == SerialMap(log, commits)
  {
    if commits != [] {
      var rest, last := commits[..|commits| - 1], commits[|commits| - 1];
      assert last in commits && (log + more)[last] == log[last];
      assert forall c | c in rest :: c in commits;
      SerialGrows(log, more, rest);
    }
  }

  lemma InvGrows(log: Log, more: Log, h: History)
    requires Inv(log, h) && h.db.snapshot < |log|
    ensures Inv(log + more, h)
  {
    hide WellLinked, Catalogued, Recent, SerialMap, ValidTree, Contents, Stored;
    InvParts(log, h);
    SerialGrows(log, more, h.commits);
  }

  /** A run decides on every intention it comes along, in the state that those before it
      have made, and nothing else commits. */
  lemma {:induction false} RunDecides(rule: Rule, log: Log, h: History, start: nat, end: nat, limit: nat, p: nat)
    requires start <= p < end && forall c | c in h.commits :: c < start
    ensures p in Run(rule, log, h, start, end, limit).commits <==>
      p < |log| && log[p].IntentionEntry? && Commits(rule, log, Run(rule, log, h, start, p, limit).db, log[p].intention)
    decreases end
  {
    hide Commits, NextRoot, Entries, Push;
    CommitsBelow(rule, log, h, start, end - 1, limit);
    if p < end - 1 {
      RunDecides(rule, log, h, start, end - 1, limit, p);
    }
  }

  lemma {:induction false} CommitsBelow(rule: Rule, log: Log, h: History, start: nat, end: nat, limit: nat)
    requires forall c | c in h.commits :: c < start
    ensures forall c | c in Run(rule, log, h, start, end, limit).commits :: c < start || c < end
    decreases end
  {
    hide Commits, NextRoot, Entries, Push;
    if start < end {
      CommitsBelow(rule, log, h, start, end - 1, limit);
    }
  }

  /** Whatever the run, an index that began to fill at its beginning holds the newest of
      the commits since then, `limit` of them if there are that many. */
  lemma {:induction false} RunNewest(rule: Rule, log: Log, h: History, start: nat, end: nat, limit: nat)
    requires h.db.index == []
    ensures var g := Run(rule, log, h, start, end, limit);
      var n := |g.commits| - |h.commits|;
      n >= 0 && g.db.index == g.commits[|g.commits| - (if limit < n then limit else n)..]
    decreases end
  {
    hide Commits, NextRoot, Entries, Push;
    if end <= start {
      assert h.commits[|h.commits|..] == [];
    } else {
      RunNewest(rule, log, h, start, end - 1, limit);
      var g := Run(rule, log, h, start, end - 1, limit);
      PushNewest(g.db.index, g.commits, |h.commits|, end - 1, limit);
    }
  }

  /** The invariant does not depend on how much the index knows. */
  lemma EmptyIndex(log: Log, h: History)
    requires Inv(log, h)
    ensures Inv(log, h.(db := h.db.(index := [])))
  {
    hide WellLinked, Catalogued, SerialMap, ValidTree, Contents, Stored;
    assert h.commits[|h.commits|..] == [];
  }
}
