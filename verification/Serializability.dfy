/** Are the committed transactions serial in log order? Exactly those whose reads
    are covered by the keys that conflicts are looked for with. */
module Serializability {
  import opened Basics
  import opened Keys
  import opened Trees
  import opened TreeOps
  import opened TreeProofs
  import opened Zippers
  import opened Sharing
  import opened Deltas
  import opened Positions
  import opened Intentions
  import opened Iterators
  import opened Catalogs
  import opened Histories

  // ----------------------------------------------------------- the first state

  /** How every log begins. */
  const FIRST_OPS := [Put(CommitKey(1), "")]

  predicate WellBegun(log: Log) {
    |log| > 2 && log[1] == IntentionEntry(Intention(0, 0, false, FIRST_OPS))
  }

  function FirstRoot(): Tree {
    Place(PutT(Nil, CommitKey(1), ""), 1, 0).0
  }

  /** A new database: one commit, which lists itself. */
  function First(): History {
    History(Db(FirstRoot(), 1, []), [1], map[1 := Entries(FirstRoot(), 1)])
  }

  lemma PutSize(t: Tree, k: Key, v: Val)
    requires ValidTree(t)
    ensures |Flat(PutT(t, k, v))| <= |Flat(t)| + 1
  {
    hide ValidTree, InsertFix, Remove, Less;
    DeleteHas(t, k);
    var u := if Has(t, k) then DeleteT(t, k) else t;
    var p := Descend(u, k, Top).1;
    var h := DescendFacts(u, k);
    FlatInsertFix(Node(Fresh, true, k, v, Nil, Nil), p);
    if Has(t, k) {
      var g := DescendFacts(t, k);
      FlatRemove(Descend(t, k, Top).0, Descend(t, k, Top).1);
    }
  }

  lemma {:induction false} FreshAtMost(t: Tree)
    ensures FreshCount(t) <= |Flat(t)|
  {
    if t.Node? {
      FreshAtMost(t.left);
      FreshAtMost(t.right);
    }
  }

  lemma FirstInv(log: Log)
    requires WellBegun(log)
    ensures Inv(log, First())
  {
    hide CommitKey, PutT, Place, Entries, Grown, Less, ValidTree, WellLinked, Stored, SerialMap, Catalogued, FreshCount;
    hide Flat, Contents, SameShape;
    var d := PutT(Nil, CommitKey(1), "");
    EmptyValid();
    PutCorrect(Nil, CommitKey(1), "");
    BuiltPut(Nil, CommitKey(1), "", {});
    BuiltGrown(d, {}, map[], 1);
    PutSize(Nil, CommitKey(1), "");
    FreshAtMost(d);
    RoundTrip(d, map[], 1);
    EmptyLinked();
    AddImage(d, map[], 1);
    PlacedValid(d, 1);
    FirstCatalog(FirstRoot());
    FirstMap(log);
  }

  lemma FirstDelta()
    ensures FreshCount(PutT(Nil, CommitKey(1), "")) <= OFFSETS
  {
    hide CommitKey, PutT;
    EmptyValid();
    PutSize(Nil, CommitKey(1), "");
    FreshAtMost(PutT(Nil, CommitKey(1), ""));
  }

  lemma EmptyLinked()
    ensures WellLinked(map[])
  {
  }

  lemma FirstCatalog(t: Tree)
    requires ValidTree(t) && Contents(t) == map[CommitKey(1) := ""]
    ensures Catalogued(t, [1])
  {
    hide CommitKey, Contents, Less;
    assert CommitKey([1][0]) == CommitKey(1);
    forall k | k in Contents(t) ensures Listed(k, [1]) {
      assert k == CommitKey([1][0]);
    }
  }

  lemma EmptyValid()
    ensures ValidTree(Nil) && Layered(Nil) && Contents(Nil) == map[] && Flat(Nil) == []
  {
  }

  lemma FirstMap(log: Log)
    requires WellBegun(log)
    ensures SerialMap(log, [1]) == map[CommitKey(1) := ""]
  {
    hide CommitKey;
    assert [1][..0] == [] && SerialMap(log, []) == map[];
    assert FIRST_OPS[..0] == [] && ReplayMap(map[], []) == map[];
    assert ReplayMap(map[], FIRST_OPS) == map[CommitKey(1) := ""];
  }

  // ------------------------------------------------------------------ decisions

  /** What a transaction is checked against that did not run on the last state. */
  lemma CheckedExact(rule: Rule, log: Log, h: History, snapshot: nat, p: nat)
    requires Inv(log, h) && snapshot in h.commits && snapshot != h.db.snapshot
    ensures p in Checked(rule, h.db, snapshot) <==>
      p in h.commits && (snapshot < p || (p == snapshot && p in h.db.index && !rule.halfOpen))
  {
    hide Zone, HalfOpenZone, CommitKey, Listed, Contents, SerialMap, ValidTree, Stored, WellLinked, HasUserPrefix;
    InvParts(log, h);
    var j :| 0 <= j < |h.commits| && h.commits[j] == snapshot;
    ZoneCoverage(h.db.root, h.db.index, h.commits, j, p);
    HalfOpenCoverage(h.db.root, h.db.index, h.commits, j, p);
  }

  /** A transaction that did not run on the last state is checked against every
      commit since its snapshot, and against its snapshot itself if the index still
      knows that: it commits if and only if none of them has put or deleted a key, as
      recorded, that it reads or writes. */
  lemma DecisionExact(rule: Rule, log: Log, h: History, i: Intention)
    requires Inv(log, h) && i.snapshot in h.commits && !Serial(h.db, i)
    ensures Commits(rule, log, h.db, i) <==>
      && (forall p | p in h.commits && p > i.snapshot :: !Clashes(rule, log, i.ops, p))
      && (i.snapshot in h.db.index && !rule.halfOpen ==> !Clashes(rule, log, i.ops, i.snapshot))
    ensures !rule.oneSpace ==> (Commits(rule, log, h.db, i) <==> forall p, x, y |
      && p in h.commits && (p > i.snapshot || (p == i.snapshot && p in h.db.index && !rule.halfOpen))
      && 0 <= x < |i.ops| && 0 <= y < |Ops(log, p)| && (Ops(log, p)[y].Put? || Ops(log, p)[y].Delete?) ::
      i.ops[x].key != Ops(log, p)[y].key)
  {
    hide Inv, Clashes, Checked;
    forall p {
      ClashesExactly(rule, log, i.ops, p);
    }
    var z := Checked(rule, h.db, i.snapshot);
    forall p ensures p in z <==> p in h.commits && (i.snapshot < p || (p == i.snapshot && p in h.db.index && !rule.halfOpen)) {
      CheckedExact(rule, log, h, i.snapshot, p);
    }
    if Conflicts(rule, log, i.ops, z) {
      var x :| 0 <= x < |z| && Clashes(rule, log, i.ops, z[x]);
      assert z[x] in z;
    } else {
      forall p | p in z ensures !Clashes(rule, log, i.ops, p) {
        var x :| 0 <= x < |z| && z[x] == p;
      }
    }
  }

  /** The same along a run, without asking the index: since the database opened, on `h`,
      the index knows the newest commits, `limit` of them if there are that many. */
  lemma DecisionInRun(rule: Rule, log: Log, h: History, start: nat, end: nat, limit: nat, i: Intention)
    requires Inv(log, h) && h.db.index == [] && AllAdmissible(rule, log, h, start, end, limit) && !rule.oneSpace
    requires var g := Run(rule, log, h, start, end, limit); i.snapshot in g.commits && i.snapshot != g.db.snapshot && !i.flush
    ensures var g := Run(rule, log, h, start, end, limit);
      var n := |g.commits| - |h.commits|;
      var known := |g.commits| - if limit < n then limit else n;
      Commits(rule, log, g.db, i) <==> forall c, x, y |
        && 0 <= c < |g.commits| && (g.commits[c] > i.snapshot || (g.commits[c] == i.snapshot && c >= known && !rule.halfOpen))
        && 0 <= x < |i.ops| && 0 <= y < |Ops(log, g.commits[c])|
        && (Ops(log, g.commits[c])[y].Put? || Ops(log, g.commits[c])[y].Delete?) ::
        i.ops[x].key != Ops(log, g.commits[c])[y].key
  {
    hide Run, Inv, AllAdmissible, Commits;
    var g := Run(rule, log, h, start, end, limit);
    RunInv(rule, log, h, start, end, limit);
    RunNewest(rule, log, h, start, end, limit);
    DecisionExact(rule, log, g, i);
    InvParts(log, g);
    forall c | 0 <= c < |g.commits| ensures g.commits[c] in g.db.index <==> c >= |g.commits| - |g.db.index| {
      KnownFrom(g.db.index, g.commits, c);
    }
  }

  // ---------------------------------------------------------------------- reads

  /** What operation `j`, a Get, reads in a transaction that runs on `m`: its own
      earlier writes are visible to it. */
  function Read(m: map<Key, Val>, ops: seq<Op>, j: nat): Option<Val>
    requires j < |ops|
  {
    ValueOf(ReplayMap(m, ops[..j]), ops[j].key)
  }

  /** A read of what the snapshot, not the transaction itself, has written. */
  predicate Exposed(ops: seq<Op>, j: nat)
    requires j < |ops|
  {
    ops[j].Get? && forall i :: 0 <= i < j ==> !Writes(ops[i], ops[j].key)
  }

  /** For every read of the snapshot the key is also recorded with its prefix, as
      it is when the transaction puts the key, too. */
  predicate Covered(ops: seq<Op>) {
    forall j :: 0 <= j < |ops| && Exposed(ops, j) ==> User(ops[j].key) in OpKeys(ops)
  }

  predicate Agree(m: map<Key, Val>, n: map<Key, Val>, k: Key) {
    (k in m <==> k in n) && (k in m ==> m[k] == n[k])
  }

  /** Where two states agree, or a transaction has written itself, they agree
      after the same operations. */
  lemma {:induction false} ReplayAgree(m: map<Key, Val>, n: map<Key, Val>, ops: seq<Op>, k: Key)
    requires Agree(m, n, User(k)) || exists i :: 0 <= i < |ops| && Writes(ops[i], k)
    ensures Agree(ReplayMap(m, ops), ReplayMap(n, ops), User(k))
  {
    if ops != [] {
      var rest, op := ops[..|ops| - 1], ops[|ops| - 1];
      UserInjective(op.key, k);
      if !Writes(op, k) {
        if i :| 0 <= i < |ops| && Writes(ops[i], k) {
          assert rest[i] == ops[i];
        }
        ReplayAgree(m, n, rest, k);
      }
    }
  }

  /** Commits that do not overlap leave a key alone that is recorded in both forms. */
  lemma {:induction false} SerialUntouched(log: Log, commits: seq<nat>, n: nat, ops: seq<Op>, k: Key)
    requires n <= |commits| && k in OpKeys(ops) && User(k) in OpKeys(ops)
    requires forall i :: n <= i < |commits| ==> !Overlaps(log, ops, commits[i])
    ensures Agree(SerialMap(log, commits[..n]), SerialMap(log, commits), User(k))
  {
    if n == |commits| {
      assert commits[..n] == commits;
    } else {
      var rest, pos := commits[..|commits| - 1], commits[|commits| - 1];
      assert rest[..n] == commits[..n];
      SerialUntouched(log, rest, n, ops, k);
      var other := Ops(log, pos);
      forall op | op in other && op.Put? ensures op.key != User(k) {
        assert op.key in UpdateOpKeys(other);
        assert op.key in OpKeys(ops) ==> op.key in OpKeys(ops) * UpdateOpKeys(other);
      }
      forall op | op in other && op.Delete? ensures User(op.key) != User(k) {
        UserInjective(op.key, k);
        assert op.key in UpdateOpKeys(other);
        assert op.key in OpKeys(ops) ==> op.key in OpKeys(ops) * UpdateOpKeys(other);
      }
      ReplayUntouched(SerialMap(log, rest), other, User(k));
      CommitBeforeUser(pos, k);
    }
  }

  /** The commits up to a snapshot. */
  function UpTo(commits: seq<nat>, snapshot: nat): seq<nat> {
    if commits == [] || commits[|commits| - 1] == snapshot then commits else UpTo(commits[..|commits| - 1], snapshot)
  }

  lemma {:induction false} UpToFacts(commits: seq<nat>, j: nat)
    requires Ascending(commits) && j < |commits|
    ensures UpTo(commits, commits[j]) == commits[..j + 1]
  {
    if j == |commits| - 1 {
      assert commits[..j + 1] == commits;
    } else {
      var rest := commits[..|commits| - 1];
      UpToFacts(rest, j);
      assert rest[..j + 1] == commits[..j + 1];
    }
  }

  /** What a read of a transaction returns, and what it would return if the
      transaction ran at the moment of its commit. */
  ghost predicate ReadsCurrent(log: Log, h: History, i: Intention, j: nat)
    requires j < |i.ops|
  {
    Read(SerialMap(log, UpTo(h.commits, i.snapshot)), i.ops, j) == Read(Contents(h.db.root), i.ops, j)
  }

  /** A transaction that commits clashes with no commit since its snapshot. */
  lemma LaterClear(rule: Rule, log: Log, h: History, i: Intention, x: nat)
    requires Inv(log, h) && i.snapshot in h.commits && !i.flush && Commits(rule, log, h.db, i)
    requires x < |h.commits| && h.commits[x] == i.snapshot
    ensures forall y :: x < y < |h.commits| ==>
      if rule.oneSpace then !OverlapsInOneSpace(log, i.ops, h.commits[y]) else !Overlaps(log, i.ops, h.commits[y])
  {
    hide Inv, Overlaps, OverlapsInOneSpace, Commits;
    InvParts(log, h);
    if !Serial(h.db, i) {
      DecisionExact(rule, log, h, i);
      forall y | x < y < |h.commits| ensures !Clashes(rule, log, i.ops, h.commits[y]) {
        Later(h.commits, x);
      }
    } else {
      OnlyLast(h.commits, x);
    }
  }

  /** Serializability, as far as it goes: a committed transaction whose reads are
      covered has read what the state of all commits before it holds. */
  lemma CoveredReadsCurrent(rule: Rule, log: Log, h: History, i: Intention, j: nat)
    requires Inv(log, h) && i.snapshot in h.commits && !i.flush && Commits(rule, log, h.db, i)
    requires !rule.oneSpace && Covered(i.ops) && j < |i.ops| && i.ops[j].Get?
    ensures ReadsCurrent(log, h, i, j)
  {
    hide CommitKey, SerialMap, ReplayMap, ValidTree, Catalogued, Stored, WellLinked, Zone, Conflicts, Overlaps, OpKeys, Ascending;
    InvParts(log, h);
    var x :| 0 <= x < |h.commits| && h.commits[x] == i.snapshot;
    UpToFacts(h.commits, x);
    var k := i.ops[j].key;
    var m, n := SerialMap(log, h.commits[..x + 1]), SerialMap(log, h.commits);
    if Exposed(i.ops, j) {
      KeyRecorded(i.ops, j);
      LaterClear(rule, log, h, i, x);
      SerialUntouched(log, h.commits, x + 1, i.ops, k);
    } else {
      var y :| 0 <= y < j && Writes(i.ops[y], k);
      assert i.ops[..j][y] == i.ops[y];
    }
    ReplayAgree(m, n, i.ops[..j], k);
  }

  lemma KeyRecorded(ops: seq<Op>, j: nat)
    requires j < |ops|
    ensures ops[j].key in OpKeys(ops)
  {
  }

  lemma Later(commits: seq<nat>, x: nat)
    requires Ascending(commits) && x < |commits|
    ensures forall y :: x < y < |commits| ==> commits[y] > commits[x]
  {
  }

  lemma OnlyLast(commits: seq<nat>, x: nat)
    requires Ascending(commits) && x < |commits| && commits[x] == commits[|commits| - 1]
    ensures x == |commits| - 1
  {
  }

  // ------------------------------------------- with all keys in one key space

  lemma {:induction false} SerialUntouchedInOneSpace(log: Log, commits: seq<nat>, n: nat, ops: seq<Op>, j: nat)
    requires n <= |commits| && j < |ops| && ops[j].Get?
    requires forall i :: n <= i < |commits| ==> !OverlapsInOneSpace(log, ops, commits[i])
    ensures Agree(SerialMap(log, commits[..n]), SerialMap(log, commits), User(ops[j].key))
  {
    if n == |commits| {
      assert commits[..n] == commits;
    } else {
      var rest, pos := commits[..|commits| - 1], commits[|commits| - 1];
      assert rest[..n] == commits[..n];
      SerialUntouchedInOneSpace(log, rest, n, ops, j);
      var other := Ops(log, pos);
      forall op | op in other
        ensures op.Put? ==> op.key != User(ops[j].key)
        ensures op.Delete? ==> User(op.key) != User(ops[j].key)
      {
        var y :| 0 <= y < |other| && other[y] == op;
        assert op.Put? || op.Delete? ==> TreeKey(ops[j]) != TreeKey(other[y]);
      }
      ReplayUntouched(SerialMap(log, rest), other, User(ops[j].key));
      CommitBeforeUser(pos, ops[j].key);
    }
  }

  /** If conflicts were looked for in one key space, all reads of all transactions
      that commit would be current. */
  lemma OneSpaceReadsCurrent(rule: Rule, log: Log, h: History, i: Intention, j: nat)
    requires Inv(log, h) && i.snapshot in h.commits && !i.flush && Commits(rule, log, h.db, i)
    requires rule.oneSpace && j < |i.ops| && i.ops[j].Get?
    ensures ReadsCurrent(log, h, i, j)
  {
    hide CommitKey, SerialMap, ReplayMap, ValidTree, Catalogued, Stored, WellLinked, Zone, Conflicts, OverlapsInOneSpace, Ascending;
    InvParts(log, h);
    var x :| 0 <= x < |h.commits| && h.commits[x] == i.snapshot;
    UpToFacts(h.commits, x);
    LaterClear(rule, log, h, i, x);
    SerialUntouchedInOneSpace(log, h.commits, x + 1, i.ops, j);
    ReplayAgree(SerialMap(log, h.commits[..x + 1]), SerialMap(log, h.commits), i.ops[..j], i.ops[j].key);
  }

  // ---------------------------------------------------------- exactly which ones

  /** A state of a database that processes its log from the beginning. */
  ghost predicate Reachable(rule: Rule, log: Log, h: History) {
    WellBegun(log) && exists end: nat, limit: nat :: Reaches(rule, log, h, end, limit)
  }

  ghost predicate Reaches(rule: Rule, log: Log, h: History, end: nat, limit: nat) {
    AllAdmissible(rule, log, First(), 2, end, limit) && h == Run(rule, log, First(), 2, end, limit)
  }

  /** Whatever else happens, a transaction with these operations that commits has
      read what the state of all commits before it holds. */
  ghost predicate AlwaysCurrent(rule: Rule, ops: seq<Op>) {
    forall log: Log, h: History, i: Intention, j: nat ::
      (Reachable(rule, log, h) && i.ops == ops && !i.flush && i.snapshot in h.commits && Commits(rule, log, h.db, i)
       && j < |ops| && ops[j].Get?) ==>
      ReadsCurrent(log, h, i, j)
  }

  /** A log on which another transaction puts the key that `ops` reads. */
  function StaleLog(k: Key): Log {
    [Filled, IntentionEntry(Intention(0, 0, false, FIRST_OPS)), AfterImageEntry(1, Entries(FirstRoot(), 1)),
     IntentionEntry(Intention(1, 0, false, [Put(User(k), "")]))]
  }

  lemma FirstSize(log: Log)
    requires WellBegun(log)
    ensures Inv(log, First()) && |Flat(FirstRoot())| <= 1
  {
    hide CommitKey, PutT, Place;
    FirstInv(log);
    EmptyValid();
    PutSize(Nil, CommitKey(1), "");
    PlaceFacts(PutT(Nil, CommitKey(1), ""), 1, 0);
    SameShapeFacts(FirstRoot(), PutT(Nil, CommitKey(1), ""));
  }

  /** One put makes a small delta. */
  lemma PutFits(log: Log, h: History, pos: nat, k: Key)
    requires Inv(log, h) && |Flat(h.db.root)| < 100
    ensures var ops, t := [Put(User(k), "")], h.db.root;
      && UserOps(ops) && FreshCount(Delta(t, ops, pos)) <= OFFSETS && ValidTree(Delta(t, ops, pos))
      && |Flat(Delta(t, ops, pos))| <= |Flat(t)| + 2
  {
    hide Inv, ValidTree, CommitKey, PutT, Flat, HasUserPrefix;
    var ops, t := [Put(User(k), "")], h.db.root;
    UserPrefixed(k);
    assert ops[..0] == [] && Replay(t, ops) == PutT(t, User(k), "");
    InvValid(log, h);
    PutSize(t, User(k), "");
    PutCorrect(t, User(k), "");
    PutSize(PutT(t, User(k), ""), CommitKey(pos), "");
    PutCorrect(PutT(t, User(k), ""), CommitKey(pos), "");
    FreshAtMost(Delta(t, ops, pos));
  }

  /** A put by a transaction that ran on the last state commits. */
  lemma PutStep(rule: Rule, log: Log, h: History, pos: nat, k: Key, limit: nat)
    requires Inv(log, h) && h.db.snapshot < pos < |log| && pos < POSITIONS && |Flat(h.db.root)| < 100
    requires log[pos] == IntentionEntry(Intention(h.db.snapshot, 0, false, [Put(User(k), "")]))
    ensures Admissible(log, h, pos)
    ensures var n := Step(rule, log, h, pos, limit);
      && Inv(log, n) && n.commits == h.commits + [pos] && n.db.snapshot == pos
      && n.db.index == Push(h.db.index, pos, limit) && |Flat(n.db.root)| <= |Flat(h.db.root)| + 2
      && n.db.root == NextRoot(h.db.root, [Put(User(k), "")], pos) && n.store == h.store[pos := Entries(n.db.root, pos)]
  {
    hide Inv, ValidTree, CommitKey, PutT, Flat, Place, Push, Entries, SerialMap, Zone, HasUserPrefix, UserOps, Delta;
    var ops, t := [Put(User(k), "")], h.db.root;
    InvParts(log, h);
    PutFits(log, h, pos, k);
    StepInv(rule, log, h, pos, limit);
    PlaceFacts(Delta(t, ops, pos), pos, 0);
    SameShapeFacts(NextRoot(t, ops, pos), Delta(t, ops, pos));
  }

  lemma InvValid(log: Log, h: History)
    requires Inv(log, h)
    ensures ValidTree(h.db.root)
  {
  }

  /** On that log the put commits right away. */
  lemma StaleRun(rule: Rule, k: Key) returns (h: History)
    ensures var log := StaleLog(k); Reachable(rule, log, h) && Inv(log, h)
    ensures h.commits == [1, 3] && h.db.index == [3] && h.db.snapshot == 3
  {
    hide Inv, ValidTree, CommitKey, PutT, NextRoot, FirstRoot, Entries, Reachable, SerialMap, Flat;
    var log, g := StaleLog(k), First();
    FirstSize(log);
    PutStep(rule, log, g, 3, k, 1);
    h := Step(rule, log, g, 3, 1);
    assert Run(rule, log, g, 2, 2, 1) == g && Run(rule, log, g, 2, 3, 1) == Step(rule, log, g, 2, 1) == g;
    assert Run(rule, log, g, 2, 4, 1) == Step(rule, log, g, 3, 1);
    assert Reaches(rule, log, h, 4, 1);
    ReachedAt(rule, log, h, 4, 1);
  }

  lemma ReachedAt(rule: Rule, log: Log, h: History, end: nat, limit: nat)
    requires WellBegun(log) && Reaches(rule, log, h, end, limit)
    ensures Reachable(rule, log, h)
  {
  }

  /** After that put the prefix iterator no longer finds the last commit of the catalog
      in the tree. */
  lemma CatalogLastFails(rule: Rule, k: Key) returns (h: History)
    ensures Reachable(rule, StaleLog(k), h) && !AtLast(Flat(h.db.root), |Flat(h.db.root)| - 1, PREFIX_COMMITTED_INTENTION)
  {
    hide CommitKey, Entries, FirstRoot, Reachable, ValidTree, AtLast, Flat;
    h := StaleRun(rule, k);
    StaleMaps(StaleLog(k), h, k);
    LastFails(h.db.root, h.commits, k);
  }

  /** A read that is not covered goes stale there, and the transaction commits. */
  lemma UncoveredStale(rule: Rule, ops: seq<Op>, j: nat)
    requires !rule.oneSpace && j < |ops| && Exposed(ops, j) && User(ops[j].key) !in OpKeys(ops)
    ensures !AlwaysCurrent(rule, ops)
  {
    hide Inv, CommitKey, Entries, FirstRoot, Reachable, ValidTree, Zone, Conflicts, AlwaysCurrent;
    var k := ops[j].key;
    var log, i := StaleLog(k), Intention(1, 0, false, ops);
    var h := StaleRun(rule, k);
    DecisionExact(rule, log, h, i);
    StaleMaps(log, h, k);
    var m, n := SerialMap(log, [1]), SerialMap(log, [1, 3]);
    assert UpTo([1, 3], 1) == [1] by {
      assert [1, 3][..1] == [1];
    }
    OwnWrites(ops, j);
    ReplayUntouched(m, ops[..j], User(k));
    ReplayUntouched(n, ops[..j], User(k));
    InvContents(log, h);
    assert !ReadsCurrent(log, h, i, j);
    NotAlways(rule, log, h, i, j, ops);
  }

  lemma NotAlways(rule: Rule, log: Log, h: History, i: Intention, j: nat, ops: seq<Op>)
    requires Reachable(rule, log, h) && i.ops == ops && !i.flush && i.snapshot in h.commits && Commits(rule, log, h.db, i)
    requires j < |ops| && ops[j].Get? && !ReadsCurrent(log, h, i, j)
    ensures !AlwaysCurrent(rule, ops)
  {
    hide Reachable, Commits, ReadsCurrent;
  }

  lemma InvContents(log: Log, h: History)
    requires Inv(log, h)
    ensures Contents(h.db.root) == SerialMap(log, h.commits)
  {
  }

  lemma OwnWrites(ops: seq<Op>, j: nat)
    requires j < |ops| && Exposed(ops, j)
    ensures forall op | op in ops[..j] && op.Put? :: op.key != User(ops[j].key)
    ensures forall op | op in ops[..j] && op.Delete? :: User(op.key) != User(ops[j].key)
  {
    forall op | op in ops[..j]
      ensures op.Put? ==> op.key != User(ops[j].key)
      ensures op.Delete? ==> User(op.key) != User(ops[j].key)
    {
      var i :| 0 <= i < j && ops[i] == op;
      assert !Writes(ops[i], ops[j].key);
      UserInjective(op.key, ops[j].key);
    }
  }

  lemma StaleMaps(log: Log, h: History, k: Key)
    requires log == StaleLog(k)
    ensures User(k) !in SerialMap(log, [1]) && User(k) in SerialMap(log, [1, 3])
  {
    hide CommitKey, Entries, FirstRoot;
    FirstMap(log);
    CommitBeforeUser(1, k);
    CommitBeforeUser(3, k);
    var ops := [Put(User(k), "")];
    assert [1, 3][..1] == [1] && Ops(log, 3) == ops;
    assert ops[..0] == [] && ReplayMap(SerialMap(log, [1]), ops) == SerialMap(log, [1])[User(k) := ""];
  }

  /** The committed history is serial in log order for exactly those transactions
      whose reads of the snapshot are covered: a Get records the bare key, a Put the
      prefixed one, so that a plain read misses the puts of others. With all keys in
      one space it would be serial for all transactions. */
  lemma SerializableExactly(rule: Rule, ops: seq<Op>)
    ensures AlwaysCurrent(rule, ops) <==> rule.oneSpace || Covered(ops)
  {
    if rule.oneSpace || Covered(ops) {
      forall log: Log, h: History, i: Intention, j: nat |
        Reachable(rule, log, h) && i.ops == ops && !i.flush && i.snapshot in h.commits && Commits(rule, log, h.db, i)
        && j < |ops| && ops[j].Get?
        ensures ReadsCurrent(log, h, i, j)
      {
        ReachableInv(rule, log, h);
        if rule.oneSpace {
          OneSpaceReadsCurrent(rule, log, h, i, j);
        } else {
          CoveredReadsCurrent(rule, log, h, i, j);
        }
      }
    } else {
      var j :| 0 <= j < |ops| && Exposed(ops, j) && User(ops[j].key) !in OpKeys(ops);
      UncoveredStale(rule, ops, j);
    }
  }

  lemma ReachableInv(rule: Rule, log: Log, h: History)
    requires Reachable(rule, log, h)
    ensures Inv(log, h)
  {
    hide Inv, AllAdmissible, Run;
    var end: nat, limit: nat :| Reaches(rule, log, h, end, limit);
    FirstInv(log);
    RunInv(rule, log, First(), 2, end, limit);
  }
}
