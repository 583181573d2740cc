/** The decisions of the transaction processor, and the tree values that follow from
    them. That the roots in memory stand for these values is shown in module
    Databases. */
module Processors {
  import opened Keys
  import opened Trees
  import opened TreeOps
  import opened TreeProofs
  import opened Deltas
  import opened Positions
  import opened Intentions
  import opened Iterators
  import opened Catalogs
  import opened Histories
  import opened Serializability
  import opened Transactions

  class Processor {
    var root: Tree
    var rootSnapshot: nat
    var lastProcessed: nat
    var index: seq<nat>
    const limit: nat

    // The commits since the log began, their after images, and how many commits there
    // were when the database opened.
    ghost var commits: seq<nat>
    ghost var store: Store
    ghost const began: nat

    ghost function H(): History
      reads this
    {
      History(Db(root, rootSnapshot, index), commits, store)
    }

    ghost predicate Valid(log: Log)
      reads this
    {
      Inv(log, H()) && rootSnapshot <= lastProcessed && Newest(index, commits, began, limit)
    }

    constructor (log: Log, db: Db, limit: nat, ghost h: History)
      requires Inv(log, h) && db == h.db.(index := [])
      ensures Valid(log) && H() == h.(db := db) && this.limit == limit && lastProcessed == db.snapshot && began == |h.commits|
    {
      hide Inv;
      root, rootSnapshot, lastProcessed, index := db.root, db.snapshot, db.snapshot, [];
      this.limit := limit;
      commits, store, began := h.commits, h.store, |h.commits|;
      new;
      EmptyIndex(log, h);
      assert commits[|commits|..] == [];
    }

    /** The positions to check a transaction against: from the index and, as far as
        that does not reach back, from the catalog in the tree. */
    method ConflictZone(log: Log, snapshot: nat) returns (zone: seq<nat>)
      requires Valid(log) && snapshot in commits && snapshot < rootSnapshot
      ensures zone == Zone(root, index, snapshot, rootSnapshot)
    {
      hide Inv, CommitKey, Catalogued, LowerBound, Scan, Range, Zone, Recent, Ascending, ValidTree;
      CatalogOf(log, H());
      var (known, complete) := Range(index, snapshot, rootSnapshot);
      zone := known;
      ghost var j := SnapshotIndex(log, H(), snapshot);
      ZoneOf(root, index, commits, j);
      if !complete {
        var found := ScanCatalogFrom(root, snapshot, known[0], commits, j, IndexStart(index, commits));
        zone := known + found;
      }
    }

    /** Has an intention in the conflict zone put or deleted a key that `i` reads or
        writes? The zone is what has committed since the snapshot, and the snapshot itself
        if the index knows it. */
    method ProcessConcurrentIntention(log: Log, i: Intention) returns (abort: bool)
      requires Valid(log) && i.snapshot in commits && i.snapshot < rootSnapshot
      ensures abort == Conflicts(AS_CODED, log, i.ops, Zone(root, index, i.snapshot, rootSnapshot))
      ensures abort <==> exists p, x, y ::
        && p in commits && (i.snapshot < p || (p == i.snapshot && p in index))
        && 0 <= x < |i.ops| && 0 <= y < |Ops(log, p)| && (Ops(log, p)[y].Put? || Ops(log, p)[y].Delete?)
        && i.ops[x].key == Ops(log, p)[y].key
    {
      hide Inv, Zone;
      var zone := ConflictZone(log, i.snapshot);
      ZoneIs(log, i.snapshot);
      abort := false;
      for k := 0 to |zone|
        invariant !abort && forall x :: 0 <= x < k ==> !Overlaps(log, i.ops, zone[x])
        invariant forall z, x, y | 0 <= z < k && 0 <= x < |i.ops| && 0 <= y < |Ops(log, zone[z])| ::
          Ops(log, zone[z])[y].Put? || Ops(log, zone[z])[y].Delete? ==> i.ops[x].key != Ops(log, zone[z])[y].key
      {
        var overlaps := KeysOverlap(i.ops, Ops(log, zone[k]));
        if overlaps {
          assert zone[k] in zone;
          return true;
        }
      }
    }

    /** What is in the zone. */
    lemma ZoneIs(log: Log, snapshot: nat)
      requires Valid(log) && snapshot in commits && snapshot < rootSnapshot
      ensures forall p :: p in Zone(root, index, snapshot, rootSnapshot) <==>
        p in commits && (snapshot < p || (p == snapshot && p in index))
    {
      hide Inv, Zone;
      forall p ensures p in Zone(root, index, snapshot, rootSnapshot) <==> p in commits && (snapshot < p || (p == snapshot && p in index)) {
        CheckedExact(AS_CODED, log, H(), snapshot, p);
      }
    }

    /** Makes the tree after the operations of the intention at `pos`, with the commit
        listed and placed, the next root. */
    method Install(log: Log, pos: nat)
      requires Valid(log) && rootSnapshot < pos < |log| && Admissible(log, H(), pos) && log[pos].IntentionEntry?
      requires Commits(AS_CODED, log, H().db, log[pos].intention)
      modifies this
      ensures Valid(log) && H() == Step(AS_CODED, log, old(H()), pos, limit) && lastProcessed == pos
    {
      hide Inv, Zone, Place, PutT, Replay, CommitKey, Entries, UserOps, Push, Commits, Admissible;
      StepInv(AS_CODED, log, H(), pos, limit);
      PushNewest(index, commits, began, pos, limit);
      root := NextRoot(root, log[pos].intention.ops, pos);
      rootSnapshot, index, lastProcessed := pos, Push(index, pos, limit), pos;
      commits, store := commits + [pos], store[pos := Entries(root, pos)];
    }

    /** Decides on the intention at `pos` and, if it commits, installs the next root. An
        intention that ran on the last state always commits, and so does a flush. */
    method Process(log: Log, pos: nat) returns (committed: bool)
      requires Valid(log) && lastProcessed < pos < |log| && Admissible(log, H(), pos) && log[pos].IntentionEntry?
      modifies this
      ensures Valid(log) && lastProcessed == pos
      ensures H() == Step(AS_CODED, log, old(H()), pos, limit) && committed == Commits(AS_CODED, log, old(H().db), log[pos].intention)
      ensures log[pos].intention.snapshot == old(rootSnapshot) || log[pos].intention.flush ==> committed
      ensures if committed then rootSnapshot == pos && commits == old(commits) + [pos] else H() == old(H())
      ensures index == commits[|commits| - (if limit < |commits| - began then limit else |commits| - began)..]
    {
      hide Inv, Zone, Place, PutT, Replay, CommitKey, Entries, UserOps, FreshCount, Delta, NextRoot, Conflicts, Push;
      ghost var h := H();
      var i := log[pos].intention;
      InvParts(log, h);
      var serial := rootSnapshot == i.snapshot || i.flush;
      committed := true;
      if !serial {
        var abort := ProcessConcurrentIntention(log, i);
        committed := !abort;
      }
      if committed {
        Install(log, pos);
      }
      lastProcessed := pos;
    }
  }

  /** The two loops over the key sets. */
  method KeysOverlap(mine: seq<Op>, other: seq<Op>) returns (overlap: bool)
    ensures overlap <==> OpKeys(mine) * UpdateOpKeys(other) != {}
    ensures overlap <==> exists x, y ::
      0 <= x < |mine| && 0 <= y < |other| && (other[y].Put? || other[y].Delete?) && mine[x].key == other[y].key
  {
    var keys := UpdateOpKeys(other);
    forall y | 0 <= y < |other| && (other[y].Put? || other[y].Delete?) ensures other[y].key in keys {
      assert other[y] in other;
    }
    for k := 0 to |mine|
      invariant forall x :: 0 <= x < k ==> mine[x].key !in keys
    {
      if mine[k].key in keys {
        assert mine[k].key in OpKeys(mine) * keys;
        ghost var op :| op in other && (op.Put? || op.Delete?) && op.key == mine[k].key;
        ghost var y :| 0 <= y < |other| && other[y] == op;
        return true;
      }
    }
    return false;
  }

  lemma OtherEntry(log: Log, h: History, pos: nat, limit: nat)
    requires pos < |log| && !log[pos].IntentionEntry?
    ensures Step(AS_CODED, log, h, pos, limit) == h
  {
  }

  lemma SnapshotIndex(log: Log, h: History, snapshot: nat) returns (j: nat)
    requires Inv(log, h) && snapshot in h.commits && snapshot < h.db.snapshot
    ensures j + 1 < |h.commits| && h.commits[j] == snapshot
  {
    hide CommitKey, Contents, SerialMap;
    CatalogOf(log, h);
    j :| 0 <= j < |h.commits| && h.commits[j] == snapshot;
    Ends(h.commits, j);
  }

  /** How the zone is put together. */
  lemma ZoneOf(t: Tree, index: seq<nat>, commits: seq<nat>, j: nat)
    requires Catalogued(t, commits) && Recent(index, commits) && j + 1 < |commits|
    ensures var first, last := commits[j], commits[|commits| - 1];
      var (known, complete) := Range(index, first, last);
      && known != [] && (!complete ==> j < IndexStart(index, commits) < |commits| && commits[IndexStart(index, commits)] == known[0])
      && Zone(t, index, first, last) ==
         (if complete then known else known + Scan(Flat(t), LowerBound(Flat(t), CommitKey(first)) + 1, known[0]))
  {
    hide CommitKey, LowerBound, Scan, Range, Contents;
    CatalogAscending(t, commits);
    RangeParts(index, commits, j);
    var k := IndexStart(index, commits);
    assert commits[k..][0] == commits[k] && commits[j..][0] == commits[j];
  }

  lemma CatalogOf(log: Log, h: History)
    requires Inv(log, h)
    ensures Catalogued(h.db.root, h.commits) && Recent(h.db.index, h.commits) && Ascending(h.commits)
    ensures h.commits != [] && h.commits[|h.commits| - 1] == h.db.snapshot && ValidTree(h.db.root)
  {
    CatalogAscending(h.db.root, h.commits);
  }

  /** An iterator on the catalog entry behind that of `snapshot`. */
  method StartCatalog(t: Tree, snapshot: nat, ghost commits: seq<nat>, ghost j: nat) returns (it: PrefixIterator)
    requires Catalogued(t, commits) && j + 1 < |commits| && commits[j] == snapshot
    ensures fresh(it) && fresh(it.raw) && OnEntry(it, t, j + 1)
  {
    hide CommitKey, Less, Parse, IsNumber, Pad20, Contents, HasPrefix, Flat, LowerBound, Catalogued, Prefixed, Ascending;
    CatalogAt(t, commits, j);
    CatalogOrdered(t, commits);
    it := new PrefixIterator(PREFIX_COMMITTED_INTENTION, t);
    CommitKeyIs(snapshot);
    it.Seek(Pad20(snapshot));
    it.Current();
    CatalogEntry(t, commits, j);
    assert it.Valid();
    it.Next();
    it.Current();
    CatalogEntry(t, commits, j + 1);
    assert it.Valid();
  }

  ghost predicate OnEntry(it: PrefixIterator, t: Tree, i: nat)
    reads it.raw
  {
    it.prefix == PREFIX_COMMITTED_INTENTION && it.raw.Positioned() && it.raw.root == t && it.raw.pos == i && it.Valid()
  }

  /** Walks through the catalog from entry `i` to the one of `front`. */
  method ListCatalog(it: PrefixIterator, t: Tree, front: nat, ghost commits: seq<nat>, ghost i: nat, ghost k: nat)
    returns (found: seq<nat>)
    requires Catalogued(t, commits) && i <= k < |commits| && commits[k] == front && OnEntry(it, t, i)
    modifies it.raw
    ensures found == Scan(Flat(t), i, front)
  {
    hide CommitKey, Less, Parse, IsNumber, Pad20, Contents, HasPrefix, Flat, LowerBound, Catalogued, Scan, Prefixed, Ascending;
    hide RawIterator.Positioned, RawIterator.Valid, PrefixIterator.Valid;
    ghost var s := Flat(t);
    found := [];
    while it.Valid()
      invariant i <= it.raw.pos <= k && OnEntry(it, t, it.raw.pos)
      invariant found + Scan(s, it.raw.pos, front) == Scan(s, i, front)
      decreases k - it.raw.pos
    {
      var key := it.CurrentKey();
      CatalogEntry(t, commits, it.raw.pos);
      ScanStep(s, it.raw.pos, front);
      KeySuffix(s[it.raw.pos].0, key);
      var pos := Parse(key);
      if pos == front {
        break;
      }
      found := found + [pos];
      NextEntry(it, t, commits, it.raw.pos);
    }
  }

  /** Moves on to the next entry of the catalog. */
  method NextEntry(it: PrefixIterator, t: Tree, ghost commits: seq<nat>, ghost i: nat)
    requires Catalogued(t, commits) && i + 1 < |commits| && OnEntry(it, t, i)
    modifies it.raw
    ensures OnEntry(it, t, i + 1)
  {
    hide CommitKey, Less, Parse, IsNumber, Pad20, Contents, HasPrefix, Flat, LowerBound, Catalogued, Prefixed, Ascending;
    it.Next();
    it.Current();
    CatalogEntry(t, commits, i + 1);
  }

  /** Walks through the catalog with an iterator, from behind `snapshot` to `front`. */
  method ScanCatalogFrom(t: Tree, snapshot: nat, front: nat, ghost commits: seq<nat>, ghost j: nat, ghost k: nat)
    returns (found: seq<nat>)
    requires Catalogued(t, commits) && j < k < |commits| && commits[j] == snapshot && commits[k] == front
    ensures found == Scan(Flat(t), LowerBound(Flat(t), CommitKey(snapshot)) + 1, front)
  {
    hide *;
    CatalogAt(t, commits, j);
    var it := StartCatalog(t, snapshot, commits, j);
    found := ListCatalog(it, t, front, commits, j + 1, k);
  }

  lemma ScanStep(s: seq<Pair>, i: nat, front: nat)
    requires i < |s| && HasPrefix(s[i].0, PREFIX_COMMITTED_INTENTION) && |s[i].0| >= 2 && IsNumber(s[i].0[2..])
    ensures var pos := Parse(s[i].0[2..]); Scan(s, i, front) == if pos == front then [] else [pos] + Scan(s, i + 1, front)
  {
  }

  lemma CommitKeyIs(pos: nat)
    ensures CommitKey(pos) == Prefixed(PREFIX_COMMITTED_INTENTION, Pad20(pos))
  {
  }

  lemma CatalogOrdered(t: Tree, commits: seq<nat>)
    requires Catalogued(t, commits)
    ensures Ordered(t)
  {
  }

  lemma Ends(commits: seq<nat>, j: nat)
    requires Ascending(commits) && j < |commits| && commits[j] < commits[|commits| - 1]
    ensures j + 1 < |commits|
  {
  }

  /** Pair `i` of the tree is the catalog entry of commit `i`. */
  lemma CatalogEntry(t: Tree, commits: seq<nat>, i: nat)
    requires Catalogued(t, commits) && i < |commits|
    ensures i < |Flat(t)| && HasPrefix(Flat(t)[i].0, PREFIX_COMMITTED_INTENTION) && |Flat(t)[i].0| >= 2
    ensures IsNumber(Flat(t)[i].0[2..]) && Parse(Flat(t)[i].0[2..]) == commits[i]
    ensures forall k :: 0 <= k < |commits| ==> (commits[k] == commits[i] <==> k == i)
  {
    hide Less, Contents, HasPrefix, IsNumber, Parse;
    CatalogAscending(t, commits);
    CatalogFront(t, commits, |commits|);
    CommitsApart(commits, t, i, i);
    CatalogKey(commits[i]);
  }

  lemma KeySuffix(k: Key, rest: Key)
    requires k == Prefixed(PREFIX_COMMITTED_INTENTION, rest)
    ensures |k| >= 2 && k[2..] == rest
  {
  }
}
