/** Opening a database on an existing log: where to start, what is read back
    there, and whether rolling forward makes the same decisions again. */
module Restarts {
  import opened Basics
  import opened Keys
  import opened Trees
  import opened TreeOps
  import opened TreeProofs
  import opened Deltas
  import opened Positions
  import opened Intentions
  import opened Catalogs
  import opened Histories
  import opened Serializability

  // --------------------------------------------------------- the restore point

  /** The after image at `ai` is the earliest of intention `i`. */
  ghost predicate Earliest(log: Log, i: nat, ai: nat) {
    && ai < |log| && log[ai].AfterImageEntry? && log[ai].ipos == i
    && forall p :: 0 <= p < ai ==> !(log[p].AfterImageEntry? && log[p].ipos == i)
  }

  ghost predicate HasImage(log: Log, i: nat) {
    exists p :: 0 <= p < |log| && log[p].AfterImageEntry? && log[p].ipos == i
  }

  /** After images come after their intentions. */
  ghost predicate ImagesFollow(log: Log) {
    forall p :: 0 <= p < |log| && log[p].AfterImageEntry? ==> log[p].ipos < p
  }

  /** Scans backward for the last intention with an after image, and for the last
      intention. `images` holds the earliest after image seen so far of every
      intention. */
  method FindRestorePoint(log: Log) returns (replayStart: nat, afterImage: nat, latest: nat)
    requires ImagesFollow(log)
    requires exists i :: 0 <= i < |log| && log[i].IntentionEntry? && HasImage(log, i)
    ensures 0 < replayStart <= |log| && log[replayStart - 1].IntentionEntry?
    ensures Earliest(log, replayStart - 1, afterImage)
    ensures forall i :: replayStart <= i < |log| && log[i].IntentionEntry? ==> !HasImage(log, i)
    ensures latest < |log| && log[latest].IntentionEntry?
    ensures forall i :: latest < i < |log| ==> !log[i].IntentionEntry?
  {
    var images: map<nat, nat> := map[];
    var setLatest := false;
    latest := 0;
    var pos := |log|;
    while pos > 0
      invariant 0 <= pos <= |log| && SeenFrom(log, pos, images)
      invariant forall i :: pos <= i < |log| && log[i].IntentionEntry? ==> !HasImage(log, i)
      invariant if setLatest then pos <= latest && LatestFrom(log, pos, latest) else NoneFrom(log, pos)
    {
      pos := pos - 1;
      match log[pos]
      case IntentionEntry(_) =>
        if !setLatest {
          latest, setLatest := pos, true;
        }
        SeenImage(log, pos, images);
        if pos in images {
          return pos + 1, images[pos], latest;
        }
      case AfterImageEntry(i, _) =>
        images := images[i := pos];
      case Filled =>
    }
    assert false;
  }

  /** The earliest after images from position `pos` on. */
  ghost predicate SeenFrom(log: Log, pos: nat, images: map<nat, nat>) {
    && (forall i | i in images :: pos <= images[i] < |log| && log[images[i]].AfterImageEntry? && log[images[i]].ipos == i)
    && (forall p :: pos <= p < |log| && log[p].AfterImageEntry? ==> log[p].ipos in images && images[log[p].ipos] <= p)
  }

  ghost predicate NoneFrom(log: Log, pos: nat) {
    forall i :: pos <= i < |log| ==> !log[i].IntentionEntry?
  }

  ghost predicate LatestFrom(log: Log, pos: nat, latest: nat) {
    latest < |log| && log[latest].IntentionEntry? && forall i :: latest < i < |log| ==> !log[i].IntentionEntry?
  }

  /** All after images of an intention come after it, so that all have been seen. */
  lemma SeenImage(log: Log, pos: nat, images: map<nat, nat>)
    requires ImagesFollow(log) && pos < |log| && log[pos].IntentionEntry? && SeenFrom(log, pos + 1, images)
    ensures pos in images ==> Earliest(log, pos, images[pos])
    ensures pos !in images ==> !HasImage(log, pos)
  {
  }

  // ------------------------------------------------------- what is read back

  /** The after images of a log, the earliest one for every intention. */
  function LogStore(log: Log): Store {
    if log == [] then map[]
    else
      var s, e := LogStore(log[..|log| - 1]), log[|log| - 1];
      if e.AfterImageEntry? && e.ipos !in s then s[e.ipos := e.entries] else s
  }

  lemma {:induction false} LogStoreEarliest(log: Log, i: nat)
    ensures i in LogStore(log) <==> HasImage(log, i)
    ensures forall ai: nat :: Earliest(log, i, ai) ==> i in LogStore(log) && LogStore(log)[i] == log[ai].entries
  {
    if log != [] {
      var rest, last := log[..|log| - 1], log[|log| - 1];
      LogStoreEarliest(rest, i);
      if p :| 0 <= p < |rest| && rest[p].AfterImageEntry? && rest[p].ipos == i {
        assert log[p] == rest[p];
      }
      if p :| 0 <= p < |log| && log[p].AfterImageEntry? && log[p].ipos == i {
        assert p < |rest| ==> rest[p] == log[p];
      }
      forall ai: nat | Earliest(log, i, ai)
        ensures i in LogStore(log) && LogStore(log)[i] == log[ai].entries
      {
        if ai < |rest| {
          assert rest[ai] == log[ai];
          assert Earliest(rest, i, ai);
        } else {
          assert !HasImage(rest, i);
        }
      }
    }
  }

  /** More after images do not change what is read back. */
  lemma {:induction false} DecodeMore(s: Store, r: Store, i: nat, off: nat)
    requires forall j | j in s :: j in r && r[j] == s[j]
    requires Decode(s, i, off).Some?
    ensures Decode(r, i, off) == Decode(s, i, off)
    decreases i, off, 0
  {
    var e := s[i][off];
    FollowMore(s, r, e.left, i, off);
    FollowMore(s, r, e.right, i, off);
  }

  lemma FollowMore(s: Store, r: Store, ref: Ref, i: nat, off: nat)
    requires forall j | j in s :: j in r && r[j] == s[j]
    requires Follow(s, ref, i, off).Some?
    ensures Follow(r, ref, i, off) == Follow(s, ref, i, off)
    decreases i, off, 0, 0
  {
    match ref
    case Void =>
    case Self(o) => DecodeMore(s, r, i, Short(o));
    case Link(j, o) => DecodeMore(s, r, j, Short(o));
  }

  /** What the processor opens with: the tree in the last entry of the after image,
      and an empty index. */
  function Restored(s: Store, point: nat): Option<Db> {
    if point !in s || s[point] == [] then None
    else
      match Decode(s, point, |s[point]| - 1)
      case Some(t) => Some(Db(t, point, []))
      case None => None
  }

  /** The log holds the after images of all commits up to `h`, as they were made. */
  ghost predicate Recorded(log: Log, h: History) {
    forall i | i in h.store :: i in LogStore(log) && LogStore(log)[i] == h.store[i]
  }

  /** Opening at a recorded commit gives back its state, but for the index. */
  lemma RestoredState(log: Log, h: History)
    requires Inv(log, h) && Recorded(log, h)
    ensures Restored(LogStore(log), h.db.snapshot) == Some(h.db.(index := []))
  {
    hide WellLinked, Catalogued, SerialMap, Recent, ValidTree, Contents, Decode;
    DecodeMore(h.store, LogStore(log), h.db.snapshot, h.db.root.where.off);
  }

  // -------------------------------------------------------------- rolling forward

  /** The same state, whatever the index knows. */
  predicate SameState(a: History, b: History) {
    a.db.root == b.db.root && a.db.snapshot == b.db.snapshot && a.commits == b.commits && a.store == b.store
  }

  /** A commit since the snapshot has modified a key of the transaction. */
  ghost predicate Outdated(rule: Rule, log: Log, h: History, i: Intention) {
    exists p :: p in h.commits && p > i.snapshot && Clashes(rule, log, i.ops, p)
  }

  /** Decisions depend on what the index knows, because with a snapshot that it
      knows, it also gives the snapshot itself to be checked. Two databases in the
      same state decide the same unless one of them knows the snapshot, that alone
      overlaps, and no later commit does. */
  lemma DecisionsAgree(rule: Rule, log: Log, a: History, b: History, i: Intention)
    requires Inv(log, a) && Inv(log, b) && SameState(a, b) && i.snapshot in a.commits && !Serial(a.db, i)
    ensures (Commits(rule, log, a.db, i) <==> Commits(rule, log, b.db, i)) <==>
      (rule.halfOpen || Outdated(rule, log, a, i) || !Clashes(rule, log, i.ops, i.snapshot) ||
       (i.snapshot in a.db.index <==> i.snapshot in b.db.index))
  {
    hide Inv, Clashes, Commits;
    DecisionExact(rule, log, a, i);
    DecisionExact(rule, log, b, i);
  }

  /** The two databases decide alike on what is at `pos`. */
  ghost predicate Alike(rule: Rule, log: Log, a: History, b: History, pos: nat) {
    pos < |log| && log[pos].IntentionEntry? ==>
      var i := log[pos].intention;
      || rule.halfOpen || Serial(a.db, i) || Outdated(rule, log, a, i) || !Clashes(rule, log, i.ops, i.snapshot)
      || (i.snapshot in a.db.index <==> i.snapshot in b.db.index)
  }

  lemma StepsAgree(rule: Rule, log: Log, a: History, b: History, pos: nat, l: nat, m: nat)
    requires Inv(log, a) && Inv(log, b) && SameState(a, b) && Admissible(log, a, pos)
    ensures Admissible(log, b, pos)
    ensures if Alike(rule, log, a, b, pos) then SameState(Step(rule, log, a, pos, l), Step(rule, log, b, pos, m))
            else Step(rule, log, a, pos, l).commits != Step(rule, log, b, pos, m).commits
  {
    hide Inv, Clashes, Outdated, Checked, NextRoot, Entries, Delta, FreshCount, Conflicts;
    if pos < |log| && log[pos].IntentionEntry? && !Serial(a.db, log[pos].intention) {
      DecisionsAgree(rule, log, a, b, log[pos].intention);
    }
  }

  ghost predicate AllAlike(rule: Rule, log: Log, a: History, b: History, start: nat, end: nat, l: nat, m: nat) {
    forall pos :: start <= pos < end ==> Alike(rule, log, Run(rule, log, a, start, pos, l), Run(rule, log, b, start, pos, m), pos)
  }

  ghost predicate Below(commits: seq<nat>, pos: nat) {
    forall p | p in commits :: p < pos
  }

  /** Commits are never taken back. */
  lemma StillDiffer(rule: Rule, log: Log, a: History, b: History, pos: nat, l: nat, m: nat)
    requires Below(a.commits, pos) && Below(b.commits, pos)
    ensures Below(Step(rule, log, a, pos, l).commits, pos + 1) && Below(Step(rule, log, b, pos, m).commits, pos + 1)
    ensures a.commits != b.commits ==> Step(rule, log, a, pos, l).commits != Step(rule, log, b, pos, m).commits
  {
    hide Commits, NextRoot, Entries;
    var c, d := a.commits + [pos], b.commits + [pos];
    assert c[..|c| - 1] == a.commits && d[..|d| - 1] == b.commits && pos in c && pos in d;
  }

  lemma InvBelow(log: Log, h: History, pos: nat)
    requires Inv(log, h) && h.db.snapshot < pos
    ensures Below(h.commits, pos)
  {
    InvParts(log, h);
  }

  /** Two databases that start in the same state are in the same state again if and
      only if they have decided alike all the way. */
  lemma {:induction false} RunsAgree(rule: Rule, log: Log, a: History, b: History, start: nat, end: nat, l: nat, m: nat)
    requires Inv(log, a) && Inv(log, b) && SameState(a, b) && AllAdmissible(rule, log, a, start, end, l)
    ensures var c, d := Run(rule, log, a, start, end, l), Run(rule, log, b, start, end, m);
      && (AllAlike(rule, log, a, b, start, end, l, m) ==>
            SameState(c, d) && Inv(log, d) && AllAdmissible(rule, log, b, start, end, m))
      && (!AllAlike(rule, log, a, b, start, end, l, m) ==>
            c.commits != d.commits && Below(c.commits, end) && Below(d.commits, end))
    decreases end
  {
    hide Inv, Step, Alike, Admissible, Below;
    if start < end {
      var c, d := Run(rule, log, a, start, end - 1, l), Run(rule, log, b, start, end - 1, m);
      RunsAgree(rule, log, a, b, start, end - 1, l, m);
      if AllAlike(rule, log, a, b, start, end - 1, l, m) {
        RunInv(rule, log, a, start, end - 1, l);
        StepsAgree(rule, log, c, d, end - 1, l, m);
        AdmissibleAfter(log, c, end - 1);
        AdmissibleAfter(log, d, end - 1);
        InvBelow(log, c, end - 1);
        InvBelow(log, d, end - 1);
        StepInv(rule, log, d, end - 1, m);
      }
      StillDiffer(rule, log, c, d, end - 1, l, m);
    }
  }

  lemma AdmissibleAfter(log: Log, h: History, pos: nat)
    requires Admissible(log, h, pos)
    ensures h.db.snapshot < pos
  {
  }

  lemma {:induction false} RunSplit(rule: Rule, log: Log, h: History, start: nat, mid: nat, end: nat, limit: nat)
    requires start <= mid <= end
    ensures Run(rule, log, h, start, end, limit) == Run(rule, log, Run(rule, log, h, start, mid, limit), mid, end, limit)
    decreases end
  {
    hide Step;
    if mid < end {
      RunSplit(rule, log, h, start, mid, end - 1, limit);
    }
  }

  // ------------------------------------------- what the restarted index knows

  /** The index of `b` began to fill when `n` commits were there, that of `a`
      earlier: it knows the same, or it knows all commits from there on. */
  ghost predicate Trails(a: History, b: History, n: nat, limit: nat) {
    && n <= |b.commits| && |b.db.index| <= |a.db.index| <= limit
    && (b.db.index == a.db.index || b.db.index == b.commits[n..])
    && |b.db.index| + n <= |b.commits|
  }

  lemma TrailStep(rule: Rule, log: Log, a: History, b: History, pos: nat, n: nat, limit: nat)
    requires Trails(a, b, n, limit) && SameState(a, b) && Recent(a.db.index, a.commits) && Recent(b.db.index, b.commits)
    requires Step(rule, log, a, pos, limit).commits == Step(rule, log, b, pos, limit).commits
    ensures Trails(Step(rule, log, a, pos, limit), Step(rule, log, b, pos, limit), n, limit)
  {
    hide Commits, NextRoot, Entries;
    assert |a.db.index| == |b.db.index| ==> a.db.index == b.db.index;
    if b.db.index == b.commits[n..] {
      assert (b.commits + [pos])[n..] == b.commits[n..] + [pos];
    }
  }

  lemma InvRecent(log: Log, h: History)
    requires Inv(log, h)
    ensures Recent(h.db.index, h.commits)
  {
  }

  /** The indexes differ exactly about older commits that the longer one knows. */
  lemma TrailKnows(log: Log, a: History, b: History, n: nat, limit: nat, x: nat)
    requires Inv(log, a) && Inv(log, b) && SameState(a, b) && Trails(a, b, n, limit) && x < |a.commits|
    ensures (a.commits[x] in a.db.index <==> a.commits[x] in b.db.index) <==> (x >= n || a.commits[x] !in a.db.index)
  {
    hide WellLinked, Catalogued, SerialMap, ValidTree, Contents, Stored;
    CatalogAscending(a.db.root, a.commits);
    KnownFrom(a.db.index, a.commits, x);
    KnownFrom(b.db.index, b.commits, x);
  }

  /** The decision on `i` hangs on what the index happens to know: it ran on a state
      up to `point` that the index knows, overlaps that commit, and no later one. */
  ghost predicate Hangs(rule: Rule, log: Log, h: History, i: Intention, point: nat) {
    && !rule.halfOpen && !Serial(h.db, i) && i.snapshot <= point && i.snapshot in h.db.index
    && Clashes(rule, log, i.ops, i.snapshot) && !Outdated(rule, log, h, i)
  }

  ghost predicate HangsAt(rule: Rule, log: Log, h: History, pos: nat, point: nat) {
    pos < |log| && log[pos].IntentionEntry? && Hangs(rule, log, h, log[pos].intention, point)
  }

  ghost predicate NoneHangs(rule: Rule, log: Log, h: History, start: nat, end: nat, limit: nat, point: nat) {
    forall pos :: start <= pos < end ==> !HangsAt(rule, log, Run(rule, log, h, start, pos, limit), pos, point)
  }

  lemma AlikeExactly(rule: Rule, log: Log, a: History, b: History, pos: nat, n: nat, limit: nat)
    requires Inv(log, a) && Inv(log, b) && SameState(a, b) && Trails(a, b, n, limit) && Admissible(log, a, pos)
    requires 0 < n <= |a.commits|
    ensures Alike(rule, log, a, b, pos) <==> !HangsAt(rule, log, a, pos, a.commits[n - 1])
  {
    hide Inv, Clashes, Outdated, FreshCount, Delta, Trails;
    if pos < |log| && log[pos].IntentionEntry? && !log[pos].intention.flush {
      InvParts(log, a);
      var x :| 0 <= x < |a.commits| && a.commits[x] == log[pos].intention.snapshot;
      TrailKnows(log, a, b, n, limit, x);
      assert x >= n <==> a.commits[x] > a.commits[n - 1];
    }
  }

  /** The first commits stay what they are. */
  lemma {:induction false} CommitsGrow(rule: Rule, log: Log, h: History, start: nat, end: nat, limit: nat)
    ensures h.commits <= Run(rule, log, h, start, end, limit).commits
    decreases end
  {
    hide Commits, NextRoot, Entries;
    if start < end {
      CommitsGrow(rule, log, h, start, end - 1, limit);
    }
  }

  /** With the same limit, what makes decisions differ can be read off the longer
      history. */
  lemma {:induction false} AlikeUnlessHanging(rule: Rule, log: Log, a: History, b: History, start: nat, end: nat, n: nat, l: nat)
    requires Inv(log, a) && Inv(log, b) && SameState(a, b) && AllAdmissible(rule, log, a, start, end, l)
    requires Trails(a, b, n, l) && 0 < n <= |a.commits|
    ensures AllAlike(rule, log, a, b, start, end, l, l) <==> NoneHangs(rule, log, a, start, end, l, a.commits[n - 1])
    ensures AllAlike(rule, log, a, b, start, end, l, l) ==>
      Trails(Run(rule, log, a, start, end, l), Run(rule, log, b, start, end, l), n, l)
    decreases end
  {
    hide Inv, Step, Alike, HangsAt, Admissible, Trails;
    if start < end {
      var c, d := Run(rule, log, a, start, end - 1, l), Run(rule, log, b, start, end - 1, l);
      AlikeUnlessHanging(rule, log, a, b, start, end - 1, n, l);
      if AllAlike(rule, log, a, b, start, end - 1, l, l) {
        RunsAgree(rule, log, a, b, start, end - 1, l, l);
        RunInv(rule, log, a, start, end - 1, l);
        CommitsGrow(rule, log, a, start, end - 1, l);
        AlikeExactly(rule, log, c, d, end - 1, n, l);
        if Alike(rule, log, c, d, end - 1) {
          StepsAgree(rule, log, c, d, end - 1, l, l);
          InvRecent(log, c);
          InvRecent(log, d);
          TrailStep(rule, log, c, d, end - 1, n, l);
        }
      }
    }
  }

  // -------------------------------------------------------------------- restarting

  /** What has committed was the last state right after its position. */
  lemma {:induction false} CommittedAt(rule: Rule, log: Log, start: nat, end: nat, limit: nat, p: nat)
    requires WellBegun(log) && AllAdmissible(rule, log, First(), start, end, limit)
    requires p in Run(rule, log, First(), start, end, limit).commits && p != 1
    ensures start <= p < end && Run(rule, log, First(), start, p + 1, limit).db.snapshot == p
    decreases end
  {
    hide AllAdmissible, FirstRoot, Entries, Commits;
    if start < end {
      var h := Run(rule, log, First(), start, end - 1, limit);
      if p in h.commits {
        FewerAdmissible(rule, log, First(), start, end, limit);
        CommittedAt(rule, log, start, end - 1, limit, p);
      }
    }
  }

  lemma FewerAdmissible(rule: Rule, log: Log, h: History, start: nat, end: nat, limit: nat)
    requires AllAdmissible(rule, log, h, start, end, limit) && start < end
    ensures AllAdmissible(rule, log, h, start, end - 1, limit)
  {
  }

  lemma AdmissibleParts(rule: Rule, log: Log, h: History, start: nat, mid: nat, end: nat, limit: nat)
    requires AllAdmissible(rule, log, h, start, end, limit) && start <= mid <= end
    ensures AllAdmissible(rule, log, h, start, mid, limit)
    ensures AllAdmissible(rule, log, Run(rule, log, h, start, mid, limit), mid, end, limit)
  {
    hide Admissible, Run;
    var g := Run(rule, log, h, start, mid, limit);
    forall pos | mid <= pos < end ensures Admissible(log, Run(rule, log, g, mid, pos, limit), pos) {
      RunSplit(rule, log, h, start, mid, pos, limit);
    }
  }

  /** A commit of the whole log, and the state right after it. */
  lemma RestorePoint(rule: Rule, log: Log, point: nat, end: nat, l: nat) returns (h: History)
    requires WellBegun(log) && 1 <= point < end && AllAdmissible(rule, log, First(), 2, end, l)
    requires point == 1 || point in Run(rule, log, First(), 2, end, l).commits
    ensures h == Run(rule, log, First(), 2, point + 1, l) && h.db.snapshot == point
    ensures Inv(log, h) && Inv(log, h.(db := h.db.(index := []))) && SameState(h, h.(db := h.db.(index := [])))
    ensures AllAdmissible(rule, log, h, point + 1, end, l)
    ensures Run(rule, log, First(), 2, end, l) == Run(rule, log, h, point + 1, end, l)
  {
    hide Inv, Step, Admissible, AllAdmissible, SameState, FirstRoot, Entries, Run;
    h := Run(rule, log, First(), 2, point + 1, l);
    FirstInv(log);
    if point == 1 {
      FirstRun(rule, log, l);
    } else {
      CommittedAt(rule, log, 2, end, l, point);
    }
    AdmissibleParts(rule, log, First(), 2, point + 1, end, l);
    RunInv(rule, log, First(), 2, point + 1, l);
    EmptyIndex(log, h);
    SameSelf(h);
    RunSplit(rule, log, First(), 2, point + 1, end, l);
  }

  /** Restart determinism, exactly. Opening at a commit whose after image, like those
      of all commits before it, is in the log, and rolling forward, gives the state
      that processing the whole log gives, if and only if no decision hangs on what
      the index of the running database knows from before the restart. */
  lemma RestartExactly(rule: Rule, log: Log, point: nat, end: nat, l: nat)
    requires WellBegun(log) && 1 <= point < end && AllAdmissible(rule, log, First(), 2, end, l)
    requires point == 1 || point in Run(rule, log, First(), 2, end, l).commits
    requires Recorded(log, Run(rule, log, First(), 2, point + 1, l))
    ensures var h := Run(rule, log, First(), 2, point + 1, l);
      && Restored(LogStore(log), point) == Some(h.db.(index := []))
      && var b := h.(db := Restored(LogStore(log), point).value);
      && (SameState(Run(rule, log, First(), 2, end, l), Run(rule, log, b, point + 1, end, l)) <==>
          NoneHangs(rule, log, h, point + 1, end, l, point))
      && (NoneHangs(rule, log, h, point + 1, end, l, point) ==> AllAdmissible(rule, log, b, point + 1, end, l))
  {
    hide Inv, Step, Admissible, AllAdmissible, AllAlike, NoneHangs, Recorded, Restored, FirstRoot, Entries, Run;
    var h := RestorePoint(rule, log, point, end, l);
    var b := h.(db := h.db.(index := []));
    RestoredState(log, h);
    RunsAgree(rule, log, h, b, point + 1, end, l, l);
    InvParts(log, h);
    FirstIndex(rule, log, l, point + 1);
    assert b.commits[|b.commits|..] == [];
    AlikeUnlessHanging(rule, log, h, b, point + 1, end, |h.commits|, l);
  }

  /** With the index as documented nothing hangs on it: the log alone determines the
      database, whatever the limits. */
  lemma RestartSame(rule: Rule, log: Log, point: nat, end: nat, l: nat, m: nat)
    requires rule.halfOpen
    requires WellBegun(log) && 1 <= point < end && AllAdmissible(rule, log, First(), 2, end, l)
    requires point == 1 || point in Run(rule, log, First(), 2, end, l).commits
    requires Recorded(log, Run(rule, log, First(), 2, point + 1, l))
    ensures var h := Run(rule, log, First(), 2, point + 1, l);
      && Restored(LogStore(log), point) == Some(h.db.(index := []))
      && SameState(Run(rule, log, First(), 2, end, l),
                   Run(rule, log, h.(db := Restored(LogStore(log), point).value), point + 1, end, m))
  {
    hide Inv, Step, Admissible, AllAdmissible, Recorded, Restored, SameState, FirstRoot, Entries, Run;
    var h := RestorePoint(rule, log, point, end, l);
    RestoredState(log, h);
    RunsAgree(rule, log, h, h.(db := h.db.(index := [])), point + 1, end, l, m);
  }

  // ------------------------------------------------------------ opening a log

  /** After images are those of commits, as they were made, and with that of a commit
      those of all earlier ones are there. */
  ghost predicate Imaged(log: Log, h: History) {
    && (forall p :: 0 <= p < |log| && log[p].AfterImageEntry? ==>
          log[p].ipos in h.store && log[p].entries == h.store[log[p].ipos])
    && (forall i, j :: i in h.store && j in h.store && i < j && HasImage(log, j) ==> HasImage(log, i))
  }

  /** Every commit has its after image, which stays what it is. */
  lemma {:induction false} StoreGrows(rule: Rule, log: Log, h: History, start: nat, end: nat, limit: nat)
    requires forall i :: i in h.store <==> i in h.commits
    requires forall i | i in h.store :: i < start
    ensures var g := Run(rule, log, h, start, end, limit);
      && (forall i :: i in g.store <==> i in g.commits)
      && (forall i | i in h.store :: i in g.store && g.store[i] == h.store[i])
      && (forall i | i in g.store && i !in h.store :: start <= i < end && i < |log| && log[i].IntentionEntry?)
    decreases end
  {
    hide Commits, NextRoot, Entries;
    if start < end {
      StoreGrows(rule, log, h, start, end - 1, limit);
      var g := Run(rule, log, h, start, end - 1, limit);
      assert forall i :: i in g.commits + [end - 1] <==> i in g.commits || i == end - 1;
    }
  }

  /** What the restore point needs is in the log. */
  lemma PointRecorded(rule: Rule, log: Log, point: nat, l: nat)
    requires WellBegun(log) && 1 <= point < |log| && HasImage(log, point)
    requires Imaged(log, Run(rule, log, First(), 2, |log|, l))
    ensures point == 1 || point in Run(rule, log, First(), 2, |log|, l).commits
    ensures Recorded(log, Run(rule, log, First(), 2, point + 1, l))
  {
    hide Run, FirstRoot, Entries, LogStore;
    var h, g := Run(rule, log, First(), 2, point + 1, l), Run(rule, log, First(), 2, |log|, l);
    assert forall i :: i in First().store <==> i in First().commits;
    StoreGrows(rule, log, First(), 2, |log|, l);
    StoreGrows(rule, log, First(), 2, point + 1, l);
    RunSplit(rule, log, First(), 2, point + 1, |log|, l);
    StoreGrows(rule, log, h, point + 1, |log|, l);
    assert point in g.store by {
      var p :| 0 <= p < |log| && log[p].AfterImageEntry? && log[p].ipos == point;
    }
    forall i | i in h.store ensures i in LogStore(log) && LogStore(log)[i] == h.store[i] {
      assert i in g.store && (i == point || i < point);
      assert HasImage(log, i);
      LogStoreEarliest(log, i);
      var p: nat :| p < |log| && log[p].AfterImageEntry? && log[p].ipos == i;
      var ai := EarliestOf(log, i, p);
    }
  }

  lemma {:induction false} EarliestOf(log: Log, i: nat, p: nat) returns (ai: nat)
    requires p < |log| && log[p].AfterImageEntry? && log[p].ipos == i
    ensures Earliest(log, i, ai)
  {
    if q :| 0 <= q < p && log[q].AfterImageEntry? && log[q].ipos == i {
      ai := EarliestOf(log, i, q);
    } else {
      ai := p;
    }
  }

  /** The last intention with an after image, where opening starts. */
  ghost predicate LastImaged(log: Log, point: nat) {
    && point < |log| && log[point].IntentionEntry? && HasImage(log, point)
    && forall i :: point < i < |log| && log[i].IntentionEntry? ==> !HasImage(log, i)
  }

  ghost predicate NoneHangsFrom(rule: Rule, log: Log, limit: nat, point: nat) {
    NoneHangs(rule, log, Run(rule, log, First(), 2, point + 1, limit), point + 1, |log|, limit, point)
  }

  /** All that is supposed of a log that is opened: a database with this limit can
      process it, and its after images are those of commits. */
  ghost predicate Openable(rule: Rule, log: Log, l: nat) {
    && WellBegun(log) && ImagesFollow(log) && HasImage(log, 1)
    && AllAdmissible(rule, log, First(), 2, |log|, l) && Imaged(log, Run(rule, log, First(), 2, |log|, l))
  }

  /** The state that a database has reached at `point` that has been running since the
      log began. */
  ghost function RunTo(rule: Rule, log: Log, point: nat, l: nat): History {
    Run(rule, log, First(), 2, point + 1, l)
  }

  /** Opening at the last intention that has an after image. */
  lemma OpenFacts(rule: Rule, log: Log, point: nat, l: nat)
    requires Openable(rule, log, l) && LastImaged(log, point)
    ensures 1 <= point
    ensures var h := RunTo(rule, log, point, l);
      && Inv(log, h) && h.db.snapshot == point && Recorded(log, h) && Restored(LogStore(log), point) == Some(h.db.(index := []))
      && var b := h.(db := h.db.(index := []));
      && (SameState(Run(rule, log, First(), 2, |log|, l), Run(rule, log, b, point + 1, |log|, l)) <==>
          NoneHangs(rule, log, h, point + 1, |log|, l, point))
      && (NoneHangs(rule, log, h, point + 1, |log|, l, point) ==> AllAdmissible(rule, log, b, point + 1, |log|, l))
  {
    hide Inv, AllAdmissible, Imaged, NoneHangs, SameState, Recorded, Restored, FirstRoot, Entries, Run, LogStore;
    assert log[1].IntentionEntry?;
    PointRecorded(rule, log, point, l);
    RestartExactly(rule, log, point, |log|, l);
    var h := RestorePoint(rule, log, point, |log|, l);
  }

  /** Finds the restore point and reads its tree. */
  method Open(log: Log, ghost rule: Rule, ghost l: nat) returns (replayStart: nat, afterImage: nat, db: Db)
    requires Openable(rule, log, l)
    ensures 2 <= replayStart <= |log| && LastImaged(log, replayStart - 1) && Earliest(log, replayStart - 1, afterImage)
    ensures var h := RunTo(rule, log, replayStart - 1, l);
      && Inv(log, h) && h.db.snapshot == replayStart - 1 && db == h.db.(index := [])
      && (SameState(Run(rule, log, First(), 2, |log|, l), Run(rule, log, h.(db := db), replayStart, |log|, l)) <==>
          NoneHangs(rule, log, h, replayStart, |log|, l, replayStart - 1))
      && (NoneHangs(rule, log, h, replayStart, |log|, l, replayStart - 1) ==>
          AllAdmissible(rule, log, h.(db := db), replayStart, |log|, l))
  {
    hide Inv, AllAdmissible, Imaged, NoneHangs, SameState, Recorded, Restored, FirstRoot, Entries, Run, LogStore, RunTo;
    assert log[1].IntentionEntry?;
    var latest;
    replayStart, afterImage, latest := FindRestorePoint(log);
    assert HasImage(log, replayStart - 1);
    OpenFacts(rule, log, replayStart - 1, l);
    db := Restored(LogStore(log), replayStart - 1).value;
  }

  lemma {:induction false} FirstIndex(rule: Rule, log: Log, l: nat, end: nat)
    ensures |Run(rule, log, First(), 2, end, l).db.index| <= l
    decreases end
  {
    hide Commits, NextRoot, Entries, FirstRoot;
    if 2 < end {
      FirstIndex(rule, log, l, end - 1);
    }
  }

  lemma FirstRun(rule: Rule, log: Log, l: nat)
    ensures Run(rule, log, First(), 2, 2, l) == First()
  {
  }

  lemma SameSelf(h: History)
    ensures SameState(h, h.(db := h.db.(index := [])))
  {
  }

  // ------------------------------------------------- a restart that differs

  function PutOps(k: Key): seq<Op> {
    [Put(User(k), "")]
  }

  function RootAfter3(j: Key): Tree {
    NextRoot(FirstRoot(), PutOps(j), 3)
  }

  function RootAfter4(j: Key, k: Key): Tree {
    NextRoot(RootAfter3(j), PutOps(k), 4)
  }

  /** Two puts of different keys, one after the other, with their after images; then
      a transaction that ran on the first of them and puts the same key again. */
  function TwoPuts(j: Key, k: Key): Log {
    [Filled, IntentionEntry(Intention(0, 0, false, FIRST_OPS)), AfterImageEntry(1, Entries(FirstRoot(), 1)),
     IntentionEntry(Intention(1, 0, false, PutOps(j))), IntentionEntry(Intention(3, 0, false, PutOps(k))),
     AfterImageEntry(3, Entries(RootAfter3(j), 3)), AfterImageEntry(4, Entries(RootAfter4(j, k), 4)),
     IntentionEntry(Intention(3, 0, false, PutOps(j)))]
  }

  /** The state when the last of them is processed. */
  lemma TwoPutsState(j: Key, k: Key) returns (h: History)
    ensures var log := TwoPuts(j, k);
      && Inv(log, h) && h.commits == [1, 3, 4] && h.db.index == [3, 4] && h.db.snapshot == 4
      && h.store == map[1 := Entries(FirstRoot(), 1), 3 := Entries(RootAfter3(j), 3), 4 := Entries(RootAfter4(j, k), 4)]
      && Run(AS_CODED, log, First(), 2, 5, 2) == h && Run(AS_CODED, log, First(), 2, 7, 2) == h
      && AllAdmissible(AS_CODED, log, First(), 2, 8, 2)
  {
    hide Inv, CommitKey, Entries, FirstRoot, Flat, NextRoot, Step, Admissible, FreshCount, Delta, UserOps;
    var log, g := TwoPuts(j, k), First();
    FirstSize(log);
    QuietStep(log, g, 2, 2);
    PutStep(AS_CODED, log, g, 3, j, 2);
    var h3 := Step(AS_CODED, log, g, 3, 2);
    PutStep(AS_CODED, log, h3, 4, k, 2);
    h := Step(AS_CODED, log, h3, 4, 2);
    QuietStep(log, h, 5, 2);
    QuietStep(log, h, 6, 2);
    PutFits(log, h, 7, j);
    LastAdmissible(log, h, j);
    TwoPutsRun(log, g, h3, h);
  }

  lemma LastAdmissible(log: Log, h: History, j: Key)
    requires |log| == 8 && log[7] == IntentionEntry(Intention(3, 0, false, PutOps(j))) && h.db.snapshot == 4 && 3 in h.commits
    requires UserOps(PutOps(j)) && FreshCount(Delta(h.db.root, PutOps(j), 7)) <= OFFSETS
    ensures Admissible(log, h, 7)
  {
    hide UserOps, FreshCount, Delta;
  }

  lemma TwoPutsRun(log: Log, g: History, h3: History, h: History)
    requires Step(AS_CODED, log, g, 2, 2) == g && Admissible(log, g, 2)
    requires Step(AS_CODED, log, g, 3, 2) == h3 && Admissible(log, g, 3)
    requires Step(AS_CODED, log, h3, 4, 2) == h && Admissible(log, h3, 4)
    requires Step(AS_CODED, log, h, 5, 2) == h && Admissible(log, h, 5)
    requires Step(AS_CODED, log, h, 6, 2) == h && Admissible(log, h, 6) && Admissible(log, h, 7)
    ensures Run(AS_CODED, log, g, 2, 5, 2) == h && Run(AS_CODED, log, g, 2, 7, 2) == h
    ensures AllAdmissible(AS_CODED, log, g, 2, 8, 2)
  {
    hide Step, Admissible;
    assert Run(AS_CODED, log, g, 2, 2, 2) == g;
    assert Run(AS_CODED, log, g, 2, 3, 2) == g;
    assert Run(AS_CODED, log, g, 2, 4, 2) == h3;
    assert Run(AS_CODED, log, g, 2, 5, 2) == h;
    assert Run(AS_CODED, log, g, 2, 6, 2) == h;
    assert Run(AS_CODED, log, g, 2, 7, 2) == h;
  }

  lemma QuietStep(log: Log, h: History, pos: nat, limit: nat)
    requires pos < |log| && log[pos].AfterImageEntry? && h.db.snapshot < pos < POSITIONS
    ensures Step(AS_CODED, log, h, pos, limit) == h && Admissible(log, h, pos)
  {
  }

  lemma PutOverlap(log: Log, ops: seq<Op>, p: nat, j: Key, k: Key)
    requires ops == PutOps(j) && Ops(log, p) == PutOps(k)
    ensures Overlaps(log, ops, p) <==> User(j) == User(k)
  {
    var other := Ops(log, p);
    assert OpKeys(ops) == {User(j)} by {
      assert ops[0] in ops;
    }
    assert UpdateOpKeys(other) == {User(k)} by {
      assert other[0] in other;
    }
    assert User(j) == User(k) ==> User(j) in OpKeys(ops) * UpdateOpKeys(other);
  }

  /** What a database does with that transaction, going by its index. */
  lemma LastDecision(log: Log, j: Key, k: Key, h: History)
    requires j != k && log == TwoPuts(j, k) && Inv(log, h) && h.commits == [1, 3, 4] && h.db.snapshot == 4
    ensures var i := log[7].intention;
      && Clashes(AS_CODED, log, i.ops, 3) && !Outdated(AS_CODED, log, h, i) && !Serial(h.db, i)
      && (Commits(AS_CODED, log, h.db, i) <==> 3 !in h.db.index)
  {
    hide Inv, CommitKey, Entries, FirstRoot, NextRoot, Commits, Overlaps, OverlapsInOneSpace, User;
    var i := log[7].intention;
    UserInjective(j, k);
    PutOverlap(log, i.ops, 3, j, j);
    PutOverlap(log, i.ops, 4, j, k);
    DecisionExact(AS_CODED, log, h, i);
  }

  /** The log holds what opening it needs, and opening it starts at 4. */
  lemma TwoPutsImages(j: Key, k: Key, h: History)
    requires h.store == map[1 := Entries(FirstRoot(), 1), 3 := Entries(RootAfter3(j), 3), 4 := Entries(RootAfter4(j, k), 4)]
    ensures var log := TwoPuts(j, k);
      WellBegun(log) && ImagesFollow(log) && HasImage(log, 1) && LastImaged(log, 4) && Imaged(log, h)
  {
    hide Entries, FirstRoot, RootAfter3, RootAfter4, User;
    var log := TwoPuts(j, k);
    assert log[2].ipos == 1 && log[5].ipos == 3 && log[6].ipos == 4;
    assert HasImage(log, 1) && HasImage(log, 3) && HasImage(log, 4);
  }

  /** A restart that makes another decision. Whoever opens this log begins at 4, with an
      empty index, and lets the last transaction commit; the database that has been
      running since the log began knows 3, and aborts it. */
  lemma RestartDiffers(j: Key, k: Key)
    requires j != k
    ensures var log := TwoPuts(j, k);
      var running := Run(AS_CODED, log, First(), 2, 8, 2);
      var h := Run(AS_CODED, log, First(), 2, 5, 2);
      var restored := Restored(LogStore(log), 4);
      && Openable(AS_CODED, log, 2) && LastImaged(log, 4)
      && Recorded(log, h) && restored == Some(h.db.(index := []))
      && running.commits == [1, 3, 4]
      && Run(AS_CODED, log, h.(db := restored.value), 5, 8, 2).commits == [1, 3, 4, 7]
  {
    hide Inv, Entries, FirstRoot, AllAdmissible, Imaged, Recorded, Restored, LogStore, Step, Commits, TwoPuts, Run, Outdated, Clashes;
    var log := TwoPuts(j, k);
    var h := TwoPutsState(j, k);
    TwoPutsLog(j, k);
    var b := h.(db := h.db.(index := []));
    LastDecision(log, j, k, h);
    EmptyIndex(log, h);
    LastDecision(log, j, k, b);
    LastSteps(log, h, b);
    TwoPutsImages(j, k, h);
    PointRecorded(AS_CODED, log, 4, 2);
    RestartExactly(AS_CODED, log, 4, 8, 2);
  }

  lemma TwoPutsLog(j: Key, k: Key)
    ensures |TwoPuts(j, k)| == 8 && TwoPuts(j, k)[7].IntentionEntry? && TwoPuts(j, k)[7].intention.snapshot == 3
    ensures TwoPuts(j, k)[5].AfterImageEntry? && TwoPuts(j, k)[6].AfterImageEntry?
  {
  }

  lemma LastSteps(log: Log, h: History, b: History)
    requires |log| == 8 && log[5].AfterImageEntry? && log[6].AfterImageEntry? && log[7].IntentionEntry?
    requires !Commits(AS_CODED, log, h.db, log[7].intention) && Commits(AS_CODED, log, b.db, log[7].intention)
    requires h.db.snapshot == 4 && b.db.snapshot == 4 && Run(AS_CODED, log, First(), 2, 7, 2) == h
    ensures Run(AS_CODED, log, First(), 2, 8, 2) == h
    ensures Run(AS_CODED, log, b, 5, 8, 2).commits == b.commits + [7]
  {
    hide Commits, NextRoot, Entries, FirstRoot;
    assert Run(AS_CODED, log, b, 5, 5, 2) == b;
    assert Run(AS_CODED, log, b, 5, 6, 2) == Step(AS_CODED, log, b, 5, 2) == b;
    assert Run(AS_CODED, log, b, 5, 7, 2) == Step(AS_CODED, log, b, 6, 2) == b;
  }
}
