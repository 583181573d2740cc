/** The committed intentions as listed in the tree, the bounded index of the most
    recent ones, and the conflict zone that is put together from the two. */
module Catalogs {
  import opened Keys
  import opened Trees
  import opened TreeProofs
  import opened Positions
  import opened Intentions
  import opened Iterators

  ghost predicate Ascending(ps: seq<nat>) {
    forall i, j :: 0 <= i < j < |ps| ==> ps[i] < ps[j]
  }

  /** The tree lists exactly these commits; its other keys are user keys. */
  ghost predicate Catalogued(t: Tree, commits: seq<nat>) {
    && Ordered(t) && Ascending(commits)
    && (forall i :: 0 <= i < |commits| ==> commits[i] < POSITIONS && CommitKey(commits[i]) in Contents(t))
    && (forall k | k in Contents(t) :: HasUserPrefix(k) || Listed(k, commits))
  }

  ghost predicate Listed(k: Key, commits: seq<nat>) {
    exists i :: 0 <= i < |commits| && k == CommitKey(commits[i])
  }

  lemma {:induction false} PairInMap(s: seq<Pair>, i: nat)
    requires i < |s|
    ensures s[i].0 in MapOf(s)
  {
    var n := |s| - 1;
    if i < n {
      PairInMap(s[..n], i);
    }
  }

  /** The catalog is the front of the sorted pairs. */
  lemma {:induction false} CatalogFront(t: Tree, commits: seq<nat>, n: nat)
    requires Catalogued(t, commits) && n <= |commits|
    ensures n <= |Flat(t)| && forall i :: 0 <= i < n ==> Flat(t)[i].0 == CommitKey(commits[i])
  {
    hide CommitKey, Less, MapOf, Flat, HasUserPrefix;
    if n > 0 {
      CatalogFront(t, commits, n - 1);
      var s, c := Flat(t), commits[n - 1];
      MapOfKeys(s, CommitKey(c));
      var j :| 0 <= j < |s| && s[j].0 == CommitKey(c);
      if j < n - 1 {
        PadOrder(commits[j], c);
      } else if j > n - 1 {
        PairInMap(s, n - 1);
        LessAsymmetric(s[n - 1].0, CommitKey(c));
        if HasUserPrefix(s[n - 1].0) {
          UserPrefixed(s[n - 1].0);
          CommitBeforeUser(c, s[n - 1].0[2..]);
        } else {
          var m :| 0 <= m < |commits| && s[n - 1].0 == CommitKey(commits[m]);
          PadOrder(commits[m], c);
          if m < n - 1 {
            LessIrreflexive(s[m].0);
          }
        }
      }
    }
  }

  lemma CatalogRest(t: Tree, commits: seq<nat>, i: nat)
    requires Catalogued(t, commits) && |commits| <= i < |Flat(t)|
    ensures HasUserPrefix(Flat(t)[i].0) && !HasPrefix(Flat(t)[i].0, PREFIX_COMMITTED_INTENTION)
  {
    hide CommitKey, Less, MapOf, Flat, HasUserPrefix, HasPrefix;
    var s := Flat(t);
    CatalogFront(t, commits, |commits|);
    PairInMap(s, i);
    if !HasUserPrefix(s[i].0) {
      var m :| 0 <= m < |commits| && s[i].0 == CommitKey(commits[m]);
      LessIrreflexive(s[m].0);
    }
    UserNotCatalog(s[i].0);
  }

  lemma UserNotCatalog(k: Key)
    requires HasUserPrefix(k)
    ensures !HasPrefix(k, PREFIX_COMMITTED_INTENTION)
  {
    assert k[..2][0] == 'U';
    assert k[..1][0] == k[0];
  }

  /** A catalog key is recognized and read back. */
  lemma CatalogKey(pos: nat)
    requires pos < POSITIONS
    ensures var k := CommitKey(pos);
      && HasPrefix(k, PREFIX_COMMITTED_INTENTION) && |k| >= 2
      && IsNumber(k[2..]) && Parse(k[2..]) == pos && !HasUserPrefix(k)
  {
    PrefixedHas(PREFIX_COMMITTED_INTENTION, Pad20(pos));
    assert CommitKey(pos)[2..] == Pad20(pos);
    PadOrder(pos, pos);
    CommitNotUser(pos);
  }

  lemma CommitsApart(commits: seq<nat>, t: Tree, i: nat, k: nat)
    requires Catalogued(t, commits) && i <= k < |commits|
    ensures commits[i] < POSITIONS && commits[k] < POSITIONS && (commits[i] == commits[k] <==> i == k)
  {
  }

  /** Going to the last key of a prefix, the prefix iterator ends on the last key of
      all. In a committed tree this is right for user keys, and for the catalog just
      if there are no user keys. */
  lemma LastOfCatalogued(t: Tree, commits: seq<nat>)
    requires Catalogued(t, commits) && commits != []
    ensures AtLast(Flat(t), |Flat(t)| - 1, PREFIX_USER)
    ensures AtLast(Flat(t), |Flat(t)| - 1, PREFIX_COMMITTED_INTENTION) <==> |Flat(t)| == |commits|
  {
    hide CommitKey, Less, MapOf, HasUserPrefix, HasPrefix;
    var s := Flat(t);
    CatalogFront(t, commits, |commits|);
    forall i | 0 <= i < |s|
      ensures HasPrefix(s[i].0, PREFIX_COMMITTED_INTENTION) <==> i < |commits|
      ensures HasPrefix(s[i].0, PREFIX_USER) <==> i >= |commits|
    {
      if i < |commits| {
        CatalogKey(commits[i]);
        CatalogNotUser(s[i].0);
      } else {
        CatalogRest(t, commits, i);
        UserHas(s[i].0);
      }
    }
    assert HasPrefix(s[0].0, PREFIX_COMMITTED_INTENTION);
  }

  /** With one user key the iterator goes past the catalog. */
  lemma LastFails(t: Tree, commits: seq<nat>, k: Key)
    requires Catalogued(t, commits) && commits != [] && User(k) in Contents(t)
    ensures !AtLast(Flat(t), |Flat(t)| - 1, PREFIX_COMMITTED_INTENTION)
  {
    hide CommitKey, Less, Flat, AtLast;
    LastOfCatalogued(t, commits);
    CatalogFront(t, commits, |commits|);
    MapOfKeys(Flat(t), User(k));
    var j :| 0 <= j < |Flat(t)| && Flat(t)[j].0 == User(k);
    if j < |commits| {
      CommitNotUser(commits[j]);
      UserPrefixed(k);
    }
  }

  lemma CatalogNotUser(k: Key)
    requires HasPrefix(k, PREFIX_COMMITTED_INTENTION)
    ensures !HasPrefix(k, PREFIX_USER)
  {
    assert k[..1][0] == k[0];
  }

  lemma UserHas(k: Key)
    requires HasUserPrefix(k)
    ensures HasPrefix(k, PREFIX_USER)
  {
    assert k[..2][..1] == k[..1] && k[..2][1] == k[1];
  }

  // ------------------------------------------------------------------ the index

  /** The first entry that is at least `first`. */
  function FirstAtLeast(index: seq<nat>, first: nat): (n: nat)
    ensures n <= |index|
  {
    if index == [] || index[0] >= first then 0 else 1 + FirstAtLeast(index[1..], first)
  }

  function Push(index: seq<nat>, pos: nat, limit: nat): seq<nat> {
    var all := index + [pos];
    if |all| > limit then all[1..] else all
  }

  /** The positions from `first` to the newest as far as they are known, and
      whether they are complete. */
  function Range(index: seq<nat>, first: nat, last: nat): (seq<nat>, bool) {
    if index == [] then ([last], false)
    else
      var i := FirstAtLeast(index, first);
      (index[i..], i < |index| && index[i] == first)
  }

  /** The catalog from pair `i` on, up to the position `front`. */
  function Scan(s: seq<Pair>, i: nat, front: nat): seq<nat>
    decreases |s| - i
  {
    if i < |s| && HasPrefix(s[i].0, PREFIX_COMMITTED_INTENTION) && IsNumber(s[i].0[2..]) then
      var pos := Parse(s[i].0[2..]);
      if pos == front then [] else [pos] + Scan(s, i + 1, front)
    else []
  }

  /** The positions whose intentions are checked against a transaction that ran on
      the snapshot `first`. */
  function Zone(t: Tree, index: seq<nat>, first: nat, last: nat): seq<nat> {
    var (known, complete) := Range(index, first, last);
    if complete || known == [] then known
    else known + Scan(Flat(t), LowerBound(Flat(t), CommitKey(first)) + 1, known[0])
  }

  /** The same as the index is documented to work, which leaves the snapshot out
      if it knows it. */
  function HalfOpenZone(t: Tree, index: seq<nat>, first: nat, last: nat): seq<nat> {
    var (known, complete) := Range(index, first, last);
    if complete then known[1..] else Zone(t, index, first, last)
  }

  lemma {:induction false} FirstAtLeastFacts(index: seq<nat>, first: nat)
    requires Ascending(index)
    ensures var n := FirstAtLeast(index, first);
      && (forall i :: 0 <= i < n ==> index[i] < first) && (forall i :: n <= i < |index| ==> index[i] >= first)
      && (forall i :: 0 <= i < |index| && index[i] == first ==> i == n)
  {
    if index != [] && index[0] < first {
      FirstAtLeastFacts(index[1..], first);
      var n := FirstAtLeast(index, first);
      assert forall i :: 0 < i < |index| ==> index[i] == index[1..][i - 1];
    }
  }

  /** Scanning the catalog from entry `i` up to entry `k`. */
  lemma {:induction false} ScanCatalog(t: Tree, commits: seq<nat>, i: nat, k: nat)
    requires Catalogued(t, commits) && i <= k < |commits|
    ensures Scan(Flat(t), i, commits[k]) == commits[i..k]
    decreases k - i
  {
    hide CommitKey, Less, MapOf, Flat, HasUserPrefix, HasPrefix, Parse, IsNumber, Pad20, Catalogued;
    CatalogFront(t, commits, |commits|);
    CommitsApart(commits, t, i, k);
    CatalogKey(commits[i]);
    if i < k {
      ScanCatalog(t, commits, i + 1, k);
      assert commits[i..k] == [commits[i]] + commits[i + 1..k];
    }
  }

  /** Scanning on from entry `i` lists the rest of the catalog in the order of the
      log, and stops at the user keys. */
  lemma {:induction false} ScanLists(t: Tree, commits: seq<nat>, i: nat, front: nat)
    requires Catalogued(t, commits) && i <= |commits| && front !in commits
    ensures Scan(Flat(t), i, front) == commits[i..]
    decreases |commits| - i
  {
    hide CommitKey, Less, MapOf, Flat, HasUserPrefix, HasPrefix, Parse, IsNumber, Pad20, Catalogued;
    CatalogFront(t, commits, |commits|);
    if i < |commits| {
      CommitsApart(commits, t, i, i);
      CatalogKey(commits[i]);
      ScanLists(t, commits, i + 1, front);
      assert commits[i..] == [commits[i]] + commits[i + 1..];
    } else if i < |Flat(t)| {
      CatalogRest(t, commits, i);
    }
  }

  lemma CatalogAt(t: Tree, commits: seq<nat>, j: nat)
    requires Catalogued(t, commits) && j < |commits|
    ensures LowerBound(Flat(t), CommitKey(commits[j])) == j
  {
    CatalogFront(t, commits, |commits|);
    LowerBoundAt(Flat(t), j);
  }

  /** The index holds the most recent commits. */
  ghost predicate Recent(index: seq<nat>, commits: seq<nat>) {
    |index| <= |commits| && index == commits[|commits| - |index|..]
  }

  lemma PushRecent(index: seq<nat>, commits: seq<nat>, pos: nat, limit: nat)
    requires Recent(index, commits)
    ensures Recent(Push(index, pos, limit), commits + [pos])
  {
    var n := |commits| - |index|;
    assert (commits + [pos])[n..] == index + [pos];
    if |index| + 1 > limit {
      assert (index + [pos])[1..] == (commits + [pos])[n + 1..];
    }
  }

  lemma KnownFrom(index: seq<nat>, commits: seq<nat>, x: nat)
    requires Recent(index, commits) && Ascending(commits) && x < |commits|
    ensures commits[x] in index <==> x >= |commits| - |index|
  {
    var k := |commits| - |index|;
    assert x >= k ==> index[x - k] == commits[x];
    if q :| 0 <= q < |index| && index[q] == commits[x] {
      assert commits[k + q] == commits[x];
    }
  }

  /** Since the database opened, when there were `began` commits, the index has collected
      the newest ones, and no more than `limit` of them. */
  ghost predicate Newest(index: seq<nat>, commits: seq<nat>, began: nat, limit: nat) {
    && began <= |commits|
    && index == commits[|commits| - (if limit < |commits| - began then limit else |commits| - began)..]
  }

  lemma PushNewest(index: seq<nat>, commits: seq<nat>, began: nat, pos: nat, limit: nat)
    requires Newest(index, commits, began, limit)
    ensures Newest(Push(index, pos, limit), commits + [pos], began, limit)
  {
    var n := |commits| - |index|;
    assert (commits + [pos])[n..] == index + [pos];
    assert (commits + [pos])[n + 1..] == (index + [pos])[1..];
  }

  /** Where the index begins among the commits. */
  function IndexStart(index: seq<nat>, commits: seq<nat>): nat
    requires |index| <= |commits| && commits != []
  {
    if index == [] then |commits| - 1 else |commits| - |index|
  }

  lemma RangeParts(index: seq<nat>, commits: seq<nat>, j: nat)
    requires Ascending(commits) && Recent(index, commits) && j + 1 < |commits|
    ensures var k := IndexStart(index, commits);
      Range(index, commits[j], commits[|commits| - 1]) ==
      if index != [] && j >= k then (commits[j..], true) else (commits[k..], false)
  {
    var first, m := commits[j], |commits|;
    if index == [] {
      assert commits[m - 1..] == [commits[m - 1]];
    } else {
      var k := m - |index|;
      RecentAscending(index, commits);
      FirstAtLeastFacts(index, first);
      var i := FirstAtLeast(index, first);
      if j >= k {
        assert index[j - k] == first;
        assert index[i..] == commits[j..];
      } else {
        assert index[0] == commits[k];
        assert i == 0;
        assert index[0..] == index;
      }
    }
  }

  lemma RecentAscending(index: seq<nat>, commits: seq<nat>)
    requires Ascending(commits) && Recent(index, commits)
    ensures Ascending(index)
  {
    forall i, j | 0 <= i < j < |index| ensures index[i] < index[j] {
      var k := |commits| - |index|;
      assert index[i] == commits[k + i] && index[j] == commits[k + j];
    }
  }

  lemma CatalogAscending(t: Tree, commits: seq<nat>)
    requires Catalogued(t, commits)
    ensures Ascending(commits)
  {
  }

  /** What the zone is: with a snapshot that the index still knows, the index from
      the snapshot on, snapshot included; otherwise the index and, out of the
      catalog, what lies between the snapshot and the index. */
  lemma ZoneParts(t: Tree, index: seq<nat>, commits: seq<nat>, j: nat)
    requires Catalogued(t, commits) && Recent(index, commits) && j + 1 < |commits|
    ensures var k := IndexStart(index, commits);
      Zone(t, index, commits[j], commits[|commits| - 1]) ==
      if index != [] && j >= k then commits[j..] else commits[k..] + commits[j + 1..k]
  {
    hide CommitKey, Less, MapOf, Flat, Parse, IsNumber, Pad20, LowerBound, Scan, Catalogued, Range;
    var k := IndexStart(index, commits);
    CatalogAscending(t, commits);
    RangeParts(index, commits, j);
    CatalogAt(t, commits, j);
    if index == [] || j < k {
      assert commits[k..][0] == commits[k];
      ScanCatalog(t, commits, j + 1, k);
    }
  }

  /** Conflict-zone coverage. Whatever the index still knows: every intention that
      committed after the snapshot is checked, nothing but commits from the
      snapshot on is, and the snapshot itself just when the index knows it. */
  lemma ZoneCoverage(t: Tree, index: seq<nat>, commits: seq<nat>, j: nat, p: nat)
    requires Catalogued(t, commits) && Recent(index, commits) && j + 1 < |commits|
    ensures p in Zone(t, index, commits[j], commits[|commits| - 1]) <==>
      p in commits && (commits[j] < p || (p == commits[j] && p in index))
  {
    hide CommitKey, Less, MapOf, Flat, Parse, IsNumber, Pad20, LowerBound, Scan, Catalogued, Zone;
    CatalogAscending(t, commits);
    ZoneParts(t, index, commits, j);
    ZoneMembers(index, commits, j, p);
  }

  /** As documented, exactly the commits after the snapshot are checked. */
  lemma HalfOpenCoverage(t: Tree, index: seq<nat>, commits: seq<nat>, j: nat, p: nat)
    requires Catalogued(t, commits) && Recent(index, commits) && j + 1 < |commits|
    ensures p in HalfOpenZone(t, index, commits[j], commits[|commits| - 1]) <==> p in commits && commits[j] < p
  {
    hide CommitKey, Less, MapOf, Flat, Parse, IsNumber, Pad20, LowerBound, Scan, Catalogued, Zone, Range;
    CatalogAscending(t, commits);
    RangeParts(index, commits, j);
    ZoneCoverage(t, index, commits, j, p);
    RecentIndex(index, commits, j);
    if index != [] && j >= IndexStart(index, commits) {
      assert commits[j..][1..] == commits[j + 1..];
      if p in commits {
        var i :| 0 <= i < |commits| && commits[i] == p;
        assert commits[j] < p <==> j < i;
        assert i > j ==> commits[j + 1..][i - j - 1] == p;
      }
    }
  }

  lemma RecentIndex(index: seq<nat>, commits: seq<nat>, j: nat)
    requires Ascending(commits) && Recent(index, commits) && j + 1 < |commits|
    ensures commits[j] in index <==> index != [] && j >= IndexStart(index, commits)
  {
    if index != [] {
      var k := |commits| - |index|;
      assert j >= k ==> index[j - k] == commits[j];
      if q :| 0 <= q < |index| && index[q] == commits[j] {
        assert commits[k + q] == commits[j];
      }
    }
  }

  lemma ZoneMembers(index: seq<nat>, commits: seq<nat>, j: nat, p: nat)
    requires Ascending(commits) && Recent(index, commits) && j + 1 < |commits|
    ensures var k := IndexStart(index, commits);
      p in (if index != [] && j >= k then commits[j..] else commits[k..] + commits[j + 1..k]) <==>
      p in commits && (commits[j] < p || (p == commits[j] && p in index))
  {
    var m, k := |commits|, IndexStart(index, commits);
    if i :| 0 <= i < m && commits[i] == p {
      assert commits[j] < p <==> j < i;
      assert p == commits[j] <==> i == j;
      if index != [] {
        assert i >= k ==> index[i - k] == p;
        if q :| 0 <= q < |index| && index[q] == p {
          assert commits[k + q] == p;
        }
      }
      assert i >= j ==> commits[j..][i - j] == p;
      assert i >= k ==> commits[k..][i - k] == p;
      assert j < i < k ==> commits[j + 1..k][i - j - 1] == p;
    }
  }
}
