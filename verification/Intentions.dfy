/** Intentions: the operations of a transaction as recorded in the log, and what
    replaying them does to a tree. */
module Intentions {
  import opened Basics
  import opened Keys
  import opened Trees
  import opened TreeOps
  import opened TreeProofs
  import opened Sharing
  import opened Deltas
  import opened Positions

  /** Put and Copy record the key with its prefix, Get and Delete record it bare. */
  datatype Op = Get(key: Key) | Put(key: Key, val: Val) | Delete(key: Key) | Copy(key: Key)

  datatype Intention = Intention(snapshot: nat, token: nat, flush: bool, ops: seq<Op>)

  /** All recorded keys. */
  function OpKeys(ops: seq<Op>): set<Key> {
    set op | op in ops :: op.key
  }

  /** The recorded keys of the operations that modify. */
  function UpdateOpKeys(ops: seq<Op>): set<Key> {
    set op | op in ops && (op.Put? || op.Delete?) :: op.key
  }

  function User(k: Key): Key {
    Prefixed(PREFIX_USER, k)
  }

  /** Copies are never mixed with anything else; there is at least one operation. */
  predicate Serializable(ops: seq<Op>) {
    ops != [] && ((forall op :: op in ops ==> op.Copy?) || (forall op :: op in ops ==> !op.Copy?))
  }

  /** What is written to the log: copies make a flush intention. The assertions on the
      way hold just if copies are not mixed with anything else and there is something
      to write; otherwise nothing is. */
  method Serialize(snapshot: nat, token: nat, ops: seq<Op>) returns (i: Option<Intention>)
    ensures i.Some? <==> Serializable(ops)
    ensures i.Some? <==> ops != [] && forall x, y | 0 <= x < |ops| && 0 <= y < |ops| :: ops[x].Copy? == ops[y].Copy?
    ensures i.Some? ==> i.value == Intention(snapshot, token, ops[0].Copy?, ops) && (i.value.flush ==> UpdateOpKeys(ops) == {})
  {
    var copying: Option<bool> := None;
    for k := 0 to |ops|
      invariant copying == if k == 0 then None else Some(ops[0].Copy?)
      invariant forall x :: 0 <= x < k ==> ops[x].Copy? == ops[0].Copy?
    {
      if copying == None {
        copying := Some(ops[k].Copy?);
      }
      if copying.value != ops[k].Copy? {
        assert ops[k] in ops && ops[0] in ops;
        return None;
      }
    }
    if copying == None {
      return None;
    }
    forall op | op in ops ensures op.Copy? == ops[0].Copy? {
      var x :| 0 <= x < |ops| && ops[x] == op;
    }
    i := Some(Intention(snapshot, token, copying.value, ops));
  }

  // -------------------------------------------------------------------- replay

  function Apply(t: Tree, op: Op): Tree {
    match op
    case Get(_) => t
    case Put(k, v) => PutT(t, k, v)
    case Delete(k) => DeleteT(t, User(k))
    case Copy(k) => CopyT(t, k)
  }

  function Replay(t: Tree, ops: seq<Op>): Tree {
    if ops == [] then t else Apply(Replay(t, ops[..|ops| - 1]), ops[|ops| - 1])
  }

  /** The same on maps: what the operations mean. */
  function ApplyMap(m: map<Key, Val>, op: Op): map<Key, Val> {
    match op
    case Get(_) => m
    case Put(k, v) => m[k := v]
    case Delete(k) => m - {User(k)}
    case Copy(_) => m
  }

  function ReplayMap(m: map<Key, Val>, ops: seq<Op>): map<Key, Val> {
    if ops == [] then m else ApplyMap(ReplayMap(m, ops[..|ops| - 1]), ops[|ops| - 1])
  }

  /** What a map has for a key of a client. */
  function ValueOf(m: map<Key, Val>, k: Key): Option<Val> {
    if User(k) in m then Some(m[User(k)]) else None
  }

  /** The operation writes this key of a client. */
  predicate Writes(op: Op, k: Key) {
    (op.Put? && op.key == User(k)) || (op.Delete? && op.key == k)
  }

  lemma UserInjective(a: Key, b: Key)
    ensures User(a) == User(b) <==> a == b
  {
    var p := PREFIX_USER + SEPARATOR;
    assert User(a)[|p|..] == a && User(b)[|p|..] == b;
  }

  lemma ApplyFacts(t: Tree, op: Op)
    requires ValidTree(t) && Layered(t)
    ensures ValidTree(Apply(t, op)) && Layered(Apply(t, op))
    ensures Contents(Apply(t, op)) == ApplyMap(Contents(t), op)
  {
    match op
    case Get(_) =>
    case Put(k, v) =>
      PutCorrect(t, k, v);
      LayeredPut(t, k, v);
    case Delete(k) =>
      DeleteCorrect(t, User(k));
      LayeredDelete(t, User(k));
    case Copy(k) =>
      CopyCorrect(t, k);
      LayeredCopy(t, k);
  }

  lemma {:induction false} ReplayFacts(t: Tree, ops: seq<Op>)
    requires ValidTree(t) && Layered(t)
    ensures ValidTree(Replay(t, ops)) && Layered(Replay(t, ops))
    ensures Contents(Replay(t, ops)) == ReplayMap(Contents(t), ops)
  {
    if ops != [] {
      ReplayFacts(t, ops[..|ops| - 1]);
      ApplyFacts(Replay(t, ops[..|ops| - 1]), ops[|ops| - 1]);
    }
  }

  /** Subtrees are shared, whatever the operations. */
  lemma {:induction false} ReplayBuilt(t: Tree, ops: seq<Op>, b: set<Tree>)
    requires Closed(b) && Built(t, b)
    ensures Built(Replay(t, ops), b)
  {
    if ops != [] {
      var u, op := Replay(t, ops[..|ops| - 1]), ops[|ops| - 1];
      ReplayBuilt(t, ops[..|ops| - 1], b);
      match op
      case Get(_) =>
      case Put(k, v) => BuiltPut(u, k, v, b);
      case Delete(k) => BuiltDelete(u, User(k), b);
      case Copy(k) => BuiltCopy(u, k, b);
    }
  }

  /** All nodes that the search for a key comes along are new. */
  predicate FreshTo(t: Tree, k: Key) {
    t.Node? && t.where.Fresh? && (k == t.key || FreshTo(if Less(k, t.key) then t.left else t.right, k))
  }

  lemma {:induction false} RefreshedFresh(u: Tree, t: Tree, k: Key, j: Key)
    requires Refreshed(u, t, k) && (j == k || FreshTo(t, j))
    ensures FreshTo(u, j)
  {
    if j != t.key {
      if Less(j, t.key) {
        if k != t.key && Less(k, t.key) {
          RefreshedFresh(u.left, t.left, k, j);
        }
      } else if k != t.key && !Less(k, t.key) {
        RefreshedFresh(u.right, t.right, k, j);
      }
    }
  }

  /** A flush makes new nodes of the ways down to all keys it names that are there, and
      leaves the map alone. */
  lemma {:induction false} FlushRefreshes(t: Tree, ops: seq<Op>, j: nat)
    requires ValidTree(t) && Layered(t) && (forall op | op in ops :: op.Copy?) && j < |ops| && ops[j].key in Contents(t)
    ensures Contents(Replay(t, ops)) == Contents(t) && FreshTo(Replay(t, ops), ops[j].key)
  {
    hide ValidTree, Layered, Contents, CopyT, FreshTo, Refreshed;
    var rest, op := ops[..|ops| - 1], ops[|ops| - 1];
    assert op in ops && forall x | x in rest :: x in ops;
    CopiesKeep(t, rest);
    ReplayFacts(t, rest);
    var u := Replay(t, rest);
    CopyCorrect(u, op.key);
    CopyExactly(u, op.key);
    if j < |rest| {
      FlushRefreshes(t, rest, j);
      if op.key in Contents(u) {
        RefreshedFresh(CopyT(u, op.key), u, op.key, ops[j].key);
      }
    } else {
      RefreshedFresh(CopyT(u, op.key), u, op.key, op.key);
    }
  }

  lemma {:induction false} CopiesKeep(t: Tree, ops: seq<Op>)
    requires forall op | op in ops :: op.Copy?
    ensures Contents(Replay(t, ops)) == Contents(t)
  {
    if ops != [] {
      var rest, op := ops[..|ops| - 1], ops[|ops| - 1];
      assert op in ops && forall x | x in rest :: x in ops;
      CopiesKeep(t, rest);
      CopyCorrect(Replay(t, rest), op.key);
    }
  }

  /** Operations of transactions put user keys only. */
  predicate UserOps(ops: seq<Op>) {
    forall op :: op in ops && op.Put? ==> HasUserPrefix(op.key)
  }

  predicate HasUserPrefix(k: Key) {
    |k| >= 2 && k[..2] == PREFIX_USER + SEPARATOR
  }

  lemma UserPrefixed(k: Key)
    ensures HasUserPrefix(User(k))
    ensures HasUserPrefix(k) ==> k == User(k[2..])
  {
    if HasUserPrefix(k) {
      assert k == k[..2] + k[2..];
    }
  }

  lemma CommitNotUser(pos: nat)
    ensures !HasUserPrefix(CommitKey(pos))
  {
    assert CommitKey(pos)[0] == 'C';
  }

  /** Replaying user operations leaves the catalog of committed intentions alone. */
  lemma {:induction false} ReplayOutsideUser(m: map<Key, Val>, ops: seq<Op>, k: Key)
    requires UserOps(ops) && !HasUserPrefix(k)
    ensures (k in ReplayMap(m, ops) <==> k in m) && (k in m ==> ReplayMap(m, ops)[k] == m[k])
  {
    if ops != [] {
      var op := ops[|ops| - 1];
      assert op in ops;
      assert UserOps(ops[..|ops| - 1]) by {
        forall x | x in ops[..|ops| - 1] && x.Put? ensures HasUserPrefix(x.key) {
          assert x in ops;
        }
      }
      ReplayOutsideUser(m, ops[..|ops| - 1], k);
      if op.Delete? {
        UserPrefixed(op.key);
      }
    }
  }

  /** The last put or delete of a key decides: after a put the key has that put's own
      value, after a delete it is gone. */
  lemma {:induction false} LastWriteDecides(m: map<Key, Val>, ops: seq<Op>, k: Key, j: nat)
    requires j < |ops| && ((ops[j].Put? && ops[j].key == k) || (ops[j].Delete? && User(ops[j].key) == k))
    requires forall i | j < i < |ops| :: !(ops[i].Put? && ops[i].key == k) && !(ops[i].Delete? && User(ops[i].key) == k)
    ensures ops[j].Put? ==> k in ReplayMap(m, ops) && ReplayMap(m, ops)[k] == ops[j].val
    ensures ops[j].Delete? ==> k !in ReplayMap(m, ops)
  {
    hide User;
    if j < |ops| - 1 {
      LastWriteDecides(m, ops[..|ops| - 1], k, j);
    }
  }

  /** A key that no operation modifies keeps its value. */
  lemma {:induction false} ReplayUntouched(m: map<Key, Val>, ops: seq<Op>, k: Key)
    requires forall op :: op in ops && op.Put? ==> op.key != k
    requires forall op :: op in ops && op.Delete? ==> User(op.key) != k
    ensures (k in ReplayMap(m, ops) <==> k in m) && (k in m ==> ReplayMap(m, ops)[k] == m[k])
  {
    if ops != [] {
      var rest := ops[..|ops| - 1];
      assert ops[|ops| - 1] in ops;
      forall op | op in rest ensures op in ops {
      }
      ReplayUntouched(m, rest, k);
    }
  }
}
