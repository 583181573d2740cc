# A verified model of CruzDB

CruzDB keeps a key-value database in a shared log. Clients append intentions,
the operations of a transaction together with the position of the snapshot that
it ran on. Every process reads the log, decides which intentions commit, and
applies them to a persistent red-black tree. The nodes that a commit adds, its
delta, are written back to the log as an after image.

This project models that machinery in Dafny and proves what it is for: the log
alone determines the database.

- **The tree** is modelled twice. `Trees`, `Zippers` and `TreeOps` hold it as
  a value, with the operations step for step as functions; `TreeProofs` shows
  that they keep order and balance and do to the map what they should, and
  `Sharing` that they share subtrees with older trees. `Nodes` and
  `PersistentTrees` hold it in memory: linked nodes, recoloured and relinked in
  place, copied on demand, with the explicit path of the source. `Shapes` says
  what tree the linked nodes stand for, `Relinks` what the few writes of each
  case do to it, and each method is proved to compute the value-level function
  and to write nothing but its own nodes.
- **Addresses.** `Deltas` numbers a delta, writes it out and reads it back.
  `Infection` and `Serialization` do this in memory. That every pointer carries
  the right address is stated by looking at the tree through addresses alone, as
  other trees do: what they see is the placed tree. `DeltaSizes` bounds how much an
  operation copies.
- **The processor.** `Histories` is the fold over the log, `Catalogs` the
  conflict zone out of index and tree, `Processors` the loops. `Serializability`
  and `Restarts` hold the two properties that the code has only under a condition.
- **The database in memory.** `CommitTrees` builds the next root, `Databases` puts
  everything together: any number of running transactions, the processor, and the
  finalizer that renames pointers in nodes which all of them share (`Renewals`),
  each call one step of an arbitrary interleaving. `Finalizers` hands the nodes over
  to the cache.
- **Opening.** `Restarts` finds the restore point and says what rolling forward from
  there gives. `Logs` connects the log as it is written with the log as the
  processor reads it, and `Openings` begins a log, reads the tree of the restore point
  into memory and opens a database on it.
- **Rendezvous and readers.** `Matchers`, `Rendezvous`, `Iterators`,
  `NodeCaches` and `LruCaches`.

## Where the code and its promises differ

The model follows the code. Each difference is a theorem with its exact
condition.

- Conflicts are looked for with keys as recorded. A Put records the prefixed key,
  a Get and a Delete record the bare one (`src/db/transaction_impl.cc:37`,
  `:52`, `:76-78`), so that a plain read misses the puts of others.
  `SerializableExactly` says which transactions are serial in log order;
  `OneSpaceReadsCurrent` that all would be, with one key space.
- The index is documented to return (first, last]
  (`src/db/db_impl.h:184`). It returns [first, last] if it knows the first
  position, since the result of `std::next` is dropped
  (`src/db/db_impl.cc:853`). In one and the same state this only adds aborts. Over
  a whole log it makes decisions depend on what the index knows, which a restart
  changes: `DecisionsAgree` and `RestartExactly` say exactly when, `RestartDiffers`
  gives a log and a restart, and `RestartSame` shows that nothing changes with the
  range as documented.
- The finalizer asserts that no node of an after image is in the cache before it
  puts them there: `FinalizeAfterImage` says exactly when that holds, and that it
  always does when after images are finalized in the order of their intentions and
  nodes are fetched by following pointers of finalized ones; `FetchedFirst` gives
  a run in which it fails.
- The rendezvous asserts that somebody waits under a token that is notified:
  `Notify` says when that holds, `ToldTwice` gives a run in which it fails. Waiters
  with the same token share an entry and keep iterators to it: `Check` says when
  these are good, `LeftBehind` gives a run in which one is not.
- Offsets have 16 bits: `RoundTripExactly`, `LargeDeltaLost`; small transactions do not
  come near that, `SmallFits`.
- The prefix iterator's SeekToLast is right only if no key lies beyond the prefix:
  `SeekToLast`, `LastOfCatalogued`, `CatalogLastFails`.
- The self-check compares a node with its own children only: `ValidateMisses`.

## Model

| member | source | states |
|---|---|---|
| TreeProofs.PutCorrect | src/db/persistent_tree.cc:596-645 | for every red-black search tree and every key and value, putting gives a red-black search tree with a black root whose map is the old one updated at the key; an existing key goes through delete and insert |
| TreeProofs.InsertCorrect | src/db/persistent_tree.cc:216-323 | inserting an absent key keeps order and balance and adds exactly that key |
| TreeProofs.DeleteCorrect | src/db/persistent_tree.cc:665-726 | deleting keeps order, balance and the black root, removes exactly the key, and leaves the tree identical if the key is absent; the search finds a key just when the map has it |
| TreeProofs.CopyCorrect | src/db/persistent_tree.cc:534-590 | copying a path keeps map, shape and colours |
| TreeProofs.CopyExactly | src/db/persistent_tree.cc:534-590 | for a key that is there the result has new nodes all the way down to the node of the key, and what lies beside the way and below it is the same; for an absent key nothing changes |
| TreeProofs.GetCorrect | src/db/persistent_tree.cc:647-663 | the search returns the value in the map, or nothing for an absent key |
| TreeProofs.FlatInsertFix | src/db/persistent_tree.cc:296-323 | recolouring and rotating after an insertion moves no pair: the in-order sequence is the path's with the new node in its hole |
| TreeProofs.InsertFixBalanced | src/db/persistent_tree.cc:629-641 | the insertion loop ends in a balanced tree with a black root |
| TreeProofs.FlatDeleteFix | src/db/persistent_tree.cc:493-532 | rebalancing a deletion keeps the in-order sequence |
| TreeProofs.DeleteFixBalanced | src/db/persistent_tree.cc:493-532 | a hole that is one black node short, on a balanced path, is repaired to a balanced tree; the recursion behind it also shows that the loop ends although the red-brother case lengthens the path |
| TreeProofs.DeleteStepBalanced | src/db/persistent_tree.cc:434-490 | the same for the half step with a black brother: recolouring, one or two rotations |
| Zippers.BalancedHeight | src/db/db_impl.cc:167-197 | what balance means: no way down is more than about twice as long as another one, and a tree of black height h has at least 2^h - 1 nodes |
| TreeProofs.FlatRemove | src/db/persistent_tree.cc:684-722 | removing a node in each of its three forms keeps all pairs but its own, in order |
| TreeProofs.SpliceBalanced | src/db/persistent_tree.cc:688-722 | what takes the place of a removed node is a red leaf or nothing, and nothing if the node is red, so that the address left in the parent's pointer is never that of another node |
| TreeProofs.RemoveInnerFacts | src/db/persistent_tree.cc:702-719 | the node with two children is replaced by the leftmost node on its right, whose former payload is of no account |
| Sharing.BuiltPut | src/db/persistent_tree.cc:596-645 | the result of a put is made of fresh nodes and whole subtrees of older trees; its root is fresh |
| Sharing.BuiltDelete | src/db/persistent_tree.cc:665-726 | so is the result of a delete |
| Sharing.BuiltCopy | src/db/persistent_tree.cc:580-590 | so is the result of a copy |
| Sharing.LayeredPut | src/db/persistent_tree.cc:596-645 | after a put the fresh nodes are still closed under taking parents |
| Sharing.LayeredDelete | src/db/persistent_tree.cc:665-726 | after a delete, too |
| Sharing.LayeredCopy | src/db/persistent_tree.cc:580-590 | after a copy, too |
| PersistentTrees.PersistentTree.constructor | src/db/persistent_tree.h:45-61 | a tree over a snapshot stands for the snapshot and owns nothing |
| PersistentTrees.PersistentTree.Copy | src/db/node.h:214-280 | a copy holds what the original does, pointers with their addresses included, but has the tree's rid; it is listed as fresh |
| PersistentTrees.PersistentTree.Rotate | src/db/persistent_tree.cc:271-294 | the exact writes of a rotation: two or three pointers move, with their addresses, and nothing else |
| PersistentTrees.PersistentTree.RotateFocus | src/db/persistent_tree.cc:271-294 | in memory this is the rotation of the tree value at the end of the path, with the root variable kept right |
| PersistentTrees.PersistentTree.InsertRecursive | src/db/persistent_tree.cc:216-269 | the path down to an absent key is copied on demand, a red node added, and the deque is the path; nothing at all is written for an existing key |
| PersistentTrees.PersistentTree.DeleteRecursive | src/db/persistent_tree.cc:325-380 | the path down to an existing key is copied on demand; nothing is written for an absent one |
| PersistentTrees.PersistentTree.CopyRecursive | src/db/persistent_tree.cc:534-578 | the path down to a key whose node is not own yet is copied; otherwise nothing is written |
| PersistentTrees.PersistentTree.InsertBalance | src/db/persistent_tree.cc:296-323 | one step of the insertion loop, in both mirrored forms, computes what the value-level step does |
| PersistentTrees.PersistentTree.BalanceInsert | src/db/persistent_tree.cc:626-644 | the loop ends and leaves the rebalanced tree with a black root in memory |
| PersistentTrees.PersistentTree.MirrorRemoveBalance | src/db/persistent_tree.cc:412-491 | one step of the deletion loop, in both mirrored forms, keeps the result the loop is on its way to; the path gets shorter, or stays as long and a red node is in the hole |
| PersistentTrees.PersistentTree.RedBrother | src/db/persistent_tree.cc:418-432 | a red brother is copied, recoloured and rotated up; the parent is pushed one level down |
| PersistentTrees.PersistentTree.RebalanceLoop | src/db/persistent_tree.cc:496-510 | the loop terminates with a red node in the hole or at the root |
| PersistentTrees.PersistentTree.BalanceDelete | src/db/persistent_tree.cc:493-532 | from a node one black short to the finished tree, in memory |
| PersistentTrees.PersistentTree.Transplant | src/db/persistent_tree.cc:382-392 | exactly the pointer to the removed node, or the root, is redirected |
| PersistentTrees.PersistentTree.BuildMinPath | src/db/persistent_tree.cc:394-410 | walks to the leftmost node, copying on demand, with the walk on top of the deque and all writes confined to the subtree |
| PersistentTrees.PersistentTree.StealPayload | src/db/node.h:325-330 | key and value move; what is left behind is unspecified |
| PersistentTrees.PersistentTree.RemoveNode | src/db/persistent_tree.cc:681-722 | all three ways of taking a node out of the tree, in memory |
| PersistentTrees.PersistentTree.Get | src/db/persistent_tree.cc:647-663 | the walk down finds what the map says |
| PersistentTrees.PersistentTree.Delete | src/db/persistent_tree.cc:665-726 | in memory: the tree is the value-level result, the map is the old one without the key; own nodes and new ones are all that is written; the sentinel gets among the fresh nodes exactly when the tree is emptied |
| PersistentTrees.PersistentTree.Put | src/db/persistent_tree.cc:596-645 | in memory: the tree is the value-level result, the map is updated at the key, and own nodes and new ones are all that is written |
| PersistentTrees.PersistentTree.CopyPath | src/db/persistent_tree.cc:580-590 | in memory the tree is the value-level result, written to own nodes and new ones only; all nodes that the search for the key comes along are own ones then, the last one holds the key, and nothing happens for an absent key |
| CommitTrees.OperateBeside | src/db/persistent_tree.cc:580-726 | persistence: whatever operation changes one tree, another one that shares nodes with it keeps its tree value, so that the same holds for any sequence of operations |
| PersistentTrees.PersistentTree.InfectNodePtr | src/db/persistent_tree.cc:19-25 | a pointer to an own node gets that node's address, over whatever stale address it had; other pointers are left alone |
| PersistentTrees.PersistentTree.InfectAfterImage | src/db/persistent_tree.cc:34-49 | numbers the own nodes in post-order; seen through addresses alone, the tree is then the placed tree, so that every pointer that is followed carries the address of the node it leads to |
| PersistentTrees.PersistentTree.SetEachRid | src/db/persistent_tree.cc:80-87 | every own node, once, goes from the expected rid to the intention's; the assertions on old rids hold |
| PersistentTrees.PersistentTree.CopyRoot | src/db/persistent_tree.cc:95-98 | a tree without changes gets a root of its own, a copy of that of its snapshot |
| PersistentTrees.PersistentTree.InfectSelfPointers | src/db/persistent_tree.cc:51-108 | for a delta of at most 65536 nodes: the returned offset is that of the root, the tree itself is unchanged, and to everyone else it is the placed tree; without changes there is no offset, just a copied root |
| PersistentTrees.PersistentTree.SerializeNodePtr | src/db/persistent_tree.cc:110-145 | the offset asserted during serialization is the one of infection; the entry means the node pointed to, and names it by intention only if its after image is not known |
| PersistentTrees.PersistentTree.SerializeIntention | src/db/persistent_tree.cc:158-182 | the list of entries means the entries of the placed tree in post-order, and the delta lists the own nodes in the same order |
| PersistentTrees.PersistentTree.SerializeAfterImage | src/db/persistent_tree.cc:184-200 | the same for the whole after image |
| PersistentTrees.PersistentTree.ConvertToAfterImage | src/db/node.h:170-176 | the assertions hold and the address names the same offset in the after image |
| PersistentTrees.PersistentTree.SetDeltaPosition | src/db/persistent_tree.cc:202-213 | every pointer within the delta names the after image; the tree is unchanged, no node of others is written, and whoever knows the after image sees each pointer lead where it led before |
| PersistentTrees.PersistentTree.SetReadOnly | src/db/node_cache.cc:339-340 | the nodes of the delta, none of which is read-only yet, become so |
| PersistentTrees.PersistentTree.Adopt | src/db/node.h:170-176 | when nodes of others have been renamed, a tree that shares them is valid again and stands for the same tree value |
| Renewals.AdoptAll | src/db/persistent_tree.cc:202-213 | so do all trees at once |
| Infection.ViewReaddressed | src/db/persistent_tree.cc:12-18 | a tree does not depend on the addresses of pointers to its own nodes, stale or not |
| Serialization.ViewRebranded | src/db/persistent_tree.cc:54-79 | handing all nodes over to another rid has the effect of having built the tree with it |
| Serialization.ConvertedSame | src/db/node.h:19-27 | an address by intention and one by its primary after image name the same node |
| Serialization.DeltaMeans | src/db/persistent_tree.cc:147-182 | the nodes of a delta in memory are, one by one, what the entries of its after image say, each pointer naming the node that the entry refers to |
| Deltas.PlaceFacts | src/db/persistent_tree.cc:34-49 | placing numbers the fresh nodes consecutively, the root last, and keeps map, shape and colours |
| Deltas.RoundTrip | src/db/persistent_tree.cc:110-182 | a delta of at most 65536 nodes, written out as entries and read back by following references, is the same tree; the root is the last entry; older trees still read the same (that the serialized pointers, loaded and followed, give this tree is NodeCaches.NodeCache.ReadTree) |
| Deltas.RoundTripExactly | src/db/node.h:28-32 | a tree comes back from the 16 bits of its root address if and only if its delta has at most 65536 nodes |
| Deltas.LargeDeltaLost | src/db/persistent_tree.cc:110-182 | a delta of 65537 nodes that its root address does not lead to |
| DeltaSizes.DeltaSize | src/db/persistent_tree.cc:216-726 | what a transaction adds: for each of its operations, and for the commit key, a number of nodes that grows with the logarithm of the size of the tree only |
| DeltaSizes.SmallFits | src/db/persistent_tree.cc:110-182 | up to 72 operations fit into an after image, whatever they are, in a tree of fewer than 2^64 pairs |
| DeltaSizes.SmallAdmissible | src/db/db_impl.cc:373-481 | so the processor can take any transaction of that size in any state that it reaches |
| Deltas.AllDecode | src/db/node_cache.cc:288-327 | following pointers from any node of any after image comes to an end: every address reads back as a finite tree |
| Deltas.AddImage | src/db/persistent_tree.cc:110-182 | a new after image keeps every pointer leading to an older position, or to a smaller offset in the same image |
| Deltas.DecodeFrame | src/db/node_cache.cc:288-327 | what an address reads back does not depend on later after images |
| Deltas.StoredSubtrees | src/db/node_cache.cc:288-327 | with a tree each of its subtrees can be read back |
| Positions.Pad20Digits | src/db/db_impl.cc:415-416 | zero padding gives exactly twenty digits for every position below 2^64 |
| Positions.PadOrder | src/db/db_impl.cc:295-315 | padded keys order as the positions do, differ for different positions, and parse back to them |
| Keys.LessExactly | src/db/iterator_impl.cc:78-79 | keys are compared byte by byte |
| Positions.CommitBeforeUser | src/db/persistent_tree.h:10-11 | all keys of the catalog come before all user keys |
| Intentions.Serialize | src/db/intention.h:65-105 | succeeds exactly if there is an operation and copies are not mixed with others; an intention of copies becomes a flush intention and modifies no key |
| Intentions.ReplayFacts | src/db/db_impl.cc:343-371 | replaying operations on a tree keeps it a red-black search tree and does to its map what the operations say |
| Intentions.LastWriteDecides | src/db/db_impl.cc:343-372 | the last put or delete of a key decides: after a put the key has that put's own value, after a delete it is gone |
| Intentions.FlushRefreshes | src/db/db_impl.cc:343-372 | replaying a flush leaves the map alone and makes new nodes of the ways down to all keys it names that are there |
| Intentions.ReplayOutsideUser | src/db/db_impl.cc:343-371 | replaying user operations touches no key outside the user key space |
| Transactions.ReplayIntention | src/db/db_impl.cc:343-371 | in memory, replay computes the value-level result and never empties a tree that lists a commit |
| Transactions.Transaction.Get | src/db/transaction_impl.cc:31-39 | records the bare key; the client gets what it sees under the key, the snapshot through its own earlier writes, and sees the same afterwards |
| Transactions.Transaction.Put | src/db/transaction_impl.cc:41-44 | records the prefixed key; the client then sees the value under the key, and under all others what it saw before; the transaction's tree stays the replay of its recorded operations |
| Transactions.Transaction.Delete | src/db/transaction_impl.cc:46-55 | records the bare key; the client then sees nothing under the key, and under all others what it saw before, with the same invariant |
| Transactions.Transaction.Commit | src/db/transaction_impl.cc:57-67 | a transaction commits without an intention if and only if no key has been put and none deleted that was in the snapshot, and then it has changed nothing |
| Iterators.NextStack | src/db/iterator_impl.cc:156-172 | the stack of the next pair is the present one without its top and with the left spine to the right of it; a stack is the current node and those of its ancestors that come after it |
| Iterators.PreviousStack | src/db/iterator_impl.cc:174-190 | the mirror image |
| Iterators.LowerBoundFacts | src/db/iterator_impl.cc:68-95 | the position of a search splits the sorted pairs into smaller keys and the others |
| Iterators.RawIterator.SeekToFirst | src/db/iterator_impl.cc:32-48 | the cursor is on the first pair |
| Iterators.RawIterator.SeekToLast | src/db/iterator_impl.cc:50-66 | the cursor is on the last pair |
| Iterators.RawIterator.Seek | src/db/iterator_impl.cc:68-124 | the cursor is on the first pair at or past the key, and the assertion at the end holds |
| Iterators.RawIterator.SeekPrevious | src/db/iterator_impl.cc:126-154 | turning around leaves the cursor where it is |
| Iterators.RawIterator.Next | src/db/iterator_impl.cc:156-172 | from any direction, the cursor moves on by one, off the end from the last pair |
| Iterators.RawIterator.Prev | src/db/iterator_impl.cc:174-190 | from any direction, the cursor moves back by one |
| Iterators.RawIterator.CurrentValue | src/db/iterator_impl.cc:199-204 | the value of the pair that the cursor is on |
| Iterators.PrefixIterator.SeekToLast | src/db/iterator_impl.h:114-123 | always ends on the last pair of the whole tree, which is right if and only if no key lies beyond a prefix that is in use |
| Catalogs.LastOfCatalogued | src/db/iterator_impl.h:114-123 | in a committed tree that is right for user keys, and for the catalog if and only if there are no user keys |
| Serializability.CatalogLastFails | src/db/iterator_impl.h:114-123 | after one put in a new log the iterator over the catalog does not end on the last commit |
| Catalogs.CatalogFront | src/db/db_impl.cc:295-316 | the pairs of a committed tree begin with its commits, in the order of the log |
| Catalogs.ScanLists | src/db/db_impl.cc:295-316 | scanning the catalog lists the committed positions in ascending order and stops at the user keys |
| Catalogs.RangeParts | src/db/db_impl.cc:838-867 | what the index gives: from the snapshot on, the snapshot included, if it knows the snapshot, else everything it has |
| Catalogs.PushRecent | src/db/db_impl.cc:828-836 | whatever the limit, the index holds the most recent commits |
| Catalogs.PushNewest | src/db/db_impl.cc:828-836 | since the database opened the index has collected the newest commits, as many as there are or as the limit allows |
| Catalogs.ZoneParts | src/db/db_impl.cc:287-318 | how index and catalog split the conflict zone |
| Catalogs.ZoneCoverage | src/db/db_impl.cc:287-318 | for every state and index size a position is checked if and only if it committed after the snapshot, or is the snapshot and the index knows it |
| Catalogs.HalfOpenCoverage | src/db/db_impl.h:184-187 | with the range as documented a position is checked if and only if it committed after the snapshot |
| Histories.StepInv | src/db/db_impl.cc:373-481 | every step of the processor, by whatever rule it decides, keeps a red-black search tree that reads back from the after images, the exact catalog of commits, and the contents that replaying all commits in log order gives |
| Histories.RunInv | src/db/db_impl.cc:373-481 | so does every run |
| Histories.SerialCommits | src/db/db_impl.cc:392-398 | an intention that ran on the last state commits whatever it does, and so does a flush; who commits is the last of the commits then, and who aborts changes nothing |
| Histories.ClashesExactly | src/db/intention.h:127-144 | two transactions clash if and only if one has put or deleted a key, as recorded, that the other one reads or writes |
| Histories.RunNewest | src/db/db_impl.cc:828-836 | after any run from an empty index it holds exactly the newest of the commits of the run, the limit of them if there are that many |
| Histories.CommitVisible | src/db/db_impl.cc:343-372 | under every key of a client a commit makes visible its last write of the key, and leaves the others alone |
| Histories.SerialLastWrite | src/db/db_impl.cc:343-372 | in the map of a history the last write of a key in the last commit that writes it decides |
| Histories.RunDecides | src/db/db_impl.cc:373-481 | a run decides on every intention it comes along, in the state that those before it have made, and nothing else commits |
| Serializability.FirstInv | src/db/db.cc:28-56 | the first two entries of a new log make a state like that |
| Serializability.DecisionExact | src/db/db_impl.cc:287-334 | a concurrent transaction commits if and only if no commit since its snapshot, nor the snapshot if the index knows it, has put or deleted a key, as recorded, that it reads or writes |
| Serializability.DecisionInRun | src/db/db_impl.cc:287-334 | the same along a run, where the index knows the newest commits since the database opened, as many as the limit allows |
| Serializability.CoveredReadsCurrent | src/db/intention.h:127-144 | a committed transaction whose snapshot reads are also recorded in prefixed form has read what the state of all commits before it holds |
| Serializability.UncoveredStale | src/db/transaction_impl.cc:31-39 | for any operations with a read that is not so recorded there is a log on which the transaction commits with a stale read |
| Serializability.SerializableExactly | src/db/db_impl.cc:287-334 | all reads of all commits of a transaction are current, on every log, if and only if conflicts are looked for in one key space or each of its snapshot reads is covered by a recorded prefixed key |
| Serializability.OneSpaceReadsCurrent | src/db/intention.h:127-144 | if decisions compare the keys of the tree, as is evidently meant, the reads of every transaction that commits are current |
| Processors.Processor.ConflictZone | src/db/db_impl.cc:287-318 | index lookup and catalog scan with an iterator compute the zone; their assertions hold |
| Processors.Processor.ProcessConcurrentIntention | src/db/db_impl.cc:287-334 | aborts if and only if a commit since the snapshot, or the snapshot if the index knows it, has put or deleted a key, as recorded, that the transaction reads or writes |
| Processors.Processor.Process | src/db/db_impl.cc:387-440 | a serial intention and a flush always commit; the decision and the state that follows are the step of the history, and an abort changes nothing; the index holds the newest commits since the database opened |
| CommitTrees.BuildNext | src/db/db_impl.cc:418-466 | reuse equals replay: out of the client's tree or out of a replay, in memory, everyone sees the same next root, and it is that of the history; nothing but the client's own nodes and new ones is written |
| Databases.Database.Begin | src/db/db_impl.cc:249-261 | a transaction begins on the tree of the last commit, and disturbs nobody |
| Databases.Database.Operate | src/db/transaction_impl.cc:31-80 | whatever a client does through its transaction, all other transactions, the last commit and the trees waiting for their after images stay what they are; after a write it sees the value under the key, after a removal nothing, under all other keys what it saw before, and a query returns what it sees |
| Databases.Database.Commit | src/db/transaction_impl.cc:57-67 | a client commits in the middle of everything else: the intention for the log is what it has recorded, and there is none if and only if it has written nothing |
| Databases.Database.InsertFinished | src/db/db_impl.cc:804-810 | a transaction that has been appended to the log is handed over |
| Databases.Database.CleanFinished | src/db/db_impl.cc:812-826 | forgets exactly the transactions that have been processed |
| Databases.Database.Process | src/db/db_impl.cc:373-481 | among any number of running transactions: commits a serial intention and a flush always, a concurrent one as the history says; builds the next root in memory, out of the client's tree if it is serial and here, else by replay; the root in memory stands for the tree of the history, and everybody else is undisturbed; what a serial client saw is what everybody sees then; if the reads of a transaction that has been handed over and commits are covered, each Get has returned what it would return on the root of that moment |
| Databases.Database.LogGrows | src/db/entry_service.cc:474-489 | whatever is appended to the log, the database stays what it is |
| Databases.Database.Write | src/db/db_impl.cc:488-522 | the after image of a committed tree means what the history has stored for it |
| Databases.Database.Finalize | src/db/db_impl.cc:524-549 | in whatever order after images come back, in the middle of running transactions: pointers within the delta take on the form of the after image, and every tree that shares its nodes, and the root, stands for what it stood for |
| Finalizers.FinalizeAfterImage | src/db/db_impl.cc:524-549 | what the cache takes over from memory is what the log holds at that position, whoever has written it, up to the form of pointers; the assertion that nothing of it is cached yet holds if and only if no node of the after image is in the cache, and it always holds when after images are finalized in the order of their intentions and nodes of later intentions have not been fetched |
| Finalizers.CommitAndWrite | src/db/db_impl.cc:373-522 | processes an intention and, if it commits, appends an after image that means the commit; nothing of it is cached |
| Finalizers.CommitAndFinalize | src/db/db_impl.cc:373-549 | an intention can always go the whole way: it is processed, its after image, written out, means its commit and is appended to the log, pointers are renamed, and the cache takes the nodes over, whose assertion holds then |
| Finalizers.AppendImage | src/db/db_impl.cc:505-517 | an after image that is written out may be appended to the log: all after images mean what the commits have made |
| Finalizers.AppendRecord | src/db/entry_service.cc:519-537 | so may an intention: all after images mean what they meant |
| Finalizers.CommitWritten | src/db/db_impl.cc:454-470 | a further commit does not affect what the after images in the log mean |
| Restarts.FindRestorePoint | src/db/db_impl.cc:91-165 | finds the last intention with an after image, the earliest such image, and the last intention |
| Restarts.LogStoreEarliest | src/db/node.h:22-27 | of several after images of an intention only the first one counts |
| Restarts.RestoredState | src/db/db_impl.cc:30-34 | opening at a commit whose after images are in the log gives back its tree and snapshot, with an empty index |
| Restarts.DecisionsAgree | src/db/db_impl.cc:287-334 | two databases in the same state decide alike if and only if a later commit overlaps, or the snapshot does not overlap, or both or neither know the snapshot |
| Restarts.RunsAgree | src/db/db_impl.cc:373-481 | two databases that start in the same state end in the same state if and only if they agree on every decision in between |
| Restarts.RestartExactly | src/db/db_impl.cc:91-165 | restoring at a recorded commit and rolling forward with the same limit gives the tree, snapshot and commits that processing the whole log gives, if and only if no concurrent transaction that ran up to the restore point, on a snapshot that the running index knows, overlaps that snapshot alone |
| Restarts.RestartSame | src/db/db_impl.h:184-187 | with the range as documented, restoring at a recorded commit and rolling forward gives the tree, snapshot and commits that processing the whole log gives, whatever the index limits |
| Restarts.Open | src/db/db_impl.cc:91-165 | the restore point that the scan finds is a commit whose tree can be read, and the rest is as RestartExactly says |
| Openings.NewLog | src/db/db.cc:30-52 | the first three entries of a log; the after image means the first commit |
| Openings.OpenDatabase | src/db/db_impl.cc:15-45 | opens a database on the last commit that has an after image: the root is read out of the earliest one, linked in memory, and stands for the tree that a database has there that has been running since the log began; the index is empty |
| Openings.NewDatabase | src/db/db.cc:28-69 | a new log begins with a database whose root has been read back from the after image, in the first state of the history |
| Openings.RollForward | src/db/db.cc:59-69 | processing the rest of the log gives the run of the history, with the root in memory at every step |
| Openings.Reopen | src/db/db.cc:55-69 | a database that has been opened and has processed the log to its end has the state of one that has been running since the log began, with the root in memory, if no decision hangs on the index |
| Openings.FetchedFirst | src/db/node_cache.cc:329-365 | in the first commit of a new database: the assertion of the finalizer fails if the after image has been fetched before |
| Restarts.RestartDiffers | src/db/db_impl.cc:847-854 | a log that satisfies all that RestartExactly supposes, with a restart point at 4 whose commits can all be read back, on which whoever opens it commits a transaction that a database running since the log began aborts |
| Matchers.PrimaryAfterImageMatcher.Watch | src/db/entry_service.cc:339-364 | if an after image has been pushed the match with the first one is made now, else nothing is; the assertions hold |
| Matchers.PrimaryAfterImageMatcher.Push | src/db/entry_service.cc:366-388 | the first after image of a watched intention is matched now, no other one ever, and below the watermark nothing is lost |
| Matchers.PrimaryAfterImageMatcher.TakeMatch | src/db/entry_service.cc:390-408 | matches are taken in the order in which they were made |
| Matchers.PrimaryAfterImageMatcher.Gc | src/db/entry_service.cc:417-434 | the watermark rises over matched intentions only, and as far as it can: the lowest entry left has not been matched; indexed entries stay above it |
| Matchers.Raise | src/db/entry_service.cc:417-434 | forgetting the lowest entry, if it is matched, keeps the watermark right |
| Matchers.PairMore | src/db/entry_service.h:34-48 | each watched intention is matched once, with its first after image, over every interleaving |
| Rendezvous.TransactionFinder.AddTokenWaiter | src/db/db_impl.cc:689-709 | registers a waiter at the end of the list of its token, whoever else waits there and whatever results are left |
| Rendezvous.TransactionFinder.SetPosition | src/db/db_impl.cc:716-723 | the position may arrive before or after the decision |
| Rendezvous.TransactionFinder.Check | src/db/db_impl.cc:725-755 | returns if and only if a decision has been notified for the waiter's own position, and then that one, whatever has been notified for other positions and whoever waits under the same token; the entry goes if nothing is left there; the iterator to the entry is good unless another waiter in the same entry was the last to leave |
| Rendezvous.TransactionFinder.Notify | src/db/db_impl.cc:758-791 | by the fast path if the first waiter knows this position as its own, else by the slow one, any decision under the token is recorded; the assertion that somebody waits holds if and only if the token is unknown or some waiter there has not been told |
| Rendezvous.ToldTwice | src/db/db_impl.cc:758-791 | the assertion fails if a decision on another position under the token follows before the waiter that has been told leaves |
| Rendezvous.LeftBehind | src/db/db_impl.cc:748-752 | two waiters under one token are told, one leaves, and the other one has an iterator to an entry that is gone |
| LruCaches.LruCache.Insert | src/db/lru_cache.hpp:64-78 | a known key changes nothing; a new one is added in front, in place of the least recently used one if the map is full |
| LruCaches.LruCache.Get | src/db/lru_cache.hpp:80-110 | returns the value and moves the key to the front, the others in their order |
| LruCaches.LruCache.Clear | src/db/lru_cache.hpp:112-116 | nothing is left |
| NodeCaches.NodeCache.FindAfterImagePosition | src/db/node_cache.cc:81-110 | map or scan, the position is that of the primary after image |
| NodeCaches.NodeCache.Fetch | src/db/node_cache.cc:120-208 | on a hit, on a miss and with evictions and other threads in between, the node is the one that decoding the primary after image gives, up to the form in which it names its children |
| NodeCaches.NodeCache.CacheAfterImage | src/db/node_cache.cc:240-286 | the root is the last node; with no other thread in between, exactly the nodes of the after image have been added, else nodes of intentions below the bound only |
| NodeCaches.NodeCache.ApplyAfterImageDelta | src/db/node_cache.cc:329-365 | nodes built in memory are taken over under their positions in the after image; with no other thread in between the assertion holds if and only if none of them is cached, and other threads that cache nodes of earlier intentions only cannot make it fail |
| NodeCaches.LoadedPtr | src/db/node_cache.cc:288-327 | the address made of a serialized pointer leads to the node that the pointer means |
| NodeCaches.NodeCache.ReadTree | src/db/node_cache.cc:120-208 | fetching the node at an address and all below it, and linking them, gives in memory the tree that the commits have stored there; no node of a later intention is ever fetched |
| NodeCaches.NodeCache.ReadRoot | src/db/db_impl.cc:30-34 | opening on an after image links the tree of its commit in memory |
| NodeCaches.NodeCache.StaysValid | src/db/node_cache.cc:120-208 | nothing cached is affected when the log goes on |
| NodeCaches.NodeCache.Lookup | src/db/node_cache.cc:133-147 | a node that is found means what its after image says and is moved to the front of its shard, the others in their order |
| Logs.WrittenExactly | src/db/node_cache.cc:288-327 | after images mean what the commits made if and only if the log, read with every pointer by intention, holds the entries of the commits |
| Logs.AsLogMore | src/db/node_cache.cc:288-327 | what has been read of a log stays so when it goes on |
| NodeCaches.NodeCache.EvictFrom | src/db/node_cache.cc:63-75 | frees the target or empties the shard, least recently used nodes first and no node more than needed; lists, contents and the byte count stay right |
| NodeCaches.NodeCache.Vacuum | src/db/node_cache.cc:54-77 | if the cache is over its size every shard frees its share of the excess, or is empty then; otherwise nothing changes |
| Validation.ValidateExactly | src/db/db_impl.cc:167-197 | accepts exactly the balanced trees in which each node is in order with its own children |
| Validation.ValidatesAll | src/db/db_impl.cc:167-197 | accepts every tree that the operations produce |
| Validation.ValidateMisses | src/db/db_impl.cc:186-188 | a tree that passes need not be a search tree |

## Left out

- The log itself, retries, asynchronous I/O, holes and the scanning threads of the entry service: a log is a sequence of entries, and threads are interleavings of critical sections. The source reads intentions out of order; the order does not matter to a conflict.
- Protobuf encoding: messages are records. Node lifetime and weak pointers: a NodePtr is a reference with an optional address, and the sentinel is null. Nodes that the cache has loaded are values; a tree that is opened is linked in memory as a whole, where the source follows its pointers on demand.
- Histograms, statistics, reachable-node statistics, vendored utilities, bindings and tools: nothing in the properties depends on them.
- PersistentTrees.PersistentTree.InfectSelfPointers: a tree that has been emptied, where the source fails an assertion, is excluded; the processor always adds a catalog key first, and `Transactions.ReplayIntention` shows that no user operation empties such a tree. Larger deltas than 65536 nodes are excluded too; `Deltas.RoundTripExactly` says what becomes of them.
- Processors.Processor.Process: decides on tree values, which are those of the roots in memory by `Databases.Database.Process`; the catalog is scanned on the value. Deltas are assumed to have at most 65536 nodes, as those of small transactions have by `DeltaSizes.SmallFits`, and transactions to put user keys only.
- Histories.RunInv: supposes (`Admissible`) that a transaction began on a commit of this history. All processes that write to the log share a history only as long as they decide alike: after a restart that `RestartExactly` does not cover, a transaction may have begun on a commit that another process has aborted, and what that process does with it is not modelled.
- Restarts.Open: supposes that after images in the log are those of commits, as they were made, and that with the one of a commit those of all earlier commits are there.
- Restarts.FindRestorePoint: supposes an intention with an after image, without which the source exits.
- Rendezvous.TransactionFinder.Check: an iterator is the number of the entry that it leads to; what the source does with one that is no good is undefined, and the model leaves the entries alone.
- Matchers.PrimaryAfterImageMatcher.Push: every after image is taken to be pushed, in log order. Nothing is claimed about the size of the index, because an entry that is never watched blocks the collection.
- NodeCaches.NodeCache.ApplyAfterImageDelta: a node in the cache is a value, as nobody writes it any more.
- NodeCaches.NodeCache.Vacuum: access traces are never applied in the source, so that recency is that of the fetches. Shares are rounded down, so that the cache may stay above its size; a node object counts as one byte beside its key and value.
- LruCaches.LruCache.constructor: a capacity of zero is excluded; the source would evict from an empty list.
- Iterators.PrefixIterator.SeekToLast: the branch that steps back is dead, because the iterator is never valid past its prefix.
