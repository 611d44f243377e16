# A verified model of VertexDB

VertexDB is a relational database engine written in C++.  This project models its core in
Dafny and proves what the core is for: that committed transactions are serializable, that a
rollback undoes a transaction, that a crash loses nothing but the last unfinished unit, that the
planner and the executor return the rows of the WHERE clause, that the B+ tree is a sorted map,
that a recursive CTE is a least fixpoint, and that DELETE leaves no dangling reference.

Objects whose methods change fields (tree, transaction manager, version and row stores, buffer
pool, log, table, parser, DML engine) are classes; each method is proved against a function on
values, and the theorems are about those functions or about whole runs of the methods.  Planning
and printing, which only compute, are functions and lemmas.

Reading order, by module:

- `Values`, `BTreeShape`, `BTreeOrder`, `BTreeEdits`, `BTreePages`, `BTreeIndexing`,
  `BTreeRebalance`, `BTreeScan`, `BTree`: values and the page-based B+ tree.  The page map is
  related to a tree of pages, the tree to its tokens in key order, and those to a map.
- `Serializability`, `Transactions`, `PhantomCoverage`, `PhantomExactness`: histories of commits,
  the manager that produces them, the predicates a scan records against phantoms, and the exact
  condition for a commit.
- `RowStores`, `Versions`, `CommittedReads`, `UndoLogs`, `Snapshots`, `Tables`, `IndexReads`: rows,
  version chains, reads against the history of commits, undo, snapshot reads, a table with its
  indexes, and what its indexes promise to readers.
- `LikePatterns`, `Predicates`, `Plans`, `Planner`, `Repeats`, `Scans`: WHERE trees, access paths,
  planning and execution, with the number of times each row is returned.
- `JoinRows`, `JoinKinds`, `Joins`, `JoinChains`: four join algorithms against one definition, and
  that definition against the number of times each kind of join returns each row.
- `Graphs`, `Kosaraju`, `CteOrder`, `SetOps`, `Fixpoint`, `JoinArms`: recursive CTEs.
- `ByteStreams`, `PageCodec`, `RedoCodec`, `BufferPools`, `HeapPages`, `PageStores`,
  `WriteAheadLogs`, `Recovery`, `SlotReuse`: bytes, pages, the log and crash recovery.
- `Referential`, `Cascades`, `DeleteResults`, `DeleteFaults`, `ReferentialFaults`, `DmlEngines`: ON
  DELETE actions, what they leave and why they throw.
- `Histograms`, `CheckText`, `CheckParsers`: selectivity estimates and stored CHECK constraints.

Costs and estimates only choose between plans; they are left open, so the planning theorems hold
whatever the estimates are.  Clocks, threads and files do not appear: a concurrent run is a
sequence of steps, and a crash keeps any prefix of the bytes of the log.

## Model

| member | source | states |
|---|---|---|
| Values.LessOrder | src/common/value.cpp:136-158 | the order of values is a strict total order that agrees with equality |
| Values.LessTransitive | src/common/value.cpp:136-158 | the order is transitive for all triples, as binary search and leaf chaining need |
| Values.OrderIs | src/common/value.cpp:147-158 | what the order is: NULL first, then integers, doubles, texts and composite keys; numbers as numbers, texts and composite keys at the first place where they differ, a proper prefix before its extensions |
| Values.ComparisonIs | src/execution/predicate_eval.cpp:12-22 | each comparison operator in terms of that order |
| BTree.Replay | src/indexing/btree_index_mutate.cpp:33-351 | any sequence of inserts, removals and clears, for any node capacity of at least two, leaves a well-formed tree that stands for the map the sequence describes |
| BTree.BTreeIndex.constructor | src/indexing/btree_index_lookup.cpp:10-19 | a new tree is well formed and empty |
| BTree.BTreeIndex.Clear | src/indexing/btree_index_mutate.cpp:338-351 | from any state the tree is well formed and empty again |
| BTree.BTreeIndex.AllocatePage | src/indexing/btree_index_mutate.cpp:15-23 | a page id that no node uses, recycled when one is free; used and free ids stay a partition of the ids handed out |
| BTree.BTreeIndex.FreePage | src/indexing/btree_index_mutate.cpp:25-31 | the page leaves the map and its id joins the free ids, so none is lost or freed twice |
| BTree.BTreeIndex.PathToLeaf | src/indexing/btree_index_lookup.cpp:50-62 | the path ends at the only leaf whose bounds admit the key |
| BTree.BTreeIndex.Insert | src/indexing/btree_index_mutate.cpp:33-54 | the contents are the old map with the row id added to the key's list, through any chain of splits |
| BTree.BTreeIndex.InsertIntoLeaf | src/indexing/btree_index_mutate.cpp:38-54 | either appends to the posting list or adds the key in order, and overflows by at most one key |
| BTree.BTreeIndex.SplitLeaf | src/indexing/btree_index_mutate.cpp:56-78 | both halves are at least half full, linked, and hold the same entries in the same order |
| BTree.BTreeIndex.InsertSeparator | src/indexing/btree_index_mutate.cpp:80-103 | attaches the new sibling to the parent, or grows a new root, and restores the shape all the way up |
| BTree.BTreeIndex.SplitInternal | src/indexing/btree_index_mutate.cpp:105-126 | the middle separator moves up and no child or entry is lost |
| BTree.BTreeIndex.Remove | src/indexing/btree_index_mutate.cpp:128-164 | the contents are the old map without the row id, without the key when its list runs empty, and unchanged when it was absent |
| BTree.BTreeIndex.RemoveFromLeaf | src/indexing/btree_index_mutate.cpp:128-164 | removes the key from its leaf and hands an underfull leaf to rebalancing |
| BTree.BTreeIndex.UpdateSeparator | src/indexing/btree_index_mutate.cpp:166-173 | replaces one separator of the parent and nothing else |
| BTree.BTreeIndex.RebalanceAfterDelete | src/indexing/btree_index_mutate.cpp:175-241 | repairs underfull nodes from the leaf up to the root, entries unchanged |
| BTree.BTreeIndex.Repair | src/indexing/btree_index_mutate.cpp:175-241 | one level: borrow if a sibling can spare a key, merge otherwise, and tell whether the parent lost a child |
| BTree.BTreeIndex.TryBorrow | src/indexing/btree_index_mutate.cpp:175-241 | fails only when neither sibling has a key to spare, which makes the merge fit |
| BTree.BTreeIndex.BorrowFromLeftLeaf | src/indexing/btree_index_mutate.cpp:243-289 | one entry moves right between leaves and the separator follows it |
| BTree.BTreeIndex.BorrowFromRightLeaf | src/indexing/btree_index_mutate.cpp:243-289 | one entry moves left between leaves and the separator follows it |
| BTree.BTreeIndex.BorrowFromLeftInternal | src/indexing/btree_index_mutate.cpp:243-289 | one child moves right, rotating through the parent's separator |
| BTree.BTreeIndex.BorrowFromRightInternal | src/indexing/btree_index_mutate.cpp:243-289 | one child moves left, rotating through the parent's separator |
| BTree.BTreeIndex.MergeLeaves | src/indexing/btree_index_mutate.cpp:291-323 | two leaves become one that fits, the leaf chain closes over the gap, and the page is freed |
| BTree.BTreeIndex.MergeInternals | src/indexing/btree_index_mutate.cpp:291-323 | two inner nodes and their separator become one that fits, and the page is freed |
| BTree.BTreeIndex.CollapseRootIfNeeded | src/indexing/btree_index_mutate.cpp:325-336 | a root without keys gives way to its only child, and the tree is whole again |
| BTree.BTreeIndex.Find | src/indexing/btree_index_lookup.cpp:64-72 | the key's row ids in insertion order, and none for an absent key |
| BTree.BTreeIndex.LessThan | src/indexing/btree_index_lookup.cpp:74-88 | all row ids under smaller keys, in key order, by walking the leaf chain; a row is among them exactly if it is filed under a key that comes before the bound, kind by kind |
| BTree.BTreeIndex.GreaterThan | src/indexing/btree_index_lookup.cpp:90-108 | all row ids under larger keys, in key order, and exactly the rows filed under them |
| BTree.BTreeIndex.Size | src/indexing/btree_index_lookup.cpp:110-110 | the key counter equals the number of different keys |
| BTreeIndexing.LowerBound | src/indexing/btree_index_detail.hpp:14-26 | binary search returns the first position whose key is not smaller |
| BTreeIndexing.ChildIndex | src/indexing/btree_index_lookup.cpp:30-36 | the child whose key interval holds the key |
| BTreeOrder.RangeFiles | src/indexing/btree_index_lookup.cpp:74-108 | a range lookup returns a row exactly if it is filed under a key that comes before, or after, the bound in that order |
| Transactions.Run | src/transaction/transaction_manager.cpp:75-338 | for every interleaving of begins, reads, predicate reads, writes, inserts, commits, rollbacks and autocommitted statements, the committed history is isolated and no dependency runs backwards |
| Serializability.SerialEquivalence | src/transaction/transaction_manager.cpp:100-143 | after every prefix of an isolated history each row holds what running the transactions one at a time in commit order leaves in it |
| Serializability.ViewsAgree | src/transaction/transaction_manager.cpp:100-143 | each committed transaction read, in every row of its read set, what the serial run would have shown it |
| Serializability.NoDependencyCycle | src/transaction/transaction_manager.cpp:100-143 | no path of write-read, write-write, read-write and predicate dependencies returns to its start |
| Serializability.DependenciesPointForward | src/transaction/transaction_manager.cpp:100-143 | every dependency leads to a later commit |
| Serializability.NoLostUpdate | src/transaction/transaction_manager.cpp:118-125 | of two committed writers of a row the later one saw the earlier |
| Serializability.SnapshotReadsAreCurrent | src/transaction/transaction_manager.cpp:118-125 | the version at the snapshot is still the last one when the reader commits |
| Serializability.PredicateReadsAreCurrent | src/transaction/transaction_manager.cpp:126-133 | a predicate read saw every matching image that committed before the reader |
| Serializability.IsolatedAppend | src/transaction/transaction_manager.cpp:100-173 | a commit that passes the conflict test keeps the history isolated |
| Serializability.IsolatedExtend | src/transaction/transaction_manager.cpp:248-297 | late recording by an autocommitted statement keeps it isolated |
| Serializability.KeysAreInjective | src/transaction/transaction_manager.cpp:66-73 | different rows never share a conflict key, whatever bytes the relation names hold |
| Transactions.KeysMeet | src/transaction/transaction_manager.cpp:12-25 | two sets of conflict keys meet exactly when they name a row in common |
| Transactions.Intersects | src/transaction/transaction_manager.cpp:12-25 | walking the smaller set decides whether the sets meet |
| Transactions.InsertMatchesPredicate | src/transaction/transaction_manager.cpp:39-62 | a row image matches a recorded predicate exactly by relation, column, comparison or pattern; MatchesExactly says what that means of the row |
| Transactions.PredicateConflictsWithInserts | src/transaction/transaction_manager.cpp:85-98 | true exactly when some image matches some predicate |
| Transactions.RetainedFinds | src/transaction/transaction_manager.cpp:299-338 | after any pruning the retained sets still show every conflict that the full history has with a live snapshot |
| Transactions.TransactionManager.IsSerializable | src/transaction/transaction_manager.cpp:100-143 | looking only at retained sets, it accepts exactly the live transactions that conflict with no later commit in the full history |
| Transactions.TransactionManager.Commit | src/transaction/transaction_manager.cpp:145-173 | done, failed or inactive exactly by that test; a failure rolls back, and the whole manager invariant is kept |
| Transactions.TransactionManager.Begin | src/transaction/transaction_manager.cpp:75-83 | a fresh id with the current commit sequence as snapshot, invariant kept |
| Transactions.TransactionManager.Rollback | src/transaction/transaction_manager.cpp:175-186 | ends a live transaction without publishing its sets, refuses any other |
| Transactions.TransactionManager.BeginCommitted | src/transaction/transaction_manager.cpp:188-192 | an id that commits at once with an empty footprint |
| Transactions.TransactionManager.Autocommit | src/transaction/transaction_manager.cpp:188-192 | such a statement and its writes and images appear in the history as one commit |
| Transactions.TransactionManager.RecordRead | src/transaction/transaction_manager.cpp:236-246 | adds the row to the read set of an active transaction, and nothing for the system or an ended one |
| Transactions.TransactionManager.RecordWrite | src/transaction/transaction_manager.cpp:248-265 | adds the row to the active or, for a statement already committed, the committed write set |
| Transactions.TransactionManager.RecordPredicateRead | src/transaction/transaction_manager.cpp:267-276 | adds the predicate to the active transaction |
| Transactions.TransactionManager.RecordInsert | src/transaction/transaction_manager.cpp:283-297 | adds the image to the active or committed side |
| Transactions.TransactionManager.PruneCommittedConflictSets | src/transaction/transaction_manager.cpp:299-338 | drops exactly the sets that no live snapshot can clash with |
| Transactions.TransactionManager.LowestSnapshot | src/transaction/transaction_manager.cpp:299-338 | the smallest snapshot among the given live transactions and the floor |
| PhantomExactness.CommitsExactly | src/transaction/transaction_manager.cpp:100-173 | a live transaction commits if and only if no later commit wrote a row it read or wrote and no row image on either side makes a comparison or LIKE true that the other recorded |
| PhantomExactness.ConflictedExactly | src/transaction/transaction_manager.cpp:100-143 | the conflict test in terms of what the recorded predicates say of rows |
| PhantomExactness.MatchesExactly | src/transaction/transaction_manager.cpp:39-62 | a recorded predicate matches the image of a row if and only if it asks for membership or its comparison or LIKE is true of the row |
| Snapshots.SnapshotStability | src/transaction/mvcc_row_store.cpp:102-114 | while a reader keeps its snapshot, no sequence of steps by other transactions changes what it reads in any row |
| Snapshots.OneStep | src/transaction/transaction_manager.cpp:208-234 | each single step of another transaction keeps every read |
| Versions.SeesIsStable | src/transaction/transaction_manager.cpp:208-234 | begins and the ends of others do not change which creators a snapshot sees |
| Versions.PopUndoesWrite | src/transaction/mvcc_row_store.cpp:27-40 | popping gives the chain back if and only if it was empty or open; otherwise its last version is reopened |
| Versions.ClearUndoesErase | src/transaction/mvcc_row_store.cpp:42-49 | clearing an erase mark gives an open chain back, also when done twice |
| Versions.WriteUnseen | src/transaction/mvcc_row_store.cpp:8-15 | a write is invisible to a snapshot that does not see the writer |
| Versions.EraseUnseen | src/transaction/mvcc_row_store.cpp:17-25 | an erase of an open version is invisible to such a snapshot |
| Versions.PopUnseen | src/transaction/mvcc_row_store.cpp:27-40 | undoing one's own write is invisible to such a snapshot |
| Versions.ClearUnseen | src/transaction/mvcc_row_store.cpp:42-49 | undoing one's own erase is invisible to such a snapshot |
| Versions.MVCCRowStore.Write | src/transaction/mvcc_row_store.cpp:8-15 | closes the open version and adds the new one at the end of the chain |
| Versions.MVCCRowStore.Erase | src/transaction/mvcc_row_store.cpp:17-25 | marks the newest version deleted by the writer |
| Versions.MVCCRowStore.PopLatestVersion | src/transaction/mvcc_row_store.cpp:27-40 | drops the newest version and reopens the one before it |
| Versions.MVCCRowStore.ClearLatestDeletedBy | src/transaction/mvcc_row_store.cpp:42-49 | removes the newest version's deletion mark, and tells whether there was one |
| Versions.MVCCRowStore.Read | src/transaction/mvcc_row_store.cpp:102-114 | the newest version whose creator the snapshot sees and whose deleter it does not; ReadIsLastCommit says which commit wrote it |
| CommittedReads.ReadIsLastCommit | src/transaction/mvcc_row_store.cpp:102-114 | in every world that begins, writes, erases, commits, rollbacks and autocommitted statements reach, reading a row that the reader has not changed gives what the last commit within the snapshot that wrote it left there |
| CommittedReads.ReadIsOwnDraft | src/transaction/transaction_manager.cpp:208-234 | a transaction reads its own write; a row that it erased it reads as gone if and only if nobody has committed a change of it since the snapshot or the snapshot has no such row |
| CommittedReads.ReadIsSerial | src/transaction/transaction_manager.cpp:208-234 | a read within n commits gives what running the first n transactions one after another leaves in the row |
| CommittedReads.CommittedViewIsSerial | src/transaction/transaction_manager.cpp:100-143 | what the store returns for the reads of a committed transaction is what the serial run shows it |
| CommittedReads.OneAction | src/transaction/mvcc_row_store.cpp:8-49 | every action of any transaction keeps the link between chains, conflict sets and history |
| Versions.ReadsOwnWrite | src/transaction/transaction_manager.cpp:208-224 | right after a write the writer reads it, whatever the chain and the snapshot |
| Versions.ErasedRowIsRead | src/transaction/transaction_manager.cpp:208-234 | a concrete chain in which a transaction reads a row that it has erased |
| Versions.OverlappingEraseIsLost | src/transaction/mvcc_row_store.cpp:17-25 | a concrete chain in which two open writers of one row lose a committed erase |
| UndoLogs.ApplyKeeps | src/storage/table.cpp:201-276 | a statement that applies keeps the constraints and the link between heap and chains |
| UndoLogs.AppliesExactly | src/storage/table_constraints.cpp:13-30 | INSERT, UPDATE and DELETE are accepted exactly if width, types, NOT NULL, CHECK and unique keys admit the row, by kind of value |
| UndoLogs.StatementMeans | src/storage/table.cpp:201-276 | what an accepted statement does to each live row and, for UPDATE, to each cell |
| UndoLogs.UndoRestores | src/execution/recovery_service.cpp:72-86 | each compensating step succeeds and restores the state before its statement |
| UndoLogs.RollbackRestores | src/execution/recovery_service.cpp:29-145 | undoing any transaction last-in first-out never fails, and restores every live row under its id and every chain whose id no undone insert reused |
| UndoLogs.RollbackReads | src/execution/recovery_service.cpp:72-86 | every snapshot reads as at BEGIN if and only if no undone insert took the id of a row deleted before |
| UndoLogs.RestoredOk | src/execution/recovery_service.cpp:72-86 | what a rollback restores again meets all constraints |
| UndoLogs.ReusedIdResurrectsRow | src/storage/table_recovery.cpp:8-19 | a concrete rollback that brings a committed deletion back |
| RowStores.AppendKeeps | src/storage/vector_row_store.cpp:8-20 | the new row gets an id that was dead, no other row changes, free list and live count stay right |
| RowStores.EraseKeeps | src/storage/vector_row_store.cpp:22-30 | exactly one row goes, and its id becomes reusable |
| RowStores.UpdateKeeps | src/storage/vector_row_store.cpp:32-38 | exactly one row changes |
| RowStores.ReviveKeeps | src/storage/vector_row_store.cpp:40-52 | a dead id in range is live again and off the free list |
| RowStores.VectorRowStore.Append | src/storage/vector_row_store.cpp:8-20 | reuses the most recently freed id, or adds a slot |
| RowStores.VectorRowStore.Erase | src/storage/vector_row_store.cpp:22-30 | true exactly for a live row, which it removes |
| RowStores.VectorRowStore.Update | src/storage/vector_row_store.cpp:32-38 | true exactly for a live row, which it replaces |
| RowStores.VectorRowStore.Revive | src/storage/vector_row_store.cpp:40-52 | true exactly for a free id, which it takes off the free list wherever it stands there |
| RowStores.VectorRowStore.UpsertAt | src/storage/vector_row_store.cpp:54-67 | update, revive or append at the end, refused beyond it |
| RowStores.VectorRowStore.GetRow | src/storage/vector_row_store.cpp:69-74 | the live row under the id, if any |
| Tables.BeginRunRollback | src/execution/recovery_service.cpp:29-145 | BEGIN, any statements and ROLLBACK on a table leave it valid, with the same live rows and the same postings in every index, and the same reads exactly under the condition of RollbackReads |
| Tables.SamePostings | src/indexing/index_manager.cpp:297-307 | two indexes that agree with the same live rows list every row equally often under every key |
| Tables.KeyDecides | src/storage/table_constraints.cpp:155-184 | for keys without NULL, equal index keys and equal columns are the same, so probe and scan find the same violations |
| Tables.Table.AddRowToIndexes | src/indexing/index_manager.cpp:265-295 | every index lists the new row under each of its keys, as often as it carries it |
| Tables.Table.RebuildIndexes | src/indexing/index_manager.cpp:297-307 | every index agrees with the live rows again |
| Tables.Table.EnforceUnique | src/storage/table_constraints.cpp:155-184 | accepts exactly the rows that collide with no other live row on any unique constraint, NULLs never colliding, by index or by scan alike |
| Tables.Table.Insert | src/storage/table.cpp:201-220 | inserts under the next id exactly when all constraints hold, with heap, versions and indexes in step |
| Tables.Table.Erase | src/storage/table.cpp:222-237 | removes exactly a live row, with heap, versions and indexes in step |
| Tables.Table.Update | src/storage/table.cpp:239-276 | changes one cell exactly when row and column exist and the constraints hold |
| Tables.Table.EraseDiscardingVersion | src/storage/table_recovery.cpp:8-19 | undoes an insert in heap, versions and indexes |
| Tables.Table.ReplaceRow | src/storage/table_recovery.cpp:21-34 | undoes an update in heap, versions and indexes |
| Tables.Table.Revive | src/storage/table_recovery.cpp:36-46 | undoes a delete in heap, versions and indexes |
| IndexReads.TableIsFaithful | src/indexing/index_manager.cpp:88-138 | a table in order answers the scan executor's equality, composite and range lookups with exactly the visible rows that carry the key, as often as they do, for a reader who sees the live rows |
| IndexReads.TableIsJoinable | src/indexing/index_manager.cpp:88-105 | the same table answers the join executor's lookups with each matching row once |
| Planner.PlanSelect | src/planner/query_planner_select.cpp:12-69 | whatever the cost estimates choose, the plan of a well-read query selects exactly the rows of its WHERE clause; a mixed union adds, and an intersection of two partial ORs loses, exactly the stated rows |
| Scans.Select | src/execution/select_engine_scan.cpp:16-150 | planning and executing returns the rows that filtering every visible row would, each once when there is no source of repeats |
| Scans.CollectVisibleEntries | src/execution/select_engine_scan.cpp:16-150 | each visible row comes back as often as its plan says, and no other row does |
| Planner.PlanConjuncts | src/planner/query_planner_select.cpp:37-69 | composite, intersection or best single path, each with the rows it selects |
| Planner.PlanTopLevelOr | src/planner/query_planner_or_union.cpp:12-89 | the union of probes and the complementary scan together are the OR |
| Planner.SortConjuncts | src/planner/query_planner_and_intersect.cpp:12-47 | probes, absorbed ORs and residual conjuncts together mean the index side of the conjunction |
| Planner.PlanAndIntersect | src/planner/query_planner_and_intersect.cpp:12-176 | the plan selects exactly the rows of both index sides or both scan sides |
| Planner.IntersectMeans | src/planner/query_planner_and_intersect.cpp:12-176 | such a plan never returns a wrong row, and loses none when at most one conjunct is a partial OR |
| Planner.LostExactly | src/planner/query_planner_and_intersect.cpp:143-171 | a row is lost if and only if it meets one partial OR only by its indexed arms and another only by the others |
| Planner.PlanCompositeEq | src/planner/query_planner_composite_eq.cpp:13-137 | the absorbed equalities and the residual are the conjunction |
| Planner.ChooseBestConjunct | src/planner/query_planner_access.cpp:59-115 | whatever the costs, the chosen conjunct is one its path can serve |
| Planner.PathMeans | src/planner/query_planner_access.cpp:117-203 | an access path finds at least the rows of its conjunct, and exactly those unless it is a prefix or trigram path |
| Planner.FinalizeBest | src/planner/query_planner_access.cpp:117-203 | with its residual the path selects the conjunction, except that a union with a residual selects either side |
| Planner.MixedUnionAddsRows | src/planner/query_planner_access.cpp:168-203 | a concrete query and plan that return a row outside the WHERE clause |
| Planner.TwoPartialOrsLoseRows | src/planner/query_planner_and_intersect.cpp:143-171 | a concrete query that loses one of its rows |
| Planner.TrigramEqualityAddsRows | src/planner/query_planner_predicate.cpp:197-218 | a concrete comparison of a trigram expression that returns a wrong row |
| Planner.TrigramEqualityExactly | src/planner/query_planner_predicate.cpp:197-218 | the trigram index answers an equality as written if and only if the literal is a text of one or two characters |
| Plans.ProbeMeans | src/planner/query_planner_predicate.cpp:197-218 | a probe holds exactly of the rows of its equality |
| Plans.SplitMeans | src/planner/query_planner_predicate.cpp:259-286 | indexed and other arms together are the disjunction |
| Plans.SplitOr | src/planner/query_planner_predicate.cpp:259-286 | splits an OR exactly when some arm is an equality probe |
| Predicates.ConjunctsMean | src/planner/query_planner_predicate.cpp:16-23 | the collected conjuncts all hold exactly when the tree does |
| Predicates.DisjunctsMean | src/planner/query_planner_predicate.cpp:25-32 | some collected disjunct holds exactly when the tree does |
| Predicates.BuildAndTree | src/planner/query_planner_predicate.cpp:34-43 | the rebuilt tree means the conjunction of the list |
| Predicates.BuildOrTree | src/planner/query_planner_predicate.cpp:45-54 | the rebuilt tree means the disjunction of the list |
| Predicates.FoldedMeans | src/planner/query_planner_predicate.cpp:161-195 | rewriting a same-column equality OR to IN keeps its meaning |
| Predicates.RewriteEqualityOrToIn | src/planner/query_planner_predicate.cpp:161-195 | rewrites exactly the ORs of equalities on one operand |
| Predicates.ComparisonSelects | src/execution/predicate_eval.cpp:12-86 | which rows a comparison with a literal selects, by what the order of values is |
| Repeats.SelectedAtLeastOnce | src/execution/select_engine_scan.cpp:16-150 | a row comes back at least once exactly when the plan selects it |
| Repeats.ReturnedOnce | src/execution/select_engine_scan.cpp:16-150 | on a repeat-free path it comes back at most once |
| Repeats.PlansAreRepeatFree | src/planner/query_planner_select.cpp:12-69 | without trigram indexes and without repeated IN values every plan is repeat-free |
| Repeats.RepeatedValueRepeatsRows | src/planner/query_planner_predicate.cpp:161-195 | a concrete OR of equal arms that returns its rows twice |
| Repeats.RepeatedGramRepeatsRows | src/execution/select_engine_bitmap.cpp:61-74 | a concrete LIKE that returns a row twice |
| Scans.EvalPredicate | src/execution/predicate_eval.cpp:12-86 | evaluates a WHERE tree on a row as its meaning says |
| Scans.SortIds | src/execution/select_engine_bitmap.cpp:61-71 | ascending, with every id as often as before |
| Scans.IntersectSorted | src/execution/select_engine_bitmap.cpp:34-38 | ascending, each id as often as in the list that has it less |
| Scans.UniteSorted | src/execution/select_engine_bitmap.cpp:51-55 | ascending, each id as often as in the list that has it more |
| Scans.EvalNode | src/execution/select_engine_bitmap.cpp:61-74 | a bitmap tree of any depth finds each visible row as often as its counting semantics says |
| Scans.EvalIntersection | src/execution/select_engine_bitmap.cpp:16-41 | children combine by intersection, with the early exit on an empty list |
| Scans.EvalUnion | src/execution/select_engine_bitmap.cpp:42-59 | children combine by union |
| Scans.EntriesById | src/execution/select_engine.cpp:383-386 | every visible id once per occurrence, invisible ones skipped |
| Scans.ApplyResidual | src/execution/select_engine_scan.cpp:24-39 | keeps exactly the entries that pass the residual, with their repetitions |
| Scans.AddScanned | src/execution/select_engine_scan.cpp:97-142 | adds, once each, the visible rows that pass and are not there yet |
| Scans.LookUp | src/execution/select_engine_scan.cpp:44-84 | each index path finds the rows it stands for, with repetitions |
| LikePatterns.MatchLike | src/common/string_pattern.cpp:9-33 | the recursive matcher accepts exactly the texts that the pattern describes |
| LikePatterns.PrefixFilter | src/common/string_pattern.cpp:55-64 | a prefix pattern matches exactly the texts with that prefix, all of them at or above it in value order |
| LikePatterns.ContainsFilter | src/common/string_pattern.cpp:66-75 | a contains pattern matches exactly the texts that contain the needle |
| LikePatterns.ExtractTrigrams | src/common/string_pattern.cpp:77-92 | all windows of three characters, or the text itself when shorter |
| LikePatterns.TrigramFilter | src/planner/query_planner_predicate.cpp:328-373 | every trigram of a long enough needle is a trigram of every matching text |
| LikePatterns.ShortNeedleLosesRows | src/planner/query_planner_predicate.cpp:328-373 | below three characters the filter would lose rows |
| PhantomCoverage.EveryPlanCatches | src/execution/select_engine_ssi.cpp:106-170 | for every plan the planner can emit, each row image that satisfies the WHERE clause matches a predicate recorded for the scan |
| PhantomCoverage.TreeCatches | src/execution/select_engine_ssi.cpp:15-80 | so does what is recorded for a predicate tree |
| PhantomCoverage.PhantomForcesFailure | src/transaction/transaction_manager.cpp:126-133 | a commit after the reader's snapshot that puts a row into its scan makes the reader's commit fail |
| PhantomCoverage.LateWriterFails | src/transaction/transaction_manager.cpp:134-141 | a writer who puts a row into the scan of a transaction that committed after the writer's snapshot fails |
| PhantomExactness.ScanMatchesExactly | src/execution/select_engine_ssi.cpp:106-170 | a scan recorded by columns conflicts with an image if and only if some comparison of its path, residual or complement is true of the row |
| PhantomExactness.TreeMatchesExactly | src/execution/select_engine_ssi.cpp:15-80 | so does a WHERE tree, leaf by leaf |
| JoinChains.CollectJoinRows | src/execution/select_engine_join.cpp:14-195 | whatever algorithms are planned, a chain of joins returns each row exactly as often as the kinds of its joins say, step by step, and nothing exactly when a column cannot be resolved |
| JoinChains.JoinStep | src/execution/select_engine_join.cpp:14-195 | one step of any kind by any planned branch returns the same multiset, with the stated count of every row |
| JoinChains.PlanJoin | src/planner/query_planner_join.cpp:42-136 | whatever the costs, the plan is one whose index and sides the join kind allows |
| JoinChains.PlanJoinAgainstRows | src/planner/query_planner_join.cpp:138-200 | against intermediate rows only plans without a left table are chosen |
| JoinChains.ResolveResultColumn | src/execution/select_helpers.cpp:37-59 | an exact name, a unique suffix, or the right one of its two errors |
| JoinChains.ResolveExactly | src/execution/select_helpers.cpp:37-59 | a name is found at its first exact occurrence, otherwise at the only column it qualifies, and is unknown exactly if there is none |
| JoinChains.ChainWide | src/execution/select_engine_join.cpp:14-195 | every row of a chain, padded or not, has a cell for every column |
| Joins.NestedLoop | src/execution/select_engine_join.cpp:146-172 | inner, left, right and full rows with NULL padding on either side |
| Joins.ProbeRight | src/execution/select_engine_join.cpp:92-107 | probing an index of the right table gives the nested-loop rows |
| Joins.ProbeLeft | src/execution/select_engine_join.cpp:108-126 | probing an index of the left table gives the nested-loop rows |
| Joins.HashJoin | src/execution/select_engine_join.cpp:127-145 | hashing the right rows gives the nested-loop rows |
| Joins.BuildBuckets | src/execution/select_engine_join.cpp:127-145 | each bucket holds exactly the right rows with its key, in order |
| Joins.ProbeIsScan | src/execution/select_engine_join.cpp:92-126 | what is joined from a probe is what is joined from a scan |
| JoinRows.FromTheRight | src/execution/select_engine_join.cpp:108-126 | pairing row by row from the right gives the same multiset as from the left |
| JoinRows.JoinedPermuted | src/execution/select_engine_join.cpp:14-195 | a join depends on its left rows only up to their order |
| JoinRows.JoinedWide | src/execution/select_engine_join.cpp:146-172 | a join widens every row by the right table |
| JoinKinds.JoinedCounts | src/execution/select_engine_join.cpp:69-172 | how often each row stands in the result, kind by kind: pairs that meet the condition as often as their rows occur together, and for outer joins each row without a partner as often as it occurs, beside NULLs |
| JoinKinds.SidesExchange | src/execution/select_engine_join.cpp:69-172 | FULL, INNER and CROSS joins are symmetric and LEFT and RIGHT mirror each other, columns exchanged |
| CteOrder.MaterializationOrder | src/parser/recursive_cte.cpp:186-251 | every recursive CTE once, after every component it refers to, and each component in one piece |
| CteOrder.HasDependencyCycle | src/parser/recursive_cte.cpp:284-318 | the check never reports a cycle, for any CTE list |
| CteOrder.CycleCheck.Visit | src/parser/recursive_cte.cpp:284-318 | the search finds no cycle among components and leaves its stack as it was |
| CteOrder.CountRefs | src/parser/recursive_cte.cpp:17-33 | the exact number of references to a name in a query with joins and set arms |
| Words.SameWordMeans | include/VertexDB/common/string_utils.hpp:10-22 | names are the same exactly if they differ in the case of letters only |
| CteOrder.BuildRefGraph | src/parser/recursive_cte.cpp:46-66 | an edge exactly where one recursive arm refers to another CTE |
| CteOrder.RecursiveCtes | src/parser/recursive_cte.cpp:125-133 | all recursive CTEs, in order |
| CteOrder.Condense | src/parser/recursive_cte.cpp:199-206 | an edge between components exactly where some members have one |
| CteOrder.TopologicalOrder | src/parser/recursive_cte.cpp:208-242 | Kahn's algorithm visits every component once, dependencies first |
| Kosaraju.Components.StronglyConnected | src/parser/recursive_cte.cpp:69-113 | two nodes get one label if and only if each reaches the other; labels are dense and never fall along an edge |
| Kosaraju.Components.FirstPass | src/parser/recursive_cte.cpp:78-94 | the finishing order of all nodes, with the depth-first property |
| Kosaraju.Components.Dfs1 | src/parser/recursive_cte.cpp:81-89 | extends the finishing order by everything newly reachable |
| Kosaraju.Components.ReverseEdges | src/parser/recursive_cte.cpp:72-77 | exactly the edges turned round |
| Kosaraju.Components.Dfs2 | src/parser/recursive_cte.cpp:98-106 | labels exactly the unlabelled nodes that reach the start |
| Kosaraju.FindsComponent | src/parser/recursive_cte.cpp:107-111 | searching backwards from the latest unlabelled node finds exactly its component |
| Fixpoint.MaterializeGroup | src/execution/subquery_runtime_cte.cpp:82-196 | a UNION group that ends within its limits is the simultaneous least fixpoint of anchors and arms, without repeated rows; it fails only if every closed table set has more rows than the limit it names |
| Fixpoint.ProgressStep | src/execution/subquery_runtime_cte.cpp:127-178 | one round over deltas keeps what is derivable so far |
| Fixpoint.ProgressEnds | src/execution/subquery_runtime_cte.cpp:115-125 | with no delta left the result is the least fixpoint |
| JoinArms.JoinArmsAreLinear | src/parser/recursive_cte.cpp:274-282 | arms that read one recursive table once through inner or cross joins distribute over unions, as the iteration over deltas needs |
| JoinArms.ArmLinear | src/execution/select_engine_join.cpp:14-195 | so does a single arm, wherever the recursive table stands in the chain |
| SetOps.ApplySetOperation | src/execution/set_ops.cpp:89-164 | all six operations: set or multiset union, intersection and difference |
| SetOps.DeduplicateRows | src/execution/set_ops.cpp:77-87 | every row once |
| SetOps.MatchCounts | src/execution/set_ops.cpp:119-159 | matched rows are the multiset intersection, the others the difference |
| PageStores.RunBoth | src/storage/page_row_store.cpp:15-134 | any operations on a page store, for any page size and cache capacity, return what they return on the vector store |
| PageStores.PageRowStore.Append | src/storage/page_row_store.cpp:15-38 | the row reads back under the id the vector store would give, and its page is dirty |
| PageStores.PageRowStore.Erase | src/storage/page_row_store.cpp:40-55 | as on the vector store, page dirty |
| PageStores.PageRowStore.Update | src/storage/page_row_store.cpp:57-69 | as on the vector store, page dirty |
| PageStores.PageRowStore.Revive | src/storage/page_row_store.cpp:71-91 | as on the vector store, page dirty |
| PageStores.PageRowStore.UpsertAt | src/storage/page_row_store.cpp:93-110 | as on the vector store |
| PageStores.PageRowStore.GetRow | src/storage/page_row_store.cpp:112-134 | the row, whatever has been evicted or decoded before |
| PageStores.PageRowStore.StorePage | src/storage/page_row_store_buffer.cpp:19-25 | directory and cache get the new bytes, stale decoded rows go, the page is dirty |
| PageStores.PageRowStore.TakeDirtyPages | src/storage/page_row_store_buffer.cpp:33-46 | exactly the dirty pages with their current bytes, marks cleared |
| PageStores.PageRowStore.EnsureBuffered | src/storage/page_row_store_buffer.cpp:48-57 | a stored page is cached afterwards |
| PageStores.PageRowStore.InvalidateDecoded | src/storage/page_row_store_buffer.cpp:59-65 | drops exactly the decoded rows of the page |
| PageStores.PageRowStore.LoadPageRows | src/storage/page_row_store_io.cpp:103-109 | the rows of the page, none for a page not there |
| PageStores.PageRowStore.ReplaceRows | src/storage/page_row_store_io.cpp:149-158 | exactly the given rows, all live |
| BufferPools.BufferPool.Put | src/storage/buffer_pool.cpp:13-23 | the page is cached and most recent, others keep their bytes or go, least recent first |
| BufferPools.BufferPool.Get | src/storage/buffer_pool.cpp:25-32 | the cached bytes, made most recent |
| BufferPools.BufferPool.EvictIfNeeded | src/storage/buffer_pool.cpp:42-48 | never more pages than the capacity |
| PageCodec.PageRoundTrip | src/storage/page_row_store_io.cpp:13-101 | decoding gives the rows back, and every page cut short is rejected |
| PageCodec.SerializePage | src/storage/page_row_store_io.cpp:91-101 | writes that encoding |
| PageCodec.ReadPage | src/storage/page_row_store_io.cpp:73-89 | reads it, rejecting truncated pages and unknown tags |
| RedoCodec.BatchRoundTrip | src/persistence/page_image_redo.cpp:304-336 | a batch comes back as written; every strict prefix and every extension is rejected |
| RedoCodec.RecordReads | src/persistence/page_image_redo.cpp:219-302 | a record with heap pages, trees and hash images comes back, and truncations do not |
| RedoCodec.TreeReads | src/persistence/page_image_redo.cpp:155-187 | a tree image comes back |
| RedoCodec.NodeReads | src/persistence/page_image_redo.cpp:94-153 | a leaf or inner node comes back |
| RedoCodec.HashReads | src/persistence/page_image_redo.cpp:189-217 | a hash image comes back |
| RedoCodec.CellReads | src/persistence/page_image_redo.cpp:31-92 | a value comes back, through nested composites |
| ByteStreams.LeastFirst | src/persistence/page_image_redo.cpp:17-24 | the bytes of a fixed field, the least significant first |
| WriteAheadLogs.TornTail | src/persistence/write_ahead_log.cpp:62-100 | whatever number of bytes survives, reading returns exactly the records that are whole |
| WriteAheadLogs.WholeBounds | src/persistence/write_ahead_log.cpp:62-100 | that many records fit and one more does not |
| WriteAheadLogs.RecordReads | src/persistence/write_ahead_log.cpp:34-100 | a record comes back, and a cut one is not taken for a record |
| WriteAheadLogs.WriteAheadLog.ReadRecords | src/persistence/write_ahead_log.cpp:62-100 | the loop reads exactly those records |
| WriteAheadLogs.WriteAheadLog.NextLsn | src/persistence/write_ahead_log.cpp:121-132 | larger than every number in the file, also right after reopening |
| WriteAheadLogs.WriteAheadLog.Append | src/persistence/write_ahead_log.cpp:34-60 | one record more at the end, numbers still climbing |
| WriteAheadLogs.WriteAheadLog.Reset | src/persistence/write_ahead_log.cpp:102-119 | an empty log that counts from one |
| Recovery.CrashSafety | src/execution/recovery_service.cpp:185-303 | for any run of autocommitted statements, commits and rollbacks and a log cut at any byte, recovery succeeds with exactly the live rows after the last durable unit that is whole in the log |
| Recovery.RecoverPrefix | src/execution/recovery_service.cpp:185-240 | recovering the first k records gives the live rows after the k-th durable unit |
| Recovery.RollbackRestores | src/execution/recovery_service.cpp:72-86 | rolling back any transaction over several tables never fails and keeps every live row under its id |
| Recovery.RollbackTracks | src/execution/recovery_service.cpp:305-305 | a rolled-back transaction needs no log record |
| Recovery.ReplayOps | src/execution/recovery_service.cpp:269-303 | replaying the batch of a transaction brings the replica to its end state |
| Recovery.ReplayOp | src/storage/table_snapshot_io.cpp:41-75 | replaying what one statement captured brings the replica to the state after it |
| Recovery.LogOp | src/storage/table_snapshot_io.cpp:172-193 | logging the one changed page keeps the logged pages in step with the heap |
| Recovery.RowOpMeans | src/storage/page_row_store.cpp:15-69 | what the logged operations do to the live rows |
| Recovery.ExactRecovery | src/storage/page_row_store_io.cpp:213-232 | pages, capacity and free list determine the live rows |
| Recovery.RecoverFromWal | src/execution/recovery_service.cpp:185-240 | the replay loop, giving up on a record that cannot be applied |
| SlotReuse.ReuseAfterRecovery | src/storage/page_row_store.cpp:15-38 | for any run and any number of durable units, the next insert after recovery throws if and only if it takes a freed id whose page none of those units logged while the table reached that id |
| SlotReuse.RolledBackPageIsMissing | src/storage/page_row_store.cpp:15-38 | a concrete run after which it does |
| SlotReuse.LoggedInRun | src/execution/recovery_service.cpp:253-303 | an id has a logged place exactly if some captured operation touched its page late enough |
| SlotReuse.AppendRecovered | src/storage/page_row_store.cpp:15-38 | append on rebuilt slots: throws exactly then, otherwise adds the row under the expected id and keeps slots and pages in step |
| SlotReuse.RebuildSlots | src/storage/page_row_store_io.cpp:191-211 | each slot from its page, in whatever order the pages come |
| SlotReuse.SlotGivesRow | src/storage/page_row_store_io.cpp:191-211 | reading through a rebuilt slot gives the recovered row |
| DeleteResults.DeleteLeavesNoDanglingKey | src/execution/dml_engine.cpp:120-275 | a DELETE that returns normally leaves no dangling key whose referenced columns no SET NULL writes, through cycles and self-references |
| DeleteResults.DeleteIsExactly | src/execution/dml_engine.cpp:120-275 | it takes exactly the rows that CASCADE reaches and exactly the cells that SET NULL owes them, independent of order |
| DeleteResults.KeyHoldsExactly | src/execution/dml_engine.cpp:147-184 | a foreign key holds afterwards if and only if no surviving reference loses its parent or the parent's key cells |
| DeleteResults.DanglesExactly | src/execution/dml_engine.cpp:120-203 | whatever the outcome, a key dangles if and only if a row with an open frame refers by CASCADE to a deleted one |
| DeleteResults.ThrownDeleteIsConsistent | src/execution/dml_engine.cpp:120-203 | without a CASCADE cycle below the targets even a DELETE that throws leaves no dangling key |
| DeleteResults.DepthFaultNeedsRows | src/execution/dml_engine.cpp:120-134 | the depth limit rejects only if CASCADE reaches that many different rows |
| DeleteFaults.FaultsAreReasoned | src/execution/dml_engine.cpp:120-275 | every exception has its reason in the rows found: a NO ACTION key into the rows that CASCADE reaches, a nulled child that CHECK or one of its foreign keys refuses, or as many rows reached as the depth limit |
| DeleteFaults.DeleteReturns | src/execution/dml_engine.cpp:120-275 | without such a reason the DELETE returns normally |
| DeleteFaults.ChildAccepted | src/execution/dml_engine.cpp:147-184 | SET NULL on a child passes all checks when CHECK holds of it however far nulled and its other references keep their parents |
| DeleteFaults.NoActionProtects | src/execution/foreign_key_eval.cpp:261-280 | a row that stays and refers by NO ACTION to a row that CASCADE reaches makes the DELETE throw |
| DeleteResults.DoomedLeast | src/execution/dml_engine.cpp:140-146 | the rows CASCADE reaches are the least closed set with the targets |
| DeleteResults.UniqueParents | src/execution/foreign_key_eval.cpp:174-178 | unique constraints make every foreign key's parent unique |
| Cascades.EraseKeeps | src/execution/dml_engine.cpp:120-203 | one recursive frame keeps the invariant over rows, open frames and deleted rows, whether or not it throws |
| Cascades.DeleteKeeps | src/execution/dml_engine.cpp:254-275 | so does the statement |
| Referential.CollectIs | src/execution/foreign_key_eval.cpp:218-259 | the hits are exactly the referring rows, one for each key |
| DmlEngines.DmlEngine.ExecuteDelete | src/execution/dml_engine.cpp:254-275 | the method computes that function, with the guarantees above, and each exception has its reason |
| DmlEngines.DmlEngine.EraseRowWithReferentialActions | src/execution/dml_engine.cpp:120-203 | the recursive method with its two sets computes the functional frame, faults included |
| DmlEngines.DmlEngine.CollectReferencingChildren | src/execution/foreign_key_eval.cpp:218-259 | the nested loops compute the hits in order |
| DmlEngines.DmlEngine.SetChildrenNull | src/execution/dml_engine.cpp:147-184 | the SET NULL loop, stopping at the first constraint that refuses |
| ReferentialFaults.NulledKeyDangles | src/execution/dml_engine.cpp:147-184 | a concrete DELETE that returns normally and leaves a key dangling |
| ReferentialFaults.ThrownDeleteDangles | src/execution/dml_engine.cpp:120-203 | a concrete DELETE that throws and leaves a key dangling |
| ReferentialFaults.StaleImageIsRejected | src/execution/dml_engine.cpp:147-171 | a concrete DELETE in a transaction that throws although every reference could be nulled |
| Histograms.HistogramRangeSelectivity | src/storage/histogram.cpp:132-147 | a fraction between zero and one; for a range the rows it stands for are off by less than one largest bucket |
| Histograms.EstimateRows | src/storage/histogram.cpp:132-147 | the sum over buckets is within one bucket of the true count |
| Histograms.BucketEstimate | src/storage/histogram.cpp:39-102 | exact outside the straddling bucket, within its size inside |
| Histograms.OneStraddles | src/storage/histogram.cpp:39-102 | at most one bucket straddles a bound |
| Histograms.BuildEquiHeightHistogram | src/storage/histogram.cpp:105-130 | consecutive slices of the sorted values with right bounds, counts and distinct counts |
| Histograms.BucketsPartition | src/storage/histogram.cpp:105-130 | bucket counts add up to the rows, and none exceeds the ceiling |
| Histograms.DistinctInRange | src/storage/histogram.cpp:20-32 | the number of different values of a sorted slice |
| CheckParsers.ReadsBackExactly | src/storage/check_eval.cpp:170-201 | a simple CHECK without decimal literals reads back as itself from its stored text if and only if it is printable |
| CheckParsers.AcceptedChecksSurvive | src/parser/parser_ddl.cpp:67-80 | every CHECK that the parser accepts is, and so survives storing |
| CheckParsers.PrintedReadsBack | src/storage/check_eval.cpp:33-62 | printing and parsing gives the tree back |
| CheckParsers.PrimaryReads | src/parser/parser_predicate.cpp:38-69 | at any position the parser takes exactly the tokens of the printed predicate |
| CheckParsers.AttemptFails | src/parser/parser_predicate.cpp:42-63 | the speculative branch for a parenthesised expression rejects printed text and backtracks |
| CheckParsers.ParseCheckConstraintExpression | src/parser/parser_ddl.cpp:67-80 | tokenizer, parser and shape test in sequence |
| CheckParsers.Parser.ReadOr | src/parser/parser_predicate.cpp:16-26 | the cursor method computes the grammar function, failures included |
| CheckParsers.Parser.ReadAnd | src/parser/parser_predicate.cpp:28-36 | likewise for conjunctions |
| CheckParsers.Parser.ReadPrimary | src/parser/parser_predicate.cpp:38-69 | likewise with backtracking |
| CheckParsers.Parser.ReadComparison | src/parser/parser_predicate.cpp:124-190 | likewise for comparisons |
| CheckParsers.Parser.ReadValue | src/parser/parser_predicate.cpp:192-220 | likewise for literals |
| CheckText.Tokenize | src/parser/tokenizer.cpp:40-144 | the scanning loop computes the lexical grammar, failures included |
| CheckText.ReadEscaped | src/parser/tokenizer.cpp:40-144 | escaping is undone for every text |
| CheckText.LexPrint | src/storage/check_eval.cpp:33-62 | printed text is cut into exactly the intended tokens |

## Findings

Properties that the code promises or suggests and that do not hold for every input.  For each the
model has an input that shows it and the condition under which the property does hold.

- A rollback can bring a deleted row back (src/storage/table_recovery.cpp:8-19,
  src/transaction/mvcc_row_store.cpp:27-40).  Undoing an insert pops its version and reopens the
  one below, which is a committed deletion when the insert reused the id.  Shown by
  `UndoLogs.ReusedIdResurrectsRow`.  Exact condition, `UndoLogs.RollbackReads`: all reads are
  restored if and only if no undone insert took the id of a row deleted before.
- A union plan with a residual returns too much (src/planner/query_planner_access.cpp:168-203
  with src/execution/select_engine_scan.cpp:111-133).  The planner means the residual as a further
  filter, the executor takes it as a further arm.  Shown by `Planner.MixedUnionAddsRows`.  The plan
  returns exactly the rows that satisfy the OR or all other conjuncts (`MixesAt` in
  `Planner.PlanSelect` and `Scans.Select`); it cannot arise when no OR of probes stands beside
  another conjunct (`WellRead`).
- An intersection of two partly indexable ORs loses rows
  (src/planner/query_planner_and_intersect.cpp:143-171).  Shown by `Planner.TwoPartialOrsLoseRows`.
  Exact condition, `Planner.LostExactly`: a row is lost if and only if it meets one of the ORs only
  by indexed arms and another only by other arms; none is lost when at most one OR is partial
  (`WellRead`).
- Comparing a trigram expression that has an index means the text but looks up a gram
  (src/planner/query_planner_predicate.cpp:197-218).  Shown by `Planner.TrigramEqualityAddsRows`.
  Exact condition, `Planner.TrigramEqualityExactly`: the lookup is right for every row if and only
  if the literal is a text of one or two characters.  `Clean` excludes such comparisons elsewhere.
- Rows can be returned twice (src/planner/query_planner_predicate.cpp:161-195,
  src/execution/select_engine_bitmap.cpp:61-74): an IN list keeps repeated values, and a text lists
  itself once for each occurrence of a gram.  Shown by `Repeats.RepeatedValueRepeatsRows` and
  `Repeats.RepeatedGramRepeatsRows`.  `Scans.CollectVisibleEntries` gives the exact number for every
  plan; it is one when there is no trigram index and no IN list repeats a value.
- SET NULL can null a key that others refer to (src/execution/dml_engine.cpp:147-184).  Shown by
  `ReferentialFaults.NulledKeyDangles`.  Exact condition, `DeleteResults.KeyHoldsExactly`: a key
  holds after DELETE if and only if no row that keeps its reference has a parent that goes or whose
  referenced cells are nulled, all said of the rows before the statement.
- A DELETE that throws stays half done (src/execution/dml_engine.cpp:120-203).  Shown by
  `ReferentialFaults.ThrownDeleteDangles`.  Without a CASCADE cycle below the targets nothing
  dangles even then (`DeleteResults.ThrownDeleteIsConsistent`); in general a key dangles if and only
  if a row with an open frame refers by CASCADE to a deleted one (`DeleteResults.DanglesExactly`).
- After recovery an insert can throw (src/storage/page_row_store.cpp:15-38,
  src/storage/page_row_store_io.cpp:191-211).  A rolled-back transaction logs no page, but the free
  list that a later commit logs offers its ids.  Shown by `SlotReuse.RolledBackPageIsMissing`.  Exact
  condition over the run, `SlotReuse.ReuseAfterRecovery`: it throws if and only if the freed id it
  takes lies on a page that no durable operation logged while the table reached that id.
- SET NULL can throw in a transaction although the reference could be nulled
  (src/execution/dml_engine.cpp:147-171).  The children of a row are collected before its cascades
  run, so the image that SET NULL writes can bring back a reference to a row that is gone by then.
  Shown by `ReferentialFaults.StaleImageIsRejected`.
  Condition, `ImagesFresh` in `DeleteFaults.FaultsAreReasoned`: it cannot happen outside a
  transaction, nor when a child refers to the rows deleted on the way only by CASCADE keys whose
  cells nothing nulls.
- A transaction can read a row that it has erased (src/transaction/transaction_manager.cpp:208-234).
  The erase ends the newest version only; an older one that a later commit has ended is still
  visible to the snapshot.  Shown by `Versions.ErasedRowIsRead`.  Exact condition,
  `CommittedReads.ReadIsOwnDraft`: it is read if and only if the snapshot has the row and somebody
  has committed a change of it since.
- Two open writers of one row can lose a committed erase (src/transaction/mvcc_row_store.cpp:17-25).
  Shown by `Versions.OverlappingEraseIsLost`.  With one open writer for each row, `MayChange`, which
  the session's single open transaction gives (src/execution/txn_session.cpp:10-20), reads are exact
  (`CommittedReads.ReadIsLastCommit`).
- A CHECK need not survive printing (src/storage/check_eval.cpp:170-201).  Exact condition,
  `CheckParsers.ReadsBackExactly`: it reads back as itself if and only if its columns are
  identifiers other than the keywords at their place and its integers lie above the smallest 64-bit
  one.  Everything the parser accepts meets it (`CheckParsers.AcceptedChecksSurvive`).
- NULL equals NULL in joins and in WHERE comparisons (src/execution/predicate_eval.cpp:12-22); the
  model follows the code and not the three-valued logic of the SQL standard.
- The dependency-cycle error of recursive CTEs cannot occur (src/parser/recursive_cte.cpp:285-318):
  `CteOrder.HasDependencyCycle`.

## Left out

- Recovery.CrashSafety: one crash, and one page size for all tables; a second crash during recovery,
  DDL records, SAVE DATABASE and the older logical redo are not modelled, and index images travel as
  opaque data.
- Recovery.RollbackRestores: other transactions do not write in between.
- UndoLogs.RollbackReads: the rows that the transaction touches are not written by others meanwhile,
  and the undo of DDL is not modelled.
- Fixpoint.MaterializeGroup: arms that distribute over union, which `JoinArms.JoinArmsAreLinear`
  shows for inner and cross joins; WHERE and projection inside an arm, outer joins and UNION ALL
  groups are not modelled.
- CommittedReads.ReadIsLastCommit: each row has at most one open writer at a time.
- DeleteFaults.FaultsAreReasoned: the reason for a refused SET NULL is necessary; whether it arises
  also depends on the order in which the rows are visited.
- IndexReads.TableIsFaithful: the reader sees the latest rows; arithmetic expression indexes are not
  kept by the table model, and readers of older snapshots get what the indexes still list.
- WriteAheadLogs.WriteAheadLog.Append: the sequence number stays below two to the sixty-fourth.
- PageStores.RunBoth: page sizes and counts below two to the sixty-fourth; loading a store from
  exported pages or sparse rows is not modelled.
- CheckParsers.ReadsBackExactly: literals with a decimal point, whose printing rounds, and subqueries,
  which CHECK refuses, are only carried through.
- Histograms.HistogramRangeSelectivity: interpolation is exact real arithmetic where the source
  computes in doubles; the final rounding to whole rows is modelled.
- DeleteResults.DeleteIsExactly: DELETE only; ON UPDATE actions follow other code.
- JoinChains.CollectJoinRows: rows as a multiset; the order of joined rows is not promised.
- PageCodec.PageRoundTrip: the reader's cursor is a value that is returned, not a span that is moved.
- Doubles are reals, so NaN and rounding do not appear.
- Files, fsync, locks and threads.
- Regular expressions and subqueries in WHERE clauses, as opaque leaves only.
- Projection, ordering, aggregation, LIMIT, EXPLAIN, views and the command line.
- The hash index, whose operations would only add easy members.
- CREATE, ALTER and DROP statements.
