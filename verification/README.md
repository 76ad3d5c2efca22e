# Proofs about the storage and query layers of the database

This project models four parts of the database and proves what they promise, for all inputs, all runs and all reachable
states. `dafny verify dfyconfig.toml` checks everything.

**The B+ tree index** (`BTree*.dfy`, `IxNodeHandle.dfy`, `IxIndexHandle.dfy`, `IxScan.dfy`, `LostKey.dfy`). Node pages are objects with
key and rid slots that are shifted and copied in place, as in the source; the index is an object with a map from page
numbers to such pages and the fields of the file header. What the pages mean is a page store, and each step of an insertion
(leaf insert, leaf split, internal split, linking into the parent, new root) is a function on that store with a lemma on
what it keeps. The methods are proved to compute those functions. `IxIndexHandle.Valid` says that the store is a B+ tree:
every leaf at the same depth, one child more than keys in an internal node, keys strictly increasing in a node, the interval
of a child running from the separator on its left to the one on its right, correct parent pointers, minimum fill, and the
leaf list. The constructor establishes it and `InsertEntry` keeps it, so it holds after every run of insertions. The meaning
of an index is the sequence of its entries, and every operation is specified by what it does to that sequence or reads off it.

**Scans** (`KeyRange.dfy`, `SeqScan.dfy`, `IndexScan.dfy`, `IndexedTable.dfy`). The index scan builds a key range from its
conditions, scans the leaf list and checks every condition again. It is proved to select the same records as the sequential
scan, from the creation of the index on.

**Planning** (`Planner.dfy`, `IndexChoice.dfy`, `PlanMeaning.dfy`, `FirstTable.dfy`, `JoinOrder.dfy`, `JoinPlan.dfy`, `JoinMeaning.dfy`). A plan
denotes the rows it yields; the plans built for both kinds of queries denote the filtered product of their tables, or
throw, and it is said exactly when.

**Iterators** (`Joins.dfy`, `SemiJoin.dfy`, `Filter.dfy`, `GroupKey.dfy`, `Aggregation.dfy`, `PlanRuns.dfy`,
`QueryRuns.dfy`, `IndexedQueries.dfy`). The pull iterators are objects, each proved against a function of its inputs. `PlanRuns.Runs` puts those
functions together along a plan, nulls included. A run that comes to its end yields the rows the plan denotes
(`PlanRuns.RunsDenote`). Not every run does: a filter that lets none of its rows through hands out one null, and a
nested-loop join takes it for a row (executor_nestedloop_join.h:71-81). `QueryRuns.JoinPlanRuns` says exactly when that
happens. The rows of a table are those its scan delivers. `IndexedQueries` adds index scans that throw (`IndexScan.Throws`);
those whose conditions are not of a sound shape (`KeyRange.SoundShape`) deliver what the buffers happened to hold.

**Versions and transactions** (`UndoLogs.dfy`, `Mvcc.dfy`). Undo logs lead back to older versions of a record.
Transactions are a state machine over begin, read-only snapshot, guarded write, commit and abort.

`IxFileHdr.dfy` covers the bytes of the index file header and the arithmetic of page sizes.

## Where the code differs from its comments or from what one expects

- `internal_lookup` sends a key equal to a separator to the left child (src/index/ix_index_handle.cpp:214), although its
  comment says right (lines 217-220). The first copy of a separator key is in the leaf to the right, so `get_value` does not
  find it, and a unique index accepts it a second time. `BTreeSearch.FoundStrict` says exactly which keys are found,
  `BTreeSearch.SomeKeyLost` that every index of enough entries has lost one, whatever its node size, and
  `LostKey.TakesTwice` that a unique one then accepts such a key twice, and `BTreeWitness.SeparatorNotFound` is an example
  with seven keys of type CHAR(512). No key gets a third copy
  (`BTreeSearch.NoThirdCopy`).
- `upper_bound` takes slot 1 of the next leaf (line 1173). `IxIndexHandle.UpperBound` says exactly when that is one entry too
  far: when the entry it should stop at is the first of a leaf (`BTreeSearch.SomeBoundTooFar`). The filter above the scan makes up for it.
- The loop of `beginTuple` that fills in default bounds starts at the number of lower bounds (executor_index_scan.h:240). It
  overwrites an upper limit that follows equalities, which is harmless, and leaves a column unwritten that only has a lower
  limit after an equality. `KeyRange.RangeTakesInAll` says for which shapes of conditions the range is right whatever
  the buffers held before. For every other shape some content of the buffers hides a row, and the scan yields nothing or throws
  (`IndexScan.UnsoundLoses`; an example is `IndexScan.GreaterAfterEqual`). `IndexScan.CursorVisits` says what a scan does for
  any shape and any content.
- If some key is given and no entry is at or above the lower one, the cursor starts on the header page, is not at its end, and
  its first `rid()` throws (executor_index_scan.h:315-316). `IndexScanExecutor.Run` states when, exactly, and
  `IndexedQueries.OneRelThroughIndexes` when a query throws for that reason: never one that has an answer.
- A comparison of two columns of one table is popped for the first table of the query, whichever table it is about
  (src/optimizer/planner.cpp:155). For another table the scan throws as soon as one of its rows gets that far, and
  `PlanMeaning.OneRelDenotes` and `JoinMeaning.JoinPlanDenotes` say so exactly; `PlanMeaning.WrongTable` is an example.
- In a query with explicit joins, WHERE conditions between two tables, and ON conditions that do not compare two tables, are
  dropped without an error: `JoinMeaning.JoinPlanDenotes` is about the conditions that take effect,
  `JoinMeaning.WhereBetweenTablesLost` and `JoinMeaning.OnConditionLost` about the others.
- In such a query a table whose filter lets nothing through gives the join above it a null. `QueryRuns.JoinPlanRuns` says when a
  join meets one, `QueryRuns.NullBelowJoin` is an example, and `QueryRuns.AnswerRuns` shows that a query with an answer never
  gets there.
- A read-only snapshot starts with the last commit stamp instead of a stamp of its own. A snapshot with the stamp of the
  record makes the guard refuse a write nobody competes for while it is in progress (`Mvcc.SnapshotBlocksWriter`), and also
  when it has committed after the writer began, as a single SELECT does at its end (src/rmdb.cpp:256-260,
  `Mvcc.CommittedSnapshotBlocksWriter`); `Mvcc.GuardRefuses` is the exact condition. Once aborted it can mislead
  the guard into letting a conflicting write pass. `Mvcc.LostUpdateExactly` says, for every run, that updates are lost exactly
  when such a write is committed; `Mvcc.MisledLoses` that every such write may be; `Mvcc.GuardMisses` what the guard misses.
- `IsWriteWriteConflict` is the documented rule, but the update executor asks `RmFileHandle::CheckWriteWriteConflict`. Both
  are modelled, and `Mvcc.GuardIsRule` says exactly when they agree.
- A group of rows is filed under a text with `|` between the values. With `|` inside strings two groups can share a text, but
  only when at least two string columns are grouped by: `Aggregation.KeysTellGroups`. Reading the values back from the text
  fails for any string with `|` (`GroupKey.RoundTrip`).
  With GROUP BY on an integer column and no rows, the stand-in text "global" is parsed as a number and the query throws.
- A full internal node has one child more than the rid slots of its page. The asserts in `insert_pair`
  (src/index/ix_index_handle.cpp:656-660) and `get_rid` (src/index/ix_index_handle.h:125) refuse the last slots. The model's
  nodes have one rid slot more and no such assert; `IxFileHdr.ExtraChildFits` says when the page has room for it.

## Reading the table

Members of classes that change state have contracts on the old and the new state; the functions and lemmas those contracts
speak of are listed beside them. Line numbers are those of the modelled code.

## Model

| member | source | states |
|---|---|---|
| `KeyOrder.IxCompare` | src/index/ix_index_handle.h:44-55 | the sign of the result is the order of the keys in the first column in which they differ, zero exactly for equal keys |
| `KeyOrder.CompareColumn` | src/index/ix_index_handle.h:25-42 | for two ints and for two floats the sign of the result is that of their difference, for two strings it is the order of StrLess |
| `KeyOrder.StrLessFirst` | src/index/ix_index_handle.h:37-38 | one string is below another exactly when they agree up to a place where the first ends or has the smaller byte |
| `KeyOrder.LessFirst` | src/index/ix_index_handle.h:44-55 | keys of one index are ordered by the first column in which they differ |
| `KeyOrder.LessOrder` | src/index/ix_index_handle.h:25-55 | that order is a strict total order; floats are compared exactly, as the code does here |
| `IxNode.IxNodeHandle.LowerBound` | src/index/ix_index_handle.cpp:114-131 | binary search: every key before the result is smaller, none from it on is; reads only |
| `IxNode.IxNodeHandle.UpperBound` | src/index/ix_index_handle.cpp:139-160 | the same for the first key above the target, searching from slot 0 |
| `IxNode.IxNodeHandle.LeafLookup` | src/index/ix_index_handle.cpp:171-196 | finds a rid exactly when the key is in the leaf, and it is the one in the slot of the key |
| `IxNode.IxNodeHandle.InternalLookup` | src/index/ix_index_handle.cpp:204-222 | the child left of the first key not below the target, so a key equal to a separator goes left |
| `IxNode.IxNodeHandle.InsertPairs` | src/index/ix_index_handle.cpp:238-275 | the node afterwards: the n pairs spliced in at pos, everything else in its order |
| `IxNode.IxNodeHandle.Insert` | src/index/ix_index_handle.cpp:285-308 | unchanged when the key is there, else key and rid added at the sorted place; the returned size is the new one |
| `IxNode.IxNodeHandle.InsertPair` | src/index/ix_index_handle.cpp:653-664 | an internal node gets the key at key_idx and the child right of it; no other key or child moves past another |
| `IxNode.IxNodeHandle.CopyFrom` | src/index/ix_index_handle.cpp:546-548 | the new node holds the upper keys of the split one and one child more than keys |
| `IxDefs.LowerPosSorted` | src/index/ix_index_handle.cpp:114-131 | in a sorted node a key can only be in the slot the search returns |
| `IxDefs.InsertSorted` | src/index/ix_index_handle.cpp:285-308 | inserting a new key where the search says keeps a node strictly sorted |
| `IxIndex.IxIndexHandle.constructor` | src/index/ix_manager.h:57-124 | the two pages written are a well-formed tree without entries |
| `BTreeInsert.CreatedIndex` | src/index/ix_manager.h:94-124 | the same on the page store, for every node capacity of at least four keys |
| `BTree.SplitInnerKeeps` | src/index/ix_index_handle.cpp:525-551 | splitting a full internal node keeps order, intervals, fill, depth and all parent pointers, with the new half waiting for its slot in the parent |
| `BTree.SplitLeafTree` | src/index/ix_index_handle.cpp:490-524 | the same for a full leaf; the separator is the first key of the right half |
| `BTree.SplitLeafChain` | src/index/ix_index_handle.cpp:508-524 | after a leaf split the leaf list is the old one with the new leaf right behind the split one, links inverse around the circle |
| `BTree.SplitLeafEntries` | src/index/ix_index_handle.cpp:490-524 | a leaf split does not change the sequence of entries |
| `BTree.SplitPageSlot` | src/index/ix_index_handle.cpp:618-621 | searching the parent for the promoted key gives exactly the child index of the split page, and the key is not in the parent yet |
| `BTree.InsertPairKeeps` | src/index/ix_index_handle.cpp:616-621 | linking the new half keeps the tree well formed, with at most that parent full |
| `BTree.NewRootKeeps` | src/index/ix_index_handle.cpp:586-614 | a new root above the two halves makes the tree one level higher and well formed |
| `BTree.SplitInnerLeaves` | src/index/ix_index_handle.cpp:525-551 | an internal split leaves the leaf list and the entries alone |
| `BTree.LinkedLeaves` | src/index/ix_index_handle.cpp:616-621 | so does linking a page into its parent |
| `BTree.NewRootLeaves` | src/index/ix_index_handle.cpp:586-614 | and so does a new root |
| `BTreeInsert.DescendStep` | src/index/ix_index_handle.cpp:398-427 | the child chosen by internal_lookup is one level down and serves key[i-1] < k <= key[i] |
| `BTreeInsert.LeafStep` | src/index/ix_index_handle.cpp:716-718 | inserting into the routed leaf inserts the pair at its ordered place among all entries of the tree |
| `BTreeInsert.SplitStep` | src/index/ix_index_handle.cpp:490-524 | a full leaf is split into a tree with one waiting page and the same entries |
| `BTreeOrder.ContentsSorted` | src/index/ix_index_handle.cpp:672-741 | the entries met along the leaf list are in key order |
| `BTreeOrder.RoutedPosition` | src/index/ix_index_handle.cpp:398-427 | the leaf a search ends in contains, or ends right before, the first entry not below the key |
| `BTreeOrder.InsertedContents` | src/index/ix_index_handle.cpp:285-308 | a change of the routed leaf is the ordered insertion into the whole sequence |
| `BTreeOrder.SeparatorsAreFirstKeys` | src/index/ix_index_handle.cpp:509-524 | the keys of the internal nodes are exactly the first keys of the leaves after the leftmost |
| `BTreeShape.SeparatorIsFirstKey` | src/index/ix_index_handle.cpp:509-524 | slot by slot: key i of an internal node is the first key of the leftmost leaf under its child i + 1 |
| `BTreeOrder.RoutedSeparator` | src/index/ix_index_handle.cpp:204-222 | a routed key is a separator exactly when it is the upper end of its leaf |
| `BTreeShape.LeafListIsTree` | src/index/ix_index_handle.cpp:508-524 | the leaf list from first_leaf_ to header page 1 is exactly the leaves of the tree from left to right |
| `BTreeShape.HalfFull` | src/index/ix_index_handle.h:94-96 | in a well-formed index no node is full, and every node but the root is at least half full, rounded down |
| `BTreeShape.ManyLeaves` | src/index/ix_index_handle.h:94-96 | a page h levels above the leaves, other than the root, has at least min_size^h leaves |
| `BTreeShape.ManyEntries` | src/index/ix_index_handle.h:94-96 | a tree with h >= 1 internal levels holds at least 2 * min_size^h entries |
| `IxIndex.IxIndexHandle.SplitLeafPage` | src/index/ix_index_handle.cpp:490-524 | the page writes of a leaf split give exactly the store the step lemmas speak of |
| `IxIndex.IxIndexHandle.SplitInnerPage` | src/index/ix_index_handle.cpp:525-551 | the same for an internal split, including the parent pointer of every moved child |
| `IxIndex.IxIndexHandle.Split` | src/index/ix_index_handle.cpp:474-559 | both cases |
| `IxIndex.IxIndexHandle.MaintainChild` | src/index/ix_index_handle.cpp:1318-1326 | the child gets the page as its parent and nothing else changes |
| `IxIndex.IxIndexHandle.CreateNode` | src/index/ix_index_handle.cpp:1244-1262 | a fresh page, linked to nothing; all other pages are untouched |
| `IxIndex.IxIndexHandle.GrowRoot` | src/index/ix_index_handle.cpp:586-614 | from a tree with a waiting half of the root to a settled tree with the same entries |
| `IxIndex.IxIndexHandle.LinkRight` | src/index/ix_index_handle.cpp:616-621 | the waiting page gets its slot; the parent, possibly full now, is nearer to the root |
| `IxIndex.IxIndexHandle.SplitParent` | src/index/ix_index_handle.cpp:624-633 | a full parent is split, its middle key goes up, leaves and entries stay |
| `IxIndex.IxIndexHandle.InsertIntoParent` | src/index/ix_index_handle.cpp:575-648 | whatever cascade of splits and new roots follows, the tree ends settled with the same entries; the recursion climbs and ends |
| `IxIndex.IxIndexHandle.FindLeafPage` | src/index/ix_index_handle.cpp:398-427 | the leaf whose interval holds the key |
| `IxIndex.IxIndexHandle.GetValue` | src/index/ix_index_handle.cpp:437-465 | finds exactly the stored keys that are no separator or have a second copy, and returns the rid stored with the key |
| `BTreeSearch.FoundStrict` | src/index/ix_index_handle.cpp:437-465 | with every key stored once, get_value succeeds if and only if the key is stored and is no separator |
| `BTreeSearch.StoredInLeaf` | src/index/ix_index_handle.cpp:171-222 | a hit in the routed leaf is the first entry with that key; for a separator it is the second copy that makes the difference |
| `BTreeSearch.NotStoredInLeaf` | src/index/ix_index_handle.cpp:171-222 | a miss in the routed leaf means the key is nowhere, or a separator stored only once |
| `BTreeSearch.SeparatorLost` | src/index/ix_index_handle.cpp:204-222 | for every node size: in an index with every key once, each separator is stored and get_value does not find it |
| `BTreeSearch.SomeKeyLost` | src/index/ix_index_handle.cpp:204-222 | so every such index with as many entries as a node has room for has lost a key |
| `BTreeSearch.NoThirdCopy` | src/index/ix_index_handle.cpp:672-741 | in every index, whatever was inserted, no key is stored more than twice |
| `BTreeWitness.SeparatorNotFound` | src/index/ix_index_handle.cpp:214-220 | for the node size of a CHAR(512) column: after inserting seven keys in order the fifth is stored, not found, and gets a second copy |
| `LostKey.TakesTwice` | src/index/ix_index_handle.cpp:672-741 | for the index object, every node size and every choice of rows: into a unique index with at least as many different keys as a node has room for, all accepted, one of the rows is accepted a second time |
| `LostKey.LostRow` | src/index/ix_index_handle.cpp:437-465 | looking up every row in turn finds one that get_value does not find |
| `BTreeWitness.SevenKeysReached` | src/index/ix_index_handle.cpp:672-741 | that tree is what seven insertions into the created index, the split and the new root make |
| `BTreeWitness.NodeSize` | src/index/ix_manager.h:70-79 | its node size is the one create_index computes for that column, and no accepted key length has a smaller one |
| `IxIndex.IxIndexHandle.AddEntry` | src/index/ix_index_handle.cpp:704-741 | without the unique check: nothing changes if the search finds the key, else exactly one pair is added at its ordered place |
| `IxIndex.IxIndexHandle.InsertEntry` | src/index/ix_index_handle.cpp:672-741 | throws exactly when the index is unique and get_value finds the key; the new sequence of entries in every case; the tree stays well formed |
| `IxIndex.IxIndexHandle.UpdateLastLeaf` | src/index/ix_index_handle.cpp:727-730 | last_leaf_ names the rightmost leaf again |
| `IxIndex.IxIndexHandle.InsertAll` | src/system/sm_manager.cpp:427-453 | rows with pairwise different keys are all accepted and end up in key order |
| `IxIndex.InKeyOrderIsSorted` | src/system/sm_manager.cpp:427-453 | that order is strictly increasing and has the same entries as the rows |
| `IxIndex.NewKey` | src/index/ix_index_handle.cpp:672-700 | a key that was not inserted before is never refused |
| `BTreeSearch.InsertStrict` | src/index/ix_index_handle.cpp:672-741 | a new key keeps the sequence strictly increasing |
| `IxIndex.IxIndexHandle.LowerBound` | src/index/ix_index_handle.cpp:1117-1145 | the position of the first entry not below the key in the whole tree, (1,0) if there is none |
| `IxIndex.IxIndexHandle.UpperBound` | src/index/ix_index_handle.cpp:1152-1181 | the position of the first entry above the key, or one further exactly when that entry is the first of a leaf; (1,1) if there is none |
| `BTreeSearch.LowerIid` | src/index/ix_index_handle.cpp:1117-1145 | why: slot and next-leaf cases against the ordered sequence |
| `BTreeSearch.UpperIid` | src/index/ix_index_handle.cpp:1152-1181 | the same, with the exact condition for the extra step |
| `BTreeSearch.SomeBoundTooFar` | src/index/ix_index_handle.cpp:1173-1173 | for every node size: in an index with every key once and as many entries as a node has room for, upper_bound of some stored key is one too far |
| `BTreeWitness.UpperBoundTooFar` | src/index/ix_index_handle.cpp:1173-1173 | in the index of seven keys it is the fourth key |
| `IxIndex.IxIndexHandle.LeafBegin` | src/index/ix_index_handle.cpp:1209-1217 | the position of entry 0 |
| `IxIndex.IxIndexHandle.LeafEnd` | src/index/ix_index_handle.cpp:1189-1202 | the position past the last entry |
| `IxIndex.IxIndexHandle.GetRid` | src/index/ix_index_handle.cpp:1085-1107 | throws exactly when the position is no entry, else returns the rid of that entry |
| `IxScans.IxScan.Next` | src/index/ix_scan.cpp:17-39 | one entry of what is left to visit is dropped from the front; at the end nothing happens |
| `IxScans.IxScan.CurrentRid` | src/index/ix_scan.cpp:41-43 | the rid of the first entry left to visit, an error exactly when the cursor is on no entry |
| `IxScans.RestBetween` | src/index/ix_scan.cpp:17-39 | a cursor between two positions visits exactly the entries between them, each once and in order |
| `IxScans.RestPastEnd` | src/index/ix_scan.cpp:17-39 | nothing is visited from a position past the end |
| `IxScans.StepAcross` | src/index/ix_scan.cpp:29-36 | at the end of a leaf the next entry is the first of the next leaf, and after the last leaf the cursor is at its end whatever end was given |
| `KeyRange.BuildRange` | src/execution/executor_index_scan.h:161-272 | what the two key buffers hold after beginTuple, and which columns count as lower and upper bounds, whatever memory the buffers had |
| `KeyRange.SoundShape` | src/execution/executor_index_scan.h:184-226 | the shapes of conditions for which every buffer column in use is written: equalities, then nothing or an upper limit; or one lower limit on the first column |
| `KeyRange.SoundCovers` | src/execution/executor_index_scan.h:161-272 | for those shapes every row that satisfies the conditions has its key in the range |
| `KeyRange.RangeTakesInAll` | src/execution/executor_index_scan.h:161-272 | a row that satisfies the conditions is in range for every content of the memory if and only if the shape is one of those |
| `KeyRange.SatisfiesMeets` | src/execution/executor_index_scan.h:388-462 | the index columns of a row that passes all conditions meet the bounds taken from them |
| `KeyRange.MeetsSatisfies` | src/execution/executor_index_scan.h:200-226 | conversely a row passes a single =, <= or >= with a literal exactly when its value meets the bound, < and > exactly when besides it is not the literal, which is on the bound; <> gives no bound |
| `KeyRange.OneColumnRange` | src/execution/executor_index_scan.h:228-250 | on an index of one column the range is exact for = and lower limits, while an upper limit has no effect |
| `ScanDefs.EvalConds` | src/execution/executor_seq_scan.h:121-165 | true exactly when every condition holds |
| `ScanDefs.OperatorsByKey` | src/execution/executor_seq_scan.h:167-181 | = holds when the two one-column keys are equal, < when the first is below in the order of ix_compare, > the other way round; <>, >= and <= are the opposites of =, < and > |
| `ScanDefs.HoldsByKey` | src/execution/executor_seq_scan.h:131-165 | a condition on a row says this of the column on its left and of the literal or the column on its right |
| `IndexScan.EvalCond` | src/execution/executor_index_scan.h:433-458 | the index scan gets there by applying the operator to the sign ix_compare returns |
| `IndexScan.EvalAll` | src/execution/executor_index_scan.h:388-395 | its eval_conds is true exactly when every condition holds, like that of the sequential scan |
| `SeqScan.SeqScanExecutor.Run` | src/execution/executor_seq_scan.h:54-101 | yields the records that pass, in scan order |
| `SeqScan.SeqScanExecutor.NextTuple` | src/execution/executor_seq_scan.h:78-101 | one record of those still to come is dropped |
| `IndexScan.IndexScanExecutor.BeginTuple` | src/execution/executor_index_scan.h:139-345 | the same for what is still to come: throws exactly in the case the model names, else the records that pass, in index order |
| `IndexScan.IndexScanExecutor.NextTuple` | src/execution/executor_index_scan.h:347-367 | one record of those still to come is dropped |
| `IndexScan.IndexScanExecutor.Run` | src/execution/executor_index_scan.h:139-367 | for every shape the outcome is the one of some content of the buffers, exactly; for sound shapes and one entry per row, the scan throws exactly when no entry is at or above the lower key while some key is given, and otherwise yields exactly the rows that pass |
| `IndexScan.VisitsRun` | src/execution/executor_index_scan.h:288-312 | the cursor visits the run of entries from the first at or above the lower key to the last at or below the upper one, or one more |
| `IndexScan.RunSelectsAll` | src/execution/executor_index_scan.h:315-367 | filtering that run gives what filtering all entries gives |
| `IndexScan.SameRecords` | src/execution/executor_index_scan.h:139-367 | index scan and sequential scan yield the same records, each once |
| `IndexScan.OpenedCursor` | src/execution/executor_index_scan.h:288-312 | what the cursor opened on the two bounds will visit, and when it throws |
| `IndexScan.GreaterAfterEqual` | src/execution/executor_index_scan.h:206-226 | an equality followed by > on the next column: with a bad leftover in the buffer the cursor opened is at its end at once, although a row passes |
| `IndexScan.UnsoundLoses` | src/execution/executor_index_scan.h:161-316 | for every shape that is not sound there are leftovers with which the scan of a table whose only row passes all conditions visits nothing; it throws exactly when the column behind the equalities has no lower limit |
| `IndexScan.CursorVisits` | src/execution/executor_index_scan.h:288-316 | for every shape and every content of the buffers: which entries the cursor visits, to the end of the index if its end is behind its start, and when rid() throws |
| `IndexScan.SoundOutcome` | src/execution/executor_index_scan.h:139-367 | for a sound shape there is one outcome, whatever was in the buffers |
| `IndexedTable.CreateIndex` | src/system/sm_manager.cpp:427-453 | create_index over the records of a table whose rows differ in the index columns gives a well-formed index of exactly those rows |
| `IndexedTable.CreateAndScan` | src/execution/executor_index_scan.h:139-367 | creating the index and scanning through it yields the records a sequential scan of the table yields, and throws exactly when the scan does |
| `IndexedTable.ReorderedIndex` | src/system/sm_manager.cpp:427-453 | the entries of a table in any order are an index of it |
| `IndexScan.ThrowsWhen` | src/execution/executor_index_scan.h:288-316 | when the first call of rid() throws |
| `Joins.SatisfyConditions` | src/execution/executor_nestedloop_join.h:117-190 | true exactly when every condition between two columns that are both there holds; literal conditions are passed over |
| `Joins.NestedLoopJoinExecutor.NextTuple` | src/execution/executor_nestedloop_join.h:67-95 | prepares the next joined row, or ends when there is none |
| `Joins.NestedLoopJoinExecutor.BeginTuple` | src/execution/executor_nestedloop_join.h:52-65 | prepares the first joined row; an end reached before is not taken back |
| `Joins.NestedLoopJoinExecutor.Run` | src/execution/executor_nestedloop_join.h:52-112 | the first run yields the join; a run after the end yields nothing |
| `Joins.JoinIsExact` | src/execution/executor_nestedloop_join.h:67-95 | the join has every satisfying pair once, in left-major order, and nothing else |
| `SemiJoin.SemiJoinExecutor.NextTuple` | src/execution/executor_semi_join.h:47-87 | prepares the next left row that has a match, or ends |
| `SemiJoin.SemiJoinExecutor.Next` | src/execution/executor_semi_join.h:93-114 | hands out the prepared row and moves the left input on |
| `SemiJoin.SemiJoinExecutor.Run` | src/execution/executor_semi_join.h:34-114 | yields the left rows that have a match |
| `SemiJoin.SemiIsExact` | src/execution/executor_semi_join.h:47-87 | that is each left row with at least one match exactly once, in order, and no other |
| `PlanRuns.SemiMatchesPass` | src/execution/executor_semi_join.h:128-290 | a pair matches exactly when the merged tuple passes all conditions, those with literals included |
| `Filter.FilterExecutor.NextTuple` | src/execution/executor_filter.h:48-53 | moves to the next row that passes, or to the end |
| `Filter.FilterExecutor.Next` | src/execution/executor_filter.h:59-77 | gives the next row that passes, null exactly when there is none |
| `Filter.FilterExecutor.Run` | src/execution/executor_filter.h:44-85 | yields the rows that pass, in order, and exactly one null when there are rows but none passes |
| `GroupKey.GetGroupKey` | src/execution/executor_aggregation.cpp:225-242 | the text a group is filed under |
| `GroupKey.ParseGroupKey` | src/execution/executor_aggregation.cpp:704-726 | what the loop over the tokens reads back, and when stoi throws |
| `GroupKey.StoiOfShown` | src/execution/executor_aggregation.cpp:716-717 | every 32-bit number survives being printed and read back |
| `GroupKey.Decimal` | src/execution/executor_aggregation.cpp:232-236 | numbers are written in decimal, the minus sign in front |
| `GroupKey.StoiReads` | src/execution/executor_aggregation.cpp:713-713 | what stoi makes of spaces, a sign, digits and anything behind them; out of range it throws |
| `GroupKey.StoiThrows` | src/execution/executor_aggregation.cpp:713-713 | and it throws where there is no digit |
| `GroupKey.RoundTrip` | src/execution/executor_aggregation.cpp:225-242 | reading a rendered key gives the original values if and only if no string contains the separator |
| `GroupKey.SameText` | src/execution/executor_aggregation.cpp:225-242 | two groups with one text are equal when the values of one have, place by place, no more separators than those of the other |
| `GroupKey.RenderInjective` | src/execution/executor_aggregation.cpp:225-242 | in particular equal texts mean equal groups when no string contains the separator |
| `GroupKey.SharedKey` | src/execution/executor_aggregation.cpp:225-242 | two different groups with one key |
| `Aggregation.UpdateAggState` | src/execution/executor_aggregation.cpp:244-382 | after one more row the state is that of the fold over the rows with it |
| `Aggregation.StepKeeps` | src/execution/executor_aggregation.cpp:280-382 | one aggregate, one more row: COUNT, SUM, MAX, MIN stay equal to their definition |
| `Aggregation.SumSays` | src/execution/executor_aggregation.cpp:349-351 | the SUM of a result lies in the 32-bit range, differs from the sum of the rows it describes by a multiple of 2^32, and is that sum whenever the sum is in the range |
| `Aggregation.SumOfParts` | src/execution/executor_aggregation.cpp:349-351 | that sum is the value of a single row, and adds up over parts of the rows |
| `Aggregation.CountSays` | src/execution/executor_aggregation.cpp:278-304 | COUNT(*) is the number of rows, COUNT of a column that of the rows whose value is not the empty string |
| `Aggregation.ExtremesSay` | src/execution/executor_aggregation.cpp:306-346 | MAX and MIN are values of rows, and no row has one beyond them |
| `Aggregation.FiledPlaces` | src/execution/executor_aggregation.cpp:650-660 | the rows filed under a key are those with that key, each as often as it is there and in their order |
| `Aggregation.MembersPlaces` | src/execution/executor_aggregation.cpp:650-660 | and the rows of a group are those with its values |
| `Aggregation.BeforeFirst` | src/execution/executor_aggregation.cpp:691-694 | the order of the keys is by the first character in which they differ, a prefix first |
| `Aggregation.ComputeStates` | src/execution/executor_aggregation.cpp:644-661 | one state for each key in use, accounting for exactly the rows with that key |
| `Aggregation.SortKeys` | src/execution/executor_aggregation.cpp:686-694 | the groups come in increasing key order, none lost and none twice |
| `Aggregation.ComputeFinalResults` | src/execution/executor_aggregation.cpp:644-763 | one result per key in use, in key order, each right for the rows filed under it; throws exactly when some key does not parse; the empty input |
| `Aggregation.EmptyInput` | src/execution/executor_aggregation.cpp:664-683 | an empty input throws exactly when the first group column is an integer, because the stand-in key is no number |
| `Aggregation.KeysTellGroups` | src/execution/executor_aggregation.cpp:225-242 | the text tells all groups apart, whatever the strings are, if and only if GROUP BY names at most one string column |
| `Aggregation.TwoStringColumns` | src/execution/executor_aggregation.cpp:225-242 | with two string columns there always are two rows of different groups with one text |
| `Aggregation.ShortStrings` | src/execution/executor_aggregation.cpp:225-242 | strings of at most one character suffice when the two columns are neighbours in GROUP BY and listed once |
| `Aggregation.GroupsPartition` | src/execution/executor_aggregation.cpp:225-242 | with at most one string column, or without separators in the strings, rows are filed together exactly when their group values agree |
| `Aggregation.FiledIsMembers` | src/execution/executor_aggregation.cpp:650-660 | whenever the text tells the group of a row from the others, the rows filed under it are the rows of that group |
| `Aggregation.ResultIsGroup` | src/execution/executor_aggregation.cpp:696-758 | so each result describes exactly the rows of its group; it names the values of the group if and only if none of them contains the separator |
| `Planner.GetIndexCols` | src/optimizer/planner.cpp:48-139 | an index is chosen if and only if the first column of some index of the table is compared by =, <, <=, > or >=, from either side; the columns chosen are leading columns of an index, each after the first is compared for equality and the next one is not; no index has more such columns, and no earlier one as many |
| `IndexChoice.ColumnChosen` | src/optimizer/planner.cpp:96-118 | when the conditions compare columns of the table with literals: a column with a key bound is usable, one without any condition is not; with one condition on it exactly the bounds of the index scan decide |
| `IndexChoice.ChosenByBounds` | src/optimizer/planner.cpp:96-130 | so the number of columns chosen is that of the equalities the index scan takes from the conditions, counted behind any bound on the first column |
| `Planner.ScanPart` | src/optimizer/planner.cpp:566-576 | a scan without an index is put under a filter with the same conditions, one with an index is not |
| `Planner.PopConds` | src/optimizer/planner.cpp:148-165 | the vector is split into picked and left conditions, both in order |
| `Planner.TakeLeave` | src/optimizer/planner.cpp:148-165 | nothing is lost or doubled by that |
| `Planner.PickedPlaces` | src/optimizer/planner.cpp:148-165 | picked are exactly the conditions that are to be picked, left exactly the others, both in the order of the vector |
| `Planner.MakeOneRel` | src/optimizer/planner.cpp:548-662 | the plan built is the left-deep tree the lemmas speak of |
| `PlanMeaning.PoppedWhereTheyBelong` | src/optimizer/planner.cpp:155-155 | all popped conditions belong to the table they are popped for if and only if comparisons of two columns of one table are on the first table |
| `PlanMeaning.AttachedOnce` | src/optimizer/planner.cpp:548-662 | every condition is attached exactly once |
| `PlanMeaning.AttachedAtLater` | src/optimizer/planner.cpp:590-650 | a condition between two tables is attached at the join that adds the later one, and at no other |
| `PlanMeaning.OneRelDenotes` | src/optimizer/planner.cpp:548-662 | for every query: the plan yields the product of the tables filtered by all conditions, in the order of the product, if no row of the first table gets as far as a comparison of two columns of another table, and throws otherwise |
| `FirstTable.FilterSome` | src/execution/executor_filter.h:99-115 | filtering throws if and only if some row gets as far as a condition whose column it lacks, and otherwise keeps the rows that pass |
| `PlanMeaning.MisplacedFails` | src/optimizer/planner.cpp:155-155 | if there is such a comparison and no row gets to it, then every row of the first table fails a condition before it |
| `PlanMeaning.WrongTable` | src/optimizer/planner.cpp:155-155 | a condition between two columns of the second table goes to the scan of the first, which throws |
| `LeftDeepPlans.LeftDeepDenotes` | src/optimizer/planner.cpp:590-662 | a left-deep tree with filters and projections pushed to its leaves yields the filtered product of its tables |
| `PlanDefs.PushThrough` | src/optimizer/planner.cpp:565-662 | filters and projections may be taken out of the two inputs of a join |
| `JoinOrder.GreedyOrder` | src/optimizer/planner.cpp:476-505 | the order is a permutation of the tables with nondecreasing row counts, equal ones in the order of the statement |
| `JoinOrder.ChooseOrder` | src/optimizer/planner.cpp:434-513 | by row counts for more than two tables, and for two if an ON condition compares columns, or there is none and one table has more than ten times the rows of the other; otherwise the order of the statement |
| `JoinPlan.SomeColumnCond` | src/optimizer/planner.cpp:444-453 | the loop over the ON conditions finds one that compares columns exactly when there is one |
| `JoinPlan.ProjectedCols` | src/optimizer/planner.cpp:243-305 | below a join a table keeps the columns that are selected and those that some ON condition mentions |
| `PlanOrder.ProductReordered` | src/optimizer/planner.cpp:515-543 | the product does not depend on the order of its tables, up to the order of rows |
| `JoinPlan.BuildJoinPlan` | src/optimizer/planner.cpp:349-546 | the plan is the left-deep tree of the filtered and projected tables, in the greedy order when that is used and in the order of the statement otherwise |
| `JoinMeaning.JoinPlanDenotes` | src/optimizer/planner.cpp:224-546 | for every query with explicit joins and every join order: the plan throws if and only if some row of the first table gets as far as a comparison of two columns of another table and that part is started; else it yields, on the selected columns, the rows of the product in statement order filtered by the conditions that take effect, each as often |
| `JoinMeaning.BeforeFirst` | src/optimizer/planner.cpp:515-543 | that part is not started if and only if it comes later in the join order and no row of the product of the tables before it passes the conditions due there |
| `JoinMeaning.NoAnswerIfSkipped` | src/optimizer/planner.cpp:515-543 | and then the query has no answer |
| `JoinPlan.OrderedConds` | src/optimizer/planner.cpp:515-543 | the conditions in the reordered plan are exactly those that take effect: WHERE with a literal or within the first table, ON between two tables |
| `JoinMeaning.OnlyEffectCounts` | src/optimizer/planner.cpp:349-546 | two queries with the same conditions in effect get the same rows, whatever other conditions they have |
| `JoinMeaning.OnConditionLost` | src/optimizer/planner.cpp:528-541 | so an ON condition with a literal, or within one table, anywhere in the list has no effect on the rows |
| `JoinMeaning.WhereBetweenTablesLost` | src/optimizer/planner.cpp:349-380 | a WHERE condition between two tables, anywhere in the list, does not even change the plan |
| `JoinMeaning.LiteralOnLost` | src/optimizer/planner.cpp:528-541 | nor does an ON condition without effect when all columns are selected |
| `PlanRuns.KeptIsFiltered` | src/execution/executor_filter.h:44-85 | the rows the filter iterator yields are those whose tuples pass |
| `PlanRuns.ScanYields` | src/execution/executor_seq_scan.h:54-101 | the records a scan selects have the rows a filter keeps |
| `PlanRuns.JoinYields` | src/execution/executor_nestedloop_join.h:67-95 | the rows the nested-loop join yields are the joined tuples, in that order |
| `PlanRuns.ProjectYields` | src/execution/executor_projection.h:78-113 | a projected row is the tuple restricted to the columns kept |
| `PlanRuns.RunsDenote` | src/portal.h:163-182 | a run of a tree of iterators that comes to its end yields exactly the rows its plan denotes |
| `QueryRuns.TreeRuns` | src/execution/executor_nestedloop_join.h:52-95 | a left-deep tree runs to its end if and only if nothing is thrown and no join gets a null for a row |
| `QueryRuns.OneRelRuns` | src/optimizer/planner.cpp:548-662 | the plan of a query without explicit joins never meets a null: it runs to its end if and only if it does not throw, and yields the answer |
| `QueryRuns.JoinPlanRuns` | src/optimizer/planner.cpp:349-546 | the plan of a query with explicit joins runs to its end if and only if nothing is thrown and no table that loses all its rows to its filter meets rows to be joined with; then it yields the answer |
| `QueryRuns.PrefixYields` | src/optimizer/planner.cpp:515-543 | when same-table comparisons are on the first table: there are rows to be joined with just when the product of the tables before, filtered by the conditions due there, has one |
| `QueryRuns.AnswerRuns` | src/optimizer/planner.cpp:349-546 | a query with an answer never meets a null |
| `QueryRuns.NullBelowJoin` | src/execution/executor_nestedloop_join.h:52-82 | a query without an answer whose plan does |
| `IndexedQueries.IndexScanYields` | src/execution/executor_index_scan.h:139-367 | a run of the index scan that does not throw yields the rows its scan in the plan stands for |
| `IndexedQueries.TreeFails` | src/execution/executor_nestedloop_join.h:52-95 | a left-deep tree with parts that throw when started runs as if none threw, unless one is started |
| `IndexedQueries.OneRelFails` | src/optimizer/planner.cpp:548-662 | such a part is started if and only if it is the first, or some row of the product of the tables before it passes the conditions due there |
| `IndexedQueries.ThrowingScanKeepsNothing` | src/execution/executor_index_scan.h:288-316 | an index scan throws only when no row of its table passes |
| `IndexedQueries.OneRelThroughIndexes` | src/optimizer/planner.cpp:548-662 | the plan of a query without explicit joins, scanned through indexes, runs to its end if and only if no row gets to a misplaced comparison and no index scan that throws is started; then it yields the answer; a query with an answer starts none |
| `UndoLogs.ReconstructTuple` | src/execution/execution_common.cpp:26-87 | no record exactly when the base or a log is marked deleted, else each column has the value of the last log in the list that has it |
| `UndoLogs.LogAll` | src/execution/executor_update.h:212-223 | the log of an update leads back from any new version to the one it replaces |
| `UndoLogs.VersionedTuple.Update` | src/execution/executor_update.h:212-276 | the new version in front of the old ones: a column has the value of the last SET clause for it, and its old value without one |
| `UndoLogs.VersionedTuple.ReadVersion` | src/execution/execution_common.cpp:26-87 | after any updates, going back over the k newest logs gives the version before the oldest of them |
| `UndoLogs.ColumnOfVersion` | src/execution/execution_common.cpp:48-84 | the same column by column, for logs that record only what changed |
| `Mvcc.StepKeeps` | src/record/rm_file_handle.cpp:1000-1154 | every enabled step, whatever the guard was asked, keeps the stamps telling who wrote each record last, and the committed writes of a record in turn but for late ones |
| `Mvcc.RunKeeps` | src/transaction/transaction_manager.cpp:24-330 | so does every run from an unused database, without any hypothesis |
| `Mvcc.LostUpdateExactly` | src/execution/executor_update.h:180-246 | for every run: two transactions that overlap in time have both committed a write to the same record if and only if some transaction has committed for which the guard was misled, that is, passed a write after asking an aborted snapshot about a stamp from after the writer began |
| `Mvcc.LostIsLate` | src/execution/executor_update.h:180-246 | in terms of a state: if and only if some committed transaction wrote a record whose stamp was not from before it began |
| `Mvcc.LateIsMisled` | src/record/rm_file_handle.cpp:1000-1154 | a transaction that was not aborted has done that if and only if the guard was misled about one of its writes |
| `Mvcc.NoLostUpdate` | src/execution/executor_update.h:180-246 | for two transactions and one record: if the guard was not misled about their writes to it, they did not overlap |
| `Mvcc.MisledLoses` | src/record/rm_file_handle.cpp:1000-1154 | in every reachable state, if a write passes a misled guard, the commit that may follow at once overlaps with another committed writer of the record |
| `Mvcc.GuardPassed` | src/record/rm_file_handle.cpp:1000-1154 | what the guard has made sure of when it lets a write pass: the writer has the record or nobody has it, and the stamp is from after the writer began exactly when the guard was misled |
| `Mvcc.GuardMisses` | src/record/rm_file_handle.cpp:1000-1154 | in every reachable state the guard lets a contended write pass if and only if it is misled, or the writer has the record already and wrote it late |
| `Mvcc.RuleIsExact` | src/execution/execution_common.cpp:96-126 | in every reachable state the rule refuses exactly the contended writes to records the writer does not have yet and those to a record whose stamp an active snapshot borrowed |
| `Mvcc.GuardRefuses` | src/record/rm_file_handle.cpp:1000-1154 | the guard refuses a write nobody competes for if and only if it asks a read-only snapshot with the stamp of the record that is still in progress, or committed after the writer began and shares its stamp with no aborted transaction |
| `Mvcc.GuardIsExact` | src/record/rm_file_handle.cpp:1000-1154 | both directions in one: exactly which writes the guard refuses, in every reachable state |
| `Mvcc.GuardIsRule` | src/execution/execution_common.cpp:96-126 | exactly when guard and rule agree; they always do when no snapshot has the stamp of the record |
| `Mvcc.UndoneStamp` | src/transaction/transaction_manager.cpp:203-317 | an abort gives each record of the write set the stamp it had before the first write |
| `Mvcc.SnapshotBlocksWriter` | src/transaction/transaction_manager.cpp:682-730 | in a reachable state a read-only snapshot makes guard and rule refuse a write nobody competes for |
| `Mvcc.BorrowedStampRun` | src/transaction/transaction_manager.cpp:682-730 | the run that leads there |
| `Mvcc.CommittedSnapshotBlocksWriter` | src/rmdb.cpp:256-260 | in another reachable state the snapshot has committed, the rule would let the write pass, and the guard refuses it |
| `Mvcc.CommittedSnapshotRun` | src/rmdb.cpp:256-260 | the run that leads there: the commit after a single statement |
| `Mvcc.MisledRun` | src/transaction/transaction_manager.cpp:682-730 | a run after which the guard can ask an aborted snapshot |
| `Mvcc.LostUpdate` | src/record/rm_file_handle.cpp:1000-1154 | an instance: from there two overlapping transactions commit writes to one record |
| `IxFileHdr.Serialize` | src/index/ix_defs.h:52-89 | the bytes written are the fields in order, and the final offset is tot_len_ |
| `IxFileHdr.LowestFirst` | src/index/ix_defs.h:58-89 | a number is written with its lowest byte first |
| `IxFileHdr.BytesRead` | src/index/ix_defs.h:93-135 | and the number read from four bytes has those bytes |
| `IxFileHdr.Deserialize` | src/index/ix_defs.h:91-129 | reads back any header that was written, with the final offset equal to tot_len_ |
| `IxFileHdr.WriteAndRead` | src/index/ix_defs.h:58-129 | writing and reading gives the same header, for any number of columns |
| `IxFileHdr.SlotsFit` | src/index/ix_manager.h:73-79 | every accepted key length gives a branching factor above 2; keys and rids fit the page, and one more pair would not |
| `IxFileHdr.NodeSizes` | src/index/ix_manager.h:70-79 | the branching factor lies between 7 and 452 for every accepted key length, and is 339 for one INT column |
| `IxFileHdr.ExtraChildFits` | src/index/ix_manager.h:73-79 | the slot for the extra child of a full internal node is inside the page if and only if the division leaves at least eight bytes |
| `IxFileHdr.IntKeyHasNoExtraChild` | src/index/ix_manager.h:73-79 | for an index on one INT column it is not |

## Left out

Parts of the repository that are not modelled:

- Deletion from the index and everything it calls (coalesce, redistribute, adjust_root, erase_leaf): the code mixes two
  page layouts there, with the separator indices off by one.
- The buffer pool, pins, latches, disk reads and writes. `new_page` gives a page number that is not in use.
- The leaf page number that insert_entry returns, and allocation of key buffers.
- Split's branch for a leaf without a successor is kept in the model, but is never taken: the last leaf's successor is the
  header page.
- Floating-point columns in conditions and joins, where the executors compare with an epsilon, which is not an order. In the
  index floats are compared exactly, and so they are in the model, as reals.
- CHAR columns: strings are their bytes before the first NUL; padding and trimming are not modelled.
- In the scan model columns are 32-bit integers; conversion of literals to the column type happens before it.
- get_record_mvcc: which version a scan sees. A scan here sees a fixed table.
- Deleted tuples at old snapshots: ReconstructTuple hides every version of a tuple whose base is deleted.
- The record an update starts from is taken to be the current version; index maintenance of updates and the locks between the
  check and the write are not modelled, so a guarded write is one step.
- Garbage collection of transactions, the watermark, version links, logging and recovery.
- AVG, HAVING, ORDER BY in aggregation, string MAX and MIN; overflow of the row count.
- Table aliases, semi-join planning, sort plans, and the choice between index scan and sequential scan in join plans: a scan
  in a plan denotes the rows of its table that pass, in the order of the table.
- The order of columns in a joined row: plan rows are maps from columns to values.
- The projection at the root of a plan with its limit, which is not part of the trees modelled.
- The header of an index with so many columns that it does not fit the buffer it is written to.
- The input of an iterator is a cursor over a fixed list of rows that can be restarted.

Contracts weaker than what one might ask for:

- IxIndex.IxIndexHandle.InsertAll: says nothing about rows with repeated keys, for which InsertEntry says what each insertion does.
- IndexScan.IndexScanExecutor.Run: for unsound shapes of conditions the records depend on uninitialised memory, and the
  contract only says that they are those of some content of it.
- IndexedQueries.OneRelThroughIndexes: is about index scans whose conditions are of a sound shape.
- KeyRange.RangeTakesInAll: leaves out rows with a value at the very end of the 32-bit range, for which leftovers cannot hide the row.
