# LSM key/value store: a Dafny model

This project models the core of a small log-structured merge (LSM) key/value store written in C. Keys are integers and values are strings.

A user submission is appended to a write-ahead log and then applied to the **memtable**. The memtable is a binary search tree held in memory. Once it has counted `MAX_KEYS_IN_TREE` keys it is written out, in key order, to a new **segment** file. A chained **hash index** is then pointed from each of its keys to that file, and the memtable is cleared. When every segment slot is taken, the segments are first **compacted** into one file by a two-way merge.

The project has one module per part of the program:

| file | module | models |
|---|---|---|
| `common.dfy` | `Common` | records, the constants of `src/lsm_tree.h`, `src/memtable.h` and `memtable.h`, and a sequence of records read as a map |
| `tree.dfy` | `Tree` | the heap node `MNode`; `GTree`, a ghost mirror of the node graph; the pure BST operations with their key, map and ordering lemmas |
| `memtable.dfy` | `Memtable` | `memtable.c` as a class over heap nodes: insert, search, soft and hard delete, clear |
| `index.dfy` | `Index` | `src/index.c` as a class over an array of chains, refined to the map `M` |
| `segment.dfy` | `Segment` | `src/segment.c`: the `key,value` line format, the in-order dump of the tree, `fgets`, and newline stripping |
| `compaction.dfy` | `Compaction` | `lsm_tree.c`, the earlier engine: the streaming merge, the compaction fold, and `run_compaction` over an array of segment slots |
| `engine.dfy` | `Engine` | `src/lsm_tree.c`: submission handling, flush and compaction, and index-assisted and linear search over a map from file names to lines |

A few modelling choices run through the whole project:

- The memtable's nodes are heap objects updated in place.
  - Each method is proved against a ghost `GTree` that mirrors the node graph. `Agree` ties the two together.
  - `Memtable.Contents()` is the key/value map the tree holds.
- The index is an `array<seq<Record>>` of chains. `Index.M` is the map those chains denote, and `positionsFilled` is proved to be the number of non-empty buckets. That holds for the intended removal; `index_remove` as written never updates the counter (see Findings).
- Segment files are sequences of lines. The engine's file system is a map `Disk` from file names to lines.
  - The names come from the clock and a random digit, so they are method parameters.
- The store's state is summarised as `LsmTree.Contents()`: the newest segment overrides older ones, and the memtable overrides the segments.
  - The write-ahead log is a ghost sequence `wal` of submissions.

## Model

| member | source | states |
|---|---|---|
| `Tree.InsertGKeys` | memtable.c:50-69 | inserting keeps BST order, adds the key to the key set, and grows the tree by one node exactly when the key was absent |
| `Tree.InsertGMap` | memtable.c:53-67 | after inserting, the tree's map is the old map updated at the key |
| `Tree.InsertGNodes` | memtable.c:56-67 | inserting adds at most the one new node and keeps the root |
| `Tree.UpdateGKeys` | memtable.c:136-138 | overwriting a node's data changes no key and keeps BST order |
| `Tree.UpdateGMap` | memtable.c:136-138 | overwriting the data of a present key updates the map at that key only |
| `Tree.UpdateGSize` | memtable.c:136-138 | overwriting data adds no node |
| `Tree.FindCorrect` | memtable.c:76-92 | the BST search finds a node iff the key is in the map, and that node carries the key's value |
| `Tree.LeftmostIsMin` | memtable.c:187-195 | the leftmost node of a subtree holds its least key (the in-order successor used by hard delete) |
| `Tree.RemoveMinMap` | memtable.c:197-202 | splicing out the leftmost node removes exactly its key from the map |
| `Tree.DeleteRootKeys` | memtable.c:142-206 | deleting a subtree's root keeps BST order and removes exactly that key |
| `Tree.DeleteRootMap` | memtable.c:142-206 | deleting a subtree's root removes exactly its binding, in all four cases |
| `Tree.HardDeleteGKeys` | memtable.c:123-135 | the intended hard delete keeps BST order and removes exactly the key |
| `Tree.HardDeleteGMap` | memtable.c:123-135 | the intended hard delete removes exactly the key's binding and nothing else |
| `Tree.HardDeleteGNodes` | memtable.c:142-206 | hard delete allocates no node |
| `Tree.HardDeleteAsWrittenDropsTable` | memtable.c:131-135 | as written, hard-deleting a root with two children empties a three-key table; the intended delete keeps the other two keys |
| `Tree.InOrderKeys` | src/segment.c:44-52 | the in-order walk has one record per node, in strictly ascending key order, with the tree's key set |
| `Tree.InOrderMap` | src/segment.c:44-52 | the in-order walk, read as a map, is the tree's map |
| `Memtable.Memtable.constructor` | memtable.c:18-29 | a new memtable has no root, a zero count and an empty map |
| `Memtable.Memtable.Insert` | memtable.c:33-46 | insert updates the map at the key, adds a node iff the key was absent, and leaves `countKeys` to the caller |
| `Memtable.DoInsert` | memtable.c:50-69 | the recursive insert rewires the heap to the pure insert of the ghost tree |
| `Memtable.Memtable.Search` | memtable.c:72-74 | on a non-empty table, search returns a node iff the key is present, and that node holds the key's value |
| `Memtable.DoSearch` | memtable.c:76-92 | the recursive search returns the node the pure search finds |
| `Memtable.Memtable.Delete` | memtable.c:98-140 | an absent key is inserted with the delete marker and counted; a soft delete overwrites with the marker; a hard delete follows the code as written; `countKeys` is unchanged unless the key was absent |
| `Memtable.Memtable.FindForDelete` | memtable.c:99-113 | the descent stops at the key's node, or at null iff the key is absent, and reports the parent and the side |
| `Memtable.Memtable.SoftDeleteFound` | memtable.c:136-138 | soft delete overwrites only the found node's data with the marker |
| `Memtable.Memtable.HardDeleteFound` | memtable.c:123-135 | the hard-delete branch gives the as-written result, including the empty table for a two-child root |
| `Memtable.DoHardDelete` | memtable.c:142-206 | deleting a node replaces its subtree by the subtree without its root; a new root is reported only for a root with fewer than two children |
| `Memtable.SpliceOut` | memtable.c:147-181 | a node with at most one child is replaced in its parent by that child |
| `Memtable.FindSuccessor` | memtable.c:187-195 | the loop reaches the leftmost node of the right subtree and its parent, and reports the side |
| `Memtable.MarkNode` | memtable.c:136-138 | writing the marker into the found node keeps the heap in step with the ghost tree relabelled at that node |
| `Memtable.CopySuccessor` | memtable.c:196-198 | the successor's key and data are copied into the node being deleted |
| `Memtable.Memtable.Clear` | memtable.c:284-288 | clearing leaves no root, a zero count and an empty map |
| `Index.CRem` | src/index.c:128-133 | C's `%` truncates toward zero: the remainder has the dividend's sign and lies strictly between -m and m |
| `Index.Hash` | src/index.c:128-133 | for m > 0 the hash lies in [0, m) and equals \|key\| mod m |
| `Index.Index.constructor` | src/index.c:8-30 | a new index has the given capacity, no filled position, every bucket empty and an empty map |
| `Index.Index.Insert` | src/index.c:34-72 | insert binds the key in the map and touches only its bucket; a present key keeps chain lengths and the filled count, and an absent key is prepended, with the filled count up by one iff the bucket was empty |
| `Index.Index.Overwrite` | src/index.c:40-50 | the first entry with the key gets the new value; the chains and the filled count are unchanged |
| `Index.Index.Prepend` | src/index.c:52-71 | a new entry heads the key's bucket, and the filled count grows iff that bucket was empty |
| `Index.Index.Lookup` | src/index.c:76-90 | lookup returns the key's value from the map, and none for an absent key |
| `Index.Index.Remove` | src/index.c:92-115 | removing an absent key returns -1 and changes nothing; removing a present key returns 0 and removes exactly that binding (the intended relinking) |
| `Index.Index.Unlink` | src/index.c:99-105 | the intended relinking drops exactly the found entry from its chain |
| `Index.Index.IsFull` | src/index.c:117-124 | the index is full iff every bucket is non-empty, which is when the filled count equals the capacity |
| `Index.LoadWarningNeverFires` | src/index.c:120-122 | integer division makes the load-factor warning unreachable while the filled count is at most the capacity |
| `Index.RemoveAsWritten` | src/index.c:92-115 | the as-written removal reports a missing key exactly when the chain lacks it |
| `Index.RemoveAsWrittenKeepsCount` | src/index.c:92-115 | as written, removing the only entry of a bucket empties it, so the number of non-empty buckets drops by one while `positions_filled` is left as it was |
| `Index.RemoveAsWrittenLosesEntries` | src/index.c:99-105 | as written, removing the third entry of a chain drops the first, and removing the head dereferences null |
| `Index.FilledUpdate` | src/index.c:68-70 | replacing one bucket changes the number of non-empty buckets by that bucket's change only |
| `Segment.AtoiDecimal` | lsm_tree.c:185-186 | `atoi`, which skips leading white space and reads an optional sign and the leading digits, recovers every integer from its decimal text |
| `Segment.LineRoundTrip` | lsm_tree.c:185-186 | reading a written line the way the merge does (`strtok` then `atoi`) recovers the key; the merge's `strtok` cuts off the value, and the whole record is recovered by the model's own reader `ParseLine` |
| `Segment.LinesRoundTrip` | src/segment.c:50 | parsing the written lines gives back the records |
| `Segment.InorderToFile` | src/segment.c:44-52 | the dump of the tree at a root is one `key,value` line per node in in-order, and no line for a null root |
| `Segment.FlushedSegment` | src/segment.c:44-52 | a dumped BST has one line per node, with strictly ascending keys, and reads back as the tree's records and map |
| `Segment.FgetsLen` | src/segment.c:57 | `fgets` takes at most room characters, stops after the first newline and takes something from non-empty input |
| `Segment.Fgets` | src/segment.c:57 | `fgets` writes the characters it takes and a terminator, and fails iff the input is empty |
| `Segment.StrChr` | src/segment.c:61 | `strchr` finds the first occurrence before the terminator, or reports none |
| `Segment.ReadlineFromSegment` | src/segment.c:56-65 | the buffer holds the `fgets` result, with its first newline cut when asked |
| `Segment.CutNewlineString` | src/segment.c:59-63 | cutting keeps the prefix before the first newline and leaves no newline; a string without one is unchanged |
| `Segment.ReadWrittenLine` | src/segment.c:56-65 | reading back a line written by the dump, with the newline cut, gives exactly the text before it |
| `Compaction.MergeKeys` | lsm_tree.c:162-201 | the merged key set is the union of the inputs' key sets, and every output record comes from an input |
| `Compaction.MergeAscending` | lsm_tree.c:162-201 | merging strictly ascending inputs gives a strictly ascending output |
| `Compaction.MergeMap` | lsm_tree.c:182-190 | for sorted inputs the merged map is the older map overridden by the newer one |
| `Compaction.MergeStep` | lsm_tree.c:187-199 | a step emits the smaller head and advances only its cursor; on a tie one record is emitted and both cursors advance |
| `Compaction.MergeAsWrittenKeepsOlder` | lsm_tree.c:187-190 | as written, a tie keeps the older segment's record |
| `Compaction.MergeAsWrittenRemainder` | lsm_tree.c:176 | as written, when the second input runs out first, its stale line is written again and the first input's pending line is lost |
| `Compaction.MergeAsWrittenEmpty` | lsm_tree.c:173-180 | as written, an empty first input makes the merge write the uninitialised first buffer |
| `Compaction.MergeFiles` | lsm_tree.c:145-208 | the streaming merge loop computes the intended merge of the two files |
| `Compaction.CompareLines` | lsm_tree.c:185-199 | comparing the two heads emits one record, advances at least one cursor, and leaves the rest of the merge to do |
| `Compaction.NextLine` | lsm_tree.c:163-168 | a cursor that advances reads the next line; one that does not keeps its buffered line |
| `Compaction.CopyRest` | lsm_tree.c:177-179 | the remainder loop copies the pending line and then the rest of the stream, in order |
| `Compaction.CompactedProperties` | lsm_tree.c:124-139 | the left fold of merges over sorted segments is sorted, and its map is the segments' maps overlaid oldest to newest |
| `Compaction.Compact` | lsm_tree.c:114-140 | compact returns nothing for a missing list or fewer than two segments, and otherwise the left fold of merges in list order |
| `Compaction.EmptySlotsFrom` | lsm_tree.c:93-96 | every slot from the given one on is emptied and the earlier slots are kept |
| `Compaction.InitSegments` | lsm_tree.c:210-220 | a new segment list has `MAX_SEGMENTS` empty slots |
| `Compaction.LegacyTree.constructor` | lsm_tree.c:14-38 | a new store has empty slots, no segments and an empty memtable |
| `Compaction.LegacyTree.RunCompaction` | lsm_tree.c:78-112 | nothing changes unless the memtable count is at its maximum; otherwise the store compacts when every slot is taken, appends the memtable's records as the next segment, clears the memtable, and the stored map becomes the old one overridden by the memtable's |
| `Compaction.LegacyTree.CompactSlots` | lsm_tree.c:84-98 | compaction leaves one segment, the merge of the two, in slot 0 and keeps the stored map |
| `Compaction.LegacyTree.FlushMemtable` | lsm_tree.c:100-109 | the memtable's records become the next segment, earlier slots are kept, the memtable is cleared, and the stored map is the old one overridden by the memtable's |
| `Engine.SlotsAppend` | src/lsm_tree.c:233-235 | appending a sorted file at slot `fullSegments` keeps the slot invariant and, for a fresh name, appends its records to the files |
| `Engine.SlotsCompacted` | src/lsm_tree.c:201-212 | replacing the segments by their compacted file keeps the slot invariant and the overlaid map |
| `Engine.SlotsFlushed` | src/lsm_tree.c:233-235 | appending the dumped memtable keeps the slot invariant and, for a fresh name, overlays the memtable's map on the segments |
| `Engine.CompactionOrphans` | src/lsm_tree.c:208-212 | an index entry that points at a compacted-away file finds nothing, because compaction leaves the index untouched; this holds with file names as values (see "## Left out" on the freed names) |
| `Engine.NewestHitOverlay` | src/lsm_tree.c:250-267 | scanning sorted segments from newest to oldest finds a key iff the overlaid map has it, with its newest value |
| `Engine.FlushedFound` | src/lsm_tree.c:285-299 | a key of the flushed memtable that the index points at the new file is found there with its memtable value |
| `Engine.AddKeyToIndex` | src/lsm_tree.c:289-299 | the preorder walk points every key of the subtree at the file and changes no other entry |
| `Engine.LsmTree.constructor` | src/lsm_tree.c:23-67 | a new store has an empty memtable, no segments, an empty index and an empty log |
| `Engine.LsmTree.HandleSubmission` | src/lsm_tree.c:71-116 | a failed log write dies without applying anything; otherwise the submission is logged before it is applied, ADD of the tombstone and EXIT fail without effect, and the store's map becomes the submission applied to it. SEARCH returns the memtable's value, or else what the index points at. When the action leaves the count below `MAX_KEYS_IN_TREE`, the slots, the files and the index are unchanged. When it reaches the maximum, the memtable is emptied into a new file holding its map, the index points its keys there, and the file takes the next free slot, after a compaction to one slot when every slot is taken. Every other file is unchanged, except that a compaction removes the files its slots named and writes the compacted records under its own name |
| `Engine.LsmTree.ExecuteAction` | src/lsm_tree.c:119-167 | ADD binds and counts the key even on overwrite, ADD of the tombstone and EXIT return -1 and change nothing, DELETE writes the tombstone without removing a node, SEARCH reads the memtable and then the index, and PRINT changes nothing. FLUSH's write of `memtable.txt` is omitted, so FLUSH too leaves the model's state unchanged |
| `Engine.LsmTree.AddToMemtable` | src/lsm_tree.c:120-131 | a successful ADD updates the memtable and the store's map at the key and counts one more key |
| `Engine.LsmTree.DeleteInMemtable` | src/lsm_tree.c:149-155 | DELETE binds the tombstone, adds a node only for an absent key, and counts only an absent key |
| `Engine.LsmTree.SearchStore` | src/lsm_tree.c:133-147 | SEARCH returns the memtable's value when the key is there, and otherwise only what the index points at, with no linear fallback |
| `Engine.LsmTree.FlushFull` | src/lsm_tree.c:91-114 | a full memtable is flushed, after a compaction when every slot is taken; the count drops to zero, the index points its keys at the new file, and the store's map is kept. Compaction runs iff every slot is taken: then the slots become the compacted file and the new one, and the input files are replaced by the compacted file; otherwise the new file takes the next free slot. The new file holds exactly the memtable's map |
| `Engine.LsmTree.FlushMemtable` | src/lsm_tree.c:100-113 | the flush appends one segment holding the dumped memtable, points each of its keys at it, clears the memtable, and makes each flushed key findable through the index |
| `Engine.LsmTree.RunCompaction` | src/lsm_tree.c:192-215 | compaction deletes the old segment files, writes their merge under the new name, leaves exactly one segment, and keeps the overlaid map, the memtable and the index |
| `Engine.LsmTree.SendMemtableToSegment` | src/lsm_tree.c:220-237 | the dumped memtable is written under the new name at slot `fullSegments`, which grows by one |
| `Engine.LsmTree.UpdateIndex` | src/lsm_tree.c:285-287 | every memtable key is pointed at the file and no other index entry changes |
| `Engine.LsmTree.SearchWithIndex` | src/lsm_tree.c:240-246 | without an index entry the result is none; otherwise it is the key's value in the file the index names |
| `Engine.LsmTree.LinearSearch` | src/lsm_tree.c:250-267 | the scan returns the newest segment's value for the key, which is its value in the overlaid segments, and none without segments |

## Left out

- The write-ahead log's file format, its timestamps and `fflush` (`src/wal.c`) are not modelled. The log is a ghost sequence of submissions, and whether the write fails is a parameter of `HandleSubmission`.
- Segment and compaction file names come from `time(NULL)` and `rand()`. They are parameters.
- Engine.LsmTree.HandleSubmission: the store's map after a flush is stated only when the new segment name is not already a file and differs from the compaction name. A clash of clock-based names would overwrite a file, and the model does not say what the map is then.
- Engine.LsmTree.FlushFull: states the unchanged map only under the same freshness condition on the names.
- Allocation failures are not modelled: `malloc` in `insert`, `index_insert`, `init_*` and name generation always succeeds. The engine's branches that die on a failed compaction, dump or index update are therefore unreachable in the model.
- `src/lsm_tree.c` calls `memtable_insert`, `search_memtable`, `memtable_delete` and `memtable_is_full`. No file of the program declares or defines them; `src/memtable.h:23-31` declares `is_full`, `insert`, `delete` and `search` instead. They are modelled by `insert`, `search` and `delete` of `memtable.c`. The table is full when `count_keys` equals `MAX_KEYS_IN_TREE`. `DEL_MARKER` and `TOMBSTONE` are the same string.
- `search_memtable` on an empty table is modelled as a miss. The `search` of `memtable.c` requires a root.
- `compact_segments` and `search_segment` are not part of this model.
  - `compact_segments` is modelled as the left fold of the intended merge, deleting its input files.
  - Whether it drops tombstones is unknown. The model keeps them.
  - `search_segment` is modelled as the first line of the file with the key.
- `memtable_to_segment` is defined in `src/segment.c:20` with one argument and returns a name. `src/segment.h:21` declares it with two arguments and an `int` result, which the call at `src/lsm_tree.c:227` matches. The model writes the in-order dump to the name it is given.
- `init_lsm_tree` tests `wal` instead of `index` after `init_index` (`src/lsm_tree.c:52`). The model's index allocation cannot fail, so the slip has no effect there.
- Compaction.MergeFiles: models the merge at record level.
  - The `strtok` calls at `lsm_tree.c:185-186` overwrite the comma of both buffers with a terminator, so the lines written afterwards lose their values. The model writes whole records.
  - The merge's new file name and the file handling are left out.
- SEARCH prints the value it finds. The model returns it as `found`. PRINT_MEMTABLE only prints, so the model changes nothing for it.
- Engine.LsmTree.ExecuteAction: FLUSH calls `serialize_memtable` (`src/lsm_tree.c:157`), which writes the memtable to the file `memtable.txt`. The store never reads that file back. `serialize_memtable` is not part of this model, and the model omits the write, so its FLUSH branch leaves `disk` unchanged.
- Engine.LsmTree.HandleSubmission: because FLUSH's write of `memtable.txt` is omitted, the clause saying the files are unchanged below `MAX_KEYS_IN_TREE` does not hold for that one file after a FLUSH.
- The failure results of the recursive `add_key_to_index` calls are ignored by the source. The model's index insert cannot fail.
- Printing, `show_status`, `print_active_segments`, the traversal printers and `shutdown_lsm_system` are left out, as are the interactive menu and the exit plumbing.
- Compaction.LegacyTree.constructor: `init_lsm_tree` of the earlier engine (`lsm_tree.c:14-38`) allocates a `Binary_Tree` memtable and never initialises it. `Binary_Tree` has no `count_keys`, though `run_compaction` reads one at `lsm_tree.c:81`. The model puts the zeroed `Memtable` of `memtable.c` in its place. `tree_to_sorted_strings_table` and `clear_tree` are not part of this model; they are modelled as the in-order records of the memtable and its clear.
- Compaction.Compact: folds the intended merge. With `merge_files` as written (see Findings) the result can repeat or lose records, so its properties hold only for the corrected program.
- Compaction.CompactedProperties: states sortedness and the overlaid map for the fold of the intended merge, not of `merge_files` as written.
- Compaction.LegacyTree.RunCompaction: the kept stored map relies on the intended merge; as written, compaction can lose or duplicate records and keep older values.
- Compaction.LegacyTree.CompactSlots: the same holds; slot 0 receives the intended merge of the two segments.
- Engine.LsmTree.RunCompaction: `compact_segments` is not part of this model, and the merge it performs is taken to be the intended one.
- The draft files `binary_tree.c`, `two_three_tree.c`, `balanced_binary_tree.c` and `custom_io.c` are not part of this model. Neither is the `strlen` allocation in the memtable's node creation.
- Keys are unbounded integers. `int` overflow in `atoi` is not modelled.
- Engine.CompactionOrphans: file names are values in the model. In the source, `index_insert` keeps the name pointer itself (`src/index.c:45`, `src/index.c:58`), which is the string held in the slot list (`src/lsm_tree.c:234`). `run_compaction` then calls `free_segment_list` on that list (`src/lsm_tree.c:209`). If that function frees the names, as the earlier engine's `free_segments` does (`lsm_tree.c:222-229`), stale index entries point at freed memory, and `lsm_tree_search_with_index` hands it to `search_segment`. `free_segment_list` is not part of this model. The model's clean miss on a deleted file describes the program only under names-as-values.

## Findings

| source | as written | input that shows it | evidently intended | confidence | as-written member | corrected member |
|---|---|---|---|---|---|---|
| lsm_tree.c:187-190 | on equal keys the merge writes segment a's line, which is the older one | a = [(1, "old")], b = [(1, "new")] merges to [(1, "old")] | the newer segment b wins, as the comment at lines 182-184 says | not executed | `Compaction.MergeAsWrittenKeepsOlder` | `Compaction.MergeMap` |
| lsm_tree.c:176 | when one input runs out, the remainder loop picks the buffer of the exhausted input | a = [(1, "x"), (3, "z")], b = [(2, "y")] merges to [(1, "x"), (2, "y"), (2, "y")] | the pending line of the remaining input is written, giving [(1, "x"), (2, "y"), (3, "z")] | not executed | `Compaction.MergeAsWrittenRemainder` | `Compaction.MergeFiles` |
| src/index.c:99-105 | removal cuts the chain after the predecessor and makes the predecessor the bucket's head; at the head of a chain it writes through a null `trail` | bucket 1 holding keys 1, 92, 183 (capacity 91): removing 183 loses key 1, and removing 1 dereferences null | unlink exactly the found entry | not executed | `Index.RemoveAsWrittenLosesEntries` | `Index.Index.Remove` |
| src/index.c:92-115 | `index_remove` never updates `positions_filled` | a bucket holding only key 5: removing 5 empties the bucket, but the counter still counts it | decrement the counter when the bucket becomes empty, so that it stays the number of non-empty buckets that `index_is_full` relies on | not executed | `Index.RemoveAsWrittenKeepsCount` | `Index.Index.Remove` |
| memtable.c:131-135 | hard-deleting a root with two children copies the successor into the root, but `new_root` stays null and `parent` is null, so the root is set to null | root 2 with children 1 and 3: hard delete of 2 leaves an empty table | only key 2 is removed, leaving keys 1 and 3 | not executed | `Tree.HardDeleteAsWrittenDropsTable` | `Tree.HardDeleteGMap` |
