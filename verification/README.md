# A verified model of the flash file system's storage engine

The project models the storage engine of a user-space flash file system and three data structures it is built
from, and proves what they are for. Each component is stated against something simpler:

| component | files | what it refines |
|---|---|---|
| Huffman coder | `HuffmanOptimality`, `PrefixCodes`, `HuffmanForest`, `Huffman`, `HuffmanTable`, `HuffmanCodec` | the cheapest prefix-free code, and a text that comes back |
| LRU cache | `LruCache` (modules `Recency`, `LruCache`) | a list of pairs, most recently used first |
| LSM tree | `SstRecord`, `Flash`, `BlockParser`, `Memtable`, `TableWriter`, `SstableManager`, `LsmTree` | the replay of all writes |
| data objects | `BlockTable`, `Extents`, `ExtentCuts`, `ExtentDeletes`, `EntryLists`, `ObjectAccounts`, `PageRuns`, `Overwriting`, `Deleting`, `Reading`, `MendedDelete`, `Frontiers`, `KvManager`, `FileRuns` | a flat byte sequence per file, with exact page accounts |
| garbage collector | `GcMoves`, `GcPlan`, `GcObjects`, `GcManager`, `KvManager`, `GcHazards` | no file changes |
| similarity graph | `Graph` (modules `Hamming`, `GraphValues`), `GraphQuery`, `SimilarityGraph` | a symmetric distance graph and its walks |
| directories | `DirectoryRecords`, `Directory`, `DirectoryRuns` | a map from names to inode numbers |

`Prelude` holds what they share.

Objects that the program updates in place are classes; every method is proved against a function of the old
state, and what the program promises is then proved about that function. `dafny verify dfyconfig.toml` checks
the whole project.

The page accounts (`Extents.Consistent`) say that exactly the pages from a block's frontier on are clean, that every
extent of every file lies on busy pages of its own inside one block, that no two extents share a page, and that
every busy page belongs to an extent; so frontiers and extents tell the state of every page (`Extents.PageStates`).
`KVManager.Valid` adds that the accounts are those of the stored objects and that every object's extents tile it.

Where pages come from is told on the frontiers alone: `Frontiers.Take` takes them from the first block that has them
(`Frontiers.TakeFirst`, `Frontiers.TakeNone`). Every operation of the manager goes through exactly if what it takes
in turn can be taken, and leaves exactly the frontiers that gives. So runs from an empty table start from what the
constructor promises and need no assumption about what happens on the way (`FileRuns.RunFiles`,
`DirectoryRuns.LookupAfter`).

## Findings

Properties that are false of the code as written. Each has the exact condition under which it holds, for all
inputs, and an input for which it fails.

- Range read: the first slice is capped by the length of its extent instead of by what is left of it
  (`server-fs/src/kv/kv_manager.rs:88-89`). `KVManager.Get` succeeds on a range inside a file if and only if the
  range begins on an extent boundary or ends in the extent it begins in (`Readable`), and panics otherwise;
  `Reading.CrossingReadFails` gives a range. Capped by the bytes left, every range is read right
  (`KVManager.ReadRangeCapped`).
- Range delete: a shortened extent keeps its archived length, and the piece kept behind the range keeps its old
  offset (`server-fs/src/kv/kv_manager.rs:419` and `466`). `KVManager.Delete` leaves a tiling if and only if the
  range begins and ends on extent boundaries, and reads right if and only if it begins on one;
  `Deleting.MidExtentDeletion` gives ranges. The reported size is always right. With the two fields set every
  range is deleted right, from one end to the other: the file reads as before without the range, no other file
  changes and the accounts stay exact (`MendedDelete.MendedDeletion`, `KVManager.DeleteMended`).
- Collection plan: the page count of a run is not restarted when the owner changes
  (`server-fs/src/kv/gc/gc_manager.rs:78-82`), runs of one file that touch are taken as one, and targets are
  looked up without being reserved (lines 102-105). The plan for a block exists and is well-formed if and only if
  the block is tidy, every extent fits into another block, and first fit sends no two of them to the same place
  (`GcPlan.PlanWellFormed`); `GcPlan.TouchingRunsBreakPlan` and `GcPlan.SharedTargetBreaksPlan` give blocks. Of two
  extents moved to the same pages the first keeps its bytes if and only if the second has the same
  (`GcHazards.LaterMoveWins`), and `GcHazards.SharedTargetLosesBytes` carries out such a plan.
- Collection with an object in hand: set and delete read an object, look for pages, which may collect a block and
  update the stored object, and store back the one they had read (`server-fs/src/kv/kv_manager.rs:138-156`,
  `server-fs/src/kv/kv_helper.rs:43-54`). What is stored back is in order if and only if the object had no extent in
  the collected block (`GcHazards.CollectInHand`); `GcHazards.StaleInput` gives a store for which it had one. In
  between two operations a collection changes no file (`FileRuns.Collect`).
- Empty value: the parser takes a record with an empty value for padding and goes on within its key
  (`server-fs/src/kv/lsm_tree/block_iter.rs:73-76`), so what follows parses as if the key's bytes stood there alone
  (`SstRecord.EmptyValueIsLost`). `SstRecord.RoundTrip` holds for records with neither part empty.
- Flushed tombstone: deletions are turned into absence only while they are in the memtable
  (`server-fs/src/kv/lsm_tree/lsm_tree.rs:33-46`). `LSMTree.Get` gives what a reader should see if and only if
  the key is in the memtable or its last write was not a deletion; `LsmTree.DeletedComesBack` deletes, flushes
  and gets the tombstone.
- End record: a table's end record is not split over pages (`server-fs/src/kv/lsm_tree/sstable_manager.rs:143-146`).
  `TableWriter.WriteTable` goes through if and only if it fits behind the last record (`EofFits`);
  `TableWriter.EndRecordMissing` gives an entry within the memtable's bound for which it does not.
- Decode padding: the padding of the last byte is decoded too (`server-fs/src/compress/huffman.rs:159`, where the
  padding is recorded as 0). `HuffmanCodec.DecodeEncode` gives the text followed by exactly the leftmost symbols
  that fit in the padding, so the text alone if and only if the padding is shorter than the leftmost code;
  `HuffmanCodec.PaddingSpills` decodes one symbol to eight.
- A cache of capacity 0 is unbounded (`Recency.ZeroCapacityGrows`).

## Model

| member | source | states |
|---|---|---|
| Huffman.BuildBitMap | server-fs/src/compress/huffman.rs:31-128 | The table read off the heap tree is prefix-free, its Kraft sum over the symbols is exactly 1, it has a code for exactly the weighted symbols, and no prefix-free code is cheaper |
| Huffman.Build | server-fs/src/compress/huffman.rs:31-70 | Joining the two lightest parentless nodes in place gives a tree with exactly the weighted symbols whose inner weight no prefix-free code undercuts |
| PrefixCodes.KraftEquality | server-fs/src/compress/huffman.rs:107-128 | The codes below any subtree fill the whole Kraft share of the path that leads to it |
| PrefixCodes.CodesPrefixFree | server-fs/src/compress/huffman.rs:107-128 | No code that the depth-first walk records is the start of another |
| HuffmanTable.PrintedTableInverts | server-fs/src/compress/huffman.rs:131-167 | In whatever order a prefix-free table is printed, parsing the text goes through and gives the exact inverse of the code, and no padding |
| HuffmanCodec.Encode | server-fs/src/compress/huffman.rs:206-235 | Packing succeeds if and only if every symbol has a code, and the bytes then hold the codes in a row, zero-padded to a byte |
| HuffmanCodec.DecodeEncode | server-fs/src/compress/huffman.rs:178-204 | Greedy decoding gives the text followed by the leftmost symbols that fit in the padding; the text alone if and only if the padding is shorter than the leftmost code |
| HuffmanCodec.PaddingSpills | server-fs/src/compress/huffman.rs:178-235 | With two symbols, the text "b" is one byte that decodes to "baaaaaaa" |
| HuffmanCodec.HuffmanCodec.constructor | server-fs/src/compress/huffman.rs:155-166 | The codec's table is prefix-free, complete and optimal, and its decode table, built from the printed text, inverts it |
| HuffmanCodec.HuffmanCodec.DecodeBytes | server-fs/src/compress/huffman.rs:178-204 | Whatever text the bytes encode, decoding them gives that text and its spill |
| Recency.EveryRun | server-fs/src/util/lru_cache.rs:59-101 | After any run of gets, puts and removes keys are unique, a positive capacity is kept, the order is that of last use, and every key held has the value last put |
| Recency.ZeroCapacityGrows | server-fs/src/util/lru_cache.rs:72-90 | With capacity 0, n puts of new keys leave n pairs |
| Recency.KeysStep | server-fs/src/util/lru_cache.rs:59-101 | Which keys each operation leaves: a get all of them, a remove all but its key, and a put costs a key only if its own is new and the cache is full, namely that of the last pair |
| Recency.StaysHeld | server-fs/src/util/lru_cache.rs:59-101 | Over any run a key put and not removed since is still held if at all times since fewer other keys than the capacity had been used since its own last use |
| Recency.FewKeysStay | server-fs/src/util/lru_cache.rs:59-101 | A run that puts no more keys than the capacity holds exactly those put and not removed since |
| LruCache.LRUCache.Put | server-fs/src/util/lru_cache.rs:72-90 | Links both ways, ends, map and size agree with the list again, which is the old one with the pair in front; the least recently used key goes exactly if the key is new and the cache holds as many pairs as its capacity, and no other key does |
| LruCache.LRUCache.Get | server-fs/src/util/lru_cache.rs:59-70 | The value of the key if it is held, which then stands in front; the list and its links are otherwise as before, and the same keys are held |
| LruCache.LRUCache.DeleteNode | server-fs/src/util/lru_cache.rs:103-135 | A node anywhere in the list is unlinked and its key leaves the map; the rest keeps its order |
| SstRecord.RoundTrip | server-fs/src/kv/lsm_tree/raw_entry.rs:25-44 | Encoded records with an end record, followed by anything, parse to exactly the records |
| SstRecord.EmptyValueIsLost | server-fs/src/kv/lsm_tree/block_iter.rs:73-76 | A record with an empty value parses as if only its key's bytes stood there, whatever follows |
| BlockParser.ParseBlock | server-fs/src/kv/lsm_tree/block_iter.rs:16-122 | On any page contents the six-state parser ends, and gives what the block's bytes say as one stream, wherever pages cut headers, keys or values |
| Memtable.Memtable.Put | server-fs/src/kv/lsm_tree/memtable.rs:31-41 | The map changes at that key alone, the size stays the sum over the live entries, and the entries stay sorted |
| TableWriter.WriteTable | server-fs/src/kv/lsm_tree/sstable_manager.rs:99-148 | The pages hold header, records and end record in a row and blank behind; it goes through if and only if the end record fits, and no page outside the table changes |
| TableWriter.TableParses | server-fs/src/kv/lsm_tree/sstable_manager.rs:99-148 | A block that holds a table parses to exactly its entries |
| TableWriter.EndRecordMissing | server-fs/src/kv/lsm_tree/sstable_manager.rs:143-146 | One storable entry well within the memtable's bound for which the end record does not fit |
| SstableManager.FileIter.Get | server-fs/src/kv/lsm_tree/file_iter.rs:26-37 | Lookup in a file through cached parses equals lookup in fresh parses of its blocks |
| SstableManager.SSTableManager.Get | server-fs/src/kv/lsm_tree/sstable_manager.rs:80-97 | Newest file first: the lookup in all tables laid over each other |
| SstableManager.SSTableManager.Flush | server-fs/src/kv/lsm_tree/sstable_manager.rs:99-164 | Adds exactly the entries as a new table in a block of its own inside the area and leaves all other blocks alone; it goes through if and only if the end record fits and a block is left |
| SstableManager.SSTableManager.Build | server-fs/src/kv/lsm_tree/sstable_manager.rs:44-78 | After the index was cleared, scanning the page headers restores it exactly as the flushes had left it |
| LsmTree.LSMTree.Put | server-fs/src/kv/lsm_tree/lsm_tree.rs:26-31 | The tree stands for the replay of one write more. If the entries' sizes and the new one's stay within the threshold less 50 it joins the memtable and no table changes; otherwise the old entries become the newest table and it is alone in the memtable, and this fails if and only if the flush cannot go through |
| LsmTree.LSMTree.Get | server-fs/src/kv/lsm_tree/lsm_tree.rs:33-46 | What a reader should see if and only if the key is in the memtable or its last write was not a deletion |
| LsmTree.LSMTree.Delete | server-fs/src/kv/lsm_tree/lsm_tree.rs:48-54 | The same for the tombstone |
| LsmTree.DeletedStaysAway | server-fs/src/kv/lsm_tree/lsm_tree.rs:26-54 | After a deletion and any further writes of other keys that fit the memtable by their sizes, the key is absent |
| LsmTree.SumFits | server-fs/src/kv/lsm_tree/memtable.rs:57-60 | Writes whose sizes together fit the memtable fit one after the other |
| LsmTree.LastWriteWins | server-fs/src/kv/lsm_tree/lsm_tree.rs:26-54 | The replay shows for every key its last write |
| LsmTree.DeletedComesBack | server-fs/src/kv/lsm_tree/lsm_tree.rs:33-54 | A deleted key is absent until the memtable is flushed and then comes back as the tombstone |
| BlockTable.BlockTable.SetPage | server-fs/src/kv/gc/block_table.rs:111-134 | One page's state changes, a busy page moves its block's frontier, and counters and states agree again |
| GcManager.GCManager.FindWritePos | server-fs/src/kv/gc/gc_manager.rs:25-33 | The frontier of the first block, in table order, that has the pages; nothing if and only if no block has them |
| GcManager.GCManager.FindWritePosExcept | server-fs/src/kv/gc/gc_manager.rs:159-167 | The same with one block left out |
| Frontiers.TakeFirst | server-fs/src/kv/gc/gc_manager.rs:25-33 | Pages are taken from the first block that has them, and from no other |
| Frontiers.TakesInTurn | server-fs/src/kv/gc/gc_manager.rs:25-33 | Three requests in a row all go through if and only if each finds a first block after the ones before |
| GcManager.GCManager.ChooseGcBlock | server-fs/src/kv/gc/gc_manager.rs:127-137 | The first of the blocks with the most dirty pages |
| GcManager.GCManager.GenerateGcGroup | server-fs/src/kv/gc/gc_manager.rs:65-125 | The moves planned from the block's page states and the erasure, or nothing where a lookup finds no room |
| GcPlan.PlanWellFormed | server-fs/src/kv/gc/gc_manager.rs:65-125 | There is a plan and it is well-formed if and only if the block is tidy, all its extents fit elsewhere and their first-fit targets differ |
| Frontiers.PiecesSpread | server-fs/src/kv/kv_manager.rs:256-384 | A write of 1, 20 and 20 pages finds them in two blocks with 28 pages each |
| GcPlan.PlanGoesFirst | server-fs/src/kv/gc/gc_manager.rs:102-105 | Every move of a plan goes to the frontier of the first other block that has its pages, in page order; there is no plan if and only if some run has no such block |
| GcPlan.PlanExists | server-fs/src/kv/gc/gc_manager.rs:102-105 | For a tidy block the lookups all succeed if and only if every extent fits into another block |
| GcPlan.SingleExtentPlan | server-fs/src/kv/gc/gc_manager.rs:65-125 | A block with one extent, for which another block has room, gets a well-formed plan |
| GcPlan.FreeBlockPlan | server-fs/src/kv/gc/gc_manager.rs:65-125 | If another block is wholly free every block has a plan |
| GcPlan.TouchingRunsBreakPlan | server-fs/src/kv/gc/gc_manager.rs:78-82 | A block in order that has a plan, which is not well-formed, because a run's page count carries over |
| GcPlan.SharedTargetBreaksPlan | server-fs/src/kv/gc/gc_manager.rs:102-105 | A tidy block whose plan sends two extents to the same pages |
| GcHazards.LaterMoveWins | server-fs/src/kv/kv_helper.rs:97-124 | Of two extents moved to the same pages the later reads as before; the earlier does if and only if the later's pages begin with the same bytes |
| GcHazards.SharedTargetLosesBytes | server-fs/src/kv/gc/gc_manager.rs:102-105 | Carrying out the plan of that block, the first file loses its bytes to the second |
| GcHazards.CollectInHand | server-fs/src/kv/kv_manager.rs:138-156 | An object read, a block collected, the object stored back: the store is in order if and only if the object had no extent in the block, and then no file has changed |
| GcHazards.StaleInput | server-fs/src/kv/kv_manager.rs:138-156 | A store with one file in the block that is collected, for which it had |
| KvManager.KVManager.DisposeGcGroup | server-fs/src/kv/kv_helper.rs:78-137 | A well-formed group leaves every object's bytes, every object without an extent in the block, the accounts and the number of busy pages as they were, and the block clean |
| KvManager.KVManager.constructor | server-fs/src/kv/kv_helper.rs:21-33 | Every page clean, every frontier at its block's start, no object; with at least one block there is room for a whole one |
| KvManager.KVManager.ForwardGc | server-fs/src/kv/kv_helper.rs:56-59 | A collection, where its plan is right, empties the first of the dirtiest blocks, changes no file and touches no object without an extent there |
| KvManager.KVManager.FindWritePos | server-fs/src/kv/kv_helper.rs:43-54 | For up to a block's worth of pages it ends after at most one collection, with clean pages at the frontier of the first block that has them, and no file has changed; where there is room nothing has |
| KvManager.KVManager.AddExtent | server-fs/src/kv/kv_manager.rs:260-282 | Data goes to the frontier of the first block with its pages, which no extent owns, reads back, and everything stored reads as before; it fails if and only if no block has them |
| KvManager.KVManager.SetDataObject | server-fs/src/kv/kv_manager.rs:256-384 | The new extents tile the object, read as the old bytes with the value spliced in, and are exactly the object's pages; an offset past the end changes nothing; it goes through if and only if the value, then the kept front, then the kept tail each find a first block with their pages, and the frontiers are then as these leave them |
| KvManager.KVManager.Set | server-fs/src/kv/kv_manager.rs:137-157 | A file's bytes become the old ones with the value spliced in, every other file keeps object and bytes, and the accounts of the whole store stay exact; it goes through if and only if the value, the kept front and the kept tail in turn find a first block with their pages |
| Overwriting.SetGoesThrough | server-fs/src/kv/kv_manager.rs:256-384 | That condition with the blocks named: each piece's block is the first with its pages after the pieces before |
| Extents.PageStates | server-fs/src/kv/gc/block_table.rs:111-134 | With the accounts in order a page is clean exactly from its block's frontier on, and busy for a file exactly if an extent of the file covers it |
| KvManager.KVManager.SetNoBytes | server-fs/src/kv/kv_manager.rs:149-152 | A set of length 0 behind offset 0 gives all pages of the file back and leaves it empty, and no other file changes |
| KvManager.KVManager.Get | server-fs/src/kv/kv_manager.rs:64-103 | A range of a file: exactly its bytes if it is readable, a panic otherwise; the tail for a range past the end; the whole file for length 0 |
| KvManager.KVManager.ReadRangeCapped | server-fs/src/kv/kv_manager.rs:82-99 | With the first slice capped by the bytes left in its extent every range reads right |
| Reading.CrossingReadFails | server-fs/src/kv/kv_manager.rs:86-89 | A range that begins inside an extent and ends in the next one is not readable |
| KvManager.KVManager.DeleteDataObject | server-fs/src/kv/kv_manager.rs:386-514 | The size is the old one less the overlap; a tiling is left if and only if both ends are boundaries; it reads as the sequence without the range if and only if the range begins on one; pages in use are exactly what the entries cover; it goes through if and only if some block has the pages of the kept tail |
| KvManager.KVManager.Delete | server-fs/src/kv/kv_manager.rs:201-219 | The store is in order afterwards if and only if the range is past the end or ends and begins on boundaries; every other file keeps object and bytes; it goes through if and only if some block has the pages of the kept tail |
| Deleting.MidExtentDeletion | server-fs/src/kv/kv_manager.rs:419-466 | Ranges that miss one boundary each |
| MendedDelete.MendedDeletion | server-fs/src/kv/kv_manager.rs:386-514 | With archived length and offset set as well, every range leaves a tiling that reads as the sequence without it and has exact page accounts; on boundaries it is the list the code leaves |
| KvManager.KVManager.DeleteMended | server-fs/src/kv/kv_manager.rs:201-219 | With the two fields set, any deletion leaves the store in order, the file's bytes without the range and every other file as it was; it goes through if and only if some block has the pages of the kept tail |
| FileRuns.RunOn | server-fs/src/kv/kv_manager.rs:118-227 | A run of sets and (corrected) deletions on any files gives what the same operations make of plain byte sequences, or stops at an operation whose pages are not to be had on the frontiers of the moment; where one block has the pages all of them need, it does not stop |
| FileRuns.RunFiles | server-fs/src/kv/kv_manager.rs:118-227 | The same from an empty table: a run that needs no more than a block's pages goes through |
| FileRuns.Collect | server-fs/src/kv/kv_helper.rs:56-59 | A collection between two operations of a run changes no file |
| SimilarityGraph.Graph.InsertNode | server-fs/src/css/graph.rs:159-225 | The index, the hashes and the edges agree again; a new node is linked both ways, by distance, to exactly the nodes within 2 if one is closer than 2, and otherwise to all nearest ones |
| SimilarityGraph.Graph.DeleteNode | server-fs/src/css/graph.rs:227-249 | The others keep order and edges but those to the deleted node, the index moves up, and the graph is in order |
| SimilarityGraph.Graph.QueryNode | server-fs/src/css/graph.rs:251-276 | The worklist ends; every node found is at the end of a walk within the radius, so within that distance and never the start; every neighbour within the radius is found, and every node at the end of two edges that together stay within it; and from each node found the search has gone on with the length of a walk to it, so all its edges that then stay within the radius lead to the start or to nodes found |
| Hamming.Triangle | server-fs/src/css/graph.rs:278-286 | Distances of hashes obey the triangle inequality |
| SimilarityGraph.ComputeEdgeWeight | server-fs/src/css/graph.rs:278-286 | The loop counts the Hamming distance |
| DirectoryRecords.RecordRoundTrip | server-fs/src/common/directory.rs:88-128 | A record reads back if and only if its name has 1 to 255 bytes and no NUL |
| DirectoryRecords.EveryRunIsAMap | server-fs/src/common/directory.rs:3-65 | Over any run of links and unlinks from an empty directory names stay unique and lookup agrees with a map from names to inode numbers |
| Directory.DirLookup | server-fs/src/common/directory.rs:3-21 | The inode number and position of the first record of that name |
| Directory.DirLink | server-fs/src/common/directory.rs:23-35 | The directory's bytes hold one record more, in an extent of its own, unless the name is in use; it takes one page from the first block that has one, failing if and only if none has, and no other file changes |
| Directory.DirUnlink | server-fs/src/common/directory.rs:37-61 | The directory's bytes hold the records without the one named, if it stands for that inode; it always goes through, takes no page, and no other file changes |
| Directory.Inode.Write | server-fs/src/inode/inode.rs:77-81 | The file's bytes with the buffer spliced in, and the cached size agrees with the object; it goes through exactly when the set does |
| Directory.Inode.Truncate | server-fs/src/inode/inode.rs:87-91 | What the deletion does to the object, and the cached size agrees with it |

| DirectoryRuns.RunOn | server-fs/src/common/directory.rs:23-61 | A run of links and unlinks leaves the records that the run on lists of records gives; it goes through if and only if all blocks together have a page for every new name |
| DirectoryRuns.LookupAfter | server-fs/src/common/directory.rs:3-61 | Looking a name up after any run in a fresh directory of a fresh store agrees with a map from names to inode numbers; the run goes through if and only if it links no more new names than the store has pages |

## Left out

- The LSM tree under the key-value manager is taken as a map from inode numbers to objects, and the serialisation
  of objects and metadata as exact; only the tree's own behaviour is proved.
- Garbage collection in the middle of one operation: the program would collect, which updates the stored object
  but not the one in hand (`GcHazards.CollectInHand`), and pages the operation has already written belong to no
  stored extent yet, which is not modelled. The operations report that point, and say on the frontiers exactly
  when it is reached; hence these lines:
- KvManager.KVManager.AddExtent: returns None where the program collects garbage first.
- KvManager.KVManager.SetDataObject: `ok == false` where the program collects garbage in the middle.
- KvManager.KVManager.Set: `ok == false` where the program collects garbage in the middle; the value's length is
  taken to be the given one, at least 1.
- KvManager.KVManager.SetNoBytes: not for offset 0, where the program writes an extent of no bytes (the page count
  underflows for an empty value).
- KvManager.KVManager.DeleteDataObject: `ok == false` where the program collects garbage in the middle; not for
  length 0, where the program drops the object without giving its pages back.
- KvManager.KVManager.Delete: `ok == false` where the program collects garbage in the middle; not for length 0.
- KvManager.KVManager.DeleteMended: `ok == false` where the program collects garbage in the middle; not for length 0.
- FileRuns.RunOn: deletions are the corrected ones, since those of the code leave no tiling in the middle of an
  extent, and a run stops where the program would collect in the middle of an operation.
- Directory.DirLink: `ok == false` where the program collects garbage in the middle.
- Directory.Inode.Write: `ok == false` where the program collects garbage in the middle; sizes are unbounded.
- Directory.Inode.Truncate: `ok == false` where the program collects garbage in the middle; sizes are unbounded.
- Compression is the identity with type 0, so the branches for compressed extents cannot be reached and are not
  modelled.
- Metadata and extra objects, whose values are spliced inside the LSM tree; inode metadata records and the
  truncation of sizes to 32 bits.
- Offsets and lengths are unbounded; the program computes some of them in signed 32 bits.
- The Huffman coder's built-in weight map, the conversion of text from and to UTF-8, timing and coefficients
  (which divide by zero for an empty input).
- Huffman.Build: requires a total weight within 32 bits and no symbol of weight 2^32 - 1, since the search looks
  for something lighter than that and the program would stop.
- LsmTree.LSMTree.Put: requires a non-empty key and value, an entry other than the end record and within the memtable's
  bound; the format cannot carry others.
- SstableManager.SSTableManager.Build: requires that unused blocks, and the one block behind the area that the
  scan also reads, do not begin with the magic number.
- KvManager.KVManager.DisposeGcGroup: does not admit a group that moves two runs to one block, the second behind
  the first; the planner, which does not reserve, never yields one.
- GcManager.GCManager.ChooseGcBlock: the ratio of pages is a real number or infinite, so 32-bit rounding is not
  modelled.
- Erase times, erase counts, average ages, the background strategies and the event index of a collection.
- The translation layer, the buffer cache, page and block tables on flash, journal, superblock and the rebuild of
  the block table at mount: pages under the manager are one flat store that reads back what was written.
- The graph's map from inodes to nodes, which goes stale, its storage under the key-value manager, and the order
  of the query's heap beyond popping a maximum; that a query finds all nodes within the radius is not claimed: a node
  is not pushed again once visited, though a shorter walk to it may turn up later.
- Directory.DirUnlink: the comparison of a record index with a byte length decides nothing, since deleting behind
  the last record changes nothing. Names are byte sequences; their UTF-8 is not checked.
- Loops that the program writes out several times in one function are one method each here.
- The user-space file-system calls, the client and server, path walking and reference counts.
