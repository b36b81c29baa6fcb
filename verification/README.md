# A verified model of the myjql storage engine

myjql keeps a key-value store in page files. The project models, bottom up:

- the **buffer pool** (`BufferPool.dfy`): eight frames over a file of 128-byte pages, with pins and write-back;
- the **slotted page** (`BlockLayout.dfy`, `Block.dfy`): item ids growing up, item bytes growing down, compaction on
  deletion, every byte between `tail_ptr` and the end of the page owned by exactly one live item;
- the **free-space map** (`FreeSpaceMap.dfy`): for each amount of room a chain of pages of block addresses, with a
  free list threaded through the unused pages;
- the **table** (`Table.dfy`): records by record identifier (RID), stored in the block with the least sufficient room;
- **long strings** (`Chunk.dfy`, `StrChain.dfy`, `Str.dfy`): chains of chunks of 1 to 20 characters stored as records;
- the **B+ tree** (`BTree*.dfy`): insertion with shifting and splitting, deletion with borrowing, merging and root
  collapse, and the repair pass `ReAdj` that keeps every separator equal to the least key below it.

Each component is a class whose methods follow the C routines branch by branch; what a routine does is stated on an
abstract value of the class (a finite map, a bag of addresses, a text) and runs of operations are proved to behave as
that value does. The B+ tree is proved for every `DEGREE >= 2`, as `b_tree.h` demands, not only for the value that the
page size gives. A recursive call is given the *context* of its node (its ancestors with their other children) as a
ghost argument; `Placed` says that the heap of pages stores node and context as one well-formed tree. `PoolPins.dfy`
joins the free-space map to the buffer pool: the map's pins never exhaust the frames.

Where the code does something other than its header promises, the model follows the code. Three cases are visible
in the contracts. `b_tree_insert` compares a key that belongs behind the last row of its leaf with the null RID in the
next cell, and drops the key if the two compare equal (`Dropped`; `BTree.Insert` says exactly when the key is stored).
`table_insert` does not store a record of more than 118 bytes, although `table.h` excludes only records larger than a
page: it opens a new block, leaves it empty and answers slot -1 (`Table.Insert` says exactly when the record is stored).
A page that `hash_table_pop` empties does not come back from the free list: `allocs` counts the pages ever taken, `Pop`
leaves it as it is, and `Insert` says exactly when it grows.

`dafny verify dfyconfig.toml` checks the project.

## Model

| member | source | states |
|---|---|---|
| BTrees.BTree.Insert | myjql/src/b_tree.c:51-70 | for every absent key with a proper block address: the tree stays well-formed and stands for the old map with the key bound; exactly the keys that compare equal to the null RID and belong at the end of their leaf are dropped, and then no page changes |
| BTrees.BTree.Delete | myjql/src/b_tree.c:72-87 | the tree stays well-formed and stands for the old map without the key, whatever borrowing, merging and root collapse it takes; if the key is absent no page changes |
| BTrees.BTree.Search | myjql/src/b_tree.c:40-49 | the answer for a stored probe is its RID, and for any other the RID with address -1 and index 0 |
| BTrees.BTree.Run | myjql/test/test_b_tree.c:51-128 | over every legal run of inserts, deletes and searches, every search answers as the finite map built by the operations before it, with address -1 and index 0 for a missing key |
| BTrees.BTree.HeightBounds | myjql/include/b_tree.h:7-9 | a tree with h >= 1 internal levels holds at least 2 * DEGREE^h and at most (2 * DEGREE - 1)^(h + 1) keys |
| BTrees.BTree.constructor | myjql/src/b_tree.c:8-34 | an empty file becomes a well-formed tree that stands for the empty map: root page 128, blank, and free head 256 |
| BTrees.BTree.RecursiveInsert | myjql/src/b_tree.c:93-149 | below any node in its place in a well-formed tree: the parent's subtree (or the whole tree, a level higher after a root split) keeps legal sizes, exact separators and distinct pages, and its keys are the old ones with the key in order; or nothing changes, exactly when the key is dropped |
| BTrees.BTree.InsertionPoint | myjql/src/b_tree.c:100-105 | the scan settles on the cell of a leaf where the key belongs in order, or on the only child whose range holds the key |
| BTreeInsertion.DroppedHere | myjql/src/b_tree.c:108-112 | in a leaf without the key, the row the scan stopped at compares equal to the key exactly when the key is dropped |
| BTreeOrder.DroppedBelow | myjql/src/b_tree.c:118-119 | a key is dropped at a node exactly when it is dropped at the child the search takes |
| BTrees.BTree.InsertKey | myjql/src/b_tree.c:151-172 | the leaf's rows become the old ones with the key at cell j, and the parent's separator its first row |
| BTrees.BTree.InsertChild | myjql/src/b_tree.c:173-193 | child and separator lists of the parent gain the new node at place i and keep their order |
| BTrees.BTree.SplitNode | myjql/src/b_tree.c:203-244 | a full node keeps its first DEGREE entries, a fresh page takes the rest, and the parent (a fresh one above a root) lists both |
| BTrees.BTree.CreateNewNode | myjql/src/b_tree.c:246-269 | the page handed out is the free head, its cells -1 and the RID (-1, 0), and the free head advances by 128 |
| BTrees.BTree.FindSibling | myjql/src/b_tree.c:271-303 | the next child if it has fewer than 2 * DEGREE - 1 entries, else the previous one if it has, else -1 |
| BTrees.BTree.Overflow | myjql/src/b_tree.c:126-140 | an overflowed node below a parent gives its last entry to the next child, or its first to the previous one, and splits, taking a page, exactly when neither has room; children are legal and separators exact once the last refresh is made |
| BTrees.BTree.SettleBelow | myjql/src/b_tree.c:126-146 | the parent's children are repaired exactly when the node overflows, and otherwise only its separator is refreshed |
| BTrees.BTree.SettleRoot | myjql/src/b_tree.c:122-128 | the root splits below a new root, with two fresh pages, exactly when it overflows |
| BTrees.BTree.Move | myjql/src/b_tree.c:305-389 | exactly n entries cross between neighbours, in order, in either direction, for leaves and for internal nodes, although each key of a leaf moves through ReMove and its repair pass |
| BTreeOutcome.PartsFacts | myjql/src/b_tree.c:305-389 | a shift loses no key and no page, duplicates none and keeps the order of the keys |
| BTrees.BTree.RemoveKey | myjql/src/b_tree.c:402-421 | the leaf loses key j, the parent's separator becomes exact, and every ancestor's separator that was the old least key becomes the new one |
| BTrees.BTree.RemoveChild | myjql/src/b_tree.c:422-442 | the parent loses child i and its separator and keeps the others in order |
| BTrees.BTree.ReAdj | myjql/src/b_tree.c:746-779 | along the search path for the old key every separator of that key becomes the target, and no page off the path changes |
| BTreeContext.FixTop | myjql/src/b_tree.c:774 | replacing the separator at the hole replaces the least key of every ancestor that has it as least key, and of no other |
| BTrees.BTree.RecursiveRemove | myjql/src/b_tree.c:484-561 | below any node in its place: legal sizes, exact separators and distinct pages are kept, the keys are the old ones without the key, and nothing changes when the key is absent |
| BTrees.BTree.FindDonor | myjql/src/b_tree.c:563-602 | the next child if it has more than DEGREE entries, else the previous one if it has, with its place, else -1 |
| BTrees.BTree.Rebalance | myjql/src/b_tree.c:536-555 | a short node takes one entry from the next child, or the previous one, if it can spare one, and is otherwise merged into the previous child, or the next if there is none; the children are legal and separators exact again |
| BTrees.BTree.FinishRemove | myjql/src/b_tree.c:519-561 | the parent's children are repaired exactly when the node is short, a root with one child gives way to it, and otherwise nothing is moved |
| BTrees.BTree.Borrow | myjql/src/b_tree.c:537-540 | one entry of a neighbour makes the short node legal again |
| BTrees.BTree.MergeNode | myjql/src/b_tree.c:604-627 | the short node's entries join its neighbour's in order and the parent loses the emptied child; the borrowing branch is never taken |
| BTreeDeletion.RootCollapse | myjql/src/b_tree.c:528-533 | a root left with one child gives way to it: one level less, the same keys |
| BTrees.BTree.SearchPoint | myjql/src/b_tree.c:646-663 | the scan of search and delete settles on the key of a leaf or the only child that can hold it, or reports that the leaf lacks the key |
| BTrees.BTree.RecursiveSearch | myjql/src/b_tree.c:630-676 | the answer at any node is the stored key of that rank below it, or the null RID when there is none |
| BTreeMap.IndexIns | myjql/src/b_tree.c:51-70 | inserting into the sorted keys binds one rank of the map and changes no other |
| BTreeMap.IndexDel | myjql/src/b_tree.c:72-87 | removing from the sorted keys unbinds one rank and no other |
| BTreeMap.HeightBound | myjql/include/b_tree.h:7-9 | the same bounds for any legal root |
| BTreeMap.RankOfComparison | myjql/include/b_tree.h:44-45 | every comparison that is a total preorder on a finite set of RIDs, answering -1, 0 or 1, is the comparison of integer ranks |
| Tables.Table.Insert | myjql/src/table.c:49-82 | the record goes into the block last filed among those with the least sufficient room, or a new block exactly when no block has room, and no other block changes; the RID is new and the records are the old ones with this one bound; it is stored exactly when it has at most 118 bytes |
| Tables.Table.Delete | myjql/src/table.c:84-97 | exactly the record of that RID disappears and no other block changes; an address below 0 and a slot without a record change nothing |
| Tables.Table.Read | myjql/src/table.c:29-47 | the bytes of a live record are copied and nothing behind them; without a live record nothing is |
| Tables.Table.Run | myjql/src/table.c:49-97 | over every run of insertions and deletions the records are those of the finite map, every RID handed out is new, and the run is cut short only when the last prepared page of the free-space map is gone |
| Tables.Table.constructor | myjql/src/table.c:8-11 | empty files hold no record and no block is filed |
| Tables.BestFit | myjql/src/table.c:51-52 | a block popped from the free-space map has enough room, and no block with enough room has less |
| FreeSpaceMaps.FreeSpaceMap.constructor | myjql/src/hash_map.c:6-42 | every chain is empty and all 200000 prepared pages are on the free list; the words written to the control, directory and chain pages |
| FreeSpaceMaps.FreeSpaceMap.Insert | myjql/src/hash_map.c:48-108 | the address is appended to those filed under the size and nothing else changes; the chain invariant is kept; the next page of the free list is taken exactly when the number of addresses was a multiple of 14 |
| FreeSpaceMaps.FreeSpaceMap.PopLowerBound | myjql/src/hash_map.c:110-142 | the last address of the least size with any at or above the bound is removed, or -1 is returned and nothing changes exactly when there is none |
| FreeSpaceMaps.FreeSpaceMap.Pop | myjql/src/hash_map.c:144-213 | the last occurrence of the address leaves its size and the last address takes its place; the chain loses its last page exactly when that page is emptied, and then page 200009 names the page the address was in |
| FreeSpaceMaps.FreeSpaceMap.GetPage | myjql/src/buffer_pool.c:53-82 | every page the map asks for finds at most four other pages pinned, and a page that exists is not changed |
| FreeSpaceMaps.FreeSpaceMap.HasPage | myjql/src/hash_map.c:13-16 | the free list is exhausted exactly when the control page's head is the page behind the last prepared one |
| FreeSpaceMaps.FreeList | myjql/src/hash_map.c:28-37 | from the head on, the pages not handed out are chained in order |
| FreeSpaceMaps.ChainsApart | myjql/src/hash_map.c:48-108 | no page belongs to two chains |
| FreeSpaceMaps.LocationInjective | myjql/src/hash_map.c:54-55 | no two sizes share a directory word, negative sizes included |
| FreeSpaceMaps.Location | myjql/src/hash_map.c:54-55 | the directory page and word of a size, negative sizes in 64-bit unsigned arithmetic |
| FreeSpaceMaps.ChainPage | myjql/include/hash_map.h:26-31 | what a page of a chain holds: its link, its count, and its slice of the addresses |
| FreeSpaceMaps.FileFormat | myjql/include/hash_map.h:9-31 | the words of the file for each size: its directory word, and the link, count and addresses of every page of its chain |
| PoolPins.NeverFull | myjql/include/buffer_pool.h:6-16 | a pool that holds the map's pins and no other has a free frame |
| PoolPins.Pin | myjql/src/buffer_pool.c:53-82 | with the map's pins get_page never fails, answers the page as last written, and the reference counts again match the pins |
| PoolPins.Unpin | myjql/src/buffer_pool.c:93-105 | release gives up the newest pin and no other |
| PoolPins.MatchesTaken | myjql/src/buffer_pool.c:56-61 | a hit adds one pin of its page |
| PoolPins.MatchesLoaded | myjql/src/buffer_pool.c:63-80 | a miss adds one pin of the new page and evicts no pinned one |
| PoolPins.MatchesDropped | myjql/src/buffer_pool.c:93-105 | a release takes away one pin of its page |
| Blocks.Block.NewItem | myjql/src/block.c:27-70 | an item that fits is stored just below the others, under the first free slot or a new one, and every other slot and item stays; one that does not fit changes nothing, and the answer is then -1 or, if the block has a free slot, the first one |
| Blocks.Block.DeleteItem | myjql/src/block.c:72-109 | exactly the item of that slot disappears and its bytes become free; every other keeps its slot and its bytes although compaction moves them; the last slot is given up and any other becomes free; a slot out of range changes nothing |
| Blocks.Block.GetBlockSize | myjql/src/block.c:111-121 | the bytes between head_ptr and tail_ptr, less 4 unless a slot is free: the largest item NewItem can still store |
| Blocks.Block.GetItem | myjql/src/block.c:13-25 | the offset of a live item, or -1 (NULL) for a slot out of range or free |
| Blocks.Block.InitBlock | myjql/src/block.c:7-11 | any frame becomes a well-formed block without items, with head_ptr 6, tail_ptr 128 and room for 118 bytes |
| BlockLayout.TiledDelete | myjql/src/block.c:72-109 | compaction closes the hole: the items again cover the bytes from tail_ptr to the end, without overlap |
| BlockLayout.BytesKept | myjql/src/block.c:84-97 | an item's bytes at its shifted offset are those it had before compaction |
| BlockLayout.SpaceAccount | myjql/src/block.c:27-70 | free space, item ids and live bytes add up to the 122 bytes of the page |
| BlockLayout.RoomRange | myjql/src/block.c:111-121 | the reported room is between -4 and 118, within the sizes of the free-space map |
| BlockLayout.ComposeFields | myjql/include/block.h:31-35 | the fields of a composed item id are the ones composed |
| BlockLayout.ItemIdBits | myjql/include/block.h:31-35 | the shift-and-mask macros compute those fields and that id |
| Chunks.ChunkRoundTrip | myjql/include/str.h:20-23 | identifier, length and characters read back from a chunk are the ones written |
| Chunks.ChunkBytes | myjql/include/str.h:10-23 | the bytes of a chunk one by one: 8 for the address, 2 for the index, 2 for the length, then the characters |
| Chunks.BytesSigned | myjql/include/table.h:22-23 | signed fields survive the round trip through bytes |
| Strs.StringTable.WriteString | myjql/src/str.c:86-133 | a new string of exactly these characters is readable under the returned RID and every other string is unchanged; its chunks hold runs of 20 characters and a last shorter one, and the last names the RID (-1, -1), or (-1, 0) for the empty string |
| Strs.StringTable.DeleteString | myjql/src/str.c:135-145 | exactly this string's chunks leave the table, and every other string is unchanged |
| Strs.StringTable.ReadString | myjql/src/str.c:6-16 | the record stands at the start of the text written |
| Strs.StringRecord.HasNextChar | myjql/src/str.c:18-29 | true exactly when characters are left |
| Strs.StringTable.NextChar | myjql/src/str.c:31-54 | the next character of the text, across chunk boundaries |
| Strs.StringTable.LoadString | myjql/src/str.c:156-164 | the first max characters of the rest of the text, or all of it, then a 0, and nothing behind it |
| Strs.StringTable.Compare | myjql/src/str.c:56-84 | -1 exactly when the texts agree up to a place where the first ends and the second goes on, or where the first has the smaller signed character; 1 the other way round; however the texts are cut into chunks |
| Strs.LexOrder | myjql/src/str.c:60-79 | the same of the order on texts |
| Strs.LexEqual | myjql/src/str.c:56-84 | 0 means equal texts |
| Strs.LexAntisymmetric | myjql/src/str.c:56-84 | swapping the texts negates the answer |
| Strs.LexTransitive | myjql/src/str.c:56-84 | the order is transitive |
| BufferPools.BufferPool.constructor | myjql/src/buffer_pool.c:8-36 | nothing is cached or pinned and a client sees the file |
| BufferPools.BufferPool.GetPage | myjql/src/buffer_pool.c:53-82 | a frame with the page as last written, pinned once more; on a miss the first unpinned frame, with all others as they were; it fails exactly when the page is not cached and all eight frames are pinned |
| BufferPools.BufferPool.Load | myjql/src/buffer_pool.c:63-79 | a page behind the end of the file is appended, any other read; nothing written is lost by the eviction |
| BufferPools.BufferPool.Release | myjql/src/buffer_pool.c:93-105 | of a pinned page: one reference less, whatever is left of them, and the page in the file is the one in the frame; nothing else changes, and what clients see is the same |
| BufferPools.BufferPool.Update | myjql/src/buffer_pool.c:84-91 | the update flag of the page's frame is set and nothing else changes |
| BufferPools.BufferPool.Close | myjql/src/buffer_pool.c:38-51 | the file holds every page as last written |

## Left out

- FreeSpaceMaps.FreeSpaceMap.Insert: does not model insertion that needs a page when all 200000 prepared pages have been handed out. `hash_table_pop` links the page the address was found in, not the emptied page it cuts off, behind page 200009 (hash_map.c:144-213) and never moves `free_block_last`, so emptied pages are not handed out again; the page behind the last prepared one was never initialised.
- FreeSpaceMaps.FreeSpaceMap.Pop: asks for an address that is filed under the size, as hash_map.h:47 does.
- Tables.Table.Insert: asks for a prepared page to be left even where the insertion turns out to need none; whether it does depends on the chain of the room the block is left with.
- Tables.Table.Delete: the same for a deletion from an existing block; and it says nothing of an address that is no block.
- Strs.StringTable.WriteString: asks for one prepared page per chunk, and for block addresses that fit 64 bits.
- Strs.StringTable.DeleteString: asks for one prepared page per chunk.
- Strs.StringTable.NextChar: copies the next chunk through the table's read, where the code repeats that loop on the page.
- Strs.StringTable.Compare: two texts with characters left, as the code reads a first character unconditionally.
- BTrees.BTree.Insert: does not model a key that is already in the tree (it would be stored twice) or one with the null block address (ReMove takes it for an empty cell).
- BTrees.BTree.Run: its inserts are of keys that do not compare equal to the null RID, so that the outcome depends on the map alone and not on the shape of the tree.
- BTrees.BTree.FindSibling: the child behind the last one is read before the bound is tested; that read, of the page at address -1, is not modelled.
- BTrees.BTree.MergeNode: the branch that borrows is shown to be dead; what it would do is not stated.
- BTrees.BTree.ReAdj: a missing parent is the address -1 throughout; the scratch page the code fetches for it is not a page of the model, and rows read from it are arbitrary.
- FreeSpaceMaps.FreeSpaceMap.GetPage: the map's pins are a list released newest first, which is how the code nests them.
- The B+ tree is over a map from addresses to node pages, not over the buffer pool: the code goes on using nodes after it has released them.
- Pages of nodes and of the free-space map are sequences of cells, not bytes; the byte layout is modelled for blocks and chunks.
- The `next` links of leaves, `FindMostRight`, `FindMostLeft` and the unused `leaf` field: nothing reads them.
- Comparison callbacks that fail to be a total preorder, such as the one in myjql.c that reads the same record twice.
- myjql.c itself: get, set and delete of the whole database, and its comparison through stored strings.
- Printing, saving, the driver programs and the server; failures of the file system.
