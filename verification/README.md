# gavin-db storage layer: a verified model

gavin-db is a small disk-based relational engine. This project models its storage layer in Dafny and proves what each
part promises, over every input and every run:

- **B+ tree index** (`BTreeModel`, `BTreeSteps`, `BTreePages`, `PageStore`, `BTreeIndex`, `BTreeTheorems`, `BTreeRuns`,
  `BTreeOverruns`, `IndexKeys`). Pages are changed in place through typed views; inserts descend with latch crabbing, split leaves, split
  full internal pages through an oversized copy, re-parent the moved children and grow the root. A ghost span per page
  gives the invariant of the whole tree; an insert is proved to be one function on trees, which says for every page what
  it holds afterwards, and the index is proved equal to a plain map over every run of inserts.
- **Buffer pool and replacer** (`BufferPool`). A bounded cache with pins, dirty bits, a free list and eviction of any
  evictable frame, proved to refine a plain map from page to bytes for clients that keep the pinning discipline.
- **Page guards** (`PageGuards`). Pins and latches through fetch, move, drop and upgrade, on top of the pool.
- **Slotted page, table heap, iterator** (`TablePage`, `TableHeap`, `TableIterator`, `TableRuns`). Byte-level pages, the
  chain that only grows at its end, and snapshot scans, all on top of the guards and the evicting pool.
- **Schema and tuple codec** (`Tuple`). Inline fields, string tails and their round trip.
- **Serializer** (`Serialization`, `Serializers`, `Catalog`, `CatalogFiles`). The tagged format with optional fields and
  one field of lookahead; reading undoes writing for every well-typed message, the unterminated catalog included. The
  bytes of every kind of value, and of the catalog's files property by property, are stated in plain numbers.
- **Watermark** (`Watermark`). The minimum over running readers, and its amortised cost.

`Bytes` holds bytes, pages and little-endian numbers; `Ids` page numbers and row ids; `TableMeta` holds the page counters a table's heap and its
indexes share. `dafny verify dfyconfig.toml` checks everything.

## Where the code and its intent part

The model keeps what the code does, and says exactly when that meets the intent:

- Leaf safety: `SafetyRule` has the rule as written (size < max) and as the comment words it (size + 1 < max). As
  written, an insert pops an empty page set exactly when its split starts at a leaf below full pages up to an internal
  root (`BTreeIndexes.BTreeIndex.InternalInsertRecord`), that is, exactly when a tree with an internal root would get
  higher (`BTreeOverruns.OverrunsExactly`). So a new index never gets past two levels. At the program's page sizes,
  202 pairs a leaf and 338 children a page, any 34138 new keys are served, no 67939 are, and of rising keys exactly
  34238 (`BTreeOverruns.FillIndex`, `BTreeOverruns.AtProgramSizes`). The pages whose entries a split changes are latched if and only if the rule is the
  comment's or the leaf is the root (`BTreeSteps.CrabbingCovers`).
- The unguarded duplicate test of a leaf drops key 0 exactly when the leaf holds only negative keys and the next slot is
  zero (`BTreeModel.RefusedExactly`).
- A search leaves one more pin on the header page (`BTreeIndexes.BTreeIndex.InternalScanKey`).
- A missed fetch does not register its frame with the replacer, so a pool filled by single fetches refuses the next page
  with nothing pinned (`BufferPools.FetchEachOnce`). A frame is lost exactly by a fetch that misses while a frame is
  free (`BufferPools.LostExactly`), so a pool that starts over an empty disk loses none, and two frames serve every
  operation of the heap (`TableRuns.StoreRows`). A page unpinned as clean after a write loses the write when it is
  evicted (`BufferPools.CleanUnpinLosesWrites`). The index unpins its changed header as clean
  (src/include/index/bplus_tree_index.hpp:102-103, 387), so that its first root can be lost
  (`BufferPools.HeaderUnpin`), and writes new roots after the guard that pinned them is gone (180-183, 398-403); it does
  not keep the pool's discipline, and the index results are over page memory that keeps what is stored.
- Upgrading a guard forgets that it was dirty (`PageGuards.PageGuard.UpgradeWrite`); the heap writes again before it
  drops the guard, so nothing is lost there.
- `MakeIterator` starts at page 1; the scan is exact if and only if page 1 is the first heap page and the last page is
  not empty (`TableIterators.MakeIteratorIsExactIff`). A table without an index gets page 0 first, and its scan is off
  course (`TableRuns.ScanOfNewTable`).
- A TIMESTAMP is read back as 32 bits (`Tuples.RoundTrip`). A pointer to a value that is not an object is read as if a
  terminator had been written (`Serialization.PointerToValue`).
- A string whose offset in its tuple is 2^31 or more is written but not found again (`Tuples.RoundTrip`).
- Readers that begin before the running ones, or past the last commit, break the watermark's minimum or its cost bound
  (`Watermarks.EarlyReader`, `Watermarks.Thrash`). What a run costs is the watermark's advance, one turn a call and what
  was lost, exactly (`Watermarks.Run`); in a disciplined run nothing is lost (`Watermarks.Amortised`).

Exceptions and failing assertions are results (`None`, `false`, a named constructor). Clocks, file I/O and threads are
not part of the model; the disk is a total map whose unwritten pages read as zeros.

## Model

| member | source | states |
|---|---|---|
| BTreeIndexes.BTreeIndex.InternalInsertRecord | src/include/index/bplus_tree_index.hpp:91-108 | on every normal return every page is what the insert function on trees says, the map has the pair added, or is as before if and only if the key was there or was the dropped key 0; pins and latches are as before; the internal pages changed are exactly the climb of the split leaf, covered by the latches kept exactly under the commented rule or at a root leaf; the empty page set is popped exactly under the stated condition |
| BTreeIndexes.BTreeIndex.InternalScanKey | src/include/index/bplus_tree_index.hpp:59-85 | the answer is the map's answer; every pin and latch is given back except one pin on the header |
| BTreeIndexes.BTreeIndex.InsertIntoLeaf | src/include/index/bplus_tree_index.hpp:110-151 | the descent, the leaf insert and the split together are the insert function on trees, with the exact refusal and the exact condition for the empty page set |
| BTreeIndexes.BTreeIndex.InsertIntoParent | src/include/index/bplus_tree_index.hpp:173-243 | a pending split is listed in the parents, through cascading internal splits to a grown root, leaving a whole tree with the same leaves; of the internal pages exactly those of the climb have other entries, and all of them were latched if the path is held |
| BTreeIndexes.BTreeIndex.SearchLeafPage | src/include/index/bplus_tree_index.hpp:272-344 | the descent ends at the one leaf whose span covers the key, with exactly the pages its rule keeps pinned and latched |
| BTreeIndexes.BTreeIndex.SearchLeafForScan | src/include/index/bplus_tree_index.hpp:281-332 | the searching descent ends at the leaf for the key with one pin and one read latch, the parent's given up |
| BTreeIndexes.BTreeIndex.StepDown | src/include/index/bplus_tree_index.hpp:304-329 | one step of crabbing: the child is latched, and its ancestors are released exactly if it is safe |
| BTreeIndexes.BTreeIndex.IsSafeNode | src/include/index/bplus_tree_index.hpp:346-364 | safe exactly if a leaf has fewer than max entries as written, or max - 1 as commented, and an internal page fewer than max children |
| BTreeIndexes.BTreeIndex.ReleaseParentWriteLatches | src/include/index/bplus_tree_index.hpp:374-389 | every page of the set loses exactly its pin and its write latch |
| BTreeIndexes.BTreeIndex.SplitLeaf | src/include/index/bplus_tree_index.hpp:126-131 | a leaf at its maximum keeps its first max / 2 pairs, the others go to a new leaf behind it, pending in the parent |
| BTreeIndexes.BTreeIndex.SplitParent | src/include/index/bplus_tree_index.hpp:217-240 | a full parent with the new child behind the old one keeps its first (max + 1) / 2 entries, the others go to a new page, and its moved children point there |
| BTreeIndexes.BTreeIndex.GrowRoot | src/include/index/bplus_tree_index.hpp:177-195 | a split root becomes the two children of a new root, one level up |
| BTreeIndexes.BTreeIndex.CreateNewRoot | src/include/index/bplus_tree_index.hpp:396-404 | the first pair makes a valid tree of one leaf |
| BTreeIndexes.BTreeIndex.constructor | src/include/index/bplus_tree_index.hpp:36-53 | a new index has its own header page, the given limits, no root and stands for the empty map |
| BTreeIndexes.BTreeIndex.Open | src/include/index/bplus_tree_index.hpp:50-56 | an index whose header exists stands for the one map its pages hold, which they decide alone |
| BTreePages.BtreeLeafPage.Insert | src/include/storage/page/btree_leaf_page.hpp:52-77 | the pair goes in order at its index, or nothing changes if the slot at that index, used or not, holds the key |
| BTreePages.BtreeLeafPage.FindKeyIndex | src/include/storage/page/btree_leaf_page.hpp:78-84 | binary search: everything before the index is smaller than the key, everything from it on is not |
| BTreePages.BtreeLeafPage.Lookup | src/include/storage/page/btree_leaf_page.hpp:85-100 | finds the value of the key among the used slots, if and only if it is there |
| BTreePages.BtreeLeafPage.MoveHalfTo | src/include/storage/page/btree_leaf_page.hpp:101-106 | the upper part moves behind the recipient's entries; the moved slots stay behind as they were |
| BTreePages.BtreeInternalPage.Lookup | src/include/storage/page/btree_internal_page.hpp:60-81 | the child whose separators enclose the key, the first separator ignored |
| BTreePages.BtreeInternalPage.InsertNodeAfter | src/include/storage/page/btree_internal_page.hpp:109-123 | the new child goes right behind the old one, everything behind it moves by one |
| BTreePages.BtreeInternalPage.MoveHalfTo | src/include/storage/page/btree_internal_page.hpp:125-130 | the upper part moves to the recipient |
| PageStores.PageStore.InsertThroughBuffer | src/include/index/bplus_tree_index.hpp:221-236 | a full page plus one entry, split through the copy, ends as its two halves in order |
| PageStores.PageStore.ReparentChildren | src/include/storage/page/btree_internal_page.hpp:137-140 | exactly the listed children get the page as their parent |
| BTreeModel.InsertKeepsInv | src/include/storage/page/btree_leaf_page.hpp:58-76 | a leaf insert at the right place keeps the invariant of the whole tree |
| BTreeModel.RefusedExactly | src/include/storage/page/btree_leaf_page.hpp:58-64 | the duplicate test, one slot too far, refuses exactly the keys that are there and the dropped key 0 |
| BTreeModel.LeafSplitKeepsInv | src/include/index/bplus_tree_index.hpp:127-131 | a leaf split keeps the invariant up to the one page not yet listed |
| BTreeModel.ParentInsertKeepsInv | src/include/index/bplus_tree_index.hpp:206-215 | listing the new page behind the old one makes the tree whole again or its parent over-full |
| BTreeModel.InternalSplitKeepsInv | src/include/index/bplus_tree_index.hpp:229-240 | an internal split keeps the invariant, its separators and every stored parent id |
| BTreeModel.RootGrownKeepsInv | src/include/index/bplus_tree_index.hpp:177-192 | a new root over the two halves makes the tree whole |
| BTreeModel.OnePagePerLevel | src/include/storage/page/btree_internal_page.hpp:66-80 | a key is covered by exactly one page of each level, so the descent has no choice |
| BTreeModel.LeafDecides | src/include/storage/page/btree_leaf_page.hpp:93-99 | whether a key is in the map is decided by its one leaf |
| BTreeModel.HeldGrows | src/include/index/bplus_tree_index.hpp:319-325 | adding a page to the held set keeps every page a split can reach held |
| BTreeModel.HeldToRoot | src/include/index/bplus_tree_index.hpp:366-372 | if a split can reach the root and the path is held, the header is the front of the page set |
| BTreeSteps.ToldChanges | src/include/index/bplus_tree_index.hpp:173-243 | telling the parents of a split makes any tree whole, keeps every leaf, and changes the entries of exactly the pages of the climb |
| BTreeSteps.ToldHeight | src/include/index/bplus_tree_index.hpp:173-243 | telling the parents makes the tree one level higher if and only if the split reaches the root |
| BTreeSteps.InsertChanges | src/include/index/bplus_tree_index.hpp:91-151 | page by page, an insert changes the entries of internal pages exactly on the climb of the leaf it splits, and of the leaves only the one the key belongs to |
| BTreeSteps.InsertHeight | src/include/index/bplus_tree_index.hpp:91-151 | an insert makes a tree one level higher if and only if it splits every page from its leaf to the root |
| BTreeSteps.CrabbingCovers | src/include/index/bplus_tree_index.hpp:319-364 | the latches a descent keeps cover the pages a leaf split changes if and only if the rule is the commented one or the leaf is the root |
| BTreeSteps.LatchedExactly | src/include/index/bplus_tree_index.hpp:319-364 | the same for every insert: uncovered exactly if, as written, a leaf other than the root splits |
| BTreeTheorems.LeavesAtOneDepth | src/include/index/bplus_tree_index.hpp:206-240 | every way from the root to a leaf has the same number of pages |
| BTreeTheorems.SeparatorsBoundSubtrees | src/include/storage/page/btree_internal_page.hpp:66-80 | each separator bounds every key stored below its child, on both sides |
| BTreeTheorems.ParentIsTheOneLister | src/include/storage/page/btree_internal_page.hpp:135-140 | the stored parent id names the one page that lists a page, once; the root is listed nowhere |
| BTreeTheorems.FillOfPages | src/include/storage/page/btree_page.hpp:38-43 | leaves below the root hold between max/2 and max-1 entries, internal pages between (max+1)/2 and max, an internal root at least 2 |
| BTreeTheorems.ChainIsTheSortedMap | src/include/index/bplus_tree_index.hpp:127-129 | following next ids from the leftmost leaf gives the whole map in strictly increasing order |
| BTreeTheorems.HeightIsLogarithmic | src/include/index/bplus_tree_index.hpp:272-344 | a tree of h levels holds at least 2 * minInternal^(h-2) * minLeaf keys |
| BTreeTheorems.NothingDroppedAmongNonNegative | src/include/storage/page/btree_leaf_page.hpp:60-64 | without negative keys the duplicate test refuses exactly the keys that are there |
| BTreeTheorems.ZeroAfterNegativeIsLost | src/include/storage/page/btree_leaf_page.hpp:61 | in an index of any page size whose one key is negative, key 0 is refused although it is absent |
| BTreeTheorems.HeightIsEnough | src/include/index/bplus_tree_index.hpp:272-344 | a tree of h levels holds at most internal^(h-1) * (leaf - 1) keys |
| BTreeTheorems.OverrunNeedsKeys | src/include/index/bplus_tree_index.hpp:350-367 | as written the empty page set needs a tree of at least internal * (leaf / 2) keys, of any shape |
| BTreeTheorems.PagesDecideState | src/include/index/bplus_tree_index.hpp:50-56 | the pages of an index have one set of spans and stand for one map only |
| BTreeRuns.InsertMany | test/index/index_test.cpp:115-136 | a run is served whole with the commented rule, and as written stops exactly at the first insert that overruns; a served run leaves exactly the state of its inserts one after the other, with all pins and latches given back |
| BTreeRuns.RunIsInsertAll | test/index/index_test.cpp:115-136 | the state after any run of inserts stands for the plain map; only key 0 among negative keys can be missing |
| BTreeRuns.InsertZeroAfterNegative | src/include/storage/page/btree_leaf_page.hpp:58-64 | a new index of any page size that is given a negative key first does not keep key 0 |
| BTreeRuns.Reopen | src/include/index/bplus_tree_index.hpp:36-56 | an index opened over the pages of another is in the same state |
| BTreeOverruns.OverrunsExactly | src/include/index/bplus_tree_index.hpp:173-195 | as written, an insert pops the empty page set if and only if it makes a tree with an internal root one level higher |
| BTreeOverruns.LowStays | src/include/index/bplus_tree_index.hpp:346-372 | an index that does not overrun keeps at most one internal page above its leaves |
| BTreeOverruns.PackedOverruns | src/include/index/bplus_tree_index.hpp:346-372 | a tree with an internal root that holds all keys its height allows overruns at the next new key |
| BTreeOverruns.ServedWhileSmall | src/include/index/bplus_tree_index.hpp:346-372 | as written no insert overruns while there are fewer than internal * (leaf / 2) keys |
| BTreeOverruns.LongRunOverruns | src/include/index/bplus_tree_index.hpp:346-372 | a run of more than internal * (leaf - 1) new keys always overruns, at any page sizes |
| BTreeOverruns.RisingOverruns | src/include/index/bplus_tree_index.hpp:346-372 | rising keys overrun at exactly insert (internal - 1) * (leaf / 2) + leaf, and not before, at any page sizes |
| BTreeOverruns.FillIndex | src/include/index/bplus_tree_index.hpp:346-372 | a new index as written serves every run of new keys up to the lower bound and none beyond the upper, and of rising keys exactly so many |
| BTreeOverruns.AtProgramSizes | src/include/storage/page/btree_internal_page.hpp:14-17 | the bounds at the page sizes of the program are 34138, 67938 and 34238 |
| BTreeRuns.InsertThenScan | test/index/index_test.cpp:138-151 | distinct non-negative keys inserted into a new index are all found with their own values |
| IndexKeys.CompareIsOrder | src/include/index/index.hpp:144-149 | the comparator orders integer keys as the integers |
| IndexKeys.KeyBytes | src/include/common/value.hpp:105-115 | the key of an integer is its four bytes, low byte first, and four zeros |
| IndexKeys.ComparatorEqualityIsByteEquality | src/include/common/value.hpp:112-115 | comparator equality is byte equality wherever the unseen bytes agree |
| IndexKeys.ZeroedIsKeyZero | src/include/common/value.hpp:106-115 | zeroed memory reads as the key of 0 and of no other integer |
| BufferPools.BufferPool.AllocateFrame | src/storage/buffer/buffer_pool.cpp:23-42 | refused exactly if no frame is free or evictable; otherwise a free frame, or a written-back unpinned victim |
| BufferPools.BufferPool.NewPage | src/storage/buffer/buffer_pool.cpp:44-77 | the new page is pinned once and zeroed, registered with the replacer, and the pool invariant holds |
| BufferPools.BufferPool.FetchPage | src/storage/buffer/buffer_pool.cpp:79-107 | the frame handed out holds the page's latest bytes; refused exactly if it is not cached and no frame can be had |
| BufferPools.BufferPool.UnpinPage | src/storage/buffer/buffer_pool.cpp:109-131 | one pin less, dirty if asked, evictable when the last pin of a registered frame goes |
| BufferPools.BufferPool.FlushPage | src/storage/buffer/buffer_pool.cpp:133-143 | the disk has the cached bytes and the frame is clean |
| BufferPools.BufferPool.FlushAllPages | src/storage/buffer/buffer_pool.cpp:145-149 | afterwards the disk alone means what the pool means, for every page |
| BufferPools.RandomBogoReplacer.Evict | src/storage/buffer/random_replacer.cpp:5-15 | some evictable frame, now not evictable, and none exactly if there is none |
| BufferPools.StepIs | src/storage/buffer/buffer_pool.cpp:79-143 | what a request does to the pins, dirty bit, bytes and evictability of the frame of its page, and that no other frame changes |
| BufferPools.PlacedIs | src/storage/buffer/buffer_pool.cpp:23-107 | a page not cached takes the first free frame or an evictable one, pinned once and clean, whose dirty page goes to the disk first |
| BufferPools.StepKeepsSound | src/storage/buffer/buffer_pool.cpp:23-143 | every step keeps: free list and mapped frames partition the pool, page table and frames agree, a registered frame is evictable exactly if unpinned |
| BufferPools.OnlyUnpinnedFramesAreTaken | src/storage/buffer/random_replacer.cpp:5-29 | no pinned frame is ever evicted; a frame can be had exactly if one is free or unpinned and registered |
| BufferPools.PlacedKeepsMeaning | src/storage/buffer/buffer_pool.cpp:30-36 | giving a frame to another page changes what no other page means, except exactly a victim that was clean with bytes the disk lacks |
| BufferPools.StepRefinesMap | src/storage/buffer/buffer_pool.cpp:44-143 | one step by a client that keeps the discipline does to the pool what it does to the plain map |
| BufferPools.RunRefinesMap | src/storage/buffer/buffer_pool.cpp:44-143 | over every run that keeps the discipline, whichever frames are evicted, the pool means the plain map |
| BufferPools.SpareAfter | src/storage/buffer/buffer_pool.cpp:79-107 | a request uses up at most one of the frames that can be had |
| BufferPools.LostExactly | src/storage/buffer/buffer_pool.cpp:79-107 | every frame stays known to the replacer over a step if and only if the step is not a fetch that misses while a frame is free |
| BufferPools.LosslessAfter | src/storage/buffer/buffer_pool.cpp:44-143 | a pool in which no fetch can miss while a frame is free stays one |
| BufferPools.LosslessSpares | src/storage/buffer/random_replacer.cpp:5-29 | without pins every frame of such a pool can be had |
| BufferPools.CleanUnpinLosesWrites | src/storage/buffer/buffer_pool.cpp:30-36 | a run in which a page unpinned as clean after a write comes back without it |
| BufferPools.HeaderUnpin | src/include/index/bplus_tree_index.hpp:374-404 | in any world the header, written and unpinned, reads as written after its eviction if and only if it was unpinned as dirty; as clean it reads as before the write |
| BufferPools.FetchEachOnce | src/storage/buffer/buffer_pool.cpp:90-106 | a fresh pool filled by one fetch a frame refuses the next page with nothing pinned |
| PageGuards.StepShows | src/storage/buffer/buffer_pool.cpp:44-143 | what clients see after a request depends on what they saw before, not on frames, evictions or the disk |
| PageGuards.GuardedPool.FlushAllPages | src/storage/buffer/buffer_pool.cpp:145-149 | the disk alone has every page and clients see no difference |
| PageGuards.GuardedPool.constructor | src/storage/buffer/buffer_pool.cpp:14-21 | a new pool over any disk shows what the disk holds, and loses no frame if the disk is empty |
| PageGuards.PageGuard.Drop | src/storage/page/page_guard.cpp:15-23 | gives back exactly the guard's pin and latch, once |
| PageGuards.PageGuard.MoveFrom | src/storage/page/page_guard.cpp:26-40 | the old page is given back, the other guard's is taken over, assigning a guard to itself changes nothing |
| PageGuards.PageGuard.UpgradeWrite | src/storage/page/page_guard.cpp:102-109 | the pin moves to a write-latched guard that starts out clean |
| TablePages.ExtentsDescend | src/storage/page/table_page.cpp:13-36 | a later tuple lies wholly before an earlier one, so no two overlap |
| TablePages.DataFillsTheEnd | src/storage/page/table_page.cpp:15-28 | the tuple area is exactly the tuples, without gaps |
| TablePages.PageLayout | src/include/storage/page/table_page.hpp:32-41 | where next page, counts, offsets, sizes and flags stand, byte by byte |
| TablePages.TablePage.GetNextTupleOffset | src/storage/page/table_page.cpp:13-36 | refused exactly if 8 bytes, 6 for each row and all tuples, each with this one, exceed 4096; else right in front of the tuples |
| TablePages.TablePage.InsertTuple | src/storage/page/table_page.cpp:38-50 | exactly one row is added at the end, with the tuple's bytes and flag; every other row, the link and the counters stay; refused exactly if 8 + 6 * rows + bytes, with this one, exceeds 4096 |
| TablePages.FillPage | src/storage/page/table_page.cpp:13-50 | an empty page takes exactly 4088 / (6 + size) tuples of one size |
| TablePages.TablePage.GetTuple | src/storage/page/table_page.cpp:64-79 | the row of the slot, or the exception exactly if there is no such slot |
| TablePages.TablePage.UpdateTupleMeta | src/storage/page/table_page.cpp:52-62 | only that row's flag changes; the counter goes up exactly on a first deletion, in sixteen bits |
| TablePages.PushedIs | src/storage/page/table_page.cpp:38-50 | the written bytes read as the old rows and the new one, and the page stays packed |
| TableMetas.TableMeta.IncrementTableDataPageId | src/include/storage/table/table_meta.hpp:59-66 | page numbers count up from 0 without repeats |
| TableHeaps.TableHeap.InsertTuple | src/storage/table/table_heap.cpp:27-66 | the row is appended to the rows under a new id in the last page, and a page is added exactly if 8 + 6 * rows + bytes of the last one, with this row, exceeds 4096; all pins and latches are as before, no other page changes; too large exactly beyond 4082 bytes; a missing frame only if fewer than two can be had, and never in a lossless pool of two frames without pins, which stays one |
| TableHeaps.TableHeap.Grow | src/storage/table/table_heap.cpp:38-52 | the loop body: a new empty last page is linked, the guard on the full page is dropped and the new one moved in, the rows stay |
| TableHeaps.TableHeap.GetTuple | src/storage/table/table_heap.cpp:74-84 | the row of any id whose page is a table page, or the exception exactly if there is no such slot, with pins and latches as before |
| TableHeaps.TableHeap.constructor | src/storage/table/table_heap.cpp:14-25 | a table without a heap page gets one empty page; a table with one is left as it is; in a lossless pool of two frames always |
| TableHeaps.ChainIncreases | src/storage/table/table_heap.cpp:40-44 | page numbers strictly increase along the chain |
| TableHeaps.AppendedRow | src/storage/table/table_heap.cpp:56-63 | a row added to the last page is added at the end of the rows |
| TableHeaps.GrownChain | src/storage/table/table_heap.cpp:40-47 | linking a new page keeps the chain in order and the rows |
| TableIterators.LogIncreases | src/storage/table/table_heap.cpp:63 | row ids strictly increase in insertion order, so each is new |
| TableIterators.LogReadsBack | src/storage/table/table_heap.cpp:74-84 | every row ever inserted reads back under its id |
| TableIterators.FollowingIsNext | src/storage/table/table_iterator.cpp:37-47 | without a stop, the step from a row is to the next row |
| TableIterators.StepWithinPrefix | src/storage/table/table_iterator.cpp:23-52 | a scan that stops behind a row visits the rows up to it and ends there, whatever was appended; the iterator's assertion holds |
| TableIterators.MakeIteratorIsExactIff | src/storage/table/table_heap.cpp:92-105 | the scan visits exactly the rows if and only if page 1 is the first page and the last page is not empty |
| TableIterators.TableIterator.Advance | src/storage/table/table_iterator.cpp:23-52 | moves to the next row of the snapshot or to its end |
| TableIterators.TableIterator.IsEnd | src/storage/table/table_iterator.cpp:19-21 | true exactly when the snapshot is passed |
| TableIterators.MakeIterator | src/storage/table/table_heap.cpp:92-105 | the iterator is on course over all present rows if and only if page 1 is the first page and the last page is not empty |
| TableRuns.ScanOfNewTable | src/storage/table/table_heap.cpp:92-105 | the scan of a new table without an index starts at page 1, is off course, and its one row is on page 0 |
| TableRuns.RunSteps | src/storage/table/table_heap.cpp:27-66 | over every run of inserts and index page allocations, stopped or not, the rows are the old ones followed by those of the steps run, under their ids; a lossless pool of two frames runs all |
| TableRuns.AllocateIndexPage | src/include/index/index.hpp:95-98 | an index page of the same table leaves the heap and its rows alone |
| TableRuns.ScanWhileInserting | src/storage/table/table_iterator.cpp:23-52 | a scan with appends in between visits exactly the rows present when it began, in order |
| TableRuns.InsertThenRead | test/storage/table_heap_test.cpp:77-103 | rows read by the ids their inserts returned are the inserted rows; in a lossless pool of two frames always |
| TableRuns.StoreAndLoad | test/storage/table_heap_test.cpp:30-55 | column values stored as a row and read back are the values, up to what their types lose |
| TableRuns.StoreRows | test/storage/table_heap_test.cpp:77-103 | from an empty disk two frames store and read back any number of rows |
| TableRuns.Reopen | src/storage/buffer/buffer_pool.cpp:145-149 | everything flushed, a new pool over the same disk shows the same rows under the same ids |
| Tuples.NewSchema | src/meta/schema.cpp:8-30 | each field begins where the one before ends, four bytes behind an integer or a string and eight behind a timestamp; string columns are listed in order |
| Tuples.Measure | src/storage/table/tuple.cpp:11-28 | the size of the tuple, or a refusal exactly if a string is longer than its column allows |
| Tuples.NewTuple | src/storage/table/tuple.cpp:8-49 | a tuple of exactly the size of its parts, every integer, all eight bytes of every timestamp and every string with its length standing where they should, or the refusal |
| Tuples.StringsFollow | src/storage/table/tuple.cpp:15-28 | strings begin right behind the inline part, each with four bytes of length in front, and end the tuple |
| Tuples.PutWrites | src/storage/table/tuple.cpp:37-48 | writing a column writes it and keeps the columns before it |
| Tuples.RoundTrip | src/storage/table/tuple.cpp:59-80 | reading a column gives the original value if and only if it is an integer, a timestamp below 2^32 or a string shorter than a page that starts below 2^31 |
| Tuples.FieldsTile | src/meta/schema.cpp:16-24 | inline fields do not overlap |
| Tuples.TailsTile | src/storage/table/tuple.cpp:35-44 | strings lie behind the inline part and do not overlap |
| Tuples.PartsTile | src/storage/table/tuple.cpp:33-48 | every byte of the tuple belongs to a field or a string |
| Serialization.RoundTrip | src/include/storage/serializer/deserializer.hpp:61-232 | reading a written value of any well-formed type returns it, consumes exactly its bytes whatever follows, and leaves no field pending |
| Bytes.LowFirst | src/include/storage/serializer/binary_serializer.hpp:23-27 | numbers of one, two, four and eight bytes are written low byte first |
| Bytes.ReadLowFirst | src/include/storage/serializer/binary_deserializer.hpp:57-77 | and read low byte first |
| Bytes.TwosComplement | src/common/value.cpp:76-79 | a negative integer is its distance below 2^32 |
| Serialization.ScalarBytes | src/include/storage/serializer/serializer.hpp:46-51 | a flag is a one or a zero, a number its width in bytes |
| Serialization.TextBytes | src/storage/serializer/binary_serializer.cpp:111-116 | a string is four bytes of length and its characters |
| Serialization.ListBytes | src/include/storage/serializer/serializer.hpp:86-94 | a list is eight bytes of length and its items in order |
| Serialization.MapBytes | src/include/storage/serializer/serializer.hpp:110-121 | a map is eight bytes of length and its pairs in order |
| Serialization.PairBytes | src/include/storage/serializer/serializer.hpp:115-118 | a pair is 00 00, key, 01 00, value, FF FF |
| Serialization.PointerBytes | src/include/storage/serializer/serializer.hpp:66-75 | a pointer is 00, or 01 and its target |
| Serialization.ObjectBytes | src/include/storage/serializer/serializer.hpp:21-43 | an object is its properties, each behind its id low byte first, and FF FF; an optional one at its default is left out |
| Serialization.ClosedAt | src/storage/serializer/binary_deserializer.cpp:43-50 | an object ends exactly where FF FF is next or pending |
| Serialization.NextFieldIs | src/include/storage/serializer/binary_deserializer.hpp:71-77 | the next field is the pending one or two bytes, low byte first |
| Serialization.AnyByteButZero | src/include/storage/serializer/deserializer.hpp:86-99 | any byte but zero reads as true and as a pointer that is there |
| Serialization.FieldsRoundTrip | src/storage/serializer/binary_deserializer.cpp:24-37 | fields read back in order, absent ones as their defaults, and what followed is still pending |
| Serialization.NextIdDiffers | src/include/storage/serializer/binary_deserializer.hpp:57-77 | what follows an absent optional field never begins with its id |
| Serialization.PairsRoundTrip | src/include/storage/serializer/deserializer.hpp:128-143 | maps with distinct keys read back pair by pair |
| Serialization.LaterPairWins | src/include/storage/serializer/deserializer.hpp:128-143 | of two pairs with one key the later stays |
| Serialization.UnterminatedRoundTrip | src/include/meta/catalog.hpp:80-117 | an object that ends in a mandatory field needs no terminator |
| Serialization.PointerToValue | src/include/storage/serializer/deserializer.hpp:86-99 | a pointer to a non-object is read exactly if a terminator happens to follow, and swallows it |
| Serialization.OptionalEndIff | src/storage/serializer/binary_deserializer.cpp:24-33 | a last optional field left out is recognised if and only if two bytes other than its id follow |
| Serialization.DecodeShrinks | src/storage/serializer/memory_stream.cpp:37-43 | reading only takes bytes away |
| Serializers.MemoryStream.WriteData | src/storage/serializer/memory_stream.cpp:23-35 | the bytes are appended, the buffer doubled exactly as often as needed; refused exactly if a foreign buffer is too small |
| Serializers.MemoryStream.ReadData | src/storage/serializer/memory_stream.cpp:37-43 | the next bytes, or the exception exactly if too few are left |
| Serializers.BinarySerializer.WriteValue | src/include/storage/serializer/serializer.hpp:45-131 | exactly the encoding of the value is appended; a flag as 01 or 00, an object with FF FF at its end |
| Serializers.BinarySerializer.WriteField | src/include/storage/serializer/serializer.hpp:32-43 | a field equal to its default is not written at all |
| Serializers.BinaryDeserializer.ReadValue | src/include/storage/serializer/deserializer.hpp:61-232 | returns what the format says the bytes mean, and fails exactly where the format does |
| Serializers.BinaryDeserializer.ReadField | src/include/storage/serializer/deserializer.hpp:41-51 | an optional field is taken from the lookahead or defaulted, a mandatory one must be next |
| Serializers.BinaryDeserializer.NextField | src/include/storage/serializer/binary_deserializer.hpp:71-77 | the pending field if there is one, else the next two bytes |
| Serializers.BinaryDeserializer.OnObjectEnd | src/storage/serializer/binary_deserializer.cpp:43-50 | accepted exactly if FF FF is next or pending; then it is consumed and the level lowered |
| Catalogs.CatalogOk | src/include/meta/catalog.hpp:80-95 | the catalog's message, with tables, schemas, columns and indexes, is one the format can carry |
| Catalogs.CatalogRoundTrip | src/include/meta/catalog.hpp:80-117 | the unterminated catalog reads back whatever the file holds behind it |
| Catalogs.PersistThenLoad | src/include/meta/catalog.hpp:60-117 | persisting writes the catalog and a file for each table; loading returns the catalog, or the exception exactly if the magic bytes differ |
| Catalogs.TableFileReadsBack | src/include/meta/catalog.hpp:69-76 | the file of each table reads back as its properties whatever follows it |
| CatalogFiles.ColumnIs | src/include/meta/column.hpp:53-58 | the bytes of a column: ids 100 to 103 with name, type, length and offset, and FF FF |
| CatalogFiles.SchemaIs | src/include/meta/schema.hpp:47-51 | the bytes of a schema: ids 100 to 102 with columns, string columns and inline size, and FF FF |
| CatalogFiles.TableIs | src/include/storage/table/table_meta.hpp:22-29 | the bytes of a table: ids 100 to 105 with name, id, schema, last page, last heap page and count |
| CatalogFiles.IndexIs | src/include/index/index.hpp:42-50 | the bytes of an index: ids 100 to 106 with its seven properties, and FF FF |
| CatalogFiles.CatalogIs | src/include/meta/catalog.hpp:79-95 | the bytes of the catalog: ids 100 to 103 with each map that is not empty, and 104 with the magic bytes |
| CatalogFiles.SaveTable | src/include/meta/catalog.hpp:69-76 | the file of a table is exactly those bytes |
| CatalogFiles.LoadTable | src/include/storage/table/table_meta.hpp:31-41 | a saved table comes back with its six properties in their own places |
| CatalogFiles.SaveCatalog | src/include/meta/catalog.hpp:60-77 | the file of the catalog and of each table are exactly those bytes |
| CatalogFiles.LoadCatalog | src/include/meta/catalog.hpp:97-117 | a saved catalog comes back with everything in its own place, or fails exactly if the magic bytes differ |
| Catalogs.SerializeThenDeserialize | test/storage/serializer_test.cpp:92-97 | any object written and read back is the object, and exactly its bytes were read |
| Watermarks.Watermark.AddTxn | src/include/concurrency/watermark.hpp:15-30 | one more reader runs at exactly that timestamp, or it is refused exactly before the last commit; the watermark moves to the first reader from it on, and stays the minimum if and only if no reader runs before it |
| Watermarks.Watermark.RemoveTxn | src/include/concurrency/watermark.hpp:32-47 | one reader fewer runs at exactly that timestamp; the watermark moves to the first reader left from it on, at a cost of its advance plus one, or back to the last commit without any; it drops if and only if the last reader leaves a watermark past the last commit |
| Watermarks.Watermark.UpdateCommitTs | src/include/concurrency/watermark.hpp:51-53 | leaves an exact watermark exact, and an inexact one inexact, while readers run; without any it is exact if and only if the commit does not fall behind it |
| Watermarks.Watermark.GetWatermark | src/include/concurrency/watermark.hpp:55-60 | the last commit without readers; else the least running reader if and only if the watermark is exact |
| Watermarks.TwoReaders | test/concurrency/concurrency_test.cpp:39-69 | two readers at one timestamp hold the watermark there until both are gone |
| Watermarks.Run | src/include/concurrency/watermark.hpp:14-60 | over every run that keeps the watermark exact, as many readers run at each timestamp as ran there plus those begun minus those ended, and the turns of the loops are exactly the advance, one for each begun or ended reader, and what the run lost |
| Watermarks.Amortised | src/include/concurrency/watermark.hpp:14-60 | in a disciplined run nothing is lost, the watermark stays the minimum, what a caller is told never decreases, and the next run can follow |
| Watermarks.DropsExactly | src/include/concurrency/watermark.hpp:32-60 | what a caller is told drops if and only if the last reader leaves a watermark past the last commit or the last commit is set back while nobody reads |
| Watermarks.Thrash | src/include/concurrency/watermark.hpp:24-46 | readers past the last commit make the loops turn without bound while the watermark stays |
| Watermarks.EarlyReader | src/include/concurrency/watermark.hpp:15-30 | a reader before the running ones is not tracked, and ending the others leaves the loop nothing to find |
| Watermarks.TransactionManager.Begin | src/include/concurrency/transaction_manager.hpp:12-24 | a new id, the last commit as read timestamp, and neither exception can happen |

## Left out

- BTreeSteps.InsertChanges: speaks of entries; the parent ids of moved children are written without their latches, as at src/include/storage/page/btree_internal_page.hpp:137-140.
- BTreeIndexes.BTreeIndex.InternalScanKey: requires a root, as the assertion at src/include/index/bplus_tree_index.hpp:277 does.
- BTreePages.BtreeLeafPage.Insert: the program's two views of one page share memory; here a view is loaded and stored per call, so aliasing of views and the order of re-parenting and copy-back inside one split do not show.
- PageStores.PageStore.InsertThroughBuffer: the index runs over page memory that keeps what is stored, not over the evicting pool, because it does not keep the pool's discipline: besides its clean unpins it writes new roots while nothing pins them.
- BufferPools.BufferPool.FetchPage: pages are handed out as frame numbers, not references; pins are unbounded, the program's are 16 bits.
- BufferPools.BufferPool.NewPage: the page id is given by the caller in place of the allocator object.
- Tuples.NewTuple: the tuple must stay below 2^32 bytes; beyond, the program's size counter wraps and it writes past its buffer.
- Serialization.PairsRoundTrip: a map is the list of its pairs in the order they are walked; the program's hash maps may walk in another order when read back.
- Serialization.RoundTrip: a string or list too long for its count field is not representable, so its truncation is not modelled.
- TableHeaps.TableHeap.InsertTuple: the page counter is required to stay in its 32 bits.
- TableRuns.RunSteps: over a pool that can lose frames a run stops when fewer than two are spare; when that is, is stated at the pool.
- TablePages.TablePage.InsertTuple: the order of the members inside a slot is the standard library's choice; declaration order is used.
- `DeletePage` of the pool, which nothing calls and which leaves the replacer out of date.
- Deletion from the index, `Commit` and `Abort`, which are stubs.
- VARCHAR and TIMESTAMP index keys, which take raw memory of the value's representation.
- BOOLEAN values, which fail their own type check, and null values, floating point, sets and pairs in the serializer.
- `Column::schema_offset_`, which is not serialized.
- The executors, among them the second count of each inserted tuple at src/query/executors/insert_executor.cpp:31.
- SQL parsing, binding and planning; file and path handling; logging.
- Thread interleavings: one operation at a time, with its latches and pins accounted for.
