# RMDB in Dafny

A model of the core of RMDB, a teaching relational database written in C++, with proofs
about it. `dafny verify dfyconfig.toml` checks all of it.

## What is modelled

**Buffer pool** (`Pool`, `PoolInvariant`, `PoolRuns`, `LruReplacer`, `BufferPool`, `PageAccess`).
Every public operation of the buffer pool manager holds one latch for its whole body, so it is
one atomic step. `Pool` gives the steps as functions on a state (frames, page table, free list,
replacer list, disk, page counters). `BufferPool` and `LruReplacer` hold the classes, whose methods
are proved equal to those steps. Over every run of every client that fetches existing pages,
writes only into pages it holds and marks what it changed before giving up its last pin:
frames are conserved, the page table is a bijection, the victim is the frame that became
evictable longest ago, a pinned frame is never reused, and the pool behaves like a plain map from pages to bytes.

**Record files** (`Bytes`, `Bitmap`, `RecordPage`, `RecordFile`, `RmFiles`, `RecordRuns`, `RmScans`).
Pages are 4096 bytes; header fields, bitmap and slots are read from and written to those bytes.
`RmFileHandle` works on top of the buffer pool class. Each operation is proved against a map from
record positions to bytes, keeps the chain of pages with free slots, gives back every pin it took,
changes nothing of other files in the pool, and leaves everything as it was when it fails, with the
exact condition for every error. A scan visits exactly the records, each once, in order, unless all
frames are pinned and a page of the file is not in memory.

**Planner** (`Conditions`, `PlanTrees`, `Meta`, `Planner`).
Join nodes are objects whose condition lists `push_conds` changes in place. Plans get a
compositional meaning (scans filter, joins combine), and the whole of `make_one_rel` is proved to
preserve the meaning of the query, exactly when comparisons inside one table are confined to the
first table of the query.

**Index helpers** (`IndexTree`, `LeafChain`, `IndexHandles`).
Updating the keys above a changed node, unlinking a leaf, and scanning leaf entries.

**Codecs** (`TextStream`, `CatalogText`, `TupleCodec`, `KeyOrder`, `BinaryCodec`).
The catalog file character by character, packed records, index keys and their order, the index
file header and insert log records.

## Where the code does not do what one would expect

The model keeps the code's behaviour; the members named show it on an input or say exactly when it happens.

- `pop_conds` takes a comparison between two columns of one table without looking at which table
  it is, so the first scan built takes all of them (`Planner.MisplacedComparison`, `Planner.PlanIsRight`).
- A fetch that fails to read leaves its frame pinned by nobody and in no list (`PoolRuns.LeakedFrame`, `PoolInvariant.FetchKeeps`).
- A change that was never marked dirty is gone after an eviction (`PoolRuns.LostWrite`, `PoolInvariant.UnpinEffect`, `PoolRuns.EvictionKeeps`).
- A new page never joins the chain, so without inserts at a given position no page ever gets a second record and space that deletes free is never used again (`RecordRuns.EveryInsertAddsAPage`).
- The insert at a given position does not take a page that it fills up out of the chain (`RecordFile.FullHead`, `RecordFile.FillChain`).
- A string with an embedded NUL is cut there when it is read (`TupleCodec.EmbeddedNul`, `TupleCodec.NulCuts`).
- Reading an index file header appends to the column vectors, and both directions abort unless the total length was brought up to date (`BinaryCodec.HdrRoundTrip`).
- Unlinking a leaf does not update the handle's first and last leaf, so for these two the full scan goes wrong (`LeafChain.FirstErased`, `LeafChain.LastErased`, `LeafChain.ErasedScan`).
- A NaN in a float column is level with every number, so keys with one are not ordered (`KeyOrder.NanBreaksOrder`).
- A new page clears as many bitmap bytes as a page has records, not as the bitmap has bytes; this stays inside the page (`RecordPage.LayoutFits`, `RecordPage.InitView`).

Every lemma carries `{:induction false}`, and all inductions are written out in the proofs. Keep the
attribute on new lemmas: in Dafny 4.11 the hypothesis that automatic induction adds to a lemma is not
guarded by the type of its variable. Without the attribute this lemma is accepted, although
`cols == [C(0, 0)]`, `values == [I(0)]`, `n == 0` and `k == 0` meet its requires; with it the lemma is refused.

```dafny
datatype C = C(len: int, offset: int)
datatype D = I(i: int) | S(s: int)
predicate P(d: D) { d.I? ==> d.i < 5 }
function Width(cols: seq<C>): int {
  if cols == [] then 0 else Width(cols[..|cols| - 1]) + cols[|cols| - 1].len
}
ghost predicate Tiled(cols: seq<C>) {
  forall i :: 0 <= i < |cols| ==> cols[i].len >= 0 && cols[i].offset == Width(cols[..i])
}
lemma Wrong(cols: seq<C>, values: seq<D>, n: nat, k: nat)
  requires Tiled(cols) && k < |cols| == |values| && P(values[k]) && n == Width(cols)
  ensures false
{ }
```

## Model

| member | source | states |
|---|---|---|
| `Conditions.SwapKeepsMeaning` | src/optimizer/planner.cpp:92-96 | exchanging the sides and mirroring the operator selects the same rows; doing it twice gives the condition back |
| `Conditions.NormHolds` | src/optimizer/planner.cpp:92-96 | a condition holds iff all its forms up to side swap do |
| `PlanTrees.DenoteDefined` | src/optimizer/plan.h:56-102 | a plan can be evaluated iff every condition sits at a node that has its columns |
| `PlanTrees.DenoteFlat` | src/optimizer/plan.h:56-102 | the compositional meaning of an evaluable plan is: row combinations of its leaves that pass all its conditions |
| `PlanTrees.PlanMeaning` | src/optimizer/plan.h:56-102 | a plan with the query's tables as leaves, once each, and the query's conditions up to side swap, yields exactly the query's answers iff it can be evaluated |
| `PlanTrees.Push` | src/optimizer/planner.cpp:61-102 | the result code is in range and a push that does not reach both tables changes nothing |
| `PlanTrees.PushCode` | src/optimizer/planner.cpp:61-102 | the result code says exactly which of the two tables are below; with both below, the condition lands at their lowest common join, its left column from the left subtree |
| `PlanTrees.MeetEffect` | src/optimizer/planner.cpp:79-99 | adding at the meet keeps the leaves, adds exactly that condition up to side swap, and keeps evaluability |
| `PlanTrees.MeetHere` | src/optimizer/planner.cpp:89-98 | the same for a condition added at the root, as it is or turned round |
| `PlanTrees.PushFilters` | src/optimizer/planner.cpp:61-102 | on every database, pushing a condition down filters what the plan yields by that condition |
| `Meta.IsIndex` | src/system/sm_meta.h:88-101 | true iff some index of the table has exactly these columns in this order |
| `Planner.PopConds` | src/optimizer/planner.cpp:44-59 | in-place removal splits the list into the taken and the left conditions, both in order |
| `Planner.PopMembers` | src/optimizer/planner.cpp:44-59 | a condition is taken iff it is in the list and belongs to the table |
| `Planner.PopSplits` | src/optimizer/planner.cpp:44-59 | nothing is lost or doubled: taken and left conditions together are the list as a bag |
| `Planner.GetIndexCols` | src/optimizer/planner.cpp:26-35 | collects the columns compared for equality with a value; true iff an index has exactly those columns; an error iff the table is missing |
| `Planner.PushConds` | src/optimizer/planner.cpp:61-102 | on heap nodes, changes the tree as `Push` and returns its code |
| `Planner.BuildScans` | src/optimizer/planner.cpp:147-161 | one scan per table with the conditions popped for it, an index scan iff an index fits; an error iff a table is missing |
| `Planner.ScansKeepBag` | src/optimizer/planner.cpp:147-161 | the conditions of the scans and those left are together the query's conditions |
| `Planner.RestAreJoins` | src/optimizer/planner.cpp:147-161 | only comparisons between two different tables are left for the joins |
| `Planner.ScansScoped` | src/optimizer/planner.cpp:147-161 | all scans can evaluate their conditions iff comparisons inside one table are confined to the first table |
| `Planner.FindScan` | src/optimizer/planner.cpp:104-117 | the first scan of the table asked for, or the number of scans |
| `Planner.PopScan` | src/optimizer/planner.cpp:104-117 | returns the first scan of the table, flags it and records the table as joined; nothing if there is none |
| `Planner.StartJoin` | src/optimizer/planner.cpp:182-206 | builds the first join as the specification `FirstJoin` |
| `Planner.Attach` | src/optimizer/planner.cpp:221-244 | the three ways of adding a condition: a new pair of scans, one new scan, or pushed down |
| `Planner.NextJoin` | src/optimizer/planner.cpp:209-246 | one pass of the loop is one step of the specification |
| `Planner.JoinStepKeeps` | src/optimizer/planner.cpp:209-246 | the loop invariant: the tree joins exactly the flagged scans, each once, with their conditions and those placed so far |
| `Planner.JoinFoldState` | src/optimizer/planner.cpp:182-246 | after the loop every join condition is in the tree exactly once |
| `Planner.JoinByConds` | src/optimizer/planner.cpp:182-246 | the loop computes the fold of the steps |
| `Planner.JoinRemaining` | src/optimizer/planner.cpp:253-258 | every scan not yet joined is joined at the left |
| `Planner.RemainCovers` | src/optimizer/planner.cpp:253-258 | afterwards the tree joins all scans, each once, and has no other conditions than before |
| `Planner.JoinScans` | src/optimizer/planner.cpp:163-262 | the joins over the scans compute `OneRel` |
| `Planner.PlanShape` | src/optimizer/planner.cpp:142-262 | every table is a leaf exactly once, every condition is kept exactly once up to side swap, and all are evaluable iff comparisons inside one table are confined to the first table |
| `Planner.PlannerPreservesMeaning` | src/optimizer/planner.cpp:142-262 | on every database the plan yields exactly the query's answers iff comparisons inside one table are confined to the first table |
| `Planner.PlanIsRight` | src/optimizer/planner.cpp:142-262 | the same, quantified over all databases |
| `Planner.MisplacedComparison` | src/optimizer/planner.cpp:44-59 | a query on which the plan cannot be evaluated |
| `Planner.MakeOneRel` | src/optimizer/planner.cpp:142-262 | fails iff a table is missing or a join is needed and no join is enabled; otherwise, for a well-posed query, the plan it builds is right on all databases iff comparisons inside one table are confined to the first table |
| `PoolInvariant.VictimTaken` | src/storage/buffer_pool_manager.cpp:18-34 | a victim is had iff some frame is unpinned, and it leaves its list |
| `PoolInvariant.LoadInv` | src/storage/buffer_pool_manager.cpp:42-73 | handing a frame to another page keeps the invariant |
| `PoolInvariant.LoadEffect` | src/storage/buffer_pool_manager.cpp:42-73 | if nothing can be lost, the page is loaded and no other page changes its bytes or pins, the evicted one included |
| `PoolInvariant.FetchKeeps` | src/storage/buffer_pool_manager.cpp:82-131 | no frame iff the page is absent and all frames are pinned; a read error iff the disk does not reach the page; the invariant holds afterwards iff there was no read error |
| `PoolInvariant.FetchEffect` | src/storage/buffer_pool_manager.cpp:82-131 | a fetch returns the page's bytes, adds one pin, and changes no other page |
| `PoolInvariant.UnpinKeeps` | src/storage/buffer_pool_manager.cpp:139-183 | invariant kept |
| `PoolInvariant.UnpinEffect` | src/storage/buffer_pool_manager.cpp:139-183 | takes one pin if there is one, changes no bytes; afterwards something can be lost iff it was the last pin of a clean page that differs from the disk |
| `PoolInvariant.FlushKeeps` | src/storage/buffer_pool_manager.cpp:190-218 | invariant kept |
| `PoolInvariant.FlushEffect` | src/storage/buffer_pool_manager.cpp:190-218 | the page is on disk as in memory; nothing else changes |
| `PoolInvariant.NewKeeps` | src/storage/buffer_pool_manager.cpp:225-264 | invariant kept; no frame iff all are pinned |
| `PoolInvariant.NewEffect` | src/storage/buffer_pool_manager.cpp:225-264 | the new page did not exist, is zero, and is pinned once; no other page changes |
| `PoolInvariant.DeleteKeeps` | src/storage/buffer_pool_manager.cpp:271-317 | invariant kept |
| `PoolInvariant.DeleteEffect` | src/storage/buffer_pool_manager.cpp:271-317 | dropping an unpinned page from memory loses no bytes |
| `PoolInvariant.FlushAllKeeps` | src/storage/buffer_pool_manager.cpp:323-338 | invariant kept |
| `PoolInvariant.FlushAllEffect` | src/storage/buffer_pool_manager.cpp:323-338 | every unpinned page of the file is on disk with its bytes; no page changes |
| `PoolInvariant.ListsFit` | src/storage/buffer_pool_manager.cpp:18-34 | the free list and the replacer's list together hold at most as many frames as the pool has |
| `PoolRuns.StepKeepsInv` | src/storage/buffer_pool_manager.cpp:82-338 | any operation keeps conservation of frames and the page table bijection iff it is not a fetch with a read error |
| `PoolRuns.StepLruOrder` | src/replacer/lru_replacer.cpp:22-96 | any operation keeps the replacer's list in the order in which frames became evictable |
| `PoolRuns.StepTracks` | src/storage/buffer_pool_manager.cpp:82-338 | any allowed operation keeps the pool's contents equal to a plain map |
| `PoolRuns.StepSynced` | src/storage/buffer_pool_manager.cpp:82-338 | any allowed operation keeps clean pages equal to the disk |
| `PoolRuns.StepGood` | src/storage/buffer_pool_manager.cpp:82-338 | an allowed step never hits a read error and keeps the whole invariant |
| `PoolRuns.RunGood` | src/storage/buffer_pool_manager.cpp:82-338 | the whole invariant holds in every state of every run, and the two lists never outgrow the pool |
| `PoolRuns.TransparentCache` | src/storage/buffer_pool_manager.cpp:82-131 | in every run a fetch returns a frame with the bytes last written to the page, whatever was evicted, or fails because all frames are pinned |
| `PoolRuns.VictimIsOldest` | src/replacer/lru_replacer.cpp:22-45 | in every run, with no free frame, the victim is the unpinned frame whose pin count reached zero longest ago |
| `PoolRuns.PinnedStable` | src/storage/buffer_pool_manager.cpp:18-73 | in every run a frame keeps its page while pinned, and its bytes unless that page is written |
| `PoolRuns.PinnedExclusive` | src/storage/buffer_pool_manager.cpp:18-34 | in every run a pinned frame is not handed out for another page |
| `PoolRuns.EvictionKeeps` | src/storage/buffer_pool_manager.cpp:42-73 | handing a frame to another page keeps the old page's bytes iff that is dirty or equal to the disk |
| `PoolRuns.FetchEvicts` | src/storage/buffer_pool_manager.cpp:82-131 | the same for an eviction by a fetch |
| `PoolRuns.NewEvicts` | src/storage/buffer_pool_manager.cpp:225-264 | the same for an eviction by a new page |
| `PoolRuns.LeakedFrame` | src/storage/buffer_pool_manager.cpp:82-131 | a fetch past the end of a file in a pool of one frame: from then on no frame can be had although none is pinned |
| `PoolRuns.LostWrite` | src/storage/buffer_pool_manager.cpp:139-183 | a page written but not marked is gone after an eviction, and is kept if marked |
| `LruReplacers.LruReplacer.constructor` | src/replacer/lru_replacer.cpp:13-13 | an empty list |
| `LruReplacers.LruReplacer.Victim` | src/replacer/lru_replacer.cpp:22-45 | removes and returns the last frame of the list; false iff it is empty |
| `LruReplacers.LruReplacer.Pin` | src/replacer/lru_replacer.cpp:51-62 | removes the frame from list and hash map, no other |
| `LruReplacers.LruReplacer.Unpin` | src/replacer/lru_replacer.cpp:67-96 | puts the frame at the front unless it is listed; the hash map keeps pointing at each frame's cell |
| `LruReplacers.LruReplacer.Size` | src/replacer/lru_replacer.cpp:101-101 | the number of listed frames |
| `BufferPool.DiskManager.constructor` | src/storage/disk_manager.cpp:23-23 | no page and no counter |
| `BufferPool.DiskManager.WritePage` | src/storage/disk_manager.cpp:32-54 | that page and no other |
| `BufferPool.DiskManager.ReadPage` | src/storage/disk_manager.cpp:63-85 | fails iff the file does not reach past the page |
| `BufferPool.DiskManager.SetPageCounter` | src/storage/disk_manager.h:81-81 | sets the file's page counter, no other |
| `BufferPool.DiskManager.AllocatePage` | src/storage/disk_manager.cpp:92-96 | returns the counter and increments it |
| `BufferPool.BufferPoolManager.constructor` | src/storage/buffer_pool_manager.h:37-53 | all frames free, over the given disk |
| `BufferPool.BufferPoolManager.ReplacerFits` | src/replacer/lru_replacer.cpp:101-101 | the replacer never holds more frames than the size it was made for, that of the pool |
| `BufferPool.BufferPoolManager.FindVictimPage` | src/storage/buffer_pool_manager.cpp:18-34 | refines the victim step |
| `BufferPool.BufferPoolManager.UpdatePage` | src/storage/buffer_pool_manager.cpp:42-73 | refines the hand-over step |
| `BufferPool.BufferPoolManager.FetchPage` | src/storage/buffer_pool_manager.cpp:82-131 | refines the fetch step, in state and outcome |
| `BufferPool.BufferPoolManager.UnpinPage` | src/storage/buffer_pool_manager.cpp:139-183 | refines the unpin step |
| `BufferPool.BufferPoolManager.FlushPage` | src/storage/buffer_pool_manager.cpp:190-218 | refines the flush step |
| `BufferPool.BufferPoolManager.NewPage` | src/storage/buffer_pool_manager.cpp:225-264 | refines the new-page step |
| `BufferPool.BufferPoolManager.DeletePage` | src/storage/buffer_pool_manager.cpp:271-317 | refines the delete step |
| `BufferPool.BufferPoolManager.FlushAllPages` | src/storage/buffer_pool_manager.cpp:323-338 | the loop over the page table, in any order, refines the flush-all step |
| `BufferPool.VisitAll` | src/storage/buffer_pool_manager.cpp:323-338 | visiting every entry of the page table writes exactly the file's dirty pages |
| `BufferPool.BufferPoolManager.MarkDirty` | src/storage/buffer_pool_manager.h:64-64 | marks the page dirty |
| `Bitmap.SetOneBit` | src/record/bitmap.h:24-27 | setting or resetting a bit changes that bit and no other |
| `Bitmap.NextBit` | src/record/bitmap.h:40-47 | the first position after `curr` with the bit asked for, or the limit |
| `Bitmap.FirstBit` | src/record/bitmap.h:50-50 | the first position with the bit asked for, or the limit |
| `RecordPage.CreateHdr` | src/record/rm_manager.h:34-49 | fails iff the record size is out of range; otherwise a well-formed layout, one page, no free page |
| `RecordPage.CapacityFits` | src/record/rm_manager.h:46-49 | for every legal record size the computed number of records, with its bitmap, fits a page, and is at least seven |
| `RecordPage.LayoutFits` | src/record/rm_file_handle.h:31-40 | header, bitmap and slots do not overlap and end inside the page |
| `RecordPage.SlotsApart` | src/record/rm_file_handle.h:38-40 | two slots do not overlap |
| `RecordPage.PutView` | src/record/rm_file_handle.h:31-40 | copying a record into a slot changes that slot and nothing else of the page |
| `RecordPage.PutOther` | src/record/rm_file_handle.h:38-40 | reading a slot after writing one gives the written bytes iff it is the same slot, else the old bytes |
| `RecordPage.MarkView` | src/record/bitmap.h:24-24 | setting a bit changes that bit and nothing else of the page |
| `RecordPage.ClearView` | src/record/bitmap.h:27-27 | resetting a bit changes that bit and nothing else of the page |
| `RecordPage.SetNumView` | src/record/rm_defs.h:42-45 | the record count field is apart from everything else |
| `RecordPage.SetNextView` | src/record/rm_defs.h:42-45 | the link field is apart from everything else |
| `RecordPage.InitView` | src/record/rm_file_handle.cpp:255-263 | a new page has no records and no link, whatever its bytes were |
| `RecordFile.FillRecords` | src/record/rm_file_handle.cpp:113-138 | filling a slot changes the record map at that position only, and the record count stays right |
| `RecordFile.VacateRecords` | src/record/rm_file_handle.cpp:145-177 | vacating a slot removes that record only, and the record count stays right |
| `RecordFile.FillChain` | src/record/rm_file_handle.cpp:113-138 | filling a slot keeps the free-page chain iff it does not fill up a page of the chain |
| `RecordFile.FullHead` | src/record/rm_file_handle.cpp:113-138 | a file whose chain is broken by an insert at a given position |
| `RecordFile.VacateChain` | src/record/rm_file_handle.cpp:145-177 | vacating a slot keeps the chain |
| `RecordFile.FreeSlot` | src/record/rm_file_handle.cpp:57-106 | the record count is below capacity iff some slot is free |
| `PageAccess.PinnedFrames` | src/storage/buffer_pool_manager.cpp:18-34 | pin counts decide whether a frame can be had and, if none can, which pages are in memory |
| `PageAccess.FetchHolds` | src/record/rm_file_handle.cpp:218-235 | a fetched page is held with its current bytes, all other pages unchanged |
| `PageAccess.NewHolds` | src/record/rm_file_handle.cpp:241-274 | a new page is held, zero, and did not exist before |
| `PageAccess.ReleaseRead` | src/record/rm_file_handle.cpp:19-49 | giving back a page that was only read restores all pins and bytes |
| `PageAccess.ReleaseDirty` | src/record/rm_file_handle.cpp:186-208 | giving back a changed page restores all pins and changes that page only |
| `RmFiles.RmFileHandle.constructor` | src/record/rm_file_handle.h:55-63 | opening a file takes over the saved header and sets the page counter |
| `RmFiles.RmFileHandle.FetchPageHandle` | src/record/rm_file_handle.cpp:218-235 | fails iff the page number is out of range or no frame can be had, and then changes nothing; otherwise the page is pinned |
| `RmFiles.RmFileHandle.GetRecord` | src/record/rm_file_handle.cpp:19-49 | the record's bytes, or exactly the error that applies; all pins and all pages of all files as before |
| `RmFiles.RmFileHandle.InsertRecord` | src/record/rm_file_handle.cpp:57-106 | the first free slot of the chain's head, or slot 0 of a new page, gets the record; no other record and no other file changes; the chain is kept; fails exactly when no page can be had, and then nothing changes |
| `RmFiles.RmFileHandle.OpenFreeSlot` | src/record/rm_file_handle.cpp:64-76 | the held page and its first free slot, or exactly the error that applies |
| `RmFiles.RmFileHandle.InsertInto` | src/record/rm_file_handle.cpp:78-103 | the insertion into the held page: records, pins, other files, chain, and unlinking of a page that became full |
| `RmFiles.RmFileHandle.InsertAt` | src/record/rm_file_handle.cpp:113-138 | the record at that position is set or replaced, no other record and no other file changes; the chain is kept iff the insert does not fill up a page of it |
| `RmFiles.RmFileHandle.DeleteRecord` | src/record/rm_file_handle.cpp:145-177 | exactly that record goes, other files unchanged; a page that was full joins the chain at its head; errors change nothing |
| `RmFiles.RmFileHandle.EraseSlot` | src/record/rm_file_handle.cpp:162-174 | the page after the deletion: bit cleared, count lowered, linked to the old head iff it was full |
| `RmFiles.RmFileHandle.UpdateRecord` | src/record/rm_file_handle.cpp:186-208 | exactly that record changes, other files unchanged; chain and pins kept; errors change nothing |
| `RmFiles.RmFileHandle.CreateNewPageHandle` | src/record/rm_file_handle.cpp:241-274 | fails iff all frames are pinned; otherwise the file has one more page, empty and pinned |
| `RmFiles.RmFileHandle.CreatePageHandle` | src/record/rm_file_handle.cpp:282-294 | the head of the chain if there is one, else a new page |
| `RmFiles.RmFileHandle.Close` | src/record/rm_manager.h:77-83 | the header is saved and all pages of the file are flushed; contents as before |
| `RmFiles.InsertChain` | src/record/rm_file_handle.cpp:88-100 | after an insertion the chain is as before, without the page iff that became full |
| `RmFiles.EraseChain` | src/record/rm_file_handle.cpp:299-310 | after a deletion the chain is as before, with the page in front iff that was full |
| `RmFiles.InsertNeverStuck` | src/record/rm_file_handle.cpp:57-106 | while the chain is intact an insertion fails only because all frames are pinned |
| `RmFiles.FreeSlotOf` | src/record/rm_file_handle.cpp:67-71 | the first free slot; none iff the page is full |
| `RmFiles.OtherFile` | src/record/rm_file_handle.cpp:57-208 | what an operation on one file keeps of the pool keeps every other file in order, with the same pages |
| `RmFiles.OtherHandle` | src/record/rm_file_handle.cpp:57-208 | another handle on the same pool stays valid, with the same records and the same chain |
| `RecordRuns.StepSparse` | src/record/rm_file_handle.cpp:241-274 | an operation other than an insert by position keeps the chain empty and every page at no more than one record; exactly a successful insert adds a page |
| `RecordRuns.EveryInsertAddsAPage` | src/record/rm_file_handle.cpp:241-294 | over every run from a new file without inserts by position: no page is ever full, the chain stays empty, the file has one page per successful insert besides its header page |
| `RmFiles.ReopenedFile` | src/record/rm_manager.h:66-83 | closing a file and opening it in a new pool over the same disk gives the same records and the same chain |
| `RmScans.NextUsed` | src/record/rm_scan.cpp:49-51 | the next used slot after the current one, skipping only free slots |
| `RmScans.RmScan.constructor` | src/record/rm_scan.cpp:22-28 | the position before the first move: before the first slot of the first data page, or the end without a file |
| `RmScans.OpenScan` | src/record/rm_scan.cpp:18-33 | the constructor with its first move: the scan stands at the smallest record, or at its end; fails exactly as a move |
| `RmScans.RmScan.Next` | src/record/rm_scan.cpp:38-69 | moves to the smallest record after the current position, or to the end if there is none; fails iff all frames are pinned and a page it has to look at is not in memory; pins and contents as before |
| `RmScans.RmScan.Search` | src/record/rm_scan.cpp:45-68 | the loop of a move, with the same exact error |
| `RmScans.RmScan.LookInPage` | src/record/rm_scan.cpp:47-60 | the next used slot of one page; fails iff all frames are pinned and the page is not in memory |
| `RmScans.VisitedAll` | src/record/rm_scan.cpp:38-69 | a scan that reached its end visited exactly the records of the file |
| `RmScans.ScanAll` | src/unit_test.cpp:131-136 | the client loop terminates and visits every record once, in ascending order; it fails iff all frames are pinned and some page of the file is not in memory |
| `IndexTree.KeyCopied` | src/index/ix_index_handle.cpp:460-477 | copying a child's first key into its parent's entry moves the one entry that may be wrong a level up |
| `IndexTree.EntryRight` | src/index/ix_index_handle.cpp:460-477 | stopping early is right: if the entry is already equal all entries are |
| `IndexHandles.IndexHandle.FindChild` | src/index/ix_index_handle.h:148-157 | the rank at which the parent holds the child |
| `IndexHandles.IndexHandle.MaintainParent` | src/index/ix_index_handle.cpp:460-477 | terminates with every parent entry equal to its child's first key; keeps the shape and changes only nodes above the given one |
| `IndexHandles.IndexHandle.LeafEnd` | src/index/ix_index_handle.cpp:402-407 | the position after the last entry of the last leaf |
| `IndexHandles.IndexHandle.LeafBegin` | src/index/ix_index_handle.cpp:415-418 | the first position of the first leaf |
| `IndexHandles.IndexHandle.EraseLeaf` | src/index/ix_index_handle.cpp:484-494 | links the leaf's neighbours with each other and changes nothing else |
| `LeafChain.UnlinkedChain` | src/index/ix_index_handle.cpp:484-494 | any leaf goes out of the list, and the list of the others is well linked both ways |
| `LeafChain.UnlinkedEntries` | src/index/ix_index_handle.cpp:484-494 | the entries of that list are those before without the ones of that leaf |
| `LeafChain.FirstErased` | src/index/ix_index_handle.cpp:484-494 | after the first leaf was erased the full scan still gives its entries |
| `LeafChain.LastErased` | src/index/ix_index_handle.cpp:484-494 | after the last leaf was erased the full scan misses its end |
| `LeafChain.ErasedScan` | src/index/ix_index_handle.cpp:402-494 | with the handle's bounds unchanged, the full scan gives the entries without those of the erased leaf iff that was neither first nor last |
| `LeafChain.NextEntry` | src/index/ix_scan.cpp:17-29 | from the position of an entry the scan moves to the next entry, across leaves, or to the end |
| `LeafChain.EntriesDistinct` | src/index/ix_scan.cpp:17-29 | no position occurs twice, so the end test cannot stop a scan early |
| `LeafChain.RangeYields` | src/index/ix_scan.cpp:17-29 | a scan between two positions goes through exactly the entries between them |
| `LeafChain.FullYields` | src/index/ix_index_handle.cpp:402-418 | a scan from the first to the end position goes through all entries |
| `IndexHandles.RunScan` | src/index/ix_scan.cpp:17-29 | the scan loop goes through the positions it is to go through, and terminates |
| `IndexHandles.ScanLeaves` | src/index/ix_index_handle.cpp:402-418 | from `leaf_begin` to `leaf_end` the scan loop gives all entries |
| `IndexHandles.EraseAndScan` | src/index/ix_index_handle.cpp:484-494 | erasing an inner leaf and scanning gives the other entries |
| `IndexHandles.IxScan.Next` | src/index/ix_scan.cpp:17-29 | one move |
| `IndexHandles.ScanRange` | src/index/ix_scan.cpp:17-29 | a scan from one position to a later one terminates and gives exactly the entries between them |
| `CatalogText.ColText` | src/system/sm_meta.h:31-35 | a printed column has the words of its six fields |
| `CatalogText.ParseColTakes` | src/system/sm_meta.h:37-39 | reading them gives the column back and consumes exactly them |
| `CatalogText.TabText` | src/system/sm_meta.h:127-137 | a printed table has the words of its name, columns and indexes with their counts |
| `CatalogText.ParseTabTakes` | src/system/sm_meta.h:139-154 | reading them gives the table back and consumes exactly them |
| `CatalogText.CatalogRoundTrip` | src/system/sm_meta.h:187-204 | reading a printed catalog gives the catalog back and leaves no word, in whatever order its tables were printed |
| `CatalogText.WriteDb` | src/system/sm_meta.h:187-193 | the writing loops append the catalog's text |
| `CatalogText.WriteTab` | src/system/sm_meta.h:127-137 | the same for a table |
| `CatalogText.ReadDb` | src/system/sm_meta.h:195-204 | the reading loops compute the parse |
| `CatalogText.ReadTab` | src/system/sm_meta.h:139-154 | the same for a table |
| `CatalogText.ReadIndex` | src/system/sm_meta.h:57-65 | the same for an index |
| `TextStream.ReadIntText` | src/system/sm_meta.h:37-39 | a printed integer, negative or not, is read back whatever text follows, unless that starts with a digit |
| `TupleCodec.CreateCols` | src/system/sm_manager.cpp:162-176 | the columns of a new table tile the record without gaps or overlaps |
| `TupleCodec.InitRaw` | src/common/common.h:56-72 | fails iff a string is longer than its column; otherwise exactly the column's length |
| `TupleCodec.PackRecord` | src/execution/executor_insert.h:40-51 | every column holds the bytes of its value; otherwise the error of the first value that does not fit |
| `TupleCodec.FieldRoundTrip` | src/execution/execution_manager.cpp:175-187 | decoding a packed field gives the value back |
| `TupleCodec.RecordRoundTrip` | src/execution/execution_manager.cpp:175-187 | decoding any column of a packed record gives its value back |
| `TupleCodec.NulCuts` | src/execution/execution_manager.cpp:175-187 | a string comes back iff it has no NUL |
| `TupleCodec.EmbeddedNul` | src/execution/execution_manager.cpp:175-187 | a string that does not come back |
| `KeyOrder.IxCompare` | src/index/ix_index_handle.h:20-47 | the loop compares column by column at a running offset |
| `KeyOrder.KeyTotalOrder` | src/index/ix_index_handle.h:20-47 | without NaN the comparison is a total order on keys, zero exactly on keys equal up to the sign of zeros in float columns |
| `KeyOrder.SameKeyBytes` | src/index/ix_index_handle.h:20-47 | without float columns that is equality of bytes |
| `KeyOrder.FloatInjective` | src/index/ix_index_handle.h:27-31 | floats compare level iff they have equal bytes or are both zero |
| `KeyOrder.NanBreaksOrder` | src/index/ix_index_handle.h:27-31 | float comparison can be chained through a value iff that is not a NaN |
| `KeyOrder.MemcmpOrder` | src/index/ix_index_handle.h:32-33 | byte comparison is a total order |
| `KeyOrder.BuildKey` | src/execution/executor_insert.h:56-64 | the key is the indexed columns' bytes one after the other, whatever was in the buffer |
| `KeyOrder.PaddedCompare` | src/index/ix_index_handle.h:32-33 | on padded string fields it is the order of the strings |
| `KeyOrder.KeyOrderIsFieldOrder` | src/index/ix_index_handle.h:39-47 | comparing the keys of two records is comparing their decoded indexed columns in order |
| `KeyOrder.IndexOrderIsValueOrder` | src/execution/executor_insert.h:40-64 | from values to records to keys: the index order is the order of the inserted values |
| `BinaryCodec.Serialize` | src/index/ix_defs.h:51-89 | the fields one after the other, the rest of the page untouched; its final assertion holds iff the total length is up to date |
| `BinaryCodec.Deserialize` | src/index/ix_defs.h:91-127 | reads every field back and appends the columns to those already there; its final assertion holds iff the total length is up to date |
| `BinaryCodec.HdrRoundTrip` | src/index/ix_defs.h:58-127 | writing and reading completes with the same header iff the total length was brought up to date and the header read into has no columns |
| `BinaryCodec.SerializeLog` | src/recovery/log_manager.h:139-151 | the log header and the insert data one after the other, the rest of the buffer untouched |
| `BinaryCodec.DeserializeLog` | src/recovery/log_manager.h:153-163 | reads the record back from its image, whatever follows |
| `BinaryCodec.LogRoundTrip` | src/recovery/log_manager.h:114-163 | a new insert log record survives the log buffer, and its recorded length is that of its image iff that fits 32 bits |

## Left out

- RmFiles.RmFileHandle.InsertRecord: requires, when it needs a new page, that its number fits 32 bits; the counter's overflow is not modelled.
- Planner.MakeOneRel: the join kind with both joins enabled is nested loop as in the code; duplicate table names are outside the meaning theorem.
- BinaryCodec.LogRoundTrip: requires that the offset of the table name fits 32 bits, as `int offset` overflows beyond that.
- TupleCodec.PackRecord: a float value is its four bytes; conversion from text is not modelled.
- BufferPool.DiskManager.WritePage: system calls that fail or write partially are not modelled; a page is written whole.
- CatalogText.CatalogRoundTrip: names without whitespace and not empty; the order in which tables are printed, that of the map's keys in the code, is a parameter.
- Interleaving of threads inside an operation: every operation holds the latch throughout.
- The file header page: it is read and written outside the pool and is a field of the handle.
- Page allocation of descriptors that are closed and reused for other files.
- Index nodes as pages: nodes are a map by page number, without fetching, pinning or eviction; `IxScan` leaving pages pinned is not modelled.
- B+ tree search, insertion, deletion, splitting and merging: not implemented in the repository.
- Lock manager, transactions, recovery and log flushing: not implemented in the repository.
- Executors, except packing and key building of an insert; the analyzer; ORDER BY.
- SQL lexer and parser, server sockets, client, system and database directories.
- `is_record`, log records other than inserts, printing of tables: would only add easy members.
