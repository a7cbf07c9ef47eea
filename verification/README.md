# Verified core of the ntfs3 driver

This project models the parts of the vendored ntfs3 file-system driver that keep redundant data
structures in step with each other, and proves that they stay in step: the free-space allocator,
the recovery of the volume from its log, the allocation of clusters for attributes, and the packed
attribute list. One small piece of user-space code, the path matcher of the router's web server,
is modelled too.

| module | what it models |
|---|---|
| `Kernel` | error numbers, word sizes, bytes and little-endian numbers |
| `Extents`, `Bits`, `Trees` | runs of free bits and sets of extents that describe them; counting and filling bits; the red-black trees as ordered sets |
| `BitFunc` | `bitfunc.c`: tests of bit ranges by bytes, words and masks |
| `FreeIndex` | `bitmap.c`: the bitmap, its window counters, the index of free extents, the reserved zone |
| `WndScan` | `bitmap.c`: first fit over a bitmap that arrives window by window |
| `RestartTable` | `fslog.c`: tables with a free list threaded through their entries |
| `Recovery`, `DirtyPages`, `Redo` | `fslog.c`: analysis, duplicate removal, redo and undo |
| `LogWalk` | `fslog.c`: positions, sequence numbers and records in the circular log |
| `Space` | `fsntfs.c`: looking for free clusters and giving them back, on the bitmap with its index |
| `Runs`, `Clusters`, `Frames` | `run.c` and `attrib.c`: the map from virtual to logical clusters, allocation with roll-back, compressed frames |
| `AttrList` | `attrlist.c`: entries packed into a buffer of bytes |
| `Glob` | `httpd.c`: the shell-style matcher |

Conventions. Operations that change fields are methods of classes. Whether an allocation succeeds is
up to a field that stands for the environment (`Memory`: always, never, or either at each call), in
the bitmap for its nodes, in runs, tables and the attribute list for their arrays; ghost results
`failed`, `lost` and `starved` say that a node was not to be had, and never do so when there is plenty.
The array of window counters in `Extend` is a free choice. An index of
free extents is judged against an *open map*: bit i is open if it is free and outside the zone.
`Sound` says that every indexed extent is a maximal open run, `Complete` that every maximal open run
is indexed, and `Describes` that the index is sound, and complete when `uptodated` is 1. A run
(`Runs`) is judged by `Find`, the partial map from virtual to logical clusters that it stands for.
Bytes of a log record are judged against `Walk`, which steps from one byte of the log to the next in
log order.

## What the code does not promise

The proofs bring out some corners where a natural expectation is false. The model keeps the code's
behaviour and states when the expectation holds.

- Moving the zone. When taking the new zone out empties a stale index, the nested rescan cuts out
  the old zone (or none). `ZoneSet` says exactly when that happens (`Empties`): with no old zone, if
  the stale index holds just the new zone; if there is no memory to give the old zone back,
  likewise; otherwise only if the index was stale, held neighbours of the old zone only, and the new
  zone is the whole free run around the old one. Making the zone smaller, as every allocation from
  it does, is never of this kind (`ShrinkNotRisky`). The harm is real: `ZoneLost` reaches, from a
  fresh bitmap, a state whose index is up to date and offers the zone. The same nesting can follow
  `wnd_set_used` and a marking `wnd_find`, if they take the last extent of a stale index while a
  zone is set and the rescan runs out of memory (`SetUsed`, `Find`).
- `wnd_find` answers "no space" on a bitmap that is one free run from end to end if the hint cannot
  serve the request (line 1065 tests the biggest extent against `nbits`). `Find` states the exact
  condition.
- Searching a stale index. `wnd_find` may leave a stale index in two ways. If the biggest extent is too
  short, it is lengthened over free bits (lines 1076-1096), which gives nothing new unless the extent
  ends where the zone begins (`LengthenBiggest`); then the search takes bits of the zone, the zone is no
  longer free, and the index goes on offering bits that are used (`Find` with the exact condition
  `ReachesZone`, `TakeIntoZone`, and `ZoneTaken` for a concrete bitmap). If no extent is indexed, or one
  that is the whole bitmap, the search goes over the bitmap itself (`Scans`), of which nothing is said.
- `Risky` collects the requests after which nothing is promised, by what a caller can see. `Run` takes any
  sequence of requests and shows that the index is sound in every state it goes through, and exact whenever
  it claims to be up to date, up to the first request that was risky in the state it met and did harm.
- Redo is idempotent for every page whose records all look at its LSN, and for every page that the
  log writes anew somewhere (`PassTwice`, `Restarted`). An InitializeFileRecordSegment writes a page
  anew if it covers the whole record, or, with the inode not in memory, the sequence number, or if
  the record's new sequence number is fixed (`Rewrites`). Otherwise the two operations that do not
  look at the LSN repeat their effect: a page that is deallocated and whose sequence number is not
  set is changed by each pass (`ReleasedAgain`, `PassTwiceDiffers`), and after an Initialize of a
  part of a record in memory the following operation is applied again: whatever part that is, there
  are an operation and a page that a second pass changes (`PartRepeats`).
- Shrinking a compressed frame frees clusters before the run is changed: if `run_add_entry` then
  fails, the clusters stay free although the call reports an error (`ShrinkFrame`).
- `al_add_le` restores the list if the attribute cannot grow, but not if the final write fails
  (`AddLe`).
- After a failed `attr_allocate_clusters` the run maps nothing from vcn0 on if it did so before, or
  if any fragment had been added (`Allocate`).
- `next_log_lsn` goes forward unless its sum does not fit into 64 bits and what is left looks like an
  LSN of the file (`NextIsGreater`, exactly). A log whose oldest LSN is past its first three rounds
  is safe (`SafeIsGreater`).
- `find_client_next_lsn` goes on from the LSN that a record carries, not from the one it was found
  at. It ends if that LSN is never the smaller one (`FindClientNextLsn`); on a log where it is, the
  loop can come back to the same record for ever (`GoesRound`).
- `next_log_lsn` rounds the offset of a record's last byte up to 8, not the offset behind it: after a
  record whose length is one more than a multiple of 8 it names that last byte (`NextPoints`).
- The comment at `fslog.c` line 1011 gives seq_num_mask as (1 << file_data_bits) - 1; lines 1341
  and 3961 set it to (8 << file_data_bits) - 1, and the model follows them.

## Model

| member | source | states |
|---|---|---|
| `BitFunc.AreBitsClear` | patchs/5.4/files-5.4/fs/ntfs3/bitfunc.c:33-74 | for every alignment, length and word size the answer is the bit-by-bit test, and only the bytes that hold the range need to be readable |
| `BitFunc.AreBitsSet` | patchs/5.4/files-5.4/fs/ntfs3/bitfunc.c:81-128 | the same for set bits |
| `Extents.SameRun` | patchs/5.4/files-5.4/fs/ntfs3/bitmap.c:235-361 | maximal runs that share a bit are equal, so extents of a sound index are disjoint |
| `Extents.RunAt` | patchs/5.4/files-5.4/fs/ntfs3/bitmap.c:501-649 | every open bit lies in a maximal run |
| `Extents.InsideOrApart` | patchs/5.4/files-5.4/fs/ntfs3/bitmap.c:385-430 | an open range lies inside one extent of a sound index or misses them all |
| `Extents.OpenedIndex` | patchs/5.4/files-5.4/fs/ntfs3/bitmap.c:250-358 | opening a range: taking out the neighbours and adding the joined run gives a sound index for the new map, a complete one if it was complete |
| `Extents.ClosedInside` | patchs/5.4/files-5.4/fs/ntfs3/bitmap.c:444-491 | closing a range inside an extent: replacing it by its two remains gives a sound index for the new map, a complete one if it was complete |
| `FreeIndex.WndBitmap.IsFreeHlp` | patchs/5.4/files-5.4/fs/ntfs3/bitmap.c:821-857 | full windows by their counters, others by masked tests: true exactly if all bits of the range are free |
| `FreeIndex.WndBitmap.IsFree` | patchs/5.4/files-5.4/fs/ntfs3/bitmap.c:864-889 | with a sound index the tree shortcut changes nothing: true exactly if all bits are free |
| `FreeIndex.WndBitmap.IsUsed` | patchs/5.4/files-5.4/fs/ntfs3/bitmap.c:896-950 | true exactly if all bits are used |
| `FreeIndex.WndBitmap.InsertFragment` | patchs/5.4/files-5.4/fs/ntfs3/bitmap.c:316-358 | both trees stay equal and within capacity; the fragment is inserted, or replaces a smallest node when full, or is dropped for want of memory, and the latter two make the index stale |
| `FreeIndex.WndBitmap.AddFreeExt` | patchs/5.4/files-5.4/fs/ntfs3/bitmap.c:235-361 | after bits became open the index describes the new map, whatever was merged, extended or dropped; what is given to the trees is the whole maximal run; it stays up to date unless the trees were full or memory ran out; a failed allocation leaves the trees alone |
| `FreeIndex.WndBitmap.AloneAfter` | patchs/5.4/files-5.4/fs/ntfs3/bitmap.c:250-358 | a node is alone after a range was given back exactly if only neighbours of the range were indexed and it is the run around the range |
| `FreeIndex.WndBitmap.LowerMax` | patchs/5.4/files-5.4/fs/ntfs3/bitmap.c:430-443 | extent_max is lowered so that it still bounds, and on an exact index equals, the longest extent |
| `FreeIndex.WndBitmap.CutNode` | patchs/5.4/files-5.4/fs/ntfs3/bitmap.c:444-491 | a node is replaced by what is left of it on both sides; with full trees the right piece takes the place of a smallest node or is dropped; without memory it is dropped |
| `FreeIndex.WndBitmap.CutFreeExt` | patchs/5.4/files-5.4/fs/ntfs3/bitmap.c:366-491 | after bits were closed the index describes the new map; it is empty exactly if it held that range alone |
| `FreeIndex.WndBitmap.RemoveFreeExt` | patchs/5.4/files-5.4/fs/ntfs3/bitmap.c:366-496 | a rescan is made exactly if a stale index held that range alone; which map the index then describes, and that the wrong one takes a failed node allocation |
| `FreeIndex.WndBitmap.ScanWindow` | patchs/5.4/files-5.4/fs/ntfs3/bitmap.c:530-625 | one window, skipped by its cached count or scanned: the index holds exactly the runs that ended, the pending run is carried on, counters are true |
| `FreeIndex.WndBitmap.ScanFresh` | patchs/5.4/files-5.4/fs/ntfs3/bitmap.c:501-638 | from empty trees: counters are true and the index is exactly the maximal free runs, runs across windows joined, unless it reports -1, which it does only if the trees are full or memory ran out |
| `FreeIndex.WndBitmap.Rescan` | patchs/5.4/files-5.4/fs/ntfs3/bitmap.c:501-649 | the same with the zone cut out again; -1 means that memory ran out or the trees are all but full, and missing the zone takes a failed node allocation |
| `FreeIndex.WndBitmap.constructor` | patchs/5.4/files-5.4/fs/ntfs3/bitmap.c:651-680 | after start-up counters are true and the index describes the bitmap, exactly unless the trees are full or memory ran out |
| `FreeIndex.WndBitmap.MarkBits` | patchs/5.4/files-5.4/fs/ntfs3/bitmap.c:725-762 | exactly the range changes; per-window and total counters stay the true counts |
| `FreeIndex.WndBitmap.SetFree` | patchs/5.4/files-5.4/fs/ntfs3/bitmap.c:714-762 | exactly the range becomes free and the index describes the new map; it stays up to date unless the trees were full or memory ran out |
| `FreeIndex.WndBitmap.SetUsed` | patchs/5.4/files-5.4/fs/ntfs3/bitmap.c:767-814 | exactly the range becomes used; the index describes the new map unless the range was all that a stale index held beside a zone and a node allocation failed; an exact index stays exact unless the trees were full or memory ran out |
| `FreeIndex.WndBitmap.LongestRun` | patchs/5.4/files-5.4/fs/ntfs3/bitmap.c:430-443 | on an exact index a run of n open bits exists exactly if n <= extent_max |
| `FreeIndex.WndBitmap.EnoughZeroes` | patchs/5.4/files-5.4/fs/ntfs3/bitmap.c:975-985 | the quick test by counters never refuses a request that fits |
| `FreeIndex.WndBitmap.Find` | patchs/5.4/files-5.4/fs/ntfs3/bitmap.c:959-1108 | where it looks, how much it returns and when it refuses, for every index: the answer starts at the hint if an extent can serve it there and at the start of the biggest extent otherwise, it is free, in bounds, outside the zone, marked if asked for, and shorter than asked for only if the next bit is not open; on an exact index all this is said by the bitmap alone, and "no space" is answered exactly if no run is long enough or in the one whole-bitmap case; exactly when a search of a stale index reaches into the zone, which destroys the index if the bits are marked, and when it goes over the bitmap itself; otherwise the index is kept unless the answer is the only extent of a stale index and a node allocation failed |
| `FreeIndex.WndBitmap.ExactPlaces` | patchs/5.4/files-5.4/fs/ntfs3/bitmap.c:1005-1100 | on an exact index the place is the hint if the bitmap has the bits there, and the start of a longest run otherwise |
| `FreeIndex.WndBitmap.ExactRefuses` | patchs/5.4/files-5.4/fs/ntfs3/bitmap.c:975-1075 | on an exact index the tests of counters, trees and extent_max refuse exactly what the bitmap cannot serve, and the whole-bitmap case |
| `FreeIndex.WndBitmap.LengthenBiggest` | patchs/5.4/files-5.4/fs/ntfs3/bitmap.c:1076-1096 | lengthening gives more than the extent, and bits of the zone, exactly if the extent ends where the zone begins |
| `FreeIndex.WndBitmap.TakeIntoZone` | patchs/5.4/files-5.4/fs/ntfs3/bitmap.c:385-463 | marking such a range leaves a zone that is not free and an index that is not sound |
| `FreeIndex.WndBitmap.Extend` | patchs/5.4/files-5.4/fs/ntfs3/bitmap.c:1310-1394 | old bits unchanged, new bits free, counters and index follow; errors change nothing; EINVAL exactly if nothing is added, ENOMEM only if a window is |
| `FreeIndex.WndBitmap.ZoneSet` | patchs/5.4/files-5.4/fs/ntfs3/bitmap.c:1396-1409 | the index describes the map with the new zone unless a nested rescan was made, which happens exactly as `Empties` says; otherwise it stays up to date unless the trees filled up or memory ran out |
| `FreeIndex.WndBitmap.EmptiesRisky` | patchs/5.4/files-5.4/fs/ntfs3/bitmap.c:1396-1409 | a move of the zone that empties a stale index is one that a caller can recognise |
| `FreeIndex.WndBitmap.ExactNotRisky` | patchs/5.4/files-5.4/fs/ntfs3/bitmap.c:714-1409 | with an up-to-date index the one risky request is to move a zone to the single extent indexed |
| `FreeIndex.WndBitmap.TwoNotRisky` | patchs/5.4/files-5.4/fs/ntfs3/bitmap.c:714-1409 | with two extents indexed or more nothing is risky while no zone is set, and using, freeing and growing never are |
| `FreeIndex.WndBitmap.ShrinkNotRisky` | patchs/5.4/files-5.4/fs/ntfs3/fsntfs.c:379-389 | making the zone smaller never leads to a nested rescan |
| `FreeIndex.WndBitmap.ZoneMissed` | patchs/5.4/files-5.4/fs/ntfs3/bitmap.c:640-645 | after a rescan without the zone an exact index is not sound |
| `FreeIndex.ZoneLost` | patchs/5.4/files-5.4/fs/ntfs3/bitmap.c:1396-1409 | from a fresh bitmap: a freed bit finds no memory, then the zone is set to the other free bit; the index ends up to date and is not sound |
| `FreeIndex.ZoneTaken` | patchs/5.4/files-5.4/fs/ntfs3/bitmap.c:1076-1096 | from a fresh bitmap with a zone: after a failed node allocation a plain search takes a bit of the zone |
| `FreeIndex.WndBitmap.Serve` | patchs/5.4/files-5.4/fs/ntfs3/bitmap.c:714-1409 | an allowed request that is not risky keeps geometry, counters, trees, zone and index, and does to bitmap and zone what was asked for, a search exactly what its place, length and refusal conditions say; what a risky one that does harm can be |
| `FreeIndex.WndBitmap.Run` | patchs/5.4/files-5.4/fs/ntfs3/bitmap.c:714-1409 | any sequence of requests: in every state it goes through the request was allowed and the index is sound, and exact whenever it claims to be up to date; each state is what the request makes of the one before; it ends early only at a request that is not allowed or with one that was risky and did harm |
| `WndScan.Scan` | patchs/5.4/files-5.4/fs/ntfs3/bitmap.c:67-123 | one window, from any position in it, with the tail carried over: the first fit, or the exact tail and a longest run so far |
| `WndScan.FirstFit` | patchs/5.4/files-5.4/fs/ntfs3/bitmap.c:67-123 | windows fed in order give the first run of the wanted length in the whole bitmap, or none exists and a longest run and the exact trailing run are known |
| `RestartTable.Table.constructor` | patchs/5.4/files-5.4/fs/ntfs3/fslog.c:789-814 | all entries are on the free list, none is allocated |
| `RestartTable.Table.Extend` | patchs/5.4/files-5.4/fs/ntfs3/fslog.c:816-846 | new entries go to the end of the free list; allocated entries are untouched; free_goal as computed; fails only for want of memory |
| `RestartTable.Table.Free` | patchs/5.4/files-5.4/fs/ntfs3/fslog.c:763-787 | exactly this entry is freed, to the head of the list below free_goal and to its tail otherwise |
| `RestartTable.Table.Alloc` | patchs/5.4/files-5.4/fs/ntfs3/fslog.c:853-883 | the head of the list, zeroed, and the rest of the list stays; all other entries keep their contents; fails only if the list is empty and there is no memory |
| `RestartTable.Table.Predecessor` | patchs/5.4/files-5.4/fs/ntfs3/fslog.c:938-961 | the walk over the list ends, at the free entry whose link leads to the wanted one |
| `RestartTable.Table.AllocFrom` | patchs/5.4/files-5.4/fs/ntfs3/fslog.c:890-975 | the entry at a given offset is allocated and zeroed unless it was allocated before; all others keep their contents; fails only if the offset lies past the table and there is no memory to extend it |
| `RestartTable.Table.TotalCounts` | patchs/5.4/files-5.4/fs/ntfs3/fslog.c:763-975 | `total` is the number of allocated entries, so free plus total is used |
| `RestartTable.TakeOut` | patchs/5.4/files-5.4/fs/ntfs3/fslog.c:928-972 | unlinking the k-th free entry leaves an acyclic list of exactly the other free entries |
| `RestartTable.PushFront` | patchs/5.4/files-5.4/fs/ntfs3/fslog.c:771-779 | linking an entry in at the head keeps the list acyclic and exact |
| `RestartTable.PushBack` | patchs/5.4/files-5.4/fs/ntfs3/fslog.c:779-786 | the same at the tail |
| `RestartTable.Table.Next` | patchs/5.4/files-5.4/fs/ntfs3/fslog.c:610-631 | the least allocated offset after the cursor; none exactly if there is none |
| `Recovery.Analyze` | patchs/5.4/files-5.4/fs/ntfs3/fslog.c:4380-4449 | the transaction table after the pass is the fold of the log over a map from id to entry; EINVAL means a record fails its check, ENOMEM that memory is not plenty and a client record names an id past the table the pass started from |
| `Recovery.Apply` | patchs/5.4/files-5.4/fs/ntfs3/fslog.c:4628-4646 | one record on the table is one step of the fold |
| `Recovery.Independent` | patchs/5.4/files-5.4/fs/ntfs3/fslog.c:4420-4449 | the fold treats each transaction by its own records alone |
| `Recovery.Alive` | patchs/5.4/files-5.4/fs/ntfs3/fslog.c:4420-4449 | from its opening record on, with no Forget, an entry keeps its first LSN and has the state its last deciding record gives |
| `Recovery.StillListed` | patchs/5.4/files-5.4/fs/ntfs3/fslog.c:4420-4449 | a transaction listed at the checkpoint and never forgotten keeps its first LSN and has the state its last deciding record gives, or its old one |
| `Recovery.AnalysisMeaning` | patchs/5.4/files-5.4/fs/ntfs3/fslog.c:4420-4646 | read off the log: which transactions are listed, with which previous LSN, undo position, first LSN and state, opened in the log or listed at the checkpoint |
| `Recovery.Undo` | patchs/5.4/files-5.4/fs/ntfs3/fslog.c:4992-5107 | given which transactions can be undone: the pass completes exactly if every active entry with nonzero undo_next can be; it then has undone exactly these, in order, and the table is empty |
| `DirtyPages.Deduplicate` | patchs/5.4/files-5.4/fs/ntfs3/fslog.c:4235-4250 | each page keeps its first entry with the least oldest_lsn of its group, no other entry survives, and the table stays well formed |
| `DirtyPages.EndOuter` | patchs/5.4/files-5.4/fs/ntfs3/fslog.c:4235-4250 | when the outer enumeration ends, the surviving entries are exactly the first ones of their groups |
| `Redo.Disk.RedoPass` | patchs/5.4/files-5.4/fs/ntfs3/fslog.c:4868-4987 | every page holds what the records read so far do to it, also when an error ends the pass; the pass ends at the first due record that names an attribute not open or a page that cannot be read, and only there |
| `Redo.Applied` | patchs/5.4/files-5.4/fs/ntfs3/fslog.c:4868-4987 | a guarded record is applied and stamped if it updates pages, its page is dirty since its LSN or before, its attribute open and mapped, nothing is cut off or skipped, and the page is good and older |
| `Redo.AppliedAnyway` | patchs/5.4/files-5.4/fs/ntfs3/fslog.c:3207-3219 | under the same conditions on the record the two unguarded operations are applied whatever the page |
| `Redo.Skipped` | patchs/5.4/files-5.4/fs/ntfs3/fslog.c:4888-4899 | a record leaves a page alone that is not its own, not dirty, or dirty only since a later LSN |
| `Redo.Refused` | patchs/5.4/files-5.4/fs/ntfs3/fslog.c:3109-3120 | a guarded record leaves bad pages, holes, pages that have seen it and pages its operation rejects alone |
| `Redo.ReleasedMeans` | patchs/5.4/files-5.4/fs/ntfs3/fslog.c:3215-3219 | deallocation clears the in-use bit, counts the 16-bit sequence number up, and keeps every other byte and bit |
| `Redo.FormattedMeans` | patchs/5.4/files-5.4/fs/ntfs3/record.c:343-377 | a new record is the template with its in-use flag and the sequence number by record number, MFT size and what was there |
| `Redo.OnlyNewer` | patchs/5.4/files-5.4/fs/ntfs3/fslog.c:2813-2830 | guarded records: only those newer than the page are applied, in order; the LSN never goes down; holes and bad pages are not touched |
| `Redo.PassTwice` | patchs/5.4/files-5.4/fs/ntfs3/fslog.c:4868-4987 | a second pass changes nothing, on pages whose records are all guarded or that the log writes anew |
| `Redo.RewrittenAlike` | patchs/5.4/files-5.4/fs/ntfs3/fslog.c:3084-3096 | after a record that writes the page anew it does not matter what the page was |
| `Redo.GuardedTwice` | patchs/5.4/files-5.4/fs/ntfs3/fslog.c:3109-3120 | the same for guarded operations alone |
| `Redo.Restarted` | patchs/5.4/files-5.4/fs/ntfs3/fslog.c:3692-3699 | after any number of passes interrupted anywhere, a complete pass gives what an uninterrupted one gives |
| `Redo.ReleasedAgain` | patchs/5.4/files-5.4/fs/ntfs3/fslog.c:3207-3219 | each pass counts the sequence number up by the number of deallocations, if no Initialize sets it |
| `Redo.PassTwiceDiffers` | patchs/5.4/files-5.4/fs/ntfs3/fslog.c:3207-3219 | so a second pass then changes the page |
| `Redo.PartRepeats` | patchs/5.4/files-5.4/fs/ntfs3/fslog.c:3207-3213 | an Initialize of a part of a record in memory and a guarded operation after it: whatever the part, some operation and page are changed by a second pass |
| `LogWalk.VboOfLsn` | patchs/5.4/files-5.4/fs/ntfs3/fslog.c:1045-1050 | the two 64-bit shifts compute eight times the low bits of the LSN |
| `LogWalk.VboRoundTrip` | patchs/5.4/files-5.4/fs/ntfs3/fslog.c:1045-1067 | an aligned offset in range survives vbo_to_lsn and lsn_to_vbo, for every sequence number |
| `LogWalk.LsnRoundTrip` | patchs/5.4/files-5.4/fs/ntfs3/fslog.c:1045-1067 | an LSN is rebuilt from its offset and its sequence number |
| `LogWalk.SamePosition` | patchs/5.4/files-5.4/fs/ntfs3/fslog.c:1059-1062 | the three ways to take the position out of an LSN agree |
| `LogWalk.FinalLogOff` | patchs/5.4/files-5.4/fs/ntfs3/fslog.c:1428-1467 | the offset of the record's last byte in log order, across pages and the end of the file |
| `LogWalk.ReadLogRecBuf` | patchs/5.4/files-5.4/fs/ntfs3/fslog.c:2254-2321 | succeeds exactly if every byte of the record, header included, lies on a page that can be read and is no older than the record, a page it runs over is not one where its last record ends, and the page of its last byte says that this record or a later one ends there; then exactly the client data is copied, byte by byte in log order |
| `LogWalk.LastCopied` | patchs/5.4/files-5.4/fs/ntfs3/fslog.c:2254-2321 | the last byte copied lies where final_log_off says |
| `LogWalk.WalkRounds` | patchs/5.4/files-5.4/fs/ntfs3/fslog.c:1053-1057 | a walk that does not overrun its start ends above it exactly if it has not started over |
| `LogWalk.SeqIsExact` | patchs/5.4/files-5.4/fs/ntfs3/fslog.c:1478-1482 | the sequence number goes up by the number of times the log starts over on the way to the next record, be that behind this one or on the next page |
| `LogWalk.NextPoints` | patchs/5.4/files-5.4/fs/ntfs3/fslog.c:1490-1509 | the next LSN is that of the first quad word behind the record, if on the same page; after a length of one more than a multiple of 8, that of the record's own last byte |
| `LogWalk.NextLogLsn` | patchs/5.4/files-5.4/fs/ntfs3/fslog.c:1469-1520 | the next LSN by the reference definition, or a read error |
| `LogWalk.NextReported` | patchs/5.4/files-5.4/fs/ntfs3/fslog.c:1469-1520 | the next LSN is reported as 0 exactly outside the oldest and the current LSN |
| `LogWalk.NextIsGreater` | patchs/5.4/files-5.4/fs/ntfs3/fslog.c:1469-1520 | for every record length and wrap the next LSN is greater and in the file, or reported as 0, exactly unless the 64-bit sum overflows into the file |
| `LogWalk.SafeIsGreater` | patchs/5.4/files-5.4/fs/ntfs3/fslog.c:1469-1520 | so it is if the LSN is three rounds from the end of 64 bits or the oldest LSN past the first three rounds |
| `LogWalk.FindClientNextLsn` | patchs/5.4/files-5.4/fs/ntfs3/fslog.c:2503-2544 | the loop ends on every log whose records carry no LSN below the one they are found at; a chain of records with increasing LSNs leads to the first record of the client, or to the end of the log, or, with an error, to a record whose end page or whose successor cannot be read |
| `LogWalk.GoesRound` | patchs/5.4/files-5.4/fs/ntfs3/fslog.c:2503-2544 | a concrete log with a record that carries an earlier LSN, on which a round of the loop comes back to the same record |
| `Runs.RunsTree.Lookup` | patchs/5.4/files-5.4/fs/ntfs3/run.c:34-88 | the piece that holds the cluster, or the place for it |
| `Runs.RunsTree.Consolidate` | patchs/5.4/files-5.4/fs/ntfs3/run.c:93-160 | the array becomes sorted and maps every cluster as before |
| `Runs.RunsTree.LookupEntry` | patchs/5.4/files-5.4/fs/ntfs3/run.c:192-223 | found exactly if mapped, with the location and the rest of the piece |
| `Runs.RunsTree.Truncate` | patchs/5.4/files-5.4/fs/ntfs3/run.c:263-295 | nothing is mapped from vcn on, everything before it as before |
| `Runs.RunsTree.AddEntry` | patchs/5.4/files-5.4/fs/ntfs3/run.c:316-482 | on success the map is overridden on the new range and nowhere else, through splitting, overwriting and joining; it fails only for want of memory, and a failure keeps everything below, and everything if the start was unmapped |
| `Space.LookForFreeSpace` | patchs/5.4/files-5.4/fs/ntfs3/fsntfs.c:356-449 | as long as the index answers, a free range of at most the wanted length is marked used, or nothing is, the zone only shrinks, and the index describes the bitmap; an up-to-date index answers unless a node allocation fails; it then serves a request exactly if the bitmap can, at the hint or at a longest run, and as far as the run goes, or else exactly if the zone is longer than its minimum, there are enough free clusters with it, and cutting it leaves a run as long as wanted |
| `Space.FromZone` | patchs/5.4/files-5.4/fs/ntfs3/fsntfs.c:378-394 | for the MFT the clusters come from the front of the zone |
| `Space.MarkAsFree` | patchs/5.4/files-5.4/fs/ntfs3/fsntfs.c:2449-2488 | whatever is used in the range becomes free, and the index follows |
| `Space.Deallocate` | patchs/5.4/files-5.4/fs/ntfs3/attrib.c:116-164 | as `Clusters.Deallocate`, on the indexed bitmap, and the index describes it afterwards |
| `Space.RollBack` | patchs/5.4/files-5.4/fs/ntfs3/attrib.c:217-222 | what was allocated goes back to bitmap and index: the bitmap is as before, the index describes it, the run is cut |
| `Space.Allocate` | patchs/5.4/files-5.4/fs/ntfs3/attrib.c:169-225 | as `Clusters.Allocate`, on the indexed bitmap as long as the index answers: all or nothing, and in both cases the index describes the bitmap; it succeeds if memory is plenty, the index is up to date with room for that many extents more, and there are enough free clusters outside the zone, not all of the bitmap; for the MFT exactly if there is a zone |
| `Clusters.Volume.MarkAsFree` | patchs/5.4/files-5.4/fs/ntfs3/fsntfs.c:2449-2488 | all bits of the range become free, whatever was used before |
| `Clusters.Deallocate` | patchs/5.4/files-5.4/fs/ntfs3/attrib.c:116-164 | succeeds exactly if the range is mapped; frees exactly its clusters up to the first hole, counts them, and truncates the run on failure |
| `Clusters.GiveBack` | patchs/5.4/files-5.4/fs/ntfs3/attrib.c:217-222 | freeing what was placed gives the old bitmap back |
| `Clusters.Allocate` | patchs/5.4/files-5.4/fs/ntfs3/attrib.c:169-225 | all or nothing: on failure the bitmap is as before, and the run is as before below vcn0 and maps nothing from there on once a fragment was added; on success distinct, previously free clusters, exactly the newly used ones, are mapped in order, within the length bounds; it ends; it succeeds on a bitmap that serves as long as a cluster is free, if there are enough and memory is plenty |
| `Clusters.FragmentLimit` | patchs/5.4/files-5.4/fs/ntfs3/attrib.c:207-211 | the test by unsigned subtraction says that `fr` pieces came, and is met at once if pieces were joined to fewer than before |
| `Frames.IsFrameCompressed` | patchs/5.4/files-5.4/fs/ntfs3/attrib.c:1345-1442 | the exact number of data clusters of a frame, none if it starts with a hole; an error exactly if it starts with data and data follows a hole |
| `Frames.Reshaped` | patchs/5.4/files-5.4/fs/ntfs3/attrib.c:1504-1540 | reshaping one frame changes the clusters on disk by the difference |
| `Frames.File.ShrinkFrame` | patchs/5.4/files-5.4/fs/ntfs3/attrib.c:1511-1524 | the last data clusters are freed and become sparse; it fails only for want of memory, and then they are freed and the run is as before below them |
| `Frames.File.GrowFrame` | patchs/5.4/files-5.4/fs/ntfs3/attrib.c:1525-1540 | sparse clusters get distinct, previously free clusters; on failure the bitmap is as before and so is the run below; it succeeds if there are enough clusters and memory |
| `Frames.File.AllocateFrame` | patchs/5.4/files-5.4/fs/ntfs3/attrib.c:1500-1551 | the frame gets just the data clusters the size needs and is sparse behind them, other frames unchanged; total_size stays the size on disk; the file's clusters stay distinct and in use; it succeeds if memory is plenty and there are enough free clusters for what has to be added |
| `AttrList.ParseFlatten` | patchs/5.4/files-5.4/fs/ntfs3/attrlist.c:109-143 | enumerating packed entries yields them |
| `AttrList.FlattenParse` | patchs/5.4/files-5.4/fs/ntfs3/attrlist.c:109-143 | any list is its enumerated entries, packed, and a rest that is no entry |
| `AttrList.AcceptMeans` | patchs/5.4/files-5.4/fs/ntfs3/attrlist.c:109-143 | what starts at a cursor is an entry exactly if there is room for the fixed part and its size covers the fixed part and the name and fits |
| `AttrList.List.Enumerate` | patchs/5.4/files-5.4/fs/ntfs3/attrlist.c:109-143 | the cursor goes from each entry to the next |
| `AttrList.List.FindEx` | patchs/5.4/files-5.4/fs/ntfs3/attrlist.c:169-219 | for a type with one name: the first entry, or the segment with the greatest start not above the VCN, or none exists; for a type with several names, one segment each, in order: the entry with this name, or none exists |
| `AttrList.List.FindToInsert` | patchs/5.4/files-5.4/fs/ntfs3/attrlist.c:226-263 | a boundary between entries; for a type with one name the place in order; for a type with one segment a name the place by name |
| `AttrList.HeaderSays` | patchs/5.4/files-5.4/fs/ntfs3/attrlist.c:314-321 | the bytes written decode to the type, size, VCN, reference, id and name asked for, whatever the padding |
| `AttrList.InsertBytes` | patchs/5.4/files-5.4/fs/ntfs3/attrlist.c:296-309 | bytes of an entry inserted at a boundary insert it into the enumeration |
| `AttrList.RemoveBytes` | patchs/5.4/files-5.4/fs/ntfs3/attrlist.c:359-362 | removing an entry's bytes removes it from the enumeration |
| `AttrList.InsertOrdered` | patchs/5.4/files-5.4/fs/ntfs3/attrlist.c:226-263 | inserting at its place keeps the order |
| `AttrList.List.AddLe` | patchs/5.4/files-5.4/fs/ntfs3/attrlist.c:270-343 | exactly one entry is inserted, in order for a type with one name, which keeps having one name; it fails to be inserted only if the attribute cannot grow or memory that is needed is not to be had, and then the list is byte for byte as before; when the list is left dirty |
| `AttrList.List.RemoveLe` | patchs/5.4/files-5.4/fs/ntfs3/attrlist.c:348-367 | exactly this entry goes |
| `AttrList.List.AddAndRemove` | patchs/5.4/files-5.4/fs/ntfs3/attrlist.c:270-367 | al_add_le, whatever comes of it, and al_remove_le give the old list back, byte for byte |
| `Glob.MatchOne` | padavan/formlogin/httpd.c:662-696 | true exactly if the string can be cut into parts, one for each token of the pattern |
| `Glob.Match` | padavan/formlogin/httpd.c:701-714 | true exactly if some alternative fits the whole string |

## Left out

- The scan of the bitmap by `wnd_find` when the index is stale (bitmap.c 1113-1288): after line 1253 the position in the window is not reset although the tail is carried, so the contract of `wnd_scan` is not met there; `Find` answers `Scan`, and whoever builds on it promises nothing from there on.
- FreeIndex.WndBitmap.Serve: nothing is promised after a request that was risky and did harm.
- FreeIndex.WndBitmap.InsertFragment: extent_min is computed as in the code and promised nothing about, because it is a heuristic.
- FreeIndex.WndBitmap.constructor: windows have fewer than 65536 bits, the range of the 16-bit counters.
- Red-black rebalancing: the trees are ordered sets.
- `ntfs_trim_fs`, disk errors, buffer heads, locks: the bitmap file reads back what was written, and I/O errors of the bitmap are not modelled.
- RestartTable.Table.Alloc: a table of 65536 entries or more, which the 16-bit count cannot hold, is excluded; and when the table cannot be extended the model keeps it, while the code has by then overwritten the caller's pointer with NULL (fslog.c 860).
- RestartTable.Table.AllocFrom: likewise after a failed extension (fslog.c 910).
- Recovery.Analyze: transaction ids name entries (the checks on the log record see to that); the table that the code creates with the first record is there, empty, from the start; only the effect on the transaction table is modelled.
- Recovery.Undo: reading and undoing the records of one transaction is a parameter, which says for each transaction whether that succeeds.
- Redo.Disk.RedoPass: what a guarded operation does to a page is a parameter; operations on attribute contents without a page header, which carry no LSN, are not modelled; which inodes are in memory is taken to be the same in every pass.
- Redo.ReleasedAgain: guarded operations are taken to leave the sequence number of a record alone.
- Redo.PassTwice: where a page has an unguarded record, is not written anew and has its sequence number set, whether a second pass changes it depends on the operations in between and is not decided in general.
- Space.LookForFreeSpace: nothing is promised once the index does not answer (the search leaves a stale index, or memory runs out in a rescan).
- Space.FromZone: an empty zone is not refreshed (`ntfs_refresh_zone`).
- `last_log_lsn`, `log_read_rst`, `check_rstbl` and the other validity checks on the log: geometry and tables are well formed.
- WndScan.Scan: window size plus request stay below 2^32, where the code's 32-bit arithmetic wraps.
- Clusters.Allocate: the bitmap is one that marks some free range or reports an error, and its field `willing` says whether it may report one while a cluster is free; `Space.Allocate` shows the same of the indexed bitmap as long as its index answers, and the code does more than that when it does not.
- Frames.IsFrameCompressed: the file's runs are loaded; runs are not read from other segments.
- Frames.File.AllocateFrame: the packing of the run into attribute segments and the update of valid_size, which stores the old value back, are not modelled; the frame has the shape compression gives it and the new size fits the frame.
- AttrList.List.AddLe: the results of `attr_set_size` and `ntfs_sb_write_run` are parameters.
- AttrList.List.FindEx: the order of entries of one type with several names is not decided by the code, so the answer is characterised for types with one name and for types with one segment a name; type codes are compared as numbers.
- `attr_set_size`, `attr_collapse_range`, `attr_punch_hole`, `attr_data_get_block`, and packing of runs into bytes.
- frecord.c, file.c, dir.c and the rest of httpd.c.
