# dm-writeboost metadata, modelled in Dafny

dm-writeboost is a log-structured write-back block cache for Linux device-mapper. Its
metadata layer (`Driver/dm-writeboost-metadata.c`) does the following:

- It lays the cache device out as a 1 MiB superblock region followed by a ring of
  segments. Each segment is a 4 KiB header block plus `nr_caches_inseg` 4 KiB cache
  blocks.
- It keeps an in-core record of every segment and cache block, stored in a paged
  "large array".
- It indexes cached blocks by backing-store sector in a chained hash table. The table has
  an extra "null head" chain for blocks that cache nothing.
- It decides at bring-up whether the cache device must be formatted.
- It writes segment headers with a CRC-32C checksum.
- After a crash, it replays the ring: it finds the largest segment id, visits every slot
  once starting after it, and applies the checksum-valid segments oldest first.
- It allocates the RAM buffer pool and the migration work set.

This project models that layer and proves what it promises. The modules are:

- `Wrappers`: the optional value, the machine integer types and the error numbers.
- `Records`: `struct metablock` and `struct segment_header`.
- `Heap`: the kernel allocator. Each allocation may fail, nondeterministically.
- `LargeArray`: the paged large array.
- `Geometry`: the layout arithmetic.
- `Chains`: the hash table's chains as values. Its invariant is that every block sits on
  exactly one chain.
- `Format`: the format decision.
- `Codec`: the on-disk segment header and its checksum.
- `Replay`: what recovery computes, stated over the ring image.
- `Metadata`: the class `Cache` holding the store, the hash table and the recovery state.
  Its methods are the imperative routines of the source.
- `Buffers`: the class `Pools` with the RAM buffer pool and the migration work set.

Device reads are inputs. The ring is a sequence of segment images, and `io[k]` is the
result of reading slot k. The CRC-32C digest (section 12.1 of RFC 3720) is an arbitrary
function of the bytes it covers.

## Model

| member | source | states |
|---|---|---|
| LargeArray.NrElemsInPart | Driver/dm-writeboost-metadata.c:26-29 | at least one element fits in a part, and the count is the largest number of elements that fit in 64 KiB |
| LargeArray.NrParts | Driver/dm-writeboost-metadata.c:31-36 | the number of parts is the ceiling: enough parts for all elements, and one part fewer would not be enough |
| LargeArray.LocateInRange | Driver/dm-writeboost-metadata.c:89-96 | every index below nr_elems resolves to an existing part, at an offset where the whole element fits in the part |
| LargeArray.LocateInjective | Driver/dm-writeboost-metadata.c:89-96 | distinct indices never share a (part, offset) location |
| LargeArray.LargeArray.At | Driver/dm-writeboost-metadata.c:89-96 | large_array_at returns part i / n of the array (n elements per part) at byte offset elemsize * (i mod n), and the element lies inside that part |
| LargeArray.LargeArray.AtInjective | Driver/dm-writeboost-metadata.c:89-96 | when the parts are distinct blocks, two different indices never resolve to the same part and offset |
| LargeArray.AllocParts | Driver/dm-writeboost-metadata.c:57-68 | the part loop either allocates every part (64 KiB each) or frees all the parts it had allocated |
| LargeArray.FreeParts | Driver/dm-writeboost-metadata.c:62-65 | the rollback loop frees exactly the listed parts |
| LargeArray.Alloc | Driver/dm-writeboost-metadata.c:38-76 | all or nothing: NULL with the heap unchanged, or the struct, the parts table and every part allocated with their sizes |
| LargeArray.Free | Driver/dm-writeboost-metadata.c:78-87 | frees exactly the parts, the table and the struct |
| Geometry.SegmentHoldsBlocks | Driver/dm-writeboost-metadata.c:1108-1110 | the header block and nr_caches_inseg = 2^(order-3) - 1 cache blocks fill a 2^order-sector segment exactly; order <= 10 gives at most 127 blocks |
| Geometry.SegmentStartWrapsAt2TiB | Driver/dm-writeboost-metadata.c:127-130 | the as-written 32-bit computation gives slot 2^22 the start sector of slot 0 (512 KiB segments), where the intended one does not |
| Geometry.SegmentStartAgreesBelow2TiB | Driver/dm-writeboost-metadata.c:127-130 | below sector 2^32 the as-written and intended start sectors agree |
| Geometry.SegmentRangesDisjoint | Driver/dm-writeboost-metadata.c:127-130 | segments start after the superblock region and are laid out in ring order without overlap |
| Geometry.SegmentsFitDevice | Driver/dm-writeboost-metadata.c:132-136 | on a device of at least 2048 sectors, every segment counted by calc_nr_segments ends inside the device |
| Geometry.SmallDeviceCountWraps | Driver/dm-writeboost-metadata.c:132-136 | on a device smaller than the superblock region the u64 subtraction wraps: an empty device counts 2^32 - 2 segments |
| Geometry.NoWholeSegment | Driver/dm-writeboost-metadata.c:132-136 | a device with room for the superblock region but not for one whole segment gets nr_segments == 0 |
| Geometry.BlockRangesDisjoint | Driver/dm-writeboost-metadata.c:227 | the block ranges of two different segments do not overlap |
| Geometry.SegmentIdToIdx | Driver/dm-writeboost-metadata.c:180-185 | the slot of an id is below nr_segments |
| Geometry.SlotPeriodic | Driver/dm-writeboost-metadata.c:180-185 | ids nr_segments apart share a slot |
| Geometry.SlotBijection | Driver/dm-writeboost-metadata.c:180-185 | ids 1..nr_segments hit every slot exactly once, with slot s holding id s + 1 |
| Geometry.SlotOfNextId | Driver/dm-writeboost-metadata.c:814 | the slot of id + 1 (a u64 increment that may wrap) is id mod nr_segments |
| Geometry.MbAtInverse | Driver/dm-writeboost-metadata.c:103-110 | mb_at(idx) is entry idx mod n of segment idx / n, the two recompose to idx, and idx < nr_caches exactly when the segment is below nr_segments |
| Geometry.MbAtOfPosition | Driver/dm-writeboost-metadata.c:103-110 | entry j of segment k is block k * n + j |
| Geometry.MbSectorInsideSegment | Driver/dm-writeboost-metadata.c:151-154 | for every segment size, one-block segments included, every block's 8 sectors lie after the header block and inside the segment |
| Geometry.MbSectorsInsideSegment | Driver/dm-writeboost-metadata.c:151-154 | blocks at different positions of a segment do not overlap (only meaningful when a segment holds two or more blocks) |
| Geometry.IsOnBufferIffOwnSegment | Driver/dm-writeboost-metadata.c:168-178 | is_on_buffer for segment k holds exactly when mb_at puts the block in segment k |
| Chains.UnlinkSpec | Driver/dm-writeboost-metadata.c:306 | hlist_del removes the block and keeps every other one; it changes nothing when the block is absent and keeps chains duplicate-free |
| Chains.ExactlyOneChain | Driver/dm-writeboost-metadata.c:246-279 | under the table invariant a block is on the chain its back-link names, on no other, and only once |
| Chains.RelinkKeepsPartition | Driver/dm-writeboost-metadata.c:302-319 | unlink-then-push keeps every block on exactly one chain, moves only that block to the front of its new chain, and leaves every other chain in order |
| Chains.FirstHitSpec | Driver/dm-writeboost-metadata.c:321-332 | the lookup returns the first block on the chain caching the sector, and nothing exactly when no block on the chain does |
| Chains.FirstHitUnlinkOther | Driver/dm-writeboost-metadata.c:321-332 | unlinking a block that caches another sector does not change a lookup |
| Chains.DiscardStep | Driver/dm-writeboost-metadata.c:340-343 | one more ht_del extends the discarded run by one block |
| Chains.WriteUnlinkedBlock | Driver/dm-writeboost-metadata.c:725-726 | rewriting a block that sits on the null head changes no lookup |
| Chains.UnlinkKeepsOtherLookups | Driver/dm-writeboost-metadata.c:302-310 | moving a block that caches sector s to the null head keeps the invariant and changes no lookup of any other sector |
| Chains.RegisterOnTop | Driver/dm-writeboost-metadata.c:312-319 | registering a null-head block for sector s makes a lookup of s find it and changes no other lookup |
| Chains.AllOnNullFindsNothing | Driver/dm-writeboost-metadata.c:271-276 | with every block on the null head no lookup finds anything |
| Format.AuditCacheDevice | Driver/dm-writeboost-metadata.c:389-417 | the three-way decision: wrong magic gives (format, allowed); right magic with another order gives (format, not allowed); both matching gives no format; a failed read gives its error |
| Format.FormatSuperblockHeaderAsWritten | Driver/dm-writeboost-metadata.c:419-458 | the result is 0 whenever the buffer was allocated, whatever the write returned; otherwise -ENOMEM |
| Format.HeaderWriteErrorLost | Driver/dm-writeboost-metadata.c:450-457 | a failed header write (-EIO) reports success, and so does the whole format, where the corrected format reports -EIO |
| Format.FormatSuperblockHeader | Driver/dm-writeboost-metadata.c:419-458 | corrected: 0 exactly when the buffer was allocated and the write succeeded, otherwise -ENOMEM or the write's error |
| Format.FormatCacheDevice | Driver/dm-writeboost-metadata.c:569-584 | with format_superblock_header as written: 0 exactly when the zeroing, the header buffer allocation, the segment headers and the flush succeed, whatever the header write returned; otherwise the first failing step's error |
| Format.FormatCacheDeviceCorrected | Driver/dm-writeboost-metadata.c:569-584 | with the corrected header write: 0 exactly when every step succeeds, a failed header write stopping the format with its error |
| Format.FormatCompositionsAgree | Driver/dm-writeboost-metadata.c:569-584 | the as-written and the corrected format disagree exactly when the buffer was allocated and the header write failed with an error other than the one the later steps return |
| Format.MightFormatCacheDevice | Driver/dm-writeboost-metadata.c:590-616 | formats exactly when the magic is wrong, returning the format's result; -EINVAL without formatting for another segment size; 0 untouched when both match; a read error as it is |
| Format.FormatThenAudit | Driver/dm-writeboost-metadata.c:389-417 | a device just formatted for one segment size needs no format for that size and is refused for any other |
| Codec.Render | Driver/dm-writeboost-metadata.c:694-714 | the prepared image decodes to the written entries, id and length, leaves the rest of the entry area and the data blocks alone, and passes the replay's checksum test because the length is written after the checksum |
| Metadata.Cache.constructor | Driver/dm-writeboost-metadata.c:1108-1110 | harmless_init's geometry: nr_segments from the device size, nr_caches_inseg = 2^(order-3) - 1, nr_caches their product |
| Metadata.Cache.InitSegmentHeaderArray | Driver/dm-writeboost-metadata.c:204-234 | -ENOMEM with nothing allocated, or every segment with id 0, length 0, no in-flight I/O, start_idx = n * k and its start sector, and every block reset |
| Metadata.Cache.InitSegments | Driver/dm-writeboost-metadata.c:217-229 | the per-segment constants of every segment |
| Metadata.Cache.MbArrayEmptyInit | Driver/dm-writeboost-metadata.c:112-122 | every block reached through mb_at gets its own index and no dirty bits |
| Metadata.Cache.HtEmptyInit | Driver/dm-writeboost-metadata.c:246-279 | nr_caches + 1 heads, every bucket empty, every block on the null head in push order, the invariant established; or -ENOMEM with nothing changed |
| Metadata.Cache.InitHeads | Driver/dm-writeboost-metadata.c:262-265 | the INIT_HLIST_HEAD loop: afterwards every head, the null head included, is an empty chain |
| Metadata.Cache.LinkAllToNullHead | Driver/dm-writeboost-metadata.c:273-276 | the push loop puts every block on the null chain, nr_caches - 1 first |
| Metadata.Cache.HtGetHead | Driver/dm-writeboost-metadata.c:286-291 | the bucket of a sector is a real bucket, never the null head |
| Metadata.Cache.HtLookup | Driver/dm-writeboost-metadata.c:321-332 | the chain walk with early exit returns the first hit the chain specification gives |
| Metadata.Cache.HtDel | Driver/dm-writeboost-metadata.c:302-310 | block b moves to the front of the null chain, every other chain loses only b, and the invariant is kept |
| Metadata.Cache.HtRegister | Driver/dm-writeboost-metadata.c:312-319 | block b moves to the front of bucket h, its sector becomes the key, nothing else changes, and the invariant is kept |
| Metadata.Cache.DiscardCachesInseg | Driver/dm-writeboost-metadata.c:337-344 | exactly the segment's nr_caches_inseg blocks move to the null head, the rest stay in place and in order |
| Metadata.Cache.DelRange | Driver/dm-writeboost-metadata.c:340-343 | the loop of ht_del calls over a range of blocks |
| Metadata.Cache.MbToSeg | Driver/dm-writeboost-metadata.c:159-166 | stepping back over the in-segment position yields the segment mb_at names, which is_on_buffer accepts |
| Metadata.Cache.IsOnCurrentBuffer | Driver/dm-writeboost-metadata.c:168-178 | true exactly when the block belongs to the current segment |
| Metadata.Cache.InvalidatePreviousCache | Driver/dm-writeboost-metadata.c:741-745 | the call made for the found block may relink only that block, and no lookup of another sector changes |
| Metadata.Cache.ApplyMetablockDevice | Driver/dm-writeboost-metadata.c:716-749 | the block takes the entry's sector and dirty bits; a dirty entry counts one dirty block and becomes what a lookup of its sector finds; a clean entry registers nothing |
| Metadata.Cache.IncNrDirtyCaches | Driver/dm-writeboost-metadata.c:747 | inc_nr_dirty_caches: the dirty count grows by exactly one and nothing else changes |
| Metadata.Cache.RegisterDirty | Driver/dm-writeboost-metadata.c:736-748 | lookup, invalidate, count and register: afterwards lookups follow one more registration and the dirty count grew by one |
| Metadata.RegisterFollowsLog | Driver/dm-writeboost-metadata.c:748 | registering on top of the key's bucket makes every lookup follow the log extended by that registration |
| Metadata.Cache.RegisterLast | Driver/dm-writeboost-metadata.c:748 | ht_register leaves every lookup following the extended log |
| Metadata.Cache.ApplySegmentHeaderDevice | Driver/dm-writeboost-metadata.c:755-765 | the slot takes the stored length, blocks 0..length-1 are restored from the entries, lookups follow the header's registrations, and the dirty count grows by their number |
| Metadata.Cache.ApplyEntries | Driver/dm-writeboost-metadata.c:763-764 | the entry loop leaves the state of all length entries applied |
| Metadata.Cache.ApplyEntry | Driver/dm-writeboost-metadata.c:763-764 | one iteration of the entry loop: from entries 0..i-1 applied (blocks restored, lookups following their registrations, dirty count) to entries 0..i applied |
| Metadata.Cache.PrepareSegmentHeaderDevice | Driver/dm-writeboost-metadata.c:694-714 | under the BUG_ON's condition, the buffer becomes the rendered image of the segment's first length blocks and its id |
| Metadata.Cache.FindMaxId | Driver/dm-writeboost-metadata.c:778-803 | fails with the first failed read; otherwise returns the largest id in the ring (0 when all are 0) |
| Metadata.Cache.ReplaySlot | Driver/dm-writeboost-metadata.c:818-844 | a failed read ends the scan with its error and changes nothing; a slot with id 0 or a bad checksum is skipped; otherwise it is applied and its id remembered |
| Metadata.Cache.ReplayStarts | Driver/dm-writeboost-metadata.c:814-816 | before the first visit nothing is replayed and no lookup finds anything |
| Metadata.Cache.ApplyValidSegments | Driver/dm-writeboost-metadata.c:805-846 | the state is exactly what replaying the visits before the first failed read gives, in visit order from the slot after the largest id; the result is that read's error or 0; max_id is the last applied id |
| Metadata.Cache.InferLastMigratedId | Driver/dm-writeboost-metadata.c:848-867 | a failed record read is returned with nothing changed; otherwise last_migrated = max(record id, last_flushed - nr_segments, or 0 when not larger) |
| Metadata.Cache.ReplayLogOnCache | Driver/dm-writeboost-metadata.c:886-913 | 0 exactly when every segment read of both scans succeeded; a failed record read is ignored, as line 910 ignores the result of infer_last_migrated_id, and leaves last_migrated unchanged; the blocks, segments, lookups and dirty count are a whole replay of the ring, last_flushed is the last applied id and last_migrated is inferred from it; on failure both ids are unchanged |
| Metadata.Cache.SelectAnyRambuf | Driver/dm-writeboost-metadata.c:915-918 | RAM buffer 0 becomes current |
| Metadata.Cache.AcquireFirstSeg | Driver/dm-writeboost-metadata.c:923-942 | the slot of last_flushed + 1 has its blocks moved to the null head, takes that id and length 1, the cursor is its first block so that the BUG_ON of line 701 holds, and RAM buffer 0 is selected |
| Metadata.Cache.RecoverCache | Driver/dm-writeboost-metadata.c:948-966 | after a successful replay, the blocks are the replayed ones, last_flushed is the last applied id, and the next slot is acquired with its blocks on the null head |
| Replay.MaxId | Driver/dm-writeboost-metadata.c:778-803 | an upper bound of every id in the ring that is itself one of them, or 0 |
| Replay.Window | Driver/dm-writeboost-metadata.c:814-819 | the visit order has one entry per slot, each a valid slot |
| Replay.WindowVisitsEachSlotOnce | Driver/dm-writeboost-metadata.c:814-819 | the scan visits every slot exactly once |
| Replay.FirstFailure | Driver/dm-writeboost-metadata.c:821-825 | the visits before it read successfully and the visit at it failed |
| Replay.NoFailureInWindow | Driver/dm-writeboost-metadata.c:821-825 | the scan meets no failed read exactly when no slot's read fails |
| Replay.LastAppliedIdSpec | Driver/dm-writeboost-metadata.c:815-842 | max_id is 0 exactly when no slot was applied, and otherwise the id of an applied slot after which none was applied |
| Replay.RestoredBlock | Driver/dm-writeboost-metadata.c:725-726 | a restored block keeps its index and carries exactly the entry's sector and dirty bits |
| Replay.DirtyLogSpec | Driver/dm-writeboost-metadata.c:733-748 | the registrations of a header are exactly its dirty entries below the length, one each |
| Replay.Registration | Driver/dm-writeboost-metadata.c:733-748 | a clean entry registers nothing, a dirty entry registers its block under its sector |
| Replay.ReplayLogSources | Driver/dm-writeboost-metadata.c:805-846 | every registration replay makes comes from a dirty entry below the length of an applied slot |
| Replay.ReplayLogComplete | Driver/dm-writeboost-metadata.c:805-846 | every dirty entry below the length of an applied slot is registered |
| Replay.LastWriterSpec | Driver/dm-writeboost-metadata.c:312-332 | pushing on the front and finding the first hit means a lookup finds the last registration of the sector, and nothing when none |
| Replay.LastWriterSnoc | Driver/dm-writeboost-metadata.c:312-319 | one more registration of s decides the lookup of s alone |
| Replay.ReplayLookup | Driver/dm-writeboost-metadata.c:805-846 | after replay a lookup of s finds nothing exactly when no applied slot has a dirty entry for s, and otherwise a block that such an entry names |
| Replay.DirtyLogFinds | Driver/dm-writeboost-metadata.c:763-764 | within one header, a lookup of s afterwards finds a block of a dirty entry for s |
| Replay.LatestVisitWins | Driver/dm-writeboost-metadata.c:817-844 | when visit t registers s and no later visit does, a lookup of s finds a block of visit t's slot |
| Replay.NewestWriteWins | Driver/dm-writeboost-metadata.c:886-913 | in a ring the flusher left, a lookup of s after replay finds a block of the newest applied segment with a dirty entry for s, however many older segments wrote s |
| Replay.ReplayedBlocksAt | Driver/dm-writeboost-metadata.c:805-846 | after t visits a block carries its header entry exactly when its slot was visited and applied and its position is below that header's length |
| Replay.ReplayedBlocksFull | Driver/dm-writeboost-metadata.c:805-846 | after the whole scan, entry i of slot k is restored exactly when the slot applies and i is below its length |
| Replay.ReplayedSegsAt | Driver/dm-writeboost-metadata.c:761 | after t visits a slot carries its stored length exactly when it was visited and applied |
| Replay.InferredLastMigrated | Driver/dm-writeboost-metadata.c:859-864 | at least the recorded id, at least last_flushed - nr_segments when the ring has wrapped, and one of the two or 0 |
| Replay.IdAtVisit | Driver/dm-writeboost-metadata.c:814-819 | in the ring the flusher leaves, the t-th slot visited holds id maxId - n + 1 + t |
| Replay.WindowOldestFirst | Driver/dm-writeboost-metadata.c:814-819 | the scan visits written slots in increasing id order, oldest first |
| Replay.PreparedSegmentReplays | Driver/dm-writeboost-metadata.c:694-765 | codec round trip: a prepared segment with a non-zero id passes the replay test, and applying it gives each block back its sector and dirty bits and leaves the others alone |
| Buffers.NrRambufPoolSpec | Driver/dm-writeboost-metadata.c:973-977 | the pool holds as many whole segments as the amount covers, and it is empty (-EINVAL) exactly when the amount is below one segment |
| Buffers.Pools.InitRambufPool | Driver/dm-writeboost-metadata.c:970-1004 | -EINVAL exactly when the pool would be empty, with the pool fields untouched; -ENOMEM with every allocation undone; or the pool array and nr_rambuf_pool distinct fresh segment-sized data blocks, every older block keeping its size; the migration work set is never touched |
| Buffers.Pools.AllocRambufData | Driver/dm-writeboost-metadata.c:985-1001 | the loop gives every buffer a fresh block of the segment size, or frees the ones it gave |
| Buffers.Pools.FreeFirst | Driver/dm-writeboost-metadata.c:994-997 | the rollback frees exactly the blocks of the buffers before the failing one |
| Buffers.Pools.FreeRambufPool | Driver/dm-writeboost-metadata.c:1006-1014 | frees every buffer's data and the pool array, nothing else |
| Buffers.Pools.TryAllocMigrationBufferAsWritten | Driver/dm-writeboost-metadata.c:1025-1078 | success installs three fresh blocks of the requested sizes as the new work set with the batch count, and the heap loses exactly the old work set; failure keeps the fields but, once the first allocation succeeded, leaks the new block and leaves an installed migration buffer dangling |
| Buffers.Pools.TryAllocMigrationBuffer | Driver/dm-writeboost-metadata.c:1018-1023 | corrected: success installs three fresh buffers of the right sizes with the batch count and frees the old buffers, the heap changing by exactly that; failure leaves the heap, the work set and the count as they were |
| Buffers.Pools.InstallWorkset | Driver/dm-writeboost-metadata.c:1057-1068 | the old buffers are freed (vfree only when set) and the three new ones installed with the new batch count |
| Buffers.Pools.FreeMigrationBuffer | Driver/dm-writeboost-metadata.c:1080-1085 | frees exactly the three buffers of the work set |

## Left out

- Device I/O (`dm_safe_io`, `read_superblock_header`, `read_superblock_record`, `read_whole_segment`, `zeroing_full_superblock`, `blkdev_issue_flush`) is not modelled. The model takes the results of these calls as inputs: the header read, `io[k]` per slot and scan, and the record's result and id.
- `format_all_segment_headers` and `format_segmd_endio` are left out. They are asynchronous submission with an atomic completion counter and a sleep-poll loop; `Format.FormatCacheDevice` takes their outcome as an input.
- Kernel threads, workqueues, timers, mutexes and atomics are left out. This covers the daemons, `resume_cache`, `free_cache` and the rest of `harmless_init`. Atomic reads and writes of the ids are plain field accesses. The signedness of `atomic64_t` is not modelled either: the ids are unsigned u64 values, so comparisons such as the one at line 860 are unsigned. If the C comparison is signed, it differs for ids of 2^63 and above.
- `wait_for_migration` (defined in another file) is not modelled. `Metadata.Cache.AcquireFirstSeg` requires its outcome: no migration in flight on the slot.
- `invalidate_previous_cache` (defined in another file) is not modelled exactly. `Metadata.Cache.InvalidatePreviousCache` may or may not move the found block to the null head, and it does not model the other changes that function makes to the old segment.
- `inc_nr_dirty_caches` is modelled as a plain counter increment. `nrDirtyCaches` counts only these increments: any decrement `invalidate_previous_cache` makes (in another file) is not modelled, so "the dirty count grows" in the rows for `Metadata.Cache.ApplyMetablockDevice`, `Metadata.Cache.RegisterDirty` and `Metadata.Cache.ApplySegmentHeaderDevice` is about this counter alone.
- `writeback_non_volatile_buffers` is a stub that returns 0, and `recover_cache`'s call to it is left out.
- The CRC-32C computation itself is left out. The checksum is an arbitrary function `Crc` of the covered bytes, and `le*_to_cpu`/`cpu_to_le*` are the identity.
- The byte layout of the on-disk structs is defined in a header file that is not part of this model. The structs are records.
- `sizeof(struct rambuffer)` and the struct sizes given to the large arrays are parameters.
- The in-place memory layout is not modelled. The paged arrays of segment headers and hash heads are modelled for their allocations only, and their contents are the arrays `segs`, `mbs` and `buckets`. `mb_at`, `segment_at`, `get_segment_header_by_id` and `large_array_at` are the index arithmetic between the two views (`Geometry.MbAt`, `LargeArray.LargeArray.At`). `mb_to_seg`'s pointer subtraction is the arithmetic on indices.
- Hash-list nodes are modelled as the chains plus a per-block back-link, `chainOf`. An hlist node's `pprev` is the information `ht_del` uses.
- The unchecked `kmalloc` of the read buffer in `find_max_id` and `apply_valid_segments` (the code never checks for NULL) is not modelled.
- Metadata.Cache.ApplyValidSegments: requires the stored lengths to be at most nr_caches_inseg (`Replay.RingFits`), because the code uses the length read from the device unchecked. A larger length would read past the segment; the model does not describe that case. `Metadata.Cache.ReplayLogOnCache`, `Metadata.Cache.RecoverCache`, `Replay.ReplayLogSources`, `Replay.ReplayLogComplete`, `Replay.ReplayLookup`, `Replay.LatestVisitWins`, `Replay.ReplayedBlocksAt` and `Replay.ReplayedBlocksFull` carry the same requirement.
- Metadata.Cache.ApplyValidSegments: requires every block to start on the null head, as `ht_empty_init` leaves the table before `recover_cache` runs.
- Replay.NewestWriteWins: requires the ring to be laid out the way the flusher writes it (`Replay.Cyclic`): each written slot holds one of the last nr_segments ids, in the slot of that id. Torn or foreign rings are not covered by this lemma. The other replay contracts hold for any ring whose stored lengths fit.
- The 32-bit loop counter `i` of `apply_valid_segments` is unbounded in the model. It could only wrap when nr_segments exceeds 2^31, at which point nr_caches already overflows its u32.
- Metadata.Cache.ReplayLogOnCache: the segment id read from the device is not copied into the in-core segment header on replay. The model follows the code in this; only the length and the blocks are restored.
- Buffers.NrRambufPoolSpec: the product `rambuf_pool_amount * 1000` is unbounded. The type of `rambuf_pool_amount` is declared in a header that is not part of this model, so any overflow there is not modelled. The u32 truncation of the quotient is modelled, and the lemma states its promise when the quotient fits.
- Metadata.Cache.InitSegmentHeaderArray: every segment's start sector is the corrected 64-bit `Geometry.CalcSegmentHeaderStart`, not the 32-bit value `calc_segment_header_start` stores. The two agree while the ring ends below sector 2^32 (`Geometry.SegmentStartAgreesBelow2TiB`); on a larger device the source stores the wrapped value of the Findings row for lines 127-130.
- Metadata.Cache.InitSegments: stores the corrected start sector, as for `Metadata.Cache.InitSegmentHeaderArray`.
- Metadata.Cache.constructor: requires at least one segment, which `harmless_init` (lines 1108-1110) does not check. A device of 2048 to 2048 + 2^order - 1 sectors gets nr_segments == 0 (`Geometry.NoWholeSegment`), and with it htsize == nr_caches == 0. The driver would then divide by zero in `segment_id_to_idx` (line 183, reached from line 814) and in `ht_get_head` (line 289). The model does not describe such a device. The constructor also requires segment_size_order in 4..10. No code of this file checks that range, and nothing in the model says what happens outside it.
- Geometry.SegmentsFitDevice: holds only for devices of at least 2048 sectors. `calc_nr_segments` is called without that guarantee, and on a smaller device its count wraps (`Geometry.SmallDeviceCountWraps`); the model does not describe what the driver does with such a count.
- Buffers.Pools.InitRambufPool: after a failed data allocation the code leaves `wb->rambuf_pool` pointing at the freed array. The model lets that field keep the freed address and says nothing further about it.
- The replay's starting slot is `segment_id_to_idx(max_id + 1)`, which is max_id mod nr_segments: the slot that id max_id + 1 will occupy. `Geometry.SlotOfNextId` states it.

## Findings

| source | as written | input that shows it | evidently intended | confidence | as-written member | corrected member |
|---|---|---|---|---|---|---|
| Driver/dm-writeboost-metadata.c:127-130 | `(1 << order) * k` is an int times a u32, so the start sector is computed in 32 bits before widening to sector_t | segment_size_order 10, k = 2^22 (a cache device of 2 TiB or more): slot k gets the start sector of slot 0 | the start sector 2048 + 2^order * k in 64 bits, so segments never overlap | not executed | Geometry.SegmentStartWrapsAt2TiB | Geometry.SegmentRangesDisjoint |
| Driver/dm-writeboost-metadata.c:1072-1077 | the failure labels free the installed `wb->emigrates` and `wb->migrate_buffer`, not the buffers just allocated, and leave the fields set | first kmalloc succeeds, vmalloc fails, with a work set installed: the new emigrates block is leaked and `wb->migrate_buffer` points at a freed block | as the comment at lines 1018-1023 says: on failure free the new buffers and keep the old work set | not executed | Buffers.Pools.TryAllocMigrationBufferAsWritten | Buffers.Pools.TryAllocMigrationBuffer |
| Driver/dm-writeboost-metadata.c:450-457 | after a failed header write the function jumps to `bad_io` and returns 0 | the write returns -EIO: format_superblock_header reports success | return the write's error, so that format_cache_device stops at a failed header write (`Format.FormatCacheDeviceCorrected`) | not executed | Format.HeaderWriteErrorLost | Format.FormatSuperblockHeader |
