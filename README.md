# Slotted pages and paging statistics of toydb, in Dafny

This project models two parts of toydb.

**The slotted-page record manager** (`toydb/tools/slot_page.c`, `toydb/tools/slot_page.h`).
- It stores variable-length records inside one fixed-size page buffer.
- An 8-byte header of four shorts comes first: slotCount, freeListHead, freePtr, attrLength.
- A directory of (offset, length) slot entries follows it and grows up from byte 8.
- Record bytes fill the page from the page end down to `freePtr`.
- Deleting a record turns its slot into a tombstone (length -1). The tombstones are threaded into a free list through their `offset` fields.
- Inserting reuses the head of that free list, or else appends a slot.
- When the gap between the directory and `freePtr` is too small, the page is compacted. Compaction sorts the active slots by descending offset and slides their records up against the page end with `memmove`.

**The paging layer's statistics counters** (`toydb/pflayer/pf_stats.c`, `toydb/pflayer/pf_stats.h`). This is one static record of eight `unsigned long` counters. It is reset, copied out, and bumped by six increment calls. A physical read also counts an input, and a physical write also counts an output.

Files:
- `slot_page_format.dfy` (module `SlotPageFormat`) holds the constants, the status codes, the header, slot-entry and record-reference types, and the byte image of the header and directory with its round trips.
- `slot_space.dfy` (module `SlotSpace`) holds facts about a directory as a sequence:
  - the used-bytes sum;
  - non-overlap and the packing bound;
  - the active slots and the repack order;
  - the records a page holds;
  - the free list as a chain.
- `slot_page.dfy` (module `SlotPage`) holds the page invariant, the lemmas behind each operation, and the class `SlottedPage`.
  - The class has one method per C function.
  - Each method works in place on the page's `bytes` array and its slot-directory array `dir`.
- `pf_stats.dfy` (module `PFStatsCounters`) holds the class `Stats`. Each of its methods is proved against `Apply`/`Replay`, a pure description of the counters.

How the page is represented:
- The header fields and the directory are fields and an array of the class, not bytes reinterpreted as structs.
- `SlotPageFormat` gives their byte image separately, little-endian.
- `Valid()` is the page invariant:
  - the directory ends at or below `freePtr`;
  - every active record lies in `[freePtr, PAGE_SIZE)`;
  - no two active records overlap;
  - every inactive entry is a tombstone;
  - the ghost `freeList` is the chain of tombstones from `freeListHead`, holds every tombstone, and has no cycle.
- `Records()` is what users of a page see: a map from each active slot id to its record's bytes. Insert, Delete and Compact are specified by what they do to this map.
- Combining those contracts gives the record round trip: a record keeps its bytes until its slot is deleted, across later inserts, other deletes and compactions.
  - Insert adds `slotId := data`.
  - Delete removes exactly its id.
  - Compact keeps the map.
  - GetRecord and GetNextRecord return `Records()[id]`.

`PF_PAGE_SIZE` is defined in `pf.h`, which is not part of this model. `PAGE_SIZE` is therefore a constant with no value, anywhere in 12..32767. It must hold a header and one slot, and `freePtr` is a short. Every proof holds for each such size.

## Model

| member | source | states |
|---|---|---|
| SlotPageFormat.Code | toydb/tools/slot_page.h:6-9 | The four status codes are 0, -1, -2, -3; only SP_OK is 0. |
| SlotPageFormat.StatusOfCode | toydb/tools/slot_page.h:6-9 | An integer reads back as a status exactly when it is one of the four codes. |
| SlotPageFormat.CodeRoundTrip | toydb/tools/slot_page.h:6-9 | The codes are distinct: each reads back as the status it came from. |
| SlotPageFormat.ToShort | toydb/tools/slot_page.c:127 | The C narrowing to `short`: the result is a short, equals the input when that is a short, and is congruent to it modulo 2^16. |
| SlotPageFormat.AsSizeT | toydb/tools/slot_page.c:128 | The conversion of a signed value to `size_t` in a comparison with `sizeof`: non-negative values are kept and negative ones become huge. |
| SlotPageFormat.ShortRoundTrip | toydb/tools/slot_page.h:11-16 | A short's 2-byte little-endian image decodes back to it. |
| SlotPageFormat.EncodeHeader | toydb/tools/slot_page.h:11-16 | The header image is exactly 8 bytes. |
| SlotPageFormat.HeaderRoundTrip | toydb/tools/slot_page.h:11-16 | The 8-byte header image (slotCount, freeListHead, freePtr, attrLength at offsets 0, 2, 4, 6) decodes back to the header. |
| SlotPageFormat.EncodeDirectory | toydb/tools/slot_page.c:22-31 | The directory image takes 4 bytes per entry. |
| SlotPageFormat.DirectoryRoundTrip | toydb/tools/slot_page.c:28-31 | In the image of header plus directory, slot i reads back from bytes 8+4i and 8+4i+2, and the header still reads back. |
| SlotPage.InvariantFitsShorts | toydb/tools/slot_page.h:11-16 | Under the page invariant every header field and every slot-entry field is a short, so the page has a byte image. |
| SlotPage.MaxSlotsFit | toydb/tools/slot_page.c:32-33 | SP_MAX_SLOTS is exactly the number of entries whose directory still ends inside the page. |
| SlotPage.UsedWithinRecordArea | toydb/tools/slot_page.c:65-78 | The active records use at most PAGE_SIZE - freePtr bytes. |
| SlotSpace.UsedOf | toydb/tools/slot_page.c:65-78 | The used-bytes sum over active entries is non-negative and is 0 when no entry is active. |
| SlotSpace.UsedOfUpdate | toydb/tools/slot_page.c:72-76 | Replacing one entry changes the sum by the difference of the two entries' contributions. |
| SlotSpace.UsedOfSameLengths | toydb/tools/slot_page.c:240-242 | Entries that keep their lengths keep the sum: moving records frees nothing. |
| SlotSpace.UsedOfAppend | toydb/tools/slot_page.c:96-97 | A new last entry adds its contribution. |
| SlotSpace.DistinctOffsets | toydb/tools/slot_page.c:223-233 | Two distinct active records never start at the same byte, so the sort's comparison is strict. |
| SlotSpace.LengthsFit | toydb/tools/slot_page.c:235-243 | Distinct, non-overlapping active records inside [lo, hi) hold at most hi - lo bytes together. |
| SlotSpace.LengthSumOfActive | toydb/tools/slot_page.c:72-76 | Listing every active slot below n once sums to the used bytes of the first n entries. |
| SlotSpace.UsedFits | toydb/tools/slot_page.c:65-78 | Non-overlapping active records inside [lo, hi) use at most hi - lo bytes. |
| SlotSpace.ActiveSlots | toydb/tools/slot_page.c:216-221 | The ids the first compaction loop collects: exactly the active slots, in strictly increasing order. |
| SlotSpace.ActiveSlotsDistinct | toydb/tools/slot_page.c:216-221 | The collected ids are listed once each. |
| SlotSpace.SwapStep | toydb/tools/slot_page.c:225-231 | One compare-and-swap keeps the ids (multiset) and the sorted prefix, and leaves the largest offset so far at position i. |
| SlotSpace.SwapKeeps | toydb/tools/slot_page.c:228-230 | Swapping two positions keeps the elements and their distinctness. |
| SlotSpace.SortedGrows | toydb/tools/slot_page.c:223-233 | After a full inner pass the sorted prefix is one longer. |
| SlotSpace.SortedIsRepackOrder | toydb/tools/slot_page.c:223-233 | A permutation of the active slots sorted by offset lists every active slot by strictly decreasing offset. |
| SlotSpace.RepackTotal | toydb/tools/slot_page.c:235-244 | The repack order lists each slot once, and its lengths add up to the used bytes. |
| SlotSpace.RepackAbove | toydb/tools/slot_page.c:235-237 | The records up to the i-th of the order fit between its start and the page end. |
| SlotSpace.RepackBelow | toydb/tools/slot_page.c:235-237 | The records after the i-th of the order lie below it and fit between the record area's start and its start. |
| SlotSpace.RepackStep | toydb/tools/slot_page.c:235-243 | The i-th record's new place, packed from the page end, is at or above its old place and above every later record. |
| SlotSpace.RecordOf | toydb/tools/slot_page.c:164-181 | A slot holds a record exactly when it is in range and active, and the record is its byte range. |
| SlotSpace.ChainAt | toydb/tools/slot_page.c:86-90 | Each free-list link is an in-range tombstone whose offset names the next link or -1. |
| SlotSpace.WalkFollowsChain | toydb/tools/slot_page.c:86-90 | Following offset links from the head visits exactly the free list and then stops at -1. |
| SlotSpace.DistinctBounded | toydb/tools/slot_page.c:86-90 | Distinct slot ids below n number at most n, which bounds the free list by the directory and so the walk along its links. |
| SlotSpace.FreeListWalkEnds | toydb/tools/slot_page.c:86-90 | The free list is acyclic: no longer than the directory, and the walk from the head reaches -1 within that many steps. |
| SlotPage.SlottedPage.InitPage | toydb/tools/slot_page.c:45-55 | Zeroes the page and sets the header to (0, -1, PAGE_SIZE, 0). The page is valid, holds no records, FreeSpace is PAGE_SIZE - 8 and the used bytes are 0. |
| SlotPage.SlottedPage.FreeSpace | toydb/tools/slot_page.c:57-63 | freePtr minus the end of the directory: never negative, and never more than a compaction would free. |
| SlotPage.SlottedPage.UsedBytes | toydb/tools/slot_page.c:65-78 | Read-only loop returning the sum of the active lengths, which is at most PAGE_SIZE - freePtr. |
| SlotPage.SlottedPage.ReserveSlot | toydb/tools/slot_page.c:80-99 | Pops the free-list head (slotCount unchanged, the head advanced to the popped entry's offset), or appends slot slotCount, or reports SP_ERR_NOSPACE with nothing changed when the directory is full. |
| SlotPage.SlottedPage.EnsureSpace | toydb/tools/slot_page.c:101-109 | Succeeds exactly when needed is at most the free space a compaction leaves. It changes nothing when the gap already sufficed, and otherwise compacts: records, slots and free list are kept and only record places move. |
| SlotPage.SlottedPage.Insert | toydb/tools/slot_page.c:111-144 | A non-positive length gives SP_ERR_NOSPACE and changes nothing. Otherwise it succeeds exactly when length plus a new slot (if the free list is empty) fits after compaction. On success the returned id is the free-list head or the old slotCount, the page holds the new record under that id and every other record unchanged, and freePtr drops by length to the record's start. When no compaction was needed, every other directory entry and every byte outside the new record stay as they were. attrLength never changes. On failure the records are unchanged. |
| SlotPage.SlottedPage.PlaceRecord | toydb/tools/slot_page.c:127-143 | With the space ensured, the record is added under the reserved id, freePtr drops by its length, and the invariant holds. Every other directory entry, attrLength and every byte outside the new record's range stay as they were. |
| SlotPage.SlottedPage.StoreRecord | toydb/tools/slot_page.c:127-139 | The new header, directory, free list and page bytes, as functions of the old ones; only the reserved entry and the record's bytes change. The `dest < sizeof(header)` guard and ReserveSlot's NOSPACE return are never taken once the space is ensured. |
| SlotPage.RoomToPlace | toydb/tools/slot_page.c:115-117 | With room for the record plus a new slot when the head is -1, the free list is empty exactly when its head is -1, and the bytes StoreRecord needs lie between the directory and freePtr. |
| SlotPage.Placement | toydb/tools/slot_page.c:127-139 | Those new values keep the page invariant, give a slot that held no record, add exactly that record with the copied bytes, and add its length to the used bytes. |
| SlotPage.PlaceInTombstone | toydb/tools/slot_page.c:86-90 | Reusing the free-list head for a record just below freePtr keeps the invariant, and the free list loses its head. |
| SlotPage.PlaceAppended | toydb/tools/slot_page.c:93-98 | A new last slot for a record below freePtr keeps the invariant (the directory still ends at or below it) and stays within SP_MAX_SLOTS. |
| SlotPage.AppendKeepsInvariant | toydb/tools/slot_page.c:96-97 | Appending a slot for a record right below freePtr keeps the invariant with an empty free list. |
| SlotPage.PopChain | toydb/tools/slot_page.c:86-90 | Popping the free-list head leaves the rest of the chain, whose new head is the popped tombstone's link. |
| SlotPage.PushChain | toydb/tools/slot_page.c:158-160 | Pushing a fresh tombstone keeps a valid, duplicate-free chain. |
| SlotPage.SlottedPage.Delete | toydb/tools/slot_page.c:146-162 | Rejects an out-of-range or inactive slot with SP_ERR_INVALID_SLOT, changing nothing. Otherwise it succeeds exactly when the slot holds a record: it tombstones it (length -1, offset = old freeListHead), makes it the free-list head, removes exactly that record, and keeps slotCount, freePtr, the other entries and all page bytes. |
| SlotPage.TombstoneStep | toydb/tools/slot_page.c:158-160 | Tombstoning an active slot keeps the invariant, removes exactly its record and frees exactly its length. |
| SlotPage.TombstoneRecords | toydb/tools/slot_page.c:158-159 | Deactivating one slot removes its record and no other. |
| SlotPage.FewerActive | toydb/tools/slot_page.c:158-159 | Deactivating entries keeps non-overlap and the record area. |
| SlotPage.SlottedPage.GetRecord | toydb/tools/slot_page.c:164-181 | Succeeds exactly when the slot holds a record, returning the slot's own entry (offset, length), as the pointer `pageBuf + slot->offset` designates it, whose bytes are that record; otherwise SP_ERR_INVALID_SLOT. Read-only. |
| SlotPage.SlottedPage.GetNextRecord | toydb/tools/slot_page.c:183-205 | Read-only scan from the start (0 for a negative cursor, else cursor + 1). Returns the smallest active slot id at or after it, with that slot's own entry (offset, length) and its record's bytes, or SP_ERR_EMPTY and -1 when there is none. |
| SlotPage.ScanStart | toydb/tools/slot_page.c:187 | The intended start: never negative, always past the cursor, cursor + 1 for a non-negative cursor. |
| SlotPage.ScanStartAsWritten | toydb/tools/slot_page.c:187 | The start as written, `cursor + 1` stored in a short, is a short. |
| SlotPage.ScanStartWraps | toydb/tools/slot_page.c:187 | The two agree exactly when the cursor is not 32767; at 32767 the written start is -32768. |
| SlotPage.SlottedPage.CollectActive | toydb/tools/slot_page.c:216-221 | The first compaction loop fills `order` with exactly the active slot ids, ascending. |
| SlotPage.SlottedPage.SortByOffset | toydb/tools/slot_page.c:223-233 | The exchange sort leaves a permutation of its input that lists every active slot by strictly decreasing offset. |
| SlotPage.SlottedPage.CompareSwap | toydb/tools/slot_page.c:225-231 | One inner step keeps the ids and the sorted prefix, and extends the maximum at position i by one. |
| SlotPage.SlottedPage.Repack | toydb/tools/slot_page.c:235-244 | The repacking loop returns PAGE_SIZE minus the used bytes. Every record lies from there to the page end in its old relative order and keeps its bytes, only offsets change, and a page that was already packed is left as it was. |
| SlotPage.SlottedPage.MoveNext | toydb/tools/slot_page.c:236-242 | One turn: the next record moves (memmove) to just below the cursor, keeping the loop invariant Repacked. The clamp at lines 238-239 never applies. |
| SlotPage.RepackStart | toydb/tools/slot_page.c:214 | Before any move, with the cursor at the page end, the loop invariant holds. |
| SlotPage.RepackNext | toydb/tools/slot_page.c:236-239 | The next record has not moved yet. Its new place lies within the record area, at or above its old place, and never below the header. |
| SlotPage.RepackAdvance | toydb/tools/slot_page.c:236-242 | One move keeps the loop invariant one position further. |
| SlotPage.MoveRecords | toydb/tools/slot_page.c:240-242 | Moving one record with its bytes onto bytes no other record uses keeps every record. |
| SlotPage.MoveKeepsInvariant | toydb/tools/slot_page.c:240-242 | Such a move, staying above freePtr, keeps the page invariant. |
| SlotPage.MovedDisjoint | toydb/tools/slot_page.c:240-242 | The next record's new place overlaps no other record. |
| SlotPage.MovedStep | toydb/tools/slot_page.c:236-242 | The moved records stay stacked, each below the one moved before it. |
| SlotPage.AdvanceRecords | toydb/tools/slot_page.c:240-242 | The move keeps the bytes of every record. |
| SlotPage.AdvanceInvariant | toydb/tools/slot_page.c:240-242 | The move keeps the page invariant. |
| SlotPage.AdvancePlacement | toydb/tools/slot_page.c:236-242 | The move keeps the loop's placement facts. |
| SlotPage.AdvancePacked | toydb/tools/slot_page.c:240-242 | On a packed page the move is skipped and nothing changes. |
| SlotPage.MovedWithin | toydb/tools/slot_page.c:244 | After the loop every record lies between the final cursor and the page end. |
| SlotPage.StackedKeepsOrder | toydb/tools/slot_page.c:223-243 | Records that lay one below the other still do. |
| SlotPage.RepackDone | toydb/tools/slot_page.c:235-244 | After the loop the cursor is PAGE_SIZE minus the used bytes and at or above the old freePtr. The records are packed in their old order, and nothing moved when the cursor equals freePtr. |
| SlotPage.RaiseFreePtr | toydb/tools/slot_page.c:244 | Raising freePtr over a gap with no record keeps the invariant. |
| SlotPage.OnlyMovedUsed | toydb/tools/slot_page.c:240-242 | Compaction's moves keep the used bytes. |
| SlotPage.SlottedPage.Compact | toydb/tools/slot_page.c:207-245 | Keeps every record's id, length and bytes, the tombstones, slotCount, freeListHead and the free list. freePtr becomes PAGE_SIZE minus the used bytes, so FreeSpace is PAGE_SIZE - 8 - 4·slotCount - used. Records stay in their relative order. When freePtr does not move (as on a second compaction) nothing changes. |
| SlotPage.SlottedPage.CopyBytes | toydb/tools/slot_page.c:131 | memcpy: the source lands at dst and no other byte changes. |
| SlotPage.Spliced | toydb/tools/slot_page.c:131 | After the copy the destination range holds the data and every other byte is unchanged. |
| SlotPage.SlottedPage.MoveBytes | toydb/tools/slot_page.c:241 | memmove: the bytes as they were before the call land at dst, also when the ranges overlap. |
| SlotPage.PlacementRecords | toydb/tools/slot_page.c:131-139 | Placing a record in a free slot adds exactly that record and keeps all others. |
| PFStatsCounters.Succ | toydb/pflayer/pf_stats.c:65-95 | `++` on an unsigned long: one more modulo 2^64, wrapping to 0 at the largest value. |
| PFStatsCounters.Apply | toydb/pflayer/pf_stats.c:65-95 | Each increment adds 1 (mod 2^64) to exactly the counters its event bumps: one counter, or physicalReads and inputCount, or physicalWrites and outputCount. All others are unchanged. |
| PFStatsCounters.ReplayCounts | toydb/pflayer/pf_stats.c:29-32 | Since the last reset each counter equals the number of events bumping it, modulo 2^64. |
| PFStatsCounters.ApplyKeepsPairing | toydb/pflayer/pf_stats.c:75-85 | Every increment keeps inputCount = physicalReads and outputCount = physicalWrites. |
| PFStatsCounters.ReplayKeepsPairing | toydb/pflayer/pf_stats.c:75-85 | From a reset on, inputCount = physicalReads and outputCount = physicalWrites. |
| PFStatsCounters.OccurrencesGrow | toydb/pflayer/pf_stats.c:65-95 | More events never bump a counter fewer times. |
| PFStatsCounters.ReplayMonotone | toydb/pflayer/pf_stats.c:65-95 | Between resets a counter never decreases unless it wraps past 2^64 - 1. |
| PFStatsCounters.ReplayStep | toydb/pflayer/pf_stats.c:65-95 | One more event is one more Apply. |
| PFStatsCounters.Stats.constructor | toydb/pflayer/pf_stats.c:14 | The static record starts zeroed. |
| PFStatsCounters.Stats.Init | toydb/pflayer/pf_stats.c:20-23 | All eight counters are zero, and the history since reset is empty. |
| PFStatsCounters.Stats.Reset | toydb/pflayer/pf_stats.c:29-32 | All eight counters are zero, and the history since reset is empty. |
| PFStatsCounters.Stats.Get | toydb/pflayer/pf_stats.c:39-44 | Copies all eight counters into dest and does not modify the record; null dest does nothing. |
| PFStatsCounters.Stats.IncLogicalRead | toydb/pflayer/pf_stats.c:65-68 | The snapshot becomes Apply(old, LogicalRead), and the record stays the replay of its history. |
| PFStatsCounters.Stats.IncLogicalWrite | toydb/pflayer/pf_stats.c:70-73 | The snapshot becomes Apply(old, LogicalWrite), and the record stays the replay of its history. |
| PFStatsCounters.Stats.IncPhysicalRead | toydb/pflayer/pf_stats.c:75-79 | The snapshot becomes Apply(old, PhysicalRead), bumping physicalReads and inputCount, and the record stays the replay of its history. |
| PFStatsCounters.Stats.IncPhysicalWrite | toydb/pflayer/pf_stats.c:81-85 | The snapshot becomes Apply(old, PhysicalWrite), bumping physicalWrites and outputCount, and the record stays the replay of its history. |
| PFStatsCounters.Stats.IncPageFix | toydb/pflayer/pf_stats.c:87-90 | The snapshot becomes Apply(old, PageFix), and the record stays the replay of its history. |
| PFStatsCounters.Stats.IncDirtyMark | toydb/pflayer/pf_stats.c:92-95 | The snapshot becomes Apply(old, DirtyMark), and the record stays the replay of its history. |

## Left out

- PFStatsPrint (`toydb/pflayer/pf_stats.c:46-63`): formatted output to a FILE only.
- The paging layer (`pf.h` is not part of this model), the B+-tree layer, the command-line tools and the analysis scripts. The page buffer is given to `SlottedPage.Attach`, and `PAGE_SIZE` has no fixed value.
- Type punning: the header and slot directory are class fields and an array rather than bytes of the page buffer. `SlotPageFormat` gives their byte image, assuming little-endian order. The directory array stays separate from `bytes`, and the invariant keeps the records above the directory.
- Output pointers:
  - GetRecord and GetNextRecord return the record's (offset, length) instead of a pointer into the page.
  - NULL `dataPtr`/`length` arguments are not modelled, since they only skip stores.
  - GetNextRecord takes the cursor's value and returns the new one (`next`); a NULL cursor is the same as a negative one.
- SlottedPage.Insert: on failure it returns slotId -1, where the C code leaves the caller's variable untouched. It requires `length <= |data|`, the caller's promise that `data` holds `length` bytes.
- SlottedPage.Insert: when insertion fails after a compaction, the contract states that the records and slots are kept but not how the records moved. EnsureSpace states that.
- SlottedPage.Insert: `data` is a value. In C it is a pointer that may point into the same page, for instance at a record SP_GetRecord just returned. SP_EnsureSpace may compact the page (line 124) before the `memcpy` at line 131. The C code would then copy bytes that have moved, or copy between overlapping ranges, which is undefined behaviour. The model copies the bytes as they were when Insert was called and cannot show either outcome.
- SlottedPage.InitPage and the internal steps SlottedPage.ReserveSlot, SlottedPage.StoreRecord, SlottedPage.SortByOffset, SlottedPage.CompareSwap and SlottedPage.MoveNext do not require `Valid()`; the steps require only the parts of it they use. SlottedPage.FreeSpace, SlottedPage.UsedBytes, SlottedPage.EnsureSpace, SlottedPage.Insert, SlottedPage.PlaceRecord, SlottedPage.Delete, SlottedPage.GetRecord, SlottedPage.GetNextRecord, SlottedPage.Compact, SlottedPage.CollectActive and SlottedPage.Repack require `Valid()`. A page whose bytes were never initialized, or were corrupted, is outside the model.
- The `order[]` array of compaction is a fresh array of MAX_SLOTS ints rather than shorts. Its entries are slot ids below MAX_SLOTS.
- Concurrent access: the source assumes exclusive access to a page and to the statistics record.
- Stats.Get: dest is a record object of the same class. PF_Stats is a plain struct, so the copy is a field-by-field store.
- Stats counters use 64-bit `unsigned long` (LP64). A 32-bit `unsigned long` would only change `ULONG_MODULUS`.

## Findings

| source | as written | input that shows it | evidently intended | confidence | as-written member | corrected member |
|---|---|---|---|---|---|---|
| toydb/tools/slot_page.c:187 | `short start = ... (*cursor + 1)` narrows `cursor + 1` to a short | a caller-supplied cursor of 32767 (the scan's own ids stay below MAX_SLOTS, at most 8189, so only a caller can pass it): start wraps to -32768, and the loop at line 190 reads SP_SLOT(pageBuf, -32768), about 128 KiB before the page buffer | the scan starts at cursor + 1, never below 0 | medium, not executed | SlotPage.ScanStartAsWritten, SlotPage.ScanStartWraps | SlotPage.ScanStart (used by SlottedPage.GetNextRecord) |
