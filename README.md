# The binder buffer allocator, modelled in Dafny

This project models the per-process buffer allocator of the Android binder driver (`drivers/android/binder_alloc.c`) and proves what it promises.

## The allocator

Each process maps one region of `buffer_size` bytes. The allocator divides the region into buffer records, kept in address order. Each record is either free or allocated. A record's size is not stored: it runs up to the next record's start, or to the end of the region. Free records are also indexed by size, and allocated records by address.

- **Allocation** (`binder_alloc_new_buf_locked`) does the following, in order:
  - word-aligns the three requested sizes and adds them with overflow checks;
  - charges async requests against a budget of half the region;
  - takes the best-fitting free record;
  - commits the pages the new buffer is the first to need;
  - splits the remainder off as a new free record.
- **Freeing** (`binder_free_buf_locked`) credits the budget, hands pages no allocated record still needs to the global LRU list, and coalesces the record with free neighbours.
- **Pages** are committed lazily. A page is active while an allocated buffer overlaps it. It sits on the LRU list when idle, and the shrinker (`binder_alloc_free_page`) may reclaim it from there.
- **The copy engine** checks an access with `check_buffer`, then copies one page chunk at a time.

## Layout

| file | module | contents |
|---|---|---|
| `arith.dfy` | `Arith` | `size_t` wrap-around, word and page rounding, the checked size computation, error codes |
| `records.dfy` | `Records` | the buffer record and the address-ordered list; implicit sizes; the two indices as sets of starts |
| `records.dfy` | `Coalesce` | split-and-stamp (allocation) and mark-and-merge (free) on the list, and the invariants they keep |
| `async.dfy` | `AsyncSpace` | the async budget: the accounting as written, and the corrected accounting the model uses |
| `pages.dfy` | `Pages` | which pages are needed; the page ranges allocation commits and freeing releases; the page-array invariant |
| `copy.dfy` | `Copy` | `check_buffer`, page lookup, page contents, and what a chunked write or read leaves |
| `alloc.dfy` | `Alloc` | `struct binder_alloc` as the class `BinderAlloc`, with the page array as an `array<Page>` and every operation as a method |

**Identity and the indices.** A record is identified by its start offset (`user_data` less the region base). The red-black trees become sets of starts: `freeIndex` and `allocatedIndex`.

**The class invariant.** `BinderAlloc.Valid` holds four things:
- the list tiles the region, no two free records are adjacent, and every allocated record is exactly its padded request size;
- each index holds exactly the starts of its kind;
- the budget plus the charges of live async buffers is half the region;
- `PagesAgree`: a page is active exactly when an allocated record overlaps it, and every committed page lies below `pages_high`.

Every public operation keeps `Valid`: allocation, lookup, free, clear, copy, bind, vma close and page reclaim. The sub-steps of an operation (`SplitOff`, `Stamp`, `Carve`, `UpdatePageRange`, `DeleteFreeBuffer`, `MergeFreed` and the like) state exact effects on the fields they change instead. Teardown (`DeferredRelease`) does not keep `Valid`: it leaves the list empty.

**Outside events as parameters.** Kernel services the code calls become boolean parameters that say whether the call succeeds:
- mm references;
- `alloc_page` and `vm_insert_page`, as the set `failing` of page indices;
- `kzalloc`;
- trylocks.

Several fields are written by the transaction layer rather than by the allocator: `allow_user_free`, `transaction` and `clear_on_free`. The method `SetTransactionState` performs those writes.

## Model

| member | source | states |
|---|---|---|
| Records.BufferSize | drivers/android/binder_alloc.c:70-76 | A record's size is the distance to the next record's start, or to the region end for the last record. It is positive and stays inside the region. |
| Records.SizesPartitionRegion | drivers/android/binder_alloc.c:70-76 | The implicit sizes of all records add up to exactly the region size: no gap and no overlap. |
| Arith.CheckedAlignedAddExact | drivers/android/binder_alloc.c:422-437 | One aligned addition with its `r < x \|\| r < y` test fails exactly when the mathematical sum of the aligned operands does not fit in 64 bits. Otherwise it returns that sum. |
| Arith.AllocationSizeExact | drivers/android/binder_alloc.c:422-437 | The size computation returns EINVAL exactly when the sum of the three word-aligned sizes reaches 2^64. Otherwise it returns that sum. |
| Arith.Padded | drivers/android/binder_alloc.c:481-482 | Padded size is at least one word and at least the size, and equals the size from one word up. |
| Alloc.BinderAlloc.InsertFree | drivers/android/binder_alloc.c:78-109 | The free index gains the record's start, and nothing else changes. |
| Alloc.BinderAlloc.InsertAllocated | drivers/android/binder_alloc.c:111-134 | The allocated index gains the record's start. The start must not be indexed already. |
| Alloc.LookupForFree | drivers/android/binder_alloc.c:136-167 | The result is NULL exactly when no allocated record starts at the pointer. Otherwise it is the record if user space may free it, and EPERM if not. |
| Alloc.SecondFreeRefused | drivers/android/binder_alloc.c:155-162 | Once a lookup has granted a free, a second lookup of the same pointer returns EPERM. The list stays sorted, and no other record changes. |
| Alloc.BinderAlloc.PrepareToFree | drivers/android/binder_alloc.c:136-167 | The method returns the lookup's result, clears `allow_user_free` of a granted record only, and keeps the invariant. |
| Alloc.BinderAlloc.SetTransactionState | drivers/android/binder_alloc.c:1143-1147 | Stands for the transaction layer's writes, made outside this file, to the flags `check_buffer` reads here (`allow_user_free`, `transaction`) and to `clear_on_free`. Only those three flags of the one allocated record change, and the invariant holds. |
| Alloc.BinderAlloc.UpdatePageRange | drivers/android/binder_alloc.c:191-319 | An empty range does nothing. A free puts every page of the range on the LRU list and returns ESRCH, as the code does. An allocation that needs the mm and cannot have it returns ESRCH with nothing changed. Otherwise the allocation commits every page in order, taking present pages off the LRU list, or stops at the first page that cannot be allocated or mapped and returns ENOMEM. In that case the pages before it go back on the LRU list. `pages_high` rises past every new page. |
| Alloc.BinderAlloc.FindMissing | drivers/android/binder_alloc.c:212-219 | `need_mm` holds exactly when some page of the range has no page. |
| Alloc.BinderAlloc.CommitPages | drivers/android/binder_alloc.c:235-312 | The commit loop together with its rollback, stated as above. |
| Alloc.BinderAlloc.ReleasePages | drivers/android/binder_alloc.c:287-303 | Pages `lo..hi-1` go on the LRU list, and every other page is unchanged. |
| Alloc.FindBestFit | drivers/android/binder_alloc.c:484-498 | The search finds nothing exactly when no free record is large enough. Otherwise it returns a free record that is large enough and no larger than any other such record. |
| Alloc.BinderAlloc.NewBuf | drivers/android/binder_alloc.c:399-592 | The error cases are exact: ESRCH without a mapping; EINVAL exactly on size overflow; ENOSPC when the async budget refuses; ENOSPC exactly when no free record fits. With the mm present and no failing allocation, the call succeeds. On success the buffer is a best fit and the list is the split-and-stamped list. The budget is debited for async buffers. On success the pages the buffer is the first to need, and only those, are committed, taken off the LRU list or freshly zeroed (`WindowCommitted`). On error the list, the indices and the budget are unchanged. An error other than ENOMEM also leaves the pages and `pages_high` unchanged. On ENOMEM only pages of a best fit's window changed, each committed onto the LRU list. The invariant holds throughout. |
| Alloc.BinderAlloc.AllocateBestFit | drivers/android/binder_alloc.c:484-591 | Once the size is admitted, the call returns ENOSPC exactly when no free record fits. With the mm present and no failing allocation, a fit means success. On success the buffer is a best fit, the list is split and stamped, the budget is debited, and exactly the window's pages are committed. An error leaves the list, the indices and the budget unchanged. An error other than ENOMEM also leaves the pages unchanged. On ENOMEM only pages of a best fit's window changed, each committed onto the LRU list. |
| Alloc.BinderAlloc.AllocateIn | drivers/android/binder_alloc.c:541-591 | After the best fit is chosen: with no failure, the result is the record's start, the list is split and stamped, and the budget is debited. On success exactly the window's pages are committed (`WindowCommitted`). Any error it returns is other than ENOSPC, and leaves the list, the indices and the budget unchanged. An error other than ENOMEM also leaves the pages and `pages_high` unchanged. On ENOMEM only pages of the window changed, each committed onto the LRU list. |
| Alloc.BinderAlloc.CommitWindow | drivers/android/binder_alloc.c:541-552 | The window from the start rounded up, to the end rounded up but capped at the record's last page boundary, is committed exactly. On ESRCH nothing changes. On ENOMEM only pages of the window changed, each committed onto the LRU list. The invariant holds on failure. |
| Pages.WindowRange | drivers/android/binder_alloc.c:541-549 | The loop's page indices `PAGE_ALIGN(start)..end_page_addr` are exactly the pages `AllocCommits` names. |
| Pages.SplitCommitsExactly | drivers/android/binder_alloc.c:541-549 | The exact commit window: allocation commits exactly the pages that become needed, and no page stops being needed. |
| Pages.AgreeAfterCommit | drivers/android/binder_alloc.c:541-578 | After that commit and the split, every page is active exactly when an allocated record overlaps it. |
| Pages.AgreeAfterFailedCommit | drivers/android/binder_alloc.c:313-318 | A commit that fails (no mm, or a page that cannot be allocated) leaves the page array agreeing with the unchanged list. |
| Alloc.BinderAlloc.ReleaseWindow | drivers/android/binder_alloc.c:587-591 | When the remainder's record cannot be allocated, the pages `PAGE_ALIGN(start)..end_page_addr` go on the LRU list and every other page is unchanged. The allocation's net effect on the pages is only the window committed onto the LRU list, and the invariant holds again. |
| Pages.RollbackInWindow | drivers/android/binder_alloc.c:287-303 | The commit loop's rollback, which puts pages `lo..m-1` back on the LRU list, changes only pages of the allocation's window, each onto the LRU list. |
| Alloc.BinderAlloc.SplitOff | drivers/android/binder_alloc.c:553-566 | A free record `size` bytes into the chosen one is linked in behind it, and the free index gains its start. |
| Alloc.BinderAlloc.Stamp | drivers/android/binder_alloc.c:568-578 | The record leaves the free index, enters the allocated index and is replaced by its stamped form. |
| Alloc.BinderAlloc.Carve | drivers/android/binder_alloc.c:553-584 | The split and the stamp give the split-and-stamped list. The list invariant and both indices are kept, and the budget is debited for async buffers. |
| Coalesce.AllocatedListWellFormed | drivers/android/binder_alloc.c:553-578 | Allocation keeps the list well formed. The chosen start moves from the free index to the allocated index, and the remainder's start, if any, joins the free index. |
| AsyncSpace.SplitCharged | drivers/android/binder_alloc.c:579-584 | Splitting and stamping raises the total async charge by exactly the new buffer's charge. |
| Pages.BufferStartPage | drivers/android/binder_alloc.c:624-627 | The result is a page boundary, and the start lies in that page. |
| Pages.PrevBufferEndPage | drivers/android/binder_alloc.c:629-633 | The result is the page holding the byte just before the given start. |
| Alloc.BinderAlloc.DeleteFreeBuffer | drivers/android/binder_alloc.c:635-681 | The record is removed from the list. The page holding its start goes to the LRU list exactly when three conditions hold. It is not the page holding the byte just before the previous record's start, which is the end page of the record before the previous one. It is not the next record's start page. The start is not page aligned. |
| Pages.FreeReleasesExactly | drivers/android/binder_alloc.c:683-737 | The page-sharing rule: the pages a free gives to the LRU list (its own range plus the start pages of deleted records) are exactly the pages that were needed and no longer are. No page becomes needed. |
| Pages.FreeReleasesDisjoint | drivers/android/binder_alloc.c:712-734 | The three page releases of a free never hit the same page, so each page is added to the LRU list once. |
| Alloc.BinderAlloc.FreeRecordPages | drivers/android/binder_alloc.c:712-715 | The pages from the start rounded up to the end rounded down go to the LRU list. |
| Coalesce.FreedListWellFormed | drivers/android/binder_alloc.c:717-736 | Freeing keeps the list well formed. The record leaves the allocated index, an absorbed next neighbour leaves the free index, and the surviving record (the previous neighbour when that one absorbs it) enters the free index. |
| Alloc.BinderAlloc.MergeFreed | drivers/android/binder_alloc.c:717-736 | The list becomes the freed list, the free index changes as just stated, and the pages released are exactly `FreedPages`. |
| AsyncSpace.FreedListCharged | drivers/android/binder_alloc.c:704-710 | Freeing gives back the freed record's charge and only that charge. |
| Pages.AgreeAfterFree | drivers/android/binder_alloc.c:683-737 | After a free, every page is active exactly when an allocated record overlaps it. |
| Alloc.BinderAlloc.FreeBufLocked | drivers/android/binder_alloc.c:683-737 | The record becomes free and is coalesced. The pages only it needed go to the LRU list. The budget regains its charge, and the invariant holds. |
| Alloc.BinderAlloc.FreeAt | drivers/android/binder_alloc.c:683-737 | The same, for the record at a given position. |
| Alloc.BinderAlloc.FreeBuf | drivers/android/binder_alloc.c:748-766 | A record marked clear-on-free is zeroed and unmarked, then freed. The set of committed pages is unchanged: no page is allocated or given back to the kernel, and the pages only this record needed go onto the LRU list. |
| Alloc.ClearedReadsZero | drivers/android/binder_alloc.c:748-766 | A buffer cleared on free reads as zeros after the free: the free moves pages to the LRU list but keeps their bytes. |
| Alloc.BinderAlloc.ClearMarked | drivers/android/binder_alloc.c:759-762 | The record's bytes are zeroed, the mark is cleared, and the set of committed pages is unchanged. |
| Alloc.BinderAlloc.constructor | drivers/android/binder_alloc.c:1099-1104 | A new allocator has no region. |
| Alloc.BinderAlloc.Bind | drivers/android/binder_alloc.c:781-836 | A second mapping fails with EBUSY and changes nothing. A failing page-array allocation gives ENOMEM. A failing record allocation gives ENOMEM and leaves no region. On success the region is one free record, the budget is half the region, and no page is committed. |
| Alloc.FreshRegion | drivers/android/binder_alloc.c:815-820 | One free record over an uncommitted page array satisfies the invariant. |
| Alloc.BinderAlloc.VmaClose | drivers/android/binder_alloc.c:991-994 | The mapping goes away, and the invariant is kept. |
| Alloc.BinderAlloc.DeferredRelease | drivers/android/binder_alloc.c:839-903 | All allocated records are freed and counted, all records are deleted, and every committed page (active or on the LRU list) is returned and counted. |
| Alloc.BinderAlloc.FreeAllAllocated | drivers/android/binder_alloc.c:849-861 | The loop frees exactly as many records as were allocated. The set of committed pages is unchanged: no page is allocated or given back to the kernel, and the pages only the freed records needed go onto the LRU list. Afterwards the list is one free record over the whole region, and under the corrected async credit the budget is full again. |
| Alloc.BinderAlloc.FirstAllocated | drivers/android/binder_alloc.c:849-850 | The result is the lowest allocated start. |
| Coalesce.AllFreeIsOneRecord | drivers/android/binder_alloc.c:863-871 | A well-formed list without allocated records is one free record starting at 0. |
| Alloc.BinderAlloc.DeleteRecords | drivers/android/binder_alloc.c:863-871 | Every record, all of them free, is deleted. |
| Alloc.BinderAlloc.ReleaseAllPages | drivers/android/binder_alloc.c:873-896 | Every page becomes uncommitted, and the count is the number of pages that were committed. |
| Alloc.FreeKeepsReleased | drivers/android/binder_alloc.c:852-853 | Freeing keeps every allocated record free of a transaction, so the teardown loop never reaches its `BUG_ON`. |
| Alloc.BinderAlloc.FreePage | drivers/android/binder_alloc.c:1005-1067 | A page on the LRU list is reclaimed exactly when the allocator lock, the mm and the mmap lock are all obtained. Otherwise it is skipped. The invariant is kept. |
| Alloc.ReclaimSparesNeeded | drivers/android/binder_alloc.c:1029-1051 | A page on the LRU list is needed by no allocated record, so reclaiming it keeps the page array agreeing with the list. |
| Copy.CheckBuffer | drivers/android/binder_alloc.c:1137-1148 | An access is allowed exactly when it lies inside the record, the offset is 4-byte aligned, the record is allocated, and either user space may not free it yet or it has no transaction. |
| Copy.CheckedAccessActive | drivers/android/binder_alloc.c:1137-1148 | Every byte of an allowed access belongs to that record and lies on an active page. |
| Copy.GetPage | drivers/android/binder_alloc.c:1169-1183 | The page index and in-page offset name the byte at region offset `start + offset`, and the in-page offset is below `PAGE_SIZE`. |
| Copy.GetPageUnique | drivers/android/binder_alloc.c:1169-1183 | Those two values are the only pair that names that byte. |
| Alloc.BinderAlloc.ClearBuf | drivers/android/binder_alloc.c:1192-1213 | The whole record is zeroed, and the invariant is kept. |
| Alloc.BinderAlloc.ZeroChunks | drivers/android/binder_alloc.c:1198-1212 | The chunked `memset` loop zeroes exactly the range. |
| Copy.CopyFromUser | drivers/android/binder_alloc.c:1248 | `copy_from_user` copies the readable bytes and zero-fills the rest of the destination. It returns the count not copied. |
| Copy.UserChunk | drivers/android/binder_alloc.c:1244-1254 | One chunk of the loop either extends the copied prefix or ends the copy. When it ends the copy, it returns `bytes - size + ret`, which is the total count of bytes not copied. |
| Alloc.BinderAlloc.CopyUserToBuffer | drivers/android/binder_alloc.c:1228-1257 | A refused access returns `bytes` and changes nothing. Otherwise the readable user bytes are copied, the rest of the faulting chunk is zero-filled, and the method returns the count not copied. |
| Alloc.BinderAlloc.CopyChunksFromUser | drivers/android/binder_alloc.c:1237-1256 | The same, for the loop. |
| Alloc.BinderAlloc.DoBufferCopy | drivers/android/binder_alloc.c:1259-1295 | Copying into the buffer writes exactly the given bytes at the offset. Copying out returns exactly the buffer's bytes there, leaves the rest of the destination, and changes no page. |
| Alloc.BinderAlloc.BufferCopyChunks | drivers/android/binder_alloc.c:1269-1294 | The same, for the loop. |
| Copy.WriteThenRead | drivers/android/binder_alloc.c:1297-1315 | Reading back with `copy_from_buffer` what `copy_to_buffer` wrote gives back the same bytes. |
| Copy.WrittenMeans | drivers/android/binder_alloc.c:1281-1282 | After a write, the written range holds the data, and every other byte is unchanged. |
| AsyncSpace.AsWrittenAdmissionWraps | drivers/android/binder_alloc.c:452-458 | As written: a budget of exactly one record admits an empty async request, and the debit then wraps the budget to 2^64 - 8. |
| AsyncSpace.AsWrittenCreditLeaks | drivers/android/binder_alloc.c:704-710 | As written: an empty async buffer is debited a word more than it is credited. |
| AsyncSpace.AsyncRoundTrip | drivers/android/binder_alloc.c:579-584 | Corrected: the debit never wraps, and the credit on free gives back exactly what the debit took. |

## Left out

- The process-freeze notification over netlink (lines 349-393 and 438-451) is not modelled. It sends a message and changes no allocator state.
- The MILLET hook (lines 395-397 and 460-479) is not modelled, for the same reason.
- Locking is not modelled: the allocator mutex, the mmap lock, the global `binder_alloc_mmap_lock` and the memory ordering of `set_vma`/`get_vma`. Each method runs atomically, and trylock outcomes are parameters.
- Kernel memory management is abstracted: `mmget_not_zero`, `alloc_page`, `vm_insert_page`, `kzalloc` and `kfree`. Each call's success is a parameter. `zap_page_range`, `mmgrab`, `mmput`, `mmdrop` and the freeing of the page array and of records are left out.
- The list_lru internals and the shrinker's count and scan functions (lines 1070-1116) are not modelled. The LRU list is the `onLru` flag of each page, and `FreePage` models the callback.
- Red-black tree balancing is not modelled. The trees are sets of starts.
- Diagnostics are not modelled: debug messages, tracing, the ENOSPC statistics loop (lines 500-529) and the print functions (lines 905-980).
- Alloc.FindBestFit: states that the result is a best fit, not which of several equal-size free records the tree walk would reach.
- Copy.CopyFromUser: models a fault as a cut in the readable user bytes, with the rest of the chunk zero-filled. It does not model how much of a chunk a real `copy_from_user` gets through before faulting.
- Copy.GetPage: offsets are unbounded naturals, so the `binder_size_t` wrap of `buffer_offset + (user_data - buffer)` is not modelled. Every caller checks the access with `check_buffer` first.
- Alloc.BinderAlloc.FreePage: the `err_page_already_freed` branch is not modelled. A page on the LRU list is always committed here, because the LRU list is a state of a committed page.
- Alloc.BinderAlloc.CommitWindow: on ENOMEM it states that only pages of the window changed, each committed onto the LRU list, not that they form the prefix before the failing page. `UpdatePageRange` states that prefix exactly.
- Alloc.BinderAlloc.AllocateIn: on ENOMEM it states the same bound on the pages as `CommitWindow`, not which of the two error paths left which pages.
- Alloc.BinderAlloc.AllocateBestFit: on ENOMEM it states the page bound of `AllocateIn` for some best fit, not which one.
- Alloc.BinderAlloc.NewBuf: uses the corrected async accounting of `AsyncSpace`, not the accounting as written (see Findings). On ENOMEM it states the page bound of `AllocateIn` for some best fit, not which one.
- Alloc.BinderAlloc.FreeAt: credits the async budget with the padded size that allocation debited (the corrected accounting), not the unpadded size lines 690-705 recompute (see Findings).
- Alloc.BinderAlloc.FreeBufLocked: the same corrected credit as `FreeAt`.
- Alloc.BinderAlloc.FreeBuf: the same corrected credit as `FreeAt`.
- Alloc.BinderAlloc.FreeAllAllocated: the full budget it ends with (`freeAsyncSpace == bufferSize / 2`) comes from the corrected credit of `FreeAt`, not from lines 690-705. As written, each freed empty async buffer leaves 8 bytes uncredited, so the budget can end below half the region. The same holds for `Alloc.BinderAlloc.DeferredRelease`.
- Alloc.BinderAlloc.DeferredRelease: its `bound ==> freeAsyncSpace == bufferSize / 2` relies on the corrected credit of `FreeAllAllocated`, not on lines 690-705 as written (see Findings row :705).
- AsyncSpace.FreedListCharged: the charge it removes is the corrected padded charge, not the unpadded credit of lines 690-705.
- Alloc.BinderAlloc.Bind: the region size is a parameter. The vma's bounds are not modelled.
- `binder_alloc_new_buf` and `binder_alloc_prepare_to_free` are the locked wrappers of `NewBuf` and `PrepareToFree`. `binder_alloc_copy_to_buffer` and `binder_alloc_copy_from_buffer` are `DoBufferCopy` with the direction fixed.
- Freeing (`binder_free_buf_locked`) releases the pages inside the record plus the start pages of deleted free records. `Pages.FreeReleasesExactly` proves that these are exactly the pages no allocated record needs any more.

## Findings

| source | as written | input that shows it | evidently intended | confidence | as-written member | corrected member |
|---|---|---|---|---|---|---|
| drivers/android/binder_alloc.c:453 | Admission compares the budget with the unpadded size plus the record size. Line 580 then debits the padded size (at least one word) plus the record size, on a `size_t`. | Region of 4096 bytes (budget 2048) and record size 104. An async buffer of 1840 bytes leaves 104. An async request with all three sizes 0 is then admitted (104 < 0 + 104 is false). The debit subtracts 8 + 104 and wraps the budget to 2^64 - 8, after which every async request is admitted. | Admit on the padded size, so the debit never exceeds the budget. | not executed | AsyncSpace.AsWrittenAdmissionWraps | AsyncSpace.AsyncRoundTrip |
| drivers/android/binder_alloc.c:705 | The credit on free recomputes the unpadded size (lines 690-692). The debit at line 580 used the padded size. | An async buffer with all three sizes 0 is debited 8 + 104 and credited 0 + 104. Each such buffer permanently loses 8 bytes of async budget. | Credit the padded size that was debited. | not executed | AsyncSpace.AsWrittenCreditLeaks | AsyncSpace.AsyncRoundTrip |
