/** struct binder_alloc: the per-process allocator state and its operations.

    The red-black trees of free and allocated buffers become the sets
    `freeIndex` and `allocatedIndex` of record starts; the address-ordered list
    of records becomes `bufs`; the page array stays an array.  Kernel services
    the allocator calls (mm references, page allocation, page mapping, kzalloc)
    become boolean parameters saying whether they succeed.
 */
module Alloc {
  import opened Arith
  import opened Records
  import opened Coalesce
  import opened Pages
  import opened AsyncSpace
  import opened Copy

  /** The result of binder_alloc_prepare_to_free: NULL, ERR_PTR(-EPERM), or the
      record (named by its start). */
  datatype Lookup = NotFound | Refused(error: Errno) | Found(start: nat)

  /** binder_alloc_prepare_to_free_locked on a list: find the allocated record
      starting at `ptr`, and grant the free only if user space may free it. */
  function LookupForFree(bufs: seq<Buffer>, ptr: nat): (r: Lookup)
    requires Sorted(bufs)
    ensures r.NotFound? <==> ptr !in StartsWhere(bufs, false)
    ensures r.Found? ==> r.start == ptr
    ensures r.Refused? ==> r.error == EPERM
  {
    if ptr !in StartsWhere(bufs, false) then NotFound
    else
      StartsWhereMeans(bufs, ptr, false);
      if bufs[IndexOf(bufs, ptr)].allowUserFree then Found(ptr) else Refused(EPERM)
  }

  /** The list after the lookup: a granted record loses allow_user_free. */
  function AfterLookup(bufs: seq<Buffer>, ptr: nat): (r: seq<Buffer>)
    requires Sorted(bufs)
  {
    if LookupForFree(bufs, ptr).Found? then
      var k := IndexOf(bufs, ptr);
      bufs[k := bufs[k].(allowUserFree := false)]
    else bufs
  }

  /** The double-free guard: once a lookup has granted a free, a second lookup of
      the same pointer is refused with EPERM, and no other record changes. */
  lemma {:induction false} SecondFreeRefused(bufs: seq<Buffer>, ptr: nat)
    requires Sorted(bufs)
    requires LookupForFree(bufs, ptr).Found?
    ensures var after := AfterLookup(bufs, ptr);
      && Sorted(after)
      && LookupForFree(after, ptr) == Refused(EPERM)
      && |after| == |bufs|
      && forall j :: 0 <= j < |bufs| && bufs[j].start != ptr ==> after[j] == bufs[j]
  {
    var k := IndexOf(bufs, ptr);
    var after := AfterLookup(bufs, ptr);
    StartsWhereMeans(bufs, ptr, false);
    StartsWhereUpdate(bufs, k, bufs[k].(allowUserFree := false), false);
    assert ptr in StartsWhere(after, false);
    StartsUnique(after, k, IndexOf(after, ptr));
  }

  /** Some free record is at least `p` bytes long. */
  ghost predicate FitExists(bufs: seq<Buffer>, size: nat, p: nat)
    requires Tiles(bufs, size)
  {
    exists j :: 0 <= j < |bufs| && bufs[j].free && BufferSize(bufs, size, j) >= p
  }

  /** Record `k` is a best fit for `p` bytes: free, large enough, and no larger
      than any other free record that is large enough. */
  ghost predicate BestFit(bufs: seq<Buffer>, size: nat, k: nat, p: nat)
    requires Tiles(bufs, size)
  {
    && k < |bufs| && bufs[k].free && BufferSize(bufs, size, k) >= p
    && forall j :: 0 <= j < |bufs| && bufs[j].free && BufferSize(bufs, size, j) >= p ==>
         BufferSize(bufs, size, k) <= BufferSize(bufs, size, j)
  }

  /** The best-fit search of binder_alloc_new_buf_locked over the free records.
      The search stops early on an exact fit, as the tree walk does. */
  method FindBestFit(bufs: seq<Buffer>, size: nat, p: nat) returns (r: Option<nat>)
    requires Tiles(bufs, size)
    ensures r.None? <==> !FitExists(bufs, size, p)
    ensures r.Some? ==> BestFit(bufs, size, r.value, p)
  {
    r := None;
    var j := 0;
    while j < |bufs|
      invariant 0 <= j <= |bufs|
      invariant r.None? ==> forall i :: 0 <= i < j && bufs[i].free ==> BufferSize(bufs, size, i) < p
      invariant r.Some? ==> r.value < |bufs| && bufs[r.value].free && BufferSize(bufs, size, r.value) >= p
      invariant r.Some? ==> forall i :: 0 <= i < j && bufs[i].free && BufferSize(bufs, size, i) >= p ==>
        BufferSize(bufs, size, r.value) <= BufferSize(bufs, size, i)
    {
      if bufs[j].free {
        var n := BufferSize(bufs, size, j);
        if n == p {
          r := Some(j);
          assert BestFit(bufs, size, j, p);
          return;
        }
        if p < n && (r.None? || n < BufferSize(bufs, size, r.value)) {
          r := Some(j);
        }
      }
      j := j + 1;
    }
  }

  /** Record `b` differs from `a` at most in flags no invariant mentions. */
  predicate SameShape(a: Buffer, b: Buffer) {
    && b.start == a.start && b.free == a.free && b.isAsync == a.isAsync
    && b.dataSize == a.dataSize && b.offsetsSize == a.offsetsSize && b.extraSize == a.extraSize
  }

  /** Changing only such flags of record `k` keeps the list's shape, indices,
      charges and page needs. */
  lemma FlagsOnly(bufs: seq<Buffer>, size: nat, k: nat, b: Buffer)
    requires WellFormed(bufs, size) && k < |bufs| && SameShape(bufs[k], b)
    ensures var r := bufs[k := b];
      && WellFormed(r, size)
      && StartsWhere(r, true) == StartsWhere(bufs, true)
      && StartsWhere(r, false) == StartsWhere(bufs, false)
      && Charged(r) == Charged(bufs)
      && forall i :: Needed(r, size, i) <==> Needed(bufs, size, i)
  {
    FlagsKeepList(bufs, size, k, b);
    FlagsKeepCharge(bufs, k, b);
    FlagsKeepNeeds(bufs, size, k, b);
  }

  /** The allocator's invariant, stated on its parts, survives such a change. */
  lemma FlagsKeepInvariant(bufs: seq<Buffer>, size: nat, k: nat, b: Buffer, frees: set<nat>, allocs: set<nat>, budget: nat, ps: seq<Page>, high: nat)
    requires WellFormed(bufs, size) && k < |bufs| && SameShape(bufs[k], b)
    requires frees == StartsWhere(bufs, true) && allocs == StartsWhere(bufs, false)
    requires budget + Charged(bufs) == size / 2
    requires PagesAgree(ps, bufs, size, high)
    ensures var r := bufs[k := b];
      && WellFormed(r, size)
      && frees == StartsWhere(r, true) && allocs == StartsWhere(r, false)
      && budget + Charged(r) == size / 2
      && PagesAgree(ps, r, size, high)
  {
    FlagsOnly(bufs, size, k, b);
  }

  lemma FlagsKeepList(bufs: seq<Buffer>, size: nat, k: nat, b: Buffer)
    requires WellFormed(bufs, size) && k < |bufs| && SameShape(bufs[k], b)
    ensures var r := bufs[k := b];
      && WellFormed(r, size)
      && StartsWhere(r, true) == StartsWhere(bufs, true)
      && StartsWhere(r, false) == StartsWhere(bufs, false)
  {
    FlagsKeepTiles(bufs, size, k, b);
    FlagsKeepSizes(bufs, size, k, b);
    FlagsKeepStarts(bufs, k, b, true);
    FlagsKeepStarts(bufs, k, b, false);
  }

  lemma FlagsKeepStarts(bufs: seq<Buffer>, k: nat, b: Buffer, free: bool)
    requires k < |bufs| && SameShape(bufs[k], b)
    ensures StartsWhere(bufs[k := b], free) == StartsWhere(bufs, free)
  {
    var r := bufs[k := b];
    assert forall j :: 0 <= j < |r| ==> r[j].start == bufs[j].start && r[j].free == bufs[j].free;
  }

  lemma FlagsKeepTiles(bufs: seq<Buffer>, size: nat, k: nat, b: Buffer)
    requires Tiles(bufs, size) && NoAdjacentFree(bufs) && k < |bufs| && SameShape(bufs[k], b)
    ensures Tiles(bufs[k := b], size) && NoAdjacentFree(bufs[k := b])
  {
    var r := bufs[k := b];
    assert forall j :: 0 <= j < |r| ==> r[j].start == bufs[j].start && r[j].free == bufs[j].free;
  }

  lemma FlagsKeepSizes(bufs: seq<Buffer>, size: nat, k: nat, b: Buffer)
    requires Tiles(bufs, size) && AllocatedSizesMatch(bufs, size) && k < |bufs| && SameShape(bufs[k], b)
    requires Tiles(bufs[k := b], size)
    ensures AllocatedSizesMatch(bufs[k := b], size)
  {
    var r := bufs[k := b];
    forall j | 0 <= j < |r| && !r[j].free
      ensures BufferSize(r, size, j) == Padded(UsedSize(r[j].dataSize, r[j].offsetsSize, r[j].extraSize))
    {
      assert End(r, size, j) == End(bufs, size, j);
    }
  }

  lemma FlagsKeepCharge(bufs: seq<Buffer>, k: nat, b: Buffer)
    requires k < |bufs| && SameShape(bufs[k], b)
    ensures Charged(bufs[k := b]) == Charged(bufs)
  {
    assert bufs[k := b] == bufs[..k] + [b] + bufs[k + 1..];
    SpliceCharged(bufs, k, k + 1, k, [b]);
  }

  lemma FlagsKeepNeeds(bufs: seq<Buffer>, size: nat, k: nat, b: Buffer)
    requires k < |bufs| && SameShape(bufs[k], b)
    ensures forall i :: Needed(bufs[k := b], size, i) <==> Needed(bufs, size, i)
  {
    var r := bufs[k := b];
    forall i ensures Needed(r, size, i) <==> Needed(bufs, size, i) {
      assert forall j :: 0 <= j < |bufs| ==> (Touches(r, size, j, i) <==> Touches(bufs, size, j, i));
    }
  }

  /** A freshly mapped region: one free record and no page. */
  lemma FreshRegion(size: nat, ps: seq<Page>)
    requires size > 0 && size % PAGE_SIZE == 0 && IsSize(size)
    requires |ps| == size / PAGE_SIZE && forall i :: 0 <= i < |ps| ==> ps[i] == Uncommitted
    ensures var bufs := [FreeRecord(0)];
      && WellFormed(bufs, size)
      && StartsWhere(bufs, true) == {0} && StartsWhere(bufs, false) == {}
      && Charged(bufs) == 0
      && PagesAgree(ps, bufs, size, 0)
  {
    var bufs := [FreeRecord(0)];
    assert bufs[0].start == 0 && bufs[0].free;
    assert StartsWhere(bufs, true) == {0};
    assert StartsWhere(bufs, false) == {};
    assert forall i :: !Needed(bufs, size, i);
  }

  /** Freeing record `k` (the list edit, both index updates and the async
      credit) keeps the list invariant. */
  lemma FreeKeepsInvariant(bufs: seq<Buffer>, size: nat, k: nat, frees: set<nat>, allocs: set<nat>, budget: nat,
                           bufs2: seq<Buffer>, frees2: set<nat>, allocs2: set<nat>, budget2: nat)
    requires WellFormed(bufs, size)
    requires frees == StartsWhere(bufs, true) && allocs == StartsWhere(bufs, false)
    requires budget + Charged(bufs) == size / 2
    requires k < |bufs| && !bufs[k].free
    requires bufs2 == FreedList(bufs, k)
    requires frees2 == (frees - (if MergesNext(bufs, k) then {bufs[k + 1].start} else {})) + {Survivor(bufs, k)}
    requires allocs2 == allocs - {bufs[k].start}
    requires budget2 == budget + Charge(bufs[k])
    ensures WellFormed(bufs2, size)
    ensures frees2 == StartsWhere(bufs2, true) && allocs2 == StartsWhere(bufs2, false)
    ensures budget2 + Charged(bufs2) == size / 2
  {
    FreedListWellFormed(bufs, size, k);
    FreedListCharged(bufs, k);
  }

  /** A free record's start is not in the allocated index. */
  lemma FreeStartNotAllocated(bufs: seq<Buffer>, k: nat)
    requires Sorted(bufs) && k < |bufs| && bufs[k].free
    ensures bufs[k].start !in StartsWhere(bufs, false)
  {
    if bufs[k].start in StartsWhere(bufs, false) {
      StartsWhereMeans(bufs, bufs[k].start, false);
      StartsUnique(bufs, k, IndexOf(bufs, bufs[k].start));
    }
  }

  /** The record part of an allocation, on values: splitting off `p` bytes for
      allocated stamp `b`, the index updates and the charge keep the list
      invariant. */
  lemma SplitKeepsInvariant(bufs: seq<Buffer>, size: nat, k: nat, p: nat, b: Buffer,
                            frees: set<nat>, allocs: set<nat>, budget: nat,
                            bufs2: seq<Buffer>, frees2: set<nat>, allocs2: set<nat>, budget2: nat)
    requires WellFormed(bufs, size)
    requires frees == StartsWhere(bufs, true) && allocs == StartsWhere(bufs, false)
    requires budget + Charged(bufs) == size / 2
    requires k < |bufs| && bufs[k].free && 0 < p <= BufferSize(bufs, size, k)
    requires b.start == bufs[k].start && !b.free && p == Padded(UsedSize(b.dataSize, b.offsetsSize, b.extraSize))
    requires b.isAsync ==> p + BUFFER_OVERHEAD <= budget
    requires var s := bufs[k].start;
      && bufs2 == SplitAndStamp(bufs, size, k, p, b)
      && frees2 == (if BufferSize(bufs, size, k) != p then frees + {s + p} else frees) - {s}
      && allocs2 == allocs + {s}
      && budget2 == if b.isAsync then budget - (p + BUFFER_OVERHEAD) else budget
    ensures WellFormed(bufs2, size)
    ensures frees2 == StartsWhere(bufs2, true) && allocs2 == StartsWhere(bufs2, false)
    ensures budget2 + Charged(bufs2) == size / 2
  {
    var s := bufs[k].start;
    SplitWellFormed(bufs, size, k, p, b);
    SplitCharged(bufs, size, k, p, b);
    if BufferSize(bufs, size, k) != p {
      SetSwap(frees, s, s + p);
    }
  }

  /** Removing one element and adding another commute when they differ. */
  lemma SetSwap(a: set<nat>, x: nat, y: nat)
    requires x != y
    ensures (a + {y}) - {x} == a - {x} + {y}
  {
  }

  /** The list after `buffer->clear_on_free = false` on record `k`. */
  function Unmarked(bufs: seq<Buffer>, k: nat): (r: seq<Buffer>)
    requires k < |bufs|
    ensures |r| == |bufs| && !r[k].clearOnFree
    ensures forall j :: 0 <= j < |r| && j != k ==> r[j] == bufs[j]
    ensures SameShape(bufs[k], r[k]) && r[k].hasTransaction == bufs[k].hasTransaction
  {
    bufs[k := bufs[k].(clearOnFree := false)]
  }

  /** The pages after binder_alloc_free_buf's clearing step for record `k`:
      the record's bytes zeroed if it is marked clear-on-free. */
  ghost function Cleared(ps: seq<Page>, bufs: seq<Buffer>, size: nat, k: nat): seq<Page>
    requires Tiles(bufs, size) && k < |bufs|
  {
    if bufs[k].clearOnFree then Written(ps, bufs[k].start, Zeros(BufferSize(bufs, size, k))) else ps
  }

  /** A record cleared before it is freed reads as zeros afterwards: the free
      moves its pages to the LRU list but keeps their bytes. */
  lemma ClearedReadsZero(ps: seq<Page>, after: seq<Page>, bufs: seq<Buffer>, size: nat, high: nat, k: nat)
    requires WellFormed(bufs, size) && k < |bufs| && !bufs[k].free
    requires PagesAgree(ps, bufs, size, high)
    requires bufs[k].clearOnFree
    requires FreedPages(Cleared(ps, bufs, size, k), after, Unmarked(bufs, k), size, k)
    ensures Holds(after, bufs[k].start, Zeros(BufferSize(bufs, size, k)))
  {
    var s, d := bufs[k].start, Zeros(BufferSize(bufs, size, k));
    var w, flagged := Written(ps, s, d), Unmarked(bufs, k);
    RecordActive(ps, bufs, size, k, high);
    WrittenMeans(ps, s, d);
    WrittenAgree(ps, bufs, size, high, s, d);
    FlagsOnly(bufs, size, k, flagged[k]);
    FreedKeepsData(w, after, flagged, size, k, high);
    HoldsKept(w, after, s, d);
  }

  /** Every allocated record has had its transaction released. */
  ghost predicate TransactionsReleased(bufs: seq<Buffer>) {
    forall b :: b in bufs && !b.free ==> !b.hasTransaction
  }

  /** binder_alloc_free_buf keeps every allocated record's transaction released. */
  lemma FreeKeepsReleased(bufs: seq<Buffer>, k: nat)
    requires k < |bufs| && TransactionsReleased(bufs)
    ensures TransactionsReleased(FreedList(Unmarked(bufs, k), k))
  {
    var u := Unmarked(bufs, k);
    FreedKeepsAllocated(u, k);
    forall b | b in FreedList(u, k) && !b.free ensures !b.hasTransaction {
      var j :| 0 <= j < |u| && u[j] == b;
      assert bufs[j] in bufs;
    }
  }

  /** The first allocated record of a list with an allocated record at `last`. */
  method FirstAllocatedIn(bufs: seq<Buffer>, ghost last: nat) returns (j: nat)
    requires last < |bufs| && !bufs[last].free
    ensures j <= last && !bufs[j].free
    ensures forall i :: 0 <= i < j ==> bufs[i].free
  {
    j := 0;
    while bufs[j].free
      invariant j <= last
      invariant forall i :: 0 <= i < j ==> bufs[i].free
      decreases last - j
    {
      j := j + 1;
    }
  }

  /** A page on the LRU list is needed by no allocated record, and reclaiming
      it keeps the page array in agreement with the list. */
  lemma ReclaimSparesNeeded(ps: seq<Page>, bufs: seq<Buffer>, size: nat, high: nat, i: nat)
    requires PagesAgree(ps, bufs, size, high)
    requires i < |ps| && ps[i].Committed? && ps[i].onLru
    ensures !Needed(bufs, size, i)
    ensures PagesAgree(ps[i := Uncommitted], bufs, size, high)
  {
    assert !Active(ps[i]);
  }

  class BinderAlloc {
    /** alloc->buffer != NULL: a region has been mapped. */
    var bound: bool
    /** alloc->vma != NULL: the mapping is still open. */
    var vma: bool
    var bufferSize: nat
    /** alloc->buffers: every record, in address order. */
    var bufs: seq<Buffer>
    /** alloc->free_buffers and alloc->allocated_buffers, as sets of starts. */
    var freeIndex: set<nat>
    var allocatedIndex: set<nat>
    var freeAsyncSpace: nat
    /** alloc->pages: one entry per page of the region. */
    var pages: array<Page>
    var pagesHigh: nat

    /** The invariant of a mapped region: the list is well formed, the indices
        hold exactly the free and the allocated starts, the async budget plus
        what async buffers hold is half the region, and the page array agrees
        with the list. */
    ghost predicate Valid()
      reads this, pages
    {
      if bound then
        && ListValid()
        && PagesAgree(pages[..], bufs, bufferSize, pagesHigh)
      else
        && bufs == [] && freeIndex == {} && allocatedIndex == {}
        && !vma && pages.Length == 0 && pagesHigh == 0
    }

    ghost predicate ListValid()
      reads this
    {
      && WellFormed(bufs, bufferSize)
      && freeIndex == StartsWhere(bufs, true)
      && allocatedIndex == StartsWhere(bufs, false)
      && freeAsyncSpace + Charged(bufs) == bufferSize / 2
    }

    /** binder_alloc_init: no region yet. */
    constructor ()
      ensures Valid() && !bound && !vma && bufs == []
    {
      bound := false;
      vma := false;
      bufferSize := 0;
      bufs := [];
      freeIndex := {};
      allocatedIndex := {};
      freeAsyncSpace := 0;
      pages := new Page[0];
      pagesHigh := 0;
    }

    /** binder_alloc_mmap_handler: map a region of `size` bytes.  The two flags
        say whether the page array and the first record can be allocated. */
    method Bind(size: nat, pagesAllocFails: bool, recordAllocFails: bool) returns (r: Outcome)
      requires Valid()
      requires size > 0 && size % PAGE_SIZE == 0 && IsSize(size)
      modifies this
      ensures Valid()
      ensures old(bound) ==> r == Fail(EBUSY) && unchanged(this)
      ensures !old(bound) && pagesAllocFails ==> r == Fail(ENOMEM) && unchanged(this)
      ensures !old(bound) && !pagesAllocFails && recordAllocFails ==>
        r == Fail(ENOMEM) && !bound && bufferSize == size && pages.Length == 0
      ensures !old(bound) && !pagesAllocFails && !recordAllocFails ==>
        && r == Done && bound && vma && bufferSize == size
        && bufs == [FreeRecord(0)] && freeIndex == {0} && allocatedIndex == {}
        && freeAsyncSpace == size / 2
        && fresh(pages) && pages.Length == size / PAGE_SIZE && pagesHigh == 0
        && forall i :: 0 <= i < pages.Length ==> pages[i] == Uncommitted
    {
      if bound {
        return Fail(EBUSY);
      }
      if pagesAllocFails {
        return Fail(ENOMEM);
      }
      var table := new Page[size / PAGE_SIZE](_ => Uncommitted);
      bufferSize := size;
      if recordAllocFails {
        return Fail(ENOMEM);
      }
      pages := table;
      bufs := [FreeRecord(0)];
      freeIndex := {0};
      freeAsyncSpace := size / 2;
      vma := true;
      bound := true;
      FreshRegion(size, pages[..]);
      r := Done;
    }

    /** binder_alloc_vma_close: the mapping goes away; no new buffers. */
    method VmaClose()
      requires Valid()
      modifies this`vma
      ensures Valid() && !vma
    {
      vma := false;
    }

    /** binder_insert_free_buffer: index free record `j`. */
    method InsertFree(j: nat)
      requires j < |bufs| && bufs[j].free
      modifies this`freeIndex
      ensures freeIndex == old(freeIndex) + {bufs[j].start}
    {
      freeIndex := freeIndex + {bufs[j].start};
    }

    /** binder_insert_allocated_buffer_locked: index allocated record `j`, whose
        start must not be indexed already. */
    method InsertAllocated(j: nat)
      requires j < |bufs| && !bufs[j].free && bufs[j].start !in allocatedIndex
      modifies this`allocatedIndex
      ensures allocatedIndex == old(allocatedIndex) + {bufs[j].start}
    {
      allocatedIndex := allocatedIndex + {bufs[j].start};
    }

    /** binder_alloc_prepare_to_free_locked. */
    method PrepareToFree(ptr: nat) returns (r: Lookup)
      requires Valid()
      modifies this`bufs
      ensures Valid()
      ensures r == LookupForFree(old(bufs), ptr) && bufs == AfterLookup(old(bufs), ptr)
    {
      r := LookupForFree(bufs, ptr);
      if r.Found? {
        var k := IndexOf(bufs, ptr);
        FlagsKeepInvariant(bufs, bufferSize, k, bufs[k].(allowUserFree := false), freeIndex, allocatedIndex, freeAsyncSpace, pages[..], pagesHigh);
        bufs := bufs[k := bufs[k].(allowUserFree := false)];
      }
    }

    /** The transaction layer's writes to a record it owns (buffer->
        allow_user_free, ->transaction and ->clear_on_free are set by the binder
        driver, not by the allocator). */
    method SetTransactionState(start: nat, allowUserFree: bool, hasTransaction: bool, clearOnFree: bool)
      requires Valid() && start in allocatedIndex
      modifies this`bufs
      ensures Valid()
      ensures var k := IndexOf(old(bufs), start);
        bufs == old(bufs)[k := old(bufs)[k].(allowUserFree := allowUserFree,
          hasTransaction := hasTransaction, clearOnFree := clearOnFree)]
    {
      StartsWhereMeans(bufs, start, false);
      var k := IndexOf(bufs, start);
      var b := bufs[k].(allowUserFree := allowUserFree, hasTransaction := hasTransaction, clearOnFree := clearOnFree);
      FlagsKeepInvariant(bufs, bufferSize, k, b, freeIndex, allocatedIndex, freeAsyncSpace, pages[..], pagesHigh);
      bufs := bufs[k := b];
    }

    /** binder_update_page_range on the page-aligned offsets `start..end`.
        Allocating commits the pages of the range (taking present ones off the
        LRU list, allocating and mapping missing ones, which needs the mm and the
        mapping); if page `f` cannot be allocated or mapped, the pages before it
        go back on the LRU list.  Freeing puts every page of the range on the LRU
        list.  `failing` names the pages whose allocation or mapping fails. */
    method UpdatePageRange(allocate: bool, start: nat, end: nat, mmAlive: bool, failing: set<nat>) returns (r: Outcome)
      requires start % PAGE_SIZE == 0 && end % PAGE_SIZE == 0
      requires end <= pages.Length * PAGE_SIZE && pagesHigh <= pages.Length
      requires allocate ==> forall i :: start / PAGE_SIZE <= i < end / PAGE_SIZE ==> !Active(pages[i])
      requires !allocate ==> forall i :: start / PAGE_SIZE <= i < end / PAGE_SIZE ==> Active(pages[i])
      modifies this`pagesHigh, pages
      ensures var lo, hi, before := start / PAGE_SIZE, end / PAGE_SIZE, old(pages[..]);
        && (end <= start ==> r == Done && pages[..] == before && pagesHigh == old(pagesHigh))
        && (start < end && !allocate ==>
              r == Fail(ESRCH) && ReleasedRange(before, pages[..], lo, hi) && pagesHigh == old(pagesHigh))
        && (start < end && allocate && NeedsMm(before, lo, hi) && !(mmAlive && vma) ==>
              r == Fail(ESRCH) && pages[..] == before && pagesHigh == old(pagesHigh))
        && (start < end && allocate && !(NeedsMm(before, lo, hi) && !(mmAlive && vma)) ==>
              match FirstFailing(before, lo, hi, failing)
              case Some(f) =>
                && r == Fail(ENOMEM) && CommittedRange(before, pages[..], lo, f, true)
                && pagesHigh == HighMark(before, lo, f, old(pagesHigh))
              case None =>
                && r == Done && CommittedRange(before, pages[..], lo, hi, false)
                && pagesHigh == HighMark(before, lo, hi, old(pagesHigh)))
    {
      var lo, hi := start / PAGE_SIZE, end / PAGE_SIZE;
      if end <= start {
        return Done;
      }
      if !allocate {
        ReleasePages(lo, hi);
        return Fail(ESRCH);
      }
      var needMm := FindMissing(lo, hi);
      if needMm && !(mmAlive && vma) {
        return Fail(ESRCH);
      }
      r := CommitPages(lo, hi, failing);
    }

    /** The scan for a missing page (need_mm). */
    method FindMissing(lo: nat, hi: nat) returns (needMm: bool)
      requires lo <= hi <= pages.Length
      ensures needMm == NeedsMm(pages[..], lo, hi)
    {
      var idx := lo;
      needMm := false;
      while idx < hi && !needMm
        invariant lo <= idx <= hi
        invariant needMm ==> NeedsMm(pages[..], lo, hi)
        invariant !needMm ==> forall j :: lo <= j < idx ==> pages[j].Committed?
        decreases hi - idx, !needMm
      {
        if pages[idx].Uncommitted? {
          needMm := true;
        } else {
          idx := idx + 1;
        }
      }
    }

    /** The free_range loop: put pages `lo..hi-1` on the LRU list, last first. */
    method ReleasePages(lo: nat, hi: nat)
      requires hi <= pages.Length
      modifies pages
      ensures ReleasedRange(old(pages[..]), pages[..], lo, hi)
    {
      ghost var before := pages[..];
      var m := hi;
      while m > lo
        invariant m <= hi
        invariant ReleasedRange(before, pages[..], if m < lo then lo else m, hi)
      {
        m := m - 1;
        pages[m] := OnLru(pages[m]);
      }
    }

    /** The commit loop: take present pages off the LRU list, allocate and map
        missing ones; on the first failure put the pages already done back on
        the LRU list. */
    method CommitPages(lo: nat, hi: nat, failing: set<nat>) returns (r: Outcome)
      requires lo <= hi <= pages.Length && pagesHigh <= pages.Length
      modifies this`pagesHigh, pages
      ensures var before := old(pages[..]);
        match FirstFailing(before, lo, hi, failing)
        case Some(f) =>
          && r == Fail(ENOMEM) && CommittedRange(before, pages[..], lo, f, true)
          && pagesHigh == HighMark(before, lo, f, old(pagesHigh))
        case None =>
          && r == Done && CommittedRange(before, pages[..], lo, hi, false)
          && pagesHigh == HighMark(before, lo, hi, old(pagesHigh))
    {
      ghost var before := pages[..];
      ghost var high0 := pagesHigh;
      var idx := lo;
      while idx < hi
        invariant lo <= idx <= hi
        invariant CommittedRange(before, pages[..], lo, idx, false)
        invariant pagesHigh == HighMark(before, lo, idx, high0)
        invariant FirstFailing(before, lo, idx, failing) == None
      {
        assert pages[idx] == before[idx];
        assert HighMark(before, lo, idx + 1, high0) ==
          if before[idx].Uncommitted? && idx + 1 > pagesHigh then idx + 1 else pagesHigh;
        if pages[idx].Committed? {
          pages[idx] := Committed(false, pages[idx].data);
        } else {
          if idx in failing {
            ghost var mid := pages[..];
            ReleasePages(lo, idx);
            CommitThenRelease(before, mid, pages[..], lo, idx);
            return Fail(ENOMEM);
          }
          pages[idx] := Committed(false, ZERO_PAGE);
          if idx + 1 > pagesHigh {
            pagesHigh := idx + 1;
          }
        }
        idx := idx + 1;
      }
      return Done;
    }

    /** binder_alloc_new_buf_locked: allocate a buffer for `d` bytes of data,
        `o` bytes of offsets and `e` extra bytes.  `mmAlive` says whether the
        process's mm can still be referenced, `failing` which pages cannot be
        allocated or mapped, and `recordAllocFails` whether the record for the
        remainder cannot be allocated.  Returns the new buffer's start. */
    method NewBuf(d: nat, o: nat, e: nat, isAsync: bool, mmAlive: bool, failing: set<nat>, recordAllocFails: bool)
      returns (r: Result<nat>)
      requires Valid()
      requires IsSize(d) && IsSize(o) && IsSize(e)
      modifies this`bufs, this`freeIndex, this`allocatedIndex, this`freeAsyncSpace, this`pagesHigh, pages
      ensures Valid()
      ensures var used := UsedSize(d, o, e);
        && (!old(vma) ==> r == Err(ESRCH))
        && (old(vma) && used >= SIZE_LIMIT ==> r == Err(EINVAL))
        && (old(vma) && used < SIZE_LIMIT && isAsync && !AsyncAdmits(old(freeAsyncSpace), used) ==>
              r == Err(ENOSPC))
        && (old(vma) && used < SIZE_LIMIT && (isAsync ==> AsyncAdmits(old(freeAsyncSpace), used)) ==>
              (r == Err(ENOSPC) <==> !FitExists(old(bufs), bufferSize, Padded(used))))
        && ((old(vma) && used < SIZE_LIMIT && (isAsync ==> AsyncAdmits(old(freeAsyncSpace), used))
              && FitExists(old(bufs), bufferSize, Padded(used))
              && mmAlive && failing == {} && !recordAllocFails) ==> r.Ok?)
      ensures r.Err? ==>
        && bufs == old(bufs) && freeIndex == old(freeIndex) && allocatedIndex == old(allocatedIndex)
        && freeAsyncSpace == old(freeAsyncSpace)
      ensures r.Err? && r.error != ENOMEM ==> pages[..] == old(pages[..]) && pagesHigh == old(pagesHigh)
      ensures r.Err? && r.error == ENOMEM ==> exists k ::
        && BestFit(old(bufs), bufferSize, k, Padded(UsedSize(d, o, e)))
        && WindowRolledBack(old(pages[..]), pages[..], old(bufs), bufferSize, k, Padded(UsedSize(d, o, e)))
      ensures r.Ok? ==>
        var used := UsedSize(d, o, e);
        && old(vma) && used < SIZE_LIMIT
        && r.value in Starts(old(bufs))
        && BestFit(old(bufs), bufferSize, IndexOf(old(bufs), r.value), Padded(used))
        && bufs == AllocatedList(old(bufs), bufferSize, IndexOf(old(bufs), r.value), d, o, e, isAsync)
        && freeAsyncSpace == (if isAsync then AsyncDebit(old(freeAsyncSpace), used) else old(freeAsyncSpace))
      ensures r.Ok? ==>
        WindowCommitted(old(pages[..]), pages[..], old(pagesHigh), pagesHigh, old(bufs), bufferSize,
          IndexOf(old(bufs), r.value), Padded(UsedSize(d, o, e)))
    {
      if !vma {
        return Err(ESRCH);
      }
      var total := AllocationSize(d, o, e);
      AllocationSizeExact(d, o, e);
      if total.Err? {
        return Err(EINVAL);
      }
      var size := total.value;
      if isAsync && !AsyncAdmits(freeAsyncSpace, size) {
        return Err(ENOSPC);
      }
      r := AllocateBestFit(d, o, e, isAsync, mmAlive, failing, recordAllocFails);
    }

    /** The part of binder_alloc_new_buf_locked after the size is computed and
        admitted: the best-fit search, then the allocation in the record found. */
    method AllocateBestFit(d: nat, o: nat, e: nat, isAsync: bool, mmAlive: bool, failing: set<nat>, recordAllocFails: bool)
      returns (r: Result<nat>)
      requires Valid() && bound && vma
      requires UsedSize(d, o, e) < SIZE_LIMIT
      requires isAsync ==> AsyncAdmits(freeAsyncSpace, UsedSize(d, o, e))
      modifies this`bufs, this`freeIndex, this`allocatedIndex, this`freeAsyncSpace, this`pagesHigh, pages
      ensures Valid()
      ensures var p := Padded(UsedSize(d, o, e));
        && (r == Err(ENOSPC) <==> !FitExists(old(bufs), bufferSize, p))
        && (FitExists(old(bufs), bufferSize, p) && mmAlive && failing == {} && !recordAllocFails ==> r.Ok?)
      ensures r.Err? ==>
        && bufs == old(bufs) && freeIndex == old(freeIndex) && allocatedIndex == old(allocatedIndex)
        && freeAsyncSpace == old(freeAsyncSpace)
      ensures r.Err? && r.error != ENOMEM ==> pages[..] == old(pages[..]) && pagesHigh == old(pagesHigh)
      ensures r.Err? && r.error == ENOMEM ==> exists k ::
        && BestFit(old(bufs), bufferSize, k, Padded(UsedSize(d, o, e)))
        && WindowRolledBack(old(pages[..]), pages[..], old(bufs), bufferSize, k, Padded(UsedSize(d, o, e)))
      ensures r.Ok? ==>
        && r.value in Starts(old(bufs))
        && BestFit(old(bufs), bufferSize, IndexOf(old(bufs), r.value), Padded(UsedSize(d, o, e)))
        && bufs == AllocatedList(old(bufs), bufferSize, IndexOf(old(bufs), r.value), d, o, e, isAsync)
        && freeAsyncSpace == (if isAsync then AsyncDebit(old(freeAsyncSpace), UsedSize(d, o, e)) else old(freeAsyncSpace))
        && WindowCommitted(old(pages[..]), pages[..], old(pagesHigh), pagesHigh, old(bufs), bufferSize,
             IndexOf(old(bufs), r.value), Padded(UsedSize(d, o, e)))
    {
      var best := FindBestFit(bufs, bufferSize, Padded(UsedSize(d, o, e)));
      if best.None? {
        return Err(ENOSPC);
      }
      ghost var bufs0 := bufs;
      IndexOfStart(bufs, best.value);
      r := AllocateIn(best.value, d, o, e, isAsync, mmAlive, failing, recordAllocFails);
      if r.Err? && r.error == ENOMEM {
        assert BestFit(bufs0, bufferSize, best.value, Padded(UsedSize(d, o, e)));
      }
    }

    /** The part of binder_alloc_new_buf_locked after the best fit `k` is found:
        commit the pages the buffer needs, split off the remainder, and move the
        record from the free index to the allocated one. */
    method AllocateIn(k: nat, d: nat, o: nat, e: nat, isAsync: bool, mmAlive: bool, failing: set<nat>, recordAllocFails: bool)
      returns (r: Result<nat>)
      requires Valid() && bound && vma
      requires UsedSize(d, o, e) < SIZE_LIMIT
      requires isAsync ==> AsyncAdmits(freeAsyncSpace, UsedSize(d, o, e))
      requires BestFit(bufs, bufferSize, k, Padded(UsedSize(d, o, e)))
      modifies this`bufs, this`freeIndex, this`allocatedIndex, this`freeAsyncSpace, this`pagesHigh, pages
      ensures Valid()
      ensures mmAlive && failing == {} && !recordAllocFails ==> r.Ok?
      ensures r.Err? ==>
        && r.error != ENOSPC
        && bufs == old(bufs) && freeIndex == old(freeIndex) && allocatedIndex == old(allocatedIndex)
        && freeAsyncSpace == old(freeAsyncSpace)
      ensures r.Err? && r.error != ENOMEM ==> pages[..] == old(pages[..]) && pagesHigh == old(pagesHigh)
      ensures r.Err? ==> WindowRolledBack(old(pages[..]), pages[..], old(bufs), bufferSize, k, Padded(UsedSize(d, o, e)))
      ensures r.Ok? ==>
        WindowCommitted(old(pages[..]), pages[..], old(pagesHigh), pagesHigh, old(bufs), bufferSize, k, Padded(UsedSize(d, o, e)))
      ensures r.Ok? ==>
        && r == Ok(old(bufs)[k].start)
        && bufs == AllocatedList(old(bufs), bufferSize, k, d, o, e, isAsync)
        && freeAsyncSpace == (if isAsync then AsyncDebit(old(freeAsyncSpace), UsedSize(d, o, e)) else old(freeAsyncSpace))
    {
      var p := Padded(UsedSize(d, o, e));
      var n := BufferSize(bufs, bufferSize, k);
      ghost var pages0, high0 := pages[..], pagesHigh;
      var ret := CommitWindow(k, p, mmAlive, failing);
      if ret.Fail? {
        return Err(ret.error);
      }
      if n != p && recordAllocFails {
        ReleaseWindow(k, p, pages0, high0);
        return Err(ENOMEM);
      }
      var s := bufs[k].start;
      CarveCommitted(k, d, o, e, isAsync, pages0, high0);
      return Ok(s);
    }

    /** Carve record `k` once its window of pages is committed. */
    method CarveCommitted(k: nat, d: nat, o: nat, e: nat, isAsync: bool, ghost pages0: seq<Page>, ghost high0: nat)
      requires bound && ListValid()
      requires k < |bufs| && bufs[k].free && Padded(UsedSize(d, o, e)) <= BufferSize(bufs, bufferSize, k)
      requires isAsync ==> AsyncAdmits(freeAsyncSpace, UsedSize(d, o, e))
      requires PagesAgree(pages0, bufs, bufferSize, high0)
      requires WindowCommitted(pages0, pages[..], high0, pagesHigh, bufs, bufferSize, k, Padded(UsedSize(d, o, e)))
      modifies this`bufs, this`freeIndex, this`allocatedIndex, this`freeAsyncSpace
      ensures Valid()
      ensures bufs == AllocatedList(old(bufs), bufferSize, k, d, o, e, isAsync)
      ensures freeAsyncSpace == if isAsync then AsyncDebit(old(freeAsyncSpace), UsedSize(d, o, e)) else old(freeAsyncSpace)
    {
      ghost var after := SplitAndStamp(bufs, bufferSize, k, Padded(UsedSize(d, o, e)), Stamped(bufs[k], d, o, e, isAsync));
      AgreeAfterCommit(pages0, pages[..], bufs, bufferSize, k, Padded(UsedSize(d, o, e)),
        Stamped(bufs[k], d, o, e, isAsync), high0, pagesHigh);
      assert PagesAgree(pages[..], after, bufferSize, pagesHigh);
      assert after == AllocatedList(bufs, bufferSize, k, d, o, e, isAsync);
      Carve(k, d, o, e, isAsync);
      assert bufs == after;
    }

    /** The error path of binder_alloc_new_buf_locked when the remainder's record
        cannot be allocated: the committed window goes back on the LRU list. */
    method ReleaseWindow(k: nat, p: nat, ghost pages0: seq<Page>, ghost high0: nat)
      requires bound && ListValid()
      requires k < |bufs| && bufs[k].free && 0 < p <= BufferSize(bufs, bufferSize, k)
      requires PagesAgree(pages0, bufs, bufferSize, high0)
      requires WindowCommitted(pages0, pages[..], high0, pagesHigh, bufs, bufferSize, k, p)
      modifies pages
      ensures Valid()
      ensures ReleasedRange(old(pages[..]), pages[..], PageAlign(bufs[k].start) / PAGE_SIZE, WindowEnd(bufs, bufferSize, k, p) / PAGE_SIZE)
      ensures WindowRolledBack(pages0, pages[..], bufs, bufferSize, k, p)
    {
      var startPage := PageAlign(bufs[k].start);
      var endPage := WindowEnd(bufs, bufferSize, k, p);
      WindowRange(bufs, bufferSize, k, p);
      ReleasePages(startPage / PAGE_SIZE, endPage / PAGE_SIZE);
      AgreeAfterWindowRelease(pages0, pages[..], bufs, bufferSize, k, p, high0, pagesHigh);
    }

    /** The page part of binder_alloc_new_buf_locked: commit the pages of record
        `k` that the new buffer is the first to need. */
    method CommitWindow(k: nat, p: nat, mmAlive: bool, failing: set<nat>) returns (ret: Outcome)
      requires Valid() && bound && vma
      requires k < |bufs| && bufs[k].free && 0 < p <= BufferSize(bufs, bufferSize, k)
      modifies this`pagesHigh, pages
      ensures ret.Fail? ==> Valid() && ret.error != ENOSPC
      ensures ret.Fail? && ret.error != ENOMEM ==> pages[..] == old(pages[..]) && pagesHigh == old(pagesHigh)
      ensures ret.Fail? ==> WindowRolledBack(old(pages[..]), pages[..], bufs, bufferSize, k, p)
      ensures ret.Done? ==>
        WindowCommitted(old(pages[..]), pages[..], old(pagesHigh), pagesHigh, bufs, bufferSize, k, p)
      ensures mmAlive && failing == {} ==> ret.Done?
    {
      ghost var pages0, high0 := pages[..], pagesHigh;
      var startPage := PageAlign(bufs[k].start);
      var endPage := WindowEnd(bufs, bufferSize, k, p);
      var lo, hi := startPage / PAGE_SIZE, endPage / PAGE_SIZE;
      WindowRange(bufs, bufferSize, k, p);
      WindowIdle(pages0, bufs, bufferSize, high0, k, p);
      ret := UpdatePageRange(true, startPage, endPage, mmAlive, failing);
      if ret.Fail? {
        AgreeAfterFailedCommit(pages0, pages[..], bufs, bufferSize, lo, hi, high0, pagesHigh, mmAlive && vma, failing);
        if ret.error == ENOMEM {
          RollbackInWindow(pages0, pages[..], bufs, bufferSize, k, p, lo, FirstFailing(pages0, lo, hi, failing).value);
        }
        return;
      }
      WindowFromRange(pages0, pages[..], bufs, bufferSize, k, p, lo, hi, high0);
    }

    /** The record part of binder_alloc_new_buf_locked: split the remainder off
        record `k` as a new free record, move `k` from the free index to the
        allocated one, stamp the request on it, and charge the async budget. */
    method Carve(k: nat, d: nat, o: nat, e: nat, isAsync: bool)
      requires WellFormed(bufs, bufferSize)
      requires freeIndex == StartsWhere(bufs, true) && allocatedIndex == StartsWhere(bufs, false)
      requires freeAsyncSpace + Charged(bufs) == bufferSize / 2
      requires k < |bufs| && bufs[k].free && Padded(UsedSize(d, o, e)) <= BufferSize(bufs, bufferSize, k)
      requires isAsync ==> AsyncAdmits(freeAsyncSpace, UsedSize(d, o, e))
      modifies this`bufs, this`freeIndex, this`allocatedIndex, this`freeAsyncSpace
      ensures bufs == AllocatedList(old(bufs), bufferSize, k, d, o, e, isAsync)
      ensures WellFormed(bufs, bufferSize)
      ensures freeIndex == StartsWhere(bufs, true) && allocatedIndex == StartsWhere(bufs, false)
      ensures freeAsyncSpace + Charged(bufs) == bufferSize / 2
      ensures freeAsyncSpace == if isAsync then AsyncDebit(old(freeAsyncSpace), UsedSize(d, o, e)) else old(freeAsyncSpace)
    {
      var size := UsedSize(d, o, e);
      var p := Padded(size);
      ghost var bufs0, free0, alloc0, async0 := bufs, freeIndex, allocatedIndex, freeAsyncSpace;
      var b := Stamped(bufs[k], d, o, e, isAsync);
      FreeStartNotAllocated(bufs, k);
      if BufferSize(bufs, bufferSize, k) != p {
        SplitOff(k, p);
      }
      Stamp(k, b);
      if isAsync {
        freeAsyncSpace := AsyncDebit(freeAsyncSpace, size);
      }
      SplitKeepsInvariant(bufs0, bufferSize, k, p, b, free0, alloc0, async0,
        bufs, freeIndex, allocatedIndex, freeAsyncSpace);
    }

    /** The split of binder_alloc_new_buf_locked: a free record `p` bytes into
        record `k` is linked in behind it and indexed. */
    method SplitOff(k: nat, p: nat)
      requires k < |bufs|
      modifies this`bufs, this`freeIndex
      ensures bufs == InsertAfter(old(bufs), k, FreeRecord(old(bufs)[k].start + p))
      ensures freeIndex == old(freeIndex) + {old(bufs)[k].start + p}
    {
      bufs := InsertAfter(bufs, k, FreeRecord(bufs[k].start + p));
      InsertFree(k + 1);
    }

    /** The stamping of binder_alloc_new_buf_locked: record `k` leaves the free
        index, becomes `b` and enters the allocated index. */
    method Stamp(k: nat, b: Buffer)
      requires k < |bufs| && !b.free && b.start !in allocatedIndex
      modifies this`bufs, this`freeIndex, this`allocatedIndex
      ensures bufs == old(bufs)[k := b]
      ensures freeIndex == old(freeIndex) - {b.start} && allocatedIndex == old(allocatedIndex) + {b.start}
    {
      freeIndex := freeIndex - {b.start};
      bufs := bufs[k := b];
      InsertAllocated(k);
    }

    /** binder_delete_free_buffer: remove free record `j`, which follows a free
        record, from the list.  The page holding its start goes to the LRU list
        unless it holds the byte just before the previous record's start (the
        last byte of the record before that one), the next record starts on it,
        or the record starts on a page boundary. */
    method DeleteFreeBuffer(j: nat)
      requires 0 < j < |bufs| && bufs[j - 1].free && bufs[j].free
      requires bufs[j].start / PAGE_SIZE < pages.Length && pagesHigh <= pages.Length
      requires DeleteReleasesStartPage(bufs[j - 1].start, bufs[j].start, StartAt(bufs, j + 1)) ==>
        Active(pages[bufs[j].start / PAGE_SIZE])
      modifies this`bufs, this`pagesHigh, pages
      ensures bufs == RemoveAt(old(bufs), j) && pagesHigh == old(pagesHigh)
      ensures var x := old(bufs)[j].start / PAGE_SIZE;
        ReleasedRange(old(pages[..]), pages[..], x,
          if DeleteReleasesStartPage(old(bufs)[j - 1].start, old(bufs)[j].start, StartAt(old(bufs), j + 1))
          then x + 1 else x)
    {
      var page := BufferStartPage(bufs[j].start);
      var toFree := true;
      if PrevBufferEndPage(bufs[j - 1].start) == page {
        toFree := false;
      }
      if j + 1 < |bufs| && BufferStartPage(bufs[j + 1].start) == page {
        toFree := false;
      }
      if bufs[j].start % PAGE_SIZE == 0 {
        toFree := false;
      }
      if toFree {
        var _ := UpdatePageRange(false, page, page + PAGE_SIZE, true, {});
      }
      bufs := RemoveAt(bufs, j);
    }

    /** The first page step of binder_free_buf_locked: the pages wholly inside
        record `k`, from its start rounded up to its end rounded down, go to the
        LRU list. */
    method FreeRecordPages(k: nat)
      requires Tiles(bufs, bufferSize) && PagesAgree(pages[..], bufs, bufferSize, pagesHigh)
      requires k < |bufs| && !bufs[k].free
      modifies this`pagesHigh, pages
      ensures pagesHigh == old(pagesHigh)
      ensures PartlyFreed(old(pages[..]), pages[..], bufs, bufferSize, k, false, false)
    {
      var lo, hi := PageAlign(bufs[k].start), FreeRangeEnd(bufs, bufferSize, k);
      FreeRangeActive(pages[..], bufs, bufferSize, k, pagesHigh);
      var _ := UpdatePageRange(false, lo, hi, true, {});
      FreeRangeStep(old(pages[..]), pages[..], bufs, bufferSize, k);
    }

    /** The list part of binder_free_buf_locked: mark record `k` free, delete a
        free next record (absorbed by `k`), let a free previous record absorb `k`,
        and index the surviving free record. */
    method MergeFreed(k: nat, ghost pages0: seq<Page>)
      requires Tiles(bufs, bufferSize) && NoAdjacentFree(bufs) && bufferSize % PAGE_SIZE == 0
      requires k < |bufs| && !bufs[k].free
      requires PagesAgree(pages0, bufs, bufferSize, pagesHigh)
      requires PartlyFreed(pages0, pages[..], bufs, bufferSize, k, false, false)
      modifies this`bufs, this`freeIndex, this`pagesHigh, pages
      ensures bufs == FreedList(old(bufs), k) && pagesHigh == old(pagesHigh)
      ensures freeIndex ==
        (old(freeIndex) - (if MergesNext(old(bufs), k) then {old(bufs)[k + 1].start} else {}))
        + {Survivor(old(bufs), k)}
      ensures FreedPages(pages0, pages[..], old(bufs), bufferSize, k)
    {
      ghost var bufs0 := bufs;
      ghost var withNext, withSelf := MergesNext(bufs, k), MergesPrev(bufs, k);
      bufs := bufs[k := bufs[k].(free := true)];
      if k + 1 < |bufs| && bufs[k + 1].free {
        AbsorbNext(k, bufs0, pages0);
      }
      if k > 0 && bufs[k - 1].free {
        AbsorbIntoPrev(k, bufs0, pages0, withNext);
        InsertFree(k - 1);
      } else {
        InsertFree(k);
      }
      AllStepsFree(pages0, pages[..], bufs0, bufferSize, k, withNext, withSelf);
    }

    /** Freeing record `k` of `bufs0` when the next record is free: that record
        leaves the free index and is deleted, its bytes now belonging to `k`. */
    method AbsorbNext(k: nat, ghost bufs0: seq<Buffer>, ghost pages0: seq<Page>)
      requires Tiles(bufs0, bufferSize) && NoAdjacentFree(bufs0) && bufferSize % PAGE_SIZE == 0
      requires k < |bufs0| && !bufs0[k].free && MergesNext(bufs0, k)
      requires bufs == bufs0[k := bufs0[k].(free := true)]
      requires PagesAgree(pages0, bufs0, bufferSize, pagesHigh)
      requires PartlyFreed(pages0, pages[..], bufs0, bufferSize, k, false, false)
      modifies this`bufs, this`freeIndex, this`pagesHigh, pages
      ensures bufs == RemoveAt(old(bufs), k + 1) && pagesHigh == old(pagesHigh)
      ensures freeIndex == old(freeIndex) - {bufs0[k + 1].start}
      ensures PartlyFreed(pages0, pages[..], bufs0, bufferSize, k, true, false)
    {
      freeIndex := freeIndex - {bufs[k + 1].start};
      ActiveBeforeDelete(pages0, pages[..], bufs0, bufferSize, k, pagesHigh, false, bufs[k + 1].start / PAGE_SIZE);
      ghost var ps1 := pages[..];
      DeleteFreeBuffer(k + 1);
      NextStep(pages0, ps1, pages[..], bufs0, bufferSize, k);
    }

    /** Freeing record `k` of `bufs0` when the previous record is free: `k` (grown
        by a free next record if `withNext`) is deleted, its bytes now belonging
        to the previous record, which leaves the free index to be re-inserted. */
    method AbsorbIntoPrev(k: nat, ghost bufs0: seq<Buffer>, ghost pages0: seq<Page>, ghost withNext: bool)
      requires Tiles(bufs0, bufferSize) && NoAdjacentFree(bufs0) && bufferSize % PAGE_SIZE == 0
      requires k < |bufs0| && !bufs0[k].free && MergesPrev(bufs0, k) && withNext == MergesNext(bufs0, k)
      requires var marked := bufs0[k := bufs0[k].(free := true)];
        bufs == if withNext then RemoveAt(marked, k + 1) else marked
      requires PagesAgree(pages0, bufs0, bufferSize, pagesHigh)
      requires PartlyFreed(pages0, pages[..], bufs0, bufferSize, k, withNext, false)
      modifies this`bufs, this`freeIndex, this`pagesHigh, pages
      ensures bufs == RemoveAt(old(bufs), k) && pagesHigh == old(pagesHigh)
      ensures freeIndex == old(freeIndex) - {bufs0[k - 1].start}
      ensures PartlyFreed(pages0, pages[..], bufs0, bufferSize, k, withNext, true)
    {
      ActiveBeforeDelete(pages0, pages[..], bufs0, bufferSize, k, pagesHigh, withNext, bufs[k].start / PAGE_SIZE);
      ghost var ps2 := pages[..];
      DeleteFreeBuffer(k);
      SelfStep(pages0, ps2, pages[..], bufs0, bufferSize, k, withNext);
      freeIndex := freeIndex - {bufs[k - 1].start};
    }

    /** binder_free_buf_locked: free the allocated record at `start`, which no
        transaction refers to any more. */
    method FreeBufLocked(start: nat)
      requires Valid() && start in allocatedIndex
      requires forall k :: 0 <= k < |bufs| && bufs[k].start == start ==> !bufs[k].hasTransaction
      modifies this`bufs, this`freeIndex, this`allocatedIndex, this`freeAsyncSpace, this`pagesHigh, pages
      ensures Valid()
      ensures var k := IndexOf(old(bufs), start);
        && bufs == FreedList(old(bufs), k)
        && FreedPages(old(pages[..]), pages[..], old(bufs), bufferSize, k)
        && freeAsyncSpace == old(freeAsyncSpace) + Charge(old(bufs)[k])
        && pagesHigh == old(pagesHigh)
      ensures allocatedIndex == old(allocatedIndex) - {start}
    {
      StartsWhereMeans(bufs, start, false);
      var k := IndexOf(bufs, start);
      FreeAt(k);
    }

    /** The body of binder_free_buf_locked for allocated record `k`: the async
        budget gets the record's charge back, the pages only it needed go to the
        LRU list, and the record is coalesced with its free neighbours. */
    method FreeAt(k: nat)
      requires ListValid() && PagesAgree(pages[..], bufs, bufferSize, pagesHigh)
      requires k < |bufs| && !bufs[k].free
      modifies this`bufs, this`freeIndex, this`allocatedIndex, this`freeAsyncSpace, this`pagesHigh, pages
      ensures ListValid() && PagesAgree(pages[..], bufs, bufferSize, pagesHigh)
      ensures bufs == FreedList(old(bufs), k)
      ensures FreedPages(old(pages[..]), pages[..], old(bufs), bufferSize, k)
      ensures freeAsyncSpace == old(freeAsyncSpace) + Charge(old(bufs)[k])
      ensures pagesHigh == old(pagesHigh)
      ensures allocatedIndex == old(allocatedIndex) - {old(bufs)[k].start}
    {
      ghost var bufs0, pages0 := bufs, pages[..];
      ghost var free0, alloc0, async0 := freeIndex, allocatedIndex, freeAsyncSpace;
      var b := bufs[k];
      if b.isAsync {
        freeAsyncSpace := AsyncCredit(freeAsyncSpace, Padded(UsedSize(b.dataSize, b.offsetsSize, b.extraSize)));
      }
      FreeRecordPages(k);
      allocatedIndex := allocatedIndex - {b.start};
      MergeFreed(k, pages0);
      FreeKeepsInvariant(bufs0, bufferSize, k, free0, alloc0, async0, bufs, freeIndex, allocatedIndex, freeAsyncSpace);
      AgreeAfterFree(pages0, pages[..], bufs0, bufferSize, k, pagesHigh);
    }

    // ---- the copy engine ----

    /** binder_alloc_clear_buf: zero the whole of the allocated record at
        `start`. */
    method ClearBuf(start: nat)
      requires Valid() && start in allocatedIndex
      modifies pages
      ensures Valid()
      ensures pages[..] == Written(old(pages[..]), start, Zeros(BufferSize(bufs, bufferSize, IndexOf(bufs, start))))
    {
      StartsWhereMeans(bufs, start, false);
      var k := IndexOf(bufs, start);
      ghost var before := pages[..];
      var size := BufferSize(bufs, bufferSize, k);
      RecordActive(before, bufs, bufferSize, k, pagesHigh);
      ZeroChunks(start, size);
      WrittenAgree(before, bufs, bufferSize, pagesHigh, start, Zeros(size));
    }

    /** The loop of binder_alloc_clear_buf: zero bytes `start..start+total-1`,
        which lie on active pages, one page chunk at a time. */
    method ZeroChunks(start: nat, total: nat)
      requires ActiveRange(pages[..], start, start + total) && FullPages(pages[..])
      modifies pages
      ensures pages[..] == Written(old(pages[..]), start, Zeros(total))
    {
      ghost var before := pages[..];
      var bytes: nat := total;
      var offset := 0;
      WrittenNothing(before, start);
      while bytes > 0
        invariant offset + bytes == total
        invariant pages[..] == Written(before, start, Zeros(offset))
      {
        ChunkOnActivePage(before, start, start + total, start, offset);
        var (index, pgoff) := GetPage(start, offset);
        var size := ChunkSize(bytes, pgoff);
        WrittenStep(before, start, Zeros(offset), Zeros(size), index, pgoff);
        pages[index] := Overwrite(pages[index], pgoff, Zeros(size));
        ZerosAppend(offset, size);
        bytes := bytes - size;
        offset := offset + size;
      }
    }

    /** binder_alloc_copy_user_to_buffer: copy `bytes` bytes from user memory
        into record `start` at `offset`.  `from` is the user memory readable
        from the source pointer on: a copy that runs past it zero-fills the rest
        of its chunk and stops.  Returns the number of bytes not copied: all of
        them when check_buffer refuses the access. */
    method CopyUserToBuffer(start: nat, offset: nat, from: seq<bv8>, bytes: nat) returns (rem: nat)
      requires Valid() && start in Starts(bufs)
      modifies pages
      ensures Valid()
      ensures var k := IndexOf(bufs, start);
        if CheckBuffer(bufs, bufferSize, k, offset, bytes) then
          && rem == bytes - Min(bytes, |from|)
          && pages[..] == Written(old(pages[..]), start + offset,
                                  from[..Min(bytes, |from|)] + Zeros(FaultPad(start + offset, bytes, |from|)))
        else
          rem == bytes && pages[..] == old(pages[..])
    {
      var k := IndexOf(bufs, start);
      if !CheckBuffer(bufs, bufferSize, k, offset, bytes) {
        return bytes;
      }
      ghost var before := pages[..];
      CheckedAccessActive(before, bufs, bufferSize, k, pagesHigh, offset, bytes);
      rem := CopyChunksFromUser(start, offset, from, bytes);
      WrittenAgree(before, bufs, bufferSize, pagesHigh, start + offset,
                   from[..Min(bytes, |from|)] + Zeros(FaultPad(start + offset, bytes, |from|)));
    }

    /** The loop of binder_alloc_copy_user_to_buffer over bytes
        `start+offset..start+offset+bytes-1`, which lie on active pages. */
    method CopyChunksFromUser(start: nat, offset: nat, from: seq<bv8>, bytes: nat) returns (rem: nat)
      requires ActiveRange(pages[..], start + offset, start + offset + bytes) && FullPages(pages[..])
      modifies pages
      ensures rem == bytes - Min(bytes, |from|)
      ensures pages[..] == Written(old(pages[..]), start + offset,
                                   from[..Min(bytes, |from|)] + Zeros(FaultPad(start + offset, bytes, |from|)))
    {
      ghost var before := pages[..];
      ghost var lo := start + offset;
      var left: nat := bytes;
      var off := offset;
      var pos := 0;
      WrittenNothing(before, lo);
      while left > 0
        invariant pos + left == bytes && off == offset + pos && pos <= |from|
        invariant pages[..] == Written(before, lo, from[..pos])
      {
        ChunkOnActivePage(before, lo, lo + bytes, start, off);
        var (index, pgoff) := GetPage(start, off);
        var size := ChunkSize(left, pgoff);
        var (written, notCopied) := CopyFromUser(from, pos, size);
        UserChunk(lo, bytes, from, pos, index, pgoff, size);
        WrittenStep(before, lo, from[..pos], written, index, pgoff);
        pages[index] := Overwrite(pages[index], pgoff, written);
        if notCopied > 0 {
          return left - size + notCopied;
        }
        left := left - size;
        off := off + size;
        pos := pos + size;
      }
      UserCopyDone(lo, bytes, from);
      return 0;
    }

    /** binder_alloc_do_buffer_copy: copy `bytes` bytes between kernel memory
        `ptr` and record `start` at `offset`, into the record when `toBuffer`
        holds and out of it otherwise; returns `ptr` as the copy leaves it.  The
        access must pass check_buffer: the C code stops the kernel otherwise. */
    method DoBufferCopy(toBuffer: bool, start: nat, offset: nat, ptr: seq<bv8>, bytes: nat) returns (out: seq<bv8>)
      requires Valid() && start in Starts(bufs)
      requires CheckBuffer(bufs, bufferSize, IndexOf(bufs, start), offset, bytes)
      requires bytes <= |ptr|
      modifies pages
      ensures Valid()
      ensures toBuffer ==> out == ptr && pages[..] == Written(old(pages[..]), start + offset, ptr[..bytes])
      ensures !toBuffer ==>
        && pages[..] == old(pages[..])
        && |out| == |ptr| && out[bytes..] == ptr[bytes..]
        && out[..bytes] == Bytes(pages[..], start + offset, bytes)
    {
      var k := IndexOf(bufs, start);
      ghost var before := pages[..];
      CheckedAccessActive(before, bufs, bufferSize, k, pagesHigh, offset, bytes);
      out := BufferCopyChunks(toBuffer, start, offset, ptr, bytes);
      WrittenAgree(before, bufs, bufferSize, pagesHigh, start + offset, ptr[..bytes]);
    }

    /** The loop of binder_alloc_do_buffer_copy over bytes
        `start+offset..start+offset+bytes-1`, which lie on active pages. */
    method BufferCopyChunks(toBuffer: bool, start: nat, offset: nat, ptr: seq<bv8>, bytes: nat) returns (out: seq<bv8>)
      requires ActiveRange(pages[..], start + offset, start + offset + bytes) && FullPages(pages[..])
      requires bytes <= |ptr|
      modifies pages
      ensures toBuffer ==> out == ptr && pages[..] == Written(old(pages[..]), start + offset, ptr[..bytes])
      ensures !toBuffer ==>
        && pages[..] == old(pages[..])
        && |out| == |ptr| && out[bytes..] == ptr[bytes..]
        && out[..bytes] == Bytes(pages[..], start + offset, bytes)
    {
      ghost var before := pages[..];
      ghost var lo := start + offset;
      out := ptr;
      var left: nat := bytes;
      var off := offset;
      var pos := 0;
      WrittenNothing(before, lo);
      while left > 0
        invariant pos + left == bytes && off == offset + pos && |out| == |ptr|
        invariant toBuffer ==> out == ptr && pages[..] == Written(before, lo, ptr[..pos])
        invariant !toBuffer ==>
          && pages[..] == before && out[..pos] == Bytes(before, lo, pos) && out[pos..] == ptr[pos..]
      {
        ChunkOnActivePage(before, lo, lo + bytes, start, off);
        var (index, pgoff) := GetPage(start, off);
        var size := ChunkSize(left, pgoff);
        if toBuffer {
          WrittenStep(before, lo, ptr[..pos], ptr[pos..pos + size], index, pgoff);
          pages[index] := Overwrite(pages[index], pgoff, ptr[pos..pos + size]);
          assert ptr[..pos] + ptr[pos..pos + size] == ptr[..pos + size];
        } else {
          var chunk := pages[index].data[pgoff..pgoff + size];
          BytesStep(before, lo, pos, index, pgoff, size);
          ghost var prev := out;
          out := out[..pos] + chunk + out[pos + size..];
          assert out[..pos + size] == prev[..pos] + chunk;
          assert out[pos + size..] == ptr[pos + size..];
        }
        left := left - size;
        off := off + size;
        pos := pos + size;
      }
    }

    // ---- freeing from outside the lock, teardown and the shrinker ----

    /** binder_alloc_free_buf: free the allocated record at `start`, first
        zeroing it if it is marked clear-on-free (`ClearedReadsZero` shows that
        the zeros survive the free). */
    method FreeBuf(start: nat)
      requires Valid() && start in allocatedIndex
      requires forall k :: 0 <= k < |bufs| && bufs[k].start == start ==> !bufs[k].hasTransaction
      modifies this`bufs, this`freeIndex, this`allocatedIndex, this`freeAsyncSpace, this`pagesHigh, pages
      ensures Valid()
      ensures allocatedIndex == old(allocatedIndex) - {start}
      ensures var k := IndexOf(old(bufs), start);
        && bufs == FreedList(Unmarked(old(bufs), k), k)
        && FreedPages(Cleared(old(pages[..]), old(bufs), bufferSize, k), pages[..], Unmarked(old(bufs), k), bufferSize, k)
        && freeAsyncSpace == old(freeAsyncSpace) + Charge(old(bufs)[k])
        && pagesHigh == old(pagesHigh)
      ensures CommittedPages(pages[..]) == CommittedPages(old(pages[..]))
    {
      StartsWhereMeans(bufs, start, false);
      var k := IndexOf(bufs, start);
      ClearIfMarked(start, k);
      ghost var unmarked, cleared := bufs, pages[..];
      StartsWhereMeans(unmarked, start, false);
      StartsUnique(unmarked, IndexOf(unmarked, start), k);
      FreeBufLocked(start);
      FreedKeepsData(cleared, pages[..], unmarked, bufferSize, k, pagesHigh);
    }

    /** The clear-on-free step of binder_alloc_free_buf for record `k`, which
        starts at `start`. */
    method ClearIfMarked(start: nat, k: nat)
      requires Valid() && start in allocatedIndex && k < |bufs| && bufs[k].start == start
      modifies this`bufs, pages
      ensures Valid()
      ensures bufs == Unmarked(old(bufs), k)
      ensures pages[..] == Cleared(old(pages[..]), old(bufs), bufferSize, k)
      ensures CommittedPages(pages[..]) == CommittedPages(old(pages[..]))
    {
      if bufs[k].clearOnFree {
        ClearMarked(start, k);
      } else {
        assert bufs[k].(clearOnFree := false) == bufs[k];
      }
    }

    /** The clear-on-free branch of binder_free_buf: zero the buffer's bytes,
        then drop the mark. */
    method ClearMarked(start: nat, k: nat)
      requires Valid() && start in allocatedIndex && k < |bufs| && bufs[k].start == start
      requires bufs[k].clearOnFree
      modifies this`bufs, pages
      ensures Valid()
      ensures bufs == Unmarked(old(bufs), k)
      ensures pages[..] == Written(old(pages[..]), start, Zeros(BufferSize(old(bufs), bufferSize, k)))
      ensures CommittedPages(pages[..]) == CommittedPages(old(pages[..]))
    {
      StartsWhereMeans(bufs, start, false);
      StartsUnique(bufs, IndexOf(bufs, start), k);
      WrittenKeepsCommitted(pages[..], start, Zeros(BufferSize(bufs, bufferSize, k)));
      ClearBuf(start);
      ClearOnFreeDone(k);
    }

    /** `buffer->clear_on_free = false` on allocated record `k`. */
    method ClearOnFreeDone(k: nat)
      requires Valid() && k < |bufs| && !bufs[k].free
      modifies this`bufs
      ensures Valid()
      ensures bufs == Unmarked(old(bufs), k)
    {
      var b := bufs[k].(clearOnFree := false);
      FlagsKeepInvariant(bufs, bufferSize, k, b, freeIndex, allocatedIndex, freeAsyncSpace, pages[..], pagesHigh);
      bufs := bufs[k := b];
    }

    /** rb_first(&alloc->allocated_buffers): the lowest allocated start. */
    method FirstAllocated() returns (start: nat)
      requires ListValid() && allocatedIndex != {}
      ensures start in allocatedIndex
      ensures forall s :: s in allocatedIndex ==> start <= s
    {
      ghost var w :| w in allocatedIndex;
      StartsWhereMeans(bufs, w, false);
      var j := FirstAllocatedIn(bufs, IndexOf(bufs, w));
      start := bufs[j].start;
      assert start in StartsWhere(bufs, false);
      forall s | s in allocatedIndex ensures start <= s {
        StartsWhereMeans(bufs, s, false);
        var m := IndexOf(bufs, s);
        assert j <= m;
        assert j < m ==> bufs[j].start < bufs[m].start;
      }
    }

    /** binder_alloc_deferred_release: tear down the allocator of a process
        whose mapping is gone.  Frees every allocated record (`buffers` of
        them), deletes the remaining record and returns every committed page
        (`pageCount` of them). */
    method DeferredRelease() returns (buffers: nat, pageCount: nat)
      requires Valid() && !vma && TransactionsReleased(bufs)
      modifies this`bufs, this`freeIndex, this`allocatedIndex, this`freeAsyncSpace, this`pagesHigh, pages
      ensures buffers == |old(allocatedIndex)|
      ensures pageCount == |CommittedPages(old(pages[..]))|
      ensures bufs == [] && allocatedIndex == {}
      ensures bound ==> freeAsyncSpace == bufferSize / 2
      ensures forall i :: 0 <= i < pages.Length ==> pages[i] == Uncommitted
    {
      buffers := FreeAllAllocated();
      DeleteRecords();
      pageCount := ReleaseAllPages();
    }

    /** The first loop of binder_alloc_deferred_release: free the lowest
        allocated record, zeroing it first if it is marked clear-on-free, until
        none is left.  The list is then the single free record of the whole
        region. */
    method FreeAllAllocated() returns (buffers: nat)
      requires Valid() && TransactionsReleased(bufs)
      modifies this`bufs, this`freeIndex, this`allocatedIndex, this`freeAsyncSpace, this`pagesHigh, pages
      ensures Valid() && allocatedIndex == {}
      ensures buffers == |old(allocatedIndex)|
      ensures CommittedPages(pages[..]) == CommittedPages(old(pages[..]))
      ensures bound ==> |bufs| == 1 && bufs[0].start == 0 && bufs[0].free && freeAsyncSpace == bufferSize / 2
    {
      ghost var allocated0, committed0 := allocatedIndex, CommittedPages(pages[..]);
      buffers := 0;
      while allocatedIndex != {}
        invariant Valid() && TransactionsReleased(bufs)
        invariant buffers + |allocatedIndex| == |allocated0|
        invariant CommittedPages(pages[..]) == committed0
        decreases |allocatedIndex|
      {
        FreeLowest();
        buffers := buffers + 1;
      }
      if bound {
        AllFreeIsOneRecord(bufs, bufferSize);
        assert Charged(bufs) == Charged([]) + Charge(bufs[0]);
      }
    }

    /** One round of that loop: free the lowest allocated record. */
    method FreeLowest()
      requires Valid() && TransactionsReleased(bufs) && allocatedIndex != {}
      modifies this`bufs, this`freeIndex, this`allocatedIndex, this`freeAsyncSpace, this`pagesHigh, pages
      ensures Valid() && TransactionsReleased(bufs)
      ensures |allocatedIndex| == |old(allocatedIndex)| - 1
      ensures CommittedPages(pages[..]) == CommittedPages(old(pages[..]))
    {
      var start := FirstAllocated();
      StartsWhereMeans(bufs, start, false);
      ghost var k := IndexOf(bufs, start);
      forall j | 0 <= j < |bufs| && bufs[j].start == start ensures !bufs[j].hasTransaction {
        StartsUnique(bufs, j, k);
        assert bufs[j] in bufs;
      }
      FreeKeepsReleased(bufs, k);
      FreeBuf(start);
    }

    /** The second loop of binder_alloc_deferred_release: delete the records
        left, all of them free. */
    method DeleteRecords()
      requires forall j :: 0 <= j < |bufs| ==> bufs[j].free
      modifies this`bufs
      ensures bufs == []
    {
      while |bufs| > 0
        invariant forall j :: 0 <= j < |bufs| ==> bufs[j].free
      {
        assert bufs[0].free;
        bufs := bufs[1..];
      }
    }

    /** The page loop of binder_alloc_deferred_release: every committed page,
        active or on the LRU list, is returned; `pageCount` counts them. */
    method ReleaseAllPages() returns (pageCount: nat)
      requires bound ==> pages.Length == bufferSize / PAGE_SIZE
      requires !bound ==> pages.Length == 0
      modifies pages
      ensures pageCount == |CommittedPages(old(pages[..]))|
      ensures forall i :: 0 <= i < pages.Length ==> pages[i] == Uncommitted
    {
      ghost var before := pages[..];
      pageCount := 0;
      if bound {
        for i := 0 to bufferSize / PAGE_SIZE
          invariant forall j :: 0 <= j < i ==> pages[j] == Uncommitted
          invariant forall j :: i <= j < pages.Length ==> pages[j] == before[j]
          invariant pageCount == |CommittedPages(before[..i])|
        {
          CommittedPagesStep(before, i);
          if pages[i].Committed? {
            pages[i] := Uncommitted;
            pageCount := pageCount + 1;
          }
        }
        assert before[..pages.Length] == before;
      } else {
        assert CommittedPages(before) == {};
      }
    }

    /** binder_alloc_free_page, the shrinker's callback for page `index`, which
        is on the LRU list.  The page is reclaimed unless the allocator's lock
        cannot be taken (`lockOk`), the process's mm is gone (`mmOk`) or its
        mmap lock cannot be taken (`semOk`); then it stays on the list. */
    method FreePage(index: nat, lockOk: bool, mmOk: bool, semOk: bool) returns (removed: bool)
      requires Valid() && index < pages.Length && pages[index].Committed? && pages[index].onLru
      modifies pages
      ensures Valid()
      ensures removed <==> lockOk && mmOk && semOk
      ensures pages[..] == if removed then old(pages[..])[index := Uncommitted] else old(pages[..])
    {
      if !lockOk || !mmOk || !semOk {
        return false;
      }
      ReclaimSparesNeeded(pages[..], bufs, bufferSize, pagesHigh, index);
      pages[index] := Uncommitted;
      removed := true;
    }
  }
}
