/** The buffer records of one region and the address-ordered list that holds them.

    A record is identified by its start offset (`user_data`): no two live records
    share a start, and a record keeps its start from creation until it is merged
    away or the region is torn down.  A record's size is not stored: it runs up to
    the start of the next record, or to the end of the region for the last one.
 */
module Records {
  import opened Arith

  /** struct binder_buffer, without its list and tree links and its debug id. */
  datatype Buffer = Buffer(
    start: nat,            // user_data, as an offset into the region
    free: bool,
    allowUserFree: bool,
    dataSize: nat,
    offsetsSize: nat,
    extraSize: nat,
    isAsync: bool,         // async_transaction
    clearOnFree: bool,
    hasTransaction: bool)  // transaction != NULL; written by the transaction layer

  /** A freshly kzalloc'ed record at `start`, marked free. */
  function FreeRecord(start: nat): (b: Buffer)
    ensures b.start == start && b.free && !b.allowUserFree && !b.hasTransaction
  {
    Buffer(start, true, false, 0, 0, 0, false, false, false)
  }

  ghost predicate Sorted(bufs: seq<Buffer>) {
    forall i, j :: 0 <= i < j < |bufs| ==> bufs[i].start < bufs[j].start
  }

  /** The list tiles `[0, size)`: it starts at 0, is strictly address ordered, and
      its last record starts inside the region. */
  ghost predicate Tiles(bufs: seq<Buffer>, size: nat) {
    && |bufs| > 0
    && bufs[0].start == 0
    && Sorted(bufs)
    && bufs[|bufs| - 1].start < size
  }

  /** Where record `k` ends: at the next record's start, or at the region end. */
  function End(bufs: seq<Buffer>, size: nat, k: nat): nat
    requires k < |bufs|
  {
    if k + 1 < |bufs| then bufs[k + 1].start else size
  }

  /** binder_alloc_buffer_size: the implicit size of record `k`. */
  function BufferSize(bufs: seq<Buffer>, size: nat, k: nat): (r: nat)
    requires Tiles(bufs, size) && k < |bufs|
    ensures r > 0 && bufs[k].start + r <= size
  {
    End(bufs, size, k) - bufs[k].start
  }

  /** The sum of the sizes of records `k..` of the list. */
  function SizesFrom(bufs: seq<Buffer>, size: nat, k: nat): nat
    requires Tiles(bufs, size) && k <= |bufs|
    decreases |bufs| - k
  {
    if k == |bufs| then 0 else BufferSize(bufs, size, k) + SizesFrom(bufs, size, k + 1)
  }

  /** The records' implicit sizes add up to exactly the region: no gap, no overlap. */
  lemma {:induction false} SizesPartitionRegion(bufs: seq<Buffer>, size: nat)
    requires Tiles(bufs, size)
    ensures SizesFrom(bufs, size, 0) == size
  {
    SizesFromTail(bufs, size, 0);
  }

  lemma {:induction false} SizesFromTail(bufs: seq<Buffer>, size: nat, k: nat)
    requires Tiles(bufs, size) && k < |bufs|
    ensures SizesFrom(bufs, size, k) == size - bufs[k].start
    decreases |bufs| - k
  {
    if k + 1 < |bufs| {
      SizesFromTail(bufs, size, k + 1);
    }
  }

  /** The record holding byte `b` of the region. */
  function Owner(bufs: seq<Buffer>, size: nat, b: nat): (k: nat)
    requires Tiles(bufs, size) && b < size
    ensures k < |bufs| && bufs[k].start <= b < End(bufs, size, k)
    decreases |bufs|
  {
    if bufs[|bufs| - 1].start <= b then |bufs| - 1
    else
      var k := Owner(bufs[..|bufs| - 1], bufs[|bufs| - 1].start, b);
      k
  }

  /** Every byte of the region belongs to exactly one record. */
  lemma OwnerUnique(bufs: seq<Buffer>, size: nat, b: nat, k: nat)
    requires Tiles(bufs, size) && b < size
    requires k < |bufs| && bufs[k].start <= b < End(bufs, size, k)
    ensures k == Owner(bufs, size, b)
  {
  }

  function Starts(bufs: seq<Buffer>): set<nat> {
    set k | 0 <= k < |bufs| :: bufs[k].start
  }

  /** The starts of the records whose `free` flag is `free`: the free index when
      `free` holds, the allocated index otherwise. */
  function StartsWhere(bufs: seq<Buffer>, free: bool): set<nat> {
    set k | 0 <= k < |bufs| && bufs[k].free == free :: bufs[k].start
  }

  /** The position of the record starting at `s`. */
  function IndexOf(bufs: seq<Buffer>, s: nat): (k: nat)
    requires s in Starts(bufs)
    ensures k < |bufs| && bufs[k].start == s
    decreases |bufs|
  {
    if bufs[|bufs| - 1].start == s then |bufs| - 1
    else
      assert s in Starts(bufs[..|bufs| - 1]) by {
        var j :| 0 <= j < |bufs| && bufs[j].start == s;
        assert bufs[..|bufs| - 1][j].start == s;
      }
      IndexOf(bufs[..|bufs| - 1], s)
  }

  /** In a sorted list, looking up record `k`'s start finds record `k`. */
  lemma IndexOfStart(bufs: seq<Buffer>, k: nat)
    requires Sorted(bufs) && k < |bufs|
    ensures bufs[k].start in Starts(bufs) && IndexOf(bufs, bufs[k].start) == k
  {
    StartsUnique(bufs, k, IndexOf(bufs, bufs[k].start));
  }

  lemma StartsUnique(bufs: seq<Buffer>, i: nat, j: nat)
    requires Sorted(bufs) && i < |bufs| && j < |bufs|
    requires bufs[i].start == bufs[j].start
    ensures i == j
  {
  }

  /** No two free records are neighbours: freeing always coalesces. */
  ghost predicate NoAdjacentFree(bufs: seq<Buffer>) {
    forall k :: 0 <= k < |bufs| - 1 ==> !bufs[k].free || !bufs[k + 1].free
  }

  /** An allocated record is exactly as large as the padded size stamped on it. */
  ghost predicate AllocatedSizesMatch(bufs: seq<Buffer>, size: nat)
    requires Tiles(bufs, size)
  {
    forall k :: 0 <= k < |bufs| && !bufs[k].free ==>
      BufferSize(bufs, size, k) == Padded(UsedSize(bufs[k].dataSize, bufs[k].offsetsSize, bufs[k].extraSize))
  }

  /** The invariant of the record list of a bound region. */
  ghost predicate WellFormed(bufs: seq<Buffer>, size: nat) {
    && size > 0
    && size % PAGE_SIZE == 0
    && IsSize(size)
    && Tiles(bufs, size)
    && NoAdjacentFree(bufs)
    && AllocatedSizesMatch(bufs, size)
  }

  // ---- edits of the list ----

  /** list_add(&new->entry, &bufs[k].entry): insert `b` right after record `k`. */
  function InsertAfter(bufs: seq<Buffer>, k: nat, b: Buffer): (r: seq<Buffer>)
    requires k < |bufs|
    ensures |r| == |bufs| + 1 && r[k + 1] == b
    ensures forall j :: 0 <= j <= k ==> r[j] == bufs[j]
    ensures forall j :: k + 1 < j < |r| ==> r[j] == bufs[j - 1]
  {
    bufs[..k + 1] + [b] + bufs[k + 1..]
  }

  /** list_del(&bufs[j].entry). */
  function RemoveAt(bufs: seq<Buffer>, j: nat): (r: seq<Buffer>)
    requires j < |bufs|
    ensures |r| == |bufs| - 1
    ensures forall i :: 0 <= i < j ==> r[i] == bufs[i]
    ensures forall i :: j <= i < |r| ==> r[i] == bufs[i + 1]
  {
    bufs[..j] + bufs[j + 1..]
  }

  lemma StartsWhereUpdate(bufs: seq<Buffer>, k: nat, b: Buffer, free: bool)
    requires Sorted(bufs) && k < |bufs| && b.start == bufs[k].start
    ensures StartsWhere(bufs[k := b], free) ==
      (StartsWhere(bufs, free) - {b.start}) + (if b.free == free then {b.start} else {})
  {
    var r := bufs[k := b];
    forall s ensures s in StartsWhere(r, free) <==>
      s in (StartsWhere(bufs, free) - {b.start}) + (if b.free == free then {b.start} else {})
    {
      if s in StartsWhere(bufs, free) && s != b.start {
        var j :| 0 <= j < |bufs| && bufs[j].free == free && bufs[j].start == s;
        assert r[j] == bufs[j];
      }
      if s == b.start && b.free == free {
        assert r[k] == b;
      }
      if s in StartsWhere(r, free) {
        var j :| 0 <= j < |r| && r[j].free == free && r[j].start == s;
        if j != k {
          assert bufs[j] == r[j];
        }
      }
    }
  }

  lemma StartsWhereInsert(bufs: seq<Buffer>, k: nat, b: Buffer, free: bool)
    requires k < |bufs|
    ensures StartsWhere(InsertAfter(bufs, k, b), free) ==
      StartsWhere(bufs, free) + (if b.free == free then {b.start} else {})
  {
    var r := InsertAfter(bufs, k, b);
    forall s ensures s in StartsWhere(r, free) <==>
      s in StartsWhere(bufs, free) + (if b.free == free then {b.start} else {})
    {
      if s in StartsWhere(bufs, free) {
        var j :| 0 <= j < |bufs| && bufs[j].free == free && bufs[j].start == s;
        if j <= k { assert r[j] == bufs[j]; } else { assert r[j + 1] == bufs[j]; }
      }
      if s in StartsWhere(r, free) {
        var j :| 0 <= j < |r| && r[j].free == free && r[j].start == s;
        if j <= k { assert r[j] == bufs[j]; }
        else if j > k + 1 { assert r[j] == bufs[j - 1]; }
      }
    }
  }

  lemma StartsSplit(bufs: seq<Buffer>)
    ensures Starts(bufs) == StartsWhere(bufs, true) + StartsWhere(bufs, false)
  {
    forall s | s in Starts(bufs) ensures s in StartsWhere(bufs, true) + StartsWhere(bufs, false) {
      var k :| 0 <= k < |bufs| && bufs[k].start == s;
      assert bufs[k].free ==> s in StartsWhere(bufs, true);
      assert !bufs[k].free ==> s in StartsWhere(bufs, false);
    }
  }

  /** A start in the free index (resp. allocated index) names a free (allocated) record. */
  lemma StartsWhereMeans(bufs: seq<Buffer>, s: nat, free: bool)
    requires Sorted(bufs)
    requires s in StartsWhere(bufs, free)
    ensures s in Starts(bufs) && bufs[IndexOf(bufs, s)].free == free
  {
    var j :| 0 <= j < |bufs| && bufs[j].free == free && bufs[j].start == s;
    StartsUnique(bufs, j, IndexOf(bufs, s));
  }
}

module Coalesce {
  import opened Arith
  import opened Records

  /** The record list after binder_alloc_new_buf_locked has taken free record `k`
      for a buffer of padded size `Padded(UsedSize(d, o, e))`: a free remainder is
      split off behind it when the record is larger, and the record is stamped. */
  function AllocatedList(bufs: seq<Buffer>, size: nat, k: nat, d: nat, o: nat, e: nat, isAsync: bool): seq<Buffer>
    requires Tiles(bufs, size) && k < |bufs|
  {
    SplitAndStamp(bufs, size, k, Padded(UsedSize(d, o, e)), Stamped(bufs[k], d, o, e, isAsync))
  }

  /** Record `k` replaced by `b`, with a free record split off `p` bytes in
      when `k` is larger than `p`. */
  function SplitAndStamp(bufs: seq<Buffer>, size: nat, k: nat, p: nat, b: Buffer): seq<Buffer>
    requires Tiles(bufs, size) && k < |bufs|
  {
    var split := if BufferSize(bufs, size, k) != p
      then InsertAfter(bufs, k, FreeRecord(bufs[k].start + p)) else bufs;
    split[k := b]
  }

  /** The stamped record of an allocation. */
  function Stamped(b: Buffer, d: nat, o: nat, e: nat, isAsync: bool): Buffer {
    b.(free := false, allowUserFree := false, dataSize := d, offsetsSize := o, extraSize := e, isAsync := isAsync)
  }

  /** Splitting and stamping replaces record `k` by `b`, followed by the free
      remainder when there is one. */
  lemma SplitShape(bufs: seq<Buffer>, size: nat, k: nat, p: nat, b: Buffer)
    requires Tiles(bufs, size) && k < |bufs|
    ensures SplitAndStamp(bufs, size, k, p, b) ==
      bufs[..k] + (if BufferSize(bufs, size, k) != p then [b, FreeRecord(bufs[k].start + p)] else [b]) + bufs[k + 1..]
  {
    if BufferSize(bufs, size, k) != p {
      var f := FreeRecord(bufs[k].start + p);
      assert InsertAfter(bufs, k, f)[k := b] == bufs[..k] + [b, f] + bufs[k + 1..];
    } else {
      assert bufs[k := b] == bufs[..k] + [b] + bufs[k + 1..];
    }
  }

  /** Inserting a record strictly inside record `k` keeps the list address ordered. */
  lemma InsertAfterSorted(bufs: seq<Buffer>, size: nat, k: nat, b: Buffer)
    requires Tiles(bufs, size) && k < |bufs|
    requires bufs[k].start < b.start < End(bufs, size, k)
    ensures Tiles(InsertAfter(bufs, k, b), size)
  {
    var r := InsertAfter(bufs, k, b);
    forall i, j | 0 <= i < j < |r| ensures r[i].start < r[j].start {
      if j == k + 1 {
        assert r[i] == bufs[i];
      } else if i == k + 1 {
        assert r[j] == bufs[j - 1];
      } else if i > k + 1 {
        assert r[i] == bufs[i - 1] && r[j] == bufs[j - 1];
      } else if j > k + 1 {
        assert r[i] == bufs[i] && r[j] == bufs[j - 1];
      } else {
        assert r[i] == bufs[i] && r[j] == bufs[j];
      }
    }
  }

  /** After the split the record ends where the new one starts, and every other
      record keeps its end. */
  lemma InsertAfterEnds(bufs: seq<Buffer>, size: nat, k: nat, b: Buffer)
    requires k < |bufs|
    ensures var r := InsertAfter(bufs, k, b);
      && End(r, size, k) == b.start
      && End(r, size, k + 1) == End(bufs, size, k)
      && (forall j :: 0 <= j < k ==> End(r, size, j) == End(bufs, size, j))
      && (forall j :: k + 1 < j < |r| ==> End(r, size, j) == End(bufs, size, j - 1))
  {
  }

  /** Rewriting a record's flags and sizes in place keeps the list and every end. */
  lemma UpdateKeepsTiles(bufs: seq<Buffer>, size: nat, k: nat, b: Buffer)
    requires Tiles(bufs, size) && k < |bufs| && b.start == bufs[k].start
    ensures Tiles(bufs[k := b], size)
    ensures forall j :: 0 <= j < |bufs| ==> End(bufs[k := b], size, j) == End(bufs, size, j)
  {
    var r := bufs[k := b];
    forall i, j | 0 <= i < j < |r| ensures r[i].start < r[j].start {
      assert r[i].start == bufs[i].start && r[j].start == bufs[j].start;
    }
  }

  /** After the split the list still tiles the region and record `k`, now `b`,
      ends `p` bytes after its start. */
  lemma SplitTiles(bufs: seq<Buffer>, size: nat, k: nat, p: nat, b: Buffer)
    requires Tiles(bufs, size) && k < |bufs|
    requires 0 < p <= BufferSize(bufs, size, k) && b.start == bufs[k].start
    ensures var r := SplitAndStamp(bufs, size, k, p, b);
      && Tiles(r, size)
      && |r| == (if BufferSize(bufs, size, k) != p then |bufs| + 1 else |bufs|)
      && r[k] == b
      && End(r, size, k) == bufs[k].start + p
  {
    var split := if BufferSize(bufs, size, k) != p
      then InsertAfter(bufs, k, FreeRecord(bufs[k].start + p)) else bufs;
    if BufferSize(bufs, size, k) != p {
      InsertAfterSorted(bufs, size, k, FreeRecord(bufs[k].start + p));
      InsertAfterEnds(bufs, size, k, FreeRecord(bufs[k].start + p));
    }
    assert Tiles(split, size);
    UpdateKeepsTiles(split, size, k, b);
    assert SplitAndStamp(bufs, size, k, p, b) == split[k := b];
  }

  /** Allocation keeps the list well formed, moves the chosen start from the free
      index to the allocated index, and adds the remainder (if any) to the free index. */
  lemma AllocatedListWellFormed(bufs: seq<Buffer>, size: nat, k: nat, d: nat, o: nat, e: nat, isAsync: bool)
    requires WellFormed(bufs, size) && k < |bufs| && bufs[k].free
    requires Padded(UsedSize(d, o, e)) <= BufferSize(bufs, size, k)
    ensures var r := AllocatedList(bufs, size, k, d, o, e, isAsync);
      var p := Padded(UsedSize(d, o, e));
      var s := bufs[k].start;
      && WellFormed(r, size)
      && StartsWhere(r, false) == StartsWhere(bufs, false) + {s}
      && StartsWhere(r, true) == StartsWhere(bufs, true) - {s}
           + (if BufferSize(bufs, size, k) != p then {s + p} else {})
  {
    SplitWellFormed(bufs, size, k, Padded(UsedSize(d, o, e)), Stamped(bufs[k], d, o, e, isAsync));
  }

  lemma SplitWellFormed(bufs: seq<Buffer>, size: nat, k: nat, p: nat, b: Buffer)
    requires WellFormed(bufs, size) && k < |bufs| && bufs[k].free
    requires 0 < p <= BufferSize(bufs, size, k) && b.start == bufs[k].start && !b.free
    requires p == Padded(UsedSize(b.dataSize, b.offsetsSize, b.extraSize))
    ensures var r := SplitAndStamp(bufs, size, k, p, b);
      var s := bufs[k].start;
      && WellFormed(r, size)
      && StartsWhere(r, false) == StartsWhere(bufs, false) + {s}
      && StartsWhere(r, true) == StartsWhere(bufs, true) - {s}
           + (if BufferSize(bufs, size, k) != p then {s + p} else {})
  {
    SplitSizes(bufs, size, k, p, b);
    SplitNoAdjacentFree(bufs, size, k, p, b);
    SplitIndices(bufs, size, k, p, b);
  }

  /** The index change of `SplitAndStamp` with an allocated stamp. */
  lemma SplitIndices(bufs: seq<Buffer>, size: nat, k: nat, p: nat, b: Buffer)
    requires Tiles(bufs, size) && k < |bufs| && bufs[k].free
    requires 0 < p <= BufferSize(bufs, size, k) && b.start == bufs[k].start && !b.free
    ensures var s := bufs[k].start;
      var r := SplitAndStamp(bufs, size, k, p, b);
      && StartsWhere(r, false) == StartsWhere(bufs, false) + {s}
      && StartsWhere(r, true) == StartsWhere(bufs, true) - {s}
           + (if BufferSize(bufs, size, k) != p then {s + p} else {})
  {
    var s := bufs[k].start;
    var splits := BufferSize(bufs, size, k) != p;
    var split := if splits then InsertAfter(bufs, k, FreeRecord(s + p)) else bufs;
    assert SplitAndStamp(bufs, size, k, p, b) == split[k := b];
    if splits {
      InsertAfterSorted(bufs, size, k, FreeRecord(s + p));
      StartsWhereInsert(bufs, k, FreeRecord(s + p), true);
      StartsWhereInsert(bufs, k, FreeRecord(s + p), false);
    }
    StampIndices(split, k, b);
  }

  /** Stamping free record `k` allocated moves its start between the indices. */
  lemma StampIndices(bufs: seq<Buffer>, k: nat, b: Buffer)
    requires Sorted(bufs) && k < |bufs| && bufs[k].free && b.start == bufs[k].start && !b.free
    ensures StartsWhere(bufs[k := b], false) == StartsWhere(bufs, false) + {b.start}
    ensures StartsWhere(bufs[k := b], true) == StartsWhere(bufs, true) - {b.start}
  {
    StartsWhereUpdate(bufs, k, b, true);
    StartsWhereUpdate(bufs, k, b, false);
    if b.start in StartsWhere(bufs, false) {
      var j :| 0 <= j < |bufs| && !bufs[j].free && bufs[j].start == b.start;
      StartsUnique(bufs, j, k);
    }
  }

  /** A stamp of `p` bytes keeps every allocated record exactly as large as its
      padded size. */
  lemma SplitSizes(bufs: seq<Buffer>, size: nat, k: nat, p: nat, b: Buffer)
    requires WellFormed(bufs, size) && k < |bufs| && bufs[k].free
    requires 0 < p <= BufferSize(bufs, size, k) && b.start == bufs[k].start
    requires !b.free ==> p == Padded(UsedSize(b.dataSize, b.offsetsSize, b.extraSize))
    ensures Tiles(SplitAndStamp(bufs, size, k, p, b), size)
    ensures AllocatedSizesMatch(SplitAndStamp(bufs, size, k, p, b), size)
  {
    var s := bufs[k].start;
    var splits := BufferSize(bufs, size, k) != p;
    var r := SplitAndStamp(bufs, size, k, p, b);
    SplitTiles(bufs, size, k, p, b);
    if splits {
      InsertAfterEnds(bufs, size, k, FreeRecord(s + p));
    }
    forall j | 0 <= j < |r| && !r[j].free
      ensures BufferSize(r, size, j) == Padded(UsedSize(r[j].dataSize, r[j].offsetsSize, r[j].extraSize))
    {
      if j < k {
        assert r[j] == bufs[j] && End(r, size, j) == End(bufs, size, j);
      } else if j > k && splits {
        assert j > k + 1;
        assert r[j] == bufs[j - 1] && End(r, size, j) == End(bufs, size, j - 1);
      } else if j > k {
        assert r[j] == bufs[j] && End(r, size, j) == End(bufs, size, j);
      }
    }
  }

  /** An allocated stamp leaves no two free records next to each other. */
  lemma SplitNoAdjacentFree(bufs: seq<Buffer>, size: nat, k: nat, p: nat, b: Buffer)
    requires WellFormed(bufs, size) && k < |bufs| && bufs[k].free && !b.free
    ensures NoAdjacentFree(SplitAndStamp(bufs, size, k, p, b))
  {
    var splits := BufferSize(bufs, size, k) != p;
    var r := SplitAndStamp(bufs, size, k, p, b);
    SplitShape(bufs, size, k, p, b);
    forall j | 0 <= j < |r| - 1 ensures !r[j].free || !r[j + 1].free {
      if j + 1 < k {
        assert r[j] == bufs[j] && r[j + 1] == bufs[j + 1];
      } else if j > k && splits {
        if j == k + 1 {
          assert r[j + 1] == bufs[k + 1];
        } else {
          assert r[j] == bufs[j - 1] && r[j + 1] == bufs[j];
        }
      } else if j > k {
        assert r[j] == bufs[j] && r[j + 1] == bufs[j + 1];
      }
    }
  }

  /** Removing a record keeps the list ordered; the record before it now ends where
      the removed one ended, and every other record keeps its end. */
  lemma RemoveAtEnds(bufs: seq<Buffer>, size: nat, j: nat)
    requires Tiles(bufs, size) && 0 < j < |bufs|
    ensures var r := RemoveAt(bufs, j);
      && Tiles(r, size)
      && End(r, size, j - 1) == End(bufs, size, j)
      && (forall i :: 0 <= i < j - 1 ==> End(r, size, i) == End(bufs, size, i))
      && (forall i :: j <= i < |r| ==> End(r, size, i) == End(bufs, size, i + 1))
  {
    var r := RemoveAt(bufs, j);
    forall a, b | 0 <= a < b < |r| ensures r[a].start < r[b].start {
      if b < j {
        assert r[a] == bufs[a] && r[b] == bufs[b];
      } else if a < j {
        assert r[a] == bufs[a] && r[b] == bufs[b + 1];
      } else {
        assert r[a] == bufs[a + 1] && r[b] == bufs[b + 1];
      }
    }
  }

  /** Merging free record `j` into the free record before it leaves every allocated
      record, and its size, as it was. */
  lemma MergeKeepsSizes(bufs: seq<Buffer>, size: nat, j: nat)
    requires Tiles(bufs, size) && AllocatedSizesMatch(bufs, size)
    requires 0 < j < |bufs| && bufs[j - 1].free
    ensures Tiles(RemoveAt(bufs, j), size) && AllocatedSizesMatch(RemoveAt(bufs, j), size)
  {
    var r := RemoveAt(bufs, j);
    RemoveAtEnds(bufs, size, j);
    forall i | 0 <= i < |r| && !r[i].free
      ensures BufferSize(r, size, i) == Padded(UsedSize(r[i].dataSize, r[i].offsetsSize, r[i].extraSize))
    {
      if i < j - 1 {
        assert r[i] == bufs[i] && End(r, size, i) == End(bufs, size, i);
      } else if i >= j {
        assert r[i] == bufs[i + 1] && End(r, size, i) == End(bufs, size, i + 1);
      }
    }
  }

  /** Marking allocated record `k` free keeps the list and the sizes of the other
      allocated records. */
  lemma MarkFreeKeepsSizes(bufs: seq<Buffer>, size: nat, k: nat)
    requires Tiles(bufs, size) && AllocatedSizesMatch(bufs, size) && k < |bufs|
    ensures var r := bufs[k := bufs[k].(free := true)];
      Tiles(r, size) && AllocatedSizesMatch(r, size)
  {
    var r := bufs[k := bufs[k].(free := true)];
    UpdateKeepsTiles(bufs, size, k, bufs[k].(free := true));
    forall i | 0 <= i < |r| && !r[i].free
      ensures BufferSize(r, size, i) == Padded(UsedSize(r[i].dataSize, r[i].offsetsSize, r[i].extraSize))
    {
      assert r[i] == bufs[i] && End(r, size, i) == End(bufs, size, i);
    }
  }

  /** Whether freeing record `k` absorbs a free next neighbour. */
  predicate MergesNext(bufs: seq<Buffer>, k: nat)
    requires k < |bufs|
  {
    k + 1 < |bufs| && bufs[k + 1].free
  }

  /** Whether freeing record `k` is absorbed by a free previous neighbour. */
  predicate MergesPrev(bufs: seq<Buffer>, k: nat)
    requires k < |bufs|
  {
    k > 0 && bufs[k - 1].free
  }

  /** The start of the free record that holds record `k`'s bytes after it is freed:
      the previous record's when that one absorbs it. */
  function Survivor(bufs: seq<Buffer>, k: nat): nat
    requires k < |bufs|
  {
    if MergesPrev(bufs, k) then bufs[k - 1].start else bufs[k].start
  }

  /** The record list after binder_free_buf_locked has freed record `k`: the record
      is marked free, a free next neighbour is absorbed into it, and a free previous
      neighbour then absorbs it. */
  function FreedList(bufs: seq<Buffer>, k: nat): seq<Buffer>
    requires k < |bufs|
  {
    var marked := bufs[k := bufs[k].(free := true)];
    var b := if MergesNext(bufs, k) then RemoveAt(marked, k + 1) else marked;
    if MergesPrev(bufs, k) then RemoveAt(b, k) else b
  }

  /** Freeing keeps the list well formed (it still tiles the region and no two free
      records are neighbours), takes the record out of the allocated index, takes an
      absorbed next neighbour out of the free index and puts the survivor in. */
  lemma {:induction false} FreedListWellFormed(bufs: seq<Buffer>, size: nat, k: nat)
    requires WellFormed(bufs, size) && k < |bufs| && !bufs[k].free
    ensures var r := FreedList(bufs, k);
      && WellFormed(r, size)
      && StartsWhere(r, false) == StartsWhere(bufs, false) - {bufs[k].start}
      && StartsWhere(r, true) ==
           (StartsWhere(bufs, true) - (if MergesNext(bufs, k) then {bufs[k + 1].start} else {}))
           + {Survivor(bufs, k)}
  {
    FreedListSizes(bufs, size, k);
    FreedListNoAdjacentFree(bufs, size, k);
    FreedListIndices(bufs, size, k);
  }

  lemma FreedListSizes(bufs: seq<Buffer>, size: nat, k: nat)
    requires Tiles(bufs, size) && AllocatedSizesMatch(bufs, size) && k < |bufs|
    ensures Tiles(FreedList(bufs, k), size) && AllocatedSizesMatch(FreedList(bufs, k), size)
  {
    var marked := bufs[k := bufs[k].(free := true)];
    MarkFreeKeepsSizes(bufs, size, k);
    var b := if MergesNext(bufs, k) then RemoveAt(marked, k + 1) else marked;
    if MergesNext(bufs, k) {
      MergeKeepsSizes(marked, size, k + 1);
    }
    if MergesPrev(bufs, k) {
      assert b[k - 1] == bufs[k - 1];
      MergeKeepsSizes(b, size, k);
    }
  }

  /** The record that survives freeing record `k`. */
  function SurvivorRecord(bufs: seq<Buffer>, k: nat): Buffer
    requires k < |bufs|
  {
    if MergesPrev(bufs, k) then bufs[k - 1] else bufs[k].(free := true)
  }

  /** Freeing replaces records `First..Last-1` (the freed one and the neighbours it
      merges with) by the surviving record. */
  function FirstMerged(bufs: seq<Buffer>, k: nat): nat
    requires k < |bufs|
  {
    if MergesPrev(bufs, k) then k - 1 else k
  }

  function LastMerged(bufs: seq<Buffer>, k: nat): nat
    requires k < |bufs|
  {
    if MergesNext(bufs, k) then k + 2 else k + 1
  }

  lemma FreedListShape(bufs: seq<Buffer>, k: nat)
    requires k < |bufs|
    ensures var p, q := FirstMerged(bufs, k), LastMerged(bufs, k);
      p < q <= |bufs| &&
      FreedList(bufs, k) == bufs[..p] + [SurvivorRecord(bufs, k)] + bufs[q..]
  {
    var marked := bufs[k := bufs[k].(free := true)];
    var b := if MergesNext(bufs, k) then RemoveAt(marked, k + 1) else marked;
    var p, q := FirstMerged(bufs, k), LastMerged(bufs, k);
    assert b == bufs[..k] + [bufs[k].(free := true)] + bufs[q..];
    if MergesPrev(bufs, k) {
      assert RemoveAt(b, k) == bufs[..k - 1] + [bufs[k - 1]] + bufs[q..];
    }
  }

  /** The starts of records `p..q-1`. */
  function StartsBetween(bufs: seq<Buffer>, p: nat, q: nat): set<nat>
    requires p <= q <= |bufs|
  {
    set i | p <= i < q :: bufs[i].start
  }

  lemma SpliceFromNew(bufs: seq<Buffer>, p: nat, q: nat, x: Buffer, free: bool, t: nat)
    requires p < q <= |bufs| && Sorted(bufs)
    requires t in StartsWhere(bufs[..p] + [x] + bufs[q..], free)
    ensures t in (StartsWhere(bufs, free) - StartsBetween(bufs, p, q)) + (if x.free == free then {x.start} else {})
  {
    var r := bufs[..p] + [x] + bufs[q..];
    var i :| 0 <= i < |r| && r[i].free == free && r[i].start == t;
    if i < p {
      assert r[i] == bufs[i];
      assert t in StartsWhere(bufs, free);
      forall j | p <= j < q ensures bufs[j].start != t { }
    } else if i > p {
      var o := i - p - 1 + q;
      assert r[i] == bufs[o];
      assert t in StartsWhere(bufs, free);
      forall j | p <= j < q ensures bufs[j].start != t { assert j < o; }
    }
  }

  lemma SpliceFromOld(bufs: seq<Buffer>, p: nat, q: nat, x: Buffer, free: bool, t: nat)
    requires p < q <= |bufs|
    requires t in StartsWhere(bufs, free) - StartsBetween(bufs, p, q)
    ensures t in StartsWhere(bufs[..p] + [x] + bufs[q..], free)
  {
    var r := bufs[..p] + [x] + bufs[q..];
    assert forall j | p <= j < q :: bufs[j].start in StartsBetween(bufs, p, q);
    var i :| 0 <= i < |bufs| && bufs[i].free == free && bufs[i].start == t;
    if i < p {
      assert r[i] == bufs[i];
    } else if i >= q {
      assert r[i - q + p + 1] == bufs[i];
    }
  }

  /** Replacing records `p..q-1` of a sorted list by `x` takes their starts out of
      the index and puts `x`'s in. */
  lemma StartsWhereSplice(bufs: seq<Buffer>, p: nat, q: nat, x: Buffer, free: bool)
    requires p < q <= |bufs|
    requires Sorted(bufs)
    ensures StartsWhere(bufs[..p] + [x] + bufs[q..], free) ==
      (StartsWhere(bufs, free) - StartsBetween(bufs, p, q))
      + (if x.free == free then {x.start} else {})
  {
    var r := bufs[..p] + [x] + bufs[q..];
    var rhs := (StartsWhere(bufs, free) - StartsBetween(bufs, p, q)) + (if x.free == free then {x.start} else {});
    forall t | t in StartsWhere(r, free) ensures t in rhs {
      SpliceFromNew(bufs, p, q, x, free, t);
    }
    forall t | t in rhs ensures t in StartsWhere(r, free) {
      if t in StartsWhere(bufs, free) - StartsBetween(bufs, p, q) {
        SpliceFromOld(bufs, p, q, x, free, t);
      } else {
        assert r[p] == x;
      }
    }
  }

  lemma FreedListNoAdjacentFree(bufs: seq<Buffer>, size: nat, k: nat)
    requires NoAdjacentFree(bufs) && k < |bufs| && !bufs[k].free
    ensures NoAdjacentFree(FreedList(bufs, k))
  {
    var p, q := FirstMerged(bufs, k), LastMerged(bufs, k);
    FreedListShape(bufs, k);
    var r := FreedList(bufs, k);
    forall i | 0 <= i < |r| - 1 ensures !r[i].free || !r[i + 1].free {
      if i + 1 < p {
        assert r[i] == bufs[i] && r[i + 1] == bufs[i + 1];
      } else if i + 1 == p {
        assert r[i] == bufs[i];
        if MergesPrev(bufs, k) { assert bufs[i + 1].free; }
      } else if i == p {
        assert r[i + 1] == bufs[q];
        if MergesNext(bufs, k) { assert bufs[q - 1].free; }
      } else {
        assert r[i] == bufs[i - p + q - 1] && r[i + 1] == bufs[i - p + q];
      }
    }
  }

  lemma StartsBetweenStep(bufs: seq<Buffer>, p: nat, q: nat)
    requires p <= q < |bufs|
    ensures StartsBetween(bufs, p, q + 1) == StartsBetween(bufs, p, q) + {bufs[q].start}
    ensures StartsBetween(bufs, p, p) == {}
  {
  }

  /** A start is in the index of its own kind and, the list being sorted, in no other. */
  lemma StartsWhereExclusive(bufs: seq<Buffer>, i: nat)
    requires Sorted(bufs) && i < |bufs|
    ensures bufs[i].start in StartsWhere(bufs, bufs[i].free)
    ensures bufs[i].start !in StartsWhere(bufs, !bufs[i].free)
  {
    if bufs[i].start in StartsWhere(bufs, !bufs[i].free) {
      var j :| 0 <= j < |bufs| && bufs[j].free == !bufs[i].free && bufs[j].start == bufs[i].start;
      StartsUnique(bufs, i, j);
    }
  }

  /** The two indices after the merged records are replaced by the survivor. */
  lemma SpliceIndices(bufs: seq<Buffer>, k: nat, free: bool)
    requires Sorted(bufs) && k < |bufs| && !bufs[k].free
    ensures var p, q := FirstMerged(bufs, k), LastMerged(bufs, k);
      p < q <= |bufs| &&
      StartsWhere(bufs[..p] + [SurvivorRecord(bufs, k)] + bufs[q..], free) ==
        if free then
          (StartsWhere(bufs, true) - (if MergesNext(bufs, k) then {bufs[k + 1].start} else {}))
          + {Survivor(bufs, k)}
        else StartsWhere(bufs, false) - {bufs[k].start}
  {
    var p, q := FirstMerged(bufs, k), LastMerged(bufs, k);
    StartsWhereSplice(bufs, p, q, SurvivorRecord(bufs, k), free);
    StartsBetweenStep(bufs, p, p);
    StartsBetweenStep(bufs, p, k);
    StartsWhereExclusive(bufs, k);
    if MergesPrev(bufs, k) {
      StartsBetweenStep(bufs, p, p + 1);
      StartsWhereExclusive(bufs, k - 1);
    }
    if MergesNext(bufs, k) {
      StartsBetweenStep(bufs, p, k + 1);
      StartsWhereExclusive(bufs, k + 1);
    }
  }

  lemma FreedListIndices(bufs: seq<Buffer>, size: nat, k: nat)
    requires Sorted(bufs) && k < |bufs| && !bufs[k].free
    ensures var r := FreedList(bufs, k);
      && StartsWhere(r, false) == StartsWhere(bufs, false) - {bufs[k].start}
      && StartsWhere(r, true) ==
           (StartsWhere(bufs, true) - (if MergesNext(bufs, k) then {bufs[k + 1].start} else {}))
           + {Survivor(bufs, k)}
  {
    FreedListShape(bufs, k);
    SpliceIndices(bufs, k, true);
    SpliceIndices(bufs, k, false);
  }

  /** Every allocated record left after a free was an allocated record before it,
      unchanged. */
  lemma FreedKeepsAllocated(bufs: seq<Buffer>, k: nat)
    requires k < |bufs|
    ensures forall b :: b in FreedList(bufs, k) && !b.free ==> b in bufs
  {
    FreedListShape(bufs, k);
  }

  /** A well-formed list without allocated records is one free record covering
      the whole region. */
  lemma {:induction false} AllFreeIsOneRecord(bufs: seq<Buffer>, size: nat)
    requires WellFormed(bufs, size) && StartsWhere(bufs, false) == {}
    ensures |bufs| == 1 && bufs[0].start == 0 && bufs[0].free
  {
    assert |bufs| >= 2 ==> !bufs[0].free || !bufs[1].free;
    forall j | 0 <= j < |bufs| ensures bufs[j].free {
      assert bufs[j].start !in StartsWhere(bufs, false);
    }
  }
}
