/** Which pages of the region must be present.

    A page of the region is needed while some allocated buffer overlaps it.  The
    allocator keeps exactly the needed pages committed and off the LRU list
    ("active"); it gives a page to the LRU when the last allocated buffer touching
    it goes away, and takes it back (or commits a fresh one) when a buffer is
    allocated over it.  This module defines "needed" on the record list and proves
    that the page ranges computed by binder_alloc_new_buf_locked,
    binder_free_buf_locked and binder_delete_free_buffer are exactly the pages
    whose neededness changes.
 */
module Pages {
  import opened Arith
  import opened Records
  import opened Coalesce

  /** struct binder_lru_page: no page, or a page that is either in use or parked
      on the global LRU list, with its contents. */
  datatype Page = Uncommitted | Committed(onLru: bool, data: seq<bv8>)

  predicate Active(pg: Page) { pg.Committed? && !pg.onLru }

  /** Record `j` is allocated and overlaps page `i`. */
  ghost predicate Touches(bufs: seq<Buffer>, size: nat, j: nat, i: nat)
    requires j < |bufs|
  {
    !bufs[j].free && bufs[j].start < (i + 1) * PAGE_SIZE && i * PAGE_SIZE < End(bufs, size, j)
  }

  /** Page `i` overlaps some allocated record. */
  ghost predicate Needed(bufs: seq<Buffer>, size: nat, i: nat) {
    exists j :: 0 <= j < |bufs| && Touches(bufs, size, j, i)
  }

  /** Page `i` overlaps some allocated record other than record `k`. */
  ghost predicate NeededByOthers(bufs: seq<Buffer>, size: nat, k: nat, i: nat) {
    exists j :: 0 <= j < |bufs| && j != k && Touches(bufs, size, j, i)
  }

  /** Page `i` overlaps an allocated record before record `k`. */
  ghost predicate NeededBefore(bufs: seq<Buffer>, size: nat, k: nat, i: nat) {
    exists j :: 0 <= j < k && j < |bufs| && Touches(bufs, size, j, i)
  }

  /** Page `i` overlaps an allocated record after record `k`. */
  ghost predicate NeededAfter(bufs: seq<Buffer>, size: nat, k: nat, i: nat) {
    exists j :: k < j < |bufs| && Touches(bufs, size, j, i)
  }

  // ---- freeing ----

  /** A record of `bufs` outside positions `p..q-1` keeps its end when those
      positions are replaced by one record starting where they started. */
  lemma SpliceKeepsEnd(bufs: seq<Buffer>, size: nat, p: nat, q: nat, x: Buffer, j: nat)
    requires p < q <= |bufs| && x.start == bufs[p].start
    requires j < |bufs| && (j < p || q <= j)
    ensures var r := bufs[..p] + [x] + bufs[q..];
      var o := if j < p then j else j - q + p + 1;
      o < |r| && r[o] == bufs[j] && End(r, size, o) == End(bufs, size, j)
  {
  }

  lemma SpliceTouchesFrom(bufs: seq<Buffer>, size: nat, p: nat, q: nat, x: Buffer, j: nat, i: nat)
    requires p < q <= |bufs| && x.start == bufs[p].start && x.free
    requires j < |bufs| - (q - p) + 1
    requires Touches(bufs[..p] + [x] + bufs[q..], size, j, i)
    ensures var o := if j < p then j else j - p - 1 + q;
      j != p && o < |bufs| && (o < p || q <= o) && Touches(bufs, size, o, i)
  {
    var r := bufs[..p] + [x] + bufs[q..];
    var o := if j < p then j else j - p - 1 + q;
    assert j != p;
    SpliceKeepsEnd(bufs, size, p, q, x, o);
  }

  lemma FreedKeepsOthers(bufs: seq<Buffer>, size: nat, k: nat, i: nat)
    requires Sorted(bufs) && k < |bufs| && !bufs[k].free
    ensures Needed(FreedList(bufs, k), size, i) <==> NeededByOthers(bufs, size, k, i)
  {
    var p, q := FirstMerged(bufs, k), LastMerged(bufs, k);
    var x := SurvivorRecord(bufs, k);
    FreedListShape(bufs, k);
    var r := bufs[..p] + [x] + bufs[q..];
    if Needed(r, size, i) {
      var j :| 0 <= j < |r| && Touches(r, size, j, i);
      SpliceTouchesFrom(bufs, size, p, q, x, j, i);
    }
    if NeededByOthers(bufs, size, k, i) {
      var j :| 0 <= j < |bufs| && j != k && Touches(bufs, size, j, i);
      SpliceKeepsEnd(bufs, size, p, q, x, j);
      var o := if j < p then j else j - q + p + 1;
      assert Touches(r, size, o, i);
    }
  }

  /** The page floor of an address inside page `i` is the start of page `i`. */
  lemma FloorOfPage(x: int, i: int)
    requires i * PAGE_SIZE <= x < (i + 1) * PAGE_SIZE
    ensures PageFloor(x) == i * PAGE_SIZE
  {
    var f := PageFloor(x);
    assert f % PAGE_SIZE == 0 && f <= x < f + PAGE_SIZE;
    var m := f / PAGE_SIZE;
    assert f == m * PAGE_SIZE;
    assert m < i ==> (m + 1) * PAGE_SIZE <= i * PAGE_SIZE;
    assert m > i ==> m * PAGE_SIZE >= (i + 1) * PAGE_SIZE;
  }

  /** A page-aligned region end never falls strictly inside a page. */
  lemma AlignedNotInside(size: nat, i: nat)
    requires size % PAGE_SIZE == 0
    ensures !(i * PAGE_SIZE < size < (i + 1) * PAGE_SIZE)
  {
    var m := size / PAGE_SIZE;
    assert size == m * PAGE_SIZE;
    assert m <= i ==> size <= i * PAGE_SIZE;
    assert m > i ==> size >= (i + 1) * PAGE_SIZE;
  }

  /** The allocated records before record `k` that overlap the page holding `k`'s
      start: there is one exactly when the previous record is allocated, or is free
      but starts after the beginning of that page (then the record before it
      reaches into the page). */
  lemma LeftOthers(bufs: seq<Buffer>, size: nat, k: nat, i: nat)
    requires Tiles(bufs, size) && NoAdjacentFree(bufs) && k < |bufs|
    requires i * PAGE_SIZE < bufs[k].start < (i + 1) * PAGE_SIZE
    ensures k > 0
    ensures NeededBefore(bufs, size, k, i) <==>
      (!bufs[k - 1].free || PageFloor(bufs[k - 1].start - 1) == i * PAGE_SIZE)
  {
    var P := bufs[k - 1];
    if NeededBefore(bufs, size, k, i) {
      var j :| 0 <= j < k && j < |bufs| && Touches(bufs, size, j, i);
      if j < k - 1 && P.free {
        assert End(bufs, size, j) == bufs[j + 1].start <= P.start;
        FloorOfPage(P.start - 1, i);
      }
    }
    if !P.free {
      assert Touches(bufs, size, k - 1, i);
    } else if PageFloor(P.start - 1) == i * PAGE_SIZE {
      assert k - 1 > 0;
      assert Touches(bufs, size, k - 2, i);
    }
  }

  /** The allocated records after record `k` that overlap the page holding `k`'s
      end: there is one exactly when the next record is allocated, or is free and
      the record after it starts on that page. */
  lemma RightOthers(bufs: seq<Buffer>, size: nat, k: nat, i: nat)
    requires Tiles(bufs, size) && NoAdjacentFree(bufs) && k < |bufs| && size % PAGE_SIZE == 0
    requires i * PAGE_SIZE < End(bufs, size, k) < (i + 1) * PAGE_SIZE
    ensures k + 1 < |bufs|
    ensures NeededAfter(bufs, size, k, i) <==>
      (!bufs[k + 1].free || (k + 2 < |bufs| && PageFloor(bufs[k + 2].start) == i * PAGE_SIZE))
  {
    AlignedNotInside(size, i);
    var N := bufs[k + 1];
    if NeededAfter(bufs, size, k, i) {
      var j :| k < j < |bufs| && Touches(bufs, size, j, i);
      if j > k + 1 && N.free {
        assert bufs[k + 2].start <= bufs[j].start;
        FloorOfPage(bufs[k + 2].start, i);
      }
    }
    if !N.free {
      assert Touches(bufs, size, k + 1, i);
    } else if k + 2 < |bufs| && PageFloor(bufs[k + 2].start) == i * PAGE_SIZE {
      assert Touches(bufs, size, k + 2, i);
    }
  }

  lemma PageIndexBounds(x: int, i: int)
    ensures x <= i * PAGE_SIZE ==> PageFloor(x + PAGE_SIZE - 1) <= i * PAGE_SIZE
    ensures (i + 1) * PAGE_SIZE <= x <==> i * PAGE_SIZE < PageFloor(x)
  {
    var f := PageFloor(x);
    var m := f / PAGE_SIZE;
    assert f == m * PAGE_SIZE;
    assert m <= i ==> f <= i * PAGE_SIZE;
    assert m > i ==> f >= (i + 1) * PAGE_SIZE;
    var g := PageFloor(x + PAGE_SIZE - 1);
    var n := g / PAGE_SIZE;
    assert g == n * PAGE_SIZE;
    assert n > i ==> g >= (i + 1) * PAGE_SIZE;
  }

  /** Page `i` lies wholly inside `[lo, hi)` exactly when it lies in the page range
      `[PAGE_ALIGN(lo), hi & PAGE_MASK)`. */
  lemma PageRangeInside(lo: nat, hi: nat, i: nat)
    ensures PageAlign(lo) <= i * PAGE_SIZE < PageFloor(hi) <==>
      lo <= i * PAGE_SIZE && (i + 1) * PAGE_SIZE <= hi
  {
    PageIndexBounds(lo, i);
    PageIndexBounds(hi, i);
    assert PageAlign(lo) == PageFloor(lo + PAGE_SIZE - 1);
    var a := PageAlign(lo);
    var m := a / PAGE_SIZE;
    assert a == m * PAGE_SIZE;
    assert m <= i ==> a <= i * PAGE_SIZE;
    assert m > i ==> a >= (i + 1) * PAGE_SIZE;
  }

  /** Page-range helpers of binder_delete_free_buffer. */
  function BufferStartPage(start: nat): (r: nat)
    ensures r % PAGE_SIZE == 0 && r <= start < r + PAGE_SIZE
  {
    PageFloor(start)
  }

  /** Called on the previous record, this is the page holding the byte just before
      that record's start. */
  function PrevBufferEndPage(start: nat): (r: int)
    ensures r % PAGE_SIZE == 0 && r <= start - 1 < r + PAGE_SIZE
  {
    PageFloor(start - 1)
  }

  /** binder_delete_free_buffer's decision to give away the page holding the start
      of the free record it deletes, from the starts of its previous record, of
      itself and of its next record (if any). */
  function DeleteReleasesStartPage(prevStart: nat, start: nat, next: Option<nat>): bool {
    && PrevBufferEndPage(prevStart) != BufferStartPage(start)
    && (next.None? || BufferStartPage(next.value) != BufferStartPage(start))
    && start % PAGE_SIZE != 0
  }

  function StartAt(bufs: seq<Buffer>, j: nat): Option<nat> {
    if j < |bufs| then Some(bufs[j].start) else None
  }

  /** The page range binder_free_buf_locked itself releases: the pages wholly
      inside the freed record. */
  ghost predicate FreeRangeReleases(bufs: seq<Buffer>, size: nat, k: nat, i: nat)
    requires k < |bufs|
  {
    PageAlign(bufs[k].start) <= i * PAGE_SIZE < PageFloor(End(bufs, size, k))
  }

  /** The page released when the free next record is deleted after merging into
      the freed one. */
  ghost predicate DeleteNextReleases(bufs: seq<Buffer>, size: nat, k: nat, i: nat)
    requires k < |bufs|
  {
    && MergesNext(bufs, k)
    && DeleteReleasesStartPage(bufs[k].start, bufs[k + 1].start, StartAt(bufs, k + 2))
    && i * PAGE_SIZE == BufferStartPage(bufs[k + 1].start)
  }

  /** The page released when the freed record is deleted after merging into the
      free previous one. */
  ghost predicate DeleteSelfReleases(bufs: seq<Buffer>, size: nat, k: nat, i: nat)
    requires k < |bufs|
  {
    && MergesPrev(bufs, k)
    && DeleteReleasesStartPage(bufs[k - 1].start, bufs[k].start, StartAt(bufs, LastMerged(bufs, k)))
    && i * PAGE_SIZE == BufferStartPage(bufs[k].start)
  }

  /** All pages freeing record `k` gives to the LRU list. */
  ghost predicate FreeReleases(bufs: seq<Buffer>, size: nat, k: nat, i: nat)
    requires k < |bufs|
  {
    FreeRangeReleases(bufs, size, k, i) || DeleteNextReleases(bufs, size, k, i)
      || DeleteSelfReleases(bufs, size, k, i)
  }

  lemma NotBefore(bufs: seq<Buffer>, size: nat, k: nat, i: nat)
    requires Sorted(bufs) && k < |bufs| && bufs[k].start <= i * PAGE_SIZE
    ensures !NeededBefore(bufs, size, k, i)
  {
    forall j | 0 <= j < k ensures End(bufs, size, j) <= bufs[k].start {
    }
  }

  lemma NotAfter(bufs: seq<Buffer>, size: nat, k: nat, i: nat)
    requires Sorted(bufs) && k < |bufs| && (i + 1) * PAGE_SIZE <= End(bufs, size, k)
    ensures !NeededAfter(bufs, size, k, i)
  {
    forall j | k < j < |bufs| ensures End(bufs, size, k) <= bufs[j].start {
    }
  }

  lemma NeededSplit(bufs: seq<Buffer>, size: nat, k: nat, i: nat)
    requires k < |bufs|
    ensures Needed(bufs, size, i) <==> Touches(bufs, size, k, i) || NeededByOthers(bufs, size, k, i)
    ensures NeededByOthers(bufs, size, k, i) <==> NeededBefore(bufs, size, k, i) || NeededAfter(bufs, size, k, i)
  {
    if NeededByOthers(bufs, size, k, i) {
      var j :| 0 <= j < |bufs| && j != k && Touches(bufs, size, j, i);
      assert j < k ==> NeededBefore(bufs, size, k, i);
    }
  }

  lemma UntouchedNotReleased(bufs: seq<Buffer>, size: nat, k: nat, i: nat)
    requires Tiles(bufs, size) && k < |bufs| && !bufs[k].free && !Touches(bufs, size, k, i)
    ensures !FreeReleases(bufs, size, k, i)
  {
    var s, e := bufs[k].start, End(bufs, size, k);
    assert s < e;
    PageRangeInside(s, e, i);
    assert MergesNext(bufs, k) ==> e == bufs[k + 1].start;
  }

  lemma ReleasedInside(bufs: seq<Buffer>, size: nat, k: nat, i: nat)
    requires Sorted(bufs) && k < |bufs|
    requires bufs[k].start <= i * PAGE_SIZE && (i + 1) * PAGE_SIZE <= End(bufs, size, k)
    ensures FreeReleases(bufs, size, k, i)
    ensures !NeededBefore(bufs, size, k, i) && !NeededAfter(bufs, size, k, i)
  {
    PageRangeInside(bufs[k].start, End(bufs, size, k), i);
    NotBefore(bufs, size, k, i);
    NotAfter(bufs, size, k, i);
  }

  /** The page holds the freed record's end but not its start. */
  lemma ReleasedAtEnd(bufs: seq<Buffer>, size: nat, k: nat, i: nat)
    requires Tiles(bufs, size) && NoAdjacentFree(bufs) && size % PAGE_SIZE == 0 && k < |bufs|
    requires bufs[k].start <= i * PAGE_SIZE < End(bufs, size, k) < (i + 1) * PAGE_SIZE
    ensures FreeReleases(bufs, size, k, i) <==>
      !NeededBefore(bufs, size, k, i) && !NeededAfter(bufs, size, k, i)
  {
    var s, e := bufs[k].start, End(bufs, size, k);
    RightOthers(bufs, size, k, i);
    NotBefore(bufs, size, k, i);
    PageRangeInside(s, e, i);
    FloorOfPage(e, i);
    assert e % PAGE_SIZE != 0;
    assert PrevBufferEndPage(s) < i * PAGE_SIZE;
    assert !DeleteSelfReleases(bufs, size, k, i);
  }

  /** The page holds the freed record's start but not its end. */
  lemma ReleasedAtStart(bufs: seq<Buffer>, size: nat, k: nat, i: nat)
    requires Tiles(bufs, size) && NoAdjacentFree(bufs) && k < |bufs|
    requires i * PAGE_SIZE < bufs[k].start < (i + 1) * PAGE_SIZE <= End(bufs, size, k)
    ensures FreeReleases(bufs, size, k, i) <==>
      !NeededBefore(bufs, size, k, i) && !NeededAfter(bufs, size, k, i)
  {
    var s, e := bufs[k].start, End(bufs, size, k);
    LeftOthers(bufs, size, k, i);
    NotAfter(bufs, size, k, i);
    PageRangeInside(s, e, i);
    FloorOfPage(s, i);
    assert s % PAGE_SIZE != 0;
    assert MergesNext(bufs, k) ==> BufferStartPage(bufs[k + 1].start) != i * PAGE_SIZE;
    var next := StartAt(bufs, LastMerged(bufs, k));
    assert next.Some? ==> next.value >= e;
  }

  /** The page holds both the freed record's start and its end. */
  lemma ReleasedAtBoth(bufs: seq<Buffer>, size: nat, k: nat, i: nat)
    requires Tiles(bufs, size) && NoAdjacentFree(bufs) && size % PAGE_SIZE == 0 && k < |bufs|
    requires i * PAGE_SIZE < bufs[k].start && End(bufs, size, k) < (i + 1) * PAGE_SIZE
    ensures FreeReleases(bufs, size, k, i) <==>
      !NeededBefore(bufs, size, k, i) && !NeededAfter(bufs, size, k, i)
  {
    var s, e := bufs[k].start, End(bufs, size, k);
    LeftOthers(bufs, size, k, i);
    RightOthers(bufs, size, k, i);
    PageRangeInside(s, e, i);
    FloorOfPage(s, i);
    FloorOfPage(s - 1, i);
    FloorOfPage(e, i);
    assert s % PAGE_SIZE != 0;
    assert !DeleteNextReleases(bufs, size, k, i);
  }

  /** The page-sharing rule is right: freeing record `k` gives to the LRU list
      exactly the pages that were needed and no longer are, and no page becomes
      needed. */
  lemma {:induction false} FreeReleasesExactly(bufs: seq<Buffer>, size: nat, k: nat, i: nat)
    requires Tiles(bufs, size) && NoAdjacentFree(bufs) && size % PAGE_SIZE == 0
    requires k < |bufs| && !bufs[k].free
    ensures FreeReleases(bufs, size, k, i) <==>
      Needed(bufs, size, i) && !Needed(FreedList(bufs, k), size, i)
    ensures Needed(FreedList(bufs, k), size, i) ==> Needed(bufs, size, i)
  {
    var s, e := bufs[k].start, End(bufs, size, k);
    FreedKeepsOthers(bufs, size, k, i);
    NeededSplit(bufs, size, k, i);
    if !Touches(bufs, size, k, i) {
      UntouchedNotReleased(bufs, size, k, i);
    } else if s <= i * PAGE_SIZE && (i + 1) * PAGE_SIZE <= e {
      ReleasedInside(bufs, size, k, i);
    } else if s <= i * PAGE_SIZE {
      ReleasedAtEnd(bufs, size, k, i);
    } else if (i + 1) * PAGE_SIZE <= e {
      ReleasedAtStart(bufs, size, k, i);
    } else {
      ReleasedAtBoth(bufs, size, k, i);
    }
  }

  /** The three page releases of a free never hit the same page twice, so every
      page is added to the LRU list once. */
  lemma FreeReleasesDisjoint(bufs: seq<Buffer>, size: nat, k: nat, i: nat)
    requires Tiles(bufs, size) && k < |bufs|
    ensures FreeRangeReleases(bufs, size, k, i) ==> !DeleteNextReleases(bufs, size, k, i)
    ensures FreeRangeReleases(bufs, size, k, i) ==> !DeleteSelfReleases(bufs, size, k, i)
    ensures DeleteNextReleases(bufs, size, k, i) ==> !DeleteSelfReleases(bufs, size, k, i)
  {
    var s, e := bufs[k].start, End(bufs, size, k);
    PageRangeInside(s, e, i);
    assert MergesNext(bufs, k) ==> e == bufs[k + 1].start;
    if DeleteNextReleases(bufs, size, k, i) && s % PAGE_SIZE != 0 {
      assert s < e;
      FloorOfPage(s - 1, PageFloor(s) / PAGE_SIZE);
    }
  }

  // ---- allocation ----

  /** The page range binder_alloc_new_buf_locked commits for a buffer of padded
      size `p` taken from free record `k`: from the first page boundary at or
      after the start, up to the end of the buffer rounded up, but never past the
      last page boundary inside the free record. */
  ghost predicate AllocCommits(bufs: seq<Buffer>, size: nat, k: nat, p: nat, i: nat)
    requires k < |bufs|
  {
    var s := bufs[k].start;
    PageAlign(s) <= i * PAGE_SIZE < Min(PageAlign(s + p), PageFloor(End(bufs, size, k)))
  }

  /** Record `k` allocated as `b`, ending at `split` (where a free record `f` now
      begins) or at its old end. */
  lemma StampedNeedsFrom(bufs: seq<Buffer>, size: nat, k: nat, b: Buffer, f: Buffer, split: bool, j: nat, i: nat)
    requires Tiles(bufs, size) && k < |bufs| && bufs[k].free
    requires b.start == bufs[k].start && f.free
    requires split ==> bufs[k].start < f.start < End(bufs, size, k)
    requires var r := if split then InsertAfter(bufs, k, f)[k := b] else bufs[k := b];
      j < |r| && j != k && Touches(r, size, j, i)
    ensures Needed(bufs, size, i)
  {
    var o := if split && j > k then j - 1 else j;
    assert Touches(bufs, size, o, i);
  }

  lemma StampedNeedsTo(bufs: seq<Buffer>, size: nat, k: nat, b: Buffer, f: Buffer, split: bool, j: nat, i: nat)
    requires Tiles(bufs, size) && k < |bufs| && bufs[k].free
    requires b.start == bufs[k].start && f.free
    requires split ==> bufs[k].start < f.start < End(bufs, size, k)
    requires j < |bufs| && Touches(bufs, size, j, i)
    ensures Needed(if split then InsertAfter(bufs, k, f)[k := b] else bufs[k := b], size, i)
  {
    assert j != k;
    if split {
      var m := InsertAfter(bufs, k, f);
      InsertAfterEnds(bufs, size, k, f);
      var o := if j > k then j + 1 else j;
      assert m[o] == bufs[j] && End(m, size, o) == End(bufs, size, j);
      assert m[k := b][o] == m[o] && End(m[k := b], size, o) == End(m, size, o);
      assert Touches(m[k := b], size, o, i);
    } else {
      assert bufs[k := b][j] == bufs[j] && End(bufs[k := b], size, j) == End(bufs, size, j);
      assert Touches(bufs[k := b], size, j, i);
    }
  }

  /** After allocation the pages needed are the ones needed before plus the pages
      the new buffer (`p` bytes, stamped as `b`) overlaps. */
  lemma SplitNeeds(bufs: seq<Buffer>, size: nat, k: nat, p: nat, b: Buffer, i: nat)
    requires Tiles(bufs, size) && k < |bufs| && bufs[k].free
    requires 0 < p <= BufferSize(bufs, size, k) && b.start == bufs[k].start && !b.free
    ensures var s := bufs[k].start;
      Needed(SplitAndStamp(bufs, size, k, p, b), size, i) <==>
        Needed(bufs, size, i) || (s < (i + 1) * PAGE_SIZE && i * PAGE_SIZE < s + p)
  {
    var s := bufs[k].start;
    var split := BufferSize(bufs, size, k) != p;
    var f := FreeRecord(s + p);
    var r := if split then InsertAfter(bufs, k, f)[k := b] else bufs[k := b];
    assert SplitAndStamp(bufs, size, k, p, b) == r;
    SplitTiles(bufs, size, k, p, b);
    if Needed(r, size, i) {
      var j :| 0 <= j < |r| && Touches(r, size, j, i);
      if j != k {
        StampedNeedsFrom(bufs, size, k, b, f, split, j, i);
      }
    }
    if Needed(bufs, size, i) {
      var j :| 0 <= j < |bufs| && Touches(bufs, size, j, i);
      StampedNeedsTo(bufs, size, k, b, f, split, j, i);
    }
    if s < (i + 1) * PAGE_SIZE && i * PAGE_SIZE < s + p {
      assert Touches(r, size, k, i);
    }
  }

  /** The commit range is exactly the set of pages the new buffer overlaps that no
      allocated record overlapped before. */
  lemma AllocCommitsNewlyNeeded(bufs: seq<Buffer>, size: nat, k: nat, p: nat, i: nat)
    requires Tiles(bufs, size) && NoAdjacentFree(bufs) && size % PAGE_SIZE == 0
    requires k < |bufs| && bufs[k].free && 0 < p <= BufferSize(bufs, size, k)
    ensures var s := bufs[k].start;
      AllocCommits(bufs, size, k, p, i) <==>
        (s < (i + 1) * PAGE_SIZE && i * PAGE_SIZE < s + p) && !Needed(bufs, size, i)
  {
    var s := bufs[k].start;
    var bs := BufferSize(bufs, size, k);
    NeededSplit(bufs, size, k, i);
    PageRangeInside(s, s + bs, i);
    PageIndexBounds(s + p, i);
    assert PageAlign(s + p) == PageFloor(s + p + PAGE_SIZE - 1);
    if AllocCommits(bufs, size, k, p, i) {
      NotBefore(bufs, size, k, i);
      NotAfter(bufs, size, k, i);
    } else if s < (i + 1) * PAGE_SIZE && i * PAGE_SIZE < s + p {
      if i * PAGE_SIZE < s {
        LeftOthers(bufs, size, k, i);
      } else {
        PageIndexBounds(s, i);
        assert PageAlign(s) == PageFloor(s + PAGE_SIZE - 1);
        RightOthers(bufs, size, k, i);
      }
    }
  }

  /** The commit range is right: allocating commits exactly the pages that become
      needed, and no page stops being needed. */
  lemma {:induction false} SplitCommitsExactly(bufs: seq<Buffer>, size: nat, k: nat, p: nat, b: Buffer, i: nat)
    requires Tiles(bufs, size) && NoAdjacentFree(bufs) && size % PAGE_SIZE == 0
    requires k < |bufs| && bufs[k].free
    requires 0 < p <= BufferSize(bufs, size, k) && b.start == bufs[k].start && !b.free
    ensures var r := SplitAndStamp(bufs, size, k, p, b);
      && (AllocCommits(bufs, size, k, p, i) <==> Needed(r, size, i) && !Needed(bufs, size, i))
      && (Needed(bufs, size, i) ==> Needed(r, size, i))
  {
    SplitNeeds(bufs, size, k, p, b, i);
    AllocCommitsNewlyNeeded(bufs, size, k, p, i);
  }

  // ---- the page array ----

  /** A freshly allocated page: alloc_page(__GFP_ZERO). */
  const ZERO_PAGE: seq<bv8> := Zeros(PAGE_SIZE)

  /** `n` zero bytes. */
  function Zeros(n: nat): (r: seq<bv8>)
    ensures |r| == n && forall i :: 0 <= i < n ==> r[i] == 0
  {
    if n == 0 then [] else Zeros(n - 1) + [0]
  }

  /** The contents a page has once committed: its own, or zeros if it is new. */
  function DataOf(pg: Page): seq<bv8> {
    if pg.Committed? then pg.data else ZERO_PAGE
  }

  /** The page committed and put on the LRU list (list_lru_add). */
  function OnLru(pg: Page): (r: Page)
    ensures r.Committed? && r.onLru && !Active(r)
  {
    Committed(true, DataOf(pg))
  }

  /** The invariant tying the page array to the record list: a page is active
      exactly when it is needed, every committed page lies below the high-water
      mark and holds a page of data. */
  ghost predicate PagesAgree(ps: seq<Page>, bufs: seq<Buffer>, size: nat, high: nat) {
    && |ps| == size / PAGE_SIZE
    && high <= |ps|
    && (forall i :: 0 <= i < |ps| ==> (Active(ps[i]) <==> Needed(bufs, size, i)))
    && (forall i :: 0 <= i < |ps| && ps[i].Committed? ==> i < high && |ps[i].data| == PAGE_SIZE)
  }

  /** Pages `lo..hi-1` of `before` committed (kept if present, zeroed if new) and
      put on or taken off the LRU list; the other pages unchanged. */
  ghost predicate CommittedRange(before: seq<Page>, after: seq<Page>, lo: nat, hi: nat, onLru: bool) {
    && |after| == |before|
    && forall i :: 0 <= i < |before| ==>
         after[i] == if lo <= i < hi then Committed(onLru, DataOf(before[i])) else before[i]
  }

  /** Pages `lo..hi-1` of `before` put on the LRU list; the other pages unchanged. */
  ghost predicate ReleasedRange(before: seq<Page>, after: seq<Page>, lo: nat, hi: nat) {
    && |after| == |before|
    && forall i :: 0 <= i < |before| ==>
         after[i] == if lo <= i < hi then OnLru(before[i]) else before[i]
  }

  /** Some page of `lo..hi-1` has no page yet (binder_update_page_range's need_mm). */
  predicate NeedsMm(ps: seq<Page>, lo: nat, hi: nat)
    requires hi <= |ps|
  {
    exists i :: lo <= i < hi && ps[i].Uncommitted?
  }

  /** The first missing page of `lo..hi-1` whose allocation or mapping fails;
      `failing` stands for alloc_page and vm_insert_page failures. */
  function FirstFailing(ps: seq<Page>, lo: nat, hi: nat, failing: set<nat>): (r: Option<nat>)
    requires hi <= |ps|
    ensures r.Some? ==> lo <= r.value < hi && ps[r.value].Uncommitted? && r.value in failing
    ensures r.Some? ==> forall j :: lo <= j < r.value ==> !(ps[j].Uncommitted? && j in failing)
    ensures r.None? ==> forall j :: lo <= j < hi ==> !(ps[j].Uncommitted? && j in failing)
    decreases hi
  {
    if hi <= lo then None
    else match FirstFailing(ps, lo, hi - 1, failing)
      case Some(f) => Some(f)
      case None => if ps[hi - 1].Uncommitted? && hi - 1 in failing then Some(hi - 1) else None
  }

  /** pages_high after committing pages `lo..hi-1` of `ps` in order. */
  function HighMark(ps: seq<Page>, lo: nat, hi: nat, high: nat): (r: nat)
    requires hi <= |ps|
    ensures r >= high
    ensures r <= high || r <= hi
    ensures forall i :: lo <= i < hi && ps[i].Uncommitted? ==> i < r
    decreases hi
  {
    if hi <= lo then high
    else
      var h := HighMark(ps, lo, hi - 1, high);
      if ps[hi - 1].Uncommitted? && hi > h then hi else h
  }

  /** The pages freeing record `k` puts on the LRU list are exactly those
      `FreeReleases` names; every other page is unchanged. */
  ghost predicate FreedPages(before: seq<Page>, after: seq<Page>, bufs: seq<Buffer>, size: nat, k: nat)
    requires k < |bufs|
  {
    && |after| == |before|
    && forall i :: 0 <= i < |before| ==>
         after[i] == if FreeReleases(bufs, size, k, i) then OnLru(before[i]) else before[i]
  }

  /** Committing a window that no record needs and putting it back on the LRU
      list leaves every page's activity as it was. */
  lemma {:induction false} AgreeAfterIdleCommit(ps: seq<Page>, ps2: seq<Page>, bufs: seq<Buffer>, size: nat, lo: nat, hi: nat, high: nat, high2: nat)
    requires PagesAgree(ps, bufs, size, high)
    requires forall i :: lo <= i < hi && i < |ps| ==> !Active(ps[i])
    requires CommittedRange(ps, ps2, lo, hi, true)
    requires high <= high2 <= |ps|
    requires forall i :: lo <= i < hi && i < |ps| && ps[i].Uncommitted? ==> i < high2
    ensures PagesAgree(ps2, bufs, size, high2)
  {
    forall i | 0 <= i < |ps|
      ensures (Active(ps2[i]) <==> Needed(bufs, size, i))
      ensures ps2[i].Committed? ==> i < high2 && |ps2[i].data| == PAGE_SIZE
    {
      if lo <= i < hi {
        assert ps2[i] == Committed(true, DataOf(ps[i]));
      }
    }
  }

  /** A commit of pages `lo..hi-1`, none of them active, that failed (no mm to
      map into, or a page that could not be allocated) keeps the page array in
      agreement with the unchanged list. */
  lemma {:induction false} AgreeAfterFailedCommit(ps: seq<Page>, ps2: seq<Page>, bufs: seq<Buffer>, size: nat, lo: nat, hi: nat, high: nat, high2: nat, mmOk: bool, failing: set<nat>)
    requires PagesAgree(ps, bufs, size, high) && hi <= |ps|
    requires forall i :: lo <= i < hi && i < |ps| ==> !Active(ps[i])
    requires NeedsMm(ps, lo, hi) && !mmOk ==> ps2 == ps && high2 == high
    requires !(NeedsMm(ps, lo, hi) && !mmOk) ==>
      && FirstFailing(ps, lo, hi, failing).Some?
      && CommittedRange(ps, ps2, lo, FirstFailing(ps, lo, hi, failing).value, true)
      && high2 == HighMark(ps, lo, FirstFailing(ps, lo, hi, failing).value, high)
    ensures PagesAgree(ps2, bufs, size, high2)
  {
    if !(NeedsMm(ps, lo, hi) && !mmOk) {
      AgreeAfterIdleCommit(ps, ps2, bufs, size, lo, FirstFailing(ps, lo, hi, failing).value, high, high2);
    }
  }

  /** Committing then releasing a window is committing it onto the LRU list. */
  lemma CommitThenRelease(ps: seq<Page>, ps1: seq<Page>, ps2: seq<Page>, lo: nat, hi: nat)
    requires CommittedRange(ps, ps1, lo, hi, false) && ReleasedRange(ps1, ps2, lo, hi)
    ensures CommittedRange(ps, ps2, lo, hi, true)
  {
  }

  /** The pages allocating `p` bytes in record `k` commits (exactly those
      `AllocCommits` names, taken off the LRU list or freshly zeroed), with the
      high-water mark raised past every new one; the other pages unchanged. */
  ghost predicate WindowCommitted(before: seq<Page>, after: seq<Page>, high: nat, high2: nat, bufs: seq<Buffer>, size: nat, k: nat, p: nat)
    requires k < |bufs|
  {
    && |after| == |before| && high <= high2 <= |before|
    && forall i :: 0 <= i < |before| ==>
         && after[i] == (if AllocCommits(bufs, size, k, p, i) then Committed(false, DataOf(before[i])) else before[i])
         && (AllocCommits(bufs, size, k, p, i) && before[i].Uncommitted? ==> i < high2)
  }

  /** The pages a refused allocation leaves: some pages of the window allocating
      `p` bytes in record `k` committed onto the LRU list, every other page as
      it was. */
  ghost predicate WindowRolledBack(before: seq<Page>, after: seq<Page>, bufs: seq<Buffer>, size: nat, k: nat, p: nat)
    requires k < |bufs|
  {
    && |after| == |before|
    && forall i :: 0 <= i < |before| ==>
         after[i] == before[i] || (AllocCommits(bufs, size, k, p, i) && after[i] == OnLru(before[i]))
  }

  /** `end_page_addr` of binder_alloc_new_buf_locked: the end of the window of
      pages allocating `p` bytes in record `k` commits. */
  function WindowEnd(bufs: seq<Buffer>, size: nat, k: nat, p: nat): (r: nat)
    requires Tiles(bufs, size) && k < |bufs|
    ensures r % PAGE_SIZE == 0 && r <= End(bufs, size, k)
  {
    var s := bufs[k].start;
    Min(PageAlign(s + p), PageFloor(End(bufs, size, k)))
  }

  /** The window, in page indices, is exactly what `AllocCommits` names. */
  lemma WindowRange(bufs: seq<Buffer>, size: nat, k: nat, p: nat)
    requires Tiles(bufs, size) && k < |bufs|
    ensures forall i: nat ::
      (PageAlign(bufs[k].start) / PAGE_SIZE <= i < WindowEnd(bufs, size, k, p) / PAGE_SIZE) <==> AllocCommits(bufs, size, k, p, i)
  {
  }

  /** No page of the window is active before the commit. */
  lemma WindowIdle(ps: seq<Page>, bufs: seq<Buffer>, size: nat, high: nat, k: nat, p: nat)
    requires Tiles(bufs, size) && NoAdjacentFree(bufs) && size % PAGE_SIZE == 0
    requires k < |bufs| && bufs[k].free && 0 < p <= BufferSize(bufs, size, k)
    requires PagesAgree(ps, bufs, size, high)
    ensures forall i :: PageAlign(bufs[k].start) / PAGE_SIZE <= i < WindowEnd(bufs, size, k, p) / PAGE_SIZE && i < |ps| ==>
      !Active(ps[i])
  {
    WindowRange(bufs, size, k, p);
    forall i | PageAlign(bufs[k].start) / PAGE_SIZE <= i < WindowEnd(bufs, size, k, p) / PAGE_SIZE && i < |ps|
      ensures !Active(ps[i])
    {
      AllocCommitsNewlyNeeded(bufs, size, k, p, i);
    }
  }

  /** The commit loop's range `lo..hi` is the window `AllocCommits` names. */
  lemma {:induction false} WindowFromRange(ps: seq<Page>, ps2: seq<Page>, bufs: seq<Buffer>, size: nat, k: nat, p: nat, lo: nat, hi: nat, high: nat)
    requires k < |bufs| && hi <= |ps|
    requires forall i: nat :: lo <= i < hi <==> AllocCommits(bufs, size, k, p, i)
    requires CommittedRange(ps, ps2, lo, hi, false) && high <= |ps|
    ensures WindowCommitted(ps, ps2, high, HighMark(ps, lo, hi, high), bufs, size, k, p)
  {
  }

  /** The commit loop's rollback, which leaves pages `lo..m-1` of the window on
      the LRU list, is a rollback of the window. */
  lemma {:induction false} RollbackInWindow(ps: seq<Page>, ps2: seq<Page>, bufs: seq<Buffer>, size: nat, k: nat, p: nat, lo: nat, m: nat)
    requires Tiles(bufs, size) && k < |bufs|
    requires lo == PageAlign(bufs[k].start) / PAGE_SIZE && m <= WindowEnd(bufs, size, k, p) / PAGE_SIZE
    requires CommittedRange(ps, ps2, lo, m, true)
    ensures WindowRolledBack(ps, ps2, bufs, size, k, p)
  {
    WindowRange(bufs, size, k, p);
  }

  /** Committing exactly the pages `AllocCommits` names keeps the page array in
      agreement with the list after the allocation. */
  lemma {:induction false} AgreeAfterCommit(ps: seq<Page>, ps2: seq<Page>, bufs: seq<Buffer>, size: nat, k: nat, p: nat, b: Buffer, high: nat, high2: nat)
    requires Tiles(bufs, size) && NoAdjacentFree(bufs) && size % PAGE_SIZE == 0
    requires k < |bufs| && bufs[k].free
    requires 0 < p <= BufferSize(bufs, size, k) && b.start == bufs[k].start && !b.free
    requires PagesAgree(ps, bufs, size, high)
    requires WindowCommitted(ps, ps2, high, high2, bufs, size, k, p)
    ensures PagesAgree(ps2, SplitAndStamp(bufs, size, k, p, b), size, high2)
  {
    var r := SplitAndStamp(bufs, size, k, p, b);
    forall i | 0 <= i < |ps|
      ensures (Active(ps2[i]) <==> Needed(r, size, i))
      ensures ps2[i].Committed? ==> i < high2 && |ps2[i].data| == PAGE_SIZE
    {
      SplitCommitsExactly(bufs, size, k, p, b, i);
    }
  }

  /** Committing the window and putting it back on the LRU list keeps the page
      array in agreement with the unchanged list. */
  lemma {:induction false} AgreeAfterWindowRelease(ps: seq<Page>, ps2: seq<Page>, bufs: seq<Buffer>, size: nat, k: nat, p: nat, high: nat, high2: nat)
    requires Tiles(bufs, size) && NoAdjacentFree(bufs) && size % PAGE_SIZE == 0
    requires k < |bufs| && bufs[k].free && 0 < p <= BufferSize(bufs, size, k)
    requires PagesAgree(ps, bufs, size, high)
    requires |ps2| == |ps| && high <= high2 <= |ps|
    requires forall i :: 0 <= i < |ps| ==>
      && ps2[i] == (if AllocCommits(bufs, size, k, p, i) then OnLru(ps[i]) else ps[i])
      && (AllocCommits(bufs, size, k, p, i) && ps[i].Uncommitted? ==> i < high2)
    ensures PagesAgree(ps2, bufs, size, high2)
  {
    forall i | 0 <= i < |ps|
      ensures (Active(ps2[i]) <==> Needed(bufs, size, i))
      ensures ps2[i].Committed? ==> i < high2 && |ps2[i].data| == PAGE_SIZE
    {
      AllocCommitsNewlyNeeded(bufs, size, k, p, i);
    }
  }

  /** Putting exactly the pages `FreeReleases` names on the LRU list keeps the page
      array in agreement with the list after the free. */
  lemma {:induction false} AgreeAfterFree(ps: seq<Page>, ps2: seq<Page>, bufs: seq<Buffer>, size: nat, k: nat, high: nat)
    requires Tiles(bufs, size) && NoAdjacentFree(bufs) && size % PAGE_SIZE == 0
    requires k < |bufs| && !bufs[k].free
    requires PagesAgree(ps, bufs, size, high)
    requires FreedPages(ps, ps2, bufs, size, k)
    ensures PagesAgree(ps2, FreedList(bufs, k), size, high)
  {
    var r := FreedList(bufs, k);
    forall i | 0 <= i < |ps|
      ensures (Active(ps2[i]) <==> Needed(r, size, i))
      ensures ps2[i].Committed? ==> i < high && |ps2[i].data| == PAGE_SIZE
    {
      FreeReleasesExactly(bufs, size, k, i);
    }
  }

  // ---- the free path, step by step ----

  /** `end & PAGE_MASK` of binder_free_buf_locked: the last page boundary inside
      record `k`. */
  function FreeRangeEnd(bufs: seq<Buffer>, size: nat, k: nat): (r: nat)
    requires k < |bufs|
    ensures r % PAGE_SIZE == 0 && r <= End(bufs, size, k) < r + PAGE_SIZE
  {
    End(bufs, size, k) / PAGE_SIZE * PAGE_SIZE
  }

  /** The pages freeing record `k` has put on the LRU list so far: those of its own
      range, then the start page of an absorbed next record (`withNext`), then its
      own start page when a free previous record absorbs it (`withSelf`). */
  ghost predicate PartlyFreed(before: seq<Page>, after: seq<Page>, bufs: seq<Buffer>, size: nat, k: nat, withNext: bool, withSelf: bool)
    requires k < |bufs|
  {
    && |after| == |before|
    && forall i :: 0 <= i < |before| ==>
         after[i] == if || FreeRangeReleases(bufs, size, k, i)
                        || (withNext && DeleteNextReleases(bufs, size, k, i))
                        || (withSelf && DeleteSelfReleases(bufs, size, k, i))
                     then OnLru(before[i]) else before[i]
  }

  /** The pages of the freed record's own range are active beforehand. */
  lemma FreeRangeActive(ps: seq<Page>, bufs: seq<Buffer>, size: nat, k: nat, high: nat)
    requires Tiles(bufs, size) && k < |bufs| && !bufs[k].free
    requires PagesAgree(ps, bufs, size, high)
    ensures FreeRangeEnd(bufs, size, k) <= |ps| * PAGE_SIZE
    ensures forall i :: PageAlign(bufs[k].start) / PAGE_SIZE <= i < FreeRangeEnd(bufs, size, k) / PAGE_SIZE ==>
      Active(ps[i])
  {
    assert End(bufs, size, k) <= size;
    forall i: nat | PageAlign(bufs[k].start) / PAGE_SIZE <= i < FreeRangeEnd(bufs, size, k) / PAGE_SIZE
      ensures i < |ps| && Active(ps[i])
    {
      assert Touches(bufs, size, k, i);
    }
  }

  /** Releasing the range `PAGE_ALIGN(start)..end & PAGE_MASK` is the first step. */
  lemma FreeRangeStep(ps: seq<Page>, ps1: seq<Page>, bufs: seq<Buffer>, size: nat, k: nat)
    requires k < |bufs|
    requires ReleasedRange(ps, ps1, PageAlign(bufs[k].start) / PAGE_SIZE, FreeRangeEnd(bufs, size, k) / PAGE_SIZE)
    ensures PartlyFreed(ps, ps1, bufs, size, k, false, false)
  {
  }

  /** The start page of a record about to be deleted is still active when freeing
      gives it away: it was needed, and no earlier step touched it. */
  lemma ActiveBeforeDelete(ps: seq<Page>, ps1: seq<Page>, bufs: seq<Buffer>, size: nat, k: nat, high: nat, withNext: bool, i: nat)
    requires Tiles(bufs, size) && NoAdjacentFree(bufs) && size % PAGE_SIZE == 0
    requires k < |bufs| && !bufs[k].free
    requires PagesAgree(ps, bufs, size, high) && i < |ps|
    requires PartlyFreed(ps, ps1, bufs, size, k, withNext, false)
    ensures (DeleteNextReleases(bufs, size, k, i) && !withNext) || DeleteSelfReleases(bufs, size, k, i) ==>
      Active(ps1[i])
  {
    FreeReleasesExactly(bufs, size, k, i);
    FreeReleasesDisjoint(bufs, size, k, i);
  }

  /** Putting a page on the LRU list twice is putting it there once. */
  lemma OnLruTwice(pg: Page)
    ensures OnLru(OnLru(pg)) == OnLru(pg)
  {
  }

  /** Deleting the absorbed next record is the second step. */
  lemma {:induction false} NextStep(ps: seq<Page>, ps1: seq<Page>, ps2: seq<Page>, bufs: seq<Buffer>, size: nat, k: nat)
    requires k < |bufs| && MergesNext(bufs, k)
    requires PartlyFreed(ps, ps1, bufs, size, k, false, false)
    requires var x := bufs[k + 1].start / PAGE_SIZE;
      ReleasedRange(ps1, ps2, x,
        if DeleteReleasesStartPage(bufs[k].start, bufs[k + 1].start, StartAt(bufs, k + 2)) then x + 1 else x)
    ensures PartlyFreed(ps, ps2, bufs, size, k, true, false)
  {
    var x := bufs[k + 1].start / PAGE_SIZE;
    forall i: nat | i < |ps|
      ensures DeleteNextReleases(bufs, size, k, i) <==>
        MergesNext(bufs, k) && DeleteReleasesStartPage(bufs[k].start, bufs[k + 1].start, StartAt(bufs, k + 2)) && i == x
      ensures ps2[i] == if FreeRangeReleases(bufs, size, k, i) || DeleteNextReleases(bufs, size, k, i)
        then OnLru(ps[i]) else ps[i]
    {
      SamePage(i, bufs[k + 1].start);
      OnLruTwice(ps[i]);
    }
  }

  lemma SamePage(i: nat, s: nat)
    ensures i * PAGE_SIZE == BufferStartPage(s) <==> i == s / PAGE_SIZE
  {
  }

  /** Deleting the freed record itself, absorbed by its previous record, is the
      last step. */
  lemma {:induction false} SelfStep(ps: seq<Page>, ps2: seq<Page>, ps3: seq<Page>, bufs: seq<Buffer>, size: nat, k: nat, withNext: bool)
    requires k < |bufs| && MergesPrev(bufs, k)
    requires PartlyFreed(ps, ps2, bufs, size, k, withNext, false)
    requires var x := bufs[k].start / PAGE_SIZE;
      ReleasedRange(ps2, ps3, x,
        if DeleteReleasesStartPage(bufs[k - 1].start, bufs[k].start, StartAt(bufs, LastMerged(bufs, k))) then x + 1 else x)
    ensures PartlyFreed(ps, ps3, bufs, size, k, withNext, true)
  {
    var x := bufs[k].start / PAGE_SIZE;
    forall i: nat | i < |ps|
      ensures DeleteSelfReleases(bufs, size, k, i) <==>
        MergesPrev(bufs, k) && DeleteReleasesStartPage(bufs[k - 1].start, bufs[k].start, StartAt(bufs, LastMerged(bufs, k))) && i == x
      ensures ps3[i] == if || FreeRangeReleases(bufs, size, k, i)
                           || (withNext && DeleteNextReleases(bufs, size, k, i))
                           || DeleteSelfReleases(bufs, size, k, i)
        then OnLru(ps[i]) else ps[i]
    {
      SamePage(i, bufs[k].start);
      OnLruTwice(ps[i]);
    }
  }

  /** After the steps that apply, the pages freed are exactly `FreedPages`. */
  lemma AllStepsFree(ps: seq<Page>, ps3: seq<Page>, bufs: seq<Buffer>, size: nat, k: nat, withNext: bool, withSelf: bool)
    requires k < |bufs|
    requires withNext == MergesNext(bufs, k) && withSelf == MergesPrev(bufs, k)
    requires PartlyFreed(ps, ps3, bufs, size, k, withNext, withSelf)
    ensures FreedPages(ps, ps3, bufs, size, k)
  {
  }

  // ---- teardown ----

  /** The pages that hold a physical page. */
  ghost function CommittedPages(ps: seq<Page>): set<nat> {
    set i: nat | i < |ps| && ps[i].Committed?
  }

  /** `after` holds a page exactly where `before` did, with the same bytes. */
  ghost predicate KeepsData(before: seq<Page>, after: seq<Page>) {
    && |after| == |before|
    && forall i :: 0 <= i < |before| ==>
         && (after[i].Committed? <==> before[i].Committed?)
         && (before[i].Committed? ==> after[i].data == before[i].data)
  }

  /** Freeing a record only moves active pages to the LRU list: no page is
      committed or released, and no byte changes. */
  lemma FreedKeepsData(before: seq<Page>, after: seq<Page>, bufs: seq<Buffer>, size: nat, k: nat, high: nat)
    requires Tiles(bufs, size) && NoAdjacentFree(bufs) && size % PAGE_SIZE == 0
    requires k < |bufs| && !bufs[k].free
    requires PagesAgree(before, bufs, size, high) && FreedPages(before, after, bufs, size, k)
    ensures KeepsData(before, after)
    ensures CommittedPages(after) == CommittedPages(before)
  {
    forall i | 0 <= i < |before|
      ensures after[i].Committed? <==> before[i].Committed?
      ensures before[i].Committed? ==> after[i].data == before[i].data
    {
      FreeReleasesExactly(bufs, size, k, i);
    }
  }

  /** Counting the committed pages one page at a time. */
  lemma {:induction false} CommittedPagesStep(ps: seq<Page>, i: nat)
    requires i < |ps|
    ensures |CommittedPages(ps[..i + 1])| ==
      |CommittedPages(ps[..i])| + (if ps[i].Committed? then 1 else 0)
  {
    var a, b := CommittedPages(ps[..i]), CommittedPages(ps[..i + 1]);
    assert i !in a;
    if ps[i].Committed? {
      assert b == a + {i};
    } else {
      assert b == a;
    }
  }
}
