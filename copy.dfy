/** The copy engine's arithmetic: which accesses to a buffer are allowed, how a
    buffer offset maps to a page and an offset in it, and what the page-chunked
    copy loops leave in the pages.

    Page contents are byte sequences; the bytes of the region are addressed by
    their offset `p` from the region start, which lives in page `p / PAGE_SIZE`
    at offset `p % PAGE_SIZE`.
 */
module Copy {
  import opened Arith
  import opened Records
  import opened Pages

  /** check_buffer: an access of `bytes` bytes at `offset` into record `k` is
      allowed when it lies inside the record, the offset is 4-byte aligned, the
      record is allocated, and either the user cannot free it yet or no
      transaction refers to it any more.  The C code computes
      `offset <= buffer_size - bytes` only after `buffer_size >= bytes`, so the
      subtraction never wraps. */
  function CheckBuffer(bufs: seq<Buffer>, size: nat, k: nat, offset: nat, bytes: nat): (ok: bool)
    requires Tiles(bufs, size) && k < |bufs|
    ensures ok <==>
      && bufs[k].start + offset + bytes <= End(bufs, size, k)
      && offset % 4 == 0
      && !bufs[k].free
      && (!bufs[k].allowUserFree || !bufs[k].hasTransaction)
  {
    var bufferSize := BufferSize(bufs, size, k);
    && bufferSize >= bytes
    && offset <= bufferSize - bytes
    && offset % 4 == 0
    && !bufs[k].free
    && (!bufs[k].allowUserFree || !bufs[k].hasTransaction)
  }

  /** binder_alloc_get_page: byte `offset` of the record starting at `start` is
      byte `pgoff` of page `index`. */
  function GetPage(start: nat, offset: nat): (r: (nat, nat))
    ensures var (index, pgoff) := r;
      index * PAGE_SIZE + pgoff == start + offset && pgoff < PAGE_SIZE
  {
    var spaceOffset := start + offset;
    (spaceOffset / PAGE_SIZE, spaceOffset % PAGE_SIZE)
  }

  /** The page and in-page offset GetPage returns are the only ones that name the
      byte. */
  lemma GetPageUnique(start: nat, offset: nat, index: nat, pgoff: nat)
    requires index * PAGE_SIZE + pgoff == start + offset && pgoff < PAGE_SIZE
    ensures GetPage(start, offset) == (index, pgoff)
  {
    PositionOf(index, pgoff);
  }

  lemma PositionOf(i: nat, j: nat)
    requires j < PAGE_SIZE
    ensures (i * PAGE_SIZE + j) / PAGE_SIZE == i && (i * PAGE_SIZE + j) % PAGE_SIZE == j
  {
  }

  /** `min(bytes, PAGE_SIZE - pgoff)`: one chunk of a copy loop. */
  function ChunkSize(bytes: nat, pgoff: nat): (r: nat)
    requires pgoff < PAGE_SIZE
    ensures r <= bytes && pgoff + r <= PAGE_SIZE
    ensures bytes > 0 ==> r > 0
  {
    Min(bytes, PAGE_SIZE - pgoff)
  }

  // ---- page contents ----

  /** Byte `p` of the region has a page holding it. */
  ghost predicate Present(ps: seq<Page>, p: nat) {
    && p / PAGE_SIZE < |ps|
    && ps[p / PAGE_SIZE].Committed?
    && p % PAGE_SIZE < |ps[p / PAGE_SIZE].data|
  }

  ghost function ByteAt(ps: seq<Page>, p: nat): bv8
    requires Present(ps, p)
  {
    ps[p / PAGE_SIZE].data[p % PAGE_SIZE]
  }

  /** Bytes `lo..lo+|d|-1` of the region are present and hold `d`. */
  ghost predicate Holds(ps: seq<Page>, lo: nat, d: seq<bv8>) {
    forall p: nat :: lo <= p < lo + |d| ==> Present(ps, p) && ByteAt(ps, p) == d[p - lo]
  }

  /** Every page keeps its state: only contents change. */
  ghost predicate SameStates(before: seq<Page>, after: seq<Page>) {
    && |after| == |before|
    && forall i :: 0 <= i < |before| ==>
         && after[i].Committed? == before[i].Committed?
         && (before[i].Committed? ==>
               after[i].onLru == before[i].onLru && |after[i].data| == |before[i].data|)
  }

  /** `after` is `before` with bytes `lo..lo+|d|-1` overwritten by `d`. */
  ghost predicate Wrote(before: seq<Page>, after: seq<Page>, lo: nat, d: seq<bv8>) {
    && SameStates(before, after)
    && Holds(after, lo, d)
    && forall p: nat :: Present(before, p) && Present(after, p) && !(lo <= p < lo + |d|) ==>
         ByteAt(after, p) == ByteAt(before, p)
  }

  /** Bytes `lo..hi-1` lie on active pages (committed, not on the LRU list). */
  ghost predicate ActiveRange(ps: seq<Page>, lo: nat, hi: nat) {
    forall p :: lo <= p < hi ==> p / PAGE_SIZE < |ps| && Active(ps[p / PAGE_SIZE])
  }

  /** Every committed page holds a page of data. */
  ghost predicate FullPages(ps: seq<Page>) {
    forall i :: 0 <= i < |ps| && ps[i].Committed? ==> |ps[i].data| == PAGE_SIZE
  }

  /** The page after `d` is written at offset `pgoff` (kmap + memcpy/memset). */
  function Overwrite(pg: Page, pgoff: nat, d: seq<bv8>): (r: Page)
    requires pg.Committed? && pgoff + |d| <= |pg.data|
    ensures r.Committed? && r.onLru == pg.onLru && |r.data| == |pg.data|
    ensures forall j :: 0 <= j < |r.data| ==>
      r.data[j] == if pgoff <= j < pgoff + |d| then d[j - pgoff] else pg.data[j]
  {
    Committed(pg.onLru, pg.data[..pgoff] + d + pg.data[pgoff + |d|..])
  }

  /** copy_from_user of `size` bytes from user position `pos`, where only the
      user bytes `from` are readable: the readable ones are copied, the rest of
      the destination is zero-filled, and the count not copied is returned. */
  function CopyFromUser(from: seq<bv8>, pos: nat, size: nat): (r: (seq<bv8>, nat))
    requires pos <= |from|
    ensures var (written, notCopied) := r;
      && |written| == size
      && notCopied == (if pos + size <= |from| then 0 else pos + size - |from|)
      && written == from[pos..pos + size - notCopied] + Zeros(notCopied)
  {
    if pos + size <= |from| then (from[pos..pos + size], 0)
    else (from[pos..] + Zeros(pos + size - |from|), pos + size - |from|)
  }

  /** Page `i` with the bytes it holds of region range `lo..lo+|d|-1` replaced
      by those of `d`. */
  function WrittenPage(pg: Page, i: nat, lo: nat, d: seq<bv8>): Page {
    if pg.Committed? then
      Committed(pg.onLru, seq(|pg.data|, j requires 0 <= j < |pg.data| =>
        if lo <= i * PAGE_SIZE + j < lo + |d| then d[i * PAGE_SIZE + j - lo] else pg.data[j]))
    else pg
  }

  /** The pages once `d` is written at region offset `lo`. */
  ghost function Written(ps: seq<Page>, lo: nat, d: seq<bv8>): seq<Page> {
    seq(|ps|, i requires 0 <= i < |ps| => WrittenPage(ps[i], i, lo, d))
  }

  /** Bytes `lo..lo+n-1` of the region, reading 0 where no page holds one. */
  ghost function Bytes(ps: seq<Page>, lo: nat, n: nat): seq<bv8> {
    seq(n, t requires 0 <= t < n => if Present(ps, lo + t) then ByteAt(ps, lo + t) else 0)
  }

  /** Writing nothing leaves the pages as they are. */
  lemma WrittenNothing(ps: seq<Page>, lo: nat)
    ensures Written(ps, lo, []) == ps
  {
    assert forall i :: 0 <= i < |ps| ==> Written(ps, lo, [])[i] == ps[i];
  }

  /** Writing a chunk that continues a write, inside one committed page,
      extends the write: this is one pass of the copy loops. */
  lemma {:induction false} WrittenStep(ps: seq<Page>, lo: nat, d1: seq<bv8>, d2: seq<bv8>, index: nat, pgoff: nat)
    requires FullPages(ps) && index < |ps| && ps[index].Committed?
    requires pgoff + |d2| <= PAGE_SIZE && index * PAGE_SIZE + pgoff == lo + |d1|
    ensures var w := Written(ps, lo, d1);
      w[index := Overwrite(w[index], pgoff, d2)] == Written(ps, lo, d1 + d2)
  {
    var w := Written(ps, lo, d1);
    var a := w[index := Overwrite(w[index], pgoff, d2)];
    var b := Written(ps, lo, d1 + d2);
    forall i | 0 <= i < |ps| ensures a[i] == b[i] {
      if i == index {
        var pg := ps[index];
        assert a[i].data == b[i].data by {
          forall j | 0 <= j < PAGE_SIZE ensures a[i].data[j] == b[i].data[j] {
          }
        }
      } else if ps[i].Committed? {
        forall j | 0 <= j < |ps[i].data| ensures a[i].data[j] == b[i].data[j] {
        }
      }
    }
  }

  /** What a write leaves, byte by byte: `d` is in place and nothing else
      changed, provided its range lies on committed full pages. */
  lemma {:induction false} WrittenMeans(ps: seq<Page>, lo: nat, d: seq<bv8>)
    requires ActiveRange(ps, lo, lo + |d|) && FullPages(ps)
    ensures Wrote(ps, Written(ps, lo, d), lo, d)
  {
    var w := Written(ps, lo, d);
    forall p: nat | lo <= p < lo + |d| ensures Present(w, p) && ByteAt(w, p) == d[p - lo] {
      assert Active(ps[p / PAGE_SIZE]);
      assert p == p / PAGE_SIZE * PAGE_SIZE + p % PAGE_SIZE;
    }
    forall p: nat | Present(ps, p) && Present(w, p) && !(lo <= p < lo + |d|)
      ensures ByteAt(w, p) == ByteAt(ps, p)
    {
      assert p == p / PAGE_SIZE * PAGE_SIZE + p % PAGE_SIZE;
    }
  }

  /** Reading a chunk that continues a read extends it. */
  lemma {:induction false} BytesStep(ps: seq<Page>, lo: nat, n: nat, index: nat, pgoff: nat, size: nat)
    requires index < |ps| && ps[index].Committed? && |ps[index].data| == PAGE_SIZE
    requires pgoff + size <= PAGE_SIZE && index * PAGE_SIZE + pgoff == lo + n
    ensures Bytes(ps, lo, n) + ps[index].data[pgoff..pgoff + size] == Bytes(ps, lo, n + size)
  {
    var a := Bytes(ps, lo, n) + ps[index].data[pgoff..pgoff + size];
    var b := Bytes(ps, lo, n + size);
    forall t | 0 <= t < n + size ensures a[t] == b[t] {
      if t >= n {
        PositionOf(index, pgoff + (t - n));
        assert lo + t == index * PAGE_SIZE + (pgoff + (t - n));
        assert Present(ps, lo + t);
      }
    }
  }

  /** What a read returns: the bytes of its range, provided the range lies on
      committed full pages. */
  lemma BytesMeans(ps: seq<Page>, lo: nat, n: nat)
    requires ActiveRange(ps, lo, lo + n) && FullPages(ps)
    ensures Holds(ps, lo, Bytes(ps, lo, n))
  {
    var d := Bytes(ps, lo, n);
    forall p: nat | lo <= p < lo + n ensures Present(ps, p) && ByteAt(ps, p) == d[p - lo] {
      ActivePresent(ps, lo, lo + n, p);
    }
  }

  /** A byte of an active range on full pages is present. */
  lemma ActivePresent(ps: seq<Page>, lo: nat, hi: nat, p: nat)
    requires ActiveRange(ps, lo, hi) && FullPages(ps) && lo <= p < hi
    ensures Present(ps, p)
  {
    assert Active(ps[p / PAGE_SIZE]);
  }

  /** Writing bytes keeps the page array in agreement with the record list:
      no page changes state. */
  lemma WrittenAgree(ps: seq<Page>, bufs: seq<Buffer>, size: nat, high: nat, lo: nat, d: seq<bv8>)
    requires PagesAgree(ps, bufs, size, high)
    ensures PagesAgree(Written(ps, lo, d), bufs, size, high)
  {
    var w := Written(ps, lo, d);
    assert forall i :: 0 <= i < |ps| ==> Active(w[i]) == Active(ps[i]) && w[i].Committed? == ps[i].Committed?;
  }

  /** The bytes of an allocated record lie on active pages. */
  lemma RecordActive(ps: seq<Page>, bufs: seq<Buffer>, size: nat, k: nat, high: nat)
    requires Tiles(bufs, size) && size % PAGE_SIZE == 0 && k < |bufs| && !bufs[k].free
    requires PagesAgree(ps, bufs, size, high)
    ensures ActiveRange(ps, bufs[k].start, End(bufs, size, k))
    ensures FullPages(ps)
  {
    forall p | bufs[k].start <= p < End(bufs, size, k)
      ensures p / PAGE_SIZE < |ps| && Active(ps[p / PAGE_SIZE])
    {
      var i := p / PAGE_SIZE;
      assert i * PAGE_SIZE <= p < (i + 1) * PAGE_SIZE;
      assert p < size;
      assert Touches(bufs, size, k, i);
    }
  }

  /** What check_buffer protects: every byte an allowed access touches lies
      inside the record, on an active page. */
  lemma CheckedAccessActive(ps: seq<Page>, bufs: seq<Buffer>, size: nat, k: nat, high: nat, offset: nat, bytes: nat)
    requires Tiles(bufs, size) && size % PAGE_SIZE == 0 && k < |bufs|
    requires PagesAgree(ps, bufs, size, high)
    requires CheckBuffer(bufs, size, k, offset, bytes)
    ensures ActiveRange(ps, bufs[k].start + offset, bufs[k].start + offset + bytes)
    ensures forall p :: bufs[k].start + offset <= p < bufs[k].start + offset + bytes ==>
      Owner(bufs, size, p) == k
  {
    RecordActive(ps, bufs, size, k, high);
    forall p | bufs[k].start + offset <= p < bufs[k].start + offset + bytes
      ensures Owner(bufs, size, p) == k
    {
      OwnerUnique(bufs, size, p, k);
    }
  }

  /** The bytes a fault leaves zeroed: the rest of the chunk in which the
      readable user bytes run out. */
  function FaultPad(lo: nat, bytes: nat, avail: nat): nat {
    if avail >= bytes then 0
    else Min(lo + bytes, (lo + avail) / PAGE_SIZE * PAGE_SIZE + PAGE_SIZE) - (lo + avail)
  }

  /** A chunk `lo+pos..lo+pos+size-1` that cannot be filled from the readable
      bytes ends where FaultPad says. */
  lemma FaultPadChunk(lo: nat, bytes: nat, avail: nat, pos: nat, size: nat, index: nat, pgoff: nat)
    requires pos <= avail < pos + size && pos + size <= bytes
    requires index * PAGE_SIZE + pgoff == lo + pos && pgoff < PAGE_SIZE
    requires size == ChunkSize(bytes - pos, pgoff)
    ensures FaultPad(lo, bytes, avail) == pos + size - avail
  {
    var q := lo + avail;
    assert index * PAGE_SIZE <= q < index * PAGE_SIZE + PAGE_SIZE;
    PositionOf(index, q - index * PAGE_SIZE);
    assert q / PAGE_SIZE == index;
  }

  /** Zeroing two adjacent stretches zeroes their union. */
  lemma ZerosAppend(a: nat, b: nat)
    ensures Zeros(a) + Zeros(b) == Zeros(a + b)
  {
    assert forall i :: 0 <= i < a + b ==> (Zeros(a) + Zeros(b))[i] == 0;
  }

  /** The page a copy loop maps for byte `start + off`, which lies in an active
      range, is a committed page of full size. */
  lemma ChunkOnActivePage(ps: seq<Page>, lo: nat, hi: nat, start: nat, off: nat)
    requires ActiveRange(ps, lo, hi) && FullPages(ps)
    requires lo <= start + off < hi
    ensures var (index, pgoff) := GetPage(start, off);
      index < |ps| && ps[index].Committed? && |ps[index].data| == PAGE_SIZE
  {
    var (index, pgoff) := GetPage(start, off);
    PositionOf(index, pgoff);
    assert Active(ps[(start + off) / PAGE_SIZE]);
  }

  /** One chunk of binder_alloc_copy_user_to_buffer, on the data copied so
      far: it grows by the chunk, or, when the readable user memory runs out
      inside the chunk, it ends with the readable bytes and the zero fill, and
      the loop returns the count of bytes not copied. */
  lemma {:induction false} UserChunk(lo: nat, bytes: nat, from: seq<bv8>, pos: nat, index: nat, pgoff: nat, size: nat)
    requires pos <= |from| && pos < bytes
    requires index * PAGE_SIZE + pgoff == lo + pos && pgoff < PAGE_SIZE
    requires size == ChunkSize(bytes - pos, pgoff)
    ensures var (written, notCopied) := CopyFromUser(from, pos, size);
      && (notCopied == 0 ==> pos + size <= |from| && from[..pos] + written == from[..pos + size])
      && (notCopied > 0 ==>
            && bytes - pos - size + notCopied == bytes - Min(bytes, |from|)
            && from[..pos] + written == from[..Min(bytes, |from|)] + Zeros(FaultPad(lo, bytes, |from|)))
  {
    var (written, notCopied) := CopyFromUser(from, pos, size);
    if notCopied == 0 {
      assert from[..pos] + written == from[..pos + size];
    } else {
      FaultPadChunk(lo, bytes, |from|, pos, size, index, pgoff);
      assert from[..pos] + written == from[..|from|] + Zeros(notCopied);
    }
  }

  /** A copy that ends with every byte copied copied the requested bytes. */
  lemma UserCopyDone(lo: nat, bytes: nat, from: seq<bv8>)
    requires bytes <= |from|
    ensures from[..Min(bytes, |from|)] + Zeros(FaultPad(lo, bytes, |from|)) == from[..bytes]
  {
  }

  /** Reading back what was just written gives it back. */
  lemma {:induction false} WriteThenRead(ps: seq<Page>, lo: nat, d: seq<bv8>)
    requires ActiveRange(ps, lo, lo + |d|) && FullPages(ps)
    ensures Bytes(Written(ps, lo, d), lo, |d|) == d
  {
    WrittenMeans(ps, lo, d);
    var w := Written(ps, lo, d);
    forall t | 0 <= t < |d| ensures Bytes(w, lo, |d|)[t] == d[t] {
      assert Present(w, lo + t) && ByteAt(w, lo + t) == d[(lo + t) - lo];
    }
  }

  /** Writing bytes commits and releases no page. */
  lemma WrittenKeepsCommitted(ps: seq<Page>, lo: nat, d: seq<bv8>)
    ensures CommittedPages(Written(ps, lo, d)) == CommittedPages(ps)
  {
  }

  /** Bytes survive any change that keeps every page's data. */
  lemma HoldsKept(before: seq<Page>, after: seq<Page>, lo: nat, d: seq<bv8>)
    requires KeepsData(before, after) && Holds(before, lo, d)
    ensures Holds(after, lo, d)
  {
    forall p: nat | lo <= p < lo + |d| ensures Present(after, p) && ByteAt(after, p) == d[p - lo] {
      assert Present(before, p);
    }
  }
}
