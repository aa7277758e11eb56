/** The budget for asynchronous (one-way) transactions.

    Half of the region is available to async buffers.  Every async buffer is
    charged its size plus the size of its bookkeeping record when it is allocated,
    and credited back when it is freed.  The allocator as written charges and
    credits different amounts for buffers smaller than a word, and admits a request
    by checking a smaller amount than it then charges; both are exhibited here
    next to the corrected accounting that the allocator model uses.
 */
module AsyncSpace {
  import opened Arith
  import opened Records
  import opened Coalesce

  /** What an allocated async record costs the budget: its padded size plus the
      bookkeeping record; nothing for free or synchronous records. */
  function Charge(b: Buffer): nat {
    if !b.free && b.isAsync then Padded(UsedSize(b.dataSize, b.offsetsSize, b.extraSize)) + BUFFER_OVERHEAD
    else 0
  }

  /** The budget held by the allocated async records of a list. */
  function Charged(bufs: seq<Buffer>): nat {
    if |bufs| == 0 then 0 else Charged(bufs[..|bufs| - 1]) + Charge(bufs[|bufs| - 1])
  }

  lemma {:induction false} ChargedConcat(a: seq<Buffer>, b: seq<Buffer>)
    ensures Charged(a + b) == Charged(a) + Charged(b)
    decreases |b|
  {
    if |b| == 0 {
      assert a + b == a;
    } else {
      assert (a + b)[..|a + b| - 1] == a + b[..|b| - 1];
      ChargedConcat(a, b[..|b| - 1]);
    }
  }

  lemma ChargedSingle(b: Buffer)
    ensures Charged([b]) == Charge(b)
  {
    assert [b][..0] == [];
  }

  /** Replacing records `p..q-1` by `xs` changes the charge by the difference. */
  lemma ChargedSplice(bufs: seq<Buffer>, p: nat, q: nat, xs: seq<Buffer>)
    requires p <= q <= |bufs|
    ensures Charged(bufs[..p] + xs + bufs[q..]) + Charged(bufs[p..q]) == Charged(bufs) + Charged(xs)
  {
    ChargedConcat(bufs[..p] + xs, bufs[q..]);
    ChargedConcat(bufs[..p], xs);
    ChargedConcat(bufs[..p], bufs[p..q]);
    ChargedConcat(bufs[..p] + bufs[p..q], bufs[q..]);
    assert bufs[..p] + bufs[p..q] + bufs[q..] == bufs;
  }

  lemma {:induction false} ChargedAllFree(xs: seq<Buffer>)
    requires forall j :: 0 <= j < |xs| ==> xs[j].free
    ensures Charged(xs) == 0
    decreases |xs|
  {
    if |xs| > 0 {
      ChargedAllFree(xs[..|xs| - 1]);
    }
  }

  /** A slice holding one allocated record among free ones is charged for it alone. */
  lemma ChargedOneAllocated(xs: seq<Buffer>, m: nat)
    requires m < |xs| && forall j :: 0 <= j < |xs| && j != m ==> xs[j].free
    ensures Charged(xs) == Charge(xs[m])
  {
    ChargedAllFree(xs[..m]);
    ChargedAllFree(xs[m + 1..]);
    ChargedSingle(xs[m]);
    ChargedConcat(xs[..m], [xs[m]]);
    ChargedConcat(xs[..m] + [xs[m]], xs[m + 1..]);
    assert xs[..m] + [xs[m]] + xs[m + 1..] == xs;
  }

  /** Replacing records `p..q-1`, of which only record `k` may be allocated, by
      `xs`, of which only the first may be allocated, swaps the two charges. */
  lemma SpliceCharged(bufs: seq<Buffer>, p: nat, q: nat, k: nat, xs: seq<Buffer>)
    requires p <= k < q <= |bufs|
    requires forall j :: p <= j < q && j != k ==> bufs[j].free
    requires |xs| > 0 && forall j :: 0 < j < |xs| ==> xs[j].free
    ensures Charged(bufs[..p] + xs + bufs[q..]) + Charge(bufs[k]) == Charged(bufs) + Charge(xs[0])
  {
    var mid := bufs[p..q];
    ChargedSplice(bufs, p, q, xs);
    ChargedOneAllocated(mid, k - p);
    assert Charged(mid) == Charge(bufs[k]);
    ChargedOneAllocated(xs, 0);
    assert Charged(xs) == Charge(xs[0]);
  }

  /** Allocating charges the new record, and only it. */
  lemma SplitCharged(bufs: seq<Buffer>, size: nat, k: nat, p: nat, b: Buffer)
    requires Tiles(bufs, size) && k < |bufs| && bufs[k].free
    requires !b.free && p == Padded(UsedSize(b.dataSize, b.offsetsSize, b.extraSize))
    ensures Charged(SplitAndStamp(bufs, size, k, p, b)) ==
      Charged(bufs) + (if b.isAsync then p + BUFFER_OVERHEAD else 0)
  {
    var xs := if BufferSize(bufs, size, k) != p then [b, FreeRecord(bufs[k].start + p)] else [b];
    SplitShape(bufs, size, k, p, b);
    StampCharged(bufs, k, xs, b, p);
  }

  lemma StampCharged(bufs: seq<Buffer>, k: nat, xs: seq<Buffer>, b: Buffer, p: nat)
    requires k < |bufs| && bufs[k].free
    requires xs == [b] || (|xs| == 2 && xs[0] == b && xs[1].free)
    requires !b.free && p == Padded(UsedSize(b.dataSize, b.offsetsSize, b.extraSize))
    ensures Charged(bufs[..k] + xs + bufs[k + 1..]) ==
      Charged(bufs) + (if b.isAsync then p + BUFFER_OVERHEAD else 0)
  {
    SpliceCharged(bufs, k, k + 1, k, xs);
  }

  /** Freeing gives back the freed record's charge, and only it. */
  lemma FreedListCharged(bufs: seq<Buffer>, k: nat)
    requires k < |bufs| && !bufs[k].free
    ensures Charged(FreedList(bufs, k)) + Charge(bufs[k]) == Charged(bufs)
  {
    var p, q := FirstMerged(bufs, k), LastMerged(bufs, k);
    var x := SurvivorRecord(bufs, k);
    FreedListShape(bufs, k);
    forall j | p <= j < q && j != k
      ensures bufs[j].free
    {
      if j < k {
        assert MergesPrev(bufs, k) && j == k - 1;
      } else {
        assert MergesNext(bufs, k) && j == k + 1;
      }
    }
    SpliceCharged(bufs, p, q, k, [x]);
  }

  // ---- the accounting as written ----

  /** binder_alloc.c lines 452-457: an async request of (unpadded) total `size` is refused when
      the budget is smaller than `size` plus the record. */
  predicate AdmitsAsWritten(freeSpace: nat, size: nat) {
    !(freeSpace < size + BUFFER_OVERHEAD)
  }

  /** `a - b` on `size_t`. */
  function SubWrap(a: nat, b: nat): (r: nat)
    requires IsSize(a)
    ensures IsSize(r)
    ensures b <= a ==> r == a - b
    ensures a < b <= a + SIZE_LIMIT ==> r == a - b + SIZE_LIMIT
  {
    (a - b) % SIZE_LIMIT
  }

  /** binder_alloc.c line 580: the charge taken is the padded size plus the record. */
  function DebitAsWritten(freeSpace: nat, size: nat): nat
    requires IsSize(freeSpace)
  {
    SubWrap(freeSpace, Padded(size) + BUFFER_OVERHEAD)
  }

  /** binder_alloc.c lines 690-692 and 705: the credit recomputes the unpadded size. */
  function CreditAsWritten(freeSpace: nat, size: nat): nat {
    freeSpace + size + BUFFER_OVERHEAD
  }

  /** A budget of exactly one record admits an empty async request, and charging
      it wraps the budget around to nearly 2^64, after which every async request
      is admitted.  The budget is reachable: a 4096-byte region starts with 2048,
      and one 1840-byte async buffer leaves 104. */
  lemma AsWrittenAdmissionWraps()
    ensures DebitAsWritten(4096 / 2, 1840) == BUFFER_OVERHEAD
    ensures AdmitsAsWritten(BUFFER_OVERHEAD, 0)
    ensures DebitAsWritten(BUFFER_OVERHEAD, 0) == SIZE_LIMIT - WORD
    ensures DebitAsWritten(BUFFER_OVERHEAD, 0) > BUFFER_OVERHEAD
  {
  }

  /** An empty async buffer is charged a word more than it is credited: every one
      of them leaks a word of budget. */
  lemma AsWrittenCreditLeaks(freeSpace: nat)
    requires IsSize(freeSpace) && AdmitsAsWritten(freeSpace, WORD)
    ensures CreditAsWritten(DebitAsWritten(freeSpace, 0), 0) == freeSpace - WORD
  {
  }

  // ---- the corrected accounting ----

  /** An async request of total `size` fits when its padded size and record fit in
      the budget. */
  predicate AsyncAdmits(freeSpace: nat, size: nat) {
    Padded(size) + BUFFER_OVERHEAD <= freeSpace
  }

  function AsyncDebit(freeSpace: nat, size: nat): (r: nat)
    requires AsyncAdmits(freeSpace, size)
    ensures r < freeSpace
  {
    freeSpace - (Padded(size) + BUFFER_OVERHEAD)
  }

  /** The credit gives back what the record's size, `bufferSize`, plus the record
      cost. */
  function AsyncCredit(freeSpace: nat, bufferSize: nat): (r: nat)
    ensures r > freeSpace
  {
    freeSpace + bufferSize + BUFFER_OVERHEAD
  }

  /** Corrected, the charge never wraps, and freeing gives back exactly what
      allocating took, for every size including the empty one. */
  lemma AsyncRoundTrip(freeSpace: nat, size: nat)
    requires AsyncAdmits(freeSpace, size)
    ensures AsyncDebit(freeSpace, size) <= freeSpace
    ensures AsyncCredit(AsyncDebit(freeSpace, size), Padded(size)) == freeSpace
  {
  }
}
