/** Word and page arithmetic of the binder buffer allocator.

    The allocator works on `size_t` (64-bit, wrapping) quantities; every place where
    the C code can wrap is written out here with `Wrap`.  Addresses are offsets from
    the start of the mapped region: the region starts on a page boundary, so rounding
    an offset to a page boundary is the same as rounding the address.
 */
module Arith {

  /** 2^64: one more than the largest `size_t`. */
  const SIZE_LIMIT: nat := 0x1_0000_0000_0000_0000

  /** sizeof(void *): buffer sizes are aligned to it. */
  const WORD: nat := 8

  const PAGE_SIZE: nat := 4096

  /** sizeof(struct binder_buffer), charged against the async budget with every
      async buffer.  Its value is immaterial; the proofs only use that it is a
      natural number. */
  const BUFFER_OVERHEAD: nat := 104

  /** The error codes the allocator returns. */
  datatype Errno = EINVAL | ENOSPC | ENOMEM | ESRCH | EBUSY | EPERM

  datatype Option<T> = None | Some(value: T)

  datatype Result<T> = Ok(value: T) | Err(error: Errno)

  /** An `int` return of 0 or a negative error code. */
  datatype Outcome = Done | Fail(error: Errno)

  predicate IsSize(x: int) { 0 <= x < SIZE_LIMIT }

  /** Reduction modulo 2^64: what a `size_t` holds after an addition. */
  function Wrap(x: nat): (r: nat)
    ensures r < SIZE_LIMIT
    ensures x < SIZE_LIMIT ==> r == x
    ensures SIZE_LIMIT <= x < 2 * SIZE_LIMIT ==> r == x - SIZE_LIMIT
  {
    x % SIZE_LIMIT
  }

  /** Mathematical rounding up to a multiple of the word size. */
  function AlignUp(x: nat): (r: nat)
    ensures r % WORD == 0 && x <= r < x + WORD
  {
    (x + WORD - 1) / WORD * WORD
  }

  /** ALIGN(x, sizeof(void *)) on a `size_t`: `(x + 7) & ~7`, computed with wrap-around. */
  function AlignWord(x: nat): nat
    requires IsSize(x)
  {
    Wrap(x + WORD - 1) / WORD * WORD
  }

  lemma AlignWordIsWrappedAlignUp(x: nat)
    requires IsSize(x)
    ensures AlignUp(x) <= SIZE_LIMIT
    ensures AlignWord(x) == if AlignUp(x) < SIZE_LIMIT then AlignUp(x) else 0
  {
  }

  /** One checked addition of binder_alloc_new_buf_locked: `r = x' + ALIGN(y)`,
      where `x'` is `x` itself if `alignFirst` is false and `ALIGN(x)` otherwise,
      and the call fails when `r < x || r < y`. */
  function CheckedAlignedAdd(x: nat, y: nat, alignFirst: bool): Option<nat>
    requires IsSize(x) && IsSize(y)
  {
    var r := Wrap((if alignFirst then AlignWord(x) else x) + AlignWord(y));
    if r < x || r < y then None else Some(r)
  }

  /** The overflow check of one addition catches exactly the additions whose
      mathematical value does not fit in a `size_t`. */
  lemma {:induction false} CheckedAlignedAddExact(x: nat, y: nat, alignFirst: bool)
    requires IsSize(x) && IsSize(y)
    requires !alignFirst ==> x % WORD == 0
    ensures var exact := AlignUp(x) + AlignUp(y);
      CheckedAlignedAdd(x, y, alignFirst) == if exact < SIZE_LIMIT then Some(exact) else None
  {
    AlignWordIsWrappedAlignUp(x);
    AlignWordIsWrappedAlignUp(y);
    assert !alignFirst ==> AlignUp(x) == x;
  }

  /** The size computation of binder_alloc_new_buf_locked: the three requested
      sizes, each word aligned, added with two checked additions. */
  function AllocationSize(dataSize: nat, offsetsSize: nat, extraSize: nat): (r: Result<nat>)
    requires IsSize(dataSize) && IsSize(offsetsSize) && IsSize(extraSize)
    ensures r.Err? ==> r.error == EINVAL
  {
    match CheckedAlignedAdd(dataSize, offsetsSize, true)
    case None => Err(EINVAL)
    case Some(dataOffsets) =>
      match CheckedAlignedAdd(dataOffsets, extraSize, false)
      case None => Err(EINVAL)
      case Some(size) => Ok(size)
  }

  /** The total the allocator reserves for a buffer, in unbounded arithmetic. */
  function UsedSize(dataSize: nat, offsetsSize: nat, extraSize: nat): nat
  {
    AlignUp(dataSize) + AlignUp(offsetsSize) + AlignUp(extraSize)
  }

  /** The size computation succeeds exactly when the aligned total fits in a
      `size_t`, and then returns that total. */
  lemma {:induction false} AllocationSizeExact(dataSize: nat, offsetsSize: nat, extraSize: nat)
    requires IsSize(dataSize) && IsSize(offsetsSize) && IsSize(extraSize)
    ensures var total := UsedSize(dataSize, offsetsSize, extraSize);
      AllocationSize(dataSize, offsetsSize, extraSize) ==
        if total < SIZE_LIMIT then Ok(total) else Err(EINVAL)
  {
    CheckedAlignedAddExact(dataSize, offsetsSize, true);
    var dataOffsets := AlignUp(dataSize) + AlignUp(offsetsSize);
    if dataOffsets < SIZE_LIMIT {
      assert CheckedAlignedAdd(dataSize, offsetsSize, true) == Some(dataOffsets);
      assert AlignUp(dataOffsets) == dataOffsets;
      CheckedAlignedAddExact(dataOffsets, extraSize, false);
    } else {
      assert CheckedAlignedAdd(dataSize, offsetsSize, true) == None;
    }
  }

  /** `max(size, sizeof(void *))`: zero-sized buffers are padded to one word so
      that every buffer gets its own address. */
  function Padded(size: nat): (r: nat)
    ensures r >= WORD && r >= size
    ensures size >= WORD ==> r == size
  {
    if size < WORD then WORD else size
  }

  /** `x & PAGE_MASK`: the start of the page holding `x` (rounds down, also below zero). */
  function PageFloor(x: int): (r: int)
    ensures r % PAGE_SIZE == 0 && r <= x < r + PAGE_SIZE
  {
    x / PAGE_SIZE * PAGE_SIZE
  }

  /** PAGE_ALIGN(x): `x` rounded up to a page boundary. */
  function PageAlign(x: nat): (r: nat)
    ensures r % PAGE_SIZE == 0 && x <= r < x + PAGE_SIZE
  {
    (x + PAGE_SIZE - 1) / PAGE_SIZE * PAGE_SIZE
  }

  function Min(a: int, b: int): int { if a <= b then a else b }
}
