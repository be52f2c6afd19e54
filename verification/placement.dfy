/**
 Page-granular placement of tracked blocks (the guard-page strategy) and the
 per-mode dispatch between it and the plain heap.

 Addresses are natural numbers and 0 is the null pointer. The operating
 system's reservation call is not modelled: its result for the current request
 is a parameter (`Null` when it refused). A successful reservation is taken to
 be committed, at the chosen page, without failure.
 */
module Placement {

  /** A pointer value; `Null` is the null pointer. */
  type Ptr = nat

  const Null: Ptr := 0

  const PageSize: nat := 4096

  /** Bytes actually placed: a zero-size request is served as one full page,
      so that every zero-size allocation gets its own reservation. */
  function EffectiveSize(size: nat): (n: nat)
    ensures size == 0 ==> n == PageSize
    ensures size != 0 ==> n == size
  {
    if size == 0 then PageSize else size
  }

  /** Number of read-write pages committed for a request: the quotient, bumped
      by one when it leaves a remainder. */
  function PageCount(size: nat): (pages: nat)
    ensures 1 <= pages
    ensures (pages - 1) * PageSize < EffectiveSize(size) <= pages * PageSize
  {
    var s := EffectiveSize(size);
    var base := s / PageSize;
    if s > base * PageSize then base + 1 else base
  }

  /** Length of the reservation: the committed pages plus one guard page. */
  function ReserveBytes(size: nat): (n: nat)
    ensures n == PageCount(size) * PageSize + PageSize
    ensures EffectiveSize(size) + PageSize <= n < EffectiveSize(size) + 2 * PageSize
  {
    PageSize * (PageCount(size) + 1)
  }

  /** Where the committed pages start inside the reservation: at page 0 when
      the guard follows the block, at page 1 when it precedes it. */
  function CommitOffset(detectOverflow: bool): nat
  {
    if detectOverflow then 0 else PageSize
  }

  /** Forward offset of the returned pointer inside the committed pages: just
      far enough for the block's last byte to touch the guard page. */
  function ReturnOffset(size: nat, detectOverflow: bool): (offset: nat)
    ensures detectOverflow ==> offset + EffectiveSize(size) == PageCount(size) * PageSize
    ensures offset < PageSize
  {
    if detectOverflow then PageCount(size) * PageSize - EffectiveSize(size) else 0
  }

  /** The pointer handed back for a request of `size` bytes, given the base
      the reservation call returned (`Null` when it refused). */
  function PageAlignedAllocate(size: nat, detectOverflow: bool, reservation: Ptr): (p: Ptr)
    ensures p == Null <==> reservation == Null
    ensures p != Null ==> reservation + CommitOffset(detectOverflow) <= p < reservation + ReserveBytes(size)
    ensures p != Null && detectOverflow ==>
              p + EffectiveSize(size) == reservation + PageCount(size) * PageSize
    ensures p != Null && detectOverflow ==> p - reservation < PageSize
    ensures p != Null && !detectOverflow ==> p == reservation + PageSize
  {
    if reservation == Null then Null
    else reservation + CommitOffset(detectOverflow) + ReturnOffset(size, detectOverflow)
  }

  /** A zero-size request commits one page, reserves two and, in overflow
      mode, is returned at the very start of the reservation. */
  lemma ZeroSizeRequest(detectOverflow: bool, reservation: Ptr)
    requires reservation != Null
    ensures PageCount(0) == 1
    ensures ReserveBytes(0) == 2 * PageSize
    ensures ReturnOffset(0, detectOverflow) == 0
    ensures PageAlignedAllocate(0, true, reservation) == reservation
    ensures PageAlignedAllocate(0, false, reservation) == reservation + PageSize
  {
  }

  /** Byte `a` lies in the read-write pages of the placement made at `reservation`. */
  predicate InCommitted(size: nat, detectOverflow: bool, reservation: Ptr, a: nat)
  {
    var start := reservation + CommitOffset(detectOverflow);
    start <= a < start + PageCount(size) * PageSize
  }

  /** Byte `a` lies in the reservation but not in its committed pages: touching it faults. */
  predicate InGuard(size: nat, detectOverflow: bool, reservation: Ptr, a: nat)
  {
    reservation <= a < reservation + ReserveBytes(size) && !InCommitted(size, detectOverflow, reservation, a)
  }

  /** The guard is exactly one page: the last page of the reservation when
      overflows are detected, the first one otherwise. */
  lemma GuardIsOnePage(size: nat, detectOverflow: bool, reservation: Ptr, a: nat)
    ensures detectOverflow ==>
              (InGuard(size, detectOverflow, reservation, a) <==>
                 reservation + PageCount(size) * PageSize <= a < reservation + ReserveBytes(size))
    ensures !detectOverflow ==>
              (InGuard(size, detectOverflow, reservation, a) <==> reservation <= a < reservation + PageSize)
  {
  }

  /** Overflow mode: every byte of the block is usable and the first byte past
      its end faults. */
  lemma OverflowTouchesGuard(size: nat, reservation: Ptr)
    requires reservation != Null
    ensures var p := PageAlignedAllocate(size, true, reservation);
            && (forall a :: p <= a < p + EffectiveSize(size) ==> InCommitted(size, true, reservation, a))
            && InGuard(size, true, reservation, p + EffectiveSize(size))
  {
  }

  /** Underflow mode: every byte of the block is usable and the byte just
      before it faults. */
  lemma UnderflowTouchesGuard(size: nat, reservation: Ptr)
    requires reservation != Null
    ensures var p := PageAlignedAllocate(size, false, reservation);
            && (forall a :: p <= a < p + EffectiveSize(size) ==> InCommitted(size, false, reservation, a))
            && InGuard(size, false, reservation, p - 1)
  {
  }

  /** Two placements in non-overlapping reservations return different
      pointers; in particular two zero-size requests never share one. */
  lemma DisjointReservationsDistinctPointers(size1: nat, overflow1: bool, r1: Ptr,
                                             size2: nat, overflow2: bool, r2: Ptr)
    requires r1 != Null && r2 != Null
    requires r1 + ReserveBytes(size1) <= r2 || r2 + ReserveBytes(size2) <= r1
    ensures PageAlignedAllocate(size1, overflow1, r1) != PageAlignedAllocate(size2, overflow2, r2)
    ensures PageAlignedAllocate(size1, overflow1, r1) != Null
  {
  }

  /** Boundary detection mode, fixed before the session starts. */
  datatype DetectMode = NoAccessDetection | DetectOverflow | DetectUnderflow | DetectAccessAfterDelete

  /** Which allocator a mode uses: the plain heap or the page placement with
      the guard after (`true`) or before (`false`) the block. */
  datatype Route = Heap | Paged(detectOverflow: bool)

  /** The route `alloc_it` takes; access-after-delete shares the overflow route. */
  function AllocRoute(mode: DetectMode): Route
  {
    match mode
    case DetectOverflow => Paged(true)
    case DetectAccessAfterDelete => Paged(true)
    case DetectUnderflow => Paged(false)
    case NoAccessDetection => Heap
  }

  /** The route `dealloc_it` takes. */
  function ReleaseRoute(mode: DetectMode): Route
  {
    match mode
    case DetectOverflow => Paged(true)
    case DetectAccessAfterDelete => Paged(true)
    case DetectUnderflow => Paged(false)
    case NoAccessDetection => Heap
  }

  /** Under an unchanged mode a block is given back to the allocator that produced it. */
  lemma ReleaseMatchesAlloc(mode: DetectMode)
    ensures ReleaseRoute(mode) == AllocRoute(mode)
    ensures ReleaseRoute(mode).Heap? <==> mode == NoAccessDetection
  {
  }

  /** What the outside world hands back for one request: the base of the page
      reservation and the result of the plain heap allocator (`Null` on failure). */
  datatype Supply = Supply(reservation: Ptr, heap: Ptr)

  /** `alloc_it`: serve a request according to the mode. */
  function AllocIt(mode: DetectMode, size: nat, supply: Supply): (p: Ptr)
    ensures mode == NoAccessDetection ==> p == supply.heap
    ensures mode != NoAccessDetection ==> (p == Null <==> supply.reservation == Null)
    ensures (mode == DetectOverflow || mode == DetectAccessAfterDelete) && p != Null ==>
              p + EffectiveSize(size) == supply.reservation + PageCount(size) * PageSize
    ensures mode == DetectUnderflow && p != Null ==> p == supply.reservation + PageSize
  {
    match AllocRoute(mode)
    case Heap => supply.heap
    case Paged(detectOverflow) => PageAlignedAllocate(size, detectOverflow, supply.reservation)
  }

  /** The call that gives memory back: none, the heap's `free`, or a page decommit. */
  datatype Release = NoRelease | HeapFree(ptr: Ptr) | Decommit(ptr: Ptr)

  /** `dealloc_it`: release a block according to the mode. Every paged route
      decommits, whichever side the guard is on. */
  function DeallocIt(mode: DetectMode, p: Ptr): (r: Release)
    ensures r.HeapFree? <==> AllocRoute(mode) == Heap
    ensures r.Decommit? <==> AllocRoute(mode).Paged?
    ensures r != NoRelease && r.ptr == p
  {
    match ReleaseRoute(mode)
    case Heap => HeapFree(p)
    case Paged(_) => Decommit(p)
  }
}
