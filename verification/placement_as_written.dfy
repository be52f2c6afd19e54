/**
 The page arithmetic of the guard-page placement as the source computes it:
 with 32-bit unsigned products, which wrap for requests within two pages of
 the top of the 32-bit range. The rest of the model uses the exact arithmetic
 of `Placement`; this module exhibits where the two part ways.
 */
module PlacementAsWritten {
  import opened Placement

  const WordModulus: nat := 0x1_0000_0000

  /** A 32-bit unsigned value: `unsigned`, and `size_t` on a 32-bit target. */
  type Word = x: nat | x < 0x1_0000_0000

  /** Reduction modulo 2^32, as an `unsigned` result stores it. */
  function Wrap(x: int): (w: Word)
    ensures 0 <= x < WordModulus ==> w == x
  {
    x % WordModulus
  }

  /** The page count: the quotient bumped by one on a remainder, compared
      against a 32-bit product. */
  function PageCountAsWritten(size: Word): (pages: Word)
    ensures pages == PageCount(size)
  {
    var s := if size == 0 then PageSize else size;
    var base := s / PageSize;
    if s > Wrap(base * PageSize) then base + 1 else base
  }

  /** Length passed to the reservation call: `k_page_size * (base_page_num + 1)` in 32 bits. */
  function ReserveBytesAsWritten(size: Word): (n: Word)
    ensures n == Wrap(ReserveBytes(size))
  {
    Wrap(PageSize * (PageCountAsWritten(size) + 1))
  }

  /** Length passed to the commit call: `base_page_num * k_page_size` in 32 bits. */
  function CommitBytesAsWritten(size: Word): (n: Word)
    ensures n == Wrap(PageCount(size) * PageSize)
  {
    Wrap(PageCountAsWritten(size) * PageSize)
  }

  /** Offset of the returned pointer: `k_page_size * base_page_num - size` in 32 bits. */
  function ReturnOffsetAsWritten(size: Word, detectOverflow: bool): (offset: Word)
    ensures !detectOverflow ==> offset == 0
    ensures offset == ReturnOffset(size, detectOverflow)
  {
    if detectOverflow then
      assert PageCount(size) * PageSize <= WordModulus;
      Wrap(CommitBytesAsWritten(size) - EffectiveSize(size))
    else 0
  }

  /** `PageAlignedAllocate` with the 32-bit arithmetic, given the base the
      reservation call returned (`Null` when it refused). */
  function PageAlignedAllocateAsWritten(size: Word, detectOverflow: bool, reservation: Ptr): (p: Ptr)
    ensures p == Null <==> reservation == Null
    ensures p == PageAlignedAllocate(size, detectOverflow, reservation)
  {
    if reservation == Null then Null
    else reservation + CommitOffset(detectOverflow) + ReturnOffsetAsWritten(size, detectOverflow)
  }

  /** The returned offset and pointer agree with the exact model for every
      size; only the reservation and commit lengths wrap, and up to 0xFFFFE000
      bytes those are exact too. */
  lemma {:induction false} AgreesBelowLimit(size: Word, detectOverflow: bool, reservation: Ptr)
    requires size <= 0xFFFF_E000
    ensures ReserveBytesAsWritten(size) == ReserveBytes(size)
    ensures CommitBytesAsWritten(size) == PageCount(size) * PageSize
    ensures ReturnOffsetAsWritten(size, detectOverflow) == ReturnOffset(size, detectOverflow)
    ensures PageAlignedAllocateAsWritten(size, detectOverflow, reservation)
            == PageAlignedAllocate(size, detectOverflow, reservation)
  {
    var pages := PageCount(size);
    assert (pages - 1) * PageSize < 0xFFFF_E000;
    assert pages <= 0xFFFFE;
  }

  /** Above 0xFFFFE000 bytes the reservation length wraps below the request
      itself, while the exact length always exceeds it by a page. */
  lemma {:induction false} ReservationWrapsAboveLimit(size: Word)
    requires 0xFFFF_E000 < size
    ensures ReserveBytesAsWritten(size) < size
    ensures ReserveBytesAsWritten(size) != ReserveBytes(size)
    ensures size + PageSize <= ReserveBytes(size)
  {
    var pages := PageCount(size);
    assert 0xFFFF_E000 < pages * PageSize;
    assert (pages - 1) * PageSize < WordModulus;
    assert pages == 0xFFFFF || pages == 0x100000;
  }

  /** A request of 0xFFFFF001 bytes in overflow mode: one page is reserved,
      nothing is committed, and a non-null pointer 0xFFF bytes into that single
      page is returned instead of a failure. */
  lemma WrapWitness(reservation: Ptr)
    requires reservation != Null
    ensures PageCountAsWritten(0xFFFF_F001) == 0x10_0000
    ensures ReserveBytesAsWritten(0xFFFF_F001) == PageSize
    ensures CommitBytesAsWritten(0xFFFF_F001) == 0
    ensures PageAlignedAllocateAsWritten(0xFFFF_F001, true, reservation) == reservation + 0xFFF
    ensures ReserveBytes(0xFFFF_F001) == 0x1_0000_1000
  {
  }
}
