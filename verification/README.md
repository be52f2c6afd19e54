# MemoryDebugger allocation hook, modelled in Dafny

MemoryDebugger replaces the global `operator new` and `operator delete`. It has
three jobs:

- It records every tracked allocation in a ledger, keyed by pointer. Each
  record holds the caller's return address, a running sequence number and
  whether the block came from an array `new`.
- It rejects invalid deletes by halting with a fixed message. The invalid cases
  are a double delete, a delete of a pointer it never handed out, and a
  mismatched scalar/array pair.
- Optionally, it places every block against a no-access guard page. The page
  follows the block in overflow mode and precedes it in underflow mode.

A single `LeakReporter` is constructed once. The detection mode can only be
changed before it exists. When the reporter is destroyed, it does the following:

1. It switches tracking off for good through the bypass flag.
2. It snapshots the live records and all records, and sorts both by sequence
   number.
3. It resolves every return address to a file, line and function.
4. It counts occurrences per file and line, with per-file and whole-program
   totals and star bars capped at thirty.
5. It warns when anything is still live.

The model has eight modules:

- `Placement`: the guard-page arithmetic of `PageAlignedAllocate`, and the
  per-mode dispatch of `alloc_it` and `dealloc_it`. It uses exact (unbounded)
  arithmetic.
- `PlacementAsWritten`: the same arithmetic with the source's 32-bit
  `unsigned` products, and where it departs from the exact version (see
  Findings).
- `Ledger`: the live map, the freed map and the sequence counter. It covers
  the bookkeeping of a tracked allocation and of a valid delete, the
  priority-ordered classification of a delete request, and the ledger
  invariant.
- `Hook`: the process-wide state; `common_allocation_helper` and
  `common_deallocation_helper`; the eight operator forms; the bypass flag; the
  one-shot reporter and mode guards; and a trace machine over these requests.
- `Chronology`: the order on records (by sequence number only) and a sort
  with its permutation and uniqueness properties.
- `Statistics`: `report_and_fill_in_statistics` and `report_statistics`, over
  per-file, per-line counts.
- `Report`: the destructor `~LeakReporter`, from snapshot to warning.
- `Scenarios`: end-to-end consequences for short request sequences.

The following are parameters of the model:

- pointers the operating system and the C heap hand back (`Supply`);
- the symbol service (a function from return address to `Resolved` or
  `Unresolved`);
- whether symbol initialisation and report-file creation succeed.

A failed `ASSERT_ALWAYS` is modelled as a halt: an outcome carrying the
assertion's message and no further state. The debug build's option to
continue past it is listed under "Left out".

## Model

| member | source | states |
|---|---|---|
| Placement.EffectiveSize | new_override.cpp:65-70 | a zero-size request is served as a full page; other sizes are kept |
| Placement.ZeroSizeRequest | new_override.cpp:65-82 | a zero-size request commits one page and reserves two; in overflow mode it is returned at the start of the reservation, in underflow mode one page in |
| Placement.PageCount | new_override.cpp:73-75 | the page count is the least number of whole pages that holds the block (at least one) |
| Placement.ReserveBytes | new_override.cpp:78 | the reservation is the committed pages plus exactly one page, so it exceeds the block by one to two pages |
| Placement.ReturnOffset | new_override.cpp:77 | in overflow mode the offset puts the block's last byte at the end of the committed pages; it is always below one page |
| Placement.PageAlignedAllocate | new_override.cpp:63-88 | null exactly when the reservation fails; otherwise the pointer lies inside the reservation, the block ends at the guard page in overflow mode, and it starts one page in (right after the guard) in underflow mode |
| Placement.GuardIsOnePage | new_override.cpp:72-84 | the unreadable part of the reservation is exactly its last page in overflow mode and its first page in underflow mode |
| Placement.OverflowTouchesGuard | new_override.cpp:77-85 | in overflow mode every byte of the block is readable and the byte just past it is in the guard |
| Placement.UnderflowTouchesGuard | new_override.cpp:72-85 | in underflow mode every byte of the block is readable and the byte just before it is in the guard |
| Placement.DisjointReservationsDistinctPointers | new_override.cpp:65-69 | placements in non-overlapping reservations never return the same pointer, so two zero-size requests get distinct pointers |
| Placement.ReleaseMatchesAlloc | new_override.cpp:95-125 | `dealloc_it` takes the same route as `alloc_it` for every mode; only the no-detection mode uses the heap |
| Placement.AllocIt | new_override.cpp:95-107 | no-detection mode returns the heap result; the other modes place against a guard page, with the guard after the block for overflow and access-after-delete and before it for underflow |
| Placement.DeallocIt | new_override.cpp:109-125 | a block is released through the route of the mode current at the delete, `free` for the no-detection mode and a decommit of the same pointer otherwise; this matches the route it was allocated by only while the mode is unchanged |
| PlacementAsWritten.PageCountAsWritten | new_override.cpp:73-75 | the 32-bit page count equals the exact one for every 32-bit size |
| PlacementAsWritten.ReserveBytesAsWritten | new_override.cpp:78 | the reservation length the source passes is the exact length reduced modulo 2^32 |
| PlacementAsWritten.CommitBytesAsWritten | new_override.cpp:81 | the commit length the source passes is the exact committed length reduced modulo 2^32 |
| PlacementAsWritten.ReturnOffsetAsWritten | new_override.cpp:77 | the 32-bit return offset equals the exact one for every size, since the page-rounded length minus the request never leaves 0..4095 |
| PlacementAsWritten.PageAlignedAllocateAsWritten | new_override.cpp:63-88 | the as-written pointer is null exactly when the reservation fails and otherwise equals the exact model's pointer for every size: the fault is only in how much is reserved and committed behind it |
| PlacementAsWritten.AgreesBelowLimit | new_override.cpp:72-82 | for requests up to 0xFFFFE000 bytes the 32-bit reservation and commit lengths equal the exact ones, so the whole as-written placement matches the exact model there |
| PlacementAsWritten.ReservationWrapsAboveLimit | new_override.cpp:78 | for requests above 0xFFFFE000 bytes the 32-bit reservation is smaller than the request, while the exact one exceeds it by a page |
| PlacementAsWritten.WrapWitness | new_override.cpp:63-88 | a request of 0xFFFFF001 bytes in overflow mode reserves one page, commits nothing and returns a non-null pointer |
| Ledger.Emplace | new_override.cpp:138 | insertion never overwrites: an existing key keeps its value and no other key changes |
| Ledger.Record | new_override.cpp:138-142 | a tracked allocation takes the current sequence number, advances the counter even when the pointer is already live, makes the pointer live and forgets any freed entry for it; nothing else changes |
| Ledger.Retire | new_override.cpp:172-173 | a valid delete moves the record, unchanged, from the live map to the freed map; nothing else changes |
| Ledger.Classify | new_override.cpp:153-175 | each verdict holds exactly when the source's checks, taken in their order, reach it: null, then double delete, then non-heap, then the two mismatches, then retire |
| Ledger.ExactlyOneFormRetires | new_override.cpp:165-171 | a live block is accepted by exactly one delete form, the one that matches its `new` |
| Ledger.EmptyIsValid | new_override.cpp:57-59 | the empty ledger at start-up satisfies the ledger invariant |
| Ledger.RecordKeepsValid | new_override.cpp:138-142 | recording a non-null pointer keeps the invariant (null never recorded, live and freed disjoint, sequence numbers distinct and below the counter) |
| Ledger.RetireKeepsValid | new_override.cpp:172-173 | retiring a live block keeps the invariant and the set of all records |
| Ledger.RetireUndoesRecord | new_override.cpp:138-173 | allocating a fresh pointer and then retiring it restores the live map and files the new record as freed |
| Hook.CommonAllocation | new_override.cpp:128-148 | with the bypass flag set, the heap result is returned untracked; otherwise a failed placement throws `bad_alloc` and changes nothing, and a successful one is recorded |
| Hook.OperatorNew | new_override.cpp:201-211 | the `nothrow` forms never throw and turn `bad_alloc` into a null return; whenever the common helper returns, every form returns its pointer and state unchanged; the throwing forms are the common helper |
| Hook.RejectionMessagesDistinct | new_override.cpp:158-169 | the four rejections halt with four distinct, non-empty messages |
| Hook.CommonDeallocation | new_override.cpp:151-179 | with the bypass flag set, the block goes to `free`; null is ignored; an invalid request halts with its message; a valid one is retired and released through `dealloc_it` |
| Hook.OperatorDelete | new_override.cpp:213-221 | the `nothrow` delete forms behave exactly as the plain ones |
| Hook.SetDetectMode | new_override.cpp:362-366 | changing the mode halts exactly when a reporter exists; otherwise only the mode changes |
| Hook.CreateReporter | new_override.cpp:224-230 | constructing a reporter halts exactly when one already exists; otherwise it marks one as created, keeps the path and changes nothing else |
| Hook.ReporterFreezesConfiguration | new_override.cpp:224-230 | after a reporter is created, both a mode change and a second reporter halt |
| Hook.EndTracking | new_override.cpp:298 | the destructor sets the bypass flag and leaves the ledger, the mode, the reporter flag and the report path as they were |
| Hook.ApplyKeepsValid | new_override.cpp:128-179 | any one request keeps the ledger invariant and never lowers the counter |
| Hook.RunKeepsValid | new_override.cpp:128-179 | any request sequence that does not halt keeps the ledger invariant |
| Hook.RunFromStartValid | new_override.cpp:57-59 | starting from the empty ledger with tracking on, every run that does not halt ends with a ledger satisfying the invariant |
| Hook.ModeFrozenAfterReporter | new_override.cpp:362-366 | once a reporter exists, no request sequence changes the mode or unsets the reporter |
| Hook.BypassIsPermanent | new_override.cpp:131-178 | once the bypass flag is set, no request sequence clears it or changes the ledger |
| Chronology.Insert | new_override.cpp:38-41 | inserting into a sorted list adds exactly that record and keeps the list sorted (strictly, when sequence numbers are distinct) |
| Chronology.Sort | new_override.cpp:315-316 | the sorted list is a permutation of its input ordered by sequence number, strictly when sequence numbers are distinct |
| Chronology.StrictlySortedUnique | new_override.cpp:38-41 | two strictly increasing lists with the same records are equal |
| Chronology.SortIgnoresGatherOrder | new_override.cpp:301-316 | with distinct sequence numbers, the sorted lists do not depend on the hash maps' iteration order |
| Statistics.SumValuesRemove | new_override.cpp:274-290 | a sum over a map's values does not depend on the order its keys are visited in |
| Statistics.Bump | new_override.cpp:260-265 | counting one occurrence raises that file and line's count by one, leaves every other count alone and adds the file if it is new |
| Statistics.BumpTotal | new_override.cpp:260-265 | counting one occurrence raises the program total by one |
| Statistics.CountsAddStep | new_override.cpp:248-266 | counting a resolved record extends the counted list by that record |
| Statistics.FillStatistics | new_override.cpp:234-267 | halts exactly when some address does not resolve; otherwise lists every call site in list order, and each file/line count grows by the number of records resolving to it |
| Statistics.Stars | new_override.cpp:282-288 | a bar is min(n, 30) stars |
| Statistics.ReportLines | new_override.cpp:279-286 | one row per line of a file, each with its count and bar, and the file total is the sum of the counts |
| Statistics.ReportStatistics | new_override.cpp:269-294 | one section per file, each complete, and the returned number is the program total |
| Report.Snapshot | new_override.cpp:303-313 | the copied list holds one entry per key of the map |
| Report.SnapshotContents | new_override.cpp:303-313 | a snapshot holds exactly the map's records |
| Report.SnapshotsDistinct | new_override.cpp:301-313 | in a valid ledger the unfreed list and the combined list carry distinct sequence numbers |
| Report.PrepareReport | new_override.cpp:300-316 | the unfreed list holds exactly the live records; the allocation list holds live and freed records; both are sorted, strictly in a valid ledger |
| Report.Summarise | new_override.cpp:323-351 | a list with an unresolvable address halts; otherwise its listing, counts, sections and total all describe that list |
| Report.EmptySummary | new_override.cpp:330-343 | with nothing unfreed, the leak statistics stay empty and the leak count stays zero |
| Report.Teardown | new_override.cpp:296-360 | halts with the symbol, file or lookup message exactly when that step fails; otherwise tracking is off, the leak count is the number of live blocks, the allocation count is the number of live and freed ones, and the warning is printed exactly when a block is live |
| Report.EmptyStats | new_override.cpp:323-324 | fresh statistics count nothing |
| Report.UnresolvedRecord | new_override.cpp:248-256 | an unresolvable entry of either list is an unresolvable record of the ledger |
| Report.ResolvedRecords | new_override.cpp:248-256 | when the allocation list resolves, every record of the ledger resolves |
| Scenarios.NewThenDeleteRoundTrip | new_override.cpp:128-175 | a fresh allocation released with the matching form restores the live map and keeps its record as freed |
| Scenarios.SecondDeleteHalts | new_override.cpp:157-161 | releasing the same block twice halts with "Double delete!" |
| Scenarios.MismatchedFormHalts | new_override.cpp:165-169 | releasing a block with the other form halts with the mismatch message for that pairing |
| Scenarios.UnknownPointerHalts | new_override.cpp:153-163 | releasing a never-recorded non-null pointer halts as non-heap; releasing null is ignored |
| Scenarios.NothrowFailureIsNull | new_override.cpp:201-211 | a failed placement gives null for `nothrow` and `bad_alloc` otherwise, and records nothing |
| Scenarios.UntrackedAfterTeardown | new_override.cpp:177-178 | after the destructor starts, any delete goes to `free` and is accepted |
| Scenarios.ModeSwitchDecommitsHeapBlock | new_override.cpp:109-125 | a block the heap served at start-up, still live when the program switches to a detection mode, is accepted by the matching delete and decommitted instead of freed |

## Left out

- Placement.DeallocIt: the model, like the source, does not promise that a block is released by the route it was allocated by. `dealloc_it` reads the mode at the delete, and `SetDetectMode` may change it while blocks allocated since start-up (tracking is on from the first allocation) are live; `Scenarios.ModeSwitchDecommitsHeapBlock` shows such a heap block being decommitted. Remembering the route per block is not modelled, because the source does not do it.
- The target is taken to be 32-bit. `size_t`, `unsigned` and `DWORD` are
  32 bits wide, as the return-address cast to `DWORD` implies. The rest of the
  model uses exact arithmetic. `PlacementAsWritten` shows where 32-bit
  arithmetic differs.
- The reservation, commit and decommit calls are not modelled. What the
  reservation returns is a parameter.
- A commit is assumed to succeed at the chosen page. The source never checks
  its result: a failed commit yields null, and the source then returns
  `return_addr_offset` bytes past null.
- The decommit is modelled as a release of the returned pointer. Its effect on
  page protection is not modelled.
- The reservation is never released, and the decommit is passed the returned
  pointer rather than the reservation base. Only which call is made is
  modelled.
- The sequence counter is unbounded. Its 32-bit wrap-around after 2^32
  allocations is not modelled.
- Return addresses are natural numbers. Their truncation to `DWORD` is not
  modelled.
- Each per-line count is unbounded. Its 32-bit `unsigned` wrap is not
  modelled.
- `Statistics.FillStatistics` treats the name lookup and the line lookup as one
  symbol lookup. Both halt with the same message when they fail.
- The statistics are keyed by file name. The source keys them by the address of
  the name string the symbol service returns. The model therefore assumes the
  service returns one name per file.
- Symbol initialisation and file creation appear only as whether they
  succeeded. Symbol cleanup is not modelled: the source ignores its result.
- The report text and stream formatting are not modelled, and neither are the
  suppressed `std::cout` pass and the closing key press.
- The path copy into the reporter's 256-byte buffer has no length check. The
  path is kept as a string and buffer overrun is not modelled.
- A failed `ASSERT_ALWAYS` always halts in this model. In a debug build the
  macro breaks only when the report dialog answers "retry". On "ignore" the
  program continues past the failed check: the mode still changes, a second
  reporter overwrites the path, and a rejected delete returns. Continuing
  past a failed assertion is not modelled, and `Hook.ModeFrozenAfterReporter`
  relies on the halt.
- The iteration order of the hash maps is unspecified. The model picks keys in
  an arbitrary order and claims nothing that depends on it.
- Concurrency is not modelled. The source has no locking and the model is
  sequential.
- The allocator used for the ledger's own storage (`free_allocator.h`) is not
  part of this model. It only routes that storage to `malloc`.
- The demonstration program (`main.cpp`) is not part of this model.
- A thrown `bad_alloc` is taken to be caught by the program, which continues.
  Termination on an uncaught exception is not modelled.

## Findings

| source | as written | input that shows it | evidently intended | confidence | as-written member | corrected member |
|---|---|---|---|---|---|---|
| new_override.cpp:72-87 | the page count, reservation length, commit length and return offset are computed as 32-bit `unsigned` products | `new` of 0xFFFFF001 bytes in overflow mode: 0x100000 pages, a reservation of 4096*0x100001 mod 2^32 = 4096 bytes, a commit of 0 bytes whose result is not checked, and a return value of that commit's result plus 0xFFF, which is non-null whether the commit succeeded or failed | reserve at least one page more than the request, or fail so that `bad_alloc` is thrown | medium, assumes a 32-bit target; not executed | PlacementAsWritten.WrapWitness | Placement.PageAlignedAllocate |
