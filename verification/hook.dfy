/**
 The interception hook: the `operator new` / `operator delete` replacements,
 the bypass flag that routes everything to the plain heap once the reporter is
 tearing down, and the one-shot guards on the reporter and the detection mode.

 A failed `ASSERT_ALWAYS` is modelled as a halt: an outcome that carries the
 assertion's message and no further state. Continuing past it, which a debug
 build allows, is not modelled.
 */
module Hook {
  import opened Placement
  import opened Ledger

  const DoubleDeleteMessage: string := "Double delete!"
  const NonHeapMessage: string := "Trying to delete non-heap pointer."
  const NewDeleteArrayMessage: string := "Mismatched new/delete[] pair."
  const NewArrayDeleteMessage: string := "Mismatched new[]/delete pair."
  const MultipleReportersMessage: string := "Cannot create multiple leak reporter!"
  const ModeAfterReporterMessage: string := "Should not change detect mode after reporter created!"

  /** Process-wide state of the hook. `forcedUsual` is the bypass flag: when set,
      requests go straight to the plain heap and are not tracked. */
  datatype State = State(
    ledger: Ledger,
    forcedUsual: bool,
    mode: DetectMode,
    reporterCreated: bool,
    reportPath: string)

  /** State at program start: nothing recorded, tracking on, no detection, no reporter. */
  const Start: State := State(Empty, false, NoAccessDetection, false, "")

  /** An allocation either returns a pointer or throws `bad_alloc`. */
  datatype AllocResult = Returned(ptr: Ptr, state: State) | BadAlloc(state: State)

  /** `common_allocation_helper`: place the block per the mode, throw when
      placement fails, otherwise record it in the ledger. */
  function CommonAllocation(s: State, size: nat, isNewArray: bool, returnAddr: nat, supply: Supply): (r: AllocResult)
    ensures s.forcedUsual ==> r == Returned(supply.heap, s)
    ensures r.BadAlloc? <==> !s.forcedUsual && AllocIt(s.mode, size, supply) == Null
    ensures r.BadAlloc? ==> r.state == s
    ensures !s.forcedUsual && r.Returned? ==>
              && r.ptr != Null
              && r.ptr == AllocIt(s.mode, size, supply)
              && r.state == s.(ledger := Record(s.ledger, r.ptr, returnAddr, isNewArray))
  {
    if !s.forcedUsual then
      var placed := AllocIt(s.mode, size, supply);
      if placed == Null then BadAlloc(s)
      else Returned(placed, s.(ledger := Record(s.ledger, placed, returnAddr, isNewArray)))
    else
      Returned(supply.heap, s)
  }

  /** The four `operator new` forms: scalar or array, throwing or `nothrow`.
      The `nothrow` forms turn `bad_alloc` into a null return. */
  function OperatorNew(s: State, size: nat, isArray: bool, nothrow: bool, returnAddr: nat, supply: Supply): (r: AllocResult)
    ensures nothrow ==> r.Returned?
    ensures CommonAllocation(s, size, isArray, returnAddr, supply).Returned? ==>
              r == CommonAllocation(s, size, isArray, returnAddr, supply)
    ensures !nothrow ==> r == CommonAllocation(s, size, isArray, returnAddr, supply)
    ensures nothrow && CommonAllocation(s, size, isArray, returnAddr, supply).BadAlloc? ==> r == Returned(Null, s)
    ensures r.Returned? && r.ptr == Null ==> r.state == s
  {
    match CommonAllocation(s, size, isArray, returnAddr, supply)
    case BadAlloc(st) => if nothrow then Returned(Null, st) else BadAlloc(st)
    case Returned(p, st) => Returned(p, st)
  }

  /** The message the hook halts with for a rejected delete. */
  function RejectionMessage(v: Verdict): string
  {
    match v
    case DoubleDelete => DoubleDeleteMessage
    case NonHeapPointer => NonHeapMessage
    case MismatchedNewDeleteArray => NewDeleteArrayMessage
    case MismatchedNewArrayDelete => NewArrayDeleteMessage
    case _ => ""
  }

  /** The four rejections are told apart by their messages. */
  lemma RejectionMessagesDistinct(v: Verdict, w: Verdict)
    requires v !in {NullNoop, Retirable} && w !in {NullNoop, Retirable}
    ensures RejectionMessage(v) == RejectionMessage(w) <==> v == w
    ensures RejectionMessage(v) != ""
  {
  }

  /** A delete either completes, with the release call it made, or halts. */
  datatype DeleteResult = Deleted(state: State, release: Release) | Halted(message: string)

  /** `common_deallocation_helper`: ignore null, halt on an invalid request,
      otherwise move the record to the freed entries and release the block. */
  function CommonDeallocation(s: State, p: Ptr, isArrayDelete: bool): (r: DeleteResult)
    ensures s.forcedUsual ==> r == Deleted(s, HeapFree(p))
    ensures !s.forcedUsual && p == Null ==> r == Deleted(s, NoRelease)
    ensures r.Halted? <==> !s.forcedUsual && Classify(s.ledger, p, isArrayDelete) !in {NullNoop, Retirable}
    ensures r.Halted? ==> r.message == RejectionMessage(Classify(s.ledger, p, isArrayDelete))
    ensures !s.forcedUsual && Classify(s.ledger, p, isArrayDelete) == Retirable ==>
              && p in s.ledger.live
              && r == Deleted(s.(ledger := Retire(s.ledger, p)), DeallocIt(s.mode, p))
  {
    if !s.forcedUsual then
      match Classify(s.ledger, p, isArrayDelete)
      case NullNoop => Deleted(s, NoRelease)
      case Retirable => Deleted(s.(ledger := Retire(s.ledger, p)), DeallocIt(s.mode, p))
      case v => Halted(RejectionMessage(v))
    else
      Deleted(s, HeapFree(p))
  }

  /** The four `operator delete` forms; the `nothrow` tag plays no part. */
  function OperatorDelete(s: State, p: Ptr, isArray: bool, nothrow: bool): (r: DeleteResult)
    ensures r == CommonDeallocation(s, p, isArray)
  {
    CommonDeallocation(s, p, isArray)
  }

  /** Outcome of a step that can only halt or go on. */
  datatype Step = Continue(state: State) | Stop(message: string)

  /** `SetDetectMode`: allowed only while no reporter exists. */
  function SetDetectMode(s: State, mode: DetectMode): (r: Step)
    ensures r.Stop? <==> s.reporterCreated
    ensures r.Stop? ==> r.message == ModeAfterReporterMessage
    ensures r.Continue? ==> r.state == s.(mode := mode)
  {
    if s.reporterCreated then Stop(ModeAfterReporterMessage) else Continue(s.(mode := mode))
  }

  /** The reporter's constructor: only one reporter may ever be created. */
  function CreateReporter(s: State, path: string): (r: Step)
    ensures r.Stop? <==> s.reporterCreated
    ensures r.Stop? ==> r.message == MultipleReportersMessage
    ensures r.Continue? ==> r.state == s.(reporterCreated := true, reportPath := path)
  {
    if s.reporterCreated then Stop(MultipleReportersMessage)
    else Continue(s.(reporterCreated := true, reportPath := path))
  }

  /** After a reporter exists, the mode can no longer be changed and no second
      reporter can be created. */
  lemma {:induction false} ReporterFreezesConfiguration(s: State, path: string, mode: DetectMode, path2: string)
    requires CreateReporter(s, path).Continue?
    ensures SetDetectMode(CreateReporter(s, path).state, mode).Stop?
    ensures CreateReporter(CreateReporter(s, path).state, path2).Stop?
  {
  }

  /** The first thing the reporter's destructor does: stop tracking for good. */
  function EndTracking(s: State): (s': State)
    ensures s'.forcedUsual && s'.ledger == s.ledger && s'.mode == s.mode
    ensures s'.reporterCreated == s.reporterCreated && s'.reportPath == s.reportPath
  {
    s.(forcedUsual := true)
  }

  /** One request made by the instrumented program. */
  datatype Event =
    | New(size: nat, isArray: bool, nothrow: bool, returnAddr: nat, supply: Supply)
    | Delete(ptr: Ptr, isArray: bool, nothrow: bool)
    | SetMode(mode: DetectMode)
    | Construct(path: string)
    | Destruct

  /** The program either keeps running in some state or has halted with a message. */
  datatype Outcome = Running(state: State) | Stopped(message: string)

  /** The effect of one event. A thrown `bad_alloc` is taken to be caught by
      the program, which continues in the unchanged state. */
  function Apply(s: State, e: Event): Outcome
  {
    match e
    case New(size, isArray, nothrow, returnAddr, supply) =>
      Running(OperatorNew(s, size, isArray, nothrow, returnAddr, supply).state)
    case Delete(p, isArray, nothrow) =>
      (match OperatorDelete(s, p, isArray, nothrow)
       case Deleted(st, _) => Running(st)
       case Halted(msg) => Stopped(msg))
    case SetMode(mode) =>
      (match SetDetectMode(s, mode)
       case Continue(st) => Running(st)
       case Stop(msg) => Stopped(msg))
    case Construct(path) =>
      (match CreateReporter(s, path)
       case Continue(st) => Running(st)
       case Stop(msg) => Stopped(msg))
    case Destruct => Running(EndTracking(s))
  }

  /** A sequence of events, stopping at the first halt. */
  function Run(s: State, es: seq<Event>): Outcome
    decreases |es|
  {
    if es == [] then Running(s)
    else match Apply(s, es[0])
      case Running(st) => Run(st, es[1..])
      case Stopped(msg) => Stopped(msg)
  }

  /** One event keeps the ledger invariant and never lowers the counter. */
  lemma {:induction false} ApplyKeepsValid(s: State, e: Event)
    requires Valid(s.ledger)
    ensures Apply(s, e).Running? ==> Valid(Apply(s, e).state.ledger)
    ensures Apply(s, e).Running? ==> s.ledger.counter <= Apply(s, e).state.ledger.counter
  {
    match e
    case New(size, isArray, nothrow, returnAddr, supply) =>
      var r := CommonAllocation(s, size, isArray, returnAddr, supply);
      if !s.forcedUsual && r.Returned? {
        RecordKeepsValid(s.ledger, r.ptr, returnAddr, isArray);
      }
    case Delete(p, isArray, nothrow) =>
      if !s.forcedUsual && Classify(s.ledger, p, isArray) == Retirable {
        RetireKeepsValid(s.ledger, p);
      }
    case SetMode(_) =>
    case Construct(_) =>
    case Destruct =>
  }

  /** Every run keeps the ledger invariant: live and freed blocks stay disjoint,
      null is never recorded and sequence numbers stay distinct. */
  lemma {:induction false} RunKeepsValid(s: State, es: seq<Event>)
    requires Valid(s.ledger)
    ensures Run(s, es).Running? ==> Valid(Run(s, es).state.ledger)
    ensures Run(s, es).Running? ==> s.ledger.counter <= Run(s, es).state.ledger.counter
    decreases |es|
  {
    if es != [] {
      ApplyKeepsValid(s, es[0]);
      match Apply(s, es[0])
      case Running(st) => RunKeepsValid(st, es[1..]);
      case Stopped(_) =>
    }
  }

  /** Every run from program start that does not halt keeps the ledger invariant. */
  lemma {:induction false} RunFromStartValid(es: seq<Event>)
    ensures Run(Start, es).Running? ==> Valid(Run(Start, es).state.ledger)
  {
    EmptyIsValid();
    RunKeepsValid(Start, es);
  }

  /** Once a reporter exists, no run can change the detection mode, and the
      reporter stays the only one. */
  lemma {:induction false} ModeFrozenAfterReporter(s: State, es: seq<Event>)
    requires s.reporterCreated
    ensures Run(s, es).Running? ==> Run(s, es).state.mode == s.mode && Run(s, es).state.reporterCreated
    decreases |es|
  {
    if es != [] {
      match Apply(s, es[0])
      case Running(st) =>
        assert st.mode == s.mode && st.reporterCreated;
        ModeFrozenAfterReporter(st, es[1..]);
      case Stopped(_) =>
    }
  }

  /** Once tracking is switched off it never comes back, and the ledger the
      report is built from is frozen. */
  lemma {:induction false} BypassIsPermanent(s: State, es: seq<Event>)
    requires s.forcedUsual
    ensures Run(s, es).Running? ==> Run(s, es).state.forcedUsual && Run(s, es).state.ledger == s.ledger
    decreases |es|
  {
    if es != [] {
      match Apply(s, es[0])
      case Running(st) =>
        assert st.forcedUsual && st.ledger == s.ledger;
        BypassIsPermanent(st, es[1..]);
      case Stopped(_) =>
    }
  }
}
