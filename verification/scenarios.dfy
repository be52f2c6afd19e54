/**
 Whole-program consequences of the hook: short runs of requests and the halt
 or the ledger they end in.
 */
module Scenarios {
  import opened Placement
  import opened Ledger
  import opened Hook

  /** A tracked state in which a request with `supply` gets the fresh pointer `p`. */
  ghost predicate FreshAllocation(s: State, size: nat, supply: Supply, p: Ptr)
  {
    && !s.forcedUsual
    && p == AllocIt(s.mode, size, supply)
    && p != Null
    && p !in s.ledger.live
  }

  /** Allocating and then releasing a block with the matching form leaves the
      live blocks as they were and keeps the record among the freed ones. */
  lemma {:induction false} NewThenDeleteRoundTrip(s: State, size: nat, isArray: bool, nothrow: bool,
                                                  returnAddr: nat, supply: Supply, p: Ptr, nothrow2: bool)
    requires FreshAllocation(s, size, supply, p)
    ensures var o := Run(s, [New(size, isArray, nothrow, returnAddr, supply), Delete(p, isArray, nothrow2)]);
            && o.Running?
            && o.state.ledger.live == s.ledger.live
            && o.state.ledger.freed == (s.ledger.freed - {p})[p := MemRecord(returnAddr, s.ledger.counter, isArray)]
            && o.state.ledger.counter == s.ledger.counter + 1
  {
    var s1 := s.(ledger := Record(s.ledger, p, returnAddr, isArray));
    assert Apply(s, New(size, isArray, nothrow, returnAddr, supply)) == Running(s1);
    assert Classify(s1.ledger, p, isArray) == Retirable;
    RetireUndoesRecord(s.ledger, p, returnAddr, isArray);
    var s2 := s1.(ledger := Retire(s1.ledger, p));
    assert Apply(s1, Delete(p, isArray, nothrow2)) == Running(s2);
    var es := [New(size, isArray, nothrow, returnAddr, supply), Delete(p, isArray, nothrow2)];
    assert es[1..] == [Delete(p, isArray, nothrow2)] && es[1..][1..] == [];
    assert Run(s1, es[1..]) == Running(s2);
  }

  /** Releasing the same block twice halts with the double-delete message. */
  lemma {:induction false} SecondDeleteHalts(s: State, size: nat, isArray: bool, nothrow: bool,
                                             returnAddr: nat, supply: Supply, p: Ptr)
    requires FreshAllocation(s, size, supply, p)
    ensures Run(s, [New(size, isArray, nothrow, returnAddr, supply), Delete(p, isArray, false), Delete(p, isArray, false)])
            == Stopped(DoubleDeleteMessage)
  {
    var s1 := s.(ledger := Record(s.ledger, p, returnAddr, isArray));
    assert Apply(s, New(size, isArray, nothrow, returnAddr, supply)) == Running(s1);
    var s2 := s1.(ledger := Retire(s1.ledger, p));
    assert Apply(s1, Delete(p, isArray, false)) == Running(s2);
    assert Classify(s2.ledger, p, isArray) == DoubleDelete;
    var rest := [Delete(p, isArray, false)];
    assert Run(s2, rest) == Stopped(DoubleDeleteMessage);
    assert [New(size, isArray, nothrow, returnAddr, supply), Delete(p, isArray, false), Delete(p, isArray, false)][1..]
           == [Delete(p, isArray, false), Delete(p, isArray, false)];
    assert [Delete(p, isArray, false), Delete(p, isArray, false)][1..] == rest;
  }

  /** Releasing a block with the other form halts with the matching
      mismatch message, whichever way round the forms are mixed. */
  lemma {:induction false} MismatchedFormHalts(s: State, size: nat, isArray: bool, nothrow: bool,
                                               returnAddr: nat, supply: Supply, p: Ptr, nothrow2: bool)
    requires FreshAllocation(s, size, supply, p)
    ensures Run(s, [New(size, isArray, nothrow, returnAddr, supply), Delete(p, !isArray, nothrow2)])
            == Stopped(if isArray then NewArrayDeleteMessage else NewDeleteArrayMessage)
  {
    var s1 := s.(ledger := Record(s.ledger, p, returnAddr, isArray));
    assert Apply(s, New(size, isArray, nothrow, returnAddr, supply)) == Running(s1);
    assert Classify(s1.ledger, p, !isArray)
           == (if isArray then MismatchedNewArrayDelete else MismatchedNewDeleteArray);
    var es := [New(size, isArray, nothrow, returnAddr, supply), Delete(p, !isArray, nothrow2)];
    assert es[1..] == [Delete(p, !isArray, nothrow2)];
  }

  /** Releasing an address that was never handed out halts with the
      non-heap message; releasing null is ignored. */
  lemma {:induction false} UnknownPointerHalts(s: State, p: Ptr, isArray: bool, nothrow: bool)
    requires !s.forcedUsual
    requires p !in s.ledger.live && p !in s.ledger.freed
    ensures p != Null ==> Run(s, [Delete(p, isArray, nothrow)]) == Stopped(NonHeapMessage)
    ensures p == Null ==> Run(s, [Delete(p, isArray, nothrow)]) == Running(s)
  {
    assert [Delete(p, isArray, nothrow)][1..] == [];
  }

  /** A `nothrow` request that cannot be placed yields null and records nothing. */
  lemma {:induction false} NothrowFailureIsNull(s: State, size: nat, isArray: bool, returnAddr: nat, supply: Supply)
    requires !s.forcedUsual
    requires AllocIt(s.mode, size, supply) == Null
    ensures OperatorNew(s, size, isArray, true, returnAddr, supply) == Returned(Null, s)
    ensures OperatorNew(s, size, isArray, false, returnAddr, supply) == BadAlloc(s)
    ensures Run(s, [New(size, isArray, true, returnAddr, supply)]) == Running(s)
  {
    assert [New(size, isArray, true, returnAddr, supply)][1..] == [];
  }

  /** After the reporter's destructor has run, requests are served by the
      plain heap and deletes of anything at all are accepted. */
  lemma {:induction false} UntrackedAfterTeardown(s: State, p: Ptr, isArray: bool, nothrow: bool)
    ensures var t := EndTracking(s);
            && OperatorDelete(t, p, isArray, nothrow) == Deleted(t, HeapFree(p))
            && Run(s, [Destruct, Delete(p, isArray, nothrow)]) == Running(t)
  {
    var t := EndTracking(s);
    assert Apply(s, Destruct) == Running(t);
    assert [Destruct, Delete(p, isArray, nothrow)][1..] == [Delete(p, isArray, nothrow)];
    assert Run(t, [Delete(p, isArray, nothrow)]) == Running(t);
  }

  /** `dealloc_it` chooses the release by the mode current at the delete. A
      block served by the heap at start-up, before the program switches to a
      detection mode, is therefore decommitted rather than freed. */
  lemma {:induction false} ModeSwitchDecommitsHeapBlock(size: nat, isArray: bool, nothrow: bool, returnAddr: nat,
                                                        h: Ptr, mode: DetectMode, nothrow2: bool)
    requires h != Null
    requires mode != NoAccessDetection
    ensures var o := Run(Start, [New(size, isArray, nothrow, returnAddr, Supply(Null, h)), SetMode(mode)]);
            && o.Running?
            && h in o.state.ledger.live
            && OperatorDelete(o.state, h, isArray, nothrow2).Deleted?
            && OperatorDelete(o.state, h, isArray, nothrow2).release == Decommit(h)
  {
    var s1 := Start.(ledger := Record(Start.ledger, h, returnAddr, isArray));
    assert Apply(Start, New(size, isArray, nothrow, returnAddr, Supply(Null, h))) == Running(s1);
    var s2 := s1.(mode := mode);
    assert Apply(s1, SetMode(mode)) == Running(s2);
    var es := [New(size, isArray, nothrow, returnAddr, Supply(Null, h)), SetMode(mode)];
    assert es[1..] == [SetMode(mode)] && es[1..][1..] == [];
    assert Run(s1, es[1..]) == Running(s2);
    assert Classify(s2.ledger, h, isArray) == Retirable;
  }
}
