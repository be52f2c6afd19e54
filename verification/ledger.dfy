/**
 The allocation ledger: every live block keyed by its pointer, every validly
 freed block kept for double-delete classification, and the sequence counter
 that numbers allocations.
 */
module Ledger {
  import opened Placement

  /** What is remembered about one allocation: its caller's return address,
      its sequence number and whether it came from an array `new`. */
  datatype MemRecord = MemRecord(returnAddr: nat, allocIdx: nat, isNewArray: bool)

  /** Live blocks, freed blocks and the next sequence number. */
  datatype Ledger = Ledger(live: map<Ptr, MemRecord>, freed: map<Ptr, MemRecord>, counter: nat)

  const Empty: Ledger := Ledger(map[], map[], 0)

  /** Insertion as `unordered_map::emplace` does it: an existing key keeps its value. */
  function Emplace(m: map<Ptr, MemRecord>, k: Ptr, v: MemRecord): (m': map<Ptr, MemRecord>)
    ensures k in m' && m'[k] == (if k in m then m[k] else v)
    ensures forall q :: q != k ==> (q in m' <==> q in m)
    ensures forall q :: q != k && q in m ==> m'[q] == m[q]
  {
    if k in m then m else m[k := v]
  }

  /** No two entries of `m` share a sequence number. */
  ghost predicate IdxUnique(m: map<Ptr, MemRecord>)
  {
    forall p, q :: p in m && q in m && p != q ==> m[p].allocIdx != m[q].allocIdx
  }

  /** Every entry, live or freed. The two maps are disjoint in a valid ledger. */
  function Records(l: Ledger): map<Ptr, MemRecord>
  {
    l.live + l.freed
  }

  /** The ledger invariant: null is never recorded, a block is never both live
      and freed, and sequence numbers are distinct and below the counter. */
  ghost predicate Valid(l: Ledger)
  {
    && Null !in l.live
    && Null !in l.freed
    && l.live.Keys !! l.freed.Keys
    && (forall p :: p in Records(l) ==> Records(l)[p].allocIdx < l.counter)
    && IdxUnique(Records(l))
  }

  lemma EmptyIsValid()
    ensures Valid(Empty)
    ensures Records(Empty) == map[]
  {
  }

  /** Bookkeeping of a successful tracked allocation of `p`: the record takes
      the current counter, the counter moves on, and an older freed entry for
      the same address is forgotten. */
  function Record(l: Ledger, p: Ptr, returnAddr: nat, isNewArray: bool): (l': Ledger)
    ensures l'.counter == l.counter + 1
    ensures p in l'.live && p !in l'.freed
    ensures p !in l.live ==> l'.live[p] == MemRecord(returnAddr, l.counter, isNewArray)
    ensures p in l.live ==> l'.live == l.live
    ensures forall q :: q != p ==> (q in l'.live <==> q in l.live)
    ensures forall q :: q != p && q in l.live ==> l'.live[q] == l.live[q]
    ensures l'.freed == l.freed - {p}
  {
    Ledger(Emplace(l.live, p, MemRecord(returnAddr, l.counter, isNewArray)), l.freed - {p}, l.counter + 1)
  }

  /** Bookkeeping of a valid delete of the live block `p`: its record moves,
      unchanged, to the freed entries. */
  function Retire(l: Ledger, p: Ptr): (l': Ledger)
    requires p in l.live
    ensures p !in l'.live && p in l'.freed
    ensures p !in l.freed ==> l'.freed[p] == l.live[p]
    ensures l'.live == l.live - {p}
    ensures forall q :: q != p ==> (q in l'.freed <==> q in l.freed)
    ensures forall q :: q != p && q in l.freed ==> l'.freed[q] == l.freed[q]
    ensures l'.counter == l.counter
  {
    Ledger(l.live - {p}, Emplace(l.freed, p, l.live[p]), l.counter)
  }

  /** The outcome of checking a delete request, in the order the checks run. */
  datatype Verdict =
    | NullNoop
    | DoubleDelete
    | NonHeapPointer
    | MismatchedNewDeleteArray   // scalar new released by delete[]
    | MismatchedNewArrayDelete   // new[] released by scalar delete
    | Retirable

  /** Classification of a delete of `p` (array form when `isArrayDelete`). */
  function Classify(l: Ledger, p: Ptr, isArrayDelete: bool): (v: Verdict)
    ensures v == NullNoop <==> p == Null
    ensures v == DoubleDelete <==> p != Null && p !in l.live && p in l.freed
    ensures v == NonHeapPointer <==> p != Null && p !in l.live && p !in l.freed
    ensures v == MismatchedNewDeleteArray <==>
              p != Null && p in l.live && !l.live[p].isNewArray && isArrayDelete
    ensures v == MismatchedNewArrayDelete <==>
              p != Null && p in l.live && l.live[p].isNewArray && !isArrayDelete
    ensures v == Retirable <==> p != Null && p in l.live && l.live[p].isNewArray == isArrayDelete
  {
    if p == Null then NullNoop
    else if p !in l.live then
      (if p in l.freed then DoubleDelete else NonHeapPointer)
    else if l.live[p].isNewArray != isArrayDelete then
      (if isArrayDelete then MismatchedNewDeleteArray else MismatchedNewArrayDelete)
    else Retirable
  }

  /** A recorded block is released only by the matching form: exactly one
      of the two delete forms is accepted for it. */
  lemma ExactlyOneFormRetires(l: Ledger, p: Ptr)
    requires p != Null && p in l.live
    ensures (Classify(l, p, true) == Retirable) != (Classify(l, p, false) == Retirable)
    ensures Classify(l, p, l.live[p].isNewArray) == Retirable
  {
  }

  /** A record numbered above every existing one keeps sequence numbers distinct. */
  lemma {:induction false} IdxUniqueExtend(m: map<Ptr, MemRecord>, p: Ptr, r: MemRecord)
    requires IdxUnique(m)
    requires forall q :: q in m ==> m[q].allocIdx < r.allocIdx
    ensures IdxUnique(m[p := r])
  {
    var m' := m[p := r];
    forall a, b | a in m' && b in m' && a != b
      ensures m'[a].allocIdx != m'[b].allocIdx
    {
      if a != p && b != p {
        assert m'[a] == m[a] && m'[b] == m[b];
      }
    }
  }

  /** Recording a fresh pointer keeps the ledger invariant, and its sequence
      number is above every number handed out before. */
  lemma {:induction false} RecordKeepsValid(l: Ledger, p: Ptr, returnAddr: nat, isNewArray: bool)
    requires Valid(l)
    requires p != Null
    ensures Valid(Record(l, p, returnAddr, isNewArray))
    ensures forall q :: q in Records(l) ==> Records(l)[q].allocIdx < Record(l, p, returnAddr, isNewArray).counter - 1
  {
    if p !in l.live {
      RecordFreshRecords(l, p, returnAddr, isNewArray);
      IdxUniqueExtend(Records(l), p, MemRecord(returnAddr, l.counter, isNewArray));
    }
  }

  /** Recording a pointer that is not live adds exactly its new record to
      the records, replacing any freed one. */
  lemma RecordFreshRecords(l: Ledger, p: Ptr, returnAddr: nat, isNewArray: bool)
    requires p !in l.live
    ensures Records(Record(l, p, returnAddr, isNewArray)) == Records(l)[p := MemRecord(returnAddr, l.counter, isNewArray)]
  {
  }

  /** Retiring a live block keeps the ledger invariant and the set of all
      records: only the side the record sits on changes. */
  lemma {:induction false} RetireKeepsValid(l: Ledger, p: Ptr)
    requires Valid(l)
    requires p in l.live
    ensures Valid(Retire(l, p))
    ensures Records(Retire(l, p)) == Records(l)
  {
    var l' := Retire(l, p);
    assert Records(l') == Records(l);
  }

  /** Retire undoes Record: allocating a fresh pointer and deleting it again
      leaves the live blocks as they were and files the new record as freed. */
  lemma {:induction false} RetireUndoesRecord(l: Ledger, p: Ptr, returnAddr: nat, isNewArray: bool)
    requires p !in l.live
    ensures var l' := Retire(Record(l, p, returnAddr, isNewArray), p);
            && l'.live == l.live
            && l'.freed == (l.freed - {p})[p := MemRecord(returnAddr, l.counter, isNewArray)]
            && l'.counter == l.counter + 1
  {
    var l1 := Record(l, p, returnAddr, isNewArray);
    assert l1.live - {p} == l.live;
  }
}
