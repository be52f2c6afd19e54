/**
 Chronological ordering of allocation records: records compare by sequence
 number only, and the reporter sorts its snapshots with that order.
 */
module Chronology {
  import opened Ledger

  /** The record order of the source: by sequence number alone. */
  predicate Before(a: MemRecord, b: MemRecord)
  {
    a.allocIdx < b.allocIdx
  }

  ghost predicate Sorted(s: seq<MemRecord>)
  {
    forall i, j :: 0 <= i < j < |s| ==> s[i].allocIdx <= s[j].allocIdx
  }

  ghost predicate StrictlySorted(s: seq<MemRecord>)
  {
    forall i, j :: 0 <= i < j < |s| ==> s[i].allocIdx < s[j].allocIdx
  }

  /** No two entries of `s` carry the same sequence number. */
  ghost predicate DistinctIdx(s: seq<MemRecord>)
  {
    forall i, j :: 0 <= i < j < |s| ==> s[i].allocIdx != s[j].allocIdx
  }

  /** Every entry of `s` satisfies `p`. */
  ghost predicate All(s: seq<MemRecord>, p: MemRecord -> bool)
  {
    forall i :: 0 <= i < |s| ==> p(s[i])
  }

  /** A property of every entry survives a permutation. */
  lemma {:induction false} AllPermutes(t: seq<MemRecord>, u: seq<MemRecord>, p: MemRecord -> bool)
    requires multiset(t) == multiset(u)
    ensures All(u, p) ==> All(t, p)
  {
    forall i | 0 <= i < |t| && All(u, p)
      ensures p(t[i])
    {
      assert t[i] in multiset(u);
      var k :| 0 <= k < |u| && u[k] == t[i];
    }
  }

  /** Putting a head in front of a sorted list that lies above it keeps it sorted. */
  lemma {:induction false} ConsSorted(h: MemRecord, t: seq<MemRecord>)
    requires Sorted(t)
    requires All(t, (y: MemRecord) => h.allocIdx <= y.allocIdx)
    ensures Sorted([h] + t)
    ensures StrictlySorted(t) && All(t, (y: MemRecord) => h.allocIdx < y.allocIdx) ==> StrictlySorted([h] + t)
  {
    var r := [h] + t;
    assert forall i :: 1 <= i < |r| ==> r[i] == t[i - 1];
  }

  /** `x` goes in front of the sorted `s` when it does not come after its head. */
  lemma {:induction false} InsertFront(x: MemRecord, s: seq<MemRecord>)
    requires Sorted(s) && s != [] && !Before(s[0], x)
    ensures Sorted([x] + s)
    ensures StrictlySorted(s) && All(s, (y: MemRecord) => y.allocIdx != x.allocIdx) ==> StrictlySorted([x] + s)
  {
    assert forall i :: 0 <= i < |s| ==> s[0].allocIdx <= s[i].allocIdx;
    ConsSorted(x, s);
  }

  /** Every entry of `tail`, a permutation of the rest of `s` plus `x`, lies
      above the head of `s` (strictly, when `s` is strictly sorted). */
  lemma {:induction false} BehindBound(x: MemRecord, s: seq<MemRecord>, tail: seq<MemRecord>)
    requires Sorted(s) && s != [] && Before(s[0], x)
    requires multiset(tail) == multiset(s[1..]) + multiset{x}
    ensures All(tail, (y: MemRecord) => s[0].allocIdx <= y.allocIdx)
    ensures StrictlySorted(s) ==> All(tail, (y: MemRecord) => s[0].allocIdx < y.allocIdx)
  {
    var lo := s[0].allocIdx;
    var u := s[1..] + [x];
    assert multiset(tail) == multiset(u);
    assert forall i :: 0 <= i < |u| - 1 ==> u[i] == s[i + 1];
    AllPermutes(tail, u, (y: MemRecord) => lo <= y.allocIdx);
    if StrictlySorted(s) {
      AllPermutes(tail, u, (y: MemRecord) => lo < y.allocIdx);
    }
  }

  /** The head of the sorted `s` goes in front of `x` inserted into the rest. */
  lemma {:induction false} InsertBehind(x: MemRecord, s: seq<MemRecord>, tail: seq<MemRecord>)
    requires Sorted(s) && s != [] && Before(s[0], x)
    requires multiset(tail) == multiset(s[1..]) + multiset{x}
    requires Sorted(tail)
    requires StrictlySorted(s[1..]) && All(s[1..], (y: MemRecord) => y.allocIdx != x.allocIdx) ==> StrictlySorted(tail)
    ensures multiset([s[0]] + tail) == multiset(s) + multiset{x}
    ensures Sorted([s[0]] + tail)
    ensures StrictlySorted(s) && All(s, (y: MemRecord) => y.allocIdx != x.allocIdx) ==> StrictlySorted([s[0]] + tail)
  {
    assert s == [s[0]] + s[1..];
    BehindBound(x, s, tail);
    ConsSorted(s[0], tail);
  }

  /** Insert `x` into the sorted `s`, before the first entry that does not
      come before it. */
  function Insert(x: MemRecord, s: seq<MemRecord>): (r: seq<MemRecord>)
    requires Sorted(s)
    ensures multiset(r) == multiset(s) + multiset{x}
    ensures Sorted(r)
    ensures StrictlySorted(s) && All(s, (y: MemRecord) => y.allocIdx != x.allocIdx) ==> StrictlySorted(r)
    decreases |s|
  {
    if s == [] then [x]
    else if !Before(s[0], x) then
      InsertFront(x, s);
      [x] + s
    else
      var tail := Insert(x, s[1..]);
      InsertBehind(x, s, tail);
      [s[0]] + tail
  }

  /** Inserting the head into the sorted rest sorts the whole list. */
  lemma {:induction false} SortStep(s: seq<MemRecord>, rest: seq<MemRecord>)
    requires s != []
    requires multiset(rest) == multiset(s[1..])
    requires Sorted(rest)
    requires DistinctIdx(s[1..]) ==> StrictlySorted(rest)
    ensures multiset(Insert(s[0], rest)) == multiset(s)
    ensures DistinctIdx(s) ==> StrictlySorted(Insert(s[0], rest))
  {
    assert s == [s[0]] + s[1..];
    var v := s[0].allocIdx;
    if DistinctIdx(s) {
      assert DistinctIdx(s[1..]);
      assert All(s[1..], (y: MemRecord) => y.allocIdx != v);
      AllPermutes(rest, s[1..], (y: MemRecord) => y.allocIdx != v);
    }
  }

  /** Sort records by sequence number. */
  function Sort(s: seq<MemRecord>): (r: seq<MemRecord>)
    ensures multiset(r) == multiset(s)
    ensures Sorted(r)
    ensures DistinctIdx(s) ==> StrictlySorted(r)
    decreases |s|
  {
    if s == [] then []
    else
      var rest := Sort(s[1..]);
      SortStep(s, rest);
      Insert(s[0], rest)
  }

  /** Sorting keeps the length and the entries. */
  lemma SortKeepsEntries(s: seq<MemRecord>)
    ensures |Sort(s)| == |s|
    ensures forall r :: r in Sort(s) <==> r in s
  {
    var r := Sort(s);
    assert |multiset(r)| == |multiset(s)|;
    forall x
      ensures x in r <==> x in s
    {
      assert x in r <==> x in multiset(r);
      assert x in s <==> x in multiset(s);
    }
  }

  /** Two strictly increasing lists with the same records start alike. */
  lemma {:induction false} HeadsAgree(a: seq<MemRecord>, b: seq<MemRecord>)
    requires StrictlySorted(a) && StrictlySorted(b)
    requires multiset(a) == multiset(b)
    requires a != []
    ensures b != [] && a[0] == b[0]
  {
    assert a[0] in multiset(b);
    var k :| 0 <= k < |b| && b[k] == a[0];
    assert b[0] in multiset(a);
    var j :| 0 <= j < |a| && a[j] == b[0];
    assert k == 0;
  }

  /** Dropping the head drops one copy of it from the records. */
  lemma DropHead(a: seq<MemRecord>)
    requires a != []
    ensures multiset(a[1..]) == multiset(a) - multiset{a[0]}
    ensures StrictlySorted(a) ==> StrictlySorted(a[1..])
  {
    assert a == [a[0]] + a[1..];
  }

  /** Two strictly increasing lists with the same records are the same list. */
  lemma {:induction false} StrictlySortedUnique(a: seq<MemRecord>, b: seq<MemRecord>)
    requires StrictlySorted(a) && StrictlySorted(b)
    requires multiset(a) == multiset(b)
    ensures a == b
    decreases |a|
  {
    if a == [] {
      assert |multiset(b)| == 0;
    } else {
      HeadsAgree(a, b);
      DropHead(a);
      DropHead(b);
      StrictlySortedUnique(a[1..], b[1..]);
      assert a == [a[0]] + a[1..] && b == [b[0]] + b[1..];
    }
  }

  /** With distinct sequence numbers the sorted order does not depend on the
      order the records were gathered in. */
  lemma {:induction false} SortIgnoresGatherOrder(s1: seq<MemRecord>, s2: seq<MemRecord>)
    requires multiset(s1) == multiset(s2)
    requires DistinctIdx(s1) && DistinctIdx(s2)
    ensures Sort(s1) == Sort(s2)
  {
    StrictlySortedUnique(Sort(s1), Sort(s2));
  }
}
