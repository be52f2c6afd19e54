/**
 The reporter's destructor: stop tracking, snapshot the unfreed and the
 complete allocation lists, sort both chronologically, resolve and count
 them, and warn when anything is still live.

 Symbol-service initialisation and report-file creation are not modelled
 beyond whether they succeeded; their results are parameters. The text of the
 report and the blocking key press are not modelled.
 */
module Report {
  import opened Placement
  import opened Ledger
  import opened Hook
  import opened Chronology
  import opened Statistics

  const SymbolInitFailedMessage: string := "Failed to initialize symbol"
  const ReportFileFailedMessage: string := "Failed to create leak report file"

  /** Entry `i` of `list` is the value of `r` at `keys[i]`. */
  ghost predicate KeyedBy(r: map<Ptr, MemRecord>, list: seq<MemRecord>, keys: seq<Ptr>)
  {
    && |list| == |keys|
    && (forall i :: 0 <= i < |list| ==> keys[i] in r && list[i] == r[keys[i]])
  }

  ghost predicate DistinctKeys(keys: seq<Ptr>)
  {
    forall i, j :: 0 <= i < j < |keys| ==> keys[i] != keys[j]
  }

  /** `list` holds one copy of the value of each key of `m`, the key of
      entry `i` being `keys[i]`. */
  ghost predicate SnapshotOf(m: map<Ptr, MemRecord>, list: seq<MemRecord>, keys: seq<Ptr>)
  {
    && |list| == |m|
    && KeyedBy(m, list, keys)
    && DistinctKeys(keys)
    && (forall k :: k in m ==> k in keys)
  }

  /** Copy the values of `m` into a list, one per key, in an unspecified order.
      `keys` names the key each entry was copied from. */
  method Snapshot(m: map<Ptr, MemRecord>) returns (list: seq<MemRecord>, ghost keys: seq<Ptr>)
    ensures |list| == |m|
    ensures SnapshotOf(m, list, keys)
  {
    list := [];
    keys := [];
    var rest := m.Keys;
    while rest != {}
      invariant rest <= m.Keys
      invariant |list| == |keys|
      invariant |keys| + |rest| == |m|
      invariant forall i :: 0 <= i < |list| ==> keys[i] in m && keys[i] !in rest && list[i] == m[keys[i]]
      invariant forall i, j :: 0 <= i < j < |keys| ==> keys[i] != keys[j]
      invariant forall k :: k in m && k !in rest ==> k in keys
      decreases rest
    {
      var k :| k in rest;
      list := list + [m[k]];
      keys := keys + [k];
      rest := rest - {k};
    }
  }

  /** Entries copied from distinct keys of a map with distinct sequence
      numbers carry distinct sequence numbers. */
  lemma {:induction false} KeyedDistinct(r: map<Ptr, MemRecord>, list: seq<MemRecord>, keys: seq<Ptr>)
    requires IdxUnique(r)
    requires KeyedBy(r, list, keys) && DistinctKeys(keys)
    ensures DistinctIdx(list)
  {
    forall i, j | 0 <= i < j < |list|
      ensures list[i].allocIdx != list[j].allocIdx
    {
      assert keys[i] != keys[j];
    }
  }

  /** A list keyed by a map is keyed by any map that extends it. */
  lemma {:induction false} KeyedWithin(m: map<Ptr, MemRecord>, r: map<Ptr, MemRecord>, list: seq<MemRecord>, keys: seq<Ptr>)
    requires KeyedBy(m, list, keys)
    requires forall k :: k in m ==> k in r && r[k] == m[k]
    ensures KeyedBy(r, list, keys)
  {
    forall i | 0 <= i < |list|
      ensures keys[i] in r && list[i] == r[keys[i]]
    {
      assert keys[i] in m;
    }
  }

  /** Keyed lists concatenate. */
  lemma {:induction false} KeyedConcat(r: map<Ptr, MemRecord>, a: seq<MemRecord>, ka: seq<Ptr>, b: seq<MemRecord>, kb: seq<Ptr>)
    requires KeyedBy(r, a, ka) && KeyedBy(r, b, kb)
    ensures KeyedBy(r, a + b, ka + kb)
  {
    forall i | 0 <= i < |a + b|
      ensures (ka + kb)[i] in r && (a + b)[i] == r[(ka + kb)[i]]
    {
      if i < |a| {
        assert (a + b)[i] == a[i] && (ka + kb)[i] == ka[i];
      } else {
        assert (a + b)[i] == b[i - |a|] && (ka + kb)[i] == kb[i - |a|];
      }
    }
  }

  /** Distinct keys drawn from disjoint sets stay distinct when concatenated. */
  lemma {:induction false} DistinctConcat(ka: seq<Ptr>, kb: seq<Ptr>, sa: set<Ptr>, sb: set<Ptr>)
    requires DistinctKeys(ka) && DistinctKeys(kb) && sa !! sb
    requires forall i :: 0 <= i < |ka| ==> ka[i] in sa
    requires forall i :: 0 <= i < |kb| ==> kb[i] in sb
    ensures DistinctKeys(ka + kb)
  {
    var k := ka + kb;
    forall i, j | 0 <= i < j < |k|
      ensures k[i] != k[j]
    {
      if j < |ka| {
        assert k[i] == ka[i] && k[j] == ka[j];
      } else if i >= |ka| {
        assert k[i] == kb[i - |ka|] && k[j] == kb[j - |ka|];
      } else {
        assert k[i] == ka[i] && k[j] == kb[j - |ka|];
      }
    }
  }

  /** With disjoint maps, every record is found under its own key. */
  lemma RecordsSplit(l: Ledger)
    requires l.live.Keys !! l.freed.Keys
    ensures forall k :: k in l.live ==> k in Records(l) && Records(l)[k] == l.live[k]
    ensures forall k :: k in l.freed ==> k in Records(l) && Records(l)[k] == l.freed[k]
  {
  }

  /** A snapshot lists exactly the values of its map. */
  lemma {:induction false} SnapshotContents(m: map<Ptr, MemRecord>, list: seq<MemRecord>, keys: seq<Ptr>)
    requires SnapshotOf(m, list, keys)
    ensures forall r :: r in list <==> r in m.Values
  {
    forall r | r in m.Values
      ensures r in list
    {
      var k :| k in m && m[k] == r;
      var i :| 0 <= i < |keys| && keys[i] == k;
      assert list[i] == r;
    }
  }

  /** In a valid ledger the live snapshot, and the live snapshot followed by
      the freed one, carry distinct sequence numbers. */
  lemma {:induction false} SnapshotsDistinct(l: Ledger, liveList: seq<MemRecord>, liveKeys: seq<Ptr>,
                                             freedList: seq<MemRecord>, freedKeys: seq<Ptr>)
    requires Valid(l)
    requires SnapshotOf(l.live, liveList, liveKeys) && SnapshotOf(l.freed, freedList, freedKeys)
    ensures DistinctIdx(liveList)
    ensures DistinctIdx(liveList + freedList)
  {
    var r := Records(l);
    RecordsSplit(l);
    KeyedWithin(l.live, r, liveList, liveKeys);
    KeyedWithin(l.freed, r, freedList, freedKeys);
    KeyedConcat(r, liveList, liveKeys, freedList, freedKeys);
    DistinctConcat(liveKeys, freedKeys, l.live.Keys, l.freed.Keys);
    KeyedDistinct(r, liveList + freedList, liveKeys + freedKeys);
    KeyedDistinct(r, liveList, liveKeys);
  }

  /** The two sorted snapshots of the destructor: the unfreed list holds the
      live records, the allocation list the live then the freed ones. */
  method PrepareReport(l: Ledger) returns (unfreed: seq<MemRecord>, all: seq<MemRecord>)
    ensures |unfreed| == |l.live|
    ensures |all| == |l.live| + |l.freed|
    ensures forall r :: r in unfreed <==> r in l.live.Values
    ensures forall r :: r in all <==> r in l.live.Values || r in l.freed.Values
    ensures Sorted(unfreed) && Sorted(all)
    ensures Valid(l) ==> StrictlySorted(unfreed) && StrictlySorted(all)
  {
    var liveList, liveKeys := Snapshot(l.live);
    var freedList, freedKeys := Snapshot(l.freed);
    SnapshotContents(l.live, liveList, liveKeys);
    SnapshotContents(l.freed, freedList, freedKeys);
    if Valid(l) {
      SnapshotsDistinct(l, liveList, liveKeys, freedList, freedKeys);
    }
    var gathered := liveList + freedList;
    unfreed := Sort(liveList);
    all := Sort(gathered);
    SortKeepsEntries(liveList);
    SortKeepsEntries(gathered);
  }

  /** Every recorded call site, live or freed, can be resolved. */
  ghost predicate LedgerResolves(l: Ledger, resolve: nat -> Lookup)
  {
    && (forall p :: p in l.live ==> resolve(l.live[p].returnAddr).Resolved?)
    && (forall p :: p in l.freed ==> resolve(l.freed[p].returnAddr).Resolved?)
  }

  /** One resolved and counted list: the chronological listing of its call
      sites, its statistics, their file sections and the total. */
  datatype Summary = Summary(listing: seq<Symbol>, stats: Stats, sections: seq<FileSection>, total: nat)

  /** `sum` is the complete report of `list`. */
  ghost predicate Summarises(sum: Summary, list: seq<MemRecord>, resolve: nat -> Lookup)
  {
    && |sum.listing| == |list|
    && (forall i :: 0 <= i < |list| ==> resolve(list[i].returnAddr) == Resolved(sum.listing[i]))
    && CountsAdd(sum.stats, map[], list, resolve)
    && WellFormed(sum.stats)
    && sum.total == |list| == Total(sum.stats)
    && |sum.sections| == |sum.stats|
    && (forall i :: 0 <= i < |sum.sections| ==> SectionOf(sum.sections[i], sum.stats))
    && (forall f :: f in sum.stats ==> exists i :: 0 <= i < |sum.sections| && sum.sections[i].file == f)
  }

  /** Either a summary or the failure of some lookup. */
  datatype Counted = Counted(summary: Summary) | Unresolvable

  /** `report_and_fill_in_statistics` followed by `report_statistics`, on fresh statistics. */
  method Summarise(list: seq<MemRecord>, resolve: nat -> Lookup) returns (c: Counted)
    ensures c.Unresolvable? <==> exists i :: 0 <= i < |list| && resolve(list[i].returnAddr).Unresolved?
    ensures c.Counted? ==> Summarises(c.summary, list, resolve)
  {
    EmptyStats();
    var filled := FillStatistics(map[], list, resolve);
    if filled.LookupFailed? {
      return Unresolvable;
    }
    var sections, total := ReportStatistics(filled.stats);
    return Counted(Summary(filled.listing, filled.stats, sections, total));
  }

  /** The summary of no records. */
  lemma EmptySummary(resolve: nat -> Lookup)
    ensures Summarises(Summary([], map[], [], 0), [], resolve)
  {
    EmptyStats();
  }

  /** What the destructor leaves behind: the sorted lists, the leak and the
      allocation summaries, and whether the user was warned; or the message
      it halted with. */
  datatype Shutdown =
    | Reported(state: State, unfreed: seq<MemRecord>, all: seq<MemRecord>, leaks: Summary, allocs: Summary, warned: bool)
    | Aborted(message: string)

  /** `~LeakReporter`. */
  method Teardown(s: State, resolve: nat -> Lookup, symbolsReady: bool, fileOpened: bool) returns (t: Shutdown)
    ensures t.Aborted? <==> !symbolsReady || !fileOpened || !LedgerResolves(s.ledger, resolve)
    ensures t.Aborted? && !symbolsReady ==> t.message == SymbolInitFailedMessage
    ensures t.Aborted? && symbolsReady && !fileOpened ==> t.message == ReportFileFailedMessage
    ensures t.Aborted? && symbolsReady && fileOpened ==> t.message == LookupFailedMessage
    ensures t.Reported? ==> t.state == EndTracking(s)
    ensures t.Reported? ==> forall r :: r in t.unfreed <==> r in s.ledger.live.Values
    ensures t.Reported? ==> forall r :: r in t.all <==> r in s.ledger.live.Values || r in s.ledger.freed.Values
    ensures t.Reported? && Valid(s.ledger) ==> StrictlySorted(t.unfreed) && StrictlySorted(t.all)
    ensures t.Reported? ==> Summarises(t.leaks, t.unfreed, resolve) && Summarises(t.allocs, t.all, resolve)
    ensures t.Reported? ==> t.leaks.total == |s.ledger.live|
    ensures t.Reported? ==> t.allocs.total == |s.ledger.live| + |s.ledger.freed|
    ensures t.Reported? ==> (t.warned <==> s.ledger.live != map[])
  {
    var unfreed, all := PrepareReport(s.ledger);
    if !symbolsReady {
      return Aborted(SymbolInitFailedMessage);
    }
    if !fileOpened {
      return Aborted(ReportFileFailedMessage);
    }
    var leaks := Summary([], map[], [], 0);
    EmptySummary(resolve);
    if unfreed != [] {
      var counted := Summarise(unfreed, resolve);
      if counted.Unresolvable? {
        UnresolvedRecord(s.ledger, unfreed, all, resolve);
        return Aborted(LookupFailedMessage);
      }
      leaks := counted.summary;
    }
    var countedAll := Summarise(all, resolve);
    if countedAll.Unresolvable? {
      UnresolvedRecord(s.ledger, unfreed, all, resolve);
      return Aborted(LookupFailedMessage);
    }
    ResolvedRecords(s.ledger, all, resolve);
    return Reported(EndTracking(s), unfreed, all, leaks, countedAll.summary, s.ledger.live != map[]);
  }

  /** Empty statistics count nothing. */
  lemma EmptyStats()
    ensures Total(map[]) == 0
    ensures WellFormed(map[])
  {
    assert FileTotals(map[]) == map[];
  }

  /** An unresolvable entry of either list is an unresolvable record of the ledger. */
  lemma UnresolvedRecord(l: Ledger, unfreed: seq<MemRecord>, all: seq<MemRecord>, resolve: nat -> Lookup)
    requires forall r :: r in unfreed <==> r in l.live.Values
    requires forall r :: r in all <==> r in l.live.Values || r in l.freed.Values
    requires (exists i :: 0 <= i < |unfreed| && resolve(unfreed[i].returnAddr).Unresolved?)
          || (exists i :: 0 <= i < |all| && resolve(all[i].returnAddr).Unresolved?)
    ensures !LedgerResolves(l, resolve)
  {
    var r: MemRecord;
    if i :| 0 <= i < |unfreed| && resolve(unfreed[i].returnAddr).Unresolved? {
      r := unfreed[i];
    } else {
      var i :| 0 <= i < |all| && resolve(all[i].returnAddr).Unresolved?;
      r := all[i];
    }
    assert r in l.live.Values || r in l.freed.Values;
    if r in l.live.Values {
      var p :| p in l.live && l.live[p] == r;
    } else {
      var p :| p in l.freed && l.freed[p] == r;
    }
  }

  /** When every entry of the allocation list resolves, so does every record. */
  lemma ResolvedRecords(l: Ledger, all: seq<MemRecord>, resolve: nat -> Lookup)
    requires forall r :: r in all <==> r in l.live.Values || r in l.freed.Values
    requires forall i :: 0 <= i < |all| ==> resolve(all[i].returnAddr).Resolved?
    ensures LedgerResolves(l, resolve)
  {
    forall p | p in l.live
      ensures resolve(l.live[p].returnAddr).Resolved?
    {
      assert l.live[p] in l.live.Values;
      var i :| 0 <= i < |all| && all[i] == l.live[p];
    }
    forall p | p in l.freed
      ensures resolve(l.freed[p].returnAddr).Resolved?
    {
      assert l.freed[p] in l.freed.Values;
      var i :| 0 <= i < |all| && all[i] == l.freed[p];
    }
  }
}
