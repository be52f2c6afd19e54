/**
 Leak and allocation statistics: each record's call site is resolved to a
 file, a line and a function name, occurrences are counted per file and line,
 and the counts are summed per file and for the whole program, each with a bar
 of at most thirty stars.

 The symbol service is a total function from a return address to a resolved
 symbol or a failure; its name lookup and its line lookup halt with the same
 message, so one failure outcome stands for both. The order in which files and
 lines are visited is unspecified and nothing here depends on it.
 */
module Statistics {
  import opened Ledger

  /** A resolved call site. `file` stands for the file name the symbol service
      hands back; the statistics are keyed by it, so two call sites fall in the
      same file entry exactly when the service names the same file. */
  datatype Symbol = Symbol(file: string, line: nat, name: string)

  /** Answer of the symbol service for one return address. */
  datatype Lookup = Resolved(symbol: Symbol) | Unresolved

  /** Counts by file, then by line. */
  type Stats = map<string, map<nat, nat>>

  const MaxStars: nat := 30

  const LookupFailedMessage: string := "failed to load symbol from address"

  /** Sum of the values of a map, whatever order its keys are taken in. */
  ghost function SumValues<K>(m: map<K, nat>): nat
    decreases |m|
  {
    if m == map[] then 0
    else
      var k :| k in m;
      m[k] + SumValues(m - {k})
  }

  /** Any key can be taken out first. */
  lemma {:induction false} SumValuesRemove<K>(m: map<K, nat>, k: K)
    requires k in m
    ensures SumValues(m) == m[k] + SumValues(m - {k})
    decreases |m|
  {
    var j :| j in m && SumValues(m) == m[j] + SumValues(m - {j});
    if j != k {
      SumValuesRemove(m - {j}, k);
      SumValuesRemove(m - {k}, j);
      assert m - {j} - {k} == m - {k} - {j};
    }
  }

  /** Overwriting one value shifts the sum by the difference. */
  lemma {:induction false} SumValuesUpdate<K>(m: map<K, nat>, k: K, v: nat)
    ensures SumValues(m[k := v]) + (if k in m then m[k] else 0) == SumValues(m) + v
  {
    SumValuesRemove(m[k := v], k);
    assert m[k := v] - {k} == m - {k};
    if k in m {
      SumValuesRemove(m, k);
    } else {
      assert m - {k} == m;
    }
  }

  /** The count recorded for a file and line; absent entries count zero. */
  function Tally(st: Stats, file: string, line: nat): nat
  {
    if file in st && line in st[file] then st[file][line] else 0
  }

  /** Per-file totals. */
  ghost function FileTotals(st: Stats): map<string, nat>
  {
    map f | f in st :: SumValues(st[f])
  }

  /** Whole-program total. */
  ghost function Total(st: Stats): nat
  {
    SumValues(FileTotals(st))
  }

  /** Only files with at least one line, only lines with a positive count. */
  ghost predicate WellFormed(st: Stats)
  {
    forall f :: f in st ==> st[f] != map[] && forall ln :: ln in st[f] ==> st[f][ln] > 0
  }

  /** Count one more occurrence at a file and line, creating the file's entry
      with a zero count first when it is new. */
  function Bump(st: Stats, file: string, line: nat): (st': Stats)
    ensures Tally(st', file, line) == Tally(st, file, line) + 1
    ensures forall f, ln :: f != file || ln != line ==> Tally(st', f, ln) == Tally(st, f, ln)
    ensures st'.Keys == st.Keys + {file}
  {
    var lines: map<nat, nat> := if file in st then st[file] else map[line := 0];
    var count := if line in lines then lines[line] else 0;
    st[file := lines[line := count + 1]]
  }

  /** Counting keeps every entry non-empty and every count positive. */
  lemma BumpWellFormed(st: Stats, file: string, line: nat)
    requires WellFormed(st)
    ensures WellFormed(Bump(st, file, line))
  {
  }

  /** Counting one occurrence raises the file's total by one. */
  lemma {:induction false} BumpFileTotal(st: Stats, file: string, line: nat)
    ensures file in Bump(st, file, line)
    ensures SumValues(Bump(st, file, line)[file]) == (if file in st then SumValues(st[file]) else 0) + 1
  {
    var lines: map<nat, nat> := if file in st then st[file] else map[line := 0];
    var count := if line in lines then lines[line] else 0;
    SumValuesUpdate(lines, line, count + 1);
    if file !in st {
      SumValuesRemove(lines, line);
      assert lines - {line} == map[];
    }
  }

  /** Counting one occurrence raises the program total by one. */
  lemma {:induction false} BumpTotal(st: Stats, file: string, line: nat)
    ensures Total(Bump(st, file, line)) == Total(st) + 1
  {
    var st' := Bump(st, file, line);
    BumpFileTotal(st, file, line);
    var ft := FileTotals(st);
    var ft' := FileTotals(st');
    assert ft' == ft[file := SumValues(st'[file])] by {
      assert ft'.Keys == ft.Keys + {file};
      forall f | f in ft'
        ensures ft'[f] == ft[file := SumValues(st'[file])][f]
      {
        if f != file {
          assert st'[f] == st[f];
        }
      }
    }
    SumValuesUpdate(ft, file, SumValues(st'[file]));
  }

  /** Lookup `l` names the given file and line. */
  predicate Names(l: Lookup, file: string, line: nat)
  {
    l.Resolved? && l.symbol.file == file && l.symbol.line == line
  }

  /** How many records of `list` resolve to the given file and line. */
  function Hits(list: seq<MemRecord>, resolve: nat -> Lookup, file: string, line: nat): nat
    decreases |list|
  {
    if list == [] then 0
    else
      Hits(list[..|list| - 1], resolve, file, line)
      + (if Names(resolve(list[|list| - 1].returnAddr), file, line) then 1 else 0)
  }

  /** `st` holds the counts of `base` plus the hits of `list`. */
  ghost predicate CountsAdd(st: Stats, base: Stats, list: seq<MemRecord>, resolve: nat -> Lookup)
  {
    forall f, ln :: Tally(st, f, ln) == Tally(base, f, ln) + Hits(list, resolve, f, ln)
  }

  /** Counting one more resolved record extends the counted list by it. */
  lemma {:induction false} CountsAddStep(st: Stats, base: Stats, list: seq<MemRecord>, resolve: nat -> Lookup,
                                         x: MemRecord, sym: Symbol)
    requires CountsAdd(st, base, list, resolve)
    requires resolve(x.returnAddr) == Resolved(sym)
    ensures CountsAdd(Bump(st, sym.file, sym.line), base, list + [x], resolve)
    ensures Total(Bump(st, sym.file, sym.line)) == Total(st) + 1
    ensures WellFormed(st) ==> WellFormed(Bump(st, sym.file, sym.line))
  {
    var list' := list + [x];
    assert list'[..|list'| - 1] == list;
    BumpTotal(st, sym.file, sym.line);
    if WellFormed(st) {
      BumpWellFormed(st, sym.file, sym.line);
    }
  }

  /** Result of counting a record list: the counts and the chronological
      listing of resolved call sites, or the failure of a lookup. */
  datatype Filled = Filled(stats: Stats, listing: seq<Symbol>) | LookupFailed

  /** `st` and `listing` are what counting and listing `prefix` on top of
      `stats` produce. */
  ghost predicate FilledUpTo(st: Stats, listing: seq<Symbol>, stats: Stats, prefix: seq<MemRecord>, resolve: nat -> Lookup)
  {
    && |listing| == |prefix|
    && (forall k :: 0 <= k < |prefix| ==> resolve(prefix[k].returnAddr) == Resolved(listing[k]))
    && CountsAdd(st, stats, prefix, resolve)
    && Total(st) == Total(stats) + |prefix|
    && (WellFormed(stats) ==> WellFormed(st))
  }

  /** Listing and counting one more resolved record. */
  lemma {:induction false} FillStep(st: Stats, listing: seq<Symbol>, stats: Stats, prefix: seq<MemRecord>,
                                    resolve: nat -> Lookup, x: MemRecord, sym: Symbol)
    requires FilledUpTo(st, listing, stats, prefix, resolve)
    requires resolve(x.returnAddr) == Resolved(sym)
    ensures FilledUpTo(Bump(st, sym.file, sym.line), listing + [sym], stats, prefix + [x], resolve)
  {
    CountsAddStep(st, stats, prefix, resolve, x, sym);
    var listing' := listing + [sym];
    var prefix' := prefix + [x];
    forall k | 0 <= k < |prefix'|
      ensures resolve(prefix'[k].returnAddr) == Resolved(listing'[k])
    {
      if k < |prefix| {
        assert prefix'[k] == prefix[k] && listing'[k] == listing[k];
      }
    }
  }

  /** A prefix one longer is the prefix followed by the next entry. */
  lemma PrefixGrows<T>(s: seq<T>, i: nat)
    requires i < |s|
    ensures s[..i + 1] == s[..i] + [s[i]]
  {
  }

  /** Resolve each record in order, list it, and count it at its file and
      line. The first unresolvable address halts. */
  method FillStatistics(stats: Stats, list: seq<MemRecord>, resolve: nat -> Lookup) returns (r: Filled)
    ensures r.LookupFailed? <==> exists i :: 0 <= i < |list| && resolve(list[i].returnAddr).Unresolved?
    ensures r.Filled? ==> |r.listing| == |list| && Total(r.stats) == Total(stats) + |list|
    ensures r.Filled? ==> FilledUpTo(r.stats, r.listing, stats, list, resolve)
  {
    var st := stats;
    var listing: seq<Symbol> := [];
    var i := 0;
    assert list[..0] == [];
    while i < |list|
      invariant 0 <= i <= |list|
      invariant FilledUpTo(st, listing, stats, list[..i], resolve)
    {
      var found := resolve(list[i].returnAddr);
      if found.Unresolved? {
        assert resolve(list[i].returnAddr).Unresolved?;
        return LookupFailed;
      }
      var sym := found.symbol;
      FillStep(st, listing, stats, list[..i], resolve, list[i], sym);
      PrefixGrows(list, i);
      st := Bump(st, sym.file, sym.line);
      listing := listing + [sym];
      i := i + 1;
    }
    assert list[..i] == list;
    assert forall k :: 0 <= k < |list| ==> resolve(list[k].returnAddr).Resolved?;
    return Filled(st, listing);
  }

  /** A bar of `min(n, MaxStars)` stars. */
  function Stars(n: nat): (bar: string)
    ensures |bar| <= MaxStars
    ensures n <= MaxStars ==> |bar| == n
    ensures n >= MaxStars ==> |bar| == MaxStars
    ensures forall i :: 0 <= i < |bar| ==> bar[i] == '*'
  {
    seq(if n < MaxStars then n else MaxStars, _ => '*')
  }

  /** One line of a file's statistics. */
  datatype LineRow = LineRow(line: nat, count: nat, bar: string)

  /** A file's statistics: its line rows, its total and the total's bar. */
  datatype FileSection = FileSection(file: string, rows: seq<LineRow>, total: nat, bar: string)

  /** `rows` lists every line of `lines` exactly once, with its count and bar. */
  ghost predicate ListsLines(rows: seq<LineRow>, lines: map<nat, nat>)
  {
    && |rows| == |lines|
    && (forall i :: 0 <= i < |rows| ==>
          rows[i].line in lines && rows[i].count == lines[rows[i].line] && rows[i].bar == Stars(rows[i].count))
    && (forall i, j :: 0 <= i < j < |rows| ==> rows[i].line != rows[j].line)
    && (forall ln :: ln in lines ==> exists i :: 0 <= i < |rows| && rows[i].line == ln)
  }

  /** Taking one key out of a map leaves one fewer. */
  lemma RemoveOne<K, V>(m: map<K, V>, k: K)
    requires k in m
    ensures |m - {k}| == |m| - 1
  {
    assert (m - {k}).Keys == m.Keys - {k};
  }

  /** Rows made so far: one per line already taken out of `rest`. */
  ghost predicate RowsSoFar(rows: seq<LineRow>, lines: map<nat, nat>, rest: map<nat, nat>)
  {
    && (forall k :: k in rest ==> k in lines && rest[k] == lines[k])
    && |rows| + |rest| == |lines|
    && (forall i :: 0 <= i < |rows| ==>
          rows[i].line in lines && rows[i].line !in rest
          && rows[i].count == lines[rows[i].line] && rows[i].bar == Stars(rows[i].count))
    && (forall i, j :: 0 <= i < j < |rows| ==> rows[i].line != rows[j].line)
    && (forall ln :: ln in lines && ln !in rest ==> exists i :: 0 <= i < |rows| && rows[i].line == ln)
  }

  lemma {:induction false} RowsStep(rows: seq<LineRow>, lines: map<nat, nat>, rest: map<nat, nat>, ln: nat)
    requires RowsSoFar(rows, lines, rest)
    requires ln in rest
    ensures RowsSoFar(rows + [LineRow(ln, rest[ln], Stars(rest[ln]))], lines, rest - {ln})
  {
    var row := LineRow(ln, rest[ln], Stars(rest[ln]));
    var rows' := rows + [row];
    var rest' := rest - {ln};
    RemoveOne(rest, ln);
    forall i | 0 <= i < |rows'|
      ensures rows'[i].line in lines && rows'[i].line !in rest'
      ensures rows'[i].count == lines[rows'[i].line] && rows'[i].bar == Stars(rows'[i].count)
    {
      if i < |rows| {
        assert rows'[i] == rows[i];
      } else {
        assert rows'[i] == row;
      }
    }
    forall i, j | 0 <= i < j < |rows'|
      ensures rows'[i].line != rows'[j].line
    {
      if j < |rows| {
        assert rows'[i] == rows[i] && rows'[j] == rows[j];
      } else {
        assert rows'[i] == rows[i] && rows'[j] == row;
      }
    }
    forall l | l in lines && l !in rest'
      ensures exists i :: 0 <= i < |rows'| && rows'[i].line == l
    {
      if l == ln {
        assert rows'[|rows|].line == l;
      } else {
        var i :| 0 <= i < |rows| && rows[i].line == l;
        assert rows'[i].line == l;
      }
    }
  }

  /** The rows and total of one file. */
  method ReportLines(lines: map<nat, nat>) returns (rows: seq<LineRow>, total: nat)
    ensures ListsLines(rows, lines)
    ensures total == SumValues(lines)
  {
    rows := [];
    total := 0;
    var rest := lines;
    while rest != map[]
      invariant RowsSoFar(rows, lines, rest)
      invariant total + SumValues(rest) == SumValues(lines)
      decreases |rest|
    {
      var ln :| ln in rest;
      SumValuesRemove(rest, ln);
      RowsStep(rows, lines, rest, ln);
      RemoveOne(rest, ln);
      rows := rows + [LineRow(ln, rest[ln], Stars(rest[ln]))];
      total := total + rest[ln];
      rest := rest - {ln};
    }
  }

  /** `s` is the complete section of its file in `st`. */
  ghost predicate SectionOf(s: FileSection, st: Stats)
  {
    && s.file in st
    && ListsLines(s.rows, st[s.file])
    && s.total == SumValues(st[s.file])
    && s.bar == Stars(s.total)
  }

  /** Sections made so far: one per file already taken out of `rest`. */
  ghost predicate SectionsSoFar(sections: seq<FileSection>, st: Stats, rest: Stats)
  {
    && (forall f :: f in rest ==> f in st && rest[f] == st[f])
    && |sections| + |rest| == |st|
    && (forall i :: 0 <= i < |sections| ==> SectionOf(sections[i], st) && sections[i].file !in rest)
    && (forall i, j :: 0 <= i < j < |sections| ==> sections[i].file != sections[j].file)
    && (forall f :: f in st && f !in rest ==> exists i :: 0 <= i < |sections| && sections[i].file == f)
  }

  /** Appending a section keeps every section complete and out of what is left. */
  lemma {:induction false} SectionsStepComplete(sections: seq<FileSection>, st: Stats, rest: Stats, s: FileSection)
    requires forall i :: 0 <= i < |sections| ==> SectionOf(sections[i], st) && sections[i].file !in rest
    requires SectionOf(s, st)
    ensures forall i :: 0 <= i < |sections + [s]| ==>
              SectionOf((sections + [s])[i], st) && (sections + [s])[i].file !in rest - {s.file}
  {
    var sections' := sections + [s];
    forall i | 0 <= i < |sections'|
      ensures SectionOf(sections'[i], st) && sections'[i].file !in rest - {s.file}
    {
      if i < |sections| {
        assert sections'[i] == sections[i];
      } else {
        assert sections'[i] == s;
      }
    }
  }

  /** Appending the section of a file not yet listed keeps files distinct. */
  lemma {:induction false} SectionsStepDistinct(sections: seq<FileSection>, rest: Stats, s: FileSection)
    requires forall i :: 0 <= i < |sections| ==> sections[i].file !in rest
    requires forall i, j :: 0 <= i < j < |sections| ==> sections[i].file != sections[j].file
    requires s.file in rest
    ensures forall i, j :: 0 <= i < j < |sections + [s]| ==> (sections + [s])[i].file != (sections + [s])[j].file
  {
    var sections' := sections + [s];
    forall i, j | 0 <= i < j < |sections'|
      ensures sections'[i].file != sections'[j].file
    {
      if j < |sections| {
        assert sections'[i] == sections[i] && sections'[j] == sections[j];
      } else {
        assert sections'[i] == sections[i] && sections'[j] == s;
      }
    }
  }

  /** Appending a file's section covers that file too. */
  lemma {:induction false} SectionsStepCovers(sections: seq<FileSection>, st: Stats, rest: Stats, s: FileSection)
    requires forall f :: f in st && f !in rest ==> exists i :: 0 <= i < |sections| && sections[i].file == f
    ensures forall f :: f in st && f !in rest - {s.file} ==>
              exists i :: 0 <= i < |sections + [s]| && (sections + [s])[i].file == f
  {
    var sections' := sections + [s];
    forall f | f in st && f !in rest - {s.file}
      ensures exists i :: 0 <= i < |sections'| && sections'[i].file == f
    {
      if f == s.file {
        assert sections'[|sections|].file == f;
      } else {
        var i :| 0 <= i < |sections| && sections[i].file == f;
        assert sections'[i].file == f;
      }
    }
  }

  lemma {:induction false} SectionsStep(sections: seq<FileSection>, st: Stats, rest: Stats, s: FileSection)
    requires SectionsSoFar(sections, st, rest)
    requires s.file in rest && SectionOf(s, st)
    ensures SectionsSoFar(sections + [s], st, rest - {s.file})
  {
    RemoveOne(rest, s.file);
    SectionsStepComplete(sections, st, rest, s);
    SectionsStepDistinct(sections, rest, s);
    SectionsStepCovers(sections, st, rest, s);
  }

  /** Taking a file out removes its total from the program total. */
  lemma {:induction false} FileTotalsRemove(st: Stats, f: string)
    requires f in st
    ensures SumValues(FileTotals(st)) == SumValues(st[f]) + SumValues(FileTotals(st - {f}))
  {
    SumValuesRemove(FileTotals(st), f);
    assert FileTotals(st) - {f} == FileTotals(st - {f});
  }

  /** `report_statistics`: one section per file and the program total, which is
      what the function returns. */
  method ReportStatistics(st: Stats) returns (sections: seq<FileSection>, total: nat)
    ensures total == Total(st)
    ensures |sections| == |st|
    ensures forall i :: 0 <= i < |sections| ==> SectionOf(sections[i], st)
    ensures forall i, j :: 0 <= i < j < |sections| ==> sections[i].file != sections[j].file
    ensures forall f :: f in st ==> exists i :: 0 <= i < |sections| && sections[i].file == f
  {
    sections := [];
    total := 0;
    var rest := st;
    while rest != map[]
      invariant SectionsSoFar(sections, st, rest)
      invariant total + SumValues(FileTotals(rest)) == Total(st)
      decreases |rest|
    {
      var f :| f in rest;
      var rows, fileTotal := ReportLines(rest[f]);
      var section := FileSection(f, rows, fileTotal, Stars(fileTotal));
      FileTotalsRemove(rest, f);
      SectionsStep(sections, st, rest, section);
      RemoveOne(rest, f);
      sections := sections + [section];
      total := total + fileTotal;
      rest := rest - {f};
    }
  }
}
