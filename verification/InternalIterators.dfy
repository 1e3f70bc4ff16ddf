/** The runs a merge reads: one per level-0 file, one per deeper level
    (db/version_set.cc: MakeInputIterator, AddIterators). */
module InternalIterators {
  import opened Wrappers
  import opened DbFormat
  import opened Versions
  import opened Iterators
  import opened Merger
  import opened CompactionWork
  import opened Layers

  // ----- a deeper level as one run -----

  lemma {:induction false} ConcatHasRows(fs: seq<File>)
    ensures AsSet(Concat(fs)) == LevelEntries(fs)
  {
    if fs != [] {
      var front, last := fs[..|fs| - 1], fs[|fs| - 1];
      ConcatHasRows(front);
      assert fs == front + [last];
      var rows, level := AsSet(Concat(fs)), LevelEntries(fs);
      forall e ensures e in rows <==> e in level {
        assert e in Concat(fs) <==> e in Concat(front) || e in last.entries;
        if e in AsSet(Concat(front)) {
          var f :| f in front && e in f.entries;
          assert f in fs;
        }
        if e in last.entries {
          assert last in fs;
        }
        if e in level {
          var f :| f in fs && e in f.entries;
          assert f in front || f == last;
          assert f in front ==> e in LevelEntries(front);
        }
      }
    }
  }

  lemma AppendAscends(a: seq<Entry>, b: seq<Entry>)
    requires Ascending(a) && Ascending(b)
    requires forall x, y :: x in a && y in b ==> Less(x.key, y.key)
    ensures Ascending(a + b)
  {
    forall i, j | 0 <= i < j < |a + b| ensures Less((a + b)[i].key, (a + b)[j].key) {
      assert i < |a| ==> (a + b)[i] in a;
      assert j >= |a| ==> (a + b)[j] in b;
    }
  }

  lemma {:induction false} ConcatAscends(fs: seq<File>)
    requires Disjoint(fs) && TablesAscend(fs)
    ensures Ascending(Concat(fs))
  {
    if fs != [] {
      var n := |fs| - 1;
      var front, last := fs[..n], fs[n];
      assert Disjoint(front) by {
        forall i, j | 0 <= i < j < |front| ensures Less(Largest(front[i]), Smallest(front[j])) {
          assert Less(Largest(fs[i]), Smallest(fs[j]));
        }
      }
      ConcatAscends(front);
      ConcatHasRows(front);
      forall x, y | x in Concat(front) && y in last.entries ensures Less(x.key, y.key) {
        assert x in AsSet(Concat(front));
        var f :| f in front && x in f.entries;
        var i :| 0 <= i < n && fs[i] == f;
        TableBounds(f, x);
        TableBounds(last, y);
        assert Less(Largest(fs[i]), Smallest(fs[n]));
      }
      AppendAscends(Concat(front), last.entries);
    }
  }

  lemma PartsAscend(a: seq<Entry>, b: seq<Entry>)
    requires Ascending(a + b)
    ensures Ascending(a) && Ascending(b)
    ensures forall x, y :: x in a && y in b ==> Less(x.key, y.key)
  {
    forall i, j | 0 <= i < |a| && 0 <= j < |b| ensures Less(a[i].key, b[j].key) {
      assert a[i] == (a + b)[i] && b[j] == (a + b)[|a| + j];
    }
    forall i, j | 0 <= i < j < |b| ensures Less(b[i].key, b[j].key) {
      assert b[i] == (a + b)[|a| + i] && b[j] == (a + b)[|a| + j];
    }
    forall i, j | 0 <= i < j < |a| ensures Less(a[i].key, a[j].key) {
      assert a[i] == (a + b)[i] && a[j] == (a + b)[j];
    }
  }

  // Wherever an ascending run is cut into files, the files are a valid deeper level.
  lemma {:induction false} CutRunIsLevel(fs: seq<File>)
    requires Ascending(Concat(fs))
    ensures TablesAscend(fs) && Disjoint(fs)
  {
    if fs != [] {
      var n := |fs| - 1;
      var front, last := fs[..n], fs[n];
      PartsAscend(Concat(front), last.entries);
      CutRunIsLevel(front);
      ConcatHasRows(front);
      assert fs == front + [last];
      forall i, j | 0 <= i < j < |fs| ensures Less(Largest(fs[i]), Smallest(fs[j])) {
        if j < n {
          assert Less(Largest(front[i]), Smallest(front[j]));
        } else {
          var x := fs[i].entries[|fs[i].entries| - 1];
          assert front[i] in front && x in front[i].entries;
          assert x in AsSet(Concat(front));
        }
      }
    }
  }

  // ----- all the runs of a list of files -----

  function Unpositioned(es: seq<Entry>): Cursor {
    Cursor(es, |es|)
  }

  function RunsOf(level: nat, fs: seq<File>): seq<Cursor> {
    if fs == [] then []
    else if level == 0 then seq(|fs|, i requires 0 <= i < |fs| => Unpositioned(fs[i].entries))
    else [Unpositioned(Concat(fs))]
  }

  // No key occurs on both sides.
  ghost predicate Apart(a: set<Entry>, b: set<Entry>) {
    forall x, y :: x in a && y in b ==> x.key != y.key
  }

  ghost predicate FilesApart(fs: seq<File>) {
    forall i, j :: 0 <= i < j < |fs| ==> Apart(Rows(fs[i]), Rows(fs[j]))
  }

  lemma RunsOfLevelZero(fs: seq<File>)
    requires TablesAscend(fs) && FilesApart(fs)
    ensures var runs := RunsOf(0, fs); AllOk(runs) && Distinct(runs) && Union(runs) == LevelEntries(fs)
  {
    var runs := RunsOf(0, fs);
    forall i, j, x, y | 0 <= i < |runs| && 0 <= j < |runs| && i != j && 0 <= x < |runs[i].es| && 0 <= y < |runs[j].es|
      ensures runs[i].es[x].key != runs[j].es[y].key
    {
      assert runs[i].es[x] in Rows(fs[i]) && runs[j].es[y] in Rows(fs[j]);
      assert i < j ==> Apart(Rows(fs[i]), Rows(fs[j]));
      assert j < i ==> Apart(Rows(fs[j]), Rows(fs[i]));
    }
    UnionOfFiles(fs, runs);
  }

  lemma UnionOfFiles(fs: seq<File>, runs: seq<Cursor>)
    requires |runs| == |fs| && forall i :: 0 <= i < |fs| ==> runs[i].es == fs[i].entries
    ensures Union(runs) == LevelEntries(fs)
  {
    var u, rows := Union(runs), LevelEntries(fs);
    forall e ensures e in u <==> e in rows {
      if e in u {
        var i :| 0 <= i < |runs| && e in runs[i].es;
        assert fs[i] in fs && e in fs[i].entries;
      }
      if e in rows {
        var f :| f in fs && e in f.entries;
        var i :| 0 <= i < |fs| && fs[i] == f;
        assert e in runs[i].es;
      }
    }
  }

  lemma RunsOfLevel(level: nat, fs: seq<File>)
    requires TablesAscend(fs) && (level > 0 ==> Disjoint(fs)) && (level == 0 ==> FilesApart(fs))
    ensures AllOk(RunsOf(level, fs)) && Distinct(RunsOf(level, fs)) && Union(RunsOf(level, fs)) == LevelEntries(fs)
  {
    var runs := RunsOf(level, fs);
    if level == 0 {
      hide *;
      RunsOfLevelZero(fs);
    } else {
      ConcatAscends(fs);
      ConcatHasRows(fs);
      var u := Union(runs);
      forall e ensures e in u <==> e in LevelEntries(fs) {
        assert fs != [] ==> (e in Concat(fs) <==> e in runs[0].es);
      }
    }
  }

  lemma UnionJoin(a: seq<Cursor>, b: seq<Cursor>)
    ensures Union(a + b) == Union(a) + Union(b)
  {
    var u, v := Union(a + b), Union(a) + Union(b);
    forall e ensures e in u <==> e in v {
      if e in u {
        var i :| 0 <= i < |a + b| && e in (a + b)[i].es;
        assert i < |a| ==> e in a[i].es;
        assert i >= |a| ==> e in b[i - |a|].es;
      }
      if e in Union(a) {
        var i :| 0 <= i < |a| && e in a[i].es;
        assert e in (a + b)[i].es;
      }
      if e in Union(b) {
        var i :| 0 <= i < |b| && e in b[i].es;
        assert e in (a + b)[|a| + i].es;
      }
    }
  }

  lemma JoinRuns(a: seq<Cursor>, b: seq<Cursor>)
    requires AllOk(a) && AllOk(b) && Distinct(a) && Distinct(b) && Apart(Union(a), Union(b))
    ensures AllOk(a + b) && Distinct(a + b) && Union(a + b) == Union(a) + Union(b)
  {
    UnionJoin(a, b);
    var ab := a + b;
    forall i, j, x, y | 0 <= i < |ab| && 0 <= j < |ab| && i != j && 0 <= x < |ab[i].es| && 0 <= y < |ab[j].es|
      ensures ab[i].es[x].key != ab[j].es[y].key
    {
      if i < |a| && j < |a| {
        assert a[i].es[x].key != a[j].es[y].key;
      } else if i >= |a| && j >= |a| {
        assert b[i - |a|].es[x].key != b[j - |a|].es[y].key;
      } else if i < |a| {
        CrossApart(a, b, i, x, j - |a|, y);
      } else {
        CrossApart(a, b, j, y, i - |a|, x);
      }
    }
  }

  lemma CrossApart(a: seq<Cursor>, b: seq<Cursor>, i: nat, x: nat, j: nat, y: nat)
    requires Apart(Union(a), Union(b)) && i < |a| && x < |a[i].es| && j < |b| && y < |b[j].es|
    ensures a[i].es[x].key != b[j].es[y].key
  {
    assert a[i].es[x] in a[i].es && b[j].es[y] in b[j].es;
    assert a[i].es[x] in Union(a) && b[j].es[y] in Union(b);
  }

  // ----- all the runs of a version, and of the whole database -----

  lemma LevelZeroApart(fs: seq<File>)
    requires NewestByNumber(fs)
    ensures FilesApart(fs)
  {
    forall i, j | 0 <= i < j < |fs| ensures Apart(Rows(fs[i]), Rows(fs[j])) {
      var f, g := fs[i], fs[j];
      assert f in fs && g in fs && f.number != g.number;
      assert f.number > g.number ==> NewerThan(Rows(f), Rows(g));
      assert g.number > f.number ==> NewerThan(Rows(g), Rows(f));
    }
  }

  ghost function Above(v: Version, n: nat): set<Entry> {
    set l, e | 0 <= l < n && l < |v.levels| && e in LevelEntries(v.levels[l]) :: e
  }

  lemma LevelIsApart(v: Version, n: nat)
    requires LsmInvariant(v) && n < NUM_LEVELS
    ensures Apart(Above(v, n), LevelEntries(v.levels[n])) && Above(v, n + 1) == Above(v, n) + LevelEntries(v.levels[n])
  {
    var level := LevelEntries(v.levels[n]);
    forall x, y | x in Above(v, n) && y in level ensures x.key != y.key {
      var l :| 0 <= l < n && x in LevelEntries(v.levels[l]);
      assert NewerThan(LevelEntries(v.levels[l]), level);
    }
  }

  lemma LevelRuns(v: Version, level: nat)
    requires LsmInvariant(v) && level < NUM_LEVELS
    ensures var runs := RunsOf(level, v.levels[level]);
            AllOk(runs) && Distinct(runs) && Union(runs) == LevelEntries(v.levels[level])
  {
    if level == 0 {
      LevelZeroApart(v.levels[0]);
    }
    RunsOfLevel(level, v.levels[level]);
  }

  // Version::AddIterators.
  method AddIterators(v: Version) returns (runs: seq<Cursor>)
    requires LsmInvariant(v)
    ensures AllOk(runs) && Distinct(runs) && Union(runs) == Contents(v)
  {
    runs := [];
    for level := 0 to NUM_LEVELS
      invariant AllOk(runs) && Distinct(runs) && Union(runs) == Above(v, level)
    {
      LevelRuns(v, level);
      LevelIsApart(v, level);
      JoinRuns(runs, RunsOf(level, v.levels[level]));
      runs := runs + RunsOf(level, v.levels[level]);
    }
  }

  lemma OneRun(es: seq<Entry>)
    requires Ascending(es)
    ensures var runs := [Unpositioned(es)]; AllOk(runs) && Distinct(runs) && Union(runs) == AsSet(es)
  {
    var runs := [Unpositioned(es)];
    assert forall e :: e in Union(runs) <==> e in runs[0].es;
  }

  lemma NewerIsApart(a: set<Entry>, b: set<Entry>)
    requires NewerThan(a, b)
    ensures Apart(a, b)
  {
  }

  // DBImpl::NewInternalIterator: memtable, immutable memtable, then the tables.
  method NewInternalIterator(mem: seq<Entry>, imm: Option<seq<Entry>>, v: Version) returns (runs: seq<Cursor>)
    requires LsmInvariant(v) && Layered(mem, MemRows(imm), Contents(v))
    ensures AllOk(runs) && Distinct(runs) && Union(runs) == PresentIn(mem, MemRows(imm), Contents(v))
  {
    runs := AddIterators(v);
    if imm.Some? {
      OneRun(imm.value);
      NewerIsApart(AsSet(imm.value), Contents(v));
      JoinRuns([Unpositioned(imm.value)], runs);
      runs := [Unpositioned(imm.value)] + runs;
    }
    OneRun(mem);
    NewerIsApart(AsSet(mem), Union(runs));
    JoinRuns([Unpositioned(mem)], runs);
    runs := [Unpositioned(mem)] + runs;
  }
}
