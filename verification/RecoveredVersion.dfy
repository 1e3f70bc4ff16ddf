/** The version a recovery leaves: its spilled memtables as level-0 tables on top of the version the
    manifest described (db/db_impl.cc: RecoverLogFile, WriteLevel0Table, Recover). It meets the
    invariant of every installed version, so Version::Get reads the recovered history from it. */
module RecoveredVersions {
  import opened Wrappers
  import opened DbFormat
  import opened WriteBatches
  import opened Versions
  import opened VersionBuilder
  import opened VersionSets
  import opened FlushSafety
  import opened CrashRecovery

  // ----- sequence numbers of consecutive batches -----

  lemma {:induction false} EndsAscend(bs: seq<Batch>, i: nat, j: nat)
    requires Consecutive(bs) && i < j < |bs|
    ensures End(bs[i]) <= bs[j].first
  {
    assert bs[..j][j - 1] == bs[j - 1];
    if i < j - 1 {
      EndsAscend(bs, i, j - 1);
    }
  }

  lemma WithinBatch(b: Batch, e: Entry)
    requires e in BatchEntries(b.ops, b.first)
    ensures b.first <= e.key.sn < End(b)
  {
  }

  // Later batches hold newer entries.
  lemma LaterIsNewer(a: seq<Batch>, b: seq<Batch>)
    requires Consecutive(a + b)
    ensures forall x, y :: x in Entries(b) && y in Entries(a) ==> x.key.sn > y.key.sn
  {
    var all := a + b;
    forall x, y | x in Entries(b) && y in Entries(a) ensures x.key.sn > y.key.sn {
      var p :| p in b && x in BatchEntries(p.ops, p.first);
      var q :| q in a && y in BatchEntries(q.ops, q.first);
      var j :| 0 <= j < |b| && b[j] == p;
      var i :| 0 <= i < |a| && a[i] == q;
      assert all[i] == q && all[|a| + j] == p;
      EndsAscend(all, i, |a| + j);
      WithinBatch(p, x);
      WithinBatch(q, y);
    }
  }

  lemma SameBatchSameEntry(b: Batch, x: Entry, y: Entry)
    requires x in BatchEntries(b.ops, b.first) && y in BatchEntries(b.ops, b.first) && x.key.sn == y.key.sn
    ensures x == y
  {
    var rows := BatchEntries(b.ops, b.first);
    var i :| 0 <= i < |rows| && rows[i] == x;
    var j :| 0 <= j < |rows| && rows[j] == y;
  }

  // A sequence number names one entry of the history.
  lemma HistoryIsUnique(bs: seq<Batch>)
    requires Consecutive(bs)
    ensures UniqueVersions(Entries(bs))
  {
    forall x, y | x in Entries(bs) && y in Entries(bs) && x.key.sn == y.key.sn ensures x == y {
      var p :| p in bs && x in BatchEntries(p.ops, p.first);
      var q :| q in bs && y in BatchEntries(q.ops, q.first);
      var i :| 0 <= i < |bs| && bs[i] == p;
      var j :| 0 <= j < |bs| && bs[j] == q;
      WithinBatch(p, x);
      WithinBatch(q, y);
      if i < j {
        EndsAscend(bs, i, j);
      } else if j < i {
        EndsAscend(bs, j, i);
      }
      SameBatchSameEntry(p, x, y);
    }
  }

  // ----- the memtables a recovery spilled -----

  datatype Chunk = Chunk(number: nat, batches: seq<Batch>)

  function Spilled(cs: seq<Chunk>): seq<Batch> {
    if cs == [] then [] else Spilled(cs[..|cs| - 1]) + cs[|cs| - 1].batches
  }

  // Each chunk went to a table of its own, numbered upwards; an empty one left no table.
  ghost predicate ChunkOk(c: Chunk, d: Disk, r: Recovery) {
    && d.manifest.nextFile <= c.number < r.nextFile
    && if Entries(c.batches) == {} then c.number !in r.added
       else c.number in r.added && RowsAt(d.tables, c.number) == Entries(c.batches)
  }

  ghost predicate ChunksOk(cs: seq<Chunk>, d: Disk, r: Recovery) {
    && Spilled(cs) == r.done
    && (forall i :: 0 <= i < |cs| ==> ChunkOk(cs[i], d, r))
    && (forall i, j :: 0 <= i < j < |cs| ==> cs[i].number < cs[j].number)
    && (forall n :: n in r.added ==> exists i :: 0 <= i < |cs| && cs[i].number == n)
  }

  lemma OlderChunkStays(s: State, r: Recovery, c: Chunk)
    requires ChunkOk(c, s.disk, r)
    ensures ChunkOk(c, Spill(s, r).disk, Spill(s, r).process.r)
  {
  }

  lemma NewChunkIsOk(s: State, r: Recovery)
    requires s.disk.manifest.nextFile <= r.nextFile && r.nextFile !in r.added
    ensures ChunkOk(Chunk(r.nextFile, r.mem), Spill(s, r).disk, Spill(s, r).process.r)
  {
  }

  lemma AddedBySpill(s: State, r: Recovery, n: nat)
    requires n in Spill(s, r).process.r.added
    ensures n in r.added || n == r.nextFile
  {
  }

  lemma ChunkSpilled(s: State, r: Recovery, cs: seq<Chunk>)
    requires ChunksOk(cs, s.disk, r) && s.disk.manifest.nextFile <= r.nextFile
    ensures ChunksOk(cs + [Chunk(r.nextFile, r.mem)], Spill(s, r).disk, Spill(s, r).process.r)
  {
    hide Entries, RowsAt, WriteRows, Written;
    var c, s' := Chunk(r.nextFile, r.mem), Spill(s, r);
    var cs', r' := cs + [c], s'.process.r;
    assert cs'[..|cs|] == cs;
    forall i | 0 <= i < |cs| ensures cs[i].number < r.nextFile {
      assert ChunkOk(cs[i], s.disk, r);
    }
    hide ChunkOk;
    NewChunkIsOk(s, r);
    forall i | 0 <= i < |cs'| ensures ChunkOk(cs'[i], s'.disk, r') {
      if i < |cs| {
        OlderChunkStays(s, r, cs[i]);
      }
    }
    forall n | n in r'.added ensures exists i :: 0 <= i < |cs'| && cs'[i].number == n {
      AddedBySpill(s, r, n);
      if n in r.added {
        var i :| 0 <= i < |cs| && cs[i].number == n;
        assert cs'[i].number == n;
      } else {
        assert cs'[|cs|].number == n;
      }
    }
  }

  // Reading on, without spilling, changes none of that.
  lemma ChunksStay(cs: seq<Chunk>, d: Disk, d': Disk, r: Recovery, r': Recovery)
    requires ChunksOk(cs, d, r) && d'.tables == d.tables && d'.manifest == d.manifest
    requires r'.done == r.done && r'.added == r.added && r'.nextFile >= r.nextFile
    ensures ChunksOk(cs, d', r')
  {
    forall i | 0 <= i < |cs| ensures ChunkOk(cs[i], d', r') {
      assert ChunkOk(cs[i], d, r);
    }
  }

  lemma StepChunks(s: State, e: Event, cs: seq<Chunk>) returns (cs': seq<Chunk>)
    requires s.process.Recovering? && EnabledRecovering(s.process.r, e) && !e.SaveManifest?
    requires ChunksOk(cs, s.disk, s.process.r) && s.disk.manifest.nextFile <= s.process.r.nextFile
    ensures StepRecovering(s, e).process.Recovering?
    ensures ChunksOk(cs', StepRecovering(s, e).disk, StepRecovering(s, e).process.r)
  {
    hide ChunksOk, WriteRows, Written, CreateLog;
    var r, s' := s.process.r, StepRecovering(s, e);
    cs' := cs;
    match e
    case ReplayRecord(full) =>
      ChunksStay(cs, s.disk, s.disk, r, TakeRecord(r));
      if full {
        ChunkSpilled(s, TakeRecord(r), cs);
        cs' := cs + [Chunk(r.nextFile, TakeRecord(r).mem)];
      }
    case EndLog =>
      if r.mem != [] {
        ChunkSpilled(s, r, cs);
        cs' := cs + [Chunk(r.nextFile, r.mem)];
        ChunksStay(cs', Spill(s, r).disk, s'.disk, Spill(s, r).process.r, s'.process.r);
      } else {
        ChunksStay(cs, s.disk, s'.disk, r, s'.process.r);
      }
    case CreateNewLog => ChunksStay(cs, s.disk, s'.disk, r, s'.process.r);
  }

  lemma RecoveringFiles(s: State)
    requires Inv(s) && s.process.Recovering?
    ensures s.disk.manifest.nextFile <= s.process.r.nextFile
  {
  }

  // What a step into or within recovery starts from.
  lemma LastStep(events: seq<Event>)
    requires Run(events).Some? && events != []
    ensures Run(events[..|events| - 1]).Some?
    ensures var s, e := Run(events[..|events| - 1]).value, events[|events| - 1];
            Enabled(s, e) && Run(events) == Some(Apply(s, e))
  {
    hide Apply, Enabled;
  }

  lemma NothingSpilled(s: State)
    requires s.process.Down?
    ensures ChunksOk([], s.disk, Load(s.disk))
  {
  }

  lemma {:induction false} SpillsAreChunks(events: seq<Event>) returns (cs: seq<Chunk>)
    requires Run(events).Some? && Run(events).value.process.Recovering?
    ensures ChunksOk(cs, Run(events).value.disk, Run(events).value.process.r)
  {
    hide ChunksOk, StepRecovering, StepRunning, Inv;
    if events == [] {
      cs := [];
    } else {
      LastStep(events);
      var front, e := events[..|events| - 1], events[|events| - 1];
      var s := Run(front).value;
      if s.process.Down? {
        cs := [];
        NothingSpilled(s);
      } else {
        NotIntoRecovery(s, e);
        var before := SpillsAreChunks(front);
        RunsKeepInv(front);
        RecoveringFiles(s);
        cs := StepChunks(s, e, before);
      }
    }
  }

  // Only a process that is down starts recovering.
  lemma NotIntoRecovery(s: State, e: Event)
    requires Enabled(s, e) && !s.process.Down? && Apply(s, e).process.Recovering?
    ensures s.process.Recovering? && EnabledRecovering(s.process.r, e) && !e.SaveManifest?
    ensures Apply(s, e) == StepRecovering(s, e)
  {
  }

  // ----- the version -----

  type Tables = nat -> File

  // The table file of a number: its rows, in order.
  ghost predicate TableOf(file: Tables, n: nat, rows: set<Entry>) {
    file(n).number == n && Versions.Rows(file(n)) == rows && Ascending(file(n).entries)
  }

  ghost predicate IsTable(c: Chunk, file: Tables) {
    TableOf(file, c.number, Entries(c.batches))
  }

  // The spilled tables put on level 0 one after another.
  ghost function Grown(v: Version, cs: seq<Chunk>, file: Tables): Version
    requires |v.levels| == NUM_LEVELS
    ensures |Grown(v, cs, file).levels| == NUM_LEVELS
  {
    if cs == [] then v
    else
      var before, c := Grown(v, cs[..|cs| - 1], file), cs[|cs| - 1];
      if Entries(c.batches) == {} then before
      else Version(before.levels[0 := SetInsert(before.levels[0], file(c.number))])
  }

  // A level-0 file of the grown version is an old one or a spilled table.
  ghost predicate FromChunk(cs: seq<Chunk>, file: Tables, f: File) {
    exists i :: 0 <= i < |cs| && Entries(cs[i].batches) != {} && f == file(cs[i].number)
  }

  // What `v'` has on top of `v`.
  ghost predicate Stacked(v: Version, cs: seq<Chunk>, file: Tables, v': Version)
    requires |v.levels| == NUM_LEVELS && |v'.levels| == NUM_LEVELS
  {
    && v'.levels[1..] == v.levels[1..]
    && forall f :: f in v'.levels[0] <==> f in v.levels[0] || FromChunk(cs, file, f)
  }

  ghost predicate GrownOk(v: Version, cs: seq<Chunk>, file: Tables, tabled: seq<Batch>)
    requires |v.levels| == NUM_LEVELS
  {
    var v' := Grown(v, cs, file);
    && LsmInvariant(v') && AllOrdered(v') && Stacked(v, cs, file, v')
    && Contents(v') == Entries(tabled + Spilled(cs))
  }

  lemma FromLastChunk(cs: seq<Chunk>, file: Tables)
    requires cs != []
    ensures forall f :: FromChunk(cs, file, f) <==>
              FromChunk(cs[..|cs| - 1], file, f) || (Entries(cs[|cs| - 1].batches) != {}
                  && f == file(cs[|cs| - 1].number))
  {
    var n := |cs| - 1;
    forall f
      ensures FromChunk(cs, file, f) <==>
                FromChunk(cs[..n], file, f) || (Entries(cs[n].batches) != {} && f == file(cs[n].number))
    {
      if FromChunk(cs[..n], file, f) {
        var i :| 0 <= i < n && Entries(cs[..n][i].batches) != {} && f == file(cs[..n][i].number);
        assert cs[i] == cs[..n][i];
      }
      if FromChunk(cs, file, f) {
        var i :| 0 <= i <= n && Entries(cs[i].batches) != {} && f == file(cs[i].number);
        assert i < n ==> cs[..n][i] == cs[i];
      }
    }
  }

  lemma InsertedIsAdded(v: Version, f: File, v': Version)
    requires AllOrdered(v) && v' == Version(v.levels[0 := SetInsert(v.levels[0], f)])
    requires forall g :: g in v.levels[0] ==> g.number < f.number
    ensures Added(v, 0, f, v') && FitsAt(v, 0, f) && AllOrdered(v')
  {
    SetInsertSpec(v.levels[0], f);
    hide Ordered, SetInsert;
  }

  lemma AddedAtZero(v: Version, f: File, v': Version)
    requires |v.levels| == NUM_LEVELS && Added(v, 0, f, v')
    ensures |v'.levels| == NUM_LEVELS && forall g :: g in v'.levels[0] <==> g in v.levels[0] || g == f
  {
    hide Ordered;
  }

  // One more table, with a larger number and newer rows than everything before.
  lemma TablePlaced(v: Version, f: File, v': Version)
    requires LsmInvariant(v) && AllOrdered(v) && Ascending(f.entries) && NewerThan(Versions.Rows(f), Contents(v))
    requires UniqueVersions(Contents(v) + Versions.Rows(f))
    requires v' == Version(v.levels[0 := SetInsert(v.levels[0], f)])
    requires forall g :: g in v.levels[0] ==> g.number < f.number
    ensures LsmInvariant(v') && AllOrdered(v') && Contents(v') == Contents(v) + Versions.Rows(f)
    ensures |v'.levels| == NUM_LEVELS && forall g :: g in v'.levels[0] <==> g in v.levels[0] || g == f
  {
    LevelCount(v);
    InsertedIsAdded(v, f, v');
    hide LsmInvariant, AllOrdered, Added, FitsAt, SetInsert, Contents, UniqueVersions, NewerThan, Ascending;
    AddedAtZero(v, f, v');
    assert 0 < NUM_LEVELS;
    FlushKeepsInvariant(v, 0, f, v');
  }

  lemma RowsAreNewer(tabled: seq<Batch>, before: seq<Batch>, c: seq<Batch>, contents: set<Entry>)
    requires Consecutive(tabled + before + c) && contents == Entries(tabled + before)
    ensures NewerThan(Entries(c), contents) && UniqueVersions(contents + Entries(c))
    ensures contents + Entries(c) == Entries(tabled + (before + c))
  {
    LaterIsNewer(tabled + before, c);
    HistoryIsUnique(tabled + before + c);
    EntriesJoin(tabled + before, c);
    assert tabled + before + c == tabled + (before + c);
  }

  lemma StackedOneMore(v: Version, cs: seq<Chunk>, file: Tables, before: Version, v': Version)
    requires |v.levels| == NUM_LEVELS && |before.levels| == NUM_LEVELS && |v'.levels| == NUM_LEVELS && cs != []
    requires Stacked(v, cs[..|cs| - 1], file, before) && v'.levels[1..] == before.levels[1..]
    requires var c := cs[|cs| - 1];
             if Entries(c.batches) == {} then v'.levels[0] == before.levels[0]
             else forall f :: f in v'.levels[0] <==> f in before.levels[0] || f == file(c.number)
    ensures Stacked(v, cs, file, v')
  {
    hide FromChunk, Entries;
    FromLastChunk(cs, file);
  }

  // The last chunk left a table.
  lemma GrownByTable(v: Version, cs: seq<Chunk>, file: Tables, before: Version, c: Chunk, v': Version)
    requires |v.levels| == NUM_LEVELS && |before.levels| == NUM_LEVELS && cs != [] && c == cs[|cs| - 1]
    requires LsmInvariant(before) && AllOrdered(before) && Stacked(v, cs[..|cs| - 1], file, before)
    requires IsTable(c, file) && Entries(c.batches) != {}
    requires NewerThan(Entries(c.batches), Contents(before)) && UniqueVersions(Contents(before) + Entries(c.batches))
    requires forall g :: g in before.levels[0] ==> g.number < c.number
    requires v' == Version(before.levels[0 := SetInsert(before.levels[0], file(c.number))])
    ensures LsmInvariant(v') && AllOrdered(v') && Stacked(v, cs, file, v')
    ensures Contents(v') == Contents(before) + Entries(c.batches)
  {
    hide LsmInvariant, AllOrdered, Contents, Entries, NewerThan, UniqueVersions, SetInsert, Stacked;
    hide Versions.Rows, Ascending;
    TablePlaced(before, file(c.number), v');
    StackedOneMore(v, cs, file, before, v');
  }

  // The last chunk was empty.
  lemma GrownByNothing(v: Version, cs: seq<Chunk>, file: Tables, before: Version, c: Chunk)
    requires |v.levels| == NUM_LEVELS && |before.levels| == NUM_LEVELS && cs != [] && c == cs[|cs| - 1]
    requires Stacked(v, cs[..|cs| - 1], file, before) && Entries(c.batches) == {}
    ensures Stacked(v, cs, file, before) && Contents(before) + Entries(c.batches) == Contents(before)
  {
    hide Stacked, Entries, Contents;
    StackedOneMore(v, cs, file, before, before);
  }

  lemma LastSpilled(cs: seq<Chunk>, tabled: seq<Batch>, rest: seq<Batch>)
    requires cs != [] && Consecutive(tabled + Spilled(cs) + rest)
    ensures var front, last := Spilled(cs[..|cs| - 1]), cs[|cs| - 1].batches;
            && Spilled(cs) == front + last
            && Consecutive(tabled + front + (last + rest)) && Consecutive(tabled + front + last)
  {
    hide Consecutive;
    var front, last := Spilled(cs[..|cs| - 1]), cs[|cs| - 1].batches;
    var all := tabled + Spilled(cs) + rest;
    assert all == tabled + front + (last + rest);
    ConsecutivePrefix(all, |tabled + Spilled(cs)|);
    assert all[..|tabled + Spilled(cs)|] == tabled + front + last;
  }

  lemma {:induction false} GrownIsSound(v: Version, cs: seq<Chunk>, file: Tables, tabled: seq<Batch>, rest: seq<Batch>)
    requires LsmInvariant(v) && AllOrdered(v) && Contents(v) == Entries(tabled)
    requires Consecutive(tabled + Spilled(cs) + rest)
    requires forall i :: 0 <= i < |cs| && Entries(cs[i].batches) != {} ==> IsTable(cs[i], file)
    requires forall i, j :: 0 <= i < j < |cs| ==> cs[i].number < cs[j].number
    requires forall i, g :: 0 <= i < |cs| && g in v.levels[0] ==> g.number < cs[i].number
    ensures GrownOk(v, cs, file, tabled)
  {
    if cs == [] {
      assert tabled + [] == tabled;
    } else {
      hide *;
      LevelCount(v);
      var front, c := cs[..|cs| - 1], cs[|cs| - 1];
      LastSpilled(cs, tabled, rest);
      GrownIsSound(v, front, file, tabled, c.batches + rest);
      var before := Grown(v, front, file);
      GrownFacts(v, front, file, tabled);
      RowsAreNewer(tabled, Spilled(front), c.batches, Contents(before));
      GrownUnfolds(v, cs, file);
      if Entries(c.batches) != {} {
        LargestNumber(v, cs, file, before);
        GrownByTable(v, cs, file, before, c, Grown(v, cs, file));
      } else {
        GrownByNothing(v, cs, file, before, c);
      }
      GrownFacts(v, cs, file, tabled);
    }
  }

  lemma GrownUnfolds(v: Version, cs: seq<Chunk>, file: Tables)
    requires |v.levels| == NUM_LEVELS && cs != []
    ensures var before, c := Grown(v, cs[..|cs| - 1], file), cs[|cs| - 1];
            Grown(v, cs, file) == if Entries(c.batches) == {} then before
                                  else Version(before.levels[0 := SetInsert(before.levels[0], file(c.number))])
  {
  }

  lemma LevelCount(v: Version)
    requires LsmInvariant(v)
    ensures |v.levels| == NUM_LEVELS
  {
  }

  lemma GrownFacts(v: Version, cs: seq<Chunk>, file: Tables, tabled: seq<Batch>)
    requires |v.levels| == NUM_LEVELS
    ensures var v' := Grown(v, cs, file);
            GrownOk(v, cs, file, tabled) <==>
              && LsmInvariant(v') && AllOrdered(v') && Stacked(v, cs, file, v')
              && Contents(v') == Entries(tabled + Spilled(cs))
  {
    hide LsmInvariant, AllOrdered, Contents, Entries, Stacked, Spilled, Grown;
  }

  lemma LargestNumber(v: Version, cs: seq<Chunk>, file: Tables, before: Version)
    requires |v.levels| == NUM_LEVELS && cs != [] && |before.levels| == NUM_LEVELS
    requires Stacked(v, cs[..|cs| - 1], file, before)
    requires forall i :: 0 <= i < |cs| && Entries(cs[i].batches) != {} ==> IsTable(cs[i], file)
    requires forall i, j :: 0 <= i < j < |cs| ==> cs[i].number < cs[j].number
    requires forall i, g :: 0 <= i < |cs| && g in v.levels[0] ==> g.number < cs[i].number
    ensures forall g :: g in before.levels[0] ==> g.number < cs[|cs| - 1].number
  {
    var n := |cs| - 1;
    forall g | g in before.levels[0] ensures g.number < cs[n].number {
      if g !in v.levels[0] {
        var i :| 0 <= i < n && Entries(cs[..n][i].batches) != {} && g == file(cs[..n][i].number);
        assert cs[i] == cs[..n][i] && IsTable(cs[i], file);
      }
    }
  }

  // What SaveManifest installs: the manifest's version with the recovered tables on level 0.
  ghost predicate Recovered(v: Version, added: set<nat>, file: Tables, v': Version) {
    && |v.levels| == NUM_LEVELS && |v'.levels| == NUM_LEVELS && Ordered(v'.levels[0])
    && (forall l :: 1 <= l < NUM_LEVELS ==> v'.levels[l] == v.levels[l])
    && forall f :: f in v'.levels[0] <==> f in v.levels[0] || exists n :: n in added && f == file(n)
  }

  // The recovered tables are those of the chunks.
  lemma AddedIsFromChunk(d: Disk, r: Recovery, cs: seq<Chunk>, file: Tables, f: File)
    requires ChunksOk(cs, d, r)
    ensures FromChunk(cs, file, f) <==> exists n :: n in r.added && f == file(n)
  {
    if FromChunk(cs, file, f) {
      var i :| 0 <= i < |cs| && Entries(cs[i].batches) != {} && f == file(cs[i].number);
      assert ChunkOk(cs[i], d, r) && cs[i].number in r.added;
    }
    if n :| n in r.added && f == file(n) {
      var i :| 0 <= i < |cs| && cs[i].number == n;
      assert ChunkOk(cs[i], d, r);
    }
  }

  lemma RecoveredIsGrown(v: Version, d: Disk, r: Recovery, cs: seq<Chunk>, file: Tables, tabled: seq<Batch>,
                         v': Version)
    requires ChunksOk(cs, d, r) && Recovered(v, r.added, file, v') && GrownOk(v, cs, file, tabled)
    ensures v' == Grown(v, cs, file)
  {
    hide ChunksOk, LsmInvariant, Contents, Entries, FromChunk, Grown, Spilled, Ordered;
    var g := Grown(v, cs, file);
    forall f ensures FromChunk(cs, file, f) <==> exists n :: n in r.added && f == file(n) {
      AddedIsFromChunk(d, r, cs, file, f);
    }
    OrderedIsUnique(v'.levels[0], g.levels[0]);
    assert forall l :: 1 <= l < NUM_LEVELS ==> g.levels[l] == g.levels[1..][l - 1] == v.levels[1..][l - 1];
    assert v'.levels == g.levels;
  }

  // About to save the manifest: `v` is the version it described so far, `file` leads to the recovered
  // tables, and `v'` is the version to install.
  ghost predicate EndsRecovery(s: State, v: Version, file: Tables, v': Version) {
    && s.process.Recovering? && s.process.r.newLog.Some?
    && LsmInvariant(v) && AllOrdered(v) && Numbered(v, s.disk.manifest.nextFile)
    && Contents(v) == TableEntries(s.disk.tables, s.disk.manifest.live)
    && (forall n :: n in s.process.r.added ==> TableOf(file, n, RowsAt(s.disk.tables, n)))
    && Recovered(v, s.process.r.added, file, v')
  }

  // At the end of any recovery of any run: the version it installs meets the invariant and holds
  // exactly the history, so a read of it is a read of the history.
  lemma RecoveredVersionHoldsHistory(events: seq<Event>, v: Version, file: Tables, v': Version)
    requires Run(events).Some? && EndsRecovery(Run(events).value, v, file, v')
    ensures LsmInvariant(v') && Contents(v') == Entries(Run(events).value.history)
  {
    RunsKeepInv(events);
    var s := Run(events).value;
    var cs := SpillsAreChunks(events);
    hide Run;
    EndOfRecovery(s);
    ChunksAreTables(cs, s, file, v);
    GrownIsSound(v, cs, file, s.tabled, []);
    RecoveredIsGrown(v, s.disk, s.process.r, cs, file, s.tabled, v');
  }

  lemma EndOfRecovery(s: State)
    requires Inv(s) && s.process.Recovering? && s.process.r.newLog.Some?
    ensures s.history == s.tabled + s.process.r.done && Consecutive(s.history)
    ensures Consecutive(s.tabled + s.process.r.done + [])
    ensures TableEntries(s.disk.tables, s.disk.manifest.live) == Entries(s.tabled)
  {
    assert s.tabled + s.process.r.done + [] + [] == s.tabled + s.process.r.done;
    assert s.tabled + s.process.r.done + [] == s.tabled + s.process.r.done;
  }

  lemma ChunksAreTables(cs: seq<Chunk>, s: State, file: Tables, v: Version)
    requires s.process.Recovering? && ChunksOk(cs, s.disk, s.process.r) && |v.levels| == NUM_LEVELS
    requires Numbered(v, s.disk.manifest.nextFile)
    requires forall n :: n in s.process.r.added ==> TableOf(file, n, RowsAt(s.disk.tables, n))
    ensures forall i :: 0 <= i < |cs| && Entries(cs[i].batches) != {} ==> IsTable(cs[i], file)
    ensures forall i, g :: 0 <= i < |cs| && g in v.levels[0] ==> g.number < cs[i].number
  {
    forall i | 0 <= i < |cs| ensures Entries(cs[i].batches) != {} ==> IsTable(cs[i], file) {
      assert ChunkOk(cs[i], s.disk, s.process.r);
    }
    forall i, g | 0 <= i < |cs| && g in v.levels[0] ensures g.number < cs[i].number {
      assert ChunkOk(cs[i], s.disk, s.process.r) && FileAt(v, 0, g);
    }
  }

  // Version::Get after a recovery.
  method ReadRecovered(ghost events: seq<Event>, ghost v: Version, ghost file: Tables, v': Version, k: UserKey,
                       sn: SequenceNumber) returns (r: Option<Value>)
    requires Run(events).Some? && EndsRecovery(Run(events).value, v, file, v')
    ensures r == Lookup(Entries(Run(events).value.history), k, sn)
  {
    RecoveredVersionHoldsHistory(events, v, file, v');
    r := Get(v', k, sn);
  }
}
