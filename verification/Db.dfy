/** The engine over whole runs: writes, snapshots, memtable switches, flushes, trivial moves and
    compactions in any order (db/db_impl.cc). */
module Db {
  import opened Wrappers
  import opened DbFormat
  import opened Versions
  import opened Overlap
  import opened VersionSets
  import opened CompactionInputs
  import opened CompactionWork
  import opened CompactionSafety
  import opened CompactionReads
  import opened FlushSafety
  import opened Installs
  import opened MemTables
  import opened Layers
  import opened Merger
  import opened InternalIterators
  import opened DbIterators
  import opened WriteBatches

  lemma BatchGrows(batch: seq<Op>, first: nat, i: nat, e: Entry)
    requires first + |batch| <= MAX_SEQUENCE && i < |batch| && e == BatchEntries(batch, first)[i]
    ensures AsSet(BatchEntries(batch, first)[..i + 1]) == AsSet(BatchEntries(batch, first)[..i]) + {e}
  {
    assert BatchEntries(batch, first)[..i + 1] == BatchEntries(batch, first)[..i] + [e];
  }

  // The first `i` operations of a batch are in the memtable and in the history.
  ghost predicate Inserted(mem: seq<Entry>, imm: seq<Entry>, tables: set<Entry>, history: set<Entry>, first: nat,
                           oldest: SequenceNumber, intact: bool, batch: seq<Op>, i: nat, before: set<Entry>,
                           present: set<Entry>)
    requires i <= |batch| && 0 < first && first + |batch| <= MAX_SEQUENCE
  {
    var rows := AsSet(BatchEntries(batch, first)[..i]);
    && Sound(mem, imm, tables, history, first - 1 + i, oldest, intact)
    && history == before + rows && PresentIn(mem, imm, tables) == present + rows
  }

  lemma NothingInserted(mem: seq<Entry>, imm: seq<Entry>, tables: set<Entry>, history: set<Entry>, first: nat,
                        oldest: SequenceNumber, intact: bool, batch: seq<Op>)
    requires 0 < first && first + |batch| <= MAX_SEQUENCE
    requires Sound(mem, imm, tables, history, first - 1, oldest, intact)
    ensures Inserted(mem, imm, tables, history, first, oldest, intact, batch, 0, history, PresentIn(mem, imm, tables))
  {
    hide Sound, PresentIn;
  }

  lemma OneMoreInserted(mem: seq<Entry>, imm: seq<Entry>, tables: set<Entry>, history: set<Entry>, first: nat,
                        oldest: SequenceNumber, intact: bool, batch: seq<Op>, i: nat, before: set<Entry>,
                        present: set<Entry>, e: Entry)
    requires i < |batch| && 0 < first && first + |batch| <= MAX_SEQUENCE
    requires Inserted(mem, imm, tables, history, first, oldest, intact, batch, i, before, present)
    requires e == Entry(InternalKey(batch[i].key, first + i, batch[i].kind), batch[i].value)
    ensures Inserted(Insert(mem, e), imm, tables, history + {e}, first, oldest, intact, batch, i + 1, before, present)
  {
    hide Sound, PresentIn, Insert;
    SoundAfterInsert(mem, imm, tables, history, first - 1 + i, oldest, intact, e);
    BatchGrows(batch, first, i, e);
    hide AsSet, BatchEntries;
  }

  lemma AllInserted(mem: seq<Entry>, imm: seq<Entry>, tables: set<Entry>, history: set<Entry>, first: nat,
                    oldest: SequenceNumber, intact: bool, batch: seq<Op>, before: set<Entry>, present: set<Entry>)
    requires 0 < first && first + |batch| <= MAX_SEQUENCE
    requires Inserted(mem, imm, tables, history, first, oldest, intact, batch, |batch|, before, present)
    ensures Sound(mem, imm, tables, history, first - 1 + |batch|, oldest, intact)
    ensures var rows := AsSet(BatchEntries(batch, first));
            history == before + rows && PresentIn(mem, imm, tables) == present + rows
  {
    hide Sound, PresentIn;
    assert BatchEntries(batch, first)[..|batch|] == BatchEntries(batch, first);
  }

  // The oldest live snapshot, or the present when there is none.
  function Oldest(snapshots: seq<SequenceNumber>, last: SequenceNumber): SequenceNumber {
    if snapshots == [] then last else snapshots[0]
  }

  ghost predicate SnapshotsAscend(snapshots: seq<SequenceNumber>, last: SequenceNumber) {
    && (forall i, j :: 0 <= i < j < |snapshots| ==> snapshots[i] <= snapshots[j])
    && (forall i :: 0 <= i < |snapshots| ==> snapshots[i] <= last)
  }

  // The file lists a compaction takes its two inputs from, and what lies below its output.
  datatype Job = Job(level: nat, in0: seq<File>, in1: seq<File>, grandparents: seq<File>)

  // What a background step did: nothing; a memtable, of no rows or written to a table; a file moved
  // down; inputs merged into outputs.
  datatype Step =
    | Idle
    | FlushedEmpty
    | Flushed(level: nat, file: File)
    | Moved(job: Job)
    | Rewritten(job: Job, outputs: seq<File>)

  type Range = (Bound, Bound)

  // Nothing to compact: an empty level, or no file in the manual range.
  ghost predicate NothingDue(fs: seq<File>, manual: Option<Range>) {
    if manual.None? then fs == [] else forall f :: f in fs ==> !Meets(f, manual.value.0, manual.value.1)
  }

  // The job is set up from what the compaction pointer or the manual range selects.
  ghost predicate Chosen(v: Version, level: nat, pointer: Option<InternalKey>, manual: Option<Range>,
                         fileSizeLimit: nat, expandedBytesLimit: nat, job: Job)
  {
    && LsmInvariant(v) && level + 1 < NUM_LEVELS && job.level == level && GoodInputs(v, level, job.in0, job.in1)
    && (exists seed: seq<File> :: seed != [] && SeedChosen(v.levels[level], level, pointer, manual, fileSizeLimit, seed)
                                  && Grown(v, level, seed, expandedBytesLimit, job.in0, job.in1))
    && job.grandparents == Grandparents(v, level, job.in0, job.in1)
  }

  ghost predicate SeedChosen(fs: seq<File>, level: nat, pointer: Option<InternalKey>, manual: Option<Range>,
                             fileSizeLimit: nat, seed: seq<File>)
  {
    if manual.None? then PickedSeed(fs, level, pointer, seed)
    else RangeTaken(fs, level, manual.value.0, manual.value.1, fileSizeLimit, seed)
  }

  function PointerOf(pointers: map<nat, InternalKey>, level: nat): Option<InternalKey> {
    if level in pointers then Some(pointers[level]) else None
  }

  predicate IsTrivialMove(job: Job, maxGrandparentBytes: nat) {
    |job.in0| == 1 && job.in1 == [] && TotalFileSize(job.grandparents) <= maxGrandparentBytes
  }

  class DbImpl {
    const versions: VersionSet
    var mem: seq<Entry>
    var imm: Option<seq<Entry>>
    var snapshots: seq<SequenceNumber>
    ghost var history: set<Entry> // every entry ever written
    ghost var intact: bool        // no compaction so far dropped a tombstone that shields a value

    ghost function Tables(): set<Entry>
      reads this, versions
    {
      Contents(versions.current)
    }

    ghost function Present(): set<Entry>
      reads this, versions
    {
      PresentIn(mem, MemRows(imm), Tables())
    }

    function OldestSnapshot(): SequenceNumber
      reads this, versions
    {
      Oldest(snapshots, versions.lastSequence)
    }

    ghost predicate Valid()
      reads this, versions
    {
      && versions.Valid() && versions.lastSequence < MAX_SEQUENCE
      && SnapshotsAscend(snapshots, versions.lastSequence)
      && Sound(mem, MemRows(imm), Tables(), history, versions.lastSequence, OldestSnapshot(), intact)
    }

    constructor ()
      ensures Valid() && fresh(versions) && history == {} && intact && snapshots == []
    {
      versions := new VersionSet();
      mem, imm, snapshots := [], None, [];
      history, intact := {}, true;
      new;
      EmptyVersion();
      assert Present() == {};
    }

    // DBImpl::Write for one group, behind the log: consecutive sequence numbers, inserted in order,
    // then published. When the append or the sync failed nothing is inserted, and the numbers are
    // published all the same.
    method Write(batch: seq<Op>, logged: bool)
      requires Valid() && versions.lastSequence + |batch| < MAX_SEQUENCE
      modifies this`mem, this`history, versions`lastSequence
      ensures Valid()
      ensures versions.lastSequence == old(versions.lastSequence) + |batch|
      ensures var rows := if logged then AsSet(BatchEntries(batch, old(versions.lastSequence) + 1)) else {};
              history == old(history) + rows && Present() == old(Present()) + rows
    {
      hide LsmInvariant, AllOrdered, Numbered, Contents, Sound;
      ghost var oldest, before := OldestSnapshot(), versions.lastSequence;
      if logged {
        InsertInto(batch);
      }
      versions.lastSequence := versions.lastSequence + |batch|;
      SoundLater(mem, MemRows(imm), Tables(), history, if logged then versions.lastSequence else before,
        versions.lastSequence, oldest, OldestSnapshot(), intact);
    }

    // WriteBatchInternal::InsertInto.
    method InsertInto(batch: seq<Op>)
      requires Valid() && versions.lastSequence + |batch| < MAX_SEQUENCE
      modifies this`mem, this`history
      ensures Sound(mem, MemRows(imm), Tables(), history, versions.lastSequence + |batch|, OldestSnapshot(), intact)
      ensures var rows := AsSet(BatchEntries(batch, versions.lastSequence + 1));
              history == old(history) + rows && Present() == old(Present()) + rows
    {
      hide LsmInvariant, AllOrdered, Numbered, Contents, Sound, PresentIn, AsSet, BatchEntries, Insert, Inserted;
      ghost var first, rows, tables := versions.lastSequence + 1, MemRows(imm), Tables();
      ghost var before, present := history, Present();
      NothingInserted(mem, rows, tables, history, first, OldestSnapshot(), intact, batch);
      for i := 0 to |batch|
        invariant Inserted(mem, rows, tables, history, first, OldestSnapshot(), intact, batch, i, before, present)
      {
        var e := Entry(InternalKey(batch[i].key, versions.lastSequence + 1 + i, batch[i].kind), batch[i].value);
        OneMoreInserted(mem, rows, tables, history, first, OldestSnapshot(), intact, batch, i, before, present, e);
        mem := Insert(mem, e);
        history := history + {e};
      }
      AllInserted(mem, rows, tables, history, first, OldestSnapshot(), intact, batch, before, present);
    }

    method GetSnapshot() returns (s: SequenceNumber)
      requires Valid()
      modifies this`snapshots
      ensures Valid() && s == versions.lastSequence && snapshots == old(snapshots) + [s]
    {
      s := versions.lastSequence;
      snapshots := snapshots + [s];
    }

    method ReleaseSnapshot(i: nat)
      requires Valid() && i < |snapshots|
      modifies this`snapshots
      ensures Valid() && snapshots == old(snapshots[..i] + snapshots[i + 1..])
    {
      ghost var before := OldestSnapshot();
      snapshots := snapshots[..i] + snapshots[i + 1..];
      SoundLater(mem, MemRows(imm), Tables(), history, versions.lastSequence, versions.lastSequence, before,
        OldestSnapshot(), intact);
    }

    // DBImpl::Get: memtable, then immutable memtable, then the tables. While `intact`, the answer
    // at the present or at any live snapshot is the one the full history of writes gives.
    method Get(k: UserKey, snapshot: Option<nat>) returns (r: Option<Value>)
      requires Valid() && (snapshot.Some? ==> snapshot.value < |snapshots|)
      ensures var s := if snapshot.Some? then snapshots[snapshot.value] else versions.lastSequence;
              r == Lookup(Present(), k, s) && (intact ==> r == Lookup(history, k, s))
    {
      var s := if snapshot.Some? then snapshots[snapshot.value] else versions.lastSequence;
      UniqueInPart(history, Present());
      ReadThrough(mem, MemRows(imm), Tables(), k, s);
      var found := RunGet(mem, k, s);
      if found.None? && imm.Some? {
        found := RunGet(imm.value, k, s);
      }
      if found.Some? {
        return if found.value.key.kind.Put? then Some(found.value.value) else None;
      }
      r := Versions.Get(versions.current, k, s);
    }

    // DBImpl::NewIterator. Every position the iterator takes is a position on the map of reads; while
    // `intact`, of reads of the full history.
    method NewIterator(snapshot: Option<nat>) returns (it: DBIter)
      requires Valid() && (snapshot.Some? ==> snapshot.value < |snapshots|)
      ensures it.Inv() && !it.valid && fresh(it) && fresh(it.iter) && it.Whole() == Present()
      ensures it.sequence == if snapshot.Some? then snapshots[snapshot.value] else versions.lastSequence
      ensures intact ==> forall k :: Lookup(it.Whole(), k, it.sequence) == Lookup(history, k, it.sequence)
    {
      var runs := NewInternalIterator(mem, imm, versions.current);
      UniqueInPart(history, Present());
      var merged := new MergingIterator(runs);
      it := new DBIter(merged, if snapshot.Some? then snapshots[snapshot.value] else versions.lastSequence);
    }

    // The last step of MakeRoomForWrite: start a new memtable.
    method SwitchMemTable()
      requires Valid() && imm.None?
      modifies this`mem, this`imm
      ensures Valid() && mem == [] && imm == Some(old(mem)) && Present() == old(Present())
    {
      hide LsmInvariant, AllOrdered, Numbered, Contents, SnapshotsAscend, Sound;
      SoundAfterSwitch(mem, Tables(), history, versions.lastSequence, OldestSnapshot(), intact);
      imm := Some(mem);
      mem := [];
    }

    // CompactMemTable: the immutable memtable becomes a table at the level the picker chose.
    method CompactMemTable(maxGrandparentBytes: nat, size: nat) returns (ghost step: Step)
      requires Valid() && imm.Some?
      modifies this`imm, versions`current, versions`nextFileNumber
      ensures Valid() && imm.None? && Present() == old(Present())
      ensures Tables() == old(Tables()) + AsSet(old(imm.value))
      ensures if old(imm.value) == [] then step == FlushedEmpty && versions.current == old(versions.current)
              else step.Flushed?
      ensures step.Flushed? ==>
                FlushedTo(old(versions.current), versions.current, old(imm.value), maxGrandparentBytes, step)
    {
      hide LsmInvariant, AllOrdered, Numbered, Contents, SnapshotsAscend, PickedLevel, Added;
      VersionHasLevels(versions.current);
      ghost var tables := Tables();
      step := FlushedEmpty;
      if imm.value != [] {
        UniqueInPart(history, tables + AsSet(imm.value));
        var level, f := InstallFlush(versions, imm.value, size, maxGrandparentBytes);
        step := Flushed(level, f);
      }
      SoundAfterFlush(mem, imm.value, tables, Tables(), history, versions.lastSequence, OldestSnapshot(), intact);
      imm := None;
    }

    // SetupOtherInputs also remembers where the next compaction of this level starts.
    method Prepare(level: nat, seed: seq<File>, expandedBytesLimit: nat) returns (job: Job)
      requires Valid() && level + 1 < NUM_LEVELS && Seed(versions.current.levels[level], level, seed)
      modifies versions`compactPointer
      ensures Valid() && job.level == level && GoodInputs(versions.current, level, job.in0, job.in1)
      ensures Grown(versions.current, level, seed, expandedBytesLimit, job.in0, job.in1)
      ensures job.grandparents == Grandparents(versions.current, level, job.in0, job.in1)
      ensures versions.compactPointer == old(versions.compactPointer)[level := HighestKey(job.in0)]
    {
      hide Sound, LsmInvariant, AllOrdered, Numbered, Contents, GoodInputs, Seed, Grown, Grandparents, HighestKey;
      var in0, in1, grandparents, pointer := SetupOtherInputs(versions.current, level, seed, expandedBytesLimit);
      versions.compactPointer := versions.compactPointer[level := pointer];
      job := Job(level, in0, in1, grandparents);
    }

    // An automatic compaction of `level`; which level is due is left open.
    method PickCompaction(level: nat, fileSizeLimit: nat, expandedBytesLimit: nat) returns (job: Job)
      requires Valid() && level + 1 < NUM_LEVELS && versions.current.levels[level] != []
      modifies versions`compactPointer
      ensures Valid()
      ensures Chosen(versions.current, level, PointerOf(old(versions.compactPointer), level), None, fileSizeLimit,
                     expandedBytesLimit, job)
      ensures versions.compactPointer == old(versions.compactPointer)[level := HighestKey(job.in0)]
    {
      hide Sound, AllOrdered, Numbered, Contents, Seed, Grown, Grandparents, HighestKey, PickedSeed;
      var pointer := PointerOf(versions.compactPointer, level);
      var seed := PickSeed(versions.current, level, pointer);
      job := Prepare(level, seed, expandedBytesLimit);
      assert SeedChosen(versions.current.levels[level], level, pointer, None, fileSizeLimit, seed);
    }

    // DoCompactionWork and InstallCompactionResults. The tables answer as before exactly when no
    // tombstone that shields an unread value is dropped.
    method CompactFiles(job: Job, limits: Limits) returns (ghost outputs: seq<File>)
      requires Valid() && job.level + 1 < NUM_LEVELS && GoodInputs(versions.current, job.level, job.in0, job.in1)
      modifies this`intact, versions`current, versions`nextFileNumber
      ensures Valid() && Present() <= old(Present())
      ensures Done(old(versions.current), versions.current, old(OldestSnapshot()), old(intact), intact,
                   Rewritten(job, outputs))
      ensures Divided(limits, job.grandparents, outputs)
    {
      hide Divided, Sound, LsmInvariant, AllOrdered, Numbered, GoodInputs, ShieldDropped, Contents, AnswersAs,
          MergeInstalled, Done;
      VersionHasLevels(versions.current);
      ghost var v, tables, before := versions.current, Tables(), intact;
      ghost var snap := OldestSnapshot();
      outputs := InstallMerge(versions, job.level, job.in0, job.in1, OldestSnapshot(), job.grandparents, limits);
      intact := before && !ShieldDropped(v, job.level, job.in0, job.in1, snap);
      SoundAfterExchange(mem, MemRows(imm), tables, Tables(), history, versions.lastSequence, snap, before, intact);
      MergeDone(v, versions.current, snap, before, intact, job, outputs);
    }

    // The compaction that is due: of a manual range, or of a chosen level.
    method ChooseJob(level: nat, manual: Option<Range>, fileSizeLimit: nat, expandedBytesLimit: nat)
      returns (job: Option<Job>)
      requires Valid() && level + 1 < NUM_LEVELS
      modifies versions`compactPointer
      ensures Valid()
      ensures job.None? <==> NothingDue(versions.current.levels[level], manual)
      ensures job.None? ==> versions.compactPointer == old(versions.compactPointer)
      ensures job.Some? ==>
                && Chosen(versions.current, level, PointerOf(old(versions.compactPointer), level), manual,
                          fileSizeLimit, expandedBytesLimit, job.value)
                && versions.compactPointer == old(versions.compactPointer)[level := HighestKey(job.value.in0)]
    {
      hide Sound, SnapshotsAscend, AllOrdered, Numbered, Seed, Grown, Grandparents, HighestKey, RangeTaken, Contents;
      job := None;
      if manual.Some? {
        var seed := RangeSeed(versions.current, level, manual.value.0, manual.value.1, fileSizeLimit);
        if seed != [] {
          var prepared := Prepare(level, seed, expandedBytesLimit);
          assert SeedChosen(versions.current.levels[level], level, None, manual, fileSizeLimit, seed);
          job := Some(prepared);
        }
      } else if versions.current.levels[level] != [] {
        var picked := PickCompaction(level, fileSizeLimit, expandedBytesLimit);
        job := Some(picked);
      }
    }

    // A single input file with nothing in its way is moved; everything else is rewritten.
    method RunJob(job: Job, manual: bool, limits: Limits) returns (ghost step: Step)
      requires Valid() && job.level + 1 < NUM_LEVELS && GoodInputs(versions.current, job.level, job.in0, job.in1)
      modifies this`intact, versions`current, versions`nextFileNumber
      ensures Valid() && Present() <= old(Present())
      ensures if manual || !IsTrivialMove(job, limits.maxGrandparentBytes) then step.Rewritten? && step.job == job
              else step == Moved(job)
      ensures step.Rewritten? ==> Divided(limits, job.grandparents, step.outputs)
      ensures step.Moved? ==> Present() == old(Present())
      ensures Done(old(versions.current), versions.current, old(OldestSnapshot()), old(intact), intact, step)
    {
      hide Valid, LsmInvariant, GoodInputs, Contents, Tables, Done, Present, TotalFileSize, Divided;
      if !manual && IsTrivialMove(job, limits.maxGrandparentBytes) {
        MoveFile(job);
        step := Moved(job);
      } else {
        ghost var outputs := CompactFiles(job, limits);
        step := Rewritten(job, outputs);
      }
    }

    // The trivial move.
    method MoveFile(job: Job)
      requires Valid() && job.level + 1 < NUM_LEVELS && GoodInputs(versions.current, job.level, job.in0, job.in1)
      requires |job.in0| == 1 && job.in1 == []
      modifies versions`current, versions`nextFileNumber
      ensures Valid() && Present() == old(Present())
      ensures Done(old(versions.current), versions.current, old(OldestSnapshot()), intact, intact, Moved(job))
    {
      hide Sound, SnapshotsAscend, LsmInvariant, AllOrdered, Numbered, GoodInputs, Contents, Installed;
      VersionHasLevels(versions.current);
      InstallMove(versions, job.level, job.in0);
    }

    // BackgroundCompaction for a chosen level or a manual range. A waiting memtable goes first; then,
    // unless there is nothing to compact, the chosen files leave their level - one file moved down
    // whole, or merged with the lower files their range meets into tables of the surviving rows.
    // Merging is the only step that can change an answer.
    method BackgroundCompaction(level: nat, manual: Option<Range>, fileSizeLimit: nat, expandedBytesLimit: nat,
                                limits: Limits, tableSize: nat)
      returns (ghost step: Step)
      requires Valid() && level + 1 < NUM_LEVELS
      modifies this`imm, this`intact, versions`current, versions`nextFileNumber, versions`compactPointer
      ensures Valid() && imm.None? && Present() <= old(Present())
      ensures old(imm).Some? ==> Tables() == old(Tables()) + AsSet(old(imm.value))
      ensures step.Flushed? || step.FlushedEmpty? <==> old(imm).Some?
      ensures step.FlushedEmpty? <==> old(imm) == Some([])
      ensures step.Flushed? ==>
                FlushedTo(old(versions.current), versions.current, old(imm.value), limits.maxGrandparentBytes, step)
      ensures step.Idle? <==> old(imm).None? && NothingDue(old(versions.current.levels[level]), manual)
      ensures Worked(step) ==>
                && Chosen(old(versions.current), level, PointerOf(old(versions.compactPointer), level), manual,
                          fileSizeLimit, expandedBytesLimit, step.job)
                && (step.Moved? <==> manual.None? && IsTrivialMove(step.job, limits.maxGrandparentBytes))
                && versions.compactPointer == old(versions.compactPointer)[level := HighestKey(step.job.in0)]
      ensures step.Rewritten? ==> Divided(limits, step.job.grandparents, step.outputs)
      ensures !step.Rewritten? ==> Present() == old(Present())
      ensures Done(old(versions.current), versions.current, old(OldestSnapshot()), old(intact), intact, step)
    {
      hide Sound, SnapshotsAscend, AllOrdered, Numbered, GoodInputs, ShieldDropped, Contents, AnswersAs, FlushedTo,
          Grown, Grandparents, HighestKey, SeedChosen, NothingDue, TotalFileSize, MergeInstalled, Divided;
      if imm.Some? {
        step := CompactMemTable(limits.maxGrandparentBytes, tableSize);
      } else {
        var job := ChooseJob(level, manual, fileSizeLimit, expandedBytesLimit);
        step := Idle;
        if job.Some? {
          step := RunJob(job.value, manual.Some?, limits);
        }
      }
    }
  }

  predicate Worked(step: Step) {
    step.Moved? || step.Rewritten?
  }

  // The memtable's rows are one new file at the level the picker chose.
  ghost predicate FlushedTo(v: Version, v': Version, rows: seq<Entry>, maxGrandparentBytes: nat, step: Step)
    requires step.Flushed?
  {
    && |v.levels| == NUM_LEVELS && step.level < NUM_LEVELS && step.file.entries == rows
    && PickedLevel(v, Smallest(step.file).ukey, Largest(step.file).ukey, maxGrandparentBytes, step.level)
    && Added(v, step.level, step.file, v')
  }

  lemma MergeDone(v: Version, v': Version, snap: SequenceNumber, intact: bool, intact': bool, job: Job,
                  outputs: seq<File>)
    requires |v.levels| == NUM_LEVELS && job.level + 1 < NUM_LEVELS
    requires MergeInstalled(v, job.level, job.in0, job.in1, snap, outputs, v')
    requires intact' <==> intact && !ShieldDropped(v, job.level, job.in0, job.in1, snap)
    requires AnswersAs(Contents(v'), Contents(v), snap) <==> !ShieldDropped(v, job.level, job.in0, job.in1, snap)
    ensures Done(v, v', snap, intact, intact', Rewritten(job, outputs))
  {
    hide MergeInstalled, ShieldDropped, AnswersAs, Contents;
  }

  // What a step has made of the version, and of the flag that no shield was dropped so far. A merge
  // leaves every answer from the snapshot on as it was exactly when it drops none.
  ghost predicate Done(v: Version, v': Version, snap: SequenceNumber, intact: bool, intact': bool, step: Step) {
    && |v.levels| == NUM_LEVELS && (!step.Rewritten? ==> intact' == intact)
    && match step
       case Idle => v' == v
       case FlushedEmpty => v' == v
       case Flushed(_, _) => true
       case Moved(job) =>
         && job.level + 1 < NUM_LEVELS && Installed(v, job.level, job.in0, [], job.in0, v')
         && Contents(v') == Contents(v)
       case Rewritten(job, outputs) =>
         && job.level + 1 < NUM_LEVELS
         && MergeInstalled(v, job.level, job.in0, job.in1, snap, outputs, v')
         && var dropped := ShieldDropped(v, job.level, job.in0, job.in1, snap);
            (intact' <==> intact && !dropped) && (AnswersAs(Contents(v'), Contents(v), snap) <==> !dropped)
  }

  // A file moved down meets no more bytes two levels further than the limit allows.
  lemma MovesStayCheap(v: Version, level: nat, pointer: Option<InternalKey>, manual: Option<Range>,
                       fileSizeLimit: nat, expandedBytesLimit: nat, job: Job, maxGrandparentBytes: nat)
    requires Chosen(v, level, pointer, manual, fileSizeLimit, expandedBytesLimit, job)
    requires IsTrivialMove(job, maxGrandparentBytes) && level + 2 < NUM_LEVELS
    ensures |v.levels| == NUM_LEVELS && |job.in0| == 1 && Smallest(job.in0[0]).ukey <= Largest(job.in0[0]).ukey
    ensures var f := job.in0[0];
            TotalFileSize(FilterMeets(v.levels[level + 2], Some(Smallest(f).ukey), Some(Largest(f).ukey)))
              <= maxGrandparentBytes
  {
    var f := job.in0[0];
    UpperInputsAreOfLevel(v, level, job.in0, job.in1);
    VersionHasLevels(v);
    assert job.in0 + [] == job.in0 && job.in0 == [f];
    TableBounds(f, f.entries[0]);
    hide LsmInvariant, Grown, SeedChosen, FilterMeets;
  }

  lemma FilteredIsDisjoint(v: Version, l: nat, begin: Bound, end: Bound)
    requires LsmInvariant(v) && 1 <= l < NUM_LEVELS
    ensures Disjoint(FilterMeets(v.levels[l], begin, end))
  {
    var a, b := FilterIsRun(v.levels[l], begin, end);
    RunIsDisjoint(v.levels[l], a, b);
  }

  lemma GrandparentsAreDisjoint(v: Version, level: nat, in0: seq<File>, in1: seq<File>)
    requires LsmInvariant(v) && level + 1 < NUM_LEVELS && in0 != []
    ensures Disjoint(Grandparents(v, level, in0, in1))
  {
    if level + 2 < NUM_LEVELS {
      FilteredIsDisjoint(v, level + 2, Low(in0 + in1), High(in0 + in1));
    }
  }

  // A later compaction of an output stays cheap: all but the last of the files two levels down that
  // the output touches are within the limit together.
  lemma OutputsTouchLittle(v: Version, level: nat, pointer: Option<InternalKey>, manual: Option<Range>,
                           fileSizeLimit: nat, expandedBytesLimit: nat, job: Job, limits: Limits, outputs: seq<File>,
                           f: File, i: nat)
    requires Chosen(v, level, pointer, manual, fileSizeLimit, expandedBytesLimit, job)
    requires OutputsFrom(Inputs(job.in0, job.in1), outputs) && Divided(limits, job.grandparents, outputs)
    requires f in outputs
    requires i < |job.grandparents| && Touches(job.grandparents[i], f)
    ensures var gp := job.grandparents;
            var a, b := EndBefore(gp, Smallest(f)), EndBefore(gp, Largest(f));
            a <= i <= b && TotalFileSize(gp[a..b]) <= limits.maxGrandparentBytes
  {
    GrandparentsAreDisjoint(v, level, job.in0, job.in1);
    NarrowTouchesLittle(limits, job.grandparents, f, i);
  }

  function OutputsOf(step: Step): seq<File>
    requires Worked(step)
  {
    if step.Moved? then step.job.in0 else step.outputs
  }

  lemma WorkIsInstalled(v: Version, v': Version, snap: SequenceNumber, intact: bool, intact': bool, step: Step)
    requires Worked(step) && Done(v, v', snap, intact, intact', step) && (step.Moved? ==> step.job.in1 == [])
    ensures |v.levels| == NUM_LEVELS && step.job.level + 1 < NUM_LEVELS
    ensures Installed(v, step.job.level, step.job.in0, step.job.in1, OutputsOf(step), v')
  {
    hide Installed, ShieldDropped, AnswersAs, Contents, KeptBy, OutputsFrom;
  }

  lemma InstalledLeaves(v: Version, v': Version, level: nat, in0: seq<File>, in1: seq<File>, outputs: seq<File>)
    requires |v.levels| == NUM_LEVELS && level + 1 < NUM_LEVELS && Installed(v, level, in0, in1, outputs, v')
    ensures |v'.levels| == NUM_LEVELS && (forall f :: f in in0 ==> f !in v'.levels[level])
    ensures forall f :: f in in1 && f !in outputs ==> f !in v'.levels[level + 1]
    ensures forall f :: f in outputs ==> f in v'.levels[level + 1]
  {
  }

  lemma ChosenInputs(v: Version, level: nat, pointer: Option<InternalKey>, manual: Option<Range>, fileSizeLimit: nat,
                     expandedBytesLimit: nat, job: Job)
    requires Chosen(v, level, pointer, manual, fileSizeLimit, expandedBytesLimit, job)
    ensures |v.levels| == NUM_LEVELS && level + 1 < NUM_LEVELS && job.level == level && job.in0 != []
    ensures forall f :: f in job.in0 ==> f in v.levels[level]
    ensures job.in1 == FilterMeets(v.levels[level + 1], Low(job.in0), High(job.in0))
  {
    UpperInputsAreOfLevel(v, level, job.in0, job.in1);
    VersionHasLevels(v);
    hide LsmInvariant, Grown, Grandparents, SeedChosen, FilterMeets;
  }

  // Compacting a level gets somewhere: the inputs were files of the level, at least one, and have
  // left it; the outputs are in the level below, and of the lower inputs only those made again.
  lemma WorkLeavesTheLevel(v: Version, v': Version, snap: SequenceNumber, intact: bool, intact': bool, step: Step,
                           level: nat, pointer: Option<InternalKey>, manual: Option<Range>, fileSizeLimit: nat,
                           expandedBytesLimit: nat)
    requires Worked(step) && Done(v, v', snap, intact, intact', step) && (step.Moved? ==> step.job.in1 == [])
    requires Chosen(v, level, pointer, manual, fileSizeLimit, expandedBytesLimit, step.job)
    ensures |v.levels| == |v'.levels| == NUM_LEVELS && step.job.in0 != []
    ensures forall f :: f in step.job.in0 ==> f in v.levels[level] && f !in v'.levels[level]
    ensures step.job.in1 == FilterMeets(v.levels[level + 1], Low(step.job.in0), High(step.job.in0))
    ensures forall f :: f in step.job.in1 && f !in OutputsOf(step) ==> f !in v'.levels[level + 1]
    ensures forall f :: f in OutputsOf(step) ==> f in v'.levels[level + 1]
  {
    hide Done, Chosen, FilterMeets, Installed, OutputsOf, Low, High;
    ChosenInputs(v, level, pointer, manual, fileSizeLimit, expandedBytesLimit, step.job);
    WorkIsInstalled(v, v', snap, intact, intact', step);
    InstalledLeaves(v, v', level, step.job.in0, step.job.in1, OutputsOf(step));
  }
}
