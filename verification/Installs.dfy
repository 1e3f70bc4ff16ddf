/** The three edits the engine applies - flush, compaction, trivial move - and what each makes of
    the installed version (db/db_impl.cc: CompactMemTable, BackgroundCompaction,
    InstallCompactionResults). */
module Installs {
  import opened DbFormat
  import opened Versions
  import opened Overlap
  import opened VersionBuilder
  import opened VersionSets
  import opened CompactionInputs
  import opened CompactionWork
  import opened CompactionSafety
  import opened CompactionReads
  import opened FlushSafety
  import opened Iterators
  import opened Merger
  import opened InternalIterators
  import opened Layers

  // A level the edit does not mention keeps its list, order included.
  lemma UntouchedLevel(fs: seq<File>, edit: Edit, l: nat, fs': seq<File>)
    requires Ordered(fs) && LevelApplied(fs, edit, l, fs')
    requires forall d :: d in edit.deleted ==> d.0 != l
    requires forall a :: a in edit.added ==> a.0 != l
    ensures fs' == fs
  {
    forall f ensures f in fs' <==> f in fs {
      assert (l, f) !in edit.added && (l, f.number) !in edit.deleted;
    }
    OrderedIsUnique(fs', fs);
  }

  // ----- flush -----

  function FlushEdit(level: nat, f: File): Edit {
    Edit({}, [(level, f)])
  }

  lemma FlushIsAdded(v: Version, level: nat, f: File, v': Version)
    requires AllOrdered(v) && level < NUM_LEVELS && Numbered(v, f.number)
    requires EditApplied(v, FlushEdit(level, f), v')
    ensures Added(v, level, f, v') && AllOrdered(v') && Numbered(v', f.number + 1)
  {
    var edit := FlushEdit(level, f);
    forall l | 0 <= l < NUM_LEVELS ensures Ordered(v'.levels[l]) && (l != level ==> v'.levels[l] == v.levels[l]) {
      assert LevelApplied(v.levels[l], edit, l, v'.levels[l]);
      if l != level {
        UntouchedLevel(v.levels[l], edit, l, v'.levels[l]);
      }
    }
    assert LevelApplied(v.levels[level], edit, level, v'.levels[level]);
    forall l, g | FileAt(v', l, g) ensures FileAt(v, l, g) || (l == level && g == f) {
    }
  }

  lemma FlushIsFresh(v: Version, level: nat, f: File)
    requires |v.levels| == NUM_LEVELS && level < NUM_LEVELS && Numbered(v, f.number)
    ensures WellFormedEdit(FlushEdit(level, f)) && FreshNumbers(v, FlushEdit(level, f))
  {
    forall a, g | a in FlushEdit(level, f).added && g in v.levels[a.0] ensures g.number != a.1.number {
      assert FileAt(v, a.0, g);
    }
  }

  // ----- compaction -----

  function Tagged(level: nat, fs: seq<File>): seq<(nat, File)> {
    seq(|fs|, i requires 0 <= i < |fs| => (level, fs[i]))
  }

  // AddInputDeletions and the additions of InstallCompactionResults.
  function CompactionEdit(level: nat, in0: seq<File>, in1: seq<File>, outputs: seq<File>): Edit {
    Edit((set f | f in in0 :: (level, f.number)) + (set f | f in in1 :: (level + 1, f.number)),
        Tagged(level + 1, outputs))
  }

  ghost predicate InputsOf(v: Version, level: nat, in0: seq<File>, in1: seq<File>)
    requires level + 1 < |v.levels|
  {
    (forall f :: f in in0 ==> f in v.levels[level]) && (forall f :: f in in1 ==> f in v.levels[level + 1])
  }

  // Numbers of outputs: handed out one after the other, or kept by a moved file.
  ghost predicate OutputNumbers(v: Version, next: nat, level: nat, in0: seq<File>, outputs: seq<File>) {
    NumberedFrom(outputs, next) || (|in0| == 1 && outputs == in0)
  }

  lemma DeletedIsInput(v: Version, next: nat, level: nat, in0: seq<File>, in1: seq<File>, outputs: seq<File>, l: nat,
                       f: File)
    requires |v.levels| == NUM_LEVELS && level + 1 < NUM_LEVELS && Numbered(v, next) && InputsOf(v, level, in0, in1)
    requires FileAt(v, l, f)
    ensures (l, f.number) in CompactionEdit(level, in0, in1, outputs).deleted <==>
              (l == level && f in in0) || (l == level + 1 && f in in1)
  {
    if (l, f.number) in (set g | g in in0 :: (level, g.number)) {
      var g :| g in in0 && (l, f.number) == (level, g.number);
      assert FileAt(v, level, g);
    }
    if (l, f.number) in (set g | g in in1 :: (level + 1, g.number)) {
      var g :| g in in1 && (l, f.number) == (level + 1, g.number);
      assert FileAt(v, level + 1, g);
    }
  }

  lemma TaggedIn(level: nat, fs: seq<File>, l: nat, f: File)
    ensures (l, f) in Tagged(level, fs) <==> l == level && f in fs
  {
    if l == level && f in fs {
      var i :| 0 <= i < |fs| && fs[i] == f;
      assert Tagged(level, fs)[i] == (l, f);
    }
  }

  // Where the edit leaves or puts a file.
  ghost predicate Belongs(v: Version, level: nat, in0: seq<File>, in1: seq<File>, outputs: seq<File>, l: nat, f: File) {
    (FileAt(v, l, f) && Unread(level, in0, in1, l, f)) || (l == level + 1 && f in outputs)
  }

  lemma CompactionIsInstalled(v: Version, next: nat, level: nat, in0: seq<File>, in1: seq<File>, outputs: seq<File>,
                              v': Version)
    requires AllOrdered(v) && level + 1 < NUM_LEVELS && Numbered(v, next) && InputsOf(v, level, in0, in1)
    requires EditApplied(v, CompactionEdit(level, in0, in1, outputs), v')
    ensures Installed(v, level, in0, in1, outputs, v') && AllOrdered(v')
  {
    var edit := CompactionEdit(level, in0, in1, outputs);
    forall l | 0 <= l < NUM_LEVELS
      ensures Ordered(v'.levels[l])
      ensures forall f :: f in v'.levels[l] <==> Belongs(v, level, in0, in1, outputs, l, f)
      ensures l != level && l != level + 1 ==> v'.levels[l] == v.levels[l]
    {
      assert LevelApplied(v.levels[l], edit, l, v'.levels[l]);
      forall f ensures f in v'.levels[l] <==> Belongs(v, level, in0, in1, outputs, l, f) {
        TaggedIn(level + 1, outputs, l, f);
        if f in v.levels[l] {
          assert FileAt(v, l, f);
          DeletedIsInput(v, next, level, in0, in1, outputs, l, f);
        }
      }
      if l != level && l != level + 1 {
        OrderedIsUnique(v'.levels[l], v.levels[l]);
      }
    }
  }

  lemma NumbersAfter(v: Version, next: nat, level: nat, in0: seq<File>, in1: seq<File>, outputs: seq<File>, v': Version)
    requires |v.levels| == NUM_LEVELS && level + 1 < NUM_LEVELS && Numbered(v, next) && InputsOf(v, level, in0, in1)
    requires Installed(v, level, in0, in1, outputs, v') && OutputNumbers(v, next, level, in0, outputs)
    ensures Numbered(v', next + |outputs|)
  {
    forall l, f | FileAt(v', l, f)
      ensures (FileAt(v, l, f) && !(l == level && f in in0)) || (l == level + 1 && f in outputs)
    {
    }
    forall f | f in outputs ensures f.number < next + |outputs| && (next <= f.number || outputs == in0 == [f]) {
      var i :| 0 <= i < |outputs| && outputs[i] == f;
      assert outputs == in0 ==> FileAt(v, level, f);
    }
    forall l, m, f, g | FileAt(v', l, f) && FileAt(v', m, g) && f.number == g.number ensures l == m && f == g {
      if f in outputs && l == level + 1 && g in outputs && m == level + 1 {
        var i, j :| 0 <= i < |outputs| && 0 <= j < |outputs| && outputs[i] == f && outputs[j] == g;
      } else if |in0| == 1 && outputs == in0 {
        assert FileAt(v, level, in0[0]);
      }
    }
  }

  lemma OutputsAreFresh(v: Version, next: nat, level: nat, in0: seq<File>, in1: seq<File>, outputs: seq<File>)
    requires |v.levels| == NUM_LEVELS && level + 1 < NUM_LEVELS && Numbered(v, next) && InputsOf(v, level, in0, in1)
    requires OutputNumbers(v, next, level, in0, outputs)
    ensures WellFormedEdit(CompactionEdit(level, in0, in1, outputs))
    ensures FreshNumbers(v, CompactionEdit(level, in0, in1, outputs))
  {
    var edit := CompactionEdit(level, in0, in1, outputs);
    forall a, f | a in edit.added && f in v.levels[a.0] ensures f.number != a.1.number {
      var i :| 0 <= i < |outputs| && a == (level + 1, outputs[i]);
      assert FileAt(v, level + 1, f);
      if outputs == in0 {
        assert FileAt(v, level, in0[0]);
      }
    }
  }

  // ----- what the merge reads and writes -----

  ghost predicate DistinctNumbers(fs: seq<File>) {
    forall i, j :: 0 <= i < j < |fs| ==> fs[i].number != fs[j].number
  }

  lemma {:induction false} FilterIsDistinct(fs: seq<File>, n: nat, begin: Bound, end: Bound)
    requires n <= |fs| && DistinctNumbers(fs)
    ensures DistinctNumbers(MeetsUpTo(fs, n, begin, end))
  {
    if n > 0 {
      FilterIsDistinct(fs, n - 1, begin, end);
      MeetsUpToIn(fs, n - 1, begin, end);
      var front := MeetsUpTo(fs, n - 1, begin, end);
      forall i | 0 <= i < |front| ensures front[i].number != fs[n - 1].number {
        assert front[i] in front;
        var j :| 0 <= j < n - 1 && fs[j] == front[i];
      }
      assert DistinctNumbers(front + [fs[n - 1]]);
    }
  }

  lemma LevelZeroInputsApart(fs: seq<File>, in0: seq<File>)
    requires NewestByNumber(fs) && TakenFrom(fs, 0, in0)
    ensures FilesApart(in0)
  {
    FilterIsDistinct(fs, |fs|, Low(in0), High(in0));
    assert in0 == MeetsUpTo(fs, |fs|, Low(in0), High(in0));
    FilterMeetsIn(fs, Low(in0), High(in0));
    forall i, j | 0 <= i < j < |in0| ensures Apart(Rows(in0[i]), Rows(in0[j])) {
      var f, g := in0[i], in0[j];
      assert f in fs && g in fs && f.number != g.number;
      assert f.number > g.number ==> NewerThan(Rows(f), Rows(g));
      assert g.number > f.number ==> NewerThan(Rows(g), Rows(f));
    }
  }

  lemma RunIsDisjoint(fs: seq<File>, a: nat, c: nat)
    requires Disjoint(fs) && TablesAscend(fs) && a <= c <= |fs|
    ensures Disjoint(fs[a..c]) && TablesAscend(fs[a..c])
  {
    var r := fs[a..c];
    forall i, j | 0 <= i < j < |r| ensures Less(Largest(r[i]), Smallest(r[j])) {
      assert Less(Largest(fs[a + i]), Smallest(fs[a + j]));
    }
  }

  lemma InputsAreLevels(v: Version, level: nat, in0: seq<File>, in1: seq<File>)
    requires LsmInvariant(v) && level + 1 < NUM_LEVELS && GoodInputs(v, level, in0, in1)
    ensures InputsOf(v, level, in0, in1)
    ensures TablesAscend(in0) && (level > 0 ==> Disjoint(in0)) && (level == 0 ==> FilesApart(in0))
    ensures TablesAscend(in1) && Disjoint(in1)
    ensures NewerThan(LevelEntries(in0), LevelEntries(in1))
  {
    UpperInputsAreOfLevel(v, level, in0, in1);
    var fs := v.levels[level + 1];
    FilterMeetsIn(fs, Low(in0), High(in0));
    var a, c := FilterIsRun(fs, Low(in0), High(in0));
    RunIsDisjoint(fs, a, c);
    if level == 0 {
      LevelZeroInputsApart(v.levels[0], in0);
    } else {
      var b, d :| 0 <= b < d <= |v.levels[level]| && in0 == v.levels[level][b..d];
      RunIsDisjoint(v.levels[level], b, d);
    }
    SubRows(in1, fs);
    assert NewerThan(LevelEntries(v.levels[level]), LevelEntries(fs));
  }

  lemma SubRows(part: seq<File>, fs: seq<File>)
    requires forall f :: f in part ==> f in fs
    ensures LevelEntries(part) <= LevelEntries(fs)
  {
  }

  // MakeInputIterator.
  method MakeInputIterator(v: Version, level: nat, in0: seq<File>, in1: seq<File>) returns (runs: seq<Cursor>)
    requires LsmInvariant(v) && level + 1 < NUM_LEVELS && GoodInputs(v, level, in0, in1)
    ensures AllOk(runs) && Distinct(runs) && Union(runs) == Inputs(in0, in1)
  {
    InputsAreLevels(v, level, in0, in1);
    RunsOfLevel(level, in0);
    RunsOfLevel(level + 1, in1);
    NewerIsApart(LevelEntries(in0), LevelEntries(in1));
    JoinRuns(RunsOf(level, in0), RunsOf(level + 1, in1));
    runs := RunsOf(level, in0) + RunsOf(level + 1, in1);
  }

  // The files the merge loop writes are a valid lower level made of surviving input rows.
  lemma OutputsAreSurvivors(v: Version, level: nat, in0: seq<File>, in1: seq<File>, input: seq<Entry>,
                            snap: SequenceNumber, outputs: seq<File>)
    requires |v.levels| == NUM_LEVELS && Ascending(input) && AsSet(input) == Inputs(in0, in1)
    requires Concat(outputs) == Kept(v, level, input, snap, |input|)
    ensures OutputsFrom(Inputs(in0, in1), outputs) && KeptBy(v, level, Inputs(in0, in1), snap, LevelEntries(outputs))
  {
    KeptSpec(v, level, input, snap, |input|);
    assert input[..|input|] == input;
    CutRunIsLevel(outputs);
    ConcatHasRows(outputs);
    forall e ensures e in LevelEntries(outputs) <==> Survives(v, level, Inputs(in0, in1), e, snap) {
      assert e in LevelEntries(outputs) <==> e in Concat(outputs);
      assert e in AsSet(input) <==> e in input;
    }
  }

  // ----- the three steps on a version set -----

  // Fresh numbers are the largest, so a flushed file may join level 0.
  lemma FlushFits(v: Version, level: nat, f: File)
    requires |v.levels| == NUM_LEVELS && level < NUM_LEVELS && Numbered(v, f.number)
    requires level > 0 ==> forall l: nat :: l <= level ==> !LevelMeets(v, l, Smallest(f).ukey, Largest(f).ukey)
    ensures FitsAt(v, level, f)
  {
    forall g | g in v.levels[0] ensures g.number < f.number {
      assert FileAt(v, 0, g);
    }
  }

  // WriteLevel0Table and the edit it leads to: the memtable becomes a table at the picked level.
  method InstallFlush(versions: VersionSet, rows: seq<Entry>, size: nat, maxGrandparentBytes: nat)
    returns (level: nat, f: File)
    requires versions.Valid() && Ascending(rows) && rows != []
    requires NewerThan(AsSet(rows), Contents(versions.current))
    requires UniqueVersions(Contents(versions.current) + AsSet(rows))
    modifies versions`current, versions`nextFileNumber
    ensures versions.Valid() && Contents(versions.current) == old(Contents(versions.current)) + AsSet(rows)
    ensures f == File(old(versions.nextFileNumber), size, rows) && level < NUM_LEVELS
    ensures PickedLevel(old(versions.current), Smallest(f).ukey, Largest(f).ukey, maxGrandparentBytes, level)
    ensures Added(old(versions.current), level, f, versions.current)
  {
    var number := versions.NewFileNumber();
    f := File(number, size, rows);
    var base := versions.current;
    level := PickLevelForMemTableOutput(base, Smallest(f).ukey, Largest(f).ukey, maxGrandparentBytes);
    FlushIsFresh(base, level, f);
    versions.LogAndApply(FlushEdit(level, f));
    assert Rows(f) == AsSet(rows);
    FlushFits(base, level, f);
    FlushIsAdded(base, level, f, versions.current);
    FlushKeepsInvariant(base, level, f, versions.current);
  }

  // Moving a file down loses no entry and keeps the level invariant.
  lemma MoveKeepsContents(v: Version, level: nat, in0: seq<File>, v': Version)
    requires LsmInvariant(v) && level + 1 < NUM_LEVELS && GoodInputs(v, level, in0, [])
    requires Installed(v, level, in0, [], in0, v') && |in0| == 1
    ensures LsmInvariant(v') && Contents(v') == Contents(v)
  {
    MovedIsOutput(v, level, in0);
    ContentsSplit(v, level, in0, []);
    ContentsAfter(v, level, in0, [], in0, v');
    CompactionKeepsInvariant(v, level, in0, [], in0, v');
  }

  lemma MovedIsOutput(v: Version, level: nat, in0: seq<File>)
    requires LsmInvariant(v) && level + 1 < NUM_LEVELS && GoodInputs(v, level, in0, []) && |in0| == 1
    ensures OutputsFrom(Inputs(in0, []), in0) && Inputs(in0, []) == LevelEntries(in0)
  {
    UpperInputsAreOfLevel(v, level, in0, []);
    assert LevelEntries([]) == {};
  }

  // One edit takes the inputs out and puts the outputs in.
  method ApplyCompaction(versions: VersionSet, level: nat, in0: seq<File>, in1: seq<File>, outputs: seq<File>)
    requires versions.Valid() && level + 1 < NUM_LEVELS && GoodInputs(versions.current, level, in0, in1)
    requires OutputNumbers(versions.current, versions.nextFileNumber, level, in0, outputs)
    modifies versions`current, versions`nextFileNumber
    ensures Installed(old(versions.current), level, in0, in1, outputs, versions.current)
    ensures AllOrdered(versions.current) && Numbered(versions.current, versions.nextFileNumber)
  {
    var v := versions.current;
    ghost var next := versions.nextFileNumber;
    InputsAreLevels(v, level, in0, in1);
    OutputsAreFresh(v, next, level, in0, in1, outputs);
    versions.nextFileNumber := versions.nextFileNumber + |outputs|;
    versions.LogAndApply(CompactionEdit(level, in0, in1, outputs));
    CompactionIsInstalled(v, next, level, in0, in1, outputs, versions.current);
    NumbersAfter(v, next, level, in0, in1, outputs, versions.current);
  }

  // Move the one input file down without rewriting it.
  method InstallMove(versions: VersionSet, level: nat, in0: seq<File>)
    requires versions.Valid() && level + 1 < NUM_LEVELS && GoodInputs(versions.current, level, in0, []) && |in0| == 1
    modifies versions`current, versions`nextFileNumber
    ensures versions.Valid() && Contents(versions.current) == old(Contents(versions.current))
    ensures Installed(old(versions.current), level, in0, [], in0, versions.current)
  {
    var v := versions.current;
    ApplyCompaction(versions, level, in0, [], in0);
    MoveKeepsContents(v, level, in0, versions.current);
  }

  lemma EmittedIsAll(u: set<Entry>, out: seq<Entry>)
    requires Emitted(u, AfterAll, out)
    ensures Ascending(out) && AsSet(out) == u
  {
    assert forall e :: e in AsSet(out) <==> e in u;
  }

  lemma InputVersionsUnique(v: Version, level: nat, in0: seq<File>, in1: seq<File>)
    requires LsmInvariant(v) && level + 1 < NUM_LEVELS && GoodInputs(v, level, in0, in1)
    ensures UniqueVersions(Inputs(in0, in1))
  {
    ContentsSplit(v, level, in0, in1);
    UniqueInPart(Contents(v), Inputs(in0, in1));
  }

  // Merge the inputs and keep what the drop rules keep.
  method MergeInputs(v: Version, level: nat, in0: seq<File>, in1: seq<File>, snap: SequenceNumber, nextFileNumber: nat,
                     grandparents: seq<File>, limits: Limits) returns (outputs: seq<File>)
    requires LsmInvariant(v) && level + 1 < NUM_LEVELS && GoodInputs(v, level, in0, in1) && snap < MAX_SEQUENCE
    ensures NumberedFrom(outputs, nextFileNumber) && OutputsFrom(Inputs(in0, in1), outputs)
    ensures KeptBy(v, level, Inputs(in0, in1), snap, LevelEntries(outputs)) && Divided(limits, grandparents, outputs)
  {
    hide Divided;
    var runs := MakeInputIterator(v, level, in0, in1);
    var input := Drain(runs);
    EmittedIsAll(Inputs(in0, in1), input);
    InputVersionsUnique(v, level, in0, in1);
    var c := new Compaction(level, v, snap, grandparents, limits);
    outputs := DoCompactionWork(c, input, nextFileNumber);
    OutputsAreSurvivors(v, level, in0, in1, input, snap, outputs);
  }

  // The inputs are gone from both levels, and in their place the lower one has tables of exactly the
  // rows that survive.
  ghost predicate MergeInstalled(v: Version, level: nat, in0: seq<File>, in1: seq<File>, snap: SequenceNumber,
                                 outputs: seq<File>, v': Version)
    requires |v.levels| == NUM_LEVELS && level + 1 < NUM_LEVELS
  {
    && Installed(v, level, in0, in1, outputs, v') && OutputsFrom(Inputs(in0, in1), outputs)
    && KeptBy(v, level, Inputs(in0, in1), snap, LevelEntries(outputs))
  }

  // The compaction step: reads from `snap` on stay what they were exactly when no shield goes.
  method InstallMerge(versions: VersionSet, level: nat, in0: seq<File>, in1: seq<File>, snap: SequenceNumber,
                      grandparents: seq<File>, limits: Limits) returns (outputs: seq<File>)
    requires versions.Valid() && level + 1 < NUM_LEVELS && GoodInputs(versions.current, level, in0, in1)
    requires snap < MAX_SEQUENCE
    modifies versions`current, versions`nextFileNumber
    ensures versions.Valid() && Contents(versions.current) <= old(Contents(versions.current))
    ensures AnswersAs(Contents(versions.current), old(Contents(versions.current)), snap) <==>
              !ShieldDropped(old(versions.current), level, in0, in1, snap)
    ensures MergeInstalled(old(versions.current), level, in0, in1, snap, outputs, versions.current)
    ensures Divided(limits, grandparents, outputs)
  {
    hide Divided;
    var v := versions.current;
    outputs := MergeInputs(v, level, in0, in1, snap, versions.nextFileNumber, grandparents, limits);
    ApplyCompaction(versions, level, in0, in1, outputs);
    CompactionKeepsInvariant(v, level, in0, in1, outputs, versions.current);
    ContentsShrink(v, level, in0, in1, outputs, versions.current);
    CompactionPreservesReads(v, level, in0, in1, outputs, versions.current, snap);
  }
}
