/** The manifest: what WriteSnapshot and LogAndApply append to it, and what Recover rebuilds from
    it (db/version_set.cc). Record framing is RecordLog's subject: here a manifest is a list of
    records. */
module Manifests {
  import opened Wrappers
  import opened Coding
  import opened Versions
  import opened VersionBuilder
  import opened VersionSets
  import opened VersionEdits
  import opened Replays

  datatype Status = Ok | Corruption | InvalidArgument

  // How a table is described in the manifest, and the table a description leads to.
  datatype Catalog = Catalog(meta: File -> FileMeta, table: FileMeta -> File)

  ghost predicate Described(catalog: Catalog, f: File) {
    catalog.table(catalog.meta(f)) == f && FileFits(catalog.meta(f))
  }

  function ToEdit(e: EditRecord, catalog: Catalog): Edit {
    Edit(set d | d in e.deletedFiles, seq(|e.newFiles|,
        i requires 0 <= i < |e.newFiles| => (e.newFiles[i].0, catalog.table(e.newFiles[i].1))))
  }

  lemma ToEditWellFormed(e: EditRecord, catalog: Catalog)
    requires Fits(e)
    ensures WellFormedEdit(ToEdit(e, catalog))
  {
    var edit := ToEdit(e, catalog);
    forall a | a in edit.added ensures a.0 < NUM_LEVELS {
      var i :| 0 <= i < |edit.added| && edit.added[i] == a;
      assert e.newFiles[i] in e.newFiles;
    }
  }

  // The compaction pointers, one per level, empty where there is none.
  function ApplyPointers(pointers: seq<Bytes>, ps: seq<(nat, Bytes)>): (r: seq<Bytes>)
    ensures |r| == |pointers|
  {
    if ps == [] then pointers
    else
      var before := ApplyPointers(pointers, ps[..|ps| - 1]);
      var p := ps[|ps| - 1];
      if p.0 < |before| then before[p.0 := p.1] else before
  }

  // ----- Recover -----

  datatype Replay = Replay(status: Status, levels: seq<LevelState>, pointers: seq<Bytes>, logNumber: Option<nat>,
                           prevLogNumber: Option<nat>, nextFileNumber: Option<nat>, lastSequence: Option<nat>)

  function Blank(): Replay {
    Replay(Ok, seq(NUM_LEVELS, l => LevelState({}, [])), seq(NUM_LEVELS, l => []), None, None, None, None)
  }

  function Latest(old': Option<nat>, new': Option<nat>): Option<nat> {
    if new'.Some? then new' else old'
  }

  function Verdict(decoded: bool, name: Option<Bytes>, expected: Bytes): Status {
    if !decoded then Corruption else if name.Some? && name.value != expected then InvalidArgument else Ok
  }

  // One record, unless an earlier one failed.
  function Step(st: Replay, record: Bytes, name: Bytes, catalog: Catalog): (r: Replay)
    ensures |r.levels| == |st.levels| && |r.pointers| == |st.pointers|
  {
    if !st.status.Ok? then st
    else
      var d := Decoded(EMPTY_EDIT, record);
      var e, status := d.0, Verdict(d.1, d.0.comparator, name);
      var edit := ToEdit(e, catalog);
      Replay(status,
             if status.Ok? then seq(|st.levels|, l requires 0 <= l < |st.levels| => ApplyLevel(st.levels[l], edit, l))
             else st.levels,
             if status.Ok? then ApplyPointers(st.pointers, e.compactPointers) else st.pointers,
             Latest(st.logNumber, e.logNumber), Latest(st.prevLogNumber, e.prevLogNumber),
             Latest(st.nextFileNumber, e.nextFileNumber), Latest(st.lastSequence, e.lastSequence))
  }

  function Replayed(records: seq<Bytes>, name: Bytes, catalog: Catalog): (r: Replay)
    ensures |r.levels| == |r.pointers| == NUM_LEVELS
  {
    if records == [] then Blank()
    else Step(Replayed(records[..|records| - 1], name, catalog), records[|records| - 1], name, catalog)
  }

  lemma {:induction false} FailureSticks(records: seq<Bytes>, n: nat, name: Bytes, catalog: Catalog)
    requires n <= |records| && !Replayed(records[..n], name, catalog).status.Ok?
    ensures Replayed(records, name, catalog) == Replayed(records[..n], name, catalog)
    decreases |records| - n
  {
    if n < |records| {
      assert records[..n + 1][..n] == records[..n];
      FailureSticks(records, n + 1, name, catalog);
    } else {
      assert records[..n] == records;
    }
  }

  // A record that decodes, and names no other comparator.
  predicate Readable(record: Bytes, name: Bytes) {
    var d := Decoded(EMPTY_EDIT, record);
    d.1 && (d.0.comparator.Some? ==> d.0.comparator.value == name)
  }

  function EditIn(record: Bytes): EditRecord {
    Decoded(EMPTY_EDIT, record).0
  }

  // What is wrong with a record that is not readable.
  function Complaint(record: Bytes): Status {
    if Decoded(EMPTY_EDIT, record).1 then InvalidArgument else Corruption
  }

  lemma StepStatus(st: Replay, record: Bytes, name: Bytes, catalog: Catalog)
    ensures var status := Step(st, record, name, catalog).status;
            status == if !st.status.Ok? then st.status else if Readable(record, name) then Ok else Complaint(record)
  {
    hide Decoded, ApplyLevel, ApplyPointers, ToEdit;
  }

  // The replay fails with the first record that is not readable: it is corrupt if it does not decode,
  // and otherwise of another comparator. If all are readable it does not fail.
  lemma {:induction false} FirstBadRecordDecides(records: seq<Bytes>, name: Bytes, catalog: Catalog)
    ensures Replayed(records, name, catalog).status.Ok? <==>
              forall i :: 0 <= i < |records| ==> Readable(records[i], name)
    ensures forall i :: 0 <= i < |records| && !Readable(records[i], name)
                        && (forall j :: 0 <= j < i ==> Readable(records[j], name)) ==>
              Replayed(records, name, catalog).status == Complaint(records[i])
  {
    hide Readable, Decoded, Step;
    if records != [] {
      var front, record := records[..|records| - 1], records[|records| - 1];
      FirstBadRecordDecides(front, name, catalog);
      StepStatus(Replayed(front, name, catalog), record, name, catalog);
      assert forall j :: 0 <= j < |front| ==> front[j] == records[j];
      hide Replayed;
    } else {
      assert Replayed([], name, catalog) == Blank();
    }
  }

  // The last record that carries a counter gives it.
  ghost predicate LastCarries(records: seq<Bytes>, carried: EditRecord -> Option<nat>, value: Option<nat>) {
    if value.None? then forall i :: 0 <= i < |records| ==> carried(EditIn(records[i])).None?
    else exists i :: 0 <= i < |records| && carried(EditIn(records[i])) == value
                     && forall j :: i < j < |records| ==> carried(EditIn(records[j])).None?
  }

  lemma CarriesOneMore(records: seq<Bytes>, record: Bytes, carried: EditRecord -> Option<nat>, value: Option<nat>)
    requires LastCarries(records, carried, value)
    ensures LastCarries(records + [record], carried, Latest(value, carried(EditIn(record))))
  {
    hide EditIn;
    var all := records + [record];
    if carried(EditIn(record)).Some? {
      assert all[|records|] == record;
    } else if value.Some? {
      var i :| 0 <= i < |records| && carried(EditIn(records[i])) == value
               && forall j :: i < j < |records| ==> carried(EditIn(records[j])).None?;
      assert all[i] == records[i];
    }
  }

  lemma {:induction false} CountersAreTheLast(records: seq<Bytes>, name: Bytes, catalog: Catalog)
    requires Replayed(records, name, catalog).status.Ok?
    ensures var st := Replayed(records, name, catalog);
            && LastCarries(records, (e: EditRecord) => e.logNumber, st.logNumber)
            && LastCarries(records, (e: EditRecord) => e.prevLogNumber, st.prevLogNumber)
            && LastCarries(records, (e: EditRecord) => e.nextFileNumber, st.nextFileNumber)
            && LastCarries(records, (e: EditRecord) => e.lastSequence, st.lastSequence)
  {
    if records != [] {
      var front, record := records[..|records| - 1], records[|records| - 1];
      var before := Replayed(front, name, catalog);
      CountersAreTheLast(front, name, catalog);
      assert records == front + [record];
      CarriesOneMore(front, record, (e: EditRecord) => e.logNumber, before.logNumber);
      CarriesOneMore(front, record, (e: EditRecord) => e.prevLogNumber, before.prevLogNumber);
      CarriesOneMore(front, record, (e: EditRecord) => e.nextFileNumber, before.nextFileNumber);
      CarriesOneMore(front, record, (e: EditRecord) => e.lastSequence, before.lastSequence);
      hide LastCarries, Decoded, ApplyLevel, ApplyPointers, ToEdit;
    }
  }

  datatype Recovered =
    | Failed(status: Status)
    | Opened(version: Version, pointers: seq<Bytes>, nextFileNumber: nat, logNumber: nat, prevLogNumber: nat,
             lastSequence: nat)

  // The status of Recover once every record is read.
  function FinalStatus(st: Replay): Status {
    if !st.status.Ok? then st.status
    else if st.nextFileNumber.None? || st.logNumber.None? || st.lastSequence.None? then Corruption
    else Ok
  }

  ghost predicate Saves(st: Replay, v: Version)
    requires |st.levels| == NUM_LEVELS
  {
    |v.levels| == NUM_LEVELS && forall l :: 0 <= l < NUM_LEVELS ==> SavedLevel([], st.levels[l], v.levels[l])
  }

  ghost predicate Outcome(st: Replay, r: Recovered)
    requires |st.levels| == NUM_LEVELS
  {
    match r
    case Failed(status) => status == FinalStatus(st) && !status.Ok?
    case Opened(v, pointers, next, log, prev, last) =>
      && FinalStatus(st).Ok? && Saves(st, v) && pointers == st.pointers
      && next == st.nextFileNumber.value + 1 && log == st.logNumber.value && last == st.lastSequence.value
      && prev == (if st.prevLogNumber.Some? then st.prevLogNumber.value else 0)
  }

  // The body of Recover's loop.
  method RecoverRecord(builder: Builder, st: Replay, record: Bytes, name: Bytes, catalog: Catalog) returns (st': Replay)
    requires builder.Valid() && builder.levels == st.levels && st.status.Ok?
    modifies builder
    ensures builder.Valid() && st' == Step(st, record, name, catalog) && builder.levels == st'.levels
  {
    hide Decoded, ApplyLevel, ApplyPointers, ToEdit, WellFormedEdit, Ordered, Fits;
    var edit := new VersionEdit();
    var ok := edit.DecodeFrom(record);
    EmptyFits();
    DecodedFits(EMPTY_EDIT, record);
    ToEditWellFormed(edit.View(), catalog);
    var status := Verdict(ok, edit.comparator, name);
    var pointers := st.pointers;
    if status.Ok? {
      builder.Apply(ToEdit(edit.View(), catalog));
      pointers := ApplyPointers(st.pointers, edit.compactPointers);
      assert builder.levels == Step(st, record, name, catalog).levels;
    }
    st' := Replay(status, builder.levels, pointers, Latest(st.logNumber, edit.logNumber),
                  Latest(st.prevLogNumber, edit.prevLogNumber),
                  Latest(st.nextFileNumber, edit.nextFileNumber), Latest(st.lastSequence, edit.lastSequence));
  }

  lemma EmptyFits()
    ensures Fits(EMPTY_EDIT)
  {
  }

  method Recover(records: seq<Bytes>, name: Bytes, catalog: Catalog) returns (r: Recovered)
    ensures Outcome(Replayed(records, name, catalog), r)
  {
    hide Step, SavedLevel;
    EmptyVersion();
    var builder := new Builder(EMPTY_VERSION);
    var st := Blank();
    var i := 0;
    while i < |records| && st.status.Ok?
      invariant i <= |records| && builder.Valid() && builder.base == EMPTY_VERSION
      invariant st == Replayed(records[..i], name, catalog) && builder.levels == st.levels
    {
      assert records[..i + 1][..i] == records[..i];
      st := RecoverRecord(builder, st, records[i], name, catalog);
      i := i + 1;
    }
    if !st.status.Ok? {
      FailureSticks(records, i, name, catalog);
      return Failed(st.status);
    }
    assert records[..i] == records;
    if st.nextFileNumber.None? || st.logNumber.None? || st.lastSequence.None? {
      return Failed(Corruption);
    }
    var v := builder.SaveTo();
    return Opened(v, st.pointers, st.nextFileNumber.value + 1, st.logNumber.value,
                  if st.prevLogNumber.Some? then st.prevLogNumber.value else 0, st.lastSequence.value);
  }

  // ----- what WriteSnapshot writes -----

  function PointersUpTo(pointers: seq<Bytes>, n: nat): seq<(nat, Bytes)>
    requires n <= |pointers|
  {
    if n == 0 then []
    else PointersUpTo(pointers, n - 1) + if pointers[n - 1] != [] then [(n - 1, pointers[n - 1])] else []
  }

  function FilesUpTo(v: Version, n: nat): seq<(nat, File)>
    requires n <= |v.levels|
  {
    if n == 0 then []
    else
      FilesUpTo(v, n - 1) + seq(|v.levels[n - 1]|,
        i requires 0 <= i < |v.levels[n - 1]| => (n - 1, v.levels[n - 1][i]))
  }

  function Metas(files: seq<(nat, File)>, catalog: Catalog): seq<(nat, FileMeta)> {
    seq(|files|, i requires 0 <= i < |files| => (files[i].0, catalog.meta(files[i].1)))
  }

  function SnapshotRecord(name: Bytes, pointers: seq<Bytes>, v: Version, catalog: Catalog): EditRecord
    requires |pointers| == NUM_LEVELS && |v.levels| == NUM_LEVELS
  {
    EditRecord(Some(name), None, None, None, None, PointersUpTo(pointers, NUM_LEVELS), [],
        Metas(FilesUpTo(v, NUM_LEVELS), catalog))
  }

  function SnapshotEdit(v: Version): Edit
    requires |v.levels| == NUM_LEVELS
  {
    Edit({}, FilesUpTo(v, NUM_LEVELS))
  }

  lemma {:induction false} FilesUpToHas(v: Version, n: nat)
    requires n <= |v.levels|
    ensures forall a :: a in FilesUpTo(v, n) <==> a.0 < n && FileAt(v, a.0, a.1)
  {
    if n > 0 {
      FilesUpToHas(v, n - 1);
      var last := seq(|v.levels[n - 1]|, i requires 0 <= i < |v.levels[n - 1]| => (n - 1, v.levels[n - 1][i]));
      forall a ensures a in last <==> a.0 == n - 1 && FileAt(v, a.0, a.1) {
        if a.0 == n - 1 && FileAt(v, a.0, a.1) {
          var i :| 0 <= i < |v.levels[n - 1]| && v.levels[n - 1][i] == a.1;
          assert last[i] == a;
        }
      }
    }
  }

  ghost predicate NumbersDiffer(files: seq<(nat, File)>) {
    forall p, q :: 0 <= p < q < |files| ==> files[p].1.number != files[q].1.number
  }

  lemma {:induction false} FilesUpToDistinct(v: Version, n: nat, next: nat)
    requires n <= |v.levels| && AllOrdered(v) && Numbered(v, next)
    ensures NumbersDiffer(FilesUpTo(v, n))
  {
    if n > 0 {
      FilesUpToDistinct(v, n - 1, next);
      FilesUpToHas(v, n - 1);
      var front, fs := FilesUpTo(v, n - 1), v.levels[n - 1];
      var all := FilesUpTo(v, n);
      forall p, q | 0 <= p < q < |all| ensures all[p].1.number != all[q].1.number {
        if q >= |front| {
          var g := fs[q - |front|];
          assert FileAt(v, n - 1, g);
          if p >= |front| {
            var f := fs[p - |front|];
            assert BySmallest(f, g) && FileAt(v, n - 1, f);
          } else {
            assert front[p] in front;
          }
        }
      }
    }
  }

  // The snapshot's edit makes the version out of the empty one.
  lemma SnapshotApplies(v: Version, next: nat)
    requires AllOrdered(v) && Numbered(v, next)
    ensures EditApplied(EMPTY_VERSION, SnapshotEdit(v), v) && NewOrMoved(EMPTY_VERSION, SnapshotEdit(v), 0, next)
    ensures Numbered(EMPTY_VERSION, 0)
  {
    EmptyVersion();
    FilesUpToHas(v, NUM_LEVELS);
    FilesUpToDistinct(v, NUM_LEVELS, next);
    var edit := SnapshotEdit(v);
    forall l | 0 <= l < NUM_LEVELS ensures LevelApplied(EMPTY_VERSION.levels[l], edit, l, v.levels[l]) {
      forall f ensures f in v.levels[l] <==> (l, f) in edit.added {
        var a := (l, f);
        assert a in FilesUpTo(v, NUM_LEVELS) <==> FileAt(v, l, f);
      }
    }
  }

  lemma SnapshotMeans(name: Bytes, pointers: seq<Bytes>, v: Version, catalog: Catalog)
    requires |pointers| == NUM_LEVELS && |v.levels| == NUM_LEVELS
    requires forall l, f :: FileAt(v, l, f) ==> Described(catalog, f)
    requires forall l :: 0 <= l < NUM_LEVELS ==> |pointers[l]| < TWO_32
    requires |name| < TWO_32
    ensures ToEdit(SnapshotRecord(name, pointers, v, catalog), catalog) == SnapshotEdit(v)
    ensures Fits(SnapshotRecord(name, pointers, v, catalog))
  {
    var files := FilesUpTo(v, NUM_LEVELS);
    FilesUpToHas(v, NUM_LEVELS);
    var rec := SnapshotRecord(name, pointers, v, catalog);
    var edit := ToEdit(rec, catalog);
    forall i | 0 <= i < |files|
        ensures edit.added[i] == files[i] && FileFits(rec.newFiles[i].1) && rec.newFiles[i].0 < NUM_LEVELS {
      assert files[i] in files && FileAt(v, files[i].0, files[i].1);
      assert (files[i].0, files[i].1) == files[i];
    }
    assert edit.added == files && edit.deleted == {};
    PointersFit(pointers, NUM_LEVELS);
    forall n | n in rec.newFiles ensures n.0 < NUM_LEVELS && FileFits(n.1) {
      var i :| 0 <= i < |rec.newFiles| && rec.newFiles[i] == n;
      assert i < |files|;
    }
  }

  lemma {:induction false} PointersFit(pointers: seq<Bytes>, n: nat)
    requires n <= |pointers| && forall l :: 0 <= l < |pointers| ==> |pointers[l]| < TWO_32
    ensures forall p :: p in PointersUpTo(pointers, n) ==> p.0 < n && |p.1| < TWO_32
  {
    if n > 0 {
      PointersFit(pointers, n - 1);
    }
  }

  // The last pointer given for a level wins.
  function LastFor(ps: seq<(nat, Bytes)>, l: nat): Option<Bytes> {
    if ps == [] then None
    else if ps[|ps| - 1].0 == l then Some(ps[|ps| - 1].1)
    else LastFor(ps[..|ps| - 1], l)
  }

  lemma {:induction false} ApplyPointersAt(pointers: seq<Bytes>, ps: seq<(nat, Bytes)>, l: nat)
    requires l < |pointers|
    ensures ApplyPointers(pointers, ps)[l] == if LastFor(ps, l).Some? then LastFor(ps, l).value else pointers[l]
  {
    if ps != [] {
      ApplyPointersAt(pointers, ps[..|ps| - 1], l);
    }
  }

  lemma ApplyPointersAgain(pointers: seq<Bytes>, ps: seq<(nat, Bytes)>)
    ensures ApplyPointers(ApplyPointers(pointers, ps), ps) == ApplyPointers(pointers, ps)
  {
    var once := ApplyPointers(pointers, ps);
    forall l: nat | l < |pointers| ensures ApplyPointers(once, ps)[l] == once[l] {
      ApplyPointersAt(pointers, ps, l);
      ApplyPointersAt(once, ps, l);
    }
  }

  lemma {:induction false} LastOfSnapshot(pointers: seq<Bytes>, n: nat, l: nat)
    requires n <= |pointers| && l < |pointers|
    ensures LastFor(PointersUpTo(pointers, n), l) == if l < n && pointers[l] != [] then Some(pointers[l]) else None
  {
    if n > 0 {
      LastOfSnapshot(pointers, n - 1, l);
      var front, ps := PointersUpTo(pointers, n - 1), PointersUpTo(pointers, n);
      if pointers[n - 1] != [] {
        assert ps[..|ps| - 1] == front;
      } else {
        assert ps == front;
      }
    }
  }

  lemma PointersRestored(blank: seq<Bytes>, pointers: seq<Bytes>)
    requires |blank| == |pointers| && forall l :: 0 <= l < |blank| ==> blank[l] == []
    ensures ApplyPointers(blank, PointersUpTo(pointers, |pointers|)) == pointers
  {
    forall l: nat | l < |pointers| ensures ApplyPointers(blank, PointersUpTo(pointers, |pointers|))[l] == pointers[l] {
      ApplyPointersAt(blank, PointersUpTo(pointers, |pointers|), l);
      LastOfSnapshot(pointers, |pointers|, l);
    }
  }

  // ----- the replay of what was written -----

  function ReplayLevels(edits: seq<Edit>): (r: seq<LevelState>)
    ensures |r| == NUM_LEVELS
  {
    seq(NUM_LEVELS, l requires 0 <= l < NUM_LEVELS => ReplayLevel(edits, l))
  }

  // A replay that has taken in the run `edits`, the last of them described by `e`.
  function After(st: Replay, e: EditRecord, edits: seq<Edit>): Replay {
    Replay(Ok, ReplayLevels(edits), ApplyPointers(st.pointers, e.compactPointers),
           Latest(st.logNumber, e.logNumber), Latest(st.prevLogNumber, e.prevLogNumber),
           Latest(st.nextFileNumber, e.nextFileNumber), Latest(st.lastSequence, e.lastSequence))
  }

  lemma StepOfEncoded(st: Replay, e: EditRecord, name: Bytes, catalog: Catalog, edits: seq<Edit>)
    requires st.status.Ok? && Fits(e) && (e.comparator.Some? ==> e.comparator.value == name)
    requires st.levels == ReplayLevels(edits)
    ensures Step(st, Encoded(e), name, catalog) == After(st, e, edits + [ToEdit(e, catalog)])
  {
    hide Decoded, Encoded, Fits, ToEdit, ApplyPointers;
    EditRoundTrip(e);
    var edit := ToEdit(e, catalog);
    var edits' := edits + [edit];
    assert edits'[..|edits|] == edits;
    var r := Step(st, Encoded(e), name, catalog);
    forall l | 0 <= l < NUM_LEVELS ensures r.levels[l] == ReplayLevels(edits')[l] {
    }
    assert r.levels == ReplayLevels(edits');
  }

  // One more record written: the run grows by its edit, and so does what Recover makes of it.
  lemma OneMoreRecord(records: seq<Bytes>, name: Bytes, catalog: Catalog, edits: seq<Edit>, versions: seq<Version>,
                      counters: seq<nat>,
                      e: EditRecord, v: Version, next: nat)
    requires Drawn(edits, versions, counters) && EditApplied(versions[|edits|], ToEdit(e, catalog), v)
    requires NewOrMoved(versions[|edits|], ToEdit(e, catalog), counters[|edits|], next)
    requires Fits(e) && (e.comparator.Some? ==> e.comparator.value == name)
    requires Replayed(records, name, catalog).status.Ok?
    requires Replayed(records, name, catalog).levels == ReplayLevels(edits)
    ensures Drawn(edits + [ToEdit(e, catalog)], versions + [v], counters + [next])
    ensures Replayed(records + [Encoded(e)], name, catalog) ==
        After(Replayed(records, name, catalog), e, edits + [ToEdit(e, catalog)])
  {
    assert (records + [Encoded(e)])[..|records|] == records;
    StepOfEncoded(Replayed(records, name, catalog), e, name, catalog, edits);
    DrawnGrows(edits, versions, counters, ToEdit(e, catalog), v, next);
  }

  lemma DrawnGrows(edits: seq<Edit>, versions: seq<Version>, counters: seq<nat>, edit: Edit, v: Version, next: nat)
    requires Drawn(edits, versions, counters) && EditApplied(versions[|edits|], edit, v)
    requires NewOrMoved(versions[|edits|], edit, counters[|edits|], next)
    ensures Drawn(edits + [edit], versions + [v], counters + [next])
  {
    hide EditApplied, NewOrMoved, Numbered;
    assert forall i :: 0 <= i <= |edits| ==>
             (versions + [v])[i] == versions[i] && (counters + [next])[i] == counters[i];
    assert forall i :: 0 <= i < |edits| ==> (edits + [edit])[i] == edits[i];
    assert |v.levels| == NUM_LEVELS by {
      AppliedHasLevels(versions[|edits|], edit, v);
    }
  }

  lemma AppliedHasLevels(v: Version, edit: Edit, v': Version)
    requires |v.levels| == NUM_LEVELS && EditApplied(v, edit, v')
    ensures AllOrdered(v')
  {
  }

  // The first record: the snapshot, read by Recover as the version and pointers it was taken of.
  lemma SnapshotReplayed(name: Bytes, catalog: Catalog, v: Version, pointers: seq<Bytes>, next: nat)
    requires AllOrdered(v) && Numbered(v, next) && |pointers| == NUM_LEVELS && |name| < TWO_32
    requires forall l :: 0 <= l < NUM_LEVELS ==> |pointers[l]| < TWO_32
    requires forall l, f :: FileAt(v, l, f) ==> Described(catalog, f)
    ensures Drawn([SnapshotEdit(v)], [EMPTY_VERSION, v], [0, next])
    ensures Replayed([Encoded(SnapshotRecord(name, pointers, v, catalog))], name, catalog)
         == Replay(Ok, ReplayLevels([SnapshotEdit(v)]), pointers, None, None, None, None)
  {
    var e := SnapshotRecord(name, pointers, v, catalog);
    SnapshotMeans(name, pointers, v, catalog);
    SnapshotApplies(v, next);
    EmptyVersion();
    assert Drawn([], [EMPTY_VERSION], [0]);
    var start := Replayed([], name, catalog);
    assert start.levels == ReplayLevels([]);
    OneMoreRecord([], name, catalog, [], [EMPTY_VERSION], [0], e, v, next);
    PointersRestored(start.pointers, pointers);
    assert [] + [Encoded(e)] == [Encoded(e)] && [] + [SnapshotEdit(v)] == [SnapshotEdit(v)];
    assert [EMPTY_VERSION] + [v] == [EMPTY_VERSION, v] && [0] + [next] == [0, next];
  }

  // An edit that draws or moves its numbers is one the builder can apply.
  lemma DrawnIsFresh(v: Version, edit: Edit, next: nat, next': nat)
    requires |v.levels| == NUM_LEVELS && NewOrMoved(v, edit, next, next') && Numbered(v, next)
    ensures FreshNumbers(v, edit)
  {
    forall a, f | a in edit.added && a.0 < NUM_LEVELS && f in v.levels[a.0] ensures f.number != a.1.number {
      assert FileAt(v, a.0, f);
      if Moves(v, edit, a) {
        var m: nat :| m < a.0 && FileAt(v, m, a.1) && (m, a.1.number) in edit.deleted;
        assert f.number == a.1.number ==> m == a.0;
      }
    }
  }

  // Files of the new version are old files or the edit's.
  lemma StillDescribed(v: Version, e: EditRecord, catalog: Catalog, v': Version)
    requires |v.levels| == NUM_LEVELS && EditApplied(v, ToEdit(e, catalog), v')
    requires forall l, f :: FileAt(v, l, f) ==> Described(catalog, f)
    requires forall n :: n in e.newFiles ==> Described(catalog, catalog.table(n.1))
    ensures forall l, f :: FileAt(v', l, f) ==> Described(catalog, f)
  {
    var edit := ToEdit(e, catalog);
    forall l: nat, f | FileAt(v', l, f) ensures Described(catalog, f) {
      assert LevelApplied(v.levels[l], edit, l, v'.levels[l]);
      if (l, f) in edit.added {
        var i :| 0 <= i < |edit.added| && edit.added[i] == (l, f);
        assert e.newFiles[i] in e.newFiles && f == catalog.table(e.newFiles[i].1);
      } else {
        assert FileAt(v, l, f);
      }
    }
  }

  lemma {:induction false} PointersStayShort(pointers: seq<Bytes>, ps: seq<(nat, Bytes)>)
    requires forall l :: 0 <= l < |pointers| ==> |pointers[l]| < TWO_32
    requires forall p :: p in ps ==> |p.1| < TWO_32
    ensures forall l :: 0 <= l < |pointers| ==> |ApplyPointers(pointers, ps)[l]| < TWO_32
  {
    if ps != [] {
      assert forall p :: p in ps[..|ps| - 1] ==> p in ps;
      assert ps[|ps| - 1] in ps;
      PointersStayShort(pointers, ps[..|ps| - 1]);
    }
  }

  // The run written so far, from the empty version, with the file counter at each record.
  datatype Run = Run(edits: seq<Edit>, versions: seq<Version>, counters: seq<nat>)

  function Extended(run: Run, edit: Edit, v: Version, next: nat): Run {
    Run(run.edits + [edit], run.versions + [v], run.counters + [next])
  }

  // The records lead Recover through the run to this version and these pointers.
  ghost predicate Tracks(run: Run, records: seq<Bytes>, name: Bytes, catalog: Catalog, v: Version,
                         pointers: seq<Bytes>, drawn: nat) {
    && Drawn(run.edits, run.versions, run.counters) && run.versions[0] == EMPTY_VERSION
    && run.versions[|run.edits|] == v && run.counters[|run.edits|] == drawn
    && var st := Replayed(records, name, catalog);
       st.status.Ok? && st.levels == ReplayLevels(run.edits) && st.pointers == pointers
  }

  ghost predicate LastLogged(records: seq<Bytes>, name: Bytes, catalog: Catalog, log: nat, prev: nat, next: nat,
                             last: nat) {
    var st := Replayed(records, name, catalog);
    && st.logNumber == Some(log) && st.prevLogNumber == Some(prev)
    && st.nextFileNumber == Some(next) && st.lastSequence == Some(last)
  }

  lemma SnapshotTracks(name: Bytes, catalog: Catalog, v: Version, pointers: seq<Bytes>, next: nat)
    requires Describable(name, catalog, v, pointers, next)
    ensures Tracks(Run([SnapshotEdit(v)], [EMPTY_VERSION, v], [0, next]),
        [Encoded(SnapshotRecord(name, pointers, v, catalog))], name, catalog, v, pointers, next)
  {
    SnapshotReplayed(name, catalog, v, pointers, next);
  }

  lemma RecordTracks(run: Run, records: seq<Bytes>, name: Bytes, catalog: Catalog, v: Version, pointers: seq<Bytes>,
                     drawn: nat,
                     e: EditRecord, v': Version, next: nat)
    requires Tracks(run, records, name, catalog, v, pointers, drawn) && |v.levels| == NUM_LEVELS
    requires EditApplied(v, ToEdit(e, catalog), v') && NewOrMoved(v, ToEdit(e, catalog), drawn, next)
    requires Fits(e) && (e.comparator.Some? ==> e.comparator.value == name)
    requires e.logNumber.Some? && e.prevLogNumber.Some? && e.nextFileNumber == Some(next) && e.lastSequence.Some?
    ensures Tracks(Extended(run, ToEdit(e, catalog), v', next), records + [Encoded(e)], name, catalog, v',
        ApplyPointers(pointers, e.compactPointers), next)
    ensures LastLogged(records + [Encoded(e)], name, catalog, e.logNumber.value, e.prevLogNumber.value, next,
        e.lastSequence.value)
  {
    OneMoreRecord(records, name, catalog, run.edits, run.versions, run.counters, e, v', next);
  }

  // A version and pointers that a snapshot record can describe.
  ghost predicate Describable(name: Bytes, catalog: Catalog, v: Version, pointers: seq<Bytes>, drawn: nat) {
    && AllOrdered(v) && Numbered(v, drawn) && |name| < TWO_32
    && |pointers| == NUM_LEVELS && (forall l :: 0 <= l < NUM_LEVELS ==> |pointers[l]| < TWO_32)
    && forall l, f :: FileAt(v, l, f) ==> Described(catalog, f)
  }

  lemma StaysDescribable(name: Bytes, catalog: Catalog, v: Version, pointers: seq<Bytes>, drawn: nat, e: EditRecord,
                         v': Version, next: nat)
    requires Describable(name, catalog, v, pointers, drawn) && Fits(e)
    requires EditApplied(v, ToEdit(e, catalog), v') && NewOrMoved(v, ToEdit(e, catalog), drawn, next)
    requires forall n :: n in e.newFiles ==> Described(catalog, catalog.table(n.1))
    ensures Describable(name, catalog, v, ApplyPointers(pointers, e.compactPointers), drawn)
    ensures Describable(name, catalog, v', ApplyPointers(pointers, e.compactPointers), next)
  {
    PointersStayShort(pointers, e.compactPointers);
    NumberedStays(v, ToEdit(e, catalog), v', drawn, next);
    AppliedHasLevels(v, ToEdit(e, catalog), v');
    StillDescribed(v, e, catalog, v');
  }

  // What goes wrong while the manifest is written: nothing, something before the record is in it
  // whole, or something after.
  datatype Fault = NoFault | BeforeRecord | AfterRecord

  // Whatever way Recover takes through the records, it ends in this state.
  ghost predicate RecoversTo(records: seq<Bytes>, name: Bytes, catalog: Catalog, state: Recovered) {
    forall r :: Outcome(Replayed(records, name, catalog), r) ==> r == state
  }

  // What LogAndApply asks of the edit it is given.
  ghost predicate Loggable(e: EditRecord, name: Bytes, catalog: Catalog, v: Version, drawn: nat, next: nat, log: nat) {
    && Fits(e) && (e.comparator.Some? ==> e.comparator.value == name)
    && (e.logNumber.Some? ==> log <= e.logNumber.value < next)
    && NewOrMoved(v, ToEdit(e, catalog), drawn, next)
    && forall n :: n in e.newFiles ==> Described(catalog, catalog.table(n.1))
  }

  function Completed(e: EditRecord, log: nat, prev: nat, next: nat, last: nat): EditRecord {
    e.(logNumber := if e.logNumber.Some? then e.logNumber else Some(log),
       prevLogNumber := if e.prevLogNumber.Some? then e.prevLogNumber else Some(prev),
       nextFileNumber := Some(next), lastSequence := Some(last))
  }

  lemma CompletedFits(e: EditRecord, name: Bytes, catalog: Catalog, v: Version, drawn: nat, next: nat, log: nat,
                      prev: nat, last: nat)
    requires Loggable(e, name, catalog, v, drawn, next, log) && log < TWO_64 && prev < TWO_64 && next < TWO_64
    requires last < TWO_64
    requires AllOrdered(v) && Numbered(v, drawn)
    ensures var e' := Completed(e, log, prev, next, last);
            && Fits(e') && ToEdit(e', catalog) == ToEdit(e, catalog) && WellFormedEdit(ToEdit(e, catalog))
            && FreshNumbers(v, ToEdit(e, catalog))
  {
    ToEditWellFormed(e, catalog);
    DrawnIsFresh(v, ToEdit(e, catalog), drawn, next);
  }

  lemma LoggableEdit(e: EditRecord, name: Bytes, catalog: Catalog, v: Version, pointers: seq<Bytes>, drawn: nat,
                     next: nat, log: nat, prev: nat, last: nat)
    requires Loggable(e, name, catalog, v, drawn, next, log) && log < TWO_64 && prev < TWO_64 && next < TWO_64
    requires last < TWO_64
    requires Describable(name, catalog, v, pointers, drawn)
    ensures |v.levels| == NUM_LEVELS && |pointers| == NUM_LEVELS && AllOrdered(v)
    ensures var e' := Completed(e, log, prev, next, last);
            && Fits(e') && ToEdit(e', catalog) == ToEdit(e, catalog) && WellFormedEdit(ToEdit(e, catalog))
            && FreshNumbers(v, ToEdit(e, catalog)) && (e'.comparator.Some? ==> e'.comparator.value == name)
            && NewOrMoved(v, ToEdit(e, catalog), drawn, next) && OrZero(e'.logNumber) < TWO_64
                && OrZero(e'.prevLogNumber) < TWO_64
  {
    CompletedFits(e, name, catalog, v, drawn, next, log, prev, last);
  }

  lemma LoggedEdit(e: EditRecord, name: Bytes, catalog: Catalog, v: Version, pointers: seq<Bytes>, drawn: nat,
                   next: nat, log: nat, prev: nat, last: nat, v': Version)
    requires Loggable(e, name, catalog, v, drawn, next, log) && Describable(name, catalog, v, pointers, drawn)
    requires EditApplied(v, ToEdit(e, catalog), v')
    ensures Describable(name, catalog, v, ApplyPointers(pointers, e.compactPointers), drawn)
    ensures Describable(name, catalog, v', ApplyPointers(pointers, e.compactPointers), next)
  {
    StaysDescribable(name, catalog, v, pointers, drawn, e, v', next);
  }

  class Manifest {
    const name: Bytes
    const catalog: Catalog
    var records: seq<Bytes>
    var current: Version
    var pointers: seq<Bytes>
    var logNumber: nat
    var prevLogNumber: nat
    var nextFileNumber: nat
    var lastSequence: nat
    ghost var run: Run
    ghost var drawn: nat          // the file counter and last sequence when the last record was written
    ghost var loggedSequence: nat

    ghost predicate Valid()
      reads this
    {
      && Describable(name, catalog, current, pointers, drawn)
      && drawn <= nextFileNumber < TWO_64 && logNumber < TWO_64 && prevLogNumber < TWO_64
      && lastSequence < TWO_64 && loggedSequence < TWO_64
      && (records != [] ==> Faithful())
    }

    ghost predicate Faithful()
      reads this
    {
      && Tracks(run, records, name, catalog, current, pointers, drawn)
      && LastLogged(records, name, catalog, logNumber, prevLogNumber, drawn, loggedSequence)
    }

    // The state after Recover, or of a new database: a version to start from, no descriptor yet.
    constructor (name: Bytes, catalog: Catalog, v: Version, pointers: seq<Bytes>, next: nat, log: nat, prev: nat,
                 last: nat)
      requires Describable(name, catalog, v, pointers, next) && next < TWO_64 && log < TWO_64 && prev < TWO_64
      requires last < TWO_64
      ensures Valid() && records == [] && current == v && this.name == name && this.catalog == catalog
      ensures this.pointers == pointers
      ensures nextFileNumber == next && logNumber == log && prevLogNumber == prev && lastSequence == last
    {
      this.name, this.catalog := name, catalog;
      records, current, this.pointers := [], v, pointers;
      logNumber, prevLogNumber, nextFileNumber, lastSequence := log, prev, next, last;
      run, drawn, loggedSequence := Run([], [v], [next]), next, last;
    }

    method NewFileNumber() returns (n: nat)
      requires Valid() && nextFileNumber + 1 < TWO_64
      modifies this`nextFileNumber
      ensures Valid() && n == old(nextFileNumber) && nextFileNumber == n + 1 && n >= drawn
    {
      n := nextFileNumber;
      nextFileNumber := nextFileNumber + 1;
    }

    method SetLastSequence(s: nat)
      requires Valid() && lastSequence <= s < TWO_64
      modifies this`lastSequence
      ensures Valid() && lastSequence == s
    {
      lastSequence := s;
    }

    // WriteSnapshot: the current version and pointers as one record.
    method WriteSnapshot() returns (record: Bytes)
      requires |pointers| == |current.levels| == NUM_LEVELS
      ensures record == Encoded(SnapshotRecord(name, pointers, current, catalog))
    {
      var edit := new VersionEdit();
      edit.comparator := Some(name);
      for level := 0 to NUM_LEVELS
        invariant edit.View() == EMPTY_EDIT.(comparator := Some(name), compactPointers := PointersUpTo(pointers, level))
        modifies edit
      {
        if pointers[level] != [] {
          edit.compactPointers := edit.compactPointers + [(level, pointers[level])];
        }
      }
      ghost var ps := PointersUpTo(pointers, NUM_LEVELS);
      assert Metas(FilesUpTo(current, 0), catalog) == [];
      for level := 0 to NUM_LEVELS
        invariant edit.View() == EMPTY_EDIT.(comparator := Some(name), compactPointers := ps,
            newFiles := Metas(FilesUpTo(current, level), catalog))
        modifies edit
      {
        var files, l: nat := current.levels[level], level;
        edit.newFiles := edit.newFiles + seq(|files|, i requires 0 <= i < |files| => (l, catalog.meta(files[i])));
        assert edit.newFiles == Metas(FilesUpTo(current, level + 1), catalog);
      }
      record := edit.EncodeTo([]);
      assert edit.View() == SnapshotRecord(name, pointers, current, catalog);
    }

    method Complete(edit: VersionEdit)
      modifies edit
      ensures edit.View() == Completed(old(edit.View()), logNumber, prevLogNumber, nextFileNumber, lastSequence)
    {
      if edit.logNumber.None? {
        edit.logNumber := Some(logNumber);
      }
      if edit.prevLogNumber.None? {
        edit.prevLogNumber := Some(prevLogNumber);
      }
      edit.nextFileNumber := Some(nextFileNumber);
      edit.lastSequence := Some(lastSequence);
    }

    // A new descriptor starts with a snapshot, taken when the pointers are already the edit's.
    method OpenDescriptor(ghost old': seq<Bytes>, ghost ps: seq<(nat, Bytes)>) returns (ghost read: seq<Bytes>)
      requires Describable(name, catalog, current, pointers, drawn) && pointers == ApplyPointers(old', ps)
      requires records != [] ==> Tracks(run, records, name, catalog, current, old', drawn)
      modifies this`records, this`run
      ensures Tracks(run, records, name, catalog, current, read, drawn) && ApplyPointers(read, ps) == pointers
      ensures if old(records) == [] then |records| == 1 else records == old(records) && read == old'
    {
      hide Tracks, Encoded, SnapshotRecord, SnapshotEdit, ApplyPointers;
      read := old';
      if records == [] {
        assert |pointers| == |current.levels| == NUM_LEVELS;
        var snapshot := WriteSnapshot();
        SnapshotTracks(name, catalog, current, pointers, drawn);
        ApplyPointersAgain(old', ps);
        records := [snapshot];
        run := Run([SnapshotEdit(current)], [EMPTY_VERSION, current], [0, drawn]);
        read := pointers;
      }
    }

    // The record is on disk: install the version it made.
    method Install(v: Version, e: EditRecord, record: Bytes, ghost read: seq<Bytes>)
      requires Tracks(run, records, name, catalog, current, read, drawn)
      requires ApplyPointers(read, e.compactPointers) == pointers
      requires record == Encoded(e) && Fits(e) && (e.comparator.Some? ==> e.comparator.value == name)
      requires |current.levels| == NUM_LEVELS
      requires EditApplied(current, ToEdit(e, catalog), v)
      requires NewOrMoved(current, ToEdit(e, catalog), drawn, nextFileNumber)
      requires Describable(name, catalog, v, pointers, nextFileNumber) && nextFileNumber < TWO_64
      requires lastSequence < TWO_64
      requires e.logNumber.Some? && e.prevLogNumber.Some? && e.nextFileNumber == Some(nextFileNumber)
      requires e.lastSequence == Some(lastSequence)
      requires OrZero(e.logNumber) < TWO_64 && OrZero(e.prevLogNumber) < TWO_64
      modifies this`records, this`run, this`drawn, this`loggedSequence, this`current, this`logNumber, this`prevLogNumber
      ensures Valid() && Faithful() && current == v && records == old(records) + [record]
      ensures logNumber == e.logNumber.value
      ensures drawn == nextFileNumber && loggedSequence == lastSequence
    {
      hide Describable, Tracks, LastLogged, Encoded, ApplyPointers, ToEdit, EditApplied, NewOrMoved, Fits;
      RecordTracks(run, records, name, catalog, current, read, drawn, e, v, nextFileNumber);
      records := records + [record];
      run := Extended(run, ToEdit(e, catalog), v, nextFileNumber);
      drawn, loggedSequence := nextFileNumber, lastSequence;
      current := v;
      logNumber, prevLogNumber := e.logNumber.value, e.prevLogNumber.value;
    }

    // The record did not make it onto the disk. A manifest just begun is deleted; an old one leads
    // to the state before the edit or, if the record is in it after all, to the state behind it.
    method GiveUp(created: bool, fault: Fault, v: Version, e: EditRecord, record: Bytes, ghost read: seq<Bytes>)
      requires Describable(name, catalog, current, pointers, drawn)
      requires Describable(name, catalog, v, pointers, nextFileNumber)
      requires drawn <= nextFileNumber < TWO_64 && logNumber < TWO_64 && prevLogNumber < TWO_64
      requires lastSequence < TWO_64 && loggedSequence < TWO_64
      requires Tracks(run, records, name, catalog, current, read, drawn)
      requires !created ==> LastLogged(records, name, catalog, logNumber, prevLogNumber, drawn, loggedSequence)
      requires ApplyPointers(read, e.compactPointers) == pointers
      requires record == Encoded(e) && Fits(e) && (e.comparator.Some? ==> e.comparator.value == name)
      requires |current.levels| == NUM_LEVELS
      requires EditApplied(current, ToEdit(e, catalog), v)
      requires NewOrMoved(current, ToEdit(e, catalog), drawn, nextFileNumber)
      requires e.logNumber.Some? && e.prevLogNumber.Some? && e.nextFileNumber == Some(nextFileNumber)
      requires e.lastSequence == Some(lastSequence)
      modifies this`records
      ensures created ==> records == [] && Valid()
      ensures !created && !fault.AfterRecord? ==>
                && records == old(records)
                && RecoversTo(records, name, catalog,
                     Opened(current, read, drawn + 1, logNumber, prevLogNumber, loggedSequence))
      ensures !created && fault.AfterRecord? ==>
                && records == old(records) + [record]
                && RecoversTo(records, name, catalog,
                     Opened(v, pointers, nextFileNumber + 1, e.logNumber.value, e.prevLogNumber.value, lastSequence))
    {
      hide *;
      if created {
        records := [];
        StartsAgain();
      } else if fault.AfterRecord? {
        RecordTracks(run, records, name, catalog, current, read, drawn, e, v, nextFileNumber);
        records := records + [record];
        TrackedRecovers(Extended(run, ToEdit(e, catalog), v, nextFileNumber), records, name, catalog, v, pointers,
          nextFileNumber, e.logNumber.value, e.prevLogNumber.value, lastSequence);
      } else {
        TrackedRecovers(run, records, name, catalog, current, read, drawn, logNumber, prevLogNumber, loggedSequence);
      }
    }

    lemma StartsAgain()
      requires records == [] && Describable(name, catalog, current, pointers, drawn)
      requires drawn <= nextFileNumber < TWO_64 && logNumber < TWO_64 && prevLogNumber < TWO_64
      requires lastSequence < TWO_64 && loggedSequence < TWO_64
      ensures Valid()
    {
    }

    // LogAndApply: complete the edit, build the next version, write the record, install. If the
    // write fails nothing is installed, but the compaction pointers are the edit's already.
    method LogAndApply(edit: VersionEdit, fault: Fault) returns (ok: bool)
      requires Valid() && Loggable(edit.View(), name, catalog, current, drawn, nextFileNumber, logNumber)
      modifies this, edit
      ensures ok <==> fault.NoFault?
      ensures ok ==> Valid() && Faithful() && EditApplied(old(current), old(ToEdit(edit.View(), catalog)), current)
      ensures ok ==> old(records) <= records && |records| == |old(records)| + if old(records) == [] then 2 else 1
      ensures ok ==> logNumber == old(if edit.logNumber.Some? then edit.logNumber.value else logNumber)
      ensures ok ==> nextFileNumber == drawn && lastSequence == loggedSequence
      ensures pointers == ApplyPointers(old(pointers), old(edit.compactPointers))
      ensures nextFileNumber == old(nextFileNumber) && lastSequence == old(lastSequence)
      ensures !ok ==> current == old(current) && logNumber == old(logNumber) && prevLogNumber == old(prevLogNumber)
      ensures !ok && old(records) == [] ==> records == [] && Valid()
      ensures !ok && old(records) != [] ==>
                if fault.AfterRecord? then
                  exists v :: EditApplied(current, old(ToEdit(edit.View(), catalog)), v)
                    && RecoversTo(records, name, catalog, old(Behind(edit.View(), v)))
                else records == old(records) && RecoversTo(records, name, catalog, old(Before()))
    {
      hide Loggable, Describable, Tracks, LastLogged, Encoded, ApplyPointers, ToEdit, EditApplied, Fits, FreshNumbers,
          WellFormedEdit, AllOrdered, NewOrMoved, RecoversTo;
      ghost var e0, p0 := edit.View(), pointers;
      LoggableEdit(e0, name, catalog, current, pointers, drawn, nextFileNumber, logNumber, prevLogNumber, lastSequence);
      Complete(edit);
      var e := edit.View();
      var record := edit.EncodeTo([]);
      Alone(e);
      var v := BuildVersion(current, ToEdit(e, catalog));
      LoggedEdit(e0, name, catalog, current, pointers, drawn, nextFileNumber, logNumber, prevLogNumber, lastSequence,
          v);
      pointers := ApplyPointers(pointers, e.compactPointers);
      var created := records == [];
      ghost var read := OpenDescriptor(p0, e.compactPointers);
      ok := fault.NoFault?;
      if ok {
        Install(v, e, record, read);
      } else {
        GiveUp(created, fault, v, e, record, read);
      }
    }

    // What Recover reads from the manifest as it is, and from the manifest with one more record.
    ghost function Before(): Recovered
      reads this
    {
      Opened(current, pointers, drawn + 1, logNumber, prevLogNumber, loggedSequence)
    }

    ghost function Behind(e: EditRecord, v: Version): Recovered
      reads this
    {
      Opened(v, ApplyPointers(pointers, e.compactPointers), nextFileNumber + 1,
             if e.logNumber.Some? then e.logNumber.value else logNumber,
             if e.prevLogNumber.Some? then e.prevLogNumber.value else prevLogNumber, lastSequence)
    }
  }

  lemma TrackedRecovers(run: Run, records: seq<Bytes>, name: Bytes, catalog: Catalog, v: Version, pointers: seq<Bytes>,
                        drawn: nat, log: nat, prev: nat, last: nat)
    requires Tracks(run, records, name, catalog, v, pointers, drawn)
    requires LastLogged(records, name, catalog, log, prev, drawn, last)
    ensures RecoversTo(records, name, catalog, Opened(v, pointers, drawn + 1, log, prev, last))
  {
    RunIsOrdered(run.edits, run.versions, run.counters);
    forall r | Outcome(Replayed(records, name, catalog), r)
        ensures r == Opened(v, pointers, drawn + 1, log, prev, last) {
      if r.Opened? {
        SavedIsCurrent(run, records, name, catalog, v, pointers, drawn, r.version);
      }
    }
  }

  lemma RunIsOrdered(edits: seq<Edit>, versions: seq<Version>, counters: seq<nat>)
    requires Drawn(edits, versions, counters) && versions[0] == EMPTY_VERSION
    ensures AllOrdered(versions[|edits|])
  {
    EmptyVersion();
    if edits != [] {
      var n := |edits| - 1;
      assert EditApplied(versions[n], edits[n], versions[n + 1]);
    }
  }

  lemma Alone(e: EditRecord)
    ensures [] + Encoded(e) == Encoded(e)
  {
  }

  // Recover reads the current state back: version, pointers, log numbers; counters as of the last
  // record written, the file counter past every file.
  lemma RecoverRestoresCurrent(m: Manifest, r: Recovered)
    requires m.Valid() && m.records != []
    requires Outcome(Replayed(m.records, m.name, m.catalog), r)
    ensures r == Opened(m.current, m.pointers, m.drawn + 1, m.logNumber, m.prevLogNumber, m.loggedSequence)
    ensures forall l, f :: FileAt(m.current, l, f) ==> f.number < r.nextFileNumber
  {
    TrackedRecovers(m.run, m.records, m.name, m.catalog, m.current, m.pointers, m.drawn, m.logNumber, m.prevLogNumber,
      m.loggedSequence);
  }

  lemma SavedIsCurrent(run: Run, records: seq<Bytes>, name: Bytes, catalog: Catalog, current: Version,
                       pointers: seq<Bytes>, drawn: nat, v: Version)
    requires Tracks(run, records, name, catalog, current, pointers, drawn) && AllOrdered(current)
    requires Saves(Replayed(records, name, catalog), v)
    ensures v == current
  {
    DrawnIsOnce(run.edits, run.versions, run.counters);
    var st := Replayed(records, name, catalog);
    forall l | 0 <= l < NUM_LEVELS ensures v.levels[l] == current.levels[l] {
      assert st.levels[l] == ReplayLevel(run.edits, l);
      EmptyVersion();
      ReplayEqualsHistory(run.edits, run.versions, l, v.levels[l]);
    }
    assert v.levels == current.levels;
  }

  // Closing the database and opening it again: the same state, ready to be logged to.
  method Reopen(m: Manifest) returns (n: Manifest)
    requires m.Valid() && m.records != [] && m.drawn + 1 < TWO_64
    ensures n.Valid() && fresh(n) && n.name == m.name && n.current == m.current && n.pointers == m.pointers
    ensures n.logNumber == m.logNumber && n.prevLogNumber == m.prevLogNumber
    ensures n.nextFileNumber == m.drawn + 1 && n.lastSequence == m.loggedSequence
  {
    hide Describable, Tracks, LastLogged;
    var r := Recover(m.records, m.name, m.catalog);
    RecoverRestoresCurrent(m, r);
    LargerCounter(m.name, m.catalog, m.current, m.pointers, m.drawn);
    n := new Manifest(m.name, m.catalog, r.version, r.pointers, r.nextFileNumber, r.logNumber, r.prevLogNumber,
        r.lastSequence);
  }

  lemma LargerCounter(name: Bytes, catalog: Catalog, v: Version, pointers: seq<Bytes>, drawn: nat)
    requires Describable(name, catalog, v, pointers, drawn)
    ensures Describable(name, catalog, v, pointers, drawn + 1)
  {
  }
}
