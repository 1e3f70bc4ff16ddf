/** What a crash may leave behind and what recovery makes of it (db/db_impl.cc: Write,
    MakeRoomForWrite, CompactMemTable, DeleteObsoleteFiles, Recover, RecoverLogFile, Open;
    db/version_set.cc: LogAndApply, Recover).

    One step is one change of the disk or one critical section of the database mutex; a crash may
    come between any two. A log append that returned persists, a torn one leaves nothing a reader
    delivers, and the manifest changes in one step. */
module CrashRecovery {
  import opened Wrappers
  import opened DbFormat
  import opened WriteBatches

  // ----- batches -----

  // One group of writes as logged: its first sequence number and its operations.
  datatype RawBatch = Batch(first: nat, ops: seq<Op>)

  type Batch = b: RawBatch | b.first + |b.ops| <= MAX_SEQUENCE witness Batch(0, [])

  function End(b: Batch): nat {
    b.first + |b.ops|
  }

  // The sequence number the next batch will start with.
  function NextFirst(bs: seq<Batch>): nat {
    if bs == [] then 1 else End(bs[|bs| - 1])
  }

  // Sequence numbers run on from 1 without gap or overlap.
  ghost predicate Consecutive(bs: seq<Batch>) {
    forall i :: 0 <= i < |bs| ==> bs[i].first == NextFirst(bs[..i])
  }

  ghost function Entries(bs: seq<Batch>): set<Entry> {
    set b, e | b in bs && e in BatchEntries(b.ops, b.first) :: e
  }

  // ----- the disk -----

  datatype Log = Log(number: nat, batches: seq<Batch>)

  // What replaying the manifest yields.
  datatype Manifest = Manifest(live: set<nat>, logNumber: nat, nextFile: nat, lastSequence: nat)

  // Log files in ascending order of their numbers, table files, and the current manifest.
  datatype Disk = Disk(logs: seq<Log>, tables: map<nat, set<Entry>>, manifest: Manifest)

  // NewWritableFile for a log: an existing file of that name is emptied.
  function CreateLog(logs: seq<Log>, n: nat): seq<Log> {
    if logs == [] || logs[|logs| - 1].number < n then logs + [Log(n, [])]
    else if logs[|logs| - 1].number == n then logs[..|logs| - 1] + [Log(n, [])]
    else CreateLog(logs[..|logs| - 1], n) + [logs[|logs| - 1]]
  }

  function AppendTo(logs: seq<Log>, n: nat, b: Batch): seq<Log> {
    if logs == [] then []
    else
      var l := logs[|logs| - 1];
      if l.number == n then logs[..|logs| - 1] + [Log(n, l.batches + [b])]
      else AppendTo(logs[..|logs| - 1], n, b) + [l]
  }

  // The logs numbered `n` or higher, in order.
  function LogsFrom(logs: seq<Log>, n: nat): seq<Log> {
    if logs == [] then []
    else
      var front := LogsFrom(logs[..|logs| - 1], n);
      if logs[|logs| - 1].number >= n then front + [logs[|logs| - 1]] else front
  }

  function Batches(logs: seq<Log>): seq<Batch> {
    if logs == [] then [] else logs[0].batches + Batches(logs[1..])
  }

  function RowsAt(tables: map<nat, set<Entry>>, n: nat): set<Entry> {
    if n in tables then tables[n] else {}
  }

  ghost function TableEntries(tables: map<nat, set<Entry>>, live: set<nat>): set<Entry> {
    set n, e | n in live && e in RowsAt(tables, n) :: e
  }

  // ----- the process -----

  datatype InFlight = Quiet | Built(batch: Batch) | Logged(batch: Batch)

  datatype Flush =
    | NotFlushing
    | TableWritten(added: set<nat>)
    | Prepared(added: set<nat>, edit: Manifest)
    | Committed(edit: Manifest)

  datatype Memory = Memory(mem: seq<Batch>, imm: Option<seq<Batch>>, live: set<nat>, logFile: nat, logNumber: nat,
                           nextFile: nat, lastSequence: nat, inFlight: InFlight, flush: Flush)

  // `done` are the replayed batches already written to the tables `added`.
  datatype Recovery = Recovery(live: set<nat>, added: set<nat>, done: seq<Batch>, mem: seq<Batch>, todo: seq<Log>,
                               pos: nat, nextFile: nat, lastSequence: nat, maxSequence: nat, newLog: Option<nat>)

  datatype Process = Down | Recovering(r: Recovery) | Running(m: Memory)

  // Beside disk and process: the batches the database consists of, those whose writers were told
  // so, and those of them the manifest's tables hold.
  datatype State = State(disk: Disk, process: Process, history: seq<Batch>, acked: seq<Batch>, tabled: seq<Batch>)

  datatype Event =
    | BuildGroup(ops: seq<Op>) | AppendLog | Publish
    | SwitchMemTable
    | WriteTable | PrepareEdit | CommitEdit | InstallEdit
    | DeleteObsoleteFiles
    | Crash
    | ReadManifest | ReplayRecord(memTableFull: bool) | EndLog | CreateNewLog | SaveManifest

  function NewDatabase(): State {
    State(Disk([], map[], Manifest({}, 0, 2, 0)), Down, [], [], [])
  }

  // ----- steps of a running database -----

  function Rows(imm: Option<seq<Batch>>): seq<Batch> {
    if imm.Some? then imm.value else []
  }

  predicate EnabledRunning(m: Memory, e: Event) {
    match e
    case BuildGroup(ops) => m.inFlight.Quiet? && m.lastSequence + 1 + |ops| < MAX_SEQUENCE
    case AppendLog => m.inFlight.Built?
    case Publish => m.inFlight.Logged?
    case SwitchMemTable => m.inFlight.Quiet? && m.imm.None?
    case WriteTable => m.imm.Some? && m.flush.NotFlushing?
    case PrepareEdit => m.flush.TableWritten?
    case CommitEdit => m.flush.Prepared?
    case InstallEdit => m.flush.Committed?
    case DeleteObsoleteFiles => m.flush.NotFlushing?
    case _ => false
  }

  // WriteLevel0Table: an empty memtable takes a number but leaves no file.
  ghost function WriteRows(tables: map<nat, set<Entry>>, n: nat, bs: seq<Batch>): map<nat, set<Entry>> {
    if Entries(bs) == {} then tables else tables[n := Entries(bs)]
  }

  ghost function Written(n: nat, bs: seq<Batch>): set<nat> {
    if Entries(bs) == {} then {} else {n}
  }

  function AppendToLog(d: Disk, m: Memory): Disk
    requires m.inFlight.Built?
  {
    d.(logs := AppendTo(d.logs, m.logFile, m.inFlight.batch))
  }

  function PublishBatch(m: Memory): Memory
    requires m.inFlight.Logged?
  {
    m.(mem := m.mem + [m.inFlight.batch], lastSequence := m.lastSequence + |m.inFlight.batch.ops|, inFlight := Quiet)
  }

  function StartMemTable(m: Memory): Memory {
    m.(mem := [], imm := Some(m.mem), logFile := m.nextFile, nextFile := m.nextFile + 1)
  }

  function FlushEdit(m: Memory, added: set<nat>): Manifest {
    Manifest(m.live + added, m.logFile, m.nextFile, m.lastSequence)
  }

  function DropImmutable(m: Memory, edit: Manifest): Memory {
    m.(live := edit.live, logNumber := edit.logNumber, imm := None, flush := NotFlushing)
  }

  ghost function StepRunning(s: State, e: Event): State
    requires s.process.Running? && EnabledRunning(s.process.m, e)
  {
    var m, d := s.process.m, s.disk;
    match e
    case BuildGroup(ops) => s.(process := Running(m.(inFlight := Built(Batch(m.lastSequence + 1, ops)))))
    case AppendLog => s.(disk := AppendToLog(d, m), process := Running(m.(inFlight := Logged(m.inFlight.batch))))
    case Publish =>
      s.(process := Running(PublishBatch(m)), history := s.history + [m.inFlight.batch],
          acked := s.acked + [m.inFlight.batch])
    case SwitchMemTable => s.(disk := d.(logs := CreateLog(d.logs, m.nextFile)), process := Running(StartMemTable(m)))
    case WriteTable =>
      s.(disk := d.(tables := WriteRows(d.tables, m.nextFile, Rows(m.imm))),
         process := Running(m.(nextFile := m.nextFile + 1, flush := TableWritten(Written(m.nextFile, Rows(m.imm))))))
    case PrepareEdit => s.(process := Running(m.(flush := Prepared(m.flush.added, FlushEdit(m, m.flush.added)))))
    case CommitEdit =>
      s.(disk := d.(manifest := m.flush.edit), process := Running(m.(flush := Committed(m.flush.edit))),
         tabled := s.tabled + Rows(m.imm))
    case InstallEdit => s.(process := Running(DropImmutable(m, m.flush.edit)))
    case DeleteObsoleteFiles =>
      s.(disk := d.(logs := LogsFrom(d.logs, m.logNumber), tables := map n | n in d.tables
          && n in m.live :: d.tables[n]))
  }

  // ----- steps of recovery -----

  predicate EnabledRecovering(r: Recovery, e: Event) {
    match e
    case ReplayRecord(_) => r.todo != [] && r.pos < |r.todo[0].batches|
    case EndLog => r.todo != [] && r.pos == |r.todo[0].batches|
    case CreateNewLog => r.todo == [] && r.newLog.None?
    case SaveManifest => r.newLog.Some?
    case _ => false
  }

  // VersionSet::Recover: the next file number skips the number of the new manifest.
  function Load(d: Disk): Recovery {
    Recovery(d.manifest.live, {}, [], [], LogsFrom(d.logs, d.manifest.logNumber), 0, d.manifest.nextFile + 1,
             d.manifest.lastSequence, 0, None)
  }

  // The recovered memtable goes to a level-0 table.
  ghost function Spill(s: State, r: Recovery): State {
    s.(disk := s.disk.(tables := WriteRows(s.disk.tables, r.nextFile, r.mem)),
       process := Recovering(r.(added := r.added + Written(r.nextFile, r.mem), done := r.done + r.mem, mem := [],
                                nextFile := r.nextFile + 1)))
  }

  function Max(a: nat, b: nat): nat {
    if a < b then b else a
  }

  function TakeRecord(r: Recovery): Recovery
    requires r.todo != [] && r.pos < |r.todo[0].batches|
  {
    var b := r.todo[0].batches[r.pos];
    var last := if End(b) == 0 then 0 else End(b) - 1;
    r.(mem := r.mem + [b], pos := r.pos + 1, maxSequence := Max(r.maxSequence, last))
  }

  // MarkFileNumberUsed: the numbers of replayed logs are not given out again.
  function NextLog(r: Recovery): Recovery
    requires r.todo != []
  {
    r.(todo := r.todo[1..], pos := 0, nextFile := Max(r.nextFile, r.todo[0].number + 1))
  }

  ghost function StepRecovering(s: State, e: Event): State
    requires s.process.Recovering? && EnabledRecovering(s.process.r, e)
  {
    var r := s.process.r;
    match e
    case ReplayRecord(full) =>
      var r' := TakeRecord(r);
      if full then Spill(s, r') else s.(process := Recovering(r'))
    case EndLog =>
      var s' := if r.mem != [] then Spill(s, r) else s;
      var r' := if r.mem != [] then Spill(s, r).process.r else r;
      s'.(process := Recovering(NextLog(r')))
    case CreateNewLog =>
      s.(disk := s.disk.(logs := CreateLog(s.disk.logs, r.nextFile)),
         process := Recovering(r.(newLog := Some(r.nextFile), nextFile := r.nextFile + 1,
                                  lastSequence := Max(r.lastSequence, r.maxSequence))))
    case SaveManifest =>
      var manifest := Manifest(r.live + r.added, r.newLog.value, r.nextFile, r.lastSequence);
      s.(disk := s.disk.(manifest := manifest), tabled := s.tabled + r.done,
         process := Running(Memory([], None, manifest.live, manifest.logNumber, manifest.logNumber, r.nextFile,
                                   r.lastSequence, Quiet, NotFlushing)))
  }

  // ----- all steps -----

  predicate Enabled(s: State, e: Event) {
    || e.Crash?
    || (s.process.Down? && e.ReadManifest?)
    || (s.process.Recovering? && EnabledRecovering(s.process.r, e))
    || (s.process.Running? && EnabledRunning(s.process.m, e))
  }

  // A batch that reached the log before the crash belongs to the database, its writer told or not.
  function Survivor(p: Process): seq<Batch> {
    if p.Running? && p.m.inFlight.Logged? then [p.m.inFlight.batch] else []
  }

  ghost function Apply(s: State, e: Event): State
    requires Enabled(s, e)
  {
    if e.Crash? then s.(process := Down, history := s.history + Survivor(s.process))
    else if s.process.Down? then s.(process := Recovering(Load(s.disk)))
    else if s.process.Recovering? then StepRecovering(s, e)
    else StepRunning(s, e)
  }

  ghost function Run(events: seq<Event>): Option<State> {
    if events == [] then Some(NewDatabase())
    else
      var before := Run(events[..|events| - 1]);
      var e := events[|events| - 1];
      if before.Some? && Enabled(before.value, e) then Some(Apply(before.value, e)) else None
  }

  // ----- invariants -----

  ghost predicate LogsAscend(logs: seq<Log>) {
    forall i, j :: 0 <= i < j < |logs| ==> logs[i].number < logs[j].number
  }

  ghost predicate NumbersUpTo(logs: seq<Log>, n: nat) {
    forall i :: 0 <= i < |logs| ==> logs[i].number <= n
  }

  // The live tables are on disk and hold exactly the entries of `tabled`.
  ghost predicate TablesOk(tables: map<nat, set<Entry>>, manifest: Manifest, tabled: seq<Batch>) {
    && (forall n :: n in manifest.live ==> n in tables && n < manifest.nextFile)
    && TableEntries(tables, manifest.live) == Entries(tabled)
    && manifest.logNumber < manifest.nextFile
  }

  // `replay` continues `tabled` to `durable`, and the recorded last sequence number is right if
  // nothing is left to replay.
  ghost predicate ReplayOk(lastSequence: nat, tabled: seq<Batch>, replay: seq<Batch>, durable: seq<Batch>) {
    && durable == tabled + replay && Consecutive(durable)
    && lastSequence + 1 <= NextFirst(durable)
    && (replay == [] ==> lastSequence + 1 == NextFirst(durable))
  }

  function Replay(d: Disk): seq<Batch> {
    Batches(LogsFrom(d.logs, d.manifest.logNumber))
  }

  // The manifest's tables and the logs from its log number on make up `durable`, exactly.
  ghost predicate DiskOk(d: Disk, tabled: seq<Batch>, durable: seq<Batch>) {
    && LogsAscend(d.logs) && TablesOk(d.tables, d.manifest, tabled)
    && ReplayOk(d.manifest.lastSequence, tabled, Replay(d), durable)
  }

  function Unpublished(p: InFlight): seq<Batch> {
    if p.Logged? then [p.batch] else []
  }

  // The logs a running database has in use: the immutable memtable's, then the current one.
  function OlderLogs(m: Memory): seq<Log> {
    if m.imm.Some? && !m.flush.Committed? then [Log(m.logNumber, m.imm.value)] else []
  }

  function LogsInUse(m: Memory): seq<Log> {
    OlderLogs(m) + [Log(m.logFile, m.mem + Unpublished(m.inFlight))]
  }

  ghost predicate AddedOk(d: Disk, m: Memory, added: set<nat>) {
    && (forall n :: n in added ==> n in d.tables && n < m.nextFile && n !in m.live)
    && TableEntries(d.tables, added) == Entries(Rows(m.imm))
  }

  ghost predicate FlushOk(d: Disk, m: Memory) {
    && (!m.flush.NotFlushing? ==> m.imm.Some?)
    && (m.flush.TableWritten? ==> AddedOk(d, m, m.flush.added))
    && (m.flush.Prepared? ==> AddedOk(d, m, m.flush.added) && EditOk(m, m.flush.added, m.flush.edit))
    && (m.flush.Committed? ==> d.manifest == m.flush.edit && m.flush.edit.logNumber == m.logFile)
    && (!m.flush.Committed? ==> d.manifest.live == m.live && d.manifest.logNumber == m.logNumber)
  }

  ghost predicate EditOk(m: Memory, added: set<nat>, edit: Manifest) {
    && edit.live == m.live + added && edit.logNumber == m.logFile < edit.nextFile <= m.nextFile
    && (forall n :: n in edit.live ==> n < edit.nextFile)
    && edit.lastSequence <= m.lastSequence && (m.mem == [] ==> edit.lastSequence == m.lastSequence)
  }

  // Tables, memtables and in-flight group against the history.
  ghost predicate MemoryOk(history: seq<Batch>, tabled: seq<Batch>, m: Memory) {
    && history == tabled + (if m.flush.Committed? then [] else Rows(m.imm)) + m.mem
    && m.lastSequence + 1 == NextFirst(history)
    && (!m.inFlight.Quiet? ==> m.inFlight.batch.first == m.lastSequence + 1)
  }

  ghost predicate LogsOk(d: Disk, m: Memory) {
    && LogsFrom(d.logs, d.manifest.logNumber) == LogsInUse(m) && NumbersUpTo(d.logs, m.logFile)
    && m.logNumber <= d.manifest.logNumber <= m.logFile < m.nextFile && d.manifest.nextFile <= m.nextFile
    && (if m.imm.None? then m.logNumber == m.logFile else m.logNumber < m.logFile)
  }

  ghost predicate RunningOk(s: State, m: Memory) {
    && DiskOk(s.disk, s.tabled, s.history + Unpublished(m.inFlight))
    && MemoryOk(s.history, s.tabled, m) && LogsOk(s.disk, m) && FlushOk(s.disk, m)
  }

  // What is still to be read: the rest of the current log, then the other logs.
  function Left(r: Recovery): seq<Batch> {
    if r.todo == [] || r.pos > |r.todo[0].batches| then [] else r.todo[0].batches[r.pos..] + Batches(r.todo[1..])
  }

  ghost predicate ProgressOk(history: seq<Batch>, tabled: seq<Batch>, r: Recovery) {
    && history == tabled + r.done + r.mem + Left(r)
    && (if r.todo == [] then r.mem == [] else r.pos <= |r.todo[0].batches|)
    && r.maxSequence == if r.done + r.mem == [] then 0 else NextFirst(tabled + r.done + r.mem) - 1
  }

  ghost predicate FilesOk(d: Disk, r: Recovery) {
    && r.live == d.manifest.live && (forall n :: n in r.live ==> n < r.nextFile)
    && (forall n :: n in r.added ==> n in d.tables && n < r.nextFile && n !in r.live)
    && TableEntries(d.tables, r.added) == Entries(r.done)
    && (forall l :: l in d.logs && l.number >= r.nextFile ==> l in r.todo)
    && d.manifest.nextFile < r.nextFile // the new manifest's own number is taken
  }

  ghost predicate NewLogOk(d: Disk, history: seq<Batch>, r: Recovery) {
    && (r.newLog.None? ==> r.lastSequence == d.manifest.lastSequence)
    && (r.newLog.Some? ==>
          && r.todo == [] && r.newLog.value < r.nextFile && r.lastSequence + 1 == NextFirst(history)
          && LogsFrom(d.logs, r.newLog.value) == [Log(r.newLog.value, [])] && NumbersUpTo(d.logs, r.newLog.value))
  }

  ghost predicate RecoveringOk(s: State, r: Recovery) {
    && DiskOk(s.disk, s.tabled, s.history)
    && ProgressOk(s.history, s.tabled, r) && FilesOk(s.disk, r) && NewLogOk(s.disk, s.history, r)
  }

  ghost predicate Inv(s: State) {
    && (forall b :: b in s.acked ==> b in s.history)
    && (s.process.Down? ==> DiskOk(s.disk, s.tabled, s.history))
    && (s.process.Recovering? ==> RecoveringOk(s, s.process.r))
    && (s.process.Running? ==> RunningOk(s, s.process.m))
  }

  // ----- facts about lists of logs -----

  lemma {:induction false} FromSpec(logs: seq<Log>, n: nat)
    ensures forall l :: l in LogsFrom(logs, n) <==> l in logs && l.number >= n
    ensures LogsAscend(logs) ==> LogsAscend(LogsFrom(logs, n))
  {
    if logs != [] {
      var front, last := logs[..|logs| - 1], logs[|logs| - 1];
      FromSpec(front, n);
      assert logs == front + [last];
      if LogsAscend(logs) {
        var kept := LogsFrom(front, n);
        forall i | 0 <= i < |kept| ensures kept[i].number < last.number {
          assert kept[i] in front;
        }
      }
    }
  }

  lemma FromAppended(logs: seq<Log>, l: Log, n: nat)
    ensures LogsFrom(logs + [l], n) == LogsFrom(logs, n) + if l.number >= n then [l] else []
  {
    assert (logs + [l])[..|logs|] == logs;
  }

  lemma {:induction false} FromTwice(logs: seq<Log>, a: nat, b: nat)
    requires a <= b
    ensures LogsFrom(LogsFrom(logs, a), b) == LogsFrom(logs, b)
  {
    if logs != [] {
      var front, last := logs[..|logs| - 1], logs[|logs| - 1];
      FromTwice(front, a, b);
      if last.number >= a {
        FromAppended(LogsFrom(front, a), last, b);
      }
    }
  }

  lemma {:induction false} BatchesJoin(a: seq<Log>, b: seq<Log>)
    ensures Batches(a + b) == Batches(a) + Batches(b)
  {
    if a == [] {
      assert a + b == b;
    } else {
      BatchesJoin(a[1..], b);
      assert (a + b)[1..] == a[1..] + b && (a + b)[0] == a[0];
      var head, rest, other := a[0].batches, Batches(a[1..]), Batches(b);
      assert head + (rest + other) == head + rest + other;
    }
  }

  lemma BatchesOfOne(l: Log)
    ensures Batches([l]) == l.batches
  {
    assert [l][1..] == [];
  }

  // The log in use last is the last one on disk.
  lemma NewestIsLast(logs: seq<Log>, n: nat, older: seq<Log>, l: Log)
    requires LogsAscend(logs) && LogsFrom(logs, n) == older + [l] && NumbersUpTo(logs, l.number)
    ensures logs != [] && logs[|logs| - 1] == l && l.number >= n && LogsFrom(logs[..|logs| - 1], n) == older
  {
    FromSpec(logs, n);
    assert l in LogsFrom(logs, n);
    var i :| 0 <= i < |logs| && logs[i] == l;
    assert i == |logs| - 1;
    var front := LogsFrom(logs[..i], n);
    assert front + [l] == older + [l];
    assert front == (front + [l])[..|front|] && older == (older + [l])[..|older|];
  }

  lemma LastReplaced(logs: seq<Log>, l: Log)
    requires logs != [] && LogsAscend(logs) && logs[|logs| - 1].number == l.number
    ensures LogsAscend(logs[..|logs| - 1] + [l])
    ensures forall n :: NumbersUpTo(logs, n) ==> NumbersUpTo(logs[..|logs| - 1] + [l], n)
  {
  }

  // Appending to the newest log adds one batch at the end of what replay delivers.
  lemma AppendGrowsReplay(logs: seq<Log>, n: nat, older: seq<Log>, l: Log, b: Batch)
    requires LogsAscend(logs) && LogsFrom(logs, n) == older + [l] && NumbersUpTo(logs, l.number)
    ensures var logs' := AppendTo(logs, l.number, b);
            && LogsFrom(logs', n) == older + [Log(l.number, l.batches + [b])]
            && LogsAscend(logs') && NumbersUpTo(logs', l.number)
  {
    NewestIsLast(logs, n, older, l);
    var front, l' := logs[..|logs| - 1], Log(l.number, l.batches + [b]);
    FromAppended(front, l', n);
    assert AppendTo(logs, l.number, b) == front + [l'];
    LastReplaced(logs, l');
    hide AppendTo, LogsFrom, LogsAscend, NumbersUpTo;
  }

  lemma BatchesGrow(older: seq<Log>, l: Log, b: Batch)
    ensures Batches(older + [Log(l.number, l.batches + [b])]) == Batches(older + [l]) + [b]
  {
    var l' := Log(l.number, l.batches + [b]);
    BatchesJoin(older, [l]);
    BatchesJoin(older, [l']);
    BatchesOfOne(l);
    BatchesOfOne(l');
    assert Batches(older) + (l.batches + [b]) == Batches(older) + l.batches + [b];
  }

  lemma {:induction false} NoneFrom(logs: seq<Log>, n: nat)
    requires forall i :: 0 <= i < |logs| ==> logs[i].number < n
    ensures LogsFrom(logs, n) == []
  {
    if logs != [] {
      NoneFrom(logs[..|logs| - 1], n);
    }
  }

  lemma CreatedAtEnd(logs: seq<Log>, n: nat)
    requires LogsAscend(logs) && forall i :: 0 <= i < |logs| ==> logs[i].number < n
    ensures CreateLog(logs, n) == logs + [Log(n, [])]
    ensures LogsAscend(logs + [Log(n, [])]) && NumbersUpTo(logs + [Log(n, [])], n)
  {
  }

  // A log with a number above all others starts empty at the end.
  lemma CreatedLog(logs: seq<Log>, new': nat, n: nat)
    requires LogsAscend(logs) && n <= new' && forall i :: 0 <= i < |logs| ==> logs[i].number < new'
    ensures var logs' := CreateLog(logs, new');
            && LogsFrom(logs', n) == LogsFrom(logs, n) + [Log(new', [])]
            && Batches(LogsFrom(logs', n)) == Batches(LogsFrom(logs, n))
            && LogsAscend(logs') && NumbersUpTo(logs', new')
            && LogsFrom(logs', new') == [Log(new', [])]
  {
    var l := Log(new', []);
    CreatedAtEnd(logs, new');
    FromAppended(logs, l, n);
    FromAppended(logs, l, new');
    BatchesJoin(LogsFrom(logs, n), [l]);
    BatchesOfOne(l);
    NoneFrom(logs, new');
    assert Batches(LogsFrom(logs, n)) + [] == Batches(LogsFrom(logs, n));
    hide CreateLog, LogsFrom, Batches, LogsAscend, NumbersUpTo;
  }

  // ----- facts about batches -----

  lemma EntriesJoin(a: seq<Batch>, b: seq<Batch>)
    ensures Entries(a + b) == Entries(a) + Entries(b)
  {
    var whole, parts := Entries(a + b), Entries(a) + Entries(b);
    forall e ensures e in whole <==> e in parts {
      if e in whole {
        var x :| x in a + b && e in BatchEntries(x.ops, x.first);
        assert x in a || x in b;
      }
      if e in Entries(a) {
        var x :| x in a && e in BatchEntries(x.ops, x.first);
        assert x in a + b;
      }
      if e in Entries(b) {
        var x :| x in b && e in BatchEntries(x.ops, x.first);
        assert x in a + b;
      }
    }
  }

  lemma ConsecutiveGrows(bs: seq<Batch>, b: Batch)
    requires Consecutive(bs) && b.first == NextFirst(bs)
    ensures Consecutive(bs + [b]) && NextFirst(bs + [b]) == End(b)
  {
    forall i | 0 <= i < |bs + [b]| ensures (bs + [b])[i].first == NextFirst((bs + [b])[..i]) {
      assert i < |bs| ==> (bs + [b])[..i] == bs[..i];
      assert i == |bs| ==> (bs + [b])[..i] == bs;
    }
  }

  lemma ConsecutivePrefix(bs: seq<Batch>, n: nat)
    requires Consecutive(bs) && n <= |bs|
    ensures Consecutive(bs[..n])
  {
    forall i | 0 <= i < n ensures bs[..n][i].first == NextFirst(bs[..n][..i]) {
      assert bs[..n][..i] == bs[..i];
    }
  }

  lemma {:induction false} NextFirstGrows(bs: seq<Batch>, n: nat)
    requires Consecutive(bs) && n <= |bs|
    ensures NextFirst(bs[..n]) <= NextFirst(bs)
    decreases |bs| - n
  {
    if n < |bs| {
      NextFirstGrows(bs, n + 1);
      assert bs[..n + 1][n] == bs[n];
      assert bs[n].first == NextFirst(bs[..n]);
    } else {
      assert bs[..n] == bs;
    }
  }

  // ----- facts about tables -----

  lemma TablesAgree(a: map<nat, set<Entry>>, b: map<nat, set<Entry>>, live: set<nat>)
    requires forall n :: n in live ==> RowsAt(a, n) == RowsAt(b, n)
    ensures TableEntries(a, live) == TableEntries(b, live)
  {
    var u, v := TableEntries(a, live), TableEntries(b, live);
    forall e ensures e in u <==> e in v {
    }
  }

  lemma TableAdded(tables: map<nat, set<Entry>>, added: set<nat>, n: nat, bs: seq<Batch>)
    requires n !in added
    ensures TableEntries(WriteRows(tables, n, bs), added + Written(n, bs)) == TableEntries(tables, added) + Entries(bs)
  {
    var tables', added' := WriteRows(tables, n, bs), added + Written(n, bs);
    var a, b := TableEntries(tables', added'), TableEntries(tables, added) + Entries(bs);
    forall e ensures e in a <==> e in b {
      if e in Entries(bs) {
        assert n in added' && e in RowsAt(tables', n);
      }
      if e in TableEntries(tables, added) {
        var m :| m in added && e in RowsAt(tables, m);
        assert m in added' && e in RowsAt(tables', m);
      }
      if e in a {
        var m :| m in added' && e in RowsAt(tables', m);
        assert m != n ==> m in added && e in RowsAt(tables, m);
      }
    }
  }

  lemma TablesJoin(tables: map<nat, set<Entry>>, a: set<nat>, b: set<nat>)
    ensures TableEntries(tables, a + b) == TableEntries(tables, a) + TableEntries(tables, b)
  {
    var u, v := TableEntries(tables, a + b), TableEntries(tables, a) + TableEntries(tables, b);
    forall e ensures e in u <==> e in v {
      if e in TableEntries(tables, a) {
        var n :| n in a && e in RowsAt(tables, n);
        assert n in a + b;
      }
      if e in TableEntries(tables, b) {
        var n :| n in b && e in RowsAt(tables, n);
        assert n in a + b;
      }
    }
  }

  // Writing a table under an unused number disturbs no live table.
  lemma TablesOkAfterWrite(tables: map<nat, set<Entry>>, manifest: Manifest, tabled: seq<Batch>, n: nat, bs: seq<Batch>)
    requires TablesOk(tables, manifest, tabled) && n !in manifest.live
    ensures TablesOk(WriteRows(tables, n, bs), manifest, tabled)
  {
    TablesAgree(tables, WriteRows(tables, n, bs), manifest.live);
  }

  // ----- a running database -----

  lemma ReplayGrows(last: nat, tabled: seq<Batch>, replay: seq<Batch>, durable: seq<Batch>, b: Batch)
    requires ReplayOk(last, tabled, replay, durable) && b.first == NextFirst(durable)
    ensures ReplayOk(last, tabled, replay + [b], durable + [b])
  {
    ConsecutiveGrows(durable, b);
    assert tabled + (replay + [b]) == tabled + replay + [b];
  }

  lemma AppendedLogs(d: Disk, m: Memory, m': Memory)
    requires LogsAscend(d.logs) && LogsOk(d, m) && m.inFlight.Built? && m' == m.(inFlight := Logged(m.inFlight.batch))
    ensures var d' := AppendToLog(d, m);
            LogsOk(d', m') && LogsAscend(d'.logs) && Replay(d') == Replay(d) + [m.inFlight.batch]
  {
    var b, l, older := m.inFlight.batch, Log(m.logFile, m.mem), OlderLogs(m);
    assert m.mem + [] == m.mem;
    AppendGrowsReplay(d.logs, d.manifest.logNumber, older, l, b);
    BatchesGrow(older, l, b);
  }

  lemma AppendedDisk(d: Disk, m: Memory, tabled: seq<Batch>, history: seq<Batch>)
    requires DiskOk(d, tabled, history) && LogsOk(d, m) && m.inFlight.Built?
    requires m.inFlight.batch.first == NextFirst(history)
    ensures DiskOk(AppendToLog(d, m), tabled, history + [m.inFlight.batch])
  {
    hide TablesOk;
    AppendedLogs(d, m, m.(inFlight := Logged(m.inFlight.batch)));
    ReplayGrows(d.manifest.lastSequence, tabled, Replay(d), history, m.inFlight.batch);
  }

  lemma AppendKeeps(s: State)
    requires Inv(s) && s.process.Running? && s.process.m.inFlight.Built?
    ensures Inv(Apply(s, AppendLog))
  {
    hide TablesOk, ReplayOk, LogsAscend, LogsOk, Replay, AppendTo;
    var m := s.process.m;
    assert s.history + [] == s.history;
    AppendedDisk(s.disk, m, s.tabled, s.history);
    AppendedLogs(s.disk, m, m.(inFlight := Logged(m.inFlight.batch)));
  }

  lemma PublishedMemory(history: seq<Batch>, tabled: seq<Batch>, m: Memory, m': Memory)
    requires MemoryOk(history, tabled, m) && m.inFlight.Logged? && Consecutive(history)
    requires m' == PublishBatch(m)
    ensures MemoryOk(history + [m.inFlight.batch], tabled, m')
  {
    var b := m.inFlight.batch;
    var older := tabled + (if m.flush.Committed? then [] else Rows(m.imm));
    assert older + (m.mem + [b]) == older + m.mem + [b];
  }

  lemma PublishedLogs(d: Disk, m: Memory, m': Memory)
    requires LogsOk(d, m) && FlushOk(d, m) && m.inFlight.Logged? && m' == PublishBatch(m)
    ensures LogsOk(d, m') && FlushOk(d, m')
  {
    hide LogsFrom, NumbersUpTo, TableEntries, Entries;
    assert m.mem + [m.inFlight.batch] + [] == m.mem + [m.inFlight.batch];
    assert LogsInUse(m') == LogsInUse(m);
  }

  lemma PublishKeeps(s: State)
    requires Inv(s) && s.process.Running? && s.process.m.inFlight.Logged?
    ensures Inv(Apply(s, Publish))
  {
    hide DiskOk, LogsOk, FlushOk, MemoryOk, Consecutive;
    var m := s.process.m;
    var b, s' := m.inFlight.batch, Apply(s, Publish);
    DurableIsConsecutive(s.disk, s.tabled, s.history + [b]);
    ConsecutivePrefix(s.history + [b], |s.history|);
    assert (s.history + [b])[..|s.history|] == s.history;
    PublishedMemory(s.history, s.tabled, m, s'.process.m);
    PublishedLogs(s.disk, m, s'.process.m);
    assert s'.history + [] == s.history + [b];
  }

  lemma DurableIsConsecutive(d: Disk, tabled: seq<Batch>, durable: seq<Batch>)
    requires DiskOk(d, tabled, durable)
    ensures Consecutive(durable)
  {
    hide TablesOk, LogsAscend, Replay, Consecutive;
  }

  lemma SwitchedLogs(d: Disk, m: Memory, d': Disk, m': Memory)
    requires LogsAscend(d.logs) && LogsOk(d, m) && m.imm.None? && m.inFlight.Quiet? && !m.flush.Committed?
    requires d' == d.(logs := CreateLog(d.logs, m.nextFile)) && m' == StartMemTable(m)
    ensures LogsOk(d', m') && LogsAscend(d'.logs) && Replay(d') == Replay(d)
  {
    hide LogsAscend, CreateLog, LogsFrom, Batches;
    CreatedLog(d.logs, m.nextFile, d.manifest.logNumber);
    assert m.mem + [] == m.mem && OlderLogs(m) == [] && OlderLogs(m') == [Log(m.logNumber, m.mem)];
    assert Unpublished(m'.inFlight) == [] && m'.mem + [] == [];
    assert LogsInUse(m) == OlderLogs(m');
    assert LogsInUse(m') == LogsInUse(m) + [Log(m.nextFile, [])];
  }

  lemma SwitchedMemory(history: seq<Batch>, tabled: seq<Batch>, d: Disk, d': Disk, m: Memory)
    requires MemoryOk(history, tabled, m) && FlushOk(d, m) && m.imm.None? && m.inFlight.Quiet?
    requires d' == d.(logs := d'.logs)
    ensures MemoryOk(history, tabled, StartMemTable(m)) && FlushOk(d', StartMemTable(m)) && !m.flush.Committed?
  {
    hide NextFirst, TableEntries, Entries;
    assert tabled + [] + m.mem == tabled + m.mem + [];
  }

  lemma SwitchKeeps(s: State)
    requires Inv(s) && s.process.Running? && EnabledRunning(s.process.m, SwitchMemTable)
    ensures Inv(Apply(s, SwitchMemTable))
  {
    hide TablesOk, ReplayOk, LogsAscend, LogsOk, Replay, CreateLog, FlushOk, MemoryOk;
    var m, s' := s.process.m, Apply(s, SwitchMemTable);
    SwitchedMemory(s.history, s.tabled, s.disk, s'.disk, m);
    SwitchedLogs(s.disk, m, s'.disk, s'.process.m);
  }

  lemma WriteTableKeeps(s: State)
    requires Inv(s) && s.process.Running? && EnabledRunning(s.process.m, WriteTable)
    ensures Inv(Apply(s, WriteTable))
  {
    var m, s' := s.process.m, Apply(s, WriteTable);
    var rows := Rows(m.imm);
    TablesOkAfterWrite(s.disk.tables, s.disk.manifest, s.tabled, m.nextFile, rows);
    TableAdded(s.disk.tables, {}, m.nextFile, rows);
    assert {} + Written(m.nextFile, rows) == Written(m.nextFile, rows);
    assert AddedOk(s'.disk, s'.process.m, s'.process.m.flush.added);
  }

  lemma PrepareKeeps(s: State)
    requires Inv(s) && s.process.Running? && EnabledRunning(s.process.m, PrepareEdit)
    ensures Inv(Apply(s, PrepareEdit))
  {
    var m, s' := s.process.m, Apply(s, PrepareEdit);
    assert EditOk(s'.process.m, m.flush.added, s'.process.m.flush.edit);
  }

  lemma FromOne(l: Log, n: nat)
    ensures LogsFrom([l], n) == if l.number >= n then [l] else []
  {
    assert [l][..0] == [];
  }

  // The flush commits: the immutable memtable's batches move from its log to the new table.
  lemma CommittedReplay(m: Memory, logs: seq<Log>, n: nat)
    requires m.flush.Prepared? && m.imm.Some? && n <= m.logNumber < m.logFile && LogsFrom(logs, n) == LogsInUse(m)
    ensures LogsFrom(logs, m.logFile) == [Log(m.logFile, m.mem + Unpublished(m.inFlight))]
    ensures Batches(LogsFrom(logs, n)) == m.imm.value + (m.mem + Unpublished(m.inFlight))
  {
    var first, last := Log(m.logNumber, m.imm.value), Log(m.logFile, m.mem + Unpublished(m.inFlight));
    FromTwice(logs, n, m.logFile);
    FromAppended([first], last, m.logFile);
    FromOne(first, m.logFile);
    BatchesJoin([first], [last]);
    BatchesOfOne(first);
    BatchesOfOne(last);
    hide LogsFrom, Batches;
  }

  lemma CommittedTables(d: Disk, m: Memory, tabled: seq<Batch>)
    requires m.flush.Prepared? && m.imm.Some? && FlushOk(d, m) && TablesOk(d.tables, d.manifest, tabled)
    ensures TablesOk(d.tables, m.flush.edit, tabled + m.imm.value)
  {
    TablesJoin(d.tables, m.live, m.flush.added);
    EntriesJoin(tabled, m.imm.value);
  }

  lemma CommittedSequence(m: Memory, tabled: seq<Batch>, history: seq<Batch>, added: set<nat>, edit: Manifest)
    requires m.imm.Some? && EditOk(m, added, edit) && MemoryOk(history, tabled, m) && !m.flush.Committed?
    requires Consecutive(history + Unpublished(m.inFlight))
    ensures ReplayOk(edit.lastSequence, tabled + m.imm.value, m.mem + Unpublished(m.inFlight),
        history + Unpublished(m.inFlight))
  {
    var rest, durable := m.mem + Unpublished(m.inFlight), history + Unpublished(m.inFlight);
    assert durable[..|history|] == history;
    NextFirstGrows(durable, |history|);
    assert tabled + m.imm.value + rest == tabled + m.imm.value + m.mem + Unpublished(m.inFlight);
    if rest == [] {
      assert |m.mem| == 0 && |Unpublished(m.inFlight)| == 0;
      assert durable == history;
    }
  }

  lemma CommittedLogs(d: Disk, m: Memory, d': Disk, m': Memory)
    requires LogsOk(d, m) && FlushOk(d, m) && m.flush.Prepared?
    requires d' == d.(manifest := m.flush.edit) && m' == m.(flush := Committed(m.flush.edit))
    ensures LogsOk(d', m') && FlushOk(d', m') && Replay(d') == m.mem + Unpublished(m.inFlight)
    ensures Replay(d) == m.imm.value + Replay(d')
  {
    hide NumbersUpTo, AddedOk;
    CommittedReplay(m, d.logs, d.manifest.logNumber);
    BatchesOfOne(Log(m.logFile, m.mem + Unpublished(m.inFlight)));
    hide LogsFrom, Batches;
    assert OlderLogs(m') == [] && LogsInUse(m') == [Log(m.logFile, m.mem + Unpublished(m.inFlight))];
  }

  lemma CommittedMemory(history: seq<Batch>, tabled: seq<Batch>, m: Memory, edit: Manifest)
    requires MemoryOk(history, tabled, m) && !m.flush.Committed? && m.imm.Some?
    ensures MemoryOk(history, tabled + m.imm.value, m.(flush := Committed(edit)))
  {
    hide NextFirst;
    assert tabled + m.imm.value + [] + m.mem == tabled + m.imm.value + m.mem;
  }

  lemma CommitKeeps(s: State)
    requires Inv(s) && s.process.Running? && EnabledRunning(s.process.m, CommitEdit)
    ensures Inv(Apply(s, CommitEdit))
  {
    hide TablesOk, ReplayOk, Consecutive, LogsAscend, LogsOk, MemoryOk, Replay, EditOk, AddedOk, Unpublished;
    var m, s' := s.process.m, Apply(s, CommitEdit);
    DurableIsConsecutive(s.disk, s.tabled, s.history + Unpublished(m.inFlight));
    CommittedTables(s.disk, m, s.tabled);
    CommittedSequence(m, s.tabled, s.history, m.flush.added, m.flush.edit);
    CommittedLogs(s.disk, m, s'.disk, s'.process.m);
    CommittedMemory(s.history, s.tabled, m, m.flush.edit);
  }

  lemma InstallKeeps(s: State)
    requires Inv(s) && s.process.Running? && EnabledRunning(s.process.m, InstallEdit)
    ensures Inv(Apply(s, InstallEdit))
  {
    var s' := Apply(s, InstallEdit);
    assert MemoryOk(s'.history, s'.tabled, s'.process.m) && LogsOk(s'.disk, s'.process.m);
  }

  lemma KeptTables(tables: map<nat, set<Entry>>, tables': map<nat, set<Entry>>, manifest: Manifest, tabled: seq<Batch>)
    requires TablesOk(tables, manifest, tabled)
    requires tables' == map n | n in tables && n in manifest.live :: tables[n]
    ensures TablesOk(tables', manifest, tabled)
  {
    TablesAgree(tables, tables', manifest.live);
  }

  lemma KeptLogs(logs: seq<Log>, kept: nat, n: nat, newest: nat)
    requires kept <= n && LogsAscend(logs) && NumbersUpTo(logs, newest)
    ensures LogsFrom(LogsFrom(logs, kept), n) == LogsFrom(logs, n)
    ensures LogsAscend(LogsFrom(logs, kept)) && NumbersUpTo(LogsFrom(logs, kept), newest)
  {
    FromTwice(logs, kept, n);
    FromSpec(logs, kept);
    var rest := LogsFrom(logs, kept);
    forall i | 0 <= i < |rest| ensures rest[i].number <= newest {
      assert rest[i] in logs;
    }
  }

  // Deleting obsolete files removes nothing a recovery would read.
  lemma DeleteKeeps(s: State)
    requires Inv(s) && s.process.Running? && EnabledRunning(s.process.m, DeleteObsoleteFiles)
    ensures Inv(Apply(s, DeleteObsoleteFiles))
  {
    hide TablesOk, ReplayOk, LogsAscend, NumbersUpTo, LogsFrom;
    var m := s.process.m;
    KeptLogs(s.disk.logs, m.logNumber, s.disk.manifest.logNumber, m.logFile);
    KeptTables(s.disk.tables, Apply(s, DeleteObsoleteFiles).disk.tables, s.disk.manifest, s.tabled);
  }

  // ----- recovery -----

  lemma LoadedProgress(d: Disk, tabled: seq<Batch>, history: seq<Batch>)
    requires history == tabled + Replay(d)
    ensures ProgressOk(history, tabled, Load(d))
  {
    hide LogsFrom;
    var r := Load(d);
    assert r.todo != [] ==> r.todo[0].batches[0..] == r.todo[0].batches;
    assert Left(r) == Replay(d);
    assert tabled + [] + [] + Left(r) == tabled + Left(r);
  }

  lemma LoadedFiles(d: Disk, tabled: seq<Batch>)
    requires TablesOk(d.tables, d.manifest, tabled)
    ensures FilesOk(d, Load(d))
  {
    FromSpec(d.logs, d.manifest.logNumber);
    assert TableEntries(d.tables, {}) == {} && Entries([]) == {};
  }

  lemma ReadManifestKeeps(s: State)
    requires Inv(s) && s.process.Down?
    ensures Inv(Apply(s, ReadManifest))
  {
    hide TablesOk, LogsAscend, Consecutive, NextFirst, ProgressOk, FilesOk;
    LoadedProgress(s.disk, s.tabled, s.history);
    LoadedFiles(s.disk, s.tabled);
  }

  lemma NextToRead(history: seq<Batch>, before: seq<Batch>, b: Batch, left: seq<Batch>)
    requires history == before + ([b] + left) && Consecutive(history)
    ensures b.first == NextFirst(before) && NextFirst(before) >= 1 && history == before + [b] + left
  {
    assert history[|before|] == b && history[..|before|] == before;
    FirstIsPositive(history, |before|);
  }

  lemma LeftShrinks(r: Recovery)
    requires r.todo != [] && r.pos < |r.todo[0].batches|
    ensures Left(r) == [r.todo[0].batches[r.pos]] + Left(TakeRecord(r))
  {
    var batches, rest := r.todo[0].batches, Batches(r.todo[1..]);
    assert batches[r.pos..] == [batches[r.pos]] + batches[r.pos + 1..];
    assert [batches[r.pos]] + batches[r.pos + 1..] + rest == [batches[r.pos]] + (batches[r.pos + 1..] + rest);
  }

  // One record more in the memtable, one less to read.
  lemma TakeProgress(history: seq<Batch>, tabled: seq<Batch>, r: Recovery)
    requires ProgressOk(history, tabled, r) && Consecutive(history) && r.todo != [] && r.pos < |r.todo[0].batches|
    ensures ProgressOk(history, tabled, TakeRecord(r))
  {
    var r', b := TakeRecord(r), r.todo[0].batches[r.pos];
    var before := tabled + r.done + r.mem;
    hide Consecutive, Batches, NextFirst, Left;
    LeftShrinks(r);
    NextToRead(history, before, b, Left(r'));
    assert tabled + r.done + (r.mem + [b]) == before + [b];
    TakenSequence(before, r, b);
  }

  lemma TakenSequence(before: seq<Batch>, r: Recovery, b: Batch)
    requires r.todo != [] && r.pos < |r.todo[0].batches| && b == r.todo[0].batches[r.pos]
    requires b.first == NextFirst(before) && NextFirst(before) >= 1
    requires r.maxSequence == if r.done + r.mem == [] then 0 else NextFirst(before) - 1
    ensures TakeRecord(r).maxSequence == NextFirst(before + [b]) - 1
  {
  }

  lemma TakeKeeps(s: State, r: Recovery)
    requires RecoveringOk(s, r) && EnabledRecovering(r, ReplayRecord(false)) && r.newLog.None?
    ensures RecoveringOk(s, TakeRecord(r))
  {
    hide TablesOk, ProgressOk;
    assert Consecutive(s.history);
    TakeProgress(s.history, s.tabled, r);
  }

  lemma {:induction false} FirstIsPositive(bs: seq<Batch>, n: nat)
    requires Consecutive(bs) && n <= |bs|
    ensures NextFirst(bs[..n]) >= 1
  {
    if n > 0 {
      FirstIsPositive(bs, n - 1);
      assert bs[..n][n - 1] == bs[n - 1];
    }
  }

  lemma SpillProgress(history: seq<Batch>, tabled: seq<Batch>, r: Recovery, r': Recovery)
    requires ProgressOk(history, tabled, r)
    requires r' == r.(done := r.done + r.mem, mem := [], added := r'.added, nextFile := r'.nextFile)
    ensures ProgressOk(history, tabled, r')
  {
    assert tabled + (r.done + r.mem) == tabled + r.done + r.mem;
    assert tabled + (r.done + r.mem) + [] == tabled + r.done + r.mem;
    assert r.done + r.mem + [] == r.done + r.mem;
    assert Left(r') == Left(r);
  }

  lemma SpillKeeps(s: State, r: Recovery)
    requires RecoveringOk(s, r) && r.newLog.None?
    ensures RecoveringOk(Spill(s, r), Spill(s, r).process.r)
  {
    hide ProgressOk, ReplayOk;
    var s', r' := Spill(s, r), Spill(s, r).process.r;
    TablesOkAfterWrite(s.disk.tables, s.disk.manifest, s.tabled, r.nextFile, r.mem);
    TableAdded(s.disk.tables, r.added, r.nextFile, r.mem);
    EntriesJoin(r.done, r.mem);
    SpillProgress(s.history, s.tabled, r, r');
    assert FilesOk(s'.disk, r');
  }

  lemma EndLogKeeps(s: State, r: Recovery)
    requires RecoveringOk(s, r) && EnabledRecovering(r, EndLog) && r.mem == []
    ensures RecoveringOk(s, NextLog(r))
  {
    hide DiskOk, ProgressOk, FilesOk;
    EndLogProgress(s.history, s.tabled, r);
    EndLogFiles(s.disk, r);
  }

  lemma EndLogProgress(history: seq<Batch>, tabled: seq<Batch>, r: Recovery)
    requires ProgressOk(history, tabled, r) && EnabledRecovering(r, EndLog) && r.mem == []
    ensures ProgressOk(history, tabled, NextLog(r))
  {
    hide NextFirst;
    var r' := NextLog(r);
    assert r'.todo != [] ==> r'.todo[0].batches[0..] == r'.todo[0].batches;
    assert r.todo[0].batches[r.pos..] == [];
    assert Left(r') == Left(r);
  }

  lemma EndLogFiles(d: Disk, r: Recovery)
    requires FilesOk(d, r) && r.todo != []
    ensures FilesOk(d, NextLog(r))
  {
    hide TableEntries, Entries;
    assert r.todo == [r.todo[0]] + r.todo[1..];
  }

  lemma NothingReplayed(s: State, r: Recovery)
    requires RecoveringOk(s, r) && r.todo == [] && r.newLog.None?
    ensures Max(r.lastSequence, r.maxSequence) + 1 == NextFirst(s.history)
    ensures s.history == s.tabled + r.done
  {
    assert Left(r) == [] && s.tabled + r.done + [] + [] == s.tabled + r.done;
    if r.done == [] {
      assert s.tabled + Replay(s.disk) == s.tabled + [];
      assert |Replay(s.disk)| == 0;
    } else {
      assert r.done + [] == r.done && s.tabled + r.done + [] == s.history;
      assert s.history[..|s.history|] == s.history;
      FirstIsPositive(s.history, |s.history|);
    }
  }

  lemma NewLogIsLast(d: Disk, r: Recovery)
    requires LogsAscend(d.logs) && FilesOk(d, r) && r.todo == [] && d.manifest.logNumber <= r.nextFile
    ensures LogsAscend(CreateLog(d.logs, r.nextFile)) && NumbersUpTo(CreateLog(d.logs, r.nextFile), r.nextFile)
    ensures LogsFrom(CreateLog(d.logs, r.nextFile), r.nextFile) == [Log(r.nextFile, [])]
    ensures Replay(d.(logs := CreateLog(d.logs, r.nextFile))) == Replay(d)
  {
    forall i | 0 <= i < |d.logs| ensures d.logs[i].number < r.nextFile {
      assert d.logs[i] in d.logs;
    }
    CreatedLog(d.logs, r.nextFile, d.manifest.logNumber);
  }

  lemma UpToIsMember(logs: seq<Log>, n: nat)
    requires NumbersUpTo(logs, n)
    ensures forall l :: l in logs ==> l.number <= n
  {
  }

  lemma CreateNewLogKeeps(s: State)
    requires Inv(s) && s.process.Recovering? && EnabledRecovering(s.process.r, CreateNewLog)
    ensures Inv(Apply(s, CreateNewLog))
  {
    hide ReplayOk, Replay, LogsAscend, CreateLog, LogsFrom, Consecutive, NextFirst, TableEntries;
    var r := s.process.r;
    NewLogIsLast(s.disk, r);
    NothingReplayed(s, r);
    UpToIsMember(CreateLog(s.disk.logs, r.nextFile), r.nextFile);
  }

  // The end of recovery: the tables alone are the whole history.
  lemma SaveKeeps(s: State)
    requires Inv(s) && s.process.Recovering? && EnabledRecovering(s.process.r, SaveManifest)
    ensures Inv(Apply(s, SaveManifest)) && Apply(s, SaveManifest).tabled == s.history
  {
    var r, s' := s.process.r, Apply(s, SaveManifest);
    var m := s'.process.m;
    assert Left(r) == [] && s.tabled + r.done + [] + [] == s.tabled + r.done;
    BatchesOfOne(Log(r.newLog.value, []));
    TablesJoin(s.disk.tables, r.live, r.added);
    EntriesJoin(s.tabled, r.done);
    assert TablesOk(s'.disk.tables, s'.disk.manifest, s'.tabled);
    assert s.history + [] == s.history && s.history + [] + [] == s.history;
    assert ReplayOk(r.lastSequence, s'.tabled, [], s.history);
    assert MemoryOk(s'.history, s'.tabled, m) && LogsOk(s'.disk, m) && FlushOk(s'.disk, m);
  }

  // ----- runs -----

  lemma InitialInv()
    ensures Inv(NewDatabase())
  {
    assert TableEntries(map[], {}) == {} && Entries([]) == {};
    assert Batches([]) == [];
  }

  lemma RunningStepKeeps(s: State, e: Event)
    requires Inv(s) && s.process.Running? && EnabledRunning(s.process.m, e)
    ensures Inv(Apply(s, e))
  {
    match e
    case BuildGroup(_) => assert s.history + [] == s.history;
    case AppendLog => AppendKeeps(s);
    case Publish => PublishKeeps(s);
    case SwitchMemTable => SwitchKeeps(s);
    case WriteTable => WriteTableKeeps(s);
    case PrepareEdit => PrepareKeeps(s);
    case CommitEdit => CommitKeeps(s);
    case InstallEdit => InstallKeeps(s);
    case DeleteObsoleteFiles => DeleteKeeps(s);
  }

  lemma ProcessIsNotRead(s: State, s': State, r: Recovery)
    requires RecoveringOk(s, r) && s' == s.(process := s'.process)
    ensures RecoveringOk(s', r)
  {
  }

  lemma NoNewLogYet(s: State, r: Recovery)
    requires RecoveringOk(s, r)
    ensures r.todo != [] ==> r.newLog.None?
    ensures r.todo != [] && RecoveringOk(Spill(s, r), Spill(s, r).process.r) ==> Spill(s, r).process.r.mem == []
  {
    hide DiskOk, ProgressOk, FilesOk;
  }

  lemma RecoveringStepKeeps(s: State, e: Event)
    requires Inv(s) && s.process.Recovering? && EnabledRecovering(s.process.r, e)
    ensures Inv(Apply(s, e))
  {
    hide RecoveringOk;
    var r := s.process.r;
    NoNewLogYet(s, r);
    match e
    case ReplayRecord(full) =>
      TakeKeeps(s, r);
      if full {
        SpillKeeps(s, TakeRecord(r));
      } else {
        ProcessIsNotRead(s, Apply(s, e), TakeRecord(r));
      }
    case EndLog =>
      if r.mem != [] {
        SpillKeeps(s, r);
        var spilled := Spill(s, r);
        EndLogKeeps(spilled, spilled.process.r);
        ProcessIsNotRead(spilled, Apply(s, e), Apply(s, e).process.r);
      } else {
        EndLogKeeps(s, r);
        ProcessIsNotRead(s, Apply(s, e), Apply(s, e).process.r);
      }
    case CreateNewLog => CreateNewLogKeeps(s);
    case SaveManifest => SaveKeeps(s);
  }

  lemma StepKeepsInv(s: State, e: Event)
    requires Inv(s) && Enabled(s, e)
    ensures Inv(Apply(s, e))
  {
    if e.Crash? {
      assert s.history + [] == s.history;
    } else if s.process.Down? {
      ReadManifestKeeps(s);
    } else if s.process.Recovering? {
      RecoveringStepKeeps(s, e);
    } else {
      RunningStepKeeps(s, e);
    }
  }

  lemma {:induction false} RunsKeepInv(events: seq<Event>)
    requires Run(events).Some?
    ensures Inv(Run(events).value)
  {
    if events == [] {
      InitialInv();
    } else {
      var front := events[..|events| - 1];
      RunsKeepInv(front);
      StepKeepsInv(Run(front).value, events[|events| - 1]);
    }
  }

  // ----- what that means -----

  lemma HistoryIsDurable(s: State)
    requires Inv(s)
    ensures s.history <= s.tabled + Replay(s.disk)
    ensures TableEntries(s.disk.tables, s.disk.manifest.live) == Entries(s.tabled)
  {
    hide Consecutive;
  }

  // Every acknowledged entry is in a table of the manifest or in a log the manifest still counts
  // on - in every state of every run, up or down.
  lemma AcknowledgedIsDurable(events: seq<Event>, b: Batch)
    requires Run(events).Some? && b in Run(events).value.acked
    ensures var d := Run(events).value.disk;
            (forall e :: e in BatchEntries(b.ops, b.first) ==> e in TableEntries(d.tables, d.manifest.live))
                || b in Replay(d)
  {
    RunsKeepInv(events);
    var s := Run(events).value;
    HistoryIsDurable(s);
    hide Inv, Run;
    var i :| 0 <= i < |s.history| && s.history[i] == b;
    if i < |s.tabled| {
      assert s.tabled[i] == b;
      forall e | e in BatchEntries(b.ops, b.first) ensures e in Entries(s.tabled) {
        assert b in s.tabled;
      }
    } else {
      assert (s.tabled + Replay(s.disk))[i] == b;
    }
  }

  // Once recovery ends, memory is empty and the tables hold exactly the history, with the next
  // write numbered right behind it.
  lemma RecoveryRestoresHistory(events: seq<Event>)
    requires Run(events).Some? && Run(events + [SaveManifest]).Some?
    ensures var s, s' := Run(events).value, Run(events + [SaveManifest]).value;
            && s'.process.Running? && s'.history == s.history
            && TableEntries(s'.disk.tables, s'.process.m.live) == Entries(s.history)
            && s'.process.m.mem == [] && s'.process.m.imm == None
            && s'.process.m.lastSequence + 1 == NextFirst(s.history) && Consecutive(s.history)
  {
    assert (events + [SaveManifest])[..|events|] == events;
    RunsKeepInv(events);
    SaveKeeps(Run(events).value);
    assert Run(events).value.history + [] == Run(events).value.history;
  }

  // While the database runs, tables and memtables together are the history too.
  lemma RunningHoldsHistory(events: seq<Event>)
    requires Run(events).Some? && Run(events).value.process.Running?
    ensures var s := Run(events).value; var m := s.process.m;
            var waiting := if m.flush.Committed? then {} else Entries(Rows(m.imm));
            TableEntries(s.disk.tables, s.disk.manifest.live) + waiting + Entries(m.mem) == Entries(s.history)
  {
    RunsKeepInv(events);
    var s := Run(events).value;
    var imm := if s.process.m.flush.Committed? then [] else Rows(s.process.m.imm);
    EntriesJoin(s.tabled + imm, s.process.m.mem);
    EntriesJoin(s.tabled, imm);
  }

  // ----- what the history consists of -----

  ghost predicate Subsequence<T>(a: seq<T>, b: seq<T>) {
    || a == []
    || (b != [] && (Subsequence(a, b[..|b| - 1])
                    || (a[|a| - 1] == b[|b| - 1] && Subsequence(a[..|a| - 1], b[..|b| - 1]))))
  }

  lemma SubsequenceSkips<T>(a: seq<T>, b: seq<T>, x: T)
    requires Subsequence(a, b)
    ensures Subsequence(a, b + [x])
  {
    assert (b + [x])[..|b|] == b;
  }

  lemma SubsequenceTakes<T>(a: seq<T>, b: seq<T>, x: T)
    requires Subsequence(a, b)
    ensures Subsequence(a + [x], b + [x])
  {
    assert (a + [x])[..|a|] == a && (b + [x])[..|b|] == b;
  }

  lemma {:induction false} SubsequenceDrops<T>(a: seq<T>, x: T, b: seq<T>)
    requires Subsequence(a + [x], b)
    ensures Subsequence(a, b)
  {
    var front := b[..|b| - 1];
    assert b == front + [b[|b| - 1]] && (a + [x])[..|a|] == a;
    if Subsequence(a + [x], front) {
      SubsequenceDrops(a, x, front);
    }
    SubsequenceSkips(a, front, b[|b| - 1]);
  }

  // Whether a step is a crash that catches a group between its append and its acknowledgement.
  function CaughtBy(s: State, e: Event): nat {
    if e.Crash? then |Survivor(s.process)| else 0
  }

  ghost function Caught(events: seq<Event>): nat
    requires Run(events).Some?
  {
    if events == [] then 0
    else Caught(events[..|events| - 1]) + CaughtBy(Run(events[..|events| - 1]).value, events[|events| - 1])
  }

  function Crashes(events: seq<Event>): nat {
    if events == [] then 0 else Crashes(events[..|events| - 1]) + if events[|events| - 1].Crash? then 1 else 0
  }

  lemma HistoryStep(s: State, e: Event)
    requires Enabled(s, e) && Subsequence(s.acked, s.history)
    ensures Subsequence(Apply(s, e).acked, Apply(s, e).history)
    ensures |Apply(s, e).history| - |Apply(s, e).acked| == |s.history| - |s.acked| + CaughtBy(s, e)
  {
    hide Subsequence, WriteRows, Written, CreateLog, AppendTo, LogsFrom, Load, StartMemTable, FlushEdit, DropImmutable;
    if e.Crash? {
      if s.process.Running? && s.process.m.inFlight.Logged? {
        SubsequenceSkips(s.acked, s.history, s.process.m.inFlight.batch);
      } else {
        assert s.history + [] == s.history;
      }
    } else if s.process.Running? && e.Publish? {
      SubsequenceTakes(s.acked, s.history, s.process.m.inFlight.batch);
    }
  }

  // In every run the acknowledged batches are in the history, in their order and no more often than
  // acknowledged; what else is there are the groups that crashes caught between append and
  // acknowledgement, one a crash at most.
  lemma {:induction false} HistoryIsAcknowledgedOrCaught(events: seq<Event>)
    requires Run(events).Some?
    ensures var s := Run(events).value;
            && Subsequence(s.acked, s.history) && |s.history| == |s.acked| + Caught(events)
    ensures Caught(events) <= Crashes(events)
  {
    if events != [] {
      var front := events[..|events| - 1];
      HistoryIsAcknowledgedOrCaught(front);
      HistoryStep(Run(front).value, events[|events| - 1]);
      hide Apply, Enabled, Subsequence;
    }
  }
}
