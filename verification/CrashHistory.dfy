/** What the history of the crash machine is, told from its events alone: the operations asked for,
    those that were acknowledged, and those a crash caught on their way; and what the steps that are
    not writes get done (db/db_impl.cc: Write, CompactMemTable, DeleteObsoleteFiles). */
module CrashHistories {
  import opened Wrappers
  import opened DbFormat
  import opened WriteBatches
  import opened CrashRecovery

  // ----- from the events alone -----

  // A group on its way: asked for, then in the log.
  datatype Pending = Nothing | Asked(ops: seq<Op>) | Appended(ops: seq<Op>)

  function PendingAfter(events: seq<Event>): Pending {
    if events == [] then Nothing
    else
      var p := PendingAfter(events[..|events| - 1]);
      match events[|events| - 1]
      case BuildGroup(ops) => Asked(ops)
      case AppendLog => if p.Asked? then Appended(p.ops) else p
      case Publish => Nothing
      case Crash => Nothing
      case _ => p
  }

  function Given(p: Pending): seq<seq<Op>> {
    if p.Nothing? then [] else [p.ops]
  }

  // The groups clients asked for, in order.
  function AskedFor(events: seq<Event>): seq<seq<Op>> {
    if events == [] then []
    else
      var e := events[|events| - 1];
      AskedFor(events[..|events| - 1]) + if e.BuildGroup? then [e.ops] else []
  }

  // The groups acknowledged: at each Publish, the one on its way.
  function Published(events: seq<Event>): seq<seq<Op>> {
    if events == [] then []
    else
      var front := events[..|events| - 1];
      Published(front) + if events[|events| - 1].Publish? then Given(PendingAfter(front)) else []
  }

  // The groups that last: those published, and those in the log when a crash came.
  function Lasting(events: seq<Event>): seq<seq<Op>> {
    if events == [] then []
    else
      var front, e := events[..|events| - 1], events[|events| - 1];
      var p := PendingAfter(front);
      Lasting(front) + if e.Publish? || (e.Crash? && p.Appended?) then Given(p) else []
  }

  // Groups numbered from 1 on.
  function Stamped(groups: seq<seq<Op>>): seq<RawBatch> {
    if groups == [] then []
    else
      var front := Stamped(groups[..|groups| - 1]);
      front + [Batch(FirstAfter(groups[..|groups| - 1]), groups[|groups| - 1])]
  }

  function FirstAfter(groups: seq<seq<Op>>): nat {
    if groups == [] then 1 else FirstAfter(groups[..|groups| - 1]) + |groups[|groups| - 1]|
  }

  function OpsOf(bs: seq<RawBatch>): seq<seq<Op>> {
    seq(|bs|, i requires 0 <= i < |bs| => bs[i].ops)
  }

  // ----- the machine does what the events say -----

  ghost predicate OnItsWay(p: Process, pending: Pending) {
    if !p.Running? || p.m.inFlight.Quiet? then pending.Nothing?
    else if p.m.inFlight.Built? then pending == Asked(p.m.inFlight.batch.ops)
    else pending == Appended(p.m.inFlight.batch.ops)
  }

  lemma NothingHappened(s: State, e: Event)
    requires Enabled(s, e) && !e.BuildGroup? && !e.AppendLog? && !e.Publish? && !e.Crash?
    ensures Apply(s, e).history == s.history && Apply(s, e).acked == s.acked
    ensures s.process.Running? ==> Apply(s, e).process.Running?
    ensures s.process.Running? ==> Apply(s, e).process.m.inFlight == s.process.m.inFlight
    ensures !s.process.Running? && Apply(s, e).process.Running? ==> Apply(s, e).process.m.inFlight.Quiet?
  {
    hide WriteRows, Written, CreateLog, LogsFrom, Load, FlushEdit;
  }

  lemma WriteStep(s: State, e: Event)
    requires s.process.Running? && EnabledRunning(s.process.m, e) && (e.BuildGroup? || e.AppendLog? || e.Publish?)
    ensures var s', f := Apply(s, e), s.process.m.inFlight;
            && s'.process.Running?
            && match e
               case BuildGroup(ops) =>
                 && s'.process.m.inFlight.Built? && s'.process.m.inFlight.batch.ops == ops
                 && s'.history == s.history && s'.acked == s.acked
               case AppendLog =>
                 && s'.process.m.inFlight == Logged(f.batch)
                 && s'.history == s.history && s'.acked == s.acked
               case Publish =>
                 && s'.process.m.inFlight.Quiet?
                 && s'.history == s.history + [f.batch] && s'.acked == s.acked + [f.batch]
  {
    hide AppendTo;
  }

  lemma OpsGrow(bs: seq<RawBatch>, b: RawBatch)
    ensures OpsOf(bs + [b]) == OpsOf(bs) + [b.ops]
  {
  }

  // In every run the acknowledged batches are the groups published, and the history is the groups
  // that last, each with exactly its operations.
  lemma {:induction false} HistoryIsWhatWasAsked(events: seq<Event>)
    requires Run(events).Some?
    ensures OnItsWay(Run(events).value.process, PendingAfter(events))
    ensures OpsOf(Run(events).value.acked) == Published(events)
    ensures OpsOf(Run(events).value.history) == Lasting(events)
  {
    if events != [] {
      var front, e := events[..|events| - 1], events[|events| - 1];
      HistoryIsWhatWasAsked(front);
      var s := Run(front).value;
      hide Run, OpsOf;
      if e.Crash? {
        assert Apply(s, e).history == s.history + Survivor(s.process);
        if s.process.Running? && s.process.m.inFlight.Logged? {
          OpsGrow(s.history, s.process.m.inFlight.batch);
        } else {
          assert s.history + [] == s.history;
        }
      } else if e.BuildGroup? || e.AppendLog? || e.Publish? {
        WriteStep(s, e);
        if e.Publish? {
          OpsGrow(s.history, s.process.m.inFlight.batch);
          OpsGrow(s.acked, s.process.m.inFlight.batch);
        }
      } else {
        NothingHappened(s, e);
      }
    }
  }

  // ----- what lasts was asked for -----

  lemma {:induction false} PublishedLasts(events: seq<Event>)
    ensures Subsequence(Published(events), Lasting(events))
  {
    if events != [] {
      var front, e := events[..|events| - 1], events[|events| - 1];
      var p := PendingAfter(front);
      PublishedLasts(front);
      assert Lasting(front) + [] == Lasting(front) && Published(front) + [] == Published(front);
      if !p.Nothing? && e.Publish? {
        SubsequenceTakes(Published(front), Lasting(front), p.ops);
      } else if !p.Nothing? {
        SubsequenceSkips(Published(front), Lasting(front), p.ops);
      }
    }
  }

  // The groups that last, and the one on its way, are among those asked for, in their order.
  lemma {:induction false} LastingWasAsked(events: seq<Event>)
    ensures Subsequence(Lasting(events) + Given(PendingAfter(events)), AskedFor(events))
    ensures Subsequence(Lasting(events), AskedFor(events))
  {
    var lasting, p := Lasting(events), PendingAfter(events);
    if events != [] {
      var front, e := events[..|events| - 1], events[|events| - 1];
      LastingWasAsked(front);
      assert Lasting(front) + [] == Lasting(front) && AskedFor(front) + [] == AskedFor(front);
      hide Subsequence;
      if e.BuildGroup? {
        SubsequenceTakes(Lasting(front), AskedFor(front), e.ops);
      }
    }
    assert lasting + [] == lasting;
    if !p.Nothing? {
      SubsequenceDrops(lasting, p.ops, AskedFor(events));
    }
  }

  // ----- the history itself -----

  lemma LastOfConsecutive(bs: seq<Batch>)
    requires Consecutive(bs) && bs != []
    ensures Consecutive(bs[..|bs| - 1]) && bs[|bs| - 1].first == NextFirst(bs[..|bs| - 1])
    ensures NextFirst(bs) == End(bs[|bs| - 1])
  {
    ConsecutivePrefix(bs, |bs| - 1);
  }

  lemma {:induction false} ConsecutiveIsStamped(bs: seq<Batch>)
    requires Consecutive(bs)
    ensures bs == Stamped(OpsOf(bs)) && NextFirst(bs) == FirstAfter(OpsOf(bs))
  {
    hide Consecutive, OpsOf, BatchEntries;
    if bs == [] {
      NothingStamped();
    } else {
      var front, b := bs[..|bs| - 1], bs[|bs| - 1];
      LastOfConsecutive(bs);
      ConsecutiveIsStamped(front);
      hide NextFirst, Stamped, FirstAfter;
      assert bs == front + [b];
      OpsGrow(front, b);
      StampedGrows(OpsOf(front), b.ops);
    }
  }

  lemma NothingStamped()
    ensures OpsOf([]) == [] && Stamped([]) == []
  {
  }

  lemma StampedGrows(groups: seq<seq<Op>>, ops: seq<Op>)
    ensures Stamped(groups + [ops]) == Stamped(groups) + [Batch(FirstAfter(groups), ops)]
    ensures FirstAfter(groups + [ops]) == FirstAfter(groups) + |ops|
  {
    assert (groups + [ops])[..|groups|] == groups;
  }

  lemma HistoryIsConsecutive(s: State)
    requires Inv(s)
    ensures Consecutive(s.history)
  {
    hide Consecutive, TablesOk, LogsOk, FlushOk, MemoryOk, ProgressOk, FilesOk, NewLogOk, Replay, LogsAscend;
    if s.process.Running? {
      var durable := s.history + Unpublished(s.process.m.inFlight);
      ConsecutivePrefix(durable, |s.history|);
      assert durable[..|s.history|] == s.history;
    }
  }

  // The history is exactly the groups that last, numbered without a gap from 1.
  lemma HistoryIsStamped(events: seq<Event>)
    requires Run(events).Some?
    ensures Run(events).value.history == Stamped(Lasting(events))
  {
    hide *;
    RunsKeepInv(events);
    HistoryIsConsecutive(Run(events).value);
    HistoryIsWhatWasAsked(events);
    ConsecutiveIsStamped(Run(events).value.history);
  }

  // After any run of writes, flushes and crashes, recovery leaves in the tables exactly the
  // operations of the groups that last - every published one among them, and none never asked for.
  lemma RecoveredIsWhatLasts(events: seq<Event>)
    requires Run(events).Some? && Run(events + [SaveManifest]).Some?
    ensures var s' := Run(events + [SaveManifest]).value;
            && s'.process.Running? && s'.history == Stamped(Lasting(events))
            && TableEntries(s'.disk.tables, s'.process.m.live) == Entries(s'.history)
            && s'.process.m.lastSequence + 1 == FirstAfter(Lasting(events))
    ensures Subsequence(Published(events), Lasting(events)) && Subsequence(Lasting(events), AskedFor(events))
  {
    hide *;
    RecoveryRestoresHistory(events);
    HistoryIsStamped(events);
    PublishedLasts(events);
    LastingWasAsked(events);
    HistoryIsWhatWasAsked(events);
    ConsecutiveIsStamped(Run(events).value.history);
  }

  // A group published is on disk, with the operations asked for: in the tables the manifest names, or
  // in a log recovery reads.
  lemma PublishedIsDurable(events: seq<Event>, i: nat)
    requires Run(events).Some? && i < |Published(events)|
    ensures |Run(events).value.acked| == |Published(events)|
    ensures var s := Run(events).value; var b := s.acked[i];
            && b.ops == Published(events)[i]
            && ((forall e :: e in BatchEntries(b.ops, b.first) ==>
                   e in TableEntries(s.disk.tables, s.disk.manifest.live)) || b in Replay(s.disk))
  {
    HistoryIsWhatWasAsked(events);
    var acked := Run(events).value.acked;
    assert |OpsOf(acked)| == |acked| && OpsOf(acked)[i] == acked[i].ops;
    hide Run;
    AcknowledgedIsDurable(events, acked[i]);
  }

  // ----- what the other steps get done -----

  lemma OneMoreEvent(events: seq<Event>, e: Event)
    requires Run(events).Some? && Enabled(Run(events).value, e)
    ensures Run(events + [e]) == Some(Apply(Run(events).value, e))
  {
    hide Apply, Enabled;
    assert (events + [e])[..|events|] == events;
  }

  lemma OneMorePublished(events: seq<Event>, e: Event)
    ensures PendingAfter(events + [e]) ==
              match e
              case BuildGroup(ops) => Asked(ops)
              case AppendLog =>
                if PendingAfter(events).Asked? then Appended(PendingAfter(events).ops) else PendingAfter(events)
              case Publish => Nothing
              case Crash => Nothing
              case _ => PendingAfter(events)
    ensures Published(events + [e]) == Published(events) + if e.Publish? then Given(PendingAfter(events)) else []
  {
    assert (events + [e])[..|events|] == events;
  }

  // Wherever the database runs and no group is on its way, a write can be made, and is published.
  lemma WritesGoThrough(events: seq<Event>, ops: seq<Op>)
    requires Run(events).Some? && Run(events).value.process.Running?
    requires var m := Run(events).value.process.m; m.inFlight.Quiet? && m.lastSequence + 1 + |ops| < MAX_SEQUENCE
    ensures var m, after := Run(events).value.process.m, events + [BuildGroup(ops)] + [AppendLog] + [Publish];
            && Run(after).Some? && Published(after) == Published(events) + [ops]
            && Run(after).value.process.Running?
            && Run(after).value.process.m.mem == m.mem + [Batch(m.lastSequence + 1, ops)]
  {
    hide *;
    WriteStages(Run(events).value, ops);
    OneMoreEvent(events, BuildGroup(ops));
    OneMoreEvent(events + [BuildGroup(ops)], AppendLog);
    OneMoreEvent(events + [BuildGroup(ops)] + [AppendLog], Publish);
    PublishedOnce(events, ops);
  }

  lemma WriteStages(s: State, ops: seq<Op>)
    requires s.process.Running? && s.process.m.inFlight.Quiet?
    requires s.process.m.lastSequence + 1 + |ops| < MAX_SEQUENCE
    ensures Enabled(s, BuildGroup(ops)) && Enabled(Apply(s, BuildGroup(ops)), AppendLog)
    ensures var s2, m := Apply(Apply(s, BuildGroup(ops)), AppendLog), s.process.m;
            && Enabled(s2, Publish) && Apply(s2, Publish).process.Running?
            && Apply(s2, Publish).process.m.mem == m.mem + [Batch(m.lastSequence + 1, ops)]
  {
    hide AppendTo;
  }

  lemma PublishedOnce(events: seq<Event>, ops: seq<Op>)
    ensures Published(events + [BuildGroup(ops)] + [AppendLog] + [Publish]) == Published(events) + [ops]
  {
    OneMorePublished(events, BuildGroup(ops));
    OneMorePublished(events + [BuildGroup(ops)], AppendLog);
    OneMorePublished(events + [BuildGroup(ops)] + [AppendLog], Publish);
    hide Published, PendingAfter;
    assert Published(events) + [] == Published(events);
  }

  // What is deleted is exactly what is not needed: the tables of the version and the logs of the
  // memtables stay.
  lemma DeletedIsNotNeeded(events: seq<Event>)
    requires Run(events).Some? && Run(events).value.process.Running?
    requires Run(events).value.process.m.flush.NotFlushing?
    ensures Run(events + [DeleteObsoleteFiles]).Some?
    ensures var s, s' := Run(events).value, Run(events + [DeleteObsoleteFiles]).value;
            && s'.process == s.process && s'.tabled == s.tabled && s'.disk.logs == LogsInUse(s.process.m)
            && s'.disk.tables.Keys == s.process.m.live
            && forall n :: n in s.process.m.live ==> n in s.disk.tables && s'.disk.tables[n] == s.disk.tables[n]
  {
    RunsKeepInv(events);
    DeleteTaken(Run(events).value);
    hide *;
    OneMoreEvent(events, DeleteObsoleteFiles);
  }

  lemma DeleteTaken(s: State)
    requires Inv(s) && s.process.Running? && s.process.m.flush.NotFlushing?
    ensures Enabled(s, DeleteObsoleteFiles)
    ensures var s' := Apply(s, DeleteObsoleteFiles);
            && s'.process == s.process && s'.tabled == s.tabled && s'.disk.logs == LogsInUse(s.process.m)
            && s'.disk.tables.Keys == s.process.m.live
            && forall n :: n in s.process.m.live ==> n in s.disk.tables && s'.disk.tables[n] == s.disk.tables[n]
  {
    hide NumbersUpTo, LogsAscend, LogsFrom, LogsInUse, MemoryOk, ReplayOk, Entries, TableEntries;
  }

  // A switch hands the memtable over and starts an empty one with a log of its own.
  lemma SwitchesGoThrough(events: seq<Event>)
    requires Run(events).Some? && Run(events).value.process.Running?
    requires var m := Run(events).value.process.m; m.inFlight.Quiet? && m.imm.None?
    ensures Run(events + [SwitchMemTable]).Some? && Run(events + [SwitchMemTable]).value.process.Running?
    ensures var m, s' := Run(events).value.process.m, Run(events + [SwitchMemTable]).value;
            && s'.process.m.mem == [] && s'.process.m.imm == Some(m.mem) && s'.process.m.logFile > m.logFile
            && LogsFrom(s'.disk.logs, s'.process.m.logFile) == [Log(s'.process.m.logFile, [])]
  {
    OneMoreEvent(events, SwitchMemTable);
    RunsKeepInv(events);
    var s := Run(events).value;
    RunningLogs(s);
    hide Run, Inv, CreateLog, LogsFrom;
    NewLogIsEmpty(s.disk, s.process.m);
  }

  lemma RunningLogs(s: State)
    requires Inv(s) && s.process.Running?
    ensures LogsOk(s.disk, s.process.m) && LogsAscend(s.disk.logs)
  {
    hide LogsOk, LogsAscend, TablesOk, ReplayOk, MemoryOk, FlushOk, Replay;
  }

  lemma NewLogIsEmpty(d: Disk, m: Memory)
    requires LogsOk(d, m) && LogsAscend(d.logs)
    ensures m.logFile < m.nextFile
    ensures LogsFrom(CreateLog(d.logs, m.nextFile), m.nextFile) == [Log(m.nextFile, [])]
  {
    hide CreateLog, LogsFrom, LogsInUse;
    CreatedLog(d.logs, m.nextFile, m.nextFile);
  }

  // The stages of a flush, one after the other.
  lemma FlushStages(s: State)
    requires s.process.Running? && s.process.m.imm.Some? && s.process.m.flush.NotFlushing?
    ensures Enabled(s, WriteTable) && Enabled(Apply(s, WriteTable), PrepareEdit)
    ensures var s2 := Apply(Apply(s, WriteTable), PrepareEdit);
            && Enabled(s2, CommitEdit) && Enabled(Apply(s2, CommitEdit), InstallEdit)
            && var s', m := Apply(Apply(s2, CommitEdit), InstallEdit), s.process.m;
               && s'.process.Running? && s'.process.m.flush.NotFlushing? && s'.process.m.imm == None
               && s'.process.m.mem == m.mem && s'.process.m.logFile == m.logFile
               && s'.process.m.inFlight == m.inFlight && s'.tabled == s.tabled + m.imm.value
  {
    hide WriteRows, Written, FlushEdit;
  }

  // A flush goes through its stages undisturbed by what it does not touch: the waiting memtable's
  // rows are in the tables, the memtable is gone, and with the obsolete files deleted its log is too.
  lemma FlushesGoThrough(events: seq<Event>)
    requires Run(events).Some? && Run(events).value.process.Running?
    requires var m := Run(events).value.process.m; m.imm.Some? && m.flush.NotFlushing?
    ensures var after := events + [WriteTable] + [PrepareEdit] + [CommitEdit] + [InstallEdit];
            && Run(after).Some? && Run(after + [DeleteObsoleteFiles]).Some?
            && var s, s' := Run(events).value, Run(after + [DeleteObsoleteFiles]).value; var m := s.process.m;
               && s'.process.Running? && s'.process.m.imm == None && s'.process.m.flush.NotFlushing?
               && s'.process.m.mem == m.mem && s'.tabled == s.tabled + m.imm.value
               && TableEntries(s'.disk.tables, s'.process.m.live) == Entries(s.tabled + m.imm.value)
               && s'.disk.logs == [Log(m.logFile, m.mem + Unpublished(m.inFlight))]
               && s'.disk.tables.Keys == s'.process.m.live
  {
    var s := Run(events).value;
    FlushStages(s);
    hide *;
    var a, b := events + [WriteTable], events + [WriteTable] + [PrepareEdit];
    var c, after := b + [CommitEdit], b + [CommitEdit] + [InstallEdit];
    OneMoreEvent(events, WriteTable);
    OneMoreEvent(a, PrepareEdit);
    OneMoreEvent(b, CommitEdit);
    OneMoreEvent(c, InstallEdit);
    DeletedIsNotNeeded(after);
    RunsKeepInv(after + [DeleteObsoleteFiles]);
    RunningTables(Run(after + [DeleteObsoleteFiles]).value);
    OnlyCurrentLog(Run(after).value.process.m);
  }

  lemma OnlyCurrentLog(m: Memory)
    requires m.imm.None?
    ensures LogsInUse(m) == [Log(m.logFile, m.mem + Unpublished(m.inFlight))]
  {
  }

  lemma RunningTables(s: State)
    requires Inv(s) && s.process.Running? && s.process.m.flush.NotFlushing?
    ensures TableEntries(s.disk.tables, s.process.m.live) == Entries(s.tabled)
  {
    hide Entries, TableEntries, Replay, LogsOk, MemoryOk, ReplayOk;
  }

  // ----- recovery comes to an end -----

  // The records and ends of logs still to be read.
  function Remaining(todo: seq<Log>): nat {
    if todo == [] then 0 else |todo[0].batches| + 1 + Remaining(todo[1..])
  }

  function StepsLeft(p: Process): int {
    match p
    case Running(_) => 0
    case Recovering(r) => if r.newLog.Some? then 1 else if r.todo == [] then 2 else 2 + Remaining(r.todo) - r.pos
    case Down => -1
  }

  // The next step of a recovery that spills nothing early.
  function NextStep(r: Recovery): Event {
    if r.newLog.Some? then SaveManifest
    else if r.todo == [] then CreateNewLog
    else if r.pos < |r.todo[0].batches| then ReplayRecord(false)
    else EndLog
  }

  // What it makes of the recovery.
  lemma NextStepTaken(s: State)
    requires s.process.Recovering? && Enabled(s, NextStep(s.process.r))
    requires s.process.r.todo != [] ==> s.process.r.pos <= |s.process.r.todo[0].batches| && s.process.r.newLog.None?
    ensures var r, s' := s.process.r, Apply(s, NextStep(s.process.r));
            && s'.history == s.history
            && if r.newLog.Some? then s'.process.Running?
               else
                 && s'.process.Recovering?
                 && if r.todo == [] then s'.process.r.newLog.Some?
                    else
                      && s'.process.r.newLog.None?
                      && (s'.process.r.todo, s'.process.r.pos) ==
                           if r.pos < |r.todo[0].batches| then (r.todo, r.pos + 1) else (r.todo[1..], 0)
  {
    hide WriteRows, Written, CreateLog;
  }

  lemma NextStepIsEnabled(s: State)
    requires s.process.Recovering?
    requires s.process.r.todo != [] ==> s.process.r.pos <= |s.process.r.todo[0].batches|
    ensures Enabled(s, NextStep(s.process.r))
  {
  }

  lemma RecoveryStep(s: State)
    requires Inv(s) && s.process.Recovering?
    ensures Enabled(s, NextStep(s.process.r))
    ensures var s' := Apply(s, NextStep(s.process.r));
            && (if s.process.r.newLog.Some? then s'.process.Running? else s'.process.Recovering?)
            && 0 <= StepsLeft(s'.process) == StepsLeft(s.process) - 1 && s'.history == s.history
  {
    RecoveryShape(s);
    NextStepIsEnabled(s);
    NextStepTaken(s);
    hide Inv, Apply, Enabled, NextStep;
  }

  lemma RecoveryShape(s: State)
    requires Inv(s) && s.process.Recovering?
    ensures s.process.r.todo != [] ==> s.process.r.pos <= |s.process.r.todo[0].batches| && s.process.r.newLog.None?
  {
    hide DiskOk, FilesOk;
  }

  // From every state of every run that is recovering, the database can come up, with nothing lost.
  lemma {:induction false} RecoveryEnds(events: seq<Event>) returns (more: seq<Event>)
    requires Run(events).Some? && Run(events).value.process.Recovering?
    ensures Run(events + more).Some? && Run(events + more).value.process.Running?
    ensures Run(events + more).value.history == Run(events).value.history
    decreases StepsLeft(Run(events).value.process)
  {
    var s := Run(events).value;
    var e := NextStep(s.process.r);
    RunsKeepInv(events);
    RecoveryStep(s);
    hide *;
    OneMoreEvent(events, e);
    more := [e];
    if s.process.r.newLog.None? {
      var rest := RecoveryEnds(events + [e]);
      Regrouped(events, e, rest);
      more := [e] + rest;
    }
  }

  lemma Regrouped(events: seq<Event>, e: Event, rest: seq<Event>)
    ensures events + [e] + rest == events + ([e] + rest)
  {
  }

  // A crash may be followed by a recovery, at any time.
  lemma CrashesAreSurvived(events: seq<Event>) returns (more: seq<Event>)
    requires Run(events).Some?
    ensures Run(events + [Crash] + [ReadManifest] + more).Some?
    ensures Run(events + [Crash] + [ReadManifest] + more).value.process.Running?
    ensures Run(events + [Crash] + [ReadManifest] + more).value.history == Run(events + [Crash]).value.history
  {
    OneMoreEvent(events, Crash);
    OneMoreEvent(events + [Crash], ReadManifest);
    more := RecoveryEnds(events + [Crash] + [ReadManifest]);
  }
}
