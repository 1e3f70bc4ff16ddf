/** The writer queue: one leader logs for a group, in queue order (db/db_impl.cc: Write,
    BuildBatchGroup; db/write_batch.cc: Append, ByteSize). */
module GroupCommit {
  import opened Wrappers
  import opened WriteBatches

  const HEADER: nat := 12

  // A batch with the size of its encoding, header included.
  datatype RawBatch = Batch(ops: seq<Op>, size: nat)

  type Batch = b: RawBatch | b.size >= HEADER witness Batch([], HEADER)

  // A waiting writer. No batch means: only wait for the memtable to be compacted.
  datatype Request = Request(id: nat, batch: Option<Batch>, sync: bool)

  // ----- building a group -----

  function MaxSize(first: nat): nat {
    if first <= 0x2_0000 then first + 0x2_0000 else 0x10_0000
  }

  function SizeOf(r: Request): nat {
    if r.batch.Some? then r.batch.value.size else 0
  }

  function OpsOf(r: Request): seq<Op> {
    if r.batch.Some? then r.batch.value.ops else []
  }

  // The sizes the loop adds up, headers included.
  function TotalSize(q: seq<Request>): nat {
    if q == [] then 0 else TotalSize(q[..|q| - 1]) + SizeOf(q[|q| - 1])
  }

  function AllOps(q: seq<Request>): seq<Op> {
    if q == [] then [] else AllOps(q[..|q| - 1]) + OpsOf(q[|q| - 1])
  }

  // Whether the writer at `i` may still join the group of q[0].
  predicate Joins(q: seq<Request>, i: nat)
    requires 0 < i < |q|
  {
    && (q[i].sync ==> q[0].sync)
    && (q[i].batch.Some? ==> TotalSize(q[..i + 1]) <= MaxSize(SizeOf(q[0])))
  }

  // The group is the longest prefix of the queue in which every follower may join.
  ghost predicate IsGroup(q: seq<Request>, n: nat) {
    && 0 < n <= |q| && (forall i :: 0 < i < n ==> Joins(q, i)) && (n < |q| ==> !Joins(q, n))
  }

  // What WriteBatchInternal::Append leaves: one header, then all the contents.
  function GroupBytes(q: seq<Request>): nat {
    if q == [] then HEADER
    else GroupBytes(q[..|q| - 1]) + if q[|q| - 1].batch.Some? then q[|q| - 1].batch.value.size - HEADER else 0
  }

  lemma {:induction false} GroupIsSmaller(q: seq<Request>)
    requires q != [] && q[0].batch.Some?
    ensures GroupBytes(q) <= TotalSize(q)
  {
    if |q| > 1 {
      GroupIsSmaller(q[..|q| - 1]);
    } else {
      assert q[..0] == [];
    }
  }

  lemma {:induction false} TrailingNulls(q: seq<Request>, n: nat)
    requires 0 < n <= |q| && q[0].batch.Some? && forall i :: 0 < i < n ==> Joins(q, i)
    ensures TotalSize(q[..n]) <= if MaxSize(SizeOf(q[0])) < SizeOf(q[0]) then SizeOf(q[0]) else MaxSize(SizeOf(q[0]))
  {
    assert q[..n][..n - 1] == q[..n - 1];
    if n > 1 {
      TrailingNulls(q, n - 1);
      assert Joins(q, n - 1);
    } else {
      assert q[..0] == [];
    }
  }

  // One request more in the group's totals.
  lemma OneMore(q: seq<Request>, n: nat)
    requires n < |q|
    ensures TotalSize(q[..n + 1]) == TotalSize(q[..n]) + SizeOf(q[n])
    ensures AllOps(q[..n + 1]) == AllOps(q[..n]) + OpsOf(q[n])
  {
    assert q[..n + 1][..n] == q[..n];
  }

  lemma OnlyOne(q: seq<Request>)
    requires q != []
    ensures TotalSize(q[..1]) == SizeOf(q[0]) && AllOps(q[..1]) == OpsOf(q[0])
  {
    assert q[..1][..0] == [];
  }

  method BuildBatchGroup(q: seq<Request>) returns (n: nat, ops: seq<Op>)
    requires q != [] && q[0].batch.Some?
    ensures IsGroup(q, n) && ops == AllOps(q[..n])
    ensures GroupBytes(q[..n]) <= SizeOf(q[0])
            || GroupBytes(q[..n]) <= if SizeOf(q[0]) <= 128 * 1024 then SizeOf(q[0]) + 128 * 1024 else 1024 * 1024
    ensures n < |q| && !(q[n].sync && !q[0].sync) ==>
              TotalSize(q[..n + 1]) > if SizeOf(q[0]) <= 128 * 1024 then SizeOf(q[0]) + 128 * 1024 else 1024 * 1024
  {
    hide TotalSize, AllOps, GroupBytes;
    var size := q[0].batch.value.size;
    var maxSize := if size <= 0x2_0000 then size + 0x2_0000 else 0x10_0000;
    ops := q[0].batch.value.ops;
    n := 1;
    OnlyOne(q);
    while n < |q|
      invariant 0 < n <= |q| && maxSize == MaxSize(SizeOf(q[0]))
      invariant size == TotalSize(q[..n]) && ops == AllOps(q[..n])
      invariant forall i :: 0 < i < n ==> Joins(q, i)
    {
      var w := q[n];
      OneMore(q, n);
      if w.sync && !q[0].sync {
        break;
      }
      if w.batch.Some? {
        if size + w.batch.value.size > maxSize {
          break;
        }
        size := size + w.batch.value.size;
        ops := ops + w.batch.value.ops;
      }
      assert Joins(q, n);
      n := n + 1;
    }
    GroupFits(q, n);
  }

  lemma GroupFits(q: seq<Request>, n: nat)
    requires 0 < n <= |q| && q[0].batch.Some? && forall i :: 0 < i < n ==> Joins(q, i)
    ensures GroupBytes(q[..n]) <= SizeOf(q[0]) || GroupBytes(q[..n]) <= MaxSize(SizeOf(q[0]))
  {
    TrailingNulls(q, n);
    GroupIsSmaller(q[..n]);
  }

  // ----- the queue as a state machine -----

  datatype Status = Ok | Failed

  // What became of the group's log append.
  datatype Outcome = Logged | AppendFailed | SyncFailed

  datatype Record = Record(first: nat, ops: seq<Op>, synced: bool)

  datatype Phase =
    | Waiting
    | Writing(n: nat)
    | Written(n: nat, outcome: Outcome)

  // One answered writer: who led its group, with which result.
  datatype Answer = Answer(request: Request, group: nat, status: Status, logged: bool, synced: bool)

  datatype State = State(queue: seq<Request>, phase: Phase, lastSequence: nat, log: seq<Record>,
                         groups: nat, arrived: seq<Request>, answers: seq<Answer>, backgroundError: bool)

  datatype Event = Arrive(request: Request) | Lead(room: bool, n: nat) | WriteLog(outcome: Outcome) | Publish

  function Start(last: nat): State {
    State([], Waiting, last, [], 0, [], [], false)
  }

  ghost predicate Enabled(s: State, e: Event) {
    match e
    case Arrive(_) => true
    case Lead(room, n) =>
      s.phase.Waiting? && s.queue != [] && (s.backgroundError ==> !room)
          && (if room && s.queue[0].batch.Some? then IsGroup(s.queue, n) else n == 1)
    case WriteLog(outcome) => s.phase.Writing? && 0 < s.phase.n <= |s.queue|
        && (outcome.SyncFailed? ==> s.queue[0].sync)
    case Publish => s.phase.Written? && 0 < s.phase.n <= |s.queue|
  }

  function AnswerAll(group: seq<Request>, number: nat, status: Status, logged: bool, synced: bool): seq<Answer> {
    seq(|group|, i requires 0 <= i < |group| => Answer(group[i], number, status, logged, synced))
  }

  // The first `n` writers leave the queue with the same answer.
  function Answered(s: State, n: nat, status: Status, logged: bool, synced: bool): State
    requires n <= |s.queue|
  {
    s.(queue := s.queue[n..], phase := Waiting, groups := s.groups + 1,
       answers := s.answers + AnswerAll(s.queue[..n], s.groups, status, logged, synced))
  }

  ghost function Apply(s: State, e: Event): State
    requires Enabled(s, e)
  {
    match e
    case Arrive(r) => s.(queue := s.queue + [r], arrived := s.arrived + [r])
    case Lead(room, n) =>
      if room && s.queue[0].batch.Some? then s.(phase := Writing(n))
      else Answered(s, 1, if room then Ok else Failed, false, false)
    case WriteLog(outcome) =>
      var group := s.queue[..s.phase.n];
      var record := Record(s.lastSequence + 1, AllOps(group), s.queue[0].sync && outcome.Logged?);
      s.(phase := Written(s.phase.n, outcome),
         log := if outcome.AppendFailed? then s.log else s.log + [record])
    case Publish =>
      var n, outcome := s.phase.n, s.phase.outcome;
      Answered(s, n, if outcome.Logged? then Ok else Failed, !outcome.AppendFailed?, s.queue[0].sync && outcome.Logged?)
        .(lastSequence := s.lastSequence + |AllOps(s.queue[..n])|,
          backgroundError := s.backgroundError || outcome.SyncFailed?)
  }

  // ----- invariants -----

  function Requests(answers: seq<Answer>): seq<Request> {
    seq(|answers|, i requires 0 <= i < |answers| => answers[i].request)
  }

  function LoggedOps(answers: seq<Answer>): seq<Op> {
    if answers == [] then []
    else
      var a := answers[|answers| - 1];
      LoggedOps(answers[..|answers| - 1]) + if a.logged then OpsOf(a.request) else []
  }

  function RecordedOps(log: seq<Record>): seq<Op> {
    if log == [] then [] else RecordedOps(log[..|log| - 1]) + log[|log| - 1].ops
  }

  // Intervals of sequence numbers follow one another and stay below `next`.
  ghost predicate Ascending(log: seq<Record>, next: nat) {
    && (forall i, j :: 0 <= i < j < |log| ==> log[i].first + |log[i].ops| <= log[j].first)
    && (forall i :: 0 <= i < |log| ==> log[i].first + |log[i].ops| <= next)
  }

  // The records the answered writers know of, and the group being written.
  function Settled(s: State): seq<Record> {
    if s.phase.Written? && !s.phase.outcome.AppendFailed? && s.log != [] then s.log[..|s.log| - 1] else s.log
  }

  ghost predicate PhaseOk(s: State) {
    && (!s.phase.Waiting? ==> 0 < s.phase.n <= |s.queue| && s.queue[0].batch.Some?
                              && forall i :: 0 < i < s.phase.n ==> Joins(s.queue, i))
    && (s.phase.Written? && !s.phase.outcome.AppendFailed? ==>
          && s.log != []
          && s.log[|s.log| - 1] == Record(s.lastSequence + 1, AllOps(s.queue[..s.phase.n]),
                                          s.queue[0].sync && s.phase.outcome.Logged?))
  }

  ghost predicate AnswersOk(answers: seq<Answer>, groups: nat) {
    && (forall i :: 0 <= i < |answers| ==> answers[i].group < groups)
    && (forall i, j :: 0 <= i < |answers| && 0 <= j < |answers| && answers[i].group == answers[j].group ==>
          answers[i].status == answers[j].status)
    && (forall i :: 0 <= i < |answers| ==> AnswerOk(answers[i]))
  }

  // A write told OK is in the log, and on disk if it asked for that.
  ghost predicate AnswerOk(a: Answer) {
    a.status.Ok? && a.request.batch.Some? ==> a.logged && (a.request.sync ==> a.synced)
  }

  ghost predicate Inv(s: State) {
    && s.arrived == Requests(s.answers) + s.queue
    && PhaseOk(s) && AnswersOk(s.answers, s.groups)
    && RecordedOps(Settled(s)) == LoggedOps(s.answers)
    && Ascending(Settled(s), s.lastSequence + 1)
    && (s.backgroundError ==> s.phase.Waiting?)
  }

  // ----- proofs -----

  lemma RequestsJoin(a: seq<Answer>, b: seq<Answer>)
    ensures Requests(a + b) == Requests(a) + Requests(b)
  {
  }

  lemma {:induction false} LoggedJoin(answers: seq<Answer>, group: seq<Request>, number: nat, status: Status,
                                      logged: bool, synced: bool)
    ensures LoggedOps(answers + AnswerAll(group, number, status, logged, synced)) ==
            LoggedOps(answers) + if logged then AllOps(group) else []
  {
    var more := AnswerAll(group, number, status, logged, synced);
    if group == [] {
      assert answers + more == answers;
    } else {
      var n := |group| - 1;
      var front := AnswerAll(group[..n], number, status, logged, synced);
      assert more == front + [Answer(group[n], number, status, logged, synced)];
      assert (answers + more)[..|answers + more| - 1] == answers + front;
      LoggedJoin(answers, group[..n], number, status, logged, synced);
      var a, b, c := LoggedOps(answers), AllOps(group[..n]), OpsOf(group[n]);
      assert a + (b + c) == a + b + c;
    }
  }

  lemma GroupKeepsArriving(s: State, r: Request)
    requires PhaseOk(s)
    ensures PhaseOk(s.(queue := s.queue + [r], arrived := s.arrived + [r]))
  {
    if !s.phase.Waiting? {
      var q, q' := s.queue, s.queue + [r];
      assert q'[..s.phase.n] == q[..s.phase.n];
      forall i | 0 < i < s.phase.n ensures Joins(q', i) {
        assert Joins(q, i) && q'[..i + 1] == q[..i + 1];
      }
    }
  }

  lemma AnsweredAlike(s: State, n: nat, status: Status, logged: bool, synced: bool)
    requires AnswersOk(s.answers, s.groups) && n <= |s.queue|
    requires forall i :: 0 <= i < n ==> AnswerOk(Answer(s.queue[i], s.groups, status, logged, synced))
    ensures AnswersOk(s.answers + AnswerAll(s.queue[..n], s.groups, status, logged, synced), s.groups + 1)
  {
    var old', more := s.answers, AnswerAll(s.queue[..n], s.groups, status, logged, synced);
    assert forall i :: 0 <= i < |more| ==> more[i] == Answer(s.queue[i], s.groups, status, logged, synced);
    assert forall i :: 0 <= i < |old' + more| ==> (old' + more)[i] == if i < |old'| then old'[i] else more[i - |old'|];
  }

  lemma ArrivedSplit(s: State, n: nat, status: Status, logged: bool, synced: bool)
    requires s.arrived == Requests(s.answers) + s.queue && n <= |s.queue|
    ensures var s' := Answered(s, n, status, logged, synced); s'.arrived == Requests(s'.answers) + s'.queue
  {
    var more := AnswerAll(s.queue[..n], s.groups, status, logged, synced);
    RequestsJoin(s.answers, more);
    assert Requests(more) == s.queue[..n];
    assert s.queue == s.queue[..n] + s.queue[n..];
  }

  lemma WriteKeeps(s: State, outcome: Outcome)
    requires Inv(s) && Enabled(s, WriteLog(outcome))
    ensures Inv(Apply(s, WriteLog(outcome)))
  {
    hide AnswersOk, Ascending, AllOps, RecordedOps, LoggedOps, Requests, Joins;
    var s' := Apply(s, WriteLog(outcome));
    assert !outcome.AppendFailed? ==> s'.log[..|s'.log| - 1] == s.log;
    assert Settled(s') == s.log;
  }

  // With the group answered, its record is settled.
  lemma PublishedLog(s: State)
    requires PhaseOk(s) && s.phase.Written? && Ascending(Settled(s), s.lastSequence + 1)
    ensures var next := s.lastSequence + 1 + |AllOps(s.queue[..s.phase.n])|;
            && Ascending(s.log, next)
            && RecordedOps(s.log) ==
                 RecordedOps(Settled(s)) + if s.phase.outcome.AppendFailed? then [] else AllOps(s.queue[..s.phase.n])
  {
    if !s.phase.outcome.AppendFailed? {
      assert s.log == Settled(s) + [s.log[|s.log| - 1]];
    }
  }

  lemma AnsweredState(s: State, n: nat, status: Status, logged: bool, synced: bool)
    requires AnswersOk(s.answers, s.groups) && s.arrived == Requests(s.answers) + s.queue && n <= |s.queue|
    requires forall i :: 0 <= i < n ==> AnswerOk(Answer(s.queue[i], s.groups, status, logged, synced))
    ensures var s' := Answered(s, n, status, logged, synced);
            && s'.arrived == Requests(s'.answers) + s'.queue && AnswersOk(s'.answers, s'.groups)
            && LoggedOps(s'.answers) == LoggedOps(s.answers) + if logged then AllOps(s.queue[..n]) else []
  {
    AnsweredAlike(s, n, status, logged, synced);
    ArrivedSplit(s, n, status, logged, synced);
    LoggedJoin(s.answers, s.queue[..n], s.groups, status, logged, synced);
    hide AnswersOk, LoggedOps, AllOps, AnswerAll;
  }

  // The leader's outcome is an honest answer for everyone in its group.
  lemma OutcomeIsHonest(s: State, status: Status, logged: bool, synced: bool)
    requires PhaseOk(s) && s.phase.Written?
    requires status == (if s.phase.outcome.Logged? then Ok else Failed) && logged == !s.phase.outcome.AppendFailed?
    requires synced == (s.queue[0].sync && s.phase.outcome.Logged?)
    ensures forall i :: 0 <= i < s.phase.n ==> AnswerOk(Answer(s.queue[i], s.groups, status, logged, synced))
  {
    forall i | 0 <= i < s.phase.n ensures AnswerOk(Answer(s.queue[i], s.groups, status, logged, synced)) {
      assert i > 0 ==> Joins(s.queue, i);
    }
  }

  lemma PublishKeeps(s: State)
    requires Inv(s) && Enabled(s, Publish)
    ensures Inv(Apply(s, Publish))
  {
    hide AnswersOk, Ascending, AllOps, RecordedOps, LoggedOps, AnswerAll, Requests, AnswerOk, Joins, IsGroup;
    var n, outcome := s.phase.n, s.phase.outcome;
    var status := if outcome.Logged? then Ok else Failed;
    var logged, synced := !outcome.AppendFailed?, s.queue[0].sync && outcome.Logged?;
    OutcomeIsHonest(s, status, logged, synced);
    PublishedLog(s);
    AnsweredState(s, n, status, logged, synced);
  }

  lemma LeadKeeps(s: State, room: bool, n: nat)
    requires Inv(s) && Enabled(s, Lead(room, n))
    ensures Inv(Apply(s, Lead(room, n)))
  {
    hide AnswersOk, Ascending, AllOps, RecordedOps, LoggedOps, AnswerAll, Requests;
    if room && s.queue[0].batch.Some? {
      assert PhaseOk(Apply(s, Lead(room, n)));
    } else {
      AnsweredState(s, 1, if room then Ok else Failed, false, false);
      assert LoggedOps(s.answers) + [] == LoggedOps(s.answers);
    }
  }

  lemma StepKeepsInv(s: State, e: Event)
    requires Inv(s) && Enabled(s, e)
    ensures Inv(Apply(s, e))
  {
    hide AnswersOk, Ascending, AllOps, RecordedOps, LoggedOps, Requests, Joins, IsGroup, AnswerAll;
    match e
    case Arrive(r) => GroupKeepsArriving(s, r);
    case Lead(room, n) => LeadKeeps(s, room, n);
    case WriteLog(outcome) => WriteKeeps(s, outcome);
    case Publish => PublishKeeps(s);
  }

  ghost function Run(events: seq<Event>, last: nat): Option<State> {
    if events == [] then Some(Start(last))
    else
      var before := Run(events[..|events| - 1], last);
      var e := events[|events| - 1];
      if before.Some? && Enabled(before.value, e) then Some(Apply(before.value, e)) else None
  }

  lemma {:induction false} RunsKeepInv(events: seq<Event>, last: nat)
    requires Run(events, last).Some?
    ensures Inv(Run(events, last).value)
  {
    if events != [] {
      var front := events[..|events| - 1];
      RunsKeepInv(front, last);
      StepKeepsInv(Run(front, last).value, events[|events| - 1]);
    }
  }

  // ----- what that means -----

  lemma {:induction false} LoggedAreAll(answers: seq<Answer>)
    requires forall i :: 0 <= i < |answers| ==> answers[i].status.Ok? && AnswerOk(answers[i])
    ensures LoggedOps(answers) == AllOps(Requests(answers))
  {
    if answers != [] {
      var n := |answers| - 1;
      LoggedAreAll(answers[..n]);
      assert Requests(answers)[..n] == Requests(answers[..n]);
      assert AnswerOk(answers[n]);
      assert Requests(answers)[n] == answers[n].request;
    }
  }

  // Between two groups, if every writer so far was told OK, the log is the concatenation of the
  // batches of all writers answered, in the order they arrived, each exactly once.
  lemma LogIsTheQueueInOrder(events: seq<Event>, last: nat)
    requires Run(events, last).Some?
    requires Run(events, last).value.phase.Waiting?
    requires forall a :: a in Run(events, last).value.answers ==> a.status.Ok?
    ensures var s := Run(events, last).value;
            && |s.answers| <= |s.arrived| && RecordedOps(s.log) == AllOps(s.arrived[..|s.answers|])
            && s.arrived[|s.answers|..] == s.queue
  {
    RunsKeepInv(events, last);
    var s := Run(events, last).value;
    hide Run;
    forall i | 0 <= i < |s.answers| ensures s.answers[i].status.Ok? && AnswerOk(s.answers[i]) {
      assert s.answers[i] in s.answers;
    }
    LoggedAreAll(s.answers);
    assert s.arrived[..|s.answers|] == Requests(s.answers);
  }

  // A published last sequence never falls inside a logged group; groups never overlap.
  lemma PublishedSequenceSplitsNoGroup(events: seq<Event>, last: nat, i: nat)
    requires Run(events, last).Some? && i < |Run(events, last).value.log|
    ensures var s := Run(events, last).value;
            && (s.log[i].first + |s.log[i].ops| <= s.lastSequence + 1 || s.log[i].first == s.lastSequence + 1)
            && forall j :: 0 <= j < i ==> s.log[j].first + |s.log[j].ops| <= s.log[i].first
  {
    RunsKeepInv(events, last);
    var s := Run(events, last).value;
    hide Run, AnswersOk, AllOps, RecordedOps, LoggedOps, Requests, Joins;
    assert i < |Settled(s)| ==> Settled(s)[i] == s.log[i];
    forall j | 0 <= j < i ensures s.log[j].first + |s.log[j].ops| <= s.log[i].first {
      assert Settled(s)[j] == s.log[j];
    }
  }

  // ----- sequence numbers without a gap -----

  // The records number their operations from `from` on, one record right behind the other, up to
  // but not including `next`.
  ghost predicate Consecutive(log: seq<Record>, from: nat, next: nat) {
    && (if log == [] then from == next else log[0].first == from && End(log[|log| - 1]) == next)
    && forall i :: 0 < i < |log| ==> log[i].first == End(log[i - 1])
  }

  function End(r: Record): nat {
    r.first + |r.ops|
  }

  // The sequence numbers a step uses up without anything in the log to show for them: those of a
  // group whose append failed.
  ghost function LostBy(s: State, e: Event): nat
    requires Enabled(s, e)
  {
    if e.Publish? && s.phase.outcome.AppendFailed? then |AllOps(s.queue[..s.phase.n])| else 0
  }

  ghost function Lost(events: seq<Event>, last: nat): nat
    requires Run(events, last).Some?
  {
    if events == [] then 0
    else
      Lost(events[..|events| - 1], last) + LostBy(Run(events[..|events| - 1], last).value, events[|events| - 1])
  }

  ghost predicate NoAppendFails(events: seq<Event>) {
    forall i :: 0 <= i < |events| ==> events[i] != WriteLog(AppendFailed)
  }

  lemma SettledStep(s: State, e: Event)
    requires PhaseOk(s) && Enabled(s, e)
    ensures || (Settled(Apply(s, e)) == Settled(s) && Apply(s, e).lastSequence == s.lastSequence + LostBy(s, e))
            || (s.log != [] && s.log[|s.log| - 1].first == s.lastSequence + 1 && LostBy(s, e) == 0
                && Settled(Apply(s, e)) == Settled(s) + [s.log[|s.log| - 1]]
                && Apply(s, e).lastSequence == s.lastSequence + |s.log[|s.log| - 1].ops|)
  {
    hide AllOps, IsGroup, Joins, AnswerAll;
    var s' := Apply(s, e);
    if e.WriteLog? {
      assert !e.outcome.AppendFailed? ==> s'.log[..|s'.log| - 1] == s.log;
    } else if e.Publish? && !s.phase.outcome.AppendFailed? {
      assert s.log == Settled(s) + [s.log[|s.log| - 1]];
    }
  }

  lemma ConsecutiveGrows(log: seq<Record>, from: nat, next: nat, r: Record)
    requires Consecutive(log, from, next) && r.first == next
    ensures Consecutive(log + [r], from, End(r))
  {
  }

  lemma {:induction false} ConsecutiveCounts(log: seq<Record>, from: nat, next: nat)
    requires Consecutive(log, from, next)
    ensures next == from + |RecordedOps(log)|
  {
    if log != [] {
      var front := log[..|log| - 1];
      assert front != [] ==> log[|log| - 1].first == End(front[|front| - 1]);
      ConsecutiveCounts(front, from, log[|log| - 1].first);
    }
  }

  // Every sequence number handed out is in the log or was lost with a failed append.
  ghost predicate Accounted(settled: seq<Record>, lastSequence: nat, last: nat, lost: nat) {
    && lastSequence == last + |RecordedOps(settled)| + lost
    && (lost == 0 ==> Consecutive(settled, last + 1, lastSequence + 1))
  }

  lemma AccountedGrows(settled: seq<Record>, lastSequence: nat, last: nat, lost: nat, r: Record)
    requires Accounted(settled, lastSequence, last, lost) && r.first == lastSequence + 1
    ensures Accounted(settled + [r], lastSequence + |r.ops|, last, lost)
  {
    assert (settled + [r])[..|settled|] == settled;
    if lost == 0 {
      ConsecutiveGrows(settled, last + 1, lastSequence + 1, r);
    }
  }

  lemma AccountedLoses(settled: seq<Record>, lastSequence: nat, last: nat, lost: nat, more: nat)
    requires Accounted(settled, lastSequence, last, lost)
    ensures Accounted(settled, lastSequence + more, last, lost + more)
  {
    hide RecordedOps, Consecutive;
  }

  lemma AccountedStep(s: State, e: Event, last: nat, lost: nat)
    requires PhaseOk(s) && Enabled(s, e) && Accounted(Settled(s), s.lastSequence, last, lost)
    ensures Accounted(Settled(Apply(s, e)), Apply(s, e).lastSequence, last, lost + LostBy(s, e))
  {
    hide *;
    SettledStep(s, e);
    if Settled(Apply(s, e)) == Settled(s) && Apply(s, e).lastSequence == s.lastSequence + LostBy(s, e) {
      AccountedLoses(Settled(s), s.lastSequence, last, lost, LostBy(s, e));
    } else {
      AccountedGrows(Settled(s), s.lastSequence, last, lost, s.log[|s.log| - 1]);
    }
  }

  // Unrolling the last step of a run.
  lemma LastStep(events: seq<Event>, last: nat)
    requires Run(events, last).Some? && events != []
    ensures Run(events[..|events| - 1], last).Some?
    ensures var s, e := Run(events[..|events| - 1], last).value, events[|events| - 1];
            && Enabled(s, e) && Run(events, last) == Some(Apply(s, e))
            && Lost(events, last) == Lost(events[..|events| - 1], last) + LostBy(s, e)
  {
    hide Apply, Enabled, LostBy;
  }

  lemma NothingYet(last: nat)
    ensures Run([], last) == Some(Start(last)) && Lost([], last) == 0
    ensures Accounted(Settled(Start(last)), Start(last).lastSequence, last, 0)
  {
  }

  lemma InvHasPhase(s: State)
    requires Inv(s)
    ensures PhaseOk(s)
  {
  }

  lemma {:induction false} SequencesAreAccountedFor(events: seq<Event>, last: nat)
    requires Run(events, last).Some?
    ensures var s := Run(events, last).value; Accounted(Settled(s), s.lastSequence, last, Lost(events, last))
  {
    hide *;
    if events == [] {
      NothingYet(last);
    } else {
      var front := events[..|events| - 1];
      LastStep(events, last);
      SequencesAreAccountedFor(front, last);
      RunsKeepInv(front, last);
      InvHasPhase(Run(front, last).value);
      AccountedStep(Run(front, last).value, events[|events| - 1], last, Lost(front, last));
    }
  }

  // The log numbers its operations consecutively up to the published last sequence exactly when
  // no append of a group with operations in it has failed.
  lemma SequencesAreConsecutive(events: seq<Event>, last: nat)
    requires Run(events, last).Some?
    ensures var s := Run(events, last).value;
            Consecutive(Settled(s), last + 1, s.lastSequence + 1) <==> Lost(events, last) == 0
  {
    hide *;
    SequencesAreAccountedFor(events, last);
    GaplessIfNothingLost(Settled(Run(events, last).value), Run(events, last).value.lastSequence, last,
        Lost(events, last));
  }

  lemma GaplessIfNothingLost(settled: seq<Record>, lastSequence: nat, last: nat, lost: nat)
    requires Accounted(settled, lastSequence, last, lost)
    ensures Consecutive(settled, last + 1, lastSequence + 1) <==> lost == 0
  {
    if Consecutive(settled, last + 1, lastSequence + 1) {
      ConsecutiveCounts(settled, last + 1, lastSequence + 1);
    }
    hide RecordedOps, Consecutive;
  }

  // One more event behind a run.
  lemma Extend(front: seq<Event>, e: Event, last: nat)
    requires Run(front, last).Some? && Enabled(Run(front, last).value, e)
    ensures var s := Run(front, last).value;
            && Run(front + [e], last) == Some(Apply(s, e))
            && Lost(front + [e], last) == Lost(front, last) + LostBy(s, e)
  {
    hide Apply, Enabled, LostBy;
    assert (front + [e])[..|front|] == front;
  }

  // A single write whose append fails: its numbers are published and the log carries none of them.
  lemma FailedAppendLeavesAGap(r: Request, last: nat)
    requires r.batch.Some? && r.batch.value.ops != []
    ensures var events := [Arrive(r)] + [Lead(true, 1)] + [WriteLog(AppendFailed)] + [Publish];
            && Run(events, last).Some? && Lost(events, last) == |r.batch.value.ops|
            && Run(events, last).value.log == []
            && Run(events, last).value.lastSequence == last + |r.batch.value.ops|
            && !Consecutive([], last + 1, Run(events, last).value.lastSequence + 1)
  {
    hide Run, Lost, AllOps;
    var arrive, lead := [Arrive(r)], [Arrive(r)] + [Lead(true, 1)];
    NothingYet(last);
    assert [] + [Arrive(r)] == arrive;
    Extend([], Arrive(r), last);
    var queued := Run(arrive, last).value;
    assert queued.queue == [r];
    Extend(arrive, Lead(true, 1), last);
    Extend(lead, WriteLog(AppendFailed), last);
    assert queued.queue[..1] == [r] && [r][..1] == [r];
    OnlyOne([r]);
    Extend(lead + [WriteLog(AppendFailed)], Publish, last);
  }

  // An append that never failed never loses a number.
  lemma {:induction false} NothingIsLost(events: seq<Event>, last: nat)
    requires Run(events, last).Some? && NoAppendFails(events)
    ensures Lost(events, last) == 0
    ensures Run(events, last).value.phase.Written? ==> !Run(events, last).value.phase.outcome.AppendFailed?
  {
    if events != [] {
      NothingIsLost(events[..|events| - 1], last);
    }
  }

  // Absent I/O errors the log is gapless: from the first record after `last`, each record starts
  // where the one before ends, and the last one ends at the published last sequence.
  lemma WithoutErrorsSequencesAreConsecutive(events: seq<Event>, last: nat)
    requires Run(events, last).Some? && NoAppendFails(events)
    ensures var s := Run(events, last).value; Consecutive(Settled(s), last + 1, s.lastSequence + 1)
  {
    hide *;
    NothingIsLost(events, last);
    SequencesAreConsecutive(events, last);
  }

  // Everyone in a group gets the leader's answer; a write told OK was logged, and synced to disk if
  // its writer asked for that.
  lemma AnswersAreHonest(events: seq<Event>, last: nat, a: Answer, b: Answer)
    requires Run(events, last).Some? && a in Run(events, last).value.answers && b in Run(events, last).value.answers
    ensures a.group == b.group ==> a.status == b.status
    ensures a.status.Ok? && a.request.batch.Some? ==> a.logged && (a.request.sync ==> a.synced)
  {
    RunsKeepInv(events, last);
    var s := Run(events, last).value;
    var i, j :| 0 <= i < |s.answers| && 0 <= j < |s.answers| && s.answers[i] == a && s.answers[j] == b;
    assert AnswerOk(s.answers[i]);
  }

  // After a failed sync nothing is logged any more and every answer is a failure.
  lemma FailedSyncStopsTheLog(events: seq<Event>, last: nat, e: Event)
    requires Run(events, last).Some? && Run(events, last).value.backgroundError && Enabled(Run(events, last).value, e)
    ensures var s := Run(events, last).value;
            && Apply(s, e).log == s.log && Apply(s, e).backgroundError
            && forall i :: |s.answers| <= i < |Apply(s, e).answers| ==> Apply(s, e).answers[i].status.Failed?
  {
    RunsKeepInv(events, last);
  }
}
