/** What the writers of the queue are told, measured by the outcomes of the log alone
    (db/db_impl.cc: Write). */
module GroupAnswers {
  import opened Wrappers
  import opened GroupCommit

  // ----- what there is to tell -----

  // What became of the last append.
  function LastOutcome(events: seq<Event>): Option<Outcome> {
    if events == [] then None
    else if events[|events| - 1].WriteLog? then Some(events[|events| - 1].outcome)
    else LastOutcome(events[..|events| - 1])
  }

  // A group is told Ok if its append - and its sync, if it had one - went well; a writer that only
  // waits for room, if there was room.
  ghost function VerdictOf(s: State, e: Event, outcome: Option<Outcome>): seq<Status> {
    match e
    case Lead(room, _) =>
      if s.queue != [] && room && s.queue[0].batch.Some? then [] else [if room then Ok else Failed]
    case Publish => [if outcome == Some(Logged) then Ok else Failed]
    case _ => []
  }

  // One verdict for each group, in order.
  ghost function Verdicts(events: seq<Event>, last: nat): seq<Status>
    requires Run(events, last).Some?
  {
    if events == [] then []
    else
      var front := events[..|events| - 1];
      Verdicts(front, last) + VerdictOf(Run(front, last).value, events[|events| - 1], LastOutcome(front))
  }

  // ----- every answer is the verdict on its group -----

  ghost predicate Told(answers: seq<Answer>, verdicts: seq<Status>) {
    forall a :: a in answers ==> a.group < |verdicts| && a.status == verdicts[a.group]
  }

  lemma ToldMore(answers: seq<Answer>, group: seq<Request>, verdicts: seq<Status>, status: Status, logged: bool,
                 synced: bool)
    requires Told(answers, verdicts)
    ensures Told(answers + AnswerAll(group, |verdicts|, status, logged, synced), verdicts + [status])
  {
  }

  ghost predicate OutcomeKnown(s: State, outcome: Option<Outcome>) {
    s.phase.Written? ==> outcome == Some(s.phase.outcome)
  }

  lemma StepTells(s: State, e: Event, verdicts: seq<Status>, outcome: Option<Outcome>)
    requires Enabled(s, e) && Told(s.answers, verdicts) && s.groups == |verdicts| && OutcomeKnown(s, outcome)
    ensures var s', verdicts' := Apply(s, e), verdicts + VerdictOf(s, e, outcome);
            && Told(s'.answers, verdicts') && s'.groups == |verdicts'|
            && OutcomeKnown(s', if e.WriteLog? then Some(e.outcome) else outcome)
  {
    hide IsGroup, AllOps;
    match e
    case Lead(room, n) =>
      if !(room && s.queue[0].batch.Some?) {
        ToldMore(s.answers, s.queue[..1], verdicts, if room then Ok else Failed, false, false);
      } else {
        assert verdicts + [] == verdicts;
      }
    case Publish =>
      var o := s.phase.outcome;
      ToldMore(s.answers, s.queue[..s.phase.n], verdicts, if o.Logged? then Ok else Failed, !o.AppendFailed?,
        s.queue[0].sync && o.Logged?);
    case _ => assert verdicts + [] == verdicts;
  }

  // In every run each answer is the verdict on its group: the members of a group whose append and
  // sync went well are told Ok, all others are told of the failure.
  lemma {:induction false} AnswersAreTheVerdict(events: seq<Event>, last: nat)
    requires Run(events, last).Some?
    ensures var s := Run(events, last).value;
            && Told(s.answers, Verdicts(events, last)) && s.groups == |Verdicts(events, last)|
            && OutcomeKnown(s, LastOutcome(events))
  {
    if events != [] {
      var front, e := events[..|events| - 1], events[|events| - 1];
      AnswersAreTheVerdict(front, last);
      hide Apply, Enabled, Told, OutcomeKnown, VerdictOf;
      StepTells(Run(front, last).value, e, Verdicts(front, last), LastOutcome(front));
    }
  }

  // ----- runs without errors -----

  // Nothing fails: there is room, every append goes through, every sync too.
  ghost predicate NothingFails(events: seq<Event>) {
    forall i :: 0 <= i < |events| ==>
      match events[i]
      case Lead(room, _) => room
      case WriteLog(outcome) => outcome.Logged?
      case _ => true
  }

  lemma {:induction false} GoodOutcomes(events: seq<Event>)
    requires NothingFails(events)
    ensures LastOutcome(events).Some? ==> LastOutcome(events).value.Logged?
  {
    if events != [] {
      GoodOutcomes(events[..|events| - 1]);
    }
  }

  lemma {:induction false} GoodVerdicts(events: seq<Event>, last: nat)
    requires Run(events, last).Some? && NothingFails(events)
    ensures forall v :: v in Verdicts(events, last) ==> v.Ok?
  {
    if events != [] {
      var front, e := events[..|events| - 1], events[|events| - 1];
      GoodVerdicts(front, last);
      GoodOutcomes(front);
      AnswersAreTheVerdict(front, last);
      assert Run(front, last).Some? && Enabled(Run(front, last).value, e);
      hide Run, NothingFails;
    }
  }

  // If nothing fails, every writer answered is told Ok, and between two groups the log is the batches
  // of all writers answered, in the order they arrived, each exactly once.
  lemma LogIsTheQueue(events: seq<Event>, last: nat)
    requires Run(events, last).Some? && NothingFails(events)
    ensures var s := Run(events, last).value;
            && (forall a :: a in s.answers ==> a.status.Ok?)
            && (s.phase.Waiting? ==>
                  && |s.answers| <= |s.arrived| && RecordedOps(s.log) == AllOps(s.arrived[..|s.answers|])
                  && s.arrived[|s.answers|..] == s.queue)
  {
    AnswersAreTheVerdict(events, last);
    GoodVerdicts(events, last);
    var s := Run(events, last).value;
    hide Run;
    forall a | a in s.answers ensures a.status.Ok? {
      assert Verdicts(events, last)[a.group] in Verdicts(events, last);
    }
    if s.phase.Waiting? {
      LogIsTheQueueInOrder(events, last);
    }
  }

  // ----- a failed sync -----

  ghost predicate SyncHasFailed(events: seq<Event>) {
    exists i :: 0 <= i < |events| && events[i] == WriteLog(SyncFailed)
  }

  // Once a sync has failed the group at hand is the last one logged.
  lemma {:induction false} FailedSyncIsKnown(events: seq<Event>, last: nat)
    requires Run(events, last).Some? && SyncHasFailed(events)
    ensures var s := Run(events, last).value; s.backgroundError || (s.phase.Written? && s.phase.outcome.SyncFailed?)
    ensures Run(events, last).value.backgroundError ==> Run(events, last).value.phase.Waiting?
  {
    RunsKeepInv(events, last);
    var front, e := events[..|events| - 1], events[|events| - 1];
    var i :| 0 <= i < |events| && events[i] == WriteLog(SyncFailed);
    if i < |front| {
      assert front[i] == WriteLog(SyncFailed);
      FailedSyncIsKnown(front, last);
    }
    hide Inv, IsGroup, AllOps, AnswerAll;
  }

  // In no run is anything logged after a sync that failed, and every group from that one on is told
  // of a failure.
  lemma NothingIsLoggedAfterwards(events: seq<Event>, last: nat, i: nat, j: nat)
    requires Run(events, last).Some? && i < j < |events| && events[i] == WriteLog(SyncFailed)
    ensures !events[j].WriteLog?
  {
    RunOfPrefix(events, last, j);
    var before := events[..j];
    assert before[i] == WriteLog(SyncFailed);
    FailedSyncIsKnown(before, last);
    RunOfPrefix(events, last, j + 1);
    assert events[..j + 1][..j] == before;
  }

  lemma {:induction false} RunOfPrefix(events: seq<Event>, last: nat, n: nat)
    requires Run(events, last).Some? && n <= |events|
    ensures Run(events[..n], last).Some?
  {
    if n < |events| {
      var front := events[..|events| - 1];
      assert front[..n] == events[..n];
      RunOfPrefix(front, last, n);
    } else {
      assert events[..n] == events;
    }
  }

  // ----- one group -----

  // What publishing a group has told its members, and what the log holds for them.
  ghost predicate GroupTold(s: State, s': State, outcome: Outcome) {
    var n := if s.phase.Waiting? then 0 else s.phase.n;
    && 0 < n <= |s.queue| && s'.queue == s.queue[n..] && |s'.answers| == |s.answers| + n
    && (var told := s'.answers[|s.answers|..]; forall i :: 0 <= i < n ==> MemberTold(s, told[i], i, outcome))
    && s'.lastSequence == s.lastSequence + |AllOps(s.queue[..n])| && s'.log == s.log
    && (!outcome.AppendFailed? ==>
          && s.log != []
          && s.log[|s.log| - 1] ==
               Record(s.lastSequence + 1, AllOps(s.queue[..n]), s.queue[0].sync && outcome.Logged?))
  }

  ghost predicate MemberTold(s: State, a: Answer, i: nat, outcome: Outcome)
    requires i < |s.queue|
  {
    && a.request == s.queue[i] && (a.status.Ok? <==> outcome.Logged?)
    && (a.logged <==> !outcome.AppendFailed?) && (a.synced <==> s.queue[0].sync && outcome.Logged?)
    && (a.request.sync ==> s.queue[0].sync)
  }

  lemma PublishAnswers(events: seq<Event>, last: nat)
    requires Run(events, last).Some? && Run(events, last).value.phase.Written?
    ensures Run(events + [Publish], last).Some? && LastOutcome(events).Some?
    ensures GroupTold(Run(events, last).value, Run(events + [Publish], last).value, LastOutcome(events).value)
  {
    RunsKeepInv(events, last);
    AnswersAreTheVerdict(events, last);
    OutcomeIs(Run(events, last).value, LastOutcome(events));
    hide *;
    PublishStep(Run(events, last).value);
    Extend(events, Publish, last);
  }

  lemma OutcomeIs(s: State, outcome: Option<Outcome>)
    requires OutcomeKnown(s, outcome) && s.phase.Written?
    ensures outcome == Some(s.phase.outcome)
  {
  }

  lemma PublishStep(s: State)
    requires Inv(s) && s.phase.Written?
    ensures Enabled(s, Publish) && GroupTold(s, Apply(s, Publish), s.phase.outcome)
  {
    hide AllOps, AnswersOk, Ascending, RecordedOps, LoggedOps, Requests;
    forall i | 0 <= i < s.phase.n ensures s.queue[i].sync ==> s.queue[0].sync {
      assert i > 0 ==> Joins(s.queue, i);
    }
    var n, o := s.phase.n, s.phase.outcome;
    assert Apply(s, Publish).answers[|s.answers|..] ==
             AnswerAll(s.queue[..n], s.groups, if o.Logged? then Ok else Failed, !o.AppendFailed?,
                       s.queue[0].sync && o.Logged?);
  }

  // There is a group for every leader.
  lemma GroupExists(q: seq<Request>) returns (n: nat)
    requires q != []
    ensures IsGroup(q, n)
  {
    n := 1;
    while n < |q| && Joins(q, n)
      invariant 0 < n <= |q| && forall i :: 0 < i < n ==> Joins(q, i)
    {
      n := n + 1;
    }
  }

  // Whenever the queue waits on a write and no sync has failed, the next group can go through: it
  // leaves the queue, all of it told Ok, and its record ends the log.
  lemma QueueMoves(events: seq<Event>, last: nat) returns (n: nat)
    requires Run(events, last).Some?
    requires var s := Run(events, last).value;
             s.phase.Waiting? && s.queue != [] && s.queue[0].batch.Some? && !s.backgroundError
    ensures var s, after := Run(events, last).value, events + [Lead(true, n)] + [WriteLog(Logged)] + [Publish];
            && IsGroup(s.queue, n) && Run(after, last).Some?
            && var s' := Run(after, last).value;
               && s'.phase.Waiting? && s'.queue == s.queue[n..] && !s'.backgroundError
               && s'.log == s.log + [Record(s.lastSequence + 1, AllOps(s.queue[..n]), s.queue[0].sync)]
               && |s'.answers| == |s.answers| + n
               && forall i :: |s.answers| <= i < |s'.answers| ==> s'.answers[i].status.Ok?
  {
    var s := Run(events, last).value;
    n := GroupExists(s.queue);
    hide *;
    GroupStages(s, n);
    Extend(events, Lead(true, n), last);
    Extend(events + [Lead(true, n)], WriteLog(Logged), last);
    Extend(events + [Lead(true, n)] + [WriteLog(Logged)], Publish, last);
  }

  lemma GroupStages(s: State, n: nat)
    requires s.phase.Waiting? && s.queue != [] && s.queue[0].batch.Some? && !s.backgroundError && IsGroup(s.queue, n)
    ensures Enabled(s, Lead(true, n)) && Enabled(Apply(s, Lead(true, n)), WriteLog(Logged))
    ensures var s2 := Apply(Apply(s, Lead(true, n)), WriteLog(Logged));
            && Enabled(s2, Publish)
            && var s' := Apply(s2, Publish);
               && s'.phase.Waiting? && s'.queue == s.queue[n..] && !s'.backgroundError
               && s'.log == s.log + [Record(s.lastSequence + 1, AllOps(s.queue[..n]), s.queue[0].sync)]
               && |s'.answers| == |s.answers| + n
               && forall i :: |s.answers| <= i < |s'.answers| ==> s'.answers[i].status.Ok?
  {
    hide AllOps, Joins;
  }
}
