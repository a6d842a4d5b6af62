/**
 What can still happen to an instance from a given state of the interleaved protocol, for as long as
 its row exists: whether its owner can still be mailed, whether it can still be deleted, and whether
 a row recorded as deleted can come back. Each is answered exactly, by what is under way.
 */
module LifecycleContinuations {
  import opened Common
  import opened LifecycleTable
  import opened LifecycleCycle
  import opened LifecycleInterleaving
  import opened LifecycleAtomicity

  // ---- Continuations ----

  /** Some step of the continuation mails the owner of the instance, successfully. */
  ghost predicate MailsOwner(s: State, steps: seq<Step>, id: string) {
    exists k :: |s.log| <= k < |Exec(s, steps).log| && Exec(s, steps).log[k].Mailed? && Exec(s, steps).log[k].id == id
  }

  /** Some step of the continuation asks Nova to delete the instance. */
  ghost predicate AsksToDelete(s: State, steps: seq<Step>, id: string) {
    exists k :: |s.log| <= k < |Exec(s, steps).log| && Exec(s, steps).log[k].DeleteAsked? && Exec(s, steps).log[k].id == id
  }

  /** After the continuation the row is there and not deleted. */
  ghost predicate EndsAlive(s: State, steps: seq<Step>, id: string) {
    id in Exec(s, steps).rows && Exec(s, steps).rows[id].status != Deleted
  }

  lemma {:induction false} ExecGrows(s: State, steps: seq<Step>)
    ensures s.log <= Exec(s, steps).log
  {
    if steps != [] {
      ExecGrows(s, steps[..|steps| - 1]);
      LogGrows(Exec(s, steps[..|steps| - 1]), steps[|steps| - 1]);
    }
  }

  /** What a later part of a continuation does, the continuation does. */
  lemma LaterPart(s: State, first: seq<Step>, second: seq<Step>, id: string)
    ensures MailsOwner(Exec(s, first), second, id) ==> MailsOwner(s, first + second, id)
    ensures AsksToDelete(Exec(s, first), second, id) ==> AsksToDelete(s, first + second, id)
  {
    ExecGrows(s, first);
    ExecAppend(s, first, second);
  }

  /** All steps are steps of scheduler `w`. */
  predicate Only(steps: seq<Step>, w: nat) {
    forall i :: 0 <= i < |steps| ==> Scheduler(steps[i]) == Some(w)
  }

  lemma SchedulerStepKeepsFlag(s: State, step: Step, id: string)
    requires Scheduler(step).Some? && id in s.rows
    ensures id in Do(s, step).rows && Do(s, step).rows[id].extended == s.rows[id].extended
  {
  }

  /** Schedulers neither remove a row nor touch its flag. */
  lemma {:induction false} SchedulerKeepsFlag(s: State, steps: seq<Step>, w: nat, id: string)
    requires Only(steps, w) && Keyed(s.rows) && id in s.rows
    ensures Remove(id) !in steps && Keyed(Exec(s, steps).rows)
    ensures id in Exec(s, steps).rows && Exec(s, steps).rows[id].extended == s.rows[id].extended
  {
    if steps != [] {
      var n := |steps| - 1;
      SchedulerKeepsFlag(s, steps[..n], w, id);
      SchedulerStepKeepsFlag(Exec(s, steps[..n]), steps[n], id);
      StaysKeyed(Exec(s, steps[..n]), steps[n]);
    }
  }

  lemma RestIsPart(todo: seq<Row>)
    requires todo != []
    ensures forall r :: r in todo <==> r == todo[0] || r in todo[1..]
  {
    assert todo == [todo[0]] + todo[1..];
  }

  lemma SomeIdleWorker(s: State) returns (w: nat)
    ensures PhaseOf(s, w).Idle?
  {
    w := 0;
    var rest := s.workers.Keys;
    while w in rest
      invariant forall v :: v in s.workers && v >= w ==> v in rest
      decreases rest
    {
      rest := rest - {w};
      w := w + 1;
    }
  }

  lemma CountedIsLogged(s: State, steps: seq<Step>, w: nat, c: Cycle, id: string)
    requires |s.log| <= |Exec(s, steps).log|
    ensures MailsTo(Exec(s, steps).log[|s.log|..], w, c, id) == 1 ==> MailsOwner(s, steps, id)
    ensures RequestsFor(Exec(s, steps).log[|s.log|..], w, c, id) == 1 ==> AsksToDelete(s, steps, id)
  {
    var news := Exec(s, steps).log[|s.log|..];
    assert MailsTo(news, w, c, id) == 1 ==> Mailed(w, c, id) in news;
    assert RequestsFor(news, w, c, id) == 1 ==> DeleteAsked(w, c, id) in news;
  }

  lemma OwnCheck(s: State, w: nat, c: Cycle) returns (steps: seq<Step>)
    requires PhaseOf(s, w).Idle? && Keyed(s.rows)
    ensures Only(steps, w) && Uninterrupted(s, w, c, steps) && PhaseOf(Exec(s, steps), w).Idle?
  {
    CheckCanBeCarriedThrough(s, w, c);
    steps :| Uninterrupted(s, w, c, steps) && (forall i :: 1 <= i < |steps| ==> OwnStep(steps[i], w))
             && PhaseOf(Exec(s, steps), w).Idle?;
    forall i | 0 <= i < |steps| ensures Scheduler(steps[i]) == Some(w) {
      assert i == 0 || OwnStep(steps[i], w);
    }
  }

  /** A check that has yet to begin can be carried through, and attempts what is due. */
  lemma NewCheckAttempts(s: State, id: string, c: Cycle) returns (steps: seq<Step>)
    requires Keyed(s.rows) && id in s.rows
    ensures Remove(id) !in steps
    ensures Sends(c, s.rows[id]) ==> MailsOwner(s, steps, id)
    ensures Deletes(c, AfterWarning(c, s.rows[id])) ==> AsksToDelete(s, steps, id)
  {
    var w := SomeIdleWorker(s);
    steps := OwnCheck(s, w, c);
    SchedulerKeepsFlag(s, steps, w, id);
    ExecGrows(s, steps);
    CountedIsLogged(s, steps, w, c, id);
    UninterruptedCheck(s, w, c, steps);
  }

  // ---- Mails ----

  /** A mail to the owner is still to come in the check that a scheduler is in. */
  ghost predicate AboutToMail(p: Phase, id: string) {
    && (p.Warning? || p.RecordingSent?)
    && exists r :: r in p.todo && r.instanceId == id && !Exempt(p.c, r) && r.status == NotSent && p.c.mailOk(id)
  }

  /** A mail to the owner is still to come, or has come and is still to be recorded. */
  ghost predicate MailUnderway(p: Phase, id: string) {
    AboutToMail(p, id) || (p.RecordingSent? && p.id == id)
  }

  ghost predicate WarnedForGood(s: State, id: string) {
    id in s.rows && s.rows[id].status != NotSent && forall w :: !AboutToMail(PhaseOf(s, w), id)
  }

  lemma WarnedRowStaysWarned(s: State, step: Step, id: string)
    requires id in s.rows && s.rows[id].status != NotSent && step != Remove(id)
    ensures id in Do(s, step).rows && Do(s, step).rows[id].status != NotSent
  {
  }

  /** A listing taken from now on does not show the row as unwarned. */
  lemma NoNewMail(s: State, step: Step, w: nat, id: string)
    requires id in s.rows && s.rows[id].status != NotSent
    ensures !AboutToMail(PhaseOf(s, w), id) ==> !AboutToMail(PhaseOf(Do(s, step), w), id)
    ensures !MailUnderway(PhaseOf(s, w), id) ==> !MailUnderway(PhaseOf(Do(s, step), w), id)
  {
    var p := PhaseOf(s, w);
    if Scheduler(step) != Some(w) {
      OthersDoNotMove(s, step, w);
    } else if p.Warning? && p.todo != [] {
      RestIsPart(p.todo);
    }
  }

  lemma NotMailedNow(s: State, step: Step, id: string)
    requires WarnedForGood(s, id)
    ensures !MailsOwner(s, [step], id)
  {
    ExecFirst(s, step, []);
    if step.WarnNext? && PhaseOf(s, step.w).Warning? && PhaseOf(s, step.w).todo != [] {
      RestIsPart(PhaseOf(s, step.w).todo);
    }
  }

  lemma {:induction false} WarnedForGoodLasts(s: State, steps: seq<Step>, id: string)
    requires WarnedForGood(s, id) && Remove(id) !in steps
    ensures WarnedForGood(Exec(s, steps), id) && !MailsOwner(s, steps, id)
  {
    if steps != [] {
      var n := |steps| - 1;
      var x := Exec(s, steps[..n]);
      assert steps == steps[..n] + [steps[n]];
      WarnedForGoodLasts(s, steps[..n], id);
      WarnedRowStaysWarned(x, steps[n], id);
      forall w: nat ensures !AboutToMail(PhaseOf(Do(x, steps[n]), w), id) {
        NoNewMail(x, steps[n], w, id);
      }
      NotMailedNow(x, steps[n], id);
      ExecFirst(x, steps[n], []);
      LogGrows(x, steps[n]);
      ExecGrows(s, steps[..n]);
    }
  }

  ghost predicate JustMailed(s: State, w: nat, id: string) {
    PhaseOf(s, w).RecordingSent? && PhaseOf(s, w).id == id
  }

  /** A step towards the mail: either it is sent, or it is still about to be and fewer rows are before it. */
  lemma TowardsMail(s: State, w: nat, id: string) returns (step: Step)
    requires AboutToMail(PhaseOf(s, w), id)
    ensures Scheduler(step) == Some(w)
    ensures (JustMailed(Do(s, step), w, id) && MailsOwner(s, [step], id))
            || (AboutToMail(PhaseOf(Do(s, step), w), id) && Distance(PhaseOf(Do(s, step), w)).1 < Distance(PhaseOf(s, w)).1)
  {
    var p := PhaseOf(s, w);
    step := if p.Warning? then WarnNext(w) else RecordSent(w);
    ExecFirst(s, step, []);
    if p.Warning? {
      RestIsPart(p.todo);
      var row := p.todo[0];
      if row.instanceId == id && !Exempt(p.c, row) && row.status == NotSent && p.c.mailOk(id) {
        assert Do(s, step).log[|s.log|] == Mailed(w, p.c, id);
      }
    }
  }

  /** A scheduler that is about to mail the owner gets there by its own steps. */
  lemma MailIsReached(s: State, w: nat, id: string) returns (steps: seq<Step>)
    requires AboutToMail(PhaseOf(s, w), id)
    ensures Only(steps, w) && MailsOwner(s, steps, id) && JustMailed(Exec(s, steps), w, id)
    decreases Distance(PhaseOf(s, w)).1
  {
    var step := TowardsMail(s, w, id);
    ExecFirst(s, step, []);
    steps := [step];
    if !(JustMailed(Do(s, step), w, id) && MailsOwner(s, [step], id)) {
      var rest := MailIsReached(Do(s, step), w, id);
      LaterPart(s, [step], rest, id);
      ExecFirst(s, step, rest);
      steps := [step] + rest;
    }
  }

  /** ... and to recording it. */
  lemma MailIsRecorded(s: State, w: nat, id: string) returns (steps: seq<Step>)
    requires MailUnderway(PhaseOf(s, w), id) && Keyed(s.rows) && id in s.rows
    ensures Only(steps, w)
    ensures var rows := Exec(s, steps).rows; id in rows && rows[id].status == Sent && rows[id].sentAt.Some?
  {
    steps := [];
    if !JustMailed(s, w, id) {
      steps := MailIsReached(s, w, id);
    }
    SchedulerKeepsFlag(s, steps, w, id);
    ExecAppend(s, steps, [RecordSent(w)]);
    ExecFirst(Exec(s, steps), RecordSent(w), []);
    steps := steps + [RecordSent(w)];
  }

  /**
   While its row exists, the owner may still be mailed exactly as long as the row is unwarned or some
   scheduler has it, unwarned, in a listing it has not worked off. Once a mail is recorded, then, a
   second one comes if and only if such a listing is left over.
   */
  lemma MailStillComesIff(s: State, id: string)
    requires Keyed(s.rows) && id in s.rows
    ensures (exists steps :: Remove(id) !in steps && MailsOwner(s, steps, id)) <==>
            s.rows[id].status == NotSent || exists w :: AboutToMail(PhaseOf(s, w), id)
  {
    if s.rows[id].status == NotSent {
      var steps := NewCheckAttempts(s, id, Cycle(s.rows[id].expiresAt, 0, None, _ => true, _ => true));
    } else if w :| AboutToMail(PhaseOf(s, w), id) {
      var steps := MailIsReached(s, w, id);
      SchedulerKeepsFlag(s, steps, w, id);
    } else {
      forall steps | Remove(id) !in steps ensures !MailsOwner(s, steps, id) {
        WarnedForGoodLasts(s, steps, id);
      }
    }
  }

  lemma {:induction false} RecordedMailStands(log: seq<Event>, m: nat, j: nat, id: string)
    requires Sound(log) && m < j <= |log| && log[m].SentRecorded? && log[m].id == id
    requires id in Replay(log[..m]) && !RemovedBetween(log, m, j, id)
    ensures id in Replay(log[..j]) && Replay(log[..j])[id].status != NotSent
    decreases j
  {
    assert log[..j][..j - 1] == log[..j - 1];
    if j > m + 1 {
      assert !RemovedBetween(log, m, j - 1, id);
      RecordedMailStands(log, m, j - 1, id);
      assert log[j - 1] != Removed(id);
      SoundAt(log, j - 1);
    }
  }

  /** In every run, a mail that follows a recorded one comes from a listing taken before the recording. */
  lemma SecondMailHasOldListing(s: State, m: nat, k: nat)
    requires Reachable(s) && m < k < |s.log| && s.log[m].SentRecorded? && s.log[k].Mailed? && s.log[m].id == s.log[k].id
    requires s.log[m].id in Replay(s.log[..m]) && !RemovedBetween(s.log, m, k, s.log[m].id)
    ensures exists j: nat :: j < m && SeenExpired(s.log, j, s.log[k].worker, s.log[k].c, s.log[k].id)
  {
    var log, id := s.log, s.log[k].id;
    ReachableInvariant(s);
    EveryWarningIsJustified(s, k);
    var j: nat :| j < k && SeenExpired(log, j, log[k].worker, log[k].c, id);
    if m < j {
      assert !RemovedBetween(log, m, j, id);
      RecordedMailStands(log, m, j, id);
    }
  }

  // ---- Deletions ----

  /** A deletion of the instance is still to come in the check that a scheduler is in. */
  ghost predicate AboutToDelete(p: Phase, id: string) {
    && (p.Deleting? || p.RecordingDeleted?)
    && exists r :: r in p.todo && r.instanceId == id && !Exempt(p.c, r)
  }

  predicate WaitsForReply(r: Row) {
    r.status == Sent && r.sentAt.Some?
  }

  /** Some check of the future may find the row overdue: it is not extended, and is or will be marked sent. */
  ghost predicate CanBecomeOverdue(s: State, id: string)
    requires id in s.rows
  {
    && !s.rows[id].extended
    && (s.rows[id].status == NotSent || WaitsForReply(s.rows[id]) || exists w :: MailUnderway(PhaseOf(s, w), id))
  }

  ghost predicate SafeForGood(s: State, id: string) {
    id in s.rows && !CanBecomeOverdue(s, id) && forall w :: !AboutToDelete(PhaseOf(s, w), id)
  }

  lemma ExtendedRowStaysExtended(s: State, step: Step, id: string)
    requires id in s.rows && s.rows[id].extended && step != Remove(id)
    ensures id in Do(s, step).rows && Do(s, step).rows[id].extended
  {
  }

  /** Only a mail that is under way marks the row sent. */
  lemma OnlyRecordingMarksSent(s: State, step: Step, id: string)
    requires id in s.rows && step != Remove(id) && !WaitsForReply(s.rows[id])
    requires forall w :: !MailUnderway(PhaseOf(s, w), id)
    ensures id in Do(s, step).rows && !WaitsForReply(Do(s, step).rows[id])
  {
  }

  lemma CannotBecomeOverdueLater(s: State, step: Step, id: string)
    requires id in s.rows && !CanBecomeOverdue(s, id) && step != Remove(id)
    ensures id in Do(s, step).rows && !CanBecomeOverdue(Do(s, step), id)
  {
    if s.rows[id].extended {
      ExtendedRowStaysExtended(s, step, id);
    } else {
      OnlyRecordingMarksSent(s, step, id);
      WarnedRowStaysWarned(s, step, id);
      forall w: nat ensures !MailUnderway(PhaseOf(Do(s, step), w), id) {
        NoNewMail(s, step, w, id);
      }
    }
  }

  lemma NoNewDeletion(s: State, step: Step, w: nat, id: string)
    requires id in s.rows && (s.rows[id].extended || !WaitsForReply(s.rows[id])) && !AboutToDelete(PhaseOf(s, w), id)
    ensures !AboutToDelete(PhaseOf(Do(s, step), w), id)
  {
    var p := PhaseOf(s, w);
    if Scheduler(step) != Some(w) {
      OthersDoNotMove(s, step, w);
    } else if p.Deleting? && p.todo != [] {
      RestIsPart(p.todo);
    }
  }

  lemma NotAskedNow(s: State, step: Step, id: string)
    requires SafeForGood(s, id)
    ensures !AsksToDelete(s, [step], id)
  {
    ExecFirst(s, step, []);
    if step.DeleteNext? && PhaseOf(s, step.w).Deleting? && PhaseOf(s, step.w).todo != [] {
      RestIsPart(PhaseOf(s, step.w).todo);
    }
  }

  lemma {:induction false} SafeForGoodLasts(s: State, steps: seq<Step>, id: string)
    requires SafeForGood(s, id) && Remove(id) !in steps
    ensures SafeForGood(Exec(s, steps), id) && !AsksToDelete(s, steps, id)
  {
    if steps != [] {
      var n := |steps| - 1;
      var x := Exec(s, steps[..n]);
      assert steps == steps[..n] + [steps[n]];
      SafeForGoodLasts(s, steps[..n], id);
      CannotBecomeOverdueLater(x, steps[n], id);
      forall w: nat ensures !AboutToDelete(PhaseOf(Do(x, steps[n]), w), id) {
        NoNewDeletion(x, steps[n], w, id);
      }
      NotAskedNow(x, steps[n], id);
      ExecFirst(x, steps[n], []);
      LogGrows(x, steps[n]);
      ExecGrows(s, steps[..n]);
    }
  }

  lemma TowardsDeletion(s: State, w: nat, id: string) returns (step: Step)
    requires AboutToDelete(PhaseOf(s, w), id)
    ensures Scheduler(step) == Some(w)
    ensures AsksToDelete(s, [step], id)
            || (AboutToDelete(PhaseOf(Do(s, step), w), id) && Distance(PhaseOf(Do(s, step), w)).1 < Distance(PhaseOf(s, w)).1)
  {
    var p := PhaseOf(s, w);
    step := if p.Deleting? then DeleteNext(w) else RecordDeleted(w);
    ExecFirst(s, step, []);
    if p.Deleting? {
      RestIsPart(p.todo);
      if p.todo[0].instanceId == id && !Exempt(p.c, p.todo[0]) {
        assert Do(s, step).log[|s.log|] == DeleteAsked(w, p.c, id);
      }
    }
  }

  lemma DeletionIsReached(s: State, w: nat, id: string) returns (steps: seq<Step>)
    requires AboutToDelete(PhaseOf(s, w), id)
    ensures Only(steps, w) && AsksToDelete(s, steps, id)
    decreases Distance(PhaseOf(s, w)).1
  {
    var step := TowardsDeletion(s, w, id);
    steps := [step];
    if !AsksToDelete(s, [step], id) {
      ExecFirst(s, step, []);
      var rest := DeletionIsReached(Do(s, step), w, id);
      LaterPart(s, [step], rest, id);
      steps := [step] + rest;
    }
  }

  /** A new check finds a row that waits for a reply overdue, and an unwarned one after warning it. */
  lemma OverdueIsAskedFor(s: State, id: string) returns (steps: seq<Step>)
    requires Keyed(s.rows) && id in s.rows && !s.rows[id].extended
    requires s.rows[id].status == NotSent || WaitsForReply(s.rows[id])
    ensures Remove(id) !in steps && AsksToDelete(s, steps, id)
  {
    var now := if s.rows[id].status == NotSent then s.rows[id].expiresAt else s.rows[id].sentAt.value;
    steps := NewCheckAttempts(s, id, Cycle(now, 0, None, _ => true, _ => true));
  }

  lemma BecomesOverdue(s: State, id: string) returns (steps: seq<Step>)
    requires Keyed(s.rows) && id in s.rows && CanBecomeOverdue(s, id)
    ensures Remove(id) !in steps && AsksToDelete(s, steps, id)
  {
    if s.rows[id].status == NotSent || WaitsForReply(s.rows[id]) {
      steps := OverdueIsAskedFor(s, id);
    } else {
      var w :| MailUnderway(PhaseOf(s, w), id);
      var first := MailIsRecorded(s, w, id);
      SchedulerKeepsFlag(s, first, w, id);
      var second := OverdueIsAskedFor(Exec(s, first), id);
      LaterPart(s, first, second, id);
      steps := first + second;
    }
  }

  /**
   While its row exists, an instance may still be deleted exactly when some scheduler has it,
   unexempted, in an overdue listing it has not worked off, or when its row is not extended and is
   unwarned, waits for a reply, or has a mail under way that will make it wait.
   */
  lemma DeletionStillComesIff(s: State, id: string)
    requires Keyed(s.rows) && id in s.rows
    ensures (exists steps :: Remove(id) !in steps && AsksToDelete(s, steps, id)) <==>
            CanBecomeOverdue(s, id) || exists w :: AboutToDelete(PhaseOf(s, w), id)
  {
    if CanBecomeOverdue(s, id) {
      var steps := BecomesOverdue(s, id);
    } else if w :| AboutToDelete(PhaseOf(s, w), id) {
      var steps := DeletionIsReached(s, w, id);
      SchedulerKeepsFlag(s, steps, w, id);
    } else {
      forall steps | Remove(id) !in steps ensures !AsksToDelete(s, steps, id) {
        SafeForGoodLasts(s, steps, id);
      }
    }
  }

  /** For an extended row, only a left-over listing is a danger. */
  lemma ExtendedIsStillDeletedIff(s: State, id: string)
    requires id in s.rows && s.rows[id].extended
    ensures (exists steps :: Remove(id) !in steps && AsksToDelete(s, steps, id)) <==>
            exists w :: AboutToDelete(PhaseOf(s, w), id)
  {
    if w :| AboutToDelete(PhaseOf(s, w), id) {
      var steps := DeletionIsReached(s, w, id);
      assert Remove(id) !in steps;
    } else {
      forall steps | Remove(id) !in steps ensures !AsksToDelete(s, steps, id) {
        SafeForGoodLasts(s, steps, id);
      }
    }
  }

  /** A second deletion after a recorded one takes a left-over listing, or a mail that is recorded late. */
  lemma DeletedIsAskedForAgainIff(s: State, id: string)
    requires Keyed(s.rows) && id in s.rows && s.rows[id].status == Deleted
    ensures (exists steps :: Remove(id) !in steps && AsksToDelete(s, steps, id)) <==>
            || (exists w :: AboutToDelete(PhaseOf(s, w), id))
            || (!s.rows[id].extended && exists w :: MailUnderway(PhaseOf(s, w), id))
  {
    DeletionStillComesIff(s, id);
  }

  /** Between positions `i` and `j` a mail of this instance is recorded. */
  ghost predicate SentBetween(log: seq<Event>, i: int, j: int, id: string) {
    exists m :: 0 <= i < m < j <= |log| && log[m].SentRecorded? && log[m].id == id
  }

  predicate NotWaiting(r: Row) {
    r.status == Extended || r.status == Deleted
  }

  lemma OtherEventsLeaveIt(t: Table, e: Event, id: string)
    requires id in t && NotWaiting(t[id]) && e != Removed(id) && !(e.SentRecorded? && e.id == id)
    ensures id in Effect(t, e) && NotWaiting(Effect(t, e)[id])
  {
  }

  lemma {:induction false} RecordedDeletionStands(log: seq<Event>, m: nat, j: nat, id: string)
    requires m < j <= |log| && log[m] == DeletionRecorded(id) && id in Replay(log[..m])
    requires !RemovedBetween(log, m, j, id) && !SentBetween(log, m, j, id)
    ensures id in Replay(log[..j]) && NotWaiting(Replay(log[..j])[id])
    decreases j
  {
    assert log[..j][..j - 1] == log[..j - 1];
    if j > m + 1 {
      assert !RemovedBetween(log, m, j - 1, id) && !SentBetween(log, m, j - 1, id);
      RecordedDeletionStands(log, m, j - 1, id);
      assert log[j - 1] != Removed(id) && !(log[j - 1].SentRecorded? && log[j - 1].id == id);
      OtherEventsLeaveIt(Replay(log[..j - 1]), log[j - 1], id);
    }
  }

  /**
   In every run, a deletion asked for after a recorded one comes from a listing taken before the
   recording, or a mail was recorded in between.
   */
  lemma SecondDeletionHasOldListing(s: State, m: nat, k: nat)
    requires Reachable(s) && m < k < |s.log| && s.log[k].DeleteAsked? && s.log[m] == DeletionRecorded(s.log[k].id)
    requires s.log[k].id in Replay(s.log[..m]) && !RemovedBetween(s.log, m, k, s.log[k].id)
    ensures exists j: nat :: j < k && SeenOverdue(s.log, j, s.log[k].worker, s.log[k].c, s.log[k].id)
              && (j < m || SentBetween(s.log, m, j, s.log[k].id))
  {
    var log, id := s.log, s.log[k].id;
    ReachableInvariant(s);
    EveryDeletionIsJustified(s, k);
    var j: nat :| j < k && SeenOverdue(log, j, log[k].worker, log[k].c, id);
    if m < j && !SentBetween(log, m, j, id) {
      assert !RemovedBetween(log, m, j, id);
      RecordedDeletionStands(log, m, j, id);
    }
  }

  // ---- A deleted row that comes back ----

  /** A request has read the row and has yet to write it. */
  ghost predicate ExtensionUnderway(s: State, id: string) {
    exists req :: req in s.requests && s.requests[req].row.instanceId == id
  }

  ghost predicate DeletedForGood(s: State, id: string) {
    && Keyed(s.rows) && id in s.rows && s.rows[id].status == Deleted
    && !ExtensionUnderway(s, id) && forall w :: !MailUnderway(PhaseOf(s, w), id)
  }

  lemma DeletedRowStays(s: State, step: Step, id: string)
    requires DeletedForGood(s, id) && step != Remove(id)
    ensures id in Do(s, step).rows && Do(s, step).rows[id].status == Deleted
  {
  }

  /** A deleted row is not read for extension any more. */
  lemma NoNewExtension(s: State, step: Step, id: string)
    requires DeletedForGood(s, id)
    ensures !ExtensionUnderway(Do(s, step), id)
  {
  }

  lemma {:induction false} DeletedForGoodLasts(s: State, steps: seq<Step>, id: string)
    requires DeletedForGood(s, id) && Remove(id) !in steps
    ensures DeletedForGood(Exec(s, steps), id)
  {
    if steps != [] {
      var n := |steps| - 1;
      var x := Exec(s, steps[..n]);
      assert steps == steps[..n] + [steps[n]];
      DeletedForGoodLasts(s, steps[..n], id);
      StaysKeyed(x, steps[n]);
      DeletedRowStays(x, steps[n], id);
      NoNewExtension(x, steps[n], id);
      forall w: nat ensures !MailUnderway(PhaseOf(Do(x, steps[n]), w), id) {
        NoNewMail(x, steps[n], w, id);
      }
    }
  }

  /**
   While it exists, a row recorded as deleted may come back to another status exactly when a mail to its
   owner is under way or a request that read it has yet to write.
   */
  lemma DeletedIsRevivedIff(s: State, id: string)
    requires Keyed(s.rows) && id in s.rows && s.rows[id].status == Deleted
    ensures (exists steps :: Remove(id) !in steps && EndsAlive(s, steps, id)) <==>
            ExtensionUnderway(s, id) || exists w :: MailUnderway(PhaseOf(s, w), id)
  {
    if req :| req in s.requests && s.requests[req].row.instanceId == id {
      ExecFirst(s, WriteExtend(req, 0), []);
      assert EndsAlive(s, [WriteExtend(req, 0)], id);
    } else if w :| MailUnderway(PhaseOf(s, w), id) {
      var steps := MailIsRecorded(s, w, id);
      SchedulerKeepsFlag(s, steps, w, id);
      assert EndsAlive(s, steps, id);
    } else {
      forall steps | Remove(id) !in steps ensures !EndsAlive(s, steps, id) {
        DeletedForGoodLasts(s, steps, id);
      }
    }
  }
}
