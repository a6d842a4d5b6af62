/**
 Deadlines counted from the registration of an instance, in any interleaving of any number of
 schedulers and requests: nothing happens to it before its time.
 */
module LifecycleDeadlines {
  import opened Common
  import opened LifecycleTable
  import opened LifecycleCycle
  import opened LifecycleInterleaving
  import opened LifecycleAtomicity
  import opened LifecycleRaceConditions

  /** The expiry that the extension at position `k` started from was once in the table. */
  ghost predicate ReadAt(log: seq<Event>, k: int, a: int)
    requires 0 <= k < |log| && log[k].ExtensionRecorded?
  {
    0 <= a <= k && log[k].id in Replay(log[..a]) && Replay(log[..a])[log[k].id].expiresAt == log[k].readExpiry
  }

  ghost predicate ExtensionsRead(log: seq<Event>) {
    forall k :: 0 <= k < |log| && log[k].ExtensionRecorded? ==> exists a :: ReadAt(log, k, a)
  }

  lemma OnlyWriteExtendRecords(s: State, step: Step)
    requires |Do(s, step).log| == |s.log| + 1 && Do(s, step).log[|s.log|].ExtensionRecorded?
    ensures step.WriteExtend? && step.req in s.requests
    ensures var row := s.requests[step.req].row;
            Do(s, step).log[|s.log|] == ExtensionRecorded(row.instanceId, row.expiresAt, step.now)
  {
  }

  lemma ReadAtGrows(log: seq<Event>, longer: seq<Event>, k: int, a: int)
    requires log <= longer && 0 <= k < |log| && log[k].ExtensionRecorded? && ReadAt(log, k, a)
    ensures ReadAt(longer, k, a)
  {
    assert longer[..a] == log[..a];
  }

  lemma NewExtensionReads(s: State, step: Step)
    requires ReadingsAreTrue(s) && |Do(s, step).log| == |s.log| + 1 && s.log <= Do(s, step).log
    requires Do(s, step).log[|s.log|].ExtensionRecorded?
    ensures exists a :: ReadAt(Do(s, step).log, |s.log|, a)
  {
    OnlyWriteExtendRecords(s, step);
    var a := s.requests[step.req].at;
    assert Do(s, step).log[..a] == s.log[..a] && ReadAt(Do(s, step).log, |s.log|, a);
  }

  lemma ExtensionsReadNext(s: State, step: Step)
    requires ExtensionsRead(s.log) && ReadingsAreTrue(s)
    ensures ExtensionsRead(Do(s, step).log)
  {
    var log := Do(s, step).log;
    LogGrows(s, step);
    forall k | 0 <= k < |log| && log[k].ExtensionRecorded? ensures exists a :: ReadAt(log, k, a) {
      if k < |s.log| {
        var a :| ReadAt(s.log, k, a);
        ReadAtGrows(s.log, log, k, a);
      } else {
        NewExtensionReads(s, step);
      }
    }
  }

  lemma {:induction false} ExtensionsReadOfARun(steps: seq<Step>)
    ensures ExtensionsRead(Exec(INITIAL, steps).log)
  {
    if steps != [] {
      var n := |steps| - 1;
      ExtensionsReadOfARun(steps[..n]);
      ReadingsOfARun(steps[..n]);
      ExtensionsReadNext(Exec(INITIAL, steps[..n]), steps[n]);
    }
  }

  ghost predicate RegisteredAt(log: seq<Event>, i: int, id: string) {
    0 <= i < |log| && log[i].Inserted? && log[i].row.instanceId == id
  }

  /** The row was there before position `n`, so the one registration of its id was. */
  lemma RegisteredBefore(log: seq<Event>, n: nat, i: nat, id: string)
    requires NoIdTwice(log) && n <= |log| && RegisteredAt(log, i, id) && id in Replay(log[..n])
    ensures i < n
  {
    RowWasRegistered(log[..n], id);
    var j :| 0 <= j < n && log[..n][j].Inserted? && log[..n][j].row.instanceId == id;
    assert log[j].Inserted? && log[j].row.instanceId == id;
  }

  /** However requests and schedulers interleave, the expiry never falls below that of the registration. */
  lemma {:induction false} ExpiryStaysBeyondRegistration(log: seq<Event>, n: nat, i: nat, id: string)
    requires NoIdTwice(log) && ExtensionsRead(log) && n <= |log| && RegisteredAt(log, i, id) && id in Replay(log[..n])
    ensures i < n && Replay(log[..n])[id].expiresAt >= log[i].row.expiresAt
    decreases n
  {
    RegisteredBefore(log, n, i, id);
    var e := log[n - 1];
    assert log[..n][..n - 1] == log[..n - 1];
    if e.ExtensionRecorded? && e.id == id {
      var a :| ReadAt(log, n - 1, a);
      ExpiryStaysBeyondRegistration(log, a, i, id);
    } else if i < n - 1 {
      assert !(e.Inserted? && e.row.instanceId == id);
      ExpiryStaysBeyondRegistration(log, n - 1, i, id);
    } else if id in Replay(log[..n - 1]) {
      RegisteredBefore(log, n - 1, i, id);
    }
  }

  /** Step `m` registered this instance, while the feature was enabled, outside the system's project. */
  ghost predicate Registers(steps: seq<Step>, m: int, id: string) {
    && 0 <= m < |steps| && steps[m].Register? && steps[m].server.id == id
    && steps[m].s.enabled && steps[m].server.projectName != steps[m].systemProject
  }

  /** Every row comes from a registration, and expires its lifetime after it. */
  lemma {:induction false} RowsComeFromRegistrations(steps: seq<Step>, i: nat)
    requires i < |Exec(INITIAL, steps).log| && Exec(INITIAL, steps).log[i].Inserted?
    ensures var row := Exec(INITIAL, steps).log[i].row;
            exists m :: Registers(steps, m, row.instanceId) && IsNewRow(row, steps[m].server, steps[m].now, steps[m].s.lifetimeDays)
  {
    var n := |steps| - 1;
    var s, step := Exec(INITIAL, steps[..n]), steps[n];
    OnlyRegistrationInserts(s, step);
    if i < |s.log| {
      RowsComeFromRegistrations(steps[..n], i);
      var row := s.log[i].row;
      var m :| Registers(steps[..n], m, row.instanceId)
        && IsNewRow(row, steps[..n][m].server, steps[..n][m].now, steps[..n][m].s.lifetimeDays);
      assert Registers(steps, m, row.instanceId);
    } else {
      assert Registers(steps, n, Exec(INITIAL, steps).log[i].row.instanceId);
    }
  }

  lemma MailedAfterExpiry(log: seq<Event>, s: State, k: nat, i: nat)
    requires Reachable(s) && log == s.log && NoIdTwice(log) && ExtensionsRead(log)
    requires k < |log| && log[k].Mailed? && RegisteredAt(log, i, log[k].id)
    ensures log[i].row.expiresAt <= log[k].c.now
  {
    EveryWarningIsJustified(s, k);
    var j: nat :| j < k && SeenExpired(log, j, log[k].worker, log[k].c, log[k].id);
    ExpiryStaysBeyondRegistration(log, j, i, log[k].id);
  }

  lemma DeletedAfterGrace(log: seq<Event>, s: State, k: nat, i: nat)
    requires Reachable(s) && log == s.log && NoIdTwice(log) && ExtensionsRead(log)
    requires k < |log| && log[k].DeleteAsked? && RegisteredAt(log, i, log[k].id)
    ensures log[i].row.expiresAt + log[k].c.grace <= log[k].c.now
  {
    NoDeletionBeforeDeadline(s, k);
    var j: nat :| j < k && SeenOverdue(log, j, log[k].worker, log[k].c, log[k].id)
      && Replay(log[..j])[log[k].id].expiresAt + log[k].c.grace <= log[k].c.now;
    ExpiryStaysBeyondRegistration(log, j, i, log[k].id);
  }

  lemma AttemptedRowWasRegistered(s: State, k: nat)
    requires Reachable(s) && k < |s.log| && (s.log[k].Mailed? || s.log[k].DeleteAsked?)
    ensures exists i :: RegisteredAt(s.log, i, s.log[k].id)
  {
    var log, id := s.log, s.log[k].id;
    var j: nat;
    if log[k].Mailed? {
      EveryWarningIsJustified(s, k);
      j :| j < k && SeenExpired(log, j, log[k].worker, log[k].c, id);
    } else {
      EveryDeletionIsJustified(s, k);
      j :| j < k && SeenOverdue(log, j, log[k].worker, log[k].c, id);
    }
    RowWasRegistered(log[..j], id);
    var i :| 0 <= i < j && log[..j][i].Inserted? && log[..j][i].row.instanceId == id;
    assert RegisteredAt(log, i, id);
  }

  /**
   In every run that registers no id twice, an instance that is mailed about was registered at some time
   with some lifetime, while the feature was enabled, and that lifetime has passed; an instance whose
   deletion is asked for has had the grace period of the check on top of it.
   */
  lemma NothingBeforeItsTime(steps: seq<Step>, s: State, k: nat)
    requires s == Exec(INITIAL, steps) && NoIdTwice(s.log)
    requires k < |s.log| && (s.log[k].Mailed? || s.log[k].DeleteAsked?)
    ensures exists m :: Registers(steps, m, s.log[k].id)
              && steps[m].now + steps[m].s.lifetimeDays * 86400 + (if s.log[k].Mailed? then 0 else s.log[k].c.grace) <= s.log[k].c.now
  {
    assert Reachable(s);
    ExtensionsReadOfARun(steps);
    AttemptedRowWasRegistered(s, k);
    var i :| RegisteredAt(s.log, i, s.log[k].id);
    RowsComeFromRegistrations(steps, i);
    if s.log[k].Mailed? {
      MailedAfterExpiry(s.log, s, k, i);
    } else {
      DeletedAfterGrace(s.log, s, k, i);
    }
    var m :| Registers(steps, m, s.log[k].id)
      && IsNewRow(s.log[i].row, steps[m].server, steps[m].now, steps[m].s.lifetimeDays);
  }
}
