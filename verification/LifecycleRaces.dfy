/**
 Reachable states that show which properties of uninterrupted runs interleaving takes away: the
 status may contradict the flag, an extension may come too late or take days back, an owner may be
 warned and an instance deleted twice, and a deleted row may come back. `LifecycleContinuations` and
 `LifecycleRaceConditions` say exactly when each of this happens.
 */
module LifecycleRaces {
  import opened Common
  import opened LifecycleTable
  import opened LifecycleCycle
  import opened LifecycleInterleaving

  const EVERYONE_ANSWERS := Cycle(0, 0, None, id => true, id => true)

  /** One registered instance that has just expired. */
  lemma OneInstance() returns (s: State)
    ensures Reachable(s) && s.workers == map[] && s.requests == map[]
    ensures s.rows == map["vm" := Row("vm", Some("vm"), "u", "p", Some(""), 0, 0, NotSent, None, false)]
    ensures forall i :: 0 <= i < |s.log| ==> s.log[i].Inserted?
  {
    assert Exec(INITIAL, []) == INITIAL;
    var step := Register("admin", NewServer("vm", "vm", "u", "p", "project", None), LifecycleSettings(true, 0, 0), 0);
    Then(INITIAL, step);
    s := Do(INITIAL, step);
  }

  /** A scheduler starts its check and lists that instance. */
  lemma ListVmExpiring(s: State, w: nat) returns (next: State)
    requires Reachable(s) && PhaseOf(s, w).Idle? && s.rows.Keys == {"vm"}
    requires s.rows["vm"].instanceId == "vm" && ExpiringBefore(s.rows["vm"], 0)
    ensures Reachable(next)
    ensures next == s.(workers := s.workers[w := Warning(EVERYONE_ANSWERS, [s.rows["vm"]])],
                       log := s.log + [ListedExpiring(w, EVERYONE_ANSWERS)])
  {
    var row := s.rows["vm"];
    assert row in [row];
    Then(s, Begin(w, EVERYONE_ANSWERS));
    next := Do(s, Begin(w, EVERYONE_ANSWERS));
    Then(next, ListExpiring(w, [row]));
    next := Do(next, ListExpiring(w, [row]));
    assert s.workers[w := Starting(EVERYONE_ANSWERS)][w := Warning(EVERYONE_ANSWERS, [row])]
        == s.workers[w := Warning(EVERYONE_ANSWERS, [row])];
  }

  lemma WarnVm(s: State, w: nat) returns (next: State)
    requires Reachable(s) && "vm" in s.rows
    requires exists row :: PhaseOf(s, w) == Warning(EVERYONE_ANSWERS, [row]) && row.instanceId == "vm" && row.status == NotSent
    ensures Reachable(next)
    ensures next == s.(workers := s.workers[w := RecordingSent(EVERYONE_ANSWERS, "vm", [])],
                       log := s.log + [Mailed(w, EVERYONE_ANSWERS, "vm")])
  {
    var row :| PhaseOf(s, w) == Warning(EVERYONE_ANSWERS, [row]) && row.instanceId == "vm" && row.status == NotSent;
    assert [row][1..] == [];
    Then(s, WarnNext(w));
    next := Do(s, WarnNext(w));
  }

  /** The owner has just been mailed, and the scheduler has not recorded it yet. */
  lemma JustMailed() returns (s: State)
    ensures Reachable(s) && s.requests == map[] && s.workers == map[0 := RecordingSent(EVERYONE_ANSWERS, "vm", [])]
    ensures s.rows == map["vm" := Row("vm", Some("vm"), "u", "p", Some(""), 0, 0, NotSent, None, false)]
    ensures forall i :: 0 <= i < |s.log| ==> !s.log[i].Removed? && !s.log[i].ExtensionRecorded?
  {
    s := OneInstance();
    s := ListVmExpiring(s, 0);
    s := WarnVm(s, 0);
  }

  /** A user's request starts: it reads the row. */
  lemma StartExtend(s: State, req: nat) returns (next: State)
    requires Reachable(s) && req !in s.requests && "vm" in s.rows && s.rows["vm"].status != Deleted
    ensures Reachable(next) && next == s.(requests := s.requests[req := Reading(s.rows["vm"], |s.log|)])
  {
    Then(s, ReadForExtend(req, "vm"));
    next := Do(s, ReadForExtend(req, "vm"));
  }

  /** ... and ends, at time zero: it writes what it computed from the row it read. */
  lemma FinishExtend(s: State, req: nat) returns (next: State)
    requires Reachable(s) && req in s.requests && s.requests[req].row.instanceId == "vm" && "vm" in s.rows
    ensures var readExpiry := s.requests[req].row.expiresAt;
            next == s.(rows := SetExtended(s.rows, "vm", NewExpiry(readExpiry, 0)), requests := s.requests - {req},
                       log := s.log + [ExtensionRecorded("vm", readExpiry, 0)])
    ensures Reachable(next) && next == Do(s, WriteExtend(req, 0))
  {
    Then(s, WriteExtend(req, 0));
    next := Do(s, WriteExtend(req, 0));
  }

  lemma FinishRecord(s: State, w: nat) returns (next: State)
    requires Reachable(s) && PhaseOf(s, w) == RecordingSent(EVERYONE_ANSWERS, "vm", [])
    ensures Reachable(next)
    ensures next == s.(rows := SetSent(s.rows, "vm", 0), workers := s.workers[w := Warning(EVERYONE_ANSWERS, [])],
                       log := s.log + [SentRecorded("vm", 0)])
  {
    Then(s, RecordSent(w));
    next := Do(s, RecordSent(w));
  }

  /** A mail recorded after an extension puts the status back to sent; the flag survives. */
  lemma LateRecordHidesExtension() returns (s: State)
    ensures Reachable(s) && "vm" in s.rows && s.rows["vm"].status == Sent && s.rows["vm"].extended
  {
    s := JustMailed();
    s := StartExtend(s, 0);
    s := FinishExtend(s, 0);
    s := FinishRecord(s, 0);
  }

  /** The scheduler lists that instance as overdue. */
  lemma ListVmOverdue(s: State, w: nat) returns (next: State)
    requires Reachable(s) && PhaseOf(s, w) == Warning(EVERYONE_ANSWERS, []) && s.rows.Keys == {"vm"}
    requires s.rows["vm"].instanceId == "vm" && AwaitingReply(s.rows["vm"], 0)
    ensures Reachable(next)
    ensures next == s.(workers := s.workers[w := Deleting(EVERYONE_ANSWERS, [s.rows["vm"]])],
                       log := s.log + [ListedOverdue(w, EVERYONE_ANSWERS)])
  {
    var row := s.rows["vm"];
    assert row in [row];
    Then(s, ListOverdue(w, [row]));
    next := Do(s, ListOverdue(w, [row]));
  }

  /** An extension confirmed after the overdue listing does not save the instance. */
  lemma ExtensionOvertakenByDeletion() returns (s: State, i: nat, k: nat)
    ensures Reachable(s) && i < k < |s.log|
    ensures IsExtensionOf(s.log[i], "vm") && s.log[k] == DeleteAsked(0, EVERYONE_ANSWERS, "vm")
    ensures forall m :: 0 <= m < |s.log| ==> !s.log[m].Removed?
  {
    s := JustMailed();
    s := FinishRecord(s, 0);
    s := ListVmOverdue(s, 0);
    s := StartExtend(s, 0);
    s := FinishExtend(s, 0);
    i, k := |s.log| - 1, |s.log|;
    Then(s, DeleteNext(0));
    s := Do(s, DeleteNext(0));
  }

  /** Three confirmed extensions, the slowest of which takes thirty days back. */
  lemma SlowExtensionTakesDaysBack() returns (before: State, after: State)
    ensures Reachable(before) && Reachable(after) && "vm" in before.rows && "vm" in after.rows
    ensures after == Do(before, WriteExtend(0, 0))
    ensures before.rows["vm"].expiresAt == 2 * EXTENSION && after.rows["vm"].expiresAt == EXTENSION
  {
    var s := OneInstance();
    s := StartExtend(s, 0);
    s := StartExtend(s, 1);
    s := FinishExtend(s, 1);
    s := StartExtend(s, 1);
    before := FinishExtend(s, 1);
    after := FinishExtend(before, 0);
  }

  /** Two schedulers may both mail the same owner. */
  lemma TwoWarnings() returns (s: State, i: nat, k: nat)
    ensures Reachable(s) && i < k < |s.log|
    ensures s.log[i] == Mailed(0, EVERYONE_ANSWERS, "vm") && s.log[k] == Mailed(1, EVERYONE_ANSWERS, "vm")
    ensures s.rows == map["vm" := Row("vm", Some("vm"), "u", "p", Some(""), 0, 0, NotSent, None, false)]
    ensures PhaseOf(s, 0) == RecordingSent(EVERYONE_ANSWERS, "vm", []) == PhaseOf(s, 1)
  {
    s := OneInstance();
    s := ListVmExpiring(s, 0);
    s := ListVmExpiring(s, 1);
    i := |s.log|;
    s := WarnVm(s, 0);
    k := |s.log|;
    s := WarnVm(s, 1);
  }

  /** The owner has been mailed and two schedulers have listed the instance as overdue. */
  lemma ListedTwice() returns (s: State)
    ensures Reachable(s) && s.requests == map[] && "vm" in s.rows && s.rows.Keys == {"vm"}
    ensures s.rows["vm"].instanceId == "vm" && s.rows["vm"].status == Sent
    ensures exists row: Row :: row.instanceId == "vm"
              && s.workers == map[0 := Deleting(EVERYONE_ANSWERS, [row]), 1 := Deleting(EVERYONE_ANSWERS, [row])]
  {
    s := JustMailed();
    s := FinishRecord(s, 0);
    s := ListVmExpiring(s, 1);
    var row := s.rows["vm"];
    assert [row][1..] == [];
    Then(s, WarnNext(1));
    s := Do(s, WarnNext(1));
    s := ListVmOverdue(s, 0);
    s := ListVmOverdue(s, 1);
  }

  lemma DeleteVm(s: State, w: nat) returns (next: State)
    requires Reachable(s) && exists row :: PhaseOf(s, w) == Deleting(EVERYONE_ANSWERS, [row]) && row.instanceId == "vm"
    ensures Reachable(next)
    ensures next == s.(workers := s.workers[w := RecordingDeleted(EVERYONE_ANSWERS, "vm", [])],
                       log := s.log + [DeleteAsked(w, EVERYONE_ANSWERS, "vm")])
  {
    var row :| PhaseOf(s, w) == Deleting(EVERYONE_ANSWERS, [row]) && row.instanceId == "vm";
    assert [row][1..] == [];
    Then(s, DeleteNext(w));
    next := Do(s, DeleteNext(w));
  }

  lemma RecordDeletion(s: State, w: nat) returns (next: State)
    requires Reachable(s) && PhaseOf(s, w) == RecordingDeleted(EVERYONE_ANSWERS, "vm", [])
    ensures Reachable(next)
    ensures next == s.(rows := SetDeleted(s.rows, "vm"), workers := s.workers[w := Deleting(EVERYONE_ANSWERS, [])],
                       log := s.log + [DeletionRecorded("vm")])
  {
    Then(s, RecordDeleted(w));
    next := Do(s, RecordDeleted(w));
  }

  /** Two schedulers may both ask for the same deletion, the second one after it was recorded. */
  lemma TwoDeletions() returns (s: State, i: nat, m: nat, k: nat)
    ensures Reachable(s) && i < m < k < |s.log|
    ensures s.log[i] == DeleteAsked(0, EVERYONE_ANSWERS, "vm") && s.log[m] == DeletionRecorded("vm")
    ensures s.log[k] == DeleteAsked(1, EVERYONE_ANSWERS, "vm")
  {
    s := ListedTwice();
    i := |s.log|;
    s := DeleteVm(s, 0);
    m := |s.log|;
    s := RecordDeletion(s, 0);
    k := |s.log|;
    s := DeleteVm(s, 1);
  }

  /** A request that read the row before its deletion was recorded brings it back. */
  lemma SlowExtensionRevivesDeleted() returns (before: State, after: State)
    ensures Reachable(before) && Reachable(after) && "vm" in before.rows && "vm" in after.rows
    ensures after == Do(before, WriteExtend(0, 0))
    ensures before.rows["vm"].status == Deleted && after.rows["vm"].status == Extended
  {
    var s := ListedTwice();
    s := StartExtend(s, 0);
    s := DeleteVm(s, 0);
    before := RecordDeletion(s, 0);
    after := FinishExtend(before, 0);
  }

  /** Both schedulers have mailed, one has recorded it and listed the instance as overdue. */
  lemma OverdueWithLateMail() returns (s: State)
    ensures Reachable(s) && "vm" in s.rows && PhaseOf(s, 1) == RecordingSent(EVERYONE_ANSWERS, "vm", [])
    ensures exists row: Row :: row.instanceId == "vm" && PhaseOf(s, 0) == Deleting(EVERYONE_ANSWERS, [row])
  {
    var i, k;
    s, i, k := TwoWarnings();
    s := FinishRecord(s, 0);
    s := ListVmOverdue(s, 0);
  }

  /** A mail that is recorded late brings it back, too. */
  lemma LateRecordRevivesDeleted() returns (before: State, after: State)
    ensures Reachable(before) && Reachable(after) && "vm" in before.rows && "vm" in after.rows
    ensures after == Do(before, RecordSent(1))
    ensures before.rows["vm"].status == Deleted && after.rows["vm"].status == Sent
  {
    var s := OverdueWithLateMail();
    s := DeleteVm(s, 0);
    before := RecordDeletion(s, 0);
    after := FinishRecord(before, 1);
  }
}
