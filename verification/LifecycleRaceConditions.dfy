/**
 Two more properties of uninterrupted runs that interleaving takes away, and exactly when: an extension
 may gain less than thirty days or move the expiry back, and the status may contradict the flag.
 */
module LifecycleRaceConditions {
  import opened Common
  import opened LifecycleTable
  import opened LifecycleCycle
  import opened LifecycleInterleaving
  import opened LifecycleAtomicity

  // ---- An extension that moves the expiry back ----

  predicate SetsExpiry(e: Event, id: string) {
    (e.Inserted? && e.row.instanceId == id) || (e.ExtensionRecorded? && e.id == id)
  }

  function ExpirySetBy(e: Event): int
    requires e.Inserted? || e.ExtensionRecorded?
  {
    if e.Inserted? then e.row.expiresAt else NewExpiry(e.readExpiry, e.now)
  }

  /** The expiry of the row is the one that event `k` has set. */
  ghost predicate LastSetter(log: seq<Event>, k: int, id: string) {
    && 0 <= k < |log| && SetsExpiry(log[k], id)
    && forall m :: k < m < |log| ==> !SetsExpiry(log[m], id) && log[m] != Removed(id)
  }

  lemma {:induction false} ExpiryWasSet(log: seq<Event>, id: string)
    requires Sound(log) && id in Replay(log)
    ensures exists k :: LastSetter(log, k, id)
    ensures forall k :: LastSetter(log, k, id) ==> Replay(log)[id].expiresAt == ExpirySetBy(log[k])
  {
    var front, e := log[..|log| - 1], log[|log| - 1];
    if SetsExpiry(e, id) {
      assert LastSetter(log, |log| - 1, id);
    } else {
      ExpiryWasSet(front, id);
      var k :| LastSetter(front, k, id);
      assert LastSetter(log, k, id);
      forall j | LastSetter(log, j, id) ensures LastSetter(front, j, id) {}
    }
  }

  /** The reading is the row as it was at that position of the log. */
  ghost predicate TrueReading(log: seq<Event>, reading: Reading) {
    && reading.at <= |log|
    && reading.row.instanceId in Replay(log[..reading.at])
    && Replay(log[..reading.at])[reading.row.instanceId] == reading.row
  }

  ghost predicate ReadingsAreTrue(s: State) {
    forall req :: req in s.requests ==> TrueReading(s.log, s.requests[req])
  }

  lemma OnlyReadingAddsRequests(s: State, step: Step, req: nat)
    requires req in Do(s, step).requests
    ensures (req in s.requests && Do(s, step).requests[req] == s.requests[req])
            || (step.ReadForExtend? && step.id in s.rows
                && Do(s, step) == s.(requests := s.requests[req := Reading(s.rows[step.id], |s.log|)]))
  {
  }

  lemma ReadingsStayTrue(s: State, step: Step)
    requires s.rows == Replay(s.log) && Keyed(s.rows) && ReadingsAreTrue(s)
    ensures ReadingsAreTrue(Do(s, step))
  {
    LogGrows(s, step);
    assert s.log[..|s.log|] == s.log;
    forall req | req in Do(s, step).requests ensures TrueReading(Do(s, step).log, Do(s, step).requests[req]) {
      OnlyReadingAddsRequests(s, step, req);
      if req in s.requests && Do(s, step).requests[req] == s.requests[req] {
        assert Do(s, step).log[..s.requests[req].at] == s.log[..s.requests[req].at];
      }
    }
  }

  lemma {:induction false} ReadingsOfARun(steps: seq<Step>)
    ensures ReadingsAreTrue(Exec(INITIAL, steps))
  {
    if steps != [] {
      var n := |steps| - 1;
      ReadingsOfARun(steps[..n]);
      RunKeepsInvariant(steps[..n]);
      ReadingsStayTrue(Exec(INITIAL, steps[..n]), steps[n]);
    }
  }

  lemma {:induction false} SoundPrefix(log: seq<Event>, n: nat)
    requires Sound(log) && n <= |log|
    ensures Sound(log[..n])
  {
    if n < |log| {
      SoundPrefix(log[..|log| - 1], n);
      assert log[..|log| - 1][..n] == log[..n];
    } else {
      assert log[..n] == log;
    }
  }

  /** No extension and no removal of the row has been recorded since the request read it. */
  ghost predicate QuietSince(log: seq<Event>, at: nat, id: string) {
    forall k :: at <= k < |log| ==> !IsExtensionOf(log[k], id) && log[k] != Removed(id)
  }

  lemma {:induction false} QuietKeepsExpiry(log: seq<Event>, at: nat, id: string)
    requires Sound(log) && at <= |log| && QuietSince(log, at, id) && id in Replay(log[..at])
    ensures id in Replay(log) && Replay(log)[id].expiresAt == Replay(log[..at])[id].expiresAt
  {
    if at == |log| {
      assert log[..at] == log;
    } else {
      var front := log[..|log| - 1];
      assert front[..at] == log[..at];
      QuietKeepsExpiry(front, at, id);
      assert !IsExtensionOf(log[|log| - 1], id) && log[|log| - 1] != Removed(id);
    }
  }

  /** If the last event that set the expiry came before `at`, the expiry is still the one of then. */
  lemma SetEarlier(log: seq<Event>, at: nat, id: string, k: int)
    requires Sound(log) && at <= |log| && id in Replay(log) && id in Replay(log[..at])
    requires LastSetter(log, k, id) && k < at
    ensures Replay(log)[id].expiresAt == Replay(log[..at])[id].expiresAt
  {
    SoundPrefix(log, at);
    ExpiryWasSet(log, id);
    ExpiryWasSet(log[..at], id);
    assert LastSetter(log[..at], k, id);
  }

  /** The clock readings of two extensions, and what each read, decide which of them wins. */
  ghost predicate Overrides(log: seq<Event>, k: int, reading: Reading, now: int) {
    && reading.at <= k && LastSetter(log, k, reading.row.instanceId)
    && match log[k]
       case ExtensionRecorded(_, readExpiry, clock) => Max(reading.row.expiresAt, now) < Max(readExpiry, clock)
       case Inserted(row) => Max(reading.row.expiresAt, now) + EXTENSION < row.expiresAt
       case _ => false
  }

  /** Another extension, or a registration, has meanwhile set an expiry past what this one starts from. */
  ghost predicate Shortens(log: seq<Event>, k: int, reading: Reading, now: int) {
    && reading.at <= k && LastSetter(log, k, reading.row.instanceId)
    && Max(reading.row.expiresAt, now) < ExpirySetBy(log[k])
  }

  lemma WriteExtendWrites(s: State, req: nat, now: int)
    requires req in s.requests && s.requests[req].row.instanceId in s.rows
    ensures var row := s.requests[req].row;
            Do(s, WriteExtend(req, now)).rows == SetExtended(s.rows, row.instanceId, NewExpiry(row.expiresAt, now))
  {
  }

  lemma OverridesIff(log: seq<Event>, reading: Reading, now: int)
    requires Sound(log) && TrueReading(log, reading) && reading.row.instanceId in Replay(log)
    ensures var id := reading.row.instanceId;
            && (QuietSince(log, reading.at, id) ==> Replay(log)[id].expiresAt == reading.row.expiresAt)
            && (NewExpiry(reading.row.expiresAt, now) < Replay(log)[id].expiresAt <==> exists k :: Overrides(log, k, reading, now))
            && (Max(reading.row.expiresAt, now) < Replay(log)[id].expiresAt <==> exists k :: Shortens(log, k, reading, now))
  {
    var id := reading.row.instanceId;
    ExpiryWasSet(log, id);
    var k :| LastSetter(log, k, id);
    if k < reading.at {
      SetEarlier(log, reading.at, id, k);
    }
    if QuietSince(log, reading.at, id) {
      QuietKeepsExpiry(log, reading.at, id);
    }
    if NewExpiry(reading.row.expiresAt, now) < Replay(log)[id].expiresAt {
      assert Overrides(log, k, reading, now);
    }
    if Max(reading.row.expiresAt, now) < Replay(log)[id].expiresAt {
      assert Shortens(log, k, reading, now);
    }
  }

  /**
   An extension adds thirty days at least when no other extension and no removal of the row was recorded
   since it read the row. It moves the expiry back exactly when another extension was recorded since,
   and the later of what this one read and its clock comes before the later of what the other one read
   and its clock (or the row was registered anew with an expiry further away). It falls short of thirty
   days exactly when the expiry so set is past the later of what this one read and its clock.
   */
  lemma ExtensionMovesExpiryBackIff(s: State, req: nat, now: int)
    requires Reachable(s) && req in s.requests && s.requests[req].row.instanceId in s.rows
    ensures var id := s.requests[req].row.instanceId;
            var after := Do(s, WriteExtend(req, now)).rows;
            && id in after
            && (QuietSince(s.log, s.requests[req].at, id) ==> after[id].expiresAt >= s.rows[id].expiresAt + EXTENSION)
            && (after[id].expiresAt < s.rows[id].expiresAt + EXTENSION <==> exists k :: Shortens(s.log, k, s.requests[req], now))
            && (after[id].expiresAt < s.rows[id].expiresAt <==> exists k :: Overrides(s.log, k, s.requests[req], now))
  {
    var reading := s.requests[req];
    var id := reading.row.instanceId;
    ReachableInvariant(s);
    var steps :| Exec(INITIAL, steps) == s;
    ReadingsOfARun(steps);
    WriteExtendWrites(s, req, now);
    OverridesIff(s.log, reading, now);
  }

  // ---- A status that contradicts the flag ----

  /** Event `i` is the last extension of the row as it is: none, and no removal, comes later. */
  ghost predicate LastExtension(log: seq<Event>, i: int, id: string) {
    && 0 <= i < |log| && IsExtensionOf(log[i], id)
    && forall m :: i < m < |log| ==> !IsExtensionOf(log[m], id) && log[m] != Removed(id)
  }

  predicate WritesStatus(e: Event, id: string) {
    (e.SentRecorded? || e.DeletionRecorded?) && e.id == id
  }

  /** A mail or a deletion was recorded after the last extension of the row. */
  ghost predicate Overwritten(log: seq<Event>, id: string) {
    exists i, k :: LastExtension(log, i, id) && i < k < |log| && WritesStatus(log[k], id)
  }

  /** An event that neither extends nor removes the row keeps its last extension; one that writes its status overwrites it. */
  lemma OverwrittenNext(front: seq<Event>, e: Event, id: string)
    requires !IsExtensionOf(e, id) && e != Removed(id)
    ensures forall i :: LastExtension(front, i, id) <==> LastExtension(front + [e], i, id)
    ensures Overwritten(front + [e], id) <==>
            Overwritten(front, id) || (WritesStatus(e, id) && exists i :: LastExtension(front, i, id))
  {
    var log := front + [e];
    forall i ensures LastExtension(front, i, id) == LastExtension(log, i, id) {
      assert forall m :: 0 <= m < |front| ==> log[m] == front[m];
    }
    if i, k :| LastExtension(front, i, id) && i < k < |front| && WritesStatus(front[k], id) {
      assert LastExtension(log, i, id) && WritesStatus(log[k], id);
    }
    if i :| WritesStatus(e, id) && LastExtension(front, i, id) {
      assert LastExtension(log, i, id) && WritesStatus(log[|front|], id);
    }
    if i, k :| LastExtension(log, i, id) && i < k < |log| && WritesStatus(log[k], id) {
      assert LastExtension(front, i, id) && (k == |front| || WritesStatus(front[k], id));
    }
  }

  /** A row that was registered just now has no extension. */
  lemma NoExtensionYet(log: seq<Event>, id: string)
    requires Sound(log) && log != [] && id !in Replay(log[..|log| - 1]) && !IsExtensionOf(log[|log| - 1], id)
    ensures forall i :: !LastExtension(log, i, id)
  {
    var n := |log| - 1;
    forall i ensures !LastExtension(log, i, id) {
      if LastExtension(log, i, id) {
        assert !RemovedBetween(log, i, n, id);
        ExtensionIsNeverLost(log, i, n, id);
      }
    }
  }

  lemma {:induction false} FlagAndStatus(log: seq<Event>, id: string)
    requires Sound(log) && id in Replay(log)
    ensures Replay(log)[id].extended <==> exists i :: LastExtension(log, i, id)
    ensures Replay(log)[id].extended != (Replay(log)[id].status == Extended) <==> Overwritten(log, id)
  {
    var n := |log| - 1;
    var front, e := log[..n], log[n];
    assert log == front + [e];
    if IsExtensionOf(e, id) {
      assert LastExtension(log, n, id);
    } else if id in Replay(front) {
      FlagAndStatus(front, id);
      OverwrittenNext(front, e, id);
    } else {
      NoExtensionYet(log, id);
    }
  }

  /**
   In every reachable table the flag and the status of a row contradict each other exactly when a mail
   or a deletion was recorded after the last extension of the row; the flag itself is always right.
   */
  lemma StatusHidesExtensionIff(s: State, id: string)
    requires Reachable(s) && id in s.rows
    ensures s.rows[id].extended <==> exists i :: LastExtension(s.log, i, id)
    ensures s.rows[id].extended != (s.rows[id].status == Extended) <==> Overwritten(s.log, id)
  {
    ReachableInvariant(s);
    FlagAndStatus(s.log, id);
  }
}
