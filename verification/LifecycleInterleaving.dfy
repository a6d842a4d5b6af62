/**
 The lifecycle protocol at the grain of single SQL statements. Any number of schedulers, extend
 requests, registrations and removals interleave; a scheduler may also abort anywhere. The state
 keeps a log of what happened, and the theorems are about the log of every reachable state.
 */
module LifecycleInterleaving {
  import opened Common
  import opened LifecycleTable
  import opened LifecycleCycle

  /** Where a scheduler is inside its check. `todo` holds the rows as they were when listed. */
  datatype Phase =
    | Idle
    | Starting(c: Cycle)
    | Warning(c: Cycle, todo: seq<Row>)
    | RecordingSent(c: Cycle, id: string, todo: seq<Row>)
    | Deleting(c: Cycle, todo: seq<Row>)
    | RecordingDeleted(c: Cycle, id: string, todo: seq<Row>)

  datatype Event =
    | Inserted(row: Row)
    | ListedExpiring(worker: nat, c: Cycle)
    | Mailed(worker: nat, c: Cycle, id: string)
    | SentRecorded(id: string, at: int)
    | ListedOverdue(worker: nat, c: Cycle)
    | DeleteAsked(worker: nat, c: Cycle, id: string)
    | DeletionRecorded(id: string)
    | ExtensionRecorded(id: string, readExpiry: int, now: int)
    | Removed(id: string)

  /** The expiry an extension writes: thirty days from the later of the expiry it read and its clock. */
  function NewExpiry(readExpiry: int, now: int): int {
    Max(readExpiry, now) + EXTENSION
  }

  ghost function Effect(t: Table, e: Event): Table {
    match e
    case Inserted(row) => Insert(t, row)
    case SentRecorded(id, at) => SetSent(t, id, at)
    case DeletionRecorded(id) => SetDeleted(t, id)
    case ExtensionRecorded(id, readExpiry, now) => SetExtended(t, id, NewExpiry(readExpiry, now))
    case Removed(id) => t - {id}
    case _ => t
  }

  /** The table after a log of events. */
  ghost function Replay(log: seq<Event>): Table {
    if log == [] then map[] else Effect(Replay(log[..|log| - 1]), log[|log| - 1])
  }

  /** What an extend request holds between its SELECT and its UPDATE: the row it read, and how long the log was then. */
  datatype Reading = Reading(row: Row, at: nat)

  datatype State = State(rows: Table, workers: map<nat, Phase>, requests: map<nat, Reading>, log: seq<Event>)

  const INITIAL := State(map[], map[], map[], [])

  datatype Step =
    | Begin(w: nat, c: Cycle)
    | ListExpiring(w: nat, listing: seq<Row>)
    | WarnNext(w: nat)
    | RecordSent(w: nat)
    | ListOverdue(w: nat, listing: seq<Row>)
    | DeleteNext(w: nat)
    | RecordDeleted(w: nat)
    | Abort(w: nat)
    | ReadForExtend(req: nat, id: string)
    | WriteExtend(req: nat, now: int)
    | Register(systemProject: string, server: NewServer, s: LifecycleSettings, now: int)
    | Remove(id: string)

  function PhaseOf(s: State, w: nat): Phase {
    if w in s.workers then s.workers[w] else Idle
  }

  function Move(s: State, w: nat, phase: Phase): State {
    s.(workers := s.workers[w := phase])
  }

  ghost function Emit(s: State, e: Event): State {
    s.(rows := Effect(s.rows, e), log := s.log + [e])
  }

  /** A step whose guard fails changes nothing. */
  ghost function Do(s: State, step: Step): State {
    match step
    case Begin(w, c) =>
      if PhaseOf(s, w).Idle? then Move(s, w, Starting(c)) else s
    case ListExpiring(w, listing) =>
      (match PhaseOf(s, w)
       case Starting(c) =>
         if IsListing(listing, s.rows, Expiring(c.now))
         then Move(Emit(s, ListedExpiring(w, c)), w, Warning(c, listing)) else s
       case _ => s)
    case WarnNext(w) =>
      (match PhaseOf(s, w)
       case Warning(c, todo) =>
         if todo == [] then s
         else
           var row, rest := todo[0], todo[1..];
           if Exempt(c, row) || row.status != NotSent || !c.mailOk(row.instanceId) then Move(s, w, Warning(c, rest))
           else Move(Emit(s, Mailed(w, c, row.instanceId)), w, RecordingSent(c, row.instanceId, rest))
       case _ => s)
    case RecordSent(w) =>
      (match PhaseOf(s, w)
       case RecordingSent(c, id, todo) => Move(Emit(s, SentRecorded(id, c.now)), w, Warning(c, todo))
       case _ => s)
    case ListOverdue(w, listing) =>
      (match PhaseOf(s, w)
       case Warning(c, todo) =>
         if todo == [] && IsListing(listing, s.rows, Awaiting(c.now - c.grace))
         then Move(Emit(s, ListedOverdue(w, c)), w, Deleting(c, listing)) else s
       case _ => s)
    case DeleteNext(w) =>
      (match PhaseOf(s, w)
       case Deleting(c, todo) =>
         if todo == [] then Move(s, w, Idle)
         else
           var row, rest := todo[0], todo[1..];
           if Exempt(c, row) then Move(s, w, Deleting(c, rest))
           else if !c.deleteOk(row.instanceId) then Move(Emit(s, DeleteAsked(w, c, row.instanceId)), w, Deleting(c, rest))
           else Move(Emit(s, DeleteAsked(w, c, row.instanceId)), w, RecordingDeleted(c, row.instanceId, rest))
       case _ => s)
    case RecordDeleted(w) =>
      (match PhaseOf(s, w)
       case RecordingDeleted(c, id, todo) => Move(Emit(s, DeletionRecorded(id)), w, Deleting(c, todo))
       case _ => s)
    case Abort(w) => Move(s, w, Idle)
    case ReadForExtend(req, id) =>
      if req !in s.requests && id in s.rows && s.rows[id].status != Deleted
      then s.(requests := s.requests[req := Reading(s.rows[id], |s.log|)]) else s
    case WriteExtend(req, now) =>
      if req in s.requests
      then
        var row := s.requests[req].row;
        var done := s.(requests := s.requests - {req});
        if row.instanceId in s.rows
        then Emit(done, ExtensionRecorded(row.instanceId, row.expiresAt, now)) else done
      else s
    case Register(systemProject, server, settings, now) =>
      var added := AfterRegistration(map[], systemProject, server, settings, now);
      if server.id in added && server.id !in s.rows then Emit(s, Inserted(added[server.id])) else s
    case Remove(id) => Emit(s, Removed(id))
  }

  ghost function Exec(s: State, steps: seq<Step>): State {
    if steps == [] then s else Do(Exec(s, steps[..|steps| - 1]), steps[|steps| - 1])
  }

  ghost predicate Reachable(s: State) {
    exists steps :: Exec(INITIAL, steps) == s
  }

  lemma Then(s: State, step: Step)
    requires Reachable(s)
    ensures Reachable(Do(s, step))
  {
    var steps :| Exec(INITIAL, steps) == s;
    assert (steps + [step])[..|steps|] == steps;
    assert Exec(INITIAL, steps + [step]) == Do(s, step);
  }

  // ---- Why an event may happen ----

  /** A warning mail about this instance succeeded in a check that started at `at`. */
  ghost predicate MailedAt(log: seq<Event>, id: string, at: int) {
    exists i :: 0 <= i < |log| && log[i].Mailed? && log[i].id == id && log[i].c.now == at
  }

  /** The deletion of this instance has been asked for. */
  ghost predicate AskedFor(log: seq<Event>, id: string) {
    exists i :: 0 <= i < |log| && log[i].DeleteAsked? && log[i].id == id
  }

  /** The table held this row, and the mail time in it is the time of a successful mail. */
  ghost predicate Held(log: seq<Event>, r: Row) {
    && r.instanceId in Replay(log) && Replay(log)[r.instanceId] == r
    && (r.sentAt.Some? ==> MailedAt(log, r.instanceId, r.sentAt.value))
  }

  ghost predicate ListedAs(log: seq<Event>, listing: Event, r: Row) {
    exists j :: 0 <= j < |log| && log[j] == listing && Held(log[..j], r)
  }

  ghost predicate Justified(before: seq<Event>, e: Event) {
    match e
    case Inserted(row) => row.status == NotSent && row.sentAt.None? && !row.extended && row.instanceId !in Replay(before)
    case Mailed(w, c, id) =>
      exists r :: ListedAs(before, ListedExpiring(w, c), r) && r.instanceId == id && Warns(c, r)
    case SentRecorded(id, at) => MailedAt(before, id, at)
    case DeleteAsked(w, c, id) =>
      exists r :: ListedAs(before, ListedOverdue(w, c), r) && r.instanceId == id && Deletes(c, r)
    case DeletionRecorded(id) => AskedFor(before, id)
    case ExtensionRecorded(id, _, _) => id in Replay(before)
    case _ => true
  }

  ghost predicate Sound(log: seq<Event>) {
    log != [] ==> Sound(log[..|log| - 1]) && Justified(log[..|log| - 1], log[|log| - 1])
  }

  ghost predicate PhaseOk(log: seq<Event>, w: nat, p: Phase) {
    match p
    case Warning(c, todo) =>
      forall r :: r in todo ==> ListedAs(log, ListedExpiring(w, c), r) && ExpiringBefore(r, c.now)
    case RecordingSent(c, id, todo) =>
      && MailedAt(log, id, c.now)
      && forall r :: r in todo ==> ListedAs(log, ListedExpiring(w, c), r) && ExpiringBefore(r, c.now)
    case Deleting(c, todo) =>
      forall r :: r in todo ==> ListedAs(log, ListedOverdue(w, c), r) && AwaitingReply(r, c.now - c.grace)
    case RecordingDeleted(c, id, todo) =>
      && AskedFor(log, id)
      && forall r :: r in todo ==> ListedAs(log, ListedOverdue(w, c), r) && AwaitingReply(r, c.now - c.grace)
    case _ => true
  }

  ghost predicate Invariant(s: State) {
    && s.rows == Replay(s.log) && Keyed(s.rows) && Sound(s.log)
    && forall w :: w in s.workers ==> PhaseOk(s.log, w, s.workers[w])
  }

  lemma {:induction false} ReplayKeyed(log: seq<Event>)
    ensures Keyed(Replay(log))
  {
    if log != [] {
      ReplayKeyed(log[..|log| - 1]);
    }
  }

  lemma MailedAtGrows(log: seq<Event>, e: Event, id: string, at: int)
    requires MailedAt(log, id, at)
    ensures MailedAt(log + [e], id, at)
  {
    var i :| 0 <= i < |log| && log[i].Mailed? && log[i].id == id && log[i].c.now == at;
    assert (log + [e])[i] == log[i];
  }

  lemma AskedForGrows(log: seq<Event>, e: Event, id: string)
    requires AskedFor(log, id)
    ensures AskedFor(log + [e], id)
  {
    var i :| 0 <= i < |log| && log[i].DeleteAsked? && log[i].id == id;
    assert (log + [e])[i] == log[i];
  }

  lemma ListedAsGrows(log: seq<Event>, e: Event, listing: Event, r: Row)
    requires ListedAs(log, listing, r)
    ensures ListedAs(log + [e], listing, r)
  {
    var j :| 0 <= j < |log| && log[j] == listing && Held(log[..j], r);
    assert (log + [e])[j] == log[j] && (log + [e])[..j] == log[..j];
  }

  lemma PhaseOkGrows(log: seq<Event>, e: Event, w: nat, p: Phase)
    requires PhaseOk(log, w, p)
    ensures PhaseOk(log + [e], w, p)
  {
    forall listing, r | ListedAs(log, listing, r) ensures ListedAs(log + [e], listing, r) {
      ListedAsGrows(log, e, listing, r);
    }
    if p.RecordingSent? {
      MailedAtGrows(log, e, p.id, p.c.now);
    } else if p.RecordingDeleted? {
      AskedForGrows(log, e, p.id);
    }
  }

  /** Every mail time in a table that a sound log leads to is the time of a successful mail. */
  lemma {:induction false} MailTimesAreTrue(log: seq<Event>)
    requires Sound(log)
    ensures forall id :: id in Replay(log) ==> Held(log, Replay(log)[id])
  {
    if log != [] {
      var front, e := log[..|log| - 1], log[|log| - 1];
      assert front + [e] == log;
      MailTimesAreTrue(front);
      ReplayKeyed(front);
      ReplayKeyed(log);
      forall id | id in Replay(log) ensures Held(log, Replay(log)[id]) {
        var r := Replay(log)[id];
        if r.sentAt.Some? {
          if e == SentRecorded(id, r.sentAt.value) {
            MailedAtGrows(front, e, id, r.sentAt.value);
          } else if id in Replay(front) {
            assert Replay(front)[id].sentAt == r.sentAt;
            assert Held(front, Replay(front)[id]);
            MailedAtGrows(front, e, id, r.sentAt.value);
          }
        }
      }
    }
  }

  lemma EmitKeeps(s: State, e: Event)
    requires Invariant(s) && Justified(s.log, e)
    ensures Invariant(Emit(s, e))
  {
    assert (s.log + [e])[..|s.log|] == s.log;
    ReplayKeyed(s.log + [e]);
    forall w | w in s.workers ensures PhaseOk(s.log + [e], w, s.workers[w]) {
      PhaseOkGrows(s.log, e, w, s.workers[w]);
    }
  }

  /** A listing that was just taken is a listing of the table of that moment. */
  lemma FreshListing(s: State, e: Event, r: Row)
    requires Invariant(s) && r.instanceId in s.rows && s.rows[r.instanceId] == r
    ensures ListedAs(s.log + [e], e, r)
  {
    MailTimesAreTrue(s.log);
    var log := s.log + [e];
    assert log[|s.log|] == e && log[..|s.log|] == s.log;
  }

  lemma MoveKeeps(s: State, w: nat, p: Phase)
    requires Invariant(s) && PhaseOk(s.log, w, p)
    ensures Invariant(Move(s, w, p))
  {
  }

  /** A scheduler logs an event and goes on with a phase that the new log supports. */
  lemma EmitAndMoveKeeps(s: State, e: Event, w: nat, p: Phase)
    requires Invariant(s) && Justified(s.log, e) && PhaseOk(s.log + [e], w, p)
    ensures Invariant(Move(Emit(s, e), w, p))
  {
    EmitKeeps(s, e);
    MoveKeeps(Emit(s, e), w, p);
  }

  lemma ListExpiringKeeps(s: State, w: nat, listing: seq<Row>)
    requires Invariant(s)
    ensures Invariant(Do(s, ListExpiring(w, listing)))
  {
    var p := PhaseOf(s, w);
    if p.Starting? && IsListing(listing, s.rows, Expiring(p.c.now)) {
      var e := ListedExpiring(w, p.c);
      forall r | r in listing ensures ListedAs(s.log + [e], e, r) { FreshListing(s, e, r); }
      EmitAndMoveKeeps(s, e, w, Warning(p.c, listing));
    }
  }

  lemma ListOverdueKeeps(s: State, w: nat, listing: seq<Row>)
    requires Invariant(s)
    ensures Invariant(Do(s, ListOverdue(w, listing)))
  {
    var p := PhaseOf(s, w);
    if p.Warning? && p.todo == [] && IsListing(listing, s.rows, Awaiting(p.c.now - p.c.grace)) {
      var e := ListedOverdue(w, p.c);
      forall r | r in listing ensures ListedAs(s.log + [e], e, r) { FreshListing(s, e, r); }
      EmitAndMoveKeeps(s, e, w, Deleting(p.c, listing));
    }
  }

  lemma WarnNextKeeps(s: State, w: nat)
    requires Invariant(s)
    ensures Invariant(Do(s, WarnNext(w)))
  {
    var p := PhaseOf(s, w);
    if p.Warning? && p.todo != [] {
      var c, row, rest := p.c, p.todo[0], p.todo[1..];
      assert row in p.todo && forall r :: r in rest ==> r in p.todo;
      if Exempt(c, row) || row.status != NotSent || !c.mailOk(row.instanceId) {
        MoveKeeps(s, w, Warning(c, rest));
      } else {
        var e := Mailed(w, c, row.instanceId);
        PhaseOkGrows(s.log, e, w, Warning(c, rest));
        assert (s.log + [e])[|s.log|] == e;
        EmitAndMoveKeeps(s, e, w, RecordingSent(c, row.instanceId, rest));
      }
    }
  }

  lemma AskingIsJustified(s: State, w: nat, c: Cycle, row: Row, rest: seq<Row>)
    requires PhaseOk(s.log, w, Deleting(c, [row] + rest)) && !Exempt(c, row)
    ensures var e := DeleteAsked(w, c, row.instanceId);
            && Justified(s.log, e) && AskedFor(s.log + [e], row.instanceId) && PhaseOk(s.log + [e], w, Deleting(c, rest))
  {
    var e := DeleteAsked(w, c, row.instanceId);
    assert row in [row] + rest && forall r :: r in rest ==> r in [row] + rest;
    assert ListedAs(s.log, ListedOverdue(w, c), row) && row.instanceId == e.id && Deletes(c, row);
    PhaseOkGrows(s.log, e, w, Deleting(c, rest));
    assert (s.log + [e])[|s.log|] == e;
  }

  lemma DeletingOnward(s: State, w: nat, c: Cycle, row: Row, rest: seq<Row>)
    requires Invariant(s) && PhaseOk(s.log, w, Deleting(c, [row] + rest)) && !Exempt(c, row)
    ensures var asked := Emit(s, DeleteAsked(w, c, row.instanceId));
            && Invariant(Move(asked, w, Deleting(c, rest)))
            && Invariant(Move(asked, w, RecordingDeleted(c, row.instanceId, rest)))
  {
    var e := DeleteAsked(w, c, row.instanceId);
    AskingIsJustified(s, w, c, row, rest);
    EmitKeeps(s, e);
    MoveKeeps(Emit(s, e), w, Deleting(c, rest));
    MoveKeeps(Emit(s, e), w, RecordingDeleted(c, row.instanceId, rest));
  }

  lemma DeleteNextKeeps(s: State, w: nat)
    requires Invariant(s)
    ensures Invariant(Do(s, DeleteNext(w)))
  {
    var p := PhaseOf(s, w);
    if p.Deleting? && p.todo != [] {
      var c, row, rest := p.c, p.todo[0], p.todo[1..];
      assert p.todo == [row] + rest && forall r :: r in rest ==> r in p.todo;
      if Exempt(c, row) {
        MoveKeeps(s, w, Deleting(c, rest));
        assert Do(s, DeleteNext(w)) == Move(s, w, Deleting(c, rest));
      } else {
        DeletingOnward(s, w, c, row, rest);
        assert Do(s, DeleteNext(w)) == Move(Emit(s, DeleteAsked(w, c, row.instanceId)), w,
          if c.deleteOk(row.instanceId) then RecordingDeleted(c, row.instanceId, rest) else Deleting(c, rest));
      }
    } else if p.Deleting? {
      MoveKeeps(s, w, Idle);
    }
  }

  lemma RecordKeeps(s: State, w: nat)
    requires Invariant(s)
    ensures Invariant(Do(s, RecordSent(w))) && Invariant(Do(s, RecordDeleted(w)))
  {
    var p := PhaseOf(s, w);
    if p.RecordingSent? {
      var e := SentRecorded(p.id, p.c.now);
      PhaseOkGrows(s.log, e, w, p);
      EmitAndMoveKeeps(s, e, w, Warning(p.c, p.todo));
    } else if p.RecordingDeleted? {
      var e := DeletionRecorded(p.id);
      PhaseOkGrows(s.log, e, w, p);
      EmitAndMoveKeeps(s, e, w, Deleting(p.c, p.todo));
    }
  }

  lemma WriteExtendKeeps(s: State, req: nat, now: int)
    requires Invariant(s)
    ensures Invariant(Do(s, WriteExtend(req, now)))
  {
    if req in s.requests {
      var row := s.requests[req].row;
      var done := s.(requests := s.requests - {req});
      assert Invariant(done);
      if row.instanceId in s.rows {
        var e := ExtensionRecorded(row.instanceId, row.expiresAt, now);
        EmitKeeps(done, e);
        assert Do(s, WriteExtend(req, now)) == Emit(done, e);
      } else {
        assert Do(s, WriteExtend(req, now)) == done;
      }
    }
  }

  lemma RegisterKeeps(s: State, systemProject: string, server: NewServer, settings: LifecycleSettings, now: int)
    requires Invariant(s)
    ensures Invariant(Do(s, Register(systemProject, server, settings, now)))
  {
    var added := AfterRegistration(map[], systemProject, server, settings, now);
    if server.id in added && server.id !in s.rows {
      EmitKeeps(s, Inserted(added[server.id]));
    }
  }

  lemma StepKeeps(s: State, step: Step)
    requires Invariant(s)
    ensures Invariant(Do(s, step))
  {
    match step
    case ListExpiring(w, listing) => ListExpiringKeeps(s, w, listing);
    case WarnNext(w) => WarnNextKeeps(s, w);
    case RecordSent(w) => RecordKeeps(s, w);
    case ListOverdue(w, listing) => ListOverdueKeeps(s, w, listing);
    case DeleteNext(w) => DeleteNextKeeps(s, w);
    case RecordDeleted(w) => RecordKeeps(s, w);
    case WriteExtend(req, now) => WriteExtendKeeps(s, req, now);
    case Register(systemProject, server, settings, now) => RegisterKeeps(s, systemProject, server, settings, now);
    case Remove(id) => EmitKeeps(s, Removed(id));
    case Begin(w, c) => MoveKeeps(s, w, Starting(c));
    case Abort(w) => MoveKeeps(s, w, Idle);
    case ReadForExtend(_, _) =>
  }

  lemma {:induction false} RunKeepsInvariant(steps: seq<Step>)
    ensures Invariant(Exec(INITIAL, steps))
  {
    if steps != [] {
      var n := |steps| - 1;
      RunKeepsInvariant(steps[..n]);
      StepKeeps(Exec(INITIAL, steps[..n]), steps[n]);
    }
  }

  lemma ReachableInvariant(s: State)
    requires Reachable(s)
    ensures Invariant(s)
  {
    var steps :| Exec(INITIAL, steps) == s;
    RunKeepsInvariant(steps);
  }

  // ---- Theorems about every reachable state ----

  /**
   What interleaving leaves of the row invariant: an unwarned row has no mail time, a sent one has
   one, and the status says extended only where the flag is set.
   */
  ghost predicate RowStaysSane(r: Row) {
    && (r.status == NotSent ==> r.sentAt.None? && !r.extended)
    && (r.status == Sent ==> r.sentAt.Some?)
    && (r.status == Extended ==> r.extended)
  }

  lemma {:induction false} SoundRows(log: seq<Event>)
    requires Sound(log)
    ensures forall id :: id in Replay(log) ==> RowStaysSane(Replay(log)[id])
  {
    if log != [] {
      SoundRows(log[..|log| - 1]);
    }
  }

  lemma EveryRowStaysSane(s: State)
    requires Reachable(s)
    ensures forall id :: id in s.rows ==> RowStaysSane(s.rows[id])
  {
    ReachableInvariant(s);
    SoundRows(s.log);
  }

  lemma {:induction false} SoundAt(log: seq<Event>, k: nat)
    requires Sound(log) && k < |log|
    ensures Justified(log[..k], log[k])
  {
    var n := |log| - 1;
    if k < n {
      SoundAt(log[..n], k);
      assert log[..n][..k] == log[..k];
    }
  }

  /** Between positions `i` and `j` the row of this instance is removed. */
  ghost predicate RemovedBetween(log: seq<Event>, i: int, j: int, id: string) {
    exists m :: 0 <= i < m < j <= |log| && log[m] == Removed(id)
  }

  ghost predicate IsExtensionOf(e: Event, id: string) {
    e.ExtensionRecorded? && e.id == id
  }

  /**
   No statement resets `extended`: once an extension is recorded, the row keeps the flag, and so
   stays out of every overdue listing, for as long as it exists, whatever is written meanwhile.
   */
  lemma {:induction false} ExtensionIsNeverLost(log: seq<Event>, i: nat, j: nat, id: string)
    requires Sound(log) && i < j <= |log| && IsExtensionOf(log[i], id) && !RemovedBetween(log, i, j, id)
    ensures id in Replay(log[..j]) && Replay(log[..j])[id].extended
    ensures forall threshold :: !AwaitingReply(Replay(log[..j])[id], threshold)
    decreases j
  {
    assert log[..j][..j - 1] == log[..j - 1];
    if j == i + 1 {
      SoundAt(log, i);
    } else {
      assert !RemovedBetween(log, i, j - 1, id);
      ExtensionIsNeverLost(log, i, j - 1, id);
      assert log[j - 1] != Removed(id);
    }
  }

  /** The state of affairs a scheduler must have seen to ask for a deletion. */
  ghost predicate SeenOverdue(log: seq<Event>, j: nat, w: nat, c: Cycle, id: string) {
    && j < |log| && log[j] == ListedOverdue(w, c)
    && var t := Replay(log[..j]);
       && id in t && t[id].status == Sent && !t[id].extended
       && (c.adminProject.Some? && c.adminProject.value != "" ==> t[id].projectId != c.adminProject.value)
       && t[id].sentAt.Some? && t[id].sentAt.value + c.grace <= c.now
       && MailedAt(log[..j], id, t[id].sentAt.value)
       && forall i :: 0 <= i < j && IsExtensionOf(log[i], id) ==> RemovedBetween(log, i, j, id)
  }

  lemma ListingPosition(log: seq<Event>, k: nat, listing: Event, r: Row) returns (j: nat)
    requires k <= |log| && ListedAs(log[..k], listing, r)
    ensures j < k && log[j] == listing && Held(log[..j], r)
  {
    j :| 0 <= j < k && log[..k][j] == listing && Held(log[..k][..j], r);
    assert log[..k][..j] == log[..j];
  }

  lemma OverdueRowWasSeen(log: seq<Event>, j: nat, w: nat, c: Cycle, r: Row)
    requires Sound(log) && j < |log| && log[j] == ListedOverdue(w, c) && Held(log[..j], r) && Deletes(c, r)
    ensures SeenOverdue(log, j, w, c, r.instanceId)
  {
    var id := r.instanceId;
    forall i | 0 <= i < j && IsExtensionOf(log[i], id) ensures RemovedBetween(log, i, j, id) {
      if !RemovedBetween(log, i, j, id) {
        ExtensionIsNeverLost(log, i, j, id);
      }
    }
  }

  /**
   Safety, for any number of concurrent schedulers: a request to delete an instance goes back to a
   listing of the same check at which the row was sent and not extended, a warning had reached the
   mail server in a check that started at the recorded time, the whole grace period of this check
   had passed since, and no extension of the row had been recorded.
   */
  lemma EveryDeletionIsJustified(s: State, k: nat)
    requires Reachable(s) && k < |s.log| && s.log[k].DeleteAsked?
    ensures exists j: nat :: j < k && SeenOverdue(s.log, j, s.log[k].worker, s.log[k].c, s.log[k].id)
  {
    ReachableInvariant(s);
    SoundAt(s.log, k);
    var log, w, c, id := s.log, s.log[k].worker, s.log[k].c, s.log[k].id;
    var r :| ListedAs(log[..k], ListedOverdue(w, c), r) && r.instanceId == id && Deletes(c, r);
    var j := ListingPosition(log, k, ListedOverdue(w, c), r);
    OverdueRowWasSeen(log, j, w, c, r);
  }

  /** The state of affairs a scheduler must have seen to mail a warning. */
  ghost predicate SeenExpired(log: seq<Event>, j: nat, w: nat, c: Cycle, id: string) {
    && j < |log| && log[j] == ListedExpiring(w, c)
    && var t := Replay(log[..j]);
       && id in t && t[id].status == NotSent && t[id].expiresAt <= c.now
       && (c.adminProject.Some? && c.adminProject.value != "" ==> t[id].projectId != c.adminProject.value)
  }

  lemma ExpiredRowWasSeen(log: seq<Event>, j: nat, w: nat, c: Cycle, r: Row)
    requires j < |log| && log[j] == ListedExpiring(w, c) && Held(log[..j], r) && Warns(c, r)
    ensures SeenExpired(log, j, w, c, r.instanceId)
  {
  }

  /** Every warning mail goes back to a listing at which the row had expired and was not yet warned. */
  lemma EveryWarningIsJustified(s: State, k: nat)
    requires Reachable(s) && k < |s.log| && s.log[k].Mailed?
    ensures exists j: nat :: j < k && SeenExpired(s.log, j, s.log[k].worker, s.log[k].c, s.log[k].id)
  {
    ReachableInvariant(s);
    SoundAt(s.log, k);
    var log, w, c, id := s.log, s.log[k].worker, s.log[k].c, s.log[k].id;
    var r :| ListedAs(log[..k], ListedExpiring(w, c), r) && r.instanceId == id && Warns(c, r);
    var j := ListingPosition(log, k, ListedExpiring(w, c), r);
    ExpiredRowWasSeen(log, j, w, c, r);
  }

  // ---- Instances that are registered once ----

  /** Nova gives no instance the id of another, so no id is registered twice. */
  ghost predicate NoIdTwice(log: seq<Event>) {
    forall i, j :: 0 <= i < j < |log| && log[i].Inserted? && log[j].Inserted? ==>
      log[i].row.instanceId != log[j].row.instanceId
  }

  ghost predicate Registered(log: seq<Event>, id: string) {
    exists i :: 0 <= i < |log| && log[i].Inserted? && log[i].row.instanceId == id
  }

  lemma {:induction false} RowWasRegistered(log: seq<Event>, id: string)
    requires id in Replay(log)
    ensures Registered(log, id)
  {
    var n := |log| - 1;
    if log[n].Inserted? && log[n].row.instanceId == id {
      assert Registered(log, id);
    } else {
      RowWasRegistered(log[..n], id);
      var i :| 0 <= i < n && log[..n][i].Inserted? && log[..n][i].row.instanceId == id;
      assert log[i].Inserted? && log[i].row.instanceId == id;
    }
  }

  /** A row that was there, and is there, has been there all the while. */
  lemma RowIsNotReborn(log: seq<Event>, a: nat, b: nat, id: string)
    requires NoIdTwice(log) && a < b < |log| && id in Replay(log[..a]) && id in Replay(log[..b + 1])
    ensures id in Replay(log[..b])
  {
    assert log[..b + 1][..b] == log[..b];
    RowWasRegistered(log[..a], id);
    var i :| 0 <= i < a && log[..a][i].Inserted? && log[..a][i].row.instanceId == id;
    assert log[i].Inserted? && !(log[b].Inserted? && log[b].row.instanceId == id);
  }

  lemma EventRemembers(t: Table, e: Event, id: string)
    requires id in t && id in Effect(t, e)
    ensures t[id].sentAt.Some? ==> Effect(t, e)[id].sentAt.Some?
    ensures !Effect(t, e)[id].extended ==> !t[id].extended && t[id].expiresAt == Effect(t, e)[id].expiresAt
  {
  }

  /** Mail times are not forgotten, and the expiry of a row that was never extended has not moved. */
  lemma {:induction false} RowRemembers(log: seq<Event>, a: nat, b: nat, id: string)
    requires NoIdTwice(log) && a <= b <= |log| && id in Replay(log[..a]) && id in Replay(log[..b])
    ensures Replay(log[..a])[id].sentAt.Some? ==> Replay(log[..b])[id].sentAt.Some?
    ensures !Replay(log[..b])[id].extended ==> Replay(log[..a])[id].expiresAt == Replay(log[..b])[id].expiresAt
    decreases b
  {
    if a < b {
      assert log[..b][..b - 1] == log[..b - 1];
      if a < b - 1 {
        RowIsNotReborn(log, a, b - 1, id);
      }
      RowRemembers(log, a, b - 1, id);
      EventRemembers(Replay(log[..b - 1]), log[b - 1], id);
    }
  }

  /** A deletion was asked for, and therefore the row once listed with its mail time. */
  lemma AskedRowHadMailTime(log: seq<Event>, id: string)
    requires Sound(log) && AskedFor(log, id)
    ensures exists j :: 0 <= j < |log| && id in Replay(log[..j]) && Replay(log[..j])[id].sentAt.Some?
  {
    var i :| 0 <= i < |log| && log[i].DeleteAsked? && log[i].id == id;
    SoundAt(log, i);
    var r :| ListedAs(log[..i], ListedOverdue(log[i].worker, log[i].c), r) && r.instanceId == id && Deletes(log[i].c, r);
    var j := ListingPosition(log, i, ListedOverdue(log[i].worker, log[i].c), r);
  }

  lemma {:induction false} DeletedRowsWereMailed(log: seq<Event>, id: string)
    requires Sound(log) && NoIdTwice(log) && id in Replay(log) && Replay(log)[id].status == Deleted
    ensures Replay(log)[id].sentAt.Some?
  {
    var n := |log| - 1;
    var front, e := log[..n], log[n];
    if e == DeletionRecorded(id) {
      AskedRowHadMailTime(front, id);
      var j :| 0 <= j < n && id in Replay(front[..j]) && Replay(front[..j])[id].sentAt.Some?;
      assert front[..j] == log[..j] && log[..|log|] == log;
      RowRemembers(log, j, |log|, id);
    } else {
      assert NoIdTwice(front);
      DeletedRowsWereMailed(front, id);
    }
  }

  /** With ids used once, a deleted row has a mail time, as in uninterrupted runs. */
  lemma DeletedRowsHaveMailTimes(s: State)
    requires Reachable(s) && NoIdTwice(s.log)
    ensures forall id :: id in s.rows && s.rows[id].status == Deleted ==> s.rows[id].sentAt.Some?
  {
    ReachableInvariant(s);
    forall id | id in s.rows && s.rows[id].status == Deleted ensures s.rows[id].sentAt.Some? {
      DeletedRowsWereMailed(s.log, id);
    }
  }

  /**
   The lower half of the deadline, for any interleaving: a check that asks for a deletion started no
   earlier than the expiry in the row it had listed, plus its own grace period.
   */
  lemma NoDeletionBeforeDeadline(s: State, k: nat)
    requires Reachable(s) && NoIdTwice(s.log) && k < |s.log| && s.log[k].DeleteAsked?
    ensures exists j: nat :: j < k && SeenOverdue(s.log, j, s.log[k].worker, s.log[k].c, s.log[k].id)
              && Replay(s.log[..j])[s.log[k].id].expiresAt + s.log[k].c.grace <= s.log[k].c.now
  {
    var log, c, id := s.log, s.log[k].c, s.log[k].id;
    ReachableInvariant(s);
    EveryDeletionIsJustified(s, k);
    var j: nat :| j < k && SeenOverdue(log, j, log[k].worker, c, id);
    var sentAt := Replay(log[..j])[id].sentAt.value;
    var i :| 0 <= i < j && log[..j][i].Mailed? && log[..j][i].id == id && log[..j][i].c.now == sentAt;
    EveryWarningIsJustified(s, i);
    var l: nat :| l < i && SeenExpired(log, l, log[i].worker, log[i].c, id);
    RowRemembers(log, l, j, id);
  }

  // ---- The administrator's project ----

  /** The configured project name recognises project `pid` at every registration. */
  ghost predicate Recognises(steps: seq<Step>, pid: string) {
    forall i :: 0 <= i < |steps| && steps[i].Register? && steps[i].server.projectId == pid ==>
      steps[i].server.projectName == steps[i].systemProject
  }

  /** The listing of the same check that an attempt on an instance comes from. */
  function ListingOf(e: Event): Event
    requires e.Mailed? || e.DeleteAsked?
  {
    if e.Mailed? then ListedExpiring(e.worker, e.c) else ListedOverdue(e.worker, e.c)
  }

  ghost predicate NeverInserted(log: seq<Event>, pid: string) {
    forall i :: 0 <= i < |log| && log[i].Inserted? ==> log[i].row.projectId != pid
  }

  lemma OnlyRegistrationInserts(s: State, step: Step)
    ensures s.log <= Do(s, step).log
    ensures forall i :: |s.log| <= i < |Do(s, step).log| && Do(s, step).log[i].Inserted? ==>
              && step.Register? && step.s.enabled && step.server.projectName != step.systemProject
              && IsNewRow(Do(s, step).log[i].row, step.server, step.now, step.s.lifetimeDays)
  {
  }

  lemma {:induction false} RecognisedIsNeverInserted(steps: seq<Step>, pid: string)
    requires Recognises(steps, pid)
    ensures NeverInserted(Exec(INITIAL, steps).log, pid)
  {
    if steps != [] {
      var n := |steps| - 1;
      RecognisedIsNeverInserted(steps[..n], pid);
      OnlyRegistrationInserts(Exec(INITIAL, steps[..n]), steps[n]);
    }
  }

  lemma {:induction false} NeverInsertedNeverHeld(log: seq<Event>, pid: string)
    requires NeverInserted(log, pid)
    ensures forall id :: id in Replay(log) ==> Replay(log)[id].projectId != pid
  {
    if log != [] {
      NeverInsertedNeverHeld(log[..|log| - 1], pid);
    }
  }

  /** If the configured name recognises the administrator's project, its instances never have a row. */
  lemma AdminProjectHasNoRow(steps: seq<Step>, pid: string, j: nat, id: string)
    requires Recognises(steps, pid) && j <= |Exec(INITIAL, steps).log|
    ensures var t := Replay(Exec(INITIAL, steps).log[..j]); id in t ==> t[id].projectId != pid
  {
    RecognisedIsNeverInserted(steps, pid);
    NeverInsertedNeverHeld(Exec(INITIAL, steps).log[..j], pid);
  }

  /**
   ... so every mail and every deletion request goes back to a listing of its own check that showed
   the instance in another project, even when the lookup of the project id fails.
   */
  lemma AdminProjectIsNeverTouched(steps: seq<Step>, pid: string, s: State, k: nat)
    requires Recognises(steps, pid) && s == Exec(INITIAL, steps)
    requires k < |s.log| && (s.log[k].DeleteAsked? || s.log[k].Mailed?)
    ensures exists j: nat :: j < k && s.log[j] == ListingOf(s.log[k])
              && s.log[k].id in Replay(s.log[..j]) && Replay(s.log[..j])[s.log[k].id].projectId != pid
  {
    assert Reachable(s);
    var j: nat;
    if s.log[k].DeleteAsked? {
      EveryDeletionIsJustified(s, k);
      j :| j < k && SeenOverdue(s.log, j, s.log[k].worker, s.log[k].c, s.log[k].id);
    } else {
      EveryWarningIsJustified(s, k);
      j :| j < k && SeenExpired(s.log, j, s.log[k].worker, s.log[k].c, s.log[k].id);
    }
    AdminProjectHasNoRow(steps, pid, j, s.log[k].id);
  }
}
