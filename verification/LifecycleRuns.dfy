/**
 Whole histories in which every operation runs to its end before the next one starts: what every
 reachable table satisfies, how extensions add up, and when an unattended instance is deleted.
 */
module LifecycleRuns {
  import opened Common
  import opened LifecycleTable
  import opened LifecycleCycle

  datatype Op =
    | Check(c: Cycle)
    | Extend(id: string, now: int)
    | Register(systemProject: string, server: NewServer, s: LifecycleSettings, now: int)
    | Remove(id: string)

  function Apply(t: Table, op: Op): Table {
    match op
    case Check(c) => AfterCycle(c, t)
    case Extend(id, now) => AfterExtend(t, id, now)
    case Register(systemProject, server, s, now) => AfterRegistration(t, systemProject, server, s, now)
    case Remove(id) => t - {id}
  }

  method CheckOnce(db: LifecycleDb, c: Cycle)
    requires Keyed(db.rows)
    modifies db
    ensures db.rows == AfterCycle(c, old(db.rows)) && Keyed(db.rows)
  {
    ghost var t := db.rows;
    var _ := WarnExpiring(db, c);
    var _ := DeleteOverdue(db, c);
    assert db.rows == AfterCycle(c, t);
  }

  function Run(t: Table, ops: seq<Op>): Table {
    if ops == [] then t else Apply(Run(t, ops[..|ops| - 1]), ops[|ops| - 1])
  }

  /** The operations of a run, one after the other, on the table itself. */
  method Perform(db: LifecycleDb, ops: seq<Op>)
    requires Keyed(db.rows)
    modifies db
    ensures db.rows == Run(old(db.rows), ops)
  {
    for i := 0 to |ops|
      invariant Keyed(db.rows) && db.rows == Run(old(db.rows), ops[..i])
    {
      assert ops[..i + 1][..i] == ops[..i];
      match ops[i]
      case Check(c) => CheckOnce(db, c);
      case Extend(id, now) => var _ := ExtendInstanceLifecycle(db, id, now);
      case Register(systemProject, server, s, now) =>
        if s.enabled && server.projectName != systemProject {
          var _ := db.CreateInstanceLifecycle(
            server.id, server.name, server.userId, server.projectId, server.email.GetOr(""), now, now + s.lifetimeDays * 86400);
        }
      case Remove(id) => db.DeleteInstanceLifecycle(id);
    }
    assert ops[..|ops|] == ops;
  }

  /** No operation of the run takes the row of this instance away. */
  ghost predicate Keeps(ops: seq<Op>, id: string) {
    forall i :: 0 <= i < |ops| && ops[i].Remove? ==> ops[i].id != id
  }

  /** What one operation other than a removal does to one row. */
  function AfterOp(op: Op, r: Row): Row {
    match op
    case Check(c) => AfterDeletion(c, AfterWarning(c, r))
    case Extend(id, now) =>
      if id == r.instanceId && r.status != Deleted then MarkExtended(r, Max(r.expiresAt, now) + EXTENSION) else r
    case _ => r
  }

  /** Operations on other instances, and a second registration, leave a row alone. */
  lemma RowByRow(t: Table, ops: seq<Op>, id: string)
    requires Keyed(t) && id in t && Keeps(ops, id)
    ensures Keyed(Run(t, ops)) && id in Run(t, ops)
    ensures ops != [] ==>
              var before := Run(t, ops[..|ops| - 1]);
              Keyed(before) && id in before && Run(t, ops)[id] == AfterOp(ops[|ops| - 1], before[id])
  {
    if ops != [] {
      RowByRow(t, ops[..|ops| - 1], id);
    }
  }

  // ---- Every reachable table ----

  ghost predicate RowInvariant(r: Row) {
    && (r.extended <==> r.status == Extended)
    && (r.status == NotSent ==> r.sentAt.None?)
    && (r.status == Sent || r.status == Deleted ==> r.sentAt.Some?)
  }

  ghost predicate TableInvariant(t: Table) {
    Keyed(t) && forall id :: id in t ==> RowInvariant(t[id])
  }

  lemma {:induction false} ReachableTables(ops: seq<Op>)
    ensures TableInvariant(Run(map[], ops))
  {
    if ops != [] {
      ReachableTables(ops[..|ops| - 1]);
    }
  }

  /** No check and no extension changes a deleted row; only removal ends it. */
  lemma {:induction false} DeletedIsTerminal(t: Table, ops: seq<Op>, id: string)
    requires id in t && t[id].status == Deleted && Keeps(ops, id)
    ensures id in Run(t, ops) && Run(t, ops)[id] == t[id]
  {
    if ops != [] {
      DeletedIsTerminal(t, ops[..|ops| - 1], id);
    }
  }

  /** The clock readings of the checks that successfully mailed the owner of this instance. */
  function WarningTimes(t: Table, ops: seq<Op>, id: string): seq<int> {
    if ops == [] then []
    else
      var front, last := ops[..|ops| - 1], ops[|ops| - 1];
      var before := Run(t, front);
      WarningTimes(t, front, id)
      + (if last.Check? && id in before && Warns(last.c, before[id]) && last.c.mailOk(id) then [last.c.now] else [])
  }

  /** The clock readings of the checks that asked Nova to delete this instance. */
  function DeletionTimes(t: Table, ops: seq<Op>, id: string): seq<int> {
    if ops == [] then []
    else
      var front, last := ops[..|ops| - 1], ops[|ops| - 1];
      var before := Run(t, front);
      DeletionTimes(t, front, id)
      + (if last.Check? && id in before && Deletes(last.c, AfterWarning(last.c, before[id])) then [last.c.now] else [])
  }

  /** At most one warning mail reaches the owner of a row, and it leaves its time in the row. */
  lemma {:induction false} OneWarningPerRow(t: Table, ops: seq<Op>, id: string)
    requires Keyed(t) && id in t && Keeps(ops, id)
    ensures id in Run(t, ops) && Keyed(Run(t, ops))
    ensures t[id].status != NotSent ==> Run(t, ops)[id].status != NotSent
    ensures t[id].status != NotSent ==> WarningTimes(t, ops, id) == []
    ensures |WarningTimes(t, ops, id)| <= 1
    ensures Run(t, ops)[id].status == NotSent ==> WarningTimes(t, ops, id) == []
    ensures WarningTimes(t, ops, id) != [] ==> Run(t, ops)[id].sentAt == Some(WarningTimes(t, ops, id)[0])
  {
    if ops != [] {
      OneWarningPerRow(t, ops[..|ops| - 1], id);
    }
  }

  /** After one confirmed extension, no check ever warns about or deletes the instance again. */
  lemma {:induction false} ExtendedIsNeverTouchedAgain(t: Table, ops: seq<Op>, id: string)
    requires Keyed(t) && id in t && t[id].extended && RowInvariant(t[id]) && Keeps(ops, id)
    ensures id in Run(t, ops) && Run(t, ops)[id].extended && RowInvariant(Run(t, ops)[id]) && Keyed(Run(t, ops))
    ensures WarningTimes(t, ops, id) == [] && DeletionTimes(t, ops, id) == []
  {
    if ops != [] {
      ExtendedIsNeverTouchedAgain(t, ops[..|ops| - 1], id);
    }
  }

  // ---- Extension arithmetic ----

  predicate Confirmed(t: Table, op: Op, id: string) {
    op.Extend? && op.id == id && id in t && t[id].status != Deleted
  }

  function Extensions(t: Table, ops: seq<Op>, id: string): nat {
    if ops == [] then 0
    else
      var front, last := ops[..|ops| - 1], ops[|ops| - 1];
      Extensions(t, front, id) + (if Confirmed(Run(t, front), last, id) then 1 else 0)
  }

  /** How many seconds, in all, the confirmed extensions came after the expiry they replaced. */
  function Lateness(t: Table, ops: seq<Op>, id: string): nat {
    if ops == [] then 0
    else
      var front, last := ops[..|ops| - 1], ops[|ops| - 1];
      var before := Run(t, front);
      Lateness(t, front, id)
      + (if Confirmed(before, last, id) then Max(0, last.now - before[id].expiresAt) else 0)
  }

  lemma OneOperation(before: Table, op: Op, id: string)
    requires Keyed(before) && id in before
    ensures AfterOp(op, before[id]).expiresAt == before[id].expiresAt
              + if Confirmed(before, op, id) then EXTENSION + Max(0, op.now - before[id].expiresAt) else 0
  {
  }

  lemma {:induction false} ExtensionsAddUp(t: Table, ops: seq<Op>, id: string)
    requires Keyed(t) && id in t && Keeps(ops, id)
    ensures id in Run(t, ops)
    ensures Run(t, ops)[id].expiresAt == t[id].expiresAt + Extensions(t, ops, id) * (30 * 86400) + Lateness(t, ops, id)
  {
    RowByRow(t, ops, id);
    if ops != [] {
      var front, last := ops[..|ops| - 1], ops[|ops| - 1];
      var before := Run(t, front);
      ExtensionsAddUp(t, front, id);
      OneOperation(before, last, id);
      assert Run(t, ops)[id].expiresAt == AfterOp(last, before[id]).expiresAt;
      if Confirmed(before, last, id) {
        assert Extensions(t, ops, id) == Extensions(t, front, id) + 1;
        assert Lateness(t, ops, id) == Lateness(t, front, id) + Max(0, last.now - before[id].expiresAt);
      } else {
        assert Extensions(t, ops, id) == Extensions(t, front, id);
        assert Lateness(t, ops, id) == Lateness(t, front, id);
      }
    }
  }

  /** If operation `i` is a confirmed extension, it came no later than the expiry it replaced. */
  ghost predicate OnTime(t: Table, ops: seq<Op>, id: string, i: int)
    requires 0 <= i < |ops|
  {
    var before := Run(t, ops[..i]);
    Confirmed(before, ops[i], id) ==> ops[i].now <= before[id].expiresAt
  }

  /** Thirty days per extension are the whole gain exactly when none was late. */
  lemma {:induction false} NoLatenessIffAllOnTime(t: Table, ops: seq<Op>, id: string)
    ensures Lateness(t, ops, id) == 0 <==> forall i :: 0 <= i < |ops| ==> OnTime(t, ops, id, i)
  {
    if ops != [] {
      var n := |ops| - 1;
      NoLatenessIffAllOnTime(t, ops[..n], id);
      forall i | 0 <= i < n ensures OnTime(t, ops, id, i) == OnTime(t, ops[..n], id, i) {
        assert ops[..n][..i] == ops[..i];
      }
      assert OnTime(t, ops, id, n) <==> Lateness(t, ops, id) == Lateness(t, ops[..n], id);
    }
  }

  /** The expiry never moves back, and right after a confirmed extension it is thirty days away at least. */
  lemma {:induction false} ExpiryOnlyGrows(t: Table, ops: seq<Op>, id: string)
    requires Keyed(t) && id in t && Keeps(ops, id)
    ensures id in Run(t, ops) && t[id].expiresAt <= Run(t, ops)[id].expiresAt
    ensures ops != [] && Confirmed(Run(t, ops[..|ops| - 1]), ops[|ops| - 1], id) ==>
              Run(t, ops)[id].expiresAt >= ops[|ops| - 1].now + EXTENSION
  {
    RowByRow(t, ops, id);
    if ops != [] {
      ExpiryOnlyGrows(t, ops[..|ops| - 1], id);
    }
  }

  // ---- The deadline of an unattended instance ----

  /** Settings are fixed, mail and deletion work, the project is not exempt, and nobody reacts. */
  ghost predicate Unattended(ops: seq<Op>, r: Row, grace: int) {
    forall i :: 0 <= i < |ops| ==>
      match ops[i]
      case Check(c) => c.grace == grace && !Exempt(c, r) && c.mailOk(r.instanceId) && c.deleteOk(r.instanceId)
      case Extend(id, _) => id != r.instanceId
      case Remove(id) => id != r.instanceId
      case Register(_, _, _, _) => true
  }

  function CheckTimes(ops: seq<Op>): seq<int> {
    if ops == [] then []
    else CheckTimes(ops[..|ops| - 1]) + (if ops[|ops| - 1].Check? then [ops[|ops| - 1].c.now] else [])
  }

  ghost predicate Sorted(times: seq<int>) {
    forall i, j :: 0 <= i < j < |times| ==> times[i] <= times[j]
  }

  /** The earliest of the times at or after `x`. */
  function FirstFrom(times: seq<int>, x: int): Option<int> {
    if times == [] then None
    else
      var earlier := FirstFrom(times[..|times| - 1], x);
      if earlier.Some? then earlier
      else if times[|times| - 1] >= x then Some(times[|times| - 1])
      else None
  }

  lemma {:induction false} FirstFromSpec(times: seq<int>, x: int)
    requires Sorted(times)
    ensures FirstFrom(times, x).None? ==> forall i :: 0 <= i < |times| ==> times[i] < x
    ensures FirstFrom(times, x).Some? ==>
              var m := FirstFrom(times, x).value;
              m >= x && exists i :: 0 <= i < |times| && times[i] == m && forall j :: 0 <= j < i ==> times[j] < x
  {
    if times != [] {
      var n := |times| - 1;
      FirstFromSpec(times[..n], x);
      if FirstFrom(times[..n], x).Some? {
        var m := FirstFrom(times[..n], x).value;
        var i :| 0 <= i < n && times[..n][i] == m && forall j :: 0 <= j < i ==> times[..n][j] < x;
        assert times[i] == m && forall j :: 0 <= j < i ==> times[j] == times[..n][j];
      } else if times[n] >= x {
        assert forall j :: 0 <= j < n ==> times[j] == times[..n][j];
      } else {
        assert forall j :: 0 <= j < n ==> times[j] == times[..n][j];
      }
    }
  }

  /** The time of the warning, then of the deletion, of an unattended row, if they have come. */
  function WarnedAt(r: Row, times: seq<int>): Option<int> {
    FirstFrom(times, r.expiresAt)
  }

  function DeletedAt(r: Row, times: seq<int>, grace: int): Option<int> {
    var m := WarnedAt(r, times);
    if m.None? then None else FirstFrom(times, m.value + Max(grace, 0))
  }

  function Predicted(r: Row, times: seq<int>, grace: int): Row {
    if WarnedAt(r, times).None? then r
    else if DeletedAt(r, times, grace).None? then MarkSent(r, WarnedAt(r, times).value)
    else MarkDeleted(MarkSent(r, WarnedAt(r, times).value))
  }

  function AsSeq(o: Option<int>): seq<int> {
    if o.Some? then [o.value] else []
  }

  lemma {:induction false} NothingFromLater(times: seq<int>, x: int, y: int)
    requires FirstFrom(times, x).None? && x <= y
    ensures FirstFrom(times, y).None?
  {
    if times != [] {
      NothingFromLater(times[..|times| - 1], x, y);
    }
  }

  lemma FirstFromNext(times: seq<int>, now: int, x: int)
    requires Sorted(times + [now])
    ensures FirstFrom(times, x).Some? ==> FirstFrom(times + [now], x) == FirstFrom(times, x) && x <= FirstFrom(times, x).value <= now
    ensures FirstFrom(times, x).None? ==> FirstFrom(times + [now], x) == if now >= x then Some(now) else None
  {
    assert (times + [now])[..|times|] == times;
    assert forall i :: 0 <= i < |times| ==> times[i] == (times + [now])[i] <= (times + [now])[|times|];
    FirstFromSpec(times, x);
  }

  /** One more check advances the prediction. */
  lemma OneMoreCheck(r: Row, times: seq<int>, c: Cycle)
    requires r.status == NotSent && !r.extended && Sorted(times + [c.now])
    requires !Exempt(c, r) && c.mailOk(r.instanceId) && c.deleteOk(r.instanceId)
    ensures var before, later := Predicted(r, times, c.grace), times + [c.now];
            && AfterDeletion(c, AfterWarning(c, before)) == Predicted(r, later, c.grace)
            && (Warns(c, before) <==> WarnedAt(r, times).None? && WarnedAt(r, later).Some?)
            && (Deletes(c, AfterWarning(c, before)) <==> DeletedAt(r, times, c.grace).None? && DeletedAt(r, later, c.grace).Some?)
            && (WarnedAt(r, times).Some? ==> WarnedAt(r, later) == WarnedAt(r, times))
            && (DeletedAt(r, times, c.grace).Some? ==> DeletedAt(r, later, c.grace) == DeletedAt(r, times, c.grace))
            && (Warns(c, before) ==> WarnedAt(r, later) == Some(c.now))
            && (Deletes(c, AfterWarning(c, before)) ==> DeletedAt(r, later, c.grace) == Some(c.now))
  {
    FirstFromNext(times, c.now, r.expiresAt);
    if WarnedAt(r, times).Some? {
      FirstFromNext(times, c.now, WarnedAt(r, times).value + Max(c.grace, 0));
    } else {
      FirstFromNext(times, c.now, c.now + Max(c.grace, 0));
      if c.now >= r.expiresAt {
        NothingFromLater(times, r.expiresAt, c.now + Max(c.grace, 0));
      }
    }
  }

  /**
   The exact history of an unattended row: it is warned at the first check from its expiry on and
   deleted at the first check from that mail plus the grace period on, and nothing else happens.
   */
  lemma {:induction false} UnattendedHistory(t: Table, ops: seq<Op>, id: string, grace: int)
    requires Keyed(t) && id in t && t[id].status == NotSent && !t[id].extended
    requires Unattended(ops, t[id], grace) && Sorted(CheckTimes(ops))
    ensures Keyed(Run(t, ops)) && id in Run(t, ops)
    ensures Run(t, ops)[id] == Predicted(t[id], CheckTimes(ops), grace)
    ensures WarningTimes(t, ops, id) == AsSeq(WarnedAt(t[id], CheckTimes(ops)))
    ensures DeletionTimes(t, ops, id) == AsSeq(DeletedAt(t[id], CheckTimes(ops), grace))
  {
    RowByRow(t, ops, id);
    if ops != [] {
      var n := |ops| - 1;
      var front := ops[..n];
      assert forall i :: 0 <= i < |CheckTimes(front)| ==> CheckTimes(front)[i] == CheckTimes(ops)[i];
      UnattendedHistory(t, front, id, grace);
      if ops[n].Check? {
        OneMoreCheck(t[id], CheckTimes(front), ops[n].c);
      } else {
        assert CheckTimes(ops) == CheckTimes(front);
      }
    }
  }

  ghost predicate Spaced(times: seq<int>, period: nat) {
    forall i :: 0 <= i < |times| - 1 ==> times[i] <= times[i + 1] <= times[i] + period
  }

  lemma {:induction false} SpacedIsSorted(times: seq<int>, period: nat)
    requires Spaced(times, period)
    ensures Sorted(times)
  {
    if times != [] {
      var n := |times| - 1;
      assert forall i :: 0 <= i < n ==> times[..n][i] == times[i];
      SpacedIsSorted(times[..n], period);
      if n > 0 {
        assert times[n - 1] <= times[n - 1 + 1];
      }
      assert forall i, j :: 0 <= i < j < n ==> times[i] == times[..n][i] && times[j] == times[..n][j];
    }
  }

  /** With a check at or before `x` and one at or after it, some check falls less than a period after `x`. */
  lemma FirstFromWithin(times: seq<int>, x: int, period: nat)
    requires Spaced(times, period) && times != [] && times[0] <= x <= times[|times| - 1]
    ensures FirstFrom(times, x).Some? && x <= FirstFrom(times, x).value <= x + period
  {
    SpacedIsSorted(times, period);
    FirstFromSpec(times, x);
    var m := FirstFrom(times, x).value;
    var i :| 0 <= i < |times| && times[i] == m && forall j :: 0 <= j < i ==> times[j] < x;
    if i > 0 {
      assert times[i - 1] <= times[i - 1 + 1] <= times[i - 1] + period;
    }
  }

  lemma DeadlineOfRow(r: Row, times: seq<int>, grace: int, period: nat)
    requires Spaced(times, period) && times != [] && times[0] <= r.expiresAt
    requires times[|times| - 1] >= r.expiresAt + Max(grace, 0) + 2 * period
    ensures WarnedAt(r, times).Some? && DeletedAt(r, times, grace).Some?
    ensures r.expiresAt + Max(grace, 0) <= DeletedAt(r, times, grace).value <= r.expiresAt + Max(grace, 0) + 2 * period
  {
    FirstFromWithin(times, r.expiresAt, period);
    FirstFromWithin(times, WarnedAt(r, times).value + Max(grace, 0), period);
  }

  /**
   The two-sided deadline: with checks at most `period` seconds apart, an unattended instance is
   deleted exactly once, no earlier than expiry plus grace and no later than two periods after that.
   */
  lemma TwoSidedDeadline(t: Table, ops: seq<Op>, id: string, grace: int, period: nat)
    requires Keyed(t) && id in t && t[id].status == NotSent && !t[id].extended
    requires Unattended(ops, t[id], grace)
    requires Spaced(CheckTimes(ops), period) && CheckTimes(ops) != [] && CheckTimes(ops)[0] <= t[id].expiresAt
    requires CheckTimes(ops)[|CheckTimes(ops)| - 1] >= t[id].expiresAt + Max(grace, 0) + 2 * period
    ensures id in Run(t, ops) && Run(t, ops)[id].status == Deleted
    ensures exists d :: DeletionTimes(t, ops, id) == [d]
              && t[id].expiresAt + Max(grace, 0) <= d <= t[id].expiresAt + Max(grace, 0) + 2 * period
  {
    var r, times := t[id], CheckTimes(ops);
    SpacedIsSorted(times, period);
    DeadlineOfRow(r, times, grace, period);
    UnattendedHistory(t, ops, id, grace);
    assert DeletionTimes(t, ops, id) == [DeletedAt(r, times, grace).value];
  }

  // ---- When every deletion fails ----

  /** As `Unattended`, but Nova refuses every deletion, or the request to it never leaves the server. */
  ghost predicate UnattendedAndRefused(ops: seq<Op>, r: Row, grace: int) {
    forall i :: 0 <= i < |ops| ==>
      match ops[i]
      case Check(c) => c.grace == grace && !Exempt(c, r) && c.mailOk(r.instanceId) && !c.deleteOk(r.instanceId)
      case Extend(id, _) => id != r.instanceId
      case Remove(id) => id != r.instanceId
      case Register(_, _, _, _) => true
  }

  /** All the times at or after `x`. */
  function AllFrom(times: seq<int>, x: int): seq<int> {
    if times == [] then []
    else
      var front, last := times[..|times| - 1], times[|times| - 1];
      AllFrom(front, x) + (if last >= x then [last] else [])
  }

  /** The attempts on an unattended row: at every check from the mail plus the grace period on. */
  function AttemptsAt(r: Row, times: seq<int>, grace: int): seq<int> {
    var m := WarnedAt(r, times);
    if m.None? then [] else AllFrom(times, m.value + Max(grace, 0))
  }

  function StillSent(r: Row, times: seq<int>): Row {
    if WarnedAt(r, times).None? then r else MarkSent(r, WarnedAt(r, times).value)
  }

  lemma {:induction false} NoneFrom(times: seq<int>, x: int, y: int)
    requires FirstFrom(times, x).None? && x <= y
    ensures AllFrom(times, y) == []
  {
    if times != [] {
      NoneFrom(times[..|times| - 1], x, y);
    }
  }

  lemma OneMoreRefusal(r: Row, times: seq<int>, c: Cycle)
    requires r.status == NotSent && !r.extended && Sorted(times + [c.now])
    requires !Exempt(c, r) && c.mailOk(r.instanceId) && !c.deleteOk(r.instanceId)
    ensures var before, later := StillSent(r, times), times + [c.now];
            && AfterDeletion(c, AfterWarning(c, before)) == StillSent(r, later)
            && AttemptsAt(r, later, c.grace)
                 == AttemptsAt(r, times, c.grace) + if Deletes(c, AfterWarning(c, before)) then [c.now] else []
  {
    FirstFromNext(times, c.now, r.expiresAt);
    assert (times + [c.now])[..|times|] == times;
    if WarnedAt(r, times).None? && c.now >= r.expiresAt {
      NoneFrom(times, r.expiresAt, c.now + Max(c.grace, 0));
    }
  }

  /**
   If no deletion ever succeeds, an unattended row stays sent for ever, and every check from the mail
   plus the grace period on asks for the deletion again.
   */
  lemma {:induction false} RefusedHistory(t: Table, ops: seq<Op>, id: string, grace: int)
    requires Keyed(t) && id in t && t[id].status == NotSent && !t[id].extended
    requires UnattendedAndRefused(ops, t[id], grace) && Sorted(CheckTimes(ops))
    ensures Keyed(Run(t, ops)) && id in Run(t, ops)
    ensures Run(t, ops)[id] == StillSent(t[id], CheckTimes(ops))
    ensures DeletionTimes(t, ops, id) == AttemptsAt(t[id], CheckTimes(ops), grace)
  {
    RowByRow(t, ops, id);
    if ops != [] {
      var n := |ops| - 1;
      var front := ops[..n];
      assert forall i :: 0 <= i < |CheckTimes(front)| ==> CheckTimes(front)[i] == CheckTimes(ops)[i];
      RefusedHistory(t, front, id, grace);
      if ops[n].Check? {
        OneMoreRefusal(t[id], CheckTimes(front), ops[n].c);
      } else {
        assert CheckTimes(ops) == CheckTimes(front);
      }
    }
  }

  // ---- From the registration on ----

  /** The row is that of a registration that asked for it, possibly extended since. */
  ghost predicate StemsFrom(op: Op, r: Row) {
    && op.Register? && op.s.enabled && op.server.projectName != op.systemProject
    && r.instanceId == op.server.id && r.projectId == op.server.projectId && r.userId == op.server.userId
    && r.createdAt == op.now && r.expiresAt >= op.now + op.s.lifetimeDays * 86400
  }

  lemma OneOperationKeepsOrigin(before: Table, op: Op, id: string)
    requires Keyed(before) && id in Apply(before, op)
    ensures Keyed(Apply(before, op))
    ensures if id in before
            then forall origin :: StemsFrom(origin, before[id]) ==> StemsFrom(origin, Apply(before, op)[id])
            else StemsFrom(op, Apply(before, op)[id])
  {
  }

  /** In every run, every row stems from a registration while the feature was enabled, outside the system's project. */
  lemma {:induction false} RowsStemFromRegistrations(ops: seq<Op>, id: string)
    requires id in Run(map[], ops)
    ensures Keyed(Run(map[], ops))
    ensures exists i :: 0 <= i < |ops| && StemsFrom(ops[i], Run(map[], ops)[id])
  {
    var n := |ops| - 1;
    var before := Run(map[], ops[..n]);
    ReachableTables(ops[..n]);
    OneOperationKeepsOrigin(before, ops[n], id);
    if id in before {
      RowsStemFromRegistrations(ops[..n], id);
      var i :| 0 <= i < n && StemsFrom(ops[..n][i], before[id]);
      assert StemsFrom(ops[i], Run(map[], ops)[id]);
    }
  }

  ghost predicate GraceAtLeast(ops: seq<Op>, grace: int) {
    forall i :: 0 <= i < |ops| && ops[i].Check? ==> ops[i].c.grace >= grace
  }

  /** Whatever else happens, no mail before the expiry and no deletion before expiry plus grace. */
  lemma {:induction false} NothingBeforeExpiry(t: Table, ops: seq<Op>, id: string, grace: int)
    requires Keyed(t) && id in t && Keeps(ops, id) && GraceAtLeast(ops, grace)
    requires t[id].status == NotSent && t[id].sentAt.None?
    ensures id in Run(t, ops) && t[id].expiresAt <= Run(t, ops)[id].expiresAt
    ensures Run(t, ops)[id].sentAt.Some? ==> t[id].expiresAt <= Run(t, ops)[id].sentAt.value
    ensures forall x :: x in WarningTimes(t, ops, id) ==> t[id].expiresAt <= x
    ensures forall x :: x in DeletionTimes(t, ops, id) ==> t[id].expiresAt + grace <= x
  {
    RowByRow(t, ops, id);
    if ops != [] {
      NothingBeforeExpiry(t, ops[..|ops| - 1], id, grace);
    }
  }

  /** The registration adds the row, whatever the other rows are. */
  lemma RegistrationAddsRow(before: Table, op: Op)
    requires Keyed(before) && op.Register? && op.server.id !in before
    requires op.s.enabled && op.server.projectName != op.systemProject
    ensures Keyed(Apply(before, op)) && op.server.id in Apply(before, op)
    ensures IsNewRow(Apply(before, op)[op.server.id], op.server, op.now, op.s.lifetimeDays)
  {
  }

  /**
   An instance registered at some time with a lifetime of so many days is mailed about no earlier than
   that many days later, and its deletion is asked for no earlier than the grace period after that,
   whatever else happens.
   */
  lemma RegisteredInstanceHasItsTime(before: Table, op: Op, later: seq<Op>, grace: int)
    requires Keyed(before) && op.Register? && op.server.id !in before
    requires op.s.enabled && op.server.projectName != op.systemProject
    requires Keeps(later, op.server.id) && GraceAtLeast(later, grace)
    ensures var t, id, end := Apply(before, op), op.server.id, op.now + op.s.lifetimeDays * 86400;
            && (forall x :: x in WarningTimes(t, later, id) ==> end <= x)
            && (forall x :: x in DeletionTimes(t, later, id) ==> end + grace <= x)
  {
    RegistrationAddsRow(before, op);
    NothingBeforeExpiry(Apply(before, op), later, op.server.id, grace);
  }

  /**
   With checks at most `period` apart and nobody reacting, it is mailed about exactly once, at most one
   period after its lifetime, and deleted exactly once, at most two periods after the grace period.
   */
  lemma RegisteredInstanceIsReclaimed(before: Table, op: Op, later: seq<Op>, grace: int, period: nat)
    requires Keyed(before) && op.Register? && op.server.id !in before
    requires op.s.enabled && op.server.projectName != op.systemProject
    requires var t := Apply(before, op);
             op.server.id in t && Unattended(later, t[op.server.id], grace)
    requires var times, end := CheckTimes(later), op.now + op.s.lifetimeDays * 86400;
             Spaced(times, period) && times != [] && times[0] <= end && times[|times| - 1] >= end + Max(grace, 0) + 2 * period
    ensures var t, id, end := Apply(before, op), op.server.id, op.now + op.s.lifetimeDays * 86400;
            && (exists m :: WarningTimes(t, later, id) == [m] && end <= m <= end + period)
            && (exists d :: DeletionTimes(t, later, id) == [d] && end + Max(grace, 0) <= d <= end + Max(grace, 0) + 2 * period)
  {
    RegistrationAddsRow(before, op);
    var t, id := Apply(before, op), op.server.id;
    TwoSidedDeadline(t, later, id, grace, period);
    SpacedIsSorted(CheckTimes(later), period);
    UnattendedHistory(t, later, id, grace);
    FirstFromWithin(CheckTimes(later), t[id].expiresAt, period);
    assert WarningTimes(t, later, id) == [WarnedAt(t[id], CheckTimes(later)).value];
  }
}
