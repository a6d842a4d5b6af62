/**
 The two models of a check agree: statement by statement, a check during which nobody else writes
 the table has the effect and the attempts of the coarse model, whatever the listing orders and
 whatever other schedulers and requests read or mail meanwhile.
 */
module LifecycleAtomicity {
  import opened Common
  import opened LifecycleTable
  import opened LifecycleCycle
  import opened LifecycleInterleaving

  /** The scheduler that takes the step, if one does. */
  function Scheduler(step: Step): Option<nat> {
    match step
    case Begin(w, _) => Some(w)
    case ListExpiring(w, _) => Some(w)
    case WarnNext(w) => Some(w)
    case RecordSent(w) => Some(w)
    case ListOverdue(w, _) => Some(w)
    case DeleteNext(w) => Some(w)
    case RecordDeleted(w) => Some(w)
    case Abort(w) => Some(w)
    case _ => None
  }

  /** A step of scheduler `w` inside its check, which it neither starts anew nor gives up. */
  predicate OwnStep(step: Step, w: nat) {
    Scheduler(step) == Some(w) && !step.Begin? && !step.Abort?
  }

  /** A step of somebody else that does not write the table. */
  ghost predicate Harmless(s: State, step: Step, w: nat) {
    Scheduler(step) != Some(w) && Do(s, step).rows == s.rows
  }

  ghost predicate Uninterrupted(s: State, w: nat, c: Cycle, steps: seq<Step>) {
    && steps != [] && steps[0] == Begin(w, c)
    && forall i :: 1 <= i < |steps| ==> OwnStep(steps[i], w) || Harmless(Exec(s, steps[..i]), steps[i], w)
  }

  /** Listed rows that the table still holds as they were listed, each once. */
  ghost predicate Current(t: Table, todo: seq<Row>) {
    NoDuplicates(todo) && forall r :: r in todo ==> r.instanceId in t && t[r.instanceId] == r
  }

  predicate Sends(c: Cycle, r: Row) {
    Warns(c, r) && c.mailOk(r.instanceId)
  }

  /** How often `w` mailed, or asked to delete, the instance. */
  ghost function MailsTo(news: seq<Event>, w: nat, c: Cycle, id: string): nat {
    multiset(news)[Mailed(w, c, id)]
  }

  ghost function RequestsFor(news: seq<Event>, w: nat, c: Cycle, id: string): nat {
    multiset(news)[DeleteAsked(w, c, id)]
  }

  /** Is anything of this instance still to come in the current stage? */
  predicate Left(todo: seq<Row>, t: Table, id: string) {
    id in t && t[id] in todo
  }

  ghost predicate FirstStage(c: Cycle, t: Table, rows: Table, todo: seq<Row>) {
    && Current(t, todo) && (forall r :: r in todo ==> ExpiringBefore(r, c.now))
    && rows.Keys == t.Keys
    && (forall id :: id in t ==> rows[id] == if t[id] in todo then t[id] else AfterWarning(c, t[id]))
  }

  ghost predicate SecondStage(c: Cycle, t: Table, rows: Table, todo: seq<Row>) {
    && Current(t, todo) && (forall r :: r in todo ==> AwaitingReply(r, c.now - c.grace))
    && rows.Keys == t.Keys
    && (forall id :: id in t ==> rows[id] == if t[id] in todo then t[id] else AfterDeletion(c, t[id]))
  }

  /** The table at each phase of a check that began with table `t`. */
  ghost predicate RowsAt(c: Cycle, t: Table, rows: Table, p: Phase) {
    match p
    case Starting(d) => d == c && rows == t
    case Warning(d, todo) => d == c && FirstStage(c, t, rows, todo)
    case RecordingSent(d, id, todo) =>
      d == c && id in rows && id in t && rows[id] == t[id] && FirstStage(c, t, SetSent(rows, id, c.now), todo)
    case Deleting(d, todo) => d == c && SecondStage(c, Warned(c, t), rows, todo)
    case RecordingDeleted(d, id, todo) =>
      && d == c && id in rows && id in t && rows[id] == Warned(c, t)[id]
      && SecondStage(c, Warned(c, t), SetDeleted(rows, id), todo)
    case Idle => SecondStage(c, Warned(c, t), rows, [])
  }

  ghost predicate MailsSoFar(c: Cycle, w: nat, t: Table, news: seq<Event>, todo: seq<Row>) {
    forall id :: MailsTo(news, w, c, id) == if id in t && Sends(c, t[id]) && !Left(todo, t, id) then 1 else 0
  }

  ghost predicate RequestsSoFar(c: Cycle, w: nat, t: Table, news: seq<Event>, todo: seq<Row>) {
    forall id :: RequestsFor(news, w, c, id) == if id in t && Deletes(c, t[id]) && !Left(todo, t, id) then 1 else 0
  }

  ghost predicate NoMails(c: Cycle, w: nat, news: seq<Event>) {
    forall id :: MailsTo(news, w, c, id) == 0
  }

  ghost predicate NoRequests(c: Cycle, w: nat, news: seq<Event>) {
    forall id :: RequestsFor(news, w, c, id) == 0
  }

  /** What the log since the beginning holds of this check at each of its phases. */
  ghost predicate NewsAt(c: Cycle, w: nat, t: Table, news: seq<Event>, p: Phase) {
    match p
    case Starting(_) => NoMails(c, w, news) && NoRequests(c, w, news)
    case Warning(_, todo) => MailsSoFar(c, w, t, news, todo) && NoRequests(c, w, news)
    case RecordingSent(_, _, todo) => MailsSoFar(c, w, t, news, todo) && NoRequests(c, w, news)
    case Deleting(_, todo) => MailsSoFar(c, w, t, news, []) && RequestsSoFar(c, w, Warned(c, t), news, todo)
    case RecordingDeleted(_, _, todo) => MailsSoFar(c, w, t, news, []) && RequestsSoFar(c, w, Warned(c, t), news, todo)
    case Idle => MailsSoFar(c, w, t, news, []) && RequestsSoFar(c, w, Warned(c, t), news, [])
  }

  /** The first listed row is not listed again, and is the only one of its instance. */
  lemma HeadIsDone(t: Table, todo: seq<Row>)
    requires Keyed(t) && Current(t, todo) && todo != []
    ensures Current(t, todo[1..]) && todo[0] !in todo[1..]
    ensures todo[0].instanceId in t && t[todo[0].instanceId] == todo[0]
    ensures forall r :: r in todo <==> r == todo[0] || r in todo[1..]
    ensures forall id :: id in t && id != todo[0].instanceId ==> t[id] != todo[0]
  {
    var rest := todo[1..];
    assert todo == [todo[0]] + rest && todo[0] in todo;
    forall r | r in rest ensures r in todo && r != todo[0] {
      var i :| 0 <= i < |rest| && rest[i] == r;
      assert todo[i + 1] == r;
    }
  }

  // ---- The table ----

  lemma WarnNextRows(c: Cycle, t: Table, rows: Table, todo: seq<Row>)
    requires Keyed(t) && todo != [] && FirstStage(c, t, rows, todo)
    ensures var row := todo[0];
            if Sends(c, row)
            then && row.instanceId in rows && row.instanceId in t && rows[row.instanceId] == t[row.instanceId]
                 && FirstStage(c, t, SetSent(rows, row.instanceId, c.now), todo[1..])
            else FirstStage(c, t, rows, todo[1..])
  {
    HeadIsDone(t, todo);
  }

  lemma DeleteNextRows(c: Cycle, t: Table, rows: Table, todo: seq<Row>)
    requires Keyed(t) && todo != [] && SecondStage(c, t, rows, todo)
    ensures var row := todo[0];
            if Deletes(c, row) && c.deleteOk(row.instanceId)
            then && row.instanceId in rows && row.instanceId in t && rows[row.instanceId] == t[row.instanceId]
                 && SecondStage(c, t, SetDeleted(rows, row.instanceId), todo[1..])
            else SecondStage(c, t, rows, todo[1..])
  {
    HeadIsDone(t, todo);
  }

  /** The rows that a stage does not list are those it leaves alone. */
  lemma FirstListing(c: Cycle, t: Table, listing: seq<Row>)
    requires Keyed(t) && IsListing(listing, t, Expiring(c.now))
    ensures FirstStage(c, t, t, listing)
  {
  }

  lemma SecondListing(c: Cycle, t: Table, rows: Table, listing: seq<Row>)
    requires Keyed(t) && FirstStage(c, t, rows, []) && IsListing(listing, rows, Awaiting(c.now - c.grace))
    ensures rows == Warned(c, t) && SecondStage(c, rows, rows, listing)
  {
  }

  /** What the next attempt of a scheduler does, for a row that its listing selected. */
  lemma WarnNextDoes(x: State, w: nat, c: Cycle, row: Row, rest: seq<Row>)
    requires PhaseOf(x, w) == Warning(c, [row] + rest) && ExpiringBefore(row, c.now)
    ensures var id := row.instanceId;
            Do(x, WarnNext(w)) == if Sends(c, row) then Move(Emit(x, Mailed(w, c, id)), w, RecordingSent(c, id, rest))
                                  else Move(x, w, Warning(c, rest))
  {
    assert ([row] + rest)[1..] == rest;
  }

  lemma DeleteNextDoes(x: State, w: nat, c: Cycle, row: Row, rest: seq<Row>)
    requires PhaseOf(x, w) == Deleting(c, [row] + rest) && AwaitingReply(row, c.now - c.grace)
    ensures var id := row.instanceId;
            var asked := Emit(x, DeleteAsked(w, c, id));
            Do(x, DeleteNext(w)) == if !Deletes(c, row) then Move(x, w, Deleting(c, rest))
                                    else if c.deleteOk(id) then Move(asked, w, RecordingDeleted(c, id, rest))
                                    else Move(asked, w, Deleting(c, rest))
  {
    assert ([row] + rest)[1..] == rest;
  }

  lemma WarnNextTable(c: Cycle, w: nat, t: Table, x: State, row: Row, rest: seq<Row>)
    requires Keyed(t) && PhaseOf(x, w) == Warning(c, [row] + rest) && FirstStage(c, t, x.rows, [row] + rest)
    ensures RowsAt(c, t, Do(x, WarnNext(w)).rows, PhaseOf(Do(x, WarnNext(w)), w))
  {
    var todo := [row] + rest;
    assert row in todo && todo[1..] == rest;
    WarnNextDoes(x, w, c, row, rest);
    WarnNextRows(c, t, x.rows, todo);
  }

  lemma DeleteNextTable(c: Cycle, w: nat, t: Table, x: State, row: Row, rest: seq<Row>)
    requires Keyed(t) && PhaseOf(x, w) == Deleting(c, [row] + rest) && SecondStage(c, Warned(c, t), x.rows, [row] + rest)
    ensures RowsAt(c, t, Do(x, DeleteNext(w)).rows, PhaseOf(Do(x, DeleteNext(w)), w))
  {
    var todo := [row] + rest;
    assert row in todo && todo[1..] == rest;
    DeleteNextDoes(x, w, c, row, rest);
    DeleteNextRows(c, Warned(c, t), x.rows, todo);
  }

  lemma ListingRows(c: Cycle, w: nat, t: Table, x: State, listing: seq<Row>)
    requires Keyed(t) && RowsAt(c, t, x.rows, PhaseOf(x, w))
    ensures RowsAt(c, t, Do(x, ListExpiring(w, listing)).rows, PhaseOf(Do(x, ListExpiring(w, listing)), w))
    ensures RowsAt(c, t, Do(x, ListOverdue(w, listing)).rows, PhaseOf(Do(x, ListOverdue(w, listing)), w))
  {
    var p := PhaseOf(x, w);
    if p.Starting? && IsListing(listing, x.rows, Expiring(c.now)) {
      FirstListing(c, t, listing);
    } else if p.Warning? && p.todo == [] && IsListing(listing, x.rows, Awaiting(c.now - c.grace)) {
      SecondListing(c, t, x.rows, listing);
    }
  }

  lemma RecordRows(c: Cycle, w: nat, t: Table, x: State)
    requires RowsAt(c, t, x.rows, PhaseOf(x, w))
    ensures RowsAt(c, t, Do(x, RecordSent(w)).rows, PhaseOf(Do(x, RecordSent(w)), w))
    ensures RowsAt(c, t, Do(x, RecordDeleted(w)).rows, PhaseOf(Do(x, RecordDeleted(w)), w))
  {
  }

  lemma OwnStepRows(c: Cycle, w: nat, t: Table, x: State, step: Step)
    requires Keyed(t) && RowsAt(c, t, x.rows, PhaseOf(x, w)) && OwnStep(step, w)
    ensures RowsAt(c, t, Do(x, step).rows, PhaseOf(Do(x, step), w))
  {
    var p := PhaseOf(x, w);
    if step.ListExpiring? || step.ListOverdue? {
      ListingRows(c, w, t, x, step.listing);
    } else if step.RecordSent? || step.RecordDeleted? {
      RecordRows(c, w, t, x);
    } else if step.WarnNext? && p.Warning? && p.todo != [] {
      assert p.todo == [p.todo[0]] + p.todo[1..];
      WarnNextTable(c, w, t, x, p.todo[0], p.todo[1..]);
    } else if step.DeleteNext? && p.Deleting? && p.todo != [] {
      assert p.todo == [p.todo[0]] + p.todo[1..];
      DeleteNextTable(c, w, t, x, p.todo[0], p.todo[1..]);
    }
  }

  // ---- The log ----

  lemma WarnNextNews(c: Cycle, w: nat, t: Table, news: seq<Event>, todo: seq<Row>)
    requires Keyed(t) && Current(t, todo) && todo != [] && MailsSoFar(c, w, t, news, todo) && NoRequests(c, w, news)
    ensures var id := todo[0].instanceId;
            if Sends(c, todo[0])
            then MailsSoFar(c, w, t, news + [Mailed(w, c, id)], todo[1..]) && NoRequests(c, w, news + [Mailed(w, c, id)])
            else MailsSoFar(c, w, t, news, todo[1..])
  {
    HeadIsDone(t, todo);
    assert forall id :: RequestsFor(news + [Mailed(w, c, todo[0].instanceId)], w, c, id) == RequestsFor(news, w, c, id);
  }

  lemma DeleteNextNews(c: Cycle, w: nat, t: Table, u: Table, news: seq<Event>, todo: seq<Row>)
    requires Keyed(u) && Current(u, todo) && todo != [] && MailsSoFar(c, w, t, news, []) && RequestsSoFar(c, w, u, news, todo)
    ensures var later := news + [DeleteAsked(w, c, todo[0].instanceId)];
            if Deletes(c, todo[0]) then MailsSoFar(c, w, t, later, []) && RequestsSoFar(c, w, u, later, todo[1..])
            else RequestsSoFar(c, w, u, news, todo[1..])
  {
    HeadIsDone(u, todo);
    assert forall id :: MailsTo(news + [DeleteAsked(w, c, todo[0].instanceId)], w, c, id) == MailsTo(news, w, c, id);
  }

  lemma FirstListingNews(c: Cycle, w: nat, t: Table, news: seq<Event>, listing: seq<Row>)
    requires Keyed(t) && IsListing(listing, t, Expiring(c.now)) && NewsAt(c, w, t, news, Starting(c))
    ensures NewsAt(c, w, t, news, Warning(c, listing))
  {
  }

  lemma SecondListingNews(c: Cycle, w: nat, t: Table, news: seq<Event>, listing: seq<Row>)
    requires Keyed(t) && IsListing(listing, Warned(c, t), Awaiting(c.now - c.grace)) && NewsAt(c, w, t, news, Warning(c, []))
    ensures NewsAt(c, w, t, news, Deleting(c, listing))
  {
  }

  /** An event other than a mail or a request of this scheduler is no news. */
  lemma OtherNews(c: Cycle, w: nat, t: Table, news: seq<Event>, p: Phase, e: Event)
    requires (e.Mailed? || e.DeleteAsked?) ==> e.worker != w
    requires NewsAt(c, w, t, news, p)
    ensures NewsAt(c, w, t, news + [e], p)
  {
    assert forall id :: MailsTo(news + [e], w, c, id) == MailsTo(news, w, c, id);
    assert forall id :: RequestsFor(news + [e], w, c, id) == RequestsFor(news, w, c, id);
  }

  lemma LogGrows(s: State, step: Step)
    ensures s.log <= Do(s, step).log && |Do(s, step).log| <= |s.log| + 1
  {
  }

  lemma WarnNextLogs(c: Cycle, w: nat, t: Table, x: State, base: nat, todo: seq<Row>)
    requires base <= |x.log| && PhaseOf(x, w) == Warning(c, todo) && NewsAt(c, w, t, x.log[base..], Warning(c, todo))
    requires Keyed(t) && Current(t, todo) && todo != [] && ExpiringBefore(todo[0], c.now)
    ensures NewsAt(c, w, t, Do(x, WarnNext(w)).log[base..], PhaseOf(Do(x, WarnNext(w)), w))
  {
    var e := Mailed(w, c, todo[0].instanceId);
    assert todo == [todo[0]] + todo[1..] && (x.log + [e])[base..] == x.log[base..] + [e];
    WarnNextDoes(x, w, c, todo[0], todo[1..]);
    WarnNextNews(c, w, t, x.log[base..], todo);
  }

  lemma DeleteNextLogs(c: Cycle, w: nat, t: Table, x: State, base: nat, todo: seq<Row>)
    requires base <= |x.log| && PhaseOf(x, w) == Deleting(c, todo) && NewsAt(c, w, t, x.log[base..], Deleting(c, todo))
    requires Keyed(t) && Current(Warned(c, t), todo) && todo != [] && AwaitingReply(todo[0], c.now - c.grace)
    ensures NewsAt(c, w, t, Do(x, DeleteNext(w)).log[base..], PhaseOf(Do(x, DeleteNext(w)), w))
  {
    var e := DeleteAsked(w, c, todo[0].instanceId);
    assert todo == [todo[0]] + todo[1..] && (x.log + [e])[base..] == x.log[base..] + [e];
    DeleteNextDoes(x, w, c, todo[0], todo[1..]);
    DeleteNextNews(c, w, t, Warned(c, t), x.log[base..], todo);
  }

  lemma ListingLogs(c: Cycle, w: nat, t: Table, x: State, base: nat, step: Step)
    requires base <= |x.log| && Keyed(t) && RowsAt(c, t, x.rows, PhaseOf(x, w)) && NewsAt(c, w, t, x.log[base..], PhaseOf(x, w))
    requires OwnStep(step, w) && !step.WarnNext? && !step.DeleteNext? && Do(x, step).log != x.log
    ensures NewsAt(c, w, t, Do(x, step).log[base..], PhaseOf(Do(x, step), w))
  {
    var news, y := x.log[base..], Do(x, step);
    var e := y.log[|x.log|];
    assert y.log[base..] == news + [e];
    if step.ListExpiring? {
      FirstListingNews(c, w, t, news, step.listing);
    } else if step.ListOverdue? {
      SecondListing(c, t, x.rows, step.listing);
      SecondListingNews(c, w, t, news, step.listing);
    }
    OtherNews(c, w, t, news, PhaseOf(y, w), e);
  }

  lemma OwnStepNews(c: Cycle, w: nat, t: Table, x: State, base: nat, step: Step)
    requires base <= |x.log| && Keyed(t) && RowsAt(c, t, x.rows, PhaseOf(x, w)) && NewsAt(c, w, t, x.log[base..], PhaseOf(x, w))
    requires OwnStep(step, w)
    ensures base <= |Do(x, step).log| && NewsAt(c, w, t, Do(x, step).log[base..], PhaseOf(Do(x, step), w))
  {
    var p := PhaseOf(x, w);
    LogGrows(x, step);
    if p.Warning? && step.WarnNext? && p.todo != [] {
      assert p.todo[0] in p.todo;
      WarnNextLogs(c, w, t, x, base, p.todo);
    } else if p.Deleting? && step.DeleteNext? && p.todo != [] {
      assert p.todo[0] in p.todo;
      DeleteNextLogs(c, w, t, x, base, p.todo);
    } else if step.WarnNext? || step.DeleteNext? || Do(x, step).log == x.log {
      assert PhaseOf(Do(x, step), w) == p || (p == Deleting(c, []) && PhaseOf(Do(x, step), w).Idle?);
    } else {
      ListingLogs(c, w, t, x, base, step);
    }
  }

  // ---- The steps of the others ----

  /** Only a scheduler's own step attempts something in its name. */
  lemma AttemptsAreOwn(s: State, step: Step)
    requires |Do(s, step).log| == |s.log| + 1
    ensures var e := Do(s, step).log[|s.log|];
            (e.Mailed? || e.DeleteAsked?) ==> Scheduler(step) == Some(e.worker)
  {
  }

  lemma OthersDoNotMove(s: State, step: Step, w: nat)
    requires Scheduler(step) != Some(w)
    ensures PhaseOf(Do(s, step), w) == PhaseOf(s, w)
  {
  }

  lemma OtherStepNews(c: Cycle, w: nat, t: Table, x: State, base: nat, step: Step)
    requires base <= |x.log| && NewsAt(c, w, t, x.log[base..], PhaseOf(x, w)) && Scheduler(step) != Some(w)
    ensures base <= |Do(x, step).log| && NewsAt(c, w, t, Do(x, step).log[base..], PhaseOf(Do(x, step), w))
  {
    var y := Do(x, step);
    LogGrows(x, step);
    OthersDoNotMove(x, step, w);
    if |y.log| > |x.log| {
      AttemptsAreOwn(x, step);
      assert y.log[base..] == x.log[base..] + [y.log[|x.log|]];
      OtherNews(c, w, t, x.log[base..], PhaseOf(x, w), y.log[|x.log|]);
    } else {
      assert y.log == x.log;
    }
  }

  ghost predicate InProgress(c: Cycle, w: nat, t: Table, x: State, base: nat) {
    base <= |x.log| && RowsAt(c, t, x.rows, PhaseOf(x, w)) && NewsAt(c, w, t, x.log[base..], PhaseOf(x, w))
  }

  lemma OneStepProgress(c: Cycle, w: nat, t: Table, x: State, base: nat, step: Step)
    requires Keyed(t) && InProgress(c, w, t, x, base) && (OwnStep(step, w) || Harmless(x, step, w))
    ensures InProgress(c, w, t, Do(x, step), base)
  {
    if OwnStep(step, w) {
      OwnStepRows(c, w, t, x, step);
      OwnStepNews(c, w, t, x, base, step);
    } else {
      OthersDoNotMove(x, step, w);
      OtherStepNews(c, w, t, x, base, step);
    }
  }

  lemma BegunProgress(c: Cycle, w: nat, s: State)
    requires PhaseOf(s, w).Idle?
    ensures InProgress(c, w, s.rows, Do(s, Begin(w, c)), |s.log|)
  {
    assert s.log[|s.log|..] == [];
  }

  lemma {:induction false} CheckProgresses(s: State, w: nat, c: Cycle, steps: seq<Step>)
    requires PhaseOf(s, w).Idle? && Keyed(s.rows) && Uninterrupted(s, w, c, steps)
    ensures InProgress(c, w, s.rows, Exec(s, steps), |s.log|)
  {
    var n := |steps| - 1;
    if n == 0 {
      assert Exec(s, steps[..0]) == s;
      BegunProgress(c, w, s);
    } else {
      assert forall i :: 1 <= i < n ==> steps[..n][..i] == steps[..i];
      CheckProgresses(s, w, c, steps[..n]);
      OneStepProgress(c, w, s.rows, Exec(s, steps[..n]), |s.log|, steps[n]);
    }
  }

  /**
   From any state, a check that ends and during which nobody else writes the table has exactly the
   effect of the coarse model: the table becomes `AfterCycle`, and the mails sent and deletions asked
   for are those of the due rows, each once, for every listing order.
   */
  lemma UninterruptedCheck(s: State, w: nat, c: Cycle, steps: seq<Step>)
    requires PhaseOf(s, w).Idle? && Keyed(s.rows) && Uninterrupted(s, w, c, steps)
    requires PhaseOf(Exec(s, steps), w).Idle?
    ensures var x := Exec(s, steps);
            && x.rows == AfterCycle(c, s.rows)
            && |s.log| <= |x.log|
            && (forall id :: MailsTo(x.log[|s.log|..], w, c, id) == if id in s.rows && Sends(c, s.rows[id]) then 1 else 0)
            && (forall id :: RequestsFor(x.log[|s.log|..], w, c, id)
                  == if id in s.rows && Deletes(c, AfterWarning(c, s.rows[id])) then 1 else 0)
  {
    CheckProgresses(s, w, c, steps);
  }

  /** As much of a check as some scheduler has carried out. */
  ghost predicate PartOfCheck(c: Cycle, t: Table, rows: Table) {
    && rows.Keys == t.Keys
    && forall id :: id in t ==>
         rows[id] == t[id] || rows[id] == AfterWarning(c, t[id]) || rows[id] == AfterDeletion(c, AfterWarning(c, t[id]))
  }

  lemma RowsArePart(c: Cycle, t: Table, rows: Table, p: Phase)
    requires RowsAt(c, t, rows, p)
    ensures PartOfCheck(c, t, rows)
  {
    if p.RecordingSent? {
      var later := SetSent(rows, p.id, c.now);
      assert later.Keys == rows.Keys && forall id :: id in rows && id != p.id ==> later[id] == rows[id];
    } else if p.RecordingDeleted? {
      var later := SetDeleted(rows, p.id);
      assert later.Keys == rows.Keys && forall id :: id in rows && id != p.id ==> later[id] == rows[id];
    }
  }

  /** Only the due instances, and none of them twice. */
  ghost predicate NewsAreDue(c: Cycle, w: nat, t: Table, news: seq<Event>) {
    && (forall id :: MailsTo(news, w, c, id) <= if id in t && Sends(c, t[id]) then 1 else 0)
    && (forall id :: RequestsFor(news, w, c, id) <= if id in t && Deletes(c, AfterWarning(c, t[id])) then 1 else 0)
  }

  lemma NewsArePart(c: Cycle, w: nat, t: Table, news: seq<Event>, p: Phase)
    requires NewsAt(c, w, t, news, p)
    ensures NewsAreDue(c, w, t, news)
  {
  }

  /**
   Wherever an exception stops such a check, each row has had its whole effect, that of the first stage
   or none, and nobody but the due instances has been mailed or asked for, and none of them twice.
   */
  lemma StoppedCheck(s: State, w: nat, c: Cycle, steps: seq<Step>)
    requires PhaseOf(s, w).Idle? && Keyed(s.rows) && Uninterrupted(s, w, c, steps)
    ensures var x := Exec(s, steps);
            && PartOfCheck(c, s.rows, x.rows)
            && |s.log| <= |x.log|
            && NewsAreDue(c, w, s.rows, x.log[|s.log|..])
  {
    var x := Exec(s, steps);
    CheckProgresses(s, w, c, steps);
    RowsArePart(c, s.rows, x.rows, PhaseOf(x, w));
    NewsArePart(c, w, s.rows, x.log[|s.log|..], PhaseOf(x, w));
  }

  // ---- Such a check exists from every state ----

  lemma {:induction false} ExecAppend(s: State, first: seq<Step>, second: seq<Step>)
    ensures Exec(s, first + second) == Exec(Exec(s, first), second)
  {
    if second == [] {
      assert first + second == first;
    } else {
      var n := |second| - 1;
      ExecAppend(s, first, second[..n]);
      assert |first + second| - 1 == |first| + n && (first + second)[|first| + n] == second[n];
      assert (first + second)[..|first| + n] == first + second[..n];
    }
  }

  lemma ExecFirst(s: State, step: Step, rest: seq<Step>)
    ensures Exec(s, [step]) == Do(s, step)
    ensures Exec(s, [step] + rest) == Exec(Do(s, step), rest)
  {
    assert [step][..0] == [] && Exec(s, []) == s;
    ExecAppend(s, [step], rest);
  }

  lemma SomeListing(t: Table, where: Where, ids: set<string>) returns (listing: seq<Row>)
    requires Keyed(t) && ids <= t.Keys
    ensures NoDuplicates(listing)
    ensures forall r :: r in listing <==> r.instanceId in ids && t[r.instanceId] == r && Selects(where, r)
    decreases ids
  {
    if ids == {} {
      listing := [];
    } else {
      var id :| id in ids;
      listing := SomeListing(t, where, ids - {id});
      if Selects(where, t[id]) {
        listing := listing + [t[id]];
      }
    }
  }

  /** How far a check is from its end: its stage, then the listed rows that are left. */
  function Distance(p: Phase): (nat, nat) {
    match p
    case Idle => (0, 0)
    case Deleting(_, todo) => (1, 2 * |todo|)
    case RecordingDeleted(_, _, todo) => (1, 2 * |todo| + 1)
    case Warning(_, todo) => (2, 2 * |todo|)
    case RecordingSent(_, _, todo) => (2, 2 * |todo| + 1)
    case Starting(_) => (3, 0)
  }

  lemma StaysKeyed(s: State, step: Step)
    requires Keyed(s.rows)
    ensures Keyed(Do(s, step).rows)
  {
  }

  /** The step that a scheduler in this phase can take. */
  lemma NextStep(s: State, w: nat) returns (step: Step)
    requires !PhaseOf(s, w).Idle? && Keyed(s.rows)
    ensures OwnStep(step, w)
    ensures match PhaseOf(s, w)
            case Starting(c) => step.ListExpiring? && IsListing(step.listing, s.rows, Expiring(c.now))
            case Warning(c, todo) =>
              if todo == [] then step.ListOverdue? && IsListing(step.listing, s.rows, Awaiting(c.now - c.grace)) else step.WarnNext?
            case RecordingSent(_, _, _) => step.RecordSent?
            case Deleting(_, _) => step.DeleteNext?
            case RecordingDeleted(_, _, _) => step.RecordDeleted?
  {
    match PhaseOf(s, w)
    case Starting(c) =>
      var listing := SomeListing(s.rows, Expiring(c.now), s.rows.Keys);
      step := ListExpiring(w, listing);
    case Warning(c, todo) =>
      var listing := SomeListing(s.rows, Awaiting(c.now - c.grace), s.rows.Keys);
      step := if todo == [] then ListOverdue(w, listing) else WarnNext(w);
    case RecordingSent(_, _, _) => step := RecordSent(w);
    case Deleting(_, _) => step := DeleteNext(w);
    case RecordingDeleted(_, _, _) => step := RecordDeleted(w);
  }

  lemma RunToTheEnd(s: State, w: nat) returns (steps: seq<Step>)
    requires Keyed(s.rows)
    ensures forall i :: 0 <= i < |steps| ==> OwnStep(steps[i], w)
    ensures PhaseOf(Exec(s, steps), w).Idle?
    decreases Distance(PhaseOf(s, w)).0, Distance(PhaseOf(s, w)).1
  {
    if PhaseOf(s, w).Idle? {
      steps := [];
    } else {
      var step := NextStep(s, w);
      StaysKeyed(s, step);
      var rest := RunToTheEnd(Do(s, step), w);
      ExecFirst(s, step, rest);
      steps := [step] + rest;
    }
  }

  /** Left alone, a scheduler can always carry a check through, by its own steps. */
  lemma CheckCanBeCarriedThrough(s: State, w: nat, c: Cycle)
    requires PhaseOf(s, w).Idle? && Keyed(s.rows)
    ensures exists steps ::
              && Uninterrupted(s, w, c, steps)
              && (forall i :: 1 <= i < |steps| ==> OwnStep(steps[i], w))
              && PhaseOf(Exec(s, steps), w).Idle?
  {
    var rest := RunToTheEnd(Do(s, Begin(w, c)), w);
    ExecFirst(s, Begin(w, c), rest);
    var steps := [Begin(w, c)] + rest;
    assert Uninterrupted(s, w, c, steps);
  }

  // ---- Extensions ----

  lemma ReadForExtendReads(s: State, req: nat, id: string)
    requires req !in s.requests
    ensures var x := Do(s, ReadForExtend(req, id));
            && x.rows == s.rows
            && (if id in s.rows && s.rows[id].status != Deleted
                then req in x.requests && x.requests[req].row == s.rows[id] else req !in x.requests)
  {
  }

  lemma WriteExtendWritesBack(s: State, req: nat, now: int)
    ensures Do(s, WriteExtend(req, now)).rows
         == if req in s.requests
            then SetExtended(s.rows, s.requests[req].row.instanceId, NewExpiry(s.requests[req].row.expiresAt, now)) else s.rows
  {
  }

  /** An extend request between whose two statements nothing happens has the effect of the coarse model. */
  lemma UninterruptedExtension(s: State, req: nat, id: string, now: int)
    requires req !in s.requests && Keyed(s.rows)
    ensures Exec(s, [ReadForExtend(req, id)] + [WriteExtend(req, now)]).rows == AfterExtend(s.rows, id, now)
  {
    var read := Do(s, ReadForExtend(req, id));
    ExecFirst(s, ReadForExtend(req, id), [WriteExtend(req, now)]);
    ExecFirst(read, WriteExtend(req, now), []);
    ReadForExtendReads(s, req, id);
    WriteExtendWritesBack(read, req, now);
  }

  /** Registration and removal are single statements, with the effects of the coarse model. */
  lemma SingleStatements(s: State, systemProject: string, server: NewServer, settings: LifecycleSettings, now: int, id: string)
    ensures Do(s, Register(systemProject, server, settings, now)).rows == AfterRegistration(s.rows, systemProject, server, settings, now)
    ensures Do(s, Remove(id)).rows == s.rows - {id}
  {
  }
}
