/**
 The scheduler's hourly check, the extend endpoint and the registration of a new instance, each
 run alone, and what a whole check does to each row.
 */
module LifecycleCycle {
  import opened Common
  import opened LifecycleTable
  import opened Settings

  /** How the code reads a stored JSON value: as a truth value, and through `int(...)`, which may raise. */
  datatype Conversion<!V> = Conversion(truthy: V -> bool, toInt: V -> Option<int>)

  /**
   One check: its clock reading, its grace period in seconds, the administrator project it found,
   and how the mail server and Nova answer for each instance.
   */
  datatype Cycle = Cycle(
    now: int,
    grace: int,
    adminProject: Option<string>,
    mailOk: string -> bool,
    deleteOk: string -> bool)

  predicate Exempt(c: Cycle, r: Row) {
    c.adminProject.Some? && c.adminProject.value != "" && r.projectId == c.adminProject.value
  }

  predicate Warns(c: Cycle, r: Row) {
    ExpiringBefore(r, c.now) && !Exempt(c, r) && r.status == NotSent
  }

  predicate Deletes(c: Cycle, r: Row) {
    AwaitingReply(r, c.now - c.grace) && !Exempt(c, r)
  }

  function AfterWarning(c: Cycle, r: Row): Row {
    if Warns(c, r) && c.mailOk(r.instanceId) then MarkSent(r, c.now) else r
  }

  function AfterDeletion(c: Cycle, r: Row): Row {
    if Deletes(c, r) && c.deleteOk(r.instanceId) then MarkDeleted(r) else r
  }

  function Warned(c: Cycle, t: Table): Table {
    map id | id in t :: AfterWarning(c, t[id])
  }

  /** A whole check, row by row. */
  function AfterCycle(c: Cycle, t: Table): Table {
    map id | id in t :: AfterDeletion(c, AfterWarning(c, t[id]))
  }

  datatype Mail = Mail(to: string, instanceId: string, instanceName: string, expiresAt: int, extendUrl: string)

  function WarningMail(r: Row): Mail {
    Mail(r.userEmail.GetOr(""), r.instanceId,
         if r.instanceName.GetOr("") == "" then r.instanceId else r.instanceName.value,
         r.expiresAt, "/instances/" + r.instanceId + "/extend")
  }

  datatype Report = SettingsUnreadable(key: string) | Disabled | Ran(mails: seq<Mail>, deletions: seq<string>)

  /** The mails and deletions of a check: each due row once, nothing else, whatever the listing order. */
  ghost predicate Reports(c: Cycle, t: Table, report: Report) {
    && report.Ran?
    && NoDuplicates(report.mails) && NoDuplicates(report.deletions)
    && (forall m :: m in report.mails <==> m.instanceId in t && Warns(c, t[m.instanceId]) && m == WarningMail(t[m.instanceId]))
    && (forall id :: id in report.deletions <==> id in t && Deletes(c, AfterWarning(c, t[id])))
  }

  /**
   What a check does to one row, said of its fields, the project found and the answers alone: whose
   owner is mailed, where and about what; whose deletion is asked for; what the row becomes.
   */
  ghost predicate RowLaw(c: Cycle, id: string, before: Row, after: Row, mails: seq<Mail>, deletions: seq<string>) {
    var spared := exists p :: c.adminProject == Some(p) && p != "" && before.projectId == p;
    var mailed := !spared && before.expiresAt <= c.now && before.status == NotSent;
    var sent := mailed && c.mailOk(id);
    var overdue := (before.status == Sent && before.sentAt.Some? && before.sentAt.value + c.grace <= c.now) || (sent && c.grace <= 0);
    var asked := !spared && !before.extended && overdue;
    && (mailed <==> exists m :: m in mails && m.instanceId == id)
    && (forall m :: m in mails && m.instanceId == id ==>
          && m.to == (match before.userEmail case Some(email) => email case None => "")
          && m.expiresAt == before.expiresAt && m.extendUrl == "/instances/" + id + "/extend"
          && m.instanceName == (match before.instanceName case Some(name) => if |name| > 0 then name else id case None => id))
    && (asked <==> id in deletions)
    && after.expiresAt == before.expiresAt && after.extended == before.extended
    && after.status == (if asked && c.deleteOk(id) then Deleted else if sent then Sent else before.status)
    && after.sentAt == (if sent then Some(c.now) else before.sentAt)
    && after == before.(status := after.status, sentAt := after.sentAt)
  }

  lemma CheckObeysRowLaw(c: Cycle, t: Table, report: Report, id: string)
    requires Keyed(t) && Reports(c, t, report) && id in t
    ensures RowLaw(c, id, t[id], AfterCycle(c, t)[id], report.mails, report.deletions)
  {
    if Warns(c, t[id]) {
      assert WarningMail(t[id]) in report.mails;
    }
  }

  /** Exactly the rows of the administrator's project, when it was found, are left alone by a check. */
  lemma OnlySystemProjectIsSpared(c: Cycle, t: Table, report: Report, id: string, p: string)
    requires Keyed(t) && Reports(c, t, report) && id in t && c.adminProject == Some(p) && p != ""
    ensures t[id].projectId == p ==>
              (forall m :: m in report.mails ==> m.instanceId != id) && id !in report.deletions && AfterCycle(c, t)[id] == t[id]
    ensures t[id].projectId != p && t[id].expiresAt <= c.now && t[id].status == NotSent ==>
              exists m :: m in report.mails && m.instanceId == id
    ensures var r := t[id];
            r.projectId != p && r.status == Sent && !r.extended && r.sentAt.Some? && r.sentAt.value + c.grace <= c.now
            ==> id in report.deletions
  {
    CheckObeysRowLaw(c, t, report, id);
  }

  datatype LifecycleSettings = LifecycleSettings(enabled: bool, lifetimeDays: int, replyDeadlineDays: int)

  /** The settings and the name of the administrator's project, or the first key whose `int(...)` raises. */
  datatype SettingsReply = Readable(settings: LifecycleSettings, adminProject: string) | Unreadable(key: string)

  ghost predicate ReadsAs<V>(
    config: Config<V>, view: map<string, V>, conv: Conversion<V>, systemProject: string, reply: SettingsReply)
    requires LIFECYCLE_KEYS <= config.defaults.Keys
  {
    var lifetime := conv.toInt(Effective(config, view, "instance_lifetime_days"));
    var deadline := conv.toInt(Effective(config, view, "instance_reply_deadline_days"));
    match reply
    case Readable(settings, adminProject) =>
      && adminProject == systemProject
      && settings.enabled == conv.truthy(Effective(config, view, "instance_lifecycle_enabled"))
      && lifetime == Some(settings.lifetimeDays)
      && deadline == Some(settings.replyDeadlineDays)
    case Unreadable(key) =>
      || (key == "instance_lifetime_days" && lifetime.None?)
      || (key == "instance_reply_deadline_days" && lifetime.Some? && deadline.None?)
  }

  /** `_get_lifecycle_settings`. */
  method GetLifecycleSettings<V>(settings: SettingsTable<V>, conv: Conversion<V>, systemProject: string)
    returns (reply: SettingsReply)
    requires settings.Valid()
    ensures ReadsAs(settings.config, settings.view, conv, systemProject, reply)
  {
    var enabled := settings.ReadSetting("instance_lifecycle_enabled");
    var lifetime := settings.ReadSetting("instance_lifetime_days");
    var lifetimeDays := conv.toInt(lifetime);
    if lifetimeDays.None? {
      return Unreadable("instance_lifetime_days");
    }
    var deadline := settings.ReadSetting("instance_reply_deadline_days");
    var deadlineDays := conv.toInt(deadline);
    if deadlineDays.None? {
      return Unreadable("instance_reply_deadline_days");
    }
    return Readable(LifecycleSettings(conv.truthy(enabled), lifetimeDays.value, deadlineDays.value), systemProject);
  }

  /** The rows worked off so far have had their effect, the others are as they were. */
  ghost predicate WarnedSoFar(c: Cycle, t: Table, rows: Table, done: seq<Row>) {
    rows.Keys == t.Keys && forall id :: id in t ==> rows[id] == if t[id] in done then AfterWarning(c, t[id]) else t[id]
  }

  ghost predicate DeletedSoFar(c: Cycle, t: Table, rows: Table, done: seq<Row>) {
    rows.Keys == t.Keys && forall id :: id in t ==> rows[id] == if t[id] in done then AfterDeletion(c, t[id]) else t[id]
  }

  ghost predicate MailedSoFar(c: Cycle, t: Table, mails: seq<Mail>, done: seq<Row>) {
    && NoDuplicates(mails)
    && forall m :: m in mails <==>
         m.instanceId in t && t[m.instanceId] in done && Warns(c, t[m.instanceId]) && m == WarningMail(t[m.instanceId])
  }

  ghost predicate AskedSoFar(c: Cycle, t: Table, deletions: seq<string>, done: seq<Row>) {
    NoDuplicates(deletions) && forall id :: id in deletions <==> id in t && t[id] in done && Deletes(c, t[id])
  }

  lemma OneMoreMail(c: Cycle, t: Table, mails: seq<Mail>, done: seq<Row>, row: Row)
    requires Keyed(t) && row.instanceId in t && t[row.instanceId] == row && row !in done && MailedSoFar(c, t, mails, done)
    ensures MailedSoFar(c, t, if Warns(c, row) then mails + [WarningMail(row)] else mails, done + [row])
  {
  }

  lemma OneMoreRequest(c: Cycle, t: Table, deletions: seq<string>, done: seq<Row>, row: Row)
    requires Keyed(t) && row.instanceId in t && t[row.instanceId] == row && row !in done && AskedSoFar(c, t, deletions, done)
    ensures AskedSoFar(c, t, if Deletes(c, row) then deletions + [row.instanceId] else deletions, done + [row])
  {
  }

  /** The body of the first loop: whether a mail was attempted. */
  method WarnOne(db: LifecycleDb, c: Cycle, row: Row) returns (mailed: bool)
    requires row.instanceId in db.rows && db.rows[row.instanceId] == row && ExpiringBefore(row, c.now)
    modifies db
    ensures db.rows == old(db.rows)[row.instanceId := AfterWarning(c, row)]
    ensures mailed == Warns(c, row)
  {
    if c.adminProject.Some? && c.adminProject.value != "" && row.projectId == c.adminProject.value {
      return false;
    }
    if row.status == NotSent {
      if c.mailOk(row.instanceId) {
        db.UpdateEmailSent(row.instanceId, c.now);
      }
      return true;
    }
    return false;
  }

  /** The first stage. */
  method WarnExpiring(db: LifecycleDb, c: Cycle) returns (mails: seq<Mail>)
    requires Keyed(db.rows)
    modifies db
    ensures Keyed(db.rows) && db.rows == Warned(c, old(db.rows))
    ensures NoDuplicates(mails)
    ensures forall m :: m in mails <==>
      m.instanceId in old(db.rows) && Warns(c, old(db.rows)[m.instanceId]) && m == WarningMail(old(db.rows)[m.instanceId])
  {
    var expiring := db.ListExpiringBefore(c.now);
    ghost var t := db.rows;
    mails := [];
    for i := 0 to |expiring|
      invariant WarnedSoFar(c, t, db.rows, expiring[..i])
      invariant MailedSoFar(c, t, mails, expiring[..i])
    {
      var row := expiring[i];
      assert row in expiring && row !in expiring[..i] && expiring[..i + 1] == expiring[..i] + [row];
      OneMoreMail(c, t, mails, expiring[..i], row);
      var mailed := WarnOne(db, c, row);
      if mailed {
        mails := mails + [WarningMail(row)];
      }
    }
    assert expiring[..|expiring|] == expiring;
  }

  /** The body of the second loop: whether Nova was asked. */
  method DeleteOne(db: LifecycleDb, c: Cycle, row: Row) returns (asked: bool)
    requires row.instanceId in db.rows && db.rows[row.instanceId] == row && AwaitingReply(row, c.now - c.grace)
    modifies db
    ensures db.rows == old(db.rows)[row.instanceId := AfterDeletion(c, row)]
    ensures asked == Deletes(c, row)
  {
    if c.adminProject.Some? && c.adminProject.value != "" && row.projectId == c.adminProject.value {
      return false;
    }
    if c.deleteOk(row.instanceId) {
      db.UpdateDeleted(row.instanceId);
    }
    return true;
  }

  /** The second stage. */
  method DeleteOverdue(db: LifecycleDb, c: Cycle) returns (deletions: seq<string>)
    requires Keyed(db.rows)
    modifies db
    ensures Keyed(db.rows) && db.rows == map id | id in old(db.rows) :: AfterDeletion(c, old(db.rows)[id])
    ensures NoDuplicates(deletions)
    ensures forall id :: id in deletions <==> id in old(db.rows) && Deletes(c, old(db.rows)[id])
  {
    var overdue := db.ListAwaitingReply(c.now - c.grace);
    ghost var t := db.rows;
    deletions := [];
    for i := 0 to |overdue|
      invariant DeletedSoFar(c, t, db.rows, overdue[..i])
      invariant AskedSoFar(c, t, deletions, overdue[..i])
    {
      var row := overdue[i];
      assert row in overdue && row !in overdue[..i] && overdue[..i + 1] == overdue[..i] + [row];
      OneMoreRequest(c, t, deletions, overdue[..i], row);
      var asked := DeleteOne(db, c, row);
      if asked {
        deletions := deletions + [row.instanceId];
      }
    }
    assert overdue[..|overdue|] == overdue;
  }

  /**
   `run_lifecycle_check`, run without interruption, against every answer of Keystone to the lookup of
   the administrator's project, of the mail server and of Nova.
   */
  method RunLifecycleCheck<V>(
    db: LifecycleDb, settings: SettingsTable<V>, conv: Conversion<V>, systemProject: string,
    now: int, findProject: string -> Option<string>, mailOk: string -> bool, deleteOk: string -> bool)
    returns (report: Report, ghost reply: SettingsReply)
    requires settings.Valid() && Keyed(db.rows)
    modifies db
    ensures Keyed(db.rows)
    ensures ReadsAs(settings.config, settings.view, conv, systemProject, reply)
    ensures reply.Unreadable? ==> report == SettingsUnreadable(reply.key) && db.rows == old(db.rows)
    ensures reply.Readable? && !reply.settings.enabled ==> report == Disabled && db.rows == old(db.rows)
    ensures reply.Readable? && reply.settings.enabled ==>
              var c := Cycle(now, reply.settings.replyDeadlineDays * 86400, findProject(systemProject), mailOk, deleteOk);
              && Reports(c, old(db.rows), report) && db.rows == AfterCycle(c, old(db.rows))
              && (forall m :: m in report.mails ==> m.instanceId in old(db.rows))
              && (forall id :: id in report.deletions ==> id in old(db.rows))
              && forall id :: id in old(db.rows) ==>
                   RowLaw(c, id, old(db.rows)[id], db.rows[id], report.mails, report.deletions)
  {
    var read := GetLifecycleSettings(settings, conv, systemProject);
    reply := read;
    if read.Unreadable? {
      report := SettingsUnreadable(read.key);
      return;
    }
    if !read.settings.enabled {
      report := Disabled;
      return;
    }
    var c := Cycle(now, read.settings.replyDeadlineDays * DAY, findProject(read.adminProject), mailOk, deleteOk);
    ghost var t := db.rows;
    var mails := WarnExpiring(db, c);
    var deletions := DeleteOverdue(db, c);
    assert db.rows == AfterCycle(c, t);
    report := Ran(mails, deletions);
    forall id | id in t ensures RowLaw(c, id, t[id], db.rows[id], mails, deletions) {
      CheckObeysRowLaw(c, t, report, id);
    }
  }

  datatype ExtendReply = LifecycleNotFound | AlreadyDeleted | ExtendedUntil(newExpiry: int)

  /** The extend endpoint, run alone. */
  function AfterExtend(t: Table, id: string, now: int): Table {
    if id in t && t[id].status != Deleted
    then t[id := MarkExtended(t[id], Max(t[id].expiresAt, now) + EXTENSION)]
    else t
  }

  method ExtendInstanceLifecycle(db: LifecycleDb, id: string, now: int) returns (reply: ExtendReply)
    modifies db
    ensures db.rows == AfterExtend(old(db.rows), id, now)
    ensures id !in old(db.rows) ==> reply == LifecycleNotFound
    ensures id in old(db.rows) && old(db.rows)[id].status == Deleted ==> reply == AlreadyDeleted
    ensures id in old(db.rows) && old(db.rows)[id].status != Deleted ==>
              var before := old(db.rows)[id];
              var newExpiry := (if before.expiresAt < now then now else before.expiresAt) + 30 * 86400;
              && reply == ExtendedUntil(newExpiry)
              && db.rows == old(db.rows)[id := before.(status := Extended, extended := true, expiresAt := newExpiry)]
    ensures reply.LifecycleNotFound? || reply.AlreadyDeleted? ==> db.rows == old(db.rows)
  {
    var row := db.GetInstanceLifecycle(id);
    if row.None? {
      return LifecycleNotFound;
    }
    if row.value.status == Deleted {
      return AlreadyDeleted;
    }
    var base := if row.value.expiresAt < now then now else row.value.expiresAt;
    var newExpiry := base + 30 * 86400;
    db.UpdateExtended(id, newExpiry);
    return ExtendedUntil(newExpiry);
  }

  /** A freshly created server and the profile of its owner. */
  datatype NewServer = NewServer(
    id: string, name: string, userId: string, projectId: string, projectName: string, email: Option<string>)

  function AfterRegistration(t: Table, systemProject: string, server: NewServer, s: LifecycleSettings, now: int): Table {
    if s.enabled && server.projectName != systemProject
    then Insert(t, Row(server.id, Some(server.name), server.userId, server.projectId, Some(server.email.GetOr("")),
                       now, now + s.lifetimeDays * DAY, NotSent, None, false))
    else t
  }

  /** The row of a server registered at `now` for so many days. */
  predicate IsNewRow(r: Row, server: NewServer, now: int, days: int) {
    && r.instanceId == server.id && r.instanceName == Some(server.name)
    && r.userId == server.userId && r.projectId == server.projectId
    && r.userEmail == Some(if server.email.Some? then server.email.value else "")
    && r.createdAt == now && r.expiresAt == now + days * 86400
    && r.status == NotSent && r.sentAt == None && !r.extended
  }

  /** The registration step of `_provision_instance`; every failure in it is swallowed. */
  method RegisterLifecycle<V>(
    db: LifecycleDb, settings: SettingsTable<V>, conv: Conversion<V>, systemProject: string, server: NewServer, now: int)
    requires settings.Valid()
    modifies db
    ensures var enabled := conv.truthy(Effective(settings.config, settings.view, "instance_lifecycle_enabled"));
            var days := conv.toInt(Effective(settings.config, settings.view, "instance_lifetime_days"));
            db.rows == if days.None? then old(db.rows)
                       else AfterRegistration(old(db.rows), systemProject, server, LifecycleSettings(enabled, days.value, 0), now)
    // the same, in terms of the row alone
    ensures var enabled := conv.truthy(Effective(settings.config, settings.view, "instance_lifecycle_enabled"));
            var days := conv.toInt(Effective(settings.config, settings.view, "instance_lifetime_days"));
            if enabled && server.projectName != systemProject && days.Some? && server.id !in old(db.rows)
            then server.id in db.rows && IsNewRow(db.rows[server.id], server, now, days.value) && db.rows - {server.id} == old(db.rows)
            else db.rows == old(db.rows)
  {
    var enabled := settings.ReadSetting("instance_lifecycle_enabled");
    var isAdminProject := server.projectName == systemProject;
    if conv.truthy(enabled) && !isAdminProject {
      var lifetime := settings.ReadSetting("instance_lifetime_days");
      var days := conv.toInt(lifetime);
      if days.Some? {
        var _ := db.CreateInstanceLifecycle(
          server.id, server.name, server.userId, server.projectId, server.email.GetOr(""),
          now, now + days.value * 86400);
      }
    }
  }
}
