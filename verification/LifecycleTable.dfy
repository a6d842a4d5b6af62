/**
 The `instance_lifecycle` table: one row per instance, and one operation per SQL statement.
 Each statement runs in a session of its own, so a statement is the atomic unit.
 */
module LifecycleTable {
  import opened Common

  const DAY := 86400
  const EXTENSION := 30 * DAY

  datatype EmailStatus = NotSent | Sent | Extended | Deleted

  datatype Row = Row(
    instanceId: string,
    instanceName: Option<string>,
    userId: string,
    projectId: string,
    userEmail: Option<string>,
    createdAt: int,
    expiresAt: int,
    status: EmailStatus,
    sentAt: Option<int>,
    extended: bool)

  /** `instance_id` is unique, so the table is a map. */
  type Table = map<string, Row>

  ghost predicate Keyed(t: Table) {
    forall id :: id in t ==> t[id].instanceId == id
  }

  // The WHERE clauses. A NULL `email_sent_at` is never at or below a threshold.

  predicate ExpiringBefore(r: Row, threshold: int) {
    r.expiresAt <= threshold && r.status != Deleted
  }

  predicate AwaitingReply(r: Row, threshold: int) {
    r.status == Sent && r.sentAt.Some? && r.sentAt.value <= threshold && !r.extended
  }

  datatype Where = Expiring(threshold: int) | Awaiting(threshold: int)

  predicate Selects(where: Where, r: Row) {
    match where
    case Expiring(threshold) => ExpiringBefore(r, threshold)
    case Awaiting(threshold) => AwaitingReply(r, threshold)
  }

  // The SET clauses.

  function MarkSent(r: Row, at: int): Row {
    r.(status := Sent, sentAt := Some(at))
  }

  function MarkExtended(r: Row, newExpiry: int): Row {
    r.(status := Extended, extended := true, expiresAt := newExpiry)
  }

  function MarkDeleted(r: Row): Row {
    r.(status := Deleted)
  }

  // The statements, as functions of the table.

  function SetSent(t: Table, id: string, at: int): Table {
    if id in t then t[id := MarkSent(t[id], at)] else t
  }

  function SetExtended(t: Table, id: string, newExpiry: int): Table {
    if id in t then t[id := MarkExtended(t[id], newExpiry)] else t
  }

  function SetDeleted(t: Table, id: string): Table {
    if id in t then t[id := MarkDeleted(t[id])] else t
  }

  /** The INSERT statement; the unique index refuses a second row for the same instance. */
  function Insert(t: Table, r: Row): Table {
    if r.instanceId in t then t else t[r.instanceId := r]
  }

  /** What a SELECT without ORDER BY may return: exactly the matching rows, in some order. */
  ghost predicate IsListing(listing: seq<Row>, t: Table, where: Where) {
    && NoDuplicates(listing)
    && forall r :: r in listing <==> r.instanceId in t && t[r.instanceId] == r && Selects(where, r)
  }

  class LifecycleDb {
    var rows: Table

    constructor ()
      ensures rows == map[]
    {
      rows := map[];
    }

    /** `create_instance_lifecycle`; false stands for the integrity error. */
    method CreateInstanceLifecycle(
      instanceId: string, instanceName: string, userId: string, projectId: string, userEmail: string,
      createdAt: int, expiresAt: int)
      returns (ok: bool)
      modifies this
      ensures ok == (instanceId !in old(rows))
      ensures rows == Insert(old(rows), Row(instanceId, Some(instanceName), userId, projectId, Some(userEmail),
                                            createdAt, expiresAt, NotSent, None, false))
    {
      ok := instanceId !in rows;
      if ok {
        rows := rows[instanceId := Row(instanceId, Some(instanceName), userId, projectId, Some(userEmail),
                                       createdAt, expiresAt, NotSent, None, false)];
      }
    }

    method GetInstanceLifecycle(id: string) returns (row: Option<Row>)
      ensures row == if id in rows then Some(rows[id]) else None
    {
      row := if id in rows then Some(rows[id]) else None;
    }

    method Select(where: Where) returns (listing: seq<Row>)
      requires Keyed(rows)
      ensures IsListing(listing, rows, where)
    {
      listing := [];
      var unseen := rows.Keys;
      while unseen != {}
        invariant unseen <= rows.Keys
        invariant NoDuplicates(listing)
        invariant forall r :: r in listing <==>
          r.instanceId in rows && r.instanceId !in unseen && rows[r.instanceId] == r && Selects(where, r)
        decreases unseen
      {
        var id :| id in unseen;
        unseen := unseen - {id};
        if Selects(where, rows[id]) {
          listing := listing + [rows[id]];
        }
      }
    }

    method ListExpiringBefore(threshold: int) returns (listing: seq<Row>)
      requires Keyed(rows)
      ensures IsListing(listing, rows, Expiring(threshold))
    {
      listing := Select(Expiring(threshold));
    }

    method ListAwaitingReply(threshold: int) returns (listing: seq<Row>)
      requires Keyed(rows)
      ensures IsListing(listing, rows, Awaiting(threshold))
    {
      listing := Select(Awaiting(threshold));
    }

    method UpdateEmailSent(id: string, at: int)
      modifies this
      ensures rows == SetSent(old(rows), id, at)
    {
      if id in rows {
        rows := rows[id := rows[id].(status := Sent, sentAt := Some(at))];
      }
    }

    method UpdateExtended(id: string, newExpiry: int)
      modifies this
      ensures rows == SetExtended(old(rows), id, newExpiry)
    {
      if id in rows {
        rows := rows[id := rows[id].(status := Extended, extended := true, expiresAt := newExpiry)];
      }
    }

    method UpdateDeleted(id: string)
      modifies this
      ensures rows == SetDeleted(old(rows), id)
    {
      if id in rows {
        rows := rows[id := rows[id].(status := Deleted)];
      }
    }

    method DeleteInstanceLifecycle(id: string)
      modifies this
      ensures rows == old(rows) - {id}
    {
      rows := rows - {id};
    }
  }
}
