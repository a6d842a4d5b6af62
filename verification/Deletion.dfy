/**
 Deleting an instance: forwarding rules go first, rule by rule, then the server, then its volumes in
 the background and its lifecycle row. Failures of rules and volumes are kept to themselves.
 */
module Deletion {
  import opened Common
  import opened LifecycleTable
  import opened Networking

  /** A Neutron port-forwarding rule of some floating IP. */
  datatype PfRule = PfRule(floatingIp: string, id: string, internalIp: string, externalPort: int)

  /** A rule of the outside forwarding service; its id comes under either of two keys. */
  datatype ExternalRule = ExternalRule(id: string, ruleId: string)

  /** What the endpoint does, in order; `ScheduleCleanup` hands the volumes to a background task. */
  datatype Call =
    | DeleteExternal(ruleId: string)
    | DeleteRule(rule: PfRule)
    | DeleteServer
    | RecordActivity
    | ScheduleCleanup(volumes: seq<string>)
    | RemoveRow

  /** How every remote call answers; `None` stands for an exception. */
  datatype Answers = Answers(
    externalRules: Option<seq<ExternalRule>>,
    internalIp: Option<string>,
    floatingIps: Option<seq<string>>,
    listOk: string -> bool,
    systemSessionOk: bool,
    deleteRuleOk: PfRule -> bool,
    volumes: Option<seq<string>>,
    deleteServerOk: bool,
    recordActivityOk: bool,
    deleteRowOk: bool)

  datatype Reply = NoContent | ServerError

  class Cloud {
    var rules: set<PfRule>
    var servers: set<string>

    constructor ()
    {
      rules, servers := {}, {};
    }

    /** The rules of one floating IP, in Neutron's order. */
    method ListRules(floatingIp: string) returns (listing: seq<PfRule>)
      ensures NoDuplicates(listing)
      ensures forall r :: r in listing <==> r in rules && r.floatingIp == floatingIp
    {
      listing := [];
      var rest := rules;
      while rest != {}
        invariant rest <= rules && NoDuplicates(listing)
        invariant forall r :: r in listing <==> r in rules - rest && r.floatingIp == floatingIp
        decreases rest
      {
        var r :| r in rest;
        rest := rest - {r};
        if r.floatingIp == floatingIp {
          listing := listing + [r];
        }
      }
    }

    /** `get_port_forwardings_by_internal_ip`: a floating IP that cannot be listed is skipped. */
    method RulesByInternalIp(floatingIps: seq<string>, listOk: string -> bool, ip: string) returns (result: seq<PfRule>)
      requires NoDuplicates(floatingIps)
      ensures NoDuplicates(result)
      ensures forall r :: r in result <==> r in rules && r.internalIp == ip && r.floatingIp in floatingIps && listOk(r.floatingIp)
    {
      result := [];
      for i := 0 to |floatingIps|
        invariant NoDuplicates(result)
        invariant forall r :: r in result <==>
          r in rules && r.internalIp == ip && r.floatingIp in floatingIps[..i] && listOk(r.floatingIp)
      {
        assert floatingIps[..i + 1] == floatingIps[..i] + [floatingIps[i]] && floatingIps[i] !in floatingIps[..i];
        if listOk(floatingIps[i]) {
          var listing := ListRules(floatingIps[i]);
          ghost var before := result;
          for j := 0 to |listing|
            invariant NoDuplicates(result)
            invariant forall r :: r in result <==> r in before || (r in listing[..j] && r.internalIp == ip)
          {
            assert listing[..j + 1] == listing[..j] + [listing[j]] && listing[j] !in listing[..j];
            assert listing[j] in listing;
            if listing[j].internalIp == ip {
              result := result + [listing[j]];
            }
          }
          assert listing[..|listing|] == listing;
        }
      }
      assert floatingIps[..|floatingIps|] == floatingIps;
    }
  }

  /** `ext_pf.get("id") or ext_pf.get("rule_id")`. */
  function ExternalId(r: ExternalRule): string {
    if r.id != "" then r.id else r.ruleId
  }

  function ExternalCalls(rules: seq<ExternalRule>): seq<Call> {
    if rules == [] then []
    else
      var last := rules[|rules| - 1];
      ExternalCalls(rules[..|rules| - 1]) + (if ExternalId(last) == "" then [] else [DeleteExternal(ExternalId(last))])
  }

  /** Which rules are deleted: those with an id, under the first one that is not empty. */
  lemma {:induction false} OnlyExternal(rules: seq<ExternalRule>)
    ensures forall c :: c in ExternalCalls(rules) ==> c.DeleteExternal?
    ensures forall x :: DeleteExternal(x) in ExternalCalls(rules) <==>
              |x| > 0 && exists r :: r in rules && x == if |r.id| > 0 then r.id else r.ruleId
  {
    if rules != [] {
      var front, last := rules[..|rules| - 1], rules[|rules| - 1];
      assert rules == front + [last];
      OnlyExternal(front);
    }
  }

  /** In which order: rule by rule, one call for each that has an id. */
  lemma {:induction false} ExternalCallsInOrder(first: seq<ExternalRule>, second: seq<ExternalRule>, r: ExternalRule)
    ensures ExternalCalls(first + second) == ExternalCalls(first) + ExternalCalls(second)
    ensures |r.id| > 0 ==> ExternalCalls([r]) == [DeleteExternal(r.id)]
    ensures |r.id| == 0 && |r.ruleId| > 0 ==> ExternalCalls([r]) == [DeleteExternal(r.ruleId)]
    ensures |r.id| == 0 && |r.ruleId| == 0 ==> ExternalCalls([r]) == []
  {
    assert [r][..0] == [];
    if second == [] {
      assert first + second == first;
    } else {
      var n := |second| - 1;
      assert (first + second)[..|first| + n] == first + second[..n];
      ExternalCallsInOrder(first, second[..n], r);
    }
  }

  function RuleCalls(rules: seq<PfRule>): seq<Call> {
    seq(|rules|, i requires 0 <= i < |rules| => DeleteRule(rules[i]))
  }

  lemma {:induction false} RuleCallsOnce(rules: seq<PfRule>)
    requires NoDuplicates(rules)
    ensures forall r :: multiset(RuleCalls(rules))[DeleteRule(r)] == if r in rules then 1 else 0
    ensures forall c :: c in RuleCalls(rules) ==> c.DeleteRule?
  {
    if rules != [] {
      var n := |rules| - 1;
      var last := rules[n];
      assert rules == rules[..n] + [last] && RuleCalls(rules) == RuleCalls(rules[..n]) + [DeleteRule(last)];
      RuleCallsOnce(rules[..n]);
    }
  }

  /** The clean-up of the volumes, if there are any, and the row. */
  function AfterActivity(a: Answers): seq<Call>
    requires a.volumes.Some?
  {
    if !a.recordActivityOk then []
    else if a.volumes.value != [] then [ScheduleCleanup(a.volumes.value)] + [RemoveRow]
    else [RemoveRow]
  }

  function AfterServer(a: Answers): seq<Call>
    requires a.volumes.Some?
  {
    if !a.deleteServerOk then [] else [RecordActivity] + AfterActivity(a)
  }

  /** What follows the forwarding rules: nothing more once a call has failed. */
  function ServerCalls(a: Answers): seq<Call> {
    if a.volumes.None? then [] else [DeleteServer] + AfterServer(a)
  }

  function RulePart(a: Answers, rules: seq<PfRule>): seq<Call> {
    (if a.externalRules.Some? then ExternalCalls(a.externalRules.value) else []) + RuleCalls(rules)
  }

  function DeletionTrace(a: Answers, rules: seq<PfRule>): seq<Call> {
    RulePart(a, rules) + ServerCalls(a)
  }

  /** The Neutron rules the deletion goes after. */
  ghost predicate Targeted(a: Answers, rules: set<PfRule>, r: PfRule) {
    && a.internalIp.Some? && a.internalIp.value != "" && a.floatingIps.Some? && a.systemSessionOk
    && r in rules && r.internalIp == a.internalIp.value && r.floatingIp in a.floatingIps.value && a.listOk(r.floatingIp)
  }

  /** No remote call about the Neutron rules fails, and every floating IP is listed. */
  ghost predicate NeutronWorks(a: Answers, rules: set<PfRule>) {
    && a.internalIp.Some? && a.internalIp.value != "" && a.floatingIps.Some? && a.systemSessionOk
    && forall r :: r in rules ==> r.floatingIp in a.floatingIps.value && a.listOk(r.floatingIp) && a.deleteRuleOk(r)
  }

  /** Step 0-a. */
  method DeleteExternalRules(a: Answers) returns (calls: seq<Call>)
    ensures calls == if a.externalRules.Some? then ExternalCalls(a.externalRules.value) else []
  {
    calls := [];
    if a.externalRules.None? {
      return;
    }
    var rules := a.externalRules.value;
    for i := 0 to |rules|
      invariant calls == ExternalCalls(rules[..i])
    {
      assert rules[..i + 1][..i] == rules[..i];
      var id := if rules[i].id != "" then rules[i].id else rules[i].ruleId;
      if id != "" {
        calls := calls + [DeleteExternal(id)];
      }
    }
    assert rules[..|rules|] == rules;
  }

  /** Step 0-b: every targeted rule is attempted, and exactly the successful ones disappear. */
  method DeleteNeutronRules(cloud: Cloud, a: Answers) returns (calls: seq<Call>, ghost attempted: seq<PfRule>)
    requires a.floatingIps.Some? ==> NoDuplicates(a.floatingIps.value)
    modifies cloud`rules
    ensures calls == RuleCalls(attempted) && NoDuplicates(attempted)
    ensures forall r :: r in attempted <==> Targeted(a, old(cloud.rules), r)
    ensures cloud.rules == set r | r in old(cloud.rules) && !(Targeted(a, old(cloud.rules), r) && a.deleteRuleOk(r))
  {
    calls, attempted := [], [];
    if a.internalIp.None? || a.internalIp.value == "" || a.floatingIps.None? {
      return;
    }
    var pfs := cloud.RulesByInternalIp(a.floatingIps.value, a.listOk, a.internalIp.value);
    if pfs == [] || !a.systemSessionOk {
      if pfs == [] {
        assert forall r :: r in old(cloud.rules) && Targeted(a, old(cloud.rules), r) ==> r in pfs;
      }
      return;
    }
    attempted := pfs;
    for i := 0 to |pfs|
      invariant calls == RuleCalls(pfs[..i])
      invariant cloud.rules == set r | r in old(cloud.rules) && !(r in pfs[..i] && a.deleteRuleOk(r))
    {
      assert pfs[..i + 1] == pfs[..i] + [pfs[i]];
      calls := calls + [DeleteRule(pfs[i])];
      if a.deleteRuleOk(pfs[i]) {
        cloud.rules := cloud.rules - {pfs[i]};
      }
    }
    assert pfs[..|pfs|] == pfs;
  }

  /** How often a call is made, said of the answers alone: once, as soon as those before it succeeded. */
  ghost function TimesCalled(a: Answers, attempted: seq<PfRule>, c: Call): nat
    requires !c.DeleteExternal?
  {
    match c
    case DeleteRule(r) => if r in attempted then 1 else 0
    case DeleteServer => if a.volumes.Some? then 1 else 0
    case RecordActivity => if a.volumes.Some? && a.deleteServerOk then 1 else 0
    case ScheduleCleanup(v) =>
      if a.volumes == Some(v) && |v| > 0 && a.deleteServerOk && a.recordActivityOk then 1 else 0
    case RemoveRow => if a.volumes.Some? && a.deleteServerOk && a.recordActivityOk then 1 else 0
  }

  lemma CountFirst(x: Call, rest: seq<Call>, c: Call)
    ensures multiset([x] + rest)[c] == (if c == x then 1 else 0) + multiset(rest)[c]
  {
  }

  lemma AfterActivityCounted(a: Answers, c: Call)
    requires a.volumes.Some? && a.deleteServerOk
    ensures multiset(AfterActivity(a))[c] == if c.ScheduleCleanup? || c.RemoveRow? then TimesCalled(a, [], c) else 0
  {
    if a.recordActivityOk && a.volumes.value != [] {
      CountFirst(ScheduleCleanup(a.volumes.value), [RemoveRow], c);
    }
  }

  lemma ServerCallsCounted(a: Answers, c: Call)
    ensures multiset(ServerCalls(a))[c] == if c.DeleteExternal? then 0 else TimesCalled(a, [], c)
  {
    if a.volumes.Some? {
      CountFirst(DeleteServer, AfterServer(a), c);
      if a.deleteServerOk {
        CountFirst(RecordActivity, AfterActivity(a), c);
        AfterActivityCounted(a, c);
      }
    }
  }

  lemma CountInThree(x: seq<Call>, y: seq<Call>, z: seq<Call>, c: Call)
    ensures multiset(x + y + z)[c] == multiset(x)[c] + multiset(y)[c] + multiset(z)[c]
    ensures c !in x ==> multiset(x)[c] == 0
    ensures c !in y ==> multiset(y)[c] == 0
  {
  }

  lemma TraceCounted(a: Answers, rules: seq<PfRule>, c: Call)
    requires NoDuplicates(rules) && !c.DeleteExternal?
    ensures multiset(DeletionTrace(a, rules))[c] == TimesCalled(a, rules, c)
  {
    var listed := if a.externalRules.Some? then a.externalRules.value else [];
    OnlyExternal(listed);
    RuleCallsOnce(rules);
    CountInThree(ExternalCalls(listed), RuleCalls(rules), ServerCalls(a), c);
    assert DeletionTrace(a, rules) == ExternalCalls(listed) + RuleCalls(rules) + ServerCalls(a);
    ServerCallsCounted(a, c);
  }

  lemma TraceDeletesExternal(a: Answers, rules: seq<PfRule>, x: string)
    ensures DeleteExternal(x) in DeletionTrace(a, rules) <==>
              |x| > 0 && a.externalRules.Some? && exists r :: r in a.externalRules.value && x == if |r.id| > 0 then r.id else r.ruleId
  {
    var listed := if a.externalRules.Some? then a.externalRules.value else [];
    OnlyExternal(listed);
    assert DeletionTrace(a, rules) == ExternalCalls(listed) + RuleCalls(rules) + ServerCalls(a);
    ServerCallsCounted(a, DeleteExternal(x));
  }

  /** Every call as often as the answers ask for, and a deletion for exactly the outside rules with an id. */
  ghost predicate CallsAsAnswered(a: Answers, attempted: seq<PfRule>, calls: seq<Call>) {
    && (forall c: Call :: !c.DeleteExternal? ==> multiset(calls)[c] == TimesCalled(a, attempted, c))
    && (forall x :: DeleteExternal(x) in calls <==>
          |x| > 0 && a.externalRules.Some? && exists r :: r in a.externalRules.value && x == if |r.id| > 0 then r.id else r.ruleId)
  }

  lemma TraceAsAnswered(a: Answers, rules: seq<PfRule>)
    requires NoDuplicates(rules)
    ensures CallsAsAnswered(a, rules, DeletionTrace(a, rules))
  {
    forall c: Call | !c.DeleteExternal? ensures multiset(DeletionTrace(a, rules))[c] == TimesCalled(a, rules, c) {
      TraceCounted(a, rules, c);
    }
    forall x: string
      ensures DeleteExternal(x) in DeletionTrace(a, rules) <==>
                |x| > 0 && a.externalRules.Some? && exists r :: r in a.externalRules.value && x == if |r.id| > 0 then r.id else r.ruleId
    {
      TraceDeletesExternal(a, rules, x);
    }
  }

  /** Steps 1 to 4: the server, the record of it, its volumes and its row. */
  method DeleteServerAndRow(cloud: Cloud, db: LifecycleDb, id: string, a: Answers) returns (reply: Reply, calls: seq<Call>)
    modifies cloud`servers, db
    ensures calls == ServerCalls(a)
    ensures cloud.servers == if a.volumes.Some? && a.deleteServerOk then old(cloud.servers) - {id} else old(cloud.servers)
    ensures reply == NoContent <==> a.volumes.Some? && a.deleteServerOk && a.recordActivityOk
    ensures db.rows == if reply == NoContent && a.deleteRowOk then old(db.rows) - {id} else old(db.rows)
  {
    if a.volumes.None? {
      return ServerError, [];
    }
    calls := [DeleteServer];
    if !a.deleteServerOk {
      return ServerError, calls;
    }
    cloud.servers := cloud.servers - {id};
    calls := calls + [RecordActivity];
    if !a.recordActivityOk {
      return ServerError, calls;
    }
    if a.volumes.value != [] {
      calls := calls + [ScheduleCleanup(a.volumes.value)];
    }
    calls := calls + [RemoveRow];
    if a.deleteRowOk {
      db.DeleteInstanceLifecycle(id);
    }
    return NoContent, calls;
  }

  /** `delete_instance`, after the session is set up. */
  method DeleteInstance(cloud: Cloud, db: LifecycleDb, id: string, a: Answers)
    returns (reply: Reply, calls: seq<Call>, ghost attempted: seq<PfRule>)
    requires a.floatingIps.Some? ==> NoDuplicates(a.floatingIps.value)
    modifies cloud, db
    // every targeted rule is attempted once, whatever fails on the way
    ensures calls == DeletionTrace(a, attempted)
    ensures NoDuplicates(attempted) && forall r :: r in attempted <==> Targeted(a, old(cloud.rules), r)
    ensures cloud.rules == set r | r in old(cloud.rules) && !(Targeted(a, old(cloud.rules), r) && a.deleteRuleOk(r))
    ensures NeutronWorks(a, old(cloud.rules)) ==>
              cloud.rules == set r | r in old(cloud.rules) && r.internalIp != a.internalIp.value
    ensures cloud.servers == if a.volumes.Some? && a.deleteServerOk then old(cloud.servers) - {id} else old(cloud.servers)
    ensures reply == NoContent <==> a.volumes.Some? && a.deleteServerOk && a.recordActivityOk
    ensures db.rows == if reply == NoContent && a.deleteRowOk then old(db.rows) - {id} else old(db.rows)
    // which calls there are, and how often
    ensures CallsAsAnswered(a, attempted, calls)
  {
    var external := DeleteExternalRules(a);
    var neutron, server;
    neutron, attempted := DeleteNeutronRules(cloud, a);
    reply, server := DeleteServerAndRow(cloud, db, id, a);
    calls := external + neutron + server;
    TraceAsAnswered(a, attempted);
  }

  lemma RulePartIsRules(a: Answers, rules: seq<PfRule>)
    ensures forall c :: c in RulePart(a, rules) ==> c.DeleteExternal? || c.DeleteRule?
  {
    if a.externalRules.Some? {
      OnlyExternal(a.externalRules.value);
    }
  }

  /** The server goes first, and what comes after a call comes only after its success. */
  lemma ServerCallsOrder(a: Answers, i: nat)
    requires i < |ServerCalls(a)|
    ensures var t := ServerCalls(a);
            && (t[i].DeleteServer? <==> i == 0) && !t[i].DeleteExternal? && !t[i].DeleteRule?
            && (i > 0 ==> a.deleteServerOk && DeleteServer in t[..i])
            && (t[i].ScheduleCleanup? || t[i].RemoveRow? ==> a.recordActivityOk && RecordActivity in t[..i])
  {
    var t := ServerCalls(a);
    assert t[0] == DeleteServer;
    if i > 0 {
      assert t[1] == RecordActivity && t[..i][0] == DeleteServer;
    }
    if i > 1 {
      assert t[..i][1] == RecordActivity;
    }
  }

  /**
   The order in any trace: the rules go before the server, and the row and the volumes only after the
   server was deleted and the activity recorded, both successfully.
   */
  lemma DeletionOrder(a: Answers, rules: seq<PfRule>, i: nat)
    requires i < |DeletionTrace(a, rules)|
    ensures var t := DeletionTrace(a, rules);
            && (t[i].DeleteExternal? || t[i].DeleteRule? ==> DeleteServer !in t[..i])
            && (t[i].DeleteServer? ==> DeleteServer !in t[..i])
            && (t[i].RecordActivity? ==> DeleteServer in t[..i] && a.deleteServerOk)
            && (t[i].ScheduleCleanup? || t[i].RemoveRow? ==>
                  DeleteServer in t[..i] && a.deleteServerOk && RecordActivity in t[..i] && a.recordActivityOk)
  {
    var front, back, t := RulePart(a, rules), ServerCalls(a), DeletionTrace(a, rules);
    assert t == front + back;
    RulePartIsRules(a, rules);
    if i < |front| {
      assert t[i] in front && t[..i] == front[..i];
      assert forall c :: c in front[..i] ==> c in front;
    } else {
      var k := i - |front|;
      assert t[i] == back[k] && t[..i] == front + back[..k];
      ServerCallsOrder(a, k);
    }
  }

  // ---- Volumes, after the server ----

  const SERVER_POLLS := 24
  const VOLUME_POLLS := 12

  datatype Cleanup = PolledServer | PolledVolume(id: string) | DeletedVolume(id: string, ok: bool)

  /**
   The answers to the polls: whether Nova no longer knows the server, whether the wait for a volume
   ends (it is available, or Cinder cannot show it), and whether its deletion succeeds.
   */
  datatype CleanupEnv = CleanupEnv(serverGone: nat -> bool, volumeSettled: (nat, nat) -> bool, deleteOk: nat -> bool)

  function Settled(env: CleanupEnv, volume: nat): nat -> bool {
    (k: nat) => env.volumeSettled(volume, k)
  }

  function Repeat(c: Cleanup, n: nat): seq<Cleanup> {
    seq(n, _ => c)
  }

  function VolumeEvents(env: CleanupEnv, volumes: seq<string>): seq<Cleanup> {
    if volumes == [] then []
    else
      var n := |volumes| - 1;
      VolumeEvents(env, volumes[..n])
      + Repeat(PolledVolume(volumes[n]), Polls(Settled(env, n), VOLUME_POLLS))
      + [DeletedVolume(volumes[n], env.deleteOk(n))]
  }

  /** `for attempt in range(bound)` with its `break`. */
  method PollUntil(hit: nat -> bool, bound: nat, event: Cleanup) returns (trace: seq<Cleanup>)
    ensures trace == Repeat(event, Polls(hit, bound))
  {
    trace := [];
    for attempt := 0 to bound
      invariant trace == Repeat(event, attempt)
      invariant First(hit, 0, bound) == First(hit, attempt, bound)
    {
      trace := trace + [event];
      if hit(attempt) {
        return;
      }
    }
  }

  /** `_delete_volumes_after_instance`. */
  method DeleteVolumesAfterInstance(env: CleanupEnv, volumes: seq<string>) returns (trace: seq<Cleanup>)
    ensures trace == Repeat(PolledServer, Polls(env.serverGone, SERVER_POLLS)) + VolumeEvents(env, volumes)
  {
    trace := PollUntil(env.serverGone, SERVER_POLLS, PolledServer);
    ghost var waited := trace;
    for i := 0 to |volumes|
      invariant trace == waited + VolumeEvents(env, volumes[..i])
    {
      assert volumes[..i + 1][..i] == volumes[..i];
      var polls := PollUntil(Settled(env, i), VOLUME_POLLS, PolledVolume(volumes[i]));
      trace := trace + polls + [DeletedVolume(volumes[i], env.deleteOk(i))];
    }
    assert volumes[..|volumes|] == volumes;
  }

  /** The volumes a trace tried to delete, in order. */
  function Deletions(trace: seq<Cleanup>): seq<string> {
    if trace == [] then []
    else
      var e := trace[|trace| - 1];
      Deletions(trace[..|trace| - 1]) + (if e.DeletedVolume? then [e.id] else [])
  }

  lemma {:induction false} DeletionsAppend(a: seq<Cleanup>, b: seq<Cleanup>)
    ensures Deletions(a + b) == Deletions(a) + Deletions(b)
  {
    if b == [] {
      assert a + b == a;
    } else {
      assert (a + b)[..|a + b| - 1] == a + b[..|b| - 1];
      DeletionsAppend(a, b[..|b| - 1]);
    }
  }

  lemma {:induction false} PollingDeletesNothing(c: Cleanup, n: nat)
    requires !c.DeletedVolume?
    ensures Deletions(Repeat(c, n)) == []
  {
    if n > 0 {
      assert Repeat(c, n)[..n - 1] == Repeat(c, n - 1);
      PollingDeletesNothing(c, n - 1);
    }
  }

  lemma {:induction false} EachVolumeOnce(env: CleanupEnv, volumes: seq<string>)
    ensures Deletions(VolumeEvents(env, volumes)) == volumes
    ensures |VolumeEvents(env, volumes)| <= |volumes| * (VOLUME_POLLS + 1)
  {
    if volumes != [] {
      var n := |volumes| - 1;
      var polls := Repeat(PolledVolume(volumes[n]), Polls(Settled(env, n), VOLUME_POLLS));
      var last := [DeletedVolume(volumes[n], env.deleteOk(n))];
      EachVolumeOnce(env, volumes[..n]);
      FirstSpec(Settled(env, n), 0, VOLUME_POLLS);
      PollingDeletesNothing(PolledVolume(volumes[n]), Polls(Settled(env, n), VOLUME_POLLS));
      assert last[..0] == [];
      DeletionsAppend(VolumeEvents(env, volumes[..n]), polls);
      DeletionsAppend(VolumeEvents(env, volumes[..n]) + polls, last);
      assert VolumeEvents(env, volumes) == VolumeEvents(env, volumes[..n]) + polls + last;
      assert volumes == volumes[..n] + [volumes[n]];
    }
  }

  /**
   Whatever the services answer, the clean-up ends within its bounds and asks for the deletion of each
   volume exactly once, in order.
   */
  lemma CleanupIsBounded(env: CleanupEnv, volumes: seq<string>)
    ensures var trace := Repeat(PolledServer, Polls(env.serverGone, SERVER_POLLS)) + VolumeEvents(env, volumes);
            && Deletions(trace) == volumes
            && Polls(env.serverGone, SERVER_POLLS) <= SERVER_POLLS
            && (forall n: nat :: Polls(Settled(env, n), VOLUME_POLLS) <= VOLUME_POLLS)
            && |trace| <= SERVER_POLLS + |volumes| * (VOLUME_POLLS + 1)
  {
    FirstSpec(env.serverGone, 0, SERVER_POLLS);
    forall n: nat ensures Polls(Settled(env, n), VOLUME_POLLS) <= VOLUME_POLLS {
      FirstSpec(Settled(env, n), 0, VOLUME_POLLS);
    }
    PollingDeletesNothing(PolledServer, Polls(env.serverGone, SERVER_POLLS));
    DeletionsAppend(Repeat(PolledServer, Polls(env.serverGone, SERVER_POLLS)), VolumeEvents(env, volumes));
    EachVolumeOnce(env, volumes);
  }

  /** How long a loop of polls goes on: up to the first hit, and no longer than its bound. */
  ghost predicate StopsAt(hit: nat -> bool, bound: nat, polls: nat) {
    && polls <= bound && (polls < bound ==> polls > 0 && hit(polls - 1))
    && forall j: nat :: j < polls - 1 ==> !hit(j)
  }

  lemma PollsStop(hit: nat -> bool, bound: nat)
    ensures StopsAt(hit, bound, Polls(hit, bound))
  {
    FirstSpec(hit, 0, bound);
  }

  lemma {:induction false} EventsOfFirstVolumes(env: CleanupEnv, volumes: seq<string>, n: nat)
    requires n <= |volumes|
    ensures VolumeEvents(env, volumes[..n]) <= VolumeEvents(env, volumes)
  {
    if n == |volumes| {
      assert volumes[..n] == volumes;
    } else {
      var last := |volumes| - 1;
      assert volumes[..last][..n] == volumes[..n];
      EventsOfFirstVolumes(env, volumes[..last], n);
    }
  }

  /** Events `start` to `start + polls` poll this volume until it is settled, twelve times at most, and ask for its deletion. */
  ghost predicate IsSegment(env: CleanupEnv, trace: seq<Cleanup>, n: nat, volume: string, start: nat, polls: nat) {
    && start + polls < |trace|
    && StopsAt(Settled(env, n), 12, polls)
    && (forall j :: start <= j < start + polls ==> trace[j] == PolledVolume(volume))
    && trace[start + polls] == DeletedVolume(volume, env.deleteOk(n))
  }

  lemma LastSegment(env: CleanupEnv, volumes: seq<string>)
    requires volumes != []
    ensures var n := |volumes| - 1;
            var start, polls := |VolumeEvents(env, volumes[..n])|, Polls(Settled(env, n), VOLUME_POLLS);
            && IsSegment(env, VolumeEvents(env, volumes), n, volumes[n], start, polls)
            && |VolumeEvents(env, volumes)| == start + polls + 1
  {
    PollsStop(Settled(env, |volumes| - 1), VOLUME_POLLS);
  }

  /** What the clean-up does about volume `n`, right after the volumes before it and right before the others. */
  lemma VolumeSegment(env: CleanupEnv, volumes: seq<string>, n: nat) returns (start: nat, polls: nat)
    requires n < |volumes|
    ensures start == |VolumeEvents(env, volumes[..n])| && |VolumeEvents(env, volumes[..n + 1])| == start + polls + 1
    ensures IsSegment(env, VolumeEvents(env, volumes), n, volumes[n], start, polls)
  {
    var upTo := volumes[..n + 1];
    assert upTo[..n] == volumes[..n];
    start, polls := |VolumeEvents(env, volumes[..n])|, Polls(Settled(env, n), VOLUME_POLLS);
    LastSegment(env, upTo);
    EventsOfFirstVolumes(env, volumes, n + 1);
  }

  /** The wait for the server comes first: until it is gone, 24 polls at most. */
  lemma ServerIsAwaited(env: CleanupEnv, volumes: seq<string>) returns (polls: nat)
    ensures var trace := Repeat(PolledServer, Polls(env.serverGone, SERVER_POLLS)) + VolumeEvents(env, volumes);
            && polls <= |trace| && trace[polls..] == VolumeEvents(env, volumes)
            && forall j :: 0 <= j < polls ==> trace[j] == PolledServer
    ensures StopsAt(env.serverGone, 24, polls)
  {
    polls := Polls(env.serverGone, SERVER_POLLS);
    PollsStop(env.serverGone, SERVER_POLLS);
  }
}
