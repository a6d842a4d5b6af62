/**
 The background work after an instance is created or deleted: bounded polling, then remote calls in
 a fixed order, each failure kept to itself. The methods return the trace of what was observed and
 asked; the lemmas say what every trace satisfies.
 */
module Networking {
  import opened Common

  /** The first position below `bound` that hits, or `bound`. */
  function First(hit: nat -> bool, from: nat, bound: nat): nat
    requires from <= bound
    decreases bound - from
  {
    if from == bound || hit(from) then from else First(hit, from + 1, bound)
  }

  lemma {:induction false} FirstSpec(hit: nat -> bool, from: nat, bound: nat)
    requires from <= bound
    ensures from <= First(hit, from, bound) <= bound
    ensures First(hit, from, bound) < bound ==> hit(First(hit, from, bound))
    ensures forall k: nat :: from <= k < First(hit, from, bound) ==> !hit(k)
    decreases bound - from
  {
    if from != bound && !hit(from) {
      FirstSpec(hit, from + 1, bound);
    }
  }

  /** How many polls the loop makes: up to and including the first hit. */
  function Polls(hit: nat -> bool, bound: nat): nat {
    if First(hit, 0, bound) < bound then First(hit, 0, bound) + 1 else bound
  }

  // ---- Port forwarding after creation ----

  datatype Status = Active | Error | Other

  datatype PostOutcome = Accepted | BadStatus | NetworkError | OtherError

  datatype Port = Port(internalPort: int, externalPort: int, protocol: string)

  datatype Payload = Payload(
    rulePrefix: string, rulePort: Option<int>, vmId: string, vmName: string, internalIp: string, internalPort: int,
    externalPort: Option<int>, serviceType: string, protocol: string)

  /** A `None` status or address stands for an exception; an empty address counts as not found. */
  datatype Event =
    | SawStatus(status: Option<Status>)
    | SawIp(ip: Option<string>)
    | Posted(payload: Payload, attempt: nat, outcome: PostOutcome)

  /** The answers of Nova to each poll, and of the forwarding service to each attempt of each call. */
  datatype Env = Env(status: nat -> Option<Status>, ip: nat -> Option<string>, post: (nat, nat) -> PostOutcome)

  const STATUS_POLLS := 60
  const IP_POLLS := 10
  const TRIES := 3

  function Decisive(env: Env): nat -> bool {
    (k: nat) => env.status(k) == Some(Active) || env.status(k) == Some(Error)
  }

  function HasIp(env: Env): nat -> bool {
    (k: nat) => env.ip(k).Some? && env.ip(k).value != ""
  }

  function StatusEvents(env: Env, n: nat): seq<Event> {
    seq(n, k requires 0 <= k < n => SawStatus(env.status(k)))
  }

  function IpEvents(env: Env, n: nat): seq<Event> {
    seq(n, k requires 0 <= k < n => SawIp(env.ip(k)))
  }

  /** The attempts of one call: tried again only after a network error, three times at most. */
  function TryEvents(env: Env, call: nat, payload: Payload, attempt: nat): seq<Event>
    requires attempt < TRIES
    decreases TRIES - attempt
  {
    var outcome := env.post(call, attempt);
    [Posted(payload, attempt, outcome)]
    + (if outcome == NetworkError && attempt + 1 < TRIES then TryEvents(env, call, payload, attempt + 1) else [])
  }

  function PostEvents(env: Env, payloads: seq<Payload>): seq<Event> {
    if payloads == [] then []
    else
      var n := |payloads| - 1;
      PostEvents(env, payloads[..n]) + TryEvents(env, n, payloads[n], 0)
  }

  function Prefix8(id: string): string {
    if |id| < 8 then id else id[..8]
  }

  function SshPayload(serverId: string, serverName: string, ip: string): Payload {
    Payload("ssh-" + Prefix8(serverId), None, serverId, serverName, ip, 22, None, "ssh", "tcp")
  }

  function PortPayload(serverId: string, serverName: string, ip: string, port: Port): Payload {
    Payload("port-" + Prefix8(serverId) + "-", Some(port.internalPort), serverId, serverName, ip, port.internalPort,
            if port.externalPort == 0 then None else Some(port.externalPort), "other", port.protocol)
  }

  /** SSH first, then the additional ports in order. */
  function Payloads(serverId: string, serverName: string, ip: string, ports: seq<Port>): seq<Payload> {
    [SshPayload(serverId, serverName, ip)]
    + seq(|ports|, i requires 0 <= i < |ports| => PortPayload(serverId, serverName, ip, ports[i]))
  }

  /** The address found, if `ACTIVE` was seen before `ERROR` and both polls ended in time. */
  function ReadyIp(env: Env): Option<string> {
    var s, i := First(Decisive(env), 0, STATUS_POLLS), First(HasIp(env), 0, IP_POLLS);
    if s < STATUS_POLLS && env.status(s) == Some(Active) && i < IP_POLLS then env.ip(i) else None
  }

  function Trace(env: Env, serverId: string, serverName: string, ports: seq<Port>): seq<Event> {
    var s, ip := First(Decisive(env), 0, STATUS_POLLS), ReadyIp(env);
    StatusEvents(env, Polls(Decisive(env), STATUS_POLLS))
    + (if s < STATUS_POLLS && env.status(s) == Some(Active) then IpEvents(env, Polls(HasIp(env), IP_POLLS)) else [])
    + (if ip.Some? then PostEvents(env, Payloads(serverId, serverName, ip.value, ports)) else [])
  }

  /** `_call_portforward_api` under its retry decorator; the caller swallows whatever it raises. */
  method CallPortForwardApi(env: Env, call: nat, payload: Payload) returns (trace: seq<Event>)
    ensures trace == TryEvents(env, call, payload, 0)
  {
    trace := [];
    var attempt := 0;
    while attempt < TRIES
      invariant attempt < TRIES ==> trace + TryEvents(env, call, payload, attempt) == TryEvents(env, call, payload, 0)
      invariant attempt == TRIES ==> trace == TryEvents(env, call, payload, 0)
      invariant attempt <= TRIES
    {
      var outcome := env.post(call, attempt);
      ghost var before := trace;
      trace := trace + [Posted(payload, attempt, outcome)];
      assert before + TryEvents(env, call, payload, attempt)
        == trace + (if outcome == NetworkError && attempt + 1 < TRIES then TryEvents(env, call, payload, attempt + 1) else []);
      if outcome != NetworkError {
        return;
      }
      attempt := attempt + 1;
    }
  }

  /** The wait for `ACTIVE`: whether it came before `ERROR` and within ten minutes. */
  method AwaitActive(env: Env) returns (active: bool, trace: seq<Event>)
    ensures trace == StatusEvents(env, Polls(Decisive(env), STATUS_POLLS))
    ensures var s := First(Decisive(env), 0, STATUS_POLLS);
            active <==> s < STATUS_POLLS && env.status(s) == Some(Active)
  {
    active, trace := false, [];
    for attempt := 0 to STATUS_POLLS
      invariant trace == StatusEvents(env, attempt) && !active
      invariant First(Decisive(env), 0, STATUS_POLLS) == First(Decisive(env), attempt, STATUS_POLLS)
    {
      var status := env.status(attempt);
      trace := trace + [SawStatus(status)];
      assert trace == StatusEvents(env, attempt + 1);
      if status == Some(Active) {
        active := true;
        return;
      }
      if status == Some(Error) {
        return;
      }
    }
  }

  method AwaitIp(env: Env) returns (ip: Option<string>, trace: seq<Event>)
    ensures trace == IpEvents(env, Polls(HasIp(env), IP_POLLS))
    ensures var i := First(HasIp(env), 0, IP_POLLS);
            ip == if i < IP_POLLS then env.ip(i) else None
  {
    trace := [];
    for attempt := 0 to IP_POLLS
      invariant trace == IpEvents(env, attempt)
      invariant First(HasIp(env), 0, IP_POLLS) == First(HasIp(env), attempt, IP_POLLS)
    {
      ip := env.ip(attempt);
      trace := trace + [SawIp(ip)];
      assert trace == IpEvents(env, attempt + 1);
      if ip.Some? && ip.value != "" {
        return;
      }
    }
    ip := None;
  }

  lemma PostEventsNext(env: Env, payloads: seq<Payload>, i: nat)
    requires i < |payloads|
    ensures PostEvents(env, payloads[..i + 1]) == PostEvents(env, payloads[..i]) + TryEvents(env, i, payloads[i], 0)
  {
    assert payloads[..i + 1][..i] == payloads[..i];
  }

  /** SSH, then each additional port; no failure stops the next call. */
  method ForwardPorts(env: Env, serverId: string, serverName: string, ip: string, ports: seq<Port>) returns (trace: seq<Event>)
    ensures trace == PostEvents(env, Payloads(serverId, serverName, ip, ports))
  {
    ghost var payloads := Payloads(serverId, serverName, ip, ports);
    trace := CallPortForwardApi(env, 0, SshPayload(serverId, serverName, ip));
    PostEventsNext(env, payloads, 0);
    for i := 0 to |ports|
      invariant trace == PostEvents(env, payloads[..i + 1])
    {
      var more := CallPortForwardApi(env, i + 1, PortPayload(serverId, serverName, ip, ports[i]));
      PostEventsNext(env, payloads, i + 1);
      trace := trace + more;
    }
    assert payloads[..|ports| + 1] == payloads;
  }

  /** `setup_instance_networking`. */
  method SetupInstanceNetworking(env: Env, serverId: string, serverName: string, ports: seq<Port>) returns (trace: seq<Event>)
    ensures trace == Trace(env, serverId, serverName, ports)
  {
    FirstSpec(HasIp(env), 0, IP_POLLS);
    var active, ip, more;
    active, trace := AwaitActive(env);
    if !active {
      return;
    }
    ip, more := AwaitIp(env);
    trace := trace + more;
    if ip.None? {
      return;
    }
    more := ForwardPorts(env, serverId, serverName, ip.value, ports);
    trace := trace + more;
  }

  /** The payloads of the first attempts in a trace, in order: the logical calls. */
  function Calls(trace: seq<Event>): seq<Payload> {
    if trace == [] then []
    else
      var e := trace[|trace| - 1];
      Calls(trace[..|trace| - 1]) + (if e.Posted? && e.attempt == 0 then [e.payload] else [])
  }

  lemma {:induction false} CallsAppend(a: seq<Event>, b: seq<Event>)
    ensures Calls(a + b) == Calls(a) + Calls(b)
  {
    if b == [] {
      assert a + b == a;
    } else {
      assert (a + b)[..|a + b| - 1] == a + b[..|b| - 1];
      CallsAppend(a, b[..|b| - 1]);
    }
  }

  /** The attempts of a call are numbered in order, each but the last ended in a network error, and so did the last only if it was the third. */
  ghost predicate IsRetrySeries(t: seq<Event>, payload: Payload, attempt: nat) {
    forall k :: 0 <= k < |t| ==>
      && t[k].Posted? && t[k].payload == payload && t[k].attempt == attempt + k
      && (k < |t| - 1 ==> t[k].outcome == NetworkError)
      && (k == |t| - 1 && t[k].outcome == NetworkError ==> attempt + |t| == 3)
  }

  lemma {:induction false} TriesAreBounded(env: Env, call: nat, payload: Payload, attempt: nat)
    requires attempt < TRIES
    ensures 1 <= |TryEvents(env, call, payload, attempt)| <= 3 - attempt
    ensures IsRetrySeries(TryEvents(env, call, payload, attempt), payload, attempt)
    ensures forall k :: 0 <= k < |TryEvents(env, call, payload, attempt)| ==>
              TryEvents(env, call, payload, attempt)[k].outcome == env.post(call, attempt + k)
    decreases TRIES - attempt
  {
    var head := Posted(payload, attempt, env.post(call, attempt));
    if head.outcome == NetworkError && attempt + 1 < TRIES {
      TriesAreBounded(env, call, payload, attempt + 1);
      assert TryEvents(env, call, payload, attempt) == [head] + TryEvents(env, call, payload, attempt + 1);
    } else {
      assert TryEvents(env, call, payload, attempt) == [head];
    }
  }

  lemma {:induction false} NoFirstAttempt(t: seq<Event>)
    requires forall e :: e in t ==> !e.Posted? || e.attempt != 0
    ensures Calls(t) == []
  {
    if t != [] {
      assert t[|t| - 1] in t;
      NoFirstAttempt(t[..|t| - 1]);
    }
  }

  /** The attempts of a call count as one logical call. */
  lemma OneCall(env: Env, call: nat, payload: Payload)
    ensures Calls(TryEvents(env, call, payload, 0)) == [payload]
  {
    var t := TryEvents(env, call, payload, 0);
    TriesAreBounded(env, call, payload, 0);
    assert t == [t[0]] + t[1..];
    CallsAppend([t[0]], t[1..]);
    NoFirstAttempt(t[1..]);
    assert [t[0]][..0] == [];
  }

  lemma {:induction false} EveryPayloadIsCalled(env: Env, payloads: seq<Payload>)
    ensures Calls(PostEvents(env, payloads)) == payloads
  {
    if payloads != [] {
      var n := |payloads| - 1;
      EveryPayloadIsCalled(env, payloads[..n]);
      OneCall(env, n, payloads[n]);
      CallsAppend(PostEvents(env, payloads[..n]), TryEvents(env, n, payloads[n], 0));
    }
  }

  lemma {:induction false} OnlyPosts(env: Env, payloads: seq<Payload>, e: Event)
    requires e in PostEvents(env, payloads)
    ensures e.Posted? && e.attempt < TRIES && e.payload in payloads
  {
    var n := |payloads| - 1;
    if e in PostEvents(env, payloads[..n]) {
      OnlyPosts(env, payloads[..n], e);
    } else {
      TriesAreBounded(env, n, payloads[n], 0);
    }
  }

  /**
   The logical calls of a trace, whatever fails: SSH and then every additional port in order, all with
   the address found, once the instance is ready; none otherwise.
   */
  lemma CallsOfATrace(env: Env, serverId: string, serverName: string, ports: seq<Port>)
    ensures Calls(Trace(env, serverId, serverName, ports))
         == if ReadyIp(env).Some? then Payloads(serverId, serverName, ReadyIp(env).value, ports) else []
  {
    var s, ip := First(Decisive(env), 0, STATUS_POLLS), ReadyIp(env);
    var statuses := StatusEvents(env, Polls(Decisive(env), STATUS_POLLS));
    var ips := if s < STATUS_POLLS && env.status(s) == Some(Active) then IpEvents(env, Polls(HasIp(env), IP_POLLS)) else [];
    var posts := if ip.Some? then PostEvents(env, Payloads(serverId, serverName, ip.value, ports)) else [];
    NoFirstAttempt(statuses);
    NoFirstAttempt(ips);
    CallsAppend(statuses, ips);
    CallsAppend(statuses + ips, posts);
    if ip.Some? {
      EveryPayloadIsCalled(env, Payloads(serverId, serverName, ip.value, ports));
    }
  }

  ghost function Waited(env: Env): seq<Event> {
    StatusEvents(env, Polls(Decisive(env), STATUS_POLLS)) + IpEvents(env, Polls(HasIp(env), IP_POLLS))
  }

  lemma NoErrorSeen(env: Env)
    requires ReadyIp(env).Some?
    ensures var s := First(Decisive(env), 0, STATUS_POLLS);
            s < STATUS_POLLS && forall k: nat :: k <= s ==> env.status(k) != Some(Error)
  {
    FirstSpec(Decisive(env), 0, STATUS_POLLS);
    forall k: nat | k < First(Decisive(env), 0, STATUS_POLLS) ensures env.status(k) != Some(Error) {
      assert !Decisive(env)(k);
    }
  }

  /** What a ready instance's trace shows before the first post. */
  lemma WaitedFacts(env: Env)
    requires ReadyIp(env).Some?
    ensures var s, w := First(Decisive(env), 0, STATUS_POLLS), Waited(env);
            && s < |w| - 1 && w[s] == SawStatus(Some(Active)) && w[|w| - 1] == SawIp(ReadyIp(env))
            && forall k :: 0 <= k < |w| ==> !w[k].Posted? && w[k] != SawStatus(Some(Error))
  {
    NoErrorSeen(env);
  }

  lemma NoPostUnlessReady(env: Env, serverId: string, serverName: string, ports: seq<Port>)
    ensures ReadyIp(env).Some? ==>
              Trace(env, serverId, serverName, ports) == Waited(env) + PostEvents(env, Payloads(serverId, serverName, ReadyIp(env).value, ports))
    ensures ReadyIp(env).None? ==> forall e :: e in Trace(env, serverId, serverName, ports) ==> !e.Posted?
  {
  }

  lemma PostsAfterWaiting(env: Env, payloads: seq<Payload>, ip: string, waited: seq<Event>, t: seq<Event>, n: nat)
    requires t == waited + PostEvents(env, payloads) && forall p :: p in payloads ==> p.internalIp == ip
    requires exists s :: 0 <= s < |waited| - 1 && waited[s] == SawStatus(Some(Active))
    requires waited != [] && waited[|waited| - 1] == SawIp(Some(ip))
    requires forall k :: 0 <= k < |waited| ==> !waited[k].Posted? && waited[k] != SawStatus(Some(Error))
    requires n < |t| && t[n].Posted?
    ensures t[n].attempt < TRIES && SawStatus(Some(Error)) !in t
    ensures exists a, b :: 0 <= a < b < n && t[a] == SawStatus(Some(Active)) && t[b] == SawIp(Some(t[n].payload.internalIp))
  {
    forall e | e in PostEvents(env, payloads) ensures e.Posted? && e.attempt < TRIES && e.payload in payloads {
      OnlyPosts(env, payloads, e);
    }
    assert n >= |waited| && t[n] == PostEvents(env, payloads)[n - |waited|];
    var s :| 0 <= s < |waited| - 1 && waited[s] == SawStatus(Some(Active));
    assert t[s] == waited[s] && t[|waited| - 1] == waited[|waited| - 1];
  }

  /**
   No post precedes an observed `ACTIVE` and, after it, the very address it forwards to; no trace with
   a post contains an observed `ERROR`; and no post is a fourth attempt.
   */
  lemma PostsComeLast(env: Env, serverId: string, serverName: string, ports: seq<Port>, n: nat)
    requires n < |Trace(env, serverId, serverName, ports)| && Trace(env, serverId, serverName, ports)[n].Posted?
    ensures var t := Trace(env, serverId, serverName, ports);
            && t[n].attempt < 3
            && SawStatus(Some(Error)) !in t
            && exists a, b :: 0 <= a < b < n && t[a] == SawStatus(Some(Active)) && t[b] == SawIp(Some(t[n].payload.internalIp))
  {
    var t := Trace(env, serverId, serverName, ports);
    NoPostUnlessReady(env, serverId, serverName, ports);
    assert t[n] in t;
    WaitedFacts(env);
    PostsAfterWaiting(env, Payloads(serverId, serverName, ReadyIp(env).value, ports), ReadyIp(env).value, Waited(env), t, n);
  }

  // ---- What every trace shows, said of the answers alone ----

  /** Poll `s` is the first that shows the instance active or in error, and it is active. */
  ghost predicate FirstActive(env: Env, s: nat) {
    s < 60 && env.status(s) == Some(Active) && forall k: nat :: k < s ==> env.status(k) != Some(Active) && env.status(k) != Some(Error)
  }

  /** Poll `i` is the first that finds an address. */
  ghost predicate FirstIp(env: Env, i: nat) {
    i < 10 && env.ip(i).Some? && |env.ip(i).value| > 0 && forall k: nat :: k < i ==> env.ip(k).None? || |env.ip(k).value| == 0
  }

  /** The call for SSH, the calls for the requested ports in their order, and nothing else. */
  ghost predicate ForwardsAll(calls: seq<Payload>, serverId: string, serverName: string, ip: string, ports: seq<Port>) {
    var shortId := if |serverId| <= 8 then serverId else serverId[..8];
    && |calls| == 1 + |ports|
    && (forall k :: 0 <= k < |calls| ==> calls[k].vmId == serverId && calls[k].vmName == serverName && calls[k].internalIp == ip)
    && calls[0].internalPort == 22 && calls[0].externalPort == None && calls[0].serviceType == "ssh" && calls[0].protocol == "tcp"
    && calls[0].rulePrefix == "ssh-" + shortId && calls[0].rulePort == None
    && forall p :: 0 <= p < |ports| ==>
         var call := calls[p + 1];
         && call.internalPort == ports[p].internalPort && call.protocol == ports[p].protocol && call.serviceType == "other"
         && (if ports[p].externalPort == 0 then call.externalPort == None else call.externalPort == Some(ports[p].externalPort))
         && call.rulePrefix == "port-" + shortId + "-" && call.rulePort == Some(ports[p].internalPort)
  }

  /** What may follow a post: the same again after a network error, twice at most; else a new call. */
  predicate Follows(a: Event, b: Event)
    requires a.Posted? && b.Posted?
  {
    if a.outcome == NetworkError && a.attempt < 2 then b.payload == a.payload && b.attempt == a.attempt + 1 else b.attempt == 0
  }

  ghost predicate RetriesInOrder(posts: seq<Event>) {
    && (forall k :: 0 <= k < |posts| ==> posts[k].Posted?)
    && (forall k :: 0 <= k < |posts| - 1 ==> Follows(posts[k], posts[k + 1]))
    && (posts != [] ==> posts[0].attempt == 0)
    && (posts != [] ==> posts[|posts| - 1].outcome != NetworkError || posts[|posts| - 1].attempt >= 2)
  }

  lemma OneCallRetriesInOrder(env: Env, call: nat, payload: Payload)
    ensures RetriesInOrder(TryEvents(env, call, payload, 0))
  {
    TriesAreBounded(env, call, payload, 0);
  }

  lemma RetriesConcat(a: seq<Event>, b: seq<Event>)
    requires RetriesInOrder(a) && RetriesInOrder(b)
    ensures RetriesInOrder(a + b)
  {
    forall k | 0 <= k < |a + b| - 1 ensures Follows((a + b)[k], (a + b)[k + 1]) {
      if k < |a| - 1 {
        assert Follows(a[k], a[k + 1]);
      } else if k >= |a| {
        assert Follows(b[k - |a|], b[k - |a| + 1]);
      }
    }
  }

  lemma {:induction false} PostsRetryInOrder(env: Env, payloads: seq<Payload>)
    ensures RetriesInOrder(PostEvents(env, payloads))
  {
    if payloads != [] {
      var n := |payloads| - 1;
      PostsRetryInOrder(env, payloads[..n]);
      OneCallRetriesInOrder(env, n, payloads[n]);
      RetriesConcat(PostEvents(env, payloads[..n]), TryEvents(env, n, payloads[n], 0));
    }
  }

  /** The trace of a ready instance: the polls as they were answered, then posts only. */
  ghost predicate WaitsThenPosts(env: Env, trace: seq<Event>, s: nat, i: nat) {
    && s + i + 2 <= |trace|
    && (forall k :: 0 <= k <= s ==> trace[k] == SawStatus(env.status(k)))
    && (forall k :: 0 <= k <= i ==> trace[s + 1 + k] == SawIp(env.ip(k)))
    && RetriesInOrder(trace[s + i + 2..])
  }

  lemma PayloadsForwardAll(serverId: string, serverName: string, ip: string, ports: seq<Port>)
    ensures ForwardsAll(Payloads(serverId, serverName, ip, ports), serverId, serverName, ip, ports)
  {
    if |serverId| == 8 {
      assert serverId[..8] == serverId;
    }
  }

  lemma FirstIsUnique(hit: nat -> bool, bound: nat, k: nat)
    requires k < bound && hit(k) && forall j: nat :: j < k ==> !hit(j)
    ensures First(hit, 0, bound) == k
  {
    FirstSpec(hit, 0, bound);
  }

  lemma ReadyWhenSeen(env: Env, s: nat, i: nat)
    requires FirstActive(env, s) && FirstIp(env, i)
    ensures First(Decisive(env), 0, STATUS_POLLS) == s && First(HasIp(env), 0, IP_POLLS) == i && ReadyIp(env) == env.ip(i)
  {
    FirstIsUnique(Decisive(env), STATUS_POLLS, s);
    FirstIsUnique(HasIp(env), IP_POLLS, i);
  }

  lemma ReadyTrace(env: Env, serverId: string, serverName: string, ports: seq<Port>, s: nat, i: nat)
    requires FirstActive(env, s) && FirstIp(env, i)
    ensures WaitsThenPosts(env, Trace(env, serverId, serverName, ports), s, i)
  {
    ReadyWhenSeen(env, s, i);
    NoPostUnlessReady(env, serverId, serverName, ports);
    var posts := PostEvents(env, Payloads(serverId, serverName, env.ip(i).value, ports));
    PostsRetryInOrder(env, Payloads(serverId, serverName, env.ip(i).value, ports));
    assert Trace(env, serverId, serverName, ports) == Waited(env) + posts && |Waited(env)| == s + i + 2;
    assert Trace(env, serverId, serverName, ports)[s + i + 2..] == posts;
  }

  /**
   Once the instance is seen active before any error, and an address is found, the logical calls are the
   one for SSH and one for every requested port, whatever fails on the way.
   */
  lemma ReadyInstanceIsForwarded(env: Env, serverId: string, serverName: string, ports: seq<Port>, s: nat, i: nat)
    requires FirstActive(env, s) && FirstIp(env, i)
    ensures var trace := Trace(env, serverId, serverName, ports);
            && WaitsThenPosts(env, trace, s, i)
            && ForwardsAll(Calls(trace), serverId, serverName, env.ip(i).value, ports)
  {
    ReadyTrace(env, serverId, serverName, ports, s, i);
    ReadyWhenSeen(env, s, i);
    CallsOfATrace(env, serverId, serverName, ports);
    PayloadsForwardAll(serverId, serverName, env.ip(i).value, ports);
  }

  lemma ReadyWasSeen(env: Env)
    requires ReadyIp(env).Some?
    ensures FirstActive(env, First(Decisive(env), 0, STATUS_POLLS)) && FirstIp(env, First(HasIp(env), 0, IP_POLLS))
  {
    var s, i := First(Decisive(env), 0, STATUS_POLLS), First(HasIp(env), 0, IP_POLLS);
    FirstSpec(Decisive(env), 0, STATUS_POLLS);
    FirstSpec(HasIp(env), 0, IP_POLLS);
    forall k: nat | k < s ensures env.status(k) != Some(Active) && env.status(k) != Some(Error) {
      assert !Decisive(env)(k);
    }
    forall k: nat | k < i ensures env.ip(k).None? || |env.ip(k).value| == 0 {
      assert !HasIp(env)(k);
    }
  }

  /** Otherwise nothing is posted. */
  lemma OthersAreNotForwarded(env: Env, serverId: string, serverName: string, ports: seq<Port>)
    requires forall s: nat, i: nat :: !(FirstActive(env, s) && FirstIp(env, i))
    ensures forall e :: e in Trace(env, serverId, serverName, ports) ==> !e.Posted?
  {
    if ReadyIp(env).Some? {
      ReadyWasSeen(env);
    }
    NoPostUnlessReady(env, serverId, serverName, ports);
  }

  lemma FirstIsMissing(hit: nat -> bool, bound: nat)
    requires forall k: nat :: k < bound ==> !hit(k)
    ensures First(hit, 0, bound) == bound
  {
    FirstSpec(hit, 0, bound);
  }

  /** No address is found within the ten polls for one. */
  ghost predicate NoIp(env: Env) {
    forall i: nat :: i < 10 ==> env.ip(i).None? || |env.ip(i).value| == 0
  }

  /** No poll before `s` shows the instance active or in error. */
  ghost predicate UndecidedBefore(env: Env, s: nat) {
    forall k: nat :: k < s ==> env.status(k) != Some(Active) && env.status(k) != Some(Error)
  }

  /** A wait that never sees the instance active ends at the first error, or after sixty polls. */
  lemma NeverActive(env: Env, serverId: string, serverName: string, ports: seq<Port>, s: nat)
    requires s <= 60 && UndecidedBefore(env, s) && (s < 60 ==> env.status(s) == Some(Error))
    ensures var trace := Trace(env, serverId, serverName, ports);
            && |trace| == (if s < 60 then s + 1 else 60)
            && forall k :: 0 <= k < |trace| ==> trace[k] == SawStatus(env.status(k))
  {
    forall k: nat | k < s ensures !Decisive(env)(k) {}
    if s < 60 {
      FirstIsUnique(Decisive(env), STATUS_POLLS, s);
    } else {
      FirstIsMissing(Decisive(env), STATUS_POLLS);
    }
  }

  /** One that finds no address ends after ten polls for it. */
  lemma NeverFound(env: Env, serverId: string, serverName: string, ports: seq<Port>, s: nat)
    requires FirstActive(env, s) && NoIp(env)
    ensures Trace(env, serverId, serverName, ports) == StatusEvents(env, s + 1) + IpEvents(env, 10)
  {
    forall k: nat | k < 10 ensures !HasIp(env)(k) {}
    FirstIsMissing(HasIp(env), IP_POLLS);
    FirstIsUnique(Decisive(env), STATUS_POLLS, s);
  }
}
