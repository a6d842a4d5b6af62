/**
 The cookie session: expiry, revocation and sliding renewal of the signed token, and the table of
 revoked tokens with its purge. Of a token only the claims `uuid` and `exp` are kept.
 */
module Session {
  import opened Common

  datatype Token = Token(uuid: string, exp: int)

  /**
   `inclusive` says whether the JWT library still accepts a token in the very second of its `exp`.
   Section 4.1.4 of RFC 7519 asks for the strict reading; the library decides.
   */
  datatype Config = Config(expire: int, renew: int, inclusive: bool)

  type Revocations = seq<(string, int)>

  predicate Live(cfg: Config, exp: int, now: int) {
    now < exp || (cfg.inclusive && now == exp)
  }

  ghost predicate Revoked(rows: Revocations, uuid: string) {
    exists i :: 0 <= i < |rows| && rows[i].0 == uuid
  }

  function Kept(rows: Revocations, threshold: int): Revocations {
    if rows == [] then []
    else
      var last := rows[|rows| - 1];
      Kept(rows[..|rows| - 1], threshold) + (if last.1 < threshold then [] else [last])
  }

  lemma {:induction false} KeptRows(rows: Revocations, threshold: int)
    ensures forall row :: row in Kept(rows, threshold) <==> row in rows && row.1 >= threshold
  {
    if rows != [] {
      var n := |rows| - 1;
      assert rows == rows[..n] + [rows[n]];
      KeptRows(rows[..n], threshold);
    }
  }

  datatype StoreOp = Revoke(uuid: string, expire: int) | Purge(now: int)

  function AfterStoreOp(rows: Revocations, op: StoreOp): Revocations {
    match op
    case Revoke(uuid, expire) => rows + [(uuid, expire)]
    case Purge(now) => Kept(rows, now - 1)
  }

  lemma RevokedByMembership(rows: Revocations, uuid: string)
    ensures Revoked(rows, uuid) <==> exists row :: row in rows && row.0 == uuid
    ensures Revoked(rows, uuid) <==> exists e :: (uuid, e) in rows
  {
    if Revoked(rows, uuid) {
      var i :| 0 <= i < |rows| && rows[i].0 == uuid;
      var e := rows[i].1;
      assert rows[i] in rows && rows[i] == (uuid, e);
      assert (uuid, e) in rows;
    }
  }

  class RevokedTokens {
    var rows: Revocations

    constructor ()
      ensures rows == []
    {
      rows := [];
    }

    /** `check_token`: SELECT count(uuid) > 0. */
    method CheckToken(uuid: string) returns (revoked: bool)
      ensures revoked <==> Revoked(rows, uuid)
    {
      var count := 0;
      for i := 0 to |rows|
        invariant 0 <= count
        invariant count > 0 <==> exists j :: 0 <= j < i && rows[j].0 == uuid
      {
        if rows[i].0 == uuid {
          count := count + 1;
        }
      }
      revoked := count > 0;
    }

    method RevokeToken(uuid: string, expire: int)
      modifies this
      ensures rows == AfterStoreOp(old(rows), Revoke(uuid, expire)) == old(rows) + [(uuid, expire)]
    {
      rows := rows + [(uuid, expire)];
    }

    /** `purge_revoked_token`, whose clock reading is `now`. */
    method PurgeRevokedToken(now: int)
      modifies this
      ensures rows == AfterStoreOp(old(rows), Purge(now))
      ensures forall row :: row in rows <==> row in old(rows) && row.1 >= now - 1
    {
      var threshold := now - 1;
      var kept := [];
      for i := 0 to |rows|
        invariant rows == old(rows)
        invariant kept == Kept(rows[..i], threshold)
      {
        assert rows[..i + 1][..i] == rows[..i];
        if !(rows[i].1 < threshold) {
          kept := kept + [rows[i]];
        }
      }
      assert rows[..|rows|] == rows;
      KeptRows(rows, threshold);
      rows := kept;
    }
  }

  function Stored(ops: seq<StoreOp>): Revocations {
    if ops == [] then [] else AfterStoreOp(Stored(ops[..|ops| - 1]), ops[|ops| - 1])
  }

  // ---- The middleware ----

  datatype Verdict =
    | PassedUnauthenticated
    | InvalidToken
    | ExpiredToken
    | RevokedToken
    | SessionInvalid
    | Passed(profile: Token, renewed: Option<Token>)

  predicate IsRefusal(verdict: Verdict) {
    !verdict.PassedUnauthenticated? && !verdict.Passed?
  }

  /**
   What one request on a protected path meets: the cookie and whether its signature is good, the clock
   when the token is parsed and when its renewal is decided, whether the database answers, whether
   Keystone confirms the profile, and the random uuid it would fall back to.
   */
  datatype Request = Request(
    cookie: Option<Token>, signed: bool, parsedAt: int, decidedAt: int, storeOk: bool, profileOk: bool, freshUuid: string)

  /** `exp or now + expire` and `uuid or uuid4()`: zero and the empty text count as absent. */
  function ProfileOf(cfg: Config, token: Token, now: int, freshUuid: string): Token {
    Token(if token.uuid == "" then freshUuid else token.uuid, if token.exp == 0 then now + cfg.expire else token.exp)
  }

  ghost function Judge(cfg: Config, rows: Revocations, r: Request): Verdict {
    if r.cookie.None? then PassedUnauthenticated
    else
      var token := r.cookie.value;
      if !r.signed then InvalidToken
      else if !Live(cfg, token.exp, r.parsedAt) then ExpiredToken
      else if !r.storeOk then SessionInvalid
      else if Revoked(rows, token.uuid) then RevokedToken
      else if !r.profileOk then SessionInvalid
      else
        var profile := ProfileOf(cfg, token, r.decidedAt, r.freshUuid);
        Passed(profile, if profile.exp - r.decidedAt <= cfg.renew
                        then Some(Token(profile.uuid, r.decidedAt + cfg.expire)) else None)
  }

  /** `validate_token` on a path that is not exempt. */
  method ValidateToken(cfg: Config, store: RevokedTokens, r: Request) returns (verdict: Verdict)
    ensures verdict == Judge(cfg, store.rows, r)
    // who passes, and why the others are refused
    ensures r.cookie.None? <==> verdict.PassedUnauthenticated?
    ensures verdict.Passed? <==>
              && r.cookie.Some? && r.signed && r.storeOk && r.profileOk
              && (r.parsedAt < r.cookie.value.exp || (cfg.inclusive && r.parsedAt == r.cookie.value.exp))
              && forall e :: (r.cookie.value.uuid, e) !in store.rows
    ensures verdict.InvalidToken? <==> r.cookie.Some? && !r.signed
    ensures verdict.ExpiredToken? <==>
              && r.cookie.Some? && r.signed
              && (if cfg.inclusive then r.cookie.value.exp < r.parsedAt else r.cookie.value.exp <= r.parsedAt)
    ensures verdict.RevokedToken? <==>
              && r.cookie.Some? && r.signed && !verdict.ExpiredToken? && r.storeOk
              && exists e :: (r.cookie.value.uuid, e) in store.rows
    ensures verdict.SessionInvalid? ==> !r.storeOk || !r.profileOk
    // what a request that passes shows, and when its cookie is renewed
    ensures verdict.Passed? ==>
              var shown := verdict.profile;
              && shown.uuid == (if |r.cookie.value.uuid| > 0 then r.cookie.value.uuid else r.freshUuid)
              && shown.exp == (if r.cookie.value.exp != 0 then r.cookie.value.exp else r.decidedAt + cfg.expire)
              && verdict.renewed == if shown.exp <= r.decidedAt + cfg.renew
                                    then Some(Token(shown.uuid, r.decidedAt + cfg.expire)) else None
  {
    RevokedByMembership(store.rows, if r.cookie.Some? then r.cookie.value.uuid else "");
    var newToken: Option<Token> := None;
    if r.cookie.None? {
      return PassedUnauthenticated;
    }
    var token := r.cookie.value;
    if !r.signed {
      return InvalidToken;
    }
    if !(r.parsedAt < token.exp || (cfg.inclusive && r.parsedAt == token.exp)) {
      return ExpiredToken;
    }
    if !r.storeOk {
      return SessionInvalid;
    }
    var revoked := store.CheckToken(token.uuid);
    if revoked {
      return RevokedToken;
    }
    if !r.profileOk {
      return SessionInvalid;
    }
    var exp := if token.exp != 0 then token.exp else r.decidedAt + cfg.expire;
    var uuid := if token.uuid != "" then token.uuid else r.freshUuid;
    if exp - r.decidedAt <= cfg.renew {
      newToken := Some(Token(uuid, r.decidedAt + cfg.expire));
    }
    return Passed(Token(uuid, exp), newToken);
  }

  // ---- Liveness of the sliding session ----

  /**
   A request of a client that always sends its latest cookie. `delivered` says whether the response,
   which carries a renewed cookie, reaches the client: not if the handler raises.
   */
  datatype Visit = Visit(parsedAt: int, decidedAt: int, storeOk: bool, profileOk: bool, delivered: bool)

  /** Database and Keystone answered, and the client has the response. */
  predicate Completed(v: Visit) {
    v.storeOk && v.profileOk && v.delivered
  }

  ghost function JudgeVisit(cfg: Config, cookie: Token, v: Visit): Verdict {
    Judge(cfg, [], Request(Some(cookie), true, v.parsedAt, v.decidedAt, v.storeOk, v.profileOk, cookie.uuid))
  }

  ghost function NextCookie(cfg: Config, cookie: Token, v: Visit): Token {
    match JudgeVisit(cfg, cookie, v)
    case Passed(_, Some(renewed)) => if v.delivered then renewed else cookie
    case _ => cookie
  }

  ghost function CookieAfter(cfg: Config, cookie: Token, visits: seq<Visit>): Token {
    if visits == [] then cookie
    else NextCookie(cfg, CookieAfter(cfg, cookie, visits[..|visits| - 1]), visits[|visits| - 1])
  }

  /** When the client was last seen: at login, or at its last completed visit. */
  function LastSeen(loginAt: int, visits: seq<Visit>): int {
    if visits == [] then loginAt
    else
      var front, v := visits[..|visits| - 1], visits[|visits| - 1];
      if Completed(v) then v.parsedAt else LastSeen(loginAt, front)
  }

  /** Each visit comes at most `gap` seconds after the last completed one, or after login. */
  ghost predicate Regular(visits: seq<Visit>, loginAt: int, gap: int) {
    visits == [] ||
    var front, v := visits[..|visits| - 1], visits[|visits| - 1];
    && Regular(front, loginAt, gap)
    && LastSeen(loginAt, front) <= v.parsedAt <= LastSeen(loginAt, front) + gap
    && v.parsedAt <= v.decidedAt
  }

  /** The last visit is refused as expired. */
  ghost predicate Refused(cfg: Config, uuid: string, loginAt: int, visits: seq<Visit>) {
    && visits != []
    && JudgeVisit(cfg, CookieAfter(cfg, Token(uuid, loginAt + cfg.expire), visits[..|visits| - 1]), visits[|visits| - 1]).ExpiredToken?
  }

  /** Clock readings are Unix times, after the epoch. */
  ghost predicate NeverRefused(cfg: Config, gap: int) {
    forall uuid, loginAt, visits :: loginAt > 0 && Regular(visits, loginAt, gap) ==> !Refused(cfg, uuid, loginAt, visits)
  }

  lemma {:induction false} WiderGap(visits: seq<Visit>, loginAt: int, gap: int, wider: int)
    requires Regular(visits, loginAt, gap) && gap <= wider
    ensures Regular(visits, loginAt, wider)
  {
    if visits != [] {
      WiderGap(visits[..|visits| - 1], loginAt, gap, wider);
    }
  }

  /** The window in which the next visit is certain to find the cookie alive. */
  function Margin(cfg: Config): int {
    if cfg.inclusive then cfg.renew + 1 else cfg.renew
  }

  lemma {:induction false} CookieOutlivesGap(cfg: Config, uuid: string, loginAt: int, visits: seq<Visit>)
    requires cfg.expire > cfg.renew > 0 && loginAt > 0 && Regular(visits, loginAt, Margin(cfg))
    ensures LastSeen(loginAt, visits) > 0
    ensures CookieAfter(cfg, Token(uuid, loginAt + cfg.expire), visits).exp > LastSeen(loginAt, visits) + cfg.renew
  {
    if visits != [] {
      CookieOutlivesGap(cfg, uuid, loginAt, visits[..|visits| - 1]);
    }
  }

  /** Visits every second from login on, the cookie being too young to be renewed. */
  function EverySecond(n: nat): seq<Visit> {
    seq(n, i requires 0 <= i < n => Visit(i + 2, i + 2, true, true, true))
  }

  lemma {:induction false} NotYetRenewed(cfg: Config, uuid: string, n: nat, gap: int)
    requires cfg.expire > cfg.renew > 0 && n <= cfg.expire - cfg.renew - 1 && gap >= 1
    ensures Regular(EverySecond(n), 1, gap) && LastSeen(1, EverySecond(n)) == n + 1
    ensures CookieAfter(cfg, Token(uuid, 1 + cfg.expire), EverySecond(n)) == Token(uuid, 1 + cfg.expire)
  {
    if n > 0 {
      assert EverySecond(n)[..n - 1] == EverySecond(n - 1);
      NotYetRenewed(cfg, uuid, n - 1, gap);
    }
  }

  lemma LongGapIsRefused(cfg: Config, uuid: string, gap: int)
    requires cfg.expire > cfg.renew > 0 && gap > Margin(cfg)
    ensures exists visits :: Regular(visits, 1, gap) && Refused(cfg, uuid, 1, visits)
  {
    var n := cfg.expire - cfg.renew - 1;
    var early, late := EverySecond(n), Visit(n + 1 + gap, n + 1 + gap, true, true, true);
    var visits := early + [late];
    assert visits[..|visits| - 1] == early;
    NotYetRenewed(cfg, uuid, n, gap);
    assert Regular(visits, 1, gap) && Refused(cfg, uuid, 1, visits);
  }

  /**
   Over runs of any length: a client that keeps its latest cookie, and whose every visit falls within
   the renewal window of its last completed one, is never refused as expired; the window is the exact
   limit.
   */
  lemma RenewalWindowIsTheLimit(cfg: Config, gap: int)
    requires cfg.expire > cfg.renew > 0
    ensures NeverRefused(cfg, gap) <==> gap <= Margin(cfg)
  {
    if gap <= Margin(cfg) {
      forall uuid, loginAt, visits | loginAt > 0 && Regular(visits, loginAt, gap) ensures !Refused(cfg, uuid, loginAt, visits) {
        if visits != [] {
          WiderGap(visits, loginAt, gap, Margin(cfg));
          CookieOutlivesGap(cfg, uuid, loginAt, visits[..|visits| - 1]);
        }
      }
    } else {
      LongGapIsRefused(cfg, "", gap);
    }
  }

  // ---- Visits that are not completed ----

  /** The client stays away for `gap` seconds at most, whether or not its visits succeed. */
  ghost predicate Often(visits: seq<Visit>, loginAt: int, gap: int) {
    forall i :: 0 <= i < |visits| ==>
      var previous := if i == 0 then loginAt else visits[i - 1].parsedAt;
      previous <= visits[i].parsedAt <= previous + gap && visits[i].parsedAt <= visits[i].decidedAt
  }

  ghost predicate NoneCompleted(visits: seq<Visit>) {
    forall i :: 0 <= i < |visits| ==> !Completed(visits[i])
  }

  lemma {:induction false} UncompletedKeepCookie(cfg: Config, cookie: Token, visits: seq<Visit>)
    requires NoneCompleted(visits)
    ensures CookieAfter(cfg, cookie, visits) == cookie
  {
    if visits != [] {
      UncompletedKeepCookie(cfg, cookie, visits[..|visits| - 1]);
    }
  }

  /** Visits of which none is completed are worth nothing: the last is refused exactly when the login cookie is dead. */
  lemma UncompletedVisitsDoNotRenew(cfg: Config, uuid: string, loginAt: int, visits: seq<Visit>)
    requires NoneCompleted(visits) && visits != []
    ensures Refused(cfg, uuid, loginAt, visits) <==> !Live(cfg, loginAt + cfg.expire, visits[|visits| - 1].parsedAt)
  {
    UncompletedKeepCookie(cfg, Token(uuid, loginAt + cfg.expire), visits[..|visits| - 1]);
  }

  /** So coming often is not enough: a client may come every second and still be refused as expired. */
  lemma ComingOftenIsNotEnough(cfg: Config, uuid: string)
    requires cfg.expire > cfg.renew > 0
    ensures exists visits :: visits != [] && Often(visits, 1, 1) && NoneCompleted(visits) && Refused(cfg, uuid, 1, visits)
  {
    var visits := seq(cfg.expire + 1, i requires 0 <= i < cfg.expire + 1 => Visit(i + 2, i + 2, true, true, false));
    UncompletedVisitsDoNotRenew(cfg, uuid, 1, visits);
    assert Often(visits, 1, 1) && NoneCompleted(visits);
  }

  // ---- Purging the revocation table ----

  /** The table as it would be had nothing ever been purged. */
  function Unpurged(ops: seq<StoreOp>): Revocations {
    if ops == [] then []
    else
      var front, last := ops[..|ops| - 1], ops[|ops| - 1];
      if last.Purge? then Unpurged(front) else AfterStoreOp(Unpurged(front), last)
  }

  /** No purge of the history ran later than `now`. */
  ghost predicate PurgedBy(ops: seq<StoreOp>, now: int) {
    forall i :: 0 <= i < |ops| && ops[i].Purge? ==> ops[i].now <= now
  }

  /** How much longer than its recorded expiry a revoked token may live and still never come back. */
  function Slack(cfg: Config): int {
    if cfg.inclusive then 1 else 2
  }

  /** The table holds what was recorded, except rows that expired more than a second before some purge. */
  lemma {:induction false} StoredRows(ops: seq<StoreOp>, now: int)
    requires PurgedBy(ops, now)
    ensures forall row :: row in Stored(ops) ==> row in Unpurged(ops)
    ensures forall row :: row in Unpurged(ops) && row.1 >= now - 1 ==> row in Stored(ops)
  {
    if ops != [] {
      var front, last := ops[..|ops| - 1], ops[|ops| - 1];
      StoredRows(front, now);
      if last.Purge? {
        KeptRows(Stored(front), last.now - 1);
      }
    }
  }

  /**
   Under any interleaving of revocations and purges, a request is judged as if nothing had ever been
   purged, provided its token, if revoked at all, was revoked at least once with a late enough expiry.
   */
  lemma PurgeIsUnobservable(cfg: Config, ops: seq<StoreOp>, r: Request)
    requires PurgedBy(ops, r.parsedAt) && r.cookie.Some?
    requires var token := r.cookie.value;
             Revoked(Unpurged(ops), token.uuid) ==> exists e :: (token.uuid, e) in Unpurged(ops) && token.exp <= e + Slack(cfg)
    ensures Judge(cfg, Stored(ops), r) == Judge(cfg, Unpurged(ops), r)
  {
    var token := r.cookie.value;
    StoredRows(ops, r.parsedAt);
    RevokedByMembership(Stored(ops), token.uuid);
    RevokedByMembership(Unpurged(ops), token.uuid);
    if Live(cfg, token.exp, r.parsedAt) && Revoked(Unpurged(ops), token.uuid) {
      var e :| (token.uuid, e) in Unpurged(ops) && token.exp <= e + Slack(cfg);
      assert (token.uuid, e) in Stored(ops);
    }
  }

  /** Once revoked with expiry `e`, the token is refused at every later time, whatever is purged. */
  ghost predicate RefusedForGood(cfg: Config, token: Token, e: int) {
    forall ops, r: Request :: Revoke(token.uuid, e) in ops && PurgedBy(ops, r.parsedAt) && r.cookie == Some(token) ==>
      IsRefusal(Judge(cfg, Stored(ops), r))
  }

  lemma {:induction false} RecordedRow(ops: seq<StoreOp>, uuid: string, e: int)
    requires Revoke(uuid, e) in ops
    ensures (uuid, e) in Unpurged(ops)
  {
    var front, last := ops[..|ops| - 1], ops[|ops| - 1];
    assert ops == front + [last];
    if last != Revoke(uuid, e) {
      RecordedRow(front, uuid, e);
    }
  }

  /** The exact condition. A renewed copy of a revoked cookie, which keeps its uuid, may violate it. */
  lemma RefusedForGoodIff(cfg: Config, token: Token, e: int)
    ensures RefusedForGood(cfg, token, e) <==> token.exp <= e + Slack(cfg)
  {
    if token.exp <= e + Slack(cfg) {
      forall ops, r: Request | Revoke(token.uuid, e) in ops && PurgedBy(ops, r.parsedAt) && r.cookie == Some(token)
        ensures IsRefusal(Judge(cfg, Stored(ops), r))
      {
        RecordedRow(ops, token.uuid, e);
        PurgeIsUnobservable(cfg, ops, r);
        RevokedByMembership(Unpurged(ops), token.uuid);
      }
    } else {
      var first := [Revoke(token.uuid, e)];
      var ops := first + [Purge(e + 2)];
      assert ops[..1] == first && first[..0] == [] && [(token.uuid, e)][..0] == [];
      assert Stored(first) == [(token.uuid, e)];
      assert Kept([(token.uuid, e)], e + 1) == [];
      assert Stored(ops) == [];
      var r := Request(Some(token), true, e + 2, e + 2, true, true, "");
      assert ops[0] == Revoke(token.uuid, e) && PurgedBy(ops, r.parsedAt);
      assert Judge(cfg, Stored(ops), r).Passed?;
    }
  }
}
