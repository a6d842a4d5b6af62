/**
 Signing up creates a project, its quotas, a user and two role grants through separate remote calls
 and undoes them by hand when one fails. Every call may succeed, be refused, fail, or take effect
 while its caller sees a failure; the theorem covers all patterns of such outcomes.
 */
module Signup {
  import opened Common

  /** `Lost`: the call took effect, but the caller saw an exception (a timeout, an unreadable answer). */
  datatype Outcome = Done | Refused | Raised | Lost

  datatype Reply = Ok | BadStatus | Exception

  function ReplyTo(o: Outcome): Reply {
    match o
    case Done => Ok
    case Refused => BadStatus
    case _ => Exception
  }

  predicate Effective(o: Outcome) {
    o.Done? || o.Lost?
  }

  predicate Throws(o: Outcome) {
    o.Raised? || o.Lost?
  }

  datatype Project = Project(name: string, description: string)

  datatype User = User(name: string, description: string, email: string, defaultProject: string)

  datatype Grant = Grant(project: string, user: string, role: string)

  datatype Request = Request(username: string, name: string, email: string)

  datatype Rule = Ingress(prefix: string) | EgressAll

  datatype Config = Config(
    memberRole: Option<string>, adminUser: Option<string>, adminRole: Option<string>, portForwardIps: seq<string>)

  predicate Configured(o: Option<string>) {
    o.Some? && o.value != ""
  }

  /** The outcome of every call; `rule(n)` is the outcome of the n-th rule of the security group. */
  datatype Faults = Faults(
    tokenOk: bool,
    postProject: Outcome, nova: Outcome, cinder: Outcome, postUser: Outcome, putMember: Outcome, putAdmin: Outcome,
    group: Outcome, rule: nat -> Outcome,
    deleteUser: Outcome, deleteProject: Outcome, deleteProjectAgain: Outcome)

  datatype Result = Returned(ok: bool) | Escaped

  function RequiredRules(ips: seq<string>): seq<Rule> {
    seq(|ips|, i requires 0 <= i < |ips| => Ingress(ips[i] + "/32")) + [EgressAll]
  }

  /** Each forwarding machine may come in, as a single address and in order, and everything may go out. */
  predicate IsolatesAllBut(rules: seq<Rule>, ips: seq<string>) {
    && |rules| == |ips| + 1 && rules[|ips|] == EgressAll
    && forall i :: 0 <= i < |ips| ==> rules[i].Ingress? && rules[i].prefix == ips[i] + "/32"
  }

  class Identity {
    var projects: map<string, Project>
    var users: map<string, User>
    var grants: set<Grant>
    var novaQuotas: set<string>
    var cinderQuotas: set<string>
    var groups: map<string, seq<Rule>>

    constructor ()
    {
      projects, users, grants, novaQuotas, cinderQuotas, groups := map[], map[], {}, {}, {}, map[];
    }

    /** Ids that Keystone has not handed out yet. */
    ghost predicate Fresh(pid: string, uid: string)
      reads this
    {
      && pid !in projects && pid !in novaQuotas && pid !in cinderQuotas && pid !in groups && uid !in users
      && forall g :: g in grants ==> g.project != pid && g.user != uid
    }

    method PostProject(o: Outcome, pid: string, p: Project) returns (r: Reply)
      modifies this`projects
      ensures projects == if Effective(o) then old(projects)[pid := p] else old(projects)
      ensures r == ReplyTo(o)
    {
      if Effective(o) { projects := projects[pid := p]; }
      r := ReplyTo(o);
    }

    method PostUser(o: Outcome, uid: string, u: User) returns (r: Reply)
      modifies this`users
      ensures users == if Effective(o) then old(users)[uid := u] else old(users)
      ensures r == ReplyTo(o)
    {
      if Effective(o) { users := users[uid := u]; }
      r := ReplyTo(o);
    }

    method PutGrant(o: Outcome, g: Grant) returns (r: Reply)
      modifies this`grants
      ensures grants == if Effective(o) then old(grants) + {g} else old(grants)
      ensures r == ReplyTo(o)
    {
      if Effective(o) { grants := grants + {g}; }
      r := ReplyTo(o);
    }

    method UpdateNovaQuotas(o: Outcome, pid: string) returns (raised: bool)
      modifies this`novaQuotas
      ensures novaQuotas == if Effective(o) then old(novaQuotas) + {pid} else old(novaQuotas)
      ensures raised == !o.Done?
    {
      if Effective(o) { novaQuotas := novaQuotas + {pid}; }
      raised := !o.Done?;
    }

    method UpdateCinderQuotas(o: Outcome, pid: string) returns (raised: bool)
      modifies this`cinderQuotas
      ensures cinderQuotas == if Effective(o) then old(cinderQuotas) + {pid} else old(cinderQuotas)
      ensures raised == !o.Done?
    {
      if Effective(o) { cinderQuotas := cinderQuotas + {pid}; }
      raised := !o.Done?;
    }

    /** `_delete_project`: a bad status is ignored. Keystone drops the grants on the project with it. */
    method DeleteProject(o: Outcome, pid: string) returns (raised: bool)
      modifies this`projects, this`grants
      ensures projects == if Effective(o) then old(projects) - {pid} else old(projects)
      ensures grants == if Effective(o) then (set g | g in old(grants) && g.project != pid) else old(grants)
      ensures raised == Throws(o)
    {
      if Effective(o) {
        projects := projects - {pid};
        grants := set g | g in grants && g.project != pid;
      }
      raised := Throws(o);
    }

    /** `_delete_user`, likewise. */
    method DeleteUser(o: Outcome, uid: string) returns (raised: bool)
      modifies this`users, this`grants
      ensures users == if Effective(o) then old(users) - {uid} else old(users)
      ensures grants == if Effective(o) then (set g | g in old(grants) && g.user != uid) else old(grants)
      ensures raised == Throws(o)
    {
      if Effective(o) {
        users := users - {uid};
        grants := set g | g in grants && g.user != uid;
      }
      raised := Throws(o);
    }

    /** Step 5: one rule after the other until one fails; the failure is only logged. */
    method CreateDefaultGroup(f: Faults, cfg: Config, pid: string)
      requires pid !in groups
      modifies this`groups
      ensures groups - {pid} == old(groups)
      ensures f.group.Done? ==> pid in groups && groups[pid] <= RequiredRules(cfg.portForwardIps)
      ensures f.group.Done? && (forall n: nat :: f.rule(n).Done?) ==>
                && pid in groups && groups[pid] == RequiredRules(cfg.portForwardIps)
                && IsolatesAllBut(groups[pid], cfg.portForwardIps)
    {
      if Effective(f.group) { groups := groups[pid := []]; }
      if !f.group.Done? { return; }
      var rules := RequiredRules(cfg.portForwardIps);
      for n := 0 to |rules|
        invariant groups - {pid} == old(groups) && pid in groups && groups[pid] == rules[..n]
        invariant forall k: nat :: k < n ==> f.rule(k).Done?
      {
        if Effective(f.rule(n)) {
          assert rules[..n + 1] == rules[..n] + [rules[n]];
          groups := groups[pid := groups[pid] + [rules[n]]];
        }
        if !f.rule(n).Done? { return; }
      }
      assert rules[..|rules|] == rules;
    }
  }

  /** Everything that has to succeed for the sign-up to succeed. */
  predicate AllDone(f: Faults, cfg: Config) {
    && f.tokenOk && f.postProject.Done? && f.nova.Done? && f.cinder.Done? && f.postUser.Done?
    && Configured(cfg.memberRole) && f.putMember.Done?
    && Configured(cfg.adminUser) && Configured(cfg.adminRole) && f.putAdmin.Done?
  }

  /**
   Which failed sign-ups leave the identity service as it was. Creating a project or a user must not
   be `Lost`; whatever was created must be deleted in effect, and deleting the user must not throw,
   for then the project is never deleted. Only after failed quotas is a thrown deletion tried again.
   Lost grants and lost quotas do no harm.
   */
  predicate Restores(f: Faults) {
    if !f.tokenOk || f.postProject.Refused? || f.postProject.Raised? then true
    else if f.postProject.Lost? then false
    else if !f.nova.Done? || !f.cinder.Done? then
      Effective(f.deleteProject) || (f.deleteProject.Raised? && Effective(f.deleteProjectAgain))
    else if f.postUser.Done? then f.deleteUser.Done? && Effective(f.deleteProject)
    else !f.postUser.Lost? && Effective(f.deleteProject)
  }

  /** One new project with quotas, one new user, both grants. */
  ghost predicate Created(world: Identity, r: Request, cfg: Config, pid: string, uid: string)
    reads world
  {
    && pid in world.projects && world.projects[pid] == Project(r.username + "-project", "Project for " + r.username)
    && pid in world.novaQuotas && pid in world.cinderQuotas
    && uid in world.users && world.users[uid] == User(r.username, r.name, r.email, pid)
    && Configured(cfg.memberRole) && Configured(cfg.adminUser) && Configured(cfg.adminRole)
    && (set g | g in world.grants && g.project == pid)
       == {Grant(pid, uid, cfg.memberRole.value), Grant(pid, cfg.adminUser.value, cfg.adminRole.value)}
  }

  /** Failing calls have no effect, and the compensating deletions work. */
  predicate Plain(f: Faults) {
    && !f.postProject.Lost? && !f.nova.Lost? && !f.cinder.Lost? && !f.postUser.Lost? && !f.putMember.Lost? && !f.putAdmin.Lost?
    && f.deleteUser.Done? && f.deleteProject.Done?
  }

  /** What came of a part of the `try` block: a value to return, or an exception, or neither. */
  datatype Progress = Finished(ok: bool) | Threw | Going

  /** Step 1 and the quotas, with the rollback of their own. */
  method OpenProject(world: Identity, r: Request, f: Faults, pid: string, uid: string)
    returns (progress: Progress, project: Option<string>)
    requires world.Fresh(pid, uid)
    modifies world`projects, world`grants, world`novaQuotas, world`cinderQuotas
    ensures world.projects - {pid} == old(world.projects) && world.grants == old(world.grants)
    ensures world.novaQuotas - {pid} == old(world.novaQuotas) && world.cinderQuotas - {pid} == old(world.cinderQuotas)
    ensures f.postProject.Refused? ==> progress == Finished(false) && pid !in world.projects
    ensures Throws(f.postProject) ==> progress == Threw && project == None && (pid in world.projects <==> f.postProject.Lost?)
    ensures f.postProject.Done? ==> project == Some(pid)
    ensures f.postProject.Done? && f.nova.Done? && f.cinder.Done? ==>
              && progress == Going && pid in world.novaQuotas && pid in world.cinderQuotas
              && pid in world.projects && world.projects[pid] == Project(r.username + "-project", "Project for " + r.username)
    ensures f.postProject.Done? && !(f.nova.Done? && f.cinder.Done?) ==>
              && (pid in world.projects <==> !Effective(f.deleteProject))
              && progress == if Throws(f.deleteProject) then Threw else Finished(false)
  {
    project := None;
    var reply := world.PostProject(f.postProject, pid, Project(r.username + "-project", "Project for " + r.username));
    if reply.BadStatus? { return Finished(false), project; }
    if reply.Exception? { return Threw, project; }
    project := Some(pid);
    var quotasFailed := world.UpdateNovaQuotas(f.nova, pid);
    if !quotasFailed {
      quotasFailed := world.UpdateCinderQuotas(f.cinder, pid);
    }
    if quotasFailed {
      var raised := world.DeleteProject(f.deleteProject, pid);
      return if raised then Threw else Finished(false), project;
    }
    return Going, project;
  }

  /** Steps 2 to 4: the user and the two grants. */
  method AddUser(world: Identity, r: Request, cfg: Config, f: Faults, pid: string, uid: string)
    returns (progress: Progress, user: Option<string>)
    requires uid !in world.users && forall g :: g in world.grants ==> g.project != pid
    modifies world`users, world`grants
    ensures world.users - {uid} == old(world.users)
    ensures old(world.grants) == set g | g in world.grants && g.project != pid
    ensures uid in world.users <==> Effective(f.postUser)
    ensures user == if f.postUser.Done? then Some(uid) else None
    ensures progress == if f.postUser.Done? && Configured(cfg.memberRole) && f.putMember.Done?
                           && Configured(cfg.adminUser) && Configured(cfg.adminRole) && f.putAdmin.Done?
                        then Going else Threw
    ensures progress == Going ==>
              && world.users[uid] == User(r.username, r.name, r.email, pid)
              && (set g | g in world.grants && g.project == pid)
                 == {Grant(pid, uid, cfg.memberRole.value), Grant(pid, cfg.adminUser.value, cfg.adminRole.value)}
  {
    user := None;
    var reply := world.PostUser(f.postUser, uid, User(r.username, r.name, r.email, pid));
    if !reply.Ok? { return Threw, user; }
    user := Some(uid);
    if !Configured(cfg.memberRole) { return Threw, user; }
    reply := world.PutGrant(f.putMember, Grant(pid, uid, cfg.memberRole.value));
    if !reply.Ok? { return Threw, user; }
    if !Configured(cfg.adminUser) || !Configured(cfg.adminRole) { return Threw, user; }
    reply := world.PutGrant(f.putAdmin, Grant(pid, cfg.adminUser.value, cfg.adminRole.value));
    if !reply.Ok? { return Threw, user; }
    return Going, user;
  }

  /** The handler of the `try` block: the user goes first, and an exception here escapes. */
  method RollBack(world: Identity, f: Faults, project: Option<string>, user: Option<string>) returns (result: Result)
    modifies world`projects, world`users, world`grants
    ensures world.users == if user.Some? && Effective(f.deleteUser) then old(world.users) - {user.value} else old(world.users)
    ensures var o := if f.nova.Done? && f.cinder.Done? then f.deleteProject else f.deleteProjectAgain;
            var reached := project.Some? && (user.None? || !Throws(f.deleteUser));
            && world.projects == (if reached && Effective(o) then old(world.projects) - {project.value} else old(world.projects))
            && result == if (user.Some? && Throws(f.deleteUser)) || (reached && Throws(o)) then Escaped else Returned(false)
    ensures var o := if f.nova.Done? && f.cinder.Done? then f.deleteProject else f.deleteProjectAgain;
            var reached := project.Some? && (user.None? || !Throws(f.deleteUser));
            world.grants == set g | g in old(world.grants)
              && (user.Some? && Effective(f.deleteUser) ==> g.user != user.value)
              && (reached && Effective(o) ==> g.project != project.value)
  {
    if user.Some? {
      var raised := world.DeleteUser(f.deleteUser, user.value);
      if raised { return Escaped; }
    }
    if project.Some? {
      var o := if f.nova.Done? && f.cinder.Done? then f.deleteProject else f.deleteProjectAgain;
      var raised := world.DeleteProject(o, project.value);
      if raised { return Escaped; }
    }
    return Returned(false);
  }

  /** `create_user`. */
  method CreateUser(world: Identity, r: Request, cfg: Config, f: Faults, pid: string, uid: string) returns (result: Result)
    requires world.Fresh(pid, uid)
    modifies world
    // success is exactly the success of every required call, and creates exactly what it should
    ensures result == Returned(true) <==> AllDone(f, cfg)
    ensures result == Returned(true) ==>
              && Created(world, r, cfg, pid, uid)
              && (f.group.Done? && (forall n: nat :: f.rule(n).Done?) ==>
                    pid in world.groups && IsolatesAllBut(world.groups[pid], cfg.portForwardIps))
    // failure restores the identity service exactly under the stated condition
    ensures result != Returned(true) ==>
              (Restores(f) <==> world.projects == old(world.projects) && world.users == old(world.users) && world.grants == old(world.grants))
    ensures result != Returned(true) && Plain(f) ==>
              && (result == Returned(false) <==> f.tokenOk)
              && world.projects == old(world.projects) && world.users == old(world.users) && world.grants == old(world.grants)
    // what remains of a failed sign-up, by what came of the compensation: the user is deleted first, and
    // the project only if that did not throw
    ensures result != Returned(true) && f.tokenOk && f.postProject.Done? && f.nova.Done? && f.cinder.Done? && f.postUser.Done? ==>
              && (uid in world.users <==> f.deleteUser.Refused? || f.deleteUser.Raised?)
              && (pid in world.projects <==>
                    f.deleteUser.Raised? || f.deleteUser.Lost? || f.deleteProject.Refused? || f.deleteProject.Raised?)
    ensures f.tokenOk && f.postProject.Done? && f.nova.Done? && f.cinder.Done? && (f.postUser.Refused? || f.postUser.Raised?) ==>
              uid !in world.users && (pid in world.projects <==> f.deleteProject.Refused? || f.deleteProject.Raised?)
    ensures !f.tokenOk || f.postProject.Refused? || f.postProject.Raised? ==>
              world.projects == old(world.projects) && world.users == old(world.users) && world.grants == old(world.grants)
    // in every case nothing but the new project and the new user is touched
    ensures world.projects - {pid} == old(world.projects) && world.users - {uid} == old(world.users)
    ensures old(world.grants) == set g | g in world.grants && g.project != pid
    ensures world.novaQuotas - {pid} == old(world.novaQuotas) && world.cinderQuotas - {pid} == old(world.cinderQuotas)
    ensures world.groups - {pid} == old(world.groups)
  {
    if !f.tokenOk {
      return Escaped;
    }
    var progress, project := OpenProject(world, r, f, pid, uid);
    var user := None;
    if progress.Going? {
      progress, user := AddUser(world, r, cfg, f, pid, uid);
    }
    if progress.Going? {
      world.CreateDefaultGroup(f, cfg, pid);
      return Returned(true);
    }
    if progress.Finished? {
      return Returned(progress.ok);
    }
    result := RollBack(world, f, project, user);
  }
}
