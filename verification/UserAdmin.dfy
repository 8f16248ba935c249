/**
 * Who may create, change and suspend users: the rules of services/api-gateway/src/authorization.ts, the role names of
 * packages/auth/src/index.ts and the POST and PATCH user routes of services/api-gateway/src/index.ts that apply them.
 */
module UserAdmin {
  import opened Options
  import opened Text

  datatype Role =
    | PlatformOwner | TenantAdmin | MarketingManager | SalesAgent | SupportAgent | Analyst | ComplianceAuditor

  const API_KEY_SUBJECT_PREFIX := "apikey:"
  const ACTIVE := "active"
  const USER_ADMIN_ROLES := {PlatformOwner, TenantAdmin}
  const USER_STATUSES := {"active", "invited", "suspended", "disabled"}

  // ---------- role names ----------

  function KnownRole(name: string): Option<Role> {
    if name == "platform_owner" then Some(PlatformOwner)
    else if name == "tenant_admin" then Some(TenantAdmin)
    else if name == "marketing_manager" then Some(MarketingManager)
    else if name == "sales_agent" then Some(SalesAgent)
    else if name == "support_agent" then Some(SupportAgent)
    else if name == "analyst" then Some(Analyst)
    else if name == "compliance_auditor" then Some(ComplianceAuditor)
    else None
  }

  function Bundle(name: string): seq<Role> {
    if name == "owner" then [PlatformOwner, TenantAdmin, MarketingManager, SalesAgent, SupportAgent]
    else if name == "admin" then [TenantAdmin, MarketingManager]
    else if name == "agent" then [SalesAgent, SupportAgent]
    else if name == "viewer" then [Analyst, ComplianceAuditor]
    else []
  }

  /** The roles one stored or claimed name stands for, whatever its case and surrounding space. */
  function Expand(raw: string): set<Role> {
    var name := Lower(Trim(raw));
    if KnownRole(name).Some? then {KnownRole(name).value} else RoleSet(Bundle(name))
  }

  function Effective(names: set<string>): set<Role> {
    set name, r | name in names && r in Expand(name) :: r
  }

  function Names(s: seq<string>): set<string> {
    set name | name in s
  }

  function RoleSet(roles: seq<Role>): set<Role> {
    set r | r in roles
  }

  predicate NoRepeats(roles: seq<Role>) {
    forall i, j :: 0 <= i < j < |roles| ==> roles[i] != roles[j]
  }

  method NormalizeRoles(rawRoles: seq<string>) returns (roles: seq<Role>)
    ensures RoleSet(roles) == Effective(Names(rawRoles)) && NoRepeats(roles)
  {
    hide KnownRole, Bundle, Effective, NoRepeats, RoleSet;
    NoRolesYet(rawRoles);
    roles := [];
    for i := 0 to |rawRoles|
      invariant RoleSet(roles) == Effective(Names(rawRoles[..i])) && NoRepeats(roles)
    {
      OneMoreName(rawRoles, i);
      var role := Lower(Trim(rawRoles[i]));
      var known := KnownRole(role);
      if known.Some? {
        roles := Added(roles, known.value);
      } else {
        var bundle := Bundle(role);
        ghost var before := roles;
        NoRolesIn(bundle);
        for j := 0 to |bundle|
          invariant NoRepeats(roles) && RoleSet(roles) == RoleSet(before) + RoleSet(bundle[..j])
        {
          OneMoreRole(bundle, j);
          roles := Added(roles, bundle[j]);
        }
        assert bundle[..|bundle|] == bundle;
      }
    }
    assert rawRoles[..|rawRoles|] == rawRoles;
  }

  /** Set.add: a role already there keeps its place. */
  function Added(roles: seq<Role>, r: Role): (all: seq<Role>)
    requires NoRepeats(roles)
    ensures NoRepeats(all) && RoleSet(all) == RoleSet(roles) + {r}
  {
    if r in roles then roles else roles + [r]
  }

  lemma NoRolesYet(names: seq<string>)
    ensures Effective(Names(names[..0])) == RoleSet([]) && NoRepeats([])
  {
  }

  lemma NoRolesIn(roles: seq<Role>)
    ensures RoleSet(roles[..0]) == {}
  {
  }

  lemma OneMoreRole(roles: seq<Role>, j: nat)
    requires j < |roles|
    ensures RoleSet(roles[..j + 1]) == RoleSet(roles[..j]) + {roles[j]}
  {
    assert roles[..j + 1] == roles[..j] + [roles[j]];
  }

  lemma OneMoreName(names: seq<string>, i: nat)
    requires i < |names|
    ensures Effective(Names(names[..i + 1])) == Effective(Names(names[..i])) + Expand(names[i])
  {
    hide Expand;
    assert names[..i + 1] == names[..i] + [names[i]];
  }

  // ---------- callers ----------

  datatype Context = Context(subject: string, roles: set<Role>)

  datatype User = User(roles: set<string>, status: string)

  type Users = map<string, User>

  /** A session names a stored user; a key and an identity provider's token bring their own roles. */
  datatype Caller =
    | Session(userId: string)
    | ApiKey(keyId: string, roles: set<string>)
    | Token(subject: string, roles: set<string>)

  /** resolveAuth: an inactive user's session is refused; a role change takes effect on the next request. */
  function Resolve(users: Users, caller: Caller): Option<Context> {
    match caller
    case Session(id) =>
      if id in users && users[id].status == ACTIVE then Some(Context(id, Effective(users[id].roles))) else None
    case ApiKey(id, roles) => Some(Context(API_KEY_SUBJECT_PREFIX + id, Effective(roles)))
    case Token(subject, roles) => Some(Context(subject, Effective(roles)))
  }

  predicate IsSameUserId(a: string, b: string) {
    Lower(a) == Lower(b)
  }

  predicate IsApiKeyCaller(auth: Context) {
    API_KEY_SUBJECT_PREFIX <= auth.subject
  }

  predicate HasAnyRole(auth: Context, allowed: set<Role>) {
    auth.roles * allowed != {}
  }

  // ---------- decisions ----------

  datatype Refusal =
    | Unauthenticated | InsufficientRole | ApiKeyForbidden | RoleNotGrantable(names: seq<string>) | UserNotManageable
    | CannotChangeOwnStatus | CannotChangeOwnRoles | OnlyOwnPassword | BadRequest | NotFound | Conflict

  datatype Answer = Done | Refused(why: Refusal)

  predicate CanGrantRole(auth: Context, role: Role) {
    !IsApiKeyCaller(auth) && HasAnyRole(auth, if role == PlatformOwner then {PlatformOwner} else USER_ADMIN_ROLES)
  }

  predicate Grantable(auth: Context, name: string) {
    Expand(name) != {} && forall r :: r in Expand(name) ==> CanGrantRole(auth, r)
  }

  function UngrantableRoles(auth: Context, roles: seq<string>): (refused: seq<string>)
    ensures forall name :: name in refused <==> name in roles && !Grantable(auth, name)
  {
    if roles == [] then []
    else (if Grantable(auth, roles[0]) then [] else [roles[0]]) + UngrantableRoles(auth, roles[1..])
  }

  function AuthorizeIdentityAdmin(auth: Context): Answer {
    if !HasAnyRole(auth, USER_ADMIN_ROLES) then Refused(InsufficientRole)
    else if IsApiKeyCaller(auth) then Refused(ApiKeyForbidden)
    else Done
  }

  function AuthorizeRoleGrant(auth: Context, roles: seq<string>): Answer {
    if AuthorizeIdentityAdmin(auth) != Done then AuthorizeIdentityAdmin(auth)
    else
      var refused := UngrantableRoles(auth, roles);
      if |refused| > 0 then Refused(RoleNotGrantable(refused)) else Done
  }

  function AuthorizeManage(auth: Context, target: User): Answer {
    if exists r :: r in Effective(target.roles) && !CanGrantRole(auth, r) then Refused(UserNotManageable) else Done
  }

  function AuthorizeUserUpdate(auth: Context, id: string, target: User, roles: Option<seq<string>>, status: Option<string>)
    : Answer
  {
    if AuthorizeIdentityAdmin(auth) != Done then AuthorizeIdentityAdmin(auth)
    else if status.Some? && IsSameUserId(auth.subject, id) then Refused(CannotChangeOwnStatus)
    else if AuthorizeManage(auth, target) != Done then AuthorizeManage(auth, target)
    else if roles.Some? then AuthorizeRoleGrant(auth, roles.value)
    else Done
  }

  function AuthorizePasswordSet(auth: Context, id: string, target: User): Answer {
    if IsApiKeyCaller(auth) then Refused(ApiKeyForbidden)
    else if IsSameUserId(auth.subject, id) then Done
    else if !HasAnyRole(auth, USER_ADMIN_ROLES) then Refused(OnlyOwnPassword)
    else AuthorizeManage(auth, target)
  }

  // ---------- the routes ----------

  /** The typed part of a PATCH body. */
  datatype Patch = Patch(status: Option<string>, roles: Option<seq<string>>, keepApiKeys: Option<bool>)

  predicate ValidPatch(p: Patch) {
    && (p.status.Some? ==> p.status.value in USER_STATUSES)
    && (p.roles.Some? ==> p.roles.value != [] && forall name :: name in p.roles.value ==> KnownRole(name).Some?)
    && (p.status.Some? || p.roles.Some?)
    && (p.keepApiKeys == Some(true) ==> p.status.Some? && p.status.value != ACTIVE)
  }

  datatype Act =
    | CreateUser(caller: Caller, newId: string, fieldsOk: bool, emailFree: bool, roles: seq<string>)
    | PatchUser(caller: Caller, rawId: string, patch: Patch)

  /** Every check a request makes once its caller is known; the target is read here. */
  function DecideAs(users: Users, auth: Context, act: Act): Answer {
    if AuthorizeIdentityAdmin(auth) != Done then AuthorizeIdentityAdmin(auth)
    else
      match act
      case CreateUser(_, newId, fieldsOk, emailFree, roles) =>
        if !fieldsOk || roles == [] || exists name :: name in roles && KnownRole(name).None? then Refused(BadRequest)
        else if AuthorizeRoleGrant(auth, roles) != Done then AuthorizeRoleGrant(auth, roles)
        else if !emailFree || newId in users then Refused(Conflict)
        else Done
      case PatchUser(_, rawId, patch) =>
        var id := Lower(rawId);
        if !ValidPatch(patch) then Refused(BadRequest)
        else if patch.roles.Some? && IsSameUserId(auth.subject, id) then Refused(CannotChangeOwnRoles)
        else if id !in users then Refused(NotFound)
        else AuthorizeUserUpdate(auth, id, users[id], patch.roles, patch.status)
  }

  /** refuseDeactivatedCaller: just before the write, the account of a session's user (and no other caller) is read again. */
  predicate StillActive(users: Users, caller: Caller) {
    caller.Session? ==> caller.userId in users && users[caller.userId].status == ACTIVE
  }

  /** A whole request taken as one step. */
  function Decide(users: Users, act: Act): Answer {
    var caller := Resolve(users, act.caller);
    if caller.None? then Refused(Unauthenticated)
    else if DecideAs(users, caller.value, act) != Done then DecideAs(users, caller.value, act)
    else if !StillActive(users, act.caller) then Refused(Unauthenticated)
    else Done
  }

  function Patched(u: User, patch: Patch): User {
    User(if patch.roles.Some? then Names(patch.roles.value) else u.roles,
         if patch.status.Some? then patch.status.value else u.status)
  }

  /** What an accepted act writes. */
  function Write(users: Users, act: Act): Users {
    match act
    case CreateUser(_, newId, _, _, roles) => users[newId := User(Names(roles), ACTIVE)]
    case PatchUser(_, rawId, patch) =>
      var id := Lower(rawId);
      if id in users then users[id := Patched(users[id], patch)] else users
  }

  function Next(users: Users, act: Act): Users {
    if Decide(users, act) == Done then Write(users, act) else users
  }

  function Run(users: Users, acts: seq<Act>): Users
    decreases acts
  {
    if acts == [] then users else Run(Next(users, acts[0]), acts[1..])
  }

  class UserDirectory {
    var users: Users

    constructor (users: Users)
      ensures this.users == users
    {
      this.users := users;
    }

    /** PATCH /api/v1/users/:id: the status is written first, then the roles. */
    method Patch(caller: Caller, rawId: string, patch: Patch) returns (answer: Answer)
      modifies this
      ensures answer == Decide(old(users), PatchUser(caller, rawId, patch))
      ensures users == Next(old(users), PatchUser(caller, rawId, patch))
    {
      hide KnownRole, Bundle, Expand, Effective, AuthorizeUserUpdate, AuthorizeIdentityAdmin;
      var auth := Resolve(users, caller);
      if auth.None? {
        return Refused(Unauthenticated);
      }
      var gate := AuthorizeIdentityAdmin(auth.value);
      if gate != Done {
        return gate;
      }
      var id := Lower(rawId);
      if !ValidPatch(patch) {
        return Refused(BadRequest);
      }
      if patch.roles.Some? && IsSameUserId(auth.value.subject, id) {
        return Refused(CannotChangeOwnRoles);
      }
      if id !in users {
        return Refused(NotFound);
      }
      answer := AuthorizeUserUpdate(auth.value, id, users[id], patch.roles, patch.status);
      if answer != Done {
        return;
      }
      if !StillActive(users, caller) {
        return Refused(Unauthenticated);
      }
      if patch.status.Some? {
        users := users[id := users[id].(status := patch.status.value)];
      }
      if patch.roles.Some? {
        users := users[id := users[id].(roles := Names(patch.roles.value))];
      }
    }

    /** POST /api/v1/users. */
    method Create(caller: Caller, newId: string, fieldsOk: bool, emailFree: bool, roles: seq<string>)
      returns (answer: Answer)
      modifies this
      ensures answer == Decide(old(users), CreateUser(caller, newId, fieldsOk, emailFree, roles))
      ensures users == Next(old(users), CreateUser(caller, newId, fieldsOk, emailFree, roles))
    {
      hide KnownRole, Bundle, Expand, Effective, AuthorizeRoleGrant, AuthorizeIdentityAdmin;
      var auth := Resolve(users, caller);
      if auth.None? {
        return Refused(Unauthenticated);
      }
      var gate := AuthorizeIdentityAdmin(auth.value);
      if gate != Done {
        return gate;
      }
      if !fieldsOk || roles == [] || exists name :: name in roles && KnownRole(name).None? {
        return Refused(BadRequest);
      }
      var grant := AuthorizeRoleGrant(auth.value, roles);
      if grant != Done {
        return grant;
      }
      if !emailFree || newId in users {
        return Refused(Conflict);
      }
      if !StillActive(users, caller) {
        return Refused(Unauthenticated);
      }
      users := users[newId := User(Names(roles), ACTIVE)];
      answer := Done;
    }
  }

  // ---------- granting is top-down ----------

  /** What a caller can give: nothing by key, everything as owner, everything but owner as tenant admin. */
  function Reach(auth: Context): set<Role> {
    if IsApiKeyCaller(auth) then {}
    else if PlatformOwner in auth.roles then AllRoles()
    else if TenantAdmin in auth.roles then AllRoles() - {PlatformOwner}
    else {}
  }

  function AllRoles(): set<Role> {
    {PlatformOwner, TenantAdmin, MarketingManager, SalesAgent, SupportAgent, Analyst, ComplianceAuditor}
  }

  lemma InAllRoles(r: Role)
    ensures r in AllRoles()
  {
    match r case _ => {}
  }

  lemma CanGrantIsReach(auth: Context, role: Role)
    ensures CanGrantRole(auth, role) <==> role in Reach(auth)
  {
    InAllRoles(role);
    assert PlatformOwner in auth.roles ==> PlatformOwner in auth.roles * USER_ADMIN_ROLES;
    assert TenantAdmin in auth.roles ==> TenantAdmin in auth.roles * USER_ADMIN_ROLES;
    assert PlatformOwner in auth.roles <==> PlatformOwner in auth.roles * {PlatformOwner};
  }

  /**
   * An update passes exactly when a human admin changes somebody's status but not their own, holds reach over every role
   * the user has, and over every role asked for, none of which is unknown.
   */
  lemma UpdateAllowedExactly(auth: Context, id: string, target: User, roles: Option<seq<string>>, status: Option<string>)
    ensures AuthorizeUserUpdate(auth, id, target, roles, status) == Done <==>
      (&& Reach(auth) != {}
       && !(status.Some? && IsSameUserId(auth.subject, id))
       && Effective(target.roles) <= Reach(auth)
       && (roles.Some? ==> forall name :: name in roles.value ==> Expand(name) != {} && Expand(name) <= Reach(auth)))
  {
    hide Expand, Effective;
    forall r ensures CanGrantRole(auth, r) <==> r in Reach(auth) { CanGrantIsReach(auth, r); }
    AdminHasReach(auth);
    if roles.Some? {
      assert AuthorizeRoleGrant(auth, roles.value) == Done <==>
        AuthorizeIdentityAdmin(auth) == Done && UngrantableRoles(auth, roles.value) == [];
      assert UngrantableRoles(auth, roles.value) == [] <==> forall name :: name in roles.value ==> Grantable(auth, name) by {
        var refused := UngrantableRoles(auth, roles.value);
        assert refused != [] ==> refused[0] in refused;
      }
      forall name ensures Grantable(auth, name) <==> Expand(name) != {} && Expand(name) <= Reach(auth) {
      }
    }
  }

  lemma AdminHasReach(auth: Context)
    ensures AuthorizeIdentityAdmin(auth) == Done <==> Reach(auth) != {}
  {
    CanGrantIsReach(auth, TenantAdmin);
    CanGrantIsReach(auth, PlatformOwner);
    InAllRoles(TenantAdmin);
    assert TenantAdmin in AllRoles() - {PlatformOwner};
    assert HasAnyRole(auth, {PlatformOwner}) ==> HasAnyRole(auth, USER_ADMIN_ROLES) by {
      assert HasAnyRole(auth, {PlatformOwner}) ==> PlatformOwner in auth.roles * USER_ADMIN_ROLES;
    }
  }

  /** Only the owner of a password, or somebody who could have made that user, sets it; a key never does. */
  lemma PasswordSetExactly(auth: Context, id: string, target: User)
    ensures AuthorizePasswordSet(auth, id, target) == Done <==>
      !IsApiKeyCaller(auth)
      && (IsSameUserId(auth.subject, id) || (Reach(auth) != {} && Effective(target.roles) <= Reach(auth)))
  {
    hide Expand, Effective;
    forall r ensures CanGrantRole(auth, r) <==> r in Reach(auth) { CanGrantIsReach(auth, r); }
    AdminHasReach(auth);
  }

  /** The "owner" bundle counts as platform_owner, whatever its case and surrounding space: only an owner grants either. */
  lemma OwnerNamesNeedOwner(auth: Context, name: string)
    requires Lower(Trim(name)) == "owner" || Lower(Trim(name)) == "platform_owner"
    ensures Grantable(auth, name) <==> PlatformOwner in auth.roles && !IsApiKeyCaller(auth)
  {
    forall r ensures CanGrantRole(auth, r) <==> r in Reach(auth) { CanGrantIsReach(auth, r); }
    forall r: Role ensures r in AllRoles() { InAllRoles(r); }
    assert PlatformOwner in Bundle("owner");
    assert PlatformOwner in Expand(name);
  }

  // ---------- whole runs ----------

  predicate IsOwner(u: User) {
    u.status == ACTIVE && PlatformOwner in Effective(u.roles)
  }

  function Owners(users: Users): set<string> {
    set id | id in users && IsOwner(users[id])
  }

  /** A key never changes anything, and nobody changes their own row. */
  lemma KeysAndSelfChangeNothing(users: Users, act: Act)
    ensures act.caller.ApiKey? ==> Next(users, act) == users
    ensures act.caller.Session? && act.caller.userId in users ==>
      act.caller.userId in Next(users, act) && Next(users, act)[act.caller.userId] == users[act.caller.userId]
  {
    hide Expand, Effective, AuthorizeManage, AuthorizeRoleGrant, KnownRole;
    if act.caller.ApiKey? {
      assert API_KEY_SUBJECT_PREFIX <= API_KEY_SUBJECT_PREFIX + act.caller.keyId;
    }
  }

  /** The set of active owners changes only by the act of somebody who is one. */
  lemma OwnersChangeOnlyByOwner(users: Users, act: Act)
    requires Owners(Next(users, act)) != Owners(users)
    ensures Decide(users, act) == Done && Resolve(users, act.caller).Some?
    ensures PlatformOwner in Resolve(users, act.caller).value.roles
    ensures act.caller.Session? ==> act.caller.userId in Owners(users) && act.caller.userId in Owners(Next(users, act))
  {
    hide Expand, Effective, KnownRole;
    KeysAndSelfChangeNothing(users, act);
    var auth := Resolve(users, act.caller).value;
    forall r ensures CanGrantRole(auth, r) <==> r in Reach(auth) { CanGrantIsReach(auth, r); }
    match act {
      case CreateUser(_, newId, _, _, roles) => GrantedReach(auth, roles);
      case PatchUser(_, rawId, patch) =>
        var id := Lower(rawId);
        assert AuthorizeManage(auth, users[id]) == Done;
        if patch.roles.Some? { GrantedReach(auth, patch.roles.value); }
    }
  }

  lemma GrantedReach(auth: Context, roles: seq<string>)
    requires AuthorizeRoleGrant(auth, roles) == Done
    ensures Effective(Names(roles)) <= Reach(auth)
  {
    hide Expand;
    forall r | r in Effective(Names(roles)) ensures r in Reach(auth) {
      var name :| name in roles && r in Expand(name);
      assert name !in UngrantableRoles(auth, roles) ==> Grantable(auth, name);
      CanGrantIsReach(auth, r);
    }
  }

  predicate NoTokens(acts: seq<Act>) {
    forall i :: 0 <= i < |acts| ==> !acts[i].caller.Token?
  }

  /**
   * Over every run of creations and updates by sessions (and keys), an active platform owner remains if there was one,
   * and none appears if there was none.
   */
  lemma {:induction false} OwnerRemains(users: Users, acts: seq<Act>)
    requires NoTokens(acts)
    ensures Owners(Run(users, acts)) != {} <==> Owners(users) != {}
    decreases acts
  {
    hide Next, Owners;
    if acts != [] {
      var next := Next(users, acts[0]);
      if Owners(next) != Owners(users) {
        OwnersChangeOnlyByOwner(users, acts[0]);
        KeysAndSelfChangeNothing(users, acts[0]);
      }
      OwnerRemains(next, acts[1..]);
    }
  }

  /** Whoever is an active owner at the end but was not at the start was made one by somebody who was one at the time. */
  lemma {:induction false} OwnersMadeByOwners(users: Users, acts: seq<Act>, id: string) returns (i: nat)
    requires NoTokens(acts) && id !in Owners(users) && id in Owners(Run(users, acts))
    ensures i < |acts| && acts[i].caller.Session? && acts[i].caller.userId in Owners(Run(users, acts[..i]))
    ensures id !in Owners(Run(users, acts[..i])) && id in Owners(Run(users, acts[..i + 1]))
    decreases acts
  {
    hide Next, Owners;
    var next := Next(users, acts[0]);
    assert acts[..0] == [] && acts[..1][1..] == [];
    if id in Owners(next) {
      OwnersChangeOnlyByOwner(users, acts[0]);
      KeysAndSelfChangeNothing(users, acts[0]);
      assert Run(users, acts[..1]) == Run(next, []);
      i := 0;
    } else {
      var j := OwnersMadeByOwners(next, acts[1..], id);
      i := j + 1;
      assert acts[..i][1..] == acts[1..][..j] && acts[..i + 1][1..] == acts[1..][..j + 1];
    }
  }

  // ---------- where the guarantee ends ----------

  lemma OwnerName()
    ensures Effective({"platform_owner"}) == {PlatformOwner}
  {
    assert Trimmed("platform_owner");
    TrimSpec("platform_owner");
    LowerFixes("platform_owner");
    assert Expand("platform_owner") == {PlatformOwner};
  }

  /** The act takes the last active owner out: an accepted update, by a caller the directory does not hold. */
  predicate TokenRemovesLast(users: Users, act: Act) {
    && act.PatchUser? && act.caller.Token? && Decide(users, act) == Done
    && Owners(users) == {Lower(act.rawId)} && Lower(act.rawId) in users
    && !IsOwner(Patched(users[Lower(act.rawId)], act.patch))
  }

  /** Taken one at a time, nothing else does. */
  lemma LastOwnerLostExactly(users: Users, act: Act)
    requires Owners(users) != {}
    ensures Owners(Next(users, act)) == {} <==> TokenRemovesLast(users, act)
  {
    hide Effective, Decide, IsOwner;
    if Owners(Next(users, act)) != Owners(users) {
      OwnersChangeOnlyByOwner(users, act);
      KeysAndSelfChangeNothing(users, act);
      if act.PatchUser? {
        var id := Lower(act.rawId);
        PatchedOwners(users, id, Patched(users[id], act.patch));
      } else {
        AddedOwners(users, act);
      }
    } else if TokenRemovesLast(users, act) {
      PatchedOwners(users, Lower(act.rawId), Patched(users[Lower(act.rawId)], act.patch));
    }
  }

  lemma PatchedOwners(users: Users, id: string, row: User)
    requires id in users
    ensures Owners(users[id := row]) == if IsOwner(row) then Owners(users) + {id} else Owners(users) - {id}
  {
    hide IsOwner;
  }

  lemma AddedOwners(users: Users, act: Act)
    requires act.CreateUser? && Decide(users, act) == Done
    ensures Owners(users) <= Owners(Next(users, act))
  {
    hide IsOwner, AuthorizeRoleGrant, AuthorizeIdentityAdmin, KnownRole, Resolve;
  }

  predicate AlwaysOwned(users: Users, acts: seq<Act>)
    decreases acts
  {
    Owners(users) != {} && (acts != [] ==> AlwaysOwned(Next(users, acts[0]), acts[1..]))
  }

  predicate NoneRemovesLast(users: Users, acts: seq<Act>)
    decreases acts
  {
    acts != [] ==> !TokenRemovesLast(users, acts[0]) && NoneRemovesLast(Next(users, acts[0]), acts[1..])
  }

  /** So over every run, tokens included, there always is an active owner exactly when no act is such a removal. */
  lemma {:induction false} AlwaysOwnedExactly(users: Users, acts: seq<Act>)
    requires Owners(users) != {}
    ensures AlwaysOwned(users, acts) <==> NoneRemovesLast(users, acts)
    decreases acts
  {
    hide Next, Owners, TokenRemovesLast;
    if acts != [] {
      LastOwnerLostExactly(users, acts[0]);
      if Owners(Next(users, acts[0])) != {} { AlwaysOwnedExactly(Next(users, acts[0]), acts[1..]); }
    }
  }

  const SUSPEND := Patch(Some("suspended"), None, None)

  /** An owner may suspend anybody else. */
  lemma OwnerSuspendsAnother(users: Users, auth: Context, caller: Caller, id: string)
    requires PlatformOwner in auth.roles && !IsApiKeyCaller(auth)
    requires IsLower(id) && id in users && !IsSameUserId(auth.subject, id)
    ensures DecideAs(users, auth, PatchUser(caller, id, SUSPEND)) == Done
  {
    hide Expand, Effective, KnownRole;
    LowerFixes(id);
    AdminHasReach(auth);
    forall r: Role ensures r in AllRoles() { InAllRoles(r); }
    UpdateAllowedExactly(auth, id, users[id], None, SUSPEND.status);
  }

  /** Any such removal: whenever there is one active owner, a token with the owner role for another subject suspends it. */
  lemma TokenCanRemoveLastOwner(users: Users, id: string, subject: string, roles: set<string>)
    requires Owners(users) == {id} && IsLower(id)
    requires PlatformOwner in Effective(roles) && !(API_KEY_SUBJECT_PREFIX <= subject) && !IsSameUserId(subject, id)
    ensures Owners(Next(users, PatchUser(Token(subject, roles), id, SUSPEND))) == {}
  {
    hide Effective, DecideAs;
    assert id in Owners(users);
    LowerFixes(id);
    OwnerSuspendsAnother(users, Context(subject, Effective(roles)), Token(subject, roles), id);
    PatchedOwners(users, id, Patched(users[id], SUSPEND));
  }

  /** There is one. */
  lemma TokenRemovesLastWitness()
    ensures var users := map["a" := User({"platform_owner"}, ACTIVE)];
      Owners(users) == {"a"} && Owners(Next(users, PatchUser(Token("b", {"platform_owner"}), "a", SUSPEND))) == {}
  {
    hide KnownRole, Expand;
    OwnerName();
    LowerFixes("a");
    LowerFixes("b");
    TokenCanRemoveLastOwner(map["a" := User({"platform_owner"}, ACTIVE)], "a", "b", {"platform_owner"});
  }

  // ---------- exactly what a request changes ----------

  function RoleName(r: Role): string {
    match r
    case PlatformOwner => "platform_owner"
    case TenantAdmin => "tenant_admin"
    case MarketingManager => "marketing_manager"
    case SalesAgent => "sales_agent"
    case SupportAgent => "support_agent"
    case Analyst => "analyst"
    case ComplianceAuditor => "compliance_auditor"
  }

  /** A stored name is a role exactly when it is that role's name, letter for letter. */
  lemma KnownExactly(name: string, r: Role)
    ensures KnownRole(name) == Some(r) <==> name == RoleName(r)
  {
    assert |"platform_owner"| == 14 && |"tenant_admin"| == 12 && |"marketing_manager"| == 17 && |"sales_agent"| == 11;
    assert |"support_agent"| == 13 && |"analyst"| == 7 && |"compliance_auditor"| == 18;
  }

  predicate InBundle(name: string, r: Role) {
    || (name == "owner" && !r.Analyst? && !r.ComplianceAuditor?)
    || (name == "admin" && (r.TenantAdmin? || r.MarketingManager?))
    || (name == "agent" && (r.SalesAgent? || r.SupportAgent?))
    || (name == "viewer" && (r.Analyst? || r.ComplianceAuditor?))
  }

  /** A name stands for the role it names or for the roles of the bundle it names, and for nothing else. */
  lemma ExpandExactly(raw: string, r: Role)
    ensures r in Expand(raw) <==> Lower(Trim(raw)) == RoleName(r) || InBundle(Lower(Trim(raw)), r)
  {
    hide KnownRole;
    var name := Lower(Trim(raw));
    KnownExactly(name, r);
    if KnownRole(name).Some? {
      KnownExactly(name, KnownRole(name).value);
      RoleNamesNoBundle(KnownRole(name).value);
    }
    BundleExactly(name, r);
  }

  lemma RoleNamesNoBundle(r: Role)
    ensures RoleName(r) !in {"owner", "admin", "agent", "viewer"}
  {
    assert |RoleName(r)| >= 7 && |"owner"| == |"admin"| == |"agent"| == 5 && |"viewer"| == 6;
  }

  lemma BundleExactly(name: string, r: Role)
    ensures r in RoleSet(Bundle(name)) <==> InBundle(name, r)
  {
    assert "owner"[0] == 'o' && "admin"[1] == 'd' && "agent"[1] == 'g' && |"viewer"| == 6;
    match r case _ => {}
  }

  function SubjectOf(caller: Caller): string {
    match caller
    case Session(id) => id
    case ApiKey(id, _) => "apikey:" + id
    case Token(subject, _) => subject
  }

  /** The role names a caller acts with: a user's stored ones while active, and a token's own. */
  function HeldBy(users: Users, caller: Caller): set<string> {
    match caller
    case Session(id) => if id in users && users[id].status == "active" then users[id].roles else {}
    case ApiKey(_, roles) => roles
    case Token(_, roles) => roles
  }

  /** What a caller can give and take away at this moment. */
  function Power(users: Users, caller: Caller): set<Role> {
    if "apikey:" <= SubjectOf(caller) then {}
    else if exists name :: name in HeldBy(users, caller) && PlatformOwner in Expand(name) then AllRoles()
    else if exists name :: name in HeldBy(users, caller) && TenantAdmin in Expand(name) then AllRoles() - {PlatformOwner}
    else {}
  }

  lemma PowerIsReach(users: Users, caller: Caller)
    ensures Resolve(users, caller).Some? ==> Power(users, caller) == Reach(Resolve(users, caller).value)
    ensures Resolve(users, caller).Some? ==> Resolve(users, caller).value.subject == SubjectOf(caller)
    ensures Resolve(users, caller).None? ==> Power(users, caller) == {}
    ensures Resolve(users, caller).Some? ==> StillActive(users, caller)
  {
    hide Expand;
  }

  /** Every name is a role's own, and of a role the caller can give. */
  predicate WithinPower(users: Users, caller: Caller, roles: seq<string>) {
    forall name :: name in roles ==> exists r :: name == RoleName(r) && r in Power(users, caller)
  }

  lemma RoleNameExpands(r: Role)
    ensures Expand(RoleName(r)) == {r}
  {
    hide KnownRole;
    var name := RoleName(r);
    KnownExactly(name, r);
    assert IsLower(name) && Trimmed(name);
    TrimSpec(name);
    LowerFixes(name);
  }

  lemma WithinExactly(users: Users, caller: Caller, roles: seq<string>)
    ensures WithinPower(users, caller, roles) <==>
      forall name :: name in roles ==> KnownRole(name).Some? && Expand(name) != {} && Expand(name) <= Power(users, caller)
  {
    hide Expand, KnownRole, Power;
    forall name | name in roles
      ensures KnownRole(name).Some? && Expand(name) != {} && Expand(name) <= Power(users, caller)
        <==> exists r :: name == RoleName(r) && r in Power(users, caller)
    {
      forall r ensures KnownRole(name) == Some(r) <==> name == RoleName(r) { KnownExactly(name, r); }
      if KnownRole(name).Some? { RoleNameExpands(KnownRole(name).value); }
    }
  }

  /**
   * A creation adds exactly one active user with exactly the roles asked for, when its caller can give each of them and the
   * row is complete and new; otherwise nothing changes.
   */
  lemma CreatedExactly(users: Users, caller: Caller, newId: string, fieldsOk: bool, emailFree: bool, roles: seq<string>)
    ensures Next(users, CreateUser(caller, newId, fieldsOk, emailFree, roles)) ==
      if Power(users, caller) != {} && fieldsOk && roles != [] && WithinPower(users, caller, roles) && emailFree
        && newId !in users
      then users[newId := User(set name | name in roles, "active")]
      else users
  {
    hide Expand, KnownRole, Power, Reach, AuthorizeIdentityAdmin, WithinPower;
    PowerIsReach(users, caller);
    WithinExactly(users, caller, roles);
    var auth := Resolve(users, caller);
    if auth.Some? {
      AdminHasReach(auth.value);
      GrantExactly(auth.value, roles);
    }
  }

  lemma GrantExactly(auth: Context, roles: seq<string>)
    ensures AuthorizeRoleGrant(auth, roles) == Done <==>
      Reach(auth) != {} && forall name :: name in roles ==> Expand(name) != {} && Expand(name) <= Reach(auth)
  {
    hide Expand;
    forall r ensures CanGrantRole(auth, r) <==> r in Reach(auth) { CanGrantIsReach(auth, r); }
    AdminHasReach(auth);
    var refused := UngrantableRoles(auth, roles);
    assert refused != [] ==> refused[0] in refused;
  }

  /** A body the route takes: a status of the four or roles by their names; keys outlive a deactivation alone. */
  predicate GoodPatch(p: Patch) {
    && (p.status.Some? || p.roles.Some?)
    && (p.status.Some? ==> p.status.value in ["active", "invited", "suspended", "disabled"])
    && (p.roles.Some? ==> p.roles.value != [])
    && (p.keepApiKeys == Some(true) ==> p.status.Some? && p.status.value != "active")
  }

  /**
   * An update changes exactly the row it names, to the status and the roles it asks for, when it is somebody else's and its
   * caller has power over every role held and every role asked for; otherwise nothing changes.
   */
  lemma UpdatedExactly(users: Users, caller: Caller, rawId: string, patch: Patch)
    ensures var id := Lower(rawId);
      Next(users, PatchUser(caller, rawId, patch)) ==
      if Power(users, caller) != {} && GoodPatch(patch) && id in users && Lower(SubjectOf(caller)) != Lower(id)
        && Effective(users[id].roles) <= Power(users, caller)
        && (patch.roles.Some? ==> WithinPower(users, caller, patch.roles.value))
      then users[id := User(if patch.roles.Some? then set name | name in patch.roles.value else users[id].roles,
                            if patch.status.Some? then patch.status.value else users[id].status)]
      else users
  {
    hide Expand, KnownRole, Power, Reach, AuthorizeIdentityAdmin, WithinPower, AuthorizeUserUpdate, Effective;
    PowerIsReach(users, caller);
    if patch.roles.Some? { WithinExactly(users, caller, patch.roles.value); }
    var auth, id := Resolve(users, caller), Lower(rawId);
    if auth.Some? {
      AdminHasReach(auth.value);
      if id in users { UpdateAllowedExactly(auth.value, id, users[id], patch.roles, patch.status); }
    }
  }
}
