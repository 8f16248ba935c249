/**
 * The user routes of services/api-gateway/src/index.ts as they interleave: a request resolves its caller, reads its target
 * and decides, reads a session's account again, and only then writes, the status and the roles one after the other. Between
 * any two of these other requests may write.
 */
module UserRequests {
  import opened Options
  import opened Text
  import opened UserAdmin

  datatype Phase = Resolved | Decided | Checked | StatusWritten

  /** A request in flight, with the directory as it was when each of its reads was made. */
  datatype Task = Task(act: Act, auth: Context, phase: Phase, asResolved: Users, asDecided: Users, asChecked: Users)

  datatype State = State(users: Users, tasks: map<nat, Task>)

  datatype Step = Begin(pid: nat, act: Act) | Advance(pid: nat) | Abandon(pid: nat)

  function Target(act: Act): string {
    if act.PatchUser? then Lower(act.rawId) else act.newId
  }

  /** The row a write leaves for its target. */
  function Row(users: Users, t: Task): User
    requires t.act.PatchUser? ==> Target(t.act) in users
  {
    match t.act
    case CreateUser(_, _, _, _, roles) => User(Names(roles), ACTIVE)
    case PatchUser(_, _, patch) =>
      var row := users[Target(t.act)];
      if t.phase == Checked && patch.status.Some? then row.(status := patch.status.value)
      else if patch.roles.Some? then row.(roles := Names(patch.roles.value))
      else row
  }

  /** One statement: it updates an existing row, or inserts one under a new id. */
  function Written(users: Users, t: Task): Users {
    if t.act.PatchUser? <==> Target(t.act) in users then users[Target(t.act) := Row(users, t)] else users
  }

  predicate RolesLeft(t: Task) {
    t.phase == Checked && t.act.PatchUser? && t.act.patch.status.Some? && t.act.patch.roles.Some?
  }

  function Advanced(s: State, pid: nat): State
    requires pid in s.tasks
  {
    var t, rest := s.tasks[pid], s.tasks - {pid};
    match t.phase
    case Resolved =>
      if DecideAs(s.users, t.auth, t.act) != Done then s.(tasks := rest)
      else s.(tasks := s.tasks[pid := t.(phase := Decided, asDecided := s.users)])
    case Decided =>
      if !StillActive(s.users, t.act.caller) then s.(tasks := rest)
      else s.(tasks := s.tasks[pid := t.(phase := Checked, asChecked := s.users)])
    case Checked =>
      State(Written(s.users, t), if RolesLeft(t) then s.tasks[pid := t.(phase := StatusWritten)] else rest)
    case StatusWritten => State(Written(s.users, t), rest)
  }

  function Next(s: State, step: Step): State {
    match step
    case Begin(pid, act) =>
      var auth := Resolve(s.users, act.caller);
      if pid in s.tasks || auth.None? then s
      else s.(tasks := s.tasks[pid := Task(act, auth.value, Resolved, s.users, s.users, s.users)])
    case Advance(pid) => if pid in s.tasks then Advanced(s, pid) else s
    case Abandon(pid) => s.(tasks := s.tasks - {pid})
  }

  function Run(s: State, steps: seq<Step>): State
    decreases steps
  {
    if steps == [] then s else Run(Next(s, steps[0]), steps[1..])
  }

  // ---------- what every run keeps ----------

  /** Users are never deleted. */
  predicate Known(before: Users, now: Users) {
    forall id :: id in before ==> id in now
  }

  ghost predicate Sound(t: Task, users: Users) {
    && Resolve(t.asResolved, t.act.caller) == Some(t.auth) && Known(t.asResolved, users)
    && (t.phase != Resolved ==> DecideAs(t.asDecided, t.auth, t.act) == Done && Known(t.asDecided, users))
    && (t.phase in {Checked, StatusWritten} ==> StillActive(t.asChecked, t.act.caller))
    && (t.phase == StatusWritten ==> t.act.PatchUser? && t.act.patch.roles.Some? && t.act.patch.status.Some?)
  }

  ghost predicate Inv(s: State) {
    forall pid :: pid in s.tasks ==> Sound(s.tasks[pid], s.users)
  }

  lemma StillSound(t: Task, users: Users, now: Users)
    requires Sound(t, users) && Known(users, now)
    ensures Sound(t, now)
  {
    hide Resolve, DecideAs, StillActive;
  }

  lemma StepKeeps(s: State, step: Step)
    requires Inv(s)
    ensures Inv(Next(s, step)) && Known(s.users, Next(s, step).users)
  {
    hide Resolve, DecideAs, StillActive, Row;
    var s' := Next(s, step);
    forall pid | pid in s'.tasks ensures Sound(s'.tasks[pid], s'.users) {
      if pid in s.tasks {
        assert Sound(s.tasks[pid], s.users);
        StillSound(s.tasks[pid], s.users, s'.users);
      }
    }
  }

  // ---------- when the last active owner goes ----------

  predicate WritesNow(s: State, step: Step) {
    step.Advance? && step.pid in s.tasks && s.tasks[step.pid].phase in {Checked, StatusWritten}
  }

  /** The step takes the only active owner out. */
  predicate RemovesLast(s: State, step: Step) {
    && WritesNow(s, step)
    && var t := s.tasks[step.pid];
       t.act.PatchUser? && Target(t.act) in s.users && Owners(s.users) == {Target(t.act)} && !IsOwner(Row(s.users, t))
  }

  lemma LastOwnerLostExactly(s: State, step: Step)
    requires Owners(s.users) != {}
    ensures Owners(Next(s, step).users) == {} <==> RemovesLast(s, step)
  {
    hide IsOwner, Row, DecideAs, Resolve, StillActive;
    if WritesNow(s, step) {
      var t := s.tasks[step.pid];
      if t.act.PatchUser? && Target(t.act) in s.users {
        PatchedOwners(s.users, Target(t.act), Row(s.users, t));
      } else {
        assert forall id :: id in Owners(s.users) ==> id in Owners(Written(s.users, t));
      }
    }
  }

  /**
   * What a write relies on has changed since the request read it: a session's user is no longer active, though it was at
   * the re-check, or no longer has the roles it was resolved with, or the target no longer those it was decided on.
   */
  predicate Stale(s: State, t: Task) {
    || !StillActive(s.users, t.act.caller)
    || (t.act.caller.Session? && t.act.caller.userId in s.users
        && Effective(s.users[t.act.caller.userId].roles) != t.auth.roles)
    || (Target(t.act) in s.users && Target(t.act) in t.asDecided
        && Effective(s.users[Target(t.act)].roles) != Effective(t.asDecided[Target(t.act)].roles))
  }

  /** Nobody decides on themselves, nor on roles out of their reach. */
  lemma DecidedOnOthers(users: Users, auth: Context, act: Act)
    requires DecideAs(users, auth, act) == Done && act.PatchUser?
    ensures Target(act) in users && auth.subject != Target(act) && !IsApiKeyCaller(auth)
    ensures PlatformOwner in Effective(users[Target(act)].roles) ==> PlatformOwner in auth.roles
  {
    hide Expand, Effective, KnownRole, AuthorizeRoleGrant;
    CanGrantIsReach(auth, PlatformOwner);
    assert AuthorizeManage(auth, users[Target(act)]) == Done;
  }

  /** A session whose readings still hold when it writes over an active owner is another active owner itself. */
  lemma FreshWriterIsOwner(s: State, pid: nat)
    requires Inv(s) && pid in s.tasks && s.tasks[pid].phase in {Checked, StatusWritten} && !Stale(s, s.tasks[pid])
    requires s.tasks[pid].act.PatchUser? && s.tasks[pid].act.caller.Session? && Target(s.tasks[pid].act) in Owners(s.users)
    ensures s.tasks[pid].act.caller.userId in Owners(s.users)
    ensures s.tasks[pid].act.caller.userId != Target(s.tasks[pid].act)
  {
    hide Effective, DecideAs, Row;
    assert Sound(s.tasks[pid], s.users);
    DecidedOnOthers(s.tasks[pid].asDecided, s.tasks[pid].auth, s.tasks[pid].act);
  }

  lemma KeysNeverWrite(s: State, pid: nat)
    requires Inv(s) && pid in s.tasks && s.tasks[pid].phase in {Checked, StatusWritten} && s.tasks[pid].act.PatchUser?
    ensures !s.tasks[pid].act.caller.ApiKey?
  {
    hide Effective, DecideAs, Row;
    assert Sound(s.tasks[pid], s.users);
    DecidedOnOthers(s.tasks[pid].asDecided, s.tasks[pid].auth, s.tasks[pid].act);
    KeySubject(s.tasks[pid].asResolved, s.tasks[pid].act.caller);
  }

  lemma KeySubject(users: Users, caller: Caller)
    ensures caller.ApiKey? ==> Resolve(users, caller).Some? && IsApiKeyCaller(Resolve(users, caller).value)
  {
    hide Effective;
  }

  /** Unless what it read is stale, no session's write takes the last active owner out. */
  lemma LastRemovalIsStale(s: State, step: Step)
    requires Inv(s) && RemovesLast(s, step) && !s.tasks[step.pid].act.caller.Token?
    ensures s.tasks[step.pid].act.caller.Session? && Stale(s, s.tasks[step.pid])
  {
    hide Effective, DecideAs, Row, Stale, Inv, Owners, IsOwner;
    KeysNeverWrite(s, step.pid);
    if !Stale(s, s.tasks[step.pid]) { FreshWriterIsOwner(s, step.pid); }
  }

  // ---------- whole interleavings ----------

  predicate NoTokens(steps: seq<Step>) {
    forall i :: 0 <= i < |steps| && steps[i].Begin? ==> !steps[i].act.caller.Token?
  }

  predicate NoTokenTasks(s: State) {
    forall pid :: pid in s.tasks ==> !s.tasks[pid].act.caller.Token?
  }

  predicate AlwaysOwned(s: State, steps: seq<Step>)
    decreases steps
  {
    Owners(s.users) != {} && (steps != [] ==> AlwaysOwned(Next(s, steps[0]), steps[1..]))
  }

  predicate NoneRemovesLast(s: State, steps: seq<Step>)
    decreases steps
  {
    steps != [] ==> !RemovesLast(s, steps[0]) && NoneRemovesLast(Next(s, steps[0]), steps[1..])
  }

  /** No write over the only active owner is made on a stale reading. */
  predicate NoStaleRemoval(s: State, steps: seq<Step>)
    decreases steps
  {
    steps != [] ==>
      && !(RemovesLast(s, steps[0]) && Stale(s, s.tasks[steps[0].pid]))
      && NoStaleRemoval(Next(s, steps[0]), steps[1..])
  }

  /** In every interleaving, whoever calls, there always is an active owner exactly when no step takes the last one out. */
  lemma {:induction false} AlwaysOwnedExactly(s: State, steps: seq<Step>)
    requires Owners(s.users) != {}
    ensures AlwaysOwned(s, steps) <==> NoneRemovesLast(s, steps)
    decreases steps
  {
    hide Next, Owners, RemovesLast;
    if steps != [] {
      LastOwnerLostExactly(s, steps[0]);
      if Owners(Next(s, steps[0]).users) != {} { AlwaysOwnedExactly(Next(s, steps[0]), steps[1..]); }
    }
  }

  lemma StepNoTokens(s: State, step: Step)
    requires NoTokenTasks(s) && (step.Begin? ==> !step.act.caller.Token?)
    ensures NoTokenTasks(Next(s, step))
  {
    hide Resolve, DecideAs, StillActive, Written;
  }

  /**
   * In every interleaving of sessions' (and keys') requests, there always is an active owner exactly when no request that
   * decided on a stale reading takes the last one out.
   */
  lemma {:induction false} SessionsLoseOnlyByStaleWrites(s: State, steps: seq<Step>)
    requires Owners(s.users) != {} && Inv(s) && NoTokenTasks(s) && NoTokens(steps)
    ensures AlwaysOwned(s, steps) <==> NoStaleRemoval(s, steps)
    decreases steps
  {
    hide Next, Owners, RemovesLast, Stale, Inv, NoTokenTasks;
    if steps != [] {
      var step, next := steps[0], Next(s, steps[0]);
      LastOwnerLostExactly(s, step);
      StepKeeps(s, step);
      StepNoTokens(s, step);
      if RemovesLast(s, step) {
        TaskIsNoToken(s, step);
        LastRemovalIsStale(s, step);
      }
      assert forall i :: 0 <= i < |steps[1..]| ==> steps[1..][i] == steps[i + 1];
      if Owners(next.users) != {} {
        SessionsLoseOnlyByStaleWrites(next, steps[1..]);
      } else {
        NotOwned(next, steps[1..]);
      }
    }
  }

  lemma TaskIsNoToken(s: State, step: Step)
    requires NoTokenTasks(s) && RemovesLast(s, step)
    ensures step.pid in s.tasks && !s.tasks[step.pid].act.caller.Token?
  {
  }

  lemma NotOwned(s: State, steps: seq<Step>)
    requires Owners(s.users) == {}
    ensures !AlwaysOwned(s, steps)
  {
  }

  /** Nothing but the request itself has been written since it resolved its caller. */
  predicate Untouched(s: State, t: Task) {
    && t.asDecided == t.asResolved
    && (if t.phase == StatusWritten then
          Target(t.act) in t.asResolved && s.users == Written(t.asResolved, t.(phase := Checked))
        else s.users == t.asResolved)
  }

  /** Every write is by a request that no other one's write came between. */
  predicate Undisturbed(s: State, steps: seq<Step>)
    decreases steps
  {
    steps != [] ==>
      (WritesNow(s, steps[0]) ==> Untouched(s, s.tasks[steps[0].pid])) && Undisturbed(Next(s, steps[0]), steps[1..])
  }

  lemma UntouchedIsFresh(s: State, pid: nat)
    requires Inv(s) && pid in s.tasks && Untouched(s, s.tasks[pid]) && s.tasks[pid].phase in {Checked, StatusWritten}
    requires s.tasks[pid].act.PatchUser?
    ensures !Stale(s, s.tasks[pid])
  {
    hide Effective, DecideAs;
    var t := s.tasks[pid];
    assert Sound(t, s.users);
    DecidedOnOthers(t.asDecided, t.auth, t.act);
  }

  /** So when requests do not come between each other's reads and writes, an active owner always remains. */
  lemma {:induction false} UndisturbedKeepsOwner(s: State, steps: seq<Step>)
    requires Owners(s.users) != {} && Inv(s) && NoTokenTasks(s) && NoTokens(steps) && Undisturbed(s, steps)
    ensures AlwaysOwned(s, steps)
    decreases steps
  {
    hide Owners, IsOwner, Next, Stale, Inv, NoTokenTasks, Untouched;
    if steps != [] {
      var step := steps[0];
      LastOwnerLostExactly(s, step);
      StepKeeps(s, step);
      StepNoTokens(s, step);
      if RemovesLast(s, step) {
        TaskIsNoToken(s, step);
        LastRemovalIsStale(s, step);
        UntouchedIsFresh(s, step.pid);
      }
      assert forall i :: 0 <= i < |steps[1..]| ==> steps[1..][i] == steps[i + 1];
      UndisturbedKeepsOwner(Next(s, step), steps[1..]);
    }
  }

  /** Throughout the run the session's user is not active, and the request's number is not used again. */
  predicate SuspendedThroughout(s: State, steps: seq<Step>, caller: Caller, pid: nat)
    decreases steps
  {
    && !StillActive(s.users, caller)
    && (steps != [] ==>
          !(steps[0].Begin? && steps[0].pid == pid) && SuspendedThroughout(Next(s, steps[0]), steps[1..], caller, pid))
  }

  predicate NeverWrites(s: State, steps: seq<Step>, pid: nat)
    decreases steps
  {
    steps != [] ==>
      !(WritesNow(s, steps[0]) && steps[0].pid == pid) && NeverWrites(Next(s, steps[0]), steps[1..], pid)
  }

  predicate Unchecked(s: State, caller: Caller, pid: nat) {
    pid in s.tasks ==> s.tasks[pid].act.caller == caller && s.tasks[pid].phase in {Resolved, Decided}
  }

  lemma UncheckedStep(s: State, step: Step, caller: Caller, pid: nat)
    requires Unchecked(s, caller, pid) && !StillActive(s.users, caller) && !(step.Begin? && step.pid == pid)
    ensures Unchecked(Next(s, step), caller, pid) && !(WritesNow(s, step) && step.pid == pid)
  {
    hide Resolve, DecideAs, Written;
  }

  /** The re-check narrows it: in every interleaving, a request whose user is suspended before its re-check never writes. */
  lemma {:induction false} SuspendedBeforeCheck(s: State, steps: seq<Step>, caller: Caller, pid: nat)
    requires Unchecked(s, caller, pid) && SuspendedThroughout(s, steps, caller, pid)
    ensures NeverWrites(s, steps, pid)
    decreases steps
  {
    hide Next, Unchecked, StillActive, WritesNow;
    if steps != [] {
      UncheckedStep(s, steps[0], caller, pid);
      SuspendedBeforeCheck(Next(s, steps[0]), steps[1..], caller, pid);
    }
  }

  // ---------- two ways to lose both owners ----------

  /** Two active owners and no other. */
  predicate TwoOwners(users: Users, a: string, b: string) {
    && a != b && IsLower(a) && IsLower(b) && Owners(users) == {a, b}
    && !(API_KEY_SUBJECT_PREFIX <= a) && !(API_KEY_SUBJECT_PREFIX <= b)
  }

  const DEMOTE := Patch(None, Some(["analyst"]), None)

  function Suspends(caller: string, id: string): Act {
    PatchUser(Session(caller), id, SUSPEND)
  }

  function Demotes(caller: string, id: string): Act {
    PatchUser(Session(caller), id, DEMOTE)
  }

  lemma AnalystName()
    ensures KnownRole("analyst") == Some(Analyst) && Expand("analyst") == {Analyst}
    ensures Effective(Names(["analyst"])) == {Analyst}
  {
    assert Trimmed("analyst");
    TrimSpec("analyst");
    LowerFixes("analyst");
    assert Names(["analyst"]) == {"analyst"};
  }

  lemma OwnerMay(users: Users, a: string, b: string)
    requires TwoOwners(users, a, b)
    ensures Resolve(users, Session(a)) == Some(Context(a, Effective(users[a].roles)))
    ensures var auth := Context(a, Effective(users[a].roles));
      DecideAs(users, auth, Suspends(a, b)) == Done && DecideAs(users, auth, Demotes(a, b)) == Done
  {
    hide Expand, Effective, KnownRole, DecideAs;
    assert a in Owners(users) && b in Owners(users);
    LowerFixes(a);
    LowerFixes(b);
    var auth := Context(a, Effective(users[a].roles));
    OwnerSuspendsAnother(users, auth, Session(a), b);
    OwnerDemotesAnother(users, auth, b);
  }

  lemma OwnerDemotesAnother(users: Users, auth: Context, id: string)
    requires PlatformOwner in auth.roles && !IsApiKeyCaller(auth)
    requires IsLower(id) && id in users && !IsSameUserId(auth.subject, id)
    ensures DecideAs(users, auth, PatchUser(Session(auth.subject), id, DEMOTE)) == Done
  {
    hide Effective, Expand, KnownRole;
    LowerFixes(id);
    AdminHasReach(auth);
    AnalystName();
    forall r: Role ensures r in AllRoles() { InAllRoles(r); }
    UpdateAllowedExactly(auth, id, users[id], DEMOTE.roles, None);
  }

  /** The first request is ready to write: begun, decided and re-checked in one go. */
  lemma ReadyToWrite(s: State, pid: nat, act: Act)
    requires pid !in s.tasks && Resolve(s.users, act.caller).Some?
    requires DecideAs(s.users, Resolve(s.users, act.caller).value, act) == Done
    ensures var auth := Resolve(s.users, act.caller).value;
      Next(Next(Next(s, Begin(pid, act)), Advance(pid)), Advance(pid))
      == s.(tasks := s.tasks[pid := Task(act, auth, Checked, s.users, s.users, s.users)])
  {
    hide DecideAs;
  }

  /** Whenever there are two active owners, each suspending the other, both re-checked before either writes, leaves none. */
  lemma BothCheckedFirst(users: Users, a: string, b: string)
    requires TwoOwners(users, a, b)
    ensures var s1 := Run(State(users, map[]), [Begin(0, Suspends(a, b)), Advance(0), Advance(0)]);
      var s2 := Run(s1, [Begin(1, Suspends(b, a)), Advance(1), Advance(1)]);
      Owners(Run(s2, [Advance(0), Advance(1)]).users) == {}
  {
    hide Run, Effective, DecideAs, Resolve, Next;
    var s0 := State(users, map[]);
    OwnerMay(users, a, b);
    OwnerMay(users, b, a);
    var authA, authB := Resolve(users, Session(a)).value, Resolve(users, Session(b)).value;
    var one := Task(Suspends(a, b), authA, Checked, users, users, users);
    var two := Task(Suspends(b, a), authB, Checked, users, users, users);
    var s1, s2 := State(users, map[0 := one]), State(users, map[0 := one, 1 := two]);
    ReadyToWrite(s0, 0, Suspends(a, b));
    ReadyToWrite(s1, 1, Suspends(b, a));
    RunThree(s0, Begin(0, Suspends(a, b)), Advance(0), Advance(0));
    RunThree(s1, Begin(1, Suspends(b, a)), Advance(1), Advance(1));
    RunTwo(s2, Advance(0), Advance(1));
    LowerFixes(a);
    LowerFixes(b);
    assert a in Owners(users) && b in Owners(users);
    var mid := users[b := users[b].(status := "suspended")];
    WriteOnly(s2, 0, mid);
    WriteOnly(State(mid, map[1 := two]), 1, mid[a := mid[a].(status := "suspended")]);
    assert s2.tasks - {0} == map[1 := two];
    PatchedOwners(users, b, mid[b]);
    PatchedOwners(mid, a, mid[a].(status := "suspended"));
  }

  lemma WriteOnly(s: State, pid: nat, users: Users)
    requires pid in s.tasks && s.tasks[pid].phase == Checked && !RolesLeft(s.tasks[pid])
    requires users == Written(s.users, s.tasks[pid])
    ensures Next(s, Advance(pid)) == State(users, s.tasks - {pid})
  {
  }

  /**
   * The re-check reads the status alone: an owner who decided before losing the role, but is still active, passes it and
   * suspends the other.
   */
  lemma RolesTakenMeanwhile(users: Users, a: string, b: string)
    requires TwoOwners(users, a, b)
    ensures var s1 := Run(State(users, map[]), [Begin(0, Suspends(a, b)), Advance(0)]);
      var s2 := Run(s1, [Begin(1, Demotes(b, a)), Advance(1), Advance(1)]);
      var s3 := Run(s2, [Advance(1)]);
      Owners(s3.users) == {b} && Owners(Run(s3, [Advance(0), Advance(0)]).users) == {}
  {
    hide Run, Effective, DecideAs, Resolve, Next;
    var s0 := State(users, map[]);
    OwnerMay(users, a, b);
    OwnerMay(users, b, a);
    var authA, authB := Resolve(users, Session(a)).value, Resolve(users, Session(b)).value;
    var decided := Task(Suspends(a, b), authA, Decided, users, users, users);
    var two := Task(Demotes(b, a), authB, Checked, users, users, users);
    var s1, s2 := State(users, map[0 := decided]), State(users, map[0 := decided, 1 := two]);
    FirstDecides(s0, 0, Suspends(a, b));
    RunTwo(s0, Begin(0, Suspends(a, b)), Advance(0));
    ReadyToWrite(s1, 1, Demotes(b, a));
    RunThree(s1, Begin(1, Demotes(b, a)), Advance(1), Advance(1));
    LowerFixes(a);
    LowerFixes(b);
    AnalystName();
    assert a in Owners(users) && b in Owners(users);
    var mid := users[a := users[a].(roles := Names(["analyst"]))];
    WriteOnly(s2, 1, mid);
    RunOne(s2, Advance(1));
    var s3 := State(mid, map[0 := decided]);
    assert s2.tasks - {1} == map[0 := decided];
    PatchedOwners(users, a, mid[a]);
    var last := decided.(phase := Checked, asChecked := mid);
    RecheckOnly(s3, 0);
    assert s3.tasks[0 := last] == map[0 := last];
    RunTwo(s3, Advance(0), Advance(0));
    WriteOnly(State(mid, map[0 := last]), 0, mid[b := mid[b].(status := "suspended")]);
    PatchedOwners(mid, b, mid[b].(status := "suspended"));
  }

  lemma FirstDecides(s: State, pid: nat, act: Act)
    requires pid !in s.tasks && Resolve(s.users, act.caller).Some?
    requires DecideAs(s.users, Resolve(s.users, act.caller).value, act) == Done
    ensures Next(Next(s, Begin(pid, act)), Advance(pid))
         == s.(tasks := s.tasks[pid := Task(act, Resolve(s.users, act.caller).value, Decided, s.users, s.users, s.users)])
  {
    hide DecideAs;
  }

  lemma RecheckOnly(s: State, pid: nat)
    requires pid in s.tasks && s.tasks[pid].phase == Decided && StillActive(s.users, s.tasks[pid].act.caller)
    ensures Next(s, Advance(pid)) == s.(tasks := s.tasks[pid := s.tasks[pid].(phase := Checked, asChecked := s.users)])
  {
  }

  lemma RunOne(s: State, a: Step)
    ensures Run(s, [a]) == Next(s, a)
  {
    hide Next;
    assert [a][1..] == [];
    assert Run(Next(s, a), []) == Next(s, a);
  }

  lemma RunTwo(s: State, a: Step, b: Step)
    ensures Run(s, [a, b]) == Next(Next(s, a), b)
  {
    hide Next;
    assert [a, b][1..] == [b];
    RunOne(Next(s, a), b);
  }

  lemma RunThree(s: State, a: Step, b: Step, c: Step)
    ensures Run(s, [a, b, c]) == Next(Next(Next(s, a), b), c)
  {
    hide Next;
    assert [a, b, c][1..] == [b, c];
    RunTwo(Next(s, a), b, c);
  }

  // ---------- one request alone ----------

  function Alone(pid: nat, act: Act): seq<Step> {
    [Begin(pid, act), Advance(pid), Advance(pid), Advance(pid), Advance(pid)]
  }

  lemma RunStep(s: State, step: Step, rest: seq<Step>)
    ensures Run(s, [step] + rest) == Run(Next(s, step), rest)
  {
  }

  lemma Replaced(base: map<nat, Task>, pid: nat, t: Task, u: Task)
    requires pid !in base
    ensures base[pid := t][pid := u] == base[pid := u] && base[pid := t] - {pid} == base
  {
  }

  /** One step of the only request in sight. */
  lemma AdvanceOne(users: Users, base: map<nat, Task>, pid: nat, t: Task)
    requires pid !in base
    ensures Next(State(users, base), Advance(pid)) == State(users, base)
    ensures Next(State(users, base[pid := t]), Advance(pid)) ==
      match t.phase
      case Resolved =>
        if DecideAs(users, t.auth, t.act) != Done then State(users, base)
        else State(users, base[pid := t.(phase := Decided, asDecided := users)])
      case Decided =>
        if !StillActive(users, t.act.caller) then State(users, base)
        else State(users, base[pid := t.(phase := Checked, asChecked := users)])
      case Checked => State(Written(users, t), if RolesLeft(t) then base[pid := t.(phase := StatusWritten)] else base)
      case StatusWritten => State(Written(users, t), base)
  {
    hide DecideAs, StillActive, Written, RolesLeft;
    Replaced(base, pid, t, t.(phase := Decided, asDecided := users));
    Replaced(base, pid, t, t.(phase := Checked, asChecked := users));
    Replaced(base, pid, t, t.(phase := StatusWritten));
  }

  /** The statements of an accepted request, one after the other, write what it asks for. */
  lemma WritesAll(users: Users, t: Task)
    requires t.phase == Checked && DecideAs(users, t.auth, t.act) == Done
    ensures var first := Written(users, t);
      UserAdmin.Write(users, t.act) == if RolesLeft(t) then Written(first, t.(phase := StatusWritten)) else first
  {
    hide AuthorizeUserUpdate, AuthorizeIdentityAdmin, AuthorizeRoleGrant, KnownRole;
  }

  /** A request nobody else writes between does exactly what it does taken as one step, and leaves nothing in flight. */
  lemma AloneIsOneStep(s: State, pid: nat, act: Act)
    requires pid !in s.tasks
    ensures Run(s, Alone(pid, act)) == State(UserAdmin.Next(s.users, act), s.tasks)
  {
    hide Run, Resolve, DecideAs, StillActive, Written, UserAdmin.Write, RolesLeft, Advanced;
    var s1 := Next(s, Begin(pid, act));
    var s2 := Next(s1, Advance(pid));
    var s3 := Next(s2, Advance(pid));
    var s4 := Next(s3, Advance(pid));
    FiveSteps(s, pid, act);
    var auth, users := Resolve(s.users, act.caller), s.users;
    assert State(users, s.tasks) == s;
    if auth.None? {
      AdvanceOne(users, s.tasks, pid, Task(act, Context("", {}), Resolved, users, users, users));
    } else {
      var t := Task(act, auth.value, Resolved, users, users, users);
      AdvanceOne(users, s.tasks, pid, t);
      if DecideAs(users, auth.value, act) == Done {
        var decided := t.(phase := Decided, asDecided := users);
        var checked := decided.(phase := Checked, asChecked := users);
        AdvanceOne(users, s.tasks, pid, decided);
        if StillActive(users, act.caller) {
          WritesAll(users, checked);
          AdvanceOne(users, s.tasks, pid, checked);
          AdvanceOne(Written(users, checked), s.tasks, pid, checked.(phase := StatusWritten));
        }
      }
    }
  }

  lemma FiveSteps(s: State, pid: nat, act: Act)
    ensures var s1 := Next(s, Begin(pid, act)); var s2 := Next(s1, Advance(pid)); var s3 := Next(s2, Advance(pid));
      Run(s, Alone(pid, act)) == Next(Next(s3, Advance(pid)), Advance(pid))
  {
    hide Run, Next;
    var s1 := Next(s, Begin(pid, act));
    var s2 := Next(s1, Advance(pid));
    var s3 := Next(s2, Advance(pid));
    var s4 := Next(s3, Advance(pid));
    RunStep(s, Begin(pid, act), [Advance(pid), Advance(pid), Advance(pid), Advance(pid)]);
    RunStep(s1, Advance(pid), [Advance(pid), Advance(pid), Advance(pid)]);
    RunStep(s2, Advance(pid), [Advance(pid), Advance(pid)]);
    RunStep(s3, Advance(pid), [Advance(pid)]);
    RunStep(s4, Advance(pid), []);
    RunNone(Next(s4, Advance(pid)));
    assert Alone(pid, act) == [Begin(pid, act)] + [Advance(pid), Advance(pid), Advance(pid), Advance(pid)];
    var one := Advance(pid);
    assert [one, one, one, one] == [one] + [one, one, one] && [one, one, one] == [one] + [one, one];
    assert [one, one] == [one] + [one] && [one] == [one] + [];
  }

  /** A directory with no request in flight is where runs start. */
  lemma QuietIsSound(users: Users)
    ensures Inv(State(users, map[])) && NoTokenTasks(State(users, map[]))
  {
  }

  lemma RunNone(s: State)
    ensures Run(s, []) == s
  {
  }

  /** A request that dies writes nothing more. */
  lemma {:induction false} AbandonedWritesNothing(s: State, pid: nat, n: nat)
    ensures Run(Next(s, Abandon(pid)), seq(n, _ => Advance(pid))).users == s.users
    ensures n > 0 ==> Run(Next(s, Abandon(pid)), seq(n, _ => Advance(pid))) == Next(s, Abandon(pid))
  {
    var steps := seq(n, _ => Advance(pid));
    if n > 0 {
      assert steps[1..] == seq(n - 1, _ => Advance(pid));
      AbandonedWritesNothing(s, pid, n - 1);
      assert Next(Next(s, Abandon(pid)), steps[0]) == Next(s, Abandon(pid));
    }
  }
}
