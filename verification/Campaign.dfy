/**
 * The life of one campaign: the run, schedule, test-send, pause, resume and cancel requests of
 * services/api-gateway/src/index.ts over the compare-and-swap writes of packages/persistence/src/repositories.ts.
 * A request is a task that takes one database transaction at a time; any number of tasks interleave.
 */
module Campaign {
  datatype Status = Draft | Scheduled | Running | Paused | Completed | Cancelled

  datatype Outcome = Pending | Sent | Delivered | Read | Failed | PolicySkipped

  datatype Event = RunRequested | DispatchRequested

  datatype Action = Pause | Resume | Cancel

  const CHUNK := 200

  /** CAMPAIGN_TRANSITIONS. */
  function From(a: Action): set<Status> {
    match a
    case Pause => {Running, Scheduled}
    case Resume => {Paused}
    case Cancel => {Draft, Scheduled, Running, Paused}
  }

  function To(a: Action): Status {
    match a
    case Pause => Paused
    case Resume => Running
    case Cancel => Cancelled
  }

  /** Where a request (or the scheduler) may start a run from. */
  function StartableFrom(scheduled: bool): set<Status> {
    if scheduled then {Scheduled} else {Draft, Paused}
  }

  type Recipients = map<string, Outcome>

  datatype Table = Table(status: Status, recipients: Recipients, outbox: seq<Event>)

  // ---------- the transactions ----------

  function Distinct(contacts: seq<string>): set<string> {
    set c | c in contacts
  }

  /** INSERT … ON CONFLICT DO NOTHING: new contacts become pending, known ones keep their outcome. */
  function Inserted(r: Recipients, contacts: set<string>): Recipients {
    map id | id in r.Keys + contacts :: if id in r then r[id] else Pending
  }

  lemma InsertedNone(r: Recipients, contacts: seq<string>)
    ensures Inserted(r, Distinct(contacts[..0])) == r
  {
  }

  lemma InsertedOne(r: Recipients, contacts: seq<string>, j: nat)
    requires j < |contacts|
    ensures var before, after := Inserted(r, Distinct(contacts[..j])), Inserted(r, Distinct(contacts[..j + 1]));
      after == if contacts[j] in before then before else before[contacts[j] := Pending]
  {
    assert contacts[..j + 1] == contacts[..j] + [contacts[j]];
  }

  /** cancelPending. */
  function Retired(r: Recipients): Recipients {
    map id | id in r :: if r[id] == Pending then PolicySkipped else r[id]
  }

  /** The status flip and its event commit together. */
  function Swapped(t: Table, a: Action): Table {
    if t.status !in From(a) then t
    else t.(status := To(a), outbox := if a == Resume then t.outbox + [RunRequested] else t.outbox)
  }

  function Started(t: Table, scheduled: bool): Table {
    if t.status !in StartableFrom(scheduled) then t
    else t.(status := Running, outbox := t.outbox + [RunRequested])
  }

  /** A single-number test send promotes only a campaign that is not stopped; the send is queued either way. */
  function TestSent(t: Table): Table {
    t.(status := if t.status in {Draft, Scheduled, Running} then Running else t.status,
       outbox := t.outbox + [DispatchRequested])
  }

  /** complete_drained_campaigns, for this campaign. */
  function Swept(t: Table): Table {
    if t.status == Running && t.recipients != map[] && PendingIn(t.recipients) == {} then t.(status := Completed)
    else t
  }

  function PendingIn(r: Recipients): set<string> {
    With(r, Pending)
  }

  function With(r: Recipients, o: Outcome): set<string> {
    set id | id in r && r[id] == o
  }

  // ---------- the repository ----------

  class CampaignRepository {
    var status: Status
    var recipients: Recipients
    var outbox: seq<Event>

    ghost function Contents(): Table
      reads this
    {
      Table(status, recipients, outbox)
    }

    /** campaigns are created scheduled when a time was given, draft otherwise. */
    constructor (scheduledAt: bool)
      ensures Contents() == Table(if scheduledAt then Scheduled else Draft, map[], [])
    {
      status, recipients, outbox := if scheduledAt then Scheduled else Draft, map[], [];
    }

    /** insertBatch: one transaction per CHUNK contacts, one row at a time. */
    method InsertBatch(contacts: seq<string>)
      modifies this`recipients
      ensures recipients == Inserted(old(recipients), Distinct(contacts))
    {
      hide Inserted;
      InsertedNone(recipients, contacts);
      var i := 0;
      while i < |contacts|
        invariant 0 <= i <= |contacts|
        invariant recipients == Inserted(old(recipients), Distinct(contacts[..i]))
      {
        var end := if i + CHUNK < |contacts| then i + CHUNK else |contacts|;
        for j := i to end
          invariant recipients == Inserted(old(recipients), Distinct(contacts[..j]))
        {
          InsertedOne(old(recipients), contacts, j);
          if contacts[j] !in recipients {
            recipients := recipients[contacts[j] := Pending];
          }
        }
        i := end;
      }
      assert contacts[..|contacts|] == contacts;
    }

    /** transition, with resume's enqueue in the same transaction. */
    method Transition(a: Action) returns (applied: bool)
      modifies this`status, this`outbox
      ensures Contents() == Swapped(old(Contents()), a)
      ensures applied <==> old(status) in From(a)
    {
      applied := status in From(a);
      if applied {
        status := To(a);
        if a == Resume {
          outbox := outbox + [RunRequested];
        }
      }
    }

    method ClaimRun(scheduled: bool) returns (claimed: bool)
      modifies this`status, this`outbox
      ensures Contents() == Started(old(Contents()), scheduled)
      ensures claimed <==> old(status) in StartableFrom(scheduled)
    {
      claimed := status in StartableFrom(scheduled);
      if claimed {
        status := Running;
        outbox := outbox + [RunRequested];
      }
    }

    method TestSend()
      modifies this`status, this`outbox
      ensures Contents() == TestSent(old(Contents()))
    {
      if status == Draft || status == Scheduled || status == Running {
        status := Running;
      }
      outbox := outbox + [DispatchRequested];
    }

    /** cancelPending returns how many it retired; it touches nothing that is not pending. */
    method CancelPending() returns (retired: nat)
      modifies this`recipients
      ensures recipients == Retired(old(recipients))
      ensures retired == |PendingIn(old(recipients))|
      ensures PendingIn(recipients) == {}
    {
      var pending := PendingIn(recipients);
      retired := |pending|;
      recipients := map id | id in recipients :: if id in pending then PolicySkipped else recipients[id];
    }
  }

  // ---------- interleaved requests ----------

  /** What a request still has to do. The contacts were resolved before the first insert. */
  datatype Task =
    | Insert(contacts: seq<string>, scheduled: bool)
    | Start(scheduled: bool)
    | Swap(action: Action)
    | Retire

  datatype State = State(table: Table, tasks: map<nat, Task>)

  datatype Step =
    | AskRun(pid: nat, contacts: seq<string>)
    | SchedulerFinds(pid: nat, contacts: seq<string>)
    | Ask(pid: nat, action: Action)
    | Advance(pid: nat)
    | Abandon(pid: nat)
    | TestSend
    | Sweep
    | Resolve(id: string, outcome: Outcome)

  function Chunk(contacts: seq<string>): (n: nat)
    ensures n <= |contacts| && n <= CHUNK && (n < |contacts| ==> n == CHUNK)
  {
    if |contacts| < CHUNK then |contacts| else CHUNK
  }

  function Advanced(s: State, pid: nat): State
    requires pid in s.tasks
  {
    var rest := s.tasks - {pid};
    match s.tasks[pid]
    case Insert(contacts, scheduled) =>
      var n := Chunk(contacts);
      State(s.table.(recipients := Inserted(s.table.recipients, Distinct(contacts[..n]))),
            s.tasks[pid := if n == |contacts| then Start(scheduled) else Insert(contacts[n..], scheduled)])
    case Start(scheduled) => State(Started(s.table, scheduled), rest)
    case Swap(a) =>
      State(Swapped(s.table, a), if a == Cancel && s.table.status in From(Cancel) then s.tasks[pid := Retire] else rest)
    case Retire => State(s.table.(recipients := Retired(s.table.recipients)), rest)
  }

  /**
   * One atomic step. A request first reads the status and is refused if that is wrong; its writes come later, against
   * whatever the status is by then. A task may also die at any point.
   */
  function Next(s: State, step: Step): State {
    match step
    case AskRun(pid, contacts) =>
      if pid !in s.tasks && s.table.status in StartableFrom(false) && contacts != [] then
        s.(tasks := s.tasks[pid := Insert(contacts, false)])
      else s
    case SchedulerFinds(pid, contacts) =>
      if pid !in s.tasks && s.table.status == Scheduled then s.(tasks := s.tasks[pid := Insert(contacts, true)]) else s
    case Ask(pid, a) =>
      if pid !in s.tasks && s.table.status in From(a) then s.(tasks := s.tasks[pid := Swap(a)]) else s
    case Advance(pid) => if pid in s.tasks then Advanced(s, pid) else s
    case Abandon(pid) => s.(tasks := s.tasks - {pid})
    case TestSend => s.(table := TestSent(s.table))
    case Sweep => s.(table := Swept(s.table))
    case Resolve(id, o) =>
      if id in s.table.recipients && o != Pending then s.(table := s.table.(recipients := s.table.recipients[id := o]))
      else s
  }

  function Run(s: State, steps: seq<Step>): State
    decreases steps
  {
    if steps == [] then s else Run(Next(s, steps[0]), steps[1..])
  }

  function Initial(scheduledAt: bool): State {
    State(Table(if scheduledAt then Scheduled else Draft, map[], []), map[])
  }

  // ---------- what every run keeps ----------

  /** A cancelled (or completed) campaign stays so, whatever requests were already in flight. */
  lemma {:induction false} ClosedForever(s: State, steps: seq<Step>)
    requires s.table.status in {Completed, Cancelled}
    ensures Run(s, steps).table.status == s.table.status
    decreases steps
  {
    if steps != [] { ClosedForever(Next(s, steps[0]), steps[1..]); }
  }

  /** How often the campaign goes from not running to running otherwise than by a test send. */
  function Entries(s: State, steps: seq<Step>): nat
    decreases steps
  {
    if steps == [] then 0 else (if IsEntry(s, steps[0]) then 1 else 0) + Entries(Next(s, steps[0]), steps[1..])
  }

  predicate IsEntry(s: State, step: Step) {
    s.table.status != Running && Next(s, step).table.status == Running && !step.TestSend?
  }

  function Adds(s: State, step: Step): seq<Event> {
    if step.TestSend? then [DispatchRequested] else if IsEntry(s, step) then [RunRequested] else []
  }

  lemma StepAdds(s: State, step: Step)
    ensures Next(s, step).table.outbox == s.table.outbox + Adds(s, step)
  {
  }

  lemma EntryStep(s: State, step: Step)
    ensures var was, now := s.table.outbox, Next(s, step).table.outbox;
      && Count(now, RunRequested) == Count(was, RunRequested) + (if IsEntry(s, step) then 1 else 0)
      && Count(now, DispatchRequested) == Count(was, DispatchRequested) + (if step.TestSend? then 1 else 0)
  {
    hide Next;
    StepAdds(s, step);
  }

  function TestSends(steps: seq<Step>): nat {
    if steps == [] then 0 else (if steps[0].TestSend? then 1 else 0) + TestSends(steps[1..])
  }

  function Count(events: seq<Event>, e: Event): nat {
    multiset(events)[e]
  }

  /**
   * Each run, resume and scheduler entry to running adds exactly one run event in the same step, nothing else adds one,
   * and each test send adds exactly one dispatch event.
   */
  lemma {:induction false} OneRunEventPerEntry(s: State, steps: seq<Step>)
    ensures Count(Run(s, steps).table.outbox, RunRequested) == Count(s.table.outbox, RunRequested) + Entries(s, steps)
    ensures Count(Run(s, steps).table.outbox, DispatchRequested)
         == Count(s.table.outbox, DispatchRequested) + TestSends(steps)
    decreases steps
  {
    hide Next, IsEntry, Count;
    if steps != [] {
      EntryStep(s, steps[0]);
      OneRunEventPerEntry(Next(s, steps[0]), steps[1..]);
    }
  }

  /** No recipient is ever dropped, and one that left pending never becomes pending again. */
  lemma {:induction false} OutcomesStand(s: State, steps: seq<Step>, id: string)
    requires id in s.table.recipients
    ensures id in Run(s, steps).table.recipients
    ensures s.table.recipients[id] != Pending ==> Run(s, steps).table.recipients[id] != Pending
    decreases steps
  {
    if steps != [] { OutcomesStand(Next(s, steps[0]), steps[1..], id); }
  }

  /** Only writing a recipient's own outcome changes it, but for a cancel, which skips it if it is still pending. */
  lemma {:induction false} OutcomeIsItsOwn(s: State, steps: seq<Step>, id: string)
    requires id in s.table.recipients
    requires forall i :: 0 <= i < |steps| ==> !(steps[i].Resolve? && steps[i].id == id)
    ensures id in Run(s, steps).table.recipients
    ensures var was, now := s.table.recipients[id], Run(s, steps).table.recipients[id];
      now == was || (was == Pending && now == PolicySkipped)
    decreases steps
  {
    hide Next;
    if steps != [] {
      OutcomeStep(s, steps[0], id);
      assert forall i :: 0 <= i < |steps[1..]| ==> steps[1..][i] == steps[i + 1];
      OutcomeIsItsOwn(Next(s, steps[0]), steps[1..], id);
    }
  }

  lemma OutcomeStep(s: State, step: Step, id: string)
    requires id in s.table.recipients && !(step.Resolve? && step.id == id)
    ensures id in Next(s, step).table.recipients
    ensures var was, now := s.table.recipients[id], Next(s, step).table.recipients[id];
      now == was || (was == Pending && now == PolicySkipped && step.Advance?)
  {
  }

  // ---------- what an undisturbed request achieves ----------

  /** Whatever else is in flight, a cancel that runs undisturbed stops any open campaign and leaves nothing pending. */
  lemma CancelWorks(s: State, pid: nat)
    requires pid !in s.tasks && s.table.status !in {Completed, Cancelled}
    ensures var t := Run(s, [Ask(pid, Cancel), Advance(pid), Advance(pid)]);
      && t.table.status == Cancelled && PendingIn(t.table.recipients) == {} && t.tasks == s.tasks
      && t.table.recipients.Keys == s.table.recipients.Keys && t.table.outbox == s.table.outbox
      && With(t.table.recipients, PolicySkipped) == With(s.table.recipients, PolicySkipped) + PendingIn(s.table.recipients)
      && forall o :: o !in {Pending, PolicySkipped} ==> With(t.table.recipients, o) == With(s.table.recipients, o)
  {
    hide Run;
    var steps := [Ask(pid, Cancel), Advance(pid), Advance(pid)];
    assert steps[1..] == [Advance(pid), Advance(pid)];
    RunFirst(s, steps);
    RunTwo(Next(s, Ask(pid, Cancel)), Advance(pid), Advance(pid));
  }

  /** Pausing and resuming keeps every recipient as it was and hands the run to the worker once more. */
  lemma PauseThenResume(s: State, pid: nat)
    requires pid !in s.tasks && s.table.status in {Running, Scheduled}
    ensures var paused := Run(s, [Ask(pid, Pause), Advance(pid)]);
      && paused == State(s.table.(status := Paused), s.tasks)
      && Run(paused, [Ask(pid, Resume), Advance(pid)])
         == State(s.table.(status := Running, outbox := s.table.outbox + [RunRequested]), s.tasks)
  {
    hide Run;
    RunTwo(s, Ask(pid, Pause), Advance(pid));
    var paused := State(s.table.(status := Paused), s.tasks);
    RunTwo(paused, Ask(pid, Resume), Advance(pid));
  }

  /** An action that runs undisturbed takes effect exactly from the statuses it is legal from; else it leaves no trace. */
  lemma ActionExactly(s: State, pid: nat, a: Action)
    requires pid !in s.tasks
    ensures var legal := match a
        case Pause => s.table.status == Running || s.table.status == Scheduled
        case Resume => s.table.status == Paused
        case Cancel => s.table.status != Completed && s.table.status != Cancelled;
      var t := Run(s, [Ask(pid, a), Advance(pid)]);
      if !legal then t == s == Next(s, Ask(pid, a))
      else t.table.status == match a case Pause => Paused case Resume => Running case Cancel => Cancelled
  {
    hide Run;
    RunTwo(s, Ask(pid, a), Advance(pid));
  }

  /** A request that dies does nothing more. */
  lemma {:induction false} AbandonedDoesNothing(s: State, pid: nat, n: nat)
    ensures Run(Next(s, Abandon(pid)), Advances(pid, n)) == State(s.table, s.tasks - {pid})
  {
    var steps := Advances(pid, n);
    if n > 0 {
      assert steps[1..] == Advances(pid, n - 1);
      AbandonedDoesNothing(s, pid, n - 1);
    }
  }

  function Advances(pid: nat, n: nat): (steps: seq<Step>)
    ensures |steps| == n && forall i :: 0 <= i < n ==> steps[i] == Advance(pid)
  {
    seq(n, _ => Advance(pid))
  }

  /** The campaign runs, its run event is queued, and the contacts not yet among its recipients are pending. */
  predicate StartedWith(before: Table, after: Table, contacts: seq<string>) {
    && after.status == Running && after.outbox == before.outbox + [RunRequested]
    && after.recipients.Keys == before.recipients.Keys + (set c | c in contacts)
    && forall id :: id in after.recipients ==>
         after.recipients[id] == if id in before.recipients then before.recipients[id] else Pending
  }

  lemma {:induction false} InsertStarts(s: State, pid: nat) returns (n: nat)
    requires pid in s.tasks && s.tasks[pid].Insert? && s.table.status in StartableFrom(s.tasks[pid].scheduled)
    ensures var t := Run(s, Advances(pid, n));
      t.tasks == s.tasks - {pid} && StartedWith(s.table, t.table, s.tasks[pid].contacts)
    decreases |s.tasks[pid].contacts|
  {
    hide Run;
    var contacts, next := s.tasks[pid].contacts, Next(s, Advance(pid));
    var k := Chunk(contacts);
    assert contacts == contacts[..k] + contacts[k..];
    if k == |contacts| {
      n := 2;
      assert Advances(pid, 2) == [Advance(pid), Advance(pid)];
      RunTwo(s, Advance(pid), Advance(pid));
    } else {
      assert next.tasks[pid].contacts == contacts[k..] && next.tasks - {pid} == s.tasks - {pid};
      var m := InsertStarts(next, pid);
      n := m + 1;
      assert Advances(pid, n)[1..] == Advances(pid, m);
      RunFirst(s, Advances(pid, n));
      StartedLater(s.table, next.table, Run(s, Advances(pid, n)).table, contacts, k);
    }
  }

  lemma StartedLater(before: Table, between: Table, after: Table, contacts: seq<string>, k: nat)
    requires k <= |contacts| && StartedWith(between, after, contacts[k..])
    requires between.outbox == before.outbox
    requires between.recipients.Keys == before.recipients.Keys + (set c | c in contacts[..k])
    requires forall id :: id in between.recipients ==>
      between.recipients[id] == if id in before.recipients then before.recipients[id] else Pending
    ensures StartedWith(before, after, contacts)
  {
    assert contacts == contacts[..k] + contacts[k..];
  }

  /**
   * A run request that runs undisturbed starts the campaign exactly when it is a draft or paused and the audience is not
   * empty, and the scheduler exactly when it is scheduled; otherwise nothing happens.
   */
  lemma RunExactly(s: State, pid: nat, contacts: seq<string>, scheduled: bool) returns (n: nat)
    requires pid !in s.tasks
    ensures var legal := if scheduled then s.table.status == Scheduled
                         else (s.table.status == Draft || s.table.status == Paused) && contacts != [];
      var asked := Next(s, if scheduled then SchedulerFinds(pid, contacts) else AskRun(pid, contacts));
      if !legal then asked == s
      else
        var t := Run(asked, Advances(pid, n));
        t.tasks == s.tasks && StartedWith(s.table, t.table, contacts)
  {
    hide Run, StartedWith;
    var asked := Next(s, if scheduled then SchedulerFinds(pid, contacts) else AskRun(pid, contacts));
    n := 0;
    if asked != s {
      n := InsertStarts(asked, pid);
      assert asked.tasks - {pid} == s.tasks;
    }
  }

  /** A campaign created with a time is started by the scheduler, one without by a run request. */
  lemma NewCampaignRuns(scheduledAt: bool, contacts: seq<string>) returns (n: nat)
    requires contacts != []
    ensures var s := Initial(scheduledAt);
      var t := Run(Next(s, if scheduledAt then SchedulerFinds(0, contacts) else AskRun(0, contacts)), Advances(0, n));
      t.table.status == Running && t.table.outbox == [RunRequested]
  {
    hide Run;
    n := RunExactly(Initial(scheduledAt), 0, contacts, scheduledAt);
  }

  // ---------- completion ----------

  /** The sweep finds the campaign running, with recipients, none of them pending. */
  predicate SweptDrained(s: State, step: Step) {
    && step.Sweep? && s.table.status == Running && |s.table.recipients| > 0
    && forall id :: id in s.table.recipients ==> s.table.recipients[id] != Pending
  }

  predicate EverSweptDrained(s: State, steps: seq<Step>)
    decreases steps
  {
    steps != [] && (SweptDrained(s, steps[0]) || EverSweptDrained(Next(s, steps[0]), steps[1..]))
  }

  lemma CompletesStep(s: State, step: Step)
    ensures Next(s, step).table.status == Completed <==> s.table.status == Completed || SweptDrained(s, step)
  {
    if step.Sweep? && s.table.status == Running {
      assert s.table.recipients != map[] <==> |s.table.recipients| > 0;
      assert PendingIn(s.table.recipients) == {} <==>
        forall id :: id in s.table.recipients ==> s.table.recipients[id] != Pending by {
        forall id | id in s.table.recipients && s.table.recipients[id] == Pending
          ensures id in PendingIn(s.table.recipients)
        {
        }
      }
    }
  }

  /** Over every interleaving, a campaign is completed exactly when some sweep has found it running and drained. */
  lemma {:induction false} CompletedExactly(s: State, steps: seq<Step>)
    ensures Run(s, steps).table.status == Completed <==> s.table.status == Completed || EverSweptDrained(s, steps)
    decreases steps
  {
    hide Next, SweptDrained;
    if steps != [] {
      CompletesStep(s, steps[0]);
      CompletedExactly(Next(s, steps[0]), steps[1..]);
      if Next(s, steps[0]).table.status == Completed { ClosedForever(Next(s, steps[0]), steps[1..]); }
    }
  }

  /** An outcome that was written stands until another is. */
  lemma ResolvedStands(s: State, id: string, o: Outcome, steps: seq<Step>)
    requires id in s.table.recipients && o != Pending
    requires forall i :: 0 <= i < |steps| ==> !(steps[i].Resolve? && steps[i].id == id)
    ensures id in Run(Next(s, Resolve(id, o)), steps).table.recipients
    ensures Run(Next(s, Resolve(id, o)), steps).table.recipients[id] == o
  {
    OutcomeIsItsOwn(Next(s, Resolve(id, o)), steps, id);
  }

  lemma RunFirst(s: State, steps: seq<Step>)
    requires steps != []
    ensures Run(s, steps) == Run(Next(s, steps[0]), steps[1..])
  {
  }

  lemma RunTwo(s: State, a: Step, b: Step)
    ensures Run(s, [a, b]) == Next(Next(s, a), b)
  {
    hide Run, Next;
    assert [a, b][1..] == [b] && [b][1..] == [];
    RunFirst(s, [a, b]);
    RunFirst(Next(s, a), [b]);
    RunNone(Next(Next(s, a), b));
  }

  lemma RunNone(s: State)
    ensures Run(s, []) == s
  {
  }

  // ---------- status counts ----------

  function CountsSum(r: Recipients): nat {
    |With(r, Pending)| + |With(r, Sent)| + |With(r, Delivered)| + |With(r, Read)| + |With(r, Failed)|
    + |With(r, PolicySkipped)|
  }

  /** The funnel's counts always add up to the audience. */
  lemma CountsSumToAudience(r: Recipients)
    ensures CountsSum(r) == |r|
  {
    hide With;
    var p, n, d, e, f, k := With(r, Pending), With(r, Sent), With(r, Delivered), With(r, Read), With(r, Failed),
      With(r, PolicySkipped);
    WithPartition(r);
    Apart(p, n);
    Apart(p + n, d);
    Apart(p + n + d, e);
    Apart(p + n + d + e, f);
    Apart(p + n + d + e + f, k);
  }

  lemma WithPartition(r: Recipients)
    ensures forall o, o' :: o != o' ==> With(r, o) !! With(r, o')
    ensures With(r, Pending) + With(r, Sent) + With(r, Delivered) + With(r, Read) + With(r, Failed)
            + With(r, PolicySkipped) == r.Keys
  {
  }

  lemma Apart<T>(a: set<T>, b: set<T>)
    requires a !! b
    ensures |a + b| == |a| + |b|
  {
  }

  /** Everyone a step sequence has inserted. */
  function Reached(s: State, steps: seq<Step>): set<string>
    decreases steps
  {
    if steps == [] then {} else Reaches(s, steps[0]) + Reached(Next(s, steps[0]), steps[1..])
  }

  function Reaches(s: State, step: Step): set<string> {
    if step.Advance? && step.pid in s.tasks && s.tasks[step.pid].Insert? then
      var contacts := s.tasks[step.pid].contacts;
      Distinct(contacts[..Chunk(contacts)])
    else {}
  }

  lemma ReachStep(s: State, step: Step)
    ensures Next(s, step).table.recipients.Keys == s.table.recipients.Keys + Reaches(s, step)
  {
  }

  /** So at the end of every run the counts add up to exactly those inserted, each counted once. */
  lemma {:induction false} AudienceIsWhoWasInserted(s: State, steps: seq<Step>)
    ensures Run(s, steps).table.recipients.Keys == s.table.recipients.Keys + Reached(s, steps)
    ensures CountsSum(Run(s, steps).table.recipients) == |s.table.recipients.Keys + Reached(s, steps)|
    decreases steps
  {
    hide CountsSum, Next, Reaches;
    if steps != [] {
      ReachStep(s, steps[0]);
      AudienceIsWhoWasInserted(Next(s, steps[0]), steps[1..]);
    }
    CountsSumToAudience(Run(s, steps).table.recipients);
  }

  // ---------- does the funnel drain? ----------

  /** Some request that passed its check is still to insert a contact the campaign does not know. */
  predicate NewContactInFlight(s: State) {
    exists pid, i :: pid in s.tasks && s.tasks[pid].Insert? && 0 <= i < |s.tasks[pid].contacts|
      && s.tasks[pid].contacts[i] !in s.table.recipients
  }

  lemma {:induction false} StaysDrained(s: State, steps: seq<Step>)
    requires s.table.status == Cancelled && PendingIn(s.table.recipients) == {} && !NewContactInFlight(s)
    ensures PendingIn(Run(s, steps).table.recipients) == {}
    decreases steps
  {
    if steps != [] {
      DrainedStep(s, steps[0]);
      StaysDrained(Next(s, steps[0]), steps[1..]);
    }
  }

  lemma DrainedStep(s: State, step: Step)
    requires s.table.status == Cancelled && PendingIn(s.table.recipients) == {} && !NewContactInFlight(s)
    ensures var s' := Next(s, step);
      s'.table.status == Cancelled && PendingIn(s'.table.recipients) == {} && !NewContactInFlight(s')
  {
    var s' := Next(s, step);
    forall id | id in s'.table.recipients ensures s'.table.recipients[id] != Pending {
      if id in s.table.recipients { assert id !in PendingIn(s.table.recipients); }
    }
    forall pid, i | pid in s'.tasks && s'.tasks[pid].Insert? && 0 <= i < |s'.tasks[pid].contacts|
      ensures s'.tasks[pid].contacts[i] in s'.table.recipients
    {
      if step == Advance(pid) && pid in s.tasks {
        var was := s.tasks[pid].contacts;
        assert s'.tasks[pid].contacts[i] == was[Chunk(was) + i];
      } else {
        assert s.tasks[pid] == s'.tasks[pid];
      }
    }
  }

  /** The steps by which a request in flight inserts its i-th contact. */
  lemma {:induction false} InsertsEventually(s: State, pid: nat, i: nat) returns (steps: seq<Step>)
    requires pid in s.tasks && s.tasks[pid].Insert? && i < |s.tasks[pid].contacts|
    requires s.tasks[pid].contacts[i] !in s.table.recipients
    ensures s.tasks[pid].contacts[i] in PendingIn(Run(s, steps).table.recipients)
    decreases i
  {
    var contacts := s.tasks[pid].contacts;
    var c, n, s' := contacts[i], Chunk(contacts), Next(s, Advance(pid));
    if c in contacts[..n] {
      steps := [Advance(pid)];
      assert Run(s, steps) == Run(s', []) == s';
    } else {
      assert i >= n && s'.tasks[pid].contacts[i - n] == c;
      var rest := InsertsEventually(s', pid, i - n);
      steps := [Advance(pid)] + rest;
      assert steps[1..] == rest;
    }
  }

  /**
   * Cancelling is meant to drain the funnel. Once its retirement has run, no recipient is ever pending again exactly when
   * no request in flight is still to insert a new contact.
   */
  lemma CancelDrainsExactly(s: State)
    requires s.table.status == Cancelled && PendingIn(s.table.recipients) == {}
    ensures (forall steps :: PendingIn(Run(s, steps).table.recipients) == {}) <==> !NewContactInFlight(s)
  {
    if NewContactInFlight(s) {
      var pid, i :| pid in s.tasks && s.tasks[pid].Insert? && 0 <= i < |s.tasks[pid].contacts|
        && s.tasks[pid].contacts[i] !in s.table.recipients;
      var steps := InsertsEventually(s, pid, i);
      assert PendingIn(Run(s, steps).table.recipients) != {};
    } else {
      forall steps ensures PendingIn(Run(s, steps).table.recipients) == {} { StaysDrained(s, steps); }
    }
  }

  /** The order that breaks it: run passes its check, the campaign is cancelled and retired, then run inserts. */
  lemma LateInsertStaysPending()
    ensures var s := Run(Initial(false),
        [AskRun(0, ["a"]), Ask(1, Cancel), Advance(1), Advance(1), Advance(0), Advance(0)]);
      s.table.status == Cancelled && s.tasks == map[] && PendingIn(s.table.recipients) == {"a"}
  {
  }

  /** Nor does anything else retire them: unless its own outcome is written, such a recipient is pending for good. */
  lemma {:induction false} PendingForGood(s: State, steps: seq<Step>, id: string)
    requires s.table.status == Cancelled && id in PendingIn(s.table.recipients)
    requires forall pid :: pid in s.tasks ==> s.tasks[pid] != Retire
    requires forall i :: 0 <= i < |steps| ==> !(steps[i].Resolve? && steps[i].id == id)
    ensures id in PendingIn(Run(s, steps).table.recipients)
    decreases steps
  {
    hide Next, PendingIn;
    if steps != [] {
      PendingStep(s, steps[0], id);
      assert forall i :: 0 <= i < |steps[1..]| ==> steps[1..][i] == steps[i + 1];
      PendingForGood(Next(s, steps[0]), steps[1..], id);
    }
  }

  lemma PendingStep(s: State, step: Step, id: string)
    requires s.table.status == Cancelled && id in PendingIn(s.table.recipients)
    requires forall pid :: pid in s.tasks ==> s.tasks[pid] != Retire
    requires !(step.Resolve? && step.id == id)
    ensures Next(s, step).table.status == Cancelled && id in PendingIn(Next(s, step).table.recipients)
    ensures forall pid :: pid in Next(s, step).tasks ==> Next(s, step).tasks[pid] != Retire
  {
  }

  // ---------- a campaign that runs without ever being told to ----------

  /** A running campaign is meant to have a run event behind it: some worker was told. */
  predicate Requested(t: Table) {
    t.status == Running ==> Count(t.outbox, RunRequested) > 0
  }

  predicate AlwaysRequested(s: State, steps: seq<Step>)
    decreases steps
  {
    Requested(s.table) && (steps != [] ==> AlwaysRequested(Next(s, steps[0]), steps[1..]))
  }

  /** No test send while the campaign has yet to start: the guard of the status update lets those through. */
  predicate NoEarlyTestSend(s: State, steps: seq<Step>)
    decreases steps
  {
    steps != [] ==>
      !(steps[0].TestSend? && s.table.status in {Draft, Scheduled}) && NoEarlyTestSend(Next(s, steps[0]), steps[1..])
  }

  /** Before it starts a campaign has no run event, and once started it never goes back. */
  predicate Unstarted(t: Table) {
    t.status in {Draft, Scheduled} ==> Count(t.outbox, RunRequested) == 0
  }

  lemma RequestedStep(s: State, step: Step)
    requires Requested(s.table) && Unstarted(s.table)
    ensures Unstarted(Next(s, step).table)
    ensures Requested(Next(s, step).table) <==> !(step.TestSend? && s.table.status in {Draft, Scheduled})
  {
    hide Inserted, Retired, PendingIn, Count;
    EntryStep(s, step);
  }

  lemma {:induction false} RequestedFrom(s: State, steps: seq<Step>)
    requires Requested(s.table) && Unstarted(s.table)
    ensures AlwaysRequested(s, steps) <==> NoEarlyTestSend(s, steps)
    decreases steps
  {
    hide Next, Requested, Unstarted;
    if steps != [] {
      RequestedStep(s, steps[0]);
      if !(steps[0].TestSend? && s.table.status in {Draft, Scheduled}) {
        RequestedFrom(Next(s, steps[0]), steps[1..]);
      } else {
        NotRequested(Next(s, steps[0]), steps[1..]);
      }
    }
  }

  lemma NotRequested(s: State, steps: seq<Step>)
    requires !Requested(s.table)
    ensures !AlwaysRequested(s, steps)
  {
  }

  /**
   * In every run of every campaign, whenever it is running some worker was told so, exactly when no test send is made while
   * it is a draft or scheduled.
   */
  lemma RequestedExactly(scheduledAt: bool, steps: seq<Step>)
    ensures AlwaysRequested(Initial(scheduledAt), steps) <==> NoEarlyTestSend(Initial(scheduledAt), steps)
  {
    RequestedFrom(Initial(scheduledAt), steps);
  }

  /** The shortest run that breaks it. */
  lemma TestSendStartsNothing(scheduledAt: bool)
    ensures var t := Run(Initial(scheduledAt), [Step.TestSend]).table;
      t.status == Running && Count(t.outbox, RunRequested) == 0
  {
    RunFirst(Initial(scheduledAt), [Step.TestSend]);
    RunNone(Next(Initial(scheduledAt), Step.TestSend));
  }

  /**
   * After a test send on a campaign that has yet to start, no run event is ever added unless somebody pauses it, so nobody
   * but the test number is reached: not even by a run request or scheduler already in flight.
   */
  lemma TestSendStrands(s: State, steps: seq<Step>)
    requires s.table.status in {Draft, Scheduled} && Unstarted(s.table)
    requires forall pid :: pid in s.tasks ==> s.tasks[pid] != Swap(Pause)
    requires forall i :: 0 <= i < |steps| ==> !(steps[i].Ask? && steps[i].action == Pause)
    ensures Next(s, Step.TestSend).table.status == Running
    ensures Count(Run(Next(s, Step.TestSend), steps).table.outbox, RunRequested) == 0
  {
    EntryStep(s, Step.TestSend);
    StrandedUntilPaused(Next(s, Step.TestSend), steps);
  }

  /** A campaign that has started gets no further run event unless somebody pauses it. */
  lemma {:induction false} StrandedUntilPaused(s: State, steps: seq<Step>)
    requires s.table.status in {Running, Completed, Cancelled}
    requires forall pid :: pid in s.tasks ==> s.tasks[pid] != Swap(Pause)
    requires forall i :: 0 <= i < |steps| ==> !(steps[i].Ask? && steps[i].action == Pause)
    ensures Count(Run(s, steps).table.outbox, RunRequested) == Count(s.table.outbox, RunRequested)
    decreases steps
  {
    hide Next, Count;
    if steps != [] {
      StillUnpaused(s, steps[0]);
      assert forall i :: 0 <= i < |steps[1..]| ==> steps[1..][i] == steps[i + 1];
      StrandedUntilPaused(Next(s, steps[0]), steps[1..]);
    }
  }

  lemma StillUnpaused(s: State, step: Step)
    requires s.table.status in {Running, Completed, Cancelled}
    requires forall pid :: pid in s.tasks ==> s.tasks[pid] != Swap(Pause)
    requires !(step.Ask? && step.action == Pause)
    ensures Next(s, step).table.status in {Running, Completed, Cancelled}
    ensures forall pid :: pid in Next(s, step).tasks ==> Next(s, step).tasks[pid] != Swap(Pause)
    ensures Count(Next(s, step).table.outbox, RunRequested) == Count(s.table.outbox, RunRequested)
  {
    hide Inserted, Retired, PendingIn, Count;
    EntryStep(s, step);
  }
}
