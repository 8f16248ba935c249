/**
 * Drip sequences (packages/persistence/src/repositories.ts, sequenceRepository): ordered template steps sent to enrolled
 * contacts one delay after another, until the steps run out, the contact opts out or replies. Every operation is one
 * database transaction; they interleave freely with each other and with the clock.
 */
module DripSequence {
  import opened Options

  const MINUTE_MS := 60_000

  datatype SequenceStatus = Draft | Live | Paused

  datatype Progress = Active | Completed | Stopped(reason: string)

  /** Step k + 1 waits delays[k] minutes after its predecessor, the first one after enrollment. */
  datatype Drip = Drip(status: SequenceStatus, stopOnReply: bool, delays: seq<nat>)

  /** A contact runs a sequence once: (sequence, contact) is unique. */
  datatype Key = Key(sequence: string, contact: string)

  datatype Enrollment = Enrollment(progress: Progress, step: nat, due: Option<int>, since: int)

  /** A step's template send on the outbox. */
  datatype Sent = Sent(key: Key, step: nat, at: int)

  datatype State = State(
    now: int,
    drips: map<string, Drip>,
    contacts: map<string, bool>, // whether each has opted out
    enrollments: map<Key, Enrollment>,
    outbox: seq<Sent>)

  datatype Step =
    | Tick(elapsed: nat)
    | Create(id: string, stopOnReply: bool, delays: seq<nat>)
    | SetStatus(id: string, status: SequenceStatus)
    | SetOptOut(contact: string, optedOut: bool)
    | Enroll(id: string, contacts: set<string>)
    | Reply(contact: string, reason: string)
    | Advance(key: Key, template: bool)

  // ---------- the transactions ----------

  function Enrollable(s: State, id: string, contacts: set<string>): set<Key> {
    if id in s.drips && s.drips[id].delays != [] then
      set c | c in contacts && c in s.contacts && !s.contacts[c] && Key(id, c) !in s.enrollments :: Key(id, c)
    else {}
  }

  function Enrolled(s: State, id: string, contacts: set<string>): State {
    var added := Enrollable(s, id, contacts);
    if added == {} then s
    else
      var due := s.now + s.drips[id].delays[0] * MINUTE_MS;
      s.(enrollments := s.enrollments + map key | key in added :: Enrollment(Active, 0, Some(due), s.now))
  }

  predicate StopsOnReply(s: State, contact: string, key: Key) {
    && key in s.enrollments && key.contact == contact && s.enrollments[key].progress == Active
    && key.sequence in s.drips && s.drips[key.sequence].stopOnReply
  }

  function Replied(s: State, contact: string, reason: string): State {
    s.(enrollments := map key | key in s.enrollments ::
         if StopsOnReply(s, contact, key) then s.enrollments[key].(progress := Stopped(reason), due := None)
         else s.enrollments[key])
  }

  predicate Due(s: State, key: Key) {
    && key in s.enrollments && key.sequence in s.drips
    && s.enrollments[key].progress == Active && s.drips[key.sequence].status == Live
    && s.enrollments[key].due.Some? && s.enrollments[key].due.value <= s.now
  }

  predicate Refuses(s: State, contact: string) {
    contact !in s.contacts || s.contacts[contact]
  }

  datatype Outcome = Skipped | OptedOut | Ended | SentStep(step: nat, last: bool)

  /** What advancing decides; the template of a step may be gone. */
  function Decide(s: State, key: Key, template: bool): Outcome {
    if !Due(s, key) then Skipped
    else if Refuses(s, key.contact) then OptedOut
    else
      var e, n := s.enrollments[key], |s.drips[key.sequence].delays|;
      if e.step >= n || !template then Ended else SentStep(e.step + 1, e.step + 1 == n)
  }

  function Advanced(s: State, key: Key, template: bool): State {
    match Decide(s, key, template)
    case Skipped => s
    case OptedOut => s.(enrollments := s.enrollments[key := s.enrollments[key].(progress := Stopped("opted_out"))])
    case Ended => s.(enrollments := s.enrollments[key := s.enrollments[key].(progress := Completed, due := None)])
    case SentStep(step, last) =>
      var e := s.enrollments[key];
      var e' := if last then e.(step := step, progress := Completed, due := None)
                else e.(step := step, due := Some(s.now + s.drips[key.sequence].delays[step] * MINUTE_MS));
      s.(outbox := s.outbox + [Sent(key, step, s.now)], enrollments := s.enrollments[key := e'])
  }

  function Next(s: State, step: Step): State {
    match step
    case Tick(d) => s.(now := s.now + d)
    case Create(id, stop, delays) =>
      if id in s.drips then s else s.(drips := s.drips[id := Drip(Draft, stop, delays)])
    case SetStatus(id, status) => if id in s.drips then s.(drips := s.drips[id := s.drips[id].(status := status)]) else s
    case SetOptOut(c, out) => s.(contacts := s.contacts[c := out])
    case Enroll(id, contacts) => Enrolled(s, id, contacts)
    case Reply(c, reason) => Replied(s, c, reason)
    case Advance(key, template) => Advanced(s, key, template)
  }

  function Run(s: State, steps: seq<Step>): State
    decreases steps
  {
    if steps == [] then s else Run(Next(s, steps[0]), steps[1..])
  }

  const Empty := State(0, map[], map[], map[], [])

  // ---------- the repository ----------

  class SequenceRepository {
    var now: int
    var drips: map<string, Drip>
    var contacts: map<string, bool>
    var enrollments: map<Key, Enrollment>
    var outbox: seq<Sent>

    ghost function Contents(): State
      reads this
    {
      State(now, drips, contacts, enrollments, outbox)
    }

    constructor ()
      ensures Contents() == Empty
    {
      now, drips, contacts, enrollments, outbox := 0, map[], map[], map[], [];
    }

    /** The steps are inserted one at a time, numbered from 1. */
    method Create(id: string, stopOnReply: bool, delays: seq<nat>)
      requires id !in drips
      modifies this`drips
      ensures Contents() == Next(old(Contents()), Step.Create(id, stopOnReply, delays))
    {
      drips := drips[id := Drip(Draft, stopOnReply, [])];
      for i := 0 to |delays|
        invariant drips == old(drips)[id := Drip(Draft, stopOnReply, delays[..i])]
      {
        drips := drips[id := drips[id].(delays := drips[id].delays + [delays[i]])];
        assert delays[..i + 1] == delays[..i] + [delays[i]];
      }
      assert delays[..|delays|] == delays;
    }

    method Enroll(id: string, contactIds: seq<string>) returns (count: nat)
      modifies this`enrollments
      ensures Contents() == Enrolled(old(Contents()), id, set c | c in contactIds)
      ensures count == |Enrollable(old(Contents()), id, set c | c in contactIds)|
    {
      if |contactIds| == 0 || id !in drips || |drips[id].delays| == 0 {
        return 0;
      }
      var due := now + drips[id].delays[0] * MINUTE_MS;
      var keys := set c | c in contactIds && c in contacts && !contacts[c] && Key(id, c) !in enrollments :: Key(id, c);
      ghost var all := set c | c in contactIds;
      assert keys == Enrollable(Contents(), id, all);
      enrollments := enrollments + map key | key in keys :: Enrollment(Active, 0, Some(due), now);
      count := |keys|;
    }

    method AdvanceDueEnrollment(key: Key, template: bool) returns (result: Outcome)
      modifies this`enrollments, this`outbox
      ensures Contents() == Advanced(old(Contents()), key, template)
      ensures result == Decide(old(Contents()), key, template)
    {
      if key !in enrollments || key.sequence !in drips {
        return Skipped;
      }
      var e, drip := enrollments[key], drips[key.sequence];
      if e.progress != Active || drip.status != Live || e.due.None? || e.due.value > now {
        return Skipped;
      }
      if key.contact !in contacts || contacts[key.contact] {
        enrollments := enrollments[key := e.(progress := Stopped("opted_out"))];
        return OptedOut;
      }
      if e.step >= |drip.delays| || !template {
        enrollments := enrollments[key := e.(progress := Completed, due := None)];
        return Ended;
      }
      outbox := outbox + [Sent(key, e.step + 1, now)];
      if e.step + 1 < |drip.delays| {
        enrollments := enrollments[key := e.(step := e.step + 1, due := Some(now + drip.delays[e.step + 1] * MINUTE_MS))];
      } else {
        enrollments := enrollments[key := e.(step := e.step + 1, progress := Completed, due := None)];
      }
      return SentStep(e.step + 1, e.step + 1 == |drip.delays|);
    }

    method StopActiveForContact(contact: string, reason: string) returns (count: nat)
      modifies this`enrollments
      ensures Contents() == Replied(old(Contents()), contact, reason)
      ensures count == |set key | key in old(enrollments) && StopsOnReply(old(Contents()), contact, key)|
    {
      var stopped := set key | key in enrollments && key.contact == contact && enrollments[key].progress == Active
                               && key.sequence in drips && drips[key.sequence].stopOnReply;
      assert stopped == set key | key in enrollments && StopsOnReply(Contents(), contact, key);
      count := |stopped|;
      enrollments := map key | key in enrollments ::
          if key in stopped then enrollments[key].(progress := Stopped(reason), due := None) else enrollments[key];
    }
  }

  // ---------- what was sent to whom ----------

  /** The sends of one enrollment, in the order they were queued. */
  function History(outbox: seq<Sent>, key: Key): (h: seq<Sent>)
    ensures |h| <= |outbox| && forall k :: 0 <= k < |h| ==> h[k].key == key
  {
    if outbox == [] then []
    else
      var n := |outbox| - 1;
      History(outbox[..n], key) + if outbox[n].key == key then [outbox[n]] else []
  }

  lemma HistoryAppend(outbox: seq<Sent>, sent: Sent, key: Key)
    ensures History(outbox + [sent], key) == History(outbox, key) + if sent.key == key then [sent] else []
  {
    assert (outbox + [sent])[..|outbox|] == outbox;
  }

  /** When the wait for the step after h began. */
  function Since(h: seq<Sent>, enrolledAt: int): int {
    if h == [] then enrolledAt else h[|h| - 1].at
  }

  /** Steps 1, 2, …, each once and in order, none before its delay has passed since the one before it. */
  predicate OnTime(h: seq<Sent>, delays: seq<nat>, enrolledAt: int) {
    && |h| <= |delays|
    && forall k :: 0 <= k < |h| ==> h[k].step == k + 1 && h[k].at >= Since(h[..k], enrolledAt) + delays[k] * MINUTE_MS
  }

  predicate Sound(s: State, key: Key)
    requires key in s.enrollments
  {
    var e, h := s.enrollments[key], History(s.outbox, key);
    && key.sequence in s.drips
    && |h| == e.step
    && OnTime(h, s.drips[key.sequence].delays, e.since)
    && (e.progress == Active ==>
          && e.step < |s.drips[key.sequence].delays|
          && e.due == Some(Since(h, e.since) + s.drips[key.sequence].delays[e.step] * MINUTE_MS))
  }

  ghost predicate Inv(s: State) {
    && (forall key :: key in s.enrollments ==> Sound(s, key))
    && (forall key :: key !in s.enrollments ==> History(s.outbox, key) == [])
  }

  /** Sending the next step no earlier than it is due keeps the history on time. */
  lemma OneMoreOnTime(h: seq<Sent>, sent: Sent, delays: seq<nat>, enrolledAt: int)
    requires OnTime(h, delays, enrolledAt) && |h| < |delays| && sent.step == |h| + 1
    requires sent.at >= Since(h, enrolledAt) + delays[|h|] * MINUTE_MS
    ensures OnTime(h + [sent], delays, enrolledAt) && Since(h + [sent], enrolledAt) == sent.at
  {
    var h' := h + [sent];
    forall k | 0 <= k < |h'|
      ensures h'[k].step == k + 1 && h'[k].at >= Since(h'[..k], enrolledAt) + delays[k] * MINUTE_MS
    {
      assert h'[..k] == h[..k];
      assert k == |h| ==> h[..k] == h;
    }
  }

  lemma AdvanceKeeps(s: State, key: Key, template: bool)
    requires Inv(s) && key in s.enrollments
    ensures Sound(Advanced(s, key, template), key)
  {
    hide History, OnTime, Since;
    assert Sound(s, key);
    if Decide(s, key, template).SentStep? {
      var e, delays, h := s.enrollments[key], s.drips[key.sequence].delays, History(s.outbox, key);
      var sent := Sent(key, e.step + 1, s.now);
      HistoryAppend(s.outbox, sent, key);
      OneMoreOnTime(h, sent, delays, e.since);
    }
  }

  /** Nothing a step does to one enrollment, or to nobody's, disturbs another. */
  lemma Undisturbed(s: State, s': State, key: Key)
    requires key in s.enrollments && key in s'.enrollments && Sound(s, key)
    requires History(s'.outbox, key) == History(s.outbox, key)
    requires key.sequence in s'.drips && s'.drips[key.sequence].delays == s.drips[key.sequence].delays
    requires s'.enrollments[key] == s.enrollments[key]
      || (s'.enrollments[key].progress.Stopped? && s'.enrollments[key].step == s.enrollments[key].step
          && s'.enrollments[key].since == s.enrollments[key].since)
    ensures Sound(s', key)
  {
  }

  lemma NewIsSound(s: State, key: Key)
    requires key in s.enrollments && key.sequence in s.drips && History(s.outbox, key) == []
    requires var delays := s.drips[key.sequence].delays;
      delays != [] && s.enrollments[key] == Enrollment(Active, 0, Some(s.now + delays[0] * MINUTE_MS), s.now)
    ensures Sound(s, key)
  {
  }

  lemma StepKeepsOne(s: State, step: Step, key: Key)
    requires Inv(s) && key in Next(s, step).enrollments
    ensures Sound(Next(s, step), key)
  {
    hide History, Sound, Enrolled, Replied, Advanced;
    var s' := Next(s, step);
    if step.Advance? {
      AdvanceKeepsOne(s, step.key, step.template, key);
    } else if step.Enroll? && key !in s.enrollments {
      EnrolledIsSound(s, step.id, step.contacts, key);
    } else {
      KeptOrStopped(s, step, key);
      assert Sound(s, key);
      SoundHasDrip(s, key);
      Undisturbed(s, s', key);
    }
  }

  lemma SoundHasDrip(s: State, key: Key)
    requires key in s.enrollments && Sound(s, key)
    ensures key.sequence in s.drips
  {
  }

  lemma KeptOrStopped(s: State, step: Step, key: Key)
    requires !step.Advance? && key in Next(s, step).enrollments && (step.Enroll? ==> key in s.enrollments)
    ensures var s' := Next(s, step);
      && key in s.enrollments && s'.outbox == s.outbox
      && (key.sequence in s.drips ==>
            key.sequence in s'.drips && s'.drips[key.sequence].delays == s.drips[key.sequence].delays)
      && (s'.enrollments[key] == s.enrollments[key]
          || (s'.enrollments[key].progress.Stopped? && s'.enrollments[key].step == s.enrollments[key].step
              && s'.enrollments[key].since == s.enrollments[key].since))
  {
  }

  lemma EnrolledIsSound(s: State, id: string, contacts: set<string>, key: Key)
    requires Inv(s) && key !in s.enrollments && key in Enrolled(s, id, contacts).enrollments
    ensures Sound(Enrolled(s, id, contacts), key)
  {
    hide History, Sound;
    NewIsSound(Enrolled(s, id, contacts), key);
  }

  lemma AdvanceKeepsOne(s: State, key: Key, template: bool, other: Key)
    requires Inv(s) && other in Advanced(s, key, template).enrollments
    ensures Sound(Advanced(s, key, template), other)
  {
    hide History, Sound;
    var s' := Advanced(s, key, template);
    if other == key {
      AdvanceKeeps(s, key, template);
    } else {
      if s'.outbox != s.outbox { HistoryAppend(s.outbox, s'.outbox[|s.outbox|], other); }
      assert Sound(s, other);
      SoundHasDrip(s, other);
      Undisturbed(s, s', other);
    }
  }

  lemma StepKeeps(s: State, step: Step)
    requires Inv(s)
    ensures Inv(Next(s, step))
  {
    hide History, Sound, Advanced;
    var s' := Next(s, step);
    forall key | key in s'.enrollments ensures Sound(s', key) { StepKeepsOne(s, step, key); }
    forall key | key !in s'.enrollments ensures History(s'.outbox, key) == [] { OthersUnsent(s, step, key); }
  }

  lemma OthersUnsent(s: State, step: Step, key: Key)
    requires Inv(s) && key !in Next(s, step).enrollments
    ensures History(Next(s, step).outbox, key) == []
  {
    hide History, Sound;
    var s' := Next(s, step);
    if s'.outbox != s.outbox { HistoryAppend(s.outbox, s'.outbox[|s.outbox|], key); }
  }

  lemma {:induction false} RunKeeps(s: State, steps: seq<Step>)
    requires Inv(s)
    ensures Inv(Run(s, steps))
    decreases steps
  {
    hide Next, Inv;
    if steps != [] {
      StepKeeps(s, steps[0]);
      RunKeeps(Next(s, steps[0]), steps[1..]);
    }
  }

  /**
   * In every run from nothing, what was enqueued for an enrollment is exactly steps 1..current_step, each once and in
   * order, none before its due time; nothing was enqueued for anybody not enrolled.
   */
  lemma ExactlyTheStepsSoFar(steps: seq<Step>, key: Key)
    ensures var s := Run(Empty, steps); var h := History(s.outbox, key);
      if key in s.enrollments then
        |h| == s.enrollments[key].step && key.sequence in s.drips
        && OnTime(h, s.drips[key.sequence].delays, s.enrollments[key].since)
      else h == []
  {
    RunKeeps(Empty, steps);
    assert Inv(Run(Empty, steps));
    var s := Run(Empty, steps);
    assert key in s.enrollments ==> Sound(s, key);
  }

  // ---------- after it stops, and until then ----------

  lemma StepFreezes(s: State, step: Step, key: Key)
    requires key in s.enrollments && s.enrollments[key].progress != Active
    ensures key in Next(s, step).enrollments && Next(s, step).enrollments[key] == s.enrollments[key]
    ensures History(Next(s, step).outbox, key) == History(s.outbox, key)
  {
    hide History;
    var s' := Next(s, step);
    if s'.outbox != s.outbox { HistoryAppend(s.outbox, s'.outbox[|s.outbox|], key); }
  }

  /** An enrollment that is completed or stopped never sends again, whatever happens to its sequence or contact. */
  lemma {:induction false} NothingAfterStop(s: State, steps: seq<Step>, key: Key)
    requires key in s.enrollments && s.enrollments[key].progress != Active
    ensures key in Run(s, steps).enrollments && Run(s, steps).enrollments[key] == s.enrollments[key]
    ensures History(Run(s, steps).outbox, key) == History(s.outbox, key)
    decreases steps
  {
    hide Next, History;
    if steps != [] {
      StepFreezes(s, steps[0], key);
      NothingAfterStop(Next(s, steps[0]), steps[1..], key);
    }
  }

  /** A reply ends every enrollment of that contact in a stop-on-reply sequence, for good. */
  lemma ReplyIsFinal(s: State, contact: string, reason: string, steps: seq<Step>, key: Key)
    requires key in s.enrollments && key.contact == contact
    requires key.sequence in s.drips && s.drips[key.sequence].stopOnReply
    ensures History(Run(Next(s, Reply(contact, reason)), steps).outbox, key) == History(s.outbox, key)
  {
    NothingAfterStop(Next(s, Reply(contact, reason)), steps, key);
  }

  lemma RefusedStep(s: State, step: Step, key: Key)
    requires Refuses(s, key.contact) && step != SetOptOut(key.contact, false)
    ensures Refuses(Next(s, step), key.contact)
    ensures History(Next(s, step).outbox, key) == History(s.outbox, key)
  {
    hide History;
    var s' := Next(s, step);
    if s'.outbox != s.outbox { HistoryAppend(s.outbox, s'.outbox[|s.outbox|], key); }
  }

  /** From an opt-out until the contact opts in again, nothing is queued for them, whatever is due or enrolled meanwhile. */
  lemma {:induction false} NothingWhileOptedOut(s: State, steps: seq<Step>, key: Key)
    requires Refuses(s, key.contact) && SetOptOut(key.contact, false) !in steps
    ensures History(Run(s, steps).outbox, key) == History(s.outbox, key)
    decreases steps
  {
    hide Next, Refuses, History;
    if steps != [] {
      RefusedStep(s, steps[0], key);
      NothingWhileOptedOut(Next(s, steps[0]), steps[1..], key);
    }
  }

  lemma NotLiveStep(s: State, step: Step, key: Key)
    requires key.sequence in s.drips ==> s.drips[key.sequence].status != Live
    requires step != SetStatus(key.sequence, Live)
    ensures var s' := Next(s, step); key.sequence in s'.drips ==> s'.drips[key.sequence].status != Live
    ensures History(Next(s, step).outbox, key) == History(s.outbox, key)
  {
    hide History;
    var s' := Next(s, step);
    if s'.outbox != s.outbox { HistoryAppend(s.outbox, s'.outbox[|s.outbox|], key); }
  }

  /** While a sequence is a draft or paused, it queues nothing, whatever falls due meanwhile, until it is activated. */
  lemma {:induction false} NothingWhileNotLive(s: State, steps: seq<Step>, key: Key)
    requires key.sequence in s.drips ==> s.drips[key.sequence].status != Live
    requires SetStatus(key.sequence, Live) !in steps
    ensures History(Run(s, steps).outbox, key) == History(s.outbox, key)
    decreases steps
  {
    hide Next, History;
    if steps != [] {
      NotLiveStep(s, steps[0], key);
      NothingWhileNotLive(Next(s, steps[0]), steps[1..], key);
    }
  }

  lemma PlanKept(s: State, step: Step, key: Key)
    requires key in s.enrollments && key.sequence in s.drips
    ensures var t := Next(s, step);
      && key in t.enrollments && key.sequence in t.drips
      && t.drips[key.sequence].delays == s.drips[key.sequence].delays
      && t.enrollments[key].since == s.enrollments[key].since
  {
  }

  lemma {:induction false} PlanStays(s: State, steps: seq<Step>, key: Key)
    requires key in s.enrollments && key.sequence in s.drips
    ensures var t := Run(s, steps);
      && key in t.enrollments && key.sequence in t.drips
      && t.drips[key.sequence].delays == s.drips[key.sequence].delays
      && t.enrollments[key].since == s.enrollments[key].since
    decreases steps
  {
    hide Next;
    if steps != [] {
      PlanKept(s, steps[0], key);
      PlanStays(Next(s, steps[0]), steps[1..], key);
    }
  }

  /** Steps minus current_step bounds the sends left: from any point of any run, at most that many follow. */
  lemma SendsLeft(before: seq<Step>, after: seq<Step>, key: Key)
    requires key in Run(Empty, before).enrollments
    ensures var s := Run(Empty, before);
      key.sequence in s.drips
      && |History(Run(s, after).outbox, key)| - |History(s.outbox, key)|
         <= |s.drips[key.sequence].delays| - s.enrollments[key].step
  {
    hide Run, History;
    var s := Run(Empty, before);
    EmptyIsSound();
    RunKeeps(Empty, before);
    RunKeeps(s, after);
    assert Sound(s, key);
    PlanStays(s, after, key);
    assert Sound(Run(s, after), key);
  }

  lemma EmptyIsSound()
    ensures Inv(Empty)
  {
  }

  // ---------- exactly who, and exactly when ----------

  /** Enrolling adds exactly the contacts given that are known, have not opted out and never ran the sequence. */
  lemma EnrollsExactly(s: State, id: string, contacts: set<string>, key: Key)
    ensures var s' := Next(s, Enroll(id, contacts));
      && (key in s'.enrollments <==>
            || key in s.enrollments
            || (key.sequence == id && key.contact in contacts && id in s.drips && |s.drips[id].delays| > 0
                && key.contact in s.contacts && !s.contacts[key.contact]))
      && (key in s.enrollments ==> s'.enrollments[key] == s.enrollments[key])
      && (key in s'.enrollments && key !in s.enrollments ==>
            s'.enrollments[key].progress == Active && s'.enrollments[key].step == 0)
  {
    hide Enrollable;
    EnrollableAre(s, id, contacts, key);
  }

  lemma EnrollableAre(s: State, id: string, contacts: set<string>, key: Key)
    ensures key in Enrollable(s, id, contacts) <==>
      key.sequence == id && key.contact in contacts && id in s.drips && |s.drips[id].delays| > 0
      && key.contact in s.contacts && !s.contacts[key.contact] && key !in s.enrollments
    ensures Enrollable(s, id, contacts) != {} ==> id in s.drips && s.drips[id].delays != []
  {
    assert key == Key(key.sequence, key.contact);
  }

  /** A reply stops exactly the contact's active enrollments in sequences that stop on reply, and touches no other. */
  lemma ReplyStopsExactly(s: State, contact: string, reason: string, key: Key)
    requires key in s.enrollments
    ensures var s' := Next(s, Reply(contact, reason));
      && key in s'.enrollments
      && s'.enrollments[key] ==
         if key.contact == contact && s.enrollments[key].progress.Active? && key.sequence in s.drips
            && s.drips[key.sequence].stopOnReply
         then s.enrollments[key].(progress := Stopped(reason), due := None)
         else s.enrollments[key]
  {
  }

  /** When the next step of an enrollment is due, from what was sent and when. */
  function NextDue(s: State, key: Key): int
    requires key in s.enrollments && key.sequence in s.drips
    requires s.enrollments[key].step < |s.drips[key.sequence].delays|
  {
    Since(History(s.outbox, key), s.enrollments[key].since)
    + s.drips[key.sequence].delays[s.enrollments[key].step] * MINUTE_MS
  }

  /**
   * At any point of any run, advancing an enrollment does something exactly when it is active, its sequence live and its next
   * step due. Then it stops an unknown or opted-out contact's enrollment, ends one whose template is gone, and otherwise
   * sends exactly the next step, completing after the last.
   */
  lemma AdvancesExactly(before: seq<Step>, key: Key, template: bool)
    requires key in Run(Empty, before).enrollments
    ensures var s := Run(Empty, before); var e := s.enrollments[key];
      && key.sequence in s.drips && (e.progress == Active ==> e.step < |s.drips[key.sequence].delays|)
      && (var s' := Next(s, Advance(key, template)); var n := |s.drips[key.sequence].delays|;
          key in s'.enrollments &&
          if !(e.progress == Active && s.drips[key.sequence].status == Live && NextDue(s, key) <= s.now) then s' == s
          else if key.contact !in s.contacts || s.contacts[key.contact] then
            s'.outbox == s.outbox && s'.enrollments[key].progress.Stopped?
          else if !template then s'.outbox == s.outbox && s'.enrollments[key].progress == Completed
          else
            && s'.outbox == s.outbox + [Sent(key, e.step + 1, s.now)] && s'.enrollments[key].step == e.step + 1
            && s'.enrollments[key].progress == if e.step + 1 == n then Completed else Active)
  {
    hide Run, History, Since, OnTime;
    EmptyIsSound();
    RunKeeps(Empty, before);
    assert Sound(Run(Empty, before), key);
  }

  /** From nothing: a sequence created and activated, a contact known and enrolled, and time. */
  function Launch(id: string, stopOnReply: bool, delays: seq<nat>, contact: string): seq<Step> {
    [Create(id, stopOnReply, delays), SetStatus(id, Live), SetOptOut(contact, false), Enroll(id, {contact})]
  }

  lemma Launched(id: string, stopOnReply: bool, delays: seq<nat>, contact: string)
    requires delays != []
    ensures Run(Empty, Launch(id, stopOnReply, delays, contact)) == State(
      0, map[id := Drip(Live, stopOnReply, delays)], map[contact := false],
      map[Key(id, contact) := Enrollment(Active, 0, Some(delays[0] * MINUTE_MS), 0)], [])
  {
    hide Run;
    var steps := Launch(id, stopOnReply, delays, contact);
    var s1 := Empty.(drips := map[id := Drip(Draft, stopOnReply, delays)]);
    var s2 := Empty.(drips := map[id := Drip(Live, stopOnReply, delays)]);
    var s3 := s2.(contacts := map[contact := false]);
    assert Enrollable(s3, id, {contact}) == {Key(id, contact)};
    assert steps == [steps[0], steps[1]] + steps[2..] && steps[2..] == [steps[2], steps[3]] + [];
    assert Next(Empty, steps[0]) == s1 && Next(s1, steps[1]) == s2 && Next(s2, steps[2]) == s3;
    RunTwo(Empty, steps[0], steps[1], steps[2..]);
    RunTwo(s2, steps[2], steps[3], []);
    RunNone(Next(s3, steps[3]));
  }

  /** The whole life of one enrollment that nothing interrupts: every step is sent, and it is completed. */
  lemma RunsItsCourse(id: string, stopOnReply: bool, delays: seq<nat>, contact: string)
    requires delays != []
    ensures var key := Key(id, contact);
      var t := Run(Run(Empty, Launch(id, stopOnReply, delays, contact)), Patiently(delays, 0, key));
      && key in t.enrollments && t.enrollments[key].progress == Completed && t.enrollments[key].step == |delays|
      && |History(t.outbox, key)| == |delays|
  {
    hide Run, History;
    Launched(id, stopOnReply, delays, contact);
    EmptyIsSound();
    RunKeeps(Empty, Launch(id, stopOnReply, delays, contact));
    NoHistory(Key(id, contact));
    Completes(Run(Empty, Launch(id, stopOnReply, delays, contact)), Key(id, contact));
  }

  lemma NoHistory(key: Key)
    ensures History([], key) == []
  {
  }

  // ---------- and it does get there ----------

  /** Wait out the next step's delay, then advance; n times over. */
  function Patiently(delays: seq<nat>, from: nat, key: Key): seq<Step>
    requires from <= |delays|
    decreases |delays| - from
  {
    if from == |delays| then []
    else [Tick(delays[from] * MINUTE_MS), Advance(key, true)] + Patiently(delays, from + 1, key)
  }

  lemma RunTwo(s: State, a: Step, b: Step, rest: seq<Step>)
    ensures Run(s, [a, b] + rest) == Run(Next(Next(s, a), b), rest)
  {
    assert ([a, b] + rest)[1..] == [b] + rest && ([b] + rest)[1..] == rest;
  }

  /** Left alone, a live sequence sends a willing contact every remaining step and completes. */
  lemma {:induction false} Completes(s: State, key: Key)
    requires Inv(s) && key in s.enrollments && s.enrollments[key].progress == Active
    requires Since(History(s.outbox, key), s.enrollments[key].since) <= s.now
    requires key.sequence in s.drips && s.drips[key.sequence].status == Live && !Refuses(s, key.contact)
    requires s.enrollments[key].step < |s.drips[key.sequence].delays|
    ensures var delays := s.drips[key.sequence].delays;
      var t := Run(s, Patiently(delays, s.enrollments[key].step, key));
      && key in t.enrollments && t.enrollments[key].progress == Completed
      && t.enrollments[key].step == |delays| && |History(t.outbox, key)| == |delays|
    decreases |s.drips[key.sequence].delays| - s.enrollments[key].step
  {
    hide History, Run;
    var delays, from := s.drips[key.sequence].delays, s.enrollments[key].step;
    assert Sound(s, key);
    var s1 := Next(s, Tick(delays[from] * MINUTE_MS));
    var s2 := Next(s1, Advance(key, true));
    RunTwo(s, Tick(delays[from] * MINUTE_MS), Advance(key, true), Patiently(delays, from + 1, key));
    StepKeeps(s, Tick(delays[from] * MINUTE_MS));
    StepKeeps(s1, Advance(key, true));
    HistoryAppend(s.outbox, Sent(key, from + 1, s1.now), key);
    assert Decide(s1, key, true) == SentStep(from + 1, from + 1 == |delays|);
    assert Sound(s2, key);
    if from + 1 < |delays| {
      Completes(s2, key);
    } else {
      RunNone(s2);
    }
  }

  lemma RunNone(s: State)
    ensures Run(s, []) == s
  {
  }
}
