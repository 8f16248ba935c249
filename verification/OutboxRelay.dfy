/**
 * The outbox relay (services/api-gateway/src/outbox-relay.ts) over the durable queue it claims from
 * (packages/persistence/src/repositories.ts, outboxRepository). Relay passes, on one instance or several, interleave row
 * by row.
 */
module OutboxRelay {
  import opened Options
  import opened Bits

  const MAX_ATTEMPTS := 8
  const STALE_CLAIM_MS := 120_000
  const MAX_BACKOFF_MS := 900_000

  datatype Status = Pending | Processing | Processed | Dead

  datatype Row = Row(status: Status, attempts: nat, nextAttemptAt: int, claimedAt: int)

  type Rows = map<string, Row>

  /** What happens to one row: each is a single SQL statement, or one publish on the bus. */
  datatype Micro =
    | Enqueue(id: string, at: int)
    | Claim(id: string, now: int)
    | PublishOk(id: string)
    | PublishFail(id: string)
    | MarkProcessed(id: string)
    | MarkFailed(id: string, now: int)
    | Replay(id: string, now: int)

  /** outbox_claim takes a due pending row, or one whose claim has gone stale. */
  predicate Claimable(r: Row, now: int) {
    || (r.status == Pending && r.nextAttemptAt <= now)
    || (r.status == Processing && r.claimedAt < now - STALE_CLAIM_MS)
  }

  /** 30 seconds, doubled per earlier attempt, at most 15 minutes. */
  function Backoff(attempts: nat): (ms: nat)
    ensures ms <= MAX_BACKOFF_MS
  {
    if attempts == 0 then 30_000
    else
      var doubled := 2 * Backoff(attempts - 1);
      if doubled < MAX_BACKOFF_MS then doubled else MAX_BACKOFF_MS
  }

  /** The wait doubles with every recorded failure until the cap holds it. */
  lemma {:induction false} BackoffDoubles(attempts: nat)
    ensures Backoff(attempts) == if 30_000 * Pow2(attempts) < MAX_BACKOFF_MS then 30_000 * Pow2(attempts) else MAX_BACKOFF_MS
  {
    if attempts > 0 { BackoffDoubles(attempts - 1); }
  }

  function Failed(r: Row, now: int): Row {
    r.(attempts := r.attempts + 1, status := if r.attempts + 1 >= MAX_ATTEMPTS then Dead else Pending,
       nextAttemptAt := now + Backoff(r.attempts))
  }

  function Apply(rows: Rows, m: Micro): Rows {
    match m
    case Enqueue(id, at) => if id in rows then rows else rows[id := Row(Pending, 0, at, 0)]
    case Claim(id, now) =>
      if id in rows && Claimable(rows[id], now) then rows[id := rows[id].(status := Processing, claimedAt := now)]
      else rows
    case PublishOk(_) => rows
    case PublishFail(_) => rows
    case MarkProcessed(id) => if id in rows then rows[id := rows[id].(status := Processed)] else rows
    case MarkFailed(id, now) => if id in rows then rows[id := Failed(rows[id], now)] else rows
    case Replay(id, now) =>
      if id in rows && rows[id].status == Dead then
        rows[id := rows[id].(status := Pending, attempts := 0, nextAttemptAt := now)]
      else rows
  }

  function ApplyAll(rows: Rows, ms: seq<Micro>): Rows {
    if ms == [] then rows else Apply(ApplyAll(rows, ms[..|ms| - 1]), ms[|ms| - 1])
  }

  // ---------- one pass ----------

  /** Which calls of a pass succeed, by position in the claimed batch. */
  datatype Luck = Luck(publish: nat -> bool, markProcessed: nat -> bool, markFailed: nat -> bool)

  /** What a pass does to the i-th claimed row: publish it, then record how that went if the record can be written. */
  function RowSteps(id: string, i: nat, now: int, luck: Luck): seq<Micro> {
    if luck.publish(i) && luck.markProcessed(i) then [PublishOk(id), MarkProcessed(id)]
    else
      [if luck.publish(i) then PublishOk(id) else PublishFail(id)]
      + if luck.markFailed(i) then [MarkFailed(id, now)] else []
  }

  function PassSteps(batch: seq<string>, now: int, luck: Luck): seq<Micro> {
    if batch == [] then []
    else
      var n := |batch| - 1;
      PassSteps(batch[..n], now, luck) + RowSteps(batch[n], n, now, luck)
  }

  /** How many of the first n claimed rows were published and recorded as such. */
  function Delivered(n: nat, luck: Luck): (d: nat)
    ensures d <= n
  {
    if n == 0 then 0 else Delivered(n - 1, luck) + if luck.publish(n - 1) && luck.markProcessed(n - 1) then 1 else 0
  }

  class Relay {
    var rows: Rows
    var history: seq<Micro>
    var published: nat
    var failed: nat

    /** The table is what the steps so far made of it, and no row was marked processed unpublished. */
    ghost predicate Valid()
      reads this
    {
      rows == ApplyAll(map[], history) && MarksFollowPublish(history)
    }

    constructor ()
      ensures Valid() && rows == map[] && history == [] && published == failed == 0
    {
      rows, history, published, failed := map[], [], 0, 0;
    }

    /** One atomic step, of this relay or of anything else that touches the queue. */
    method Do(m: Micro)
      requires Valid() && (m.MarkProcessed? ==> PublishOk(m.id) in history)
      modifies this`rows, this`history
      ensures Valid() && rows == Apply(old(rows), m) && history == old(history) + [m]
    {
      ApplyOne(map[], history, m);
      OneMoreIsLegal(history, m);
      rows := Apply(rows, m);
      history := history + [m];
    }

    /** runOutboxRelayOnce over the rows it claimed; None when the claim itself failed. It never throws. */
    method RunOutboxRelayOnce(claimed: Option<seq<string>>, now: int, luck: Luck)
      requires Valid()
      modifies this
      ensures Valid()
      ensures claimed.None? ==> history == old(history) && published == old(published) && failed == old(failed)
      ensures claimed.Some? ==> history == old(history) + PassSteps(claimed.value, now, luck)
      ensures claimed.Some? ==> published == old(published) + Delivered(|claimed.value|, luck)
      ensures claimed.Some? ==> failed == old(failed) + |claimed.value| - Delivered(|claimed.value|, luck)
    {
      hide Apply, ApplyAll, PassSteps, MarksFollowPublish;
      if claimed.None? {
        return;
      }
      var batch := claimed.value;
      PassStart(batch, now, luck);
      for i := 0 to |batch|
        invariant Valid() && history == old(history) + PassSteps(batch[..i], now, luck)
        invariant published == old(published) + Delivered(i, luck)
        invariant failed == old(failed) + i - Delivered(i, luck)
      {
        PassStep(batch, i, now, luck);
        var id := batch[i];
        var wasPublished := luck.publish(i);
        Do(if wasPublished then PublishOk(id) else PublishFail(id));
        if wasPublished && luck.markProcessed(i) {
          assert history[|history| - 1] == PublishOk(id);
          Do(MarkProcessed(id));
          published := published + 1;
        } else {
          if luck.markFailed(i) {
            Do(MarkFailed(id, now));
          }
          failed := failed + 1;
        }
      }
      assert batch[..|batch|] == batch;
    }
  }

  lemma PassStart(batch: seq<string>, now: int, luck: Luck)
    ensures PassSteps(batch[..0], now, luck) == []
  {
  }

  lemma PassStep(batch: seq<string>, i: nat, now: int, luck: Luck)
    requires i < |batch|
    ensures PassSteps(batch[..i + 1], now, luck) == PassSteps(batch[..i], now, luck) + RowSteps(batch[i], i, now, luck)
  {
    assert batch[..i + 1][..i] == batch[..i];
  }

  lemma OneMoreIsLegal(ms: seq<Micro>, m: Micro)
    requires MarksFollowPublish(ms) && (m.MarkProcessed? ==> PublishOk(m.id) in ms)
    ensures MarksFollowPublish(ms + [m])
  {
    var all := ms + [m];
    forall i | 0 <= i < |all| && all[i].MarkProcessed? ensures PublishOk(all[i].id) in all[..i] {
      assert all[..i] == ms[..i];
    }
  }

  lemma ApplyOne(rows: Rows, ms: seq<Micro>, m: Micro)
    ensures ApplyAll(rows, ms + [m]) == Apply(ApplyAll(rows, ms), m)
  {
    assert (ms + [m])[..|ms|] == ms;
  }

  /** The rows a sequence of steps attempts to publish, in order. */
  function Attempts(ms: seq<Micro>): seq<string> {
    if ms == [] then []
    else
      var m := ms[|ms| - 1];
      Attempts(ms[..|ms| - 1]) + if m.PublishOk? || m.PublishFail? then [m.id] else []
  }

  lemma {:induction false} AttemptsConcat(a: seq<Micro>, b: seq<Micro>)
    ensures Attempts(a + b) == Attempts(a) + Attempts(b)
  {
    if b == [] {
      assert a + b == a;
    } else {
      AttemptsConcat(a, b[..|b| - 1]);
      assert (a + b)[..|a + b| - 1] == a + b[..|b| - 1];
    }
  }

  lemma RowAttempt(id: string, i: nat, now: int, luck: Luck)
    ensures Attempts(RowSteps(id, i, now, luck)) == [id]
  {
    var steps := RowSteps(id, i, now, luck);
    assert steps[..1] == [steps[0]] && steps[..1][..0] == [];
    if |steps| == 2 {
      assert Attempts(steps[..1]) == [id];
    } else {
      assert steps == steps[..1];
    }
  }

  lemma NoAttempts()
    ensures Attempts([]) == []
  {
  }

  /** Whatever fails, a pass attempts each claimed row exactly once, in the order it was claimed. */
  lemma {:induction false} PassAttemptsEachOnce(batch: seq<string>, now: int, luck: Luck)
    ensures Attempts(PassSteps(batch, now, luck)) == batch
  {
    hide RowSteps, Attempts;
    if batch == [] {
      NoAttempts();
    } else {
      var n := |batch| - 1;
      PassAttemptsEachOnce(batch[..n], now, luck);
      RowAttempt(batch[n], n, now, luck);
      AttemptsConcat(PassSteps(batch[..n], now, luck), RowSteps(batch[n], n, now, luck));
      assert batch == batch[..n] + [batch[n]];
    }
  }

  // ---------- whole runs ----------

  /** A row is marked processed only by a pass that has published it. */
  predicate MarksFollowPublish(ms: seq<Micro>) {
    forall i :: 0 <= i < |ms| && ms[i].MarkProcessed? ==> PublishOk(ms[i].id) in ms[..i]
  }

  /** How many failures have been recorded for a row since it was enqueued or last replayed. */
  function Recorded(ms: seq<Micro>, id: string): nat {
    if ms == [] then 0
    else
      var front, m := ms[..|ms| - 1], ms[|ms| - 1];
      var rows := ApplyAll(map[], front);
      if id !in rows || m.id != id then Recorded(front, id)
      else if m.MarkFailed? then Recorded(front, id) + 1
      else if m.Replay? && rows[id].status == Dead then 0
      else Recorded(front, id)
  }

  lemma {:induction false} NothingRecorded(ms: seq<Micro>, id: string)
    requires id !in ApplyAll(map[], ms)
    ensures Recorded(ms, id) == 0
  {
    if ms != [] { NothingRecorded(ms[..|ms| - 1], id); }
  }

  /** The queue's meaning: attempts counts recorded failures, dead rows and only they used
   * them up, processed rows were published. */
  ghost predicate QueueInv(ms: seq<Micro>) {
    var rows := ApplyAll(map[], ms);
    forall id :: id in rows ==>
      && rows[id].attempts == Recorded(ms, id)
      && (rows[id].status == Dead ==> Recorded(ms, id) >= MAX_ATTEMPTS)
      && (rows[id].status in {Pending, Processing} ==> Recorded(ms, id) < MAX_ATTEMPTS)
      && (rows[id].status == Processed ==> PublishOk(id) in ms)
  }

  lemma StepKeepsRow(ms: seq<Micro>, m: Micro, id: string)
    requires QueueInv(ms) && (m.MarkProcessed? ==> PublishOk(m.id) in ms)
    requires id in ApplyAll(map[], ms + [m])
    ensures var all := ms + [m]; var r := ApplyAll(map[], all)[id];
      && r.attempts == Recorded(all, id)
      && (r.status == Dead ==> Recorded(all, id) >= MAX_ATTEMPTS)
      && (r.status in {Pending, Processing} ==> Recorded(all, id) < MAX_ATTEMPTS)
      && (r.status == Processed ==> PublishOk(id) in all)
  {
    assert (ms + [m])[..|ms|] == ms;
    if id !in ApplyAll(map[], ms) { NothingRecorded(ms, id); }
  }

  /**
   * Over any interleaving of claims, publishes, marks and replays, a row leaves the queue only by a successful publish
   * (processed) or by MAX_ATTEMPTS failures recorded since it was enqueued or replayed (dead); while it stays, fewer have
   * been recorded.
   */
  lemma {:induction false} RowsLeaveForAReason(ms: seq<Micro>)
    requires MarksFollowPublish(ms)
    ensures QueueInv(ms)
  {
    if ms != [] {
      var front, m := ms[..|ms| - 1], ms[|ms| - 1];
      forall i | 0 <= i < |front| && front[i].MarkProcessed? ensures PublishOk(front[i].id) in front[..i] {
        assert front[i] == ms[i] && front[..i] == ms[..i];
      }
      RowsLeaveForAReason(front);
      assert front + [m] == ms;
      forall id | id in ApplyAll(map[], ms)
        ensures ApplyAll(map[], ms)[id].attempts == Recorded(ms, id)
          && (ApplyAll(map[], ms)[id].status == Dead ==> Recorded(ms, id) >= MAX_ATTEMPTS)
          && (ApplyAll(map[], ms)[id].status in {Pending, Processing} ==> Recorded(ms, id) < MAX_ATTEMPTS)
          && (ApplyAll(map[], ms)[id].status == Processed ==> PublishOk(id) in ms)
      {
        StepKeepsRow(front, m, id);
      }
    }
  }

  // ---------- passes of several relays, interleaved ----------

  /** Relay passes under way, each with the steps it still has to make, over one history. */
  datatype Relays = Relays(history: seq<Micro>, passes: map<nat, seq<Micro>>)

  datatype Event =
    | StartPass(pid: nat, batch: seq<string>, now: int, luck: Luck)
    | NextStep(pid: nat)
    | Die(pid: nat)
    | Elsewhere(m: Micro)

  /** A pass may start, make its next step or die at any point; rows are enqueued, claimed and replayed meanwhile. */
  function Move(r: Relays, e: Event): Relays {
    match e
    case StartPass(pid, batch, now, luck) =>
      if pid in r.passes then r else r.(passes := r.passes[pid := PassSteps(batch, now, luck)])
    case NextStep(pid) =>
      if pid !in r.passes || r.passes[pid] == [] then r
      else Relays(r.history + [r.passes[pid][0]], r.passes[pid := r.passes[pid][1..]])
    case Die(pid) => r.(passes := r.passes - {pid})
    case Elsewhere(m) => if m.Enqueue? || m.Claim? || m.Replay? then r.(history := r.history + [m]) else r
  }

  function Interleaved(events: seq<Event>): Relays {
    if events == [] then Relays([], map[]) else Move(Interleaved(events[..|events| - 1]), events[|events| - 1])
  }

  /** Whatever a pass is still to mark processed, it has published or publishes first. */
  predicate Honest(steps: seq<Micro>, history: seq<Micro>) {
    forall i :: 0 <= i < |steps| && steps[i].MarkProcessed? ==>
      PublishOk(steps[i].id) in history || PublishOk(steps[i].id) in steps[..i]
  }

  lemma {:induction false} PassIsHonest(batch: seq<string>, now: int, luck: Luck)
    ensures Honest(PassSteps(batch, now, luck), [])
  {
    if batch != [] {
      var n := |batch| - 1;
      PassIsHonest(batch[..n], now, luck);
      HonestConcat(PassSteps(batch[..n], now, luck), RowSteps(batch[n], n, now, luck));
    }
  }

  lemma HonestConcat(a: seq<Micro>, b: seq<Micro>)
    requires Honest(a, []) && |b| >= 1 && !b[0].MarkProcessed? && |b| <= 2
    requires |b| == 2 && b[1].MarkProcessed? ==> b[0] == PublishOk(b[1].id)
    ensures Honest(a + b, [])
  {
    var all := a + b;
    forall i | 0 <= i < |all| && all[i].MarkProcessed? ensures PublishOk(all[i].id) in all[..i] {
      if i < |a| { assert all[..i] == a[..i]; } else { assert all[..i][|a|] == b[0]; }
    }
  }

  lemma HonestLater(steps: seq<Micro>, history: seq<Micro>, more: seq<Micro>)
    requires Honest(steps, history)
    ensures Honest(steps, history + more)
  {
  }

  lemma HonestRest(steps: seq<Micro>, history: seq<Micro>)
    requires steps != [] && Honest(steps, history)
    ensures Honest(steps[1..], history + [steps[0]])
    ensures steps[0].MarkProcessed? ==> PublishOk(steps[0].id) in history
  {
    var rest := steps[1..];
    forall i | 0 <= i < |rest| && rest[i].MarkProcessed?
      ensures PublishOk(rest[i].id) in history + [steps[0]] || PublishOk(rest[i].id) in rest[..i]
    {
      assert rest[i] == steps[i + 1] && steps[..i + 1] == [steps[0]] + rest[..i];
    }
  }

  lemma MoveKeeps(r: Relays, e: Event)
    requires MarksFollowPublish(r.history) && forall pid :: pid in r.passes ==> Honest(r.passes[pid], r.history)
    ensures MarksFollowPublish(Move(r, e).history)
    ensures forall pid :: pid in Move(r, e).passes ==> Honest(Move(r, e).passes[pid], Move(r, e).history)
  {
    hide Honest, MarksFollowPublish, PassSteps;
    var next := Move(r, e);
    if e.StartPass? {
      PassIsHonest(e.batch, e.now, e.luck);
      HonestLater(PassSteps(e.batch, e.now, e.luck), [], r.history);
      assert [] + r.history == r.history;
    } else if next.history != r.history {
      var m := next.history[|r.history|];
      if e.NextStep? { HonestRest(r.passes[e.pid], r.history); }
      OneMoreIsLegal(r.history, m);
      forall pid | pid in next.passes && next.passes[pid] == r.passes[pid]
        ensures Honest(next.passes[pid], next.history)
      {
        HonestLater(r.passes[pid], r.history, [m]);
      }
    }
  }

  lemma {:induction false} InterleavedKeeps(events: seq<Event>)
    ensures var r := Interleaved(events);
      MarksFollowPublish(r.history) && forall pid :: pid in r.passes ==> Honest(r.passes[pid], r.history)
  {
    hide Move, Honest;
    if events != [] {
      InterleavedKeeps(events[..|events| - 1]);
      MoveKeeps(Interleaved(events[..|events| - 1]), events[|events| - 1]);
    }
  }

  /**
   * Over any interleaving of any number of passes, each failing as it may, with enqueues, claims and replays: a row is
   * processed only after a successful publish and dead only after MAX_ATTEMPTS recorded failures, and has fewer meanwhile.
   */
  lemma RelaysLeaveForAReason(events: seq<Event>)
    ensures QueueInv(Interleaved(events).history)
  {
    InterleavedKeeps(events);
    RowsLeaveForAReason(Interleaved(events).history);
  }

  // ---------- does a processed row stay processed? ----------

  function Moves(r: Relays, events: seq<Event>): Relays
    decreases events
  {
    if events == [] then r else Moves(Move(r, events[0]), events[1..])
  }

  function StatusIn(history: seq<Micro>, id: string): Option<Status> {
    var rows := ApplyAll(map[], history);
    if id in rows then Some(rows[id].status) else None
  }

  /** A pass that has not finished is still to record a failure of the row. */
  predicate FailureInFlight(r: Relays, id: string) {
    exists pid, k :: pid in r.passes && 0 <= k < |r.passes[pid]| && FailsRow(r.passes[pid][k], id)
  }

  predicate FailsRow(m: Micro, id: string) {
    m.MarkFailed? && m.id == id
  }

  /** Nobody claims a processed row, so no new pass has it in its batch. */
  predicate NoNewPass(events: seq<Event>, id: string) {
    forall i :: 0 <= i < |events| && events[i].StartPass? ==> id !in events[i].batch
  }

  lemma RowStepsAre(id: string, i: nat, now: int, luck: Luck)
    ensures forall m :: m in RowSteps(id, i, now, luck) ==> m.id == id
  {
  }

  lemma {:induction false} PassFailsOnlyItsRows(batch: seq<string>, now: int, luck: Luck, id: string)
    requires id !in batch
    ensures forall k :: 0 <= k < |PassSteps(batch, now, luck)| ==> !FailsRow(PassSteps(batch, now, luck)[k], id)
  {
    hide RowSteps;
    if batch != [] {
      var n := |batch| - 1;
      PassFailsOnlyItsRows(batch[..n], now, luck, id);
      RowStepsAre(batch[n], n, now, luck);
    }
  }

  lemma StaysStep(r: Relays, e: Event, id: string)
    requires StatusIn(r.history, id) == Some(Processed) && !FailureInFlight(r, id)
    requires e.StartPass? ==> id !in e.batch
    ensures StatusIn(Move(r, e).history, id) == Some(Processed) && !FailureInFlight(Move(r, e), id)
  {
    hide PassSteps;
    var next := Move(r, e);
    if e.StartPass? { PassFailsOnlyItsRows(e.batch, e.now, e.luck, id); }
    forall pid, k | pid in next.passes && 0 <= k < |next.passes[pid]| ensures !FailsRow(next.passes[pid][k], id) {
      if pid in r.passes && next.passes[pid] == r.passes[pid] {
        assert !FailsRow(r.passes[pid][k], id);
      } else if pid in r.passes {
        assert !FailsRow(r.passes[pid][k + 1], id);
      }
    }
    if next.history != r.history {
      var m := next.history[|r.history|];
      if e.NextStep? { assert !FailsRow(r.passes[e.pid][0], id); }
      ApplyOne(map[], r.history, m);
    }
  }

  lemma {:induction false} StaysProcessed(r: Relays, events: seq<Event>, id: string)
    requires StatusIn(r.history, id) == Some(Processed) && !FailureInFlight(r, id) && NoNewPass(events, id)
    ensures StatusIn(Moves(r, events).history, id) == Some(Processed)
    decreases events
  {
    hide Move, StatusIn, FailureInFlight;
    if events != [] {
      StaysStep(r, events[0], id);
      assert forall i :: 0 <= i < |events[1..]| ==> events[1..][i] == events[i + 1];
      StaysProcessed(Move(r, events[0]), events[1..], id);
    }
  }

  /** The steps by which an unfinished pass records its failure. */
  lemma {:induction false} FailsEventually(r: Relays, pid: nat, k: nat, id: string) returns (events: seq<Event>)
    requires pid in r.passes && k < |r.passes[pid]| && FailsRow(r.passes[pid][k], id)
    requires id in ApplyAll(map[], r.history)
    ensures NoNewPass(events, id) && StatusIn(Moves(r, events).history, id) != Some(Processed)
    decreases k
  {
    var m, next := r.passes[pid][0], Move(r, NextStep(pid));
    ApplyOne(map[], r.history, m);
    if k == 0 {
      events := [NextStep(pid)];
      assert Moves(r, events) == Moves(next, []) == next;
    } else {
      var rest := FailsEventually(next, pid, k - 1, id);
      events := [NextStep(pid)] + rest;
      assert events[1..] == rest;
      assert forall i :: 0 < i < |events| ==> events[i] == rest[i - 1];
    }
  }

  /**
   * A processed row stays processed, whatever claims, replays and passes over other rows follow, exactly when no unfinished
   * pass is still to record a failure of it. (One may be: of two passes that claimed the row, the second after the first
   * went stale, the first may fail after the second has published.)
   */
  lemma StaysProcessedExactly(r: Relays, id: string)
    requires StatusIn(r.history, id) == Some(Processed)
    ensures (forall events :: NoNewPass(events, id) ==> StatusIn(Moves(r, events).history, id) == Some(Processed))
      <==> !FailureInFlight(r, id)
  {
    hide StatusIn, Moves, NoNewPass;
    if FailureInFlight(r, id) {
      var pid, k :| pid in r.passes && 0 <= k < |r.passes[pid]| && FailsRow(r.passes[pid][k], id);
      RowIsThere(r.history, id);
      var events := FailsEventually(r, pid, k, id);
    } else {
      forall events | NoNewPass(events, id) ensures StatusIn(Moves(r, events).history, id) == Some(Processed) {
        StaysProcessed(r, events, id);
      }
    }
  }

  lemma RowIsThere(history: seq<Micro>, id: string)
    requires StatusIn(history, id).Some?
    ensures id in ApplyAll(map[], history)
  {
  }

  lemma InterleavedMore(events: seq<Event>, e: Event)
    ensures Interleaved(events + [e]) == Move(Interleaved(events), e)
  {
    assert (events + [e])[..|events|] == events;
  }

  lemma MoveOn(r: Relays, pid: nat, m: Micro, rest: seq<Micro>)
    requires pid in r.passes && r.passes[pid] == [m] + rest
    ensures Move(r, NextStep(pid)) == Relays(r.history + [m], r.passes[pid := rest])
  {
  }

  const UNLUCKY := Luck(_ => false, _ => true, _ => true)
  const LUCKY := Luck(_ => true, _ => true, _ => true)

  lemma OneRowPass(now: int)
    ensures PassSteps(["a"], now, UNLUCKY) == [PublishFail("a"), MarkFailed("a", now)]
    ensures PassSteps(["a"], now, LUCKY) == [PublishOk("a"), MarkProcessed("a")]
  {
    assert ["a"][..0] == [];
  }

  /** Two passes over one row, before the second of them publishes it and after. */
  function TwoPasses(): seq<Event> {
    [Elsewhere(Enqueue("a", 0)), Elsewhere(Claim("a", 0)), StartPass(0, ["a"], 0, UNLUCKY)]
    + [Elsewhere(Claim("a", 200_000)), StartPass(1, ["a"], 200_000, LUCKY), NextStep(1), NextStep(1)]
  }

  lemma TwoPassesLeave()
    ensures Interleaved(TwoPasses()) == Relays(
      [Enqueue("a", 0), Claim("a", 0), Claim("a", 200_000), PublishOk("a"), MarkProcessed("a")],
      map[0 := [PublishFail("a"), MarkFailed("a", 0)], 1 := []])
  {
    hide PassSteps, Interleaved;
    OneRowPass(0);
    OneRowPass(200_000);
    var e0: seq<Event> := [];
    assert Interleaved(e0) == Relays([], map[]) by { NoneInterleaved(); }
    var e1 := e0 + [Elsewhere(Enqueue("a", 0))];
    var e2 := e1 + [Elsewhere(Claim("a", 0))];
    var e3 := e2 + [StartPass(0, ["a"], 0, UNLUCKY)];
    var e4 := e3 + [Elsewhere(Claim("a", 200_000))];
    var e5 := e4 + [StartPass(1, ["a"], 200_000, LUCKY)];
    var e6 := e5 + [NextStep(1)];
    InterleavedMore(e0, Elsewhere(Enqueue("a", 0)));
    InterleavedMore(e1, Elsewhere(Claim("a", 0)));
    InterleavedMore(e2, StartPass(0, ["a"], 0, UNLUCKY));
    InterleavedMore(e3, Elsewhere(Claim("a", 200_000)));
    InterleavedMore(e4, StartPass(1, ["a"], 200_000, LUCKY));
    InterleavedMore(e5, NextStep(1));
    InterleavedMore(e6, NextStep(1));
    MoveOn(Interleaved(e5), 1, PublishOk("a"), [MarkProcessed("a")]);
    MoveOn(Interleaved(e6), 1, MarkProcessed("a"), []);
    assert e6 + [NextStep(1)] == TwoPasses();
  }

  lemma NoneInterleaved()
    ensures Interleaved([]) == Relays([], map[])
  {
  }

  /** There the row is processed, and its first pass is still to fail it and so to have it published again. */
  lemma ProcessedComesBack() returns (events: seq<Event>)
    ensures StatusIn(Interleaved(TwoPasses()).history, "a") == Some(Processed)
    ensures NoNewPass(events, "a") && StatusIn(Moves(Interleaved(TwoPasses()), events).history, "a") != Some(Processed)
  {
    hide Interleaved, Moves, TwoPasses;
    TwoPassesLeave();
    var r := Interleaved(TwoPasses());
    ApplyFive(r.history);
    events := FailsEventually(r, 0, 1, "a");
  }

  lemma ApplyFive(history: seq<Micro>)
    requires history == [Enqueue("a", 0), Claim("a", 0), Claim("a", 200_000), PublishOk("a"), MarkProcessed("a")]
    ensures "a" in ApplyAll(map[], history) && ApplyAll(map[], history)["a"].status == Processed
  {
    var h1 := [Enqueue("a", 0)];
    assert h1 == [] + h1 && history == h1 + history[1..];
    ApplyOne(map[], [], Enqueue("a", 0));
    KeepsRow(history[..1], history[1..4], "a");
    assert history[..1] + history[1..4] == history[..4] && history[..1] == h1;
    ApplyOne(map[], history[..4], MarkProcessed("a"));
    assert history[..4] + [MarkProcessed("a")] == history;
  }

  lemma {:induction false} KeepsRow(before: seq<Micro>, more: seq<Micro>, id: string)
    requires id in ApplyAll(map[], before)
    ensures id in ApplyAll(map[], before + more)
  {
    if more == [] {
      assert before + more == before;
    } else {
      var n := |more| - 1;
      KeepsRow(before, more[..n], id);
      ApplyOne(map[], before + more[..n], more[n]);
      assert before + more[..n] + [more[n]] == before + more;
    }
  }

  // ---------- what one pass leaves behind ----------

  lemma {:induction false} ApplyConcat(rows: Rows, a: seq<Micro>, b: seq<Micro>)
    ensures ApplyAll(rows, a + b) == ApplyAll(ApplyAll(rows, a), b)
  {
    if b == [] {
      assert a + b == a;
    } else {
      ApplyConcat(rows, a, b[..|b| - 1]);
      assert (a + b)[..|a + b| - 1] == a + b[..|b| - 1];
    }
  }

  /** Steps on other rows leave a row as it is. */
  lemma {:induction false} OthersLeaveIt(rows: Rows, ms: seq<Micro>, id: string)
    requires forall m :: m in ms ==> m.id != id
    ensures (id in ApplyAll(rows, ms)) == (id in rows)
    ensures id in rows ==> ApplyAll(rows, ms)[id] == rows[id]
  {
    if ms != [] { OthersLeaveIt(rows, ms[..|ms| - 1], id); }
  }

  lemma {:induction false} PassTouchesItsRows(batch: seq<string>, now: int, luck: Luck)
    ensures forall m :: m in PassSteps(batch, now, luck) ==> m.id in batch
  {
    hide RowSteps;
    if batch != [] {
      var n := |batch| - 1;
      PassTouchesItsRows(batch[..n], now, luck);
      RowStepsAre(batch[n], n, now, luck);
    }
  }

  /** The wait after a failure that follows n others: 30 seconds doubled n times, at most 15 minutes. */
  function Wait(n: nat): nat { if 30_000 * Pow2(n) < 900_000 then 30_000 * Pow2(n) else 900_000 }

  /** A row one more failure is recorded of: to be tried again after the wait, or dead with the eighth. */
  predicate OneMoreFailure(before: Row, after: Row, now: int) {
    && after.attempts == before.attempts + 1 && after.claimedAt == before.claimedAt
    && after.nextAttemptAt == now + Wait(before.attempts)
    && after.status == if before.attempts < 7 then Pending else Dead
  }

  lemma RowStepsExactly(rows: Rows, id: string, i: nat, now: int, luck: Luck)
    requires id in rows
    ensures PublishOk(id) in RowSteps(id, i, now, luck) <==> luck.publish(i)
    ensures var after := ApplyAll(rows, RowSteps(id, i, now, luck));
      id in after && RowOutcome(rows[id], after[id], i, now, luck)
  {
    hide Backoff, Pow2, Wait, ApplyAll;
    BackoffIsWait(rows[id].attempts);
    var ms := RowSteps(id, i, now, luck);
    ApplyTwo(rows, ms);
  }

  lemma BackoffIsWait(n: nat)
    ensures Backoff(n) == Wait(n)
  {
    BackoffDoubles(n);
  }

  lemma ApplyTwo(rows: Rows, ms: seq<Micro>)
    requires 1 <= |ms| <= 2
    ensures ApplyAll(rows, ms) == if |ms| == 1 then Apply(rows, ms[0]) else Apply(Apply(rows, ms[0]), ms[1])
  {
    hide Apply;
    assert ms[..1] == [ms[0]] && ms[..1][..0] == [];
    if |ms| == 1 { assert ms == ms[..1]; }
  }

  /** Published and recorded, a row is processed; otherwise the failure is recorded if it can be, and that is all. */
  predicate RowOutcome(before: Row, after: Row, i: nat, now: int, luck: Luck) {
    if luck.publish(i) && luck.markProcessed(i) then after == before.(status := Processed)
    else if luck.markFailed(i) then OneMoreFailure(before, after, now)
    else after == before
  }

  /**
   * A pass over distinct rows publishes the i-th exactly when its publish succeeds, and leaves it processed, failed once
   * more or as it was by its own luck alone; rows it did not claim are as before.
   */
  lemma {:induction false} PassExactly(rows: Rows, batch: seq<string>, now: int, luck: Luck, i: nat)
    requires i < |batch| && batch[i] in rows && forall j, k :: 0 <= j < k < |batch| ==> batch[j] != batch[k]
    ensures PublishOk(batch[i]) in PassSteps(batch, now, luck) <==> luck.publish(i)
    ensures var after := ApplyAll(rows, PassSteps(batch, now, luck));
      && batch[i] in after && RowOutcome(rows[batch[i]], after[batch[i]], i, now, luck)
      && forall id :: id in rows && id !in batch ==> id in after && after[id] == rows[id]
  {
    hide RowSteps, RowOutcome, Apply;
    var n, id := |batch| - 1, batch[i];
    var earlier, last := PassSteps(batch[..n], now, luck), RowSteps(batch[n], n, now, luck);
    var between := ApplyAll(rows, earlier);
    ApplyConcat(rows, earlier, last);
    PassTouchesItsRows(batch[..n], now, luck);
    PassTouchesItsRows(batch, now, luck);
    RowStepsAre(batch[n], n, now, luck);
    forall other | other in rows && other !in batch ensures other in ApplyAll(rows, earlier + last) {
      OthersLeaveIt(rows, earlier + last, other);
    }
    forall other | other in rows && other !in batch ensures ApplyAll(rows, earlier + last)[other] == rows[other] {
      OthersLeaveIt(rows, earlier + last, other);
    }
    if i == n {
      OthersLeaveIt(rows, earlier, id);
      RowStepsExactly(between, id, n, now, luck);
    } else {
      PassExactly(rows, batch[..n], now, luck, i);
      OthersLeaveIt(between, last, id);
    }
  }

  // ---------- when a row is taken ----------

  /** The row after some history, and after a claim that follows it with nothing else about the row in between. */
  ghost predicate Takes(history: seq<Micro>, more: seq<Micro>, id: string, now: int) {
    var rows := ApplyAll(map[], history + more + [Claim(id, now)]);
    id in rows && rows[id].status == Processing && rows[id].claimedAt == now
  }

  lemma ClaimLater(history: seq<Micro>, more: seq<Micro>, id: string, now: int)
    requires id in ApplyAll(map[], history) && forall m :: m in more ==> m.id != id
    ensures ApplyAll(map[], history + more + [Claim(id, now)]) == Apply(ApplyAll(map[], history + more), Claim(id, now))
    ensures id in ApplyAll(map[], history + more)
    ensures ApplyAll(map[], history + more)[id] == ApplyAll(map[], history)[id]
  {
    ApplyConcat(map[], history, more);
    OthersLeaveIt(ApplyAll(map[], history), more, id);
    ApplyOne(map[], history + more, Claim(id, now));
  }

  lemma TakenNow(ms: seq<Micro>, id: string, more: seq<Micro>, now: int)
    requires id in ApplyAll(map[], ms) && forall m :: m in more ==> m.id != id
    ensures var r := ApplyAll(map[], ms)[id];
      && (r.status in {Processed, Dead} ==> !Takes(ms, more, id, now))
      && (r.status == Pending ==> (Takes(ms, more, id, now) <==> r.nextAttemptAt <= now))
      && (r.status == Processing && r.claimedAt != now ==> (Takes(ms, more, id, now) <==> r.claimedAt + 120_000 < now))
  {
    hide ApplyAll;
    ClaimLater(ms, more, id, now);
  }

  lemma TakenAfterFailure(ms: seq<Micro>, id: string, at: int, more: seq<Micro>, now: int)
    requires id in ApplyAll(map[], ms) && QueueInv(ms) && forall m :: m in more ==> m.id != id
    ensures Recorded(ms, id) < 7 ==>
      (Takes(ms + [MarkFailed(id, at)], more, id, now) <==> at + Wait(Recorded(ms, id)) <= now)
  {
    hide Takes, ApplyAll, Recorded, Backoff, Wait;
    ApplyOne(map[], ms, MarkFailed(id, at));
    BackoffIsWait(Recorded(ms, id));
    TakenNow(ms + [MarkFailed(id, at)], id, more, now);
  }

  lemma TakenAfterReplay(ms: seq<Micro>, id: string, at: int, more: seq<Micro>, now: int)
    requires id in ApplyAll(map[], ms) && forall m :: m in more ==> m.id != id
    ensures StatusIn(ms, id) == Some(Dead) ==> (Takes(ms + [Replay(id, at)], more, id, now) <==> at <= now)
    ensures StatusIn(ms, id) in {Some(Processed), Some(Dead)} ==> !Takes(ms, more, id, now)
  {
    hide Takes, ApplyAll;
    ApplyOne(map[], ms, Replay(id, at));
    TakenNow(ms + [Replay(id, at)], id, more, now);
    TakenNow(ms, id, more, now);
  }

  lemma TakenAfterClaim(ms: seq<Micro>, id: string, at: int, more: seq<Micro>, now: int)
    requires id in ApplyAll(map[], ms) && forall m :: m in more ==> m.id != id
    ensures Takes(ms, [], id, at) && at != now ==>
      (Takes(ms + [Claim(id, at)], more, id, now) <==> at + 120_000 < now)
  {
    hide ApplyAll;
    assert ms + [] == ms;
    ApplyOne(map[], ms, Claim(id, at));
    TakenNow(ms + [Claim(id, at)], id, more, now);
  }

  lemma TakenAfterEnqueue(ms: seq<Micro>, id: string, at: int, more: seq<Micro>, now: int)
    requires id !in ApplyAll(map[], ms) && forall m :: m in more ==> m.id != id
    ensures Takes(ms + [Enqueue(id, at)], more, id, now) <==> at <= now
    ensures StatusIn(ms, id) == None && !Takes(ms, [], id, at)
  {
    hide ApplyAll;
    ApplyOne(map[], ms, Enqueue(id, at));
    ApplyOne(map[], ms, Claim(id, at));
    assert ms + [] == ms;
    TakenNow(ms + [Enqueue(id, at)], id, more, now);
  }

  /**
   * Over every run, whatever happens to other rows meanwhile: a row whose failure was recorded at `at` is taken again
   * exactly from the end of its wait, one enqueued or replayed at `at` exactly from then, one claimed at `at` exactly when
   * two minutes have passed; a processed or dead row never.
   */
  lemma TakenExactly(ms: seq<Micro>, id: string, at: int, more: seq<Micro>, now: int)
    requires MarksFollowPublish(ms) && forall m :: m in more ==> m.id != id
    ensures id in ApplyAll(map[], ms) && Recorded(ms, id) < 7 ==>
      (Takes(ms + [MarkFailed(id, at)], more, id, now) <==> at + Wait(Recorded(ms, id)) <= now)
    ensures id !in ApplyAll(map[], ms) ==> (Takes(ms + [Enqueue(id, at)], more, id, now) <==> at <= now)
    ensures StatusIn(ms, id) == Some(Dead) ==> (Takes(ms + [Replay(id, at)], more, id, now) <==> at <= now)
    ensures Takes(ms, [], id, at) && at != now ==>
      (Takes(ms + [Claim(id, at)], more, id, now) <==> at + 120_000 < now)
    ensures StatusIn(ms, id) in {Some(Processed), Some(Dead)} ==> !Takes(ms, more, id, now)
  {
    hide Takes, ApplyAll, Recorded, Backoff, MarksFollowPublish, QueueInv;
    RowsLeaveForAReason(ms);
    if id in ApplyAll(map[], ms) {
      TakenAfterFailure(ms, id, at, more, now);
      TakenAfterReplay(ms, id, at, more, now);
      TakenAfterClaim(ms, id, at, more, now);
      TakenNow(ms, id, more, now);
    } else {
      TakenAfterEnqueue(ms, id, at, more, now);
    }
  }
}
