/**
 * Fan-out of a running campaign: claiming batches of recipients (packages/persistence/src/repositories.ts), stamping each
 * send with its time (services/notification-worker/src/pacing.ts) and continuing a whole window later
 * (services/notification-worker/src/index.ts). Times are exact milliseconds.
 */
module FanOut {
  import opened Options

  const BATCH_SIZE := 50
  const DEFAULT_RATE := 60.0
  const MINUTE_MS := 60_000.0
  const STALE_MS := 900_000.0

  // ---------- pacing ----------

  datatype Number = Finite(value: real) | NonFinite

  /** The rate in force: a zero, negative or non-finite one falls back to the default. */
  function RateOf(perMinute: Number): (rate: real)
    ensures rate > 0.0
  {
    if perMinute.Finite? && perMinute.value > 0.0 then perMinute.value else DEFAULT_RATE
  }

  function IntervalMs(perMinute: Number): (ms: real)
    ensures ms > 0.0 && ms * RateOf(perMinute) == MINUTE_MS
  {
    MINUTE_MS / RateOf(perMinute)
  }

  function DispatchScheduleAt(start: real, index: nat, perMinute: Number): real {
    start + index as real * IntervalMs(perMinute)
  }

  function ContinuationScheduleAt(start: real, perMinute: Number): real {
    start + BATCH_SIZE as real * IntervalMs(perMinute)
  }

  predicate IsFinalBatch(claimed: nat) {
    claimed < BATCH_SIZE
  }

  // ---------- claiming ----------

  /** One recipient, in created_at order. */
  datatype Row = Row(pending: bool, claimedAt: Option<real>)

  predicate Stale(r: Row, now: real) {
    r.pending && r.claimedAt.Some? && r.claimedAt.value < now - STALE_MS
  }

  predicate Unclaimed(r: Row) {
    r.pending && r.claimedAt.None?
  }

  /** The positions where p holds, in order. */
  function Positions(rows: seq<Row>, p: Row -> bool): (ps: seq<nat>)
    ensures forall k :: 0 <= k < |ps| ==> ps[k] < |rows| && p(rows[ps[k]])
    ensures forall j, k :: 0 <= j < k < |ps| ==> ps[j] < ps[k]
    ensures forall i :: 0 <= i < |rows| && p(rows[i]) ==> i in ps
  {
    if rows == [] then []
    else
      var n := |rows| - 1;
      Positions(rows[..n], p) + if p(rows[n]) then [n] else []
  }

  function Eligible(rows: seq<Row>, now: real): seq<nat> {
    Positions(rows, r => Unclaimed(r) || Stale(r, now))
  }

  function Batch(rows: seq<Row>, now: real): seq<nat> {
    Take(Eligible(rows, now))
  }

  function Take(ids: seq<nat>): seq<nat> {
    if |ids| < BATCH_SIZE then ids else ids[..BATCH_SIZE]
  }

  function Stamp(rows: seq<Row>, ids: seq<nat>, now: real): (stamped: seq<Row>)
    ensures |stamped| == |rows|
  {
    seq(|rows|, i requires 0 <= i < |rows| => if i in ids then rows[i].(claimedAt := Some(now)) else rows[i])
  }

  // ---------- one invocation ----------

  datatype Queued = Dispatch(at: real, recipient: nat) | Continue(at: real)

  function Approved(batch: seq<nat>, approve: nat -> bool): seq<nat> {
    if batch == [] then []
    else
      var n := |batch| - 1;
      Approved(batch[..n], approve) + if approve(batch[n]) then [batch[n]] else []
  }

  function Dispatches(ids: seq<nat>, start: real, rate: Number): seq<Queued> {
    seq(|ids|, k requires 0 <= k < |ids| => Dispatch(DispatchScheduleAt(start, k, rate), ids[k]))
  }

  function Outgoing(batch: seq<nat>, approve: nat -> bool, start: real, rate: Number): seq<Queued> {
    Dispatches(Approved(batch, approve), start, rate)
    + if IsFinalBatch(|batch|) then [] else [Continue(ContinuationScheduleAt(start, rate))]
  }

  /** Recipients the policy refuses leave pending at once. */
  function Refuse(rows: seq<Row>, batch: seq<nat>, approve: nat -> bool): (r: seq<Row>)
    ensures |r| == |rows|
  {
    seq(|rows|, i requires 0 <= i < |rows| => if i in batch && !approve(i) then rows[i].(pending := false) else rows[i])
  }

  lemma HandledNone(rows: seq<Row>, batch: seq<nat>, approve: nat -> bool, now: real, rate: Number)
    ensures Refuse(rows, batch[..0], approve) == rows
    ensures Dispatches(Approved(batch[..0], approve), now, rate) == []
    ensures |batch| == 0 ==> batch[..0] == batch
  {
  }

  lemma HandledOne(rows: seq<Row>, batch: seq<nat>, k: nat, approve: nat -> bool, now: real, rate: Number)
    requires k < |batch| && batch[k] < |rows|
    ensures var id, before, after := batch[k], Refuse(rows, batch[..k], approve), Refuse(rows, batch[..k + 1], approve);
      after == if approve(id) then before else before[id := before[id].(pending := false)]
    ensures var id, before, after := batch[k], Approved(batch[..k], approve), Approved(batch[..k + 1], approve);
      Dispatches(after, now, rate)
      == Dispatches(before, now, rate)
         + if approve(id) then [Dispatch(DispatchScheduleAt(now, |Dispatches(before, now, rate)|, rate), id)] else []
  {
    assert batch[..k + 1] == batch[..k] + [batch[k]] && batch[..k + 1][..k] == batch[..k];
  }

  lemma BatchInRange(rows: seq<Row>, now: real)
    ensures forall k :: 0 <= k < |Batch(rows, now)| ==> Batch(rows, now)[k] < |rows|
  {
  }

  class Worker {
    var rows: seq<Row>
    var outbox: seq<Queued>

    constructor (rows: seq<Row>)
      ensures this.rows == rows && outbox == []
    {
      this.rows, outbox := rows, [];
    }

    method ClaimPendingBatch(now: real) returns (batch: seq<nat>)
      modifies this`rows
      ensures batch == Batch(old(rows), now) && rows == Stamp(old(rows), batch, now)
    {
      batch := Batch(rows, now);
      rows := Stamp(rows, batch, now);
    }

    /** handleCampaignRun: one batch, then return; a whole batch queues its own continuation with its sends. */
    method HandleCampaignRun(running: bool, rate: Number, now: real, approve: nat -> bool)
      modifies this
      ensures !running ==> rows == old(rows) && outbox == old(outbox)
      ensures running ==> var batch := Batch(old(rows), now);
        && rows == Refuse(Stamp(old(rows), batch, now), batch, approve)
        && outbox == old(outbox) + Outgoing(batch, approve, now, rate)
    {
      hide Batch, Stamp, Refuse, Approved, Dispatches, DispatchScheduleAt;
      if !running {
        return;
      }
      BatchInRange(rows, now);
      var batch := ClaimPendingBatch(now);
      ghost var stamped := rows;
      HandledNone(rows, batch, approve, now, rate);
      if |batch| == 0 {
        return;
      }
      var toEnqueue: seq<Queued> := [];
      for k := 0 to |batch|
        invariant rows == Refuse(stamped, batch[..k], approve)
        invariant toEnqueue == Dispatches(Approved(batch[..k], approve), now, rate)
        invariant |rows| == |stamped| && outbox == old(outbox)
      {
        HandledOne(stamped, batch, k, approve, now, rate);
        var id := batch[k];
        if approve(id) {
          toEnqueue := toEnqueue + [Dispatch(DispatchScheduleAt(now, |toEnqueue|, rate), id)];
        } else {
          rows := rows[id := rows[id].(pending := false)];
        }
      }
      assert batch[..|batch|] == batch;
      if !IsFinalBatch(|batch|) {
        toEnqueue := toEnqueue + [Continue(ContinuationScheduleAt(now, rate))];
      }
      outbox := outbox + toEnqueue;
    }
  }

  // ---------- a chain of invocations ----------

  /** One invocation, and which claimed recipients get their outcome before the next. */
  datatype Call = Call(now: real, running: bool, approve: nat -> bool, resolves: nat -> bool)

  function After(rows: seq<Row>, c: Call): (r: seq<Row>)
    ensures |r| == |rows|
  {
    var batch := Batch(rows, c.now);
    Resolve(Refuse(Stamp(rows, batch, c.now), batch, c.approve), c.resolves)
  }

  function Resolve(rows: seq<Row>, resolves: nat -> bool): (r: seq<Row>)
    ensures |r| == |rows|
  {
    seq(|rows|, i requires 0 <= i < |rows| =>
      if resolves(i) && rows[i].claimedAt.Some? then rows[i].(pending := false) else rows[i])
  }

  /** Another invocation follows only a whole batch. */
  predicate Continues(rows: seq<Row>, c: Call) {
    c.running && !IsFinalBatch(|Batch(rows, c.now)|)
  }

  /** Everything the chain claims, in the order it claims it. */
  function Claims(rows: seq<Row>, calls: seq<Call>): seq<nat>
    decreases |calls|
  {
    if calls == [] || !calls[0].running then []
    else
      Batch(rows, calls[0].now)
      + if Continues(rows, calls[0]) then Claims(After(rows, calls[0]), calls[1..]) else []
  }

  function Invocations(rows: seq<Row>, calls: seq<Call>): nat
    decreases |calls|
  {
    if calls == [] then 0
    else if Continues(rows, calls[0]) then 1 + Invocations(After(rows, calls[0]), calls[1..])
    else 1
  }

  /** No recipient claimed by the chain is still pending 15 minutes later when the chain next claims. */
  predicate NeverStale(rows: seq<Row>, calls: seq<Call>)
    decreases |calls|
  {
    calls != [] && calls[0].running ==>
      && (forall i :: 0 <= i < |rows| ==> !Stale(rows[i], calls[0].now))
      && (Continues(rows, calls[0]) ==> NeverStale(After(rows, calls[0]), calls[1..]))
  }

  predicate NoneTwice(ids: seq<nat>) {
    forall j, k :: 0 <= j < k < |ids| ==> ids[j] != ids[k]
  }

  predicate Ascending(ids: seq<nat>) {
    forall j, k :: 0 <= j < k < |ids| ==> ids[j] < ids[k]
  }

  /** An ascending list is determined by its elements. */
  lemma {:induction false} AscendingUnique(a: seq<nat>, b: seq<nat>)
    requires Ascending(a) && Ascending(b) && forall x :: x in a <==> x in b
    ensures a == b
  {
    assert |b| > 0 ==> b[0] in a;
    if a != [] {
      var m, n := |a| - 1, |b| - 1;
      assert a[m] in b && b[n] in a;
      assert a[m] == b[n];
      forall x ensures x in a[..m] <==> x in b[..n] {
        assert x in a[..m] <==> x in a && x != a[m];
        assert x in b[..n] <==> x in b && x != b[n];
      }
      AscendingUnique(a[..m], b[..n]);
      assert a == a[..m] + [a[m]] && b == b[..n] + [b[n]];
    }
  }

  function Waiting(rows: seq<Row>): seq<nat> {
    Positions(rows, Unclaimed)
  }

  lemma BatchIsFirstWaiting(rows: seq<Row>, now: real)
    requires forall i :: 0 <= i < |rows| ==> !Stale(rows[i], now)
    ensures Batch(rows, now) == Take(Waiting(rows))
  {
    AscendingUnique(Eligible(rows, now), Waiting(rows));
  }

  /** Claiming takes a prefix off the waiting list; nothing else touches it. */
  lemma WaitingShrinks(rows: seq<Row>, c: Call)
    requires forall i :: 0 <= i < |rows| ==> !Stale(rows[i], c.now)
    ensures Waiting(After(rows, c)) == Waiting(rows)[|Take(Waiting(rows))|..]
  {
    BatchIsFirstWaiting(rows, c.now);
    var w, left := Waiting(rows), Waiting(After(rows, c));
    var k := |Take(w)|;
    assert Batch(rows, c.now) == w[..k];
    forall i ensures i in left <==> i in w[k..] {
      assert i in w <==> i in w[..k] || i in w[k..];
      assert i in w[..k] ==> i !in w[k..];
      if 0 <= i < |rows| {
        assert Unclaimed(After(rows, c)[i]) <==> Unclaimed(rows[i]) && i !in w[..k];
      }
    }
    AscendingUnique(left, w[k..]);
  }

  lemma OneBatchLess(n: nat)
    requires n >= BATCH_SIZE
    ensures (n - BATCH_SIZE) / BATCH_SIZE == n / BATCH_SIZE - 1
  {
  }

  /**
   * While no claim goes stale, a chain claims exactly the recipients that were waiting when it began, each once and in
   * order, and ends by itself after one invocation per whole batch and one more.
   */
  lemma {:induction false} ClaimsEachOnce(rows: seq<Row>, calls: seq<Call>)
    requires NeverStale(rows, calls) && forall c :: c in calls ==> c.running
    requires |calls| > |Waiting(rows)| / BATCH_SIZE
    ensures Claims(rows, calls) == Waiting(rows)
    ensures Invocations(rows, calls) == |Waiting(rows)| / BATCH_SIZE + 1
    decreases |calls|
  {
    hide After, Batch, Waiting;
    assert calls[0] in calls;
    var w, c := Waiting(rows), calls[0];
    BatchIsFirstWaiting(rows, c.now);
    if Continues(rows, c) {
      WaitingShrinks(rows, c);
      OneBatchLess(|w|);
      assert forall d :: d in calls[1..] ==> d in calls;
      ClaimsEachOnce(After(rows, c), calls[1..]);
      assert w == w[..BATCH_SIZE] + w[BATCH_SIZE..];
    }
  }

  // ---------- and when a claim does go stale ----------

  /** The chain has claimed a run of rows from the front: no claimed row comes after a waiting one. */
  predicate FrontFirst(rows: seq<Row>) {
    forall i, j :: 0 <= i < j < |rows| && Unclaimed(rows[i]) ==> rows[j].claimedAt.None?
  }

  predicate ClaimedAreIn(rows: seq<Row>, ids: seq<nat>) {
    forall i :: 0 <= i < |rows| && rows[i].claimedAt.Some? ==> i in ids
  }

  lemma AfterAt(rows: seq<Row>, c: Call, i: nat)
    requires i < |rows|
    ensures Unclaimed(After(rows, c)[i]) <==> Unclaimed(rows[i]) && i !in Batch(rows, c.now)
    ensures After(rows, c)[i].claimedAt.Some? <==> rows[i].claimedAt.Some? || i in Batch(rows, c.now)
  {
    hide Batch;
  }

  lemma PrefixIsLess(ids: seq<nat>, k: nat)
    requires Ascending(ids) && k <= |ids|
    ensures forall p, q :: p in ids[..k] && q in ids && q !in ids[..k] ==> p < q
  {
  }

  lemma FrontFirstStep(rows: seq<Row>, c: Call, done: seq<nat>)
    requires FrontFirst(rows) && ClaimedAreIn(rows, done) && forall i :: 0 <= i < |rows| ==> !Stale(rows[i], c.now)
    ensures FrontFirst(After(rows, c)) && ClaimedAreIn(After(rows, c), done + Batch(rows, c.now))
  {
    hide Batch, After;
    BatchIsFirstWaiting(rows, c.now);
    var b, w, after := Batch(rows, c.now), Waiting(rows), After(rows, c);
    PrefixIsLess(w, |b|);
    forall i, j | 0 <= i < j < |rows| && Unclaimed(after[i]) ensures after[j].claimedAt.None? {
      AfterAt(rows, c, i);
      AfterAt(rows, c, j);
    }
    forall i | 0 <= i < |rows| && after[i].claimedAt.Some? ensures i in done + b {
      AfterAt(rows, c, i);
    }
  }

  /** While there is a stale row, the next to be claimed, again, is the first of them. */
  lemma StaleIsReclaimed(rows: seq<Row>, now: real, s: nat)
    requires FrontFirst(rows) && s < |rows| && Stale(rows[s], now)
    ensures Batch(rows, now) != [] && Batch(rows, now)[0] <= s && Stale(rows[Batch(rows, now)[0]], now)
    ensures forall i :: 0 <= i < Batch(rows, now)[0] ==> !Stale(rows[i], now)
  {
    var e := Eligible(rows, now);
    assert s in e;
    var x :| 0 <= x < |e| && e[x] == s;
    assert e[0] <= s;
    forall i | 0 <= i < e[0] ensures !Stale(rows[i], now) {
      assert Stale(rows[i], now) ==> i in e;
    }
  }

  lemma {:induction false} OnceExactlyWhenFreshFrom(rows: seq<Row>, calls: seq<Call>, done: seq<nat>)
    requires FrontFirst(rows) && ClaimedAreIn(rows, done) && NoneTwice(done)
    requires forall i :: 0 <= i < |rows| && Unclaimed(rows[i]) ==> i !in done
    ensures NoneTwice(done + Claims(rows, calls)) <==> NeverStale(rows, calls)
    decreases |calls|
  {
    hide After, Batch, FrontFirst, NoneTwice;
    if calls == [] || !calls[0].running {
      assert done + Claims(rows, calls) == done;
    } else {
      var c, b := calls[0], Batch(rows, calls[0].now);
      if s: nat :| s < |rows| && Stale(rows[s], c.now) {
        StaleIsReclaimed(rows, c.now, s);
        AgainIsTwice(done, Claims(rows, calls), b[0]);
      } else {
        FreshStep(rows, c, done);
        if Continues(rows, c) {
          OnceExactlyWhenFreshFrom(After(rows, c), calls[1..], done + b);
          assert done + b + Claims(After(rows, c), calls[1..]) == done + Claims(rows, calls);
        } else {
          assert Claims(rows, calls) == b;
        }
      }
    }
  }

  lemma AgainIsTwice(done: seq<nat>, more: seq<nat>, x: nat)
    requires more != [] && more[0] == x && x in done
    ensures !NoneTwice(done + more)
  {
    var k :| 0 <= k < |done| && done[k] == x;
    assert (done + more)[k] == (done + more)[|done|];
  }

  lemma FreshStep(rows: seq<Row>, c: Call, done: seq<nat>)
    requires FrontFirst(rows) && ClaimedAreIn(rows, done) && NoneTwice(done)
    requires forall i :: 0 <= i < |rows| ==> !Stale(rows[i], c.now)
    requires forall i :: 0 <= i < |rows| && Unclaimed(rows[i]) ==> i !in done
    ensures FrontFirst(After(rows, c)) && ClaimedAreIn(After(rows, c), done + Batch(rows, c.now))
    ensures NoneTwice(done + Batch(rows, c.now))
    ensures forall i :: 0 <= i < |rows| && Unclaimed(After(rows, c)[i]) ==> i !in done + Batch(rows, c.now)
  {
    hide After, FrontFirst, ClaimedAreIn;
    FrontFirstStep(rows, c, done);
    BatchIsFirstWaiting(rows, c.now);
    NoneTwiceConcat(done, Batch(rows, c.now));
    forall i | 0 <= i < |rows| && Unclaimed(After(rows, c)[i]) ensures i !in done + Batch(rows, c.now) {
      AfterAt(rows, c, i);
    }
  }

  lemma NoneTwiceConcat(a: seq<nat>, b: seq<nat>)
    requires NoneTwice(a) && NoneTwice(b) && forall x :: x in b ==> x !in a
    ensures NoneTwice(a + b)
  {
    assert forall k :: |a| <= k < |a + b| ==> (a + b)[k] == b[k - |a|] && (a + b)[k] in b;
  }

  /** From a campaign nobody has claimed from, no recipient is claimed twice exactly when no claim goes stale. */
  lemma OnceExactlyWhenFresh(rows: seq<Row>, calls: seq<Call>)
    requires forall i :: 0 <= i < |rows| ==> rows[i].claimedAt.None?
    ensures NoneTwice(Claims(rows, calls)) <==> NeverStale(rows, calls)
  {
    OnceExactlyWhenFreshFrom(rows, calls, []);
    assert [] + Claims(rows, calls) == Claims(rows, calls);
  }

  // ---------- the rate ----------

  /** Each invocation after the first is woken by the continuation its predecessor queued, or later. */
  predicate Woken(calls: seq<Call>, rate: Number) {
    forall k :: 0 <= k < |calls| - 1 ==> calls[k + 1].now >= ContinuationScheduleAt(calls[k].now, rate)
  }

  /** The times the chain stamps on its sends. */
  function SendTimes(rows: seq<Row>, calls: seq<Call>, rate: Number): seq<real>
    decreases |calls|
  {
    if calls == [] || !calls[0].running then []
    else
      Times(|Approved(Batch(rows, calls[0].now), calls[0].approve)|, calls[0].now, rate)
      + if Continues(rows, calls[0]) then SendTimes(After(rows, calls[0]), calls[1..], rate) else []
  }

  function Times(n: nat, start: real, rate: Number): seq<real> {
    seq(n, k requires 0 <= k < n => DispatchScheduleAt(start, k, rate))
  }

  predicate Spaced(times: seq<real>, gap: real) {
    forall k :: 0 <= k < |times| - 1 ==> times[k + 1] >= times[k] + gap
  }

  /** The approved of a batch are exactly its members the policy lets through. */
  lemma {:induction false} ApprovedExactly(batch: seq<nat>, approve: nat -> bool, id: nat)
    ensures id in Approved(batch, approve) <==> id in batch && approve(id)
  {
    if batch != [] {
      var n := |batch| - 1;
      ApprovedExactly(batch[..n], approve, id);
      assert batch == batch[..n] + [batch[n]];
    }
  }

  lemma {:induction false} ApprovedIsShort(batch: seq<nat>, approve: nat -> bool)
    ensures |Approved(batch, approve)| <= |batch|
  {
    if batch != [] { ApprovedIsShort(batch[..|batch| - 1], approve); }
  }

  lemma Scaled(a: real, b: real, c: real)
    requires a <= b && c >= 0.0
    ensures a * c <= b * c
  {
  }

  lemma OneMoreGap(k: nat, gap: real)
    ensures (k + 1) as real * gap == k as real * gap + gap
  {
  }

  lemma StampStep(start: real, k: nat, rate: Number)
    ensures DispatchScheduleAt(start, k + 1, rate) == DispatchScheduleAt(start, k, rate) + IntervalMs(rate)
    ensures k < BATCH_SIZE ==> DispatchScheduleAt(start, k, rate) + IntervalMs(rate) <= ContinuationScheduleAt(start, rate)
  {
    hide IntervalMs;
    OneMoreGap(k, IntervalMs(rate));
    if k < BATCH_SIZE { Scaled((k + 1) as real, BATCH_SIZE as real, IntervalMs(rate)); }
  }

  lemma StampFirst(start: real, rate: Number)
    ensures DispatchScheduleAt(start, 0, rate) == start
  {
  }

  lemma TimesSpaced(n: nat, start: real, rate: Number)
    requires n <= BATCH_SIZE
    ensures Spaced(Times(n, start, rate), IntervalMs(rate))
    ensures n > 0 ==> Times(n, start, rate)[0] == start
    ensures n > 0 ==> Times(n, start, rate)[n - 1] + IntervalMs(rate) <= ContinuationScheduleAt(start, rate)
  {
    hide IntervalMs, DispatchScheduleAt, ContinuationScheduleAt;
    StampFirst(start, rate);
    forall k: nat | k < n ensures k + 1 < n ==> Times(n, start, rate)[k + 1] >= Times(n, start, rate)[k] + IntervalMs(rate) {
      StampStep(start, k, rate);
    }
    if n > 0 { StampStep(start, n - 1, rate); }
  }

  lemma SpacedConcat(a: seq<real>, b: seq<real>, gap: real)
    requires Spaced(a, gap) && Spaced(b, gap) && (a != [] && b != [] ==> b[0] >= a[|a| - 1] + gap)
    ensures Spaced(a + b, gap)
  {
    var ab := a + b;
    forall k | 0 <= k < |ab| - 1 ensures ab[k + 1] >= ab[k] + gap {
      if k >= |a| { assert ab[k] == b[k - |a|] && ab[k + 1] == b[k + 1 - |a|]; }
    }
  }

  lemma BatchIsShort(rows: seq<Row>, now: real)
    ensures |Batch(rows, now)| <= BATCH_SIZE
  {
  }

  lemma TimesLength(n: nat, start: real, rate: Number)
    ensures |Times(n, start, rate)| == n
  {
  }

  lemma LaterStart(start: real, rate: Number)
    ensures ContinuationScheduleAt(start, rate) >= start
  {
  }

  /** Across a whole chain, consecutive sends are at least one interval apart. */
  lemma {:induction false} SendsSpaced(rows: seq<Row>, calls: seq<Call>, rate: Number)
    requires Woken(calls, rate)
    ensures Spaced(SendTimes(rows, calls, rate), IntervalMs(rate))
    ensures SendTimes(rows, calls, rate) != [] ==> calls != [] && SendTimes(rows, calls, rate)[0] >= calls[0].now
    decreases |calls|
  {
    hide IntervalMs, Times, After, Batch, Approved;
    if calls != [] && calls[0].running {
      var c := calls[0];
      var b := Batch(rows, c.now);
      ApprovedIsShort(b, c.approve);
      BatchIsShort(rows, c.now);
      TimesLength(|Approved(b, c.approve)|, c.now, rate);
      var n := |Approved(b, c.approve)|;
      TimesSpaced(n, c.now, rate);
      if Continues(rows, c) {
        SendsSpaced(After(rows, c), calls[1..], rate);
        assert calls[1..] != [] ==> calls[1].now >= ContinuationScheduleAt(c.now, rate);
        SpacedConcat(Times(n, c.now, rate), SendTimes(After(rows, c), calls[1..], rate), IntervalMs(rate));
      }
      LaterStart(c.now, rate);
    }
  }

  function InWindow(times: seq<real>, from: real): set<nat> {
    set k: nat | k < |times| && from <= times[k] < from + MINUTE_MS
  }

  lemma {:induction false} Apart(times: seq<real>, gap: real, i: nat, j: nat)
    requires Spaced(times, gap) && i <= j < |times|
    ensures times[j] - times[i] >= (j - i) as real * gap
    decreases j
  {
    if i < j {
      Apart(times, gap, i, j - 1);
      assert (j - i) as real * gap == (j - 1 - i) as real * gap + gap;
    }
  }

  lemma {:induction false} RangeSize(s: set<nat>, lo: nat, hi: nat)
    requires lo <= hi && forall x :: x in s ==> lo <= x <= hi
    ensures |s| <= hi - lo + 1
    decreases hi - lo
  {
    if lo < hi {
      RangeSize(s - {hi}, lo, hi - 1);
      assert s <= (s - {hi}) + {hi};
    } else {
      assert s <= {lo};
    }
  }

  /**
   * No half-open minute holds more sends than the campaign's rate allows: at most that many if it is a whole number, fewer
   * than one more otherwise, and at most 60 when no usable rate was given.
   */
  lemma AtMostRatePerMinute(rows: seq<Row>, calls: seq<Call>, rate: Number, from: real)
    requires Woken(calls, rate)
    ensures var sends := |InWindow(SendTimes(rows, calls, rate), from)|;
      if rate.Finite? && rate.value > 0.0 then
        sends as real < rate.value + 1.0 && (rate.value == rate.value.Floor as real ==> sends <= rate.value.Floor)
      else sends <= 60
  {
    hide SendTimes, InWindow, Woken;
    SendsSpaced(rows, calls, rate);
    WindowBound(SendTimes(rows, calls, rate), rate, from);
  }

  lemma WindowBound(times: seq<real>, rate: Number, from: real)
    requires Spaced(times, IntervalMs(rate))
    ensures |InWindow(times, from)| as real < RateOf(rate) + 1.0
  {
    hide IntervalMs, RateOf, Spaced;
    var w := InWindow(times, from);
    if w != {} {
      var lo := Least(w);
      var hi := Greatest(w);
      assert lo in w && hi in w;
      RangeSize(w, lo, hi);
      Apart(times, IntervalMs(rate), lo, hi);
      FewSteps((hi - lo) as real, IntervalMs(rate), times[hi] - times[lo], RateOf(rate));
    }
  }

  lemma FewSteps(steps: real, gap: real, span: real, rate: real)
    requires gap > 0.0 && steps * gap <= span < MINUTE_MS && gap * rate == MINUTE_MS
    ensures steps < rate
  {
    if steps >= rate { Scaled(rate, steps, gap); }
  }

  lemma {:induction false} Least(s: set<nat>) returns (m: nat)
    requires s != {}
    ensures m in s && forall x :: x in s ==> m <= x
  {
    var e :| e in s;
    m := e;
    if s != {e} {
      var n := Least(s - {e});
      m := if n < e then n else e;
      assert s == (s - {e}) + {e};
    }
  }

  lemma {:induction false} Greatest(s: set<nat>) returns (m: nat)
    requires s != {}
    ensures m in s && forall x :: x in s ==> x <= m
  {
    var e :| e in s;
    m := e;
    if s != {e} {
      var n := Greatest(s - {e});
      m := if n > e then n else e;
      assert s == (s - {e}) + {e};
    }
  }

  lemma {:induction false} ApproveAll(batch: seq<nat>, approve: nat -> bool)
    requires forall id :: approve(id)
    ensures Approved(batch, approve) == batch
  {
    if batch != [] {
      ApproveAll(batch[..|batch| - 1], approve);
      assert batch == batch[..|batch| - 1] + [batch[|batch| - 1]];
    }
  }

  lemma StampShift(start: real, k: nat, rate: Number)
    ensures DispatchScheduleAt(ContinuationScheduleAt(start, rate), k, rate)
         == DispatchScheduleAt(start, BATCH_SIZE + k, rate)
  {
    hide IntervalMs;
    Distribute(BATCH_SIZE as real, k as real, IntervalMs(rate));
  }

  lemma Distribute(a: real, b: real, c: real)
    ensures (a + b) * c == a * c + b * c
  {
  }

  lemma TimesConcat(start: real, more: nat, rate: Number)
    ensures Times(BATCH_SIZE, start, rate) + Times(more, ContinuationScheduleAt(start, rate), rate)
         == Times(BATCH_SIZE + more, start, rate)
  {
    hide DispatchScheduleAt, ContinuationScheduleAt;
    forall k: nat | k < more
      ensures Times(more, ContinuationScheduleAt(start, rate), rate)[k]
           == Times(BATCH_SIZE + more, start, rate)[BATCH_SIZE + k]
    {
      StampShift(start, k, rate);
    }
  }

  /** A chain at full tilt: everybody is approved and every continuation runs on the dot. */
  ghost predicate Steady(calls: seq<Call>, rate: Number) {
    && (forall c :: c in calls ==> c.running)
    && (forall k, id :: 0 <= k < |calls| ==> calls[k].approve(id))
    && (forall k :: 0 <= k < |calls| - 1 ==> calls[k + 1].now == ContinuationScheduleAt(calls[k].now, rate))
  }

  /** Then its sends run on evenly from batch to batch. */
  lemma {:induction false} SteadySends(rows: seq<Row>, calls: seq<Call>, rate: Number)
    requires Steady(calls, rate) && NeverStale(rows, calls) && |calls| > |Waiting(rows)| / BATCH_SIZE
    ensures SendTimes(rows, calls, rate) == Times(|Waiting(rows)|, calls[0].now, rate)
    decreases |calls|
  {
    hide After, Batch, Waiting, Times, Approved, DispatchScheduleAt, ContinuationScheduleAt, IntervalMs;
    assert calls[0] in calls;
    var w, c := Waiting(rows), calls[0];
    BatchIsFirstWaiting(rows, c.now);
    ApproveAll(Batch(rows, c.now), c.approve);
    if Continues(rows, c) {
      WaitingShrinks(rows, c);
      OneBatchLess(|w|);
      assert forall d :: d in calls[1..] ==> d in calls;
      assert forall k :: 0 <= k < |calls[1..]| ==> calls[1..][k] == calls[k + 1];
      SteadySends(After(rows, c), calls[1..], rate);
      TimesConcat(c.now, |w| - BATCH_SIZE, rate);
    }
  }

  /**
   * The bound is met at any rate: a chain at full tilt with enough recipients puts the rate (rounded up, if it is not a
   * whole number) into its first minute.
   */
  lemma {:induction false} RateIsReached(rows: seq<Row>, calls: seq<Call>, rate: Number, n: nat)
    requires Steady(calls, rate) && NeverStale(rows, calls) && |calls| > |Waiting(rows)| / BATCH_SIZE
    requires n <= |Waiting(rows)| && (n as real) - 1.0 < RateOf(rate) <= n as real
    ensures |InWindow(SendTimes(rows, calls, rate), calls[0].now)| == n
  {
    hide SendTimes, Steady, NeverStale, Waiting, RateOf;
    SteadySends(rows, calls, rate);
    FirstMinute(|Waiting(rows)|, calls[0].now, rate, n);
  }

  lemma {:induction false} FirstMinute(sends: nat, start: real, rate: Number, n: nat)
    requires n <= sends && (n as real) - 1.0 < RateOf(rate) <= n as real
    ensures |InWindow(Times(sends, start, rate), start)| == n
  {
    hide Times, RateOf;
    assert |Times(sends, start, rate)| == sends by { TimesLength(sends, start, rate); }
    forall k: nat ensures k in InWindow(Times(sends, start, rate), start) <==> k in Below(n) {
      if k < sends { StampInMinute(sends, start, rate, n, k); }
    }
    assert InWindow(Times(sends, start, rate), start) == Below(n);
  }

  lemma StampInMinute(sends: nat, start: real, rate: Number, n: nat, k: nat)
    requires k < sends && (n as real) - 1.0 < RateOf(rate) <= n as real
    ensures |Times(sends, start, rate)| == sends
    ensures start <= Times(sends, start, rate)[k] < start + MINUTE_MS <==> k < n
  {
    hide IntervalMs, RateOf;
    StepsInMinute(k as real, IntervalMs(rate), RateOf(rate));
    WholeBelow(k, n, RateOf(rate));
  }

  lemma WholeBelow(k: nat, n: nat, rate: real)
    requires (n as real) - 1.0 < rate <= n as real
    ensures k as real < rate <==> k < n
  {
  }

  lemma StepsInMinute(steps: real, gap: real, rate: real)
    requires steps >= 0.0 && gap > 0.0 && gap * rate == MINUTE_MS
    ensures steps * gap >= 0.0 && (steps * gap < MINUTE_MS <==> steps < rate)
  {
    Scaled(0.0, steps, gap);
    if steps < rate { StrictlyScaled(steps, rate, gap); } else { Scaled(rate, steps, gap); }
  }

  lemma StrictlyScaled(a: real, b: real, c: real)
    requires a < b && c > 0.0
    ensures a * c < b * c
  {
  }

  function Below(n: nat): (s: set<nat>)
    ensures |s| == n && forall x: nat :: x in s <==> x < n
  {
    if n == 0 then {} else Below(n - 1) + {n - 1}
  }

  // ---------- several chains of one campaign ----------

  /** An invocation of one of several chains: a resume before the old continuation fires leaves two. */
  datatype Wake = Wake(chain: nat, call: Call)

  /** An invocation that finds the campaign not running claims nothing. */
  function Woke(rows: seq<Row>, c: Call): (r: seq<Row>)
    ensures |r| == |rows|
  {
    if c.running then After(rows, c) else Resolve(rows, c.resolves)
  }

  /** Everything the chains claim together, in the order they claim it, whichever of them is woken when. */
  function ClaimsOfAll(rows: seq<Row>, wakes: seq<Wake>): seq<nat>
    decreases |wakes|
  {
    if wakes == [] then []
    else
      var c := wakes[0].call;
      (if c.running then Batch(rows, c.now) else []) + ClaimsOfAll(Woke(rows, c), wakes[1..])
  }

  predicate FreshForAll(rows: seq<Row>, wakes: seq<Wake>)
    decreases |wakes|
  {
    wakes != [] ==>
      var c := wakes[0].call;
      && (c.running ==> forall i :: 0 <= i < |rows| ==> !Stale(rows[i], c.now))
      && FreshForAll(Woke(rows, c), wakes[1..])
  }

  lemma PausedStep(rows: seq<Row>, resolves: nat -> bool, done: seq<nat>)
    requires FrontFirst(rows) && ClaimedAreIn(rows, done)
    requires forall i :: 0 <= i < |rows| && Unclaimed(rows[i]) ==> i !in done
    ensures FrontFirst(Resolve(rows, resolves)) && ClaimedAreIn(Resolve(rows, resolves), done)
    ensures forall i :: 0 <= i < |rows| && Unclaimed(Resolve(rows, resolves)[i]) ==> i !in done
  {
    var after := Resolve(rows, resolves);
    forall i | 0 <= i < |rows|
      ensures (Unclaimed(after[i]) <==> Unclaimed(rows[i])) && after[i].claimedAt == rows[i].claimedAt
    {
    }
  }

  lemma {:induction false} AllOnceFrom(rows: seq<Row>, wakes: seq<Wake>, done: seq<nat>)
    requires FrontFirst(rows) && ClaimedAreIn(rows, done) && NoneTwice(done)
    requires forall i :: 0 <= i < |rows| && Unclaimed(rows[i]) ==> i !in done
    ensures NoneTwice(done + ClaimsOfAll(rows, wakes)) <==> FreshForAll(rows, wakes)
    decreases |wakes|
  {
    hide After, Resolve, Batch, FrontFirst, NoneTwice;
    if wakes == [] {
      assert done + ClaimsOfAll(rows, wakes) == done;
    } else {
      var c := wakes[0].call;
      if !c.running {
        PausedStep(rows, c.resolves, done);
        AllOnceFrom(Woke(rows, c), wakes[1..], done);
        assert ClaimsOfAll(rows, wakes) == ClaimsOfAll(Woke(rows, c), wakes[1..]);
      } else if s: nat :| s < |rows| && Stale(rows[s], c.now) {
        StaleIsReclaimed(rows, c.now, s);
        AgainIsTwice(done, ClaimsOfAll(rows, wakes), Batch(rows, c.now)[0]);
      } else {
        FreshStep(rows, c, done);
        AllOnceFrom(Woke(rows, c), wakes[1..], done + Batch(rows, c.now));
        assert done + Batch(rows, c.now) + ClaimsOfAll(Woke(rows, c), wakes[1..]) == done + ClaimsOfAll(rows, wakes);
      }
    }
  }

  /** However many chains, and however they interleave: no recipient is claimed twice exactly when no claim goes stale. */
  lemma ChainsClaimOnceExactly(rows: seq<Row>, wakes: seq<Wake>)
    requires forall i :: 0 <= i < |rows| ==> rows[i].claimedAt.None?
    ensures NoneTwice(ClaimsOfAll(rows, wakes)) <==> FreshForAll(rows, wakes)
  {
    AllOnceFrom(rows, wakes, []);
    assert [] + ClaimsOfAll(rows, wakes) == ClaimsOfAll(rows, wakes);
  }

  /** The times one chain stamps on its sends. */
  function SendsOf(chain: nat, rows: seq<Row>, wakes: seq<Wake>, rate: Number): seq<real>
    decreases |wakes|
  {
    if wakes == [] then []
    else
      var c := wakes[0].call;
      (if wakes[0].chain == chain && c.running then Times(|Approved(Batch(rows, c.now), c.approve)|, c.now, rate) else [])
      + SendsOf(chain, Woke(rows, c), wakes[1..], rate)
  }

  /** Each chain keeps its own time. */
  predicate EachWoken(wakes: seq<Wake>, rate: Number) {
    forall i, j :: 0 <= i < j < |wakes| && wakes[i].chain == wakes[j].chain ==>
      wakes[j].call.now >= ContinuationScheduleAt(wakes[i].call.now, rate)
  }

  predicate NotBefore(wakes: seq<Wake>, chain: nat, from: real) {
    forall k :: 0 <= k < |wakes| && wakes[k].chain == chain ==> wakes[k].call.now >= from
  }

  lemma {:induction false} EachSpaced(chain: nat, rows: seq<Row>, wakes: seq<Wake>, rate: Number, from: real)
    requires EachWoken(wakes, rate) && NotBefore(wakes, chain, from)
    ensures var sends := SendsOf(chain, rows, wakes, rate);
      Spaced(sends, IntervalMs(rate)) && (sends != [] ==> sends[0] >= from)
    decreases |wakes|
  {
    hide IntervalMs, Times, Woke, Batch, Approved, Spaced, ContinuationScheduleAt, EachWoken, NotBefore;
    NoneSpaced(IntervalMs(rate));
    if wakes != [] {
      var c, rest := wakes[0].call, wakes[1..];
      var n := |Approved(Batch(rows, c.now), c.approve)|;
      RestWoken(wakes, chain, rate, from);
      if wakes[0].chain == chain {
        EachSpaced(chain, Woke(rows, c), rest, rate, ContinuationScheduleAt(c.now, rate));
        LaterStart(c.now, rate);
        if c.running {
          ApprovedIsShort(Batch(rows, c.now), c.approve);
          BatchIsShort(rows, c.now);
          TimesLength(n, c.now, rate);
          TimesSpaced(n, c.now, rate);
          SpacedConcat(Times(n, c.now, rate), SendsOf(chain, Woke(rows, c), rest, rate), IntervalMs(rate));
        } else {
          assert SendsOf(chain, rows, wakes, rate) == SendsOf(chain, Woke(rows, c), rest, rate);
        }
      } else {
        EachSpaced(chain, Woke(rows, c), rest, rate, from);
        assert SendsOf(chain, rows, wakes, rate) == SendsOf(chain, Woke(rows, c), rest, rate);
      }
    }
  }

  lemma RestWoken(wakes: seq<Wake>, chain: nat, rate: Number, from: real)
    requires wakes != [] && EachWoken(wakes, rate) && NotBefore(wakes, chain, from)
    ensures EachWoken(wakes[1..], rate) && NotBefore(wakes[1..], chain, from)
    ensures wakes[0].chain == chain ==>
      wakes[0].call.now >= from && NotBefore(wakes[1..], chain, ContinuationScheduleAt(wakes[0].call.now, rate))
  {
    hide ContinuationScheduleAt;
    assert forall k :: 0 <= k < |wakes[1..]| ==> wakes[1..][k] == wakes[k + 1];
  }

  lemma NoneSpaced(gap: real)
    ensures Spaced([], gap)
  {
  }

  /** The sends of chains 0, ..., n - 1 in one half-open minute. */
  function SendsInMinute(n: nat, rows: seq<Row>, wakes: seq<Wake>, rate: Number, from: real): nat {
    if n == 0 then 0
    else SendsInMinute(n - 1, rows, wakes, rate, from) + |InWindow(SendsOf(n - 1, rows, wakes, rate), from)|
  }

  /** When the earliest of the wakes is. */
  function Earliest(wakes: seq<Wake>): (t: real)
    ensures forall k :: 0 <= k < |wakes| ==> wakes[k].call.now >= t
  {
    if wakes == [] then 0.0
    else
      var t := Earliest(wakes[1..]);
      assert forall k :: 0 < k < |wakes| ==> wakes[k] == wakes[1..][k - 1];
      if wakes[0].call.now < t then wakes[0].call.now else t
  }

  /** Each chain keeps to the rate, so n of them together stamp at most n times a whole rate into any half-open minute. */
  lemma {:induction false} ChainsShareNoRate(n: nat, rows: seq<Row>, wakes: seq<Wake>, rate: Number, whole: nat, from: real)
    requires EachWoken(wakes, rate) && RateOf(rate) == whole as real
    ensures SendsInMinute(n, rows, wakes, rate, from) <= n * whole
  {
    hide SendsOf, InWindow, EachWoken, RateOf;
    if n > 0 {
      ChainsShareNoRate(n - 1, rows, wakes, rate, whole, from);
      EachSpaced(n - 1, rows, wakes, rate, Earliest(wakes));
      WindowBound(SendsOf(n - 1, rows, wakes, rate), rate, from);
      OneMoreChain(n, whole);
    }
  }

  lemma OneMoreChain(n: nat, whole: nat)
    requires n > 0
    ensures n * whole == (n - 1) * whole + whole
  {
  }

  lemma SendsUnfold(chain: nat, rows: seq<Row>, wakes: seq<Wake>, rate: Number)
    ensures SendsOf(chain, rows, wakes, rate)
         == if wakes == [] then []
            else
              var c := wakes[0].call;
              (if wakes[0].chain == chain && c.running then Times(|Approved(Batch(rows, c.now), c.approve)|, c.now, rate)
               else [])
              + SendsOf(chain, Woke(rows, c), wakes[1..], rate)
  {
  }

  lemma SendsOfTwo(chain: nat, rows: seq<Row>, one: Call, two: Call, rate: Number)
    requires one.running && two.running
    ensures SendsOf(chain, rows, [Wake(0, one), Wake(1, two)], rate)
         == (if chain == 0 then Times(|Approved(Batch(rows, one.now), one.approve)|, one.now, rate) else [])
            + (if chain == 1 then Times(|Approved(Batch(After(rows, one), two.now), two.approve)|, two.now, rate) else [])
  {
    hide SendsOf, Times, After, Batch, Approved;
    var wakes := [Wake(0, one), Wake(1, two)];
    assert wakes[1..] == [Wake(1, two)] && wakes[1..][1..] == [];
    SendsUnfold(chain, rows, wakes, rate);
    SendsUnfold(chain, After(rows, one), wakes[1..], rate);
    SendsUnfold(chain, After(After(rows, one), two), [], rate);
  }

  /** And two do reach twice the rate: woken together over enough recipients, all of them approved. */
  lemma TwoChainsDouble(rows: seq<Row>, one: Call, two: Call, rate: Number, n: nat)
    requires one.running && two.running && one.now == two.now && |Waiting(rows)| >= 2 * BATCH_SIZE
    requires (forall id :: one.approve(id)) && (forall id :: two.approve(id))
    requires FreshForAll(rows, [Wake(0, one), Wake(1, two)])
    requires n <= BATCH_SIZE && (n as real) - 1.0 < RateOf(rate) <= n as real
    ensures SendsInMinute(2, rows, [Wake(0, one), Wake(1, two)], rate, one.now) == 2 * n
  {
    hide After, Batch, Waiting, Times, Approved, RateOf, InWindow, Stale, SendsOf;
    var wakes := [Wake(0, one), Wake(1, two)];
    var later := After(rows, one);
    assert wakes[1..] == [Wake(1, two)] && wakes[1..][1..] == [];
    BatchIsFirstWaiting(rows, one.now);
    WaitingShrinks(rows, one);
    BatchIsFirstWaiting(later, two.now);
    ApproveAll(Batch(rows, one.now), one.approve);
    ApproveAll(Batch(later, two.now), two.approve);
    FirstMinute(BATCH_SIZE, one.now, rate, n);
    SendsOfTwo(0, rows, one, two, rate);
    SendsOfTwo(1, rows, one, two, rate);
    assert Times(BATCH_SIZE, one.now, rate) + [] == Times(BATCH_SIZE, one.now, rate);
    assert [] + Times(BATCH_SIZE, one.now, rate) == Times(BATCH_SIZE, one.now, rate);
    assert SendsInMinute(1, rows, wakes, rate, one.now) == SendsInMinute(0, rows, wakes, rate, one.now) + n;
  }

  // ---------- exactly what one invocation does ----------

  /** A recipient that may be claimed: waiting, and not claimed within the last fifteen minutes. */
  predicate Claimable(r: Row, now: real) {
    r.pending && match r.claimedAt case None => true case Some(at) => now - at > 900_000.0
  }

  /** How many of the first n recipients may be claimed. */
  function ClaimableIn(rows: seq<Row>, now: real, n: nat): nat
    requires n <= |rows|
  {
    if n == 0 then 0 else ClaimableIn(rows, now, n - 1) + if Claimable(rows[n - 1], now) then 1 else 0
  }

  lemma {:induction false} EligibleRank(rows: seq<Row>, now: real, n: nat)
    requires n <= |rows|
    ensures |Eligible(rows[..n], now)| == ClaimableIn(rows, now, n)
    ensures Eligible(rows[..n], now) <= Eligible(rows, now)
  {
    var p := r => Unclaimed(r) || Stale(r, now);
    PositionsPrefix(rows, p, n);
    EligibleCount(rows, now, n);
  }

  lemma {:induction false} PositionsPrefix(rows: seq<Row>, p: Row -> bool, n: nat)
    requires n <= |rows|
    ensures Positions(rows[..n], p) <= Positions(rows, p)
  {
    if n == |rows| {
      assert rows[..n] == rows;
    } else {
      var m := |rows| - 1;
      PositionsPrefix(rows[..m], p, n);
      assert rows[..m][..n] == rows[..n];
    }
  }

  lemma {:induction false} EligibleCount(rows: seq<Row>, now: real, n: nat)
    requires n <= |rows|
    ensures |Positions(rows[..n], r => Unclaimed(r) || Stale(r, now))| == ClaimableIn(rows, now, n)
  {
    if n > 0 {
      EligibleCount(rows, now, n - 1);
      assert rows[..n][..n - 1] == rows[..n - 1];
    }
  }

  lemma EligibleAt(rows: seq<Row>, now: real, i: nat)
    requires i < |rows|
    ensures i in Eligible(rows, now) <==> Claimable(rows[i], now)
    ensures Claimable(rows[i], now) ==>
      ClaimableIn(rows, now, i) < |Eligible(rows, now)| && Eligible(rows, now)[ClaimableIn(rows, now, i)] == i
  {
    hide Eligible, ClaimableIn;
    EligibleRank(rows, now, i);
    EligibleRank(rows, now, i + 1);
    EligibleMore(rows, now, i);
    EligibleIs(rows, now, i);
    if Claimable(rows[i], now) { assert Eligible(rows[..i + 1], now)[ClaimableIn(rows, now, i)] == i; }
  }

  lemma EligibleIs(rows: seq<Row>, now: real, i: nat)
    requires i < |rows|
    ensures i in Eligible(rows, now) <==> Claimable(rows[i], now)
  {
  }

  lemma EligibleMore(rows: seq<Row>, now: real, i: nat)
    requires i < |rows|
    ensures Eligible(rows[..i + 1], now) == Eligible(rows[..i], now) + if Claimable(rows[i], now) then [i] else []
  {
    assert rows[..i + 1][..i] == rows[..i];
  }

  /** A claim takes exactly the claimable recipients that fewer than fifty others come before. */
  lemma BatchExactly(rows: seq<Row>, now: real, i: nat)
    requires i < |rows|
    ensures i in Batch(rows, now) <==> Claimable(rows[i], now) && ClaimableIn(rows, now, i) < 50
  {
    hide Eligible;
    var e, k := Eligible(rows, now), ClaimableIn(rows, now, i);
    EligibleAt(rows, now, i);
    EligibleAscends(rows, now);
    if Claimable(rows[i], now) {
      if k < 50 { assert Batch(rows, now)[k] == i; }
      forall j | 0 <= j < |Batch(rows, now)| && Batch(rows, now)[j] == i ensures j == k { assert e[j] == i; }
    }
  }

  lemma EligibleAscends(rows: seq<Row>, now: real)
    ensures Ascending(Eligible(rows, now))
  {
  }

  /**
   * Every recipient an invocation takes is stamped and, if the policy refuses it, leaves pending; no other row changes.
   */
  lemma RowsAfterExactly(rows: seq<Row>, approve: nat -> bool, now: real, i: nat)
    requires i < |rows|
    ensures var batch := Batch(rows, now);
      Refuse(Stamp(rows, batch, now), batch, approve)[i] ==
      if Claimable(rows[i], now) && ClaimableIn(rows, now, i) < 50 then Row(approve(i), Some(now)) else rows[i]
  {
    hide Batch;
    BatchExactly(rows, now, i);
  }

  /**
   * An invocation queues a send for exactly the recipients it takes that are approved, in order, an interval apart from now
   * on, and after them, exactly when fifty could be taken, its continuation fifty intervals from now.
   */
  lemma QueuedExactly(rows: seq<Row>, approve: nat -> bool, now: real, rate: Number)
    ensures var gap, sent := MINUTE_MS / RateOf(rate), Outgoing(Batch(rows, now), approve, now, rate);
      var n := if ClaimableIn(rows, now, |rows|) < 50 then |sent| else |sent| - 1;
      && n >= 0 && (n < |sent| ==> sent[n] == Continue(now + 50.0 * gap))
      && (forall k :: 0 <= k < n ==> sent[k].Dispatch? && sent[k].at == now + k as real * gap)
      && (forall j, k :: 0 <= j < k < n ==> sent[j].recipient < sent[k].recipient)
      && (forall id: nat :: Sends(sent, n, id) <==>
            id < |rows| && Claimable(rows[id], now) && ClaimableIn(rows, now, id) < 50 && approve(id))
  {
    hide Claimable, Batch, ClaimableIn;
    var batch := Batch(rows, now);
    var ids := Approved(batch, approve);
    BatchLength(rows, now);
    OutgoingAre(batch, approve, now, rate);
    ApprovedAscends(rows, now, approve);
    BatchInRange(rows, now);
    forall id: nat ensures id in ids <==> id in batch && approve(id) { ApprovedExactly(batch, approve, id); }
    forall i: nat | i < |rows| ensures i in batch <==> Claimable(rows[i], now) && ClaimableIn(rows, now, i) < 50 {
      BatchExactly(rows, now, i);
    }
  }

  /** One of the first n things queued is a send to the recipient. */
  predicate Sends(sent: seq<Queued>, n: nat, id: nat)
    requires n <= |sent|
  {
    exists k :: 0 <= k < n && sent[k].Dispatch? && sent[k].recipient == id
  }

  lemma OutgoingAre(batch: seq<nat>, approve: nat -> bool, now: real, rate: Number)
    ensures var ids, gap, sent := Approved(batch, approve), MINUTE_MS / RateOf(rate), Outgoing(batch, approve, now, rate);
      && |sent| == |ids| + (if |batch| < 50 then 0 else 1)
      && (|batch| >= 50 ==> sent[|ids|] == Continue(now + 50.0 * gap))
      && (forall k :: 0 <= k < |ids| ==> sent[k] == Dispatch(now + k as real * gap, ids[k]))
      && (forall id: nat :: Sends(sent, |ids|, id) <==> id in ids)
  {
    hide Approved;
    var ids, sent := Approved(batch, approve), Outgoing(batch, approve, now, rate);
    forall id: nat ensures Sends(sent, |ids|, id) <==> id in ids {
      if id in ids {
        var k :| 0 <= k < |ids| && ids[k] == id;
        assert sent[k].recipient == id;
      }
    }
  }

  lemma BatchPending(rows: seq<Row>, now: real)
    ensures forall i :: i in Batch(rows, now) ==> i < |rows| && rows[i].pending
  {
  }

  lemma BatchLength(rows: seq<Row>, now: real)
    ensures var n := ClaimableIn(rows, now, |rows|); |Batch(rows, now)| == if n < 50 then n else 50
  {
    EligibleRank(rows, now, |rows|);
    assert rows[..|rows|] == rows;
  }

  lemma {:induction false} ApprovedInOrder(batch: seq<nat>, approve: nat -> bool)
    requires Ascending(batch)
    ensures Ascending(Approved(batch, approve))
  {
    if batch != [] {
      var n := |batch| - 1;
      var front := Approved(batch[..n], approve);
      ApprovedInOrder(batch[..n], approve);
      forall k | 0 <= k < |front| ensures front[k] < batch[n] {
        assert front[k] in front;
        ApprovedExactly(batch[..n], approve, front[k]);
      }
    }
  }

  lemma ApprovedAscends(rows: seq<Row>, now: real, approve: nat -> bool)
    ensures Ascending(Approved(Batch(rows, now), approve))
  {
    EligibleAscends(rows, now);
    ApprovedInOrder(Batch(rows, now), approve);
  }
}
