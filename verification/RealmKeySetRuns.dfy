/** What every interleaving of tokens, shared fetches, background retries and clock ticks keeps. */
module RealmKeySetRuns {
  import opened Options
  import opened RealmKeySet

  /** The last successful fetch among the completions. */
  function LastOk(done: seq<Completion>): (c: Option<Completion>)
    ensures c.Some? ==> c.value.Fetched? && c.value in done
  {
    if done == [] then None
    else if done[|done| - 1].Fetched? then Some(done[|done| - 1])
    else LastOk(done[..|done| - 1])
  }

  predicate LastFailed(done: seq<Completion>) { done != [] && done[|done| - 1].Failed? }

  /** When the failures at the end of the completions began. */
  function FailingSince(done: seq<Completion>): int
    requires LastFailed(done)
  {
    var n := |done| - 1;
    if LastFailed(done[..n]) then FailingSince(done[..n]) else done[n].at
  }

  /**
   * Why an answer is right, from the completions alone: a verdict is that of the last set the realm served, used while
   * young enough or fetched for this very request; the fallback answers only after a failed fetch, never refuses a key
   * id it does not hold, and otherwise the last failure is the answer.
   */
  predicate Justified(a: Answer, l: Limits, completions: seq<Completion>) {
    && a.arrived <= a.seen <= |completions|
    && (var done := completions[..a.seen];
        var good := LastOk(done);
        match a.source
        case Cached =>
          && a.arrived == a.seen && good.Some? && a.at - good.value.at < l.cacheMaxAgeMs
          && a.reply == Verdict(Find(good.value.keys, a.kid))
          && (Find(good.value.keys, a.kid) == NoMatchingKey ==> a.at - good.value.at < l.cooldownMs)
        case ForRequest =>
          && a.arrived < a.seen && done[a.seen - 1].Fetched? && done[a.seen - 1].at == a.at
          && a.reply == Verdict(Find(done[a.seen - 1].keys, a.kid))
        case Fallback =>
          && LastFailed(done) && good.Some? && a.at - good.value.at < l.maxStaleMs
          && (if Find(good.value.keys, a.kid) == NoMatchingKey then a.reply == Unavailable(done[a.seen - 1].error)
              else a.reply == Verdict(Find(good.value.keys, a.kid)))
        case NoKeys =>
          && a.arrived < a.seen && LastFailed(done) && done[a.seen - 1].at == a.at
          && (good.Some? ==> a.at - good.value.at >= l.maxStaleMs)
          && a.reply == Unavailable(done[a.seen - 1].error))
  }

  predicate Spaced(starts: seq<int>, interval: int) {
    forall i :: 0 <= i < |starts| - 1 ==> starts[i + 1] - starts[i] >= interval
  }

  /** The outage record says exactly that the last fetch to complete failed, why, and since when. */
  predicate OutageMatches(s: State) {
    && (s.outage.Some? <==> LastFailed(s.completions))
    && (s.outage.Some? ==>
          && s.outage.value.error == s.completions[|s.completions| - 1].error
          && s.outage.value.since == FailingSince(s.completions)
          && s.outage.value.since <= s.outage.value.lastAttemptAt <= s.now)
  }

  predicate KeysMatch(s: State) {
    match LastOk(s.completions)
    case None => s.fetchedAt == None && s.keys == None
    case Some(c) => s.fetchedAt == Some(c.at) && s.keys == Some(c.keys)
  }

  /** Retries are spaced, and an outage always remembers an attempt at least as late as the last retry. */
  predicate RetriesThrottled(s: State, l: Limits) {
    && (s.retrying ==> s.outage.Some?)
    && Spaced(s.retryStarts, l.retryIntervalMs)
    && (s.retryStarts != [] ==> s.retryStarts[|s.retryStarts| - 1] <= s.now)
    && (s.retryStarts != [] && s.outage.Some? ==>
          s.outage.value.lastAttemptAt >= s.retryStarts[|s.retryStarts| - 1])
  }

  predicate AllJustified(answers: seq<Answer>, l: Limits, completions: seq<Completion>) {
    forall i :: 0 <= i < |answers| ==> Justified(answers[i], l, completions)
  }

  predicate AnswersJustified(s: State, l: Limits) {
    && AllJustified(s.answers, l, s.completions)
    && (forall i :: 0 <= i < |s.waiting| ==> s.waiting[i].arrived <= |s.completions|)
  }

  predicate Inv(s: State, l: Limits) {
    OutageMatches(s) && KeysMatch(s) && RetriesThrottled(s, l) && AnswersJustified(s, l)
  }

  // ---------- one step keeps it ----------

  lemma JustifiedGrows(a: Answer, l: Limits, completions: seq<Completion>, c: Completion)
    requires Justified(a, l, completions)
    ensures Justified(a, l, completions + [c])
  {
    assert (completions + [c])[..a.seen] == completions[..a.seen];
  }

  lemma AnswersGrow(s: State, l: Limits, c: Completion)
    requires AnswersJustified(s, l)
    ensures AllJustified(s.answers, l, s.completions + [c])
  {
    forall i | 0 <= i < |s.answers| ensures Justified(s.answers[i], l, s.completions + [c]) {
      JustifiedGrows(s.answers[i], l, s.completions, c);
    }
  }

  lemma JustifiedConcat(a: seq<Answer>, b: seq<Answer>, l: Limits, completions: seq<Completion>)
    requires AllJustified(a, l, completions) && AllJustified(b, l, completions)
    ensures AllJustified(a + b, l, completions)
  {
    hide Justified;
  }

  lemma ArriveKeeps(s: State, l: Limits, id: nat, kid: string)
    requires Inv(s, l)
    ensures Inv(ArriveStep(s, l, id, kid), l)
  {
    hide Justified, OutageMatches, KeysMatch, RetriesThrottled, ArriveStep;
    var t := ArriveStep(s, l, id, kid);
    ArrivalRecords(s, l, id, kid);
    ArrivalJustified(s, l, id, kid);
    forall i | 0 <= i < |t.answers| ensures Justified(t.answers[i], l, t.completions) {
      assert i < |s.answers| ==> t.answers[i] == s.answers[i];
    }
  }

  lemma RetriesOnArrival(s: State, l: Limits, id: nat, kid: string)
    requires RetriesThrottled(s, l) && (s.outage.Some? ==> s.outage.value.lastAttemptAt <= s.now)
    ensures RetriesThrottled(ArriveStep(s, l, id, kid), l)
  {
    hide Find, LastGoodKeys, FallbackReply, NewAnswer, YoungerThan;
  }

  /** An arriving token leaves what is recorded of keys, outage and retries in order. */
  lemma ArrivalRecords(s: State, l: Limits, id: nat, kid: string)
    requires Inv(s, l)
    ensures var t := ArriveStep(s, l, id, kid); OutageMatches(t) && KeysMatch(t) && RetriesThrottled(t, l)
    ensures var t := ArriveStep(s, l, id, kid);
      t.completions == s.completions && forall i :: 0 <= i < |t.waiting| ==> t.waiting[i].arrived <= |t.completions|
  {
    hide AllJustified, Find, LastOk, FailingSince, LastGoodKeys, FallbackReply, NewAnswer, YoungerThan, RetriesThrottled;
    RetriesOnArrival(s, l, id, kid);
  }

  /** What a token is told as it arrives. */
  lemma ArrivalJustified(s: State, l: Limits, id: nat, kid: string)
    requires Inv(s, l)
    ensures var t := ArriveStep(s, l, id, kid);
      && s.answers <= t.answers && |t.answers| <= |s.answers| + 1
      && (|t.answers| > |s.answers| ==> Justified(t.answers[|s.answers|], l, s.completions))
  {
    hide Find, AllJustified, RetriesThrottled;
    assert s.completions[..|s.completions|] == s.completions;
  }

  lemma {:induction false} RequeuedBound(ws: seq<Waiter>, keys: KeySet, l: Limits, seen: nat)
    requires forall i :: 0 <= i < |ws| ==> ws[i].arrived <= seen
    ensures forall i :: 0 <= i < |Requeued(ws, keys, l, seen)| ==> Requeued(ws, keys, l, seen)[i].arrived <= seen
  {
    if ws != [] { RequeuedBound(ws[..|ws| - 1], keys, l, seen); }
  }

  lemma {:induction false} ServedJustified(ws: seq<Waiter>, l: Limits, completions: seq<Completion>)
    requires completions != [] && completions[|completions| - 1].Fetched?
    requires forall i :: 0 <= i < |ws| ==> ws[i].arrived < |completions|
    ensures var c := completions[|completions| - 1];
      AllJustified(Served(ws, c.keys, l, c.at, |completions|), l, completions)
  {
    assert completions[..|completions|] == completions;
    if ws != [] {
      var n, c := |ws| - 1, completions[|completions| - 1];
      ServedJustified(ws[..n], l, completions);
      if !AsksAgain(ws[n], c.keys, l) {
        var w := ws[n];
        var a := Answer(w.id, w.kid, w.arrived, c.at, |completions|, ForRequest, Verdict(Find(c.keys, w.kid)));
        assert Justified(a, l, completions);
        JustifiedConcat(Served(ws[..n], c.keys, l, c.at, |completions|), [a], l, completions);
      }
    }
  }

  lemma FetchOkKeeps(s: State, l: Limits, served: KeySet)
    requires Inv(s, l) && FetchInFlight(s)
    ensures Inv(FetchOkStep(s, l, served), l)
  {
    var c := Fetched(s.now, served);
    AnswersGrow(s, l, c);
    ServedJustified(s.waiting, l, s.completions + [c]);
    JustifiedConcat(s.answers, Served(s.waiting, served, l, s.now, |s.completions| + 1), l, s.completions + [c]);
    RequeuedBound(s.waiting, served, l, |s.completions| + 1);
  }

  lemma {:induction false} RefusedJustified(
    ws: seq<Waiter>, l: Limits, good: Option<KeySet>, completions: seq<Completion>)
    requires LastFailed(completions)
    requires forall i :: 0 <= i < |ws| ==> ws[i].arrived < |completions|
    requires var at, last := completions[|completions| - 1].at, LastOk(completions);
      if good.Some? then last.Some? && at - last.value.at < l.maxStaleMs && last.value.keys == good.value
      else last.Some? ==> at - last.value.at >= l.maxStaleMs
    ensures var c := completions[|completions| - 1];
      AllJustified(Refused(ws, good, c.error, c.at, |completions|), l, completions)
  {
    assert completions[..|completions|] == completions;
    if ws != [] {
      var n, c := |ws| - 1, completions[|completions| - 1];
      RefusedJustified(ws[..n], l, good, completions);
      var (source, reply) := FailedReply(good, c.error, ws[n].kid);
      var a := Answer(ws[n].id, ws[n].kid, ws[n].arrived, c.at, |completions|, source, reply);
      assert Justified(a, l, completions);
      JustifiedConcat(Refused(ws[..n], good, c.error, c.at, |completions|), [a], l, completions);
    }
  }

  lemma FetchFailKeeps(s: State, l: Limits, failure: string)
    requires Inv(s, l) && FetchInFlight(s)
    ensures Inv(FetchFailStep(s, l, failure), l)
  {
    var c := Failed(s.now, failure);
    var done := s.completions + [c];
    assert done[..|done| - 1] == s.completions;
    AnswersGrow(s, l, c);
    RefusedJustified(s.waiting, l, LastGoodKeys(s, l), done);
    JustifiedConcat(s.answers, Refused(s.waiting, LastGoodKeys(s, l), failure, s.now, |done|), l, done);
  }

  lemma StepKeeps(s: State, l: Limits, e: Event)
    requires Inv(s, l)
    ensures Inv(Step(s, l, e), l)
  {
    hide Inv, ArriveStep, FetchOkStep, FetchFailStep;
    match e {
      case Tick(ms) => TickKeeps(s, l, ms);
      case Arrive(id, kid) => ArriveKeeps(s, l, id, kid);
      case FetchOk(served) => if FetchInFlight(s) { FetchOkKeeps(s, l, served); }
      case FetchFail(failure) => if FetchInFlight(s) { FetchFailKeeps(s, l, failure); }
    }
  }

  lemma TickKeeps(s: State, l: Limits, ms: nat)
    requires Inv(s, l)
    ensures Inv(s.(now := s.now + ms), l)
  {
  }

  /** The invariant holds in every run: any mix of tokens, fetch results and ticks, from any start. */
  lemma {:induction false} RunKeeps(start: int, l: Limits, events: seq<Event>)
    ensures Inv(Run(start, l, events), l)
  {
    hide Inv;
    if events == [] {
      InitialInv(start, l);
    } else {
      RunKeeps(start, l, events[..|events| - 1]);
      StepKeeps(Run(start, l, events[..|events| - 1]), l, events[|events| - 1]);
    }
  }

  lemma InitialInv(start: int, l: Limits)
    ensures Inv(Initial(start), l)
  {
  }

  // ---------- what the module promises ----------

  /** An outage is recorded exactly when the last fetch to complete failed: its error, since the first failure in a row. */
  lemma OutageExactly(start: int, l: Limits, events: seq<Event>)
    ensures var s := Run(start, l, events);
      && (s.outage.Some? <==> LastFailed(s.completions))
      && (s.outage.Some? ==> s.outage.value.error == s.completions[|s.completions| - 1].error)
      && (s.outage.Some? ==> s.outage.value.since == FailingSince(s.completions))
  {
    RunKeeps(start, l, events);
  }

  /** Every answer of every run is justified by the fetches that had completed when it was given. */
  lemma EveryAnswerJustified(start: int, l: Limits, events: seq<Event>, i: nat)
    requires i < |Run(start, l, events).answers|
    ensures Justified(Run(start, l, events).answers[i], l, Run(start, l, events).completions)
  {
    RunKeeps(start, l, events);
  }

  /** "No matching key" is a verdict only of keys the realm served within the cooldown or for this request. */
  lemma NoMatchNeedsTheRealm(start: int, l: Limits, events: seq<Event>, i: nat)
    requires i < |Run(start, l, events).answers|
    requires Run(start, l, events).answers[i].reply == Verdict(NoMatchingKey)
    ensures var a, done := Run(start, l, events).answers[i], Run(start, l, events).completions;
      && a.source in {Cached, ForRequest}
      && a.seen <= |done| && LastOk(done[..a.seen]).Some?
      && (a.source == Cached ==> a.at - LastOk(done[..a.seen]).value.at < l.cooldownMs)
      && (a.source == ForRequest ==> a.at == LastOk(done[..a.seen]).value.at)
  {
    EveryAnswerJustified(start, l, events, i);
  }

  /** Background retries start at least a retry interval apart, across outages too. */
  lemma RetriesSpaced(start: int, l: Limits, events: seq<Event>, i: nat, j: nat)
    requires i < j < |Run(start, l, events).retryStarts| && l.retryIntervalMs >= 0
    ensures Run(start, l, events).retryStarts[j] - Run(start, l, events).retryStarts[i] >= l.retryIntervalMs
  {
    RunKeeps(start, l, events);
    SpacedApart(Run(start, l, events).retryStarts, l.retryIntervalMs, i, j);
  }

  lemma {:induction false} SpacedApart(starts: seq<int>, interval: int, i: nat, j: nat)
    requires i < j < |starts| && interval >= 0 && Spaced(starts, interval)
    ensures starts[j] - starts[i] >= interval
    decreases j
  {
    if j > i + 1 {
      SpacedApart(starts, interval, i, j - 1);
      assert starts[j - 1 + 1] - starts[j - 1] >= interval;
    }
  }

  // ---------- nothing is put off ----------

  /** When the realm was last asked in vain on a request's behalf, or asked again in the background. */
  function LastAttempt(start: int, l: Limits, events: seq<Event>): Option<int> {
    if events == [] then None
    else
      var front, e := events[..|events| - 1], events[|events| - 1];
      var s, t := Run(start, l, front), Run(start, l, events);
      if e.FetchFail? && s.waiting != [] then Some(s.now)
      else if t.retryStarts != s.retryStarts then Some(s.now)
      else LastAttempt(start, l, front)
  }

  /** It is the time of a retry's start or of a fetch that failed. */
  predicate Recorded(s: State, at: int) {
    at in s.retryStarts || exists i :: 0 <= i < |s.completions| && s.completions[i].Failed? && s.completions[i].at == at
  }

  lemma StepAttempts(s: State, l: Limits, e: Event)
    requires RetriesThrottled(s, l)
    ensures var t := Step(s, l, e); t.outage.Some? ==>
      if (e.FetchFail? && s.waiting != []) || t.retryStarts != s.retryStarts then t.outage.value.lastAttemptAt == s.now
      else s.outage.Some? && t.outage.value.lastAttemptAt == s.outage.value.lastAttemptAt
    ensures var t := Step(s, l, e);
      (e.FetchFail? && s.waiting != []) || t.retryStarts != s.retryStarts ==> Recorded(t, s.now)
    ensures forall at :: Recorded(s, at) ==> Recorded(Step(s, l, e), at)
  {
    hide Find, LastGoodKeys, FallbackReply, Served, Requeued, Refused, Spaced;
    var t := Step(s, l, e);
    assert s.completions <= t.completions && s.retryStarts <= t.retryStarts;
    forall at | Recorded(s, at) ensures Recorded(t, at) {
      if at !in s.retryStarts {
        var i :| 0 <= i < |s.completions| && s.completions[i].Failed? && s.completions[i].at == at;
        assert t.completions[i] == s.completions[i];
      }
    }
    if e.FetchFail? && s.waiting != [] { assert t.completions[|s.completions|] == Failed(s.now, e.failure); }
  }

  lemma {:induction false} LastAttemptIs(start: int, l: Limits, events: seq<Event>)
    ensures var s, at := Run(start, l, events), LastAttempt(start, l, events);
      && (s.outage.Some? ==> at == Some(s.outage.value.lastAttemptAt))
      && (at.Some? ==> Recorded(s, at.value))
  {
    hide Step, Recorded, RetriesThrottled;
    if events != [] {
      var front := events[..|events| - 1];
      LastAttemptIs(start, l, front);
      RunKeeps(start, l, front);
      InvThrottled(Run(start, l, front), l);
      StepAttempts(Run(start, l, front), l, events[|events| - 1]);
    }
  }

  lemma InvThrottled(s: State, l: Limits)
    requires Inv(s, l)
    ensures RetriesThrottled(s, l) && OutageMatches(s) && KeysMatch(s)
  {
  }

  /** The last good keys may answer for the realm: it failed last, and they are young enough. */
  predicate FallsBack(completions: seq<Completion>, now: int, l: Limits) {
    LastFailed(completions) && LastOk(completions).Some? && now - LastOk(completions).value.at < l.maxStaleMs
  }

  /** The cached keys may answer a key id: young enough, and it is theirs or they are too young to ask again. */
  predicate CacheAnswers(completions: seq<Completion>, now: int, l: Limits, kid: string) {
    && LastOk(completions).Some? && now - LastOk(completions).value.at < l.cacheMaxAgeMs
    && (kid in LastOk(completions).value.keys || now - LastOk(completions).value.at < l.cooldownMs)
  }

  /** One arrival during an outage on good keys starts a retry exactly when none is under way and the last attempt is old. */
  lemma ArrivalRetries(s: State, l: Limits, id: nat, kid: string)
    requires s.outage.Some? && s.keys.Some? && s.fetchedAt.Some? && s.now - s.fetchedAt.value < l.maxStaleMs
    ensures var t := ArriveStep(s, l, id, kid);
      if !s.retrying && s.now - s.outage.value.lastAttemptAt >= l.retryIntervalMs
      then t.retrying && t.retryStarts == s.retryStarts + [s.now]
      else t.retrying == s.retrying && t.retryStarts == s.retryStarts
  {
    hide Find;
  }

  /** As a token comes, a background retry starts exactly then. */
  lemma RetryExactly(start: int, l: Limits, events: seq<Event>, id: nat, kid: string)
    ensures var s, t := Run(start, l, events), Run(start, l, events + [Arrive(id, kid)]);
      var at := LastAttempt(start, l, events);
      var starts := FallsBack(s.completions, s.now, l) && !s.retrying && at.Some? && s.now - at.value >= l.retryIntervalMs;
      if starts then t.retrying && t.retryStarts == s.retryStarts + [s.now]
      else t.retrying == s.retrying && t.retryStarts == s.retryStarts
  {
    hide Find, LastOk, Inv;
    assert (events + [Arrive(id, kid)])[..|events|] == events;
    RunKeeps(start, l, events);
    InvThrottled(Run(start, l, events), l);
    LastAttemptIs(start, l, events);
    var s := Run(start, l, events);
    if s.outage.Some? && LastGoodKeys(s, l).Some? { ArrivalRetries(s, l, id, kid); }
  }

  /**
   * In every run, a token is answered as it comes exactly when the fallback or the cache may answer it, and otherwise joins
   * the fetch. And as it comes a background retry starts, at once, exactly when the fallback answers, no retry is under way
   * and the last attempt is a retry interval ago.
   */
  lemma ArrivalExactly(start: int, l: Limits, events: seq<Event>, id: nat, kid: string)
    ensures var s, t := Run(start, l, events), Run(start, l, events + [Arrive(id, kid)]);
      var fallback, cached := FallsBack(s.completions, s.now, l), CacheAnswers(s.completions, s.now, l, kid);
      && t.completions == s.completions && s.answers <= t.answers && s.waiting <= t.waiting
      && |t.answers| == |s.answers| + (if fallback || cached then 1 else 0)
      && |t.waiting| == |s.waiting| + (if fallback || cached then 0 else 1)
      && (fallback ==> t.answers[|s.answers|].id == id && t.answers[|s.answers|].source == Fallback)
      && (cached && !fallback ==> t.answers[|s.answers|].id == id && t.answers[|s.answers|].source == Cached)
      && (fallback || cached ==> t.answers[|s.answers|].kid == kid && t.answers[|s.answers|].at == s.now)
      && (!fallback && !cached ==> t.waiting[|s.waiting|].id == id && t.waiting[|s.waiting|].kid == kid)
    ensures var s, t := Run(start, l, events), Run(start, l, events + [Arrive(id, kid)]);
      var at := LastAttempt(start, l, events);
      var starts := FallsBack(s.completions, s.now, l) && !s.retrying && at.Some? && s.now - at.value >= l.retryIntervalMs;
      if starts then t.retrying && t.retryStarts == s.retryStarts + [s.now]
      else t.retrying == s.retrying && t.retryStarts == s.retryStarts
  {
    hide Find, LastOk, Inv;
    assert (events + [Arrive(id, kid)])[..|events|] == events;
    RunKeeps(start, l, events);
    InvThrottled(Run(start, l, events), l);
    RetryExactly(start, l, events, id, kid);
    var good := LastOk(Run(start, l, events).completions);
    if good.Some? { NoMatchExactly(good.value.keys, kid); }
  }

  lemma NoMatchExactly(keys: KeySet, kid: string)
    ensures Find(keys, kid) == NoMatchingKey <==> kid !in keys
  {
  }

  /** So a recovery is looked for: with every completion and retry an interval old, the next token starts a retry. */
  lemma RecoveryIsLookedFor(start: int, l: Limits, events: seq<Event>, id: nat, kid: string)
    requires var s := Run(start, l, events);
      && FallsBack(s.completions, s.now, l) && !s.retrying
      && (forall i :: 0 <= i < |s.completions| ==> s.now - s.completions[i].at >= l.retryIntervalMs)
      && (forall i :: 0 <= i < |s.retryStarts| ==> s.now - s.retryStarts[i] >= l.retryIntervalMs)
    ensures var s, t := Run(start, l, events), Run(start, l, events + [Arrive(id, kid)]);
      && t.retryStarts == s.retryStarts + [s.now] && FetchInFlight(t)
      && t.waiting == s.waiting && |t.answers| == |s.answers| + 1
  {
    hide Run, LastOk, Find;
    var s := Run(start, l, events);
    ArrivalExactly(start, l, events, id, kid);
    LastAttemptIs(start, l, events);
    OutageExactly(start, l, events);
    assert Recorded(s, LastAttempt(start, l, events).value);
  }

  /**
   * A fetch that completes leaves no retry under way and nobody waiting, but for those it was fetched for want of keys, who
   * ask again for a key id the new set does not hold, when there is no cooldown.
   */
  lemma FetchEndsWaiting(start: int, l: Limits, events: seq<Event>, served: KeySet, failure: string)
    requires FetchInFlight(Run(start, l, events))
    ensures var s, t := Run(start, l, events), Run(start, l, events + [FetchFail(failure)]);
      t.waiting == [] && !t.retrying && |t.completions| == |s.completions| + 1
    ensures var s, t := Run(start, l, events), Run(start, l, events + [FetchOk(served)]);
      && !t.retrying && t.completions == s.completions + [Fetched(s.now, served)]
      && (l.cooldownMs > 0 ==> t.waiting == [])
      && forall w :: w in t.waiting <==>
           l.cooldownMs <= 0 && w.phase == Refetch && Find(served, w.kid) == NoMatchingKey && w.(phase := First) in s.waiting
  {
    hide Find;
    assert (events + [FetchFail(failure)])[..|events|] == events;
    assert (events + [FetchOk(served)])[..|events|] == events;
    var s := Run(start, l, events);
    RequeuedExactly(s.waiting, served, l, |s.completions| + 1);
  }

  lemma {:induction false} RequeuedExactly(ws: seq<Waiter>, served: KeySet, l: Limits, seen: nat)
    ensures forall w :: w in Requeued(ws, served, l, seen) <==>
      l.cooldownMs <= 0 && w.phase == Refetch && Find(served, w.kid) == NoMatchingKey && w.(phase := First) in ws
    ensures l.cooldownMs > 0 ==> Requeued(ws, served, l, seen) == []
  {
    hide Find;
    if ws != [] {
      var n := |ws| - 1;
      RequeuedExactly(ws[..n], served, l, seen);
      assert ws == ws[..n] + [ws[n]];
    }
  }

  // ---------- every request is answered once ----------

  function AnswerIds(answers: seq<Answer>): seq<nat> {
    seq(|answers|, i requires 0 <= i < |answers| => answers[i].id)
  }

  function WaiterIds(ws: seq<Waiter>): seq<nat> { seq(|ws|, i requires 0 <= i < |ws| => ws[i].id) }

  function Arrivals(events: seq<Event>): seq<nat> {
    if events == [] then []
    else
      var e := events[|events| - 1];
      Arrivals(events[..|events| - 1]) + if e.Arrive? then [e.id] else []
  }

  /** Every request seen: answered, or still waiting. */
  function Accounted(answers: seq<Answer>, ws: seq<Waiter>): multiset<nat> {
    multiset(AnswerIds(answers)) + multiset(WaiterIds(ws))
  }

  lemma AccountedConcat(a: seq<Answer>, b: seq<Answer>, v: seq<Waiter>, w: seq<Waiter>)
    ensures Accounted(a + b, v + w) == Accounted(a, v) + Accounted(b, w)
  {
    assert AnswerIds(a + b) == AnswerIds(a) + AnswerIds(b);
    assert WaiterIds(v + w) == WaiterIds(v) + WaiterIds(w);
  }

  lemma AccountedOne(a: Answer, w: Waiter)
    ensures Accounted([a], []) == multiset{a.id} && Accounted([], [w]) == multiset{w.id}
    ensures Accounted([], []) == multiset{}
  {
    assert AnswerIds([a]) == [a.id] && WaiterIds([w]) == [w.id];
  }

  lemma {:induction false} ServedOrRequeued(ws: seq<Waiter>, keys: KeySet, l: Limits, now: int, seen: nat)
    ensures Accounted(Served(ws, keys, l, now, seen), Requeued(ws, keys, l, seen)) == Accounted([], ws)
  {
    hide Accounted, AsksAgain;
    if ws != [] {
      var n := |ws| - 1;
      var w := ws[n];
      ServedOrRequeued(ws[..n], keys, l, now, seen);
      var answers, again := Served(ws[..n], keys, l, now, seen), Requeued(ws[..n], keys, l, seen);
      var a := Answer(w.id, w.kid, w.arrived, now, seen, ForRequest, Verdict(Find(keys, w.kid)));
      var none: seq<Answer> := [];
      AccountedConcat(none, none, ws[..n], [w]);
      assert ws[..n] + [w] == ws && none + none == none;
      AccountedOne(a, w);
      AccountedOne(a, w.(phase := Refetch));
      if AsksAgain(w, keys, l) {
        AccountedConcat(answers, [], again, [w.(phase := Refetch)]);
        assert answers + [] == answers;
      } else {
        AccountedConcat(answers, [a], again, []);
        assert again + [] == again;
      }
    }
  }

  lemma {:induction false} AllRefused(ws: seq<Waiter>, good: Option<KeySet>, failure: string, now: int, seen: nat)
    ensures AnswerIds(Refused(ws, good, failure, now, seen)) == WaiterIds(ws)
  {
    if ws != [] {
      var n := |ws| - 1;
      AllRefused(ws[..n], good, failure, now, seen);
      var before, all := Refused(ws[..n], good, failure, now, seen), Refused(ws, good, failure, now, seen);
      assert AnswerIds(all) == AnswerIds(before) + [ws[n].id];
      assert WaiterIds(ws) == WaiterIds(ws[..n]) + [ws[n].id];
    }
  }

  lemma OkIds(s: State, l: Limits, served: KeySet)
    ensures var t := FetchOkStep(s, l, served); Accounted(t.answers, t.waiting) == Accounted(s.answers, s.waiting)
  {
    hide Accounted, Served, Requeued;
    var seen := |s.completions| + 1;
    var answers, again := Served(s.waiting, served, l, s.now, seen), Requeued(s.waiting, served, l, seen);
    ServedOrRequeued(s.waiting, served, l, s.now, seen);
    var none: seq<Answer> := [];
    AccountedConcat(s.answers, answers, [], again);
    AccountedConcat(s.answers, none, [], s.waiting);
    assert [] + again == again && [] + s.waiting == s.waiting && s.answers + none == s.answers;
    assert Accounted(s.answers, []) + Accounted(answers, again) == Accounted(s.answers, []) + Accounted(none, s.waiting);
  }

  lemma FailIds(s: State, l: Limits, failure: string)
    ensures var t := FetchFailStep(s, l, failure); Accounted(t.answers, t.waiting) == Accounted(s.answers, s.waiting)
  {
    hide Refused, OutageAfter, LastGoodKeys;
    var seen := |s.completions| + 1;
    var answers := Refused(s.waiting, LastGoodKeys(s, l), failure, s.now, seen);
    AllRefused(s.waiting, LastGoodKeys(s, l), failure, s.now, seen);
    assert AnswerIds(s.answers + answers) == AnswerIds(s.answers) + AnswerIds(answers);
    assert WaiterIds([]) == [];
  }

  lemma ArriveIds(s: State, l: Limits, id: nat, kid: string)
    ensures var t := ArriveStep(s, l, id, kid);
      Accounted(t.answers, t.waiting) == Accounted(s.answers, s.waiting) + multiset{id}
  {
    var t := ArriveStep(s, l, id, kid);
    hide ArriveStep;
    ArriveShape(s, l, id, kid);
    if t.waiting == s.waiting {
      assert AnswerIds(t.answers) == AnswerIds(s.answers) + [id];
    } else {
      assert WaiterIds(t.waiting) == WaiterIds(s.waiting) + [id];
    }
  }

  /** A token that comes in is answered at once or waits, never both. */
  lemma ArriveShape(s: State, l: Limits, id: nat, kid: string)
    ensures var t := ArriveStep(s, l, id, kid);
      || (t.waiting == s.waiting && |t.answers| == |s.answers| + 1 && t.answers[..|s.answers|] == s.answers
          && t.answers[|s.answers|].id == id)
      || (t.answers == s.answers && |t.waiting| == |s.waiting| + 1 && t.waiting[..|s.waiting|] == s.waiting
          && t.waiting[|s.waiting|].id == id)
  {
  }

  lemma StepIds(s: State, l: Limits, e: Event)
    ensures var t := Step(s, l, e);
      Accounted(t.answers, t.waiting)
      == Accounted(s.answers, s.waiting) + if e.Arrive? then multiset{e.id} else multiset{}
  {
    hide Accounted, ArriveStep, FetchOkStep, FetchFailStep;
    match e {
      case Tick(_) =>
      case Arrive(id, kid) => ArriveIds(s, l, id, kid);
      case FetchOk(served) => OkIds(s, l, served);
      case FetchFail(failure) => FailIds(s, l, failure);
    }
  }

  /** Every request that arrived has been answered once or is still waiting: none is lost and none answered twice. */
  lemma {:induction false} AnsweredOnce(start: int, l: Limits, events: seq<Event>)
    ensures var s := Run(start, l, events); Accounted(s.answers, s.waiting) == multiset(Arrivals(events))
  {
    hide Step;
    if events != [] {
      AnsweredOnce(start, l, events[..|events| - 1]);
      StepIds(Run(start, l, events[..|events| - 1]), l, events[|events| - 1]);
    }
  }

  // ---------- the closure takes these runs ----------

  /** Driven by any sequence of events, the module's own variables go exactly through the states of the run. */
  method Drive(start: int, l: Limits, events: seq<Event>) returns (closure: KeySetClosure)
    ensures closure.l == l && closure.Abs() == Run(start, l, events) && Inv(closure.Abs(), l)
  {
    hide Inv, ArriveStep, FetchOkStep, FetchFailStep;
    closure := new KeySetClosure(l, start);
    RunKeeps(start, l, []);
    for i := 0 to |events|
      invariant closure.l == l && closure.Abs() == Run(start, l, events[..i]) && Inv(closure.Abs(), l)
      invariant fresh(closure)
    {
      RunKeeps(start, l, events[..i + 1]);
      assert events[..i + 1][..i] == events[..i];
      InvThrottles(closure.Abs(), l);
      match events[i] {
        case Tick(ms) => closure.Tick(ms);
        case Arrive(id, kid) => closure.Resolve(id, kid);
        case FetchOk(served) =>
          if FetchInFlight(closure.Abs()) {
            closure.CompleteOk(served);
          }
        case FetchFail(failure) =>
          if FetchInFlight(closure.Abs()) {
            closure.CompleteFailed(failure);
          }
      }
    }
    assert events[..|events|] == events;
  }

  lemma InvThrottles(s: State, l: Limits)
    requires Inv(s, l)
    ensures s.retrying ==> s.outage.Some?
  {
  }

  // ---------- verdicts, the clock, and what is logged once ----------

  /**
   * Every verdict of every run is that of the key set last fetched when it was given: the token's own key if that set holds
   * it in a usable form, no match exactly if it does not hold it, and otherwise the key's own error. A token without a
   * verdict has the error of the fetch that failed last.
   */
  lemma VerdictsExactly(start: int, l: Limits, events: seq<Event>, i: nat)
    requires i < |Run(start, l, events).answers|
    ensures var a, completions := Run(start, l, events).answers[i], Run(start, l, events).completions;
      && a.seen <= |completions|
      && match a.reply
         case Unavailable(error) => LastFailed(completions[..a.seen]) && error == completions[a.seen - 1].error
         case Verdict(lookup) =>
           var good := LastOk(completions[..a.seen]);
           && good.Some?
           && (lookup.NoMatchingKey? <==> a.kid !in good.value.keys)
           && (lookup.Found? ==> good.value.keys[a.kid] == Usable(lookup.key))
           && (lookup.OtherError? ==> good.value.keys[a.kid] == Broken(lookup.code))
  {
    EveryAnswerJustified(start, l, events, i);
  }

  /** Time passes only between the steps, and then nothing else happens. */
  lemma ClockExactly(start: int, l: Limits, events: seq<Event>, e: Event)
    ensures var s, t := Run(start, l, events), Run(start, l, events + [e]);
      if e.Tick? then t == s.(now := s.now + e.ms) else t.now == s.now
  {
    hide Find;
    assert (events + [e])[..|events|] == events;
  }

  /**
   * An outage remembers whether tokens fell back when it began, and forgets it for good with the first token that finds the
   * keys too old, the one that reports their running out.
   */
  lemma RunningOutExactly(start: int, l: Limits, events: seq<Event>, e: Event)
    ensures var s, t := Run(start, l, events), Run(start, l, events + [e]);
      t.outage.Some? ==>
        if s.outage.None? then
          var good := LastOk(s.completions);
          t.outage.value.onLastGoodKeys == (good.Some? && s.now - good.value.at < l.maxStaleMs)
        else if e.Arrive? then
          t.outage.value.onLastGoodKeys == (s.outage.value.onLastGoodKeys && FallsBack(s.completions, s.now, l))
        else t.outage.value.onLastGoodKeys == s.outage.value.onLastGoodKeys
  {
    hide Find, LastOk;
    assert (events + [e])[..|events|] == events;
    RunKeeps(start, l, events);
    InvMatches(Run(start, l, events), l);
  }

  lemma InvMatches(s: State, l: Limits)
    requires Inv(s, l)
    ensures OutageMatches(s) && KeysMatch(s)
  {
  }
}
