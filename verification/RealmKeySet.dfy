/**
 * The realm's signing keys through an outage of their endpoint (packages/auth/src/realm-key-set.ts). Requests, the one
 * shared fetch and the clock interleave step by step; a fetch that completes wakes everyone waiting on it at once.
 */
module RealmKeySet {
  import opened Options

  // ---------- keys and tokens ----------

  /** A key of a fetched set: one jose can use, or one that fails with some other error. */
  datatype LocalKey = Usable(key: string) | Broken(code: string)

  type KeySet = map<string, LocalKey>

  /** What a local key set answers for a key id. */
  datatype Lookup = Found(key: string) | NoMatchingKey | OtherError(code: string)

  function Find(keys: KeySet, kid: string): Lookup {
    if kid !in keys then NoMatchingKey
    else match keys[kid]
      case Usable(key) => Found(key)
      case Broken(code) => OtherError(code)
  }

  /** What a token gets: the verdict of a key set, or no verdict because the realm could not be asked. */
  datatype Reply = Verdict(lookup: Lookup) | Unavailable(error: string)

  datatype Limits = Limits(maxStaleMs: int, retryIntervalMs: int, cacheMaxAgeMs: int, cooldownMs: int)

  datatype Outage = Outage(since: int, lastAttemptAt: int, error: string, onLastGoodKeys: bool)

  /** Which of the two fetches of a request it waits on: for want of cached keys, or for an unknown key id. */
  datatype Phase = First | Refetch

  datatype Waiter = Waiter(id: nat, kid: string, arrived: nat, phase: Phase)

  datatype Completion = Fetched(at: int, keys: KeySet) | Failed(at: int, error: string)

  datatype Source = Cached | ForRequest | Fallback | NoKeys

  /** `arrived` and `seen` count the fetch completions before the request came and before it was answered. */
  datatype Answer = Answer(id: nat, kid: string, arrived: nat, at: int, seen: nat, source: Source, reply: Reply)

  /** The shared state, with the history of completions, answers and background retries. */
  datatype State = State(
    now: int, fetchedAt: Option<int>, keys: Option<KeySet>, outage: Option<Outage>, retrying: bool,
    waiting: seq<Waiter>, completions: seq<Completion>, answers: seq<Answer>, retryStarts: seq<int>)

  datatype Event = Tick(ms: nat) | Arrive(id: nat, kid: string) | FetchOk(served: KeySet) | FetchFail(failure: string)

  // ---------- the rules, as functions of the state ----------

  /** fetchAgeMs() < limit; the age is infinite before the first fetch. */
  predicate YoungerThan(s: State, limit: int) { s.fetchedAt.Some? && s.now - s.fetchedAt.value < limit }

  function LastGoodKeys(s: State, l: Limits): Option<KeySet> {
    if YoungerThan(s, l.maxStaleMs) then s.keys else None
  }

  function FallbackReply(keys: KeySet, outageError: string, kid: string): Reply {
    if Find(keys, kid) == NoMatchingKey then Unavailable(outageError) else Verdict(Find(keys, kid))
  }

  predicate FetchInFlight(s: State) { s.waiting != [] || s.retrying }

  function NewAnswer(s: State, id: nat, kid: string, arrived: nat, source: Source, reply: Reply): Answer {
    Answer(id, kid, arrived, s.now, |s.completions|, source, reply)
  }

  function RetryDue(s: State, l: Limits): bool {
    s.outage.Some? && !s.retrying && s.now - s.outage.value.lastAttemptAt >= l.retryIntervalMs
  }

  function ArriveStep(s: State, l: Limits, id: nat, kid: string): State {
    var good := LastGoodKeys(s, l);
    if s.outage.Some? && good.Some? then
      var o := s.outage.value;
      var reply := NewAnswer(s, id, kid, |s.completions|, Fallback, FallbackReply(good.value, o.error, kid));
      if RetryDue(s, l) then
        s.(retrying := true, outage := Some(o.(lastAttemptAt := s.now)), retryStarts := s.retryStarts + [s.now],
           answers := s.answers + [reply])
      else s.(answers := s.answers + [reply])
    else
      var t := if s.outage.Some? then s.(outage := Some(s.outage.value.(onLastGoodKeys := false))) else s;
      if !YoungerThan(s, l.cacheMaxAgeMs) || s.keys.None? then
        t.(waiting := s.waiting + [Waiter(id, kid, |s.completions|, First)])
      else if Find(s.keys.value, kid) == NoMatchingKey && !YoungerThan(s, l.cooldownMs) then
        t.(waiting := s.waiting + [Waiter(id, kid, |s.completions|, Refetch)])
      else
        t.(answers := s.answers
             + [NewAnswer(s, id, kid, |s.completions|, Cached, Verdict(Find(s.keys.value, kid)))])
  }

  /** After a fetch for want of keys, an unknown key id is asked for again only when the cooldown is not positive. */
  predicate AsksAgain(w: Waiter, keys: KeySet, l: Limits) {
    w.phase == First && Find(keys, w.kid) == NoMatchingKey && l.cooldownMs <= 0
  }

  function Requeued(ws: seq<Waiter>, keys: KeySet, l: Limits, seen: nat): seq<Waiter> {
    if ws == [] then []
    else
      var n := |ws| - 1;
      var before := Requeued(ws[..n], keys, l, seen);
      if AsksAgain(ws[n], keys, l) then before + [ws[n].(phase := Refetch)] else before
  }

  function Served(ws: seq<Waiter>, keys: KeySet, l: Limits, now: int, seen: nat): seq<Answer> {
    if ws == [] then []
    else
      var n := |ws| - 1;
      var w, before := ws[n], Served(ws[..n], keys, l, now, seen);
      if AsksAgain(w, keys, l) then before
      else before + [Answer(w.id, w.kid, w.arrived, now, seen, ForRequest, Verdict(Find(keys, w.kid)))]
  }

  function FetchOkStep(s: State, l: Limits, served: KeySet): State {
    var seen := |s.completions| + 1;
    s.(fetchedAt := Some(s.now), keys := Some(served), outage := None, retrying := false,
       completions := s.completions + [Fetched(s.now, served)],
       waiting := Requeued(s.waiting, served, l, seen),
       answers := s.answers + Served(s.waiting, served, l, s.now, seen))
  }

  function FailedReply(good: Option<KeySet>, failure: string, kid: string): (Source, Reply) {
    if good.None? then (NoKeys, Unavailable(failure)) else (Fallback, FallbackReply(good.value, failure, kid))
  }

  function Refused(ws: seq<Waiter>, good: Option<KeySet>, failure: string, now: int, seen: nat): seq<Answer> {
    if ws == [] then []
    else
      var n := |ws| - 1;
      var w := ws[n];
      var (source, reply) := FailedReply(good, failure, w.kid);
      Refused(ws[..n], good, failure, now, seen) + [Answer(w.id, w.kid, w.arrived, now, seen, source, reply)]
  }

  /** The outage after a failed fetch: it starts, or goes on with the newest error; a request counts as an attempt. */
  function OutageAfter(s: State, l: Limits, failure: string): Option<Outage> {
    match s.outage
    case None =>
      if s.waiting == [] then None else Some(Outage(s.now, s.now, failure, LastGoodKeys(s, l).Some?))
    case Some(o) =>
      if s.waiting == [] then Some(o.(error := failure)) else Some(o.(error := failure, lastAttemptAt := s.now))
  }

  function FetchFailStep(s: State, l: Limits, failure: string): State {
    s.(outage := OutageAfter(s, l, failure), retrying := false, waiting := [],
       completions := s.completions + [Failed(s.now, failure)],
       answers := s.answers + Refused(s.waiting, LastGoodKeys(s, l), failure, s.now, |s.completions| + 1))
  }

  /** A fetch completes only while one is in flight. */
  function Step(s: State, l: Limits, e: Event): State {
    match e
    case Tick(ms) => s.(now := s.now + ms)
    case Arrive(id, kid) => ArriveStep(s, l, id, kid)
    case FetchOk(served) => if FetchInFlight(s) then FetchOkStep(s, l, served) else s
    case FetchFail(failure) => if FetchInFlight(s) then FetchFailStep(s, l, failure) else s
  }

  function Initial(now: int): State { State(now, None, None, None, false, [], [], [], []) }

  function Run(start: int, l: Limits, events: seq<Event>): State {
    if events == [] then Initial(start) else Step(Run(start, l, events[..|events| - 1]), l, events[|events| - 1])
  }

  lemma WokenNone(ws: seq<Waiter>, keys: KeySet, l: Limits, now: int, seen: nat)
    ensures Served(ws[..0], keys, l, now, seen) == [] && Requeued(ws[..0], keys, l, seen) == []
  {
  }

  lemma WokenOne(ws: seq<Waiter>, i: nat, keys: KeySet, l: Limits, now: int, seen: nat)
    requires i < |ws|
    ensures Served(ws[..i + 1], keys, l, now, seen)
      == Served(ws[..i], keys, l, now, seen)
         + if AsksAgain(ws[i], keys, l) then []
           else [Answer(ws[i].id, ws[i].kid, ws[i].arrived, now, seen, ForRequest, Verdict(Find(keys, ws[i].kid)))]
    ensures Requeued(ws[..i + 1], keys, l, seen)
      == Requeued(ws[..i], keys, l, seen) + if AsksAgain(ws[i], keys, l) then [ws[i].(phase := Refetch)] else []
  {
    hide AsksAgain, Find;
    assert ws[..i + 1][..i] == ws[..i];
  }

  lemma RefusedNone(ws: seq<Waiter>, good: Option<KeySet>, failure: string, now: int, seen: nat)
    ensures Refused(ws[..0], good, failure, now, seen) == []
  {
  }

  lemma RefusedOne(ws: seq<Waiter>, i: nat, good: Option<KeySet>, failure: string, now: int, seen: nat)
    requires i < |ws|
    ensures var (source, reply) := FailedReply(good, failure, ws[i].kid);
      Refused(ws[..i + 1], good, failure, now, seen)
      == Refused(ws[..i], good, failure, now, seen)
         + [Answer(ws[i].id, ws[i].kid, ws[i].arrived, now, seen, source, reply)]
  {
    hide FailedReply;
    assert ws[..i + 1][..i] == ws[..i];
  }

  // ---------- the module's closure, as it assigns its variables ----------

  class KeySetClosure {
    const l: Limits
    var now: int
    var fetchedAt: Option<int>
    var keys: Option<KeySet>
    var outage: Option<Outage>
    var retrying: bool
    var waiting: seq<Waiter>
    var completions: seq<Completion>
    var answers: seq<Answer>
    var retryStarts: seq<int>

    function Abs(): State
      reads this
    {
      State(now, fetchedAt, keys, outage, retrying, waiting, completions, answers, retryStarts)
    }

    constructor (l: Limits, start: int)
      ensures this.l == l && Abs() == Initial(start)
    {
      this.l := l;
      now, fetchedAt, keys, outage, retrying := start, None, None, None, false;
      waiting, completions, answers, retryStarts := [], [], [], [];
    }

    method Reply(id: nat, kid: string, arrived: nat, source: Source, reply: Reply)
      modifies this`answers
      ensures answers == old(answers) + [NewAnswer(Abs(), id, kid, arrived, source, reply)]
    {
      answers := answers + [Answer(id, kid, arrived, now, |completions|, source, reply)];
    }

    method FetchSucceeded()
      modifies this`fetchedAt, this`outage
      ensures fetchedAt == Some(now) && outage == None
    {
      fetchedAt := Some(now);
      if outage == None {
        return;
      }
      outage := None;
    }

    method RetryInBackground()
      requires outage.Some?
      modifies this`outage, this`retrying, this`retryStarts
      ensures if RetryDue(old(Abs()), l)
        then retrying && outage == Some(old(outage).value.(lastAttemptAt := now)) && retryStarts == old(retryStarts) + [now]
        else Abs() == old(Abs())
    {
      if retrying || now - outage.value.lastAttemptAt < l.retryIntervalMs {
        return;
      }
      retrying := true;
      outage := Some(outage.value.(lastAttemptAt := now));
      retryStarts := retryStarts + [now];
    }

    method FromLastGoodKeys(good: KeySet, outageError: string, w: Waiter)
      modifies this`answers
      ensures answers
        == old(answers) + [NewAnswer(Abs(), w.id, w.kid, w.arrived, Fallback, FallbackReply(good, outageError, w.kid))]
    {
      var found := Find(good, w.kid);
      if found == NoMatchingKey {
        Reply(w.id, w.kid, w.arrived, Fallback, Unavailable(outageError));
      } else {
        Reply(w.id, w.kid, w.arrived, Fallback, Verdict(found));
      }
    }

    /** One waiter learns that the fetch failed. */
    method DuringOutage(failure: string, w: Waiter)
      modifies this`outage, this`answers
      ensures outage.Some? && outage.value.error == failure && outage.value.lastAttemptAt == now
      ensures old(outage).None? ==> outage == Some(Outage(now, now, failure, LastGoodKeys(old(Abs()), l).Some?))
      ensures old(outage).Some? ==> outage == Some(old(outage).value.(error := failure, lastAttemptAt := now))
      ensures var (source, reply) := FailedReply(LastGoodKeys(old(Abs()), l), failure, w.kid);
        answers == old(answers) + [NewAnswer(Abs(), w.id, w.kid, w.arrived, source, reply)]
    {
      var good := LastGoodKeys(Abs(), l);
      if outage == None {
        outage := Some(Outage(now, now, failure, good.Some?));
      } else {
        outage := Some(outage.value.(lastAttemptAt := now, error := failure));
      }
      if good == None {
        Reply(w.id, w.kid, w.arrived, NoKeys, Unavailable(failure));
      } else {
        FromLastGoodKeys(good.value, failure, w);
      }
    }

    /** A token comes in. */
    method Resolve(id: nat, kid: string)
      modifies this
      ensures Abs() == ArriveStep(old(Abs()), l, id, kid)
    {
      var arrived := |completions|;
      if outage.Some? {
        var good := LastGoodKeys(Abs(), l);
        if good.Some? {
          RetryInBackground();
          FromLastGoodKeys(good.value, outage.value.error, Waiter(id, kid, arrived, First));
          return;
        }
        if outage.value.onLastGoodKeys {
          outage := Some(outage.value.(onLastGoodKeys := false));
        }
      }
      var cached := if YoungerThan(Abs(), l.cacheMaxAgeMs) then keys else None;
      if cached == None {
        waiting := waiting + [Waiter(id, kid, arrived, First)];
        return;
      }
      var found := Find(cached.value, kid);
      if found != NoMatchingKey || YoungerThan(Abs(), l.cooldownMs) {
        Reply(id, kid, arrived, Cached, Verdict(found));
        return;
      }
      waiting := waiting + [Waiter(id, kid, arrived, Refetch)];
    }

    /** The shared fetch served a key set: every waiter wakes, and some ask again. */
    method CompleteOk(served: KeySet)
      requires FetchInFlight(Abs())
      modifies this
      ensures Abs() == FetchOkStep(old(Abs()), l, served)
    {
      hide Served, Requeued, Find;
      WokenNone(waiting, served, l, now, |completions| + 1);
      keys := Some(served);
      completions := completions + [Fetched(now, served)];
      FetchSucceeded();
      retrying := false;
      var woken := waiting;
      ghost var before, seen := answers, |completions|;
      waiting := [];
      for i := 0 to |woken|
        invariant now == old(now) && fetchedAt == Some(now) && keys == Some(served) && outage == None && !retrying
        invariant completions == old(completions) + [Fetched(now, served)] && retryStarts == old(retryStarts)
        invariant answers == before + Served(woken[..i], served, l, now, seen)
        invariant waiting == Requeued(woken[..i], served, l, seen)
      {
        WokenOne(woken, i, served, l, now, seen);
        var w := woken[i];
        var found := Find(served, w.kid);
        if w.phase == First && found == NoMatchingKey && !YoungerThan(Abs(), l.cooldownMs) {
          waiting := waiting + [w.(phase := Refetch)];
        } else {
          Reply(w.id, w.kid, w.arrived, ForRequest, Verdict(found));
        }
      }
      assert woken[..|woken|] == woken;
    }

    /** The shared fetch failed: every waiter answers from the outage, and a background retry records the error. */
    method CompleteFailed(failure: string)
      requires FetchInFlight(Abs()) && (retrying ==> outage.Some?)
      modifies this
      ensures Abs() == FetchFailStep(old(Abs()), l, failure)
    {
      hide Refused, Find, FallbackReply;
      RefusedNone(waiting, LastGoodKeys(Abs(), l), failure, now, |completions| + 1);
      completions := completions + [Failed(now, failure)];
      if retrying {
        outage := Some(outage.value.(error := failure));
        retrying := false;
      }
      var woken := waiting;
      ghost var before, seen, first := answers, |completions|, outage;
      waiting := [];
      for i := 0 to |woken|
        invariant now == old(now) && fetchedAt == old(fetchedAt) && keys == old(keys) && !retrying && waiting == []
        invariant completions == old(completions) + [Failed(now, failure)] && retryStarts == old(retryStarts)
        invariant LastGoodKeys(Abs(), l) == LastGoodKeys(old(Abs()), l)
        invariant answers == before + Refused(woken[..i], LastGoodKeys(Abs(), l), failure, now, seen)
        invariant i == 0 ==> outage == first
        invariant i > 0 && first.None? ==> outage == Some(Outage(now, now, failure, LastGoodKeys(Abs(), l).Some?))
        invariant i > 0 && first.Some? ==> outage == Some(first.value.(error := failure, lastAttemptAt := now))
      {
        RefusedOne(woken, i, LastGoodKeys(Abs(), l), failure, now, seen);
        DuringOutage(failure, woken[i]);
      }
      assert woken[..|woken|] == woken;
    }

    method Tick(ms: nat)
      modifies this`now
      ensures now == old(now) + ms
    {
      now := now + ms;
    }
  }
}
