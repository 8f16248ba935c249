/**
 * Webhook ingestion with two levels of claim and release: the delivery's signature at the gateway
 * (services/api-gateway/src/index.ts) and one key per event at the ingestor (services/webhook-ingestor/src/ingest.ts).
 * Deliveries are handled one after another, within the time to live of both stores.
 */
module Webhook {
  import opened Options

  // ---------- payloads ----------

  datatype SocialEvent = SocialEvent(mid: Option<string>, isEcho: bool)
  datatype Status = Status(id: Option<string>, status: Option<string>)
  datatype Value = Value(messages: seq<Option<string>>, statuses: seq<Status>)
  datatype Entry = Entry(messaging: Option<seq<SocialEvent>>, changes: seq<Option<Value>>)
  datatype Payload = Payload(object_: Option<string>, entries: seq<Entry>)

  datatype Kind = Inbound | StatusUpdate

  /** What is published on the bus: a message, a social message, or a status of a message sent earlier. */
  datatype Ev =
    | Message(id: Option<string>)
    | Social(mid: string)
    | StatusChange(id: Option<string>, status: Option<string>)

  function OrUnknown(o: Option<string>): string { if o.Some? then o.value else "unknown" }

  /** The key an event is claimed by. */
  function KeyOf(e: Ev): string {
    match e
    case Message(id) => "inbound:" + OrUnknown(id)
    case Social(mid) => "social:" + mid
    case StatusChange(id, status) => "status:" + OrUnknown(id) + ":" + OrUnknown(status)
  }

  function KindOf(e: Ev): Kind { if e.StatusChange? then StatusUpdate else Inbound }

  /** Echoes and events without a message id are skipped. */
  predicate Taken(e: SocialEvent) { e.mid.Some? && e.mid.value != [] && !e.isEcho }

  function SocialEvents(es: seq<SocialEvent>): seq<Ev> {
    if es == [] then []
    else
      var n := |es| - 1;
      SocialEvents(es[..n]) + if Taken(es[n]) then [Social(es[n].mid.value)] else []
  }

  function MessageEvents(ids: seq<Option<string>>): seq<Ev> {
    seq(|ids|, i requires 0 <= i < |ids| => Message(ids[i]))
  }

  function StatusEvents(ss: seq<Status>): seq<Ev> {
    seq(|ss|, i requires 0 <= i < |ss| => StatusChange(ss[i].id, ss[i].status))
  }

  function ChangeEvents(cs: seq<Option<Value>>): seq<Ev> {
    if cs == [] then []
    else
      var n := |cs| - 1;
      ChangeEvents(cs[..n]) + ValueEvents(cs[n])
  }

  predicate IsSocial(p: Payload, e: Entry) {
    p.object_ in {Some("page"), Some("instagram")} && e.messaging.Some?
  }

  function EntryEvents(p: Payload, e: Entry): seq<Ev> {
    if IsSocial(p, e) then SocialEvents(e.messaging.value) else ChangeEvents(e.changes)
  }

  function EventsUpTo(p: Payload, n: nat): seq<Ev>
    requires n <= |p.entries|
  {
    if n == 0 then [] else EventsUpTo(p, n - 1) + EntryEvents(p, p.entries[n - 1])
  }

  /** The events of a payload, in the order they are published. */
  function Events(p: Payload): seq<Ev> { EventsUpTo(p, |p.entries|) }

  // ---------- ingestion ----------

  /** Whether the n-th publish attempt ever made succeeds. */
  type Outcomes = nat -> bool

  /** The claimed event keys, the events published in order, and how often publishing was attempted. */
  datatype Bus = Bus(claimed: set<string>, published: seq<Ev>, attempts: nat)

  datatype Progress = Progress(bus: Bus, inbound: nat, statuses: nat, duplicates: nat, threw: bool)

  /** One event: a claimed key is a duplicate; otherwise it is claimed, published, and released if publishing throws. */
  function One(p: Progress, ev: Ev, ok: Outcomes): Progress {
    if p.threw then p
    else if KeyOf(ev) in p.bus.claimed then p.(duplicates := p.duplicates + 1)
    else
      var counted := if KindOf(ev) == Inbound then p.(inbound := p.inbound + 1) else p.(statuses := p.statuses + 1);
      var b := p.bus;
      if ok(b.attempts) then
        counted.(bus := Bus(b.claimed + {KeyOf(ev)}, b.published + [ev], b.attempts + 1))
      else counted.(bus := b.(attempts := b.attempts + 1), threw := true)
  }

  function All(p: Progress, evs: seq<Ev>, ok: Outcomes): Progress {
    if evs == [] then p else One(All(p, evs[..|evs| - 1], ok), evs[|evs| - 1], ok)
  }

  function Start(bus: Bus): Progress { Progress(bus, 0, 0, 0, false) }

  function Ingest(bus: Bus, payload: Payload, ok: Outcomes): Progress { All(Start(bus), Events(payload), ok) }

  lemma {:induction false} AllConcat(p: Progress, a: seq<Ev>, b: seq<Ev>, ok: Outcomes)
    ensures All(p, a + b, ok) == All(All(p, a, ok), b, ok)
  {
    hide One;
    if b == [] {
      assert a + b == a;
    } else {
      var n := |b| - 1;
      AllConcat(p, a, b[..n], ok);
      assert (a + b)[..|a + b| - 1] == a + b[..n];
    }
  }

  lemma AllNone(p: Progress, ok: Outcomes)
    ensures All(p, [], ok) == p
  {
  }

  lemma NoEvents(p: Payload)
    ensures EventsUpTo(p, 0) == []
  {
  }

  lemma EventsStep(p: Payload, i: nat)
    requires i < |p.entries|
    ensures EventsUpTo(p, i + 1) == EventsUpTo(p, i) + EntryEvents(p, p.entries[i])
    ensures EntryEvents(p, p.entries[i])
      == if IsSocial(p, p.entries[i]) then SocialEvents(p.entries[i].messaging.value) else ChangeEvents(p.entries[i].changes)
  {
  }

  /** Once a publish has thrown, nothing more happens. */
  lemma {:induction false} AllThrew(p: Progress, evs: seq<Ev>, ok: Outcomes)
    requires p.threw
    ensures All(p, evs, ok) == p
  {
    if evs != [] { AllThrew(p, evs[..|evs| - 1], ok); }
  }

  lemma AllOne(p: Progress, evs: seq<Ev>, ev: Ev, ok: Outcomes)
    ensures All(p, evs + [ev], ok) == One(All(p, evs, ok), ev, ok)
  {
    assert (evs + [ev])[..|evs|] == evs;
  }

  lemma SocialStep(es: seq<SocialEvent>, i: nat)
    requires i < |es|
    ensures Taken(es[i]) ==> SocialEvents(es[..i + 1]) == SocialEvents(es[..i]) + [Social(es[i].mid.value)]
    ensures !Taken(es[i]) ==> SocialEvents(es[..i + 1]) == SocialEvents(es[..i])
  {
    assert es[..i + 1][..i] == es[..i];
  }

  function ValueEvents(v: Option<Value>): seq<Ev> {
    if v.None? then [] else MessageEvents(v.value.messages) + StatusEvents(v.value.statuses)
  }

  lemma ChangeStep(cs: seq<Option<Value>>, i: nat)
    requires i < |cs|
    ensures ChangeEvents(cs[..i + 1]) == ChangeEvents(cs[..i]) + ValueEvents(cs[i])
    ensures cs[i].None? ==> ChangeEvents(cs[..i + 1]) == ChangeEvents(cs[..i])
  {
    assert cs[..i + 1][..i] == cs[..i];
  }

  lemma {:induction false} EventsPrefix(p: Payload, n: nat, m: nat)
    requires n <= m <= |p.entries|
    ensures EventsUpTo(p, n) <= EventsUpTo(p, m)
    decreases m
  {
    hide EntryEvents;
    if n < m { EventsPrefix(p, n, m - 1); }
  }

  /** Stopping at a throw part of the way is where the whole list stops too. */
  lemma StopsThere(p: Progress, done: seq<Ev>, all: seq<Ev>, ok: Outcomes)
    requires done <= all && All(p, done, ok).threw
    ensures All(p, all, ok) == All(p, done, ok)
  {
    assert all == done + all[|done|..];
    AllConcat(p, done, all[|done|..], ok);
    AllThrew(All(p, done, ok), all[|done|..], ok);
  }

  class Ingestor {
    var claimed: set<string>
    var published: seq<Ev>
    var attempts: nat
    var inbound: nat
    var statuses: nat
    var duplicates: nat

    function State(): Bus
      reads this
    {
      Bus(claimed, published, attempts)
    }

    function Now(threw: bool): Progress
      reads this
    {
      Progress(State(), inbound, statuses, duplicates, threw)
    }

    constructor ()
      ensures State() == Bus({}, [], 0)
    {
      claimed, published, attempts, inbound, statuses, duplicates := {}, [], 0, 0, 0, 0;
    }

    /** The claim, publish, release discipline of one event; true when the publish threw. */
    method Deliver(ev: Ev, ok: Outcomes) returns (threw: bool)
      modifies this
      ensures Now(threw) == One(old(Now(false)), ev, ok)
    {
      if KeyOf(ev) in claimed {
        duplicates := duplicates + 1;
        return false;
      }
      claimed := claimed + {KeyOf(ev)};
      if KindOf(ev) == Inbound {
        inbound := inbound + 1;
      } else {
        statuses := statuses + 1;
      }
      var published_ := ok(attempts);
      attempts := attempts + 1;
      if published_ {
        published := published + [ev];
        return false;
      }
      claimed := claimed - {KeyOf(ev)};
      return true;
    }

    /** The messages, then the statuses, of one change. */
    method IngestValue(value: Value, ok: Outcomes) returns (threw: bool)
      modifies this
      ensures Now(threw) == All(old(Now(false)), ValueEvents(Some(value)), ok)
    {
      hide All, One;
      ghost var start := Now(false);
      AllNone(start, ok);
      var ms, ss := MessageEvents(value.messages), StatusEvents(value.statuses);
      for i := 0 to |value.messages|
        invariant Now(false) == All(start, ms[..i], ok)
      {
        AllOne(start, ms[..i], ms[i], ok);
        assert ms[..i + 1] == ms[..i] + [ms[i]];
        threw := Deliver(Message(value.messages[i]), ok);
        if threw {
          StopsThere(start, ms[..i + 1], ms + ss, ok);
          return;
        }
      }
      assert ms[..|ms|] == ms && ms + ss[..0] == ms;
      for i := 0 to |value.statuses|
        invariant Now(false) == All(start, ms + ss[..i], ok)
      {
        AllOne(start, ms + ss[..i], ss[i], ok);
        assert ms + ss[..i + 1] == ms + ss[..i] + [ss[i]];
        threw := Deliver(StatusChange(value.statuses[i].id, value.statuses[i].status), ok);
        if threw {
          StopsThere(start, ms + ss[..i + 1], ms + ss, ok);
          return;
        }
      }
      assert ss[..|ss|] == ss;
      return false;
    }

    method IngestSocial(es: seq<SocialEvent>, ok: Outcomes) returns (threw: bool)
      modifies this
      ensures Now(threw) == All(old(Now(false)), SocialEvents(es), ok)
    {
      hide SocialEvents, All, One;
      ghost var start := Now(false);
      SocialPrefix(es, 0);
      AllNone(start, ok);
      for i := 0 to |es|
        invariant Now(false) == All(start, SocialEvents(es[..i]), ok)
      {
        SocialStep(es, i);
        if Taken(es[i]) {
          var ev := Social(es[i].mid.value);
          AllOne(start, SocialEvents(es[..i]), ev, ok);
          threw := Deliver(ev, ok);
          if threw {
            SocialPrefix(es, i + 1);
            StopsThere(start, SocialEvents(es[..i + 1]), SocialEvents(es), ok);
            return;
          }
        }
      }
      assert es[..|es|] == es;
      return false;
    }

    method IngestChanges(cs: seq<Option<Value>>, ok: Outcomes) returns (threw: bool)
      modifies this
      ensures Now(threw) == All(old(Now(false)), ChangeEvents(cs), ok)
    {
      hide ChangeEvents, All, One;
      ghost var start := Now(false);
      ChangePrefix(cs, 0);
      AllNone(start, ok);
      for i := 0 to |cs|
        invariant Now(false) == All(start, ChangeEvents(cs[..i]), ok)
      {
        ChangeStep(cs, i);
        if cs[i].Some? {
          AllConcat(start, ChangeEvents(cs[..i]), ValueEvents(cs[i]), ok);
          threw := IngestValue(cs[i].value, ok);
          if threw {
            ChangePrefix(cs, i + 1);
            StopsThere(start, ChangeEvents(cs[..i + 1]), ChangeEvents(cs), ok);
            return;
          }
        }
      }
      assert cs[..|cs|] == cs;
      return false;
    }

    /** ingestMetaWebhook; the counters start at zero and are the summary when nothing threw. */
    method IngestMetaWebhook(payload: Payload, ok: Outcomes) returns (threw: bool)
      modifies this
      ensures Now(threw) == Ingest(old(State()), payload, ok)
    {
      hide All, One, EntryEvents, EventsUpTo;
      inbound, statuses, duplicates := 0, 0, 0;
      ghost var start := Now(false);
      AllNone(start, ok);
      NoEvents(payload);
      for i := 0 to |payload.entries|
        invariant Now(false) == All(start, EventsUpTo(payload, i), ok)
      {
        var entry := payload.entries[i];
        EventsStep(payload, i);
        if IsSocial(payload, entry) {
          threw := IngestSocial(entry.messaging.value, ok);
        } else {
          threw := IngestChanges(entry.changes, ok);
        }
        AllConcat(start, EventsUpTo(payload, i), EntryEvents(payload, entry), ok);
        if threw {
          EventsPrefix(payload, i + 1, |payload.entries|);
          StopsThere(start, EventsUpTo(payload, i + 1), Events(payload), ok);
          return;
        }
      }
      return false;
    }
  }

  lemma {:induction false} SocialPrefix(es: seq<SocialEvent>, n: nat)
    requires n <= |es|
    ensures SocialEvents(es[..n]) <= SocialEvents(es)
    ensures SocialEvents(es[..0]) == []
    decreases |es|
  {
    if n < |es| {
      var front := es[..|es| - 1];
      assert front[..n] == es[..n];
      SocialPrefix(front, n);
    } else {
      assert es[..n] == es;
    }
  }

  lemma {:induction false} ChangePrefix(cs: seq<Option<Value>>, n: nat)
    requires n <= |cs|
    ensures ChangeEvents(cs[..n]) <= ChangeEvents(cs)
    ensures ChangeEvents(cs[..0]) == []
    decreases |cs|
  {
    if n < |cs| {
      var front := cs[..|cs| - 1];
      assert front[..n] == cs[..n];
      ChangePrefix(front, n);
    } else {
      assert cs[..n] == cs;
    }
  }

  // ---------- the gateway ----------

  /** What happens to a claimed delivery on its way to the ingestor and back. */
  datatype Transport =
    | Delivered          // ingested, and the result came back
    | LostBefore         // failed before ingestion began
    | LostAfter          // ingested, but the result was lost
    | RefusedDownstream  // an injected proxy answers that the signature is invalid: the claim is kept

  datatype Delivery = Delivery(signature: string, payload: Payload, transport: Transport)

  datatype Response = DuplicateIgnored | Accepted | BadGateway

  datatype World = World(signatures: set<string>, bus: Bus)

  function Handle(w: World, d: Delivery, ok: Outcomes): (World, Response) {
    if d.signature in w.signatures then (w, DuplicateIgnored)
    else
      var kept := w.signatures + {d.signature};
      match d.transport
      case LostBefore => (w, BadGateway)
      case RefusedDownstream => (w.(signatures := kept), BadGateway)
      case Delivered =>
        var p := Ingest(w.bus, d.payload, ok);
        if p.threw then (World(w.signatures, p.bus), BadGateway) else (World(kept, p.bus), Accepted)
      case LostAfter => (World(w.signatures, Ingest(w.bus, d.payload, ok).bus), BadGateway)
  }

  class Gateway {
    var signatures: set<string>
    const ingestor: Ingestor

    function State(): World
      reads this, ingestor
    {
      World(signatures, ingestor.State())
    }

    constructor ()
      ensures State() == Empty()
    {
      signatures := {};
      ingestor := new Ingestor();
    }

    /** The claim, forward, release block of the webhook POST. */
    method HandlePost(d: Delivery, ok: Outcomes) returns (response: Response)
      modifies this, ingestor
      ensures (State(), response) == Handle(old(State()), d, ok)
    {
      if d.signature in signatures {
        return DuplicateIgnored;
      }
      signatures := signatures + {d.signature};
      var failed := true;
      if d.transport == Delivered || d.transport == LostAfter {
        failed := ingestor.IngestMetaWebhook(d.payload, ok);
      }
      if d.transport == LostAfter {
        failed := true;
      }
      if failed {
        if d.transport != RefusedDownstream {
          signatures := signatures - {d.signature};
        }
        return BadGateway;
      }
      return Accepted;
    }
  }

  function Empty(): World { World({}, Bus({}, [], 0)) }

  function Run(ds: seq<Delivery>, ok: Outcomes): World {
    if ds == [] then Empty() else Handle(Run(ds[..|ds| - 1], ok), ds[|ds| - 1], ok).0
  }

  function ResponseAt(ds: seq<Delivery>, ok: Outcomes, j: nat): Response
    requires j < |ds|
  {
    Handle(Run(ds[..j], ok), ds[j], ok).1
  }

  // ---------- what every run keeps ----------

  predicate NoRepeats(s: seq<string>) { forall i, j :: 0 <= i < j < |s| ==> s[i] != s[j] }

  /** A key is claimed exactly when it has been published, and each was published once. */
  ghost predicate BusInv(b: Bus) {
    NoRepeats(Keys(b.published)) && forall k :: k in b.claimed <==> k in Keys(b.published)
  }

  function Keys(evs: seq<Ev>): seq<string> {
    seq(|evs|, i requires 0 <= i < |evs| => KeyOf(evs[i]))
  }

  predicate AllIn(evs: seq<Ev>, published: seq<Ev>) {
    forall i :: 0 <= i < |evs| ==> KeyOf(evs[i]) in Keys(published)
  }

  lemma KeysAdd(evs: seq<Ev>, e: Ev)
    ensures Keys(evs + [e]) == Keys(evs) + [KeyOf(e)]
  {
  }

  lemma OneKeeps(p: Progress, ev: Ev, ok: Outcomes)
    requires BusInv(p.bus)
    ensures var q := One(p, ev, ok);
      && BusInv(q.bus) && p.bus.published <= q.bus.published
      && (!q.threw ==> !p.threw && KeyOf(ev) in Keys(q.bus.published))
  {
    hide KeyOf, Keys;
    KeysAdd(p.bus.published, ev);
  }

  lemma {:induction false} AllKeeps(p: Progress, evs: seq<Ev>, ok: Outcomes)
    requires BusInv(p.bus)
    ensures var q := All(p, evs, ok);
      && BusInv(q.bus) && p.bus.published <= q.bus.published
      && (!q.threw ==> AllIn(evs, q.bus.published))
  {
    hide BusInv, One, KeyOf, Keys;
    if evs != [] {
      var n := |evs| - 1;
      AllKeeps(p, evs[..n], ok);
      var before, after := All(p, evs[..n], ok), All(p, evs, ok);
      OneKeeps(before, evs[n], ok);
      KeysGrow(before.bus.published, after.bus.published);
      forall i | 0 <= i < |evs| && !after.threw ensures KeyOf(evs[i]) in Keys(after.bus.published) {
        if i < n { assert evs[i] == evs[..n][i]; }
      }
    }
  }

  function Inbounds(evs: seq<Ev>): nat {
    if evs == [] then 0 else Inbounds(evs[..|evs| - 1]) + if evs[|evs| - 1].StatusChange? then 0 else 1
  }

  /** The events published since the bus held `before`. */
  function Since(before: Bus, after: Bus): seq<Ev> {
    if |before.published| <= |after.published| then after.published[|before.published|..] else []
  }

  lemma InboundsAdd(evs: seq<Ev>, e: Ev)
    ensures Inbounds(evs + [e]) == Inbounds(evs) + if e.StatusChange? then 0 else 1
  {
    assert (evs + [e])[..|evs|] == evs;
  }

  lemma NoInbounds()
    ensures Inbounds([]) == 0
  {
  }

  lemma {:induction false} CountsFrom(p: Progress, evs: seq<Ev>, ok: Outcomes)
    ensures var q := All(p, evs, ok);
      && p.bus.published <= q.bus.published
      && (!q.threw ==>
            && q.inbound == p.inbound + Inbounds(Since(p.bus, q.bus))
            && q.statuses == p.statuses + |Since(p.bus, q.bus)| - Inbounds(Since(p.bus, q.bus))
            && q.duplicates == p.duplicates + |evs| - |Since(p.bus, q.bus)|)
  {
    hide KeyOf, Inbounds;
    if evs == [] {
      assert Since(p.bus, p.bus) == [] && Inbounds([]) == 0 by { NoInbounds(); }
    } else {
      var n := |evs| - 1;
      CountsFrom(p, evs[..n], ok);
      var before, after := All(p, evs[..n], ok), All(p, evs, ok);
      if after.bus.published != before.bus.published {
        InboundsAdd(Since(p.bus, before.bus), evs[n]);
        assert Since(p.bus, after.bus) == Since(p.bus, before.bus) + [evs[n]];
      }
    }
  }

  /** An ingested payload's summary: how many messages and how many statuses it published, and how many events it did not. */
  lemma SummaryExactly(bus: Bus, payload: Payload, ok: Outcomes)
    requires !Ingest(bus, payload, ok).threw
    ensures var q := Ingest(bus, payload, ok);
      && q.inbound == Inbounds(Since(bus, q.bus))
      && q.inbound + q.statuses == |Since(bus, q.bus)|
      && q.inbound + q.statuses + q.duplicates == |Events(payload)|
  {
    hide All, Events;
    CountsFrom(Start(bus), Events(payload), ok);
  }

  /** An ingestion stops at the first publish that fails, and at no other; each attempt before it published one event. */
  lemma {:induction false} StopsAtFirstFailure(p: Progress, evs: seq<Ev>, ok: Outcomes)
    requires !p.threw
    ensures var q := All(p, evs, ok);
      var done := if q.threw then q.bus.attempts - 1 else q.bus.attempts;
      && p.bus.attempts <= done && |q.bus.published| == |p.bus.published| + done - p.bus.attempts
      && (forall n: nat :: p.bus.attempts <= n < done ==> ok(n))
      && (q.threw ==> !ok(done))
  {
    hide KeyOf;
    if evs != [] { StopsAtFirstFailure(p, evs[..|evs| - 1], ok); }
  }

  function Successes(ok: Outcomes, n: nat): nat {
    if n == 0 then 0 else Successes(ok, n - 1) + if ok(n - 1) then 1 else 0
  }

  lemma {:induction false} AllSucceeded(ok: Outcomes, lo: nat, hi: nat)
    requires lo <= hi && forall n: nat :: lo <= n < hi ==> ok(n)
    ensures Successes(ok, hi) == Successes(ok, lo) + hi - lo
    decreases hi
  {
    if lo < hi {
      AllSucceeded(ok, lo, hi - 1);
    }
  }

  /** In every run, one event has been published for each publish that succeeded. */
  lemma {:induction false} OnePerSuccess(ds: seq<Delivery>, ok: Outcomes)
    ensures var b := Run(ds, ok).bus; |b.published| == Successes(ok, b.attempts)
  {
    hide All, Events, Successes;
    if ds == [] {
      assert Successes(ok, 0) == 0 by { NoneSucceeded(ok); }
    } else {
      var n := |ds| - 1;
      OnePerSuccess(ds[..n], ok);
      var b := Run(ds[..n], ok).bus;
      var q := Ingest(b, ds[n].payload, ok);
      StopsAtFirstFailure(Start(b), Events(ds[n].payload), ok);
      var done := if q.threw then q.bus.attempts - 1 else q.bus.attempts;
      AllSucceeded(ok, b.attempts, done);
      if q.threw { OneFailed(ok, done); }
    }
  }

  lemma NoneSucceeded(ok: Outcomes)
    ensures Successes(ok, 0) == 0
  {
  }

  lemma OneFailed(ok: Outcomes, n: nat)
    requires !ok(n)
    ensures Successes(ok, n + 1) == Successes(ok, n)
  {
  }

  /** One signature names one body (it is the body's HMAC). */
  predicate SignaturesNameBodies(ds: seq<Delivery>) {
    forall i, j :: 0 <= i < |ds| && 0 <= j < |ds| && ds[i].signature == ds[j].signature ==> ds[i].payload == ds[j].payload
  }

  lemma HandleKeeps(w: World, d: Delivery, ok: Outcomes)
    requires BusInv(w.bus)
    ensures var (v, response) := Handle(w, d, ok);
      && BusInv(v.bus) && w.bus.published <= v.bus.published
      && (response == Accepted ==> AllIn(Events(d.payload), v.bus.published))
  {
    hide BusInv, AllIn, All, Events;
    AllKeeps(Start(w.bus), Events(d.payload), ok);
  }

  /** In every run no event is published twice and none stays claimed unpublished. */
  lemma {:induction false} RunInv(ds: seq<Delivery>, ok: Outcomes)
    ensures BusInv(Run(ds, ok).bus)
  {
    hide Handle;
    if ds != [] {
      var front, d := ds[..|ds| - 1], ds[|ds| - 1];
      RunInv(front, ok);
      HandleKeeps(Run(front, ok), d, ok);
    }
  }

  /** Any pattern of publish failures, lost results and redeliveries publishes each event key at most once. */
  lemma PublishedAtMostOnce(ds: seq<Delivery>, ok: Outcomes)
    ensures NoRepeats(Keys(Run(ds, ok).bus.published))
    ensures forall k :: k in Run(ds, ok).bus.claimed <==> k in Keys(Run(ds, ok).bus.published)
  {
    RunInv(ds, ok);
  }

  lemma {:induction false} PublishedGrows(ds: seq<Delivery>, ok: Outcomes, m: nat, n: nat)
    requires m <= n <= |ds|
    ensures Run(ds[..m], ok).bus.published <= Run(ds[..n], ok).bus.published
    decreases n
  {
    hide Handle;
    if m < n {
      PublishedGrows(ds, ok, m, n - 1);
      assert ds[..n][..n - 1] == ds[..n - 1];
      RunInv(ds[..n - 1], ok);
      HandleKeeps(Run(ds[..n - 1], ok), ds[n - 1], ok);
    }
  }

  // ---------- what a claimed delivery means ----------

  /** The i-th delivery was forwarded, and refused downstream: not merely one that would have been. */
  predicate RefusedAt(ds: seq<Delivery>, ok: Outcomes, i: nat)
    requires i < |ds|
  {
    ds[i].transport == RefusedDownstream && ResponseAt(ds, ok, i) == BadGateway
  }

  predicate AcceptedAt(ds: seq<Delivery>, ok: Outcomes, i: nat)
    requires i < |ds|
  {
    ResponseAt(ds, ok, i) == Accepted
  }

  /** Among the first n deliveries one with this signature was accepted, or one was refused downstream. */
  predicate AcceptedBefore(ds: seq<Delivery>, ok: Outcomes, n: nat, signature: string)
    requires n <= |ds|
  {
    exists i :: 0 <= i < n && ds[i].signature == signature && AcceptedAt(ds, ok, i)
  }

  predicate RefusedBefore(ds: seq<Delivery>, ok: Outcomes, n: nat, signature: string)
    requires n <= |ds|
  {
    exists i :: 0 <= i < n && ds[i].signature == signature && RefusedAt(ds, ok, i)
  }

  /** A signature is claimed exactly when a delivery of it was accepted or refused downstream, and never both. */
  lemma {:induction false} ClaimedExactly(ds: seq<Delivery>, ok: Outcomes, n: nat, signature: string)
    requires n <= |ds|
    ensures signature in Run(ds[..n], ok).signatures
      <==> AcceptedBefore(ds, ok, n, signature) || RefusedBefore(ds, ok, n, signature)
    ensures !(AcceptedBefore(ds, ok, n, signature) && RefusedBefore(ds, ok, n, signature))
    decreases n
  {
    hide Ingest;
    if n > 0 {
      ClaimedExactly(ds, ok, n - 1, signature);
      assert ds[..n][..n - 1] == ds[..n - 1];
      LastAdds(ds, ok, n, signature);
    }
  }

  lemma LastAdds(ds: seq<Delivery>, ok: Outcomes, n: nat, signature: string)
    requires 0 < n <= |ds|
    ensures AcceptedBefore(ds, ok, n, signature)
      <==> AcceptedBefore(ds, ok, n - 1, signature) || (ds[n - 1].signature == signature && AcceptedAt(ds, ok, n - 1))
    ensures RefusedBefore(ds, ok, n, signature)
      <==> RefusedBefore(ds, ok, n - 1, signature) || (ds[n - 1].signature == signature && RefusedAt(ds, ok, n - 1))
  {
    hide AcceptedAt, RefusedAt;
  }

  /**
   * A delivery answered "accepted" has every one of its event keys published. One is answered "duplicate" exactly when an
   * earlier delivery of it was accepted, and then its keys are published too, or was refused downstream, never both.
   */
  lemma AnswersAreTrue(ds: seq<Delivery>, ok: Outcomes, j: nat)
    requires j < |ds| && SignaturesNameBodies(ds)
    ensures var after := Run(ds[..j + 1], ok).bus.published;
      && (AcceptedAt(ds, ok, j) || AcceptedBefore(ds, ok, j, ds[j].signature) ==> AllIn(Events(ds[j].payload), after))
      && (ResponseAt(ds, ok, j) == DuplicateIgnored
          <==> AcceptedBefore(ds, ok, j, ds[j].signature) || RefusedBefore(ds, ok, j, ds[j].signature))
      && !(AcceptedBefore(ds, ok, j, ds[j].signature) && RefusedBefore(ds, ok, j, ds[j].signature))
  {
    hide Ingest, Events, AllIn, RefusedAt, RefusedBefore;
    ClaimedExactly(ds, ok, j, ds[j].signature);
    if AcceptedAt(ds, ok, j) {
      AcceptedIsPublished(ds, ok, j, j + 1);
    } else if AcceptedBefore(ds, ok, j, ds[j].signature) {
      var i :| 0 <= i < j && ds[i].signature == ds[j].signature && AcceptedAt(ds, ok, i);
      AcceptedIsPublished(ds, ok, i, j + 1);
    }
  }

  predicate NoneRefused(ds: seq<Delivery>) {
    forall i :: 0 <= i < |ds| ==> ds[i].transport != RefusedDownstream
  }

  /**
   * With an ingestor that verifies signatures as the gateway has just done, and so refuses none: whatever publishes fail and
   * whatever is redelivered, a delivery answered "accepted" or "duplicate" has every one of its event keys published.
   */
  lemma AnsweredIsPublished(ds: seq<Delivery>, ok: Outcomes, j: nat)
    requires j < |ds| && SignaturesNameBodies(ds) && NoneRefused(ds)
    ensures ResponseAt(ds, ok, j) in {Accepted, DuplicateIgnored} ==>
      AllIn(Events(ds[j].payload), Run(ds[..j + 1], ok).bus.published)
  {
    hide Ingest, Events, AllIn, Run;
    AnswersAreTrue(ds, ok, j);
  }

  lemma KeysGrow(a: seq<Ev>, b: seq<Ev>)
    requires a <= b
    ensures Keys(a) <= Keys(b) && forall k :: k in Keys(a) ==> k in Keys(b)
  {
    assert Keys(b)[..|a|] == Keys(a);
  }

  lemma AcceptedIsPublished(ds: seq<Delivery>, ok: Outcomes, i: nat, n: nat)
    requires i < n <= |ds| && AcceptedAt(ds, ok, i)
    ensures AllIn(Events(ds[i].payload), Run(ds[..n], ok).bus.published)
  {
    hide Handle, Events, BusInv;
    assert ds[..i + 1][..i] == ds[..i];
    RunInv(ds[..i], ok);
    HandleKeeps(Run(ds[..i], ok), ds[i], ok);
    PublishedGrows(ds, ok, i + 1, n);
    KeysGrow(Run(ds[..i + 1], ok).bus.published, Run(ds[..n], ok).bus.published);
  }

  /**
   * In any run, once a delivery has been refused downstream, every later one of it is answered "duplicate" and changes
   * nothing.
   */
  lemma RefusedIsSwallowed(ds: seq<Delivery>, ok: Outcomes, i: nat, j: nat)
    requires i < j < |ds| && ds[i].signature == ds[j].signature && RefusedAt(ds, ok, i)
    ensures ResponseAt(ds, ok, j) == DuplicateIgnored && Run(ds[..j + 1], ok) == Run(ds[..j], ok)
  {
    hide Ingest;
    ClaimedExactly(ds, ok, j, ds[j].signature);
    assert ds[..j + 1][..j] == ds[..j];
  }

  /** A failed delivery leaves no claim behind: its retry is a fresh one, accepted once publishing works. */
  lemma RetryIsFresh(ds: seq<Delivery>, ok: Outcomes, j: nat, retry: Delivery)
    requires j < |ds| && ResponseAt(ds, ok, j) == BadGateway && ds[j].transport != RefusedDownstream
    requires retry.signature == ds[j].signature && retry.transport == Delivered
    requires forall n: nat :: n >= Run(ds[..j + 1], ok).bus.attempts ==> ok(n)
    ensures Handle(Run(ds[..j + 1], ok), retry, ok).1 == Accepted
  {
    assert ds[..j + 1][..j] == ds[..j];
    var w := Run(ds[..j + 1], ok);
    NeverThrows(Start(w.bus), Events(retry.payload), ok);
  }

  lemma {:induction false} NeverThrows(p: Progress, evs: seq<Ev>, ok: Outcomes)
    requires !p.threw && forall n: nat :: n >= p.bus.attempts ==> ok(n)
    ensures !All(p, evs, ok).threw && All(p, evs, ok).bus.attempts >= p.bus.attempts
  {
    if evs != [] { NeverThrows(p, evs[..|evs| - 1], ok); }
  }

  /** An event is published only by a delivery that carries it. */
  lemma {:induction false} PublishedIsCarried(p: Progress, evs: seq<Ev>, ok: Outcomes, key: string)
    requires key in Keys(All(p, evs, ok).bus.published) && key !in Keys(p.bus.published)
    ensures exists i :: 0 <= i < |evs| && KeyOf(evs[i]) == key
  {
    if evs != [] {
      var n := |evs| - 1;
      if key in Keys(All(p, evs[..n], ok).bus.published) {
        PublishedIsCarried(p, evs[..n], ok, key);
        var i :| 0 <= i < n && KeyOf(evs[..n][i]) == key;
        assert KeyOf(evs[i]) == key;
      } else {
        KeysAdd(All(p, evs[..n], ok).bus.published, evs[n]);
        assert KeyOf(evs[n]) == key;
      }
    }
  }

  predicate Carries(d: Delivery, key: string) {
    exists i :: 0 <= i < |Events(d.payload)| && KeyOf(Events(d.payload)[i]) == key
  }

  lemma HandlePublishes(w: World, d: Delivery, ok: Outcomes, key: string)
    requires key in Keys(Handle(w, d, ok).0.bus.published) && key !in Keys(w.bus.published)
    ensures Carries(d, key) && d.signature !in w.signatures
  {
    hide Events, All;
    PublishedIsCarried(Start(w.bus), Events(d.payload), ok, key);
  }

  /**
   * In any run, an event of a refused delivery that was unpublished when it was refused is never published, unless a delivery
   * of another signature carries it: its own redeliveries are all swallowed.
   */
  lemma {:induction false} RefusedIsLost(ds: seq<Delivery>, ok: Outcomes, i: nat, n: nat, key: string)
    requires i < n <= |ds| && RefusedAt(ds, ok, i) && key !in Keys(Run(ds[..i], ok).bus.published)
    requires forall j :: i < j < n && ds[j].signature != ds[i].signature ==> !Carries(ds[j], key)
    ensures key !in Keys(Run(ds[..n], ok).bus.published)
    decreases n
  {
    hide Ingest, Carries;
    var m := n - 1;
    assert ds[..n][..m] == ds[..m];
    if m > i {
      RefusedIsLost(ds, ok, i, m, key);
      if ds[m].signature == ds[i].signature {
        RefusedIsSwallowed(ds, ok, i, m);
      } else if key in Keys(Run(ds[..n], ok).bus.published) {
        HandlePublishes(Run(ds[..m], ok), ds[m], ok, key);
      }
    }
  }

  // ---------- keys and the events they stand for ----------

  /** An event that has its ids, as the provider's do; a message id without a colon leaves its statuses unambiguous. */
  predicate Plain(e: Ev) {
    match e
    case Message(id) => id.Some?
    case Social(_) => true
    case StatusChange(id, status) => id.Some? && status.Some? && ':' !in id.value
  }

  /** Keys tell such events apart: other messages, other statuses of one message, and other kinds of event. */
  lemma KeysTellApart(e: Ev, f: Ev)
    requires Plain(e) && Plain(f)
    ensures KeyOf(e) == KeyOf(f) <==> e == f
  {
    if KeyOf(e) == KeyOf(f) {
      assert KeyOf(e)[0] == KeyOf(f)[0] && KeyOf(e)[1] == KeyOf(f)[1];
      match (e, f) {
        case (Message(i), Message(j)) => assert KeyOf(e)[8..] == i.value && KeyOf(f)[8..] == j.value;
        case (Social(i), Social(j)) => assert KeyOf(e)[7..] == i && KeyOf(f)[7..] == j;
        case (StatusChange(i, x), StatusChange(j, y)) =>
          assert KeyOf(e)[7..] == i.value + ":" + x.value && KeyOf(f)[7..] == j.value + ":" + y.value;
          FirstColon(i.value, x.value, j.value, y.value);
        case _ =>
      }
    }
  }

  lemma FirstColon(i: string, x: string, j: string, y: string)
    requires ':' !in i && ':' !in j && i + ":" + x == j + ":" + y
    ensures i == j && x == y
  {
    var t := i + ":" + x;
    assert t[|i|] == ':' && t[|j|] == ':';
    assert forall k :: 0 <= k < |i| ==> t[k] == i[k] != ':';
    assert forall k :: 0 <= k < |j| ==> t[k] == j[k] != ':';
    assert t[..|i|] == i && t[..|j|] == j && t[|i| + 1..] == x && t[|j| + 1..] == y;
  }

  /** The payload names the event: a social message that is no echo, a message, or a status, in a change of an entry. */
  predicate Names(p: Payload, e: Ev) {
    exists i :: 0 <= i < |p.entries| && EntryNames(p, p.entries[i], e)
  }

  predicate EntryNames(p: Payload, entry: Entry, e: Ev) {
    if p.object_ in {Some("page"), Some("instagram")} && entry.messaging.Some? then
      e.Social? && e.mid != [] && SocialEvent(Some(e.mid), false) in entry.messaging.value
    else exists k :: 0 <= k < |entry.changes| && entry.changes[k].Some? && ValueNames(entry.changes[k].value, e)
  }

  predicate ValueNames(v: Value, e: Ev) {
    match e
    case Message(id) => id in v.messages
    case StatusChange(id, status) => Status(id, status) in v.statuses
    case Social(_) => false
  }

  /** Nothing in a payload is passed over, and nothing is made up. */
  lemma EventsExactly(p: Payload, e: Ev)
    ensures e in Events(p) <==> Names(p, e)
  {
    EventsUpToExactly(p, |p.entries|, e);
  }

  lemma {:induction false} EventsUpToExactly(p: Payload, n: nat, e: Ev)
    requires n <= |p.entries|
    ensures e in EventsUpTo(p, n) <==> exists i :: 0 <= i < n && EntryNames(p, p.entries[i], e)
  {
    hide EntryNames, EntryEvents;
    if n > 0 {
      EventsUpToExactly(p, n - 1, e);
      EntryExactly(p, p.entries[n - 1], e);
    }
  }

  lemma EntryExactly(p: Payload, entry: Entry, e: Ev)
    ensures e in EntryEvents(p, entry) <==> EntryNames(p, entry, e)
  {
    hide SocialEvents, ChangeEvents;
    if IsSocial(p, entry) { SocialExactly(entry.messaging.value, e); } else { ChangesExactly(entry.changes, e); }
  }

  lemma {:induction false} SocialExactly(es: seq<SocialEvent>, e: Ev)
    ensures e in SocialEvents(es) <==> e.Social? && e.mid != [] && SocialEvent(Some(e.mid), false) in es
  {
    if es != [] {
      var n := |es| - 1;
      SocialExactly(es[..n], e);
      assert es == es[..n] + [es[n]];
    }
  }

  lemma {:induction false} ChangesExactly(cs: seq<Option<Value>>, e: Ev)
    ensures e in ChangeEvents(cs) <==> exists k :: 0 <= k < |cs| && cs[k].Some? && ValueNames(cs[k].value, e)
  {
    hide ValueNames, ValueEvents;
    if cs != [] {
      var n := |cs| - 1;
      ChangesExactly(cs[..n], e);
      ValueExactly(cs[n], e);
      assert forall k :: 0 <= k < n ==> cs[..n][k] == cs[k];
    }
  }

  lemma ValueExactly(v: Option<Value>, e: Ev)
    ensures e in ValueEvents(v) <==> v.Some? && ValueNames(v.value, e)
  {
    if v.Some? {
      var ms, ss := MessageEvents(v.value.messages), StatusEvents(v.value.statuses);
      assert forall i :: 0 <= i < |ms| ==> ms[i] == Message(v.value.messages[i]);
      assert forall i :: 0 <= i < |ss| ==> ss[i] == StatusChange(v.value.statuses[i].id, v.value.statuses[i].status);
      forall i | 0 <= i < |ms| ensures ms[i] in ValueEvents(v) { assert ValueEvents(v)[i] == ms[i]; }
      forall i | 0 <= i < |ss| ensures ss[i] in ValueEvents(v) { assert ValueEvents(v)[|ms| + i] == ss[i]; }
      if e.Message? && e.id in v.value.messages {
        var i :| 0 <= i < |v.value.messages| && v.value.messages[i] == e.id;
        assert ms[i] == e;
      }
      if e.StatusChange? && Status(e.id, e.status) in v.value.statuses {
        var i :| 0 <= i < |v.value.statuses| && v.value.statuses[i] == Status(e.id, e.status);
        assert ss[i] == e;
      }
    }
  }

  lemma {:induction false} OnlyGiven(p: Progress, evs: seq<Ev>, ok: Outcomes, e: Ev)
    requires e in All(p, evs, ok).bus.published && e !in p.bus.published
    ensures e in evs
  {
    hide KeyOf, KindOf;
    if evs != [] {
      var n := |evs| - 1;
      if e in All(p, evs[..n], ok).bus.published { OnlyGiven(p, evs[..n], ok, e); }
      assert evs == evs[..n] + [evs[n]];
    }
  }

  /** In every run, whatever is published some delivery's payload names. */
  lemma {:induction false} PublishedIsNamed(ds: seq<Delivery>, ok: Outcomes, e: Ev)
    requires e in Run(ds, ok).bus.published
    ensures exists i :: 0 <= i < |ds| && Names(ds[i].payload, e)
  {
    hide All, Events, Names;
    if ds != [] {
      var n := |ds| - 1;
      if e in Run(ds[..n], ok).bus.published {
        PublishedIsNamed(ds[..n], ok, e);
        var i :| 0 <= i < n && Names(ds[..n][i].payload, e);
        assert ds[i] == ds[..n][i];
      } else {
        OnlyGiven(Start(Run(ds[..n], ok).bus), Events(ds[n].payload), ok, e);
        EventsExactly(ds[n].payload, e);
      }
    }
  }

  ghost predicate AllPlain(ds: seq<Delivery>) {
    forall i, e :: 0 <= i < |ds| && Names(ds[i].payload, e) ==> Plain(e)
  }

  /**
   * So, whatever publishes fail and whatever is redelivered, once a delivery has been answered "accepted" or "duplicate",
   * every message and every status its payload names has been published as itself, once.
   */
  lemma EveryEventIsPublished(ds: seq<Delivery>, ok: Outcomes, j: nat, e: Ev)
    requires j < |ds| && SignaturesNameBodies(ds) && NoneRefused(ds) && AllPlain(ds)
    requires ResponseAt(ds, ok, j) in {Accepted, DuplicateIgnored} && Names(ds[j].payload, e)
    ensures multiset(Run(ds[..j + 1], ok).bus.published)[e] == 1
  {
    hide Handle, Events, Names, Run;
    var after := Run(ds[..j + 1], ok).bus.published;
    AnsweredIsPublished(ds, ok, j);
    EventsExactly(ds[j].payload, e);
    var k :| 0 <= k < |Events(ds[j].payload)| && Events(ds[j].payload)[k] == e;
    assert KeyOf(e) in Keys(after);
    var i :| 0 <= i < |after| && KeyOf(after[i]) == KeyOf(e);
    PublishedIsNamed(ds[..j + 1], ok, after[i]);
    var d :| 0 <= d < |ds[..j + 1]| && Names(ds[..j + 1][d].payload, after[i]);
    assert ds[..j + 1][d] == ds[d];
    KeysTellApart(e, after[i]);
    PublishedAtMostOnce(ds[..j + 1], ok);
    OnceByKey(after, e);
  }

  lemma {:induction false} OnceByKey(evs: seq<Ev>, e: Ev)
    requires NoRepeats(Keys(evs))
    ensures multiset(evs)[e] == if e in evs then 1 else 0
  {
    if evs != [] {
      var n := |evs| - 1;
      assert evs == evs[..n] + [evs[n]];
      assert Keys(evs[..n]) == Keys(evs)[..n];
      OnceByKey(evs[..n], e);
      forall i | 0 <= i < n ensures evs[i] != evs[n] { assert Keys(evs)[i] != Keys(evs)[n]; }
    }
  }
}
