/**
 * The registry of open event streams (services/api-gateway/src/sse-hub.ts): clients per tenant, ended when a user, a
 * session or their age calls for it, dropped when a write to them fails. Beside the map of lists the source keeps, a ghost
 * flat list holds every open stream in the order they connected; each operation is stated on that list.
 */
module SseHub {
  import opened Options
  import opened Text

  datatype Client = Client(id: nat, userId: Option<string>, sessionKey: Option<string>, openedAt: int)

  datatype Stream = Stream(tenant: string, client: Client)

  /** One attempt to write a frame to a client. */
  datatype Write = Write(id: nat, frame: string, ok: bool)

  const PING := ": ping\n\n"

  // ---------- the flat list ----------

  function Ids(flat: seq<Stream>): set<nat> {
    set s | s in flat :: s.client.id
  }

  predicate Unique(flat: seq<Stream>) {
    forall i, j :: 0 <= i < j < |flat| ==> flat[i].client.id != flat[j].client.id
  }

  /** One tenant's clients, in the order they connected. */
  function Of(flat: seq<Stream>, tenant: string): seq<Client> {
    if flat == [] then []
    else
      var n := |flat| - 1;
      Of(flat[..n], tenant) + if flat[n].tenant == tenant then [flat[n].client] else []
  }

  function Without(flat: seq<Stream>, gone: set<nat>): seq<Stream> {
    if flat == [] then []
    else
      var n := |flat| - 1;
      Without(flat[..n], gone) + if flat[n].client.id in gone then [] else [flat[n]]
  }

  function Remaining(clients: seq<Client>, gone: set<nat>): seq<Client> {
    if clients == [] then []
    else
      var n := |clients| - 1;
      Remaining(clients[..n], gone) + if clients[n].id in gone then [] else [clients[n]]
  }

  function Matching(flat: seq<Stream>, matches: Client -> bool): set<nat> {
    set s | s in flat && matches(s.client) :: s.client.id
  }

  lemma {:induction false} OfIn(flat: seq<Stream>, tenant: string, c: Client)
    ensures c in Of(flat, tenant) <==> Stream(tenant, c) in flat
  {
    if flat != [] {
      var n := |flat| - 1;
      OfIn(flat[..n], tenant, c);
      assert flat == flat[..n] + [flat[n]];
    }
  }

  lemma {:induction false} OfUnique(flat: seq<Stream>, tenant: string)
    requires Unique(flat)
    ensures forall i, j :: 0 <= i < j < |Of(flat, tenant)| ==> Of(flat, tenant)[i].id != Of(flat, tenant)[j].id
  {
    if flat != [] {
      var n := |flat| - 1;
      OfUnique(flat[..n], tenant);
      forall c | c in Of(flat[..n], tenant) ensures c.id != flat[n].client.id {
        OfIn(flat[..n], tenant, c);
        var i :| 0 <= i < n && flat[i] == Stream(tenant, c);
      }
    }
  }

  lemma {:induction false} WithoutIn(flat: seq<Stream>, gone: set<nat>, s: Stream)
    ensures s in Without(flat, gone) <==> s in flat && s.client.id !in gone
  {
    if flat != [] {
      var n := |flat| - 1;
      WithoutIn(flat[..n], gone, s);
      assert flat == flat[..n] + [flat[n]];
    }
  }

  lemma {:induction false} WithoutUnique(flat: seq<Stream>, gone: set<nat>)
    requires Unique(flat)
    ensures Unique(Without(flat, gone))
  {
    if flat != [] {
      var n := |flat| - 1;
      WithoutUnique(flat[..n], gone);
      forall s | s in Without(flat[..n], gone) ensures s.client.id != flat[n].client.id {
        WithoutIn(flat[..n], gone, s);
        var i :| 0 <= i < n && flat[i] == s;
      }
    }
  }

  lemma {:induction false} WithoutTwice(flat: seq<Stream>, a: set<nat>, b: set<nat>)
    ensures Without(Without(flat, a), b) == Without(flat, a + b)
  {
    if flat != [] {
      var n := |flat| - 1;
      var front := Without(flat[..n], a);
      WithoutTwice(flat[..n], a, b);
      assert (front + [flat[n]])[..|front|] == front;
      assert flat[n].client.id in a ==> Without(flat, a) == front && Without(flat, a + b) == Without(flat[..n], a + b);
    }
  }

  lemma {:induction false} WithoutNone(flat: seq<Stream>, gone: set<nat>)
    requires gone !! Ids(flat)
    ensures Without(flat, gone) == flat
  {
    if flat != [] {
      var n := |flat| - 1;
      assert flat == flat[..n] + [flat[n]];
      assert Ids(flat[..n]) <= Ids(flat);
      assert flat[n] in flat;
      WithoutNone(flat[..n], gone);
    }
  }

  /** Removing from the whole list removes from each tenant's. */
  lemma {:induction false} OfWithout(flat: seq<Stream>, gone: set<nat>, tenant: string)
    ensures Of(Without(flat, gone), tenant) == Remaining(Of(flat, tenant), gone)
  {
    if flat != [] {
      var n := |flat| - 1;
      var front, list := Without(flat[..n], gone), Of(flat[..n], tenant);
      OfWithout(flat[..n], gone, tenant);
      assert (front + [flat[n]])[..|front|] == front;
      assert (list + [flat[n].client])[..|list|] == list;
      assert flat[n].client.id in gone ==> Without(flat, gone) == front;
      assert flat[n].tenant != tenant ==> Of(flat, tenant) == list;
    }
  }

  lemma {:induction false} UniqueCount(flat: seq<Stream>)
    requires Unique(flat)
    ensures |Ids(flat)| == |flat|
  {
    if flat != [] {
      var n := |flat| - 1;
      UniqueCount(flat[..n]);
      assert flat == flat[..n] + [flat[n]];
      assert Ids(flat) == Ids(flat[..n]) + {flat[n].client.id};
    }
  }

  ghost predicate SameElsewhere(now: map<string, seq<Client>>, was: map<string, seq<Client>>, tenant: string) {
    forall t :: t != tenant ==> (t in now <==> t in was) && (t in now && t in was ==> now[t] == was[t])
  }

  /** The map of lists holds exactly the flat list, tenant by tenant, and no empty entry. */
  ghost predicate Agrees(clients: map<string, seq<Client>>, flat: seq<Stream>) {
    && Unique(flat)
    && (forall t :: t in clients ==> clients[t] != [] && clients[t] == Of(flat, t))
    && (forall t :: t !in clients ==> Of(flat, t) == [])
  }

  lemma AgreesIn(clients: map<string, seq<Client>>, flat: seq<Stream>, s: Stream)
    requires Agrees(clients, flat)
    ensures s in flat <==> s.tenant in clients && s.client in clients[s.tenant]
  {
    OfIn(flat, s.tenant, s.client);
  }

  /** removeClient on the map is removal from the flat list. */
  lemma RemovalAgrees(clients: map<string, seq<Client>>, flat: seq<Stream>, tenant: string, id: nat)
    requires Agrees(clients, flat) && tenant in clients && exists c :: c in clients[tenant] && c.id == id
    ensures var left := Remaining(clients[tenant], {id});
      Agrees(if left == [] then clients - {tenant} else clients[tenant := left], Without(flat, {id}))
  {
    hide Of, Without, Remaining, Unique;
    var left := Remaining(clients[tenant], {id});
    var after := if left == [] then clients - {tenant} else clients[tenant := left];
    WithoutUnique(flat, {id});
    forall t ensures Of(Without(flat, {id}), t) == if t in after then after[t] else [] {
      OfWithout(flat, {id}, t);
      if t != tenant { OnlyThere(flat, tenant, id, t); }
    }
    forall t | t in after ensures after[t] != [] {
    }
  }

  lemma OnlyThere(flat: seq<Stream>, tenant: string, id: nat, other: string)
    requires Unique(flat) && other != tenant && exists c :: c in Of(flat, tenant) && c.id == id
    ensures Remaining(Of(flat, other), {id}) == Of(flat, other)
  {
    hide Of, Remaining;
    var c :| c in Of(flat, tenant) && c.id == id;
    OfIn(flat, tenant, c);
    forall d | d in Of(flat, other) ensures d.id != id {
      OfIn(flat, other, d);
      var i :| 0 <= i < |flat| && flat[i] == Stream(tenant, c);
      var j :| 0 <= j < |flat| && flat[j] == Stream(other, d);
    }
    RemainingNone(Of(flat, other), {id});
  }

  lemma {:induction false} RemainingNone(clients: seq<Client>, gone: set<nat>)
    requires forall d :: d in clients ==> d.id !in gone
    ensures Remaining(clients, gone) == clients
  {
    if clients != [] {
      var n := |clients| - 1;
      assert clients == clients[..n] + [clients[n]];
      RemainingNone(clients[..n], gone);
    }
  }

  // ---------- the clients of one tenant ----------

  function Picked(clients: seq<Client>, p: Client -> bool): set<nat> {
    set c | c in clients && p(c) :: c.id
  }

  function Any(): Client -> bool {
    c => true
  }

  function Fails(fails: nat -> bool): Client -> bool {
    (c: Client) => fails(c.id)
  }

  function ListIds(clients: seq<Client>): seq<nat> {
    seq(|clients|, i requires 0 <= i < |clients| => clients[i].id)
  }

  function Filtered(clients: seq<Client>, matches: Client -> bool): seq<Client> {
    if clients == [] then []
    else
      var n := |clients| - 1;
      Filtered(clients[..n], matches) + if matches(clients[n]) then [clients[n]] else []
  }

  predicate Distinct(clients: seq<Client>) {
    forall i, j :: 0 <= i < j < |clients| ==> clients[i].id != clients[j].id
  }

  lemma {:induction false} FilteredIn(clients: seq<Client>, matches: Client -> bool)
    ensures forall c :: c in Filtered(clients, matches) <==> c in clients && matches(c)
    ensures Picked(Filtered(clients, matches), Any()) == Picked(clients, matches)
  {
    if clients != [] {
      var n := |clients| - 1;
      FilteredIn(clients[..n], matches);
      assert clients == clients[..n] + [clients[n]];
    }
  }

  lemma {:induction false} FilteredDistinct(clients: seq<Client>, matches: Client -> bool)
    requires Distinct(clients)
    ensures Distinct(Filtered(clients, matches))
  {
    if clients != [] {
      var n := |clients| - 1;
      FilteredDistinct(clients[..n], matches);
      FilteredIn(clients[..n], matches);
      forall c | c in Filtered(clients[..n], matches) ensures c.id != clients[n].id {
        var i :| 0 <= i < n && clients[i] == c;
      }
    }
  }

  function Writes(clients: seq<Client>, frame: string, fails: nat -> bool): seq<Write> {
    seq(|clients|, i requires 0 <= i < |clients| => Write(clients[i].id, frame, !fails(clients[i].id)))
  }

  function Delivered(clients: seq<Client>, fails: nat -> bool): nat {
    if clients == [] then 0
    else
      var n := |clients| - 1;
      Delivered(clients[..n], fails) + if fails(clients[n].id) then 0 else 1
  }

  // ---------- logs ----------

  /** Since `before`, exactly these ids were logged, each once. */
  predicate Logged(before: seq<nat>, after: seq<nat>, ids: set<nat>) {
    before <= after && (set x | x in after[|before|..]) == ids && |after| - |before| == |ids|
  }

  lemma LoggedMore(before: seq<nat>, mid: seq<nat>, after: seq<nat>, a: set<nat>, b: set<nat>)
    requires Logged(before, mid, a) && Logged(mid, after, b) && a !! b
    ensures Logged(before, after, a + b)
  {
    assert after[|before|..] == mid[|before|..] + after[|mid|..];
    assert |a + b| == |a| + |b|;
  }

  function WriteIds(ws: seq<Write>): seq<nat> {
    seq(|ws|, i requires 0 <= i < |ws| => ws[i].id)
  }

  lemma {:induction false} DistinctLogged(clients: seq<Client>, log: seq<nat>)
    requires Distinct(clients)
    ensures Logged(log, log + ListIds(clients), Picked(clients, Any())) && |Picked(clients, Any())| == |clients|
  {
    hide Logged, Picked, ListIds;
    FirstNone(clients, Any());
    NoneLogged(log);
    if clients == [] {
      assert clients[..0] == clients && log + [] == log;
    } else {
      var n := |clients| - 1;
      var front, last := clients[..n], clients[n];
      DistinctLogged(front, log);
      assert clients == clients[..n + 1];
      OneMore(clients, n, Any());
      NotYet(clients, n);
      OneLogged(log + ListIds(front), last.id);
      LoggedMore(log, log + ListIds(front), log + ListIds(front) + [last.id], Picked(front, Any()), {last.id});
      assert log + ListIds(front) + [last.id] == log + ListIds(clients);
      assert Any()(last);
    }
  }

  lemma OneLogged(log: seq<nat>, id: nat)
    ensures Logged(log, log + [id], {id})
  {
    assert (log + [id])[|log|..] == [id];
  }

  lemma NoneLogged(log: seq<nat>)
    ensures Logged(log, log, {})
  {
  }

  // ---------- some of the tenants ----------

  function Chosen(flat: seq<Stream>, tenants: set<string>, p: Client -> bool): set<nat> {
    set s | s in flat && s.tenant in tenants && p(s.client) :: s.client.id
  }

  lemma ChosenMore(flat: seq<Stream>, tenants: set<string>, tenant: string, p: Client -> bool)
    requires Unique(flat) && tenant !in tenants
    ensures Chosen(flat, tenants + {tenant}, p) == Chosen(flat, tenants, p) + Picked(Of(flat, tenant), p)
    ensures Chosen(flat, tenants, p) !! Picked(Of(flat, tenant), p)
  {
    hide Of;
    forall c ensures c in Of(flat, tenant) <==> Stream(tenant, c) in flat { OfIn(flat, tenant, c); }
    forall s | s in flat && s.tenant == tenant && p(s.client) ensures s.client.id in Picked(Of(flat, tenant), p) {
      assert Stream(tenant, s.client) == s;
    }
    forall s, c | s in flat && s.tenant in tenants && c in Of(flat, tenant) ensures s.client.id != c.id {
      var i :| 0 <= i < |flat| && flat[i] == s;
      var j :| 0 <= j < |flat| && flat[j] == Stream(tenant, c);
    }
  }

  lemma ChosenNone(flat: seq<Stream>, p: Client -> bool)
    ensures Chosen(flat, {}, p) == {}
  {
  }

  lemma ChosenAll(clients: map<string, seq<Client>>, flat: seq<Stream>, p: Client -> bool)
    requires Agrees(clients, flat)
    ensures Chosen(flat, clients.Keys, p) == Matching(flat, p)
  {
    forall s | s in flat ensures s.tenant in clients { AgreesIn(clients, flat, s); }
  }

  lemma AnyIsAll(flat: seq<Stream>)
    ensures Matching(flat, Any()) == Ids(flat)
  {
  }

  /** A tenant whose entry in the map is as it was still has the streams it had. */
  lemma SameList(
    now: map<string, seq<Client>>, was: map<string, seq<Client>>, flat: seq<Stream>, before: seq<Stream>, tenant: string)
    requires Agrees(now, flat) && Agrees(was, before) && tenant in now && tenant in was && now[tenant] == was[tenant]
    ensures now[tenant] == Of(flat, tenant) == Of(before, tenant) && Distinct(Of(flat, tenant))
    ensures forall c :: c in now[tenant] <==> Stream(tenant, c) in flat
  {
    OfUnique(flat, tenant);
    forall c ensures c in Of(flat, tenant) <==> Stream(tenant, c) in flat { OfIn(flat, tenant, c); }
  }

  // ---------- the hub ----------

  class SseHub {
    var clients: map<string, seq<Client>>
    var issued: nat // stands for randomUUID
    var writes: seq<Write>
    var ended: seq<nat>
    const maxStreamAgeMs: nat
    ghost var flat: seq<Stream>

    ghost predicate Valid()
      reads this
    {
      Agrees(clients, flat) && forall s :: s in flat ==> s.client.id < issued
    }

    constructor (maxStreamAgeMs: nat)
      ensures Valid() && flat == [] && writes == [] && ended == [] && this.maxStreamAgeMs == maxStreamAgeMs
    {
      clients, issued, writes, ended, flat := map[], 0, [], [], [];
      this.maxStreamAgeMs := maxStreamAgeMs;
    }

    method AddClient(tenant: string, userId: Option<string>, sessionKey: Option<string>, now: int) returns (id: nat)
      requires Valid()
      modifies this`clients, this`issued, this`flat
      ensures Valid() && id !in Ids(old(flat))
      ensures flat == old(flat) + [Stream(tenant, Client(id, LowerId(userId), sessionKey, now))]
    {
      id := issued;
      issued := issued + 1;
      var client := Client(id, LowerId(userId), sessionKey, now);
      var current := if tenant in clients then clients[tenant] else [];
      AdditionAgrees(clients, flat, Stream(tenant, client));
      clients := clients[tenant := current + [client]];
      flat := flat + [Stream(tenant, client)];
    }

    method RemoveClient(tenant: string, id: nat)
      requires Valid()
      modifies this`clients, this`flat
      ensures Valid()
      ensures flat == Without(old(flat), set s | s in old(flat) && s.tenant == tenant && s.client.id == id :: s.client.id)
      ensures SameElsewhere(clients, old(clients), tenant)
    {
      ghost var gone := set s | s in flat && s.tenant == tenant && s.client.id == id :: s.client.id;
      hide Of, Without, Remaining;
      WithoutNone(flat, {});
      if tenant !in clients {
        forall s | s in flat ensures s.tenant != tenant { AgreesIn(clients, flat, s); }
        assert gone == {};
        return;
      }
      var current := clients[tenant];
      var remaining := Remaining(current, {id});
      if c :| c in current && c.id == id {
        AgreesIn(clients, flat, Stream(tenant, c));
        assert gone == {id};
        RemovalAgrees(clients, flat, tenant, id);
      } else {
        forall s | s in flat && s.tenant == tenant ensures s.client.id != id { AgreesIn(clients, flat, s); }
        assert gone == {};
        RemainingNone(current, {id});
      }
      if remaining == [] {
        clients := clients - {tenant};
      } else {
        clients := clients[tenant := remaining];
      }
      flat := Without(flat, gone);
      forall s | s in flat ensures s.client.id < issued { WithoutIn(old(flat), gone, s); }
    }

    /** The map's size alone answers this, because no tenant keeps an empty entry. */
    method HasClients() returns (any: bool)
      requires Valid()
      ensures any <==> flat != []
    {
      any := |clients| > 0;
      assert forall t :: Of([], t) == [];
      if flat != [] {
        AgreesIn(clients, flat, flat[0]);
      } else {
        assert clients.Keys == {};
      }
    }

    /** Ends and removes the given clients of one tenant, in order. */
    method EndAll(tenant: string, doomed: seq<Client>)
      requires Valid() && Distinct(doomed) && forall c :: c in doomed ==> Stream(tenant, c) in flat
      modifies this`clients, this`flat, this`ended
      ensures Valid() && flat == Without(old(flat), Picked(doomed, Any()))
      ensures ended == old(ended) + ListIds(doomed)
      ensures SameElsewhere(clients, old(clients), tenant)
    {
      hide Agrees, Without, Of, Remaining, ListIds, Picked;
      FirstNone(doomed, Any());
      WithoutNone(flat, {});
      for j := 0 to |doomed|
        invariant Valid() && flat == Without(old(flat), Picked(doomed[..j], Any()))
        invariant ended == old(ended) + ListIds(doomed[..j])
        invariant SameElsewhere(clients, old(clients), tenant)
      {
        var c := doomed[j];
        OneMore(doomed, j, Any());
        NotYet(doomed, j);
        WithoutIn(old(flat), Picked(doomed[..j], Any()), Stream(tenant, c));
        WithoutTwice(old(flat), Picked(doomed[..j], Any()), {c.id});
        ended := ended + [c.id];
        KnownOnce(clients, flat, Stream(tenant, c));
        RemoveClient(tenant, c.id);
      }
      assert doomed[..|doomed|] == doomed;
    }

    /** closeWhere: exactly the matching streams, in every tenant; returns how many. */
    method CloseWhere(matches: Client -> bool) returns (closed: nat)
      requires Valid()
      modifies this`clients, this`flat, this`ended
      ensures Valid() && flat == Without(old(flat), Matching(old(flat), matches))
      ensures closed == |Matching(old(flat), matches)| && Logged(old(ended), ended, Matching(old(flat), matches))
    {
      hide Without, Of, Remaining, Logged, Agrees, Matching, Picked, Chosen, ListIds, Filtered, Unique;
      var todo := clients.Keys;
      ghost var done: set<string> := {};
      closed := 0;
      NoneLogged(ended);
      ChosenNone(flat, matches);
      WithoutNone(flat, {});
      AgreesUnique(clients, flat);
      while todo != {}
        invariant Valid() && flat == Without(old(flat), Chosen(old(flat), done, matches))
        invariant closed == |Chosen(old(flat), done, matches)|
        invariant Logged(old(ended), ended, Chosen(old(flat), done, matches))
        invariant todo !! done && todo + done == old(clients).Keys && todo <= clients.Keys
        invariant forall t :: t in todo ==> clients[t] == old(clients)[t]
      {
        var tenant :| tenant in todo;
        SameList(clients, old(clients), flat, old(flat), tenant);
        CloseStep(old(flat), done, tenant, matches, old(ended), ended);
        var doomed := Filtered(clients[tenant], matches);
        EndAll(tenant, doomed);
        closed := closed + |doomed|;
        done, todo := done + {tenant}, todo - {tenant};
      }
      ChosenAll(old(clients), old(flat), matches);
    }

    method CloseUserStreams(userId: string) returns (closed: nat)
      requires Valid()
      modifies this`clients, this`flat, this`ended
      ensures Valid() && flat == Without(old(flat), Matching(old(flat), UserIs(userId)))
      ensures closed == |Matching(old(flat), UserIs(userId))|
    {
      closed := CloseWhere(UserIs(userId));
    }

    method CloseSessionStreams(sessionKey: string) returns (closed: nat)
      requires Valid()
      modifies this`clients, this`flat, this`ended
      ensures Valid() && flat == Without(old(flat), Matching(old(flat), SessionIs(sessionKey)))
      ensures closed == |Matching(old(flat), SessionIs(sessionKey))|
    {
      closed := CloseWhere(SessionIs(sessionKey));
    }

    method CloseExpired(now: int) returns (closed: nat)
      requires Valid()
      modifies this`clients, this`flat, this`ended
      ensures Valid() && flat == Without(old(flat), Matching(old(flat), Aged(now - maxStreamAgeMs)))
      ensures closed == |Matching(old(flat), Aged(now - maxStreamAgeMs))|
    {
      closed := CloseWhere(Aged(now - maxStreamAgeMs));
    }

    /** Writes a frame to each client of one tenant, in order; one that fails is dropped and the rest still get theirs. */
    method WriteAll(tenant: string, frame: string, fails: nat -> bool) returns (delivered: nat)
      requires Valid() && tenant in clients
      modifies this`clients, this`flat, this`writes
      ensures Valid() && flat == Without(old(flat), Picked(Of(old(flat), tenant), Fails(fails)))
      ensures writes == old(writes) + Writes(Of(old(flat), tenant), frame, fails)
      ensures delivered == Delivered(Of(old(flat), tenant), fails)
      ensures SameElsewhere(clients, old(clients), tenant)
    {
      hide Without, Of, Remaining, Writes, Delivered, Agrees, Picked;
      var current := clients[tenant];
      SameList(clients, clients, flat, flat, tenant);
      delivered := 0;
      NothingWritten(current, frame, fails);
      FirstNone(current, Fails(fails));
      WithoutNone(flat, {});
      for k := 0 to |current|
        invariant Valid() && flat == Without(old(flat), Picked(current[..k], Fails(fails)))
        invariant writes == old(writes) + Writes(current[..k], frame, fails)
        invariant delivered == Delivered(current[..k], fails)
        invariant SameElsewhere(clients, old(clients), tenant)
      {
        var c := current[k];
        OneMoreWrite(current, k, frame, fails);
        OneMore(current, k, Fails(fails));
        NotYet(current, k);
        writes := writes + [Write(c.id, frame, !fails(c.id))];
        if fails(c.id) {
          PickedLess(current[..k], Fails(fails));
          WithoutIn(old(flat), Picked(current[..k], Fails(fails)), Stream(tenant, c));
          WithoutTwice(old(flat), Picked(current[..k], Fails(fails)), {c.id});
          KnownOnce(clients, flat, Stream(tenant, c));
          RemoveClient(tenant, c.id);
        } else {
          delivered := delivered + 1;
        }
      }
      assert current[..|current|] == current;
    }

    /** broadcast: to the tenant's clients and no others, in the order they connected. */
    method Broadcast(tenant: string, frame: string, fails: nat -> bool) returns (delivered: nat)
      requires Valid()
      modifies this`clients, this`flat, this`writes
      ensures Valid() && flat == Without(old(flat), Picked(Of(old(flat), tenant), Fails(fails)))
      ensures writes == old(writes) + Writes(Of(old(flat), tenant), frame, fails)
      ensures delivered == Delivered(Of(old(flat), tenant), fails)
    {
      if tenant !in clients {
        assert Of(flat, tenant) == [];
        assert Picked([], Fails(fails)) == {};
        WithoutNone(flat, {});
        return 0;
      }
      delivered := WriteAll(tenant, frame, fails);
    }

    /** pingAll: ends what is at the age cap, then pings everybody left once. */
    method PingAll(now: int, fails: nat -> bool) returns (expired: nat)
      requires Valid()
      modifies this`clients, this`flat, this`writes, this`ended
      ensures Valid() && forall s :: s in flat ==> s.client.openedAt > now - maxStreamAgeMs
      ensures var aged := Matching(old(flat), Aged(now - maxStreamAgeMs)); var kept := Without(old(flat), aged);
        && expired == |aged|
        && flat == Without(kept, Matching(kept, Fails(fails)))
        && Logged(WriteIds(old(writes)), WriteIds(writes), Ids(kept))
    {
      expired := CloseExpired(now);
      ghost var kept := flat;
      forall s | s in kept ensures s.client.openedAt > now - maxStreamAgeMs {
        WithoutIn(old(flat), Matching(old(flat), Aged(now - maxStreamAgeMs)), s);
      }
      PingEach(fails);
      forall s | s in flat ensures s in kept { WithoutIn(kept, Matching(kept, Fails(fails)), s); }
    }

    method PingEach(fails: nat -> bool)
      requires Valid()
      modifies this`clients, this`flat, this`writes
      ensures Valid() && flat == Without(old(flat), Matching(old(flat), Fails(fails)))
      ensures Logged(WriteIds(old(writes)), WriteIds(writes), Ids(old(flat)))
    {
      hide Without, Of, Remaining, Logged, Agrees, Matching, Ids, Unique;
      hide Writes, WriteIds, Chosen, Picked, ListIds, Delivered;
      var todo := clients.Keys;
      ghost var done: set<string> := {};
      NoneLogged(WriteIds(writes));
      ChosenNone(flat, Fails(fails));
      ChosenNone(flat, Any());
      WithoutNone(flat, {});
      AgreesUnique(clients, flat);
      while todo != {}
        invariant Valid() && flat == Without(old(flat), Chosen(old(flat), done, Fails(fails)))
        invariant Logged(WriteIds(old(writes)), WriteIds(writes), Chosen(old(flat), done, Any()))
        invariant todo !! done && todo + done == old(clients).Keys && todo <= clients.Keys
        invariant forall t :: t in todo ==> clients[t] == old(clients)[t]
      {
        var tenant :| tenant in todo;
        SameList(clients, old(clients), flat, old(flat), tenant);
        PingStep(old(flat), done, tenant, fails, old(writes), writes);
        var _ := WriteAll(tenant, PING, fails);
        done, todo := done + {tenant}, todo - {tenant};
      }
      ChosenAll(old(clients), old(flat), Fails(fails));
      ChosenAll(old(clients), old(flat), Any());
      AnyIsAll(old(flat));
    }

    /** close: every stream is ended, once. */
    method Close()
      requires Valid()
      modifies this`clients, this`flat, this`ended
      ensures Valid() && flat == [] && clients == map[]
      ensures Logged(old(ended), ended, Ids(old(flat)))
    {
      hide Of, Logged, Agrees, Ids, Matching, Chosen, Picked, ListIds, Unique;
      var todo := clients.Keys;
      ghost var done: set<string> := {};
      NoneLogged(ended);
      ChosenNone(flat, Any());
      AgreesUnique(clients, flat);
      while todo != {}
        invariant clients == old(clients) && flat == old(flat)
        invariant Logged(old(ended), ended, Chosen(flat, done, Any()))
        invariant todo !! done && todo + done == clients.Keys
      {
        var tenant :| tenant in todo;
        SameList(clients, clients, flat, flat, tenant);
        ChosenMore(flat, done, tenant, Any());
        DistinctLogged(clients[tenant], ended);
        var more := ListIds(clients[tenant]);
        LoggedMore(old(ended), ended, ended + more, Chosen(flat, done, Any()), Picked(clients[tenant], Any()));
        ended := ended + more;
        done, todo := done + {tenant}, todo - {tenant};
      }
      ChosenAll(clients, flat, Any());
      AnyIsAll(flat);
      NothingAgrees();
      clients, flat := map[], [];
    }
  }

  /** Ending one more tenant's matching streams. */
  lemma CloseStep(
    flat: seq<Stream>, done: set<string>, tenant: string, matches: Client -> bool, log: seq<nat>, was: seq<nat>)
    requires Unique(flat) && tenant !in done && Distinct(Of(flat, tenant))
    requires Logged(log, was, Chosen(flat, done, matches))
    ensures var doomed := Filtered(Of(flat, tenant), matches); var gone := Chosen(flat, done, matches);
      && Distinct(doomed) && (forall c :: c in doomed ==> c in Of(flat, tenant))
      && (forall c :: c in doomed ==> c.id !in gone)
      && Without(Without(flat, gone), Picked(doomed, Any())) == Without(flat, Chosen(flat, done + {tenant}, matches))
      && Logged(log, was + ListIds(doomed), Chosen(flat, done + {tenant}, matches))
      && |Chosen(flat, done + {tenant}, matches)| == |gone| + |doomed|
  {
    hide Without, Of, Logged, Chosen, ListIds, Filtered, Unique;
    var list := Of(flat, tenant);
    var doomed, gone := Filtered(list, matches), Chosen(flat, done, matches);
    FilteredIn(list, matches);
    FilteredDistinct(list, matches);
    ChosenMore(flat, done, tenant, matches);
    var more := Picked(doomed, Any());
    assert forall c :: c in doomed ==> c.id in more;
    WithoutTwice(flat, gone, more);
    DistinctLogged(doomed, was);
    LoggedMore(log, was, was + ListIds(doomed), gone, more);
    Together(gone, more);
  }

  lemma Together(a: set<nat>, b: set<nat>)
    requires a !! b
    ensures |a + b| == |a| + |b|
  {
  }

  /** Pinging one more tenant. */
  lemma PingStep(flat: seq<Stream>, done: set<string>, tenant: string, fails: nat -> bool, log: seq<Write>, was: seq<Write>)
    requires Unique(flat) && tenant !in done && Distinct(Of(flat, tenant))
    requires Logged(WriteIds(log), WriteIds(was), Chosen(flat, done, Any()))
    ensures var list := Of(flat, tenant);
      && Without(Without(flat, Chosen(flat, done, Fails(fails))), Picked(list, Fails(fails)))
         == Without(flat, Chosen(flat, done + {tenant}, Fails(fails)))
      && Logged(WriteIds(log), WriteIds(was + Writes(list, PING, fails)), Chosen(flat, done + {tenant}, Any()))
  {
    hide Without, Of, Logged, Chosen, ListIds, Unique, WriteIds, Writes, Picked;
    var list := Of(flat, tenant);
    ChosenMore(flat, done, tenant, Fails(fails));
    ChosenMore(flat, done, tenant, Any());
    WithoutTwice(flat, Chosen(flat, done, Fails(fails)), Picked(list, Fails(fails)));
    WrittenIds(was, list, PING, fails);
    DistinctLogged(list, WriteIds(was));
    LoggedMore(WriteIds(log), WriteIds(was), WriteIds(was) + ListIds(list), Chosen(flat, done, Any()), Picked(list, Any()));
  }

  function UserIs(userId: string): Client -> bool {
    (c: Client) => c.userId == Some(Lower(userId))
  }

  function SessionIs(sessionKey: string): Client -> bool {
    (c: Client) => c.sessionKey == Some(sessionKey)
  }

  function Aged(cutoff: int): Client -> bool {
    (c: Client) => c.openedAt <= cutoff
  }

  lemma NothingAgrees()
    ensures Agrees(map[], [])
  {
  }

  lemma AgreesUnique(clients: map<string, seq<Client>>, flat: seq<Stream>)
    requires Agrees(clients, flat)
    ensures Unique(flat)
  {
  }

  /** What removeClient is asked to remove, when the client is there. */
  lemma KnownOnce(clients: map<string, seq<Client>>, flat: seq<Stream>, known: Stream)
    requires known in flat
    ensures (set s | s in flat && s.tenant == known.tenant && s.client.id == known.client.id :: s.client.id)
         == {known.client.id}
  {
  }

  lemma FirstNone(clients: seq<Client>, p: Client -> bool)
    ensures Picked(clients[..0], p) == {} && ListIds(clients[..0]) == []
  {
  }

  lemma OneMore(clients: seq<Client>, j: nat, p: Client -> bool)
    requires j < |clients|
    ensures Picked(clients[..j + 1], p)
         == if p(clients[j]) then Picked(clients[..j], p) + {clients[j].id} else Picked(clients[..j], p)
    ensures ListIds(clients[..j + 1]) == ListIds(clients[..j]) + [clients[j].id]
  {
    assert clients[..j + 1] == clients[..j] + [clients[j]];
  }

  lemma NotYet(clients: seq<Client>, j: nat)
    requires Distinct(clients) && j < |clients|
    ensures clients[j].id !in Picked(clients[..j], Any())
  {
  }

  lemma PickedLess(clients: seq<Client>, p: Client -> bool)
    ensures Picked(clients, p) <= Picked(clients, Any())
  {
  }

  lemma NothingWritten(clients: seq<Client>, frame: string, fails: nat -> bool)
    ensures Writes(clients[..0], frame, fails) == [] && Delivered(clients[..0], fails) == 0
  {
  }

  lemma OneMoreWrite(clients: seq<Client>, k: nat, frame: string, fails: nat -> bool)
    requires k < |clients|
    ensures Writes(clients[..k + 1], frame, fails)
         == Writes(clients[..k], frame, fails) + [Write(clients[k].id, frame, !fails(clients[k].id))]
    ensures Delivered(clients[..k + 1], fails) == Delivered(clients[..k], fails) + if fails(clients[k].id) then 0 else 1
  {
    assert clients[..k + 1] == clients[..k] + [clients[k]] && clients[..k + 1][..k] == clients[..k];
  }

  lemma WrittenIds(before: seq<Write>, clients: seq<Client>, frame: string, fails: nat -> bool)
    ensures WriteIds(before + Writes(clients, frame, fails)) == WriteIds(before) + ListIds(clients)
  {
  }

  function LowerId(userId: Option<string>): Option<string> {
    if userId.Some? then Some(Lower(userId.value)) else None
  }

  lemma AdditionAgrees(clients: map<string, seq<Client>>, flat: seq<Stream>, s: Stream)
    requires Agrees(clients, flat) && s.client.id !in Ids(flat)
    ensures var current := if s.tenant in clients then clients[s.tenant] else [];
      Agrees(clients[s.tenant := current + [s.client]], flat + [s])
  {
    hide Ids;
    var all := flat + [s];
    forall t ensures Of(all, t) == Of(flat, t) + if t == s.tenant then [s.client] else [] {
      assert all[..|flat|] == flat;
    }
    forall i, j | 0 <= i < j < |all| ensures all[i].client.id != all[j].client.id {
      if j == |flat| { NotIssued(flat, s.client.id, i); }
    }
  }

  lemma NotIssued(flat: seq<Stream>, id: nat, i: nat)
    requires id !in Ids(flat) && i < |flat|
    ensures flat[i].client.id != id
  {
    assert flat[i] in flat;
  }

  // ---------- who a close reaches ----------

  /** Of a hub's streams a close leaves exactly those that do not match. */
  lemma LeftExactly(flat: seq<Stream>, matches: Client -> bool, s: Stream)
    requires Unique(flat) && s in flat
    ensures s in Without(flat, Matching(flat, matches)) <==> !matches(s.client)
  {
    WithoutIn(flat, Matching(flat, matches), s);
    var i :| 0 <= i < |flat| && flat[i] == s;
    if s.client.id in Matching(flat, matches) {
      var t :| t in flat && matches(t.client) && t.client.id == s.client.id;
      var j :| 0 <= j < |flat| && flat[j] == t;
      assert i == j;
    }
  }

  /**
   * A stream opened for a user is closed exactly with that user's streams, whatever the letter case of either; one opened in
   * a session exactly with that session's; and any exactly from the age cap on.
   */
  lemma ReachedExactly(
    flat: seq<Stream>, tenant: string, id: nat, userId: Option<string>, session: Option<string>, since: int,
    user: string, key: string, cap: int, now: int)
    requires Unique(flat) && Stream(tenant, Client(id, LowerId(userId), session, since)) in flat
    ensures var s := Stream(tenant, Client(id, LowerId(userId), session, since));
      && (s !in Without(flat, Matching(flat, UserIs(user))) <==> userId.Some? && Lower(userId.value) == Lower(user))
      && (s !in Without(flat, Matching(flat, SessionIs(key))) <==> session.Some? && session.value == key)
      && (s !in Without(flat, Matching(flat, Aged(now - cap))) <==> now - since >= cap)
  {
    var s := Stream(tenant, Client(id, LowerId(userId), session, since));
    LeftExactly(flat, UserIs(user), s);
    LeftExactly(flat, SessionIs(key), s);
    LeftExactly(flat, Aged(now - cap), s);
  }
}
