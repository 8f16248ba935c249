/** The round-robin assignee of a team (packages/persistence/src/repositories.ts, teamRepository.nextRoundRobinAssignee). */
module RoundRobin {
  import opened Options
  import opened Bits

  predicate Distinct(ids: seq<string>) { forall i, j :: 0 <= i < j < |ids| ==> ids[i] != ids[j] }

  function IndexOf(ids: seq<string>, id: string): (i: int)
    ensures -1 <= i < |ids|
    ensures i >= 0 ==> ids[i] == id
    ensures i == -1 ==> id !in ids
  {
    if ids == [] then -1
    else if ids[0] == id then 0
    else
      var i := IndexOf(ids[1..], id);
      if i == -1 then -1 else i + 1
  }

  /** The first member to be picked: the one after the cursor, or the first when the cursor is gone. */
  function Start(ids: seq<string>, last: Option<string>): (k: nat)
    requires ids != []
    ensures k < |ids|
  {
    ((if last.Some? then IndexOf(ids, last.value) else -1) + 1) % |ids|
  }

  /** automation_settings.round_robin_last_user_id per tenant; a tenant without a settings row is not a key. */
  class Settings {
    var cursors: map<string, Option<string>>

    /** Picks among the active members, in their creation order, and moves the tenant's cursor if it has one. */
    method NextRoundRobinAssignee(tenantId: string, ids: seq<string>) returns (pick: Option<string>)
      modifies this
      ensures ids == [] ==> pick == None && cursors == old(cursors)
      ensures ids != [] ==> pick == Some(Pick(old(cursors), tenantId, ids))
      ensures ids != [] ==> cursors == Moved(old(cursors), tenantId, pick)
    {
      if ids == [] {
        return None;
      }
      var last := Cursor(cursors, tenantId);
      var lastIndex := if last.Some? then IndexOf(ids, last.value) else -1;
      var next := ids[(lastIndex + 1) % |ids|];
      if tenantId in cursors {
        cursors := cursors[tenantId := Some(next)];
      }
      return Some(next);
    }
  }

  function Cursor(cursors: map<string, Option<string>>, tenantId: string): Option<string> {
    if tenantId in cursors then cursors[tenantId] else None
  }

  function Pick(cursors: map<string, Option<string>>, tenantId: string, ids: seq<string>): string
    requires ids != []
  {
    ids[Start(ids, Cursor(cursors, tenantId))]
  }

  /** UPDATE ... WHERE tenant_id = $1: without a settings row nothing is stored. */
  function Moved(cursors: map<string, Option<string>>, tenantId: string, pick: Option<string>): map<string, Option<string>> {
    if tenantId in cursors then cursors[tenantId := pick] else cursors
  }

  /** What m calls in a row hand out. */
  function Calls(cursors: map<string, Option<string>>, tenantId: string, ids: seq<string>, m: nat): (picks: seq<string>)
    requires ids != []
    ensures |picks| == m
    decreases m
  {
    if m == 0 then []
    else
      var pick := Pick(cursors, tenantId, ids);
      [pick] + Calls(Moved(cursors, tenantId, Some(pick)), tenantId, ids, m - 1)
  }

  /** The rotation from a cursor that follows the picks. */
  function Picks(ids: seq<string>, last: Option<string>, m: nat): (picks: seq<string>)
    requires ids != []
    ensures |picks| == m
    decreases m
  {
    if m == 0 then []
    else
      var pick := ids[Start(ids, last)];
      [pick] + Picks(ids, Some(pick), m - 1)
  }

  lemma StartAfter(ids: seq<string>, k: nat)
    requires ids != [] && Distinct(ids) && k < |ids|
    ensures Start(ids, Some(ids[k])) == (k + 1) % |ids|
  {
    assert IndexOf(ids, ids[k]) == k;
  }

  lemma ModStep(s: nat, i: nat, n: nat)
    requires n > 0
    ensures ((s + 1) % n + i) % n == (s + i + 1) % n
  {
    var q := (s + 1) / n;
    assert s + 1 == n * q + (s + 1) % n;
    ModShift((s + 1) % n + i, n, q);
  }

  lemma ModShift(a: nat, n: nat, q: nat)
    requires n > 0
    ensures (a + n * q) % n == a % n
  {
    var p, r := a / n, a % n;
    assert a == n * p + r;
    RemainderUnique(a + n * q, n, p + q, r);
  }

  /** The i-th pick is i places after the first, going round the list. */
  lemma {:induction false} PickAt(ids: seq<string>, last: Option<string>, m: nat, i: nat)
    requires ids != [] && Distinct(ids) && i < m
    ensures Picks(ids, last, m)[i] == ids[(Start(ids, last) + i) % |ids|]
    decreases m
  {
    hide Start, Distinct, Picks;
    var s, n := Start(ids, last), |ids|;
    FirstPick(ids, last, m);
    if i == 0 {
      RemainderUnique(s, n, 0, s);
    } else {
      var j := i - 1;
      StartAfter(ids, s);
      PickAt(ids, Some(ids[s]), m - 1, j);
      ModStep(s, j, n);
    }
  }

  lemma FirstPick(ids: seq<string>, last: Option<string>, m: nat)
    requires ids != [] && m > 0
    ensures Picks(ids, last, m) == [ids[Start(ids, last)]] + Picks(ids, Some(ids[Start(ids, last)]), m - 1)
  {
  }

  /** Any |ids| picks in a row, or fewer, are all different. */
  lemma ConsecutiveDiffer(ids: seq<string>, last: Option<string>, m: nat, i: nat, j: nat)
    requires ids != [] && Distinct(ids) && i < j < m && j - i < |ids|
    ensures Picks(ids, last, m)[i] != Picks(ids, last, m)[j]
  {
    var s, n := Start(ids, last), |ids|;
    PickAt(ids, last, m, i);
    PickAt(ids, last, m, j);
    var a, b := (s + i) % n, (s + j) % n;
    SameRemainder(s + i, s + j, n);
    assert a < b || b < a;
  }

  lemma SameRemainder(x: nat, y: nat, n: nat)
    requires x < y < x + n
    ensures x % n != y % n
  {
    var p, q := x / n, y / n;
    var d := q - p;
    assert x == n * p + x % n && y == n * q + y % n;
    assert n * q == n * p + n * d;
    assert d >= 1 ==> n * d >= n;
    assert d <= 0 ==> n * d <= 0;
  }

  function Count(picks: seq<string>, id: string): nat {
    if picks == [] then 0
    else Count(picks[..|picks| - 1], id) + if picks[|picks| - 1] == id then 1 else 0
  }

  /** How far member k is from the first pick, going round. */
  function Offset(ids: seq<string>, last: Option<string>, k: nat): (d: nat)
    requires k < |ids|
    ensures d < |ids|
  {
    (k + |ids| - Start(ids, last)) % |ids|
  }

  lemma OffsetHit(ids: seq<string>, last: Option<string>, k: nat, i: nat)
    requires k < |ids|
    ensures (Start(ids, last) + i) % |ids| == k <==> i % |ids| == Offset(ids, last, k)
  {
    hide Start;
    var s, n := Start(ids, last), |ids|;
    var q, r := QuotientParts(i, n);
    ModShift(s + r, n, q);
    Wrap(s + r, n);
    Wrap(k + n - s, n);
  }

  lemma Wrap(a: nat, n: nat)
    requires n > 0 && a < 2 * n
    ensures a % n == if a < n then a else a - n
  {
    if a < n { RemainderUnique(a, n, 0, a); } else { RemainderUnique(a, n, 1, a - n); }
  }

  lemma {:induction false} PicksPrefix(ids: seq<string>, last: Option<string>, m: nat)
    requires ids != []
    ensures Picks(ids, last, m + 1)[..m] == Picks(ids, last, m)
    decreases m
  {
    if m > 0 {
      var pick := ids[Start(ids, last)];
      PicksPrefix(ids, Some(pick), m - 1);
      assert Picks(ids, last, m + 1)[..m] == [pick] + Picks(ids, Some(pick), m)[..m - 1];
    }
  }

  lemma NextQuotient(m: nat, n: nat)
    requires n > 0
    ensures m % n == n - 1 ==> (m + 1) / n == m / n + 1 && (m + 1) % n == 0
    ensures m % n < n - 1 ==> (m + 1) / n == m / n && (m + 1) % n == m % n + 1
  {
    var q, r := m / n, m % n;
    assert m == n * q + r;
    if r == n - 1 {
      RemainderUnique(m + 1, n, q + 1, 0);
    } else {
      RemainderUnique(m + 1, n, q, r + 1);
    }
  }

  /** After m picks each member has had floor(m/n) of them, and the first m mod n in turn one more. */
  lemma {:induction false} FairShare(ids: seq<string>, last: Option<string>, m: nat, k: nat)
    requires ids != [] && Distinct(ids) && k < |ids|
    ensures Count(Picks(ids, last, m), ids[k])
      == m / |ids| + if Offset(ids, last, k) < m % |ids| then 1 else 0
    decreases m
  {
    var n := |ids|;
    if m > 0 {
      var picks := Picks(ids, last, m);
      FairShare(ids, last, m - 1, k);
      PicksPrefix(ids, last, m - 1);
      PickAt(ids, last, m, m - 1);
      OffsetHit(ids, last, k, m - 1);
      NextQuotient(m - 1, n);
      assert picks[m - 1] == ids[k] <==> (m - 1) % n == Offset(ids, last, k);
    } else {
      RemainderUnique(0, n, 0, 0);
    }
  }

  // ---------- calls and the rotation ----------

  /** With a settings row, the calls are the rotation from its cursor. */
  lemma {:induction false} CallsRotate(cursors: map<string, Option<string>>, tenantId: string, ids: seq<string>, m: nat)
    requires ids != [] && tenantId in cursors
    ensures Calls(cursors, tenantId, ids, m) == Picks(ids, cursors[tenantId], m)
    decreases m
  {
    if m > 0 {
      var pick := Pick(cursors, tenantId, ids);
      CallsRotate(Moved(cursors, tenantId, Some(pick)), tenantId, ids, m - 1);
    }
  }

  /** Without one, every call picks the first member. */
  lemma {:induction false} CallsRepeat(
    cursors: map<string, Option<string>>, tenantId: string, ids: seq<string>, m: nat, i: nat)
    requires ids != [] && tenantId !in cursors && i < m
    ensures Calls(cursors, tenantId, ids, m)[i] == ids[0]
    decreases m
  {
    RemainderUnique(0, |ids|, 0, 0);
    if i > 0 { CallsRepeat(cursors, tenantId, ids, m - 1, i - 1); }
  }

  /** The calls rotate exactly when the tenant has a settings row, or only one member to pick: callers see to the row. */
  lemma RotatesExactly(cursors: map<string, Option<string>>, tenantId: string, ids: seq<string>)
    requires ids != [] && Distinct(ids)
    ensures (forall m: nat :: Calls(cursors, tenantId, ids, m) == Picks(ids, Cursor(cursors, tenantId), m))
      <==> tenantId in cursors || |ids| == 1
  {
    hide Calls, Picks, Start;
    if tenantId in cursors {
      forall m: nat ensures Calls(cursors, tenantId, ids, m) == Picks(ids, Cursor(cursors, tenantId), m) {
        CallsRotate(cursors, tenantId, ids, m);
      }
    } else if |ids| == 1 {
      forall m: nat ensures Calls(cursors, tenantId, ids, m) == Picks(ids, Cursor(cursors, tenantId), m) {
        forall i | 0 <= i < m ensures Calls(cursors, tenantId, ids, m)[i] == Picks(ids, None, m)[i] {
          CallsRepeat(cursors, tenantId, ids, m, i);
          PickAt(ids, None, m, i);
        }
      }
    } else {
      CallsRepeat(cursors, tenantId, ids, 2, 0);
      CallsRepeat(cursors, tenantId, ids, 2, 1);
      ConsecutiveDiffer(ids, None, 2, 0, 1);
    }
  }
}
