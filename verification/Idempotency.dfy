/** The pruning TTL store (packages/shared-core/src/idempotency.ts). */
module Idempotency {

  /** The live part of an IdempotencyStore: when each key's claim expires, and the time of the last prune. */
  datatype Store = Store(entries: map<string, int>, lastPruneAt: int)

  datatype Limits = Limits(ttlMs: int, pruneIntervalMs: int)

  function Prune(s: Store, now: int): Store {
    Store(map k | k in s.entries && s.entries[k] >= now :: s.entries[k], now)
  }

  predicate Live(entries: map<string, int>, key: string, now: int) { key in entries && entries[key] >= now }

  function Check(s: Store, limits: Limits, key: string, now: int): (Store, bool) {
    var pruned := if now - s.lastPruneAt >= limits.pruneIntervalMs then Prune(s, now) else s;
    if Live(pruned.entries, key, now) then (pruned, true)
    else (pruned.(entries := pruned.entries[key := now + limits.ttlMs]), false)
  }

  class IdempotencyStore {
    const limits: Limits
    var store: map<string, int>
    var lastPruneAt: int

    function State(): Store
      reads this
    {
      Store(store, lastPruneAt)
    }

    constructor (limits: Limits)
      ensures this.limits == limits && State() == Store(map[], 0)
    {
      this.limits := limits;
      store := map[];
      lastPruneAt := 0;
    }

    method IsDuplicate(key: string, now: int) returns (duplicate: bool)
      modifies this
      ensures (State(), duplicate) == Check(old(State()), limits, key, now)
    {
      if now - lastPruneAt >= limits.pruneIntervalMs {
        PruneExpired(now);
      }
      if key !in store || store[key] < now {
        store := store[key := now + limits.ttlMs];
        return false;
      }
      return true;
    }

    method Release(key: string)
      modifies this
      ensures State() == old(State()).(entries := old(store) - {key})
    {
      store := store - {key};
    }

    /** Deletes the expired keys one at a time, in whatever order the map hands them out. */
    method PruneExpired(now: int)
      modifies this
      ensures State() == Prune(old(State()), now)
    {
      lastPruneAt := now;
      var pending := store.Keys;
      while pending != {}
        invariant pending <= old(store.Keys)
        invariant lastPruneAt == now
        invariant store.Keys == set k | k in old(store.Keys) && (k in pending || old(store)[k] >= now)
        invariant forall k :: k in store ==> store[k] == old(store)[k]
        decreases |pending|
      {
        var key :| key in pending;
        if store[key] < now {
          store := store - {key};
        }
        pending := pending - {key};
      }
    }
  }

  // ---------- traces ----------

  datatype Op = Ask(key: string, now: int) | Free(key: string)

  /** One call, and its answer; a release answers nothing (false). */
  function Step(s: Store, limits: Limits, op: Op): (Store, bool) {
    match op
    case Ask(key, now) => Check(s, limits, key, now)
    case Free(key) => (s.(entries := s.entries - {key}), false)
  }

  /** The same calls on a store that never prunes. */
  function PlainStep(entries: map<string, int>, ttlMs: int, op: Op): (map<string, int>, bool) {
    match op
    case Ask(key, now) => if Live(entries, key, now) then (entries, true) else (entries[key := now + ttlMs], false)
    case Free(key) => (entries - {key}, false)
  }

  function After(limits: Limits, ops: seq<Op>): Store {
    if ops == [] then Store(map[], 0) else Step(After(limits, ops[..|ops| - 1]), limits, ops[|ops| - 1]).0
  }

  function PlainAfter(ttlMs: int, ops: seq<Op>): map<string, int> {
    if ops == [] then map[] else PlainStep(PlainAfter(ttlMs, ops[..|ops| - 1]), ttlMs, ops[|ops| - 1]).0
  }

  /** The answer of call i. */
  function Answer(limits: Limits, ops: seq<Op>, i: nat): bool
    requires i < |ops|
  {
    Step(After(limits, ops[..i]), limits, ops[i]).1
  }

  function PlainAnswer(ttlMs: int, ops: seq<Op>, i: nat): bool
    requires i < |ops|
  {
    PlainStep(PlainAfter(ttlMs, ops[..i]), ttlMs, ops[i]).1
  }

  /** The clock never goes back from one call to a later one. */
  predicate Monotone(ops: seq<Op>) {
    forall i, j :: 0 <= i < j < |ops| && ops[i].Ask? && ops[j].Ask? ==> ops[i].now <= ops[j].now
  }

  /** Pruning has only dropped claims that had expired by the time of the prune, which is no later than t. */
  predicate OnlyExpiredDropped(s: Store, plain: map<string, int>, t: int) {
    && (forall k :: k in s.entries ==> k in plain && plain[k] == s.entries[k])
    && (forall k :: k in plain && k !in s.entries ==> plain[k] < s.lastPruneAt && s.lastPruneAt <= t)
  }

  lemma AgreeStep(s: Store, plain: map<string, int>, limits: Limits, op: Op, t: int)
    requires OnlyExpiredDropped(s, plain, t)
    requires op.Ask? ==> t == op.now
    ensures Step(s, limits, op).1 == PlainStep(plain, limits.ttlMs, op).1
    ensures OnlyExpiredDropped(Step(s, limits, op).0, PlainStep(plain, limits.ttlMs, op).0, t)
  {
  }

  /** No call was made after t. */
  predicate UpTo(ops: seq<Op>, t: int) { forall i :: 0 <= i < |ops| && ops[i].Ask? ==> ops[i].now <= t }

  /** With a clock that never goes back, the two stores stay in step. */
  lemma {:induction false} StoresAgree(limits: Limits, ops: seq<Op>, t: int)
    requires Monotone(ops) && UpTo(ops, t)
    ensures OnlyExpiredDropped(After(limits, ops), PlainAfter(limits.ttlMs, ops), t)
  {
    if ops != [] {
      var front, op := ops[..|ops| - 1], ops[|ops| - 1];
      var time := if op.Ask? then op.now else t;
      assert UpTo(front, time);
      StoresAgree(limits, front, time);
      AgreeStep(After(limits, front), PlainAfter(limits.ttlMs, front), limits, op, time);
    }
  }

  /** Pruning never changes an answer. */
  lemma PruningIsInvisible(limits: Limits, ops: seq<Op>, i: nat)
    requires i < |ops| && Monotone(ops)
    ensures Answer(limits, ops, i) == PlainAnswer(limits.ttlMs, ops, i)
  {
    if ops[i].Ask? {
      var front, time := ops[..i], ops[i].now;
      assert UpTo(front, time);
      StoresAgree(limits, front, time);
      AgreeStep(After(limits, front), PlainAfter(limits.ttlMs, front), limits, ops[i], time);
    }
  }

  // ---------- one claim per TTL ----------

  /** Call i claimed the key afresh, and nothing released it before call j. */
  predicate HeldSince(ttlMs: int, ops: seq<Op>, key: string, i: nat, j: nat) {
    && i < j <= |ops|
    && ops[i].Ask? && ops[i].key == key && !PlainAnswer(ttlMs, ops, i)
    && forall r :: i < r < j ==> ops[r] != Free(key)
  }

  lemma HeldGrows(ttlMs: int, ops: seq<Op>, key: string, i: nat)
    requires |ops| > 0
    ensures HeldSince(ttlMs, ops[..|ops| - 1], key, i, |ops| - 1)
      <==> i < |ops| - 1 && HeldSince(ttlMs, ops, key, i, |ops| - 1)
  {
    var n := |ops| - 1;
    if i < n {
      assert ops[..n][..i] == ops[..i];
      assert ops[..n][i] == ops[i];
    }
  }

  /** What the plain store holds for a key: the expiry of its latest unreleased claim, and nothing else. */
  lemma {:induction false} EntryMeaning(ttlMs: int, ops: seq<Op>, key: string)
    requires Monotone(ops)
    ensures var entries := PlainAfter(ttlMs, ops);
      && (key in entries ==>
            exists i: nat :: HeldSince(ttlMs, ops, key, i, |ops|) && entries[key] == ops[i].now + ttlMs)
      && (forall i: nat :: HeldSince(ttlMs, ops, key, i, |ops|) ==> key in entries && entries[key] >= ops[i].now + ttlMs)
  {
    if ops != [] {
      var n := |ops| - 1;
      var front, op := ops[..n], ops[n];
      EntryMeaning(ttlMs, front, key);
      forall i: nat ensures HeldSince(ttlMs, front, key, i, n) <==> i < n && HeldSince(ttlMs, ops, key, i, n) {
        HeldGrows(ttlMs, ops, key, i);
      }
      var before, after := PlainAfter(ttlMs, front), PlainAfter(ttlMs, ops);
      assert PlainAnswer(ttlMs, ops, n) == PlainStep(before, ttlMs, op).1;
      if key in after && op != Free(key) {
        if op.Ask? && op.key == key && !PlainAnswer(ttlMs, ops, n) {
          assert HeldSince(ttlMs, ops, key, n, |ops|);
        } else {
          var i: nat :| HeldSince(ttlMs, front, key, i, n) && before[key] == front[i].now + ttlMs;
          assert HeldSince(ttlMs, ops, key, i, |ops|);
        }
      }
      forall i: nat | HeldSince(ttlMs, ops, key, i, |ops|)
        ensures key in after && after[key] >= ops[i].now + ttlMs
      {
        if i < n { assert HeldSince(ttlMs, front, key, i, n); }
      }
    }
  }

  /**
   * A call is answered "duplicate" exactly when an earlier call claimed the key, nothing released it since, and the
   * claim is at most ttlMs old. So a key is newly claimed at most once per TTL unless it is released.
   */
  lemma DuplicateMeaning(limits: Limits, ops: seq<Op>, j: nat)
    requires j < |ops| && ops[j].Ask?
    requires Monotone(ops)
    ensures Answer(limits, ops, j)
      <==> exists i: nat :: HeldSince(limits.ttlMs, ops[..j], ops[j].key, i, j) && ops[j].now <= ops[i].now + limits.ttlMs
  {
    PruningIsInvisible(limits, ops, j);
    EntryMeaning(limits.ttlMs, ops[..j], ops[j].key);
    if Answer(limits, ops, j) {
      var i: nat :| HeldSince(limits.ttlMs, ops[..j], ops[j].key, i, j)
        && PlainAfter(limits.ttlMs, ops[..j])[ops[j].key] == ops[..j][i].now + limits.ttlMs;
      assert ops[i] == ops[..j][i];
    } else {
      forall i: nat | HeldSince(limits.ttlMs, ops[..j], ops[j].key, i, j)
        ensures ops[j].now > ops[i].now + limits.ttlMs
      {
        assert ops[i] == ops[..j][i];
      }
    }
  }

  // ---------- what pruning keeps ----------

  /** When the last prune was: each call an interval or more after the one before it, or after time zero, makes one. */
  function PrunedAt(intervalMs: int, ops: seq<Op>): int {
    if ops == [] then 0
    else
      var before, op := PrunedAt(intervalMs, ops[..|ops| - 1]), ops[|ops| - 1];
      if op.Ask? && op.now - before >= intervalMs then op.now else before
  }

  predicate FromZero(ops: seq<Op>) { forall i :: 0 <= i < |ops| && ops[i].Ask? ==> ops[i].now >= 0 }

  /** The store holds exactly what one that never prunes holds, but for the claims that had expired by the last prune. */
  lemma {:induction false} StoreExactly(limits: Limits, ops: seq<Op>, t: int)
    requires Monotone(ops) && UpTo(ops, t) && FromZero(ops) && t >= 0 && limits.ttlMs >= 0
    ensures After(limits, ops).lastPruneAt == PrunedAt(limits.pruneIntervalMs, ops) <= t
    ensures var kept, all := After(limits, ops).entries, PlainAfter(limits.ttlMs, ops);
      kept == map k | k in all && all[k] >= PrunedAt(limits.pruneIntervalMs, ops) :: all[k]
  {
    if ops != [] {
      var front, op := ops[..|ops| - 1], ops[|ops| - 1];
      var time := if op.Ask? then op.now else t;
      assert UpTo(front, time);
      StoreExactly(limits, front, time);
    }
  }

  /** So the store does not grow without bound: after a call no kept claim has been expired for a prune interval. */
  lemma KeptIsRecent(limits: Limits, ops: seq<Op>, key: string)
    requires Monotone(ops) && FromZero(ops) && limits.ttlMs >= 0 && limits.pruneIntervalMs > 0
    requires ops != [] && ops[|ops| - 1].Ask? && key in After(limits, ops).entries
    ensures After(limits, ops).entries[key] > ops[|ops| - 1].now - limits.pruneIntervalMs
  {
    StoreExactly(limits, ops, ops[|ops| - 1].now);
  }
}
