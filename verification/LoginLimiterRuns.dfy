/**
 Whole runs of the login limiter under a clock that never goes backwards.

 The log is a ghost: for each key, the instants at which it was admitted since its
 last `success`.  The invariant carried through every event is that whatever of the
 log is still inside the window is also held by the store that guards the key.
 */
module LoginLimiterRuns {
  import opened Common
  import opened AttemptHistories
  import opened LoginLimiting
  import opened LoginLimiterSafety

  type Log = map<Key, History>

  function Logged(log: Log, key: Key): History { if key in log then log[key] else [] }

  datatype Event =
    | Attempted(keys: seq<Key>, now: Instant)
    | Succeeded(key: Key, now: Instant)
    | Poisoned(found: State, now: Instant)

  function Next(c: Settings, st: State, e: Event): State
    requires c.Valid() && |st.overflow| == c.buckets
  {
    match e
    case Attempted(keys, now) => Attempt(c, st, keys, now).state
    case Succeeded(key, _) => Succeed(st, key)
    case Poisoned(found, now) => Recover(c, found, now)
  }

  function NextLog(c: Settings, st: State, log: Log, e: Event): Log
    requires c.Valid() && |st.overflow| == c.buckets
  {
    match e
    case Attempted(keys, now) =>
      if Attempt(c, st, keys, now).admitted then
        map k | k in log.Keys + KeySet(keys) :: Logged(log, k) + (if k in KeySet(keys) then [now] else [])
      else log
    case Succeeded(key, _) => log - {key}
    case Poisoned(_, _) => log
  }

  /** The admitted attempts of one key respect the budget. */
  predicate WithinBudget(c: Settings, h: History, now: Instant) {
    Ordered(h) && Before(h, now) && Spaced(h, c.max, c.window)
  }

  /** The guarding history holds every logged attempt that still counts. */
  ghost predicate Guarded(c: Settings, h: History, guard: History, now: Instant) {
    forall since :: Live(c.window, now, since) ==> CountSince(h, since) <= CountSince(guard, since)
  }

  /** Each key's logged attempts that still count are held by the store that guards it. */
  ghost predicate GuardsLog(c: Settings, st: State, log: Log, now: Instant)
    requires c.Valid() && |st.overflow| == c.buckets
  {
    forall k :: Guarded(c, Logged(log, k), Guarding(c, st, k), now)
  }

  /**
   A panicking lock holder left either a structurally damaged state, about which
   nothing is assumed, or one that still guards the attempts of the log.
   */
  ghost predicate Plausible(c: Settings, log: Log, e: Event)
    requires c.Valid()
  {
    e.Poisoned? && !Damaged(c, e.found) ==> Tidy(e.found, e.now) && GuardsLog(c, e.found, log, e.now)
  }

  ghost predicate Invariant(c: Settings, st: State, log: Log, now: Instant) {
    && c.Valid()
    && Bounded(c, st)
    && Tidy(st, now)
    && (forall k :: WithinBudget(c, Logged(log, k), now))
    && GuardsLog(c, st, log, now)
  }

  function Initial(c: Settings): State { State(map[], seq(c.buckets, _ => None), 0) }

  lemma InitialInvariant(c: Settings, now: Instant)
    requires c.Valid()
    ensures Invariant(c, Initial(c), map[], now)
  {
  }

  lemma LaterInvariant(c: Settings, st: State, log: Log, t: Instant, now: Instant)
    requires Invariant(c, st, log, t) && t <= now
    ensures Invariant(c, st, log, now)
  {
    forall k
      ensures WithinBudget(c, Logged(log, k), now) && Guarded(c, Logged(log, k), Guarding(c, st, k), now)
    {
      assert WithinBudget(c, Logged(log, k), t);
      assert Guarded(c, Logged(log, k), Guarding(c, st, k), t);
      var h, guard := Logged(log, k), Guarding(c, st, k);
      forall since | Live(c.window, now, since)
        ensures CountSince(h, since) <= CountSince(guard, since)
      {
        assert Live(c.window, t, since);
      }
    }
  }

  // ----- Attempts -----

  /** A change that only prunes keeps the invariant. */
  lemma PrunedInvariant(c: Settings, st: State, r: State, log: Log, now: Instant)
    requires Invariant(c, st, log, now)
    requires OnlyPruned(c, st, r, now)
    ensures Invariant(c, r, log, now)
  {
    PrunedKeepsShape(c, st, r, now);
    forall k
      ensures Guarded(c, Logged(log, k), Guarding(c, r, k), now)
    {
      assert Guarded(c, Logged(log, k), Guarding(c, st, k), now);
      PrunedCovers(c, st, r, k, now);
    }
  }

  /** Charging a key pushes onto the store that guards it from then on. */
  lemma ChargedKey(c: Settings, ready: State, r: State, keys: set<Key>, h: History, k: Key, now: Instant)
    requires c.Valid() && |ready.overflow| == c.buckets
    requires Recorded(c, ready, r, keys, now) && k in keys
    requires Guarded(c, h, Guarding(c, ready, k), now)
    ensures Guarded(c, h + [now], Guarding(c, r, k), now)
    ensures forall since :: Live(c.window, now, since) ==> CountSince(h, since) < c.max || c.max == 0
  {
    var before, after := Guarding(c, ready, k), Guarding(c, r, k);
    forall since | Live(c.window, now, since)
      ensures CountSince(h + [now], since) <= CountSince(after, since)
      ensures CountSince(h, since) < c.max || c.max == 0
    {
      CountPush(h, now, since);
      if k in r.entries && k !in ready.entries {
        CountPruned(c.window, before, now, since);
        CountPush([], now, since);
      } else {
        assert after == before + [now];
        CountPush(before, now, since);
      }
    }
  }

  /** A key that was not requested keeps at least what guarded it. */
  lemma OtherKey(c: Settings, ready: State, r: State, keys: set<Key>, h: History, k: Key, now: Instant)
    requires c.Valid() && |ready.overflow| == c.buckets
    requires Recorded(c, ready, r, keys, now) && k !in keys
    requires Guarded(c, h, Guarding(c, ready, k), now)
    ensures Guarded(c, h, Guarding(c, r, k), now)
  {
    var before, after := Guarding(c, ready, k), Guarding(c, r, k);
    forall since | Live(c.window, now, since)
      ensures CountSince(h, since) <= CountSince(after, since)
    {
      assert after == before || after == before + [now];
      CountPush(before, now, since);
    }
  }

  lemma RecordedShape(c: Settings, ready: State, r: State, keys: set<Key>, now: Instant)
    requires c.Valid() && c.max > 0
    requires Bounded(c, ready) && Tidy(ready, now)
    requires Recorded(c, ready, r, keys, now)
    ensures Bounded(c, r) && Tidy(r, now)
  {
    forall k | k in r.entries
      ensures |r.entries[k]| <= c.max && InOrder(r.entries[k], now)
    {
      if k in ready.entries {
        PushInOrder(ready.entries[k], now);
        assert ready.entries[k] + [] == ready.entries[k];
      }
    }
    forall i | 0 <= i < |r.overflow|
      ensures |Contents(r.overflow[i])| <= c.max && InOrder(Contents(r.overflow[i]), now)
    {
      PushInOrder(Contents(ready.overflow[i]), now);
    }
  }

  lemma PushInOrder(h: History, now: Instant)
    requires InOrder(h, now)
    ensures InOrder(h + [now], now)
  {
  }

  lemma AdmittedInvariant(c: Settings, ready: State, r: State, log: Log, keys: set<Key>, now: Instant)
    requires Invariant(c, ready, log, now) && c.max > 0 && c.window > 0
    requires Recorded(c, ready, r, keys, now)
    ensures
      var log' := map k | k in log.Keys + keys :: Logged(log, k) + (if k in keys then [now] else []);
      Invariant(c, r, log', now)
  {
    var log' := map k | k in log.Keys + keys :: Logged(log, k) + (if k in keys then [now] else []);
    RecordedShape(c, ready, r, keys, now);
    forall k
      ensures WithinBudget(c, Logged(log', k), now) && Guarded(c, Logged(log', k), Guarding(c, r, k), now)
    {
      var h := Logged(log, k);
      assert WithinBudget(c, h, now) && Guarded(c, h, Guarding(c, ready, k), now);
      if k in keys {
        ChargedKey(c, ready, r, keys, h, k, now);
        SpacedPush(h, now, c.max, c.window);
      } else {
        assert h + [] == h;
        OtherKey(c, ready, r, keys, h, k, now);
      }
    }
  }

  lemma AttemptInvariant(c: Settings, st: State, log: Log, keys: seq<Key>, now: Instant)
    requires Invariant(c, st, log, now)
    ensures Invariant(c, Attempt(c, st, keys, now).state, NextLog(c, st, log, Attempted(keys, now)), now)
  {
    var e := Attempted(keys, now);
    var d := Attempt(c, st, keys, now);
    if !d.admitted {
      RefusedRecordsNothing(c, st, keys, now);
      PrunedInvariant(c, st, d.state, log, now);
    } else if keys == [] {
      var log' := NextLog(c, st, log, e);
      assert forall k :: Logged(log', k) == Logged(log, k) by {
        assert forall k :: Logged(log, k) + [] == Logged(log, k);
      }
    } else {
      AdmittedIsRecorded(c, st, keys, now);
      var ready := Prepared(c, st, keys, now).0;
      PrunedInvariant(c, st, ready, log, now);
      AdmittedInvariant(c, ready, d.state, log, KeySet(keys), now);
    }
  }

  // ----- Success and recovery -----

  lemma SuccessShape(c: Settings, st: State, key: Key, now: Instant)
    requires Bounded(c, st) && Tidy(st, now)
    ensures Bounded(c, Succeed(st, key)) && Tidy(Succeed(st, key), now)
  {
    SubsetSize(Succeed(st, key).entries.Keys, st.entries.Keys);
  }

  /** A success forgets the key's own entry and leaves every shared bucket alone. */
  lemma SuccessInvariant(c: Settings, st: State, log: Log, key: Key, now: Instant)
    requires Invariant(c, st, log, now)
    ensures Invariant(c, Succeed(st, key), log - {key}, now)
  {
    var r := Succeed(st, key);
    SuccessShape(c, st, key, now);
    forall k
      ensures WithinBudget(c, Logged(log - {key}, k), now)
      ensures Guarded(c, Logged(log - {key}, k), Guarding(c, r, k), now)
    {
      if k != key {
        assert Logged(log - {key}, k) == Logged(log, k);
        assert Guarding(c, r, k) == Guarding(c, st, k);
        assert WithinBudget(c, Logged(log, k), now) && Guarded(c, Logged(log, k), Guarding(c, st, k), now);
      } else {
        assert Logged(log - {key}, k) == [];
      }
    }
  }

  lemma {:induction false} CountSaturated(n: nat, now: Instant, since: Instant)
    ensures CountSince(seq(n, _ => now), since) == if now >= since then n else 0
    decreases n
  {
    if n > 0 {
      var h := seq(n, _ => now);
      assert h[..n - 1] == seq(n - 1, _ => now);
      CountSaturated(n - 1, now, since);
    }
  }

  lemma {:induction false} CountFuture(h: History, now: Instant, since: Instant)
    requires Before(h, now) && now < since
    ensures CountSince(h, since) == 0
  {
    if h != [] {
      CountFuture(h[..|h| - 1], now, since);
    }
  }

  /** Every logged attempt that still counts is one of at most `max`. */
  lemma LoggedAtMostMax(c: Settings, st: State, log: Log, k: Key, now: Instant, since: Instant)
    requires Invariant(c, st, log, now) && Live(c.window, now, since)
    ensures CountSince(Logged(log, k), since) <= c.max
    ensures now < since ==> CountSince(Logged(log, k), since) == 0
  {
    assert Guarded(c, Logged(log, k), Guarding(c, st, k), now);
    assert WithinBudget(c, Logged(log, k), now);
    if now < since {
      CountFuture(Logged(log, k), now, since);
    }
  }

  lemma DamagedRecovery(c: Settings, st: State, log: Log, found: State, now: Instant)
    requires Invariant(c, st, log, now) && Damaged(c, found)
    ensures Invariant(c, Recover(c, found, now), log, now)
  {
    var r := Recover(c, found, now);
    forall k
      ensures Guarded(c, Logged(log, k), Guarding(c, r, k), now)
    {
      forall since | Live(c.window, now, since)
        ensures CountSince(Logged(log, k), since) <= CountSince(Guarding(c, r, k), since)
      {
        LoggedAtMostMax(c, st, log, k, now, since);
        CountSaturated(c.max, now, since);
      }
    }
  }

  /** What truncation to the newest `max` attempts does to one history. */
  lemma TruncatedGuard(c: Settings, h: History, guard: History, now: Instant)
    requires InOrder(guard, now)
    requires Guarded(c, h, guard, now)
    requires forall since :: Live(c.window, now, since) ==> CountSince(h, since) <= c.max
    ensures Guarded(c, h, KeepNewest(c, guard), now)
  {
    if |guard| > c.max {
      forall since | Live(c.window, now, since)
        ensures CountSince(h, since) <= CountSince(KeepNewest(c, guard), since)
      {
        CountKeptNewest(guard, c.max, since);
      }
    }
  }

  /** Recovery restores every bound, whatever state the panicking holder left behind. */
  lemma RecoveryRestoresBounds(c: Settings, found: State, now: Instant)
    requires c.Valid()
    ensures Bounded(c, Recover(c, found, now))
  {
    if !Damaged(c, found) {
      var clean := Cleanup(c, found, now);
      assert Recover(c, found, now).entries.Keys == clean.entries.Keys;
      SubsetSize(clean.entries.Keys, found.entries.Keys);
    }
  }

  lemma RecoveredInOrder(c: Settings, found: State, now: Instant)
    requires !Damaged(c, found) && Tidy(found, now)
    ensures Tidy(Recover(c, found, now), now)
  {
    var clean := Cleanup(c, found, now);
    var r := Recover(c, found, now);
    forall k | k in r.entries
      ensures InOrder(r.entries[k], now)
    {
      PruneKeepsOrder(c, found.entries[k], now);
      NewestInOrder(c, clean.entries[k], now);
    }
    forall i | 0 <= i < |r.overflow|
      ensures InOrder(Contents(r.overflow[i]), now)
    {
      PruneKeepsOrder(c, Contents(found.overflow[i]), now);
      NewestInOrder(c, Contents(clean.overflow[i]), now);
    }
  }

  lemma NewestInOrder(c: Settings, h: History, now: Instant)
    requires InOrder(h, now)
    ensures InOrder(KeepNewest(c, h), now)
  {
  }

  /** Recovery of a sound state: the guard of each key is the pruned one, truncated. */
  lemma RecoveredGuard(c: Settings, found: State, k: Key, now: Instant)
    requires c.Valid() && !Damaged(c, found)
    ensures Guarding(c, Recover(c, found, now), k) == KeepNewest(c, Guarding(c, Cleanup(c, found, now), k))
  {
  }

  lemma SoundRecovery(c: Settings, st: State, log: Log, found: State, now: Instant)
    requires Invariant(c, st, log, now)
    requires !Damaged(c, found) && Tidy(found, now) && GuardsLog(c, found, log, now)
    ensures Invariant(c, Recover(c, found, now), log, now)
  {
    var clean := Cleanup(c, found, now);
    CleanupOnlyPrunes(c, found, now);
    PrunedKeepsShape(c, found, clean, now);
    RecoveryRestoresBounds(c, found, now);
    RecoveredInOrder(c, found, now);
    forall k
      ensures Guarded(c, Logged(log, k), Guarding(c, Recover(c, found, now), k), now)
    {
      assert Guarded(c, Logged(log, k), Guarding(c, found, k), now);
      PrunedCovers(c, found, clean, k, now);
      forall since | Live(c.window, now, since)
        ensures CountSince(Logged(log, k), since) <= c.max
      {
        LoggedAtMostMax(c, st, log, k, now, since);
      }
      TruncatedGuard(c, Logged(log, k), Guarding(c, clean, k), now);
      RecoveredGuard(c, found, k, now);
    }
  }

  // ----- Runs -----

  /** Every event keeps the invariant. */
  lemma EventInvariant(c: Settings, st: State, log: Log, e: Event, t: Instant)
    requires Invariant(c, st, log, t) && t <= e.now
    requires Plausible(c, log, e)
    ensures Invariant(c, Next(c, st, e), NextLog(c, st, log, e), e.now)
  {
    LaterInvariant(c, st, log, t, e.now);
    match e
    case Attempted(keys, now) => AttemptInvariant(c, st, log, keys, now);
    case Succeeded(key, now) => SuccessInvariant(c, st, log, key, now);
    case Poisoned(found, now) =>
      if Damaged(c, found) {
        DamagedRecovery(c, st, log, found, now);
      } else {
        SoundRecovery(c, st, log, found, now);
      }
  }

  /** A run: events at instants that never decrease, each plausible where it occurs. */
  ghost predicate IsRun(c: Settings, st: State, log: Log, events: seq<Event>, t: Instant)
    requires c.Valid()
    decreases |events|
  {
    events == [] ||
    (&& t <= events[0].now
     && |st.overflow| == c.buckets
     && Plausible(c, log, events[0])
     && IsRun(c, Next(c, st, events[0]), NextLog(c, st, log, events[0]), events[1..], events[0].now))
  }

  ghost function LogOf(c: Settings, st: State, log: Log, events: seq<Event>, t: Instant): Log
    requires c.Valid() && IsRun(c, st, log, events, t)
    decreases |events|
  {
    if events == [] then log
    else LogOf(c, Next(c, st, events[0]), NextLog(c, st, log, events[0]), events[1..], events[0].now)
  }

  ghost function StateOf(c: Settings, st: State, log: Log, events: seq<Event>, t: Instant): State
    requires c.Valid() && IsRun(c, st, log, events, t)
    decreases |events|
  {
    if events == [] then st
    else StateOf(c, Next(c, st, events[0]), NextLog(c, st, log, events[0]), events[1..], events[0].now)
  }

  lemma {:induction false} RunInvariant(c: Settings, st: State, log: Log, events: seq<Event>, t: Instant) returns (now: Instant)
    requires Invariant(c, st, log, t) && IsRun(c, st, log, events, t)
    ensures Invariant(c, StateOf(c, st, log, events, t), LogOf(c, st, log, events, t), now)
    decreases |events|
  {
    now := t;
    if events != [] {
      EventInvariant(c, st, log, events[0], t);
      now := RunInvariant(c, Next(c, st, events[0]), NextLog(c, st, log, events[0]), events[1..], events[0].now);
    }
  }

  /**
   The budget holds over every run: in any interval shorter than the window, a key is
   admitted at most `max` times since its last success, however it moved between the
   primary map and a bucket, and whatever cleanup and recovery happened in between.
   The state stays bounded throughout.
   */
  lemma WindowBudget(c: Settings, events: seq<Event>, key: Key, a: Instant, b: Instant)
    requires c.Valid()
    requires IsRun(c, Initial(c), map[], events, 0)
    requires b < a + c.window
    ensures CountBetween(Logged(LogOf(c, Initial(c), map[], events, 0), key), a, b) <= c.max
    ensures Bounded(c, StateOf(c, Initial(c), map[], events, 0))
  {
    InitialInvariant(c, 0);
    var now := RunInvariant(c, Initial(c), map[], events, 0);
    var log := LogOf(c, Initial(c), map[], events, 0);
    assert WithinBudget(c, Logged(log, key), now);
    IntervalBound(Logged(log, key), a, b, c.max, c.window);
  }

  // ----- What a panicking call can leave behind -----

  lemma PushedCounts(h: History, r: History, now: Instant, since: Instant)
    requires PushedOrNot(h, r, now)
    ensures CountSince(h, since) <= CountSince(r, since)
  {
    CountPush(h, now, since);
  }

  /** A key that was given an entry had nothing in its bucket that still counts. */
  lemma NewEntryCovers(c: Settings, ready: State, overflow: seq<Bucket>, keys: set<Key>, p: Plan, key: Key, now: Instant, since: Instant)
    requires c.Valid() && |overflow| == c.buckets && Live(c.window, now, since)
    requires PlanFacts(c, ready.entries, overflow, keys, p, now) && p.overflow == ready.overflow
    requires key in p.added
    ensures CountSince(Contents(ready.overflow[c.bucketOf(key)]), since) == 0
  {
    PlanNewKeyBucket(c, overflow, p, key, now);
    CountPruned(c.window, Contents(ready.overflow[c.bucketOf(key)]), now, since);
  }

  lemma PartlyRecordedCovers(c: Settings, ready: State, overflow: seq<Bucket>, keys: set<Key>, p: Plan, found: State, key: Key, now: Instant)
    requires c.Valid() && |overflow| == c.buckets
    requires PlanFacts(c, ready.entries, overflow, keys, p, now) && p.overflow == ready.overflow
    requires PartlyRecorded(ready, p, found, now)
    ensures Covers(c, ready, found, key, now)
  {
    forall since | Live(c.window, now, since)
      ensures CountSince(Guarding(c, ready, key), since) <= CountSince(Guarding(c, found, key), since)
    {
      if key in found.entries && key !in ready.entries {
        NewEntryCovers(c, ready, overflow, keys, p, key, now, since);
      } else {
        PushedCounts(Guarding(c, ready, key), Guarding(c, found, key), now, since);
      }
    }
  }

  lemma PartlyRecordedSize(c: Settings, ready: State, p: Plan, found: State, now: Instant)
    requires PartlyRecorded(ready, p, found, now)
    requires SlotsRespected(c, ready.entries, p) && |ready.entries| <= c.capacity
    ensures |found.entries| <= c.capacity
  {
    SubsetSize(found.entries.Keys, ready.entries.Keys + p.added);
    assert |ready.entries.Keys + p.added| <= |ready.entries.Keys| + |p.added|;
  }

  lemma PartlyRecordedTidy(ready: State, p: Plan, found: State, now: Instant)
    requires PartlyRecorded(ready, p, found, now) && Tidy(ready, now)
    ensures Tidy(found, now)
  {
    forall k | k in found.entries ensures InOrder(found.entries[k], now) {
      PushInOrder(if k in ready.entries then ready.entries[k] else [], now);
    }
    forall i | 0 <= i < |found.overflow| ensures InOrder(Contents(found.overflow[i]), now) {
      PushInOrder(Contents(ready.overflow[i]), now);
    }
  }

  lemma TidyLater(st: State, now: Instant, later: Instant)
    requires Tidy(st, now) && now <= later
    ensures Tidy(st, later)
  {
  }

  /** A guard that covers a guarding one guards as well, then and later. */
  lemma CoveredGuards(c: Settings, h: History, st: State, found: State, key: Key, now: Instant, later: Instant)
    requires c.Valid() && |st.overflow| == |found.overflow| == c.buckets && now <= later
    requires Guarded(c, h, Guarding(c, st, key), now) && Covers(c, st, found, key, now)
    ensures Guarded(c, h, Guarding(c, found, key), later)
  {
    forall since | Live(c.window, later, since)
      ensures CountSince(h, since) <= CountSince(Guarding(c, found, key), since)
    {
      assert Live(c.window, now, since);
    }
  }

  /** A state a later recovery can rely on. */
  ghost predicate Reliable(c: Settings, found: State, log: Log, later: Instant)
    requires c.Valid()
  {
    !Damaged(c, found) && Plausible(c, log, Poisoned(found, later))
  }

  lemma PrunedIsReliable(c: Settings, st: State, log: Log, found: State, now: Instant, later: Instant)
    requires Invariant(c, st, log, now) && now <= later && OnlyPruned(c, st, found, now)
    ensures Reliable(c, found, log, later)
  {
    PrunedKeepsShape(c, st, found, now);
    TidyLater(found, now, later);
    forall k ensures Guarded(c, Logged(log, k), Guarding(c, found, k), later) {
      PrunedCovers(c, st, found, k, now);
      CoveredGuards(c, Logged(log, k), st, found, k, now, later);
    }
  }

  lemma RecordingIsReliable(c: Settings, ready: State, log: Log, overflow: seq<Bucket>, keys: set<Key>, p: Plan, found: State, now: Instant, later: Instant)
    requires Invariant(c, ready, log, now) && now <= later && |overflow| == c.buckets
    requires PlanFacts(c, ready.entries, overflow, keys, p, now) && p.overflow == ready.overflow
    requires PartlyRecorded(ready, p, found, now)
    ensures Reliable(c, found, log, later)
  {
    PartlyRecordedSize(c, ready, p, found, now);
    PartlyRecordedTidy(ready, p, found, now);
    TidyLater(found, now, later);
    forall k ensures Guarded(c, Logged(log, k), Guarding(c, found, k), later) {
      PartlyRecordedCovers(c, ready, overflow, keys, p, found, k, now);
      CoveredGuards(c, Logged(log, k), ready, found, k, now, later);
    }
  }

  /** Wherever a call panics, pruning or recording, what it leaves behind is reliable. */
  lemma InterruptedIsReliable(c: Settings, st: State, log: Log, keys: seq<Key>, found: State, now: Instant, later: Instant)
    requires Invariant(c, st, log, now) && now <= later && Interrupted(c, st, keys, found, now)
    ensures Reliable(c, found, log, later)
  {
    if OnlyPruned(c, st, found, now) {
      PrunedIsReliable(c, st, log, found, now, later);
    } else {
      PreparedOnlyPrunes(c, st, keys, now);
      var prepared := Prepared(c, st, keys, now);
      PrunedInvariant(c, st, prepared.0, log, now);
      RecordingIsReliable(c, prepared.0, log, PeriodicCleanup(c, st, now).overflow, KeySet(keys), prepared.1, found, now, later);
    }
  }

  lemma RecoveringHistoryGuards(c: Settings, h: History, guard: History, r: History, now: Instant)
    requires InOrder(guard, now) && Guarded(c, h, guard, now) && RecoveringHistory(c, guard, r, now)
    requires forall since :: Live(c.window, now, since) ==> CountSince(h, since) <= c.max
    ensures Guarded(c, h, r, now)
  {
    var pruned := Prune(c.window, guard, now);
    PruneKeepsOrder(c, guard, now);
    forall since | Live(c.window, now, since) ensures CountSince(h, since) <= CountSince(pruned, since) {
      CountPruned(c.window, guard, now, since);
    }
    TruncatedGuard(c, h, pruned, now);
  }

  lemma RecoveringTidy(c: Settings, found: State, m: State, now: Instant)
    requires Recovering(c, found, m, now) && Tidy(found, now)
    ensures Tidy(m, now)
  {
    forall k | k in m.entries ensures InOrder(m.entries[k], now) {
      PruneKeepsOrder(c, found.entries[k], now);
      NewestInOrder(c, Prune(c.window, found.entries[k], now), now);
    }
    forall i | 0 <= i < |m.overflow| ensures InOrder(Contents(m.overflow[i]), now) {
      PruneKeepsOrder(c, Contents(found.overflow[i]), now);
      NewestInOrder(c, Prune(c.window, Contents(found.overflow[i]), now), now);
    }
  }

  lemma RecoveringGuards(c: Settings, st: State, log: Log, found: State, m: State, k: Key, now: Instant)
    requires Invariant(c, st, log, now) && |found.overflow| == c.buckets && Tidy(found, now)
    requires Guarded(c, Logged(log, k), Guarding(c, found, k), now) && Recovering(c, found, m, now)
    ensures Guarded(c, Logged(log, k), Guarding(c, m, k), now)
  {
    forall since | Live(c.window, now, since) ensures CountSince(Logged(log, k), since) <= c.max {
      LoggedAtMostMax(c, st, log, k, now, since);
    }
    if k in found.entries && k !in m.entries {
      forall since | Live(c.window, now, since)
        ensures CountSince(Logged(log, k), since) <= CountSince(Guarding(c, m, k), since)
      {
        CountPruned(c.window, found.entries[k], now, since);
      }
    } else {
      RecoveringHistoryGuards(c, Logged(log, k), Guarding(c, found, k), Guarding(c, m, k), now);
    }
  }

  /** A recovery that panics in turn leaves a reliable state as well. */
  lemma RecoveringIsReliable(c: Settings, st: State, log: Log, found: State, m: State, now: Instant, later: Instant)
    requires Invariant(c, st, log, now) && now <= later
    requires !Damaged(c, found) && Tidy(found, now) && GuardsLog(c, found, log, now)
    requires Recovering(c, found, m, now)
    ensures Reliable(c, m, log, later)
  {
    SubsetSize(m.entries.Keys, found.entries.Keys);
    RecoveringTidy(c, found, m, now);
    TidyLater(m, now, later);
    forall k ensures Guarded(c, Logged(log, k), Guarding(c, m, k), later) {
      assert Guarded(c, Logged(log, k), Guarding(c, found, k), now);
      RecoveringGuards(c, st, log, found, m, k, now);
      CoveredGuards(c, Logged(log, k), m, m, k, now, later);
    }
  }

  /** The map has been emptied and the buckets, of which there are the right number, not yet refilled. */
  predicate Emptied(c: Settings, found: State, m: State) {
    Damaged(c, found) && |found.overflow| == c.buckets && m == found.(entries := map[])
  }

  /**
   Wherever locking a poisoned limiter panics in turn, what it leaves behind shows its
   damage or is reliable, except between the two stores that answer a full map.
   */
  lemma LockMomentIsReliable(c: Settings, st: State, log: Log, found: State, m: State, now: Instant, later: Instant)
    requires Invariant(c, st, log, now) && now <= later
    requires Plausible(c, log, Poisoned(found, now)) && LockMoment(c, found, m, now) && !Emptied(c, found, m)
    ensures Damaged(c, m) || Reliable(c, m, log, later)
  {
    if !Damaged(c, found) {
      RecoveringIsReliable(c, st, log, found, m, now, later);
    } else if m == Recover(c, found, now) {
      DamagedRecovery(c, st, log, found, now);
      PrunedIsReliable(c, m, log, m, now, later);
    }
  }

  /** In between them it is not: an attempt that still counts is forgotten where its bucket does not hold it. */
  lemma EmptiedForgets(c: Settings, log: Log, found: State, m: State, k: Key, now: Instant, since: Instant)
    requires c.Valid() && Emptied(c, found, m) && Live(c.window, now, since)
    requires CountSince(Contents(found.overflow[c.bucketOf(k)]), since) < CountSince(Logged(log, k), since)
    ensures !Damaged(c, m) && !Reliable(c, m, log, now)
  {
    assert !Guarded(c, Logged(log, k), Guarding(c, m, k), now);
  }
}
