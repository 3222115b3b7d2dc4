/**
 Runs of the login limiter in which calls and recoveries may panic anywhere.

 Nothing is assumed about what a panic leaves behind.  A call that stops leaves one of the
 states it passes through, a recovery that stops leaves one of its own, and memory may be
 damaged at any time in a way recovery can see.  The one place at which a recovery is taken
 not to stop lies between the two stores that answer a full map.
 */
module LoginLimiterPanics {
  import opened Common
  import opened AttemptHistories
  import opened LoginLimiting
  import opened LoginLimiterSafety
  import opened LoginLimiterRuns

  /** The limiter behind its lock, the log of admissions, and the last state a finished call left. */
  datatype System = System(state: State, poisoned: bool, log: Log, finished: State)

  datatype Happening =
    | Asked(keys: seq<Key>, now: Instant)
    | Cleared(key: Key, now: Instant)
    | Stopped(keys: seq<Key>, left: State, now: Instant)
    | Corrupted(left: State, now: Instant)
    | Restored(now: Instant)
    | RestoreStopped(left: State, now: Instant)

  function Settled(st: State, log: Log): System { System(st, false, log, st) }

  /** A call that finds the lock poisoned restores the state first; every other call finds it sound. */
  ghost predicate Next(c: Settings, s: System, h: Happening, t: System)
    requires c.Valid()
  {
    match h
    case Asked(keys, now) =>
      && !s.poisoned && |s.state.overflow| == c.buckets
      && t == Settled(Attempt(c, s.state, keys, now).state,
                      NextLog(c, s.state, s.log, Attempted(keys, now)))
    case Cleared(key, now) =>
      !s.poisoned && t == Settled(Succeed(s.state, key), s.log - {key})
    case Stopped(keys, left, now) =>
      && !s.poisoned && |s.state.overflow| == c.buckets && Interrupted(c, s.state, keys, left, now)
      && t == s.(state := left, poisoned := true)
    case Corrupted(left, now) =>
      Damaged(c, left) && t == s.(state := left, poisoned := true)
    case Restored(now) =>
      s.poisoned && t == Settled(Recover(c, s.state, now), s.log)
    case RestoreStopped(left, now) =>
      && s.poisoned && LockMoment(c, s.state, left, now) && !Emptied(c, s.state, left)
      && t == s.(state := left)
  }

  /** States and happenings in turn, at instants from `from` on that never decrease. */
  ghost predicate IsHistory(c: Settings, states: seq<System>, happenings: seq<Happening>, from: Instant)
    requires c.Valid()
  {
    && |states| == |happenings| + 1
    && forall i :: 0 <= i < |happenings| ==> Follows(c, states, happenings, from, i)
  }

  function Clock(happenings: seq<Happening>, from: Instant, i: nat): Instant
    requires i <= |happenings|
  {
    if i == 0 then from else happenings[i - 1].now
  }

  ghost predicate Follows(c: Settings, states: seq<System>, happenings: seq<Happening>, from: Instant, i: nat)
    requires c.Valid() && |states| == |happenings| + 1 && i < |happenings|
  {
    Clock(happenings, from, i) <= happenings[i].now && Next(c, states[i], happenings[i], states[i + 1])
  }

  // ----- The budget over every history -----

  /** A sound limiter guards its log; a poisoned one shows its damage or still guards it. */
  ghost predicate Safe(c: Settings, s: System, now: Instant) {
    && Invariant(c, s.finished, s.log, now)
    && (!s.poisoned ==> s.state == s.finished)
    && (s.poisoned ==> Damaged(c, s.state) || Reliable(c, s.state, s.log, now))
  }

  lemma ReliableLater(c: Settings, st: State, log: Log, now: Instant, later: Instant)
    requires c.Valid() && Reliable(c, st, log, now) && now <= later
    ensures Reliable(c, st, log, later)
  {
    TidyLater(st, now, later);
    forall k ensures Guarded(c, Logged(log, k), Guarding(c, st, k), later) {
      assert Guarded(c, Logged(log, k), Guarding(c, st, k), now);
      CoveredGuards(c, Logged(log, k), st, st, k, now, later);
    }
  }

  lemma SafeLater(c: Settings, s: System, now: Instant, later: Instant)
    requires Safe(c, s, now) && now <= later
    ensures Safe(c, s, later)
  {
    LaterInvariant(c, s.finished, s.log, now, later);
    if s.poisoned && !Damaged(c, s.state) {
      ReliableLater(c, s.state, s.log, now, later);
    }
  }

  lemma StepSafe(c: Settings, s: System, h: Happening, t: System)
    requires Safe(c, s, h.now) && Next(c, s, h, t)
    ensures Safe(c, t, h.now)
  {
    match h
    case Asked(keys, now) => AttemptInvariant(c, s.state, s.log, keys, now);
    case Cleared(key, now) => SuccessInvariant(c, s.state, s.log, key, now);
    case Stopped(keys, left, now) => InterruptedIsReliable(c, s.state, s.log, keys, left, now, now);
    case Corrupted(_, _) =>
    case Restored(now) =>
      if Damaged(c, s.state) {
        DamagedRecovery(c, s.finished, s.log, s.state, now);
      } else {
        SoundRecovery(c, s.finished, s.log, s.state, now);
      }
    case RestoreStopped(left, now) =>
      LockMomentIsReliable(c, s.finished, s.log, s.state, left, now, now);
  }

  lemma {:induction false} HistorySafe(c: Settings, states: seq<System>, happenings: seq<Happening>, from: Instant, i: nat)
    requires c.Valid() && IsHistory(c, states, happenings, from) && Safe(c, states[0], from) && i < |states|
    ensures Safe(c, states[i], Clock(happenings, from, i))
    decreases i
  {
    if i > 0 {
      HistorySafe(c, states, happenings, from, i - 1);
      assert Follows(c, states, happenings, from, i - 1);
      SafeLater(c, states[i - 1], Clock(happenings, from, i - 1), happenings[i - 1].now);
      StepSafe(c, states[i - 1], happenings[i - 1], states[i]);
    }
  }

  /**
   The budget holds over every history that starts with a new limiter, wherever calls and
   recoveries stop and whatever is damaged in between: in any interval shorter than the
   window a key is admitted at most `max` times since its last success.  What a finished
   call leaves is bounded.
   */
  lemma PanickingWindowBudget(c: Settings, states: seq<System>, happenings: seq<Happening>, i: nat, key: Key, a: Instant, b: Instant)
    requires c.Valid() && IsHistory(c, states, happenings, 0) && states[0] == Settled(Initial(c), map[])
    requires i < |states| && b < a + c.window
    ensures CountBetween(Logged(states[i].log, key), a, b) <= c.max
    ensures !states[i].poisoned ==> Bounded(c, states[i].state)
  {
    InitialInvariant(c, 0);
    HistorySafe(c, states, happenings, 0, i);
    assert WithinBudget(c, Logged(states[i].log, key), Clock(happenings, 0, i));
    IntervalBound(Logged(states[i].log, key), a, b, c.max, c.window);
  }

  // ----- Fail closed after structural damage -----

  /** Nothing but buckets, each with at least `max` attempts since `t`. */
  ghost predicate Sealed(c: Settings, st: State, t: Instant) {
    && st.entries == map[]
    && |st.overflow| == c.buckets
    && forall i :: 0 <= i < c.buckets ==> FullSince(c, Contents(st.overflow[i]), t)
  }

  predicate FullSince(c: Settings, h: History, t: Instant) { CountSince(h, t) >= c.max }

  lemma PrunedStaysFull(c: Settings, h: History, r: History, t: Instant, now: Instant)
    requires FullSince(c, h, t) && PrunedHistory(c, h, r, now) && t <= now < t + c.window
    ensures FullSince(c, r, t)
  {
    CountPruned(c.window, h, now, t);
  }

  lemma PrunedStaysSealed(c: Settings, st: State, r: State, t: Instant, now: Instant)
    requires Sealed(c, st, t) && OnlyPruned(c, st, r, now) && t <= now < t + c.window
    ensures Sealed(c, r, t)
  {
    forall i | 0 <= i < c.buckets ensures FullSince(c, Contents(r.overflow[i]), t) {
      PrunedStaysFull(c, Contents(st.overflow[i]), Contents(r.overflow[i]), t, now);
    }
  }

  /** While the window lasts, a full bucket is there and stays full. */
  lemma FullBucketStays(c: Settings, b: Bucket, t: Instant, now: Instant)
    requires c.max > 0 && FullSince(c, Contents(b), t) && t <= now < t + c.window
    ensures b.Some? && BucketFull(c, b) && PruneBucket(c, b, now).Some?
  {
    PrunedStaysFull(c, Contents(b), Prune(c.window, Contents(b), now), t, now);
  }

  /** Planning on a sealed state gives no key an entry and charges a full bucket. */
  lemma SealedPlan(c: Settings, ready: State, overflow: seq<Bucket>, keys: seq<Key>, p: Plan, t: Instant, now: Instant)
    requires c.Valid() && c.max > 0 && |overflow| == c.buckets && t <= now < t + c.window
    requires Sealed(c, ready, t) && Sealed(c, State(map[], overflow, 0), t)
    requires PlanFacts(c, ready.entries, overflow, KeySet(keys), p, now) && p.overflow == ready.overflow
    ensures p.added == {} && (keys != [] ==> Blocked(c, ready.entries, p))
  {
    forall k ensures k !in p.added {
      FullBucketStays(c, overflow[c.bucketOf(k)], t, now);
    }
    if keys != [] {
      var b := c.bucketOf(keys[0]);
      assert keys[0] in KeySet(keys) && b in p.targets;
      FullBucketStays(c, p.overflow[b], t, now);
    }
  }

  lemma SealedPrepared(c: Settings, st: State, keys: seq<Key>, t: Instant, now: Instant)
    requires c.Valid() && c.max > 0 && Sealed(c, st, t) && t <= now < t + c.window
    ensures
      var prepared := Prepared(c, st, keys, now);
      && Sealed(c, prepared.0, t) && prepared.1.added == {}
      && (keys != [] ==> Blocked(c, prepared.0.entries, prepared.1))
  {
    PreparedOnlyPrunes(c, st, keys, now);
    PeriodicOnlyPrunes(c, st, now);
    var prepared, ticked := Prepared(c, st, keys, now), PeriodicCleanup(c, st, now);
    PrunedStaysSealed(c, st, prepared.0, t, now);
    PrunedStaysSealed(c, st, ticked, t, now);
    SealedPlan(c, prepared.0, ticked.overflow, keys, prepared.1, t, now);
  }

  /** While the window lasts, every non-empty request is refused and the seal stays. */
  lemma SealedRefuses(c: Settings, st: State, keys: seq<Key>, t: Instant, now: Instant)
    requires c.Valid() && Sealed(c, st, t) && t <= now < t + c.window && keys != []
    ensures !Attempt(c, st, keys, now).admitted
    ensures Sealed(c, Attempt(c, st, keys, now).state, t)
  {
    if c.max > 0 {
      SealedPrepared(c, st, keys, t, now);
    }
  }

  /** Recording never opens a sealed state, wherever it stops. */
  lemma PartlyRecordedSealed(c: Settings, ready: State, p: Plan, m: State, t: Instant, now: Instant)
    requires Sealed(c, ready, t) && p.added == {} && PartlyRecorded(ready, p, m, now)
    ensures Sealed(c, m, t)
  {
    assert m.entries.Keys == {};
    forall i | 0 <= i < c.buckets ensures FullSince(c, Contents(m.overflow[i]), t) {
      PushedCounts(Contents(ready.overflow[i]), Contents(m.overflow[i]), now, t);
    }
  }

  lemma RecoveringStaysFull(c: Settings, h: History, r: History, t: Instant, now: Instant)
    requires FullSince(c, h, t) && InOrder(h, now) && RecoveringHistory(c, h, r, now) && t <= now < t + c.window
    ensures FullSince(c, r, t)
  {
    var pruned := Prune(c.window, h, now);
    PrunedStaysFull(c, h, pruned, t, now);
    PruneKeepsOrder(c, h, now);
    if |pruned| > c.max {
      CountKeptNewest(pruned, c.max, t);
    }
  }

  lemma RecoveringSealed(c: Settings, found: State, m: State, t: Instant, now: Instant)
    requires Sealed(c, found, t) && Tidy(found, now) && Recovering(c, found, m, now) && t <= now < t + c.window
    ensures Sealed(c, m, t)
  {
    assert m.entries.Keys == {};
    forall i | 0 <= i < c.buckets ensures FullSince(c, Contents(m.overflow[i]), t) {
      RecoveringStaysFull(c, Contents(found.overflow[i]), Contents(m.overflow[i]), t, now);
    }
  }

  /** Recovery of a sound state ends in one of the states it passes through. */
  lemma RecoverIsRecovering(c: Settings, found: State, now: Instant)
    requires !Damaged(c, found)
    ensures Recovering(c, found, Recover(c, found, now), now)
  {
  }

  lemma RecoverySeals(c: Settings, found: State, t: Instant, now: Instant)
    requires c.Valid() && Damaged(c, found) && t <= now
    ensures Sealed(c, Recover(c, found, now), t) && Tidy(Recover(c, found, now), now)
  {
    CountSaturated(c.max, now, t);
  }

  /** The limiter is sealed, or poisoned with damage that recovery will answer by sealing it. */
  ghost predicate Shut(c: Settings, s: System, t: Instant, now: Instant) {
    (s.poisoned && Damaged(c, s.state)) || (Sealed(c, s.state, t) && Tidy(s.state, now))
  }

  lemma StopShut(c: Settings, s: System, h: Happening, next: System, t: Instant)
    requires c.Valid() && c.max > 0 && h.Stopped? && Next(c, s, h, next)
    requires Sealed(c, s.state, t) && Tidy(s.state, h.now) && t <= h.now < t + c.window
    ensures Sealed(c, h.left, t) && Tidy(h.left, h.now)
  {
    if OnlyPruned(c, s.state, h.left, h.now) {
      PrunedStaysSealed(c, s.state, h.left, t, h.now);
      PrunedKeepsShape(c, s.state, h.left, h.now);
    } else {
      SealedPrepared(c, s.state, h.keys, t, h.now);
      PreparedOnlyPrunes(c, s.state, h.keys, h.now);
      var prepared := Prepared(c, s.state, h.keys, h.now);
      PrunedKeepsShape(c, s.state, prepared.0, h.now);
      PartlyRecordedSealed(c, prepared.0, prepared.1, h.left, t, h.now);
      PartlyRecordedTidy(prepared.0, prepared.1, h.left, h.now);
    }
  }

  lemma AskShut(c: Settings, st: State, keys: seq<Key>, t: Instant, now: Instant)
    requires c.Valid() && Sealed(c, st, t) && Tidy(st, now) && t <= now < t + c.window
    ensures Sealed(c, Attempt(c, st, keys, now).state, t) && Tidy(Attempt(c, st, keys, now).state, now)
  {
    if keys != [] {
      SealedRefuses(c, st, keys, t, now);
      RefusedRecordsNothing(c, st, keys, now);
      PrunedKeepsShape(c, st, Attempt(c, st, keys, now).state, now);
    }
  }

  lemma RestoreShut(c: Settings, found: State, m: State, t: Instant, now: Instant)
    requires c.Valid() && t <= now < t + c.window
    requires Damaged(c, found) || (Sealed(c, found, t) && Tidy(found, now))
    requires LockMoment(c, found, m, now) && !Emptied(c, found, m)
    ensures Damaged(c, m) || (Sealed(c, m, t) && Tidy(m, now))
  {
    if Damaged(c, found) {
      RecoverySeals(c, found, t, now);
    } else {
      RecoveringSealed(c, found, m, t, now);
      RecoveringTidy(c, found, m, now);
    }
  }

  lemma RestoredShut(c: Settings, found: State, t: Instant, now: Instant)
    requires c.Valid() && t <= now < t + c.window
    requires Damaged(c, found) || (Sealed(c, found, t) && Tidy(found, now))
    ensures Sealed(c, Recover(c, found, now), t) && Tidy(Recover(c, found, now), now)
  {
    if Damaged(c, found) {
      RecoverySeals(c, found, t, now);
    } else {
      RecoverIsRecovering(c, found, now);
      RecoveringSealed(c, found, Recover(c, found, now), t, now);
      RecoveringTidy(c, found, Recover(c, found, now), now);
    }
  }

  lemma StepShut(c: Settings, s: System, h: Happening, next: System, t: Instant)
    requires c.Valid() && c.max > 0 && Next(c, s, h, next)
    requires Shut(c, s, t, h.now) && t <= h.now < t + c.window
    ensures Shut(c, next, t, h.now)
  {
    match h
    case Asked(keys, now) => AskShut(c, s.state, keys, t, now);
    case Cleared(key, now) => assert next.state.entries == map[];
    case Stopped(_, _, _) => StopShut(c, s, h, next, t);
    case Corrupted(_, _) =>
    case Restored(now) => RestoredShut(c, s.state, t, now);
    case RestoreStopped(left, now) => RestoreShut(c, s.state, left, t, now);
  }

  lemma {:induction false} ShutThroughout(c: Settings, states: seq<System>, happenings: seq<Happening>, t: Instant, i: nat)
    requires c.Valid() && c.max > 0 && IsHistory(c, states, happenings, t) && Shut(c, states[0], t, t) && i < |states|
    requires forall j :: 0 <= j < |happenings| ==> happenings[j].now < t + c.window
    ensures t <= Clock(happenings, t, i) && Shut(c, states[i], t, Clock(happenings, t, i))
    decreases i
  {
    if i > 0 {
      ShutThroughout(c, states, happenings, t, i - 1);
      assert Follows(c, states, happenings, t, i - 1);
      if !(states[i - 1].poisoned && Damaged(c, states[i - 1].state)) {
        TidyLater(states[i - 1].state, Clock(happenings, t, i - 1), happenings[i - 1].now);
      }
      StepShut(c, states[i - 1], happenings[i - 1], states[i], t);
    }
  }

  /** A limiter that is not poisoned has all its buckets. */
  predicate Whole(c: Settings, s: System) { !s.poisoned ==> |s.state.overflow| == c.buckets }

  lemma {:induction false} WholeThroughout(c: Settings, states: seq<System>, happenings: seq<Happening>, from: Instant, i: nat)
    requires c.Valid() && IsHistory(c, states, happenings, from) && Whole(c, states[0]) && i < |states|
    ensures Whole(c, states[i])
    decreases i
  {
    if i > 0 {
      WholeThroughout(c, states, happenings, from, i - 1);
      assert Follows(c, states, happenings, from, i - 1);
    }
  }

  /**
   After recovery from structural damage at `t` the limiter fails closed: until a full
   window has passed, whatever requests, successes, panics, further damage and recoveries
   come in between, no key is admitted, not even by a call that first has to recover.
   */
  lemma DamageFailsClosed(c: Settings, found: State, states: seq<System>, happenings: seq<Happening>, i: nat, t: Instant, keys: seq<Key>, now: Instant)
    requires c.Valid() && Damaged(c, found) && IsHistory(c, states, happenings, t)
    requires states[0].state == Recover(c, found, t) && !states[0].poisoned && i < |states|
    requires forall j :: 0 <= j < |happenings| ==> happenings[j].now < t + c.window
    requires Clock(happenings, t, i) <= now < t + c.window && keys != []
    ensures
      var st := if states[i].poisoned then Recover(c, states[i].state, now) else states[i].state;
      |st.overflow| == c.buckets && !Attempt(c, st, keys, now).admitted
  {
    WholeThroughout(c, states, happenings, t, i);
    if c.max > 0 {
      RecoverySeals(c, found, t, t);
      ShutThroughout(c, states, happenings, t, i);
      var s := states[i];
      if !(s.poisoned && Damaged(c, s.state)) {
        TidyLater(s.state, Clock(happenings, t, i), now);
      }
      if s.poisoned {
        RestoredShut(c, s.state, t, now);
        SealedRefuses(c, Recover(c, s.state, now), keys, t, now);
      } else {
        SealedRefuses(c, s.state, keys, t, now);
      }
    }
  }
}
