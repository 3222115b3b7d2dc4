/**
 What one call of the login limiter does: it only prunes up to the decision, a refused
 call records nothing, and an admitted one charges every requested key exactly once.
 */
module LoginLimiterSafety {
  import opened Common
  import opened AttemptHistories
  import opened LoginLimiting

  // ----- Stores -----

  /** The history that guards `key`: its own entry if it has one, else its bucket. */
  function Guarding(c: Settings, st: State, key: Key): History
    requires c.Valid() && |st.overflow| == c.buckets
  {
    if key in st.entries then st.entries[key] else Contents(st.overflow[c.bucketOf(key)])
  }

  predicate Bounded(c: Settings, st: State) {
    && |st.overflow| == c.buckets
    && |st.entries| <= c.capacity
    && (forall k :: k in st.entries ==> |st.entries[k]| <= c.max)
    && (forall i :: 0 <= i < |st.overflow| ==> |Contents(st.overflow[i])| <= c.max)
  }

  /** Attempts are in order and lie in the past. */
  predicate InOrder(h: History, now: Instant) { Ordered(h) && Before(h, now) }

  predicate Tidy(st: State, now: Instant) {
    && (forall k :: k in st.entries ==> InOrder(st.entries[k], now))
    && (forall i :: 0 <= i < |st.overflow| ==> InOrder(Contents(st.overflow[i]), now))
  }

  predicate PrunedHistory(c: Settings, h: History, r: History, now: Instant) {
    r == h || r == Prune(c.window, h, now)
  }

  /** `r` differs from `st` only in attempts that have left the window. */
  ghost predicate OnlyPruned(c: Settings, st: State, r: State, now: Instant) {
    && |r.overflow| == |st.overflow|
    && r.entries.Keys <= st.entries.Keys
    && (forall k :: k in r.entries ==> PrunedHistory(c, st.entries[k], r.entries[k], now))
    && (forall k :: k in st.entries && k !in r.entries ==> Prune(c.window, st.entries[k], now) == [])
    && (forall i :: 0 <= i < |st.overflow| ==> PrunedHistory(c, Contents(st.overflow[i]), Contents(r.overflow[i]), now))
  }

  /** Everything a live instant can still count for `key` is also guarded in `r`. */
  ghost predicate Covers(c: Settings, st: State, r: State, key: Key, now: Instant)
    requires c.Valid() && |st.overflow| == c.buckets && |r.overflow| == c.buckets
  {
    forall since :: Live(c.window, now, since) ==>
      CountSince(Guarding(c, st, key), since) <= CountSince(Guarding(c, r, key), since)
  }

  lemma PruneOfPruned(c: Settings, h: History, r: History, s: History, now: Instant)
    requires PrunedHistory(c, h, r, now) && PrunedHistory(c, r, s, now)
    ensures PrunedHistory(c, h, s, now)
  {
    PruneTwice(c.window, h, now);
  }

  lemma OnlyPrunedTrans(c: Settings, a: State, b: State, d: State, now: Instant)
    requires OnlyPruned(c, a, b, now) && OnlyPruned(c, b, d, now)
    ensures OnlyPruned(c, a, d, now)
  {
    forall k | k in d.entries
      ensures PrunedHistory(c, a.entries[k], d.entries[k], now)
    {
      PruneOfPruned(c, a.entries[k], b.entries[k], d.entries[k], now);
    }
    forall k | k in a.entries && k !in d.entries
      ensures Prune(c.window, a.entries[k], now) == []
    {
      if k in b.entries {
        PruneTwice(c.window, a.entries[k], now);
      }
    }
    forall i | 0 <= i < |a.overflow|
      ensures PrunedHistory(c, Contents(a.overflow[i]), Contents(d.overflow[i]), now)
    {
      PruneOfPruned(c, Contents(a.overflow[i]), Contents(b.overflow[i]), Contents(d.overflow[i]), now);
    }
  }

  lemma PrunedCovers(c: Settings, st: State, r: State, key: Key, now: Instant)
    requires c.Valid() && |st.overflow| == c.buckets
    requires OnlyPruned(c, st, r, now)
    ensures Covers(c, st, r, key, now)
  {
    forall since | Live(c.window, now, since)
      ensures CountSince(Guarding(c, st, key), since) <= CountSince(Guarding(c, r, key), since)
    {
      CountPruned(c.window, Guarding(c, st, key), now, since);
    }
  }

  lemma PrunedKeepsShape(c: Settings, st: State, r: State, now: Instant)
    requires c.Valid() && OnlyPruned(c, st, r, now)
    ensures Bounded(c, st) ==> Bounded(c, r)
    ensures Tidy(st, now) ==> Tidy(r, now)
  {
    SubsetSize(r.entries.Keys, st.entries.Keys);
    if Tidy(st, now) {
      forall k | k in r.entries
        ensures InOrder(r.entries[k], now)
      {
        PruneKeepsOrder(c, st.entries[k], now);
      }
      forall i | 0 <= i < |r.overflow|
        ensures InOrder(Contents(r.overflow[i]), now)
      {
        PruneKeepsOrder(c, Contents(st.overflow[i]), now);
      }
    }
  }

  lemma PruneKeepsOrder(c: Settings, h: History, now: Instant)
    requires InOrder(h, now)
    ensures InOrder(Prune(c.window, h, now), now)
  {
    PruneOrdered(c.window, h, now);
    var r := Prune(c.window, h, now);
    forall i | 0 <= i < |r|
      ensures r[i] <= now
    {
      PruneMembers(c.window, h, now, r[i]);
    }
  }

  lemma {:induction false} SubsetSize<T>(a: set<T>, b: set<T>)
    requires a <= b
    ensures |a| <= |b|
    decreases |a|
  {
    if a != {} {
      var x :| x in a;
      SubsetSize(a - {x}, b - {x});
    }
  }

  // ----- Preparing a decision only prunes -----

  lemma CleanupOnlyPrunes(c: Settings, st: State, now: Instant)
    ensures OnlyPruned(c, st, Cleanup(c, st, now), now)
  {
  }

  lemma PeriodicOnlyPrunes(c: Settings, st: State, now: Instant)
    ensures OnlyPruned(c, st, PeriodicCleanup(c, st, now), now)
  {
    var ticked := st.(operations := (st.operations + 1) % U64_MODULUS);
    CleanupOnlyPrunes(c, ticked, now);
  }

  /** Planning changed buckets only by pruning, and pruned every bucket it charges. */
  predicate BucketsPruned(c: Settings, overflow: seq<Bucket>, p: Plan, now: Instant) {
    && |overflow| == |p.overflow| == c.buckets
    && (forall i :: 0 <= i < c.buckets ==> p.overflow[i] == overflow[i] || p.overflow[i] == PruneBucket(c, overflow[i], now))
    && (forall b :: b in p.targets ==> b < c.buckets && p.overflow[b] == PruneBucket(c, overflow[b], now))
  }

  /** Every key is charged: in its entry, in a fresh entry, or in its bucket. */
  ghost predicate KeysPlaced(c: Settings, entries: map<Key, History>, overflow: seq<Bucket>, keys: set<Key>, p: Plan, now: Instant)
    requires c.Valid() && |overflow| == c.buckets
  {
    && p.existing == keys * entries.Keys
    && p.added <= keys - entries.Keys
    && (forall k :: k in keys && k !in entries && k !in p.added ==> c.bucketOf(k) in p.targets)
    && (forall k :: k in p.added ==> PruneBucket(c, overflow[c.bucketOf(k)], now) == None)
  }

  /** A charged bucket belongs to some requested key that has no entry. */
  ghost predicate TargetsJustified(c: Settings, entries: map<Key, History>, keys: set<Key>, p: Plan) {
    forall b :: b in p.targets ==> exists k :: k in keys && k !in entries && k !in p.added && c.bucketOf(k) == b
  }

  /** Fresh entries fit into the free capacity. */
  ghost predicate SlotsRespected(c: Settings, entries: map<Key, History>, p: Plan) {
    |p.added| + p.slots <= if |entries| > c.capacity then 0 else c.capacity - |entries|
  }

  /** What planning decided about the keys, whatever their order. */
  ghost predicate PlanFacts(c: Settings, entries: map<Key, History>, overflow: seq<Bucket>, keys: set<Key>, p: Plan, now: Instant)
    requires c.Valid() && |overflow| == c.buckets
  {
    && BucketsPruned(c, overflow, p, now)
    && KeysPlaced(c, entries, overflow, keys, p, now)
    && TargetsJustified(c, entries, keys, p)
    && SlotsRespected(c, entries, p)
  }

  lemma PruneBucketTwice(c: Settings, b: Bucket, now: Instant)
    ensures PruneBucket(c, PruneBucket(c, b, now), now) == PruneBucket(c, b, now)
  {
    PruneTwice(c.window, Contents(b), now);
  }

  lemma PlanKeyPrunes(c: Settings, entries: map<Key, History>, overflow: seq<Bucket>, p: Plan, key: Key, now: Instant)
    requires c.Valid() && BucketsPruned(c, overflow, p, now)
    ensures BucketsPruned(c, overflow, PlanKey(c, entries, p, key, now), now)
  {
    PruneBucketTwice(c, overflow[c.bucketOf(key)], now);
  }

  lemma PlanKeyPlaces(c: Settings, entries: map<Key, History>, overflow: seq<Bucket>, keys: set<Key>, p: Plan, key: Key, now: Instant)
    requires c.Valid() && |overflow| == c.buckets
    requires BucketsPruned(c, overflow, p, now) && KeysPlaced(c, entries, overflow, keys, p, now)
    ensures KeysPlaced(c, entries, overflow, keys + {key}, PlanKey(c, entries, p, key, now), now)
  {
    var r := PlanKey(c, entries, p, key, now);
    var b := c.bucketOf(key);
    PruneBucketTwice(c, overflow[b], now);
    assert key !in entries ==> PruneBucket(c, p.overflow[b], now) == PruneBucket(c, overflow[b], now);
    assert r.existing == (keys + {key}) * entries.Keys;
  }

  lemma PlanKeyJustifies(c: Settings, entries: map<Key, History>, keys: set<Key>, p: Plan, key: Key, now: Instant)
    requires c.Valid() && |p.overflow| == c.buckets
    requires TargetsJustified(c, entries, keys, p)
    requires key !in keys && p.added <= keys
    ensures TargetsJustified(c, entries, keys + {key}, PlanKey(c, entries, p, key, now))
  {
    var r := PlanKey(c, entries, p, key, now);
    var all := keys + {key};
    forall t | t in r.targets
      ensures exists k :: k in all && k !in entries && k !in r.added && c.bucketOf(k) == t
    {
      if t in p.targets {
        var k :| k in keys && k !in entries && k !in p.added && c.bucketOf(k) == t;
        assert k in all;
      } else {
        assert key in all;
      }
    }
  }

  lemma PlanKeyRespects(c: Settings, entries: map<Key, History>, p: Plan, key: Key, now: Instant)
    requires c.Valid() && |p.overflow| == c.buckets
    requires SlotsRespected(c, entries, p)
    ensures SlotsRespected(c, entries, PlanKey(c, entries, p, key, now))
  {
  }

  lemma PlanKeyFacts(c: Settings, entries: map<Key, History>, overflow: seq<Bucket>, keys: set<Key>, p: Plan, key: Key, now: Instant)
    requires c.Valid() && |overflow| == c.buckets
    requires PlanFacts(c, entries, overflow, keys, p, now)
    requires key !in keys
    ensures PlanFacts(c, entries, overflow, keys + {key}, PlanKey(c, entries, p, key, now), now)
  {
    PlanKeyPrunes(c, entries, overflow, p, key, now);
    PlanKeyPlaces(c, entries, overflow, keys, p, key, now);
    PlanKeyJustifies(c, entries, keys, p, key, now);
    PlanKeyRespects(c, entries, p, key, now);
  }

  lemma {:induction false} PlanKeysFacts(c: Settings, entries: map<Key, History>, overflow: seq<Bucket>, keys: seq<Key>, now: Instant)
    requires c.Valid() && |overflow| == c.buckets
    requires forall i, j :: 0 <= i < j < |keys| ==> keys[i] != keys[j]
    ensures PlanFacts(c, entries, overflow, KeySet(keys), PlanKeys(c, entries, overflow, keys, now), now)
    decreases |keys|
  {
    if keys == [] {
      assert KeySet(keys) == {};
    } else {
      var front, last := keys[..|keys| - 1], keys[|keys| - 1];
      assert keys == front + [last];
      PlanKeysFacts(c, entries, overflow, front, now);
      assert KeySet(keys) == KeySet(front) + {last};
      PlanKeyFacts(c, entries, overflow, KeySet(front), PlanKeys(c, entries, overflow, front, now), last, now);
    }
  }

  lemma PruneKeysOnlyPrunes(c: Settings, st: State, keys: set<Key>, overflow: seq<Bucket>, now: Instant)
    requires |overflow| == |st.overflow|
    requires forall i :: 0 <= i < |overflow| ==> overflow[i] == st.overflow[i] || overflow[i] == PruneBucket(c, st.overflow[i], now)
    ensures OnlyPruned(c, st, State(PruneKeys(c, st.entries, keys, now), overflow, st.operations), now)
  {
  }

  /** Up to the decision, a call changes nothing but expired attempts. */
  lemma PreparedOnlyPrunes(c: Settings, st: State, keys: seq<Key>, now: Instant)
    requires c.Valid() && |st.overflow| == c.buckets
    ensures OnlyPruned(c, st, Prepared(c, st, keys, now).0, now)
    ensures PlanFacts(c, Prepared(c, st, keys, now).0.entries, PeriodicCleanup(c, st, now).overflow, KeySet(keys),
                      Prepared(c, st, keys, now).1, now)
  {
    var ticked := PeriodicCleanup(c, st, now);
    var u := Unique(keys);
    var entries := PruneKeys(c, ticked.entries, KeySet(keys), now);
    PeriodicOnlyPrunes(c, st, now);
    PlanKeysFacts(c, entries, ticked.overflow, u, now);
    assert KeySet(u) == KeySet(keys);
    var p := PlanKeys(c, entries, ticked.overflow, u, now);
    PruneKeysOnlyPrunes(c, ticked, KeySet(keys), p.overflow, now);
    OnlyPrunedTrans(c, st, ticked, State(entries, p.overflow, ticked.operations), now);
  }

  // ----- What an admitted call records -----

  /** Entries of `ready` are kept, and charged exactly when requested; new ones hold this attempt. */
  ghost predicate EntriesRecorded(c: Settings, ready: State, r: State, keys: set<Key>, now: Instant)
    requires c.Valid() && |ready.overflow| == c.buckets
  {
    && ready.entries.Keys <= r.entries.Keys
    && (forall k :: k in ready.entries ==>
          r.entries[k] == ready.entries[k] + (if k in keys then [now] else [])
          && (k in keys ==> |ready.entries[k]| < c.max))
    && (forall k :: k in r.entries && k !in ready.entries ==>
          k in keys && r.entries[k] == [now]
          && PruneBucket(c, ready.overflow[c.bucketOf(k)], now) == None)
    && (|ready.entries| <= c.capacity ==> |r.entries| <= c.capacity)
  }

  /** A bucket is charged once, exactly when some requested key has no entry and hashes to it. */
  ghost predicate BucketsRecorded(c: Settings, ready: State, r: State, keys: set<Key>, now: Instant) {
    && |r.overflow| == |ready.overflow| == c.buckets
    && forall i :: 0 <= i < c.buckets ==>
         if exists k :: k in keys && k !in r.entries && c.bucketOf(k) == i then
           |Contents(ready.overflow[i])| < c.max && Contents(r.overflow[i]) == Contents(ready.overflow[i]) + [now]
         else
           r.overflow[i] == ready.overflow[i]
  }

  /** `r` is `ready` with one attempt at `now` charged for each key, and nothing else. */
  ghost predicate Recorded(c: Settings, ready: State, r: State, keys: set<Key>, now: Instant)
    requires c.Valid() && |ready.overflow| == c.buckets
  {
    EntriesRecorded(c, ready, r, keys, now) && BucketsRecorded(c, ready, r, keys, now)
  }

  lemma PushedSize(c: Settings, entries: map<Key, History>, p: Plan, now: Instant)
    requires SlotsRespected(c, entries, p)
    requires p.existing <= entries.Keys && |entries| <= c.capacity
    ensures |PushEntries(entries, p.existing + p.added, now)| <= c.capacity
  {
    var r := PushEntries(entries, p.existing + p.added, now);
    assert r.Keys == entries.Keys + p.added;
    assert |r.Keys| <= |entries.Keys| + |p.added|;
  }

  lemma PlanNewKeyBucket(c: Settings, overflow: seq<Bucket>, p: Plan, k: Key, now: Instant)
    requires c.Valid() && |overflow| == c.buckets && |p.overflow| == c.buckets
    requires PruneBucket(c, overflow[c.bucketOf(k)], now) == None
    requires var b := c.bucketOf(k); p.overflow[b] == overflow[b] || p.overflow[b] == PruneBucket(c, overflow[b], now)
    ensures PruneBucket(c, p.overflow[c.bucketOf(k)], now) == None
  {
    PruneBucketTwice(c, overflow[c.bucketOf(k)], now);
  }

  lemma PushRecordsEntries(c: Settings, ready: State, r: State, overflow: seq<Bucket>, keys: set<Key>, p: Plan, now: Instant)
    requires c.Valid() && |overflow| == c.buckets
    requires PlanFacts(c, ready.entries, overflow, keys, p, now) && !Blocked(c, ready.entries, p)
    requires p.overflow == ready.overflow
    requires r.entries == PushEntries(ready.entries, p.existing + p.added, now)
    ensures EntriesRecorded(c, ready, r, keys, now)
  {
    forall k | k in r.entries && k !in ready.entries
      ensures k in keys && r.entries[k] == [now] && PruneBucket(c, ready.overflow[c.bucketOf(k)], now) == None
    {
      PlanNewKeyBucket(c, overflow, p, k, now);
    }
    forall k | k in ready.entries && k in keys
      ensures |ready.entries[k]| < c.max
    {
      assert !EntryFull(c, ready.entries, k);
    }
    if |ready.entries| <= c.capacity {
      PushedSize(c, ready.entries, p, now);
    }
  }

  lemma PushRecordsBuckets(c: Settings, ready: State, r: State, overflow: seq<Bucket>, keys: set<Key>, p: Plan, now: Instant)
    requires c.Valid() && c.max > 0 && |overflow| == c.buckets
    requires PlanFacts(c, ready.entries, overflow, keys, p, now) && !Blocked(c, ready.entries, p)
    requires p.overflow == ready.overflow
    requires r.entries.Keys == ready.entries.Keys + p.added
    requires r.overflow == PushBuckets(ready.overflow, p.targets, now)
    ensures BucketsRecorded(c, ready, r, keys, now)
  {
    forall i | 0 <= i < c.buckets
      ensures i in p.targets <==> exists k :: k in keys && k !in r.entries && c.bucketOf(k) == i
    {
      if i in p.targets {
        var k :| k in keys && k !in ready.entries && k !in p.added && c.bucketOf(k) == i;
        assert k !in r.entries;
      }
    }
    forall i | i in p.targets
      ensures |Contents(ready.overflow[i])| < c.max
    {
      assert !BucketFull(c, p.overflow[i]);
    }
  }

  lemma PushRecords(c: Settings, ready: State, overflow: seq<Bucket>, keys: set<Key>, p: Plan, now: Instant)
    requires c.Valid() && c.max > 0 && |overflow| == c.buckets
    requires PlanFacts(c, ready.entries, overflow, keys, p, now) && !Blocked(c, ready.entries, p)
    requires p.overflow == ready.overflow
    ensures Recorded(c, ready, Push(ready, p, now), keys, now)
  {
    var r := Push(ready, p, now);
    assert r.entries.Keys == ready.entries.Keys + p.added;
    PushRecordsEntries(c, ready, r, overflow, keys, p, now);
    PushRecordsBuckets(c, ready, r, overflow, keys, p, now);
  }

  /** An admitted call charges every requested key once, and charges nothing else. */
  lemma AdmittedIsRecorded(c: Settings, st: State, keys: seq<Key>, now: Instant)
    requires c.Valid() && |st.overflow| == c.buckets
    requires c.max > 0 && c.window > 0 && keys != []
    requires Attempt(c, st, keys, now).admitted
    ensures OnlyPruned(c, st, Prepared(c, st, keys, now).0, now)
    ensures Recorded(c, Prepared(c, st, keys, now).0, Attempt(c, st, keys, now).state, KeySet(keys), now)
  {
    PreparedOnlyPrunes(c, st, keys, now);
    var prepared := Prepared(c, st, keys, now);
    PushRecords(c, prepared.0, PeriodicCleanup(c, st, now).overflow, KeySet(keys), prepared.1, now);
  }

  /** A refused call leaves every attempt that still counts exactly where it was. */
  lemma RefusedRecordsNothing(c: Settings, st: State, keys: seq<Key>, now: Instant)
    requires c.Valid() && |st.overflow| == c.buckets
    requires !Attempt(c, st, keys, now).admitted
    ensures OnlyPruned(c, st, Attempt(c, st, keys, now).state, now)
  {
    if c.max > 0 && c.window > 0 {
      PreparedOnlyPrunes(c, st, keys, now);
    }
  }

  // ----- States in the middle of a call -----

  /** The history as it was, or with this attempt pushed. */
  predicate PushedOrNot(h: History, r: History, now: Instant) { r == h || r == h + [now] }

  /** In the middle of recording: any part of the planned entries and buckets may be charged already. */
  ghost predicate PartlyRecorded(ready: State, p: Plan, m: State, now: Instant) {
    && ready.entries.Keys <= m.entries.Keys <= ready.entries.Keys + p.added
    && (forall k :: k in m.entries ==>
          PushedOrNot(if k in ready.entries then ready.entries[k] else [], m.entries[k], now))
    && |m.overflow| == |ready.overflow|
    && forall i :: 0 <= i < |m.overflow| ==> PushedOrNot(Contents(ready.overflow[i]), Contents(m.overflow[i]), now)
  }

  /** In the middle of a call on `st`: it has only pruned so far, or it is recording. */
  ghost predicate Interrupted(c: Settings, st: State, keys: seq<Key>, m: State, now: Instant)
    requires c.Valid() && |st.overflow| == c.buckets
  {
    || OnlyPruned(c, st, m, now)
    || PartlyRecorded(Prepared(c, st, keys, now).0, Prepared(c, st, keys, now).1, m, now)
  }

  /** As it was, pruned, or pruned and truncated. */
  predicate RecoveringHistory(c: Settings, h: History, r: History, now: Instant) {
    PrunedHistory(c, h, r, now) || r == KeepNewest(c, Prune(c.window, h, now))
  }

  /** In the middle of recovering a sound state. */
  ghost predicate Recovering(c: Settings, found: State, m: State, now: Instant) {
    && |m.overflow| == |found.overflow|
    && m.entries.Keys <= found.entries.Keys
    && (forall k :: k in m.entries ==> RecoveringHistory(c, found.entries[k], m.entries[k], now))
    && (forall k :: k in found.entries && k !in m.entries ==> Prune(c.window, found.entries[k], now) == [])
    && forall i :: 0 <= i < |found.overflow| ==> RecoveringHistory(c, Contents(found.overflow[i]), Contents(m.overflow[i]), now)
  }

  /** In the middle of locking a poisoned limiter; damage is answered by two stores, one after the other. */
  ghost predicate LockMoment(c: Settings, found: State, m: State, now: Instant) {
    if Damaged(c, found) then m == found.(entries := map[]) || m == Recover(c, found, now)
    else Recovering(c, found, m, now)
  }
}
